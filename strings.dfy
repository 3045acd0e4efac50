/** The few `str` operations the monitor relies on: lower(), `in`, strip(), split(','). */
module Strings {

  /** Python's `str.lower()` restricted to the ASCII letters A-Z. */
  function LowerChar(c: char): char {
    if 'A' <= c <= 'Z' then (c as int + 32) as char else c
  }

  /** `s.lower()`, character by character. */
  function Lower(s: string): (r: string)
  {
    seq(|s|, i requires 0 <= i < |s| => LowerChar(s[i]))
  }

  /** Lower-casing commutes with taking a slice. */
  lemma LowerSlice(s: string, i: nat, j: nat)
    requires i <= j <= |s|
    ensures Lower(s)[i..j] == Lower(s[i..j])
  {
    var l, r := Lower(s)[i..j], Lower(s[i..j]);
    assert |l| == |r|;
    forall k | 0 <= k < |l| ensures l[k] == r[k] {
      assert s[i..j][k] == s[i + k];
    }
  }

  /** `needle` occurs in `hay` starting at index `i`. */
  predicate OccursAt(hay: string, needle: string, i: int) {
    0 <= i && i + |needle| <= |hay| && hay[i..i + |needle|] == needle
  }

  /** Python's `needle in hay` for strings. */
  function Contains(hay: string, needle: string): (found: bool)
    decreases |hay|
  {
    if |hay| < |needle| then false
    else if hay[..|needle|] == needle then true
    else Contains(hay[1..], needle)
  }

  /** `needle in hay` holds exactly when `needle` occurs at some position of `hay`. */
  lemma {:induction false} ContainsSpec(hay: string, needle: string)
    ensures Contains(hay, needle) <==> exists i :: OccursAt(hay, needle, i)
    decreases |hay|
  {
    if |hay| < |needle| {
    } else if hay[..|needle|] == needle {
      assert OccursAt(hay, needle, 0);
    } else {
      ContainsShift(hay, needle);
      ContainsSpec(hay[1..], needle);
    }
  }

  /** An occurrence past the first position is an occurrence in the tail. */
  lemma ContainsShift(hay: string, needle: string)
    requires |hay| >= 1 && !OccursAt(hay, needle, 0)
    ensures (exists i :: OccursAt(hay, needle, i)) <==> (exists i :: OccursAt(hay[1..], needle, i))
  {
    forall i | OccursAt(hay, needle, i)
      ensures OccursAt(hay[1..], needle, i - 1)
    {
      assert hay[1..][i - 1..i - 1 + |needle|] == hay[i..i + |needle|];
    }
    forall i | OccursAt(hay[1..], needle, i)
      ensures OccursAt(hay, needle, i + 1)
    {
      assert hay[1..][i..i + |needle|] == hay[i + 1..i + 1 + |needle|];
    }
  }

  /** The characters for which Python's `str.isspace()` holds; `strip()` removes exactly these. */
  predicate IsSpace(c: char) {
    || ('\t' <= c <= '\r')
    || ('\U{1C}' <= c <= '\U{1F}')
    || c == ' '
    || c == '\U{85}'
    || c == '\U{A0}'
    || c == '\U{1680}'
    || ('\U{2000}' <= c <= '\U{200A}')
    || c == '\U{2028}'
    || c == '\U{2029}'
    || c == '\U{202F}'
    || c == '\U{205F}'
    || c == '\U{3000}'
  }

  predicate AllSpace(s: string) {
    forall i :: 0 <= i < |s| ==> IsSpace(s[i])
  }

  /** Length of the longest all-whitespace prefix. */
  function LeadingSpace(s: string): (k: nat)
    ensures k <= |s|
    ensures forall i :: 0 <= i < k ==> IsSpace(s[i])
    ensures k < |s| ==> !IsSpace(s[k])
  {
    if s == [] || !IsSpace(s[0]) then 0
    else
      var k := LeadingSpace(s[1..]);
      assert forall i :: 1 <= i < k + 1 ==> s[i] == s[1..][i - 1];
      k + 1
  }

  /** Length of the longest all-whitespace suffix. */
  function TrailingSpace(s: string): (k: nat)
    ensures k <= |s|
    ensures forall i :: |s| - k <= i < |s| ==> IsSpace(s[i])
    ensures k < |s| ==> !IsSpace(s[|s| - k - 1])
  {
    if s == [] || !IsSpace(s[|s| - 1]) then 0
    else
      var init := s[..|s| - 1];
      var k := TrailingSpace(init);
      assert forall i :: |init| - k <= i < |init| ==> s[i] == init[i];
      k + 1
  }

  /** Visible ASCII characters (letters, digits, signs) are not whitespace. */
  lemma VisibleAsciiIsNotSpace(c: char)
    requires '!' <= c <= '~'
    ensures !IsSpace(c)
  {
  }

  /** Python's `str.strip()` with no argument. */
  function Strip(s: string): (r: string)
  {
    var t := s[LeadingSpace(s)..];
    t[..|t| - TrailingSpace(t)]
  }

  /** `strip()` removes only whitespace, from both ends: what it keeps is a slice of `s`
      with only whitespace before and after it. */
  lemma StripSpec(s: string)
    ensures exists i, j :: 0 <= i <= j <= |s| && Strip(s) == s[i..j] && AllSpace(s[..i]) && AllSpace(s[j..])
  {
    var k := LeadingSpace(s);
    var t := s[k..];
    var m := TrailingSpace(t);
    var j := |s| - m;
    assert Strip(s) == s[k..j];
    forall i | 0 <= i < |s| - j ensures IsSpace(s[j..][i]) {
      assert s[j..][i] == t[|t| - m + i];
    }
    assert AllSpace(s[..k]) && AllSpace(s[j..]);
  }

  /** `strip()` leaves no whitespace at either end. */
  lemma StripEnds(s: string)
    ensures Strip(s) == [] || (!IsSpace(Strip(s)[0]) && !IsSpace(Strip(s)[|Strip(s)| - 1]))
  {
    var k := LeadingSpace(s);
    var t := s[k..];
    var j := TrailingSpace(t);
    var r := Strip(s);
    assert r == t[..|t| - j] && |r| == |t| - j;
    if r != [] {
      assert r[0] == s[k];
      assert r[|r| - 1] == t[|t| - j - 1];
    }
  }

  /** A string without whitespace at its ends is left unchanged by `strip()`. */
  lemma StripUnpadded(s: string)
    requires s == [] || (!IsSpace(s[0]) && !IsSpace(s[|s| - 1]))
    ensures Strip(s) == s
  {
  }

  /** `strip()` is idempotent. */
  lemma StripIdempotent(s: string)
    ensures Strip(Strip(s)) == Strip(s)
  {
    StripEnds(s);
    StripUnpadded(Strip(s));
  }

  /** Python's `sep.join(parts)`. */
  function Join(parts: seq<string>, sep: char): (r: string)
  {
    if |parts| == 0 then []
    else if |parts| == 1 then parts[0]
    else Join(parts[..|parts| - 1], sep) + [sep] + parts[|parts| - 1]
  }

  /** Python's `s.split(sep)` for a one-character separator: never empty. */
  function Split(s: string, sep: char): (r: seq<string>)
    ensures |r| >= 1
  {
    if s == [] then [[]]
    else
      var c := s[|s| - 1];
      var r := Split(s[..|s| - 1], sep);
      if c == sep then r + [[]]
      else r[..|r| - 1] + [r[|r| - 1] + [c]]
  }

  /** The pieces of a split hold no separator. */
  lemma {:induction false} SplitPiecesClean(s: string, sep: char)
    ensures forall i :: 0 <= i < |Split(s, sep)| ==> sep !in Split(s, sep)[i]
  {
    if s != [] {
      var init, c := s[..|s| - 1], s[|s| - 1];
      var r := Split(init, sep);
      SplitPiecesClean(init, sep);
      if c != sep {
        var m := |r| - 1;
        var q := r[..m] + [r[m] + [c]];
        forall i | 0 <= i < |q| ensures sep !in q[i] {
          if i < m {
            assert q[i] == r[i];
          } else {
            assert q[i] == r[m] + [c];
          }
        }
      }
    }
  }

  /** Joining the pieces of a split with the separator gives the string back. */
  lemma {:induction false} SplitJoinBack(s: string, sep: char)
    ensures Join(Split(s, sep), sep) == s
  {
    if s != [] {
      var init, c := s[..|s| - 1], s[|s| - 1];
      var r := Split(init, sep);
      SplitJoinBack(init, sep);
      assert init + [c] == s;
      var m := |r| - 1;
      if c == sep {
        var q := r + [[]];
        assert q[..|r|] == r;
        assert Join(q, sep) == Join(r, sep) + [sep] + [];
      } else {
        var q := r[..m] + [r[m] + [c]];
        assert q[..m] == r[..m] && q[m] == r[m] + [c];
        if m > 0 {
          assert Join(r, sep) == Join(r[..m], sep) + [sep] + r[m];
          assert Join(q, sep) == Join(r[..m], sep) + [sep] + (r[m] + [c]);
        }
      }
    }
  }

  /** Number of occurrences of `c` in `s`. */
  function Count(s: string, c: char): nat {
    if s == [] then 0 else Count(s[..|s| - 1], c) + (if s[|s| - 1] == c then 1 else 0)
  }

  /** `s.split(sep)` yields one more piece than there are separators. */
  lemma {:induction false} SplitLength(s: string, sep: char)
    ensures |Split(s, sep)| == Count(s, sep) + 1
  {
    if s != [] {
      SplitLength(s[..|s| - 1], sep);
    }
  }

  /** A separator-free string splits into itself alone. */
  lemma {:induction false} SplitUnbroken(s: string, sep: char)
    requires sep !in s
    ensures Split(s, sep) == [s]
  {
    if s != [] {
      var init := s[..|s| - 1];
      assert sep !in init by {
        forall k | 0 <= k < |init| ensures init[k] != sep {
          assert init[k] == s[k];
        }
      }
      SplitUnbroken(init, sep);
      assert init + [s[|s| - 1]] == s;
    }
  }

  /** Splitting a join of separator-free pieces gives the pieces back. */
  lemma {:induction false} SplitJoin(parts: seq<string>, sep: char)
    requires |parts| >= 1
    requires forall i :: 0 <= i < |parts| ==> sep !in parts[i]
    ensures Split(Join(parts, sep), sep) == parts
  {
    var n := |parts| - 1;
    if n == 0 {
      SplitUnbroken(parts[0], sep);
      assert parts == [parts[0]];
    } else {
      var init := parts[..n];
      SplitJoin(init, sep);
      SplitAppend(Join(init, sep), parts[n], sep);
      assert Join(parts, sep) == Join(init, sep) + [sep] + parts[n];
      assert init + [parts[n]] == parts;
    }
  }

  /** Appending a separator and a separator-free piece appends that piece to the split. */
  lemma {:induction false} SplitAppend(a: string, b: string, sep: char)
    requires sep !in b
    ensures Split(a + [sep] + b, sep) == Split(a, sep) + [b]
  {
    var s := a + [sep] + b;
    if b == [] {
      assert s[..|a|] == a && s[|s| - 1] == sep;
    } else {
      var init, c := b[..|b| - 1], b[|b| - 1];
      assert sep !in init && c != sep;
      SplitAppend(a, init, sep);
      assert s[..|s| - 1] == a + [sep] + init && s[|s| - 1] == c;
      var r := Split(a + [sep] + init, sep);
      assert r == Split(a, sep) + [init];
      assert Split(s, sep) == r[..|r| - 1] + [r[|r| - 1] + [c]];
      assert r[..|r| - 1] == Split(a, sep);
      assert init + [c] == b;
    }
  }
}
