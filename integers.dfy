/** Python's `int(s)` for base-10 text and `str(n)` (as used by f-strings) for integers. */
module Integers {
  import opened Wrappers
  import opened Strings

  predicate IsDigit(c: char) {
    '0' <= c <= '9'
  }

  function DigitValue(c: char): nat
    requires IsDigit(c)
  {
    c as int - '0' as int
  }

  function DigitChar(d: nat): (c: char)
    requires d < 10
    ensures IsDigit(c) && DigitValue(c) == d
  {
    ('0' as int + d) as char
  }

  /** Decimal rendering of a natural number, without leading zeros. */
  function ShowNat(n: nat): (r: string)
    ensures |r| >= 1
    ensures forall i :: 0 <= i < |r| ==> IsDigit(r[i])
  {
    if n < 10 then [DigitChar(n)] else ShowNat(n / 10) + [DigitChar(n % 10)]
  }

  /** `str(n)`: a minus sign for negative numbers, then the digits. */
  function ShowInt(n: int): (r: string)
  {
    if n < 0 then "-" + ShowNat(-n) else ShowNat(n)
  }

  /** Characters `int()` accepts inside the digit part. */
  predicate IsDigitOrUnderscore(c: char) {
    IsDigit(c) || c == '_'
  }

  /** The digit part `int()` accepts: digits, with single underscores only between two digits. */
  predicate WellFormedDigits(d: string) {
    && |d| >= 1
    && IsDigit(d[0])
    && IsDigit(d[|d| - 1])
    && (forall i :: 0 <= i < |d| ==> IsDigitOrUnderscore(d[i]))
    && (forall i :: 0 <= i < |d| - 1 && d[i] == '_' ==> d[i + 1] != '_')
  }

  /** The value of a digit string, underscores being ignored. */
  function DigitsValue(d: string): nat
    requires forall i :: 0 <= i < |d| ==> IsDigitOrUnderscore(d[i])
  {
    if d == [] then 0
    else
      var init := DigitsValue(d[..|d| - 1]);
      var c := d[|d| - 1];
      assert IsDigitOrUnderscore(c);
      if c == '_' then init else init * 10 + DigitValue(c)
  }

  /** The whitespace `int()` skips around a number: that of `str.isspace()` except the ASCII
      separators U+001C-U+001F, which `strip()` removes but `int()` rejects. */
  predicate IsIntSpace(c: char) {
    IsSpace(c) && !('\U{1C}' <= c <= '\U{1F}')
  }

  /** Length of the longest prefix of whitespace that `int()` skips. */
  function LeadingIntSpace(s: string): (k: nat)
    ensures k <= |s|
    ensures forall i :: 0 <= i < k ==> IsIntSpace(s[i])
    ensures k < |s| ==> !IsIntSpace(s[k])
  {
    if s == [] || !IsIntSpace(s[0]) then 0
    else
      var k := LeadingIntSpace(s[1..]);
      assert forall i :: 1 <= i < k + 1 ==> s[i] == s[1..][i - 1];
      k + 1
  }

  /** Length of the longest suffix of whitespace that `int()` skips. */
  function TrailingIntSpace(s: string): (k: nat)
    ensures k <= |s|
    ensures forall i :: |s| - k <= i < |s| ==> IsIntSpace(s[i])
    ensures k < |s| ==> !IsIntSpace(s[|s| - k - 1])
  {
    if s == [] || !IsIntSpace(s[|s| - 1]) then 0
    else
      var init := s[..|s| - 1];
      var k := TrailingIntSpace(init);
      assert forall i :: |init| - k <= i < |init| ==> s[i] == init[i];
      k + 1
  }

  /** The text `int()` reads: `s` without the whitespace it skips at either end. */
  function IntStrip(s: string): (r: string)
  {
    var t := s[LeadingIntSpace(s)..];
    t[..|t| - TrailingIntSpace(t)]
  }

  /** Text without such whitespace at its ends is read as it is. */
  lemma IntStripUnpadded(s: string)
    requires s == [] || (!IsIntSpace(s[0]) && !IsIntSpace(s[|s| - 1]))
    ensures IntStrip(s) == s
  {
  }

  /** `int(s)`: surrounding whitespace skipped, then a signed digit string; `None` stands for
      the `ValueError` Python raises otherwise. */
  function ParseInt(s: string): (r: Option<int>)
  {
    ParseSigned(IntStrip(s))
  }

  /** An optional sign, then well-formed digits. */
  function ParseSigned(t: string): (r: Option<int>)
  {
    if |t| >= 1 && (t[0] == '-' || t[0] == '+') then
      if WellFormedDigits(t[1..]) then
        var v: int := DigitsValue(t[1..]);
        Some(if t[0] == '-' then -v else v)
      else None
    else if WellFormedDigits(t) then Some(DigitsValue(t))
    else None
  }

  /** Whatever `int()` accepts consists, once its surrounding whitespace is skipped, of a sign,
      digits and underscores only. */
  lemma ParseIntAlphabet(s: string)
    requires ParseInt(s).Some?
    ensures forall i :: 0 <= i < |IntStrip(s)| ==>
              IsDigitOrUnderscore(IntStrip(s)[i]) || (i == 0 && IntStrip(s)[i] in "+-")
  {
    var t := IntStrip(s);
    if |t| >= 1 && (t[0] == '-' || t[0] == '+') {
      forall i | 1 <= i < |t| ensures IsDigitOrUnderscore(t[i]) {
        assert t[i] == t[1..][i - 1];
      }
    }
  }

  /** The digits of `n` read back as `n`. */
  lemma {:induction false} DigitsValueShowNat(n: nat)
    ensures DigitsValue(ShowNat(n)) == n
  {
    if n >= 10 {
      DigitsValueShowNat(n / 10);
      var r := ShowNat(n);
      assert r[..|r| - 1] == ShowNat(n / 10);
    }
  }

  /** A non-empty run of digits, with or without a minus sign, reads as its value. */
  lemma ParseSignedDigits(d: string)
    requires |d| >= 1 && forall i :: 0 <= i < |d| ==> IsDigit(d[i])
    ensures ParseSigned(d) == Some(DigitsValue(d))
    ensures var v: int := DigitsValue(d); ParseSigned("-" + d) == Some(-v)
  {
    assert WellFormedDigits(d);
    assert ("-" + d)[1..] == d;
  }

  /** `int()` reads a non-empty run of digits, with or without a minus sign, as its value:
      such text has no whitespace to skip. */
  lemma ParseDigits(d: string)
    requires |d| >= 1 && forall i :: 0 <= i < |d| ==> IsDigit(d[i])
    ensures ParseInt(d) == Some(DigitsValue(d))
    ensures var v: int := DigitsValue(d); ParseInt("-" + d) == Some(-v)
  {
    ParseSignedDigits(d);
    VisibleAsciiIsNotSpace(d[0]);
    VisibleAsciiIsNotSpace(d[|d| - 1]);
    IntStripUnpadded(d);
    var s := "-" + d;
    assert s[0] == '-' && s[|s| - 1] == d[|d| - 1];
    VisibleAsciiIsNotSpace(s[0]);
    IntStripUnpadded(s);
  }

  /** `int(str(n)) == n`: the parser reads back what the formatter writes. */
  lemma ParseShowInt(n: int)
    ensures ParseInt(ShowInt(n)) == Some(n)
  {
    var m := if n < 0 then -n else n;
    DigitsValueShowNat(m);
    ParseDigits(ShowNat(m));
  }

  /** `str` is injective on integers. */
  lemma ShowIntInjective(a: int, b: int)
    requires ShowInt(a) == ShowInt(b)
    ensures a == b
  {
    ParseShowInt(a);
    ParseShowInt(b);
  }
}
