/** What the monitor does with one fetched tweet: the spoiler filter, the permalink and the
    Discord message. */
module Tweets {
  import opened Wrappers
  import opened Strings
  import opened Integers

  /** Tweet ids are Python integers, stored as cursors in `last_tweet_ids`. */
  type TweetId = int

  /** The two fields the monitor reads from a fetched tweet: `tweet['id']` and `tweet['text']`. */
  datatype Tweet = Tweet(id: TweetId, text: string)

  /** The marker whose presence, in any letter case, keeps a tweet from being relayed. */
  const SpoilerTag: string := "#spoilersie"

  /** `'#spoilersie' in tweet_text.lower()`. */
  predicate IsSpoiler(t: Tweet) {
    Contains(Lower(t.text), SpoilerTag)
  }

  /** The eleven characters of `text` at `i` spell the marker in some mix of cases. */
  predicate TagAt(text: string, i: int) {
    0 <= i && i + |SpoilerTag| <= |text| && Lower(text[i..i + |SpoilerTag|]) == SpoilerTag
  }

  /** The filter is case-insensitive: a tweet is dropped exactly when its text holds the marker
      written in any mix of upper and lower case. */
  lemma SpoilerIffTagAnyCase(t: Tweet)
    ensures IsSpoiler(t) <==> exists i :: TagAt(t.text, i)
  {
    var n := |SpoilerTag|;
    ContainsSpec(Lower(t.text), SpoilerTag);
    forall i | OccursAt(Lower(t.text), SpoilerTag, i) ensures TagAt(t.text, i) {
      LowerSlice(t.text, i, i + n);
    }
    forall i | TagAt(t.text, i) ensures OccursAt(Lower(t.text), SpoilerTag, i) {
      LowerSlice(t.text, i, i + n);
    }
  }

  const UrlPrefix: string := "https://twitter.com/"
  const StatusSegment: string := "/status/"

  /** `f'https://twitter.com/{username}/status/{tweet_id}'`. */
  function TweetUrl(username: string, id: TweetId): (url: string)
  {
    UrlPrefix + username + StatusSegment + ShowInt(id)
  }

  /** The permalink names the account, and the tweet id can be read back from its last segment. */
  lemma TweetUrlRoundTrip(username: string, id: TweetId)
    ensures var k := |UrlPrefix| + |username| + |StatusSegment|;
            && k <= |TweetUrl(username, id)|
            && TweetUrl(username, id)[..k] == UrlPrefix + username + StatusSegment
            && ParseInt(TweetUrl(username, id)[k..]) == Some(id)
  {
    var k := |UrlPrefix| + |username| + |StatusSegment|;
    assert TweetUrl(username, id)[k..] == ShowInt(id);
    ParseShowInt(id);
  }

  /** The first line of every relayed message. */
  function Header(username: string): string {
    "\U{1F426} **New tweet from @" + username + "**\n\n"
  }

  /** What sits between the tweet text and the tweet id in a message. */
  function LinkLead(username: string): string {
    "\n\n[View on Twitter](" + UrlPrefix + username + StatusSegment
  }

  /** The Discord message for a tweet: header, the text verbatim, then a markdown link to it. */
  function FormatMessage(username: string, t: Tweet): (m: string)
  {
    Header(username) + t.text + "\n\n[View on Twitter](" + TweetUrl(username, t.id) + ")"
  }

  /** The message is the header, the unchanged text and the permalink, in that order. */
  lemma FormatMessageLayout(username: string, t: Tweet)
    ensures FormatMessage(username, t)
         == Header(username) + (t.text + LinkLead(username) + ShowInt(t.id)) + ")"
  {
  }

  lemma ShowIntHasNoSlash(n: int)
    ensures '/' !in ShowInt(n)
  {
    var s := ShowInt(n);
    if n < 0 {
      assert forall i :: 1 <= i < |s| ==> s[i] == ShowNat(-n)[i - 1];
    }
  }

  /** A string ending in a slash, followed by a slash-free suffix, can be cut in only one way. */
  lemma CancelAtLastSlash(a: string, b: string, k: string, s1: string, s2: string)
    requires |k| >= 1 && k[|k| - 1] == '/'
    requires '/' !in s1 && '/' !in s2
    requires a + k + s1 == b + k + s2
    ensures a == b && s1 == s2
  {
    var w1, w2 := a + k + s1, b + k + s2;
    var p1, p2 := |w1| - |s1| - 1, |w2| - |s2| - 1;
    assert w1[p1] == '/' && w2[p2] == '/';
    assert forall j :: p1 < j < |w1| ==> w1[j] == s1[j - p1 - 1];
    assert forall j :: p2 < j < |w2| ==> w2[j] == s2[j - p2 - 1];
    assert p1 == p2;
    assert s1 == w1[|w1| - |s1|..] == s2;
    assert a == w1[..|a|] == b;
  }

  /** Equal strings with a common prefix and suffix agree in between. */
  lemma CancelAffixes(h: string, x1: string, x2: string, c: string)
    requires h + x1 + c == h + x2 + c
    ensures x1 == x2
  {
    var m := h + x1 + c;
    assert x1 == m[|h|..|m| - |c|] == x2;
  }

  /** Two tweets of one account yield the same message only if they are the same tweet:
      a message identifies both the text and the id it was built from. */
  lemma MessageDeterminesTweet(username: string, t1: Tweet, t2: Tweet)
    requires FormatMessage(username, t1) == FormatMessage(username, t2)
    ensures t1 == t2
  {
    var h, k := Header(username), LinkLead(username);
    var s1, s2 := ShowInt(t1.id), ShowInt(t2.id);
    FormatMessageLayout(username, t1);
    FormatMessageLayout(username, t2);
    CancelAffixes(h, t1.text + k + s1, t2.text + k + s2, ")");
    ShowIntHasNoSlash(t1.id);
    ShowIntHasNoSlash(t2.id);
    CancelAtLastSlash(t1.text, t2.text, k, s1, s2);
    ShowIntInjective(t1.id, t2.id);
  }
}
