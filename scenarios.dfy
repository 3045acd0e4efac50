/** Concrete inputs worked out on the model: three account checks and two start-up settings. */
module Scenarios {
  import opened Wrappers
  import opened Strings
  import opened Integers
  import opened Tweets
  import opened Settings
  import opened MonitorSpec

  const Fresh: MonitorState := MonitorState(map[], map[])

  /** `get_users_tweets` answers, newest first, a spoiler with id 5 and then "world" with id 6. */
  const SpoilerThenWorld: AccountOracle :=
    AccountOracle(Some("42"), Fetched([Tweet(5, "hello #SpoilerSie"), Tweet(6, "world")]), None)

  /** The filter drops the first tweet (the tag in mixed case) and keeps "world". */
  lemma SpoilerThenWorldFilter()
    ensures IsSpoiler(Tweet(5, "hello #SpoilerSie"))
    ensures !IsSpoiler(Tweet(6, "world"))
  {
    var low := Lower("hello #SpoilerSie");
    assert low[6..17] == SpoilerTag;
    ContainsSpec(low, SpoilerTag);
    assert OccursAt(low, SpoilerTag, 6);
  }

  /** The permalink of tweet 6 of "alpha", written out. */
  lemma WorldPermalink()
    ensures TweetUrl("alpha", 6) == "https://twitter.com/alpha/status/6"
  {
    assert ShowInt(6) == "6";
  }

  /** A first check of "alpha": no `since_id`; the batch is walked in reverse (6, then 5), so
      "world" is the one message sent, and the cursor ends on the spoiler's
      id 5, the last tweet looked at; the user id found is cached. */
  lemma SpoilerThenWorldScenario()
    ensures CheckSpec(Fresh, "alpha", SpoilerThenWorld).request
         == Some(FetchParams("42", 10, ["created_at", "public_metrics"], ["username"], None))
    ensures CheckSpec(Fresh, "alpha", SpoilerThenWorld).sent == [FormatMessage("alpha", Tweet(6, "world"))]
    ensures CheckSpec(Fresh, "alpha", SpoilerThenWorld).state
         == MonitorState(map["alpha" := 5], map["alpha" := "42"])
    ensures CheckSpec(Fresh, "alpha", SpoilerThenWorld).cursorWrites == [6, 5]
  {
    var spoiler, world := Tweet(5, "hello #SpoilerSie"), Tweet(6, "world");
    var batch := Reversed(SpoilerThenWorld.fetch.data);
    assert batch == [world, spoiler];
    SpoilerThenWorldFilter();
    assert FailurePoint(batch, None) == None;
    assert batch[..2] == batch;
    RelaySnoc("alpha", [], world);
    RelaySnoc("alpha", [world], spoiler);
    assert [] + [world] == [world] && [world] + [spoiler] == batch;
    IdsSnoc([], world);
    IdsSnoc([world], spoiler);
    assert Fresh.lastTweetIds["alpha" := 5] == map["alpha" := 5];
    assert Fresh.userIdsCache["alpha" := "42"] == map["alpha" := "42"];
  }

  /** A second check with the cursor at 5 and nothing newer: `since_id=5` is sent, nothing is
      sent to Discord and the state is unchanged. */
  lemma NothingNewScenario()
    ensures var s := MonitorState(map["alpha" := 5], map["alpha" := "42"]);
            var o := AccountOracle(None, Fetched([]), None);
            && CheckSpec(s, "alpha", o).request
               == Some(FetchParams("42", 10, ["created_at", "public_metrics"], ["username"], Some(5)))
            && CheckSpec(s, "alpha", o).sent == []
            && CheckSpec(s, "alpha", o).state == s
            && CheckSpec(s, "alpha", o).outcome == NoNewTweets
  {
  }

  /** A tweet with id 0 leaves a cursor that is stored but falsy: the next request carries no
      `since_id`, so the same tweet can come back and be sent again. Twitter's ids are positive,
      which is why the delivery lemmas ask for positive ids. */
  lemma ZeroIdCursorIsNotSent()
    ensures var first := CheckSpec(Fresh, "alpha", AccountOracle(Some("42"), Fetched([Tweet(0, "x")]), None));
            var again := CheckSpec(first.state, "alpha", AccountOracle(None, Fetched([Tweet(0, "x")]), None));
            && first.sent == [FormatMessage("alpha", Tweet(0, "x"))]
            && first.state.lastTweetIds == map["alpha" := 0]
            && again.request.Some? && again.request.value.sinceId == None
            && again.sent == first.sent
  {
    var x := Tweet(0, "x");
    var o := AccountOracle(Some("42"), Fetched([x]), None);
    assert Reversed([x]) == [x] by {
      assert Reversed([x]) == Reversed([]) + [x];
    }
    assert !IsSpoiler(x) by {
      ContainsSpec(Lower("x"), SpoilerTag);
    }
    RelaySnoc("alpha", [], x);
    assert [x][..1] == [x] && [] + [x] == [x];
    assert Fresh.lastTweetIds["alpha" := 0] == map["alpha" := 0];
  }

  /** A channel id preceded by U+001F: `strip()` removes the separator, yet `int()` rejects
      it, so the monitor returns before its loop. */
  lemma SeparatorBeforeChannelId()
    ensures Strip("\U{1F}123") == "123"
    ensures ParseInt("\U{1F}123") == None
    ensures ValidateSettings(true, "alpha", "\U{1F}123", "300") == Failure(ChannelNotNumeric)
  {
    var t := "\U{1F}123";
    assert LeadingSpace(t) == 1;
    StripUnpadded("123");
    IntStripUnpadded(t);
  }

  /** An interval preceded by U+001C is not a number to `int()`: the default 300 is used. */
  lemma SeparatorBeforeInterval()
    ensures IntervalOrDefault("\U{1C}60") == DefaultInterval
  {
    IntStripUnpadded("\U{1C}60");
  }
}
