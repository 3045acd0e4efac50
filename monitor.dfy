/** The `TwitterMonitor` object: its two dictionaries, updated in place by the account check,
    and the monitoring loop that drives it. Twitter and Discord are replaced by the answers
    they give (see MonitorSpec's oracle datatypes). */
module Monitor {
  import opened Wrappers
  import Strings
  import opened Tweets
  import opened Settings
  import opened MonitorSpec

  class TwitterMonitor {
    /** Seconds between cycles, as passed by `start_twitter_monitoring`. */
    var checkInterval: int
    /** Whether `_setup_twitter_api` created a client (`self.twitter_api` is not `None`). */
    var apiConfigured: bool
    /** Per-username cursor: the id of the last tweet looked at. */
    var lastTweetIds: map<string, TweetId>
    /** Username to user id; never evicted. */
    var userIdsCache: map<string, UserId>

    /** The two dictionaries, as a value. */
    function Model(): MonitorState
      reads this
    {
      MonitorState(lastTweetIds, userIdsCache)
    }

    /** `TwitterMonitor(client, check_interval)`: empty maps, then the client set-up. */
    constructor (checkInterval: int, bearerToken: string)
      ensures this.checkInterval == checkInterval
      ensures apiConfigured == TokenAccepted(bearerToken)
      ensures Model() == MonitorState(map[], map[])
    {
      this.checkInterval := checkInterval;
      lastTweetIds := map[];
      apiConfigured := false;
      userIdsCache := map[];
      new;
      SetupTwitterApi(bearerToken);
    }

    /** `_setup_twitter_api`: a client only for a token that is neither empty nor the placeholder. */
    method SetupTwitterApi(bearerToken: string)
      modifies this`apiConfigured
      ensures apiConfigured == (TokenAccepted(bearerToken) || old(apiConfigured))
    {
      if bearerToken == "" || bearerToken == TokenPlaceholder {
        return;
      }
      apiConfigured := true;
    }

    /** `_get_user_id`: `lookup` is what `get_user` would answer; `lookedUp` tells whether it
        was asked. */
    method GetUserId(username: string, lookup: Option<UserId>) returns (userId: Option<UserId>, lookedUp: bool)
      modifies this`userIdsCache
      ensures Resolution(userId, userIdsCache, lookedUp) == ResolveUserId(old(userIdsCache), username, lookup)
    {
      if username in userIdsCache {
        return Some(userIdsCache[username]), false;
      }
      lookedUp := true;
      if lookup.Some? {
        userIdsCache := userIdsCache[username := lookup.value];
        return lookup, lookedUp;
      }
      return None, lookedUp;
    }

    /** `_check_and_post_tweets`: `sent` are the messages Discord accepted, `request` the
        parameters of the fetch (if one was made), and `cursorWrites` the successive values
        assigned to `last_tweet_ids[username]`. */
    method CheckAndPostTweets(username: string, oracle: AccountOracle)
      returns (sent: seq<Message>, request: Option<FetchParams>, outcome: CheckOutcome, ghost cursorWrites: seq<TweetId>)
      modifies this`lastTweetIds, this`userIdsCache
      ensures CheckReport(Model(), sent, request, outcome, cursorWrites) == CheckSpec(old(Model()), username, oracle)
    {
      sent, request, cursorWrites := [], None, [];
      var userId, _ := GetUserId(username, oracle.lookup);
      if !(userId.Some? && userId.value != "") {
        return sent, request, UserNotFound, cursorWrites;
      }

      var sinceId := Get(lastTweetIds, username);
      var params := FetchParams(userId.value, MaxResults, TweetFields, UserFields, None);
      if sinceId.Some? && sinceId.value != 0 {
        params := params.(sinceId := sinceId);
      }
      request := Some(params);

      if oracle.fetch.FetchFailed? {
        return sent, request, FetchError, cursorWrites;
      }
      var data := oracle.fetch.data;
      if data == [] {
        return sent, request, NoNewTweets, cursorWrites;
      }

      sent, outcome, cursorWrites := ProcessBatch(username, Reversed(data), oracle.failAt);
    }

    /** The `for tweet in reversed(tweets.data)` loop of `_check_and_post_tweets`, given the
        batch oldest first: each tweet in turn moves the cursor; a spoiler is skipped, any
        other tweet is sent, and a send that raises ends the check. */
    method ProcessBatch(username: string, batch: seq<Tweet>, failAt: Option<nat>)
      returns (sent: seq<Message>, outcome: CheckOutcome, ghost cursorWrites: seq<TweetId>)
      requires batch != []
      modifies this`lastTweetIds
      ensures lastTweetIds == old(lastTweetIds)[username := batch[EvaluatedCount(batch, failAt) - 1].id]
      ensures sent == Relay(username, batch[..CompletedCount(batch, failAt)])
      ensures cursorWrites == Ids(batch[..EvaluatedCount(batch, failAt)])
      ensures outcome == match FailurePoint(batch, failAt) case Some(k) => SendFailed(k) case None => Relayed
    {
      sent, cursorWrites := [], [];
      ghost var stop := FailurePoint(batch, failAt);
      var n := 0;
      var failed := false;
      while n < |batch| && !failed
        invariant 0 <= n <= |batch|
        invariant failed ==> n > 0 && stop == Some(n - 1)
        invariant !failed ==> stop.None? || n <= stop.value
        invariant n == 0 ==> lastTweetIds == old(lastTweetIds)
        invariant n > 0 ==> lastTweetIds == old(lastTweetIds)[username := batch[n - 1].id]
        invariant cursorWrites == Ids(batch[..n])
        invariant failed ==> sent == Relay(username, batch[..n - 1])
        invariant !failed ==> sent == Relay(username, batch[..n])
      {
        var tweet := batch[n];
        ghost var advanced := old(lastTweetIds)[username := tweet.id];
        assert lastTweetIds[username := tweet.id] == advanced;
        var delivered, raised := EvaluateTweet(username, tweet, failAt == Some(n));
        BatchStep(username, batch, failAt, n, delivered, raised);
        cursorWrites := cursorWrites + [tweet.id];
        sent := sent + delivered;
        failed := raised;
        n := n + 1;
      }
      outcome := if failed then SendFailed(n - 1) else Relayed;
      assert !failed ==> batch[..n] == batch;
    }

    /** The body of that loop for one tweet: the cursor moves to it; a spoiler is skipped,
        any other tweet is formatted and sent. `sendRaises` is whether `channel.send` raises;
        `raised` reports that it did, which ends the check. */
    method EvaluateTweet(username: string, tweet: Tweet, sendRaises: bool) returns (delivered: seq<Message>, raised: bool)
      modifies this`lastTweetIds
      ensures lastTweetIds == old(lastTweetIds)[username := tweet.id]
      ensures raised == (!IsSpoiler(tweet) && sendRaises)
      ensures delivered == if IsSpoiler(tweet) || sendRaises then [] else [FormatMessage(username, tweet)]
    {
      delivered, raised := [], false;
      if Strings.Contains(Strings.Lower(tweet.text), SpoilerTag) {
        lastTweetIds := lastTweetIds[username := tweet.id];
        return;
      }
      lastTweetIds := lastTweetIds[username := tweet.id];
      var message := FormatMessage(username, tweet);
      if sendRaises {
        raised := true;
      } else {
        delivered := [message];
      }
    }

    /** One pass of the `while True` body of `monitor_twitter`, once its settings are known. */
    method RunCycle(usernames: seq<string>, cycle: CycleOracle)
      returns (sent: seq<Message>, requests: seq<FetchParams>, status: CycleStatus)
      requires |cycle.accounts| == |usernames|
      modifies this`lastTweetIds, this`userIdsCache
      ensures CycleReport(Model(), sent, requests, status) == CycleSpec(old(Model()), usernames, cycle)
    {
      sent, requests := [], [];
      if !cycle.channel.ready {
        return sent, requests, WaitingForDiscord;
      }
      if !cycle.channel.cached && !cycle.channel.fetchable {
        return sent, requests, ChannelNotFound;
      }
      var i := 0;
      while i < |usernames|
        invariant 0 <= i <= |usernames|
        invariant Effect(Model(), sent, requests) == CheckAll(old(Model()), usernames[..i], cycle.accounts[..i])
      {
        CheckAllSnoc(old(Model()), usernames, cycle.accounts, i);
        var more, request, _, _ := CheckAndPostTweets(usernames[i], cycle.accounts[i]);
        sent := sent + more;
        requests := requests + Requested(request);
        i := i + 1;
      }
      assert usernames[..i] == usernames && cycle.accounts[..i] == cycle.accounts;
      status := Checked;
    }

    /** `monitor_twitter`, run for as many cycles as `cycles` describes: the setting checks,
        then the loop. */
    method MonitorTwitter(usernamesStr: string, channelIdStr: string, intervalStr: string, cycles: seq<CycleOracle>)
      returns (settings: Result<MonitorSettings, SettingsError>, sent: seq<Message>, requests: seq<FetchParams>)
      requires OraclesFit(cycles, ParseUsernames(usernamesStr))
      modifies this`lastTweetIds, this`userIdsCache
      ensures settings == ValidateSettings(apiConfigured, usernamesStr, channelIdStr, intervalStr)
      ensures settings.Failure? ==> Model() == old(Model()) && sent == [] && requests == []
      ensures settings.Success? ==> Effect(Model(), sent, requests) == RunCycles(old(Model()), settings.value.usernames, cycles)
    {
      sent, requests := [], [];
      settings := ValidateSettings(apiConfigured, usernamesStr, channelIdStr, intervalStr);
      if settings.Failure? {
        return;
      }
      var usernames := settings.value.usernames;
      var k := 0;
      while k < |cycles|
        invariant 0 <= k <= |cycles|
        invariant Effect(Model(), sent, requests) == RunCycles(old(Model()), usernames, cycles[..k])
      {
        assert cycles[..k + 1][..k] == cycles[..k];
        var more, fetched, _ := RunCycle(usernames, cycles[k]);
        sent := sent + more;
        requests := requests + fetched;
        k := k + 1;
      }
      assert cycles[..k] == cycles;
    }
  }

  /** `start_twitter_monitoring`: the interval with its fallback, a new monitor, then its loop. */
  method StartTwitterMonitoring(bearerToken: string, usernamesStr: string, channelIdStr: string, intervalStr: string, cycles: seq<CycleOracle>)
    returns (monitor: TwitterMonitor, settings: Result<MonitorSettings, SettingsError>, sent: seq<Message>, requests: seq<FetchParams>)
    requires OraclesFit(cycles, ParseUsernames(usernamesStr))
    ensures fresh(monitor)
    ensures monitor.checkInterval == IntervalOrDefault(intervalStr)
    ensures settings == ValidateSettings(TokenAccepted(bearerToken), usernamesStr, channelIdStr, intervalStr)
    ensures settings.Success? ==>
              Effect(monitor.Model(), sent, requests) == RunCycles(MonitorState(map[], map[]), settings.value.usernames, cycles)
    ensures settings.Failure? ==> monitor.Model() == MonitorState(map[], map[]) && sent == [] && requests == []
  {
    var checkInterval := IntervalOrDefault(intervalStr);
    monitor := new TwitterMonitor(checkInterval, bearerToken);
    settings, sent, requests := monitor.MonitorTwitter(usernamesStr, channelIdStr, intervalStr, cycles);
  }
}
