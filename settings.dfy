/** Start-up configuration of the monitor: the bearer-token check, the username list, the
    channel id and the polling interval, each read from a setting string. */
module Settings {
  import opened Wrappers
  import opened Strings
  import opened Integers

  const TokenPlaceholder: string := "tu_bearer_token"
  const UsernamesPlaceholder: string := "usuario1,usuario2,usuario3"
  const ChannelPlaceholder: string := "tu_channel_id"

  /** Seconds between cycles when the interval setting is not an integer. */
  const DefaultInterval: int := 300

  /** A Twitter client is created only for a non-empty token that is not the placeholder. */
  predicate TokenAccepted(token: string) {
    token != "" && token != TokenPlaceholder
  }

  /** `[u.strip() for u in usernames_str.split(',')]`. */
  function ParseUsernames(s: string): (names: seq<string>) {
    StripEach(Split(s, ','))
  }

  /** Each piece stripped, in order. */
  function StripEach(parts: seq<string>): seq<string> {
    seq(|parts|, i requires 0 <= i < |parts| => Strip(parts[i]))
  }

  /** A username as it stands after parsing: no comma, no whitespace at either end. */
  predicate CleanName(name: string) {
    ',' !in name && (name == [] || (!IsSpace(name[0]) && !IsSpace(name[|name| - 1])))
  }

  /** There is one username per comma-separated piece, each of them clean. */
  lemma ParseUsernamesShape(s: string)
    ensures |ParseUsernames(s)| == Count(s, ',') + 1
    ensures forall i :: 0 <= i < |ParseUsernames(s)| ==> CleanName(ParseUsernames(s)[i])
  {
    var parts := Split(s, ',');
    SplitLength(s, ',');
    SplitPiecesClean(s, ',');
    forall i | 0 <= i < |parts| ensures CleanName(Strip(parts[i])) {
      StripSpec(parts[i]);
      StripEnds(parts[i]);
      var lo, hi :| 0 <= lo <= hi <= |parts[i]| && Strip(parts[i]) == parts[i][lo..hi];
      assert forall c :: c in Strip(parts[i]) ==> c in parts[i];
    }
  }

  /** Listing clean usernames separated by commas configures exactly that list. */
  lemma ParseUsernamesJoin(names: seq<string>)
    requires |names| >= 1
    requires forall i :: 0 <= i < |names| ==> CleanName(names[i])
    ensures ParseUsernames(Join(names, ',')) == names
  {
    SplitJoin(names, ',');
    StripEachClean(names);
  }

  /** Stripping clean names changes none of them. */
  lemma StripEachClean(names: seq<string>)
    requires forall i :: 0 <= i < |names| ==> CleanName(names[i])
    ensures StripEach(names) == names
  {
    var r := StripEach(names);
    forall i | 0 <= i < |names| ensures r[i] == names[i] {
      StripUnpadded(names[i]);
    }
  }

  /** `int(check_interval_str)`, falling back to 300 on `ValueError`. */
  function IntervalOrDefault(s: string): (interval: int) {
    match ParseInt(s)
    case Some(n) => n
    case None => DefaultInterval
  }

  /** Any integer written in decimal is taken as the interval; text with a character that is
      neither a digit, a sign nor an underscore (once the whitespace `int()` skips is removed)
      falls back to 300. */
  lemma IntervalOrDefaultSpec(n: int, s: string)
    ensures IntervalOrDefault(ShowInt(n)) == n
    ensures (exists i :: 0 <= i < |IntStrip(s)| && !IsDigitOrUnderscore(IntStrip(s)[i]) && IntStrip(s)[i] !in "+-")
            ==> IntervalOrDefault(s) == DefaultInterval
  {
    ParseShowInt(n);
    if ParseInt(s).Some? {
      ParseIntAlphabet(s);
    }
  }

  /** The settings the monitoring loop runs with. */
  datatype MonitorSettings = MonitorSettings(usernames: seq<string>, channelId: int, checkInterval: int)

  /** Why the monitor returns before its loop. */
  datatype SettingsError =
    | ApiNotConfigured
    | UsernamesNotConfigured
    | ChannelNotConfigured
    | ChannelNotNumeric

  /** The checks `monitor_twitter` makes, in its order, before it enters the loop. */
  function ValidateSettings(apiConfigured: bool, usernamesStr: string, channelIdStr: string, intervalStr: string)
    : (r: Result<MonitorSettings, SettingsError>)
  {
    if !apiConfigured then Failure(ApiNotConfigured)
    else if usernamesStr == "" || usernamesStr == UsernamesPlaceholder then Failure(UsernamesNotConfigured)
    else if channelIdStr == "" || channelIdStr == ChannelPlaceholder then Failure(ChannelNotConfigured)
    else
      var usernames := ParseUsernames(usernamesStr);
      var interval := IntervalOrDefault(intervalStr);
      match ParseInt(channelIdStr)
      case None => Failure(ChannelNotNumeric)
      case Some(channelId) => Success(MonitorSettings(usernames, channelId, interval))
  }

  /** The monitor never starts on a missing or placeholder setting, or without a client. */
  lemma ValidateSettingsRefuses(api: bool, usernamesStr: string, channelIdStr: string, intervalStr: string)
    ensures !api ==> ValidateSettings(api, usernamesStr, channelIdStr, intervalStr) == Failure(ApiNotConfigured)
    ensures ValidateSettings(api, "", channelIdStr, intervalStr).Failure?
    ensures ValidateSettings(api, UsernamesPlaceholder, channelIdStr, intervalStr).Failure?
    ensures ValidateSettings(api, usernamesStr, "", intervalStr).Failure?
    ensures ValidateSettings(api, usernamesStr, ChannelPlaceholder, intervalStr).Failure?
    ensures ValidateSettings(api, usernamesStr, channelIdStr, intervalStr).Success? ==>
              ParseInt(channelIdStr).Some?
  {
  }

  /** With a client, a real username list and a channel id written in decimal, the monitor
      starts with exactly those usernames, that channel and the parsed-or-default interval. */
  lemma ValidateSettingsAccepts(names: seq<string>, channelId: int, intervalStr: string)
    requires |names| >= 1
    requires forall i :: 0 <= i < |names| ==> CleanName(names[i])
    requires Join(names, ',') != "" && Join(names, ',') != UsernamesPlaceholder
    ensures ValidateSettings(true, Join(names, ','), ShowInt(channelId), intervalStr)
         == Success(MonitorSettings(names, channelId, IntervalOrDefault(intervalStr)))
  {
    ParseUsernamesJoin(names);
    ParseShowInt(channelId);
    assert ShowInt(channelId) != ChannelPlaceholder by {
      assert ShowInt(channelId)[0] != 't';
    }
  }
}
