# Twitter monitor of inazuma_bot, in Dafny

This project models the Twitter-to-Discord relay of the bot, `twitter_monitor.py`, and proves
properties of the model.

The `TwitterMonitor` object keeps two dictionaries:
- `last_tweet_ids`: username to the id of the last tweet looked at, the cursor;
- `user_ids_cache`: username to Twitter user id.

Each check of a username runs in a fixed order. It resolves the user id, from the cache or with
one lookup. It asks Twitter for at most 10 tweets, with `since_id` only when the stored cursor is
truthy. It walks the batch oldest first. Every tweet moves the cursor before anything else
happens. A tweet whose lower-cased text contains `#spoilersie` is skipped. Any other tweet is
formatted as a Discord message and sent, and a send that raises ends the check. The monitoring
loop validates its settings, then, in every cycle, waits for Discord, finds the channel and
checks every username in list order.

Twitter and Discord are not modelled; what they answer is an input:
- `AccountOracle`, for one check: the `get_user` result, the `get_users_tweets` result
  (an exception, or the tweets newest first) and the oldest-first position whose
  `channel.send` raises;
- `CycleOracle`, for one cycle: the Discord readiness, the `get_channel` and `fetch_channel`
  outcomes, and one `AccountOracle` per username.

Environment variables become string parameters.

Modules:
- `wrappers.dfy`: `Option`, `Result`, and dictionary `get`.
- `strings.dfy`: the `str` operations the monitor uses. `lower()` on ASCII, `in`, `strip()` with
  Python's whitespace set, `split(',')` and `join`.
- `integers.dfy`: Python's `int()` on base-10 text and `str()` of an integer. `int()` skips
  surrounding whitespace, then reads an optional sign and digits with single `_` between them.
  Its whitespace set is narrower than that of `strip()`: it lacks the separators U+001C-U+001F.
  So a channel id written `"\x1f123"` stops the monitor, although `strip()` would have removed
  the separator (`Scenarios.SeparatorBeforeChannelId`).
- `tweets.dfy`: the spoiler filter, the permalink and the Discord message.
- `settings.dfy`: the placeholder checks, the username list, the interval fallback and the
  start-up checks of `monitor_twitter`.
- `monitor_spec.dfy`: the effect of a check, of a cycle and of a run of cycles, as functions of
  the two dictionaries and the oracles, and the properties proved about them.
- `monitor.dfy`: the class `TwitterMonitor`, whose fields are updated in place by the methods.
  Each method is tied to the functions it is proved against:
  - the constructor and `SetupTwitterApi`: `Settings.TokenAccepted`;
  - `GetUserId`: `ResolveUserId`;
  - `CheckAndPostTweets`: `CheckSpec`;
  - `ProcessBatch`: `Relay`, `Ids`, `EvaluatedCount`, `CompletedCount` and `FailurePoint`;
  - `EvaluateTweet`: `Tweets.IsSpoiler` and `Tweets.FormatMessage`, for one tweet;
  - `RunCycle`: `CycleSpec`;
  - `MonitorTwitter`: `Settings.ValidateSettings`, then `RunCycles`;
  - `StartTwitterMonitoring`: `Settings.IntervalOrDefault` and `Settings.TokenAccepted`, then
    `Settings.ValidateSettings` and `RunCycles`.
- `scenarios.dfy`: two concrete checks and two start-up settings worked out on the model.

The code relies on one behaviour that an informal reading may miss. The cursor ends on the id of
the LAST tweet looked at: the oldest-first walk ends on the first element Twitter returned. When
Twitter returns newest first, this is the newest tweet (`CheckRelaysWholeBatch`). When the answer
is `[5 "hello #spoilersie", 6 "world"]`, the code sends "world" and leaves the cursor at 5, not 6
(`Scenarios.SpoilerThenWorldScenario`).

## Model

| member | source | states |
|---|---|---|
| `Monitor.TwitterMonitor.constructor` | twitter_monitor.py:10-23 | the interval is stored as given, both dictionaries start empty, and a client exists exactly when the token is accepted |
| `Monitor.TwitterMonitor.SetupTwitterApi` | twitter_monitor.py:25-38 | a client is configured only for a token that is neither empty nor `tu_bearer_token`; otherwise nothing changes |
| `Monitor.TwitterMonitor.GetUserId` | twitter_monitor.py:117-131 | the id returned, whether `get_user` was called, and the new cache are those of `ResolveUserId` |
| `Monitor.TwitterMonitor.CheckAndPostTweets` | twitter_monitor.py:133-192 | the messages sent, the fetch request, the outcome, the cursor history and the new dictionaries are exactly `CheckSpec` of the old dictionaries |
| `Monitor.TwitterMonitor.ProcessBatch` | twitter_monitor.py:160-192 | walking the batch oldest first: the cursor ends on the last tweet looked at, the sent messages are the non-spoiler tweets before the failed send (or all of them), and the outcome names the failed position |
| `Monitor.TwitterMonitor.EvaluateTweet` | twitter_monitor.py:162-183 | the cursor moves to the tweet first; a spoiler is never sent; any other tweet is sent as `FormatMessage`, unless the send raises |
| `Monitor.TwitterMonitor.RunCycle` | twitter_monitor.py:78-110 | one pass of the loop body leaves the dictionaries, the sent messages and the fetch requests given by `CycleSpec` |
| `Monitor.TwitterMonitor.MonitorTwitter` | twitter_monitor.py:40-115 | the start-up checks are those of `ValidateSettings`; when one fails no fetch request is made and nothing is sent or stored, otherwise the dictionaries, the messages and the requests are those of `RunCycles` |
| `Monitor.StartTwitterMonitoring` | twitter_monitor.py:195-204 | the monitor gets the parsed interval or 300 and starts empty; it runs `monitor_twitter` with the token check of its set-up, and when the settings are refused it is still empty and has fetched and sent nothing |
| `MonitorSpec.ResolveUserIdSpec` | twitter_monitor.py:117-131 | a cache hit returns the cached id without a lookup; a miss looks up and caches only a found id, under that username alone; a cached id is never looked up again |
| `MonitorSpec.ResolveUserId` | twitter_monitor.py:117-131 | `_get_user_id`: the cached id, else the lookup's answer, cached only when found (properties in `ResolveUserIdSpec`) |
| `MonitorSpec.Reversed` | twitter_monitor.py:161 | `reversed(tweets.data)`: same length, element `i` is element `n-1-i` of the fetch |
| `MonitorSpec.FailurePoint` | twitter_monitor.py:165-192 | processing stops only at a position inside the batch whose tweet is not a spoiler, since a spoiler is never sent |
| `MonitorSpec.FetchRequest` | twitter_monitor.py:143-155 | the arguments of `get_users_tweets`: the user id, 10 results, the two field lists, and `since_id` for a truthy cursor (properties in `CheckRequest`) |
| `MonitorSpec.Relay` | twitter_monitor.py:161-183 | the messages sent for a run of tweets: one per non-spoiler tweet, in walk order (properties in `RelayMembers`, `RelayOrder`, `RelaySkipsSpoilers`) |
| `MonitorSpec.Ids` | twitter_monitor.py:162-172 | the successive cursor values for a run of tweets: one per tweet looked at, its id, in walk order |
| `MonitorSpec.CheckSpec` | twitter_monitor.py:133-192 | `_check_and_post_tweets`: resolution, request, the early returns, then the walk up to a failed send (properties in the `Check...` lemmas below) |
| `MonitorSpec.CheckAll` | twitter_monitor.py:105-110 | every username checked in list order, each from the state the previous check left, collecting the messages and the fetch requests (properties in `CheckAllSentIsolation`, `CheckAllStateIsolation`, `CheckAllRequests`) |
| `MonitorSpec.CycleSpec` | twitter_monitor.py:78-110 | one pass of the loop body: wait for Discord, find the channel, check all users (properties in `CycleSpecSpec`) |
| `MonitorSpec.RunCycles` | twitter_monitor.py:78-115 | the first passes of the loop, each from the state the previous one left (properties in `RunCyclesTouchesOnlyListed`) |
| `MonitorSpec.BatchStep` | twitter_monitor.py:161-184 | one step of the walk: it stops exactly where a non-spoiler send raises, and otherwise extends the sent messages and the cursor history by this tweet |
| `MonitorSpec.RelayAppend` | twitter_monitor.py:161-183 | the messages for two consecutive runs of tweets are those of the first run followed by those of the second |
| `MonitorSpec.RelayMembers` | twitter_monitor.py:165-183 | a message is sent for a batch exactly when it is the message of one of its non-spoiler tweets |
| `MonitorSpec.RelaySkipsSpoilers` | twitter_monitor.py:165-169 | no message of a spoiler tweet is ever among the sent ones |
| `MonitorSpec.RelayOrder` | twitter_monitor.py:161-183 | of two non-spoiler tweets, the earlier in the walk has its message sent first |
| `MonitorSpec.RelayFrontBack` | twitter_monitor.py:161-183 | a non-spoiler tweet's message comes after those of the tweets before it and before those after it |
| `MonitorSpec.Resolved` | twitter_monitor.py:138 | `if not user_id`: `None` and the empty string are unresolved (used by `CheckUnresolvedUser`, `CheckRequest`) |
| `MonitorSpec.CheckUnresolvedUser` | twitter_monitor.py:137-140 | for an unresolved user (None or empty id) the cursor is untouched, nothing is fetched and nothing is sent |
| `MonitorSpec.CheckRequest` | twitter_monitor.py:143-155 | a fetch is made exactly for a resolved user, for that user id, with 10 results, and with `since_id` equal to the cursor exactly when the cursor is present and non-zero |
| `MonitorSpec.CheckRerunIsNoOp` | twitter_monitor.py:137-158 | a check that processes no tweet sends nothing and keeps every cursor, and running it again changes nothing |
| `MonitorSpec.CheckRelaysWholeBatch` | twitter_monitor.py:157-184 | with no failed send, every fetched tweet is looked at oldest first, the cursor ends on the newest fetched tweet, and exactly the non-spoiler tweets are sent in order |
| `MonitorSpec.CheckStopsAtFailedSend` | twitter_monitor.py:172-192 | when the send of position k raises, that tweet is not a spoiler, the cursor holds its id, later tweets are not looked at, and only the earlier non-spoilers were sent |
| `MonitorSpec.CheckSpoilerAdvancesCursor` | twitter_monitor.py:165-169 | a fetched spoiler is never sent, its id is written to the cursor when it is reached, and a newest spoiler stays the cursor |
| `MonitorSpec.CheckSendsOldestFirst` | twitter_monitor.py:160-183 | of two sent tweets, the older reaches Discord before the newer, whether the whole batch is relayed or the check stops at a later failed send |
| `MonitorSpec.RelayReversedOrder` | twitter_monitor.py:160-183 | relaying any oldest-first prefix of a newest-first fetch sends an older non-spoiler tweet of that prefix before a newer one |
| `MonitorSpec.CheckCursorMovesForward` | twitter_monitor.py:160-172 | with ids decreasing in the fetch, every cursor write is larger than the previous one, and a full batch leaves the largest fetched id |
| `MonitorSpec.CheckCursorNeverMovesBack` | twitter_monitor.py:143-172 | a truthy cursor is sent as `since_id`; when Twitter honours it, the cursor after the check is never below the one before, and is above it once a tweet was looked at |
| `MonitorSpec.HonoursSinceId` | twitter_monitor.py:152-155 | the premise that Twitter honours `since_id`: when the request carries one, every fetched tweet is newer (used by `CheckDeliversAtMostOnce`, `CheckFailedSendNotRetried`) |
| `MonitorSpec.CheckDeliversAtMostOnce` | twitter_monitor.py:143-184 | with positive ids, decreasing in the first fetch, and a second check whose fetch honours the `since_id` its own request carries, no message the first check sent is sent again by the second |
| `MonitorSpec.CheckFailedSendNotRetried` | twitter_monitor.py:143-183 | with positive ids, the tweet whose send raised already holds the cursor, so a next check whose fetch honours the `since_id` it sends does not send its message |
| `MonitorSpec.CursorIsFetchedId` | twitter_monitor.py:160-172 | a check that sent something leaves as cursor the id of a tweet it fetched |
| `MonitorSpec.SentAboveHonouredCursor` | twitter_monitor.py:143-183 | under a truthy cursor and a fetch that honours the `since_id` sent, every message sent is that of a tweet newer than the cursor |
| `MonitorSpec.SentComesFromFetch` | twitter_monitor.py:160-183 | every message a check sends is the message of a tweet it fetched |
| `MonitorSpec.SentIsAtOrBelowCursor` | twitter_monitor.py:160-183 | with ids decreasing in the fetch, every message a check sends belongs to a tweet whose id is at most the cursor it leaves |
| `MonitorSpec.CheckAllRequests` | twitter_monitor.py:105-110 | a pass over the usernames makes at most one fetch request per username, each asking for 10 tweets |
| `MonitorSpec.CheckTouchesOnlyItsUser` | twitter_monitor.py:133-192 | a check changes neither the cursor nor the cached id of any other username |
| `MonitorSpec.CheckIsLocal` | twitter_monitor.py:133-192 | a check depends on the dictionaries only through the entries of its own username |
| `MonitorSpec.CheckAllTouchesOnlyListed` | twitter_monitor.py:106-110 | a cycle changes nothing stored for a username it does not check |
| `MonitorSpec.CheckAllSentIsolation` | twitter_monitor.py:106-110 | with distinct usernames, a cycle sends exactly what checking each username alone would send, whatever happened to the others |
| `MonitorSpec.CheckAllStateIsolation` | twitter_monitor.py:106-110 | with distinct usernames, a cycle leaves for each username exactly what checking it alone would leave |
| `MonitorSpec.CycleSpecSpec` | twitter_monitor.py:78-110 | users are checked exactly when Discord is ready and the channel is found by `get_channel` or `fetch_channel`; otherwise no fetch request is made and nothing is sent or stored; a pass makes at most one request per username, each for 10 tweets |
| `MonitorSpec.RunCyclesTouchesOnlyListed` | twitter_monitor.py:78-115 | no run of the loop changes what is stored for a username that is not monitored |
| `Tweets.SpoilerIffTagAnyCase` | twitter_monitor.py:165-166 | a tweet is filtered exactly when its text holds `#spoilersie` in some mix of upper and lower case |
| `Tweets.IsSpoiler` | twitter_monitor.py:166 | `'#spoilersie' in tweet_text.lower()` (characterised by `SpoilerIffTagAnyCase`) |
| `Tweets.TweetUrl` | twitter_monitor.py:175 | the permalink `https://twitter.com/<username>/status/<id>` (inverse in `TweetUrlRoundTrip`) |
| `Tweets.FormatMessage` | twitter_monitor.py:175-181 | the Discord message: header naming the account, the text verbatim, the link to the permalink (partners `MessageDeterminesTweet`, `TweetUrlRoundTrip`) |
| `Tweets.TweetUrlRoundTrip` | twitter_monitor.py:175 | the permalink starts with `https://twitter.com/<username>/status/`, and its last segment parses back to the tweet id |
| `Tweets.MessageDeterminesTweet` | twitter_monitor.py:175-181 | two tweets of one account give the same message only if they have the same id and text |
| `Tweets.ShowIntHasNoSlash` | twitter_monitor.py:175 | the id segment of a permalink holds no `/` |
| `Settings.ParseUsernamesShape` | twitter_monitor.py:59 | there is one username per comma-separated piece, and none holds a comma or surrounding whitespace |
| `Settings.TokenAccepted` | twitter_monitor.py:30 | a bearer token is used unless it is empty or `tu_bearer_token` |
| `Settings.ParseUsernames` | twitter_monitor.py:59 | `[u.strip() for u in usernames_str.split(',')]` (properties in `ParseUsernamesShape`, `ParseUsernamesJoin`) |
| `Settings.IntervalOrDefault` | twitter_monitor.py:61-65 | `int()` of the interval setting, or 300 on `ValueError` (properties in `IntervalOrDefaultSpec`) |
| `Settings.ValidateSettings` | twitter_monitor.py:42-71 | the start-up checks of `monitor_twitter`, in order, with the error of the first that fails (properties in `ValidateSettingsRefuses`, `ValidateSettingsAccepts`) |
| `Settings.ParseUsernamesJoin` | twitter_monitor.py:59 | a comma-joined list of clean usernames parses back to that list |
| `Settings.StripEachClean` | twitter_monitor.py:59 | stripping names without surrounding whitespace changes none of them |
| `Settings.IntervalOrDefaultSpec` | twitter_monitor.py:61-65 | a decimal integer is taken as the interval, and text with any other character inside the whitespace `int()` skips falls back to 300 |
| `Settings.ValidateSettingsRefuses` | twitter_monitor.py:42-71 | no client, an empty or placeholder username list, or an empty, placeholder or non-numeric channel id stops the monitor before its loop |
| `Settings.ValidateSettingsAccepts` | twitter_monitor.py:46-71 | with a client, clean usernames and a decimal channel id, the monitor runs with exactly those usernames, that channel and the parsed-or-default interval |
| `Integers.ParseIntAlphabet` | twitter_monitor.py:62 | whatever `int()` accepts is, once the whitespace it skips is removed, an optional sign followed by digits and underscores |
| `Integers.IsIntSpace` | twitter_monitor.py:62 | the whitespace `int()` skips: that of `str.isspace()` without U+001C-U+001F |
| `Integers.LeadingIntSpace` | twitter_monitor.py:62 | the leading run `int()` skips is all such whitespace and is followed by a character it does not skip |
| `Integers.TrailingIntSpace` | twitter_monitor.py:62 | the trailing run `int()` skips is all such whitespace and is preceded by a character it does not skip |
| `Integers.IntStrip` | twitter_monitor.py:62 | the text `int()` reads once the surrounding whitespace it skips is removed |
| `Integers.IntStripUnpadded` | twitter_monitor.py:62 | text without such whitespace at its ends is read as it is |
| `Integers.ParseInt` | twitter_monitor.py:62 | `int(s)` for base-10 text: skipped whitespace, an optional sign, digits with single underscores between them; `None` for `ValueError` (properties in `ParseIntAlphabet`, `ParseShowInt`) |
| `Integers.ShowInt` | twitter_monitor.py:175 | `str(n)`: a minus sign for negatives, then the digits without leading zeros (inverse in `ParseShowInt`) |
| `Integers.DigitsValueShowNat` | twitter_monitor.py:175 | the decimal digits of `n` read back as `n` |
| `Integers.ParseSignedDigits` | twitter_monitor.py:68 | digits with or without a minus sign read as their value |
| `Integers.ParseDigits` | twitter_monitor.py:68 | `int()` reads decimal digits, with or without a leading minus sign, as their value |
| `Integers.ParseShowInt` | twitter_monitor.py:68 | `int(str(n)) == n` for every integer |
| `Integers.ShowIntInjective` | twitter_monitor.py:175 | distinct ids give distinct decimal strings |
| `Wrappers.Get` | twitter_monitor.py:143 | `self.last_tweet_ids.get(username)`: a value exactly when the key is present, and then the stored one |
| `Strings.LowerSlice` | twitter_monitor.py:166 | lower-casing commutes with taking a slice |
| `Strings.Lower` | twitter_monitor.py:166 | `s.lower()`, character by character, on `A`-`Z` |
| `Strings.Contains` | twitter_monitor.py:166 | `needle in hay` (characterised by `ContainsSpec`) |
| `Strings.ContainsSpec` | twitter_monitor.py:166 | `needle in hay` holds exactly when `needle` occurs at some index of `hay` |
| `Strings.IsSpace` | twitter_monitor.py:59 | the `str.isspace()` table that `strip()` removes: `\t`-`\r`, U+001C-U+001F, space, U+0085, U+00A0, U+1680, U+2000-U+200A, U+2028, U+2029, U+202F, U+205F, U+3000 (used by `StripSpec`, `IsIntSpace`) |
| `Strings.LeadingSpace` | twitter_monitor.py:59 | the leading run that `strip()` removes is all whitespace and is followed by a non-space |
| `Strings.TrailingSpace` | twitter_monitor.py:59 | the trailing run that `strip()` removes is all whitespace and is preceded by a non-space |
| `Strings.StripSpec` | twitter_monitor.py:59 | `strip()` keeps a slice of its input with only whitespace before and after it |
| `Strings.StripEnds` | twitter_monitor.py:59 | the result of `strip()` has no whitespace at either end |
| `Strings.StripUnpadded` | twitter_monitor.py:59 | `strip()` leaves a string without surrounding whitespace unchanged |
| `Strings.StripIdempotent` | twitter_monitor.py:59 | `strip()` is idempotent |
| `Strings.Strip` | twitter_monitor.py:59 | `s.strip()` with no argument (properties in `StripSpec`, `StripEnds`, `StripIdempotent`) |
| `Strings.Split` | twitter_monitor.py:59 | `s.split(sep)` for one character: never an empty list (further properties in the `Split...` lemmas) |
| `Strings.SplitPiecesClean` | twitter_monitor.py:59 | no piece of `split(',')` holds a comma |
| `Strings.SplitJoinBack` | twitter_monitor.py:59 | joining the pieces of `split(',')` with commas gives the input back |
| `Strings.SplitLength` | twitter_monitor.py:59 | `split(',')` yields one more piece than there are commas |
| `Strings.SplitUnbroken` | twitter_monitor.py:59 | a string without a comma splits into itself alone |
| `Strings.SplitJoin` | twitter_monitor.py:59 | splitting a comma-join of comma-free pieces gives the pieces back |
| `Strings.SplitAppend` | twitter_monitor.py:59 | appending a comma and a comma-free piece appends that piece to the split |
| `Scenarios.SpoilerThenWorldFilter` | twitter_monitor.py:165-166 | `hello #SpoilerSie` is filtered and `world` is not |
| `Scenarios.WorldPermalink` | twitter_monitor.py:175 | the permalink of tweet 6 of `alpha` is `https://twitter.com/alpha/status/6` |
| `Scenarios.SpoilerThenWorldScenario` | twitter_monitor.py:133-184 | a first check of `alpha` that fetches `[5 spoiler, 6 "world"]` asks with no `since_id`, sends only "world", caches the user id and leaves the cursor at 5 after writing 6 then 5 |
| `Scenarios.NothingNewScenario` | twitter_monitor.py:143-158 | a check with cursor 5 and nothing new asks with `since_id=5`, sends nothing and changes nothing |
| `Scenarios.ZeroIdCursorIsNotSent` | twitter_monitor.py:143-172 | a tweet with id 0 is sent and stored as the cursor, yet the next request carries no `since_id` (`if since_id:`), so a fetch returning it again sends it again |
| `Scenarios.SeparatorBeforeChannelId` | twitter_monitor.py:67-71 | a channel id preceded by U+001F is stripped to `123` by `strip()` but rejected by `int()`, so the monitor stops before its loop |
| `Scenarios.SeparatorBeforeInterval` | twitter_monitor.py:61-65 | an interval preceded by U+001C is rejected by `int()` and the default 300 is used |

## Left out

- Logging (`print`), the sleeps between cycles and the 5-second wait for Discord, and time: they do not change what is fetched, sent or stored.
- Reading environment variables: the values become string parameters, and a missing variable is the default that `os.getenv` would give.
- tweepy and discord.py: every answer they give is an oracle input. This covers `wait_on_rate_limit=True`, `get_user`, `get_users_tweets`, `get_channel`, `fetch_channel` and `channel.send`.
- The rate-limit branch of the exception handler only chooses which line to log. It is modelled together with every other fetch error as `FetchFailed`.
- `tweet_fields` and `user_fields` are passed to `get_users_tweets` and never read back. The model carries them in the request and nothing more.
- Exceptions the code does not raise by design are left out: a fetched tweet without `id` or `text`, an exception from `get_channel`, and an exception inside the outer loop. Only a raising `get_user`, `get_users_tweets`, `fetch_channel` or `channel.send` is modelled; a raising `fetch_channel` is `ChannelOracle.fetchable == false`.
- Monitor.TwitterMonitor.MonitorTwitter: the `while True` loop is modelled as its first `|cycles|` passes, one oracle per pass; a run that never ends is not represented.
- Strings.Lower: only `A`-`Z` are lower-cased, and other characters are left as they are. Python's `lower()` also folds non-ASCII letters. For the spoiler test this makes no difference. The only non-ASCII characters that lower-case to ASCII are U+0130 (to `i` followed by U+0307) and U+212A (to `k`), and neither can complete `#spoilersie`. So `Tweets.IsSpoiler` gives the same answer as the source's test on every text.
- MonitorSpec.CheckDeliversAtMostOnce and MonitorSpec.CheckFailedSendNotRetried: stated for positive tweet ids, as Twitter's are. A tweet with id 0 leaves a falsy cursor, so no `since_id` protects it (`Scenarios.ZeroIdCursorIsNotSent`).
- Integers.ParseInt: only ASCII digits are accepted. Python's `int()` also accepts other Unicode decimal digits.
- Integers.ParseInt: digit strings of any length are accepted. CPython 3.11 and later, and the 2022 security releases of 3.7-3.10, raise `ValueError` from `int()` on more than 4300 digits by default (a limit that can be configured). Under that limit, an interval longer than that falls back to 300 and such a channel id stops the monitor; the model does neither.
- Integers.ParseShowInt: stated for every integer. Under that limit it holds in Python only for integers of at most 4300 digits, since both `str()` and `int()` raise beyond it.
- `self.check_interval`, set by `start_twitter_monitoring`, is stored by the constructor but never read: `monitor_twitter` parses the variable again. The model keeps the same duplication.
- web.py, app.py, main.py and test_twitter_token.py are not part of this model.
