# Verified model of agent-mcp-gateway

The gateway lets agents run queries on backend resources (Redis, MongoDB, MySQL, Elasticsearch) under role-based
rules, meters every executed call and reports usage per user. This project models the parts of it that the gateway's own
code decides, and proves what they promise. `dafny verify dfyconfig.toml` checks all of it.

| file | models |
|---|---|
| `Calendar.dfy`, `Text.dfy`, `Timestamp.dfy` | the civil calendar, byte order of text, and the RFC 3339 text the meter stores and compares |
| `Metering.dfy` | the usage table, `Record`, and the three queries of `GetUsage` with other inserts in between |
| `Pipeline.dfy` | the gateway under concurrent use: a state machine whose steps are those of the tool handlers |
| `Gateway.dfy` | the tool handlers on their real objects; each call is proved to be a piece of a `Pipeline` run |
| `Rbac.dfy`, `Resources.dfy` | the authorizer; the resource manager, its construction, clean-up and closing |
| `Expand.dfy`, `Config.dfy`, `ConfigTree.dfy` | `${NAME}` expansion, the configuration records, and the walk that expands them in place |
| `DeviceFlow.dfy` | the polling loop of the device authorization grant (RFC 8628) |
| `Semver.dfy`, `KeyCodec.dfy`, `Quoting.dfy` | client versions, WireGuard keys from base64 to hex, backtick quoting |

Conventions:

- An `Instant` counts nanoseconds from 0000-01-01T00:00:00Z; all times are in UTC.
- What the environment decides is a parameter: whether an insert succeeds, what a backend returns, what the clock shows,
  in which order a map is walked (`:|`), how a token endpoint answers. Every theorem holds for all of its values.
- `Pipeline.Run` folds a sequence of events from the start of a process, which finds the usage table as the last process
  left it. An event that is not enabled changes nothing, so "for every sequence of events" is "for every interleaving".
- A Go `nil` claims pointer is `Credentials.Nil`; `Missing` is a context with no claims at all.

Findings, each stated by a lemma:

- `TotalBytes` in a `get_usage` report only counts bytes already in the table when the process starts, because the query
  handler never fills in `Bytes`; over any number of restarts from an empty table it is 0 (`Pipeline.ReportsCountCalls`,
  `Pipeline.RestartsAddUp`).
- A report made while calls are being recorded need not add up: the total may be below the resource breakdown, and that
  below the operation breakdown, exactly when a matching row is inserted between two of the queries
  (`Metering.TornReportOrder`, with an instance in `Metering.TornReportHappens`).
- On top of the rows found at the start, each figure of a report is the number of the executions made with the user's
  claims whose rows were inserted (`Pipeline.ReportsCountExecutions`). It is the number of all of them exactly when none
  of those inserts failed, whatever happened to anyone else's (`Pipeline.BilledIsAllExactly`). The table adds up over
  restarts and changes of configuration (`Pipeline.RestartsAddUp`).
- Text comparison of timestamps is time order only between year -1 and year 9999 (`Timestamp.SpanIsExact`). A start before
  year 0, which a large `days` argument produces, is still handled correctly (`Timestamp.WindowIsExact`).
- A `days` argument just beyond the range of times, about 1.07e14, makes the start wrap around into the far future, and
  the report empty (`Gateway.TooManyDaysReportNothing`). Below that, more days never lower a figure
  (`Gateway.MoreDaysNeverLower`); when another number does is stated exactly (`Gateway.OtherDaysNeverLowerExactly`).
- `list_resources` can show a resource the caller may not read (`Rbac.ListedCanBeUnreadable`). For which rules and managed
  resources it never does is stated exactly (`Rbac.ListedIsReadableExactly`).
- `expandString` is not idempotent: any unset variable gives a text on which a second pass changes the result
  (`Expand.UnsetBreaksIdempotence`). For which values it is idempotent, and for which one pass leaves no reference, is
  stated exactly (`Expand.IdempotentExactly`, `Expand.OnePassIsEnoughExactly`); where no value holds "${" the two
  conditions are the same (`Expand.SettledIsInert`).
- The walk does not reach a slice or map that is itself a map value. No `Config` has one (`ConfigTree.WalkIsCompleteExactly`).
- Build metadata directly after the patch number ("1.2.3+5") makes a version unreadable, while after a pre-release
  suffix ("1.2.3-rc.1+5") it is dropped with it (`Semver.TailParsesExactly`). With no minimum set no update is ever
  offered (`Semver.UpdateOfferedExactly`).
- Two different base64 texts can give one key, because line breaks and the two unused bits of the last letter are
  ignored (`KeyCodec.LineBreakIsIgnored`, `KeyCodec.UnusedBitsAreIgnored`). Which pairs of texts do is stated exactly
  (`KeyCodec.SameKeyExactly`).

## Model

| member | source | states |
|---|---|---|
| Calendar.CivilSuccessor | internal/metering/metering.go:98 | the date behind a formatted timestamp is the Gregorian calendar: each day count is followed by the next day of the month, else the first of the next month, else the first of January, for all days |
| Calendar.CivilStart | internal/metering/metering.go:98 | day 0 is 0000-01-01 |
| Calendar.MonthsAreGregorian | internal/metering/metering.go:98 | months have 30 or 31 days, and February 29 exactly in years divisible by 4 and not by 100, or by 400 |
| Calendar.CivilRoundTrip | internal/metering/metering.go:98 | each date is the date of exactly its own day count |
| Calendar.CivilMonotone | internal/metering/metering.go:98 | days are ordered as their year, month and day are |
| Timestamp.FormatReadsBack | internal/metering/metering.go:98 | the stored text is an RFC 3339 date-time that reads back as the instant floored to the second |
| Timestamp.ClockSuccessor | internal/metering/metering.go:98 | one second later: seconds and minutes run to 59, hours to 23, and the second after 23:59:59 is midnight of the next day of the calendar |
| Timestamp.ClockStart | internal/metering/metering.go:98 | instant 0 is midnight of 0000-01-01 |
| Timestamp.FractionIsDropped | internal/metering/metering.go:98 | instants of one second have one text |
| Timestamp.FormatSpells | internal/metering/metering.go:98 | the text is the year and then -MM-DDThh:mm:ssZ, character by character, and its digits spell the date and the clock |
| Timestamp.YearSpells | internal/metering/metering.go:98 | years 0 to 9999 are written in four digits, later ones in as many as they need, earlier ones after a minus sign |
| Timestamp.TextOrder | internal/metering/metering.go:98 | for four-digit years, byte order of the texts is the order of the instants floored to seconds, and equal texts mean equal seconds |
| Text.LessExactly | internal/metering/metering.go:124 | texts are compared by the first byte in which they differ, a prefix coming first |
| Timestamp.WindowIsExact | internal/metering/metering.go:117-124 | the textual range filter selects exactly the rows whose second lies between those of the bounds, even with a start before year 0 |
| Timestamp.SpanIsExact | internal/metering/metering.go:98 | over a span around year 0, text order is time order if and only if the span stays between year -1 and year 9999 |
| Timestamp.AddDays | internal/mcp/mcp.go:253 | moving the day of the civil date and normalising, in 64-bit seconds that wrap around, moves the instant by whole days if and only if the result is in range |
| Timestamp.RangeStart | internal/mcp/mcp.go:253 | the range of times starts on 1 March of year -292277022400 and has 2^64 seconds |
| Metering.SQLiteMeter.Record | internal/metering/metering.go:84-107 | a Record appends exactly one row, or reports failure and changes nothing; the row has the entry's user, email, resource, operation, bytes, success and error, its latency in whole milliseconds, and a timestamp that reads back as its second |
| Metering.SQLiteMeter.GetUsage | internal/metering/metering.go:111-183 | the report is made of the table as each of the three queries saw it; a failing query ends the call with its error; the rows others insert are the only change |
| Metering.Collect | internal/metering/metering.go:145-155 | filling the map from a grouped result gives the same map for every order the engine may return |
| Metering.GroupCounts | internal/metering/metering.go:133-151 | a breakdown's keys are exactly the values that occur among the selected rows, each with its number of occurrences |
| Metering.GroupByExists | internal/metering/metering.go:133-137 | for every table there is a grouped result to return, so what is proved about all of them is never empty |
| Metering.QuietReportConserves | internal/metering/metering.go:121-177 | with nothing inserted meanwhile, both breakdowns sum to the total |
| Metering.TornReportOrder | internal/metering/metering.go:120-182 | with any rows inserted between the queries, total <= sum by resource <= sum by operation, each an equality exactly when no matching row was inserted in between |
| Metering.TornReportHappens | internal/metering/metering.go:120-182 | one matching row inserted after the first query is in both breakdowns and not in the total |
| Metering.MatchingRecordCountsOnce | internal/metering/metering.go:84-107 | a recorded row raises the total and exactly one entry of each breakdown, by one, for the users and windows it falls in |
| Metering.OtherRecordMovesNothing | internal/metering/metering.go:120-164 | it changes no figure of any other report |
| Metering.SelectIsWindow | internal/metering/metering.go:124 | what the queries select by text is what the user did in the window of instants, in order |
| Metering.ReportCountsWindow | internal/metering/metering.go:111-183 | so every figure of a quiet report is the count over that window |
| Metering.ReportCountsEntries | internal/metering/metering.go:111-183 | so they are the numbers of the user's entries whose second lies between those of the bounds: all of them, those with one resource, those with one operation |
| Metering.AdjacentWindowsAdd | internal/metering/metering.go:111-183 | reports over [a, b] and [b + 1s, c] add up entry by entry to the report over [a, c] |
| Metering.EarlierStartNeverLowers | internal/metering/metering.go:117-124 | an earlier start never lowers the total or any entry, however early |
| Metering.NeverLowersExactly | internal/metering/metering.go:117-124 | replacing a start by any other instant never lowers a figure of any table if and only if the new start is written no later than the old one, or than year 0 |
| Gateway.MoreDaysNeverLower | internal/mcp/mcp.go:246-255 | asking for more days never lowers any figure over the same log and the same end, while the start stays in the range of times |
| Gateway.OtherDaysNeverLowerExactly | internal/mcp/mcp.go:246-255 | any other number of days, in range or not, never lowers a figure of any table if and only if its start is written no later |
| Gateway.TooManyDaysReportNothing | internal/mcp/mcp.go:246-255 | for any time of this century and 8e11 numbers of days from the first one out of range, the start wraps around into the far future and the report is empty for every table |
| Gateway.DaysAscend | internal/mcp/mcp.go:247-253 | the number of days is the positive argument cut to a whole number and grows with it, and 30 for an absent, other or non-positive one |
| Gateway.LookbackExactly | internal/mcp/mcp.go:246-253 | the window of get_usage starts exactly as many days of 86400 seconds back as a positive argument asks for, otherwise 30, while that is in range |
| Gateway.UsageCountsDays | internal/mcp/mcp.go:246-261 | the figures of a quiet get_usage are the numbers of the user's entries of just those days |
| Gateway.Server.Query | internal/mcp/mcp.go:149-227 | a refused call answers with the first reason that applies and changes neither backend nor table; a call with verified claims, both arguments, a managed resource and a rule that grants it "read" executes exactly once, on that resource, with that operation and its other arguments, answers from the execution alone, and leaves one row that tells of it when the insert succeeds |
| Gateway.WithoutMeta | internal/mcp/mcp.go:182-188 | the backend gets every argument except resource and operation, in whatever order they are walked |
| Gateway.Server.GetUsage | internal/mcp/mcp.go:236-268 | with any steps of other calls between its queries, get_usage reports on the caller alone, from the look-back start to now, on the tables its queries saw; it changes no row itself, a failing query is named, and the call is a piece of the machine's run |
| Gateway.Server.ListResources | internal/mcp/mcp.go:106-137 | list_resources returns, once each, exactly the managed names that a rule of the caller's groups names or covers by "*", each with its lower-case kind, description, operations and read-only flag; none that is unreadable when rules and managed names meet the exact condition of ListedIsReadableExactly |
| Gateway.ServerReportIsExact | internal/metering/metering.go:111-183 | after any sequence of handler calls on a meter with any rows in it, a quiet report counts those rows and exactly the calls that recorded an entry for the caller in the window, per resource and operation too; these are the executions the backends performed for the caller less those whose insert failed, and all of them if and only if none failed |
| Pipeline.AdmissionExactly | internal/mcp/mcp.go:151-179 | when exactly each refusal applies, and so which calls go ahead, on the arguments, claims, rules and managed names themselves |
| Pipeline.EveryExecutionWasGranted | internal/mcp/mcp.go:171-192 | in every run, every execution belongs to a call with verified claims, one rule of whose groups covers the managed resource and has "read" among its permissions, with exactly the call's arguments |
| Pipeline.RunIsGuarded | internal/mcp/mcp.go:149-227 | in every run, executions and calls past admission match one to one, and each call's state agrees with the rules |
| Pipeline.RefusedForGood | internal/mcp/mcp.go:151-179 | whatever happens later, a refused call stays refused, has no execution, and no step of it changes anything |
| Pipeline.RunIsBalanced | internal/mcp/mcp.go:190-212 | in every run, on any table, each figure found by the textual queries is what it was before the run plus the number of calls that recorded an entry it counts, in total and per key |
| Pipeline.BilledAreExecutions | internal/mcp/mcp.go:190-212 | in every run, whatever inserts fail, those calls are exactly the executions made with the user's verified claims, finished in the window and inserted, in total and per resource and operation |
| Pipeline.BilledIsAllExactly | internal/mcp/mcp.go:190-212 | they are all executions made with the user's claims and finished in the window if and only if no insert of one of these failed |
| Pipeline.AllExecutionsAreBilled | internal/mcp/mcp.go:190-212 | so with a meter whose inserts all succeed, they are all executions made with the user's claims and finished in the window |
| Pipeline.ReportsCountCalls | internal/metering/metering.go:111-183 | however calls interleave with a get_usage, each of its figures is the count of the rows from before the run and of the recorded calls at one moment during the call, the moments follow the queries, and all figures lie between the counts at its start and now; the byte total is that of the rows from before |
| Pipeline.ReportsCountExecutions | internal/metering/metering.go:111-183 | each figure of a report counts the rows from before the run and the executions made with the user's claims, finished in its window and inserted, as of the moment of its query; and all such executions if and only if no insert of one of them failed |
| Pipeline.RestartsAddUp | cmd/agent-mcp-gateway/main.go:102-106 | over any number of restarts, each with its own configuration and ending at any moment, each figure of the table is what it was at first plus the inserted executions of all the runs; no bytes are ever added |
| Pipeline.UsageIsReport | internal/mcp/mcp.go:246-261 | a get_usage with any events of other calls between its queries is, in the machine, the report on the tables at its three moments |
| Pipeline.ExecutionsAccountedFor | internal/mcp/mcp.go:190-212 | the number of executions is the number of rows added since the start plus the calls still to be recorded or whose record failed |
| Pipeline.NothingIsLost | internal/mcp/mcp.go:196-212 | every entry tells the call's caller, resource, operation and outcome; with a meter whose inserts succeed no finished call is without one |
| Pipeline.RowsBelongToCalls | internal/mcp/mcp.go:196-212 | in every run, each row added to the table belongs to one finished call and tells its caller, email, resource, operation, success, error text, latency and time; no call has two rows, and each call with an entry has one |
| Rbac.RBACAuthorizer.Check | internal/auth/rbac.go:33-51 | true exactly when some rule has a group of the claims, the resource or "*", and the permission asked for; false for nil claims |
| Rbac.RBACAuthorizer.AllowedResources | internal/auth/rbac.go:55-75 | exactly the names in the rules of the caller's groups, each once |
| Rbac.OccurrencesInOrder | internal/auth/rbac.go:55-75 | in order of first appearance |
| Rbac.NamedJoins | internal/auth/rbac.go:55-75 | in the order of the rules and of the names in each |
| Rbac.ReadableIsListed | internal/auth/rbac.go:33-75 | whatever Check lets a caller read is listed |
| Rbac.ListedIsReadableExactly | internal/auth/rbac.go:33-75 | everything listed is readable, for all callers and managed names, if and only if each managed name that a rule names or covers by "*" is readable through some rule of the same group |
| Rbac.ListedCanBeUnreadable | internal/auth/rbac.go:33-75 | a rule that permits nothing lists its resource to a group that may not read it |
| Rbac.AllReadIsCovered | internal/auth/rbac.go:33-75 | rules that all grant "read" meet that condition, whatever is managed |
| Rbac.MoreNeverTakesAway | internal/auth/rbac.go:33-75 | adding rules or groups never turns a Check false or removes a listing |
| Resources.NewManager | internal/resources/resource.go:45-90 | for every walk order: succeeds exactly when every entry can be built, with exactly the configured names; on failure returns none, and every resource built on the way has been closed exactly once |
| Resources.KindsExactly | internal/resources/resource.go:62-73 | a kind is known by one of four names in any case of letters, and needs a non-empty host, URI, DSN or URL of its own |
| Resources.Manager.List | internal/resources/resource.go:99-112 | one entry for each managed name, with its lower-case kind, description, operations and the configured read-only flag |
| Resources.Manager.Close | internal/resources/resource.go:115-126 | closes every resource once even after errors, and returns the first error of the order walked, none exactly when all closed well |
| Resources.FirstErrorExactly | internal/resources/resource.go:115-126 | the error returned is that of a resource with no failing one before it |
| Expand.MatchExactly | internal/config/config.go:116 | a match is "${", a non-empty name without '}', and '}' |
| Expand.ScanIsReplacement | internal/config/config.go:198-207 | a left-to-right scan replaces each leftmost, non-overlapping match once, keeps other text in order and never rescans a value |
| Expand.ExpandIsReplacement | internal/config/config.go:198-207 | the same of the whole function, its fast path included, on every string |
| Expand.LeftmostExists | internal/config/config.go:116 | every string has leftmost, non-overlapping matches |
| Expand.LeftmostUnique | internal/config/config.go:116 | and only one such sequence |
| Expand.InertIsIdempotent | internal/config/config.go:198-207 | expanding twice is expanding once whenever the values used are inert |
| Expand.PlainIsInert | internal/config/config.go:202-206 | a non-empty value with no '$' and no leading '{' is inert |
| Expand.OnePassIsEnoughExactly | internal/config/config.go:198-207 | one pass leaves no reference in any text over a set of names if and only if each of their values is inert |
| Expand.IdempotentExactly | internal/config/config.go:196-207 | expanding twice is expanding once for every text over a set of names if and only if each of their values, by itself and after a '$', is kept by expansion and does not end inside a '$' or an unclosed "${" |
| Expand.InertIsSettled | internal/config/config.go:196-207 | inert values meet that condition in every environment |
| Expand.SettledIsInert | internal/config/config.go:196-207 | where no value holds "${", only inert values do |
| Expand.UnsetBreaksIdempotence | internal/config/config.go:196-207 | for every unset name there is a text over it that a second pass changes |
| ConfigTree.GatewayConfig.ExpandEnvVars | internal/config/config.go:140-174 | every string of the configuration, named field by field, is expanded exactly once, in place; keys, lengths, a nil map and other leaves stay |
| ConfigTree.GatewayConfig.ExpandAuth | internal/config/config.go:161-164 | slice elements are expanded in place, structs in slices included |
| ConfigTree.GatewayConfig.ExpandResources | internal/config/config.go:150-160 | map values are copied, expanded and put back under their keys |
| ConfigTree.ExpandResource | internal/config/config.go:178-187 | the copy of a struct map value has every string expanded, its slice included |
| ConfigTree.LeavesAt | internal/config/config.go:140-194 | full expansion, by any path into any tree: each string is replaced by its expansion, other leaves, lengths and keys stay |
| ConfigTree.WalkIsCompleteExactly | internal/config/config.go:140-194 | on any tree, the walk expands all leaves in all environments if and only if no reference sits in a slice or map that is a map value |
| DeviceFlow.Await | internal/client/client.go:401-450 | the loop makes exactly the polls of the specification, terminates for every sequence of replies, and returns what the last poll decides |
| DeviceFlow.RunExactly | internal/client/client.go:408-450 | poll by poll, when the clock is read, when the request is sent and which reply it gets; the run ends exactly on a final reply or on a reading at or after the deadline |
| DeviceFlow.FinalExactly | internal/client/client.go:434-450 | a reply is final exactly when it decodes and has a token and no error, or an error other than the two that ask to wait |
| DeviceFlow.IntervalLaw | internal/client/client.go:401-437 | each sleep is max(5 s, server interval) plus 5 s for each slow_down so far, in nanoseconds; polls are at least that far apart; only the last can be sent at or after the deadline |
| DeviceFlow.PollBound | internal/client/client.go:405-409 | no poll for an expired code, otherwise at most the lifetime over the first interval, rounded up |
| DeviceFlow.SlowDownBound | internal/client/client.go:437-439 | s slow_down replies satisfy 5 s (s - 1) / 2 < lifetime |
| DeviceFlow.Budget | internal/client/client.go:401-439 | both bounds together: every poll and slow_down but the last has been slept for before the deadline |
| DeviceFlow.OutcomeLaw | internal/client/client.go:434-450 | a token comes only from a last reply with no error and a non-empty token, a denial only from another error, and all earlier replies asked to go on |
| DeviceFlow.SilentUserMeetsTheBound | internal/client/client.go:408-409 | the bound on polls is met exactly when nobody answers and no time is lost |
| Semver.ParseSemver | internal/client/client.go:207-224 | parses exactly the versions whose up to three components are numbers, missing ones being 0, and otherwise names an offending component |
| Semver.SplitIsExact | internal/client/client.go:210 | the components are the text cut at its first two dots |
| Semver.PartsExactly | internal/client/client.go:208-210 | a version is cut at its first two dots, after at most one leading "v" |
| Semver.ComponentIsNumeral | internal/client/client.go:214-218 | a component is a number exactly when, up to a '-', it is digits after an optional '+', at most 9223372036854775807; so none is negative |
| Text.ValueInBaseTen | internal/client/client.go:218 | digits are read in base ten |
| Semver.TripleIsNatural | internal/client/client.go:211-223 | every component of a parsed version is between 0 and the largest int, a missing one 0 |
| Semver.ParsePrinted | internal/client/client.go:207-224 | parsing undoes printing, with or without "v" and with any "-suffix" |
| Semver.TailParsesExactly | internal/client/client.go:207-224 | with any text after the patch number that does not start with a digit, a version parses if and only if that text is empty or starts with '-'; so build metadata parses after a "-suffix" and not without one |
| Semver.CompareIsPreorder | internal/client/client.go:185-204 | comparison flips sign with its arguments, is transitive, is zero exactly on equal triples, and negative exactly when the first triple is lexicographically smaller |
| Semver.NewerIsNeverWorse | internal/client/client.go:155-181 | a client at least as new never gets a more severe verdict |
| KeyCodec.AlphabetExactly | internal/tunnel/tunnel.go:137 | the letters of standard base64, by character code |
| KeyCodec.QuadBits | internal/tunnel/tunnel.go:137 | four letters hold the bits of three bytes, the highest first |
| KeyCodec.EncodeExactly | internal/tunnel/tunnel.go:137 | groups follow each other, and one or two bytes at the end fill the top bits of two or three letters, padded with '=' |
| KeyCodec.DecodesExactly | internal/tunnel/tunnel.go:137 | a text without line breaks decodes exactly when it has letters in fours, the last one or two of which may be '=' |
| KeyCodec.StripJoins | internal/tunnel/tunnel.go:137 | line breaks are skipped anywhere |
| KeyCodec.HexExactly | internal/tunnel/tunnel.go:144 | byte i is spelled by lower-case digits 2i and 2i + 1, the high half first |
| KeyCodec.KeyOfBytes | internal/tunnel/tunnel.go:136-145 | for every 32-byte key, converting its base64 gives its hex |
| KeyCodec.KeyToHexIsSound | internal/tunnel/tunnel.go:136-145 | success means the text decodes to 32 bytes, failure says whether it does not decode or to how many bytes it does, and the result is 64 lower-case hex digits that read back as them |
| KeyCodec.KeyRoundTripExactly | internal/tunnel/tunnel.go:136-145 | hex-decoding and re-encoding returns the text if and only if it has 44 characters and its last letter's unused bits are zero |
| KeyCodec.EncodeOfDecode | internal/tunnel/tunnel.go:137 | re-encoding a decoded text of any length returns it if and only if it has no line break and its unused bits are zero |
| KeyCodec.SameBytesExactly | internal/tunnel/tunnel.go:137 | two texts of any length decode to the same bytes if and only if they are equal once line breaks are removed and unused bits cleared |
| KeyCodec.SameKeyExactly | internal/tunnel/tunnel.go:136-145 | two accepted texts give the same key if and only if, without line breaks, their first 42 characters and the top four bits of the 43rd agree |
| KeyCodec.CanonicalKeysAreDistinct | internal/tunnel/tunnel.go:136-145 | so distinct canonical texts give distinct results |
| KeyCodec.LineBreakIsIgnored | internal/tunnel/tunnel.go:137 | a trailing line break changes no result |
| KeyCodec.UnusedBitsAreIgnored | internal/tunnel/tunnel.go:137 | nor does another last letter with the same top four bits |
| Quoting.QuoteExactly | internal/resources/mysql.go:148 | a backtick at each end, each backtick of the name twice, every other character once and in order |
| Quoting.ReadUndoesQuote | internal/resources/mysql.go:148 | a reader of quoted identifiers gets every table name back whole and stops at the last backtick of the quoting, whatever follows |
| Quoting.DescribeNamesTheTable | internal/resources/mysql.go:142-148 | a statement is sent exactly for a non-empty table name, and after DESCRIBE it holds that one identifier and nothing else |
| Quoting.QuoteIsInjective | internal/resources/mysql.go:148 | different names have different quotings |
| Semver.TurnedAwayExactly | internal/client/client.go:156-168 | a client is told it is unreadable exactly when a minimum applies and either version is, and that it is too old exactly when both are readable and its triple is smaller (read off the branches) |
| Semver.UpdateOfferedExactly | internal/client/client.go:169-178 | an update is offered exactly when the client may stay and its triple is below a readable latest version (read off the branches) |

## Left out

- Gateway.Days: `int(days)` is modelled as an unbounded whole number; Go leaves the conversion open for values beyond int.
- Timestamp.AddDays: local time zones and their clock changes; the model is in UTC. The range of times is that of Go 1.24, which starts on 1 March of year -292277022400; other releases start some months apart.
- Expand.IdempotentExactly: assumes that the environment holds finitely many variables (`Expand.Finite`), as every environment does.
- Resources.Drivers.New: client connections are not modelled, only resources; a MongoDB client connected for a URI without a database name is never disconnected (internal/resources/mongo.go:46-57).
- Resources.ToLower: lower-cases ASCII letters only.
- ConfigTree.GatewayConfig.ExpandEnvVars: slices are values, so two slices sharing one backing array are not modelled; decoding YAML never makes any.
- Pointers and interfaces in the reflective walk: no `Config` field has one.
- The SQLite engine, its locking, connections and integer overflow of sums: the table is a sequence of rows and each statement is atomic.
- Backends, HTTP, the MCP library, OIDC verification, WireGuard and TLS set-up, the PKCE flow: foreign code and I/O; `Execute`, the constructors and the token endpoint are arbitrary.
- Overflow of `time.Duration` for absurd lifetimes and intervals: times are unbounded integers.
- Pre-release precedence of Semantic Versioning (section 11): the program drops the suffix, so only the triple is compared.
- Per-operation parameter checks, `isOpAllowed`, the SELECT/SHOW/EXPLAIN prefixes and the Redis scan loop: single-branch facts.
- The device page, health and bootstrap handlers, middleware and logging: display and I/O.
