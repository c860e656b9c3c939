# Verified model of the Dingolytics backend

Dingolytics is a Redash-derived analytics backend: users write SQL queries against data
sources, a scheduler reruns them, their results are cached and indexed, alerts watch the
results, and incoming event streams are routed by a generated Vector configuration. This
project models the algorithms at the centre of that system in Dafny and proves what they
keep, undo and conserve. `dafny verify dfyconfig.toml` checks everything.

| file | models |
|---|---|
| `Text.dfy` | optional values, decimal numerals, list helpers used everywhere |
| `SqlStatements.dfy`, `AutoLimitLaws.dfy`, `PrintedStatements.dfy` | splitting SQL into statements and the automatic LIMIT |
| `CacheKey.dfy`, `KeyLaws.dfy` | the normal form behind a query's hash, and query annotation |
| `Literals.dfy` | the ClickHouse literal printer of the public endpoints, with a reader |
| `Schedule.dfy`, `Intervals.dfy` | when a scheduled query is due; runs of failing attempts |
| `QuerySelection.dfy`, `DueQueries.dfy`, `SchedulerTick.dfy`, `TickLaws.dfy`, `StarvingDefaults.dfy` | which due queries one scheduler tick selects, what it runs for them, and who gets the results |
| `ResultStore.dfy`, `StoreRuns.dfy` | results, the latest-result index, cleanup, data source deletion |
| `Parameters.dfy`, `RenderingLaws.dfy` | parameterized queries: the missing-parameter check and rendering |
| `SchemaNames.dfy`, `GeneratedNames.dfy` | keys of tables, names of columns, slugs |
| `Alerts.dfy` | alert states and notifications |
| `FailureReports.dfy` | failure counters, the error queue, aggregated reports |
| `VectorConfigs.dfy` | the generated ingest configuration |

Objects and tables that the source updates in place are classes whose methods are proved
equal to functions of the old state; loops over lists and arrays are loops here. The laws
are lemmas about those functions, for all inputs and all runs.

## What the proofs show about the code

- Limiting a query twice is not always limiting it once. A line comment before the last
  semicolon swallows the appended limit, one before an earlier semicolon merges two
  statements, and a block comment before the last semicolon is dropped the second time when
  no limit was added. `AutoLimitLaws.AutoLimitIsFixedPoint` gives the exact condition on the
  statements of the query.
- `split_sql_statements` returns one empty statement for a query without any, and the limit
  check then fails on its missing first token: the automatic limit raises for such a query
  (`AutoLimitLaws.AutoLimitFails`).
- A fork of an edited query starts with a stale latest result
  exactly when the edit changed its hash or data source (`ResultStore.ForkOfEditedIsStale`).
- Deleting a data source is refused by the foreign key exactly when a query of another data
  source still points at one of its results (`ResultStore.DeletionDanglesIffBlocked`).
- A weekday schedule falls on the day before the requested one when the previous run was
  earlier in the day than the scheduled time (`Schedule.WeekdayNext`).
- A query that has never run is not due as long as its schedule looks ahead
  (`Schedule.NeverRunIsNeverDue`). A weekday schedule whose interval is not whole weeks can
  look back and be due at once; `Schedule.NeverRunDueIff` says exactly when.
- The scheduler runs a query with its default parameters, but deduplicates and repoints by
  the hash of the template. Two queries with one template and different defaults can stay
  due for ever (`StarvingDefaults.DefaultsStarve`); `SchedulerTick.ServedExactly` says
  exactly which queries a tick serves.
- No success resets the count of failures, so a query that has failed more than ten times
  leaves out slots from then on (`Schedule.EverySlotIsServed`).
- Muting does not delay a notification but drops it: without a rearm an alert that triggers
  while muted stays silent afterwards (`Alerts.UnmutedTooLate`).
- A schedule without an `until` entry, the column's own default included, is disabled by its
  first tick and never runs (`QuerySelection.NoUntilNeverRuns`).
- The missing-parameter check counts values of earlier `apply` calls that rendering no longer
  sees, and names with dots that cannot be looked up. `Parameters.SoundIffAnswered` says for
  which values it is nevertheless sound for every template; `Parameters.SecondApplySound` and
  `Parameters.FirstApplySound` spell this out for names without dots and for a fresh object.
- Full names of tables collide only when a schema holds a dot followed by a quote
  (`SchemaNames.SharedIffAmbiguous`), and column names only when one of them is another one
  with a number appended (`GeneratedNames.DistinctIffNumberFree`).
- Two tables that differ only in `_`, `.` and `-` share an ingest route, which then tests the
  key of the later one (`VectorConfigs.KeysAgree`, `VectorConfigs.RouteIsOwnIffLast`).

## Model

| member | source | states |
|---|---|---|
| SqlStatements.StripTrailingComments | redash/query_runner/__init__.py:54-63 | the in-place loop blanks exactly the comments and blanks after the last real token |
| SqlStatements.StripTrailingSemicolon | redash/query_runner/__init__.py:65-75 | the in-place loop blanks the semicolon that is the last visible token, and nothing else |
| SqlStatements.SplitSqlStatements | redash/query_runner/__init__.py:53-99 | the loop over the statements returns the cleaned non-empty ones, or one empty statement |
| SqlStatements.FindLastKeywordIdx | redash/query_runner/__init__.py:105-109 | the index of the last top-level keyword, -1 when there is none |
| SqlStatements.ApplyAutoLimit | redash/query_runner/__init__.py:320-329 | the limited and recombined query, the query itself when switched off, a failure when there is no statement |
| AutoLimitLaws.SplitCutsAtSemicolons | redash/query_runner/__init__.py:92-95 | splitting is a partition of the tokens, cut after each semicolon with the blanks and line comments on its line and nowhere else; only blanks behind the last cut are dropped |
| AutoLimitLaws.AutoLimitConserves | redash/query_runner/__init__.py:298-329 | every meaningful token survives in order; LIMIT 1000 is added at the very end, before a final punctuation mark, exactly when the last statement is a select without limit |
| PrintedStatements.AutoLimitPrints | redash/query_runner/__init__.py:298-329 | the printed result in full: the statements joined by `;` and a line break, with ` LIMIT 1000` before the final punctuation of the last exactly when it begins with SELECT and its last top-level keyword is neither LIMIT nor OFFSET, in upper or lower case |
| PrintedStatements.KeptRange | redash/query_runner/__init__.py:54-75 | a cleaned statement is the raw one without blanks around it, without its semicolon, and without the comments that no semicolon follows |
| PrintedStatements.PiecesEndWithLine | redash/query_runner/__init__.py:92-95 | a piece ends with the line of its semicolon, and the next one begins with the first token that is not on it |
| PrintedStatements.RelexKeepsText | redash/query_runner/__init__.py:101-102 | lexing the recombined statements again regroups tokens but never changes the text |
| AutoLimitLaws.AutoLimitFails | redash/query_runner/__init__.py:96-99 | the limit fails exactly on queries of blanks, comments and semicolons |
| AutoLimitLaws.AutoLimitIsFixedPoint | redash/query_runner/__init__.py:53-109 | for every lexed query: limiting the printed output again changes nothing if and only if the last statement keeps no final comment, and it is a select without limit or the statements that run into it through line comments do not make it one |
| AutoLimitLaws.AutoLimitTwice | redash/query_runner/__init__.py:320-329 | limiting is idempotent when no statement has a comment right before its semicolon |
| AutoLimitLaws.LineCommentIsNotStable | redash/query_runner/__init__.py:309-317 | a query whose limit ends up in a line comment, so that a second application changes it |
| CacheKey.CommentEndIsFirstCloser | redash/utils/__init__.py:24 | the comment pattern ends at the first closer and never crosses a line break |
| CacheKey.InvisiblePrefixes | redash/utils/__init__.py:71-81 | a text in front of queries leaves every hash alone if and only if its own normal form is empty |
| CacheKey.PlainKey | redash/utils/__init__.py:71-81 | on texts without comment openers the key is the text without white space |
| KeyLaws.BlanksAreInvisible | redash/utils/__init__.py:71-81 | exactly the white space of Unicode, line breaks and tabs included, leaves no trace in the key |
| CacheKey.CommentsAreInvisible | redash/utils/__init__.py:71-81 | a one-line comment anywhere behind such a text leaves no trace in the key |
| CacheKey.AnnotationKeepsKey | redash/query_runner/__init__.py:202-208 | annotating a query with metadata free of comment closers and line breaks keeps its hash, whatever the digest |
| CacheKey.AnnotationIsInvisible | redash/query_runner/__init__.py:202-208 | a metadata text leaves the key of every query alone if and only if it has no line break inside a comment and only blanks between a closer and the next opener; without closers, if and only if it has no line break |
| CacheKey.CloserInMetadataLeaks | redash/query_runner/__init__.py:202-208 | with a closer inside the metadata the rest of the metadata becomes part of the key |
| KeyLaws.AnnotationHolds | redash/query_runner/__init__.py:202-208 | the annotated text: every key and value in order, with colons and commas, in a comment before the query; nothing for runners that do not annotate |
| Literals.SequentialIsPerChar | dingolytics/api/endpoints.py:37-47 | the eight whole-string replacements equal one per-character escape |
| Literals.FormatReadsBack | dingolytics/api/endpoints.py:50-63 | for nested lists of null, integers and strings: reading the printed literal, inside a list or at the end, returns the value and exactly the text behind it |
| Literals.FormatIsInjective | dingolytics/api/endpoints.py:50-63 | different values print differently |
| Literals.IntPrints | dingolytics/api/endpoints.py:50-63 | integers print without leading zeros, with a minus sign exactly when negative |
| Literals.ValidExactly | dingolytics/api/endpoints.py:66-88 | a parameter name is valid exactly when it is an ASCII word that begins with no digit, a final line break aside |
| Literals.ParametersFromRequest | dingolytics/api/endpoints.py:66-88 | fails exactly when a `p_` argument has no valid name; otherwise each name is bound to a literal that reads back as its last value |
| Schedule.NextIsSlot | redash/utils/schedule.py:16-46 | closed form of the next iteration: latest slot not after the previous run, plus N days, plus the weekday correction, with the seconds carried along |
| Intervals.AnyTimeDue | redash/utils/schedule.py:13-15 | without a time of day a query is due exactly when now is later than the previous run plus the interval plus 2^failures minutes, and fails exactly when that interval leaves the calendar |
| Intervals.IntervalRuns | dingolytics/tasks/refresh_queries.py:22-45 | over any ticks at most g apart the k-th successful run comes more than k intervals (with their delay) and at most k gaps more after the previous one |
| Intervals.NextWithClock | redash/utils/schedule.py:16-46 | with a time of day, for any interval: the exact next iteration, and the exact condition for leaving the calendar |
| Intervals.UnreadablePlans | redash/utils/schedule.py:13-42 | which intervals, times and weekdays raise an error |
| Intervals.CalendarIsGregorian | redash/utils/schedule.py:34-46 | instants are those of the years 1 to 9999, and weekdays those of the Gregorian calendar |
| Schedule.SlotBeforeIsLatest | redash/utils/schedule.py:24-32 | the slot counted from shows hh:mm:00, is not after the previous run, and the next day's is |
| Schedule.DailyBounds | redash/utils/schedule.py:16-46 | without weekday the next iteration is at hh:mm, keeps the seconds and lies in (previous + (N-1) days, previous + N days] |
| Schedule.SlotsServedOnce | redash/utils/schedule.py:23-46 | a query without failures becomes due within the minute of the slot N days on, not earlier, and each run serves a slot at least N days later |
| Schedule.EverySlotIsServed | dingolytics/tasks/refresh_queries.py:22-45 | after f failures, which no success resets, and under ticks a minute apart: when every run succeeds, the k-th run serves exactly the slot k * (N + whole days of the 2^f-minute delay) days after the previous one and no run is over a minute late; no slot is left out if and only if f is at most ten |
| Schedule.NextSlotIffTenFailures | redash/utils/schedule.py:47-52 | a run within a minute of its delayed due time serves the slot N days on if and only if at most ten failures are counted |
| Schedule.WeekdayNext | redash/utils/schedule.py:34-46 | over whole weeks the next iteration is later than the previous run and on the requested weekday if and only if the previous clock minute was at or after the scheduled one, else on the day before |
| Schedule.DueIsUnbounded | redash/utils/schedule.py:47-52 | the overflow branch gives what unbounded dates would give: due exactly when now is later than the next iteration plus 2^failures minutes |
| Schedule.FailuresNeverHelp | redash/utils/schedule.py:47-52 | more failures never make a query due, overflow included |
| Schedule.NeverRunIsNeverDue | dingolytics/models/queries.py:257-268 | a query compared with now itself is not due, if its schedule looks ahead: no negative interval, whole days with a time, whole weeks on a weekday |
| Schedule.NeverRunDueIff | redash/utils/schedule.py:16-46 | for whole days, a query that has neither run nor failed is due if and only if its interval and weekday lead to a slot before now |
| Schedule.AttemptsAreDelayed | redash/utils/schedule.py:47-52 | in every run of failing attempts the k-th retry comes more than 2^k minutes after the undelayed due time |
| Schedule.BackoffBound | dingolytics/queries/errors.py:19-25 | after F failures in such a run, F is at most 1 or more than 2^(F-1) minutes have passed since the due time |
| Schedule.AttemptsKeepUp | dingolytics/tasks/refresh_queries.py:22-45 | the delay starves nobody: over every run of ticks at most g apart at least k+1 attempts have been made once 2^k minutes and k+1 gaps have passed since the due time, or one gap when g is at most two minutes |
| QuerySelection.KeyIsPair | dingolytics/models/queries.py:269-270 | the printed key stands for exactly one pair of hash and data source |
| DueQueries.SelectedIff | dingolytics/models/queries.py:245-270 | a query is selected exactly when its schedule is enabled, open and complete and the delayed next iteration after its cached execution time, else its latest result, else now, is past |
| DueQueries.DisabledIff | dingolytics/models/queries.py:271-273 | a tick disables exactly the schedules whose end is unreadable or that, before their end, lack a field or cannot be evaluated |
| DueQueries.NewQueryIsNotSelected | dingolytics/models/queries.py:257-262 | a query without result and cached execution is never selected when its plan looks ahead |
| DueQueries.NewQuerySelectedIff | dingolytics/models/queries.py:257-262 | such a query without failures and with an open schedule is selected exactly when its plan looks back |
| DueQueries.ExecutionActsAsResult | dingolytics/models/queries.py:257-259 | a cached execution time takes the place of the latest result |
| DueQueries.SelectedInOrder | dingolytics/models/queries.py:269-284 | the selected queries come in the order in which their keys first occur among the due ones |
| QuerySelection.SelectedAreLatest | dingolytics/models/queries.py:241-284 | selected are exactly the due queries of greatest id for their hash and data source |
| QuerySelection.SelectedDistinct | dingolytics/models/queries.py:241-284 | no two selected queries share hash and data source |
| QuerySelection.NotDueIsIrrelevant | dingolytics/models/queries.py:245-284 | malformed, disabled and waiting queries do not change what is selected |
| QuerySelection.MalformedDropsOut | dingolytics/models/queries.py:271-273 | later ticks select as if the queries that an earlier tick found malformed did not exist |
| QuerySelection.NoUntilNeverRuns | dingolytics/models/queries.py:245-273 | over every series of ticks a schedule without an end entry is disabled by the first one and never selected |
| QuerySelection.QueryTable.OutdatedQueries | dingolytics/models/queries.py:231-284 | the loop returns the selection and disables exactly the malformed schedules in place |
| QuerySelection.DueIsRepresented | dingolytics/models/queries.py:269-284 | every due query is represented by a selected one with its hash and data source |
| SchedulerTick.RefreshQueries | dingolytics/tasks/refresh_queries.py:22-76 | the loop renders each selected query with its defaults, counts a failure for invalid ones, runs the limited text, skips the others, and reports what was enqueued in order |
| TickLaws.TextExactly | dingolytics/tasks/refresh_queries.py:61-83 | the text that is run: the template, rendered with its defaults when one has a name and all are valid, then limited if the query asks for it |
| TickLaws.EnqueuedRun | dingolytics/tasks/refresh_queries.py:35-44 | an enqueued run hands over that text, the data source and the query it is scheduled for |
| TickLaws.TickFailures | dingolytics/tasks/refresh_queries.py:61-76 | a tick adds to a query's counter exactly its own failed runs and invalid defaults |
| SchedulerTick.ServedExactly | dingolytics/models/queries.py:367-388 | in every run and for every query: the tick brings it a new result if and only if some selected query on its data source runs successfully with a text of its hash; otherwise its latest result stays |
| SchedulerTick.DueQueriesAreServed | dingolytics/tasks/refresh_queries.py:22-76 | as long as the defaults keep the hash, in particular without parameters, deduplication loses nobody: when the run for a hash and data source succeeds, every due query that shares them, selected or not, gets a result from after the tick |
| SchedulerTick.ServedIsDueAgain | dingolytics/models/queries.py:241-284 | a served query is due again if and only if the next iteration after its new result plus the delay of its failures is past and its schedule has not ended |
| SchedulerTick.UnservedStaysDue | dingolytics/models/queries.py:241-284 | a due query that the tick does not serve keeps its previous run, and is due later unless its failures grow or its schedule ends |
| StarvingDefaults.DefaultsStarve | dingolytics/tasks/refresh_queries.py:61-76 | two due queries `SELECT {{x}}` with the defaults 1 and 2: one is selected, its run succeeds, neither gets the result, and both are due at every later instant |
| ResultStore.Database.RunQueryTask | dingolytics/tasks/run_query.py:39-110 | a run stores the row under the hash of the bare text and repoints the index, or only counts a failure |
| ResultStore.Database.UpdateLatestResult | dingolytics/models/queries.py:367-388 | the loop repoints exactly the queries with the row's hash and data source |
| ResultStore.Database.GetLatest | dingolytics/models/results.py:82-101 | the scan returns a matching row that was retrieved last, or nothing when none matches |
| ResultStore.Database.ForkQuery | dingolytics/models/queries.py:390-419 | the copy keeps text, options, data source and latest result and starts without failures |
| ResultStore.Database.CleanupUnusedResults | dingolytics/tasks/cleanup_results.py:28-37 | deletes at most count rows, each older than the threshold and referenced by no query; when fewer than count, every row left is younger or referenced; and changes nothing else |
| ResultStore.Database.DeleteDataSource | redash/models/datasources.py:115-126 | detaches every query of the source and removes exactly its rows, or does nothing when blocked |
| ResultStore.AlwaysInvariant | dingolytics/models/queries.py:468-477 | in every run hashes are current, references exist, and trusted queries point at the newest row of their hash and data source |
| StoreRuns.HashesAreCurrent | dingolytics/models/queries.py:468-477 | in every run a query with a data source carries the hash of its text, limited if it asks for it |
| StoreRuns.SuccessExactly | dingolytics/tasks/run_query.py:62-105 | a successful run adds one row with the annotated text under the hash of the bare one, and repoints exactly the matching queries |
| StoreRuns.FailureExactly | dingolytics/tasks/run_query.py:85-90 | a failed run counts one failure of its scheduled query and does nothing else |
| StoreRuns.CreateExactly | dingolytics/models/queries.py:468-477 | a new query gets the hash of its text and neither a result nor failures |
| StoreRuns.EditExactly | dingolytics/models/queries.py:468-477 | an edit keeps result and failures and renews the hash |
| StoreRuns.ForkExactly | dingolytics/models/queries.py:390-419 | a fork has text, options, data source and result of the original, a hash of its own and no failures |
| StoreRuns.CleanupExactly | dingolytics/tasks/cleanup_results.py:28-37 | a cleanup of old, unreferenced rows deletes these and nothing else |
| StoreRuns.FailuresAreCounted | dingolytics/queries/errors.py:19-25 | in every run a query's counter is the number of its failed scheduled runs |
| StoreRuns.AllTrusted | dingolytics/models/queries.py:468-477 | in a run whose edits keep hash and data source, or come before any result, all queries and forks can be trusted |
| StoreRuns.TrustRestored | dingolytics/models/queries.py:367-388 | a successful run makes the queries it repoints trusted, and only edits end trust |
| ResultStore.IndexAgreesWithScan | dingolytics/models/results.py:82-101 | in every run a trusted query's latest result is exactly the answer of the scan without age limit for its limited text |
| ResultStore.IndexAnswersAgedScan | dingolytics/models/results.py:89-101 | with an age limit the scan returns the indexed row while it is fresh and nothing afterwards |
| ResultStore.ForkOfEditedIsStale | dingolytics/models/queries.py:390-419 | a trusted query is edited in any way and forked: the fork points at the row the scan returns for it if and only if the edit left hash and data source alone |
| ResultStore.NothingDangles | redash/models/datasources.py:115-122 | no run leaves a query pointing at a missing result |
| ResultStore.DeletionDanglesIffBlocked | redash/models/datasources.py:115-122 | deleting a source would leave a dangling reference if and only if a query of another source points at one of its rows |
| ResultStore.OnlyStaleQueriesBlock | redash/models/datasources.py:115-122 | every query that blocks a deletion was edited since its latest result, or is a fork of such a query |
| ResultStore.CleanupDrains | dingolytics/tasks/cleanup_results.py:11-39 | k cleanups of COUNT rows leave max(0, n - k * COUNT) of n unused rows when none is added |
| StoreRuns.RowsAreKept | dingolytics/models/results.py:72-80 | in every run a row stays as stored until a cleanup deletes it when it is older than the limit and unreferenced, or its data source is deleted |
| ResultStore.AgingCleanupDrains | dingolytics/tasks/cleanup_results.py:11-39 | while rows cross the age limit, a series of cleanups leaves nothing unused if and only if for every run the rows that became unused since then fit into the runs after it |
| ResultStore.StoredTextHashes | dingolytics/tasks/run_query.py:62-102 | in every run with harmless metadata each stored annotated text hashes to the row's stored hash |
| Parameters.CollectKeyNames | redash/models/parameterized_query.py:58-67 | every key of the template at any depth, each once |
| Parameters.ParameterNames | redash/models/parameterized_query.py:76-85 | plain names, and dotted names for the entries of dicts |
| RenderingLaws.KeysExactly | redash/models/parameterized_query.py:58-67 | the keys of a template are those of its tags and sections, at any depth, and no others |
| RenderingLaws.JoinedText | redash/models/parameterized_query.py:39-55 | a list value becomes its items in order, each between prefix and suffix, with the separator between neighbours |
| RenderingLaws.JoinedLists | redash/models/parameterized_query.py:39-55 | only lists are changed, with the separators of their definition or a plain comma |
| RenderingLaws.RenderConcat | redash/utils/__init__.py:190-192 | the parts of a template print one after the other |
| RenderingLaws.RenderTag | redash/utils/__init__.py:190-192 | a tag prints the plain value of its name, and nothing when its name cannot be looked up |
| RenderingLaws.RenderEntry | redash/utils/__init__.py:190-192 | a dotted tag prints the entry of the dict |
| RenderingLaws.RenderSection | redash/utils/__init__.py:190-192 | a section prints its text once for each item of a list, once for other true values, and else not at all |
| RenderingLaws.RenderItems | redash/utils/__init__.py:190-192 | in a section over a list the tag `.` prints the items in order |
| RenderingLaws.RenderInDict | redash/utils/__init__.py:190-192 | in a section over a dict its entries hide the names around it |
| Parameters.CoveredResolves | redash/models/parameterized_query.py:189-192 | when what the check counts is there for rendering, a counted name resolves under every section context stack |
| Parameters.CoveredNodes | redash/models/parameterized_query.py:189-192 | when moreover no key is missing, the strict rendering, which fails on any tag or section without a value, succeeds and equals the actual one: nothing is silently dropped |
| Parameters.ResolvesExactly | redash/models/parameterized_query.py:76-85 | the names that resolve are exactly `.`, plain names without dots and entries of dicts; without dots in names these are the names the check counts, `.` and the bare names of dicts |
| Parameters.ParameterizedQuery.Apply | redash/models/parameterized_query.py:128-140 | invalid values are refused without effect; valid ones are remembered and rendered; when what is remembered is there for rendering, an empty list of missing names means that the new query is the strict rendering |
| Parameters.ParameterizedQuery.MissingParams | redash/models/parameterized_query.py:189-192 | the keys of the template that no remembered value covers |
| Parameters.SoundIffAnswered | redash/models/parameterized_query.py:128-192 | the check is sound for every template if and only if every counted name is `.`, a given name without dots, or the name of an entry of a given dict |
| Parameters.SecondApplySound | redash/models/parameterized_query.py:135-138 | after a second call, with names without dots, the check is sound for every template if and only if each key given only earlier holds a dict without entries (an entry that spells `.` aside) |
| Parameters.FirstApplySound | redash/models/parameterized_query.py:76-85 | on a fresh object the check is sound for every template if and only if dicts with entries and their entries have no dots and every other dotted name is `.` or spells an entry of a dict |
| SchemaNames.SharedIffAmbiguous | redash/query_runner/pg.py:73-77 | a full name is also that of a table in a shorter schema if and only if it is ambiguous: the schema holds a dot followed by a double quote, and the table holds a dot or ends in a quote; so never without double quotes in schemas |
| SchemaNames.FullNameIsInjective | redash/query_runner/pg.py:73-77 | apart from the ambiguous ones a full name determines schema and table, dots or not |
| SchemaNames.KeysAreTables | redash/query_runner/pg.py:88-102 | two rows share a key if and only if they describe the same table, when no row has an ambiguous name |
| SchemaNames.BareExactly | redash/query_runner/pg.py:88-98 | a table is listed without its schema exactly when that is public and no full name equals the bare one |
| SchemaNames.FullNamePrints | redash/query_runner/pg.py:73-77 | a full name is schema and table with a dot between, the table in double quotes if it has a dot |
| SchemaNames.QuotesCollide | redash/query_runner/pg.py:73-77 | double quotes in names can make two tables share a key |
| SchemaNames.SchemaIsLossless | redash/query_runner/pg.py:80-111 | every table is listed once with exactly its own columns in input order, and the columns add up to the rows |
| SchemaNames.ColumnsShowRows | redash/query_runner/pg.py:103-111 | a table's columns are those of its rows, in order, each with its name and with its data type when there is one |
| SchemaNames.RowsAreAppended | redash/query_runner/pg.py:80-111 | any rows added to any schema: tables keep their columns, get the new ones behind them, and new tables follow in the order of their first rows |
| SchemaNames.Schema.BuildSchema | redash/query_runner/pg.py:80-111 | the loop adds the rows to the tables already there, in order |
| GeneratedNames.NamesAreDistinct | redash/query_runner/__init__.py:221-237 | when no column name is another one with a number appended, the names are pairwise distinct, each its column's own or that plus a positive number |
| GeneratedNames.NameExactly | redash/query_runner/__init__.py:221-237 | a column keeps its name exactly when no name before it is the same, and else gets the number of columns renamed so far appended |
| GeneratedNames.DistinctIffNumberFree | redash/query_runner/__init__.py:221-237 | for every set of column names: every result over them gets pairwise distinct names if and only if no name in the set is another one with a positive number appended |
| GeneratedNames.DigitFreeNames | redash/query_runner/__init__.py:221-237 | names that do not end in a digit satisfy this |
| GeneratedNames.RepeatedCollides | redash/query_runner/__init__.py:221-237 | for every name and number n a column of that name and number collides with the n-th duplicate of the name |
| GeneratedNames.NoCellIsLost | redash/query_runner/pg.py:263-270 | for every set of column names: every row over them, turned into a dict, has an entry of its own for every cell if and only if no name is another one numbered |
| GeneratedNames.FetchColumns | redash/query_runner/__init__.py:221-237 | the loop returns one column per input, in order, with unchanged type |
| GeneratedNames.GenerateSlug | redash/models/__init__.py:227-233 | the search ends after at most one lookup more than there are slugs, with the first free one of the slug and the slug with an underscore and a number |
| Alerts.Alert.CheckOne | dingolytics/tasks/check_alerts_for_query.py:20-43 | the new status and whether subscribers are notified |
| Alerts.WantedExactly | dingolytics/tasks/check_alerts_for_query.py:57-65 | in every run an evaluation is wanted exactly when it changes the state, except from unknown to OK, or triggers again more than the rearm time after the last wanted trigger |
| Alerts.StatusExactly | dingolytics/tasks/check_alerts_for_query.py:24-28 | exactly the changes and the wanted repeats are stored, with their time |
| Alerts.RepeatsAreTimely | dingolytics/tasks/check_alerts_for_query.py:57-65 | with a rearm r and evaluations at most g apart, repeats in a stretch are at most r + g apart |
| Alerts.CheckAlerts | dingolytics/tasks/check_alerts_for_query.py:18-43 | every alert of the query is checked once, independently of the others |
| Alerts.SentAreUnmuted | dingolytics/tasks/check_alerts_for_query.py:39-43 | when muting varies over the run, exactly the wanted notifications of the unmuted evaluations are sent |
| Alerts.MutingIsInvisible | dingolytics/tasks/check_alerts_for_query.py:18-43 | muting changes neither the status nor which notifications are wanted |
| Alerts.RepeatNeedsRearm | dingolytics/tasks/check_alerts_for_query.py:57-65 | two triggered notifications that are wanted in a row need a rearm and are more than rearm seconds apart |
| Alerts.StretchTakesLonger | dingolytics/tasks/check_alerts_for_query.py:57-65 | k repeats in one triggered stretch take more than k times the rearm time |
| Alerts.NoRearmNoRepeat | dingolytics/tasks/check_alerts_for_query.py:57-65 | without a rearm another wanted notification always separates two triggered ones |
| Alerts.SentAreChanges | dingolytics/tasks/check_alerts_for_query.py:20-43 | without a rearm the notifications of every run are exactly the evaluations that, while unmuted, find another state than the one before, except from unknown to OK |
| Alerts.UnmutedTooLate | dingolytics/tasks/check_alerts_for_query.py:39-41 | without a rearm an alert that was triggered and goes on triggering sends nothing more, muted or not |
| Alerts.OkFollowsTriggered | dingolytics/tasks/check_alerts_for_query.py:29-41 | every wanted OK notification directly follows a triggered one, so becoming OK from the unknown state says nothing |
| Alerts.MutedIsSilent | dingolytics/tasks/check_alerts_for_query.py:39-41 | an alert that is always muted sends nothing, one that never is sends all that is wanted |
| FailureReports.ReportConserves | dingolytics/tasks/failure_reports.py:34-56 | counts add up to the queued messages; one entry per query and message, in order of first failure, with the newest occurrence |
| FailureReports.ReportExactly | dingolytics/tasks/failure_reports.py:34-51 | each entry shows the frontmost of the messages that say the same about the same query and counts all of them; no two entries say the same, and every message is represented |
| FailureReports.PushesAreBounded | dingolytics/queries/errors.py:19-52 | over every run a query queues at most MAX-1 messages, and every queued message is counted in one report or still waiting |
| FailureReports.FirstFailuresAreQueued | dingolytics/queries/errors.py:19-52 | the bound is reached: while nothing suppresses it, each of a query's first MAX-1 failures is queued |
| FailureReports.TrackExactly | dingolytics/queries/errors.py:19-52 | one more failure is counted, and queued in front with its own id, name, message, time and count exactly when wanted and below the limit |
| FailureReports.PushedCarryFailures | dingolytics/queries/errors.py:39-52 | over every run each queued message carries what one of the failures said |
| FailureReports.ErrorQueue.TrackQueryError | dingolytics/queries/errors.py:19-52 | counts the failure, and queues it in front unless reporting is off, the limit is reached or the owner is disabled |
| FailureReports.ErrorQueue.SendFailureReport | dingolytics/tasks/failure_reports.py:25-65 | reports the queue and empties it, or does nothing when it is empty |
| VectorConfigs.GeneratedHasIntegrity | dingolytics/ingest/vector.py:37-66 | for every list of streams each input of every sink and transform names an existing source, transform or route |
| VectorConfigs.GeneratedExactly | dingolytics/ingest/vector.py:139-179 | sources, transforms, console, and the keys of routes and sinks of the generated configuration, and nothing else |
| VectorConfigs.SinkWritesOwnTable | dingolytics/ingest/vector.py:181-222 | a stream's sink writes to its own table, url and database, and reads the internal logs or the route of its key |
| VectorConfigs.OwnSinkReadsOwnRoute | dingolytics/ingest/vector.py:181-222 | the last stream with a route key owns its sink, which reads the route testing that stream's ingest key |
| VectorConfigs.DistinctKeysServeAll | dingolytics/ingest/vector.py:181-202 | with distinct route keys every routed stream's sink reads the route testing its own key |
| VectorConfigs.RouteIsOwnIffLast | dingolytics/ingest/vector.py:191-193 | a route tests a stream's own key if and only if no later routed stream has the same route key |
| VectorConfigs.ServedIffLast | dingolytics/ingest/vector.py:181-222 | a routed stream's sink reads the route that tests its own key if and only if no later stream, internal ones included, has its route key |
| VectorConfigs.KeysAgree | dingolytics/ingest/vector.py:191 | two tables get the same route key if and only if they differ in nothing but their separators `_`, `.` and `-` |
| VectorConfigs.VectorConfig.UpdateClean | dingolytics/ingest/vector.py:37-66 | a clean update depends only on the streams, not on what the shared object held before, and has integrity |

## Left out

- SQL lexing and grouping, and BEGIN/END blocks: a query is the flat token list of the lexer, with semicolons that end a statement and top-level keywords marked; keywords are compared in ASCII upper case, and blanks inside the end of a line comment are not tracked.
- sqlparse itself: the splitter keeps the blanks and line comments on a semicolon's line with the statement before it and starts the next one at a line break, as version 0.4.3 does; line breaks other than a line feed and optimizer hints are not told apart.
- md5 and lower-casing: any function of the normal form with comments and white space removed.
- Floats, booleans, dates and integers of more than 4300 digits in literals.
- Interval arithmetic in floats: intervals are added as exact seconds; the laws for clock times are for whole days.
- Overlapping runs of one query, and the Redis execution times beyond their precedence over the latest result: nothing in the code but tests writes them.
- The refresh loop's other filters (disabled organizations, paused data sources) and exceptions other than invalid defaults: an input of each run says that it is skipped.
- SchedulerTick.RefreshQueries: the template parser is a function of the text, and the error message of invalid defaults is not queued here.
- Interleaved runs within a tick: the selected queries run one after the other.
- `Alert.evaluate` and `next_state`: the evaluated state is an input of a check.
- Automatic limits inside the result store: a function of the data source and the text that always returns, so queries without a statement are not stored there.
- Ties between retrieval times: every run takes at least one unit of time.
- SchemaNames.KeysAreTables: asks that no row has an ambiguous full name; two such rows can still differ in their keys when one of them is in the public schema.
- Parameters.SoundIffAnswered: dicts inside dicts, which can shadow names in sections, are excluded.
- Parameters.CoveredNodes: the same.
- Template parsing, triple mustaches and inverted sections: the model starts from the parse tree, and the key collector ignores the last two.
- Parameter validation by type: a function given to the object.
- Loading an existing Vector file: only clean updates; streams without URL or database in their options raise in the code and do not occur here.
- Races between a failure report and new failures, mail, HTTP handlers, permissions, serialization.
