# A verified model of redxt's core algorithms and protocols

redxt is a server written in Go. This project models the parts of it that are hard to get
right by reading alone and proves, for all inputs, all runs or all interleavings, what
they promise. `dafny verify dfyconfig.toml` checks everything.

Code that changes things step by step is imperative here too: loops over indices, arrays
filled in place, classes whose methods change fields. Each such method is proved against a
function or predicate of its inputs, and the properties are proved about that function.
Protocols that several nodes run at once are state machines whose steps are the single
statements and critical sections of the source.

## What is modelled

- **GraphQL front end** (`Graphql*.dfy`). The lexer, the recursive-descent parser with its
  cursor, operation selection, argument values and result narrowing. A reference grammar
  says how each construct is written as tokens. The parser accepts a token sequence if and
  only if it is a valid document written down, printing and parsing are inverse in every
  layout that keeps fusing tokens apart, texts join at line breaks, and writing request
  variables into a query keeps its meaning. This is a subset of section 2 of the GraphQL
  specification, October 2021.
- **Scheduler** (`Cron.dfy`, `CronText.dfy`, `Scheduler.dfy`, `ClusterLocks.dfy`, `ClusterRuns.dfy`).
  Cron fields and the search for the next run over an explicit calendar; the per-node
  bookkeeping; and the cluster lock over every interleaving of nodes, with crashes and
  failed statements.
- **Secrets** (`Secrets.dfy`, `SecretRaces.dfy`). Ensuring, rotating and pruning by any
  number of nodes at once.
- **Election and quorum** (`ClusterNodes.dfy`). What nodes conclude from the heartbeat
  table, and what they can conclude at the same time.
- **Cache and its lock** (`MemoryCache.dfy`, `Locker.dfy`). The expiring map refines a
  history that never forgets; the lock excludes under an exact condition.
- **Identifiers** (`Ulid.dfy`). Bit packing, carry, order and monotonic generation.
- **Key derivation** (`Hkdf.dfy`), **edit distance** (`EditDistance.dfy`) and **shell
  quoting** (`Shell.dfy`), each against its definition: RFC 5869, sequences of edits, and
  the quoting rules of the POSIX Shell Command Language.
- **Backups** (`BackupNames.dfy`, `Retention.dfy`). Names read back, and which files a
  retention sweep deletes.
- **Log files** (`LogNames.dfy`, `LogRetention.dfy`, `LogFile.dfy`). Rotation, the names it
  chooses, and what retention deletes.

`Results.dfy`, `Bytes.dfy`, `Text.dfy`, `Sets.dfy`, `Sorting.dfy`, `Calendar.dfy` and
`Stamps.dfy` stand in for pieces of Go's library.

## Where the code and its comments differ

The model follows the code. Each point has a lemma.

- src/database/cluster.go:236-240 says election has no preemption. A lower id that
  heartbeats takes over from a healthy primary (`LowerIdTakesOver`); exactly when the
  primary changes is `PrimaryChanges`.
- src/database/cluster.go:23-25 says offline nodes leave the quorum. They stay in the
  count (`OfflineNodesCount`); exactly when that matters is `QuorumDiffersIff`.
- src/database/cluster.go:41-45 says a removed node does not silently rejoin. It does once
  its row was pruned (`PrunedNodeRejoins`); exactly when it stays removed is
  `RemovedStaysRemovedIff`.
- src/scheduler/lock.go:19-23 says two racing nodes never both win. The lock lasts 5
  minutes and a retry can wait an hour (`LateRunCanBeJoined`); exactly when a run can be
  joined is `CanBeJoinedIff`.
- src/scheduler/cron.go:112-114 says the bounded search is there to fail fast on dates that
  do not exist. It also misses dates that do: a date on a given day of the week, such as a
  1 January that is a Monday (`MondayNewYearIsMissed`), and 29 February around century years
  (`LeapDayScheduleIsSkipped`). Exactly when a schedule has a next run is `NextRunIff`, and
  without a day of the week `CalendarRunsIff` and `MissesIff`. A task whose run ends while
  there is none stays due at every tick (`Finish`).
- src/cache/lock.go:26-31 says a release never drops another node's claim. It reads first
  and deletes later (`LateDeleteLetsTwoIn`); exactly when a run stays safe is
  `AlwaysOneHolderIff`.
- src/database/secret.go:119-124 implies that every superseded row gets an expiry. A slow
  first use can add one that has none (`LateInsertStrandsARow`, `StrandedForever`); exactly
  when a run has no such row is `AlwaysDatedIff`.
- src/backup/filename.go:72-74 says files of unrelated projects never match. Exactly which
  do is `OtherProjectsAcceptedIff`; among them those of a project whose name continues this
  one's after either separator (`SiblingProjectIsAccepted`), and those of one whose name
  together with part of the date is this one's (`CutDateIsAccepted`).
- src/backup/retention.go:80-83 promises a total at or under the cap. The 64-bit sum can
  wrap around (`WrappedTotalKeepsTooMuch`); exactly when the promise holds is
  `SurvivorsWithinCap`, and over all orders of files of one date `CapKeptForAllOrdersIff`.
- src/backup/retention.go:136-138 speaks of the total size, from which the loop subtracts
  file by file. The 64-bit subtraction can underflow (`LargeFilesUnderflow`); exactly when
  is `StepUnderflowsIff`, and never while the held files fit 64 bits (`NoStepUnderflows`).
- src/logging/rotate.go:138-146 promises to keep files younger than the age. An age of more
  than some 292 years overflows (`LongAgeDeletesEverything`); exactly when the cutoff and
  the victims are right is `AgeIsExactWithinRange` and `AgeVictimsIff`.
- src/logging/writer.go:235-238 says rotated names sort chronologically. A name freed by
  pruning can be chosen again within its second (`ThirdRotationIsLost`); exactly when a
  stamp is the latest is `LatestIff`. While nothing is pruned and the clock does not go
  back they do (`OrderedStep`, `ReadsAsWritten`).

## Model

| member | source | states |
|---|---|---|
| GraphqlLexer.FindClose | src/graphql/resolvers.go:342-348 | the scan for a closing triple quote stops at the first one, or finds none |
| GraphqlLexer.LexBlock | src/graphql/resolvers.go:339-350 | a block string is the text up to the first closing triple quote, trimmed; without one it is an error |
| GraphqlLexer.LexEscape | src/graphql/resolvers.go:361-396 | an escape decodes to its one character, `\u` to the character of its four hexadecimal digits; truncated, invalid and unknown escapes are three different errors |
| GraphqlLexer.LexLine | src/graphql/resolvers.go:352-402 | a single-line string ends at its first unescaped quote, fails at a line break or at the end, and decodes its escapes |
| GraphqlLexer.LexString | src/graphql/resolvers.go:338-403 | the literal is a block string exactly when three quotes start it, and otherwise a single-line string |
| GraphqlLexer.SkipWhile | src/graphql/resolvers.go:282-334 | a run of characters ends at the first one that does not belong to it |
| GraphqlLexer.LexAt | src/graphql/resolvers.go:284-330 | one pass of the loop reads exactly one lexeme: white space, comment, spread, punctuation, name, number or string, or reports why not |
| GraphqlLexer.Lex | src/graphql/resolvers.go:282-334 | for every text the loop ends with the tokens of the reference definition and one end marker, or with its error |
| GraphqlStrings.SpellingDecodes | src/graphql/resolvers.go:352-402 | each character decodes from itself, from its short escape, and from `\u` with its code in hexadecimal digits of either case; a surrogate code gives U+FFFD |
| GraphqlStrings.BodyIff | src/graphql/resolvers.go:352-402 | a string on one line is read as a text if and only if it is a spelling of that text, character by character, and the closing quote |
| GraphqlStrings.UnicodeEscapeIff | src/graphql/resolvers.go:385-393 | four characters after `\u` are accepted if and only if they are the hexadecimal digits of a number |
| GraphqlStrings.LiteralIff | src/graphql/resolvers.go:338-403 | a text is a string literal, and nothing more, if and only if it is such a line between quotes, or a block between triple quotes without its outer white space |
| GraphqlLayout.FirstStable | src/graphql/resolvers.go:282-334 | a lexeme does not change when an ignored character and anything else follows; only a comment needs a line break |
| GraphqlLayout.TokensOfJoin | src/graphql/resolvers.go:282-403 | if `a` lexes, then `a`, a line break and `b` lex to the tokens of `a` followed by whatever `b` lexes to, even if `a` ends in a comment, an empty string or a block string |
| GraphqlLayout.JoinNeedsALexedFirstPart | src/graphql/resolvers.go:339-350 | the condition on `a` is needed: two texts that do not lex can join to one that does |
| GraphqlLayout.TokensAreValid | src/graphql/resolvers.go:282-334 | every token the lexer produces has valid text: a name is a name, a number starts like one, a punctuation mark is one of the known ones |
| GraphqlLayout.TokenIff | src/graphql/resolvers.go:282-403 | a text is read as one token, and as nothing more, if and only if it is a way to write that token: a name, a number or a mark as itself, a string in any spelling |
| GraphqlLayout.FusesIff | src/graphql/resolvers.go:282-403 | a token's text in front of any other text is read as that token if and only if the next character does not become part of it |
| GraphqlLayout.LayoutReadsBack | src/graphql/resolvers.go:282-403 | tokens in any spelling, laid out with any white space, commas and comments between them, or nothing where neighbours do not fuse, lex back to exactly these tokens |
| GraphqlLayout.TokensIff | src/graphql/resolvers.go:282-403 | a text lexes to given tokens if and only if it is such a layout of them, after any leading blanks |
| GraphqlLayout.LayItOut | src/graphql/resolvers.go:282-403 | every sequence of valid tokens has a layout |
| GraphqlExactness.DocumentExact | src/graphql/resolvers.go:469-745 | the reference parser returns a document if and only if the document is valid and the token sequence is that document written down; so everything is consumed and no text reads in two ways |
| GraphqlExactness.AcceptedNests | src/graphql/resolvers.go:469-745 | in every accepted token sequence braces, parentheses and brackets nest |
| GraphqlParser.Parser.constructor | src/graphql/resolvers.go:421-424 | the cursor starts in front of the tokens and the end marker |
| GraphqlParser.Parser.Next | src/graphql/resolvers.go:432-438 | returns the current token and moves past it, but never past the end marker |
| GraphqlParser.Parser.AcceptPunct | src/graphql/resolvers.go:442-448 | consumes one token if it is the given mark, and otherwise nothing |
| GraphqlParser.Parser.ExpectPunct | src/graphql/resolvers.go:451-456 | the same with an error that names the mark and the token found |
| GraphqlParser.Parser.ExpectName | src/graphql/resolvers.go:459-466 | consumes a name or fails with the token found |
| GraphqlParser.Parser.ParseValue | src/graphql/resolvers.go:679-745 | reads what the reference parser reads from the same tokens, with the same rest and the same error |
| GraphqlParser.Parser.ParseItems | src/graphql/resolvers.go:707-720 | the same for the items of a list |
| GraphqlParser.Parser.ParseMember | src/graphql/resolvers.go:659-673 | the same for a name, a colon and a value |
| GraphqlParser.Parser.ParseMembers | src/graphql/resolvers.go:721-741 | the same for the members of an object; the last of a repeated key wins |
| GraphqlParser.Parser.ParseArgs | src/graphql/resolvers.go:650-676 | the same for arguments; a repeated name is an error |
| GraphqlParser.Parser.ParseSelection | src/graphql/resolvers.go:614-647 | the same for a field with its alias |
| GraphqlParser.Parser.ParseField | src/graphql/resolvers.go:629-646 | the same for the arguments and the nested selections of a field |
| GraphqlParser.Parser.ParseSelectionSet | src/graphql/resolvers.go:588-610 | the same for a braced, non-empty list of selections; fragments and directives are errors |
| GraphqlParser.Parser.ParseVarType | src/graphql/resolvers.go:563-585 | the same for a type, which is kept as the text it was written as |
| GraphqlParser.Parser.ParseMarks | src/graphql/resolvers.go:581-583 | reads every non-null mark, as the loop does |
| GraphqlParser.Parser.ParseVarDef | src/graphql/resolvers.go:537-556 | the same for one variable; a default value is read and dropped |
| GraphqlParser.Parser.ParseVarDefs | src/graphql/resolvers.go:528-559 | the same for the list of variables |
| GraphqlParser.Parser.ParseOperation | src/graphql/resolvers.go:493-525 | the same for an operation in short or full form; subscriptions and fragments are errors |
| GraphqlParser.Parser.ParseFull | src/graphql/resolvers.go:508-524 | the same after the keyword |
| GraphqlDocuments.ParseQuery | src/graphql/resolvers.go:469-489 | for every text: blank is an error, a lexical error is reported, and otherwise the operations or the error of the reference parser |
| GraphqlDocuments.TokensAreNotBlank | src/graphql/resolvers.go:469-489 | a text with at least one token is not blank, so the test for an empty query and the parser agree |
| GraphqlDocuments.ErrorsOfText | src/graphql/resolvers.go:469-489 | white space alone is an empty query, a text with a bad token gives that token's error, and one with comments only has no operation |
| GraphqlDocuments.QueryExact | src/graphql/resolvers.go:469-745 | a text parses to given operations if and only if its tokens are some valid document written down that says these operations |
| GraphqlDocuments.TextExact | src/graphql/resolvers.go:469-745 | a text is accepted with given operations if and only if it is a layout of some valid document that says them, its strings in any spelling |
| GraphqlDocuments.RoundTrip | src/graphql/resolvers.go:469-745 | every well-formed list of operations can be written down, and written down in any way it parses back to that list: nested selections, aliases, variable types, lists and objects included |
| GraphqlDocuments.ResultIsWellFormed | src/graphql/resolvers.go:469-745 | whatever a text parses to is well formed, so printing and parsing it again is the identity on all results |
| GraphqlDocuments.AcceptedTextNests | src/graphql/resolvers.go:469-745 | brackets of every kind nest in every accepted text |
| GraphqlDocuments.DocumentsJoin | src/graphql/resolvers.go:469-489 | two accepted documents joined by a line break parse to the operations of the first followed by those of the second |
| GraphqlForms.StringArgument | src/graphql/resolvers.go:352-402 | `{ f(a: text) }`, the string in any spelling, is a query without a name whose argument is that text |
| GraphqlForms.NameArgument | src/graphql/resolvers.go:679-706 | a bare name as an argument is a boolean, null, or an enum value kept as its text |
| GraphqlForms.VariableArgument | src/graphql/resolvers.go:679-690 | a dollar sign and a name are that variable |
| GraphqlForms.AliasedField | src/graphql/resolvers.go:614-646 | of two names around a colon the first is the alias and the second the field, also with subfields |
| GraphqlForms.TypedVariable | src/graphql/resolvers.go:493-585 | kind, name, variable and type are those written, with every mark of the type |
| GraphqlForms.LastMemberWins | src/graphql/resolvers.go:721-741 | of the members of an object with one key the last is kept |
| GraphqlRequests.SelectOperation | src/graphql/resolvers.go:246-269 | an empty name selects the only operation and is an error if there are several; any other name selects the first operation so named |
| GraphqlRequests.ResolvesIffSupplied | src/graphql/resolvers.go:159-195 | resolving succeeds if and only if every variable mentioned was supplied, and an error names a mentioned variable that was not |
| GraphqlRequests.ItemsResolve | src/graphql/resolvers.go:165-174 | a list resolves item by item and fails with the error of one of its items |
| GraphqlRequests.MembersResolve | src/graphql/resolvers.go:175-191 | an object resolves to data with the same keys, member by member, and fails with the error of one of its members |
| GraphqlRequests.WrittenResolves | src/graphql/resolvers.go:159-195 | data written as a value resolves to itself, whatever the variables |
| GraphqlRequests.InliningKeepsMeaning | src/graphql/resolvers.go:159-195 | writing the supplied variables into the query leaves what every argument resolves to unchanged |
| GraphqlRequests.OtherVariablesDoNotMatter | src/graphql/resolvers.go:159-195 | only the variables a value mentions influence what it resolves to |
| GraphqlNarrow.ShapeOfResult | src/graphql/resolvers.go:864-899 | null stays null, a list keeps its length, an object gets exactly the response keys of the selections, and a scalar is never narrowed |
| GraphqlNarrow.ResultFollowsSource | src/graphql/resolvers.go:864-899 | with distinct response keys, a path through the result by response key finds exactly what the path by field name finds in the original |
| GraphqlNarrow.NarrowIff | src/graphql/resolvers.go:206-216 | for a parsed document without ambiguous names, narrowing returns a value if and only if at every level that value has exactly the names written before the colon, or the field names without one, each with the member of its field |
| GraphqlNarrow.NarrowIgnoresTheRest | src/graphql/resolvers.go:864-899 | values that agree on what is selected narrow alike |
| GraphqlNarrow.NarrowTwice | src/graphql/resolvers.go:864-899 | without aliases and repeated names narrowing again changes nothing |
| GraphqlNarrow.SecondSucceedsIff | src/graphql/resolvers.go:864-899 | with distinct response keys, what was narrowed by one selection set can be narrowed by another if and only if each field that asks for is a response key of the first and its value can be looked into again |
| GraphqlNarrow.AbsorbsIff | src/graphql/resolvers.go:864-899 | narrowing by one selection set makes no difference to another, for any value, if and only if it keeps each field that asks for under its own name, whole or with everything asked for below it |
| GraphqlNarrow.TwiceIff | src/graphql/resolvers.go:864-899 | so narrowing again changes no result if and only if the selection set keeps its own fields in that way, at every level |
| GraphqlNarrow.RenamedFieldIsLost | src/graphql/resolvers.go:211-216 | with an alias alone it does not: the second time the field is missing |
| GraphqlNarrow.NarrowSucceeds | src/graphql/resolvers.go:864-899 | narrowing succeeds if and only if every selected field is present wherever it is looked for and no scalar is narrowed |
| EditDistance.FillRow | src/notify/template.go:283-291 | one pass of the inner loop computes the next row of distances in place from the row before |
| EditDistance.Levenshtein | src/notify/template.go:276-295 | with the two rows swapped after each pass, the result is the recursive edit distance for all strings |
| EditDistance.ZeroOnlyIfEqual | src/notify/template.go:276-295 | the distance is zero if and only if the strings are equal |
| EditDistance.Symmetric | src/notify/template.go:276-295 | the distance is symmetric |
| EditDistance.Triangle | src/notify/template.go:276-295 | the distance satisfies the triangle inequality |
| EditDistance.EditsAreNoShorter | src/notify/template.go:276-295 | no sequence of single-character edits from one string to the other has fewer edits than the distance |
| EditDistance.ShortestEdits | src/notify/template.go:276-295 | a sequence with exactly that many edits exists |
| EditDistance.DistanceIsShortest | src/notify/template.go:275-276 | the distance is the length of a shortest sequence of edits |
| EditDistance.ClosestVariable | src/notify/template.go:259-273 | in whatever order the names come: if some allowed name is at distance at most 3, an allowed name of least distance; otherwise nothing |
| Cron.ParseField | src/scheduler/cron.go:89-110 | a star, a positive step or a list of values within the range; anything else is the error of the first bad part |
| Cron.ParsedIsOK | src/scheduler/cron.go:60-86 | a parsed expression has five fields, each admitting some value of its range and none outside it in a list |
| Cron.Next | src/scheduler/cron.go:120-135 | the least minute after the given instant and before the deadline that all five fields match, and an error if and only if there is none |
| Cron.NextRunIff | src/scheduler/cron.go:112-135 | any schedule has a next run if and only if its date fields admit a day that lies wholly in the lookahead, or a first or last day of it at an admitted time that does |
| Cron.CalendarRunsIff | src/scheduler/cron.go:112-135 | without a day-of-week restriction, that is: it admits a date that every year has, or 29 February and the lookahead skips no century year |
| Cron.FiresOnLeapDayIff | src/scheduler/cron.go:112-135 | a schedule that admits 29 February fires on one in the lookahead if and only if that does not lie between two of them about a common century year; on the two days at the edge the admitted times decide |
| Cron.MissesIff | src/scheduler/cron.go:112-135 | without a day-of-week restriction, the search misses a date that does exist if and only if that is 29 February alone and a century year is skipped |
| Cron.LeapDayScheduleIsSkipped | src/scheduler/cron.go:112-135 | a schedule for 29 February only has no next run from 1 March four years before a common century year to 24 February of it |
| Cron.MondayNewYearIsMissed | src/scheduler/cron.go:112-135 | a schedule for a 1 January that is a Monday has no next run all through 2 January to 28 December 2024, and yet fires in 2029 |
| Cron.MonthlySchedulesRun | src/scheduler/cron.go:112-148 | without a restriction on the month there is always a next run, whatever days of the month and of the week are asked for, Sunday written as 0 or as 7 |
| Cron.ImpossibleDatesNeverRun | src/scheduler/cron.go:112-135 | a schedule that admits only days its months never have has no next run |
| CronText.FieldReads | src/scheduler/cron.go:89-110 | a star, a step or a list of numbers, written with any digits, is read as what it says |
| CronText.ExpressionReads | src/scheduler/cron.go:60-86 | five such fields within their ranges, with any white space around them, parse to the schedule they say |
| CronText.NextOfExpression | src/scheduler/cron.go:60-135 | the next run of a written expression is the first start of a minute within the lookahead at which every field names its part: a step every so many values from the least on, a list its values, 0 and 7 Sunday |
| CronText.StepIsList | src/scheduler/cron.go:97-110 | a step in the minute field and the list of its values have the same next run from every instant |
| CronText.EveryNMinutes | src/scheduler/cron.go:97-135 | `*/n * * * *`, for an n that divides the hour, runs next at the first multiple of n minutes after the instant |
| ClusterLocks.LockTable.AcquireLock | src/scheduler/lock.go:24-45 | the statement succeeds if and only if the row is free, the holder's own, without expiry or past it, and then names the holder |
| ClusterLocks.LockTable.ReleaseLock | src/scheduler/lock.go:50-54 | deletes the row if it names the holder, and otherwise nothing |
| Scheduler.TaskTable.Register | src/scheduler/scheduler.go:86-95 | stores one entry, enabled as told, due at once and not running; a schedule that did not parse changes nothing |
| Scheduler.TaskTable.Tick | src/scheduler/scheduler.go:195-215 | marks as running, and returns, exactly the entries that are enabled, not running and whose time has come, and changes nothing else |
| Scheduler.TaskTable.Finish | src/scheduler/scheduler.go:221-230 | frees the task; the next run is the schedule's first after the run that set it, or the old one if there is none, which leaves the task due at every later tick |
| Scheduler.TaskTable.ResumeNext | src/scheduler/scheduler.go:151-159 | a persisted time within the catch-up window is kept, and otherwise it is the schedule's first run after now, or an error if and only if there is none |
| ClusterRuns.NextInv | src/scheduler/scheduler.go:195-245 | the cluster invariant survives every step of every interleaving, crashes and failed statements included |
| ClusterRuns.HolderIsNamed | src/scheduler/scheduler.go:217-245 | in every run of the cluster: while a node executes a cluster-aware task and its 5 minutes are not over, the lock row names that node |
| ClusterRuns.OverlapNeedsALateRun | src/scheduler/scheduler.go:217-245 | two runs execute one cluster-aware task at once only if one of them has outlived its lock |
| ClusterRuns.SpawnedWasDue | src/scheduler/scheduler.go:195-215 | a new run belongs to a task that was enabled, not running and due in the tick that made it |
| ClusterRuns.DisabledNeverRuns | src/scheduler/scheduler.go:195-215 | in every run of the cluster, a task that is disabled at first and after every restart never has a run on that node |
| ClusterRuns.CanBeJoinedIff | src/scheduler/scheduler.go:217-245 | from every reachable state: another node on which the task is due can come to execute it at this moment, beside the run that does, if and only if that run has outlived its lock |
| ClusterRuns.OneRunPerNode | src/scheduler/scheduler.go:195-245 | a node never has two runs of one task, and every run has its `running` flag set |
| ClusterRuns.CanTakeIffLate | src/scheduler/lock.go:24-45 | another node's statement takes the lock of an executing run if and only if the run has outlived it |
| ClusterRuns.RowChangesAreOwnOrLate | src/scheduler/lock.go:24-54 | a row changes only by its own holder or by a takeover after it ran out; no release removes another holder's row |
| ClusterRuns.ReleaseRespectsOthers | src/scheduler/lock.go:50-54 | a release leaves the row of another holder as it is, whatever its age |
| ClusterRuns.LateRunCanBeJoined | src/config/defaults.go:478-479 | a task that waits an hour for its retry outlives the lock, and then another node runs it at the same time |
| Secrets.SecretStore.GetSecret | src/database/secret.go:41-64 | the row with the highest version of the name, or not found if and only if there is none |
| Secrets.SecretStore.EnsureSecret | src/database/secret.go:87-117 | undisturbed: an existing secret is returned and nothing written, otherwise the generated value becomes version 1; an empty or failed generation writes nothing |
| Secrets.SecretStore.RotateSecret | src/database/secret.go:138-174 | the next version is added and only the row it replaces gets an expiry, both or neither |
| Secrets.SecretStore.PruneSecrets | src/database/secret.go:184-197 | deletes exactly the superseded rows whose expiry has passed, and counts them |
| SecretRaces.NextInv | src/database/secret.go:41-197 | every step of any number of nodes keeps the table invariant: only a current row or a version 1 is without expiry |
| SecretRaces.NamesAreKept | src/database/secret.go:41-197 | in every interleaving a stored name stays stored, its highest version never decreases, and the row of a version does not change while it is current |
| SecretRaces.RereadFinds | src/database/secret.go:107-116 | the read after the insert always finds the name |
| SecretRaces.ResultWasCurrent | src/database/secret.go:87-117 | every finished call returns the row that was current at one of its two reads |
| SecretRaces.AllCallsAgree | src/database/secret.go:66-117 | without rotation all calls for a name return one identical value and version, whoever's candidate was stored |
| SecretRaces.DatedRowStays | src/database/secret.go:119-197 | a row with an expiry stays as it is until a pruning whose time is after it |
| SecretRaces.RotatedOutRowStays | src/database/secret.go:119-197 | so a rotated-out value can be read until its grace window has closed |
| SecretRaces.StepKeepsDatedIff | src/database/secret.go:119-124 | a step leaves every superseded row with an expiry if and only if it is not the insert of a stored name whose version 1 is gone |
| SecretRaces.AlwaysDatedIff | src/database/secret.go:119-124 | so every superseded row has an expiry throughout a run if and only if no call ever makes such an insert |
| SecretRaces.StrandedForever | src/database/secret.go:176-197 | a superseded version 1 without expiry is never dated or deleted by any later step |
| SecretRaces.LateInsertStrandsARow | src/database/secret.go:87-117 | such a row is reachable: a slow call inserts its version 1 again after rotation and pruning |
| Ulid.EncodingOrder | src/logging/ulid.go:55-138 | identifiers sort as their times and, within a millisecond, as their entropy; equal texts mean equal time and entropy |
| Ulid.AlphabetIs | src/logging/ulid.go:11-13 | the alphabet is the digits and the capital letters but I, L, O and U, in ascending order |
| Ulid.ReadIff | src/logging/ulid.go:140-152 | a character is read as a value if and only if it is that symbol of the alphabet or its small letter |
| Ulid.IncrementEntropy | src/logging/ulid.go:111-119 | adds one to the big-endian number in place, with carry, and reports if and only if it did not wrap |
| Ulid.TakeFive | src/logging/ulid.go:131-134 | the inner loop takes the next five bits, most significant first |
| Ulid.EncodeTime | src/logging/ulid.go:125-128 | the first loop writes the ten base-32 digits of the time |
| Ulid.EncodeEntropy | src/logging/ulid.go:129-136 | the second loop writes the sixteen base-32 digits of the 80-bit number that the ten bytes spell |
| Ulid.EncodeULID | src/logging/ulid.go:123-138 | together, the 26 digits of time and entropy |
| Ulid.ParseULIDTime | src/logging/ulid.go:79-100 | accepts exactly 26 Crockford characters whose first ten are below 2^48, and returns that number |
| Ulid.ParsedIsEncoded | src/logging/ulid.go:79-100 | a text reads as a time if and only if, in upper case, it is the encoding of that time with some entropy |
| Ulid.TimeReadsBack | src/logging/ulid.go:79-138 | the time of every encoding reads back |
| Ulid.Generator.NewULIDAt | src/logging/ulid.go:55-75 | within a millisecond the entropy grows by one unless it wraps; otherwise it is drawn anew; the identifier encodes what is remembered |
| Ulid.SuccessorOrder | src/logging/ulid.go:46-75 | an identifier sorts after its predecessor if and only if its millisecond is later, or the same with entropy below the maximum |
| Ulid.RunAscendsIff | src/logging/ulid.go:46-75 | all identifiers of a run ascend if and only if every step does; with a clock that does not go back, if and only if no step stays in its millisecond at the maximal entropy |
| Ulid.RunAscends | src/logging/ulid.go:46-75 | so they do with draws that leave room for the run |
| Hkdf.HkdfExtract | src/security/secret.go:142-149 | the extract step of RFC 5869, with 32 zero bytes for an empty salt |
| Hkdf.HkdfExpand | src/security/secret.go:153-165 | for up to 8160 bytes the loop returns the first bytes of T(1), T(2) and so on of RFC 5869, section 2.3; no round sees a wrapped counter |
| Hkdf.Derive | src/security/secret.go:132-138 | succeeds if and only if the length is between 1 and 8160, and returns the output of RFC 5869 |
| Hkdf.FirstBlocks | src/security/secret.go:142-165 | the first two blocks written out as in section 2.3 of RFC 5869, with 32 zero octets for the empty salt |
| Hkdf.ShorterIsPrefix | src/security/secret.go:132-165 | a shorter derivation for the same purpose is a prefix of a longer one |
| Hkdf.OctetOfBlock | src/security/secret.go:153-165 | each byte is the byte of exactly one block, whatever the length asked for |
| Shell.ShellQuote | src/service/escalation.go:137-146 | the loop wraps the text in quotes and replaces each single quote |
| Shell.ShellJoin | src/service/escalation.go:124-134 | the loop joins the quoted arguments with single blanks |
| Shell.JoinReadsBack | src/service/escalation.go:122-146 | splitting the command by the POSIX quoting rules gives back exactly the arguments, for every list of arguments |
| Shell.JoinInjective | src/service/escalation.go:122-146 | different lists of arguments never give the same command |
| Shell.JoinedArgumentsStayApart | src/service/escalation.go:122-146 | whatever follows the joined arguments is read as if they were not there |
| Retention.TierPrune | src/backup/retention.go:121-134 | keeps the newest files up to the limit and hands on the others, however the sort orders ties |
| Retention.PruneTiers | src/backup/retention.go:85-110 | every tier holds its newest files up to its limit, none older than one it gives up; incrementals are in neither list |
| Retention.SizeCapPrune | src/backup/retention.go:139-161 | nothing if the 64-bit total is within the cap; otherwise, in date order, exactly the files before the first place from which on the 64-bit total is within it |
| Retention.StepUnderflowsIff | src/backup/retention.go:151-159 | the running subtraction underflows at a step if and only if the true totals before and after it lie on two sides of a multiple of 2^64 |
| Retention.NoStepUnderflows | src/backup/retention.go:139-161 | it never does if the held files fit 64 bits together, whatever their order |
| Retention.LargeFilesUnderflow | src/backup/retention.go:139-159 | three files of the largest size: the first step subtracts more than the wrapped total |
| Retention.SelectForDeletion | src/backup/retention.go:84-117 | what is returned is the count victims of the four tiers and the cap victims, with the limits the policy sets |
| Retention.TierCounts | src/backup/retention.go:72-134 | each tier keeps as many files as its own field says, or all it has: weekly, monthly and yearly not below 0, daily not below 1; without a cap nothing else goes |
| Retention.TierKeepsNewest | src/backup/retention.go:119-134 | of one tier no file is kept that is older than one given up |
| Retention.OnlyItsOwnField | src/backup/retention.go:84-110 | a policy that differs in other fields gives up as many files of the tier, and other ones only within one date |
| Retention.EveryFileOnce | src/backup/retention.go:72-117 | every file is kept or deleted, exactly as often as it was given; incrementals are neither |
| Retention.CapKeptIff | src/backup/retention.go:136-161 | what the cap leaves is truly within it if and only if no run of newest held files has a true total of at least 2^64 that wraps to one within the cap |
| Retention.CapKeptForAllOrdersIff | src/backup/retention.go:136-161 | whatever the sort does with files of one date, the cap is kept if and only if this holds of every date order |
| Retention.SurvivorsWithinCap | src/backup/retention.go:80-117 | the same for the survivors of a whole sweep; it always holds if all given files fit 64 bits together |
| Retention.NoVictimTooMany | src/backup/retention.go:136-161 | no cap victim is newer than a survivor, and after any shorter list of oldest victims the files would exceed the cap |
| Retention.WrappedTotalKeepsTooMuch | src/backup/retention.go:139-146 | three files of the largest size wrap around and are kept above the cap |
| Retention.SecondSweepDeletesNothing | src/backup/retention.go:72-117 | a second sweep over what a sweep left deletes nothing |
| BackupNames.FullReadsBack | src/backup/filename.go:24-26 | a full name of the years 1 to 9999 reads back as its day with that day's tier: a first of January, the first of another month, another Sunday, or any other day |
| BackupNames.ManualReadsBack | src/backup/filename.go:31-33 | a manual name reads back as its second with that day's tier |
| BackupNames.IncrementalReadsBack | src/backup/filename.go:35-45 | both incremental names read back as incrementals |
| BackupNames.FullIsCanonical | src/backup/filename.go:101-110 | a name of the full shape with a real date is the name that date's backup is stored under |
| BackupNames.NamesLookLike | src/backup/filename.go:23-45 | the four names of one moment, letter by letter |
| BackupNames.NoDateFallsBack | src/backup/filename.go:112-125 | an accepted name without a date is dated and put into a tier by its modification time |
| BackupNames.BadDateFallsBack | src/backup/filename.go:86-92 | so is one whose date does not exist |
| BackupNames.AcceptedIffGeneric | src/backup/filename.go:83-125 | a name is accepted if and only if the generic pattern matches: the project, then `_backup_` or a hyphen, no white space, a known extension |
| BackupNames.OtherProjectsAcceptedIff | src/backup/filename.go:72-92 | a full, manual or incremental backup of any other project is accepted if and only if its name starts with this project and a separator, with no white space from there to the extension |
| BackupNames.SiblingProjectIsAccepted | src/backup/filename.go:72-92 | so are the backups of a project whose name continues this one's after a hyphen or after `_backup_` |
| BackupNames.CutDateIsAccepted | src/backup/filename.go:72-92 | and those of a project whose name, with `_backup_` and a year, is this one's |
| MemoryCache.Cache.Get | src/cache/memory.go:75-85 | the value of the entry unless it is missing or past its expiry |
| MemoryCache.Cache.Set | src/cache/memory.go:92-108 | the entry is replaced, with an expiry if and only if the ttl is positive |
| MemoryCache.Cache.SetNX | src/cache/memory.go:134-142 | stores if and only if the key has no live value |
| MemoryCache.Cache.Delete | src/cache/memory.go:111-118 | removes exactly the given keys |
| MemoryCache.Cache.DeletePrefix | src/cache/memory.go:121-130 | removes exactly the keys with the prefix |
| MemoryCache.Cache.Sweep | src/cache/memory.go:60-68 | removes exactly the expired entries |
| MemoryCache.GetReadsHistory | src/cache/memory.go:21-142 | for every history of calls, reading at a time no sweep was after returns the last stored, undeleted, unexpired value |
| MemoryCache.SetNXStoresWhenNotLive | src/cache/memory.go:134-142 | a conditional write stores if and only if the history leaves no live value, and a read then sees the right one |
| MemoryCache.StoredForItsTtl | src/cache/memory.go:87-108 | a stored value reads back for exactly its ttl, for ever without one, and other keys read as before |
| MemoryCache.SweepIsVisible | src/cache/memory.go:60-68 | a read can tell that a sweep happened if and only if its clock stands before the sweep's and the entry had not expired for it |
| Locker.Lock.Acquire | src/cache/lock.go:22-24 | wins if and only if nobody's claim is live |
| Locker.Lock.Release | src/cache/lock.go:32-42 | undisturbed, deletes the key if and only if it holds this node's live claim |
| Locker.NextInv | src/cache/lock.go:22-61 | every step of every interleaving keeps the claims of all holders in the cache and one holder per lock, as long as releases delete within their claim |
| Locker.SectionsExclude | src/cache/lock.go:44-61 | then two sections of one lock run at once only if one has outlived its ttl |
| Locker.DropKeepsInvariantIff | src/cache/lock.go:32-42 | a deletion breaks this if and only if another process holds the lock at that moment |
| Locker.AlwaysOneHolderIff | src/cache/lock.go:22-61 | in every run each lock always has one holder at most, with its claim in the cache, if and only if no deletion ever finds another holder |
| Locker.GuardIff | src/cache/lock.go:32-42 | a deletion that finds nothing live, or its own claim with its own expiry, takes the lock from nobody, and no weaker test of what the process can see ensures that |
| Locker.GuardedReleasesAreSafe | src/cache/lock.go:32-42 | releases that make this test at the moment of the deletion keep one holder per lock in every run |
| Locker.LateDeleteLetsTwoIn | src/cache/lock.go:32-42 | a claim that runs out between the read and the deletion of its release lets two others run at once, both within their ttl |
| ClusterNodes.PrimaryNodeAt | src/database/cluster.go:263-276 | the scan returns the healthy node with the lowest id, and nothing if and only if none is healthy |
| ClusterNodes.StateIff | src/database/cluster.go:16-28 | a node without a mark is healthy for less than 90 seconds after its last heartbeat and offline from 5 minutes on; marks win |
| ClusterNodes.OrderDoesNotMatter | src/database/cluster.go:232-276 | nodes that hold the same rows in any order elect the same primary |
| ClusterNodes.PrimaryChanges | src/database/cluster.go:232-276 | from one reading to any later one the primary changes if and only if it is no longer healthy or a lower id has become healthy |
| ClusterNodes.NoPreemptionWithoutWrites | src/database/cluster.go:232-276 | on an unchanged table a primary stays primary exactly as long as it is healthy |
| ClusterNodes.LowerIdTakesOver | src/database/cluster.go:236-240 | a lower id that heartbeats takes the role from a healthy primary |
| ClusterNodes.OnlyAges | src/database/cluster.go:109-137 | without writes a node only goes from healthy over degraded to offline, and marks stay |
| ClusterNodes.HealthyNodes | src/database/cluster.go:279-287 | the nodes that are healthy, in order |
| ClusterNodes.HasQuorum | src/database/cluster.go:299-316 | true if and only if more than half of the nodes that are not removed are healthy |
| ClusterNodes.FilteredNodes | src/database/cluster.go:279-316 | both counts run over exactly the nodes they are for, each once |
| ClusterNodes.QuorumsOverlap | src/database/cluster.go:289-316 | two views with the same members cannot both have a quorum without a node healthy in both |
| ClusterNodes.LostQuorumStaysLost | src/database/cluster.go:109-316 | on an unchanged table a lost quorum is not regained |
| ClusterNodes.QuorumDiffersIff | src/database/cluster.go:23-25 | the count and the documented quorum without offline nodes differ if and only if members without the offline ones < 2 * healthy <= members; the code is never the more generous |
| ClusterNodes.QuorumAgreesWithoutOffline | src/database/cluster.go:23-25 | they agree on every table without an offline node |
| ClusterNodes.OfflineNodesCount | src/database/cluster.go:23-25 | with one healthy and one offline node the documented quorum holds and the code's does not |
| ClusterNodes.NodeTable.Heartbeat | src/database/cluster.go:149-186 | a node's row is inserted with its first state, and afterwards refreshed without touching the state |
| ClusterNodes.NodeTable.MarkNodeState | src/database/cluster.go:323-334 | changes the stored state of an existing row and nothing else |
| ClusterNodes.NodeTable.PruneNodes | src/database/cluster.go:349-360 | deletes exactly the rows last seen before the cutoff |
| ClusterNodes.RemovedStepIff | src/database/cluster.go:139-148 | a write takes the removed mark off a row if and only if it marks that node with another state or prunes past its last heartbeat |
| ClusterNodes.RemovedStaysRemovedIff | src/database/cluster.go:139-148 | a removed node stays removed through a sequence of writes if and only if none of them is such a write at its turn |
| ClusterNodes.PrunedNodeRejoins | src/database/cluster.go:41-45 | once its row is pruned, a removed node rejoins with its next heartbeat |
| LogNames.StampReadsBack | src/logging/writer.go:305-319 | a stamp of the years 1 to 9999 reads back as its second |
| LogNames.NameLooksLike | src/logging/writer.go:239-243 | the rotated name of one moment, letter by letter |
| LogNames.NameReadsBack | src/logging/writer.go:305-319 | the stamp is recovered from every rotated name, plain or compressed, for every extension |
| LogNames.StampsSortByTime | src/logging/rotate.go:12-15 | stamps sort as the seconds they stand for |
| LogFile.RotatedPath | src/logging/writer.go:239-247 | the search ends, at the first second from the stamp on whose name is free in both forms |
| LogFile.OrderedStep | src/logging/writer.go:207-247 | if nothing is pruned and the clock does not go back, rotations keep stamps in the order in which they were made, later than those of all other siblings |
| LogFile.SortedIsArchive | src/logging/writer.go:235-303 | then the listing in the order of its stamps ends with all rotations in the order in which they were written |
| LogFile.Log.ReadsAsWritten | src/logging/writer.go:95-303 | so the rotated files sorted by stamp, followed by the live file, are everything written, in order, when no stranger's file lies beside them |
| LogFile.RotatedFiles | src/logging/writer.go:276-303 | lists exactly the siblings whose names carry a stamp, each once |
| LogFile.Log.Write | src/logging/writer.go:95-114 | the record lands whole in one file after all earlier ones; after it the file is within the limit or the record is its only content; a rotation happens if and only if the policy calls for one; stamps keep the order of the records while nothing is pruned |
| LogFile.Log.RotateLocked | src/logging/writer.go:207-233 | everything written so far is kept in order, the live file starts empty, and only victims of the retention policy leave the directory |
| LogFile.Log.MoveAside | src/logging/writer.go:215-231 | the live records move under the free name, compressed or not, and no other file changes |
| LogFile.Log.Prune | src/logging/writer.go:258-270 | removes exactly the files the policy selects from the listing |
| LogFile.LiveIsNotListed | src/logging/writer.go:276-303 | the live file is never listed as a rotated one |
| LogFile.NameIsFreshAndListed | src/logging/writer.go:235-303 | a rotated name is new to the directory, and the listing recovers its stamp |
| LogFile.LatestIff | src/logging/writer.go:235-247 | the chosen stamp is later than all present ones if and only if every second from the clock to the latest of them is taken |
| LogFile.RotationSurvivesIff | src/logging/writer.go:207-270 | under a count policy a rotation keeps its own file if and only if fewer files than the count come before it |
| LogFile.ThirdRotationIsLost | src/logging/writer.go:235-270 | with a count of one, the third rotation within one second deletes the file it has just made and keeps the one before |
| LogRetention.RotatesAtBoundaries | src/logging/rotate.go:88-125 | a time policy rotates if and only if a midnight that begins a day, ISO week, month or year has passed since the file was opened |
| LogRetention.WeeksBeginOnMondays | src/logging/rotate.go:100-125 | the weekly boundary is the midnight that begins a Monday |
| LogRetention.WordsIff | src/logging/rotate.go:147-165 | the words for keeping everything and nothing are read in any case and between any white space, and no other text but the empty one means that |
| LogRetention.CountPrefersNewer | src/logging/rotate.go:150-158 | a count keeps no file older than a victim, and of one second the later names |
| LogRetention.NumbersRead | src/logging/rotate.go:147-209 | a number keeps that many files, and with a unit in either case files of that many days, weeks or 30-day months |
| LogRetention.PruneList | src/logging/rotate.go:147-185 | each policy divides the files as it says: all, none, those before the cutoff, or all but the newest |
| LogRetention.AgeIsExactWithinRange | src/logging/rotate.go:166-175 | the cutoff is the stated age before now if and only if the age fits a 64-bit duration, and never earlier |
| LogRetention.AgeVictimsIff | src/logging/rotate.go:166-175 | the victims are exactly the files older than the age if and only if it does, or no file lies between the two cutoffs |
| LogRetention.LongAgeDeletesEverything | src/logging/rotate.go:138-146 | an age of 106752 days overflows and deletes every file |
| LogRetention.CountKeepsTheNewest | src/logging/rotate.go:177-182 | a count of N keeps a file if and only if fewer than N files come before it, newest first |

## Left out

- SQL, drivers, transactions and timeouts: a statement or a committed transaction is one
  atomic step on a map. Reads that fail for other reasons than a missing row are a call
  that makes no further step.
- Text timestamps of tables are integers, which is their order up to the year 9999. The
  lock table compares the raw times it binds.
- Time zones and daylight saving: schedules, periods and stamps are in UTC. ISO weeks are
  numbered through instead of by year.
- Schedule descriptors such as `@every 15m` and `@daily`: the model starts from an interval
  or five fields. Time durations are unbounded integers except in the age policies of logs.
- Number literals: whether a text is a number is a parameter, and a number token keeps its
  text instead of a floating-point value.
- Characters are Unicode scalar values. Bytes that are not valid UTF-8, which Go replaces
  while iterating, are not modelled. Escapes that name a surrogate decode to the
  replacement character as in Go.
- Error texts are constructors of a datatype that carry what the text mentions.
- GraphQL schemas, resolver functions, `Execute` and its partial results.
- Randomness and HMAC-SHA256: byte inputs, and a function of which only the output length
  is known. No secrecy is claimed.
- Files, directories, gzip and permissions: a directory is a map from names to records and
  every file operation succeeds. `Reopen`, failed renames and the modification time of a
  live file found at start are not modelled.
- Of the cache: defensive copies are values, `Close` and the janitor's timer are left out,
  and nothing but the lock itself writes or deletes lock keys.
- Reading configuration: rotation policies arrive parsed, and the retention cap arrives in
  bytes.
- History rows, metrics and logging of the scheduler; history and columns of the tables
  that no decision reads, such as addresses and version fields of a node.
- LogFile.RotatedPath: requires that the search cannot pass the year 9999, where stamps get
  longer than the layout.
- BackupNames.FullReadsBack: for the years 1 to 9999; later years have more than the four
  digits that the pattern accepts.
- Hkdf.HkdfExpand: for lengths within the limit that the source asks of its callers.
- ClusterNodes.PrimaryNodeAt: with equal ids, which the table's key excludes, it does not
  say which of them is returned.
