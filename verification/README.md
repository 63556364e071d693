# Verified model of the TTA Hub's stateful and set-theoretic core

A Dafny model of the parts of the TTA Hub whose correctness is a statement about every run or every input, with proofs
of those statements. Each module follows one source file or one concern of it; state that the source changes in place
is a class, and every method is proved against a function or predicate whose properties are then proved as lemmas.

| area | modules | what is proved |
|---|---|---|
| audit log as an undo log | `AuditLog`, `AuditUndo`, `AuditOrder`, `AuditRollback`, `AuditWitnesses`, `AuditCompleteness`, `AuditDatabase` | a rollback inverts every run of writes on the non-filtered columns, is exact iff a stated condition on log and rows holds, and composes with other rollbacks; a negative `hasModifiedData` is sound |
| concurrency | `Semaphore`, `RedisLease`, `LockProtocol` | FIFO hand-over and the concurrency bound in every run; mutual exclusion of any number of lock managers in every timely interleaving iff the allowed delay keeps renewals before the expiry |
| filters in query strings | `Sequences`, `Text`, `UriCodec`, `OrderedMap`, `QueryFilters`, `FilterRoundTrip`, `FilterCanonical`, `FilterSpelling`, `FilterExpansion` | percent-encoding (section 2.1 of RFC 3986) round trip over UTF-8 bytes; a filter list survives printing and parsing iff it is canonical; what is printed and read letter by letter |
| baseline comparison | `Semgrep`, `SemgrepGate`, `Reconcile`, `Pagination` | numbering turns set operations into multiset operations; reconciliation is a partition; pagination terminates and detects cycles |
| goals | `Sums`, `Grouping`, `Citations`, `ReduceGoals`, `RecipientGoals`, `BulkClose` | reducers partition and conserve; citation merging is a homomorphism; deletions keep referential integrity; bulk close is consistent |
| groups and ranges | `GrantReplacement`, `RegionSync`, `GroupGrants`, `Ranges` | exact membership after replacements and after the region sync, fixed point of the sync; range compression is the unique maximal one |

## Assumptions

- Audit: no statement changes an `id`; of the log entries of one row since the snapshot, those that their timestamps do
  not keep in order commute, as an insert and an update do, or updates of different columns (`PerRowOrdered`); "id" heads
  the jsonb key order of every table (`IdFirst`). Ties between rows and tables, and the order in which the log queries
  answer, are arbitrary.
- Lock: an interval is served at most `delay` after it is due, with floor(ttl/2) + delay < ttl, and the first renewal,
  the renewal that starts a hold and the final DEL reach the server before the key expires (`TimelyRun`).
- Filters: a date in the format YYYY/MM/DD is made of digits and slashes and is its own rewriting, and every rewritten date
  is in that format (`DayLaws`).
- sha256 and JSON.stringify are injective.

## What the code does that its names and comments do not say

- `revertChange` re-inserts a deleted row with the values listed id first but the columns in jsonb key order.
  `AuditUndo.ReplayedRowExact` gives the exact rows that survive this; with "id" first, all do, and
  `AuditWitnesses.ShortNamesSwapValues` shows a row that does not.
- A snapshot taken with `includeDDL` cannot be rolled back to: ZALDDL has no `dml_timestamp` to order by.
- Updates of one row in one transaction share a timestamp; `AuditRollback.TiedUpdatesMisorder` says exactly when
  undoing two of them in the other order still restores the row, `AuditWitnesses.TiedUpdatesLoseTheStart` when not.
- Updates of filtered columns alone are not logged. `AuditRollback.RollbackInvertsAnyRun` says exactly when a rollback
  restores everything all the same, `AuditRollback.RollbackExactIffHarmless` which statements never do harm, and
  `AuditWitnesses.FilteredUpdateIsLost` shows one that does.
- The underscore in `NOT LIKE 'pg_temp.%'` is a wildcard, and a command without an object identity never counts.
- A failed renewal deletes the key of whoever holds it now; `LockProtocol.UntimelyRunBreaks` lets three instances in. With
  a delay that reaches the expiry a timely run lets two in (`LockProtocol.SafeIffServedBeforeExpiry`).
- Each release that comes from no holder raises the semaphore's bound by one: never more (`Semaphore.MutualExclusion`),
  and the raised bound is reached (`Semaphore.BoundIsReached`, `Semaphore.ExcessIsReached`).
- "where I'm the" and "where I'm not the" are printed with the codes of "is" and "is not" and read back as those, so they
  are not canonical (`FilterCanonical.RoundTripIffCanonical`).
- One text in an "is within" array that is no range of dates drops the whole filter, while `expandFilters` drops that text
  only (`FilterSpelling.DatesAllOrNone`, `FilterExpansion.EvenIsNeeded`).
- Of an array filter whose texts hold commas, the first text is read back as one nested array and the later ones as their
  pieces (`FilterSpelling.ArrayReads`).
- Monitoring references are compared by a text joined with vertical bars, so texts that hold bars can collide
  (`Citations.SameReferenceIff`, `Citations.BarsCollide`).
- `reduceObjectives` drops the activity reports of an objective's first occurrence (`ReduceGoals.RtrReduced`).
- `removeRemovedRecipientsGoals` can leave an objective without its goal; `RecipientGoals.ObjectivesKeepGoalsIff` says when,
  `RecipientGoals.ObjectiveLeftBehind` shows one.
- A bulk close whose transition is refused has already completed the approved objectives
  (`BulkClose.RefusalWritesNothingIff`, `BulkClose.RefusalWrites`).
- The replacement loop can insert a membership that an unaffected row holds already
  (`GrantReplacement.NoPairTwiceIff`, `GrantReplacement.ReplacementDuplicates`), and it follows replacement chains one
  link at a time (`GrantReplacement.SecondRunIdleIff`, `GrantReplacement.ReplacementChains`).
- The region sync serves only the last group of each region name, and keeps a member whose status is null as long as its
  region fits.
- `groupIntoRanges` agrees with `createRanges` only on lists without repeated numbers (`Ranges.AgreeIffNoRepeats`,
  `Ranges.RepeatsSplit`).
- A disposition of the release inventory is looked up under its component name as written, while identities have the
  environment substituted.

## Model

| member | source | states |
|---|---|---|
| `AuditLog.ExecShape` | src/migrations/20220115000000-audit-system.js:567-700 | a statement writes at most one row through the trigger and otherwise leaves rows and logs alone; log ids only grow |
| `AuditLog.ExecValid` | src/migrations/20220115000000-audit-system.js:567-700 | every statement keeps rows shaped by the schema, entries in their own table's log, and log ids within the sequence |
| `AuditLog.TriggerFits` | src/migrations/20220115000000-audit-system.js:591-690 | whatever the trigger logs describes a change the schema allows |
| `AuditLog.TriggerDescribes` | src/migrations/20220115000000-audit-system.js:591-690 | inserts and deletes are always logged, updates iff a differing column has no filter row for the table or for all tables; and what each entry holds |
| `AuditLog.DescribesOne` | src/migrations/20220115000000-audit-system.js:591-690 | what an entry for a row change must hold leaves one possible entry |
| `AuditLog.StatementEffect` | src/migrations/20220115000000-audit-system.js:567-700 | when each statement fails, and what it makes of every row when it does not |
| `AuditDatabase.AuditedDatabase.RowTrigger` | src/migrations/20220115000000-audit-system.js:591-690 | appends exactly one entry under the next log id: all of a new row, all of a deleted one, or the old and new values of exactly the columns that differ; nothing iff every differing column is filtered |
| `AuditDatabase.AuditedDatabase.Append` | src/migrations/20220115000000-audit-system.js:592-614 | one more entry under the next sequence value, every other log untouched |
| `AuditDatabase.AuditedDatabase.WriteRow` | src/migrations/20220115000000-audit-system.js:710-730 | one row replaced, added or removed, and the trigger run after it |
| `AuditDatabase.AuditedDatabase.Execute` | src/migrations/20220115000000-audit-system.js:567-700 | a statement has exactly the effect of the value-level statement, and an error leaves the database unchanged |
| `AuditDatabase.AuditedDatabase.CaptureSnapshot` | src/lib/programmaticTransaction.ts:16-59 | the snapshot lists every audited table once with its last log id, and the DDL log iff asked for |
| `AuditDatabase.AuditedDatabase.FetchAndAggregateChanges` | src/lib/programmaticTransaction.ts:73-99 | joins the answers and sorts them by falling millisecond, keeping the joined order within one (the library sort is the function `SortDesc`); an error for a snapshot that includes the DDL log |
| `AuditDatabase.AuditedDatabase.RevertChange` | src/lib/programmaticTransaction.ts:101-192 | undoes the list front to back as logged statements; at the first failure it stops with the effect of those before |
| `AuditDatabase.AuditedDatabase.RollbackToSnapshot` | src/lib/programmaticTransaction.ts:195-211 | outside production the rollback succeeds and restores the start off the filters, and all of it iff the log or the rows still hold the filtered columns' values from the start; a refusal changes nothing |
| `AuditDatabase.AuditedDatabase.HasModifiedData` | src/lib/programmaticTransaction.ts:216-284 | throws without a transaction id or a snapshot entry, else answers whether the transaction left an entry newer than the snapshot |
| `AuditDatabase.AuditedDatabase.FindMax` | src/lib/programmaticTransaction.ts:265-269 | finds the snapshot entry of a table iff there is one |
| `AuditUndo.Write1History` | src/migrations/20220115000000-audit-system.js:591-690 | a row's history since the snapshot grows by exactly what the trigger logs for that row |
| `AuditUndo.LoggedStepUndone` | src/lib/programmaticTransaction.ts:133-182 | undoing a logged change gives back the row; an unlogged change touched filtered columns only |
| `AuditUndo.RunInvariant` | src/lib/programmaticTransaction.ts:73-192 | in every run, undoing a row's history newest first is possible and restores its non-filtered columns |
| `AuditUndo.FetchHistory` | src/lib/programmaticTransaction.ts:73-99 | however ties and tables are ordered, each row's part of the change list is its history by falling timestamp |
| `AuditUndo.SortIsStable` | src/lib/programmaticTransaction.ts:93-96 | the sort loses nothing, orders by falling millisecond and keeps the input order within one |
| `AuditUndo.FlattenSplits` | src/lib/programmaticTransaction.ts:74-91 | the answers are joined in the order of the queries |
| `AuditUndo.ReplayedColumn` | src/lib/programmaticTransaction.ts:145-162 | which value each column of a re-inserted row receives |
| `AuditUndo.ReplayedRowExact` | src/lib/programmaticTransaction.ts:145-162 | a re-insert restores the row iff every column ahead of "id" holds the id |
| `AuditUndo.UndoStatement` | src/lib/programmaticTransaction.ts:133-182 | one undo statement succeeds, changes its own row back and no other |
| `AuditUndo.ReplayRows` | src/lib/programmaticTransaction.ts:101-192 | undos of different rows commute: the replay succeeds and each row ends as its own entries say |
| `AuditOrder.MoveForward` | src/lib/programmaticTransaction.ts:101-192 | a change is undone alike before or after the changes it commutes with |
| `AuditOrder.AnyOrderUndoes` | src/lib/programmaticTransaction.ts:93-96 | every listing by falling timestamp undoes a row like its true order, if what gets out of order commutes |
| `AuditOrder.ListedUndoes` | src/lib/programmaticTransaction.ts:93-192 | so a history is undone by whatever listing the queries and the sort produce |
| `AuditRollback.RollbackUndoesHistories` | src/lib/programmaticTransaction.ts:195-211 | for every start, run, query order and clock, the rollback succeeds and each row ends as undoing its own history |
| `AuditRollback.RollbackInvertsAnyRun` | src/lib/programmaticTransaction.ts:73-192 | the rollback gives back the start on all non-filtered columns, and all of it iff the oldest value that the log since the snapshot, or else the row, holds of each filtered column is the start's |
| `AuditRollback.UndoneColumn` | src/lib/programmaticTransaction.ts:133-182 | undoing a history gives every column the oldest value the history or the row holds |
| `AuditRollback.UndoCovered` | src/lib/programmaticTransaction.ts:133-182 | two versions of a row are undone to the same row iff the history covers every column they differ in |
| `AuditRollback.ExactStep` | src/migrations/20220115000000-audit-system.js:616-664 | exactness survives one more statement iff the statement is logged or touches covered columns only |
| `AuditRollback.RollbackExactIffHarmless` | src/migrations/20220115000000-audit-system.js:616-664 | rolling back after each prefix of a run is exact iff every statement of the run is harmless |
| `AuditRollback.ReplayIsRun` | src/lib/programmaticTransaction.ts:101-192 | a completed rollback is itself a run of audited statements |
| `AuditRollback.RollbackComposes` | src/lib/programmaticTransaction.ts:101-211 | an inner rollback, more writes and an outer rollback restore the outer snapshot off the filters |
| `AuditRollback.RepeatedRollback` | src/lib/programmaticTransaction.ts:101-211 | rolling back twice to one snapshot changes nothing more off the filters |
| `AuditRollback.TiedUpdatesMisorder` | src/lib/programmaticTransaction.ts:93-96 | in any run and for any snapshot, with two successive updates of a row listed in the wrong order the rollback succeeds, and restores the row iff an older entry holds every column on which the two disagree |
| `AuditWitnesses.FilteredUpdateIsLost` | src/migrations/20220115000000-audit-system.js:616-664 | for any two values, one update of a filtered column that no rollback undoes |
| `AuditWitnesses.TiedUpdatesLoseTheStart` | src/lib/programmaticTransaction.ts:77-96 | for any three values, two updates in one transaction and an answer of the log query with which the start is not restored |
| `AuditWitnesses.ShortNamesSwapValues` | src/lib/programmaticTransaction.ts:145-162 | a column order with which the re-insert swaps the id and another value |
| `AuditCompleteness.UnloggedRowKept` | src/migrations/20220115000000-audit-system.js:616-664 | a row of a table without a new entry has kept its non-filtered columns |
| `AuditCompleteness.NegativeAnswerIsSound` | src/lib/programmaticTransaction.ts:216-284 | if one transaction made all writes and the answer is no, every table except ZADescriptor equals its snapshot off the filters |
| `AuditCompleteness.PositiveAnswerIffLogged` | src/lib/programmaticTransaction.ts:216-284 | the answer is yes iff some statement of the run was logged outside the table ZADescriptor, or was a schema command on an object with an identity other than pg?temp. |
| `Semaphore.Semaphore.constructor` | src/lib/semaphore.js:2-12 | one empty default bucket |
| `Semaphore.Semaphore.Acquire` | src/lib/semaphore.js:14-36 | takes a slot iff the bucket is below its bound, else queues at the end |
| `Semaphore.Semaphore.Release` | src/lib/semaphore.js:38-51 | hands the slot to the oldest waiter, or frees it; an unknown bucket is ignored |
| `Semaphore.BucketsIndependent` | src/lib/semaphore.js:14-51 | the state of a bucket after any run depends on its own events alone |
| `Semaphore.RunSound` | src/lib/semaphore.js:14-51 | in every run grants follow arrival order, waiters exist only when the bucket is full, and holders are counted |
| `Semaphore.MutualExclusion` | src/lib/semaphore.js:14-51 | holders = currentConcurrency <= max when only holders release; in general at most max plus the spurious releases |
| `Semaphore.BoundIsReached` | src/lib/semaphore.js:14-51 | from any bucket state without waiters, asking for the free slots leads to exactly max plus spurious holders |
| `Semaphore.ExcessIsReached` | src/lib/semaphore.js:38-51 | for every bound and every n, a run with n spurious releases and n holders above the bound |
| `Semaphore.GrantsFollowReleases` | src/lib/semaphore.js:38-51 | while waiters remain each release grants exactly one, whatever acquires come in between |
| `Semaphore.WaiterGrantedInTurn` | src/lib/semaphore.js:38-51 | the waiter at position k is granted at exactly the (k+1)-th following release |
| `RedisLease.RedisServer.Set` | src/lib/lockManager.ts:78-81 | SET NX PX succeeds iff no unexpired key exists, and then sets value and expiry |
| `RedisLease.RedisServer.Get` | src/lib/lockManager.ts:88-97 | the value of the unexpired key, if any |
| `RedisLease.RedisServer.EvalRenewal` | src/lib/lockManager.ts:145-155 | the script extends the expiry iff the key holds the given value |
| `RedisLease.RedisServer.Delete` | src/lib/lockManager.ts:83-84 | the key is gone whoever held it |
| `RedisLease.LockManager.AcquireLock` | src/lib/lockManager.ts:78-81 | acquires iff the key is free, under the instance's own value and ttl |
| `RedisLease.LockManager.IsCurrentLock` | src/lib/lockManager.ts:99-102 | true iff the unexpired key carries the instance's value |
| `RedisLease.LockManager.RenewHoldTTL` | src/lib/lockManager.ts:142-158 | renews iff the key carries the instance's value, and changes nothing otherwise |
| `RedisLease.LockManager.Close` | src/lib/lockManager.ts:69-76 | no interval, no connection, the key untouched |
| `RedisLease.LockManager.ReleaseLock` | src/lib/lockManager.ts:83-86 | deletes the key without comparing its value, then closes |
| `RedisLease.LockManager.StopRenewal` | src/lib/lockManager.ts:183-191 | clears the interval and releases iff asked to |
| `RedisLease.LockManager.StartRenewal` | src/lib/lockManager.ts:161-180 | renews once and sets the interval to floor(ttl/2); a failed renewal deletes the key and closes the connection |
| `RedisLease.LockManager.FireInterval` | src/lib/lockManager.ts:164-178 | each firing renews; a failed one ends the interval, deletes the key and closes the connection |
| `RedisLease.LockManager.Enter` | src/lib/lockManager.ts:104-119 | executeWithLock up to the callback: entered iff the key is free or the instance's own, which is then renewed |
| `RedisLease.LockManager.Leave` | src/lib/lockManager.ts:125-131 | executeWithLock after the callback: holds the key on with a renewal, or deletes it |
| `LockProtocol.EnterIsSteps` | src/lib/lockManager.ts:104-119 | the first three actions of an undisturbed instance are `Enter` |
| `LockProtocol.LeaveIsSteps` | src/lib/lockManager.ts:125-131 | the actions after the callback are `Leave` |
| `LockProtocol.RenewIsInterval` | src/lib/lockManager.ts:164-178 | a renewal action is `FireInterval`, and the callback goes on either way |
| `LockProtocol.StepInv` | src/lib/lockManager.ts:104-139 | every action of any instance keeps the owner's lease and a renewal due before the expiry |
| `LockProtocol.RunInv` | src/lib/lockManager.ts:104-192 | the invariant holds after every timely run |
| `LockProtocol.SafeInEveryTimelyRun` | src/lib/lockManager.ts:104-192 | in every timely interleaving the key never expires while held, carries the holder's value, and at most one instance is in its callback |
| `LockProtocol.SafeIffServedBeforeExpiry` | src/lib/lockManager.ts:104-192 | for every ttl > 0 and delay: all timely runs of any number of instances are safe iff floor(ttl/2) + delay < ttl |
| `LockProtocol.OverlapIsTimely` | src/lib/lockManager.ts:161-180 | with any larger delay a run that lets two instances in is timely |
| `LockProtocol.ReleaseRemovesOwnKey` | src/lib/lockManager.ts:83-86 | in a timely run the unconditional DEL removes the instance's own key, and no other instance owns one |
| `LockProtocol.UntimelyRunBreaks` | src/lib/lockManager.ts:161-192 | for every ttl a late holder leads to three instances inside their callbacks |
| `UriCodec.RoundTrip` | frontend/src/utils.js:258-264 | decodeURIComponent inverts encodeURIComponent on every string |
| `UriCodec.EncodedIsSafe` | frontend/src/utils.js:383-396 | encoded text contains no delimiter |
| `UriCodec.DecodeEncodedChar` | frontend/src/utils.js:258-264 | one encoded character is read back whatever follows it |
| `UriCodec.EscapedIff` | frontend/src/utils.js:383-396 | which characters are escaped, in upper case |
| `UriCodec.Utf8Examples` | frontend/src/utils.js:383-396 | the bytes of a character of each length |
| `UriCodec.HexDigitsRead` | frontend/src/utils.js:258-264 | escapes are read in both cases |
| `UriCodec.DecodedIsUtf8` | frontend/src/utils.js:258-264 | only the shortest UTF-8 form of a character is decoded |
| `Text.TrimIs` | frontend/src/utils.js:387-395 | trimming takes white space off both ends and nothing else |
| `Text.JoinSplit` | frontend/src/utils.js:266-271 | the parts are what the separator separates |
| `QueryFilters.FiltersToQueryString` | frontend/src/utils.js:357-403 | the loop formats the dates, drops what has no value or no valid dates, prints the rest and appends the region; `FilterSpelling` says what that prints |
| `QueryFilters.QueryStringToFilters` | frontend/src/utils.js:266-322 | the specified list or the URIError: the parsing expression is the function `ParseAll`, the merging loop is proved against `MergeAll` |
| `FilterSpelling.OneValuePrints` | frontend/src/Constants.js:37-50 | for each condition, one value prints as topic, the literal code and its trimmed, encoded text; an empty text prints nothing |
| `FilterSpelling.ArrayPrints` | frontend/src/utils.js:383-392 | an array prints value by value, a nested array joined by commas |
| `FilterSpelling.DatesPrint` | frontend/src/utils.js:324-381 | a range prints as two rewritten dates if both are dates, and is dropped otherwise |
| `FilterSpelling.DatesAllOrNone` | frontend/src/utils.js:365-380 | one text of an array that is no range drops the filter |
| `FilterSpelling.PrintConcat` | frontend/src/utils.js:383-402 | what is printed at all is joined by ampersands, the region last |
| `FilterSpelling.RegionPrints` | frontend/src/utils.js:398-400 | the region is printed iff it begins with an integer, as it is |
| `FilterSpelling.PartReads` | frontend/src/utils.js:268-299 | what one part of a query string is read as, code by code, with the errors and the dropped parts |
| `FilterSpelling.BarePart` | frontend/src/utils.js:270-299 | a part without an equals sign is never a filter |
| `FilterSpelling.ParseErrorIff` | frontend/src/utils.js:266-299 | the string is an error iff one of its parts is |
| `FilterSpelling.TextReads` | frontend/src/utils.js:258-299 | a text comes back trimmed, or as the pieces between its commas |
| `FilterSpelling.ArrayReads` | frontend/src/utils.js:302-321 | an array comes back as its first text, nested if it holds commas, and the pieces of the others, each once |
| `FilterRoundTrip.FindsAliased` | frontend/src/utils.js:278-285 | a printed condition code is read back as its own condition, the aliased ones as "is" and "is not" |
| `FilterRoundTrip.ParamParses` | frontend/src/utils.js:269-299 | a printed parameter is read back as its topic, condition and trimmed value, or dropped when empty |
| `FilterRoundTrip.FragmentsJoin` | frontend/src/utils.js:383-402 | the printed string splits at its ampersands into the parameters and nothing else |
| `FilterRoundTrip.PrintedParses` | frontend/src/utils.js:266-403 | parsing a printed list merges its parameters read back one by one |
| `FilterCanonical.MergeCanonicalList` | frontend/src/utils.js:304-321 | merging the one-value filters of a canonical list rebuilds it in order |
| `FilterCanonical.ReadBackIsCanonical` | frontend/src/utils.js:266-322 | what is read back from comma-free plain filters is canonical, with valid dates |
| `FilterCanonical.RoundTripIffCanonical` | frontend/src/utils.js:258-403 | a plain filter list survives printing and parsing, in order, iff it is canonical and its dates are valid |
| `FilterCanonical.RegionRoundTrip` | frontend/src/utils.js:398-402 | a numeric region comes back as one more "is" filter iff the extended list is canonical |
| `FilterExpansion.ExpandFilters` | frontend/src/utils.js:186-205 | one filter per element of an array filter, in order, scalars unchanged |
| `FilterExpansion.ExpandedAt` | frontend/src/utils.js:186-205 | in its place each array filter becomes one text filter per string, in order, and a text filter stays |
| `FilterExpansion.NoArraysLeft` | frontend/src/utils.js:186-205 | no array is left |
| `FilterExpansion.ExpansionKeepsMeaning` | frontend/src/utils.js:186-205 | the query string of the expanded list parses to the same filters as that of the list, if no array mixes ranges of dates with other texts |
| `FilterExpansion.EvenIsNeeded` | frontend/src/utils.js:186-205 | for one array of dates the two parse to the same filters iff it does not mix them |
| `Semgrep.AssignFindingKeys` | tools/semgrep-sast.js:206-223 | each result of the sorted scan gets the number of its likes so far, and keeps its seed, severity and all other data |
| `Semgrep.SignaturesAre` | tools/semgrep-sast.js:206-229 | the signatures are exactly the pairs (seed, i) with 1 <= i <= count of the seed, each once |
| `Semgrep.CollectedSignatures` | tools/semgrep-sast.js:268-295 | the same, whatever the input order and the ties of both sorts |
| `Semgrep.CollectedKeeps` | tools/semgrep-sast.js:245-295 | seeds, severities and other data come out as often as they went in |
| `Semgrep.NewFindings` | tools/semgrep-sast.js:685-765 | findings not in the other scan number the multiset difference of the seeds |
| `Semgrep.NewPerSeed` | tools/semgrep-sast.js:685-765 | per seed there are max(0, n - m) new findings |
| `Semgrep.KeptBalance` | tools/semgrep-sast.js:685-765 | current - new = baseline - resolved = size of the multiset intersection |
| `SemgrepGate.ValidateDispositions` | tools/semgrep-sast.js:612-661 | the issues of every entry in order, the undisposed findings in order; no issue iff the file is well disposed |
| `SemgrepGate.Evaluate` | tools/semgrep-sast.js:667-765 | the failures, warnings and counts, each exactly and in order; no failure iff the gate's conditions hold |
| `SemgrepGate.NoIssuesIff` | tools/semgrep-sast.js:612-661 | a dispositions file has no issues iff every entry names its own baseline finding and is filled in |
| `SemgrepGate.AllIssuesAre` | tools/semgrep-sast.js:619-650 | the issues are exactly those some entry gives rise to |
| `SemgrepGate.FailuresJustified` | tools/semgrep-sast.js:667-765 | every failure is justified by the files, and every justified failure is reported |
| `SemgrepGate.NewFindingsSplit` | tools/semgrep-sast.js:700-765 | blocking and other new findings together are all the new ones |
| `SemgrepGate.PassesIffUnjustified` | tools/semgrep-sast.js:667-765 | the gate passes iff no failure is justified |
| `SemgrepGate.IssuesInOrder` | tools/semgrep-sast.js:619-650 | entry after entry, and within one: baseline, status, rationale, owner, review date |
| `SemgrepGate.FailuresInOrder` | tools/semgrep-sast.js:688-738 | issues first, then missing dispositions, then findings |
| `SemgrepGate.FoundInOrder` | tools/semgrep-sast.js:704-738 | the findings' failures in the order of the findings |
| `SemgrepGate.NewInOrder` | tools/semgrep-sast.js:704-738 | new findings in the order of the findings |
| `SemgrepGate.WarningsInOrder` | tools/semgrep-sast.js:713-719 | warnings in the order of the findings |
| `SemgrepGate.SignaturesInOrder` | tools/semgrep-sast.js:652-655 | missing dispositions in the order of the baseline |
| `SemgrepGate.GateCounts` | tools/semgrep-sast.js:685-765 | of two scans collected with any sorts, new and resolved findings number the multiset differences, and the rest balances |
| `SemgrepGate.SurplusBlocks` | tools/semgrep-sast.js:722-738 | more raw results than in the baseline of a seed whose results all block: the gate fails with a new blocking finding of it |
| `SemgrepGate.BlockingIsSurplus` | tools/semgrep-sast.js:722-738 | a new blocking finding is a raw result that blocks, of a seed with more results than in the baseline |
| `SemgrepGate.NewBlockingIff` | tools/semgrep-sast.js:722-738 | if all results of a seed block or none does: there is a new blocking finding iff a blocking seed has more results than in the baseline |
| `SemgrepGate.TemplateCovers` | tools/semgrep-sast.js:552-610 | a template names exactly the baseline's findings and is well disposed iff its fields are filled |
| `SemgrepGate.TemplateKeeps` | tools/semgrep-sast.js:571-606 | each entry keeps what the last existing entry for its finding says, or takes the scaffold's fields |
| `Reconcile.ByIdentityIs` | tools/releaseInventory.js:521-526 | the map keeps the last component of every identity, in order of first appearance |
| `Reconcile.ActiveDispositionsAre` | tools/releaseInventory.js:459-463 | the map keeps the last accepted or deferred disposition of a key |
| `Reconcile.FirstTokenReplaced` | tools/releaseInventory.js:69-71 | every ((env)) is replaced: nothing changes up to the first, and the same goes on after it |
| `Reconcile.TokenFreeStays` | tools/releaseInventory.js:69-71 | text without ((env)) stays |
| `Reconcile.LatestIs` | tools/releaseInventory.js:521-526 | the component looked up is the last one with the class and substituted name, or there is none |
| `Reconcile.LatestActiveIs` | tools/releaseInventory.js:459-463 | the disposition looked up is the last accepted or deferred one with the class and name, or there is none |
| `Reconcile.DriftIffDisagree` | tools/releaseInventory.js:483-514 | drift is empty iff the field that matters for the component agrees, and lists true differences |
| `Reconcile.CompareComponent` | tools/releaseInventory.js:534-575 | the first callback puts a component where its case belongs, with the entry of that case |
| `Reconcile.AddObserved` | tools/releaseInventory.js:577-592 | the second callback does so for what was observed only |
| `Reconcile.CompareDeclared` | tools/releaseInventory.js:534-575 | the first loop puts every declared identity on its own list |
| `Reconcile.Reconcile` | tools/releaseInventory.js:521-601 | the five lists hold, in order, the entries of all known identities |
| `Reconcile.ListedTimes` | tools/releaseInventory.js:528-601 | a list names the identities of its own kind once each and no others |
| `Reconcile.ListedInOrder` | tools/releaseInventory.js:534-592 | a list keeps the order of the identities |
| `Reconcile.ReportPartitions` | tools/releaseInventory.js:521-601 | every declared or observed identity appears exactly once across the five lists; the lengths add up to the size of the union |
| `Reconcile.CleanIffAccounted` | tools/releaseInventory.js:521-601 | mismatch, missing and undocumented are all empty iff the sides agree everywhere except at identities with an active disposition |
| `Reconcile.EntriesSay` | tools/releaseInventory.js:534-592 | every entry of the five lists holds its component's id, name, hash and differing values, and the outcome and disposition of a suppressed one |
| `Pagination.AddIncluded` | tools/releaseInventory.js:285-296 | every included type is extended by the page's values for it |
| `Pagination.FetchPaginated` | tools/releaseInventory.js:256-309 | terminates within the distinct pages; over the responses: success holds the resources and included values of a whole chain of different pages, failure names the first page that repeats or the first thing wrong with it |
| `Pagination.OutcomeAnswers` | tools/releaseInventory.js:256-309 | the chain, its contents and its errors in terms of the responses and resolved links |
| `Pagination.CycleIsReported` | tools/releaseInventory.js:262-267 | over a chain with a cycle the result is always the repetition error |
| `Pagination.EndIsNotRepeated` | tools/releaseInventory.js:262-267 | a chain that ends is never reported as repeating |
| `Pagination.CycleNeverEnds` | tools/releaseInventory.js:262-267 | a chain that comes back to a page never ends, so following it cannot succeed |
| `Pagination.EndlessHasCycle` | tools/releaseInventory.js:262-267 | an endless chain over finitely many pages repeats a page within their number |
| `Grouping.GroupAllRepresents` | src/goalServices/reduceGoals.ts:564-794 | a lawful find-or-append fold makes one record per key out of exactly the items with that key |
| `Grouping.GroupedInOrder` | src/goalServices/reduceGoals.ts:564-794 | records come in the order in which their keys first appear |
| `Grouping.GroupConcat` | src/goalServices/reduceGoals.ts:28-70 | folding in two goes equals folding in one |
| `Grouping.UniqConcat` | src/goalServices/reduceGoals.ts:261-283 | uniqueness by key can be taken piecemeal |
| `Citations.MergeFormattedCitations` | src/goalServices/reduceGoals.ts:200-227 | the Map loop computes the grouped merge |
| `Citations.MergeIsGrouping` | src/goalServices/reduceGoals.ts:200-227 | one citation per id and name in first-appearance order, holding the first-occurrence-unique references of all inputs with them |
| `Citations.SameReferenceIff` | src/goalServices/reduceGoals.ts:183-194 | references without vertical bars are the same iff they agree in eight fields, absent texts counting as empty |
| `Citations.BarsCollide` | src/goalServices/reduceGoals.ts:183-194 | two different references with bars of which only one is kept |
| `Citations.SameCitationIff` | src/goalServices/reduceGoals.ts:196-198 | citations are the same iff id and name are |
| `Citations.MergeIdempotent` | src/goalServices/reduceGoals.ts:200-227 | merging twice equals merging once |
| `Citations.MergeIsHomomorphic` | src/goalServices/reduceGoals.ts:349-360 | merge(merge(a) ++ b) = merge(a ++ b) |
| `ReduceGoals.Reduce` | src/goalServices/reduceGoals.ts:564-794 | the loop over goals computes the grouping fold |
| `ReduceGoals.FindGoal` | src/goalServices/reduceGoals.ts:569-583 | the first accumulated goal with the same trimmed name and, off reports, the same status, or none |
| `ReduceGoals.ReducePartitions` | src/goalServices/reduceGoals.ts:564-794 | pairwise different outputs in first-appearance order; each lists an id iff a goal with its trimmed name (and status, off reports) has it, with name and status of the first and four lists of equal length in input order |
| `ReduceGoals.GoalIdsConserved` | src/goalServices/reduceGoals.ts:564-794 | across all outputs every goal id is listed as often as it came in |
| `ReduceGoals.ObjectiveIdsConserved` | src/goalServices/reduceGoals.ts:564-794 | across all outputs every objective id is listed as often as it came in, however often goals are merged and objectives sorted |
| `ReduceGoals.ReducersConserveIds` | src/goalServices/reduceGoals.ts:21-79 | both objective reducers list ids this way, so the conservation holds for the RTR and for reports |
| `ReduceGoals.CollapsedCitations` | src/goalServices/reduceGoals.ts:349-360 | merging citations objective by objective equals one batch merge |
| `ReduceGoals.CollapsedFiles` | src/goalServices/reduceGoals.ts:285-487 | files of an objective that occurs more than once are those of all occurrences, each once |
| `ReduceGoals.ReportReduced` | src/goalServices/reduceGoals.ts:285-487 | on a report the objectives of a goal are distinct by trimmed title and status, and each is made of exactly those with its title and the report's status: ids, relations, files, origin, citations |
| `ReduceGoals.RtrReduced` | src/goalServices/reduceGoals.ts:21-79 | on the RTR the same by the objectives' own status: ids and recipients in order, and all activity reports but the first's |
| `ReduceGoals.FirstOnly` | src/goalServices/reduceGoals.ts:261-283 | resources, topics, courses and files come from the first activity report objective only |
| `ReduceGoals.AllCited` | src/goalServices/reduceGoals.ts:349-360 | citations come from all of them |
| `ReduceGoals.RecipientsAre` | src/goalServices/reduceGoals.ts:36-41 | recipients are recorded unless missing or zero |
| `RecipientGoals.ReportTables.RemoveRemovedRecipientsGoals` | src/goalServices/goals.js:842-964 | the steps have exactly the specified effect on all four tables and return the number of destroyed goals |
| `RecipientGoals.RemovalKeepsIntegrity` | src/goalServices/goals.js:842-964 | join rows still point to existing goals and objectives |
| `RecipientGoals.LinksAfterRemoval` | src/goalServices/goals.js:842-964 | other reports keep their join rows; this report keeps exactly those not leading to a removed grant's goal |
| `RecipientGoals.DestroyedIffUnused` | src/goalServices/goals.js:842-964 | which goals and which objectives are destroyed, both iff, from the original tables; everything else is unchanged |
| `RecipientGoals.ObjectivesKeepGoalsIff` | src/goalServices/goals.js:842-964 | exactly when every objective still has its goal |
| `RecipientGoals.ObjectiveLeftBehind` | src/goalServices/goals.js:842-964 | a report whose goal is destroyed while an objective of it stays behind |
| `RecipientGoals.RemovalIdempotent` | src/goalServices/goals.js:842-964 | removing again changes nothing |
| `BulkClose.AllowedMatrix` | src/goalServices/goals.js:974-995 | the transition matrix in words, both directions |
| `BulkClose.BlockingReasonsAre` | src/goalServices/validateGoalStatusChange.ts:42-131 | closing is blocked by a draft, submitted or needs_action report and by an incomplete objective, each with its own reason |
| `BulkClose.HookPassesIff` | src/models/hooks/goalStatusChange.js:13-50 | the hook lets a goal close iff each open objective is on a report and on no approved one |
| `BulkClose.GoalTables.ValidateGoalStatusChange` | src/goalServices/validateGoalStatusChange.ts:42-131 | the blocking reasons, in order |
| `BulkClose.GoalTables.ChangeGoalStatus` | src/goalServices/changeGoalStatus.ts:58-116 | a change row and the new status iff the status changes and the hook lets it; errors write nothing |
| `BulkClose.GoalTables.UpdateGoalStatusById` | src/goalServices/goals.js:1006-1043 | refusal and blocking write nothing; otherwise all present goals are closed with one change row each |
| `BulkClose.GoalTables.CloseMultiRecipientGoalsFromAdmin` | src/goalServices/goals.js:1660-1705 | the whole new state and the outcome, from the old state and the arguments |
| `BulkClose.RelaxedThenStrict` | src/goalServices/goals.js:1665-1689 | once the relaxed validation accepts, completing the approved objectives makes the strict one accept |
| `BulkClose.StrictClearsHook` | src/models/hooks/goalStatusChange.js:13-50 | what the strict validation accepts, the hook never stops |
| `BulkClose.ClosedMeansDone` | src/goalServices/goals.js:1660-1705 | success leaves every goal closed, all their objectives complete, the approved ones with reason and context, no unfinished report, and everything else untouched |
| `BulkClose.RefusalWritesNothingIff` | src/goalServices/goals.js:1670-1704 | a refused transition writes nothing iff no approved objective needed completing |
| `BulkClose.RefusalWrites` | src/goalServices/goals.js:1670-1704 | closing a closed goal is refused and still completes its open approved objective |
| `GroupGrants.UniqueReplacing` | src/lib/updateGrantsRecipients.js:634-639 | the replacing grants of a grant, each once |
| `GroupGrants.GroupGrantTable.ReplaceGrants` | src/lib/updateGrantsRecipients.js:628-650 | fetched rows gone, all others unchanged, each new pair inserted once |
| `GroupGrants.GroupGrantTable.SyncRegion` | src/lib/updateGrantsRecipients.js:255-319 | one region's turn extends what the turns before it have synced |
| `GroupGrants.GroupGrantTable.SyncRegions` | src/lib/updateGrantsRecipients.js:231-316 | stale rows of the synced groups gone, all others unchanged, each missing pair inserted once |
| `GroupGrants.GroupGrantTable.AddMissing` | src/lib/updateGrantsRecipients.js:258-292 | inserts exactly the Active grants of the region that the group lacks |
| `GroupGrants.GroupGrantTable.DeleteStale` | src/lib/updateGrantsRecipients.js:294-316 | deletes exactly the group's stale rows |
| `GroupGrants.SyncNext` | src/lib/updateGrantsRecipients.js:255-319 | a region's pass neither disturbs nor depends on the passes before it |
| `GrantReplacement.MembersReplaced` | src/lib/updateGrantsRecipients.js:628-650 | each group ends with its unreplaced members and all replacements of the others, chains included |
| `GrantReplacement.NoPairTwiceIff` | src/lib/updateGrantsRecipients.js:641-648 | no duplicate arises iff no replacement that is not itself replaced was a member already |
| `GrantReplacement.SecondRunIdleIff` | src/lib/updateGrantsRecipients.js:618-650 | a second run has nothing to do iff no replacement brought in a replaced grant |
| `GrantReplacement.ReplacementDuplicates` | src/lib/updateGrantsRecipients.js:641-648 | a group with both grants ends with the replacing one twice |
| `GrantReplacement.ReplacementChains` | src/lib/updateGrantsRecipients.js:628-650 | after a chain the group holds a grant that is itself replaced |
| `RegionSync.ClausesSelect` | src/lib/updateGrantsRecipients.js:261-315 | what the two WHERE clauses select under three-valued logic |
| `RegionSync.RegionMapHolds` | src/lib/updateGrantsRecipients.js:239-243 | the map holds the last group of each name |
| `RegionSync.GroupMatchesRegion` | src/lib/updateGrantsRecipients.js:238-319 | a synced group has every Active grant of its region and otherwise only old members that are not stale; others keep theirs |
| `RegionSync.SyncSettles` | src/lib/updateGrantsRecipients.js:238-319 | a second sync on the same grants adds and removes nothing |
| `RegionSync.SyncDuplicatesNothing` | src/lib/updateGrantsRecipients.js:258-292 | the sync creates no duplicate membership |
| `RegionSync.ReplacementsSurviveSync` | src/lib/updateGrantsRecipients.js:244-253 | grants brought in by the replacement loop survive the sync |
| `Ranges.CreateRanges` | src/lib/dataObjectUtils.ts:560-585 | separated ranges whose expansion is the sorted distinct list |
| `Ranges.GroupIntoRanges` | tools/check-coverage.js:178-203 | sorts its argument in place and compresses it, repeats included |
| `Ranges.CompressExpands` | src/lib/dataObjectUtils.ts:568-584 | the expansion of the ranges is the list they were made from |
| `Ranges.ExpandCompresses` | src/lib/dataObjectUtils.ts:568-584 | separated ranges are what compressing their expansion gives |
| `Ranges.SeparatedUnique` | src/lib/dataObjectUtils.ts:550-585 | separated ranges over the same numbers are the same list |
| `Ranges.AgreeIffNoRepeats` | tools/check-coverage.js:178-203 | the two functions agree iff the input has no repeats |
| `Ranges.RepeatsSplit` | tools/check-coverage.js:178-203 | a repeated number gives two ranges in the one and one in the other |

## Left out

- Postgres, Sequelize, Redis, git, Cloud Foundry and Semgrep as I/O: the tables, the key and the pages are the model.
- Value re-encoding in `revertChange` (JSON.parse, array literals), foreign keys, DDL triggers, the archive-delete branch,
  `ZAFSetTriggerState`, and the rows `ZAFDescriptorToID` inserts on the side. The filters table is fixed during a run.
- Log entries carry only the columns the properties need; user, session and descriptor are not part of this model.
- `hasModifiedData` with no ZAL model at all, and the two tables' name lookups, which cannot fail here.
- The log's own no-update and no-truncate guards are the shape of the model: no statement edits a log.
- AuditRollback.RollbackInvertsAnyRun: assumes `IdFirst`, because without it the re-insert alone may already fail to
  restore a row; `AuditUndo.ReplayedRowExact` is the exact condition.
- Process signals, listeners, logging and connection errors of `LockManager`, and re-entry by one instance; `executeWithLock` is the
  state machine of `LockProtocol`, one command or timer at a time.
- Promises of the semaphore: a ticket stands for one call of `acquire`.
- The date library's parsing and formatting inside "is within" filters is a parameter. Conditions are the keys of `QUERY_CONDITIONS`; filter ids, lone surrogates and non-string queries are left out.
- FilterCanonical.RoundTripIffCanonical: is about lists whose topics are free of delimiters and whose arrays hold strings,
  as the filter menu builds them.
- Monitoring filters (`expandMonitoringFilters`): one more branch of the same loop.
- Semgrep: snippet cleaning, positions and metadata are opaque; scan errors, skipped paths, provenance and files are left out. The
  texts of the messages are not stated, only what they report.
- Release inventory: schema validation, selection by scope, overdue dispositions and exports. Environment names are taken
  literally, without the dollar patterns of `String.replace`.
- Pagination: link resolution is a parameter.
- Reducers: prompts, collaborators, the other copied fields and `formatObjectiveCitation`; the catch block, which well-formed
  records never reach. Records are values, so aliasing with the input is not captured, and the order of the final sorts is
  any permutation (`Permutes`), since their comparator is not an order on ties.
- Goal removal and bulk close: soft deletion is deletion; hooks other than those of the status change row, and the
  interleaving inside `Promise.all`, which is sequential here.
- Status validation of other callers (`includeIncompleteObjectives: false`) and `changeGoalStatusWithSystemUser`: one-branch
  variants.
- Group maintenance: choosing the replacements of the last hour, the transaction around the sync, and timestamps. Rows get fresh
  ids in any order. The key of `createdGrants` is the pair it spells.
- `remap` and `remapPrune`, CSV building, XML import, personnel updates, OIDC and permission checks.
