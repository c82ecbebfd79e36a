# Verified models of the MediaMasterr cores

This project models, in Dafny 4.11, the parts of MediaMasterr where state, branching and arithmetic
interact, and proves what those parts are for. `dafny verify dfyconfig.toml` checks all of it.

| module | what it models |
|---|---|
| `JobQueue`, `WorkerProtocol`, `WorkerLoop` | the durable job table, the interleaving of workers, enqueuers, cancellers and restarts over it, and one worker's loop |
| `WatchSnapshot`, `WatchRuns`, `WatchSpelling` | the incrementally refreshed "last watched" table of a Plex server, the client behind it, its cursor, and what any run of refreshes stores |
| `RuleOperators`, `RuleMeaning`, `RuleEngine`, `RuleState`, `RuleWitness` | rule trees: the operators and what each asks of the data, the collecting two-valued evaluator, the three-valued evaluator, and what an evaluation depends on |
| `StableSort`, `DiskStats` | the memoised resolver that finds the mount or path mapping behind a path |
| `RateLimiter` | the sliding window in front of the TMDB client |
| `Usernames`, `MediaAuth` | choosing a free account name, and the login that links or creates an account |
| `Pagination`, `Collections`, `CollectionSync` | reading a list page by page, and keeping one titled collection of a media server equal to an expected set, whichever requests fail on the way |
| `FileOpJob` | the job that deletes or moves candidates, and the outcome it records wherever a fault strikes |
| `AutoDelete`, `DecisionEngine` | the auto-delete deadline and the state shown for an item |
| `Favorites` | replacing the favourites of a Plex server while keeping the rows of users who could not be read |
| `Common`, `AsciiText`, `Listings`, `Quotients` | optional values, ASCII `strip`/`lower`, sets listed in some order, and rounded quotients |

Each core is written twice. Methods and classes follow the Python code step by step and are proved
equal to specification functions. Lemmas say what those functions mean, in quantifiers, characters and
numbers and without the functions themselves, and then what they achieve, over all inputs or over runs of
any length. Tables are maps, sets or sequences; servers, clocks and library routines are
parameters.

Findings where the code does less than one might expect from it:

- The deadline of a candidate can move *earlier* when a rule is added, but only from no matching rule
  to one (`AutoDelete.AddingRuleMovesDeadlineEarlierIff`; `AutoDelete.FirstRuleCanMakeItDue` is an example).
- A mount entry that ends in several slashes sorts in front of the mounts nested in it and answers for
  them (`DiskStats.ManySlashesCanPickTheOuterMount`); `DiskStats.LongestAnswersIff` says exactly when
  the longest mount answers.
- The matched map of a rule is not always a sub-map of the context: an absent field is reported as an
  empty value (`RuleWitness.AbsentFieldIsReported`), and points in time are rendered as text.
  `RuleWitness.MatchedIsSubMapIff` gives the exact condition on the tree, and
  `RuleWitness.CollectedFieldsAsIsSuffice` one to check before an evaluation.
- A viewing that becomes visible more than a day behind the cursor is missed until the next full rebuild
  (`WatchRuns.TwoDaysLateIsMissed`), unless a later viewing of its key is known or fetched.
  `WatchRuns.MatchesThroughoutIff` gives the exact condition on a run.
- The spelling of a user's name in the "last watched" table can differ from what a rebuild would store
  when one key is viewed twice within a second under two spellings
  (`WatchSpelling.OldSpellingOfATieStays`). It agrees over all runs exactly when no such tie exists
  (`WatchSpelling.TableIsRebuildIff`), and `WatchSpelling.SpellingIsOfTheFirstToShow` says whose it is.
- An expected item that has vanished from the library stays in a collection that already held it
  (`CollectionSync.AVanishedItemStays`); `CollectionSync.SurvivorHoldsExpectedIff` gives the exact
  condition.
- Two Plex users whose names differ only in case, and who share one title, make every refresh of the
  favourites fail on the unique constraint (`Favorites.AnnTwiceFails`);
  `Favorites.RefreshFailsIff` gives the exact condition.
- A delete request can be marked executed although the job raises: every operation has succeeded, and
  either the last progress write of the loop fails with an error (`FileOpJob.ExecutedThoughLastWriteFails`)
  or finalising raises after it has committed. `FileOpJob.ExecutedYetRaisedIff` gives the exact condition.
- A name with a letter beyond ASCII gives a local username the account validator would reject
  (`Usernames.LetterBeyondAsciiIsRejected`); `Usernames.UniqueUsernameIsValidIff` gives the exact condition.

## Model

| member | source | states |
|---|---|---|
| JobQueue.JobTable.EnqueueBackgroundJob | backend/jobs/queue.py:16-77 | a new job carries what was asked, pending with no attempts; with a non-empty key, replacing cancels that key's pending jobs first; a request that yields to a job is refused and leaves no trace at all |
| JobQueue.RefusedIff | backend/jobs/queue.py:29-61 | a request is refused exactly when skip_if_active is set and a job of its non-empty key runs, or is pending and not to be replaced; then nothing changes |
| JobQueue.AcceptedIsStored | backend/jobs/queue.py:29-75 | an accepted request is stored under the next id with its type, payload, key and time, pending and unclaimed; of the other rows only pending ones of the key change, to canceled, and only when it replaces |
| JobQueue.JobTable.SelectNextJob | backend/jobs/queue.py:111-137 | the candidate is the least by scheduled time, then id, among pending, due jobs of an allowed type; none is returned only if there is none |
| JobQueue.NextJobIff | backend/jobs/queue.py:111-137 | the job selected is pending, due and of an allowed type, and no such job is scheduled earlier, or as early with a lower id |
| JobQueue.JobTable.ClaimSelectedJob | backend/jobs/queue.py:139-163 | the conditional update succeeds exactly on a row that is still pending, and then sets holder, status and attempts of that row alone |
| JobQueue.JobTable.CompleteBackgroundJob | backend/jobs/queue.py:166-188 | completes one row, adding the result to its payload; every other row is unchanged |
| JobQueue.JobTable.UpdateBackgroundJobPayload | backend/jobs/queue.py:191-210 | merges updates into one row's payload and changes nothing else |
| JobQueue.JobTable.FailBackgroundJob | backend/jobs/queue.py:213-225 | fails one row; every other row is unchanged |
| JobQueue.JobTable.ResetStaleJobs | backend/jobs/queue.py:80-108 | fails exactly the running jobs and counts them |
| JobQueue.JobTable.CancelPendingBackgroundJobsByDedupeKey | backend/jobs/queue.py:228-254 | cancels exactly the pending jobs of a key and counts them |
| JobQueue.TransactionsOnOneRow | backend/jobs/queue.py:139-225 | claiming, updating, completing and failing change one row each, field by field as listed, the payload entry by entry |
| JobQueue.TransactionsOnManyRows | backend/jobs/queue.py:80-108 | cancelling by key turns exactly its pending rows to canceled, the startup reset exactly the running rows to failed |
| WorkerProtocol.EventChangesLegally | backend/jobs/queue.py:16-254 | whatever happens, a job only moves pending → running or canceled → completed or failed, and rows in a final state are frozen |
| WorkerProtocol.EveryRunIsConsistent | backend/jobs/queue.py:111-225 | in every reachable state attempts are 0 for pending and canceled jobs and 1 for all others, and every holder holds a running job of an allowed type claimed by itself |
| WorkerProtocol.JobsAreHeldExclusively | backend/core/worker.py:66-96 | under every interleaving no two workers hold the same job |
| WorkerProtocol.ClaimedAtMostOnce | backend/jobs/queue.py:139-163 | the attempts column counts the successful claims of a job, and there is at most one in any run |
| WorkerProtocol.FinalJobsAreFrozen | backend/jobs/queue.py:166-254 | a completed, failed or canceled row never changes again, payload included |
| WorkerProtocol.JobsNeverVanish | backend/jobs/queue.py:16-254 | no event removes a job, makes a claimed job pending again, or changes a job's type, key or time |
| WorkerProtocol.ResetLeavesNothingRunning | backend/api/main.py:114-116 | after the reset at a startup, when no worker is alive, no job is running |
| WorkerProtocol.KeysStayUnique | backend/jobs/queue.py:29-75 | a key always enqueued with deduplication has at most one pending job, and one always enqueued with skip_if_active at most one pending or running job, in every reachable state |
| WorkerProtocol.AcceptedStays | backend/jobs/queue.py:16-77 | over every run an accepted request stays in the table with its type, key and time |
| WorkerProtocol.ActiveJobBlocksItsKey | backend/jobs/queue.py:43-61 | over every run, while an accepted job of a non-empty key runs, or is pending and not to be replaced, every skip_if_active request of that key is refused and changes nothing |
| WorkerProtocol.ReplacingLeavesOnePending | backend/jobs/queue.py:29-41 | right after an accepted replacing request exactly one pending job has its key, the new one, and those pending before are canceled |
| WorkerProtocol.TaskIsQueuedOnce | backend/core/task_runtime.py:108-122 | two requests for one task in a row: the first becomes job 0, the second is refused |
| WorkerProtocol.EndedExactlyBy | backend/jobs/queue.py:80-254 | over every run a job is completed exactly when its holder said so, failed exactly when its holder said so or a restart found it running, and canceled exactly when its key was canceled or replaced while it was pending |
| WorkerProtocol.OneJobRuns | backend/core/worker.py:66-96 | a concrete run from request to completion, with the payload at its end |
| WorkerLoop.LoadPollSettings | backend/core/worker.py:27-43 | the bounds used are ordered, whatever is stored |
| WorkerLoop.PollSettingsIff | backend/core/worker.py:27-43 | stored bounds are used as they are unless they cross, when the lower one is used for both; 0.5 and 5 seconds stand in for missing ones |
| WorkerLoop.BackOffIsCappedDoubling | backend/core/worker.py:77-83 | after n idle polls the delay is the lower bound doubled n times, capped by the upper bound, and never outside the bounds |
| WorkerLoop.Loop.RefreshPollSettings | backend/core/worker.py:60-64 | re-read settings pull the current delay between the new bounds |
| WorkerLoop.Loop.Iterate | backend/core/worker.py:66-96 | one undisturbed iteration is the select, claim and complete-or-fail steps of the protocol, leaves the worker idle, and backs off exactly when nothing is due |
| WatchSnapshot.BuildWatchRows | backend/services/media_watch_snapshot_cache.py:114-155 | the loop computes the fold whose meaning `BuildHoldsTheLatest` and `MergeIsBuildOfConcat` give |
| WatchSnapshot.KeysMeetIff | backend/services/media_watch_snapshot_cache.py:124-136 | two snapshots have one key exactly when type, title and user agree, blanks around the name and the case of its ASCII letters aside |
| WatchSnapshot.CountsIff | backend/services/media_watch_snapshot_cache.py:117-139 | a snapshot counts exactly when it has a time and its user is not blank; its row holds the name between the blanks and the time |
| WatchSnapshot.BuildHoldsTheLatest | backend/services/media_watch_snapshot_cache.py:124-139 | a key is present exactly when a usable snapshot exists for it, with the latest time and that snapshot's own payload |
| WatchSnapshot.MergeRows | backend/services/media_watch_snapshot_cache.py:400-437 | the incremental merge takes for every key the strictly later row, the old one on a tie |
| WatchSnapshot.MergeIsBuildOfConcat | backend/services/media_watch_snapshot_cache.py:400-437 | merging build(A) with build(B) is build(A ++ B), payload included |
| WatchSnapshot.MediaWatchSnapshotCache.RefreshSnapshot | backend/services/media_watch_snapshot_cache.py:301-476 | one refresh, full or incremental, rewrites rows, cursor and sync state as specified |
| WatchSnapshot.RebuildIsDueIff | backend/services/media_watch_snapshot_cache.py:97-112 | a full rebuild is due unless the store is in format 3, has a cursor and was rebuilt less than 604800 seconds ago; otherwise the cutoff is 86400 seconds behind the cursor |
| WatchRuns.WeekOldIsRebuilt | backend/services/media_watch_snapshot_cache.py:301-476 | a week after the last rebuild, or in another format, a refresh stores exactly the rebuild and remembers its time |
| WatchRuns.WithinTheWeekIsIncremental | backend/services/media_watch_snapshot_cache.py:320-343 | within the week a refresh fetches exactly what is at most a day older than the cursor and leaves format and rebuild time alone |
| WatchRuns.AboutOneKeyIff | backend/services/media_watch_snapshot_cache.py:114-139 | two viewings are about one key exactly when they are of one title and one user by a name that is not blank |
| WatchSnapshot.MergeHistory | backend/services/plex.py:1815-1867 | the client's loop keeps one snapshot per title, spelled user and episode, in order of first appearance, with the latest time |
| WatchSnapshot.ViewingIsCovered | backend/services/plex.py:1815-1867 | every viewing with a subject is represented by a snapshot of that subject at least as late |
| WatchRuns.TableIsBuildOfFetched | backend/services/media_watch_snapshot_cache.py:301-476 | whatever the server shows and when, the table is built from all snapshots fetched since the last full rebuild |
| WatchRuns.IncrementalMatchesIff | backend/services/media_watch_snapshot_cache.py:320-343 | an incremental refresh stores the times of a rebuild if and only if every viewing behind its cutoff is stored already or overtaken by a fetched one |
| WatchRuns.MatchesThroughoutIff | backend/services/media_watch_snapshot_cache.py:301-476 | over any run of a growing history the times are at every visit those of a rebuild if and only if no incremental pass misses anything |
| WatchRuns.TwoDaysLateIsMissed | backend/services/media_watch_snapshot_cache.py:320-329 | a concrete viewing, late by more than the overlap, that an incremental pass misses |
| WatchRuns.RunMatchesRebuild | backend/services/media_watch_snapshot_cache.py:301-476 | over any run, stored times equal those of a rebuild from everything visible, as long as since some full rebuild the history has grown by news at most a day older than the cursor |
| WatchRuns.SteadyRunMatchesRebuild | backend/services/media_watch_snapshot_cache.py:301-476 | the same for a store never filled in the current format, from its first visit on |
| WatchSpelling.TableIsRebuild | backend/services/media_watch_snapshot_cache.py:301-476 | over any run that misses nothing, in every order of listing, the whole table equals the rebuild when viewings of one key at one second spell the user alike |
| WatchSpelling.TableIsRebuildIff | backend/services/media_watch_snapshot_cache.py:424-435 | ties among a set of viewings are spelled alike if and only if every run that shows nothing else stores what a rebuild would |
| WatchSpelling.OldSpellingOfATieStays | backend/services/media_watch_snapshot_cache.py:424-435 | a concrete tie whose stored spelling is not the rebuilt one |
| WatchSpelling.RebuildIsFirst | backend/services/plex.py:1593-1597 | when the newest comes first, a rebuild stores what the viewing listed first for a key says |
| WatchSpelling.SpellingIsOfTheFirstToShow | backend/services/media_watch_snapshot_cache.py:301-476 | when the newest comes first, a stored row is what the viewing listed first for its key said at the first visit, since the last full rebuild, that showed the key's latest time |
| WatchRuns.CursorNeverGoesBack | backend/services/media_watch_snapshot_cache.py:336-343 | over any run the cursor never decreases or disappears |
| WatchRuns.CursorReachesTheLatest | backend/services/media_watch_snapshot_cache.py:336-343 | whatever the cache held, after a refresh the cursor is at or past every visible viewing |
| WatchRuns.CursorMovesToAViewing | backend/services/media_watch_snapshot_cache.py:336-343 | a cursor that moves, moves to the time of a visible viewing |
| RuleOperators.OppositesFailClosed | backend/core/rule_engine.py:2396-2549 | a negated operator is the complement of its positive form on exactly the data that decides the condition, and both fail on all other data |
| RuleMeaning.NothingMatches | backend/core/rule_engine.py:2396-2401 | unavailable data and unknown operators match nothing |
| RuleMeaning.TruthOperators | backend/core/rule_engine.py:2410-2413 | is_true accepts exactly True, is_false exactly False |
| RuleMeaning.PresenceOperators | backend/core/rule_engine.py:2402-2409 | exists asks for a readable language on language fields and for content, however deep in lists, elsewhere; not_exists is its complement |
| RuleMeaning.ExistsIff | backend/core/rule_engine.py:2678-2686 | a value exists exactly when some path through its nested lists ends at something neither missing nor blank |
| RuleMeaning.ListOperators | backend/core/rule_engine.py:2479-2549 | list operators fail without a readable expected entry (and, for languages and countries, actual one); otherwise they ask for one answered expected entry, for none, for all or for not all, as does "equals" on the fields with several values |
| RuleMeaning.SubstringOperators | backend/core/rule_engine.py:2418-2424 | the substring operators fail without an expected text; otherwise some actual text contains some expected one, or none does |
| RuleMeaning.PatternOperator | backend/core/rule_engine.py:2594-2606 | some pattern that compiles is found in some actual entry that exists |
| RuleMeaning.DateOperators | backend/core/rule_engine.py:2428-2441 | the date operators fail unless both first entries are dates, and otherwise compare them by <, <=, >, >= |
| RuleMeaning.EqualityOperators | backend/core/rule_engine.py:2443-2462 | "equals" on a field with one value: a path at or below the expected one, else the same number, else the same text; both sides must be there |
| RuleMeaning.NumberOperators | backend/core/rule_engine.py:2464-2475 | the number operators fail unless both first entries are numbers, and otherwise compare them by >, >=, <, <= |
| RuleEngine.EvaluateNode | backend/core/rule_engine.py:2333-2373 | the mutating evaluator answers the pure meaning of the tree (all children of an `and`, one of an `or`) and, on success, appends exactly the in-order reasons of the matching conditions to what was collected before |
| RuleEngine.GroupHoldsIff | backend/core/rule_engine.py:2342-2368 | a non-empty `and` group of objects holds exactly when every child holds, an `or` group exactly when some child holds |
| RuleEngine.HoldsIsTheAnswer | backend/core/rule_engine.py:2333-2393 | one level down the answer is fixed: `and` is all, `or` is one, a condition is its test on the value of its field, malformed groups and foreign objects fail |
| RuleEngine.EvaluateOr | backend/core/rule_engine.py:2351-2363 | nothing from a failed branch, not even a half-evaluated and, reaches the caller's buffers, which are untouched when no branch matches |
| RuleEngine.EvaluateAnd | backend/core/rule_engine.py:2365-2368 | children write into the caller's buffers in order; on success these hold exactly the reports of all children |
| RuleEngine.EvaluateCondition | backend/core/rule_engine.py:2376-2393 | a condition reports its field, value and reason exactly when it matches |
| RuleEngine.MergeIsReport | backend/core/rule_engine.py:2358-2363 | merging what a branch matched is the same as having reported its reasons directly |
| RuleState.HoldsIsMonotone | backend/core/rule_engine.py:2333-2393 | rule trees have no negation: accepting more conditions never makes a matching tree fail |
| RuleState.GroupStateIff | backend/core/rule_engine.py:1457-1475 | `and` is False exactly when a child is False and True exactly when all are True; `or` is dual |
| RuleState.OtherStates | backend/core/rule_engine.py:1457-1487 | a condition is undetermined exactly when its value is unavailable; malformed groups and foreign objects are False |
| RuleState.StateFromExtremes | backend/core/rule_engine.py:1452-1487 | the three-valued state is determined by setting all unavailable leaves false, then all true |
| RuleState.StateIsExact | backend/core/rule_engine.py:1452-1487 | undetermined exactly when two guesses about the unavailable leaves disagree; True or False exactly when every guess agrees on it |
| RuleState.HoldsIffStateIsTrue | backend/core/rule_engine.py:1452-1487 | the two evaluators agree: one matches exactly when the other says True |
| RuleState.EvaluatorsAgree | backend/core/rule_engine.py:1452-1487 | with the operators of the rule engine both evaluators agree on every rule |
| RuleState.OperatorStateIsFinal | backend/core/rule_engine.py:1452-1487 | with the operators of the rule engine a definite state survives every later value |
| RuleState.DefiniteStateIsFinal | backend/core/rule_engine.py:1452-1487 | a definite state never changes when unavailable fields are later filled with any values |
| RuleWitness.OnlyCollectedFieldsMatter | backend/core/rule_engine.py:1510-1526 | result, state and reasons depend only on fields the collector yields, malformed trees included |
| RuleWitness.CollectedIff | backend/core/rule_engine.py:1510-1526 | exactly the conditions some path through lists of children leads to are collected |
| RuleWitness.UsesDiskFieldsIff | backend/core/rule_engine.py:1490-1495 | the disk is looked up exactly for rules with a condition on disk.free_bytes or disk.free_percent somewhere in them |
| RuleWitness.ContextFields | backend/core/rule_engine.py:1770-1773 | the two disk fields hold what the lookup found, or nothing, and every other field is the item's own |
| RuleWitness.FilteredCollection | backend/core/rule_engine.py:1510-1526 | collecting for one field yields exactly the collected conditions on that field |
| RuleWitness.SkippingDiskIsInvisible | backend/core/rule_engine.py:1490-1495 | not looking up disk statistics when no disk field is used never changes an outcome |
| RuleWitness.EvaluateAdvancedRule | backend/core/rule_engine.py:1393-1420 | result, matched and reasons are those of an evaluation that always looked the disk up; on failure both are empty |
| RuleWitness.MatchedByFields | backend/core/rule_engine.py:2383-2393 | the matched map has exactly the fields of the reported reasons |
| RuleWitness.MatchedQuotesContext | backend/core/rule_engine.py:2383-2393 | every matched value is the context's, nothing for an absent field, a point in time as text in ISO format |
| RuleWitness.MatchedIsSubMapIff | backend/core/rule_engine.py:2376-2393 | for a matching rule, matched is a sub-map of the context exactly when no condition reached through matching nodes is on an absent field or a point in time |
| RuleWitness.CollectedFieldsAsIsSuffice | backend/core/rule_engine.py:2376-2393 | matched is a sub-map whenever every collected field is present and no point in time |
| RuleWitness.AbsentFieldIsReported | backend/core/rule_engine.py:2376-2393 | a concrete rule, "does not exist" on an absent field, whose matched map is no sub-map |
| RuleWitness.MatchedIsSufficient | backend/core/rule_engine.py:1416-1420 | any context that agrees on the matched fields alone makes the rule match too, for at least the same reasons |
| RuleWitness.ReasonsAreLivePaths | backend/core/rule_engine.py:2342-2373 | exactly the conditions reachable through matching nodes are reported |
| RuleWitness.ReasonsFollowCollectionOrder | backend/core/rule_engine.py:2342-2393 | reasons come in the order in which the collector meets the conditions |
| StableSort.SortIsStable | backend/core/rule_engine.py:807-812 | sorting by length keeps, for every length, the entries of that length in their original order |
| DiskStats.FirstReportedAnswers | backend/core/rule_engine.py:807-853 | of several entries of one length that contain a path, the one reported first answers |
| DiskStats.DiskStatsResolver.Resolve | backend/core/rule_engine.py:824-835 | the cached answer always equals the uncached one, and the cache gains exactly that answer |
| DiskStats.DiskStatsResolver.ResolveArr | backend/core/rule_engine.py:837-853 | the first covering entry answers, a whole-component prefix of the path including the "/" case |
| DiskStats.DiskStatsResolver.ResolveLocal | backend/core/rule_engine.py:855-874 | the first applicable mapping translates the path before the disk is asked |
| DiskStats.MountAnswers | backend/core/rule_engine.py:824-853 | the first mount the path lies under answers, backslashes and trailing slashes aside, with its free space and that as a percentage of its total |
| DiskStats.DiskAnswers | backend/core/rule_engine.py:824-874 | only under no mount is the disk asked, where the first applicable mapping puts the path, and its answer stands |
| DiskStats.LongestAnswersIff | backend/core/rule_engine.py:837-853 | the longest mount containing each path answers for every path exactly when no mount is walked before one nested in it |
| DiskStats.OneSlashMeansLongestAnswers | backend/core/rule_engine.py:807-853 | with at most one trailing slash per entry the longest mount always answers |
| DiskStats.ManySlashesCanPickTheOuterMount | backend/core/rule_engine.py:807-853 | a concrete pair of entries where an outer mount with many slashes answers instead |
| DiskStats.LongestMappingTranslates | backend/core/rule_engine.py:807-866 | the mapping used has the longest source prefix among those that apply; with none the path is unchanged |
| RateLimiter.DropExpiredIsSuffix | backend/core/tmdb.py:70-75 | purging keeps a suffix and drops only entries at least a second old |
| RateLimiter.NeverEvictsSilently | backend/core/tmdb.py:29-32 | the append never finds the deque full, so its maxlen never drops an entry |
| RateLimiter.CallKeepsConsistent | backend/core/tmdb.py:66-85 | granted or cancelled, a call keeps the deque a suffix of the sorted history that has forgotten only entries a second old |
| RateLimiter.RateBound | backend/core/tmdb.py:66-85 | over every run of any length the (n+50)th grant is a second after the nth, and no half-open second holds more than 50 grants |
| RateLimiter.SleepsExactlyWhenNeeded | backend/core/tmdb.py:66-85 | a call sleeps exactly when the fiftieth latest grant is less than a second old, until just then |
| RateLimiter.AsyncTMDBClient.WaitForRateLimit | backend/core/tmdb.py:66-85 | the imperative loop performs exactly the specified call and keeps the invariant |
| Usernames.CandidatesDiffer | backend/services/media_auth.py:199-207 | candidates with different suffixes stay different after truncation and normalisation |
| Usernames.TakenAtMostUsed | backend/services/media_auth.py:199-207 | the used names can take at most as many candidates in a row as there are used names |
| Usernames.FirstFree | backend/services/media_auth.py:199-207 | the search ends at a suffix of at most one more than the number of used names, the first free one |
| Usernames.SafeUniqueUsername | backend/services/media_auth.py:199-207 | the loop terminates with the sanitised name or the first free candidate |
| Usernames.SanitizeLength | backend/services/media_auth.py:191-196 | a sanitised name has 5 to 32 characters |
| Usernames.SanitizeMeans | backend/services/media_auth.py:191-196 | other characters become "_", both ends lose their "_" and "-", nothing left becomes "media_user", a short name gains "_user", and a long one is cut at 32 |
| Usernames.FreeValidNameIsKept | backend/services/media_auth.py:191-207 | a free name the validator accepts, with no "_" or "-" at its ends, is kept as it is |
| Usernames.TakenNameIsNumbered | backend/services/media_auth.py:199-207 | a taken name keeps as much as leaves room for "_" and the first free number |
| Usernames.DigitsSpellNumber | backend/services/media_auth.py:204-206 | suffixes are decimal, without leading zeros |
| Usernames.CandidateIsValidIff | backend/services/media_auth.py:204-206 | a candidate is valid exactly up to 31 suffix digits and when the characters kept of its base are |
| Usernames.UniqueUsernameIsValid | backend/models/auth.py:19-39 | for input with ASCII alphanumerics the chosen name passes the account username validator |
| Usernames.UniqueUsernameIsValidIff | backend/models/auth.py:19-39 | the chosen name passes the validator exactly when the characters it keeps of the name asked for are letters, digits, underscores and hyphens of ASCII |
| Usernames.LetterBeyondAsciiIsRejected | backend/services/media_auth.py:191-207 | a concrete name whose local username the validator rejects |
| Usernames.AsciiNormalizeKeepsSuffix | backend/services/media_auth.py:47-48 | stripping and lower-casing never touch a numeric suffix |
| MediaAuth.AccountTables.UpsertMediaIdentity | backend/services/media_auth.py:740-789 | inserts or updates the row of one key; the link is kept when it is to be preserved, the link time is set once |
| MediaAuth.UpsertTouchesOneKey | backend/services/media_auth.py:740-789 | keys stay unique, the key's link is the requested or preserved one, and every other key's row is unchanged |
| MediaAuth.UpsertedRow | backend/services/media_auth.py:740-789 | the row of the key has the name, address and time of the login, the link asked for or preserved, and the time of its first link |
| MediaAuth.AccountTables.ResolveOrCreateUserForIdentity | backend/services/media_auth.py:821-960 | resolves by link, then address, then name, else creates an account, changing the tables as specified |
| MediaAuth.UnlinkedLogin | backend/services/media_auth.py:850-928 | without a live link, one user with the address is signed in and linked, several make a conflict of exactly those; only when nobody has it, the same holds for the name; an account is created exactly when nobody has either |
| MediaAuth.LinkedLogin | backend/services/media_auth.py:830-849 | a row that links the identity to an existing user decides alone |
| MediaAuth.AliceIsFoundByName | backend/services/media_auth.py:890-908 | a user without an address is found by name and no second account is created |
| MediaAuth.AskedName | backend/services/media_auth.py:933-935 | a new name is asked for by the part of the address before the first "@", else by the reported name |
| MediaAuth.CreatedName | backend/services/media_auth.py:929-960 | the new account has the name chosen from the asked one among the names in use, and the reported address |
| MediaAuth.LinkedLoginIsStable | backend/services/media_auth.py:830-849 | a linked identity signs its user in, stays linked and changes no user |
| MediaAuth.ConflictLeavesLinks | backend/services/media_auth.py:850-928 | a conflict names several users and changes no user and no link |
| MediaAuth.CreatedAccountIsNew | backend/services/media_auth.py:929-960 | a new account's name differs from all others in any case, other accounts are untouched, and its address is shared only if it is present but empty, which normalised addresses never are |
| MediaAuth.CreatedAddressIsNew | backend/services/media_auth.py:850-889 | a new account's normalised ASCII address is nobody else's, in any case |
| MediaAuth.RunKeepsConsistent | backend/services/media_auth.py:740-960 | over any run there is at most one row per service, configuration and source user, and links lead to users |
| MediaAuth.LinkedIdentityAlwaysSignsIn | backend/services/media_auth.py:821-960 | until the user is deleted or an administrator relinks it, every later login with a linked identity returns that user |
| Pagination.GetPaginatedItems | backend/services/emby_base.py:312-354 | the loop returns the objects of the list up to where it stops |
| Pagination.ReadsAllIff | backend/services/emby_base.py:328-352 | the whole list is read exactly when no page on the way stops the loop early |
| Pagination.DependableServersAreReadWhole | backend/services/emby_base.py:312-354 | from a server with non-empty pages and a true total, or full pages, every object is returned once and in order |
| Collections.ChunksPartition | backend/services/emby_base.py:406-409 | batches hold exactly 100 ids, the last one 1 to 100, and together are the list, each id in one place |
| Collections.FindCollectionIdsByTitle | backend/services/emby_base.py:356-373 | exactly the collections whose name is the title up to blanks and ASCII case, in listing order, read through the page loop |
| Collections.SameTitleIff | backend/services/emby_base.py:365-369 | two names are one title exactly when they are blanks, a core and blanks, and the cores agree character by character up to ASCII case |
| AsciiText.StripFindsCore | backend/services/emby_base.py:256-260 | stripping finds the core of every text, which neither begins nor ends with a blank |
| AsciiText.LowerIs | backend/services/emby_base.py:365-366 | lower-casing gives exactly the text without capitals that agrees up to case |
| Collections.NormalizedIff | backend/services/emby_base.py:256-260 | what is expected are the non-empty cores of the expected ids |
| Collections.FirstTitledIsListedFirst | backend/services/emby_base.py:283-283 | the collection kept is the first one listed under the title |
| Collections.GetCollectionItemIds | backend/services/emby_base.py:375-391 | the members of the given kinds |
| Collections.FilterExistingCollectionItemIds | backend/services/emby_base.py:393-443 | exactly the ids that exist with an allowed kind, asked in batches that name each id once; it succeeds exactly when every request is answered |
| Collections.CreateCollection | backend/services/emby_base.py:476-541 | the new collection holds all ids whatever the number of batches and whether or not its id was returned; its first batch creates it, the others are added, each id once; it succeeds exactly when every request is answered, and otherwise the collection holds a part of the ids or does not exist |
| Collections.AddItemsToCollection | backend/services/emby_base.py:543-574 | adds exactly the ids, in batches that name each id once, and succeeds exactly when every request is answered; otherwise exactly the reported part is added |
| Collections.RemoveItemsFromCollection | backend/services/emby_base.py:576-651 | removes exactly the ids, also through the fallback endpoint, in batches that name each id once, and succeeds exactly when every request is answered; otherwise exactly the reported part is removed |
| Collections.DeleteCollections | backend/services/emby_base.py:309-310 | deletes exactly the given collections and succeeds exactly when every request is answered; otherwise exactly the reported part is deleted |
| Collections.SyncLeavingSoonCollection | backend/services/emby_base.py:249-310 | a synchronisation completes exactly when each of its requests is answered, and then the server is in the specified world; finished or cut short, every collection of another title is as it was, none is made, and no vanished item is put into a collection of the title |
| CollectionSync.NothingExpectedLeavesNoCollection | backend/services/emby_base.py:265-268 | with nothing expected, exactly the collections of other titles remain, unchanged |
| CollectionSync.OtherTitlesAreUntouched | backend/services/emby_base.py:249-310 | every collection whose name is another title is as it was, and none is made |
| CollectionSync.AtMostOneIsLeft | backend/services/emby_base.py:249-310 | at most one collection of the title is left |
| CollectionSync.NoneIsLeftForBlanks | backend/services/emby_base.py:256-268 | none is left when only blank ids are expected |
| CollectionSync.FavouritesSurvive | backend/services/emby_base.py:265-268 | with nothing expected "Leaving Soon" goes and "Favourites" stays with its item |
| CollectionSync.CreatedExactlyWhenSomethingExists | backend/services/emby_base.py:270-283 | without a prior collection one is created exactly when an expected item exists, holding those that do |
| CollectionSync.FirstCollectionSurvivesAlone | backend/services/emby_base.py:284-310 | the first collection of the title survives alone and all other titles are untouched |
| CollectionSync.ReconciledMembers | backend/services/emby_base.py:286-307 | afterwards the kept collection holds the expected items it held and the expected items that exist |
| CollectionSync.SurvivorHoldsExpectedIff | backend/services/emby_base.py:286-307 | it holds exactly the expected items that exist if and only if the expected items it already held all exist; items of other kinds stay |
| CollectionSync.AVanishedItemStays | backend/services/emby_base.py:286-307 | a concrete world where a vanished expected item stays |
| CollectionSync.CompletedSyncConverges | backend/services/emby_base.py:249-310 | however many attempts were cut short before, the one that completes leaves other titles alone and either no collection of the title or exactly one, holding exactly the expected items that exist |
| CollectionSync.AttemptsKeep | backend/services/emby_base.py:249-310 | any number of finished or unfinished attempts keep together what each keeps |
| CollectionSync.SyncIsIdempotent | backend/services/emby_base.py:249-310 | a second synchronisation changes nothing, for every world and expected set |
| FileOpJob.CandidateFileOpJob.PersistProgress | backend/jobs/candidate_file_ops.py:194-211 | one progress write, lost or stored, with its fault |
| FileOpJob.CandidateFileOpJob.FinalizeDeleteRequestJob | backend/jobs/candidate_file_ops.py:73-135 | commits the outcome of a request as a whole or not at all |
| FileOpJob.CandidateFileOpJob.ProcessCandidates | backend/jobs/candidate_file_ops.py:213-254 | counters and progress at the end of the loop or at the fault that ended it |
| FileOpJob.CandidateFileOpJob.RunCandidateFileOpJob | backend/jobs/candidate_file_ops.py:180-286 | a whole run ends in the specified counters, progress, rows and result under every combination of faults |
| FileOpJob.ExecutedExactlyWhenAllSucceeded | backend/jobs/candidate_file_ops.py:255-286 | a request is marked executed exactly when there was a candidate, every operation finished without failure, the loop's last write was not cancelled, the write outside the loop succeeded and finalising committed |
| FileOpJob.DeletingIgnoresMoves | backend/jobs/candidate_file_ops.py:225-234 | a delete job runs the same whatever moving would have done |
| FileOpJob.MovingIgnoresDeletes | backend/jobs/candidate_file_ops.py:225-234 | a move job runs the same whatever deleting would have done |
| FileOpJob.DeleteExecutedExactly | backend/jobs/candidate_file_ops.py:225-286 | a delete request is marked executed exactly when every deletion finished without failure and no write got in the way |
| FileOpJob.MoveExecutedExactly | backend/jobs/candidate_file_ops.py:225-286 | the same for moves |
| FileOpJob.UnsupportedNeverExecutes | backend/jobs/candidate_file_ops.py:235-238 | an unsupported operation on some candidate never executes a request and never returns |
| FileOpJob.ExecutedYetRaisedIff | backend/jobs/candidate_file_ops.py:213-286 | a request is executed by a job that raises exactly when all of the above holds and either the loop's last write failed with an error or finalising raised after committing |
| FileOpJob.ExecutedThoughLastWriteFails | backend/jobs/candidate_file_ops.py:249-270 | a concrete run of one candidate that is executed and raises |
| FileOpJob.OutcomeIsAllOrNothing | backend/jobs/candidate_file_ops.py:96-111 | the rows end unchanged, or executed with no error, or with a non-empty error and the first candidate gone |
| FileOpJob.ReturnedCountersMatchTheRequest | backend/jobs/candidate_file_ops.py:268-286 | a job that returns has counted every candidate, shows 100 percent, and its failure count says what was recorded |
| FileOpJob.ReturnedCountersAreSums | backend/jobs/candidate_file_ops.py:240-246 | the counters returned are the sums over the candidates, one already gone counting as a success |
| FileOpJob.RunRecordsError | backend/jobs/candidate_file_ops.py:96-111 | a job neither cancelled nor executed records the summary of the candidate's own error, else of the fault, else a stock text, and never an empty one |
| FileOpJob.PercentIsRoundedDown | backend/jobs/candidate_file_ops.py:194-211 | percentages are rounded down, and an empty job is complete |
| FileOpJob.ProgressNeverGoesBack | backend/jobs/candidate_file_ops.py:194-211 | percentages shown stay in 0..100, never decrease, and for a non-empty job are 100 only with all items completed |
| AutoDelete.ResolveAutoDeletePolicy | backend/core/auto_delete.py:34-66 | the policy follows from the longest delay among the matching rules, or the clamped global one |
| AutoDelete.LongestDelayIsMaximum | backend/core/auto_delete.py:46-60 | the delay is asked for by some matching rule and exceeded by none |
| AutoDelete.DelayIsInRange | backend/core/auto_delete.py:26-60 | the delay stays in 0..3650 days |
| AutoDelete.RuleDelayIff | backend/core/auto_delete.py:26-56 | a rule asks for its own delay exactly when its action holds a whole number of 0..3650 days, and inherits otherwise |
| AutoDelete.DeadlineIff | backend/core/auto_delete.py:58-66 | the deadline is the creation time plus the delay, and a candidate is eligible exactly from then on |
| AutoDelete.MoreRulesNeverShorten | backend/core/auto_delete.py:46-60 | more matching rules never shorten the delay |
| AutoDelete.AddingRuleMovesDeadlineEarlierIff | backend/core/auto_delete.py:46-66 | adding a rule moves the deadline earlier exactly when nothing matched before and its delay undercuts the global one |
| AutoDelete.FirstRuleCanMakeItDue | backend/core/auto_delete.py:46-66 | a concrete candidate that becomes due when its first rule matches |
| DecisionEngine.Evaluate | backend/services/decision_engine.py:204-273 | the state, remaining seconds and progress of every combination of signals |
| DecisionEngine.StateIff | backend/services/decision_engine.py:204-273 | exactly when each state is shown: protection first, then pending requests, then the deadline of a candidate, candidates below it, size, views and the last fourteen days |
| DecisionEngine.RemainingIff | backend/services/decision_engine.py:248-269 | seconds are shown exactly while a candidate waits for its deadline, rounded down; progress needs a creation time and a delay |
| DecisionEngine.ProgressIff | backend/services/decision_engine.py:248-269 | progress is the share of the delay gone by, in percent rounded down, 0 before the creation time and 100 when it is over |
| DecisionEngine.DecisionAgreesWithPolicy | backend/services/decision_engine.py:248-273 | for an unprotected candidate without pending requests the state is safe_to_delete exactly when the policy is eligible, else waiting |
| DecisionEngine.SafeNeverReverts | backend/services/decision_engine.py:248-273 | once safe to delete, safe at every later time |
| DecisionEngine.WaitingAccountsForTheDelay | backend/services/decision_engine.py:248-269 | while waiting, elapsed and remaining seconds add up to the delay or one less, and progress is the exact percentage rounded down, 0 to 99 |
| Favorites.BuildFavoriteRows | backend/services/media_favorites_cache.py:727-750 | one row per title of one user, with distinct keys; none for a blank name |
| Favorites.CollectWatchlists | backend/services/media_favorites_cache.py:409-457 | the fresh rows, the failed names and the number of successes over all linked users |
| Favorites.LinkedIff | backend/services/media_favorites_cache.py:380-392 | exactly the identities of the server with a user and a token take part |
| Favorites.TokenIff | backend/services/media_favorites_cache.py:418-427 | the token is the stored text between the blanks, decrypted when it can be, and stripped again |
| Favorites.NamesMeetIff | backend/services/media_favorites_cache.py:412-415 | two users share a normalised name exactly when their names agree up to blanks and ASCII case |
| Favorites.WatchlistRowsIff | backend/services/media_favorites_cache.py:438-456 | the rows of a fetched watchlist are its movies as movies and its series as series, under the user's name |
| Favorites.FavoritesTable.KeepStaleAndReplace | backend/services/media_favorites_cache.py:479-520 | fresh rows and the stale rows of failed users replace the server's rows, or nothing changes |
| Favorites.FavoritesTable.RefreshPlexWatchlistSnapshotForConfig | backend/services/media_favorites_cache.py:373-520 | the whole refresh leaves the specified table and answer |
| Favorites.NobodyEligibleClears | backend/services/media_favorites_cache.py:459-477 | with no success, failures leave everything alone, and no usable identity clears the server's rows |
| Favorites.RefreshTreatsEveryUserAlone | backend/services/media_favorites_cache.py:409-520 | with distinct names the table afterwards holds exactly other servers' rows, failed users' old rows and fetched watchlists, and the refresh never fails |
| Favorites.EachUserKeepsOrIsReplaced | backend/services/media_favorites_cache.py:409-520 | each failed user keeps exactly the old rows, each other user has exactly the fresh watchlist |
| Favorites.RefreshKeepsTheTableSound | backend/services/media_favorites_cache.py:409-520 | every refresh keeps the unique constraint and other servers' rows, and changes nothing unless it succeeds |
| Favorites.RefreshFailsIff | backend/services/media_favorites_cache.py:409-520 | the refresh violates the unique constraint exactly when two users bring one title under one normalised name, or one brings a title a failed user had under that name |
| Favorites.SharedNameAndMovieFail | backend/services/media_favorites_cache.py:702-703 | two users with one normalised name and a common movie make the refresh fail |
| Favorites.AnnTwiceFails | backend/services/media_favorites_cache.py:702-703 | a concrete pair of linked users that makes every refresh fail |

## Left out

- JobQueue.JobTable.EnqueueBackgroundJob: one atomic step; that its check and its insert are atomic in SQLite is assumed, not proved.
- Queue: complete and fail either commit or have no effect. Weekly trimming, error texts and timestamps other than the scheduled time are not modelled.
- Worker loop: stored poll settings are taken as the validated non-negative numbers they are; the sixty-second refresh timer is the caller's choice of when to call `RefreshPollSettings`.
- Watch snapshot: the Plex client's own history cache and partial page failures, episode rows, and the rows of other servers. A fetch is all visible history from the cutoff on.
- WatchRuns.RunMatchesRebuild: speaks of last-watched times only; `WatchSpelling.TableIsRebuildIff` says exactly when the rest of a row agrees as well.
- WatchSpelling.SpellingIsOfTheFirstToShow: supposes that every key's newest viewing is listed first; a title that lies in several library sections is listed section by section, and need not be.
- Watch snapshot: a viewing's spelling is fixed; a renamed Plex user re-spells old history.
- MediaAuth.CreatedAddressIsNew: is about ASCII addresses; the `lower` of SQLite leaves other letters alone where Python's does not, so an address with one can collide.
- Rules: string normalisers, number and date parsing, regular expressions, labels of reasons and the copying of fields into a context are parameters. Numbers are exact and NaN is left out. Validation and normalisation of stored definitions is not modelled.
- DiskStats.DiskStatsResolver.Resolve: the operating system's answers do not change during a scan; percentages are exact.
- Rate limiter: clock readings are exact and do not run backwards, and a sleep lasts at least as long as asked. The fairness of the lock is not modelled.
- Usernames and accounts: normalisation is ASCII; an address that is present but empty cannot come from the callers (`backend/services/media_auth.py:372`), but the model lets it in; which other characters count as alphanumeric is a parameter. Tokens, notices, display names, default pages and disabled accounts' later rejection are left out.
- Collections.SyncLeavingSoonCollection: lists come from a server that is dependable in the sense of `Pagination.Dependable`, and reading one is a single request that succeeds as a whole or fails. The library does not change during a run. The order of ids inside a request, ids with surrounding blanks and blank ids on the server, and pruning of single items are left out.
- Collections: titles are compared with ASCII stripping and lower-casing.
- File operations: what deleting or moving a candidate does is an oracle; labels, notifications and the media lookup are left out, and percentages are exact.
- Decisions: explanations, badges, timelines and labels are left out; durations and the progress quotient are exact, where the code computes them in floating point.
- Favorites.BuildFavoriteRows: takes one name with its titles, as the Plex refresh calls it, not a dictionary of several names.
- Favourites: the watchlist client and token decryption are oracles; Emby and Jellyfin favourites are left out.
- Torrent correlation, codec tables, artwork, dashboards, HTTP clients, authentication tokens, encryption and the desktop shell: input and output, or shallow branching.
- `derive_path_scope_library_ids`: it ignores the shape of the tree, so no general soundness claim holds of it.
