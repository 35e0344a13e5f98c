# Skill-memory service: verified models

The service keeps a corpus of skill files. On the write side a watcher diffs snapshots of
the skill directories, the graph-builder rebuilds and publishes versions, and maintenance
passes propose merges and promotions. On the read side searches are ranked and fused,
answers are cached per session, and the served graph is refreshed live. The modules here
model the logic of the parts where a mistake is hard to see, and prove what each is for.

| module | models |
|---|---|
| `UnionFind`, `RecurrenceClusters` | cross-project recurrence clustering: the disjoint-set forest, the all-pairs loop, the pass around it |
| `SkillFiles`, `SnapshotDiff`, `DiffAccounting` | what a snapshot diff is and what it promises |
| `SkillWatcher`, `WatcherRecovery` | the diff loops over hash maps, the watcher, the recovery window, the change list of a cycle |
| `GraphRefresh`, `GraphConvergence`, `GraphOutbox`, `GraphLoops`, `GraphBatches` | the publish / reload / acknowledge protocol between graph-builder and mcp-server, with crashes and failures |
| `RebuildJobs` | the admin rebuild queue with its single runner |
| `RedisGlob`, `SessionKeys`, `SessionIndex`, `SessionOverlap`, `SessionCalls`, `ContextCache`, `SuppressionState` | the two per-session stores, their index, keys and delete patterns |
| `Mmr`, `RankFusion`, `TopEvidence`, `ScopeSearch` | marginal-relevance selection, reciprocal rank fusion, subunit evidence, one scope's search |
| `Slugs`, `MergeDigest`, `Resilience` | proposal directory names, the merge digest, circuit breaker and retry |
| `Wrappers`, `Sorting`, `Filtering`, `Texts`, `Scopes` | shared helpers: options and results, the stable sort, filtering and permutations, joining and splitting texts, the scope types |

Where the program updates state in place the model does too: `find` rewrites an array,
queues, caches, breaker and watcher are classes over their own fields, and each method is
proved against a function of its inputs or of the old state. The interleaved parts
(`GraphRefresh`, `RebuildJobs`, `SessionIndex`) are state machines over atomic steps, with
invariants over every run. The program's own code is then shown to take the machine's steps:
the drain and acknowledgement loops those of `GraphRefresh`, the critical sections of the
queue those of `RebuildJobs`, and recording and clearing in both session stores those of
`SessionIndex`, whose theorems are stated again for the stores' real keys.

Embeddings, cosine similarity, the language-model verdict, prompt hashes, publish outcomes
and the clock are parameters. Scores are reals, versions and counters unbounded.

## Where the code and its promises part

Each promise below fails somewhere. For each there is a proof of when it holds, over all
inputs or runs, and of what happens otherwise.

- **Nested scope roots.** `scope_for_path` returns the first matching root of a hash map that is
  built anew for every diff. A path's scope is independent of that map's order exactly when all
  scopes containing it agree (`DiffAccounting.ScopeIsStableIffUnambiguous`), and the diff is
  exactly when that holds of every path it reports (`DiffAccounting.DiffIsStableIffUnambiguous`).
  The builder's default roots nest (crates/graph-builder/src/main.rs:30-48), so they do not qualify
  (`DiffAccounting.NestedRootsAreOrderDependent`). The order can only relabel changes
  (`DiffAccounting.IndexOrderOnlyRelabels`). A change outside every scope is dropped, and only
  that is (`DiffAccounting.DiffIsCompleteIffCovered`).
- **Recovery.** `reconcile` is given the snapshots the first scan of the same cycle has just
  compared, so it reports no file that scan missed (`WatcherRecovery.RecoveryAddsNoNote`). Its
  changes are changes of the scan exactly when the paths it reports are unambiguous; otherwise it
  can report one under another scope (`WatcherRecovery.RecoveryRepeatsScanIffUnambiguous`).
- **Index as a mirror.** The code comments call the session index a complete mirror. Every entry is
  listed once all calls have returned. In the other direction, whatever ids are in use, a listed key
  has no entry exactly when a write of it and a clear that removes it overlapped in one particular
  way (`SessionOverlap.StaleIffOverlap`), which does happen (`SessionOverlap.IndexMayListAbsentKeys`).
  While calls for one session keep apart, it happens exactly through a clear of another session
  that lists the same key (`SessionOverlap.SerialStaleIffShared`). Unchecked ids can bring that
  about (`SessionOverlap.SharedKeysNeedNoOverlap`); for keys that only their own session writes, as
  with accepted ids, the index is then a mirror (`SessionOverlap.SerialSessionsMirror`).
- **Separate sessions.** Without the id check two sessions can share a suppression record exactly
  when one id nests in the other (`SessionKeys.LocalKeysCollideIffIdsNest`), and a cache key exactly
  when one id continues the other with a colon and a prompt hash
  (`SessionKeys.CacheKeysCollideIffIdsContinue`). With it they share either only when they are the
  same (`SessionKeys.ValidIdsNeverCollide`, `SessionKeys.CacheKeyInjective`). Of that check the `::`
  test decides nothing the character test does not (`SessionKeys.SeparatorTestIsRedundant`).
- **Delete patterns.** The configured key prefix goes into the pattern unescaped. Whatever the
  session id holds, the pattern selects the right keys exactly when that prefix holds none of `*`,
  `?`, `[` and backslash (`SessionKeys.CachePatternIsExactIffPrefixPlain`,
  `SessionKeys.SuppressionPatternIsExactIffPrefixPlain`).
- **Scope fingerprint.** Splitting it at commas gives the scopes back exactly when no name holds a
  comma (`ContextCache.FingerprintDecodesIffCommaFree`), and comma-free lists share one exactly
  when they name the same scopes. Among all lists, exactly the single non-empty names that no
  comma splits into two names in order have a fingerprint of their own
  (`ContextCache.FingerprintIsOwnIff`).
- **Runner flag.** A non-empty queue has a runner unless one died. The flag stands without a runner
  exactly when a trigger has panicked (`RebuildJobs.AbandonedIffPanicked`), which one enqueue is
  enough to reach (`RebuildJobs.PanicIsReachable`); from then on nothing is popped and the job it
  happened to is reported running for good (`RebuildJobs.AbandonedForever`).
- **Fusion ties.** The fused order ignores ids. The result is independent of the hash map's order
  exactly when no candidate it shows ties with a later one
  (`RankFusion.ResultIsDeterminedIffUntied`).
- **Traceable directory names.** The names are meant to preserve source ids. An id can be read back
  exactly when it is a slug already (`Slugs.PromotionTracesIffSlug`,
  `Slugs.DemotionTracesIffSlug`, `Slugs.MergeTracesIffSlugs`), and two promotions share a
  directory exactly when their ids have the same runs of letters and digits
  (`Slugs.PromotionsCollideIffWordsAgree`).

## Model

| member | source | states |
|---|---|---|
| `UnionFind.Find` | crates/maintenance/src/promote.rs:917-923 | terminates on every array whose parent chains end, with no stored rank; rewrites the array while every index keeps its representative; returns the representative of its argument |
| `UnionFind.Union` | crates/maintenance/src/promote.rs:957-962 | merges exactly the two classes of its arguments and no other |
| `UnionFind.RootIsUnique` | crates/maintenance/src/promote.rs:917-923 | however many links are followed to reach a root, it is the same root |
| `UnionFind.RootedIsForest` | crates/maintenance/src/promote.rs:915-923 | every array whose chains end admits a rank that rises along links, so termination needs no stored rank |
| `UnionFind.ForestIsRooted` | crates/maintenance/src/promote.rs:915-923 | conversely such a certificate makes every chain end, at the certificate's representative |
| `UnionFind.HalvingKeepsForest` | crates/maintenance/src/promote.rs:919 | pointing an index at its grandparent keeps the representatives and makes progress |
| `UnionFind.LinkKeepsForest` | crates/maintenance/src/promote.rs:960-962 | hanging one root under another creates no cycle and redirects exactly one class |
| `RecurrenceClusters.MergeDescribes` | crates/maintenance/src/promote.rs:957-962 | if equal representatives mean connected by the links so far, they still do after a linked pair is merged |
| `RecurrenceClusters.ConsiderPair` | crates/maintenance/src/promote.rs:926-963 | one pair of the loop: skipped below the threshold, an error stops it, a positive verdict adds exactly that link |
| `RecurrenceClusters.UniteLinkedPairs` | crates/maintenance/src/promote.rs:925-965 | after all pairs, equal representatives mean connected by a chain of pairs whose similarity is at least the threshold and whose verdict is positive; otherwise the error of the first such pair whose verdict fails |
| `RecurrenceClusters.GroupByRoot` | crates/maintenance/src/promote.rs:967-975 | groups every index under its representative in ascending order, halving paths on the way without changing any class |
| `RecurrenceClusters.BuildRecurrenceClusters` | crates/maintenance/src/promote.rs:908-981 | two skills share a cluster if and only if a chain of pairs, each with similarity at least the threshold and a positive verdict, leads from one to the other; every index is in exactly one non-empty cluster; fails exactly when the verdict on a pair that similar fails, with the first such failure |
| `RecurrenceClusters.HigherThresholdRefines` | crates/maintenance/src/promote.rs:930-934 | under a higher threshold the links are among those of the lower one, and each cluster lies inside one of the lower one's |
| `RecurrenceClusters.EarlyReturnIsExact` | crates/maintenance/src/promote.rs:666-694 | when too few roots exist overall, no component could have qualified |
| `RecurrenceClusters.ProposeClusters` | crates/maintenance/src/promote.rs:741-780 | one proposal for each component spanning enough roots, with its smallest index and its own root count, and no other; fails exactly when one of these cannot be written |
| `RecurrenceClusters.ProposalsCoverComponents` | crates/maintenance/src/promote.rs:741-780 | every proposal counts at least the required number of project roots, and every skill that reaches that many through near-duplicates is covered by a proposal counting exactly those roots |
| `RecurrenceClusters.RunRecurrencePass` | crates/maintenance/src/promote.rs:634-783 | whenever the pass succeeds, early or not, its proposals are exactly the qualifying components; it succeeds exactly when nothing it needs fails, and otherwise reports the first store, embedding, verdict or write failure |
| `SkillFiles.RolesAreDisjoint` | crates/domain/src/lifecycle_files.rs:3-17 | no path is active, pending, rejected or retired in two ways, whatever the case of its letters |
| `SkillFiles.RoleIsCaseVariantOfName` | crates/domain/src/lifecycle_files.rs:3-17 | a file has a role exactly when its name is the role's file name with letters in either case; its directory plays no part |
| `SkillFiles.DisplayInjective` | crates/graph-builder/src/watcher.rs:376 | the displayed text of a path names one path only |
| `SkillFiles.KeyInjective` | crates/graph-builder/src/watcher.rs:376 | an idempotency key determines the path and the hash it was built from |
| `SnapshotDiff.PoolsAreConserved` | crates/graph-builder/src/watcher.rs:228-349 | removed files consumed by renames and removed files left over are together the removed files, none used twice |
| `SnapshotDiff.NotesAreTouched` | crates/graph-builder/src/watcher.rs:228-320 | the walk reports each added or rewritten file once, in order, with a kind and source that are true of it |
| `SnapshotDiff.RenamesArePairs` | crates/graph-builder/src/watcher.rs:231-284 | the rename reports are exactly the matched pairs |
| `SnapshotDiff.PairsAreSound` | crates/graph-builder/src/watcher.rs:450-488 | a rename joins a new file to a removed one of the same directory and content, pending to active or rejected, active to retired |
| `SnapshotDiff.GreedyReachesMinimum` | crates/graph-builder/src/watcher.rs:199-300 | per directory and content, from any pools: the walk pairs as many files as both sides hold, and leaves the rest in the pool |
| `SnapshotDiff.MatchingIsBounded` | crates/graph-builder/src/watcher.rs:466-488 | no way of pairing files can rename more than that minimum |
| `SnapshotDiff.GreedyIsMatching` | crates/graph-builder/src/watcher.rs:466-488 | the greedy walk pairs every new and every removed file at most once |
| `SnapshotDiff.GreedyIsOptimal` | crates/graph-builder/src/watcher.rs:199-300 | in every directory and for every content no other matching renames more files |
| `DiffAccounting.NotesAddUp` | crates/graph-builder/src/watcher.rs:183-353 | changes plus renames equal removed plus added plus rewritten files |
| `DiffAccounting.NotesAccount` | crates/graph-builder/src/watcher.rs:199-349 | an unchanged file is not reported, an added or rewritten one is, with kind and source; a removed one is reported deleted, from the approval queue if pending, or was consumed by a rename, never both; nothing else is reported |
| `DiffAccounting.DiffAccountsForEveryPath` | crates/graph-builder/src/watcher.rs:183-353 | with every file in some scope, all of this holds of the diff, one report per path |
| `DiffAccounting.SourceTellsApproval` | crates/graph-builder/src/watcher.rs:286-349 | a change of the diff, deletions included, comes from the approval queue exactly when its path is pending or it is an approved or rejected rename |
| `DiffAccounting.ChangesAreDressed` | crates/graph-builder/src/watcher.rs:355-380 | a change carries id and type of the first scope of the index whose root its path lies under, and the key made of its path and hash |
| `DiffAccounting.DiffIsCompleteIffCovered` | crates/graph-builder/src/watcher.rs:355-366 | the diff reports every change exactly when no changed file lies outside every scope; it drops precisely the others |
| `DiffAccounting.ReportedRenamesReachMinimum` | crates/graph-builder/src/watcher.rs:199-300 | in the diff itself, per directory and content whose current files lie in some scope: approved plus rejected renames number the minimum of removed pending and new active or rejected files, retired renames that of removed active and new retired ones |
| `DiffAccounting.KeysIdentifyChanges` | crates/graph-builder/src/watcher.rs:351 | two changes of one diff with the same key are the same change |
| `DiffAccounting.KeysAscendStrictly` | crates/graph-builder/src/watcher.rs:351-352 | idempotency keys of a diff are strictly ascending, hence distinct |
| `DiffAccounting.AnyOrderSortsToDiff` | crates/graph-builder/src/watcher.rs:322-352 | whatever order the hash maps yield their leftovers in, the sorted result is the same |
| `DiffAccounting.ScopeIsStableIffUnambiguous` | crates/graph-builder/src/watcher.rs:355-366 | a path's scope is independent of the scope index's order exactly when the scopes containing it agree |
| `DiffAccounting.IndexOrderOnlyRelabels` | crates/graph-builder/src/watcher.rs:188-196 | iterating the scope index in another order gives the same notes with the same keys; only labels can differ |
| `DiffAccounting.DiffIsStableIffUnambiguous` | crates/graph-builder/src/watcher.rs:188-196 | the diff does not depend on the scope index's order exactly when the scopes of every reported path agree |
| `DiffAccounting.NestedRootsAreOrderDependent` | crates/graph-builder/src/main.rs:30-48 | whenever the global root lies under the project root, as the defaults do, a new file there gets different changes under the two orders |
| `SkillWatcher.RemovedPaths.Push` | crates/graph-builder/src/watcher.rs:454-463 | files a removed path last under its content hash |
| `SkillWatcher.RemovedPaths.TakeForDirectory` | crates/graph-builder/src/watcher.rs:466-488 | takes out the first removed file of that content in the target's directory, or nothing and changes nothing; no empty entry stays behind |
| `SkillWatcher.CollectRemoved` | crates/graph-builder/src/watcher.rs:199-226 | sorts the removed files into pending, active and reported at once |
| `SkillWatcher.VisitEntry` | crates/graph-builder/src/watcher.rs:229-319 | one entry of the current snapshot does to the two maps and to the report what the specification's step does |
| `SkillWatcher.DrainDeleted` | crates/graph-builder/src/watcher.rs:322-349 | reports exactly the files still filed, each once, in whatever order the map yields them |
| `SkillWatcher.DiffSkillSnapshots` | crates/graph-builder/src/watcher.rs:183-353 | the loops over hash maps compute the specified diff |
| `SkillWatcher.Watcher.CollectFileChanges` | crates/graph-builder/src/watcher.rs:139-145 | reports the difference from the last scan, over a scope index built for this call, and moves both snapshots on |
| `WatcherRecovery.SightedIffLatest` | crates/graph-builder/src/watcher_recovery.rs:60-67 | a key is in the window exactly when its latest generation is |
| `WatcherRecovery.WindowSlides` | crates/graph-builder/src/watcher_recovery.rs:44-66 | stamping a generation's keys and evicting the stale ones leaves exactly the keys of the last window of generations, each at its latest |
| `WatcherRecovery.Recovery.Reconcile` | crates/graph-builder/src/watcher_recovery.rs:38-58 | returns a discovered change exactly when its key was discovered in none of the last window of generations, suppressed sightings included; afterwards the map holds exactly the keys of the window |
| `WatcherRecovery.RecoveryAddsNoNote` | crates/graph-builder/src/main.rs:221-230 | whatever orders the two scope indexes are iterated in, recovery reports no file and no key the scan missed |
| `WatcherRecovery.RecoveryRepeatsScanIffUnambiguous` | crates/graph-builder/src/main.rs:221-230 | recovered changes are changes of the scan, for all pairs of orders, exactly when the recovered paths are unambiguous |
| `WatcherRecovery.CollectCycleChanges` | crates/graph-builder/src/main.rs:221-234 | a cycle's change list is the scan followed by what the window had not sighted, each diff over an index of its own; it reports no file the scan does not, and no change either when its recovered paths are unambiguous |
| `GraphRefresh.StepKeepsInv` | crates/mcp-server/src/graph_refresh_subscriber.rs:122-199 | every step of either process, failed or not, keeps the protocol's invariant |
| `GraphRefresh.RunKeepsInv` | crates/mcp-server/src/graph_refresh_subscriber.rs:84-114 | so does every run from the start |
| `GraphRefresh.AckedMeansServed` | crates/mcp-server/src/graph_refresh_subscriber.rs:129-143 | in every run with crashes, failed reloads, lost replies and replays: an acknowledged rebuild of version v means the server serves at least v; the served version never passes the durable one and its rows are never older than its label |
| `GraphRefresh.ServedNeverDecreases` | crates/retrieval/src/orchestrator.rs:498-509 | within one server process neither the served version nor its rows ever go back, and a snapshot is replaced by one of a strictly later version only |
| `GraphRefresh.OutboxIsLossless` | crates/graph-builder/src/main.rs:83-122 | confirmed events followed by the buffer are everything pushed, in order, and the confirmed ones sit on the stream in that order; the high-water mark is 0 or a version on the stream |
| `GraphRefresh.ReplayCatchesUp` | crates/graph-builder/src/main.rs:151-199 | in every run, once the builder has read the durable version and its replays go through, the high-water mark is at or above that version from the end of the replay step on, and that mark is on the stream |
| `GraphRefresh.RestMeansConverged` | crates/mcp-server/src/lib.rs:757-776 | once the builder has caught up and the stream is acknowledged, the server serves exactly the durable version with its rows |
| `GraphOutbox.RebuildIsInOutbox` | crates/graph-builder/src/main.rs:407-453 | a rebuild that runs to its end is not left to the replay: unless the builder dies, the event naming the version Postgres then had is confirmed or waiting in the outbox from then on |
| `GraphOutbox.MarkWasConfirmed` | crates/graph-builder/src/main.rs:407-453 | unless 0, the high-water mark is a version whose publish was confirmed at some step; a publish whose reply is lost does not raise it |
| `GraphOutbox.ReplayIsNews` | crates/graph-builder/src/main.rs:407-453 | what a replay publishes is later than every version a drain of the same builder process has confirmed |
| `GraphConvergence.ErrorFreeRunConverges` | crates/graph-builder/src/main.rs:407-453 | from every reachable state some run without further errors leads there, without a restart: no state is stuck |
| `GraphConvergence.ReplayCheckComes` | crates/graph-builder/src/main.rs:407-453 | however it rebuilds and publishes, the builder is back at its replay check within a bound known at the start |
| `GraphConvergence.ServerStepsDecrease` | crates/mcp-server/src/graph_refresh_subscriber.rs:84-143 | every server step that goes well lowers a measure of the events outstanding and the steps left in the batch |
| `GraphConvergence.EveryServerRunConverges` | crates/mcp-server/src/graph_refresh_subscriber.rs:84-143 | once the builder has caught up, every run of the server without further errors is bounded, and where it can go no further it serves exactly the durable version with its rows |
| `GraphConvergence.EveryHealthyRunConverges` | crates/mcp-server/src/graph_refresh_subscriber.rs:84-143 | in every run without errors, the two processes and the world interleaving freely, the server's steps are bounded by what is outstanding and still to be published at the start and by the news since, and so are the events published; when all are published and the server can go no further, it serves exactly the durable version with its rows |
| `GraphConvergence.OneQuietCycleConverges` | crates/graph-builder/src/main.rs:407-453 | one pass of the builder from its replay check to the end of its drain, with no news since that check, publishes all there is: where the server can then go no further, it serves exactly the durable version |
| `GraphConvergence.PublishedEventsAreCounted` | crates/graph-builder/src/main.rs:407-453 | in a step that goes well, each event put on the stream is one fewer to publish, and only a rebuild or somebody else's event adds any |
| `GraphLoops.HighestVersionIsMaximal` | crates/graph-builder/src/main.rs:98-106 | the version the drain reports is that of some published rebuild event and no published one is higher |
| `GraphLoops.DrainPublishedEvents` | crates/graph-builder/src/main.rs:83-122 | publishes in order up to the first error and drops exactly the confirmed prefix, reporting the highest rebuild version in it; takes the machine through a whole drain |
| `GraphLoops.AckBatch` | crates/mcp-server/src/graph_refresh_subscriber.rs:129-143 | after a reload that succeeded, the ids acknowledged are exactly those with a successful call; after one that failed, exactly those with a successful call whose event is no rebuild; it takes the machine through the whole batch |
| `GraphBatches.BatchEnds` | crates/mcp-server/src/graph_refresh_subscriber.rs:119-186 | over any run, when a batch ends all of whose acknowledgement calls went through: every event that is no rebuild is acknowledged whatever the reload did, a rebuild exactly when the reload succeeded, and a batch without a rebuild needs none |
| `RebuildJobs.StepKeepsInv` | crates/admin/src/tools.rs:521-593 | every critical section, and a panic of the trigger, keeps: at most one runner, one whenever there is work unless one died, first in first out, honest positions, truthful statuses |
| `RebuildJobs.RunKeepsInv` | crates/admin/src/tools.rs:521-593 | so does every interleaving |
| `RebuildJobs.PoppedAfterItsPosition` | crates/admin/src/tools.rs:527-535 | a job is popped after exactly as many pops, counted from its enqueue, as the position its caller was told |
| `RebuildJobs.StepMovesForward` | crates/admin/src/tools.rs:561-590 | no step skips the running state or changes a finished record |
| `RebuildJobs.StatusesMoveForward` | crates/admin/src/tools.rs:561-590 | over any stretch of any run a job's status only moves forward and its record is never lost |
| `RebuildJobs.ResultIsRecorded` | crates/admin/src/tools.rs:572-590 | from the moment a job's rebuild returned, at every later point of every run, its record says succeeded with the result's counts, or failed with the reason of that very error |
| `RebuildJobs.FinalTellsItsResult` | crates/admin/src/tools.rs:572-590 | conversely a record is final only because the job's own rebuild returned, and tells what it returned |
| `RebuildJobs.RunnerStepsDecrease` | crates/admin/src/tools.rs:553-593 | every runner step decreases a measure of the work left |
| `RebuildJobs.RunnerTerminates` | crates/admin/src/tools.rs:553-593 | without new jobs the runner takes at most that many steps |
| `RebuildJobs.StoppedMeansDone` | crates/admin/src/tools.rs:557-560 | when no runner step is left, every job ever pushed has succeeded or failed exactly if no runner died |
| `RebuildJobs.AbandonedIffPanicked` | crates/admin/src/tools.rs:531-534 | in every run the flag stands without a runner exactly when a trigger has panicked |
| `RebuildJobs.PanicIsReachable` | crates/admin/src/tools.rs:571 | a run from the start that gets there |
| `RebuildJobs.AbandonedForever` | crates/admin/src/tools.rs:531-534 | after a panic nothing is ever popped again, the queue only grows, and the job it happened to stays running |
| `RebuildJobs.RebuildJobQueue.ReserveId` | crates/admin/src/tools.rs:522-525 | draws the next job number outside the lock: the machine's reserve step |
| `RebuildJobs.RebuildJobQueue.EnqueueLocked` | crates/admin/src/tools.rs:526-535 | the code's critical section is the machine's enqueue step and asks for a runner exactly when there is none |
| `RebuildJobs.RebuildJobQueue.PopOrExit` | crates/admin/src/tools.rs:555-566 | the code's critical section is the machine's pop, or exit when the queue is empty |
| `RebuildJobs.RebuildJobQueue.RecordResult` | crates/admin/src/tools.rs:572-591 | the code's critical section is the machine's finish step, and the job's record then tells the result |
| `RebuildJobs.RebuildJobQueue.RunJobsUntilEmpty` | crates/admin/src/tools.rs:553-593 | uninterrupted, the runner finishes every queued job, each record telling what the trigger returned for that job, touches no other record, and leaves |
| `RedisGlob.EscapeRedisGlob` | crates/mcp-server/src/suppression_state.rs:141-150 | the loop computes the escaping function the lemmas are about |
| `RedisGlob.EscapeIsLiteral` | crates/mcp-server/src/suppression_state.rs:131-150 | an escaped text in front of any pattern consumes exactly itself |
| `RedisGlob.EscapedMatchesOnlyItself` | crates/mcp-server/src/suppression_state.rs:131-150 | an escaped text matches itself and nothing else |
| `RedisGlob.SelectsPrefixIffPlain` | crates/mcp-server/src/suppression_state.rs:335-337 | an unescaped text followed by a star selects exactly the keys starting with it if and only if it holds no special character |
| `RedisGlob.EscapedSelectsIffFrontPlain` | crates/mcp-server/src/suppression_state.rs:335-337 | an escaped text between an unescaped front and plain text: the pattern selects exactly the raw prefix if and only if the front holds no special character, whatever the escaped text holds |
| `SessionKeys.ValidIdIsClean` | crates/mcp-server/src/protocol.rs:293-308 | an accepted id is its own trimmed form and holds no separator or glob character |
| `SessionKeys.TrimCutsBlankEnds` | crates/mcp-server/src/suppression_state.rs:127-129 | trimming takes all whitespace off both ends and nothing else |
| `SessionKeys.SeparatorTestIsRedundant` | crates/mcp-server/src/protocol.rs:293-308 | the character test alone decides |
| `SessionKeys.LocalKeysCollideIffIdsNest` | crates/mcp-server/src/suppression_state.rs:127-129 | for unchecked ids, two sessions can share a record exactly when one id, followed by the separator, continues the other |
| `SessionKeys.UncheckedIdsMayCollide` | crates/mcp-server/src/protocol.rs:284-287 | two ids that do |
| `SessionKeys.ValidIdsNeverCollide` | crates/mcp-server/src/protocol.rs:293-308 | accepted ids share a record only when they are the same |
| `SessionKeys.LocalKeyOwner` | crates/mcp-server/src/suppression_state.rs:127-129 | the session can be read back from a suppression key |
| `SessionKeys.CacheKeyOwner` | crates/mcp-server/src/context_cache.rs:74-82 | the session can be read back from a cache key |
| `SessionKeys.CacheKeyInjective` | crates/mcp-server/src/context_cache.rs:62-82 | with accepted ids a cache key determines session, prompt hash and scope fingerprint |
| `SessionKeys.CacheKeysCollideIffIdsContinue` | crates/mcp-server/src/context_cache.rs:62-82 | for unchecked ids, two sessions can share a cache key exactly when one id continues the other with a colon and sixteen hexadecimal digits that end it or are followed by a colon |
| `Texts.SplitUndoesJoinIffClear` | crates/mcp-server/src/context_cache.rs:71 | joining at least one part can be undone by splitting exactly when no part holds the separator |
| `SessionKeys.SuppressionPatternIsExact` | crates/mcp-server/src/suppression_state.rs:335-337 | the delete pattern selects exactly the keys that begin with the raw session prefix, whatever the id holds, under a plain configured prefix |
| `SessionKeys.CachePatternIsExact` | crates/mcp-server/src/context_cache.rs:223-224 | the same for cache keys |
| `SessionKeys.CachePatternIsExactIffPrefixPlain` | crates/mcp-server/src/context_cache.rs:223-224 | for any id, exactness holds if and only if the configured prefix has no special character |
| `SessionKeys.SuppressionPatternIsExactIffPrefixPlain` | crates/mcp-server/src/suppression_state.rs:335-337 | the same for suppression records |
| `SessionIndex.StepLetsNothingEscape` | crates/mcp-server/src/context_cache.rs:54-60 | after every single map operation each stored entry is listed in an index or held by an unfinished call |
| `SessionIndex.RunKeepsInv` | crates/mcp-server/src/context_cache.rs:54-60 | in every interleaving, and every listed or held key belongs to the session it is under |
| `SessionIndex.AtRestEverythingIsListed` | crates/mcp-server/src/context_cache.rs:51-60 | once all calls have returned, no entry is un-evictable |
| `SessionIndex.ClearTouchesOnlyItsSession` | crates/mcp-server/src/context_cache.rs:207-216 | whatever interleaves, a clear removes entries of its own session only |
| `SessionIndex.ClearIsEffective` | crates/mcp-server/src/suppression_state.rs:322-331 | a key of the cleared session that is not being written when the clear begins, nor written again, is gone once all calls have returned |
| `SessionOverlap.StaleIffOverlap` | crates/mcp-server/src/context_cache.rs:51-60 | in every interleaving, for any ids, a listed key has no entry exactly when a write of it and a clear that removes it overlapped so, undone by no later write or clear |
| `SessionOverlap.SerialStaleIffShared` | crates/mcp-server/src/context_cache.rs:51-60 | while calls for one session never overlap, a listed key has no entry exactly when a clear of another session that listed it has removed it |
| `SessionOverlap.SerialSessionsMirror` | crates/mcp-server/src/context_cache.rs:51-60 | so every listed key that its session alone has written has an entry |
| `SessionOverlap.SharedKeysNeedNoOverlap` | crates/mcp-server/src/context_cache.rs:51-60 | a run in which nothing overlaps and a shared key is left listed without an entry |
| `SessionOverlap.IndexMayListAbsentKeys` | crates/mcp-server/src/context_cache.rs:51-60 | an interleaving after which the index lists a key that has no entry |
| `SessionCalls.IndexedClearIsFullScan` | crates/mcp-server/src/context_cache.rs:208-216 | removing the indexed keys does exactly what scanning every entry would |
| `ContextCache.FingerprintDecodesIffCommaFree` | crates/mcp-server/src/context_cache.rs:68-72 | splitting a fingerprint at commas gives the sorted scopes back exactly when no name holds a comma |
| `ContextCache.FingerprintIdentifiesScopes` | crates/mcp-server/src/context_cache.rs:68-72 | for comma-free non-empty lists two fingerprints agree if and only if the lists name the same scopes |
| `ContextCache.FingerprintCollides` | crates/mcp-server/src/context_cache.rs:68-72 | every list but a single name shares its fingerprint with the single name that spells it |
| `ContextCache.FingerprintIsOwnIff` | crates/mcp-server/src/context_cache.rs:68-72 | exactly the single non-empty names that no comma splits into two names in order have a fingerprint no other list has |
| `ContextCache.CacheEntriesAreListed` | crates/mcp-server/src/context_cache.rs:51-60 | in every interleaving over cache keys of accepted ids: at rest each stored entry is listed under the session in its key |
| `ContextCache.CacheClearSparesOthers` | crates/mcp-server/src/context_cache.rs:207-216 | and a clear leaves every entry of another accepted session as it is |
| `ContextCache.CacheClearIsEffective` | crates/mcp-server/src/context_cache.rs:207-216 | and a cleared session's key not being written then, nor again, is gone at rest |
| `ContextCache.CacheIndexIsMirror` | crates/mcp-server/src/context_cache.rs:51-60 | and while calls for one session never overlap, every listed key has its entry |
| `ContextCache.CompiledContextCache.RecordLocal` | crates/mcp-server/src/context_cache.rs:54-60 | adds the entry and lists its key under the session, for any id: a run of the machine; no entry becomes un-evictable, and with accepted ids the index stays a mirror |
| `ContextCache.CompiledContextCache.Get` | crates/mcp-server/src/context_cache.rs:166-191 | for any id: a local entry of the requested version is the answer; without one, a shared entry of that version is, if the store is reachable, and warms the local map; there is no answer exactly when neither place holds one |
| `ContextCache.CompiledContextCache.Set` | crates/mcp-server/src/context_cache.rs:193-205 | the entry becomes the answer for its version; no other key moves |
| `ContextCache.AnswersAfterRestart` | crates/mcp-server/src/context_cache.rs:166-205 | what one cache sets while the shared store is reachable, a new cache over that store answers for that version and no other |
| `ContextCache.CompiledContextCache.ClearSession` | crates/mcp-server/src/context_cache.rs:207-224 | evicts the listed entries of any id, a run of the machine, and yields the escaped delete pattern; with accepted ids that is exactly what a full scan would evict |
| `ContextCache.CompiledContextCache.ClearEverywhere` | crates/mcp-server/src/context_cache.rs:207-230 | under a plain configured prefix the shared store loses exactly the keys of the session's raw prefix; with accepted ids no prompt of the session is answered afterwards, and every other session is answered as before |
| `SuppressionState.RecordsAreListed` | crates/mcp-server/src/suppression_state.rs:110-116 | in every interleaving over keys of accepted ids: at rest each stored record is listed under the session in its key |
| `SuppressionState.SuppressionClearSparesOthers` | crates/mcp-server/src/suppression_state.rs:322-331 | and a clear leaves every record of another accepted session as it is |
| `SuppressionState.SuppressionClearIsEffective` | crates/mcp-server/src/suppression_state.rs:322-331 | and a cleared session's record not being written then, nor again, is gone at rest |
| `SuppressionState.SuppressionIndexIsMirror` | crates/mcp-server/src/suppression_state.rs:110-116 | and while calls for one session never overlap, every listed key has its record |
| `SuppressionState.SessionSuppressionState.RecordLocal` | crates/mcp-server/src/suppression_state.rs:110-116 | adds the record and lists its key, for any id: a run of the machine |
| `SuppressionState.SessionSuppressionState.IsSuppressed` | crates/mcp-server/src/suppression_state.rs:236-257 | for any id: a local record decides, suppressing its own version only; without one the shared record does, if the store is reachable, and warms the local map; without either nothing is suppressed |
| `SuppressionState.SessionSuppressionState.MarkHealthy` | crates/mcp-server/src/suppression_state.rs:297-314 | the record becomes the visible one; nothing else moves |
| `SuppressionState.SuppressedAfterRestart` | crates/mcp-server/src/suppression_state.rs:236-314 | a session marked while the shared store is reachable is suppressed, at that version and no other, by a new state over that store |
| `SuppressionState.SessionSuppressionState.ClearSession` | crates/mcp-server/src/suppression_state.rs:322-337 | evicts the listed records of any id, a run of the machine, and yields the escaped delete pattern; with accepted ids that is exactly what a full scan would evict |
| `SuppressionState.SessionSuppressionState.ClearEverywhere` | crates/mcp-server/src/suppression_state.rs:322-343 | under a plain configured prefix the shared store loses exactly the keys of the session's raw prefix; with accepted ids the session has no visible record afterwards, and every other session keeps all of its own |
| `Mmr.MaxSimilarityIsGreatest` | crates/retrieval/src/fusion.rs:54-60 | the penalty is the greatest similarity to an earlier pick, floored at 0 |
| `Mmr.ObjectiveWeighs` | crates/retrieval/src/fusion.rs:46-62 | the objective is lambda times the score less one minus lambda times the penalty, with lambda clamped to [0, 1] |
| `Mmr.PenaltyHurts` | crates/retrieval/src/fusion.rs:62 | a greater penalty never raises the objective and below lambda 1 lowers it |
| `Mmr.MorePicksNeverHelp` | crates/retrieval/src/fusion.rs:54-62 | a further pick never raises what another candidate is worth |
| `Mmr.MmrSelect` | crates/retrieval/src/fusion.rs:35-81 | min(n, limit) distinct candidates, each the first maximiser of the objective given the earlier picks |
| `Mmr.GreedyIsPrefixStable` | crates/retrieval/src/fusion.rs:48-75 | a smaller limit selects a prefix of a larger one |
| `Mmr.PureRelevanceKeepsOrder` | crates/retrieval/src/fusion.rs:46-67 | with lambda at 1 or above a descending list is taken as it comes |
| `Mmr.PureDiversityAvoidsLikeness` | crates/retrieval/src/fusion.rs:46-67 | with lambda at 0 or below each pick is one of the least similar to the picks before it |
| `Mmr.FullSelectionIsPermutation` | crates/retrieval/src/fusion.rs:77-81 | with room for everyone the selection is a permutation |
| `RankFusion.UpsertAggregates` | crates/retrieval/src/fusion.rs:122-139 | one insertion keeps every id's score the sum over its occurrences and its representative one that nothing replaces |
| `RankFusion.RepresentativeIsBest` | crates/retrieval/src/fusion.rs:122-139 | an id's representative has the best score of its occurrences and among those the widest claim: project, global, team |
| `RankFusion.AccumulateScopeRanking` | crates/retrieval/src/fusion.rs:107-120 | a scope adds weight over k plus rank plus one per candidate, and nothing when its weight is not positive |
| `RankFusion.EarlierRankGainsMore` | crates/retrieval/src/fusion.rs:116-119 | a contribution times k plus the place counted from 1 is the weight; an earlier place gains strictly more |
| `RankFusion.FinalizeAggregates` | crates/retrieval/src/fusion.rs:141-150 | one candidate per id carrying its fused score, in whatever order the map yields them |
| `RankFusion.WeightedReciprocalRankFusion` | crates/retrieval/src/fusion.rs:83-105 | the map-accumulated result is the sorted and truncated form of a list the direct definition gives; nothing left out comes strictly earlier |
| `RankFusion.SingleScopeKeepsOrder` | crates/retrieval/src/fusion.rs:83-105 | one scope of distinct candidates fused alone comes out in its own order, each with its share, 60 standing for a k that is not positive; without positive weight nothing comes out |
| `RankFusion.OrderPrefers` | crates/retrieval/src/fusion.rs:152-159 | fused score decides, then project before global before team, then semantic and then lexical score |
| `RankFusion.FusionConservesScore` | crates/retrieval/src/fusion.rs:107-139 | before truncation the fused scores sum to all contributions |
| `RankFusion.ScopeOrderIsIrrelevant` | crates/retrieval/src/fusion.rs:96-98 | rearranging the scopes changes no fused score |
| `RankFusion.FusedListsAreRearrangements` | crates/retrieval/src/fusion.rs:141-150 | the lists one map may yield are exactly the rearrangements of any of them |
| `RankFusion.ResultIsDeterminedIffUntied` | crates/retrieval/src/fusion.rs:100-104 | whatever order the map is iterated in, the truncated result is the same exactly when no candidate it shows ties with a later one |
| `RankFusion.TiedResultFollowsMapOrder` | crates/retrieval/src/fusion.rs:152-159 | from any tie in the part shown, two orders of the one map that give different results |
| `Sorting.TopIsStableIffUntied` | crates/retrieval/src/fusion.rs:101-103 | sorting and truncating forgets the order of its input exactly when no element kept ties with a different one behind it |
| `Sorting.SortIsStableIffNoTies` | crates/retrieval/src/fusion.rs:101 | sorting alone does exactly when no two different elements tie |
| `Sorting.TextLeIsLexicographic` | crates/graph-builder/src/watcher.rs:351 | keys compare by their first difference, and a prefix comes first |
| `TopEvidence.TopIsUpperBound` | crates/retrieval/src/graph_search.rs:89-93 | no choice of k scores sums to more than the first k after sorting |
| `TopEvidence.TopIsAttained` | crates/retrieval/src/graph_search.rs:89-93 | some choice attains it |
| `TopEvidence.EvidenceIsBestMean` | crates/retrieval/src/graph_search.rs:87-98 | subunit evidence is the best mean of any min(k, n) subunits, and 0 without any |
| `ScopeSearch.MatchesMeans` | crates/retrieval/src/dual_scope.rs:123-149 | in scope: type and id agree and, if the scope names roots, the skill has source paths and every one lies under some root |
| `ScopeSearch.ScoreWeighs` | crates/retrieval/src/scoring.rs:32-38 | the score is alpha times the similarity cut at zero plus beta times the evidence plus gamma times the prior, times one plus lambda times the boost of the mode |
| `ScopeSearch.BetterComponentsNeverLower` | crates/retrieval/src/scoring.rs:32-38 | with weights that are not negative, better components and a greater boost never lower a score |
| `ScopeSearch.SubunitScoreMeans` | crates/retrieval/src/graph_search.rs:87-98 | a subunit scores its own similarity cut at zero, and 0 without an embedding |
| `ScopeSearch.StableSortRanks` | crates/retrieval/src/cosine_rank.rs:36 | the stable sort orders hits by score and breaks ties by position |
| `ScopeSearch.PlaceIsRank` | crates/retrieval/src/cosine_rank.rs:22-39 | a skill's place among the remapped hits is the number of skills of the scope that beat it |
| `ScopeSearch.FusedHitsAreFaithful` | crates/retrieval/src/dual_scope.rs:267-321 | through both index mappings every candidate gets its own semantic score, evidence and equation-3 score |
| `ScopeSearch.FusedFollowsRank` | crates/retrieval/src/dual_scope.rs:201-231 | the k-th candidate is the skill of rank k |
| `ScopeSearch.FusedCandidatesAreRelevant` | crates/retrieval/src/dual_scope.rs:201-323 | exactly the skills of the scope among the closest candidate_limit whose own score clears the floor, once each |
| `ScopeSearch.PerformScopeSearch` | crates/retrieval/src/dual_scope.rs:194-333 | the search returns exactly those, greedily reordered; selection loses and invents nothing |
| `Slugs.SlugifyIsSlug` | crates/maintenance/src/promote.rs:1224-1246 | a slug is non-empty, over a-z, 0-9 and dash, with no leading, trailing or doubled dash |
| `Slugs.WordIsKept` | crates/maintenance/src/merge.rs:684-706 | a word of ASCII letters and digits becomes itself in lower case |
| `Slugs.SeparatorsAreAlike` | crates/maintenance/src/merge.rs:684-706 | any other character only separates, whichever it is |
| `Slugs.SlugifyIsIdempotent` | crates/maintenance/src/merge.rs:684-706 | a slug is its own slug |
| `Slugs.MergeNameDecodes` | crates/maintenance/src/merge.rs:677-682 | a merge directory name decodes uniquely to its three slugs |
| `Slugs.MergeNamesCollideIffSlugsAgree` | crates/maintenance/src/merge.rs:677-682 | two merge proposals share a directory exactly when all three slugs agree |
| `Slugs.PromotionIsNotDemotion` | crates/maintenance/src/promote.rs:1134-1146 | promotion and demotion directories never collide |
| `Slugs.ScopeNameIsNotMerge` | crates/maintenance/src/promote.rs:1134-1146 | neither collides with a merge directory |
| `Slugs.PromotionTracesIffSlug` | crates/maintenance/src/promote.rs:1133-1137 | the id can be read back from a promotion's directory name exactly when it is a slug already |
| `Slugs.DemotionTracesIffSlug` | crates/maintenance/src/promote.rs:1139-1146 | the same for a demotion |
| `Slugs.MergeTracesIffSlugs` | crates/maintenance/src/merge.rs:676-682 | the same for each of the two ids in a merge's directory name |
| `Slugs.SlugSplitsIntoWords` | crates/maintenance/src/merge.rs:684-706 | a slug is its value's runs of letters and digits joined by dashes, or the fallback, and splits back into them |
| `Slugs.PromotionsCollideIffWordsAgree` | crates/maintenance/src/promote.rs:1134-1137 | two promotions share a directory exactly when their ids have the same runs of letters and digits, whatever their case and whatever stands between |
| `Slugs.DifferentIdsMayShareADirectory` | crates/maintenance/src/promote.rs:1133-1137 | two different ids that do |
| `MergeDigest.DigestParts` | crates/maintenance/src/merge.rs:443-465 | the digest's words are exactly the first min(1500, total) of the words of the subunits cut to 100 each, one part per subunit reached; every slice is in bounds |
| `Resilience.TrippedIffThresholdMet` | crates/infrastructure/src/resilience.rs:115-123 | over any history the breaker has tripped exactly when failures since the last success meet the threshold |
| `Resilience.FailuresAreCounted` | crates/infrastructure/src/resilience.rs:108-117 | the failure counter is the number of failures no success follows |
| `Resilience.TripHasCause` | crates/infrastructure/src/resilience.rs:115-123 | every trip has a failure that met the threshold, with nothing but requests after it |
| `Resilience.RefusedOnlyWhileOpen` | crates/infrastructure/src/resilience.rs:86-106 | a request is refused only within open_for of a failure that met the threshold, with only refused requests in between |
| `Resilience.RefusesIffShut` | crates/infrastructure/src/resilience.rs:86-106 | over any history a request is refused exactly when some failure met the threshold less than open_for ago and since then nothing but refused requests happened |
| `Resilience.CircuitBreaker.AllowRequest` | crates/infrastructure/src/resilience.rs:86-106 | refuses exactly when one of the calls so far shuts the breaker in that sense |
| `Resilience.CircuitBreaker.RecordSuccess` | crates/infrastructure/src/resilience.rs:108-113 | closes the breaker and forgets every failure |
| `Resilience.CircuitBreaker.RecordFailure` | crates/infrastructure/src/resilience.rs:115-123 | opens it at or past the threshold; a failed probe always reopens it, with a fresh time |
| `Resilience.CircuitBreaker.Interleave` | crates/infrastructure/src/resilience.rs:86-123 | any calls of others keep the breaker a function of the history |
| `Resilience.CircuitBreaker.ExecuteWithResilience` | crates/infrastructure/src/resilience.rs:135-158 | a refused call runs nothing; a granted one runs its retries and, after whatever other callers do on the breaker meanwhile, records exactly one outcome, that of the last attempt |
| `Resilience.WaitsDoNotShrink` | crates/infrastructure/src/resilience.rs:36-38 | waits never shrink and never exceed max_delay |
| `Resilience.RetryWithBackoff` | crates/infrastructure/src/resilience.rs:22-44 | stops at the first success or after max(1, max_attempts) attempts; the wait after the a-th is a times the base delay plus 7a, cut at max_delay |

## Left out

- Recurrence pass: what is fetched, embedded and written; only whether each of these succeeds enters, and a cluster is its list of indices.
- Snapshot diff: the modification time in a fingerprint (the diff ignores it), paths that are not UTF-8, `.` and `..` components, and building the scope index from a scope list with duplicate roots (the index's entries, in any order, are the input).
- Directory walking, the notification debouncer and pruned directories: a scan is whatever snapshot was discovered; a failed scan is not modelled.
- No claim that every file change reaches a rebuild: the watcher moves its snapshot on before the rebuild it triggers, so the code gives none.
- Stream: trimming, recreating a missing consumer group, the order in which pending entries come back (any unacknowledged ids may), and the read backoff's timing.
- Graph reload: the skill limit, embedding of subunits and the usage priors; a reload is a read of the version, then a read of the rows, either of which may fail.
- The rebuild itself: its rows are a generation number that grows with every rebuild; the version is bumped with the rows and once more before the event is pushed.
- RebuildJobs: job ids are their sequence numbers rather than the text built from them.
- Session stores: expiry, serialization, and failures of the shared store other than being unreachable for one call; the background delete is one later step.
- The lookups of the stored version and scopes in the suppression state, which read the same record.
- SessionKeys: trimming knows ASCII whitespace only, and prompt hashes are any function to texts.
- SessionKeys.CacheKeysCollideIffIdsContinue: takes any sixteen hexadecimal digits for the hash of some prompt, the hash function being a parameter.
- Ranking: rounding, NaN and infinities of 32-bit floats; cosine similarity is any function of two embeddings.
- ScopeSearch.PerformScopeSearch: leaves out the lexical score and the projections shown with a hit, which no score or cut depends on.
- Searching several scopes at once, its timeouts and how its failures are reported.
- MergeDigest.DigestParts: states words and parts, not the header line nor the text the parts are joined into.
- Resilience: the second copy of the breaker (crates/retrieval/src/circuit_breaker.rs) has the same three methods and is not modelled again; saturation of counters and durations is assumed not to be reached.
- Routing tiers, configuration checks, retirement scoring, scheduling, cleanup scans, the template compiler, health probes, logging and auditing.
