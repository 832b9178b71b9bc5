# ShareCLI: a verified model

This project models the parts of ShareCLI that keep state over whole runs or carry arithmetic, and
proves in Dafny what they guarantee for every input, run or interleaving. Clocks, files, sockets and
subprocesses are inputs of the model. `dafny verify dfyconfig.toml` checks everything.

What is proved, by module:

- **SpeculativeCache, CacheInterleaving, CacheInsertion** (`src/speculative_cache.rs`). Called from one thread, the cache holds
  exactly the last *capacity* distinct keys touched, with their latest values. Called from many threads
  and stepped at lock granularity, it keeps coverage, both size bounds and a bound on repeated keys,
  never leaves its eviction loop through `break`, never deadlocks and always gives the map lock back.
  One expected promise fails under concurrency: an insertion can evict its own key. Two runs show it, one with
  a stale listed key and one with a promotion during the insertion. `InterleavedInsertKeepsKeyIff` gives the
  exact condition for the key to be there in every interleaving; `InsertKeepsKeyIff` is the sharper condition
  for an insertion that no promotion disturbs.
- **ServeLock, ServeProbe** (`src/serve_lock.rs`). Processes, inodes, the path, exclusive and shared advisory locks and
  crashes, one system call per step, `probe` included. No inode ever has two holders. That the *service* has one
  holder is false of the calls as they stand (two races are given). The runs without an unsafe `lock` or `remove`
  are exactly those in which, at every moment, there is at most one holder and there would still be at most one if
  a newcomer acquired then; they include all runs where open+lock and unlock+remove are each one step. That an
  unheld lock can be acquired is false too: the shared lock of a probe refuses it, and an acquire gets the lock
  exactly when nobody holds it and no probe has the shared lock of the file. What `probe` and `decide` answer is
  related to the actual holder: at one instant in every state, exactly over all safe runs, and for a probe whose
  calls are interleaved with those of others.
- **Graph** (`src/graph.rs`). Full correctness of the breadth-first search, distances included.
- **AuditLog, AuditRuns** (`src/audit_log.rs`). Rotation on any directory, and all runs of emits, where budget and
  retention count may change from one emit to the next, as the environment they are read from may. Two
  promises can fail once the count is lowered, and one run shows both: files beyond the count are not deleted,
  and a rotation then removes a file from the middle, so that the disk holds no suffix of what was emitted. It is
  proved exactly when each holds, with size bounds and a lower bound on what is kept whenever something is lost.
- **StableSort, TaskQueue, CommandLocks** (`src/coordination.rs`). One stably sorted list refines four FIFO queues;
  command locks stay with their owner over all runs.
- **Decimal, PaneAddress, Lexicographic, PaneRegistry** (`src/cast/address.rs`, `src/cast/registry.rs`). Printing and
  parsing round-trip exactly on well-formed addresses, the accepted texts are characterised, and the registry
  resolves the last registered address. The header of the address module calls the first optional index the
  window; the code makes a lone index the pane, and the model follows the code.
- **RateLimiter** (`src/rate_limiter.rs`, `src/serve_rate_limit.rs`). The window bound over all runs, exact refusal, and
  how good the Retry-After advice (section 10.2.3 of RFC 9110) is.
- **Calendar** (`src/commands/history.rs`). The loops invert the closed-form calendar and preserve order.
- **ConfigEdit** (`src/commands/config_edit.rs`). Lens laws of dotted-path get and set on every tree.
- **RetryCaster, HealthCheck, FleetReport** (`src/cast/caster.rs`, `src/health_check.rs`, `src/commands/report.rs`).
  Chains of retrying casters with their call log, total sleep and overflow condition, the health states of many
  processes against their own maximal failure runs, and the aggregation totals.

Assumptions shared by the models: mutexes are not poisoned, process ids are not reused, text encodings
(JSON, TOML) are inverse to their decodings, one process at a time writes the audit log (its mutex is one per
process), and the clock given to the limiter never goes back. A Rust character is a Dafny `char`.

## Model

| member | source | states |
|---|---|---|
| SpeculativeCache.Cache.constructor | src/speculative_cache.rs:25-32 | a new cache is empty and has the given positive capacity |
| SpeculativeCache.Cache.Get | src/speculative_cache.rs:34-46 | returns the mapped value; a hit moves the key to the end of the recency list and nothing else changes |
| SpeculativeCache.Cache.Insert | src/speculative_cache.rs:48-75 | on any state, stale or repeated keys included, the loop computes store followed by eviction, and returns the previous value |
| SpeculativeCache.Cache.EvictLru | src/speculative_cache.rs:77-84 | drops the oldest listed key from list and map; answers with the pair exactly when that key was mapped |
| SpeculativeCache.ShrinkMeetsCapacity | src/speculative_cache.rs:62-73 | on any state whose mapped keys are all listed, eviction ends at the capacity bound, keeps coverage and changes no surviving value |
| SpeculativeCache.ShrinkIs | src/speculative_cache.rs:62-73 | on any state the loop evicts the shortest beginning of the recency list that meets the capacity, or all of it, and no other key |
| SpeculativeCache.RunTracksRecentTouches | src/speculative_cache.rs:34-75 | in every run the recency list is the last capacity distinct keys touched, the map holds exactly those, each with its latest value |
| SpeculativeCache.LookupAfterRun | src/speculative_cache.rs:34-46 | after every run a lookup gives the latest inserted value of a recent key and nothing for any other key; size at most capacity |
| SpeculativeCache.InsertKeepsKeyIff | src/speculative_cache.rs:48-75 | an undisturbed insertion leaves its key mapped if and only if it was there, there was room, or a live key precedes every stale copy of it |
| SpeculativeCache.SequentialInsertKeepsKey | src/speculative_cache.rs:48-75 | without overlapping calls an inserted key is always found with its value |
| CacheInterleaving.EveryInterleavingIsSafe | src/speculative_cache.rs:34-84 | in every interleaving: mapped keys are listed (but the one being evicted), at most capacity entries with the lock free and one more ever, no key listed more than twice, `break` impossible, the lock holder can always step |
| CacheInterleaving.ReadsSeeLastStore | src/speculative_cache.rs:34-37 | in every interleaving a lookup reads nothing but the value stored last under its key |
| CacheInterleaving.HoldTimeIsBounded | src/speculative_cache.rs:63-73 | while the map lock is held the whole system can take only a bounded number of steps before it is released, so the eviction loop terminates |
| CacheInterleaving.InvKept | src/speculative_cache.rs:34-84 | every step of every thread keeps the lock discipline, coverage, size and repetition bounds |
| CacheInterleaving.SoloInsertIsSequential | src/speculative_cache.rs:48-75 | run without interference, the lock-level steps of an insertion compute the sequential insertion |
| CacheInterleaving.SoloGetIsSequential | src/speculative_cache.rs:34-46 | run without interference, the lock-level steps of a lookup promote on a hit and change nothing on a miss |
| CacheInterleaving.SoloEvictIsSequential | src/speculative_cache.rs:77-84 | run without interference, the two steps of an eviction take the first listed key out of list and map and leave every other key its value |
| CacheInsertion.InterleavedInsertKeepsKeyIff | src/speculative_cache.rs:34-75 | from every reachable state with the map lock free, the key is mapped when its insertion returns in every interleaving if and only if it was mapped, there was room, or a mapped key listed ahead of it is being promoted by no thread |
| CacheInsertion.ShieldedKeySurvives | src/speculative_cache.rs:34-75 | under that condition no promotion during the insertion can make it lose its key |
| CacheInsertion.PromotionDuringInsertLosesKey | src/speculative_cache.rs:34-75 | without any stale key, a promotion between store and eviction makes an insertion return with its key absent, although undisturbed it would keep it |
| CacheInterleaving.InsertCanEvictItself | src/speculative_cache.rs:37-43 | a promotion delayed past an eviction leads to an insertion that returns with its own key absent |
| ServeLock.InodeNeverSharedInAnyRun | src/serve_lock.rs:192-293 | in every interleaving of single system calls, probes and crashes included, no inode has two holders or a holder beside a shared lock, and an announced holder finds its own identity in its file |
| ServeLock.ServerAnnouncesLastWrite | src/serve_lock.rs:279-287 | in every run a serving process announces its own pid with the url and the time of the last write it made |
| ServeLock.LettingGo | src/serve_lock.rs:285-318 | a failed acquire, a crash and the unlock of a drop give up the lock and change nothing else |
| ServeLock.CanLetGo | src/serve_lock.rs:285-318 | a holder can either fail or unlock, and exactly a living process can crash |
| ServeLock.StepKeepsBoundIffSafe | src/serve_lock.rs:264-275 | one call keeps every holder on the inode bound to the path if and only if it is not a lock of an unbound file nor a remove of a held one |
| ServeLock.BoundThroughoutIffSafeRun | src/serve_lock.rs:257-318 | a run keeps every holder on the bound inode at every step if and only if it makes no unsafe call |
| ServeLock.BoundIffNextAcquireIsSafe | src/serve_lock.rs:257-294 | with no probe sharing the file at the path, all holders are on the bound inode if and only if there is at most one and the next newcomer cannot become a second |
| ServeLock.SafeRunIffNeverTwo | src/serve_lock.rs:257-318 | a run makes no unsafe call if and only if after every prefix there is at most one holder and still at most one if an idle newcomer acquires then, the probes in progress having given back their shared locks |
| ServeLock.UnsharedIsReached | src/serve_lock.rs:193-196 | from every state the probes in progress alone lead to the state without shared locks |
| ServeLock.AcquireSucceedsIff | src/serve_lock.rs:257-294 | after every run without an unsafe call, crashes included, an acquire gets the lock if and only if nobody holds it and no probe has the shared lock of the file at the path |
| ServeLock.ProbeRefusesAcquire | src/serve_lock.rs:192-275 | from every start with a leftover file a probe in progress makes an acquire come back empty although nobody ever held the lock |
| ServeLock.AtomicRunIsSafe | src/serve_lock.rs:257-318 | every run with open+lock and unlock+remove atomic is a run without an unsafe call |
| ServeLock.AtomicRunsNeverDoubleServe | src/serve_lock.rs:257-318 | every such run of acquires, drops, probes, failures and crashes has at most one holder, on the bound inode |
| ServeLock.DropRaceDoubleServes | src/serve_lock.rs:309-318 | because drop unlocks before it removes, from every serving state a run of six calls ends with two servers |
| ServeLock.AcquireRaceDoubleServes | src/serve_lock.rs:264-275 | because acquire opens before it locks, the same happens even when the drop is atomic |
| ServeLock.SecondAcquireRefused | src/serve_lock.rs:272-275 | remark on one state: while the bound file is held another acquire comes back empty and changes nothing |
| ServeProbe.Decide | src/serve_lock.rs:106-117 | serves exactly when free or stale; attaches or replaces exactly when live and the policy says so; otherwise aborts |
| ServeProbe.ProbeIs | src/serve_lock.rs:181-231 | when the answer is free, when an error, and when running, with which identity and when stale |
| ServeProbe.ProbeAlone | src/serve_lock.rs:181-231 | undisturbed, the separate calls of a probe give the answer of the one-instant probe and change nothing else |
| ServeProbe.ServeWhileHeldIff | src/serve_lock.rs:181-231 | in every state the decision is to serve while the lock is held if and only if some holder is on a file the path does not name and the file it names, if any, is unheld and names no living process |
| ServeProbe.ServeOnSafeRunsIff | src/serve_lock.rs:106-231 | after every run without an unsafe call serving means that nobody holds the lock and no leaving server is between its unlock and its remove, and, unless the run began with a leftover file that names a living process, that state means serving under every policy |
| ServeProbe.ServeIffUnheld | src/serve_lock.rs:106-231 | with the two pairs atomic, and such a start, the decision is to serve if and only if nobody holds the lock |
| ServeProbe.ServeAnswerMetUnheld | src/serve_lock.rs:181-231 | in every run without an unsafe call, a probe answer that leads to serving, however its calls were interleaved, means that nobody held the lock at some moment between its open and its answer |
| ServeProbe.ServeDespiteHolder | src/serve_lock.rs:309-318 | in the drop race the decision is to serve while a server holds an unnamed file |
| ServeProbe.ProbeShowsLastWrite | src/serve_lock.rs:181-231 | after every run a probe of the held file at the path answers with the url and the time its holder wrote last |
| ServeProbe.StartServes | src/commands/serve/run.rs:45-70 | an undisturbed start whose decision is to serve ends serving, and every probe then reads its url and time |
| ServeProbe.ProbeOfHeldFile | src/serve_lock.rs:181-231 | remark on one state: while the bound file is held the probe names the holder once written, is an error while empty, and before truncation shows the previous owner as live |
| ServeProbe.CrashIsTakenOver | src/serve_lock.rs:257-294 | remark on one state: right after the crash of a server its file is reported stale with its identity, no probe shares it, and the next acquire gets the lock |
| ServeProbe.DropGapLooksRunning | src/serve_lock.rs:309-318 | remark on one state: between unlock and remove the leaving server is still reported running, not stale |
| ServeProbe.DropLeavesFree | src/serve_lock.rs:309-318 | remark on one state: a completed drop probes as free and the next acquire succeeds on a new file |
| Graph.Graph.AddNode | src/graph.rs:11-13 | adds the node, keeps all edges and the closure of the graph |
| Graph.Graph.AddEdge | src/graph.rs:14-17 | appends the edge, adds both ends, keeps every other list and the closure of the graph |
| Graph.Graph.Bfs | src/graph.rs:21-36 | terminates without a missing key and returns exactly the reachable nodes, each once, start first, in nondecreasing shortest distance |
| Graph.LabelsAreDistances | src/graph.rs:21-36 | once the queue is empty, listed means reachable and the label is the shortest distance |
| Graph.ShortestWalkExists | src/graph.rs:21-36 | every reachable node has a shortest distance |
| AuditLog.AuditLog.RotateIfNeeded | src/audit_log.rs:120-138 | on any directory: nothing below the budget, otherwise files 0..retain-1 move up by one, file retain goes, files beyond stay |
| AuditLog.AuditLog.Emit | src/audit_log.rs:77-89 | rotation followed by the append, for any directory, and in terms of the chain of files |
| AuditLog.BytesIsLength | src/audit_log.rs:80-82 | the size compared with the budget is the length of the lines with their newlines |
| AuditLog.EmitConservesLines | src/audit_log.rs:120-138 | with no file beyond the count, one emit adds its line at the end and loses exactly the lines of the file at the oldest index |
| AuditRuns.DiskHoldsBlocks | src/audit_log.rs:77-138 | in every run, whatever the settings, each file holds a block of consecutive emitted lines, the blocks are disjoint and in order, and the active file ends with the last line |
| AuditRuns.BeyondRetentionIff | src/audit_log.rs:8-11 | in every run, after every emit, no file lies beyond the retention count then in force if and only if none did before that emit |
| AuditRuns.PromiseKeptIfNeverLowered | src/audit_log.rs:8-11 | so no file ever lies beyond the count in a run that never lowers it |
| AuditRuns.SuffixIff | src/audit_log.rs:120-138 | the disk ends a run holding a suffix of what was emitted if and only if the block of recent files, cut by every rotation at the count then in force, is all there is |
| AuditRuns.SuffixThroughoutIff | src/audit_log.rs:120-138 | the disk holds a suffix after every emit of a run if and only if no emit rotates while files lie beyond its count |
| AuditRuns.SuffixReadsBack | src/audit_log.rs:77-138 | if the disk holds a suffix, reading the files from the oldest gives exactly that suffix |
| AuditRuns.LoweredRetentionRun | src/audit_log.rs:101-138 | three lines under count 2 and one under count 1: a file stays beyond the count, and the second line is gone while the first is kept |
| AuditRuns.SizesAlongRun | src/audit_log.rs:120-126 | in every run each file is at most the largest budget used, less one, plus the longest line with its newline, and each rotated file at least the smallest budget used |
| AuditRuns.FixedRunKeepsASuffix | src/audit_log.rs:77-138 | with fixed settings there are at most retain rotated files, what is on disk is a suffix of what was emitted, and every file is at most budget - 1 plus the longest line with its newline |
| AuditRuns.LossImpliesFullRetention | src/audit_log.rs:127-137 | with fixed settings a line is missing only when retain rotated files of at least the budget each are kept |
| StableSort.StableSortUnique | src/coordination.rs:217-219 | two sorted sequences that keep the order of equals are identical, so any stable sort computes the modelled one |
| StableSort.IsSort | src/coordination.rs:217-219 | being sorted and stable is equivalent to being the modelled sort |
| TaskQueue.PriorityTaskQueue.Enqueue | src/coordination.rs:152-169 | the new file is the stable sort of the old list with the pending item appended |
| TaskQueue.PriorityTaskQueue.Dequeue | src/coordination.rs:171-182 | hands out the first sorted item marked dequeued and stores the rest; on an empty list changes nothing |
| TaskQueue.PriorityTaskQueue.Peek | src/coordination.rs:184-188 | the item the next dequeue hands out, file unchanged |
| TaskQueue.PriorityTaskQueue.ListAll | src/coordination.rs:202-206 | sorted by priority with the order of equals kept, file unchanged |
| TaskQueue.EnqueueIsPut | src/coordination.rs:152-169 | appending and sorting is putting the item at the end of its own priority's queue |
| TaskQueue.DequeueIsTake | src/coordination.rs:171-182 | dequeuing takes the oldest item of the highest nonempty priority |
| TaskQueue.DequeueIsUrgent | src/coordination.rs:171-228 | on any file the item handed out is marked dequeued, nothing waiting is more urgent, critical before high before normal before low, and nothing as urgent stood before it |
| TaskQueue.ResortIsIdentity | src/coordination.rs:202-206 | sorting again on read changes nothing |
| TaskQueue.RunIsFourQueues | src/coordination.rs:152-206 | in every run the list is the four FIFO queues joined and everything handed out is what the queues hand out |
| TaskQueue.RunConserves | src/coordination.rs:152-182 | what was enqueued equals what was handed out plus what waits, as multisets |
| CommandLocks.CommandLockStore.Acquire | src/coordination.rs:43-72 | result and file of an acquire, refusals included |
| CommandLocks.CommandLockStore.Release | src/coordination.rs:74-89 | result and file of a release, both errors included |
| CommandLocks.StepFrame | src/coordination.rs:43-89 | records of other hashes are untouched and a refused step changes nothing |
| CommandLocks.StepOwn | src/coordination.rs:108-115 | a granted acquire leaves the hash locked by its pid since now; a release leaves it unlocked |
| CommandLocks.AcquireGrantedIff | src/coordination.rs:43-72 | an acquire is refused exactly while the record says locked by another, nonzero pid; the holder's own is granted; the record returned is the record stored |
| CommandLocks.ReleaseGrantedIff | src/coordination.rs:74-89 | a release is granted exactly to the pid in the record, and which error comes otherwise |
| CommandLocks.OneRecordPerHash | src/coordination.rs:52-72 | every run from an empty store keeps at most one record per hash |
| CommandLocks.HeldUntilReleased | src/coordination.rs:27-89 | a lock of a nonzero pid stays with it through every run without its own release, and every other process is refused meanwhile |
| CommandLocks.HeldByLastGranted | src/coordination.rs:43-89 | after every run from an empty store a process holds a hash if and only if the last granted step on it is an acquire by that process |
| CommandLocks.ReleaseFrees | src/coordination.rs:43-89 | after every run the holder's release is granted, then nobody holds the hash and every process can acquire it |
| CommandLocks.GrantExcludesIff | src/coordination.rs:27-31 | a granted lock shuts out another process if and only if the pid is nonzero |
| CommandLocks.SameSnapshotDoubleGrant | src/coordination.rs:43-72 | two processes that read the same file both get the lock if and only if nobody holds it, and the last writer erases the other |
| Decimal.PrintThenValue | src/cast/address.rs:68-72 | decimal text of a number denotes that number |
| Decimal.ValueThenPrint | src/cast/address.rs:68-72 | digits without a leading zero are the printed form of their number |
| Decimal.PrintIsCanonical | src/cast/address.rs:68-72 | the printed form has no leading zero |
| Decimal.LeadingZero | src/cast/address.rs:137 | leading zeros do not change the number read |
| PaneAddress.ParseIndex | src/cast/address.rs:122-139 | a text is read as n exactly when it is decimal text of n below 2^32; refused are exactly a leading minus and digits out of range; any other text is no index |
| PaneAddress.ParseHost | src/cast/address.rs:146-173 | an accepted host is well-formed and prints back to exactly the text |
| PaneAddress.ParseHostIs | src/cast/address.rs:146-173 | the two fixed host names, and the refusal of the empty and of any other text that is not ssh |
| PaneAddress.ParseSshIs | src/cast/address.rs:153-167 | an ssh text is split at its first at-sign, and why it is refused |
| PaneAddress.PeelPrinted | src/cast/address.rs:101-116 | printed window and pane are peeled off again after any host text |
| PaneAddress.PeelRefuses | src/cast/address.rs:101-116 | a last segment that is a bad index is refused with its own error, and so is the segment before a good index |
| PaneAddress.ParsedIsWellFormed | src/cast/address.rs:44-65 | every accepted text gives a valid machine, a well-formed host and 32-bit indices |
| PaneAddress.ParseRefuses | src/cast/address.rs:45-57 | the errors of an empty address, a missing host, an empty and an invalid machine |
| PaneAddress.ParseForwards | src/cast/address.rs:59-64 | with a valid machine the error is that of the indices, or else that of the host |
| PaneAddress.MachineChars | src/cast/address.rs:175-178 | the characters of a machine name one by one |
| PaneAddress.DisplayHasBothIndices | src/cast/address.rs:68-72 | the printed form always ends with window and pane |
| PaneAddress.RoundTripIff | src/cast/address.rs:44-82 | parsing the printed form returns the address if and only if it is well-formed |
| PaneAddress.ParseIsStable | src/cast/address.rs:44-72 | printing what was parsed parses to the same address |
| PaneAddress.ParseIff | src/cast/address.rs:44-173 | a text is read as an address if and only if the address is well-formed and the text is its machine, its host and an index part for its window and pane; with fewer than two indices the host must not end in one |
| PaneAddress.LoneIndexIsPane | src/cast/address.rs:103-112 | a single trailing index is the pane; reading it as the window agrees if and only if it is 0 |
| PaneRegistry.PaneRegistry.Register | src/cast/registry.rs:54-59 | refuses invalid names without change, otherwise stores the printed address |
| PaneRegistry.InvalidNames | src/cast/registry.rs:112-124 | which names are refused |
| Text.WhitespaceCharacters | src/cast/registry.rs:119 | the characters that count as white space one by one |
| PaneRegistry.PaneRegistry.Unregister | src/cast/registry.rs:62-66 | removes the name and nothing else |
| PaneRegistry.PaneRegistry.Resolve | src/cast/registry.rs:81-90 | the parsed text of a present name, an error if malformed, nothing if absent |
| PaneRegistry.ResolveIs | src/cast/registry.rs:81-90 | absent, unreadable and readable entries are told apart |
| PaneRegistry.PaneRegistry.List | src/cast/registry.rs:69-78 | succeeds if and only if every text parses, and then lists all names in order with their addresses; otherwise names the first entry that does not parse |
| Lexicographic.LeqIff | src/cast/registry.rs:69-78 | names are ordered by their first difference, a prefix before its extensions |
| PaneRegistry.ResolveIsLastRegistered | src/cast/registry.rs:54-90 | after every run resolve gives the last registered address if and only if there is none or it is well-formed |
| PaneRegistry.WellFormedRunsList | src/cast/registry.rs:54-90 | after every run of well-formed registrations all stored texts parse, each to the last registered address |
| PaneRegistry.RegisterResolvesIff | src/cast/registry.rs:54-90 | a registered address is read back if and only if it is well-formed |
| RateLimiter.RateLimiter.TryAcquire | src/rate_limiter.rs:14-24 | result and remaining hits of one call at a given time |
| RateLimiter.RateLimiter.RetryAfterSecs | src/rate_limiter.rs:35-46 | the whole seconds left of the oldest live hit, 0 under the cap |
| RateLimiter.RetryAfterIs | src/rate_limiter.rs:35-46 | 0 under the cap and when every hit has expired, otherwise the seconds until the oldest live hit expires, rounded down |
| RateLimiter.WindowNeverExceeded | src/rate_limiter.rs:14-24 | for every nondecreasing sequence of calls, no half-open interval of window length holds more than max admissions |
| RateLimiter.RefusedIffWindowFull | src/rate_limiter.rs:14-24 | a call is refused if and only if exactly max calls were admitted in the window ending at it |
| RateLimiter.AdmittedFromExpiry | src/rate_limiter.rs:14-24 | with the window full a call is admitted exactly from the expiry of the oldest hit |
| RateLimiter.RetryAfterBrackets | src/rate_limiter.rs:35-46 | after a refusal in any run, with advice r and until the next admission, every retry before r seconds is refused and every retry from r+1 seconds is admitted |
| RateLimiter.RetryAtAdviceIff | src/serve_rate_limit.rs:49-52 | after a refusal in any run, a retry exactly at the served advice is admitted if and only if the wait was whole seconds or at most one second |
| Calendar.SplitDays | src/commands/history.rs:126-147 | the two loops give the year, month and day whose closed-form day count is the input |
| Calendar.TableIsClosedForm | src/commands/history.rs:138-140 | the month table agrees with the closed form (367m - 362)/12, less 1 or 2 after February |
| Calendar.FromEpoch | src/commands/history.rs:118-157 | the fields are in calendar range, convert back to the input and are the only such fields |
| Calendar.NextYear | src/commands/history.rs:159-161 | the closed form n/4 - n/100 + n/400 agrees with the leap rule year by year |
| Calendar.OrderPreserved | src/commands/history.rs:118-157 | field order and order of seconds coincide |
| Calendar.SecondsNonNegative | src/commands/history.rs:118-157 | every calendar time from 1970 on is a nonnegative number of seconds, so every one of them is produced |
| ConfigEdit.SplitThenJoin | src/commands/config_edit.rs:15-21 | a key is its segments joined by dots |
| ConfigEdit.SplitPathIff | src/commands/config_edit.rs:15-21 | a key is accepted if and only if every segment has a visible character, and then as its own segments |
| ConfigEdit.JoinThenSplit | src/commands/config_edit.rs:15-21 | every path of dot-free segments is the path of its key |
| ConfigEdit.LookupWalk | src/commands/config_edit.rs:24-30 | the walking loop computes the recursive lookup |
| ConfigEdit.LookupAppend | src/commands/config_edit.rs:24-30 | one segment further is read exactly from a table that has it |
| ConfigEdit.AssignFailsIff | src/commands/config_edit.rs:33-43 | assign fails if and only if a proper prefix holds a value that is not a table, and then the tree is unchanged |
| ConfigEdit.AssignThenLookup | src/commands/config_edit.rs:33-43 | the assigned value is read back at its path and below |
| ConfigEdit.AssignLeavesOthers | src/commands/config_edit.rs:33-43 | paths not prefix-related read as before |
| ConfigEdit.AssignMakesTables | src/commands/config_edit.rs:38-41 | after an assign every proper prefix leads to a table |
| ConfigEdit.AssignTwice | src/commands/config_edit.rs:33-43 | a second assign at the same path replaces the first |
| ConfigEdit.AssignSame | src/commands/config_edit.rs:33-43 | assigning the stored value changes nothing |
| ConfigEdit.NumericFieldTakesIntegers | src/commands/config_edit.rs:54-65 | a numeric field takes every integer text of i64 or u64 range as that integer |
| ConfigEdit.ParseSignedIff | src/commands/config_edit.rs:55-60 | which texts are read as which integers: digits, leading zeros allowed, with an optional sign |
| ConfigEdit.CoerceByType | src/commands/config_edit.rs:49-72 | a boolean takes exactly true and false, a string anything, an absent key, null, array or table a JSON literal; all else is kept as a string |
| ConfigEdit.PrintIntIs | src/commands/config_edit.rs:74-80 | an integer is rendered without plus sign and leading zeros |
| ConfigEdit.CoerceOwnRendering | src/commands/config_edit.rs:49-78 | null, bools, strings and 64-bit integers survive render and coerce |
| ConfigEdit.SetOwnRenderingIsNoOp | src/commands/config_cmd.rs:52-57 | setting such a value to its own rendering leaves the tree as it is |
| RetryCaster.Send | src/cast/caster.rs:319-337 | for any answers of the inner caster the loop computes the specified run: its outcome, inner calls and sleeps |
| RetryCaster.SentStops | src/cast/caster.rs:319-337 | that run stops at the first outcome that is no failure or at the last attempt and returns it, with a doubling delay between calls, and overflows exactly at a failed attempt whose delay does not fit |
| RetryCaster.DelayIsProduct | src/cast/caster.rs:329 | the delay that doubles from base is base times 2^i |
| RetryCaster.TotalSleep | src/cast/caster.rs:328-331 | the delays between n+1 calls sum to base times (2^n - 1) |
| RetryCaster.NeverOverflowsIff | src/cast/caster.rs:329 | no answers of the inner caster make the call overflow if and only if the last delay fits, shift below 64 included |
| RetryCaster.SendWithFallback | src/cast/caster.rs:500-517 | a chain of retrying casters ends with the first outcome that is not unsupported, an overflow included, or else with the last label and message; its inner calls and sleeps are those of the casters asked |
| RetryCaster.LogIsExact | src/cast/caster.rs:500-517 | the log holds exactly the attempts of the casters asked, each once, caster by caster and attempt by attempt |
| RetryCaster.CallsPerCaster | src/cast/caster.rs:500-517 | each caster asked makes the inner calls of its own send, every other caster none |
| RetryCaster.TotalSlept | src/cast/caster.rs:328-331 | a chain sleeps the sum over the casters asked of base times (2^(calls-1) - 1) |
| HealthCheck.Monitor.ProbeAll | src/health_check.rs:131-205 | one round updates exactly the named process by its first failing endpoint and notifies on the transition to unhealthy |
| HealthCheck.FirstError | src/health_check.rs:143-154 | nothing exactly when no endpoint failed, otherwise the error of the first one that did |
| HealthCheck.StatusOfRounds | src/health_check.rs:156-204 | unhealthy exactly when the trailing failures reach max(1, threshold); one notification per maximal failure run that does |
| HealthCheck.StoreOfRounds | src/health_check.rs:99-205 | for every interleaving of the seedings and rounds of many processes, each with its own threshold, what the store says of a process and how often it was notified are those of its own rounds, and it has an entry exactly from its seeding or first probing round on |
| HealthCheck.NotificationsOnlyGrow | src/health_check.rs:168-190 | notifications are only ever added at the end |
| FleetReport.Aggregate | src/commands/report.rs:213-222 | every project's count and memory are those of its processes and sum to the totals |
| FleetReport.BuildReport | src/commands/report.rs:206-257 | totals, balanced breakdown and the top consumers in the requested order |
| FleetReport.LinePerTag | src/commands/report.rs:213-222 | every line is that of the processes tagged with its name, apart from the one that also takes the untagged |
| FleetReport.UntaggedLineIff | src/commands/report.rs:218 | the line for untagged processes counts only those if and only if no project has its name |
| FleetReport.TopConsumersPartition | src/commands/report.rs:225-239 | the min(5, n) listed and the omitted processes are together the input; sorted as requested; the order does not change the choice |
| FleetReport.TopConsumersDominate | src/commands/report.rs:234-237 | no omitted process uses more memory than a listed one |

## Left out

- `speculative_prefetch`: its effect is further insertions; the thread escape itself is not modelled.
- `serve_lock`: the sidecar file and mandatory locks of Windows, directory creation, failing reads, and two handles in one process.
- `serve_lock`: reading and writing the text are each one step.
- `Graph`: `neighbors` and `nodes` would only add easy members; `bfs` from a node that is not in the graph panics in the source and is a precondition here.
- Audit log: building the record and its JSON text, failing writes, and environment parsing of budget and retention.
- `coordination.rs`: `clear`, `len`, `is_empty`, and the order of concurrent file writes beyond `SameSnapshotDoubleGrant`.
- `rate_limiter.rs`: `reset` and `available`; a clock too close to its origin for the subtraction.
- `history.rs`: the zero-padded text of the date, reading and clearing the history file.
- `config_edit.rs`: the text codecs of floats, arrays and objects are parameters; validation and saving of the new configuration.
- Retry: unchecked builds, where the shift and the product wrap. A caster's inner answers are listed up to the number of attempts allowed.
- Health: HTTP and TCP probing, time stamps, running without a notifier, and the 32-bit limit of the failure counter.
- Report: uptime, thermal and agent fields, 64-bit overflow of the memory sum, text and CSV rendering.
- Configuration, sessions, dashboard, authentication, FUSE, mesh and the small utility modules: plumbing, presentation, code that rests on libraries, or easy members.
