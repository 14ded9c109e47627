# Level2 collector: a verified model

Level2 collects samples from OPC UA servers, keeps the latest one per tag in memory, and writes
the changes to a TimescaleDB historian. This project models the parts of it that carry state,
concurrency or non-trivial algorithms, and proves what they guarantee:

* **Sample pipeline.** The fan-in loop and its store of latest samples (`FanIn`, `FanInSpec`), the
  race between a historian wipe, the fan-in loop and quality marks (`WipeSafety`), batching with a
  disk spool (`Spool`, `FlushLoop`, `ReplayLoop`), the interleaving of batching and replay
  (`FlushReplay`) and the order in which it replays (`FlushOrder`).
* **Idempotency cache.** The locked sections as methods (`IdempotencyCache`) and the protocol of
  requests, waiters, expiry and eviction over all interleavings (`Idempotency`), when a key runs once
  at a time (`IdempotencyOnce`), what an eviction does to that (`IdempotencyEvict`), and what clients
  are told (`IdempotencyAnswers`).
* **Address space.** Paging and batching of browse requests (`Browse`), the batched expansion with
  one level of lookahead (`Expand`), what it enumerates and how it relates to the simulator's plain
  walk (`ExpandPaths`), what the tags of both are called (`ExpandNames`), chunked data type reads
  (`DataTypes`).
* **Capacity policy.** The chunk plan (`ChunkPlan`), the trim loop and its verdicts (`Capacity`), and
  what a verdict does to a batch (`FlushPolicy`).
* **Configuration.** Tag lists as values (`TagLists`), Go slices on the heap (`TagSlices`,
  `DeviceSlices`), the store, its snapshots and its operations (`ConfigStore`), and the bulk upsert
  (`BulkUpsert`).
* **Project comparison.** The sorted key union (`SortedKeys`) and the diff (`Compare`).
* **Parsers and trees.** Node ids as text (`NodeId`, `NodeIdForms`), the line reader of the expand
  stream (`Ndjson`), tag id allocation and the clean-up of ids (`TagIds`, `TagIdText`), the tag tree as
  a value, with its places and keys, and as the objects it is built from (`TagTree`, `TagTreePlaces`,
  `TagTreeBuild`), strings (`Text`).

## How to read it

Code that changes things step by step is a method or a class with the source's fields, proved
against a function that says what it computes; what the source promises is then proved about that
function, in terms that do not mention it: fields, memberships, counts, order and inverses.

A concurrent protocol is a state machine: every locked section or channel operation is one action, an
action that is not enabled does nothing, and a run is any list of actions, so a lemma about
`Exec(Init, actions)` speaks of every interleaving. History fields (samples forwarded, batches
accepted, channels closed) are kept beside the state and never read by it. An uninterrupted run of
the steps is tied back to the sequential method (`IterationIsOneArrival`, `FlushIsItsSteps`,
`TurnIsFourSteps`).

Properties that turned out to hold only under a condition are stated with that condition, both ways:

* A wipe followed by a successful reseed loses nothing exactly when no suppressible lookup was
  in flight for a tag already gone from the store at the moment of the snapshot
  (`WipeSafety.WipeIsLossless`), for payloads when no quality is flipped meanwhile and for value
  fields whatever is flipped. A first wipe always meets this; two wipes in a row need not
  (`WipeSafety.TwoWipesCanBeUnsafe`).
* As long as nothing was evicted, a key runs once at a time exactly when no retrying waiter starts
  its run over an entry of its key that is in flight or unexpired
  (`IdempotencyOnce.OneRunAtATimeIff`): the retry inserts without the check the first section makes.
  Waiters that wake in time never retry (`IdempotencyOnce.RunsAtMostOnce`); two that wake after
  expiry run together (`IdempotencyOnce.LateWaitersRunTogether`). With evictions the condition is
  that no run starts while an entry of its key, in the table or forgotten by it, is in flight or
  unexpired (`IdempotencyEvict.RunsAreAloneIff`), and an eviction alone can break it
  (`IdempotencyEvict.EvictionRunsTogether`).
* `MergeTags` equals repeated `UpsertTag` exactly on devices whose tag ids are unique
  (`TagLists.MergeRefinesUpsertIffUnique`).
* A printed node id parses back exactly when its identifier is non-empty, trimmed and free of the
  separators of earlier kinds (`NodeId.RoundTrip`); the driver then reaches the same node for numbers
  and strings only (`NodeId.PrintedNodesResolve`).
* A composite tag key splits back exactly when the device id holds no NUL (`Compare.KeySplitsBack`),
  and tags of two devices can share a key exactly when one id followed by NUL is a prefix of the
  other (`Compare.NulDeviceIdsCollide`).
* A browse path is plainly the names along it joined with dots exactly when the first name is not
  empty or is the only one; empty names in front leave no dot (`ExpandNames.PlainlyJoinedIff`).
* Under `drop_oldest` a database that answers truly admits a write exactly when there is room, and
  halts exactly when there is none and nothing to drop (`Capacity.EnforceDropOldest`).
* For chunks ordered by start, a plan's cutoff drops exactly the planned chunks if and only if their
  ranges have ended by then (`ChunkPlan.CutoffDropsPrefix`).

One more is shown from both sides without a condition between them: operations with arguments of
their own never change a snapshot (`ConfigStore.SnapshotsAreIsolated`), while a device of a snapshot
handed back to `UpsertDevice`, which nothing in the repository does, is not copied, and later edits
show through (`ConfigStore.SnapshotHandedBackIsShared`).

`dafny verify dfyconfig.toml` checks the whole project.

## Model

| member | source | states |
|---|---|---|
| Samples.SamePayloadIsEquality | internal/core/types.go:38-72 | two samples have the same payload exactly when quality and the three value pointers agree as values; time and tag id do not matter |
| FanIn.Live.constructor | internal/store/live.go:24-26 | a new store is empty |
| FanIn.Live.Update | internal/store/live.go:28-48 | sets exactly one tag's sample, and keeps at most the five newest positive receive intervals in whole milliseconds |
| FanIn.Live.Get | internal/store/live.go:50-58 | the stored sample of the tag, or nothing |
| FanIn.Live.All | internal/store/live.go:60-68 | every stored sample exactly once, in any order of map iteration |
| FanIn.Live.Clear | internal/store/live.go:109-118 | empties the store and returns how many samples it held |
| FanIn.Live.MarkQuality | internal/store/live.go:82-105 | in the order of the ids, flips the quality of stored samples that have another one and returns exactly those |
| FanInSpec.MarkingMeans | internal/store/live.go:82-105 | marking sets the quality of exactly the stored tags named that have another, and their time when one is given; nothing else of them changes |
| FanInSpec.MarkingReports | internal/store/live.go:82-105 | each tag whose quality changed is reported once, as it is then stored, and no other |
| FanInSpec.MarkingGoesInOrder | internal/store/live.go:85-103 | the ids are gone through from front to back |
| FanIn.FanIn | internal/api/fanin.go:14-46 | the loop's forwards, broadcasts, suppression count and final store are those of the step-by-step run over the input |
| FanIn.Restamp | internal/api/database.go:297-300 | every sample of the snapshot gets the new time in place and nothing else changes |
| FanIn.ReseedAfterWipe | internal/api/database.go:288-305 | the store always ends empty; the batch handed to the historian is the whole snapshot restamped; a failed write counts nothing as written |
| FanInSpec.ArriveOnTag | internal/api/fanin.go:23-40 | one arrival merges into and forwards for its own tag only |
| FanInSpec.ArrivalStores | internal/api/fanin.go:23-44 | field by field: the stored and broadcast sample has the arrival's time, quality and tag; its values are those stored before exactly when the tag was known and the arrival is not good and carries none; it is forwarded exactly when the tag was unknown or quality or a value changed |
| FanInSpec.ChangedQualityIsForwarded | internal/api/fanin.go:32-44 | a changed quality always reaches the historian |
| FanInSpec.StoreFollowsInput | internal/api/fanin.go:14-46 | for every input, each tag that arrived is stored with the time and quality of its last sample and the values of its last sample that said something about them |
| FanInSpec.SuppressionIsLossless | internal/api/fanin.go:14-46 | from an empty store, for every input and tag: broadcasts are the merged input, forwards are the merged input de-stuttered, and the store holds its last sample |
| FanInSpec.DeStutterHasNoStutter | internal/api/fanin.go:11-13 | de-stuttering keeps the first sample, ends on the last payload and leaves no two equal neighbours |
| FanInSpec.ForwardsNeverStutter | internal/api/fanin.go:11-13 | no tag is forwarded twice in a row with one payload, and the store's payload is the last one forwarded |
| FanInSpec.MarksLoseNoValue | internal/store/live.go:82-105 | with any quality marks between the arrivals, arrivals equal forwards plus suppressions, and the value fields of the store are those last forwarded for the tag |
| FanInSpec.RestampedSnapshot | internal/api/database.go:292-301 | a restamped snapshot holds each stored sample once with the new time |
| WipeSafety.IterationIsOneArrival | internal/api/fanin.go:19-43 | the protocol's lookup, store and forward, uninterrupted, are one iteration of the sequential loop |
| WipeSafety.WipeIsItsSteps | internal/api/database.go:284-305 | a wipe nobody interrupts snapshots the whole store, leaves it empty, and can fail only in writing a non-empty snapshot |
| WipeSafety.StoredValuesAreForwarded | internal/api/live_display.go:53 | in every interleaving without a clear, quality marks at any moment included, the value fields of each stored sample are those of the last sample forwarded for its tag, or of the pending one |
| WipeSafety.WipeIsLossless | internal/api/database.go:288-305 | after truncate, snapshot, clear and a successful reseed everything stored is in the snapshot, forwarded since, or pending, in every continuation up to the next wipe, if and only if the snapshot was taken in a Safe state: value fields whatever quality marks fall between, whole payloads without marks |
| WipeSafety.StaleLookupLosesPayload | internal/api/fanin.go:32-38 | from any unsafe state there is a continuation without marks that stores a payload, and a value, no one keeps |
| WipeSafety.FirstWipeIsSafe | internal/api/database.go:284-293 | in every interleaving before the first clear, marks included, the state is Safe |
| WipeSafety.TwoWipesCanBeUnsafe | internal/api/database.go:288-305 | for any sample, an interleaving of two wipes and one fan-in iteration, without marks, reaches an unsafe state, from which the payload and the value can be lost |
| WipeSafety.FirstSampleAfterClearIsForwarded | internal/api/database.go:284-287 | whether or not the reseed succeeds and whatever is marked, every tag but the one in flight at the clear gets its first later sample forwarded, up to the next clear |
| WipeSafety.StraddlerIsForwarded | internal/api/fanin.go:32-38 | the sample in flight at the clear, unless it is suppressed itself, is forwarded after the clear or still on its way |
| WipeSafety.StraddlersNextCanBeSuppressed | internal/api/fanin.go:32-38 | from every state with a lookup in flight at the clear there is a continuation in which that tag's first later sample is suppressed |
| Spool.NamesFollowTheClock | internal/spool/spool.go:41 | for clock readings of equal digit count, string order on file names is numeric order |
| Spool.NameInjective | internal/spool/spool.go:41 | different clock readings give different names |
| Spool.WithoutLaws | internal/spool/spool.go:72-76 | removing a file forgets that name and no other |
| Spool.PutLaws | internal/spool/spool.go:41-46 | writing a file sets that name and no other |
| Spool.FileSpool.constructor | internal/spool/spool.go:21-29 | opens a directory with whatever files an earlier process left in it; a non-positive limit becomes 1000 |
| Spool.FileSpool.Enqueue | internal/spool/spool.go:31-47 | reports success exactly for an empty batch or a complete write below the limit, and only then is the batch stored; a full spool changes nothing |
| Spool.FileSpool.List | internal/spool/spool.go:50-58 | all file names, in any directory order |
| Spool.FileSpool.Load | internal/spool/spool.go:60-70 | succeeds exactly for a complete file of that name and returns its batch |
| Spool.FileSpool.Remove | internal/spool/spool.go:72-76 | removes that file and no other |
| Spool.PickOldest | cmd/collector/flush.go:87-92 | the first of the names that none sorts before |
| FlushLoop.Flush | cmd/collector/flush.go:21-56 | accepted batches touch nothing, a halt discards, everything else goes to the spool and is dropped only when Enqueue fails |
| FlushLoop.FlushLoop | cmd/collector/flush.go:57-71 | the batches handed out, in order, are exactly the samples taken, in order; at every tick everything taken so far has been handed out; no batch is empty or longer than 200, and a shorter one ends at a tick or at the end; every batch meets the fate its answer calls for, and a spooled one stays readable under its name |
| FlushLoop.ProtocolCutsAlike | cmd/collector/flush.go:57-71 | uninterrupted, the protocol's arrivals and ticks hand the historian batches cut in just that way |
| FlushLoop.FlushAndLog | cmd/collector/flush.go:21-56 | one more flush keeps the account of all earlier ones |
| FlushLoop.FlushIsItsSteps | cmd/collector/flush.go:27-53 | the protocol's answer, open and close steps, uninterrupted, are one flush |
| ReplayLoop.ReplayTurn | cmd/collector/flush.go:80-115 | a turn takes the oldest file: written and removed, kept when refused, or removed unwritten when unreadable |
| ReplayLoop.OldestInAnyOrder | cmd/collector/flush.go:87-92 | which file is oldest does not depend on the order of the listing |
| ReplayLoop.TurnIsFourSteps | cmd/collector/flush.go:80-115 | the protocol's list, load, write and remove, uninterrupted, are one turn |
| FlushReplay.EverySampleIsSomewhere | cmd/collector/flush.go:17-117 | from any directory an earlier process may have left, in every interleaving each sample found or received is in exactly one of buffer or batch in hand, historian, spool, deliberate drops, or files removed unread, but for replay's write-to-remove window |
| FlushReplay.CorruptBranchDiscardsNothingStored | cmd/collector/flush.go:93-98 | because listing and enqueueing share the mutex, the corrupt-file branch never discards a batch that was found or that Enqueue reported stored, as long as complete files can be read |
| FlushOrder.ReplayIsInOrder | cmd/collector/flush.go:73-117 | with names that ascend, in every interleaving and whatever reads fail: the stored files are, in order, those removed and those still on disk; names of stored and of replayed files ascend, and only stored files are replayed |
| FlushOrder.OnlyUnreadIsSkipped | cmd/collector/flush.go:93-98 | under the same assumption every file stored before a replayed one was replayed too, or was removed unread |
| FlushOrder.RunIsInOrder | cmd/collector/flush.go:81-111 | replay wrote exactly the files it removed as written, in order, and the one in its write-to-remove window; with ascending names it works on the first file |
| FlushOrder.ReplayIsFifo | cmd/collector/flush.go:81-111 | with ascending names and no failed read, what replay wrote is a prefix of what was stored and the rest is still on disk in order |
| FlushOrder.SteadyClockAscends | internal/spool/spool.go:41 | increasing clock readings of one digit count, after the names found at the start, give ascending names |
| FlushReplay.FaultNeedsFailedRead | cmd/collector/flush.go:93-98 | complete files are only given up after a failed read |
| FlushOrder.ReplayWritesInSpoolOrder | cmd/collector/flush.go:73-117 | with a steady clock replay writes stored files in the order they were stored, whatever reads fail, and without failed reads skips none |
| FlushPolicy.FlushThroughPolicy | cmd/collector/flush.go:27-53 | in a database that answers truly a batch is written exactly when there is room and it can be inserted, and discarded exactly when there is none and the policy has nothing to drop; in any, a batch is discarded on a halt only if nothing was dropped for it, and once room was made it is written, or spooled whenever the spool can take it |
| Idempotency.PurgeLaws | internal/api/idempotency.go:167-173 | a purge removes exactly the finished entries the clock has passed, and none in flight |
| Idempotency.RoomForOne | internal/api/idempotency.go:131-135 | evict-then-insert grows the table past the limit only while everything in it is in flight |
| Idempotency.DecideMeans | internal/api/idempotency.go:96-129 | what waiting, replaying, refusing and running each say about the key's entry and fingerprint |
| Idempotency.EveryInterleavingIsSound | internal/api/idempotency.go:85-155 | in every interleaving each wait channel is closed exactly once, every unfinished entry has its one runner, replays return the recorded answer of the same key and fingerprint, refusals name another fingerprint, and the table holds at most 4096 entries or the peak in flight |
| IdempotencyAnswers.ReplaysTellTheRun | internal/api/idempotency.go:140-165 | in every interleaving a replayed client is told what one run of the same key and fingerprint produced: its body, its status or 200 when it set none, its content type or the header when it set none |
| IdempotencyAnswers.EveryAnswerIsTold | internal/api/idempotency.go:134-154 | in every interleaving each finished entry tells what its owner's run produced and expires one lifetime after that run completed, and each unfinished one a lifetime after it started |
| IdempotencyAnswers.WakeAnswersIff | internal/api/idempotency.go:106-116 | a woken waiter is answered exactly if its key's entry is finished, of its fingerprint and unexpired; otherwise it retries |
| IdempotencyAnswers.DeadKeyRuns | internal/api/idempotency.go:94-136 | a request with nothing under its key but perhaps a finished and expired entry runs at once, under a new entry that expires a lifetime later |
| IdempotencyAnswers.KeylessRequestsBypass | internal/api/idempotency.go:86-90 | in every interleaving exactly the requests without a key bypass the cache |
| IdempotencyOnce.OneRunAtATimeIff | internal/api/idempotency.go:85-155 | in every interleaving without an eviction: of every two runs of one key the earlier had completed and expired before the later started, if and only if no retried run started while its key had an entry in flight or unexpired |
| IdempotencyOnce.RunsAtMostOnce | internal/api/idempotency.go:85-155 | so it is in every run without evictions in which every waiter wakes before expiry |
| IdempotencyOnce.PunctualWaiterIsAnswered | internal/api/idempotency.go:106-113 | a waiter that wakes before expiry gets exactly the recorded status, content type and body |
| IdempotencyOnce.InFlightSurvives | internal/api/idempotency.go:167-192 | no step purges or evicts an entry in flight; only a retrying waiter on the key replaces it |
| IdempotencyOnce.LiveEntryDecides | internal/api/idempotency.go:94-125 | a request that finds a live entry never runs: it waits, replays or is refused, by fingerprint |
| IdempotencyOnce.LateWaitersRunTogether | internal/api/idempotency.go:106-136 | a concrete run without evictions in which two waiters that woke after expiry execute at the same time |
| IdempotencyEvict.NewKeyEvicts | internal/api/idempotency.go:131-135 | a new key in a full table of unexpired entries pushes the victim out and runs |
| IdempotencyEvict.ForgottenRunOverlaps | internal/api/idempotency.go:94-136 | a request whose key was evicted while its entry was in flight or unexpired starts an overlapping run, without any retry |
| IdempotencyEvict.EvictionRunsTogether | internal/api/idempotency.go:175-192 | there is a run that fills the table, evicts an unexpired answer and runs its key again, without any retry |
| IdempotencyEvict.RunsAreAloneIff | internal/api/idempotency.go:85-155 | in every interleaving, evictions and late waiters included: of every two runs of one key the earlier had completed and expired before the later started, if and only if no run started while an entry of its key, in the table or forgotten, was in flight or unexpired |
| IdempotencyEvict.StartingOverMeans | internal/api/idempotency.go:94-136 | a run that starts over such an entry is a retry over an entry of the table, or runs a key whose entry the table forgot; the first section never starts one over an entry of the table |
| IdempotencyCache.Cache.constructor | internal/api/idempotency.go:36-41 | a non-positive lifetime becomes ten minutes |
| IdempotencyCache.Cache.PurgeExpiredLocked | internal/api/idempotency.go:167-173 | removes exactly the finished entries the clock has passed |
| IdempotencyCache.Cache.EvictOldestLocked | internal/api/idempotency.go:175-192 | removes a finished entry none expires before, if any is finished |
| IdempotencyCache.Cache.InsertLocked | internal/api/idempotency.go:131-135 | makes room when the table is full and adds the entry in flight |
| IdempotencyCache.Cache.Enter | internal/api/idempotency.go:94-136 | the first locked section ends in the phase and state the protocol's decision prescribes |
| IdempotencyCache.Cache.Recheck | internal/api/idempotency.go:107-114 | after waking, a matching unexpired answer is replayed, anything else retries |
| IdempotencyCache.Cache.CompleteLocked | internal/api/idempotency.go:141-154 | records status (200 when none was set), content type (from the header when none was captured) and body, renews the expiry and closes the wait channel once |
| Browse.AllRefsIsConcat | internal/driver/opcua/browse.go:314-334 | without errors a node's references are its pages concatenated |
| Browse.BadPageIsError | internal/driver/opcua/browse.go:307-334 | a bad page is an error exactly if only good ones come before it |
| Browse.NilPageEnds | internal/driver/opcua/browse.go:314-326 | an absent page ends the references without an error |
| Browse.DrainPages | internal/driver/opcua/browse.go:307-334 | following the continuation points returns all references of the node, or the error a page raises |
| Browse.BrowseManyReferences | internal/driver/opcua/browse.go:294-337 | in a request the server takes, slot i is node i's references and any node's error fails it; too many nodes fail it |
| Browse.BrowseRefsMulti | internal/driver/opcua/browse.go:260-291 | slot i is node i's references, for any number of nodes, against every server that takes forty at a time |
| Expand.Children | internal/driver/opcua/browse.go:351-369 | exactly the unbroken references, in order |
| Expand.ExpandFromRefs | internal/driver/opcua/browse.go:339-403 | the batched, one-level-lookahead expansion appends exactly what browsing one node at a time yields, and fails exactly when that fails |
| Expand.ExpandWalk | internal/driver/opcua/browse.go:220-229 | the same from the root node |
| Expand.FillDataTypes | internal/driver/opcua/browse.go:202-218 | every tag gets the type its own node's read gave, resolved with the tag's name, and each chunk is reported once |
| Expand.ExpandStructure | internal/driver/opcua/browse.go:183-200 | with the defaults for depth and tag prefix: the leaves of the expansion, each with its data type; the browse is reported once, then each chunk; a failed expansion reports nothing |
| ExpandPaths.LeavesEnumeratePaths | internal/driver/opcua/browse.go:339-403 | a successful expansion lists, in depth-first order and once each, exactly the reference paths within the depth bound that end at a childless variable |
| ExpandPaths.ErrorFreeSucceeds | internal/driver/opcua/browse.go:339-403 | against a server without errors the expansion succeeds, cycles or not |
| ExpandPaths.ExpansionIsTheLeafPaths | internal/driver/opcua/browse.go:220-229 | from a node: exactly one tag per leaf path of at most maxDepth+1 references |
| ExpandNames.ExpandedTagsAreCalledAfter | internal/driver/opcua/browse.go:351-369 | every tag of a successful expansion has the names along its own leaf path, joined with dots, as browse path, the sanitized prefix and browse path as id, and the last reference's target as node |
| ExpandNames.PlainlyJoinedIff | internal/driver/opcua/browse.go:357-360 | the browse path is plainly the joined names exactly when the first name is not empty or is the only one |
| ExpandPaths.WalkInto | internal/driver/simbrowser/browser.go:128-155 | the simulator's walk appends exactly what its recursion says |
| ExpandPaths.BrowsingTheTree | internal/driver/simbrowser/browser.go:83-94 | only nodes of the tree can be browsed, and no node means the root |
| ExpandNames.WalkedTagsAreCalledAfter | internal/driver/simbrowser/browser.go:128-155 | the walk that succeeds gives, in depth-first order and once each, exactly one tag per leaf path within the bound, called after the names along it |
| ExpandPaths.BatchedExpansionRefinesWalk | internal/driver/simbrowser/browser.go:128-155 | for one depth bound, and a simulator that mirrors the server, the batched expansion and the plain walk give the same tags |
| DataTypes.ChunkRanges | internal/driver/opcua/poll_batch.go:5-18 | nothing for non-positive arguments; otherwise ranges that tile [0,n) in order, all but the last full |
| DataTypes.TilesCoverOnce | internal/driver/opcua/poll_batch.go:5-18 | every index lies in exactly one range |
| DataTypes.Squeeze | internal/driver/opcua/datatype.go:96-107 | the parsable ids of a request and where each came from |
| DataTypes.Scatter | internal/driver/opcua/datatype.go:111-122 | result j goes to slot idxs[j], and no other slot changes |
| DataTypes.ReadChunk | internal/driver/opcua/datatype.go:92-124 | one request fills exactly its own slots |
| DataTypes.ReadDataTypesBatch | internal/driver/opcua/datatype.go:62-130 | slot i is what its own request answered for id i, empty when unparsable or unanswered; progress is reported once per chunk |
| DataTypes.CutResponsesServeAFewSlots | internal/driver/opcua/datatype.go:92-124 | slot i has its node's type exactly if its id parses, its request of a hundred did not fail, and fewer parsable ids come before it there than were answered |
| DataTypes.AnsweredBatchIsPointwise | internal/driver/opcua/datatype.go:59-61 | against a server that answers everything, slot i is the type of node i whatever was squeezed out |
| ChunkPlan.PlanChunkDrop | internal/historian/timescale/capacity_policy.go:223-261 | a plan is the shortest oldest prefix that frees enough, or the longest allowed; it keeps the newest chunk and its cutoff is the start of the first kept one |
| ChunkPlan.CutoffDropsPrefix | internal/historian/timescale/capacity_policy.go:220-221 | for chunks ordered by start, the planned ones are exactly those that start before the cutoff, and the cutoff drops exactly them if and only if their ranges have ended by then |
| ChunkPlan.ChronologicalDropsPrefix | internal/historian/timescale/capacity_policy.go:220-221 | chunks that do not overlap lose exactly the planned prefix |
| ChunkPlan.FreedIsExact | internal/historian/timescale/capacity_policy.go:248-259 | with exact sizes the estimate is what the drop frees |
| ChunkPlan.GuessIsMean | internal/historian/timescale/capacity_policy.go:231-246 | a chunk of unknown size counts as the mean known size, or an even share of the database, rounded down, or one byte |
| ChunkPlan.FreedCounts | internal/historian/timescale/capacity_policy.go:248-259 | the estimate adds the known sizes of the planned chunks and that guess for each other one |
| ChunkPlan.SliceCutMakesProgress | internal/historian/timescale/capacity_policy.go:394-412 | the fallback cut never reaches the newest sample and passes the oldest exactly when they are over a second apart |
| ChunkPlan.SliceCutIs | internal/historian/timescale/capacity_policy.go:394-412 | the fallback cuts an hour, or a tenth of the span when that is longer, past the oldest sample, but a second short of the newest |
| Capacity.Database.constructor | internal/historian/timescale/capacity_policy.go:263-287 | the database starts with its chunks and nothing dropped |
| Capacity.Database.Size | internal/historian/timescale/capacity_policy.go:176-184 | the size query answers truly, fails or misreports |
| Capacity.Database.ListChunks | internal/historian/timescale/capacity_policy.go:263-286 | an honest listing is the chunks, oldest first |
| Capacity.Database.DropChunks | internal/historian/timescale/capacity_policy.go:309-311 | a drop that succeeds removes exactly the chunks older than the cutoff |
| Capacity.Database.DropOldestChunk | internal/historian/timescale/capacity_policy.go:369-426 | success means a drop or delete statement went through, an error that none did; with a second chunk and a database that answers, everything before that chunk goes, otherwise at most what ends before the time slice; an honest database never grows |
| Capacity.ThresholdsAreOrdered | internal/historian/timescale/capacity_policy.go:118-131 | target, approach and limit are in order, and the target is below the limit exactly for limits of two or more |
| Capacity.ThresholdsArePercentages | internal/historian/timescale/capacity_policy.go:118-131 | they are 90 and 85 percent of the limit, rounded down, the target at least one below the limit |
| Capacity.PlanReachesTarget | internal/historian/timescale/capacity_policy.go:304-324 | with exact sizes, a plan credited with the excess leaves the database at or under the target, any other drops the most it may, and it is credited whenever 64 droppable chunks cover the excess |
| Capacity.PlannedDrop | internal/historian/timescale/capacity_policy.go:304-326 | list, plan and drop: credited exactly when the statement went through; in an honest database the plan is carried out |
| Capacity.DropOldestUntilUnder | internal/historian/timescale/capacity_policy.go:290-367 | progress is reported exactly when a drop or delete statement went through; in an honest database four passes of 64 chunks and 32 single rounds reach the target whenever that many of the oldest chunks cover the excess, and 64 that cover it need one pass |
| Capacity.TrimPass | internal/historian/timescale/capacity_policy.go:291-344 | one pass: in an honest database 64 more of the oldest chunks are gone, or the target is reached |
| Capacity.DeleteRounds | internal/historian/timescale/capacity_policy.go:346-366 | the extra rounds keep the same account, one chunk a round |
| Capacity.EnforceDropOldest | internal/historian/timescale/capacity_policy.go:117-174 | at or above the approach threshold: admits exactly when the size after the trim was below the limit, or unreadable and below it before; halts exactly when it was not, nothing was dropped and the trim or the size query failed; is busy otherwise; below the threshold nothing is touched; in a database that answers truly it admits exactly when there is room and halts exactly when there is none and nothing to drop; when its 288 oldest chunks cover the excess the target is reached |
| Capacity.EnforceCapacity | internal/historian/timescale/capacity_policy.go:77-115 | admits exactly when the size or the limit is unknown, or there is room; only drop_oldest touches anything; in a database that answers truly it halts exactly at the limit, under drop_oldest only with nothing to drop |
| Capacity.WriteBatch | internal/historian/timescale/historian.go:81-101 | an empty batch is accepted untouched; another is accepted exactly when it can be inserted and there was room or no telling; a halt dropped nothing |
| NodeId.FirstKindWins | internal/core/nodeid.go:67-75 | the separator found is the first occurrence of its kind, and no kind looked for before it occurs at all; none is found exactly when none occurs |
| NodeIdForms.PrintedForms | internal/driver/opcua/browse.go:405-420 | the four printed forms, letter by letter |
| NodeIdForms.AcceptedTextsHaveNamespace | internal/core/nodeid.go:18-65 | every accepted text splits at a separator into a namespace part, digits below 65536 or a URI that is not blank, and an identifier, digits below 2^32 for a numeric one |
| NodeIdForms.NamespaceMeans | internal/core/nodeid.go:43-57 | a text has a namespace exactly when it gives an index or a URI |
| NodeIdForms.UriNodesResolve | internal/driver/opcua/driver.go:307-329 | a URI is looked up, an unknown one refused, and only numbers and strings are supported |
| NodeIdForms.ShadowedMeans | internal/core/nodeid.go:67-75 | which separators in an identifier mislead the parser, kind by kind |
| NodeId.ParseOfPrinted | internal/core/nodeid.go:18-65 | what the parser makes of any printed text: an error exactly for a blank, ambiguous or non-numeric identifier, otherwise the printed namespace and kind with the identifier trimmed |
| NodeId.RoundTrip | internal/driver/opcua/browse.go:405-420 | numbers always come back; a named identifier comes back exactly when non-empty, trimmed and free of earlier separators |
| NodeId.PrintedNodesResolve | internal/driver/opcua/driver.go:307-329 | a printed node resolves to itself exactly for numbers and for unambiguous strings |
| NodeId.UriFormParses | internal/core/nodeid.go:49-54 | a namespace URI, a separator and an unambiguous identifier parse to exactly those |
| NodeId.ShorthandIsNamespaceZero | internal/core/nodeid.go:23-29 | a text that starts with a kind parses like the same text in namespace 0 |
| NodeId.AcceptedTextsAreStable | internal/core/nodeid.go:18-65 | every accepted text yields a namespace in range and a trimmed, unambiguous identifier that parses to itself when printed again |
| Ndjson.HandleLine | web/src/api.js:69-84 | a blank or undecodable line changes nothing; a result replaces the tags, progress is passed on, an error or null stops |
| Ndjson.DecoderMeans | web/src/api.js:69-76 | a line of white space is ignored, and of any other the white space around it is |
| Ndjson.HandleChunk | web/src/api.js:66-85 | the lines completed by a chunk are handled in order up to the first stop, and the rest of the text stays buffered |
| Ndjson.ExpandTags | web/src/api.js:59-89 | outcome and progress are those of the whole text, whatever the chunks |
| Ndjson.LinesOfAppend | web/src/api.js:66-70 | lines cut by a chunk boundary are found across it |
| Ndjson.StopDecides | web/src/api.js:82-84 | nothing after an error event matters |
| Ndjson.WhatStops | web/src/api.js:73-84 | an error and the JSON null stop the stream; undecodable lines, other objects, progress and results do not |
| Ndjson.LastResultIsLast | web/src/api.js:80-81 | a later result replaces an earlier one |
| Ndjson.CompleteStreamDelivers | internal/api/browse_handlers.go:83-118 | a complete stream of progress events and a result or error delivers exactly that, however it is cut |
| Ndjson.BrokenStreamHasNoResult | web/src/api.js:87 | a stream broken off before its last newline never yields tags, only the progress already received |
| TagIds.CleanKeepsNumber | web/src/tagTree.js:82-87 | a number appended to any text survives sanitising, lower-casing and collapsing as the part after the last underscore |
| TagIdText.CleanIsTidy | web/src/tagTree.js:82-87 | a cleaned id has no white space, no capitals and no doubled underscore |
| TagIdText.CleanFixesTidy | web/src/tagTree.js:82-87 | such a text is not changed |
| TagIdText.CleanKeepsLetters | web/src/tagTree.js:82-87 | apart from white space and underscores the clean-up changes nothing but case |
| TagIdText.CleanJoinsWords | web/src/tagTree.js:82-87 | between two words any run of white space and underscores becomes one underscore |
| TagIdText.CandidatesSpellTheirParts | web/src/tagTree.js:80-89 | for tidy parts a candidate is base id, suffix and, from the second on, the number, joined with underscores |
| TagIdText.CandidatesKeepLetters | web/src/tagTree.js:80-89 | any candidate holds the letters of base id, suffix and number, in order and lower case |
| TagIds.CandidatesDiffer | web/src/tagTree.js:85-89 | numbered candidates are pairwise distinct for every base id and suffix |
| TagIds.Rename | web/src/tagTree.js:80-91 | the renaming loop terminates and picks the first free candidate |
| TagIds.PickId | web/src/tagTree.js:80-92 | the base id if free, otherwise the first free candidate |
| TagIds.AllocateUniqueTagIds | web/src/tagTree.js:48-104 | one tag per first occurrence of a node id, each id chosen against those before it; emitted, skipped and node-less items add up to the input; renamed counts the taken base ids |
| TagIds.AllocatedIdsDiffer | web/src/tagTree.js:43-47 | emitted ids are pairwise distinct |
| TagIds.FirstsAreTheNodes | web/src/tagTree.js:55-61 | emitted node ids are pairwise distinct and are exactly the non-empty ones of the input |
| TagIds.FirstsGrow | web/src/tagTree.js:55-61 | tags keep the order of their items |
| TagIds.RenamedCounts | web/src/tagTree.js:80-91 | renamed counts exactly the tags whose id is not their base id |
| TagIds.WithoutNodeCounts | web/src/tagTree.js:56 | the items left over are exactly those without a node id |
| TagIds.FirstsComeFirst | web/src/tagTree.js:57-61 | a node's tag comes from the item where the node first occurs |
| TagIds.AllocationIsUnique | web/src/tagTree.js:48-104 | the allocation is fully determined by the input |
| TagIds.DistinctBasesAreKept | web/src/tagTree.js:80-92 | without colliding base ids nothing is renamed |
| TagTree.NormalizeIsIdempotent | web/src/tagTree.js:1-10 | normalising twice is normalising once |
| TagTree.SegsAtSeparator | web/src/tagTree.js:2-10 | a slash, a backslash or a dot anywhere splits a path into the segments before and after it, runs of dots included |
| TagTree.SegsOfName | web/src/tagTree.js:2-10 | a text without separators is one segment, trimmed, or none |
| TagTree.SegmentsComeBack | web/src/tagTree.js:2-10 | segments joined with slashes are found again by splitting and by normalising |
| TagTree.SegsAreSegments | web/src/tagTree.js:2-10 | the segments of any path are non-empty, trimmed and free of slashes, dots and backslashes |
| TagTree.FolderSegments | web/src/tagTree.js:208-211 | splitting the normalised path, or the fallback, gives exactly the folder names of the tag value's place |
| TagTreePlaces.FallbackIsTheName | web/src/tagTree.js:193-197 | the fallback is the text after the scheme of a namespace URI, in any case, up to the first semicolon |
| TagTreePlaces.OthersHaveNoFallback | web/src/tagTree.js:193-197 | any other node id has none |
| TagTreePlaces.PlacesMean | web/src/tagTree.js:208-211 | a tag value belongs where its path says, and one whose path has no segments where the fallback says |
| TagTreeBuild.BuildTagTree | web/src/tagTree.js:204-238 | walking folder objects, their maps and children lists updated in place, and stripping the maps gives the tree that inserting the tag values one after another gives |
| TagTreeBuild.MapFinds | web/src/tagTree.js:216-221 | a folder's map finds exactly what searching its children by name would find |
| TagTreeBuild.Enter | web/src/tagTree.js:216-222 | going down into a folder that is there changes only what that folder will hold |
| TagTreeBuild.Descend | web/src/tagTree.js:214-222 | one turn of the walk enters the subfolder of that name, made first if it is missing, and leaves every other folder as it is |
| TagTreeBuild.PlaceTag | web/src/tagTree.js:207-230 | one tag value becomes the last leaf of its own folder, in place |
| TagTreeBuild.Strip | web/src/tagTree.js:232-237 | stripping gives the folder's children as values, in order |
| TagTree.LeavesAreInPlace | web/src/tagTree.js:204-230 | for every path, the leaves found there are exactly the tag values that belong there, in input order |
| TagTree.PlacedInOrder | web/src/tagTree.js:207-230 | in input order |
| TagTree.TreesAreShaped | web/src/tagTree.js:214-222 | sibling folder names differ and a folder's key is its path |
| TagTreePlaces.FoldersAreKeyedByPath | web/src/tagTree.js:213-222 | the folder reached by some names is keyed by those names joined with slashes |
| TagTreePlaces.LeavesAreKeyedById | web/src/tagTree.js:223-229 | every leaf is keyed by its tag's id |
| TagTree.NothingIsLost | web/src/tagTree.js:240-244 | collecting the leaves of the built tree gives a permutation of the input |
| TagLists.Validated | internal/api/tags_bulk.go:231-243 | the checked tag keeps its id and node id and has a positive interval |
| TagLists.ValidatedMeans | internal/api/tags_bulk.go:231-243 | a tag passes exactly if its normalised type, or float64 when it has none, is a known one; a missing interval becomes 1000, and nothing else changes; an upsert also needs both ids and a node id that parses |
| TagLists.MergedKeepsUnique | internal/config/store.go:162-178 | a merge keeps tag ids unique |
| TagLists.MergeIsUpserts | internal/config/store.go:145-236 | on unique ids the indexed merge is the fold of single upserts, for every input |
| TagLists.DuplicatesTellThemApart | internal/config/store.go:162-178 | on repeated ids one tag already makes them differ |
| TagLists.MergeRefinesUpsertIffUnique | internal/config/store.go:145-236 | MergeTags refines repeated UpsertTag exactly when ids are unique |
| TagLists.MergedKeepsOthers | internal/config/store.go:166-178 | existing tags keep their position, and their value unless the input names them |
| TagLists.MergedHasInput | internal/config/store.go:166-178 | the last input tag of each id is in the result |
| TagLists.MergedHasNothingElse | internal/config/store.go:166-178 | nothing else is in the result |
| TagLists.WithoutOfConcat | internal/config/store.go:246-254 | deletion keeps the order of the rest |
| TagLists.WithoutRemovesTheId | internal/config/store.go:246-257 | deletion removes exactly the tags with the id, and changes nothing when there is none |
| TagSlices.Append | internal/config/store.go:174 | append writes in place while there is room and copies otherwise; the contents grow by one either way |
| TagSlices.Upsert | internal/config/store.go:220-230 | the first tag with the id is replaced in place, otherwise one is appended |
| TagSlices.BuildIndex | internal/config/store.go:162-165 | the map holds exactly the ids present, each at its last position |
| TagSlices.MergeStep | internal/config/store.go:166-178 | one turn of the merge keeps the map and the slice in agreement |
| TagSlices.MergeInto | internal/config/store.go:162-178 | the merge loop computes the merged list, with added and updated counted |
| TagSlices.Compact | internal/config/store.go:246-254 | compacting into the same backing array leaves exactly the tags without the id, in order |
| TagSlices.ApplyInPlace | internal/config/store.go:286-301 | the selected tags are edited where they are and counted |
| TagLists.CountSelectedCounts | internal/config/store.go:286-301 | the count is the number of tags named, or of all when none is |
| TagLists.FilterMeans | internal/config/store.go:286-291 | empty ids name nothing |
| DeviceSlices.NormalizePollConcurrency | internal/core/types.go:110-121 | between 1 and 16: unchanged inside that range, 4 for what is not positive, 16 for what is too large |
| DeviceSlices.CompactDevices | internal/config/store.go:406-414 | compacting into the same device array leaves exactly the devices without the id, in order |
| DeviceSlices.WithoutDeviceRemovesIt | internal/config/store.go:406-414 | exactly the devices with the id go |
| DeviceSlices.WithoutDeviceOfConcat | internal/config/store.go:406-414 | and the others keep their order |
| DeviceSlices.WithDeviceMeans | internal/config/store.go:361-401 | field by field: an upserted device takes the place of the first of its id, or the end; it keeps the previous tags and password when it brings none; a missing security becomes None |
| DeviceSlices.ProjectOneMeans | internal/config/store.go:442-462 | field by field: a project device takes the place of the last of its id, or the end, keeps the previous tags only in a merge and when it brings none, and gets the password given |
| DeviceSlices.ProjectKeepsOthers | internal/config/store.go:442-462 | stored devices keep their places, and those the project does not name keep everything |
| DeviceSlices.ProjectHasLast | internal/config/store.go:442-462 | the last accepted device of each id in the project ends up stored, with the password its id had before |
| DeviceSlices.ProjectTakesNoPassword | internal/config/store.go:426-462 | after applying a project every device is as it was or has the password its id had before, never the project's |
| ConfigStore.Store.constructor | internal/config/store.go:21-25 | the store wraps the loaded file's devices and the generation starts at 1 |
| ConfigStore.Store.DeviceIndex | internal/config/store.go:186-193 | the first device with the id |
| ConfigStore.Store.MergeTags | internal/config/store.go:143-184 | only that device's tags change, to the merged list; the counts add up; a failed save keeps the edit but neither counts nor bumps the generation |
| ConfigStore.Store.UpsertTag | internal/config/store.go:195-236 | refused tags and unknown devices change nothing; otherwise exactly one tag of one device is set |
| ConfigStore.Store.DeleteTag | internal/config/store.go:238-264 | the tag is gone and nothing else changes; an unknown tag is an error that changes nothing |
| ConfigStore.Store.SetTagsBool | internal/config/store.go:278-310 | the named tags, or all, are edited; naming only unknown tags is an error |
| ConfigStore.Store.SetDeviceTags | internal/config/store.go:326-342 | the device's tags become a copy of the list |
| ConfigStore.Store.ClearDeviceTags | internal/config/store.go:344-359 | the device's tags are gone and were counted |
| ConfigStore.Store.UpsertDevice | internal/config/store.go:361-401 | the device is replaced where it is or added; empty tags and an empty password keep the previous ones; nothing is copied, so the devices stay apart when the caller's slice is no other device's |
| ConfigStore.Store.DeleteDevice | internal/config/store.go:403-424 | the devices without the id move to the front of the same array; an unknown id is an error that changes nothing |
| ConfigStore.Store.ApplyProject | internal/config/store.go:426-470 | the devices of a project replace the store's or are merged into them by id, one after another, with the passwords known before; those without id or endpoint are skipped |
| ConfigStore.Store.Snapshot | internal/config/store.go:29-38 | equal devices in an array of their own, over backing arrays of their own |
| ConfigStore.UpsertEach | internal/config/store.go:195-236 | upserting normalised tags one by one ends, on a device with unique ids, in the merged list |
| ConfigStore.SnapshotsAreIsolated | internal/config/store.go:29-38 | no run of tag and device operations, deletions and project imports included, changes a snapshot taken before it, neither its device list nor any device's tags |
| ConfigStore.SnapshotHandedBackIsShared | internal/config/store.go:375-389 | a snapshot device handed back to UpsertDevice is changed by a later in-place edit |
| BulkUpsert.JudgeSeen | internal/api/tags_bulk.go:47-67 | the verdict on a tag, from the two maps, is the one given by the tags kept before it |
| BulkUpsert.JudgeMeans | internal/api/tags_bulk.go:47-67 | a tag is kept exactly if it has both ids, its node id parses, and no kept tag has its node id or its id; the verdict names the first of these that fails, and the kept tag in the way |
| BulkUpsert.SilentIff | internal/api/tags_bulk.go:55-60 | a tag gives no message exactly if it is kept or repeats a kept one in both ids |
| BulkUpsert.CleanedAreWellFormed | internal/api/tags_bulk.go:43-72 | every kept tag has both ids and a node id that parses, and is a submitted one, trimmed and with its type normalised |
| BulkUpsert.TallyCounts | internal/api/tags_bulk.go:55-66 | skipped counts exactly the duplicates, refused exactly the malformed |
| BulkUpsert.LaterTagsOnlyAdd | internal/api/tags_bulk.go:43-72 | kept tags and messages come in the order of the body |
| BulkUpsert.Deduplicate | internal/api/tags_bulk.go:37-72 | the kept tags, the skip count and the messages are those of judging the body in order |
| BulkUpsert.RefusalsAreReported | internal/api/tags_bulk.go:47-66 | there is a message for tag i, with its reason, if and only if the tag was refused or skipped as a duplicate that is not an exact repetition |
| BulkUpsert.Validate | internal/api/tags_bulk.go:77-85 | the valid tags in order, and the messages for the others in order |
| BulkUpsert.TypeFaultsNameTheInvalid | internal/api/tags_bulk.go:77-85 | those messages name exactly the tags that are not written |
| BulkUpsert.ChecksGoInOrder | internal/api/tags_bulk.go:77-85 | the second loop's tags and messages come in the order of its list |
| BulkUpsert.WrittenWereKept | internal/api/tags_bulk.go:74-87 | every written tag is a kept one, with the type resolved for it, after the checks |
| BulkUpsert.KeptAreWritten | internal/api/tags_bulk.go:74-87 | every kept tag that passes the checks is written |
| BulkUpsert.HandleBulkUpsert | internal/api/tags_bulk.go:23-103 | the device's tags become the merge of its tags with those written; the messages are those of the deduplication, then those of the checks; submitted equals wrote plus skipped plus refused |
| BulkUpsert.CleanedIsDistinct | internal/api/tags_bulk.go:55-71 | after deduplication neither ids nor node ids repeat |
| BulkUpsert.NothingVanishes | internal/api/tags_bulk.go:55-67 | a well-formed tag is kept or its node id or id is represented by a kept one |
| BulkUpsert.DistinctTagsAreAllKept | internal/api/tags_bulk.go:43-72 | a list with distinct ids and node ids is kept whole and without messages |
| BulkUpsert.BulkLosesNothing | internal/api/tags_bulk.go:87-90 | on a device with unique ids: ids stay unique, every written tag is there exactly once, all others keep place and value, and nothing else appears |
| SortedKeys.ExchangeSort | internal/projectxlsx/compare.go:125-131 | the in-place exchange sort orders the keys and keeps their members |
| SortedKeys.UnionKeys | internal/projectxlsx/compare.go:112-133 | the sorted, duplicate-free union of the keys, for every order in which the maps are visited |
| SortedKeys.SortedIsUnique | internal/projectxlsx/compare.go:112-133 | a sorted duplicate-free list is determined by its members |
| Compare.IndexDevices | internal/projectxlsx/compare.go:94-100 | the last device with an id wins |
| Compare.DeviceIndexIsLast | internal/projectxlsx/compare.go:94-100 | the index has exactly the ids present, each with the last device of that id |
| Compare.IndexTags | internal/projectxlsx/compare.go:102-110 | the last tag with a composite key wins |
| Compare.SplitKey | internal/projectxlsx/compare.go:135-142 | cut at the first NUL, or no device |
| Compare.KeySplitsBack | internal/projectxlsx/compare.go:135-142 | a composite key splits back exactly when the device id holds no NUL |
| Compare.CompareServers | internal/projectxlsx/compare.go:27-47 | the server rows, key by key |
| Compare.CompareTags | internal/projectxlsx/compare.go:52-77 | the tag rows, key by key |
| Compare.Compare | internal/projectxlsx/compare.go:22-79 | the rows do not depend on the order of any map iteration |
| Compare.DiffSwaps | internal/projectxlsx/compare.go:22-79 | exchanging the projects swaps A with B and added with removed, row by row in the same order |
| Compare.EmptyDiffMeansAgreement | internal/projectxlsx/compare.go:22-79 | no rows exactly when the indexed devices and tags agree on every compared field |
| Compare.FieldRowsAre | internal/projectxlsx/compare.go:38-46 | a changed row is there exactly for each field whose texts differ, with both texts |
| Compare.ServerRowsSay | internal/projectxlsx/compare.go:27-47 | a server's rows in full: one for a missing side, with the endpoint, or one per differing endpoint, user name and security, in that order |
| Compare.TagRowsSay | internal/projectxlsx/compare.go:52-77 | a tag's rows in full: one for a missing side, with the node id, or one per differing field of seven, in order, under its device and tag id |
| Compare.RowsFollowKeys | internal/projectxlsx/compare.go:27-77 | rows come in the order of the keys |
| Compare.ServerRowsAreComplete | internal/projectxlsx/compare.go:27-47 | a server row is there exactly when some key of either side asks for it |
| Compare.TagRowsAreComplete | internal/projectxlsx/compare.go:52-77 | a tag row is there exactly when some key of either side asks for it |
| Compare.TagRowsPatch | internal/projectxlsx/compare.go:64-76 | applying a tag's changed rows to its fields in A gives exactly its fields in B |
| Compare.ServerRowsPatch | internal/projectxlsx/compare.go:38-46 | the same for a device |
| Compare.RowsSettleExistence | internal/projectxlsx/compare.go:30-37 | applied to A, the rows of an entity make it exist exactly when it exists in B |
| Compare.TagIndexIsLookup | internal/projectxlsx/compare.go:102-110 | with device ids free of NUL the composite index is the lookup by device and tag id |
| Compare.KeysCollideIff | internal/projectxlsx/compare.go:106 | two tags share a key exactly when both ids agree, or one device id followed by NUL is a prefix of the other and the tag ids make up the difference |
| Compare.NulDeviceIdsCollide | internal/projectxlsx/compare.go:106 | tags of two different devices can share a key exactly when one device id followed by NUL is a prefix of the other |

## Left out

Assumptions of the concurrent models:

- One fan-in loop and one wipe at a time; `publishLive` of the write API, which updates the store without forwarding, is not a writer in `WipeSafety` or `FanInSpec`.
- WipeSafety.WipeIsLossless: its form on whole payloads speaks of continuations without quality marks, because a mark changes a stored quality without a forward; its form on value fields speaks of all.
- The historian's batch write is atomic, the spool's remove succeeds, and two enqueues never get the same clock reading.
- Cancelling a context is the end of a run; the batch lost in flight on cancellation of the fan-in loop's send is not counted.
- A process crash in the middle of a spool write is not a step; a file it leaves behind is one that does not decode in the directory the next process opens.
- A panic inside an idempotent run, which would leave its entry in flight, is not modelled; fingerprints are opaque.

Simplifications of data:

- Numbers are unbounded integers where the source has int64 or float64; the 0.90 and 0.85 fractions are exact floors; not-a-number and signed zero in sample values are left out.
- Upper and lower case are ASCII; the tag id sanitizer of the expansion and the trimming and type normalisation of the bulk upsert are arbitrary functions.
- TagIds.AllocateUniqueTagIds: the base id, the node suffix and the payload of an item are arbitrary functions of it, so the property holds for the source's own; a missing item is one with an empty node id.
- TagTreeBuild.BuildTagTree: the display name of a leaf is not captured.
- Ndjson.ExpandTags: reads decoded text; a multi-byte character cut by a chunk is the decoder's concern.
- Browse.BrowseManyReferences: a transport error, and a response with another number of results than nodes, are bad pages.
- Capacity.Database.DeleteBefore: the delete removes rows without freeing chunk bytes in the model, as a vacuum is not part of it.
- NodeId.PrintedNodesResolve: the namespace table of the server is an arbitrary lookup.

Not modelled:

- The setters of the store for single values (tag simulation, capacity policy), and its readers.
- Mapping OPC UA data types to value types, guessing types from names, alias tables, poll concurrency and role tables: finite case analyses.
- `resolveCapacityLimit`: the limit is a parameter.
- Poll workers and subscriptions, the write API, HTTP routing, authentication, WebSocket broadcast, metrics, logging, SQL, spreadsheet cells, React pages.
- The comparison does not look at passwords, poll concurrency or subscription mode; neither does the model.
