# Chronos-µVM checkpoint and replication core, in Dafny

This project models the deterministic core of Chronos-µVM and proves what it promises: the
supervisor's dispatch / checkpoint / replicate cycle, and the structures it relies on — guarded guest
memory with its dirty bitmap, the sparse Merkle tree and checkpoint chain, the XOR + run-length delta
codec, the replication ring and the standby's apply loop, the record/replay event log, and the
round-robin scheduler.

`dafny verify dfyconfig.toml` checks everything.

| file | component |
|---|---|
| `Bytes.dfy` | bytes, pages, digests, machine integers, injective encodings |
| `DirtyPages.dfy` | dirty-page bitmap |
| `GuestMemory.dfy` | guest memory layout, bounds, growth, and the executor's contract |
| `MerkleTree.dfy` | sparse Merkle tree against the dense 2^32-leaf tree |
| `CheckpointChain.dfy` | hash chain of checkpoints |
| `RunLength.dfy`, `DeltaCodec.dfy` | page deltas |
| `Replication.dfy` | ring and standby |
| `EventLog.dfy` | record / replay |
| `Cells.dfy`, `Scheduling.dfy` | cells, scheduler |
| `Protocol.dfy` | the supervisor as a step machine; what holds of every run |
| `CheckpointSpacing.dfy` | how far apart checkpoints are |
| `StandbyConsistency.dfy` | primary, ring, network and standby together |
| `LossyDelivery.dfy` | a network that loses, reorders and repeats batches |
| `Supervisor.dfy` | the supervisor object, its invariant and value, and its whole life as a run of the machine |

## The main results

* **Incremental checkpoint = full checkpoint.** On every run, with any number of cells, spawns, faults,
  rejected pushes and consumer pops, every entry of every chain carries the dense Merkle root of *all*
  of that cell's memory at that tick, although only dirty pages are rehashed, and the register digest
  reported then (`Protocol.IncrementalCheckpointIsFull`).
* **Standby prefix consistency.** In every interleaving of cycles, faults, back-pressure, pops,
  deliveries and redeliveries, the standby's pages are the primary's memory exactly as the quantum of
  `last_applied_tick` left it, and what is still queued brings it to the last successful push
  (`StandbyConsistency.StandbyPrefixConsistency`); the standby's own root is the one the primary's chain
  declares (`StandbyRootMatchesChain`). This holds exactly when every clean page is zero at the moment
  replication is enabled (`EnableInTime`), and a supervisor can reach a state where it is not
  (`LateEnableReachable`).
* **Losses and reordering.** For any arrivals the standby is that of in-order delivery of the record-high
  ones; a page is right exactly when the newest batch carrying it was accepted or an older one left the
  same bytes (`LossyDelivery.LossyStandby`). A gap goes unnoticed (`GapGoesUnnoticed`). With several
  cells on one stream a page is that of the cell that flushed it last (`SharedStandby`).
* **The object is the machine.** The supervisor object keeps an invariant over all its cells, queue and
  ring (disjoint ownership included), each method moves its value as the step machine does, and every
  sequence of calls is a run from boot (`SupervisorLoop.LifeIsRun`), so the results above hold of it.
* **Sparse = dense.** The level-by-level loop over hash maps, in any iteration order, computes the root
  of the full tree; every page is authenticated by its path of siblings, and equal roots of different
  memories, or a path from other content, exhibit a hash collision.
* **Chain.** A chain replays to its latest hash; two different claim sequences, of any lengths, with one
  final hash exhibit a collision.
* **Deltas.** Two engines stay in lock-step on any run of commits; run-length coding is a bijection onto
  canonical run lists; a delta decodes correctly exactly when it is raw or the receiver still holds the
  sender's previous copy.
* **Replay.** A deterministic guest gets the same answers on the import of the exported log, in any
  export order and whatever the world says the second time (`EventLog.ReplayOfExport`); a recording keeps
  every call exactly when no tick is revisited. On any log at all replay never consults the real sources
  (`EventLog.ReplayIgnoresWorld`).
* **Scheduling.** Round-robin fairness under churn, bounded waiting, and exact checkpoint spacing in terms
  of the configured intervals.

Conventions. The hash is an arbitrary function parameter `h` from byte strings to 32-byte digests;
nothing is assumed of it, so binding is stated by producing a collision. Iteration over a hash map is an
arbitrary pick from the remaining keys. `usize` is 64 bits. The executor is any behaviour that honours
its contract (`GuestMemory.Honest`): growth in whole pages within the quota, no mark removed, every page
whose content changed is marked. A whole-run statement quantifies over every finite sequence of steps; a
step that is impossible in the current state changes nothing.

Where code and documentation disagree the code is followed: the register digest is folded into the chain
hash and is not a tree leaf; regions are rounded to pages, not to powers of two; `verify_chain` never
returns its `Empty` error; the standby loop does not itself recompute roots (the theorem above says that
check would succeed), and it rejects stale ticks but accepts gaps.

## Model

| member | source | states |
|---|---|---|
| `DirtyPages.IterDirty` | chronos-mem/src/dirty.rs:45-55 | yields exactly the marked pages, strictly ascending |
| `DirtyPages.AscendingUnique` | chronos-mem/src/dirty.rs:44-55 | an ascending listing is determined by the set, so the order depends on the marked set alone |
| `DirtyPages.SetBit` | chronos-mem/src/dirty.rs:28-34 | setting one bit of a word changes that bit only |
| `DirtyPages.DirtyPageSet.constructor` | chronos-mem/src/dirty.rs:16-23 | starts empty with room for the requested pages |
| `DirtyPages.DirtyPageSet.Mark` | chronos-mem/src/dirty.rs:26-35 | adds exactly that page to the set and keeps the cached count equal to its cardinality, marked twice or once |
| `DirtyPages.DirtyPageSet.IsDirty` | chronos-mem/src/dirty.rs:38-42 | true exactly for members, false out of range |
| `DirtyPages.DirtyPageSet.Len` | chronos-mem/src/dirty.rs:57-59 | the cardinality of the set |
| `DirtyPages.DirtyPageSet.IsEmpty` | chronos-mem/src/dirty.rs:61-63 | true exactly when nothing is marked |
| `DirtyPages.DirtyPageSet.ClearAll` | chronos-mem/src/dirty.rs:70-75 | the empty set, with the count in sync |
| `GuestMemory.MmapGuardedMemory.New` | chronos-mem/src/guarded_memory.rs:107-175 | each failure and only it, else exactly the requested size committed under the requested quota, every byte of the page-rounded region zero and no page dirty |
| `GuestMemory.MmapGuardedMemory.Translate` | chronos-mem/src/guarded_memory.rs:191-212 | approves exactly the ranges that end within the committed size; a refusal names pointer, length and size |
| `GuestMemory.MmapGuardedMemory.GrowBy` | chronos-mem/src/guarded_memory.rs:214-226 | commits exactly the requested pages when they fit the quota and returns the previous page count, or fails unchanged with the truncated request |
| `GuestMemory.MmapGuardedMemory.MarkDirty` | chronos-mem/src/guarded_memory.rs:240-242 | marks that page and changes nothing else |
| `GuestMemory.MmapGuardedMemory.PageBytes` | chronos-mem/src/guarded_memory.rs:244-252 | the content of that page, in bounds |
| `GuestMemory.MmapGuardedMemory.StoreBytes` | chronos-mem/src/guarded_memory.rs:61-64 | an approved store writes exactly its range and marks every page it touched; a refused one does nothing |
| `GuestMemory.StoreEffect` | chronos-mem/src/guarded_memory.rs:61-64 | byte by byte what a store writes, and that it marks exactly the pages on which it wrote a byte |
| `GuestMemory.ApprovedExactly` | chronos-mem/src/guarded_memory.rs:191-226 | after any guest run exactly the ranges within the initial size plus the growth granted on the way are approved |
| `GuestMemory.ApprovedPagesAreWhole` | chronos-mem/src/guarded_memory.rs:244-246 | every page an approved access touches is a whole committed page, exactly when the size is page-aligned |
| `GuestMemory.GuestRunLayout` | chronos-mem/src/guarded_memory.rs:191-226 | over any guest run, at any initial size, the committed size only grows and stays within the quota, and the region keeps its length |
| `GuestMemory.ApprovedForever` | chronos-mem/src/guarded_memory.rs:191-226 | over any guest run, page-aligned or not, an approved range stays approved, ends below the guard page and touches only pages the dirty set can hold; at a page-aligned size those are whole committed pages |
| `GuestMemory.GuestRunHonest` | chronos-mem/src/guarded_memory.rs:61-64 | every sequence of stores, marks and growths honours the executor's contract and keeps the memory invariant |
| `GuestMemory.HonestKeepsOk` | chronos-mem/src/guarded_memory.rs:79-83 | size within quota, only whole committed pages dirty, nothing written outside the committed part |
| `MerkleTree.DefaultHashes` | chronos-mem/src/smt.rs:19-30 | entry d is the digest of an all-zero subtree of depth d, entry 0 that of a page of zero bytes |
| `MerkleTree.EmptyTreeIsDefault` | chronos-mem/src/smt.rs:16-30 | the dense tree over zero pages has the default digest at every node |
| `MerkleTree.SparseMerkleTree.UpdateLeaf` | chronos-mem/src/smt.rs:53-56 | replaces that leaf's cached digest and no other |
| `MerkleTree.SparseMerkleTree.ParentLevel` | chronos-mem/src/smt.rs:83-101 | one level up: exactly the parents of the present nodes, each the hash of its even child's digest followed by its odd child's, with defaults for absent ones, in any iteration order |
| `MerkleTree.SparseMerkleTree.WalkUp` | chronos-mem/src/smt.rs:79-102 | at any depth up to 32, present nodes hold the dense digests and absent ones are all-zero subtrees |
| `MerkleTree.SparseMerkleTree.Root` | chronos-mem/src/smt.rs:73-108 | the dense root when all indices are below 2^32; in general the dense digest of some top node |
| `MerkleTree.SingleTopNode` | chronos-mem/src/smt.rs:82-107 | the walk ends in one node, number 0, exactly when every index is below 2^32 |
| `MerkleTree.CacheRootIsDenseRoot` | chronos-mem/src/smt.rs:36-41 | the root depends on page contents, not on which zero pages were touched |
| `MerkleTree.FindCollision` | chronos-mem/src/smt.rs:82-102 | walking down two trees with equal digests towards a differing page yields two messages with one hash |
| `MerkleTree.RootBinding` | chronos-mem/src/smt.rs:73-108 | memories that differ below page 2^32 and have equal roots exhibit a collision |
| `MerkleTree.PathLeadsUp` | chronos-mem/src/smt.rs:83-101 | from any node, hashing with its siblings level by level, left where its index is even and right where it is odd, gives the node any number of levels above |
| `MerkleTree.PathBinding` | chronos-mem/src/smt.rs:83-101 | a path that leads from a different digest to the true node exhibits a collision |
| `MerkleTree.RootPath` | chronos-mem/src/smt.rs:73-108 | every page below 2^32 is authenticated by its 32 siblings |
| `MerkleTree.RootPathBinding` | chronos-mem/src/smt.rs:73-108 | other content authenticated at the same index, by any siblings, exhibits a collision |
| `CheckpointChain.CheckpointLog.RehashDirty` | chronos-mem/src/smt.rs:159-161 | the leaf cache changes at exactly the dirty pages, to the digests of their contents |
| `CheckpointChain.CheckpointLog.Checkpoint` | chronos-mem/src/smt.rs:152-186 | appends one entry carrying the given tick, the root of the rehashed cache and the given register digest, linked to its predecessor or to genesis |
| `CheckpointChain.CheckpointLog.Audit` | chronos-mem/src/smt.rs:188-210 | replaying a log's own claims reproduces its latest hash |
| `CheckpointChain.VerifyChain` | chronos-mem/src/smt.rs:193-206 | the fold of the claims from genesis, never an error |
| `CheckpointChain.ReplayAgrees` | chronos-mem/src/smt.rs:165-206 | a linked chain replays to its latest hash |
| `CheckpointChain.LinkMessageInjective` | chronos-mem/src/smt.rs:171-176 | the hashed link message determines predecessor, root, registers and tick |
| `CheckpointChain.LinkMessageParts` | chronos-mem/src/smt.rs:171-176 | which bytes of the message hold the previous hash, the root, the register digest and each byte of the little-endian tick |
| `CheckpointChain.ChainHashGrows` | chronos-mem/src/smt.rs:193-206 | the chain starts from the hash of the label and each claim hashes predecessor, root, registers and tick in that order |
| `CheckpointChain.TamperEvidence` | chronos-mem/src/smt.rs:193-206 | two different claim sequences, of any lengths, with one final hash yield an explicit collision |
| `RunLength.RleEncode` | chronos-mem/src/delta.rs:152-173 | the output is canonical and denotes the page, hence is the unique such list |
| `RunLength.RleDecode` | chronos-mem/src/delta.rs:175-187 | for any run list, what it denotes, cut or zero-padded to a page, with every access in bounds |
| `RunLength.ExpandEncode` | chronos-mem/src/delta.rs:152-187 | decoding an encoding gives the bytes back |
| `RunLength.EncodeCanonical` | chronos-mem/src/delta.rs:152-173 | literals hold no zero, only the first zero run and the last literal may be empty |
| `RunLength.EncodeExpand` | chronos-mem/src/delta.rs:152-187 | every canonical list is the encoding of what it denotes |
| `RunLength.CanonicalUnique` | chronos-mem/src/delta.rs:152-187 | two canonical lists that denote the same bytes are equal |
| `RunLength.EncodeCost` | chronos-mem/src/delta.rs:109-109 | cost is the number of non-zero bytes plus 8 per record, with at most one record more than non-zero bytes |
| `DeltaCodec.DeltaEngine.constructor` | chronos-mem/src/delta.rs:67-72 | knows no page, whatever its initial capacity |
| `DeltaCodec.DeltaEngine.EnsureCapacity` | chronos-mem/src/delta.rs:74-79 | makes room without changing what is known |
| `DeltaCodec.DeltaEngine.DiffAndCommit` | chronos-mem/src/delta.rs:86-123 | emits the specified delta, raw on first touch, and adopts the content as the page's baseline, no other page changing |
| `DeltaCodec.DeltaEngine.Apply` | chronos-mem/src/delta.rs:127-149 | returns the raw bytes, or byte by byte the exclusive or of the known page with the expanded runs, and adopts it |
| `DeltaCodec.XorBuffers` | chronos-mem/src/delta.rs:102-105 | bytewise exclusive or |
| `DeltaCodec.DecodesIff` | chronos-mem/src/delta.rs:86-149 | a delta decodes to the committed page exactly when it is raw or the receiver holds the sender's previous copy |
| `DeltaCodec.DiffIs` | chronos-mem/src/delta.rs:86-123 | the delta is Xor exactly when the page is known and 8 bytes per record plus the number of changed bytes are below a page; its runs are the canonical form of the exclusive or |
| `DeltaCodec.LockStep` | chronos-mem/src/delta.rs:86-149 | on any run of commits applied in order every output is the committed page and both baselines agree |
| `DeltaCodec.CommitAllHolds` | chronos-mem/src/delta.rs:111-114 | a page's baseline is its last committed content |
| `DeltaCodec.SparseChangeIsXor` | chronos-mem/src/delta.rs:107-118 | at most 454 changed bytes of a known page are always sent as Xor, at 9 bytes per change plus 8 |
| `Replication.DeltaRing.Push` | chronos-replicate/src/lib.rs:66-73 | enqueues and publishes the tick while there is room, else reports the capacity and changes nothing |
| `Replication.DeltaRing.Drain` | chronos-replicate/src/lib.rs:80-86 | everything queued, in order, leaving the queue empty |
| `Replication.RingSafety` | chronos-replicate/src/lib.rs:66-86 | in every interleaving pushed = popped + queued, the queue is bounded, and the published tick never decreases and lags by at most the push in progress |
| `Replication.StandbyApplyLoop.Apply` | chronos-replicate/src/lib.rs:158-170 | rejects a tick that is not newer, naming the last applied and the offered one, unchanged; else applies all deltas in order and moves to the batch's tick |
| `Replication.TickZeroReapplies` | chronos-replicate/src/lib.rs:159-159 | a tick-0 Xor batch delivered twice corrupts the standby |
| `Replication.InOrderTick` | chronos-replicate/src/lib.rs:158-170 | in-order delivery of rising ticks is never rejected |
| `Replication.DuplicateSafe` | chronos-replicate/src/lib.rs:158-170 | any redeliveries of a stream of rising ticks leave the standby as exactly-once delivery does, Xor deltas included |
| `EventLog.EventRecorder.NextOrdinal` | chronos-core/src/event_log.rs:88-96 | numbers the calls of a tick from 0, restarting when the tick changes |
| `EventLog.EventRecorder.WallClockNow` | chronos-core/src/event_log.rs:141-160 | records and returns the real value; in replay returns the logged one, a missing-entry error for an absent key or a type mismatch for a logged buffer, each naming tick and ordinal, the log unchanged |
| `EventLog.EventRecorder.RandomBytes` | chronos-core/src/event_log.rs:162-188 | the same for a buffer, with a type mismatch also for another length; an error leaves the buffer untouched |
| `EventLog.EventRecorder.ExportLog` | chronos-core/src/event_log.rs:100-111 | every entry exactly once, in any order |
| `EventLog.EventRecorder.FromReplayLog` | chronos-core/src/event_log.rs:70-86 | replays the imported entries from fresh counters |
| `EventLog.ExportImport` | chronos-core/src/event_log.rs:70-111 | importing any export gives the same log |
| `EventLog.ImportKeepsLast` | chronos-core/src/event_log.rs:70-86 | importing any entries keeps the last value given for each key |
| `EventLog.DistinctKeysIff` | chronos-core/src/event_log.rs:88-96 | keys never repeat exactly when no tick is revisited |
| `EventLog.OrdinalCounts` | chronos-core/src/event_log.rs:88-96 | a call's ordinal is the number of earlier calls of its tick |
| `EventLog.RecordingKeepsEveryCall` | chronos-core/src/event_log.rs:146-175 | the log holds one entry per call exactly when no tick is revisited |
| `EventLog.NonDecreasingIsGrouped` | chronos-core/src/event_log.rs:88-96 | non-decreasing ticks never revisit one |
| `EventLog.ReplayDeterminism` | chronos-core/src/event_log.rs:141-188 | a deterministic guest makes the same requests and gets the same answers on the recorder's own log, whatever the world says |
| `EventLog.ReplayIgnoresWorld` | chronos-core/src/event_log.rs:141-188 | on any log at all, fitting the guest or not, replay gives the same session whatever the real sources say |
| `EventLog.ReplayOfExport` | chronos-core/src/event_log.rs:70-188 | the same on the import of any export of that log, in whatever order it was exported |
| `EventLog.ReplayPastTheEnd` | chronos-core/src/event_log.rs:154-158 | one call past the log is the missing-entry error for its tick and its number within the tick, never a fresh value |
| `Cells.Cell.constructor` | chronos-core/src/cell.rs:37-48 | fresh memory, empty chain, no checkpoint yet |
| `Cells.Cell.SaveCheckpoint` | chronos-core/src/supervisor.rs:145-150 | appends the checkpoint of the current memory and records its tick |
| `Cells.Cell.DirtyDeltas` | chronos-core/src/supervisor.rs:153-171 | one raw delta per dirty page, ascending, with its current content |
| `Cells.FlushBatchIs` | chronos-core/src/supervisor.rs:153-174 | a batch holds exactly the dirty pages, strictly ascending, each raw with its current bytes, under its tick |
| `Cells.Cell.ClearDirtyPages` | chronos-core/src/supervisor.rs:193-200 | clears the dirty set and nothing else |
| `Scheduling.Scheduler.RegisterCell` | chronos-core/src/scheduler.rs:38-40 | appends to the rotation |
| `Scheduling.Scheduler.DeregisterCell` | chronos-core/src/scheduler.rs:45-47 | removes every occurrence, keeping order and clock |
| `Scheduling.Scheduler.NextDispatch` | chronos-core/src/scheduler.rs:55-74 | rotates, advances the clock by one, and reports the front cell and whether its checkpoint is due; nothing when empty |
| `Scheduling.NextDistinct` | chronos-core/src/scheduler.rs:38-66 | fresh registration, deregistration and dispatch keep ids distinct |
| `Scheduling.RoundRobinFairness` | chronos-core/src/scheduler.rs:38-74 | between consecutive dispatches of a cell every other cell that stayed is dispatched exactly once, newcomers not at all |
| `Scheduling.BoundedWait` | chronos-core/src/scheduler.rs:55-66 | while a cell waits, at most the cells ahead of it are dispatched |
| `Scheduling.TicksRiseByOne` | chronos-core/src/scheduler.rs:67-73 | dispatch ticks are consecutive, whatever churn happens in between |
| `Protocol.QuantumKeepsCellOk` | chronos-core/src/supervisor.rs:127-139 | a quantum that marks what it writes keeps clean pages equal to their cached leaves |
| `Protocol.CheckpointIsFull` | chronos-core/src/supervisor.rs:145-150 | rehashing the dirty pages makes every leaf current, so the new root is that of all memory |
| `Protocol.ClearSound` | chronos-core/src/supervisor.rs:180-182 | clearing is sound once every leaf is current |
| `Protocol.AdvanceOk` | chronos-core/src/supervisor.rs:104-186 | every step, faults and rejected pushes included, keeps the invariant |
| `Protocol.EveryRunOk` | chronos-core/src/supervisor.rs:104-186 | so does every run: current clean leaves, linked chains, full roots, checkpoints at least the interval apart |
| `Protocol.IncrementalCheckpointIsFull` | chronos-core/src/supervisor.rs:127-183 | each entry ever appended was taken when its cell ran, carries the dense root of that cell's whole memory then and the register digest the executor then reported |
| `Protocol.EveryChainReplays` | chronos-mem/src/smt.rs:165-206 | on every run each chain replays to its latest hash |
| `Protocol.CycleIsRun` | chronos-core/src/supervisor.rs:104-186 | a whole cycle, defined by what it does to its cell, is the run of the step machine that starts it and finishes its flush |
| `Protocol.CycleOutcome` | chronos-core/src/supervisor.rs:104-186 | for every host and quantum, on every exit: the answer or the back-pressure error with its payload, the rotation and clock, the untouched cells, the front cell's entries, memory and dirty bits, and the ring |
| `CheckpointSpacing.DueStaysOnTime` | chronos-core/src/cell.rs:52-54 | a checkpoint at a due dispatch is less than one rotation late |
| `CheckpointSpacing.EveryRunTimed` | chronos-core/src/scheduler.rs:64-73 | every fault-free run over fixed cells keeps each cell on time |
| `CheckpointSpacing.CheckpointsAreRegular` | chronos-core/src/supervisor.rs:141-150 | consecutive checkpoints are between interval and interval + n - 1 ticks apart, and whole rotations apart |
| `CheckpointSpacing.ConfiguredLowerBound` | chronos-core/src/cell.rs:37-54 | whenever a cell is spawned and whatever else happens, its checkpoints are at least its configured interval apart |
| `CheckpointSpacing.ConfiguredSpacing` | chronos-core/src/cell.rs:37-54 | from boot, cells of any configurations and any fault-free run: both bounds and whole rotations, for each cell's configured interval |
| `StandbyConsistency.NextBatch` | chronos-replicate/src/lib.rs:158-170 | the next batch takes the standby from one checkpointed memory to the next |
| `StandbyConsistency.SysStepOk` | chronos-core/src/supervisor.rs:104-186 | every step of primary, ring, wire and standby keeps the system invariant |
| `StandbyConsistency.StandbyPrefixConsistency` | chronos-core/src/supervisor.rs:141-183 | in every interleaving the standby equals the primary at its last applied tick, and the queued batches bring it to the last push |
| `StandbyConsistency.StartIsReachable` | chronos-core/src/supervisor.rs:77-90 | spawning one cell and enabling replication reaches the state the theorem starts from |
| `StandbyConsistency.StandbyRootMatchesChain` | chronos-replicate/src/lib.rs:135-139 | the root of the standby's pages is the one the primary's chain declares for that tick |
| `StandbyConsistency.LateEnableFails` | chronos-core/src/supervisor.rs:77-79 | a clean non-zero page at enable time never reaches the standby on an idle run |
| `StandbyConsistency.LateEnableReachable` | chronos-core/src/supervisor.rs:74-79 | a supervisor reaches such a late start from boot: spawn, one quantum that writes a byte, enable; and from there the standby goes wrong |
| `StandbyConsistency.EnableInTime` | chronos-core/src/supervisor.rs:74-79 | prefix consistency holds on all later runs exactly when every clean page is zero at enable time |
| `LossyDelivery.ArrivalAccepted` | chronos-replicate/src/lib.rs:158-164 | a batch of a rising stream is accepted exactly when it is newer than everything that arrived before it, gap or no gap |
| `LossyDelivery.OnlyRecordsCount` | chronos-replicate/src/lib.rs:158-170 | for any arrivals, lost, reordered or repeated, the standby is that of in-order delivery of the record-high ones, Xor deltas included |
| `LossyDelivery.PageHeld` | chronos-replicate/src/lib.rs:158-170 | after batches delivered with gaps each page is as the newest delivered batch carrying it left it |
| `LossyDelivery.PageRightIff` | chronos-replicate/src/lib.rs:158-170 | a page is that of the newest applied tick exactly when the newest batch carrying it was accepted or an older accepted one left the same bytes |
| `LossyDelivery.LossyStandby` | chronos-replicate/src/lib.rs:135-170 | so on every run of the whole system, for every sequence of arrivals |
| `LossyDelivery.SharedStandby` | chronos-core/src/supervisor.rs:152-176 | with any number of cells, on every run from boot and for all arrivals, a standby page is that of whichever cell ran at the newest accepted tick whose flush carried it |
| `LossyDelivery.GapGoesUnnoticed` | chronos-replicate/src/lib.rs:153-164 | a reachable run whose first batch is lost: the second is accepted and the standby reports its tick with a wrong page |
| `SupervisorLoop.Supervisor.constructor` | chronos-core/src/supervisor.rs:65-72 | valid, with the value the step machine boots from |
| `SupervisorLoop.Supervisor.EnableReplication` | chronos-core/src/supervisor.rs:77-79 | keeps the supervisor valid; its value changes by a fresh empty ring of that capacity and nothing else |
| `SupervisorLoop.Supervisor.SpawnCell` | chronos-core/src/supervisor.rs:81-90 | keeps the supervisor valid; admits exactly a fresh id whose memory maps, last in the rotation; each error has its payload and leaves the whole value unchanged |
| `SupervisorLoop.Supervisor.CycleCell` | chronos-core/src/supervisor.rs:127-185 | the fault, push-failure and normal exits, with the state of cell, ring and result at each |
| `SupervisorLoop.Supervisor.RunOneCycle` | chronos-core/src/supervisor.rs:104-186 | keeps the supervisor valid and moves its whole value, all cells, rotation, clock and ring, exactly as one cycle of the step machine; answers the dispatched cell and new tick, faulted or not, the back-pressure error on a full ring, and nothing on an empty rotation |
| `SupervisorLoop.CallIsRun` | chronos-core/src/supervisor.rs:77-186 | spawning, enabling and cycling, as those contracts state them, are runs of the step machine between idle moments |
| `SupervisorLoop.LifeIsRun` | chronos-core/src/supervisor.rs:65-186 | whatever is called in whatever order, a supervisor's value is that of a run from boot, so every result about runs holds of it |
| `SupervisorLoop.AlwaysReady` | chronos-core/src/supervisor.rs:104-116 | no sequence of calls leaves a queued cell missing or with dirty pages that cannot be read: the next cycle can be called until the clock runs out |

## Left out

- StandbyConsistency.StandbyPrefixConsistency: stated for one cell, because a batch does not name its cell; with several cells a standby page belongs to whichever cell flushed it last (`LossyDelivery.SharedStandby`), so it is no single cell's memory.
- Protocol.EveryRunOk: cells have page-aligned initial memory, which `page_bytes` demands; `GuestMemory.ApprovedPagesAreWhole` shows why. A run ends where the 64-bit clock would overflow.
- SupervisorLoop.Supervisor.RunOneCycle: the executor is a script of guest operations with a verdict and a digest; pending I/O completions are not drained. The dispatched memory must be made of whole pages, which `page_bytes` asks only of cycles that take a checkpoint.
- SupervisorLoop.LifeIsRun: spawns have page-aligned initial memory, as in `Protocol.EveryRunOk`; refused calls change nothing and are not listed.
- LossyDelivery.LossyStandby: for one cell and a standby that starts fresh, as in prefix consistency; `SharedStandby` has any number of cells.
- EventLog.EventRecorder.NextOrdinal: ordinals are unbounded; 2^64 calls within one tick are not modelled.
- io_uring, file descriptors and pending completions: kernel I/O and thin map and queue wrappers.
- `mmap`, `mprotect`, `munmap` and raw pointers: their two failure answers are a parameter, their effect is a zeroed array.
- The internals of BLAKE3 and of the lock-free queue: an arbitrary function and an atomic bounded FIFO.
- The producer handle holding a raw address: its push is the same two steps.
- Memory ordering of the published tick: loads and stores are sequentially consistent.
- Wasm execution, fault printing and error texts.
- Mechanisms described in the architecture document but absent from the code: userfaultfd, KVM, power-of-two regions, a reserved register leaf, failover.
