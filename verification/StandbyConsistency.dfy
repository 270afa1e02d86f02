/** The end-to-end theorem: a one-cell supervisor, its ring, a network and a standby, under every
    interleaving of cycles, faults, rejected pushes, pops, deliveries and redeliveries. */
module StandbyConsistency {
  import opened Bytes
  import opened Cells
  import opened CheckpointChain
  import opened DeltaCodec
  import opened GuestMemory
  import opened MerkleTree
  import opened Protocol
  import opened Replication
  import opened Scheduling

  /** `sent` is every batch ever enqueued; the first `delivered` of them reached the standby, the
      following ones are on the wire, the rest still in the ring. */
  datatype System = System(
    machine: Machine,
    sent: seq<TickBatch>,
    wire: seq<TickBatch>,
    delivered: nat,
    standby: Standby)

  datatype SysStep = Primary(quantum: Quantum) | EndFlush | Pop | Deliver | Redeliver(i: nat)

  /** A cycle of the primary, up to the moment its batch is enqueued. */
  function PrimaryNext(s: System, q: Quantum, saved: CellState, batch: TickBatch): System
    requires Dispatchable(s.machine.host)
  {
    var m := StartedMachine(s.machine, q, saved, batch);
    s.(machine := m, sent := if m.phase.Flushing? then s.sent + [batch] else s.sent)
  }

  ghost function SysNext(h: HashFn, s: System, step: SysStep): System
  {
    match step
    case Primary(q) =>
      if MayRun(s.machine, q) then
        PrimaryNext(s, q, CheckpointOf(h, s.machine.host, q), BatchOf(s.machine.host, q))
      else s
    case EndFlush =>
      s.(machine := Protocol.Advance(h, s.machine, FinishFlush))
    case Pop =>
      if s.machine.host.ring.Some? && s.machine.host.ring.value.queue != [] then
        s.(machine := Protocol.Advance(h, s.machine, ConsumerPop),
           wire := s.wire + [s.machine.host.ring.value.queue[0]])
      else s
    case Deliver =>
      if s.wire != [] then
        s.(wire := s.wire[1..], delivered := s.delivered + 1, standby := Receive(s.standby, s.wire[0]))
      else s
    case Redeliver(i) =>
      if i < s.delivered <= |s.sent| then s.(standby := Receive(s.standby, s.sent[i])) else s
  }

  ghost function SysRun(h: HashFn, s: System, steps: seq<SysStep>): System
    decreases |steps|
  {
    if steps == [] then s else SysRun(h, SysNext(h, s, steps[0]), steps[1..])
  }

  /** Replication enabled, one cell spawned, nothing run yet. */
  function SysStart(config: CellConfig, capacity: nat): System
  {
    var host := Host(map[config.id := FreshCell(config)], [config.id], 0, Some(Ring(capacity, [], 0)));
    System(Machine(host, Idle(Ok(None)), [], [], []), [], [], 0, FRESH_STANDBY)
  }

  // ---------------------------------------------------------------- the invariant

  /** Page `p` of the primary as tick `t` left it; all zero before the first tick. */
  function PageThen(past: seq<Memory>, t: nat, p: nat): Page
    requires t <= |past|
  {
    if t == 0 then ZeroPage() else PageAt(past[t - 1].bytes, p)
  }

  /** Batch `i` is the flush of tick `t`, and pages it leaves out did not change since the
      previous batch. */
  ghost predicate BatchOk(past: seq<Memory>, sent: seq<TickBatch>, i: nat)
    requires i < |sent|
  {
    var t := sent[i].tick;
    && TickAfter(sent, i) <= |past| && 0 < t <= |past|
    && MemoryOk(past[t - 1])
    && sent[i] == FlushBatch(past[t - 1], t)
    && forall p: nat :: p !in past[t - 1].dirty ==> PageThen(past, t, p) == PageThen(past, TickAfter(sent, i), p)
  }

  ghost predicate PipelineOk(ring: Ring, sent: seq<TickBatch>, wire: seq<TickBatch>, delivered: nat, now: nat)
  {
    && IncreasingTicks(sent)
    && TickAfter(sent, |sent|) <= now
    && delivered <= |sent|
    && wire + ring.queue == sent[delivered..]
  }

  ghost predicate HistoryOk(past: seq<Memory>, sent: seq<TickBatch>)
  {
    forall i :: 0 <= i < |sent| ==> BatchOk(past, sent, i)
  }

  /** A page of memory `m` has not changed since the last enqueued batch. */
  ghost predicate Replicated(m: Memory, past: seq<Memory>, last: nat, p: nat)
    requires last <= |past|
  {
    PageAt(m.bytes, p) == PageThen(past, last, p)
  }

  /** What a clean dirty bit guarantees to the standby. */
  ghost predicate CleanOk(m: Memory, past: seq<Memory>, last: nat, flushing: bool)
    requires last <= |past|
  {
    forall p: nat :: p !in m.dirty || flushing ==> Replicated(m, past, last, p)
  }

  ghost predicate StandbyOk(past: seq<Memory>, sent: seq<TickBatch>, delivered: nat, standby: Standby)
    requires delivered <= |sent|
  {
    && standby.lastApplied == TickAfter(sent, delivered) <= |past|
    && forall p: nat :: Known(standby.pages, p) == PageThen(past, standby.lastApplied, p)
  }

  /** Every batch enqueued has its entry in the checkpoint chain. */
  ghost predicate SentCheckpointed(sent: seq<TickBatch>, entries: seq<Entry>)
  {
    forall i :: 0 <= i < |sent| ==> HasEntry(entries, sent[i].tick)
  }

  ghost predicate HasEntry(entries: seq<Entry>, tick: u64)
  {
    exists j :: 0 <= j < |entries| && entries[j].claim.tick == tick
  }

  ghost predicate SystemOk(h: HashFn, s: System, c: CellId)
  {
    var host, past := s.machine.host, s.machine.past;
    && MachineOk(h, s.machine)
    && host.order == [c] && host.cells.Keys == {c} && host.ring.Some?
    && PipelineOk(host.ring.value, s.sent, s.wire, s.delivered, |past|)
    && HistoryOk(past, s.sent)
    && CleanOk(host.cells[c].mem, past, TickAfter(s.sent, |s.sent|), s.machine.phase.Flushing?)
    && StandbyOk(past, s.sent, s.delivered, s.standby)
    && SentCheckpointed(s.sent, host.cells[c].entries)
  }

  // ---------------------------------------------------------------- applying a raw batch

  lemma {:induction false} ApplyRaw(b: Baseline, m: Memory, pages: seq<nat>, p: nat)
    ensures Known(ApplyDeltas(b, RawDeltas(m, pages)), p) == if p in pages then PageAt(m.bytes, p) else Known(b, p)
    decreases |pages|
  {
    if pages != [] {
      var ds := RawDeltas(m, pages);
      assert ds[1..] == RawDeltas(m, pages[1..]);
      ApplyRaw(ApplyDelta(b, ds[0]), m, pages[1..], p);
      assert p in pages <==> p == pages[0] || p in pages[1..];
    }
  }

  lemma DirtyListComplete(m: Memory, p: nat)
    requires MemoryOk(m)
    ensures p in DirtyList(m) <==> p in m.dirty
  {
    PagesBelowMembers(m.dirty, RoundUp(m.quota) / PAGE_SIZE);
    if p in m.dirty {
      assert Whole(p, m.size);
    }
  }

  /** The next batch takes the standby from one checkpointed memory to the next. */
  lemma NextBatch(past: seq<Memory>, sent: seq<TickBatch>, k: nat, standby: Standby)
    requires IncreasingTicks(sent) && k < |sent| && BatchOk(past, sent, k)
    requires StandbyOk(past, sent, k, standby)
    ensures StandbyOk(past, sent, k + 1, Receive(standby, sent[k]))
  {
    var t := sent[k].tick;
    var m := past[t - 1];
    var next := Receive(standby, sent[k]);
    assert k > 0 ==> sent[k - 1].tick < t;
    assert next == Standby(ApplyDeltas(standby.pages, RawDeltas(m, DirtyList(m))), t);
    forall p: nat
      ensures Known(next.pages, p) == PageThen(past, t, p)
    {
      ApplyRaw(standby.pages, m, DirtyList(m), p);
      DirtyListComplete(m, p);
    }
  }

  /** A redelivered batch is rejected. */
  lemma OldBatchRejected(past: seq<Memory>, sent: seq<TickBatch>, k: nat, standby: Standby, i: nat)
    requires IncreasingTicks(sent) && i < k <= |sent| && StandbyOk(past, sent, k, standby)
    ensures ApplyBatch(standby, sent[i]).Err? && Receive(standby, sent[i]) == standby
  {
  }

  // ---------------------------------------------------------------- more history

  lemma PastExtends(past: seq<Memory>, m: Memory, sent: seq<TickBatch>)
    requires HistoryOk(past, sent)
    ensures HistoryOk(past + [m], sent)
  {
    forall i | 0 <= i < |sent|
      ensures BatchOk(past + [m], sent, i)
    {
      assert BatchOk(past, sent, i);
      var t, u := sent[i].tick, TickAfter(sent, i);
      forall p: nat | p !in past[t - 1].dirty
        ensures PageThen(past + [m], t, p) == PageThen(past + [m], u, p)
      {
        assert PageThen(past, t, p) == PageThen(past, u, p);
      }
    }
  }

  lemma StandbyPastExtends(past: seq<Memory>, m: Memory, sent: seq<TickBatch>, k: nat, standby: Standby)
    requires k <= |sent| && StandbyOk(past, sent, k, standby)
    ensures StandbyOk(past + [m], sent, k, standby)
  {
  }

  /** Enqueuing the flush of the newest tick extends the history. */
  lemma HistoryExtends(past: seq<Memory>, sent: seq<TickBatch>, m: Memory, t: u64)
    requires HistoryOk(past, sent) && MemoryOk(m) && t == |past| && t > 0 && past[t - 1] == m
    requires TickAfter(sent, |sent|) < t
    requires forall p: nat :: p !in m.dirty ==> Replicated(m, past, TickAfter(sent, |sent|), p)
    ensures HistoryOk(past, sent + [FlushBatch(m, t)])
  {
    var longer := sent + [FlushBatch(m, t)];
    forall i | 0 <= i < |longer|
      ensures BatchOk(past, longer, i)
    {
      assert TickAfter(longer, i) == TickAfter(sent, i);
      if i < |sent| {
        assert BatchOk(past, sent, i);
      } else {
        forall p: nat | p !in m.dirty
          ensures PageThen(past, t, p) == PageThen(past, TickAfter(longer, i), p)
        {
          assert Replicated(m, past, TickAfter(sent, |sent|), p);
        }
      }
    }
  }

  // ---------------------------------------------------------------- every step

  /** What a cycle of a one-cell supervisor with replication does, seen from outside: the dirty
      set survives every exit, and a batch is enqueued exactly on the successful one. */
  lemma PrimaryEffects(s: Host, q: Quantum, saved: CellState, batch: TickBatch, c: CellId)
    requires Dispatchable(s) && s.order == [c] && s.cells.Keys == {c} && s.ring.Some?
    requires saved.mem == q.after && s.cells[c].entries <= saved.entries
    ensures var started := BeginWith(s, q, saved, batch);
      && started.host.order == [c] && started.host.cells.Keys == {c} && started.host.ring.Some?
      && started.host.cells[c].mem == q.after
      && s.cells[c].entries <= started.host.cells[c].entries
      && (started.phase.Flushing? ==>
          && started.host.ring.value.queue == s.ring.value.queue + [batch]
          && started.host.cells[c] == saved)
      && (!started.phase.Flushing? ==> started.host.ring == s.ring)
  {
  }

  lemma SavedCell(h: HashFn, s: Host, q: Quantum)
    requires Dispatchable(s)
    ensures var saved := CheckpointOf(h, s, q);
      && saved.mem == q.after && s.cells[s.order[0]].entries <= saved.entries
      && HasEntry(saved.entries, s.tick + 1)
  {
    var c := s.cells[s.order[0]];
    assert CheckpointOf(h, s, q).entries[|c.entries|].claim.tick == s.tick + 1;
  }

  lemma SentStays(sent: seq<TickBatch>, entries: seq<Entry>, more: seq<Entry>)
    requires SentCheckpointed(sent, entries) && entries <= more
    ensures SentCheckpointed(sent, more)
  {
  }

  /** An honest quantum: pages still clean afterwards have not changed since the last batch. */
  lemma CleanAfterQuantum(before: Memory, after: Memory, past: seq<Memory>, last: nat)
    requires Honest(before, after) && last <= |past| && CleanOk(before, past, last, false)
    ensures CleanOk(after, past + [after], last, false)
  {
  }

  /** Right after its flush is enqueued the whole memory is replicated, dirty or not. */
  lemma CleanAfterFlush(m: Memory, past: seq<Memory>)
    requires past != [] && past[|past| - 1] == m
    ensures CleanOk(m, past, |past|, true)
  {
  }

  lemma SentExtends(ring: Ring, ring': Ring, sent: seq<TickBatch>, wire: seq<TickBatch>, k: nat, now: nat, b: TickBatch)
    requires PipelineOk(ring, sent, wire, k, now) && ring'.queue == ring.queue + [b] && b.tick == now + 1
    ensures PipelineOk(ring', sent + [b], wire, k, now + 1)
  {
  }

  lemma StandbySentExtends(past: seq<Memory>, sent: seq<TickBatch>, longer: seq<TickBatch>, k: nat, standby: Standby)
    requires k <= |sent| && sent <= longer && StandbyOk(past, sent, k, standby)
    ensures StandbyOk(past, longer, k, standby)
  {
  }

  lemma SentCheckpointedExtends(sent: seq<TickBatch>, entries: seq<Entry>, b: TickBatch)
    requires SentCheckpointed(sent, entries) && HasEntry(entries, b.tick)
    ensures SentCheckpointed(sent + [b], entries)
  {
  }

  /** A cycle with those effects keeps the system invariant. */
  lemma PrimaryKeeps(h: HashFn, s: System, m: Machine, after: Memory, batch: TickBatch, c: CellId)
    requires SystemOk(h, s, c) && MachineOk(h, m) && Honest(s.machine.host.cells[c].mem, after)
    requires s.machine.phase.Idle?
    requires m.past == s.machine.past + [after] && |m.past| < U64_LIMIT && batch == FlushBatch(after, |m.past|)
    requires m.host.order == [c] && m.host.cells.Keys == {c} && m.host.ring.Some?
    requires m.host.cells[c].mem == after && s.machine.host.cells[c].entries <= m.host.cells[c].entries
    requires m.phase.Flushing? ==>
      && m.host.ring.value.queue == s.machine.host.ring.value.queue + [batch]
      && HasEntry(m.host.cells[c].entries, |m.past|)
    requires !m.phase.Flushing? ==> m.host.ring == s.machine.host.ring
    ensures SystemOk(h, s.(machine := m, sent := if m.phase.Flushing? then s.sent + [batch] else s.sent), c)
  {
    var past, before, last := s.machine.past, s.machine.host.cells[c], TickAfter(s.sent, |s.sent|);
    CleanAfterQuantum(before.mem, after, past, last);
    PastExtends(past, after, s.sent);
    StandbyPastExtends(past, after, s.sent, s.delivered, s.standby);
    SentStays(s.sent, before.entries, m.host.cells[c].entries);
    if m.phase.Flushing? {
      HonestKeepsOk(before.mem, after);
      HistoryExtends(m.past, s.sent, after, |m.past|);
      CleanAfterFlush(after, m.past);
      StandbySentExtends(m.past, s.sent, s.sent + [batch], s.delivered, s.standby);
      SentCheckpointedExtends(s.sent, m.host.cells[c].entries, batch);
      SentExtends(s.machine.host.ring.value, m.host.ring.value, s.sent, s.wire, s.delivered, |past|, batch);
    }
  }

  lemma PrimaryCycle(h: HashFn, s: System, q: Quantum, c: CellId, saved: CellState, batch: TickBatch)
    requires SystemOk(h, s, c) && MayRun(s.machine, q)
    requires saved.mem == q.after && s.machine.host.cells[c].entries <= saved.entries
    requires HasEntry(saved.entries, s.machine.host.tick + 1) && batch == FlushBatch(q.after, s.machine.host.tick + 1)
    requires MachineOk(h, StartedMachine(s.machine, q, saved, batch))
    ensures SystemOk(h, PrimaryNext(s, q, saved, batch), c)
  {
    PrimaryEffects(s.machine.host, q, saved, batch, c);
    PrimaryKeeps(h, s, StartedMachine(s.machine, q, saved, batch), q.after, batch, c);
  }

  lemma PrimaryOk(h: HashFn, s: System, q: Quantum, c: CellId)
    requires SystemOk(h, s, c) && MayRun(s.machine, q)
    ensures SystemOk(h, PrimaryNext(s, q, CheckpointOf(h, s.machine.host, q), BatchOf(s.machine.host, q)), c)
  {
    QuantumOk(h, s.machine, q);
    SavedCell(h, s.machine.host, q);
    PrimaryCycle(h, s, q, c, CheckpointOf(h, s.machine.host, q), BatchOf(s.machine.host, q));
  }

  lemma CleanAfterClear(m: Memory, past: seq<Memory>, last: nat)
    requires last <= |past| && CleanOk(m, past, last, true)
    ensures CleanOk(m.(dirty := {}), past, last, false)
  {
    forall p: nat
      ensures Replicated(m.(dirty := {}), past, last, p)
    {
      assert Replicated(m, past, last, p);
    }
  }

  lemma FinishEffects(h: HashFn, m: Machine, c: CellId)
    requires m.phase.Flushing? && m.phase.id == c && m.host.cells.Keys == {c} && m.host.ring.Some?
    ensures var m' := Protocol.Advance(h, m, FinishFlush);
      && m'.past == m.past && m'.phase.Idle? && m'.host.order == m.host.order && m'.host.cells.Keys == {c}
      && m'.host.cells[c] == ClearDirty(m.host.cells[c])
      && m'.host.ring.Some? && m'.host.ring.value.queue == m.host.ring.value.queue
  {
  }

  lemma EndFlushOk(h: HashFn, s: System, c: CellId)
    requires SystemOk(h, s, c)
    ensures SystemOk(h, SysNext(h, s, EndFlush), c)
  {
    AdvanceOk(h, s.machine, FinishFlush);
    if s.machine.phase.Flushing? {
      FinishEffects(h, s.machine, c);
      CleanAfterClear(s.machine.host.cells[c].mem, s.machine.past, TickAfter(s.sent, |s.sent|));
    }
  }

  lemma PopPipeline(ring: Ring, sent: seq<TickBatch>, wire: seq<TickBatch>, k: nat, now: nat)
    requires PipelineOk(ring, sent, wire, k, now) && ring.queue != []
    ensures PipelineOk(PopFront(ring), sent, wire + [ring.queue[0]], k, now)
  {
  }

  lemma PopOk(h: HashFn, s: System, c: CellId)
    requires SystemOk(h, s, c)
    ensures SystemOk(h, SysNext(h, s, Pop), c)
  {
    AdvanceOk(h, s.machine, ConsumerPop);
    var ring := s.machine.host.ring.value;
    if ring.queue != [] {
      PopPipeline(ring, s.sent, s.wire, s.delivered, |s.machine.past|);
    }
  }

  lemma DeliverPipeline(ring: Ring, sent: seq<TickBatch>, wire: seq<TickBatch>, k: nat, now: nat)
    requires PipelineOk(ring, sent, wire, k, now) && wire != []
    ensures k < |sent| && wire[0] == sent[k]
    ensures PipelineOk(ring, sent, wire[1..], k + 1, now)
  {
  }

  lemma DeliverOk(h: HashFn, s: System, c: CellId)
    requires SystemOk(h, s, c)
    ensures SystemOk(h, SysNext(h, s, Deliver), c)
  {
    if s.wire != [] {
      DeliverPipeline(s.machine.host.ring.value, s.sent, s.wire, s.delivered, |s.machine.past|);
      NextBatch(s.machine.past, s.sent, s.delivered, s.standby);
    }
  }

  lemma SysStepOk(h: HashFn, s: System, step: SysStep, c: CellId)
    requires SystemOk(h, s, c)
    ensures SystemOk(h, SysNext(h, s, step), c)
  {
    match step {
      case Primary(q) =>
        if MayRun(s.machine, q) {
          PrimaryOk(h, s, q, c);
        }
      case EndFlush => EndFlushOk(h, s, c);
      case Pop => PopOk(h, s, c);
      case Deliver => DeliverOk(h, s, c);
      case Redeliver(i) =>
        if i < s.delivered <= |s.sent| {
          OldBatchRejected(s.machine.past, s.sent, s.delivered, s.standby, i);
        }
    }
  }

  lemma {:induction false} SysRunOk(h: HashFn, s: System, steps: seq<SysStep>, c: CellId)
    requires SystemOk(h, s, c)
    ensures SystemOk(h, SysRun(h, s, steps), c)
    decreases |steps|
  {
    if steps != [] {
      SysStepOk(h, s, steps[0], c);
      SysRunOk(h, SysNext(h, s, steps[0]), steps[1..], c);
    }
  }

  /** A machine whose replication was just enabled, facing a fresh standby. */
  function SysFrom(m: Machine): System
  {
    System(m, [], [], 0, FRESH_STANDBY)
  }

  predicate JustEnabled(m: Machine, c: CellId)
  {
    && m.phase.Idle? && m.host.order == [c] && m.host.cells.Keys == {c}
    && m.host.ring.Some? && m.host.ring.value.queue == [] && m.host.ring.value.capacity > 0
  }

  /** Every page with a clean bit is zero. */
  ghost predicate CleanPagesZero(m: Memory)
  {
    forall p: nat :: p !in m.dirty ==> PageAt(m.bytes, p) == ZeroPage()
  }

  lemma SysFromOk(h: HashFn, m: Machine, c: CellId)
    requires MachineOk(h, m) && JustEnabled(m, c) && CleanPagesZero(m.host.cells[c].mem)
    ensures SystemOk(h, SysFrom(m), c)
  {
  }

  lemma SysStartOk(h: HashFn, config: CellConfig, capacity: nat)
    requires config.initialBytes <= config.quotaBytes && config.initialBytes % PAGE_SIZE == 0 && capacity > 0
    ensures SystemOk(h, SysStart(config, capacity), config.id)
  {
    FreshCellSound(h, config, []);
    FreshMemoryOk(config.initialBytes, config.quotaBytes);
    SysFromOk(h, SysStart(config, capacity).machine, config.id);
  }

  /** The starting point is what a supervisor reaches by spawning one cell and enabling replication. */
  lemma StartIsReachable(h: HashFn, config: CellConfig, capacity: nat)
    requires config.initialBytes <= config.quotaBytes && config.initialBytes % PAGE_SIZE == 0 && capacity > 0
    ensures Run(h, BOOT, [Spawn(config), EnableReplication(capacity)]) == SysStart(config, capacity).machine
  {
    var m := Protocol.Advance(h, BOOT, Spawn(config));
    assert m.host.order == [config.id];
    var n := Protocol.Advance(h, m, EnableReplication(capacity));
    assert n == SysStart(config, capacity).machine;
    var steps := [Spawn(config), EnableReplication(capacity)];
    assert steps[1..] == [EnableReplication(capacity)] && steps[1..][1..] == [];
    assert Run(h, n, []) == n;
    assert Run(h, m, steps[1..]) == n;
  }

  // ---------------------------------------------------------------- the theorems

  lemma ReceiveAllStep(standby: Standby, sent: seq<TickBatch>, k: nat, n: nat)
    requires 0 < n && k + n <= |sent|
    ensures ReceiveAll(standby, sent[k..k + n]) == Receive(ReceiveAll(standby, sent[k..k + n - 1]), sent[k + n - 1])
  {
    assert sent[k..k + n][..n - 1] == sent[k..k + n - 1];
  }

  /** Applying the next `n` undelivered batches brings the standby to the tick of the last of them. */
  lemma {:induction false} CatchUp(past: seq<Memory>, sent: seq<TickBatch>, k: nat, n: nat, standby: Standby)
    requires IncreasingTicks(sent) && HistoryOk(past, sent) && k + n <= |sent|
    requires StandbyOk(past, sent, k, standby)
    ensures StandbyOk(past, sent, k + n, ReceiveAll(standby, sent[k..k + n]))
    decreases n
  {
    if n > 0 {
      CatchUp(past, sent, k, n - 1, standby);
      ReceiveAllStep(standby, sent, k, n);
      NextBatch(past, sent, k + n - 1, ReceiveAll(standby, sent[k..k + n - 1]));
    }
  }

  /** The standby's pages (unsent ones zero) are the primary's memory exactly as the quantum of
      `lastApplied` left it, and delivering what is on the wire and in the ring brings them to the
      memory of the last successful push. */
  ghost predicate PrefixConsistent(s: System)
  {
    var past, newest := s.machine.past, TickAfter(s.sent, |s.sent|);
    && s.machine.host.ring.Some?
    && s.standby.lastApplied <= newest <= |past|
    && (forall p: nat :: Known(s.standby.pages, p) == PageThen(past, s.standby.lastApplied, p))
    && var caughtUp := ReceiveAll(s.standby, s.wire + s.machine.host.ring.value.queue);
       && caughtUp.lastApplied == newest
       && forall p: nat :: Known(caughtUp.pages, p) == PageThen(past, newest, p)
  }

  lemma OkIsConsistent(h: HashFn, s: System, c: CellId)
    requires SystemOk(h, s, c)
    ensures PrefixConsistent(s)
  {
    var rest := |s.sent| - s.delivered;
    CatchUp(s.machine.past, s.sent, s.delivered, rest, s.standby);
    assert s.sent[s.delivered..s.delivered + rest] == s.sent[s.delivered..];
    assert s.delivered + rest == |s.sent|;
  }

  /** Standby prefix consistency in every interleaving. */
  lemma StandbyPrefixConsistency(h: HashFn, config: CellConfig, capacity: nat, steps: seq<SysStep>)
    requires config.initialBytes <= config.quotaBytes && config.initialBytes % PAGE_SIZE == 0 && capacity > 0
    ensures PrefixConsistent(SysRun(h, SysStart(config, capacity), steps))
  {
    SysStartOk(h, config, capacity);
    SysRunOk(h, SysStart(config, capacity), steps, config.id);
    OkIsConsistent(h, SysRun(h, SysStart(config, capacity), steps), config.id);
  }

  // ---------------------------------------------------------------- enabling replication late

  /** A quantum that writes nothing. */
  function IdleQuantum(m: Machine, c: CellId, registers: Digest): Quantum
    requires c in m.host.cells
  {
    Quantum(m.host.cells[c].mem, false, registers)
  }

  /** After one idle quantum: either no checkpoint was due and nothing but the tick moved, or the
      flush of the unchanged memory is in the ring. */
  lemma IdleQuantumStep(m: Machine, c: CellId, saved: CellState, batch: TickBatch, registers: Digest)
    requires JustEnabled(m, c) && Dispatchable(m.host)
    ensures var cell := m.host.cells[c];
      var s' := PrimaryNext(SysFrom(m), IdleQuantum(m, c, registers), saved, batch);
      && s'.machine.past == m.past + [cell.mem]
      && if CheckpointDue(m.host.tick + 1, cell.lastCheckpoint, cell.interval) then
           && s'.sent == [batch] && s'.wire == [] && s'.standby == FRESH_STANDBY
           && s'.machine.host.ring.Some? && s'.machine.host.ring.value.queue == [batch]
         else
           && s' == SysFrom(s'.machine) && JustEnabled(s'.machine, c)
           && s'.machine.host.tick == m.host.tick + 1 && s'.machine.host.cells[c] == cell
  {
  }

  /** A batch that leaves out a non-zero page does not bring a fresh standby up to date. */
  lemma MissedPage(s: System, m: Memory, t: u64, p: nat)
    requires MemoryOk(m) && p !in m.dirty && PageAt(m.bytes, p) != ZeroPage()
    requires 0 < t == |s.machine.past| && s.machine.past[t - 1] == m
    requires s.sent == [FlushBatch(m, t)] && s.wire == [] && s.standby == FRESH_STANDBY
    requires s.machine.host.ring.Some? && s.machine.host.ring.value.queue == s.sent
    ensures !PrefixConsistent(s)
  {
    var b := FlushBatch(m, t);
    assert [] + [b] == [b];
    assert ReceiveAll(FRESH_STANDBY, [b]) == Receive(ReceiveAll(FRESH_STANDBY, [b][..0]), b);
    var caughtUp := ReceiveAll(FRESH_STANDBY, s.wire + s.machine.host.ring.value.queue);
    assert caughtUp == Receive(FRESH_STANDBY, b);
    ApplyRaw(FRESH_STANDBY.pages, m, DirtyList(m), p);
    DirtyListComplete(m, p);
    assert Known(caughtUp.pages, p) == ZeroPage();
    assert PageThen(s.machine.past, t, p) != ZeroPage();
  }

  /** If some clean page is not zero when replication is enabled, then on a run in which the guest
      does nothing at all the standby ends up without that page. */
  lemma {:induction false} LateEnableFails(h: HashFn, m: Machine, c: CellId, p: nat, registers: Digest)
    returns (steps: seq<SysStep>)
    requires JustEnabled(m, c) && |m.past| == m.host.tick && MemoryOk(m.host.cells[c].mem)
    requires p !in m.host.cells[c].mem.dirty && PageAt(m.host.cells[c].mem.bytes, p) != ZeroPage()
    requires m.host.cells[c].lastCheckpoint <= m.host.tick && m.host.tick + 1 < U64_LIMIT
    requires m.host.cells[c].lastCheckpoint + m.host.cells[c].interval < U64_LIMIT
    ensures !PrefixConsistent(SysRun(h, SysFrom(m), steps))
    decreases U64_LIMIT - m.host.tick
  {
    var cell, q := m.host.cells[c], IdleQuantum(m, c, registers);
    var next := PrimaryNext(SysFrom(m), q, CheckpointOf(h, m.host, q), BatchOf(m.host, q));
    assert MayRun(m, q);
    IdleQuantumStep(m, c, CheckpointOf(h, m.host, q), BatchOf(m.host, q), registers);
    assert SysNext(h, SysFrom(m), Primary(q)) == next;
    if CheckpointDue(m.host.tick + 1, cell.lastCheckpoint, cell.interval) {
      steps := [Primary(q)];
      MissedPage(next, cell.mem, m.host.tick + 1, p);
      assert SysRun(h, next, steps[1..]) == next;
    } else {
      var rest := LateEnableFails(h, next.machine, c, p, registers);
      steps := [Primary(q)] + rest;
      assert steps[1..] == rest;
    }
  }

  /** Prefix consistency holds on every run after replication is enabled exactly when every clean
      page was zero at that moment: in particular when it is enabled before the first cycle. */
  lemma EnableInTime(h: HashFn, m: Machine, c: CellId)
    requires MachineOk(h, m) && JustEnabled(m, c) && m.host.tick + 1 < U64_LIMIT
    requires m.host.cells[c].lastCheckpoint + m.host.cells[c].interval < U64_LIMIT
    ensures CleanPagesZero(m.host.cells[c].mem) <==> forall steps :: PrefixConsistent(SysRun(h, SysFrom(m), steps))
  {
    if CleanPagesZero(m.host.cells[c].mem) {
      forall steps
        ensures PrefixConsistent(SysRun(h, SysFrom(m), steps))
      {
        SysFromOk(h, m, c);
        SysRunOk(h, SysFrom(m), steps, c);
        OkIsConsistent(h, SysRun(h, SysFrom(m), steps), c);
      }
    } else {
      var p: nat :| p !in m.host.cells[c].mem.dirty && PageAt(m.host.cells[c].mem.bytes, p) != ZeroPage();
      assert CellSound(h, m.host.cells[c], m.past);
      var steps := LateEnableFails(h, m, c, p, h([]));
    }
  }

  /** A cell of one page, checkpointed at every dispatch. */
  const ONE_PAGE_CELL := CellConfig(0, PAGE_SIZE, PAGE_SIZE, 1)

  /** Its memory after the guest stored one non-zero byte. */
  function OneByteWritten(): Memory
  {
    GuestRun(FreshCell(ONE_PAGE_CELL).mem, [Store(0, [1])])
  }

  lemma OneByteWrittenFacts()
    ensures Honest(FreshCell(ONE_PAGE_CELL).mem, OneByteWritten())
    ensures PageAt(OneByteWritten().bytes, 0) != ZeroPage()
  {
    var m := FreshCell(ONE_PAGE_CELL).mem;
    FreshMemoryOk(PAGE_SIZE, PAGE_SIZE);
    GuestRunHonest(m, [Store(0, [1])]);
    var after := GuestStep(m, Store(0, [1]));
    assert [Store(0, [1])][1..] == [];
    assert GuestRun(after, []) == after;
    assert after.bytes[0] == after.bytes[0..1][0] == 1;
    assert PageAt(after.bytes, 0)[0] == 1;
  }

  /** The failing start is one the code reaches: spawn a cell, let it write a byte and be
      checkpointed with no ring to push to, then enable replication.  From there the standby goes
      wrong. */
  lemma LateEnableReachable(h: HashFn, capacity: nat) returns (late: Machine, steps: seq<SysStep>)
    requires capacity > 0
    ensures late == Run(h, BOOT, [Spawn(ONE_PAGE_CELL), RunQuantum(Quantum(OneByteWritten(), false, h([]))),
                                  EnableReplication(capacity)])
    ensures MachineOk(h, late) && JustEnabled(late, 0) && !CleanPagesZero(late.host.cells[0].mem)
    ensures !PrefixConsistent(SysRun(h, SysFrom(late), steps))
  {
    var q := Quantum(OneByteWritten(), false, h([]));
    var prefix := [Spawn(ONE_PAGE_CELL), RunQuantum(q), EnableReplication(capacity)];
    OneByteWrittenFacts();
    var spawned := Protocol.Advance(h, BOOT, Spawn(ONE_PAGE_CELL));
    assert spawned.host.order == [0] && spawned.host.cells == map[0 := FreshCell(ONE_PAGE_CELL)];
    var ran := Protocol.Advance(h, spawned, RunQuantum(q));
    FirstCycleClears(h, spawned, q);
    late := Protocol.Advance(h, ran, EnableReplication(capacity));
    assert prefix[1..][1..] == [EnableReplication(capacity)] && prefix[1..][1..][1..] == [];
    assert Run(h, late, []) == late && Run(h, ran, prefix[1..][1..]) == late;
    assert Run(h, spawned, prefix[1..]) == late;
    BootOk(h);
    EveryRunOk(h, BOOT, prefix);
    assert CellSound(h, late.host.cells[0], late.past);
    steps := LateEnableFails(h, late, 0, 0, h([]));
  }

  /** Without a ring, a due checkpoint clears the bits of pages nobody was sent. */
  lemma FirstCycleClears(h: HashFn, m: Machine, q: Quantum)
    requires m.host == Host(map[0 := FreshCell(ONE_PAGE_CELL)], [0], 0, None) && m.phase.Idle?
    requires Honest(FreshCell(ONE_PAGE_CELL).mem, q.after) && !q.faulted
    ensures var m' := Protocol.Advance(h, m, RunQuantum(q));
      && m'.phase.Idle? && m'.host.order == [0] && m'.host.cells.Keys == {0} && m'.host.tick == 1
      && m'.host.cells[0].mem == q.after.(dirty := {})
      && m'.host.cells[0].lastCheckpoint == 1 && m'.host.cells[0].interval == 1
  {
    BeginCases(m.host, q, CheckpointOf(h, m.host, q), BatchOf(m.host, q));
    assert Rotate([0]) == [0];
  }

  // ---------------------------------------------------------------- the cross-check

  function StandbyPages(s: Standby): nat -> Page
  {
    (p: nat) => Known(s.pages, p)
  }

  ghost predicate Declares(h: HashFn, e: Entry, tick: u64, pages: nat -> Page)
  {
    e.claim.tick == tick && e.claim.smtRoot == DenseRoot(h, pages)
  }

  lemma RootDeclared(h: HashFn, entries: seq<Entry>, past: seq<Memory>, standby: Standby)
    requires EntriesOk(h, entries, past) && HasEntry(entries, standby.lastApplied)
    requires 0 < standby.lastApplied <= |past|
    requires forall p: nat :: Known(standby.pages, p) == PageThen(past, standby.lastApplied, p)
    ensures exists j :: 0 <= j < |entries| && Declares(h, entries[j], standby.lastApplied, StandbyPages(standby))
  {
    var t := standby.lastApplied;
    var j :| 0 <= j < |entries| && entries[j].claim.tick == t;
    assert EntryOk(h, entries[j], past);
    SameRoot(h, StandbyPages(standby), Pages(past[t - 1]));
    assert Declares(h, entries[j], t, StandbyPages(standby));
  }

  /** The cross-check a standby can make never fails: once it has applied tick `t`, the dense root
      of its own pages is the root the primary's chain declares for `t`. */
  lemma StandbyRootMatchesChain(h: HashFn, config: CellConfig, capacity: nat, steps: seq<SysStep>)
    requires config.initialBytes <= config.quotaBytes && config.initialBytes % PAGE_SIZE == 0 && capacity > 0
    ensures var s := SysRun(h, SysStart(config, capacity), steps);
      config.id in s.machine.host.cells &&
      var entries := s.machine.host.cells[config.id].entries;
      s.standby.lastApplied > 0 ==>
        exists j :: 0 <= j < |entries| && Declares(h, entries[j], s.standby.lastApplied, StandbyPages(s.standby))
  {
    SysStartOk(h, config, capacity);
    SysRunOk(h, SysStart(config, capacity), steps, config.id);
    var s := SysRun(h, SysStart(config, capacity), steps);
    if s.standby.lastApplied > 0 {
      var cell := s.machine.host.cells[config.id];
      assert CellSound(h, cell, s.machine.past);
      assert HasEntry(cell.entries, s.sent[s.delivered - 1].tick);
      RootDeclared(h, cell.entries, s.machine.past, s.standby);
    }
  }

  lemma SameRoot(h: HashFn, a: nat -> Page, b: nat -> Page)
    requires forall p: nat :: a(p) == b(p)
    ensures DenseRoot(h, a) == DenseRoot(h, b)
  {
    NodeCongruence(h, PageLeaves(h, a), PageLeaves(h, b), TREE_DEPTH, 0);
  }
}
