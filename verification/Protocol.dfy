/** The supervisor's dispatch, checkpoint and replicate cycle (chronos-core/src/supervisor.rs) as
    a step machine, and what holds of every run of it. */
module Protocol {
  import opened Bytes
  import opened Cells
  import opened CheckpointChain
  import opened DeltaCodec
  import opened DirtyPages
  import opened GuestMemory
  import opened MerkleTree
  import opened Replication
  import opened Scheduling

  datatype SupervisorError =
    | DuplicateCell(id: CellId)
    | MemoryInit(id: CellId, fault: MemFault)
    | ReplicationBackpressure(id: CellId, ringError: RingError)

  type CycleResult = Result<Option<(CellId, u64)>, SupervisorError>

  /** The value of a supervisor. */
  datatype Host = Host(cells: map<CellId, CellState>, order: seq<CellId>, tick: u64, ring: Option<Ring>)

  /** What an executor did with one quantum: the memory it left behind, whether it faulted, and
      the register digest it reports. */
  datatype Quantum = Quantum(after: Memory, faulted: bool, registers: Digest)

  // ---------------------------------------------------------------- one cycle

  /** Where the supervisor thread stands: between cycles, or between the enqueue of a batch and
      the rest of that push. */
  datatype Phase = Idle(last: CycleResult) | Flushing(id: CellId, tick: u64)

  datatype Started = Started(host: Host, phase: Phase)

  predicate Dispatchable(s: Host)
  {
    s.order != [] && s.order[0] in s.cells && s.tick + 1 < U64_LIMIT
  }

  /** A cell checkpointed after its quantum. */
  ghost function SaveAfter(h: HashFn, c: CellState, tick: u64, q: Quantum): CellState
  {
    TakeCheckpoint(h, c.(mem := q.after), tick, q.registers)
  }

  /** The cell about to be dispatched, checkpointed after its quantum. */
  ghost function CheckpointOf(h: HashFn, s: Host, q: Quantum): CellState
    requires Dispatchable(s)
  {
    SaveAfter(h, s.cells[s.order[0]], s.tick + 1, q)
  }

  function BatchOf(s: Host, q: Quantum): TickBatch
    requires Dispatchable(s)
  {
    FlushBatch(q.after, s.tick + 1)
  }

  /** What a cycle leaves behind of the dispatched cell and of the ring, and where it stands. */
  datatype Exit = Exit(cell: CellState, ring: Option<Ring>, phase: Phase)

  /** The exits of a cycle: `c` is the cell after its quantum, `saved` that cell checkpointed. */
  function Exits(id: CellId, tick: u64, c: CellState, ring: Option<Ring>, faulted: bool, saved: CellState, batch: TickBatch): Exit
  {
    var done: CycleResult := Ok(Some((id, tick)));
    if faulted || !CheckpointDue(tick, c.lastCheckpoint, c.interval) then Exit(c, ring, Idle(done))
    else
      match ring
      case None => Exit(ClearDirty(saved), None, Idle(done))
      case Some(r) =>
        match Enqueue(r, batch)
        case Err(e) => Exit(saved, ring, Idle(Err(ReplicationBackpressure(id, e))))
        case Ok(r') => Exit(saved, Some(r'), Flushing(id, tick))
  }

  /** A cycle up to its exit, given the checkpointed cell and the batch to push. */
  function BeginWith(s: Host, q: Quantum, saved: CellState, batch: TickBatch): Started
    requires Dispatchable(s)
  {
    var id, tick: u64 := s.order[0], s.tick + 1;
    var e := Exits(id, tick, s.cells[id].(mem := q.after), s.ring, q.faulted, saved, batch);
    Started(Host(s.cells[id := e.cell], Rotate(s.order), tick, e.ring), e.phase)
  }

  /** The rest of a successful push: publish the tick, then clear the dirty set. */
  function Finish(s: Host, id: CellId, tick: u64): Host
    requires id in s.cells && s.ring.Some?
  {
    s.(cells := s.cells[id := ClearDirty(s.cells[id])], ring := Some(StoreTick(s.ring.value, tick)))
  }

  /** The exit of a cycle whose push, if any, is completed. */
  function Complete(e: Exit): Exit
    requires e.phase.Flushing? ==> e.ring.Some?
  {
    match e.phase
    case Idle(_) => e
    case Flushing(id, tick) =>
      Exit(ClearDirty(e.cell), Some(StoreTick(e.ring.value, tick)), Idle(Ok(Some((id, tick)))))
  }

  /** A whole cycle, seen from the cell it dispatches. */
  ghost function CellCycle(h: HashFn, id: CellId, tick: u64, c: CellState, ring: Option<Ring>, q: Quantum): (e: Exit)
    ensures e.phase.Idle?
  {
    CellCycleWith(id, tick, c, ring, q, SaveAfter(h, c, tick, q), FlushBatch(q.after, tick))
  }

  function CellCycleWith(id: CellId, tick: u64, c: CellState, ring: Option<Ring>, q: Quantum,
                         saved: CellState, batch: TickBatch): (e: Exit)
    ensures e.phase.Idle?
  {
    Complete(Exits(id, tick, c.(mem := q.after), ring, q.faulted, saved, batch))
  }

  /** The host after a cycle of its front cell that ended in `e`: no other cell changes. */
  function Left(s: Host, e: Exit): (Host, CycleResult)
    requires Dispatchable(s)
  {
    var r := match e.phase case Idle(r) => r case Flushing(id, tick) => Ok(Some((id, tick)));
    (Host(s.cells[s.order[0] := e.cell], Rotate(s.order), s.tick + 1, e.ring), r)
  }

  /** A whole cycle with no consumer activity in between. */
  ghost function Cycle(h: HashFn, s: Host, q: Quantum): (Host, CycleResult)
    requires Dispatchable(s)
  {
    CycleWith(s, q, CheckpointOf(h, s, q), BatchOf(s, q))
  }

  function CycleWith(s: Host, q: Quantum, saved: CellState, batch: TickBatch): (Host, CycleResult)
    requires Dispatchable(s)
  {
    Left(s, CellCycleWith(s.order[0], s.tick + 1, s.cells[s.order[0]], s.ring, q, saved, batch))
  }

  /** A cycle is the cycle of its front cell. */
  lemma CycleIsCellCycle(h: HashFn, s: Host, q: Quantum)
    requires Dispatchable(s)
    ensures Cycle(h, s, q) == Left(s, CellCycle(h, s.order[0], s.tick + 1, s.cells[s.order[0]], s.ring, q))
  {
    assert CheckpointOf(h, s, q) == SaveAfter(h, s.cells[s.order[0]], s.tick + 1, q);
    assert BatchOf(s, q) == FlushBatch(q.after, s.tick + 1);
  }

  /** Starting a cycle and finishing its flush completes its exit. */
  lemma CompleteMatches(s: Host, q: Quantum, saved: CellState, batch: TickBatch)
    requires Dispatchable(s)
    ensures var id, tick: u64 := s.order[0], s.tick + 1;
      var e := Exits(id, tick, s.cells[id].(mem := q.after), s.ring, q.faulted, saved, batch);
      var started := BeginWith(s, q, saved, batch);
      && started.phase == e.phase
      && (e.phase.Idle? ==> started.host == Host(s.cells[id := e.cell], Rotate(s.order), tick, e.ring))
      && (e.phase.Flushing? ==>
          && e.phase == Flushing(id, tick) && e.ring.Some?
          && Finish(started.host, id, tick)
             == Host(s.cells[id := Complete(e).cell], Rotate(s.order), tick, Complete(e).ring))
  {
  }

  function Spawned(s: Host, config: CellConfig): Host
  {
    s.(cells := s.cells[config.id := FreshCell(config)], order := s.order + [config.id])
  }

  // ---------------------------------------------------------------- every run

  /** The machine with a record of the past: at tick `t` cell `ran[t - 1]` was dispatched, its quantum
      left the memory `past[t - 1]`, and the executor reported the digest `reported[t - 1]`. */
  datatype Machine =
    Machine(host: Host, phase: Phase, past: seq<Memory>, ran: seq<CellId>, reported: seq<Digest>)

  datatype Step =
    | Spawn(config: CellConfig)
    | EnableReplication(capacity: nat)
    | RunQuantum(quantum: Quantum)
    | FinishFlush
    | ConsumerPop

  /** A quantum the machine may take: the thread is between cycles, a cell is dispatchable, and
      the executor honours its contract on that cell's memory. */
  ghost predicate MayRun(m: Machine, q: Quantum)
  {
    && m.phase.Idle? && Dispatchable(m.host)
    && Honest(m.host.cells[m.host.order[0]].mem, q.after)
  }

  predicate MaySpawn(s: Host, config: CellConfig)
  {
    && config.id !in s.cells
    && config.initialBytes <= config.quotaBytes
    && config.initialBytes % PAGE_SIZE == 0
  }

  function StartedMachine(m: Machine, q: Quantum, saved: CellState, batch: TickBatch): Machine
    requires Dispatchable(m.host)
  {
    var started := BeginWith(m.host, q, saved, batch);
    Machine(started.host, started.phase, m.past + [q.after], m.ran + [m.host.order[0]], m.reported + [q.registers])
  }

  /** One step; a step that is not possible in the current state changes nothing. */
  ghost function Advance(h: HashFn, m: Machine, step: Step): Machine
  {
    match step
    case Spawn(config) =>
      if m.phase.Idle? && MaySpawn(m.host, config) then m.(host := Spawned(m.host, config)) else m
    case EnableReplication(capacity) =>
      if m.phase.Idle? && capacity > 0 then m.(host := m.host.(ring := Some(Ring(capacity, [], 0)))) else m
    case RunQuantum(q) =>
      if MayRun(m, q) then StartedMachine(m, q, CheckpointOf(h, m.host, q), BatchOf(m.host, q)) else m
    case FinishFlush =>
      if m.phase.Flushing? && m.phase.id in m.host.cells && m.host.ring.Some? then
        m.(host := Finish(m.host, m.phase.id, m.phase.tick), phase := Idle(Ok(Some((m.phase.id, m.phase.tick)))))
      else m
    case ConsumerPop =>
      if m.host.ring.Some? && m.host.ring.value.queue != [] then
        m.(host := m.host.(ring := Some(PopFront(m.host.ring.value))))
      else m
  }

  ghost function Run(h: HashFn, m: Machine, steps: seq<Step>): Machine
    decreases |steps|
  {
    if steps == [] then m else Run(h, Advance(h, m, steps[0]), steps[1..])
  }

  /** The record grows with each quantum, and with nothing else. */
  lemma RecordGrows(h: HashFn, m: Machine, step: Step)
    ensures var m' := Advance(h, m, step);
      if step.RunQuantum? && MayRun(m, step.quantum) then
        && m'.past == m.past + [step.quantum.after]
        && m'.ran == m.ran + [m.host.order[0]]
        && m'.reported == m.reported + [step.quantum.registers]
      else m'.past == m.past && m'.ran == m.ran && m'.reported == m.reported
  {
  }

  lemma {:induction false} RunConcat(h: HashFn, m: Machine, first: seq<Step>, second: seq<Step>)
    ensures Run(h, m, first + second) == Run(h, Run(h, m, first), second)
    decreases |first|
  {
    if first == [] {
      assert first + second == second;
    } else {
      assert (first + second)[1..] == first[1..] + second;
      RunConcat(h, Advance(h, m, first[0]), first[1..], second);
    }
  }

  lemma RunTwo(h: HashFn, m: Machine, a: Step, b: Step)
    ensures Run(h, m, [a, b]) == Advance(h, Advance(h, m, a), b)
  {
    assert [a, b][1..] == [b];
    assert Run(h, Advance(h, m, a), [b]) == Advance(h, Advance(h, m, a), b);
  }

  /** Finishing the flush of a started cycle. */
  lemma FlushCompletes(h: HashFn, m: Machine, q: Quantum, saved: CellState, batch: TickBatch)
    requires Dispatchable(m.host)
    ensures var m' := Advance(h, StartedMachine(m, q, saved, batch), FinishFlush);
      m'.phase.Idle? && (m'.host, m'.phase.last) == CycleWith(m.host, q, saved, batch)
  {
    CompleteMatches(m.host, q, saved, batch);
  }

  /** A whole cycle is the run that starts it and finishes its flush. */
  lemma CycleIsRun(h: HashFn, m: Machine, q: Quantum)
    requires MayRun(m, q)
    ensures var m' := Run(h, m, [RunQuantum(q), FinishFlush]);
      m'.phase.Idle? && (m'.host, m'.phase.last) == Cycle(h, m.host, q)
  {
    FlushCompletes(h, m, q, CheckpointOf(h, m.host, q), BatchOf(m.host, q));
    RunTwo(h, m, RunQuantum(q), FinishFlush);
  }

  const BOOT := Machine(Host(map[], [], 0, None), Idle(Ok(None)), [], [], [])

  // ---------------------------------------------------------------- the invariant

  /** The cached leaf of page `p` is the digest of its current content. */
  ghost predicate LeafCurrent(h: HashFn, c: CellState, p: nat)
  {
    CachedLeaves(h, c.leaves)(p) == h(PageAt(c.mem.bytes, p))
  }

  /** The guarantee of a clean dirty bit. */
  ghost predicate CellOk(h: HashFn, c: CellState)
  {
    && MemoryOk(c.mem)
    && (forall p | p in c.leaves :: p < U32_LIMIT)
    && (forall p: nat :: p !in c.mem.dirty ==> LeafCurrent(h, c, p))
    && Linked(h, c.entries)
  }

  /** Every entry of a cell's chain commits to the whole memory of that cell at its tick. */
  ghost predicate EntriesOk(h: HashFn, entries: seq<Entry>, past: seq<Memory>)
  {
    forall i :: 0 <= i < |entries| ==> EntryOk(h, entries[i], past)
  }

  ghost predicate EntryOk(h: HashFn, e: Entry, past: seq<Memory>)
  {
    0 < e.claim.tick <= |past| && e.claim.smtRoot == DenseRoot(h, Pages(past[e.claim.tick - 1]))
  }

  /** Consecutive checkpoints are at least the interval apart, and their ticks strictly rise. */
  ghost predicate Spaced(c: CellState)
  {
    && c.lastCheckpoint == (if c.entries == [] then 0 else c.entries[|c.entries| - 1].claim.tick)
    && forall i :: 0 <= i < |c.entries| ==> SpacedAt(c.entries, c.interval, i)
  }

  ghost predicate SpacedAt(entries: seq<Entry>, interval: nat, i: nat)
    requires i < |entries|
  {
    var previous := if i == 0 then 0 else entries[i - 1].claim.tick;
    previous < entries[i].claim.tick && previous + interval <= entries[i].claim.tick
  }

  ghost predicate CellSound(h: HashFn, c: CellState, past: seq<Memory>)
  {
    CellOk(h, c) && EntriesOk(h, c.entries, past) && Spaced(c) && c.lastCheckpoint <= |past|
  }

  ghost predicate CellsSound(h: HashFn, cells: map<CellId, CellState>, past: seq<Memory>)
  {
    forall id | id in cells :: CellSound(h, cells[id], past)
  }

  ghost predicate MachineOk(h: HashFn, m: Machine)
  {
    && |m.past| == m.host.tick
    && (forall id | id in m.host.order :: id in m.host.cells)
    && CellsSound(h, m.host.cells, m.past)
    && (m.phase.Flushing? ==>
        && m.phase.id in m.host.cells && m.host.ring.Some?
        && forall p: nat :: LeafCurrent(h, m.host.cells[m.phase.id], p))
  }

  // ---------------------------------------------------------------- lemmas about one cell

  /** A quantum that marks what it writes keeps the guarantee of clean bits. */
  lemma QuantumKeepsCellOk(h: HashFn, c: CellState, after: Memory)
    requires CellOk(h, c) && Honest(c.mem, after)
    ensures CellOk(h, c.(mem := after))
  {
  }

  /** After rehashing the dirty pages every leaf is current, so the root is that of all memory. */
  lemma CheckpointIsFull(h: HashFn, c: CellState, tick: u64, registers: Digest)
    requires CellOk(h, c)
    ensures var saved := TakeCheckpoint(h, c, tick, registers);
      && CellOk(h, saved)
      && (forall p: nat :: LeafCurrent(h, saved, p))
      && |saved.entries| == |c.entries| + 1
      && saved.entries[|c.entries|].claim.tick == tick
      && saved.entries[|c.entries|].claim.smtRoot == DenseRoot(h, Pages(c.mem))
  {
    var saved := TakeCheckpoint(h, c, tick, registers);
    forall p: nat
      ensures LeafCurrent(h, saved, p)
    {
      if p !in c.mem.dirty {
        assert LeafCurrent(h, c, p);
      }
    }
    forall p: nat
      ensures CachedLeaves(h, saved.leaves)(p) == h(Pages(c.mem)(p))
    {
      assert LeafCurrent(h, saved, p);
    }
    CacheRootIsDenseRoot(h, saved.leaves, Pages(c.mem));
    LinkedExtend(h, c.entries, Claim(tick, CacheRoot(h, saved.leaves), registers));
    forall p | p in saved.leaves
      ensures p < U32_LIMIT
    {
      assert p in c.leaves || Whole(p, c.mem.size);
    }
  }

  /** Clearing the dirty set is sound once every leaf is current. */
  lemma ClearSound(h: HashFn, c: CellState, past: seq<Memory>)
    requires CellSound(h, c, past) && forall p: nat :: LeafCurrent(h, c, p)
    ensures CellSound(h, ClearDirty(c), past)
  {
    forall p: nat
      ensures LeafCurrent(h, ClearDirty(c), p)
    {
      assert LeafCurrent(h, c, p);
    }
  }

  lemma FreshCellSound(h: HashFn, config: CellConfig, past: seq<Memory>)
    requires config.initialBytes <= config.quotaBytes && config.initialBytes % PAGE_SIZE == 0
    ensures CellSound(h, FreshCell(config), past)
  {
    FreshMemoryOk(config.initialBytes, config.quotaBytes);
  }

  /** More history does not disturb what older entries commit to. */
  lemma PastGrows(h: HashFn, c: CellState, past: seq<Memory>, m: Memory)
    requires CellSound(h, c, past)
    ensures CellSound(h, c, past + [m])
  {
  }

  /** The cell that ran, after a due checkpoint. */
  lemma CheckpointSound(h: HashFn, c: CellState, past: seq<Memory>, tick: u64, registers: Digest)
    requires CellOk(h, c) && EntriesOk(h, c.entries, past) && Spaced(c) && c.lastCheckpoint < tick
    requires |past| == tick && past[tick - 1] == c.mem
    requires CheckpointDue(tick, c.lastCheckpoint, c.interval)
    ensures CellSound(h, TakeCheckpoint(h, c, tick, registers), past)
    ensures forall p: nat :: LeafCurrent(h, TakeCheckpoint(h, c, tick, registers), p)
  {
    var saved := TakeCheckpoint(h, c, tick, registers);
    CheckpointIsFull(h, c, tick, registers);
    forall i | 0 <= i < |saved.entries|
      ensures EntryOk(h, saved.entries[i], past)
    {
      if i < |c.entries| {
        assert saved.entries[i] == c.entries[i];
        assert EntryOk(h, c.entries[i], past);
      }
    }
    forall i | 0 <= i < |saved.entries|
      ensures SpacedAt(saved.entries, c.interval, i)
    {
      assert i < |c.entries| ==> SpacedAt(c.entries, c.interval, i);
    }
  }

  // ---------------------------------------------------------------- every step, every run

  lemma QuantumSound(h: HashFn, c: CellState, past: seq<Memory>, q: Quantum)
    requires CellSound(h, c, past) && Honest(c.mem, q.after)
    ensures CellSound(h, c.(mem := q.after), past + [q.after])
  {
    QuantumKeepsCellOk(h, c, q.after);
    PastGrows(h, c, past, q.after);
  }

  /** A cycle changes no cell but the one it dispatched, which ends in one of three states. */
  lemma BeginCases(s: Host, q: Quantum, saved: CellState, batch: TickBatch)
    requires Dispatchable(s)
    ensures var started := BeginWith(s, q, saved, batch);
      var id := s.order[0];
      var cell := s.cells[id].(mem := q.after);
      var cell' := started.host.cells[id];
      && id in started.host.cells && started.host.cells == s.cells[id := cell']
      && started.host.order == Rotate(s.order) && started.host.tick == s.tick + 1
      && var due := CheckpointDue(s.tick + 1, cell.lastCheckpoint, cell.interval);
      && (q.faulted || !due ==> cell' == cell)
      && (!q.faulted && due ==> cell' == saved || (cell' == ClearDirty(saved) && s.ring.None?))
      && (started.phase.Flushing? ==>
          && started.phase.id == id && started.host.ring.Some? && cell' == saved && !q.faulted && due)
  {
  }

  lemma CellsSoundUpdate(h: HashFn, cells: map<CellId, CellState>, past: seq<Memory>, id: CellId, cell: CellState, m: Memory)
    requires CellsSound(h, cells, past) && CellSound(h, cell, past + [m])
    ensures CellsSound(h, cells[id := cell], past + [m])
  {
  }

  /** Whichever exit a cycle takes, it leaves the machine sound, provided the cell is sound with
      its new memory and, if a checkpoint is due, the checkpointed cell is sound and current. */
  lemma ExitsOk(h: HashFn, m: Machine, q: Quantum, saved: CellState, batch: TickBatch)
    requires MachineOk(h, m) && Dispatchable(m.host)
    requires CellSound(h, m.host.cells[m.host.order[0]].(mem := q.after), m.past + [q.after])
    requires var cell := m.host.cells[m.host.order[0]];
      CheckpointDue(m.host.tick + 1, cell.lastCheckpoint, cell.interval) ==>
        && CellSound(h, saved, m.past + [q.after])
        && CellSound(h, ClearDirty(saved), m.past + [q.after])
        && forall p: nat :: LeafCurrent(h, saved, p)
    ensures MachineOk(h, StartedMachine(m, q, saved, batch))
  {
    var started, id := BeginWith(m.host, q, saved, batch), m.host.order[0];
    BeginCases(m.host, q, saved, batch);
    CellsSoundUpdate(h, m.host.cells, m.past, id, started.host.cells[id], q.after);
  }

  /** A due checkpoint of a sound cell is sound, current, and stays sound when its bits are cleared. */
  lemma DueSound(h: HashFn, c: CellState, past: seq<Memory>, tick: u64, registers: Digest)
    requires CellSound(h, c, past) && c.lastCheckpoint < tick == |past| && past[tick - 1] == c.mem
    ensures CheckpointDue(tick, c.lastCheckpoint, c.interval) ==>
      && CellSound(h, TakeCheckpoint(h, c, tick, registers), past)
      && CellSound(h, ClearDirty(TakeCheckpoint(h, c, tick, registers)), past)
      && forall p: nat :: LeafCurrent(h, TakeCheckpoint(h, c, tick, registers), p)
  {
    if CheckpointDue(tick, c.lastCheckpoint, c.interval) {
      CheckpointSound(h, c, past, tick, registers);
      ClearSound(h, TakeCheckpoint(h, c, tick, registers), past);
    }
  }

  lemma CheckpointOfSound(h: HashFn, s: Host, q: Quantum, past: seq<Memory>)
    requires Dispatchable(s)
    requires var c := s.cells[s.order[0]].(mem := q.after);
      CellSound(h, c, past) && c.lastCheckpoint <= s.tick
    requires |past| == s.tick + 1 && past[s.tick] == q.after
    ensures var c := s.cells[s.order[0]];
      CheckpointDue(s.tick + 1, c.lastCheckpoint, c.interval) ==>
        && CellSound(h, CheckpointOf(h, s, q), past)
        && CellSound(h, ClearDirty(CheckpointOf(h, s, q)), past)
        && forall p: nat :: LeafCurrent(h, CheckpointOf(h, s, q), p)
  {
    DueSound(h, s.cells[s.order[0]].(mem := q.after), past, s.tick + 1, q.registers);
  }

  lemma QuantumOk(h: HashFn, m: Machine, q: Quantum)
    requires MachineOk(h, m) && MayRun(m, q)
    ensures MachineOk(h, StartedMachine(m, q, CheckpointOf(h, m.host, q), BatchOf(m.host, q)))
  {
    QuantumSound(h, m.host.cells[m.host.order[0]], m.past, q);
    CheckpointOfSound(h, m.host, q, m.past + [q.after]);
    ExitsOk(h, m, q, CheckpointOf(h, m.host, q), BatchOf(m.host, q));
  }

  lemma AdvanceOk(h: HashFn, m: Machine, step: Step)
    requires MachineOk(h, m)
    ensures MachineOk(h, Advance(h, m, step))
  {
    match step {
      case Spawn(config) =>
        if MaySpawn(m.host, config) {
          FreshCellSound(h, config, m.past);
        }
      case EnableReplication(_) =>
      case RunQuantum(q) =>
        if MayRun(m, q) {
          QuantumOk(h, m, q);
        }
      case FinishFlush =>
        if m.phase.Flushing? {
          ClearSound(h, m.host.cells[m.phase.id], m.past);
        }
      case ConsumerPop =>
    }
  }

  /** Incremental checkpoint equals full checkpoint, on every run with any number of cells, spawns,
      faults, rejected pushes and consumer pops: every entry ever appended commits to the dense
      Merkle root of the entire memory its cell had at that tick, clean pages match their cached
      leaves, the chain is linked, and checkpoints are spaced by at least the interval. */
  lemma {:induction false} EveryRunOk(h: HashFn, m: Machine, steps: seq<Step>)
    requires MachineOk(h, m)
    ensures MachineOk(h, Run(h, m, steps))
    decreases |steps|
  {
    if steps != [] {
      AdvanceOk(h, m, steps[0]);
      EveryRunOk(h, Advance(h, m, steps[0]), steps[1..]);
    }
  }

  lemma BootOk(h: HashFn)
    ensures MachineOk(h, BOOT)
  {
  }

  // ---------------------------------------------------------------- one more entry

  /** `saved` is `c` with one more entry, taken at `tick` with the register digest `registers`. */
  ghost predicate Checkpointed(c: CellState, saved: CellState, tick: u64, registers: Digest)
  {
    && saved.lastCheckpoint == tick && saved.interval == c.interval
    && |saved.entries| == |c.entries| + 1 && c.entries <= saved.entries
    && saved.entries[|c.entries|].claim.tick == tick && saved.entries[|c.entries|].claim.registers == registers
  }

  lemma CheckpointOfCheckpointed(h: HashFn, s: Host, q: Quantum)
    requires Dispatchable(s)
    ensures Checkpointed(s.cells[s.order[0]], CheckpointOf(h, s, q), s.tick + 1, q.registers)
    ensures Checkpointed(s.cells[s.order[0]], ClearDirty(CheckpointOf(h, s, q)), s.tick + 1, q.registers)
    ensures CheckpointOf(h, s, q).mem == q.after
  {
  }

  // ---------------------------------------------------------------- what a cycle answers and leaves

  /** The front cell's quantum ends without a fault and at least its interval after its last
      checkpoint. */
  predicate TakesCheckpoint(s: Host, faulted: bool)
    requires Dispatchable(s)
  {
    var c := s.cells[s.order[0]];
    !faulted && (c.interval == 0 || c.lastCheckpoint + c.interval <= s.tick + 1)
  }

  predicate RingFull(s: Host)
  {
    s.ring.Some? && |s.ring.value.queue| >= s.ring.value.capacity
  }

  /** What a cycle leaves of the front cell `c`: its new memory; one more entry, for this tick and the
      reported digest, exactly when a checkpoint is taken; and a clean dirty set exactly when that
      checkpoint does not meet a full ring. */
  ghost predicate CellLeft(s: Host, q: Quantum, c: CellState, c': CellState)
    requires Dispatchable(s)
  {
    var taken := TakesCheckpoint(s, q.faulted);
    && c'.mem == q.after.(dirty := if taken && !RingFull(s) then {} else q.after.dirty)
    && c'.interval == c.interval
    && (if taken then Checkpointed(c, c', s.tick + 1, q.registers)
        else c'.entries == c.entries && c'.lastCheckpoint == c.lastCheckpoint && c'.leaves == c.leaves)
  }

  lemma OutcomeWith(s: Host, q: Quantum, saved: CellState, batch: TickBatch)
    requires Dispatchable(s) && saved.mem == q.after
    requires Checkpointed(s.cells[s.order[0]], saved, s.tick + 1, q.registers)
    ensures var (s', r) := CycleWith(s, q, saved, batch);
      var id := s.order[0];
      && r == (if TakesCheckpoint(s, q.faulted) && RingFull(s)
               then Err(ReplicationBackpressure(id, Full(s.ring.value.capacity))) else Ok(Some((id, s.tick + 1))))
      && s'.tick == s.tick + 1 && s'.order == s.order[1..] + [id]
      && id in s'.cells && s'.cells == s.cells[id := s'.cells[id]]
      && CellLeft(s, q, s.cells[id], s'.cells[id])
      && s'.ring == if TakesCheckpoint(s, q.faulted) && s.ring.Some? && !RingFull(s) then
                      Some(Ring(s.ring.value.capacity, s.ring.value.queue + [batch], s.tick + 1))
                    else s.ring
  {
  }

  /** The whole outcome of a cycle, on every exit, in terms of the host it starts from.  It names the cell
      it dispatched and the new tick, faulted or not; only a checkpoint that meets a full ring is an
      error. */
  lemma CycleOutcome(h: HashFn, s: Host, q: Quantum)
    requires Dispatchable(s)
    ensures var (s', r) := Cycle(h, s, q);
      var id := s.order[0];
      && r == (if TakesCheckpoint(s, q.faulted) && RingFull(s)
               then Err(ReplicationBackpressure(id, Full(s.ring.value.capacity))) else Ok(Some((id, s.tick + 1))))
      && s'.tick == s.tick + 1 && s'.order == s.order[1..] + [id]
      && id in s'.cells && s'.cells == s.cells[id := s'.cells[id]]
      && CellLeft(s, q, s.cells[id], s'.cells[id])
      && s'.ring == if TakesCheckpoint(s, q.faulted) && s.ring.Some? && !RingFull(s) then
                      Some(Ring(s.ring.value.capacity, s.ring.value.queue + [FlushBatch(q.after, s.tick + 1)], s.tick + 1))
                    else s.ring
  {
    CheckpointOfCheckpointed(h, s, q);
    OutcomeWith(s, q, CheckpointOf(h, s, q), BatchOf(s, q));
  }

  // ---------------------------------------------------------------- whose checkpoint it is

  /** Each entry of cell `id` was taken at a tick at which `id` was dispatched, with the register
      digest the executor then reported. */
  ghost predicate OwnEntries(entries: seq<Entry>, ran: seq<CellId>, reported: seq<Digest>, id: CellId)
  {
    forall i :: 0 <= i < |entries| ==> OwnEntry(entries[i], ran, reported, id)
  }

  ghost predicate OwnEntry(e: Entry, ran: seq<CellId>, reported: seq<Digest>, id: CellId)
  {
    && 0 < e.claim.tick <= |ran| && ran[e.claim.tick - 1] == id
    && e.claim.tick <= |reported| && reported[e.claim.tick - 1] == e.claim.registers
  }

  ghost predicate AllOwn(m: Machine)
  {
    && |m.ran| == |m.reported| == m.host.tick
    && forall id | id in m.host.cells :: OwnEntries(m.host.cells[id].entries, m.ran, m.reported, id)
  }

  lemma RanGrows(entries: seq<Entry>, ran: seq<CellId>, reported: seq<Digest>, id: CellId, who: CellId, registers: Digest)
    requires OwnEntries(entries, ran, reported, id)
    ensures OwnEntries(entries, ran + [who], reported + [registers], id)
  {
  }

  lemma StartedOwn(m: Machine, q: Quantum, saved: CellState, batch: TickBatch)
    requires AllOwn(m) && Dispatchable(m.host)
    requires Checkpointed(m.host.cells[m.host.order[0]], saved, m.host.tick + 1, q.registers)
    ensures AllOwn(StartedMachine(m, q, saved, batch))
  {
    var m', who := StartedMachine(m, q, saved, batch), m.host.order[0];
    BeginCases(m.host, q, saved, batch);
    forall id | id in m'.host.cells
      ensures OwnEntries(m'.host.cells[id].entries, m'.ran, m'.reported, id)
    {
      RanGrows(m.host.cells[id].entries, m.ran, m.reported, id, who, q.registers);
      if id == who && m'.host.cells[who].entries == saved.entries {
        forall i | 0 <= i < |saved.entries|
          ensures OwnEntry(saved.entries[i], m'.ran, m'.reported, who)
        {
          assert i < |m.host.cells[who].entries| ==>
            OwnEntry(m.host.cells[who].entries[i], m'.ran, m'.reported, who);
        }
      }
    }
  }

  lemma AdvanceOwn(h: HashFn, m: Machine, step: Step)
    requires AllOwn(m)
    ensures AllOwn(Advance(h, m, step))
  {
    match step {
      case RunQuantum(q) =>
        if MayRun(m, q) {
          CheckpointOfCheckpointed(h, m.host, q);
          StartedOwn(m, q, CheckpointOf(h, m.host, q), BatchOf(m.host, q));
        }
      case _ =>
    }
  }

  lemma {:induction false} EveryRunOwn(h: HashFn, m: Machine, steps: seq<Step>)
    requires AllOwn(m)
    ensures AllOwn(Run(h, m, steps))
    decreases |steps|
  {
    if steps != [] {
      AdvanceOwn(h, m, steps[0]);
      EveryRunOwn(h, Advance(h, m, steps[0]), steps[1..]);
    }
  }

  /** The theorem, entry by entry, for a supervisor from boot: entry `i` of cell `id` was taken at a
      tick at which `id` ran, its root is the dense root of everything `id` then had in memory, and its
      register digest is the one the executor then reported. */
  lemma IncrementalCheckpointIsFull(h: HashFn, steps: seq<Step>, id: CellId, i: nat)
    requires id in Run(h, BOOT, steps).host.cells && i < |Run(h, BOOT, steps).host.cells[id].entries|
    ensures var m := Run(h, BOOT, steps);
      var claim := m.host.cells[id].entries[i].claim;
      && 0 < claim.tick <= |m.past| == |m.ran| == |m.reported|
      && m.ran[claim.tick - 1] == id
      && claim.registers == m.reported[claim.tick - 1]
      && claim.smtRoot == DenseRoot(h, Pages(m.past[claim.tick - 1]))
  {
    BootOk(h);
    EveryRunOk(h, BOOT, steps);
    EveryRunOwn(h, BOOT, steps);
    var m := Run(h, BOOT, steps);
    var entries := m.host.cells[id].entries;
    assert CellSound(h, m.host.cells[id], m.past);
    assert EntryOk(h, entries[i], m.past) && OwnEntry(entries[i], m.ran, m.reported, id);
  }

  /** On every run each cell's chain replays to its latest hash. */
  lemma EveryChainReplays(h: HashFn, steps: seq<Step>, id: CellId)
    requires id in Run(h, BOOT, steps).host.cells
    ensures var entries := Run(h, BOOT, steps).host.cells[id].entries;
      ChainHash(h, Claims(entries)) == LatestHash(h, entries)
  {
    BootOk(h);
    EveryRunOk(h, BOOT, steps);
    var m := Run(h, BOOT, steps);
    assert CellSound(h, m.host.cells[id], m.past);
    ReplayAgrees(h, m.host.cells[id].entries);
  }
}
