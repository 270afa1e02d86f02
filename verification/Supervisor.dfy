/** The supervisor object (chronos-core/src/supervisor.rs), proved to take the steps of `Protocol`:
    each method keeps `Valid()` and moves the value `View()` as the step machine does. */
module SupervisorLoop {
  import opened Bytes
  import opened Cells
  import opened CheckpointChain
  import opened GuestMemory
  import opened MerkleTree
  import opened Protocol
  import opened Replication
  import opened Scheduling

  // ---------------------------------------------------------------- one cycle, as a function of the host

  /** The executor's part in a cycle: what it does to memory, its verdict, and its register digest. */
  datatype Script = Script(ops: seq<GuestOp>, faulted: bool, registers: Digest)

  /** A cycle may be called: the clock has not run out, and the memory about to be checkpointed is
      made of whole pages, as `page_bytes` demands. */
  ghost predicate Ready(s: Host)
  {
    s.order != [] ==> Dispatchable(s) && MemoryOk(s.cells[s.order[0]].mem)
  }

  /** One cycle as its caller sees it; an empty ready queue is an idle cycle. */
  ghost function Cycled(h: HashFn, s: Host, x: Script): (Host, CycleResult)
    requires Ready(s)
  {
    if s.order == [] then (s, Ok(None)) else Cycle(h, s, FrontQuantum(s, x))
  }

  /** What the script does with the cell about to be dispatched. */
  ghost function FrontQuantum(s: Host, x: Script): Quantum
    requires Ready(s) && s.order != []
  {
    Quantum(GuestRun(s.cells[s.order[0]].mem, x.ops), x.faulted, x.registers)
  }

  /** What a script makes of one cell.  The methods below carry it as a value, so that proofs about
      objects need not look inside it. */
  type CycleFn = (CellId, u64, CellState, Option<Ring>) -> Exit

  ghost function ScriptCycle(h: HashFn, x: Script, id: CellId, tick: u64, c: CellState, ring: Option<Ring>): Exit
    requires MemoryOk(c.mem)
  {
    CellCycle(h, id, tick, c, ring, Quantum(GuestRun(c.mem, x.ops), x.faulted, x.registers))
  }

  ghost predicate Follows(h: HashFn, x: Script, cycle: CycleFn)
  {
    forall id: CellId, tick: u64, c: CellState, ring: Option<Ring> {:trigger ScriptCycle(h, x, id, tick, c, ring)} ::
      MemoryOk(c.mem) ==> cycle(id, tick, c, ring) == ScriptCycle(h, x, id, tick, c, ring)
  }

  lemma CycleValue(h: HashFn, x: Script) returns (cycle: CycleFn)
    ensures Follows(h, x, cycle)
  {
    cycle := (id: CellId, tick: u64, c: CellState, ring: Option<Ring>) =>
      if MemoryOk(c.mem) then ScriptCycle(h, x, id, tick, c, ring) else Exit(c, ring, Idle(Ok(None)));
  }

  /** The cycle of the front cell among the others. */
  ghost function CycledBy(cycle: CycleFn, s: Host): (Host, CycleResult)
    requires Ready(s)
  {
    if s.order == [] then (s, Ok(None)) else Left(s, cycle(s.order[0], s.tick + 1, s.cells[s.order[0]], s.ring))
  }

  lemma CycledByIsCycled(h: HashFn, cycle: CycleFn, s: Host, x: Script)
    requires Follows(h, x, cycle) && Ready(s)
    ensures CycledBy(cycle, s) == Cycled(h, s, x)
  {
    if s.order != [] {
      FollowsAt(h, x, cycle, s.order[0], s.tick + 1, s.cells[s.order[0]], s.ring, FrontQuantum(s, x));
      CycleIsCellCycle(h, s, FrontQuantum(s, x));
    }
  }

  lemma FollowsAt(h: HashFn, x: Script, cycle: CycleFn, id: CellId, tick: u64, c: CellState, ring: Option<Ring>, q: Quantum)
    requires Follows(h, x, cycle) && MemoryOk(c.mem) && q == Quantum(GuestRun(c.mem, x.ops), x.faulted, x.registers)
    ensures cycle(id, tick, c, ring) == CellCycle(h, id, tick, c, ring, q)
  {
    assert cycle(id, tick, c, ring) == ScriptCycle(h, x, id, tick, c, ring);
  }

  lemma CycledAnswer(h: HashFn, s: Host, x: Script)
    requires Ready(s)
    ensures s.order != [] ==>
      Cycled(h, s, x).1 == if TakesCheckpoint(s, x.faulted) && RingFull(s)
                           then Err(ReplicationBackpressure(s.order[0], Full(s.ring.value.capacity)))
                           else Ok(Some((s.order[0], s.tick + 1)))
  {
    if s.order != [] {
      CycleOutcome(h, s, FrontQuantum(s, x));
    }
  }

  function Enabled(s: Host, capacity: nat): Host
  {
    s.(ring := Some(Ring(capacity, [], 0)))
  }

  class Supervisor {
    const h: HashFn
    const scheduler: Scheduler
    var cells: map<CellId, Cell>
    var replication: Option<DeltaRing>
    ghost var states: map<CellId, CellState>  // the values of the cells
    ghost var Repr: set<object>  // everything the supervisor owns

    ghost function RingObjects(): set<object>
      reads this`replication
    {
      if replication.Some? then {replication.value} else {}
    }

    ghost function RingView(): Option<Ring>
      reads this`replication, RingObjects()
    {
      if replication.None? then None else Some(replication.value.View())
    }

    /** The value of the supervisor. */
    ghost function View(): Host
      reads this, scheduler, RingObjects()
    {
      Host(states, scheduler.order, scheduler.tick, RingView())
    }

    ghost function CellObjects(id: CellId): set<object>
      reads this`cells
    {
      if id in cells then {cells[id]} + cells[id].Repr else {}
    }

    /** Cell `id`, if there is one, is sound and holds the recorded value. */
    ghost predicate Sound(id: CellId)
      reads this`cells, this`states, CellObjects(id)
    {
      id in cells ==>
        id in states && cells[id].state == states[id] && cells[id].Valid() && cells[id].chain.h == h
    }

    /** Cell `id` shares no object with the supervisor's own parts. */
    ghost predicate Owned(id: CellId)
      reads this`cells, this`replication, this`Repr
    {
      id in cells ==>
        && CellObjects(id) <= Repr
        && this !in cells[id].Repr && scheduler !in cells[id].Repr && RingObjects() !! cells[id].Repr
    }

    /** Cells own disjoint objects: no cell's state can be reached through another. */
    ghost predicate Apart(a: CellId, b: CellId)
      reads this`cells
    {
      a in cells && b in cells && a != b ==> cells[a].Repr !! cells[b].Repr
    }

    /** No object is reachable by two ways. */
    ghost predicate Separated()
      reads this`cells, this`replication, this`Repr
    {
      && this in Repr && scheduler in Repr && RingObjects() <= Repr
      && (forall id {:trigger Owned(id)} :: Owned(id))
      && (forall id | id in cells :: CellObjects(id) <= Repr)
      && (forall a, b {:trigger Apart(a, b)} :: Apart(a, b))
    }

    ghost predicate AllSound()
      requires Separated()
      reads this, Repr
    {
      states.Keys == cells.Keys && forall id {:trigger Sound(id)} :: Sound(id)
    }

    ghost predicate Valid()
      reads this, Repr
    {
      Separated() && AllSound() && forall id | id in scheduler.order :: id in cells
    }

    constructor (h: HashFn)
      ensures Valid() && fresh(Repr) && this.h == h && View() == BOOT.host
    {
      this.h := h;
      var s := new Scheduler([]);
      scheduler := s;
      cells := map[];
      replication := None;
      states := map[];
      Repr := {this, s};
    }

    method EnableReplication(capacity: nat)
      requires Valid() && capacity > 0
      modifies this
      ensures Valid() && fresh(Repr - old(Repr))
      ensures View() == Enabled(old(View()), capacity)
      ensures View() == old(View()).(ring := Some(Ring(capacity, [], 0)))
    {
      var ring := new DeltaRing(capacity);
      replication := Some(ring);
      Repr := Repr + {ring};
      forall id
        ensures Sound(id) && Owned(id)
      {
        assert old(Sound(id)) && old(Owned(id));
      }
    }

    /** The part of a cycle after dispatch. */
    method CycleCell(cell: Cell, id: CellId, tick: u64, due: bool, x: Script, ghost cycle: CycleFn)
      returns (r: CycleResult)
      requires Follows(h, x, cycle)
      requires cell.Valid() && cell.chain.h == h && MemoryOk(cell.state.mem)
      requires this !in cell.Repr && RingObjects() !! cell.Repr
      requires due == CheckpointDue(tick, cell.state.lastCheckpoint, cell.state.interval)
      modifies cell.Repr, RingObjects()
      ensures cell.Valid()
      ensures Exit(cell.state, RingView(), Idle(r)) == cycle(id, tick, old(cell.state), old(RingView()))
      ensures r ==
        if due && !x.faulted && replication.Some? && |old(RingView()).value.queue| >= replication.value.capacity
        then Err(ReplicationBackpressure(id, Full(replication.value.capacity))) else Ok(Some((id, tick)))
    {
      ghost var e := ScriptCycle(h, x, id, tick, cell.state, RingView());
      GuestRunHonest(cell.state.mem, x.ops);
      cell.RunQuantum(x.ops);
      if x.faulted {
        return Ok(Some((id, tick)));
      }
      if due {
        cell.SaveCheckpoint(tick, x.registers);
        if replication.Some? {
          var deltas := cell.DirtyDeltas();
          var pushed := replication.value.Push(TickBatch(tick, deltas));
          if pushed.Err? {
            return Err(ReplicationBackpressure(id, pushed.error));
          }
        }
        cell.ClearDirtyPages();
      }
      r := Ok(Some((id, tick)));
    }

    /** Ask the scheduler for the next cell. */
    method DispatchNext() returns (d: Option<DispatchOutcome>)
      requires Valid() && (scheduler.order != [] ==> scheduler.tick + 1 < U64_LIMIT)
      modifies scheduler
      ensures Valid() && Repr == old(Repr)
      ensures var before := old(View());
        if before.order == [] then d == None && View() == before
        else
          && Dispatchable(before)
          && var id, c := before.order[0], before.cells[before.order[0]];
          && d == Some(DispatchOutcome(id, before.tick + 1, CheckpointDue(before.tick + 1, c.lastCheckpoint, c.interval)))
          && View() == before.(order := Rotate(before.order), tick := before.tick + 1)
    {
      assert scheduler.order != [] ==> Sound(scheduler.order[0]);
      d := scheduler.NextDispatch(cells);
      forall id
        ensures Sound(id)
      {
        assert old(Sound(id)) && old(Owned(id));
      }
    }

    /** No cell but `id` is out of step with its recorded value. */
    ghost predicate SoundExcept(id: CellId)
      requires Separated()
      reads this, Repr
    {
      states.Keys + {id} == cells.Keys && forall other {:trigger Sound(other)} :: other != id ==> Sound(other)
    }

    /** The cycle of cell `id` leaves every other cell sound. */
    method CycleApart(id: CellId, tick: u64, due: bool, x: Script, ghost cycle: CycleFn)
      returns (r: CycleResult)
      requires Follows(h, x, cycle)
      requires Separated() && AllSound() && id in cells
      requires MemoryOk(cells[id].state.mem)
      requires due == CheckpointDue(tick, cells[id].state.lastCheckpoint, cells[id].state.interval)
      modifies cells[id].Repr, RingObjects()
      ensures unchanged(this) && unchanged(scheduler)
      ensures Separated() && SoundExcept(id) && cells[id].Valid()
      ensures Exit(cells[id].state, RingView(), Idle(r)) == cycle(id, tick, old(cells[id].state), old(RingView()))
    {
      assert Sound(id) && Owned(id);
      r := CycleCell(cells[id], id, tick, due, x, cycle);
      forall other | other != id
        ensures Sound(other)
      {
        assert old(Sound(other)) && old(Apart(other, id)) && old(Owned(other));
      }
    }

    /** Record the value of cell `id`. */
    ghost method Record(id: CellId)
      requires Separated() && SoundExcept(id) && id in cells && cells[id].Valid() && cells[id].chain.h == h
      modifies this`states
      ensures Separated() && AllSound() && states == old(states)[id := cells[id].state]
    {
      states := states[id := cells[id].state];
      assert Owned(id);
      forall other
        ensures Sound(other)
      {
        assert other != id ==> old(Sound(other)) && old(Owned(other));
      }
    }

    /** The cycle of cell `id` among the others: no other cell moves. */
    method CycleAmong(id: CellId, tick: u64, due: bool, x: Script, ghost cycle: CycleFn)
      returns (r: CycleResult)
      requires Follows(h, x, cycle)
      requires Valid() && id in cells && MemoryOk(states[id].mem)
      requires due == CheckpointDue(tick, states[id].lastCheckpoint, states[id].interval)
      modifies this`states, cells[id].Repr, RingObjects()
      ensures Valid() && Repr == old(Repr) && id in View().cells
      ensures var s := old(View());
        var e := cycle(id, tick, s.cells[id], s.ring);
        View() == s.(cells := s.cells[id := e.cell], ring := e.ring) && e.phase == Idle(r)
    {
      assert Sound(id) && Owned(id);
      r := CycleApart(id, tick, due, x, cycle);
      Record(id);
    }

    method CycleNext(x: Script, ghost cycle: CycleFn)
      returns (r: CycleResult)
      requires Follows(h, x, cycle) && Valid() && Ready(View())
      modifies Repr
      ensures Valid() && Repr == old(Repr)
      ensures (View(), r) == CycledBy(cycle, old(View()))
    {
      ghost var s := View();
      var d := DispatchNext();
      assert s.order != [] ==> d.value.cell == s.order[0] && d.value.tick == s.tick + 1;
      if d.None? {
        return Ok(None);
      }
      assert Owned(d.value.cell);
      r := CycleAmong(d.value.cell, d.value.tick, d.value.checkpointDue, x, cycle);
    }

    /** One cycle: the dispatched cell, the ring and the clock move as the step machine says, and no
        other cell does.  The executor is the script `x`. */
    method RunOneCycle(x: Script) returns (r: CycleResult)
      requires Valid() && Ready(View())
      modifies Repr
      ensures Valid() && Repr == old(Repr)
      ensures (View(), r) == Cycled(h, old(View()), x)
      ensures var s := old(View());
        if s.order == [] then r == Ok(None) && View() == s
        else
          r == if TakesCheckpoint(s, x.faulted) && RingFull(s)
               then Err(ReplicationBackpressure(s.order[0], Full(s.ring.value.capacity)))
               else Ok(Some((s.order[0], s.tick + 1)))
    {
      CycledAnswer(h, View(), x);
      ghost var cycle := CycleValue(h, x);
      CycledByIsCycled(h, cycle, View(), x);
      r := CycleNext(x, cycle);
    }

    /** Only a fresh id whose memory can be mapped is admitted; on error nothing changes. */
    method SpawnCell(config: CellConfig, mapping: HostMapping) returns (r: Result<(), SupervisorError>)
      requires Valid()
      modifies this, scheduler
      ensures Valid() && fresh(Repr - old(Repr))
      ensures config.id in old(View()).cells ==> r == Err(DuplicateCell(config.id))
      ensures config.id !in old(View()).cells && config.initialBytes > config.quotaBytes ==>
        r == Err(MemoryInit(config.id, QuotaExceeded(config.initialBytes, config.quotaBytes)))
      ensures config.id !in old(View()).cells && config.initialBytes <= config.quotaBytes ==>
        !(mapping.mmapOk && mapping.mprotectOk) ==>
          r == Err(MemoryInit(config.id, if mapping.mmapOk then MprotectFailed else MmapFailed))
      ensures r.Ok? <==>
        && config.id !in old(View()).cells && config.initialBytes <= config.quotaBytes
        && mapping.mmapOk && mapping.mprotectOk
      ensures View() == if r.Ok? then Spawned(old(View()), config) else old(View())
    {
      if config.id in cells {
        return Err(DuplicateCell(config.id));
      }
      var mem := MmapGuardedMemory.New(config.initialBytes, config.quotaBytes, mapping);
      if mem.Err? {
        return Err(MemoryInit(config.id, mem.error));
      }
      Admit(config, mem.value);
      r := Ok(());
    }

    /** A new cell with its freshly mapped memory. */
    method Admit(config: CellConfig, mem: MmapGuardedMemory)
      requires Valid() && config.id !in cells
      requires mem.Valid() && mem.View() == FreshMemory(config.initialBytes, config.quotaBytes)
      requires {mem, mem.region, mem.dirty} !! Repr
      modifies this, scheduler
      ensures Valid() && fresh(Repr - old(Repr) - {mem, mem.region, mem.dirty})
      ensures View() == Spawned(old(View()), config)
    {
      var cell := new Cell(config, mem, h);
      Insert(config.id, cell);
      assert Owned(config.id);
      Record(config.id);
      assert View() == old(View()).(cells := old(View()).cells[config.id := FreshCell(config)]);
      Register(config.id);
    }

    method Insert(id: CellId, cell: Cell)
      requires Valid() && id !in cells
      requires cell.Valid() && cell.chain.h == h && cell.Repr !! Repr
      modifies this`cells, this`Repr
      ensures Repr == old(Repr) + cell.Repr && cells == old(cells)[id := cell]
      ensures Separated() && SoundExcept(id)
    {
      cells := cells[id := cell];
      Repr := Repr + cell.Repr;
      forall other
        ensures Owned(other)
      {
        assert old(Owned(other));
      }
      forall a, b
        ensures Apart(a, b)
      {
        assert old(Apart(a, b)) && old(Owned(a)) && old(Owned(b));
      }
      forall other | other != id
        ensures Sound(other)
      {
        assert old(Sound(other)) && old(Owned(other));
      }
    }

    method Register(id: CellId)
      requires Valid() && id in cells
      modifies scheduler
      ensures Valid() && View() == old(View()).(order := old(View()).order + [id])
    {
      scheduler.RegisterCell(id);
      forall other
        ensures Sound(other)
      {
        assert old(Sound(other)) && old(Owned(other));
      }
    }
  }

  // ---------------------------------------------------------------- whole lives of a supervisor

  /** A call on a supervisor.  Calls that are refused change nothing and are left out. */
  datatype Call =
    | SpawnCall(config: CellConfig)
    | EnableCall(capacity: nat)
    | CycleCall(script: Script)

  ghost predicate Callable(s: Host, call: Call)
  {
    match call
    case SpawnCall(config) => MaySpawn(s, config)
    case EnableCall(capacity) => capacity > 0
    case CycleCall(_) => Ready(s)
  }

  ghost function Called(h: HashFn, s: Host, call: Call): Host
    requires Callable(s, call)
  {
    match call
    case SpawnCall(config) => Spawned(s, config)
    case EnableCall(capacity) => Enabled(s, capacity)
    case CycleCall(x) => Cycled(h, s, x).0
  }

  /** `s` is what `calls`, each allowed when it is made, make of a new supervisor. */
  ghost predicate Lived(h: HashFn, s: Host, calls: seq<Call>)
    decreases |calls|
  {
    if calls == [] then s == BOOT.host
    else
      var last := calls[|calls| - 1];
      exists before :: Lived(h, before, calls[..|calls| - 1]) && Callable(before, last) && s == Called(h, before, last)
  }

  /** Each call extends a life: a new supervisor has lived `[]`, and the methods of `Supervisor` move
      its value as `Called` says. */
  lemma LifeGoesOn(h: HashFn, s: Host, calls: seq<Call>, call: Call)
    requires Lived(h, s, calls) && Callable(s, call)
    ensures Lived(h, Called(h, s, call), calls + [call])
  {
    var longer := calls + [call];
    assert longer[..|longer| - 1] == calls && longer[|longer| - 1] == call;
    assert Lived(h, s, longer[..|longer| - 1]);
  }

  ghost function StepsOf(s: Host, call: Call): seq<Step>
    requires Callable(s, call)
  {
    match call
    case SpawnCall(config) => [Spawn(config)]
    case EnableCall(capacity) => [Protocol.EnableReplication(capacity)]
    case CycleCall(x) =>
      if s.order == [] then [] else [RunQuantum(FrontQuantum(s, x)), FinishFlush]
  }

  /** Each call is a run of the step machine between two idle moments. */
  lemma CallIsRun(h: HashFn, m: Machine, call: Call)
    requires MachineOk(h, m) && m.phase.Idle? && Callable(m.host, call)
    ensures var m' := Run(h, m, StepsOf(m.host, call));
      m'.phase.Idle? && m'.host == Called(h, m.host, call)
  {
    match call {
      case SpawnCall(config) =>
        assert Run(h, m, [Spawn(config)]) == Advance(h, m, Spawn(config));
      case EnableCall(capacity) =>
        assert Run(h, m, [Protocol.EnableReplication(capacity)]) == Advance(h, m, Protocol.EnableReplication(capacity));
      case CycleCall(x) =>
        if m.host.order != [] {
          assert CellSound(h, m.host.cells[m.host.order[0]], m.past);
          GuestRunHonest(m.host.cells[m.host.order[0]].mem, x.ops);
          CycleIsRun(h, m, FrontQuantum(m.host, x));
        }
    }
  }

  lemma OneMoreCall(h: HashFn, m: Machine, steps: seq<Step>, call: Call)
    requires MachineOk(h, m) && Run(h, m, steps).phase.Idle? && Callable(Run(h, m, steps).host, call)
    ensures var before := Run(h, m, steps).host;
      var m' := Run(h, m, steps + StepsOf(before, call));
      m'.phase.Idle? && m'.host == Called(h, before, call)
  {
    var more := StepsOf(Run(h, m, steps).host, call);
    EveryRunOk(h, m, steps);
    CallIsRun(h, Run(h, m, steps), call);
    RunConcat(h, m, steps, more);
  }

  /** The life of every supervisor is a run of the step machine from boot, so what holds of every
      run holds of the supervisor. */
  lemma {:induction false} LifeIsRun(h: HashFn, s: Host, calls: seq<Call>) returns (steps: seq<Step>)
    requires Lived(h, s, calls)
    ensures Run(h, BOOT, steps).host == s && Run(h, BOOT, steps).phase.Idle?
    decreases |calls|
  {
    steps := [];
    if calls != [] {
      var last := calls[|calls| - 1];
      var before :| Lived(h, before, calls[..|calls| - 1]) && Callable(before, last) && s == Called(h, before, last);
      var first := LifeIsRun(h, before, calls[..|calls| - 1]);
      BootOk(h);
      OneMoreCall(h, BOOT, first, last);
      steps := first + StepsOf(before, last);
    }
  }

  /** Until the clock runs out the next cycle can be called: no sequence of calls leaves a cell that
      is queued but missing, or one whose dirty pages could not be read. */
  lemma AlwaysReady(h: HashFn, s: Host, calls: seq<Call>)
    requires Lived(h, s, calls) && s.tick + 1 < U64_LIMIT
    ensures Ready(s)
  {
    var steps := LifeIsRun(h, s, calls);
    BootOk(h);
    EveryRunOk(h, BOOT, steps);
    assert s.order != [] ==> CellSound(h, s.cells[s.order[0]], Run(h, BOOT, steps).past);
  }
}
