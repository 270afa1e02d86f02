/** How far apart a cell's checkpoints are when a fixed set of cells runs without faults: the
    upper bound that goes with the lower bound `Protocol.Spaced`. */
module CheckpointSpacing {
  import opened Bytes
  import opened Cells
  import opened CheckpointChain
  import opened GuestMemory
  import opened MerkleTree
  import opened Protocol
  import opened Replication
  import opened Scheduling

  function AtLeastOne(interval: nat): nat
  {
    if interval == 0 then 1 else interval
  }

  function Times(m: nat, n: nat): nat
  {
    m * n
  }

  ghost predicate WholeRotations(gap: int, n: nat)
  {
    exists m: nat :: gap == Times(m, n)
  }

  /** With `n` cells, entry `i` comes at the first dispatch at which it is due: at least the
      interval after its predecessor, less than one rotation later, and, since a cell is
      dispatched every `n` ticks, a whole number of rotations after it. */
  ghost predicate RegularAt(entries: seq<Entry>, interval: nat, n: nat, i: nat)
    requires i < |entries| && n > 0
  {
    var previous, tick := if i == 0 then 0 else entries[i - 1].claim.tick, entries[i].claim.tick;
    && previous + interval <= tick <= previous + AtLeastOne(interval) + n - 1
    && (i > 0 ==> WholeRotations(tick - previous, n))
  }

  ghost predicate Regular(c: CellState, n: nat)
    requires n > 0
  {
    && c.lastCheckpoint == (if c.entries == [] then 0 else c.entries[|c.entries| - 1].claim.tick)
    && forall i :: 0 <= i < |c.entries| ==> RegularAt(c.entries, c.interval, n, i)
  }

  /** A cell that will next be dispatched at tick `next`: its previous dispatch was not due. */
  ghost predicate OnTime(c: CellState, next: nat, n: nat)
    requires n > 0
  {
    && Regular(c, n)
    && c.lastCheckpoint < next < c.lastCheckpoint + AtLeastOne(c.interval) + n
    && (c.entries != [] ==> WholeRotations(next - c.lastCheckpoint, n))
  }

  /** Cell `order[k]` is dispatched `k + 1` ticks from now. */
  ghost predicate Timed(s: Host)
  {
    && s.order != [] && Distinct(s.order)
    && (forall id | id in s.order :: id in s.cells)
    && forall k :: 0 <= k < |s.order| ==> OnTime(s.cells[s.order[k]], s.tick + k + 1, |s.order|)
  }

  lemma OneMoreRotation(gap: nat, n: nat)
    requires WholeRotations(gap, n)
    ensures WholeRotations(gap + n, n)
  {
    var m: nat :| gap == Times(m, n);
    assert gap + n == Times(m + 1, n);
  }

  /** A dispatch that is not due puts the cell one rotation further. */
  lemma NotDueStaysOnTime(c: CellState, mem: Memory, next: nat, n: nat)
    requires n > 0 && OnTime(c, next, n) && !CheckpointDue(next, c.lastCheckpoint, c.interval)
    ensures OnTime(c.(mem := mem), next + n, n)
  {
    if c.entries != [] {
      OneMoreRotation(next - c.lastCheckpoint, n);
    }
  }

  /** A checkpoint at a due dispatch is regular and starts a new count. */
  lemma DueStaysOnTime(c: CellState, saved: CellState, next: u64, registers: Digest, n: nat)
    requires n > 0 && OnTime(c, next, n) && CheckpointDue(next, c.lastCheckpoint, c.interval)
    requires Checkpointed(c, saved, next, registers)
    ensures OnTime(saved, next + n, n)
  {
    forall i | 0 <= i < |saved.entries|
      ensures RegularAt(saved.entries, c.interval, n, i)
    {
      assert i < |c.entries| ==> RegularAt(c.entries, c.interval, n, i);
    }
    assert n == Times(1, n);
  }

  lemma DispatchStaysTimed(s: Host, q: Quantum, saved: CellState, batch: TickBatch)
    requires Timed(s) && Dispatchable(s) && !q.faulted
    requires Checkpointed(s.cells[s.order[0]], saved, s.tick + 1, q.registers)
    requires Checkpointed(s.cells[s.order[0]], ClearDirty(saved), s.tick + 1, q.registers)
    ensures Timed(BeginWith(s, q, saved, batch).host)
  {
    var s', id, n := BeginWith(s, q, saved, batch).host, s.order[0], |s.order|;
    var c := s.cells[id];
    BeginCases(s, q, saved, batch);
    RotateDistinct(s.order);
    assert OnTime(c, s.tick + 1, n);
    if CheckpointDue(s.tick + 1, c.lastCheckpoint, c.interval) {
      DueStaysOnTime(c, s'.cells[id], s.tick + 1, q.registers, n);
    } else {
      NotDueStaysOnTime(c, q.after, s.tick + 1, n);
    }
    forall k | 0 <= k < n
      ensures OnTime(s'.cells[s'.order[k]], s'.tick + k + 1, n)
    {
      if k < n - 1 {
        assert s'.order[k] == s.order[k + 1] != id;
        assert OnTime(s.cells[s.order[k + 1]], s.tick + (k + 1) + 1, n);
      } else {
        assert s'.order[k] == id;
      }
    }
  }

  lemma ClearStaysTimed(s: Host, id: CellId, tick: u64)
    requires Timed(s) && id in s.cells && s.ring.Some?
    ensures Timed(Finish(s, id, tick))
  {
  }

  /** Steps of a run with a fixed set of cells and no faults; pushes may still be rejected. */
  predicate Steady(step: Step)
  {
    (step.RunQuantum? && !step.quantum.faulted) || step.EnableReplication? || step.FinishFlush? || step.ConsumerPop?
  }

  lemma StepStaysTimed(h: HashFn, m: Machine, step: Step)
    requires Timed(m.host) && Steady(step)
    ensures Timed(Protocol.Advance(h, m, step).host)
  {
    match step {
      case RunQuantum(q) =>
        if MayRun(m, q) {
          CheckpointOfCheckpointed(h, m.host, q);
          DispatchStaysTimed(m.host, q, CheckpointOf(h, m.host, q), BatchOf(m.host, q));
        }
      case FinishFlush =>
        if m.phase.Flushing? && m.phase.id in m.host.cells && m.host.ring.Some? {
          ClearStaysTimed(m.host, m.phase.id, m.phase.tick);
        }
      case EnableReplication(capacity) =>
        RingIsNoMatter(m.host, Some(Ring(capacity, [], 0)));
      case ConsumerPop =>
        if m.host.ring.Some? && m.host.ring.value.queue != [] {
          RingIsNoMatter(m.host, Some(PopFront(m.host.ring.value)));
        }
    }
  }

  lemma RingIsNoMatter(s: Host, ring: Option<Ring>)
    requires Timed(s)
    ensures Timed(s.(ring := ring))
  {
  }

  /** Cells are registered, none has run. */
  ghost predicate AtRest(s: Host)
  {
    && s.tick == 0 && s.order != [] && Distinct(s.order)
    && (forall id | id in s.order :: id in s.cells)
    && forall id | id in s.order :: s.cells[id].entries == [] && s.cells[id].lastCheckpoint == 0
  }

  /** On every fault-free run over a fixed set of `n` cells, rejected pushes or not, consecutive
      checkpoints of a cell are at least the interval and at most interval + n - 1 ticks apart
      (interval 0 counting as 1), and a whole number of rotations apart. */
  lemma {:induction false} EveryRunTimed(h: HashFn, m: Machine, steps: seq<Step>)
    requires Timed(m.host) && forall i :: 0 <= i < |steps| ==> Steady(steps[i])
    ensures Timed(Run(h, m, steps).host)
    decreases |steps|
  {
    if steps != [] {
      StepStaysTimed(h, m, steps[0]);
      EveryRunTimed(h, Protocol.Advance(h, m, steps[0]), steps[1..]);
    }
  }

  lemma CheckpointsAreRegular(h: HashFn, m: Machine, steps: seq<Step>, id: CellId)
    requires AtRest(m.host) && id in m.host.order && forall i :: 0 <= i < |steps| ==> Steady(steps[i])
    ensures var s := Run(h, m, steps).host;
      id in s.order && id in s.cells && s.order != [] && Regular(s.cells[id], |s.order|)
      && |s.order| == |m.host.order|
  {
    assert Timed(m.host) by {
      forall k | 0 <= k < |m.host.order|
        ensures OnTime(m.host.cells[m.host.order[k]], m.host.tick + k + 1, |m.host.order|)
      {
        assert m.host.order[k] in m.host.order;
      }
    }
    EveryRunTimed(h, m, steps);
    SameCells(h, m, steps, id);
    var s := Run(h, m, steps).host;
    var k :| 0 <= k < |s.order| && s.order[k] == id;
    assert OnTime(s.cells[s.order[k]], s.tick + k + 1, |s.order|);
  }

  lemma {:induction false} SameCells(h: HashFn, m: Machine, steps: seq<Step>, id: CellId)
    requires id in m.host.order && forall i :: 0 <= i < |steps| ==> Steady(steps[i])
    ensures id in Run(h, m, steps).host.order && |Run(h, m, steps).host.order| == |m.host.order|
    decreases |steps|
  {
    if steps != [] {
      StepSameCells(h, m, steps[0], id);
      SameCells(h, Protocol.Advance(h, m, steps[0]), steps[1..], id);
    }
  }

  lemma StepSameCells(h: HashFn, m: Machine, step: Step, id: CellId)
    requires id in m.host.order && Steady(step)
    ensures id in Protocol.Advance(h, m, step).host.order
    ensures |Protocol.Advance(h, m, step).host.order| == |m.host.order|
  {
    if step.RunQuantum? && MayRun(m, step.quantum) {
      BeginCases(m.host, step.quantum, CheckpointOf(h, m.host, step.quantum), BatchOf(m.host, step.quantum));
      assert id in Rotate(m.host.order);
    }
  }

  // ---------------------------------------------------------------- in terms of the configuration

  /** No step of any kind changes the interval of a cell. */
  lemma IntervalStays(h: HashFn, m: Machine, step: Step, id: CellId)
    requires id in m.host.cells
    ensures var cells := Protocol.Advance(h, m, step).host.cells;
      id in cells && cells[id].interval == m.host.cells[id].interval
  {
    if step.RunQuantum? && MayRun(m, step.quantum) {
      var q := step.quantum;
      CheckpointOfCheckpointed(h, m.host, q);
      BeginCases(m.host, q, CheckpointOf(h, m.host, q), BatchOf(m.host, q));
    }
  }

  lemma {:induction false} IntervalForever(h: HashFn, m: Machine, steps: seq<Step>, id: CellId)
    requires id in m.host.cells
    ensures var cells := Run(h, m, steps).host.cells;
      id in cells && cells[id].interval == m.host.cells[id].interval
    decreases |steps|
  {
    if steps != [] {
      IntervalStays(h, m, steps[0], id);
      IntervalForever(h, Protocol.Advance(h, m, steps[0]), steps[1..], id);
    }
  }

  lemma SpawnNow(h: HashFn, m: Machine, config: CellConfig)
    requires m.phase.Idle? && MaySpawn(m.host, config)
    ensures var m' := Run(h, m, [Spawn(config)]);
      && m'.phase.Idle? && m'.host.order == m.host.order + [config.id] && m'.host.tick == m.host.tick
      && m'.host.cells.Keys == m.host.cells.Keys + {config.id}
      && (forall id | id in m.host.cells :: m'.host.cells[id] == m.host.cells[id])
      && var c := m'.host.cells[config.id];
      && c.interval == config.interval && c.entries == [] && c.lastCheckpoint == 0
  {
    assert Run(h, m, [Spawn(config)]) == Protocol.Advance(h, m, Spawn(config));
    FreshCellIs(config);
  }

  /** Whenever a cell is spawned and whatever happens before and after, its checkpoints are at least the
      configured interval apart. */
  lemma ConfiguredLowerBound(h: HashFn, before: seq<Step>, config: CellConfig, after: seq<Step>)
    requires Run(h, BOOT, before).phase.Idle? && MaySpawn(Run(h, BOOT, before).host, config)
    ensures var cells := Run(h, BOOT, before + [Spawn(config)] + after).host.cells;
      && config.id in cells
      && var entries := cells[config.id].entries;
      && forall i :: 0 <= i < |entries| ==> SpacedAt(entries, config.interval, i)
  {
    var m := Run(h, BOOT, before);
    RunConcat(h, BOOT, before, [Spawn(config)]);
    RunConcat(h, BOOT, before + [Spawn(config)], after);
    SpawnNow(h, m, config);
    IntervalForever(h, Run(h, m, [Spawn(config)]), after, config.id);
    BootOk(h);
    EveryRunOk(h, BOOT, before + [Spawn(config)] + after);
    var end := Run(h, BOOT, before + [Spawn(config)] + after);
    assert CellSound(h, end.host.cells[config.id], end.past);
  }

  /** A set of cells that can be spawned one after the other. */
  ghost predicate Spawnable(configs: seq<CellConfig>)
  {
    && (forall i :: 0 <= i < |configs| ==>
        configs[i].initialBytes <= configs[i].quotaBytes && configs[i].initialBytes % PAGE_SIZE == 0)
    && (forall i, j :: 0 <= i < j < |configs| ==> configs[i].id != configs[j].id)
  }

  function Spawns(configs: seq<CellConfig>): seq<Step>
  {
    if configs == [] then [] else Spawns(configs[..|configs| - 1]) + [Spawn(configs[|configs| - 1])]
  }

  /** The configured cells and no others, registered in order, none run yet. */
  ghost predicate JustSpawned(m: Machine, configs: seq<CellConfig>)
  {
    && m.phase.Idle? && m.host.tick == 0 && |m.host.order| == |configs|
    && (forall id | id in m.host.cells :: exists k :: 0 <= k < |configs| && configs[k].id == id)
    && forall k :: 0 <= k < |configs| ==> SpawnedAs(m.host, configs[k], k)
  }

  ghost predicate SpawnedAs(s: Host, config: CellConfig, k: nat)
    requires k < |s.order|
  {
    && s.order[k] == config.id && config.id in s.cells
    && s.cells[config.id].interval == config.interval
    && s.cells[config.id].entries == [] && s.cells[config.id].lastCheckpoint == 0
  }

  lemma {:induction false} SpawnAll(h: HashFn, configs: seq<CellConfig>)
    requires Spawnable(configs)
    ensures JustSpawned(Run(h, BOOT, Spawns(configs)), configs)
    decreases |configs|
  {
    if configs != [] {
      var n := |configs| - 1;
      var front, last := configs[..n], configs[n];
      SpawnAll(h, front);
      var m := Run(h, BOOT, Spawns(front));
      RunConcat(h, BOOT, Spawns(front), [Spawn(last)]);
      SpawnNow(h, m, last);
      SpawnedOneMore(m, Run(h, m, [Spawn(last)]), configs);
    }
  }

  lemma SpawnedOneMore(m: Machine, m': Machine, configs: seq<CellConfig>)
    requires configs != [] && Spawnable(configs) && JustSpawned(m, configs[..|configs| - 1])
    requires var last := configs[|configs| - 1];
      && m'.phase.Idle? && m'.host.tick == 0 && m'.host.order == m.host.order + [last.id]
      && m'.host.cells.Keys == m.host.cells.Keys + {last.id}
      && (forall id | id in m.host.cells :: m'.host.cells[id] == m.host.cells[id])
      && var c := m'.host.cells[last.id];
      && c.interval == last.interval && c.entries == [] && c.lastCheckpoint == 0
    ensures JustSpawned(m', configs)
  {
    var n := |configs| - 1;
    forall k | 0 <= k < |configs|
      ensures SpawnedAs(m'.host, configs[k], k)
    {
      assert k < n ==> SpawnedAs(m.host, configs[..n][k], k);
    }
    forall id | id in m'.host.cells
      ensures exists k :: 0 <= k < |configs| && configs[k].id == id
    {
      if id in m.host.cells {
        var k :| 0 <= k < n && configs[..n][k].id == id;
        assert configs[k].id == id;
      } else {
        assert configs[n].id == id;
      }
    }
  }

  /** From boot: `n` cells spawned with any configurations, then any fault-free run, replication enabled
      at any moment or never.  Consecutive checkpoints of each cell are at least its configured interval
      and at most that plus `n - 1` ticks apart, and a whole number of rotations apart. */
  lemma ConfiguredSpacing(h: HashFn, configs: seq<CellConfig>, steps: seq<Step>, k: nat, i: nat)
    requires Spawnable(configs) && k < |configs| && forall j :: 0 <= j < |steps| ==> Steady(steps[j])
    ensures var cells := Run(h, BOOT, Spawns(configs) + steps).host.cells;
      && configs[k].id in cells
      && (i < |cells[configs[k].id].entries| ==>
          RegularAt(cells[configs[k].id].entries, configs[k].interval, |configs|, i))
  {
    var m, id := Run(h, BOOT, Spawns(configs)), configs[k].id;
    SpawnAll(h, configs);
    RunConcat(h, BOOT, Spawns(configs), steps);
    SpawnedAtRest(m, configs);
    assert SpawnedAs(m.host, configs[k], k);
    CheckpointsAreRegular(h, m, steps, id);
    IntervalForever(h, m, steps, id);
  }

  lemma SpawnedAtRest(m: Machine, configs: seq<CellConfig>)
    requires configs != [] && Spawnable(configs) && JustSpawned(m, configs)
    ensures AtRest(m.host)
  {
    var s := m.host;
    forall i, j | 0 <= i < j < |s.order|
      ensures s.order[i] != s.order[j]
    {
      assert SpawnedAs(s, configs[i], i) && SpawnedAs(s, configs[j], j);
    }
    forall id | id in s.order
      ensures id in s.cells && s.cells[id].entries == [] && s.cells[id].lastCheckpoint == 0
    {
      var k :| 0 <= k < |s.order| && s.order[k] == id;
      assert SpawnedAs(s, configs[k], k);
    }
  }
}
