/** A network that loses, reorders and repeats batches between the ring and the standby
    (chronos-replicate/src/lib.rs).  `apply_batch` asks only that the tick be newer than the last one
    applied, so a gap goes unnoticed; what the standby then holds is determined here page by page, for
    one cell and for several that share a stream. */
module LossyDelivery {
  import opened Bytes
  import opened Cells
  import opened DeltaCodec
  import opened GuestMemory
  import opened MerkleTree
  import opened Protocol
  import opened Replication
  import opened Scheduling
  import opened StandbyConsistency

  // ---------------------------------------------------------------- which arrivals count

  /** The batches at the given positions of a stream. */
  function Pick(stream: seq<TickBatch>, positions: seq<nat>): (bs: seq<TickBatch>)
    requires forall i :: 0 <= i < |positions| ==> positions[i] < |stream|
    ensures |bs| == |positions|
  {
    seq(|positions|, i requires 0 <= i < |positions| => stream[positions[i]])
  }

  ghost predicate InStream(stream: seq<TickBatch>, positions: seq<nat>)
  {
    forall i :: 0 <= i < |positions| ==> positions[i] < |stream|
  }

  /** One more than the newest position among the arrivals. */
  function Reached(arrivals: seq<nat>): nat
    decreases |arrivals|
  {
    if arrivals == [] then 0
    else
      var before, a := Reached(arrivals[..|arrivals| - 1]), arrivals[|arrivals| - 1];
      if a < before then before else a + 1
  }

  /** The arrivals that are newer than everything before them. */
  function Records(arrivals: seq<nat>): seq<nat>
    decreases |arrivals|
  {
    if arrivals == [] then []
    else
      var before, a := arrivals[..|arrivals| - 1], arrivals[|arrivals| - 1];
      if a < Reached(before) then Records(before) else Records(before) + [a]
  }

  predicate Rising(positions: seq<nat>)
  {
    forall i, j :: 0 <= i < j < |positions| ==> positions[i] < positions[j]
  }

  /** One more than the last of the given positions. */
  function After(positions: seq<nat>): nat
  {
    if positions == [] then 0 else positions[|positions| - 1] + 1
  }

  lemma {:induction false} RecordsFacts(stream: seq<TickBatch>, arrivals: seq<nat>)
    requires InStream(stream, arrivals)
    ensures InStream(stream, Records(arrivals)) && Reached(arrivals) <= |stream|
    ensures Rising(Records(arrivals)) && After(Records(arrivals)) == Reached(arrivals)
    decreases |arrivals|
  {
    if arrivals != [] {
      RecordsFacts(stream, arrivals[..|arrivals| - 1]);
    }
  }

  lemma PickStep(stream: seq<TickBatch>, positions: seq<nat>)
    requires InStream(stream, positions) && positions != []
    ensures InStream(stream, positions[..|positions| - 1])
    ensures ReceiveAll(FRESH_STANDBY, Pick(stream, positions))
         == Receive(ReceiveAll(FRESH_STANDBY, Pick(stream, positions[..|positions| - 1])), stream[positions[|positions| - 1]])
  {
    var front := positions[..|positions| - 1];
    assert Pick(stream, positions)[..|positions| - 1] == Pick(stream, front);
  }

  /** Whatever arrives, the standby is what it would be if the record arrivals alone had been
      delivered, in order, and its tick is that of the newest arrival. */
  lemma {:induction false} OnlyRecordsCount(stream: seq<TickBatch>, arrivals: seq<nat>)
    requires IncreasingTicks(stream) && InStream(stream, arrivals)
    ensures InStream(stream, Records(arrivals)) && Reached(arrivals) <= |stream|
    ensures ReceiveAll(FRESH_STANDBY, Pick(stream, arrivals)) == ReceiveAll(FRESH_STANDBY, Pick(stream, Records(arrivals)))
    ensures ReceiveAll(FRESH_STANDBY, Pick(stream, arrivals)).lastApplied == TickAfter(stream, Reached(arrivals))
    decreases |arrivals|
  {
    RecordsFacts(stream, arrivals);
    if arrivals != [] {
      var before, a := arrivals[..|arrivals| - 1], arrivals[|arrivals| - 1];
      OnlyRecordsCount(stream, before);
      PickStep(stream, arrivals);
      ArrivalAccepted(stream, Reached(before), a, ReceiveAll(FRESH_STANDBY, Pick(stream, before)));
      if a >= Reached(before) {
        PickStep(stream, Records(arrivals));
        assert Records(arrivals)[..|Records(before)|] == Records(before);
      }
    }
  }

  /** An arrival is accepted exactly when it is newer than all before it, gap or no gap. */
  lemma ArrivalAccepted(stream: seq<TickBatch>, reached: nat, a: nat, standby: Standby)
    requires IncreasingTicks(stream) && reached <= |stream| && a < |stream|
    requires standby.lastApplied == TickAfter(stream, reached)
    ensures ApplyBatch(standby, stream[a]).Ok? <==> reached <= a
  {
    if reached > 0 && a != reached - 1 {
      assert if a < reached - 1 then stream[a].tick < stream[reached - 1].tick else stream[reached - 1].tick < stream[a].tick;
    }
  }

  // ---------------------------------------------------------------- what a page holds

  ghost predicate Carries(past: seq<Memory>, b: TickBatch, p: nat)
  {
    0 < b.tick <= |past| && p in past[b.tick - 1].dirty
  }

  /** The tick of the newest of the given batches that carries page `p`; 0 if none does. */
  ghost function NewestTick(past: seq<Memory>, stream: seq<TickBatch>, positions: seq<nat>, p: nat): (t: nat)
    requires InStream(stream, positions)
    ensures t <= |past|
    decreases |positions|
  {
    if positions == [] then 0
    else
      var b := stream[positions[|positions| - 1]];
      if Carries(past, b, p) then b.tick else NewestTick(past, stream, positions[..|positions| - 1], p)
  }

  /** A batch is the flush of what ran at its tick. */
  ghost predicate FlushOk(past: seq<Memory>, b: TickBatch)
  {
    0 < b.tick <= |past| && MemoryOk(past[b.tick - 1]) && b == FlushBatch(past[b.tick - 1], b.tick)
  }

  ghost predicate FlushesOk(past: seq<Memory>, sent: seq<TickBatch>)
  {
    forall i :: 0 <= i < |sent| ==> FlushOk(past, sent[i])
  }

  lemma HistoryIsFlushes(past: seq<Memory>, sent: seq<TickBatch>)
    requires HistoryOk(past, sent)
    ensures FlushesOk(past, sent)
  {
    forall i | 0 <= i < |sent|
      ensures FlushOk(past, sent[i])
    {
      assert BatchOk(past, sent, i);
    }
  }

  /** An accepted batch sets the pages it carries and no other. */
  lemma AcceptedPage(past: seq<Memory>, b: TickBatch, standby: Standby, p: nat)
    requires FlushOk(past, b) && ApplyBatch(standby, b).Ok?
    ensures Receive(standby, b).lastApplied == b.tick
    ensures Known(Receive(standby, b).pages, p)
         == if Carries(past, b, p) then PageThen(past, b.tick, p) else Known(standby.pages, p)
  {
    var m := past[b.tick - 1];
    ApplyRaw(standby.pages, m, DirtyList(m), p);
    DirtyListComplete(m, p);
  }

  /** Batches delivered in rising order leave page `p` as the newest of them that carries it. */
  lemma {:induction false} PageHeld(past: seq<Memory>, sent: seq<TickBatch>, positions: seq<nat>, p: nat)
    requires IncreasingTicks(sent) && FlushesOk(past, sent) && InStream(sent, positions) && Rising(positions)
    ensures ReceiveAll(FRESH_STANDBY, Pick(sent, positions)).lastApplied == TickAfter(sent, After(positions))
    ensures Known(ReceiveAll(FRESH_STANDBY, Pick(sent, positions)).pages, p)
         == PageThen(past, NewestTick(past, sent, positions, p), p)
    decreases |positions|
  {
    if positions != [] {
      var front, last := positions[..|positions| - 1], positions[|positions| - 1];
      PageHeld(past, sent, front, p);
      PickStep(sent, positions);
      var standby := ReceiveAll(FRESH_STANDBY, Pick(sent, front));
      ArrivalAccepted(sent, After(front), last, standby);
      AcceptedPage(past, sent[last], standby, p);
    }
  }

  /** Page `p` as tick `t` of the `k`-th batch left it is as the newest batch carrying it left it. */
  lemma {:induction false} PageWanted(past: seq<Memory>, sent: seq<TickBatch>, k: nat, p: nat)
    requires HistoryOk(past, sent) && k <= |sent|
    ensures InStream(sent, Upto(k)) && TickAfter(sent, k) <= |past|
    ensures PageThen(past, TickAfter(sent, k), p) == PageThen(past, NewestTick(past, sent, Upto(k), p), p)
    decreases k
  {
    if k > 0 {
      PageWanted(past, sent, k - 1, p);
      assert Upto(k)[..k - 1] == Upto(k - 1);
      assert BatchOk(past, sent, k - 1);
    }
  }

  function Upto(k: nat): (s: seq<nat>)
    ensures |s| == k
  {
    seq(k, i => i)
  }

  // ---------------------------------------------------------------- when the standby is right

  /** Position of the newest of the first `k` batches that carries page `p`. */
  ghost function Newest(past: seq<Memory>, sent: seq<TickBatch>, k: nat, p: nat): (n: Option<nat>)
    requires k <= |sent|
    ensures n.Some? ==> n.value < k && Carries(past, sent[n.value], p)
    ensures forall i :: (if n.Some? then n.value + 1 else 0) <= i < k ==> !Carries(past, sent[i], p)
  {
    if k == 0 then None else if Carries(past, sent[k - 1], p) then Some(k - 1) else Newest(past, sent, k - 1, p)
  }

  lemma {:induction false} NoneCarries(past: seq<Memory>, sent: seq<TickBatch>, positions: seq<nat>, p: nat)
    requires InStream(sent, positions) && forall i :: 0 <= i < |positions| ==> !Carries(past, sent[positions[i]], p)
    ensures NewestTick(past, sent, positions, p) == 0
    decreases |positions|
  {
    if positions != [] {
      NoneCarries(past, sent, positions[..|positions| - 1], p);
    }
  }

  /** If the newest batch carrying `p` is among those delivered, it is the newest of those. */
  lemma {:induction false} NewestDelivered(past: seq<Memory>, sent: seq<TickBatch>, positions: seq<nat>, k: nat, p: nat, n: nat)
    requires After(positions) <= k <= |sent| && Rising(positions) && n in positions
    requires Carries(past, sent[n], p) && forall i :: n < i < k ==> !Carries(past, sent[i], p)
    ensures InStream(sent, positions) && NewestTick(past, sent, positions, p) == sent[n].tick
    decreases |positions|
  {
    assert forall i :: 0 <= i < |positions| - 1 ==> positions[i] < positions[|positions| - 1];
    var front, last := positions[..|positions| - 1], positions[|positions| - 1];
    if last != n {
      assert n in front;
      NewestDelivered(past, sent, front, k, p, n);
    }
  }

  /** Page `p` survives if only the batches at `accepted`, of the first `k`, are applied: the newest
      batch carrying it is among them, or what an older one of them left happens to be the same. */
  ghost predicate Survives(past: seq<Memory>, sent: seq<TickBatch>, k: nat, accepted: seq<nat>, p: nat)
    requires InStream(sent, accepted) && k <= |sent|
  {
    match Newest(past, sent, k, p)
    case None => true
    case Some(n) =>
      || n in accepted
      || PageThen(past, NewestTick(past, sent, accepted, p), p) == PageThen(past, sent[n].tick, p)
  }

  lemma SurvivesIff(past: seq<Memory>, sent: seq<TickBatch>, k: nat, accepted: seq<nat>, p: nat)
    requires InStream(sent, accepted) && Rising(accepted) && After(accepted) == k <= |sent|
    ensures InStream(sent, Upto(k))
    ensures PageThen(past, NewestTick(past, sent, accepted, p), p) == PageThen(past, NewestTick(past, sent, Upto(k), p), p)
       <==> Survives(past, sent, k, accepted, p)
  {
    match Newest(past, sent, k, p) {
      case None =>
        NoneCarries(past, sent, Upto(k), p);
        NoneCarries(past, sent, accepted, p);
      case Some(n) =>
        assert Upto(k)[n] == n;
        NewestDelivered(past, sent, Upto(k), k, p, n);
        if n in accepted {
          NewestDelivered(past, sent, accepted, k, p, n);
        }
    }
  }

  /** Whatever the network loses, reorders or repeats: page `p` of the standby is that of the newest
      tick applied exactly when it survived. */
  lemma PageRightIff(past: seq<Memory>, sent: seq<TickBatch>, arrivals: seq<nat>, p: nat)
    requires IncreasingTicks(sent) && HistoryOk(past, sent) && InStream(sent, arrivals)
    ensures InStream(sent, Records(arrivals)) && Reached(arrivals) <= |sent|
    ensures var standby := ReceiveAll(FRESH_STANDBY, Pick(sent, arrivals));
      && standby.lastApplied == TickAfter(sent, Reached(arrivals)) <= |past|
      && (Known(standby.pages, p) == PageThen(past, standby.lastApplied, p)
          <==> Survives(past, sent, Reached(arrivals), Records(arrivals), p))
  {
    RecordsFacts(sent, arrivals);
    OnlyRecordsCount(sent, arrivals);
    HistoryIsFlushes(past, sent);
    PageHeld(past, sent, Records(arrivals), p);
    PageWanted(past, sent, Reached(arrivals), p);
    SurvivesIff(past, sent, Reached(arrivals), Records(arrivals), p);
  }

  /** On every run of the system, for every sequence of arrivals at a standby. */
  lemma LossyStandby(h: HashFn, config: CellConfig, capacity: nat, steps: seq<SysStep>, arrivals: seq<nat>, p: nat)
    requires config.initialBytes <= config.quotaBytes && config.initialBytes % PAGE_SIZE == 0 && capacity > 0
    requires InStream(SysRun(h, SysStart(config, capacity), steps).sent, arrivals)
    ensures var s := SysRun(h, SysStart(config, capacity), steps);
      var standby := ReceiveAll(FRESH_STANDBY, Pick(s.sent, arrivals));
      && InStream(s.sent, Records(arrivals)) && Reached(arrivals) <= |s.sent|
      && standby.lastApplied == TickAfter(s.sent, Reached(arrivals)) <= |s.machine.past|
      && (Known(standby.pages, p) == PageThen(s.machine.past, standby.lastApplied, p)
          <==> Survives(s.machine.past, s.sent, Reached(arrivals), Records(arrivals), p))
  {
    SysStartOk(h, config, capacity);
    SysRunOk(h, SysStart(config, capacity), steps, config.id);
    var s := SysRun(h, SysStart(config, capacity), steps);
    PageRightIff(s.machine.past, s.sent, arrivals, p);
  }

  // ---------------------------------------------------------------- any number of cells

  /** The batch a step of the machine puts into the ring, if it does. */
  ghost function Enqueued(h: HashFn, m: Machine, step: Step): seq<TickBatch>
  {
    match step
    case RunQuantum(q) => if MayRun(m, q) && Advance(h, m, step).phase.Flushing? then [BatchOf(m.host, q)] else []
    case _ => []
  }

  /** Everything a run puts into the ring. */
  ghost function SentBy(h: HashFn, m: Machine, steps: seq<Step>): seq<TickBatch>
    decreases |steps|
  {
    if steps == [] then [] else Enqueued(h, m, steps[0]) + SentBy(h, Advance(h, m, steps[0]), steps[1..])
  }

  ghost predicate StreamOk(past: seq<Memory>, sent: seq<TickBatch>)
  {
    FlushesOk(past, sent) && IncreasingTicks(sent) && TickAfter(sent, |sent|) <= |past|
  }

  lemma StreamExtends(past: seq<Memory>, more: seq<Memory>, sent: seq<TickBatch>, added: seq<TickBatch>)
    requires StreamOk(past, sent) && past <= more
    requires added == [] || (|added| == 1 && |past| < |more| == added[0].tick && FlushOk(more, added[0]))
    ensures StreamOk(more, sent + added)
  {
    forall i | 0 <= i < |sent|
      ensures FlushOk(more, sent[i])
    {
      assert FlushOk(past, sent[i]);
    }
    if added != [] {
      PushedIncreasing(sent, added[0]);
      assert added == [added[0]];
    } else {
      assert sent + added == sent;
    }
  }

  /** A quantum whose batch is the flush of what it left in memory. */
  lemma QuantumStream(h: HashFn, m: Machine, q: Quantum, sent: seq<TickBatch>)
    requires MachineOk(h, m) && MayRun(m, q) && StreamOk(m.past, sent)
    ensures StreamOk(m.past + [q.after], sent) && StreamOk(m.past + [q.after], sent + [BatchOf(m.host, q)])
  {
    var c, past := m.host.cells[m.host.order[0]], m.past + [q.after];
    assert CellSound(h, c, m.past);
    HonestKeepsOk(c.mem, q.after);
    assert sent + [] == sent;
    StreamExtends(m.past, past, sent, []);
    StreamExtends(m.past, past, sent, [BatchOf(m.host, q)]);
  }

  lemma StepStream(h: HashFn, m: Machine, step: Step, sent: seq<TickBatch>)
    requires MachineOk(h, m) && StreamOk(m.past, sent)
    ensures StreamOk(Advance(h, m, step).past, sent + Enqueued(h, m, step))
  {
    assert sent + [] == sent;
    if step.RunQuantum? && MayRun(m, step.quantum) {
      QuantumStream(h, m, step.quantum, sent);
    } else {
      assert Advance(h, m, step).past == m.past;
    }
  }

  lemma {:induction false} SentByOk(h: HashFn, m: Machine, sent: seq<TickBatch>, steps: seq<Step>)
    requires MachineOk(h, m) && StreamOk(m.past, sent)
    ensures StreamOk(Run(h, m, steps).past, sent + SentBy(h, m, steps))
    decreases |steps|
  {
    if steps == [] {
      assert sent + SentBy(h, m, steps) == sent;
    } else {
      AdvanceOk(h, m, steps[0]);
      StepStream(h, m, steps[0], sent);
      SentByOk(h, Advance(h, m, steps[0]), sent + Enqueued(h, m, steps[0]), steps[1..]);
      ConcatAssociates(sent, Enqueued(h, m, steps[0]), SentBy(h, Advance(h, m, steps[0]), steps[1..]));
    }
  }

  lemma ConcatAssociates(a: seq<TickBatch>, b: seq<TickBatch>, c: seq<TickBatch>)
    ensures (a + b) + c == a + (b + c)
  {
  }

  /** A batch does not name its cell.  With any number of cells, on every run and for all arrivals,
      page `p` of the standby is page `p` of whichever cell, `ran[t - 1]`, ran at the newest accepted
      tick `t` whose flush carried `p`, as it was at that tick. */
  lemma SharedStandby(h: HashFn, steps: seq<Step>, arrivals: seq<nat>, p: nat)
    requires InStream(SentBy(h, BOOT, steps), arrivals)
    ensures var m, sent := Run(h, BOOT, steps), SentBy(h, BOOT, steps);
      var standby := ReceiveAll(FRESH_STANDBY, Pick(sent, arrivals));
      && InStream(sent, Records(arrivals))
      && var t := NewestTick(m.past, sent, Records(arrivals), p);
      && t <= |m.past| == |m.ran|
      && Known(standby.pages, p) == PageThen(m.past, t, p)
  {
    var m, sent := Run(h, BOOT, steps), SentBy(h, BOOT, steps);
    BootOk(h);
    SentByOk(h, BOOT, [], steps);
    assert [] + sent == sent;
    RecordsFacts(sent, arrivals);
    OnlyRecordsCount(sent, arrivals);
    PageHeld(m.past, sent, Records(arrivals), p);
    EveryRunOwn(h, BOOT, steps);
    EveryRunOk(h, BOOT, steps);
  }

  // ---------------------------------------------------------------- a gap that goes unnoticed

  ghost predicate ReadyToFlush(s: System, q: Quantum)
  {
    var host := s.machine.host;
    && s.machine.phase.Idle? && host.order == [0] && host.cells.Keys == {0} && host.tick + 1 < U64_LIMIT
    && host.ring.Some? && |host.ring.value.queue| < host.ring.value.capacity
    && !q.faulted && Honest(host.cells[0].mem, q.after)
    && CheckpointDue(host.tick + 1, host.cells[0].lastCheckpoint, host.cells[0].interval)
  }

  lemma FlushStarts(s: System, q: Quantum, saved: CellState, batch: TickBatch)
    requires ReadyToFlush(s, q)
    ensures var s' := PrimaryNext(s, q, saved, batch);
      && s'.sent == s.sent + [batch] && s'.machine.past == s.machine.past + [q.after]
      && s'.machine.phase == Flushing(0, s.machine.host.tick + 1)
      && s'.machine.host == Host(map[0 := saved], [0], s.machine.host.tick + 1,
           Some(s.machine.host.ring.value.(queue := s.machine.host.ring.value.queue + [batch])))
  {
    assert Rotate([0]) == [0];
    assert s.machine.host.cells[0 := saved] == map[0 := saved];
  }

  /** `s'` is `s` after a due cycle with its flush. */
  ghost predicate Flushed(s: System, q: Quantum, s': System)
  {
    var host, host' := s.machine.host, s'.machine.host;
    && host.tick + 1 < U64_LIMIT && s'.sent == s.sent + [FlushBatch(q.after, host.tick + 1)]
    && s'.machine.past == s.machine.past + [q.after]
    && s'.machine.phase.Idle? && host'.order == [0] && host'.cells.Keys == {0} && host'.tick == host.tick + 1
    && host'.cells[0].mem == q.after.(dirty := {}) && host'.cells[0].lastCheckpoint == host.tick + 1
    && 0 in host.cells && host'.cells[0].interval == host.cells[0].interval
    && host.ring.Some? && host'.ring.Some? && host'.ring.value.capacity == host.ring.value.capacity
    && |host'.ring.value.queue| == |host.ring.value.queue| + 1
  }

  lemma FlushEnds(h: HashFn, s: System, q: Quantum, saved: CellState, batch: TickBatch)
    requires ReadyToFlush(s, q) && batch == FlushBatch(q.after, s.machine.host.tick + 1) && saved.mem == q.after
    requires Checkpointed(s.machine.host.cells[0], saved, s.machine.host.tick + 1, q.registers)
    ensures Flushed(s, q, SysNext(h, PrimaryNext(s, q, saved, batch), EndFlush))
  {
    FlushStarts(s, q, saved, batch);
    FinishEffects(h, PrimaryNext(s, q, saved, batch).machine, 0);
  }

  /** A due cycle with its flush, at the start of a run. */
  lemma FlushCycle(h: HashFn, s: System, q: Quantum, rest: seq<SysStep>) returns (s': System)
    requires ReadyToFlush(s, q)
    ensures Flushed(s, q, s') && SysRun(h, s, [Primary(q), EndFlush] + rest) == SysRun(h, s', rest)
  {
    CheckpointOfCheckpointed(h, s.machine.host, q);
    FlushEnds(h, s, q, CheckpointOf(h, s.machine.host, q), BatchOf(s.machine.host, q));
    var started := SysNext(h, s, Primary(q));
    s' := SysNext(h, started, EndFlush);
    TwoSteps(h, s, started, Primary(q), EndFlush, rest);
  }

  lemma TwoSteps(h: HashFn, s: System, s': System, a: SysStep, b: SysStep, rest: seq<SysStep>)
    requires s' == SysNext(h, s, a)
    ensures SysRun(h, s, [a, b] + rest) == SysRun(h, SysNext(h, s', b), rest)
  {
    assert ([a, b] + rest)[1..] == [b] + rest && ([b] + rest)[1..] == rest;
    assert SysRun(h, s', [b] + rest) == SysRun(h, SysNext(h, s', b), rest);
  }

  /** A sleeping guest can be flushed again at the next tick. */
  lemma FlushAgain(s: System, wrote: Quantum, s': System, slept: Quantum)
    requires ReadyToFlush(s, wrote) && Flushed(s, wrote, s')
    requires s.machine.host.tick + 2 < U64_LIMIT && s.machine.host.cells[0].interval == 1
    requires |s.machine.host.ring.value.queue| + 1 < s.machine.host.ring.value.capacity
    requires slept == wrote.(after := wrote.after.(dirty := {}))
    ensures ReadyToFlush(s', slept)
  {
  }

  lemma FlushedTwice(s: System, wrote: Quantum, s': System, slept: Quantum, s'': System)
    requires Flushed(s, wrote, s') && Flushed(s', slept, s'')
    ensures s''.sent == s.sent
      + [FlushBatch(wrote.after, s.machine.host.tick + 1), FlushBatch(slept.after, s.machine.host.tick + 2)]
    ensures s''.machine.past == s.machine.past + [wrote.after, slept.after]
  {
  }

  /** Two due cycles in a row, each with its flush, the second of a guest that sleeps. */
  lemma WriteThenSleep(h: HashFn, s: System, wrote: Quantum) returns (steps: seq<SysStep>)
    requires ReadyToFlush(s, wrote) && s.machine.host.tick + 2 < U64_LIMIT && s.machine.host.cells[0].interval == 1
    requires |s.machine.host.ring.value.queue| + 1 < s.machine.host.ring.value.capacity
    ensures var tick, asleep := s.machine.host.tick, wrote.after.(dirty := {});
      var s' := SysRun(h, s, steps);
      && s'.sent == s.sent + [FlushBatch(wrote.after, tick + 1), FlushBatch(asleep, tick + 2)]
      && s'.machine.past == s.machine.past + [wrote.after, asleep]
  {
    var slept := wrote.(after := wrote.after.(dirty := {}));
    var rest := [Primary(slept), EndFlush] + [];
    steps := [Primary(wrote), EndFlush] + rest;
    var s1 := FlushCycle(h, s, wrote, rest);
    FlushAgain(s, wrote, s1, slept);
    var s2 := FlushCycle(h, s1, slept, []);
    FlushedTwice(s, wrote, s1, slept, s2);
    assert SysRun(h, s2, []) == s2;
  }

  /** The first batch is lost, the second is accepted without complaint, and the standby believes
      itself at tick 2 without what was written at tick 1. */
  ghost predicate GapUnnoticed(s: System, p: nat)
  {
    && |s.sent| == 2 && |s.machine.past| == 2
    && ApplyBatch(FRESH_STANDBY, s.sent[1]).Ok? && Receive(FRESH_STANDBY, s.sent[1]).lastApplied == 2
    && Known(Receive(FRESH_STANDBY, s.sent[1]).pages, p) != PageThen(s.machine.past, 2, p)
  }

  lemma SecondBatchMisses(s: System, wrote: Memory, p: nat)
    requires HistoryOk(s.machine.past, s.sent) && s.machine.past == [wrote, wrote.(dirty := {})]
    requires |s.sent| == 2 && s.sent[1].tick == 2 && PageAt(wrote.bytes, p) != ZeroPage()
    ensures GapUnnoticed(s, p)
  {
    HistoryIsFlushes(s.machine.past, s.sent);
    AcceptedPage(s.machine.past, s.sent[1], FRESH_STANDBY, p);
  }

  lemma LostWrite(h: HashFn, s: System, wrote: Quantum, p: nat) returns (steps: seq<SysStep>)
    requires SystemOk(h, s, 0) && ReadyToFlush(s, wrote) && PageAt(wrote.after.bytes, p) != ZeroPage()
    requires s.sent == [] && s.machine.past == [] && s.machine.host.tick == 0
    requires s.machine.host.cells[0].interval == 1
    requires |s.machine.host.ring.value.queue| + 1 < s.machine.host.ring.value.capacity
    ensures GapUnnoticed(SysRun(h, s, steps), p)
  {
    steps := WriteThenSleep(h, s, wrote);
    SysRunOk(h, s, steps, 0);
    SecondBatchMisses(SysRun(h, s, steps), wrote.after, p);
  }

  lemma StartReady(registers: Digest)
    ensures ReadyToFlush(SysStart(ONE_PAGE_CELL, 2), Quantum(OneByteWritten(), false, registers))
  {
    OneByteWrittenFacts();
  }

  /** The failing case is one the code reaches. */
  lemma GapGoesUnnoticed(h: HashFn) returns (steps: seq<SysStep>)
    ensures GapUnnoticed(SysRun(h, SysStart(ONE_PAGE_CELL, 2), steps), 0)
  {
    StartReady(h([]));
    OneByteWrittenFacts();
    SysStartOk(h, ONE_PAGE_CELL, 2);
    steps := LostWrite(h, SysStart(ONE_PAGE_CELL, 2), Quantum(OneByteWritten(), false, h([])), 0);
  }
}
