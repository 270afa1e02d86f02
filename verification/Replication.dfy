/** The replication ring and the standby's apply loop (chronos-replicate/src/lib.rs).

    `ArrayQueue` is an atomic bounded FIFO.  A push is two steps, the enqueue and the store of
    the observability tick, between which the consumer may pop. */
module Replication {
  import opened Bytes
  import opened DeltaCodec
  import opened RunLength

  datatype TickBatch = TickBatch(tick: u64, deltas: seq<PageDelta>)

  datatype RingError = Full(capacity: nat)

  // ---------------------------------------------------------------- ring: atomic steps

  datatype Ring = Ring(capacity: nat, queue: seq<TickBatch>, lastPushed: u64)

  function Enqueue(r: Ring, b: TickBatch): Result<Ring, RingError>
  {
    if |r.queue| < r.capacity then Ok(r.(queue := r.queue + [b])) else Err(Full(r.capacity))
  }

  function StoreTick(r: Ring, tick: u64): Ring
  {
    r.(lastPushed := tick)
  }

  function PopFront(r: Ring): Ring
    requires r.queue != []
  {
    r.(queue := r.queue[1..])
  }

  predicate IncreasingTicks(s: seq<TickBatch>)
  {
    && (forall i :: 0 <= i < |s| ==> s[i].tick > 0)
    && (forall i, j :: 0 <= i < j < |s| ==> s[i].tick < s[j].tick)
  }

  /** Tick of the `n`-th batch of a stream, 0 before the first. */
  function TickAfter(s: seq<TickBatch>, n: nat): u64
    requires n <= |s|
  {
    if n == 0 then 0 else s[n - 1].tick
  }

  // ---------------------------------------------------------------- ring: every interleaving

  /** The ring with its producer's pending store and the history of both ends. */
  datatype RingRun = RingRun(ring: Ring, pending: Option<u64>, pushed: seq<TickBatch>, popped: seq<TickBatch>)

  datatype RingStep = StartPush(batch: TickBatch) | FinishPush | PopOne

  /** One step; a step that is not possible in the current state changes nothing.  The producer
      is sequential and its ticks rise. */
  function RingNext(s: RingRun, step: RingStep): RingRun
  {
    match step
    case StartPush(b) =>
      if s.pending.None? && b.tick > TickAfter(s.pushed, |s.pushed|) then
        match Enqueue(s.ring, b)
        case Ok(r) => s.(ring := r, pending := Some(b.tick), pushed := s.pushed + [b])
        case Err(_) => s
      else s
    case FinishPush =>
      if s.pending.Some? then s.(ring := StoreTick(s.ring, s.pending.value), pending := None) else s
    case PopOne =>
      if s.ring.queue != [] then s.(ring := PopFront(s.ring), popped := s.popped + [s.ring.queue[0]]) else s
  }

  function RingExec(s: RingRun, steps: seq<RingStep>): RingRun
    decreases |steps|
  {
    if steps == [] then s else RingExec(RingNext(s, steps[0]), steps[1..])
  }

  /** What every interleaving keeps: nothing is lost, duplicated or reordered, the queue is
      bounded, and the published tick is that of the newest enqueued batch, or of its
      predecessor while the newest push has not stored its tick yet. */
  ghost predicate RingSafe(s: RingRun)
  {
    && s.pushed == s.popped + s.ring.queue
    && |s.ring.queue| <= s.ring.capacity
    && IncreasingTicks(s.pushed)
    && match s.pending
       case None => s.ring.lastPushed == TickAfter(s.pushed, |s.pushed|)
       case Some(t) =>
         && s.pushed != [] && t == TickAfter(s.pushed, |s.pushed|)
         && s.ring.lastPushed == TickAfter(s.pushed, |s.pushed| - 1)
  }

  lemma PushedIncreasing(pushed: seq<TickBatch>, b: TickBatch)
    requires IncreasingTicks(pushed) && b.tick > TickAfter(pushed, |pushed|)
    ensures IncreasingTicks(pushed + [b])
  {
    var longer, last := pushed + [b], |pushed|;
    forall i, j | 0 <= i < j < |longer|
      ensures longer[i].tick < longer[j].tick
    {
      if j < last {
        assert pushed[i].tick < pushed[j].tick;
      } else if i < last - 1 {
        assert pushed[i].tick < pushed[last - 1].tick;
      }
    }
  }

  lemma StartPushSafe(s: RingRun, b: TickBatch)
    requires RingSafe(s) && s.pending.None? && b.tick > TickAfter(s.pushed, |s.pushed|)
    requires |s.ring.queue| < s.ring.capacity
    ensures RingSafe(RingRun(s.ring.(queue := s.ring.queue + [b]), Some(b.tick), s.pushed + [b], s.popped))
  {
    PushedIncreasing(s.pushed, b);
    assert (s.popped + s.ring.queue) + [b] == s.popped + (s.ring.queue + [b]);
  }

  lemma PopOneSafe(s: RingRun)
    requires RingSafe(s) && s.ring.queue != []
    ensures RingSafe(s.(ring := PopFront(s.ring), popped := s.popped + [s.ring.queue[0]]))
  {
    assert (s.popped + [s.ring.queue[0]]) + s.ring.queue[1..] == s.popped + s.ring.queue;
  }

  lemma RingStepSafe(s: RingRun, step: RingStep)
    requires RingSafe(s)
    ensures RingSafe(RingNext(s, step))
    ensures RingNext(s, step).ring.lastPushed >= s.ring.lastPushed
    ensures s.pushed <= RingNext(s, step).pushed && s.popped <= RingNext(s, step).popped
  {
    match step {
      case StartPush(b) =>
        if s.pending.None? && b.tick > TickAfter(s.pushed, |s.pushed|) && |s.ring.queue| < s.ring.capacity {
          StartPushSafe(s, b);
        }
      case FinishPush =>
        if s.pending.Some? && |s.pushed| > 1 {
          assert s.pushed[|s.pushed| - 2].tick < s.pushed[|s.pushed| - 1].tick;
        }
      case PopOne =>
        if s.ring.queue != [] {
          PopOneSafe(s);
        }
    }
  }

  /** Ring safety over every interleaving of pushes and pops, and monotonicity of what an
      observer sees between any two points of a run. */
  lemma {:induction false} RingSafety(s: RingRun, steps: seq<RingStep>)
    requires RingSafe(s)
    ensures RingSafe(RingExec(s, steps))
    ensures RingExec(s, steps).ring.lastPushed >= s.ring.lastPushed
    ensures s.pushed <= RingExec(s, steps).pushed && s.popped <= RingExec(s, steps).popped
    decreases |steps|
  {
    if steps != [] {
      RingStepSafe(s, steps[0]);
      RingSafety(RingNext(s, steps[0]), steps[1..]);
    }
  }

  lemma FreshRingSafe(capacity: nat)
    ensures RingSafe(RingRun(Ring(capacity, [], 0), None, [], []))
  {
  }

  // ---------------------------------------------------------------- standby

  datatype ApplyError = OutOfOrder(expectedAfter: u64, got: u64)

  datatype Standby = Standby(pages: Baseline, lastApplied: u64)

  function ApplyBatch(s: Standby, b: TickBatch): Result<Standby, ApplyError>
  {
    if b.tick <= s.lastApplied && s.lastApplied != 0 then Err(OutOfOrder(s.lastApplied, b.tick))
    else Ok(Standby(ApplyDeltas(s.pages, b.deltas), b.tick))
  }

  /** The standby after a batch arrives, accepted or not. */
  function Receive(s: Standby, b: TickBatch): Standby
  {
    match ApplyBatch(s, b)
    case Ok(next) => next
    case Err(_) => s
  }

  function ReceiveAll(s: Standby, bs: seq<TickBatch>): Standby
    decreases |bs|
  {
    if bs == [] then s else Receive(ReceiveAll(s, bs[..|bs| - 1]), bs[|bs| - 1])
  }

  const FRESH_STANDBY := Standby(map[], 0)

  /** Once a batch is applied, its redelivery is rejected exactly when its tick is not 0. */
  lemma RedeliveryRejectedIff(s: Standby, b: TickBatch)
    requires ApplyBatch(s, b).Ok?
    ensures ApplyBatch(Receive(s, b), b).Err? <==> b.tick != 0
  {
  }

  lemma ApplySingle(b: Baseline, d: PageDelta)
    ensures ApplyDeltas(b, [d]) == ApplyDelta(b, d)
  {
  }

  /** At tick 0 the check is off: an Xor batch delivered twice corrupts the standby. */
  lemma TickZeroReapplies()
    ensures exists b: TickBatch :: b.tick == 0 && Receive(Receive(FRESH_STANDBY, b), b) != Receive(FRESH_STANDBY, b)
  {
    var runs := [Run(0, [1])];
    var d := Xor(0, runs);
    var b := TickBatch(0, [d]);
    var x := FitPage(Expand(runs));
    assert Expand(runs) == [1];
    var once := Receive(FRESH_STANDBY, b);
    ApplySingle(map[], d);
    var twice := Receive(once, b);
    ApplySingle(once.pages, d);
    assert once.pages[0] == XorPages(ZeroPage(), x);
    XorRecovers(once.pages[0], ZeroPage(), x);
    assert twice.pages[0] == XorPages(once.pages[0], x);
    assert x[0] == 1 && once.pages[0][0] == 1 && twice.pages[0][0] == 0;
  }

  /** Delivery of a stream in which already delivered batches may arrive again at any point:
      each element names a stream position, at most `next`, the number delivered so far. */
  ghost predicate Redelivery(stream: seq<TickBatch>, next: nat, arrivals: seq<nat>)
    decreases |arrivals|
  {
    arrivals == [] ||
    (arrivals[0] <= next && arrivals[0] < |stream| &&
     Redelivery(stream, NextAfter(next, arrivals[0]), arrivals[1..]))
  }

  function NextAfter(next: nat, arrival: nat): nat
  {
    if arrival == next then next + 1 else next
  }

  function Delivered(next: nat, arrivals: seq<nat>): nat
    decreases |arrivals|
  {
    if arrivals == [] then next else Delivered(NextAfter(next, arrivals[0]), arrivals[1..])
  }

  function ReceiveArrivals(s: Standby, stream: seq<TickBatch>, arrivals: seq<nat>): Standby
    requires forall i :: 0 <= i < |arrivals| ==> arrivals[i] < |stream|
    decreases |arrivals|
  {
    if arrivals == [] then s
    else ReceiveArrivals(Receive(s, stream[arrivals[0]]), stream, arrivals[1..])
  }

  lemma {:induction false} RedeliveryInRange(stream: seq<TickBatch>, next: nat, arrivals: seq<nat>)
    requires next <= |stream| && Redelivery(stream, next, arrivals)
    ensures forall i :: 0 <= i < |arrivals| ==> arrivals[i] < |stream|
    ensures Delivered(next, arrivals) <= |stream|
    decreases |arrivals|
  {
    if arrivals != [] {
      RedeliveryInRange(stream, NextAfter(next, arrivals[0]), arrivals[1..]);
    }
  }

  /** In-order delivery of the first `k` batches ends at the tick of the `k`-th, and is never rejected. */
  lemma {:induction false} InOrderTick(stream: seq<TickBatch>, k: nat)
    requires IncreasingTicks(stream) && k <= |stream|
    ensures ReceiveAll(FRESH_STANDBY, stream[..k]).lastApplied == TickAfter(stream, k)
    ensures k > 0 ==> ApplyBatch(ReceiveAll(FRESH_STANDBY, stream[..k - 1]), stream[k - 1]).Ok?
    decreases k
  {
    if k > 0 {
      InOrderTick(stream, k - 1);
      assert stream[..k][..k - 1] == stream[..k - 1];
    }
  }

  /** Duplicate-safe delivery: whatever is redelivered, the standby ends as if every batch had
      arrived exactly once, even with Xor deltas. */
  lemma {:induction false} DuplicateSafe(stream: seq<TickBatch>, next: nat, arrivals: seq<nat>)
    requires IncreasingTicks(stream) && next <= |stream| && Redelivery(stream, next, arrivals)
    ensures forall i :: 0 <= i < |arrivals| ==> arrivals[i] < |stream|
    ensures Delivered(next, arrivals) <= |stream|
    ensures ReceiveArrivals(ReceiveAll(FRESH_STANDBY, stream[..next]), stream, arrivals)
         == ReceiveAll(FRESH_STANDBY, stream[..Delivered(next, arrivals)])
    decreases |arrivals|
  {
    RedeliveryInRange(stream, next, arrivals);
    if arrivals != [] {
      var a := arrivals[0];
      InOrderTick(stream, next);
      if a == next {
        assert stream[..next + 1][..next] == stream[..next];
      } else {
        assert stream[a].tick <= TickAfter(stream, next);
      }
      DuplicateSafe(stream, NextAfter(next, a), arrivals[1..]);
    }
  }

  // ---------------------------------------------------------------- the code

  class DeltaRing {
    const capacity: nat
    var queue: seq<TickBatch>
    var lastPushedTick: u64

    ghost function View(): Ring
      reads this
    {
      Ring(capacity, queue, lastPushedTick)
    }

    /** `ArrayQueue::new` panics on capacity 0. */
    constructor (cap: nat)
      requires cap > 0
      ensures View() == Ring(cap, [], 0)
    {
      capacity := cap;
      queue := [];
      lastPushedTick := 0;
    }

    method Push(b: TickBatch) returns (r: Result<(), RingError>)
      modifies this
      ensures match Enqueue(old(View()), b)
        case Ok(next) => r == Ok(()) && View() == StoreTick(next, b.tick)
        case Err(e) => r == Err(e) && View() == old(View())
      ensures if old(|queue|) < capacity then
          r == Ok(()) && queue == old(queue) + [b] && lastPushedTick == b.tick
        else
          r == Err(Full(capacity)) && queue == old(queue) && lastPushedTick == old(lastPushedTick)
    {
      if |queue| >= capacity {
        return Err(Full(capacity));
      }
      queue := queue + [b];
      lastPushedTick := b.tick;
      r := Ok(());
    }

    method Drain() returns (out: seq<TickBatch>)
      modifies this
      ensures out == old(queue) && queue == [] && lastPushedTick == old(lastPushedTick)
    {
      out := [];
      while queue != []
        invariant out + queue == old(queue) && lastPushedTick == old(lastPushedTick)
        decreases |queue|
      {
        var b := queue[0];
        assert out + queue == (out + [b]) + queue[1..];
        queue := queue[1..];
        out := out + [b];
      }
    }
  }

  class StandbyApplyLoop {
    const engine: DeltaEngine
    var lastAppliedTick: u64

    ghost predicate Valid()
      reads engine
    {
      engine.Valid()
    }

    ghost function View(): Standby
      requires Valid()
      reads this, engine
    {
      Standby(engine.View(), lastAppliedTick)
    }

    constructor (initialPages: nat)
      ensures Valid() && fresh(engine) && View() == FRESH_STANDBY
    {
      engine := new DeltaEngine(initialPages);
      lastAppliedTick := 0;
    }

    method Apply(b: TickBatch) returns (r: Result<(), ApplyError>)
      requires Valid()
      modifies this, engine
      ensures Valid()
      ensures match ApplyBatch(old(View()), b)
        case Ok(next) => r == Ok(()) && View() == next
        case Err(e) => r == Err(e) && View() == old(View())
      ensures if 0 < old(lastAppliedTick) && b.tick <= old(lastAppliedTick) then
          r == Err(OutOfOrder(old(lastAppliedTick), b.tick)) && lastAppliedTick == old(lastAppliedTick)
        else
          r == Ok(()) && lastAppliedTick == b.tick
    {
      if b.tick <= lastAppliedTick && lastAppliedTick != 0 {
        return Err(OutOfOrder(lastAppliedTick, b.tick));
      }
      for i := 0 to |b.deltas|
        invariant engine.Valid() && lastAppliedTick == old(lastAppliedTick)
        invariant ApplyDeltas(engine.View(), b.deltas[i..]) == ApplyDeltas(old(engine.View()), b.deltas)
      {
        var _ := engine.Apply(b.deltas[i]);
        assert b.deltas[i..][1..] == b.deltas[i + 1..];
      }
      lastAppliedTick := b.tick;
      r := Ok(());
    }
  }
}
