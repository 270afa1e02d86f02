/** The deterministic round-robin scheduler (chronos-core/src/scheduler.rs). */
module Scheduling {
  import opened Bytes
  import opened Cells

  /** The rotation and the logical clock. */
  datatype Schedule = Schedule(order: seq<CellId>, tick: nat)

  datatype Event = Register(id: CellId) | Deregister(id: CellId) | Dispatch

  datatype DispatchOutcome = DispatchOutcome(cell: CellId, tick: u64, checkpointDue: bool)

  function Rotate(order: seq<CellId>): seq<CellId>
    requires order != []
  {
    order[1..] + [order[0]]
  }

  function Without(order: seq<CellId>, id: CellId): (r: seq<CellId>)
    ensures forall x :: x in r <==> x in order && x != id
    ensures |r| <= |order|
  {
    if order == [] then []
    else (if order[0] == id then [] else [order[0]]) + Without(order[1..], id)
  }

  function Next(s: Schedule, e: Event): Schedule
  {
    match e
    case Register(id) => s.(order := s.order + [id])
    case Deregister(id) => s.(order := Without(s.order, id))
    case Dispatch => if s.order == [] then s else Schedule(Rotate(s.order), s.tick + 1)
  }

  function Exec(s: Schedule, es: seq<Event>): Schedule
    decreases |es|
  {
    if es == [] then s else Exec(Next(s, es[0]), es[1..])
  }

  predicate Dispatches(s: Schedule, e: Event, id: CellId)
  {
    e.Dispatch? && s.order != [] && s.order[0] == id
  }

  /** How often `id` is dispatched along a run. */
  function DispatchCount(s: Schedule, es: seq<Event>, id: CellId): nat
    decreases |es|
  {
    if es == [] then 0
    else (if Dispatches(s, es[0], id) then 1 else 0) + DispatchCount(Next(s, es[0]), es[1..], id)
  }

  /** Ids handed to `register` are not registered already. */
  ghost predicate FreshIds(s: Schedule, es: seq<Event>)
    decreases |es|
  {
    es == [] || ((es[0].Register? ==> es[0].id !in s.order) && FreshIds(Next(s, es[0]), es[1..]))
  }

  /** Along the run, `id` is neither dispatched nor deregistered. */
  ghost predicate PassedOver(s: Schedule, es: seq<Event>, id: CellId)
    decreases |es|
  {
    es == [] || (!Dispatches(s, es[0], id) && es[0] != Deregister(id) && PassedOver(Next(s, es[0]), es[1..], id))
  }

  predicate Distinct(order: seq<CellId>)
  {
    forall i, j :: 0 <= i < j < |order| ==> order[i] != order[j]
  }

  lemma {:induction false} WithoutConcat(a: seq<CellId>, b: seq<CellId>, id: CellId)
    ensures Without(a + b, id) == Without(a, id) + Without(b, id)
  {
    if a == [] {
      assert a + b == b;
    } else {
      assert (a + b)[1..] == a[1..] + b;
      WithoutConcat(a[1..], b, id);
    }
  }

  lemma {:induction false} WithoutDistinct(order: seq<CellId>, id: CellId)
    requires Distinct(order)
    ensures Distinct(Without(order, id))
  {
    if order != [] {
      WithoutDistinct(order[1..], id);
      assert order[0] !in order[1..];
    }
  }

  /** The rotation seen from cell `c`: `due` are the cells ahead of it, `served` those behind. */
  function Around(due: seq<CellId>, c: CellId, served: seq<CellId>): seq<CellId>
  {
    due + [c] + served
  }

  /** One event seen from a cell that is passed over: a dispatched cell moves from `due` to `served`, a new one
      joins `served`. */
  function DueAfter(due: seq<CellId>, e: Event): seq<CellId>
  {
    match e
    case Register(_) => due
    case Deregister(id) => Without(due, id)
    case Dispatch => if due == [] then due else due[1..]
  }

  function ServedAfter(due: seq<CellId>, served: seq<CellId>, e: Event): seq<CellId>
  {
    match e
    case Register(id) => served + [id]
    case Deregister(id) => Without(served, id)
    case Dispatch => if due == [] then served else served + [due[0]]
  }

  lemma RotateDistinct(order: seq<CellId>)
    requires order != [] && Distinct(order)
    ensures Distinct(Rotate(order))
  {
  }

  /** Fresh registration, deregistration and dispatch keep the rotation free of duplicates. */
  lemma NextDistinct(s: Schedule, e: Event)
    requires Distinct(s.order) && (e.Register? ==> e.id !in s.order)
    ensures Distinct(Next(s, e).order)
  {
    match e {
      case Register(id) =>
      case Deregister(id) => WithoutDistinct(s.order, id);
      case Dispatch => if s.order != [] { RotateDistinct(s.order); }
    }
  }

  lemma PassedOverStep(due: seq<CellId>, c: CellId, served: seq<CellId>, tick: nat, e: Event)
    requires !Dispatches(Schedule(Around(due, c, served), tick), e, c) && e != Deregister(c)
    ensures Next(Schedule(Around(due, c, served), tick), e).order
         == Around(DueAfter(due, e), c, ServedAfter(due, served, e))
    ensures e.Dispatch? ==> due != [] && Around(due, c, served)[0] == due[0]
  {
    var order := Around(due, c, served);
    match e {
      case Register(id) =>
        assert order + [id] == Around(due, c, served + [id]);
      case Deregister(id) =>
        WithoutConcat(due + [c], served, id);
        WithoutConcat(due, [c], id);
      case Dispatch =>
        assert order[|due|] == c;
        assert Rotate(order) == Around(due[1..], c, served + [due[0]]);
    }
  }

  lemma DueOnce(due: seq<CellId>, c: CellId, served: seq<CellId>)
    requires Distinct(Around(due, c, served)) && due != []
    ensures due[0] !in due[1..]
  {
    var order := Around(due, c, served);
    assert forall i :: 0 <= i < |due| ==> order[i] == due[i];
  }

  /** How often a cell `d` other than `c` was dispatched during a stretch in which `c` was passed over:
      never if it was not due, and once, by which it ceases to be due, if it was and stays. */
  ghost predicate Fair(due: seq<CellId>, due': seq<CellId>, d: CellId, count: nat, stays: bool)
  {
    && (d !in due ==> d !in due' && count == 0)
    && (d in due && stays ==> count == if d in due' then 0 else 1)
  }

  ghost predicate Stays(es: seq<Event>, d: CellId)
  {
    forall i :: 0 <= i < |es| ==> es[i] != Deregister(d)
  }

  lemma {:induction false} FairRun(due: seq<CellId>, c: CellId, served: seq<CellId>, tick: nat, es: seq<Event>, d: CellId)
    returns (due': seq<CellId>, served': seq<CellId>)
    requires Distinct(Around(due, c, served)) && d != c
    requires FreshIds(Schedule(Around(due, c, served), tick), es)
    requires PassedOver(Schedule(Around(due, c, served), tick), es, c)
    ensures Exec(Schedule(Around(due, c, served), tick), es).order == Around(due', c, served')
    ensures Distinct(Around(due', c, served'))
    ensures Fair(due, due', d, DispatchCount(Schedule(Around(due, c, served), tick), es, d), Stays(es, d))
    decreases |es|
  {
    var s := Schedule(Around(due, c, served), tick);
    if es == [] {
      due', served' := due, served;
    } else {
      var e := es[0];
      PassedOverStep(due, c, served, tick, e);
      NextDistinct(s, e);
      if e.Dispatch? {
        DueOnce(due, c, served);
      }
      due', served' := FairRun(DueAfter(due, e), c, ServedAfter(due, served, e), Next(s, e).tick, es[1..], d);
    }
  }

  /** Round-robin fairness with churn.  Just after `c` was dispatched it stands at the back of the
      rotation; when it next comes to the front, every cell that stayed registered has been
      dispatched exactly once in between, and a cell registered in between not at all. */
  lemma RoundRobinFairness(others: seq<CellId>, c: CellId, tick: nat, es: seq<Event>, d: CellId)
    requires Distinct(others + [c]) && d != c
    requires FreshIds(Schedule(others + [c], tick), es) && PassedOver(Schedule(others + [c], tick), es, c)
    requires Dispatches(Exec(Schedule(others + [c], tick), es), Dispatch, c)
    ensures d in others && Stays(es, d) ==> DispatchCount(Schedule(others + [c], tick), es, d) == 1
    ensures d !in others ==> DispatchCount(Schedule(others + [c], tick), es, d) == 0
  {
    assert Around(others, c, []) == others + [c];
    var due', served' := FairRun(others, c, [], tick, es, d);
    assert Around(due', c, served')[|due'|] == c;
  }

  /** The clock counts dispatches. */
  function Outcomes(s: Schedule, es: seq<Event>): seq<(CellId, nat)>
    decreases |es|
  {
    if es == [] then []
    else (if es[0].Dispatch? && s.order != [] then [(s.order[0], s.tick + 1)] else []) + Outcomes(Next(s, es[0]), es[1..])
  }

  lemma {:induction false} TicksRiseByOne(s: Schedule, es: seq<Event>)
    ensures Exec(s, es).tick == s.tick + |Outcomes(s, es)|
    ensures forall i :: 0 <= i < |Outcomes(s, es)| ==> Outcomes(s, es)[i].1 == s.tick + 1 + i
    decreases |es|
  {
    if es != [] {
      TicksRiseByOne(Next(s, es[0]), es[1..]);
    }
  }

  /** Bounded waiting: while a cell is passed over, at most the cells ahead of it are dispatched. */
  lemma {:induction false} BoundedWait(due: seq<CellId>, c: CellId, served: seq<CellId>, tick: nat, es: seq<Event>)
    requires PassedOver(Schedule(Around(due, c, served), tick), es, c)
    ensures |Outcomes(Schedule(Around(due, c, served), tick), es)| <= |due|
    decreases |es|
  {
    if es != [] {
      var s, e := Schedule(Around(due, c, served), tick), es[0];
      PassedOverStep(due, c, served, tick, e);
      BoundedWait(DueAfter(due, e), c, ServedAfter(due, served, e), Next(s, e).tick, es[1..]);
    }
  }

  // ---------------------------------------------------------------- the code

  class Scheduler {
    var order: seq<CellId>
    var tick: u64

    ghost function View(): Schedule
      reads this
    {
      Schedule(order, tick)
    }

    constructor (ids: seq<CellId>)
      ensures View() == Schedule(ids, 0)
    {
      order, tick := ids, 0;
    }

    method RegisterCell(id: CellId)
      modifies this
      ensures View() == Next(old(View()), Register(id))
      ensures order == old(order) + [id] && tick == old(tick)
    {
      order := order + [id];
    }

    method DeregisterCell(id: CellId)
      modifies this
      ensures View() == Next(old(View()), Deregister(id))
    {
      var kept := [];
      for i := 0 to |order|
        invariant order == old(order) && tick == old(tick)
        invariant kept == Without(order[..i], id)
      {
        assert order[..i + 1] == order[..i] + [order[i]];
        WithoutConcat(order[..i], [order[i]], id);
        if order[i] != id {
          kept := kept + [order[i]];
        }
      }
      assert order[..|order|] == order;
      order := kept;
    }

    /** The clock increment traps at 2^64. */
    method NextDispatch(cells: map<CellId, Cell>) returns (r: Option<DispatchOutcome>)
      requires order != [] ==> tick + 1 < U64_LIMIT
      modifies this
      ensures View() == Next(old(View()), Dispatch)
      ensures r.None? <==> old(order) == []
      ensures r.Some? ==>
        var id := old(order)[0];
        r.value == DispatchOutcome(id, tick,
          id in cells && CheckpointDue(tick, cells[id].lastCheckpointTick, cells[id].interval))
      ensures if old(order) == [] then order == [] && tick == old(tick)
        else order == old(order)[1..] + [old(order)[0]] && tick == old(tick) + 1
    {
      if order == [] {
        return None;
      }
      var id := order[0];
      order := order[1..] + [id];
      tick := tick + 1;
      var due := id in cells && CheckpointDue(tick, cells[id].lastCheckpointTick, cells[id].interval);
      r := Some(DispatchOutcome(id, tick, due));
    }
  }
}
