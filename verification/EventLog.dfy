/** Record and replay of non-deterministic host calls (chronos-core/src/event_log.rs). */
module EventLog {
  import opened Bytes

  datatype Mode = Record | Replay

  datatype Value = Clock(now: u64) | Random(bytes: seq<byte>)

  datatype Call = AskClock | AskRandom(len: nat)

  datatype Key = Key(tick: u64, ordinal: nat)

  type Log = map<Key, Value>

  datatype ReplayError =
    | MissingEntry(tick: u64, ordinal: nat)
    | TypeMismatch(tick: u64, ordinal: nat)

  type Answer = Result<Value, ReplayError>

  // ---------------------------------------------------------------- one call

  datatype Recorder = Recorder(mode: Mode, log: Log, tick: u64, ordinal: nat)

  /** `v` is an answer to `call`: the right kind, and for random bytes the right length. */
  predicate Fits(call: Call, v: Value)
  {
    match call
    case AskClock => v.Clock?
    case AskRandom(n) => v.Random? && |v.bytes| == n
  }

  function NextKey(r: Recorder, tick: u64): Key
  {
    Key(tick, if tick != r.tick then 0 else r.ordinal)
  }

  function Advance(r: Recorder, tick: u64): Recorder
  {
    r.(tick := tick, ordinal := NextKey(r, tick).ordinal + 1)
  }

  /** The recorder and the answer after one host call; `fetched` is what the real source would say. */
  function HostCall(r: Recorder, tick: u64, call: Call, fetched: Value): (Recorder, Answer)
  {
    var key, next := NextKey(r, tick), Advance(r, tick);
    match r.mode
    case Record => (next.(log := r.log[key := fetched]), Ok(fetched))
    case Replay =>
      (next,
       if key !in r.log then Err(MissingEntry(tick, key.ordinal))
       else if Fits(call, r.log[key]) then Ok(r.log[key])
       else Err(TypeMismatch(tick, key.ordinal)))
  }

  // ---------------------------------------------------------------- whole runs of a guest

  datatype Request = Request(tick: u64, call: Call)

  /** A deterministic guest: its next request is a function of the answers so far. */
  type Guest = seq<Answer> -> Request

  /** The outside world: what the real source says to the `i`-th call. */
  type World = (nat, Call) -> Value

  ghost predicate Genuine(w: World)
  {
    forall i: nat, call: Call :: Fits(call, w(i, call))
  }

  datatype Session = Session(recorder: Recorder, answers: seq<Answer>)

  function RunGuest(g: Guest, w: World, r: Recorder, n: nat): (s: Session)
    ensures |s.answers| == n
  {
    if n == 0 then Session(r, [])
    else
      var s := RunGuest(g, w, r, n - 1);
      var q := g(s.answers);
      var (next, a) := HostCall(s.recorder, q.tick, q.call, w(n - 1, q.call));
      Session(next, s.answers + [a])
  }

  function Requests(g: Guest, answers: seq<Answer>): (qs: seq<Request>)
    ensures |qs| == |answers|
  {
    seq(|answers|, i requires 0 <= i < |answers| => g(answers[..i]))
  }

  const RECORDING := Recorder(Record, map[], 0, 0)

  function Replaying(log: Log): Recorder
  {
    Recorder(Replay, log, 0, 0)
  }

  // ---------------------------------------------------------------- keys along a run

  /** Position of call `i` within its unbroken stretch of equal ticks. */
  function Ordinal(qs: seq<Request>, i: nat): nat
    requires i < |qs|
  {
    if i == 0 || qs[i - 1].tick != qs[i].tick then 0 else Ordinal(qs, i - 1) + 1
  }

  function KeyAt(qs: seq<Request>, i: nat): Key
    requires i < |qs|
  {
    Key(qs[i].tick, Ordinal(qs, i))
  }

  /** No tick is revisited once another has been seen. */
  ghost predicate Grouped(qs: seq<Request>)
  {
    forall i, j, k :: 0 <= i < j < k < |qs| && qs[i].tick == qs[k].tick ==> qs[j].tick == qs[i].tick
  }

  ghost predicate DistinctKeys(qs: seq<Request>)
  {
    forall i, j :: 0 <= i < j < |qs| ==> KeyAt(qs, i) != KeyAt(qs, j)
  }

  lemma NonDecreasingIsGrouped(qs: seq<Request>)
    requires forall i, j :: 0 <= i < j < |qs| ==> qs[i].tick <= qs[j].tick
    ensures Grouped(qs)
  {
  }

  lemma {:induction false} OrdinalGrows(qs: seq<Request>, i: nat, j: nat)
    requires i <= j < |qs| && forall k :: i <= k <= j ==> qs[k].tick == qs[i].tick
    ensures Ordinal(qs, j) == Ordinal(qs, i) + (j - i)
    decreases j
  {
    if i < j {
      OrdinalGrows(qs, i, j - 1);
    }
  }

  /** First call of the stretch that call `i` belongs to. */
  lemma {:induction false} StretchStart(qs: seq<Request>, i: nat) returns (s: nat)
    requires i < |qs|
    ensures s <= i && Ordinal(qs, s) == 0 && forall k :: s <= k <= i ==> qs[k].tick == qs[i].tick
    decreases i
  {
    if i == 0 || qs[i - 1].tick != qs[i].tick {
      s := i;
    } else {
      s := StretchStart(qs, i - 1);
    }
  }

  /** Keys never repeat exactly when no tick is revisited. */
  lemma DistinctKeysIff(qs: seq<Request>)
    ensures DistinctKeys(qs) <==> Grouped(qs)
  {
    if Grouped(qs) {
      forall i, j | 0 <= i < j < |qs|
        ensures KeyAt(qs, i) != KeyAt(qs, j)
      {
        if qs[i].tick == qs[j].tick {
          OrdinalGrows(qs, i, j);
        }
      }
    } else {
      var i, j, k :| 0 <= i < j < k < |qs| && qs[i].tick == qs[k].tick && qs[j].tick != qs[i].tick;
      var a := StretchStart(qs, i);
      var b := StretchStart(qs, k);
      assert b > j;
      assert KeyAt(qs, a) == KeyAt(qs, b);
    }
  }

  function CountTick(qs: seq<Request>, n: nat, tick: u64): nat
    requires n <= |qs|
  {
    if n == 0 then 0 else CountTick(qs, n - 1, tick) + (if qs[n - 1].tick == tick then 1 else 0)
  }

  lemma {:induction false} NoEarlierTick(qs: seq<Request>, n: nat, tick: u64)
    requires n <= |qs| && forall i :: 0 <= i < n ==> qs[i].tick != tick
    ensures CountTick(qs, n, tick) == 0
  {
    if n > 0 {
      NoEarlierTick(qs, n - 1, tick);
    }
  }

  /** Ordinals number the calls of a tick 0, 1, 2, ... in call order. */
  lemma {:induction false} OrdinalCounts(qs: seq<Request>, i: nat)
    requires Grouped(qs) && i < |qs|
    ensures Ordinal(qs, i) == CountTick(qs, i, qs[i].tick)
    decreases i
  {
    if i > 0 {
      if qs[i - 1].tick == qs[i].tick {
        OrdinalCounts(qs, i - 1);
      } else {
        NoEarlierTick(qs, i, qs[i].tick);
      }
    }
  }

  // ---------------------------------------------------------------- recording

  /** The recorder's counters follow the ordinals of the run. */
  ghost predicate CountersAt(r: Recorder, qs: seq<Request>)
  {
    if qs == [] then r.tick == 0 && r.ordinal == 0
    else r.tick == qs[|qs| - 1].tick && r.ordinal == Ordinal(qs, |qs| - 1) + 1
  }

  lemma {:induction false} OrdinalPrefix(qs: seq<Request>, n: nat, i: nat)
    requires i < n <= |qs|
    ensures Ordinal(qs[..n], i) == Ordinal(qs, i)
    decreases i
  {
    if i > 0 {
      OrdinalPrefix(qs, n, i - 1);
    }
  }

  lemma NextKeyIsKeyAt(r: Recorder, qs: seq<Request>, q: Request)
    requires CountersAt(r, qs)
    ensures NextKey(r, q.tick) == KeyAt(qs + [q], |qs|)
    ensures CountersAt(Advance(r, q.tick), qs + [q])
  {
    var longer := qs + [q];
    if qs != [] {
      assert longer[..|qs|] == qs;
      OrdinalPrefix(longer, |qs|, |qs| - 1);
    }
  }

  /** The log of a run of requests answered with `vals`. */
  function LogOf(qs: seq<Request>, vals: seq<Value>, n: nat): Log
    requires n <= |qs| == |vals|
  {
    if n == 0 then map[] else LogOf(qs, vals, n - 1)[KeyAt(qs, n - 1) := vals[n - 1]]
  }

  ghost predicate DistinctUpTo(qs: seq<Request>, n: nat)
    requires n <= |qs|
  {
    forall i, j :: 0 <= i < j < n ==> KeyAt(qs, i) != KeyAt(qs, j)
  }

  lemma {:induction false} LogKeys(qs: seq<Request>, vals: seq<Value>, n: nat)
    requires n <= |qs| == |vals|
    ensures forall k :: k in LogOf(qs, vals, n) <==> exists i :: 0 <= i < n && KeyAt(qs, i) == k
  {
    if n > 0 {
      LogKeys(qs, vals, n - 1);
    }
  }

  lemma {:induction false} LogLookup(qs: seq<Request>, vals: seq<Value>, n: nat, i: nat)
    requires i < n <= |qs| == |vals| && DistinctUpTo(qs, n)
    ensures KeyAt(qs, i) in LogOf(qs, vals, n) && LogOf(qs, vals, n)[KeyAt(qs, i)] == vals[i]
    decreases n
  {
    if i < n - 1 {
      LogLookup(qs, vals, n - 1, i);
    }
  }

  lemma {:induction false} LogSize(qs: seq<Request>, vals: seq<Value>, n: nat)
    requires n <= |qs| == |vals|
    ensures |LogOf(qs, vals, n)| <= n
    ensures |LogOf(qs, vals, n)| == n <==> DistinctUpTo(qs, n)
  {
    if n > 0 {
      LogSize(qs, vals, n - 1);
      LogKeys(qs, vals, n - 1);
      var before, key := LogOf(qs, vals, n - 1), KeyAt(qs, n - 1);
      LogGrows(before, key, vals[n - 1]);
      if key in before {
        var i :| 0 <= i < n - 1 && KeyAt(qs, i) == key;
      } else {
        assert DistinctUpTo(qs, n) <==> DistinctUpTo(qs, n - 1);
      }
    }
  }

  lemma LogGrows(log: Log, key: Key, v: Value)
    ensures |log[key := v]| == |log| + if key in log then 0 else 1
  {
  }

  lemma {:induction false} LogOfPrefix(qs: seq<Request>, vals: seq<Value>, q: Request, v: Value, n: nat)
    requires n <= |qs| == |vals|
    ensures LogOf(qs + [q], vals + [v], n) == LogOf(qs, vals, n)
  {
    if n > 0 {
      LogOfPrefix(qs, vals, q, v, n - 1);
      assert (qs + [q])[..|qs|] == qs;
      OrdinalPrefix(qs + [q], |qs|, n - 1);
    }
  }

  lemma RequestsExtend(g: Guest, answers: seq<Answer>, a: Answer)
    ensures Requests(g, answers + [a]) == Requests(g, answers) + [g(answers)]
  {
    var longer := answers + [a];
    assert forall i :: 0 <= i < |answers| ==> longer[..i] == answers[..i];
    assert longer[..|answers|] == answers;
  }

  /** What the world says along a run of requests. */
  function Replies(w: World, qs: seq<Request>): (vals: seq<Value>)
    ensures |vals| == |qs|
  {
    seq(|qs|, i requires 0 <= i < |qs| => w(i, qs[i].call))
  }

  function AllOk(vals: seq<Value>): (answers: seq<Answer>)
    ensures |answers| == |vals|
  {
    seq(|vals|, i requires 0 <= i < |vals| => Ok(vals[i]))
  }

  lemma RepliesExtend(w: World, qs: seq<Request>, q: Request)
    ensures Replies(w, qs + [q]) == Replies(w, qs) + [w(|qs|, q.call)]
    ensures AllOk(Replies(w, qs + [q])) == AllOk(Replies(w, qs)) + [Ok(w(|qs|, q.call))]
  {
  }

  /** A recording session of `n` calls passed on what the world said and logged it. */
  ghost predicate Recorded(g: Guest, w: World, s: Session, n: nat)
  {
    var qs := Requests(g, s.answers);
    && |s.answers| == n && s.recorder.mode.Record? && CountersAt(s.recorder, qs)
    && s.answers == AllOk(Replies(w, qs))
    && s.recorder.log == LogOf(qs, Replies(w, qs), n)
  }

  lemma RecordStep(g: Guest, w: World, s: Session, n: nat)
    requires Recorded(g, w, s, n)
    ensures var q := g(s.answers);
      var (next, a) := HostCall(s.recorder, q.tick, q.call, w(n, q.call));
      Recorded(g, w, Session(next, s.answers + [a]), n + 1)
  {
    var qs, q := Requests(g, s.answers), g(s.answers);
    var v := w(n, q.call);
    RequestsExtend(g, s.answers, Ok(v));
    NextKeyIsKeyAt(s.recorder, qs, q);
    RepliesExtend(w, qs, q);
    LogOfPrefix(qs, Replies(w, qs), q, v, n);
  }

  lemma {:induction false} RecordedRun(g: Guest, w: World, n: nat)
    ensures Recorded(g, w, RunGuest(g, w, RECORDING, n), n)
  {
    if n > 0 {
      RecordedRun(g, w, n - 1);
      RecordStep(g, w, RunGuest(g, w, RECORDING, n - 1), n - 1);
    }
  }

  /** Recording never overwrites exactly when no tick is revisited: the log then holds one entry
      per call, numbered within each tick from 0. */
  lemma RecordingKeepsEveryCall(g: Guest, w: World, n: nat)
    ensures var s := RunGuest(g, w, RECORDING, n);
      |s.recorder.log| == n <==> Grouped(Requests(g, s.answers))
  {
    RecordedRun(g, w, n);
    var qs := Requests(g, RunGuest(g, w, RECORDING, n).answers);
    LogSize(qs, Replies(w, qs), n);
    DistinctKeysIff(qs);
  }

  // ---------------------------------------------------------------- replay

  /** What replay has to show after `k` calls of a recorded run with requests `qs`. */
  ghost predicate InStep(g: Guest, t: Session, log: Log, qs: seq<Request>, answers: seq<Answer>, k: nat)
    requires k <= |qs| == |answers|
  {
    && t.answers == answers[..k]
    && Requests(g, t.answers) == qs[..k]
    && t.recorder.log == log && t.recorder.mode.Replay?
    && CountersAt(t.recorder, qs[..k])
  }

  /** Replay determinism: on the recorded log the same guest makes the same requests and gets the
      same answers, whatever the world says the second time. */
  lemma {:induction false} ReplayDeterminism(g: Guest, w: World, elsewhere: World, n: nat, k: nat)
    requires Genuine(w) && k <= n
    requires Grouped(Requests(g, RunGuest(g, w, RECORDING, n).answers))
    ensures var s := RunGuest(g, w, RECORDING, n);
      InStep(g, RunGuest(g, elsewhere, Replaying(s.recorder.log), k), s.recorder.log,
             Requests(g, s.answers), s.answers, k)
    decreases k
  {
    var s := RunGuest(g, w, RECORDING, n);
    var log, qs := s.recorder.log, Requests(g, s.answers);
    if k > 0 {
      ReplayDeterminism(g, w, elsewhere, n, k - 1);
      var t := RunGuest(g, elsewhere, Replaying(log), k - 1);
      assert g(t.answers) == qs[k - 1];
      RecordedRun(g, w, n);
      DistinctKeysIff(qs);
      LogLookup(qs, Replies(w, qs), n, k - 1);
      ReplayStep(g, t, log, qs, s.answers, k, elsewhere(k - 1, qs[k - 1].call));
    }
  }

  /** One replayed call, given that the log answers it as recorded. */
  lemma ReplayStep(g: Guest, t: Session, log: Log, qs: seq<Request>, answers: seq<Answer>, k: nat, v: Value)
    requires 0 < k <= |qs| == |answers| && InStep(g, t, log, qs, answers, k - 1)
    requires g(t.answers) == qs[k - 1]
    requires KeyAt(qs, k - 1) in log && answers[k - 1] == Ok(log[KeyAt(qs, k - 1)])
    requires Fits(qs[k - 1].call, log[KeyAt(qs, k - 1)])
    ensures var (next, a) := HostCall(t.recorder, qs[k - 1].tick, qs[k - 1].call, v);
      InStep(g, Session(next, t.answers + [a]), log, qs, answers, k)
  {
    var q := qs[k - 1];
    NextKeyIsKeyAt(t.recorder, qs[..k - 1], q);
    assert qs[..k - 1] + [q] == qs[..k];
    OrdinalPrefix(qs, k, k - 1);
    RequestsExtend(g, t.answers, answers[k - 1]);
    assert answers[..k] == answers[..k - 1] + [answers[k - 1]];
  }

  /** Non-interference: on any log whatever, fitting the guest or not, replay never looks at the world. */
  lemma {:induction false} ReplayIgnoresWorld(g: Guest, w: World, w': World, log: Log, n: nat)
    ensures RunGuest(g, w, Replaying(log), n) == RunGuest(g, w', Replaying(log), n)
    ensures RunGuest(g, w, Replaying(log), n).recorder.mode.Replay?
    ensures RunGuest(g, w, Replaying(log), n).recorder.log == log
  {
    if n > 0 {
      ReplayIgnoresWorld(g, w, w', log, n - 1);
    }
  }

  /** A request that keeps the run grouped asks for a key the log does not have yet. */
  lemma NextKeyUnlogged(qs: seq<Request>, vals: seq<Value>, q: Request)
    requires |qs| == |vals| && Grouped(qs + [q])
    ensures KeyAt(qs + [q], |qs|) !in LogOf(qs, vals, |qs|)
    ensures Grouped(qs)
  {
    var all := qs + [q];
    assert all[..|qs|] == qs;
    assert forall i :: 0 <= i < |qs| ==> qs[i] == all[i];
    LogKeys(qs, vals, |qs|);
    DistinctKeysIff(all);
    forall i | 0 <= i < |qs|
      ensures KeyAt(qs, i) != KeyAt(all, |qs|)
    {
      OrdinalPrefix(all, |qs|, i);
      assert KeyAt(all, i) == KeyAt(qs, i);
    }
  }

  /** A replayed request whose key is not in the log is a missing entry. */
  lemma UnloggedIsMissing(g: Guest, t: Session, log: Log, qs: seq<Request>, answers: seq<Answer>, q: Request, v: Value)
    requires |qs| == |answers| && InStep(g, t, log, qs, answers, |qs|)
    requires KeyAt(qs + [q], |qs|) !in log
    ensures HostCall(t.recorder, q.tick, q.call, v).1 == Err(MissingEntry(q.tick, Ordinal(qs + [q], |qs|)))
  {
    assert qs[..|qs|] == qs;
    NextKeyIsKeyAt(t.recorder, qs, q);
  }

  /** One call past the end of the log is a hard error that names the call, never a fresh value. */
  lemma ReplayPastTheEnd(g: Guest, w: World, elsewhere: World, n: nat)
    requires Genuine(w)
    requires Grouped(Requests(g, RunGuest(g, w, RECORDING, n + 1).answers))
    ensures var s := RunGuest(g, w, RECORDING, n);
      var q, qs := g(s.answers), Requests(g, s.answers);
      RunGuest(g, elsewhere, Replaying(s.recorder.log), n + 1).answers[n]
      == Err(MissingEntry(q.tick, CountTick(qs + [q], n, q.tick)))
  {
    var s := RunGuest(g, w, RECORDING, n);
    var log, qs, q := s.recorder.log, Requests(g, s.answers), g(s.answers);
    RequestsOneMore(g, w, n);
    RecordedRun(g, w, n);
    NextKeyUnlogged(qs, Replies(w, qs), q);
    ReplayDeterminism(g, w, elsewhere, n, n);
    var t := RunGuest(g, elsewhere, Replaying(log), n);
    assert t.answers == s.answers;
    UnloggedIsMissing(g, t, log, qs, s.answers, q, elsewhere(n, q.call));
    OrdinalCounts(qs + [q], n);
  }

  lemma RequestsOneMore(g: Guest, w: World, n: nat)
    ensures var s := RunGuest(g, w, RECORDING, n);
      Requests(g, RunGuest(g, w, RECORDING, n + 1).answers) == Requests(g, s.answers) + [g(s.answers)]
  {
    var s, u := RunGuest(g, w, RECORDING, n), RunGuest(g, w, RECORDING, n + 1);
    RequestsExtend(g, s.answers, u.answers[n]);
  }

  // ---------------------------------------------------------------- export and import

  datatype LogEntry = LogEntry(key: Key, value: Value)

  /** `entries` lists the log in some order. */
  ghost predicate IsExport(entries: seq<LogEntry>, log: Log)
  {
    && |entries| == |log|
    && (forall i :: 0 <= i < |entries| ==> entries[i].key in log && log[entries[i].key] == entries[i].value)
    && (forall k | k in log :: exists i :: 0 <= i < |entries| && entries[i].key == k)
  }

  /** The log an import builds: a repeated key keeps its last value. */
  function Imported(entries: seq<LogEntry>, n: nat): Log
    requires n <= |entries|
  {
    if n == 0 then map[] else Imported(entries, n - 1)[entries[n - 1].key := entries[n - 1].value]
  }

  lemma {:induction false} ImportedEntries(entries: seq<LogEntry>, log: Log, n: nat)
    requires n <= |entries|
    requires forall i :: 0 <= i < |entries| ==> entries[i].key in log && log[entries[i].key] == entries[i].value
    ensures forall k :: k in Imported(entries, n) <==> exists i :: 0 <= i < n && entries[i].key == k
    ensures forall k | k in Imported(entries, n) :: k in log && Imported(entries, n)[k] == log[k]
  {
    if n > 0 {
      ImportedEntries(entries, log, n - 1);
    }
  }

  /** On any entries, repeated keys included, an import holds the last value given for each key. */
  lemma {:induction false} ImportKeepsLast(entries: seq<LogEntry>, n: nat, i: nat)
    requires i < n <= |entries| && forall j :: i < j < n ==> entries[j].key != entries[i].key
    ensures entries[i].key in Imported(entries, n) && Imported(entries, n)[entries[i].key] == entries[i].value
    decreases n
  {
    if i < n - 1 {
      ImportKeepsLast(entries, n - 1, i);
    }
  }

  /** Whatever order a log is exported in, importing it gives the same log back. */
  lemma ExportImport(entries: seq<LogEntry>, log: Log)
    requires IsExport(entries, log)
    ensures Imported(entries, |entries|) == log
  {
    ImportedEntries(entries, log, |entries|);
  }

  /** Replay determinism across export and import: in whatever order the log was exported, the guest
      makes the recorded requests and gets the recorded answers on the imported one, and the real
      source is never asked. */
  lemma ReplayOfExport(g: Guest, w: World, elsewhere: World, n: nat, entries: seq<LogEntry>)
    requires Genuine(w)
    requires Grouped(Requests(g, RunGuest(g, w, RECORDING, n).answers))
    requires IsExport(entries, RunGuest(g, w, RECORDING, n).recorder.log)
    ensures var s := RunGuest(g, w, RECORDING, n);
      var t := RunGuest(g, elsewhere, Replaying(Imported(entries, |entries|)), n);
      t.answers == s.answers && Requests(g, t.answers) == Requests(g, s.answers)
  {
    var s := RunGuest(g, w, RECORDING, n);
    ExportImport(entries, s.recorder.log);
    ReplayDeterminism(g, w, elsewhere, n, n);
    assert s.answers[..n] == s.answers;
  }

  // ---------------------------------------------------------------- the code

  class EventRecorder {
    const mode: Mode
    var log: Log
    var currentTick: u64
    var currentOrdinal: nat

    ghost function View(): Recorder
      reads this
    {
      Recorder(mode, log, currentTick, currentOrdinal)
    }

    constructor (mode: Mode)
      ensures View() == Recorder(mode, map[], 0, 0)
    {
      this.mode := mode;
      log, currentTick, currentOrdinal := map[], 0, 0;
    }

    constructor FromReplayLog(entries: seq<LogEntry>)
      ensures View() == Replaying(Imported(entries, |entries|))
    {
      mode := Replay;
      log, currentTick, currentOrdinal := map[], 0, 0;
      new;
      for i := 0 to |entries|
        invariant View() == Replaying(Imported(entries, i))
      {
        log := log[entries[i].key := entries[i].value];
      }
    }

    method NextOrdinal(tick: u64) returns (ordinal: nat)
      modifies this
      ensures ordinal == old(NextKey(View(), tick)).ordinal
      ensures ordinal == if tick == old(currentTick) then old(currentOrdinal) else 0
      ensures log == old(log) && currentTick == tick && currentOrdinal == ordinal + 1
      ensures View() == old(Advance(View(), tick))
    {
      if tick != currentTick {
        currentTick := tick;
        currentOrdinal := 0;
      }
      ordinal := currentOrdinal;
      currentOrdinal := currentOrdinal + 1;
    }

    method WallClockNow(tick: u64, fetched: u64) returns (r: Result<u64, ReplayError>)
      modifies this
      ensures var (next, a) := HostCall(old(View()), tick, AskClock, Clock(fetched));
        && View() == next
        && match a {
             case Ok(v) => v.Clock? && r == Ok(v.now)
             case Err(e) => r == Err(e)
           }
      ensures var ordinal := if tick == old(currentTick) then old(currentOrdinal) else 0;
        var key := Key(tick, ordinal);
        && currentTick == tick && currentOrdinal == ordinal + 1
        && (mode.Record? ==> r == Ok(fetched) && log == old(log)[key := Clock(fetched)])
        && (mode.Replay? ==> log == old(log))
        && (mode.Replay? && key !in log ==> r == Err(MissingEntry(tick, ordinal)))
        && (mode.Replay? && key in log && log[key].Clock? ==> r == Ok(log[key].now))
        && (mode.Replay? && key in log && log[key].Random? ==> r == Err(TypeMismatch(tick, ordinal)))
    {
      var ordinal := NextOrdinal(tick);
      var key := Key(tick, ordinal);
      match mode {
        case Record =>
          log := log[key := Clock(fetched)];
          r := Ok(fetched);
        case Replay =>
          if key !in log {
            r := Err(MissingEntry(tick, ordinal));
          } else if log[key].Clock? {
            r := Ok(log[key].now);
          } else {
            r := Err(TypeMismatch(tick, ordinal));
          }
      }
    }

    /** `fetched` is what the random source would write into the buffer. */
    method RandomBytes(tick: u64, buf: array<byte>, fetched: seq<byte>) returns (r: Result<(), ReplayError>)
      requires |fetched| == buf.Length
      modifies this, buf
      ensures var (next, a) := HostCall(old(View()), tick, AskRandom(buf.Length), Random(fetched));
        && View() == next
        && match a {
             case Ok(v) => r == Ok(()) && v == Random(buf[..])
             case Err(e) => r == Err(e) && buf[..] == old(buf[..])
           }
      ensures var ordinal := if tick == old(currentTick) then old(currentOrdinal) else 0;
        var key := Key(tick, ordinal);
        && currentTick == tick && currentOrdinal == ordinal + 1
        && (mode.Record? ==> r == Ok(()) && buf[..] == fetched && log == old(log)[key := Random(fetched)])
        && (mode.Replay? ==> log == old(log))
        && (mode.Replay? && key !in log ==> r == Err(MissingEntry(tick, ordinal)))
        && (mode.Replay? && key in log && log[key].Random? && |log[key].bytes| == buf.Length ==>
            r == Ok(()) && buf[..] == log[key].bytes)
        && (mode.Replay? && key in log && (log[key].Clock? || |log[key].bytes| != buf.Length) ==>
            r == Err(TypeMismatch(tick, ordinal)))
      ensures r.Err? ==> buf[..] == old(buf[..])
    {
      var ordinal := NextOrdinal(tick);
      var key := Key(tick, ordinal);
      match mode {
        case Record =>
          forall i | 0 <= i < buf.Length { buf[i] := fetched[i]; }
          assert buf[..] == fetched;
          log := log[key := Random(buf[..])];
          r := Ok(());
        case Replay =>
          if key !in log {
            return Err(MissingEntry(tick, ordinal));
          }
          match log[key] {
            case Random(v) =>
              if |v| != buf.Length {
                return Err(TypeMismatch(tick, ordinal));
              }
              forall i | 0 <= i < buf.Length { buf[i] := v[i]; }
              assert buf[..] == v;
              r := Ok(());
            case Clock(_) =>
              r := Err(TypeMismatch(tick, ordinal));
          }
      }
    }

    method ExportLog() returns (entries: seq<LogEntry>)
      ensures IsExport(entries, log)
    {
      entries := [];
      var remaining := log.Keys;
      while remaining != {}
        invariant remaining <= log.Keys && |entries| + |remaining| == |log.Keys|
        invariant forall i :: 0 <= i < |entries| ==> entries[i].key in log && log[entries[i].key] == entries[i].value
        invariant forall k | k in log && k !in remaining :: exists i :: 0 <= i < |entries| && entries[i].key == k
        decreases |remaining|
      {
        var k :| k in remaining;
        ghost var before := entries;
        entries := entries + [LogEntry(k, log[k])];
        remaining := remaining - {k};
        assert forall i :: 0 <= i < |before| ==> entries[i] == before[i];
        assert entries[|before|].key == k;
      }
    }
  }
}
