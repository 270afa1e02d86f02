/** Guest linear memory (chronos-mem/src/guarded_memory.rs): layout arithmetic, bounds checks,
    growth under a quota, and the contract between guest stores and the dirty set.
    The mapping itself is a zero-initialised array; the guard page lies just past its end. */
module GuestMemory {
  import opened Bytes
  import opened DirtyPages

  datatype MemFault =
    | OutOfBounds(ptr: u32, len: u32, size: u32)
    | QuotaExceeded(requested: u32, quota: u32)
    | MmapFailed
    | MprotectFailed

  /** What the host kernel answers to the two mapping calls. */
  datatype HostMapping = HostMapping(mmapOk: bool, mprotectOk: bool)

  /** The value of a guest memory: `bytes` is the whole region up to the guard page. */
  datatype Memory = Memory(bytes: seq<byte>, size: u32, quota: u32, dirty: set<nat>)

  function RoundUp(n: nat): (r: nat)
    ensures n <= r < n + PAGE_SIZE && r % PAGE_SIZE == 0
  {
    (n + PAGE_SIZE - 1) / PAGE_SIZE * PAGE_SIZE
  }

  function FreshMemory(initial: u32, quota: u32): Memory
  {
    Memory(Zeros(RoundUp(quota)), initial, quota, {})
  }

  /** Page `p` lies wholly inside the first `n` bytes. */
  predicate Whole(p: nat, n: nat)
  {
    (p + 1) * PAGE_SIZE <= n
  }

  function PageAt(bytes: seq<byte>, p: nat): Page
  {
    if Whole(p, |bytes|) then bytes[p * PAGE_SIZE..(p + 1) * PAGE_SIZE] else ZeroPage()
  }

  /** The pages of a memory, zero outside it. */
  function Pages(m: Memory): nat -> Page
  {
    (p: nat) => PageAt(m.bytes, p)
  }

  /** What holds of every memory: the size respects the quota, only pages wholly inside the
      committed part are dirty, and nothing was ever written outside the committed part. */
  ghost predicate MemoryOk(m: Memory)
  {
    && |m.bytes| == RoundUp(m.quota)
    && m.size <= m.quota
    && m.size % PAGE_SIZE == 0
    && (forall p | p in m.dirty :: Whole(p, m.size))
    && (forall p: nat :: !Whole(p, m.size) ==> PageAt(m.bytes, p) == ZeroPage())
  }

  // ---------------------------------------------------------------- bounds and growth

  function CheckRange(size: u32, ptr: u32, len: u32): Result<nat, MemFault>
  {
    var end: nat := ptr + len;
    if end >= U32_LIMIT then Err(OutOfBounds(ptr, len, size))
    else if end > size then Err(OutOfBounds(ptr, len, size))
    else Ok(ptr)
  }

  predicate Approved(m: Memory, ptr: u32, len: u32)
  {
    CheckRange(m.size, ptr, len).Ok?
  }

  predicate Between(lo: nat, p: nat, hi: nat)
  {
    lo <= p < hi
  }

  function PageRange(lo: nat, hi: nat): set<nat>
  {
    set p: nat | p < hi && Between(lo, p, hi)
  }

  lemma PageRangeNext(s: set<nat>, lo: nat, p: nat)
    requires lo <= p
    ensures s + PageRange(lo, p + 1) == (s + PageRange(lo, p)) + {p}
  {
  }

  function TouchedPages(ptr: nat, len: nat): set<nat>
  {
    if len == 0 then {} else PageRange(ptr / PAGE_SIZE, (ptr + len - 1) / PAGE_SIZE + 1)
  }

  predicate OnPage(at: nat, p: nat)
  {
    at / PAGE_SIZE == p
  }

  /** The touched pages are those on which some byte of the range lies. */
  lemma TouchedExactly(ptr: nat, len: nat, p: nat)
    ensures p in TouchedPages(ptr, len) <==> exists at :: ptr <= at < ptr + len && OnPage(at, p)
  {
    if p in TouchedPages(ptr, len) {
      var at := if p * PAGE_SIZE < ptr then ptr else p * PAGE_SIZE;
      assert ptr <= at < ptr + len && OnPage(at, p);
    }
  }

  lemma TouchedIsWhole(size: nat, ptr: nat, len: nat, p: nat)
    requires size % PAGE_SIZE == 0 && ptr + len <= size && p in TouchedPages(ptr, len)
    ensures Whole(p, size)
  {
  }

  /** Every page an approved access touches is a whole committed page, for every access,
      exactly when the committed size is page-aligned. */
  lemma ApprovedPagesAreWhole(size: u32)
    ensures size % PAGE_SIZE == 0 <==>
      forall ptr: u32, len: u32, p: nat ::
        CheckRange(size, ptr, len).Ok? && p in TouchedPages(ptr, len) ==> Whole(p, size)
  {
    if size % PAGE_SIZE != 0 {
      var ptr: u32 := size - 1;
      assert CheckRange(size, ptr, 1).Ok? && ptr / PAGE_SIZE in TouchedPages(ptr, 1);
      assert !Whole(ptr / PAGE_SIZE, size);
    } else {
      forall ptr: u32, len: u32, p: nat | CheckRange(size, ptr, len).Ok? && p in TouchedPages(ptr, len)
        ensures Whole(p, size)
      {
        TouchedIsWhole(size, ptr, len, p);
      }
    }
  }

  // ---------------------------------------------------------------- the guest

  /** One thing an executor may do to a cell's memory during a quantum.  A store goes through
      `translate` and then marks the pages it wrote; a page may also be marked without a write. */
  datatype GuestOp =
    | Store(ptr: u32, data: seq<byte>)
    | Touch(page: nat)
    | Grow(deltaPages: u32)

  function Splice(bytes: seq<byte>, at: nat, data: seq<byte>): (r: seq<byte>)
    requires at + |data| <= |bytes|
    ensures |r| == |bytes| && r[at..at + |data|] == data
    ensures forall i :: 0 <= i < |bytes| && !(at <= i < at + |data|) ==> r[i] == bytes[i]
  {
    bytes[..at] + data + bytes[at + |data|..]
  }

  function GuestStep(m: Memory, op: GuestOp): Memory
    requires m.size <= m.quota <= |m.bytes|
  {
    match op
    case Store(ptr, data) =>
      if |data| < U32_LIMIT && Approved(m, ptr, |data|) then
        m.(bytes := Splice(m.bytes, ptr, data), dirty := m.dirty + TouchedPages(ptr, |data|))
      else m
    case Touch(page) =>
      if Whole(page, m.size) then m.(dirty := m.dirty + {page}) else m
    case Grow(delta) =>
      if m.size + delta * PAGE_SIZE <= m.quota then m.(size := m.size + delta * PAGE_SIZE) else m
  }

  function GuestRun(m: Memory, ops: seq<GuestOp>): (r: Memory)
    requires m.size <= m.quota <= |m.bytes|
    ensures r.size <= r.quota <= |r.bytes|
    decreases |ops|
  {
    if ops == [] then m else GuestRun(GuestStep(m, ops[0]), ops[1..])
  }

  /** A store writes exactly its range and marks exactly the pages it wrote on; one that does not
      end within the committed size does nothing. */
  lemma StoreEffect(m: Memory, ptr: u32, data: seq<byte>)
    requires m.size <= m.quota <= |m.bytes|
    ensures var m' := GuestStep(m, Store(ptr, data));
      if ptr + |data| > m.size then m' == m
      else
        && m'.size == m.size && m'.quota == m.quota && |m'.bytes| == |m.bytes|
        && (forall i :: 0 <= i < |m.bytes| ==>
            m'.bytes[i] == if ptr <= i < ptr + |data| then data[i - ptr] else m.bytes[i])
        && (forall p :: p in m'.dirty <==>
            p in m.dirty || exists at :: ptr <= at < ptr + |data| && OnPage(at, p))
  {
    if ptr + |data| <= m.size {
      var spliced := Splice(m.bytes, ptr, data);
      forall i | ptr <= i < ptr + |data|
        ensures spliced[i] == data[i - ptr]
      {
        assert spliced[i] == spliced[ptr..ptr + |data|][i - ptr];
      }
      forall p
        ensures p in TouchedPages(ptr, |data|) <==> p >= 0 && exists at :: ptr <= at < ptr + |data| && OnPage(at, p)
      {
        if p >= 0 {
          TouchedExactly(ptr, |data|, p);
        }
      }
    }
  }

  /** Pages granted along a run: each request is met in full when it fits the quota, and not at all
      otherwise. */
  function Granted(size: nat, quota: nat, ops: seq<GuestOp>): nat
    decreases |ops|
  {
    if ops == [] then 0
    else if ops[0].Grow? && size + ops[0].deltaPages * PAGE_SIZE <= quota then
      ops[0].deltaPages + Granted(size + ops[0].deltaPages * PAGE_SIZE, quota, ops[1..])
    else Granted(size, quota, ops[1..])
  }

  /** After any guest run exactly the ranges within the initial size plus the granted growth are
      approved. */
  lemma {:induction false} ApprovedExactly(m: Memory, ops: seq<GuestOp>, ptr: u32, len: u32)
    requires m.size <= m.quota <= |m.bytes|
    ensures GuestRun(m, ops).size == m.size + Granted(m.size, m.quota, ops) * PAGE_SIZE <= m.quota
    ensures Approved(GuestRun(m, ops), ptr, len) <==> ptr + len <= m.size + Granted(m.size, m.quota, ops) * PAGE_SIZE
    decreases |ops|
  {
    if ops != [] {
      ApprovedExactly(GuestStep(m, ops[0]), ops[1..], ptr, len);
    }
  }

  /** The executor's contract, stated on before and after only: growth in whole pages within
      the quota, no mark removed, every page whose content changed is marked. */
  ghost predicate Honest(before: Memory, after: Memory)
  {
    && after.quota == before.quota && |after.bytes| == |before.bytes|
    && before.size <= after.size <= after.quota && (after.size - before.size) % PAGE_SIZE == 0
    && before.dirty <= after.dirty
    && (forall p | p in after.dirty :: p in before.dirty || Whole(p, after.size))
    && (forall p: nat :: PageAt(before.bytes, p) != PageAt(after.bytes, p) ==> p in after.dirty)
  }

  lemma StoreOutsidePage(bytes: seq<byte>, ptr: nat, data: seq<byte>, p: nat)
    requires ptr + |data| <= |bytes| && p !in TouchedPages(ptr, |data|)
    ensures PageAt(Splice(bytes, ptr, data), p) == PageAt(bytes, p)
  {
  }

  lemma GuestStepHonest(m: Memory, op: GuestOp)
    requires MemoryOk(m)
    ensures Honest(m, GuestStep(m, op))
  {
    if op.Store? && |op.data| < U32_LIMIT && Approved(m, op.ptr, |op.data|) {
      forall p: nat | p !in TouchedPages(op.ptr, |op.data|)
        ensures PageAt(Splice(m.bytes, op.ptr, op.data), p) == PageAt(m.bytes, p)
      {
        StoreOutsidePage(m.bytes, op.ptr, op.data, p);
      }
      forall p | p in TouchedPages(op.ptr, |op.data|)
        ensures Whole(p, m.size)
      {
        TouchedIsWhole(m.size, op.ptr, |op.data|, p);
      }
    }
  }

  lemma HonestTransitive(a: Memory, b: Memory, c: Memory)
    requires Honest(a, b) && Honest(b, c)
    ensures Honest(a, c)
  {
  }

  /** An honest quantum keeps the memory invariant. */
  lemma HonestKeepsOk(before: Memory, after: Memory)
    requires MemoryOk(before) && Honest(before, after)
    ensures MemoryOk(after)
  {
  }

  /** Any sequence of guest operations is an honest quantum. */
  lemma {:induction false} GuestRunHonest(m: Memory, ops: seq<GuestOp>)
    requires MemoryOk(m)
    ensures Honest(m, GuestRun(m, ops)) && MemoryOk(GuestRun(m, ops))
    decreases |ops|
  {
    if ops != [] {
      var next := GuestStep(m, ops[0]);
      GuestStepHonest(m, ops[0]);
      HonestKeepsOk(m, next);
      GuestRunHonest(next, ops[1..]);
      HonestTransitive(m, next, GuestRun(next, ops[1..]));
    }
  }

  /** What the layout guarantees at every size, page-aligned or not. */
  ghost predicate LayoutOk(m: Memory)
  {
    && |m.bytes| == RoundUp(m.quota) && m.size <= m.quota
    && forall p | p in m.dirty :: p < RoundUp(m.quota) / PAGE_SIZE
  }

  lemma TouchedFits(limit: nat, ptr: nat, len: nat, p: nat)
    requires ptr + len <= limit && p in TouchedPages(ptr, len)
    ensures p < RoundUp(limit) / PAGE_SIZE
  {
    assert p * PAGE_SIZE <= ptr + len - 1;
  }

  lemma GuestStepLayout(m: Memory, op: GuestOp)
    requires LayoutOk(m)
    ensures LayoutOk(GuestStep(m, op))
    ensures GuestStep(m, op).quota == m.quota && m.size <= GuestStep(m, op).size
  {
    if op.Store? && |op.data| < U32_LIMIT && Approved(m, op.ptr, |op.data|) {
      forall p | p in TouchedPages(op.ptr, |op.data|)
        ensures p < RoundUp(m.quota) / PAGE_SIZE
      {
        TouchedFits(m.quota, op.ptr, |op.data|, p);
      }
    } else if op.Touch? && Whole(op.page, m.size) {
      TouchedFits(m.quota, op.page * PAGE_SIZE, PAGE_SIZE, op.page);
    }
  }

  /** The layout holds over every guest run; the committed size only grows, up to the quota. */
  lemma {:induction false} GuestRunLayout(m: Memory, ops: seq<GuestOp>)
    requires LayoutOk(m)
    ensures LayoutOk(GuestRun(m, ops))
    ensures GuestRun(m, ops).quota == m.quota && m.size <= GuestRun(m, ops).size
    decreases |ops|
  {
    if ops != [] {
      GuestStepLayout(m, ops[0]);
      GuestRunLayout(GuestStep(m, ops[0]), ops[1..]);
    }
  }

  /** Layout over whole runs: the size never exceeds the quota, an approved range stays approved
      after anything the guest does, ends below the guard page, and touches only pages the dirty set
      can hold; if the size is page-aligned, their slices lie in the committed part. */
  lemma ApprovedForever(m: Memory, ops: seq<GuestOp>, ptr: u32, len: u32)
    requires LayoutOk(m) && Approved(m, ptr, len)
    ensures LayoutOk(GuestRun(m, ops)) && Approved(GuestRun(m, ops), ptr, len)
    ensures ptr + len <= m.quota <= |GuestRun(m, ops).bytes|
    ensures forall p | p in TouchedPages(ptr, len) ::
      p < RoundUp(m.quota) / PAGE_SIZE && (m.size % PAGE_SIZE == 0 ==> Whole(p, m.size))
  {
    GuestRunLayout(m, ops);
    forall p | p in TouchedPages(ptr, len)
      ensures p < RoundUp(m.quota) / PAGE_SIZE && (m.size % PAGE_SIZE == 0 ==> Whole(p, m.size))
    {
      TouchedFits(m.quota, ptr, len, p);
      if m.size % PAGE_SIZE == 0 {
        TouchedIsWhole(m.size, ptr, len, p);
      }
    }
  }

  lemma FreshMemoryLayout(initial: u32, quota: u32)
    requires initial <= quota
    ensures LayoutOk(FreshMemory(initial, quota))
  {
  }

  lemma FreshMemoryOk(initial: u32, quota: u32)
    requires initial <= quota && initial % PAGE_SIZE == 0
    ensures MemoryOk(FreshMemory(initial, quota))
    ensures forall p: nat :: PageAt(FreshMemory(initial, quota).bytes, p) == ZeroPage()
  {
  }

  // ---------------------------------------------------------------- the code

  class MmapGuardedMemory {
    const region: array<byte>
    const quota: u32
    const dirty: DirtyPageSet
    var size: u32

    ghost predicate Valid()
      reads this, region, dirty
    {
      && region.Length == RoundUp(quota)
      && size <= quota
      && dirty.Valid()
      && dirty.capacity == RoundUp(quota) / PAGE_SIZE
    }

    ghost function View(): Memory
      reads this, region, dirty
    {
      Memory(region[..], size, quota, dirty.View())
    }

    constructor Mapped(initial: u32, quotaBytes: u32)
      requires initial <= quotaBytes
      ensures Valid() && fresh(region) && fresh(dirty)
      ensures View() == FreshMemory(initial, quotaBytes)
    {
      var n := RoundUp(quotaBytes);
      region := new byte[n](_ => 0);
      dirty := new DirtyPageSet(n / PAGE_SIZE);
      quota := quotaBytes;
      size := initial;
      new;
      assert region[..] == Zeros(n);
    }

    static method New(initial: u32, quotaBytes: u32, host: HostMapping)
      returns (r: Result<MmapGuardedMemory, MemFault>)
      ensures initial > quotaBytes ==> r == Err(QuotaExceeded(initial, quotaBytes))
      ensures initial <= quotaBytes && !host.mmapOk ==> r == Err(MmapFailed)
      ensures initial <= quotaBytes && host.mmapOk && !host.mprotectOk ==> r == Err(MprotectFailed)
      ensures initial <= quotaBytes && host.mmapOk && host.mprotectOk ==>
        && r.Ok? && fresh(r.value) && fresh(r.value.region) && fresh(r.value.dirty)
        && r.value.Valid() && r.value.View() == FreshMemory(initial, quotaBytes)
        && r.value.size == initial && r.value.quota == quotaBytes
        && (forall i :: 0 <= i < r.value.region.Length ==> r.value.region[i] == 0)
        && r.value.dirty.View() == {}
    {
      if initial > quotaBytes {
        return Err(QuotaExceeded(initial, quotaBytes));
      }
      if !host.mmapOk {
        return Err(MmapFailed);
      }
      if !host.mprotectOk {
        return Err(MprotectFailed);
      }
      var m := new MmapGuardedMemory.Mapped(initial, quotaBytes);
      r := Ok(m);
    }

    function Translate(ptr: u32, len: u32): (r: Result<nat, MemFault>)
      reads this
      ensures r.Ok? <==> ptr + len <= size
      ensures r.Ok? ==> r.value == ptr
      ensures r.Err? ==> r.error == OutOfBounds(ptr, len, size)
    {
      CheckRange(size, ptr, len)
    }

    method GrowBy(deltaPages: u32) returns (r: Result<u32, MemFault>)
      requires Valid()
      modifies this
      ensures Valid() && View() == old(GuestStep(View(), Grow(deltaPages)))
      ensures r == if old(size) + deltaPages * PAGE_SIZE <= quota then Ok(old(size) / PAGE_SIZE)
                   else Err(QuotaExceeded((old(size) + deltaPages * PAGE_SIZE) % U32_LIMIT, quota))
      ensures size == if r.Ok? then old(size) + deltaPages * PAGE_SIZE else old(size)
    {
      var newSize := size + deltaPages * PAGE_SIZE;
      if newSize > quota {
        return Err(QuotaExceeded(newSize % U32_LIMIT, quota));
      }
      var previousPages := size / PAGE_SIZE;
      size := newSize;
      r := Ok(previousPages);
    }

    method MarkDirty(page: nat)
      requires Valid() && page < dirty.capacity
      modifies dirty
      ensures Valid() && View() == old(View()).(dirty := old(View()).dirty + {page})
    {
      dirty.Mark(page);
    }

    function PageBytes(page: nat): (r: Page)
      requires region.Length == RoundUp(quota) && size <= quota && Whole(page, size)
      reads this, region
      ensures r == PageAt(region[..], page)
      ensures forall i :: 0 <= i < PAGE_SIZE ==> r[i] == region[page * PAGE_SIZE + i]
    {
      region[page * PAGE_SIZE..(page + 1) * PAGE_SIZE]
    }

    /** A guest store: bounds check, write, then mark every page written. */
    method StoreBytes(ptr: u32, data: seq<byte>)
      requires Valid() && |data| < U32_LIMIT
      modifies region, dirty
      ensures Valid() && View() == old(GuestStep(View(), Store(ptr, data)))
    {
      if Translate(ptr, |data|).Err? {
        return;
      }
      ghost var before := region[..];
      forall i | 0 <= i < |data| {
        region[ptr + i] := data[i];
      }
      assert region[..] == Splice(before, ptr, data);
      if |data| > 0 {
        MarkRange(ptr / PAGE_SIZE, (ptr + |data| - 1) / PAGE_SIZE + 1);
      }
    }

    method MarkRange(lo: nat, hi: nat)
      requires Valid() && lo <= hi <= dirty.capacity
      modifies dirty
      ensures Valid() && View() == old(View()).(dirty := old(View()).dirty + PageRange(lo, hi))
    {
      ghost var start := dirty.View();
      for p := lo to hi
        invariant dirty.Valid() && |dirty.bits| == old(|dirty.bits|)
        invariant dirty.View() == start + PageRange(lo, p)
      {
        PageRangeNext(start, lo, p);
        dirty.Mark(p);
      }
    }

    method Run(ops: seq<GuestOp>)
      requires Valid()
      modifies this, region, dirty
      ensures Valid() && View() == old(GuestRun(View(), ops))
      ensures size == old(size) + Granted(old(size), quota, ops) * PAGE_SIZE
    {
      ApprovedExactly(View(), ops, 0, 0);
      for i := 0 to |ops|
        invariant Valid()
        invariant GuestRun(View(), ops[i..]) == old(GuestRun(View(), ops))
      {
        match ops[i] {
          case Store(ptr, data) =>
            if |data| < U32_LIMIT {
              StoreBytes(ptr, data);
            }
          case Touch(page) =>
            if (page + 1) * PAGE_SIZE <= size {
              MarkDirty(page);
            }
          case Grow(delta) =>
            var _ := GrowBy(delta);
        }
        assert ops[i..][1..] == ops[i + 1..];
      }
    }
  }
}
