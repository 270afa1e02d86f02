/** One tenant's execution context (chronos-core/src/cell.rs), reduced to the parts the
    checkpoint and replication protocol touches: memory, checkpoint log, and due tick. */
module Cells {
  import opened Bytes
  import opened CheckpointChain
  import opened DeltaCodec
  import opened DirtyPages
  import opened GuestMemory
  import opened MerkleTree
  import opened Replication

  type CellId = u64

  datatype CellConfig = CellConfig(id: CellId, initialBytes: u32, quotaBytes: u32, interval: u64)

  /** The value of a cell. */
  datatype CellState = CellState(
    mem: Memory,
    leaves: map<nat, Digest>,
    entries: seq<Entry>,
    lastCheckpoint: u64,
    interval: u64)

  function FreshCell(config: CellConfig): CellState
  {
    CellState(FreshMemory(config.initialBytes, config.quotaBytes), map[], [], 0, config.interval)
  }

  /** cell.rs `checkpoint_due`; the subtraction saturates. */
  predicate CheckpointDue(tick: nat, last: nat, interval: nat)
  {
    (if tick > last then tick - last else 0) >= interval
  }

  /** A checkpoint is due once the interval has passed since the last one; an interval of 0 is always due. */
  lemma DueIff(tick: nat, last: nat, interval: nat)
    ensures CheckpointDue(tick, last, interval) <==> interval == 0 || last + interval <= tick
  {
  }

  /** The members of `s` below `n`, ascending: the order in which `iter_dirty` yields them. */
  function PagesBelow(s: set<nat>, n: nat): seq<nat>
  {
    if n == 0 then []
    else if n - 1 in s then PagesBelow(s, n - 1) + [n - 1]
    else PagesBelow(s, n - 1)
  }

  lemma {:induction false} PagesBelowMembers(s: set<nat>, n: nat)
    ensures Ascending(PagesBelow(s, n))
    ensures forall p :: p in PagesBelow(s, n) <==> p in s && p < n
  {
    if n > 0 {
      PagesBelowMembers(s, n - 1);
      AscendingConcat(PagesBelow(s, n - 1), [n - 1], n - 1);
    }
  }

  function DirtyList(m: Memory): seq<nat>
  {
    PagesBelow(m.dirty, RoundUp(m.quota) / PAGE_SIZE)
  }

  function RawDeltas(m: Memory, pages: seq<nat>): (ds: seq<PageDelta>)
    ensures |ds| == |pages|
  {
    seq(|pages|, i requires 0 <= i < |pages| => Raw(pages[i], PageAt(m.bytes, pages[i])))
  }

  function FlushBatch(m: Memory, tick: u64): TickBatch
  {
    TickBatch(tick, RawDeltas(m, DirtyList(m)))
  }

  ghost function TakeCheckpoint(h: HashFn, c: CellState, tick: u64, registers: Digest): CellState
  {
    var leaves := Rehash(h, c.leaves, c.mem, c.mem.dirty);
    c.(leaves := leaves,
       entries := c.entries + [NewEntry(h, leaves, c.entries, tick, registers)],
       lastCheckpoint := tick)
  }

  function ClearDirty(c: CellState): CellState
  {
    c.(mem := c.mem.(dirty := {}))
  }

  /** A flush carries the dirty pages and no other, ascending, each raw with its current bytes. */
  lemma FlushBatchIs(m: Memory, tick: u64)
    requires MemoryOk(m)
    ensures var b := FlushBatch(m, tick);
      && b.tick == tick
      && (forall i :: 0 <= i < |b.deltas| ==>
          var d := b.deltas[i];
          && d.Raw? && Whole(d.page, |m.bytes|)
          && d.bytes == m.bytes[d.page * PAGE_SIZE..(d.page + 1) * PAGE_SIZE])
      && (forall i, j :: 0 <= i < j < |b.deltas| ==> b.deltas[i].page < b.deltas[j].page)
      && (forall p: nat :: p in m.dirty <==> exists i :: 0 <= i < |b.deltas| && b.deltas[i].page == p)
  {
    var pages, deltas := DirtyList(m), FlushBatch(m, tick).deltas;
    PagesBelowMembers(m.dirty, RoundUp(m.quota) / PAGE_SIZE);
    forall i | 0 <= i < |deltas|
      ensures deltas[i].page == pages[i] && Whole(pages[i], m.size)
    {
      assert pages[i] in pages;
    }
    forall p: nat
      ensures p in m.dirty <==> exists i :: 0 <= i < |deltas| && deltas[i].page == p
    {
      if p in m.dirty {
        assert Whole(p, m.size);
        var i :| 0 <= i < |pages| && pages[i] == p;
        assert deltas[i].page == p;
      }
    }
  }

  /** A new cell has the configured memory, all zero and clean, the configured interval, and an empty
      chain. */
  lemma FreshCellIs(config: CellConfig)
    ensures var c := FreshCell(config);
      && c.mem.size == config.initialBytes && c.mem.quota == config.quotaBytes && c.mem.dirty == {}
      && (forall i :: 0 <= i < |c.mem.bytes| ==> c.mem.bytes[i] == 0)
      && c.interval == config.interval && c.lastCheckpoint == 0 && c.entries == [] && c.leaves == map[]
  {
  }

  lemma IterIsDirtyList(bits: seq<Word>, m: Memory)
    requires MemoryOk(m) && m.dirty == MarkedSet(bits)
    ensures IterDirty(bits, 0) == DirtyList(m)
    ensures forall i :: 0 <= i < |IterDirty(bits, 0)| ==> Whole(IterDirty(bits, 0)[i], m.size)
  {
    PagesBelowMembers(m.dirty, RoundUp(m.quota) / PAGE_SIZE);
    forall p
      ensures p in IterDirty(bits, 0) <==> p in DirtyList(m)
    {
      if p in m.dirty {
        assert Whole(p, m.size);
      }
    }
    AscendingUnique(IterDirty(bits, 0), DirtyList(m));
  }

  method DeltasOf(memory: MmapGuardedMemory, pages: seq<nat>) returns (ds: seq<PageDelta>)
    requires memory.Valid() && forall i :: 0 <= i < |pages| ==> Whole(pages[i], memory.size)
    ensures ds == RawDeltas(memory.View(), pages)
  {
    ds := [];
    for i := 0 to |pages|
      invariant |ds| == i
      invariant forall j :: 0 <= j < i ==> ds[j] == Raw(pages[j], PageAt(memory.region[..], pages[j]))
    {
      ds := ds + [Raw(pages[i], memory.PageBytes(pages[i]))];
    }
  }

  class Cell {
    const interval: u64
    const memory: MmapGuardedMemory
    const chain: CheckpointLog
    var lastCheckpointTick: u64
    ghost var state: CellState  // the value of this cell

    /** Everything a cell owns.  Its parts are held by constant references, so this never changes. */
    ghost const Repr: set<object>

    ghost predicate Valid()
      reads this, Repr
    {
      && this in Repr && memory in Repr && memory.region in Repr && memory.dirty in Repr
      && chain in Repr && chain.tree in Repr
      && memory.Valid() && chain.Valid()
      && state == CellState(memory.View(), chain.tree.leaves, chain.entries, lastCheckpointTick, interval)
    }

    constructor (config: CellConfig, mem: MmapGuardedMemory, h: HashFn)
      requires mem.Valid() && mem.View() == FreshMemory(config.initialBytes, config.quotaBytes)
      ensures Valid() && state == FreshCell(config) && chain.h == h
      ensures fresh(Repr - {mem, mem.region, mem.dirty})
    {
      interval := config.interval;
      memory := mem;
      var log := new CheckpointLog(h);
      chain := log;
      lastCheckpointTick := 0;
      state := FreshCell(config);
      Repr := {this, mem, mem.region, mem.dirty, log, log.tree};
    }

    /** The executor's quantum, as a script of guest operations. */
    method RunQuantum(ops: seq<GuestOp>)
      requires Valid()
      modifies Repr
      ensures Valid() && state == old(state).(mem := GuestRun(old(state).mem, ops))
    {
      memory.Run(ops);
      state := state.(mem := memory.View());
    }

    method SaveCheckpoint(tick: u64, registers: Digest)
      requires Valid() && MemoryOk(state.mem)
      modifies Repr
      ensures Valid() && state == TakeCheckpoint(chain.h, old(state), tick, registers)
    {
      var entry := chain.Checkpoint(tick, memory, registers);
      lastCheckpointTick := tick;
      state := TakeCheckpoint(chain.h, state, tick, registers);
    }

    /** The raw page deltas of everything dirty, in ascending page order. */
    method DirtyDeltas() returns (ds: seq<PageDelta>)
      requires Valid() && MemoryOk(state.mem)
      ensures ds == RawDeltas(state.mem, DirtyList(state.mem))
    {
      var pages := IterDirty(memory.dirty.bits, 0);
      IterIsDirtyList(memory.dirty.bits, memory.View());
      ds := DeltasOf(memory, pages);
    }

    method ClearDirtyPages()
      requires Valid()
      modifies Repr
      ensures Valid() && state == ClearDirty(old(state))
    {
      memory.dirty.ClearAll();
      state := ClearDirty(state);
    }
  }
}
