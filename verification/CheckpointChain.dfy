/** The tamper-evident chain of checkpoints (chronos-mem/src/smt.rs, `CheckpointChain`). */
module CheckpointChain {
  import opened Bytes
  import opened DirtyPages
  import opened GuestMemory
  import opened MerkleTree

  datatype Claim = Claim(tick: u64, smtRoot: Digest, registers: Digest)

  datatype Entry = Entry(claim: Claim, chainHash: Digest)

  datatype ChainVerifyError = Empty

  /** The 19 bytes of the genesis label. */
  function GenesisLabel(): (s: seq<byte>)
    ensures |s| == 19
  {
    // "chronos-uvm-genesis" in ASCII
    [99, 104, 114, 111, 110, 111, 115, 45, 117, 118, 109, 45, 103, 101, 110, 101, 115, 105, 115]
  }

  lemma GenesisLabelText(i: nat)
    requires i < 19
    ensures |"chronos-uvm-genesis"| == 19 && GenesisLabel()[i] as int == "chronos-uvm-genesis"[i] as int
  {
  }

  /** The message hashed to extend a chain. */
  function LinkMessage(prev: Digest, c: Claim): (s: seq<byte>)
    ensures |s| == 104
  {
    var p: seq<byte>, r: seq<byte>, g: seq<byte> := prev, c.smtRoot, c.registers;
    p + (r + (g + LE64(c.tick)))
  }

  /** The message is the previous hash, the root, the register digest and the tick, little-endian. */
  lemma LinkMessageParts(prev: Digest, c: Claim)
    ensures var s := LinkMessage(prev, c);
      && s[..32] == prev && s[32..64] == c.smtRoot && s[64..96] == c.registers
      && forall i :: 0 <= i < 8 ==> s[96 + i] as nat == c.tick / Pow2(8 * i) % 256
  {
    var s := LinkMessage(prev, c);
    var p: seq<byte>, r: seq<byte>, g: seq<byte> := prev, c.smtRoot, c.registers;
    assert s[32..64] == (r + (g + LE64(c.tick)))[..32];
    assert s[64..96] == (g + LE64(c.tick))[..32];
    forall i | 0 <= i < 8
      ensures s[96 + i] as nat == c.tick / Pow2(8 * i) % 256
    {
      assert s[96 + i] == LE64(c.tick)[i];
      LE64Byte(c.tick, i);
    }
  }

  /** The hash a chain of claims ends in. */
  function ChainHash(h: HashFn, claims: seq<Claim>): Digest
    decreases |claims|
  {
    if claims == [] then h(GenesisLabel())
    else
      var last := |claims| - 1;
      h(LinkMessage(ChainHash(h, claims[..last]), claims[last]))
  }

  /** The chain starts from the label; one more claim hashes the chain so far, the root, the register
      digest and the tick, in that order. */
  lemma ChainHashGrows(h: HashFn, claims: seq<Claim>, c: Claim)
    ensures ChainHash(h, []) == h(GenesisLabel())
    ensures var prev: seq<byte>, root: seq<byte>, registers: seq<byte> := ChainHash(h, claims), c.smtRoot, c.registers;
      ChainHash(h, claims + [c]) == h(prev + root + registers + LE64(c.tick))
  {
    var prev: seq<byte>, root: seq<byte>, registers: seq<byte> := ChainHash(h, claims), c.smtRoot, c.registers;
    assert (claims + [c])[..|claims|] == claims;
    assert prev + root + registers + LE64(c.tick) == prev + (root + (registers + LE64(c.tick)));
  }

  function Claims(entries: seq<Entry>): (s: seq<Claim>)
    ensures |s| == |entries|
  {
    seq(|entries|, i requires 0 <= i < |entries| => entries[i].claim)
  }

  function LatestHash(h: HashFn, entries: seq<Entry>): Digest
  {
    if entries == [] then h(GenesisLabel()) else entries[|entries| - 1].chainHash
  }

  /** Each entry's hash extends its predecessor's. */
  ghost predicate Linked(h: HashFn, entries: seq<Entry>)
  {
    forall i :: 0 <= i < |entries| ==> LinkedAt(h, entries, i)
  }

  ghost predicate LinkedAt(h: HashFn, entries: seq<Entry>, i: nat)
    requires i < |entries|
  {
    entries[i].chainHash == h(LinkMessage(LatestHash(h, entries[..i]), entries[i].claim))
  }

  /** A linked chain replays to its latest hash. */
  lemma {:induction false} ReplayAgrees(h: HashFn, entries: seq<Entry>)
    requires Linked(h, entries)
    ensures ChainHash(h, Claims(entries)) == LatestHash(h, entries)
    decreases |entries|
  {
    if entries != [] {
      var last := |entries| - 1;
      var front := entries[..last];
      forall i | 0 <= i < last
        ensures LinkedAt(h, front, i)
      {
        assert LinkedAt(h, entries, i) && front[..i] == entries[..i];
      }
      ReplayAgrees(h, front);
      assert LinkedAt(h, entries, last);
      assert Claims(entries)[..last] == Claims(front);
    }
  }

  lemma LinkMessageInjective(p: Digest, c: Claim, q: Digest, d: Claim)
    requires LinkMessage(p, c) == LinkMessage(q, d)
    ensures p == q && c == d
  {
    var r: seq<byte>, g: seq<byte> := c.smtRoot, c.registers;
    var r': seq<byte>, g': seq<byte> := d.smtRoot, d.registers;
    ConcatInjective(p, r + (g + LE64(c.tick)), q, r' + (g' + LE64(d.tick)));
    ConcatInjective(r, g + LE64(c.tick), r', g' + LE64(d.tick));
    ConcatInjective(g, LE64(c.tick), g', LE64(d.tick));
    LE64Injective(c.tick, d.tick);
  }

  /** Tamper evidence: two different claim sequences, of whatever lengths, with the same final
      hash yield two messages the hash confuses. */
  lemma {:induction false} TamperEvidence(h: HashFn, a: seq<Claim>, b: seq<Claim>)
    returns (x: seq<byte>, y: seq<byte>)
    requires a != b && ChainHash(h, a) == ChainHash(h, b)
    ensures Collision(h, x, y)
    decreases |a| + |b|
  {
    var m, n := |a| - 1, |b| - 1;
    if a == [] {
      return GenesisLabel(), LinkMessage(ChainHash(h, b[..n]), b[n]);
    }
    if b == [] {
      return LinkMessage(ChainHash(h, a[..m]), a[m]), GenesisLabel();
    }
    x, y := LinkMessage(ChainHash(h, a[..m]), a[m]), LinkMessage(ChainHash(h, b[..n]), b[n]);
    if x == y {
      LinkMessageInjective(ChainHash(h, a[..m]), a[m], ChainHash(h, b[..n]), b[n]);
      assert a == a[..m] + [a[m]] && b == b[..n] + [b[n]];
      x, y := TamperEvidence(h, a[..m], b[..n]);
    }
  }

  /** smt.rs `verify_chain`.  It never reports `Empty`: no claims replay to the genesis hash. */
  method VerifyChain(h: HashFn, claims: seq<Claim>) returns (r: Result<Digest, ChainVerifyError>)
    ensures r == Ok(ChainHash(h, claims))
  {
    var chainHash := h(GenesisLabel());
    for i := 0 to |claims|
      invariant chainHash == ChainHash(h, claims[..i])
    {
      assert claims[..i + 1][..i] == claims[..i];
      chainHash := h(LinkMessage(chainHash, claims[i]));
    }
    assert claims[..|claims|] == claims;
    r := Ok(chainHash);
  }

  // ---------------------------------------------------------------- taking a checkpoint

  /** The leaf cache after rehashing the dirty pages. */
  function Rehash(h: HashFn, leaves: map<nat, Digest>, m: Memory, pages: set<nat>): map<nat, Digest>
  {
    leaves + map p | p in pages :: h(PageAt(m.bytes, p))
  }

  /** Exactly the given pages get a leaf, the digest of their current bytes; the others keep theirs. */
  lemma RehashIs(h: HashFn, leaves: map<nat, Digest>, m: Memory, pages: set<nat>)
    ensures Rehash(h, leaves, m, pages).Keys == leaves.Keys + pages
    ensures forall p | p in leaves.Keys + pages ::
      Rehash(h, leaves, m, pages)[p] == if p in pages then h(PageAt(m.bytes, p)) else leaves[p]
  {
  }

  lemma RehashOne(h: HashFn, leaves: map<nat, Digest>, m: Memory, pages: set<nat>, p: nat)
    ensures Rehash(h, leaves, m, pages)[p := h(PageAt(m.bytes, p))] == Rehash(h, leaves, m, pages + {p})
  {
  }

  lemma RehashBelow(h: HashFn, leaves: map<nat, Digest>, m: Memory)
    requires forall k | k in leaves :: k < U32_LIMIT
    requires forall p | p in m.dirty :: Whole(p, m.size)
    ensures forall k | k in Rehash(h, leaves, m, m.dirty) :: k < U32_LIMIT
  {
  }

  ghost function NewEntry(h: HashFn, leaves: map<nat, Digest>, entries: seq<Entry>, tick: u64, registers: Digest): Entry
  {
    var claim := Claim(tick, CacheRoot(h, leaves), registers);
    Entry(claim, h(LinkMessage(LatestHash(h, entries), claim)))
  }

  lemma LinkedExtend(h: HashFn, entries: seq<Entry>, claim: Claim)
    requires Linked(h, entries)
    ensures Linked(h, entries + [Entry(claim, h(LinkMessage(LatestHash(h, entries), claim)))])
  {
    var longer := entries + [Entry(claim, h(LinkMessage(LatestHash(h, entries), claim)))];
    forall i | 0 <= i < |longer|
      ensures LinkedAt(h, longer, i)
    {
      assert longer[..i] == entries[..i];
      if i < |entries| {
        assert LinkedAt(h, entries, i);
      } else {
        assert entries[..|entries|] == entries;
      }
    }
  }

  class CheckpointLog {
    const h: HashFn
    const tree: SparseMerkleTree
    var entries: seq<Entry>

    ghost predicate Valid()
      reads this, tree
    {
      && tree.h == h && tree.Valid()
      && (forall k | k in tree.leaves :: k < U32_LIMIT)
      && Linked(h, entries)
    }

    constructor (h: HashFn)
      ensures Valid() && fresh(tree) && this.h == h && entries == [] && tree.leaves == map[]
    {
      this.h := h;
      tree := new SparseMerkleTree(h);
      entries := [];
    }

    /** Rehash exactly the pages `iter_dirty` yields. */
    method RehashDirty(mem: MmapGuardedMemory)
      requires mem.Valid() && tree.h == h
      requires forall p | p in mem.View().dirty :: Whole(p, mem.size)
      modifies tree
      ensures tree.leaves == Rehash(h, old(tree.leaves), mem.View(), mem.View().dirty)
    {
      var pages := IterDirty(mem.dirty.bits, 0);
      ghost var m := mem.View();
      ghost var done: set<nat> := {};
      for i := 0 to |pages|
        invariant done == set p | p in pages[..i]
        invariant tree.leaves == Rehash(h, old(tree.leaves), m, done)
        invariant mem.View() == m && mem.Valid()
      {
        assert pages[i] in pages;
        RehashOne(h, old(tree.leaves), m, done, pages[i]);
        tree.UpdateLeaf(pages[i], mem.PageBytes(pages[i]));
        done := done + {pages[i]};
      }
      assert done == m.dirty;
    }

    method Checkpoint(tick: u64, mem: MmapGuardedMemory, registers: Digest) returns (entry: Entry)
      requires Valid() && mem.Valid()
      requires forall p | p in mem.View().dirty :: Whole(p, mem.size)
      modifies this, tree
      ensures Valid()
      ensures tree.leaves == Rehash(h, old(tree.leaves), mem.View(), mem.View().dirty)
      ensures entry == NewEntry(h, tree.leaves, old(entries), tick, registers)
      ensures entries == old(entries) + [entry]
      ensures entry.claim == Claim(tick, CacheRoot(h, tree.leaves), registers)
    {
      RehashDirty(mem);
      RehashBelow(h, old(tree.leaves), mem.View());
      var root := tree.Root();
      var claim := Claim(tick, root, registers);
      var prev := if entries == [] then h(GenesisLabel()) else entries[|entries| - 1].chainHash;
      entry := Entry(claim, h(LinkMessage(prev, claim)));
      LinkedExtend(h, entries, claim);
      entries := entries + [entry];
    }

    /** Replaying the log's own claims reproduces the latest hash. */
    method Audit() returns (r: Digest)
      requires Valid()
      ensures r == LatestHash(h, entries)
    {
      var claims := seq(|entries|, i requires 0 <= i < |entries| reads this => entries[i].claim);
      var v := VerifyChain(h, claims);
      ReplayAgrees(h, entries);
      assert claims == Claims(entries);
      r := v.value;
    }
  }
}
