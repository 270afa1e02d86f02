/** The sparse Merkle tree over a cell's pages (chronos-mem/src/smt.rs).

    The reference semantics is the full binary tree: `Node(h, leaf, d, k)` is the digest of
    the subtree of depth `d` whose leaves are `k * 2^d .. (k + 1) * 2^d`.  The sparse
    level-by-level loop of the code is proved to compute it. */
module MerkleTree {
  import opened Bytes

  const TREE_DEPTH: nat := 32

  type LeafFn = nat -> Digest

  // ---------------------------------------------------------------- dense tree

  /** Two child digests, hashed as one message. */
  function HashPair(h: HashFn, left: seq<byte>, right: seq<byte>): Digest
  {
    h(left + right)
  }

  // `h` in the measures keeps the verifier from unfolding all 2^32 leaves of a literal depth.
  ghost function Node(h: HashFn, leaf: LeafFn, d: nat, k: nat): Digest
    decreases d, h
  {
    if d == 0 then leaf(k)
    else HashPair(h, Node(h, leaf, d - 1, 2 * k), Node(h, leaf, d - 1, 2 * k + 1))
  }

  /** Digest of a subtree of depth `d` all of whose pages are zero. */
  function Default(h: HashFn, d: nat): Digest
    decreases d, h
  {
    if d == 0 then h(ZeroPage()) else HashPair(h, Default(h, d - 1), Default(h, d - 1))
  }

  /** Leaf digests as a cache of touched leaves presents them. */
  function CachedLeaves(h: HashFn, leaves: map<nat, Digest>): LeafFn
  {
    (k: nat) => if k in leaves then leaves[k] else h(ZeroPage())
  }

  /** The dense root over a cache of touched leaves. */
  ghost function CacheRoot(h: HashFn, leaves: map<nat, Digest>): Digest
  {
    Node(h, CachedLeaves(h, leaves), TREE_DEPTH, 0)
  }

  /** Leaf digests computed directly from page contents. */
  function PageLeaves(h: HashFn, pages: nat -> Page): LeafFn
  {
    (k: nat) => h(pages(k))
  }

  /** The dense root over all 2^32 pages. */
  ghost function DenseRoot(h: HashFn, pages: nat -> Page): Digest
  {
    Node(h, PageLeaves(h, pages), TREE_DEPTH, 0)
  }

  /** A subtree digest depends only on the leaves beneath it. */
  lemma {:induction false} NodeCongruence(h: HashFn, f: LeafFn, g: LeafFn, d: nat, k: nat)
    requires forall i: nat :: k * Pow2(d) <= i < (k + 1) * Pow2(d) ==> f(i) == g(i)
    ensures Node(h, f, d, k) == Node(h, g, d, k)
    decreases d
  {
    if d == 0 {
      assert f(k) == g(k);
    } else {
      SplitRange(d, k);
      NodeCongruence(h, f, g, d - 1, 2 * k);
      NodeCongruence(h, f, g, d - 1, 2 * k + 1);
    }
  }

  lemma SplitRange(d: nat, k: nat)
    requires d > 0
    ensures k * Pow2(d) == (2 * k) * Pow2(d - 1)
    ensures (2 * k + 1) * Pow2(d - 1) == (2 * k) * Pow2(d - 1) + Pow2(d - 1)
    ensures (k + 1) * Pow2(d) == (2 * k + 2) * Pow2(d - 1)
    ensures k * Pow2(d) <= (2 * k + 1) * Pow2(d - 1) <= (k + 1) * Pow2(d)
  {
  }

  // ---------------------------------------------------------------- sparse levels

  function Parents(s: set<nat>): set<nat>
  {
    set k | k in s :: k / 2
  }

  /** Indices of the nodes `d` levels above the leaves `s`. */
  function Ancestors(s: set<nat>, d: nat): set<nat>
    decreases d, s
  {
    if d == 0 then s else Parents(Ancestors(s, d - 1))
  }

  function GetOr(level: map<nat, Digest>, k: nat, default: Digest): Digest
  {
    if k in level then level[k] else default
  }

  /** `level` holds the dense digests at height `d`; every absent node is an all-zero subtree. */
  ghost predicate LevelOk(h: HashFn, leaf: LeafFn, level: map<nat, Digest>, d: nat)
  {
    forall k: nat :: Node(h, leaf, d, k) == GetOr(level, k, Default(h, d))
  }

  ghost predicate IsParentLevel(h: HashFn, level: map<nat, Digest>, default: Digest, next: map<nat, Digest>)
  {
    && next.Keys == Parents(level.Keys)
    && forall k | k in next ::
      var left: seq<byte>, right: seq<byte> := GetOr(level, 2 * k, default), GetOr(level, 2 * k + 1, default);
      next[k] == h(left + right)
  }

  lemma LevelStep(h: HashFn, leaf: LeafFn, level: map<nat, Digest>, next: map<nat, Digest>, d: nat)
    requires LevelOk(h, leaf, level, d)
    requires IsParentLevel(h, level, Default(h, d), next)
    ensures LevelOk(h, leaf, next, d + 1)
  {
    var e := d + 1;
    forall k: nat
      ensures Node(h, leaf, e, k) == GetOr(next, k, Default(h, e))
    {
      assert Node(h, leaf, d, 2 * k) == GetOr(level, 2 * k, Default(h, d));
      assert Node(h, leaf, d, 2 * k + 1) == GetOr(level, 2 * k + 1, Default(h, d));
      if k !in next {
        assert (2 * k) / 2 == k && (2 * k + 1) / 2 == k;
        assert 2 * k !in level && 2 * k + 1 !in level;
      }
    }
  }

  lemma {:induction false} AncestorsExist(s: set<nat>, d: nat)
    requires s != {}
    ensures Ancestors(s, d) != {}
  {
    if d > 0 {
      AncestorsExist(s, d - 1);
      var k :| k in Ancestors(s, d - 1);
      assert k / 2 in Ancestors(s, d);
    }
  }

  lemma {:induction false} AncestorsBelow(s: set<nat>, d: nat, e: nat)
    requires forall k | k in s :: k < Pow2(d + e)
    ensures forall k | k in Ancestors(s, d) :: k < Pow2(e)
    decreases d
  {
    if d > 0 {
      AncestorsBelow(s, d - 1, e + 1);
    }
  }

  lemma {:induction false} AncestorsAbove(s: set<nat>, d: nat, e: nat, i: nat)
    requires i in s && i >= Pow2(d + e)
    ensures exists k :: k in Ancestors(s, d) && k >= Pow2(e)
    decreases d
  {
    if d == 0 {
      assert i in Ancestors(s, d);
    } else {
      AncestorsAbove(s, d - 1, e + 1, i);
      var k :| k in Ancestors(s, d - 1) && k >= Pow2(e + 1);
      assert k / 2 in Ancestors(s, d) && k / 2 >= Pow2(e);
    }
  }

  /** The walk ends in exactly one node, number 0, precisely when every index is below 2^32.
      Otherwise the code picks among several top nodes in hash-map order. */
  lemma SingleTopNode(s: set<nat>)
    requires s != {}
    ensures Ancestors(s, TREE_DEPTH) == {0} <==> forall k | k in s :: k < U32_LIMIT
  {
    Pow2Limits();
    if forall k | k in s :: k < U32_LIMIT {
      AncestorsBelow(s, TREE_DEPTH, 0);
      AncestorsExist(s, TREE_DEPTH);
      var k :| k in Ancestors(s, TREE_DEPTH);
      assert k == 0;
    } else {
      var i :| i in s && i >= U32_LIMIT;
      AncestorsAbove(s, TREE_DEPTH, 0, i);
    }
  }

  // ---------------------------------------------------------------- the code

  /** smt.rs `default_hashes`. */
  method DefaultHashes(h: HashFn) returns (hashes: seq<Digest>)
    ensures |hashes| == TREE_DEPTH + 1
    ensures forall d :: 0 <= d <= TREE_DEPTH ==> hashes[d] == Default(h, d)
    ensures hashes[0] == h(seq(PAGE_SIZE, _ => 0))
  {
    var a := new Digest[TREE_DEPTH + 1](_ => h([]));
    a[0] := h(ZeroPage());
    for d := 1 to TREE_DEPTH + 1
      invariant forall e {:trigger a[e]} :: 0 <= e < d ==> a[e] == Default(h, e)
    {
      var prev := a[d - 1];
      assert Default(h, d) == HashPair(h, prev, prev);
      a[d] := HashPair(h, prev, prev);
    }
    hashes := a[..];
  }

  class SparseMerkleTree {
    const h: HashFn
    const defaults: seq<Digest>
    var leaves: map<nat, Digest>

    ghost predicate Valid()
    {
      && |defaults| == TREE_DEPTH + 1
      && forall d :: 0 <= d <= TREE_DEPTH ==> defaults[d] == Default(h, d)
    }

    constructor (h: HashFn)
      ensures Valid() && this.h == h && leaves == map[]
    {
      this.h := h;
      var d := DefaultHashes(h);
      defaults := d;
      leaves := map[];
    }

    method UpdateLeaf(page: nat, bytes: seq<byte>)
      modifies this
      ensures leaves == old(leaves)[page := h(bytes)]
    {
      leaves := leaves[page := h(bytes)];
    }

    /** One round of the outer loop of `root`: iteration order over the hash map is arbitrary. */
    method ParentLevel(level: map<nat, Digest>, depth: nat) returns (next: map<nat, Digest>)
      requires Valid() && depth < TREE_DEPTH
      ensures IsParentLevel(h, level, Default(h, depth), next)
    {
      next := map[];
      var default := defaults[depth];
      var remaining := level.Keys;
      while remaining != {}
        invariant remaining <= level.Keys
        invariant forall k | k in level.Keys - remaining :: k / 2 in next
        invariant next.Keys <= Parents(level.Keys)
        invariant forall k | k in next ::
          next[k] == HashPair(h, GetOr(level, 2 * k, default), GetOr(level, 2 * k + 1, default))
        decreases |remaining|
      {
        var idx :| idx in remaining;
        remaining := remaining - {idx};
        var parent := idx / 2;
        if parent in next {
          continue;
        }
        var left := GetOr(level, 2 * parent, default);
        var right := GetOr(level, 2 * parent + 1, default);
        next := next[parent := HashPair(h, left, right)];
      }
    }

    /** The loop of `root`, for a tree of any depth up to 32. */
    method WalkUp(depth: nat) returns (level: map<nat, Digest>)
      requires Valid() && depth <= TREE_DEPTH
      ensures LevelOk(h, CachedLeaves(h, leaves), level, depth)
      ensures level.Keys == Ancestors(leaves.Keys, depth)
    {
      level := leaves;
      for d := 0 to depth
        invariant LevelOk(h, CachedLeaves(h, leaves), level, d)
        invariant level.Keys == Ancestors(leaves.Keys, d)
      {
        var next := ParentLevel(level, d);
        LevelStep(h, CachedLeaves(h, leaves), level, next, d);
        level := next;
      }
    }

    /** The root.  Whatever the iteration order, the result is the dense digest of one of the
        top nodes above a touched leaf; when all indices are below 2^32 that is the root. */
    method Root() returns (r: Digest)
      requires Valid()
      ensures leaves == map[] ==> r == CacheRoot(h, leaves)
      ensures leaves != map[] ==>
        exists k :: k in Ancestors(leaves.Keys, TREE_DEPTH) && r == Node(h, CachedLeaves(h, leaves), TREE_DEPTH, k)
      ensures (forall k | k in leaves :: k < U32_LIMIT) ==> r == CacheRoot(h, leaves)
    {
      if leaves == map[] {
        EmptyTreeIsDefault(h, CachedLeaves(h, leaves), TREE_DEPTH, 0);
        return defaults[TREE_DEPTH];
      }
      var level := WalkUp(TREE_DEPTH);
      AncestorsExist(leaves.Keys, TREE_DEPTH);
      var k :| k in level.Keys;
      r := level[k];
      if forall i | i in leaves :: i < U32_LIMIT {
        SingleTopNode(leaves.Keys);
      }
    }
  }

  lemma {:induction false} EmptyTreeIsDefault(h: HashFn, leaf: LeafFn, d: nat, k: nat)
    requires forall i: nat :: leaf(i) == h(ZeroPage())
    ensures Node(h, leaf, d, k) == Default(h, d)
    decreases d
  {
    if d > 0 {
      EmptyTreeIsDefault(h, leaf, d - 1, 2 * k);
      EmptyTreeIsDefault(h, leaf, d - 1, 2 * k + 1);
    }
  }

  // ---------------------------------------------------------------- meaning of the root

  /** If the cache agrees with the pages, the root is the dense root of the pages:
      it says nothing about which zero pages happen to have been touched. */
  lemma CacheRootIsDenseRoot(h: HashFn, leaves: map<nat, Digest>, pages: nat -> Page)
    requires forall k: nat :: k < U32_LIMIT ==> CachedLeaves(h, leaves)(k) == h(pages(k))
    ensures CacheRoot(h, leaves) == DenseRoot(h, pages)
  {
    Pow2Limits();
    NodeCongruence(h, CachedLeaves(h, leaves), PageLeaves(h, pages), TREE_DEPTH, 0);
  }

  /** Binding, constructively: walk down two trees with equal digests towards a page on which
      they differ, and come back with two messages the hash confuses. */
  lemma {:induction false} FindCollision(h: HashFn, a: nat -> Page, b: nat -> Page, d: nat, k: nat, i: nat)
    returns (x: seq<byte>, y: seq<byte>)
    requires k * Pow2(d) <= i < (k + 1) * Pow2(d) && a(i) != b(i)
    requires Node(h, PageLeaves(h, a), d, k) == Node(h, PageLeaves(h, b), d, k)
    ensures Collision(h, x, y)
    decreases d
  {
    if d == 0 {
      return a(i), b(i);
    }
    var f, g := PageLeaves(h, a), PageLeaves(h, b);
    var l: seq<byte>, r: seq<byte> := Node(h, f, d - 1, 2 * k), Node(h, f, d - 1, 2 * k + 1);
    var l': seq<byte>, r': seq<byte> := Node(h, g, d - 1, 2 * k), Node(h, g, d - 1, 2 * k + 1);
    if l + r != l' + r' {
      return l + r, l' + r';
    }
    ConcatInjective(l, r, l', r');
    SplitRange(d, k);
    if i < (2 * k + 1) * Pow2(d - 1) {
      x, y := FindCollision(h, a, b, d - 1, 2 * k, i);
    } else {
      x, y := FindCollision(h, a, b, d - 1, 2 * k + 1, i);
    }
  }

  /** Equal roots of memories that differ on some page below 2^32 exhibit a hash collision. */
  lemma RootBinding(h: HashFn, a: nat -> Page, b: nat -> Page, i: nat) returns (x: seq<byte>, y: seq<byte>)
    requires i < U32_LIMIT && a(i) != b(i) && DenseRoot(h, a) == DenseRoot(h, b)
    ensures Collision(h, x, y)
  {
    Pow2Limits();
    x, y := FindCollision(h, a, b, TREE_DEPTH, 0, i);
  }

  // ---------------------------------------------------------------- authentication paths

  /** The digest above node `i` recomputed from its own digest and the siblings met on the way up: the
      node goes left of its sibling when its index is even, right of it when odd. */
  function Climb(h: HashFn, digest: Digest, i: nat, siblings: seq<Digest>): Digest
    decreases |siblings|
  {
    if siblings == [] then digest
    else
      var own: seq<byte>, other: seq<byte> := digest, siblings[0];
      Climb(h, if i % 2 == 0 then h(own + other) else h(other + own), i / 2, siblings[1..])
  }

  /** The siblings on the way up `d` levels from node `i` at height `e`. */
  ghost function Siblings(h: HashFn, leaf: LeafFn, e: nat, i: nat, d: nat): (s: seq<Digest>)
    ensures |s| == d
    decreases d, h
  {
    if d == 0 then []
    else [Node(h, leaf, e, if i % 2 == 0 then i + 1 else i - 1)] + Siblings(h, leaf, e + 1, i / 2, d - 1)
  }

  /** Index of the node `d` levels above node `i`. */
  function Above(i: nat, d: nat): nat
  {
    if d == 0 then i else Above(i / 2, d - 1)
  }

  lemma {:induction false} AboveIsQuotient(i: nat, d: nat)
    ensures Above(i, d) == i / Pow2(d)
    decreases d
  {
    if d > 0 {
      AboveIsQuotient(i / 2, d - 1);
      DivDiv(i, 2, Pow2(d - 1));
    }
  }

  /** A parent is the hash of its children, the even one first. */
  lemma ParentOf(h: HashFn, leaf: LeafFn, e: nat, i: nat)
    ensures var own: seq<byte> := Node(h, leaf, e, i);
      var other: seq<byte> := Node(h, leaf, e, if i % 2 == 0 then i + 1 else i - 1);
      Node(h, leaf, e + 1, i / 2) == if i % 2 == 0 then h(own + other) else h(other + own)
  {
  }

  lemma PathExtends(h: HashFn, digest: Digest, sibling: Digest, parent: Digest, i: nat, rest: seq<Digest>)
    requires var own: seq<byte>, other: seq<byte> := digest, sibling;
      parent == if i % 2 == 0 then h(own + other) else h(other + own)
    ensures Climb(h, digest, i, [sibling] + rest) == Climb(h, parent, i / 2, rest)
  {
    assert ([sibling] + rest)[1..] == rest;
  }

  /** Every node is reached from every node below it by its authentication path. */
  lemma {:induction false} PathLeadsUp(h: HashFn, leaf: LeafFn, e: nat, i: nat, d: nat)
    ensures Climb(h, Node(h, leaf, e, i), i, Siblings(h, leaf, e, i, d)) == Node(h, leaf, e + d, Above(i, d))
    decreases d
  {
    if d > 0 {
      ParentOf(h, leaf, e, i);
      PathLeadsUp(h, leaf, e + 1, i / 2, d - 1);
      var sibling := Node(h, leaf, e, if i % 2 == 0 then i + 1 else i - 1);
      PathExtends(h, Node(h, leaf, e, i), sibling, Node(h, leaf, e + 1, i / 2), i, Siblings(h, leaf, e + 1, i / 2, d - 1));
    }
  }

  /** A path that leads from another digest to the true node exhibits a collision. */
  lemma {:induction false} PathBinding(h: HashFn, leaf: LeafFn, e: nat, i: nat, digest: Digest, siblings: seq<Digest>)
    returns (x: seq<byte>, y: seq<byte>)
    requires digest != Node(h, leaf, e, i)
    requires Climb(h, digest, i, siblings) == Node(h, leaf, e + |siblings|, Above(i, |siblings|))
    ensures Collision(h, x, y)
    decreases |siblings|
  {
    var own: seq<byte>, other: seq<byte> := digest, siblings[0];
    var own': seq<byte> := Node(h, leaf, e, i);
    var other': seq<byte> := Node(h, leaf, e, if i % 2 == 0 then i + 1 else i - 1);
    x, y := if i % 2 == 0 then own + other else other + own, if i % 2 == 0 then own' + other' else other' + own';
    if x == y {
      if i % 2 == 0 {
        ConcatInjective(own, other, own', other');
      } else {
        ConcatInjective(other, own, other', own');
      }
    }
    ParentOf(h, leaf, e, i);
    if h(x) != h(y) {
      x, y := PathBinding(h, leaf, e + 1, i / 2, h(x), siblings[1..]);
    }
  }

  lemma TopIndex(i: nat)
    requires i < U32_LIMIT
    ensures Above(i, TREE_DEPTH) == 0
  {
    Pow2Limits();
    AboveIsQuotient(i, TREE_DEPTH);
  }

  /** The root is reached from every page by its path of 32 siblings, and by no path of that length from
      other content, short of a collision. */
  lemma RootPath(h: HashFn, pages: nat -> Page, i: nat)
    requires i < U32_LIMIT
    ensures Climb(h, h(pages(i)), i, Siblings(h, PageLeaves(h, pages), 0, i, TREE_DEPTH)) == DenseRoot(h, pages)
  {
    PathLeadsUp(h, PageLeaves(h, pages), 0, i, TREE_DEPTH);
    TopIndex(i);
  }

  lemma RootPathBinding(h: HashFn, pages: nat -> Page, i: nat, content: Page, siblings: seq<Digest>)
    returns (x: seq<byte>, y: seq<byte>)
    requires i < U32_LIMIT && content != pages(i) && |siblings| == TREE_DEPTH
    requires Climb(h, h(content), i, siblings) == DenseRoot(h, pages)
    ensures Collision(h, x, y)
  {
    TopIndex(i);
    if h(content) == h(pages(i)) {
      return content, pages(i);
    }
    x, y := PathBinding(h, PageLeaves(h, pages), 0, i, h(content), siblings);
  }
}
