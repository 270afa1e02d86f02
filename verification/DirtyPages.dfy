/** The dirty-page bitmap (chronos-mem/src/dirty.rs): a vector of 64-bit words with a cached
    population count, proved to represent a set of page indices. */
module DirtyPages {
  import opened Bytes

  /** A machine word, as the number its bits denote. */
  type Word = u64

  /** `word & (1 << bit) != 0`. */
  predicate HasBit(word: nat, bit: nat)
  {
    if bit == 0 then word % 2 == 1 else HasBit(word / 2, bit - 1)
  }

  /** `word | (1 << bit)`. */
  function WithBit(word: nat, bit: nat): nat
  {
    if HasBit(word, bit) then word else word + Pow2(bit)
  }

  lemma {:induction false} SetBit(word: nat, a: nat, b: nat)
    ensures HasBit(WithBit(word, a), b) <==> a == b || HasBit(word, b)
  {
    if a > 0 {
      assert WithBit(word, a) / 2 == WithBit(word / 2, a - 1);
      assert WithBit(word, a) % 2 == word % 2;
      if b > 0 {
        SetBit(word / 2, a - 1, b - 1);
      }
    } else {
      assert WithBit(word, 0) / 2 == word / 2;
    }
  }

  lemma {:induction false} WithBitFits(word: nat, bit: nat, width: nat)
    requires word < Pow2(width) && bit < width
    ensures WithBit(word, bit) < Pow2(width)
  {
    assert Pow2(width) == 2 * Pow2(width - 1);
    if bit > 0 {
      WithBitFits(word / 2, bit - 1, width - 1);
      assert WithBit(word, bit) / 2 == WithBit(word / 2, bit - 1);
    }
  }

  lemma {:induction false} ZeroHasNoBits(bit: nat)
    ensures !HasBit(0, bit)
  {
    if bit > 0 {
      ZeroHasNoBits(bit - 1);
    }
  }

  lemma ZeroWordsMarkNothing(bits: seq<Word>)
    requires forall w :: 0 <= w < |bits| ==> bits[w] == 0
    ensures MarkedSet(bits) == {}
  {
    forall p: nat
      ensures !Marked(bits, p)
    {
      ZeroHasNoBits(p % 64);
    }
  }

  predicate Marked(bits: seq<Word>, p: nat)
  {
    p / 64 < |bits| && HasBit(bits[p / 64], p % 64)
  }

  /** The set a bitmap stands for. */
  function MarkedSet(bits: seq<Word>): (s: set<nat>)
    ensures forall p :: p in s <==> Marked(bits, p)
  {
    set p: nat | p < 64 * |bits| && Marked(bits, p)
  }

  predicate Ascending(s: seq<nat>)
  {
    forall i, j :: 0 <= i < j < |s| ==> s[i] < s[j]
  }

  lemma AscendingConcat(a: seq<nat>, b: seq<nat>, pivot: nat)
    requires Ascending(a) && Ascending(b)
    requires (forall p | p in a :: p < pivot) && (forall p | p in b :: pivot <= p)
    ensures Ascending(a + b)
  {
    forall i, j | 0 <= i < j < |a + b|
      ensures (a + b)[i] < (a + b)[j]
    {
      if i < |a| <= j {
        assert a[i] in a && b[j - |a|] in b;
      }
    }
  }

  /** Marked bits `from..64` of a word, as page indices starting at `base`. */
  function WordPages(word: Word, base: nat, from: nat): (s: seq<nat>)
    requires from <= 64
    ensures Ascending(s)
    ensures forall p :: p in s <==> base + from <= p < base + 64 && HasBit(word, p - base)
    decreases 64 - from
  {
    if from == 64 then []
    else
      var rest := WordPages(word, base, from + 1);
      if HasBit(word, from) then AscendingConcat([base + from], rest, base + from + 1); [base + from] + rest else rest
  }

  /** dirty.rs `iter_dirty`, from word `from` on. */
  function IterDirty(bits: seq<Word>, from: nat): (s: seq<nat>)
    requires from <= |bits|
    ensures Ascending(s)
    ensures forall p :: p in s <==> 64 * from <= p && Marked(bits, p)
    decreases |bits| - from
  {
    if from == |bits| then []
    else
      var here, rest := WordPages(bits[from], 64 * from, 0), IterDirty(bits, from + 1);
      AscendingConcat(here, rest, 64 * (from + 1));
      here + rest
  }

  /** An ascending list is determined by its members, so `iter_dirty` depends on the set alone. */
  lemma {:induction false} AscendingUnique(a: seq<nat>, b: seq<nat>)
    requires Ascending(a) && Ascending(b) && forall p :: p in a <==> p in b
    ensures a == b
    decreases |a|
  {
    if a != [] {
      assert a[0] in b;
    }
    if b != [] {
      assert b[0] in a;
      assert a[0] == b[0];
      forall p
        ensures p in a[1..] <==> p in b[1..]
      {
        assert p in a <==> p == a[0] || p in a[1..];
        assert p in b <==> p == b[0] || p in b[1..];
        assert a[0] !in a[1..] && b[0] !in b[1..];
      }
      AscendingUnique(a[1..], b[1..]);
    }
  }

  class DirtyPageSet {
    var bits: seq<Word>
    const capacity: nat
    var count: nat

    ghost predicate Valid()
      reads this
    {
      && capacity <= 64 * |bits|
      && count == |MarkedSet(bits)|
    }

    ghost function View(): set<nat>
      reads this
    {
      MarkedSet(bits)
    }

    constructor (capacityPages: nat)
      ensures Valid() && View() == {} && capacity == capacityPages
      ensures |bits| >= 1 && 64 * |bits| < (if capacityPages == 0 then 1 else capacityPages) + 64
    {
      var words := (capacityPages + 63) / 64;
      capacity := capacityPages;
      bits := seq(if words > 1 then words else 1, _ => 0);
      count := 0;
      new;
      ZeroWordsMarkNothing(bits);
    }

    /** Indexing past the last word is the only access the code cannot survive. */
    method Mark(page: nat)
      requires Valid() && page < 64 * |bits|
      modifies this
      ensures Valid() && View() == old(View()) + {page} && |bits| == old(|bits|)
    {
      var word, bit := page / 64, page % 64;
      if !HasBit(bits[word], bit) {
        ghost var before := bits;
        Pow2Limits();
        WithBitFits(bits[word], bit, 64);
        bits := bits[word := WithBit(bits[word], bit)];
        forall p: nat
          ensures Marked(bits, p) <==> p == page || Marked(before, p)
        {
          SetBit(before[word], bit, p % 64);
        }
        assert MarkedSet(bits) == MarkedSet(before) + {page};
        count := count + 1;
      } else {
        assert View() == View() + {page};
      }
    }

    predicate IsDirty(page: nat)
      reads this
      ensures IsDirty(page) <==> page in View()
    {
      page / 64 < |bits| && HasBit(bits[page / 64], page % 64)
    }

    method Len() returns (n: nat)
      requires Valid()
      ensures n == |View()|
    {
      n := count;
    }

    method IsEmpty() returns (b: bool)
      requires Valid()
      ensures b <==> View() == {}
    {
      b := count == 0;
    }

    method ClearAll()
      requires Valid()
      modifies this
      ensures Valid() && View() == {} && |bits| == old(|bits|)
    {
      for w := 0 to |bits|
        invariant |bits| == old(|bits|)
        invariant forall v :: 0 <= v < w ==> bits[v] == 0
      {
        bits := bits[w := 0];
      }
      count := 0;
      ZeroWordsMarkNothing(bits);
    }
  }
}
