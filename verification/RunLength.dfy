/** Zero-run-length coding of XOR buffers (chronos-mem/src/delta.rs, `rle_encode`, `rle_decode`). */
module RunLength {
  import opened Bytes

  datatype Run = Run(zeroRun: nat, literal: seq<byte>)

  // ---------------------------------------------------------------- reference meaning

  /** The bytes a run list denotes. */
  function Expand(runs: seq<Run>): seq<byte>
  {
    if runs == [] then [] else Zeros(runs[0].zeroRun) + runs[0].literal + Expand(runs[1..])
  }

  /** Cut to a page, or pad it with zeros. */
  function FitPage(s: seq<byte>): Page
  {
    if |s| >= PAGE_SIZE then s[..PAGE_SIZE] else s + Zeros(PAGE_SIZE - |s|)
  }

  predicate NonZero(s: seq<byte>)
  {
    forall i :: 0 <= i < |s| ==> s[i] != 0
  }

  /** The encoder's normal form: literals hold no zero, only the first zero run and only the
      last literal may be empty, and no record is empty. */
  predicate Canonical(runs: seq<Run>)
  {
    forall i :: 0 <= i < |runs| ==> CanonicalRun(runs[i], i == 0, i == |runs| - 1)
  }

  predicate CanonicalRun(r: Run, first: bool, last: bool)
  {
    && NonZero(r.literal)
    && (r.zeroRun > 0 || (first && r.literal != []))
    && (r.literal != [] || last)
  }

  function Cost(runs: seq<Run>): nat
  {
    if runs == [] then 0 else 8 + |runs[0].literal| + Cost(runs[1..])
  }

  /** Number of leading bytes equal to zero (`zero`), or different from it (`!zero`). */
  function Lead(b: seq<byte>, zero: bool): (n: nat)
    ensures n <= |b|
    ensures forall i :: 0 <= i < n ==> (b[i] == 0) == zero
    ensures n < |b| ==> (b[n] == 0) != zero
  {
    if b == [] || (b[0] == 0) != zero then 0 else 1 + Lead(b[1..], zero)
  }

  lemma {:induction false} LeadUnique(b: seq<byte>, zero: bool, n: nat)
    requires n <= |b|
    requires forall i :: 0 <= i < n ==> (b[i] == 0) == zero
    requires n < |b| ==> (b[n] == 0) != zero
    ensures Lead(b, zero) == n
  {
  }

  /** The record the encoder emits next. */
  function FirstRun(b: seq<byte>): Run
  {
    var z := Lead(b, true);
    Run(z, b[z..z + Lead(b[z..], false)])
  }

  function Span(r: Run): nat
  {
    r.zeroRun + |r.literal|
  }

  lemma FirstRunSplits(b: seq<byte>)
    requires b != []
    ensures 0 < Span(FirstRun(b)) <= |b|
    ensures b == Zeros(FirstRun(b).zeroRun) + FirstRun(b).literal + b[Span(FirstRun(b))..]
    ensures NonZero(FirstRun(b).literal)
    ensures Span(FirstRun(b)) < |b| ==> b[Span(FirstRun(b))] == 0 && FirstRun(b).literal != []
    ensures FirstRun(b).zeroRun > 0 <==> b[0] == 0
  {
    var z := Lead(b, true);
    assert b[..z] == Zeros(z);
    var lit := FirstRun(b).literal;
    assert b == b[..z] + lit + b[z + |lit|..];
    assert z < |b| ==> b[z..][0] != 0;
    forall j | 0 <= j < |lit|
      ensures lit[j] != 0
    {
      assert lit[j] == b[z..][j];
    }
  }

  lemma LeadOfZeros(z: nat, tail: seq<byte>)
    requires tail != [] ==> tail[0] != 0
    ensures Lead(Zeros(z) + tail, true) == z
  {
    LeadUnique(Zeros(z) + tail, true, z);
  }

  lemma LeadOfLiteral(lit: seq<byte>, rest: seq<byte>)
    requires NonZero(lit) && (rest != [] ==> rest[0] == 0)
    ensures Lead(lit + rest, false) == |lit|
  {
    LeadUnique(lit + rest, false, |lit|);
  }

  /** A buffer laid out as one record and a remainder starts with exactly that record. */
  lemma FirstRunIs(r: Run, rest: seq<byte>)
    requires NonZero(r.literal) && (rest != [] ==> rest[0] == 0 && r.literal != [])
    ensures FirstRun(Zeros(r.zeroRun) + r.literal + rest) == r
  {
    var b, tail := Zeros(r.zeroRun) + r.literal + rest, r.literal + rest;
    assert b == Zeros(r.zeroRun) + tail;
    LeadOfZeros(r.zeroRun, tail);
    LeadOfLiteral(r.literal, rest);
    assert b[r.zeroRun..] == tail;
    assert b[r.zeroRun..Span(r)] == tail[..|r.literal|] == r.literal;
  }

  lemma EncodeCons(r: Run, rest: seq<byte>)
    requires NonZero(r.literal) && Span(r) > 0 && (rest != [] ==> rest[0] == 0 && r.literal != [])
    ensures Encode(Zeros(r.zeroRun) + r.literal + rest) == [r] + Encode(rest)
  {
    var b := Zeros(r.zeroRun) + r.literal + rest;
    FirstRunIs(r, rest);
    assert b[Span(r)..] == rest;
  }

  /** The encoder as a function of the remaining bytes. */
  function Encode(b: seq<byte>): seq<Run>
    decreases |b|
  {
    if b == [] then []
    else
      FirstRunSplits(b);
      [FirstRun(b)] + Encode(b[Span(FirstRun(b))..])
  }

  /** Decoding what was encoded gives the bytes back. */
  lemma {:induction false} ExpandEncode(b: seq<byte>)
    ensures Expand(Encode(b)) == b
    decreases |b|
  {
    if b != [] {
      FirstRunSplits(b);
      var rest := b[Span(FirstRun(b))..];
      ExpandEncode(rest);
      assert Encode(b)[1..] == Encode(rest);
    }
  }

  /** The encoder's output is canonical. */
  lemma {:induction false} EncodeCanonical(b: seq<byte>)
    ensures Canonical(Encode(b))
    decreases |b|
  {
    if b != [] {
      FirstRunSplits(b);
      var rest := b[Span(FirstRun(b))..];
      EncodeCanonical(rest);
      if rest != [] {
        FirstRunSplits(rest);
      }
      CanonicalCons(FirstRun(b), Encode(rest));
    }
  }

  lemma CanonicalCons(r: Run, tail: seq<Run>)
    requires Canonical(tail) && NonZero(r.literal) && Span(r) > 0
    requires tail != [] ==> tail[0].zeroRun > 0 && r.literal != []
    ensures Canonical([r] + tail)
  {
  }

  lemma CanonicalTail(runs: seq<Run>)
    requires runs != [] && Canonical(runs)
    ensures Canonical(runs[1..])
    ensures Expand(runs[1..]) != [] ==> Expand(runs[1..])[0] == 0
    ensures runs[0].literal == [] ==> runs[1..] == []
  {
  }

  /** Every canonical run list is the encoding of what it denotes. */
  lemma {:induction false} EncodeExpand(runs: seq<Run>)
    requires Canonical(runs)
    ensures Encode(Expand(runs)) == runs
    decreases |runs|
  {
    if runs != [] {
      CanonicalTail(runs);
      EncodeExpand(runs[1..]);
      EncodeCons(runs[0], Expand(runs[1..]));
      assert runs == [runs[0]] + runs[1..];
    }
  }

  /** So the denotation is injective on canonical lists. */
  lemma CanonicalUnique(a: seq<Run>, b: seq<Run>)
    requires Canonical(a) && Canonical(b) && Expand(a) == Expand(b)
    ensures a == b
  {
    EncodeExpand(a);
    EncodeExpand(b);
  }

  // ---------------------------------------------------------------- size

  function NonZeroCount(b: seq<byte>): nat
  {
    if b == [] then 0 else (if b[0] == 0 then 0 else 1) + NonZeroCount(b[1..])
  }

  function NonZeroAt(b: seq<byte>, n: nat): set<nat>
    requires n <= |b|
  {
    set i: nat | i < n && b[i] != 0
  }

  lemma OneMorePosition(b: seq<byte>, n: nat)
    requires n < |b|
    ensures |NonZeroAt(b, n + 1)| == |NonZeroAt(b, n)| + if b[n] == 0 then 0 else 1
  {
    assert NonZeroAt(b, n + 1) == NonZeroAt(b, n) + if b[n] == 0 then {} else {n};
  }

  /** It counts the positions that hold a non-zero byte. */
  lemma {:induction false} NonZeroCountIs(b: seq<byte>, n: nat)
    requires n <= |b|
    ensures NonZeroCount(b[..n]) == |NonZeroAt(b, n)|
  {
    if n > 0 {
      NonZeroCountIs(b, n - 1);
      OneMorePosition(b, n - 1);
      assert b[..n] == b[..n - 1] + [b[n - 1]];
      NonZeroCountConcat(b[..n - 1], [b[n - 1]]);
    }
  }

  lemma {:induction false} NonZeroCountConcat(a: seq<byte>, b: seq<byte>)
    ensures NonZeroCount(a + b) == NonZeroCount(a) + NonZeroCount(b)
    decreases |a|
  {
    if a == [] {
      assert a + b == b;
    } else {
      assert (a + b)[1..] == a[1..] + b;
      NonZeroCountConcat(a[1..], b);
    }
  }

  lemma {:induction false} NonZeroCountUniform(a: seq<byte>, zero: bool)
    requires forall i :: 0 <= i < |a| ==> (a[i] == 0) == zero
    ensures NonZeroCount(a) == if zero then 0 else |a|
    decreases |a|
  {
    if a != [] {
      NonZeroCountUniform(a[1..], zero);
    }
  }

  /** The encoding of a buffer with `k` non-zero bytes costs `k` plus 8 per record, and there
      are at most `k + 1` records: sparse changes are always cheap. */
  lemma {:induction false} EncodeCost(b: seq<byte>)
    ensures Cost(Encode(b)) == 8 * |Encode(b)| + NonZeroCount(b)
    ensures |Encode(b)| <= NonZeroCount(b) + 1
    decreases |b|
  {
    if b != [] {
      FirstRunSplits(b);
      var r := FirstRun(b);
      var rest := b[Span(r)..];
      EncodeCost(rest);
      assert Encode(b)[1..] == Encode(rest);
      NonZeroCountUniform(Zeros(r.zeroRun), true);
      NonZeroCountUniform(r.literal, false);
      NonZeroCountConcat(Zeros(r.zeroRun), r.literal);
      NonZeroCountConcat(Zeros(r.zeroRun) + r.literal, rest);
    }
  }

  // ---------------------------------------------------------------- the code

  /** `Encode(buf)` is the only canonical list that denotes `buf`. */
  method RleEncode(buf: Page) returns (runs: seq<Run>)
    ensures Canonical(runs) && Expand(runs) == buf
    ensures runs == Encode(buf)
  {
    runs := [];
    var i := 0;
    while i < PAGE_SIZE
      invariant 0 <= i <= PAGE_SIZE
      invariant Canonical(runs) && Expand(runs) == buf[..i]
      invariant runs != [] && i < PAGE_SIZE ==> runs[|runs| - 1].literal != [] && buf[i] == 0
    {
      var runStart := i;
      while i < PAGE_SIZE && buf[i] == 0
        invariant runStart <= i <= PAGE_SIZE
        invariant forall j :: runStart <= j < i ==> buf[j] == 0
      {
        i := i + 1;
      }
      var zeroRun := i - runStart;

      var litStart := i;
      while i < PAGE_SIZE && buf[i] != 0
        invariant litStart <= i <= PAGE_SIZE
        invariant forall j :: litStart <= j < i ==> buf[j] != 0
      {
        i := i + 1;
      }
      var literal := buf[litStart..i];

      if zeroRun > 0 || literal != [] {
        RunFound(buf, runStart, litStart, i);
        AppendRun(runs, Run(zeroRun, literal));
        ExpandAppend(runs, Run(zeroRun, literal));
        runs := runs + [Run(zeroRun, literal)];
      }
    }
    assert buf[..PAGE_SIZE] == buf;
    EncodeExpand(runs);
  }

  /** What the two inner loops scanned over is one record. */
  lemma RunFound(buf: seq<byte>, start: nat, lit: nat, end: nat)
    requires start <= lit <= end <= |buf|
    requires forall j :: start <= j < lit ==> buf[j] == 0
    requires forall j :: lit <= j < end ==> buf[j] != 0
    ensures buf[..end] == buf[..start] + Zeros(lit - start) + buf[lit..end]
    ensures NonZero(buf[lit..end])
  {
    var whole := buf[..start] + Zeros(lit - start) + buf[lit..end];
    forall j | 0 <= j < end
      ensures buf[j] == whole[j]
    {
    }
    forall j | 0 <= j < end - lit
      ensures buf[lit..end][j] != 0
    {
      assert buf[lit..end][j] == buf[lit + j];
    }
  }

  lemma AppendRun(runs: seq<Run>, r: Run)
    requires Canonical(runs) && NonZero(r.literal) && Span(r) > 0
    requires runs != [] ==> runs[|runs| - 1].literal != [] && r.zeroRun > 0
    ensures Canonical(runs + [r])
  {
  }

  /** The decoder accepts any run list, canonical or not: it clips at the page end and never
      reaches outside the page or a literal. */
  method RleDecode(runs: seq<Run>) returns (out: Page)
    ensures out == FitPage(Expand(runs))
    ensures forall i :: 0 <= i < PAGE_SIZE ==> out[i] == if i < |Expand(runs)| then Expand(runs)[i] else 0
  {
    var a := new byte[PAGE_SIZE](_ => 0);
    var pos := 0;
    ghost var seen: seq<byte> := [];
    for k := 0 to |runs|
      invariant seen == Expand(runs[..k])
      invariant a[..] == FitPage(seen)
      invariant pos == if |seen| < PAGE_SIZE then |seen| else PAGE_SIZE
    {
      var r := runs[k];
      assert runs[..k + 1] == runs[..k] + [r];
      ExpandAppend(runs[..k], r);
      ghost var before := a[..];
      pos := pos + r.zeroRun;
      var end := if pos + |r.literal| < PAGE_SIZE then pos + |r.literal| else PAGE_SIZE;
      if pos < PAGE_SIZE {
        forall j | pos <= j < end {
          a[j] := r.literal[j - pos];
        }
      }
      ClippedCopy(seen, r, before, a[..], pos, end);
      pos := end;
      seen := seen + Zeros(r.zeroRun) + r.literal;
    }
    assert runs[..|runs|] == runs;
    out := a[..];
  }

  lemma ClippedCopy(seen: seq<byte>, r: Run, before: seq<byte>, after: seq<byte>, pos: nat, end: nat)
    requires before == FitPage(seen) && |after| == PAGE_SIZE
    requires pos == (if |seen| < PAGE_SIZE then |seen| else PAGE_SIZE) + r.zeroRun
    requires end == if pos + |r.literal| < PAGE_SIZE then pos + |r.literal| else PAGE_SIZE
    requires forall j :: 0 <= j < PAGE_SIZE ==>
      after[j] == if pos <= j < end then r.literal[j - pos] else before[j]
    ensures after == FitPage(seen + Zeros(r.zeroRun) + r.literal)
  {
  }

  lemma {:induction false} ExpandConcat(a: seq<Run>, b: seq<Run>)
    ensures Expand(a + b) == Expand(a) + Expand(b)
    decreases |a|
  {
    if a == [] {
      assert a + b == b;
    } else {
      assert (a + b)[1..] == a[1..] + b;
      ExpandConcat(a[1..], b);
    }
  }

  lemma ExpandAppend(runs: seq<Run>, r: Run)
    ensures Expand(runs + [r]) == Expand(runs) + Zeros(r.zeroRun) + r.literal
  {
    ExpandConcat(runs, [r]);
    assert Expand([r]) == Zeros(r.zeroRun) + r.literal;
  }

  /** The round trip through both coders. */
  lemma DecodeEncode(page: Page)
    ensures FitPage(Expand(Encode(page))) == page
  {
    ExpandEncode(page);
  }
}
