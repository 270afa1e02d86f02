/** The delta-compression engine (chronos-mem/src/delta.rs). */
module DeltaCodec {
  import opened Bytes
  import opened RunLength

  datatype PageDelta =
    | Xor(page: nat, runs: seq<Run>)
    | Raw(page: nat, bytes: Page)

  /** What an engine knows: the last content of each page it has seen. */
  type Baseline = map<nat, Page>

  // ---------------------------------------------------------------- reference meaning

  function Known(b: Baseline, page: nat): Page
  {
    if page in b then b[page] else ZeroPage()
  }

  function XorPages(a: Page, b: Page): Page
  {
    seq(PAGE_SIZE, i requires 0 <= i < PAGE_SIZE => a[i] ^ b[i])
  }

  /** `base` decodes the XOR of `prev` and `content` to `content` exactly when `base` is `prev`. */
  lemma XorRecovers(base: Page, prev: Page, content: Page)
    ensures XorPages(base, XorPages(prev, content)) == content <==> base == prev
  {
    var out := XorPages(base, XorPages(prev, content));
    forall i | 0 <= i < PAGE_SIZE
      ensures out[i] == content[i] <==> base[i] == prev[i]
    {
      XorRecoversByte(base[i], prev[i], content[i]);
    }
    if base == prev {
      assert out == content;
    } else {
      var i :| 0 <= i < PAGE_SIZE && base[i] != prev[i];
      assert out[i] != content[i];
    }
  }

  lemma XorRecoversByte(base: byte, prev: byte, content: byte)
    ensures base ^ (prev ^ content) == content <==> base == prev
  {
  }

  function EncodedLen(d: PageDelta): nat
  {
    match d
    case Xor(_, runs) => Cost(runs)
    case Raw(_, _) => PAGE_SIZE
  }

  /** The delta sent for new `content` of `page`. */
  function Diff(b: Baseline, page: nat, content: Page): PageDelta
  {
    if page !in b then Raw(page, content)
    else
      var runs := Encode(XorPages(b[page], content));
      if Cost(runs) < PAGE_SIZE then Xor(page, runs) else Raw(page, content)
  }

  /** The content a receiver with baseline `b` reconstructs. */
  function Decoded(b: Baseline, d: PageDelta): Page
  {
    match d
    case Xor(page, runs) => XorPages(Known(b, page), FitPage(Expand(runs)))
    case Raw(_, bytes) => bytes
  }

  function ApplyDelta(b: Baseline, d: PageDelta): Baseline
  {
    b[d.page := Decoded(b, d)]
  }

  function ApplyDeltas(b: Baseline, ds: seq<PageDelta>): Baseline
    decreases |ds|
  {
    if ds == [] then b else ApplyDeltas(ApplyDelta(b, ds[0]), ds[1..])
  }

  // ---------------------------------------------------------------- lock-step

  datatype Commit = Commit(page: nat, content: Page)

  function CommitAll(b: Baseline, commits: seq<Commit>): Baseline
    decreases |commits|
  {
    if commits == [] then b else CommitAll(b[commits[0].page := commits[0].content], commits[1..])
  }

  /** The deltas a primary emits for a run of commits. */
  function Deltas(b: Baseline, commits: seq<Commit>): seq<PageDelta>
    decreases |commits|
  {
    if commits == [] then []
    else [Diff(b, commits[0].page, commits[0].content)] + Deltas(b[commits[0].page := commits[0].content], commits[1..])
  }

  /** The pages `apply` returns along a run of deltas. */
  function Outputs(b: Baseline, ds: seq<PageDelta>): seq<Page>
    decreases |ds|
  {
    if ds == [] then [] else [Decoded(b, ds[0])] + Outputs(ApplyDelta(b, ds[0]), ds[1..])
  }

  /** One delta decodes to the committed page exactly when it is self-contained or the receiver
      still holds the sender's previous copy: a lost delta is fatal for the Xor encoding only. */
  lemma DecodesIff(sender: Baseline, receiver: Baseline, page: nat, content: Page)
    ensures Decoded(receiver, Diff(sender, page, content)) == content <==>
      Diff(sender, page, content).Raw? || Known(receiver, page) == Known(sender, page)
  {
    if Diff(sender, page, content).Xor? {
      DecodeEncode(XorPages(sender[page], content));
      XorRecovers(Known(receiver, page), sender[page], content);
    }
  }

  /** Two engines that start alike stay alike: every delta decodes to the committed page and the
      baselines agree at the end (and, applied to prefixes, after every step). */
  lemma {:induction false} LockStep(b: Baseline, commits: seq<Commit>)
    ensures ApplyDeltas(b, Deltas(b, commits)) == CommitAll(b, commits)
    ensures |Outputs(b, Deltas(b, commits))| == |commits|
    ensures forall i :: 0 <= i < |commits| ==> Outputs(b, Deltas(b, commits))[i] == commits[i].content
    decreases |commits|
  {
    if commits != [] {
      var c := commits[0];
      var d, next := Diff(b, c.page, c.content), b[c.page := c.content];
      DecodesIff(b, b, c.page, c.content);
      assert ApplyDelta(b, d) == next;
      assert Deltas(b, commits)[1..] == Deltas(next, commits[1..]);
      LockStep(next, commits[1..]);
    }
  }

  /** The last commit of a page is what its baseline holds. */
  lemma {:induction false} CommitAllHolds(b: Baseline, commits: seq<Commit>, i: nat)
    requires i < |commits| && forall j :: i < j < |commits| ==> commits[j].page != commits[i].page
    ensures Known(CommitAll(b, commits), commits[i].page) == commits[i].content
    decreases |commits|
  {
    var next := b[commits[0].page := commits[0].content];
    if i > 0 {
      CommitAllHolds(next, commits[1..], i - 1);
    } else {
      CommitAllFrame(next, commits[1..], commits[0].page);
    }
  }

  lemma {:induction false} CommitAllFrame(b: Baseline, commits: seq<Commit>, page: nat)
    requires forall j :: 0 <= j < |commits| ==> commits[j].page != page
    ensures Known(CommitAll(b, commits), page) == Known(b, page)
    decreases |commits|
  {
    if commits != [] {
      CommitAllFrame(b[commits[0].page := commits[0].content], commits[1..], page);
    }
  }

  // ---------------------------------------------------------------- size

  /** The positions at which two pages differ. */
  function Changed(prev: Page, current: Page): set<nat>
  {
    set i: nat | i < PAGE_SIZE && prev[i] != current[i]
  }

  lemma XorNonZero(a: byte, b: byte)
    ensures a ^ b != 0 <==> a != b
  {
  }

  lemma ChangedCount(prev: Page, current: Page)
    ensures NonZeroCount(XorPages(prev, current)) == |Changed(prev, current)|
  {
    var x := XorPages(prev, current);
    NonZeroCountIs(x, PAGE_SIZE);
    assert x[..PAGE_SIZE] == x;
    forall i | 0 <= i < PAGE_SIZE
      ensures x[i] != 0 <==> prev[i] != current[i]
    {
      XorNonZero(prev[i], current[i]);
    }
    assert NonZeroAt(x, PAGE_SIZE) == Changed(prev, current);
  }

  /** `runs` is the run-length form of the exclusive or of two pages. */
  ghost predicate XorRuns(runs: seq<Run>, prev: Page, current: Page)
  {
    && Canonical(runs) && |Expand(runs)| == PAGE_SIZE
    && forall i :: 0 <= i < PAGE_SIZE ==> Expand(runs)[i] == prev[i] ^ current[i]
  }

  /** What is sent: the run-length form of the exclusive or exactly when the page is known and 8 bytes
      per record plus the changed bytes are below a page, and the page itself otherwise. */
  lemma DiffIs(b: Baseline, page: nat, content: Page) returns (runs: seq<Run>)
    ensures XorRuns(runs, Known(b, page), content)
    ensures Diff(b, page, content) ==
      if page in b && 8 * |runs| + |Changed(b[page], content)| < PAGE_SIZE then Xor(page, runs) else Raw(page, content)
  {
    var x := XorPages(Known(b, page), content);
    runs := Encode(x);
    ExpandEncode(x);
    EncodeCanonical(x);
    EncodeCost(x);
    ChangedCount(Known(b, page), content);
  }

  lemma DiffSize(b: Baseline, page: nat, content: Page)
    ensures EncodedLen(Diff(b, page, content)) <= PAGE_SIZE
    ensures Diff(b, page, content).Xor? <==> EncodedLen(Diff(b, page, content)) < PAGE_SIZE
  {
  }

  /** A known page of which at most 454 bytes changed is always sent as a small Xor delta. */
  lemma SparseChangeIsXor(b: Baseline, page: nat, content: Page)
    requires page in b && |Changed(b[page], content)| <= 454
    ensures Diff(b, page, content).Xor?
    ensures EncodedLen(Diff(b, page, content)) <= 9 * |Changed(b[page], content)| + 8
  {
    EncodeCost(XorPages(b[page], content));
    ChangedCount(b[page], content);
  }

  // ---------------------------------------------------------------- the code

  method XorBuffers(prev: Page, current: Page) returns (out: Page)
    ensures out == XorPages(prev, current)
    ensures forall i :: 0 <= i < PAGE_SIZE ==> out[i] == prev[i] ^ current[i]
  {
    var a := new byte[PAGE_SIZE](_ => 0);
    for i := 0 to PAGE_SIZE
      invariant forall j :: 0 <= j < i ==> a[j] == prev[j] ^ current[j]
    {
      a[i] := prev[i] ^ current[i];
    }
    assert a[..] == XorPages(prev, current);
    out := a[..];
  }

  class DeltaEngine {
    var baseline: seq<Page>
    var haveBaseline: seq<bool>

    ghost predicate Valid()
      reads this
    {
      |baseline| == |haveBaseline|
    }

    ghost function View(): Baseline
      requires Valid()
      reads this
    {
      map p: nat | p < |baseline| && haveBaseline[p] :: baseline[p]
    }

    constructor (initialPages: nat)
      ensures Valid() && View() == map[]
    {
      baseline := seq(initialPages, _ => ZeroPage());
      haveBaseline := seq(initialPages, _ => false);
    }

    method EnsureCapacity(page: nat)
      requires Valid()
      modifies this
      ensures Valid() && page < |baseline| && View() == old(View())
    {
      if page >= |baseline| {
        var more := page + 1 - |baseline|;
        baseline := baseline + seq(more, _ => ZeroPage());
        haveBaseline := haveBaseline + seq(more, _ => false);
      }
    }

    method Adopt(page: nat, content: Page)
      requires Valid() && page < |baseline|
      modifies this
      ensures Valid() && View() == old(View())[page := content]
    {
      baseline := baseline[page := content];
      haveBaseline := haveBaseline[page := true];
    }

    method DiffAndCommit(page: nat, current: Page) returns (d: PageDelta)
      requires Valid()
      modifies this
      ensures Valid() && d == Diff(old(View()), page, current)
      ensures View() == old(View())[page := current]
      ensures d.page == page && (page !in old(View()) ==> d.Raw?)
      ensures d.Raw? ==> d.bytes == current
      ensures d.Xor? ==> XorRuns(d.runs, old(View())[page], current)
    {
      ghost var _ := DiffIs(View(), page, current);
      EnsureCapacity(page);
      if !haveBaseline[page] {
        Adopt(page, current);
        return Raw(page, current);
      }
      var xorBuf := XorBuffers(baseline[page], current);
      var runs := RleEncode(xorBuf);
      Adopt(page, current);
      if Cost(runs) < PAGE_SIZE {
        d := Xor(page, runs);
      } else {
        d := Raw(page, current);
      }
    }

    method Apply(d: PageDelta) returns (out: Page)
      requires Valid()
      modifies this
      ensures Valid() && out == Decoded(old(View()), d)
      ensures d.Raw? ==> out == d.bytes
      ensures d.Xor? ==> forall i :: 0 <= i < PAGE_SIZE ==>
        out[i] == Known(old(View()), d.page)[i] ^ (if i < |Expand(d.runs)| then Expand(d.runs)[i] else 0)
      ensures View() == ApplyDelta(old(View()), d)
    {
      EnsureCapacity(d.page);
      match d {
        case Raw(_, bytes) =>
          out := bytes;
        case Xor(page, runs) =>
          var prev := if haveBaseline[page] then baseline[page] else ZeroPage();
          var xorBuf := RleDecode(runs);
          out := XorBuffers(prev, xorBuf);
      }
      Adopt(d.page, out);
    }
  }
}
