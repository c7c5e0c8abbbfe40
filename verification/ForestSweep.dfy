/** Removing every tree whose root overlaps a range of addresses. */
module ForestSweep {
  import opened Pages
  import opened Forests
  import opened ForestRuns

  ghost function RootOf(f: Forest, n: nat): (r: nat)
    requires Nested(f) && n in f
    ensures r in f && f[r].parent == 0 && Below(f, r, n)
    decreases f[n].depth
  {
    if f[n].parent == 0 then n else RootOf(f, f[n].parent)
  }

  predicate Overlaps(nd: Node, x: nat, y: nat) {
    x < y && nd.begin < y && x < nd.end
  }

  /** `f` without the trees whose root overlaps [x, y). */
  ghost function Swept(f: Forest, x: nat, y: nat): Forest
    requires Nested(f)
  {
    map n | n in f && !Overlaps(f[RootOf(f, n)], x, y) :: f[n]
  }

  lemma {:induction false} RootIff(f: Forest, b: nat, n: nat)
    requires WellNested(f) && b in f && f[b].parent == 0 && n in f
    ensures Below(f, b, n) <==> RootOf(f, n) == b
    decreases f[n].depth
  {
    if f[n].parent != 0 {
      RootIff(f, b, f[n].parent);
    }
  }

  /** What is left has the roots it had. */
  lemma {:induction false} SweptRoot(f: Forest, x: nat, y: nat, n: nat)
    requires WellNested(f) && n in Swept(f, x, y)
    ensures Nested(Swept(f, x, y)) && RootOf(Swept(f, x, y), n) == RootOf(f, n)
    decreases f[n].depth
  {
    SweptNested(f, x, y);
    if f[n].parent != 0 {
      SweptRoot(f, x, y, f[n].parent);
    }
  }

  lemma SweptNested(f: Forest, x: nat, y: nat)
    requires WellNested(f)
    ensures Nested(Swept(f, x, y))
  {
    var g := Swept(f, x, y);
    forall n | n in g && g[n].parent != 0
      ensures g[n].parent in g
    {
      assert RootOf(f, n) == RootOf(f, f[n].parent);
    }
  }

  lemma SweepNothing(f: Forest, x: nat)
    requires Nested(f)
    ensures Swept(f, x, x) == f
  {
  }

  /** No root of `g` overlaps [x, y). */
  ghost predicate Clear(g: Forest, x: nat, y: nat) {
    forall r :: r in g && g[r].parent == 0 ==> !Overlaps(g[r], x, y)
  }

  /** Deleting the next tree in address order sweeps the range up to its end. */
  lemma SweepStep(f: Forest, x: nat, upTo: nat, lo: nat, b: nat)
    requires WellNested(f) && x <= upTo
    requires Nested(Swept(f, x, upTo)) && b in Swept(f, x, upTo) && f[b].parent == 0
    requires Clear(Swept(f, x, upTo), upTo, lo) && f[b].begin <= lo && upTo < f[b].end
    ensures Swept(f, x, upTo) - Subtree(Swept(f, x, upTo), b) == Swept(f, x, f[b].end)
  {
    var g := Swept(f, x, upTo);
    assert WellNested(g);
    forall n | n in f
      ensures n in g && n !in Subtree(g, b) <==> n in Swept(f, x, f[b].end)
    {
      SweepStepAt(f, x, upTo, lo, b, n);
    }
  }

  lemma SweepStepAt(f: Forest, x: nat, upTo: nat, lo: nat, b: nat, n: nat)
    requires WellNested(f) && x <= upTo && n in f && WellNested(Swept(f, x, upTo))
    requires b in Swept(f, x, upTo) && f[b].parent == 0
    requires Clear(Swept(f, x, upTo), upTo, lo) && f[b].begin <= lo && upTo < f[b].end
    ensures n in Swept(f, x, upTo) && n !in Subtree(Swept(f, x, upTo), b) <==> n in Swept(f, x, f[b].end)
  {
    var g := Swept(f, x, upTo);
    var r := RootOf(f, n);
    RootOfRoot(f, n);
    assert n in g <==> !Overlaps(f[r], x, upTo);
    if n in g {
      SweptRoot(f, x, upTo, n);
      RootIff(g, b, n);
      assert r in g && g[r] == f[r];
      if r != b {
        assert Apart(f[r], f[b]);
        assert !Overlaps(g[r], upTo, lo);
      }
    }
  }

  lemma RootOfRoot(f: Forest, n: nat)
    requires Nested(f) && n in f
    ensures RootOf(f, RootOf(f, n)) == RootOf(f, n)
  {
  }

  /** When nothing is left in the rest of the range, the sweep is complete. */
  lemma SweepRest(f: Forest, x: nat, upTo: nat, y: nat)
    requires WellNested(f) && x <= upTo
    requires Clear(Swept(f, x, upTo), upTo, y)
    ensures upTo <= y ==> Swept(f, x, upTo) == Swept(f, x, y)
  {
    var g := Swept(f, x, upTo);
    if upTo <= y {
      forall n | n in f
        ensures n in g <==> n in Swept(f, x, y)
      {
        var r := RootOf(f, n);
        RootOfRoot(f, n);
        if n in g {
          assert r in g && g[r] == f[r];
          assert !Overlaps(g[r], upTo, y);
        }
      }
    }
  }

  /** A mapping's pages all have an entry. */
  lemma MappedPage(g: Forest, pi: seq<nat>, r: nat, a: nat)
    requires WellNested(g) && TopAligned(g) && Agrees(g, pi) && r in g && g[r].parent == 0 && Contains(g[r], a)
    ensures PageNum(a) < |pi| && pi[PageNum(a)] != 0
  {
    AlignedSpans(g[r], a);
    LimitPages(a);
    assert PageEntry(g, PageNum(a), pi[PageNum(a)]);
  }

  lemma PageBetween(lo: nat, hi: nat, a: nat)
    requires PageLo(lo) <= a < PageLo(hi)
    ensures lo <= PageNum(a) < hi
  {
    DownPageIsPageNum(a);
    MulMonotone(PageNum(a) + 1, lo, PAGE_SIZE);
    MulMonotone(hi, PageNum(a), PAGE_SIZE);
  }

  /** Pages without an entry are touched by no mapping. */
  lemma ZeroPagesClear(g: Forest, pi: seq<nat>, lo: nat, hi: nat, x: nat, y: nat)
    requires WellNested(g) && TopAligned(g) && Agrees(g, pi) && hi <= |pi|
    requires forall p :: lo <= p < hi ==> pi[p] == 0
    requires PageLo(lo) <= x && y <= PageLo(hi)
    ensures Clear(g, x, y)
  {
    forall r | r in g && g[r].parent == 0
      ensures !Overlaps(g[r], x, y)
    {
      if Overlaps(g[r], x, y) {
        var a := if g[r].begin < x then x else g[r].begin;
        PageBetween(lo, hi, a);
        MappedPage(g, pi, r, a);
      }
    }
  }

  /** The one way to miss a tree: the range begins part way into its page, its last page is only
      partly inside, further in than that, and the pages before the last have no entry. */
  ghost predicate SkipsLastPage(pi: seq<nat>, begin: nat, end: nat) {
    && begin < end && (end - 1) % PAGE_SIZE < begin % PAGE_SIZE
    && PageNum(begin) < PageNum(end - 1) < |pi|
    && pi[PageNum(end - 1)] != 0
    && forall p :: PageNum(begin) <= p < PageNum(end - 1) ==> pi[p] == 0
  }

  /** Then there is a tree to remove. */
  lemma SkipLosesTree(f: Forest, pi: seq<nat>, begin: nat, end: nat)
    requires WellNested(f) && Agrees(f, pi) && SkipsLastPage(pi, begin, end)
    ensures Swept(f, begin, end) != f
  {
    var p := PageNum(end - 1);
    assert PageEntry(f, p, pi[p]);
    var r := TopAbove(f, pi[p]);
    DownPageIsPageNum(end - 1);
    assert Overlaps(f[r], begin, end);
    assert RootOf(f, r) == r;
    assert r !in Swept(f, begin, end);
  }
}
