/** The operations on the bigalloc tree and the patches the code makes to the page index,
    each proved to keep the index equal to the recomputed one. */
module ForestOps {
  import opened Pages
  import opened Forests

  /** Overwrite the entries of pages [lo, hi). */
  function Fill(pi: seq<nat>, lo: nat, hi: nat, v: nat): (r: seq<nat>)
    ensures |r| == |pi|
  {
    seq(|pi|, i requires 0 <= i < |pi| => if lo <= i < hi then v else pi[i])
  }

  predicate Odd(n: nat) {
    0 < n && !Odd(n - 1)
  }

  /** The pages of [lo, hi) whose old entry a build with assertions looks at: all of them, or when 0 is
      expected only those written one at a time. */
  predicate Looked(lo: nat, hi: nat, oldNum: nat, p: nat) {
    lo <= p < hi && (oldNum != 0 || (p == lo && Odd(lo)) || (p == hi - 1 && Odd(hi)))
  }

  predicate Fits(entry: nat, oldNum: nat) {
    entry == 0 || entry == oldNum
  }

  /** Each of them is empty or holds the number expected. */
  predicate Passes(pi: seq<nat>, lo: nat, hi: nat, oldNum: nat)
    requires hi <= |pi|
  {
    forall p :: lo <= p < hi && Looked(lo, hi, oldNum, p) ==> Fits(pi[p], oldNum)
  }

  lemma {:induction false} OddMeans(n: nat)
    ensures Odd(n) <==> n % 2 == 1
  {
    if 0 < n {
      OddMeans(n - 1);
    }
  }

  /** In plain numbers. */
  lemma PassesMeans(pi: seq<nat>, lo: nat, hi: nat, oldNum: nat)
    requires hi <= |pi|
    ensures Passes(pi, lo, hi, oldNum) <==> forall p :: lo <= p < hi ==>
      (oldNum == 0 && !(p == lo && lo % 2 == 1) && !(p == hi - 1 && hi % 2 == 1)) || pi[p] == 0 || pi[p] == oldNum
  {
    OddMeans(lo);
    OddMeans(hi);
    assert forall p :: lo <= p < hi && Fits(pi[p], oldNum) ==> pi[p] == 0 || pi[p] == oldNum;
  }

  /** In the order in which they are looked at. */
  lemma PassesIff(pi: seq<nat>, lo: nat, hi: nat, oldNum: nat)
    requires lo <= hi <= |pi|
    ensures var from := if lo < hi && Odd(lo) then lo + 1 else lo;
      Passes(pi, lo, hi, oldNum) <==>
      && (lo < hi && Odd(lo) ==> Fits(pi[lo], oldNum))
      && (oldNum != 0 ==> forall p :: from <= p < hi ==> Fits(pi[p], oldNum))
      && (lo < hi && Odd(hi) ==> Fits(pi[hi - 1], oldNum))
  {
    if lo < hi {
      assert Odd(lo) ==> Looked(lo, hi, oldNum, lo);
      assert Odd(hi) ==> Looked(lo, hi, oldNum, hi - 1);
      assert oldNum != 0 ==> forall p :: lo <= p < hi ==> Looked(lo, hi, oldNum, p);
    }
  }

  ghost predicate FreshRange(f: Forest, parent: nat, begin: nat, end: nat) {
    && 0 < begin < end <= AddressLimit()
    && (parent != 0 ==> parent in f && f[parent].begin <= begin && end <= f[parent].end)
  }

  // ---------------------------------------------------------------- create

  ghost predicate CanCreate(f: Forest, b: nat, nd: Node) {
    && 0 < b < NBIGALLOCS && b !in f
    && FreshRange(f, nd.parent, nd.begin, nd.end)
    && nd.depth == (if nd.parent == 0 then 1 else f[nd.parent].depth + 1)
    && forall m :: m in f && f[m].parent == nd.parent ==> Apart(f[m], nd)
  }

  lemma CreateNested(f: Forest, b: nat, nd: Node, n: nat)
    requires WellNested(f) && CanCreate(f, b, nd) && n in f[b := nd] && f[b := nd][n].parent != 0
    ensures var g := f[b := nd];
      g[n].parent in g && g[n].depth == g[g[n].parent].depth + 1 && Covers(g[g[n].parent], g[n].begin, g[n].end)
  {
    if n != b {
      assert f[n].parent in f;
    }
  }

  lemma CreateApart(f: Forest, b: nat, nd: Node, m: nat, n: nat)
    requires WellNested(f) && CanCreate(f, b, nd) && m in f[b := nd] && n in f[b := nd] && m != n
    requires f[b := nd][m].parent == f[b := nd][n].parent
    ensures Apart(f[b := nd][m], f[b := nd][n])
  {
  }

  lemma CreateAllNested(f: Forest, b: nat, nd: Node)
    requires WellNested(f) && CanCreate(f, b, nd)
    ensures Nested(f[b := nd])
  {
    var g := f[b := nd];
    forall n | n in g && g[n].parent != 0
      ensures g[n].parent in g && g[n].depth == g[g[n].parent].depth + 1 && Covers(g[g[n].parent], g[n].begin, g[n].end)
    {
      CreateNested(f, b, nd, n);
    }
  }

  lemma CreateAllApart(f: Forest, b: nat, nd: Node)
    requires WellNested(f) && CanCreate(f, b, nd)
    ensures SiblingsApart(f[b := nd])
  {
    var g := f[b := nd];
    forall m, n | m in g && n in g && m != n && g[m].parent == g[n].parent
      ensures Apart(g[m], g[n])
    {
      CreateApart(f, b, nd, m, n);
    }
  }

  lemma CreateWellNested(f: Forest, b: nat, nd: Node)
    requires WellNested(f) && CanCreate(f, b, nd)
    ensures WellNested(f[b := nd])
  {
    CreateAllNested(f, b, nd);
    CreateAllApart(f, b, nd);
  }

  lemma CreateEntry(f: Forest, b: nat, nd: Node, p: nat, n: nat)
    requires WellNested(f) && CanCreate(f, b, nd) && PageEntry(f, p, n)
    ensures PageEntry(f[b := nd], p, if SpansPage(nd, p) then b else n)
    ensures SpansPage(nd, p) ==> n == nd.parent
  {
    var g := f[b := nd];
    CreateWellNested(f, b, nd);
    PageBounds(p);
    EntryIffLocal(f, p, n);
    EntryIffLocal(g, p, n);
    EntryIffLocal(g, p, b);
    if SpansPage(nd, p) {
      EntryIffLocal(f, p, nd.parent);
      DeepestUnique(f, PageLo(p), PageHi(p), n, nd.parent);
    }
  }

  /** Creating a bigalloc: the pages it spans all carried its parent's number before. */
  lemma CreateAgrees(f: Forest, pi: seq<nat>, b: nat, nd: Node)
    requires WellNested(f) && Agrees(f, pi) && CanCreate(f, b, nd)
    ensures WellNested(f[b := nd])
    ensures Agrees(f[b := nd], Fill(pi, UpPage(nd.begin), DownPage(nd.end), b))
    ensures forall p :: UpPage(nd.begin) <= p < DownPage(nd.end) ==> p < |pi| && pi[p] == nd.parent
  {
    CreateWellNested(f, b, nd);
    LimitPages(nd.end);
    forall p | 0 <= p < NPAGES
      ensures PageEntry(f[b := nd], p, Fill(pi, UpPage(nd.begin), DownPage(nd.end), b)[p])
      ensures UpPage(nd.begin) <= p < DownPage(nd.end) ==> pi[p] == nd.parent
    {
      SpanIsPageRange(nd, p);
      CreateEntry(f, b, nd, p, pi[p]);
    }
  }

  // ---------------------------------------------------------------- resize

  function Resized(f: Forest, b: nat, x: nat, y: nat): Forest
    requires b in f
  {
    f[b := f[b].(begin := x, end := y)]
  }

  ghost predicate CanResize(f: Forest, b: nat, x: nat, y: nat) {
    && b in f
    && FreshRange(f, f[b].parent, x, y)
    && (forall m :: m in f && m != b && f[m].parent == f[b].parent ==> Apart(f[m], f[b].(begin := x, end := y)))
    && (forall c :: c in f && f[c].parent == b ==> x <= f[c].begin && f[c].end <= y)
  }

  lemma ResizeNested(f: Forest, b: nat, x: nat, y: nat, n: nat)
    requires WellNested(f) && CanResize(f, b, x, y) && n in f && f[n].parent != 0
    ensures var g := Resized(f, b, x, y);
      g[n].parent in g && g[n].depth == g[g[n].parent].depth + 1 && Covers(g[g[n].parent], g[n].begin, g[n].end)
  {
  }

  lemma ResizeApart(f: Forest, b: nat, x: nat, y: nat, m: nat, n: nat)
    requires WellNested(f) && CanResize(f, b, x, y) && m in f && n in f && m != n && f[m].parent == f[n].parent
    ensures Apart(Resized(f, b, x, y)[m], Resized(f, b, x, y)[n])
  {
  }

  lemma ResizeAllNested(f: Forest, b: nat, x: nat, y: nat)
    requires WellNested(f) && CanResize(f, b, x, y)
    ensures Nested(Resized(f, b, x, y))
  {
    var g := Resized(f, b, x, y);
    forall n | n in g && g[n].parent != 0
      ensures g[n].parent in g && g[n].depth == g[g[n].parent].depth + 1 && Covers(g[g[n].parent], g[n].begin, g[n].end)
    {
      ResizeNested(f, b, x, y, n);
    }
  }

  lemma ResizeAllApart(f: Forest, b: nat, x: nat, y: nat)
    requires WellNested(f) && CanResize(f, b, x, y)
    ensures SiblingsApart(Resized(f, b, x, y))
  {
    var g := Resized(f, b, x, y);
    forall m, n | m in g && n in g && m != n && g[m].parent == g[n].parent
      ensures Apart(g[m], g[n])
    {
      ResizeApart(f, b, x, y, m, n);
    }
  }

  lemma ResizeWellNested(f: Forest, b: nat, x: nat, y: nat)
    requires WellNested(f) && CanResize(f, b, x, y)
    ensures WellNested(Resized(f, b, x, y))
  {
    ResizeAllNested(f, b, x, y);
    ResizeAllApart(f, b, x, y);
  }

  /** What a page's entry must become when `b` is resized to [x, y). */
  ghost function EntryAfterResize(f: Forest, b: nat, x: nat, y: nat, p: nat, n: nat): nat
    requires b in f
  {
    var nd := f[b].(begin := x, end := y);
    if SpansPage(nd, p) == SpansPage(f[b], p) then n
    else if SpansPage(nd, p) then b
    else f[b].parent
  }

  /** A page `b` comes to span: its entry was the parent's and becomes `b`. */
  lemma ResizeGained(f: Forest, b: nat, x: nat, y: nat, p: nat, n: nat)
    requires WellNested(f) && CanResize(f, b, x, y) && PageEntry(f, p, n)
    requires SpansPage(f[b].(begin := x, end := y), p) && !SpansPage(f[b], p)
    ensures n == f[b].parent
    ensures PageEntry(Resized(f, b, x, y), p, b)
  {
    ResizeWellNested(f, b, x, y);
    PageBounds(p);
    EntryIffLocal(f, p, f[b].parent);
    DeepestUnique(f, PageLo(p), PageHi(p), n, f[b].parent);
    EntryIffLocal(Resized(f, b, x, y), p, b);
  }

  /** A page `b` no longer spans: its entry was `b` and becomes the parent's. */
  lemma ResizeLost(f: Forest, b: nat, x: nat, y: nat, p: nat, n: nat)
    requires WellNested(f) && CanResize(f, b, x, y) && PageEntry(f, p, n)
    requires !SpansPage(f[b].(begin := x, end := y), p) && SpansPage(f[b], p)
    ensures n == b
    ensures PageEntry(Resized(f, b, x, y), p, f[b].parent)
  {
    ResizeWellNested(f, b, x, y);
    PageBounds(p);
    EntryIffLocal(f, p, b);
    DeepestUnique(f, PageLo(p), PageHi(p), n, b);
    EntryIffLocal(Resized(f, b, x, y), p, f[b].parent);
  }

  lemma ResizeKept(f: Forest, b: nat, x: nat, y: nat, p: nat, n: nat)
    requires WellNested(f) && CanResize(f, b, x, y) && PageEntry(f, p, n)
    requires SpansPage(f[b].(begin := x, end := y), p) == SpansPage(f[b], p)
    ensures PageEntry(Resized(f, b, x, y), p, n)
  {
    ResizeWellNested(f, b, x, y);
    EntryIffLocal(f, p, n);
    EntryIffLocal(Resized(f, b, x, y), p, n);
  }

  lemma ResizeEntry(f: Forest, b: nat, x: nat, y: nat, p: nat, n: nat)
    requires WellNested(f) && CanResize(f, b, x, y) && PageEntry(f, p, n)
    ensures PageEntry(Resized(f, b, x, y), p, EntryAfterResize(f, b, x, y, p, n))
  {
    if SpansPage(f[b].(begin := x, end := y), p) == SpansPage(f[b], p) {
      ResizeKept(f, b, x, y, p, n);
    } else if SpansPage(f[b], p) {
      ResizeLost(f, b, x, y, p, n);
    } else {
      ResizeGained(f, b, x, y, p, n);
    }
  }

  /** An index agrees with the resized tree exactly when every entry is the one demanded above. */
  lemma ResizeAgreesIff(f: Forest, pi: seq<nat>, b: nat, x: nat, y: nat, pi': seq<nat>)
    requires WellNested(f) && Agrees(f, pi) && CanResize(f, b, x, y) && |pi'| == |pi|
    ensures WellNested(Resized(f, b, x, y))
    ensures Agrees(Resized(f, b, x, y), pi') <==>
            forall p :: 0 <= p < |pi| ==> pi'[p] == EntryAfterResize(f, b, x, y, p, pi[p])
  {
    var g := Resized(f, b, x, y);
    ResizeWellNested(f, b, x, y);
    forall p | 0 <= p < |pi|
      ensures PageEntry(g, p, pi'[p]) <==> pi'[p] == EntryAfterResize(f, b, x, y, p, pi[p])
    {
      ResizeEntry(f, b, x, y, p, pi[p]);
      if PageEntry(g, p, pi'[p]) {
        DeepestUnique(g, PageLo(p), PageHi(p), pi'[p], EntryAfterResize(f, b, x, y, p, pi[p]));
      }
    }
  }

  // ---------------------------------------------------------------- extend

  ghost predicate CanExtend(f: Forest, b: nat, newEnd: nat) {
    b in f && f[b].end <= newEnd && CanResize(f, b, f[b].begin, newEnd)
  }

  function ExtendPatch(f: Forest, pi: seq<nat>, b: nat, newEnd: nat): seq<nat>
    requires b in f
  {
    Fill(pi, DownPage(f[b].end), DownPage(newEnd), b)
  }

  /** The patch is right exactly when it writes nothing or the bigalloc begins no later than the
      page its old end lies on. */
  predicate ExtendExact(f: Forest, b: nat, newEnd: nat)
    requires b in f
  {
    DownPage(newEnd) <= DownPage(f[b].end) || f[b].begin <= RoundDown(f[b].end, PAGE_SIZE)
  }

  lemma ExtendAgreesIff(f: Forest, pi: seq<nat>, b: nat, newEnd: nat)
    requires WellNested(f) && Agrees(f, pi) && CanExtend(f, b, newEnd)
    ensures WellNested(Resized(f, b, f[b].begin, newEnd))
    ensures Agrees(Resized(f, b, f[b].begin, newEnd), ExtendPatch(f, pi, b, newEnd)) <==> ExtendExact(f, b, newEnd)
  {
    var nd, x, e := f[b], f[b].begin, f[b].end;
    var pi' := ExtendPatch(f, pi, b, newEnd);
    ResizeAgreesIff(f, pi, b, x, newEnd, pi');
    RoundedBegin(x, e);
    LimitPages(newEnd);
    UpDownMonotone(e, newEnd);
    forall p | 0 <= p < |pi|
      ensures SpansPage(nd, p) <==> UpPage(x) <= p < DownPage(e)
      ensures SpansPage(nd.(begin := x, end := newEnd), p) <==> UpPage(x) <= p < DownPage(newEnd)
      ensures !SpansPage(nd, p) ==> pi[p] != b
    {
      SpanIsPageRange(nd, p);
      SpanIsPageRange(nd.(begin := x, end := newEnd), p);
    }
    if !ExtendExact(f, b, newEnd) {
      assert pi'[DownPage(e)] == b;
    }
  }

  lemma RoundedBegin(x: nat, e: nat)
    ensures UpPage(x) <= DownPage(e) <==> x <= RoundDown(e, PAGE_SIZE)
  {
    PageGalois(x, DownPage(e));
    DownPageIsPageNum(e);
    DivModLaw(e, PAGE_SIZE);
  }

  // ---------------------------------------------------------------- truncate

  /** 0, the top level, spans every page. */
  predicate ParentSpans(f: Forest, q: nat, p: nat) {
    q == 0 || (q in f && SpansPage(f[q], p))
  }

  lemma ParentSpansToo(f: Forest, b: nat, p: nat)
    requires WellNested(f) && b in f && SpansPage(f[b], p)
    ensures ParentSpans(f, f[b].parent, p)
  {
  }

  /** A page that `b` touches but does not span, and does not lie in, is spanned by no sibling;
      its entry is the parent's number exactly when the parent spans it. */
  lemma TouchedPage(f: Forest, b: nat, p: nat, n: nat)
    requires WellNested(f) && b in f && PageEntry(f, p, n)
    requires !SpansPage(f[b], p)
    requires f[b].begin < PageHi(p) && PageLo(p) < f[b].end
    ensures n == f[b].parent <==> ParentSpans(f, f[b].parent, p)
  {
    var q := f[b].parent;
    PageBounds(p);
    EntryIffLocal(f, p, n);
    EntryIffLocal(f, p, q);
    if ParentSpans(f, q, p) {
      DeepestUnique(f, PageLo(p), PageHi(p), n, q);
    }
  }

  ghost predicate CanTruncateEnd(f: Forest, b: nat, newEnd: nat) {
    b in f && newEnd <= f[b].end && CanResize(f, b, f[b].begin, newEnd)
  }

  function TruncateEndPatch(f: Forest, pi: seq<nat>, b: nat, newEnd: nat): seq<nat>
    requires b in f
  {
    Fill(pi, DownPage(newEnd), DownPage(f[b].end), f[b].parent)
  }

  predicate TruncateEndExact(f: Forest, b: nat, newEnd: nat)
    requires b in f
  {
    DownPage(f[b].end) <= DownPage(newEnd) || ParentSpans(f, f[b].parent, DownPage(newEnd))
  }

  lemma TruncateEndPage(f: Forest, b: nat, newEnd: nat, p: nat)
    requires WellNested(f) && CanTruncateEnd(f, b, newEnd)
    ensures SpansPage(f[b], p) <==> UpPage(f[b].begin) <= p < DownPage(f[b].end)
    ensures SpansPage(f[b].(begin := f[b].begin, end := newEnd), p) <==> UpPage(f[b].begin) <= p < DownPage(newEnd)
    ensures UpPage(f[b].begin) <= DownPage(newEnd) + 1
    ensures DownPage(newEnd) <= DownPage(f[b].end)
  {
    SpanIsPageRange(f[b], p);
    SpanIsPageRange(f[b].(begin := f[b].begin, end := newEnd), p);
    UpDownMonotone(newEnd, f[b].end);
    UpDownMonotone(f[b].begin, newEnd);
    UpDownMonotone(newEnd, newEnd);
  }

  /** On a page that `b` touches and will not span, the parent's number is right iff the parent
      spans that page. */
  lemma TouchedPageAfterResize(f: Forest, b: nat, x: nat, y: nat, p: nat, n: nat)
    requires WellNested(f) && CanResize(f, b, x, y) && PageEntry(f, p, n)
    requires f[b].begin < PageHi(p) && PageLo(p) < f[b].end
    requires !SpansPage(f[b].(begin := x, end := y), p)
    ensures EntryAfterResize(f, b, x, y, p, n) == f[b].parent <==> ParentSpans(f, f[b].parent, p)
    ensures SpansPage(f[b], p) ==> ParentSpans(f, f[b].parent, p)
  {
    if SpansPage(f[b], p) {
      ParentSpansToo(f, b, p);
    } else {
      TouchedPage(f, b, p, n);
    }
  }

  /** Off the page that the new end is in, the patch always gives the entry demanded. */
  lemma TruncateEndElsewhere(f: Forest, pi: seq<nat>, b: nat, newEnd: nat, p: nat)
    requires WellNested(f) && CanTruncateEnd(f, b, newEnd) && p < |pi| && DownPage(f[b].end) <= |pi|
    requires p != DownPage(newEnd) || DownPage(f[b].end) <= p
    ensures TruncateEndPatch(f, pi, b, newEnd)[p] == EntryAfterResize(f, b, f[b].begin, newEnd, p, pi[p])
  {
    TruncateEndPage(f, b, newEnd, p);
  }

  lemma TouchesBefore(x: nat, e: nat, end: nat)
    requires x < e <= end && DownPage(e) < DownPage(end)
    ensures x < PageHi(DownPage(e)) && PageLo(DownPage(e)) < end
  {
    TouchAtEnd(x, e);
    assert e != end;
  }

  lemma FilledAt(pi: seq<nat>, lo: nat, hi: nat, v: nat, p: nat)
    requires lo <= p < hi <= |pi|
    ensures Fill(pi, lo, hi, v)[p] == v
  {
  }

  /** On the page that the new end is in, the patch gives the entry demanded under the exact condition. */
  lemma TruncateEndThere(f: Forest, pi: seq<nat>, b: nat, newEnd: nat, p: nat)
    requires WellNested(f) && CanTruncateEnd(f, b, newEnd) && p == DownPage(newEnd) < DownPage(f[b].end) <= |pi|
    requires PageEntry(f, p, pi[p])
    ensures TruncateEndPatch(f, pi, b, newEnd)[p] == EntryAfterResize(f, b, f[b].begin, newEnd, p, pi[p]) <==>
      ParentSpans(f, f[b].parent, p)
  {
    TouchesBefore(f[b].begin, newEnd, f[b].end);
    TruncateEndPage(f, b, newEnd, p);
    FilledAt(pi, p, DownPage(f[b].end), f[b].parent, p);
    TouchedPageAfterResize(f, b, f[b].begin, newEnd, p, pi[p]);
  }

  lemma TruncateEndEnough(f: Forest, b: nat, newEnd: nat)
    requires WellNested(f) && CanTruncateEnd(f, b, newEnd) && f[b].begin <= RoundDown(newEnd, PAGE_SIZE)
    ensures TruncateEndExact(f, b, newEnd)
  {
    RoundedBegin(f[b].begin, newEnd);
    if DownPage(newEnd) < DownPage(f[b].end) {
      TruncateEndPage(f, b, newEnd, DownPage(newEnd));
      ParentSpansToo(f, b, DownPage(newEnd));
    }
  }

  lemma TruncateEndAgreesIff(f: Forest, pi: seq<nat>, b: nat, newEnd: nat)
    requires WellNested(f) && Agrees(f, pi) && CanTruncateEnd(f, b, newEnd)
    ensures WellNested(Resized(f, b, f[b].begin, newEnd))
    ensures Agrees(Resized(f, b, f[b].begin, newEnd), TruncateEndPatch(f, pi, b, newEnd)) <==>
      TruncateEndExact(f, b, newEnd)
    ensures f[b].begin <= RoundDown(newEnd, PAGE_SIZE) ==> TruncateEndExact(f, b, newEnd)
  {
    var x, p0 := f[b].begin, DownPage(newEnd);
    var pi' := TruncateEndPatch(f, pi, b, newEnd);
    ResizeAgreesIff(f, pi, b, x, newEnd, pi');
    LimitPages(f[b].end);
    if x <= RoundDown(newEnd, PAGE_SIZE) {
      TruncateEndEnough(f, b, newEnd);
    }
    if p0 < DownPage(f[b].end) {
      assert PageEntry(f, p0, pi[p0]);
      TruncateEndThere(f, pi, b, newEnd, p0);
    }
    forall p | 0 <= p < |pi| && (p != p0 || DownPage(f[b].end) <= p)
      ensures pi'[p] == EntryAfterResize(f, b, x, newEnd, p, pi[p])
    {
      TruncateEndElsewhere(f, pi, b, newEnd, p);
    }
  }

  lemma TouchAtEnd(x: nat, e: nat)
    requires x < e
    ensures PageLo(DownPage(e)) <= e < PageHi(DownPage(e))
    ensures x < PageHi(DownPage(e))
  {
    DownPageIsPageNum(e);
  }

  ghost predicate CanTruncateBegin(f: Forest, b: nat, newBegin: nat) {
    b in f && f[b].begin <= newBegin && CanResize(f, b, newBegin, f[b].end)
  }

  function TruncateBeginPatch(f: Forest, pi: seq<nat>, b: nat, newBegin: nat): seq<nat>
    requires b in f
  {
    Fill(pi, UpPage(f[b].begin), UpPage(newBegin), f[b].parent)
  }

  predicate TruncateBeginExact(f: Forest, b: nat, newBegin: nat)
    requires b in f
  {
    UpPage(newBegin) <= UpPage(f[b].begin) || ParentSpans(f, f[b].parent, UpPage(newBegin) - 1)
  }

  lemma TruncateBeginPage(f: Forest, b: nat, newBegin: nat, p: nat)
    requires WellNested(f) && CanTruncateBegin(f, b, newBegin)
    ensures SpansPage(f[b], p) <==> UpPage(f[b].begin) <= p < DownPage(f[b].end)
    ensures SpansPage(f[b].(begin := newBegin, end := f[b].end), p) <==> UpPage(newBegin) <= p < DownPage(f[b].end)
    ensures UpPage(newBegin) <= DownPage(f[b].end) + 1
    ensures UpPage(f[b].begin) <= UpPage(newBegin)
  {
    SpanIsPageRange(f[b], p);
    SpanIsPageRange(f[b].(begin := newBegin, end := f[b].end), p);
    UpDownMonotone(f[b].begin, newBegin);
    UpDownMonotone(newBegin, f[b].end);
    UpDownMonotone(f[b].end, f[b].end);
  }

  lemma TouchAtBegin(x: nat)
    requires 0 < UpPage(x)
    ensures PageLo(UpPage(x) - 1) < x <= PageHi(UpPage(x) - 1)
  {
    PageGalois(x, UpPage(x) - 1);
    PageGalois(x, UpPage(x));
    PageBounds(UpPage(x) - 1);
  }

  lemma TouchAtBeginLow(x: nat, p: nat)
    requires UpPage(x) <= p
    ensures x < PageHi(p)
  {
    PageGalois(x, p);
    PageBounds(p);
  }

  lemma TruncateBeginAgreesIff(f: Forest, pi: seq<nat>, b: nat, newBegin: nat)
    requires WellNested(f) && Agrees(f, pi) && CanTruncateBegin(f, b, newBegin)
    ensures WellNested(Resized(f, b, newBegin, f[b].end))
    ensures Agrees(Resized(f, b, newBegin, f[b].end), TruncateBeginPatch(f, pi, b, newBegin)) <==>
      TruncateBeginExact(f, b, newBegin)
    ensures RoundUp(newBegin, PAGE_SIZE) <= f[b].end ==> TruncateBeginExact(f, b, newBegin)
  {
    var e := f[b].end;
    var pi' := TruncateBeginPatch(f, pi, b, newBegin);
    ResizeAgreesIff(f, pi, b, newBegin, e, pi');
    LimitPages(newBegin);
    RoundedUpEnd(newBegin, e);
    var p1 := UpPage(newBegin) as int - 1;
    if UpPage(f[b].begin) <= p1 {
      TruncateBeginPage(f, b, newBegin, p1);
      TouchAtBegin(newBegin);
      TouchAtBeginLow(f[b].begin, p1);
      TouchedPageAfterResize(f, b, newBegin, e, p1, pi[p1]);
    }
    forall p | 0 <= p < |pi| && p != p1
      ensures pi'[p] == EntryAfterResize(f, b, newBegin, e, p, pi[p])
    {
      TruncateBeginPage(f, b, newBegin, p);
    }
    if 0 <= p1 < UpPage(f[b].begin) {
      TruncateBeginPage(f, b, newBegin, p1);
    }
  }

  lemma UpPageBegins(x: nat)
    ensures PageLo(UpPage(x)) == RoundUp(x, PAGE_SIZE)
  {
    UpPageCases(x);
    DivModLaw(x, PAGE_SIZE);
  }

  lemma RoundedUpEnd(x: nat, e: nat)
    ensures UpPage(x) <= DownPage(e) <==> RoundUp(x, PAGE_SIZE) <= e
  {
    UpPageBegins(x);
    if 0 < UpPage(x) {
      PageGalois(e, UpPage(x) - 1);
      PageBounds(UpPage(x) - 1);
    }
  }
}
