/** What a build with assertions looks at while it writes the page index and afterwards, and which of the
    wrong writes it notices. */
module ForestChecks {
  import opened Pages
  import opened Forests
  import opened ForestOps
  import opened ForestMoves
  import opened ForestRuns

  lemma CreatePasses(f: Forest, pi: seq<nat>, b: nat, nd: Node)
    requires WellNested(f) && Agrees(f, pi) && CanCreate(f, b, nd)
    ensures DownPage(nd.end) <= |pi| && Passes(pi, UpPage(nd.begin), DownPage(nd.end), nd.parent)
  {
    CreateAgrees(f, pi, b, nd);
    LimitPages(nd.end);
  }

  lemma DeletePasses(f: Forest, pi: seq<nat>, b: nat)
    requires WellNested(f) && Agrees(f, pi) && b in f && Childless(f, b)
    ensures DownPage(f[b].end) <= |pi| && Passes(pi, UpPage(f[b].begin), DownPage(f[b].end), b)
  {
    LeafDeletePatch(f, pi, b);
    LimitPages(f[b].end);
  }

  /** A page that a node comes to span held its parent's number; one that it ceases to span held its own. */
  lemma GainedOrLost(f: Forest, pi: seq<nat>, b: nat, x: nat, y: nat, p: nat)
    requires WellNested(f) && Agrees(f, pi) && CanResize(f, b, x, y) && p < |pi|
    ensures SpansPage(f[b].(begin := x, end := y), p) && !SpansPage(f[b], p) ==> pi[p] == f[b].parent
    ensures !SpansPage(f[b].(begin := x, end := y), p) && SpansPage(f[b], p) ==> pi[p] == b
  {
    if SpansPage(f[b].(begin := x, end := y), p) && !SpansPage(f[b], p) {
      ResizeGained(f, b, x, y, p, pi[p]);
    } else if !SpansPage(f[b].(begin := x, end := y), p) && SpansPage(f[b], p) {
      ResizeLost(f, b, x, y, p, pi[p]);
    }
  }

  lemma PreExtendPasses(f: Forest, pi: seq<nat>, b: nat, newBegin: nat)
    requires WellNested(f) && Agrees(f, pi) && CanPreExtend(f, b, newBegin)
    ensures var hi := if PageNum(f[b].end) > PageNum(f[b].begin) then UpPage(f[b].begin) else DownPage(f[b].begin);
      hi <= |pi| && Passes(pi, UpPage(newBegin), hi, f[b].parent)
  {
    var x, e := f[b].begin, f[b].end;
    LimitPages(x);
    UpDownMonotone(x, e);
    DownPageIsPageNum(x);
    DownPageIsPageNum(e);
    forall p | UpPage(newBegin) <= p < UpPage(x) && p < DownPage(e)
      ensures p < |pi| && pi[p] == f[b].parent
    {
      SpanIsPageRange(f[b], p);
      SpanIsPageRange(f[b].(begin := newBegin, end := e), p);
      GainedOrLost(f, pi, b, newBegin, e, p);
    }
  }

  // ---------------------------------------------------------------- extend

  /** The check gets through unless the first page is one the node only touches, belongs to something, and
      not to the parent. */
  predicate ExtendPasses(f: Forest, pi: seq<nat>, b: nat, newEnd: nat)
    requires b in f
  {
    var p := DownPage(f[b].end);
    ExtendExact(f, b, newEnd) || ParentSpans(f, f[b].parent, p) || (p < |pi| && pi[p] == 0)
  }

  /** The check that is made. */
  predicate ExtendChecked(pi: seq<nat>, nd: Node, newEnd: nat) {
    DownPage(newEnd) <= |pi| && Passes(pi, DownPage(nd.end), DownPage(newEnd), nd.parent)
  }

  lemma ExtendPassesIff(f: Forest, pi: seq<nat>, b: nat, newEnd: nat)
    requires WellNested(f) && Agrees(f, pi) && CanExtend(f, b, newEnd)
    ensures ExtendChecked(pi, f[b], newEnd) <==> ExtendPasses(f, pi, b, newEnd)
  {
    var x, e := f[b].begin, f[b].end;
    var lo, hi := DownPage(e), DownPage(newEnd);
    LimitPages(newEnd);
    RoundedBegin(x, e);
    forall p | lo <= p < hi && UpPage(x) <= p
      ensures pi[p] == f[b].parent
    {
      SpanIsPageRange(f[b], p);
      SpanIsPageRange(f[b].(begin := x, end := newEnd), p);
      GainedOrLost(f, pi, b, x, newEnd, p);
    }
    if !ExtendExact(f, b, newEnd) {
      UpDownMonotone(x, e);
      TouchedAtOldEnd(f, pi, b, newEnd);
    }
  }

  lemma TouchedAtOldEnd(f: Forest, pi: seq<nat>, b: nat, newEnd: nat)
    requires WellNested(f) && Agrees(f, pi) && CanExtend(f, b, newEnd) && !ExtendExact(f, b, newEnd)
    requires DownPage(f[b].end) < |pi|
    ensures pi[DownPage(f[b].end)] == f[b].parent <==> ParentSpans(f, f[b].parent, DownPage(f[b].end))
    ensures UpPage(f[b].begin) == DownPage(f[b].end) + 1
  {
    var x, e, p := f[b].begin, f[b].end, DownPage(f[b].end);
    RoundedBegin(x, e);
    UpDownMonotone(x, e);
    UpDownMonotone(e, e);
    TouchAtEnd(x, e);
    SpanIsPageRange(f[b], p);
    PageGalois(x, p);
    assert PageLo(p) < x < e;
    TouchedPage(f, b, p, pi[p]);
  }

  // ---------------------------------------------------------------- truncate

  /** An entry is a node's number only if the node spans the page. */
  lemma HolderSpans(f: Forest, pi: seq<nat>, b: nat, p: nat)
    requires WellNested(f) && Agrees(f, pi) && b in f && p < |pi| && pi[p] == b
    ensures SpansPage(f[b], p)
  {
    assert PageEntry(f, p, pi[p]);
  }

  lemma TruncateEndHeld(f: Forest, pi: seq<nat>, b: nat, newEnd: nat, p: nat)
    requires WellNested(f) && Agrees(f, pi) && CanTruncateEnd(f, b, newEnd)
    requires DownPage(newEnd) <= p < DownPage(f[b].end) <= |pi|
    ensures pi[p] == b <==> UpPage(f[b].begin) <= p
    ensures p < UpPage(f[b].begin) ==> p == DownPage(newEnd)
  {
    TruncateEndPage(f, b, newEnd, p);
    GainedOrLost(f, pi, b, f[b].begin, newEnd, p);
    if pi[p] == b {
      HolderSpans(f, pi, b, p);
    }
  }

  /** The check gets through unless the lowest page is one the node only touches and is not empty. */
  predicate TruncateEndPasses(f: Forest, pi: seq<nat>, b: nat, newEnd: nat)
    requires b in f
  {
    var p := DownPage(newEnd);
    DownPage(f[b].end) <= p || f[b].begin <= RoundDown(newEnd, PAGE_SIZE) || (p < |pi| && pi[p] == 0)
  }

  predicate TruncateEndChecked(pi: seq<nat>, nd: Node, b: nat, newEnd: nat) {
    DownPage(nd.end) <= |pi| && Passes(pi, DownPage(newEnd), DownPage(nd.end), b)
  }

  lemma TruncateEndPassesIff(f: Forest, pi: seq<nat>, b: nat, newEnd: nat)
    requires WellNested(f) && Agrees(f, pi) && CanTruncateEnd(f, b, newEnd)
    ensures TruncateEndChecked(pi, f[b], b, newEnd) <==> TruncateEndPasses(f, pi, b, newEnd)
  {
    var lo, hi := DownPage(newEnd), DownPage(f[b].end);
    LimitPages(f[b].end);
    RoundedBegin(f[b].begin, newEnd);
    forall p | lo <= p < hi
      ensures pi[p] == b <==> UpPage(f[b].begin) <= p
      ensures p < UpPage(f[b].begin) ==> p == lo
    {
      TruncateEndHeld(f, pi, b, newEnd, p);
    }
    OnePageOdd(pi, lo, hi, b, lo);
  }

  /** Page `p` is below `d` and held by `b`, or it is the last one and not held. */
  predicate HeldBelow(pi: seq<nat>, hi: nat, d: nat, b: nat, p: nat)
    requires p < |pi|
  {
    (pi[p] == b <==> p < d) && (d <= p ==> p == hi - 1)
  }

  lemma TruncateBeginHeld(f: Forest, pi: seq<nat>, b: nat, newBegin: nat, p: nat)
    requires WellNested(f) && Agrees(f, pi) && CanTruncateBegin(f, b, newBegin)
    requires UpPage(f[b].begin) <= p < UpPage(newBegin) <= |pi|
    ensures HeldBelow(pi, UpPage(newBegin), DownPage(f[b].end), b, p)
  {
    TruncateBeginPage(f, b, newBegin, p);
    GainedOrLost(f, pi, b, newBegin, f[b].end, p);
    if pi[p] == b {
      HolderSpans(f, pi, b, p);
    }
  }

  lemma TruncateBeginPagesPass(f: Forest, pi: seq<nat>, b: nat, newBegin: nat)
    requires WellNested(f) && Agrees(f, pi) && CanTruncateBegin(f, b, newBegin) && UpPage(newBegin) <= |pi|
    requires UpPage(f[b].begin) < UpPage(newBegin)
    ensures var lo, hi := UpPage(f[b].begin), UpPage(newBegin);
      Passes(pi, lo, hi, b) <==> hi <= DownPage(f[b].end) || pi[hi - 1] == 0
  {
    var lo, hi := UpPage(f[b].begin), UpPage(newBegin);
    forall p | lo <= p < hi
      ensures HeldBelow(pi, hi, DownPage(f[b].end), b, p)
    {
      TruncateBeginHeld(f, pi, b, newBegin, p);
    }
    OddAtTop(pi, lo, hi, DownPage(f[b].end), b);
  }

  lemma OddAtTop(pi: seq<nat>, lo: nat, hi: nat, d: nat, b: nat)
    requires lo < hi <= |pi| && b != 0
    requires forall p :: lo <= p < hi ==> HeldBelow(pi, hi, d, b, p)
    ensures Passes(pi, lo, hi, b) <==> hi <= d || pi[hi - 1] == 0
  {
    assert HeldBelow(pi, hi, d, b, hi - 1);
    forall p | lo <= p < hi && p != hi - 1
      ensures pi[p] == b
    {
      assert HeldBelow(pi, hi, d, b, p);
    }
    OnePageOdd(pi, lo, hi, b, hi - 1);
  }

  /** The same at the beginning, for the highest page. */
  predicate TruncateBeginPasses(f: Forest, pi: seq<nat>, b: nat, newBegin: nat)
    requires b in f
  {
    var p := UpPage(newBegin) - 1;
    p < UpPage(f[b].begin) || RoundUp(newBegin, PAGE_SIZE) <= f[b].end || (p < |pi| && pi[p] == 0)
  }

  predicate TruncateBeginChecked(pi: seq<nat>, nd: Node, b: nat, newBegin: nat) {
    UpPage(newBegin) <= |pi| && Passes(pi, UpPage(nd.begin), UpPage(newBegin), b)
  }

  lemma TruncateBeginPassesIff(f: Forest, pi: seq<nat>, b: nat, newBegin: nat)
    requires WellNested(f) && Agrees(f, pi) && CanTruncateBegin(f, b, newBegin)
    ensures TruncateBeginChecked(pi, f[b], b, newBegin) <==> TruncateBeginPasses(f, pi, b, newBegin)
  {
    LimitPages(newBegin);
    RoundedUpEnd(newBegin, f[b].end);
    if UpPage(f[b].begin) < UpPage(newBegin) {
      TruncateBeginPagesPass(f, pi, b, newBegin);
    }
  }

  /** When all entries but one are the number expected, that one decides. */
  lemma OnePageOdd(pi: seq<nat>, lo: nat, hi: nat, b: nat, p: nat)
    requires hi <= |pi| && b != 0 && forall q :: lo <= q < hi && q != p ==> pi[q] == b
    ensures Passes(pi, lo, hi, b) <==> !(lo <= p < hi) || pi[p] == 0 || pi[p] == b
  {
    if lo <= p < hi {
      assert Looked(lo, hi, b, p);
    }
  }

  // With page-aligned mappings, no truncation that makes the index wrong gets through.

  lemma TruncateEndNoticed(f: Forest, pi: seq<nat>, b: nat, newEnd: nat)
    requires WellNested(f) && Agrees(f, pi) && CanTruncateEnd(f, b, newEnd) && TopAligned(f)
    ensures TruncateEndPasses(f, pi, b, newEnd) ==> TruncateEndExact(f, b, newEnd)
  {
    if f[b].begin <= RoundDown(newEnd, PAGE_SIZE) {
      TruncateEndEnough(f, b, newEnd);
    } else if DownPage(newEnd) < DownPage(f[b].end) {
      EndIsNotEmpty(f, pi, b, newEnd);
    }
  }

  lemma EndIsNotEmpty(f: Forest, pi: seq<nat>, b: nat, newEnd: nat)
    requires WellNested(f) && Agrees(f, pi) && CanTruncateEnd(f, b, newEnd) && TopAligned(f)
    requires DownPage(newEnd) < DownPage(f[b].end)
    ensures DownPage(newEnd) < |pi| && pi[DownPage(newEnd)] != 0
  {
    assert newEnd != f[b].end;
    DownPageIsPageNum(newEnd);
    TouchedIsNotEmpty(f, pi, b, newEnd);
  }

  lemma TouchedIsNotEmpty(f: Forest, pi: seq<nat>, b: nat, a: nat)
    requires WellNested(f) && Agrees(f, pi) && TopAligned(f) && b in f && f[b].begin <= a < f[b].end
    ensures PageNum(a) < |pi| && pi[PageNum(a)] != 0
  {
    LimitPages(a);
    assert PageEntry(f, PageNum(a), pi[PageNum(a)]);
    EntryZeroIff(f, a, pi[PageNum(a)]);
    assert Contains(f[b], a);
  }

  lemma TruncateBeginNoticed(f: Forest, pi: seq<nat>, b: nat, newBegin: nat)
    requires WellNested(f) && Agrees(f, pi) && CanTruncateBegin(f, b, newBegin) && TopAligned(f)
    ensures TruncateBeginPasses(f, pi, b, newBegin) ==> TruncateBeginExact(f, b, newBegin)
  {
    if UpPage(f[b].begin) < UpPage(newBegin) {
      BeginIsNotEmpty(f, pi, b, newBegin);
      TruncateBeginAgreesIff(f, pi, b, newBegin);
    }
  }

  lemma BeginIsNotEmpty(f: Forest, pi: seq<nat>, b: nat, newBegin: nat)
    requires WellNested(f) && Agrees(f, pi) && CanTruncateBegin(f, b, newBegin) && TopAligned(f)
    requires UpPage(f[b].begin) < UpPage(newBegin)
    ensures UpPage(newBegin) <= |pi| && pi[UpPage(newBegin) - 1] != 0
  {
    LowerPage(f[b].begin, newBegin);
    var p := BeginHeld(f, pi, b, newBegin, UpPage(newBegin));
  }

  lemma LowerPage(x: nat, y: nat)
    requires x <= y && UpPage(x) < UpPage(y)
    ensures x < y
  {
  }

  lemma BeginHeld(f: Forest, pi: seq<nat>, b: nat, newBegin: nat, q: nat) returns (p: nat)
    requires WellNested(f) && Agrees(f, pi) && TopAligned(f) && b in f && f[b].begin < newBegin <= f[b].end
    requires 0 < q == UpPage(newBegin)
    ensures p + 1 == q && p < |pi| && pi[p] != 0
  {
    var a;
    a, p := PageBelow(newBegin);
    HeldPage(f, pi, b, a, p);
  }

  lemma HeldPage(f: Forest, pi: seq<nat>, b: nat, a: nat, p: nat)
    requires WellNested(f) && Agrees(f, pi) && TopAligned(f) && b in f && f[b].begin <= a < f[b].end && PageNum(a) == p
    ensures p < |pi| && pi[p] != 0
  {
    TouchedIsNotEmpty(f, pi, b, a);
  }

  lemma PageBelow(x: nat) returns (a: nat, p: nat)
    requires 0 < UpPage(x)
    ensures a + 1 == x && p + 1 == UpPage(x) && PageNum(a) == p
  {
    a, p := x - 1, UpPage(x) - 1;
    TouchAtBegin(x);
    PageOfAddress(a, p);
  }

  // ---------------------------------------------------------------- the check afterwards

  /** The pages just before a node's beginning and at its end do not carry its number. */
  ghost predicate Sane(pi: seq<nat>, nd: Node, b: nat)
    requires 0 < nd.begin
  {
    && (PageNum(nd.begin - 1) < |pi| ==> pi[PageNum(nd.begin - 1)] != b)
    && (PageNum(nd.end) < |pi| ==> pi[PageNum(nd.end)] != b)
  }

  /** A right index is sane. */
  lemma AgreeingIsSane(f: Forest, pi: seq<nat>, b: nat)
    requires WellNested(f) && Agrees(f, pi) && b in f
    ensures Sane(pi, f[b], b)
  {
    NotOutside(f, pi, b, f[b].begin - 1);
    NotOutside(f, pi, b, f[b].end);
  }

  lemma NotOutside(f: Forest, pi: seq<nat>, b: nat, a: nat)
    requires WellNested(f) && Agrees(f, pi) && b in f && !(f[b].begin <= a < f[b].end)
    ensures PageNum(a) < |pi| ==> pi[PageNum(a)] != b
  {
    DownPageIsPageNum(a);
    assert PageNum(a) < |pi| ==> PageEntry(f, PageNum(a), pi[PageNum(a)]);
  }

  lemma PageBeforeBegin(x: nat, p: nat, e: nat)
    requires UpPage(x) == p + 1 && p == DownPage(e) && x < e
    ensures 0 < x && PageNum(x - 1) == p
  {
    PageGalois(x, p);
    TouchAtEnd(x, e);
    PageOfAddress(x - 1, p);
  }

  lemma ExtendInsane(f: Forest, pi: seq<nat>, b: nat, newEnd: nat)
    requires WellNested(f) && Agrees(f, pi) && CanExtend(f, b, newEnd) && !ExtendExact(f, b, newEnd)
    ensures !Sane(ExtendPatch(f, pi, b, newEnd), f[b].(end := newEnd), b)
  {
    LimitPages(newEnd);
    TouchedAtOldEnd(f, pi, b, newEnd);
    PageBeforeBegin(f[b].begin, DownPage(f[b].end), f[b].end);
  }

  /** After an extension the check succeeds if and only if the index is right. */
  lemma ExtendSaneIff(f: Forest, pi: seq<nat>, b: nat, newEnd: nat)
    requires WellNested(f) && Agrees(f, pi) && CanExtend(f, b, newEnd)
    ensures Sane(ExtendPatch(f, pi, b, newEnd), f[b].(end := newEnd), b) <==> ExtendExact(f, b, newEnd)
  {
    if ExtendExact(f, b, newEnd) {
      ExtendAgreesIff(f, pi, b, newEnd);
      AgreeingIsSane(Resized(f, b, f[b].begin, newEnd), ExtendPatch(f, pi, b, newEnd), b);
    } else {
      ExtendInsane(f, pi, b, newEnd);
    }
  }

  lemma PageOfAddress(a: nat, p: nat)
    requires PageLo(p) <= a < PageHi(p)
    ensures PageNum(a) == p
  {
    DownPageIsPageNum(a);
    MulMonotone(PageNum(a) + 1, p, PAGE_SIZE);
    MulMonotone(p + 1, PageNum(a), PAGE_SIZE);
  }

  /** After a split the check of the first half succeeds if and only if the index is right, and so the check
      of the second then does too. */
  lemma SplitSaneIff(f: Forest, pi: seq<nat>, b: nat, half: nat, at: nat)
    requires WellNested(f) && Agrees(f, pi) && CanSplit(f, b, half, at)
    ensures var g, pi' := SplitForest(f, b, half, at), SplitPatch(f, pi, b, half, at);
      && (Sane(pi', g[b], b) <==> SplitExact(f, b, at))
      && (SplitExact(f, b, at) ==> Sane(pi', g[half], half))
  {
    var g, pi' := SplitForest(f, b, half, at), SplitPatch(f, pi, b, half, at);
    SplitWellNested(f, b, half, at);
    if SplitExact(f, b, at) {
      SplitAgreesIff(f, pi, b, half, at);
      AgreeingIsSane(g, pi', b);
      AgreeingIsSane(g, pi', half);
    } else {
      SplitInsane(f, pi, b, half, at);
    }
  }

  lemma SplitInsane(f: Forest, pi: seq<nat>, b: nat, half: nat, at: nat)
    requires WellNested(f) && Agrees(f, pi) && CanSplit(f, b, half, at) && !SplitExact(f, b, at)
    ensures !Sane(SplitPatch(f, pi, b, half, at), f[b].(end := at), b)
  {
    var p := PageNum(at);
    LimitPages(at);
    SplitPageSide(at, p);
    SplitEntryStraddled(f, b, half, at, p, pi[p]);
    assert pi[p] == b && p < UpPage(at);
  }
}
