/** Concrete trees on which a page patch goes wrong, one per operation that has such a case. */
module ForestExamples {
  import opened Pages
  import opened Forests
  import opened ForestOps
  import opened ForestMoves
  import opened ForestChecks
  import opened ForestSweep
  import opened BigallocRanges

  lemma SmallMultiples()
    requires 4 <= PAGE_SIZE && 4 <= NPAGES
    ensures PageLo(1) == PAGE_SIZE && PageHi(1) == PageLo(2) == 2 * PAGE_SIZE && PageHi(2) == PageLo(3) == 3 * PAGE_SIZE
    ensures PageLo(3) < AddressLimit()
  {
    MulMonotone(3, NPAGES, PAGE_SIZE);
  }

  lemma PageOf(a: nat, p: nat)
    requires PageLo(p) <= a < PageHi(p)
    ensures PageNum(a) == DownPage(a) == p && UpPage(a) == if a == PageLo(p) then p else p + 1
  {
    DownPageIsPageNum(a);
    PageOfAddress(a, p);
    PageGalois(a, p);
    PageGalois(a, p + 1);
    UpPageCases(a);
    DivModLaw(a, PAGE_SIZE);
  }

  /** A child beginning and ending inside one page, extended to the end of its mapping: the page it
      begins in is written although the child does not span it. */
  function ExtendTree(lo: nat, hi: nat): Forest {
    map[1 := Node(lo, hi, 0, 1, 0, 0), 2 := Node(lo + 1, lo + 2, 1, 2, 0, 0)]
  }

  lemma ExtendTreeNests(lo: nat, hi: nat)
    requires 0 < lo && lo + 2 <= hi <= AddressLimit()
    ensures WellNested(ExtendTree(lo, hi)) && CanExtend(ExtendTree(lo, hi), 2, hi)
  {
  }

  lemma ExtendNotExact()
    requires 4 <= PAGE_SIZE && 4 <= NPAGES
    ensures var f := ExtendTree(PageLo(1), PageLo(3));
      WellNested(f) && CanExtend(f, 2, PageLo(3)) && !ExtendExact(f, 2, PageLo(3)) && ParentSpans(f, 1, 1)
    ensures DownPage(PageLo(1) + 2) == 1
  {
    SmallMultiples();
    ExtendTreeNests(PageLo(1), PageLo(3));
    PageOf(PageLo(1) + 2, 1);
    PageOf(PageLo(1) + 1, 1);
    PageBounds(3);
    PageOf(PageLo(3), 3);
    RoundedBegin(PageLo(1) + 1, PageLo(1) + 2);
  }

  /** The check of old entries lets this one pass, and the check afterwards does not. */
  lemma ExtendGoesWrong() returns (pi: seq<nat>)
    requires 4 <= PAGE_SIZE && 4 <= NPAGES
    ensures var f := ExtendTree(PageLo(1), PageLo(3));
      && WellNested(f) && Agrees(f, pi) && CanExtend(f, 2, PageLo(3))
      && !Agrees(Resized(f, 2, f[2].begin, PageLo(3)), ExtendPatch(f, pi, 2, PageLo(3)))
      && ExtendPasses(f, pi, 2, PageLo(3)) && !Sane(ExtendPatch(f, pi, 2, PageLo(3)), f[2].(end := PageLo(3)), 2)
  {
    var f := ExtendTree(PageLo(1), PageLo(3));
    ExtendNotExact();
    pi := HasIndex(f);
    ExtendAgreesIff(f, pi, 2, PageLo(3));
    ExtendSaneIff(f, pi, 2, PageLo(3));
  }

  /** Three nested bigallocs, the inner two with the same range. */
  function TruncateTree(lo: nat, hi: nat, x: nat, y: nat): Forest {
    map[1 := Node(lo, hi, 0, 1, 0, 0), 2 := Node(x, y, 1, 2, 0, 0), 3 := Node(x, y, 2, 3, 0, 0)]
  }

  lemma TruncateTreeNests(lo: nat, hi: nat, x: nat, y: nat, x': nat, y': nat)
    requires 0 < lo <= x <= x' < y' <= y <= hi <= AddressLimit()
    ensures WellNested(TruncateTree(lo, hi, x, y)) && CanResize(TruncateTree(lo, hi, x, y), 3, x', y')
  {
    ThreeNest(TruncateTree(lo, hi, x, y));
    ThreeResize(TruncateTree(lo, hi, x, y), x', y');
  }

  /** Three ranges, each inside the one before. */
  ghost predicate Three(f: Forest) {
    && f.Keys == {1, 2, 3} && f[1].parent == 0 && f[2].parent == 1 && f[3].parent == 2
    && f[1].depth == 1 && f[2].depth == 2 && f[3].depth == 3
    && 0 < f[1].begin <= f[2].begin <= f[3].begin < f[3].end <= f[2].end <= f[1].end <= AddressLimit()
  }

  lemma ThreeInRange(f: Forest)
    requires Three(f)
    ensures InRange(f) && SiblingsApart(f)
  {
  }

  lemma ThreeNested(f: Forest)
    requires Three(f)
    ensures Nested(f)
  {
  }

  lemma ThreeNest(f: Forest)
    requires Three(f)
    ensures WellNested(f)
  {
    ThreeInRange(f);
    ThreeNested(f);
  }

  lemma ThreeResize(f: Forest, x: nat, y: nat)
    requires Three(f) && f[2].begin <= x < y <= f[2].end
    ensures CanResize(f, 3, x, y)
  {
  }

  /** The inner two begin inside a page; the innermost is cut down within it, and the parent's number
      is written on that page although the parent does not span it. */
  lemma TruncateEndNotExact()
    requires 4 <= PAGE_SIZE && 4 <= NPAGES
    ensures var f := TruncateTree(PageLo(1), PageLo(3), PageLo(1) + 1, PageLo(3));
      WellNested(f) && CanTruncateEnd(f, 3, PageLo(1) + 2) && !TruncateEndExact(f, 3, PageLo(1) + 2)
  {
    SmallMultiples();
    TruncateTreeNests(PageLo(1), PageLo(3), PageLo(1) + 1, PageLo(3), PageLo(1) + 1, PageLo(1) + 2);
    PageOf(PageLo(1) + 2, 1);
    PageBounds(3);
    PageOf(PageLo(3), 3);
  }

  lemma TruncateTreeAligned(x: nat, y: nat)
    ensures TopAligned(TruncateTree(PageLo(1), PageLo(3), x, y))
  {
    PageLoAligned(1);
    PageLoAligned(3);
  }

  lemma TruncateEndGoesWrong() returns (pi: seq<nat>)
    requires 4 <= PAGE_SIZE && 4 <= NPAGES
    ensures var f, newEnd := TruncateTree(PageLo(1), PageLo(3), PageLo(1) + 1, PageLo(3)), PageLo(1) + 2;
      && WellNested(f) && Agrees(f, pi) && CanTruncateEnd(f, 3, newEnd)
      && !Agrees(Resized(f, 3, f[3].begin, newEnd), TruncateEndPatch(f, pi, 3, newEnd))
      && !TruncateEndPasses(f, pi, 3, newEnd)
  {
    var f, newEnd := TruncateTree(PageLo(1), PageLo(3), PageLo(1) + 1, PageLo(3)), PageLo(1) + 2;
    TruncateEndNotExact();
    TruncateTreeAligned(PageLo(1) + 1, PageLo(3));
    pi := HasIndex(f);
    TruncateEndAgreesIff(f, pi, 3, newEnd);
    TruncateEndNoticed(f, pi, 3, newEnd);
  }

  lemma TruncateBeginNotExact()
    requires 4 <= PAGE_SIZE && 4 <= NPAGES
    ensures var f := TruncateTree(PageLo(1), PageLo(3), PageLo(1), PageLo(3) - 1);
      WellNested(f) && CanTruncateBegin(f, 3, PageLo(3) - 2) && !TruncateBeginExact(f, 3, PageLo(3) - 2)
  {
    SmallMultiples();
    TruncateTreeNests(PageLo(1), PageLo(3), PageLo(1), PageLo(3) - 1, PageLo(3) - 2, PageLo(3) - 1);
    PageOf(PageLo(3) - 2, 2);
    PageOf(PageLo(1), 1);
  }

  /** The same at the other end. */
  lemma TruncateBeginGoesWrong() returns (pi: seq<nat>)
    requires 4 <= PAGE_SIZE && 4 <= NPAGES
    ensures var f, newBegin := TruncateTree(PageLo(1), PageLo(3), PageLo(1), PageLo(3) - 1), PageLo(3) - 2;
      && WellNested(f) && Agrees(f, pi) && CanTruncateBegin(f, 3, newBegin)
      && !Agrees(Resized(f, 3, newBegin, f[3].end), TruncateBeginPatch(f, pi, 3, newBegin))
      && !TruncateBeginPasses(f, pi, 3, newBegin)
  {
    SmallMultiples();
    var f, newBegin := TruncateTree(PageLo(1), PageLo(3), PageLo(1), PageLo(3) - 1), PageLo(3) - 2;
    TruncateBeginNotExact();
    TruncateTreeAligned(PageLo(1), PageLo(3) - 1);
    pi := HasIndex(f);
    TruncateBeginAgreesIff(f, pi, 3, newBegin);
    TruncateBeginNoticed(f, pi, 3, newBegin);
  }

  function OneMapping(): Forest {
    map[1 := Node(PageLo(1), PageLo(2), 0, 1, 0, 0)]
  }

  lemma SplitNotExact()
    requires 4 <= PAGE_SIZE && 4 <= NPAGES
    ensures WellNested(OneMapping()) && CanSplit(OneMapping(), 1, 2, PageLo(1) + 1)
    ensures !SplitExact(OneMapping(), 1, PageLo(1) + 1)
  {
    SmallMultiples();
    PageOf(PageLo(1) + 1, 1);
    DivModLaw(PageLo(1) + 1, PAGE_SIZE);
  }

  /** One mapping of one page, split in the middle of it. */
  lemma SplitGoesWrong() returns (pi: seq<nat>)
    requires 4 <= PAGE_SIZE && 4 <= NPAGES
    ensures var f, at := OneMapping(), PageLo(1) + 1;
      && WellNested(f) && Agrees(f, pi) && CanSplit(f, 1, 2, at)
      && !Agrees(SplitForest(f, 1, 2, at), SplitPatch(f, pi, 1, 2, at))
      && !Sane(SplitPatch(f, pi, 1, 2, at), f[1].(end := at), 1)
  {
    SplitNotExact();
    pi := HasIndex(OneMapping());
    SplitAgreesIff(OneMapping(), pi, 1, 2, PageLo(1) + 1);
    SplitInsane(OneMapping(), pi, 1, 2, PageLo(1) + 1);
  }

  /** Two mappings of one page each, with a page between them. */
  function TwoMappings(): Forest {
    map[1 := Node(PageLo(2), PageLo(3), 0, 1, 0, 0), 2 := Node(PageLo(4), PageLo(5), 0, 1, 0, 0)]
  }

  function TwoEntries(): seq<nat> {
    seq(NPAGES, p => if p == 2 then 1 else if p == 4 then 2 else 0)
  }

  lemma Ascend(p: nat, q: nat)
    requires p < q
    ensures PageLo(p) < PageHi(p) <= PageLo(q)
  {
    PageBounds(p);
    MulMonotone(p + 1, q, PAGE_SIZE);
  }

  /** Two top-level ranges, one after the other. */
  ghost predicate Two(f: Forest) {
    && f.Keys == {1, 2} && f[1].parent == 0 && f[2].parent == 0 && f[1].depth == 1 && f[2].depth == 1
    && 0 < f[1].begin < f[1].end <= f[2].begin < f[2].end <= AddressLimit()
  }

  lemma TwoNest(f: Forest)
    requires Two(f)
    ensures WellNested(f)
  {
    assert InRange(f);
    assert Nested(f);
    assert SiblingsApart(f);
  }

  lemma PageLoAligned(p: nat)
    ensures PageLo(p) % PAGE_SIZE == 0
  {
    DivOfMultiple(p, 0, PAGE_SIZE);
    DivModLaw(PageLo(p), PAGE_SIZE);
  }

  lemma TwoInOrder()
    requires 6 <= NPAGES
    ensures 0 < PageLo(2) < PageLo(3) <= PageLo(4) < PageLo(5) <= AddressLimit()
  {
    Ascend(0, 2);
    Ascend(2, 3);
    Ascend(3, 4);
    Ascend(4, 5);
    MulMonotone(5, NPAGES, PAGE_SIZE);
  }

  lemma TwoMappingsNest()
    requires 6 <= NPAGES
    ensures WellNested(TwoMappings()) && TopAligned(TwoMappings())
  {
    TwoInOrder();
    TwoNest(TwoMappings());
    PageLoAligned(2);
    PageLoAligned(3);
    PageLoAligned(4);
    PageLoAligned(5);
  }

  lemma OnePageSpans(q: nat, p: nat, nd: Node)
    requires nd.begin == PageLo(q) && nd.end == PageLo(q + 1)
    ensures SpansPage(nd, p) <==> p == q
  {
    PageBounds(p);
    if p < q {
      Ascend(p, q);
    } else if q < p {
      Ascend(q, p);
    }
  }

  lemma EntryOfTwo(f: Forest, p: nat, p1: nat, p2: nat)
    requires Two(f) && p1 != p2
    requires SpansPage(f[1], p) <==> p == p1
    requires SpansPage(f[2], p) <==> p == p2
    ensures PageEntry(f, p, if p == p1 then 1 else if p == p2 then 2 else 0)
  {
  }

  lemma TwoEntriesAgree()
    requires 6 <= NPAGES
    ensures Agrees(TwoMappings(), TwoEntries())
  {
    TwoInOrder();
    forall p | 0 <= p < NPAGES
      ensures PageEntry(TwoMappings(), p, TwoEntries()[p])
    {
      OnePageSpans(2, p, TwoMappings()[1]);
      OnePageSpans(4, p, TwoMappings()[2]);
      EntryOfTwo(TwoMappings(), p, 2, 4);
    }
  }

  /** The range from the second byte of page 1 to the first byte of page 2 touches the first mapping, and
      the deletion steps over it. */
  lemma DeleteRangeGoesWrong()
    requires 2 <= PAGE_SIZE && 6 <= NPAGES
    ensures var f, begin, end := TwoMappings(), PageLo(1) + 1, PageLo(2) + 1;
      && WellNested(f) && TopAligned(f) && Agrees(f, TwoEntries()) && StartSpared(2, f, begin, end)
      && UpPage(end) <= NPAGES && SkipsLastPage(TwoEntries(), begin, end) && Swept(f, begin, end) != f
  {
    var begin, end := PageLo(1) + 1, PageLo(2) + 1;
    TwoMappingsNest();
    TwoEntriesAgree();
    TwoInOrder();
    EndsOfRange();
    SecondSpared();
    SkipsPageTwo();
    SkipLosesTree(TwoMappings(), TwoEntries(), begin, end);
  }

  lemma SecondSpared()
    requires 2 <= PAGE_SIZE && 6 <= NPAGES
    ensures StartSpared(2, TwoMappings(), PageLo(1) + 1, PageLo(2) + 1)
  {
    EndsOfRange();
  }

  lemma SkipsPageTwo()
    requires 2 <= PAGE_SIZE && 6 <= NPAGES
    ensures SkipsLastPage(TwoEntries(), PageLo(1) + 1, PageLo(2) + 1)
  {
    EndsOfRange();
  }

  lemma EndsOfRange()
    requires 2 <= PAGE_SIZE && 6 <= NPAGES
    ensures var begin, end := PageLo(1) + 1, PageLo(2) + 1;
      && begin < end && end < PageLo(4)
      && PageNum(begin) == 1 && PageNum(end - 1) == 2 && UpPage(end) == 3
      && begin % PAGE_SIZE != 0 && (end - 1) % PAGE_SIZE == 0
  {
    Ascend(1, 2);
    Ascend(2, 3);
    Ascend(3, 4);
    PageOf(PageLo(1) + 1, 1);
    PageOf(PageLo(2), 2);
    PageOf(PageLo(2) + 1, 2);
    DivModLaw(PageLo(1) + 1, PAGE_SIZE);
    PageLoAligned(2);
  }

  /** Both mappings lie above page 1, so the first of them is the lowest at or above it; but none begins
      below it, and so nothing is returned. */
  lemma MappingAboveMissed()
    requires 6 <= NPAGES
    ensures var f := TwoMappings();
      WellNested(f) && !SomeBeginsBelow(f, PageLo(1)) && LowestAtOrAbove(f, PageLo(1), 1) &&
        !LowestAtOrAbove(f, PageLo(1), 0)
  {
    TwoMappingsNest();
    TwoInOrder();
    Ascend(1, 2);
    FirstOfTwo(TwoMappings(), PageLo(1));
  }

  lemma FirstOfTwo(f: Forest, addr: nat)
    requires Two(f) && addr <= f[1].begin
    ensures !SomeBeginsBelow(f, addr) && LowestAtOrAbove(f, addr, 1) && !LowestAtOrAbove(f, addr, 0)
  {
    assert IsMapping(f, 1);
  }
}
