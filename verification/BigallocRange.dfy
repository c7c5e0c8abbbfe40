/** Operations on ranges of addresses: neighbouring mappings, creation under the right parent,
    and deletion by address or by range. */
module BigallocRanges {
  import opened Pages
  import opened Forests
  import opened ForestOps
  import opened ForestMoves
  import opened ForestRuns
  import opened ForestSweep
  import opened Lists
  import opened Links
  import opened Table
  import opened BigallocTables
  import opened BigallocLookups

  // ---------------------------------------------------------------- neighbouring mappings

  ghost predicate IsMapping(f: Forest, r: nat) {
    r in f && f[r].parent == 0
  }

  /** `r` is the lowest mapping with a byte at or above `addr`, or 0. */
  ghost predicate LowestAtOrAbove(f: Forest, addr: nat, r: nat) {
    if r == 0 then forall m :: IsMapping(f, m) ==> f[m].end <= addr
    else
      && IsMapping(f, r) && addr < f[r].end
      && forall m :: IsMapping(f, m) && addr < f[m].end ==> f[r].begin <= f[m].begin
  }

  /** `r` is the highest mapping lying entirely below `addr`, or 0. */
  ghost predicate HighestBelow(f: Forest, addr: nat, r: nat) {
    if r == 0 then forall m :: IsMapping(f, m) ==> addr < f[m].end
    else
      && IsMapping(f, r) && f[r].end <= addr
      && forall m :: IsMapping(f, m) && f[m].end <= addr ==> f[m].begin <= f[r].begin
  }

  ghost predicate SomeBeginsBelow(f: Forest, addr: nat) {
    exists m :: IsMapping(f, m) && f[m].begin < addr
  }

  /** The list `ks` of records is the list of the mappings, in order. */
  ghost predicate ListsMappings(f: Forest, rs: seq<Record>, ks: seq<nat>) {
    && (forall i :: 0 <= i < |ks| ==> 0 < ks[i] < |rs|)
    && Ordered(rs, ks)
    && (forall i :: 0 <= i < |ks| ==>
      IsMapping(f, ks[i]) && f[ks[i]].begin == rs[ks[i]].begin && f[ks[i]].end == rs[ks[i]].end)
    && (forall m :: IsMapping(f, m) ==> m in ks)
  }

  lemma TopIsListed(t: BigallocTable)
    requires t.Tree() && Ordered(t.recs[..], t.kids[0])
    ensures ListsMappings(t.Forest(), t.recs[..], t.kids[0])
  {
    forall i | 0 <= i < |t.kids[0]|
      ensures 0 < t.kids[0][i] < |t.recs[..]| && IsMapping(t.Forest(), t.kids[0][i])
    {
      ChildAt(t.recs[..], t.kids, t.depth, 0, i);
    }
    forall m | IsMapping(t.Forest(), m)
      ensures m in t.kids[0]
    {
      var i := ChildListed(t.recs[..], t.kids, t.depth, 0, m);
    }
  }

  lemma SlotIsLowest(f: Forest, rs: seq<Record>, ks: seq<nat>, addr: nat, k: nat)
    requires ListsMappings(f, rs, ks) && Slot(rs, ks, k, addr)
    ensures LowestAtOrAbove(f, addr, At(ks, k))
  {
    forall m | IsMapping(f, m)
      ensures if k == |ks| then f[m].end <= addr else addr < f[m].end ==> f[ks[k]].begin <= f[m].begin
    {
      var i :| 0 <= i < |ks| && ks[i] == m;
    }
  }

  lemma BeginsBelowIff(f: Forest, rs: seq<Record>, ks: seq<nat>, addr: nat, k: nat)
    requires ListsMappings(f, rs, ks) && BeginsSlot(rs, ks, k, addr)
    ensures SomeBeginsBelow(f, addr) <==> k > 0
  {
    if k > 0 {
      assert IsMapping(f, ks[k - 1]);
    }
    if SomeBeginsBelow(f, addr) {
      var m :| IsMapping(f, m) && f[m].begin < addr;
      var i :| 0 <= i < |ks| && ks[i] == m;
    }
  }

  lemma SpanningIsLowest(f: Forest, rs: seq<Record>, ks: seq<nat>, addr: nat, k: nat)
    requires ListsMappings(f, rs, ks) && BeginsSlot(rs, ks, k, addr) && k > 0 && addr < rs[ks[k - 1]].end
    requires Ascending(rs, ks)
    ensures LowestAtOrAbove(f, addr, ks[k - 1])
  {
    forall m | IsMapping(f, m) && addr < f[m].end
      ensures f[ks[k - 1]].begin <= f[m].begin
    {
      var i :| 0 <= i < |ks| && ks[i] == m;
    }
  }

  ghost predicate NoMapping(f: Forest) {
    forall m :: !IsMapping(f, m)
  }

  lemma NoneBelow(f: Forest, addr: nat)
    requires WellNested(f) && !SomeBeginsBelow(f, addr)
    ensures LowestAtOrAbove(f, addr, 0) <==> NoMapping(f)
  {
    forall m | IsMapping(f, m)
      ensures addr < f[m].end
    {
      assert !(f[m].begin < addr);
    }
  }

  /** The lowest mapping at or above `addr`, provided some mapping begins below `addr`; else 0. */
  method FindMappingAtOrAbove(t: BigallocTable, addr: nat) returns (r: nat)
    requires t.Valid()
    ensures !SomeBeginsBelow(t.Forest(), addr) ==> r == 0
    ensures LowestAtOrAbove(t.Forest(), addr, r) <==> SomeBeginsBelow(t.Forest(), addr) || NoMapping(t.Forest())
  {
    t.TopListHolds();
    var found;
    ghost var k;
    found, k := t.FindToplevelHighestLt(addr);
    TopIsListed(t);
    ghost var f, rs, ks := t.Forest(), t.recs[..], t.kids[0];
    BeginsBelowIff(f, rs, ks, addr, k);
    if found == 0 {
      NoneBelow(f, addr);
      return 0;
    }
    if t.recs[found].end <= addr {
      ghost var j;
      r, j := t.FindToplevelLowestGe(addr);
      SlotIsLowest(f, rs, ks, addr, j);
    } else {
      SpanningIsLowest(f, rs, ks, addr, k);
      r := found;
    }
  }

  lemma BelowSlotIsHighest(f: Forest, rs: seq<Record>, ks: seq<nat>, addr: nat, lim: nat, k: nat)
    requires ListsMappings(f, rs, ks) && BeginsSlot(rs, ks, k, lim)
    requires k > 0 ==> rs[ks[k - 1]].end <= addr
    requires forall i :: k <= i < |ks| ==> addr < rs[ks[i]].end
    ensures HighestBelow(f, addr, At(ks, k - 1))
  {
    forall m | IsMapping(f, m)
      ensures if k == 0 then addr < f[m].end else f[m].end <= addr ==> f[m].begin <= f[ks[k - 1]].begin
    {
      var i :| 0 <= i < |ks| && ks[i] == m;
    }
  }

  /** The highest mapping entirely below `addr`. */
  method FindMappingBelow(t: BigallocTable, addr: nat) returns (r: nat)
    requires t.Valid()
    ensures HighestBelow(t.Forest(), addr, r)
  {
    t.TopListHolds();
    var found;
    ghost var k;
    found, k := t.FindToplevelHighestLt(addr);
    TopIsListed(t);
    ghost var f, rs, ks := t.Forest(), t.recs[..], t.kids[0];
    MappingEndsAbove(f, rs, ks, addr, k);
    if found != 0 && t.recs[found].end > addr {
      var b := t.recs[found].begin;
      ghost var j;
      r, j := t.FindToplevelHighestLt(b);
      PreviousPosition(f, rs, ks, k, j);
      EndsAboveFrom(rs, ks, addr, k);
      BelowSlotIsHighest(f, rs, ks, addr, b, j);
    } else {
      BelowSlotIsHighest(f, rs, ks, addr, addr, k);
      r := found;
    }
  }

  lemma MappingEndsAbove(f: Forest, rs: seq<Record>, ks: seq<nat>, addr: nat, k: nat)
    requires WellNested(f) && ListsMappings(f, rs, ks) && BeginsSlot(rs, ks, k, addr)
    ensures forall i :: k <= i < |ks| ==> addr < rs[ks[i]].end
  {
    forall i | k <= i < |ks|
      ensures addr < rs[ks[i]].end
    {
      assert IsMapping(f, ks[i]);
    }
  }

  lemma EndsAboveFrom(rs: seq<Record>, ks: seq<nat>, addr: nat, k: nat)
    requires forall i :: 0 <= i < |ks| ==> 0 < ks[i] < |rs|
    requires Ordered(rs, ks) && Ascending(rs, ks) && 0 < k <= |ks| && addr < rs[ks[k - 1]].end &&
      rs[ks[k - 1]].begin < addr
    requires forall i :: k <= i < |ks| ==> addr < rs[ks[i]].end
    ensures forall i :: k - 1 <= i < |ks| ==> addr < rs[ks[i]].end
    ensures k > 1 ==> rs[ks[k - 2]].end <= addr
  {
  }

  lemma PreviousPosition(f: Forest, rs: seq<Record>, ks: seq<nat>, k: nat, j: nat)
    requires ListsMappings(f, rs, ks) && 0 < k <= |ks| && BeginsSlot(rs, ks, j, rs[ks[k - 1]].begin)
    ensures j == k - 1
  {
    assert rs[ks[k - 1]].begin <= rs[ks[k - 1]].begin;
    if 1 < k {
      assert rs[ks[k - 2]].begin < rs[ks[k - 1]].begin;
    }
  }

  // ---------------------------------------------------------------- creation

  /** The parent that a creation without a given parent finds, if both ends agree on one. */
  ghost predicate SameDeepest(f: Forest, begin: nat, end: nat, q: nat)
    requires 0 < begin < end
  {
    DeepestAt(f, begin, q) && DeepestAt(f, end - 1, q)
  }

  predicate Aligned(begin: nat, end: nat) {
    begin % PAGE_SIZE == 0 && end % PAGE_SIZE == 0
  }

  /** Some parent will do: both ends agree on it, and a range without one is page-aligned. */
  ghost predicate Parented(f: Forest, begin: nat, end: nat)
    requires 0 < begin < end
  {
    exists q :: SameDeepest(f, begin, end, q) && (q == 0 ==> begin % PAGE_SIZE == 0 && end % PAGE_SIZE == 0)
  }

  lemma NotParented(f: Forest, begin: nat, end: nat, atStart: nat, atEnd: nat)
    requires 0 < begin < end && DeepestAt(f, begin, atStart) && DeepestAt(f, end - 1, atEnd)
    requires atStart != atEnd || (atStart == 0 && !Aligned(begin, end))
    ensures !Parented(f, begin, end)
  {
    forall q | SameDeepest(f, begin, end, q)
      ensures q == atStart == atEnd
    {
      DeepestUnique(f, begin, begin + 1, q, atStart);
      DeepestUnique(f, end - 1, end, q, atEnd);
    }
  }

  lemma SameDeepestIntro(f: Forest, begin: nat, end: nat, q: nat)
    requires 0 < begin < end && DeepestAt(f, begin, q) && DeepestAt(f, end - 1, q)
    ensures SameDeepest(f, begin, end, q)
  {
  }

  method DeepestAtEnds(t: BigallocTable, begin: nat, end: nat) returns (atStart: nat, atEnd: nat)
    requires t.Valid() && TopAligned(t.Forest()) && 0 < begin < end <= AddressLimit()
    ensures DeepestAt(t.Forest(), begin, atStart) && DeepestAt(t.Forest(), end - 1, atEnd)
  {
    atStart := DeepestContaining(t, begin);
    atEnd := DeepestContaining(t, end - 1);
  }

  method DeepestContaining(t: BigallocTable, addr: nat) returns (r: nat)
    requires t.Valid() && TopAligned(t.Forest()) && addr < AddressLimit()
    ensures DeepestAt(t.Forest(), addr, r)
  {
    r := FindDeepest(t, addr);
  }

  /** Find the parent of a new range, or refuse. */
  method FindParent(t: BigallocTable, begin: nat, end: nat) returns (ok: bool, q: nat)
    requires t.Valid() && TopAligned(t.Forest()) && 0 < begin < end <= AddressLimit()
    ensures ok ==> SameDeepest(t.Forest(), begin, end, q) && (q == 0 ==> Aligned(begin, end))
    ensures !ok ==> !Parented(t.Forest(), begin, end)
  {
    var atEnd;
    q, atEnd := DeepestAtEnds(t, begin, end);
    ok := q == atEnd && (q != 0 || Aligned(begin, end));
    if !ok {
      NotParented(t.Forest(), begin, end, q, atEnd);
    } else {
      SameDeepestIntro(t.Forest(), begin, end, q);
    }
  }

  /** Nothing already under the parent overlaps the new range; the code does not check this. */
  ghost predicate RoomUnder(f: Forest, q: nat, begin: nat, end: nat) {
    forall m :: m in f && f[m].parent == q ==> f[m].end <= begin || end <= f[m].begin
  }

  ghost predicate RoomForNew(f: Forest, begin: nat, end: nat)
    requires 0 < begin < end
  {
    forall q :: SameDeepest(f, begin, end, q) ==> RoomUnder(f, q, begin, end)
  }

  /** A range that can be put under a parent: inside it, and beside what is already there. */
  ghost predicate FitsUnder(f: Forest, q: nat, begin: nat, end: nat) {
    FreshRange(f, q, begin, end) && RoomUnder(f, q, begin, end)
  }

  lemma FitsUnderDeepest(f: Forest, q: nat, begin: nat, end: nat)
    requires 0 < begin < end <= AddressLimit() && SameDeepest(f, begin, end, q) && RoomForNew(f, begin, end)
    ensures FitsUnder(f, q, begin, end)
  {
    assert RoomUnder(f, q, begin, end);
  }

  lemma RoomToCreate(f: Forest, r: Request)
    requires FitsUnder(f, r.parent, r.begin, r.end)
    ensures FreshRange(f, r.parent, r.begin, r.end)
    ensures forall m :: m in f && f[m].parent == r.parent ==> Apart(f[m], NodeFor(f, r))
  {
  }

  lemma CreateTopAligned(f: Forest, b: nat, r: Request)
    requires TopAligned(f) && (r.parent == 0 ==> Aligned(r.begin, r.end))
    ensures TopAligned(f[b := NodeFor(f, r)])
  {
  }

  /** What a caller that names a parent, or leaves it to be found (0), must see to. */
  ghost predicate CanAdd(f: Forest, maybeParent: nat, begin: nat, end: nat)
    requires 0 < begin < end
  {
    if maybeParent != 0 then FitsUnder(f, maybeParent, begin, end) else RoomForNew(f, begin, end)
  }

  /** Create a bigalloc under `q`: the parent named by the caller, or the deepest one that holds both of the
      new one's ends. */
  method NewBigalloc(t: BigallocTable, begin: nat, end: nat, maybeParent: nat, allocatedBy: nat)
    returns (b: nat, ghost q: nat)
    requires t.Valid() && t.start != 0 && TopAligned(t.Forest()) && 0 < begin < end <= AddressLimit()
    requires CanAdd(t.Forest(), maybeParent, begin, end)
    modifies t.recs, t.pageindex, t`kids, t`depth
    ensures t.Valid() && TopAligned(t.Forest())
    ensures b == 0 <==> old(t.Full()) || (maybeParent == 0 && !Parented(old(t.Forest()), begin, end))
    ensures b == 0 ==> t.Forest() == old(t.Forest()) && t.pageindex[..] == old(t.pageindex[..])
    ensures maybeParent != 0 ==> q == maybeParent
    ensures b != 0 && maybeParent == 0 ==> SameDeepest(old(t.Forest()), begin, end, q)
    ensures b != 0 ==> b !in old(t.Forest())
    ensures b != 0 ==>
      t.Forest() == old(t.Forest())[b := NodeFor(old(t.Forest()), Request(begin, end, q, allocatedBy, 0))]
    ensures b != 0 ==> var nd := t.Forest()[b];
      nd.begin == begin && nd.end == end && nd.parent == q && nd.allocatedBy == allocatedBy && nd.suballocator == 0
  {
    var ok, parent := true, maybeParent;
    if maybeParent == 0 {
      ok, parent := FindParent(t, begin, end);
      if ok {
        FitsUnderDeepest(t.Forest(), parent, begin, end);
      }
    }
    b, q := 0, parent;
    if ok {
      b := CreateUnder(t, Request(begin, end, parent, allocatedBy, 0));
    }
  }

  method CreateUnder(t: BigallocTable, r: Request) returns (b: nat)
    requires t.Valid() && t.start != 0 && TopAligned(t.Forest())
    requires FitsUnder(t.Forest(), r.parent, r.begin, r.end) && (r.parent == 0 ==> Aligned(r.begin, r.end))
    modifies t.recs, t.pageindex, t`kids, t`depth
    ensures t.Valid() && TopAligned(t.Forest())
    ensures b == 0 <==> old(t.Full())
    ensures b == 0 ==> t.Forest() == old(t.Forest()) && t.pageindex[..] == old(t.pageindex[..])
    ensures b != 0 ==> b !in old(t.Forest()) && t.Forest() == old(t.Forest())[b := NodeFor(old(t.Forest()), r)]
  {
    ghost var f := t.Forest();
    RoomToCreate(f, r);
    b := t.New(r);
    CreateTopAligned(f, b, r);
  }

  // ---------------------------------------------------------------- deletion

  /** Delete the outermost bigalloc at `addr` that `a` allocated, and everything below it. */
  method DeleteBigallocAt(t: BigallocTable, addr: nat, a: nat) returns (found: bool, ghost r: nat)
    requires t.Valid() && TopAligned(t.Forest()) && addr < AddressLimit() && a != 0
    requires forall r :: r in t.Forest() && ShallowestAt(t.Forest(), addr, a, false, r) ==>
      t.start !in Subtree(t.Forest(), r)
    modifies t.recs, t.pageindex, t`kids
    ensures t.Valid()
    ensures !found ==> ShallowestAt(old(t.Forest()), addr, a, false, 0) && t.Forest() == old(t.Forest())
    ensures found ==> r in old(t.Forest()) && ShallowestAt(old(t.Forest()), addr, a, false, r)
    ensures found ==> t.Forest() == old(t.Forest()) - Subtree(old(t.Forest()), r)
  {
    var b := FindBigallocFromRoot(t, addr, a, false);
    r := b;
    if b == 0 {
      return false, 0;
    }
    ghost var k := t.Del(b);
    found := true;
  }

  /** The first page in [from, limit) with an entry, or `limit`. The source reads the entry at `limit` before
      it sees that it has come to the end; what it reads there makes no difference. */
  method SkipZeroPages(t: BigallocTable, from: nat, limit: nat) returns (pos: nat)
    requires from <= limit <= t.pageindex.Length
    ensures from <= pos <= limit
    ensures forall p :: from <= p < pos ==> t.pageindex[p] == 0
    ensures pos < limit ==> t.pageindex[pos] != 0
  {
    pos := from;
    while pos != limit && t.pageindex[pos] == 0
      invariant from <= pos <= limit
      invariant forall p :: from <= p < pos ==> t.pageindex[p] == 0
      decreases limit - pos
    {
      pos := pos + 1;
    }
  }

  /** An address moved up by whole pages. */
  lemma StepByPages(a: nat, k: nat)
    ensures PageNum(a + PAGE_SIZE * k) == PageNum(a) + k
    ensures PageLo(PageNum(a)) <= a && a < PageHi(PageNum(a))
    ensures a % PAGE_SIZE == 0 ==> a + PAGE_SIZE * k == PageLo(PageNum(a) + k)
    ensures PageLo(PageNum(a) + k) <= a + PAGE_SIZE * k < PageHi(PageNum(a) + k)
  {
    DownPageIsPageNum(a);
    DivModLaw(a, PAGE_SIZE);
    assert a + PAGE_SIZE * k == (PageNum(a) + k) * PAGE_SIZE + a % PAGE_SIZE;
    DivOfMultiple(PageNum(a) + k, a % PAGE_SIZE, PAGE_SIZE);
    assert (PageNum(a) + k + 1) * PAGE_SIZE == (PageNum(a) + k) * PAGE_SIZE + PAGE_SIZE;
  }

  /** The mapping that owns page `pos`. */
  method MappingAtPage(t: BigallocTable, pos: nat) returns (b: nat)
    requires t.Valid() && pos < NPAGES && t.pageindex[pos] != 0
    ensures IsMapping(t.Forest(), b) && SpansPage(t.Forest()[b], pos)
  {
    assert PageEntry(t.Forest(), pos, t.pageindex[pos]);
    b := TopOf(t, t.pageindex[pos]);
  }

  /** Where the sweep has got to: everything below `upTo` is done. */
  ghost predicate Sweeping(f: Forest, g: Forest, begin: nat, upTo: nat) {
    && WellNested(f) && WellNested(g) && TopAligned(f) && begin <= upTo
    && g == Swept(f, begin, upTo)
    && (upTo % PAGE_SIZE == 0 || (upTo == begin && g == f))
  }

  lemma SweptStaysAligned(f: Forest, x: nat, y: nat)
    requires WellNested(f) && TopAligned(f)
    ensures TopAligned(Swept(f, x, y))
  {
  }

  /** One round that finds a mapping: it is deleted, and the sweep moves to its end. */
  lemma SweepRound(f: Forest, g: Forest, pi: seq<nat>, begin: nat, upTo: nat, pos: nat, b: nat)
    requires Sweeping(f, g, begin, upTo) && Agrees(g, pi)
    requires PageNum(upTo) <= pos <= |pi| && forall p :: PageNum(upTo) <= p < pos ==> pi[p] == 0
    requires IsMapping(g, b) && SpansPage(g[b], pos)
    ensures upTo < g[b].end
    ensures WellNested(g - Subtree(g, b)) ==> Sweeping(f, g - Subtree(g, b), begin, g[b].end)
  {
    SweptStaysAligned(f, begin, upTo);
    DownPageIsPageNum(upTo);
    PageBounds(pos);
    MulMonotone(PageNum(upTo) + 1, pos + 1, PAGE_SIZE);
    ZeroPagesClear(g, pi, PageNum(upTo), pos, PageLo(PageNum(upTo)), PageLo(pos));
    ClearShrinks(g, PageLo(PageNum(upTo)), upTo, PageLo(pos));
    SweepStep(f, begin, upTo, PageLo(pos), b);
  }

  lemma ClearShrinks(g: Forest, x: nat, x': nat, y: nat)
    requires Clear(g, x, y) && x <= x'
    ensures Clear(g, x', y)
  {
  }

  /** The end of the sweep: complete, unless the last page was stepped over. */
  lemma SweepEnd(f: Forest, g: Forest, pi: seq<nat>, begin: nat, upTo: nat, end: nat, pos: nat)
    requires Sweeping(f, g, begin, upTo) && Agrees(g, pi) && upTo < end && UpPage(end) <= |pi|
    requires PageNum(upTo) <= pos <= UpPage(end) && forall p :: PageNum(upTo) <= p < pos ==> pi[p] == 0
    requires pos < UpPage(end) ==> pi[pos] != 0
    requires end <= upTo + PAGE_SIZE * (pos - PageNum(upTo))
    ensures if pos < UpPage(end) then g == f && SkipsLastPage(pi, begin, end) else g == Swept(f, begin, end)
  {
    if pos < UpPage(end) {
      SweepSkips(f, g, pi, begin, upTo, end, pos);
    } else {
      StepByPages(upTo, pos - PageNum(upTo));
      SweptStaysAligned(f, begin, upTo);
      PageGalois(end, pos);
      ZeroPagesClear(g, pi, PageNum(upTo), pos, upTo, end);
      SweepRest(f, begin, upTo, end);
    }
  }

  /** Only the first round can step over the last page: later ones begin at a page boundary. */
  lemma SweepSkips(f: Forest, g: Forest, pi: seq<nat>, begin: nat, upTo: nat, end: nat, pos: nat)
    requires Sweeping(f, g, begin, upTo) && upTo < end && UpPage(end) <= |pi|
    requires PageNum(upTo) <= pos < UpPage(end) && (forall p :: PageNum(upTo) <= p < pos ==> pi[p] == 0) && pi[pos] != 0
    requires end <= upTo + PAGE_SIZE * (pos - PageNum(upTo))
    ensures g == f && SkipsLastPage(pi, begin, end)
  {
    var k := pos - PageNum(upTo);
    StepByPages(upTo, k);
    PageGalois(end, pos);
    SweptStaysAligned(f, begin, upTo);
    assert upTo % PAGE_SIZE != 0;
    LastPage(begin, end, pos, k);
  }

  lemma LastPage(begin: nat, end: nat, pos: nat, k: nat)
    requires pos == PageNum(begin) + k && PageLo(pos) < end <= begin + PAGE_SIZE * k && begin < end
    ensures PageNum(end - 1) == pos && (end - 1) % PAGE_SIZE < begin % PAGE_SIZE && PageNum(begin) < pos
  {
    StepByPages(begin, k);
    DivModLaw(begin, PAGE_SIZE);
    var d := end - 1 - PageLo(pos);
    assert begin + PAGE_SIZE * k == PageLo(pos) + begin % PAGE_SIZE;
    assert end - 1 == pos * PAGE_SIZE + d;
    DivOfMultiple(pos, d, PAGE_SIZE);
    DivModLaw(end - 1, PAGE_SIZE);
  }

  lemma StepReaches(begin: nat, end: nat)
    requires begin < end && (end - 1) % PAGE_SIZE < begin % PAGE_SIZE && PageNum(begin) < PageNum(end - 1)
    ensures end <= begin + PAGE_SIZE * (PageNum(end - 1) - PageNum(begin))
  {
    var last := PageNum(end - 1);
    StepByPages(begin, last - PageNum(begin));
    DivModLaw(begin, PAGE_SIZE);
    DivModLaw(end - 1, PAGE_SIZE);
    assert begin + PAGE_SIZE * (last - PageNum(begin)) == last * PAGE_SIZE + begin % PAGE_SIZE;
  }

  lemma LastPageInside(end: nat)
    requires 0 < end
    ensures PageNum(end - 1) < UpPage(end)
  {
    DownPageIsPageNum(end - 1);
    PageGalois(end, PageNum(end - 1));
  }

  /** The result of skipping pages without an entry from the page of `upTo` on. */
  ghost predicate Scanned(pi: seq<nat>, upTo: nat, end: nat, pos: nat) {
    && PageNum(upTo) <= pos <= UpPage(end) <= |pi|
    && (forall p :: PageNum(upTo) <= p < pos ==> pi[p] == 0)
    && (pos < UpPage(end) ==> pi[pos] != 0)
  }

  lemma SkipIsTaken(pi: seq<nat>, begin: nat, end: nat, pos: nat)
    requires SkipsLastPage(pi, begin, end) && Scanned(pi, begin, end, pos)
    ensures pos < UpPage(end) && end <= begin + PAGE_SIZE * (pos - PageNum(begin))
  {
    LastPageInside(end);
    assert pos == PageNum(end - 1);
    StepReaches(begin, end);
  }

  /** A tree that reaches past the end of the range is the last one the range touches. */
  lemma SweepPast(f: Forest, begin: nat, end: nat, b: nat)
    requires WellNested(f) && IsMapping(f, b) && begin < end && f[b].begin < end <= f[b].end
    ensures Swept(f, begin, f[b].end) == Swept(f, begin, end)
  {
    forall n | n in f
      ensures Overlaps(f[RootOf(f, n)], begin, f[b].end) <==> Overlaps(f[RootOf(f, n)], begin, end)
    {
      var r := RootOf(f, n);
      assert r == b || Apart(f[r], f[b]);
    }
  }

  /** The invariant of the loop below. */
  ghost predicate SweptSoFar(f: Forest, pi: seq<nat>, g: Forest, begin: nat, upTo: nat, end: nat) {
    && Sweeping(f, g, begin, upTo)
    && (SkipsLastPage(pi, begin, end) ==> upTo == begin && g == f)
    && (begin < end <= upTo ==> g == Swept(f, begin, end))
    && (end <= begin ==> g == f)
  }

  lemma NoSkipHere(f: Forest, pi0: seq<nat>, g: Forest, pi: seq<nat>, begin: nat, upTo: nat, end: nat, pos: nat)
    requires SkipsLastPage(pi0, begin, end) ==> upTo == begin && g == f
    requires WellNested(f) && Agrees(f, pi0) && Agrees(g, pi) && Scanned(pi, upTo, end, pos)
    requires upTo + PAGE_SIZE * (pos - PageNum(upTo)) < end
    ensures !SkipsLastPage(pi0, begin, end)
  {
    if SkipsLastPage(pi0, begin, end) {
      NoSkipAtFirst(g, pi0, pi, upTo, end, pos);
    }
  }

  lemma NoSkipAtFirst(f: Forest, pi0: seq<nat>, pi: seq<nat>, begin: nat, end: nat, pos: nat)
    requires WellNested(f) && Agrees(f, pi0) && Agrees(f, pi) && Scanned(pi, begin, end, pos)
    requires begin + PAGE_SIZE * (pos - PageNum(begin)) < end
    ensures !SkipsLastPage(pi0, begin, end)
  {
    AgreesUnique(f, pi0, pi);
    if SkipsLastPage(pi, begin, end) {
      SkipIsTaken(pi, begin, end, pos);
    }
  }

  lemma FoundInRange(begin: nat, upTo: nat, end: nat, pos: nat, nd: Node)
    requires begin <= upTo && PageNum(upTo) <= pos && upTo + PAGE_SIZE * (pos - PageNum(upTo)) < end &&
      SpansPage(nd, pos)
    ensures Overlaps(nd, begin, end) && nd.begin < end
  {
    StepByPages(upTo, pos - PageNum(upTo));
    MulAtLeastZero(pos - PageNum(upTo));
  }

  lemma MulAtLeastZero(k: nat)
    ensures 0 <= PAGE_SIZE * k
  {
  }

  lemma SweptSoFarStep(f: Forest, pi0: seq<nat>, g: Forest, pi: seq<nat>, begin: nat, upTo: nat, end: nat, pos: nat,
      b: nat)
    requires SweptSoFar(f, pi0, g, begin, upTo, end) && Agrees(f, pi0) && Agrees(g, pi) && Scanned(pi, upTo, end, pos)
    requires upTo < end && upTo + PAGE_SIZE * (pos - PageNum(upTo)) < end
    requires IsMapping(g, b) && SpansPage(g[b], pos)
    ensures Overlaps(g[b], begin, end) && upTo < g[b].end
    ensures WellNested(g - Subtree(g, b)) ==> SweptSoFar(f, pi0, g - Subtree(g, b), begin, g[b].end, end)
  {
    FoundInRange(begin, upTo, end, pos, g[b]);
    SweepRound(f, g, pi, begin, upTo, pos, b);
    NoSkipHere(f, pi0, g, pi, begin, upTo, end, pos);
    assert IsMapping(f, b) && f[b] == g[b];
    if end <= g[b].end {
      SweepPast(f, begin, end, b);
    }
  }

  lemma StartStaysSpared(start: nat, g: Forest, begin: nat, end: nat, b: nat)
    requires WellNested(g) && IsMapping(g, b) && Overlaps(g[b], begin, end) && StartSpared(start, g, begin, end)
    ensures start !in Subtree(g, b) && StartSpared(start, g - Subtree(g, b), begin, end)
  {
  }

  lemma SweepTurn(start: nat, f: Forest, pi0: seq<nat>, g: Forest, pi: seq<nat>, begin: nat, upTo: nat, end: nat,
      pos: nat, b: nat, h: Forest)
    requires SweptSoFar(f, pi0, g, begin, upTo, end) && Agrees(f, pi0) && Agrees(g, pi) && Scanned(pi, upTo, end, pos)
    requires upTo < end && upTo + PAGE_SIZE * (pos - PageNum(upTo)) < end
    requires IsMapping(g, b) && SpansPage(g[b], pos) && StartSpared(start, g, begin, end) && h == g - Subtree(g, b)
    ensures upTo < g[b].end && start !in Subtree(g, b) && StartSpared(start, h, begin, end)
    ensures SweptSoFar(f, pi0, h, begin, g[b].end, end)
  {
    RemovalWellNested(g, h, b);
    SweptSoFarStep(f, pi0, g, pi, begin, upTo, end, pos, b);
    StartStaysSpared(start, g, begin, end, b);
  }

  lemma SweepStops(f: Forest, g: Forest, pi0: seq<nat>, pi: seq<nat>, begin: nat, upTo: nat, end: nat, pos: nat)
    requires SweptSoFar(f, pi0, g, begin, upTo, end) && Agrees(f, pi0) && Agrees(g, pi)
    requires upTo < end && Scanned(pi, upTo, end, pos) && end <= upTo + PAGE_SIZE * (pos - PageNum(upTo))
    ensures g == if SkipsLastPage(pi0, begin, end) then f else Swept(f, begin, end)
  {
    SweepEnd(f, g, pi, begin, upTo, end, pos);
    if pos < UpPage(end) {
      AgreesUnique(f, pi0, pi);
    } else if SkipsLastPage(pi0, begin, end) {
      AgreesUnique(f, pi0, pi);
      SkipIsTaken(pi, begin, end, pos);
    }
  }

  ghost predicate StartSpared(start: nat, f: Forest, begin: nat, end: nat) {
    IsMapping(f, start) && !Overlaps(f[start], begin, end)
  }

  /** Scan on from `upTo` for a page with an entry. */
  method ScanFrom(t: BigallocTable, upTo: nat, end: nat) returns (pos: nat)
    requires t.pageindex.Length == NPAGES && UpPage(end) <= NPAGES && upTo < end
    ensures Scanned(t.pageindex[..], upTo, end, pos)
  {
    UpDownMonotone(upTo, end);
    DownPageIsPageNum(upTo);
    pos := SkipZeroPages(t, PageNum(upTo), UpPage(end));
  }

  /** No mapping at a page inside the range holds the one that is to be spared. */
  ghost predicate SparedAt(start: nat, g: Forest, pos: nat)
    requires WellNested(g)
  {
    forall b :: IsMapping(g, b) && SpansPage(g[b], pos) ==> start !in Subtree(g, b)
  }

  lemma StartElsewhere(start: nat, g: Forest, begin: nat, upTo: nat, end: nat, pos: nat)
    requires WellNested(g) && StartSpared(start, g, begin, end)
    requires begin <= upTo && PageNum(upTo) <= pos && upTo + PAGE_SIZE * (pos - PageNum(upTo)) < end
    ensures SparedAt(start, g, pos)
  {
    forall b | IsMapping(g, b) && SpansPage(g[b], pos)
      ensures start !in Subtree(g, b)
    {
      FoundInRange(begin, upTo, end, pos, g[b]);
      StartStaysSpared(start, g, begin, end, b);
    }
  }

  /** Delete the mapping at a page, and say where it ended. */
  method DelMappingAt(t: BigallocTable, pos: nat) returns (end: nat, ghost b: nat)
    requires t.Valid() && pos < NPAGES && t.pageindex[pos] != 0 && SparedAt(t.start, t.Forest(), pos)
    modifies t.recs, t.pageindex, t`kids
    ensures t.Valid() && old(IsMapping(t.Forest(), b) && SpansPage(t.Forest()[b], pos))
    ensures t.Forest() == old(t.Forest() - Subtree(t.Forest(), b)) && end == old(t.Forest()[b].end)
  {
    var m := MappingAtPage(t, pos);
    end, b := t.recs[m].end, m;
    ghost var _ := t.Del(m);
  }

  lemma StopsBeforeLimit(upTo: nat, end: nat, pos: nat)
    requires PageNum(upTo) <= pos <= UpPage(end) && upTo + PAGE_SIZE * (pos - PageNum(upTo)) < end
    ensures pos < UpPage(end)
  {
    StepByPages(upTo, pos - PageNum(upTo));
    PageGalois(end, pos);
  }

  /** The state of the sweep of the table: how far it is, from the forest and the index it began with. */
  ghost predicate SweepState(f: Forest, pi: seq<nat>, start: nat, g: Forest, begin: nat, upTo: nat, end: nat) {
    && SweptSoFar(f, pi, g, begin, upTo, end) && Agrees(f, pi) && StartSpared(start, g, begin, end)
  }

  /** One round that finds a mapping: delete it, and go on from its end. */
  method SweepRoundAt(t: BigallocTable, begin: nat, upTo: nat, end: nat, pos: nat, ghost f: Forest, ghost pi: seq<nat>)
    returns (next: nat)
    requires t.Valid() && SweepState(f, pi, t.start, t.Forest(), begin, upTo, end)
    requires upTo < end && upTo + PAGE_SIZE * (pos - PageNum(upTo)) < end
    requires Scanned(t.pageindex[..], upTo, end, pos) && pos < UpPage(end) && SparedAt(t.start, t.Forest(), pos)
    modifies t.recs, t.pageindex, t`kids
    ensures t.Valid() && upTo < next && SweepState(f, pi, t.start, t.Forest(), begin, next, end)
  {
    ghost var g, gpi := t.Forest(), t.pageindex[..];
    ghost var b;
    next, b := DelMappingAt(t, pos);
    SweepTurn(t.start, f, pi, g, gpi, begin, upTo, end, pos, b, t.Forest());
  }

  /** Delete every tree whose root overlaps [begin, end), unless the last page is stepped over. */
  method DeleteAllOverlappingRange(t: BigallocTable, begin: nat, end: nat)
    requires t.Valid() && TopAligned(t.Forest()) && UpPage(end) <= NPAGES
    requires StartSpared(t.start, t.Forest(), begin, end)
    modifies t.recs, t.pageindex, t`kids
    ensures t.Valid()
    ensures t.Forest() == if SkipsLastPage(old(t.pageindex[..]), begin, end) then old(t.Forest())
                          else Swept(old(t.Forest()), begin, end)
  {
    ghost var f, pi := t.Forest(), t.pageindex[..];
    SweepStarts(f, pi, begin, end);
    var upTo := begin;
    while upTo < end
      invariant t.Valid() && SweepState(f, pi, t.start, t.Forest(), begin, upTo, end)
      decreases end - upTo
    {
      var pos := ScanFrom(t, upTo, end);
      if upTo + PAGE_SIZE * (pos - PageNum(upTo)) >= end {
        SweepStops(f, t.Forest(), pi, t.pageindex[..], begin, upTo, end, pos);
        return;
      }
      StopsBeforeLimit(upTo, end, pos);
      StartElsewhere(t.start, t.Forest(), begin, upTo, end, pos);
      upTo := SweepRoundAt(t, begin, upTo, end, pos, f, pi);
    }
    SweepFinished(f, pi, t.Forest(), begin, upTo, end);
  }

  lemma SweepStarts(f: Forest, pi: seq<nat>, begin: nat, end: nat)
    requires WellNested(f) && TopAligned(f)
    ensures SweptSoFar(f, pi, f, begin, begin, end)
  {
    SweepNothing(f, begin);
  }

  lemma SweepFinished(f: Forest, pi: seq<nat>, g: Forest, begin: nat, upTo: nat, end: nat)
    requires SweptSoFar(f, pi, g, begin, upTo, end) && end <= upTo
    ensures g == if SkipsLastPage(pi, begin, end) then f else Swept(f, begin, end)
  {
    if end <= begin {
      assert Swept(f, begin, end) == f;
    }
  }

  /** After a sweep from a page boundary no page of the range has an entry. */
  lemma SweptRange(f: Forest, pi: seq<nat>, begin: nat, end: nat, p: nat)
    requires WellNested(f) && TopAligned(f) && WellNested(Swept(f, begin, end)) && Agrees(Swept(f, begin, end), pi)
    requires begin % PAGE_SIZE == 0 && begin < end && PageNum(begin) <= p < UpPage(end) && p < |pi|
    ensures pi[p] == 0
  {
    var g := Swept(f, begin, end);
    assert PageEntry(g, p, pi[p]);
    if pi[p] != 0 {
      var r := TopAbove(g, pi[p]);
      SweptRoot(f, begin, end, r);
      PageInRangeOverlaps(begin, end, p, g[r]);
    }
  }

  lemma PageInRangeOverlaps(begin: nat, end: nat, p: nat, nd: Node)
    requires begin % PAGE_SIZE == 0 && begin < end && PageNum(begin) <= p < UpPage(end) && SpansPage(nd, p)
    ensures Overlaps(nd, begin, end)
  {
    PageGalois(end, p);
    PageBounds(p);
    DivModLaw(begin, PAGE_SIZE);
    MulMonotone(PageNum(begin), p, PAGE_SIZE);
  }
}
