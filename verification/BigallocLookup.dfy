/** Looking up which bigalloc an address belongs to. */
module BigallocLookups {
  import opened Pages
  import opened Forests
  import opened ForestMoves
  import opened ForestRuns
  import opened Lists
  import opened Table
  import opened BigallocTables

  /** The child of `b` that contains `addr`, or 0. */
  method ChildContaining(t: BigallocTable, b: nat, addr: nat) returns (c: nat)
    requires t.Tree() && WellNested(t.Forest()) && b in t.Forest()
    ensures c != 0 ==> c in t.Forest() && t.Forest()[c].parent == b && Contains(t.Forest()[c], addr)
    ensures c == 0 ==> NoChildContains(t.Forest(), b, addr)
  {
    ghost var f, ks := t.Forest(), t.kids[b];
    ChildListStart(t.recs[..], t.kids, t.depth, b);
    c := t.recs[b].firstChild;
    ghost var i := 0;
    while c != 0
      invariant i <= |ks| && c == At(ks, i)
      invariant forall j :: 0 <= j < i && ks[j] in f ==> !Contains(f[ks[j]], addr)
      decreases |ks| - i
    {
      ChildAt(t.recs[..], t.kids, t.depth, b, i);
      if t.recs[c].begin <= addr && t.recs[c].end > addr {
        return;
      }
      c, i := t.recs[c].nextSib, i + 1;
    }
    forall n | n in f && f[n].parent == b
      ensures !Contains(f[n], addr)
    {
      var j := ChildListed(t.recs[..], t.kids, t.depth, b, n);
    }
  }

  /** From a bigalloc containing `addr`, go down to the deepest one. */
  method FindDeepestRecursive(t: BigallocTable, b: nat, addr: nat) returns (r: nat)
    requires t.Tree() && WellNested(t.Forest()) && b in t.Forest() && Contains(t.Forest()[b], addr)
    ensures r != 0 && DeepestAt(t.Forest(), addr, r)
    decreases Subtree(t.Forest(), b)
  {
    var c := ChildContaining(t, b, addr);
    if c != 0 {
      ChildSubtree(t.Forest(), b, c);
      r := FindDeepestRecursive(t, c, addr);
    } else {
      DescentEnds(t.Forest(), addr, b);
      r := b;
    }
  }

  /** What the page index says about `addr`. */
  method GetBigallocContaining(t: BigallocTable, addr: nat) returns (n: nat)
    requires t.Valid() && addr < AddressLimit()
    ensures PageEntry(t.Forest(), PageNum(addr), n)
    ensures n != 0 ==> n in t.Forest() && Contains(t.Forest()[n], addr)
    ensures n == 0 && TopAligned(t.Forest()) ==> DeepestAt(t.Forest(), addr, 0)
  {
    LimitPages(addr);
    n := t.pageindex[PageNum(addr)];
    EntryContains(t.Forest(), addr, n);
  }

  lemma EntryContains(f: Forest, addr: nat, n: nat)
    requires WellNested(f) && PageEntry(f, PageNum(addr), n)
    ensures n != 0 ==> n in f && Contains(f[n], addr)
    ensures n == 0 && TopAligned(f) ==> DeepestAt(f, addr, 0)
  {
    DownPageIsPageNum(addr);
    if TopAligned(f) {
      EntryZeroIff(f, addr, n);
    }
  }

  /** The deepest bigalloc containing `addr`. Only for mappings that are not page-aligned can the
      page index miss one. */
  method FindDeepest(t: BigallocTable, addr: nat) returns (r: nat)
    requires t.Valid() && addr < AddressLimit()
    ensures r != 0 || TopAligned(t.Forest()) ==> DeepestAt(t.Forest(), addr, r)
    ensures r == 0 <==> PageEntry(t.Forest(), PageNum(addr), 0)
  {
    var n := GetBigallocContaining(t, addr);
    if n == 0 {
      return 0;
    }
    EntryNotZero(t.Forest(), PageNum(addr), n);
    r := FindDeepestRecursive(t, n, addr);
  }

  lemma EntryNotZero(f: Forest, p: nat, n: nat)
    requires PageEntry(f, p, n) && n != 0
    ensures !PageEntry(f, p, 0)
  {
    DeepestNotZero(f, PageLo(p), PageHi(p), n);
  }

  lemma DeepestNotZero(f: Forest, lo: nat, hi: nat, n: nat)
    requires Deepest(f, lo, hi, n) && n != 0
    ensures !Deepest(f, lo, hi, 0)
  {
  }

  /** The inlined lookup: one loop over levels, one over children, and no recursion. */
  method LeafAllocatorFor(t: BigallocTable, addr: nat) returns (allocator: nat, deepest: nat)
    requires t.Valid() && addr < AddressLimit()
    ensures deepest != 0 || TopAligned(t.Forest()) ==> DeepestAt(t.Forest(), addr, deepest)
    ensures deepest == 0 <==> PageEntry(t.Forest(), PageNum(addr), 0)
    ensures deepest == 0 ==> allocator == 0
    ensures deepest != 0 ==> deepest in t.Forest()
    ensures deepest != 0 && t.Forest()[deepest].suballocator != 0 ==> allocator == t.Forest()[deepest].suballocator
    ensures deepest != 0 && t.Forest()[deepest].suballocator == 0 ==> allocator == t.Forest()[deepest].allocatedBy
  {
    var cur := GetBigallocContaining(t, addr);
    if cur != 0 {
      EntryNotZero(t.Forest(), PageNum(addr), cur);
    }
    deepest := DescendByLoop(t, cur, addr);
    if deepest == 0 {
      return 0, 0;
    }
    allocator := if t.recs[deepest].suballocator != 0 then t.recs[deepest].suballocator
      else t.recs[deepest].allocatedBy;
  }

  /** The allocator that answers for an address is found by the other lookup: a search from the root for what
      it suballocates, or else for what it allocated, comes to something at the address, no deeper. */
  lemma LeafIsFound(f: Forest, addr: nat, deepest: nat, r: nat)
    requires WellNested(f) && DeepestAt(f, addr, deepest) && deepest != 0
    ensures var nd := f[deepest];
      && (nd.suballocator != 0 && ShallowestAt(f, addr, nd.suballocator, true, r) ==>
            r in f && Contains(f[r], addr) && f[r].suballocator == nd.suballocator && f[r].depth <= nd.depth)
      && (nd.suballocator == 0 && ShallowestAt(f, addr, nd.allocatedBy, false, r) ==>
            r in f && Contains(f[r], addr) && f[r].allocatedBy == nd.allocatedBy && f[r].depth <= nd.depth)
  {
    assert Contains(f[deepest], addr);
  }

  method DescendByLoop(t: BigallocTable, from: nat, addr: nat) returns (deepest: nat)
    requires t.Tree() && WellNested(t.Forest())
    requires from != 0 ==> from in t.Forest() && Contains(t.Forest()[from], addr)
    ensures from == 0 ==> deepest == 0
    ensures from != 0 ==> deepest != 0 && deepest in t.Forest() && DeepestAt(t.Forest(), addr, deepest)
  {
    ghost var f := t.Forest();
    var cur := from;
    deepest := 0;
    while cur != 0
      invariant cur != 0 ==> cur in f && Contains(f[cur], addr)
      invariant cur == 0 && from != 0 ==> deepest != 0 && deepest in f && DeepestAt(f, addr, deepest)
      invariant from == 0 ==> cur == 0 && deepest == 0
      decreases cur != 0, Subtree(f, cur)
    {
      deepest := cur;
      cur := LastChildContaining(t, cur, addr);
      if cur == deepest {
        DescentEnds(f, addr, deepest);
        cur := 0;
      } else {
        ChildSubtree(f, deepest, cur);
      }
    }
  }

  /** The inner loop: the last child of `b` containing `addr`, or `b` itself. */
  method LastChildContaining(t: BigallocTable, b: nat, addr: nat) returns (cur: nat)
    requires t.Tree() && WellNested(t.Forest()) && b in t.Forest()
    ensures cur != b ==> cur in t.Forest() && t.Forest()[cur].parent == b && Contains(t.Forest()[cur], addr)
    ensures cur == b ==> NoChildContains(t.Forest(), b, addr)
  {
    ghost var f, ks := t.Forest(), t.kids[b];
    ChildListStart(t.recs[..], t.kids, t.depth, b);
    cur := b;
    var child := t.recs[b].firstChild;
    ghost var i := 0;
    while child != 0
      invariant i <= |ks| && child == At(ks, i)
      invariant cur != b ==> cur in f && f[cur].parent == b && Contains(f[cur], addr)
      invariant cur == b ==> forall j :: 0 <= j < i && ks[j] in f ==> !Contains(f[ks[j]], addr)
      decreases |ks| - i
    {
      ChildAt(t.recs[..], t.kids, t.depth, b, i);
      if t.recs[child].begin <= addr && t.recs[child].end > addr {
        cur := child;
      }
      child, i := t.recs[child].nextSib, i + 1;
    }
    if cur == b {
      forall n | n in f && f[n].parent == b
        ensures !Contains(f[n], addr)
      {
        var j := ChildListed(t.recs[..], t.kids, t.depth, b, n);
      }
    }
  }

  // ---------------------------------------------------------------- by allocator

  /** From a bigalloc containing `addr`, the first one on the way down that `a` allocated
      (or suballocates from). */
  method FindBigallocRecursive(t: BigallocTable, b: nat, addr: nat, a: nat, bySub: bool) returns (r: nat)
    requires t.Tree() && WellNested(t.Forest()) && b in t.Forest() && Contains(t.Forest()[b], addr)
    ensures Shallowest(t.Forest(), b, addr, a, bySub, r)
    ensures r != 0 ==> a == if bySub then t.Forest()[r].suballocator else t.Forest()[r].allocatedBy
    decreases Subtree(t.Forest(), b)
  {
    ghost var f := t.Forest();
    if (if bySub then t.recs[b].suballocator else t.recs[b].allocatedBy) == a {
      SearchHit(f, b, addr, a, bySub);
      return b;
    }
    var c := ChildContaining(t, b, addr);
    if c == 0 {
      SearchMisses(f, b, addr, a, bySub);
      return 0;
    }
    ChildSubtree(f, b, c);
    r := FindBigallocRecursive(t, c, addr, a, bySub);
    SearchDescends(f, b, c, addr, a, bySub, r);
  }

  /** Climb to the top-level bigalloc above `n`. */
  method TopOf(t: BigallocTable, n: nat) returns (r: nat)
    requires t.Tree() && WellNested(t.Forest()) && n in t.Forest()
    ensures r in t.Forest() && t.Forest()[r].parent == 0
    ensures Covers(t.Forest()[r], t.Forest()[n].begin, t.Forest()[n].end)
  {
    ghost var f := t.Forest();
    r := n;
    while t.recs[r].parent != 0
      invariant r in f && Covers(f[r], f[n].begin, f[n].end)
      decreases f[r].depth
    {
      r := t.recs[r].parent;
    }
  }

  /** Start from the page's entry, so matches above it are not seen. */
  method FindBigallocUnderPageindex(t: BigallocTable, addr: nat, a: nat) returns (r: nat)
    requires t.Valid() && addr < AddressLimit()
    ensures exists n :: (PageEntry(t.Forest(), PageNum(addr), n) &&
                         if n == 0 then r == 0 else Shallowest(t.Forest(), n, addr, a, false, r))
  {
    var n := GetBigallocContaining(t, addr);
    r := 0;
    if n != 0 {
      r := FindBigallocRecursive(t, n, addr, a, false);
    }
  }

  /** The answer that a lookup of the mapping at an address owes. */
  ghost predicate TopAt(f: Forest, addr: nat, r: nat) {
    && (r != 0 ==> r in f && f[r].parent == 0 && Contains(f[r], addr))
    && (r == 0 && TopAligned(f) ==> forall n :: n in f ==> !Contains(f[n], addr))
  }

  lemma NoneAt(f: Forest, addr: nat)
    requires TopAligned(f) ==> DeepestAt(f, addr, 0)
    ensures TopAt(f, addr, 0)
  {
  }

  /** The mapping that contains an address: up from the page's entry. */
  method LookupTopLevel(t: BigallocTable, addr: nat) returns (r: nat)
    requires t.Valid() && addr < AddressLimit()
    ensures TopAt(t.Forest(), addr, r)
  {
    var n := EntryAt(t, addr);
    if n == 0 {
      NoneAt(t.Forest(), addr);
      return 0;
    }
    r := Climb(t, n, addr);
  }

  method Climb(t: BigallocTable, n: nat, addr: nat) returns (r: nat)
    requires t.Tree() && WellNested(t.Forest()) && n in t.Forest() && Contains(t.Forest()[n], addr)
    ensures TopAt(t.Forest(), addr, r)
  {
    r := TopOf(t, n);
  }

  /** The page's entry, as far as the climb needs it. */
  method EntryAt(t: BigallocTable, addr: nat) returns (n: nat)
    requires t.Valid() && addr < AddressLimit()
    ensures t.Tree() && WellNested(t.Forest())
    ensures n != 0 ==> n in t.Forest() && Contains(t.Forest()[n], addr)
    ensures n == 0 && TopAligned(t.Forest()) ==> DeepestAt(t.Forest(), addr, 0)
  {
    n := GetBigallocContaining(t, addr);
  }

  lemma NothingShallow(f: Forest, addr: nat, a: nat, bySub: bool)
    requires TopAt(f, addr, 0)
    ensures TopAligned(f) ==> ShallowestAt(f, addr, a, bySub, 0)
  {
  }

  /** Start from the top-level bigalloc. When the page has no entry, the code goes on with record 0,
      which matches no allocator and has no children. */
  method FindBigallocFromRoot(t: BigallocTable, addr: nat, a: nat, bySub: bool) returns (r: nat)
    requires t.Valid() && addr < AddressLimit() && a != 0
    ensures r != 0 || TopAligned(t.Forest()) ==> ShallowestAt(t.Forest(), addr, a, bySub, r)
    ensures r != 0 ==> r in t.Forest() && a == if bySub then t.Forest()[r].suballocator else t.Forest()[r].allocatedBy
    ensures r == 0 && TopAligned(t.Forest()) ==> forall m :: m in t.Forest() && Contains(t.Forest()[m], addr) ==>
      a != if bySub then t.Forest()[m].suballocator else t.Forest()[m].allocatedBy
  {
    var top := LookupTopLevel(t, addr);
    if top == 0 {
      NothingShallow(t.Forest(), addr, a, bySub);
      return 0;
    }
    r := FindBelow(t, top, addr, a, bySub);
  }

  method FindBelow(t: BigallocTable, top: nat, addr: nat, a: nat, bySub: bool) returns (r: nat)
    requires t.Valid() && top != 0 && TopAt(t.Forest(), addr, top)
    ensures ShallowestAt(t.Forest(), addr, a, bySub, r)
  {
    r := FindBigallocRecursive(t, top, addr, a, bySub);
    SearchFromRoot(t.Forest(), top, addr, a, bySub, r);
  }
}
