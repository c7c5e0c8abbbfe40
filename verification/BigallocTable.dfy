/** The bigalloc table and the page index as the library keeps them: two arrays updated in place. */
module BigallocTables {
  import opened Pages
  import opened Forests
  import opened ForestOps
  import opened ForestMoves
  import opened ForestRuns
  import opened Lists
  import opened Links
  import opened Table

  /** The number of pages from one address to a later one, 0 if it is not later. */
  function PageDist(first: nat, second: nat): nat {
    if PageNum(second) > PageNum(first) then PageNum(second) - PageNum(first) else 0
  }

  /** What a caller asks for when a bigalloc is created. */
  datatype Request = Request(begin: nat, end: nat, parent: nat, allocatedBy: nat, suballocator: nat)

  /** The node that the request becomes: one level below its parent. */
  function NodeFor(f: Forest, r: Request): Node {
    Node(r.begin, r.end, r.parent, if r.parent in f then f[r.parent].depth + 1 else 1, r.allocatedBy, r.suballocator)
  }

  class BigallocTable {
    const recs: array<Record>
    const pageindex: array<nat>
    /** The minimum alignment of each allocator, 0 for none. */
    const minAlignment: nat -> nat
    /** An arbitrary top-level bigalloc from which the sorted list is searched; 0 before boot. */
    var start: nat

    ghost var kids: seq<seq<nat>>
    ghost var depth: seq<nat>

    /** Everything but the requirement that `start` is on the top-level list. */
    ghost predicate Inv()
      reads this, recs, pageindex
    {
      && recs.Length == NBIGALLOCS && pageindex.Length == NPAGES
      && Sound(recs[..], kids, depth, pageindex[..])
    }

    /** The links alone. */
    ghost predicate Tree()
      reads this, recs
    {
      recs.Length == NBIGALLOCS && Shaped(recs[..], kids, depth)
    }

    ghost predicate Started()
      reads this
    {
      |kids| == NBIGALLOCS && if start == 0 then kids[0] == [] else start in kids[0]
    }

    ghost predicate Valid()
      reads this, recs, pageindex
    {
      Inv() && Started()
    }

    /** Record the depths that go with the links. */
    ghost method SetDepth(d: seq<nat>)
      requires recs.Length == NBIGALLOCS && pageindex.Length == NPAGES && Started() && Shaped(recs[..], kids, d)
      modifies this`depth
      ensures Tree() && Forest() == ForestOf(recs[..], d) && Started()
      ensures Valid() <==> Sound(recs[..], kids, d, pageindex[..])
    {
      depth := d;
    }

    ghost function Forest(): Forest
      reads this, recs
      requires |depth| == recs.Length
    {
      ForestOf(recs[..], depth)
    }

    constructor (minAlignment: nat -> nat)
      ensures Valid() && Forest() == map[] && start == 0
      ensures fresh(recs) && fresh(pageindex)
    {
      this.minAlignment := minAlignment;
      recs := new Record[NBIGALLOCS](_ => EMPTY);
      pageindex := new nat[NPAGES](_ => 0);
      start := 0;
      kids := seq(NBIGALLOCS, _ => []);
      depth := seq(NBIGALLOCS, _ => 0);
      new;
      EmptyAgrees(pageindex[..]);
      assert Forest() == map[];
    }

    /** The lowest free slot, or 0 where the code gives up. */
    method FindFree() returns (b: nat)
      requires recs.Length == NBIGALLOCS
      ensures b == 0 ==> forall i :: 0 < i < NBIGALLOCS ==> InUse(recs[i])
      ensures b != 0 ==> b < NBIGALLOCS && !InUse(recs[b]) && forall i :: 0 < i < b ==> InUse(recs[i])
    {
      b := 1;
      while b < NBIGALLOCS
        invariant 1 <= b <= NBIGALLOCS
        invariant forall i :: 0 < i < b ==> InUse(recs[i])
      {
        if !InUse(recs[b]) {
          return;
        }
        b := b + 1;
      }
      b := 0;
    }

    /** Overwrite `n` entries from page `lo`: one to reach an even position, then pairs, then
        possibly one more. `passed` says whether a build with assertions would have gone on, having found
        nothing but `oldNum` or 0 where it looks. */
    method MemsetBigalloc(lo: nat, num: nat, oldNum: nat, n: nat) returns (passed: bool)
      requires lo + n <= pageindex.Length
      modifies pageindex
      ensures pageindex[..] == Fill(old(pageindex[..]), lo, lo + n, num)
      ensures passed <==> Passes(old(pageindex[..]), lo, lo + n, oldNum)
    {
      ghost var was := pageindex[..];
      var pos, left := lo, n;
      passed := true;
      if left > 0 && Odd(pos) {
        passed := Fits(pageindex[pos], oldNum);
        pageindex[pos] := num;
        pos, left := pos + 1, left - 1;
      }
      if oldNum != 0 {
        var fit := AllFit(pos, pos + left, oldNum);
        passed := passed && fit;
      }
      while left >= 2
        invariant lo <= pos && (n == 0 || !Odd(pos)) && pos + left == lo + n
        invariant forall i :: 0 <= i < pageindex.Length ==>
          pageindex[i] == if lo <= i < pos then num else old(pageindex[i])
      {
        pageindex[pos], pageindex[pos + 1] := num, num;
        pos, left := pos + 2, left - 2;
      }
      if left == 1 {
        passed := passed && Fits(pageindex[pos], oldNum);
        pageindex[pos] := num;
      }
      PassesIff(was, lo, lo + n, oldNum);
    }

    method AllFit(lo: nat, hi: nat, oldNum: nat) returns (r: bool)
      requires lo <= hi <= pageindex.Length
      ensures r <==> forall p :: lo <= p < hi ==> Fits(pageindex[p], oldNum)
    {
      var p := lo;
      while p < hi
        invariant lo <= p <= hi && forall i :: lo <= i < p ==> Fits(pageindex[i], oldNum)
      {
        if !Fits(pageindex[p], oldNum) {
          return false;
        }
        p := p + 1;
      }
      r := true;
    }

    // -------------------------------------------------------------- child lists

    /** Hook `c` at the head of the list of `q`. */
    method AddChild(c: nat, q: nat)
      requires recs.Length == NBIGALLOCS && Linked(recs[..], kids)
      requires 0 < c < NBIGALLOCS && 0 < q < NBIGALLOCS && c != q && Loose(kids, c)
      requires recs[c].prevSib == 0
      modifies recs, this`kids
      ensures Linked(recs[..], kids)
      ensures kids == old(kids)[q := [c] + old(kids)[q]]
      ensures recs[..] == AddedChild(old(recs[..]), c, q)
    {
      ghost var rs := recs[..];
      recs[c] := recs[c].(parent := q);
      var first := recs[q].firstChild;
      recs[q] := recs[q].(firstChild := c);
      recs[c] := recs[c].(nextSib := first);
      if first != 0 {
        recs[first] := recs[first].(prevSib := c);
      }
      assert recs[..] == AddedChild(rs, c, q);
      AddedChildLinked(rs, kids, c, q);
      kids := kids[q := [c] + kids[q]];
    }

    /** Take `c` off the list of its parent and clear its links. */
    method UnlinkChild(c: nat, ghost k: nat)
      requires recs.Length == NBIGALLOCS && Linked(recs[..], kids)
      requires 0 < c < NBIGALLOCS && 0 < recs[c].parent < NBIGALLOCS && recs[c].parent != c
      requires k < |kids[recs[c].parent]| && kids[recs[c].parent][k] == c
      modifies recs, this`kids
      ensures Linked(recs[..], kids)
      ensures old(recs[c].prevSib) < NBIGALLOCS && old(recs[c].nextSib) < NBIGALLOCS
      ensures recs[..] == RemovedChild(old(recs[..]), c)
      ensures kids == old(kids)[old(recs[c].parent) := Without(old(kids)[old(recs[c].parent)], k)]
    {
      ghost var rs := recs[..];
      var q := recs[c].parent;
      RemovedChildLinked(rs, kids, q, k);
      if recs[q].firstChild == c {
        recs[q] := recs[q].(firstChild := recs[c].nextSib);
      }
      if recs[c].prevSib != 0 {
        recs[recs[c].prevSib] := recs[recs[c].prevSib].(nextSib := recs[c].nextSib);
      }
      if recs[c].nextSib != 0 {
        recs[recs[c].nextSib] := recs[recs[c].nextSib].(prevSib := recs[c].prevSib);
      }
      recs[c] := recs[c].(prevSib := 0, nextSib := 0, parent := 0);
      assert recs[..] == RemovedChild(rs, c);
      kids := kids[q := Without(kids[q], k)];
    }

    // -------------------------------------------------------------- the top-level list

    ghost predicate TopList()
      reads this, recs
    {
      && recs.Length == NBIGALLOCS && Started()
      && Chain(recs[..], 0, kids[0]) && Ordered(recs[..], kids[0])
    }

    lemma TopListHolds()
      requires Valid()
      ensures TopList()
    {
      OrderedTop(recs[..], kids, depth);
    }

    /** Walk the list forwards from position `st` until `p` holds. */
    method SearchForwards(p: Record -> bool, ghost ks: seq<nat>, ghost st: nat) returns (cur: nat, prev: nat,
        ghost i: nat)
      requires Chain(recs[..], 0, ks) && st < |ks| && ks[st] == start
      ensures st <= i <= |ks| && cur == At(ks, i) && prev == if i == st then 0 else ks[i - 1]
      ensures forall j :: st <= j < i ==> !p(recs[ks[j]])
      ensures i < |ks| ==> p(recs[ks[i]])
    {
      cur, prev, i := start, 0, st;
      while cur != 0 && !p(recs[cur])
        invariant st <= i <= |ks| && cur == At(ks, i) && prev == if i == st then 0 else ks[i - 1]
        invariant forall j :: st <= j < i ==> !p(recs[ks[j]])
        decreases |ks| - i
      {
        assert LinkAt(recs[..], 0, ks, i);
        prev, cur, i := cur, recs[cur].nextSib, i + 1;
      }
    }

    /** Walk the list backwards from position `st` until `p` holds. */
    method SearchBackwards(p: Record -> bool, ghost ks: seq<nat>, ghost st: nat) returns (cur: nat, prev: nat,
        ghost i: int)
      requires Chain(recs[..], 0, ks) && st < |ks| && ks[st] == start
      ensures -1 <= i <= st && cur == At(ks, i) && prev == if i == st then 0 else ks[i + 1]
      ensures forall j :: i < j <= st ==> !p(recs[ks[j]])
      ensures 0 <= i ==> p(recs[ks[i]])
    {
      cur, prev, i := start, 0, st;
      while cur != 0 && !p(recs[cur])
        invariant -1 <= i <= st && cur == At(ks, i) && prev == if i == st then 0 else ks[i + 1]
        invariant forall j :: i < j <= st ==> !p(recs[ks[j]])
        decreases i + 1
      {
        assert LinkAt(recs[..], 0, ks, i);
        prev, cur, i := cur, recs[cur].prevSib, i - 1;
      }
    }

    /** Where `start` stands on the list. */
    lemma StartPosition() returns (st: nat)
      requires Started() && start != 0
      ensures st < |kids[0]| && kids[0][st] == start
    {
      st :| st < |kids[0]| && kids[0][st] == start;
    }

    /** The lowest top-level bigalloc with a byte at or above `addr`; `k` is its position. */
    method FindToplevelLowestGe(addr: nat) returns (r: nat, ghost k: nat)
      requires TopList()
      ensures Slot(recs[..], kids[0], k, addr)
      ensures r == At(kids[0], k)
    {
      if start == 0 {
        return 0, 0;
      }
      ghost var ks := kids[0];
      ghost var st := StartPosition();
      var cur, prev, i := SearchForwards((r: Record) => r.end - 1 >= addr, ks, st);
      if cur != start {
        SlotFoundUp(recs[..], ks, addr, st, i);
        return cur, i;
      }
      assert i == st;
      ghost var j;
      cur, prev, j := SearchBackwards((r: Record) => !(r.end - 1 >= addr), ks, st);
      SlotFoundDown(recs[..], ks, addr, st, j);
      return prev, j + 1;
    }

    /** The highest top-level bigalloc that begins below `addr`; `k` is how many do. */
    method FindToplevelHighestLt(addr: nat) returns (r: nat, ghost k: nat)
      requires TopList()
      ensures BeginsSlot(recs[..], kids[0], k, addr)
      ensures r == At(kids[0], k - 1)
    {
      if start == 0 {
        return 0, 0;
      }
      ghost var ks := kids[0];
      ghost var st := StartPosition();
      var cur, prev, j := SearchBackwards((r: Record) => r.begin < addr, ks, st);
      if cur != start {
        BeginsFoundDown(recs[..], ks, addr, st, j);
        return cur, j + 1;
      }
      assert j == st;
      ghost var i;
      cur, prev, i := SearchForwards((r: Record) => !(r.begin < addr), ks, st);
      BeginsFoundUp(recs[..], ks, addr, st, i);
      return prev, i;
    }

    /** Between which two records of the address-ordered list `b` belongs. */
    method FindNeighbours(b: nat) returns (next: nat, prev: nat, ghost k: nat)
      requires recs.Length == NBIGALLOCS && Linked(recs[..], kids) && TopList() && 0 < b < NBIGALLOCS
      requires forall i :: 0 <= i < |kids[0]| && recs[kids[0][i]].end <= recs[b].end ==>
        recs[kids[0][i]].begin < recs[b].begin
      ensures Slot(recs[..], kids[0], k, recs[b].end) && next == At(kids[0], k) && prev == At(kids[0], k - 1)
    {
      ghost var ks := kids[0];
      next, k := FindToplevelLowestGe(recs[b].end);
      if k < |ks| {
        assert LinkAt(recs[..], 0, ks, k);
      }
      if next != 0 {
        prev := recs[next].prevSib;
      } else {
        ghost var j;
        prev, j := FindToplevelHighestLt(recs[b].begin);
        AllBelow(recs[..], ks, recs[b].begin, recs[b].end, k, j);
      }
    }

    /** Hook `b`, which is on no list, into the top-level list in address order. */
    method AddToplevel(b: nat) returns (ghost k: nat)
      requires recs.Length == NBIGALLOCS && Linked(recs[..], kids) && TopList()
      requires 0 < b < NBIGALLOCS && Loose(kids, b) && recs[b].parent == 0
      requires forall i :: 0 <= i < |kids[0]| && recs[kids[0][i]].end <= recs[b].end ==>
        recs[kids[0][i]].begin < recs[b].begin
      modifies recs, this`kids
      ensures Linked(recs[..], kids)
      ensures Slot(old(recs[..]), old(kids[0]), k, old(recs[b].end))
      ensures At(old(kids[0]), k - 1) < NBIGALLOCS && At(old(kids[0]), k) < NBIGALLOCS
      ensures recs[..] == AddedTop(old(recs[..]), b, At(old(kids[0]), k - 1), At(old(kids[0]), k))
      ensures kids == old(kids)[0 := Inserted(old(kids)[0], k, b)]
    {
      ghost var rs := recs[..];
      var next, prev;
      next, prev, k := FindNeighbours(b);
      AddedTopLinked(rs, kids, b, k);
      recs[b] := recs[b].(nextSib := next, prevSib := prev);
      if prev != 0 {
        recs[prev] := recs[prev].(nextSib := b);
      }
      if next != 0 {
        recs[next] := recs[next].(prevSib := b);
      }
      assert recs[..] == AddedTop(rs, b, prev, next);
      kids := kids[0 := Inserted(kids[0], k, b)];
    }

    /** Take `b` off the top-level list, leaving its own links as they were. */
    method UnlinkToplevel(b: nat, ghost k: nat)
      requires recs.Length == NBIGALLOCS && Linked(recs[..], kids)
      requires 0 < b < NBIGALLOCS && k < |kids[0]| && kids[0][k] == b
      modifies recs, this`kids
      ensures Linked(recs[..], kids)
      ensures old(recs[b].prevSib) < NBIGALLOCS && old(recs[b].nextSib) < NBIGALLOCS
      ensures recs[..] == Unhooked(old(recs[..]), b)
      ensures kids == old(kids)[0 := Without(old(kids)[0], k)]
    {
      ghost var rs := recs[..];
      UnhookedTopLinked(rs, kids, k);
      if recs[b].prevSib != 0 {
        recs[recs[b].prevSib] := recs[recs[b].prevSib].(nextSib := recs[b].nextSib);
      }
      if recs[b].nextSib != 0 {
        recs[recs[b].nextSib] := recs[recs[b].nextSib].(prevSib := recs[b].prevSib);
      }
      assert recs[..] == Unhooked(rs, b);
      kids := kids[0 := Without(kids[0], k)];
    }

    // -------------------------------------------------------------- creation

    /** Fill the free slot `b` with `r` and hook it under its parent, or at top level. */
    method InitNoMemset(b: nat, r: Request) returns (ghost k: nat)
      requires Valid() && 0 < b < NBIGALLOCS && !InUse(recs[b]) && r.parent < NBIGALLOCS && r.parent != b
      requires r.parent == 0 ==> forall i :: 0 <= i < |kids[0]| && recs[kids[0][i]].end <= r.end ==>
        recs[kids[0][i]].begin < r.begin
      modifies recs, this`kids
      ensures Linked(recs[..], kids) && recs[0] == old(recs[0])
      ensures k <= |old(kids)[r.parent]| && kids == old(kids)[r.parent := Inserted(old(kids)[r.parent], k, b)]
      ensures r.parent == 0 ==> Slot(old(recs[..]), old(kids[0]), k, r.end)
      ensures Claimed(old(recs[..]), recs[..], b, old(NodeFor(Forest(), r)))
    {
      ghost var rs, nd := recs[..], NodeFor(Forest(), r);
      TopListHolds();
      FillRecord(b, r);
      if r.parent != 0 {
        k := 0;
        InitChild(b, r.parent, rs, nd);
      } else {
        k := InitTop(b, rs, nd);
      }
    }

    /** Fill a free record, which is on no list and has no children. */
    method FillRecord(b: nat, r: Request)
      requires recs.Length == NBIGALLOCS && Shaped(recs[..], kids, depth) && WellNested(Forest())
      requires 0 < b < NBIGALLOCS && !InUse(recs[b])
      modifies recs
      ensures Linked(recs[..], kids) && Loose(kids, b) && kids[b] == []
      ensures recs[b] == Record(r.begin, r.end, 0, 0, old(recs[b].parent), 0, r.allocatedBy, r.suballocator)
      ensures recs[..] == Filled(old(recs[..]), b, recs[b]) && recs[b].parent == 0
    {
      ghost var rs := recs[..];
      FreeIsLoose(rs, kids, depth, b);
      FreeIsChildless(rs, kids, depth, b);
      recs[b] := Record(r.begin, r.end, 0, 0, recs[b].parent, 0, r.allocatedBy, r.suballocator);
      assert recs[..] == Filled(rs, b, recs[b]);
      FilledLinked(rs, kids, b, recs[b]);
    }

    /** Hook the filled record `b` in under `q`. */
    method InitChild(b: nat, q: nat, ghost rs: seq<Record>, ghost nd: Node)
      requires recs.Length == NBIGALLOCS && Linked(recs[..], kids)
      requires 0 < b < NBIGALLOCS && Loose(kids, b) && |rs| == NBIGALLOCS && recs[..] == Filled(rs, b, recs[b])
      requires 0 < q < NBIGALLOCS && q != b && recs[b].firstChild == 0 && recs[b].prevSib == 0
      requires NodeOf(recs[b].(parent := q), nd.depth) == nd
      modifies recs, this`kids
      ensures Linked(recs[..], kids) && recs[0] == rs[0] && Claimed(rs, recs[..], b, nd)
      ensures kids == old(kids)[q := Inserted(old(kids)[q], 0, b)]
    {
      ghost var fs := recs[..];
      assert Inserted(kids[q], 0, b) == [b] + kids[q];
      AddChild(b, q);
      AddedChildClaims(rs, fs[b], b, q, nd);
    }

    /** Hook the filled record `b` in at top level. */
    method InitTop(b: nat, ghost rs: seq<Record>, ghost nd: Node) returns (ghost k: nat)
      requires recs.Length == NBIGALLOCS && Linked(recs[..], kids) && Started()
      requires 0 < b < NBIGALLOCS && Loose(kids, b) && |rs| == NBIGALLOCS && recs[..] == Filled(rs, b, recs[b])
      requires recs[b].parent == 0 && NodeOf(recs[b], nd.depth) == nd && nd.parent == 0
      requires (forall i :: 0 <= i < |kids[0]| ==> kids[0][i] < |rs|) && Ordered(rs, kids[0])
      requires forall i :: 0 <= i < |kids[0]| && rs[kids[0][i]].end <= nd.end ==> rs[kids[0][i]].begin < nd.begin
      modifies recs, this`kids
      ensures Linked(recs[..], kids) && recs[0] == rs[0]
      ensures k <= |old(kids)[0]| && kids == old(kids)[0 := Inserted(old(kids)[0], k, b)]
      ensures Slot(rs, old(kids[0]), k, nd.end) && Claimed(rs, recs[..], b, nd)
    {
      ghost var ks, fs := kids[0], recs[..];
      FilledTop(rs, ks, b, fs[b]);
      k := AddToplevel(b);
      FilledSlot(rs, ks, b, fs[b], k, nd.end);
      AddedTopClaims(rs, fs[b], b, At(ks, k - 1), At(ks, k), nd);
    }

    /** Overwrite the entries of the pages between two page boundaries. */
    method MemsetPages(from: nat, to: nat, num: nat, oldNum: nat) returns (passed: bool)
      requires PageNum(from) <= pageindex.Length && PageNum(to) <= pageindex.Length
      modifies pageindex
      ensures pageindex[..] == Fill(old(pageindex[..]), PageNum(from), PageNum(to), num)
      ensures passed <==> Passes(old(pageindex[..]), PageNum(from), PageNum(to), oldNum)
    {
      passed := MemsetBigalloc(PageNum(from), num, oldNum, PageDist(from, to));
    }

    /** Create `r` in the free slot `b`. */
    method Init(b: nat, r: Request) returns (ghost k: nat)
      requires Valid() && CanCreate(Forest(), b, NodeFor(Forest(), r))
      modifies recs, pageindex, this`kids, this`depth
      ensures Inv() && Forest() == old(Forest())[b := old(NodeFor(Forest(), r))]
      ensures k <= |old(kids)[r.parent]| && kids == old(kids)[r.parent := Inserted(old(kids)[r.parent], k, b)]
    {
      ghost var rs, ks, pi, nd := recs[..], kids, pageindex[..], NodeFor(Forest(), r);
      if nd.parent == 0 {
        CreateTopRoom(rs, kids, depth, b, nd);
      }
      k := InitNoMemset(b, r);
      assert PageNum(RoundUp(r.begin, PAGE_SIZE)) <= NPAGES && PageNum(RoundDown(r.end, PAGE_SIZE)) <= NPAGES by {
        LimitPages(r.begin);
        LimitPages(r.end);
      }
      var _ := MemsetPages(RoundUp(r.begin, PAGE_SIZE), RoundDown(r.end, PAGE_SIZE), b, r.parent);
      ClaimedSound(rs, recs[..], ks, depth, pi, b, nd, k);
      depth := depth[b := nd.depth];
    }

    /** Every slot is taken. */
    ghost predicate Full()
      reads recs
    {
      forall i :: 0 < i < recs.Length ==> InUse(recs[i])
    }

    /** Grab the lowest free slot for a bigalloc, or give up with 0 when there is none. */
    method New(r: Request) returns (b: nat)
      requires Valid() && start != 0 && FreshRange(Forest(), r.parent, r.begin, r.end)
      requires forall m :: m in Forest() && Forest()[m].parent == r.parent ==> Apart(Forest()[m], NodeFor(Forest(), r))
      modifies recs, pageindex, this`kids, this`depth
      ensures Valid()
      ensures b == 0 <==> old(Full())
      ensures b == 0 ==> Forest() == old(Forest()) && pageindex[..] == old(pageindex[..])
      ensures b != 0 ==> b !in old(Forest()) && Forest() == old(Forest())[b := old(NodeFor(Forest(), r))]
      ensures b != 0 ==> Forest()[b] == Node(r.begin, r.end, r.parent,
        if r.parent in old(Forest()) then old(Forest())[r.parent].depth + 1 else 1, r.allocatedBy, r.suballocator)
    {
      b := FindFree();
      if b != 0 {
        InitStarted(b, r);
      }
    }

    /** Create `r` in the free slot `b`; searches still have somewhere to start from. */
    method InitStarted(b: nat, r: Request)
      requires Valid() && start != 0 && CanCreate(Forest(), b, NodeFor(Forest(), r))
      modifies recs, pageindex, this`kids, this`depth
      ensures Valid() && Forest() == old(Forest())[b := old(NodeFor(Forest(), r))]
    {
      ghost var ks := kids[0];
      ghost var k := Init(b, r);
      InsertedKeeps(ks, k, b);
    }

    /** Create the first mapping, from which the top-level list is searched ever after. */
    method Boot(begin: nat, end: nat, allocatedBy: nat) returns (b: nat)
      requires Valid() && start == 0 && 0 < begin < end <= AddressLimit()
      modifies recs, pageindex, this`kids, this`depth, this`start
      ensures Valid() && start == b != 0
      ensures Forest() == map[b := Node(begin, end, 0, 1, allocatedBy, 0)]
    {
      NoMappings();
      assert 1 !in Forest();
      b := FindFree();
      ghost var k := Init(b, Request(begin, end, 0, allocatedBy, 0));
      assert kids[0][k] == b;
      start := b;
    }

    /** With no top-level mapping there is nothing at all. */
    lemma NoMappings()
      requires Valid() && start == 0
      ensures Forest() == map[]
    {
      forall n | n in Forest()
        ensures false
      {
        var t := TopAbove(Forest(), n);
        KidsAre(recs[..], kids, depth, 0, t);
      }
    }

    // -------------------------------------------------------------- deletion

    /** Take `b` off whichever list it is on. */
    method Unlink(b: nat, ghost k: nat)
      requires recs.Length == NBIGALLOCS && Linked(recs[..], kids)
      requires 0 < b < NBIGALLOCS && recs[b].parent < NBIGALLOCS && recs[b].parent != b
      requires k < |kids[recs[b].parent]| && kids[recs[b].parent][k] == b
      modifies recs, this`kids
      ensures Linked(recs[..], kids) && Released(old(recs[..]), Cleared(recs[..], b), b)
      ensures recs[0] == old(recs[0]) && recs[b].begin == old(recs[b].begin) && recs[b].end == old(recs[b].end)
      ensures kids == old(kids)[old(recs[b].parent) := Without(old(kids)[old(recs[b].parent)], k)]
    {
      ghost var rs := recs[..];
      if recs[b].parent != 0 {
        UnlinkChild(b, k);
        RemovedReleases(rs, b);
        RemovedChildFields(rs, b, b);
      } else {
        UnlinkToplevel(b, k);
        UnhookedReleases(rs, b);
        UnhookedFields(rs, b, b);
      }
    }

    /** Give up a bigalloc whose children are gone: unlink it, hand its pages to its parent. */
    method Release(b: nat, ghost k: nat)
      requires Inv() && 0 < b < NBIGALLOCS && recs[b].parent < NBIGALLOCS && recs[b].parent != b
      requires k < |kids[recs[b].parent]| && kids[recs[b].parent][k] == b && kids[b] == []
      modifies recs, pageindex, this`kids
      ensures Inv()
      ensures b in old(Forest()) && Forest() == old(Forest()) - {b}
      ensures kids == old(kids)[old(recs[b].parent) := Without(old(kids)[old(recs[b].parent)], k)]
    {
      ghost var rs, ks, pi := recs[..], kids, pageindex[..];
      InUseInRange(rs, ks, depth, pi, b, k);
      var q := recs[b].parent;
      Unlink(b, k);
      var _ := MemsetPages(RoundUp(recs[b].begin, PAGE_SIZE), RoundDown(recs[b].end, PAGE_SIZE), q, b);
      ClearedLinked(recs[..], kids, b);
      ghost var us := recs[..];
      recs[b] := recs[b].(begin := 0, end := 0);
      assert recs[..] == Cleared(us, b);
      ReleasedSound(rs, recs[..], ks, depth, pi, b, q, k);
    }

    lemma StartSurvives(before: seq<seq<nat>>, q: nat, k: nat)
      requires |before| == NBIGALLOCS && q < NBIGALLOCS && k < |before[q]| && before[q][k] != start
      requires kids == before[q := Without(before[q], k)]
      requires if start == 0 then before[0] == [] else start in before[0]
      ensures Started()
    {
      if q == 0 {
        WithoutIn(before[0], k, start);
      }
    }

    /** Delete everything below `b`. */
    method DelChildren(b: nat)
      requires Valid() && b in Forest() && start !in Subtree(Forest(), b)
      modifies recs, pageindex, this`kids
      ensures Valid() && Pruned(old(Forest()), Forest(), b) && kids[b] == []
      ensures KeptOutside(old(kids), kids, old(Subtree(Forest(), b)))
      decreases Subtree(Forest(), b), 1
    {
      ghost var f, ks, tree := Forest(), kids, Subtree(Forest(), b);
      FirstChildOf(recs[..], kids, depth, b);
      var child := recs[b].firstChild;
      while child != 0
        invariant Valid() && Pruned(f, Forest(), b)
        invariant child == At(kids[b], 0)
        invariant KeptOutside(ks, kids, tree)
        decreases |kids[b]|
      {
        child := DelChild(b, child, f);
      }
    }

    /** One round of the loop above: delete the first child and return the next one. */
    method DelChild(b: nat, child: nat, ghost f: Forest) returns (next: nat)
      requires Valid() && Pruned(f, Forest(), b) && start !in Subtree(f, b)
      requires child == At(kids[b], 0) && kids[b] != []
      modifies recs, pageindex, this`kids
      ensures Valid() && Pruned(f, Forest(), b)
      ensures next == At(kids[b], 0) && |kids[b]| < old(|kids[b]|) && KeptOutside(old(kids), kids, Subtree(f, b))
      decreases Subtree(f, b), 0, 1
    {
      PruneFirst(f, recs[..], kids, depth, b);
      ghost var ks := kids[b];
      next := recs[child].nextSib;
      DelFirst(b, child, f);
      FirstOfRest(ks);
    }

    /** Delete the first child of `b`. */
    method DelFirst(b: nat, child: nat, ghost f: Forest)
      requires Valid() && WellNested(f) && b in f && start !in Subtree(f, b)
      requires b < |kids| && kids[b] != [] && child == kids[b][0]
      requires child in Forest() && Forest()[child].parent == b && b in Forest()
      requires Subtree(Forest(), child) < Subtree(f, b)
      requires Pruned(f, Forest() - Subtree(Forest(), child), b)
      modifies recs, pageindex, this`kids
      ensures Valid() && Pruned(f, Forest(), b) && kids[b] == old(kids[b])[1..]
      ensures KeptOutside(old(kids), kids, Subtree(f, b))
      decreases Subtree(f, b), 0, 0
    {
      ghost var ks, tree := kids, Subtree(Forest(), child);
      ParentOutside(Forest(), child);
      ghost var j := Del(child);
      WithoutFirst(ks[b], j);
      ListsOutside(ks, kids, b, j, child, tree, Subtree(f, b));
    }

    /** Delete `b` once its children are gone. */
    method DelLast(b: nat, ghost k: nat, ghost f: Forest, ghost tree: set<nat>, ghost ks: seq<seq<nat>>)
      requires Valid() && Pruned(f, Forest(), b) && kids[b] == [] && tree == Subtree(f, b) && start !in tree
      requires |ks| == NBIGALLOCS && f[b].parent !in tree && f[b].parent < NBIGALLOCS && f[b].parent != b
      requires k < |ks[f[b].parent]| && ks[f[b].parent][k] == b
      requires KeptOutside(ks, kids, tree)
      modifies recs, pageindex, this`kids
      ensures Valid() && Forest() == f - tree
      ensures ListsAfterDelete(ks, kids, f[b].parent, k, b, tree)
    {
      PruneDoneTable(f, recs[..], kids, depth, b);
      ghost var mid, q := kids, recs[b].parent;
      ReleaseLeaf(b, k);
      ListsDeleted(ks, mid, kids, q, k, b, tree);
    }

    /** Release a record that is not the one searches start from. */
    method ReleaseLeaf(b: nat, ghost k: nat)
      requires Valid() && 0 < b < NBIGALLOCS && recs[b].parent < NBIGALLOCS && recs[b].parent != b && b != start
      requires k < |kids[recs[b].parent]| && kids[recs[b].parent][k] == b && kids[b] == []
      modifies recs, pageindex, this`kids
      ensures Valid()
      ensures b in old(Forest()) && Forest() == old(Forest()) - {b}
      ensures kids == old(kids)[old(recs[b].parent) := Without(old(kids)[old(recs[b].parent)], k)]
    {
      ghost var mid, q := kids, recs[b].parent;
      Release(b, k);
      StartSurvives(mid, q, k);
    }

    /** Delete `b` and, first, everything below it. `k` is where `b` was in its parent's list. */
    method Del(b: nat) returns (ghost k: nat)
      requires Valid() && b in Forest() && start !in Subtree(Forest(), b)
      modifies recs, pageindex, this`kids
      ensures Valid()
      ensures Forest() == old(Forest()) - old(Subtree(Forest(), b))
      ensures ListsAfterDelete(old(kids), kids, old(recs[b].parent), k, b, old(Subtree(Forest(), b)))
      decreases Subtree(Forest(), b), 2
    {
      ghost var f, ks, tree := Forest(), kids, Subtree(Forest(), b);
      k := PositionOf(recs[..], kids, depth, b);
      ParentOutside(f, b);
      DelChildren(b);
      DelLast(b, k, f, tree, ks);
    }
  }
}
