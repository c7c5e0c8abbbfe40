/** Splitting a bigalloc in two at an address. */
module BigallocSplitting {
  import opened Pages
  import opened Forests
  import opened ForestMoves
  import opened Lists
  import opened Links
  import opened Table
  import opened BigallocTables

  /** Take `c`, the `k`th child of `b`, off its list and put it at the head of the list of `half`. */
  method MoveChild(t: BigallocTable, c: nat, half: nat, ghost b: nat, ghost k: nat)
    requires t.recs.Length == NBIGALLOCS && Linked(t.recs[..], t.kids)
    requires 0 < b < NBIGALLOCS && 0 < half < NBIGALLOCS && b != half && c != half && c != b
    requires k < |t.kids[b]| && t.kids[b][k] == c
    modifies t.recs, t`kids
    ensures Linked(t.recs[..], t.kids)
    ensures t.kids == old(t.kids)[b := Without(old(t.kids)[b], k)][half := [c] + old(t.kids)[half]]
    ensures Reparented(old(t.recs[..]), t.recs[..], {c}, half)
  {
    ghost var rs, ks := t.recs[..], t.kids;
    assert LinkAt(rs, b, ks[b], k);
    t.UnlinkChild(c, k);
    UnlinkedIsLoose(rs, ks, b, k);
    ghost var mid := t.recs[..];
    t.AddChild(c, half);
    MovedChildCore(rs, c, half);
  }

  lemma UnlinkedIsLoose(rs: seq<Record>, kids: seq<seq<nat>>, b: nat, k: nat)
    requires Linked(rs, kids) && b < |kids| && k < |kids[b]|
    ensures Loose(kids[b := Without(kids[b], k)], kids[b][k])
  {
    var kids' := kids[b := Without(kids[b], k)];
    forall q | 0 <= q < |kids'|
      ensures kids[b][k] !in kids'[q]
    {
      RemovedFromAll(rs, kids, b, k, q);
    }
  }

  ghost function MoveSet(rs: seq<Record>, ls: seq<nat>, at: nat): set<nat>
    requires forall i :: 0 <= i < |ls| ==> ls[i] < |rs|
  {
    set c | c in Move(rs, ls, at)
  }

  /** What the loop over the children needs to know about them. */
  ghost predicate Movable(rs: seq<Record>, ls: seq<nat>, b: nat, half: nat) {
    && 0 < b < |rs| && 0 < half < |rs| && b != half
    && forall i :: 0 <= i < |ls| ==> 0 < ls[i] < |rs| && ls[i] != b && ls[i] != half && rs[ls[i]].end <= rs[b].end
  }

  /** Hand the children in the second half over to `half`. */
  method MoveChildren(t: BigallocTable, b: nat, half: nat, at: nat)
    requires t.recs.Length == NBIGALLOCS && Linked(t.recs[..], t.kids) && b < NBIGALLOCS
    requires Movable(t.recs[..], t.kids[b], b, half) && t.kids[half] == []
    modifies t.recs, t`kids
    ensures Linked(t.recs[..], t.kids)
    ensures SplitLists(old(t.recs[..]), old(t.kids), t.kids, b, half, at, |old(t.kids)[b]|)
    ensures Reparented(old(t.recs[..]), t.recs[..], MoveSet(old(t.recs[..]), old(t.kids)[b], at), half)
  {
    ghost var rs, kids, ls := t.recs[..], t.kids, t.kids[b];
    ghost var i := 0;
    var child := t.recs[b].firstChild;
    while child != 0
      invariant i <= |ls| && child == At(ls, i)
      invariant Linked(t.recs[..], t.kids)
      invariant SplitLists(rs, kids, t.kids, b, half, at, i)
      invariant Reparented(rs, t.recs[..], MoveSet(rs, ls[..i], at), half)
      decreases |ls| - i
    {
      child := MoveOne(t, b, half, at, child, rs, kids, i);
      i := i + 1;
    }
    assert ls[..i] == ls;
  }

  /** What the loop reads: the next child, and ranges that the moves have left alone. */
  lemma MoveReads(rs: seq<Record>, cur: seq<Record>, kids: seq<seq<nat>>, ks: seq<seq<nat>>, b: nat, half: nat, at: nat,
      i: nat)
    requires Linked(cur, ks) && b < |kids| && Movable(rs, kids[b], b, half) && i < |kids[b]|
    requires SplitLists(rs, kids, ks, b, half, at, i)
    requires Reparented(rs, cur, MoveSet(rs, kids[b][..i], at), half)
    ensures var k, c := |Keep(rs, kids[b][..i], at)|, kids[b][i];
      && k < |ks[b]| && ks[b][k] == c && 0 < c < |cur| && cur[c].nextSib == At(kids[b], i + 1)
      && cur[c].begin == rs[c].begin && cur[c].end == rs[c].end && cur[b].end == rs[b].end
  {
    var k, c := |Keep(rs, kids[b][..i], at)|, kids[b][i];
    KeepMoveStep(rs, kids[b], at, i);
    assert ks[b][k] == c && At(ks[b], k + 1) == At(kids[b], i + 1);
    assert LinkAt(cur, b, ks[b], k);
    assert SameCore(cur[b], rs[b].(parent := if b in MoveSet(rs, kids[b][..i], at) then half else rs[b].parent));
    assert SameCore(cur[c], rs[c].(parent := if c in MoveSet(rs, kids[b][..i], at) then half else rs[c].parent));
  }

  lemma MoveSetStep(rs: seq<Record>, ls: seq<nat>, at: nat, i: nat)
    requires (forall j :: 0 <= j < |ls| ==> ls[j] < |rs|) && i < |ls|
    ensures MoveSet(rs, ls[..i + 1], at) ==
      if at <= rs[ls[i]].begin then MoveSet(rs, ls[..i], at) + {ls[i]} else MoveSet(rs, ls[..i], at)
  {
    KeepMoveStep(rs, ls, at, i);
  }

  /** One round of that loop. */
  method MoveOne(t: BigallocTable, b: nat, half: nat, at: nat, child: nat,
                 ghost rs: seq<Record>, ghost kids: seq<seq<nat>>, ghost i: nat) returns (next: nat)
    requires t.recs.Length == NBIGALLOCS && Linked(t.recs[..], t.kids) && b < |kids|
    requires Movable(rs, kids[b], b, half)
    requires i < |kids[b]| && child == kids[b][i]
    requires SplitLists(rs, kids, t.kids, b, half, at, i)
    requires Reparented(rs, t.recs[..], MoveSet(rs, kids[b][..i], at), half)
    modifies t.recs, t`kids
    ensures Linked(t.recs[..], t.kids) && next == At(kids[b], i + 1)
    ensures SplitLists(rs, kids, t.kids, b, half, at, i + 1)
    ensures Reparented(rs, t.recs[..], MoveSet(rs, kids[b][..i + 1], at), half)
  {
    MoveReads(rs, t.recs[..], kids, t.kids, b, half, at, i);
    MoveSetStep(rs, kids[b], at, i);
    next := t.recs[child].nextSib;
    if t.recs[child].begin >= at && t.recs[child].end <= t.recs[b].end {
      SplitListsMove(rs, kids, t.kids, b, half, at, i);
      ghost var before := t.recs[..];
      MoveChild(t, child, half, b, |Keep(rs, kids[b][..i], at)|);
      ReparentedStep(rs, before, t.recs[..], MoveSet(rs, kids[b][..i], at), child, half);
    } else {
      SplitListsStay(rs, kids, t.kids, b, half, at, i);
    }
  }

  lemma SplitTopRoom(rs: seq<Record>, kids: seq<seq<nat>>, depth: seq<nat>, b: nat, at: nat)
    requires Shaped(rs, kids, depth) && WellNested(ForestOf(rs, depth)) && Splittable(ForestOf(rs, depth), b, at)
    requires rs[b].parent == 0
    ensures forall i :: 0 <= i < |kids[0]| && rs[kids[0][i]].end <= rs[b].end ==> rs[kids[0][i]].begin < at
  {
    forall i | 0 <= i < |kids[0]| && rs[kids[0][i]].end <= rs[b].end
      ensures rs[kids[0][i]].begin < at
    {
      KidsAre(rs, kids, depth, 0, kids[0][i]);
    }
  }

  /** After the second half has been hooked in, the children of `b` are ready to be moved. */
  lemma SplitReady(rs: seq<Record>, kids: seq<seq<nat>>, depth: seq<nat>, rs1: seq<Record>, b: nat, half: nat, nd: Node)
    requires Shaped(rs, kids, depth) && WellNested(ForestOf(rs, depth)) && b in ForestOf(rs, depth)
    requires 0 < half < |rs| && !InUse(rs[half]) && Claimed(rs, rs1, half, nd)
    ensures Movable(rs1, kids[b], b, half)
    ensures forall i :: 0 <= i < |kids[b]| ==> rs1[kids[b][i]].begin == rs[kids[b][i]].begin
  {
    assert SameCore(rs1[b], rs[b]);
    forall i | 0 <= i < |kids[b]|
      ensures 0 < kids[b][i] < |rs1| && kids[b][i] != b && kids[b][i] != half && rs1[kids[b][i]].end <= rs1[b].end
      ensures rs1[kids[b][i]].begin == rs[kids[b][i]].begin
    {
      KidsAre(rs, kids, depth, b, kids[b][i]);
      assert SameCore(rs1[kids[b][i]], rs[kids[b][i]]);
    }
  }

  lemma {:induction false} KeepMoveSame(rs: seq<Record>, rs1: seq<Record>, ls: seq<nat>, at: nat)
    requires |rs1| == |rs| && forall i :: 0 <= i < |ls| ==> ls[i] < |rs| && rs1[ls[i]].begin == rs[ls[i]].begin
    ensures Keep(rs1, ls, at) == Keep(rs, ls, at) && Move(rs1, ls, at) == Move(rs, ls, at)
  {
    if ls != [] {
      KeepMoveSame(rs, rs1, ls[..|ls| - 1], at);
    }
  }

  lemma SplitListsSame(rs: seq<Record>, rs1: seq<Record>, kids: seq<seq<nat>>, ks: seq<seq<nat>>, b: nat, half: nat,
      at: nat)
    requires |rs1| == |rs| && b < |kids|
    requires forall i :: 0 <= i < |kids[b]| ==> kids[b][i] < |rs| && rs1[kids[b][i]].begin == rs[kids[b][i]].begin
    requires SplitLists(rs1, kids, ks, b, half, at, |kids[b]|)
    ensures SplitLists(rs, kids, ks, b, half, at, |kids[b]|)
  {
    assert kids[b][..|kids[b]|] == kids[b];
    KeepMoveSame(rs, rs1, kids[b], at);
  }

  /** Hooking in the second half, moving the children and cutting `b`, put together. */
  lemma SplitComposed(rs: seq<Record>, kids: seq<seq<nat>>, rs1: seq<Record>, rs2: seq<Record>, b: nat, half: nat,
      at: nat, nd: Node)
    requires 0 < b < |rs| && b < |kids| && 0 < half < |rs| && b != half
    requires Claimed(rs, rs1, half, nd) && rs1[0] == rs[0]
    requires nd == NodeOf(rs[b].(begin := at), nd.depth)
    requires Movable(rs1, kids[b], b, half)
    requires forall i :: 0 <= i < |kids[b]| ==> kids[b][i] < |rs| && rs1[kids[b][i]].begin == rs[kids[b][i]].begin
    requires Reparented(rs1, rs2, MoveSet(rs1, kids[b], at), half)
    ensures SplitRecords(rs, rs2[b := rs2[b].(end := at)], kids, b, half, at)
  {
    var s := rs2[b := rs2[b].(end := at)];
    forall n | 0 < n < |rs|
      ensures SplitRecordAt(rs, s, kids, b, half, at, n)
    {
      SplitComposedAt(rs, kids, rs1, rs2, b, half, at, nd, n);
    }
  }

  lemma SplitComposedAt(rs: seq<Record>, kids: seq<seq<nat>>, rs1: seq<Record>, rs2: seq<Record>, b: nat, half: nat,
      at: nat, nd: Node, n: nat)
    requires 0 < b < |rs| && b < |kids| && 0 < half < |rs| && b != half && 0 < n < |rs|
    requires Claimed(rs, rs1, half, nd)
    requires nd == NodeOf(rs[b].(begin := at), nd.depth)
    requires Movable(rs1, kids[b], b, half)
    requires forall i :: 0 <= i < |kids[b]| ==> kids[b][i] < |rs| && rs1[kids[b][i]].begin == rs[kids[b][i]].begin
    requires Reparented(rs1, rs2, MoveSet(rs1, kids[b], at), half)
    ensures SplitRecordAt(rs, rs2[b := rs2[b].(end := at)], kids, b, half, at, n)
  {
    KeepMoveMembers(rs1, kids[b], at, n);
    assert SameCore(rs2[n], rs1[n].(parent := if n in MoveSet(rs1, kids[b], at) then half else rs1[n].parent));
    if n != half {
      assert SameCore(rs1[n], rs[n]);
    }
  }

  lemma EndSetLinked(rs: seq<Record>, kids: seq<seq<nat>>, b: nat, e: nat)
    requires Linked(rs, kids) && b < |rs|
    ensures Linked(rs[b := rs[b].(end := e)], kids)
  {
    var s := rs[b := rs[b].(end := e)];
    forall q | 0 <= q < |kids|
      ensures Chain(s, q, kids[q])
    {
      OtherChain(rs, s, q, kids[q]);
    }
  }

  /** Replace `b` by `half` on every page of the second half. */
  method ReplaceEntries(t: BigallocTable, b: nat, half: nat, from: nat, to: nat)
    requires PageNum(from) <= PageNum(to) <= t.pageindex.Length
    modifies t.pageindex
    ensures t.pageindex[..] == Replaced(old(t.pageindex[..]), PageNum(from), PageNum(to), b, half)
  {
    for pos := PageNum(from) to PageNum(to)
      invariant forall p :: 0 <= p < t.pageindex.Length ==>
        t.pageindex[p] == if PageNum(from) <= p < pos && old(t.pageindex[p]) == b then half else old(t.pageindex[p])
    {
      if t.pageindex[pos] == b {
        t.pageindex[pos] := half;
      }
    }
  }

  /** The lists and the forest after a split. */
  lemma SplitShape(rs: seq<Record>, s: seq<Record>, kids: seq<seq<nat>>, mid: seq<seq<nat>>, ks: seq<seq<nat>>,
      depth: seq<nat>, pi: seq<nat>, b: nat, half: nat, at: nat, k: nat)
    requires Sound(rs, kids, depth, pi)
    requires CanSplit(ForestOf(rs, depth), b, half, at) && SplitRecords(rs, s, kids, b, half, at) && Linked(s, ks)
    requires rs[b].parent < |kids| && k <= |kids[rs[b].parent]|
    requires mid == kids[rs[b].parent := Inserted(kids[rs[b].parent], k, half)]
    requires SplitLists(rs, mid, ks, b, half, at, |kids[b]|)
    requires rs[b].parent == 0 ==> Slot(rs, kids[0], k, rs[b].end)
    ensures Shaped(s, ks, depth[half := depth[b]]) && Ascending(s, ks[0])
    ensures ForestOf(s, depth[half := depth[b]]) == SplitForest(ForestOf(rs, depth), b, half, at)
  {
    assert ForestOf(rs, depth)[b].parent == rs[b].parent;
    FreeIsChildless(rs, kids, depth, half);
    SplitHeld(rs, s, kids, mid, ks, depth, b, half, at, k);
    SplitTableForest(rs, s, kids, depth, b, half, at);
    if rs[b].parent == 0 {
      SplitAscending(rs, s, kids, depth, b, half, at, k);
    } else {
      SplitTopUntouched(rs, s, kids, depth, b, half, at);
    }
  }

  lemma HalfRequest(rs: seq<Record>, kids: seq<seq<nat>>, depth: seq<nat>, b: nat, half: nat, at: nat)
    requires Shaped(rs, kids, depth) && WellNested(ForestOf(rs, depth)) && CanSplit(ForestOf(rs, depth), b, half, at)
    ensures 0 < b < |rs| && 0 < half < |rs| && !InUse(rs[half]) && rs[b].parent < |rs| && rs[b].parent != half
    ensures kids[half] == []
    ensures rs[b].parent == 0 ==>
      forall i :: 0 <= i < |kids[0]| && rs[kids[0][i]].end <= rs[b].end ==> rs[kids[0][i]].begin < at
    ensures NodeFor(ForestOf(rs, depth), Request(at, rs[b].end, rs[b].parent, rs[b].allocatedBy, rs[b].suballocator))
      == NodeOf(rs[b].(begin := at), depth[b])
  {
    if rs[b].parent == 0 {
      SplitTopRoom(rs, kids, depth, b, at);
    }
    FreeIsChildless(rs, kids, depth, half);
  }

  /** `half` has been given `nd` and hooked in at position `k` of the list that `b` is on. */
  ghost predicate Hooked(rs: seq<Record>, s: seq<Record>, kids: seq<seq<nat>>, ks: seq<seq<nat>>, b: nat, half: nat,
      k: nat, nd: Node) {
    && |rs| == |s| == |kids| && 0 < b < |rs| && half < |rs| && rs[b].parent < |kids|
    && Linked(s, ks) && s[0] == rs[0] && Claimed(rs, s, half, nd) && k <= |kids[rs[b].parent]|
    && ks == kids[rs[b].parent := Inserted(kids[rs[b].parent], k, half)]
    && (forall i :: 0 <= i < |kids[0]| ==> kids[0][i] < |rs|)
    && (rs[b].parent == 0 ==> Slot(rs, kids[0], k, rs[b].end))
  }

  /** Hook the second half in beside `b`, which still covers the whole range. */
  method HookHalf(t: BigallocTable, b: nat, half: nat, at: nat) returns (ghost k: nat)
    requires t.Valid() && CanSplit(t.Forest(), b, half, at)
    modifies t.recs, t`kids
    ensures Hooked(old(t.recs[..]), t.recs[..], old(t.kids), t.kids, b, half, k,
      old(NodeOf(t.recs[b].(begin := at), t.Forest()[b].depth)))
  {
    HalfRequest(t.recs[..], t.kids, t.depth, b, half, at);
    var tmp := t.recs[b];
    k := t.InitNoMemset(half, Request(at, tmp.end, tmp.parent, tmp.allocatedBy, tmp.suballocator));
  }

  /** Hooking leaves the list of children that is to be shared out as it was. */
  lemma HookedReady(rs: seq<Record>, s: seq<Record>, kids: seq<seq<nat>>, ks: seq<seq<nat>>, depth: seq<nat>, b: nat,
      half: nat, at: nat, k: nat, nd: Node)
    requires Shaped(rs, kids, depth) && WellNested(ForestOf(rs, depth)) && CanSplit(ForestOf(rs, depth), b, half, at)
    requires Hooked(rs, s, kids, ks, b, half, k, nd)
    ensures ks[b] == kids[b] && ks[half] == [] && Movable(s, ks[b], b, half)
    ensures forall i :: 0 <= i < |ks[b]| ==> s[ks[b][i]].begin == rs[ks[b][i]].begin
  {
    HalfRequest(rs, kids, depth, b, half, at);
    OwnList(ForestOf(rs, depth), b);
    SplitReady(rs, kids, depth, s, b, half, nd);
  }

  method HookReady(t: BigallocTable, b: nat, half: nat, at: nat) returns (ghost k: nat)
    requires t.Valid() && CanSplit(t.Forest(), b, half, at)
    modifies t.recs, t`kids
    ensures Hooked(old(t.recs[..]), t.recs[..], old(t.kids), t.kids, b, half, k,
      old(NodeOf(t.recs[b].(begin := at), t.Forest()[b].depth)))
    ensures t.kids[b] == old(t.kids)[b] && t.kids[half] == [] && Movable(t.recs[..], t.kids[b], b, half)
    ensures forall i :: 0 <= i < |t.kids[b]| ==> t.recs[t.kids[b][i]].begin == old(t.recs[..])[t.kids[b][i]].begin
  {
    ghost var rs, kids, nd := t.recs[..], t.kids, NodeOf(t.recs[b].(begin := at), t.Forest()[b].depth);
    k := HookHalf(t, b, half, at);
    HookedReady(rs, t.recs[..], kids, t.kids, t.depth, b, half, at, k, nd);
  }

  /** Move the children over and cut `b`. */
  method CutHalf(t: BigallocTable, b: nat, half: nat, at: nat, ghost rs: seq<Record>, ghost kids: seq<seq<nat>>,
      ghost nd: Node)
    requires t.recs.Length == |rs| == NBIGALLOCS && Linked(t.recs[..], t.kids) && 0 < b < NBIGALLOCS
    requires Claimed(rs, t.recs[..], half, nd) && t.recs[0] == rs[0] && nd == NodeOf(rs[b].(begin := at), nd.depth)
    requires |kids| == |t.kids| && t.kids[b] == kids[b] && t.kids[half] == [] && Movable(t.recs[..], t.kids[b], b, half)
    requires forall i :: 0 <= i < |t.kids[b]| ==> t.recs[t.kids[b][i]].begin == rs[t.kids[b][i]].begin
    modifies t.recs, t`kids
    ensures Linked(t.recs[..], t.kids) && SplitRecords(rs, t.recs[..], kids, b, half, at)
    ensures (forall i :: 0 <= i < |kids[b]| ==> kids[b][i] < |rs|) &&
      SplitLists(rs, old(t.kids), t.kids, b, half, at, |kids[b]|)
  {
    ghost var rs1, mid := t.recs[..], t.kids;
    MoveChildren(t, b, half, at);
    ghost var rs2 := t.recs[..];
    EndSetLinked(rs2, t.kids, b, at);
    t.recs[b] := t.recs[b].(end := at);
    assert t.recs[..] == rs2[b := rs2[b].(end := at)];
    SplitComposed(rs, kids, rs1, rs2, b, half, at, nd);
    SplitListsSame(rs, rs1, mid, t.kids, b, half, at);
  }

  lemma SplitKeepsStart(kids: seq<seq<nat>>, ks: seq<seq<nat>>, p: nat, k: nat, half: nat, start: nat)
    requires |kids| == |ks| && p < |kids| && k <= |kids[p]| && 0 < |kids|
    requires ks[0] == kids[p := Inserted(kids[p], k, half)][0] && start in kids[0]
    ensures start in ks[0]
  {
    InsertedKeeps(kids[p], k, half);
  }

  /** What a split leaves in the records and the lists, `k` being where the second half was hooked in. */
  ghost predicate Halved(rs: seq<Record>, s: seq<Record>, kids: seq<seq<nat>>, ks: seq<seq<nat>>, b: nat,
      half: nat, at: nat, k: nat) {
    && Linked(s, ks) && |rs| == |kids| == |ks| && b < |rs| && SplitRecords(rs, s, kids, b, half, at)
    && rs[b].parent < |kids| && k <= |kids[rs[b].parent]|
    && (forall i :: 0 <= i < |kids[b]| ==> kids[b][i] < |rs|)
    && (forall i :: 0 <= i < |kids[0]| ==> kids[0][i] < |rs|)
    && (rs[b].parent == 0 ==> Slot(rs, kids[0], k, rs[b].end))
    && var mid := kids[rs[b].parent := Inserted(kids[rs[b].parent], k, half)];
       mid[b] == kids[b] && SplitLists(rs, mid, ks, b, half, at, |kids[b]|)
  }

  /** Everything the split does to the records. */
  method HalveTable(t: BigallocTable, b: nat, half: nat, at: nat) returns (ghost k: nat)
    requires t.Valid() && CanSplit(t.Forest(), b, half, at)
    modifies t.recs, t`kids
    ensures Halved(old(t.recs[..]), t.recs[..], old(t.kids), t.kids, b, half, at, k)
    ensures t.recs[half].begin == at && t.recs[half].end == old(t.Forest()[b].end)
  {
    ghost var rs, kids, nd := t.recs[..], t.kids, NodeOf(t.recs[b].(begin := at), t.Forest()[b].depth);
    k := HookReady(t, b, half, at);
    CutHalf(t, b, half, at, rs, kids, nd);
    assert SplitRecordAt(rs, t.recs[..], kids, b, half, at, half);
  }

  /** No node is its own parent. */
  lemma OwnList(f: Forest, b: nat)
    requires WellNested(f) && b in f
    ensures f[b].parent != b
  {
  }

  lemma HalvedSound(rs: seq<Record>, s: seq<Record>, kids: seq<seq<nat>>, ks: seq<seq<nat>>, depth: seq<nat>,
      pi: seq<nat>, pi': seq<nat>, b: nat, half: nat, at: nat, k: nat, start: nat)
    requires Sound(rs, kids, depth, pi) && CanSplit(ForestOf(rs, depth), b, half, at)
    requires Halved(rs, s, kids, ks, b, half, at, k) && start in kids[0]
    requires pi' == SplitPatch(ForestOf(rs, depth), pi, b, half, at)
    ensures Shaped(s, ks, depth[half := depth[b]]) && start in ks[0]
    ensures ForestOf(s, depth[half := depth[b]]) == SplitForest(ForestOf(rs, depth), b, half, at)
    ensures Sound(s, ks, depth[half := depth[b]], pi') <==> SplitExact(ForestOf(rs, depth), b, at)
  {
    SplitShape(rs, s, kids, kids[rs[b].parent := Inserted(kids[rs[b].parent], k, half)], ks, depth, pi, b, half, at, k);
    SplitKeepsStart(kids, ks, rs[b].parent, k, half, start);
    SplitAgreesIff(ForestOf(rs, depth), pi, b, half, at);
  }

  /** Split `b` at `at` into `b` and a new bigalloc, or give up with 0 when no slot is free. */
  method Split(t: BigallocTable, b: nat, at: nat) returns (half: nat)
    requires t.Valid() && t.start != 0 && Splittable(t.Forest(), b, at)
    modifies t.recs, t.pageindex, t`kids, t`depth
    ensures half == 0 <==> old(t.Full())
    ensures half == 0 ==> t.Valid() && t.Forest() == old(t.Forest()) && t.pageindex[..] == old(t.pageindex[..])
    ensures half != 0 ==>
      half !in old(t.Forest()) && t.Tree() && t.Forest() == SplitForest(old(t.Forest()), b, half, at)
    ensures half != 0 ==> t.pageindex[..] == SplitPatch(old(t.Forest()), old(t.pageindex[..]), b, half, at)
    ensures half != 0 ==> (t.Valid() <==> old(SplitExact(t.Forest(), b, at)))
  {
    half := t.FindFree();
    if half != 0 {
      SplitInto(t, b, half, at);
    }
  }

  /** Split the records, then look at every page of the second half. */
  method HalveAll(t: BigallocTable, b: nat, half: nat, at: nat) returns (ghost k: nat)
    requires t.Valid() && CanSplit(t.Forest(), b, half, at)
    modifies t.recs, t.pageindex, t`kids
    ensures Halved(old(t.recs[..]), t.recs[..], old(t.kids), t.kids, b, half, at, k)
    ensures t.pageindex[..] == SplitPatch(old(t.Forest()), old(t.pageindex[..]), b, half, at)
  {
    ghost var f, pi := t.Forest(), t.pageindex[..];
    SplitPages(f, b, at);
    k := HalveTable(t, b, half, at);
    ReplaceEntries(t, b, half, RoundUp(t.recs[half].begin, PAGE_SIZE), RoundUp(t.recs[half].end, PAGE_SIZE));
    assert t.pageindex[..] == SplitPatch(f, pi, b, half, at);
  }

  /** The split, but for the depth recorded for the second half. */
  method HalveSound(t: BigallocTable, b: nat, half: nat, at: nat) returns (ghost d: seq<nat>)
    requires t.Valid() && t.start != 0 && CanSplit(t.Forest(), b, half, at)
    modifies t.recs, t.pageindex, t`kids
    ensures t.Started() && Shaped(t.recs[..], t.kids, d)
    ensures ForestOf(t.recs[..], d) == SplitForest(old(t.Forest()), b, half, at)
    ensures t.pageindex[..] == SplitPatch(old(t.Forest()), old(t.pageindex[..]), b, half, at)
    ensures Sound(t.recs[..], t.kids, d, t.pageindex[..]) <==> old(SplitExact(t.Forest(), b, at))
  {
    ghost var rs, kids, depth, pi := t.recs[..], t.kids, t.depth, t.pageindex[..];
    assert Sound(rs, kids, depth, pi) && b < |depth| && half < |depth|;
    ghost var k := HalveAll(t, b, half, at);
    HalvedSound(rs, t.recs[..], kids, t.kids, depth, pi, t.pageindex[..], b, half, at, k, t.start);
    d := depth[half := depth[b]];
  }

  method SplitInto(t: BigallocTable, b: nat, half: nat, at: nat)
    requires t.Valid() && t.start != 0 && CanSplit(t.Forest(), b, half, at)
    modifies t.recs, t.pageindex, t`kids, t`depth
    ensures t.Tree() && t.Forest() == SplitForest(old(t.Forest()), b, half, at)
    ensures t.pageindex[..] == SplitPatch(old(t.Forest()), old(t.pageindex[..]), b, half, at)
    ensures t.Valid() <==> old(SplitExact(t.Forest(), b, at))
  {
    ghost var d := HalveSound(t, b, half, at);
    t.SetDepth(d);
  }

  lemma SplitPages(f: Forest, b: nat, at: nat)
    requires WellNested(f) && Splittable(f, b, at)
    ensures UpPage(at) <= UpPage(f[b].end) <= NPAGES
  {
    UpDownMonotone(at, f[b].end);
    LimitPages(f[b].end);
  }

  /** The two halves meet at the split address, cover what `b` covered, and share out the children. */
  lemma SplitPartition(f: Forest, b: nat, half: nat, at: nat)
    requires WellNested(f) && CanSplit(f, b, half, at)
    ensures var g := SplitForest(f, b, half, at);
      && g[b] == f[b].(end := at) && g[half] == f[b].(begin := at)
      && (forall c :: c in g && g[c].parent == half <==> c in f && f[c].parent == b && at <= f[c].begin)
      && (forall c :: c in g && g[c].parent == b <==> c in f && f[c].parent == b && f[c].end <= at)
      && (forall n :: n in f && n != b && f[n].parent == b && at <= f[n].begin ==>
            n in g && g[n] == f[n].(parent := half))
      && (forall n :: n in f && n != b && !(f[n].parent == b && at <= f[n].begin) ==> n in g && g[n] == f[n])
  {
    var g := SplitForest(f, b, half, at);
    forall c | c in g
      ensures g[c].parent == half <==> c in f && f[c].parent == b && at <= f[c].begin
      ensures g[c].parent == b <==> c in f && f[c].parent == b && f[c].end <= at
    {
      HalfOf(f, b, half, at, c);
    }
  }

  lemma HalfOf(f: Forest, b: nat, half: nat, at: nat, c: nat)
    requires WellNested(f) && CanSplit(f, b, half, at) && (c in f || c == half)
    ensures var nd := SplitNode(f, b, half, at, c);
      && (nd.parent == half <==> c in f && f[c].parent == b && at <= f[c].begin)
      && (nd.parent == b <==> c in f && f[c].parent == b && f[c].end <= at)
  {
  }
}
