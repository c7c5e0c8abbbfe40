/** The records of the bigalloc table and the sibling lists threaded through them. */
module Links {
  import opened Forests
  import opened Lists

  /** One slot of the table. All four links are bigalloc numbers, 0 meaning none. */
  datatype Record = Record(
    begin: nat, end: nat,
    firstChild: nat, nextSib: nat, parent: nat, prevSib: nat,
    allocatedBy: nat, suballocator: nat)

  const EMPTY := Record(0, 0, 0, 0, 0, 0, 0, 0)

  predicate InUse(r: Record) {
    r.begin != 0 && r.end != 0
  }

  /** Everything but the list links. */
  predicate SameCore(a: Record, b: Record) {
    && a.begin == b.begin && a.end == b.end && a.parent == b.parent
    && a.allocatedBy == b.allocatedBy && a.suballocator == b.suballocator
  }

  /** The record at position `i` of the list `ls` of `q` carries the links its position calls for. */
  predicate LinkAt(rs: seq<Record>, q: nat, ls: seq<nat>, i: int) {
    var c := At(ls, i);
    && 0 < c < |rs|
    && rs[c].parent == q && rs[c].nextSib == At(ls, i + 1) && rs[c].prevSib == At(ls, i - 1)
  }

  /** `ks` is the list of children of `q`, linked in both directions. */
  predicate Chain(rs: seq<Record>, q: nat, ks: seq<nat>) {
    && Distinct(ks)
    && (forall k :: 0 <= k < |ks| ==> 0 < ks[k] < |rs|)
    && forall k :: 0 <= k < |ks| ==> LinkAt(rs, q, ks, k)
  }

  /** `kids[q]` is the child list of `q`; `kids[0]` is the top-level list, which no record heads. */
  ghost predicate Linked(rs: seq<Record>, kids: seq<seq<nat>>) {
    && |rs| == |kids| == NBIGALLOCS
    && rs[0].firstChild == 0
    && (forall q :: 0 <= q < |kids| ==> Chain(rs, q, kids[q]))
    && (forall q :: 0 < q < |kids| ==> rs[q].firstChild == At(kids[q], 0))
  }

  /** The records between which a list element is linked or unlinked. */
  function Neighbours(rs: seq<Record>, prev: nat, next: nat, toNext: nat, toPrev: nat): (r: seq<Record>)
    requires prev < |rs| && next < |rs|
    ensures |r| == |rs|
  {
    var s := if prev != 0 then rs[prev := rs[prev].(nextSib := toNext)] else rs;
    if next != 0 then s[next := s[next].(prevSib := toPrev)] else s
  }

  // ---------------------------------------------------------------- unlinking

  /** Closing the gap around element `k` of the list of `q`. */
  function Unhooked(rs: seq<Record>, c: nat): (r: seq<Record>)
    requires c < |rs| && rs[c].prevSib < |rs| && rs[c].nextSib < |rs|
    ensures |r| == |rs|
  {
    Neighbours(rs, rs[c].prevSib, rs[c].nextSib, rs[c].nextSib, rs[c].prevSib)
  }

  lemma UnhookedAt(rs: seq<Record>, q: nat, ks: seq<nat>, k: nat, j: nat)
    requires Chain(rs, q, ks) && k < |ks| && j < |ks| && j != k
    requires rs[ks[k]].prevSib < |rs| && rs[ks[k]].nextSib < |rs|
    ensures var r := Unhooked(rs, ks[k])[ks[j]];
      && r.parent == q
      && r.nextSib == At(ks, if j + 1 == k then k + 1 else j + 1)
      && r.prevSib == At(ks, if j == k + 1 then k - 1 else j - 1)
  {
    assert LinkAt(rs, q, ks, k) && LinkAt(rs, q, ks, j);
    assert rs[ks[k]].prevSib == ks[j] <==> j + 1 == k;
    assert rs[ks[k]].nextSib == ks[j] <==> j == k + 1;
  }

  lemma ChainFromLinks(rs: seq<Record>, q: nat, ls: seq<nat>)
    requires Distinct(ls)
    requires forall i :: 0 <= i < |ls| ==> LinkAt(rs, q, ls, i)
    ensures Chain(rs, q, ls)
  {
    forall k | 0 <= k < |ls|
      ensures 0 < ls[k] < |rs| && rs[ls[k]].parent == q
      ensures rs[ls[k]].nextSib == At(ls, k + 1) && rs[ls[k]].prevSib == At(ls, k - 1)
    {
      assert LinkAt(rs, q, ls, k);
    }
  }

  lemma UnhookedLink(rs: seq<Record>, q: nat, ks: seq<nat>, k: nat, i: nat)
    requires Chain(rs, q, ks) && k < |ks| && i + 1 < |ks|
    requires rs[ks[k]].prevSib < |rs| && rs[ks[k]].nextSib < |rs|
    ensures LinkAt(Unhooked(rs, ks[k]), q, Without(ks, k), i)
  {
    UnhookedAt(rs, q, ks, k, if i < k then i else i + 1);
    WithoutAt(ks, k, i);
    WithoutAt(ks, k, i + 1);
    WithoutAt(ks, k, i - 1);
  }

  lemma UnhookedChain(rs: seq<Record>, q: nat, ks: seq<nat>, k: nat)
    requires Chain(rs, q, ks) && k < |ks|
    requires rs[ks[k]].prevSib < |rs| && rs[ks[k]].nextSib < |rs|
    ensures Chain(Unhooked(rs, ks[k]), q, Without(ks, k))
  {
    forall i | 0 <= i < |Without(ks, k)|
      ensures LinkAt(Unhooked(rs, ks[k]), q, Without(ks, k), i)
    {
      UnhookedLink(rs, q, ks, k, i);
    }
    ChainFromLinks(Unhooked(rs, ks[k]), q, Without(ks, k));
  }

  /** Writing the sibling fields of elements of one list leaves every other list alone. */
  lemma OtherChain(rs: seq<Record>, s: seq<Record>, q: nat, ks: seq<nat>)
    requires Chain(rs, q, ks) && |s| == |rs|
    requires forall k :: 0 <= k < |ks| ==>
      s[ks[k]].parent == rs[ks[k]].parent && s[ks[k]].nextSib == rs[ks[k]].nextSib &&
        s[ks[k]].prevSib == rs[ks[k]].prevSib
    ensures Chain(s, q, ks)
  {
    forall k | 0 <= k < |ks|
      ensures LinkAt(s, q, ks, k)
    {
      assert LinkAt(rs, q, ks, k);
    }
  }

  // ---------------------------------------------------------------- linking

  lemma HookedAt(rs: seq<Record>, q: nat, ks: seq<nat>, k: nat, c: nat, j: nat)
    requires Chain(rs, q, ks) && k <= |ks| && j < |ks| && 0 < c < |rs| && c !in ks
    ensures At(ks, k - 1) < |rs| && At(ks, k) < |rs|
    ensures var r := Neighbours(rs, At(ks, k - 1), At(ks, k), c, c)[ks[j]];
      && r.parent == q
      && r.nextSib == (if j + 1 == k then c else At(ks, j + 1))
      && r.prevSib == (if j == k then c else At(ks, j - 1))
  {
    assert LinkAt(rs, q, ks, j);
    assert At(ks, k - 1) == ks[j] <==> j + 1 == k;
    assert At(ks, k) == ks[j] <==> j == k;
  }

  lemma NeighboursElsewhere(rs: seq<Record>, prev: nat, next: nat, toNext: nat, toPrev: nat, i: nat)
    requires prev < |rs| && next < |rs| && i < |rs| && i != prev && i != next
    ensures Neighbours(rs, prev, next, toNext, toPrev)[i] == rs[i]
  {
  }

  lemma HookedLink(rs: seq<Record>, q: nat, ks: seq<nat>, k: nat, c: nat, i: nat)
    requires Chain(rs, q, ks) && k <= |ks| && i <= |ks|
    requires 0 < c < |rs| && c !in ks
    requires rs[c].parent == q && rs[c].nextSib == At(ks, k) && rs[c].prevSib == At(ks, k - 1)
    ensures LinkAt(Neighbours(rs, At(ks, k - 1), At(ks, k), c, c), q, Inserted(ks, k, c), i)
  {
    InsertedAt(ks, k, c, i);
    InsertedAt(ks, k, c, i + 1);
    InsertedAt(ks, k, c, i - 1);
    if i == k {
      assert At(ks, k - 1) != c && At(ks, k) != c;
      NeighboursElsewhere(rs, At(ks, k - 1), At(ks, k), c, c, c);
    } else {
      var j := if i < k then i else i - 1;
      assert At(Inserted(ks, k, c), i) == ks[j];
      HookedAt(rs, q, ks, k, c, j);
    }
  }

  /** Hooking `c`, whose own sibling fields are set, between two neighbours. */
  lemma HookedChain(rs: seq<Record>, q: nat, ks: seq<nat>, k: nat, c: nat)
    requires Chain(rs, q, ks) && k <= |ks|
    requires 0 < c < |rs| && c !in ks
    requires rs[c].parent == q && rs[c].nextSib == At(ks, k) && rs[c].prevSib == At(ks, k - 1)
    ensures Chain(Neighbours(rs, At(ks, k - 1), At(ks, k), c, c), q, Inserted(ks, k, c))
  {
    var s := Neighbours(rs, At(ks, k - 1), At(ks, k), c, c);
    forall i | 0 <= i < |Inserted(ks, k, c)|
      ensures LinkAt(s, q, Inserted(ks, k, c), i)
    {
      HookedLink(rs, q, ks, k, c, i);
    }
    ChainFromLinks(s, q, Inserted(ks, k, c));
  }

  // ---------------------------------------------------------------- the table operations

  ghost predicate Loose(kids: seq<seq<nat>>, c: nat) {
    forall q :: 0 <= q < |kids| ==> c !in kids[q]
  }

  /** Hooking `c` at the head of the child list of `q`. */
  function AddedChild(rs: seq<Record>, c: nat, q: nat): seq<Record>
    requires c < |rs| && q < |rs| && rs[q].firstChild < |rs|
  {
    var first := rs[q].firstChild;
    var s := rs[c := rs[c].(parent := q)];
    var t := s[q := s[q].(firstChild := c)];
    Neighbours(t[c := t[c].(nextSib := first)], 0, first, c, c)
  }

  lemma AddedChildFields(rs: seq<Record>, c: nat, q: nat, i: nat)
    requires c < |rs| && q < |rs| && rs[q].firstChild < |rs| && c != q && i < |rs|
    ensures var r := AddedChild(rs, c, q)[i]; var first := rs[q].firstChild;
      && r.begin == rs[i].begin && r.end == rs[i].end
      && r.allocatedBy == rs[i].allocatedBy && r.suballocator == rs[i].suballocator
      && r.parent == (if i == c then q else rs[i].parent)
      && r.firstChild == (if i == q then c else rs[i].firstChild)
      && r.nextSib == (if i == c then first else rs[i].nextSib)
      && r.prevSib == (if i == first && first != 0 then c else rs[i].prevSib)
  {
  }

  lemma AddedChildOther(rs: seq<Record>, kids: seq<seq<nat>>, c: nat, q: nat, p: nat)
    requires Linked(rs, kids) && 0 < c < |rs| && 0 < q < |rs| && c != q && Loose(kids, c)
    requires p < |kids| && p != q
    ensures Chain(AddedChild(rs, c, q), p, kids[p])
  {
    var s := AddedChild(rs, c, q);
    forall k | 0 <= k < |kids[p]|
      ensures s[kids[p][k]].parent == rs[kids[p][k]].parent
      ensures s[kids[p][k]].nextSib == rs[kids[p][k]].nextSib && s[kids[p][k]].prevSib == rs[kids[p][k]].prevSib
    {
      AddedChildFields(rs, c, q, kids[p][k]);
      assert LinkAt(rs, p, kids[p], k);
      assert kids[q] != [] ==> LinkAt(rs, q, kids[q], 0);
    }
    OtherChain(rs, s, p, kids[p]);
  }

  lemma AddedChildHere(rs: seq<Record>, kids: seq<seq<nat>>, c: nat, q: nat)
    requires Linked(rs, kids) && 0 < c < |rs| && 0 < q < |rs| && c != q && Loose(kids, c)
    requires rs[c].prevSib == 0
    ensures Chain(AddedChild(rs, c, q), q, [c] + kids[q])
  {
    var first, ks := rs[q].firstChild, kids[q];
    var s := rs[c := rs[c].(parent := q)];
    var t := s[q := s[q].(firstChild := c)];
    var u := t[c := t[c].(nextSib := first)];
    OtherChain(rs, u, q, ks);
    HookedChain(u, q, ks, 0, c);
    assert Inserted(ks, 0, c) == [c] + ks;
  }

  lemma AddedChildLinked(rs: seq<Record>, kids: seq<seq<nat>>, c: nat, q: nat)
    requires Linked(rs, kids) && 0 < c < |rs| && 0 < q < |rs| && c != q && Loose(kids, c)
    requires rs[c].prevSib == 0
    ensures Linked(AddedChild(rs, c, q), kids[q := [c] + kids[q]])
  {
    AddedChildHere(rs, kids, c, q);
    forall p | 0 <= p < |kids| && p != q
      ensures Chain(AddedChild(rs, c, q), p, kids[p])
    {
      AddedChildOther(rs, kids, c, q, p);
    }
    forall i | 0 <= i < |kids|
      ensures AddedChild(rs, c, q)[i].firstChild == if i == q then c else rs[i].firstChild
    {
      AddedChildFields(rs, c, q, i);
    }
  }

  /** Unhooking `c` from its parent's list and clearing its links. */
  function RemovedChild(rs: seq<Record>, c: nat): seq<Record>
    requires c < |rs| && rs[c].parent < |rs| && rs[c].prevSib < |rs| && rs[c].nextSib < |rs|
  {
    var q := rs[c].parent;
    var s := if rs[q].firstChild == c then rs[q := rs[q].(firstChild := rs[c].nextSib)] else rs;
    var t := Neighbours(s, rs[c].prevSib, rs[c].nextSib, rs[c].nextSib, rs[c].prevSib);
    t[c := t[c].(prevSib := 0, nextSib := 0, parent := 0)]
  }

  lemma RemovedChildFields(rs: seq<Record>, c: nat, i: nat)
    requires c < |rs| && rs[c].parent < |rs| && rs[c].prevSib < |rs| && rs[c].nextSib < |rs| && i < |rs|
    requires rs[c].parent != c
    ensures var r := RemovedChild(rs, c)[i]; var q := rs[c].parent;
      && r.begin == rs[i].begin && r.end == rs[i].end
      && r.allocatedBy == rs[i].allocatedBy && r.suballocator == rs[i].suballocator
      && r.parent == (if i == c then 0 else rs[i].parent)
      && r.firstChild == (if i == q && rs[q].firstChild == c then rs[c].nextSib else rs[i].firstChild)
  {
  }

  lemma UnhookedOther(rs: seq<Record>, kids: seq<seq<nat>>, q: nat, k: nat, p: nat)
    requires Linked(rs, kids) && q < |kids| && k < |kids[q]| && p < |kids| && p != q
    ensures rs[kids[q][k]].prevSib < |rs| && rs[kids[q][k]].nextSib < |rs|
    ensures Chain(Unhooked(rs, kids[q][k]), p, kids[p])
  {
    var c, ks := kids[q][k], kids[q];
    assert LinkAt(rs, q, ks, k);
    var s := Unhooked(rs, c);
    forall j | 0 <= j < |kids[p]|
      ensures s[kids[p][j]] == rs[kids[p][j]]
    {
      assert LinkAt(rs, p, kids[p], j);
      assert k > 0 ==> LinkAt(rs, q, ks, k - 1);
      assert k + 1 < |ks| ==> LinkAt(rs, q, ks, k + 1);
    }
    OtherChain(rs, s, p, kids[p]);
  }

  lemma UnhookedFields(rs: seq<Record>, c: nat, i: nat)
    requires c < |rs| && rs[c].prevSib < |rs| && rs[c].nextSib < |rs| && i < |rs|
    ensures Unhooked(rs, c)[i].firstChild == rs[i].firstChild && SameCore(Unhooked(rs, c)[i], rs[i])
  {
  }

  lemma UnhookedChains(rs: seq<Record>, kids: seq<seq<nat>>, q: nat, k: nat, p: nat)
    requires Linked(rs, kids) && q < |kids| && k < |kids[q]| && p < |kids|
    ensures rs[kids[q][k]].prevSib < |rs| && rs[kids[q][k]].nextSib < |rs|
    ensures Chain(Unhooked(rs, kids[q][k]), p, if p == q then Without(kids[q], k) else kids[p])
  {
    assert LinkAt(rs, q, kids[q], k);
    if p == q {
      UnhookedChain(rs, q, kids[q], k);
    } else {
      UnhookedOther(rs, kids, q, k, p);
    }
  }

  /** Unlinking at top level leaves the element's own links as they were. */
  lemma UnhookedTopLinked(rs: seq<Record>, kids: seq<seq<nat>>, k: nat)
    requires Linked(rs, kids) && k < |kids[0]|
    ensures rs[kids[0][k]].prevSib < |rs| && rs[kids[0][k]].nextSib < |rs|
    ensures Linked(Unhooked(rs, kids[0][k]), kids[0 := Without(kids[0], k)])
  {
    var c, kids' := kids[0][k], kids[0 := Without(kids[0], k)];
    UnhookedChains(rs, kids, 0, k, 0);
    var s := Unhooked(rs, c);
    forall p | 0 <= p < |kids'|
      ensures Chain(s, p, kids'[p])
    {
      UnhookedChains(rs, kids, 0, k, p);
    }
    forall i | 0 <= i < |rs|
      ensures s[i].firstChild == rs[i].firstChild
    {
      UnhookedFields(rs, c, i);
    }
  }

  lemma RemovedFromUnhooked(rs: seq<Record>, c: nat, i: nat)
    requires c < |rs| && rs[c].parent < |rs| && rs[c].prevSib < |rs| && rs[c].nextSib < |rs|
    requires i < |rs| && i != c && rs[c].parent != c
    ensures RemovedChild(rs, c)[i].parent == Unhooked(rs, c)[i].parent
    ensures RemovedChild(rs, c)[i].nextSib == Unhooked(rs, c)[i].nextSib
    ensures RemovedChild(rs, c)[i].prevSib == Unhooked(rs, c)[i].prevSib
  {
  }

  lemma RemovedFromAll(rs: seq<Record>, kids: seq<seq<nat>>, q: nat, k: nat, p: nat)
    requires Linked(rs, kids) && q < |kids| && k < |kids[q]| && p < |kids|
    ensures kids[q][k] !in (if p == q then Without(kids[q], k) else kids[p])
  {
    var c := kids[q][k];
    if p != q {
      forall j | 0 <= j < |kids[p]|
        ensures kids[p][j] != c
      {
        assert LinkAt(rs, p, kids[p], j) && LinkAt(rs, q, kids[q], k);
      }
    }
  }

  lemma RemovedChildChain(rs: seq<Record>, kids: seq<seq<nat>>, q: nat, k: nat, p: nat)
    requires Linked(rs, kids) && 0 < q < |kids| && k < |kids[q]| && kids[q][k] != q && p < |kids|
    ensures rs[kids[q][k]].prevSib < |rs| && rs[kids[q][k]].nextSib < |rs| && rs[kids[q][k]].parent == q
    ensures Chain(RemovedChild(rs, kids[q][k]), p, if p == q then Without(kids[q], k) else kids[p])
  {
    var c := kids[q][k];
    var ls := if p == q then Without(kids[q], k) else kids[p];
    assert LinkAt(rs, q, kids[q], k);
    UnhookedChains(rs, kids, q, k, p);
    RemovedFromAll(rs, kids, q, k, p);
    RemovedChainHelper(rs, c, p, ls);
  }

  lemma RemovedChainHelper(rs: seq<Record>, c: nat, p: nat, ls: seq<nat>)
    requires c < |rs| && rs[c].parent < |rs| && rs[c].prevSib < |rs| && rs[c].nextSib < |rs|
    requires rs[c].parent != c && c !in ls && Chain(Unhooked(rs, c), p, ls)
    ensures Chain(RemovedChild(rs, c), p, ls)
  {
    forall j | 0 <= j < |ls|
      ensures RemovedChild(rs, c)[ls[j]].parent == Unhooked(rs, c)[ls[j]].parent
      ensures RemovedChild(rs, c)[ls[j]].nextSib == Unhooked(rs, c)[ls[j]].nextSib
      ensures RemovedChild(rs, c)[ls[j]].prevSib == Unhooked(rs, c)[ls[j]].prevSib
    {
      RemovedFromUnhooked(rs, c, ls[j]);
    }
    OtherChain(Unhooked(rs, c), RemovedChild(rs, c), p, ls);
  }

  lemma RemovedChildLinked(rs: seq<Record>, kids: seq<seq<nat>>, q: nat, k: nat)
    requires Linked(rs, kids) && 0 < q < |kids| && k < |kids[q]| && kids[q][k] != q
    ensures rs[kids[q][k]].prevSib < |rs| && rs[kids[q][k]].nextSib < |rs| && rs[kids[q][k]].parent == q
    ensures Linked(RemovedChild(rs, kids[q][k]), kids[q := Without(kids[q], k)])
  {
    var c, kids' := kids[q][k], kids[q := Without(kids[q], k)];
    assert LinkAt(rs, q, kids[q], k);
    UnhookedChains(rs, kids, q, k, q);
    var s := RemovedChild(rs, c);
    forall p | 0 <= p < |kids'|
      ensures Chain(s, p, kids'[p])
    {
      RemovedChildChain(rs, kids, q, k, p);
    }
    forall i | 0 <= i < |kids'|
      ensures s[i].firstChild == if i == 0 then 0 else At(kids'[i], 0)
    {
      RemovedChildFields(rs, c, i);
      WithoutAt(kids[q], k, 0);
    }
  }

  /** Hooking `c` into the top-level list before element `k`. */
  function AddedTop(rs: seq<Record>, c: nat, prev: nat, next: nat): seq<Record>
    requires c < |rs| && prev < |rs| && next < |rs|
  {
    Neighbours(rs[c := rs[c].(nextSib := next, prevSib := prev)], prev, next, c, c)
  }

  lemma AddedTopOther(rs: seq<Record>, kids: seq<seq<nat>>, c: nat, k: nat, p: nat)
    requires Linked(rs, kids) && 0 < c < |rs| && Loose(kids, c) && k <= |kids[0]| && 0 < p < |kids|
    ensures At(kids[0], k - 1) < |rs| && At(kids[0], k) < |rs|
    ensures Chain(AddedTop(rs, c, At(kids[0], k - 1), At(kids[0], k)), p, kids[p])
  {
    var s := AddedTop(rs, c, At(kids[0], k - 1), At(kids[0], k));
    forall j | 0 <= j < |kids[p]|
      ensures s[kids[p][j]] == rs[kids[p][j]]
    {
      assert LinkAt(rs, p, kids[p], j);
      assert k > 0 ==> LinkAt(rs, 0, kids[0], k - 1);
      assert k < |kids[0]| ==> LinkAt(rs, 0, kids[0], k);
    }
    OtherChain(rs, s, p, kids[p]);
  }

  lemma AddedTopHere(rs: seq<Record>, kids: seq<seq<nat>>, c: nat, k: nat)
    requires Linked(rs, kids) && 0 < c < |rs| && Loose(kids, c) && rs[c].parent == 0 && k <= |kids[0]|
    ensures At(kids[0], k - 1) < |rs| && At(kids[0], k) < |rs|
    ensures Chain(AddedTop(rs, c, At(kids[0], k - 1), At(kids[0], k)), 0, Inserted(kids[0], k, c))
  {
    var ks := kids[0];
    var u := rs[c := rs[c].(nextSib := At(ks, k), prevSib := At(ks, k - 1))];
    OtherChain(rs, u, 0, ks);
    HookedChain(u, 0, ks, k, c);
  }

  lemma AddedTopFields(rs: seq<Record>, c: nat, prev: nat, next: nat, i: nat)
    requires c < |rs| && prev < |rs| && next < |rs| && i < |rs|
    ensures AddedTop(rs, c, prev, next)[i].firstChild == rs[i].firstChild
    ensures SameCore(AddedTop(rs, c, prev, next)[i], rs[i])
  {
  }

  lemma AddedTopLinked(rs: seq<Record>, kids: seq<seq<nat>>, c: nat, k: nat)
    requires Linked(rs, kids) && 0 < c < |rs| && Loose(kids, c) && rs[c].parent == 0 && k <= |kids[0]|
    ensures At(kids[0], k - 1) < |rs| && At(kids[0], k) < |rs|
    ensures Linked(AddedTop(rs, c, At(kids[0], k - 1), At(kids[0], k)), kids[0 := Inserted(kids[0], k, c)])
  {
    var kids' := kids[0 := Inserted(kids[0], k, c)];
    AddedTopHere(rs, kids, c, k);
    var s := AddedTop(rs, c, At(kids[0], k - 1), At(kids[0], k));
    forall p | 0 <= p < |kids'|
      ensures Chain(s, p, kids'[p])
    {
      if p != 0 {
        AddedTopOther(rs, kids, c, k, p);
      }
    }
    forall i | 0 <= i < |rs|
      ensures s[i].firstChild == rs[i].firstChild
    {
      AddedTopFields(rs, c, At(kids[0], k - 1), At(kids[0], k), i);
    }
  }
}
