/** What the bigalloc table means: the forest its records describe, and the invariant tying the
    records, their sibling lists, and the page index together. */
module Table {
  import opened Pages
  import opened Forests
  import opened ForestOps
  import opened ForestMoves
  import opened Lists
  import opened Links

  function NodeOf(r: Record, depth: nat): Node {
    Node(r.begin, r.end, r.parent, depth, r.allocatedBy, r.suballocator)
  }

  function ForestOf(rs: seq<Record>, depth: seq<nat>): Forest
    requires |depth| == |rs|
  {
    map n | 0 < n < |rs| && InUse(rs[n]) :: NodeOf(rs[n], depth[n])
  }

  /** A slot is in use exactly when it hangs in the list of its parent; free slots have no parent. */
  ghost predicate Held(rs: seq<Record>, kids: seq<seq<nat>>) {
    && |rs| == |kids| == NBIGALLOCS
    && rs[0] == EMPTY
    && forall n :: 0 < n < |rs| ==>
         && rs[n].parent < |kids|
         && (InUse(rs[n]) <==> n in kids[rs[n].parent])
         && (!InUse(rs[n]) ==> rs[n].parent == 0)
  }

  /** The top-level list is in address order. */
  ghost predicate Ascending(rs: seq<Record>, ks: seq<nat>)
    requires forall k :: 0 <= k < |ks| ==> ks[k] < |rs|
  {
    forall i, j :: 0 <= i < j < |ks| ==> rs[ks[i]].end <= rs[ks[j]].begin
  }

  /** The shape of the lists, leaving ranges and the page index aside. */
  ghost predicate Shaped(rs: seq<Record>, kids: seq<seq<nat>>, depth: seq<nat>) {
    && Linked(rs, kids) && Held(rs, kids) && |depth| == |rs|
  }

  ghost predicate Sound(rs: seq<Record>, kids: seq<seq<nat>>, depth: seq<nat>, pi: seq<nat>) {
    && Shaped(rs, kids, depth)
    && WellNested(ForestOf(rs, depth))
    && Agrees(ForestOf(rs, depth), pi)
    && Ascending(rs, kids[0])
  }

  /** The list of `q` holds exactly the nodes whose parent is `q`. */
  lemma KidsAre(rs: seq<Record>, kids: seq<seq<nat>>, depth: seq<nat>, q: nat, c: nat)
    requires Shaped(rs, kids, depth) && q < |kids|
    ensures c in kids[q] <==> c in ForestOf(rs, depth) && ForestOf(rs, depth)[c].parent == q
  {
    if c in kids[q] {
      var k :| 0 <= k < |kids[q]| && kids[q][k] == c;
      assert LinkAt(rs, q, kids[q], k);
    }
  }

  lemma FreeIsLoose(rs: seq<Record>, kids: seq<seq<nat>>, depth: seq<nat>, c: nat)
    requires Shaped(rs, kids, depth) && 0 < c < |rs| && !InUse(rs[c])
    ensures Loose(kids, c)
  {
    forall q | 0 <= q < |kids|
      ensures c !in kids[q]
    {
      KidsAre(rs, kids, depth, q, c);
    }
  }

  // ---------------------------------------------------------------- resizing a record

  function ResizedRec(rs: seq<Record>, b: nat, x: nat, y: nat): seq<Record>
    requires b < |rs|
  {
    rs[b := rs[b].(begin := x, end := y)]
  }

  lemma ResizedForest(rs: seq<Record>, depth: seq<nat>, b: nat, x: nat, y: nat)
    requires |depth| == |rs| && b in ForestOf(rs, depth) && 0 < x && 0 < y
    ensures ForestOf(ResizedRec(rs, b, x, y), depth) == Resized(ForestOf(rs, depth), b, x, y)
  {
  }

  lemma ResizedShaped(rs: seq<Record>, kids: seq<seq<nat>>, depth: seq<nat>, b: nat, x: nat, y: nat)
    requires Shaped(rs, kids, depth) && 0 < b < |rs| && InUse(rs[b]) && 0 < x && 0 < y
    ensures Shaped(ResizedRec(rs, b, x, y), kids, depth)
  {
    var s := ResizedRec(rs, b, x, y);
    forall q | 0 <= q < |kids|
      ensures Chain(s, q, kids[q])
    {
      OtherChain(rs, s, q, kids[q]);
    }
  }

  /** The new range overlaps the old one and stays clear of the siblings, so the order stays. */
  lemma ResizedAscending(rs: seq<Record>, kids: seq<seq<nat>>, depth: seq<nat>, b: nat, x: nat, y: nat)
    requires Shaped(rs, kids, depth) && Ascending(rs, kids[0])
    requires WellNested(ForestOf(rs, depth)) && CanResize(ForestOf(rs, depth), b, x, y)
    requires x < rs[b].end && rs[b].begin < y
    ensures Shaped(ResizedRec(rs, b, x, y), kids, depth)
    ensures Ascending(ResizedRec(rs, b, x, y), kids[0])
  {
    var f, ks, s := ForestOf(rs, depth), kids[0], ResizedRec(rs, b, x, y);
    ResizedShaped(rs, kids, depth, b, x, y);
    forall i, j | 0 <= i < j < |ks|
      ensures s[ks[i]].end <= s[ks[j]].begin
    {
      KidsAre(rs, kids, depth, 0, ks[i]);
      KidsAre(rs, kids, depth, 0, ks[j]);
    }
  }

  /** Resizing the record and restoring the index re-establishes the whole invariant. */
  lemma ResizedSound(rs: seq<Record>, kids: seq<seq<nat>>, depth: seq<nat>, pi: seq<nat>, b: nat, x: nat, y: nat,
      pi': seq<nat>)
    requires Sound(rs, kids, depth, pi) && CanResize(ForestOf(rs, depth), b, x, y)
    requires x < rs[b].end && rs[b].begin < y
    requires Agrees(Resized(ForestOf(rs, depth), b, x, y), pi')
    ensures Sound(ResizedRec(rs, b, x, y), kids, depth, pi')
    ensures ForestOf(ResizedRec(rs, b, x, y), depth) == Resized(ForestOf(rs, depth), b, x, y)
  {
    ResizedForest(rs, depth, b, x, y);
    ResizeWellNested(ForestOf(rs, depth), b, x, y);
    ResizedAscending(rs, kids, depth, b, x, y);
  }

  // ---------------------------------------------------------------- releasing a record

  /** Taking `b` off its list and clearing its range frees exactly that slot. */
  ghost predicate Released(rs: seq<Record>, s: seq<Record>, b: nat) {
    && |s| == |rs| && 0 < b < |rs|
    && s[b].begin == 0 && s[b].end == 0 && s[b].parent == 0
    && forall i :: 0 <= i < |rs| && i != b ==> SameCore(s[i], rs[i])
  }

  lemma ReleasedForest(rs: seq<Record>, s: seq<Record>, depth: seq<nat>, b: nat)
    requires |depth| == |rs| && Released(rs, s, b)
    ensures ForestOf(s, depth) == ForestOf(rs, depth) - {b}
  {
    var f, g := ForestOf(rs, depth), ForestOf(s, depth);
    forall n
      ensures n in g <==> n in f && n != b
      ensures n in g ==> g[n] == f[n]
    {
      if 0 < n < |rs| && n != b {
        assert SameCore(s[n], rs[n]);
      }
    }
  }

  lemma ReleasedHeld(rs: seq<Record>, s: seq<Record>, kids: seq<seq<nat>>, depth: seq<nat>, b: nat, q: nat, k: nat)
    requires Shaped(rs, kids, depth) && Released(rs, s, b) && s[0] == rs[0]
    requires q == rs[b].parent < |kids| && k < |kids[q]| && kids[q][k] == b
    requires Linked(s, kids[q := Without(kids[q], k)])
    ensures Held(s, kids[q := Without(kids[q], k)])
  {
    var kids' := kids[q := Without(kids[q], k)];
    RemovedFromAll(rs, kids, q, k, 0);
    forall n | 0 < n < |s|
      ensures s[n].parent < |kids'| && (InUse(s[n]) <==> n in kids'[s[n].parent]) && (!InUse(s[n]) ==> s[n].parent == 0)
    {
      if n != b {
        assert SameCore(s[n], rs[n]);
        WithoutIn(kids[q], k, n);
      }
    }
  }

  lemma AscendingWithout(rs: seq<Record>, ks: seq<nat>, k: nat)
    requires k < |ks| && (forall i :: 0 <= i < |ks| ==> ks[i] < |rs|) && Ascending(rs, ks)
    ensures forall i :: 0 <= i < |Without(ks, k)| ==> Without(ks, k)[i] < |rs|
    ensures Ascending(rs, Without(ks, k))
  {
    var ls := Without(ks, k);
    forall i, j | 0 <= i < j < |ls|
      ensures rs[ls[i]].end <= rs[ls[j]].begin
    {
      var i', j' := if i < k then i else i + 1, if j < k then j else j + 1;
      assert ls[i] == ks[i'] && ls[j] == ks[j'];
    }
  }

  lemma AscendingSame(rs: seq<Record>, s: seq<Record>, ks: seq<nat>)
    requires |s| == |rs| && (forall i :: 0 <= i < |ks| ==> ks[i] < |rs|) && Ascending(rs, ks)
    requires forall i :: 0 <= i < |ks| ==> s[ks[i]].begin == rs[ks[i]].begin && s[ks[i]].end == rs[ks[i]].end
    ensures Ascending(s, ks)
  {
  }

  lemma ReleasedList(rs: seq<Record>, s: seq<Record>, ls: seq<nat>, b: nat)
    requires Released(rs, s, b) && b !in ls
    requires (forall i :: 0 <= i < |ls| ==> ls[i] < |rs|) && Ascending(rs, ls)
    ensures Ascending(s, ls)
  {
    forall i | 0 <= i < |ls|
      ensures s[ls[i]].begin == rs[ls[i]].begin && s[ls[i]].end == rs[ls[i]].end
    {
      assert SameCore(s[ls[i]], rs[ls[i]]);
    }
    AscendingSame(rs, s, ls);
  }

  lemma ReleasedAscending(rs: seq<Record>, s: seq<Record>, kids: seq<seq<nat>>, b: nat, q: nat, k: nat)
    requires Linked(rs, kids) && Released(rs, s, b)
    requires q < |kids| && k < |kids[q]| && kids[q][k] == b
    requires Ascending(rs, kids[0])
    ensures var ls := if q == 0 then Without(kids[0], k) else kids[0];
      (forall i :: 0 <= i < |ls| ==> ls[i] < |s|) && Ascending(s, ls)
  {
    RemovedFromAll(rs, kids, q, k, 0);
    if q == 0 {
      AscendingWithout(rs, kids[0], k);
      ReleasedList(rs, s, Without(kids[0], k), b);
    } else {
      ReleasedList(rs, s, kids[0], b);
    }
  }

  // ---------------------------------------------------------------- claiming a record

  /** Filling the free slot `b` with `nd` and hooking it somewhere. */
  ghost predicate Claimed(rs: seq<Record>, s: seq<Record>, b: nat, nd: Node) {
    && |s| == |rs| && 0 < b < |rs|
    && NodeOf(s[b], nd.depth) == nd
    && forall i :: 0 <= i < |rs| && i != b ==> SameCore(s[i], rs[i])
  }

  lemma ClaimedForest(rs: seq<Record>, s: seq<Record>, depth: seq<nat>, b: nat, nd: Node)
    requires |depth| == |rs| && Claimed(rs, s, b, nd) && 0 < nd.begin && 0 < nd.end
    ensures ForestOf(s, depth[b := nd.depth]) == ForestOf(rs, depth)[b := nd]
  {
    var f, g := ForestOf(rs, depth), ForestOf(s, depth[b := nd.depth]);
    forall n
      ensures n in g <==> n in f || n == b
      ensures n in g ==> g[n] == if n == b then nd else f[n]
    {
      if 0 < n < |rs| && n != b {
        assert SameCore(s[n], rs[n]);
      }
    }
  }

  lemma ClaimedHeld(rs: seq<Record>, s: seq<Record>, kids: seq<seq<nat>>, depth: seq<nat>, b: nat, nd: Node, k: nat)
    requires Shaped(rs, kids, depth) && Claimed(rs, s, b, nd) && s[0] == rs[0] && !InUse(rs[b])
    requires 0 < nd.begin && 0 < nd.end && nd.parent < |kids| && k <= |kids[nd.parent]|
    ensures Held(s, kids[nd.parent := Inserted(kids[nd.parent], k, b)])
  {
    var q := nd.parent;
    var kids' := kids[q := Inserted(kids[q], k, b)];
    forall n | 0 < n < |s|
      ensures s[n].parent < |kids'| && (InUse(s[n]) <==> n in kids'[s[n].parent]) && (!InUse(s[n]) ==> s[n].parent == 0)
    {
      if n != b {
        assert SameCore(s[n], rs[n]);
        InsertedIn(kids[q], k, b, n);
      } else {
        assert kids'[q][k] == b;
      }
    }
  }

  /** Where a range goes in the top-level list: after everything that ends no later than it. */
  ghost predicate Slot(rs: seq<Record>, ks: seq<nat>, k: nat, end: nat)
    requires forall i :: 0 <= i < |ks| ==> ks[i] < |rs|
  {
    && k <= |ks|
    && (forall i :: 0 <= i < k ==> rs[ks[i]].end <= end)
    && (forall i :: k <= i < |ks| ==> end < rs[ks[i]].end)
  }

  /** The position below which the mappings begin below `addr`. */
  ghost predicate BeginsSlot(rs: seq<Record>, ks: seq<nat>, k: nat, addr: nat)
    requires forall i :: 0 <= i < |ks| ==> ks[i] < |rs|
  {
    && k <= |ks|
    && (forall i :: 0 <= i < k ==> rs[ks[i]].begin < addr)
    && (forall i :: k <= i < |ks| ==> addr <= rs[ks[i]].begin)
  }

  /** With everything ending at or below the new end, everything begins below the new beginning. */
  lemma AllBelow(rs: seq<Record>, ks: seq<nat>, begin: nat, end: nat, k: nat, j: nat)
    requires forall i :: 0 <= i < |ks| ==> ks[i] < |rs|
    requires Slot(rs, ks, k, end) && k == |ks| && BeginsSlot(rs, ks, j, begin)
    requires forall i :: 0 <= i < |ks| && rs[ks[i]].end <= end ==> rs[ks[i]].begin < begin
    ensures j == |ks|
  {
    if ks != [] {
      var i := if j < |ks| then j else 0;
      assert rs[ks[i]].end <= end;
    }
  }

  /** A search up from position `st` that ends further on has found the slot, since ends ascend. */
  lemma SlotFoundUp(rs: seq<Record>, ks: seq<nat>, addr: nat, st: nat, i: nat)
    requires (forall j :: 0 <= j < |ks| ==> ks[j] < |rs|) && Ordered(rs, ks) && st < i <= |ks|
    requires forall j :: st <= j < i ==> rs[ks[j]].end - 1 < addr
    requires i < |ks| ==> addr <= rs[ks[i]].end - 1
    ensures Slot(rs, ks, i, addr)
  {
    assert rs[ks[i - 1]].end <= addr;
  }

  lemma SlotFoundDown(rs: seq<Record>, ks: seq<nat>, addr: nat, st: nat, i: int)
    requires (forall j :: 0 <= j < |ks| ==> ks[j] < |rs|) && Ordered(rs, ks) && -1 <= i < st < |ks|
    requires forall j :: i < j <= st ==> addr <= rs[ks[j]].end - 1
    requires 0 <= i ==> rs[ks[i]].end - 1 < addr
    ensures Slot(rs, ks, i + 1, addr)
  {
    assert addr < rs[ks[i + 1]].end;
  }

  lemma BeginsFoundUp(rs: seq<Record>, ks: seq<nat>, addr: nat, st: nat, i: nat)
    requires (forall j :: 0 <= j < |ks| ==> ks[j] < |rs|) && Ordered(rs, ks) && st < i <= |ks|
    requires forall j :: st <= j < i ==> rs[ks[j]].begin < addr
    requires i < |ks| ==> addr <= rs[ks[i]].begin
    ensures BeginsSlot(rs, ks, i, addr)
  {
    assert rs[ks[i - 1]].begin < addr;
  }

  lemma BeginsFoundDown(rs: seq<Record>, ks: seq<nat>, addr: nat, st: nat, i: int)
    requires (forall j :: 0 <= j < |ks| ==> ks[j] < |rs|) && Ordered(rs, ks) && -1 <= i < st < |ks|
    requires forall j :: i < j <= st ==> addr <= rs[ks[j]].begin
    requires 0 <= i ==> rs[ks[i]].begin < addr
    ensures BeginsSlot(rs, ks, i + 1, addr)
  {
    assert addr <= rs[ks[i + 1]].begin;
  }

  lemma AscendingInserted(rs: seq<Record>, ks: seq<nat>, k: nat, b: nat)
    requires b < |rs| && (forall i :: 0 <= i < |ks| ==> ks[i] < |rs|) && Ascending(rs, ks) && k <= |ks|
    requires forall i :: 0 <= i < k ==> rs[ks[i]].end <= rs[b].begin
    requires forall i :: k <= i < |ks| ==> rs[b].end <= rs[ks[i]].begin
    ensures forall i :: 0 <= i < |Inserted(ks, k, b)| ==> Inserted(ks, k, b)[i] < |rs|
    ensures Ascending(rs, Inserted(ks, k, b))
  {
    var ls := Inserted(ks, k, b);
    forall i, j | 0 <= i < j < |ls|
      ensures rs[ls[i]].end <= rs[ls[j]].begin
    {
      assert i < k ==> ls[i] == ks[i];
      assert i > k ==> ls[i] == ks[i - 1];
      assert j < k ==> ls[j] == ks[j];
      assert j > k ==> ls[j] == ks[j - 1];
    }
  }

  lemma ClaimedList(rs: seq<Record>, s: seq<Record>, ls: seq<nat>, b: nat, nd: Node)
    requires Claimed(rs, s, b, nd) && b !in ls
    requires (forall i :: 0 <= i < |ls| ==> ls[i] < |rs|) && Ascending(rs, ls)
    ensures Ascending(s, ls)
    ensures forall i :: 0 <= i < |ls| ==> SameCore(s[ls[i]], rs[ls[i]])
  {
    forall i | 0 <= i < |ls|
      ensures SameCore(s[ls[i]], rs[ls[i]])
    {
    }
    AscendingSame(rs, s, ls);
  }

  lemma ClaimedAscending(rs: seq<Record>, s: seq<Record>, kids: seq<seq<nat>>, depth: seq<nat>, b: nat, nd: Node,
      k: nat)
    requires Shaped(rs, kids, depth) && Ascending(rs, kids[0]) && WellNested(ForestOf(rs, depth))
    requires CanCreate(ForestOf(rs, depth), b, nd) && Claimed(rs, s, b, nd) && nd.parent == 0
    requires Slot(rs, kids[0], k, nd.end)
    ensures forall i :: 0 <= i < |Inserted(kids[0], k, b)| ==> Inserted(kids[0], k, b)[i] < |s|
    ensures Ascending(s, Inserted(kids[0], k, b))
  {
    var ks := kids[0];
    FreeIsLoose(rs, kids, depth, b);
    ClaimedList(rs, s, ks, b, nd);
    forall i | 0 <= i < |ks|
      ensures if i < k then s[ks[i]].end <= nd.begin else nd.end <= s[ks[i]].begin
    {
      KidsAre(rs, kids, depth, 0, ks[i]);
    }
    AscendingInserted(s, ks, k, b);
  }

  /** Creating a bigalloc re-establishes the whole invariant. */
  lemma ClaimedSound(rs: seq<Record>, s: seq<Record>, kids: seq<seq<nat>>, depth: seq<nat>, pi: seq<nat>, b: nat,
      nd: Node, k: nat)
    requires Sound(rs, kids, depth, pi) && CanCreate(ForestOf(rs, depth), b, nd)
    requires Claimed(rs, s, b, nd) && s[0] == rs[0] && k <= |kids[nd.parent]|
    requires Linked(s, kids[nd.parent := Inserted(kids[nd.parent], k, b)])
    requires nd.parent == 0 ==> Slot(rs, kids[0], k, nd.end)
    ensures Sound(s, kids[nd.parent := Inserted(kids[nd.parent], k, b)], depth[b := nd.depth],
                  Fill(pi, UpPage(nd.begin), DownPage(nd.end), b))
    ensures ForestOf(s, depth[b := nd.depth]) == ForestOf(rs, depth)[b := nd]
  {
    ClaimedForest(rs, s, depth, b, nd);
    ClaimedHeld(rs, s, kids, depth, b, nd, k);
    CreateAgrees(ForestOf(rs, depth), pi, b, nd);
    if nd.parent == 0 {
      ClaimedAscending(rs, s, kids, depth, b, nd, k);
    } else {
      FreeIsLoose(rs, kids, depth, b);
      ClaimedList(rs, s, kids[0], b, nd);
    }
  }

  lemma EmptyListChildless(rs: seq<Record>, kids: seq<seq<nat>>, depth: seq<nat>, b: nat)
    requires Shaped(rs, kids, depth) && b < |kids| && kids[b] == []
    ensures Childless(ForestOf(rs, depth), b)
  {
    forall c | c in ForestOf(rs, depth)
      ensures ForestOf(rs, depth)[c].parent != b
    {
      KidsAre(rs, kids, depth, b, c);
    }
  }

  lemma ReleasedIndex(f: Forest, pi: seq<nat>, b: nat)
    requires WellNested(f) && Agrees(f, pi) && b in f && Childless(f, b)
    ensures Subtree(f, b) == {b} && WellNested(f - {b})
    ensures Agrees(f - {b}, Fill(pi, UpPage(f[b].begin), DownPage(f[b].end), f[b].parent))
  {
    ChildlessSubtree(f, b);
    LeafDeletePatch(f, pi, b);
    DeleteAgrees(f, pi, b);
  }

  lemma ReleasedShape(rs: seq<Record>, s: seq<Record>, kids: seq<seq<nat>>, depth: seq<nat>, b: nat, q: nat, k: nat)
    requires Shaped(rs, kids, depth) && Ascending(rs, kids[0]) && Released(rs, s, b) && s[0] == rs[0]
    requires q == rs[b].parent && q < |kids| && k < |kids[q]| && kids[q][k] == b
    requires Linked(s, kids[q := Without(kids[q], k)])
    ensures Shaped(s, kids[q := Without(kids[q], k)], depth)
    ensures Ascending(s, kids[q := Without(kids[q], k)][0])
  {
    ReleasedHeld(rs, s, kids, depth, b, q, k);
    ReleasedAscending(rs, s, kids, b, q, k);
  }

  /** Deleting a childless bigalloc re-establishes the whole invariant. */
  lemma ReleasedSound(rs: seq<Record>, s: seq<Record>, kids: seq<seq<nat>>, depth: seq<nat>, pi: seq<nat>, b: nat,
      q: nat, k: nat)
    requires Sound(rs, kids, depth, pi) && Released(rs, s, b) && s[0] == rs[0]
    requires q == rs[b].parent && q < |kids| && k < |kids[q]| && kids[q][k] == b && kids[b] == []
    requires Linked(s, kids[q := Without(kids[q], k)])
    ensures Sound(s, kids[q := Without(kids[q], k)], depth, Fill(pi, UpPage(rs[b].begin), DownPage(rs[b].end), q))
    ensures b in ForestOf(rs, depth) && Subtree(ForestOf(rs, depth), b) == {b}
    ensures ForestOf(s, depth) == ForestOf(rs, depth) - {b}
  {
    KidsAre(rs, kids, depth, q, b);
    EmptyListChildless(rs, kids, depth, b);
    ReleasedForest(rs, s, depth, b);
    ReleasedShape(rs, s, kids, depth, b, q, k);
    ReleasedIndex(ForestOf(rs, depth), pi, b);
  }

  /** Both ends rise strictly along the list. */
  ghost predicate Ordered(rs: seq<Record>, ks: seq<nat>)
    requires forall k :: 0 <= k < |ks| ==> ks[k] < |rs|
  {
    && (forall k :: 0 <= k < |ks| ==> 0 < rs[ks[k]].end)
    && forall i, j :: 0 <= i < j < |ks| ==> rs[ks[i]].begin < rs[ks[j]].begin && rs[ks[i]].end < rs[ks[j]].end
  }

  lemma OrderedTop(rs: seq<Record>, kids: seq<seq<nat>>, depth: seq<nat>)
    requires Shaped(rs, kids, depth) && Ascending(rs, kids[0]) && WellNested(ForestOf(rs, depth))
    ensures Ordered(rs, kids[0])
  {
    forall k | 0 <= k < |kids[0]|
      ensures 0 < rs[kids[0][k]].begin < rs[kids[0][k]].end
    {
      KidsAre(rs, kids, depth, 0, kids[0][k]);
    }
  }

  /** A slot filled with fresh contents but not yet hooked anywhere. */
  function Filled(rs: seq<Record>, b: nat, r: Record): seq<Record>
    requires b < |rs|
  {
    rs[b := r]
  }

  /** Writing a record that is on no list, and has no children, disturbs no list. */
  lemma FilledLinked(rs: seq<Record>, kids: seq<seq<nat>>, b: nat, r: Record)
    requires Linked(rs, kids) && 0 < b < |rs| && Loose(kids, b)
    requires r.firstChild == 0 && kids[b] == []
    ensures Linked(Filled(rs, b, r), kids)
  {
    var s := Filled(rs, b, r);
    forall q | 0 <= q < |kids|
      ensures Chain(s, q, kids[q])
    {
      OtherChain(rs, s, q, kids[q]);
    }
  }

  lemma FreeIsChildless(rs: seq<Record>, kids: seq<seq<nat>>, depth: seq<nat>, b: nat)
    requires Shaped(rs, kids, depth) && WellNested(ForestOf(rs, depth)) && 0 < b < |rs| && !InUse(rs[b])
    ensures kids[b] == []
  {
    if kids[b] != [] {
      KidsAre(rs, kids, depth, b, kids[b][0]);
    }
  }

  lemma FilledTop(rs: seq<Record>, ks: seq<nat>, b: nat, r: Record)
    requires b < |rs| && b !in ks && (forall i :: 0 <= i < |ks| ==> ks[i] < |rs|) && Ordered(rs, ks)
    ensures Ordered(Filled(rs, b, r), ks)
  {
  }

  lemma AddedChildClaims(rs: seq<Record>, r: Record, b: nat, q: nat, nd: Node)
    requires 0 < b < |rs| && 0 < q < |rs| && b != q && rs[q].firstChild < |rs|
    requires r.firstChild == 0 && r.begin == nd.begin && r.end == nd.end && q == nd.parent
    requires r.allocatedBy == nd.allocatedBy && r.suballocator == nd.suballocator
    ensures var s := AddedChild(Filled(rs, b, r), b, q); Claimed(rs, s, b, nd) && s[0] == rs[0]
  {
    var fs := Filled(rs, b, r);
    forall i | 0 <= i < |rs| && i != b
      ensures SameCore(AddedChild(fs, b, q)[i], rs[i])
    {
      AddedChildFields(fs, b, q, i);
    }
    AddedChildFields(fs, b, q, b);
    AddedChildFields(fs, b, q, 0);
  }

  lemma AddedTopClaims(rs: seq<Record>, r: Record, b: nat, prev: nat, next: nat, nd: Node)
    requires 0 < b < |rs| && prev < |rs| && next < |rs|
    requires r.begin == nd.begin && r.end == nd.end && r.parent == nd.parent
    requires r.allocatedBy == nd.allocatedBy && r.suballocator == nd.suballocator
    ensures var s := AddedTop(Filled(rs, b, r), b, prev, next); Claimed(rs, s, b, nd) && s[0] == rs[0]
  {
    var fs := Filled(rs, b, r);
    forall i | 0 <= i < |rs|
      ensures SameCore(AddedTop(fs, b, prev, next)[i], fs[i])
    {
      AddedTopFields(fs, b, prev, next, i);
    }
  }

  /** Filling a slot outside a list does not move the place where a range belongs in it. */
  lemma FilledSlot(rs: seq<Record>, ks: seq<nat>, b: nat, r: Record, k: nat, end: nat)
    requires b < |rs| && b !in ks && forall i :: 0 <= i < |ks| ==> ks[i] < |rs|
    requires Slot(Filled(rs, b, r), ks, k, end)
    ensures Slot(rs, ks, k, end)
  {
  }

  lemma CreateTopRoom(rs: seq<Record>, kids: seq<seq<nat>>, depth: seq<nat>, b: nat, nd: Node)
    requires Shaped(rs, kids, depth) && WellNested(ForestOf(rs, depth)) && CanCreate(ForestOf(rs, depth), b, nd) &&
      nd.parent == 0
    ensures forall i :: 0 <= i < |kids[0]| && rs[kids[0][i]].end <= nd.end ==> rs[kids[0][i]].begin < nd.begin
  {
    forall i | 0 <= i < |kids[0]| && rs[kids[0][i]].end <= nd.end
      ensures rs[kids[0][i]].begin < nd.begin
    {
      KidsAre(rs, kids, depth, 0, kids[0][i]);
    }
  }

  lemma FindPosition(ks: seq<nat>, b: nat) returns (k: nat)
    requires b in ks
    ensures k < |ks| && ks[k] == b
  {
    k :| k < |ks| && ks[k] == b;
  }

  function Cleared(rs: seq<Record>, b: nat): seq<Record>
    requires b < |rs|
  {
    rs[b := rs[b].(begin := 0, end := 0)]
  }

  lemma ClearedLinked(rs: seq<Record>, kids: seq<seq<nat>>, b: nat)
    requires Linked(rs, kids) && b < |rs|
    ensures Linked(Cleared(rs, b), kids)
  {
    forall q | 0 <= q < |kids|
      ensures Chain(Cleared(rs, b), q, kids[q])
    {
      OtherChain(rs, Cleared(rs, b), q, kids[q]);
    }
  }

  lemma RemovedReleases(rs: seq<Record>, b: nat)
    requires 0 < b < |rs| && rs[b].parent < |rs| && rs[b].prevSib < |rs| && rs[b].nextSib < |rs|
    requires rs[b].parent != b && rs[b].parent != 0
    ensures Released(rs, Cleared(RemovedChild(rs, b), b), b)
    ensures Cleared(RemovedChild(rs, b), b)[0] == rs[0]
  {
    forall i | 0 <= i < |rs| && i != b
      ensures SameCore(RemovedChild(rs, b)[i], rs[i])
    {
      RemovedChildFields(rs, b, i);
    }
    RemovedChildFields(rs, b, b);
  }

  lemma UnhookedReleases(rs: seq<Record>, b: nat)
    requires 0 < b < |rs| && rs[b].parent == 0 && rs[b].prevSib < |rs| && rs[b].nextSib < |rs|
    ensures Released(rs, Cleared(Unhooked(rs, b), b), b)
    ensures Cleared(Unhooked(rs, b), b)[0] == rs[0]
  {
    forall i | 0 <= i < |rs|
      ensures SameCore(Unhooked(rs, b)[i], rs[i])
    {
      UnhookedFields(rs, b, i);
    }
  }

  lemma InUseInRange(rs: seq<Record>, kids: seq<seq<nat>>, depth: seq<nat>, pi: seq<nat>, b: nat, k: nat)
    requires Sound(rs, kids, depth, pi) && b < |rs| && rs[b].parent < |kids|
    requires k < |kids[rs[b].parent]| && kids[rs[b].parent][k] == b
    ensures PageNum(RoundUp(rs[b].begin, PAGE_SIZE)) <= NPAGES && PageNum(RoundDown(rs[b].end, PAGE_SIZE)) <= NPAGES
  {
    KidsAre(rs, kids, depth, rs[b].parent, b);
    LimitPages(rs[b].begin);
    LimitPages(rs[b].end);
  }

  /** Where the children of `b` are found in the records. */
  lemma FirstChildOf(rs: seq<Record>, kids: seq<seq<nat>>, depth: seq<nat>, b: nat)
    requires Shaped(rs, kids, depth) && b in ForestOf(rs, depth)
    ensures rs[b].firstChild == At(kids[b], 0)
    ensures kids[b] == [] ==> rs[b].firstChild == 0 && Childless(ForestOf(rs, depth), b)
    ensures kids[b] != [] ==>
      var c := rs[b].firstChild;
      && 0 < c < |rs| && c in ForestOf(rs, depth) && ForestOf(rs, depth)[c].parent == b
      && rs[c].nextSib == At(kids[b], 1)
  {
    if kids[b] == [] {
      EmptyListChildless(rs, kids, depth, b);
    } else {
      KidsAre(rs, kids, depth, b, kids[b][0]);
      assert LinkAt(rs, b, kids[b], 0);
    }
  }

  lemma PositionOf(rs: seq<Record>, kids: seq<seq<nat>>, depth: seq<nat>, b: nat) returns (k: nat)
    requires Shaped(rs, kids, depth) && WellNested(ForestOf(rs, depth)) && b in ForestOf(rs, depth)
    ensures rs[b].parent == ForestOf(rs, depth)[b].parent < |kids| && rs[b].parent != b
    ensures k < |kids[rs[b].parent]| && kids[rs[b].parent][k] == b
  {
    KidsAre(rs, kids, depth, rs[b].parent, b);
    k := FindPosition(kids[rs[b].parent], b);
  }

  lemma PruneDoneTable(f: Forest, rs: seq<Record>, kids: seq<seq<nat>>, depth: seq<nat>, b: nat)
    requires Shaped(rs, kids, depth) && Pruned(f, ForestOf(rs, depth), b) && kids[b] == []
    ensures ForestOf(rs, depth) - {b} == f - Subtree(f, b)
    ensures rs[b].parent == f[b].parent
  {
    EmptyListChildless(rs, kids, depth, b);
    PruneDone(f, ForestOf(rs, depth), b);
  }

  /** `b`, the `k`th child of `q`, is gone from its list; outside `tree` no other list changed. */
  ghost predicate ListsAfterDelete(ks: seq<seq<nat>>, ks': seq<seq<nat>>, q: nat, k: nat, b: nat, tree: set<nat>) {
    && |ks'| == |ks| && q < |ks| && k < |ks[q]| && ks[q][k] == b
    && ks'[q] == Without(ks[q], k)
    && forall p :: 0 <= p < |ks| && p !in tree && p != q ==> ks'[p] == ks[p]
  }

  /** Seen from outside a larger tree, nothing has changed; the deleted one is gone from its list. */
  /** Lists of nodes outside a tree are as they were. */
  ghost predicate KeptOutside(ks: seq<seq<nat>>, ks': seq<seq<nat>>, tree: set<nat>) {
    |ks| == |ks'| && forall q :: 0 <= q < |ks| && q !in tree ==> ks'[q] == ks[q]
  }

  /** The first child of a node whose subtree is being taken down, and what taking it down leaves. */
  lemma PruneFirst(f: Forest, rs: seq<Record>, kids: seq<seq<nat>>, depth: seq<nat>, b: nat)
    requires Shaped(rs, kids, depth) && Pruned(f, ForestOf(rs, depth), b) && kids[b] != []
    ensures b in f && b in ForestOf(rs, depth)
    ensures var c, g := kids[b][0], ForestOf(rs, depth);
      && 0 < c < |rs| && c in g && g[c].parent == b && rs[c].nextSib == At(kids[b], 1)
      && Subtree(g, c) < Subtree(f, b) && Pruned(f, g - Subtree(g, c), b)
  {
    FirstChildOf(rs, kids, depth, b);
    PruneChild(f, ForestOf(rs, depth), b, kids[b][0]);
  }

  lemma ListsOutside(ks: seq<seq<nat>>, ks': seq<seq<nat>>, q: nat, k: nat, b: nat, tree: set<nat>, whole: set<nat>)
    requires ListsAfterDelete(ks, ks', q, k, b, tree) && tree <= whole && q in whole && q !in tree
    ensures KeptOutside(ks, ks', whole)
  {
  }

  lemma ListsDeleted(ks: seq<seq<nat>>, mid: seq<seq<nat>>, ks': seq<seq<nat>>, q: nat, k: nat, b: nat, tree: set<nat>)
    requires KeptOutside(ks, mid, tree) && q < |ks| && q !in tree && k < |ks[q]| && ks[q][k] == b
    requires ks' == mid[q := Without(mid[q], k)]
    ensures ListsAfterDelete(ks, ks', q, k, b, tree)
  {
  }

  /** Walking the child list of `b`: position `i` holds a child and leads to position `i + 1`. */
  lemma ChildAt(rs: seq<Record>, kids: seq<seq<nat>>, depth: seq<nat>, b: nat, i: nat)
    requires Shaped(rs, kids, depth) && b < |kids| && i < |kids[b]|
    ensures var c := kids[b][i];
      && 0 < c < |rs| && c in ForestOf(rs, depth) && ForestOf(rs, depth)[c].parent == b
      && rs[c].nextSib == At(kids[b], i + 1)
  {
    KidsAre(rs, kids, depth, b, kids[b][i]);
    assert LinkAt(rs, b, kids[b], i);
  }

  lemma ChildListed(rs: seq<Record>, kids: seq<seq<nat>>, depth: seq<nat>, b: nat, c: nat) returns (i: nat)
    requires Shaped(rs, kids, depth) && b < |kids| && c in ForestOf(rs, depth) && ForestOf(rs, depth)[c].parent == b
    ensures i < |kids[b]| && kids[b][i] == c
  {
    KidsAre(rs, kids, depth, b, c);
    i := FindPosition(kids[b], c);
  }

  lemma ChildListStart(rs: seq<Record>, kids: seq<seq<nat>>, depth: seq<nat>, b: nat)
    requires Shaped(rs, kids, depth) && b in ForestOf(rs, depth)
    ensures 0 < b < |kids| && rs[b].firstChild == At(kids[b], 0)
  {
  }

  /** The walk of a child list has come to its end exactly when it comes to 0. */
  lemma ChildListEnd(rs: seq<Record>, kids: seq<seq<nat>>, depth: seq<nat>, b: nat, i: nat)
    requires Shaped(rs, kids, depth) && b < |kids| && i <= |kids[b]|
    ensures At(kids[b], i) == 0 <==> i == |kids[b]|
  {
    if i < |kids[b]| {
      ChildAt(rs, kids, depth, b, i);
    }
  }

  // ---------------------------------------------------------------- splitting

  /** The records of `M` have been moved under `half`; nothing else about any record's core changed. */
  ghost predicate Reparented(rs: seq<Record>, s: seq<Record>, M: set<nat>, half: nat) {
    && |s| == |rs| && 0 < |rs| && s[0] == rs[0]
    && forall n :: 0 <= n < |rs| ==> SameCore(s[n], rs[n].(parent := if n in M then half else rs[n].parent))
  }

  lemma ReparentedStep(rs: seq<Record>, s: seq<Record>, s': seq<Record>, M: set<nat>, c: nat, half: nat)
    requires Reparented(rs, s, M, half) && Reparented(s, s', {c}, half)
    ensures Reparented(rs, s', M + {c}, half)
  {
    forall n | 0 <= n < |rs|
      ensures SameCore(s'[n], rs[n].(parent := if n in M + {c} then half else rs[n].parent))
    {
      assert SameCore(s'[n], s[n].(parent := if n in {c} then half else s[n].parent));
    }
  }

  lemma MovedChildCore(rs: seq<Record>, c: nat, half: nat)
    requires 0 < c < |rs| && rs[c].parent < |rs| && rs[c].prevSib < |rs| && rs[c].nextSib < |rs|
    requires rs[c].parent != c && rs[c].parent != 0 && half != c && 0 < half < |rs|
    requires RemovedChild(rs, c)[half].firstChild < |rs|
    ensures Reparented(rs, AddedChild(RemovedChild(rs, c), c, half), {c}, half)
  {
    var m := RemovedChild(rs, c);
    var s := AddedChild(m, c, half);
    forall n | 0 <= n < |rs|
      ensures SameCore(s[n], rs[n].(parent := if n == c then half else rs[n].parent))
    {
      RemovedChildFields(rs, c, n);
      AddedChildFields(m, c, half, n);
    }
    AddedChildFields(m, c, half, 0);
    assert m[0] == rs[0];
  }

  /** The children that stay in the first half, in list order. */
  function Keep(rs: seq<Record>, ls: seq<nat>, at: nat): seq<nat>
    requires forall i :: 0 <= i < |ls| ==> ls[i] < |rs|
  {
    if ls == [] then []
    else
      var n := |ls| - 1;
      if at <= rs[ls[n]].begin then Keep(rs, ls[..n], at) else Keep(rs, ls[..n], at) + [ls[n]]
  }

  /** The children that move to the second half, most recent first. */
  function Move(rs: seq<Record>, ls: seq<nat>, at: nat): seq<nat>
    requires forall i :: 0 <= i < |ls| ==> ls[i] < |rs|
  {
    if ls == [] then []
    else
      var n := |ls| - 1;
      if at <= rs[ls[n]].begin then [ls[n]] + Move(rs, ls[..n], at) else Move(rs, ls[..n], at)
  }

  lemma {:induction false} KeepMoveMembers(rs: seq<Record>, ls: seq<nat>, at: nat, c: nat)
    requires forall i :: 0 <= i < |ls| ==> ls[i] < |rs|
    ensures c in Keep(rs, ls, at) <==> c in ls && c < |rs| && rs[c].begin < at
    ensures c in Move(rs, ls, at) <==> c in ls && c < |rs| && at <= rs[c].begin
  {
    if ls != [] {
      var n := |ls| - 1;
      assert ls == ls[..n] + [ls[n]];
      KeepMoveMembers(rs, ls[..n], at, c);
    }
  }

  lemma KeepMoveStep(rs: seq<Record>, ls: seq<nat>, at: nat, i: nat)
    requires (forall j :: 0 <= j < |ls| ==> ls[j] < |rs|) && i < |ls|
    ensures ls[..i + 1][..i] == ls[..i]
    ensures at <= rs[ls[i]].begin ==>
      Keep(rs, ls[..i + 1], at) == Keep(rs, ls[..i], at) && Move(rs, ls[..i + 1], at) == [ls[i]] + Move(rs, ls[..i], at)
    ensures rs[ls[i]].begin < at ==>
      Keep(rs, ls[..i + 1], at) == Keep(rs, ls[..i], at) + [ls[i]] && Move(rs, ls[..i + 1], at) == Move(rs, ls[..i], at)
  {
    assert ls[..i + 1][..i] == ls[..i];
  }

  /** Half way through the loop: what the lists of the two halves hold. */
  ghost predicate SplitLists(rs: seq<Record>, kids: seq<seq<nat>>, ks: seq<seq<nat>>, b: nat, half: nat, at: nat,
      i: nat)
    requires b < |kids| && (forall j :: 0 <= j < |kids[b]| ==> kids[b][j] < |rs|)
  {
    && |ks| == |kids| && half < |kids| && i <= |kids[b]|
    && ks[b] == Keep(rs, kids[b][..i], at) + kids[b][i..]
    && ks[half] == Move(rs, kids[b][..i], at)
    && forall q :: 0 <= q < |kids| && q != b && q != half ==> ks[q] == kids[q]
  }

  lemma SplitListsStay(rs: seq<Record>, kids: seq<seq<nat>>, ks: seq<seq<nat>>, b: nat, half: nat, at: nat, i: nat)
    requires b < |kids| && (forall j :: 0 <= j < |kids[b]| ==> kids[b][j] < |rs|)
    requires SplitLists(rs, kids, ks, b, half, at, i) && i < |kids[b]| && rs[kids[b][i]].begin < at
    ensures SplitLists(rs, kids, ks, b, half, at, i + 1)
  {
    KeepMoveStep(rs, kids[b], at, i);
    assert kids[b][i..] == [kids[b][i]] + kids[b][i + 1..];
  }

  lemma SplitListsMove(rs: seq<Record>, kids: seq<seq<nat>>, ks: seq<seq<nat>>, b: nat, half: nat, at: nat, i: nat)
    requires b < |kids| && (forall j :: 0 <= j < |kids[b]| ==> kids[b][j] < |rs|)
    requires SplitLists(rs, kids, ks, b, half, at, i) && i < |kids[b]| && at <= rs[kids[b][i]].begin && b != half
    ensures var k := |Keep(rs, kids[b][..i], at)|;
      && k < |ks[b]| && ks[b][k] == kids[b][i]
      && SplitLists(rs, kids, ks[b := Without(ks[b], k)][half := [kids[b][i]] + ks[half]], b, half, at, i + 1)
  {
    KeepMoveStep(rs, kids[b], at, i);
    var k := |Keep(rs, kids[b][..i], at)|;
    assert Without(ks[b], k) == Keep(rs, kids[b][..i], at) + kids[b][i + 1..];
  }

  ghost predicate SplitRecordAt(rs: seq<Record>, s: seq<Record>, kids: seq<seq<nat>>, b: nat, half: nat, at: nat,
      n: nat) {
    && b < |rs| && b < |kids| && n < |rs| == |s|
    && (n == half ==> NodeOf(s[n], 0) == NodeOf(rs[b].(begin := at), 0))
    && (n == b && n != half ==> SameCore(s[n], rs[b].(end := at)))
    && (n != half && n != b ==>
          SameCore(s[n], rs[n].(parent := if n in kids[b] && at <= rs[n].begin then half else rs[n].parent)))
  }

  /** The table after the loop and the final update of the end of `b`. */
  ghost predicate SplitRecords(rs: seq<Record>, s: seq<Record>, kids: seq<seq<nat>>, b: nat, half: nat, at: nat) {
    && |s| == |rs| && 0 < half < |rs| && s[0] == rs[0]
    && forall n :: 0 < n < |rs| ==> SplitRecordAt(rs, s, kids, b, half, at, n)
  }

  lemma SplitTableNode(rs: seq<Record>, s: seq<Record>, kids: seq<seq<nat>>, depth: seq<nat>, b: nat, half: nat,
      at: nat, n: nat)
    requires Shaped(rs, kids, depth) && b in ForestOf(rs, depth) && CanSplit(ForestOf(rs, depth), b, half, at)
    requires |s| == |rs| && 0 < n < |rs| && SplitRecordAt(rs, s, kids, b, half, at, n)
    ensures var g, h := ForestOf(s, depth[half := depth[b]]), SplitForest(ForestOf(rs, depth), b, half, at);
      (n in g <==> n in h) && (n in g ==> g[n] == h[n])
  {
    KidsAre(rs, kids, depth, b, n);
  }

  lemma SameForest(g: Forest, h: Forest, size: nat)
    requires forall n :: n in g || n in h ==> 0 < n < size
    requires forall n :: 0 < n < size ==> (n in g <==> n in h) && (n in g ==> g[n] == h[n])
    ensures g == h
  {
    assert forall n :: n in g <==> n in h;
  }

  lemma SplitTableForest(rs: seq<Record>, s: seq<Record>, kids: seq<seq<nat>>, depth: seq<nat>, b: nat, half: nat,
      at: nat)
    requires Shaped(rs, kids, depth) && b in ForestOf(rs, depth) && CanSplit(ForestOf(rs, depth), b, half, at)
    requires SplitRecords(rs, s, kids, b, half, at)
    ensures ForestOf(s, depth[half := depth[b]]) == SplitForest(ForestOf(rs, depth), b, half, at)
  {
    var g, h := ForestOf(s, depth[half := depth[b]]), SplitForest(ForestOf(rs, depth), b, half, at);
    forall n | 0 < n < |rs|
      ensures (n in g <==> n in h) && (n in g ==> g[n] == h[n])
    {
      assert SplitRecordAt(rs, s, kids, b, half, at, n);
      SplitTableNode(rs, s, kids, depth, b, half, at, n);
    }
    SameForest(g, h, |rs|);
  }

  /** Record `n` is in use exactly when it is on the list of its parent. */
  ghost predicate HeldAt(rs: seq<Record>, kids: seq<seq<nat>>, n: nat) {
    && n < |rs| && rs[n].parent < |kids|
    && (InUse(rs[n]) <==> n in kids[rs[n].parent])
    && (!InUse(rs[n]) ==> rs[n].parent == 0)
  }

  lemma SplitHeldAt(rs: seq<Record>, s: seq<Record>, kids: seq<seq<nat>>, mid: seq<seq<nat>>, ks: seq<seq<nat>>,
      b: nat, half: nat, at: nat, k: nat, n: nat)
    requires HeldAt(rs, kids, n) && HeldAt(rs, kids, b) && InUse(rs[b]) && 0 < n && 0 < half < |kids| && 0 < b < |kids|
    requires SplitRecordAt(rs, s, kids, b, half, at, n) && kids[half] == [] && 0 < at && b != half
    requires n in kids[b] ==> rs[n].parent == b && InUse(rs[n])
    requires rs[b].parent != b && rs[b].parent != half && k <= |kids[rs[b].parent]|
    requires mid == kids[rs[b].parent := Inserted(kids[rs[b].parent], k, half)]
    requires forall j :: 0 <= j < |kids[b]| ==> kids[b][j] < |rs|
    requires SplitLists(rs, mid, ks, b, half, at, |kids[b]|)
    ensures HeldAt(s, ks, n)
  {
    KeepMoveMembers(rs, kids[b], at, n);
    assert kids[b][..|kids[b]|] == kids[b];
    assert ks[b] == Keep(rs, kids[b], at) && ks[half] == Move(rs, kids[b], at);
    InsertedKeeps(kids[rs[b].parent], k, half);
    if n != half {
      InsertedIn(kids[rs[b].parent], k, half, n);
    }
  }

  lemma SplitHeld(rs: seq<Record>, s: seq<Record>, kids: seq<seq<nat>>, mid: seq<seq<nat>>, ks: seq<seq<nat>>,
      depth: seq<nat>, b: nat, half: nat, at: nat, k: nat)
    requires Shaped(rs, kids, depth) && 0 < b < |rs| && InUse(rs[b]) && 0 < half < |rs| && b != half && 0 < at
    requires SplitRecords(rs, s, kids, b, half, at) && kids[half] == []
    requires rs[b].parent != b && rs[b].parent != half && k <= |kids[rs[b].parent]|
    requires mid == kids[rs[b].parent := Inserted(kids[rs[b].parent], k, half)]
    requires SplitLists(rs, mid, ks, b, half, at, |kids[b]|)
    ensures Held(s, ks)
  {
    assert HeldAt(rs, kids, b);
    forall n | 0 < n < |s|
      ensures HeldAt(s, ks, n)
    {
      assert HeldAt(rs, kids, n);
      KidsAre(rs, kids, depth, b, n);
      assert SplitRecordAt(rs, s, kids, b, half, at, n);
      SplitHeldAt(rs, s, kids, mid, ks, b, half, at, k, n);
    }
    HeldFromEach(s, ks);
  }

  lemma HeldFromEach(rs: seq<Record>, kids: seq<seq<nat>>)
    requires |rs| == |kids| == NBIGALLOCS && rs[0] == EMPTY
    requires forall n :: 0 < n < |rs| ==> HeldAt(rs, kids, n)
    ensures Held(rs, kids)
  {
    forall n | 0 < n < |rs|
      ensures rs[n].parent < |kids| && (InUse(rs[n]) <==> n in kids[rs[n].parent]) &&
        (!InUse(rs[n]) ==> rs[n].parent == 0)
    {
      assert HeldAt(rs, kids, n);
    }
  }

  /** The second half goes right behind the first in the top-level list. */
  lemma SplitAscending(rs: seq<Record>, s: seq<Record>, kids: seq<seq<nat>>, depth: seq<nat>, b: nat, half: nat,
      at: nat, k: nat)
    requires Shaped(rs, kids, depth) && Ascending(rs, kids[0]) && WellNested(ForestOf(rs, depth))
    requires CanSplit(ForestOf(rs, depth), b, half, at) && SplitRecords(rs, s, kids, b, half, at) && !InUse(rs[half])
    requires rs[b].parent == 0 && Slot(rs, kids[0], k, rs[b].end)
    ensures forall i :: 0 <= i < |Inserted(kids[0], k, half)| ==> Inserted(kids[0], k, half)[i] < |s|
    ensures Ascending(s, Inserted(kids[0], k, half))
  {
    var ks := kids[0];
    FreeIsLoose(rs, kids, depth, half);
    KidsAre(rs, kids, depth, 0, b);
    forall i | 0 <= i < |ks|
      ensures s[ks[i]].begin == rs[ks[i]].begin && s[ks[i]].end <= rs[ks[i]].end
      ensures if i < k then s[ks[i]].end <= at else rs[b].end <= s[ks[i]].begin
    {
      KidsAre(rs, kids, depth, 0, ks[i]);
      KidsAre(rs, kids, depth, b, ks[i]);
      assert SplitRecordAt(rs, s, kids, b, half, at, ks[i]);
    }
    assert SplitRecordAt(rs, s, kids, b, half, at, half);
    AscendingInserted(s, ks, k, half);
  }

  lemma SplitTopUntouched(rs: seq<Record>, s: seq<Record>, kids: seq<seq<nat>>, depth: seq<nat>, b: nat, half: nat,
      at: nat)
    requires Shaped(rs, kids, depth) && Ascending(rs, kids[0]) && b in ForestOf(rs, depth)
    requires SplitRecords(rs, s, kids, b, half, at) && !InUse(rs[half]) && rs[b].parent != 0
    ensures Ascending(s, kids[0])
  {
    FreeIsLoose(rs, kids, depth, half);
    forall i | 0 <= i < |kids[0]|
      ensures s[kids[0][i]].begin == rs[kids[0][i]].begin && s[kids[0][i]].end == rs[kids[0][i]].end
    {
      KidsAre(rs, kids, depth, 0, kids[0][i]);
      assert SplitRecordAt(rs, s, kids, b, half, at, kids[0][i]);
    }
    AscendingSame(rs, s, kids[0]);
  }
}
