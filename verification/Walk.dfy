/** The depth-first walk over a tree of allocations and their parts. */
module Walks {
  import opened Paths

  /** Something that can be walked: nothing is known of the parts of an opaque thing, which has
      neither a bigalloc nor a type. */
  datatype Tree = Opaque(id: nat) | Container(id: nat, parts: seq<Tree>)

  /** The path that a client is given: the chain of one-based coordinates, innermost first, and the
      depth recorded beside each. */
  datatype Path = Start | To(encl: Path, coord: nat, enclDepth: nat)

  datatype Visit = Visit(node: Tree, path: Path)

  /** A client answers the last of the calls made so far, knowing them all. */
  type Client = seq<Visit> -> int

  const CARRY_ON := 0
  const SKIP_SUBTREE := -1

  function Depth(p: Path): nat {
    if p.Start? then 0 else p.enclDepth
  }

  function Child(encl: Path, i: nat): Path {
    To(encl, i + 1, 1 + Depth(encl))
  }

  function Parts(t: Tree): seq<Tree> {
    if t.Container? then t.parts else []
  }

  // ---------------------------------------------------------------- the pre-order

  function PreorderOf(t: Tree, path: Path): seq<Visit>
    decreases t, 0
  {
    [Visit(t, path)] + (if t.Container? then Preorder(t.parts, 0, path) else [])
  }

  function Preorder(ts: seq<Tree>, from: nat, encl: Path): seq<Visit>
    decreases ts, |ts| - from
  {
    if |ts| <= from then [] else PreorderOf(ts[from], Child(encl, from)) + Preorder(ts, from + 1, encl)
  }

  /** How many visits at the beginning of a list are deeper than `d`. */
  function RunLength(vs: seq<Visit>, d: nat): (n: nat)
    ensures n <= |vs| && (forall i :: 0 <= i < n ==> d < Depth(vs[i].path))
    ensures n < |vs| ==> Depth(vs[n].path) <= d
  {
    if vs == [] || Depth(vs[0].path) <= d then 0 else 1 + RunLength(vs[1..], d)
  }

  /** What follows them. */
  function AfterRun(vs: seq<Visit>, d: nat): (r: seq<Visit>)
    ensures |r| <= |vs|
  {
    vs[RunLength(vs, d)..]
  }

  ghost predicate AllBelow(vs: seq<Visit>, d: nat) {
    forall i :: 0 <= i < |vs| ==> d < Depth(vs[i].path)
  }

  lemma RunUnique(vs: seq<Visit>, d: nat, n: nat)
    requires n <= |vs| && (forall i :: 0 <= i < n ==> d < Depth(vs[i].path)) && (n < |vs| ==> Depth(vs[n].path) <= d)
    ensures RunLength(vs, d) == n
  {
  }

  lemma {:induction false} PreorderOfBelow(t: Tree, path: Path, d: nat)
    requires d < Depth(path)
    ensures AllBelow(PreorderOf(t, path), d)
    decreases t, 0
  {
    if t.Container? {
      PreorderBelow(t.parts, 0, path);
    }
  }

  lemma {:induction false} PreorderBelow(ts: seq<Tree>, from: nat, encl: Path)
    ensures AllBelow(Preorder(ts, from, encl), Depth(encl))
    decreases ts, |ts| - from
  {
    if from < |ts| {
      PreorderOfBelow(ts[from], Child(encl, from), Depth(encl));
      PreorderBelow(ts, from + 1, encl);
    }
  }

  // ---------------------------------------------------------------- the reference walk

  /** Go along a list of visits. A reply to skip passes over everything deeper that follows directly;
      a reply that is neither that nor to carry on ends the walk. */
  function Flat(vs: seq<Visit>, client: Client, made: seq<Visit>): (r: (int, seq<Visit>))
    ensures made <= r.1
    decreases |vs|
  {
    if vs == [] then (CARRY_ON, made) else
    var calls := made + [vs[0]];
    var reply := client(calls);
    if reply == CARRY_ON then Flat(vs[1..], client, calls)
    else if reply == SKIP_SUBTREE then Flat(AfterRun(vs[1..], Depth(vs[0].path)), client, calls)
    else (reply, calls)
  }

  function FlatThen(r: (int, seq<Visit>), vs: seq<Visit>, client: Client): (int, seq<Visit>) {
    if r.0 == CARRY_ON then Flat(vs, client, r.1) else r
  }

  lemma RunJoins(a: seq<Visit>, b: seq<Visit>, d: nat)
    requires b == [] || Depth(b[0].path) <= d
    ensures RunLength(a + b, d) == RunLength(a, d)
  {
    var n := RunLength(a, d);
    if n < |a| {
      assert (a + b)[n] == a[n];
    } else {
      assert b == [] || (a + b)[n] == b[0];
    }
    assert forall i :: 0 <= i < n ==> (a + b)[i] == a[i];
    RunUnique(a + b, d, n);
  }

  lemma SkipJoins(a: seq<Visit>, b: seq<Visit>, d: nat)
    requires b == [] || Depth(b[0].path) <= d
    ensures AfterRun(a + b, d) == AfterRun(a, d) + b
  {
    RunJoins(a, b, d);
  }

  /** A walk along two lists is a walk along the first and then the second, if no cut reaches over. */
  lemma {:induction false} FlatJoins(a: seq<Visit>, b: seq<Visit>, d: nat, client: Client, made: seq<Visit>)
    requires AllBelow(a, d) && (b == [] || Depth(b[0].path) <= d + 1)
    ensures Flat(a + b, client, made) == FlatThen(Flat(a, client, made), b, client)
    decreases |a|
  {
    if a == [] {
      assert a + b == b;
    } else {
      var calls, v, rest := made + [a[0]], a[0], a[1..];
      assert (a + b)[1..] == rest + b && (a + b)[0] == v;
      TailBelow(a, d);
      if client(calls) == CARRY_ON {
        FlatJoins(rest, b, d, client, calls);
      } else if client(calls) == SKIP_SUBTREE {
        SkipJoins(rest, b, Depth(v.path));
        FlatJoins(AfterRun(rest, Depth(v.path)), b, d, client, calls);
      }
    }
  }

  lemma TailBelow(a: seq<Visit>, d: nat)
    requires a != [] && AllBelow(a, d)
    ensures AllBelow(a[1..], d) && AllBelow(AfterRun(a[1..], Depth(a[0].path)), d) && d < Depth(a[0].path)
  {
  }

  /** The pre-order of siblings is walked one tree at a time. */
  lemma FlatSiblings(ts: seq<Tree>, from: nat, encl: Path, client: Client, made: seq<Visit>)
    requires from < |ts|
    ensures Flat(Preorder(ts, from, encl), client, made)
      == FlatThen(Flat(PreorderOf(ts[from], Child(encl, from)), client, made), Preorder(ts, from + 1, encl), client)
  {
    PreorderOfBelow(ts[from], Child(encl, from), Depth(encl));
    if from + 1 < |ts| {
      assert PreorderOf(ts[from + 1], Child(encl, from + 1))[0].path == Child(encl, from + 1);
    }
    FlatJoins(PreorderOf(ts[from], Child(encl, from)), Preorder(ts, from + 1, encl), Depth(encl), client, made);
  }

  /** One tree: its root is called, and then its parts unless the reply says otherwise. */
  lemma FlatTree(t: Tree, path: Path, client: Client, made: seq<Visit>)
    ensures var calls := made + [Visit(t, path)];
      Flat(PreorderOf(t, path), client, made) ==
      if client(calls) == 0 then Flat(Preorder(Parts(t), 0, path), client, calls)
      else if client(calls) == -1 then (0, calls)
      else (client(calls), calls)
  {
    var rest := Preorder(Parts(t), 0, path);
    assert PreorderOf(t, path)[1..] == rest;
    PreorderBelow(Parts(t), 0, path);
    RunUnique(rest, Depth(path), |rest|);
    assert rest[|rest|..] == [];
  }

  // ---------------------------------------------------------------- cut subtrees

  /** The parts that are walked: those of a container that is not cut off. */
  function UncutParts(t: Tree, path: Path, cut: Visit -> bool): seq<Tree> {
    if t.Container? && !cut(Visit(t, path)) then t.parts else []
  }

  /** The pre-order of the tree with everything below its cut nodes left out. */
  function CutPreorderOf(t: Tree, path: Path, cut: Visit -> bool): seq<Visit>
    decreases t, 0
  {
    [Visit(t, path)]
    + (if t.Container? && !cut(Visit(t, path)) then CutPreorder(t.parts, 0, path, cut) else [])
  }

  function CutPreorder(ts: seq<Tree>, from: nat, encl: Path, cut: Visit -> bool): seq<Visit>
    decreases ts, |ts| - from
  {
    if |ts| <= from then [] else
    CutPreorderOf(ts[from], Child(encl, from), cut) + CutPreorder(ts, from + 1, encl, cut)
  }

  lemma {:induction false} CutPreorderOfBelow(t: Tree, path: Path, cut: Visit -> bool, d: nat)
    requires d < Depth(path)
    ensures AllBelow(CutPreorderOf(t, path, cut), d)
    decreases t, 0
  {
    if t.Container? {
      CutPreorderBelow(t.parts, 0, path, cut);
    }
  }

  lemma {:induction false} CutPreorderBelow(ts: seq<Tree>, from: nat, encl: Path, cut: Visit -> bool)
    ensures AllBelow(CutPreorder(ts, from, encl, cut), Depth(encl))
    decreases ts, |ts| - from
  {
    if from < |ts| {
      CutPreorderOfBelow(ts[from], Child(encl, from), cut, Depth(encl));
      CutPreorderBelow(ts, from + 1, encl, cut);
    }
  }

  /** The client replies to skip at the cut visits, and otherwise to carry on. */
  ghost predicate CutsAt(client: Client, cut: Visit -> bool) {
    forall calls: seq<Visit> :: calls != [] ==>
      client(calls) == if cut(calls[|calls| - 1]) then SKIP_SUBTREE else CARRY_ON
  }

  lemma {:induction false} CutWalkOf(t: Tree, path: Path, client: Client, cut: Visit -> bool, made: seq<Visit>)
    requires CutsAt(client, cut)
    ensures Flat(PreorderOf(t, path), client, made) == (CARRY_ON, made + CutPreorderOf(t, path, cut))
    decreases t, 0
  {
    var v := Visit(t, path);
    var calls := made + [v];
    FlatTree(t, path, client, made);
    assert client(calls) == if cut(v) then SKIP_SUBTREE else CARRY_ON;
    if t.Container? && !cut(v) {
      CutWalk(t.parts, 0, path, client, cut, calls);
      JoinCalls(made, [v], CutPreorder(t.parts, 0, path, cut));
    } else {
      assert Parts(t) == [] || cut(v);
      assert CutPreorderOf(t, path, cut) == [v];
    }
  }

  lemma JoinCalls(a: seq<Visit>, b: seq<Visit>, c: seq<Visit>)
    ensures a + b + c == a + (b + c)
  {
  }

  /** A walk whose client only ever skips or carries on makes the calls of the pre-order of the cut tree. */
  lemma {:induction false} CutWalk(ts: seq<Tree>, from: nat, encl: Path, client: Client, cut: Visit -> bool,
      made: seq<Visit>)
    requires CutsAt(client, cut)
    ensures Flat(Preorder(ts, from, encl), client, made) == (CARRY_ON, made + CutPreorder(ts, from, encl, cut))
    decreases ts, |ts| - from
  {
    if from < |ts| {
      var first, rest := CutPreorderOf(ts[from], Child(encl, from), cut), CutPreorder(ts, from + 1, encl, cut);
      FlatSiblings(ts, from, encl, client, made);
      CutWalkOf(ts[from], Child(encl, from), client, cut, made);
      CutWalk(ts, from + 1, encl, client, cut, made + first);
      JoinCalls(made, first, rest);
    } else {
      assert made + [] == made;
    }
  }

  // ---------------------------------------------------------------- the walk

  /** Call the client for one thing and then walk what it contains. */
  method WalkOne(t: Tree, coord: nat, client: Client, container: Path, made: seq<Visit>)
    returns (ret: int, calls: seq<Visit>)
    requires 0 < coord
    ensures (ret, calls) == Flat(PreorderOf(t, Child(container, coord - 1)), client, made)
    decreases t, 0
  {
    var here := To(container, coord, 1 + Depth(container));
    FlatTree(t, here, client, made);
    calls := made + [Visit(t, here)];
    ret := client(calls);
    if ret == SKIP_SUBTREE {
      return CARRY_ON, calls;
    }
    if ret != CARRY_ON {
      return;
    }
    if t.Opaque? {
      return CARRY_ON, calls;
    }
    ret, calls := WalkAllocations(t.parts, client, here, calls);
  }

  /** Walk the things in one container, until a walk of one of them asks to stop. */
  method WalkAllocations(ts: seq<Tree>, client: Client, container: Path, made: seq<Visit>)
    returns (ret: int, calls: seq<Visit>)
    ensures (ret, calls) == Flat(Preorder(ts, 0, container), client, made)
    decreases ts, 1
  {
    ret, calls := CARRY_ON, made;
    var i := 0;
    while i < |ts|
      invariant 0 <= i <= |ts| && ret == CARRY_ON
      invariant Flat(Preorder(ts, 0, container), client, made) == Flat(Preorder(ts, i, container), client, calls)
    {
      FlatSiblings(ts, i, container, client, calls);
      ret, calls := WalkOne(ts[i], i + 1, client, container, calls);
      if ret != CARRY_ON {
        return;
      }
      i := i + 1;
    }
  }

  /** The depth-first walk of everything under a position in the tree. */
  method WalkAllocationsDf(ts: seq<Tree>, client: Client) returns (ret: int, calls: seq<Visit>)
    ensures (ret, calls) == Flat(Preorder(ts, 0, Start), client, [])
    ensures ret != SKIP_SUBTREE
    ensures (forall h :: client(h) == CARRY_ON) ==> calls == Preorder(ts, 0, Start)
  {
    ret, calls := WalkAllocations(ts, client, Start, []);
    FlatOutcome(Preorder(ts, 0, Start), client, []);
    if forall h :: client(h) == CARRY_ON {
      FlatAll(Preorder(ts, 0, Start), client, []);
    }
  }

  // ---------------------------------------------------------------- what a walk does

  /** The reply to the k-th call of a run. */
  function Reply(client: Client, calls: seq<Visit>, k: nat): int
    requires k < |calls|
  {
    client(calls[..k + 1])
  }

  /** A walk ends at the first reply that is neither to carry on nor to skip, and returns that reply;
      so it never returns the reply to skip. */
  /** No reply to skip comes out, the last reply does if it ended the walk, and the others did not. */
  ghost predicate Outcome(client: Client, first: nat, r: (int, seq<Visit>)) {
    && r.0 != SKIP_SUBTREE
    && (r.0 != CARRY_ON ==> first < |r.1| && Reply(client, r.1, |r.1| - 1) == r.0)
    && (forall k :: first <= k < |r.1| - (if r.0 == CARRY_ON then 0 else 1) ==>
          Reply(client, r.1, k) == CARRY_ON || Reply(client, r.1, k) == SKIP_SUBTREE)
  }

  lemma {:induction false} FlatOutcome(vs: seq<Visit>, client: Client, made: seq<Visit>)
    ensures Outcome(client, |made|, Flat(vs, client, made))
    decreases |vs|
  {
    if vs != [] {
      var calls := made + [vs[0]];
      var reply := client(calls);
      if reply == CARRY_ON {
        FlatOutcome(vs[1..], client, calls);
        OutcomeOneMore(client, calls, Flat(vs, client, made));
      } else if reply == SKIP_SUBTREE {
        FlatOutcome(AfterRun(vs[1..], Depth(vs[0].path)), client, calls);
        OutcomeOneMore(client, calls, Flat(vs, client, made));
      } else {
        assert calls[..|calls|] == calls;
      }
    }
  }

  lemma OutcomeOneMore(client: Client, calls: seq<Visit>, r: (int, seq<Visit>))
    requires calls != [] && calls <= r.1 && Outcome(client, |calls|, r)
    requires client(calls) == CARRY_ON || client(calls) == SKIP_SUBTREE
    ensures Outcome(client, |calls| - 1, r)
  {
    assert r.1[..|calls|] == calls;
  }

  lemma {:induction false} FlatAll(vs: seq<Visit>, client: Client, made: seq<Visit>)
    requires forall h :: client(h) == CARRY_ON
    ensures Flat(vs, client, made) == (CARRY_ON, made + vs)
    decreases |vs|
  {
    if vs == [] {
      assert made + vs == made;
    } else {
      FlatAll(vs[1..], client, made + [vs[0]]);
      assert made + [vs[0]] + vs[1..] == made + vs;
    }
  }

  /** The k-th call is about something in `encl` itself, or follows a call for what it is in, to which
      the reply was to carry on. */
  ghost predicate Invited(client: Client, calls: seq<Visit>, first: nat, k: nat, encl: Path)
    requires k < |calls|
  {
    && calls[k].path.To?
    && (calls[k].path.encl == encl
        || exists j :: first <= j < k && calls[j].path == calls[k].path.encl && Reply(client, calls, j) == CARRY_ON)
  }

  lemma InvitedLater(client: Client, calls: seq<Visit>, more: seq<Visit>, first: nat, k: nat, encl: Path)
    requires calls <= more && k < |calls| && Invited(client, calls, first, k, encl)
    ensures Invited(client, more, first, k, encl)
  {
    if calls[k].path.encl != encl {
      var j :| first <= j < k && calls[j].path == calls[k].path.encl && Reply(client, calls, j) == CARRY_ON;
      assert more[..j + 1] == calls[..j + 1];
      assert Reply(client, more, j) == CARRY_ON;
    }
  }

  lemma {:induction false} TreeInvited(t: Tree, i: nat, encl: Path, client: Client, made: seq<Visit>, k: nat)
    requires |made| <= k < |Flat(PreorderOf(t, Child(encl, i)), client, made).1|
    ensures Invited(client, Flat(PreorderOf(t, Child(encl, i)), client, made).1, |made|, k, encl)
    decreases t, 0
  {
    var path := Child(encl, i);
    var calls := made + [Visit(t, path)];
    var r := Flat(PreorderOf(t, path), client, made).1;
    FlatTree(t, path, client, made);
    if client(calls) == CARRY_ON && |calls| <= k {
      ForestInvited(Parts(t), 0, path, client, calls, k);
      assert r[..|made| + 1] == calls;
      assert Reply(client, r, |made|) == CARRY_ON;
    }
  }

  /** Nothing is called unless everything around it was called first and carried on. */
  lemma {:induction false} ForestInvited(ts: seq<Tree>, from: nat, encl: Path, client: Client, made: seq<Visit>, k: nat)
    requires |made| <= k < |Flat(Preorder(ts, from, encl), client, made).1|
    ensures Invited(client, Flat(Preorder(ts, from, encl), client, made).1, |made|, k, encl)
    decreases ts, |ts| - from
  {
    FlatSiblings(ts, from, encl, client, made);
    var r := Flat(PreorderOf(ts[from], Child(encl, from)), client, made);
    var whole := Flat(Preorder(ts, from, encl), client, made).1;
    if k < |r.1| {
      TreeInvited(ts[from], from, encl, client, made, k);
      InvitedLater(client, r.1, whole, |made|, k, encl);
    } else {
      ForestInvited(ts, from + 1, encl, client, r.1, k);
    }
  }

  /** `p` is `q` or one of the things around it. */
  ghost predicate Around(p: Path, q: Path) {
    q == p || (q.To? && Around(p, q.encl))
  }

  lemma {:induction false} PreorderOfAround(t: Tree, path: Path, v: Visit)
    requires v in PreorderOf(t, path)
    ensures Around(path, v.path)
    decreases t, 0
  {
    if v != Visit(t, path) {
      PreorderAround(t.parts, 0, path, v);
    }
  }

  lemma {:induction false} PreorderAround(ts: seq<Tree>, from: nat, encl: Path, v: Visit)
    requires v in Preorder(ts, from, encl)
    ensures v.path.To? && Around(encl, v.path.encl)
    decreases ts, |ts| - from
  {
    var p := Child(encl, from);
    if v in PreorderOf(ts[from], p) {
      if v != Visit(ts[from], p) {
        PreorderAround(ts[from].parts, 0, p, v);
        AroundSteps(encl, p, v.path.encl);
      }
    } else {
      PreorderAround(ts, from + 1, encl, v);
    }
  }

  lemma {:induction false} AroundSteps(o: Path, p: Path, q: Path)
    requires p.To? && p.encl == o && Around(p, q)
    ensures Around(o, q)
    decreases q
  {
    if q != p {
      AroundSteps(o, p, q.encl);
    }
  }

  /** The visit was made, or something around it was called and told to be skipped. */
  ghost predicate Accounted(client: Client, calls: seq<Visit>, v: Visit) {
    v in calls || exists j ::
      0 <= j < |calls| && Reply(client, calls, j) == SKIP_SUBTREE && Around(calls[j].path, v.path)
  }

  lemma AccountedLater(client: Client, calls: seq<Visit>, more: seq<Visit>, v: Visit)
    requires calls <= more && Accounted(client, calls, v)
    ensures Accounted(client, more, v)
  {
    if v !in calls {
      var j :| 0 <= j < |calls| && Reply(client, calls, j) == SKIP_SUBTREE && Around(calls[j].path, v.path);
      assert more[..j + 1] == calls[..j + 1];
      assert Reply(client, more, j) == SKIP_SUBTREE;
    }
  }

  lemma {:induction false} TreeAccounted(t: Tree, path: Path, client: Client, made: seq<Visit>, v: Visit)
    requires v in PreorderOf(t, path) && Flat(PreorderOf(t, path), client, made).0 == CARRY_ON
    ensures Accounted(client, Flat(PreorderOf(t, path), client, made).1, v)
    decreases t, 0
  {
    var calls := made + [Visit(t, path)];
    FlatTree(t, path, client, made);
    if v == Visit(t, path) {
      assert v in calls;
    } else if client(calls) == CARRY_ON {
      ForestAccounted(t.parts, 0, path, client, calls, v);
    } else {
      PreorderOfAround(t, path, v);
      assert calls[..|made| + 1] == calls;
      assert Reply(client, calls, |made|) == SKIP_SUBTREE;
    }
  }

  /** A walk that was not stopped has called everything but what lies in subtrees it was told to skip. */
  lemma {:induction false} ForestAccounted(ts: seq<Tree>, from: nat, encl: Path, client: Client, made: seq<Visit>,
      v: Visit)
    requires v in Preorder(ts, from, encl) && Flat(Preorder(ts, from, encl), client, made).0 == CARRY_ON
    ensures Accounted(client, Flat(Preorder(ts, from, encl), client, made).1, v)
    decreases ts, |ts| - from
  {
    FlatSiblings(ts, from, encl, client, made);
    var r := Flat(PreorderOf(ts[from], Child(encl, from)), client, made);
    if v in PreorderOf(ts[from], Child(encl, from)) {
      TreeAccounted(ts[from], Child(encl, from), client, made, v);
      AccountedLater(client, r.1, Flat(Preorder(ts, from, encl), client, made).1, v);
    } else {
      ForestAccounted(ts, from + 1, encl, client, r.1, v);
    }
  }

  // ---------------------------------------------------------------- paths are true

  /** What a path leads to, following its coordinates down from the things in `base`; the depths
      recorded on the way must be true as well. */
  ghost function PartsAt(ts: seq<Tree>, base: Path, path: Path): seq<Tree>
    decreases path, 1
  {
    if path == base then ts else
    var at := NodesAt(ts, base, path);
    if |at| == 1 then Parts(at[0]) else []
  }

  /** The node at a path, as a list of at most one. */
  ghost function NodesAt(ts: seq<Tree>, base: Path, path: Path): seq<Tree>
    decreases path, 0
  {
    if path.Start? || path.enclDepth != 1 + Depth(path.encl) then [] else
    var parts := PartsAt(ts, base, path.encl);
    if 1 <= path.coord <= |parts| then [parts[path.coord - 1]] else []
  }

  /** How a visit comes to be listed: as the i-th thing here, or as a part of something listed. */
  ghost predicate Placed(vs: seq<Visit>, ts: seq<Tree>, encl: Path, v: Visit) {
    || (exists i :: 0 <= i < |ts| && v == Visit(ts[i], Child(encl, i)))
    || (exists u, i :: u in vs && 0 <= i < |Parts(u.node)| && v == Visit(Parts(u.node)[i], Child(u.path, i)))
  }

  lemma PlacedIn(vs: seq<Visit>, more: seq<Visit>, ts: seq<Tree>, encl: Path, v: Visit)
    requires Placed(vs, ts, encl, v) && forall u :: u in vs ==> u in more
    ensures Placed(more, ts, encl, v)
  {
    if !exists i :: 0 <= i < |ts| && v == Visit(ts[i], Child(encl, i)) {
      var u, i :| u in vs && 0 <= i < |Parts(u.node)| && v == Visit(Parts(u.node)[i], Child(u.path, i));
      assert u in more;
    }
  }

  lemma {:induction false} PreorderPlaced(ts: seq<Tree>, from: nat, encl: Path, v: Visit)
    requires v in Preorder(ts, from, encl)
    ensures Placed(Preorder(ts, from, encl), ts, encl, v)
    decreases ts, |ts| - from
  {
    var t, p := ts[from], Child(encl, from);
    if v == Visit(t, p) {
    } else if v in PreorderOf(t, p) {
      PreorderPlaced(t.parts, 0, p, v);
      PlacedUnder(t, p, v);
      PlacedIn(PreorderOf(t, p), Preorder(ts, from, encl), [], encl, v);
    } else {
      PreorderPlaced(ts, from + 1, encl, v);
      PlacedIn(Preorder(ts, from + 1, encl), Preorder(ts, from, encl), ts, encl, v);
    }
  }

  lemma PlacedUnder(t: Tree, p: Path, v: Visit)
    requires t.Container? && Placed(Preorder(t.parts, 0, p), t.parts, p, v)
    ensures Placed(PreorderOf(t, p), [], p, v)
  {
    var u := Visit(t, p);
    assert u in PreorderOf(t, p);
    if i :| 0 <= i < |t.parts| && v == Visit(t.parts[i], Child(p, i)) {
      assert v == Visit(Parts(u.node)[i], Child(u.path, i));
    } else {
      PlacedIn(Preorder(t.parts, 0, p), PreorderOf(t, p), [], p, v);
    }
  }

  lemma {:induction false} RootListed(ts: seq<Tree>, from: nat, encl: Path, i: nat)
    requires from <= i < |ts|
    ensures Visit(ts[i], Child(encl, i)) in Preorder(ts, from, encl)
    decreases |ts| - from
  {
    if from == i {
      RootFirst(ts[i], Child(encl, i));
    } else {
      RootListed(ts, from + 1, encl, i);
    }
    InEither(Visit(ts[i], Child(encl, i)), PreorderOf(ts[from], Child(encl, from)), Preorder(ts, from + 1, encl));
  }

  lemma {:induction false} RootFirst(t: Tree, path: Path)
    ensures Visit(t, path) in PreorderOf(t, path)
  {
    assert PreorderOf(t, path)[0] == Visit(t, path);
  }

  lemma InEither(v: Visit, a: seq<Visit>, b: seq<Visit>)
    ensures v in a + b <==> v in a || v in b
  {
  }

  /** A part of something listed is listed. */
  lemma {:induction false} PartListed(ts: seq<Tree>, from: nat, encl: Path, u: Visit, i: nat)
    requires u in Preorder(ts, from, encl) && i < |Parts(u.node)|
    ensures Visit(Parts(u.node)[i], Child(u.path, i)) in Preorder(ts, from, encl)
    decreases ts, |ts| - from
  {
    var t, p := ts[from], Child(encl, from);
    if u == Visit(t, p) {
      RootListed(t.parts, 0, p, i);
    } else if u in PreorderOf(t, p) {
      PartListed(t.parts, 0, p, u, i);
    } else {
      PartListed(ts, from + 1, encl, u, i);
    }
  }

  lemma ListedBelow(ts: seq<Tree>, encl: Path, v: Visit)
    requires v in Preorder(ts, 0, encl)
    ensures Depth(encl) < Depth(v.path) && v.path != encl
  {
    PreorderBelow(ts, 0, encl);
  }

  /** Every visit of the pre-order is of the node its path leads to. */
  lemma {:induction false} ListedIsTrue(ts: seq<Tree>, encl: Path, v: Visit)
    requires v in Preorder(ts, 0, encl)
    ensures NodesAt(ts, encl, v.path) == [v.node]
    decreases v.path
  {
    PreorderPlaced(ts, 0, encl, v);
    if i :| 0 <= i < |ts| && v == Visit(ts[i], Child(encl, i)) {
      RootIsTrue(ts, encl, i);
    } else {
      var u, i :| u in Preorder(ts, 0, encl) && 0 <= i < |Parts(u.node)| &&
        v == Visit(Parts(u.node)[i], Child(u.path, i));
      ListedIsTrue(ts, encl, u);
      ListedBelow(ts, encl, u);
      PartIsTrue(ts, encl, u, i);
    }
  }

  lemma {:induction false} RootIsTrue(ts: seq<Tree>, encl: Path, i: nat)
    requires i < |ts|
    ensures NodesAt(ts, encl, Child(encl, i)) == [ts[i]]
  {
  }

  lemma {:induction false} PartIsTrue(ts: seq<Tree>, encl: Path, u: Visit, i: nat)
    requires NodesAt(ts, encl, u.path) == [u.node] && u.path != encl && i < |Parts(u.node)|
    ensures NodesAt(ts, encl, Child(u.path, i)) == [Parts(u.node)[i]]
  {
  }

  /** Every node that a path leads to is visited with that path. */
  lemma {:induction false} TrueIsListed(ts: seq<Tree>, encl: Path, v: Visit)
    requires NodesAt(ts, encl, v.path) == [v.node]
    ensures v in Preorder(ts, 0, encl)
    decreases v.path
  {
    var i: int := v.path.coord - 1;
    assert v.path == Child(v.path.encl, i);
    if v.path.encl == encl {
      RootListed(ts, 0, encl, i);
    } else {
      var u := Visit(NodesAt(ts, encl, v.path.encl)[0], v.path.encl);
      TrueIsListed(ts, encl, u);
      PartListed(ts, 0, encl, u, i);
    }
  }

  /** The pre-order lists every node with its true path and depth, and nothing else. */
  lemma PreorderIsExact(ts: seq<Tree>, v: Visit)
    ensures v in Preorder(ts, 0, Start) <==> NodesAt(ts, Start, v.path) == [v.node]
  {
    if v in Preorder(ts, 0, Start) {
      ListedIsTrue(ts, Start, v);
    }
    if NodesAt(ts, Start, v.path) == [v.node] {
      TrueIsListed(ts, Start, v);
    }
  }

  // ---------------------------------------------------------------- the order of the visits

  /** The coordinates of a path, outermost first. */
  function Trail(p: Path): seq<nat> {
    if p.Start? then [] else Trail(p.encl) + [p.coord]
  }

  ghost function TrailsOf(vs: seq<Visit>): seq<seq<nat>> {
    seq(|vs|, i requires 0 <= i < |vs| => Trail(vs[i].path))
  }

  /** The depth a visit says is the number of coordinates of its path. */
  lemma DepthIsLength(ts: seq<Tree>, v: Visit)
    requires v in Preorder(ts, 0, Start)
    ensures v.path.To? && v.path.enclDepth == |Trail(v.path)|
  {
    ListedDepth(ts, 0, Start, v);
  }

  lemma {:induction false} ListedDepth(ts: seq<Tree>, from: nat, encl: Path, v: Visit)
    requires v in Preorder(ts, from, encl) && Depth(encl) == |Trail(encl)|
    ensures v.path.To? && v.path.enclDepth == |Trail(v.path)|
    decreases ts, |ts| - from
  {
    var t, p := ts[from], Child(encl, from);
    if v in PreorderOf(t, p) {
      if v != Visit(t, p) {
        ListedDepth(t.parts, 0, p, v);
      }
    } else {
      ListedDepth(ts, from + 1, encl, v);
    }
  }

  /** The paths visited ascend: a thing comes before its parts, and an earlier thing with all its parts
      before a later one. */
  lemma {:induction false} PreorderAscends(ts: seq<Tree>, from: nat, encl: Path)
    ensures var ps := TrailsOf(Preorder(ts, from, encl));
      Ascending(ps) && Through(ps, Trail(encl), from + 1)
    decreases ts, |ts| - from
  {
    if from < |ts| {
      TreeAscends(ts[from], Child(encl, from));
      PreorderAscends(ts, from + 1, encl);
      var ps, qs := TrailsOf(PreorderOf(ts[from], Child(encl, from))), TrailsOf(Preorder(ts, from + 1, encl));
      assert TrailsOf(Preorder(ts, from, encl)) == ps + qs;
      BranchThenRest(Trail(encl), from + 1, ps, qs);
    }
  }

  lemma {:induction false} TreeAscends(t: Tree, path: Path)
    ensures var ps := TrailsOf(PreorderOf(t, path));
      Ascending(ps) && forall n :: 0 <= n < |ps| ==> Trail(path) <= ps[n]
    decreases t, 0
  {
    if t.Container? {
      PreorderAscends(t.parts, 0, path);
      assert TrailsOf(PreorderOf(t, path)) == [Trail(path)] + TrailsOf(Preorder(t.parts, 0, path));
      ThingThenParts(Trail(path), TrailsOf(Preorder(t.parts, 0, path)));
    }
  }

  /** No path is visited twice. */
  lemma PreorderOnce(ts: seq<Tree>, i: nat, j: nat)
    requires i < j < |Preorder(ts, 0, Start)|
    ensures Preorder(ts, 0, Start)[i].path != Preorder(ts, 0, Start)[j].path
  {
    var ps := TrailsOf(Preorder(ts, 0, Start));
    PreorderAscends(ts, 0, Start);
    BeforeIsStrict(ps[i], ps[j]);
  }
}
