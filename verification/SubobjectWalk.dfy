/** The walk over the subobjects that span an offset, with a callback that can stop it. */
module SubobjectWalk {
  import opened Layout
  import opened Paths
  import opened SubobjectSearch

  /** Where the walk is: how far into the outermost type, how many levels down, and by which members and
      elements it got there. */
  datatype Place = Place(start: nat, depth: nat, path: seq<nat>)

  datatype Visit = Visit(t: Type, at: Place)

  /** The place of the member or element of number `i`, `off` bytes further in. */
  function Inside(at: Place, off: nat, i: nat): Place {
    Place(at.start + off, at.depth + 1, at.path + [i])
  }

  /** Every array has elements of positive size: the walk divides by the element size. */
  predicate Divisible(t: Type) {
    match t
    case Scalar(_, _) => true
    case Array(elem, _) => 0 < Size(elem) && Divisible(elem)
    case Composite(_, _, ms) => forall i :: 0 <= i < |ms| ==> Divisible(ms[i].t)
  }

  /** The callbacks made while walking inside a `t`, if none stops the walk. */
  ghost function Visits(t: Type, x: nat, at: Place): seq<Visit>
    requires Divisible(t)
    decreases t, 2, 0
  {
    match t
    case Scalar(_, _) => []
    case Array(elem, count) =>
      var i := x / Size(elem);
      if i < count then VisitPart(elem, x % Size(elem), Inside(at, ElementOffset(elem, i), i)) else []
    case Composite(_, _, ms) =>
      if i :| FirstSpanning(ms, x, i) then VisitRun(t, x, i, i, at) else []
  }

  /** ... and for it too. */
  ghost function VisitPart(t: Type, x: nat, at: Place): seq<Visit>
    requires Divisible(t)
    decreases t, 3, 0
  {
    [Visit(t, at)] + Visits(t, x, at)
  }

  ghost function VisitMember(t: Type, x: nat, i: nat, at: Place): seq<Visit>
    requires t.Composite? && Divisible(t) && i < |t.members| && t.members[i].off <= x
    decreases t, 0, 0
  {
    var m := t.members[i];
    if x < t.bytes then VisitPart(m.t, x - m.off, Inside(at, m.off, i)) else []
  }

  ghost function VisitRun(t: Type, x: nat, first: nat, i: nat, at: Place): seq<Visit>
    requires t.Composite? && Divisible(t) && first < |t.members| && t.members[first].off <= x
    decreases t, 1, |t.members| - i
  {
    if i < |t.members| && t.members[i].off == t.members[first].off then
      VisitMember(t, x, i, at) + VisitRun(t, x, first, i + 1, at)
    else []
  }

  /** A callback answers the last of the calls made so far, knowing them all. */
  type Callback = seq<Visit> -> int

  /** Make the calls of a list in order, after those already made, until one does not return 0: what is
      returned then, and the calls made. */
  function Calls(cb: Callback, vs: seq<Visit>, made: seq<Visit>): (int, seq<Visit>)
    decreases |vs|
  {
    if vs == [] then (0, made) else
    var calls := made + [vs[0]];
    if cb(calls) != 0 then (cb(calls), calls) else Calls(cb, vs[1..], calls)
  }

  function CallsThen(cb: Callback, r: (int, seq<Visit>), ws: seq<Visit>): (int, seq<Visit>) {
    if r.0 != 0 then r else Calls(cb, ws, r.1)
  }

  lemma {:induction false} CallsConcat(cb: Callback, vs: seq<Visit>, ws: seq<Visit>, made: seq<Visit>)
    ensures Calls(cb, vs + ws, made) == CallsThen(cb, Calls(cb, vs, made), ws)
    decreases |vs|
  {
    if vs == [] {
      assert vs + ws == ws;
    } else {
      assert (vs + ws)[1..] == vs[1..] + ws;
      CallsConcat(cb, vs[1..], ws, made + [vs[0]]);
    }
  }

  lemma {:induction false} CallsCons(cb: Callback, v: Visit, ws: seq<Visit>, made: seq<Visit>)
    ensures var calls := made + [v];
      Calls(cb, [v] + ws, made) == if cb(calls) != 0 then (cb(calls), calls) else Calls(cb, ws, calls)
  {
    assert ([v] + ws)[1..] == ws;
  }

  /** Without a callback that stops the walk, all the calls are made. */
  lemma {:induction false} CallsAll(cb: Callback, vs: seq<Visit>, made: seq<Visit>)
    ensures var r := Calls(cb, vs, made);
      && made <= r.1 <= made + vs
      && (r.0 == 0 ==> r.1 == made + vs)
      && (r.0 != 0 ==> made < r.1 && cb(r.1) == r.0)
    decreases |vs|
  {
    if vs != [] {
      CallsAll(cb, vs[1..], made + [vs[0]]);
      assert made + [vs[0]] + vs[1..] == made + vs;
    }
  }

  lemma VisitsComposite(t: Type, x: nat, i: nat, at: Place)
    requires t.Composite? && Divisible(t) && FirstSpanning(t.members, x, i)
    ensures Visits(t, x, at) == VisitRun(t, x, i, i, at)
  {
    forall j | FirstSpanning(t.members, x, j)
      ensures j == i
    {
      FirstSpanningUnique(t.members, x, i, j);
    }
  }

  /** The walk makes those callbacks, in that order, up to the first that does not return 0. */
  method WalkSubobjectsSpanning(t: Type, x: nat, at: Place, cb: Callback, made: seq<Visit>)
    returns (ret: int, calls: seq<Visit>)
    requires LaidOut(t) && Divisible(t)
    ensures (ret, calls) == Calls(cb, Visits(t, x, at), made)
    decreases t, 2, 0
  {
    ret, calls := 0, made;
    match t
    case Scalar(_, _) =>
    case Array(elem, count) =>
      var i := x / Size(elem);
      if count > i {
        ret, calls := WalkPart(elem, x % Size(elem), Inside(at, ElementOffset(elem, i), i), cb, made);
      }
    case Composite(_, _, ms) =>
      var found, first := BisectMembers(ms, x);
      if found {
        VisitsComposite(t, x, first, at);
        ret, calls := WalkRun(t, x, first, at, cb, made);
      }
  }

  /** Call back for a part, and walk on inside it unless told to stop. */
  method WalkPart(t: Type, x: nat, at: Place, cb: Callback, made: seq<Visit>) returns (ret: int, calls: seq<Visit>)
    requires LaidOut(t) && Divisible(t)
    ensures (ret, calls) == Calls(cb, VisitPart(t, x, at), made)
    decreases t, 3, 0
  {
    CallsCons(cb, Visit(t, at), Visits(t, x, at), made);
    calls := made + [Visit(t, at)];
    ret := cb(calls);
    if ret == 0 {
      ret, calls := WalkSubobjectsSpanning(t, x, at, cb, calls);
    }
  }

  method WalkRun(t: Type, x: nat, first: nat, at: Place, cb: Callback, made: seq<Visit>)
    returns (ret: int, calls: seq<Visit>)
    requires LaidOut(t) && Divisible(t) && t.Composite? && FirstSpanning(t.members, x, first)
    ensures (ret, calls) == Calls(cb, VisitRun(t, x, first, first, at), made)
    decreases t, 1, 0
  {
    var ms := t.members;
    ret, calls := 0, made;
    var i := first;
    while i < |ms| && ms[i].off == ms[first].off
      invariant first <= i <= |ms| && ret == 0
      invariant Calls(cb, VisitRun(t, x, first, first, at), made) == Calls(cb, VisitRun(t, x, first, i, at), calls)
    {
      CallsConcat(cb, VisitMember(t, x, i, at), VisitRun(t, x, first, i + 1, at), calls);
      if x < t.bytes {
        ret, calls := WalkPart(ms[i].t, x - ms[i].off, Inside(at, ms[i].off, i), cb, calls);
        if ret != 0 {
          return;
        }
      }
      i := i + 1;
    }
  }

  // ---------------------------------------------------------------- what is visited

  /** At every step of the path, `x` falls in the element taken, or it falls in the composite and the
      member taken is at the largest offset not above it. */
  ghost predicate Reached(t: Type, path: seq<nat>, x: int)
    decreases |path|
  {
    path == [] ||
    match t
    case Scalar(_, _) => false
    case Array(elem, _) =>
      var o := ElementOffset(elem, path[0]);
      o <= x < o + Size(elem) && Reached(elem, path[1..], x - o)
    case Composite(_, bytes, ms) =>
      && path[0] < |ms| && ms[path[0]].off <= x < bytes
      && (forall k :: 0 <= k < |ms| && ms[k].off <= x ==> ms[k].off <= ms[path[0]].off)
      && Reached(ms[path[0]].t, path[1..], x - ms[path[0]].off)
  }

  /** From the place `at` of a `t`, a reached path leads to what is visited, which is as many levels down as
      the path is long. */
  ghost predicate Due(t: Type, x: int, at: Place, v: Visit) {
    && at.path <= v.at.path && v.at.depth == at.depth + |v.at.path| - |at.path|
    && LeadsTo(t, v.at.path[|at.path|..], v.at.start - at.start, v.t) && Reached(t, v.at.path[|at.path|..], x)
  }

  /** A path that goes on by index `i`. */
  lemma GoesOn(path: seq<nat>, q: seq<nat>, i: nat)
    ensures path + [i] <= q <==> path < q && q[|path|] == i
    ensures path < q ==> q[|path|..] != [] && q[|path|..][0] == q[|path|] && q[|path|..][1..] == q[|path| + 1..]
  {
    if path + [i] <= q {
      assert q[|path|] == (path + [i])[|path|] && path <= path + [i];
    }
  }

  lemma {:induction false} DueItself(t: Type, x: int, at: Place, v: Visit)
    ensures v == Visit(t, at) <==> at.path == v.at.path && Due(t, x, at, v)
  {
    if at.path == v.at.path {
      assert v.at.path[|at.path|..] == [];
    }
  }

  /** What is due in an array is due in the element taken. */
  lemma {:induction false} DueInElement(elem: Type, count: nat, x: nat, at: Place, i: nat, v: Visit)
    requires i < count && ElementOffset(elem, i) <= x < ElementOffset(elem, i) + Size(elem)
    ensures at.path + [i] <= v.at.path ==>
      (Due(Array(elem, count), x, at, v) <==>
        Due(elem, x - ElementOffset(elem, i), Inside(at, ElementOffset(elem, i), i), v))
  {
    GoesOn(at.path, v.at.path, i);
    var o := ElementOffset(elem, i);
    assert v.at.start - (at.start + o) == v.at.start - at.start - o;
  }

  /** What is due in a composite is due in the member taken. */
  lemma {:induction false} DueInMember(t: Type, x: nat, at: Place, i: nat, v: Visit)
    requires t.Composite? && AtSettledOffset(t.members, x, i) && x < t.bytes
    ensures var m := t.members[i];
      at.path + [i] <= v.at.path ==>
      (Due(t, x, at, v) <==> Due(m.t, x - m.off, Inside(at, m.off, i), v))
  {
    GoesOn(at.path, v.at.path, i);
    var m := t.members[i];
    assert v.at.start - (at.start + m.off) == v.at.start - at.start - m.off;
  }

  /** The walk visits exactly the proper parts that a reached path leads to, each at its position, its depth
      and its path. */
  lemma {:induction false} VisitedExactly(t: Type, x: nat, at: Place, v: Visit)
    requires LaidOut(t) && Divisible(t)
    ensures v in Visits(t, x, at) <==> at.path < v.at.path && Due(t, x, at, v)
    decreases t, 2
  {
    match t
    case Scalar(_, _) =>
      GoesOn(at.path, v.at.path, 0);
    case Array(elem, count) =>
      VisitedInArray(elem, count, x, at, v);
    case Composite(_, _, ms) =>
      VisitedInComposite(t, x, at, v);
  }

  lemma {:induction false} PartVisited(t: Type, x: nat, at: Place, v: Visit)
    requires LaidOut(t) && Divisible(t)
    ensures v in VisitPart(t, x, at) <==> Due(t, x, at, v)
    decreases t, 3
  {
    VisitedExactly(t, x, at, v);
    DueItself(t, x, at, v);
  }

  lemma {:induction false} VisitedInArray(elem: Type, count: nat, x: nat, at: Place, v: Visit)
    requires LaidOut(elem) && Divisible(Array(elem, count))
    ensures v in Visits(Array(elem, count), x, at) <==> at.path < v.at.path && Due(Array(elem, count), x, at, v)
    decreases Array(elem, count), 0
  {
    var i := x / Size(elem);
    ElementOf(elem, x);
    GoesOn(at.path, v.at.path, i);
    PartVisited(elem, x % Size(elem), Inside(at, ElementOffset(elem, i), i), v);
    if i < count {
      DueInElement(elem, count, x, at, i, v);
    }
    if at.path < v.at.path && Due(Array(elem, count), x, at, v) {
      DivUnique(x, Size(elem), v.at.path[|at.path|]);
    }
  }

  lemma {:induction false} VisitedInComposite(t: Type, x: nat, at: Place, v: Visit)
    requires t.Composite? && LaidOut(t) && Divisible(t)
    ensures v in Visits(t, x, at) <==> at.path < v.at.path && Due(t, x, at, v)
    decreases t, 1
  {
    if first :| FirstSpanning(t.members, x, first) {
      VisitsComposite(t, x, first, at);
      VisitedInRun(t, x, first, first, at, v);
    }
    if at.path < v.at.path && Due(t, x, at, v) {
      var i := v.at.path[|at.path|];
      GoesOn(at.path, v.at.path, i);
      var first := FirstOf(t.members, x, i);
      VisitsComposite(t, x, first, at);
    }
  }

  /** In a run of members at one offset: what is due and goes on by one of them. */
  lemma {:induction false} VisitedInRun(t: Type, x: nat, first: nat, i: nat, at: Place, v: Visit)
    requires t.Composite? && LaidOut(t) && Divisible(t) && FirstSpanning(t.members, x, first) && first <= i
    ensures v in VisitRun(t, x, first, i, at) <==>
      at.path < v.at.path && Due(t, x, at, v) && i <= v.at.path[|at.path|]
    decreases t, 0, |t.members| - i
  {
    if i < |t.members| && t.members[i].off == t.members[first].off {
      VisitedInMember(t, x, i, at, v);
      VisitedInRun(t, x, first, i + 1, at, v);
    } else if at.path < v.at.path && Due(t, x, at, v) {
      GoesOn(at.path, v.at.path, v.at.path[|at.path|]);
    }
  }

  lemma {:induction false} VisitedInMember(t: Type, x: nat, i: nat, at: Place, v: Visit)
    requires t.Composite? && LaidOut(t) && Divisible(t) && AtSettledOffset(t.members, x, i)
    ensures v in VisitMember(t, x, i, at) <==> at.path + [i] <= v.at.path && Due(t, x, at, v)
    decreases t, 0, 0
  {
    var m := t.members[i];
    GoesOn(at.path, v.at.path, i);
    PartVisited(m.t, x - m.off, Inside(at, m.off, i), v);
    if x < t.bytes {
      DueInMember(t, x, at, i, v);
    }
  }

  /** What is visited is a part, and begins at or below the offset. */
  lemma VisitedIsPart(t: Type, x: nat, at: Place, v: Visit)
    requires LaidOut(t) && Divisible(t) && v in Visits(t, x, at)
    ensures at.start <= v.at.start <= at.start + x && Subobject(t, v.at.start - at.start, v.t)
  {
    VisitedExactly(t, x, at, v);
    var p, y := v.at.path[|at.path|..], v.at.start - at.start;
    PathIsPart(t, p, y, v.t);
    PartInside(t, y, v.t);
    ReachedBelow(t, p, x, y, v.t);
  }

  lemma {:induction false} ReachedBelow(t: Type, path: seq<nat>, x: int, y: int, u: Type)
    requires 0 <= x && LeadsTo(t, path, y, u) && Reached(t, path, x)
    ensures y <= x
    decreases |path|
  {
    if path != [] {
      match t
      case Array(elem, _) =>
        var o := ElementOffset(elem, path[0]);
        ReachedBelow(elem, path[1..], x - o, y - o, u);
      case Composite(_, _, ms) =>
        var m := ms[path[0]];
        ReachedBelow(m.t, path[1..], x - m.off, y - m.off, u);
    }
  }

  /** Every proper part whose extent includes the offset is visited, at its true position, depth and path. */
  lemma SpanningIsVisited(t: Type, x: nat, at: Place, path: seq<nat>, y: nat, u: Type)
    requires LaidOut(t) && Divisible(t) && path != [] && LeadsTo(t, path, y, u) && y <= x < y + Size(u)
    ensures Visit(u, Place(at.start + y, at.depth + |path|, at.path + path)) in Visits(t, x, at)
  {
    SpanningIsReached(t, path, x, y, u);
    var v := Visit(u, Place(at.start + y, at.depth + |path|, at.path + path));
    assert v.at.path[|at.path|..] == path;
    VisitedExactly(t, x, at, v);
  }

  lemma {:induction false} SpanningIsReached(t: Type, path: seq<nat>, x: int, y: int, u: Type)
    requires LaidOut(t) && LeadsTo(t, path, y, u) && y <= x < y + Size(u)
    ensures Reached(t, path, x)
    decreases |path|
  {
    if path != [] {
      match t
      case Array(elem, _) =>
        var o := ElementOffset(elem, path[0]);
        PathIsPart(elem, path[1..], y - o, u);
        PartInside(elem, y - o, u);
        SpanningIsReached(elem, path[1..], x - o, y - o, u);
      case Composite(_, _, ms) =>
        var m := ms[path[0]];
        PathIsPart(m.t, path[1..], y - m.off, u);
        PartInside(m.t, y - m.off, u);
        SpanningIsReached(m.t, path[1..], x - m.off, y - m.off, u);
    }
  }

  // ---------------------------------------------------------------- the order of the visits

  ghost function PathsOf(vs: seq<Visit>): seq<seq<nat>> {
    seq(|vs|, i requires 0 <= i < |vs| => vs[i].at.path)
  }

  /** The paths of the visits ascend: a container comes before its parts, an earlier member with all its
      parts before a later one, and nothing comes twice. */
  lemma {:induction false} VisitsAscend(t: Type, x: nat, at: Place)
    requires Divisible(t)
    ensures Ascending(PathsOf(Visits(t, x, at))) && Through(PathsOf(Visits(t, x, at)), at.path, 0)
    decreases t, 2
  {
    match t
    case Scalar(_, _) =>
    case Array(elem, count) =>
      var i := x / Size(elem);
      if i < count {
        var inside := Inside(at, ElementOffset(elem, i), i);
        PartAscends(elem, x % Size(elem), inside);
        BranchThenRest(at.path, i, PathsOf(VisitPart(elem, x % Size(elem), inside)), []);
        assert PathsOf(Visits(t, x, at)) == PathsOf(VisitPart(elem, x % Size(elem), inside)) + [];
      }
    case Composite(_, _, ms) =>
      if first :| FirstSpanning(ms, x, first) {
        VisitsComposite(t, x, first, at);
        RunAscends(t, x, first, first, at);
      }
  }

  lemma {:induction false} PartAscends(t: Type, x: nat, at: Place)
    requires Divisible(t)
    ensures var ps := PathsOf(VisitPart(t, x, at));
      Ascending(ps) && forall n :: 0 <= n < |ps| ==> at.path <= ps[n]
    decreases t, 3
  {
    VisitsAscend(t, x, at);
    assert PathsOf(VisitPart(t, x, at)) == [at.path] + PathsOf(Visits(t, x, at));
    ThingThenParts(at.path, PathsOf(Visits(t, x, at)));
  }

  lemma {:induction false} RunAscends(t: Type, x: nat, first: nat, i: nat, at: Place)
    requires t.Composite? && Divisible(t) && FirstSpanning(t.members, x, first)
    ensures var ps := PathsOf(VisitRun(t, x, first, i, at));
      Ascending(ps) && Through(ps, at.path, i)
    decreases t, 0, |t.members| - i
  {
    if i < |t.members| && t.members[i].off == t.members[first].off {
      var m := t.members[i];
      PartAscends(m.t, x - m.off, Inside(at, m.off, i));
      RunAscends(t, x, first, i + 1, at);
      var ps, qs := PathsOf(VisitMember(t, x, i, at)), PathsOf(VisitRun(t, x, first, i + 1, at));
      assert PathsOf(VisitRun(t, x, first, i, at)) == ps + qs;
      BranchThenRest(at.path, i, ps, qs);
    }
  }
}
