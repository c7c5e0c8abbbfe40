/** Types as the search sees them, and the flat meaning the search is measured against. */
module Layout {
  import opened Options
  import opened Pages

  datatype Member = Member(off: nat, t: Type)

  /** `id` tells types apart that have the same layout; equal types are the same type. */
  datatype Type =
    | Scalar(id: nat, size: nat)
    | Array(elem: Type, count: nat)
    | Composite(id: nat, bytes: nat, members: seq<Member>)

  /** The size in bytes. */
  function Size(t: Type): nat {
    match t
    case Scalar(_, size) => size
    case Array(elem, count) => count * Size(elem)
    case Composite(_, bytes, _) => bytes
  }

  /** Where element `i` of an array begins. */
  function ElementOffset(elem: Type, i: nat): nat {
    i * Size(elem)
  }

  /** Members are in offset order and inside the type; members at different offsets do not overlap.
      Members sharing an offset, as in a union, may overlap. */
  predicate MembersLaidOut(bytes: nat, ms: seq<Member>) {
    && (forall i :: 0 <= i < |ms| ==> ms[i].off + Size(ms[i].t) <= bytes)
    && (forall i, j :: 0 <= i < j < |ms| ==> ms[i].off <= ms[j].off)
    && (forall i, j :: 0 <= i < j < |ms| && ms[i].off < ms[j].off ==> ms[i].off + Size(ms[i].t) <= ms[j].off)
  }

  predicate LaidOut(t: Type) {
    match t
    case Scalar(_, _) => true
    case Array(elem, _) => LaidOut(elem)
    case Composite(_, bytes, ms) => MembersLaidOut(bytes, ms) && forall i :: 0 <= i < |ms| ==> LaidOut(ms[i].t)
  }

  /** `u` is `t` itself or one of its direct or indirect parts, beginning `x` bytes into `t`. */
  ghost predicate Subobject(t: Type, x: int, u: Type) {
    || (x == 0 && u == t)
    || match t
       case Scalar(_, _) => false
       case Array(elem, count) => exists i :: 0 <= i < count && Subobject(elem, x - ElementOffset(elem, i), u)
       case Composite(_, _, ms) => exists i :: 0 <= i < |ms| && Subobject(ms[i].t, x - ms[i].off, u)
  }

  lemma ElementInside(elem: Type, i: nat, count: nat)
    requires i < count
    ensures ElementOffset(elem, i) + Size(elem) <= Size(Array(elem, count))
  {
    var s, rest := Size(elem), count - i - 1;
    assert count * s == i * s + s + rest * s;
  }

  lemma ElementHolding(elem: Type, count: nat, x: int, u: Type) returns (i: nat)
    requires Subobject(Array(elem, count), x, u) && !(x == 0 && u == Array(elem, count))
    ensures i < count && Subobject(elem, x - ElementOffset(elem, i), u)
  {
    i :| 0 <= i < count && Subobject(elem, x - ElementOffset(elem, i), u);
  }

  lemma MemberHolding(t: Type, x: int, u: Type) returns (i: nat)
    requires t.Composite? && Subobject(t, x, u) && !(x == 0 && u == t)
    ensures i < |t.members| && Subobject(t.members[i].t, x - t.members[i].off, u)
  {
    i :| 0 <= i < |t.members| && Subobject(t.members[i].t, x - t.members[i].off, u);
  }

  lemma InElement(elem: Type, count: nat, i: nat, x: int, u: Type)
    requires i < count && Subobject(elem, x - ElementOffset(elem, i), u)
    ensures Subobject(Array(elem, count), x, u)
  {
  }

  lemma InMember(t: Type, i: nat, x: int, u: Type)
    requires t.Composite? && i < |t.members| && Subobject(t.members[i].t, x - t.members[i].off, u)
    ensures Subobject(t, x, u)
  {
  }

  /** A part lies inside the whole. */
  lemma {:induction false} PartInside(t: Type, x: int, u: Type)
    requires LaidOut(t) && Subobject(t, x, u)
    ensures 0 <= x && x + Size(u) <= Size(t)
    decreases t
  {
    if !(x == 0 && u == t) {
      match t
      case Array(elem, count) =>
        var i := ElementHolding(elem, count, x, u);
        PartInside(elem, x - ElementOffset(elem, i), u);
        ElementInside(elem, i, count);
      case Composite(_, _, ms) =>
        var i := MemberHolding(t, x, u);
        PartInside(ms[i].t, x - ms[i].off, u);
    }
  }

  /** Parts of parts are parts. */
  lemma {:induction false} PartOfPart(t: Type, x: int, u: Type, y: int, v: Type)
    requires Subobject(t, x, u) && Subobject(u, y, v)
    ensures Subobject(t, x + y, v)
    decreases t
  {
    if !(x == 0 && u == t) {
      match t
      case Array(elem, count) =>
        var i := ElementHolding(elem, count, x, u);
        var o := ElementOffset(elem, i);
        PartOfPart(elem, x - o, u, y, v);
        assert x - o + y == x + y - o;
        InElement(elem, count, i, x + y, v);
      case Composite(_, _, ms) =>
        var i := MemberHolding(t, x, u);
        PartOfPart(ms[i].t, x - ms[i].off, u, y, v);
        assert x - ms[i].off + y == x + y - ms[i].off;
        InMember(t, i, x + y, v);
    }
  }

  /** Following a path of member and element indices from `t` inwards leads to `u`, `x` bytes into `t`. */
  ghost predicate LeadsTo(t: Type, path: seq<nat>, x: int, u: Type)
    decreases |path|
  {
    if path == [] then x == 0 && u == t else
    match t
    case Scalar(_, _) => false
    case Array(elem, count) =>
      path[0] < count && LeadsTo(elem, path[1..], x - ElementOffset(elem, path[0]), u)
    case Composite(_, _, ms) =>
      path[0] < |ms| && LeadsTo(ms[path[0]].t, path[1..], x - ms[path[0]].off, u)
  }

  /** What a path leads to is a part. */
  lemma {:induction false} PathIsPart(t: Type, path: seq<nat>, x: int, u: Type)
    requires LeadsTo(t, path, x, u)
    ensures Subobject(t, x, u)
    decreases |path|
  {
    if path != [] {
      match t
      case Array(elem, count) =>
        PathIsPart(elem, path[1..], x - ElementOffset(elem, path[0]), u);
        InElement(elem, count, path[0], x, u);
      case Composite(_, _, ms) =>
        PathIsPart(ms[path[0]].t, path[1..], x - ms[path[0]].off, u);
        InMember(t, path[0], x, u);
    }
  }

  /** A path leads to every part. */
  lemma {:induction false} PartHasPath(t: Type, x: int, u: Type) returns (path: seq<nat>)
    requires Subobject(t, x, u)
    ensures LeadsTo(t, path, x, u)
    decreases t
  {
    path := [];
    if !(x == 0 && u == t) {
      match t
      case Array(elem, count) =>
        var i := ElementHolding(elem, count, x, u);
        var rest := PartHasPath(elem, x - ElementOffset(elem, i), u);
        path := [i] + rest;
        assert path[1..] == rest;
      case Composite(_, _, ms) =>
        var i := MemberHolding(t, x, u);
        var rest := PartHasPath(ms[i].t, x - ms[i].off, u);
        path := [i] + rest;
        assert path[1..] == rest;
    }
  }

  // ---------------------------------------------------------------- where a search may go

  /** `i` is the first member with the largest offset not above `x`. */
  predicate FirstSpanning(ms: seq<Member>, x: nat, i: nat) {
    && i < |ms| && ms[i].off <= x
    && (forall j :: 0 <= j < |ms| && ms[j].off <= x ==> ms[j].off <= ms[i].off)
    && (forall j :: 0 <= j < i ==> ms[j].off < ms[i].off)
  }

  ghost function FirstCandidate(ms: seq<Member>, x: nat): (r: Option<nat>)
    ensures r.Some? ==> FirstSpanning(ms, x, r.value)
    ensures r.None? ==> forall i: nat :: !FirstSpanning(ms, x, i)
  {
    if exists i: nat :: FirstSpanning(ms, x, i) then
      var i: nat :| FirstSpanning(ms, x, i);
      Some(i)
    else None
  }

  lemma FirstSpanningUnique(ms: seq<Member>, x: nat, i: nat, j: nat)
    requires FirstSpanning(ms, x, i) && FirstSpanning(ms, x, j)
    ensures i == j
  {
  }

  /** A part of positive size beginning at `x` can only be found in the element that `x` falls in. */
  lemma OnlyElement(elem: Type, count: nat, x: nat, i: nat, u: Type)
    requires LaidOut(elem) && i < count && Subobject(elem, x - ElementOffset(elem, i), u) && 0 < Size(u)
    ensures 0 < Size(elem) && i == x / Size(elem) && x - ElementOffset(elem, i) == x % Size(elem)
  {
    PartInside(elem, x - ElementOffset(elem, i), u);
    var s := Size(elem);
    DivUnique(x, s, i);
  }

  lemma DivUnique(x: nat, s: nat, i: nat)
    requires 0 < s && i * s <= x < i * s + s
    ensures i == x / s && x - i * s == x % s
  {
    DivOfMultiple(i, x - i * s, s);
    DivModLaw(x, s);
  }

  lemma TimesOrder(a: nat, b: nat, s: nat)
    ensures a <= b ==> a * s <= b * s
  {
  }

  /** The elements of an array cover it and nothing else. */
  lemma ElementsTile(elem: Type, count: nat, x: nat)
    ensures x < Size(Array(elem, count)) <==>
      exists i :: 0 <= i < count && ElementOffset(elem, i) <= x < ElementOffset(elem, i) + Size(elem)
  {
    forall i | 0 <= i < count
      ensures ElementOffset(elem, i) + Size(elem) <= Size(Array(elem, count))
    {
      ElementInside(elem, i, count);
    }
    if x < Size(Array(elem, count)) {
      var s, i := Size(elem), x / Size(elem);
      DivModLaw(x, s);
      TimesOrder(count, i, s);
      assert ElementOffset(elem, i) <= x < ElementOffset(elem, i) + s;
    }
  }

  /** ... or in a member at the largest offset not above `x`. */
  lemma OnlyOffset(bytes: nat, ms: seq<Member>, x: nat, j: nat, u: Type)
    requires MembersLaidOut(bytes, ms)
    requires j < |ms| && LaidOut(ms[j].t) && Subobject(ms[j].t, x - ms[j].off, u) && 0 < Size(u)
    ensures ms[j].off <= x && forall k :: 0 <= k < |ms| && ms[k].off <= x ==> ms[k].off <= ms[j].off
  {
    PartInside(ms[j].t, x - ms[j].off, u);
  }
}
