/** The bisecting, backtracking search for a subobject of a given type at a given offset. */
module SubobjectSearch {
  import opened Pages
  import opened Options
  import opened Layout

  /** What one step down yields: which part, its type, and the offset that is left inside it. */
  datatype Step = Step(index: nat, t: Type, off: nat)

  /** The part of `t` that a step to `s` leads into lies at `x - s.off`, and is the first candidate. */
  ghost predicate StepTo(t: Type, x: nat, s: Step) {
    match t
    case Scalar(_, _) => false
    case Array(elem, count) => s.index == 0 && 0 < Size(elem) && x / Size(elem) < count && s.t == elem &&
      s.off == x % Size(elem)
    case Composite(_, _, ms) => FirstSpanning(ms, x, s.index) && s.t == ms[s.index].t && s.off == x - ms[s.index].off
  }

  /** There is nothing to step into. */
  ghost predicate NoStep(t: Type, x: nat) {
    match t
    case Scalar(_, _) => true
    case Array(elem, count) => Size(elem) == 0 || count <= x / Size(elem)
    case Composite(_, _, ms) => forall j :: 0 <= j < |ms| ==> x < ms[j].off
  }

  /** Bisect for the last member at or below `x`, then go back to the first at that offset. */
  method BisectMembers(ms: seq<Member>, x: nat) returns (found: bool, index: nat)
    requires forall i, j :: 0 <= i < j < |ms| ==> ms[i].off <= ms[j].off
    ensures found ==> FirstSpanning(ms, x, index)
    ensures !found ==> forall j :: 0 <= j < |ms| ==> x < ms[j].off
  {
    var lower, upper := 0, |ms|;
    while lower + 1 < upper
      invariant 0 <= lower <= upper <= |ms| && (lower < upper || |ms| == 0)
      invariant lower > 0 ==> ms[lower].off <= x
      invariant upper < |ms| ==> x < ms[upper].off
    {
      var mid := (upper + lower) / 2;
      if ms[mid].off > x {
        upper := mid;
      } else {
        lower := mid;
      }
    }
    if lower + 1 != upper || ms[lower].off > x {
      return false, 0;
    }
    ghost var last := lower;
    while lower > 0 && ms[lower - 1].off == ms[lower].off
      invariant 0 <= lower <= last && ms[lower].off == ms[last].off
    {
      lower := lower - 1;
    }
    return true, lower;
  }

  method FirstSubobjectSpanning(t: Type, x: nat) returns (r: Option<Step>)
    requires LaidOut(t)
    ensures r.Some? ==> StepTo(t, x, r.value)
    ensures r.None? ==> NoStep(t, x)
  {
    match t
    case Scalar(_, _) =>
      r := None;
    case Array(elem, count) =>
      if Size(elem) != 0 && count > x / Size(elem) {
        r := Some(Step(0, elem, x % Size(elem)));
      } else {
        r := None;
      }
    case Composite(_, _, ms) =>
      var found, i := BisectMembers(ms, x);
      r := if found then Some(Step(i, ms[i].t, x - ms[i].off)) else None;
  }

  // ---------------------------------------------------------------- matching

  /** A search without a type takes anything. */
  predicate Matches(test: Option<Type>, u: Type) {
    test.None? || test.value == u
  }

  ghost predicate Present(t: Type, x: int, test: Option<Type>) {
    exists u :: Subobject(t, x, u) && Matches(test, u)
  }

  /** ... and of positive size. */
  ghost predicate Substantial(t: Type, x: int, test: Option<Type>) {
    exists u :: Subobject(t, x, u) && Matches(test, u) && 0 < Size(u)
  }

  /** Member `j` is at the largest offset not above `x`. */
  predicate AtSettledOffset(ms: seq<Member>, x: nat, j: nat) {
    j < |ms| && ms[j].off <= x && forall k :: 0 <= k < |ms| && ms[k].off <= x ==> ms[k].off <= ms[j].off
  }

  /** The first member at the offset settled on. */
  lemma {:induction false} FirstOf(ms: seq<Member>, x: nat, j: nat) returns (i: nat)
    requires (forall p, q :: 0 <= p < q < |ms| ==> ms[p].off <= ms[q].off) && AtSettledOffset(ms, x, j)
    ensures i <= j && FirstSpanning(ms, x, i) && ms[i].off == ms[j].off
    decreases j
  {
    if 0 < j && ms[j - 1].off == ms[j].off {
      i := FirstOf(ms, x, j - 1);
    } else {
      i := j;
    }
  }

  /** What the search decides: it only ever looks at one element, or at the members at one offset. */
  ghost predicate Search(t: Type, x: nat, test: Option<Type>)
    decreases t
  {
    || (x == 0 && Matches(test, t))
    || match t
       case Scalar(_, _) => false
       case Array(elem, count) => 0 < Size(elem) && x / Size(elem) < count && Search(elem, x % Size(elem), test)
       case Composite(_, _, ms) =>
         exists j {:trigger AtSettledOffset(ms, x, j)} ::
           0 <= j < |ms| && AtSettledOffset(ms, x, j) && Search(ms[j].t, x - ms[j].off, test)
  }

  /** The search succeeds in a member. */
  ghost predicate Finds(m: Member, x: nat, test: Option<Type>) {
    m.off <= x && Search(m.t, x - m.off, test)
  }

  lemma PresentInElement(elem: Type, count: nat, x: int, i: nat, test: Option<Type>)
    requires i < count && Present(elem, x - ElementOffset(elem, i), test)
    ensures Present(Array(elem, count), x, test)
  {
    var u :| Subobject(elem, x - ElementOffset(elem, i), u) && Matches(test, u);
    assert Subobject(Array(elem, count), x, u);
  }

  lemma ElementOf(elem: Type, x: nat)
    requires 0 < Size(elem)
    ensures x - ElementOffset(elem, x / Size(elem)) == x % Size(elem)
  {
    DivModLaw(x, Size(elem));
  }

  lemma PresentInMember(t: Type, i: nat, x: int, test: Option<Type>)
    requires t.Composite? && i < |t.members| && Present(t.members[i].t, x - t.members[i].off, test)
    ensures Present(t, x, test)
  {
    var u :| Subobject(t.members[i].t, x - t.members[i].off, u) && Matches(test, u);
    assert Subobject(t, x, u);
  }

  /** If `t` itself is not the answer, an array can only have it in the element `x` falls in. */
  lemma SubstantialInElement(elem: Type, count: nat, x: nat, test: Option<Type>)
    requires LaidOut(elem) && Substantial(Array(elem, count), x, test)
    requires !(x == 0 && Matches(test, Array(elem, count)))
    ensures 0 < Size(elem) && x / Size(elem) < count && Substantial(elem, x % Size(elem), test)
  {
    var u :| Subobject(Array(elem, count), x, u) && Matches(test, u) && 0 < Size(u);
    PartInElement(elem, count, x, u);
  }

  lemma PartInElement(elem: Type, count: nat, x: nat, u: Type)
    requires LaidOut(elem) && Subobject(Array(elem, count), x, u) && !(x == 0 && u == Array(elem, count)) && 0 < Size(u)
    ensures 0 < Size(elem) && x / Size(elem) < count && Subobject(elem, x % Size(elem), u)
  {
    var i := ElementHolding(elem, count, x, u);
    OnlyElement(elem, count, x, i, u);
  }

  /** ... and a composite only in a member at the offset the bisection settles on. */
  lemma SubstantialInMember(t: Type, x: nat, test: Option<Type>) returns (j: nat)
    requires t.Composite? && LaidOut(t) && Substantial(t, x, test) && !(x == 0 && Matches(test, t))
    ensures j < |t.members| && AtSettledOffset(t.members, x, j)
    ensures Substantial(t.members[j].t, x - t.members[j].off, test)
  {
    var u :| Subobject(t, x, u) && Matches(test, u) && 0 < Size(u);
    j := MemberHolding(t, x, u);
    OnlyOffset(t.bytes, t.members, x, j, u);
    SubstantialBy(t.members[j].t, x - t.members[j].off, test, u);
  }

  lemma SubstantialBy(t: Type, x: int, test: Option<Type>, u: Type)
    requires Subobject(t, x, u) && Matches(test, u) && 0 < Size(u)
    ensures Substantial(t, x, test)
  {
  }

  lemma MemberSearched(t: Type, x: nat, test: Option<Type>) returns (j: nat)
    requires t.Composite? && Search(t, x, test) && !(x == 0 && Matches(test, t))
    ensures j < |t.members| && AtSettledOffset(t.members, x, j) && Search(t.members[j].t, x - t.members[j].off, test)
  {
    j :| 0 <= j < |t.members| && AtSettledOffset(t.members, x, j) && Search(t.members[j].t, x - t.members[j].off, test);
  }

  lemma SearchesMember(t: Type, x: nat, test: Option<Type>, j: nat)
    requires t.Composite? && j < |t.members| && AtSettledOffset(t.members, x, j)
    requires Search(t.members[j].t, x - t.members[j].off, test)
    ensures Search(t, x, test)
  {
  }

  /** Whatever the search finds is there. */
  lemma {:induction false} SearchIsSound(t: Type, x: nat, test: Option<Type>)
    requires Search(t, x, test)
    ensures Present(t, x, test)
    decreases t
  {
    if x == 0 && Matches(test, t) {
      assert Subobject(t, x, t);
    } else {
      match t
      case Array(elem, count) =>
        SearchIsSound(elem, x % Size(elem), test);
        ElementOf(elem, x);
        PresentInElement(elem, count, x, x / Size(elem), test);
      case Composite(_, _, ms) =>
        var j := MemberSearched(t, x, test);
        SearchIsSound(ms[j].t, x - ms[j].off, test);
        PresentInMember(t, j, x, test);
    }
  }

  /** Whatever is there and has a size is found. */
  lemma {:induction false} SearchIsComplete(t: Type, x: nat, test: Option<Type>)
    requires LaidOut(t) && Substantial(t, x, test)
    ensures Search(t, x, test)
    decreases t
  {
    if !(x == 0 && Matches(test, t)) {
      match t
      case Scalar(_, _) =>
      case Array(elem, count) =>
        SubstantialInElement(elem, count, x, test);
        SearchIsComplete(elem, x % Size(elem), test);
      case Composite(_, _, ms) =>
        var j := SubstantialInMember(t, x, test);
        SearchIsComplete(ms[j].t, x - ms[j].off, test);
        SearchesMember(t, x, test, j);
    }
  }

  /** Searching for a type that occupies space succeeds exactly when it is there. */
  lemma SearchIsExact(t: Type, x: nat, u: Type)
    requires LaidOut(t) && 0 < Size(u)
    ensures Search(t, x, Some(u)) <==> Subobject(t, x, u)
  {
    if Search(t, x, Some(u)) {
      SearchIsSound(t, x, Some(u));
    }
    if Subobject(t, x, u) {
      assert Matches(Some(u), u);
      SearchIsComplete(t, x, Some(u));
    }
  }

  /** Every part of `t`, at any depth, occupies space. */
  predicate AllSized(t: Type) {
    && 0 < Size(t)
    && match t
       case Scalar(_, _) => true
       case Array(elem, _) => AllSized(elem)
       case Composite(_, _, ms) => forall i :: 0 <= i < |ms| ==> AllSized(ms[i].t)
  }

  lemma {:induction false} PartsSized(t: Type, x: int, u: Type)
    requires AllSized(t) && Subobject(t, x, u)
    ensures 0 < Size(u)
    decreases t
  {
    if !(x == 0 && u == t) {
      match t
      case Array(elem, count) =>
        var i := ElementHolding(elem, count, x, u);
        PartsSized(elem, x - ElementOffset(elem, i), u);
      case Composite(_, _, ms) =>
        var i := MemberHolding(t, x, u);
        PartsSized(ms[i].t, x - ms[i].off, u);
    }
  }

  /** The search without a type: exact when every part occupies space. */
  lemma UntypedSearchIsExact(t: Type, x: nat)
    requires LaidOut(t) && AllSized(t)
    ensures Search(t, x, None) <==> exists u :: Subobject(t, x, u)
  {
    if Search(t, x, None) {
      SearchIsSound(t, x, None);
      var u :| Subobject(t, x, u) && Matches(None, u);
      assert Subobject(t, x, u);
    }
    forall u | Subobject(t, x, u)
      ensures Search(t, x, None)
    {
      PartsSized(t, x, u);
      assert Matches(None, u);
      SearchIsComplete(t, x, None);
    }
  }

  // ---------------------------------------------------------------- the innermost type

  /** There is at most one step to take. */
  lemma StepUnique(t: Type, x: nat, r: Step, s: Step)
    requires StepTo(t, x, r) && StepTo(t, x, s)
    ensures r == s
  {
  }

  /** The step there is to take. */
  ghost function StepOf(t: Type, x: nat): (r: Option<Step>)
    ensures r.Some? ==> StepTo(t, x, r.value) && r.value.t < t
    ensures r.None? ==> forall s :: !StepTo(t, x, s)
  {
    match t
    case Scalar(_, _) => None
    case Array(elem, count) =>
      if 0 < Size(elem) && x / Size(elem) < count then Some(Step(0, elem, x % Size(elem))) else None
    case Composite(_, _, ms) =>
      var i := FirstCandidate(ms, x);
      if i.None? then None else
        assert ms[i.value] in ms;
        Some(Step(i.value, ms[i.value].t, x - ms[i.value].off))
  }

  /** Where steps end: the type, the offset left in it, and what the last step was out of. */
  datatype Innermost = Innermost(t: Type, off: nat, container: Option<Type>)

  /** Take steps from `t`, itself stepped into from `from`, until there is none to take. */
  ghost function StepsEnd(t: Type, x: nat, from: Option<Type>): Innermost
    decreases t
  {
    var s := StepOf(t, x);
    if s.None? then Innermost(t, x, from) else StepsEnd(s.value.t, s.value.off, Some(t))
  }

  /** The last step was out of `c`, a part of `t`, into `u` with `off` left. */
  ghost predicate SteppedOut(t: Type, x: nat, c: Type, u: Type, off: nat) {
    exists y: nat, s :: StepTo(c, y, s) && y <= x && Subobject(t, x - y, c) && s.t == u && s.off == off
  }

  lemma StepsOut(t: Type, x: nat, u: Type, off: nat, s: Step)
    requires StepTo(u, off, s) && off <= x && Subobject(t, x - off, u)
    ensures SteppedOut(t, x, u, s.t, s.off)
  {
  }

  /** On the way: at a part of `t`, stepped into from `container`, from which steps end where they end
      from `t`. */
  ghost predicate OnTheWay(t: Type, x: nat, u: Type, off: nat, container: Option<Type>) {
    && LaidOut(u) && off <= x && Subobject(t, x - off, u)
    && (if container.None? then u == t && off == x else SteppedOut(t, x, container.value, u, off))
    && StepsEnd(u, off, container) == StepsEnd(t, x, None)
  }

  lemma StartsOut(t: Type, x: nat)
    requires LaidOut(t)
    ensures OnTheWay(t, x, t, x, None)
  {
  }

  lemma StepsOn(t: Type, x: nat, u: Type, off: nat, container: Option<Type>, s: Step)
    requires OnTheWay(t, x, u, off, container) && StepTo(u, off, s)
    ensures s.t < u && OnTheWay(t, x, s.t, s.off, Some(u))
  {
    StepStays(t, x, u, off, s);
    StepsOut(t, x, u, off, s);
    StepGoesOn(u, off, container, s);
  }

  /** Follow first candidates down until there is nothing further to step into. */
  method InnerType(t: Type, x: nat) returns (u: Type, off: nat, container: Option<Type>)
    requires LaidOut(t)
    ensures Innermost(u, off, container) == StepsEnd(t, x, None)
    ensures off <= x && Subobject(t, x - off, u) && NoStep(u, off)
    ensures if container.None? then u == t && off == x else SteppedOut(t, x, container.value, u, off)
  {
    StartsOut(t, x);
    u, off, container := t, x, None;
    while true
      invariant OnTheWay(t, x, u, off, container)
      decreases u
    {
      var s := NextStep(t, x, u, off, container);
      if s.None? {
        NoStepEnds(u, off, container);
        return;
      }
      u, off, container := s.value.t, s.value.off, Some(u);
    }
  }

  method NextStep(ghost t: Type, ghost x: nat, u: Type, off: nat, ghost container: Option<Type>)
    returns (s: Option<Step>)
    requires OnTheWay(t, x, u, off, container)
    ensures s.None? ==> NoStep(u, off)
    ensures s.Some? ==> s.value.t < u && OnTheWay(t, x, s.value.t, s.value.off, Some(u))
  {
    s := FirstSubobjectSpanning(u, off);
    if s.Some? {
      StepsOn(t, x, u, off, container, s.value);
    }
  }

  lemma {:induction false} NoStepEnds(t: Type, x: nat, from: Option<Type>)
    requires NoStep(t, x)
    ensures StepsEnd(t, x, from) == Innermost(t, x, from)
  {
  }

  /** Where steps from a step's end lead, steps from its beginning lead. */
  lemma {:induction false} StepGoesOn(t: Type, x: nat, from: Option<Type>, s: Step)
    requires StepTo(t, x, s)
    ensures s.t < t && StepsEnd(t, x, from) == StepsEnd(s.t, s.off, Some(t))
  {
    StepUnique(t, x, StepOf(t, x).value, s);
  }

  /** A step out of a part leads to a part. */
  lemma StepStays(t: Type, x: nat, u: Type, off: nat, s: Step)
    requires LaidOut(u) && off <= x && Subobject(t, x - off, u) && StepTo(u, off, s)
    ensures LaidOut(s.t) && s.off <= x && Subobject(t, x - s.off, s.t)
  {
    StepIsPart(u, off, s);
    PartOfPart(t, x - off, u, off - s.off, s.t);
  }

  lemma StepIsPart(t: Type, x: nat, s: Step)
    requires StepTo(t, x, s) && LaidOut(t)
    ensures s.off <= x && Subobject(t, x - s.off, s.t) && LaidOut(s.t)
  {
    match t
    case Array(elem, count) =>
      ElementOf(elem, x);
      assert Subobject(elem, x - s.off - ElementOffset(elem, x / Size(elem)), elem);
    case Composite(_, _, ms) =>
      assert Subobject(ms[s.index].t, x - s.off - ms[s.index].off, s.t);
  }
}
