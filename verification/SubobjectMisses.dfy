/** When the search for a subobject passes over one that is there: exactly which types and offsets. */
module SubobjectMisses {
  import opened Pages
  import opened Options
  import opened Layout
  import opened SubobjectSearch

  // ---------------------------------------------------------------- searching for a type

  /** A struct of one word that ends in `u`, followed by another word. */
  function Trailing(u: Type): Type {
    Composite(1, 4, [Member(0, Scalar(0, 4)), Member(4, u)])
  }

  function Followed(u: Type): Type {
    Composite(2, 8, [Member(0, Trailing(u)), Member(4, Scalar(0, 4))])
  }

  /** A part of size zero at the end of a struct is there, but with something after the struct it is not
      found: the search settles on what comes after. */
  lemma ZeroSizedMissed(u: Type)
    requires LaidOut(u) && Size(u) == 0
    ensures LaidOut(Followed(u)) && Subobject(Followed(u), 4, u) && !Search(Followed(u), 4, Some(u))
  {
    var inner, outer := Trailing(u), Followed(u);
    assert Subobject(inner.members[1].t, 4 - inner.members[1].off, u);
    assert Subobject(inner, 4, u);
    assert Subobject(outer.members[0].t, 4 - outer.members[0].off, u);
    assert outer.members[1].off == 4;
    assert !Search(outer.members[1].t, 0, Some(u));
  }

  /** The search for `u` finds it in every laid-out type, at every offset, exactly where it is. */
  ghost predicate AlwaysExact(u: Type) {
    forall t: Type, x: nat :: LaidOut(t) ==> (Search(t, x, Some(u)) <==> Subobject(t, x, u))
  }

  /** Whether the search for a type can be relied on depends on whether the type occupies space. */
  lemma ExactIffSized(u: Type)
    requires LaidOut(u)
    ensures AlwaysExact(u) <==> 0 < Size(u)
  {
    if 0 < Size(u) {
      forall t: Type, x: nat | LaidOut(t)
        ensures Search(t, x, Some(u)) <==> Subobject(t, x, u)
      {
        SearchIsExact(t, x, u);
      }
    } else {
      ZeroSizedMissed(u);
    }
  }

  // ---------------------------------------------------------------- at one offset of one type

  /** Something that is searched for begins at `x`: the flat meaning, in a form that can be evaluated. */
  predicate Begins(t: Type, x: int, test: Option<Type>)
    decreases t
  {
    || (x == 0 && Matches(test, t))
    || match t
       case Scalar(_, _) => false
       case Array(elem, count) => exists i :: 0 <= i < count && Begins(elem, x - ElementOffset(elem, i), test)
       case Composite(_, _, ms) => exists j :: 0 <= j < |ms| && Has(ms[j], x, test)
  }

  predicate Has(m: Member, x: int, test: Option<Type>)
    decreases m
  {
    Begins(m.t, x - m.off, test)
  }

  /** It begins at `x`, and nowhere that the search looks. */
  predicate PassedOver(t: Type, x: nat, test: Option<Type>)
    decreases t, 0
  {
    && !(x == 0 && Matches(test, t))
    && match t
       case Scalar(_, _) => false
       case Array(elem, count) =>
         if Size(elem) == 0 then x == 0 && 0 < count && Begins(elem, 0, test) else ElementsPass(elem, count, x, test)
       case Composite(_, _, ms) => AllPass(ms, x, test) && (SomePasses(ms, x, test) || SomeEndsWith(ms, x, test))
  }

  /** The element before `x` ends with it. */
  predicate EndsBefore(elem: Type, count: nat, x: nat, test: Option<Type>)
    requires 0 < Size(elem)
  {
    x % Size(elem) == 0 && 0 < x / Size(elem) <= count && Begins(elem, Size(elem), test)
  }

  /** In an array only the element that `x` falls in is looked into. */
  predicate ElementsPass(elem: Type, count: nat, x: nat, test: Option<Type>)
    requires 0 < Size(elem)
    decreases elem, 1
  {
    var y := x % Size(elem);
    if x / Size(elem) < count && Begins(elem, y, test) then PassedOver(elem, y, test)
    else EndsBefore(elem, count, x, test)
  }

  predicate Passes(m: Member, x: nat, test: Option<Type>)
    decreases m
  {
    m.off <= x && PassedOver(m.t, x - m.off, test)
  }

  /** In a composite only the members at the settled offset are looked into, and none of them finds it; */
  predicate AllPass(ms: seq<Member>, x: nat, test: Option<Type>)
    decreases ms, 1
  {
    forall j :: 0 <= j < |ms| && AtSettledOffset(ms, x, j) ==> Passes(ms[j], x, test) || !Has(ms[j], x, test)
  }

  /** one of them passes over it, */
  predicate SomePasses(ms: seq<Member>, x: nat, test: Option<Type>)
    decreases ms, 1
  {
    exists j :: 0 <= j < |ms| && AtSettledOffset(ms, x, j) && Passes(ms[j], x, test)
  }

  /** or a member that ends at `x` ends with it. */
  predicate SomeEndsWith(ms: seq<Member>, x: nat, test: Option<Type>) {
    exists j :: 0 <= j < |ms| && EndsWith(ms[j], x, test)
  }

  predicate EndsWith(m: Member, x: nat, test: Option<Type>) {
    x == m.off + Size(m.t) && Has(m, x, test)
  }

  lemma {:induction false} BeginsIsPresent(t: Type, x: int, test: Option<Type>)
    requires Begins(t, x, test)
    ensures Present(t, x, test)
    decreases t
  {
    if x == 0 && Matches(test, t) {
      assert Subobject(t, x, t);
    } else {
      match t
      case Array(elem, count) =>
        var i :| 0 <= i < count && Begins(elem, x - ElementOffset(elem, i), test);
        BeginsIsPresent(elem, x - ElementOffset(elem, i), test);
        PresentInElement(elem, count, x, i, test);
      case Composite(_, _, ms) =>
        var j :| 0 <= j < |ms| && Has(ms[j], x, test);
        BeginsIsPresent(ms[j].t, x - ms[j].off, test);
        PresentInMember(t, j, x, test);
    }
  }

  lemma {:induction false} PartBegins(t: Type, x: int, u: Type, test: Option<Type>)
    requires Subobject(t, x, u) && Matches(test, u)
    ensures Begins(t, x, test)
    decreases t
  {
    if !(x == 0 && u == t) {
      match t
      case Array(elem, count) =>
        var i := ElementHolding(elem, count, x, u);
        PartBegins(elem, x - ElementOffset(elem, i), u, test);
      case Composite(_, _, ms) =>
        var i := MemberHolding(t, x, u);
        PartBegins(ms[i].t, x - ms[i].off, u, test);
        assert Has(ms[i], x, test);
    }
  }

  lemma BeginsIff(t: Type, x: int, test: Option<Type>)
    ensures Begins(t, x, test) <==> Present(t, x, test)
  {
    if Begins(t, x, test) {
      BeginsIsPresent(t, x, test);
    }
    if Present(t, x, test) {
      var u :| Subobject(t, x, u) && Matches(test, u);
      PartBegins(t, x, u, test);
    }
  }

  lemma BeginsInside(t: Type, x: int, test: Option<Type>)
    requires LaidOut(t) && Begins(t, x, test)
    ensures 0 <= x <= Size(t)
  {
    BeginsIsPresent(t, x, test);
    var u :| Subobject(t, x, u) && Matches(test, u);
    PartInside(t, x, u);
  }

  lemma FoundIsThere(t: Type, x: nat, test: Option<Type>)
    ensures Search(t, x, test) ==> Begins(t, x, test)
  {
    if Search(t, x, test) {
      SearchIsSound(t, x, test);
      BeginsIff(t, x, test);
    }
  }

  /** The element `x` falls in has it, or the one before it at its end. */
  lemma {:induction false} ElementHasIt(elem: Type, count: nat, i: nat, x: nat, test: Option<Type>)
    requires LaidOut(elem) && 0 < Size(elem) && i < count && Begins(elem, x - ElementOffset(elem, i), test)
    ensures (x / Size(elem) < count && Begins(elem, x % Size(elem), test)) || EndsBefore(elem, count, x, test)
  {
    var s := Size(elem);
    BeginsInside(elem, x - ElementOffset(elem, i), test);
    if x < i * s + s {
      DivUnique(x, s, i);
    } else {
      assert x == (i + 1) * s;
      DivUnique(x, s, i + 1);
    }
  }

  lemma {:induction false} BeginsInElement(elem: Type, count: nat, i: nat, x: int, test: Option<Type>)
    requires i < count && Begins(elem, x - ElementOffset(elem, i), test)
    ensures Begins(Array(elem, count), x, test)
  {
  }

  lemma {:induction false} BeginsInSome(elem: Type, count: nat, x: int, test: Option<Type>) returns (i: nat)
    requires Begins(Array(elem, count), x, test) && !(x == 0 && Matches(test, Array(elem, count)))
    ensures i < count && Begins(elem, x - ElementOffset(elem, i), test)
  {
    i :| 0 <= i < count && Begins(elem, x - ElementOffset(elem, i), test);
  }

  lemma ElementBefore(s: pos, x: nat)
    requires x % s == 0 && 0 < x / s
    ensures x - (x / s - 1) * s == s
  {
    var i := x / s - 1;
    DivModLaw(x, s);
    assert (i + 1) * s == i * s + s;
  }

  lemma {:induction false} HereBegins(elem: Type, count: nat, x: nat, test: Option<Type>)
    requires 0 < Size(elem) && x / Size(elem) < count && Begins(elem, x % Size(elem), test)
    ensures Begins(Array(elem, count), x, test)
  {
    ElementOf(elem, x);
    BeginsInElement(elem, count, x / Size(elem), x, test);
  }

  lemma {:induction false} BeforeBegins(elem: Type, count: nat, x: nat, test: Option<Type>)
    requires 0 < Size(elem) && EndsBefore(elem, count, x, test)
    ensures Begins(Array(elem, count), x, test)
  {
    ElementBefore(Size(elem), x);
    BeginsInElement(elem, count, x / Size(elem) - 1, x, test);
  }

  // What is said of a composite, in terms of its members.

  ghost predicate Known(m: Member, x: nat, test: Option<Type>) {
    && (Finds(m, x, test) ==> Has(m, x, test))
    && (m.off <= x ==> (Passes(m, x, test) <==> Has(m, x, test) && !Finds(m, x, test)))
  }

  ghost predicate SomeFinds(ms: seq<Member>, x: nat, test: Option<Type>) {
    exists j :: 0 <= j < |ms| && AtSettledOffset(ms, x, j) && Finds(ms[j], x, test)
  }

  ghost predicate SomeHas(ms: seq<Member>, x: nat, test: Option<Type>) {
    exists j :: 0 <= j < |ms| && Has(ms[j], x, test)
  }

  lemma {:induction false} FoundInComposite(t: Type, x: nat, test: Option<Type>)
    requires t.Composite? && !(x == 0 && Matches(test, t))
    ensures Search(t, x, test) <==> SomeFinds(t.members, x, test)
  {
    if Search(t, x, test) {
      var j := MemberSearched(t, x, test);
      assert Finds(t.members[j], x, test);
    }
    if SomeFinds(t.members, x, test) {
      var j :| 0 <= j < |t.members| && AtSettledOffset(t.members, x, j) && Finds(t.members[j], x, test);
      SearchesMember(t, x, test, j);
    }
  }

  lemma {:induction false} BeginsInComposite(t: Type, x: nat, test: Option<Type>)
    requires t.Composite? && !(x == 0 && Matches(test, t))
    ensures Begins(t, x, test) <==> SomeHas(t.members, x, test)
  {
  }

  /** Only a member at the settled offset, or one that ends at `x`, can have it. */
  lemma MemberHasIt(t: Type, x: nat, test: Option<Type>, j: nat)
    requires t.Composite? && LaidOut(t) && j < |t.members| && Has(t.members[j], x, test)
    ensures AtSettledOffset(t.members, x, j) || EndsWith(t.members[j], x, test)
  {
    var ms := t.members;
    BeginsInside(ms[j].t, x - ms[j].off, test);
    if !AtSettledOffset(ms, x, j) {
      var k :| 0 <= k < |ms| && ms[k].off <= x && ms[j].off < ms[k].off;
      assert x == ms[j].off + Size(ms[j].t);
    }
  }

  lemma {:induction false} NoneFinds(ms: seq<Member>, x: nat, test: Option<Type>)
    requires AllPass(ms, x, test) && forall j :: 0 <= j < |ms| ==> Known(ms[j], x, test)
    ensures !SomeFinds(ms, x, test)
  {
    forall j | 0 <= j < |ms| && AtSettledOffset(ms, x, j)
      ensures !Finds(ms[j], x, test)
    {
      assert Known(ms[j], x, test);
    }
  }

  lemma {:induction false} PassedIsThere(ms: seq<Member>, x: nat, test: Option<Type>)
    requires SomePasses(ms, x, test) || SomeEndsWith(ms, x, test)
    requires forall j :: 0 <= j < |ms| ==> Known(ms[j], x, test)
    ensures SomeHas(ms, x, test)
  {
    if SomePasses(ms, x, test) {
      var j :| 0 <= j < |ms| && AtSettledOffset(ms, x, j) && Passes(ms[j], x, test);
      assert Known(ms[j], x, test);
    } else {
      var j :| 0 <= j < |ms| && EndsWith(ms[j], x, test);
      assert Has(ms[j], x, test);
    }
  }

  lemma {:induction false} UnfoundIsPassed(t: Type, x: nat, test: Option<Type>)
    requires t.Composite? && LaidOut(t) && SomeHas(t.members, x, test) && !SomeFinds(t.members, x, test)
    requires forall j :: 0 <= j < |t.members| ==> Known(t.members[j], x, test)
    ensures AllPass(t.members, x, test) && (SomePasses(t.members, x, test) || SomeEndsWith(t.members, x, test))
  {
    var ms := t.members;
    forall k | 0 <= k < |ms| && AtSettledOffset(ms, x, k)
      ensures Passes(ms[k], x, test) || !Has(ms[k], x, test)
    {
      assert Known(ms[k], x, test);
    }
    var j :| 0 <= j < |ms| && Has(ms[j], x, test);
    MemberHasIt(t, x, test, j);
  }

  lemma {:induction false} PassedInComposite(t: Type, x: nat, test: Option<Type>)
    requires t.Composite? && LaidOut(t) && forall j :: 0 <= j < |t.members| ==> Known(t.members[j], x, test)
    ensures PassedIffMissed(t, x, test)
  {
    if !(x == 0 && Matches(test, t)) {
      FoundInComposite(t, x, test);
      BeginsInComposite(t, x, test);
      if PassedOver(t, x, test) {
        NoneFinds(t.members, x, test);
        PassedIsThere(t.members, x, test);
      } else if SomeHas(t.members, x, test) && !SomeFinds(t.members, x, test) {
        UnfoundIsPassed(t, x, test);
      }
    }
  }

  lemma {:induction false} PassedInArray(elem: Type, count: nat, x: nat, test: Option<Type>)
    requires LaidOut(elem) && 0 < Size(elem) && PassedIffMissed(elem, x % Size(elem), test)
    ensures PassedIffMissed(Array(elem, count), x, test)
  {
    var t := Array(elem, count);
    if !(x == 0 && Matches(test, t)) {
      FoundIsThere(elem, x % Size(elem), test);
      if x / Size(elem) < count && Begins(elem, x % Size(elem), test) {
        HereBegins(elem, count, x, test);
      } else if EndsBefore(elem, count, x, test) {
        BeforeBegins(elem, count, x, test);
      }
      if Begins(t, x, test) {
        var i := BeginsInSome(elem, count, x, test);
        ElementHasIt(elem, count, i, x, test);
      }
    }
  }

  lemma {:induction false} PassedInUnsized(elem: Type, count: nat, x: nat, test: Option<Type>)
    requires LaidOut(elem) && Size(elem) == 0
    ensures PassedIffMissed(Array(elem, count), x, test)
  {
    var t := Array(elem, count);
    if !(x == 0 && Matches(test, t)) {
      if Begins(t, x, test) {
        var i := BeginsInSome(elem, count, x, test);
        BeginsInside(elem, x - ElementOffset(elem, i), test);
      }
      if x == 0 && 0 < count && Begins(elem, 0, test) {
        BeginsInElement(elem, count, 0, x, test);
      }
    }
  }

  ghost predicate PassedIffMissed(t: Type, x: nat, test: Option<Type>) {
    PassedOver(t, x, test) <==> Begins(t, x, test) && !Search(t, x, test)
  }

  lemma {:induction false} MissedIsPassedOver(t: Type, x: nat, test: Option<Type>)
    requires LaidOut(t)
    ensures PassedIffMissed(t, x, test)
    decreases t
  {
    match t
    case Scalar(_, _) =>
    case Array(elem, count) =>
      if Size(elem) == 0 {
        PassedInUnsized(elem, count, x, test);
      } else {
        MissedIsPassedOver(elem, x % Size(elem), test);
        PassedInArray(elem, count, x, test);
      }
    case Composite(_, _, ms) =>
      forall j | 0 <= j < |ms|
        ensures Known(ms[j], x, test)
      {
        if ms[j].off <= x {
          MissedIsPassedOver(ms[j].t, x - ms[j].off, test);
          FoundIsThere(ms[j].t, x - ms[j].off, test);
        }
      }
      PassedInComposite(t, x, test);
  }

  /** For every type, offset and thing searched for, the search is right if and only if nothing is passed
      over. */
  lemma ExactIff(t: Type, x: nat, test: Option<Type>)
    requires LaidOut(t)
    ensures (Search(t, x, test) <==> Present(t, x, test)) <==> !PassedOver(t, x, test)
  {
    MissedIsPassedOver(t, x, test);
    BeginsIff(t, x, test);
    FoundIsThere(t, x, test);
  }

  /** An array of structs that end in an array of length zero, searched at its end. */
  lemma ArrayEndMissed(count: nat)
    requires 0 < count
    ensures var flexible := Array(Scalar(0, 4), 0);
      var t := Array(Trailing(flexible), count);
      LaidOut(t) && Present(t, Size(t), None) && !Search(t, Size(t), None)
  {
    var flexible := Array(Scalar(0, 4), 0);
    var elem := Trailing(flexible);
    var t := Array(elem, count);
    assert Size(t) == count * 4;
    DivUnique(Size(t), 4, count);
    assert Begins(elem.members[1].t, 4 - elem.members[1].off, None);
    assert Begins(elem, 4, None);
    assert PassedOver(t, Size(t), None);
    MissedIsPassedOver(t, Size(t), None);
    BeginsIff(t, Size(t), None);
  }
}
