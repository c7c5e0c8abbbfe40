/** The recursive search itself, and what it tries on the way. */
module SubobjectTries {
  import opened Options
  import opened Layout
  import opened SubobjectSearch

  /** A first candidate stepped into: its type, the offset left in it, and the offset it is at. */
  datatype Attempt = Attempt(t: Type, left: nat, off: nat)

  function CandidateOf(m: Member, x: nat): Attempt
    requires m.off <= x
  {
    Attempt(m.t, x - m.off, m.off)
  }

  /** What a search leaves behind: the first candidates it steps into, in order, those of failed branches
      included; their offsets added up; the offsets of the elements on the way to what is found; and the
      offsets added up in branches that failed. */
  datatype Account = Account(tries: seq<Attempt>, added: nat, skipped: nat, wasted: nat)

  const NOTHING: Account := Account([], 0, 0, 0)

  /** The account of a step to `first`, past `skipped` bytes of elements, and what follows it. */
  function Stepped(first: Attempt, skipped: nat, r: Account): Account {
    Account([first] + r.tries, first.off + r.added, skipped + r.skipped, r.wasted)
  }

  /** The account of a branch that failed and of the one after it. */
  function After(failed: Account, r: Account): Account {
    Account(failed.tries + r.tries, failed.added + r.added, r.skipped, failed.added + r.wasted)
  }

  ghost function AccountOf(t: Type, x: nat, test: Option<Type>): Account
    decreases t
  {
    if x == 0 && Matches(test, t) then NOTHING else
    match t
    case Scalar(_, _) => NOTHING
    case Array(elem, count) =>
      if Size(elem) == 0 || count <= x / Size(elem) then NOTHING
      else
        var y := x % Size(elem);
        Stepped(Attempt(elem, y, 0), ElementOffset(elem, x / Size(elem)), AccountOf(elem, y, test))
    case Composite(_, _, ms) =>
      var i := FirstCandidate(ms, x);
      if i.None? then NOTHING
      else Stepped(CandidateOf(ms[i.value], x), 0, AccountFrom(ms, x, test, i.value))
  }

  ghost function AccountIn(m: Member, x: nat, test: Option<Type>): Account
    requires m.off <= x
    decreases m
  {
    AccountOf(m.t, x - m.off, test)
  }

  /** Member `i` is not the one, and there is another at its offset. */
  ghost predicate GoesOn(ms: seq<Member>, x: nat, test: Option<Type>, i: nat)
    requires i < |ms|
  {
    !Finds(ms[i], x, test) && i + 1 < |ms| && ms[i + 1].off == ms[i].off
  }

  ghost function AccountFrom(ms: seq<Member>, x: nat, test: Option<Type>, i: nat): Account
    requires i < |ms| && ms[i].off <= x
    decreases ms, |ms| - i
  {
    var a := AccountIn(ms[i], x, test);
    if GoesOn(ms, x, test, i) then After(a, AccountFrom(ms, x, test, i + 1)) else a
  }

  lemma {:induction false} OfComposite(t: Type, x: nat, test: Option<Type>, i: nat)
    requires t.Composite? && FirstSpanning(t.members, x, i) && !(x == 0 && Matches(test, t))
    ensures AccountOf(t, x, test) == Stepped(CandidateOf(t.members[i], x), 0, AccountFrom(t.members, x, test, i))
  {
    FirstSpanningUnique(t.members, x, i, FirstCandidate(t.members, x).value);
  }

  lemma {:induction false} OfArray(elem: Type, count: nat, x: nat, test: Option<Type>)
    requires 0 < Size(elem) && x / Size(elem) < count && !(x == 0 && Matches(test, Array(elem, count)))
    ensures AccountOf(Array(elem, count), x, test) == Stepped(Attempt(elem, x % Size(elem), 0),
      ElementOffset(elem, x / Size(elem)), AccountOf(elem, x % Size(elem), test))
  {
  }

  // ---------------------------------------------------------------- the offsets added up

  /** What has been added up is `x`, short of the offsets of elements and in excess by failed branches. */
  predicate Balanced(a: Account, x: int) {
    a.added + a.skipped == x + a.wasted
  }

  /** Whatever is found, the account of the search for it is balanced. */
  lemma {:induction false} Accounts(t: Type, x: nat, test: Option<Type>)
    requires LaidOut(t) && Search(t, x, test)
    ensures Balanced(AccountOf(t, x, test), x)
    decreases t
  {
    if !(x == 0 && Matches(test, t)) {
      match t
      case Array(elem, count) =>
        Accounts(elem, x % Size(elem), test);
        OfArray(elem, count, x, test);
        ElementOf(elem, x);
      case Composite(_, _, ms) =>
        var j := MemberSearched(t, x, test);
        var i := FirstOf(ms, x, j);
        AccountsFrom(ms, x, test, i, j);
        OfComposite(t, x, test, i);
    }
  }

  ghost predicate BalancedIn(m: Member, x: nat, test: Option<Type>) {
    m.off <= x && Balanced(AccountIn(m, x, test), x - m.off)
  }

  lemma {:induction false} AccountsIn(m: Member, x: nat, test: Option<Type>)
    requires LaidOut(m.t) && Finds(m, x, test)
    ensures BalancedIn(m, x, test)
    decreases m
  {
    var y := x - m.off;
    Accounts(m.t, y, test);
  }

  lemma {:induction false} AccountsFrom(ms: seq<Member>, x: nat, test: Option<Type>, i: nat, j: nat)
    requires forall p, q :: 0 <= p < q < |ms| ==> ms[p].off <= ms[q].off
    requires forall p :: 0 <= p < |ms| ==> LaidOut(ms[p].t)
    requires i <= j < |ms| && ms[i].off == ms[j].off && Finds(ms[j], x, test)
    ensures Balanced(AccountFrom(ms, x, test, i), x - ms[i].off)
    decreases ms, j - i
  {
    if GoesOn(ms, x, test, i) {
      AccountsFrom(ms, x, test, i + 1, j);
    } else {
      assert i == j || ms[i].off <= ms[i + 1].off <= ms[j].off;
      AccountsIn(ms[i], x, test);
    }
  }

  /** The offset reported is the one searched for, less those of elements, if and only if no failed branch
      added to it. */
  lemma {:induction false} SumIsRightIff(t: Type, x: nat, test: Option<Type>)
    requires LaidOut(t) && Search(t, x, test)
    ensures RightIffNoWaste(AccountOf(t, x, test), x)
  {
    Accounts(t, x, test);
    BalancedIsRight(AccountOf(t, x, test), x);
  }

  predicate RightIffNoWaste(a: Account, x: int) {
    a.added == x - a.skipped <==> a.wasted == 0
  }

  lemma BalancedIsRight(a: Account, x: int)
    requires Balanced(a, x)
    ensures RightIffNoWaste(a, x)
  {
  }

  /** A struct of two words. */
  lemma PairOf(u: Type) returns (t: Type)
    requires LaidOut(u) && Size(u) == 4
    ensures LaidOut(t) && Size(t) == 8 && t.Composite? && |t.members| == 2
    ensures t.members[0] == Member(0, Scalar(0, 4)) && t.members[1] == Member(4, u)
  {
    t := Composite(1, 8, [Member(0, Scalar(0, 4)), Member(4, u)]);
  }

  /** The second of two members, when it is the type searched for or has no parts. */
  lemma {:induction false} SecondOfPair(t: Type, test: Type)
    requires t.Composite? && |t.members| == 2 && t.members[0].off < t.members[1].off
    requires t.members[1].t == test || t.members[1].t.Scalar?
    ensures AccountOf(t, t.members[1].off, Some(test)).added == t.members[1].off
    ensures Search(t, t.members[1].off, Some(test)) <==> t.members[1].t == test
  {
    var x := t.members[1].off;
    OfComposite(t, x, Some(test), 1);
    assert AccountIn(t.members[1], x, Some(test)) == NOTHING;
    if t.members[1].t == test {
      SearchesMember(t, x, Some(test), 1);
    } else if Search(t, x, Some(test)) {
      var j := MemberSearched(t, x, Some(test));
      assert false;
    }
  }

  /** A union of two types. */
  lemma UnionOf(a: Type, b: Type) returns (t: Type)
    requires LaidOut(a) && LaidOut(b) && Size(a) == Size(b)
    ensures LaidOut(t) && t.Composite? && |t.members| == 2
    ensures t.members[0] == Member(0, a) && t.members[1] == Member(0, b)
  {
    t := Composite(2, Size(a), [Member(0, a), Member(0, b)]);
  }

  /** When only the second has it, the first is tried too. */
  lemma {:induction false} SecondOfUnion(t: Type, x: nat, test: Option<Type>)
    requires t.Composite? && |t.members| == 2 && t.members[0].off == t.members[1].off == 0 < x
    requires !Finds(t.members[0], x, test) && Finds(t.members[1], x, test)
    ensures Search(t, x, test)
    ensures AccountOf(t, x, test).added
      == AccountIn(t.members[0], x, test).added + AccountIn(t.members[1], x, test).added
  {
    SearchesMember(t, x, test, 1);
    OfComposite(t, x, test, 0);
    assert GoesOn(t.members, x, test, 0) && !GoesOn(t.members, x, test, 1);
  }

  lemma {:induction false} CountedInBoth(a: Type, b: Type, x: nat, test: Option<Type>) returns (t: Type)
    requires LaidOut(a) && LaidOut(b) && Size(a) == Size(b) && 0 < x && !Search(a, x, test) && Search(b, x, test)
    ensures LaidOut(t) && Search(t, x, test)
    ensures AccountOf(t, x, test).added == AccountOf(a, x, test).added + AccountOf(b, x, test).added
  {
    t := UnionOf(a, b);
    SecondOfUnion(t, x, test);
  }

  /** A union of two structs, of which the second has what is searched for as its second word: the offset
      of that word is counted twice. */
  lemma CountedTwice(u: Type) returns (t: Type)
    requires LaidOut(u) && Size(u) == 4 && u != Scalar(1, 4)
    ensures LaidOut(t) && Search(t, 4, Some(u)) && AccountOf(t, 4, Some(u)).added == 8
  {
    var a := PairOf(Scalar(1, 4));
    var b := PairOf(u);
    SecondOfPair(a, u);
    SecondOfPair(b, u);
    t := CountedInBoth(a, b, 4, Some(u));
  }

  // ---------------------------------------------------------------- what is tried

  /** Everything that is tried is a part that begins as far before the offset as is left. */
  ghost predicate Genuine(t: Type, x: nat, a: Attempt) {
    a.left <= x && Subobject(t, x - a.left, a.t)
  }

  ghost predicate AllGenuine(t: Type, x: nat, tries: seq<Attempt>) {
    forall a :: a in tries ==> Genuine(t, x, a)
  }

  lemma {:induction false} TriesArePartsIn(t: Type, x: nat, test: Option<Type>, i: nat)
    requires t.Composite? && LaidOut(t) && i < |t.members| && t.members[i].off <= x
    ensures AllGenuine(t, x, AccountIn(t.members[i], x, test).tries)
    decreases t, 0
  {
    var m := t.members[i];
    assert m in t.members;
    TriesAreParts(m.t, x - m.off, test);
    forall a | a in AccountIn(m, x, test).tries
      ensures Genuine(t, x, a)
    {
      assert Genuine(m.t, x - m.off, a);
      InMember(t, i, x - a.left, a.t);
    }
  }

  lemma {:induction false} TriesArePartsFrom(t: Type, x: nat, test: Option<Type>, i: nat)
    requires t.Composite? && LaidOut(t) && i < |t.members| && t.members[i].off <= x
    ensures AllGenuine(t, x, AccountFrom(t.members, x, test, i).tries)
    decreases t, 1, |t.members| - i
  {
    TriesArePartsIn(t, x, test, i);
    if GoesOn(t.members, x, test, i) {
      TriesArePartsFrom(t, x, test, i + 1);
    }
  }

  lemma {:induction false} TriesAreParts(t: Type, x: nat, test: Option<Type>)
    requires LaidOut(t)
    ensures AllGenuine(t, x, AccountOf(t, x, test).tries)
    decreases t, 2
  {
    if !(x == 0 && Matches(test, t)) {
      match t
      case Scalar(_, _) =>
      case Array(elem, count) =>
        if 0 < Size(elem) && x / Size(elem) < count {
          TriesAreParts(elem, x % Size(elem), test);
          InElementGenuine(elem, count, x, AccountOf(elem, x % Size(elem), test).tries);
        }
      case Composite(_, _, ms) =>
        var i := FirstCandidate(ms, x);
        if i.Some? {
          TriesArePartsFrom(t, x, test, i.value);
          assert Subobject(ms[i.value].t, 0, ms[i.value].t);
          InMember(t, i.value, ms[i.value].off, ms[i.value].t);
        }
    }
  }

  lemma InElementGenuine(elem: Type, count: nat, x: nat, tries: seq<Attempt>)
    requires 0 < Size(elem) && x / Size(elem) < count && AllGenuine(elem, x % Size(elem), tries)
    ensures AllGenuine(Array(elem, count), x, [Attempt(elem, x % Size(elem), 0)] + tries)
  {
    ElementOf(elem, x);
    assert Subobject(elem, 0, elem);
    InElement(elem, count, x / Size(elem), x - x % Size(elem), elem);
    forall a | a in tries
      ensures Genuine(Array(elem, count), x, a)
    {
      assert Genuine(elem, x % Size(elem), a);
      InElement(elem, count, x / Size(elem), x - a.left, a.t);
    }
  }

  // ---------------------------------------------------------------- the recursive search

  ghost function LastOf(last: Option<Attempt>, tries: seq<Attempt>): Option<Attempt> {
    if tries == [] then last else Some(tries[|tries| - 1])
  }

  lemma LastJoins(last: Option<Attempt>, a: seq<Attempt>, b: seq<Attempt>)
    ensures LastOf(LastOf(last, a), b) == LastOf(last, a + b)
  {
    if b == [] {
      assert a + b == a;
    }
  }

  /** `last` and `sum` are what `last0` and `sum0` become with the account `a`. */
  ghost predicate Updated(last0: Option<Attempt>, sum0: nat, a: Account, last: Option<Attempt>, sum: nat) {
    last == LastOf(last0, a.tries) && sum == sum0 + a.added
  }

  lemma UpdatedByStep(last0: Option<Attempt>, sum0: nat, first: Attempt, skipped: nat, a: Account,
      last: Option<Attempt>, sum: nat)
    requires Updated(Some(first), sum0 + first.off, a, last, sum)
    ensures Updated(last0, sum0, Stepped(first, skipped, a), last, sum)
  {
    LastJoins(last0, [first], a.tries);
  }

  lemma {:induction false} UpdatedByElement(elem: Type, count: nat, x: nat, test: Option<Type>,
      last0: Option<Attempt>, sum0: nat, last: Option<Attempt>, sum: nat)
    requires 0 < Size(elem) && x / Size(elem) < count && !(x == 0 && Matches(test, Array(elem, count)))
    requires Updated(Some(Attempt(elem, x % Size(elem), 0)), sum0, AccountOf(elem, x % Size(elem), test), last, sum)
    ensures Updated(last0, sum0, AccountOf(Array(elem, count), x, test), last, sum)
  {
    var y := x % Size(elem);
    OfArray(elem, count, x, test);
    UpdatedByStep(last0, sum0, Attempt(elem, y, 0), ElementOffset(elem, x / Size(elem)), AccountOf(elem, y, test),
      last, sum);
  }

  lemma {:induction false} UpdatedByMember(t: Type, x: nat, test: Option<Type>, i: nat, last0: Option<Attempt>,
      sum0: nat, last: Option<Attempt>, sum: nat)
    requires t.Composite? && FirstSpanning(t.members, x, i) && !(x == 0 && Matches(test, t))
    requires Updated(Some(CandidateOf(t.members[i], x)), sum0 + t.members[i].off, AccountFrom(t.members, x, test, i),
      last, sum)
    ensures Updated(last0, sum0, AccountOf(t, x, test), last, sum)
  {
    OfComposite(t, x, test, i);
    UpdatedByStep(last0, sum0, CandidateOf(t.members[i], x), 0, AccountFrom(t.members, x, test, i), last, sum);
  }

  /** With what is tried from member `i` on, `last` and `sum` become `last'` and `sum'`. */
  ghost predicate Due(ms: seq<Member>, x: nat, test: Option<Type>, i: nat, last: Option<Attempt>, sum: nat,
      last': Option<Attempt>, sum': nat)
    requires i < |ms| && ms[i].off <= x
  {
    Updated(last, sum, AccountFrom(ms, x, test, i), last', sum')
  }

  lemma {:induction false} DueNext(ms: seq<Member>, x: nat, test: Option<Type>, i: nat, last0: Option<Attempt>,
      sum0: nat, last: Option<Attempt>, sum: nat, last': Option<Attempt>, sum': nat)
    requires i < |ms| && ms[i].off <= x && Due(ms, x, test, i, last0, sum0, last', sum')
    requires Updated(last0, sum0, AccountIn(ms[i], x, test), last, sum)
    ensures if GoesOn(ms, x, test, i) then Due(ms, x, test, i + 1, last, sum, last', sum')
      else last == last' && sum == sum'
  {
    if GoesOn(ms, x, test, i) {
      LastJoins(last0, AccountIn(ms[i], x, test).tries, AccountFrom(ms, x, test, i + 1).tries);
    }
  }

  /** Find a subobject of type `test` beginning at `x`. `part` is the part of `t` it was found in; `last` and
      `sum` are brought up to date with what is tried. */
  method FindMatchingSubobject(x: nat, t: Type, test: Option<Type>, last0: Option<Attempt>, sum0: nat)
    returns (r: bool, part: Option<nat>, last: Option<Attempt>, sum: nat)
    requires LaidOut(t)
    ensures r <==> Search(t, x, test)
    ensures r && part.None? ==> x == 0 && Matches(test, t)
    ensures r && part.Some? && t.Composite? ==> part.value < |t.members| && Finds(t.members[part.value], x, test)
    ensures r && part.Some? && t.Array? ==> part.value == 0
    ensures Updated(last0, sum0, AccountOf(t, x, test), last, sum)
    decreases t, 2
  {
    part, last, sum := None, last0, sum0;
    if x == 0 && Matches(test, t) {
      return true, part, last, sum;
    }
    var s := FirstSubobjectSpanning(t, x);
    if s.None? {
      NothingTried(t, x, test);
      return false, part, last, sum;
    }
    match t
    case Array(elem, count) =>
      last := Some(Attempt(elem, s.value.off, 0));
      r, part, last, sum := FindMatchingSubobject(s.value.off, elem, test, last, sum);
      part := Some(0);
      UpdatedByElement(elem, count, x, test, last0, sum0, last, sum);
    case Composite(_, _, ms) =>
      var i := s.value.index;
      last, sum := Some(CandidateOf(ms[i], x)), sum + ms[i].off;
      ghost var k := i;
      r, i, last, sum := SearchMembers(t, x, test, i, last, sum);
      part := Some(i);
      UpdatedByMember(t, x, test, k, last0, sum0, last, sum);
  }

  lemma {:induction false} NothingTried(t: Type, x: nat, test: Option<Type>)
    requires NoStep(t, x)
    ensures AccountOf(t, x, test) == NOTHING && (Search(t, x, test) ==> x == 0 && Matches(test, t))
  {
  }

  method TryMember(t: Type, x: nat, test: Option<Type>, i: nat, last0: Option<Attempt>, sum0: nat,
      ghost last': Option<Attempt>, ghost sum': nat)
    returns (found: bool, last: Option<Attempt>, sum: nat)
    requires LaidOut(t) && t.Composite? && i < |t.members| && t.members[i].off <= x
    requires Due(t.members, x, test, i, last0, sum0, last', sum')
    ensures found <==> Finds(t.members[i], x, test)
    ensures if GoesOn(t.members, x, test, i) then Due(t.members, x, test, i + 1, last, sum, last', sum')
      else last == last' && sum == sum'
    decreases t, 0
  {
    assert t.members[i] in t.members;
    found, last, sum := TryOne(t.members[i], x, test, last0, sum0);
    DueNext(t.members, x, test, i, last0, sum0, last, sum, last', sum');
  }

  method TryOne(m: Member, x: nat, test: Option<Type>, last0: Option<Attempt>, sum0: nat)
    returns (found: bool, last: Option<Attempt>, sum: nat)
    requires LaidOut(m.t) && m.off <= x
    ensures found <==> Finds(m, x, test)
    ensures Updated(last0, sum0, AccountIn(m, x, test), last, sum)
    decreases m, 3
  {
    var part;
    found, part, last, sum := FindMatchingSubobject(x - m.off, m.t, test, last0, sum0);
  }

  /** Members from `first` up to `i` are at the offset settled on, and none of them has it. */
  ghost predicate NoneUpTo(ms: seq<Member>, x: nat, test: Option<Type>, first: nat, i: nat) {
    first <= i < |ms| && ms[i].off == ms[first].off && forall j :: first <= j < i ==> !Finds(ms[j], x, test)
  }

  /** Try the members at the offset settled on, in order. */
  method SearchMembers(t: Type, x: nat, test: Option<Type>, first: nat, last0: Option<Attempt>, sum0: nat)
    returns (r: bool, i: nat, last: Option<Attempt>, sum: nat)
    requires LaidOut(t) && t.Composite? && FirstSpanning(t.members, x, first) && !(x == 0 && Matches(test, t))
    ensures r <==> Search(t, x, test)
    ensures r ==> i < |t.members| && Finds(t.members[i], x, test)
    ensures Updated(last0, sum0, AccountFrom(t.members, x, test, first), last, sum)
    decreases t, 1
  {
    var ms := t.members;
    i, last, sum := first, last0, sum0;
    ghost var account := AccountFrom(ms, x, test, first);
    ghost var last', sum' := LastOf(last0, account.tries), sum0 + account.added;
    while true
      invariant NoneUpTo(ms, x, test, first, i) && Due(ms, x, test, i, last, sum, last', sum')
      decreases |ms| - i
    {
      var found;
      found, last, sum := TryMember(t, x, test, i, last, sum, last', sum');
      if found {
        SearchesMember(t, x, test, i);
        return true, i, last, sum;
      }
      if |ms| <= i + 1 || ms[i + 1].off != ms[i].off {
        NoMemberFound(t, x, test, first, i);
        return false, i, last, sum;
      }
      i := i + 1;
    }
  }

  lemma {:induction false} NoMemberFound(t: Type, x: nat, test: Option<Type>, first: nat, i: nat)
    requires LaidOut(t) && t.Composite? && FirstSpanning(t.members, x, first) && !(x == 0 && Matches(test, t))
    requires NoneUpTo(t.members, x, test, first, i) && !Finds(t.members[i], x, test)
    requires i + 1 == |t.members| || t.members[i + 1].off != t.members[i].off
    ensures !Search(t, x, test)
  {
    SettledRun(t.members, x, first, i);
    if Search(t, x, test) {
      var j := MemberSearched(t, x, test);
      assert false;
    }
  }

  /** The members at the settled offset are those from the first to the end of the run. */
  lemma SettledRun(ms: seq<Member>, x: nat, first: nat, i: nat)
    requires forall p, q :: 0 <= p < q < |ms| ==> ms[p].off <= ms[q].off
    requires FirstSpanning(ms, x, first) && first <= i < |ms| && ms[i].off == ms[first].off
    requires i + 1 == |ms| || ms[i + 1].off != ms[i].off
    ensures forall j :: 0 <= j < |ms| && AtSettledOffset(ms, x, j) ==> first <= j <= i
  {
  }
}
