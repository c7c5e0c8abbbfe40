/** Growing and shrinking a bigalloc in place. */
module BigallocResizing {
  import opened Pages
  import opened Forests
  import opened ForestOps
  import opened ForestMoves
  import opened ForestChecks
  import opened Lists
  import opened Links
  import opened Table
  import opened BigallocTables

  /** The table after a resize whose page patch may or may not be right. */
  lemma ResizeOutcome(rs: seq<Record>, kids: seq<seq<nat>>, depth: seq<nat>, pi: seq<nat>, b: nat, x: nat, y: nat,
      pi': seq<nat>)
    requires Sound(rs, kids, depth, pi) && CanResize(ForestOf(rs, depth), b, x, y)
    requires x < rs[b].end && rs[b].begin < y
    ensures ForestOf(ResizedRec(rs, b, x, y), depth) == Resized(ForestOf(rs, depth), b, x, y)
    ensures Sound(ResizedRec(rs, b, x, y), kids, depth, pi') <==> Agrees(Resized(ForestOf(rs, depth), b, x, y), pi')
  {
    ResizedForest(rs, depth, b, x, y);
    if Agrees(Resized(ForestOf(rs, depth), b, x, y), pi') {
      ResizedSound(rs, kids, depth, pi, b, x, y, pi');
    }
  }

  lemma PagesInRange(a: nat)
    requires a <= AddressLimit()
    ensures PageNum(RoundUp(a, PAGE_SIZE)) <= NPAGES && PageNum(RoundDown(a, PAGE_SIZE)) <= NPAGES
  {
    LimitPages(a);
  }

  // Whether a build with assertions would have got past the check of the old entries is returned, though the
  // source returns nothing of the kind.

  /** Write the new end, and the node's own number on the pages gained. */
  method GrowEnd(t: BigallocTable, b: nat, newEnd: nat) returns (passed: bool)
    requires t.recs.Length == |t.depth| && t.pageindex.Length == NPAGES && b in t.Forest()
    requires t.recs[b].end <= newEnd <= AddressLimit()
    modifies t.recs, t.pageindex
    ensures t.recs[..] == ResizedRec(old(t.recs[..]), b, old(t.recs[b].begin), newEnd)
    ensures t.pageindex[..] == old(ExtendPatch(t.Forest(), t.pageindex[..], b, newEnd))
    ensures passed <==> ExtendChecked(old(t.pageindex[..]), old(t.Forest()[b]), newEnd)
  {
    var oldEnd := t.recs[b].end;
    t.recs[b] := t.recs[b].(end := newEnd);
    PagesInRange(oldEnd);
    PagesInRange(newEnd);
    passed := t.MemsetPages(RoundDown(oldEnd, PAGE_SIZE), RoundDown(newEnd, PAGE_SIZE), b, t.recs[b].parent);
  }

  /** Move the end of `b` up. The page index is right afterwards exactly when `ExtendExact` says so. */
  method Extend(t: BigallocTable, b: nat, newEnd: nat) returns (passed: bool)
    requires t.Valid() && CanExtend(t.Forest(), b, newEnd)
    modifies t.recs, t.pageindex
    ensures t.Forest() == old(t.Forest()[b := t.Forest()[b].(end := newEnd)])
    ensures t.pageindex[..] == old(ExtendPatch(t.Forest(), t.pageindex[..], b, newEnd))
    ensures t.Valid() <==> old(ExtendExact(t.Forest(), b, newEnd))
    ensures passed <==> ExtendChecked(old(t.pageindex[..]), old(t.Forest()[b]), newEnd)
  {
    ExtendOutcome(t.recs[..], t.kids, t.depth, t.pageindex[..], b, newEnd);
    passed := GrowEnd(t, b, newEnd);
  }

  lemma ExtendOutcome(rs: seq<Record>, kids: seq<seq<nat>>, depth: seq<nat>, pi: seq<nat>, b: nat, newEnd: nat)
    requires Sound(rs, kids, depth, pi) && CanExtend(ForestOf(rs, depth), b, newEnd)
    ensures var f, s := ForestOf(rs, depth), ResizedRec(rs, b, rs[b].begin, newEnd);
      && ForestOf(s, depth) == Resized(f, b, f[b].begin, newEnd)
      && (Sound(s, kids, depth, ExtendPatch(f, pi, b, newEnd)) <==> ExtendExact(f, b, newEnd))
  {
    var f := ForestOf(rs, depth);
    ExtendAgreesIff(f, pi, b, newEnd);
    ResizeOutcome(rs, kids, depth, pi, b, rs[b].begin, newEnd, ExtendPatch(f, pi, b, newEnd));
  }

  /** Write the new end, and the parent's number on the pages given up. */
  method CutEnd(t: BigallocTable, b: nat, newEnd: nat) returns (passed: bool)
    requires t.recs.Length == |t.depth| && t.pageindex.Length == NPAGES && b in t.Forest()
    requires newEnd <= t.recs[b].end <= AddressLimit()
    modifies t.recs, t.pageindex
    ensures t.recs[..] == ResizedRec(old(t.recs[..]), b, old(t.recs[b].begin), newEnd)
    ensures t.pageindex[..] == old(TruncateEndPatch(t.Forest(), t.pageindex[..], b, newEnd))
    ensures passed <==> TruncateEndChecked(old(t.pageindex[..]), old(t.Forest()[b]), b, newEnd)
  {
    var oldEnd := t.recs[b].end;
    t.recs[b] := t.recs[b].(end := newEnd);
    PagesInRange(oldEnd);
    PagesInRange(newEnd);
    passed := t.MemsetPages(RoundDown(newEnd, PAGE_SIZE), RoundDown(oldEnd, PAGE_SIZE), t.recs[b].parent, b);
  }

  /** Move the end of `b` down. */
  method TruncateAtEnd(t: BigallocTable, b: nat, newEnd: nat) returns (passed: bool)
    requires t.Valid() && CanTruncateEnd(t.Forest(), b, newEnd)
    modifies t.recs, t.pageindex
    ensures t.Forest() == old(t.Forest()[b := t.Forest()[b].(end := newEnd)])
    ensures t.pageindex[..] == old(TruncateEndPatch(t.Forest(), t.pageindex[..], b, newEnd))
    ensures t.Valid() <==> old(TruncateEndExact(t.Forest(), b, newEnd))
    ensures passed <==> TruncateEndChecked(old(t.pageindex[..]), old(t.Forest()[b]), b, newEnd)
  {
    TruncateEndOutcome(t.recs[..], t.kids, t.depth, t.pageindex[..], b, newEnd);
    passed := CutEnd(t, b, newEnd);
  }

  lemma TruncateEndOutcome(rs: seq<Record>, kids: seq<seq<nat>>, depth: seq<nat>, pi: seq<nat>, b: nat, newEnd: nat)
    requires Sound(rs, kids, depth, pi) && CanTruncateEnd(ForestOf(rs, depth), b, newEnd)
    ensures var f, s := ForestOf(rs, depth), ResizedRec(rs, b, rs[b].begin, newEnd);
      && ForestOf(s, depth) == Resized(f, b, f[b].begin, newEnd)
      && (Sound(s, kids, depth, TruncateEndPatch(f, pi, b, newEnd)) <==> TruncateEndExact(f, b, newEnd))
  {
    var f := ForestOf(rs, depth);
    TruncateEndAgreesIff(f, pi, b, newEnd);
    ResizeOutcome(rs, kids, depth, pi, b, rs[b].begin, newEnd, TruncateEndPatch(f, pi, b, newEnd));
  }

  /** Write the new beginning, and the parent's number on the pages given up. */
  method CutBegin(t: BigallocTable, b: nat, newBegin: nat) returns (passed: bool)
    requires t.recs.Length == |t.depth| && t.pageindex.Length == NPAGES && b in t.Forest()
    requires t.recs[b].begin <= newBegin <= AddressLimit()
    modifies t.recs, t.pageindex
    ensures t.recs[..] == ResizedRec(old(t.recs[..]), b, newBegin, old(t.recs[b].end))
    ensures t.pageindex[..] == old(TruncateBeginPatch(t.Forest(), t.pageindex[..], b, newBegin))
    ensures passed <==> TruncateBeginChecked(old(t.pageindex[..]), old(t.Forest()[b]), b, newBegin)
  {
    var oldBegin := t.recs[b].begin;
    t.recs[b] := t.recs[b].(begin := newBegin);
    PagesInRange(oldBegin);
    PagesInRange(newBegin);
    passed := t.MemsetPages(RoundUp(oldBegin, PAGE_SIZE), RoundUp(newBegin, PAGE_SIZE), t.recs[b].parent, b);
  }

  /** Move the beginning of `b` up. */
  method TruncateAtBeginning(t: BigallocTable, b: nat, newBegin: nat) returns (passed: bool)
    requires t.Valid() && CanTruncateBegin(t.Forest(), b, newBegin)
    modifies t.recs, t.pageindex
    ensures t.Forest() == old(t.Forest()[b := t.Forest()[b].(begin := newBegin)])
    ensures t.pageindex[..] == old(TruncateBeginPatch(t.Forest(), t.pageindex[..], b, newBegin))
    ensures t.Valid() <==> old(TruncateBeginExact(t.Forest(), b, newBegin))
    ensures passed <==> TruncateBeginChecked(old(t.pageindex[..]), old(t.Forest()[b]), b, newBegin)
  {
    TruncateBeginOutcome(t.recs[..], t.kids, t.depth, t.pageindex[..], b, newBegin);
    passed := CutBegin(t, b, newBegin);
  }

  lemma TruncateBeginOutcome(rs: seq<Record>, kids: seq<seq<nat>>, depth: seq<nat>, pi: seq<nat>, b: nat,
      newBegin: nat)
    requires Sound(rs, kids, depth, pi) && CanTruncateBegin(ForestOf(rs, depth), b, newBegin)
    ensures var f, s := ForestOf(rs, depth), ResizedRec(rs, b, newBegin, rs[b].end);
      && ForestOf(s, depth) == Resized(f, b, newBegin, f[b].end)
      && (Sound(s, kids, depth, TruncateBeginPatch(f, pi, b, newBegin)) <==> TruncateBeginExact(f, b, newBegin))
  {
    var f := ForestOf(rs, depth);
    TruncateBeginAgreesIff(f, pi, b, newBegin);
    ResizeOutcome(rs, kids, depth, pi, b, newBegin, rs[b].end, TruncateBeginPatch(f, pi, b, newBegin));
  }

  ghost predicate CanAdjustEnd(f: Forest, b: nat, newEnd: nat) {
    b in f && (if newEnd < f[b].end then CanTruncateEnd(f, b, newEnd) else CanExtend(f, b, newEnd))
  }

  predicate AdjustEndExact(f: Forest, b: nat, newEnd: nat)
    requires b in f
  {
    if newEnd < f[b].end then TruncateEndExact(f, b, newEnd) else ExtendExact(f, b, newEnd)
  }

  /** Move the end of `b` either way. */
  method AdjustEnd(t: BigallocTable, b: nat, newEnd: nat)
    requires t.Valid() && CanAdjustEnd(t.Forest(), b, newEnd)
    modifies t.recs, t.pageindex
    ensures t.Forest() == old(t.Forest()[b := t.Forest()[b].(end := newEnd)])
    ensures t.Valid() <==> old(AdjustEndExact(t.Forest(), b, newEnd))
  {
    ghost var f := t.Forest();
    if newEnd < t.recs[b].end {
      var _ := TruncateAtEnd(t, b, newEnd);
    } else if newEnd > t.recs[b].end {
      var _ := Extend(t, b, newEnd);
    } else {
      ResizedToSame(f, b, newEnd);
    }
  }

  lemma ResizedToSame(f: Forest, b: nat, newEnd: nat)
    requires b in f && newEnd == f[b].end
    ensures Resized(f, b, f[b].begin, newEnd) == f && AdjustEndExact(f, b, newEnd)
  {
  }

  // ---------------------------------------------------------------- pre-extension

  /** Is `n` somewhere below `b`? Children first, then their subtrees. */
  method IsOneOrMoreLevelsUnder(t: BigallocTable, n: nat, b: nat) returns (r: bool)
    requires t.Tree() && WellNested(t.Forest()) && b in t.Forest()
    ensures r <==> StrictlyBelow(t.Forest(), b, n)
    decreases Subtree(t.Forest(), b), 2
  {
    if n == b {
      return false;
    }
    r := IsChild(t, n, b);
    if r {
      StrictlyBelowFromChild(t.Forest(), b, n, n);
      return true;
    }
    ghost var c;
    r, c := IsUnderAChild(t, n, b);
    if r {
      StrictlyBelowFromChild(t.Forest(), b, c, n);
    } else {
      NotUnderAny(t.recs[..], t.kids, t.depth, n, b);
    }
  }

  ghost predicate UnderNone(f: Forest, ks: seq<nat>, i: nat, n: nat)
    requires Nested(f)
  {
    i <= |ks| && forall j :: 0 <= j < i ==> !StrictlyBelow(f, ks[j], n)
  }

  /** Is `n` somewhere below a child of `b`? */
  method IsUnderAChild(t: BigallocTable, n: nat, b: nat) returns (r: bool, ghost c: nat)
    requires t.Tree() && WellNested(t.Forest()) && b in t.Forest()
    ensures r ==> c in t.Forest() && t.Forest()[c].parent == b && StrictlyBelow(t.Forest(), c, n)
    ensures !r ==> b < |t.kids| && UnderNone(t.Forest(), t.kids[b], |t.kids[b]|, n)
    decreases Subtree(t.Forest(), b), 1
  {
    ghost var f, ks := t.Forest(), t.kids[b];
    ChildListStart(t.recs[..], t.kids, t.depth, b);
    var child := t.recs[b].firstChild;
    ghost var i := 0;
    ChildListEnd(t.recs[..], t.kids, t.depth, b, i);
    while child != 0
      invariant child == At(ks, i) && UnderNone(f, ks, i, n) && (child == 0 <==> i == |ks|)
      decreases |ks| - i
    {
      ChildAt(t.recs[..], t.kids, t.depth, b, i);
      ChildListEnd(t.recs[..], t.kids, t.depth, b, i + 1);
      r := IsUnderChild(t, n, b, child);
      if r {
        return true, child;
      }
      child, i := t.recs[child].nextSib, i + 1;
    }
    r, c := false, 0;
  }

  method IsUnderChild(t: BigallocTable, n: nat, ghost b: nat, child: nat) returns (r: bool)
    requires t.Tree() && WellNested(t.Forest()) && b in t.Forest()
    requires child in t.Forest() && t.Forest()[child].parent == b
    ensures r <==> StrictlyBelow(t.Forest(), child, n)
    decreases Subtree(t.Forest(), b), 0
  {
    ChildSubtree(t.Forest(), b, child);
    r := IsOneOrMoreLevelsUnder(t, n, child);
  }

  lemma NotUnderAny(rs: seq<Record>, kids: seq<seq<nat>>, depth: seq<nat>, n: nat, b: nat)
    requires Shaped(rs, kids, depth) && WellNested(ForestOf(rs, depth)) && b in ForestOf(rs, depth) && b < |kids|
    requires !(n in ForestOf(rs, depth) && ForestOf(rs, depth)[n].parent == b)
    requires UnderNone(ForestOf(rs, depth), kids[b], |kids[b]|, n)
    ensures !StrictlyBelow(ForestOf(rs, depth), b, n)
  {
    if StrictlyBelow(ForestOf(rs, depth), b, n) {
      var c := StrictlyBelowViaChild(ForestOf(rs, depth), b, n);
      var j := ChildListed(rs, kids, depth, b, c);
    }
  }

  method IsChild(t: BigallocTable, n: nat, b: nat) returns (r: bool)
    requires t.Tree() && b in t.Forest()
    ensures r <==> n in t.Forest() && t.Forest()[n].parent == b
  {
    ghost var ks := t.kids[b];
    KidsAre(t.recs[..], t.kids, t.depth, b, n);
    ChildListStart(t.recs[..], t.kids, t.depth, b);
    var child := t.recs[b].firstChild;
    ghost var i := 0;
    while child != 0
      invariant i <= |ks| && child == At(ks, i)
      invariant forall j :: 0 <= j < i ==> ks[j] != n
      decreases |ks| - i
    {
      ChildAt(t.recs[..], t.kids, t.depth, b, i);
      if child == n {
        return true;
      }
      child, i := t.recs[child].nextSib, i + 1;
    }
    r := false;
  }

  /** Write the new beginning and the pages gained; `under` is what the test said. */
  method WriteBegin(t: BigallocTable, b: nat, newBegin: nat, under: bool)
    requires t.recs.Length == |t.depth| && t.pageindex.Length == NPAGES && b in t.Forest()
    requires newBegin < t.recs[b].begin <= AddressLimit() && newBegin <= AddressLimit()
    modifies t.recs, t.pageindex
    ensures t.recs[..] == ResizedRec(old(t.recs[..]), b, newBegin, old(t.recs[b].end))
    ensures t.pageindex[..] == old(PreExtendPatch(t.Forest(), t.pageindex[..], b, newBegin, under))
  {
    var oldBegin := t.recs[b].begin;
    t.recs[b] := t.recs[b].(begin := newBegin);
    var upTo := if PageNum(t.recs[b].end) > PageNum(oldBegin) && !under
      then RoundUp(oldBegin, PAGE_SIZE) else RoundDown(oldBegin, PAGE_SIZE);
    PagesInRange(oldBegin);
    PagesInRange(newBegin);
    var _ := t.MemsetPages(RoundUp(newBegin, PAGE_SIZE), upTo, b, t.recs[b].parent);
  }

  /** Whatever the test said, the pages written are right. */
  lemma PreExtendOutcome(rs: seq<Record>, kids: seq<seq<nat>>, depth: seq<nat>, pi: seq<nat>, b: nat, newBegin: nat,
      under: bool)
    requires Sound(rs, kids, depth, pi) && CanPreExtend(ForestOf(rs, depth), b, newBegin) && newBegin < rs[b].begin
    requires PageNum(rs[b].begin) < |pi| && under == StrictlyBelow(ForestOf(rs, depth), b, pi[PageNum(rs[b].begin)])
    ensures var f := ForestOf(rs, depth);
      && ForestOf(ResizedRec(rs, b, newBegin, rs[b].end), depth) == Resized(f, b, newBegin, f[b].end)
      && Sound(ResizedRec(rs, b, newBegin, rs[b].end), kids, depth, PreExtendPatch(f, pi, b, newBegin, under))
  {
    var f := ForestOf(rs, depth);
    UnderTestIrrelevant(f, pi, b, newBegin);
    PreExtendAgrees(f, pi, b, newBegin);
    ResizeOutcome(rs, kids, depth, pi, b, newBegin, rs[b].end, PreExtendPatch(f, pi, b, newBegin, under));
  }

  /** Move the beginning of `b` down, if the new one is lower. */
  method PreExtend(t: BigallocTable, b: nat, newBegin: nat)
    requires t.Valid() && b in t.Forest()
    requires newBegin < t.Forest()[b].begin ==> CanPreExtend(t.Forest(), b, newBegin)
    modifies t.recs, t.pageindex
    ensures t.Valid() && t.Forest() == old(PreExtendOne(t.Forest(), b, newBegin))
    ensures var nd := old(t.Forest()[b]);
      t.Forest()[b] == nd.(begin := if newBegin < nd.begin then newBegin else nd.begin)
  {
    if newBegin < t.recs[b].begin {
      ghost var rs, pi := t.recs[..], t.pageindex[..];
      LimitPages(t.recs[b].begin);
      var under := IsOneOrMoreLevelsUnder(t, t.pageindex[PageNum(t.recs[b].begin)], b);
      WriteBegin(t, b, newBegin, under);
      PreExtendOutcome(rs, t.kids, t.depth, pi, b, newBegin, under);
    }
  }

  /** Move the beginning of `b` down, its ancestors first. `chain` is `b` and its ancestors, and `asked` the
      beginnings asked of them. */
  method PreExtendRecursive(t: BigallocTable, b: nat, newBegin: nat)
    returns (ghost chain: seq<nat>, ghost asked: seq<nat>)
    requires t.Valid() && CanPreExtendUp(t.minAlignment, t.Forest(), b, newBegin)
    modifies t.recs, t.pageindex
    ensures t.Valid() && Cascaded(t.minAlignment, old(t.Forest()), t.Forest(), chain, asked)
    ensures chain[0] == b && asked[0] == newBegin
    ensures t.Forest() == old(PreExtendUp(t.minAlignment, t.Forest(), b, newBegin))
    decreases t.Forest()[b].depth
  {
    ghost var f := t.Forest();
    chain, asked := PreExtendUpCascades(t.minAlignment, f, b, newBegin);
    var q := t.recs[b].parent;
    if q != 0 {
      var unit := t.minAlignment(t.recs[q].allocatedBy);
      var _, _ := PreExtendRecursive(t, q, if unit != 0 then RoundDown(newBegin, unit) else newBegin);
    }
    PreExtendUpStep(t.minAlignment, f, b, newBegin);
    PreExtend(t, b, newBegin);
  }
}
