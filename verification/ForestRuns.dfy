/** Whole runs of operations, and what can be looked up afterwards. */
module ForestRuns {
  import opened Pages
  import opened Forests
  import opened ForestOps
  import opened ForestMoves

  datatype Op =
    | Create(b: nat, nd: Node)
    | Delete(b: nat)
    | Extend(b: nat, newEnd: nat)
    | PreExtend(b: nat, newBegin: nat)
    | TruncateEnd(b: nat, newEnd: nat)
    | TruncateBegin(b: nat, newBegin: nat)
    | Split(b: nat, half: nat, at: nat)

  /** What the code relies on but does not check. */
  ghost predicate Allowed(f: Forest, op: Op) {
    match op
    case Create(b, nd) => CanCreate(f, b, nd)
    case Delete(b) => b in f
    case Extend(b, e) => CanExtend(f, b, e) && ExtendExact(f, b, e)
    case PreExtend(b, x) => CanPreExtend(f, b, x)
    case TruncateEnd(b, e) => CanTruncateEnd(f, b, e) && TruncateEndExact(f, b, e)
    case TruncateBegin(b, x) => CanTruncateBegin(f, b, x) && TruncateBeginExact(f, b, x)
    case Split(b, half, at) => CanSplit(f, b, half, at) && SplitExact(f, b, at)
  }

  ghost function Apply(f: Forest, op: Op): Forest
    requires Nested(f) && Allowed(f, op)
  {
    match op
    case Create(b, nd) => f[b := nd]
    case Delete(b) => f - Subtree(f, b)
    case Extend(b, e) => Resized(f, b, f[b].begin, e)
    case PreExtend(b, x) => Resized(f, b, x, f[b].end)
    case TruncateEnd(b, e) => Resized(f, b, f[b].begin, e)
    case TruncateBegin(b, x) => Resized(f, b, x, f[b].end)
    case Split(b, half, at) => SplitForest(f, b, half, at)
  }

  /** The writes each operation makes to the page index. */
  ghost function Patch(f: Forest, pi: seq<nat>, op: Op): seq<nat>
    requires WellNested(f) && Allowed(f, op) && |pi| == NPAGES
  {
    match op
    case Create(b, nd) => Fill(pi, UpPage(nd.begin), DownPage(nd.end), b)
    case Delete(b) => DeletePatch(f, pi, b)
    case Extend(b, e) => ExtendPatch(f, pi, b, e)
    case PreExtend(b, x) =>
      LimitPages(f[b].begin);
      PreExtendPatch(f, pi, b, x, StrictlyBelow(f, b, pi[PageNum(f[b].begin)]))
    case TruncateEnd(b, e) => TruncateEndPatch(f, pi, b, e)
    case TruncateBegin(b, x) => TruncateBeginPatch(f, pi, b, x)
    case Split(b, half, at) => SplitPatch(f, pi, b, half, at)
  }

  lemma StepWellNested(f: Forest, op: Op)
    requires WellNested(f) && Allowed(f, op)
    ensures WellNested(Apply(f, op))
  {
    match op
    case Create(b, nd) => CreateWellNested(f, b, nd);
    case Delete(b) => RemovalWellNested(f, f - Subtree(f, b), b);
    case Split(b, half, at) => SplitWellNested(f, b, half, at);
    case Extend(b, e) => ResizeWellNested(f, b, f[b].begin, e);
    case PreExtend(b, x) => ResizeWellNested(f, b, x, f[b].end);
    case TruncateEnd(b, e) => ResizeWellNested(f, b, f[b].begin, e);
    case TruncateBegin(b, x) => ResizeWellNested(f, b, x, f[b].end);
  }

  lemma StepAgrees(f: Forest, pi: seq<nat>, op: Op)
    requires WellNested(f) && Agrees(f, pi) && Allowed(f, op)
    ensures WellNested(Apply(f, op))
    ensures Agrees(Apply(f, op), Patch(f, pi, op))
  {
    match op
    case Create(b, nd) => CreateAgrees(f, pi, b, nd);
    case Delete(b) => DeleteAgrees(f, pi, b);
    case Extend(b, e) => ExtendAgreesIff(f, pi, b, e);
    case PreExtend(b, x) =>
      LimitPages(f[b].begin);
      UnderTestIrrelevant(f, pi, b, x);
      PreExtendAgrees(f, pi, b, x);
    case TruncateEnd(b, e) => TruncateEndAgreesIff(f, pi, b, e);
    case TruncateBegin(b, x) => TruncateBeginAgreesIff(f, pi, b, x);
    case Split(b, half, at) => SplitAgreesIff(f, pi, b, half, at);
  }

  ghost predicate RunAllowed(f: Forest, ops: seq<Op>)
    requires WellNested(f)
    decreases |ops|
  {
    ops != [] ==>
      && Allowed(f, ops[0])
      && (StepWellNested(f, ops[0]); RunAllowed(Apply(f, ops[0]), ops[1..]))
  }

  ghost function Run(f: Forest, ops: seq<Op>): Forest
    requires WellNested(f) && RunAllowed(f, ops)
    decreases |ops|
  {
    if ops == [] then f else StepWellNested(f, ops[0]); Run(Apply(f, ops[0]), ops[1..])
  }

  ghost function RunIndex(f: Forest, pi: seq<nat>, ops: seq<Op>): seq<nat>
    requires WellNested(f) && Agrees(f, pi) && RunAllowed(f, ops)
    decreases |ops|
  {
    if ops == [] then pi
    else
      StepAgrees(f, pi, ops[0]);
      RunIndex(Apply(f, ops[0]), Patch(f, pi, ops[0]), ops[1..])
  }

  /** After any run, every page's entry is the deepest bigalloc spanning it, or 0. */
  lemma {:induction false} RunAgrees(f: Forest, pi: seq<nat>, ops: seq<Op>)
    requires WellNested(f) && Agrees(f, pi) && RunAllowed(f, ops)
    ensures WellNested(Run(f, ops))
    ensures Agrees(Run(f, ops), RunIndex(f, pi, ops))
    decreases |ops|
  {
    if ops != [] {
      StepAgrees(f, pi, ops[0]);
      RunAgrees(Apply(f, ops[0]), Patch(f, pi, ops[0]), ops[1..]);
    }
  }

  /** The empty forest, from which every run starts, agrees with the zeroed index. */
  lemma EmptyAgrees(pi: seq<nat>)
    requires |pi| == NPAGES && forall p :: 0 <= p < NPAGES ==> pi[p] == 0
    ensures WellNested(map[]) && Agrees(map[], pi)
  {
  }

  /** What keeps mappings page-aligned: whatever moves an end of one moves it to a page boundary. */
  predicate KeepsAligned(f: Forest, op: Op) {
    match op
    case Create(b, nd) => nd.parent == 0 ==> nd.begin % PAGE_SIZE == 0 && nd.end % PAGE_SIZE == 0
    case Delete(b) => true
    case Extend(b, e) => b in f && f[b].parent == 0 ==> e % PAGE_SIZE == 0
    case PreExtend(b, x) => b in f && f[b].parent == 0 ==> x % PAGE_SIZE == 0
    case TruncateEnd(b, e) => b in f && f[b].parent == 0 ==> e % PAGE_SIZE == 0
    case TruncateBegin(b, x) => b in f && f[b].parent == 0 ==> x % PAGE_SIZE == 0
    case Split(b, half, at) => b in f && f[b].parent == 0 ==> at % PAGE_SIZE == 0
  }

  lemma StepTopAligned(f: Forest, op: Op)
    requires WellNested(f) && Allowed(f, op) && TopAligned(f) && KeepsAligned(f, op)
    ensures TopAligned(Apply(f, op))
  {
    if op.Split? {
      var g := SplitForest(f, op.b, op.half, op.at);
      forall n | n in g && g[n].parent == 0
        ensures g[n].begin % PAGE_SIZE == 0 && g[n].end % PAGE_SIZE == 0
      {
        assert g[n] == SplitNode(f, op.b, op.half, op.at, n);
      }
    }
  }

  ghost predicate RunKeepsAligned(f: Forest, ops: seq<Op>)
    requires WellNested(f) && RunAllowed(f, ops)
    decreases |ops|
  {
    ops != [] ==>
      && KeepsAligned(f, ops[0])
      && (StepWellNested(f, ops[0]); RunKeepsAligned(Apply(f, ops[0]), ops[1..]))
  }

  /** After any run that moves ends of mappings to page boundaries only, mappings are page-aligned. */
  lemma {:induction false} RunTopAligned(f: Forest, ops: seq<Op>)
    requires WellNested(f) && RunAllowed(f, ops) && TopAligned(f) && RunKeepsAligned(f, ops)
    ensures TopAligned(Run(f, ops))
    decreases |ops|
  {
    if ops != [] {
      StepWellNested(f, ops[0]);
      StepTopAligned(f, ops[0]);
      RunTopAligned(Apply(f, ops[0]), ops[1..]);
    }
  }

  // ---------------------------------------------------------------- lookup

  predicate Contains(nd: Node, addr: nat) {
    Covers(nd, addr, addr + 1)
  }

  /** The answer a lookup of `addr` owes: the deepest bigalloc containing it, or 0. */
  ghost predicate DeepestAt(f: Forest, addr: nat, n: nat) {
    Deepest(f, addr, addr + 1, n)
  }

  lemma {:induction false} TopAbove(f: Forest, m: nat) returns (r: nat)
    requires WellNested(f) && m in f
    ensures r in f && f[r].parent == 0 && Below(f, r, m) && Covers(f[r], f[m].begin, f[m].end)
    decreases f[m].depth
  {
    if f[m].parent == 0 {
      r := m;
    } else {
      r := TopAbove(f, f[m].parent);
    }
  }

  /** Aligned top-level ranges span every page they touch. */
  lemma AlignedSpans(nd: Node, addr: nat)
    requires nd.begin % PAGE_SIZE == 0 && nd.end % PAGE_SIZE == 0 && Contains(nd, addr)
    ensures SpansPage(nd, PageNum(addr))
  {
    DownPageIsPageNum(addr);
    DivModLaw(nd.begin, PAGE_SIZE);
    DivModLaw(nd.end, PAGE_SIZE);
    MulMonotone(PageNum(addr) + 1, nd.begin / PAGE_SIZE, PAGE_SIZE);
    MulMonotone(nd.end / PAGE_SIZE, PageNum(addr), PAGE_SIZE);
    MulMonotone(nd.begin / PAGE_SIZE, PageNum(addr), PAGE_SIZE);
    MulMonotone(PageNum(addr) + 1, nd.end / PAGE_SIZE, PAGE_SIZE);
  }

  /** The page-index entry for an address is 0 exactly when no bigalloc contains the address. */
  lemma EntryZeroIff(f: Forest, addr: nat, n: nat)
    requires WellNested(f) && TopAligned(f) && PageEntry(f, PageNum(addr), n)
    ensures n == 0 <==> forall m :: m in f ==> !Contains(f[m], addr)
    ensures n != 0 ==> n in f && Contains(f[n], addr)
  {
    DownPageIsPageNum(addr);
    forall m | m in f && Contains(f[m], addr)
      ensures n != 0
    {
      var r := TopAbove(f, m);
      AlignedSpans(f[r], addr);
    }
  }

  ghost predicate NoChildContains(f: Forest, b: nat, addr: nat) {
    forall c :: c in f && f[c].parent == b ==> !Contains(f[c], addr)
  }

  /** Descending from the page's entry by one containing child at a time ends at the answer. */
  lemma DescentEnds(f: Forest, addr: nat, n: nat)
    requires WellNested(f) && n in f && Contains(f[n], addr)
    requires NoChildContains(f, n, addr)
    ensures DeepestAt(f, addr, n)
  {
    DeepestIffLocally(f, addr, addr + 1, n);
  }

  lemma OneContainingChild(f: Forest, addr: nat, q: nat, c: nat, d: nat)
    requires WellNested(f) && c in f && d in f && f[c].parent == q == f[d].parent
    requires Contains(f[c], addr) && Contains(f[d], addr)
    ensures c == d
  {
  }

  // ---------------------------------------------------------------- search by allocator

  predicate Matches(nd: Node, a: nat, bySuballocator: bool) {
    (if bySuballocator then nd.suballocator else nd.allocatedBy) == a
  }

  ghost predicate Candidate(f: Forest, top: nat, addr: nat, a: nat, bySub: bool, m: nat)
    requires Nested(f)
  {
    Below(f, top, m) && Contains(f[m], addr) && Matches(f[m], a, bySub)
  }

  /** `r` is the shallowest bigalloc at or under `top` that contains `addr` and is allocated
      (or suballocated) by `a`, or 0 when there is none. */
  ghost predicate Shallowest(f: Forest, top: nat, addr: nat, a: nat, bySub: bool, r: nat)
    requires Nested(f)
  {
    if r == 0 then forall m :: m in f ==> !Candidate(f, top, addr, a, bySub, m)
    else
      && r in f && Candidate(f, top, addr, a, bySub, r)
      && forall m :: m in f && Candidate(f, top, addr, a, bySub, m) ==> m == r || f[r].depth < f[m].depth
  }

  lemma SearchHit(f: Forest, top: nat, addr: nat, a: nat, bySub: bool)
    requires WellNested(f) && top in f && Contains(f[top], addr) && Matches(f[top], a, bySub)
    ensures Shallowest(f, top, addr, a, bySub, top)
  {
    forall m | m in f && Candidate(f, top, addr, a, bySub, m)
      ensures m == top || f[top].depth < f[m].depth
    {
      BelowIsCovered(f, top, m);
      if f[m].depth == f[top].depth {
        OnePerLevel(f, addr, addr + 1, m, top);
      }
    }
  }

  lemma SearchDescends(f: Forest, top: nat, c: nat, addr: nat, a: nat, bySub: bool, r: nat)
    requires WellNested(f) && top in f && !Matches(f[top], a, bySub)
    requires c in f && f[c].parent == top && Contains(f[c], addr)
    requires Shallowest(f, c, addr, a, bySub, r)
    ensures Shallowest(f, top, addr, a, bySub, r)
  {
    assert Below(f, top, c);
    forall m | m in f
      ensures Candidate(f, top, addr, a, bySub, m) <==> Candidate(f, c, addr, a, bySub, m)
    {
      if Candidate(f, c, addr, a, bySub, m) {
        BelowTransitive(f, top, c, m);
      }
      if Candidate(f, top, addr, a, bySub, m) {
        var d := BelowViaChild(f, top, m);
        BelowIsCovered(f, d, m);
        OneContainingChild(f, addr, top, c, d);
      }
    }
  }

  lemma SearchMisses(f: Forest, top: nat, addr: nat, a: nat, bySub: bool)
    requires WellNested(f) && top in f && !Matches(f[top], a, bySub)
    requires NoChildContains(f, top, addr)
    ensures Shallowest(f, top, addr, a, bySub, 0)
  {
    forall m | m in f && Candidate(f, top, addr, a, bySub, m)
      ensures false
    {
      var d := BelowViaChild(f, top, m);
      BelowIsCovered(f, d, m);
    }
  }

  /** The answer of a search of the whole forest. */
  ghost predicate ShallowestAt(f: Forest, addr: nat, a: nat, bySub: bool, r: nat) {
    if r == 0 then forall m :: m in f ==> !(Contains(f[m], addr) && Matches(f[m], a, bySub))
    else
      && r in f && Contains(f[r], addr) && Matches(f[r], a, bySub)
      && forall m :: m in f && Contains(f[m], addr) && Matches(f[m], a, bySub) ==> m == r || f[r].depth < f[m].depth
  }

  /** Everything containing an address hangs under the one top-level bigalloc that contains it. */
  lemma SearchFromRoot(f: Forest, root: nat, addr: nat, a: nat, bySub: bool, r: nat)
    requires WellNested(f) && root in f && f[root].parent == 0 && Contains(f[root], addr)
    requires Shallowest(f, root, addr, a, bySub, r)
    ensures ShallowestAt(f, addr, a, bySub, r)
  {
    forall m | m in f && Contains(f[m], addr)
      ensures Below(f, root, m)
    {
      var t := TopAbove(f, m);
      OneContainingChild(f, addr, 0, t, root);
    }
    forall m | m in f && Contains(f[m], addr) && Matches(f[m], a, bySub)
      ensures Candidate(f, root, addr, a, bySub, m)
    {
    }
  }
}
