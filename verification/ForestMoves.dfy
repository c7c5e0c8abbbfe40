/** Pre-extension, splitting and deletion: the operations that need more than one page range. */
module ForestMoves {
  import opened Pages
  import opened Forests
  import opened ForestOps

  // ---------------------------------------------------------------- pre-extend

  ghost predicate CanPreExtend(f: Forest, b: nat, newBegin: nat) {
    b in f && newBegin < f[b].begin && CanResize(f, b, newBegin, f[b].end)
  }

  /** The pages written when `b` is extended downwards; `under` is the answer to the question
      whether the page of the old beginning already belongs to something below `b`. */
  function PreExtendPatch(f: Forest, pi: seq<nat>, b: nat, newBegin: nat, under: bool): seq<nat>
    requires b in f
  {
    var x, e := f[b].begin, f[b].end;
    Fill(pi, UpPage(newBegin), if PageNum(e) > PageNum(x) && !under then UpPage(x) else DownPage(x), b)
  }

  ghost predicate StrictlyBelow(f: Forest, b: nat, n: nat)
    requires Nested(f)
  {
    n != b && Below(f, b, n)
  }

  /** Whatever `under` is found to be, the same pages are written. */
  lemma UnderTestIrrelevant(f: Forest, pi: seq<nat>, b: nat, newBegin: nat)
    requires WellNested(f) && Agrees(f, pi) && b in f
    requires PageNum(f[b].begin) < |pi|
    ensures PreExtendPatch(f, pi, b, newBegin, StrictlyBelow(f, b, pi[PageNum(f[b].begin)]))
         == PreExtendPatch(f, pi, b, newBegin, false)
  {
    var x, p := f[b].begin, PageNum(f[b].begin);
    var m := pi[p];
    if StrictlyBelow(f, b, m) {
      BelowIsCovered(f, b, m);
      DownPageIsPageNum(x);
      assert m != 0 && SpansPage(f[m], p);
      PageGalois(x, p);
      UpDownMonotone(x, x);
    }
  }

  lemma PreExtendAgrees(f: Forest, pi: seq<nat>, b: nat, newBegin: nat)
    requires WellNested(f) && Agrees(f, pi) && CanPreExtend(f, b, newBegin)
    ensures WellNested(Resized(f, b, newBegin, f[b].end))
    ensures Agrees(Resized(f, b, newBegin, f[b].end), PreExtendPatch(f, pi, b, newBegin, false))
  {
    var nd, x, e := f[b], f[b].begin, f[b].end;
    var pi' := PreExtendPatch(f, pi, b, newBegin, false);
    ResizeAgreesIff(f, pi, b, newBegin, e, pi');
    UpDownMonotone(newBegin, x);
    UpDownMonotone(x, e);
    DownPageIsPageNum(x);
    DownPageIsPageNum(e);
    forall p | 0 <= p < |pi|
      ensures pi'[p] == EntryAfterResize(f, b, newBegin, e, p, pi[p])
    {
      SpanIsPageRange(nd, p);
      SpanIsPageRange(nd.(begin := newBegin, end := e), p);
    }
  }

  // ---------------------------------------------------------------- recursive pre-extension

  /** The beginning asked of the parent: rounded down to its allocator's alignment, if it has one. */
  function ParentBegin(align: nat -> nat, f: Forest, q: nat, newBegin: nat): nat
    requires q in f
  {
    var unit := align(f[q].allocatedBy);
    if unit != 0 then RoundDown(newBegin, unit) else newBegin
  }

  function PreExtendOne(f: Forest, b: nat, newBegin: nat): Forest
    requires b in f
  {
    if newBegin < f[b].begin then Resized(f, b, newBegin, f[b].end) else f
  }

  ghost predicate CanPreExtendUp(align: nat -> nat, f: Forest, b: nat, newBegin: nat)
    requires Nested(f)
    decreases if b in f then f[b].depth else 0
  {
    && b in f && 0 < newBegin
    && (newBegin < f[b].begin ==>
          forall m :: m in f && m != b && f[m].parent == f[b].parent ==>
            Apart(f[m], f[b].(begin := newBegin)))
    && (f[b].parent == 0 || CanPreExtendUp(align, f, f[b].parent, ParentBegin(align, f, f[b].parent, newBegin)))
  }

  /** Extending the ancestors first, outermost first, then the node itself. */
  ghost function PreExtendUp(align: nat -> nat, f: Forest, b: nat, newBegin: nat): (g: Forest)
    requires Nested(f) && b in f
    ensures g.Keys == f.Keys
    decreases f[b].depth
  {
    var q := f[b].parent;
    var g := if q == 0 then f else PreExtendUp(align, f, q, ParentBegin(align, f, q, newBegin));
    PreExtendOne(g, b, newBegin)
  }

  lemma ParentBeginBelow(align: nat -> nat, f: Forest, q: nat, newBegin: nat)
    requires q in f
    ensures ParentBegin(align, f, q, newBegin) <= newBegin
  {
  }

  /** Only `b` and its ancestors move, and only downwards. */
  lemma {:induction false} PreExtendUpFrame(align: nat -> nat, f: Forest, b: nat, newBegin: nat)
    requires Nested(f) && b in f
    ensures MovedDown(f, PreExtendUp(align, f, b, newBegin), b, newBegin)
    decreases f[b].depth
  {
    var q := f[b].parent;
    if q != 0 {
      var x := ParentBegin(align, f, q, newBegin);
      PreExtendUpFrame(align, f, q, x);
      MovedFurther(f, PreExtendUp(align, f, q, x), q, x, b, newBegin);
    }
  }

  ghost predicate MovedDown(f: Forest, g: Forest, b: nat, newBegin: nat)
    requires Nested(f) && b in f
  {
    && g.Keys == f.Keys
    && (forall n :: n in f ==> MovedOne(f, g, b, n))
    && g[b].begin == (if newBegin < f[b].begin then newBegin else f[b].begin)
  }

  lemma MovedFurther(f: Forest, g: Forest, q: nat, x: nat, b: nat, newBegin: nat)
    requires Nested(f) && b in f && q in f && f[b].parent == q != 0 && MovedDown(f, g, q, x)
    ensures MovedDown(f, PreExtendOne(g, b, newBegin), b, newBegin)
  {
    NotAbove(f, q, b);
    forall n | n in f
      ensures MovedOne(f, g, q, n) && MovedOne(f, PreExtendOne(g, b, newBegin), b, n)
    {
      MovedOneFurther(f, g, q, b, newBegin, n);
    }
  }

  ghost predicate MovedOne(f: Forest, g: Forest, b: nat, n: nat)
    requires Nested(f) && n in f && g.Keys == f.Keys
  {
    g[n] == f[n].(begin := g[n].begin) && g[n].begin <= f[n].begin && (!Below(f, n, b) ==> g[n] == f[n])
  }

  lemma MovedOneFurther(f: Forest, g: Forest, q: nat, b: nat, newBegin: nat, n: nat)
    requires Nested(f) && b in f && n in f && f[b].parent == q != 0 && g.Keys == f.Keys && MovedOne(f, g, q, n)
    ensures MovedOne(f, PreExtendOne(g, b, newBegin), b, n)
  {
  }

  /** A node no shallower than another, and not the same, does not contain it. */
  lemma NotAbove(f: Forest, b: nat, n: nat)
    requires Nested(f) && b in f && n in f && f[b].depth <= f[n].depth && n != b
    ensures !Below(f, n, b)
  {
    if Below(f, n, b) {
      BelowIsCovered(f, n, b);
      DepthOfBelow(f, n, b);
    }
  }

  lemma DepthOfBelow(f: Forest, a: nat, n: nat)
    requires Nested(f) && a in f && Below(f, a, n) && n != a
    ensures f[a].depth < f[n].depth
  {
    BelowIsCovered(f, a, f[n].parent);
  }

  // Where each ancestor ends up. `chain` is the node and its ancestors, innermost first, and `asked` the
  // beginnings asked of them.

  /** A beginning asked of a node, given the one asked of the child on the way up: the nearest multiple of
      the node's unit at or below it, or the same when there is no unit. */
  predicate AskedAbove(unit: nat, above: nat, below: nat) {
    if unit == 0 then above == below else above % unit == 0 && above <= below < above + unit
  }

  ghost predicate AskedAt(align: nat -> nat, f: Forest, chain: seq<nat>, asked: seq<nat>, i: nat)
    requires i < |chain| == |asked|
  {
    && chain[i] in f && (0 < i ==> chain[i] != 0)
    && f[chain[i]].parent == (if i + 1 < |chain| then chain[i + 1] else 0)
    && (0 < i ==> AskedAbove(align(f[chain[i]].allocatedBy), asked[i], asked[i - 1]))
  }

  /** So at every level of the chain, up to the top. */
  ghost predicate AskedUp(align: nat -> nat, f: Forest, chain: seq<nat>, asked: seq<nat>) {
    && |chain| == |asked| > 0 && (forall i :: 0 <= i < |chain| ==> chain[i] in f)
    && forall i :: 0 <= i < |chain| ==> AskedAt(align, f, chain, asked, i)
  }

  /** Each node of the chain begins where it did or where it is asked to, whichever is lower, and no other
      node has changed. */
  ghost predicate MovedAsAsked(f: Forest, g: Forest, chain: seq<nat>, asked: seq<nat>)
    requires |chain| == |asked| && forall i :: 0 <= i < |chain| ==> chain[i] in f
  {
    && g.Keys == f.Keys
    && (forall n :: n in f && n !in chain ==> g[n] == f[n])
    && (forall i :: 0 <= i < |chain| ==> var nd := f[chain[i]];
          g[chain[i]] == nd.(begin := if asked[i] < nd.begin then asked[i] else nd.begin))
  }

  ghost predicate Cascaded(align: nat -> nat, f: Forest, g: Forest, chain: seq<nat>, asked: seq<nat>) {
    AskedUp(align, f, chain, asked) && MovedAsAsked(f, g, chain, asked)
  }

  lemma RoundedDown(x: nat, unit: pos)
    ensures AskedAbove(unit, RoundDown(x, unit), x)
  {
    var q := x / unit;
    DivModLaw(x, unit);
    DivOfMultiple(q, 0, unit);
    DivModLaw(q * unit, unit);
  }

  lemma CascadedTop(align: nat -> nat, f: Forest, b: nat, newBegin: nat)
    requires b in f && f[b].parent == 0
    ensures Cascaded(align, f, PreExtendOne(f, b, newBegin), [b], [newBegin])
  {
  }

  /** One more level down. */
  lemma CascadedFurther(align: nat -> nat, f: Forest, g: Forest, chain: seq<nat>, asked: seq<nat>, b: nat,
      newBegin: nat)
    requires b in f && Cascaded(align, f, g, chain, asked) && chain[0] == f[b].parent != 0 && b !in chain
    requires AskedAbove(align(f[chain[0]].allocatedBy), asked[0], newBegin)
    ensures Cascaded(align, f, PreExtendOne(g, b, newBegin), [b] + chain, [newBegin] + asked)
  {
    AskedFurther(align, f, chain, asked, b, newBegin);
    MovedAsAskedFurther(f, g, chain, asked, b, newBegin);
  }

  lemma AskedFurther(align: nat -> nat, f: Forest, chain: seq<nat>, asked: seq<nat>, b: nat, newBegin: nat)
    requires b in f && AskedUp(align, f, chain, asked) && chain[0] == f[b].parent != 0
    requires AskedAbove(align(f[chain[0]].allocatedBy), asked[0], newBegin)
    ensures AskedUp(align, f, [b] + chain, [newBegin] + asked)
  {
    forall i | 0 <= i < |chain| + 1
      ensures AskedAt(align, f, [b] + chain, [newBegin] + asked, i)
    {
      AskedFurtherAt(align, f, chain, asked, b, newBegin, i);
    }
  }

  lemma AskedFurtherAt(align: nat -> nat, f: Forest, chain: seq<nat>, asked: seq<nat>, b: nat, newBegin: nat, i: nat)
    requires b in f && AskedUp(align, f, chain, asked) && chain[0] == f[b].parent != 0 && i <= |chain|
    requires AskedAbove(align(f[chain[0]].allocatedBy), asked[0], newBegin)
    ensures AskedAt(align, f, [b] + chain, [newBegin] + asked, i)
  {
    Shifted(b, chain);
    Shifted(newBegin, asked);
    assert AskedAt(align, f, chain, asked, if i == 0 then 0 else i - 1);
  }

  lemma Shifted(x: nat, s: seq<nat>)
    ensures ([x] + s)[0] == x && forall i :: 0 < i <= |s| ==> ([x] + s)[i] == s[i - 1]
  {
  }

  lemma MovedAsAskedFurther(f: Forest, g: Forest, chain: seq<nat>, asked: seq<nat>, b: nat, newBegin: nat)
    requires b in f && |chain| == |asked| && (forall i :: 0 <= i < |chain| ==> chain[i] in f)
    requires MovedAsAsked(f, g, chain, asked) && b !in chain
    ensures forall i :: 0 <= i < |chain| + 1 ==> ([b] + chain)[i] in f
    ensures MovedAsAsked(f, PreExtendOne(g, b, newBegin), [b] + chain, [newBegin] + asked)
  {
    var h, c, a := PreExtendOne(g, b, newBegin), [b] + chain, [newBegin] + asked;
    forall i | 0 <= i < |c|
      ensures c[i] in f && h[c[i]] == f[c[i]].(begin := if a[i] < f[c[i]].begin then a[i] else f[c[i]].begin)
    {
      if 0 < i {
        assert c[i] == chain[i - 1] && a[i] == asked[i - 1] && chain[i - 1] in chain;
      }
    }
    assert forall n :: n in chain ==> n in c;
  }

  /** Every node of a chain but the first is shallower than the first. */
  lemma {:induction false} ChainRises(align: nat -> nat, f: Forest, chain: seq<nat>, asked: seq<nat>, i: nat)
    requires Nested(f) && AskedUp(align, f, chain, asked) && i < |chain|
    ensures f[chain[i]].depth <= f[chain[0]].depth
    decreases i
  {
    if 0 < i {
      ChainRises(align, f, chain, asked, i - 1);
      assert AskedAt(align, f, chain, asked, i - 1) && AskedAt(align, f, chain, asked, i);
    }
  }

  lemma NotInChain(align: nat -> nat, f: Forest, chain: seq<nat>, asked: seq<nat>, b: nat)
    requires Nested(f) && AskedUp(align, f, chain, asked) && b in f && f[b].parent == chain[0] != 0
    ensures b !in chain
  {
    forall i | 0 <= i < |chain|
      ensures chain[i] != b
    {
      ChainRises(align, f, chain, asked, i);
    }
  }

  /** The whole cascade, level by level. */
  lemma {:induction false} PreExtendUpCascades(align: nat -> nat, f: Forest, b: nat, newBegin: nat)
      returns (chain: seq<nat>, asked: seq<nat>)
    requires Nested(f) && b in f
    ensures Cascaded(align, f, PreExtendUp(align, f, b, newBegin), chain, asked)
    ensures chain[0] == b && asked[0] == newBegin
    decreases f[b].depth
  {
    var q := f[b].parent;
    if q == 0 {
      chain, asked := [b], [newBegin];
      CascadedTop(align, f, b, newBegin);
    } else {
      var x := ParentBegin(align, f, q, newBegin);
      ParentBeginAsked(align, f, q, newBegin);
      chain, asked := PreExtendUpCascades(align, f, q, x);
      NotInChain(align, f, chain, asked, b);
      CascadedFurther(align, f, PreExtendUp(align, f, q, x), chain, asked, b, newBegin);
      chain, asked := [b] + chain, [newBegin] + asked;
    }
  }

  lemma ParentBeginAsked(align: nat -> nat, f: Forest, q: nat, newBegin: nat)
    requires q in f
    ensures AskedAbove(align(f[q].allocatedBy), ParentBegin(align, f, q, newBegin), newBegin)
  {
    var unit := align(f[q].allocatedBy);
    if unit != 0 {
      RoundedDown(newBegin, unit);
    }
  }

  /** After the ancestors have been extended, extending the node itself is a proper resize. */
  lemma {:induction false} PreExtendUpStep(align: nat -> nat, f: Forest, b: nat, newBegin: nat)
    requires WellNested(f) && CanPreExtendUp(align, f, b, newBegin)
    requires f[b].parent != 0 ==>
      WellNested(PreExtendUp(align, f, f[b].parent, ParentBegin(align, f, f[b].parent, newBegin)))
    ensures var q := f[b].parent;
            var g := if q == 0 then f else PreExtendUp(align, f, q, ParentBegin(align, f, q, newBegin));
      && WellNested(g) && g[b] == f[b]
      && (newBegin < f[b].begin ==> CanPreExtend(g, b, newBegin))
  {
    var q := f[b].parent;
    if q != 0 {
      var x := ParentBegin(align, f, q, newBegin);
      PreExtendUpFrame(align, f, q, x);
      ParentBeginBelow(align, f, q, newBegin);
      NotAbove(f, q, b);
      if newBegin < f[b].begin {
        PreExtendAfter(f, PreExtendUp(align, f, q, x), q, x, b, newBegin);
      }
    }
  }

  /** The children of a node that is moved down stay where they are. */
  lemma ChildStays(f: Forest, g: Forest, q: nat, x: nat, m: nat)
    requires Nested(f) && q in f && q != 0 && MovedDown(f, g, q, x) && m in f && g[m].parent == q
    ensures f[m].parent == q && g[m] == f[m]
  {
    assert MovedOne(f, g, q, m);
    NotAbove(f, q, m);
  }

  /** With the parent moved down far enough, the node can be. */
  lemma PreExtendAfter(f: Forest, g: Forest, q: nat, x: nat, b: nat, newBegin: nat)
    requires WellNested(f) && WellNested(g) && b in f && f[b].parent == q && q != 0 && MovedDown(f, g, q, x)
    requires x <= newBegin && 0 < newBegin < f[b].begin
    requires forall m :: m in f && m != b && f[m].parent == q ==> Apart(f[m], f[b].(begin := newBegin))
    ensures CanPreExtend(g, b, newBegin)
  {
    assert MovedOne(f, g, q, b);
    ChildStays(f, g, q, x, b);
    forall m | m in g && m != b && g[m].parent == q
      ensures Apart(g[m], g[b].(begin := newBegin, end := g[b].end))
    {
      ChildStays(f, g, q, x, m);
    }
    forall c | c in g && g[c].parent == b
      ensures newBegin <= g[c].begin && g[c].end <= g[b].end
    {
      assert Covers(g[g[c].parent], g[c].begin, g[c].end);
    }
  }

  /** The whole cascade leaves every ancestor containing its child. */
  lemma {:induction false} PreExtendUpWellNested(align: nat -> nat, f: Forest, b: nat, newBegin: nat)
    requires WellNested(f) && CanPreExtendUp(align, f, b, newBegin)
    ensures WellNested(PreExtendUp(align, f, b, newBegin))
    decreases f[b].depth
  {
    var q := f[b].parent;
    if q != 0 {
      PreExtendUpWellNested(align, f, q, ParentBegin(align, f, q, newBegin));
    }
    PreExtendUpStep(align, f, b, newBegin);
    var g := if q == 0 then f else PreExtendUp(align, f, q, ParentBegin(align, f, q, newBegin));
    if newBegin < g[b].begin {
      ResizeWellNested(g, b, newBegin, g[b].end);
    }
  }

  // ---------------------------------------------------------------- split

  /** The split address lies inside `b` and no child of `b` straddles it. */
  ghost predicate Splittable(f: Forest, b: nat, at: nat) {
    && b in f && f[b].begin < at < f[b].end
    && forall c :: c in f && f[c].parent == b ==> f[c].end <= at || at <= f[c].begin
  }

  ghost predicate CanSplit(f: Forest, b: nat, half: nat, at: nat) {
    Splittable(f, b, at) && 0 < half < NBIGALLOCS && half !in f
  }

  function SplitNode(f: Forest, b: nat, half: nat, at: nat, n: nat): Node
    requires b in f && (n in f || n == half)
  {
    if n == half then f[b].(begin := at)
    else if n == b then f[b].(end := at)
    else if f[n].parent == b && at <= f[n].begin then f[n].(parent := half)
    else f[n]
  }

  /** `b` keeps [begin, at) and the children in it; `half` gets [at, end) and the others. */
  function SplitForest(f: Forest, b: nat, half: nat, at: nat): Forest
    requires b in f
  {
    map n | n in f.Keys + {half} :: SplitNode(f, b, half, at, n)
  }

  /** Replace one number by another on the pages [lo, hi). */
  function Replaced(pi: seq<nat>, lo: nat, hi: nat, b: nat, half: nat): (r: seq<nat>)
    ensures |r| == |pi|
  {
    seq(|pi|, i requires 0 <= i < |pi| => if lo <= i < hi && pi[i] == b then half else pi[i])
  }

  /** Look at every page of the second half and replace `b` by `half`. */
  function SplitPatch(f: Forest, pi: seq<nat>, b: nat, half: nat, at: nat): (r: seq<nat>)
    requires b in f
  {
    Replaced(pi, UpPage(at), UpPage(f[b].end), b, half)
  }

  lemma SplitNodeNested(f: Forest, b: nat, half: nat, at: nat, n: nat)
    requires WellNested(f) && CanSplit(f, b, half, at) && (n in f || n == half)
    ensures var nd := SplitNode(f, b, half, at, n);
      && 0 < nd.begin < nd.end <= AddressLimit()
      && (nd.parent == 0 ==> nd.depth == 1)
      && (nd.parent != 0 ==>
            && (nd.parent in f || nd.parent == half)
            && nd.depth == SplitNode(f, b, half, at, nd.parent).depth + 1
            && Covers(SplitNode(f, b, half, at, nd.parent), nd.begin, nd.end))
  {
    var o := if n == half then b else n;
    if f[o].parent != 0 {
      assert f[o].parent in f && Covers(f[f[o].parent], f[o].begin, f[o].end);
    }
  }

  lemma SplitNested(f: Forest, b: nat, half: nat, at: nat)
    requires WellNested(f) && CanSplit(f, b, half, at)
    ensures InRange(SplitForest(f, b, half, at)) && Nested(SplitForest(f, b, half, at))
  {
    forall n | n in f || n == half
      ensures n in SplitForest(f, b, half, at)
      ensures SplitForest(f, b, half, at)[n] == SplitNode(f, b, half, at, n)
    {
      SplitNodeNested(f, b, half, at, n);
    }
    forall n | n in SplitForest(f, b, half, at) {
      SplitNodeNested(f, b, half, at, n);
    }
  }

  lemma SplitSiblingsApart(f: Forest, b: nat, half: nat, at: nat)
    requires WellNested(f) && CanSplit(f, b, half, at)
    ensures SiblingsApart(SplitForest(f, b, half, at))
  {
    var g := SplitForest(f, b, half, at);
    forall m, n | m in g && n in g && m != n && g[m].parent == g[n].parent
      ensures Apart(g[m], g[n])
    {
      SplitApart(f, b, half, at, m, n);
    }
  }

  lemma SplitApart(f: Forest, b: nat, half: nat, at: nat, m: nat, n: nat)
    requires WellNested(f) && CanSplit(f, b, half, at) && (m in f || m == half) && (n in f || n == half) && m != n
    requires SplitNode(f, b, half, at, m).parent == SplitNode(f, b, half, at, n).parent
    ensures Apart(SplitNode(f, b, half, at, m), SplitNode(f, b, half, at, n))
  {
    if m != half && n != half {
      assert f[m].parent == f[n].parent;
    } else {
      var o := if m == half then n else m;
      assert f[b].parent != half;
      assert f[o].parent == f[b].parent;
    }
  }

  lemma SplitWellNested(f: Forest, b: nat, half: nat, at: nat)
    requires WellNested(f) && CanSplit(f, b, half, at)
    ensures WellNested(SplitForest(f, b, half, at))
  {
    SplitNested(f, b, half, at);
    SplitSiblingsApart(f, b, half, at);
  }

  lemma SplitLocalKept(f: Forest, b: nat, half: nat, at: nat, lo: nat, hi: nat, n: nat)
    requires WellNested(f) && CanSplit(f, b, half, at) && lo < hi
    requires LocallyDeepest(f, lo, hi, n) && (n != b || hi <= at)
    ensures LocallyDeepest(SplitForest(f, b, half, at), lo, hi, n)
  {
    var g := SplitForest(f, b, half, at);
    forall c | c in g && g[c].parent == n
      ensures !Covers(g[c], lo, hi)
    {
      assert g[c] == SplitNode(f, b, half, at, c);
      var o := if c == half then b else c;
      assert f[o].parent == n;
    }
  }

  /** An entry other than `b` stays right, and so does `b` below the split address. */
  lemma SplitEntryKept(f: Forest, b: nat, half: nat, at: nat, p: nat, n: nat)
    requires WellNested(f) && CanSplit(f, b, half, at) && PageEntry(f, p, n)
    requires n != b || PageHi(p) <= at
    ensures PageEntry(SplitForest(f, b, half, at), p, n)
  {
    SplitWellNested(f, b, half, at);
    PageBounds(p);
    EntryIffLocal(f, p, n);
    EntryIffLocal(SplitForest(f, b, half, at), p, n);
    SplitLocalKept(f, b, half, at, PageLo(p), PageHi(p), n);
  }

  lemma SplitEntryMoved(f: Forest, b: nat, half: nat, at: nat, p: nat)
    requires WellNested(f) && CanSplit(f, b, half, at) && PageEntry(f, p, b)
    requires at <= PageLo(p)
    ensures PageEntry(SplitForest(f, b, half, at), p, half)
  {
    SplitWellNested(f, b, half, at);
    EntryIffLocal(f, p, b);
    EntryIffLocal(SplitForest(f, b, half, at), p, half);
  }

  /** A page with the split address strictly inside it is spanned by neither half. */
  lemma SplitEntryStraddled(f: Forest, b: nat, half: nat, at: nat, p: nat, n: nat)
    requires WellNested(f) && CanSplit(f, b, half, at) && PageEntry(f, p, n)
    requires PageLo(p) < at < PageHi(p)
    ensures n == b <==> SpansPage(f[b], p)
    ensures !PageEntry(SplitForest(f, b, half, at), p, b)
  {
    PageBounds(p);
    EntryIffLocal(f, p, b);
    if SpansPage(f[b], p) {
      DeepestUnique(f, PageLo(p), PageHi(p), n, b);
    }
  }

  /** The look-and-replace loop restores agreement exactly when the address is on a page boundary
      or `b` did not span the page that the address lies in. */
  predicate SplitExact(f: Forest, b: nat, at: nat)
    requires b in f
  {
    at % PAGE_SIZE == 0 || !SpansPage(f[b], PageNum(at))
  }

  lemma SplitPageSide(at: nat, p: nat)
    ensures UpPage(at) <= p <==> at <= PageLo(p)
    ensures p < PageNum(at) ==> PageHi(p) <= at
    ensures p == PageNum(at) ==> PageLo(p) <= at < PageHi(p)
    ensures p == PageNum(at) && at % PAGE_SIZE == 0 ==> UpPage(at) <= p
    ensures p == PageNum(at) && at % PAGE_SIZE != 0 ==> PageLo(p) < at
    ensures PageNum(at) < p ==> UpPage(at) <= p
  {
    PageGalois(at, p);
    DownPageIsPageNum(at);
    UpPageCases(at);
    DivModLaw(at, PAGE_SIZE);
  }

  lemma SplitPageEntry(f: Forest, pi: seq<nat>, b: nat, half: nat, at: nat, p: nat)
    requires WellNested(f) && Agrees(f, pi) && CanSplit(f, b, half, at) && 0 <= p < |pi|
    requires p != PageNum(at) || SplitExact(f, b, at)
    ensures PageEntry(SplitForest(f, b, half, at), p, SplitPatch(f, pi, b, half, at)[p])
  {
    SplitPageSide(at, p);
    if pi[p] == b {
      SpanIsPageRange(f[b], p);
      UpDownMonotone(f[b].end, f[b].end);
      if at <= PageLo(p) {
        SplitEntryMoved(f, b, half, at, p);
      } else {
        SplitEntryKept(f, b, half, at, p, b);
      }
    } else {
      SplitEntryKept(f, b, half, at, p, pi[p]);
    }
  }

  lemma SplitWrongEntry(f: Forest, pi: seq<nat>, b: nat, half: nat, at: nat)
    requires WellNested(f) && Agrees(f, pi) && CanSplit(f, b, half, at)
    requires !SplitExact(f, b, at)
    ensures PageNum(at) < |pi|
    ensures !PageEntry(SplitForest(f, b, half, at), PageNum(at), SplitPatch(f, pi, b, half, at)[PageNum(at)])
  {
    LimitPages(at);
    SplitPageSide(at, PageNum(at));
    SplitEntryStraddled(f, b, half, at, PageNum(at), pi[PageNum(at)]);
  }

  lemma SplitAgreesIff(f: Forest, pi: seq<nat>, b: nat, half: nat, at: nat)
    requires WellNested(f) && Agrees(f, pi) && CanSplit(f, b, half, at)
    ensures WellNested(SplitForest(f, b, half, at))
    ensures Agrees(SplitForest(f, b, half, at), SplitPatch(f, pi, b, half, at)) <==> SplitExact(f, b, at)
  {
    SplitWellNested(f, b, half, at);
    if SplitExact(f, b, at) {
      forall p | 0 <= p < |pi|
        ensures PageEntry(SplitForest(f, b, half, at), p, SplitPatch(f, pi, b, half, at)[p])
      {
        SplitPageEntry(f, pi, b, half, at, p);
      }
    } else {
      SplitWrongEntry(f, pi, b, half, at);
    }
  }

  // ---------------------------------------------------------------- delete

  /** Pages owned by the subtree go back to the parent. */
  ghost function DeletePatch(f: Forest, pi: seq<nat>, b: nat): (r: seq<nat>)
    requires Nested(f) && b in f
  {
    seq(|pi|, i requires 0 <= i < |pi| => if pi[i] in Subtree(f, b) then f[b].parent else pi[i])
  }

  lemma DeletedEntry(f: Forest, b: nat, p: nat, n: nat)
    requires WellNested(f) && b in f && PageEntry(f, p, n)
    ensures WellNested(f - Subtree(f, b))
    ensures PageEntry(f - Subtree(f, b), p, if n in Subtree(f, b) then f[b].parent else n)
  {
    var g := f - Subtree(f, b);
    var q := f[b].parent;
    RemovalWellNested(f, g, b);
    PageBounds(p);
    EntryIffLocal(f, p, n);
    if n in Subtree(f, b) {
      BelowIsCovered(f, b, n);
      ParentOutside(f, b);
      EntryIffLocal(g, p, q);
    } else {
      EntryIffLocal(g, p, n);
    }
  }

  lemma ParentOutside(f: Forest, b: nat)
    requires WellNested(f) && b in f
    ensures f[b].parent !in Subtree(f, b)
  {
    if f[b].parent in Subtree(f, b) {
      BelowIsCovered(f, b, f[b].parent);
    }
  }

  lemma DeleteAgrees(f: Forest, pi: seq<nat>, b: nat)
    requires WellNested(f) && Agrees(f, pi) && b in f
    ensures WellNested(f - Subtree(f, b))
    ensures Agrees(f - Subtree(f, b), DeletePatch(f, pi, b))
  {
    RemovalWellNested(f, f - Subtree(f, b), b);
    forall p | 0 <= p < |pi|
      ensures PageEntry(f - Subtree(f, b), p, DeletePatch(f, pi, b)[p])
    {
      DeletedEntry(f, b, p, pi[p]);
    }
  }

  ghost predicate Childless(f: Forest, b: nat) {
    forall c :: c in f ==> f[c].parent != b
  }

  lemma ChildlessSubtree(f: Forest, b: nat)
    requires Nested(f) && b in f && Childless(f, b)
    ensures Subtree(f, b) == {b}
  {
    forall n | n in Subtree(f, b) && n != b
      ensures false
    {
      var c := BelowViaChild(f, b, n);
    }
  }

  /** For a bigalloc whose children are gone, writing one range of pages is enough, and each of
      them carried its own number. */
  lemma LeafDeletePatch(f: Forest, pi: seq<nat>, b: nat)
    requires WellNested(f) && Agrees(f, pi) && b in f && Childless(f, b)
    ensures Fill(pi, UpPage(f[b].begin), DownPage(f[b].end), f[b].parent) == DeletePatch(f, pi, b)
    ensures forall p :: UpPage(f[b].begin) <= p < DownPage(f[b].end) ==> p < |pi| && pi[p] == b
  {
    ChildlessSubtree(f, b);
    LimitPages(f[b].end);
    forall p | 0 <= p < |pi|
      ensures pi[p] == b <==> UpPage(f[b].begin) <= p < DownPage(f[b].end)
    {
      SpanIsPageRange(f[b], p);
      EntryIffLocal(f, p, b);
      if SpansPage(f[b], p) {
        DeepestUnique(f, PageLo(p), PageHi(p), pi[p], b);
      }
    }
  }

  /** `g` is what is left of `f` while the subtree of `b` is being taken down. */
  ghost predicate Pruned(f: Forest, g: Forest, b: nat) {
    && WellNested(f) && WellNested(g)
    && b in g && g.Keys <= f.Keys
    && (forall n :: n in g ==> g[n] == f[n])
    && (forall n :: n in f && n !in Subtree(f, b) ==> n in g)
  }

  lemma {:induction false} PrunedBelow(f: Forest, g: Forest, b: nat, c: nat, n: nat)
    requires Pruned(f, g, b) && n in g
    ensures Below(g, c, n) == Below(f, c, n)
    decreases f[n].depth
  {
    if n != c && f[n].parent != 0 {
      PrunedBelow(f, g, b, c, f[n].parent);
    }
  }

  /** Taking down the subtree of a child leaves a smaller task of the same kind. */
  lemma PruneChild(f: Forest, g: Forest, b: nat, c: nat)
    requires Pruned(f, g, b) && c in g && g[c].parent == b
    ensures Subtree(g, c) < Subtree(f, b)
    ensures Pruned(f, g - Subtree(g, c), b)
  {
    assert Below(f, b, c);
    forall n | n in Subtree(g, c)
      ensures n in Subtree(f, b)
    {
      PrunedBelow(f, g, b, c, n);
      BelowTransitive(f, b, c, n);
    }
    ParentOutside(g, c);
    RemovalWellNested(g, g - Subtree(g, c), c);
  }

  /** Once `b` has no child left, nothing of its subtree is left but `b` itself. */
  lemma PruneDone(f: Forest, g: Forest, b: nat)
    requires Pruned(f, g, b) && Childless(g, b)
    ensures g - {b} == f - Subtree(f, b)
  {
    forall n | n in g && n != b
      ensures n !in Subtree(f, b)
    {
      NotLeft(f, g, b, n);
    }
  }

  lemma NotLeft(f: Forest, g: Forest, b: nat, n: nat)
    requires Pruned(f, g, b) && Childless(g, b) && n in g && n != b
    ensures n !in Subtree(f, b)
  {
    ChildlessSubtree(g, b);
    PrunedBelow(f, g, b, b, n);
    assert n !in Subtree(g, b);
  }

  /** The forest determines the index. */
  lemma AgreesUnique(f: Forest, pi: seq<nat>, pi': seq<nat>)
    requires Agrees(f, pi) && Agrees(f, pi')
    ensures pi == pi'
  {
    forall p | 0 <= p < NPAGES
      ensures pi[p] == pi'[p]
    {
      DeepestUnique(f, PageLo(p), PageHi(p), pi[p], pi'[p]);
    }
  }

  lemma ChildSubtree(f: Forest, b: nat, c: nat)
    requires WellNested(f) && c in f && f[c].parent == b && b in f
    ensures Subtree(f, c) < Subtree(f, b)
  {
    assert Below(f, b, c);
    forall n | n in Subtree(f, c)
      ensures n in Subtree(f, b)
    {
      BelowTransitive(f, b, c, n);
    }
    ParentOutside(f, c);
  }

  /** If something covers the stretch, something is the deepest that does. */
  lemma {:induction false} SomeDeepest(f: Forest, lo: nat, hi: nat, n: nat) returns (m: nat)
    requires WellNested(f) && lo < hi && (n == 0 || (n in f && Covers(f[n], lo, hi)))
    ensures LocallyDeepest(f, lo, hi, m)
    decreases if n == 0 then f.Keys + {0} else Subtree(f, n)
  {
    m := n;
    if c :| c in f && f[c].parent == n && Covers(f[c], lo, hi) {
      if n != 0 {
        ChildSubtree(f, n, c);
      } else {
        assert 0 !in Subtree(f, c) && Subtree(f, c) <= f.Keys;
      }
      m := SomeDeepest(f, lo, hi, c);
    }
  }

  lemma SomeEntry(f: Forest, p: nat)
    requires WellNested(f)
    ensures exists n :: PageEntry(f, p, n)
  {
    PageBounds(p);
    var n := SomeDeepest(f, PageLo(p), PageHi(p), 0);
    EntryIffLocal(f, p, n);
  }

  ghost function EntryFor(f: Forest, p: nat): (n: nat)
    requires WellNested(f)
    ensures PageEntry(f, p, n)
  {
    SomeEntry(f, p);
    var n :| PageEntry(f, p, n);
    n
  }

  /** Every well-nested forest has an index that is right for it. */
  lemma HasIndex(f: Forest) returns (pi: seq<nat>)
    requires WellNested(f)
    ensures Agrees(f, pi)
  {
    pi := seq(NPAGES, p requires 0 <= p => EntryFor(f, p));
  }

  /** Something is strictly below `b` iff it is a child of `b` or strictly below one. */
  lemma StrictlyBelowViaChild(f: Forest, b: nat, n: nat) returns (c: nat)
    requires WellNested(f) && b in f && StrictlyBelow(f, b, n)
    ensures c in f && f[c].parent == b && (n == c || StrictlyBelow(f, c, n))
  {
    c := BelowViaChild(f, b, n);
  }

  lemma StrictlyBelowFromChild(f: Forest, b: nat, c: nat, n: nat)
    requires WellNested(f) && b in f && c in f && f[c].parent == b && Below(f, c, n)
    ensures StrictlyBelow(f, b, n)
  {
    assert Below(f, b, c);
    BelowTransitive(f, b, c, n);
    BelowIsCovered(f, c, n);
  }
}
