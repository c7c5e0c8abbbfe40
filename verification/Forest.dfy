/** The abstract tree of big allocations: a finite map from bigalloc numbers to nodes.
    Number 0 is never a node; as a parent number it means "top level". */
module Forests {
  import opened Pages

  const NBIGALLOCS: nat := 32768

  /** `allocatedBy` and `suballocator` are allocator identities, 0 standing for NULL. */
  datatype Node = Node(begin: nat, end: nat, parent: nat, depth: nat, allocatedBy: nat, suballocator: nat)

  type Forest = map<nat, Node>

  predicate Covers(nd: Node, lo: nat, hi: nat) {
    nd.begin <= lo && hi <= nd.end
  }

  predicate Apart(a: Node, b: Node) {
    a.end <= b.begin || b.end <= a.begin
  }

  ghost predicate InRange(f: Forest) {
    forall n :: n in f ==> 0 < n < NBIGALLOCS && 0 < f[n].begin < f[n].end <= AddressLimit()
  }

  /** Every node hangs under a node that contains it, one level up, or is at the top. */
  ghost predicate Nested(f: Forest) {
    && (forall n :: n in f && f[n].parent == 0 ==> f[n].depth == 1)
    && (forall n :: n in f && f[n].parent != 0 ==>
          && f[n].parent in f
          && f[n].depth == f[f[n].parent].depth + 1
          && Covers(f[f[n].parent], f[n].begin, f[n].end))
  }

  ghost predicate SiblingsApart(f: Forest) {
    forall m, n :: m in f && n in f && m != n && f[m].parent == f[n].parent ==> Apart(f[m], f[n])
  }

  ghost predicate WellNested(f: Forest) {
    InRange(f) && Nested(f) && SiblingsApart(f)
  }

  /** Top-level allocations are memory mappings, so they begin and end on page boundaries. */
  ghost predicate TopAligned(f: Forest) {
    forall n :: n in f && f[n].parent == 0 ==> f[n].begin % PAGE_SIZE == 0 && f[n].end % PAGE_SIZE == 0
  }

  /** `n` is the deepest node covering [lo, hi), or 0 when no node covers it. */
  ghost predicate Deepest(f: Forest, lo: nat, hi: nat, n: nat) {
    if n == 0 then forall m :: m in f ==> !Covers(f[m], lo, hi)
    else
      && n in f && Covers(f[n], lo, hi)
      && forall m :: m in f && Covers(f[m], lo, hi) && m != n ==> f[m].depth < f[n].depth
  }

  /** `n` covers [lo, hi), 0 covering everything, and no child of `n` does. */
  ghost predicate LocallyDeepest(f: Forest, lo: nat, hi: nat, n: nat) {
    && (n != 0 ==> n in f && Covers(f[n], lo, hi))
    && forall c :: c in f && f[c].parent == n ==> !Covers(f[c], lo, hi)
  }

  /** Nodes covering a common byte are one per level. */
  lemma {:induction false} OnePerLevel(f: Forest, lo: nat, hi: nat, m: nat, n: nat)
    requires WellNested(f) && lo < hi
    requires m in f && n in f && Covers(f[m], lo, hi) && Covers(f[n], lo, hi)
    requires f[m].depth == f[n].depth
    ensures m == n
    decreases f[m].depth
  {
    if f[m].parent != 0 && f[n].parent != 0 {
      OnePerLevel(f, lo, hi, f[m].parent, f[n].parent);
    }
  }

  lemma {:induction false} NothingBelow(f: Forest, lo: nat, hi: nat, n: nat, m: nat)
    requires WellNested(f) && lo < hi
    requires LocallyDeepest(f, lo, hi, n)
    requires m in f && Covers(f[m], lo, hi)
    ensures n != 0 && (m == n || f[m].depth < f[n].depth)
    decreases f[m].depth
  {
    var q := f[m].parent;
    assert q != n;
    if q != 0 {
      NothingBelow(f, lo, hi, n, q);
    }
    if f[m].depth == f[n].depth {
      OnePerLevel(f, lo, hi, m, n);
    }
  }

  /** Looking one level down is enough to recognise the globally deepest node. */
  lemma DeepestIffLocally(f: Forest, lo: nat, hi: nat, n: nat)
    requires WellNested(f) && lo < hi
    ensures Deepest(f, lo, hi, n) <==> LocallyDeepest(f, lo, hi, n)
  {
    if LocallyDeepest(f, lo, hi, n) {
      forall m | m in f && Covers(f[m], lo, hi)
        ensures n != 0 && (m == n || f[m].depth < f[n].depth)
      {
        NothingBelow(f, lo, hi, n, m);
      }
    }
  }

  lemma DeepestUnique(f: Forest, lo: nat, hi: nat, m: nat, n: nat)
    requires Deepest(f, lo, hi, m) && Deepest(f, lo, hi, n)
    ensures m == n
  {
  }

  // ---------------------------------------------------------------- subtrees

  /** `n` is `b` or lies somewhere below it. */
  ghost predicate Below(f: Forest, b: nat, n: nat)
    requires Nested(f)
    decreases if n in f then f[n].depth else 0
  {
    n in f && (n == b || (f[n].parent != 0 && Below(f, b, f[n].parent)))
  }

  ghost function Subtree(f: Forest, b: nat): set<nat>
    requires Nested(f)
  {
    set n | n in f && Below(f, b, n)
  }

  lemma {:induction false} BelowIsCovered(f: Forest, b: nat, n: nat)
    requires Nested(f) && b in f && Below(f, b, n)
    ensures Covers(f[b], f[n].begin, f[n].end)
    ensures f[b].depth <= f[n].depth
    decreases f[n].depth
  {
    if n != b {
      BelowIsCovered(f, b, f[n].parent);
    }
  }

  lemma {:induction false} BelowTransitive(f: Forest, a: nat, b: nat, n: nat)
    requires Nested(f) && b in f && Below(f, a, b) && Below(f, b, n)
    ensures Below(f, a, n)
    decreases f[n].depth
  {
    if n != b {
      BelowTransitive(f, a, b, f[n].parent);
    }
  }

  /** A node strictly below `b` is below exactly one child of `b`. */
  lemma {:induction false} BelowViaChild(f: Forest, b: nat, n: nat) returns (c: nat)
    requires Nested(f) && b in f && Below(f, b, n) && n != b
    ensures c in f && f[c].parent == b && Below(f, c, n)
    decreases f[n].depth
  {
    if f[n].parent == b {
      c := n;
    } else {
      c := BelowViaChild(f, b, f[n].parent);
    }
  }

  /** Removing a whole subtree keeps everything else nested, and keeps who is below whom. */
  lemma {:induction false} BelowAfterRemoval(f: Forest, g: Forest, c: nat, b: nat, n: nat)
    requires Nested(f) && c in f && g == f - Subtree(f, c)
    requires n in g
    ensures Nested(g)
    ensures Below(g, b, n) == Below(f, b, n)
    decreases f[n].depth
  {
    RemovalNested(f, g, c);
    if n != b && f[n].parent != 0 {
      assert f[n].parent in g;
      BelowAfterRemoval(f, g, c, b, f[n].parent);
    }
  }

  lemma RemovalNested(f: Forest, g: Forest, c: nat)
    requires Nested(f) && c in f && g == f - Subtree(f, c)
    ensures Nested(g)
  {
    forall n | n in g && g[n].parent != 0
      ensures g[n].parent in g
    {
      assert n in f && !Below(f, c, n);
      assert !Below(f, c, f[n].parent);
    }
  }

  lemma RemovalWellNested(f: Forest, g: Forest, c: nat)
    requires WellNested(f) && c in f && g == f - Subtree(f, c)
    ensures WellNested(g)
  {
    RemovalNested(f, g, c);
  }

  // ---------------------------------------------------------------- the page index

  /** The page-index entry that page `p` should have. */
  ghost predicate PageEntry(f: Forest, p: nat, n: nat) {
    Deepest(f, PageLo(p), PageHi(p), n)
  }

  /** Every page's entry is the deepest bigalloc that completely spans the page. */
  ghost predicate Agrees(f: Forest, pi: seq<nat>) {
    |pi| == NPAGES && forall p :: 0 <= p < NPAGES ==> PageEntry(f, p, pi[p])
  }

  predicate SpansPage(nd: Node, p: nat) {
    Covers(nd, PageLo(p), PageHi(p))
  }

  lemma SpanIsPageRange(nd: Node, p: nat)
    ensures SpansPage(nd, p) <==> UpPage(nd.begin) <= p < DownPage(nd.end)
  {
    PageGalois(nd.begin, p);
    PageGalois(nd.end, p);
  }

  lemma EntryIffLocal(f: Forest, p: nat, n: nat)
    requires WellNested(f)
    ensures PageEntry(f, p, n) <==> LocallyDeepest(f, PageLo(p), PageHi(p), n)
  {
    PageBounds(p);
    DeepestIffLocally(f, PageLo(p), PageHi(p), n);
  }
}
