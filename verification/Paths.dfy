/** Paths through nested things, as the indices taken from the outermost inwards, and their order. */
module Paths {

  /** The order of a walk that goes into a thing before it goes on to the next: a path comes before its
      extensions, and otherwise the first index in which two paths differ decides. */
  ghost predicate Before(p: seq<nat>, q: seq<nat>) {
    p < q || exists k :: 0 <= k < |p| && k < |q| && p[..k] == q[..k] && p[k] < q[k]
  }

  /** Each path comes before all that follow it. */
  ghost predicate Ascending(ps: seq<seq<nat>>) {
    forall i, j :: 0 <= i < j < |ps| ==> Before(ps[i], ps[j])
  }

  lemma SamePrefix(p: seq<nat>, q: seq<nat>, k: nat)
    requires k <= |p| && k <= |q| && p[..k] == q[..k]
    ensures forall n :: 0 <= n < k ==> p[n] == q[n]
  {
    assert forall n :: 0 <= n < k ==> p[..k][n] == p[n] && q[..k][n] == q[n];
  }

  /** What comes before something is not it, and does not also come after it: so nothing is in an ascending
      list twice. */
  lemma BeforeIsStrict(p: seq<nat>, q: seq<nat>)
    requires Before(p, q)
    ensures p != q && !Before(q, p)
  {
    if !(p < q) {
      var k :| 0 <= k < |p| && k < |q| && p[..k] == q[..k] && p[k] < q[k];
      forall n | 0 <= n < |q| && n < |p| && q[..n] == p[..n]
        ensures p[n] <= q[n]
      {
        SamePrefix(p, q, k);
        SamePrefix(p, q, n);
      }
    }
  }

  /** All the paths go through `path` and on, by an index not below `i`. */
  ghost predicate Through(ps: seq<seq<nat>>, path: seq<nat>, i: nat) {
    forall n :: 0 <= n < |ps| ==> path < ps[n] && i <= ps[n][|path|]
  }

  /** What goes on by a lower index comes first. */
  lemma LowerFirst(path: seq<nat>, p: seq<nat>, q: seq<nat>)
    requires path < p && path < q && p[|path|] < q[|path|]
    ensures Before(p, q)
  {
    assert p[..|path|] == q[..|path|];
  }

  /** A thing and then what is in it ascend, if what is in it does. */
  lemma ThingThenParts(path: seq<nat>, ps: seq<seq<nat>>)
    requires Ascending(ps) && forall n :: 0 <= n < |ps| ==> path < ps[n]
    ensures Ascending([path] + ps)
  {
  }

  /** What goes through `path + [i]`, and then what goes on from `path` by a higher index. */
  lemma BranchThenRest(path: seq<nat>, i: nat, ps: seq<seq<nat>>, qs: seq<seq<nat>>)
    requires Ascending(ps) && (forall n :: 0 <= n < |ps| ==> path + [i] <= ps[n])
    requires Ascending(qs) && Through(qs, path, i + 1)
    ensures Ascending(ps + qs) && Through(ps + qs, path, i)
  {
    forall m, n | 0 <= m < |ps| && 0 <= n < |qs|
      ensures Before(ps[m], qs[n])
    {
      assert ps[m][|path|] == (path + [i])[|path|];
      LowerFirst(path, ps[m], qs[n]);
    }
    forall m | 0 <= m < |ps|
      ensures path < ps[m] && ps[m][|path|] == i
    {
      assert ps[m][|path|] == (path + [i])[|path|];
      assert path <= path + [i];
    }
  }
}
