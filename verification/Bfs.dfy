/** The breadth-first walk over the objects reachable from those in a queue. */
module Bfs {
  import opened Lists
  import opened NodeQueues

  /** What each object points to, in the order its pointers are found. */
  type Graph = nat -> seq<nat>

  datatype Colour = White | Grey | Black

  function ColourOf(colours: map<nat, Colour>, v: nat): Colour {
    if v in colours then colours[v] else White
  }

  // ---------------------------------------------------------------- one step

  /** A walk between steps: what is queued, and the colours. */
  datatype Search = Search(queue: seq<nat>, colours: map<nat, Colour>)

  /** Something that the present object points to is enqueued if it is still white. */
  function Considered(q: Search, v: nat): Search {
    if ColourOf(q.colours, v) == White then Search(q.queue + [v], q.colours[v := Grey]) else q
  }

  function ConsideredAll(q: Search, vs: seq<nat>): Search
    decreases |vs|
  {
    if vs == [] then q else ConsideredAll(Considered(q, vs[0]), vs[1..])
  }

  /** Take one object out, enqueue what is new among what it points to, and blacken it. */
  function Advanced(g: Graph, q: Search): Search
    requires q.queue != []
  {
    var u := q.queue[0];
    var r := ConsideredAll(Search(q.queue[1..], q.colours[u := Grey]), g(u));
    Search(r.queue, r.colours[u := Black])
  }

  // ---------------------------------------------------------------- distance

  /** There is a way of exactly `n` pointers from one of the objects `from` to `v`. */
  ghost predicate Steps(g: Graph, from: seq<nat>, v: nat, n: nat)
    decreases n
  {
    if n == 0 then v in from else exists u :: Steps(g, from, u, n - 1) && v in g(u)
  }

  ghost predicate Reachable(g: Graph, from: seq<nat>, v: nat) {
    exists n :: Steps(g, from, v, n)
  }

  /** The shortest way to `v` has `n` pointers. */
  ghost predicate Shortest(g: Graph, from: seq<nat>, v: nat, n: nat) {
    Steps(g, from, v, n) && forall m :: Steps(g, from, v, m) ==> n <= m
  }

  ghost predicate Closed(g: Graph, objects: set<nat>) {
    forall u, v :: u in objects && v in g(u) ==> v in objects
  }

  /** No object of the queue is in it twice, or pointed to by one before it. */
  ghost predicate Unprompted(g: Graph, from: seq<nat>) {
    Distinct(from) && forall i, j :: 0 <= i < j < |from| ==> from[j] !in g(from[i])
  }

  // ---------------------------------------------------------------- the invariant

  // `order` is everything that has been in the queue, the objects it began with first, and the first `k` of
  // it have been taken out; `level` gives each place the length of some way to the object there.

  ghost predicate Levelled(g: Graph, from: seq<nat>, order: seq<nat>, level: seq<nat>) {
    && |level| == |order| && from <= order && (forall i :: 0 <= i < |from| ==> level[i] == 0)
    && (forall i :: 0 <= i < |order| ==> Steps(g, from, order[i], level[i]))
  }

  /** Levels do not fall, and nothing is more than one level below the next one out. */
  ghost predicate Rising(level: seq<nat>, k: nat) {
    && (forall i, j :: 0 <= i < j < |level| ==> level[i] <= level[j])
    && (k < |level| ==> forall i :: 0 <= i < |level| ==> level[i] <= level[k] + 1)
  }

  /** What is enqueued is enqueued once. */
  ghost predicate NewOnce(order: seq<nat>, n: nat) {
    forall i, j :: n <= i < j < |order| ==> order[i] != order[j]
  }

  /** When the object at `i` is explored, `v` has been taken out by then or is enqueued, at most one level
      further down. */
  ghost predicate Met(order: seq<nat>, level: seq<nat>, n: nat, i: nat, v: nat)
    requires i < |order| == |level|
  {
    || (exists j :: 0 <= j <= i && order[j] == v)
    || (exists j :: n <= j < |order| && order[j] == v && level[j] <= level[i] + 1)
  }

  ghost predicate Explored(g: Graph, order: seq<nat>, level: seq<nat>, n: nat, k: nat)
    requires k <= |order| == |level|
  {
    forall i, v :: 0 <= i < k && v in g(order[i]) ==> Met(order, level, n, i, v)
  }

  /** What the queue began with is enqueued again only if something before it points to it. */
  ghost predicate Prompted(g: Graph, order: seq<nat>, n: nat)
    requires n <= |order|
  {
    forall a, j :: n <= a < |order| && 0 <= j < n && order[a] == order[j] ==> PointedFromBefore(g, order, j)
  }

  ghost predicate PointedFromBefore(g: Graph, order: seq<nat>, j: nat)
    requires j < |order|
  {
    exists i :: 0 <= i < j && order[j] in g(order[i])
  }

  ghost predicate Frontier(g: Graph, from: seq<nat>, order: seq<nat>, level: seq<nat>, k: nat) {
    && k <= |order| && Levelled(g, from, order, level) && Rising(level, k) && NewOnce(order, |from|)
    && Explored(g, order, level, |from|, k) && Prompted(g, order, |from|)
  }

  lemma StartFrontier(g: Graph, from: seq<nat>)
    ensures Frontier(g, from, from, seq(|from|, _ => 0), 0)
  {
  }

  // Enqueueing something new that the object at `k` points to.

  lemma EnqueueLevelled(g: Graph, from: seq<nat>, order: seq<nat>, level: seq<nat>, k: nat, v: nat)
    requires Levelled(g, from, order, level) && k < |order| && v in g(order[k])
    ensures Levelled(g, from, order + [v], level + [level[k] + 1])
  {
    assert Steps(g, from, v, level[k] + 1);
  }

  lemma EnqueueExplored(g: Graph, order: seq<nat>, level: seq<nat>, n: nat, k: nat, v: nat, l: nat)
    requires k <= |order| == |level| && Explored(g, order, level, n, k)
    ensures Explored(g, order + [v], level + [l], n, k)
  {
    forall i, w | 0 <= i < k && w in g((order + [v])[i])
      ensures Met(order + [v], level + [l], n, i, w)
    {
      assert Met(order, level, n, i, w);
      if j :| 0 <= j <= i && order[j] == w {
        assert (order + [v])[j] == w;
      } else {
        var j :| n <= j < |order| && order[j] == w && level[j] <= level[i] + 1;
        assert (order + [v])[j] == w;
      }
    }
  }

  lemma EnqueuePrompted(g: Graph, order: seq<nat>, n: nat, k: nat, v: nat)
    requires n <= |order| && k < |order| && Prompted(g, order, n) && v in g(order[k]) && v !in order[..k + 1]
    ensures Prompted(g, order + [v], n)
  {
    var order' := order + [v];
    assert forall i :: 0 <= i <= k ==> order[i] == order[..k + 1][i];
    forall a, j | n <= a < |order'| && 0 <= j < n && order'[a] == order'[j]
      ensures PointedFromBefore(g, order', j)
    {
      if a < |order| {
        assert PointedFromBefore(g, order, j);
        var i :| 0 <= i < j && order[j] in g(order[i]);
        assert order'[j] in g(order'[i]);
      } else {
        assert order'[j] in g(order'[k]);
      }
    }
  }

  lemma EnqueueFrontier(g: Graph, from: seq<nat>, order: seq<nat>, level: seq<nat>, k: nat, v: nat)
    requires Frontier(g, from, order, level, k) && k < |order| && v in g(order[k])
    requires v !in order[..k + 1] && v !in order[|from|..]
    ensures Frontier(g, from, order + [v], level + [level[k] + 1], k)
  {
    EnqueueLevelled(g, from, order, level, k, v);
    EnqueueExplored(g, order, level, |from|, k, v, level[k] + 1);
    EnqueuePrompted(g, order, |from|, k, v);
    NewOnceMore(order, |from|, v);
  }

  lemma NewOnceMore(order: seq<nat>, n: nat, v: nat)
    requires n <= |order| && NewOnce(order, n) && v !in order[n..]
    ensures NewOnce(order + [v], n)
  {
    forall i | n <= i < |order|
      ensures order[i] != v
    {
      assert order[n..][i - n] == order[i];
    }
  }

  /** Once all that the object at `k` points to has been met, it is explored too. */
  lemma AdvanceFrontier(g: Graph, from: seq<nat>, order: seq<nat>, level: seq<nat>, k: nat)
    requires Frontier(g, from, order, level, k) && k < |order|
    requires forall v :: v in g(order[k]) ==> v in order[..k + 1] || v in order[|from|..]
    ensures Frontier(g, from, order, level, k + 1)
  {
    forall v | v in g(order[k])
      ensures Met(order, level, |from|, k, v)
    {
      if v in order[..k + 1] {
        var j :| 0 <= j < k + 1 && order[..k + 1][j] == v;
        assert order[j] == v;
      } else {
        var j :| 0 <= j < |order| - |from| && order[|from|..][j] == v;
        assert order[|from| + j] == v;
      }
    }
    assert Explored(g, order, level, |from|, k + 1);
  }

  // ---------------------------------------------------------------- in the end

  /** In the end everything there is a way to has been taken out, at a level no longer than the way. */
  lemma {:induction false} LevelIsLeast(g: Graph, from: seq<nat>, order: seq<nat>, level: seq<nat>, v: nat, n: nat)
      returns (j: nat)
    requires Frontier(g, from, order, level, |order|) && Steps(g, from, v, n)
    ensures j < |order| && order[j] == v && level[j] <= n
    decreases n
  {
    if n == 0 {
      j :| 0 <= j < |from| && from[j] == v;
      assert order[j] == v;
    } else {
      var u :| Steps(g, from, u, n - 1) && v in g(u);
      var i := LevelIsLeast(g, from, order, level, u, n - 1);
      j := WhereMet(order, level, |from|, i, v);
    }
  }

  lemma WhereMet(order: seq<nat>, level: seq<nat>, n: nat, i: nat, v: nat) returns (j: nat)
    requires i < |order| == |level| && Rising(level, |order|) && Met(order, level, n, i, v)
    ensures j < |order| && order[j] == v && level[j] <= level[i] + 1
  {
    if k :| 0 <= k <= i && order[k] == v {
      j := k;
    } else {
      j :| n <= j < |order| && order[j] == v && level[j] <= level[i] + 1;
    }
  }

  lemma DoneIsExact(g: Graph, from: seq<nat>, order: seq<nat>, level: seq<nat>)
    requires Frontier(g, from, order, level, |order|)
    ensures forall v :: v in order <==> Reachable(g, from, v)
  {
    forall v, n | Steps(g, from, v, n)
      ensures v in order
    {
      var j := LevelIsLeast(g, from, order, level, v, n);
    }
  }

  /** The first time an object is taken out, its level is its distance. */
  lemma FirstIsShortest(g: Graph, from: seq<nat>, order: seq<nat>, level: seq<nat>, i: nat)
    requires Frontier(g, from, order, level, |order|) && i < |order| && order[i] !in order[..i]
    ensures Shortest(g, from, order[i], level[i])
  {
    assert forall l :: 0 <= l < i ==> order[l] == order[..i][l];
    forall m | Steps(g, from, order[i], m)
      ensures level[i] <= m
    {
      var j := LevelIsLeast(g, from, order, level, order[i], m);
    }
  }

  /** Every object is taken out once if and only if the queue it began with is unprompted. */
  lemma OnceIff(g: Graph, from: seq<nat>, order: seq<nat>, level: seq<nat>)
    requires Frontier(g, from, order, level, |order|)
    ensures Distinct(order) <==> Unprompted(g, from)
  {
    if Unprompted(g, from) {
      OnceIfUnprompted(g, from, order);
    }
    if Distinct(order) {
      forall i, j | 0 <= i < j < |from|
        ensures from[j] !in g(from[i])
      {
        PointedTwice(g, from, order, level, i, j);
      }
    }
  }

  lemma OnceIfUnprompted(g: Graph, from: seq<nat>, order: seq<nat>)
    requires from <= order && NewOnce(order, |from|) && Prompted(g, order, |from|) && Unprompted(g, from)
    ensures Distinct(order)
  {
    forall j | 0 <= j < |from|
      ensures !PointedFromBefore(g, order, j)
    {
      forall i | 0 <= i < j
        ensures order[j] !in g(order[i])
      {
        assert order[j] == from[j] && order[i] == from[i];
      }
    }
  }

  lemma PointedTwice(g: Graph, from: seq<nat>, order: seq<nat>, level: seq<nat>, i: nat, j: nat)
    requires Frontier(g, from, order, level, |order|) && Distinct(order) && i < j < |from|
    ensures from[j] !in g(from[i])
  {
    assert order[j] == from[j] && order[i] == from[i];
    assert !Met(order, level, |from|, i, order[j]);
  }

  /** What a walk from the objects `from` comes to: the objects blackened are the reachable ones, in an order
      in which distance does not fall; the first time, an object is blackened at its distance; and each is
      blackened once if and only if `from` is unprompted. */
  ghost predicate Walked(g: Graph, from: seq<nat>, black: seq<nat>, dist: seq<nat>) {
    && |dist| == |black| && Rising(dist, |dist|)
    && (forall v :: v in black <==> Reachable(g, from, v))
    && (forall i :: 0 <= i < |black| && black[i] !in black[..i] ==> Shortest(g, from, black[i], dist[i]))
    && (Distinct(black) <==> Unprompted(g, from))
  }

  lemma FrontierEnds(g: Graph, from: seq<nat>, order: seq<nat>, level: seq<nat>)
    requires Frontier(g, from, order, level, |order|)
    ensures Walked(g, from, order, level)
  {
    DoneIsExact(g, from, order, level);
    OnceIff(g, from, order, level);
    forall i | 0 <= i < |order| && order[i] !in order[..i]
      ensures Shortest(g, from, order[i], level[i])
    {
      FirstIsShortest(g, from, order, level, i);
    }
  }

  /** Two objects of which the first points to the second. */
  function Pair(v: nat): seq<nat> {
    if v == 1 then [2] else []
  }

  /** A walk from both blackens one of them twice. */
  lemma BlackenedTwice(black: seq<nat>, dist: seq<nat>)
    requires Walked(Pair, [1, 2], black, dist)
    ensures !Distinct(black)
  {
    assert [1, 2][1] in Pair([1, 2][0]);
  }

  // ---------------------------------------------------------------- what every step keeps

  /** What has been taken out is black, and what has been enqueued since the beginning is grey. */
  ghost predicate Coloured(colours: map<nat, Colour>, black: seq<nat>, added: seq<nat>) {
    forall v :: ColourOf(colours, v) == if v in black then Black else if v in added then Grey else White
  }

  /** What has been enqueued since the beginning. */
  ghost function AddedTo(from: seq<nat>, order: seq<nat>): seq<nat>
    requires |from| <= |order|
  {
    order[|from|..]
  }

  ghost predicate Invariant(g: Graph, from: seq<nat>, black: seq<nat>, q: Search, level: seq<nat>) {
    var order := black + q.queue;
    Frontier(g, from, order, level, |black|) && Coloured(q.colours, black, AddedTo(from, order))
  }

  ghost predicate Sound(g: Graph, from: seq<nat>, black: seq<nat>, q: Search) {
    exists level :: Invariant(g, from, black, q, level)
  }

  /** While `u` is being explored, after the objects in `black`. */
  ghost predicate ExploringAt(g: Graph, from: seq<nat>, black: seq<nat>, u: nat, q: Search, level: seq<nat>) {
    var order := black + [u] + q.queue;
    && Frontier(g, from, order, level, |black|)
    && ExploringColours(q.colours, black, u, AddedTo(from, order))
  }

  ghost predicate ExploringColours(colours: map<nat, Colour>, black: seq<nat>, u: nat, added: seq<nat>) {
    ColourOf(colours, u) != White && Coloured(colours[u := Black], black + [u], added)
  }

  ghost predicate Exploring(g: Graph, from: seq<nat>, black: seq<nat>, u: nat, q: Search) {
    exists level :: ExploringAt(g, from, black, u, q, level)
  }

  /** An object is white exactly when it has neither been taken out nor enqueued. */
  lemma WhiteIsNew(colours: map<nat, Colour>, black: seq<nat>, u: nat, added: seq<nat>, v: nat)
    requires ExploringColours(colours, black, u, added)
    ensures ColourOf(colours, v) == White <==> v !in black + [u] && v !in added
  {
    assert v != u ==> ColourOf(colours[u := Black], v) == ColourOf(colours, v);
    assert u in black + [u];
  }

  lemma ColourEnqueued(colours: map<nat, Colour>, black: seq<nat>, u: nat, added: seq<nat>, v: nat)
    requires ExploringColours(colours, black, u, added) && v !in black + [u]
    ensures ExploringColours(colours[v := Grey], black, u, added + [v])
  {
    assert u in black + [u];
    assert colours[v := Grey][u := Black] == colours[u := Black][v := Grey];
  }

  lemma ColourStarted(colours: map<nat, Colour>, black: seq<nat>, u: nat, added: seq<nat>)
    requires Coloured(colours, black, added)
    ensures ExploringColours(colours[u := Grey], black, u, added)
  {
    assert colours[u := Grey][u := Black] == colours[u := Black];
  }

  lemma StartExploring(g: Graph, from: seq<nat>, black: seq<nat>, q: Search, level: seq<nat>)
    requires Invariant(g, from, black, q, level) && q.queue != []
    ensures Exploring(g, from, black, q.queue[0], Search(q.queue[1..], q.colours[q.queue[0] := Grey]))
  {
    var u, rest := q.queue[0], q.queue[1..];
    assert black + [u] + rest == black + q.queue;
    ColourStarted(q.colours, black, u, AddedTo(from, black + q.queue));
    assert ExploringAt(g, from, black, u, Search(rest, q.colours[u := Grey]), level);
  }

  lemma JoinParts(from: seq<nat>, black: seq<nat>, u: nat, queue: seq<nat>, v: nat)
    requires |from| <= |black + [u] + queue|
    ensures (black + [u] + queue)[|black|] == u && (black + [u] + queue)[..|black| + 1] == black + [u]
    ensures black + [u] + (queue + [v]) == black + [u] + queue + [v]
    ensures AddedTo(from, black + [u] + queue + [v]) == AddedTo(from, black + [u] + queue) + [v]
  {
  }

  lemma ConsiderNew(g: Graph, from: seq<nat>, black: seq<nat>, u: nat, q: Search, level: seq<nat>, v: nat)
    requires ExploringAt(g, from, black, u, q, level) && v in g(u)
    requires v !in black + [u] && v !in AddedTo(from, black + [u] + q.queue)
    ensures Exploring(g, from, black, u, Search(q.queue + [v], q.colours[v := Grey]))
  {
    var order, q' := black + [u] + q.queue, Search(q.queue + [v], q.colours[v := Grey]);
    JoinParts(from, black, u, q.queue, v);
    EnqueueHere(g, from, black, u, order, level, v);
    ColourEnqueued(q.colours, black, u, AddedTo(from, order), v);
    ExploringBy(g, from, black, u, q', order + [v], level + [level[|black|] + 1]);
  }

  lemma EnqueueHere(g: Graph, from: seq<nat>, black: seq<nat>, u: nat, order: seq<nat>, level: seq<nat>, v: nat)
    requires Frontier(g, from, order, level, |black|) && v in g(u) && v !in black + [u] && v !in AddedTo(from, order)
    requires |black| < |order| && order[|black|] == u && order[..|black| + 1] == black + [u]
    ensures Frontier(g, from, order + [v], level + [level[|black|] + 1], |black|)
  {
    EnqueueFrontier(g, from, order, level, |black|, v);
  }

  lemma ExploringBy(g: Graph, from: seq<nat>, black: seq<nat>, u: nat, q: Search, order: seq<nat>, level: seq<nat>)
    requires order == black + [u] + q.queue && Frontier(g, from, order, level, |black|)
    requires ExploringColours(q.colours, black, u, AddedTo(from, order))
    ensures Exploring(g, from, black, u, q)
  {
    assert ExploringAt(g, from, black, u, q, level);
  }

  lemma ConsiderKeeps(g: Graph, from: seq<nat>, black: seq<nat>, u: nat, q: Search, v: nat)
    requires Exploring(g, from, black, u, q) && v in g(u)
    ensures Exploring(g, from, black, u, Considered(q, v))
  {
    var level :| ExploringAt(g, from, black, u, q, level);
    WhiteIsNew(q.colours, black, u, AddedTo(from, black + [u] + q.queue), v);
    if ColourOf(q.colours, v) == White {
      ConsiderNew(g, from, black, u, q, level, v);
    }
  }

  lemma {:induction false} ConsiderAllKeeps(g: Graph, from: seq<nat>, black: seq<nat>, u: nat, q: Search, vs: seq<nat>)
    requires Exploring(g, from, black, u, q) && forall v :: v in vs ==> v in g(u)
    ensures Exploring(g, from, black, u, ConsideredAll(q, vs))
    decreases |vs|
  {
    if vs != [] {
      assert vs[0] in vs && forall v :: v in vs[1..] ==> v in vs;
      ConsiderKeeps(g, from, black, u, q, vs[0]);
      ConsiderAllKeeps(g, from, black, u, Considered(q, vs[0]), vs[1..]);
    }
  }

  lemma {:induction false} StaysColoured(q: Search, vs: seq<nat>, v: nat)
    requires ColourOf(q.colours, v) != White
    ensures ColourOf(ConsideredAll(q, vs).colours, v) != White
    decreases |vs|
  {
    if vs != [] {
      StaysColoured(Considered(q, vs[0]), vs[1..], v);
    }
  }

  lemma {:induction false} ConsideredIsColoured(q: Search, vs: seq<nat>, i: nat)
    requires i < |vs|
    ensures ColourOf(ConsideredAll(q, vs).colours, vs[i]) != White
    decreases |vs|
  {
    if i == 0 {
      StaysColoured(Considered(q, vs[0]), vs[1..], vs[0]);
    } else {
      ConsideredIsColoured(Considered(q, vs[0]), vs[1..], i - 1);
    }
  }

  lemma FinishFrontier(g: Graph, from: seq<nat>, black: seq<nat>, u: nat, rest: seq<nat>, level: seq<nat>)
    requires Frontier(g, from, black + [u] + rest, level, |black|)
    requires forall v :: v in g(u) ==> v in black + [u] || v in AddedTo(from, black + [u] + rest)
    ensures Frontier(g, from, black + [u] + rest, level, |black + [u]|)
  {
    var order := black + [u] + rest;
    assert order[|black|] == u && order[..|black| + 1] == black + [u];
    AdvanceFrontier(g, from, order, level, |black|);
  }

  lemma FinishExploring(g: Graph, from: seq<nat>, black: seq<nat>, u: nat, q: Search)
    requires Exploring(g, from, black, u, q) && forall v :: v in g(u) ==> ColourOf(q.colours, v) != White
    ensures Sound(g, from, black + [u], Search(q.queue, q.colours[u := Black]))
  {
    var level :| ExploringAt(g, from, black, u, q, level);
    forall v | v in g(u)
      ensures v in black + [u] || v in AddedTo(from, black + [u] + q.queue)
    {
      WhiteIsNew(q.colours, black, u, AddedTo(from, black + [u] + q.queue), v);
    }
    FinishFrontier(g, from, black, u, q.queue, level);
    assert Invariant(g, from, black + [u], Search(q.queue, q.colours[u := Black]), level);
  }

  lemma StartSound(g: Graph, from: seq<nat>)
    ensures Sound(g, from, [], Search(from, map[]))
  {
    StartFrontier(g, from);
    assert [] + from == from;
    assert Invariant(g, from, [], Search(from, map[]), seq(|from|, _ => 0));
  }

  /** Every step of a walk keeps the invariant. */
  lemma AdvanceKeeps(g: Graph, from: seq<nat>, black: seq<nat>, q: Search)
    requires Sound(g, from, black, q) && q.queue != []
    ensures Sound(g, from, black + [q.queue[0]], Advanced(g, q))
  {
    var level :| Invariant(g, from, black, q, level);
    var u := q.queue[0];
    var q1 := Search(q.queue[1..], q.colours[u := Grey]);
    StartExploring(g, from, black, q, level);
    ConsiderAllKeeps(g, from, black, u, q1, g(u));
    forall v | v in g(u)
      ensures ColourOf(ConsideredAll(q1, g(u)).colours, v) != White
    {
      var i :| 0 <= i < |g(u)| && g(u)[i] == v;
      ConsideredIsColoured(q1, g(u), i);
    }
    FinishExploring(g, from, black, u, ConsideredAll(q1, g(u)));
  }

  /** A walk with nothing left has explored everything it found. */
  lemma SoundEnds(g: Graph, from: seq<nat>, black: seq<nat>, q: Search) returns (level: seq<nat>)
    requires Sound(g, from, black, q) && q.queue == []
    ensures Frontier(g, from, black, level, |black|)
  {
    level :| Invariant(g, from, black, q, level);
    assert black + q.queue == black;
  }

  // ---------------------------------------------------------------- the walk

  /** The objects that one points to, as a queue of fresh records. */
  method BuildAdjacencyList(g: Graph, u: nat) returns (adj: NodeQueue)
    ensures fresh(adj) && fresh(adj.repr) && adj.Valid() && adj.Objs() == g(u)
  {
    adj := new NodeQueue();
    var i := 0;
    while i < |g(u)|
      invariant 0 <= i <= |g(u)| && fresh(adj) && fresh(adj.repr) && adj.Valid() && adj.Objs() == g(u)[..i]
    {
      var n := new NodeRec(g(u)[i]);
      adj.PushTail(n);
      i := i + 1;
    }
  }

  /** Enqueue a record if its object is white. */
  method Consider(queue: NodeQueue, v: NodeRec, colours0: map<nat, Colour>) returns (colours: map<nat, Colour>)
    requires queue.Valid() && v !in queue.repr && v.next == null
    modifies queue, queue.repr
    ensures queue.Valid() && queue.repr <= old(queue.repr) + {v}
    ensures Search(queue.Objs(), colours) == Considered(Search(old(queue.Objs()), colours0), v.obj)
  {
    colours := colours0;
    if ColourOf(colours, v.obj) == White {
      colours := colours[v.obj := Grey];
      queue.PushTail(v);
    }
  }

  /** Enqueue the records of white objects out of an adjacency list. */
  method EnqueueWhite(queue: NodeQueue, adj: NodeQueue, colours0: map<nat, Colour>) returns (colours: map<nat, Colour>)
    requires queue != adj && queue.Valid() && adj.Valid() && adj.repr !! queue.repr
    modifies queue, queue.repr, adj, adj.repr
    ensures queue.Valid() && queue.repr <= old(queue.repr + adj.repr)
    ensures Search(queue.Objs(), colours) == ConsideredAll(Search(old(queue.Objs()), colours0), old(adj.Objs()))
  {
    colours := colours0;
    ghost var goal := ConsideredAll(Search(queue.Objs(), colours), adj.Objs());
    while true
      invariant queue.Valid() && adj.Valid() && adj.repr !! queue.repr
      invariant adj.repr <= old(adj.repr) && queue.repr <= old(queue.repr + adj.repr)
      invariant ConsideredAll(Search(queue.Objs(), colours), adj.Objs()) == goal
      decreases |adj.nodes|
    {
      var v := adj.PopHead();
      if v == null {
        break;
      }
      colours := Consider(queue, v, colours);
    }
  }

  /** One step of the walk. */
  method ProcessOne(g: Graph, queue: NodeQueue, colours0: map<nat, Colour>) returns (u: nat, colours: map<nat, Colour>)
    requires queue.Valid() && queue.Objs() != []
    modifies queue, queue.repr
    ensures queue.Valid() && fresh(queue.repr - old(queue.repr)) && u == old(queue.Objs())[0]
    ensures Search(queue.Objs(), colours) == Advanced(g, Search(old(queue.Objs()), colours0))
  {
    var n := queue.PopHead();
    u := n.obj;
    var adj := BuildAdjacencyList(g, u);
    colours := EnqueueWhite(queue, adj, colours0[u := Grey]);
    colours := colours[u := Black];
  }

  lemma {:induction false} StepsInside(g: Graph, from: seq<nat>, v: nat, n: nat, objects: set<nat>)
    requires (forall u :: u in from ==> u in objects) && Closed(g, objects) && Steps(g, from, v, n)
    ensures v in objects
    decreases n
  {
    if n > 0 {
      var u :| Steps(g, from, u, n - 1) && v in g(u);
      StepsInside(g, from, u, n - 1, objects);
    }
  }

  lemma {:induction false} DistinctInSet(s: seq<nat>, objects: set<nat>)
    requires Distinct(s) && forall i :: 0 <= i < |s| ==> s[i] in objects
    ensures |s| <= |objects|
    decreases |s|
  {
    if s != [] {
      DistinctInSet(s[1..], objects - {s[0]});
    }
  }

  /** There is a bound on what is ever taken out, so the walk ends. */
  lemma StillLeft(g: Graph, from: seq<nat>, black: seq<nat>, q: Search, objects: set<nat>)
    requires Sound(g, from, black, q) && (forall u :: u in from ==> u in objects) && Closed(g, objects)
    ensures |black| + |q.queue| <= |from| + |objects|
  {
    var level :| Invariant(g, from, black, q, level);
    var order := black + q.queue;
    var added := AddedTo(from, order);
    forall i | 0 <= i < |added|
      ensures added[i] in objects
    {
      assert added[i] == order[|from| + i];
      StepsInside(g, from, added[i], level[|from| + i], objects);
    }
    DistinctInSet(added, objects);
  }

  /** Process a queue until it is empty; `objects` is any finite set of objects that pointers do not
      lead out of. */
  method ProcessBfsQueue(g: Graph, queue: NodeQueue, ghost objects: set<nat>)
    returns (black: seq<nat>, ghost dist: seq<nat>)
    requires queue.Valid() && (forall u :: u in queue.Objs() ==> u in objects) && Closed(g, objects)
    modifies queue, queue.repr
    ensures Walked(g, old(queue.Objs()), black, dist)
  {
    ghost var from := queue.Objs();
    var colours: map<nat, Colour> := map[];
    black := [];
    StartSound(g, from);
    while queue.head != null
      invariant queue.Valid() && forall n :: n in queue.repr ==> n in old(queue.repr) || fresh(n)
      invariant Sound(g, from, black, Search(queue.Objs(), colours))
      decreases |from| + |objects| - |black|
    {
      StillLeft(g, from, black, Search(queue.Objs(), colours), objects);
      AdvanceKeeps(g, from, black, Search(queue.Objs(), colours));
      var u;
      u, colours := ProcessOne(g, queue, colours);
      black := black + [u];
    }
    dist := SoundEnds(g, from, black, Search(queue.Objs(), colours));
    FrontierEnds(g, from, black, dist);
  }

  /** Starting from one object: each object there is a way to is blackened exactly once, nearer ones
      first. */
  method WalkBfsFromObject(obj: nat, g: Graph, ghost objects: set<nat>)
    returns (black: seq<nat>, ghost dist: seq<nat>)
    requires obj != 0 ==> obj in objects && Closed(g, objects)
    ensures obj == 0 ==> black == []
    ensures obj != 0 ==> forall v :: v in black <==> Reachable(g, [obj], v)
    ensures Distinct(black) && |dist| == |black| && Rising(dist, |dist|)
    ensures forall i :: 0 <= i < |black| ==> Shortest(g, [obj], black[i], dist[i])
  {
    black, dist := [], [];
    if obj == 0 {
      return;
    }
    var queue := new NodeQueue();
    var n := new NodeRec(obj);
    queue.PushTail(n);
    assert queue.Objs() == [obj];
    black, dist := ProcessBfsQueue(g, queue, objects);
    assert Distinct(black) by {
      assert Unprompted(g, [obj]);
    }
  }
}
