/** The queue of end labels, which turns a pre-order walk into output with both beginnings and ends. */
module EndLabels {
  import opened Walks

  /** What is printed: a visit's own text, or the line for its end label. */
  datatype Line = Own(text: string) | EndOf(name: string)

  /** A line to print once the walk is done with everything deeper. */
  datatype Queued = Queued(depth: nat, output: Line)

  type Texts = Visit -> string

  ghost predicate Ascending(q: seq<Queued>) {
    forall i, j :: 0 <= i < j < |q| ==> q[i].depth < q[j].depth
  }

  // ---------------------------------------------------------------- draining

  function Kept(q: seq<Queued>, depth: nat): (r: seq<Queued>)
    ensures r <= q && (r != [] ==> r[|r| - 1].depth < depth)
  {
    if q == [] || q[|q| - 1].depth < depth then q else Kept(q[..|q| - 1], depth)
  }

  function Drained(q: seq<Queued>, depth: nat): seq<Line> {
    if q == [] || q[|q| - 1].depth < depth then [] else [q[|q| - 1].output] + Drained(q[..|q| - 1], depth)
  }

  /** Looking at the last entry only is enough: what is kept is exactly what is less deep. */
  lemma {:induction false} KeptIsShallow(q: seq<Queued>, depth: nat)
    requires Ascending(q)
    ensures Ascending(Kept(q, depth))
    ensures forall e :: e in q ==> (e in Kept(q, depth) <==> e.depth < depth)
    decreases |q|
  {
    if q != [] {
      var last := q[|q| - 1];
      assert q == q[..|q| - 1] + [last];
      if depth <= last.depth {
        KeptIsShallow(q[..|q| - 1], depth);
      }
    }
  }

  lemma {:induction false} DrainedStep(q: seq<Queued>, depth: nat, out: seq<Line>)
    requires q != [] && depth <= q[|q| - 1].depth
    ensures var q' := q[..|q| - 1];
      Kept(q, depth) == Kept(q', depth) && out + Drained(q, depth) == out + [q[|q| - 1].output] + Drained(q', depth)
  {
  }

  lemma {:induction false} DrainEnds(q: seq<Queued>, depth: nat, out: seq<Line>)
    requires q == [] || q[|q| - 1].depth < depth
    ensures Kept(q, depth) == q && out + Drained(q, depth) == out
  {
  }

  function Pushed(q: seq<Queued>, depth: nat, name: string): seq<Queued> {
    if name == "" then q else q + [Queued(depth, EndOf(name))]
  }

  lemma PushedAscends(q: seq<Queued>, depth: nat, name: string)
    requires Ascending(q)
    ensures Ascending(Pushed(Kept(q, depth), depth, name))
  {
    KeptIsShallow(q, depth);
  }

  // ---------------------------------------------------------------- a whole run

  /** The output of the run from visit `i` on, with `q` queued, which drains everything at its end. */
  function Output(vs: seq<Visit>, i: nat, q: seq<Queued>, text: Texts, endLabel: Texts): seq<Line>
    requires i <= |vs|
    decreases |vs| - i
  {
    if i == |vs| then Drained(q, 0) else
    var d := Depth(vs[i].path);
    Drained(q, d) + [Own(text(vs[i]))] + Output(vs, i + 1, Pushed(Kept(q, d), d, endLabel(vs[i])), text, endLabel)
  }

  lemma JoinOut(out: seq<Line>, a: seq<Line>, b: seq<Line>)
    ensures out + (a + b) == out + a + b
  {
  }

  lemma {:induction false} OutputOnce(vs: seq<Visit>, i: nat, q: seq<Queued>, out: seq<Line>, text: Texts,
      endLabel: Texts)
    requires i < |vs|
    ensures var d := Depth(vs[i].path);
      out + Output(vs, i, q, text, endLabel)
      == out + (Drained(q, d) + [Own(text(vs[i]))]) + Output(vs, i + 1, Pushed(Kept(q, d), d, endLabel(vs[i])),
        text, endLabel)
  {
    var d := Depth(vs[i].path);
    JoinOut(out, Drained(q, d) + [Own(text(vs[i]))],
      Output(vs, i + 1, Pushed(Kept(q, d), d, endLabel(vs[i])), text, endLabel));
  }

  function End(v: Visit, endLabel: Texts): seq<Line> {
    if endLabel(v) == "" then [] else [EndOf(endLabel(v))]
  }

  /** Where the visits from `i` on, but before `hi`, stop being deeper than `d`. */
  function RunEnd(vs: seq<Visit>, i: nat, hi: nat, d: nat): (n: nat)
    requires i <= hi <= |vs|
    ensures i <= n <= hi && (forall j :: i <= j < n ==> d < Depth(vs[j].path))
    ensures n < hi ==> Depth(vs[n].path) <= d
    decreases hi - i
  {
    if i == hi || Depth(vs[i].path) <= d then i else RunEnd(vs, i + 1, hi, d)
  }

  lemma RunEndUnique(vs: seq<Visit>, i: nat, hi: nat, d: nat, n: nat)
    requires i <= n <= hi <= |vs| && (forall j :: i <= j < n ==> d < Depth(vs[j].path))
    requires n < hi ==> Depth(vs[n].path) <= d
    ensures RunEnd(vs, i, hi, d) == n
  {
  }

  /** What the output for the visits from `i` to `hi` should be: the first visit's text, what comes for
      everything deeper that follows directly, the visit's end label if it has one, and the rest. */
  function Nest(vs: seq<Visit>, i: nat, hi: nat, text: Texts, endLabel: Texts): seq<Line>
    requires i <= hi <= |vs|
    decreases hi - i
  {
    if i == hi then [] else
    var k := RunEnd(vs, i + 1, hi, Depth(vs[i].path));
    [Own(text(vs[i]))] + Nest(vs, i + 1, k, text, endLabel) + End(vs[i], endLabel) + Nest(vs, k, hi, text, endLabel)
  }

  lemma JoinRest(t: Line, a: seq<Line>, e: seq<Line>, b: seq<Line>, c: seq<Line>)
    ensures [t] + a + e + (b + c) == [t] + a + e + b + c
  {
  }

  ghost predicate NestSplit(vs: seq<Visit>, i: nat, m: nat, hi: nat, text: Texts, endLabel: Texts)
    requires i <= m <= hi <= |vs|
  {
    Nest(vs, i, hi, text, endLabel) == Nest(vs, i, m, text, endLabel) + Nest(vs, m, hi, text, endLabel)
  }

  /** Output nests separately before and after a point to which the walk has come back up. */
  lemma {:induction false} NestSplits(vs: seq<Visit>, i: nat, m: nat, hi: nat, d: nat, text: Texts, endLabel: Texts)
    requires i <= hi <= |vs| && m == RunEnd(vs, i, hi, d)
    ensures NestSplit(vs, i, m, hi, text, endLabel)
    decreases hi - i
  {
    if i < m {
      var e := Depth(vs[i].path);
      var k := RunEnd(vs, i + 1, hi, e);
      RunEndUnique(vs, i + 1, m, e, k);
      RunEndUnique(vs, k, hi, d, m);
      NestSplits(vs, k, m, hi, d, text, endLabel);
      JoinRest(Own(text(vs[i])), Nest(vs, i + 1, k, text, endLabel), End(vs[i], endLabel),
        Nest(vs, k, m, text, endLabel), Nest(vs, m, hi, text, endLabel));
    }
  }

  lemma JoinNothing(whole: seq<Line>, t: Line, a: seq<Line>, e: seq<Line>, b: seq<Line>, rest: seq<Line>)
    requires whole == [t] + a + e + b && e == [] && rest == a + b
    ensures whole == [t] + rest
  {
  }

  lemma {:induction false} NestUnlabelled(vs: seq<Visit>, i: nat, hi: nat, text: Texts, endLabel: Texts)
    requires i < hi <= |vs| && endLabel(vs[i]) == ""
    ensures Nest(vs, i, hi, text, endLabel) == [Own(text(vs[i]))] + Nest(vs, i + 1, hi, text, endLabel)
  {
    NestTogether(vs, i, RunEnd(vs, i + 1, hi, Depth(vs[i].path)), hi, text, endLabel);
  }

  lemma {:induction false} NestTogether(vs: seq<Visit>, i: nat, k: nat, hi: nat, text: Texts, endLabel: Texts)
    requires i < k <= hi <= |vs| && endLabel(vs[i]) == "" && k == RunEnd(vs, i + 1, hi, Depth(vs[i].path))
    ensures Nest(vs, i, hi, text, endLabel) == [Own(text(vs[i]))] + Nest(vs, i + 1, hi, text, endLabel)
  {
    assert NestSplit(vs, i + 1, k, hi, text, endLabel) by {
      NestSplits(vs, i + 1, k, hi, Depth(vs[i].path), text, endLabel);
    }
    NestAt(vs, i, k, hi, text, endLabel);
    JoinNothing(Nest(vs, i, hi, text, endLabel), Own(text(vs[i])), Nest(vs, i + 1, k, text, endLabel),
      End(vs[i], endLabel), Nest(vs, k, hi, text, endLabel), Nest(vs, i + 1, hi, text, endLabel));
  }

  lemma PopsFirst(q: seq<Queued>, e: Queued, d: nat)
    requires d <= e.depth
    ensures Drained(q + [e], d) == [e.output] + Drained(q, d) && Kept(q + [e], d) == Kept(q, d)
  {
    assert (q + [e])[..|q|] == q;
  }

  lemma JoinPopped(e: Line, a: seq<Line>, t: seq<Line>, b: seq<Line>)
    ensures [e] + a + t + b == [e] + (a + t + b)
  {
  }

  /** A visit no deeper than the last entry, and the end of the run, make that entry come out first. */
  lemma {:induction false} OutputPops(vs: seq<Visit>, i: nat, q: seq<Queued>, e: Queued, text: Texts, endLabel: Texts)
    requires i <= |vs| && (i < |vs| ==> Depth(vs[i].path) <= e.depth)
    ensures Output(vs, i, q + [e], text, endLabel) == [e.output] + Output(vs, i, q, text, endLabel)
  {
    PopsFirst(q, e, if i == |vs| then 0 else Depth(vs[i].path));
    if i < |vs| {
      var d := Depth(vs[i].path);
      JoinPopped(e.output, Drained(q, d), [Own(text(vs[i]))],
        Output(vs, i + 1, Pushed(Kept(q, d), d, endLabel(vs[i])), text, endLabel));
    }
  }

  /** A visit deeper than everything queued drains nothing. */
  lemma {:induction false} OutputStep(vs: seq<Visit>, i: nat, q: seq<Queued>, text: Texts, endLabel: Texts)
    requires i < |vs| && (q == [] || q[|q| - 1].depth < Depth(vs[i].path))
    ensures Output(vs, i, q, text, endLabel)
      == [Own(text(vs[i]))] + Output(vs, i + 1, Pushed(q, Depth(vs[i].path), endLabel(vs[i])), text, endLabel)
  {
  }

  lemma JoinUnlabelled(t: Line, a: seq<Line>, e: seq<Line>, c: seq<Line>)
    ensures [t] + (a + e + c) == [t] + a + e + c
  {
  }

  lemma JoinLabelled(t: Line, a: seq<Line>, l: seq<Line>, b: seq<Line>, e: seq<Line>, c: seq<Line>)
    ensures [t] + (a + l + (b + e + c)) == [t] + a + l + b + e + c
  {
  }

  /** What `OutputUnder` states. */
  ghost predicate ComesOutAt(vs: seq<Visit>, i: nat, q: seq<Queued>, e: Queued, n: nat, text: Texts, endLabel: Texts)
    requires i <= n <= |vs|
  {
    Output(vs, i, q + [e], text, endLabel)
      == Nest(vs, i, n, text, endLabel) + [e.output] + Output(vs, n, q, text, endLabel)
  }

  lemma {:induction false} UnderPopped(vs: seq<Visit>, i: nat, q: seq<Queued>, e: Queued, text: Texts, endLabel: Texts)
    requires i <= |vs| && (i < |vs| ==> Depth(vs[i].path) <= e.depth)
    ensures ComesOutAt(vs, i, q, e, i, text, endLabel)
  {
    OutputPops(vs, i, q, e, text, endLabel);
    JoinFront(Nest(vs, i, i, text, endLabel), [e.output]);
  }

  lemma JoinFront(a: seq<Line>, b: seq<Line>)
    requires a == []
    ensures a + b == b
  {
  }

  lemma {:induction false} UnderUnlabelled(vs: seq<Visit>, i: nat, q: seq<Queued>, e: Queued, n: nat,
      text: Texts, endLabel: Texts)
    requires i < n <= |vs| && e.depth < Depth(vs[i].path) && endLabel(vs[i]) == ""
    requires ComesOutAt(vs, i + 1, q, e, n, text, endLabel)
    ensures ComesOutAt(vs, i, q, e, n, text, endLabel)
  {
    var inner, rest := Nest(vs, i + 1, n, text, endLabel), Output(vs, n, q, text, endLabel);
    OutputStep(vs, i, q + [e], text, endLabel);
    assert Output(vs, i, q + [e], text, endLabel) == [Own(text(vs[i]))] + (inner + [e.output] + rest);
    NestUnlabelled(vs, i, n, text, endLabel);
    JoinUnlabelled(Own(text(vs[i])), inner, [e.output], rest);
  }

  lemma {:induction false} UnderLabelled(vs: seq<Visit>, i: nat, q: seq<Queued>, e: Queued, k: nat, n: nat,
      text: Texts, endLabel: Texts)
    requires i < k <= n <= |vs| && e.depth < Depth(vs[i].path) && endLabel(vs[i]) != ""
    requires k == RunEnd(vs, i + 1, n, Depth(vs[i].path))
    requires ComesOutAt(vs, i + 1, q + [e], Queued(Depth(vs[i].path), EndOf(endLabel(vs[i]))), k, text, endLabel)
    requires ComesOutAt(vs, k, q, e, n, text, endLabel)
    ensures ComesOutAt(vs, i, q, e, n, text, endLabel)
  {
    var t, mark := Own(text(vs[i])), [EndOf(endLabel(vs[i]))];
    var inner, outer := Nest(vs, i + 1, k, text, endLabel), Nest(vs, k, n, text, endLabel);
    var rest := Output(vs, n, q, text, endLabel);
    OutputStep(vs, i, q + [e], text, endLabel);
    assert Output(vs, i, q + [e], text, endLabel) == [t] + (inner + mark + (outer + [e.output] + rest));
    JoinLabelled(t, inner, mark, outer, [e.output], rest);
    assert Nest(vs, i, n, text, endLabel) == [t] + inner + mark + outer;
  }

  /** An entry comes out right after everything deeper that follows directly. */
  lemma {:induction false} OutputUnder(vs: seq<Visit>, i: nat, q: seq<Queued>, e: Queued, n: nat,
      text: Texts, endLabel: Texts)
    requires i <= |vs| && n == RunEnd(vs, i, |vs|, e.depth)
    ensures ComesOutAt(vs, i, q, e, n, text, endLabel)
    decreases |vs| - i
  {
    if i == n {
      UnderPopped(vs, i, q, e, text, endLabel);
    } else if endLabel(vs[i]) == "" {
      OutputUnder(vs, i + 1, q, e, n, text, endLabel);
      UnderUnlabelled(vs, i, q, e, n, text, endLabel);
    } else {
      var d := Depth(vs[i].path);
      var k := RunEnd(vs, i + 1, |vs|, d);
      RunEndUnique(vs, i + 1, n, d, k);
      RunEndUnique(vs, k, |vs|, e.depth, n);
      OutputUnder(vs, i + 1, q + [e], Queued(d, EndOf(endLabel(vs[i]))), k, text, endLabel);
      OutputUnder(vs, k, q, e, n, text, endLabel);
      UnderLabelled(vs, i, q, e, k, n, text, endLabel);
    }
  }

  /** Every run that begins with nothing queued prints each end label once, after everything deeper
      that follows its visit directly and before anything else. */
  lemma {:induction false} OutputIsNest(vs: seq<Visit>, i: nat, text: Texts, endLabel: Texts)
    requires i <= |vs|
    ensures Output(vs, i, [], text, endLabel) == Nest(vs, i, |vs|, text, endLabel)
    decreases |vs| - i
  {
    if i < |vs| {
      OutputStep(vs, i, [], text, endLabel);
      if endLabel(vs[i]) == "" {
        OutputIsNest(vs, i + 1, text, endLabel);
        NestUnlabelled(vs, i, |vs|, text, endLabel);
      } else {
        var d := Depth(vs[i].path);
        var k := RunEnd(vs, i + 1, |vs|, d);
        OutputUnder(vs, i + 1, [], Queued(d, EndOf(endLabel(vs[i]))), k, text, endLabel);
        OutputIsNest(vs, k, text, endLabel);
        FirstLabelled(vs, i, k, text, endLabel);
      }
    }
  }

  lemma {:induction false} FirstLabelled(vs: seq<Visit>, i: nat, k: nat, text: Texts, endLabel: Texts)
    requires i < k <= |vs| && k == RunEnd(vs, i + 1, |vs|, Depth(vs[i].path)) && endLabel(vs[i]) != ""
    requires ComesOutAt(vs, i + 1, [], Queued(Depth(vs[i].path), EndOf(endLabel(vs[i]))), k, text, endLabel)
    requires Output(vs, k, [], text, endLabel) == Nest(vs, k, |vs|, text, endLabel)
    ensures Output(vs, i, [], text, endLabel) == Nest(vs, i, |vs|, text, endLabel)
  {
    var e := Queued(Depth(vs[i].path), EndOf(endLabel(vs[i])));
    OutputStep(vs, i, [], text, endLabel);
    assert Pushed([], Depth(vs[i].path), endLabel(vs[i])) == [] + [e];
    JoinUnlabelled(Own(text(vs[i])), Nest(vs, i + 1, k, text, endLabel), [e.output], Nest(vs, k, |vs|, text, endLabel));
  }

  // ---------------------------------------------------------------- over a tree

  /** One node's own text, the text of its parts unless it is cut off there, and its end label. */
  function BracketsOf(t: Tree, path: Path, cut: Visit -> bool, text: Texts, endLabel: Texts): seq<Line>
    decreases t, 0
  {
    var v := Visit(t, path);
    [Own(text(v))]
    + (if t.Container? && !cut(v) then Brackets(t.parts, 0, path, cut, text, endLabel) else [])
    + End(v, endLabel)
  }

  /** Beginnings and ends properly nested, by the shape of the tree without its cut subtrees. */
  function Brackets(ts: seq<Tree>, from: nat, encl: Path, cut: Visit -> bool, text: Texts, endLabel: Texts): seq<Line>
    decreases ts, |ts| - from
  {
    if |ts| <= from then [] else
    BracketsOf(ts[from], Child(encl, from), cut, text, endLabel) + Brackets(ts, from + 1, encl, cut, text, endLabel)
  }

  // ---------------------------------------------------------------- what is printed, line by line

  /** The visits' own texts among the lines. */
  function OwnTexts(ls: seq<Line>): seq<string> {
    if ls == [] then [] else (if ls[0].Own? then [ls[0].text] else []) + OwnTexts(ls[1..])
  }

  /** The end labels among the lines. */
  function EndNames(ls: seq<Line>): seq<string> {
    if ls == [] then [] else (if ls[0].EndOf? then [ls[0].name] else []) + EndNames(ls[1..])
  }

  /** The end labels that visits have. */
  function Labels(vs: seq<Visit>, endLabel: Texts): seq<string> {
    if vs == [] then [] else (if endLabel(vs[0]) == "" then [] else [endLabel(vs[0])]) + Labels(vs[1..], endLabel)
  }

  lemma {:induction false} OwnTextsJoin(a: seq<Line>, b: seq<Line>)
    ensures OwnTexts(a + b) == OwnTexts(a) + OwnTexts(b)
  {
    if a == [] {
      assert a + b == b;
    } else {
      assert (a + b)[1..] == a[1..] + b;
      OwnTextsJoin(a[1..], b);
    }
  }

  lemma {:induction false} EndNamesJoin(a: seq<Line>, b: seq<Line>)
    ensures EndNames(a + b) == EndNames(a) + EndNames(b)
  {
    if a == [] {
      assert a + b == b;
    } else {
      assert (a + b)[1..] == a[1..] + b;
      EndNamesJoin(a[1..], b);
    }
  }

  lemma LinesJoin(a: seq<Line>, b: seq<Line>)
    ensures OwnTexts(a + b) == OwnTexts(a) + OwnTexts(b) && EndNames(a + b) == EndNames(a) + EndNames(b)
  {
    OwnTextsJoin(a, b);
    EndNamesJoin(a, b);
  }

  lemma {:induction false} LabelsJoin(vs: seq<Visit>, ws: seq<Visit>, endLabel: Texts)
    ensures Labels(vs + ws, endLabel) == Labels(vs, endLabel) + Labels(ws, endLabel)
  {
    if vs == [] {
      assert vs + ws == ws;
    } else {
      assert (vs + ws)[1..] == vs[1..] + ws;
      LabelsJoin(vs[1..], ws, endLabel);
    }
  }

  /** The lines have the text of each visit once, in order, and the end label of each visit that has one
      once. */
  ghost predicate Prints(ls: seq<Line>, vs: seq<Visit>, text: Texts, endLabel: Texts) {
    OwnTexts(ls) == TextsOf(vs, text) && SameNames(EndNames(ls), Labels(vs, endLabel))
  }

  function TextsOf(vs: seq<Visit>, text: Texts): seq<string> {
    seq(|vs|, i requires 0 <= i < |vs| => text(vs[i]))
  }

  predicate SameNames(a: seq<string>, b: seq<string>) {
    multiset(a) == multiset(b)
  }

  lemma SameNamesJoin(a: seq<string>, b: seq<string>, c: seq<string>, d: seq<string>)
    requires SameNames(a, c) && SameNames(b, d)
    ensures SameNames(a + b, c + d)
  {
  }

  /** A name may be moved from the front to the back. */
  lemma SameNamesTurned(n: seq<string>, a: seq<string>, b: seq<string>)
    requires SameNames(a, b)
    ensures SameNames(a + n, n + b)
  {
  }

  lemma TextsJoin(vs: seq<Visit>, ws: seq<Visit>, text: Texts)
    ensures TextsOf(vs + ws, text) == TextsOf(vs, text) + TextsOf(ws, text)
  {
  }

  lemma PrintsJoin(a: seq<Line>, b: seq<Line>, vs: seq<Visit>, ws: seq<Visit>, text: Texts, endLabel: Texts)
    requires Prints(a, vs, text, endLabel) && Prints(b, ws, text, endLabel)
    ensures Prints(a + b, vs + ws, text, endLabel)
  {
    LinesJoin(a, b);
    LabelsJoin(vs, ws, endLabel);
    TextsJoin(vs, ws, text);
    SameNamesJoin(EndNames(a), EndNames(b), Labels(vs, endLabel), Labels(ws, endLabel));
  }

  /** A thing's text comes first of all its lines and its end label last. */
  lemma {:induction false} TreePrints(t: Tree, path: Path, cut: Visit -> bool, text: Texts, endLabel: Texts)
    ensures var v, ls := Visit(t, path), BracketsOf(t, path, cut, text, endLabel);
      && ls != [] && ls[0] == Own(text(v)) && (endLabel(v) != "" ==> ls[|ls| - 1] == EndOf(endLabel(v)))
      && Prints(ls, CutPreorderOf(t, path, cut), text, endLabel)
    decreases t, 0
  {
    var v, vs := Visit(t, path), CutPreorder(UncutParts(t, path, cut), 0, path, cut);
    var ls := if t.Container? && !cut(v) then Brackets(t.parts, 0, path, cut, text, endLabel) else [];
    if t.Container? && !cut(v) {
      BracketsPrint(t.parts, 0, path, cut, text, endLabel);
    }
    AroundPrints(v, ls, vs, text, endLabel);
  }

  lemma AroundPrints(v: Visit, ls: seq<Line>, vs: seq<Visit>, text: Texts, endLabel: Texts)
    requires Prints(ls, vs, text, endLabel)
    ensures Prints([Own(text(v))] + ls + End(v, endLabel), [v] + vs, text, endLabel)
  {
    var own, end := [Own(text(v))], End(v, endLabel);
    LinesJoin(own + ls, end);
    LinesJoin(own, ls);
    LabelsJoin([v], vs, endLabel);
    TextsJoin([v], vs, text);
    LinesOfOne(v, text, endLabel);
    SameNamesTurned(Labels([v], endLabel), EndNames(ls), Labels(vs, endLabel));
  }

  lemma LinesOfOne(v: Visit, text: Texts, endLabel: Texts)
    ensures OwnTexts([Own(text(v))]) == TextsOf([v], text) && EndNames([Own(text(v))]) == []
    ensures OwnTexts(End(v, endLabel)) == [] && EndNames(End(v, endLabel)) == Labels([v], endLabel)
  {
  }

  /** So every text is printed in the order of the walk, and every end label once. */
  lemma {:induction false} BracketsPrint(ts: seq<Tree>, from: nat, encl: Path, cut: Visit -> bool, text: Texts,
      endLabel: Texts)
    ensures Prints(Brackets(ts, from, encl, cut, text, endLabel), CutPreorder(ts, from, encl, cut), text, endLabel)
    decreases ts, |ts| - from
  {
    if from < |ts| {
      TreePrints(ts[from], Child(encl, from), cut, text, endLabel);
      BracketsPrint(ts, from + 1, encl, cut, text, endLabel);
      PrintsJoin(BracketsOf(ts[from], Child(encl, from), cut, text, endLabel),
        Brackets(ts, from + 1, encl, cut, text, endLabel),
        CutPreorderOf(ts[from], Child(encl, from), cut), CutPreorder(ts, from + 1, encl, cut), text, endLabel);
    }
  }

  /** Wherever the pre-order of a cut tree stands in a list of visits, what follows a node directly and is
      deeper is exactly what is walked of the node's parts. */
  lemma {:induction false} NestOfPreorder(vs: seq<Visit>, i: nat, hi: nat, ts: seq<Tree>, from: nat, encl: Path,
      cut: Visit -> bool, text: Texts, endLabel: Texts)
    requires i <= hi <= |vs| && vs[i..hi] == CutPreorder(ts, from, encl, cut)
    ensures Nest(vs, i, hi, text, endLabel) == Brackets(ts, from, encl, cut, text, endLabel)
    decreases ts, |ts| - from
  {
    if from < |ts| {
      var k := TreeEnd(vs, i, hi, ts, from, encl, cut);
      NestOfParts(vs, i + 1, k, ts[from], Child(encl, from), cut, text, endLabel);
      NestOfPreorder(vs, k, hi, ts, from + 1, encl, cut, text, endLabel);
      NestAt(vs, i, k, hi, text, endLabel);
    } else {
      assert i == hi;
    }
  }

  lemma {:induction false} NestAt(vs: seq<Visit>, i: nat, k: nat, hi: nat, text: Texts, endLabel: Texts)
    requires i < hi <= |vs| && k == RunEnd(vs, i + 1, hi, Depth(vs[i].path))
    ensures Nest(vs, i, hi, text, endLabel) == [Own(text(vs[i]))] + Nest(vs, i + 1, k, text, endLabel)
      + End(vs[i], endLabel) + Nest(vs, k, hi, text, endLabel)
  {
  }

  lemma {:induction false} NestOfParts(vs: seq<Visit>, i: nat, hi: nat, t: Tree, p: Path, cut: Visit -> bool,
      text: Texts, endLabel: Texts)
    requires i <= hi <= |vs| && vs[i..hi] == CutPreorder(UncutParts(t, p, cut), 0, p, cut)
    ensures Nest(vs, i, hi, text, endLabel)
      == if t.Container? && !cut(Visit(t, p)) then Brackets(t.parts, 0, p, cut, text, endLabel) else []
    decreases t, 0
  {
    if t.Container? && !cut(Visit(t, p)) {
      NestOfPreorder(vs, i, hi, t.parts, 0, p, cut, text, endLabel);
    }
  }

  /** Where the first tree of a pre-order ends. */
  lemma TreeEnd(vs: seq<Visit>, i: nat, hi: nat, ts: seq<Tree>, from: nat, encl: Path, cut: Visit -> bool)
    returns (k: nat)
    requires i <= hi <= |vs| && vs[i..hi] == CutPreorder(ts, from, encl, cut) && from < |ts|
    ensures i < k <= hi && vs[i] == Visit(ts[from], Child(encl, from))
    ensures var p := Child(encl, from); vs[i + 1..k] == CutPreorder(UncutParts(ts[from], p, cut), 0, p, cut)
    ensures vs[k..hi] == CutPreorder(ts, from + 1, encl, cut)
    ensures k == RunEnd(vs, i + 1, hi, Depth(vs[i].path))
  {
    var p := Child(encl, from);
    var parts := UncutParts(ts[from], p, cut);
    var v, inner, outer := Visit(ts[from], p), CutPreorder(parts, 0, p, cut), CutPreorder(ts, from + 1, encl, cut);
    assert vs[i..hi] == [v] + inner + outer;
    k := i + 1 + |inner|;
    SlicesOf(vs, i, hi, v, inner, outer);
    CutPreorderBelow(parts, 0, p, cut);
    if from + 1 < |ts| {
      assert CutPreorderOf(ts[from + 1], Child(encl, from + 1), cut)[0].path == Child(encl, from + 1);
      assert vs[k] == vs[k..hi][0];
    }
    forall j | i + 1 <= j < k
      ensures Depth(p) < Depth(vs[j].path)
    {
      assert vs[j] == inner[j - i - 1];
    }
    RunEndUnique(vs, i + 1, hi, Depth(p), k);
  }

  lemma SlicesOf(vs: seq<Visit>, i: nat, hi: nat, v: Visit, a: seq<Visit>, b: seq<Visit>)
    requires i <= hi <= |vs| && vs[i..hi] == [v] + a + b
    ensures hi == i + 1 + |a| + |b| && vs[i] == v && vs[i + 1..i + 1 + |a|] == a && vs[i + 1 + |a|..hi] == b
  {
    var s := vs[i..hi];
    assert s[0] == v && s[1..1 + |a|] == a && s[1 + |a|..] == b;
    assert forall j :: 0 <= j < |s| ==> vs[i + j] == s[j];
  }

  // ---------------------------------------------------------------- the queue

  class EndQueue {
    var queued: array<Queued>
    var used: nat

    ghost predicate Valid()
      reads this, queued
    {
      used <= queued.Length && Ascending(queued[..used])
    }

    ghost function Contents(): seq<Queued>
      reads this, queued
      requires used <= queued.Length
    {
      queued[..used]
    }

    constructor ()
      ensures Valid() && Contents() == [] && fresh(queued)
    {
      queued := new Queued[0];
      used := 0;
    }

    /** Take the last entry out, clearing its slot. */
    method PopLast() returns (line: Line)
      requires 0 < used <= queued.Length
      modifies this`used, queued
      ensures used == old(used) - 1 && used <= queued.Length
      ensures Contents() == old(Contents())[..used] && line == old(Contents())[used].output
    {
      line := queued[used - 1].output;
      queued[used - 1] := Queued(0, EndOf(""));
      used := used - 1;
    }

    /** What is left to drain and what has been printed always make up what was to be printed. */
    ghost predicate Draining(all: seq<Queued>, depth: nat, out: seq<Line>)
      reads this, queued
    {
      && used <= queued.Length && Contents() <= all && Kept(Contents(), depth) == Kept(all, depth)
      && out + Drained(Contents(), depth) == Drained(all, depth)
    }

    /** Print, last first, what is queued from depths at or below the given one. */
    method Drain(depth: nat) returns (out: seq<Line>)
      requires Valid()
      modifies this`used, queued
      ensures Valid() && Contents() == Kept(old(Contents()), depth) && out == Drained(old(Contents()), depth)
    {
      ghost var all := Contents();
      out := [];
      assert [] + Drained(all, depth) == Drained(all, depth);
      while used > 0 && queued[used - 1].depth >= depth
        invariant Draining(all, depth, out)
        decreases used
      {
        var line := DrainLast(all, depth, out);
        out := out + [line];
      }
      DrainEnds(Contents(), depth, out);
    }

    method DrainLast(ghost all: seq<Queued>, ghost depth: nat, ghost out: seq<Line>) returns (line: Line)
      requires Draining(all, depth, out) && 0 < used && depth <= queued[used - 1].depth
      modifies this`used, queued
      ensures used == old(used) - 1 && Draining(all, depth, out + [line])
    {
      DrainedStep(Contents(), depth, out);
      line := PopLast();
    }

    /** Make room for one more, four times as much as before. */
    method Grow()
      requires Valid()
      modifies this`queued
      ensures Valid() && Contents() == old(Contents()) && used < queued.Length
      ensures queued == old(queued) || fresh(queued)
    {
      if used == queued.Length {
        var size := if queued.Length != 0 then 4 * queued.Length else 4;
        var more := new Queued[size](i requires 0 <= i < size reads this, queued =>
          if i < queued.Length then queued[i] else Queued(0, EndOf("")));
        assert more[..used] == queued[..used];
        queued := more;
      }
    }

    /** What the callback does with the queue at a visit: drain it to the visit's depth, print the
        visit's own text, and queue its end label if it has one. */
    method Emit(depth: nat, text: string, endLabel: string) returns (out: seq<Line>)
      requires Valid()
      modifies this, queued
      ensures Valid() && (queued == old(queued) || fresh(queued))
      ensures Contents() == Pushed(Kept(old(Contents()), depth), depth, endLabel)
      ensures out == Drained(old(Contents()), depth) + [Own(text)]
    {
      PushedAscends(Contents(), depth, endLabel);
      out := Drain(depth);
      out := out + [Own(text)];
      if endLabel != "" {
        Enqueue(Queued(depth, EndOf(endLabel)));
      }
    }

    /** Put an entry at the end, growing the array if needed. */
    method Enqueue(e: Queued)
      requires Valid() && Ascending(Contents() + [e])
      modifies this, queued
      ensures Valid() && (queued == old(queued) || fresh(queued)) && Contents() == old(Contents()) + [e]
    {
      Grow();
      ghost var q := Contents();
      queued[used] := e;
      used := used + 1;
      assert Contents() == q + [e];
    }
  }

  /** The callback over any run of visits, and the last drain. */
  method EmitAll(vs: seq<Visit>, text: Texts, endLabel: Texts) returns (out: seq<Line>)
    ensures out == Nest(vs, 0, |vs|, text, endLabel)
  {
    var q := new EndQueue();
    out := [];
    var i := 0;
    while i < |vs|
      invariant 0 <= i <= |vs| && q.Valid() && fresh(q) && fresh(q.queued)
      invariant out + Output(vs, i, q.Contents(), text, endLabel) == Output(vs, 0, [], text, endLabel)
    {
      OutputOnce(vs, i, q.Contents(), out, text, endLabel);
      var more := q.Emit(Depth(vs[i].path), text(vs[i]), endLabel(vs[i]));
      out := out + more;
      i := i + 1;
    }
    var last := q.Drain(0);
    out := out + last;
    OutputIsNest(vs, 0, text, endLabel);
  }

  /** The callback's reply: to skip what is below a visit it has printed whole, and else to carry on. */
  function Replies(cut: Visit -> bool): Client {
    made => if made != [] && cut(made[|made| - 1]) then SKIP_SUBTREE else CARRY_ON
  }

  /** A whole walk and the last drain print the tree without its cut subtrees, properly nested; a cut node
      keeps its own text and its end label. */
  method EmitMemoryAsm(ts: seq<Tree>, cut: Visit -> bool, text: Texts, endLabel: Texts)
    returns (ret: int, out: seq<Line>)
    ensures ret == 0 && out == Brackets(ts, 0, Start, cut, text, endLabel)
  {
    var calls;
    ret, calls := WalkAllocationsDf(ts, Replies(cut));
    CutWalk(ts, 0, Start, Replies(cut), cut, []);
    out := EmitAll(calls, text, endLabel);
    assert [] + CutPreorder(ts, 0, Start, cut) == CutPreorder(ts, 0, Start, cut);
    NestOfPreorder(calls, 0, |calls|, ts, 0, Start, cut, text, endLabel);
  }
}
