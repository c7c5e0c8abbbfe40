/** The operand stack of the DWARF expression machine, kept in a chain of sections, and evaluation of
    straight-line programs on it. */
module DwarfMachine {
  import opened Options

  // ---------------------------------------------------------------- the flat machine

  datatype Op = Dup | Nop | Mod | Plus | Mul | Lit2

  /** What a 64-bit signed word can hold. */
  predicate Fits(x: int) {
    -0x8000_0000_0000_0000 <= x < 0x8000_0000_0000_0000
  }

  /** The remainder of division that rounds towards zero. */
  function Remainder(a: int, b: int): (r: int)
    requires b != 0
    ensures a != 0 && r != 0 ==> (r < 0 <==> a < 0)
    ensures -(if b < 0 then -b else b) < r < (if b < 0 then -b else b)
  {
    if a < 0 then -(-a % b) else a % b
  }

  /** The quotient that goes with it. */
  function Quotient(a: int, b: int): int
    requires b != 0
  {
    if a < 0 then -(-a / b) else a / b
  }

  /** Quotient and remainder are those of C: together they make up the dividend, and the remainder is
      smaller than the divisor and has the sign of the dividend. */
  lemma DivisionIsC(a: int, b: int)
    requires b != 0
    ensures a == Quotient(a, b) * b + Remainder(a, b)
  {
    if a < 0 {
      var q, r := -a / b, -a % b;
      assert -a == q * b + r;
      assert -q * b == -(q * b);
    }
  }

  /** What an operation computes from the second word and the top; nothing where C leaves the result
      undefined. */
  function Binary(op: Op, a: int, b: int): Option<int> {
    match op
    case Plus => if Fits(a + b) then Some(a + b) else None
    case Mul => if Fits(a * b) then Some(a * b) else None
    case Mod => if b == 0 || (b == -1 && !Fits(-a)) then None else Some(Remainder(a, b))
    case _ => None
  }

  /** The flat stack after one operation, with its top at the front. */
  function Step(op: Op, s: seq<int>): Option<seq<int>> {
    match op
    case Nop => Some(s)
    case Lit2 => Some([2] + s)
    case Dup => if s == [] then None else Some([s[0]] + s)
    case _ =>
      if |s| < 2 then None else
      var r := Binary(op, s[1], s[0]);
      if r.None? then None else Some([r.value] + s[2..])
  }

  // ---------------------------------------------------------------- what the operations mean

  /** When C gives a 64-bit operation a result. */
  predicate Defined(op: Op, a: int, b: int) {
    match op
    case Plus => -0x8000_0000_0000_0000 <= a + b <= 0x7fff_ffff_ffff_ffff
    case Mul => -0x8000_0000_0000_0000 <= a * b <= 0x7fff_ffff_ffff_ffff
    case Mod => b != 0 && (b == -1 ==> -0x8000_0000_0000_0000 <= -a <= 0x7fff_ffff_ffff_ffff)
    case _ => false
  }

  /** `r` is what is left of `a` after some whole number of `b`s: nearer to zero than `b`, and not on the
      other side of zero from `a`. */
  ghost predicate LeftOver(a: int, b: int, r: int) {
    && (exists q: int :: a == Times(q, b) + r)
    && -(if b < 0 then -b else b) < r < (if b < 0 then -b else b)
    && (a <= 0 ==> r <= 0) && (0 <= a ==> 0 <= r)
  }

  function Times(q: int, b: int): int {
    q * b
  }

  /** The top two words have been replaced by their sum, their product, or what is left of the second after
      division by the top. */
  ghost predicate Replaced(op: Op, s: seq<int>, r: seq<int>)
    requires 2 <= |s|
  {
    && |r| == |s| - 1 && r[1..] == s[2..]
    && (op.Plus? ==> r[0] == s[1] + s[0])
    && (op.Mul? ==> r[0] == s[1] * s[0])
    && (op.Mod? ==> LeftOver(s[1], s[0], r[0]))
  }

  lemma RemainderIsLeft(a: int, b: int)
    requires b != 0
    ensures LeftOver(a, b, Remainder(a, b))
  {
    DivisionIsC(a, b);
    assert a == Times(Quotient(a, b), b) + Remainder(a, b);
  }

  /** What is left is determined. */
  lemma LeftOverUnique(a: int, b: int, r: int, r': int)
    requires b != 0 && LeftOver(a, b, r) && LeftOver(a, b, r')
    ensures r == r'
  {
    var q: int :| a == Times(q, b) + r;
    var q': int :| a == Times(q', b) + r';
    MultiplesApart(q - q', b);
    assert Times(q - q', b) == Times(q, b) - Times(q', b);
  }

  /** A multiple of `b` other than 0 is at least as far from 0 as `b` is. */
  lemma MultiplesApart(d: int, b: int)
    ensures var m, t := if b < 0 then -b else b, Times(d, b);
      if d == 0 then t == 0 else t <= -m || m <= t
  {
    if 1 <= d {
      assert Times(d, b) == Times(d - 1, b) + b;
      SignOfTimes(d - 1, b);
    } else if d <= -1 {
      assert Times(d, b) == Times(d + 1, b) - b;
      SignOfTimes(-(d + 1), b);
      assert Times(-(d + 1), b) == -Times(d + 1, b);
    }
  }

  lemma SignOfTimes(n: nat, b: int)
    ensures (0 <= b ==> 0 <= Times(n, b)) && (b <= 0 ==> Times(n, b) <= 0)
  {
  }

  lemma StepMeans(op: Op, s: seq<int>)
    requires op.Mod? || op.Plus? || op.Mul?
    ensures Step(op, s).Some? <==> 2 <= |s| && Defined(op, s[1], s[0])
    ensures Step(op, s).Some? ==> Replaced(op, s, Step(op, s).value)
  {
    if op.Mod? && 2 <= |s| && s[0] != 0 {
      RemainderIsLeft(s[1], s[0]);
    }
  }

  /** The other operations push 2, push a copy of the top, and do nothing. */
  lemma PushesMean(s: seq<int>)
    ensures Step(Lit2, s) == Some([2] + s) && Step(Nop, s) == Some(s)
    ensures Step(Dup, s).Some? <==> s != []
    ensures s != [] ==> Step(Dup, s) == Some([s[0], s[0]] + s[1..])
  {
    assert s != [] ==> [s[0]] + s == [s[0], s[0]] + s[1..];
  }

  /** The result of a program: the top of the stack it leaves. */
  function Run(program: seq<Op>, s: seq<int>): Option<int>
    decreases |program|
  {
    if program == [] then (if s == [] then None else Some(s[0])) else
    var s' := Step(program[0], s);
    if s'.None? then None else Run(program[1..], s'.value)
  }

  // ---------------------------------------------------------------- laws of programs

  lemma RunOne(op: Op, rest: seq<Op>, s: seq<int>)
    ensures Run([op] + rest, s) == var s' := Step(op, s); if s'.None? then None else Run(rest, s'.value)
  {
    assert ([op] + rest)[1..] == rest;
  }

  lemma RunTwo(p: Op, q: Op, s: seq<int>)
    ensures Run([p, q], s) == var s' := Step(p, s);
      if s'.None? then None else
      var s'' := Step(q, s'.value);
      if s''.None? || s''.value == [] then None else Some(s''.value[0])
  {
    assert [p, q] == [p] + [q] && [q] == [q] + [];
    RunOne(p, [q], s);
    if Step(p, s).Some? {
      RunOne(q, [], Step(p, s).value);
    }
  }

  /** A program that adds a number to itself and one that multiplies it by 2 give the same on every stack,
      and it is twice the number when that fits. */
  lemma DoublingIsTimesTwo(s: seq<int>)
    ensures Run([Dup, Plus], s) == Run([Lit2, Mul], s)
    ensures s != [] ==>
      var d := 2 * s[0];
      Run([Dup, Plus], s) == if -0x8000_0000_0000_0000 <= d <= 0x7fff_ffff_ffff_ffff then Some(d) else None
  {
    if s == [] {
      RunTwo(Dup, Plus, s);
      RunTwo(Lit2, Mul, s);
    } else {
      PlusDoubles(s);
      MulDoubles(s);
    }
  }

  function Twice(a: int): Option<int> {
    if -0x8000_0000_0000_0000 <= 2 * a <= 0x7fff_ffff_ffff_ffff then Some(2 * a) else None
  }

  lemma PlusDoubles(s: seq<int>)
    requires s != []
    ensures Run([Dup, Plus], s) == Twice(s[0])
  {
    RunTwo(Dup, Plus, s);
    PushesMean(s);
    Doubled(s[0], s[1..]);
  }

  lemma MulDoubles(s: seq<int>)
    requires s != []
    ensures Run([Lit2, Mul], s) == Twice(s[0])
  {
    RunTwo(Lit2, Mul, s);
    PushesMean(s);
    Doubled(s[0], s[1..]);
    assert [2] + s == [2, s[0]] + s[1..];
  }

  lemma Doubled(a: int, rest: seq<int>)
    ensures Step(Plus, [a, a] + rest) == Step(Mul, [2, a] + rest)
    ensures Step(Plus, [a, a] + rest) == if Twice(a).None? then None else Some([2 * a] + rest)
  {
    assert ([a, a] + rest)[2..] == rest && ([2, a] + rest)[2..] == rest;
  }

  /** Adding and multiplying do not depend on the order of the arguments. */
  lemma OrderIsIrrelevant(a: int, b: int)
    ensures Run([Nop, Plus], [a, b]) == Run([Nop, Plus], [b, a])
    ensures Run([Nop, Mul], [a, b]) == Run([Nop, Mul], [b, a])
  {
    RunTwo(Nop, Plus, [a, b]);
    RunTwo(Nop, Plus, [b, a]);
    RunTwo(Nop, Mul, [a, b]);
    RunTwo(Nop, Mul, [b, a]);
    assert a * b == b * a;
  }

  /** What is left after division by 2 tells odd from even, with the sign of the number. */
  lemma RemainderOfTwo(s: seq<int>)
    requires s != []
    ensures var r := Run([Lit2, Mod], s);
      && r.Some? && (r.value == 0 <==> s[0] % 2 == 0)
      && (r.value == 0 || r.value == if s[0] < 0 then -1 else 1)
  {
    RunTwo(Lit2, Mod, s);
    PushesMean(s);
    StepMeans(Mod, [2] + s);
    var r := Run([Lit2, Mod], s).value;
    assert LeftOver(s[0], 2, r);
    var q: int :| s[0] == Times(q, 2) + r;
  }

  /** Doing nothing anywhere in a program makes no difference. */
  lemma {:induction false} NopIsNothing(p: seq<Op>, q: seq<Op>, s: seq<int>)
    ensures Run(p + [Nop] + q, s) == Run(p + q, s)
    decreases |p|
  {
    if p == [] {
      assert p + [Nop] + q == [Nop] + q && p + q == q;
      RunOne(Nop, q, s);
    } else {
      assert p + [Nop] + q == [p[0]] + (p[1..] + [Nop] + q) && p + q == [p[0]] + (p[1..] + q);
      RunOne(p[0], p[1..] + [Nop] + q, s);
      RunOne(p[0], p[1..] + q, s);
      if Step(p[0], s).Some? {
        NopIsNothing(p[1..], q, Step(p[0], s).value);
      }
    }
  }

  // ---------------------------------------------------------------- sections

  class StackSection {
    const words: array<int>
    /** How many words at the front are not in use; the next one is the top. */
    var nspare: nat
    const prev: StackSection?

    ghost const height: nat
    ghost const repr: set<object>

    ghost predicate Valid()
      reads this, repr
      decreases height
    {
      && this in repr && words in repr && nspare <= words.Length
      && (prev != null ==> && prev in repr && prev.repr <= repr && prev.height < height
                           && this !in prev.repr && words !in prev.repr && prev.Valid())
    }

    /** The whole stack, from the top. */
    ghost function Flat(): seq<int>
      reads this, repr
      requires Valid()
      decreases height
    {
      words[nspare..] + (if prev == null then [] else prev.Flat())
    }

    /** A section of `n` words, all in use at once, in front of another or at the bottom. */
    constructor (n: nat, prev: StackSection?)
      requires prev != null ==> prev.Valid()
      ensures Valid() && this.prev == prev && |Flat()| == n + (if prev == null then 0 else |prev.Flat()|)
      ensures fresh(repr - (if prev == null then {} else prev.repr))
      ensures prev != null ==> prev.repr <= repr && prev.Valid() && Flat()[n..] == prev.Flat() == old(prev.Flat())
    {
      words := new int[n];
      nspare := 0;
      this.prev := prev;
      height := if prev == null then 0 else prev.height + 1;
      repr := {this, words} + (if prev == null then {} else prev.repr);
    }

    /** The word at an offset from the top, if the stack is that deep. */
    method Get(offset: int) returns (r: Option<int>)
      requires Valid()
      ensures r == if 0 <= offset < |Flat()| then Some(Flat()[offset]) else None
      decreases height
    {
      if offset < 0 {
        return None;
      }
      if offset < words.Length - nspare {
        return Some(words[nspare + offset]);
      }
      if prev == null {
        return None;
      }
      r := prev.Get(offset - (words.Length - nspare));
    }

    /** Replace the word at an offset from the top. */
    method Set(offset: int, v: int) returns (ok: bool)
      requires Valid()
      modifies repr
      ensures Valid() && ok == (0 <= offset < |old(Flat())|)
      ensures Flat() == if ok then old(Flat())[offset := v] else old(Flat())
      decreases height
    {
      if offset < 0 {
        return false;
      }
      if offset < words.Length - nspare {
        words[nspare + offset] := v;
        return true;
      }
      if prev == null {
        return false;
      }
      ok := prev.Set(offset - (words.Length - nspare), v);
    }

    /** Drop words from the top, in this section and the ones behind it. */
    method DropN(n: nat) returns (ok: bool)
      requires Valid()
      modifies repr
      ensures Valid() && ok == (n <= |old(Flat())|)
      ensures ok ==> Flat() == old(Flat())[n..]
      decreases height
    {
      var ours := words.Length - nspare;
      if n <= ours {
        nspare := nspare + n;
        return true;
      }
      nspare := words.Length;
      if prev == null {
        return false;
      }
      ok := prev.DropN(n - ours);
    }
  }

  // ---------------------------------------------------------------- evaluation

  /** Put the literal 2 in front of a stack, in a section of its own. */
  method PushTwo(end: StackSection) returns (e: StackSection)
    requires end.Valid()
    modifies end.repr
    ensures e.Valid() && fresh(e.repr - end.repr) && e.Flat() == [2] + old(end.Flat())
  {
    e := new StackSection(1, end);
    FirstReplaced(e.Flat(), 2);
    var _ := e.Set(0, 2);
  }

  lemma FirstReplaced(s: seq<int>, v: int)
    requires s != []
    ensures s[0 := v] == [v] + s[1..]
  {
  }

  /** Put a copy of the top in front of a stack, in a section of its own. */
  method Duplicate(end: StackSection) returns (e: StackSection, ok: bool)
    requires end.Valid()
    modifies end.repr
    ensures e.Valid() && fresh(e.repr - end.repr) && ok == (old(end.Flat()) != [])
    ensures ok ==> e.Flat() == [old(end.Flat())[0]] + old(end.Flat())
  {
    ghost var s := end.Flat();
    e := new StackSection(1, end);
    ghost var s1 := e.Flat();
    var top := e.Get(1);
    TopCopied(s1, s);
    if top.None? {
      return e, false;
    }
    ok := e.Set(0, top.value);
  }

  lemma TopCopied(s1: seq<int>, s: seq<int>)
    requires |s1| == |s| + 1 && s1[1..] == s
    ensures s != [] ==> s1[1] == s[0] && s1[0 := s1[1]] == [s[0]] + s
  {
    assert s != [] ==> s1[1..][0] == s1[1];
  }

  /** Assign to the second word and drop the top. */
  method ReplaceTopTwo(end: StackSection, v: int)
    requires end.Valid() && 2 <= |end.Flat()|
    modifies end.repr
    ensures end.Valid() && end.Flat() == [v] + old(end.Flat())[2..]
  {
    ghost var s := end.Flat();
    SecondReplaced(s, v);
    var _ := end.Set(1, v);
    var _ := end.DropN(1);
  }

  lemma SecondReplaced(s: seq<int>, v: int)
    requires 2 <= |s|
    ensures s[1 := v][1..] == [v] + s[2..]
  {
  }

  /** Replace the top two words by what an operation makes of them. */
  method Combine(end: StackSection, op: Op) returns (ok: bool)
    requires end.Valid() && (op.Mod? || op.Plus? || op.Mul?)
    modifies end.repr
    ensures end.Valid() && ok == Step(op, old(end.Flat())).Some?
    ensures ok ==> end.Flat() == Step(op, old(end.Flat())).value
    ensures ok <==> 2 <= |old(end.Flat())| && Defined(op, old(end.Flat())[1], old(end.Flat())[0])
    ensures ok ==> Replaced(op, old(end.Flat()), end.Flat())
  {
    StepMeans(op, end.Flat());
    var a := end.Get(1);
    var b := end.Get(0);
    if a.None? || b.None? {
      return false;
    }
    var r := Binary(op, a.value, b.value);
    if r.None? {
      return false;
    }
    ReplaceTopTwo(end, r.value);
    ok := true;
  }

  /** Evaluate a program; where its sections lie makes no difference to the result. */
  method Eval(program: seq<Op>, end: StackSection) returns (r: Option<int>)
    requires end.Valid()
    modifies end.repr
    ensures r == Run(program, old(end.Flat()))
    decreases |program|
  {
    if program == [] {
      r := end.Get(0);
      return;
    }
    match program[0]
    case Nop =>
      r := Eval(program[1..], end);
    case Lit2 =>
      var e := PushTwo(end);
      r := Eval(program[1..], e);
    case Dup =>
      var e, ok := Duplicate(end);
      if !ok {
        return None;
      }
      r := Eval(program[1..], e);
    case op =>
      var ok := Combine(end, op);
      if !ok {
        return None;
      }
      r := Eval(program[1..], end);
  }

  /** Evaluate a program on up to two arguments, the first on top. */
  method Invoke(program: seq<Op>, args: seq<int>) returns (r: Option<int>)
    requires |args| <= 2
    ensures r == Run(program, args)
  {
    var end := new StackSection(|args|, null);
    if |args| > 0 {
      var _ := end.Set(0, args[0]);
    }
    if |args| > 1 {
      var _ := end.Set(1, args[1]);
    }
    assert end.Flat() == args;
    r := Eval(program, end);
  }
}
