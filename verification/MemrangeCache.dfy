/** The memory-range cache: an array of entries with a validity mask, and a most-recently-used list
    threaded through the valid ones. Slot 0 is never used. */
module MemrangeCaches {
  import opened Lists
  import opened Pages

  datatype Entry = Entry(base: nat, limit: nat, uniqtype: nat, period: nat, depth: int, prev: nat, next: nat)

  predicate SamePayload(a: Entry, b: Entry) {
    a.(prev := 0, next := 0) == b.(prev := 0, next := 0)
  }

  // ---------------------------------------------------------------- the threaded list

  predicate MruAt(es: seq<Entry>, order: seq<nat>, k: int) {
    var c := At(order, k);
    0 < c < |es| && es[c].next == At(order, k + 1) && es[c].prev == At(order, k - 1)
  }

  /** `order` is threaded through `es` in both directions. */
  predicate Mru(es: seq<Entry>, order: seq<nat>) {
    && Distinct(order)
    && (forall k :: 0 <= k < |order| ==> 0 < order[k] < |es|)
    && forall k :: 0 <= k < |order| ==> MruAt(es, order, k)
  }

  function Unhook(es: seq<Entry>, prev: nat, next: nat): (r: seq<Entry>)
    requires prev < |es| && next < |es|
    ensures |r| == |es|
  {
    var s := if prev != 0 then es[prev := es[prev].(next := next)] else es;
    if next != 0 then s[next := s[next].(prev := prev)] else s
  }

  lemma UnhookAt(es: seq<Entry>, order: seq<nat>, k: nat, j: nat)
    requires Mru(es, order) && k < |order| && j < |order| && j != k
    ensures At(order, k - 1) < |es| && At(order, k + 1) < |es|
    ensures var e := Unhook(es, At(order, k - 1), At(order, k + 1))[order[j]];
      && e.next == At(order, if j + 1 == k then k + 1 else j + 1)
      && e.prev == At(order, if j == k + 1 then k - 1 else j - 1)
  {
    assert MruAt(es, order, j);
    assert At(order, k - 1) == order[j] <==> j + 1 == k;
    assert At(order, k + 1) == order[j] <==> j == k + 1;
  }

  lemma UnhookLink(es: seq<Entry>, order: seq<nat>, k: nat, i: nat)
    requires Mru(es, order) && k < |order| && i + 1 < |order|
    ensures At(order, k - 1) < |es| && At(order, k + 1) < |es|
    ensures MruAt(Unhook(es, At(order, k - 1), At(order, k + 1)), Without(order, k), i)
  {
    UnhookAt(es, order, k, if i < k then i else i + 1);
    WithoutAt(order, k, i);
    WithoutAt(order, k, i + 1);
    WithoutAt(order, k, i - 1);
  }

  /** Closing the gap around position `k` takes it out of the list. */
  lemma UnhookMru(es: seq<Entry>, order: seq<nat>, k: nat)
    requires Mru(es, order) && k < |order|
    ensures At(order, k - 1) < |es| && At(order, k + 1) < |es|
    ensures Mru(Unhook(es, At(order, k - 1), At(order, k + 1)), Without(order, k))
  {
    UnhookEnds(es, order, k);
    var s, ls := Unhook(es, At(order, k - 1), At(order, k + 1)), Without(order, k);
    forall i | 0 <= i < |ls|
      ensures MruAt(s, ls, i) && 0 < ls[i] < |s|
    {
      UnhookLink(es, order, k, i);
    }
  }

  lemma UnhookEnds(es: seq<Entry>, order: seq<nat>, k: nat)
    requires Mru(es, order) && k < |order|
    ensures At(order, k - 1) < |es| && At(order, k + 1) < |es|
  {
    assert MruAt(es, order, k);
  }

  function Push(es: seq<Entry>, i: nat, head: nat): (r: seq<Entry>)
    requires i < |es| && head < |es|
    ensures |r| == |es|
  {
    var s := es[i := es[i].(prev := 0, next := head)];
    if head != 0 then s[head := s[head].(prev := i)] else s
  }

  /** Putting a slot in front of the list. */
  lemma PushMru(es: seq<Entry>, order: seq<nat>, i: nat)
    requires Mru(es, order) && 0 < i < |es| && i !in order
    ensures At(order, 0) < |es| && Mru(Push(es, i, At(order, 0)), [i] + order)
  {
    var s, ls := Push(es, i, At(order, 0)), [i] + order;
    forall k | 0 <= k < |ls|
      ensures MruAt(s, ls, k)
    {
      if k > 0 {
        assert MruAt(es, order, k - 1);
        assert ls[k] == order[k - 1];
      }
    }
  }

  /** Changing payloads changes no list. */
  lemma PayloadMru(es: seq<Entry>, s: seq<Entry>, order: seq<nat>)
    requires Mru(es, order) && |s| == |es|
    requires forall k :: 0 <= k < |order| ==>
      s[order[k]].next == es[order[k]].next && s[order[k]].prev == es[order[k]].prev
    ensures Mru(s, order)
  {
    forall k | 0 <= k < |order|
      ensures MruAt(s, order, k)
    {
      assert MruAt(es, order, k);
    }
  }

  // ---------------------------------------------------------------- move to front

  /** `order` without `i`. */
  function Drop(order: seq<nat>, i: nat): (r: seq<nat>)
    ensures i !in r && forall n :: n != i ==> (n in r <==> n in order)
  {
    if order == [] then []
    else if order[0] == i then Drop(order[1..], i)
    else [order[0]] + Drop(order[1..], i)
  }

  function Reverse(order: seq<nat>): seq<nat> {
    if order == [] then [] else Reverse(order[1..]) + [order[0]]
  }

  lemma {:induction false} ReverseMembers(order: seq<nat>)
    ensures forall i :: i in Reverse(order) <==> i in order
  {
    if order != [] {
      ReverseMembers(order[1..]);
    }
  }

  function MoveToFront(order: seq<nat>, i: nat): seq<nat> {
    [i] + Drop(order, i)
  }

  lemma {:induction false} DropAbsent(order: seq<nat>, i: nat)
    requires i !in order
    ensures Drop(order, i) == order
  {
    if order != [] {
      DropAbsent(order[1..], i);
    }
  }

  lemma {:induction false} DropAtPosition(order: seq<nat>, k: nat)
    requires Distinct(order) && k < |order|
    ensures Drop(order, order[k]) == Without(order, k)
  {
    if k == 0 {
      DropAbsent(order[1..], order[0]);
    } else {
      DropAtPosition(order[1..], k - 1);
      WithoutLater(order, k);
    }
  }

  lemma WithoutLater(order: seq<nat>, k: nat)
    requires 0 < k < |order|
    ensures order[1..][k - 1] == order[k] && Without(order, k) == [order[0]] + Without(order[1..], k - 1)
  {
  }

  /** The validity mask still marks the slots on the list, when one is taken off both. */
  lemma MaskWithout(validity: seq<bool>, order: seq<nat>, k: nat)
    requires Distinct(order) && k < |order| && 0 < order[k] <= |validity|
    requires forall j :: 0 < j <= |validity| ==> (validity[j - 1] <==> j in order)
    ensures var v := validity[order[k] - 1 := false];
      forall j :: 0 < j <= |v| ==> (v[j - 1] <==> j in Without(order, k))
  {
    forall j | 0 < j <= |validity|
      ensures validity[order[k] - 1 := false][j - 1] <==> j in Without(order, k)
    {
      if j != order[k] {
        WithoutIn(order, k, j);
      }
    }
  }

  lemma RestBelow(order: seq<nat>, k: nat, n: nat)
    requires Distinct(order) && (forall j :: 0 <= j < |order| ==> 0 < order[j] <= n) && k < |order| && order[k] == n
    ensures var rest := Without(order, k);
      Distinct(rest) && |rest| == |order| - 1 && forall j :: 0 <= j < |rest| ==> 0 < rest[j] <= n - 1
  {
    var rest := Without(order, k);
    assert forall j :: 0 <= j < |rest| ==> rest[j] == order[if j < k then j else j + 1];
  }

  /** A list of distinct slots is no longer than the number of slots. */
  lemma {:induction false} DistinctBound(order: seq<nat>, n: nat)
    requires Distinct(order) && forall k :: 0 <= k < |order| ==> 0 < order[k] <= n
    ensures |order| <= n
    decreases n
  {
    assert |order| > 0 ==> 0 < order[0] <= n;
    if n > 0 && n in order {
      var k :| 0 <= k < |order| && order[k] == n;
      RestBelow(order, k, n);
      DistinctBound(Without(order, k), n - 1);
    } else if n > 0 {
      DistinctBound(order, n - 1);
    }
  }

  /** `order` without the slots in `gone`. */
  function Sieve(order: seq<nat>, gone: set<nat>): seq<nat> {
    if order == [] then []
    else (if order[0] in gone then [] else [order[0]]) + Sieve(order[1..], gone)
  }

  lemma {:induction false} SieveMore(order: seq<nat>, gone: set<nat>, i: nat)
    ensures Sieve(order, gone + {i}) == Drop(Sieve(order, gone), i)
  {
    if order != [] {
      SieveMore(order[1..], gone, i);
      var rest := Sieve(order[1..], gone);
      assert [] + rest == rest && ([order[0]] + rest)[1..] == rest;
      assert [] + Sieve(order[1..], gone + {i}) == Sieve(order[1..], gone + {i});
    }
  }

  lemma {:induction false} SieveNone(order: seq<nat>)
    ensures Sieve(order, {}) == order
  {
    if order != [] {
      SieveNone(order[1..]);
    }
  }

  lemma {:induction false} SieveMembers(order: seq<nat>, gone: set<nat>, c: nat)
    ensures c in Sieve(order, gone) <==> c in order && c !in gone
  {
    if order != [] {
      SieveMembers(order[1..], gone, c);
    }
  }

  lemma DropLast(order: seq<nat>)
    requires Distinct(order) && order != []
    ensures MoveToFront(order, order[|order| - 1]) == [order[|order| - 1]] + order[..|order| - 1]
  {
    DropAtPosition(order, |order| - 1);
  }

  /** As many distinct slots as there are slots: every slot is there. */
  lemma FullList(order: seq<nat>, n: nat, i: nat)
    requires Distinct(order) && (forall k :: 0 <= k < |order| ==> 0 < order[k] <= n) && |order| == n
    requires 0 < i <= n
    ensures i in order
  {
    if i !in order {
      DistinctBound([i] + order, n);
    }
  }

  lemma {:induction false} AllPresent(order: seq<nat>, n: nat)
    requires forall i :: 0 < i <= n ==> i in order
    ensures n <= |order|
  {
    if n > 0 {
      assert n in order;
      var k :| 0 <= k < |order| && order[k] == n;
      forall i | 0 < i <= n - 1
        ensures i in Without(order, k)
      {
        WithoutIn(order, k, i);
      }
      AllPresent(Without(order, k), n - 1);
    }
  }

  // ---------------------------------------------------------------- the cache

  class MemrangeCache {
    /** `size + 1` entries; slot 0 is the null entry. */
    const entries: array<Entry>
    const size: nat
    /** Bit i - 1 of the validity mask says whether slot i holds something. */
    var validity: seq<bool>
    var nextVictim: nat
    var headMru: nat
    var tailMru: nat

    /** The valid slots, most recently used first. */
    ghost var order: seq<nat>

    ghost predicate Valid()
      reads this, entries
    {
      && 0 < size && entries.Length == size + 1 && |validity| == size
      && Mru(entries[..], order)
      && headMru == At(order, 0) && tailMru == At(order, |order| - 1)
      && (forall i :: 0 < i <= size ==> (validity[i - 1] <==> i in order))
      && 0 < nextVictim <= size
    }

    constructor (n: nat)
      requires 0 < n
      ensures Valid() && size == n && order == [] && fresh(entries)
    {
      size := n;
      entries := new Entry[n + 1](_ => Entry(0, 0, 0, 0, 0, 0, 0));
      validity := seq(n, _ => false);
      nextVictim, headMru, tailMru := 1, 0, 0;
      order := [];
    }

    /** Slot `i` holds a valid entry. */
    predicate IsValid(i: nat)
      reads this
    {
      0 < i <= |validity| && validity[i - 1]
    }

    lemma ValidIsListed(i: nat) returns (k: nat)
      requires Valid() && IsValid(i)
      ensures k < |order| && order[k] == i && MruAt(entries[..], order, k)
    {
      assert i in order;
      k :| k < |order| && order[k] == i;
    }

    /** Payloads as they were. */
    twostate predicate PayloadsKept()
      reads this, entries
    {
      forall i :: 0 <= i < entries.Length ==> SamePayload(entries[i], old(entries[i]))
    }

    ghost predicate PayloadsOf(es: seq<Entry>)
      reads this, entries
    {
      |es| == entries.Length && forall i :: 0 <= i < entries.Length ==> SamePayload(entries[i], es[i])
    }

    /** Close the gap around slot `i` in the entries. */
    method UnhookEntry(i: nat, ghost k: int)
      requires Valid() && 0 <= k < |order| && order[k] == i
      modifies entries
      ensures Mru(entries[..], Without(order, k)) && PayloadsKept()
      ensures entries[i].next == At(order, k + 1) && entries[i].prev == At(order, k - 1)
    {
      ghost var es := entries[..];
      UnhookMru(es, order, k);
      assert MruAt(es, order, k);
      var ourNext, ourPrev := entries[i].next, entries[i].prev;
      if ourPrev != 0 {
        entries[ourPrev] := entries[ourPrev].(next := ourNext);
      }
      if ourNext != 0 {
        entries[ourNext] := entries[ourNext].(prev := ourPrev);
      }
      assert entries[..] == Unhook(es, At(order, k - 1), At(order, k + 1));
    }

    /** Take slot `i` off the list. */
    method Unlink(i: nat)
      requires Valid() && IsValid(i)
      modifies this, entries
      ensures Valid() && order == Drop(old(order), i) && PayloadsKept()
      ensures nextVictim == i
    {
      ghost var k: int := ValidIsListed(i);
      DropAtPosition(order, k);
      UnhookEntry(i, k);
      TakeOff(i, k);
    }

    /** Once the entries around slot `i` are linked past it, take it off the mask and the ends. */
    method TakeOff(i: nat, ghost k: nat)
      requires 0 < i <= size && entries.Length == size + 1 && |validity| == size
      requires Distinct(order) && k < |order| && order[k] == i
      requires headMru == At(order, 0) && tailMru == At(order, |order| - 1)
      requires forall j :: 0 < j <= size ==> (validity[j - 1] <==> j in order)
      requires Mru(entries[..], Without(order, k))
      requires entries[i].next == At(order, k + 1) && entries[i].prev == At(order, k - 1)
      modifies this
      ensures Valid() && order == Without(old(order), k) && nextVictim == i
    {
      UnlinkedEnds(order, k);
      MaskWithout(validity, order, k);
      validity := validity[i - 1 := false];
      nextVictim := i;
      if headMru == i {
        headMru := entries[i].next;
      }
      if tailMru == i {
        tailMru := entries[i].prev;
      }
      order := Without(order, k);
    }

    /** Put slot `i`, which is on no list, in front. */
    method PushHeadMru(i: nat)
      requires Valid() && 0 < i <= size && !IsValid(i)
      modifies this, entries
      ensures Valid() && order == [i] + old(order) && PayloadsKept()
      ensures nextVictim == old(nextVictim)
    {
      ghost var es := entries[..];
      PushMru(es, order, i);
      entries[i] := entries[i].(prev := 0, next := headMru);
      if headMru != 0 {
        entries[headMru] := entries[headMru].(prev := i);
      }
      assert entries[..] == Push(es, i, headMru);
      headMru := i;
      if tailMru == 0 {
        tailMru := i;
      }
      validity := validity[i - 1 := true];
      order := [i] + order;
    }

    /** Make sure slot `i` is not the next victim. */
    method BumpVictim(i: nat)
      requires Valid() && 0 < i <= size
      modifies this`nextVictim
      ensures Valid() && (1 < size ==> nextVictim != i)
    {
      if nextVictim == i {
        nextVictim := 1 + i % size;
      }
    }

    /** Make slot `i` the most recently used. */
    method BumpMru(i: nat)
      requires Valid() && 0 < i <= size
      modifies this, entries
      ensures Valid() && order == MoveToFront(old(order), i) && PayloadsKept()
    {
      if headMru != i {
        if validity[i - 1] {
          Unlink(i);
        } else {
          DropAbsent(order, i);
        }
        PushHeadMru(i);
      } else {
        HeadFirst(order, i);
      }
    }

    /** Walk the list both ways, checking that each slot met is valid and new, and that no valid slot is
        missed. Every check succeeds, and the walks visit the slots in order and in reverse. */
    method CheckSanity() returns (ok: bool, forwards: seq<nat>, backwards: seq<nat>)
      requires Valid()
      ensures ok && forwards == order && backwards == Reverse(order)
      ensures forall i :: IsValid(i) <==> i in forwards
    {
      var there, back;
      there, forwards := WalkForwards();
      back, backwards := WalkBackwards();
      ok := there && back;
    }

    /** Walk the list from the most recent. */
    method WalkForwards() returns (ok: bool, met: seq<nat>)
      requires Valid()
      ensures ok && met == order
    {
      ok, met := true, [];
      var i := headMru;
      while i != 0
        invariant ok && |met| <= |order| && met == order[..|met|] && i == At(order, |met|)
        decreases |order| - |met|
      {
        ghost var k := |met|;
        assert MruAt(entries[..], order, k);
        assert order[k] == i && order[..k + 1] == order[..k] + [i];
        assert i in order && i !in order[..k];
        ok := ok && validity[i - 1] && i !in met;
        met := met + [i];
        i := entries[i].next;
      }
      assert order[..|met|] == order;
      ok := ok && forall j :: 0 < j <= size ==> (validity[j - 1] <==> j in met);
    }

    /** The same from the least recent. */
    method WalkBackwards() returns (ok: bool, met: seq<nat>)
      requires Valid()
      ensures ok && met == Reverse(order)
    {
      ok, met := true, [];
      var i := tailMru;
      ghost var k: int := |order|;
      while i != 0
        invariant ok && 0 <= k <= |order| && met == Reverse(order[k..]) && i == At(order, k - 1)
        decreases k
      {
        assert MruAt(entries[..], order, k - 1);
        assert order[k - 1] == i && order[k - 1..] == [i] + order[k..];
        assert i in order && i !in order[k..];
        ReverseMembers(order[k..]);
        ok := ok && validity[i - 1] && i !in met;
        met := met + [i];
        i := entries[i].prev;
        k := k - 1;
      }
      assert order[k..] == order;
      ReverseMembers(order);
      ok := ok && forall j :: 0 < j <= size ==> (validity[j - 1] <==> j in met);
    }

    // -------------------------------------------------------------- lookup

    /** The first entry in most-recently-used order that `hit` accepts becomes the most recent;
        0 when there is none. `k` is its old position. */
    method LookupBy(hit: Entry -> bool) returns (i: nat, ghost k: nat)
      requires Valid()
      modifies this, entries
      ensures Valid() && PayloadsKept()
      ensures i == 0 ==> order == old(order) && forall c :: c in order ==> !hit(old(entries[..])[c])
      ensures i != 0 ==> k < |old(order)| && old(order)[k] == i && hit(old(entries[..])[i])
      ensures i != 0 ==> forall j :: 0 <= j < k ==> !hit(old(entries[..])[old(order)[j]])
      ensures i != 0 ==> order == MoveToFront(old(order), i)
    {
      i, k := headMru, 0;
      while i != 0
        invariant k <= |order| && i == At(order, k)
        invariant forall j :: 0 <= j < k ==> !hit(entries[order[j]])
        decreases |order| - k
      {
        assert MruAt(entries[..], order, k) && order[k] == i && i in order;
        if validity[i - 1] {
          if hit(entries[i]) {
            BumpMru(i);
            return;
          }
        }
        i, k := entries[i].next, k + 1;
      }
    }

    /** The first entry of type `t` that serves for `obj` becomes the most recent. */
    method Lookup(obj: nat, t: nat, requirePeriod: nat) returns (i: nat, ghost k: nat)
      requires Valid()
      modifies this, entries
      ensures Valid() && PayloadsKept()
      ensures i != 0 ==> i in old(order) && var e := old(entries[..])[i];
        && e.uniqtype == t && e.base <= obj < e.limit
        && (obj == e.base || (InPeriods(e.base, e.period, obj) && (requirePeriod == 0 || e.period == requirePeriod)))
      ensures i == 0 ==> order == old(order) && forall c :: c in order ==>
        !Serves(old(entries[..])[c], obj, t, requirePeriod)
      ensures i != 0 ==> k < |old(order)| && old(order)[k] == i && forall j :: 0 <= j < k ==>
        !Serves(old(entries[..])[old(order)[j]], obj, t, requirePeriod)
      ensures i != 0 ==> order == MoveToFront(old(order), i)
    {
      ghost var es := entries[..];
      i, k := LookupBy(e => Hit(e, obj, t, requirePeriod));
      forall c | 0 <= c < |es|
        ensures Hit(es[c], obj, t, requirePeriod) <==> Serves(es[c], obj, t, requirePeriod)
      {
        HitServes(es[c], obj, t, requirePeriod);
      }
    }

    /** The same without regard to the type. */
    method LookupNoType(obj: nat, requirePeriod: nat) returns (i: nat, ghost k: nat)
      requires Valid()
      modifies this, entries
      ensures Valid() && PayloadsKept()
      ensures i != 0 ==> i in old(order) && var e := old(entries[..])[i];
        && e.base <= obj < e.limit
        && ((obj == e.base && requirePeriod == 0)
            || (InPeriods(e.base, e.period, obj) && (requirePeriod == 0 || e.period == requirePeriod)))
      ensures i == 0 ==> order == old(order) && forall c :: c in order ==>
        !ServesUntyped(old(entries[..])[c], obj, requirePeriod)
      ensures i != 0 ==> k < |old(order)| && old(order)[k] == i && forall j :: 0 <= j < k ==>
        !ServesUntyped(old(entries[..])[old(order)[j]], obj, requirePeriod)
      ensures i != 0 ==> order == MoveToFront(old(order), i)
    {
      ghost var es := entries[..];
      i, k := LookupBy(e => HitNoType(e, obj, requirePeriod));
      forall c | 0 <= c < |es|
        ensures HitNoType(es[c], obj, requirePeriod) <==> ServesUntyped(es[c], obj, requirePeriod)
      {
        HitServesUntyped(es[c], obj, requirePeriod);
      }
    }

    // -------------------------------------------------------------- replacement

    /** The lowest slot that holds nothing, or `size + 1`. */
    method FirstInvalid() returns (pos: nat)
      requires |validity| == size
      ensures 0 < pos <= size + 1 && (forall i :: 0 < i < pos ==> IsValid(i)) && (pos <= size ==> !IsValid(pos))
    {
      pos := 1;
      while pos <= size && validity[pos - 1]
        invariant 0 < pos <= size + 1
        invariant forall i :: 0 < i < pos ==> IsValid(i)
      {
        pos := pos + 1;
      }
    }

    /** Which slot a new entry goes to: a free one, else the least recently used. */
    ghost predicate Replaces(order: seq<nat>, pos: nat) {
      if |order| < size then 0 < pos <= size && pos !in order && forall i :: 0 < i < pos ==> i in order
      else order != [] && pos == order[|order| - 1]
    }

    method ChooseSlot() returns (pos: nat)
      requires Valid()
      ensures Replaces(order, pos) && 0 < pos <= size && |order| <= size
    {
      pos := FirstInvalid();
      DistinctBound(order, size);
      forall i | 0 < i < pos
        ensures i in order
      {
        assert IsValid(i);
      }
      if pos == size + 1 {
        AllPresent(order, size);
        pos := tailMru;
      } else if |order| == size {
        FullList(order, size, pos);
      }
    }

    /** Give a slot a new payload, leaving its links. */
    method Overwrite(slot: nat, e: Entry)
      requires Valid() && 0 < slot <= size
      modifies entries
      ensures Valid() && SamePayload(entries[slot], e)
      ensures forall i :: 0 <= i <= size && i != slot ==> entries[i] == old(entries[i])
    {
      ghost var es := entries[..];
      entries[slot] := e.(prev := entries[slot].prev, next := entries[slot].next);
      PayloadMru(es, entries[..], order);
    }

    /** Enter a range into the cache. */
    method CacheWithType(base: nat, limit: nat, t: nat, depth: int, period: nat) returns (ghost pos: nat)
      requires Valid()
      modifies this, entries
      ensures Valid() && Replaces(old(order), pos)
      ensures order == if |old(order)| < size then [pos] + old(order) else [pos] + old(order)[..size - 1]
      ensures 0 < pos <= size && SamePayload(entries[pos], Entry(base, limit, t, period, depth, 0, 0))
      ensures entries[pos].base == base && entries[pos].limit == limit && entries[pos].uniqtype == t
      ensures entries[pos].period == period && entries[pos].depth == depth
      ensures forall i :: 0 <= i <= size && i != pos ==> SamePayload(entries[i], old(entries[..])[i])
    {
      var slot := ChooseSlot();
      pos := slot;
      FrontOrder(order, size, pos);
      Overwrite(slot, Entry(base, limit, t, period, depth, 0, 0));
      BumpMru(slot);
      BumpVictim(slot);
    }

    /** What has just been cached is what a lookup finds, at every whole number of periods into it, and a lookup
        of a type that nothing cached has finds nothing. */
    method CachedIsFound(base: nat, limit: nat, t: nat, depth: int, period: nat, n: nat, requirePeriod: nat,
        other: nat)
      returns (i: nat, j: nat)
      requires Valid() && base + Multiple(n, period) < limit
      requires n == 0 || requirePeriod == 0 || requirePeriod == period
      requires other != t && forall c :: c in order ==> entries[c].uniqtype != other
      modifies this, entries
      ensures Valid() && j == 0
      ensures 0 < i <= size && entries[i].base == base && entries[i].limit == limit && entries[i].uniqtype == t
      ensures entries[i].period == period && entries[i].depth == depth
    {
      ghost var pos := CacheWithType(base, limit, t, depth, period);
      assert forall c :: c in order ==> entries[c].uniqtype != other;
      FrontServes(entries[pos], base + Multiple(n, period), n, requirePeriod);
      i := FoundAtFront(base + Multiple(n, period), t, requirePeriod);
      j := MissesType(base, other, requirePeriod);
    }

    method MissesType(obj: nat, t: nat, requirePeriod: nat) returns (i: nat)
      requires Valid() && forall c :: c in order ==> entries[c].uniqtype != t
      modifies this, entries
      ensures Valid() && PayloadsKept() && i == 0
    {
      ghost var k;
      i, k := Lookup(obj, t, requirePeriod);
    }

    method FoundAtFront(obj: nat, t: nat, requirePeriod: nat) returns (i: nat)
      requires Valid() && order != [] && Serves(entries[order[0]], obj, t, requirePeriod)
      modifies this, entries
      ensures Valid() && PayloadsKept() && i == old(order)[0] && forall c :: c in order ==> c in old(order)
    {
      ghost var k;
      i, k := Lookup(obj, t, requirePeriod);
      HeadFirst(old(order), old(order)[0]);
    }

    method FoundAtFrontUntyped(obj: nat, requirePeriod: nat) returns (i: nat)
      requires Valid() && order != [] && ServesUntyped(entries[order[0]], obj, requirePeriod)
      modifies this, entries
      ensures Valid() && PayloadsKept() && i == old(order)[0]
    {
      ghost var k;
      i, k := LookupNoType(obj, requirePeriod);
    }

    /** The same for a lookup without a type, which for a given period does not take the beginning of an entry
        without that period. */
    method CachedIsFoundUntyped(base: nat, limit: nat, t: nat, depth: int, period: nat, n: nat, requirePeriod: nat)
      returns (i: nat)
      requires Valid() && base + Multiple(n, period) < limit && (requirePeriod == 0 || requirePeriod == period)
      modifies this, entries
      ensures Valid() && 0 < i <= size && entries[i].base == base && entries[i].limit == limit
      ensures entries[i].uniqtype == t && entries[i].period == period && entries[i].depth == depth
    {
      ghost var pos := CacheWithType(base, limit, t, depth, period);
      FrontServesUntyped(entries[pos], base + Multiple(n, period), n, requirePeriod);
      i := FoundAtFrontUntyped(base + Multiple(n, period), requirePeriod);
    }

    lemma FrontOrder(order: seq<nat>, n: nat, pos: nat)
      requires Distinct(order) && n == size && |order| <= n && 0 < n && Replaces(order, pos)
      ensures MoveToFront(order, pos) == if |order| < n then [pos] + order else [pos] + order[..n - 1]
    {
      if |order| < n {
        DropAbsent(order, pos);
      } else {
        DropLast(order);
      }
    }

    // -------------------------------------------------------------- invalidation

    /** Drop slot `i` if it holds an entry that begins in [from, to). */
    method UncacheOne(i: nat, from: nat, to: nat)
      requires Valid() && 0 < i <= size
      modifies this, entries
      ensures Valid() && PayloadsKept()
      ensures order == if BeginsIn(old(entries[i]), from, to) then Drop(old(order), i) else old(order)
    {
      if validity[i - 1] {
        if BeginsIn(entries[i], from, to) {
          Unlink(i);
          nextVictim := i;
        }
      } else {
        DropAbsent(order, i);
      }
    }

    /** Drop every entry that begins in [ptr, ptr + len), keeping the others in order. */
    method UncacheAll(ptr: nat, len: nat)
      requires Valid()
      modifies this, entries
      ensures Valid() && PayloadsKept()
      ensures order == Sieve(old(order), Doomed(old(entries[..]), size, ptr, ptr + len))
      ensures forall i: nat :: i in order <==>
        i in old(order) && (old(entries[..])[i].base < ptr || ptr + len <= old(entries[..])[i].base)
    {
      ghost var es, was := entries[..], order;
      UncacheSlots(ptr, ptr + len);
      StaysListed(was, es, ptr, ptr + len);
    }

    /** Look at the slots one after the other. */
    method UncacheSlots(from: nat, to: nat)
      requires Valid()
      modifies this, entries
      ensures Valid() && PayloadsKept()
      ensures order == Sieve(old(order), Doomed(old(entries[..]), size, from, to))
    {
      ghost var es, was := entries[..], order;
      SieveNone(order);
      assert Doomed(es, 0, from, to) == {};
      var i := 1;
      while i <= size
        invariant Valid() && PayloadsOf(es) && 1 <= i <= size + 1
        invariant order == Sieve(was, Doomed(es, i - 1, from, to))
      {
        UncacheNext(i, from, to, es, was);
        i := i + 1;
      }
    }

    /** One turn of the loop above. */
    method UncacheNext(i: nat, from: nat, to: nat, ghost es: seq<Entry>, ghost was: seq<nat>)
      requires Valid() && PayloadsOf(es) && 0 < i <= size
      requires order == Sieve(was, Doomed(es, i - 1, from, to))
      modifies this, entries
      ensures Valid() && PayloadsOf(es)
      ensures order == Sieve(was, Doomed(es, i, from, to))
    {
      SieveDoomed(was, es, i, from, to);
      assert SamePayload(entries[i], es[i]);
      UncacheOne(i, from, to);
    }
  }

  predicate BeginsIn(e: Entry, from: nat, to: nat) {
    from <= e.base < to
  }

  /** The slots up to `n` whose entry begins in [from, to). */
  ghost function Doomed(es: seq<Entry>, n: nat, from: nat, to: nat): set<nat>
    requires n < |es|
  {
    set j | 0 < j <= n && BeginsIn(es[j], from, to)
  }

  lemma DoomedStep(es: seq<Entry>, i: nat, from: nat, to: nat)
    requires 0 < i < |es|
    ensures Doomed(es, i, from, to) == if BeginsIn(es[i], from, to) then Doomed(es, i - 1, from, to) + {i}
      else Doomed(es, i - 1, from, to)
  {
  }

  lemma SieveDoomed(order: seq<nat>, es: seq<Entry>, i: nat, from: nat, to: nat)
    requires 0 < i < |es|
    ensures var before := Sieve(order, Doomed(es, i - 1, from, to));
      Sieve(order, Doomed(es, i, from, to)) == if BeginsIn(es[i], from, to) then Drop(before, i) else before
  {
    DoomedStep(es, i, from, to);
    SieveMore(order, Doomed(es, i - 1, from, to), i);
  }

  lemma StaysListed(order: seq<nat>, es: seq<Entry>, from: nat, to: nat)
    requires 0 < |es| && forall k :: 0 <= k < |order| ==> 0 < order[k] < |es|
    ensures forall i: nat :: i in Sieve(order, Doomed(es, |es| - 1, from, to)) <==>
      i in order && (es[i].base < from || to <= es[i].base)
  {
    forall i: nat
      ensures i in Sieve(order, Doomed(es, |es| - 1, from, to)) <==>
        i in order && (es[i].base < from || to <= es[i].base)
    {
      SieveMembers(order, Doomed(es, |es| - 1, from, to), i);
    }
  }

  // ---------------------------------------------------------------- what serves

  function Multiple(n: nat, period: nat): nat {
    n * period
  }

  /** `obj` is a whole number of periods from `base`. */
  ghost predicate InPeriods(base: nat, period: nat, obj: nat) {
    period != 0 && exists n: nat :: obj == base + Multiple(n, period)
  }

  /** An entry serves for `obj` inside its range, at its beginning or a whole number of periods into it. */
  ghost predicate Serves(e: Entry, obj: nat, t: nat, requirePeriod: nat) {
    && e.uniqtype == t && e.base <= obj < e.limit
    && (obj == e.base || (InPeriods(e.base, e.period, obj) && (requirePeriod == 0 || e.period == requirePeriod)))
  }

  /** Without a type, an entry of another period does not serve even for its beginning. */
  ghost predicate ServesUntyped(e: Entry, obj: nat, requirePeriod: nat) {
    && e.base <= obj < e.limit
    && ((obj == e.base && requirePeriod == 0)
        || (InPeriods(e.base, e.period, obj) && (requirePeriod == 0 || e.period == requirePeriod)))
  }

  lemma DividedIsInPeriods(base: nat, period: nat, obj: nat)
    requires base <= obj && period != 0
    ensures (obj - base) % period == 0 <==> InPeriods(base, period, obj)
  {
    var d := obj - base;
    if d % period == 0 {
      assert d == (d / period) * period;
      assert obj == base + Multiple(d / period, period);
    }
    if InPeriods(base, period, obj) {
      var n: nat :| obj == base + Multiple(n, period);
      MultipleDivides(n, period);
    }
  }

  lemma MultipleDivides(n: nat, period: nat)
    requires period != 0
    ensures Multiple(n, period) % period == 0
  {
    DivOfMultiple(n, 0, period);
    DivModLaw(Multiple(n, period), period);
  }

  lemma HitServes(e: Entry, obj: nat, t: nat, requirePeriod: nat)
    ensures Hit(e, obj, t, requirePeriod) <==> Serves(e, obj, t, requirePeriod)
  {
    if e.base <= obj && e.period != 0 {
      DividedIsInPeriods(e.base, e.period, obj);
    }
  }

  lemma HitServesUntyped(e: Entry, obj: nat, requirePeriod: nat)
    ensures HitNoType(e, obj, requirePeriod) <==> ServesUntyped(e, obj, requirePeriod)
  {
    if e.base <= obj && e.period != 0 {
      DividedIsInPeriods(e.base, e.period, obj);
    }
  }

  lemma FrontServes(e: Entry, obj: nat, n: nat, requirePeriod: nat)
    requires obj == e.base + Multiple(n, e.period) < e.limit
    requires n == 0 || requirePeriod == 0 || requirePeriod == e.period
    ensures Serves(e, obj, e.uniqtype, requirePeriod)
  {
  }

  lemma FrontServesUntyped(e: Entry, obj: nat, n: nat, requirePeriod: nat)
    requires obj == e.base + Multiple(n, e.period) < e.limit && (requirePeriod == 0 || requirePeriod == e.period)
    ensures ServesUntyped(e, obj, requirePeriod)
  {
  }

  /** The test that the code makes. */
  predicate HitNoType(e: Entry, obj: nat, requirePeriod: nat) {
    && e.base <= obj < e.limit
    && ((obj == e.base && requirePeriod == 0)
        || (e.period != 0 && (requirePeriod == 0 || e.period == requirePeriod) && (obj - e.base) % e.period == 0))
  }

  predicate Hit(e: Entry, obj: nat, t: nat, requirePeriod: nat) {
    && e.uniqtype == t && e.base <= obj < e.limit
    && (obj == e.base
        || (e.period != 0 && (requirePeriod == 0 || e.period == requirePeriod) && (obj - e.base) % e.period == 0))
  }

  lemma UnlinkedEnds(order: seq<nat>, k: nat)
    requires Distinct(order) && k < |order|
    ensures At(Without(order, k), 0) == if order[0] == order[k] then At(order, k + 1) else order[0]
    ensures At(Without(order, k), |order| - 2) == if order[|order| - 1] == order[k] then At(order, k - 1)
      else order[|order| - 1]
  {
    WithoutAt(order, k, 0);
    WithoutAt(order, k, |order| - 2);
  }

  lemma HeadFirst(order: seq<nat>, i: nat)
    requires Distinct(order) && order != [] && order[0] == i
    ensures MoveToFront(order, i) == order
  {
    DropAbsent(order[1..], i);
  }
}
