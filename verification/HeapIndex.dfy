/** The bitmap index of a malloc-like heap, and the base query with the cache in front of it. */
module HeapIndexes {
  import opened Pages
  import opened Options
  import opened MemrangeCaches

  // Chunks are aligned to 16 bytes, one bit stands for 16 bytes, and a bitmap word has 64 bits and
  // so covers 1024 bytes.

  /** The trailer added to every chunk. */
  const INSERT_SIZE: nat := 8
  /** Chunks larger than this are promoted to bigallocs, and are not part of this model. */
  const PROMOTE_ABOVE: nat := 131072
  const BYTE_TYPE: nat := 1

  // ---------------------------------------------------------------- searching a bitmap

  /** The highest set bit in [lo, hi], or -1. */
  function HighestSet(bits: seq<bool>, lo: nat, hi: int): (r: int)
    requires hi < |bits|
    ensures r == -1 || (lo <= r <= hi && bits[r])
    ensures forall j :: lo <= j <= hi && r < j ==> !bits[j]
    decreases if hi < lo then 0 else hi - lo + 1
  {
    if hi < lo then -1 else if bits[hi] then hi else HighestSet(bits, lo, hi - 1)
  }

  lemma HighestAtLeast(bits: seq<bool>, lo: nat, hi: int, j: nat)
    requires lo <= j <= hi < |bits| && bits[j]
    ensures j <= HighestSet(bits, lo, hi) <= hi && bits[HighestSet(bits, lo, hi)]
  {
  }

  method RFindFirstSetLeq(bits: seq<bool>, lo: nat, start: nat) returns (r: int)
    ensures r == HighestSet(bits, lo, if start < |bits| then start else |bits| - 1)
  {
    r := if start < |bits| then start else |bits| - 1;
    ghost var hi := r;
    while r >= lo && !bits[r]
      invariant -1 <= r <= hi < |bits| && HighestSet(bits, lo, hi) == HighestSet(bits, lo, r)
      decreases r + 1
    {
      r := r - 1;
    }
    if r < lo {
      r := -1;
    }
  }

  // ---------------------------------------------------------------- chunks

  /** Live chunks: where each begins, and its size as the allocator sees it. */
  type Chunks = map<nat, nat>

  ghost predicate Holds(live: Chunks, a: nat, mem: nat) {
    a in live && a <= mem < a + live[a]
  }

  ghost predicate WellFormed(live: Chunks, base: nat) {
    && (forall a :: a in live ==> base <= a && a % 16 == 0 && 2 * INSERT_SIZE <= live[a] <= PROMOTE_ABOVE)
    && (forall a, b :: a in live && b in live && a < b ==> a + live[a] <= b)
  }

  function BitOf(base: nat, a: nat): nat
    requires base <= a
  {
    (a - base) / 16
  }

  function AddrOf(base: nat, i: nat): nat {
    base + 16 * i
  }

  /** The bits set are exactly the beginnings of the live chunks. */
  ghost predicate Indexes(bits: seq<bool>, base: nat, live: Chunks) {
    && (forall i :: 0 <= i < |bits| ==> (bits[i] <==> AddrOf(base, i) in live))
    && (forall a :: a in live ==> base <= a < AddrOf(base, |bits|))
  }

  /** How many bits at the beginning cannot hold the chunk of `mem`, given the biggest chunk seen. */
  function HiddenBits(base: nat, biggest: nat, mem: nat): nat
    requires biggest <= mem
  {
    var fake := RoundDown(mem - biggest, 1024);
    if fake > base then 64 * ((fake - base) / 1024) else 0
  }

  /** The answer of a search that ignores the first `hidden` bits. */
  function SearchFrom(bits: seq<bool>, base: nat, hidden: nat, mem: nat): Option<nat>
    requires base <= mem
  {
    var start := BitOf(base, mem);
    var i := HighestSet(bits, hidden, if start < |bits| then start else |bits| - 1);
    if i == -1 then None else Some(AddrOf(base, i))
  }

  lemma BitAddr(base: nat, a: nat)
    requires base <= a && base % 16 == 0 && a % 16 == 0
    ensures AddrOf(base, BitOf(base, a)) == a
  {
  }

  lemma BitOrder(base: nat, a: nat, b: nat)
    requires base <= a <= b
    ensures BitOf(base, a) <= BitOf(base, b)
  {
  }

  /** A bit at or below that of `mem` stands for an address at or below `mem`. */
  lemma BitBelow(base: nat, i: nat, mem: nat)
    requires base <= mem && i <= BitOf(base, mem)
    ensures AddrOf(base, i) <= mem
  {
  }

  lemma MultipleOfCover(x: nat)
    requires x % 1024 == 0
    ensures x % 16 == 0 && x / 16 == 64 * (x / 1024)
  {
  }

  lemma RoundedIsMultiple(x: nat)
    ensures RoundDown(x, 1024) % 1024 == 0 && RoundDown(x, 1024) <= x
  {
    DivModLaw(x, 1024);
  }

  /** Rounded down to a multiple of 1024, at most 7 bytes above a multiple of 16 is at most it. */
  lemma RoundedBelow(x: nat, a: nat)
    requires x <= a + 7 && a % 16 == 0
    ensures RoundDown(x, 1024) <= a
  {
    RoundedIsMultiple(x);
    MultipleOfCover(RoundDown(x, 1024));
  }

  /** The cut never hides the beginning of the chunk that `mem` is in, even when `mem` is in the
      trailer, by which the recorded sizes fall short. */
  lemma HiddenIsBelow(base: nat, biggest: nat, a: nat, size: nat, mem: nat)
    requires base <= a <= mem < a + size && size - INSERT_SIZE <= biggest <= mem
    requires a % 16 == 0 && base % 1024 == 0
    ensures HiddenBits(base, biggest, mem) <= BitOf(base, a)
  {
    RoundedBelow(mem - biggest, a);
    RoundedIsMultiple(mem - biggest);
    HiddenAt(base, RoundDown(mem - biggest, 1024), a);
  }

  lemma HiddenAt(base: nat, fake: nat, a: nat)
    requires base <= a && fake <= a && base % 1024 == 0 && fake % 1024 == 0
    ensures base < fake ==> 64 * ((fake - base) / 1024) <= BitOf(base, a)
  {
    if base < fake {
      assert (fake - base) % 1024 == 0;
      MultipleOfCover(fake - base);
      BitOrder(base, fake, a);
    }
  }

  /** Nothing else begins inside a live chunk. */
  lemma LastChunkBelow(live: Chunks, base: nat, a: nat, b: nat, mem: nat)
    requires WellFormed(live, base) && Holds(live, a, mem) && b in live && a <= b <= mem
    ensures b == a
  {
  }

  lemma BitIsSet(bits: seq<bool>, base: nat, live: Chunks, a: nat)
    requires base % 1024 == 0 && WellFormed(live, base) && Indexes(bits, base, live) && a in live
    ensures BitOf(base, a) < |bits| && bits[BitOf(base, a)]
  {
    MultipleOfCover(base);
    BitWithin(base, a, |bits|);
    BitAddr(base, a);
  }

  lemma BitWithin(base: nat, a: nat, n: nat)
    requires base <= a < AddrOf(base, n)
    ensures BitOf(base, a) < n
  {
  }

  /** Inside a live chunk, a search that does not hide its beginning finds it. */
  lemma SearchFindsChunk(bits: seq<bool>, base: nat, live: Chunks, hidden: nat, a: nat, mem: nat)
    requires base % 1024 == 0 && WellFormed(live, base) && Indexes(bits, base, live)
    requires Holds(live, a, mem) && hidden <= BitOf(base, a)
    ensures SearchFrom(bits, base, hidden, mem) == Some(a)
  {
    BitOrder(base, a, mem);
    BitIsSet(bits, base, live, a);
    var start := BitOf(base, mem);
    var hi := if start < |bits| then start else |bits| - 1;
    HighestAtLeast(bits, hidden, hi, BitOf(base, a));
    var i := HighestSet(bits, hidden, hi);
    FoundIsChunk(bits, base, live, a, mem, i);
  }

  lemma FoundIsChunk(bits: seq<bool>, base: nat, live: Chunks, a: nat, mem: nat, i: nat)
    requires base % 1024 == 0 && WellFormed(live, base) && Indexes(bits, base, live) && Holds(live, a, mem)
    requires BitOf(base, a) <= i <= BitOf(base, mem) && i < |bits| && bits[i]
    ensures AddrOf(base, i) == a
  {
    BitBelow(base, i, mem);
    AddrOrder(base, a, i);
    LastChunkBelow(live, base, a, AddrOf(base, i), mem);
  }

  lemma AddrOrder(base: nat, a: nat, i: nat)
    requires base <= a && base % 1024 == 0 && a % 16 == 0 && BitOf(base, a) <= i
    ensures a <= AddrOf(base, i)
  {
    MultipleOfCover(base);
    BitAddr(base, a);
  }

  lemma HiddenSearchIsWhole(bits: seq<bool>, base: nat, live: Chunks, biggest: nat, a: nat, mem: nat)
    requires base % 1024 == 0 && WellFormed(live, base) && Indexes(bits, base, live)
    requires Holds(live, a, mem) && live[a] - INSERT_SIZE <= biggest <= mem
    ensures SearchFrom(bits, base, HiddenBits(base, biggest, mem), mem) == Some(a) == SearchFrom(bits, base, 0, mem)
  {
    HiddenIsBelow(base, biggest, a, live[a], mem);
    SearchFindsChunk(bits, base, live, HiddenBits(base, biggest, mem), a, mem);
    SearchFindsChunk(bits, base, live, 0, a, mem);
  }

  // ---------------------------------------------------------------- changing the bitmap

  lemma SetIndexes(bits: seq<bool>, base: nat, live: Chunks, a: nat, size: nat)
    requires Indexes(bits, base, live) && base <= a && base % 1024 == 0 && a % 16 == 0 && BitOf(base, a) < |bits|
    ensures Indexes(bits[BitOf(base, a) := true], base, live[a := size])
  {
    BitAddr(base, a);
    SetIndexAt(bits, base, live, BitOf(base, a), size);
  }

  lemma SetIndexAt(bits: seq<bool>, base: nat, live: Chunks, i: nat, size: nat)
    requires Indexes(bits, base, live) && i < |bits|
    ensures Indexes(bits[i := true], base, live[AddrOf(base, i) := size])
  {
  }

  lemma ClearIndexAt(bits: seq<bool>, base: nat, live: Chunks, i: nat)
    requires Indexes(bits, base, live) && i < |bits|
    ensures Indexes(bits[i := false], base, live - {AddrOf(base, i)})
  {
  }

  lemma ClearIndexes(bits: seq<bool>, base: nat, live: Chunks, a: nat)
    requires Indexes(bits, base, live) && base % 1024 == 0 && a in live && a % 16 == 0
    ensures BitOf(base, a) < |bits| && Indexes(bits[BitOf(base, a) := false], base, live - {a})
  {
    MultipleOfCover(base);
    BitWithin(base, a, |bits|);
    BitAddr(base, a);
    ClearIndexAt(bits, base, live, BitOf(base, a));
  }

  lemma GrownIndexes(bits: seq<bool>, base: nat, live: Chunks, n: nat)
    requires Indexes(bits, base, live)
    ensures Indexes(bits + seq(n, _ => false), base, live)
  {
  }

  /** What an insertion relies on: room in the heap. */
  ghost predicate CanInsert(live: Chunks, base: nat, a: nat, requested: nat, usable: nat) {
    && base <= a && a % 16 == 0 && 2 * INSERT_SIZE <= usable <= PROMOTE_ABOVE && requested + INSERT_SIZE <= usable
    && a !in live && (forall b :: b in live ==> a + usable <= b || b + live[b] <= a)
  }

  /** Whether the bitmap, grown to the end of the requested bytes, has a bit for a chunk's beginning. */
  predicate GetsBit(base: nat, nwords: nat, a: nat, requested: nat)
    requires base <= a
  {
    0 < requested || a % 1024 != 0 || BitOf(base, a) < 64 * nwords
  }

  /** The number of words after growing. */
  function GrownTo(base: nat, nwords: nat, end: nat): nat
    requires base <= end
  {
    if nwords < WordsTo(base, end) then WordsTo(base, end) else nwords
  }

  /** The number of words that cover everything below `end`. */
  function WordsTo(base: nat, end: nat): nat
    requires base <= end
  {
    (RoundUp(end, 1024) - base) / 1024
  }

  lemma RoundedUp(x: nat)
    ensures RoundUp(x, 1024) % 1024 == 0 && x <= RoundUp(x, 1024) && (x % 1024 != 0 ==> x < RoundUp(x, 1024))
  {
    DivModLaw(x, 1024);
  }

  lemma WordsCover(base: nat, a: nat, end: nat)
    requires base <= a <= end && base % 1024 == 0 && (a < end || a % 1024 != 0)
    ensures BitOf(base, a) < 64 * WordsTo(base, end)
  {
    RoundedUp(end);
    var w := RoundUp(end, 1024) - base;
    assert w % 1024 == 0;
    assert a - base < w;
  }

  /** Exactly an empty request at the edge of a word that the bitmap has not reached gets no bit. */
  lemma BitExistsIff(base: nat, nwords: nat, a: nat, requested: nat)
    requires base <= a && base % 1024 == 0
    ensures BitOf(base, a) < 64 * GrownTo(base, nwords, a + requested) <==> GetsBit(base, nwords, a, requested)
  {
    if 0 < requested || a % 1024 != 0 {
      WordsCover(base, a, a + requested);
    } else {
      WordsUpTo(base, a);
    }
  }

  lemma WordsUpTo(base: nat, a: nat)
    requires base <= a && base % 1024 == 0 && a % 1024 == 0
    ensures BitOf(base, a) == 64 * WordsTo(base, a)
  {
    DivModLaw(a, 1024);
    assert RoundUp(a, 1024) == a;
    assert (a - base) % 1024 == 0;
    MultipleOfCover(a - base);
  }

  /** The first chunk of a heap, when it is asked for with no bytes, has no bit. */
  lemma EmptyRequestMissed(base: nat)
    requires base % 1024 == 0 && PROMOTE_ABOVE <= base
    ensures Described([], 0, base, 0, map[]) && CanInsert(map[], base, base, 0, 2 * INSERT_SIZE)
    ensures !(BitOf(base, base) < 64 * GrownTo(base, 0, base + 0))
  {
    BitExistsIff(base, 0, base, 0);
    MultipleOfCover(base);
  }

  /** Everything a lookup owes, from the state of the index. */
  lemma LookupFacts(bits: seq<bool>, base: nat, live: Chunks, biggest: nat, mem: nat)
    requires base % 1024 == 0 && WellFormed(live, base) && Indexes(bits, base, live) && base <= mem && biggest <= mem
    requires forall a :: a in live ==> live[a] - INSERT_SIZE <= biggest
    ensures var r := SearchFrom(bits, base, HiddenBits(base, biggest, mem), mem); r.Some? ==> r.value in live
    ensures forall a: nat :: Holds(live, a, mem) ==>
      SearchFrom(bits, base, HiddenBits(base, biggest, mem), mem) == Some(a) == SearchFrom(bits, base, 0, mem)
  {
    forall a: nat | Holds(live, a, mem)
      ensures SearchFrom(bits, base, HiddenBits(base, biggest, mem), mem) == Some(a) == SearchFrom(bits, base, 0, mem)
    {
      HiddenSearchIsWhole(bits, base, live, biggest, a, mem);
    }
  }

  // ---------------------------------------------------------------- the heap

  /** A depth-0 cache entry is the beginning of a live chunk and some of the bytes after it. */
  ghost predicate Honest(e: Entry, live: Chunks) {
    e.depth == 0 ==> e.base in live && e.limit <= e.base + live[e.base]
  }

  /** Every valid cache entry is honest. */
  ghost predicate AllHonest(es: seq<Entry>, order: seq<nat>, live: Chunks) {
    forall i :: i in order && i < |es| ==> Honest(es[i], live)
  }

  ghost predicate SamePayloads(es: seq<Entry>, es': seq<Entry>) {
    |es| == |es'| && forall i :: 0 <= i < |es| ==> SamePayload(es'[i], es[i])
  }

  /** Once everything that begins in a chunk has been dropped, the rest is honest without that chunk. */
  lemma HonestAfterDrop(es: seq<Entry>, es': seq<Entry>, order: seq<nat>, live: Chunks, a: nat)
    requires 0 < |es| && SamePayloads(es, es') && a in live && 0 < live[a] && AllHonest(es, order, live)
    requires 0 !in order
    ensures AllHonest(es', Sieve(order, Doomed(es, |es| - 1, a, a + live[a])), live - {a})
  {
    var gone := Doomed(es, |es| - 1, a, a + live[a]);
    forall i | i in Sieve(order, gone) && i < |es'|
      ensures Honest(es'[i], live - {a})
    {
      SieveMembers(order, gone, i);
      assert SamePayload(es'[i], es[i]);
    }
  }

  lemma HonestAfterMove(es: seq<Entry>, es': seq<Entry>, order: seq<nat>, order': seq<nat>, live: Chunks)
    requires SamePayloads(es, es') && AllHonest(es, order, live) && forall i :: i in order' ==> i in order
    ensures AllHonest(es', order', live)
  {
    forall i | i in order' && i < |es'|
      ensures Honest(es'[i], live)
    {
      assert SamePayload(es'[i], es[i]);
    }
  }

  lemma HonestAfterFill(es: seq<Entry>, es': seq<Entry>, order: seq<nat>, order': seq<nat>, live: Chunks, pos: nat)
    requires |es| == |es'| && AllHonest(es, order, live) && pos < |es'| && Honest(es'[pos], live)
    requires forall i :: i in order' ==> i == pos || i in order
    requires forall i :: 0 <= i < |es| && i != pos ==> SamePayload(es'[i], es[i])
    ensures AllHonest(es', order', live)
  {
    forall i | i in order' && i < |es'|
      ensures Honest(es'[i], live)
    {
      if i != pos {
        assert SamePayload(es'[i], es[i]);
      }
    }
  }

  lemma HonestWithMore(es: seq<Entry>, order: seq<nat>, live: Chunks, a: nat, size: nat)
    requires AllHonest(es, order, live) && a !in live
    ensures AllHonest(es, order, live[a := size])
  {
  }

  /** The bitmap describes the live chunks, and the biggest size recorded bounds them. */
  ghost predicate Described(bits: seq<bool>, nwords: nat, base: nat, biggest: nat, live: Chunks) {
    && base % 1024 == 0 && PROMOTE_ABOVE <= base && |bits| == 64 * nwords
    && WellFormed(live, base) && Indexes(bits, base, live)
    && biggest <= PROMOTE_ABOVE
    && forall a :: a in live ==> live[a] - INSERT_SIZE <= biggest
  }

  lemma DescribedAfterInsert(bits: seq<bool>, nwords: nat, base: nat, biggest: nat, live: Chunks, a: nat,
      requested: nat, usable: nat)
    requires Described(bits, nwords, base, biggest, live)
    requires CanInsert(live, base, a, requested, usable) && BitOf(base, a) < |bits|
    ensures var biggest' := if usable - INSERT_SIZE > biggest then usable - INSERT_SIZE else biggest;
      Described(bits[BitOf(base, a) := true], nwords, base, biggest', live[a := usable])
  {
    SetIndexes(bits, base, live, a, usable);
  }

  lemma DescribedAfterDelete(bits: seq<bool>, nwords: nat, base: nat, biggest: nat, live: Chunks, a: nat)
    requires Described(bits, nwords, base, biggest, live) && a in live
    ensures BitOf(base, a) < |bits|
    ensures Described(bits[BitOf(base, a) := false], nwords, base, biggest, live - {a})
  {
    ClearIndexes(bits, base, live, a);
  }

  class HeapIndex {
    const cache: MemrangeCache
    const bitmapBase: nat
    /** Whether the heap's allocator lets its chunks be cached. */
    const cacheable: bool
    var bitmap: seq<bool>
    var nwords: nat
    var biggestAllocated: nat
    var biggestUnpromoted: nat

    ghost var live: Chunks

    ghost predicate Indexed()
      reads this
    {
      Described(bitmap, nwords, bitmapBase, biggestUnpromoted, live)
    }

    ghost predicate CacheHonest()
      reads this, cache, cache.entries
    {
      cache.Valid() && AllHonest(cache.entries[..], cache.order, live)
    }

    ghost predicate Valid()
      reads this, cache, cache.entries
    {
      Indexed() && CacheHonest()
    }

    /** An index for the arena that begins at `arenaBegin`, which is above the largest chunk size. */
    constructor (arenaBegin: nat, cacheSize: nat, cacheable: bool)
      requires PROMOTE_ABOVE <= arenaBegin && 0 < cacheSize
      ensures Valid() && live == map[] && fresh(cache) && fresh(cache.entries)
      ensures bitmapBase <= arenaBegin < bitmapBase + 1024
    {
      cache := new MemrangeCache(cacheSize);
      bitmapBase := RoundDown(arenaBegin, 1024);
      this.cacheable := cacheable;
      bitmap, nwords, biggestAllocated, biggestUnpromoted, live := [], 0, 0, 0, map[];
      new;
      RoundedIsMultiple(arenaBegin);
    }

    /** Grow the bitmap, with clear bits, to cover everything below `end`. */
    method EnsureHasBitmapTo(end: nat)
      requires Indexed() && bitmapBase <= end
      modifies this`bitmap, this`nwords
      ensures Indexed() && nwords == GrownTo(bitmapBase, old(nwords), end)
      ensures bitmap == old(bitmap) + seq(64 * (nwords - old(nwords)), _ => false)
    {
      var total := WordsTo(bitmapBase, end);
      if nwords < total {
        GrownIndexes(bitmap, bitmapBase, live, 64 * (total - nwords));
        bitmap := bitmap + seq(64 * (total - nwords), _ => false);
        nwords := total;
      }
    }

    /** Set the bit of a chunk that the bitmap has a bit for. */
    method SetBit(a: nat, requested: nat, usable: nat)
      requires Indexed() && CanInsert(live, bitmapBase, a, requested, usable) && BitOf(bitmapBase, a) < |bitmap|
      modifies this`bitmap, this`biggestAllocated, this`biggestUnpromoted, this`live
      ensures Indexed() && live == old(live)[a := usable]
      ensures biggestUnpromoted ==
        if old(biggestUnpromoted) < usable - INSERT_SIZE then usable - INSERT_SIZE else old(biggestUnpromoted)
    {
      DescribedAfterInsert(bitmap, nwords, bitmapBase, biggestUnpromoted, live, a, requested, usable);
      var callerUsable := usable - INSERT_SIZE;
      biggestAllocated := if callerUsable > biggestAllocated then callerUsable else biggestAllocated;
      biggestUnpromoted := if callerUsable > biggestUnpromoted then callerUsable else biggestUnpromoted;
      bitmap := bitmap[BitOf(bitmapBase, a) := true];
      live := live[a := usable];
    }

    /** Index a new chunk of `usable` bytes, of which the caller asked for `requested`. When the bitmap has
        no bit for it, the source writes past the bitmap; the model then reports failure instead. */
    method Insert(a: nat, requested: nat, usable: nat) returns (ok: bool)
      requires Valid() && CanInsert(live, bitmapBase, a, requested, usable)
      modifies this`bitmap, this`nwords, this`biggestAllocated, this`biggestUnpromoted, this`live
      ensures Valid() && ok == GetsBit(bitmapBase, old(nwords), a, requested)
      ensures live == if ok then old(live)[a := usable] else old(live)
      ensures biggestUnpromoted == if ok && old(biggestUnpromoted) < usable - INSERT_SIZE then usable - INSERT_SIZE
        else old(biggestUnpromoted)
    {
      HonestWithMore(cache.entries[..], cache.order, live, a, usable);
      EnsureHasBitmapTo(a + requested);
      BitExistsIff(bitmapBase, old(nwords), a, requested);
      ok := BitOf(bitmapBase, a) < |bitmap|;
      if ok {
        SetBit(a, requested, usable);
      }
    }

    /** Drop what the cache knows about a chunk. */
    method Uncache(a: nat, usable: nat)
      requires CacheHonest() && a in live && 0 < usable == live[a]
      modifies cache, cache.entries
      ensures cache.Valid() && AllHonest(cache.entries[..], cache.order, live - {a})
    {
      ghost var es, order := cache.entries[..], cache.order;
      cache.UncacheAll(a, usable);
      assert SamePayloads(es, cache.entries[..]);
      HonestAfterDrop(es, cache.entries[..], order, live, a);
    }

    /** Forget a chunk: first drop what the cache knows about it, then clear its bit. */
    method Delete(a: nat, usable: nat)
      requires Valid() && a in live && usable == live[a]
      modifies this`bitmap, this`live, cache, cache.entries
      ensures Valid() && live == old(live) - {a}
    {
      Uncache(a, usable);
      DescribedAfterDelete(bitmap, nwords, bitmapBase, biggestUnpromoted, live, a);
      bitmap := bitmap[BitOf(bitmapBase, a) := false];
      live := live - {a};
    }

    /** What a query without the cache answers. */
    ghost function Uncached(mem: nat): Option<nat>
      reads this
      requires Indexed() && bitmapBase <= mem
    {
      SearchFrom(bitmap, bitmapBase, HiddenBits(bitmapBase, biggestUnpromoted, mem), mem)
    }

    /** Look the chunk of `mem` up in the bitmap, skipping the part that cannot hold its beginning. */
    method LookupViaBitmap(mem: nat) returns (r: Option<nat>)
      requires Indexed() && bitmapBase <= mem
      ensures r == Uncached(mem)
      ensures r.Some? ==> r.value in live
      ensures forall a: nat :: Holds(live, a, mem) ==> r == Some(a) == SearchFrom(bitmap, bitmapBase, 0, mem)
    {
      LookupFacts(bitmap, bitmapBase, live, biggestUnpromoted, mem);
      var hidden := HiddenPrefix(mem);
      r := SearchBitmap(hidden, mem);
    }

    /** How many bits to skip, from the biggest chunk seen. */
    method HiddenPrefix(mem: nat) returns (hidden: nat)
      requires biggestUnpromoted <= mem
      ensures hidden == HiddenBits(bitmapBase, biggestUnpromoted, mem)
    {
      var fake := RoundDown(mem - biggestUnpromoted, 1024);
      hidden := if fake > bitmapBase then 64 * ((fake - bitmapBase) / 1024) else 0;
    }

    method SearchBitmap(hidden: nat, mem: nat) returns (r: Option<nat>)
      requires bitmapBase <= mem
      ensures r == SearchFrom(bitmap, bitmapBase, hidden, mem)
    {
      var i := RFindFirstSetLeq(bitmap, hidden, BitOf(bitmapBase, mem));
      r := if i == -1 then None else Some(AddrOf(bitmapBase, i));
    }

    /** Ask the cache; only an entry for a whole chunk will do. */
    method AskCache(mem: nat) returns (r: Option<nat>)
      requires CacheHonest()
      modifies cache, cache.entries
      ensures CacheHonest() && (r.Some? ==> Holds(live, r.value, mem))
    {
      ghost var es, order := cache.entries[..], cache.order;
      var hit;
      ghost var k;
      hit, k := cache.LookupNoType(mem, 0);
      assert SamePayloads(es, cache.entries[..]);
      HonestAfterMove(es, cache.entries[..], order, cache.order, live);
      if hit != 0 && cache.entries[hit].depth == 0 {
        assert SamePayload(cache.entries[..][hit], es[hit]) && Honest(es[hit], live);
        return Some(cache.entries[hit].base);
      }
      r := None;
    }

    /** Enter the chunk at `a` into the cache, with a size that may fall short of the chunk's. */
    method FillCache(a: nat, size: nat)
      requires CacheHonest() && a in live && size <= live[a]
      modifies cache, cache.entries
      ensures CacheHonest()
    {
      ghost var es, order := cache.entries[..], cache.order;
      ghost var pos := cache.CacheWithType(a, a + size, BYTE_TYPE, 0, 1);
      HonestAfterFill(es, cache.entries[..], order, cache.order, live, pos);
    }

    /** The beginning of the chunk at `mem`, by way of the cache. `sizeOf` is the allocator's own size
        function; the size reported to the cache is less by the trailer, subtracted twice. */
    method GetBase(mem: nat, sizeOf: nat -> nat) returns (r: Option<nat>)
      requires Valid() && bitmapBase <= mem
      requires forall a :: a in live ==> sizeOf(a) == live[a]
      modifies cache, cache.entries
      ensures Valid() && r == Uncached(mem)
      ensures forall a: nat :: Holds(live, a, mem) ==> r == Some(a)
    {
      LookupFacts(bitmap, bitmapBase, live, biggestUnpromoted, mem);
      r := AskCache(mem);
      if r.None? {
        r := LookupViaBitmap(mem);
        if r.Some? && cacheable {
          FillCache(r.value, sizeOf(r.value) - 2 * INSERT_SIZE);
        }
      }
    }
  }
}
