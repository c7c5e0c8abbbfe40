/** Allocation-site ids: one small number for every site of every loaded file. */
module Allocsites {
  import opened Options

  const INDEX_SIZE: nat := 256
  /** Ids have 16 bits; the last one stands for "no such site". */
  const ID_LIMIT: nat := 65536
  const NO_ID: nat := 65535

  /** One file's vector of sites: its first id, its length as 16 bits hold it, where the file is loaded, and
      the address of each site relative to that. */
  datatype Vector = Vector(startId: nat, count: nat, fileBase: nat, sites: seq<nat>)

  /** A site: which vector it is in, and where. */
  datatype Site = Site(slot: nat, index: nat)

  ghost predicate Ascending(s: seq<nat>) {
    forall i, j :: 0 <= i < j < |s| ==> s[i] <= s[j]
  }

  ghost predicate StrictlyAscending(s: seq<nat>) {
    forall i, j :: 0 <= i < j < |s| ==> s[i] < s[j]
  }

  // ---------------------------------------------------------------- searching

  /** The last position whose key is at most the target. */
  function LastLeq(keys: seq<nat>, target: nat): (r: Option<nat>)
    ensures r.Some? ==> r.value < |keys| && keys[r.value] <= target
    ensures forall j :: 0 <= j < |keys| && (r.Some? ==> r.value < j) ==> target < keys[j]
  {
    if keys == [] then None
    else if keys[|keys| - 1] <= target then Some(|keys| - 1)
    else LastLeq(keys[..|keys| - 1], target)
  }

  lemma LastLeqUnique(keys: seq<nat>, target: nat, i: nat)
    requires i < |keys| && keys[i] <= target && forall j :: i < j < |keys| ==> target < keys[j]
    ensures LastLeq(keys, target) == Some(i)
  {
    var r := LastLeq(keys, target);
    assert r.Some? && i <= r.value;
  }

  method BsearchLeq(keys: seq<nat>, target: nat) returns (r: Option<nat>)
    requires Ascending(keys)
    ensures r == LastLeq(keys, target)
  {
    if |keys| == 0 || target < keys[0] {
      assert forall j :: 0 <= j < |keys| ==> keys[0] <= keys[j];
      return None;
    }
    var lo, hi := 0, |keys|;
    while hi - lo > 1
      invariant 0 <= lo < hi <= |keys| && keys[lo] <= target && (hi < |keys| ==> target < keys[hi])
    {
      var mid := lo + (hi - lo) / 2;
      if keys[mid] <= target {
        lo := mid;
      } else {
        hi := mid;
      }
    }
    assert forall j :: lo < j < |keys| ==> keys[hi] <= keys[j];
    LastLeqUnique(keys, target, lo);
    r := Some(lo);
  }

  // ---------------------------------------------------------------- the spine

  function StartIds(vs: seq<Vector>): seq<nat> {
    seq(|vs|, i requires 0 <= i < |vs| => vs[i].startId)
  }

  /** How many ids have been given out. */
  function Total(vs: seq<Vector>): nat {
    if vs == [] then 0 else vs[|vs| - 1].startId + vs[|vs| - 1].count
  }

  ghost predicate Contiguous(vs: seq<Vector>) {
    && (forall i :: 0 <= i < |vs| ==> vs[i].count == |vs[i].sites| % ID_LIMIT && StrictlyAscending(vs[i].sites))
    && (forall i :: 0 <= i < |vs| ==> vs[i].startId < ID_LIMIT)
    && (forall i :: 0 <= i < |vs| ==> vs[i].startId == Total(vs[..i]))
  }

  /** A site of a file's table. */
  ghost predicate Listed(vs: seq<Vector>, s: Site) {
    s.slot < |vs| && s.index < |vs[s.slot].sites|
  }

  /** One that is counted, too. */
  ghost predicate Known(vs: seq<Vector>, s: Site) {
    s.slot < |vs| && s.index < vs[s.slot].count
  }

  /** A table is counted in full exactly when its length has at most 16 bits. */
  lemma CountedIff(vs: seq<Vector>, i: nat)
    requires Contiguous(vs) && i < |vs|
    ensures vs[i].count <= |vs[i].sites| && vs[i].count < ID_LIMIT
    ensures vs[i].count == |vs[i].sites| <==> |vs[i].sites| < ID_LIMIT
  {
    assert vs[i].count == |vs[i].sites| % ID_LIMIT;
  }

  lemma {:induction false} StartsAscend(vs: seq<Vector>, i: nat, j: nat)
    requires Contiguous(vs) && i < j < |vs|
    ensures vs[i].startId + vs[i].count <= vs[j].startId
    decreases j
  {
    assert vs[..j][j - 1] == vs[j - 1];
    if i < j - 1 {
      StartsAscend(vs, i, j - 1);
    }
  }

  lemma StartsAscending(vs: seq<Vector>)
    requires Contiguous(vs)
    ensures Ascending(StartIds(vs))
  {
    forall i, j | 0 <= i < j < |vs|
      ensures StartIds(vs)[i] <= StartIds(vs)[j]
    {
      StartsAscend(vs, i, j);
    }
  }

  /** The number a site has before it is cut to 16 bits. */
  function FullId(vs: seq<Vector>, s: Site): nat
    requires s.slot < |vs|
  {
    vs[s.slot].startId + s.index
  }

  /** The id ranges of the files are disjoint. */
  lemma FullIdsDiffer(vs: seq<Vector>, s: Site, t: Site)
    requires Contiguous(vs) && Known(vs, s) && Known(vs, t) && FullId(vs, s) == FullId(vs, t)
    ensures s == t
  {
    if s.slot < t.slot {
      StartsAscend(vs, s.slot, t.slot);
    } else if t.slot < s.slot {
      StartsAscend(vs, t.slot, s.slot);
    }
  }

  /** A site of table `i` has the same number as one of table `j`. */
  ghost predicate Collide(vs: seq<Vector>, i: nat, j: nat) {
    exists s, t :: Listed(vs, s) && Listed(vs, t) && s.slot == i && t.slot == j && FullId(vs, s) == FullId(vs, t)
  }

  /** Two tables, one after the other, share a number exactly when the first has 65536 sites or more. */
  lemma TablesCollideIff(vs: seq<Vector>, i: nat)
    requires Contiguous(vs) && i + 1 < |vs| && vs[i + 1].sites != []
    ensures Collide(vs, i, i + 1) <==> 65536 <= |vs[i].sites|
  {
    CountedIff(vs, i);
    assert vs[..i + 1][i] == vs[i];
    if ID_LIMIT <= |vs[i].sites| {
      var s, t := Site(i, vs[i].count), Site(i + 1, 0);
      assert Listed(vs, s) && Listed(vs, t) && FullId(vs, s) == FullId(vs, t);
    }
  }

  lemma FullIdBelowTotal(vs: seq<Vector>, s: Site)
    requires Contiguous(vs) && Known(vs, s)
    ensures FullId(vs, s) < Total(vs)
  {
    if s.slot < |vs| - 1 {
      StartsAscend(vs, s.slot, |vs| - 1);
    }
  }

  /** The id of a site as 16 bits hold it. */
  function IdOf(vs: seq<Vector>, s: Site): nat
    requires s.slot < |vs|
  {
    FullId(vs, s) % ID_LIMIT
  }

  /** The site that an id is resolved to. */
  function SiteOf(vs: seq<Vector>, id: nat): (r: Option<Site>)
    ensures r.Some? ==> r.value.slot < |vs| && FullId(vs, r.value) == id
  {
    var slot := LastLeq(StartIds(vs), id);
    if slot.None? then None else Some(Site(slot.value, id - vs[slot.value].startId))
  }

  /** Every number below the total resolves to the site that has it: the ranges leave no gap. */
  lemma SiteOfIsKnown(vs: seq<Vector>, id: nat)
    requires Contiguous(vs) && id < Total(vs)
    ensures SiteOf(vs, id).Some? && Known(vs, SiteOf(vs, id).value)
  {
    var slot := LastLeq(StartIds(vs), id);
    assert StartIds(vs)[0] == vs[0].startId == Total(vs[..0]);
    assert slot.Some?;
    if slot.value + 1 < |vs| {
      assert id < StartIds(vs)[slot.value + 1];
      assert vs[..slot.value + 1][slot.value] == vs[slot.value];
    }
  }

  lemma FullIdResolves(vs: seq<Vector>, s: Site)
    requires Contiguous(vs) && Known(vs, s)
    ensures SiteOf(vs, FullId(vs, s)) == Some(s)
  {
    FullIdBelowTotal(vs, s);
    SiteOfIsKnown(vs, FullId(vs, s));
    FullIdsDiffer(vs, s, SiteOf(vs, FullId(vs, s)).value);
  }

  /** Resolving undoes giving an id, exactly for the sites whose number has at most 16 bits. */
  lemma IdUndone(vs: seq<Vector>, s: Site)
    requires Contiguous(vs) && Known(vs, s)
    ensures SiteOf(vs, IdOf(vs, s)) == Some(s) <==> FullId(vs, s) < 65536
  {
    if FullId(vs, s) < ID_LIMIT {
      assert IdOf(vs, s) == FullId(vs, s);
      FullIdResolves(vs, s);
    } else {
      assert IdOf(vs, s) != FullId(vs, s);
    }
  }

  /** Giving an id undoes resolving, for every id given out. */
  lemma ResolvingUndone(vs: seq<Vector>, id: nat)
    requires Contiguous(vs) && id < Total(vs) && id < ID_LIMIT
    ensures SiteOf(vs, id).Some? && IdOf(vs, SiteOf(vs, id).value) == id
  {
    SiteOfIsKnown(vs, id);
  }

  /** Two files whose sites run over the last id: the last site is taken for the first one. */
  lemma LastSiteMistaken()
    ensures var vs := [Vector(0, 65535, 0, seq(65535, (i: nat) => i)), Vector(65535, 2, 0, [0, 1])];
      Contiguous(vs) && Known(vs, Site(1, 1)) && SiteOf(vs, IdOf(vs, Site(1, 1))) == Some(Site(0, 0))
  {
    var vs := [Vector(0, 65535, 0, seq(65535, (i: nat) => i)), Vector(65535, 2, 0, [0, 1])];
    assert vs[..0] == [] && vs[..1] == [vs[0]];
    assert Contiguous(vs);
    assert IdOf(vs, Site(1, 1)) == 0;
    LastLeqUnique(StartIds(vs), 0, 0);
  }

  /** The array can be filled while ids are left, so the guard does let a file through that has no slot. */
  lemma FullWithIdsLeft() returns (vs: seq<Vector>)
    ensures |vs| == INDEX_SIZE && Contiguous(vs) && Total(vs) < ID_LIMIT
  {
    vs := seq(INDEX_SIZE, (i: nat) => Vector(i, 1, 0, [0]));
    forall i | 0 <= i < |vs|
      ensures vs[i].startId == Total(vs[..i])
    {
      if 0 < i {
        assert vs[..i][i - 1] == vs[i - 1];
      }
    }
  }

  /** While at most 65535 ids have been given out, none of them is the one for "no such site". */
  lemma NoIdIsFree(vs: seq<Vector>, s: Site)
    requires Contiguous(vs) && Known(vs, s) && Total(vs) <= NO_ID
    ensures IdOf(vs, s) != NO_ID
  {
    FullIdBelowTotal(vs, s);
  }

  // ---------------------------------------------------------------- addresses

  function AddressOf(vs: seq<Vector>, s: Site): nat
    requires s.slot < |vs| && s.index < |vs[s.slot].sites|
  {
    vs[s.slot].fileBase + vs[s.slot].sites[s.index]
  }

  /** The counted site at or last before an address in a file. */
  function SiteAt(vs: seq<Vector>, slot: nat, addr: nat): (r: Option<Site>)
    requires slot < |vs| && vs[slot].count <= |vs[slot].sites| && vs[slot].fileBase <= addr
    ensures r.Some? ==> r.value.slot == slot && r.value.index < vs[slot].count && AddressOf(vs, r.value) <= addr
    ensures forall i :: 0 <= i < vs[slot].count && (r.Some? ==> r.value.index < i) ==>
      addr < AddressOf(vs, Site(slot, i))
  {
    var i := LastLeq(vs[slot].sites[..vs[slot].count], addr - vs[slot].fileBase);
    if i.None? then None else Some(Site(slot, i.value))
  }

  /** A site's own address leads back to it, exactly for the sites that are counted. */
  lemma AddressUndone(vs: seq<Vector>, s: Site)
    requires Contiguous(vs) && Listed(vs, s)
    ensures vs[s.slot].count <= |vs[s.slot].sites|
    ensures SiteAt(vs, s.slot, AddressOf(vs, s)) == Some(s) <==> s.index < vs[s.slot].count
  {
    CountedIff(vs, s.slot);
    if s.index < vs[s.slot].count {
      LastLeqUnique(vs[s.slot].sites[..vs[s.slot].count], vs[s.slot].sites[s.index], s.index);
    }
  }

  /** What is known of the file that an address is in: nothing, that it has no sites, or its vector. */
  datatype FileInfo = NoFile | NoSites | InVector(slot: nat)

  ghost predicate Plausible(vs: seq<Vector>, file: FileInfo, addr: nat) {
    file.InVector? ==>
      file.slot < |vs| && vs[file.slot].count <= |vs[file.slot].sites| && vs[file.slot].fileBase <= addr
  }

  /** What becomes of a file that is loaded: its slot, the program stopped, or a slot past the end. */
  datatype Loading = At(slot: nat) | Stopped | PastEnd

  class Spine {
    var vectors: array<Vector>
    var nextFree: nat

    ghost predicate Valid()
      reads this, vectors
    {
      nextFree <= vectors.Length == INDEX_SIZE && Contiguous(vectors[..nextFree])
    }

    ghost function Contents(): seq<Vector>
      reads this, vectors
      requires nextFree <= vectors.Length
    {
      vectors[..nextFree]
    }

    constructor ()
      ensures Valid() && fresh(vectors) && Contents() == []
    {
      vectors := new Vector[INDEX_SIZE](_ => Vector(0, 0, 0, []));
      nextFree := 0;
    }

    /** The first id for the next file, unless the 16-bit sum for it wraps around. */
    method NextStartId() returns (r: Option<nat>)
      requires Valid()
      ensures r == if Total(Contents()) < ID_LIMIT then Some(Total(Contents())) else None
    {
      if nextFree == 0 {
        return Some(0);
      }
      var prev := vectors[nextFree - 1];
      assert prev == Contents()[nextFree - 1];
      var startId := (prev.startId + prev.count) % ID_LIMIT;
      WrapsAround(prev.startId, prev.count);
      r := if startId < prev.startId then None else Some(startId);
    }

    /** A table as it is after loading any number of files: after one too many, the counter is past the
        end of the array. */
    ghost predicate Loadable()
      reads this, vectors
    {
      nextFree <= vectors.Length + 1 && vectors.Length == INDEX_SIZE && Contiguous(Loaded())
    }

    ghost function Loaded(): seq<Vector>
      reads this, vectors
    {
      vectors[..if nextFree < vectors.Length then nextFree else vectors.Length]
    }

    /** Add a file's sites. The program is stopped when the slot is beyond what the guard allows, or when
        the 16-bit sum for the first id wraps around, which is when no id is left to begin with. The guard
        allows one slot too many: that one is past the end. */
    method InitAllocsitesInfo(fileBase: nat, sites: seq<nat>) returns (r: Loading)
      requires Loadable() && StrictlyAscending(sites)
      modifies this`nextFree, vectors
      ensures Loadable() && (r.Stopped? <==> INDEX_SIZE < old(nextFree) || ID_LIMIT <= Total(old(Loaded())))
      ensures r.PastEnd? <==> old(nextFree) == INDEX_SIZE && Total(old(Loaded())) < ID_LIMIT
      ensures r.At? ==> Valid() && r.slot == old(nextFree)
      ensures Loaded() == old(Loaded())
        + if r.At? then [Vector(Total(old(Loaded())), |sites| % ID_LIMIT, fileBase, sites)] else []
    {
      var slot := nextFree;
      if slot > INDEX_SIZE {
        return Stopped;
      }
      assert Valid();
      var startId := NextStartId();
      if startId.None? {
        return Stopped;
      }
      if slot == INDEX_SIZE {
        nextFree := nextFree + 1;
        return PastEnd;
      }
      Append(Vector(startId.value, |sites| % ID_LIMIT, fileBase, sites));
      r := At(slot);
    }

    method Append(v: Vector)
      requires Valid() && nextFree < INDEX_SIZE && v.startId == Total(Contents()) < ID_LIMIT
      requires v.count == |v.sites| % ID_LIMIT && StrictlyAscending(v.sites)
      modifies this`nextFree, vectors
      ensures Valid() && nextFree == old(nextFree) + 1 && Contents() == old(Contents()) + [v]
    {
      ghost var vs := Contents();
      AppendContiguous(vs, v);
      vectors[nextFree] := v;
      nextFree := nextFree + 1;
      assert Contents() == vs + [v];
    }

    method FindAllocsiteEntryAt(addr: nat, file: FileInfo) returns (r: Option<Site>)
      requires Valid() && Plausible(Contents(), file, addr)
      ensures r == if file.InVector? then SiteAt(Contents(), file.slot, addr) else None
    {
      if !file.InVector? {
        return None;
      }
      var v := vectors[file.slot];
      assert v == Contents()[file.slot];
      var i := BsearchLeq(v.sites[..v.count], addr - v.fileBase);
      r := if i.None? then None else Some(Site(file.slot, i.value));
    }

    /** The id of the site at an address. The reply when there is no file is 0, which is an id too. */
    method AllocsiteId(addr: nat, file: FileInfo) returns (id: nat)
      requires Valid() && Plausible(Contents(), file, addr)
      ensures file.NoFile? ==> id == 0
      ensures file.NoSites? ==> id == 65535
      ensures file.InVector? ==> var s := SiteAt(Contents(), file.slot, addr);
        id == if s.None? then 65535 else IdOf(Contents(), s.value)
    {
      if file.NoFile? {
        return 0;
      }
      var found := FindAllocsiteEntryAt(addr, file);
      if found.None? {
        return NO_ID;
      }
      var v := vectors[file.slot];
      assert v == Contents()[file.slot];
      id := (v.startId + found.value.index) % ID_LIMIT;
    }

    method AllocsiteEntryById(id: nat) returns (r: Option<Site>)
      requires Valid()
      ensures r == SiteOf(Contents(), id)
      ensures id < Total(Contents()) ==> r.Some? && Known(Contents(), r.value)
    {
      var keys := StartIds(vectors[..nextFree]);
      StartsAscending(Contents());
      var slot := BsearchLeq(keys, id);
      if id < Total(Contents()) {
        SiteOfIsKnown(Contents(), id);
      }
      if slot.None? {
        return None;
      }
      assert vectors[slot.value] == Contents()[slot.value];
      r := Some(Site(slot.value, id - vectors[slot.value].startId));
    }

    /** The address of a site, from an id that was given out. */
    method AllocsiteById(id: nat) returns (addr: nat)
      requires Valid() && id < Total(Contents())
      ensures var s := SiteOf(Contents(), id);
        s.Some? && Known(Contents(), s.value) && addr == AddressOf(Contents(), s.value)
    {
      var s := AllocsiteEntryById(id);
      assert vectors[s.value.slot] == Contents()[s.value.slot];
      addr := vectors[s.value.slot].fileBase + vectors[s.value.slot].sites[s.value.index];
    }

    /** From a site's address to its id and back, while ids last. */
    method AddressRoundTrip(s: Site) returns (id: nat, addr: nat)
      requires Valid() && Known(Contents(), s) && Total(Contents()) <= NO_ID
      ensures id != NO_ID && addr == AddressOf(Contents(), s)
    {
      var v := vectors[s.slot];
      assert v == Contents()[s.slot];
      AddressUndone(Contents(), s);
      id := AllocsiteId(v.fileBase + v.sites[s.index], InVector(s.slot));
      NoIdIsFree(Contents(), s);
      FullIdBelowTotal(Contents(), s);
      IdUndone(Contents(), s);
      addr := AllocsiteById(id);
    }

    /** From an id to its site's address and back, when the address is looked up in the site's file. */
    method IdRoundTrip(id: nat, fileOf: nat -> FileInfo) returns (addr: nat, id': nat)
      requires Valid() && id < Total(Contents()) <= ID_LIMIT
      requires forall s :: Known(Contents(), s) ==> fileOf(AddressOf(Contents(), s)) == InVector(s.slot)
      ensures id' == id
    {
      addr := AllocsiteById(id);
      ghost var s := SiteOf(Contents(), id).value;
      AddressUndone(Contents(), s);
      ResolvingUndone(Contents(), id);
      id' := AllocsiteId(addr, fileOf(addr));
    }
  }

  /** The sum of two 16-bit numbers, cut to 16 bits, is less than the first just when it was cut. */
  lemma WrapsAround(a: nat, b: nat)
    requires a < ID_LIMIT && b < ID_LIMIT
    ensures if a + b < ID_LIMIT then (a + b) % ID_LIMIT == a + b else (a + b) % ID_LIMIT < a
  {
    if ID_LIMIT <= a + b {
      assert (a + b) % ID_LIMIT == a + b - ID_LIMIT;
    }
  }

  /** A vector that begins where the last one ends keeps the ids contiguous. */
  lemma AppendContiguous(vs: seq<Vector>, v: Vector)
    requires Contiguous(vs) && v.startId == Total(vs) < ID_LIMIT && v.count == |v.sites| % ID_LIMIT
    requires StrictlyAscending(v.sites)
    ensures Contiguous(vs + [v])
  {
    forall i | 0 <= i < |vs + [v]|
      ensures (vs + [v])[i].startId == Total((vs + [v])[..i])
    {
      if i < |vs| {
        assert (vs + [v])[..i] == vs[..i];
      } else {
        assert (vs + [v])[..i] == vs;
      }
    }
  }
}
