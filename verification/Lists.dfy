/** Lists of slot numbers without repetition; number 0 stands for no slot. */
module Lists {

  function At(ks: seq<nat>, k: int): nat {
    if 0 <= k < |ks| then ks[k] else 0
  }

  predicate Distinct(ks: seq<nat>) {
    forall i, j :: 0 <= i < j < |ks| ==> ks[i] != ks[j]
  }

  function Without(ks: seq<nat>, k: nat): seq<nat>
    requires k < |ks|
  {
    ks[..k] + ks[k + 1..]
  }

  function Inserted(ks: seq<nat>, k: nat, c: nat): seq<nat>
    requires k <= |ks|
  {
    ks[..k] + [c] + ks[k..]
  }

  lemma WithoutAt(ks: seq<nat>, k: nat, i: int)
    requires k < |ks|
    ensures At(Without(ks, k), i) == At(ks, if i < k then i else i + 1)
  {
  }

  lemma InsertedAt(ks: seq<nat>, k: nat, c: nat, i: int)
    requires k <= |ks|
    ensures At(Inserted(ks, k, c), i) == if i == k then c else At(ks, if i < k then i else i - 1)
  {
  }

  lemma WithoutIn(ks: seq<nat>, k: nat, n: nat)
    requires k < |ks| && n != ks[k]
    ensures n in Without(ks, k) <==> n in ks
  {
    if n in ks {
      var j :| 0 <= j < |ks| && ks[j] == n;
      assert n == Without(ks, k)[if j < k then j else j - 1];
    }
  }

  lemma InsertedIn(ks: seq<nat>, k: nat, c: nat, n: nat)
    requires k <= |ks| && n != c
    ensures n in Inserted(ks, k, c) <==> n in ks
  {
    if n in ks {
      var j :| 0 <= j < |ks| && ks[j] == n;
      assert n == Inserted(ks, k, c)[if j < k then j else j + 1];
    }
  }

  lemma InsertedKeeps(ks: seq<nat>, k: nat, c: nat)
    ensures k <= |ks| ==> c in Inserted(ks, k, c) && forall n :: n in ks ==> n in Inserted(ks, k, c)
  {
    if k <= |ks| {
      assert Inserted(ks, k, c)[k] == c;
      forall n | n in ks
        ensures n in Inserted(ks, k, c)
      {
        if n != c {
          InsertedIn(ks, k, c, n);
        }
      }
    }
  }

  /** Taking the first element off a list without repetition. */
  lemma WithoutFirst(ks: seq<nat>, k: nat)
    requires Distinct(ks) && k < |ks| && ks[k] == ks[0]
    ensures k == 0 && Without(ks, k) == ks[1..] && At(Without(ks, k), 0) == At(ks, 1)
  {
  }

  lemma FirstOfRest(ks: seq<nat>)
    requires ks != []
    ensures At(ks[1..], 0) == At(ks, 1)
  {
  }
}
