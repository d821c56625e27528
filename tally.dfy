/** Load accounting: the sum of a map of loads, and the number of keys an
    assignment table gives each node. Both rings promise that the loads they
    keep add up to the keys they have handed out; these are the definitions
    those promises are stated with. */
module Tally {

  /** Some element of a non-empty set (the same one every time). */
  ghost function Pick<K>(s: set<K>): K
    requires s != {}
  {
    var k :| k in s; k
  }

  /** The sum of the values of m. */
  ghost function Sum<K>(m: map<K, int>): int
    decreases |m|
  {
    if |m| == 0 then 0
    else
      var k := Pick(m.Keys);
      m[k] + Sum(m - {k})
  }

  /** Any entry can be taken out of the sum first. */
  lemma {:induction false} SumRemove<K>(m: map<K, int>, k: K)
    requires k in m
    ensures Sum(m) == m[k] + Sum(m - {k})
    decreases |m|
  {
    var j := Pick(m.Keys);
    if j != k {
      SumRemove(m - {j}, k);
      SumRemove(m - {k}, j);
      assert m - {j} - {k} == m - {k} - {j};
    }
  }

  /** Changing one entry changes the sum by the difference. */
  lemma SumUpdate<K>(m: map<K, int>, k: K, v: int)
    requires k in m
    ensures Sum(m[k := v]) == Sum(m) - m[k] + v
  {
    SumRemove(m, k);
    SumRemove(m[k := v], k);
    assert m[k := v] - {k} == m - {k};
  }

  /** Adding an entry under a new key adds its value to the sum. */
  lemma SumInsert<K>(m: map<K, int>, k: K, v: int)
    requires k !in m
    ensures Sum(m[k := v]) == Sum(m) + v
  {
    SumRemove(m[k := v], k);
    assert m[k := v] - {k} == m;
  }

  /** The keys an assignment table maps to id. */
  ghost function Owned(a: map<string, string>, id: string): set<string> {
    set key | key in a && a[key] == id
  }

  /** How many keys the table assigns to id. */
  ghost function Count(a: map<string, string>, id: string): nat {
    |Owned(a, id)|
  }

  /** Assigning a key that was not in the table raises the count of its new
      owner by one and leaves every other count alone. */
  lemma CountAfterAssign(a: map<string, string>, key: string, id: string, x: string)
    requires key !in a
    ensures Count(a[key := id], x) == Count(a, x) + (if x == id then 1 else 0)
  {
    if x == id {
      assert Owned(a[key := id], x) == Owned(a, x) + {key};
    } else {
      assert Owned(a[key := id], x) == Owned(a, x);
    }
  }

  /** Deleting a key lowers the count of its owner by one and leaves every
      other count alone. */
  lemma CountAfterRelease(a: map<string, string>, key: string, x: string)
    requires key in a
    ensures Count(a - {key}, x) == Count(a, x) - (if a[key] == x then 1 else 0)
  {
    if a[key] == x {
      assert Owned(a, x) == Owned(a - {key}, x) + {key};
    } else {
      assert Owned(a - {key}, x) == Owned(a, x);
    }
  }

  /** The per-owner counts for a set of owners. */
  ghost function Counts(a: map<string, string>, ids: set<string>): map<string, int> {
    map id | id in ids :: Count(a, id)
  }

  /** When every key's owner is among ids, the per-owner counts add up to the
      number of keys in the table. */
  lemma {:induction false} CountsAddUp(a: map<string, string>, ids: set<string>)
    requires forall k :: k in a ==> a[k] in ids
    ensures Sum(Counts(a, ids)) == |a|
    decreases |a|
  {
    if |a| == 0 {
      forall id | id in ids ensures Count(a, id) == 0 {
        assert Owned(a, id) == {};
      }
      EmptyCountsSumToZero(Counts(a, ids));
    } else {
      var key := Pick(a.Keys);
      var rest := a - {key};
      CountsAddUp(rest, ids);
      CountsAfterRelease(a, ids, key);
      SumUpdate(Counts(rest, ids), a[key], Counts(rest, ids)[a[key]] + 1);
    }
  }

  /** Deleting a key whose owner is among ids lowers that owner's entry in
      the per-owner counts by one. */
  lemma CountsAfterRelease(a: map<string, string>, ids: set<string>, key: string)
    requires key in a && a[key] in ids
    ensures Counts(a, ids) == Counts(a - {key}, ids)[a[key] := Counts(a - {key}, ids)[a[key]] + 1]
  {
    forall x | x in ids ensures Counts(a, ids)[x] == Counts(a - {key}, ids)[x] + (if x == a[key] then 1 else 0) {
      CountAfterRelease(a, key, x);
    }
  }

  /** A map of zeros sums to zero. */
  lemma {:induction false} EmptyCountsSumToZero<K>(m: map<K, int>)
    requires forall k :: k in m ==> m[k] == 0
    ensures Sum(m) == 0
    decreases |m|
  {
    if |m| != 0 {
      var k := Pick(m.Keys);
      EmptyCountsSumToZero(m - {k});
    }
  }
}
