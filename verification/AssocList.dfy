/** The simple thing the hash table speeds up: an association list in insertion order. */
module AssocList {
  import opened Basics

  type Assoc<K, V> = seq<(K, V)>

  ghost predicate DistinctKeys<K, V>(s: Assoc<K, V>) {
    forall i, j :: 0 <= i < j < |s| ==> s[i].0 != s[j].0
  }

  predicate HasKey<K(==), V>(s: Assoc<K, V>, key: K) {
    exists i :: 0 <= i < |s| && s[i].0 == key
  }

  /** Linear search. */
  function PositionOf<K(==), V>(s: Assoc<K, V>, key: K): (r: Option<nat>)
    ensures r.Some? ==> r.value < |s| && s[r.value].0 == key
    ensures r.None? ==> !HasKey(s, key)
  {
    if s == [] then None
    else if s[|s| - 1].0 == key then Some(|s| - 1)
    else PositionOf(s[..|s| - 1], key)
  }

  /** Overwrite position p with the last element and drop the last. */
  function SwapRemove<K, V>(s: Assoc<K, V>, p: nat): (r: Assoc<K, V>)
    requires p < |s|
    ensures |r| == |s| - 1 && forall i: nat | i < |r| :: r[i] == if i == p then s[|s| - 1] else s[i]
  {
    s[p := s[|s| - 1]][..|s| - 1]
  }

  function Put<K(==), V>(s: Assoc<K, V>, key: K, value: V): Assoc<K, V> {
    match PositionOf(s, key)
    case Some(p) => s[p := (key, value)]
    case None => s + [(key, value)]
  }

  lemma PositionUnique<K, V>(s: Assoc<K, V>, p: nat)
    requires DistinctKeys(s) && p < |s|
    ensures PositionOf(s, s[p].0) == Some(p)
  {}

  lemma Absent<K, V>(s: Assoc<K, V>, key: K)
    requires forall i | 0 <= i < |s| :: s[i].0 != key
    ensures PositionOf(s, key) == None
  {}

  /** What a keyed collection looks like to a caller who ignores the order. */
  ghost function Lookup<K, V>(s: Assoc<K, V>, key: K): Option<V> {
    match PositionOf(s, key)
    case Some(p) => Some(s[p].1)
    case None => None
  }

  lemma LookupAt<K, V>(s: Assoc<K, V>, key: K, p: nat)
    requires DistinctKeys(s) && p < |s| && s[p].0 == key
    ensures Lookup(s, key) == Some(s[p].1)
  {
    PositionUnique(s, p);
  }

  /** Removal in order and removal by swapping lose exactly the removed key, and nothing else of any key's value. */
  lemma RemoveLookup<K, V>(s: Assoc<K, V>, p: nat, key: K)
    requires DistinctKeys(s) && p < |s|
    ensures DistinctKeys(Without(s, p)) && DistinctKeys(SwapRemove(s, p))
    ensures Lookup(Without(s, p), key) == if key == s[p].0 then None else Lookup(s, key)
    ensures Lookup(SwapRemove(s, p), key) == Lookup(Without(s, p), key)
  {
    var r, t := Without(s, p), SwapRemove(s, p);
    match PositionOf(s, key)
    case Some(q) =>
      if q == p {
        Absent(r, key);
        Absent(t, key);
      } else {
        LookupAt(r, key, if q < p then q else q - 1);
        LookupAt(t, key, if q == |s| - 1 then p else q);
      }
    case None =>
      assert forall i | 0 <= i < |s| :: s[i].0 != key;
      Absent(r, key);
      Absent(t, key);
  }

  /** Put gives its key the new value, leaves every other key's value and keeps every old key's position. */
  lemma PutLookup<K, V>(s: Assoc<K, V>, k: K, v: V, key: K)
    requires DistinctKeys(s)
    ensures DistinctKeys(Put(s, k, v))
    ensures Lookup(Put(s, k, v), key) == if key == k then Some(v) else Lookup(s, key)
    ensures PositionOf(s, key).Some? ==> PositionOf(Put(s, k, v), key) == PositionOf(s, key)
  {
    var r := Put(s, k, v);
    var pk := if PositionOf(s, k).Some? then PositionOf(s, k).value else |s|;
    PositionUnique(r, pk);
    match PositionOf(s, key)
    case Some(q) => PositionUnique(r, q);
    case None =>
      assert forall i | 0 <= i < |s| :: s[i].0 != key;
      if key != k { Absent(r, key); }
  }
}
