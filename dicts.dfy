/**
 * Python dictionaries as association lists. A `dict` keeps its keys in
 * insertion order, and the core's output (the order of alerts) depends on that
 * order, so a dictionary is a sequence of key/value pairs.
 */
module Dicts {
  import opened Wrappers

  type Dict<K, V> = seq<(K, V)>

  predicate HasKey<K(==), V>(d: Dict<K, V>, k: K) {
    exists i :: 0 <= i < |d| && d[i].0 == k
  }

  predicate DistinctKeys<K(==), V>(d: Dict<K, V>) {
    forall i, j :: 0 <= i < j < |d| ==> d[i].0 != d[j].0
  }

  /** `d.get(k)`: the value of the first pair with key `k`. */
  function Get<K(==), V>(d: Dict<K, V>, k: K): (r: Option<V>)
    ensures r.None? <==> !HasKey(d, k)
    ensures r.Some? ==> exists i :: 0 <= i < |d| && d[i] == (k, r.value) && forall j :: 0 <= j < i ==> d[j].0 != k
  {
    if d == [] then None
    else if d[0].0 == k then Some(d[0].1)
    else
      var r := Get(d[1..], k);
      assert forall i :: 0 <= i < |d[1..]| ==> d[1..][i] == d[i + 1];
      r
  }

  /** With distinct keys, `Get` finds the value stored at any position holding the key. */
  lemma GetAt<K, V>(d: Dict<K, V>, i: nat)
    requires DistinctKeys(d) && i < |d|
    ensures Get(d, d[i].0) == Some(d[i].1)
  {
  }
}
