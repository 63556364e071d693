/** A JavaScript Map: entries in order of first insertion; setting an existing key keeps its place. */
module OrderedMap {
  import opened Prelude

  function Index<K(==), V>(m: seq<(K, V)>, key: K): (i: nat)
    ensures i <= |m|
    ensures i < |m| ==> m[i].0 == key
    ensures forall j :: 0 <= j < i ==> m[j].0 != key
  {
    if m == [] || m[0].0 == key then 0 else 1 + Index(m[1..], key)
  }

  predicate Has<K(==), V>(m: seq<(K, V)>, key: K) {
    Index(m, key) < |m|
  }

  function Get<K(==), V>(m: seq<(K, V)>, key: K): Option<V> {
    var i := Index(m, key);
    if i < |m| then Some(m[i].1) else None
  }

  function Set<K(==), V>(m: seq<(K, V)>, key: K, value: V): seq<(K, V)> {
    var i := Index(m, key);
    if i < |m| then m[i := (key, value)] else m + [(key, value)]
  }

  function Values<K, V>(m: seq<(K, V)>): (r: seq<V>)
    ensures |r| == |m| && forall i :: 0 <= i < |m| ==> r[i] == m[i].1
  {
    seq(|m|, i requires 0 <= i < |m| => m[i].1)
  }

  function Keys<K, V>(m: seq<(K, V)>): (r: seq<K>)
    ensures |r| == |m| && forall i :: 0 <= i < |m| ==> r[i] == m[i].0
  {
    seq(|m|, i requires 0 <= i < |m| => m[i].0)
  }

  ghost predicate DistinctKeys<K, V>(m: seq<(K, V)>) {
    forall i, j :: 0 <= i < j < |m| ==> m[i].0 != m[j].0
  }

  lemma SetKeepsDistinct<K, V>(m: seq<(K, V)>, key: K, value: V)
    requires DistinctKeys(m)
    ensures DistinctKeys(Set(m, key, value))
  {
  }

  lemma IndexOfEntry<K, V>(m: seq<(K, V)>, i: nat)
    requires DistinctKeys(m) && i < |m|
    ensures Index(m, m[i].0) == i
  {
  }

  lemma GetSet<K, V>(m: seq<(K, V)>, key: K, value: V, k: K)
    ensures Get(Set(m, key, value), k) == if k == key then Some(value) else Get(m, k)
  {
    var m' := Set(m, key, value);
    var i := Index(m, key);
    if k == key {
      IndexIs(m', k, i);
    } else {
      var j := Index(m, k);
      if j < |m| { IndexIs(m', k, j); }
    }
  }

  lemma IndexIs<K, V>(m: seq<(K, V)>, key: K, i: nat)
    requires i < |m| && m[i].0 == key && forall j :: 0 <= j < i ==> m[j].0 != key
    ensures Index(m, key) == i
  {
  }

}
