/**
 Maps from keys to sequences or sets in which an absent key stands for an empty value, so that a key
 whose last value is taken away is gone, as it is for the lists and sets of Redis.
 */
module Tables {

  function At<K, V>(m: map<K, seq<V>>, k: K): seq<V> {
    if k in m then m[k] else []
  }

  function Put<K, V(==)>(m: map<K, seq<V>>, k: K, v: seq<V>): map<K, seq<V>> {
    if v == [] then m - {k} else m[k := v]
  }

  function SetAt<K, V>(m: map<K, set<V>>, k: K): set<V> {
    if k in m then m[k] else {}
  }

  function PutSet<K, V(==)>(m: map<K, set<V>>, k: K, v: set<V>): map<K, set<V>> {
    if v == {} then m - {k} else m[k := v]
  }

  // No key holds an empty value.
  ghost predicate NoEmptyList<K, V>(m: map<K, seq<V>>) {
    forall k | k in m :: m[k] != []
  }

  ghost predicate NoEmptySet<K, V>(m: map<K, set<V>>) {
    forall k | k in m :: m[k] != {}
  }

  lemma PutUnchanged<K, V>(m: map<K, seq<V>>, k: K)
    requires NoEmptyList(m)
    ensures Put(m, k, At(m, k)) == m
  {
  }

  lemma PutTwice<K, V>(m: map<K, seq<V>>, k: K, v: seq<V>, w: seq<V>)
    ensures Put(Put(m, k, v), k, w) == Put(m, k, w)
  {
  }
}
