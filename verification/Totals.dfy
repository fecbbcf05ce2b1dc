/**
 How often a value occurs in a sequence, and in all sequences of a table together; moving a value from
 one sequence of a table to another keeps the total.
 */
module Totals {
  import opened Tables

  ghost function Count<V>(s: seq<V>, x: V): nat {
    multiset(s)[x]
  }

  lemma CountConcat<V>(s: seq<V>, t: seq<V>, x: V)
    ensures Count(s + t, x) == Count(s, x) + Count(t, x)
  {
  }

  // Moving the head of one sequence to the tail of another keeps the sum.
  lemma CountMove<V>(s: seq<V>, t: seq<V>, x: V)
    requires s != []
    ensures Count(s, x) + Count(t, x) == Count(s[1..], x) + Count(t + [s[0]], x)
  {
    assert s == [s[0]] + s[1..];
    CountConcat([s[0]], s[1..], x);
    CountConcat(t, [s[0]], x);
  }

  ghost function Total<K(!new), V>(m: map<K, seq<V>>, x: V): nat
    decreases |m|
  {
    if m == map[] then 0
    else
      var k :| k in m;
      assert |(m - {k}).Keys| < |m.Keys| by { assert (m - {k}).Keys == m.Keys - {k}; }
      Count(m[k], x) + Total(m - {k}, x)
  }

  // Any key may be split off first, not only the one the definition happens to choose.
  lemma {:induction false} TotalSplit<K(!new), V>(m: map<K, seq<V>>, k: K, x: V)
    requires k in m
    ensures Total(m, x) == Count(m[k], x) + Total(m - {k}, x)
    decreases |m|
  {
    var l :| l in m && Total(m, x) == Count(m[l], x) + Total(m - {l}, x);
    if l != k {
      assert |(m - {l}).Keys| < |m.Keys| by { assert (m - {l}).Keys == m.Keys - {l}; }
      assert |(m - {k}).Keys| < |m.Keys| by { assert (m - {k}).Keys == m.Keys - {k}; }
      TotalSplit(m - {l}, k, x);
      TotalSplit(m - {k}, l, x);
      assert m - {l} - {k} == m - {k} - {l};
    }
  }

  lemma TotalPut<K(!new), V>(m: map<K, seq<V>>, k: K, v: seq<V>, x: V)
    ensures Total(Put(m, k, v), x) + Count(At(m, k), x) == Total(m, x) + Count(v, x)
  {
    var rest := m - {k};
    if k in m {
      TotalSplit(m, k, x);
    } else {
      assert rest == m;
    }
    if v != [] {
      TotalSplit(m[k := v], k, x);
      assert m[k := v] - {k} == rest;
    }
  }

  lemma TotalAdd<K(!new), V>(m: map<K, seq<V>>, k: K, v: seq<V>, x: V)
    requires k !in m
    ensures Total(m[k := v], x) == Total(m, x) + Count(v, x)
  {
    TotalSplit(m[k := v], k, x);
    assert m[k := v] - {k} == m;
  }

  // A value held under two keys is counted at least twice.
  lemma TwoHolders<K(!new), V>(m: map<K, seq<V>>, k: K, l: K, x: V)
    requires k in m && l in m && k != l && x in m[k] && x in m[l]
    ensures Total(m, x) >= 2
  {
    TotalSplit(m, k, x);
    TotalSplit(m - {k}, l, x);
  }

  lemma {:induction false} Holder<K(!new), V>(m: map<K, seq<V>>, x: V) returns (k: K)
    requires Total(m, x) > 0
    ensures k in m && x in m[k]
    decreases |m|
  {
    var l :| l in m && Total(m, x) == Count(m[l], x) + Total(m - {l}, x);
    if x in m[l] {
      k := l;
    } else {
      assert Count(m[l], x) == 0;
      assert |(m - {l}).Keys| < |m.Keys| by { assert (m - {l}).Keys == m.Keys - {l}; }
      k := Holder(m - {l}, x);
    }
  }
}
