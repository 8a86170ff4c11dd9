/** Sums over the values of a finite map. */
module Sums {
  ghost function Sum<K(!new)>(m: map<K, nat>): nat {
    if m == map[] then 0
    else
      var k :| k in m;
      m[k] + Sum(m - {k})
  }

  /** Any entry can be taken out first. */
  lemma {:induction false} SumRemove<K(!new)>(m: map<K, nat>, k: K)
    requires k in m
    ensures Sum(m) == m[k] + Sum(m - {k})
    decreases |m|
  {
    var first :| first in m && Sum(m) == m[first] + Sum(m - {first});
    if first != k {
      SumRemove(m - {first}, k);
      SumRemove(m - {k}, first);
      assert m - {first} - {k} == m - {k} - {first};
    }
  }

  lemma SumAdd<K(!new)>(m: map<K, nat>, k: K, v: nat)
    requires k !in m
    ensures Sum(m[k := v]) == Sum(m) + v
  {
    SumRemove(m[k := v], k);
    assert m[k := v] - {k} == m;
  }

  /** Replacing an entry changes the sum by the difference. */
  lemma SumReplace<K(!new)>(m: map<K, nat>, k: K, v: nat)
    requires k in m
    ensures Sum(m[k := v]) + m[k] == Sum(m) + v
  {
    SumRemove(m, k);
    SumAdd(m - {k}, k, v);
    assert (m - {k})[k := v] == m[k := v];
  }

  lemma {:induction false} SumUnion<K(!new)>(a: map<K, nat>, b: map<K, nat>)
    requires a.Keys !! b.Keys
    ensures Sum(a + b) == Sum(a) + Sum(b)
    decreases |b|
  {
    hide Sum;
    if b == map[] {
      SumEmpty(b);
      assert a + b == a;
    } else {
      var k :| k in b;
      var rest := b - {k};
      SumRemove(b, k);
      SumUnion(a, rest);
      SumAdd(a + rest, k, b[k]);
      UnionStep(a, b, k);
    }
  }

  lemma UnionStep<K>(a: map<K, nat>, b: map<K, nat>, k: K)
    requires k in b
    ensures (a + (b - {k}))[k := b[k]] == a + b
  {
  }

  lemma SumEmpty<K(!new)>(m: map<K, nat>)
    requires m == map[]
    ensures Sum(m) == 0
  {
  }
}
