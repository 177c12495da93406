/** Sums of the values of a finite map. */
module Sums {

  ghost function Sum<K>(m: map<K, int>): int
  {
    if m == map[] then 0
    else var k :| k in m; m[k] + Sum(m - {k})
  }

  lemma {:induction false} SumRemove<K>(m: map<K, int>, k: K)
    requires k in m
    ensures Sum(m) == m[k] + Sum(m - {k})
    decreases m.Keys
  {
    var j :| j in m && Sum(m) == m[j] + Sum(m - {j});
    if j != k {
      assert k in m - {j};
      SumRemove(m - {j}, k);
      assert j in m - {k};
      SumRemove(m - {k}, j);
      assert m - {j} - {k} == m - {k} - {j};
    }
  }

  lemma {:induction false} SumUpdate<K>(m: map<K, int>, k: K, v: int)
    ensures Sum(m[k := v]) == Sum(m) + v - (if k in m then m[k] else 0)
  {
    SumRemove(m[k := v], k);
    if k in m {
      SumRemove(m, k);
      assert m[k := v] - {k} == m - {k};
    } else {
      assert m[k := v] - {k} == m;
    }
  }

  lemma {:induction false} SumBound<K>(m: map<K, int>, c: nat)
    requires forall k :: k in m ==> 0 <= m[k] <= c
    ensures 0 <= Sum(m) <= c * |m|
    decreases m.Keys
  {
    if m != map[] {
      var k :| k in m;
      var rest := m - {k};
      SumRemove(m, k);
      SizeRemove(m, k);
      SumBound(rest, c);
      Distribute(c, |rest|);
    }
  }

  lemma {:induction false} SizeRemove<K, V>(m: map<K, V>, k: K)
    requires k in m
    ensures |m| == |m - {k}| + 1
  {
    assert (m - {k}).Keys == m.Keys - {k};
  }

  lemma {:induction false} Distribute(c: nat, n: nat)
    ensures c * (n + 1) == c * n + c
  {
  }
}
