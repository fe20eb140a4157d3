// Sums over the values of a finite map.
module FiniteSums {

  ghost function Sum<K(!new)>(m: map<K, int>): int
    decreases |m|
  {
    if m == map[] then 0
    else
      var k :| k in m;
      m[k] + Sum(m - {k})
  }

  // The sum does not depend on which key is taken out first.
  lemma {:induction false} SumTakeOut<K(!new)>(m: map<K, int>, k: K)
    requires k in m
    ensures Sum(m) == m[k] + Sum(m - {k})
    decreases |m|
  {
    var j :| j in m && Sum(m) == m[j] + Sum(m - {j});
    if j != k {
      SumTakeOut(m - {j}, k);
      SumTakeOut(m - {k}, j);
      assert m - {j} - {k} == m - {k} - {j};
    }
  }

  lemma SumPut<K(!new)>(m: map<K, int>, k: K, v: int)
    ensures Sum(m[k := v]) == Sum(m) - (if k in m then m[k] else 0) + v
  {
    SumTakeOut(m[k := v], k);
    assert m[k := v] - {k} == m - {k};
    if k in m {
      SumTakeOut(m, k);
    } else {
      assert m - {k} == m;
    }
  }

  lemma {:induction false} SumAtMost<K(!new)>(a: map<K, int>, b: map<K, int>)
    requires a.Keys == b.Keys && forall k :: k in a ==> a[k] <= b[k]
    ensures Sum(a) <= Sum(b)
    decreases |a|
  {
    if a != map[] {
      var k :| k in a && Sum(a) == a[k] + Sum(a - {k});
      SumTakeOut(b, k);
      SumAtMost(a - {k}, b - {k});
    }
  }

  lemma SumLess<K(!new)>(a: map<K, int>, b: map<K, int>, k: K)
    requires a.Keys == b.Keys && forall j :: j in a ==> a[j] <= b[j]
    requires k in a && a[k] < b[k]
    ensures Sum(a) < Sum(b)
  {
    SumTakeOut(a, k);
    SumTakeOut(b, k);
    SumAtMost(a - {k}, b - {k});
  }

  lemma Distribute(b: int, n: int)
    ensures b * (n + 1) == b * n + b
  {
  }

  lemma {:induction false} SumBounded<K(!new)>(m: map<K, int>, bound: int)
    requires forall k :: k in m ==> m[k] <= bound
    ensures Sum(m) <= bound * |m|
    decreases |m|
  {
    if m != map[] {
      var k :| k in m && Sum(m) == m[k] + Sum(m - {k});
      SumBounded(m - {k}, bound);
      assert m.Keys == (m - {k}).Keys + {k} && |m.Keys| == |(m - {k}).Keys| + 1;
      Distribute(bound, |m - {k}|);
    }
  }

  lemma {:induction false} SumNotNegative<K(!new)>(m: map<K, int>)
    requires forall k :: k in m ==> 0 <= m[k]
    ensures 0 <= Sum(m)
    decreases |m|
  {
    if m != map[] {
      var k :| k in m && Sum(m) == m[k] + Sum(m - {k});
      SumNotNegative(m - {k});
    }
  }
}
