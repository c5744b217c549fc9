/** Sums over finite maps, independent of the order in which the keys are visited, and sizes of finite sets. */
module Sums {

  ghost function Sum<K>(m: map<K, nat>): nat {
    if m == map[] then 0 else
      var k :| k in m;
      m[k] + Sum(m - {k})
  }

  lemma {:induction false} SumRemove<K>(m: map<K, nat>, k: K)
    requires k in m
    ensures Sum(m) == m[k] + Sum(m - {k})
    decreases |m|
  {
    assert m != map[];
    var c :| c in m && Sum(m) == m[c] + Sum(m - {c});
    if c != k {
      SumRemove(m - {c}, k);
      SumRemove(m - {k}, c);
      assert (m - {c}) - {k} == (m - {k}) - {c};
    }
  }

  lemma SumUpdate<K>(m: map<K, nat>, k: K, v: nat)
    ensures Sum(m[k := v]) == Sum(m - {k}) + v
    ensures Sum(m[k := v]) == Sum(m) + v - (if k in m then m[k] else 0)
  {
    var u := m[k := v];
    SumRemove(u, k);
    assert u - {k} == m - {k};
    if k in m {
      SumRemove(m, k);
    } else {
      assert m - {k} == m;
    }
  }

  lemma SumAtLeast<K>(m: map<K, nat>, k: K)
    requires k in m
    ensures m[k] <= Sum(m)
  {
    SumRemove(m, k);
  }

  lemma {:induction false} SumOfZeros<K>(m: map<K, nat>)
    requires forall k :: k in m ==> m[k] == 0
    ensures Sum(m) == 0
    decreases |m|
  {
    if m != map[] {
      var k :| k in m;
      SumRemove(m, k);
      SumOfZeros(m - {k});
    }
  }

  function At<K>(m: map<K, nat>, k: K): nat {
    if k in m then m[k] else 0
  }

  /** Pointwise comparison, a missing key counting as zero. */
  lemma {:induction false} SumMonotone<K>(a: map<K, nat>, b: map<K, nat>)
    requires forall k :: k in a ==> a[k] <= At(b, k)
    ensures Sum(a) <= Sum(b)
    decreases |a|
  {
    if a != map[] {
      var k :| k in a;
      SumRemove(a, k);
      if k in b { SumRemove(b, k); } else { assert b - {k} == b; }
      SumMonotone(a - {k}, b - {k});
    }
  }

  /** Below pointwise, and strictly below on the keys of `drops`. */
  lemma {:induction false} SumDrops<K>(a: map<K, nat>, b: map<K, nat>, drops: set<K>)
    requires forall x :: x in a ==> a[x] <= At(b, x)
    requires forall x :: x in drops ==> x in a && a[x] < At(b, x)
    ensures Sum(a) + |drops| <= Sum(b)
    decreases |drops|
  {
    if drops == {} {
      SumMonotone(a, b);
    } else {
      var k :| k in drops;
      SumRemove(a, k);
      SumRemove(b, k);
      SumDrops(a - {k}, b - {k}, drops - {k});
    }
  }

  lemma SubsetSize<T>(a: set<T>, b: set<T>)
    requires a <= b
    ensures |a| <= |b|
  {
    assert b == a + (b - a);
  }
}
