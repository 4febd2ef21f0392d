/** Sums over the values of a map, taken in any order. */
module MapSums {

  ghost function Sum<K(!new)>(m: map<K, nat>): nat
    decreases |m|
  {
    if m == map[] then 0
    else
      var k :| k in m;
      m[k] + Sum(m - {k})
  }

  /** The sum does not depend on which key is taken first. */
  lemma {:induction false} SumTakesAnyKey<K(!new)>(m: map<K, nat>, key: K)
    requires key in m
    ensures Sum(m) == m[key] + Sum(m - {key})
    decreases |m|
  {
    var k :| k in m && Sum(m) == m[k] + Sum(m - {k});
    if k != key {
      SumTakesAnyKey(m - {k}, key);
      SumTakesAnyKey(m - {key}, k);
      assert m - {k} - {key} == m - {key} - {k};
    }
  }

  lemma SumWithKey<K(!new)>(m: map<K, nat>, key: K, value: nat)
    requires key !in m
    ensures Sum(m[key := value]) == Sum(m) + value
  {
    SumTakesAnyKey(m[key := value], key);
    assert m[key := value] - {key} == m;
  }

  lemma {:induction false} SumIsMonotone<K(!new)>(m: map<K, nat>, n: map<K, nat>)
    requires m.Keys == n.Keys && forall k :: k in m ==> m[k] <= n[k]
    ensures Sum(m) <= Sum(n)
    decreases |m|
  {
    if k :| k in m {
      SumTakesAnyKey(m, k);
      SumTakesAnyKey(n, k);
      SumIsMonotone(m - {k}, n - {k});
    } else {
      assert m == map[] && n == map[];
    }
  }

  lemma SumWithoutKey<K(!new)>(m: map<K, nat>, key: K)
    ensures Sum(m - {key}) <= Sum(m)
    ensures key !in m ==> Sum(m - {key}) == Sum(m)
  {
    if key in m {
      SumTakesAnyKey(m, key);
    } else {
      assert m - {key} == m;
    }
  }

  lemma MergeTakesKey<K(!new)>(m: map<K, nat>, n: map<K, nat>, key: K)
    requires key in n
    ensures Sum(m + n) == n[key] + Sum((m - {key}) + (n - {key}))
  {
    SumTakesAnyKey(m + n, key);
    assert (m + n) - {key} == (m - {key}) + (n - {key});
  }

  /** Merging maps counts each key once, so keys in both make the merge smaller. */
  lemma {:induction false} SumOfMerge<K(!new)>(m: map<K, nat>, n: map<K, nat>)
    ensures Sum(m + n) <= Sum(m) + Sum(n)
    ensures m.Keys !! n.Keys ==> Sum(m + n) == Sum(m) + Sum(n)
    decreases |n|
  {
    if k :| k in n {
      MergeTakesKey(m, n, k);
      SumTakesAnyKey(n, k);
      SumWithoutKey(m, k);
      SumOfMerge(m - {k}, n - {k});
    } else {
      assert m + n == m;
    }
  }
}
