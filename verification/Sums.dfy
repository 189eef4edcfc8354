/** Adding up a weight over a finite set of keys: `sum(...)` over records, `SUM(...)` over rows. */
module Sums {
  /** The sum of `weight[k]` over the keys `k` in `keys`. */
  ghost function Total<K>(keys: set<K>, weight: map<K, nat>): nat
    requires keys <= weight.Keys
    decreases |keys|
  {
    if keys == {} then 0
    else
      var k :| k in keys;
      weight[k] + Total(keys - {k}, weight)
  }

  lemma {:induction false} TotalRemove<K>(keys: set<K>, weight: map<K, nat>, k: K)
    requires k in keys && keys <= weight.Keys
    ensures Total(keys, weight) == weight[k] + Total(keys - {k}, weight)
    decreases |keys|
  {
    var j :| j in keys && Total(keys, weight) == weight[j] + Total(keys - {j}, weight);
    if j != k {
      TotalRemove(keys - {j}, weight, k);
      TotalRemove(keys - {k}, weight, j);
      assert keys - {j} - {k} == keys - {k} - {j};
    }
  }

  lemma TotalInsert<K>(keys: set<K>, weight: map<K, nat>, k: K)
    requires k !in keys && k in weight && keys <= weight.Keys
    ensures Total(keys + {k}, weight) == Total(keys, weight) + weight[k]
  {
    TotalRemove(keys + {k}, weight, k);
    assert keys + {k} - {k} == keys;
  }

  lemma {:induction false} TotalUnion<K>(a: set<K>, b: set<K>, weight: map<K, nat>)
    requires a !! b && a + b <= weight.Keys
    ensures Total(a + b, weight) == Total(a, weight) + Total(b, weight)
    ensures |a + b| == |a| + |b|
    decreases |b|
  {
    if b == {} {
      assert a + b == a;
    } else {
      var k :| k in b;
      TotalUnion(a, b - {k}, weight);
      TotalRemove(b, weight, k);
      TotalRemove(a + b, weight, k);
      assert a + b - {k} == a + (b - {k});
    }
  }

  lemma TotalSubset<K>(a: set<K>, b: set<K>, weight: map<K, nat>)
    requires a <= b <= weight.Keys
    ensures Total(a, weight) <= Total(b, weight) && |a| <= |b|
  {
    var rest := b - a;
    assert b == a + rest;
    TotalUnion(a, rest, weight);
  }

  /** Two sets of keys in one-to-one correspondence with equal weights have equal counts and sums. */
  lemma {:induction false} TotalReindex<K, L>(a: set<K>, weight: map<K, nat>, b: set<L>, other: map<L, nat>, rename: K -> L)
    requires a <= weight.Keys && b <= other.Keys
    requires forall k :: k in a ==> rename(k) in b && weight[k] == other[rename(k)]
    requires forall l :: l in b ==> exists k :: k in a && rename(k) == l
    requires forall j, k :: j in a && k in a && rename(j) == rename(k) ==> j == k
    ensures Total(a, weight) == Total(b, other) && |a| == |b|
    decreases |a|
  {
    if a == {} {
      assert b == {};
    } else {
      var k :| k in a;
      TotalReindex(a - {k}, weight, b - {rename(k)}, other, rename);
      TotalRemove(a, weight, k);
      TotalRemove(b, other, rename(k));
    }
  }

  lemma {:induction false} TotalAgrees<K>(keys: set<K>, weight: map<K, nat>, other: map<K, nat>)
    requires keys <= weight.Keys && keys <= other.Keys
    requires forall k :: k in keys ==> weight[k] == other[k]
    ensures Total(keys, weight) == Total(keys, other)
    decreases |keys|
  {
    if keys != {} {
      var k :| k in keys;
      TotalAgrees(keys - {k}, weight, other);
      TotalRemove(keys, weight, k);
      TotalRemove(keys, other, k);
    }
  }

  method SumOver<K>(keys: set<K>, weight: map<K, nat>) returns (total: nat)
    requires keys <= weight.Keys
    ensures total == Total(keys, weight)
  {
    total := 0;
    var todo := keys;
    while todo != {}
      invariant todo <= keys && total + Total(todo, weight) == Total(keys, weight)
      decreases todo
    {
      var k :| k in todo;
      TotalRemove(todo, weight, k);
      total := total + weight[k];
      todo := todo - {k};
    }
  }
}
