/** Sums over finite maps. The order in which a map is walked does not matter, which is what lets
    a running total that changes by one entry at a time be compared with a recount. */
module Totals {
  import opened Sets

  ghost function Total<K>(m: map<K, int>): int
    decreases |m|
  {
    if m == map[] then 0
    else
      var k :| k in m;
      m[k] + Total(m - {k})
  }

  lemma {:induction false} TakeOut<K>(m: map<K, int>, k: K)
    requires k in m
    ensures Total(m) == m[k] + Total(m - {k})
    decreases |m|
  {
    var k0 :| k0 in m && Total(m) == m[k0] + Total(m - {k0});
    if k != k0 {
      TakeOut(m - {k0}, k);
      TakeOut(m - {k}, k0);
      assert m - {k0} - {k} == m - {k} - {k0};
    }
  }

  lemma PutIn<K>(m: map<K, int>, k: K, v: int)
    requires k !in m
    ensures Total(m[k := v]) == Total(m) + v
  {
    TakeOut(m[k := v], k);
    assert m[k := v] - {k} == m;
  }

  lemma {:induction false} NonNegative<K>(m: map<K, int>)
    requires forall k | k in m :: m[k] >= 0
    ensures Total(m) >= 0
    decreases |m|
  {
    if m != map[] {
      var k :| k in m && Total(m) == m[k] + Total(m - {k});
      NonNegative(m - {k});
    }
  }

  lemma {:induction false} Negated<K>(m: map<K, int>, n: map<K, int>)
    requires m.Keys == n.Keys
    requires forall k | k in m :: n[k] == -m[k]
    ensures Total(n) == -Total(m)
    decreases |m|
  {
    if m != map[] {
      var k :| k in m;
      TakeOut(m, k);
      TakeOut(n, k);
      Negated(m - {k}, n - {k});
    } else {
      assert n == map[];
    }
  }

  lemma {:induction false} NoGreater<K>(m: map<K, int>, n: map<K, int>)
    requires m.Keys == n.Keys && forall k | k in m :: m[k] <= n[k]
    ensures Total(m) <= Total(n)
    ensures (exists k | k in m :: m[k] < n[k]) ==> Total(m) < Total(n)
    decreases |m|
  {
    if m != map[] {
      var k :| k in m && ((exists j | j in m :: m[j] < n[j]) ==> m[k] < n[k]);
      TakeOut(m, k);
      TakeOut(n, k);
      NoGreater(m - {k}, n - {k});
    } else {
      assert n == map[];
    }
  }

  /** Entries of value 0 add nothing. */
  lemma {:induction false} ZerosAddNothing<K>(m: map<K, int>, part: map<K, int>)
    requires part.Keys <= m.Keys
    requires forall k | k in m :: m[k] == if k in part then part[k] else 0
    ensures Total(m) == Total(part)
    decreases |m|
  {
    if k :| k in m && k !in part {
      TakeOut(m, k);
      ZerosAddNothing(m - {k}, part);
    } else {
      assert m == part;
    }
  }

  /** Any non-empty set of keys has one of the least value. */
  lemma LeastExists<K>(s: set<K>, m: map<K, int>)
    requires s != {} && s <= m.Keys
    ensures exists k :: k in s && forall j | j in s :: m[k] <= m[j]
  {
    var le := (a, b) => a in m && b in m && m[a] <= m[b];
    LeastBy(s, le);
    var k :| k in s && forall j | j in s :: le(k, j);
    assert forall j | j in s :: m[k] <= m[j];
  }
}
