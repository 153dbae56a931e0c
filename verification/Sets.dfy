/** Sizes of finite sets. */
module Sets {

  /** A part is no larger than the whole, and smaller when something is missing. */
  lemma SubsetSize<T>(a: set<T>, b: set<T>)
    requires a <= b
    ensures |a| <= |b|
    ensures a != b ==> |a| < |b|
  {
    assert b == a + (b - a);
  }

  /** A finite set has a least element in any total preorder. */
  lemma {:induction false} LeastBy<K>(s: set<K>, le: (K, K) -> bool)
    requires s != {}
    requires forall a, b | a in s && b in s :: le(a, b) || le(b, a)
    requires forall a, b, c | a in s && b in s && c in s && le(a, b) && le(b, c) :: le(a, c)
    ensures exists k :: k in s && forall j | j in s :: le(k, j)
    decreases |s|
  {
    var x :| x in s;
    var rest := s - {x};
    assert forall j | j in s :: j == x || j in rest;
    if rest == {} {
      assert x in s && forall j | j in s :: le(x, j);
    } else {
      LeastBy(rest, le);
      var y :| y in rest && forall j | j in rest :: le(y, j);
      if le(x, y) {
        forall j | j in s ensures le(x, j) {
          assert j == x || le(y, j);
        }
        assert x in s && forall j | j in s :: le(x, j);
      } else {
        assert y in s && forall j | j in s :: le(y, j);
      }
    }
  }

  /** A list without repeats has as many entries as it has members. */
  lemma {:induction false} DistinctCount<T>(order: seq<T>, s: set<T>)
    requires forall i, j | 0 <= i < j < |order| :: order[i] != order[j]
    requires s == set h | h in order
    ensures |s| == |order|
    decreases |order|
  {
    if order != [] {
      var n := |order| - 1;
      var rest := set h | h in order[..n];
      DistinctCount(order[..n], rest);
      assert s == rest + {order[n]} by {
        assert order == order[..n] + [order[n]];
      }
      assert order[n] !in rest;
    }
  }

  /** Counting the numbers below a bound that have a property, one more at a time. */
  lemma CountOneMore(p: nat -> bool, n: nat)
    ensures |set i: nat | i < n + 1 && p(i)| == |set i: nat | i < n && p(i)| + if p(n) then 1 else 0
  {
    var fewer := set i: nat | i < n && p(i);
    assert (set i: nat | i < n + 1 && p(i)) == if p(n) then fewer + {n} else fewer;
  }
}
