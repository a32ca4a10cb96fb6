/** Totals over finite maps. */
module Sums {

  ghost function Total<K(!new)>(m: map<K, nat>): (t: nat)
    decreases |m|
  {
    if m == map[] then 0 else
      var k :| k in m;
      m[k] + Total(m - {k})
  }

  lemma {:induction false} TotalRemove<K(!new)>(m: map<K, nat>, k: K)
    requires k in m
    ensures Total(m) == m[k] + Total(m - {k})
    decreases |m|
  {
    var k' :| k' in m && Total(m) == m[k'] + Total(m - {k'});
    if k' != k {
      TotalRemove(m - {k'}, k);
      TotalRemove(m - {k}, k');
      assert m - {k'} - {k} == m - {k} - {k'};
    }
  }

  function At<K>(m: map<K, nat>, k: K): (n: nat) {
    if k in m then m[k] else 0
  }

  /** Writing one entry changes the total by exactly the difference. */
  lemma TotalUpdate<K(!new)>(m: map<K, nat>, k: K, v: nat)
    ensures Total(m[k := v]) + At(m, k) == Total(m) + v
  {
    TotalRemove(m[k := v], k);
    if k in m {
      TotalRemove(m, k);
      assert m[k := v] - {k} == m - {k};
    } else {
      assert m[k := v] - {k} == m;
    }
  }

  lemma TotalAtLeast<K(!new)>(m: map<K, nat>, k: K)
    ensures At(m, k) <= Total(m)
  {
    if k in m { TotalRemove(m, k); }
  }

  lemma Distribute(x: int, y: int, z: int)
    ensures x * (y + z) == x * y + x * z
  {
  }

  lemma TotalEmpty<K(!new)>()
    ensures Total<K>(map[]) == 0
  {
  }

  /** Bounds that hold entry by entry hold for the totals. */
  lemma {:induction false} TotalBounds<K(!new)>(lo: map<K, nat>, mid: map<K, nat>, slack: map<K, nat>, unit: nat)
    requires lo.Keys == mid.Keys == slack.Keys
    requires forall k :: k in lo ==> unit * lo[k] <= mid[k] <= unit * lo[k] + (unit - 1) * slack[k]
    ensures unit * Total(lo) <= Total(mid) <= unit * Total(lo) + (unit - 1) * Total(slack)
    decreases |lo|
  {
    hide Total;
    if k :| k in lo {
      TotalRemove(lo, k);
      TotalRemove(mid, k);
      TotalRemove(slack, k);
      TotalBounds(lo - {k}, mid - {k}, slack - {k}, unit);
      Distribute(unit, lo[k], Total(lo - {k}));
      Distribute(unit - 1, slack[k], Total(slack - {k}));
    } else {
      TotalEmpty<K>();
      assert lo == map[] && mid == map[] && slack == map[];
    }
  }
}
