/** Sums over finite maps, the arithmetic behind price-level aggregation. */
module FiniteSums {

  ghost function Total(w: map<nat, nat>): nat
    decreases |w|
  {
    if w == map[] then 0
    else
      var k :| k in w;
      w[k] + Total(w - {k})
  }

  /** The order in which a sum is taken does not matter. */
  lemma {:induction false} TotalRemove(w: map<nat, nat>, k: nat)
    requires k in w
    ensures Total(w) == w[k] + Total(w - {k})
    decreases |w|
  {
    var j :| j in w && Total(w) == w[j] + Total(w - {j});
    if j != k {
      TotalRemove(w - {j}, k);
      TotalRemove(w - {k}, j);
      assert w - {j} - {k} == w - {k} - {j};
    }
  }

  lemma TotalInsert(w: map<nat, nat>, k: nat, v: nat)
    requires k !in w
    ensures Total(w[k := v]) == Total(w) + v
  {
    TotalRemove(w[k := v], k);
    assert w[k := v] - {k} == w;
  }

  lemma TotalUpdate(w: map<nat, nat>, k: nat, v: nat)
    requires k in w
    ensures Total(w[k := v]) == Total(w) - w[k] + v
  {
    TotalRemove(w, k);
    TotalRemove(w[k := v], k);
    assert w[k := v] - {k} == w - {k};
  }
}
