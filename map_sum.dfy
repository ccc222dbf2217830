/** The sum of the values of a finite map, used to state that a page's
    `usedCount` equals the sum of its per-referrer counts. */
module MapSum {

  ghost function Sum<K>(m: map<K, nat>): nat
    decreases |m|
  {
    if m == map[] then 0
    else
      var k :| k in m;
      assert |m - {k}| < |m| by { assert (m - {k}).Keys == m.Keys - {k}; }
      m[k] + Sum(m - {k})
  }

  /** Whatever key the definition picked, the sum splits at any key. */
  lemma {:induction false} SumRemove<K>(m: map<K, nat>, k: K)
    requires k in m
    ensures Sum(m) == m[k] + Sum(m - {k})
    decreases |m|
  {
    var j :| j in m && Sum(m) == m[j] + Sum(m - {j});
    if j != k {
      assert (m - {j}).Keys == m.Keys - {j};
      assert (m - {k}).Keys == m.Keys - {k};
      SumRemove(m - {j}, k);
      SumRemove(m - {k}, j);
      assert (m - {j}) - {k} == (m - {k}) - {j};
    }
  }

  /** The value a JavaScript object reads as a counter: absent keys count 0. */
  function Get<K>(m: map<K, nat>, k: K): nat
  {
    if k in m then m[k] else 0
  }

  /** Bumping one entry (creating it at 1 when absent) raises the sum by one. */
  lemma SumIncrement<K>(m: map<K, nat>, k: K)
    ensures Sum(m[k := Get(m, k) + 1]) == Sum(m) + 1
  {
    var m' := m[k := Get(m, k) + 1];
    SumRemove(m', k);
    assert m' - {k} == m - {k};
    if k in m {
      SumRemove(m, k);
    } else {
      assert m - {k} == m;
    }
  }

  /** With positive values, the sum is zero exactly for the empty map. */
  lemma SumZeroIffEmpty<K>(m: map<K, nat>)
    requires forall k :: k in m ==> m[k] >= 1
    ensures Sum(m) == 0 <==> m == map[]
  {
    if m != map[] {
      var k :| k in m;
      SumRemove(m, k);
    }
  }
}
