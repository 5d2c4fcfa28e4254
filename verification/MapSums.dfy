/** Sums over the values of a map. */
module MapSums {

  ghost function Total<K>(m: map<K, nat>, keys: set<K>): nat
    requires keys <= m.Keys
  {
    if keys == {} then 0
    else
      var k :| k in keys;
      m[k] + Total(m, keys - {k})
  }

  lemma {:induction false} TotalPick<K>(m: map<K, nat>, keys: set<K>, k: K)
    requires k in keys && keys <= m.Keys
    ensures Total(m, keys) == m[k] + Total(m, keys - {k})
  {
    var j :| j in keys && Total(m, keys) == m[j] + Total(m, keys - {j});
    if j != k {
      TotalPick(m, keys - {j}, k);
      TotalPick(m, keys - {k}, j);
      assert keys - {j} - {k} == keys - {k} - {j};
    }
  }

  lemma {:induction false} TotalSame<K>(a: map<K, nat>, b: map<K, nat>, keys: set<K>)
    requires keys <= a.Keys && keys <= b.Keys
    requires forall k :: k in keys ==> a[k] == b[k]
    ensures Total(a, keys) == Total(b, keys)
  {
    if keys != {} {
      var k :| k in keys;
      TotalPick(a, keys, k);
      TotalPick(b, keys, k);
      TotalSame(a, b, keys - {k});
    }
  }

  /** Adding to one entry, or making a new one, adds as much to the sum. */
  lemma TotalGrows<K>(a: map<K, nat>, k: K, more: nat)
    ensures var b := a[k := (if k in a then a[k] else 0) + more];
      Total(b, b.Keys) == Total(a, a.Keys) + more
  {
    var b := a[k := (if k in a then a[k] else 0) + more];
    TotalPick(b, b.Keys, k);
    TotalSame(a, b, b.Keys - {k});
    if k in a {
      TotalPick(a, a.Keys, k);
      assert a.Keys == b.Keys;
    } else {
      assert b.Keys - {k} == a.Keys;
    }
  }
}
