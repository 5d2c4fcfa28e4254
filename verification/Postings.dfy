/** Inverted lists: a key's entries in the order they were pushed. */
module Postings {

  function Get<K(==), V>(m: map<K, seq<V>>, k: K): seq<V> { if k in m then m[k] else [] }

  /** `entry(k).or_default().push(v)`. */
  function Push<K(==), V>(m: map<K, seq<V>>, k: K, v: V): map<K, seq<V>> {
    m[k := Get(m, k) + [v]]
  }

  function PushAll<K(==), V>(m: map<K, seq<V>>, entries: seq<(K, V)>): map<K, seq<V>> {
    if |entries| == 0 then m
    else
      var (k, v) := entries[|entries| - 1];
      Push(PushAll(m, entries[..|entries| - 1]), k, v)
  }

  /** Key by key, the second map's entries after the first's. */
  function Append<K(==), V>(a: map<K, seq<V>>, b: map<K, seq<V>>): (r: map<K, seq<V>>)
    ensures r.Keys == a.Keys + b.Keys
    ensures forall k :: k in r ==> r[k] == Get(a, k) + Get(b, k)
  {
    map k | k in a.Keys + b.Keys :: Get(a, k) + Get(b, k)
  }

  lemma AppendNothing<K, V>(a: map<K, seq<V>>)
    ensures Append(a, map[]) == a && Append(map[], a) == a
  {
    var l, r := Append(a, map[]), Append(map[], a);
    assert l.Keys == a.Keys && r.Keys == a.Keys;
    forall k | k in a ensures l[k] == a[k] && r[k] == a[k] {
      assert a[k] + [] == a[k] && [] + a[k] == a[k];
    }
  }

  lemma PushAfterAppend<K, V>(a: map<K, seq<V>>, b: map<K, seq<V>>, k: K, v: V)
    ensures Push(Append(a, b), k, v) == Append(a, Push(b, k, v))
  {
    var l, r := Push(Append(a, b), k, v), Append(a, Push(b, k, v));
    hide Append;
    assert l.Keys == r.Keys;
    forall x | x in l ensures l[x] == r[x] {
      if x == k { assert (Get(a, k) + Get(b, k)) + [v] == Get(a, k) + (Get(b, k) + [v]); }
    }
  }

  lemma {:induction false} PushAllAfterAppend<K, V>(a: map<K, seq<V>>, b: map<K, seq<V>>, entries: seq<(K, V)>)
    ensures PushAll(Append(a, b), entries) == Append(a, PushAll(b, entries))
  {
    if |entries| > 0 {
      var front := entries[..|entries| - 1];
      var (k, v) := entries[|entries| - 1];
      PushAllAfterAppend(a, b, front);
      PushAfterAppend(a, PushAll(b, front), k, v);
    }
  }

  /** Merging a chunk's lists: whatever order the chunk yields its keys in, each list goes to the end of its key's. */
  method AppendInto<K(==), V>(a: map<K, seq<V>>, b: map<K, seq<V>>) returns (r: map<K, seq<V>>)
    ensures r == Append(a, b)
  {
    r := a;
    var rest := b.Keys;
    while rest != {}
      invariant rest <= b.Keys && r.Keys == a.Keys + (b.Keys - rest)
      invariant forall k :: k in r ==> r[k] == if k in b && k !in rest then Get(a, k) + b[k] else Get(a, k)
    {
      var k :| k in rest;
      rest := rest - {k};
      r := r[k := Get(r, k) + b[k]];
    }
    assert forall k :: k in r ==> r[k] == Append(a, b)[k];
  }

  /** Where each pushed entry ends up. */
  lemma {:induction false} PushAllAt<K, V>(m: map<K, seq<V>>, entries: seq<(K, V)>, k: K)
    ensures Get(PushAll(m, entries), k) == Get(m, k) + Values(entries, k)
    ensures k in PushAll(m, entries) <==> k in m || |Values(entries, k)| > 0
  {
    if |entries| > 0 { PushAllAt(m, entries[..|entries| - 1], k); }
  }

  /** The values pushed under `k`, in order. */
  function Values<K(==), V>(entries: seq<(K, V)>, k: K): seq<V> {
    if |entries| == 0 then []
    else
      var (x, v) := entries[|entries| - 1];
      Values(entries[..|entries| - 1], k) + (if x == k then [v] else [])
  }
}
