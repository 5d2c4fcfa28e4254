/** Inverted lists as key-value pairs in a file: a hash map yields them in an order of its own. */
module MapListings {
  import opened Bytes
  import opened Codecs

  /** `pairs` names every key of `m` once, with its value. */
  ghost predicate IsListing<K(!new), V(!new)>(m: map<K, V>, pairs: seq<(K, V)>) {
    && (forall i, j :: 0 <= i < j < |pairs| ==> pairs[i].0 != pairs[j].0)
    && (forall k :: k in m ==> (k, m[k]) in pairs)
    && (forall p :: p in pairs ==> p.0 in m && m[p.0] == p.1)
  }

  function FromPairs<K(==), V>(pairs: seq<(K, V)>): map<K, V> {
    if |pairs| == 0 then map[] else FromPairs(pairs[..|pairs| - 1])[pairs[|pairs| - 1].0 := pairs[|pairs| - 1].1]
  }

  lemma {:induction false} FromPairsHas<K, V>(pairs: seq<(K, V)>, k: K)
    requires forall i, j :: 0 <= i < j < |pairs| ==> pairs[i].0 != pairs[j].0
    ensures k in FromPairs(pairs) <==> exists i :: 0 <= i < |pairs| && pairs[i].0 == k
    ensures k in FromPairs(pairs) ==> (k, FromPairs(pairs)[k]) in pairs
  {
    if |pairs| > 0 {
      var front := pairs[..|pairs| - 1];
      FromPairsHas(front, k);
      assert pairs == front + [pairs[|pairs| - 1]];
      if k in FromPairs(front) {
        var i :| 0 <= i < |front| && front[i].0 == k;
        assert pairs[i].0 == k;
      }
    }
  }

  /** Whatever the order, reading the pairs back one by one rebuilds the map. */
  lemma {:induction false} ListingRebuilds<K(!new), V(!new)>(m: map<K, V>, pairs: seq<(K, V)>)
    requires IsListing(m, pairs)
    ensures FromPairs(pairs) == m
  {
    var r := FromPairs(pairs);
    forall k ensures k in r <==> k in m {
      FromPairsHas(pairs, k);
      if k in m {
        var i :| 0 <= i < |pairs| && pairs[i] == (k, m[k]);
      }
      if k in r { assert (k, r[k]) in pairs; }
    }
    forall k | k in m ensures r[k] == m[k] {
      FromPairsHas(pairs, k);
      assert (k, r[k]) in pairs;
    }
  }

  method WriteMap<K(!new, ==), V(!new)>(key: Codec<K>, value: Codec<V>, m: map<K, V>, ghost assumed: nat)
    returns (out: seq<Byte>)
    requires assumed > 0
    ensures exists pairs :: IsListing(m, pairs) && out == Vec(assumed, Both(key, value)).put(pairs)
  {
    out := [];
    ghost var pairs: seq<(K, V)> := [];
    var todo := m.Keys;
    while todo != {}
      invariant todo <= m.Keys && |pairs| + |todo| == |m.Keys|
      invariant forall i, j :: 0 <= i < j < |pairs| ==> pairs[i].0 != pairs[j].0
      invariant forall k :: k in m ==> k in todo || (k, m[k]) in pairs
      invariant forall p :: p in pairs ==> p.0 in m && p.0 !in todo && m[p.0] == p.1
      invariant out == PutMany(Both(key, value), pairs)
    {
      var k :| k in todo;
      todo := todo - {k};
      out := out + (key.put(k) + value.put(m[k]));
      assert (pairs + [(k, m[k])])[..|pairs|] == pairs;
      pairs := pairs + [(k, m[k])];
    }
    out := Le(|m.Keys|, 8) + out;
    assert IsListing(m, pairs) && out == Vec(assumed, Both(key, value)).put(pairs);
  }

  method ReadMap<K(==), V>(key: Codec<K>, value: Codec<V>, len: nat, assumed: nat, bytes: seq<Byte>)
      returns (r: Read<map<K, V>>)
    requires assumed > 0
    ensures match Vec(assumed, Both(key, value)).get(len, bytes)
      case Bad => r == Bad
      case Got(pairs, rest) => r == Got(FromPairs(pairs), rest)
  {
    var head := GetCapped(len / assumed, bytes);
    if head == Bad { return Bad; }
    var m: map<K, V>, rest := map[], head.rest;
    ghost var c := Both(key, value);
    ghost var pairs: seq<(K, V)> := [];
    for n := 0 to head.value
      invariant GetMany(c, len, n, head.rest) == Got(pairs, rest) && m == FromPairs(pairs)
    {
      var k := key.get(len, rest);
      if k.Bad? {
        BadStays(c, len, n + 1, head.value, head.rest);
        return Bad;
      }
      var v := value.get(len, k.rest);
      if v.Bad? {
        BadStays(c, len, n + 1, head.value, head.rest);
        return Bad;
      }
      assert (pairs + [(k.value, v.value)])[..|pairs|] == pairs;
      m, rest, pairs := m[k.value := v.value], v.rest, pairs + [(k.value, v.value)];
    }
    r := Got(m, rest);
  }
}
