/** The list of stores sorted by record and address. */
module StoreOrder {
  import opened ShadowSpec

  function StoreBefore(a: Access, b: Access): bool { a.idx < b.idx || (a.idx == b.idx && a.addr <= b.addr) }

  ghost predicate Ordered(s: seq<Access>) {
    forall i, j :: 0 <= i < j < |s| ==> s[i].idx < s[j].idx || (s[i].idx == s[j].idx && s[i].addr <= s[j].addr)
  }

  function InsertStore(s: seq<Access>, a: Access): (r: seq<Access>)
    ensures multiset(r) == multiset(s) + multiset{a}
  {
    if |s| == 0 || StoreBefore(s[|s| - 1], a) then s + [a]
    else
      assert s == s[..|s| - 1] + [s[|s| - 1]];
      InsertStore(s[..|s| - 1], a) + [s[|s| - 1]]
  }

  lemma {:induction false} InsertStoreOrdered(s: seq<Access>, a: Access)
    requires Ordered(s)
    ensures Ordered(InsertStore(s, a))
  {
    if |s| > 0 && !StoreBefore(s[|s| - 1], a) {
      var front, last := s[..|s| - 1], s[|s| - 1];
      InsertStoreOrdered(front, a);
      var r := InsertStore(front, a);
      forall i | 0 <= i < |r| ensures StoreBefore(r[i], last) {
        assert r[i] in multiset(r);
        assert r[i] in front || r[i] == a;
      }
    }
  }

  /** The stores by record, then address; equal ones keep their order. */
  function SortStores(s: seq<Access>): (r: seq<Access>)
    ensures multiset(r) == multiset(s)
    ensures Ordered(r)
  {
    if |s| == 0 then []
    else
      assert s == s[..|s| - 1] + [s[|s| - 1]];
      InsertStoreOrdered(SortStores(s[..|s| - 1]), s[|s| - 1]);
      InsertStore(SortStores(s[..|s| - 1]), s[|s| - 1])
  }

  /** The stores that stand at one record and address, in their order. */
  function StoresAt(s: seq<Access>, idx: nat, addr: nat): seq<Access> {
    if |s| == 0 then []
    else
      var last := s[|s| - 1];
      StoresAt(s[..|s| - 1], idx, addr) + (if last.idx == idx && last.addr == addr then [last] else [])
  }

  lemma {:induction false} InsertStable(s: seq<Access>, a: Access, idx: nat, addr: nat)
    ensures StoresAt(InsertStore(s, a), idx, addr) == StoresAt(s + [a], idx, addr)
  {
    assert (s + [a])[..|s|] == s;
    if |s| > 0 && !StoreBefore(s[|s| - 1], a) {
      var front, last := s[..|s| - 1], s[|s| - 1];
      InsertStable(front, a, idx, addr);
      var r := InsertStore(front, a);
      assert (r + [last])[..|r|] == r && (front + [a])[..|front|] == front;
    }
  }

  /** Sorting is stable: stores of one record and address keep their order. */
  lemma {:induction false} SortStable(s: seq<Access>, idx: nat, addr: nat)
    ensures StoresAt(SortStores(s), idx, addr) == StoresAt(s, idx, addr)
  {
    if |s| > 0 {
      var front, last := s[..|s| - 1], s[|s| - 1];
      SortStable(front, idx, addr);
      var r := SortStores(front);
      InsertStable(r, last, idx, addr);
      assert (r + [last])[..|r|] == r;
    }
  }
}
