/** Lists gathered record by record: in trace order, and per record exactly what the record contributes. */
module TraceLists {

  /** The entries of record `i` in a list. */
  function At<T>(list: seq<T>, key: T -> nat, i: nat): seq<T> {
    if |list| == 0 then []
    else
      var last := list[|list| - 1];
      At(list[..|list| - 1], key, i) + (if key(last) == i then [last] else [])
  }

  lemma {:induction false} AtAppend<T>(a: seq<T>, b: seq<T>, key: T -> nat, i: nat)
    ensures At(a + b, key, i) == At(a, key, i) + At(b, key, i)
  {
    if |b| == 0 {
      assert a + b == a;
    } else {
      AtAppend(a, b[..|b| - 1], key, i);
      assert (a + b)[..|a + b| - 1] == a + b[..|b| - 1];
    }
  }

  lemma {:induction false} AtUniform<T>(list: seq<T>, key: T -> nat, i: nat, j: nat)
    requires forall m :: m in list ==> key(m) == i
    ensures At(list, key, j) == if i == j then list else []
  {
    if |list| > 0 {
      var front := list[..|list| - 1];
      assert list == front + [list[|list| - 1]];
      AtUniform(front, key, i, j);
    }
  }

  lemma {:induction false} NoneAt<T>(list: seq<T>, key: T -> nat, i: nat)
    requires forall m :: m in list ==> key(m) < i
    ensures At(list, key, i) == []
  {
    if |list| > 0 {
      assert list[|list| - 1] in list;
      assert forall m :: m in list[..|list| - 1] ==> m in list;
      NoneAt(list[..|list| - 1], key, i);
    }
  }

  /** `list` runs in trace order and holds, record by record, exactly the entries of [start, end). */
  ghost predicate IsListOf<T>(entries: nat -> seq<T>, key: T -> nat, start: nat, end: nat, list: seq<T>) {
    && (forall p, q :: 0 <= p <= q < |list| ==> key(list[p]) <= key(list[q]))
    && (forall m :: m in list ==> start <= key(m) < end)
    && (forall i: nat :: start <= i < end ==> At(list, key, i) == entries(i))
  }

  lemma ListExtends<T>(entries: nat -> seq<T>, key: T -> nat, start: nat, end: nat, list: seq<T>)
    requires start <= end && IsListOf(entries, key, start, end, list)
    requires forall m :: m in entries(end) ==> key(m) == end
    ensures IsListOf(entries, key, start, end + 1, list + entries(end))
  {
    var more := entries(end);
    var all := list + more;
    forall p, q | 0 <= p <= q < |all| ensures key(all[p]) <= key(all[q]) {
      if p < |list| { assert list[p] in list; } else { assert all[p] in more; }
      if q >= |list| { assert all[q] in more; }
    }
    forall i: nat | start <= i < end + 1 ensures At(all, key, i) == entries(i) {
      AtAppend(list, more, key, i);
      AtUniform(more, key, end, i);
      if i == end { NoneAt(list, key, end); }
    }
  }

  lemma NothingListed<T>(entries: nat -> seq<T>, key: T -> nat, start: nat)
    ensures IsListOf(entries, key, start, start, [])
  {}
}
