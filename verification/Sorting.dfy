/** Lists strictly ascending by a key: insertion keeps them so, and their members determine them. */
module Sorting {

  ghost predicate StrictlyBy<T(!new)>(key: T -> int, s: seq<T>) {
    forall i, j :: 0 <= i < j < |s| ==> key(s[i]) < key(s[j])
  }

  lemma LastIsGreatest<T(!new)>(key: T -> int, s: seq<T>, front: seq<T>, e: T)
    requires StrictlyBy(key, s) && |s| > 0 && front == s[..|s| - 1]
    ensures e in front <==> e in s && key(e) < key(s[|s| - 1])
    ensures e in s && key(e) >= key(s[|s| - 1]) ==> e == s[|s| - 1]
    ensures StrictlyBy(key, front)
  {
    assert s == front + [s[|s| - 1]];
  }

  lemma FrontMembers<T(!new)>(key: T -> int, a: seq<T>, b: seq<T>, a': seq<T>, b': seq<T>)
    requires StrictlyBy(key, a) && StrictlyBy(key, b) && |a| > 0 && |b| > 0
    requires a' == a[..|a| - 1] && b' == b[..|b| - 1]
    requires forall e :: e in a <==> e in b
    ensures a[|a| - 1] == b[|b| - 1]
    ensures forall e :: e in a' <==> e in b'
    ensures StrictlyBy(key, a') && StrictlyBy(key, b')
  {
    var x, y := a[|a| - 1], b[|b| - 1];
    assert x in b && y in a;
    LastIsGreatest(key, a, a', y);
    LastIsGreatest(key, b, b', x);
    hide StrictlyBy;
    forall e ensures e in a' <==> e in b' {
      LastIsGreatest(key, a, a', e);
      LastIsGreatest(key, b, b', e);
    }
  }

  /** A strictly ascending list is determined by its members. */
  lemma MembersDetermine<T(!new)>(key: T -> int, a: seq<T>, b: seq<T>)
    requires StrictlyBy(key, a) && StrictlyBy(key, b)
    requires forall e :: e in a <==> e in b
    ensures a == b
  {
    hide StrictlyBy;
    assert |a| > 0 ==> a[0] in a;
    assert |b| > 0 ==> b[0] in b;
    if |a| > 0 && |b| > 0 {
      var a', b' := a[..|a| - 1], b[..|b| - 1];
      FrontMembers(key, a, b, a', b');
      MembersDetermine(key, a', b');
      assert a == a' + [a[|a| - 1]] && b == b' + [b[|b| - 1]];
    }
  }

  function Inserted<T>(s: seq<T>, e: T, p: nat): (r: seq<T>)
    requires p <= |s|
    ensures |r| == |s| + 1
    ensures forall i :: 0 <= i < |r| ==> r[i] == if i < p then s[i] else if i == p then e else s[i - 1]
  {
    s[..p] + [e] + s[p..]
  }

  lemma InsertedMembers<T>(s: seq<T>, e: T, p: nat)
    requires p <= |s|
    ensures forall x :: x in Inserted(s, e, p) <==> x in s || x == e
  {
    assert s == s[..p] + s[p..];
  }

  lemma InsertAt<T(!new)>(key: T -> int, s: seq<T>, e: T, p: nat)
    requires p <= |s| && StrictlyBy(key, s)
    requires p < |s| ==> key(e) < key(s[p])
    requires p > 0 ==> key(s[p - 1]) < key(e)
    ensures StrictlyBy(key, Inserted(s, e, p))
  {
    var r := Inserted(s, e, p);
    forall i, j | 0 <= i < j < |r| ensures key(r[i]) < key(r[j]) {
      var x, y := r[i], r[j];
      if j < p {
        assert x == s[i] && y == s[j];
      } else if j == p {
        assert x == s[i] && y == e && key(x) <= key(s[p - 1]);
      } else if i < p {
        assert x == s[i] && y == s[j - 1];
      } else if i == p {
        assert x == e && y == s[j - 1] && key(s[p]) <= key(y);
      } else {
        assert x == s[i - 1] && y == s[j - 1];
      }
    }
  }
}
