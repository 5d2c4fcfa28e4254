/** Intervals nest, siblings follow one another, depths count nesting. */
module CallTreeShape {
  import opened Wrappers
  import opened CallTreeSpec

  /** Sibling calls inside [lo, hi]: disjoint, in order, one level deeper than their caller, within the cap. */
  ghost predicate Forest(nodes: seq<CallNode>, lo: nat, hi: nat, depth: nat, maxDepth: nat) {
    |nodes| == 0 ||
    var c := nodes[0];
    && lo <= c.enterIdx <= c.exitIdx <= hi
    && c.depth == depth <= maxDepth
    && (c.truncatedChildren.Some? ==> c.truncatedChildren.value > 0 && depth == maxDepth)
    && Forest(c.children, c.enterIdx + 1, c.exitIdx, depth + 1, maxDepth)
    && Forest(nodes[1..], c.exitIdx + 1, hi, depth, maxDepth)
  }

  /** Events in trace order. */
  ghost predicate Ordered(ev: seq<Event>, n: nat) {
    && (forall i, j :: 0 <= i < j < |ev| ==> ev[i].idx < ev[j].idx)
    && (forall i :: 0 <= i < |ev| ==> ev[i].idx < n)
  }

  lemma {:induction false} ForestWidens(nodes: seq<CallNode>, lo: nat, lo': nat, hi: nat, hi': nat, depth: nat,
      maxDepth: nat)
    requires Forest(nodes, lo, hi, depth, maxDepth) && lo' <= lo && hi <= hi'
    ensures Forest(nodes, lo', hi', depth, maxDepth)
  {
    if |nodes| > 0 { ForestWidens(nodes[1..], nodes[0].exitIdx + 1, nodes[0].exitIdx + 1, hi, hi', depth, maxDepth); }
  }

  lemma ForestsJoin(a: seq<CallNode>, b: seq<CallNode>, lo: nat, mid: nat, hi: nat, depth: nat, maxDepth: nat)
    requires lo <= mid <= hi + 1 && mid > 0
    requires Forest(a, lo, mid - 1, depth, maxDepth) && Forest(b, mid, hi, depth, maxDepth)
    ensures Forest(a + b, lo, hi, depth, maxDepth)
  {
    if |a| == 0 {
      assert a + b == b;
      ForestWidens(b, mid, lo, hi, hi, depth, maxDepth);
    } else {
      assert (a + b)[1..] == a[1..] + b;
      ForestsJoin(a[1..], b, a[0].exitIdx + 1, mid, hi, depth, maxDepth);
    }
  }

  /** Where a body that starts at event `k` begins and ends on the trace. */
  function BodyStart(ev: seq<Event>, k: nat, n: nat): nat
    requires k <= |ev|
  {
    if k < |ev| then ev[k].idx else n
  }

  function BodyEnd(env: Env, ev: seq<Event>, next: nat): nat
    requires next <= |ev|
  {
    if next < |ev| then ev[next].idx else env.LastIdx()
  }

  lemma {:induction false} CallIsForest(env: Env, d: nat, ev: seq<Event>, k: nat, depth: nat, inner: Body,
      rest: seq<CallNode>, hi: nat)
    requires k < |ev| && inner.next <= |ev| && Ordered(ev, |env.pcs|) && k < inner.next && depth <= d
    requires Forest(inner.children, ev[k].idx + 1, BodyEnd(env, ev, inner.next), depth + 1, d)
    requires Forest(rest, BodyEnd(env, ev, inner.next) + 1, hi, depth, d) && BodyEnd(env, ev, inner.next) <= hi
    requires depth < d ==> inner.cut == 0
    ensures Forest([CallAt(env, ev, k, depth, inner)] + rest, ev[k].idx, hi, depth, d)
  {
    var node := CallAt(env, ev, k, depth, inner);
    assert [] + inner.children == inner.children;
    assert ([node] + rest)[1..] == rest;
  }

  lemma {:induction false} BodyIsForest(env: Env, d: nat, ev: seq<Event>, k: nat, depth: nat)
    requires k <= |ev| && Ordered(ev, |env.pcs|)
    ensures var b := ParseBody(env, d, ev, k, depth);
      && Forest(b.children, BodyStart(ev, k, |env.pcs|), BodyEnd(env, ev, b.next), depth + 1, d)
      && (depth < d ==> b.cut == 0)
    decreases |ev| - k
  {
    if k < |ev| && ev[k].kind == Call {
      hide ParseBody;
      var n := |env.pcs|;
      var inner, rest := CallUnfolds(env, d, ev, k, depth);
      BodyIsForest(env, d, ev, k + 1, depth + 1);
      BodyIsForest(env, d, ev, After(ev, inner), depth);
      var exit, hi := BodyEnd(env, ev, inner.next), BodyEnd(env, ev, rest.next);
      var lo := BodyStart(ev, After(ev, inner), n);
      if depth + 1 <= d {
        ForestWidens(inner.children, BodyStart(ev, k + 1, n), ev[k].idx + 1, exit, exit, depth + 2, d);
        ForestWidens(rest.children, lo, exit + 1, hi, hi, depth + 1, d);
        hide Forest, CallAt;
        CallIsForest(env, d, ev, k, depth + 1, inner, rest.children, hi);
      } else {
        ForestWidens(rest.children, lo, ev[k].idx, hi, hi, depth + 1, d);
      }
    } else {
      NothingToParse(env, d, ev, k, depth);
    }
  }

  lemma {:induction false} TopIsForest(env: Env, d: nat, ev: seq<Event>, k: nat)
    requires k <= |ev| && Ordered(ev, |env.pcs|)
    ensures var b := ParseTop(env, d, ev, k);
      Forest(b.children, BodyStart(ev, k, |env.pcs|), env.LastIdx(), 1, d) && (d > 0 ==> b.cut == 0)
    decreases |ev| - k
  {
    hide ParseBody, Forest;
    BodyIsForest(env, d, ev, k, 0);
    var b := ParseBody(env, d, ev, k, 0);
    if b.next < |ev| {
      TopIsForest(env, d, ev, b.next + 1);
      var rest := ParseTop(env, d, ev, b.next + 1);
      var mid := ev[b.next].idx + 1;
      ForestWidens(rest.children, BodyStart(ev, b.next + 1, |env.pcs|), mid, env.LastIdx(), env.LastIdx(), 1, d);
      ForestsJoin(b.children, rest.children, BodyStart(ev, k, |env.pcs|), mid, env.LastIdx(), 1, d);
    }
  }

  /** Every tree built from events in trace order nests properly within the whole trace and the depth cap. */
  lemma {:induction false} TreeNests(env: Env, d: nat, ev: seq<Event>)
    requires Ordered(ev, |env.pcs|)
    ensures var root := CallTree(env, d, ev);
      && root.depth == 0 && root.enterIdx == 0 && root.exitIdx == env.LastIdx()
      && Forest(root.children, 0, root.exitIdx, 1, d)
      && (root.truncatedChildren.Some? ==> root.truncatedChildren.value > 0 && d == 0)
  {
    TopIsForest(env, d, ev, 0);
    var b := ParseTop(env, d, ev, 0);
    ForestWidens(b.children, BodyStart(ev, 0, |env.pcs|), 0, env.LastIdx(), env.LastIdx(), 1, d);
    assert [] + b.children == b.children;
  }
}
