/** The tree without a cap: from some cap on nothing is cut, and every capped tree is that one cut at the cap. */
module CallTreeUncapped {
  import opened Wrappers
  import opened CallTreeSpec
  import opened CallTreePruning

  /** A cap of the number of events is never reached. */
  function Uncapped(env: Env, ev: seq<Event>): CallNode { CallTree(env, |ev|, ev) }

  /** No call is missing from the tree. */
  predicate Whole(node: CallNode) { node.truncatedChildren == None && WholeAll(node.children) }

  predicate WholeAll(nodes: seq<CallNode>) { |nodes| == 0 || (Whole(nodes[0]) && WholeAll(nodes[1..])) }

  /** Proper descendants that are there. */
  function NodesBelow(node: CallNode): nat { NodesOf(node.children) }

  function NodesOf(nodes: seq<CallNode>): nat {
    if |nodes| == 0 then 0 else 1 + NodesBelow(nodes[0]) + NodesOf(nodes[1..])
  }

  /** Everything below depth `d` removed; a node that loses any descendants says how many. */
  function CutAt(node: CallNode, d: nat): CallNode {
    if node.depth >= d then
      node.(children := [], truncatedChildren := if NodesBelow(node) == 0 then None else Some(NodesBelow(node)))
    else node.(children := CutAllAt(node.children, d))
  }

  function CutAllAt(nodes: seq<CallNode>, d: nat): seq<CallNode> {
    if |nodes| == 0 then [] else [CutAt(nodes[0], d)] + CutAllAt(nodes[1..], d)
  }

  lemma {:induction false} WholeHasAll(node: CallNode)
    requires Whole(node)
    ensures Descendants(node) == NodesBelow(node)
    decreases node
  {
    WholeForestHasAll(node.children);
  }

  lemma {:induction false} WholeForestHasAll(nodes: seq<CallNode>)
    requires WholeAll(nodes)
    ensures ForestSize(nodes) == NodesOf(nodes)
    decreases nodes
  {
    if |nodes| > 0 {
      WholeHasAll(nodes[0]);
      WholeForestHasAll(nodes[1..]);
    }
  }

  lemma {:induction false} WholePruned(node: CallNode, d: nat)
    requires Whole(node)
    ensures Prune(node, d) == CutAt(node, d)
    decreases node
  {
    WholeHasAll(node);
    WholeForestPruned(node.children, d);
  }

  lemma {:induction false} WholeForestPruned(nodes: seq<CallNode>, d: nat)
    requires WholeAll(nodes)
    ensures PruneAll(nodes, d) == CutAllAt(nodes, d)
    decreases nodes
  {
    if |nodes| > 0 {
      WholePruned(nodes[0], d);
      WholeForestPruned(nodes[1..], d);
    }
  }

  lemma {:induction false} WholeJoins(a: seq<CallNode>, b: seq<CallNode>)
    ensures WholeAll(a + b) <==> WholeAll(a) && WholeAll(b)
  {
    if |a| == 0 {
      assert a + b == b;
    } else {
      WholeJoins(a[1..], b);
      assert (a + b)[1..] == a[1..] + b;
    }
  }

  /** Where the events left cannot reach the cap nothing is cut. */
  lemma {:induction false} BodyUncut(env: Env, e: nat, ev: seq<Event>, k: nat, depth: nat)
    requires k <= |ev| && depth + (|ev| - k) <= e
    ensures var b := ParseBody(env, e, ev, k, depth); b.cut == 0 && WholeAll(b.children)
    decreases |ev| - k
  {
    hide ParseBody, CallAt;
    if k < |ev| && ev[k].kind == Call {
      var inner, rest := CallUnfolds(env, e, ev, k, depth);
      BodyUncut(env, e, ev, k + 1, depth + 1);
      BodyUncut(env, e, ev, After(ev, inner), depth);
      CallIsWhole(env, ev, k, depth + 1, inner, rest.children);
    } else {
      NothingToParse(env, e, ev, k, depth);
    }
  }

  /** There two caps make no difference. */
  lemma {:induction false} BodySame(env: Env, e: nat, f: nat, ev: seq<Event>, k: nat, depth: nat)
    requires k <= |ev| && depth + (|ev| - k) <= e && depth + (|ev| - k) <= f
    ensures ParseBody(env, e, ev, k, depth) == ParseBody(env, f, ev, k, depth)
    decreases |ev| - k
  {
    hide ParseBody, CallAt;
    if k < |ev| && ev[k].kind == Call {
      var inner, rest := CallUnfolds(env, e, ev, k, depth);
      var inner', rest' := CallUnfolds(env, f, ev, k, depth);
      BodySame(env, e, f, ev, k + 1, depth + 1);
      BodySame(env, e, f, ev, After(ev, inner), depth);
    } else {
      NothingToParse(env, e, ev, k, depth);
      NothingToParse(env, f, ev, k, depth);
    }
  }

  lemma {:induction false} CallIsWhole(env: Env, ev: seq<Event>, k: nat, depth: nat, inner: Body, rest: seq<CallNode>)
    requires k < |ev| && inner.cut == 0 && WholeAll(inner.children) && WholeAll(rest)
    ensures WholeAll([CallAt(env, ev, k, depth, inner)] + rest)
  {
    var node := CallAt(env, ev, k, depth, inner);
    assert node.children == [] + inner.children == inner.children && Whole(node);
    assert ([node] + rest)[1..] == rest;
  }

  lemma {:induction false} TopUncut(env: Env, e: nat, ev: seq<Event>, k: nat)
    requires k <= |ev| <= e
    ensures var b := ParseTop(env, e, ev, k); b.cut == 0 && WholeAll(b.children)
    decreases |ev| - k
  {
    hide ParseBody, WholeAll;
    BodyUncut(env, e, ev, k, 0);
    var b := ParseBody(env, e, ev, k, 0);
    if b.next < |ev| {
      TopUncut(env, e, ev, b.next + 1);
      WholeJoins(b.children, ParseTop(env, e, ev, b.next + 1).children);
    }
  }

  lemma {:induction false} TopSame(env: Env, e: nat, f: nat, ev: seq<Event>, k: nat)
    requires k <= |ev| <= e && |ev| <= f
    ensures ParseTop(env, e, ev, k) == ParseTop(env, f, ev, k)
    decreases |ev| - k
  {
    hide ParseBody;
    BodySame(env, e, f, ev, k, 0);
    var b := ParseBody(env, e, ev, k, 0);
    if b.next < |ev| { TopSame(env, e, f, ev, b.next + 1); }
  }

  /** From a cap of the number of events on, no call is missing and the tree no longer changes. */
  lemma NothingCutFrom(env: Env, e: nat, ev: seq<Event>)
    requires e >= |ev|
    ensures Whole(CallTree(env, e, ev)) && CallTree(env, e, ev) == Uncapped(env, ev)
  {
    TopUncut(env, e, ev, 0);
    TopSame(env, e, |ev|, ev, 0);
    var b := ParseTop(env, e, ev, 0);
    assert [] + b.children == b.children;
  }

  /**
   * For every event sequence and every cap, the capped tree is the uncapped one cut at the cap, where each cut node
   * records its number of proper descendants in the uncapped tree (none when zero).
   */
  lemma {:induction false} CappedIsUncappedCut(env: Env, d: nat, ev: seq<Event>)
    ensures CallTree(env, d, ev) == CutAt(Uncapped(env, ev), d)
    ensures Whole(Uncapped(env, ev)) && NodesBelow(Uncapped(env, ev)) == Calls(ev, 0, |ev|)
  {
    NothingCutFrom(env, |ev|, ev);
    if d <= |ev| {
      CappingIsPruning(env, d, |ev|, ev);
    } else {
      NothingCutFrom(env, d, ev);
      CappingIsPruning(env, d, d, ev);
    }
    hide CallTree, Whole;
    WholePruned(Uncapped(env, ev), d);
    WholeHasAll(Uncapped(env, ev));
    EveryCallCounted(env, |ev|, ev);
  }
}
