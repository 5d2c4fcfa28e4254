/** The tree under a depth cap is the deeper tree pruned, and no call is lost. */
module CallTreePruning {
  import opened Wrappers
  import opened CallTreeSpec

  /** Proper descendants of a node, those already cut away included. */
  function Descendants(node: CallNode): nat {
    ForestSize(node.children) + (if node.truncatedChildren.Some? then node.truncatedChildren.value else 0)
  }

  function ForestSize(nodes: seq<CallNode>): nat {
    if |nodes| == 0 then 0 else 1 + Descendants(nodes[0]) + ForestSize(nodes[1..])
  }

  /** Below `maxDepth` a node keeps only the number of its proper descendants, and not even that when zero. */
  function Prune(node: CallNode, maxDepth: nat): CallNode {
    if node.depth >= maxDepth then node.(children := [], truncatedChildren := AddCut(None, Descendants(node)))
    else node.(children := PruneAll(node.children, maxDepth))
  }

  function PruneAll(nodes: seq<CallNode>, maxDepth: nat): seq<CallNode> {
    if |nodes| == 0 then [] else [Prune(nodes[0], maxDepth)] + PruneAll(nodes[1..], maxDepth)
  }

  lemma {:induction false} ForestSizeSplits(a: seq<CallNode>, b: seq<CallNode>)
    ensures ForestSize(a + b) == ForestSize(a) + ForestSize(b)
  {
    if |a| == 0 {
      assert a + b == b;
    } else {
      assert (a + b)[1..] == a[1..] + b;
      ForestSizeSplits(a[1..], b);
    }
  }

  lemma {:induction false} PruneAllSplits(a: seq<CallNode>, b: seq<CallNode>, maxDepth: nat)
    ensures PruneAll(a + b, maxDepth) == PruneAll(a, maxDepth) + PruneAll(b, maxDepth)
  {
    if |a| == 0 {
      assert a + b == b;
    } else {
      assert (a + b)[1..] == a[1..] + b;
      PruneAllSplits(a[1..], b, maxDepth);
    }
  }

  /** A body read under the small cap against the same body read under the large one. */
  ghost predicate BodyPruned(small: Body, large: Body, depth: nat, d: nat) {
    && small.next == large.next
    && if depth >= d then small.children == [] && small.cut == ForestSize(large.children) + large.cut
       else small.children == PruneAll(large.children, d) && small.cut == large.cut == 0
  }

  lemma {:induction false} ForestSizeOfCons(node: CallNode, rest: seq<CallNode>)
    ensures ForestSize([node] + rest) == 1 + Descendants(node) + ForestSize(rest)
  {}

  lemma {:induction false} PruneAllOfCons(node: CallNode, rest: seq<CallNode>, maxDepth: nat)
    ensures PruneAll([node] + rest, maxDepth) == [Prune(node, maxDepth)] + PruneAll(rest, maxDepth)
  {}

  lemma {:induction false} CallPrunes(env: Env, d: nat, ev: seq<Event>, k: nat, depth: nat, small: Body, large: Body)
    requires k < |ev| && depth <= d && BodyPruned(small, large, depth, d)
    ensures Prune(CallAt(env, ev, k, depth, large), d) == CallAt(env, ev, k, depth, small)
  {
    assert [] + large.children == large.children && [] + small.children == small.children;
  }

  lemma CallSize(env: Env, ev: seq<Event>, k: nat, depth: nat, inner: Body)
    requires k < |ev|
    ensures Descendants(CallAt(env, ev, k, depth, inner)) == ForestSize(inner.children) + inner.cut
  {
    assert [] + inner.children == inner.children;
  }

  lemma CombinePrunes(env: Env, d: nat, e: nat, ev: seq<Event>, k: nat, depth: nat,
                      inner: Body, rest: Body, inner': Body, rest': Body)
    requires d <= e && k < |ev|
    requires BodyPruned(inner', inner, depth + 1, d) && BodyPruned(rest', rest, depth, d)
    requires depth >= e ==> inner.children == []
    ensures BodyPruned(Combine(env, d, ev, k, depth, inner', rest'), Combine(env, e, ev, k, depth, inner, rest),
      depth, d)
  {
    if depth + 1 <= e {
      var node := CallAt(env, ev, k, depth + 1, inner);
      ForestSizeOfCons(node, rest.children);
      CallSize(env, ev, k, depth + 1, inner);
      if depth + 1 <= d {
        PruneAllOfCons(node, rest.children, d);
        CallPrunes(env, d, ev, k, depth + 1, inner', inner);
      }
    }
  }

  lemma {:induction false} ParseBodyPrunes(env: Env, d: nat, e: nat, ev: seq<Event>, k: nat, depth: nat)
    requires d <= e && k <= |ev|
    ensures BodyPruned(ParseBody(env, d, ev, k, depth), ParseBody(env, e, ev, k, depth), depth, d)
    decreases |ev| - k
  {
    hide ParseBody, BodyPruned, Combine, ForestSize, PruneAll;
    if k < |ev| && ev[k].kind == Call {
      var inner, rest := CallUnfolds(env, e, ev, k, depth);
      var inner', rest' := CallUnfolds(env, d, ev, k, depth);
      ParseBodyPrunes(env, d, e, ev, k + 1, depth + 1);
      BodiesStopTogether(inner', inner, depth + 1, d);
      ParseBodyPrunes(env, d, e, ev, After(ev, inner), depth);
      if depth >= e { NoNodesBeyondCap(env, e, ev, k + 1, depth + 1); }
      CombinePrunes(env, d, e, ev, k, depth, inner, rest, inner', rest');
    } else {
      NothingToParse(env, d, ev, k, depth);
      NothingToParse(env, e, ev, k, depth);
      NothingPrunes(k, depth, d);
    }
  }

  lemma NothingPrunes(k: nat, depth: nat, d: nat)
    ensures BodyPruned(Body([], 0, k), Body([], 0, k), depth, d)
  {}

  lemma BodiesStopTogether(small: Body, large: Body, depth: nat, d: nat)
    requires BodyPruned(small, large, depth, d)
    ensures small.next == large.next
  {}

  lemma {:induction false} ParseTopPrunes(env: Env, d: nat, e: nat, ev: seq<Event>, k: nat)
    requires d <= e && k <= |ev|
    ensures BodyPruned(ParseTop(env, d, ev, k), ParseTop(env, e, ev, k), 0, d)
    decreases |ev| - k
  {
    hide ParseBody;
    ParseBodyPrunes(env, d, e, ev, k, 0);
    var b := ParseBody(env, e, ev, k, 0);
    if b.next < |ev| {
      ParseTopPrunes(env, d, e, ev, b.next + 1);
      var rest := ParseTop(env, e, ev, b.next + 1);
      ForestSizeSplits(b.children, rest.children);
      PruneAllSplits(b.children, rest.children, d);
    }
  }

  /** For every event sequence, the tree capped at `d` is any deeper-capped tree pruned at `d`. */
  lemma {:induction false} CappingIsPruning(env: Env, d: nat, e: nat, ev: seq<Event>)
    requires d <= e
    ensures CallTree(env, d, ev) == Prune(CallTree(env, e, ev), d)
  {
    hide ParseTop;
    ParseTopPrunes(env, d, e, ev, 0);
    RootPrunes(env.Root(), d, ParseTop(env, d, ev, 0), ParseTop(env, e, ev, 0));
  }

  lemma {:induction false} RootPrunes(root: CallNode, d: nat, small: Body, large: Body)
    requires root.depth == 0 && root.children == [] && root.truncatedChildren == None
    requires BodyPruned(small, large, 0, d)
    ensures Absorb(root, small) == Prune(Absorb(root, large), d)
  {
    assert [] + large.children == large.children && [] + small.children == small.children;
  }

  function Calls(ev: seq<Event>, k: nat, end: nat): nat
    requires k <= end <= |ev|
    decreases end - k
  {
    if k == end then 0 else (if ev[k].kind == Call then 1 else 0) + Calls(ev, k + 1, end)
  }

  lemma {:induction false} CallsSplit(ev: seq<Event>, k: nat, m: nat, end: nat)
    requires k <= m <= end <= |ev|
    ensures Calls(ev, k, end) == Calls(ev, k, m) + Calls(ev, m, end)
    decreases m - k
  {
    if k < m { CallsSplit(ev, k + 1, m, end); }
  }

  lemma {:induction false} BodyCountsCalls(env: Env, d: nat, ev: seq<Event>, k: nat, depth: nat)
    requires k <= |ev|
    ensures var b := ParseBody(env, d, ev, k, depth);
      ForestSize(b.children) + b.cut == Calls(ev, k, b.next)
    decreases |ev| - k
  {
    if k < |ev| && ev[k].kind == Call {
      hide ParseBody;
      var inner, rest := CallUnfolds(env, d, ev, k, depth);
      BodyCountsCalls(env, d, ev, k + 1, depth + 1);
      BodyCountsCalls(env, d, ev, After(ev, inner), depth);
      CallsSplit(ev, k + 1, inner.next, rest.next);
      CallsSplit(ev, inner.next, After(ev, inner), rest.next);
      if depth + 1 <= d {
        ForestSizeOfCons(CallAt(env, ev, k, depth + 1, inner), rest.children);
        CallSize(env, ev, k, depth + 1, inner);
      } else {
        NoNodesBeyondCap(env, d, ev, k + 1, depth + 1);
      }
    }
  }

  lemma {:induction false} TopCountsCalls(env: Env, d: nat, ev: seq<Event>, k: nat)
    requires k <= |ev|
    ensures var b := ParseTop(env, d, ev, k);
      ForestSize(b.children) + b.cut == Calls(ev, k, |ev|)
    decreases |ev| - k
  {
    BodyCountsCalls(env, d, ev, k, 0);
    var b := ParseBody(env, d, ev, k, 0);
    if b.next < |ev| {
      TopCountsCalls(env, d, ev, b.next + 1);
      ForestSizeSplits(b.children, ParseTop(env, d, ev, b.next + 1).children);
      CallsSplit(ev, k, b.next, |ev|);
    }
  }

  /** Nodes below the root plus everything cut away number exactly the call events. */
  lemma {:induction false} EveryCallCounted(env: Env, d: nat, ev: seq<Event>)
    ensures Descendants(CallTree(env, d, ev)) == Calls(ev, 0, |ev|)
  {
    TopCountsCalls(env, d, ev, 0);
    assert [] + ParseTop(env, d, ev, 0).children == ParseTop(env, d, ev, 0).children;
  }
}
