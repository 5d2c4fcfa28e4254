/** Which node stands for which call, said about the events alone: where it begins and ends, how deep, and of what. */
module CallTreeNodes {
  import opened Wrappers
  import opened CallTreeSpec

  // ---------- descendants ----------

  /** A proper descendant. */
  ghost predicate Below(c: CallNode, node: CallNode) {
    exists i :: 0 <= i < |node.children| && (c == node.children[i] || Below(c, node.children[i]))
  }

  ghost predicate Among(c: CallNode, nodes: seq<CallNode>) {
    exists i :: 0 <= i < |nodes| && (c == nodes[i] || Below(c, nodes[i]))
  }

  lemma AmongJoined(c: CallNode, a: seq<CallNode>, b: seq<CallNode>)
    ensures Among(c, a + b) <==> Among(c, a) || Among(c, b)
  {
    hide Below;
    if Among(c, a) {
      var i :| 0 <= i < |a| && (c == a[i] || Below(c, a[i]));
      assert (a + b)[i] == a[i];
    }
    if Among(c, b) {
      var i :| 0 <= i < |b| && (c == b[i] || Below(c, b[i]));
      assert (a + b)[|a| + i] == b[i];
    }
  }

  lemma AmongOne(c: CallNode, node: CallNode)
    ensures Among(c, [node]) <==> c == node || Among(c, node.children)
  {
    assert Among(c, [node]) <==> c == [node][0] || Below(c, [node][0]);
  }

  // ---------- calls and their returns ----------

  /** Calls open after the first `k` events; a return with none open is ignored. */
  function Nesting(ev: seq<Event>, k: nat): nat
    requires k <= |ev|
  {
    if k == 0 then 0
    else if ev[k - 1].kind == Call then Nesting(ev, k - 1) + 1
    else if Nesting(ev, k - 1) == 0 then 0
    else Nesting(ev, k - 1) - 1
  }

  ghost predicate Calls(ev: seq<Event>, k: nat) { k < |ev| && ev[k].kind == Call }

  /** Event `m` returns from the call at event `k`: the first after which no more calls are open than before it. */
  ghost predicate Returns(ev: seq<Event>, k: nat, m: nat) {
    && k < m < |ev| && Nesting(ev, m + 1) == Nesting(ev, k)
    && forall j :: k < j <= m ==> Nesting(ev, j) > Nesting(ev, k)
  }

  /** Where the call at event `k` ends on the trace: at its return, or with the last record. */
  ghost predicate EndsAt(env: Env, ev: seq<Event>, k: nat, idx: nat) {
    && (forall m: nat :: Returns(ev, k, m) ==> idx == ev[m].idx)
    && ((forall m: nat :: !Returns(ev, k, m)) ==> idx == if |env.pcs| == 0 then 0 else |env.pcs| - 1)
  }

  /** `c` stands for the call at event `k`: its callee is where the record after the call lands. */
  ghost predicate StandsFor(env: Env, ev: seq<Event>, k: nat, c: CallNode) {
    && Calls(ev, k) && c.enterIdx == ev[k].idx && EndsAt(env, ev, k, c.exitIdx)
    && c.depth == Nesting(ev, k) + 1
    && c.fnPc == (if c.enterIdx + 1 < |env.pcs| then env.pcs[c.enterIdx + 1] else 0)
    && c.fnName == (if c.fnPc != 0 && env.lookup(c.fnPc) != "" then Some(env.lookup(c.fnPc)) else None)
  }

  // ---------- what the descent leaves ----------

  /** `nodes` are exactly the calls of [k, end) that no more than `d` calls contain, themselves included. */
  ghost predicate Stand(env: Env, d: nat, ev: seq<Event>, k: nat, end: nat, nodes: seq<CallNode>)
    requires end <= |ev|
  {
    && (forall c :: Among(c, nodes) ==> exists j: nat :: k <= j < end && Nesting(ev, j) < d && StandsFor(env, ev, j, c))
    && (forall j: nat :: k <= j < end && Calls(ev, j) && Nesting(ev, j) < d ==>
          exists c :: Among(c, nodes) && StandsFor(env, ev, j, c))
  }

  lemma StandJoin(env: Env, d: nat, ev: seq<Event>, k: nat, mid: nat, end: nat, a: seq<CallNode>, b: seq<CallNode>)
    requires k <= mid <= end <= |ev|
    requires Stand(env, d, ev, k, mid, a) && Stand(env, d, ev, mid, end, b)
    ensures Stand(env, d, ev, k, end, a + b)
  {
    forall c ensures Among(c, a + b) <==> Among(c, a) || Among(c, b) { AmongJoined(c, a, b); }
    hide Among, StandsFor;
  }

  /** Nothing but returns and calls too deep. */
  lemma {:induction false} StandNothing(env: Env, d: nat, ev: seq<Event>, k: nat, end: nat)
    requires k <= end <= |ev| && forall j: nat :: k <= j < end ==> !(Calls(ev, j) && Nesting(ev, j) < d)
    ensures Stand(env, d, ev, k, end, [])
  {}

  /** A body read from event `k` at the nesting there stays at or above that nesting and ends on it. */
  ghost predicate Level(ev: seq<Event>, k: nat, next: nat, depth: nat) {
    && k <= next <= |ev| && (forall j: nat :: k <= j <= next ==> Nesting(ev, j) >= depth)
    && (next < |ev| ==> Nesting(ev, next) == depth)
  }

  lemma {:induction false} CallStands(env: Env, ev: seq<Event>, k: nat, depth: nat, inner: Body)
    requires Calls(ev, k) && Nesting(ev, k) == depth && Level(ev, k + 1, inner.next, depth + 1)
    requires inner.next < |ev| ==> ev[inner.next].kind == Ret
    ensures StandsFor(env, ev, k, CallAt(env, ev, k, depth + 1, inner))
  {
    if inner.next < |ev| {
      var after := inner.next + 1;
      assert Nesting(ev, after) == depth && Returns(ev, k, inner.next);
      forall m: nat ensures m != inner.next ==> !Returns(ev, k, m) {
        assert k < m < inner.next ==> Nesting(ev, m + 1) >= depth + 1;
      }
    } else {
      forall m: nat ensures !Returns(ev, k, m) { assert k < m < |ev| ==> Nesting(ev, m + 1) >= depth + 1; }
    }
    hide Returns, Nesting;
  }

  lemma {:induction false} BodyStands(env: Env, d: nat, ev: seq<Event>, k: nat, depth: nat)
    requires k <= |ev| && Nesting(ev, k) >= depth && (k < |ev| ==> Nesting(ev, k) == depth)
    ensures var b := ParseBody(env, d, ev, k, depth);
      Level(ev, k, b.next, depth) && Stand(env, d, ev, k, b.next, b.children)
    decreases |ev| - k
  {
    hide ParseBody, Among, StandsFor, CallAt;
    if k < |ev| && ev[k].kind == Call {
      var inner, rest := CallUnfolds(env, d, ev, k, depth);
      BodyStands(env, d, ev, k + 1, depth + 1);
      var after := After(ev, inner);
      AfterLevel(ev, k, depth, inner);
      BodyStands(env, d, ev, after, depth);
      StandNothing(env, d, ev, inner.next, after);
      if depth + 1 <= d {
        var node := CallAt(env, ev, k, depth + 1, inner);
        CallStands(env, ev, k, depth, inner);
        CallHolds(env, ev, k, depth + 1, inner);
        OneStands(env, d, ev, k, inner.next, inner, node);
        assert [node] + [] == [node];
        StandJoin(env, d, ev, k, inner.next, after, [node], []);
        StandJoin(env, d, ev, k, after, rest.next, [node], rest.children);
      } else {
        assert [] + rest.children == rest.children;
        StandNothing(env, d, ev, k, after);
        StandJoin(env, d, ev, k, after, rest.next, [], rest.children);
      }
    } else {
      NothingToParse(env, d, ev, k, depth);
      StandNothing(env, d, ev, k, k);
    }
  }

  lemma CallHolds(env: Env, ev: seq<Event>, k: nat, depth: nat, inner: Body)
    requires k < |ev|
    ensures CallAt(env, ev, k, depth, inner).children == inner.children
  {
    assert [] + inner.children == inner.children;
  }

  lemma {:induction false} AfterLevel(ev: seq<Event>, k: nat, depth: nat, inner: Body)
    requires Calls(ev, k) && Nesting(ev, k) == depth && Level(ev, k + 1, inner.next, depth + 1)
    requires inner.next < |ev| ==> ev[inner.next].kind == Ret
    ensures var after := After(ev, inner);
      && Nesting(ev, after) >= depth && (after < |ev| ==> Nesting(ev, after) == depth)
      && (forall j: nat :: k <= j <= after ==> Nesting(ev, j) >= depth)
      && (forall j: nat :: k < j < after ==> Nesting(ev, j) > depth)
      && forall j: nat :: inner.next <= j < after ==> !Calls(ev, j)
  {}

  /** A call that is not too deep, with everything inside it. */
  lemma {:induction false} OneStands(env: Env, d: nat, ev: seq<Event>, k: nat, end: nat, inner: Body, node: CallNode)
    requires k < end <= |ev| && Stand(env, d, ev, k + 1, end, inner.children)
    requires node.children == inner.children && StandsFor(env, ev, k, node) && Nesting(ev, k) < d
    ensures Stand(env, d, ev, k, end, [node])
  {
    forall c ensures Among(c, [node]) <==> c == node || Among(c, inner.children) { AmongOne(c, node); }
    hide Among, StandsFor;
  }

  lemma {:induction false} TopStands(env: Env, d: nat, ev: seq<Event>, k: nat)
    requires k <= |ev| && (k < |ev| ==> Nesting(ev, k) == 0)
    ensures Stand(env, d, ev, k, |ev|, ParseTop(env, d, ev, k).children)
    decreases |ev| - k
  {
    hide ParseBody, Among, StandsFor;
    BodyStands(env, d, ev, k, 0);
    var b := ParseBody(env, d, ev, k, 0);
    if b.next < |ev| {
      var rest := ParseTop(env, d, ev, b.next + 1);
      TopStands(env, d, ev, b.next + 1);
      StandNothing(env, d, ev, b.next, b.next + 1);
      assert [] + rest.children == rest.children;
      StandJoin(env, d, ev, b.next, b.next + 1, |ev|, [], rest.children);
      StandJoin(env, d, ev, k, b.next, |ev|, b.children, rest.children);
    }
  }

  /**
   * The nodes below the root are exactly the calls with fewer than `d` calls open around them: each stands for one
   * call event and every such event has a node.
   */
  lemma {:induction false} NodesAreCalls(env: Env, d: nat, ev: seq<Event>)
    ensures var root := CallTree(env, d, ev);
      && root.fnPc == 0 && root.fnName == Some("?")
      && (forall c :: Below(c, root) ==> exists k: nat :: k < |ev| && Nesting(ev, k) < d && StandsFor(env, ev, k, c))
      && (forall k: nat :: Calls(ev, k) && Nesting(ev, k) < d ==>
            exists c :: Below(c, root) && StandsFor(env, ev, k, c))
  {
    TopStands(env, d, ev, 0);
    var root, b := CallTree(env, d, ev), ParseTop(env, d, ev, 0);
    assert root.children == [] + b.children == b.children;
    hide ParseTop, StandsFor;
    forall c ensures Below(c, root) <==> Among(c, root.children) {}
  }
}
