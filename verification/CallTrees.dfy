/** The builder: a stack of open frames, and a counter standing for the frames beyond the depth cap. */
module CallTrees {
  import opened Wrappers
  import opened CallTreeSpec

  /** The frame that remains when everything still open is closed at the end of the trace. */
  function CloseAll(env: Env, stack: seq<CallNode>): CallNode
    requires |stack| > 0
    decreases |stack|
  {
    if |stack| == 1 then stack[0].(exitIdx := env.LastIdx())
    else CloseAll(env, Pop(stack, env.LastIdx()))
  }

  function Pop(stack: seq<CallNode>, exit: nat): (r: seq<CallNode>)
    requires |stack| > 1
    ensures |r| == |stack| - 1
  {
    var top, parent := stack[|stack| - 1].(exitIdx := exit), stack[|stack| - 2];
    stack[..|stack| - 2] + [parent.(children := parent.children + [top])]
  }

  function Cut(stack: seq<CallNode>, more: nat): (r: seq<CallNode>)
    requires |stack| > 0
    ensures |r| == |stack|
  {
    var top := stack[|stack| - 1];
    stack[..|stack| - 1] + [top.(truncatedChildren := AddCut(top.truncatedChildren, more))]
  }

  /** The tree the loop arrives at from event `k` with the given stack and balance. */
  function Finish(env: Env, maxDepth: nat, ev: seq<Event>, k: nat, stack: seq<CallNode>, balance: nat): CallNode
    requires k <= |ev| && |stack| > 0
    decreases |ev| - k
  {
    if k == |ev| then CloseAll(env, stack)
    else if ev[k].kind == Call then
      var depth := stack[|stack| - 1].depth + 1;
      if depth > maxDepth then Finish(env, maxDepth, ev, k + 1, Cut(stack, 1), balance + 1)
      else Finish(env, maxDepth, ev, k + 1, stack + [env.Opened(ev[k].idx, depth)], balance)
    else if balance > 0 then Finish(env, maxDepth, ev, k + 1, stack, balance - 1)
    else if |stack| > 1 then Finish(env, maxDepth, ev, k + 1, Pop(stack, ev[k].idx), balance)
    else Finish(env, maxDepth, ev, k + 1, stack, balance)
  }

  lemma CutTwice(stack: seq<CallNode>, a: nat, b: nat)
    requires |stack| > 0
    ensures Cut(Cut(stack, a), b) == Cut(stack, a + b)
    ensures Cut(stack, 0) == stack
    ensures Cut(stack, a)[|stack| - 1].depth == stack[|stack| - 1].depth
  {}

  lemma FinishCounts(env: Env, d: nat, ev: seq<Event>, k: nat, stack: seq<CallNode>, balance: nat)
    requires k < |ev| && |stack| > 0 && ev[k].kind == Call && stack[|stack| - 1].depth >= d
    ensures Finish(env, d, ev, k, stack, balance) == Finish(env, d, ev, k + 1, Cut(stack, 1), balance + 1)
  {}

  /** The return of a missing frame, or the end of the trace, takes one off the balance. */
  lemma {:induction false} FinishSkips(env: Env, d: nat, ev: seq<Event>, inner: Body, stack: seq<CallNode>,
      balance: nat)
    requires inner.next <= |ev| && |stack| > 0 && (inner.next < |ev| ==> ev[inner.next].kind == Ret)
    ensures Finish(env, d, ev, inner.next, stack, balance + 1) == Finish(env, d, ev, After(ev, inner), stack, balance)
  {}

  /** At the depth cap the counter stands in for every missing frame, nested ones included. */
  lemma {:induction false} BalanceCountsMissingFrames(env: Env, d: nat, ev: seq<Event>, k: nat, stack: seq<CallNode>,
      balance: nat, depth: nat)
    requires k <= |ev| && |stack| > 0 && stack[|stack| - 1].depth >= d && depth >= d
    ensures var b := ParseBody(env, d, ev, k, depth);
      Finish(env, d, ev, k, stack, balance) == Finish(env, d, ev, b.next, Cut(stack, b.cut), balance)
    decreases |ev| - k
  {
    hide ParseBody, Finish, Cut;
    if k < |ev| && ev[k].kind == Call {
      FinishCounts(env, d, ev, k, stack, balance);
      var inner, rest := CallUnfolds(env, d, ev, k, depth);
      CutTwice(stack, 1, inner.cut);
      BalanceCountsMissingFrames(env, d, ev, k + 1, Cut(stack, 1), balance + 1, depth + 1);
      CutTwice(stack, 1 + inner.cut, rest.cut);
      FinishSkips(env, d, ev, inner, Cut(stack, 1 + inner.cut), balance);
      BalanceCountsMissingFrames(env, d, ev, After(ev, inner), Cut(stack, 1 + inner.cut), balance, depth);
    } else {
      NothingToParse(env, d, ev, k, depth);
      CutTwice(stack, 0, 0);
    }
  }

  function Grow(stack: seq<CallNode>, b: Body): (r: seq<CallNode>)
    requires |stack| > 0
    ensures |r| == |stack|
  {
    stack[..|stack| - 1] + [Absorb(stack[|stack| - 1], b)]
  }

  lemma GrowNothing(stack: seq<CallNode>, k: nat)
    requires |stack| > 0
    ensures Grow(stack, Body([], 0, k)) == stack
  {
    var top := stack[|stack| - 1];
    assert top.children + [] == top.children;
  }

  lemma GrowTwice(stack: seq<CallNode>, a: Body, b: Body)
    requires |stack| > 0
    ensures Grow(Grow(stack, a), b) == Grow(stack, Body(a.children + b.children, a.cut + b.cut, b.next))
  {
    var top := stack[|stack| - 1];
    assert (top.children + a.children) + b.children == top.children + (a.children + b.children);
  }

  /** Closing a pushed frame hands the finished call to its caller. */
  lemma PopAfterGrow(env: Env, ev: seq<Event>, k: nat, stack: seq<CallNode>, depth: nat, inner: Body, exit: nat)
    requires |stack| > 0 && k < |ev|
    requires exit == if inner.next < |ev| then ev[inner.next].idx else env.LastIdx()
    ensures var pushed := stack + [env.Opened(ev[k].idx, depth)];
      Pop(Grow(pushed, inner), exit) == Grow(stack, Body([CallAt(env, ev, k, depth, inner)], 0, inner.next))
  {
    var pushed := stack + [env.Opened(ev[k].idx, depth)];
    assert pushed[..|pushed| - 1] == stack;
  }

  lemma CutIsGrow(stack: seq<CallNode>, cut: nat, next: nat)
    requires |stack| > 0
    ensures Cut(stack, cut) == Grow(stack, Body([], cut, next))
  {
    assert stack[|stack| - 1].children + [] == stack[|stack| - 1].children;
  }

  lemma FinishReturns(env: Env, d: nat, ev: seq<Event>, next: nat, stack: seq<CallNode>)
    requires next <= |ev| && |stack| > 1 && (next < |ev| ==> ev[next].kind == Ret)
    ensures Finish(env, d, ev, next, stack, 0) ==
      if next < |ev| then Finish(env, d, ev, next + 1, Pop(stack, ev[next].idx), 0)
      else Finish(env, d, ev, next, Pop(stack, env.LastIdx()), 0)
  {}

  lemma FinishCalls(env: Env, d: nat, ev: seq<Event>, k: nat, stack: seq<CallNode>)
    requires k < |ev| && |stack| > 0 && ev[k].kind == Call
    ensures var depth := stack[|stack| - 1].depth + 1;
      Finish(env, d, ev, k, stack, 0) ==
      if depth > d then Finish(env, d, ev, k + 1, Cut(stack, 1), 1)
      else Finish(env, d, ev, k + 1, stack + [env.Opened(ev[k].idx, depth)], 0)
  {}

  /** With no frame missing, the loop adds to the top frame exactly the body the recursive descent reads. */
  lemma LoopReadsBody(env: Env, d: nat, ev: seq<Event>, k: nat, stack: seq<CallNode>)
    requires k <= |ev| && |stack| > 0
    ensures var b := ParseBody(env, d, ev, k, stack[|stack| - 1].depth);
      Finish(env, d, ev, k, stack, 0) == Finish(env, d, ev, b.next, Grow(stack, b), 0)
    decreases |ev| - k
  {
    hide ParseBody, Finish, Cut, Grow, Pop, CallAt, Absorb;
    var depth := stack[|stack| - 1].depth;
    if k == |ev| || ev[k].kind == Ret {
      NothingToParse(env, d, ev, k, depth);
      GrowNothing(stack, k);
    } else {
      FinishCalls(env, d, ev, k, stack);
      var inner, rest := CallUnfolds(env, d, ev, k, depth);
      var one: Body;
      if depth + 1 > d {
        one := Body([], 1 + inner.cut, inner.next);
        CutTwice(stack, 1, inner.cut);
        BalanceCountsMissingFrames(env, d, ev, k + 1, Cut(stack, 1), 1, depth + 1);
        CutIsGrow(stack, 1 + inner.cut, inner.next);
        FinishSkips(env, d, ev, inner, Grow(stack, one), 0);
        NoNodesBeyondCap(env, d, ev, k + 1, depth + 1);
        assert [] + rest.children == rest.children;
      } else {
        one := Body([CallAt(env, ev, k, depth + 1, inner)], 0, inner.next);
        var pushed := stack + [env.Opened(ev[k].idx, depth + 1)];
        LoopReadsBody(env, d, ev, k + 1, pushed);
        FinishReturns(env, d, ev, inner.next, Grow(pushed, inner));
        PopAfterGrow(env, ev, k, stack, depth + 1, inner,
          if inner.next < |ev| then ev[inner.next].idx else env.LastIdx());
      }
      GrowDepth(stack, one);
      LoopReadsBody(env, d, ev, After(ev, inner), Grow(stack, one));
      GrowTwice(stack, one, rest);
    }
  }

  lemma GrowDepth(stack: seq<CallNode>, b: Body)
    requires |stack| > 0
    ensures Grow(stack, b)[|stack| - 1].depth == stack[|stack| - 1].depth
  {}

  lemma FinishIgnores(env: Env, d: nat, ev: seq<Event>, k: nat, root: CallNode)
    requires k <= |ev| && (k < |ev| ==> ev[k].kind == Ret)
    ensures Finish(env, d, ev, k, [root], 0) ==
      if k < |ev| then Finish(env, d, ev, k + 1, [root], 0) else root.(exitIdx := env.LastIdx())
  {}

  lemma {:induction false} LoopReadsTop(env: Env, d: nat, ev: seq<Event>, k: nat, root: CallNode)
    requires k <= |ev| && root.depth == 0
    ensures Finish(env, d, ev, k, [root], 0) == Absorb(root, ParseTop(env, d, ev, k)).(exitIdx := env.LastIdx())
    decreases |ev| - k
  {
    hide ParseBody, Finish;
    LoopReadsBody(env, d, ev, k, [root]);
    var b := ParseBody(env, d, ev, k, 0);
    assert Grow([root], b) == [Absorb(root, b)];
    FinishIgnores(env, d, ev, b.next, Absorb(root, b));
    if b.next < |ev| {
      LoopReadsTop(env, d, ev, b.next + 1, Absorb(root, b));
      var rest := ParseTop(env, d, ev, b.next + 1);
      assert (root.children + b.children) + rest.children == root.children + (b.children + rest.children);
    }
  }

  method BuildFromEvents(env: Env, maxDepth: nat, events: seq<Event>) returns (tree: CallNode)
    ensures tree == CallTree(env, maxDepth, events)
  {
    var lastIdx := env.LastIdx();
    var stack := [env.Root()];
    var capBalance := 0;
    ghost var result := Finish(env, maxDepth, events, 0, stack, 0);
    LoopReadsTop(env, maxDepth, events, 0, env.Root());
    for k := 0 to |events|
      invariant |stack| > 0 && Finish(env, maxDepth, events, k, stack, capBalance) == result
    {
      var i := events[k].idx;
      if events[k].kind == Call {
        var newDepth := stack[|stack| - 1].depth + 1;
        if newDepth > maxDepth {
          var top := stack[|stack| - 1];
          var count := if top.truncatedChildren.Some? then top.truncatedChildren.value else 0;
          stack := stack[..|stack| - 1] + [top.(truncatedChildren := Some(count + 1))];
          capBalance := capBalance + 1;
          continue;
        }
        stack := stack + [CallNode(env.CalleeName(i), env.TargetPc(i), i, i, newDepth, [], None)];
      } else {
        if capBalance > 0 {
          capBalance := capBalance - 1;
          continue;
        }
        if |stack| > 1 {
          ghost var popped := Pop(stack, i);
          var top := stack[|stack| - 1].(exitIdx := i);
          stack := stack[..|stack| - 1];
          var parent := stack[|stack| - 1];
          stack := stack[..|stack| - 1] + [parent.(children := parent.children + [top])];
          assert stack == popped;
        }
      }
    }
    while |stack| > 1
      invariant |stack| > 0 && CloseAll(env, stack) == result
    {
      ghost var popped := Pop(stack, lastIdx);
      var top := stack[|stack| - 1].(exitIdx := lastIdx);
      stack := stack[..|stack| - 1];
      var parent := stack[|stack| - 1];
      stack := stack[..|stack| - 1] + [parent.(children := parent.children + [top])];
      assert stack == popped;
    }
    tree := stack[0].(exitIdx := lastIdx);
  }
}
