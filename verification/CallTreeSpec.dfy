/** Call trees by recursive descent over call and return events: the reference the stack machine is held to. */
module CallTreeSpec {
  import opened Wrappers

  datatype EventKind = Call | Ret

  datatype Event = Event(idx: nat, kind: EventKind)

  datatype CallNode = CallNode(
    fnName: Option<string>,
    fnPc: nat,
    enterIdx: nat,
    exitIdx: nat,
    depth: nat,
    children: seq<CallNode>,
    truncatedChildren: Option<nat>)

  /** What the builder reads besides the events: record PCs and the symbol table. */
  datatype Env = Env(pcs: seq<nat>, lookup: nat -> string) {
    function LastIdx(): nat { if |pcs| == 0 then 0 else |pcs| - 1 }

    /** The callee is where the next record lands; 0 when the trace ends at the call. */
    function TargetPc(i: nat): nat { if i + 1 < |pcs| then pcs[i + 1] else 0 }

    function CalleeName(i: nat): Option<string> {
      var name := if TargetPc(i) != 0 then lookup(TargetPc(i)) else "";
      if name == "" then None else Some(name)
    }

    function Opened(i: nat, depth: nat): CallNode {
      CallNode(CalleeName(i), TargetPc(i), i, i, depth, [], None)
    }

    function Root(): CallNode { CallNode(Some("?"), 0, 0, LastIdx(), 0, [], None) }
  }

  /** `truncated_children` is absent rather than zero. */
  function AddCut(cut: Option<nat>, more: nat): Option<nat> {
    if more == 0 then cut else Some((if cut.Some? then cut.value else 0) + more)
  }

  /** What happens between a call and its return: nested calls, calls cut away, and where it stops. */
  datatype Body = Body(children: seq<CallNode>, cut: nat, next: nat)

  function Absorb(node: CallNode, body: Body): CallNode {
    node.(children := node.children + body.children, truncatedChildren := AddCut(node.truncatedChildren, body.cut))
  }

  /** The calls made directly by a frame at `depth`, up to its return (or the end of the trace). */
  function ParseBody(env: Env, maxDepth: nat, ev: seq<Event>, k: nat, depth: nat): (b: Body)
    requires k <= |ev|
    ensures k <= b.next <= |ev| && (b.next < |ev| ==> ev[b.next].kind == Ret)
    decreases |ev| - k
  {
    if k == |ev| || ev[k].kind == Ret then Body([], 0, k)
    else
      var inner := ParseBody(env, maxDepth, ev, k + 1, depth + 1);
      Combine(env, maxDepth, ev, k, depth, inner, ParseBody(env, maxDepth, ev, After(ev, inner), depth))
  }

  /** Past the return that ends the body, if there is one. */
  function After(ev: seq<Event>, inner: Body): (k: nat)
    requires inner.next <= |ev|
    ensures inner.next <= k <= |ev|
  {
    if inner.next < |ev| then inner.next + 1 else |ev|
  }

  /** A call beyond the depth cap is counted together with everything inside it; otherwise it becomes a node. */
  function Combine(env: Env, maxDepth: nat, ev: seq<Event>, k: nat, depth: nat, inner: Body, rest: Body): Body
    requires k < |ev|
  {
    if depth + 1 > maxDepth then Body(rest.children, 1 + inner.cut + rest.cut, rest.next)
    else Body([CallAt(env, ev, k, depth + 1, inner)] + rest.children, rest.cut, rest.next)
  }

  lemma CallUnfolds(env: Env, maxDepth: nat, ev: seq<Event>, k: nat, depth: nat) returns (inner: Body, rest: Body)
    requires k < |ev| && ev[k].kind == Call
    ensures inner == ParseBody(env, maxDepth, ev, k + 1, depth + 1)
    ensures rest == ParseBody(env, maxDepth, ev, After(ev, inner), depth)
    ensures ParseBody(env, maxDepth, ev, k, depth) == Combine(env, maxDepth, ev, k, depth, inner, rest)
  {
    inner := ParseBody(env, maxDepth, ev, k + 1, depth + 1);
    rest := ParseBody(env, maxDepth, ev, After(ev, inner), depth);
  }

  lemma {:induction false} NothingToParse(env: Env, maxDepth: nat, ev: seq<Event>, k: nat, depth: nat)
    requires k <= |ev| && (k == |ev| || ev[k].kind == Ret)
    ensures ParseBody(env, maxDepth, ev, k, depth) == Body([], 0, k)
  {}

  lemma {:induction false} NoNodesBeyondCap(env: Env, maxDepth: nat, ev: seq<Event>, k: nat, depth: nat)
    requires k <= |ev| && depth >= maxDepth
    ensures ParseBody(env, maxDepth, ev, k, depth).children == []
    decreases |ev| - k
  {
    if k < |ev| && ev[k].kind == Call {
      var inner, rest := CallUnfolds(env, maxDepth, ev, k, depth);
      NoNodesBeyondCap(env, maxDepth, ev, After(ev, inner), depth);
    }
  }

  function CallAt(env: Env, ev: seq<Event>, k: nat, depth: nat, inner: Body): CallNode
    requires k < |ev|
  {
    var exit := if inner.next < |ev| then ev[inner.next].idx else env.LastIdx();
    Absorb(env.Opened(ev[k].idx, depth), inner).(exitIdx := exit)
  }

  /** At top level a return with no open call is ignored. */
  function ParseTop(env: Env, maxDepth: nat, ev: seq<Event>, k: nat): (b: Body)
    requires k <= |ev|
    ensures b.next == |ev|
    decreases |ev| - k
  {
    var b := ParseBody(env, maxDepth, ev, k, 0);
    if b.next == |ev| then b
    else
      var rest := ParseTop(env, maxDepth, ev, b.next + 1);
      Body(b.children + rest.children, b.cut + rest.cut, rest.next)
  }

  function CallTree(env: Env, maxDepth: nat, ev: seq<Event>): CallNode {
    Absorb(env.Root(), ParseTop(env, maxDepth, ev, 0))
  }
}
