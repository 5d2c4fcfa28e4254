/** What a dependency row should hold, said by looking back through the trace. */
module DependencySpec {
  import opened Wrappers
  import opened TraceModel
  import opened DependencyGraph
  import opened Sorting

  /** The last record before `i` that defines `reg`. */
  function LastDef(trace: Trace, i: nat, reg: string): Option<nat>
    requires i <= |trace|
  {
    if i == 0 then None
    else if reg in trace[i - 1].regsDef then Some(i - 1)
    else LastDef(trace, i - 1, reg)
  }

  /** Bytes a store covers: the bytes it is known to have written, else its nominal size. */
  function StoreLength(op: MemOp): nat { if op.raw.Some? then |op.raw.value| else op.size }

  predicate Covers(addr: nat, length: nat, a: nat) {
    exists k :: 0 <= k < length && WrappingAdd(addr, k) == a
  }

  predicate StoresTo(op: MemOp, a: nat) {
    op.base != "" && op.isWrite && Covers(op.addr, StoreLength(op), a)
  }

  predicate Stores(rec: Rec, a: nat) {
    exists op :: op in rec.memOps && StoresTo(op, a)
  }

  /** The last record before `i` that stores to byte `a`. */
  function LastWriter(trace: Trace, i: nat, a: nat): Option<nat>
    requires i <= |trace|
  {
    if i == 0 then None
    else if Stores(trace[i - 1], a) then Some(i - 1)
    else LastWriter(trace, i - 1, a)
  }

  /** The last conditional branch before `i` with no call or return since. */
  function LastCond(trace: Trace, i: nat): Option<nat>
    requires i <= |trace|
  {
    if i == 0 then None
    else
      var r := trace[i - 1];
      if r.isCall || r.isRet then None
      else if r.isCond then Some(i - 1)
      else LastCond(trace, i - 1)
  }

  predicate IsAddressReg(rec: Rec, reg: string) {
    reg != "" && exists op :: op in rec.memOps && (op.base == reg || op.index == reg)
  }

  predicate IsStoreSource(rec: Rec, reg: string) {
    reg != "" && exists op :: op in rec.memOps && op.isWrite && op.srcReg == reg
  }

  /** A register used both as address and as stored value counts as both. */
  predicate IsDataReg(rec: Rec, reg: string) {
    IsStoreSource(rec, reg) || !IsAddressReg(rec, reg)
  }

  ghost predicate RegEdge(trace: Trace, i: nat, e: Edge)
    requires i < |trace|
  {
    exists reg :: reg in trace[i].regsUse && LastDef(trace, i, reg) == Some(e.idx) &&
      ((e.kind == Address && IsAddressReg(trace[i], reg)) || (e.kind == Reg && IsDataReg(trace[i], reg)))
  }

  ghost predicate LoadsFrom(op: MemOp, a: nat) {
    op.base != "" && !op.isWrite && Covers(op.addr, op.size, a)
  }

  ghost predicate MemEdge(trace: Trace, i: nat, e: Edge)
    requires i < |trace|
  {
    e.kind == Mem && exists op, a :: op in trace[i].memOps && LoadsFrom(op, a) && LastWriter(trace, i, a) == Some(e.idx)
  }

  ghost predicate ControlEdge(trace: Trace, i: nat, e: Edge)
    requires i < |trace|
  {
    e.kind == Control && !trace[i].isCall && !trace[i].isRet && LastCond(trace, i) == Some(e.idx)
  }

  ghost predicate RowEdge(trace: Trace, i: nat, e: Edge)
    requires i < |trace|
  {
    RegEdge(trace, i, e) || MemEdge(trace, i, e) || ControlEdge(trace, i, e)
  }

  function KindCode(kind: DepKind): nat {
    match kind
    case Reg => 1
    case Address => 2
    case Mem => 3
    case Control => 4
  }

  /** Rows are ordered by (idx, kind). */
  function EdgeKey(e: Edge): int { 5 * e.idx + KindCode(e.kind) }

  lemma EdgeKeyInjective(a: Edge, b: Edge)
    ensures EdgeKey(a) == EdgeKey(b) <==> a == b
    ensures EdgeKey(a) < EdgeKey(b) <==> a.idx < b.idx || (a.idx == b.idx && KindCode(a.kind) < KindCode(b.kind))
  {}

  ghost predicate IsRow(trace: Trace, i: nat, row: seq<Edge>)
    requires i < |trace|
  {
    && StrictlyBy(EdgeKey, row)
    && forall e :: e in row <==> RowEdge(trace, i, e)
  }

  // ---------- what the look-backs mean ----------

  lemma {:induction false} LastDefMeans(trace: Trace, i: nat, reg: string, j: nat)
    requires i <= |trace|
    ensures LastDef(trace, i, reg) == Some(j) <==>
      j < i && reg in trace[j].regsDef && forall k :: j < k < i ==> reg !in trace[k].regsDef
  {
    if i > 0 { LastDefMeans(trace, i - 1, reg, j); }
  }

  lemma {:induction false} LastWriterMeans(trace: Trace, i: nat, a: nat, j: nat)
    requires i <= |trace|
    ensures LastWriter(trace, i, a) == Some(j) <==>
      j < i && Stores(trace[j], a) && forall k :: j < k < i ==> !Stores(trace[k], a)
  {
    hide Stores;
    if i > 0 { LastWriterMeans(trace, i - 1, a, j); }
  }

  lemma {:induction false} LastCondMeans(trace: Trace, i: nat, j: nat)
    requires i <= |trace|
    ensures LastCond(trace, i) == Some(j) <==>
      && j < i && trace[j].isCond && !trace[j].isCall && !trace[j].isRet
      && forall k :: j < k < i ==> !trace[k].isCall && !trace[k].isRet && !trace[k].isCond
  {
    if i > 0 { LastCondMeans(trace, i - 1, j); }
  }

  /** Every edge points to a strictly earlier record. */
  lemma EdgesPointBack(trace: Trace, i: nat, e: Edge)
    requires i < |trace| && RowEdge(trace, i, e)
    ensures e.idx < i
  {
    if RegEdge(trace, i, e) {
      var reg :| reg in trace[i].regsUse && LastDef(trace, i, reg) == Some(e.idx);
      LastDefMeans(trace, i, reg, e.idx);
    } else if MemEdge(trace, i, e) {
      var op, a :| op in trace[i].memOps && LoadsFrom(op, a) && LastWriter(trace, i, a) == Some(e.idx);
      LastWriterMeans(trace, i, a, e.idx);
    } else {
      LastCondMeans(trace, i, e.idx);
    }
  }

  /** There is only one list of edges a row can be. */
  lemma RowIsUnique(trace: Trace, i: nat, a: seq<Edge>, b: seq<Edge>)
    requires i < |trace| && IsRow(trace, i, a) && IsRow(trace, i, b)
    ensures a == b
  {
    hide RowEdge;
    MembersDetermine(EdgeKey, a, b);
  }

  lemma {:induction false} NearLooksBack(g: Graph, sc: Scope, seeds: seq<nat>, d: nat, v: nat)
    requires forall u, e :: e in g(u) ==> e.idx < u
    requires Near(g, sc, seeds, d, v)
    ensures exists s :: s in seeds && v <= s
  {
    if d > 0 {
      if Near(g, sc, seeds, d - 1, v) {
        NearLooksBack(g, sc, seeds, d - 1, v);
      } else {
        var u :| Near(g, sc, seeds, d - 1, u) && Step(g, sc, u, v);
        NearLooksBack(g, sc, seeds, d - 1, u);
      }
    }
  }

  /** Backward slices over a trace's own dependencies never reach past the latest seed. */
  lemma SlicesLookBack(trace: Trace, deps: DependencyIndex, sc: Scope, seeds: seq<nat>, v: nat)
    requires |deps.rowOffsets| == |trace| + 1
    requires forall i: nat :: i < |trace| ==> IsRow(trace, i, deps.Row(i))
    requires Reachable(deps.Rows(), sc, seeds, v)
    ensures exists s :: s in seeds && v <= s
  {
    forall u: nat, e | e in deps.Rows()(u) ensures e.idx < u {
      assert e in deps.Row(u);
      if u < |trace| {
        assert IsRow(trace, u, deps.Row(u));
        EdgesPointBack(trace, u, e);
      }
    }
    var d: nat :| Near(deps.Rows(), sc, seeds, d, v);
    NearLooksBack(deps.Rows(), sc, seeds, d, v);
  }

  // ---------- counting edges by kind ----------

  function CountKind(edges: seq<Edge>, kind: DepKind): nat {
    if |edges| == 0 then 0
    else CountKind(edges[..|edges| - 1], kind) + (if edges[|edges| - 1].kind == kind then 1 else 0)
  }

  lemma {:induction false} CountKindSplits(a: seq<Edge>, b: seq<Edge>, kind: DepKind)
    ensures CountKind(a + b, kind) == CountKind(a, kind) + CountKind(b, kind)
  {
    if |b| == 0 {
      assert a + b == a;
    } else {
      assert (a + b)[..|a + b| - 1] == a + b[..|b| - 1];
      CountKindSplits(a, b[..|b| - 1], kind);
    }
  }

  /** Every edge has one of the four kinds. */
  lemma {:induction false} KindsAddUp(edges: seq<Edge>)
    ensures CountKind(edges, Reg) + CountKind(edges, Address)
      + CountKind(edges, Mem) + CountKind(edges, Control) == |edges|
  {
    if |edges| > 0 { KindsAddUp(edges[..|edges| - 1]); }
  }

  /** A row has at most one control edge. */
  lemma {:induction false} OneControlEdge(edges: seq<Edge>, idx: nat)
    requires StrictlyBy(EdgeKey, edges)
    requires forall e :: e in edges && e.kind == Control ==> e.idx == idx
    ensures CountKind(edges, Control) == if Edge(idx, Control) in edges then 1 else 0
  {
    if |edges| > 0 {
      var front, last := edges[..|edges| - 1], edges[|edges| - 1];
      OneControlEdge(front, idx);
      LastIsGreatest(EdgeKey, edges, front, Edge(idx, Control));
      assert edges == front + [last];
      if last.kind == Control { assert last == Edge(idx, Control); }
    }
  }
}
