/** What the counters of a summary count: sets of records and of operands. */
module Counters {
  import opened Wrappers
  import opened TraceModel
  import opened DependencyGraph
  import opened DependencySpec
  import opened PcSummaries
  import AnalysisIndex

  // ---------- sizes of sets ----------

  ghost function Chosen(n: nat, p: nat -> bool): set<nat> { set i: nat | i < n && p(i) }

  /** Operands of the first `n` records. */
  ghost function Operands(trace: Trace, n: nat, p: (nat, MemOp) -> bool): set<(nat, nat)>
    requires n <= |trace|
  {
    set i: nat, k: nat | i < n && k < |trace[i].memOps| && p(i, trace[i].memOps[k]) :: (i, k)
  }

  lemma ChosenStep(n: nat, p: nat -> bool)
    ensures |Chosen(n + 1, p)| == |Chosen(n, p)| + if p(n) then 1 else 0
  {
    assert Chosen(n + 1, p) == if p(n) then Chosen(n, p) + {n} else Chosen(n, p);
  }

  /** Of one record's operands, the first `k`. */
  ghost function OperandsOf(i: nat, ops: seq<MemOp>, p: (nat, MemOp) -> bool): set<(nat, nat)> {
    set k: nat | k < |ops| && p(i, ops[k]) :: (i, k)
  }

  ghost function CountOperands(i: nat, ops: seq<MemOp>, p: (nat, MemOp) -> bool): nat {
    if |ops| == 0 then 0 else CountOperands(i, ops[..|ops| - 1], p) + (if p(i, ops[|ops| - 1]) then 1 else 0)
  }

  lemma {:induction false} OperandsCount(i: nat, ops: seq<MemOp>, p: (nat, MemOp) -> bool)
    ensures |OperandsOf(i, ops, p)| == CountOperands(i, ops, p)
  {
    if |ops| == 0 {
      assert OperandsOf(i, ops, p) == {};
    } else {
      var front := ops[..|ops| - 1];
      OperandsCount(i, front, p);
      var before := OperandsOf(i, front, p);
      assert OperandsOf(i, ops, p) == if p(i, ops[|ops| - 1]) then before + {(i, |front|)} else before;
    }
  }

  lemma OperandsStep(trace: Trace, n: nat, p: (nat, MemOp) -> bool)
    requires n < |trace|
    ensures |Operands(trace, n + 1, p)| == |Operands(trace, n, p)| + CountOperands(n, trace[n].memOps, p)
  {
    var before, here := Operands(trace, n, p), OperandsOf(n, trace[n].memOps, p);
    assert Operands(trace, n + 1, p) == before + here;
    assert before * here == {};
    OperandsCount(n, trace[n].memOps, p);
  }

  // ---------- the summary of a trace ----------

  ghost function Loading(): (nat, MemOp) -> bool { (i: nat, op: MemOp) => op.base != "" && !op.isWrite }

  ghost function Storing(): (nat, MemOp) -> bool { (i: nat, op: MemOp) => op.base != "" && op.isWrite }

  /** No byte of the load was stored to by an earlier record. */
  ghost predicate Untouched(trace: Trace, i: nat, op: MemOp) {
    i <= |trace| && forall a: nat, j: nat :: j < i && Covers(op.addr, op.size, a) ==> !Stores(trace[j], a)
  }

  ghost function LoadingFirst(trace: Trace): (nat, MemOp) -> bool {
    (i: nat, op: MemOp) => op.base != "" && !op.isWrite && Untouched(trace, i, op)
  }

  ghost function Calling(trace: Trace): nat -> bool { (i: nat) => i < |trace| && trace[i].isCall }

  ghost function Returning(trace: Trace): nat -> bool {
    (i: nat) => i < |trace| && trace[i].isRet && !trace[i].isCall
  }

  ghost function Deciding(trace: Trace): nat -> bool {
    (i: nat) => i < |trace| && trace[i].isCond && !trace[i].isCall && !trace[i].isRet
  }

  lemma UntouchedIs(trace: Trace, i: nat, op: MemOp)
    requires i <= |trace| && op.base != "" && !op.isWrite
    ensures AnalysisIndex.IsInitLoad(trace, i, op) <==> Untouched(trace, i, op)
  {
    hide Stores, Covers;
    forall a: nat ensures LastWriter(trace, i, a) == None <==> forall j: nat :: j < i ==> !Stores(trace[j], a) {
      NoWriter(trace, i, a);
    }
    hide LastWriter;
    forall a ensures LoadsFrom(op, a) <==> Covers(op.addr, op.size, a) {}
  }

  lemma {:induction false} NoWriter(trace: Trace, i: nat, a: nat)
    requires i <= |trace|
    ensures LastWriter(trace, i, a) == None <==> forall j: nat :: j < i ==> !Stores(trace[j], a)
  {
    hide Stores;
    if i > 0 { NoWriter(trace, i - 1, a); }
  }

  lemma {:induction false} OpsAre(trace: Trace, i: nat, k: nat)
    requires i < |trace| && k <= |trace[i].memOps|
    ensures var c, ops := AnalysisIndex.CountOps(trace, i, k), trace[i].memOps[..k];
      && c.loads == CountOperands(i, ops, Loading()) && c.stores == CountOperands(i, ops, Storing())
      && c.initLoads == CountOperands(i, ops, LoadingFirst(trace))
  {
    if k > 0 {
      var ops := trace[i].memOps;
      OpsAre(trace, i, k - 1);
      assert ops[..k][..k - 1] == ops[..k - 1];
      if ops[k - 1].base != "" && !ops[k - 1].isWrite { UntouchedIs(trace, i, ops[k - 1]); }
      hide Untouched, LastWriter;
    }
  }

  /**
   * Of the first `n` records: loads and stores with a base, loads of bytes no earlier record stored, calls,
   * returns that are no calls, and conditional branches that are neither.
   */
  lemma {:induction false} SummaryCounts(trace: Trace, n: nat)
    requires n <= |trace|
    ensures var s := AnalysisIndex.RecordCounts(trace, n);
      && s.memReads == |Operands(trace, n, Loading())| && s.memWrites == |Operands(trace, n, Storing())|
      && s.initMemLoads == |Operands(trace, n, LoadingFirst(trace))|
      && s.calls == |Chosen(n, Calling(trace))| && s.rets == |Chosen(n, Returning(trace))|
      && s.conds == |Chosen(n, Deciding(trace))|
  {
    hide AnalysisIndex.CountOps, Operands, Chosen, CountOperands, Untouched;
    if n == 0 {
      NothingCounted(trace, Loading(), Calling(trace));
      NothingCounted(trace, Storing(), Returning(trace));
      NothingCounted(trace, LoadingFirst(trace), Deciding(trace));
    } else {
      var i := n - 1;
      SummaryCounts(trace, i);
      OpsAre(trace, i, |trace[i].memOps|);
      assert trace[i].memOps[..|trace[i].memOps|] == trace[i].memOps;
      OperandsStep(trace, i, Loading());
      OperandsStep(trace, i, Storing());
      OperandsStep(trace, i, LoadingFirst(trace));
      ChosenStep(i, Calling(trace));
      ChosenStep(i, Returning(trace));
      ChosenStep(i, Deciding(trace));
    }
  }

  lemma NothingCounted(trace: Trace, p: (nat, MemOp) -> bool, q: nat -> bool)
    ensures |Operands(trace, 0, p)| == 0 && |Chosen(0, q)| == 0
  {
    assert Operands(trace, 0, p) == {} && Chosen(0, q) == {};
  }

  ghost function OfKind(edges: seq<Edge>, kind: DepKind): set<nat> {
    set k: nat | k < |edges| && edges[k].kind == kind
  }

  lemma OfKindStep(edges: seq<Edge>, kind: DepKind)
    requires |edges| > 0
    ensures var front := edges[..|edges| - 1];
      OfKind(edges, kind) == OfKind(front, kind) + (if edges[|front|].kind == kind then {|front|} else {})
  {}

  /** Edges counted by kind. */
  lemma {:induction false} KindCounts(edges: seq<Edge>, kind: DepKind)
    ensures CountKind(edges, kind) == |OfKind(edges, kind)|
  {
    if |edges| > 0 {
      KindCounts(edges[..|edges| - 1], kind);
      OfKindStep(edges, kind);
    }
  }

  // ---------- the summary of one PC ----------

  ghost function At(trace: Trace, pc: nat, p: (nat, MemOp) -> bool): (nat, MemOp) -> bool {
    (i: nat, op: MemOp) => i < |trace| && trace[i].pc == pc && p(i, op)
  }

  ghost function RunsAt(trace: Trace, pc: nat, p: nat -> bool): nat -> bool {
    (i: nat) => i < |trace| && trace[i].pc == pc && p(i)
  }

  lemma {:induction false} OpsAt(trace: Trace, pc: nat, i: nat, ops: seq<MemOp>)
    requires i < |trace|
    ensures CountOperands(i, ops, At(trace, pc, Loading())) == if trace[i].pc == pc then Ops(ops, false) else 0
    ensures CountOperands(i, ops, At(trace, pc, Storing())) == if trace[i].pc == pc then Ops(ops, true) else 0
  {
    if |ops| > 0 { OpsAt(trace, pc, i, ops[..|ops| - 1]); }
  }

  /** A PC's counters count the same things among the records at the PC alone. */
  lemma {:induction false} PcCounts(trace: Trace, n: nat, pc: nat)
    requires n <= |trace|
    ensures SumAt(trace, pc, n, LOADS) == |Operands(trace, n, At(trace, pc, Loading()))|
    ensures SumAt(trace, pc, n, STORES) == |Operands(trace, n, At(trace, pc, Storing()))|
    ensures SumAt(trace, pc, n, CALLS) == |Chosen(n, RunsAt(trace, pc, Calling(trace)))|
    ensures SumAt(trace, pc, n, RETS) == |Chosen(n, RunsAt(trace, pc, Returning(trace)))|
    ensures SumAt(trace, pc, n, CONDS) == |Chosen(n, RunsAt(trace, pc, Deciding(trace)))|
  {
    hide Operands, Chosen, CountOperands, Ops;
    if n == 0 {
      NothingCounted(trace, At(trace, pc, Loading()), RunsAt(trace, pc, Calling(trace)));
      NothingCounted(trace, At(trace, pc, Storing()), RunsAt(trace, pc, Returning(trace)));
      NothingCounted(trace, At(trace, pc, Storing()), RunsAt(trace, pc, Deciding(trace)));
    } else {
      var i := n - 1;
      PcCounts(trace, i, pc);
      OpsAt(trace, pc, i, trace[i].memOps);
      OperandsStep(trace, i, At(trace, pc, Loading()));
      OperandsStep(trace, i, At(trace, pc, Storing()));
      ChosenStep(i, RunsAt(trace, pc, Calling(trace)));
      ChosenStep(i, RunsAt(trace, pc, Returning(trace)));
      ChosenStep(i, RunsAt(trace, pc, Deciding(trace)));
    }
  }
}
