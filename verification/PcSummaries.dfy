/** Per-PC totals gathered in one pass. */
module PcSummaries {
  import opened TraceModel
  import CfgSpec
  import IndexSpec
  import Postings

  datatype PcAccum = PcAccum(recordCount: nat, firstIdx: nat, lastIdx: nat, memReads: nat, memWrites: nat, calls: nat,
    rets: nat, conds: nat)

  function Ops(ops: seq<MemOp>, write: bool): nat {
    if |ops| == 0 then 0
    else
      var op := ops[|ops| - 1];
      Ops(ops[..|ops| - 1], write) + (if op.base != "" && op.isWrite == write then 1 else 0)
  }

  /** The sum of `f` over the first `n` records at `pc`. */
  ghost function SumAt(trace: Trace, pc: nat, n: nat, f: Rec -> nat): nat
    requires n <= |trace|
  {
    if n == 0 then 0 else SumAt(trace, pc, n - 1, f) + (if trace[n - 1].pc == pc then f(trace[n - 1]) else 0)
  }

  function One(b: bool): nat { if b then 1 else 0 }

  const LOADS: Rec -> nat := (r: Rec) => Ops(r.memOps, false)

  const STORES: Rec -> nat := (r: Rec) => Ops(r.memOps, true)

  const CALLS: Rec -> nat := (r: Rec) => One(r.isCall)

  const RETS: Rec -> nat := (r: Rec) => One(!r.isCall && r.isRet)

  const CONDS: Rec -> nat := (r: Rec) => One(!r.isCall && !r.isRet && r.isCond)

  /** The accumulator of one PC after `n` records: its first and last record, and its counts. */
  ghost predicate IsAccum(trace: Trace, n: nat, pc: nat, a: PcAccum)
    requires n <= |trace|
  {
    && a.firstIdx <= a.lastIdx < n && trace[a.firstIdx].pc == pc && trace[a.lastIdx].pc == pc
    && (forall i :: 0 <= i < n && trace[i].pc == pc ==> a.firstIdx <= i <= a.lastIdx)
    && a.recordCount == CfgSpec.RunsOf(trace, pc, n)
    && a.memReads == SumAt(trace, pc, n, LOADS) && a.memWrites == SumAt(trace, pc, n, STORES)
    && a.calls == SumAt(trace, pc, n, CALLS) && a.rets == SumAt(trace, pc, n, RETS)
      && a.conds == SumAt(trace, pc, n, CONDS)
  }

  ghost predicate AllAccums(trace: Trace, n: nat, accums: map<nat, PcAccum>)
    requires n <= |trace|
  {
    forall pc :: pc in accums ==> IsAccum(trace, n, pc, accums[pc])
  }

  /** Every PC run so far has an accumulator, and there are no more of them than records. */
  ghost predicate CoversPcs(trace: Trace, n: nat, accums: map<nat, PcAccum>)
    requires n <= |trace|
  {
    (forall i :: 0 <= i < n ==> trace[i].pc in accums) && |accums.Keys| <= n
  }

  ghost predicate IsTally(trace: Trace, n: nat, accums: map<nat, PcAccum>)
    requires n <= |trace|
  {
    AllAccums(trace, n, accums) && CoversPcs(trace, n, accums)
  }

  function Add(a: PcAccum, i: nat, rec: Rec): PcAccum {
    PcAccum(a.recordCount + 1, a.firstIdx, i, a.memReads + LOADS(rec), a.memWrites + STORES(rec),
            a.calls + CALLS(rec), a.rets + RETS(rec), a.conds + CONDS(rec))
  }

  lemma {:induction false} NoRuns(trace: Trace, pc: nat, n: nat, f: Rec -> nat)
    requires n <= |trace| && forall i :: 0 <= i < n ==> trace[i].pc != pc
    ensures SumAt(trace, pc, n, f) == 0 && CfgSpec.RunsOf(trace, pc, n) == 0
  {
    if n > 0 { NoRuns(trace, pc, n - 1, f); }
  }

  lemma NewPc(trace: Trace, i: nat)
    requires i < |trace| && forall j :: 0 <= j < i ==> trace[j].pc != trace[i].pc
    ensures IsAccum(trace, i + 1, trace[i].pc, Add(PcAccum(0, i, i, 0, 0, 0, 0, 0), i, trace[i]))
  {
    var pc := trace[i].pc;
    NoRuns(trace, pc, i, LOADS);
    NoRuns(trace, pc, i, STORES);
    NoRuns(trace, pc, i, CALLS);
    NoRuns(trace, pc, i, RETS);
    NoRuns(trace, pc, i, CONDS);
    hide Ops;
  }

  lemma OldPc(trace: Trace, i: nat, pc: nat, a: PcAccum)
    requires i < |trace| && IsAccum(trace, i, pc, a)
    ensures IsAccum(trace, i + 1, pc, if trace[i].pc == pc then Add(a, i, trace[i]) else a)
  {}

  function AddRecord(accums: map<nat, PcAccum>, i: nat, rec: Rec): map<nat, PcAccum> {
    accums[rec.pc := Add(if rec.pc in accums then accums[rec.pc] else PcAccum(0, i, i, 0, 0, 0, 0, 0), i, rec)]
  }

  lemma AccumAfter(trace: Trace, i: nat, accums: map<nat, PcAccum>, pc: nat)
    requires i < |trace| && IsTally(trace, i, accums) && pc in AddRecord(accums, i, trace[i])
    ensures IsAccum(trace, i + 1, pc, AddRecord(accums, i, trace[i])[pc])
  {
    hide IsAccum, Add;
    if pc in accums { OldPc(trace, i, pc, accums[pc]); } else { NewPc(trace, i); }
  }

  lemma AccumsAfter(trace: Trace, i: nat, accums: map<nat, PcAccum>)
    requires i < |trace| && IsTally(trace, i, accums)
    ensures AllAccums(trace, i + 1, AddRecord(accums, i, trace[i]))
  {
    hide IsAccum, AddRecord, IsTally;
    forall pc | pc in AddRecord(accums, i, trace[i])
      ensures IsAccum(trace, i + 1, pc, AddRecord(accums, i, trace[i])[pc]) {
      AccumAfter(trace, i, accums, pc);
    }
  }

  lemma CoversAfter(trace: Trace, i: nat, accums: map<nat, PcAccum>)
    requires i < |trace| && CoversPcs(trace, i, accums)
    ensures CoversPcs(trace, i + 1, AddRecord(accums, i, trace[i]))
  {}

  lemma TallyAfter(trace: Trace, i: nat, accums: map<nat, PcAccum>)
    requires i < |trace| && IsTally(trace, i, accums)
    ensures IsTally(trace, i + 1, AddRecord(accums, i, trace[i]))
  {
    AccumsAfter(trace, i, accums);
    CoversAfter(trace, i, accums);
    hide AllAccums, CoversPcs, AddRecord;
  }

  method TallyPcs(trace: Trace) returns (accums: map<nat, PcAccum>)
    ensures IsTally(trace, |trace|, accums)
  {
    accums := map[];
    hide IsAccum, Add;
    assert IsTally(trace, 0, accums);
    hide IsTally;
    for i := 0 to |trace|
      invariant IsTally(trace, i, accums)
    {
      TallyAfter(trace, i, accums);
      var rec := trace[i];
      var accum := if rec.pc in accums then accums[rec.pc] else PcAccum(0, i, i, 0, 0, 0, 0, 0);
      accums := accums[rec.pc := Add(accum, i, rec)];
    }
  }

  /** A PC's record count is the length of its list in the index. */
  lemma {:induction false} CountIsListLength(trace: Trace, accums: map<nat, PcAccum>, pc: nat)
    requires IsTally(trace, |trace|, accums) && pc in accums
    ensures accums[pc].recordCount == |Postings.Get(IndexSpec.Range(trace, 0, |trace|).pcToIdxs, pc)|
  {
    CfgSpec.RunsAreIndexed(trace, pc, |trace|);
    hide CfgSpec.RunsOf, IndexSpec.Range, SumAt;
    assert IsAccum(trace, |trace|, pc, accums[pc]);
  }
}
