/** Why the length caps of the analysis file never refuse what a build produces. */
module BuiltAnalysis {
  import opened Wrappers
  import opened TraceModel
  import opened AnalysisSidecar
  import Bytes
  import Codecs
  import CallEvents
  import CallTreeSpec
  import FunctionSummaries
  import PcSummaries

  lemma {:induction false} NoMoreEventsThanRecords(classes: CallEvents.Classes, n: nat)
    requires n <= |classes|
    ensures |CallEvents.Sequential(classes, n)| <= n
  {
    if n > 0 { NoMoreEventsThanRecords(classes, n - 1); }
  }

  /** The analysis of a trace: one row offset per record and one more, a summary per PC and one per function. */
  ghost predicate BuiltFrom(trace: Trace, env: CallTreeSpec.Env, v: Analysis, pcs: map<nat, PcSummaries.PcAccum>) {
    && |v.rowOffsets| == |trace| + 1
    && PcSummaries.IsTally(trace, |trace|, pcs) && |v.pcs| == |pcs.Keys|
    && |v.functions| == |FunctionSummaries.NoteAll(map[],
         FunctionSummaries.Nodes(CallTreeSpec.CallTree(env, 50,
           CallEvents.Sequential(CallEvents.ByFirst(trace), |trace|)))).Keys|
  }

  /** What a build saves loads again, whatever the trace; only texts or a call tree beyond their limits are refused. */
  lemma BuiltAnalysisLoads(utf8: Codecs.Utf8, trace: Trace, env: CallTreeSpec.Env, v: Analysis,
      pcs: map<nat, PcSummaries.PcAccum>, s: Stamp, t: Stamp)
    requires utf8.Faithful() && s.Fits() && AnalysisFits(v) && |FileOf(utf8, v, s)| < Bytes.Pow256(8)
    requires BuiltFrom(trace, env, v, pcs)
    ensures Loaded(utf8, FileOf(utf8, v, s), t) == if s == t && Moderate(utf8, v) then Some(v) else None
  {
    var events := CallEvents.Sequential(CallEvents.ByFirst(trace), |trace|);
    NoMoreEventsThanRecords(CallEvents.ByFirst(trace), |trace|);
    FunctionSummaries.NoMoreFunctionsThanCalls(env, 50, events);
    hide AnalysisFits, Moderate, Loaded, FileOf, WithinCaps, Bytes.Pow256;
    RowOffsetsMakeUp(utf8, v, s, |trace|);
    SavedLoadsIff(utf8, v, s, t);
  }
}
