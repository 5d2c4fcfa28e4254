module IndexBuild {
  import opened Wrappers
  import opened TraceModel
  import opened Postings
  import opened Chunks
  import opened IndexSpec

  method PushRegs(m0: map<string, seq<nat>>, regs: seq<string>, i: nat) returns (m: map<string, seq<nat>>)
    ensures m == PushAll(m0, RegEntries(regs, i))
  {
    m := m0;
    ghost var entries := RegEntries(regs, i);
    for k := 0 to |regs|
      invariant m == PushAll(m0, entries[..k])
    {
      assert entries[..k + 1][..k] == entries[..k];
      m := Push(m, regs[k], i);
    }
    assert entries[..|regs|] == entries;
  }

  method PushMemAddrIdx(m0: map<nat, seq<nat>>, addr: nat, size: nat, i: nat) returns (m: map<nat, seq<nat>>)
    ensures m == PushAll(m0, AddrEntries(addr, size, i))
  {
    m := m0;
    ghost var entries := AddrEntries(addr, size, i);
    for k := 0 to size
      invariant m == PushAll(m0, entries[..k])
    {
      assert entries[..k + 1][..k] == entries[..k];
      m := Push(m, SaturatingAdd(addr, k), i);
    }
    assert entries[..size] == entries;
  }

  method AddFlowAndRegs(x: Index, i: nat, rec: Rec) returns (idx: Index)
    ensures idx == AddRegs(x, i, rec)
  {
    hide PushAll, RegEntries;
    idx := x.(pcToIdxs := Push(x.pcToIdxs, rec.pc, i));
    if rec.isCond { idx := idx.(condBranches := idx.condBranches + [i]); }
    if rec.isCall || rec.isRet { idx := idx.(callRetBoundaries := idx.callRetBoundaries + [i]); }
    var defs := PushRegs(idx.regDefs, rec.regsDef, i);
    var uses := PushRegs(idx.regUses, rec.regsUse, i);
    idx := idx.(regDefs := defs, regUses := uses);
    assert x.condBranches + [] == x.condBranches && x.callRetBoundaries + [] == x.callRetBoundaries;
  }

  method AddMemOps(x: Index, i: nat, ops: seq<MemOp>) returns (idx: Index)
    ensures idx == AddOps(x, i, ops)
  {
    idx := x;
    for k := 0 to |ops|
      invariant idx == AddOps(x, i, ops[..k])
    {
      hide PushAll, AddrEntries;
      var op := ops[k];
      assert ops[..k + 1][..k] == ops[..k];
      if op.base == "" { continue; }
      var mr := MemRec(i, op.addr, op.size, None);
      if op.isWrite {
        var touched := PushMemAddrIdx(idx.memAddrToWrites, op.addr, op.size, i);
        idx := idx.(memWrites := idx.memWrites + [mr], memAddrToWrites := touched);
      } else {
        var touched := PushMemAddrIdx(idx.memAddrToReads, op.addr, op.size, i);
        idx := idx.(memReads := idx.memReads + [mr], memAddrToReads := touched);
      }
    }
    assert ops[..|ops|] == ops;
  }

  lemma RangeStep(trace: Trace, start: nat, i: nat)
    requires start <= i < |trace|
    ensures Range(trace, start, i + 1) == AddOps(AddRegs(Range(trace, start, i), i, trace[i]), i, trace[i].memOps)
  {}

  method BuildRange(trace: Trace, start: nat, end: nat) returns (idx: Index)
    requires start <= end <= |trace|
    ensures idx == Range(trace, start, end)
  {
    idx := EMPTY;
    RangeEmpty(trace, start);
    hide Range, AddRegs, AddOps;
    for i := start to end
      invariant idx == Range(trace, start, i)
    {
      var rec := trace[i];
      RangeStep(trace, start, i);
      idx := AddFlowAndRegs(idx, i, rec);
      idx := AddMemOps(idx, i, rec.memOps);
    }
  }

  method MergePartials(partials: seq<Index>) returns (out: Index)
    ensures out == MergeAll(partials)
  {
    out := EMPTY;
    for k := 0 to |partials|
      invariant out == MergeAll(partials[..k])
    {
      hide Append;
      assert partials[..k + 1][..k] == partials[..k];
      var part := partials[k];
      var regDefs := AppendInto(out.regDefs, part.regDefs);
      var regUses := AppendInto(out.regUses, part.regUses);
      var pcToIdxs := AppendInto(out.pcToIdxs, part.pcToIdxs);
      var addrWrites := AppendInto(out.memAddrToWrites, part.memAddrToWrites);
      var addrReads := AppendInto(out.memAddrToReads, part.memAddrToReads);
      out := Index(regDefs, regUses, out.memWrites + part.memWrites, out.memReads + part.memReads,
                   pcToIdxs, addrWrites, addrReads,
                   out.condBranches + part.condBranches, out.callRetBoundaries + part.callRetBoundaries);
    }
    assert partials[..|partials|] == partials;
  }

  /** The chunks of the first `worker` workers merge to the index of the records they cover. */
  ghost predicate Progress(trace: Trace, size: nat, worker: nat, partials: seq<Index>) {
    var covered := Covered(worker, size, |trace|);
    covered <= |trace| && MergeAll(partials) == Range(trace, 0, covered)
  }

  lemma ProgressStarts(trace: Trace, size: nat)
    ensures Progress(trace, size, 0, [])
  {}

  lemma {:induction false} ProgressSteps(trace: Trace, size: nat, worker: nat, partials: seq<Index>)
    requires Progress(trace, size, worker, partials)
    ensures var start, end := ChunkStart(worker, size), ChunkEnd(worker, size, |trace|);
      && end <= |trace|
      &&
      if start >= end then Progress(trace, size, worker + 1, partials)
      else Progress(trace, size, worker + 1, partials + [Range(trace, start, end)])
  {
    var n := |trace|;
    var start, end := ChunkStart(worker, size), ChunkEnd(worker, size, n);
    ChunkFollows(worker, size, n);
    hide Range, Merge, Covered;
    if start < end {
      RangesMerge(trace, 0, start, end);
      assert (partials + [Range(trace, start, end)])[..|partials|] == partials;
    }
  }

  lemma {:induction false} ProgressEnds(trace: Trace, workers: nat, partials: seq<Index>)
    requires workers > 0 && Progress(trace, DivCeil(|trace|, workers), workers, partials)
    ensures MergeAll(partials) == Range(trace, 0, |trace|)
  {
    ChunksCoverAll(|trace|, workers);
  }

  /** Whatever the number of workers, the merged chunks are the index of the whole trace. */
  method Build(trace: Trace, workers: nat) returns (idx: Index)
    ensures idx == Range(trace, 0, |trace|)
  {
    var n := |trace|;
    if workers <= 1 {
      idx := BuildRange(trace, 0, n);
      return;
    }
    var chunkSize := DivCeil(n, workers);
    var partials: seq<Index> := [];
    ProgressStarts(trace, chunkSize);
    hide Range, MergeAll, Progress, ChunkStart, ChunkEnd, DivCeil;
    for worker := 0 to workers
      invariant Progress(trace, chunkSize, worker, partials)
    {
      ProgressSteps(trace, chunkSize, worker, partials);
      var start := ChunkStart(worker, chunkSize);
      var end := ChunkEnd(worker, chunkSize, n);
      if start >= end { continue; }
      var part := BuildRange(trace, start, end);
      partials := partials + [part];
    }
    ProgressEnds(trace, workers, partials);
    idx := MergePartials(partials);
  }
}
