module MemShadowBuild {
  import opened Wrappers
  import opened TraceModel
  import opened Postings
  import opened Chunks
  import opened ByteHistory
  import opened ShadowSpec

  method SplatByteSlice(m0: map<nat, History>, addr: nat, raw: seq<nat>, i: nat, kind: EventKind)
      returns (m: map<nat, History>)
    ensures m == PushAll(m0, ByteEntries(addr, raw, i, kind))
  {
    m := m0;
    ghost var entries := ByteEntries(addr, raw, i, kind);
    for o := 0 to |raw|
      invariant m == PushAll(m0, entries[..o])
    {
      assert entries[..o + 1][..o] == entries[..o];
      m := Push(m, WrappingAdd(addr, o), ByteEvent(i, raw[o], kind));
    }
    assert entries[..|raw|] == entries;
  }

  method AddMemOps(x: Shadow, i: nat, ops: seq<MemOp>) returns (mem: Shadow)
    ensures mem == AddOps(x, i, ops)
  {
    mem := x;
    for k := 0 to |ops|
      invariant mem == AddOps(x, i, ops[..k])
    {
      hide PushAll, ByteEntries, LowWord;
      var op := ops[k];
      assert ops[..k + 1][..k] == ops[..k];
      if op.base == "" { continue; }
      if op.isWrite {
        if op.raw.Some? {
          var access := Access(i, op.addr, op.size, LowWord(op.raw.value));
          var bytes := SplatByteSlice(mem.bytes, op.addr, op.raw.value, i, Write);
          mem := mem.(stores := mem.stores + [access], bytes := bytes);
        }
      } else if op.raw.Some? {
        var access := Access(i, op.addr, op.size, LowWord(op.raw.value));
        var bytes := SplatByteSlice(mem.bytes, op.addr, op.raw.value, i, Read);
        mem := mem.(loads := mem.loads + [access], bytes := bytes);
      }
    }
    assert ops[..|ops|] == ops;
  }

  lemma RangeStep(trace: Trace, start: nat, i: nat)
    requires start <= i < |trace|
    ensures Range(trace, start, i + 1) == AddOps(Range(trace, start, i), i, trace[i].memOps)
    ensures Range(trace, start, start) == EMPTY
  {}

  method BuildRange(trace: Trace, start: nat, end: nat) returns (mem: Shadow)
    requires start <= end <= |trace|
    ensures mem == Range(trace, start, end)
  {
    mem := EMPTY;
    assert Range(trace, start, start) == EMPTY;
    hide Range, AddOps;
    for i := start to end
      invariant mem == Range(trace, start, i)
    {
      RangeStep(trace, start, i);
      mem := AddMemOps(mem, i, trace[i].memOps);
    }
  }

  method MergePartials(partials: seq<Shadow>) returns (out: Shadow)
    ensures out == MergeAll(partials)
  {
    out := EMPTY;
    for k := 0 to |partials|
      invariant out == MergeAll(partials[..k])
    {
      hide Append;
      assert partials[..k + 1][..k] == partials[..k];
      var part := partials[k];
      var bytes := AppendInto(out.bytes, part.bytes);
      out := Shadow(out.stores + part.stores, out.loads + part.loads, bytes);
    }
    assert partials[..|partials|] == partials;
  }

  /** The shadows of the first `worker` chunks merge to the shadow of the records they cover. */
  ghost predicate Progress(trace: Trace, size: nat, worker: nat, partials: seq<Shadow>) {
    var covered := Covered(worker, size, |trace|);
    covered <= |trace| && MergeAll(partials) == Range(trace, 0, covered)
  }

  lemma ProgressStarts(trace: Trace, size: nat)
    ensures Progress(trace, size, 0, [])
  {}

  lemma {:induction false} ProgressSteps(trace: Trace, size: nat, worker: nat, partials: seq<Shadow>)
    requires Progress(trace, size, worker, partials)
    ensures var start, end := ChunkStart(worker, size), ChunkEnd(worker, size, |trace|);
      && end <= |trace|
      &&
      if start >= end then Progress(trace, size, worker + 1, partials)
      else Progress(trace, size, worker + 1, partials + [Range(trace, start, end)])
  {
    var start, end := ChunkStart(worker, size), ChunkEnd(worker, size, |trace|);
    ChunkFollows(worker, size, |trace|);
    hide Range, Merge, Covered;
    if start < end {
      ShadowsMerge(trace, 0, start, end);
      assert (partials + [Range(trace, start, end)])[..|partials|] == partials;
    }
  }

  lemma {:induction false} ProgressEnds(trace: Trace, workers: nat, partials: seq<Shadow>)
    requires workers > 0 && Progress(trace, DivCeil(|trace|, workers), workers, partials)
    ensures MergeAll(partials) == Range(trace, 0, |trace|)
  {}

  /** Whatever the number of workers, the merged chunks are the shadow of the whole trace. */
  method Build(trace: Trace, workers: nat) returns (mem: Shadow)
    ensures mem == Range(trace, 0, |trace|)
  {
    var n := |trace|;
    if workers <= 1 {
      mem := BuildRange(trace, 0, n);
      return;
    }
    var chunkSize := DivCeil(n, workers);
    var partials: seq<Shadow> := [];
    ProgressStarts(trace, chunkSize);
    hide Range, MergeAll, Progress, ChunkStart, ChunkEnd, DivCeil;
    for worker := 0 to workers
      invariant Progress(trace, chunkSize, worker, partials)
    {
      ProgressSteps(trace, chunkSize, worker, partials);
      var start := ChunkStart(worker, chunkSize);
      var end := ChunkEnd(worker, chunkSize, n);
      if start >= end { continue; }
      var part := BuildRange(trace, start, end);
      partials := partials + [part];
    }
    ProgressEnds(trace, workers, partials);
    mem := MergePartials(partials);
  }
}
