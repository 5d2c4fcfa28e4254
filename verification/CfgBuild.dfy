module CfgBuild {
  import opened Wrappers
  import opened TraceModel
  import opened Chunks
  import opened EdgeCounts
  import opened CfgSpec
  import CfgEdges

  /** The bits of a branch flag byte. */
  datatype Flags = Flags(branch: bool, call: bool, ret: bool)

  const NO_FLAGS: Flags := Flags(false, false, false)

  function FlagsOf(rec: Rec): Flags {
    if rec.isBranch then Flags(true, rec.isCall, rec.isRet) else NO_FLAGS
  }

  /** Branch records of [start, end) by index. */
  ghost predicate MnemonicsOf(trace: Trace, start: nat, end: nat, mnemonics: map<nat, string>) {
    && (forall i :: i in mnemonics <==> start <= i < end && i < |trace| && trace[i].isBranch)
    && (forall i :: i in mnemonics && i < |trace| ==> mnemonics[i] == trace[i].mnemonic)
  }

  datatype BranchScanChunk = BranchScanChunk(start: nat, flags: seq<Flags>, mnemonics: map<nat, string>)

  ghost predicate Scanned(trace: Trace, start: nat, end: nat, chunk: BranchScanChunk) {
    && chunk.start == start <= end <= |trace| && |chunk.flags| == end - start
    && (forall k :: 0 <= k < end - start ==> chunk.flags[k] == FlagsOf(trace[start + k]))
    && MnemonicsOf(trace, start, end, chunk.mnemonics)
  }

  method ScanBranchRange(trace: Trace, start: nat, end: nat) returns (chunk: BranchScanChunk)
    requires start <= end <= |trace|
    ensures Scanned(trace, start, end, chunk)
  {
    var flags := new Flags[end - start](_ => NO_FLAGS);
    var mnemonics: map<nat, string> := map[];
    for i := start to end
      invariant forall k :: 0 <= k < end - start ==>
        flags[k] == if start + k < i then FlagsOf(trace[start + k]) else NO_FLAGS
      invariant MnemonicsOf(trace, start, i, mnemonics)
    {
      var rec := trace[i];
      if !rec.isBranch { continue; }
      flags[i - start] := Flags(true, rec.isCall, rec.isRet);
      mnemonics := mnemonics[i := rec.mnemonic];
    }
    chunk := BranchScanChunk(start, flags[..], mnemonics);
  }

  /** Whatever the number of workers, the flags and mnemonics are those of the whole trace. */
  method ScanBranchInfo(trace: Trace, workers: nat) returns (flags: seq<Flags>, mnemonics: map<nat, string>)
    ensures |flags| == |trace| && forall i :: 0 <= i < |trace| ==> flags[i] == FlagsOf(trace[i])
    ensures MnemonicsOf(trace, 0, |trace|, mnemonics)
  {
    var n := |trace|;
    if workers <= 1 {
      var chunk := ScanBranchRange(trace, 0, n);
      return chunk.flags, chunk.mnemonics;
    }
    var chunkSize := DivCeil(n, workers);
    var partials: seq<BranchScanChunk> := [];
    ghost var covered := 0;
    hide ChunkStart, ChunkEnd, DivCeil, Scanned;
    assert Covered(0, chunkSize, n) == 0;
    hide Covered;
    for worker := 0 to workers
      invariant covered == Covered(worker, chunkSize, n) && Contiguous(trace, partials, covered)
    {
      ChunkFollows(worker, chunkSize, n);
      var start := ChunkStart(worker, chunkSize);
      var end := ChunkEnd(worker, chunkSize, n);
      if start >= end { continue; }
      var chunk := ScanBranchRange(trace, start, end);
      partials := partials + [chunk];
      ContiguousGrows(trace, partials, start, end);
      covered := end;
    }
    ChunksCoverAll(n, workers);
    flags, mnemonics := MergeScans(trace, partials);
  }

  /** The chunks, in order, hold the first `covered` records. */
  ghost predicate Contiguous(trace: Trace, partials: seq<BranchScanChunk>, covered: nat) {
    if |partials| == 0 then covered == 0
    else
      var last := partials[|partials| - 1];
      Scanned(trace, last.start, covered, last) && Contiguous(trace, partials[..|partials| - 1], last.start)
  }

  lemma ContiguousGrows(trace: Trace, partials: seq<BranchScanChunk>, start: nat, end: nat)
    requires |partials| > 0 && Contiguous(trace, partials[..|partials| - 1], start)
    requires Scanned(trace, start, end, partials[|partials| - 1])
    ensures Contiguous(trace, partials, end)
  {}

  /** Where chunk `k` starts, or all chunks end. */
  ghost function Begin(partials: seq<BranchScanChunk>, k: nat, covered: nat): nat
    requires k <= |partials|
  {
    if k < |partials| then partials[k].start else covered
  }

  lemma {:induction false} ChunkAt(trace: Trace, partials: seq<BranchScanChunk>, covered: nat, k: nat)
    requires Contiguous(trace, partials, covered) && k < |partials|
    ensures Begin(partials, 0, covered) == 0 && Begin(partials, k + 1, covered) <= covered
    ensures Scanned(trace, partials[k].start, Begin(partials, k + 1, covered), partials[k])
  {
    hide Scanned;
    var front, last := partials[..|partials| - 1], partials[|partials| - 1];
    assert last.start <= covered by { ScannedOrder(trace, last.start, covered, last); }
    if k < |front| {
      ChunkAt(trace, front, last.start, k);
    } else if |front| > 0 {
      ChunkAt(trace, front, last.start, 0);
    }
  }

  lemma ScannedOrder(trace: Trace, start: nat, end: nat, chunk: BranchScanChunk)
    requires Scanned(trace, start, end, chunk)
    ensures start <= end <= |trace|
  {}

  /** Writes a chunk's flags over the zeros at its place. */
  method PlaceFlags(trace: Trace, bits: array<Flags>, chunk: BranchScanChunk, ghost end: nat)
    requires bits.Length == |trace| && Scanned(trace, chunk.start, end, chunk)
    requires forall i :: 0 <= i < bits.Length ==> bits[i] == if i < chunk.start then FlagsOf(trace[i]) else NO_FLAGS
    modifies bits
    ensures forall i :: 0 <= i < bits.Length ==> bits[i] == if i < end then FlagsOf(trace[i]) else NO_FLAGS
  {
    for offset := 0 to |chunk.flags|
      invariant forall i :: 0 <= i < bits.Length ==>
        bits[i] == if i < chunk.start + offset then FlagsOf(trace[i]) else NO_FLAGS
    {
      if chunk.flags[offset] != NO_FLAGS { bits[chunk.start + offset] := chunk.flags[offset]; }
    }
  }

  method MergeScans(trace: Trace, partials: seq<BranchScanChunk>)
      returns (flags: seq<Flags>, mnemonics: map<nat, string>)
    requires Contiguous(trace, partials, |trace|)
    ensures |flags| == |trace| && forall i :: 0 <= i < |trace| ==> flags[i] == FlagsOf(trace[i])
    ensures MnemonicsOf(trace, 0, |trace|, mnemonics)
  {
    var n := |trace|;
    var bits := new Flags[n](_ => NO_FLAGS);
    mnemonics := map[];
    if |partials| > 0 { ChunkAt(trace, partials, n, 0); }
    for k := 0 to |partials|
      invariant Begin(partials, k, n) <= n
      invariant forall i :: 0 <= i < n ==> bits[i] == if i < Begin(partials, k, n) then FlagsOf(trace[i]) else NO_FLAGS
      invariant MnemonicsOf(trace, 0, Begin(partials, k, n), mnemonics)
    {
      ChunkAt(trace, partials, n, k);
      var chunk := partials[k];
      ghost var end := Begin(partials, k + 1, n);
      PlaceFlags(trace, bits, chunk, end);
      mnemonics := mnemonics + chunk.mnemonics;
    }
    flags := bits[..];
  }

  // ---------- the walk ----------

  /** The variables of the walk over the records. */
  datatype Walk = Walk(
    blockMeta: map<nat, nat>,
    edges: Edges,
    currentStart: Option<nat>,
    currentEnd: nat,
    prevPc: Option<nat>,
    prevWasBranch: bool,
    callStack: seq<nat>)

  const FRESH: Walk := Walk(map[], map[], None, 0, None, false, [])

  ghost function EnteredBy(trace: Trace, i: nat): nat -> bool { (k: nat) => Entered(trace, i, k) }

  /** As `EnteredBy(trace, i)` once record `i` has been assigned to its block. */
  ghost function EnteredUpTo(trace: Trace, i: nat): nat -> bool {
    (k: nat) => (k < i && Settled(trace, k)) || (k == i && !StartsAt(trace, i))
  }

  /** The variables after `i` records. */
  ghost predicate Walked(trace: Trace, i: nat, w: Walk) {
    && i <= |trace|
    && w.edges == AddAll(map[], Observed(trace, i)) && w.callStack == Stack(trace, i)
    && Peaks(trace, EnteredBy(trace, i), w.blockMeta)
    && w.currentStart == (if i > 0 && !trace[i - 1].isBranch then Some(Home(trace, i - 1)) else None)
    && (i > 0 ==> w.currentEnd == trace[i - 1].pc)
    && w.prevPc == (if i > 0 then Some(trace[i - 1].pc) else None)
    && w.prevWasBranch == (i > 0 && trace[i - 1].isBranch)
  }

  /** The variables once record `i` has been assigned to its block. */
  ghost predicate Assigned(trace: Trace, i: nat, w: Walk) {
    && i < |trace|
    && w.edges == AddAll(map[], Observed(trace, i) + FallSeen(trace, i)) && w.callStack == Stack(trace, i)
    && Peaks(trace, EnteredUpTo(trace, i), w.blockMeta)
    && w.currentStart == Some(Home(trace, i)) && w.currentEnd == trace[i].pc
  }

  lemma FreshWalk(trace: Trace)
    ensures Walked(trace, 0, FRESH)
  {}

  lemma {:induction false} AddOne(obs: seq<Seen>, seen: Seen)
    ensures AddAll(map[], obs + [seen]) == AddEdge(AddAll(map[], obs), seen)
  {}

  /** Closing the running block at a start enters its last record. */
  lemma {:induction false} ClosedAtStart(trace: Trace, i: nat, meta: map<nat, nat>)
    requires i < |trace| && StartsAt(trace, i) && Peaks(trace, EnteredBy(trace, i), meta)
    ensures if i > 0 && !trace[i - 1].isBranch
      then Peaks(trace, EnteredUpTo(trace, i), Raise(meta, Home(trace, i - 1), trace[i - 1].pc))
      else Peaks(trace, EnteredUpTo(trace, i), meta)
  {
    hide Peaks, StartsAt, Home;
    if i > 0 && !trace[i - 1].isBranch {
      RaisePeaks(trace, EnteredBy(trace, i), EnteredUpTo(trace, i), meta, i - 1);
    } else {
      PeaksSame(trace, EnteredBy(trace, i), EnteredUpTo(trace, i), meta);
    }
  }

  lemma {:induction false} Continued(trace: Trace, i: nat, meta: map<nat, nat>)
    requires i < |trace| && !StartsAt(trace, i) && Peaks(trace, EnteredBy(trace, i), meta)
    ensures Peaks(trace, EnteredUpTo(trace, i), Raise(meta, Home(trace, i), trace[i].pc))
  {
    if i > 0 { BranchEndsBlock(trace, i - 1); }
    hide Peaks, StartsAt, Home;
    RaisePeaks(trace, EnteredBy(trace, i), EnteredUpTo(trace, i), meta, i);
  }

  lemma {:induction false} Passed(trace: Trace, i: nat, meta: map<nat, nat>)
    requires i < |trace| && Peaks(trace, EnteredUpTo(trace, i), meta)
    ensures if trace[i].isBranch then Peaks(trace, EnteredBy(trace, i + 1), Raise(meta, Home(trace, i), trace[i].pc))
      else Peaks(trace, EnteredBy(trace, i + 1), meta)
  {
    if i + 1 < |trace| { BranchEndsBlock(trace, i); }
    hide Peaks, StartsAt, Home;
    if trace[i].isBranch {
      RaisePeaks(trace, EnteredUpTo(trace, i), EnteredBy(trace, i + 1), meta, i);
    } else {
      PeaksSame(trace, EnteredUpTo(trace, i), EnteredBy(trace, i + 1), meta);
    }
  }

  lemma {:induction false} Finished(trace: Trace, meta: map<nat, nat>)
    requires |trace| > 0 && Peaks(trace, EnteredBy(trace, |trace|), meta)
    ensures var last := |trace| - 1;
      if trace[last].isBranch then Peaks(trace, Settling(trace), meta)
      else Peaks(trace, Settling(trace), Raise(meta, Home(trace, last), trace[last].pc))
  {
    hide Peaks, StartsAt, Home;
    if trace[|trace| - 1].isBranch {
      PeaksSame(trace, EnteredBy(trace, |trace|), Settling(trace), meta);
    } else {
      RaisePeaks(trace, EnteredBy(trace, |trace|), Settling(trace), meta, |trace| - 1);
    }
  }

  /** Whether record `i` opens a block; if so the running one is closed, else it continues. */
  method AssignToBlock(trace: Trace, startPcs: set<nat>, i: nat, w0: Walk) returns (w: Walk)
    requires i < |trace| && forall pc: nat :: pc in startPcs <==> IsStart(trace, pc)
    requires Walked(trace, i, w0)
    ensures Assigned(trace, i, w)
  {
    hide Peaks, IsStart, Observed, AddAll, AddEdge;
    var pc := trace[i].pc;
    w := w0;
    if pc in startPcs {
      ClosedAtStart(trace, i, w.blockMeta);
      if w.prevPc.Some? && w.currentStart.Some? && !w.prevWasBranch && w.prevPc.value + 4 == pc {
        var seen := Seen((w.currentStart.value, pc), Fall);
        AddOne(Observed(trace, i), seen);
        w := w.(edges := AddEdge(w.edges, seen));
      }
      assert Observed(trace, i) + [] == Observed(trace, i);
      if w.currentStart.Some? {
        w := w.(blockMeta := Raise(w.blockMeta, w.currentStart.value, w.currentEnd));
      }
      w := w.(currentStart := Some(pc), currentEnd := pc);
    } else {
      assert i > 0 by { FirstStarts(trace); }
      BranchEndsBlock(trace, i - 1);
      Continued(trace, i, w.blockMeta);
      assert Observed(trace, i) + [] == Observed(trace, i);
      w := w.(currentEnd := pc);
      if w.currentStart.Some? {
        w := w.(blockMeta := Raise(w.blockMeta, w.currentStart.value, pc));
      }
    }
  }

  lemma FirstStarts(trace: Trace)
    ensures |trace| > 0 ==> StartsAt(trace, 0)
  {}

  method TakeBranch(trace: Trace, i: nat, flags: Flags, mnemonics: map<nat, string>, w0: Walk) returns (w: Walk)
    requires Assigned(trace, i, w0) && flags == FlagsOf(trace[i]) && MnemonicsOf(trace, 0, |trace|, mnemonics)
    ensures Walked(trace, i + 1, w.(prevPc := Some(trace[i].pc), prevWasBranch := flags.branch))
  {
    hide Peaks, StartsAt, AddAll, AddEdge, FallSeen, Home;
    var n, pc := |trace|, trace[i].pc;
    ghost var falls := Observed(trace, i) + FallSeen(trace, i);
    w := w0;
    Passed(trace, i, w.blockMeta);
    if flags.branch {
      var s := w.currentStart.value;
      if flags.call {
        w := w.(callStack := w.callStack + [s]);
      } else if flags.ret && |w.callStack| > 0 {
        var caller := w.callStack[|w.callStack| - 1];
        w := w.(callStack := w.callStack[..|w.callStack| - 1]);
        if i + 1 < n {
          var seen := Seen((caller, trace[i + 1].pc), CallReturn);
          AddOne(falls, seen);
          w := w.(edges := AddEdge(w.edges, seen));
        }
      }
      assert falls + [] == falls;
      assert w.edges == AddAll(map[], falls + ReturnSeen(trace, i));
      if i + 1 < n {
        var mnemonic := if i in mnemonics then mnemonics[i] else "b";
        var seen := Seen((s, trace[i + 1].pc), KindOf(mnemonic));
        AddOne(falls + ReturnSeen(trace, i), seen);
        w := w.(edges := AddEdge(w.edges, seen));
      }
      w := w.(blockMeta := Raise(w.blockMeta, s, pc), currentStart := None);
    }
    assert (falls + ReturnSeen(trace, i)) + [] == falls + ReturnSeen(trace, i) && falls + [] == falls;
  }

  // ---------- the graph ----------

  datatype Block = Block(startPc: nat, endPc: nat, executions: nat)

  datatype Cfg = Cfg(blocks: map<nat, Block>, edges: Edges)

  /** The nodes before and after the records below `n` have been counted. */
  ghost predicate IsNodes(trace: Trace, blocks: map<nat, Block>, n: nat)
    requires n <= |trace|
  {
    && (forall pc: nat :: pc in blocks <==> IsStart(trace, pc))
    && (forall pc :: pc in blocks ==>
          blocks[pc].startPc == pc && Peak(trace, Settling(trace), pc, blocks[pc].endPc)
          && blocks[pc].executions == RunsOf(trace, pc, n))
  }

  /** Nodes are exactly the block starts; edges are exactly what was observed. */
  ghost predicate IsCfg(trace: Trace, cfg: Cfg) {
    && IsNodes(trace, cfg.blocks, |trace|)
    && cfg.edges == AddAll(map[], Observed(trace, |trace|))
  }

  method CollectStarts(trace: Trace, flags: seq<Flags>) returns (startPcs: set<nat>)
    requires |trace| > 0 && |flags| == |trace| && forall i :: 0 <= i < |trace| ==> flags[i] == FlagsOf(trace[i])
    ensures forall pc: nat :: pc in startPcs <==> IsStart(trace, pc)
  {
    var n := |trace|;
    startPcs := {trace[0].pc};
    for i := 0 to n
      invariant forall pc: nat :: pc in startPcs <==>
        (pc == trace[0].pc || exists j: nat :: j < i && j + 1 < n && trace[j].isBranch && trace[j + 1].pc == pc)
    {
      if flags[i].branch && i + 1 < n { startPcs := startPcs + {trace[i + 1].pc}; }
    }
  }

  method WalkRecords(trace: Trace, flags: seq<Flags>, mnemonics: map<nat, string>, startPcs: set<nat>) returns (w: Walk)
    requires |flags| == |trace| && forall i :: 0 <= i < |trace| ==> flags[i] == FlagsOf(trace[i])
    requires MnemonicsOf(trace, 0, |trace|, mnemonics)
    requires |trace| > 0 && forall pc: nat :: pc in startPcs <==> IsStart(trace, pc)
    ensures w.edges == AddAll(map[], Observed(trace, |trace|)) && Peaks(trace, Settling(trace), w.blockMeta)
  {
    hide IsStart, Peaks, Observed, AddAll, Assigned, MnemonicsOf;
    w := FRESH;
    FreshWalk(trace);
    for i := 0 to |trace|
      invariant Walked(trace, i, w)
    {
      w := AssignToBlock(trace, startPcs, i, w);
      w := TakeBranch(trace, i, flags[i], mnemonics, w);
      w := w.(prevPc := Some(trace[i].pc), prevWasBranch := flags[i].branch);
    }
    Finished(trace, w.blockMeta);
    if w.currentStart.Some? {
      w := w.(blockMeta := Raise(w.blockMeta, w.currentStart.value, w.currentEnd));
    }
  }

  /** Blocks are made for all keys, in whatever order the map yields them. */
  method AddNodes(meta: map<nat, nat>) returns (blocks: map<nat, Block>)
    ensures blocks.Keys == meta.Keys && forall pc :: pc in blocks ==> blocks[pc] == Block(pc, meta[pc], 0)
  {
    blocks := map[];
    var rest := meta.Keys;
    while rest != {}
      invariant rest <= meta.Keys && blocks.Keys == meta.Keys - rest
      invariant forall pc :: pc in blocks ==> blocks[pc] == Block(pc, meta[pc], 0)
    {
      var pc :| pc in rest;
      rest := rest - {pc};
      blocks := blocks[pc := Block(pc, meta[pc], 0)];
    }
  }

  lemma NodesStart(trace: Trace, meta: map<nat, nat>, blocks: map<nat, Block>)
    requires Peaks(trace, Settling(trace), meta)
    requires blocks.Keys == meta.Keys && forall pc :: pc in blocks ==> blocks[pc] == Block(pc, meta[pc], 0)
    ensures IsNodes(trace, blocks, 0)
  {
    KeysAreStarts(trace, meta);
    hide IsStart, Peak, Home;
    forall pc: nat ensures pc in blocks <==> IsStart(trace, pc) { assert pc in blocks <==> pc in meta; }
  }

  lemma KeysAreStarts(trace: Trace, meta: map<nat, nat>)
    requires Peaks(trace, Settling(trace), meta)
    ensures forall pc: nat :: pc in meta <==> IsStart(trace, pc)
  {
    hide Home, IsStart;
    forall pc: nat ensures pc in meta <==> IsStart(trace, pc) {
      HomesAreStarts(trace, pc);
      if IsHome(trace, pc) {
        var k: nat :| k < |trace| && Home(trace, k) == pc;
        var j := EveryBlockSettles(trace, k);
      }
      if pc in meta { assert Peak(trace, Settling(trace), pc, meta[pc]); }
    }
  }

  /** An edge whose ends are not both nodes is skipped. */
  method AddEdges(blocks: map<nat, Block>, observed: Edges) returns (edges: Edges)
    ensures (forall e :: e in observed ==> e.0 in blocks && e.1 in blocks) ==> edges == observed
  {
    edges := map[];
    var rest := observed.Keys;
    while rest != {}
      invariant rest <= observed.Keys && edges.Keys <= observed.Keys - rest
      invariant (forall e :: e in observed ==> e.0 in blocks && e.1 in blocks) ==> edges.Keys == observed.Keys - rest
      invariant forall e :: e in edges ==> edges[e] == observed[e]
    {
      var e :| e in rest;
      rest := rest - {e};
      if e.0 in blocks && e.1 in blocks { edges := edges[e := observed[e]]; }
    }
  }

  lemma CountedIsSeen(obs: seq<Seen>, ends: Ends) returns (seen: Seen)
    requires CountOf(obs, ends) > 0
    ensures seen in obs && seen.ends == ends
  {
    if obs[|obs| - 1].ends == ends {
      seen := obs[|obs| - 1];
    } else {
      seen := CountedIsSeen(obs[..|obs| - 1], ends);
    }
  }

  lemma {:induction false} NoEdgeLacksANode(trace: Trace, blocks: map<nat, Block>, edges: Edges)
    requires IsNodes(trace, blocks, 0) && edges == AddAll(map[], Observed(trace, |trace|))
    ensures forall e :: e in edges ==> e.0 in blocks && e.1 in blocks
  {
    hide IsStart, Observed, AddAll;
    forall e | e in edges ensures e.0 in blocks && e.1 in blocks {
      EdgesCount(Observed(trace, |trace|), e);
      var seen := CountedIsSeen(Observed(trace, |trace|), e);
      EndsAreStarts(trace, |trace|, seen);
    }
  }

  method CountExecutions(trace: Trace, blocks0: map<nat, Block>) returns (blocks: map<nat, Block>)
    requires IsNodes(trace, blocks0, 0)
    ensures IsNodes(trace, blocks, |trace|)
  {
    hide IsStart, Peak;
    blocks := blocks0;
    for i := 0 to |trace|
      invariant IsNodes(trace, blocks, i)
    {
      var pc := trace[i].pc;
      if pc in blocks {
        blocks := blocks[pc := blocks[pc].(executions := blocks[pc].executions + 1)];
      }
    }
  }

  method BuildCfg(trace: Trace, workers: nat) returns (cfg: Cfg)
    ensures IsCfg(trace, cfg)
    ensures forall ends :: CfgEdges.IsEdge(trace, cfg.edges, ends)
  {
    CfgEdges.EdgesAreSeen(trace);
    if |trace| == 0 { return Cfg(map[], map[]); }
    hide IsStart, Peaks, Observed, AddAll, IsNodes, MnemonicsOf, CfgEdges.IsEdge;
    var flags, mnemonics := ScanBranchInfo(trace, workers);
    var startPcs := CollectStarts(trace, flags);
    var w := WalkRecords(trace, flags, mnemonics, startPcs);
    var blocks := AddNodes(w.blockMeta);
    NodesStart(trace, w.blockMeta, blocks);
    var edges := AddEdges(blocks, w.edges);
    NoEdgeLacksANode(trace, blocks, w.edges);
    blocks := CountExecutions(trace, blocks);
    cfg := Cfg(blocks, edges);
  }
}
