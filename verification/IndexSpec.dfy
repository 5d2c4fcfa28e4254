/** The inverted index as one value per record range, and its two ways of being built. */
module IndexSpec {
  import opened Wrappers
  import opened TraceModel
  import opened Postings

  datatype MemRec = MemRec(idx: nat, addr: nat, size: nat, value: Option<nat>)

  datatype Index = Index(
    regDefs: map<string, seq<nat>>,
    regUses: map<string, seq<nat>>,
    memWrites: seq<MemRec>,
    memReads: seq<MemRec>,
    pcToIdxs: map<nat, seq<nat>>,
    memAddrToWrites: map<nat, seq<nat>>,
    memAddrToReads: map<nat, seq<nat>>,
    condBranches: seq<nat>,
    callRetBoundaries: seq<nat>)

  const EMPTY: Index := Index(map[], map[], [], [], map[], map[], map[], [], [])

  function RegEntries(regs: seq<string>, i: nat): (entries: seq<(string, nat)>)
    ensures |entries| == |regs|
  {
    seq(|regs|, k requires 0 <= k < |regs| => (regs[k], i))
  }

  /** Every byte address the operand touches; the last address repeats if the range runs off the end. */
  function AddrEntries(addr: nat, size: nat, i: nat): (entries: seq<(nat, nat)>)
    ensures |entries| == size
  {
    seq(size, k requires 0 <= k < size => (SaturatingAdd(addr, k), i))
  }

  function AddOp(x: Index, i: nat, op: MemOp): Index {
    if op.base == "" then x
    else if op.isWrite then
      x.(memWrites := x.memWrites + [MemRec(i, op.addr, op.size, None)],
         memAddrToWrites := PushAll(x.memAddrToWrites, AddrEntries(op.addr, op.size, i)))
    else
      x.(memReads := x.memReads + [MemRec(i, op.addr, op.size, None)],
         memAddrToReads := PushAll(x.memAddrToReads, AddrEntries(op.addr, op.size, i)))
  }

  function AddOps(x: Index, i: nat, ops: seq<MemOp>): Index {
    if |ops| == 0 then x else AddOp(AddOps(x, i, ops[..|ops| - 1]), i, ops[|ops| - 1])
  }

  /** The control-flow and register part of one record. */
  function AddRegs(x: Index, i: nat, rec: Rec): Index {
    x.(pcToIdxs := Push(x.pcToIdxs, rec.pc, i),
       condBranches := x.condBranches + (if rec.isCond then [i] else []),
       callRetBoundaries := x.callRetBoundaries + (if rec.isCall || rec.isRet then [i] else []),
       regDefs := PushAll(x.regDefs, RegEntries(rec.regsDef, i)),
       regUses := PushAll(x.regUses, RegEntries(rec.regsUse, i)))
  }

  function AddRec(x: Index, i: nat, rec: Rec): Index { AddOps(AddRegs(x, i, rec), i, rec.memOps) }

  /** The index of records [start, end), built from nothing. */
  function Range(trace: Trace, start: nat, end: nat): Index
    requires start <= end <= |trace|
    decreases end
  {
    if start == end then EMPTY else AddRec(Range(trace, start, end - 1), end - 1, trace[end - 1])
  }

  function Merge(a: Index, b: Index): Index {
    Index(Append(a.regDefs, b.regDefs), Append(a.regUses, b.regUses),
          a.memWrites + b.memWrites, a.memReads + b.memReads,
          Append(a.pcToIdxs, b.pcToIdxs),
          Append(a.memAddrToWrites, b.memAddrToWrites), Append(a.memAddrToReads, b.memAddrToReads),
          a.condBranches + b.condBranches, a.callRetBoundaries + b.callRetBoundaries)
  }

  function MergeAll(parts: seq<Index>): Index {
    if |parts| == 0 then EMPTY else Merge(MergeAll(parts[..|parts| - 1]), parts[|parts| - 1])
  }

  // ---------- merging adjacent ranges ----------

  lemma MergeNothing(a: Index)
    ensures Merge(a, EMPTY) == a && Merge(EMPTY, a) == a
  {
    AppendNothing(a.regDefs);
    AppendNothing(a.regUses);
    AppendNothing(a.pcToIdxs);
    AppendNothing(a.memAddrToWrites);
    AppendNothing(a.memAddrToReads);
    hide Append;
    assert a.memWrites + [] == a.memWrites && [] + a.memWrites == a.memWrites;
    assert a.memReads + [] == a.memReads && [] + a.memReads == a.memReads;
    assert a.condBranches + [] == a.condBranches && [] + a.condBranches == a.condBranches;
    assert a.callRetBoundaries + [] == a.callRetBoundaries && [] + a.callRetBoundaries == a.callRetBoundaries;
  }

  lemma Associates<T>(a: seq<T>, b: seq<T>, c: seq<T>)
    ensures (a + b) + c == a + (b + c)
  {}

  lemma AddOpAfterMerge(a: Index, b: Index, i: nat, op: MemOp)
    ensures AddOp(Merge(a, b), i, op) == Merge(a, AddOp(b, i, op))
  {
    var entries := AddrEntries(op.addr, op.size, i);
    PushAllAfterAppend(a.memAddrToWrites, b.memAddrToWrites, entries);
    PushAllAfterAppend(a.memAddrToReads, b.memAddrToReads, entries);
    Associates(a.memWrites, b.memWrites, [MemRec(i, op.addr, op.size, None)]);
    Associates(a.memReads, b.memReads, [MemRec(i, op.addr, op.size, None)]);
    hide Append, PushAll, AddrEntries;
  }

  lemma {:induction false} AddOpsAfterMerge(a: Index, b: Index, i: nat, ops: seq<MemOp>)
    ensures AddOps(Merge(a, b), i, ops) == Merge(a, AddOps(b, i, ops))
  {
    hide Merge, AddOp;
    if |ops| > 0 {
      AddOpsAfterMerge(a, b, i, ops[..|ops| - 1]);
      AddOpAfterMerge(a, AddOps(b, i, ops[..|ops| - 1]), i, ops[|ops| - 1]);
    }
  }

  lemma AddRegsAfterMerge(a: Index, b: Index, i: nat, rec: Rec)
    ensures AddRegs(Merge(a, b), i, rec) == Merge(a, AddRegs(b, i, rec))
  {
    PushAfterAppend(a.pcToIdxs, b.pcToIdxs, rec.pc, i);
    PushAllAfterAppend(a.regDefs, b.regDefs, RegEntries(rec.regsDef, i));
    PushAllAfterAppend(a.regUses, b.regUses, RegEntries(rec.regsUse, i));
    hide Append, Push, PushAll, RegEntries;
    Associates(a.condBranches, b.condBranches, if rec.isCond then [i] else []);
    Associates(a.callRetBoundaries, b.callRetBoundaries, if rec.isCall || rec.isRet then [i] else []);
  }

  /** Indexing two adjacent ranges apart and merging them is indexing them together. */
  lemma {:induction false} RangesMerge(trace: Trace, start: nat, mid: nat, end: nat)
    requires start <= mid <= end <= |trace|
    ensures Merge(Range(trace, start, mid), Range(trace, mid, end)) == Range(trace, start, end)
    decreases end
  {
    hide Merge, AddRegs, AddOps;
    if mid == end {
      MergeNothing(Range(trace, start, mid));
    } else {
      RangesMerge(trace, start, mid, end - 1);
      var a, b, rec := Range(trace, start, mid), Range(trace, mid, end - 1), trace[end - 1];
      AddRegsAfterMerge(a, b, end - 1, rec);
      AddOpsAfterMerge(a, AddRegs(b, end - 1, rec), end - 1, rec.memOps);
    }
  }

  // ---------- what the lists hold ----------

  ghost predicate Ascending(s: seq<nat>) { forall i, j :: 0 <= i < j < |s| ==> s[i] <= s[j] }

  ghost predicate StrictlyAscending(s: seq<nat>) { forall i, j :: 0 <= i < j < |s| ==> s[i] < s[j] }

  ghost predicate NoDuplicates(s: seq<string>) { forall i, j :: 0 <= i < j < |s| ==> s[i] != s[j] }

  lemma {:induction false} RegValues(regs: seq<string>, i: nat, reg: string)
    ensures forall v :: v in Values(RegEntries(regs, i), reg) ==> v == i
    ensures |Values(RegEntries(regs, i), reg)| > 0 <==> reg in regs
    ensures NoDuplicates(regs) ==> |Values(RegEntries(regs, i), reg)| <= 1
  {
    if |regs| > 0 {
      var front, entries := regs[..|regs| - 1], RegEntries(regs, i);
      RegValues(front, i, reg);
      assert entries[..|entries| - 1] == RegEntries(front, i);
      assert regs == front + [regs[|regs| - 1]];
      if reg == regs[|regs| - 1] && NoDuplicates(regs) { assert reg !in front; }
    }
  }

  lemma {:induction false} OpsKeepRegs(x: Index, i: nat, ops: seq<MemOp>)
    ensures AddOps(x, i, ops).regDefs == x.regDefs && AddOps(x, i, ops).regUses == x.regUses
    ensures AddOps(x, i, ops).pcToIdxs == x.pcToIdxs
    ensures AddOps(x, i, ops).condBranches == x.condBranches
    ensures AddOps(x, i, ops).callRetBoundaries == x.callRetBoundaries
  {
    if |ops| > 0 { OpsKeepRegs(x, i, ops[..|ops| - 1]); }
  }

  /** `list` holds exactly the records of [start, end) with property `p`, in order (once each when `once`). */
  ghost predicate Lists(p: nat -> bool, start: nat, end: nat, once: bool, list: seq<nat>) {
    && Ascending(list) && (once ==> StrictlyAscending(list))
    && (forall v :: v in list <==> start <= v < end && p(v))
  }

  lemma ListsExtend(p: nat -> bool, start: nat, end: nat, once: bool, list: seq<nat>, more: seq<nat>)
    requires start <= end && Lists(p, start, end, once, list)
    requires forall v :: v in more ==> v == end
    requires |more| > 0 <==> p(end)
    requires once ==> |more| <= 1
    ensures Lists(p, start, end + 1, once, list + more)
  {
    assert forall j :: 0 <= j < |list| ==> list[j] in list;
    assert forall j :: 0 <= j < |more| ==> more[j] in more;
    assert |more| > 0 ==> more[0] == end;
  }

  lemma ListsNothing(p: nat -> bool, start: nat, once: bool)
    ensures Lists(p, start, start, once, [])
  {}

  lemma {:induction false} RangeEmpty(trace: Trace, start: nat)
    requires start <= |trace|
    ensures Range(trace, start, start) == EMPTY
  {}

  lemma RangeUnfolds(trace: Trace, start: nat, end: nat)
    requires start < end <= |trace|
    ensures var y := AddRegs(Range(trace, start, end - 1), end - 1, trace[end - 1]);
      && Range(trace, start, end) == AddOps(y, end - 1, trace[end - 1].memOps)
      && Range(trace, start, end).regDefs == y.regDefs && Range(trace, start, end).regUses == y.regUses
      && Range(trace, start, end).pcToIdxs == y.pcToIdxs
      && Range(trace, start, end).condBranches == y.condBranches
      && Range(trace, start, end).callRetBoundaries == y.callRetBoundaries
  {
    OpsKeepRegs(AddRegs(Range(trace, start, end - 1), end - 1, trace[end - 1]), end - 1, trace[end - 1].memOps);
  }

  function Defines(trace: Trace, reg: string): nat -> bool { (v: nat) => v < |trace| && reg in trace[v].regsDef }

  function Uses(trace: Trace, reg: string): nat -> bool { (v: nat) => v < |trace| && reg in trace[v].regsUse }

  function RunsAt(trace: Trace, pc: nat): nat -> bool { (v: nat) => v < |trace| && trace[v].pc == pc }

  function Branches(trace: Trace): nat -> bool { (v: nat) => v < |trace| && trace[v].isCond }

  function Crosses(trace: Trace): nat -> bool { (v: nat) => v < |trace| && (trace[v].isCall || trace[v].isRet) }

  ghost predicate DistinctDefs(trace: Trace) { forall i :: 0 <= i < |trace| ==> NoDuplicates(trace[i].regsDef) }

  ghost predicate DistinctUses(trace: Trace) { forall i :: 0 <= i < |trace| ==> NoDuplicates(trace[i].regsUse) }

  lemma {:induction false} RegsExtend(p: nat -> bool, start: nat, i: nat, once: bool, list: seq<nat>,
      regs: seq<string>, reg: string)
    requires start <= i && Lists(p, start, i, once, list)
    requires p(i) <==> reg in regs
    requires once ==> NoDuplicates(regs)
    ensures Lists(p, start, i + 1, once, list + Values(RegEntries(regs, i), reg))
  {
    RegValues(regs, i, reg);
    hide NoDuplicates, Values, RegEntries;
    ListsExtend(p, start, i, once, list, Values(RegEntries(regs, i), reg));
  }

  /** The definition list of a register: its definers in trace order, once each if no record names it twice. */
  lemma {:induction false} DefsListed(trace: Trace, start: nat, end: nat, reg: string)
    requires start <= end <= |trace|
    ensures Lists(Defines(trace, reg), start, end, DistinctDefs(trace), Get(Range(trace, start, end).regDefs, reg))
    decreases end
  {
    hide Range, Lists, PushAll, Values, RegEntries, AddOps, NoDuplicates;
    if start == end {
      RangeEmpty(trace, start);
      ListsNothing(Defines(trace, reg), start, DistinctDefs(trace));
    } else {
      DefsListed(trace, start, end - 1, reg);
      var x, i, rec := Range(trace, start, end - 1), end - 1, trace[end - 1];
      RangeUnfolds(trace, start, end);
      PushAllAt(x.regDefs, RegEntries(rec.regsDef, i), reg);
      RegsExtend(Defines(trace, reg), start, i, DistinctDefs(trace), Get(x.regDefs, reg), rec.regsDef, reg);
    }
  }

  /** The use list of a register, likewise. */
  lemma {:induction false} UsesListed(trace: Trace, start: nat, end: nat, reg: string)
    requires start <= end <= |trace|
    ensures Lists(Uses(trace, reg), start, end, DistinctUses(trace), Get(Range(trace, start, end).regUses, reg))
    decreases end
  {
    hide Range, Lists, PushAll, Values, RegEntries, AddOps, NoDuplicates;
    if start == end {
      RangeEmpty(trace, start);
      ListsNothing(Uses(trace, reg), start, DistinctUses(trace));
    } else {
      UsesListed(trace, start, end - 1, reg);
      var x, i, rec := Range(trace, start, end - 1), end - 1, trace[end - 1];
      RangeUnfolds(trace, start, end);
      PushAllAt(x.regUses, RegEntries(rec.regsUse, i), reg);
      RegsExtend(Uses(trace, reg), start, i, DistinctUses(trace), Get(x.regUses, reg), rec.regsUse, reg);
    }
  }

  /** The list of a PC: its records in trace order, once each; a PC without records has no key. */
  lemma {:induction false} PcListed(trace: Trace, start: nat, end: nat, pc: nat)
    requires start <= end <= |trace|
    ensures Lists(RunsAt(trace, pc), start, end, true, Get(Range(trace, start, end).pcToIdxs, pc))
    ensures pc in Range(trace, start, end).pcToIdxs <==> |Get(Range(trace, start, end).pcToIdxs, pc)| > 0
    decreases end
  {
    hide Range, Lists, PushAll, RegEntries, AddOps;
    if start == end {
      RangeEmpty(trace, start);
      ListsNothing(RunsAt(trace, pc), start, true);
    } else {
      PcListed(trace, start, end - 1, pc);
      var x, i, rec := Range(trace, start, end - 1), end - 1, trace[end - 1];
      RangeUnfolds(trace, start, end);
      ListsExtend(RunsAt(trace, pc), start, i, true, Get(x.pcToIdxs, pc), if rec.pc == pc then [i] else []);
      assert Get(x.pcToIdxs, pc) + [] == Get(x.pcToIdxs, pc);
    }
  }

  /** Conditional branches and call/return boundaries, in trace order, once each. */
  lemma {:induction false} BranchesListed(trace: Trace, start: nat, end: nat)
    requires start <= end <= |trace|
    ensures Lists(Branches(trace), start, end, true, Range(trace, start, end).condBranches)
    ensures Lists(Crosses(trace), start, end, true, Range(trace, start, end).callRetBoundaries)
    decreases end
  {
    hide Range, Lists, PushAll, RegEntries, AddOps;
    if start == end {
      RangeEmpty(trace, start);
      ListsNothing(Branches(trace), start, true);
      ListsNothing(Crosses(trace), start, true);
    } else {
      BranchesListed(trace, start, end - 1);
      var x, i, rec := Range(trace, start, end - 1), end - 1, trace[end - 1];
      RangeUnfolds(trace, start, end);
      ListsExtend(Branches(trace), start, i, true, x.condBranches, if rec.isCond then [i] else []);
      ListsExtend(Crosses(trace), start, i, true, x.callRetBoundaries, if rec.isCall || rec.isRet then [i] else []);
    }
  }
}
