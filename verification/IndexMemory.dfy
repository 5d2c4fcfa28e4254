/** What the memory half of the index holds. */
module IndexMemory {
  import opened Wrappers
  import opened TraceModel
  import opened Postings
  import opened IndexSpec
  import opened TraceLists

  // ---------- records by byte address ----------

  /** The operand moves the byte at `a`; a range running off the end keeps to the last address. */
  predicate Touches(op: MemOp, a: nat) {
    op.base != "" && exists k: nat :: k < op.size && SaturatingAdd(op.addr, k) == a
  }

  predicate AnyTouches(ops: seq<MemOp>, isWrite: bool, a: nat) {
    exists j :: 0 <= j < |ops| && ops[j].isWrite == isWrite && Touches(ops[j], a)
  }

  function TouchersOf(trace: Trace, isWrite: bool, a: nat): nat -> bool {
    (v: nat) => v < |trace| && AnyTouches(trace[v].memOps, isWrite, a)
  }

  /** The record once for each byte position of its operands that falls on `a`. */
  function Touched(i: nat, ops: seq<MemOp>, isWrite: bool, a: nat): seq<nat> {
    if |ops| == 0 then []
    else
      var op := ops[|ops| - 1];
      Touched(i, ops[..|ops| - 1], isWrite, a) +
      (if op.base != "" && op.isWrite == isWrite then Values(AddrEntries(op.addr, op.size, i), a) else [])
  }

  lemma {:induction false} AddrValues(addr: nat, size: nat, i: nat, a: nat)
    ensures forall v :: v in Values(AddrEntries(addr, size, i), a) ==> v == i
    ensures |Values(AddrEntries(addr, size, i), a)| > 0 <==> exists k: nat :: k < size && SaturatingAdd(addr, k) == a
  {
    if size > 0 {
      AddrValues(addr, size - 1, i, a);
      var entries := AddrEntries(addr, size, i);
      assert entries[..size - 1] == AddrEntries(addr, size - 1, i);
      assert entries[size - 1] == (SaturatingAdd(addr, size - 1), i);
    }
  }

  lemma {:induction false} TouchedMeans(i: nat, ops: seq<MemOp>, isWrite: bool, a: nat)
    ensures forall v :: v in Touched(i, ops, isWrite, a) ==> v == i
    ensures |Touched(i, ops, isWrite, a)| > 0 <==> AnyTouches(ops, isWrite, a)
  {
    if |ops| > 0 {
      var front, op := ops[..|ops| - 1], ops[|ops| - 1];
      TouchedMeans(i, front, isWrite, a);
      AddrValues(op.addr, op.size, i, a);
      hide Values, AddrEntries, SaturatingAdd, Touches;
      AnySplits(ops, isWrite, a);
      TouchIs(op, i, a);
    }
  }

  lemma {:induction false} TouchIs(op: MemOp, i: nat, a: nat)
    ensures Touches(op, a) <==> op.base != "" && |Values(AddrEntries(op.addr, op.size, i), a)| > 0
  {
    AddrValues(op.addr, op.size, i, a);
    hide Values, AddrEntries, SaturatingAdd;
  }

  lemma AnySplits(ops: seq<MemOp>, isWrite: bool, a: nat)
    requires |ops| > 0
    ensures AnyTouches(ops, isWrite, a) <==>
      AnyTouches(ops[..|ops| - 1], isWrite, a) || (ops[|ops| - 1].isWrite == isWrite && Touches(ops[|ops| - 1], a))
  {
    hide Touches;
    var front := ops[..|ops| - 1];
    assert forall j :: 0 <= j < |front| ==> front[j] == ops[j];
  }

  lemma {:induction false} AddOpLists(x: Index, i: nat, op: MemOp, a: nat)
    ensures var y := AddOp(x, i, op);
      && Get(y.memAddrToWrites, a) == Get(x.memAddrToWrites, a) +
           (if op.base != "" && op.isWrite then Values(AddrEntries(op.addr, op.size, i), a) else [])
      && Get(y.memAddrToReads, a) == Get(x.memAddrToReads, a) +
           (if op.base != "" && !op.isWrite then Values(AddrEntries(op.addr, op.size, i), a) else [])
  {
    var entries := AddrEntries(op.addr, op.size, i);
    PushAllAt(x.memAddrToWrites, entries, a);
    PushAllAt(x.memAddrToReads, entries, a);
    hide PushAll, AddrEntries, Values, Get;
  }

  lemma {:induction false} OpsLists(x: Index, i: nat, ops: seq<MemOp>, a: nat)
    ensures Get(AddOps(x, i, ops).memAddrToWrites, a) == Get(x.memAddrToWrites, a) + Touched(i, ops, true, a)
    ensures Get(AddOps(x, i, ops).memAddrToReads, a) == Get(x.memAddrToReads, a) + Touched(i, ops, false, a)
  {
    hide AddOp, AddrEntries, Values, Get;
    if |ops| > 0 {
      var front, op := ops[..|ops| - 1], ops[|ops| - 1];
      OpsLists(x, i, front, a);
      AddOpLists(AddOps(x, i, front), i, op, a);
      TouchedStep(Get(x.memAddrToWrites, a), i, ops, true, a);
      TouchedStep(Get(x.memAddrToReads, a), i, ops, false, a);
      assert AddOps(x, i, ops) == AddOp(AddOps(x, i, front), i, op);
      hide AddOps, Touched;
    }
  }

  lemma {:induction false} TouchedStep(list: seq<nat>, i: nat, ops: seq<MemOp>, isWrite: bool, a: nat)
    requires |ops| > 0
    ensures var op := ops[|ops| - 1];
      list + Touched(i, ops, isWrite, a) == list + Touched(i, ops[..|ops| - 1], isWrite, a) +
        (if op.base != "" && op.isWrite == isWrite then Values(AddrEntries(op.addr, op.size, i), a) else [])
  {
    hide Values, AddrEntries;
  }

  lemma {:induction false} TouchersExtend(trace: Trace, start: nat, i: nat, isWrite: bool, a: nat, list: seq<nat>)
    requires start <= i < |trace| && Lists(TouchersOf(trace, isWrite, a), start, i, false, list)
    ensures Lists(TouchersOf(trace, isWrite, a), start, i + 1, false, list + Touched(i, trace[i].memOps, isWrite, a))
  {
    TouchedMeans(i, trace[i].memOps, isWrite, a);
    hide Touched, AnyTouches, Lists;
    ListsExtend(TouchersOf(trace, isWrite, a), start, i, false, list, Touched(i, trace[i].memOps, isWrite, a));
  }

  lemma RangeLists(trace: Trace, start: nat, end: nat, a: nat)
    requires start < end <= |trace|
    ensures var x, y, ops := Range(trace, start, end - 1), Range(trace, start, end), trace[end - 1].memOps;
      && Get(y.memAddrToWrites, a) == Get(x.memAddrToWrites, a) + Touched(end - 1, ops, true, a)
      && Get(y.memAddrToReads, a) == Get(x.memAddrToReads, a) + Touched(end - 1, ops, false, a)
  {
    RangeUnfolds(trace, start, end);
    OpsLists(AddRegs(Range(trace, start, end - 1), end - 1, trace[end - 1]), end - 1, trace[end - 1].memOps, a);
    hide Range, AddOps, Touched, Get;
  }

  /** The lists of an address hold exactly the records that store to it, and that load from it, in trace order. */
  lemma {:induction false} AddressesListed(trace: Trace, start: nat, end: nat, a: nat)
    requires start <= end <= |trace|
    ensures Lists(TouchersOf(trace, true, a), start, end, false, Get(Range(trace, start, end).memAddrToWrites, a))
    ensures Lists(TouchersOf(trace, false, a), start, end, false, Get(Range(trace, start, end).memAddrToReads, a))
    decreases end
  {
    hide Range, Lists, Touched, TouchersOf;
    if start == end {
      RangeEmpty(trace, start);
      ListsNothing(TouchersOf(trace, true, a), start, false);
      ListsNothing(TouchersOf(trace, false, a), start, false);
    } else {
      AddressesListed(trace, start, end - 1, a);
      var x := Range(trace, start, end - 1);
      RangeLists(trace, start, end, a);
      TouchersExtend(trace, start, end - 1, true, a, Get(x.memAddrToWrites, a));
      TouchersExtend(trace, start, end - 1, false, a, Get(x.memAddrToReads, a));
    }
  }

  // ---------- entries in trace order ----------

  /** The entries of one record: its operands of the kind that have a base, in operand order. */
  function EntriesOf(i: nat, ops: seq<MemOp>, isWrite: bool): (r: seq<MemRec>)
    ensures forall m :: m in r ==> m.idx == i
  {
    if |ops| == 0 then []
    else
      var op := ops[|ops| - 1];
      EntriesOf(i, ops[..|ops| - 1], isWrite) +
      (if op.base != "" && op.isWrite == isWrite then [MemRec(i, op.addr, op.size, None)] else [])
  }

  function IdxOf(): MemRec -> nat { (m: MemRec) => m.idx }

  function EntriesBy(trace: Trace, isWrite: bool): nat -> seq<MemRec> {
    (i: nat) => if i < |trace| then EntriesOf(i, trace[i].memOps, isWrite) else []
  }

  lemma {:induction false} OpsEntries(x: Index, i: nat, ops: seq<MemOp>)
    ensures AddOps(x, i, ops).memWrites == x.memWrites + EntriesOf(i, ops, true)
    ensures AddOps(x, i, ops).memReads == x.memReads + EntriesOf(i, ops, false)
  {
    if |ops| > 0 { OpsEntries(x, i, ops[..|ops| - 1]); }
  }

  lemma RangeEntries(trace: Trace, start: nat, end: nat)
    requires start < end <= |trace|
    ensures var x, y, ops := Range(trace, start, end - 1), Range(trace, start, end), trace[end - 1].memOps;
      && y.memWrites == x.memWrites + EntriesOf(end - 1, ops, true)
      && y.memReads == x.memReads + EntriesOf(end - 1, ops, false)
  {
    RangeUnfolds(trace, start, end);
    OpsEntries(AddRegs(Range(trace, start, end - 1), end - 1, trace[end - 1]), end - 1, trace[end - 1].memOps);
    hide Range, AddOps, EntriesOf;
  }

  /** Stores and loads are listed in trace order, each record's in operand order, every one once. */
  lemma {:induction false} EntriesListed(trace: Trace, start: nat, end: nat)
    requires start <= end <= |trace|
    ensures IsListOf(EntriesBy(trace, true), IdxOf(), start, end, Range(trace, start, end).memWrites)
    ensures IsListOf(EntriesBy(trace, false), IdxOf(), start, end, Range(trace, start, end).memReads)
    decreases end
  {
    hide Range, IsListOf, EntriesOf;
    if start == end {
      RangeEmpty(trace, start);
      NothingListed(EntriesBy(trace, true), IdxOf(), start);
      NothingListed(EntriesBy(trace, false), IdxOf(), start);
    } else {
      EntriesListed(trace, start, end - 1);
      RangeEntries(trace, start, end);
      ListExtends(EntriesBy(trace, true), IdxOf(), start, end - 1, Range(trace, start, end - 1).memWrites);
      ListExtends(EntriesBy(trace, false), IdxOf(), start, end - 1, Range(trace, start, end - 1).memReads);
    }
  }
}
