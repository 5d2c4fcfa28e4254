/** What the access lists of a shadow hold. */
module ShadowAccesses {
  import opened Wrappers
  import opened TraceModel
  import opened TraceLists
  import opened ShadowSpec
  import Bytes

  /** The number that the first eight of the bytes spell, lowest first. */
  ghost predicate Spells(raw: seq<nat>, value: nat) {
    var low := if |raw| > 8 then raw[..8] else raw;
    value < Bytes.Pow256(|low|) && Bytes.Le(value, |low|) == low
  }

  /** The access of one operand with known bytes. */
  ghost predicate IsAccess(i: nat, op: MemOp, a: Access) {
    op.raw.Some? && a.idx == i && a.addr == op.addr && a.size == op.size && Spells(op.raw.value, a.value)
  }

  predicate Listed(op: MemOp, isWrite: bool) { op.base != "" && op.raw.Some? && op.isWrite == isWrite }

  /** The operands of one kind with a base and known bytes, in order. */
  function ListedOf(ops: seq<MemOp>, isWrite: bool): seq<MemOp> {
    if |ops| == 0 then []
    else ListedOf(ops[..|ops| - 1], isWrite) + (if Listed(ops[|ops| - 1], isWrite) then [ops[|ops| - 1]] else [])
  }

  /** The accesses of one record are its listed operands, one for one. */
  ghost predicate AreAccesses(i: nat, ops: seq<MemOp>, isWrite: bool, accesses: seq<Access>) {
    var listed := ListedOf(ops, isWrite);
    |accesses| == |listed| && forall k :: 0 <= k < |listed| ==> IsAccess(i, listed[k], accesses[k])
  }

  /** Known bytes are bytes. */
  ghost predicate RealBytes(ops: seq<MemOp>) {
    forall op :: op in ops && op.raw.Some? ==> forall b :: b in op.raw.value ==> b < 256
  }

  function AccessesOf(i: nat, ops: seq<MemOp>, isWrite: bool): (r: seq<Access>)
    ensures forall a :: a in r ==> a.idx == i
  {
    if |ops| == 0 then []
    else
      var op := ops[|ops| - 1];
      AccessesOf(i, ops[..|ops| - 1], isWrite) +
      (if Listed(op, isWrite) then [Access(i, op.addr, op.size, LowWord(op.raw.value))] else [])
  }

  lemma {:induction false} WordSpells(bytes: seq<nat>)
    requires forall b :: b in bytes ==> b < 256
    ensures Bytes.Word(bytes) < Bytes.Pow256(|bytes|) && Bytes.Le(Bytes.Word(bytes), |bytes|) == bytes
  {
    if |bytes| > 0 {
      assert bytes[0] in bytes && forall b :: b in bytes[1..] ==> b in bytes;
      WordSpells(bytes[1..]);
      assert bytes == [bytes[0]] + bytes[1..];
    }
  }

  lemma {:induction false} AccessesMean(i: nat, ops: seq<MemOp>, isWrite: bool)
    requires RealBytes(ops)
    ensures AreAccesses(i, ops, isWrite, AccessesOf(i, ops, isWrite))
  {
    hide Spells;
    if |ops| > 0 {
      var front, op := ops[..|ops| - 1], ops[|ops| - 1];
      assert RealBytes(front) && op in ops;
      AccessesMean(i, front, isWrite);
      if Listed(op, isWrite) { LowWordSpells(op.raw.value); }
    }
  }

  lemma LowWordSpells(raw: seq<nat>)
    requires forall b :: b in raw ==> b < 256
    ensures Spells(raw, LowWord(raw))
  {
    var low := if |raw| > 8 then raw[..8] else raw;
    forall b | b in low ensures b < 256 { assert b in raw; }
    WordSpells(low);
  }

  function IdxOf(): Access -> nat { (a: Access) => a.idx }

  function AccessesBy(trace: Trace, isWrite: bool): nat -> seq<Access> {
    (i: nat) => if i < |trace| then AccessesOf(i, trace[i].memOps, isWrite) else []
  }

  lemma {:induction false} OpsAccesses(x: Shadow, i: nat, ops: seq<MemOp>)
    ensures AddOps(x, i, ops).stores == x.stores + AccessesOf(i, ops, true)
    ensures AddOps(x, i, ops).loads == x.loads + AccessesOf(i, ops, false)
  {
    hide LowWord;
    if |ops| > 0 { OpsAccesses(x, i, ops[..|ops| - 1]); }
  }

  /**
   * Stores and loads with a base and known bytes are listed in trace order, each record's in operand order, every one
   * once, with the number its bytes spell.
   */
  lemma {:induction false} AccessesListed(trace: Trace, start: nat, end: nat)
    requires start <= end <= |trace|
    ensures IsListOf(AccessesBy(trace, true), IdxOf(), start, end, Range(trace, start, end).stores)
    ensures IsListOf(AccessesBy(trace, false), IdxOf(), start, end, Range(trace, start, end).loads)
    ensures forall i: nat, isWrite: bool :: i < |trace| && RealBytes(trace[i].memOps) ==>
      AreAccesses(i, trace[i].memOps, isWrite, AccessesBy(trace, isWrite)(i))
    decreases end
  {
    hide IsListOf, AreAccesses, RealBytes;
    forall i: nat, isWrite: bool | i < |trace| && RealBytes(trace[i].memOps)
      ensures AreAccesses(i, trace[i].memOps, isWrite, AccessesBy(trace, isWrite)(i)) {
      AccessesMean(i, trace[i].memOps, isWrite);
    }
    hide AddOps, AccessesOf;
    if start == end {
      NothingListed(AccessesBy(trace, true), IdxOf(), start);
      NothingListed(AccessesBy(trace, false), IdxOf(), start);
    } else {
      var x, i := Range(trace, start, end - 1), end - 1;
      AccessesListed(trace, start, i);
      OpsAccesses(x, i, trace[i].memOps);
      ListExtends(AccessesBy(trace, true), IdxOf(), start, i, x.stores);
      ListExtends(AccessesBy(trace, false), IdxOf(), start, i, x.loads);
    }
  }
}
