/** The memory shadow of a record range as a value: access records and, per byte address, a history. */
module ShadowSpec {
  import opened Numbers
  import Bytes
  import opened Wrappers
  import opened TraceModel
  import opened Postings
  import opened ByteHistory

  datatype Access = Access(idx: nat, addr: nat, size: nat, value: nat)

  datatype Shadow = Shadow(stores: seq<Access>, loads: seq<Access>, bytes: map<nat, History>)

  const EMPTY: Shadow := Shadow([], [], map[])

  /** The first eight bytes as a little-endian word. */
  function LowWord(raw: seq<nat>): nat { Bytes.Word(if |raw| > 8 then raw[..8] else raw) }

  function KindOf(op: MemOp): EventKind { if op.isWrite then Write else Read }

  /** One event per byte moved, from the operand's address upwards, wrapping at the top. */
  function ByteEntries(addr: nat, raw: seq<nat>, i: nat, kind: EventKind): (entries: seq<(nat, ByteEvent)>)
    ensures |entries| == |raw|
    ensures forall o :: 0 <= o < |raw| ==> entries[o] == (WrappingAdd(addr, o), ByteEvent(i, raw[o], kind))
  {
    seq(|raw|, o requires 0 <= o < |raw| => (WrappingAdd(addr, o), ByteEvent(i, raw[o], kind)))
  }

  /** What one operand contributes to the histories: nothing unless it has a base and its bytes are known. */
  function OpEntries(i: nat, op: MemOp): seq<(nat, ByteEvent)> {
    if op.base == "" || op.raw.None? then [] else ByteEntries(op.addr, op.raw.value, i, KindOf(op))
  }

  function AddOp(x: Shadow, i: nat, op: MemOp): Shadow {
    if op.base == "" || op.raw.None? then x
    else
      var access := Access(i, op.addr, op.size, LowWord(op.raw.value));
      Shadow(if op.isWrite then x.stores + [access] else x.stores,
             if op.isWrite then x.loads else x.loads + [access],
             PushAll(x.bytes, ByteEntries(op.addr, op.raw.value, i, KindOf(op))))
  }

  function AddOps(x: Shadow, i: nat, ops: seq<MemOp>): Shadow {
    if |ops| == 0 then x else AddOp(AddOps(x, i, ops[..|ops| - 1]), i, ops[|ops| - 1])
  }

  /** The shadow of records [start, end), built from nothing. */
  function Range(trace: Trace, start: nat, end: nat): Shadow
    requires start <= end <= |trace|
    decreases end
  {
    if start == end then EMPTY else AddOps(Range(trace, start, end - 1), end - 1, trace[end - 1].memOps)
  }

  function Merge(a: Shadow, b: Shadow): Shadow {
    Shadow(a.stores + b.stores, a.loads + b.loads, Append(a.bytes, b.bytes))
  }

  function MergeAll(parts: seq<Shadow>): Shadow {
    if |parts| == 0 then EMPTY else Merge(MergeAll(parts[..|parts| - 1]), parts[|parts| - 1])
  }

  // ---------- merging adjacent ranges ----------

  lemma MergeNothing(a: Shadow)
    ensures Merge(a, EMPTY) == a && Merge(EMPTY, a) == a
  {
    AppendNothing(a.bytes);
    hide Append;
    assert a.stores + [] == a.stores && [] + a.stores == a.stores;
    assert a.loads + [] == a.loads && [] + a.loads == a.loads;
  }

  lemma AddOpAfterMerge(a: Shadow, b: Shadow, i: nat, op: MemOp)
    ensures AddOp(Merge(a, b), i, op) == Merge(a, AddOp(b, i, op))
  {
    if op.base != "" && op.raw.Some? {
      var access := Access(i, op.addr, op.size, LowWord(op.raw.value));
      PushAllAfterAppend(a.bytes, b.bytes, ByteEntries(op.addr, op.raw.value, i, KindOf(op)));
      hide Append, PushAll, ByteEntries, LowWord;
      assert (a.stores + b.stores) + [access] == a.stores + (b.stores + [access]);
      assert (a.loads + b.loads) + [access] == a.loads + (b.loads + [access]);
    }
  }

  lemma {:induction false} AddOpsAfterMerge(a: Shadow, b: Shadow, i: nat, ops: seq<MemOp>)
    ensures AddOps(Merge(a, b), i, ops) == Merge(a, AddOps(b, i, ops))
  {
    hide Merge, AddOp;
    if |ops| > 0 {
      AddOpsAfterMerge(a, b, i, ops[..|ops| - 1]);
      AddOpAfterMerge(a, AddOps(b, i, ops[..|ops| - 1]), i, ops[|ops| - 1]);
    }
  }

  /** Shadowing two adjacent ranges apart and merging them is shadowing them together. */
  lemma {:induction false} ShadowsMerge(trace: Trace, start: nat, mid: nat, end: nat)
    requires start <= mid <= end <= |trace|
    ensures Merge(Range(trace, start, mid), Range(trace, mid, end)) == Range(trace, start, end)
    decreases end
  {
    hide Merge, AddOps;
    if mid == end {
      MergeNothing(Range(trace, start, mid));
    } else {
      ShadowsMerge(trace, start, mid, end - 1);
      AddOpsAfterMerge(Range(trace, start, mid), Range(trace, mid, end - 1), end - 1, trace[end - 1].memOps);
    }
  }

  // ---------- what a history holds ----------

  /** Operand `op` of record `i` moved byte `e.byte` at `addr`. */
  ghost predicate MovedBy(i: nat, op: MemOp, addr: nat, e: ByteEvent) {
    && op.base != "" && op.raw.Some? && e.idx == i && e.kind == KindOf(op)
    && (exists o: nat :: o < |op.raw.value| && WrappingAdd(op.addr, o) == addr && op.raw.value[o] == e.byte)
  }

  ghost predicate Moved(i: nat, ops: seq<MemOp>, addr: nat, e: ByteEvent) {
    exists j :: 0 <= j < |ops| && MovedBy(i, ops[j], addr, e)
  }

  lemma {:induction false} ValuesHold<K, V>(entries: seq<(K, V)>, k: K, v: V)
    ensures v in Values(entries, k) <==> (k, v) in entries
  {
    if |entries| > 0 {
      var front := entries[..|entries| - 1];
      var (x, w) := entries[|entries| - 1];
      ValuesHold(front, k, v);
      assert entries == front + [(x, w)];
      assert Values(entries, k) == Values(front, k) + (if x == k then [w] else []);
    }
  }

  lemma {:induction false} OpEntriesHold(i: nat, op: MemOp, addr: nat, e: ByteEvent)
    ensures e in Values(OpEntries(i, op), addr) <==> MovedBy(i, op, addr, e)
  {
    var entries := OpEntries(i, op);
    ValuesHold(entries, addr, e);
    hide Values;
    if (addr, e) in entries {
      var o :| 0 <= o < |entries| && entries[o] == (addr, e);
    }
    if MovedBy(i, op, addr, e) {
      var o: nat :| o < |op.raw.value| && WrappingAdd(op.addr, o) == addr && op.raw.value[o] == e.byte;
      assert entries[o] == (addr, e);
    }
  }

  lemma {:induction false} AddOpHistory(x: Shadow, i: nat, op: MemOp, addr: nat)
    ensures Get(AddOp(x, i, op).bytes, addr) == Get(x.bytes, addr) + Values(OpEntries(i, op), addr)
  {
    PushAllAt(x.bytes, OpEntries(i, op), addr);
    hide PushAll;
    if op.base == "" || op.raw.None? { assert Get(x.bytes, addr) + [] == Get(x.bytes, addr); }
  }

  lemma {:induction false} OpsHistory(x: Shadow, i: nat, ops: seq<MemOp>, addr: nat)
    ensures |Get(AddOps(x, i, ops).bytes, addr)| >= |Get(x.bytes, addr)|
    ensures Get(AddOps(x, i, ops).bytes, addr)[..|Get(x.bytes, addr)|] == Get(x.bytes, addr)
    ensures forall e :: e in Get(AddOps(x, i, ops).bytes, addr)[|Get(x.bytes, addr)|..] <==> Moved(i, ops, addr, e)
  {
    if |ops| > 0 {
      var front, op := ops[..|ops| - 1], ops[|ops| - 1];
      var y := AddOps(x, i, front);
      OpsHistory(x, i, front, addr);
      AddOpHistory(y, i, op, addr);
      var old', mid, new' := Get(x.bytes, addr), Get(y.bytes, addr), Values(OpEntries(i, op), addr);
      hide AddOp, AddOps, OpEntries, Values, MovedBy;
      assert (mid + new')[|old'|..] == mid[|old'|..] + new';
      forall e ensures e in (mid + new')[|old'|..] <==> Moved(i, ops, addr, e) {
        OpEntriesHold(i, op, addr, e);
        MovedSplits(i, ops, addr, e);
      }
    }
  }

  lemma MovedSplits(i: nat, ops: seq<MemOp>, addr: nat, e: ByteEvent)
    requires |ops| > 0
    ensures Moved(i, ops, addr, e) <==> Moved(i, ops[..|ops| - 1], addr, e) || MovedBy(i, ops[|ops| - 1], addr, e)
  {
    hide MovedBy;
    var front := ops[..|ops| - 1];
    if Moved(i, ops, addr, e) {
      var j :| 0 <= j < |ops| && MovedBy(i, ops[j], addr, e);
      assert j < |front| ==> front[j] == ops[j];
    }
    if Moved(i, front, addr, e) {
      var j :| 0 <= j < |front| && MovedBy(i, front[j], addr, e);
      assert ops[j] == front[j];
    }
  }

  /** `list` is in record order and holds exactly the bytes that records of [start, end) moved at `addr`. */
  ghost predicate IsHistory(trace: Trace, start: nat, end: nat, addr: nat, list: History) {
    && Sorted(list)
    && forall e :: e in list <==> start <= e.idx < end && e.idx < |trace| && Moved(e.idx, trace[e.idx].memOps, addr, e)
  }

  lemma HistoryExtends(trace: Trace, start: nat, end: nat, addr: nat, list: History, more: History)
    requires start <= end < |trace| && IsHistory(trace, start, end, addr, list)
    requires forall e :: e in more <==> Moved(end, trace[end].memOps, addr, e)
    ensures IsHistory(trace, start, end + 1, addr, list + more)
  {
    forall e | e in more ensures e.idx == end {
      assert Moved(end, trace[end].memOps, addr, e);
    }
    hide Moved;
    var all := list + more;
    forall i, j | 0 <= i <= j < |all| ensures all[i].idx <= all[j].idx {
      if i < |list| { assert list[i] in list; }
      if i >= |list| { assert all[i] in more; }
      if j >= |list| { assert all[j] in more; }
    }
  }

  /** Every byte history of a built shadow is in record order and holds exactly what was moved. */
  lemma {:induction false} HistoriesListed(trace: Trace, start: nat, end: nat, addr: nat)
    requires start <= end <= |trace|
    ensures IsHistory(trace, start, end, addr, Get(Range(trace, start, end).bytes, addr))
    decreases end
  {
    hide Range, AddOps, IsHistory, Moved, Get;
    if start == end {
      NothingMoved(trace, start, addr);
    } else {
      HistoriesListed(trace, start, end - 1, addr);
      RangeHistoryExtends(trace, start, end - 1, addr);
    }
  }

  lemma {:induction false} NothingMoved(trace: Trace, start: nat, addr: nat)
    requires start <= |trace|
    ensures IsHistory(trace, start, start, addr, Get(Range(trace, start, start).bytes, addr))
  {
    hide Moved;
  }

  lemma RangeHistoryExtends(trace: Trace, start: nat, end: nat, addr: nat)
    requires start <= end < |trace|
    requires IsHistory(trace, start, end, addr, Get(Range(trace, start, end).bytes, addr))
    ensures IsHistory(trace, start, end + 1, addr, Get(Range(trace, start, end + 1).bytes, addr))
  {
    var list, all := Get(Range(trace, start, end).bytes, addr), Get(Range(trace, start, end + 1).bytes, addr);
    OpsHistory(Range(trace, start, end), end, trace[end].memOps, addr);
    hide AddOps, IsHistory, Moved, Get;
    assert Range(trace, start, end + 1) == AddOps(Range(trace, start, end), end, trace[end].memOps);
    HistoryExtends(trace, start, end, addr, list, all[|list|..]);
    assert all == list + all[|list|..];
  }

  // ---------- the oracle against replaying memory ----------

  type Memory = map<nat, ByteEvent>

  /** A memory overwritten event by event; only events that `keep` accepts have an effect. */
  function Overwrite(mem: Memory, entries: seq<(nat, ByteEvent)>, keep: ByteEvent -> bool): Memory {
    if |entries| == 0 then mem
    else
      var (addr, e) := entries[|entries| - 1];
      var before := Overwrite(mem, entries[..|entries| - 1], keep);
      if keep(e) then before[addr := e] else before
  }

  function ReplayOps(mem: Memory, i: nat, ops: seq<MemOp>, keep: ByteEvent -> bool): Memory {
    if |ops| == 0 then mem
    else Overwrite(ReplayOps(mem, i, ops[..|ops| - 1], keep), OpEntries(i, ops[|ops| - 1]), keep)
  }

  /** Memory after replaying the records of [start, end) over nothing. */
  function Replay(trace: Trace, start: nat, end: nat, keep: ByteEvent -> bool): Memory
    requires start <= end <= |trace|
    decreases end
  {
    if start == end then map[]
    else ReplayOps(Replay(trace, start, end - 1, keep), end - 1, trace[end - 1].memOps, keep)
  }

  function At(mem: Memory, addr: nat): Option<ByteEvent> { if addr in mem then Some(mem[addr]) else None }

  lemma {:induction false} OverwriteIsLast(mem: Memory, list: History, entries: seq<(nat, ByteEvent)>,
      keep: ByteEvent -> bool, addr: nat)
    requires Last(list, keep) == At(mem, addr)
    ensures Last(list + Values(entries, addr), keep) == At(Overwrite(mem, entries, keep), addr)
  {
    if |entries| == 0 {
      assert list + [] == list;
    } else {
      var front := entries[..|entries| - 1];
      var (x, e) := entries[|entries| - 1];
      OverwriteIsLast(mem, list, front, keep, addr);
      var before := list + Values(front, addr);
      if x == addr {
        assert list + Values(entries, addr) == before + [e];
        assert (before + [e])[..|before|] == before;
      } else {
        assert list + Values(entries, addr) == before;
      }
    }
  }

  lemma {:induction false} ReplayOpsIsLast(mem: Memory, x: Shadow, i: nat, ops: seq<MemOp>, keep: ByteEvent -> bool,
      addr: nat)
    requires Last(Get(x.bytes, addr), keep) == At(mem, addr)
    ensures Last(Get(AddOps(x, i, ops).bytes, addr), keep) == At(ReplayOps(mem, i, ops, keep), addr)
  {
    hide AddOp, Overwrite, OpEntries, Values, Last;
    if |ops| > 0 {
      var front, op := ops[..|ops| - 1], ops[|ops| - 1];
      ReplayOpsIsLast(mem, x, i, front, keep, addr);
      AddOpHistory(AddOps(x, i, front), i, op, addr);
      OverwriteIsLast(ReplayOps(mem, i, front, keep), Get(AddOps(x, i, front).bytes, addr), OpEntries(i, op), keep,
        addr);
    }
  }

  lemma {:induction false} ReplayIsLast(trace: Trace, start: nat, end: nat, keep: ByteEvent -> bool, addr: nat)
    requires start <= end <= |trace|
    ensures Last(Get(Range(trace, start, end).bytes, addr), keep) == At(Replay(trace, start, end, keep), addr)
    decreases end
  {
    hide AddOps, ReplayOps;
    if start < end {
      var i := end - 1;
      ReplayIsLast(trace, start, i, keep, addr);
      ReplayOpsIsLast(Replay(trace, start, i, keep), Range(trace, start, i), i, trace[i].memOps, keep, addr);
    }
  }

  lemma {:induction false} LastOfPrepend(a: History, b: History, p: ByteEvent -> bool)
    requires forall e :: e in a ==> !p(e)
    ensures Last(a + b, p) == Last(b, p)
  {
    if |b| == 0 {
      assert a + b == a;
      forall k | 0 <= k < |a| ensures !p(a[k]) { assert a[k] in a; }
      LastIsNone(a, p);
    } else {
      LastOfPrepend(a, b[..|b| - 1], p);
      assert (a + b)[..|a + b| - 1] == a + b[..|b| - 1];
    }
  }

  lemma {:induction false} LastOfAppend(a: History, b: History, p: ByteEvent -> bool)
    requires forall e :: e in b ==> !p(e)
    ensures Last(a + b, p) == Last(a, p)
  {
    if |b| == 0 {
      assert a + b == a;
    } else {
      var front := b[..|b| - 1];
      assert forall e :: e in front ==> e in b;
      LastOfAppend(a, front, p);
      assert (a + b)[..|a + b| - 1] == a + front;
      assert b[|b| - 1] in b;
    }
  }

  lemma {:induction false} ThreeRanges(trace: Trace, start: nat, end: nat, addr: nat)
    requires start <= end <= |trace|
    ensures Get(Range(trace, 0, |trace|).bytes, addr) == Get(Range(trace, 0, start).bytes, addr)
      + Get(Range(trace, start, end).bytes, addr) + Get(Range(trace, end, |trace|).bytes, addr)
  {
    ShadowsMerge(trace, 0, start, end);
    ShadowsMerge(trace, 0, end, |trace|);
    hide Range;
  }

  /** Cutting the whole history to a window is replaying the records of the window. */
  lemma {:induction false} CutIsReplay(trace: Trace, start: nat, end: nat, p: ByteEvent -> bool,
      keep: ByteEvent -> bool, addr: nat)
    requires start <= end <= |trace|
    requires forall e: ByteEvent :: p(e) <==> start <= e.idx < end && keep(e)
    ensures Last(Get(Range(trace, 0, |trace|).bytes, addr), p) == At(Replay(trace, start, end, keep), addr)
  {
    var a, b := Get(Range(trace, 0, start).bytes, addr), Get(Range(trace, start, end).bytes, addr);
    var c := Get(Range(trace, end, |trace|).bytes, addr);
    ThreeRanges(trace, start, end, addr);
    HistoriesListed(trace, 0, start, addr);
    HistoriesListed(trace, start, end, addr);
    HistoriesListed(trace, end, |trace|, addr);
    ReplayIsLast(trace, start, end, keep, addr);
    hide Range, Replay, Moved, Sorted, Last, Get;
    LastOfAppend(a + b, c, p);
    LastOfPrepend(a, b, p);
    forall k | 0 <= k < |b| ensures p(b[k]) == keep(b[k]) { assert b[k] in b; }
    LastSame(b, p, keep);
  }

  const ANYTHING: ByteEvent -> bool := e => true

  const STORES: ByteEvent -> bool := (e: ByteEvent) => e.IsWrite()

  lemma {:induction false} HistoryBelow(trace: Trace, addr: nat, k: nat)
    requires k < |Get(Range(trace, 0, |trace|).bytes, addr)|
    ensures Get(Range(trace, 0, |trace|).bytes, addr)[k].idx < |trace|
  {
    HistoriesListed(trace, 0, |trace|, addr);
    hide Range, Moved, Sorted;
    assert Get(Range(trace, 0, |trace|).bytes, addr)[k] in Get(Range(trace, 0, |trace|).bytes, addr);
  }

  /** A built history cut by a window and a kind is memory after replaying the records of the window, by that kind. */
  lemma {:induction false} BuiltCutIsReplay(trace: Trace, addr: nat, start: nat, before: nat, p: ByteEvent -> bool,
      keep: ByteEvent -> bool)
    requires forall e: ByteEvent :: p(e) <==> start <= e.idx < before && keep(e)
    ensures var end := Min(before, |trace|);
      Last(Get(Range(trace, 0, |trace|).bytes, addr), p) == At(Replay(trace, Min(start, end), end, keep), addr)
  {
    var end, evs := Min(before, |trace|), Get(Range(trace, 0, |trace|).bytes, addr);
    var first := Min(start, end);
    var q := (e: ByteEvent) => first <= e.idx < end && keep(e);
    CutIsReplay(trace, first, end, q, keep, addr);
    hide Range, Replay, Get;
    forall k | 0 <= k < |evs| ensures p(evs[k]) == q(evs[k]) { HistoryBelow(trace, addr, k); }
    LastSame(evs, p, q);
  }

  /**
   * Both oracles, searched in a built history, give what replaying the trace record by record leaves at the
   * address: `ByteAt` all accesses up to `t`, over the snapshot; `InputByte` the stores of the window from `start`
   * to below `t`, over the snapshot if the window starts at the beginning, else over nothing.
   */
  lemma {:induction false} OraclesAreReplay(trace: Trace, addr: nat, snap: Option<nat>, t: nat, start: nat)
    ensures var evs := Get(Range(trace, 0, |trace|).bytes, addr);
      var end := Min(t, |trace|);
      var seen := At(Replay(trace, 0, Min(t + 1, |trace|), ANYTHING), addr);
      var stored := At(Replay(trace, Min(start, end), end, STORES), addr);
      && ByteAt(evs, snap, t) == (
           if seen.Some? then Answer(Some(seen.value.byte), Observed(seen.value.kind), Some(seen.value.idx))
           else if snap.Some? then Answer(snap, Snapshot, Some(0))
           else Answer(None, Unknown, None))
      && InputByte(evs, snap, t, start) == (
           if stored.Some? then Answer(Some(stored.value.byte), Observed(stored.value.kind), Some(stored.value.idx))
           else if start == 0 && snap.Some? then Answer(snap, Snapshot, None)
           else Answer(None, Unknown, None))
  {
    BuiltCutIsReplay(trace, addr, 0, t + 1, Until(t), ANYTHING);
    BuiltCutIsReplay(trace, addr, start, t, WritesIn(start, t), STORES);
    hide Range, Replay, Get, Last;
  }
}
