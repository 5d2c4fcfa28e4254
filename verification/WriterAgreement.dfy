/** The dependency rows and the memory shadow name the same store as the last one to a byte. */
module WriterAgreement {
  import opened Wrappers
  import opened TraceModel
  import opened DependencySpec
  import opened ByteHistory
  import opened Postings
  import opened ShadowSpec

  /** Of every store with a base the bytes are known. */
  ghost predicate StoresKnown(trace: Trace) {
    forall i: nat, op :: i < |trace| && op in trace[i].memOps && op.base != "" && op.isWrite ==> op.raw.Some?
  }

  lemma StoresAsMoved(trace: Trace, i: nat, addr: nat)
    requires StoresKnown(trace) && i < |trace|
    ensures Stores(trace[i], addr) <==> exists e: ByteEvent :: e.kind == Write && Moved(i, trace[i].memOps, addr, e)
  {
    var ops := trace[i].memOps;
    if Stores(trace[i], addr) {
      var op :| op in ops && StoresTo(op, addr);
      var j :| 0 <= j < |ops| && ops[j] == op;
      var k: nat :| k < StoreLength(op) && WrappingAdd(op.addr, k) == addr;
      assert MovedBy(i, ops[j], addr, ByteEvent(i, op.raw.value[k], Write));
    }
    if e: ByteEvent :| e.kind == Write && Moved(i, ops, addr, e) {
      var j :| 0 <= j < |ops| && MovedBy(i, ops[j], addr, e);
      assert StoresTo(ops[j], addr) && ops[j] in ops;
    }
  }

  lemma {:induction false} NoneBefore(trace: Trace, i: nat, addr: nat)
    requires i <= |trace|
    ensures LastWriter(trace, i, addr) == None <==> forall j: nat :: j < i ==> !Stores(trace[j], addr)
  {
    hide Stores;
    if i > 0 { NoneBefore(trace, i - 1, addr); }
  }

  /** A record stores to the byte exactly if the byte's history holds a write of that record. */
  lemma {:induction false} StoresInHistory(trace: Trace, i: nat, addr: nat)
    requires StoresKnown(trace) && i < |trace|
    ensures Stores(trace[i], addr) <==>
      exists e :: e in Get(Range(trace, 0, |trace|).bytes, addr) && e.idx == i && e.IsWrite()
  {
    var evs := Get(Range(trace, 0, |trace|).bytes, addr);
    HistoriesListed(trace, 0, |trace|, addr);
    StoresAsMoved(trace, i, addr);
    hide Stores, Range, Get, Sorted, MovedBy;
    forall e | Moved(i, trace[i].memOps, addr, e) ensures e.idx == i && e.kind != External {
      MovedIs(i, trace[i].memOps, addr, e);
    }
    forall e | e in evs && e.idx == i ensures Moved(i, trace[i].memOps, addr, e) {}
  }

  lemma MovedIs(i: nat, ops: seq<MemOp>, addr: nat, e: ByteEvent)
    requires Moved(i, ops, addr, e)
    ensures e.idx == i && e.kind != External
  {}

  /**
   * Where all stored bytes are known, the last writer a row looks back to is the latest write of the byte's history.
   */
  lemma {:induction false} WritersAgree(trace: Trace, i: nat, addr: nat)
    requires StoresKnown(trace) && i <= |trace|
    ensures LastWriter(trace, i, addr) == LatestWrite(Get(Range(trace, 0, |trace|).bytes, addr), i)
  {
    var evs := Get(Range(trace, 0, |trace|).bytes, addr);
    HistoriesListed(trace, 0, |trace|, addr);
    LastMeans(evs, WritesIn(0, i));
    forall j: nat | j < i
      ensures Stores(trace[j], addr) <==> exists e :: e in evs && e.idx == j && e.IsWrite() {
      StoresInHistory(trace, j, addr);
    }
    hide Stores, Range, Get, Moved, Last;
    match Last(evs, WritesIn(0, i))
    case None =>
      forall e | e in evs ensures !WritesIn(0, i)(e) {}
      NoneBefore(trace, i, addr);
    case Some(e) =>
      var p :| 0 <= p < |evs| && evs[p] == e && WritesIn(0, i)(e)
        && forall k :: p < k < |evs| ==> !WritesIn(0, i)(evs[k]);
      forall j: nat | e.idx < j < i ensures !Stores(trace[j], addr) {
        forall k | 0 <= k < |evs| && evs[k].idx == j ensures !evs[k].IsWrite() {
          assert k > p;
          assert !WritesIn(0, i)(evs[k]);
        }
      }
      LastWriterMeans(trace, i, addr, e.idx);
  }
}
