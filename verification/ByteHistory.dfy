/** The history of one byte address, and what it says about the byte's value at a time. */
module ByteHistory {
  import opened Wrappers

  datatype EventKind = Read | Write | External

  datatype ByteEvent = ByteEvent(idx: nat, byte: nat, kind: EventKind) {
    predicate IsWrite() { kind != Read }
  }

  type History = seq<ByteEvent>

  /** Events stand in trace order; several may share a record. */
  ghost predicate Sorted(evs: History) {
    forall i, j :: 0 <= i <= j < |evs| ==> evs[i].idx <= evs[j].idx
  }

  /** The latest event satisfying `p`, found by looking at all of them. */
  ghost function Last(evs: History, p: ByteEvent -> bool): Option<ByteEvent> {
    if |evs| == 0 then None
    else if p(evs[|evs| - 1]) then Some(evs[|evs| - 1])
    else Last(evs[..|evs| - 1], p)
  }

  function Until(t: nat): ByteEvent -> bool { (e: ByteEvent) => e.idx <= t }

  /** Stores and external writes in [start, before). */
  function WritesIn(start: nat, before: nat): ByteEvent -> bool {
    (e: ByteEvent) => e.IsWrite() && start <= e.idx < before
  }

  /** Where a value comes from: an event, the initial snapshot, or nowhere. */
  datatype Source = Observed(kind: EventKind) | Snapshot | Unknown

  datatype Answer = Answer(value: Option<nat>, source: Source, idx: Option<nat>)

  /** The byte as the trace last saw it at or before `t`, loads included. */
  ghost function ByteAt(evs: History, snap: Option<nat>, t: nat): Answer {
    match Last(evs, Until(t))
    case Some(e) => Answer(Some(e.byte), Observed(e.kind), Some(e.idx))
    case None => if snap.Some? then Answer(snap, Snapshot, Some(0)) else Answer(None, Unknown, None)
  }

  /** The byte that stores alone account for in [start, before); the snapshot counts only from the beginning. */
  ghost function InputByte(evs: History, snap: Option<nat>, before: nat, start: nat): Answer {
    match Last(evs, WritesIn(start, before))
    case Some(e) => Answer(Some(e.byte), Observed(e.kind), Some(e.idx))
    case None => if start == 0 && snap.Some? then Answer(snap, Snapshot, None) else Answer(None, Unknown, None)
  }

  ghost function LatestWrite(evs: History, before: nat): Option<nat> {
    match Last(evs, WritesIn(0, before))
    case Some(e) => Some(e.idx)
    case None => None
  }

  datatype Gap = Gap(prevWriteIdx: Option<nat>, prevWriteByte: Option<nat>, firstObservingReadIdx: nat,
    observedByte: nat)

  /** What a load just before `before` should see: the last write, or the snapshot, or nothing. */
  ghost function Baseline(evs: History, snap: Option<nat>, before: nat): Option<nat> {
    InputByte(evs, snap, before, 0).value
  }

  /** A load before `before`, later in the list than every write before `before`, that sees something else. */
  ghost predicate Disagrees(evs: History, snap: Option<nat>, before: nat, j: nat) {
    && j < |evs| && evs[j].idx < before && evs[j].kind == Read
    && (forall k :: j < k < |evs| && evs[k].idx < before ==> !evs[k].IsWrite())
    && Some(evs[j].byte) != Baseline(evs, snap, before)
  }

  /**
   * A gap names the first disagreeing load and what it was held against; there is one exactly if some load
   * disagrees.
   */
  ghost predicate IsGap(evs: History, snap: Option<nat>, before: nat, gap: Option<Gap>) {
    match gap
    case None => forall j: nat :: !Disagrees(evs, snap, before, j)
    case Some(g) =>
      && (exists j: nat ::
            Disagrees(evs, snap, before, j) && g.firstObservingReadIdx == evs[j].idx && g.observedByte == evs[j].byte
            && forall k :: 0 <= k < j ==> !Disagrees(evs, snap, before, k))
      && g.prevWriteByte == Baseline(evs, snap, before)
      && g.prevWriteIdx == (match Last(evs, WritesIn(0, before))
                            case Some(w) => Some(w.idx)
                            case None => if snap.Some? then Some(0) else None)
  }

  // ---------- looking at all events against looking where order allows ----------

  /** The first `p` events are the ones below `x`. */
  ghost predicate Splits(evs: History, x: nat, p: nat) {
    && p <= |evs|
    && (forall k :: 0 <= k < p ==> evs[k].idx < x)
    && (forall k :: p <= k < |evs| ==> evs[k].idx >= x)
  }

  lemma {:induction false} LastMeans(evs: History, p: ByteEvent -> bool)
    ensures match Last(evs, p)
      case Some(e) => exists j :: 0 <= j < |evs| && evs[j] == e && p(e) && forall k :: j < k < |evs| ==> !p(evs[k])
      case None => forall k :: 0 <= k < |evs| ==> !p(evs[k])
  {
    if |evs| > 0 {
      var front := evs[..|evs| - 1];
      LastMeans(front, p);
      assert forall k :: 0 <= k < |front| ==> front[k] == evs[k];
    }
  }

  /** The latest match is pinned by its position. */
  lemma {:induction false} LastIs(evs: History, p: ByteEvent -> bool, j: nat)
    requires j < |evs| && p(evs[j]) && forall k :: j < k < |evs| ==> !p(evs[k])
    ensures Last(evs, p) == Some(evs[j])
  {
    if j < |evs| - 1 { LastIs(evs[..|evs| - 1], p, j); }
  }

  lemma {:induction false} LastIsNone(evs: History, p: ByteEvent -> bool)
    requires forall k :: 0 <= k < |evs| ==> !p(evs[k])
    ensures Last(evs, p) == None
  {
    if |evs| > 0 { LastIsNone(evs[..|evs| - 1], p); }
  }

  lemma {:induction false} LastSame(evs: History, p: ByteEvent -> bool, q: ByteEvent -> bool)
    requires forall k :: 0 <= k < |evs| ==> p(evs[k]) == q(evs[k])
    ensures Last(evs, p) == Last(evs, q)
  {
    if |evs| > 0 { LastSame(evs[..|evs| - 1], p, q); }
  }

  // ---------- results about the oracle ----------

  /**
   * Without a gap, the load-inclusive oracle just before `before` and the store-only oracle agree on the byte.
   */
  lemma NoGapOraclesAgree(evs: History, snap: Option<nat>, before: nat)
    requires Sorted(evs) && before >= 1 && IsGap(evs, snap, before, None)
    ensures ByteAt(evs, snap, before - 1).value == InputByte(evs, snap, before, 0).value
  {
    LastMeans(evs, Until(before - 1));
    LastMeans(evs, WritesIn(0, before));
    match Last(evs, Until(before - 1))
    case None =>
      LastIsNone(evs, WritesIn(0, before));
    case Some(e) =>
      var j :| 0 <= j < |evs| && evs[j] == e && forall k :: j < k < |evs| ==> !Until(before - 1)(evs[k]);
      assert forall k :: j < k < |evs| ==> evs[k].idx >= before by {
        forall k | j < k < |evs| ensures evs[k].idx >= before { assert !Until(before - 1)(evs[k]); }
      }
      if e.IsWrite() {
        LastIs(evs, WritesIn(0, before), j);
      } else {
        assert !Disagrees(evs, snap, before, j);
      }
  }

  /** The history with its loads deleted. */
  function WithoutReads(evs: History): History {
    if |evs| == 0 then []
    else WithoutReads(evs[..|evs| - 1]) + (if evs[|evs| - 1].IsWrite() then [evs[|evs| - 1]] else [])
  }

  lemma {:induction false} LastWithoutReads(evs: History, p: ByteEvent -> bool)
    requires forall e :: p(e) ==> e.IsWrite()
    ensures Last(WithoutReads(evs), p) == Last(evs, p)
  {
    if |evs| > 0 {
      var front, e := evs[..|evs| - 1], evs[|evs| - 1];
      LastWithoutReads(front, p);
      assert p(e) ==> e.IsWrite();
      if e.IsWrite() {
        assert (WithoutReads(front) + [e])[..|WithoutReads(front)|] == WithoutReads(front);
      } else {
        assert WithoutReads(front) + [] == WithoutReads(front);
      }
    }
  }

  /** Loads never influence the store-only oracle. */
  lemma {:induction false} ReadsNeverCount(evs: History, snap: Option<nat>, before: nat, start: nat)
    ensures InputByte(WithoutReads(evs), snap, before, start) == InputByte(evs, snap, before, start)
    ensures LatestWrite(WithoutReads(evs), before) == LatestWrite(evs, before)
  {
    LastWithoutReads(evs, WritesIn(start, before));
    LastWithoutReads(evs, WritesIn(0, before));
  }
}
