/** Adding an external write to one byte's history, and what that changes. */
module ExternalWrite {
  import opened Wrappers
  import opened ByteHistory

  /** How many events lie below `x`. */
  ghost function Cut(evs: History, x: nat): (p: nat)
    ensures p <= |evs|
  {
    if |evs| == 0 then 0 else Cut(evs[..|evs| - 1], x) + (if evs[|evs| - 1].idx < x then 1 else 0)
  }

  lemma {:induction false} CutIs(evs: History, x: nat, p: nat)
    requires Splits(evs, x, p)
    ensures Cut(evs, x) == p
  {
    if |evs| > 0 { CutIs(evs[..|evs| - 1], x, if p == |evs| then p - 1 else p); }
  }

  lemma {:induction false} CutSplits(evs: History, x: nat)
    requires Sorted(evs)
    ensures Splits(evs, x, Cut(evs, x))
  {
    if |evs| > 0 {
      var front := evs[..|evs| - 1];
      CutSplits(front, x);
      var p := Cut(front, x);
      assert p < |front| ==> front[p].idx >= x && front[p].idx <= evs[|evs| - 1].idx;
    }
  }

  lemma {:induction false} CutGrows(evs: History, x: nat, y: nat)
    requires x <= y
    ensures Cut(evs, x) <= Cut(evs, y)
  {
    if |evs| > 0 { CutGrows(evs[..|evs| - 1], x, y); }
  }

  ghost predicate HasWriteAt(evs: History, idx: nat) {
    exists j :: 0 <= j < |evs| && evs[j].idx == idx && evs[j].IsWrite()
  }

  function External1(idx: nat, byte: nat): ByteEvent { ByteEvent(idx, byte, External) }

  /** The history with an external write after everything at or before `idx`, unless a write already stands at `idx`. */
  ghost function WithWrite(evs: History, idx: nat, byte: nat): History {
    if HasWriteAt(evs, idx) then evs
    else evs[..Cut(evs, idx + 1)] + [External1(idx, byte)] + evs[Cut(evs, idx + 1)..]
  }

  /** The byte of the first event after `idx`, if that event is a load. */
  ghost function PostRead(evs: History, idx: nat): Option<nat> {
    var p := Cut(evs, idx + 1);
    if p < |evs| && evs[p].kind == Read then Some(evs[p].byte) else None
  }

  // ---------- the new history ----------

  lemma WithWriteSorted(evs: History, idx: nat, byte: nat)
    requires Sorted(evs)
    ensures Sorted(WithWrite(evs, idx, byte))
  {
    CutSplits(evs, idx + 1);
  }

  /** An inserted event is the last one at or before any time from `idx` up to the next event. */
  lemma {:induction false} WithWriteLast(evs: History, idx: nat, byte: nat, p: ByteEvent -> bool)
    requires !HasWriteAt(evs, idx)
    requires p(External1(idx, byte)) && forall k :: Cut(evs, idx + 1) <= k < |evs| ==> !p(evs[k])
    ensures Last(WithWrite(evs, idx, byte), p) == Some(External1(idx, byte))
  {
    LastIs(WithWrite(evs, idx, byte), p, Cut(evs, idx + 1));
  }

  /** A search that does not accept `e`, or accepts the later `b[k]`, does not notice `e`. */
  lemma {:induction false} LastSkips(a: History, e: ByteEvent, b: History, p: ByteEvent -> bool, k: nat)
    requires !p(e) || (k < |b| && p(b[k]))
    ensures Last(a + [e] + b, p) == Last(a + b, p)
  {
    if |b| == 0 {
      assert a + [e] + b == a + [e] && a + b == a;
      assert (a + [e])[..|a|] == a;
    } else {
      var front, last := b[..|b| - 1], b[|b| - 1];
      assert a + [e] + b == (a + [e] + front) + [last] && a + b == (a + front) + [last];
      assert (a + [e] + b)[..|a| + |b|] == a + [e] + front && (a + b)[..|a| + |b| - 1] == a + front;
      if !p(last) { LastSkips(a, e, front, p, k); }
    }
  }

  lemma {:induction false} WithWriteUnseen(evs: History, idx: nat, byte: nat, p: ByteEvent -> bool, k: nat)
    requires !p(External1(idx, byte)) || (Cut(evs, idx + 1) <= k < |evs| && p(evs[k]))
    ensures Last(WithWrite(evs, idx, byte), p) == Last(evs, p)
  {
    hide Cut, HasWriteAt, Last;
    var cut := Cut(evs, idx + 1);
    if !HasWriteAt(evs, idx) {
      LastSkips(evs[..cut], External1(idx, byte), evs[cut..], p, if k >= cut then k - cut else 0);
      assert evs[..cut] + evs[cut..] == evs;
    }
  }

  /**
   * The load-inclusive oracle: unchanged before `idx` and from the next event on; in between it reads the new byte.
   */
  lemma {:induction false} ByteAtAfterWrite(evs: History, snap: Option<nat>, idx: nat, byte: nat, t: nat)
    requires Sorted(evs)
    ensures var cut := Cut(evs, idx + 1);
      ByteAt(WithWrite(evs, idx, byte), snap, t)
      == if HasWriteAt(evs, idx) || t < idx || (cut < |evs| && evs[cut].idx <= t) then ByteAt(evs, snap, t)
         else Answer(Some(byte), Observed(External), Some(idx))
  {
    var cut := Cut(evs, idx + 1);
    CutSplits(evs, idx + 1);
    if !HasWriteAt(evs, idx) {
      if t < idx {
        WithWriteUnseen(evs, idx, byte, Until(t), 0);
      } else if cut < |evs| && evs[cut].idx <= t {
        assert Until(t)(evs[cut]);
        WithWriteUnseen(evs, idx, byte, Until(t), cut);
      } else {
        forall k | cut <= k < |evs| ensures !Until(t)(evs[k]) { assert evs[cut].idx <= evs[k].idx; }
        WithWriteLast(evs, idx, byte, Until(t));
      }
    }
  }

  /** Some store from position `cut` on lies before `before`. */
  ghost predicate StoredAfter(evs: History, cut: nat, before: nat) {
    exists k: nat :: cut <= k < |evs| && evs[k].idx < before && evs[k].IsWrite()
  }

  /**
   * The store-only oracle: it changes only for windows that hold `idx`, and not once a later write in the
   * window stands after it.
   */
  lemma {:induction false} InputByteAfterWrite(evs: History, snap: Option<nat>, idx: nat, byte: nat, before: nat,
      start: nat)
    requires Sorted(evs)
    ensures InputByte(WithWrite(evs, idx, byte), snap, before, start)
      == if HasWriteAt(evs, idx) || !(start <= idx < before)
            || StoredAfter(evs, Cut(evs, idx + 1), before)
         then InputByte(evs, snap, before, start)
         else Answer(Some(byte), Observed(External), Some(idx))
  {
    var cut := Cut(evs, idx + 1);
    CutSplits(evs, idx + 1);
    hide Cut, HasWriteAt, WithWrite, InputByte, Sorted;
    if !HasWriteAt(evs, idx) {
      if start <= idx < before && StoredAfter(evs, cut, before) {
        var k: nat :| cut <= k < |evs| && evs[k].idx < before && evs[k].IsWrite();
        InputUnchanged(evs, snap, idx, byte, before, start, k);
      } else if start <= idx < before {
        InputShown(evs, snap, idx, byte, before, start);
      } else {
        InputUnchanged(evs, snap, idx, byte, before, start, 0);
      }
    } else {
      assert WithWrite(evs, idx, byte) == evs by { WithWriteKnown(evs, idx, byte); }
    }
  }

  lemma WithWriteKnown(evs: History, idx: nat, byte: nat)
    requires HasWriteAt(evs, idx)
    ensures WithWrite(evs, idx, byte) == evs
  {}

  lemma {:induction false} InputUnchanged(evs: History, snap: Option<nat>, idx: nat, byte: nat, before: nat,
      start: nat, k: nat)
    requires !(start <= idx < before) || (Cut(evs, idx + 1) <= k < |evs| && idx < evs[k].idx < before
      && evs[k].IsWrite())
    ensures InputByte(WithWrite(evs, idx, byte), snap, before, start) == InputByte(evs, snap, before, start)
  {
    hide Cut, WithWrite, Last;
    WithWriteUnseen(evs, idx, byte, WritesIn(start, before), k);
  }

  lemma {:induction false} InputShown(evs: History, snap: Option<nat>, idx: nat, byte: nat, before: nat, start: nat)
    requires !HasWriteAt(evs, idx) && start <= idx < before && !StoredAfter(evs, Cut(evs, idx + 1), before)
    ensures InputByte(WithWrite(evs, idx, byte), snap, before, start) == Answer(Some(byte), Observed(External),
      Some(idx))
  {
    hide Cut, HasWriteAt, WithWrite, Last;
    var p := WritesIn(start, before);
    forall k | Cut(evs, idx + 1) <= k < |evs| ensures !p(evs[k]) { assert !(evs[k].idx < before && evs[k].IsWrite()); }
    WithWriteLast(evs, idx, byte, p);
  }

  /** Loads and traced stores, in order. */
  ghost function Traced(evs: History): History {
    if |evs| == 0 then []
    else Traced(evs[..|evs| - 1]) + (if evs[|evs| - 1].kind != External then [evs[|evs| - 1]] else [])
  }

  lemma {:induction false} TracedAppend(a: History, b: History)
    ensures Traced(a + b) == Traced(a) + Traced(b)
  {
    if |b| == 0 {
      assert a + b == a;
      assert Traced(a) + [] == Traced(a);
    } else {
      TracedAppend(a, b[..|b| - 1]);
      assert (a + b)[..|a + b| - 1] == a + b[..|b| - 1];
    }
  }

  lemma WithWriteMembers(evs: History, idx: nat, byte: nat, e: ByteEvent)
    ensures e in WithWrite(evs, idx, byte) <==> e in evs || (e == External1(idx, byte) && !HasWriteAt(evs, idx))
  {}

  lemma {:induction false} WithWriteTraced(evs: History, idx: nat, byte: nat)
    ensures Traced(WithWrite(evs, idx, byte)) == Traced(evs)
  {
    if !HasWriteAt(evs, idx) {
      var cut := Cut(evs, idx + 1);
      TracedAppend(evs[..cut] + [External1(idx, byte)], evs[cut..]);
      TracedAppend(evs[..cut], [External1(idx, byte)]);
      TracedAppend(evs[..cut], evs[cut..]);
      assert evs[..cut] + evs[cut..] == evs;
      assert Traced([External1(idx, byte)]) == [];
      assert Traced(evs[..cut]) + [] == Traced(evs[..cut]);
    }
  }

  /** No external write is contradicted by a load directly after it. */
  ghost predicate Agrees(evs: History) {
    forall j :: 0 <= j < |evs| - 1 && evs[j].kind == External && evs[j + 1].kind == Read ==>
      evs[j].byte == evs[j + 1].byte
  }

  lemma WithWriteAgrees(evs: History, idx: nat, byte: nat)
    requires Agrees(evs) && PostRead(evs, idx) in {None, Some(byte)}
    ensures Agrees(WithWrite(evs, idx, byte))
  {}

  /**
   * A write confirmed by the load after it closes the gap there: no load up to and including that one
   * disagrees with the stores any more.
   */
  lemma {:induction false} ConfirmedWriteClosesGap(evs: History, snap: Option<nat>, idx: nat, byte: nat, before: nat)
    requires Sorted(evs) && !HasWriteAt(evs, idx) && PostRead(evs, idx) == Some(byte)
    requires idx < before && Splits(evs, before, Cut(evs, idx + 1) + 1)
    ensures IsGap(WithWrite(evs, idx, byte), snap, before, None)
  {
    var cut, new' := Cut(evs, idx + 1), WithWrite(evs, idx, byte);
    WithWriteLast(evs, idx, byte, WritesIn(0, before));
    hide Last, Cut, HasWriteAt;
    NothingDisagrees(evs[..cut], External1(idx, byte), evs[cut..], new', snap, before);
  }

  lemma NothingDisagrees(a: History, e: ByteEvent, b: History, evs: History, snap: Option<nat>, before: nat)
    requires evs == a + [e] + b && e.IsWrite() && e.idx < before && Baseline(evs, snap, before) == Some(e.byte)
    requires |b| > 0 && b[0].byte == e.byte && forall k :: 0 < k < |b| ==> b[k].idx >= before
    ensures IsGap(evs, snap, before, None)
  {
    hide Baseline;
    forall j: nat ensures !Disagrees(evs, snap, before, j) {
      if j < |a| {
        assert evs[|a|].IsWrite();
      } else if |a| < j < |evs| {
        assert evs[j] == b[j - |a| - 1];
      }
    }
  }
}
