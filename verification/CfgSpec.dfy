/** Blocks of a trace, said about the trace alone. */
module CfgSpec {
  import opened TraceModel
  import opened EdgeCounts
  import opened MapSums
  import Postings
  import IndexSpec

  /** The first PC, and every PC that directly follows a branch. */
  ghost predicate IsStart(trace: Trace, pc: nat) {
    |trace| > 0 && (pc == trace[0].pc || exists i: nat :: i + 1 < |trace| && trace[i].isBranch && trace[i + 1].pc == pc)
  }

  ghost predicate StartsAt(trace: Trace, i: nat) { i < |trace| && IsStart(trace, trace[i].pc) }

  /** The start PC of the block record `i` runs in. */
  ghost function Home(trace: Trace, i: nat): nat
    requires i < |trace|
  {
    if i == 0 || StartsAt(trace, i) then trace[i].pc else Home(trace, i - 1)
  }

  lemma BranchEndsBlock(trace: Trace, i: nat)
    requires i + 1 < |trace|
    ensures trace[i].isBranch ==> StartsAt(trace, i + 1)
  {}

  /** It is the PC of the latest record at or before `i` at a start; no branch lies between. */
  lemma HomeMeans(trace: Trace, i: nat) returns (j: nat)
    requires i < |trace|
    ensures j <= i && Home(trace, i) == trace[j].pc && StartsAt(trace, j)
    ensures forall k :: j < k <= i ==> !StartsAt(trace, k)
    ensures forall k :: j <= k < i ==> !trace[k].isBranch
  {
    if i == 0 || StartsAt(trace, i) {
      j := i;
    } else {
      j := HomeMeans(trace, i - 1);
      BranchEndsBlock(trace, i - 1);
    }
  }

  /** Block starts waiting for a return after `i` records. */
  ghost function Stack(trace: Trace, i: nat): seq<nat>
    requires i <= |trace|
  {
    if i == 0 then []
    else
      var before, rec := Stack(trace, i - 1), trace[i - 1];
      if !rec.isBranch then before
      else if rec.isCall then before + [Home(trace, i - 1)]
      else if rec.isRet && |before| > 0 then before[..|before| - 1]
      else before
  }

  /** An entry of the stack is the block of a call whose frame has stayed open since. */
  lemma StackEntryIsOpenCall(trace: Trace, i: nat, p: nat) returns (j: nat)
    requires i <= |trace| && p < |Stack(trace, i)|
    ensures j < i && trace[j].isBranch && trace[j].isCall && Stack(trace, i)[p] == Home(trace, j)
    ensures |Stack(trace, j)| == p && forall k :: j < k <= i ==> |Stack(trace, k)| > p
  {
    var before := Stack(trace, i - 1);
    if p < |before| {
      j := StackEntryIsOpenCall(trace, i - 1, p);
    } else {
      j := i - 1;
    }
  }

  // ---------- observed edges ----------

  ghost predicate FallsInto(trace: Trace, i: nat) {
    0 < i < |trace| && StartsAt(trace, i) && !trace[i - 1].isBranch && trace[i - 1].pc + 4 == trace[i].pc
  }

  ghost predicate ReturnsTo(trace: Trace, i: nat) {
    i + 1 < |trace| && trace[i].isBranch && !trace[i].isCall && trace[i].isRet && |Stack(trace, i)| > 0
  }

  ghost predicate BranchesOn(trace: Trace, i: nat) { i + 1 < |trace| && trace[i].isBranch }

  function KindOf(mnemonic: string): EdgeKind { if mnemonic == "ret" then Ret else Direct(mnemonic) }

  ghost function FallSeen(trace: Trace, i: nat): seq<Seen> {
    if FallsInto(trace, i) then [Seen((Home(trace, i - 1), trace[i].pc), Fall)] else []
  }

  ghost function ReturnSeen(trace: Trace, i: nat): seq<Seen> {
    if ReturnsTo(trace, i) then [Seen((Stack(trace, i)[|Stack(trace, i)| - 1], trace[i + 1].pc), CallReturn)] else []
  }

  ghost function BranchSeen(trace: Trace, i: nat): seq<Seen> {
    if BranchesOn(trace, i) then [Seen((Home(trace, i), trace[i + 1].pc), KindOf(trace[i].mnemonic))] else []
  }

  /** Everything observed at the first `i` records. */
  ghost function Observed(trace: Trace, i: nat): seq<Seen>
    requires i <= |trace|
  {
    if i == 0 then []
    else Observed(trace, i - 1) + FallSeen(trace, i - 1) + ReturnSeen(trace, i - 1) + BranchSeen(trace, i - 1)
  }

  ghost function Branching(trace: Trace): nat -> bool { (i: nat) => BranchesOn(trace, i) }

  ghost function Falling(trace: Trace): nat -> bool { (i: nat) => FallsInto(trace, i) }

  ghost function Returning(trace: Trace): nat -> bool { (i: nat) => ReturnsTo(trace, i) }

  ghost function Count(p: nat -> bool, n: nat): nat {
    if n == 0 then 0 else Count(p, n - 1) + (if p(n - 1) then 1 else 0)
  }

  lemma SeenLengths(trace: Trace, i: nat)
    ensures |FallSeen(trace, i)| == if FallsInto(trace, i) then 1 else 0
    ensures |ReturnSeen(trace, i)| == if ReturnsTo(trace, i) then 1 else 0
    ensures |BranchSeen(trace, i)| == if BranchesOn(trace, i) then 1 else 0
  {}

  lemma {:induction false} ObservedCount(trace: Trace, i: nat)
    requires i <= |trace|
    ensures |Observed(trace, i)| == Count(Branching(trace), i) + Count(Falling(trace), i)
                                    + Count(Returning(trace), i)
  {
    if i > 0 {
      ObservedCount(trace, i - 1);
      SeenLengths(trace, i - 1);
      hide BranchesOn, FallsInto, ReturnsTo, BranchSeen, FallSeen, ReturnSeen;
    }
  }

  /**
   * The edge counts add up to: branches with a successor, falls into a block start, and returns with a successor
   * that closed a call.
   */
  lemma {:induction false} EdgeCountsConserved(trace: Trace)
    ensures var edges := AddAll(map[], Observed(trace, |trace|));
      var n := |trace|;
      Total(Counts(edges), edges.Keys) == Count(Branching(trace), n) + Count(Falling(trace), n)
                                  + Count(Returning(trace), n)
  {
    CountsAddUp(Observed(trace, |trace|));
    ObservedCount(trace, |trace|);
  }

  // ---------- nodes ----------

  /** Some record runs in the block. */
  ghost predicate IsHome(trace: Trace, pc: nat) { exists k: nat :: k < |trace| && Home(trace, k) == pc }

  /** Blocks and block starts are the same PCs. */
  lemma HomesAreStarts(trace: Trace, pc: nat)
    ensures IsHome(trace, pc) <==> IsStart(trace, pc)
  {
    if IsHome(trace, pc) {
      var k: nat :| k < |trace| && Home(trace, k) == pc;
      var j := HomeMeans(trace, k);
    }
    if IsStart(trace, pc) {
      if pc == trace[0].pc {
        assert Home(trace, 0) == pc;
      } else {
        var i: nat :| i + 1 < |trace| && trace[i].isBranch && trace[i + 1].pc == pc;
        assert Home(trace, i + 1) == pc;
      }
    }
  }

  /** Both ends of everything observed are block starts, so no edge lacks a node. */
  lemma {:induction false} EndsAreStarts(trace: Trace, i: nat, seen: Seen)
    requires i <= |trace| && seen in Observed(trace, i)
    ensures IsStart(trace, seen.ends.0) && IsStart(trace, seen.ends.1)
  {
    if seen in Observed(trace, i - 1) {
      EndsAreStarts(trace, i - 1, seen);
    } else if seen in FallSeen(trace, i - 1) {
      var j := HomeMeans(trace, i - 2);
    } else if seen in ReturnSeen(trace, i - 1) {
      var j := StackEntryIsOpenCall(trace, i - 1, |Stack(trace, i - 1)| - 1);
      var h := HomeMeans(trace, j);
    } else {
      var j := HomeMeans(trace, i - 1);
    }
  }

  // ---------- block ends ----------

  /**
   * Records whose PC enters the maximum that becomes a block's end: all but a start record the block
   * continues past.
   */
  ghost predicate Settled(trace: Trace, k: nat) {
    k < |trace| && (!StartsAt(trace, k) || k + 1 == |trace| || StartsAt(trace, k + 1))
  }

  ghost function Settling(trace: Trace): nat -> bool { (k: nat) => Settled(trace, k) }

  /** Those of them entered after `i` records: a start that is not a branch waits for what follows. */
  ghost predicate Entered(trace: Trace, i: nat, k: nat) {
    k < i && Settled(trace, k) && (k + 1 == i ==> !StartsAt(trace, k) || trace[k].isBranch)
  }

  ghost predicate Peak(trace: Trace, p: nat -> bool, start: nat, end: nat) {
    && (exists k: nat :: k < |trace| && p(k) && Home(trace, k) == start && trace[k].pc == end)
    && (forall k: nat :: k < |trace| && p(k) && Home(trace, k) == start ==> trace[k].pc <= end)
  }

  /** Per block with a record that `p` holds of, the greatest PC of such records. */
  ghost predicate Peaks(trace: Trace, p: nat -> bool, meta: map<nat, nat>) {
    && (forall start :: start in meta ==> Peak(trace, p, start, meta[start]))
    && (forall k: nat :: k < |trace| && p(k) ==> Home(trace, k) in meta)
  }

  function Raise(meta: map<nat, nat>, start: nat, pc: nat): map<nat, nat> {
    meta[start := if start in meta && meta[start] >= pc then meta[start] else pc]
  }

  lemma {:induction false} RaisePeaks(trace: Trace, p: nat -> bool, q: nat -> bool, meta: map<nat, nat>, k: nat)
    requires Peaks(trace, p, meta) && k < |trace|
    requires forall j: nat :: q(j) <==> p(j) || j == k
    ensures Peaks(trace, q, Raise(meta, Home(trace, k), trace[k].pc))
  {}

  lemma PeaksSame(trace: Trace, p: nat -> bool, q: nat -> bool, meta: map<nat, nat>)
    requires Peaks(trace, p, meta) && forall j: nat :: j < |trace| ==> (q(j) <==> p(j))
    ensures Peaks(trace, q, meta)
  {}

  lemma EveryBlockSettles(trace: Trace, k: nat) returns (j: nat)
    requires k < |trace|
    ensures k <= j && Settled(trace, j) && Home(trace, j) == Home(trace, k)
    decreases |trace| - k
  {
    if k + 1 == |trace| || StartsAt(trace, k + 1) {
      j := k;
    } else {
      j := EveryBlockSettles(trace, k + 1);
    }
  }

  /** Every record of the block runs at or below `end`. */
  ghost predicate Covers(trace: Trace, start: nat, end: nat) {
    forall k: nat :: k < |trace| && Home(trace, k) == start ==> trace[k].pc <= end
  }

  /** Some record that enters the maximum runs at or above the block's start. */
  ghost predicate ReachesStart(trace: Trace, start: nat) {
    exists k: nat :: k < |trace| && Settled(trace, k) && Home(trace, k) == start && trace[k].pc >= start
  }

  /**
   * A block's end is the greatest PC of all its records exactly when it is not below the start, and that is exactly
   * when some entered record runs at or above the start: only the start's own PC can be missing from the maximum.
   */
  lemma EndIsGreatestIff(trace: Trace, start: nat, end: nat)
    requires Peak(trace, Settling(trace), start, end)
    ensures Covers(trace, start, end) <==> ReachesStart(trace, start)
    ensures start <= end <==> ReachesStart(trace, start)
  {
    if ReachesStart(trace, start) {
      forall k: nat | k < |trace| && Home(trace, k) == start ensures trace[k].pc <= end {
        if !Settled(trace, k) { assert trace[k].pc == start; }
      }
    }
    if Covers(trace, start, end) || start <= end {
      var k: nat :| k < |trace| && Settled(trace, k) && Home(trace, k) == start && trace[k].pc == end;
      var j := HomeMeans(trace, k);
      assert Home(trace, j) == start;
    }
  }

  /** PCs only grow inside the block. */
  ghost predicate GrowsInBlock(trace: Trace, start: nat) {
    forall k: nat :: k + 1 < |trace| && !StartsAt(trace, k + 1) && Home(trace, k) == start ==>
      trace[k].pc < trace[k + 1].pc
  }

  lemma SettledAbove(trace: Trace, k: nat) returns (j: nat)
    requires k < |trace| && GrowsInBlock(trace, Home(trace, k))
    ensures k <= j && Settled(trace, j) && Home(trace, j) == Home(trace, k) && trace[j].pc >= trace[k].pc
    decreases |trace| - k
  {
    if k + 1 == |trace| || StartsAt(trace, k + 1) {
      j := k;
    } else {
      j := SettledAbove(trace, k + 1);
    }
  }

  /** Corollary: in straight-line code the end is the greatest PC. */
  lemma EndIsGreatest(trace: Trace, start: nat, end: nat)
    requires GrowsInBlock(trace, start) && Peak(trace, Settling(trace), start, end)
    ensures Covers(trace, start, end)
  {
    var k: nat :| k < |trace| && Settled(trace, k) && Home(trace, k) == start;
    var i := HomeMeans(trace, k);
    var j := SettledAbove(trace, i);
    EndIsGreatestIff(trace, start, end);
  }

  /** The last record of one run through a block. */
  ghost predicate Closes(trace: Trace, start: nat, k: nat) {
    k < |trace| && Home(trace, k) == start && (k + 1 == |trace| || StartsAt(trace, k + 1))
  }

  /** No run through the block passes a PC above the one where any run ends. */
  ghost predicate ClosesHighest(trace: Trace, start: nat) {
    forall j: nat, k: nat {:trigger Settled(trace, j), Closes(trace, start, k)} ::
      j < |trace| && Settled(trace, j) && Home(trace, j) == start && Closes(trace, start, k) ==>
        trace[j].pc <= trace[k].pc
  }

  /** The end is the PC of the last instruction of every run through the block exactly when every run ends highest. */
  lemma EndIsLastIff(trace: Trace, start: nat, end: nat)
    requires Peak(trace, Settling(trace), start, end)
    ensures (forall k: nat :: Closes(trace, start, k) ==> trace[k].pc == end) <==> ClosesHighest(trace, start)
  {
    hide Home, StartsAt;
    forall k: nat | Closes(trace, start, k) ensures Settled(trace, k) {}
    var top: nat :| top < |trace| && Settled(trace, top) && Home(trace, top) == start && trace[top].pc == end;
  }

  /**
   * Both can fail. Here record 1 continues the block at a smaller PC, and the start's own PC is never entered: the end
   * lies below the start.
   */
  lemma EndMayPrecedeStart()
    ensures var r0 := Rec(8, "nop", false, false, false, false, [], [], []);
      var trace := [r0, r0.(pc := 4)];
      Home(trace, 0) == 8 && Peak(trace, Settling(trace), 8, 4) && !Covers(trace, 8, 4)
  {
    var r0 := Rec(8, "nop", false, false, false, false, [], [], []);
    var trace := [r0, r0.(pc := 4)];
    assert !StartsAt(trace, 1) && Home(trace, 0) == 8;
  }

  /** And here the block runs up and back down: its last instruction is at 4, its end at 12. */
  lemma EndMayNotBeLast()
    ensures var r0 := Rec(8, "nop", false, false, false, false, [], [], []);
      var trace := [r0, r0.(pc := 12), r0.(pc := 4)];
      Closes(trace, 8, 2) && trace[2].pc == 4 && Peak(trace, Settling(trace), 8, 12)
  {
    var r0 := Rec(8, "nop", false, false, false, false, [], [], []);
    var trace := [r0, r0.(pc := 12), r0.(pc := 4)];
    assert StartsAt(trace, 0) && !StartsAt(trace, 1) && !StartsAt(trace, 2);
    assert Home(trace, 0) == 8;
    assert Home(trace, 1) == Home(trace, 0);
    assert Home(trace, 2) == Home(trace, 1);
    assert !Settled(trace, 0) && Settled(trace, 1) && Settled(trace, 2);
  }

  // ---------- executions ----------

  ghost function RunsOf(trace: Trace, pc: nat, n: nat): nat
    requires n <= |trace|
  {
    if n == 0 then 0 else RunsOf(trace, pc, n - 1) + (if trace[n - 1].pc == pc then 1 else 0)
  }

  /** A block is executed once for every entry its start has in the index. */
  lemma {:induction false} RunsAreIndexed(trace: Trace, pc: nat, n: nat)
    requires n <= |trace|
    ensures RunsOf(trace, pc, n) == |Postings.Get(IndexSpec.Range(trace, 0, n).pcToIdxs, pc)|
  {
    if n > 0 {
      RunsAreIndexed(trace, pc, n - 1);
      IndexSpec.RangeUnfolds(trace, 0, n);
      hide IndexSpec.Range, IndexSpec.AddOps, Postings.PushAll;
    }
  }
}
