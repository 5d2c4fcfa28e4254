/** What the edges of a block graph are, read off the records: where each starts and ends, how often, of what kind. */
module CfgEdges {
  import opened Wrappers
  import opened TraceModel
  import opened EdgeCounts
  import opened CfgSpec

  /** `j` is the latest record at or before `i` that runs at a block start. */
  ghost predicate RunsSince(trace: Trace, j: nat, i: nat) {
    && j <= i < |trace| && StartsAt(trace, j) && forall k :: j < k <= i ==> !StartsAt(trace, k)
  }

  /** The edge leaves the block that record `i` runs in. */
  ghost predicate Leaves(trace: Trace, i: nat, ends: Ends) {
    exists j: nat :: RunsSince(trace, j, i) && ends.0 == trace[j].pc
  }

  predicate IsCallRec(rec: Rec) { rec.isBranch && rec.isCall }

  predicate IsReturnRec(rec: Rec) { rec.isBranch && !rec.isCall && rec.isRet }

  /** Calls open after `i` records; a return with none open is ignored. */
  function OpenCalls(trace: Trace, i: nat): nat
    requires i <= |trace|
  {
    if i == 0 then 0
    else if IsCallRec(trace[i - 1]) then OpenCalls(trace, i - 1) + 1
    else if IsReturnRec(trace[i - 1]) && OpenCalls(trace, i - 1) > 0 then OpenCalls(trace, i - 1) - 1
    else OpenCalls(trace, i - 1)
  }

  /** Record `j` is the innermost call still open before record `i`. */
  ghost predicate CalledFrom(trace: Trace, j: nat, i: nat) {
    && j < i < |trace| && IsCallRec(trace[j]) && OpenCalls(trace, i) == OpenCalls(trace, j) + 1
    && forall k :: j < k <= i ==> OpenCalls(trace, k) > OpenCalls(trace, j)
  }

  /** A branch with a successor: from the block it ends to where it goes. */
  ghost predicate BranchEdge(trace: Trace, i: nat, ends: Ends) {
    i + 1 < |trace| && trace[i].isBranch && Leaves(trace, i, ends) && ends.1 == trace[i + 1].pc
  }

  /** A return with a successor: from the block of the call it returns from to where it goes. */
  ghost predicate ReturnEdge(trace: Trace, i: nat, ends: Ends) {
    && i + 1 < |trace| && IsReturnRec(trace[i]) && ends.1 == trace[i + 1].pc
    && exists c: nat :: CalledFrom(trace, c, i) && Leaves(trace, c, ends)
  }

  /** A start reached without a branch from the instruction before it: from the block left to the one entered. */
  ghost predicate FallEdge(trace: Trace, i: nat, ends: Ends) {
    && 0 < i < |trace| && StartsAt(trace, i) && !trace[i - 1].isBranch && trace[i].pc == trace[i - 1].pc + 4
    && Leaves(trace, i - 1, ends) && ends.1 == trace[i].pc
  }

  ghost predicate AnyEdge(trace: Trace, i: nat, ends: Ends) {
    FallEdge(trace, i, ends) || ReturnEdge(trace, i, ends) || BranchEdge(trace, i, ends)
  }

  ghost function Branches(trace: Trace, ends: Ends): nat -> bool { (i: nat) => BranchEdge(trace, i, ends) }

  ghost function Returns(trace: Trace, ends: Ends): nat -> bool { (i: nat) => ReturnEdge(trace, i, ends) }

  ghost function Falls(trace: Trace, ends: Ends): nat -> bool { (i: nat) => FallEdge(trace, i, ends) }

  /** How often records of [0, n) show the edge, each record by falling in, by returning and by branching. */
  ghost function Times(trace: Trace, ends: Ends, n: nat): nat {
    Count(Falls(trace, ends), n) + Count(Returns(trace, ends), n) + Count(Branches(trace, ends), n)
  }

  /** What the first record that shows the edge makes of it. */
  ghost predicate KindAt(trace: Trace, i: nat, ends: Ends, kind: EdgeKind)
    requires i < |trace|
  {
    kind == if FallEdge(trace, i, ends) then Fall
            else if ReturnEdge(trace, i, ends) then CallReturn
            else if trace[i].mnemonic == "ret" then Ret
            else Direct(trace[i].mnemonic)
  }

  /** An edge is there exactly if some record shows it; it carries how many do, and its kind is that of the first. */
  ghost predicate IsEdge(trace: Trace, edges: Edges, ends: Ends) {
    && (ends in edges <==> exists i: nat :: i < |trace| && AnyEdge(trace, i, ends))
    && (ends in edges ==>
          && edges[ends].count == Times(trace, ends, |trace|)
          && exists i: nat :: i < |trace| && AnyEdge(trace, i, ends) && KindAt(trace, i, ends, edges[ends].kind)
               && forall k: nat :: k < i ==> !AnyEdge(trace, k, ends))
  }

  // ---------- blocks and open calls, against what is carried along ----------

  lemma {:induction false} LeavesHome(trace: Trace, i: nat, ends: Ends)
    requires i < |trace|
    ensures Leaves(trace, i, ends) <==> ends.0 == Home(trace, i)
  {
    var j := HomeMeans(trace, i);
    assert RunsSince(trace, j, i);
    hide StartsAt, Home;
    forall j': nat | RunsSince(trace, j', i) ensures j' == j {}
  }

  lemma {:induction false} StackDepth(trace: Trace, i: nat)
    requires i <= |trace|
    ensures |Stack(trace, i)| == OpenCalls(trace, i)
  {
    if i > 0 { StackDepth(trace, i - 1); }
  }

  lemma CallerOf(trace: Trace, i: nat) returns (c: nat)
    requires i < |trace| && |Stack(trace, i)| > 0
    ensures CalledFrom(trace, c, i) && Home(trace, c) == Stack(trace, i)[|Stack(trace, i)| - 1]
  {
    c := StackEntryIsOpenCall(trace, i, |Stack(trace, i)| - 1);
    forall k: nat | k <= i ensures |Stack(trace, k)| == OpenCalls(trace, k) { StackDepth(trace, k); }
    hide Stack, Home, OpenCalls;
  }

  lemma {:induction false} NoCaller(trace: Trace, c: nat, i: nat)
    requires i < |trace| && CalledFrom(trace, c, i)
    ensures |Stack(trace, i)| > 0
  {
    StackDepth(trace, i);
    hide Stack, OpenCalls;
  }

  /** The top of the stack is the block of the innermost open call. */
  lemma {:induction false} TopIsCaller(trace: Trace, i: nat, ends: Ends)
    requires i < |trace|
    ensures (exists c: nat :: CalledFrom(trace, c, i) && Leaves(trace, c, ends))
      <==> |Stack(trace, i)| > 0 && ends.0 == Stack(trace, i)[|Stack(trace, i)| - 1]
  {
    hide Stack, Home, Leaves;
    if |Stack(trace, i)| > 0 {
      var c := CallerOf(trace, i);
      LeavesHome(trace, c, ends);
      forall c': nat | CalledFrom(trace, c', i) ensures c' == c { OneCaller(trace, c, c', i); }
      hide CalledFrom;
    } else {
      forall c: nat ensures !CalledFrom(trace, c, i) {
        if CalledFrom(trace, c, i) { NoCaller(trace, c, i); }
      }
    }
  }

  lemma OneCaller(trace: Trace, c: nat, c': nat, i: nat)
    requires CalledFrom(trace, c, i) && CalledFrom(trace, c', i)
    ensures c == c'
  {}

  // ---------- one record ----------

  lemma {:induction false} OneFall(trace: Trace, i: nat, ends: Ends)
    requires i < |trace|
    ensures FallEdge(trace, i, ends) <==> FallsInto(trace, i) && ends == (Home(trace, i - 1), trace[i].pc)
  {
    hide Leaves, StartsAt, Home;
    if i > 0 { LeavesHome(trace, i - 1, ends); }
  }

  lemma {:induction false} OneReturn(trace: Trace, i: nat, ends: Ends)
    requires i < |trace|
    ensures ReturnEdge(trace, i, ends)
      <==> ReturnsTo(trace, i) && ends == (Stack(trace, i)[|Stack(trace, i)| - 1], trace[i + 1].pc)
  {
    TopIsCaller(trace, i, ends);
    hide Leaves, CalledFrom, Stack;
  }

  lemma {:induction false} OneBranch(trace: Trace, i: nat, ends: Ends)
    requires i < |trace|
    ensures BranchEdge(trace, i, ends) <==> BranchesOn(trace, i) && ends == (Home(trace, i), trace[i + 1].pc)
  {
    LeavesHome(trace, i, ends);
    hide Leaves, Home;
  }

  ghost function SeenAt(trace: Trace, i: nat): seq<Seen> {
    FallSeen(trace, i) + ReturnSeen(trace, i) + BranchSeen(trace, i)
  }

  ghost function AtMostOne(seen: seq<Seen>, ends: Ends): (kind: Option<EdgeKind>) {
    if |seen| == 1 && seen[0].ends == ends then Some(seen[0].kind) else None
  }

  lemma {:induction false} Single(seen: seq<Seen>, ends: Ends)
    requires |seen| <= 1
    ensures CountOf(seen, ends) == if AtMostOne(seen, ends).Some? then 1 else 0
    ensures FirstKind(seen, ends) == AtMostOne(seen, ends)
  {}

  lemma {:induction false} CountAppend(a: seq<Seen>, b: seq<Seen>, ends: Ends)
    ensures CountOf(a + b, ends) == CountOf(a, ends) + CountOf(b, ends)
  {
    if |b| == 0 {
      assert a + b == a;
    } else {
      CountAppend(a, b[..|b| - 1], ends);
      assert (a + b)[..|a + b| - 1] == a + b[..|b| - 1];
    }
  }

  lemma {:induction false} FirstAppend(a: seq<Seen>, b: seq<Seen>, ends: Ends)
    ensures FirstKind(a + b, ends) == if FirstKind(a, ends).Some? then FirstKind(a, ends) else FirstKind(b, ends)
  {
    if |a| == 0 {
      assert a + b == b;
    } else {
      FirstAppend(a[1..], b, ends);
      assert (a + b)[1..] == a[1..] + b;
    }
  }

  function One(b: bool): nat { if b then 1 else 0 }

  lemma {:induction false} SeenAtMeans(trace: Trace, i: nat, ends: Ends)
    requires i < |trace|
    ensures CountOf(SeenAt(trace, i), ends)
      == One(FallEdge(trace, i, ends)) + One(ReturnEdge(trace, i, ends)) + One(BranchEdge(trace, i, ends))
    ensures FirstKind(SeenAt(trace, i), ends).Some? <==> AnyEdge(trace, i, ends)
    ensures AnyEdge(trace, i, ends) ==> KindAt(trace, i, ends, FirstKind(SeenAt(trace, i), ends).value)
  {
    var f, r, b := FallSeen(trace, i), ReturnSeen(trace, i), BranchSeen(trace, i);
    OneFall(trace, i, ends);
    OneReturn(trace, i, ends);
    OneBranch(trace, i, ends);
    hide FallEdge, ReturnEdge, BranchEdge, FallsInto, ReturnsTo, BranchesOn, Home, Stack, CountOf, FirstKind;
    Single(f, ends);
    Single(r, ends);
    Single(b, ends);
    CountAppend(f, r, ends);
    CountAppend(f + r, b, ends);
    FirstAppend(f, r, ends);
    FirstAppend(f + r, b, ends);
  }

  // ---------- all records ----------

  lemma ObservedSteps(trace: Trace, i: nat)
    requires i < |trace|
    ensures Observed(trace, i + 1) == Observed(trace, i) + SeenAt(trace, i)
  {
    hide FallSeen, ReturnSeen, BranchSeen;
  }

  lemma TimesStep(trace: Trace, ends: Ends, n: nat)
    ensures Times(trace, ends, n + 1) == Times(trace, ends, n)
      + One(FallEdge(trace, n, ends)) + One(ReturnEdge(trace, n, ends)) + One(BranchEdge(trace, n, ends))
  {
    hide FallEdge, ReturnEdge, BranchEdge;
  }

  lemma {:induction false} NothingSeen(trace: Trace, ends: Ends)
    ensures CountOf(Observed(trace, 0), ends) == 0 == Times(trace, ends, 0)
  {}

  lemma {:induction false} ObservedTimes(trace: Trace, ends: Ends, n: nat)
    requires n <= |trace|
    ensures CountOf(Observed(trace, n), ends) == Times(trace, ends, n)
  {
    NothingSeen(trace, ends);
    hide SeenAt, FallEdge, ReturnEdge, BranchEdge, Observed, CountOf, Times;
    if n > 0 {
      ObservedTimes(trace, ends, n - 1);
      ObservedSteps(trace, n - 1);
      CountAppend(Observed(trace, n - 1), SeenAt(trace, n - 1), ends);
      SeenAtMeans(trace, n - 1, ends);
      TimesStep(trace, ends, n - 1);
    }
  }

  /** The kind of the first record that shows the edge among the first `n`, if any does. */
  ghost predicate IsFirst(trace: Trace, ends: Ends, n: nat, kind: Option<EdgeKind>)
    requires n <= |trace|
  {
    match kind
    case None => forall k: nat :: k < n ==> !AnyEdge(trace, k, ends)
    case Some(kind) =>
      exists i: nat :: i < n && AnyEdge(trace, i, ends) && KindAt(trace, i, ends, kind)
        && forall k: nat :: k < i ==> !AnyEdge(trace, k, ends)
  }

  lemma FirstSteps(trace: Trace, ends: Ends, n: nat, before: Option<EdgeKind>, now: Option<EdgeKind>)
    requires n < |trace| && IsFirst(trace, ends, n, before)
    requires (now.Some? <==> AnyEdge(trace, n, ends)) && (now.Some? ==> KindAt(trace, n, ends, now.value))
    ensures IsFirst(trace, ends, n + 1, if before.Some? then before else now)
  {
    hide AnyEdge, KindAt;
  }

  lemma {:induction false} ObservedFirst(trace: Trace, ends: Ends, n: nat)
    requires n <= |trace|
    ensures IsFirst(trace, ends, n, FirstKind(Observed(trace, n), ends))
  {
    hide SeenAt, AnyEdge, KindAt;
    if n > 0 {
      var i := n - 1;
      ObservedFirst(trace, ends, i);
      ObservedSteps(trace, i);
      hide Observed, IsFirst, FirstKind;
      FirstAppend(Observed(trace, i), SeenAt(trace, i), ends);
      SeenAtMeans(trace, i, ends);
      FirstSteps(trace, ends, i, FirstKind(Observed(trace, i), ends), FirstKind(SeenAt(trace, i), ends));
    }
  }

  /** Every edge of the walk over the records is what the records show, and nothing is missing. */
  lemma {:induction false} EdgesAreSeen(trace: Trace)
    ensures forall ends :: IsEdge(trace, AddAll(map[], Observed(trace, |trace|)), ends)
  {
    hide Observed, AddAll, AnyEdge, KindAt, Times;
    forall ends ensures IsEdge(trace, AddAll(map[], Observed(trace, |trace|)), ends) {
      EdgesCount(Observed(trace, |trace|), ends);
      ObservedTimes(trace, ends, |trace|);
      ObservedFirst(trace, ends, |trace|);
      hide FirstKind, CountOf;
    }
  }
}
