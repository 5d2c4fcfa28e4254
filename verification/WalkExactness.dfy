/** What a finished walk is: shortest distances, completeness within the caps, exact truncation flags. */
module WalkExactness {
  import opened Wrappers
  import opened DependencyGraph
  import opened WalkSpec

  /** A depth the query may hand out. */
  ghost predicate InDepth(q: Query, d: nat) {
    q.maxDepth.Some? ==> d <= q.maxDepth.value
  }

  ghost predicate LeftOut(g: Graph, q: Query, seeds: seq<nat>, w: Walk, v: nat, d: nat) {
    Near(g, q.sc, seeds, d, v) && v !in w.idxs
  }

  // ---------- the invariant, with the first `head` rows and `row` edges of the next one expanded ----------

  /** Depths never fall and the queue spans at most two of them. */
  ghost predicate Layered(q: Query, w: Walk, head: nat) {
    && Sound(q, w) && head <= |w.idxs|
    && (forall a, b :: 0 <= a <= b < |w.depths| ==> w.depths[a] <= w.depths[b])
    && (head < |w.idxs| ==> w.depths[|w.idxs| - 1] <= w.depths[head] + 1)
    && (forall k :: 0 <= k < |w.depths| ==> InDepth(q, w.depths[k]))
  }

  ghost predicate Exact(g: Graph, q: Query, seeds: seq<nat>, w: Walk) {
    && |w.depths| == |w.idxs|
    && forall k :: 0 <= k < |w.idxs| ==> AtDistance(g, q.sc, seeds, w.idxs[k], w.depths[k])
  }

  ghost predicate Accounted(q: Query, w: Walk, depth: nat, t: nat) {
    t in w.idxs || w.nodeCut || (w.depthCut && q.Capped(depth))
  }

  ghost predicate EdgesDone(q: Query, w: Walk, depth: nat, row: seq<Edge>) {
    forall e :: e in row && q.sc.Allows(e) ==> Accounted(q, w, depth, e.idx)
  }

  ghost predicate Closed(g: Graph, q: Query, seeds: seq<nat>, w: Walk, head: nat) {
    && head <= |w.idxs| == |w.depths|
    && (forall s :: s in seeds && s < q.sc.n && !w.nodeCut ==> s in w.idxs)
    && (forall k :: 0 <= k < head ==> EdgesDone(q, w, w.depths[k], g(w.idxs[k])))
  }

  /** A cut is final and has a witness. */
  ghost predicate CutsJustified(g: Graph, q: Query, seeds: seq<nat>, w: Walk, head: nat) {
    && |w.depths| == |w.idxs|
    && (w.nodeCut ==> q.Full(|w.idxs|))
    && (w.depthCut ==> q.maxDepth.Some? && forall k :: head <= k < |w.idxs| ==> q.Capped(w.depths[k]))
    && (w.nodeCut ==> exists v: nat, d: nat :: InDepth(q, d) && LeftOut(g, q, seeds, w, v, d))
    && (w.depthCut ==> exists v: nat, d: nat :: LeftOut(g, q, seeds, w, v, d))
  }

  ghost predicate Inv(g: Graph, q: Query, seeds: seq<nat>, w: Walk, head: nat) {
    Layered(q, w, head) && Exact(g, q, seeds, w) && Closed(g, q, seeds, w, head) && CutsJustified(g, q, seeds, w, head)
  }

  lemma {:induction false} NearerIsEarlier(g: Graph, q: Query, seeds: seq<nat>, u: nat, d: nat, e: nat)
    requires AtDistance(g, q.sc, seeds, u, d) && Near(g, q.sc, seeds, e, u)
    ensures d <= e
  {
    if d > e { NearGrows(g, q.sc, seeds, e, d - 1, u); }
  }

  /** A row of the previous level sits among the expanded rows when its successors are all accounted for. */
  lemma StepAccounted(g: Graph, q: Query, seeds: seq<nat>, w: Walk, head: nat, k: nat, t: nat)
    requires Closed(g, q, seeds, w, head) && k < head && Step(g, q.sc, w.idxs[k], t)
    ensures Accounted(q, w, w.depths[k], t)
  {
    assert EdgesDone(q, w, w.depths[k], g(w.idxs[k]));
  }

  /**
   * While nothing is cut, every row of a level whose predecessors have all been expanded is discovered.
   * `head` is the number of expanded rows; level `e` is complete if rows nearer than `e` come before it.
   */
  lemma {:induction false} LayerComplete(g: Graph, q: Query, seeds: seq<nat>, w: Walk, head: nat, e: nat, v: nat)
    requires Layered(q, w, head) && Exact(g, q, seeds, w) && Closed(g, q, seeds, w, head)
    requires !w.nodeCut
    requires forall k :: 0 <= k < |w.idxs| && w.depths[k] < e ==> k < head && !(w.depthCut && q.Capped(w.depths[k]))
    requires Near(g, q.sc, seeds, e, v)
    ensures v in w.idxs
    decreases e
  {
    hide Sound;
    if e > 0 {
      if Near(g, q.sc, seeds, e - 1, v) {
        LayerComplete(g, q, seeds, w, head, e - 1, v);
      } else {
        var u :| Near(g, q.sc, seeds, e - 1, u) && Step(g, q.sc, u, v);
        LayerComplete(g, q, seeds, w, head, e - 1, u);
        var k :| 0 <= k < |w.idxs| && w.idxs[k] == u;
        NearerIsEarlier(g, q, seeds, u, w.depths[k], e - 1);
        StepAccounted(g, q, seeds, w, head, k, v);
      }
    }
  }

  lemma StepClimbs(g: Graph, q: Query, seeds: seq<nat>, u: nat, d: nat, e: Edge)
    requires Near(g, q.sc, seeds, d, u) && e in g(u) && q.sc.Allows(e)
    ensures Near(g, q.sc, seeds, d + 1, e.idx)
  {
    assert Step(g, q.sc, u, e.idx);
  }

  lemma VisitKeepsInv(g: Graph, q: Query, seeds: seq<nat>, w: Walk, head: nat, e: Edge)
    requires Inv(g, q, seeds, w, head) && head < |w.idxs| && e in g(w.idxs[head])
    ensures Inv(g, q, seeds, Visit(q, w, w.depths[head], e), head)
  {
    var depth := w.depths[head];
    var r := Visit(q, w, depth, e);
    if q.sc.Allows(e) && e.idx !in w.idxs {
      assert AtDistance(g, q.sc, seeds, w.idxs[head], depth);
      StepClimbs(g, q, seeds, w.idxs[head], depth, e);
      if q.Capped(depth) {
        CutKeepsInv(g, q, seeds, w, r, head, e.idx, depth + 1);
      } else if q.Full(|w.idxs|) {
        CutKeepsInv(g, q, seeds, w, r, head, e.idx, depth + 1);
      } else {
        if Near(g, q.sc, seeds, depth, e.idx) {
          LayerComplete(g, q, seeds, w, head, depth, e.idx);
        }
        PushKeepsInv(g, q, seeds, w, head, e.idx);
      }
    }
  }

  /** Raising a flag with a witness at hand keeps the invariant. */
  lemma CutKeepsInv(g: Graph, q: Query, seeds: seq<nat>, w: Walk, r: Walk, head: nat, t: nat, d: nat)
    requires Inv(g, q, seeds, w, head) && head < |w.idxs| && LeftOut(g, q, seeds, w, t, d)
    requires || (r == w.(depthCut := true) && q.Capped(w.depths[head]))
             || (r == w.(nodeCut := true) && q.Full(|w.idxs|) && InDepth(q, d))
    ensures Inv(g, q, seeds, r, head)
  {
    assert LeftOut(g, q, seeds, r, t, d);
    forall v: nat, d: nat | LeftOut(g, q, seeds, w, v, d) ensures LeftOut(g, q, seeds, r, v, d) {}
    forall k | 0 <= k < head ensures EdgesDone(q, r, r.depths[k], g(r.idxs[k])) {
      assert EdgesDone(q, w, w.depths[k], g(w.idxs[k]));
    }
  }

  lemma PushKeepsInv(g: Graph, q: Query, seeds: seq<nat>, w: Walk, head: nat, t: nat)
    requires Inv(g, q, seeds, w, head) && head < |w.idxs|
    requires !q.Capped(w.depths[head]) && !q.Full(|w.idxs|) && t < q.sc.n && t !in w.idxs
    requires AtDistance(g, q.sc, seeds, t, w.depths[head] + 1)
    ensures Inv(g, q, seeds, w.Push(t, w.depths[head] + 1), head)
  {
    var r := w.Push(t, w.depths[head] + 1);
    assert !w.nodeCut && !w.depthCut;
    forall k | 0 <= k < head ensures EdgesDone(q, r, r.depths[k], g(r.idxs[k])) {
      assert EdgesDone(q, w, w.depths[k], g(w.idxs[k]));
    }
  }

  /** After a whole row, every edge of the row is accounted for. */
  lemma {:induction false} VisitRowKeepsInv(g: Graph, q: Query, seeds: seq<nat>, w: Walk, head: nat, row: seq<Edge>)
    requires Inv(g, q, seeds, w, head) && head < |w.idxs|
    requires forall e :: e in row ==> e in g(w.idxs[head])
    ensures Inv(g, q, seeds, VisitRow(q, w, w.depths[head], row), head)
    ensures Extends(w, VisitRow(q, w, w.depths[head], row))
    ensures EdgesDone(q, VisitRow(q, w, w.depths[head], row), w.depths[head], row)
  {
    if |row| > 0 {
      var front, e := row[..|row| - 1], row[|row| - 1];
      VisitRowKeepsInv(g, q, seeds, w, head, front);
      var m := VisitRow(q, w, w.depths[head], front);
      VisitKeepsInv(g, q, seeds, m, head, e);
      var r := Visit(q, m, w.depths[head], e);
      forall x | x in row && q.sc.Allows(x) ensures Accounted(q, r, w.depths[head], x.idx) {
        if x in front { assert Accounted(q, m, w.depths[head], x.idx); }
      }
    }
  }

  lemma AdvanceKeepsInv(g: Graph, q: Query, seeds: seq<nat>, w: Walk, head: nat)
    requires Inv(g, q, seeds, w, head) && head < |w.idxs|
    requires EdgesDone(q, w, w.depths[head], g(w.idxs[head]))
    ensures Inv(g, q, seeds, w, head + 1)
  {}

  lemma {:induction false} DrainKeepsInv(g: Graph, q: Query, seeds: seq<nat>, w: Walk, head: nat)
    requires Inv(g, q, seeds, w, head)
    ensures Inv(g, q, seeds, Drain(g, q, w, head), |Drain(g, q, w, head).idxs|)
    decreases q.sc.n - head
  {
    if head < |w.idxs| {
      var row := g(w.idxs[head]);
      DistinctBounded(w.idxs, q.sc.n);
      VisitRowKeepsInv(g, q, seeds, w, head, row);
      var next := VisitRow(q, w, w.depths[head], row);
      AdvanceKeepsInv(g, q, seeds, next, head);
      DrainKeepsInv(g, q, seeds, next, head + 1);
    }
  }

  lemma {:induction false} SeedingAccounts(q: Query, seeds: seq<nat>)
    ensures var w := SeedAll(q, seeds);
      && (forall s :: s in seeds && s < q.sc.n && !w.nodeCut ==> s in w.idxs)
      && (w.nodeCut ==> q.Full(|w.idxs|))
      && (w.nodeCut ==> exists s :: s in seeds && s < q.sc.n && s !in w.idxs)
  {
    if |seeds| > 0 { SeedingAccounts(q, seeds[..|seeds| - 1]); }
  }

  lemma RunInv(g: Graph, q: Query, seeds: seq<nat>)
    ensures Inv(g, q, seeds, Run(g, q, seeds), |Run(g, q, seeds).idxs|)
  {
    var w := SeedAll(q, seeds);
    SeedAllSound(q, seeds);
    SeedingAccounts(q, seeds);
    if w.nodeCut {
      var s :| s in seeds && s < q.sc.n && s !in w.idxs;
      assert InDepth(q, 0) && LeftOut(g, q, seeds, w, s, 0);
    }
    DrainKeepsInv(g, q, seeds, w, 0);
  }

  /** At the end of a walk without node cut, every row within the depth bound has been discovered. */
  lemma {:induction false} FinishedComplete(g: Graph, q: Query, seeds: seq<nat>, w: Walk, d: nat, v: nat)
    requires Inv(g, q, seeds, w, |w.idxs|)
    requires !w.nodeCut && (InDepth(q, d) || !w.depthCut)
    requires Near(g, q.sc, seeds, d, v)
    ensures v in w.idxs
  {
    LayerComplete(g, q, seeds, w, |w.idxs|, d, v);
  }

  // ---------- the results ----------

  /** Rows are listed once each, in range, by non-decreasing and truly shortest distance. */
  lemma DistancesAreShortest(g: Graph, q: Query, seeds: seq<nat>)
    ensures var w := Run(g, q, seeds);
      && Distinct(w.idxs) && |w.depths| == |w.idxs|
      && (forall k :: 0 <= k < |w.idxs| ==>
            w.idxs[k] < q.sc.n && InDepth(q, w.depths[k]) && AtDistance(g, q.sc, seeds, w.idxs[k], w.depths[k]))
      && (forall a, b :: 0 <= a <= b < |w.idxs| ==> w.depths[a] <= w.depths[b])
  {
    RunInv(g, q, seeds);
  }

  lemma LeftOutIsReachable(g: Graph, q: Query, seeds: seq<nat>, w: Walk, v: nat, d: nat)
    requires LeftOut(g, q, seeds, w, v, d)
    ensures Reachable(g, q.sc, seeds, v)
  {}

  /** `truncated` is raised exactly when some reachable row is missing from the answer. */
  lemma TruncatedIffLeftOut(g: Graph, q: Query, seeds: seq<nat>)
    ensures var w := Run(g, q, seeds);
      w.Truncated() <==> exists v :: Reachable(g, q.sc, seeds, v) && v !in w.idxs
  {
    var w := Run(g, q, seeds);
    RunInv(g, q, seeds);
    if w.Truncated() {
      var v: nat, d: nat :| LeftOut(g, q, seeds, w, v, d);
      LeftOutIsReachable(g, q, seeds, w, v, d);
    }
    if v :| Reachable(g, q.sc, seeds, v) && v !in w.idxs {
      var d: nat :| Near(g, q.sc, seeds, d, v);
      if !w.Truncated() { FinishedComplete(g, q, seeds, w, d, v); }
    }
  }

  /** The node cap left a row out exactly when a row within the depth bound is missing. */
  lemma NodeCutIffLeftOutInDepth(g: Graph, q: Query, seeds: seq<nat>)
    ensures var w := Run(g, q, seeds);
      w.nodeCut <==> exists v: nat, d: nat :: InDepth(q, d) && LeftOut(g, q, seeds, w, v, d)
  {
    var w := Run(g, q, seeds);
    RunInv(g, q, seeds);
    if v: nat, d: nat :| InDepth(q, d) && LeftOut(g, q, seeds, w, v, d) {
      if !w.nodeCut { FinishedComplete(g, q, seeds, w, d, v); }
    }
  }

  /** Without a node cap the answer is every row within the depth bound. */
  lemma {:induction false} UncappedIsReach(g: Graph, q: Query, seeds: seq<nat>, v: nat)
    requires q.maxNodes == 0
    ensures v in Run(g, q, seeds).idxs <==> exists d: nat :: InDepth(q, d) && Near(g, q.sc, seeds, d, v)
  {
    var w := Run(g, q, seeds);
    RunInv(g, q, seeds);
    if v in w.idxs {
      var k :| 0 <= k < |w.idxs| && w.idxs[k] == v;
      assert AtDistance(g, q.sc, seeds, w.idxs[k], w.depths[k]) && InDepth(q, w.depths[k]);
    }
    if d: nat :| InDepth(q, d) && Near(g, q.sc, seeds, d, v) {
      FinishedComplete(g, q, seeds, w, d, v);
    }
  }

  /** Distances in discovery order climb one at a time, so the k-th row is at most k steps away. */
  lemma DepthBelowPosition(g: Graph, q: Query, seeds: seq<nat>, w: Walk, k: nat)
    requires Inv(g, q, seeds, w, |w.idxs|) && !w.nodeCut && !w.depthCut && k < |w.idxs|
    ensures w.depths[k] <= k
    decreases k
  {
    hide Sound, EdgesDone;
    var d, v := w.depths[k], w.idxs[k];
    assert AtDistance(g, q.sc, seeds, v, d);
    if d > 0 {
      var u :| Near(g, q.sc, seeds, d - 1, u) && Step(g, q.sc, u, v);
      FinishedComplete(g, q, seeds, w, d - 1, u);
      var i :| 0 <= i < |w.idxs| && w.idxs[i] == u;
      NearerIsEarlier(g, q, seeds, u, w.depths[i], d - 1);
      NearerIsEarlier(g, q, seeds, v, d, w.depths[i] + 1);
      DepthBelowPosition(g, q, seeds, w, i);
    }
  }

  /** A depth bound no smaller than the trace length never bites. */
  lemma DepthBoundOfTraceLength(g: Graph, sc: Scope, seeds: seq<nat>, m: nat, v: nat)
    requires m >= sc.n
    ensures v in Run(g, Query(sc, 0, Some(m)), seeds).idxs <==> Reachable(g, sc, seeds, v)
  {
    var q, free := Query(sc, 0, Some(m)), Query(sc, 0, None);
    UncappedIsReach(g, q, seeds, v);
    if d0: nat :| Near(g, sc, seeds, d0, v) {
      var w := Run(g, free, seeds);
      RunInv(g, free, seeds);
      FinishedComplete(g, free, seeds, w, d0, v);
      var k :| 0 <= k < |w.idxs| && w.idxs[k] == v;
      DistinctBounded(w.idxs, sc.n);
      DepthBelowPosition(g, free, seeds, w, k);
      assert InDepth(q, w.depths[k]) && Near(g, sc, seeds, w.depths[k], v) by {
        assert AtDistance(g, sc, seeds, w.idxs[k], w.depths[k]);
      }
    }
  }
}
