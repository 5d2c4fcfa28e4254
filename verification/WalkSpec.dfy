/** The walk as a function of its inputs: discovery order, depths, and why anything was left out. */
module WalkSpec {
  import opened DependencyGraph
  import opened Wrappers

  /** One slice question: `maxNodes == 0` means uncapped, `maxDepth == None` means unbounded. */
  datatype Query = Query(sc: Scope, maxNodes: nat, maxDepth: Option<nat>) {
    predicate Capped(depth: nat) {
      maxDepth.Some? && depth >= maxDepth.value
    }

    predicate Full(size: nat) {
      maxNodes != 0 && size == maxNodes
    }
  }

  /** Rows in discovery order with their depths; the waiting queue is always a suffix of them. */
  datatype Walk = Walk(idxs: seq<nat>, depths: seq<nat>, depthCut: bool, nodeCut: bool) {
    function Push(idx: nat, depth: nat): Walk {
      this.(idxs := idxs + [idx], depths := depths + [depth])
    }

    predicate Truncated() { depthCut || nodeCut }
  }

  function Seed(q: Query, w: Walk, s: nat): Walk {
    if s >= q.sc.n || s in w.idxs then w
    else if q.Full(|w.idxs|) then w.(nodeCut := true)
    else w.Push(s, 0)
  }

  function SeedAll(q: Query, seeds: seq<nat>): Walk {
    if |seeds| == 0 then Walk([], [], false, false)
    else Seed(q, SeedAll(q, seeds[..|seeds| - 1]), seeds[|seeds| - 1])
  }

  function Visit(q: Query, w: Walk, depth: nat, e: Edge): Walk {
    if !q.sc.Allows(e) || e.idx in w.idxs then w
    else if q.Capped(depth) then w.(depthCut := true)
    else if q.Full(|w.idxs|) then w.(nodeCut := true)
    else w.Push(e.idx, depth + 1)
  }

  function VisitRow(q: Query, w: Walk, depth: nat, row: seq<Edge>): Walk {
    if |row| == 0 then w
    else Visit(q, VisitRow(q, w, depth, row[..|row| - 1]), depth, row[|row| - 1])
  }

  lemma {:induction false} VisitStep(q: Query, w: Walk, depth: nat, row: seq<Edge>, j: nat)
    requires j < |row|
    ensures VisitRow(q, w, depth, row[..j + 1]) == Visit(q, VisitRow(q, w, depth, row[..j]), depth, row[j])
  {
    assert row[..j + 1][..j] == row[..j];
  }

  ghost predicate Sound(q: Query, w: Walk) {
    && |w.depths| == |w.idxs|
    && Distinct(w.idxs)
    && (forall k :: 0 <= k < |w.idxs| ==> w.idxs[k] < q.sc.n)
    && (q.maxNodes != 0 ==> |w.idxs| <= q.maxNodes)
  }

  ghost function Drain(g: Graph, q: Query, w: Walk, head: nat): (r: Walk)
    requires Sound(q, w) && head <= |w.idxs|
    ensures Sound(q, r)
    decreases q.sc.n - head
  {
    if head == |w.idxs| then w
    else
      DistinctBounded(w.idxs, q.sc.n);
      VisitRowSound(q, w, w.depths[head], g(w.idxs[head]));
      Drain(g, q, VisitRow(q, w, w.depths[head], g(w.idxs[head])), head + 1)
  }

  ghost function Run(g: Graph, q: Query, seeds: seq<nat>): (w: Walk)
    ensures Sound(q, w)
  {
    SeedAllSound(q, seeds);
    Drain(g, q, SeedAll(q, seeds), 0)
  }

  ghost predicate Extends(v: Walk, w: Walk) {
    && v.idxs <= w.idxs && v.depths <= w.depths
    && (v.depthCut ==> w.depthCut) && (v.nodeCut ==> w.nodeCut)
  }

  lemma {:induction false} VisitRowSound(q: Query, w: Walk, depth: nat, row: seq<Edge>)
    requires Sound(q, w)
    ensures Sound(q, VisitRow(q, w, depth, row))
    ensures Extends(w, VisitRow(q, w, depth, row))
  {
    if |row| > 0 { VisitRowSound(q, w, depth, row[..|row| - 1]); }
  }

  lemma {:induction false} SeedAllSound(q: Query, seeds: seq<nat>)
    ensures Sound(q, SeedAll(q, seeds))
    ensures forall k :: 0 <= k < |SeedAll(q, seeds).idxs| ==>
      SeedAll(q, seeds).idxs[k] in seeds && SeedAll(q, seeds).depths[k] == 0
    ensures !SeedAll(q, seeds).depthCut
  {
    if |seeds| > 0 { SeedAllSound(q, seeds[..|seeds| - 1]); }
  }

  /** Once a seed has been turned away the remaining seeds change nothing. */
  lemma {:induction false} SeedsAfterCut(q: Query, seeds: seq<nat>, k: nat)
    requires k <= |seeds|
    requires SeedAll(q, seeds[..k]).nodeCut && q.Full(|SeedAll(q, seeds[..k]).idxs|)
    ensures SeedAll(q, seeds) == SeedAll(q, seeds[..k])
    decreases |seeds|
  {
    if k == |seeds| {
      assert seeds[..k] == seeds;
    } else {
      var front := seeds[..|seeds| - 1];
      assert front[..k] == seeds[..k];
      SeedsAfterCut(q, front, k);
    }
  }
}
