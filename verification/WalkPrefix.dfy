/** Capping the node count cuts the discovery order short and changes nothing before the cut. */
module WalkPrefix {
  import opened Numbers
  import opened DependencyGraph
  import opened WalkSpec

  /** `wc` holds the first `c` discoveries of `wu`, or all of them if there are fewer. */
  ghost predicate IsPrefix(wc: Walk, wu: Walk, c: nat) {
    && |wu.depths| == |wu.idxs|
    && wc.idxs == wu.idxs[..Min(c, |wu.idxs|)]
    && wc.depths == wu.depths[..Min(c, |wu.idxs|)]
  }

  lemma {:induction false} SeedAllPrefix(qc: Query, qu: Query, seeds: seq<nat>)
    requires qc.maxNodes > 0 && qu == qc.(maxNodes := 0)
    ensures IsPrefix(SeedAll(qc, seeds), SeedAll(qu, seeds), qc.maxNodes)
  {
    if |seeds| > 0 { SeedAllPrefix(qc, qu, seeds[..|seeds| - 1]); }
  }

  lemma {:induction false} VisitRowPrefix(qc: Query, qu: Query, wc: Walk, wu: Walk, depth: nat, row: seq<Edge>)
    requires qc.maxNodes > 0 && qu == qc.(maxNodes := 0)
    requires IsPrefix(wc, wu, qc.maxNodes)
    ensures IsPrefix(VisitRow(qc, wc, depth, row), VisitRow(qu, wu, depth, row), qc.maxNodes)
  {
    if |row| > 0 { VisitRowPrefix(qc, qu, wc, wu, depth, row[..|row| - 1]); }
  }

  lemma {:induction false} DrainExtends(g: Graph, q: Query, w: Walk, head: nat)
    requires Sound(q, w) && head <= |w.idxs|
    ensures Extends(w, Drain(g, q, w, head))
    decreases q.sc.n - head
  {
    if head < |w.idxs| {
      DistinctBounded(w.idxs, q.sc.n);
      VisitRowSound(q, w, w.depths[head], g(w.idxs[head]));
      DrainExtends(g, q, VisitRow(q, w, w.depths[head], g(w.idxs[head])), head + 1);
    }
  }

  lemma {:induction false} DrainPrefix(g: Graph, qc: Query, qu: Query, wc: Walk, wu: Walk, head: nat)
    requires qc.maxNodes > 0 && qu == qc.(maxNodes := 0)
    requires Sound(qc, wc) && Sound(qu, wu) && head <= |wc.idxs|
    requires IsPrefix(wc, wu, qc.maxNodes)
    ensures IsPrefix(Drain(g, qc, wc, head), Drain(g, qu, wu, head), qc.maxNodes)
    decreases qc.sc.n - head
  {
    if head == |wc.idxs| {
      DrainExtends(g, qu, wu, head);
    } else {
      var depth, row := wc.depths[head], g(wc.idxs[head]);
      DistinctBounded(wc.idxs, qc.sc.n);
      VisitRowSound(qc, wc, depth, row);
      VisitRowSound(qu, wu, depth, row);
      VisitRowPrefix(qc, qu, wc, wu, depth, row);
      DrainPrefix(g, qc, qu, VisitRow(qc, wc, depth, row), VisitRow(qu, wu, depth, row), head + 1);
    }
  }

  /** The answer under `maxNodes = c` is the first min(c, len) rows of the uncapped answer. */
  lemma NodeCapIsPrefix(g: Graph, q: Query, seeds: seq<nat>)
    requires q.maxNodes > 0
    ensures IsPrefix(Run(g, q, seeds), Run(g, q.(maxNodes := 0), seeds), q.maxNodes)
  {
    var qu := q.(maxNodes := 0);
    SeedAllPrefix(q, qu, seeds);
    SeedAllSound(q, seeds);
    SeedAllSound(qu, seeds);
    DrainPrefix(g, q, qu, SeedAll(q, seeds), SeedAll(qu, seeds), 0);
  }
}
