/** The walkers themselves, over the packed visited set and a real queue. */
module BfsSlice {
  import opened Wrappers
  import opened DependencyGraph
  import opened Bitsets
  import opened WalkSpec
  import WalkExactness

  datatype SliceOptions = SliceOptions(dataOnly: bool, maxNodes: nat)

  datatype SliceResult = SliceResult(marked: Bitset, idxs: seq<nat>, truncated: bool)

  datatype SliceMode = Union | Intersection

  ghost predicate IsDepthMap(w: Walk, depths: map<nat, nat>) {
    && |w.depths| == |w.idxs|
    && (forall v :: v in depths <==> v in w.idxs)
    && (forall k :: 0 <= k < |w.idxs| ==> w.idxs[k] in depths && depths[w.idxs[k]] == w.depths[k])
  }

  /** The queue holds the discovered rows from position `head` on, each with its depth. */
  ghost predicate IsQueue(w: Walk, head: nat, queue: seq<(nat, nat)>) {
    && |w.depths| == |w.idxs| == head + |queue|
    && forall k :: 0 <= k < |queue| ==> queue[k] == (w.idxs[head + k], w.depths[head + k])
  }

  /** The mutable variables of a walk agree with the walk; `head` rows have left the queue. */
  ghost predicate Mirrors(w: Walk, head: nat, idxs: seq<nat>, depths: map<nat, nat>, queue: seq<(nat, nat)>,
                          truncated: bool, seen: set<nat>) {
    && idxs == w.idxs && truncated == w.Truncated() && IsDepthMap(w, depths) && IsQueue(w, head, queue)
    && (forall v :: v in seen <==> v in w.idxs)
  }

  lemma PushMirrors(w: Walk, head: nat, idxs: seq<nat>, depths: map<nat, nat>, queue: seq<(nat, nat)>,
                    truncated: bool, seen: set<nat>, v: nat, d: nat)
    requires Mirrors(w, head, idxs, depths, queue, truncated, seen) && v !in w.idxs
    ensures Mirrors(w.Push(v, d), head, idxs + [v], depths[v := d], queue + [(v, d)], truncated, seen + {v})
  {}

  lemma CutMirrors(w: Walk, head: nat, idxs: seq<nat>, depths: map<nat, nat>, queue: seq<(nat, nat)>,
                   truncated: bool, seen: set<nat>)
    requires Mirrors(w, head, idxs, depths, queue, truncated, seen)
    ensures Mirrors(w.(nodeCut := true), head, idxs, depths, queue, true, seen)
    ensures Mirrors(w.(depthCut := true), head, idxs, depths, queue, true, seen)
  {}

  lemma PopMirrors(w: Walk, head: nat, idxs: seq<nat>, depths: map<nat, nat>, queue: seq<(nat, nat)>,
                   truncated: bool, seen: set<nat>)
    requires Mirrors(w, head, idxs, depths, queue, truncated, seen) && queue != []
    ensures head < |w.idxs| == |w.depths| && queue[0] == (w.idxs[head], w.depths[head])
    ensures Mirrors(w, head + 1, idxs, depths, queue[1..], truncated, seen)
  {}

  lemma {:induction false} SeedStep(q: Query, seeds: seq<nat>, k: nat)
    requires k < |seeds|
    ensures SeedAll(q, seeds[..k + 1]) == Seed(q, SeedAll(q, seeds[..k]), seeds[k])
  {
    assert seeds[..k + 1][..k] == seeds[..k];
  }

  /** Marks and queues the seeds; stops at the first one the node cap turns away. */
  method QueueSeeds(ghost q: Query, n: nat, seeds: seq<nat>, options: SliceOptions, marked: Bitset)
    returns (idxs: seq<nat>, depths: map<nat, nat>, queue: seq<(nat, nat)>, truncated: bool)
    requires q.sc == Scope(n, options.dataOnly) && q.maxNodes == options.maxNodes
    requires marked.Valid() && marked.len == n && marked.View() == {}
    modifies marked.words
    ensures Mirrors(SeedAll(q, seeds), 0, idxs, depths, queue, truncated, marked.View())
  {
    idxs, depths, queue, truncated := [], map[], [], false;
    assert Mirrors(SeedAll(q, []), 0, idxs, depths, queue, truncated, marked.View());
    assert seeds[..0] == [] && seeds[..|seeds|] == seeds;
    hide Mirrors, SeedAll;
    for k := 0 to |seeds|
      invariant Mirrors(SeedAll(q, seeds[..k]), 0, idxs, depths, queue, truncated, marked.View())
    {
      var idx := seeds[k];
      ghost var w := SeedAll(q, seeds[..k]);
      SeedStep(q, seeds, k);
      assert idxs == w.idxs && (idx in marked.View() <==> idx in w.idxs) by {
        MirrorsReads(w, 0, idxs, depths, queue, truncated, marked.View());
      }
      var seen := marked.Get(idx);
      if idx >= n || seen { continue; }
      if options.maxNodes != 0 && |idxs| == options.maxNodes {
        CutMirrors(w, 0, idxs, depths, queue, truncated, marked.View());
        truncated := true;
        SeedsAfterCut(q, seeds, k + 1);
        return;
      }
      PushMirrors(w, 0, idxs, depths, queue, truncated, marked.View(), idx, 0);
      var _ := marked.Set(idx);
      idxs, depths, queue := idxs + [idx], depths[idx := 0], queue + [(idx, 0)];
    }
  }

  lemma MirrorsReads(w: Walk, head: nat, idxs: seq<nat>, depths: map<nat, nat>, queue: seq<(nat, nat)>,
                     truncated: bool, seen: set<nat>)
    requires Mirrors(w, head, idxs, depths, queue, truncated, seen)
    ensures idxs == w.idxs && forall v :: v in seen <==> v in w.idxs
  {}

  /** Follows the edges of one row taken off the queue. */
  method ExpandRow(ghost q: Query, ghost w0: Walk, ghost head: nat, n: nat, options: SliceOptions,
      maxDepth: Option<nat>,
                   row: seq<Edge>, depth: nat, marked: Bitset,
                   idxs0: seq<nat>, depths0: map<nat, nat>, queue0: seq<(nat, nat)>, truncated0: bool)
    returns (idxs: seq<nat>, depths: map<nat, nat>, queue: seq<(nat, nat)>, truncated: bool)
    requires q == Query(Scope(n, options.dataOnly), options.maxNodes, maxDepth)
    requires marked.Valid() && marked.len == n
    requires Mirrors(w0, head, idxs0, depths0, queue0, truncated0, marked.View())
    modifies marked.words
    ensures Mirrors(VisitRow(q, w0, depth, row), head, idxs, depths, queue, truncated, marked.View())
  {
    idxs, depths, queue, truncated := idxs0, depths0, queue0, truncated0;
    assert row[..0] == [] && row[..|row|] == row;
    assert VisitRow(q, w0, depth, []) == w0;
    hide Mirrors, VisitRow;
    for j := 0 to |row|
      invariant Mirrors(VisitRow(q, w0, depth, row[..j]), head, idxs, depths, queue, truncated, marked.View())
    {
      var e := row[j];
      ghost var w := VisitRow(q, w0, depth, row[..j]);
      VisitStep(q, w0, depth, row, j);
      assert idxs == w.idxs && (e.idx in marked.View() <==> e.idx in w.idxs) by {
        MirrorsReads(w, head, idxs, depths, queue, truncated, marked.View());
      }
      var seen := marked.Get(e.idx);
      if e.idx >= n || seen || (options.dataOnly && e.kind == Control) { continue; }
      if (maxDepth.Some? && depth >= maxDepth.value) || (options.maxNodes != 0 && |idxs| == options.maxNodes) {
        CutMirrors(w, head, idxs, depths, queue, truncated, marked.View());
        truncated := true;
        continue;
      }
      PushMirrors(w, head, idxs, depths, queue, truncated, marked.View(), e.idx, depth + 1);
      var _ := marked.Set(e.idx);
      idxs, depths, queue := idxs + [e.idx], depths[e.idx := depth + 1], queue + [(e.idx, depth + 1)];
    }
  }

  /** What holds between two turns of the walk. */
  ghost predicate Underway(g: Graph, q: Query, seeds: seq<nat>, w: Walk, head: nat, idxs: seq<nat>,
      depths: map<nat, nat>,
                           queue: seq<(nat, nat)>, truncated: bool, seen: set<nat>) {
    && Sound(q, w) && Mirrors(w, head, idxs, depths, queue, truncated, seen)
    && head <= |w.idxs| && Drain(g, q, w, head) == Run(g, q, seeds)
  }

  lemma TakeFromQueue(g: Graph, q: Query, seeds: seq<nat>, w: Walk, head: nat, idxs: seq<nat>, depths: map<nat, nat>,
                      queue: seq<(nat, nat)>, truncated: bool, seen: set<nat>)
    requires Underway(g, q, seeds, w, head, idxs, depths, queue, truncated, seen) && queue != []
    ensures head < |w.idxs| == |w.depths| && queue[0] == (w.idxs[head], w.depths[head]) && head < q.sc.n
    ensures Sound(q, w) && Mirrors(w, head + 1, idxs, depths, queue[1..], truncated, seen)
  {
    DistinctBounded(w.idxs, q.sc.n);
    PopMirrors(w, head, idxs, depths, queue, truncated, seen);
  }

  lemma {:induction false} RowExpanded(g: Graph, q: Query, seeds: seq<nat>, w: Walk, head: nat, idxs: seq<nat>,
      depths: map<nat, nat>,
                    queue: seq<(nat, nat)>, truncated: bool, seen: set<nat>)
    requires Sound(q, w) && head < |w.idxs| && Drain(g, q, w, head) == Run(g, q, seeds)
    requires Mirrors(VisitRow(q, w, w.depths[head], g(w.idxs[head])), head + 1, idxs, depths, queue, truncated, seen)
    ensures Underway(g, q, seeds, VisitRow(q, w, w.depths[head], g(w.idxs[head])), head + 1, idxs, depths, queue,
      truncated, seen)
  {
    hide Mirrors, Run;
    VisitRowSound(q, w, w.depths[head], g(w.idxs[head]));
  }

  method WalkSlice(n: nat, seeds: seq<nat>, options: SliceOptions, maxDepth: Option<nat>, neighbours: Graph)
    returns (r: SliceResult, depths: map<nat, nat>)
    ensures fresh(r.marked) && fresh(r.marked.words) && r.marked.Valid() && r.marked.len == n
    ensures var w := Run(neighbours, Query(Scope(n, options.dataOnly), options.maxNodes, maxDepth), seeds);
      && r.idxs == w.idxs && r.truncated == w.Truncated() && IsDepthMap(w, depths)
      && forall v :: v in r.marked.View() <==> v in w.idxs
  {
    ghost var q := Query(Scope(n, options.dataOnly), options.maxNodes, maxDepth);
    var marked := new Bitset.WithLen(n);
    var idxs, queue, truncated;
    idxs, depths, queue, truncated := QueueSeeds(q, n, seeds, options, marked);
    SeedAllSound(q, seeds);
    ghost var w, head := SeedAll(q, seeds), 0;
    assert Underway(neighbours, q, seeds, w, head, idxs, depths, queue, truncated, marked.View());
    hide Underway, Mirrors, Sound, Run, Drain, SeedAll, VisitRow;
    while queue != []
      invariant head <= n && Underway(neighbours, q, seeds, w, head, idxs, depths, queue, truncated, marked.View())
      decreases n - head
    {
      TakeFromQueue(neighbours, q, seeds, w, head, idxs, depths, queue, truncated, marked.View());
      assert Drain(neighbours, q, w, head) == Run(neighbours, q, seeds) by {
        StillToDrain(neighbours, q, seeds, w, head, idxs, depths, queue, truncated, marked.View());
      }
      var (idx, depth) := queue[0];
      var row := neighbours(idx);
      idxs, depths, queue, truncated :=
        ExpandRow(q, w, head + 1, n, options, maxDepth, row, depth, marked, idxs, depths, queue[1..], truncated);
      RowExpanded(neighbours, q, seeds, w, head, idxs, depths, queue, truncated, marked.View());
      w, head := VisitRow(q, w, depth, row), head + 1;
    }
    WalkOver(neighbours, q, seeds, w, head, idxs, depths, truncated, marked.View());
    r := SliceResult(marked, idxs, truncated);
  }

  lemma {:induction false} StillToDrain(g: Graph, q: Query, seeds: seq<nat>, w: Walk, head: nat, idxs: seq<nat>,
      depths: map<nat, nat>,
                     queue: seq<(nat, nat)>, truncated: bool, seen: set<nat>)
    requires Underway(g, q, seeds, w, head, idxs, depths, queue, truncated, seen) && Sound(q, w) && head <= |w.idxs|
    ensures Drain(g, q, w, head) == Run(g, q, seeds)
  {}

  lemma WalkOver(g: Graph, q: Query, seeds: seq<nat>, w: Walk, head: nat, idxs: seq<nat>, depths: map<nat, nat>,
                 truncated: bool, seen: set<nat>)
    requires Underway(g, q, seeds, w, head, idxs, depths, [], truncated, seen)
    ensures var r := Run(g, q, seeds);
      && idxs == r.idxs && truncated == r.Truncated() && IsDepthMap(r, depths)
      && forall v :: v in seen <==> v in r.idxs
  {}

  /** The query `BfsSlice` asks: backwards over the stored rows, any depth. */
  function SliceQuery(n: nat, options: SliceOptions): Query {
    Query(Scope(n, options.dataOnly), options.maxNodes, None)
  }

  method Slice(deps: DependencyIndex, n: nat, seeds: seq<nat>, options: SliceOptions) returns (r: SliceResult)
    ensures fresh(r.marked) && fresh(r.marked.words) && r.marked.Valid() && r.marked.len == n
    ensures var w := Run(deps.Rows(), SliceQuery(n, options), seeds);
      && r.idxs == w.idxs && r.truncated == w.Truncated()
      && forall v :: v in r.marked.View() <==> v in w.idxs
  {
    var depths;
    r, depths := WalkSlice(n, seeds, options, None, deps.Rows());
  }

  ghost function SliceRows(g: Graph, q: Query, seed: nat): set<nat> {
    set v | v in Run(g, q, [seed]).idxs
  }

  /** The rows a multi-seed slice marks: single-seed slices folded together from the left. */
  ghost function Combined(g: Graph, q: Query, seeds: seq<nat>, mode: SliceMode): set<nat>
    requires |seeds| > 0
  {
    var last := SliceRows(g, q, seeds[|seeds| - 1]);
    if |seeds| == 1 then last
    else if mode == Union then Combined(g, q, seeds[..|seeds| - 1], mode) + last
    else Combined(g, q, seeds[..|seeds| - 1], mode) * last
  }

  ghost predicate AnyTruncated(g: Graph, q: Query, seeds: seq<nat>) {
    |seeds| > 0 && (Run(g, q, [seeds[|seeds| - 1]]).Truncated() || AnyTruncated(g, q, seeds[..|seeds| - 1]))
  }

  /** Union marks the rows of some seed's slice, intersection the rows of every seed's slice. */
  lemma {:induction false} CombinedMeans(g: Graph, q: Query, seeds: seq<nat>, mode: SliceMode, v: nat)
    requires |seeds| > 0
    ensures v in Combined(g, q, seeds, mode) <==>
      if mode == Union then exists s :: s in seeds && v in Run(g, q, [s]).idxs
      else forall s :: s in seeds ==> v in Run(g, q, [s]).idxs
  {
    var front, s := seeds[..|seeds| - 1], seeds[|seeds| - 1];
    assert seeds == front + [s];
    if |seeds| > 1 { CombinedMeans(g, q, front, mode, v); }
  }

  method SliceMulti(deps: DependencyIndex, n: nat, seeds: seq<nat>, mode: SliceMode, options: SliceOptions)
    returns (r: SliceResult)
    ensures r.marked.Valid() && r.marked.len == n
    ensures r.marked.View() == if seeds == [] then {} else Combined(deps.Rows(), SliceQuery(n, options), seeds, mode)
    ensures forall v :: v in r.idxs <==> v in r.marked.View()
    ensures |seeds| != 1 ==> forall i, j :: 0 <= i < j < |r.idxs| ==> r.idxs[i] < r.idxs[j]
    ensures |seeds| == 1 ==> r.idxs == Run(deps.Rows(), SliceQuery(n, options), seeds).idxs
    ensures r.truncated <==> AnyTruncated(deps.Rows(), SliceQuery(n, options), seeds)
  {
    if |seeds| == 0 {
      var none := new Bitset.WithLen(n);
      return SliceResult(none, [], false);
    }
    ghost var g, q := deps.Rows(), SliceQuery(n, options);
    var first := Slice(deps, n, [seeds[0]], options);
    assert [seeds[0]] == seeds[..1];
    assert first.marked.View() == SliceRows(g, q, seeds[0]);
    if |seeds| == 1 { return first; }
    var marked, truncated := first.marked, first.truncated;
    for k := 1 to |seeds|
      invariant fresh(marked) && fresh(marked.words) && marked.Valid() && marked.len == n
      invariant marked.View() == Combined(g, q, seeds[..k], mode)
      invariant truncated == AnyTruncated(g, q, seeds[..k])
    {
      var next := Slice(deps, n, [seeds[k]], options);
      assert next.marked.View() == SliceRows(g, q, seeds[k]);
      assert seeds[..k + 1][..k] == seeds[..k];
      truncated := truncated || next.truncated;
      match mode {
        case Union => marked.UnionInPlace(next.marked);
        case Intersection => marked.IntersectInPlace(next.marked);
      }
    }
    assert seeds[..|seeds|] == seeds;
    var idxs := marked.Iter();
    forall v ensures v in idxs <==> v in marked.View() {
      assert v in idxs <==> v in (set i | i in idxs);
    }
    r := SliceResult(marked, idxs, truncated);
  }

  lemma {:induction false} NearFromOneSeed(g: Graph, sc: Scope, seeds: seq<nat>, d: nat, v: nat)
    ensures Near(g, sc, seeds, d, v) <==> exists s :: s in seeds && Near(g, sc, [s], d, v)
  {
    if d == 0 {
      if Near(g, sc, seeds, 0, v) { assert Near(g, sc, [v], 0, v); }
    } else {
      NearFromOneSeed(g, sc, seeds, d - 1, v);
      if u :| Near(g, sc, seeds, d - 1, u) && Step(g, sc, u, v) {
        NearFromOneSeed(g, sc, seeds, d - 1, u);
        var s :| s in seeds && Near(g, sc, [s], d - 1, u);
        assert Near(g, sc, [s], d, v);
      }
      if s :| s in seeds && Near(g, sc, [s], d, v) {
        if !Near(g, sc, [s], d - 1, v) {
          var u :| Near(g, sc, [s], d - 1, u) && Step(g, sc, u, v);
          NearFromOneSeed(g, sc, seeds, d - 1, u);
        }
      }
    }
  }

  /** Uncapped, slicing seeds one by one and uniting the bitsets is the slice of all seeds at once. */
  lemma {:induction false} UnionIsJointSlice(g: Graph, n: nat, dataOnly: bool, seeds: seq<nat>, v: nat)
    requires |seeds| > 0
    ensures var q := SliceQuery(n, SliceOptions(dataOnly, 0));
      v in Combined(g, q, seeds, Union) <==> v in Run(g, q, seeds).idxs
  {
    var q := SliceQuery(n, SliceOptions(dataOnly, 0));
    CombinedMeans(g, q, seeds, Union, v);
    WalkExactness.UncappedIsReach(g, q, seeds, v);
    if d: nat :| Near(g, q.sc, seeds, d, v) {
      assert WalkExactness.InDepth(q, d);
      NearFromOneSeed(g, q.sc, seeds, d, v);
      var s :| s in seeds && Near(g, q.sc, [s], d, v);
      WalkExactness.UncappedIsReach(g, q, [s], v);
    }
    forall s | s in seeds && v in Run(g, q, [s]).idxs ensures v in Run(g, q, seeds).idxs {
      WalkExactness.UncappedIsReach(g, q, [s], v);
      var d: nat :| WalkExactness.InDepth(q, d) && Near(g, q.sc, [s], d, v);
      NearFromOneSeed(g, q.sc, seeds, d, v);
    }
  }
}
