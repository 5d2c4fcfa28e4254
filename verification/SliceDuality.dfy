/** Backward slices and forward trees answer the same question from its two ends. */
module SliceDuality {
  import opened DependencyGraph
  import opened Wrappers
  import opened WalkSpec
  import opened WalkExactness
  import opened Transpose
  import opened DependencyUsers
  import opened ForwardSpec
  import BfsSlice
  import ForwardDepTree

  /** The buckets `Build` promises. */
  ghost predicate IsTransposeOf(users: Users, deps: DependencyIndex, n: nat) {
    && users.Valid() && users.nRows == n
    && forall p: nat :: p < n ==> users.Row(p) == Incoming(deps.Rows(), RowCount(deps, n), p)
  }

  lemma EdgeBothWays(users: Users, deps: DependencyIndex, n: nat, v: nat, t: nat, kind: DepKind)
    requires IsTransposeOf(users, deps, n) && v < n && t < n
    ensures Edge(t, kind) in deps.Row(v) <==> Edge(v, kind) in users.Row(t)
  {
    BucketCounts(deps.Rows(), RowCount(deps, n), t, v, kind);
    assert deps.Rows()(v) == deps.Row(v);
    if v >= RowCount(deps, n) { assert deps.Row(v) == []; }
    assert Edge(t, kind) in deps.Row(v) <==> multiset(deps.Row(v))[Edge(t, kind)] > 0;
    assert Edge(v, kind) in users.Row(t) <==> multiset(users.Row(t))[Edge(v, kind)] > 0;
  }

  lemma UsersTranspose(users: Users, deps: DependencyIndex, sc: Scope)
    requires IsTransposeOf(users, deps, sc.n)
    ensures Transposed(deps.Rows(), users.Rows(), sc)
    ensures Transposed(users.Rows(), deps.Rows(), sc)
  {
    forall v: nat, t: nat | v < sc.n && t < sc.n
      ensures Step(deps.Rows(), sc, v, t) <==> Step(users.Rows(), sc, t, v)
    {
      assert deps.Rows()(v) == deps.Row(v) && users.Rows()(t) == users.Row(t);
      if e :| e in deps.Rows()(v) && e.idx == t && sc.Allows(e) {
        EdgeBothWays(users, deps, sc.n, v, t, e.kind);
        assert sc.Allows(Edge(v, e.kind)) && Edge(v, e.kind) in users.Rows()(t);
      }
      if e :| e in users.Rows()(t) && e.idx == v && sc.Allows(e) {
        EdgeBothWays(users, deps, sc.n, v, t, e.kind);
        assert sc.Allows(Edge(t, e.kind)) && Edge(t, e.kind) in deps.Rows()(v);
      }
    }
  }

  /** Row `t` is in the backward slice of `s` exactly when `s` is a node of the forward tree of `t`. */
  lemma BackwardIffForward(users: Users, deps: DependencyIndex, n: nat, dataOnly: bool, maxDepth: nat, s: nat, t: nat)
    requires IsTransposeOf(users, deps, n)
    requires s < n && t < n && maxDepth >= n
    ensures t in Run(deps.Rows(), BfsSlice.SliceQuery(n, BfsSlice.SliceOptions(dataOnly, 0)), [s]).idxs
       <==> s in Run(users.Rows(),
         ForwardDepTree.ForwardQuery(n, ForwardDepTree.ForwardOptions(dataOnly, maxDepth, 0)), [t]).idxs
  {
    var sc := Scope(n, dataOnly);
    var g, h := deps.Rows(), users.Rows();
    UsersTranspose(users, deps, sc);
    UncappedIsReach(g, Query(sc, 0, None), [s], t);
    DepthBoundOfTraceLength(h, sc, [t], maxDepth, s);
    if d: nat :| InDepth(Query(sc, 0, None), d) && Near(g, sc, [s], d, t) {
      ReverseWalk(g, h, sc, s, d, t);
    }
    if d: nat :| Near(h, sc, [t], d, s) {
      ReverseWalk(h, g, sc, t, d, s);
      assert InDepth(Query(sc, 0, None), d);
    }
  }

  /** An uncapped backward slice is everything its seeds depend on, through data alone or control too as asked. */
  lemma SliceIsReach(deps: DependencyIndex, n: nat, dataOnly: bool, seeds: seq<nat>, v: nat)
    ensures v in Run(deps.Rows(), BfsSlice.SliceQuery(n, BfsSlice.SliceOptions(dataOnly, 0)), seeds).idxs
      <==> Reachable(deps.Rows(), Scope(n, dataOnly), seeds, v)
  {
    var q := Query(Scope(n, dataOnly), 0, None);
    UncappedIsReach(deps.Rows(), q, seeds, v);
    if d: nat :| Near(deps.Rows(), Scope(n, dataOnly), seeds, d, v) { assert InDepth(q, d); }
  }

  /** An edge of `row` that a query with these options may follow. */
  predicate Follows(row: seq<Edge>, n: nat, dataOnly: bool, to: nat, kind: DepKind) {
    Edge(to, kind) in row && to < n && (dataOnly ==> kind != Control)
  }

  /**
   * A forward tree: every node once, within the caps and at its true distance from the seed; every edge from a node
   * that is not at the depth cap to a node, as its row has it, and no other.
   */
  lemma ForwardTreeMeans(g: Graph, n: nat, seed: nat, options: ForwardDepTree.ForwardOptions,
      tree: ForwardDepTree.ForwardTree)
    requires ForwardDepTree.IsForwardTree(tree, g, ForwardDepTree.ForwardQuery(n, options), seed)
    ensures forall i, j :: 0 <= i < j < |tree.nodes| ==> tree.nodes[i].idx != tree.nodes[j].idx
    ensures options.maxNodes > 0 ==> |tree.nodes| <= options.maxNodes
    ensures forall v :: v in tree.nodes ==>
      && v.idx < n && v.depth <= options.maxDepth
      && AtDistance(g, Scope(n, options.dataOnly), [seed], v.idx, v.depth)
    ensures forall e :: e in tree.edges <==>
      && (exists v :: v in tree.nodes && v.idx == e.to)
      && exists v :: v in tree.nodes && v.idx == e.from && v.depth < options.maxDepth
           && Follows(g(v.idx), n, options.dataOnly, e.to, e.kind)
  {
    var q := ForwardDepTree.ForwardQuery(n, options);
    DistancesAreShortest(g, q, [seed]);
    hide Run, Near, Step;
    forall e ensures e in tree.edges <==>
      && (exists v :: v in tree.nodes && v.idx == e.to)
      && exists v :: v in tree.nodes && v.idx == e.from && v.depth < options.maxDepth
           && Follows(g(v.idx), n, options.dataOnly, e.to, e.kind) {
      ShownEdgesExactly(g, q, tree.nodes, e);
      hide AllFollowed, Visible;
    }
  }

  /** On transposed rows with control edges kept, shown plus hidden edges are the out-degrees of the shown nodes. */
  lemma ForwardEdgesConserved(users: Users, deps: DependencyIndex, n: nat, seed: nat,
                              options: ForwardDepTree.ForwardOptions, tree: ForwardDepTree.ForwardTree)
    requires IsTransposeOf(users, deps, n) && n == users.nRows && !options.dataOnly
    requires ForwardDepTree.IsForwardTree(tree, users.Rows(), ForwardDepTree.ForwardQuery(n, options), seed)
    ensures |tree.edges| + tree.hiddenEdges == OutDegreeSum(users.Rows(), tree.nodes)
  {
    var q, g := ForwardDepTree.ForwardQuery(n, options), users.Rows();
    EdgesConserved(g, q, tree.nodes);
    ForwardTreeMeans(g, n, seed, options, tree);
    hide Run, AtDistance, Follows, AllFollowed, Visible, Unexpanded, Incoming, Users.Row, Users.Valid;
    forall v, e | v in tree.nodes && e in g(v.idx) ensures e.idx < n {
      assert v.idx < n;
      BucketAscends(deps.Rows(), RowCount(deps, n), v.idx);
    }
    DegreesAreOutDegrees(g, q, tree.nodes);
  }

  /** The tree's `truncated` means the node cap, and only it, hid a row within the depth bound. */
  lemma ForwardTruncatedIff(g: Graph, n: nat, seed: nat, options: ForwardDepTree.ForwardOptions,
      tree: ForwardDepTree.ForwardTree)
    requires ForwardDepTree.IsForwardTree(tree, g, ForwardDepTree.ForwardQuery(n, options), seed)
    ensures tree.truncated <==>
      exists v: nat :: Near(g, Scope(n, options.dataOnly), [seed], options.maxDepth, v) && v !in NodeSet(tree.nodes)
  {
    var q := ForwardDepTree.ForwardQuery(n, options);
    var w := Run(g, q, [seed]);
    NodeCutIffLeftOutInDepth(g, q, [seed]);
    forall v: nat ensures v in NodeSet(tree.nodes) <==> v in w.idxs {
      if v in w.idxs {
        var k :| 0 <= k < |w.idxs| && w.idxs[k] == v;
        assert tree.nodes[k] in tree.nodes && tree.nodes[k].idx == v;
      }
    }
    if tree.truncated {
      var v: nat, d: nat :| InDepth(q, d) && LeftOut(g, q, [seed], w, v, d);
      NearGrows(g, q.sc, [seed], d, options.maxDepth, v);
    }
    if v: nat :| Near(g, q.sc, [seed], options.maxDepth, v) && v !in NodeSet(tree.nodes) {
      assert InDepth(q, options.maxDepth) && LeftOut(g, q, [seed], w, v, options.maxDepth);
    }
  }
}
