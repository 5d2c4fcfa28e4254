module ForwardDepTree {
  import opened DependencyGraph
  import opened Bitsets
  import opened Wrappers
  import opened WalkSpec
  import opened ForwardSpec
  import opened DependencyUsers

  datatype ForwardOptions = ForwardOptions(dataOnly: bool, maxDepth: nat, maxNodes: nat)

  datatype ForwardTree = ForwardTree(nodes: seq<ForwardNode>, edges: seq<ForwardEdge>, truncated: bool,
    hiddenEdges: nat)

  function ForwardQuery(n: nat, options: ForwardOptions): Query {
    Query(Scope(n, options.dataOnly), options.maxNodes, Some(options.maxDepth))
  }

  /**
   * The variables of the walk: `head` nodes have left the queue, and besides the tree's nodes the visited
   * bits hold only rows the node cap has turned away.
   */
  ghost predicate Tracks(q: Query, w: Walk, head: nat, nodes: seq<ForwardNode>, queue: seq<ForwardNode>,
                         truncated: bool, visited: set<nat>) {
    && Sound(q, w) && nodes == Nodes(w) && truncated == w.nodeCut
    && head <= |nodes| && queue == nodes[head..]
    && (forall v :: v in w.idxs ==> v in visited)
    && (forall v :: v in visited && v !in w.idxs ==> q.Full(|w.idxs|) && w.nodeCut)
  }

  /** One followed edge, as the three branches of the walk treat it. */
  lemma EdgeTracks(q: Query, w: Walk, head: nat, nodes: seq<ForwardNode>, queue: seq<ForwardNode>,
                   truncated: bool, visited: set<nat>, depth: nat, e: Edge)
    requires Tracks(q, w, head, nodes, queue, truncated, visited) && !q.Capped(depth) && q.sc.Allows(e)
    ensures var r, full := Visit(q, w, depth, e), q.maxNodes != 0 && |nodes| >= q.maxNodes;
      if e.idx in visited then Tracks(q, r, head, nodes, queue, truncated, visited)
      else if full then Tracks(q, r, head, nodes, queue, true, visited + {e.idx})
      else Tracks(q, r, head, nodes + [ForwardNode(e.idx, depth + 1)], queue + [ForwardNode(e.idx, depth + 1)],
                  truncated, visited + {e.idx})
  {}

  /** A node at the depth cap leaves the queue and nothing else changes. */
  lemma {:induction false} ClosedTracks(q: Query, w: Walk, head: nat, nodes: seq<ForwardNode>, queue: seq<ForwardNode>,
                     truncated: bool, visited: set<nat>, depth: nat, row: seq<Edge>)
    requires Tracks(q, w, head, nodes, queue, truncated, visited) && q.Capped(depth)
    ensures Tracks(q, VisitRow(q, w, depth, row), head, nodes, queue, truncated, visited)
  {
    ClosedRowIsIdle(q, w, depth, row);
    VisitRowSound(q, w, depth, row);
    assert Nodes(VisitRow(q, w, depth, row)) == Nodes(w);
  }

  lemma PopTracks(q: Query, w: Walk, head: nat, nodes: seq<ForwardNode>, queue: seq<ForwardNode>,
                  truncated: bool, visited: set<nat>)
    requires Tracks(q, w, head, nodes, queue, truncated, visited) && queue != []
    ensures head < |nodes| == |w.idxs| == |w.depths| && queue[0] == nodes[head] == ForwardNode(w.idxs[head],
      w.depths[head])
    ensures Tracks(q, w, head + 1, nodes, queue[1..], truncated, visited) && Sound(q, w) && head < q.sc.n
  {
    DistinctBounded(w.idxs, q.sc.n);
  }

  lemma {:induction false} ClosedRowIsIdle(q: Query, w: Walk, depth: nat, row: seq<Edge>)
    requires q.Capped(depth)
    ensures VisitRow(q, w, depth, row).idxs == w.idxs && VisitRow(q, w, depth, row).depths == w.depths
    ensures VisitRow(q, w, depth, row).nodeCut == w.nodeCut
  {
    if |row| > 0 { ClosedRowIsIdle(q, w, depth, row[..|row| - 1]); }
  }

  lemma {:induction false} FollowStep(sc: Scope, from: nat, row: seq<Edge>, j: nat)
    requires j < |row|
    ensures Followed(sc, from, row[..j + 1]) ==
      Followed(sc, from, row[..j]) + if sc.Allows(row[j]) then [ForwardEdge(from, row[j].idx, row[j].kind)] else []
  {
    assert row[..j + 1][..j] == row[..j];
  }

  /** Expands one node above the depth cap. */
  method ExpandNode(ghost q: Query, ghost w0: Walk, ghost head: nat, n: nat, options: ForwardOptions,
                    v: ForwardNode, row: seq<Edge>, visited: Bitset,
                    nodes0: seq<ForwardNode>, queue0: seq<ForwardNode>, truncated0: bool)
    returns (nodes: seq<ForwardNode>, queue: seq<ForwardNode>, truncated: bool, edges: seq<ForwardEdge>)
    requires q == ForwardQuery(n, options) && !q.Capped(v.depth)
    requires visited.Valid() && visited.len == n
    requires Tracks(q, w0, head, nodes0, queue0, truncated0, visited.View())
    modifies visited.words
    ensures Tracks(q, VisitRow(q, w0, v.depth, row), head, nodes, queue, truncated, visited.View())
    ensures edges == Followed(q.sc, v.idx, row) && nodes0 <= nodes
  {
    nodes, queue, truncated, edges := nodes0, queue0, truncated0, [];
    assert row[..0] == [] && row[..|row|] == row;
    assert VisitRow(q, w0, v.depth, []) == w0 && Followed(q.sc, v.idx, []) == [];
    hide VisitRow, Followed, Tracks;
    for j := 0 to |row|
      invariant Tracks(q, VisitRow(q, w0, v.depth, row[..j]), head, nodes, queue, truncated, visited.View())
      invariant edges == Followed(q.sc, v.idx, row[..j]) && nodes0 <= nodes
    {
      var e := row[j];
      ghost var w := VisitRow(q, w0, v.depth, row[..j]);
      VisitStep(q, w0, v.depth, row, j);
      FollowStep(q.sc, v.idx, row, j);
      if e.idx >= n { continue; }
      if options.dataOnly && e.kind == Control { continue; }
      edges := edges + [ForwardEdge(v.idx, e.idx, e.kind)];
      EdgeTracks(q, w, head, nodes, queue, truncated, visited.View(), v.depth, e);
      hide Visit;
      var added := visited.Set(e.idx);
      if added {
        if options.maxNodes != 0 && |nodes| >= options.maxNodes {
          truncated := true;
          continue;
        }
        nodes := nodes + [ForwardNode(e.idx, v.depth + 1)];
        queue := queue + [ForwardNode(e.idx, v.depth + 1)];
      }
    }
  }

  /** Drops the edges that point at rows the tree does not show. */
  method RetainVisible(edges: seq<ForwardEdge>, visible: Bitset) returns (kept: seq<ForwardEdge>)
    requires visible.Valid()
    ensures kept == Visible(edges, visible.View())
  {
    kept := [];
    for k := 0 to |edges|
      invariant kept == Visible(edges[..k], visible.View())
    {
      assert edges[..k + 1][..k] == edges[..k];
      var from := visible.Get(edges[k].from);
      var to := visible.Get(edges[k].to);
      if from && to { kept := kept + [edges[k]]; }
    }
    assert edges[..|edges|] == edges;
  }

  lemma {:induction false} NodesGrow(g: Graph, q: Query, nodes: seq<ForwardNode>, head: nat)
    requires head < |nodes|
    ensures nodes[..head + 1][..head] == nodes[..head] && nodes[..head + 1][head] == nodes[head]
    ensures AllFollowed(g, q, nodes[..head + 1]) ==
      AllFollowed(g, q, nodes[..head]) + if q.Capped(nodes[head].depth) then []
        else Followed(q.sc, nodes[head].idx, g(nodes[head].idx))
    ensures Unexpanded(g, q, nodes[..head + 1]) ==
      Unexpanded(g, q, nodes[..head]) + if q.Capped(nodes[head].depth) then |g(nodes[head].idx)| else 0
  {}

  ghost predicate IsForwardTree(tree: ForwardTree, g: Graph, q: Query, seed: nat) {
    var w := Run(g, q, [seed]);
    && tree.nodes == Nodes(w) && tree.truncated == w.nodeCut
    && tree.edges == Visible(AllFollowed(g, q, tree.nodes), NodeSet(tree.nodes))
    && tree.hiddenEdges == Unexpanded(g, q, tree.nodes) + |AllFollowed(g, q, tree.nodes)| - |tree.edges|
  }

  /** What holds between two turns of the discovery loop. */
  ghost predicate Progress(g: Graph, q: Query, seed: nat, w: Walk, head: nat, nodes: seq<ForwardNode>,
                           queue: seq<ForwardNode>, truncated: bool, visited: set<nat>,
                           edges: seq<ForwardEdge>, hiddenEdges: nat) {
    && Tracks(q, w, head, nodes, queue, truncated, visited)
    && Drain(g, q, w, head) == Run(g, q, [seed])
    && edges == AllFollowed(g, q, nodes[..head])
    && hiddenEdges == Unexpanded(g, q, nodes[..head])
  }

  lemma {:induction false} ProgressStarts(g: Graph, q: Query, seed: nat)
    ensures var w := SeedAll(q, [seed]);
      if seed < q.sc.n then Progress(g, q, seed, w, 0, [ForwardNode(seed, 0)], [ForwardNode(seed, 0)], false, {seed},
        [], 0)
      else Progress(g, q, seed, w, 0, [], [], false, {}, [], 0)
  {}

  lemma {:induction false} ProgressSteps(g: Graph, q: Query, seed: nat, w: Walk, head: nat, nodes: seq<ForwardNode>,
                      queue: seq<ForwardNode>, truncated: bool, visited: set<nat>, edges: seq<ForwardEdge>,
                      hiddenEdges: nat,
                      nodes': seq<ForwardNode>, queue': seq<ForwardNode>, truncated': bool, visited': set<nat>,
                      edges': seq<ForwardEdge>, hiddenEdges': nat)
    requires Progress(g, q, seed, w, head, nodes, queue, truncated, visited, edges, hiddenEdges) && queue != []
    requires var v := queue[0];
      && Tracks(q, VisitRow(q, w, v.depth, g(v.idx)), head + 1, nodes', queue', truncated', visited') && nodes <= nodes'
      && edges' == edges + (if q.Capped(v.depth) then [] else Followed(q.sc, v.idx, g(v.idx)))
      && hiddenEdges' == hiddenEdges + (if q.Capped(v.depth) then |g(v.idx)| else 0)
    ensures Progress(g, q, seed, VisitRow(q, w, queue[0].depth, g(queue[0].idx)), head + 1,
                     nodes', queue', truncated', visited', edges', hiddenEdges')
  {
    hide Visit, VisitRow, Followed;
    NodesGrow(g, q, nodes, head);
    assert nodes'[..head + 1] == nodes[..head + 1];
    VisitRowSound(q, w, queue[0].depth, g(queue[0].idx));
  }

  lemma {:induction false} ProgressEnds(g: Graph, q: Query, seed: nat, w: Walk, head: nat, nodes: seq<ForwardNode>,
      truncated: bool,
                     visited: set<nat>, edges: seq<ForwardEdge>, hiddenEdges: nat)
    requires Progress(g, q, seed, w, head, nodes, [], truncated, visited, edges, hiddenEdges)
    ensures nodes == Nodes(Run(g, q, [seed])) && truncated == Run(g, q, [seed]).nodeCut
    ensures edges == AllFollowed(g, q, nodes) && hiddenEdges == Unexpanded(g, q, nodes)
  {
    assert nodes[..head] == nodes;
  }

  lemma ProgressTracks(g: Graph, q: Query, seed: nat, w: Walk, head: nat, nodes: seq<ForwardNode>,
                       queue: seq<ForwardNode>, truncated: bool, visited: set<nat>,
                       edges: seq<ForwardEdge>, hiddenEdges: nat)
    requires Progress(g, q, seed, w, head, nodes, queue, truncated, visited, edges, hiddenEdges) && queue != []
    ensures Tracks(q, w, head + 1, nodes, queue[1..], truncated, visited) && head < q.sc.n
  {
    PopTracks(q, w, head, nodes, queue, truncated, visited);
  }

  /** One turn: a node at the depth cap only has its edges counted, any other is expanded. */
  method Turn(users: Users, options: ForwardOptions, ghost q: Query, ghost w: Walk, ghost head: nat, v: ForwardNode,
      visited: Bitset,
              nodes0: seq<ForwardNode>, queue0: seq<ForwardNode>, truncated0: bool)
    returns (nodes: seq<ForwardNode>, queue: seq<ForwardNode>, truncated: bool, more: seq<ForwardEdge>, hidden: nat)
    requires users.Valid() && q == ForwardQuery(users.nRows, options)
    requires visited.Valid() && visited.len == users.nRows
    requires Tracks(q, w, head, nodes0, queue0, truncated0, visited.View())
    modifies visited.words
    ensures var row := users.Row(v.idx);
      && Tracks(q, VisitRow(q, w, v.depth, row), head, nodes, queue, truncated, visited.View()) && nodes0 <= nodes
      && more == (if q.Capped(v.depth) then [] else Followed(q.sc, v.idx, row))
      && hidden == (if q.Capped(v.depth) then |row| else 0)
  {
    hide VisitRow, Followed, Tracks;
    var row := users.Row(v.idx);
    if v.depth >= options.maxDepth {
      ClosedTracks(q, w, head, nodes0, queue0, truncated0, visited.View(), v.depth, row);
      return nodes0, queue0, truncated0, [], users.OutDegree(v.idx);
    }
    nodes, queue, truncated, more := ExpandNode(q, w, head, users.nRows, options, v, row, visited, nodes0, queue0,
      truncated0);
    hidden := 0;
  }

  /** Discovers the nodes, following edges and counting the unexpanded ones on the way. */
  method Discover(users: Users, seed: nat, options: ForwardOptions)
    returns (nodes: seq<ForwardNode>, edges: seq<ForwardEdge>, truncated: bool, hiddenEdges: nat)
    requires users.Valid()
    ensures var q, g := ForwardQuery(users.nRows, options), users.Rows();
      && nodes == Nodes(Run(g, q, [seed])) && truncated == Run(g, q, [seed]).nodeCut
      && edges == AllFollowed(g, q, nodes) && hiddenEdges == Unexpanded(g, q, nodes)
  {
    var n := users.nRows;
    ghost var g, q := users.Rows(), ForwardQuery(n, options);
    var queue: seq<ForwardNode>;
    nodes, edges, queue, truncated, hiddenEdges := [], [], [], false, 0;
    var visited := new Bitset.WithLen(n);
    hide Run, SeedAll, VisitRow, Nodes, Followed, AllFollowed, Unexpanded, Tracks, Progress, Users.Valid, Users.Row;
    ghost var w, head := SeedAll(q, [seed]), 0;
    ProgressStarts(g, q, seed);
    if seed < n {
      var _ := visited.Set(seed);
      assert visited.View() == {seed};
      nodes := [ForwardNode(seed, 0)];
      queue := [ForwardNode(seed, 0)];
    }
    while queue != []
      invariant head <= n && Progress(g, q, seed, w, head, nodes, queue, truncated, visited.View(), edges, hiddenEdges)
      decreases n - head
    {
      ProgressTracks(g, q, seed, w, head, nodes, queue, truncated, visited.View(), edges, hiddenEdges);
      var v := queue[0];
      ghost var nodes0, queue0, truncated0, visited0, edges0, hidden0 := nodes, queue, truncated, visited.View(),
        edges, hiddenEdges;
      var more, hidden;
      nodes, queue, truncated, more, hidden := Turn(users, options, q, w, head + 1, v, visited, nodes, queue[1..],
        truncated);
      edges, hiddenEdges := edges + more, hiddenEdges + hidden;
      ProgressSteps(g, q, seed, w, head, nodes0, queue0, truncated0, visited0, edges0, hidden0,
                    nodes, queue, truncated, visited.View(), edges, hiddenEdges);
      w, head := VisitRow(q, w, v.depth, g(v.idx)), head + 1;
    }
    ProgressEnds(g, q, seed, w, head, nodes, truncated, visited.View(), edges, hiddenEdges);
  }

  method ForwardTreeFrom(users: Users, seed: nat, options: ForwardOptions) returns (tree: ForwardTree)
    requires users.Valid()
    ensures IsForwardTree(tree, users.Rows(), ForwardQuery(users.nRows, options), seed)
  {
    var nodes, edges, truncated, hiddenEdges := Discover(users, seed, options);
    ghost var w := Run(users.Rows(), ForwardQuery(users.nRows, options), [seed]);
    hide Run, AllFollowed, Unexpanded;
    var shown := seq(|nodes|, k requires 0 <= k < |nodes| => nodes[k].idx);
    var visible := new Bitset.FromIdxs(shown, users.nRows);
    forall v ensures v in visible.View() <==> v in NodeSet(nodes) {
      if v in NodeSet(nodes) {
        var k :| 0 <= k < |nodes| && nodes[k].idx == v;
        assert shown[k] == v && v == w.idxs[k];
      }
    }
    assert visible.View() == NodeSet(nodes);
    var kept := RetainVisible(edges, visible);
    VisibleMeans(edges, NodeSet(nodes), ForwardEdge(0, 0, Reg));
    tree := ForwardTree(nodes, kept, truncated, hiddenEdges + (|edges| - |kept|));
  }
}
