/** What the forward tree lists besides its nodes: the edges followed, shown and hidden. */
module ForwardSpec {
  import opened DependencyGraph
  import opened WalkSpec

  datatype ForwardNode = ForwardNode(idx: nat, depth: nat)

  datatype ForwardEdge = ForwardEdge(from: nat, to: nat, kind: DepKind)

  function Nodes(w: Walk): (nodes: seq<ForwardNode>)
    requires |w.depths| == |w.idxs|
    ensures |nodes| == |w.idxs|
    ensures forall k :: 0 <= k < |nodes| ==> nodes[k] == ForwardNode(w.idxs[k], w.depths[k])
  {
    seq(|w.idxs|, k requires 0 <= k < |w.idxs| => ForwardNode(w.idxs[k], w.depths[k]))
  }

  /** The edges out of `from` the query may follow, in row order. */
  function Followed(sc: Scope, from: nat, row: seq<Edge>): seq<ForwardEdge> {
    if |row| == 0 then []
    else
      var e := row[|row| - 1];
      Followed(sc, from, row[..|row| - 1]) + (if sc.Allows(e) then [ForwardEdge(from, e.idx, e.kind)] else [])
  }

  /** All edges followed while expanding `nodes`; a node at the depth cap is not expanded. */
  function AllFollowed(g: Graph, q: Query, nodes: seq<ForwardNode>): seq<ForwardEdge> {
    if |nodes| == 0 then []
    else
      var v := nodes[|nodes| - 1];
      AllFollowed(g, q, nodes[..|nodes| - 1]) + (if q.Capped(v.depth) then [] else Followed(q.sc, v.idx, g(v.idx)))
  }

  /** Out-degrees of the nodes the depth cap keeps closed. */
  function Unexpanded(g: Graph, q: Query, nodes: seq<ForwardNode>): nat {
    if |nodes| == 0 then 0
    else
      var v := nodes[|nodes| - 1];
      Unexpanded(g, q, nodes[..|nodes| - 1]) + (if q.Capped(v.depth) then |g(v.idx)| else 0)
  }

  function Visible(edges: seq<ForwardEdge>, shown: set<nat>): seq<ForwardEdge> {
    if |edges| == 0 then []
    else
      var e := edges[|edges| - 1];
      Visible(edges[..|edges| - 1], shown) + (if e.from in shown && e.to in shown then [e] else [])
  }

  function NodeSet(nodes: seq<ForwardNode>): set<nat> { set v | v in nodes :: v.idx }

  // ---------- meaning ----------

  lemma {:induction false} FollowedMeans(sc: Scope, from: nat, row: seq<Edge>, e: ForwardEdge)
    ensures e in Followed(sc, from, row)
      <==> e.from == from && Edge(e.to, e.kind) in row && sc.Allows(Edge(e.to, e.kind))
  {
    if |row| > 0 {
      FollowedMeans(sc, from, row[..|row| - 1], e);
      assert row == row[..|row| - 1] + [row[|row| - 1]];
    }
  }

  lemma {:induction false} AllFollowedMeans(g: Graph, q: Query, nodes: seq<ForwardNode>, e: ForwardEdge)
    ensures e in AllFollowed(g, q, nodes) <==>
      (exists v :: v in nodes && v.idx == e.from && !q.Capped(v.depth)
         && Edge(e.to, e.kind) in g(v.idx) && q.sc.Allows(Edge(e.to, e.kind)))
  {
    if |nodes| > 0 {
      var front, v := nodes[..|nodes| - 1], nodes[|nodes| - 1];
      AllFollowedMeans(g, q, front, e);
      FollowedMeans(q.sc, v.idx, g(v.idx), e);
      assert nodes == front + [v];
      hide Followed;
    }
  }

  lemma {:induction false} VisibleMeans(edges: seq<ForwardEdge>, shown: set<nat>, e: ForwardEdge)
    ensures e in Visible(edges, shown) <==> e in edges && e.from in shown && e.to in shown
    ensures |Visible(edges, shown)| <= |edges|
  {
    if |edges| > 0 {
      VisibleMeans(edges[..|edges| - 1], shown, e);
      assert edges == edges[..|edges| - 1] + [edges[|edges| - 1]];
    }
  }

  /** The shown edges are exactly the allowed edges from nodes above the depth cap into nodes of the tree. */
  lemma {:induction false} ShownEdgesExactly(g: Graph, q: Query, nodes: seq<ForwardNode>, e: ForwardEdge)
    ensures e in Visible(AllFollowed(g, q, nodes), NodeSet(nodes)) <==>
      && e.to in NodeSet(nodes)
      && (exists v :: v in nodes && v.idx == e.from && !q.Capped(v.depth)
            && Edge(e.to, e.kind) in g(v.idx) && q.sc.Allows(Edge(e.to, e.kind)))
  {
    VisibleMeans(AllFollowed(g, q, nodes), NodeSet(nodes), e);
    AllFollowedMeans(g, q, nodes, e);
  }

  function Times(edges: seq<ForwardEdge>, e: ForwardEdge): nat {
    if |edges| == 0 then 0 else Times(edges[..|edges| - 1], e) + (if edges[|edges| - 1] == e then 1 else 0)
  }

  lemma {:induction false} TimesAppend(a: seq<ForwardEdge>, b: seq<ForwardEdge>, e: ForwardEdge)
    ensures Times(a + b, e) == Times(a, e) + Times(b, e)
  {
    if |b| == 0 {
      assert a + b == a;
    } else {
      TimesAppend(a, b[..|b| - 1], e);
      assert (a + b)[..|a + b| - 1] == a + b[..|b| - 1];
    }
  }

  lemma RowTimes(row: seq<Edge>, e: Edge)
    requires |row| > 0
    ensures multiset(row)[e] == multiset(row[..|row| - 1])[e] + if row[|row| - 1] == e then 1 else 0
  {
    assert row == row[..|row| - 1] + [row[|row| - 1]];
  }

  lemma {:induction false} OneTime(a: seq<ForwardEdge>, last: ForwardEdge, e: ForwardEdge)
    ensures Times(a + [last], e) == Times(a, e) + if last == e then 1 else 0
    ensures Times([], e) == 0
  {
    assert (a + [last])[..|a|] == a;
  }

  lemma {:induction false} FollowedTimes(sc: Scope, from: nat, row: seq<Edge>, e: ForwardEdge)
    ensures Times(Followed(sc, from, row), e)
      == if e.from == from && sc.Allows(Edge(e.to, e.kind)) then multiset(row)[Edge(e.to, e.kind)] else 0
  {
    if |row| > 0 {
      var front, last := row[..|row| - 1], row[|row| - 1];
      FollowedTimes(sc, from, front, e);
      RowTimes(row, Edge(e.to, e.kind));
      var more := ForwardEdge(from, last.idx, last.kind);
      OneTime(Followed(sc, from, front), more, e);
      assert Followed(sc, from, front) + [] == Followed(sc, from, front);
      hide Times;
    }
  }

  lemma {:induction false} VisibleTimes(edges: seq<ForwardEdge>, shown: set<nat>, e: ForwardEdge)
    ensures Times(Visible(edges, shown), e) == if e.from in shown && e.to in shown then Times(edges, e) else 0
  {
    if |edges| > 0 {
      var front, last := edges[..|edges| - 1], edges[|edges| - 1];
      VisibleTimes(front, shown, e);
      var before := Visible(front, shown);
      assert (before + [last])[..|before|] == before && before + [] == before;
    }
  }

  /** How often a node of the list is expanded: once at most, as every row is listed once. */
  ghost predicate Expands(q: Query, nodes: seq<ForwardNode>, from: nat) {
    exists v :: v in nodes && v.idx == from && !q.Capped(v.depth)
  }

  lemma {:induction false} AllFollowedTimes(g: Graph, q: Query, nodes: seq<ForwardNode>, e: ForwardEdge)
    requires forall i, j :: 0 <= i < j < |nodes| ==> nodes[i].idx != nodes[j].idx
    ensures Times(AllFollowed(g, q, nodes), e)
      == if Expands(q, nodes, e.from) && q.sc.Allows(Edge(e.to, e.kind)) then multiset(g(e.from))[Edge(e.to, e.kind)]
         else 0
  {
    hide Times, Followed;
    if |nodes| == 0 {
      NoTimes(e);
    } else {
      var front, v := nodes[..|nodes| - 1], nodes[|nodes| - 1];
      AllFollowedTimes(g, q, front, e);
      FollowedTimes(q.sc, v.idx, g(v.idx), e);
      NoTimes(e);
      TimesAppend(AllFollowed(g, q, front), if q.Capped(v.depth) then [] else Followed(q.sc, v.idx, g(v.idx)), e);
      assert nodes == front + [v];
      assert v.idx == e.from ==> !Expands(q, front, e.from);
    }
  }

  lemma {:induction false} NoTimes(e: ForwardEdge)
    ensures Times([], e) == 0
  {}

  /** Each shown edge is listed as often as its row holds it. */
  lemma {:induction false} ShownEdgesTimes(g: Graph, q: Query, nodes: seq<ForwardNode>, e: ForwardEdge)
    requires forall i, j :: 0 <= i < j < |nodes| ==> nodes[i].idx != nodes[j].idx
    ensures Times(Visible(AllFollowed(g, q, nodes), NodeSet(nodes)), e)
      == if e.to in NodeSet(nodes) && Expands(q, nodes, e.from) && q.sc.Allows(Edge(e.to, e.kind))
         then multiset(g(e.from))[Edge(e.to, e.kind)] else 0
  {
    VisibleTimes(AllFollowed(g, q, nodes), NodeSet(nodes), e);
    AllFollowedTimes(g, q, nodes, e);
  }

  /** Edges a node stands for: all of them when the depth cap closes it, the allowed ones otherwise. */
  function Degree(g: Graph, q: Query, v: ForwardNode): nat {
    if q.Capped(v.depth) then |g(v.idx)| else |Followed(q.sc, v.idx, g(v.idx))|
  }

  function DegreeSum(g: Graph, q: Query, nodes: seq<ForwardNode>): nat {
    if |nodes| == 0 then 0 else DegreeSum(g, q, nodes[..|nodes| - 1]) + Degree(g, q, nodes[|nodes| - 1])
  }

  function OutDegreeSum(g: Graph, nodes: seq<ForwardNode>): nat {
    if |nodes| == 0 then 0 else OutDegreeSum(g, nodes[..|nodes| - 1]) + |g(nodes[|nodes| - 1].idx)|
  }

  /** Shown plus hidden edges account for every node's edges, whatever the caps cut. */
  lemma {:induction false} EdgesConserved(g: Graph, q: Query, nodes: seq<ForwardNode>)
    ensures Unexpanded(g, q, nodes) + |AllFollowed(g, q, nodes)| == DegreeSum(g, q, nodes)
  {
    if |nodes| > 0 {
      hide Followed;
      EdgesConserved(g, q, nodes[..|nodes| - 1]);
    }
  }

  lemma {:induction false} AllEdgesFollowed(sc: Scope, from: nat, row: seq<Edge>)
    requires !sc.dataOnly && forall e :: e in row ==> e.idx < sc.n
    ensures |Followed(sc, from, row)| == |row|
  {
    if |row| > 0 { AllEdgesFollowed(sc, from, row[..|row| - 1]); }
  }

  /** With control edges kept and in-range rows, that total is the plain sum of out-degrees. */
  lemma {:induction false} DegreesAreOutDegrees(g: Graph, q: Query, nodes: seq<ForwardNode>)
    requires !q.sc.dataOnly
    requires forall v, e :: v in nodes && e in g(v.idx) ==> e.idx < q.sc.n
    ensures DegreeSum(g, q, nodes) == OutDegreeSum(g, nodes)
  {
    if |nodes| > 0 {
      var v := nodes[|nodes| - 1];
      AllEdgesFollowed(q.sc, v.idx, g(v.idx));
      DegreesAreOutDegrees(g, q, nodes[..|nodes| - 1]);
    }
  }
}
