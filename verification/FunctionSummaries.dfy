/** Per-function totals gathered from the call tree. */
module FunctionSummaries {
  import opened Wrappers
  import opened Numbers
  import opened CallTreeSpec
  import opened CallTreeNodes
  import opened CallTreeUncapped
  import opened MapSums
  import CallTreePruning

  datatype FunctionAccum = FunctionAccum(
    fnName: Option<string>, callCount: nat, totalRecords: nat, firstEnterIdx: nat, lastExitIdx: nat, maxDepth: nat)

  type Key = (nat, string)

  type Accums = map<Key, FunctionAccum>

  function KeyOf(node: CallNode): Key { (node.fnPc, if node.fnName.Some? then node.fnName.value else "") }

  /** Records from entry to exit, at least one. */
  function Span(node: CallNode): nat { if node.exitIdx >= node.enterIdx then node.exitIdx - node.enterIdx + 1 else 1 }

  function Fold(a: FunctionAccum, node: CallNode): FunctionAccum {
    FunctionAccum(a.fnName, a.callCount + 1, a.totalRecords + Span(node), Min(a.firstEnterIdx, node.enterIdx),
                  Max(a.lastExitIdx, node.exitIdx), Max(a.maxDepth, node.depth))
  }

  function Fresh(node: CallNode): FunctionAccum { FunctionAccum(node.fnName, 0, 0, node.enterIdx, node.exitIdx, 0) }

  /** The root is no function and is left out. */
  function Note(accums: Accums, node: CallNode): Accums {
    if node.depth == 0 then accums
    else accums[KeyOf(node) := Fold(if KeyOf(node) in accums then accums[KeyOf(node)] else Fresh(node), node)]
  }

  function NoteAll(accums: Accums, nodes: seq<CallNode>): Accums {
    if |nodes| == 0 then accums else Note(NoteAll(accums, nodes[..|nodes| - 1]), nodes[|nodes| - 1])
  }

  /** A tree's nodes, each before its children. */
  function Nodes(node: CallNode): seq<CallNode> { [node] + NodesOfAll(node.children) }

  function NodesOfAll(nodes: seq<CallNode>): seq<CallNode> {
    if |nodes| == 0 then [] else Nodes(nodes[0]) + NodesOfAll(nodes[1..])
  }

  lemma {:induction false} NoteAllAppend(accums: Accums, a: seq<CallNode>, b: seq<CallNode>)
    ensures NoteAll(accums, a + b) == NoteAll(NoteAll(accums, a), b)
  {
    if |b| == 0 {
      assert a + b == a;
    } else {
      NoteAllAppend(accums, a, b[..|b| - 1]);
      assert (a + b)[..|a + b| - 1] == a + b[..|b| - 1];
    }
  }

  lemma {:induction false} NodesOfAllAppend(a: seq<CallNode>, b: seq<CallNode>)
    ensures NodesOfAll(a + b) == NodesOfAll(a) + NodesOfAll(b)
  {
    hide Nodes;
    if |a| == 0 {
      assert a + b == b;
    } else {
      var first, rest := Nodes(a[0]), NodesOfAll(a[1..]);
      NodesOfAllAppend(a[1..], b);
      assert (a + b)[1..] == a[1..] + b && (a + b)[0] == a[0];
      assert NodesOfAll(a + b) == first + (rest + NodesOfAll(b));
      assert NodesOfAll(a) == first + rest;
    }
  }

  lemma {:induction false} RootNoted(accums0: Accums, node: CallNode)
    ensures NoteAll(accums0, [node] + NodesOfAll([])) == Note(accums0, node)
  {
    assert [node] + NodesOfAll([]) == [node] && [node][..0] == [];
  }

  lemma {:induction false} ChildNoted(accums0: Accums, node: CallNode, k: nat)
    requires k < |node.children|
    ensures NoteAll(accums0, [node] + NodesOfAll(node.children[..k + 1]))
      == NoteAll(NoteAll(accums0, [node] + NodesOfAll(node.children[..k])), Nodes(node.children[k]))
  {
    var before, child := node.children[..k], node.children[k];
    NodesOfAllAppend(before, [child]);
    assert NodesOfAll([child]) == Nodes(child) by { assert [child][1..] == [] && Nodes(child) + [] == Nodes(child); }
    NoteAllAppend(accums0, [node] + NodesOfAll(before), Nodes(child));
    hide NoteAll, NodesOfAll, Nodes;
    assert node.children[..k + 1] == before + [child];
    assert [node] + (NodesOfAll(before) + Nodes(child)) == ([node] + NodesOfAll(before)) + Nodes(child);
  }

  method CollectFunctionSummaries(node: CallNode, accums0: Accums) returns (accums: Accums)
    ensures accums == NoteAll(accums0, Nodes(node))
    ensures accums0 == map[] && node.depth == 0 ==> SummariesOf(node, accums)
    decreases node
  {
    hide Note, NoteAll, NodesOfAll, SummariesOf;
    accums := Note(accums0, node);
    RootNoted(accums0, node);
    assert node.children[..0] == [];
    for k := 0 to |node.children|
      invariant accums == NoteAll(accums0, [node] + NodesOfAll(node.children[..k]))
    {
      accums := CollectFunctionSummaries(node.children[k], accums);
      ChildNoted(accums0, node, k);
    }
    assert node.children[..|node.children|] == node.children;
    if node.depth == 0 { TreeSummaries(node); }
  }

  // ---------- what a summary says ----------

  /** The nodes below the root that share a key, in order. */
  ghost function Members(nodes: seq<CallNode>, key: Key): seq<CallNode> {
    if |nodes| == 0 then []
    else
      var last := nodes[|nodes| - 1];
      Members(nodes[..|nodes| - 1], key) + (if last.depth > 0 && KeyOf(last) == key then [last] else [])
  }

  ghost function TotalSpan(nodes: seq<CallNode>): nat {
    if |nodes| == 0 then 0 else TotalSpan(nodes[..|nodes| - 1]) + Span(nodes[|nodes| - 1])
  }

  /** Counts and totals over all members, with the earliest entry, the latest exit and the greatest depth among them. */
  ghost predicate Summarises(a: FunctionAccum, members: seq<CallNode>) {
    && a.callCount == |members| > 0 && a.totalRecords == TotalSpan(members) && a.fnName == members[0].fnName
    && (forall m :: m in members ==>
          a.firstEnterIdx <= m.enterIdx && m.exitIdx <= a.lastExitIdx && m.depth <= a.maxDepth)
    && (exists m :: m in members && m.enterIdx == a.firstEnterIdx)
    && (exists m :: m in members && m.exitIdx == a.lastExitIdx)
    && (exists m :: m in members && m.depth == a.maxDepth)
  }

  lemma FoldSummarises(a: FunctionAccum, members: seq<CallNode>, node: CallNode)
    requires Summarises(a, members)
    ensures Summarises(Fold(a, node), members + [node])
  {}

  lemma FirstSummarises(node: CallNode)
    ensures Summarises(Fold(Fresh(node), node), [node])
  {}

  /** There is a summary for a key exactly if some node below the root has it, and it sums up exactly those nodes. */
  lemma {:induction false} SummariesSumUp(nodes: seq<CallNode>, key: Key)
    ensures var accums := NoteAll(map[], nodes);
      && (key in accums <==> |Members(nodes, key)| > 0)
      && (key in accums ==> Summarises(accums[key], Members(nodes, key)))
  {
    if |nodes| > 0 {
      var front, last := nodes[..|nodes| - 1], nodes[|nodes| - 1];
      SummariesSumUp(front, key);
      hide Summarises, Fold, Fresh;
      if last.depth > 0 && KeyOf(last) == key {
        if key in NoteAll(map[], front) {
          FoldSummarises(NoteAll(map[], front)[key], Members(front, key), last);
        } else {
          FirstSummarises(last);
          assert Members(front, key) + [last] == [last];
        }
      } else {
        assert Members(front, key) + [] == Members(front, key);
      }
    }
  }

  // ---------- what the summaries of a tree say ----------

  /** `f` over all proper descendants. */
  ghost function SumBelow(node: CallNode, f: CallNode -> nat): nat { SumOver(node.children, f) }

  ghost function SumOver(nodes: seq<CallNode>, f: CallNode -> nat): nat {
    if |nodes| == 0 then 0 else f(nodes[0]) + SumBelow(nodes[0], f) + SumOver(nodes[1..], f)
  }

  ghost function ListSum(nodes: seq<CallNode>, f: CallNode -> nat): nat {
    if |nodes| == 0 then 0 else ListSum(nodes[..|nodes| - 1], f) + f(nodes[|nodes| - 1])
  }

  lemma {:induction false} ListSumAppend(a: seq<CallNode>, b: seq<CallNode>, f: CallNode -> nat)
    ensures ListSum(a + b, f) == ListSum(a, f) + ListSum(b, f)
  {
    if |b| == 0 {
      assert a + b == a;
    } else {
      ListSumAppend(a, b[..|b| - 1], f);
      assert (a + b)[..|a + b| - 1] == a + b[..|b| - 1];
    }
  }

  lemma {:induction false} TreeSum(node: CallNode, f: CallNode -> nat)
    ensures ListSum(Nodes(node), f) == f(node) + SumBelow(node, f)
    decreases node
  {
    ForestSum(node.children, f);
    ListSumAppend([node], NodesOfAll(node.children), f);
    assert [node][..0] == [];
  }

  lemma {:induction false} ForestSum(nodes: seq<CallNode>, f: CallNode -> nat)
    ensures ListSum(NodesOfAll(nodes), f) == SumOver(nodes, f)
    decreases nodes
  {
    if |nodes| > 0 {
      TreeSum(nodes[0], f);
      ForestSum(nodes[1..], f);
      ListSumAppend(Nodes(nodes[0]), NodesOfAll(nodes[1..]), f);
    }
  }

  lemma {:induction false} TreeHolds(node: CallNode, c: CallNode)
    ensures c in Nodes(node) <==> c == node || Below(c, node)
    decreases node
  {
    ForestHolds(node.children, c);
    assert Below(c, node) <==> Among(c, node.children);
  }

  lemma {:induction false} ForestHolds(nodes: seq<CallNode>, c: CallNode)
    ensures c in NodesOfAll(nodes) <==> Among(c, nodes)
    decreases nodes
  {
    if |nodes| > 0 {
      TreeHolds(nodes[0], c);
      ForestHolds(nodes[1..], c);
      hide Below;
      AmongJoined(c, [nodes[0]], nodes[1..]);
      AmongOne(c, nodes[0]);
      assert [nodes[0]] + nodes[1..] == nodes;
    }
  }

  /** A node below the top level whose PC and name make up the key. */
  ghost predicate Has(c: CallNode, key: Key) {
    c.depth > 0 && c.fnPc == key.0 && (match c.fnName case Some(name) => name == key.1 case None => key.1 == "")
  }

  ghost function HasOne(key: Key): CallNode -> nat { (c: CallNode) => if Has(c, key) then 1 else 0 }

  /** Records from entry to exit of the nodes with the key, at least one each. */
  ghost function Records(key: Key): CallNode -> nat {
    (c: CallNode) =>
      if !Has(c, key) then 0 else if c.exitIdx > c.enterIdx then c.exitIdx - c.enterIdx + 1 else 1
  }

  lemma KeyHas(c: CallNode, key: Key)
    ensures Has(c, key) <==> c.depth > 0 && KeyOf(c) == key
    ensures Records(key)(c) == if Has(c, key) then Span(c) else 0
  {}

  lemma {:induction false} SpanNext(members: seq<CallNode>, c: CallNode)
    ensures TotalSpan(members + [c]) == TotalSpan(members) + Span(c)
  {
    assert (members + [c])[..|members|] == members;
  }

  /** One more node: it joins the members exactly if it has the key. */
  lemma MembersNext(nodes: seq<CallNode>, key: Key)
    requires |nodes| > 0
    ensures var front, last := nodes[..|nodes| - 1], nodes[|nodes| - 1];
      Members(nodes, key) == if Has(last, key) then Members(front, key) + [last] else Members(front, key)
  {
    var front, last := nodes[..|nodes| - 1], nodes[|nodes| - 1];
    KeyHas(last, key);
    hide Has, KeyOf;
    assert Members(front, key) + [] == Members(front, key);
  }

  lemma {:induction false} ListSumNext(nodes: seq<CallNode>, f: CallNode -> nat)
    requires |nodes| > 0
    ensures ListSum(nodes, f) == ListSum(nodes[..|nodes| - 1], f) + f(nodes[|nodes| - 1])
  {}

  lemma {:induction false} MembersHold(nodes: seq<CallNode>, key: Key, c: CallNode)
    ensures c in Members(nodes, key) <==> c in nodes && Has(c, key)
  {
    if |nodes| > 0 {
      hide Members, Has;
      MembersHold(nodes[..|nodes| - 1], key, c);
      MembersNext(nodes, key);
      assert nodes == nodes[..|nodes| - 1] + [nodes[|nodes| - 1]];
    }
  }

  lemma {:induction false} MembersSum(nodes: seq<CallNode>, key: Key)
    ensures |Members(nodes, key)| == ListSum(nodes, HasOne(key))
    ensures TotalSpan(Members(nodes, key)) == ListSum(nodes, Records(key))
  {
    if |nodes| > 0 {
      hide Members, TotalSpan, ListSum, Has, Span, KeyOf, Records;
      var front, last := nodes[..|nodes| - 1], nodes[|nodes| - 1];
      MembersSum(front, key);
      MembersNext(nodes, key);
      SpanNext(Members(front, key), last);
      KeyHas(last, key);
      ListSumNext(nodes, HasOne(key));
      ListSumNext(nodes, Records(key));
    }
  }

  /**
   * One summary, over the tree: how many descendants have the key, the records they span, their earliest entry, their
   * latest exit and their greatest depth.
   */
  ghost predicate SummaryOf(node: CallNode, key: Key, a: FunctionAccum) {
    && a.callCount == SumBelow(node, HasOne(key)) && a.totalRecords == SumBelow(node, Records(key))
    && (forall c :: Below(c, node) && Has(c, key) ==>
          a.firstEnterIdx <= c.enterIdx && c.exitIdx <= a.lastExitIdx && c.depth <= a.maxDepth)
    && (exists c :: Below(c, node) && Has(c, key) && c.enterIdx == a.firstEnterIdx)
    && (exists c :: Below(c, node) && Has(c, key) && c.exitIdx == a.lastExitIdx)
    && (exists c :: Below(c, node) && Has(c, key) && c.depth == a.maxDepth)
    && (exists c :: Below(c, node) && Has(c, key) && c.fnName == a.fnName)
  }

  /** A key has a summary exactly if some proper descendant has it. */
  ghost predicate SummariesOf(node: CallNode, accums: Accums) {
    && (forall key :: key in accums <==> exists c :: Below(c, node) && Has(c, key))
    && (forall key :: key in accums ==> SummaryOf(node, key, accums[key]))
  }

  lemma {:induction false} MembersOfTree(node: CallNode, key: Key)
    requires node.depth == 0
    ensures var members := Members(Nodes(node), key);
      && |members| == SumBelow(node, HasOne(key)) && TotalSpan(members) == SumBelow(node, Records(key))
      && forall c :: c in members <==> Below(c, node) && Has(c, key)
  {
    MembersSum(Nodes(node), key);
    TreeSum(node, HasOne(key));
    TreeSum(node, Records(key));
    hide Nodes, Below, Members, SumBelow, ListSum, TotalSpan;
    forall c ensures c in Members(Nodes(node), key) <==> Below(c, node) && Has(c, key) {
      TreeHolds(node, c);
      MembersHold(Nodes(node), key, c);
    }
  }

  lemma {:induction false} SummaryIs(a: FunctionAccum, members: seq<CallNode>, node: CallNode, key: Key)
    requires Summarises(a, members)
    requires |members| == SumBelow(node, HasOne(key)) && TotalSpan(members) == SumBelow(node, Records(key))
    requires forall c :: c in members <==> Below(c, node) && Has(c, key)
    ensures SummaryOf(node, key, a)
  {
    hide Below, Has, SumBelow, TotalSpan;
    assert members[0] in members;
  }

  lemma {:induction false} OneSummary(node: CallNode, key: Key)
    requires node.depth == 0
    ensures var accums := NoteAll(map[], Nodes(node));
      && (key in accums <==> exists c :: Below(c, node) && Has(c, key))
      && (key in accums ==> SummaryOf(node, key, accums[key]))
  {
    SummariesSumUp(Nodes(node), key);
    MembersOfTree(node, key);
    var accums, members := NoteAll(map[], Nodes(node)), Members(Nodes(node), key);
    hide Nodes, NoteAll, Members, Below, Has, SumBelow, TotalSpan, Summarises, SummaryOf;
    if key in accums { SummaryIs(accums[key], members, node, key); }
    if |members| > 0 { assert members[0] in members; }
  }

  lemma {:induction false} TreeSummaries(node: CallNode)
    requires node.depth == 0
    ensures SummariesOf(node, NoteAll(map[], Nodes(node)))
  {
    hide Nodes, NoteAll, Below, Has, SummaryOf;
    forall key: Key
      ensures key in NoteAll(map[], Nodes(node)) <==> exists c :: Below(c, node) && Has(c, key)
      ensures key in NoteAll(map[], Nodes(node)) ==> SummaryOf(node, key, NoteAll(map[], Nodes(node))[key]) {
      OneSummary(node, key);
    }
  }

  // ---------- all calls, counted once ----------

  function CallCounts(accums: Accums): map<Key, nat> { map key | key in accums :: accums[key].callCount }

  function Deep(node: CallNode): nat { if node.depth > 0 then 1 else 0 }

  lemma NoteCounts(accums: Accums, node: CallNode)
    ensures var after := Note(accums, node);
      Total(CallCounts(after), after.Keys) == Total(CallCounts(accums), accums.Keys) + Deep(node)
  {
    var after, key, counts := Note(accums, node), KeyOf(node), CallCounts(accums);
    assert counts.Keys == accums.Keys && CallCounts(after).Keys == after.Keys;
    if node.depth > 0 {
      TotalGrows(counts, key, 1);
      hide Total;
      assert CallCounts(after) == counts[key := (if key in counts then counts[key] else 0) + 1];
    }
  }

  lemma {:induction false} CountsAddUp(nodes: seq<CallNode>)
    ensures var accums := NoteAll(map[], nodes);
      Total(CallCounts(accums), accums.Keys) == ListSum(nodes, Deep)
  {
    if |nodes| > 0 {
      var front, last := nodes[..|nodes| - 1], nodes[|nodes| - 1];
      CountsAddUp(front);
      NoteCounts(NoteAll(map[], front), last);
      hide Note, Total, CallCounts, Deep;
    }
  }

  lemma {:induction false} AllDeep(nodes: seq<CallNode>)
    requires forall c :: Among(c, nodes) ==> c.depth > 0
    ensures SumOver(nodes, Deep) == NodesOf(nodes)
    decreases nodes
  {
    if |nodes| > 0 {
      forall c ensures Among(c, nodes) <==> c == nodes[0] || Among(c, nodes[0].children) || Among(c, nodes[1..]) {
        AmongJoined(c, [nodes[0]], nodes[1..]);
        AmongOne(c, nodes[0]);
        assert [nodes[0]] + nodes[1..] == nodes;
      }
      hide Among;
      AllDeep(nodes[0].children);
      AllDeep(nodes[1..]);
    }
  }

  /** Every node of a built tree except the root. */
  lemma DeepNodes(env: Env, d: nat, ev: seq<Event>)
    ensures var root := CallTree(env, d, ev); ListSum(Nodes(root), Deep) == NodesBelow(root)
  {
    var root := CallTree(env, d, ev);
    NodesAreCalls(env, d, ev);
    TreeSum(root, Deep);
    assert root.depth == 0;
    hide CallTree, Below, Nodes, ListSum, StandsFor, Among;
    forall c | Among(c, root.children) ensures c.depth > 0 {
      BelowIsAmong(c, root);
      var k: nat :| k < |ev| && StandsFor(env, ev, k, c);
      StandsDeep(env, ev, k, c);
    }
    AllDeep(root.children);
  }

  /** The call counts of all functions add up to the nodes below the root: every call that is shown, once. */
  lemma CallCountsAddUp(env: Env, d: nat, ev: seq<Event>)
    ensures var root := CallTree(env, d, ev);
      var accums := NoteAll(map[], Nodes(root));
      Total(CallCounts(accums), accums.Keys) == NodesBelow(root)
  {
    CountsAddUp(Nodes(CallTree(env, d, ev)));
    DeepNodes(env, d, ev);
  }

  lemma {:induction false} BelowIsAmong(c: CallNode, node: CallNode)
    ensures Below(c, node) <==> Among(c, node.children)
  {}

  lemma StandsDeep(env: Env, ev: seq<Event>, k: nat, c: CallNode)
    requires StandsFor(env, ev, k, c)
    ensures c.depth > 0
  {}

  /** From a cap of the number of events on, they add up to the number of call events. */
  lemma {:induction false} EveryCallSummarised(env: Env, d: nat, ev: seq<Event>)
    requires d >= |ev|
    ensures var accums := NoteAll(map[], Nodes(CallTree(env, d, ev)));
      Total(CallCounts(accums), accums.Keys) == CallTreePruning.Calls(ev, 0, |ev|)
  {
    CallCountsAddUp(env, d, ev);
    NothingCutFrom(env, d, ev);
    WholeHasAll(CallTree(env, d, ev));
    CallTreePruning.EveryCallCounted(env, d, ev);
    hide CallTree, NoteAll, Nodes, Whole;
  }

  // ---------- how many functions ----------

  lemma {:induction false} NoMoreKeysThanNodes(nodes: seq<CallNode>)
    ensures |NoteAll(map[], nodes).Keys| <= ListSum(nodes, Deep)
  {
    if |nodes| > 0 {
      var front, last := nodes[..|nodes| - 1], nodes[|nodes| - 1];
      NoMoreKeysThanNodes(front);
      if last.depth > 0 { assert NoteAll(map[], nodes).Keys == NoteAll(map[], front).Keys + {KeyOf(last)}; }
    }
  }

  lemma {:induction false} NodesAreDescendants(nodes: seq<CallNode>)
    ensures NodesOf(nodes) <= CallTreePruning.ForestSize(nodes)
    decreases nodes
  {
    if |nodes| > 0 {
      NodesAreDescendants(nodes[0].children);
      NodesAreDescendants(nodes[1..]);
    }
  }

  /** No more functions than call events: the tree has no more nodes than that. */
  lemma NoMoreFunctionsThanCalls(env: Env, maxDepth: nat, ev: seq<Event>)
    ensures |NoteAll(map[], Nodes(CallTree(env, maxDepth, ev))).Keys| <= |ev|
  {
    var tree := CallTree(env, maxDepth, ev);
    NoMoreKeysThanNodes(Nodes(tree));
    DeepNodes(env, maxDepth, ev);
    NodesAreDescendants(tree.children);
    CallTreePruning.EveryCallCounted(env, maxDepth, ev);
    CallsBounded(ev, 0);
    hide NoteAll, Nodes, ListSum, CallTree, CallTreePruning.Calls;
  }

  lemma {:induction false} CallsBounded(ev: seq<Event>, k: nat)
    requires k <= |ev|
    ensures CallTreePruning.Calls(ev, k, |ev|) <= |ev| - k
    decreases |ev| - k
  {
    if k < |ev| { CallsBounded(ev, k + 1); }
  }
}
