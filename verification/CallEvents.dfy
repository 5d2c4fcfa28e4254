/** Where the events come from: one pass over the records, or the PC index with one decode per PC. */
module CallEvents {
  import opened Wrappers
  import opened CallTreeSpec
  import opened CallTrees
  import opened Sorting
  import opened TraceModel
  import CallTreePruning
  import CallTreeShape
  import IndexSpec
  import Postings

  type Classes = seq<Option<EventKind>>

  /** How a record's own instruction decodes. */
  function EventOf(rec: Rec): Option<EventKind> {
    if rec.isCall then Some(Call) else if rec.isRet then Some(Ret) else None
  }

  function ByRecord(trace: Trace): (r: Classes)
    ensures |r| == |trace| && forall i :: 0 <= i < |trace| ==> r[i] == EventOf(trace[i])
  {
    seq(|trace|, i requires 0 <= i < |trace| => EventOf(trace[i]))
  }

  /** The calls and returns among the first `n` records. */
  function Sequential(classes: Classes, n: nat): seq<Event>
    requires n <= |classes|
  {
    if n == 0 then []
    else Sequential(classes, n - 1) + (if classes[n - 1].Some? then [Event(n - 1, classes[n - 1].value)] else [])
  }

  /** The first record with the PC of record `i`. */
  function First(trace: Trace, i: nat): (f: nat)
    requires i < |trace|
    ensures f <= i && trace[f].pc == trace[i].pc
    ensures forall j :: 0 <= j < f ==> trace[j].pc != trace[i].pc
  {
    FirstFrom(trace, i, 0)
  }

  function FirstFrom(trace: Trace, i: nat, k: nat): (f: nat)
    requires k <= i < |trace|
    requires forall j :: 0 <= j < k ==> trace[j].pc != trace[i].pc
    ensures f <= i && trace[f].pc == trace[i].pc
    ensures forall j :: 0 <= j < f ==> trace[j].pc != trace[i].pc
    decreases i - k
  {
    if trace[k].pc == trace[i].pc then k else FirstFrom(trace, i, k + 1)
  }

  /** The classes as the index sees them: every record classified like the first one at its PC. */
  function ByFirst(trace: Trace): (r: Classes)
    ensures |r| == |trace| && forall i :: 0 <= i < |trace| ==> r[i] == EventOf(trace[First(trace, i)])
  {
    seq(|trace|, i requires 0 <= i < |trace| => EventOf(trace[First(trace, i)]))
  }

  function EventIdx(e: Event): int { e.idx }

  ghost predicate Ascending(ev: seq<Event>) { StrictlyBy(EventIdx, ev) }

  ghost predicate DistinctIdxs(ev: seq<Event>) {
    forall i, j :: 0 <= i < j < |ev| ==> ev[i].idx != ev[j].idx
  }

  lemma {:induction false} SequentialMeans(classes: Classes, n: nat)
    requires n <= |classes|
    ensures Ascending(Sequential(classes, n))
    ensures forall e :: e in Sequential(classes, n) <==> e.idx < n && classes[e.idx] == Some(e.kind)
  {
    if n > 0 {
      SequentialMeans(classes, n - 1);
      var front := Sequential(classes, n - 1);
      assert forall i :: 0 <= i < |front| ==> front[i] in front;
    }
  }

  /** The events of a trace: a call for every record that calls, a return for every other one that returns. */
  lemma {:induction false} TraceEvents(trace: Trace, e: Event)
    ensures e in Sequential(ByRecord(trace), |trace|) <==>
      e.idx < |trace| && if trace[e.idx].isCall then e.kind == Call else trace[e.idx].isRet && e.kind == Ret
  {
    SequentialMeans(ByRecord(trace), |trace|);
    hide Sequential;
  }

  lemma {:induction false} SameEventsSameClass(a: Classes, b: Classes, i: nat)
    requires i < |a| == |b| && Sequential(a, |a|) == Sequential(b, |b|)
    ensures a[i] == b[i]
  {
    SequentialMeans(a, |a|);
    SequentialMeans(b, |b|);
    hide Sequential;
    if a[i].Some? { assert Event(i, a[i].value) in Sequential(b, |b|); }
    if b[i].Some? { assert Event(i, b[i].value) in Sequential(a, |a|); }
  }

  /** Every record decodes to the class of the first record at its PC. */
  ghost predicate PcFixesClass(trace: Trace) {
    forall i :: 0 <= i < |trace| ==> EventOf(trace[i]) == EventOf(trace[First(trace, i)])
  }

  /** One decode per PC yields the events of the sequential pass exactly when a PC never changes class. */
  lemma {:induction false} IndexedEventsAgreeIff(trace: Trace)
    ensures Sequential(ByFirst(trace), |trace|) == Sequential(ByRecord(trace), |trace|) <==> PcFixesClass(trace)
  {
    hide Sequential;
    if Sequential(ByFirst(trace), |trace|) == Sequential(ByRecord(trace), |trace|) {
      forall i | 0 <= i < |trace| ensures EventOf(trace[i]) == EventOf(trace[First(trace, i)]) {
        SameEventsSameClass(ByFirst(trace), ByRecord(trace), i);
      }
    }
    if PcFixesClass(trace) { assert ByFirst(trace) == ByRecord(trace); }
  }

  /** `idxs` lists, in ascending order, exactly the records at `pc`, and there is one. */
  ghost predicate ListsPc(trace: Trace, pc: nat, idxs: seq<nat>) {
    && |idxs| > 0
    && (forall a :: 0 <= a < |idxs| ==> idxs[a] < |trace| && trace[idxs[a]].pc == pc)
    && (forall a, b :: 0 <= a < b < |idxs| ==> idxs[a] < idxs[b])
    && (forall i :: 0 <= i < |trace| && trace[i].pc == pc ==> i in idxs)
  }

  /** `pc -> ascending record indices`, complete for the trace. */
  ghost predicate IsPcIndex(trace: Trace, pcToIdxs: map<nat, seq<nat>>) {
    && (forall i :: 0 <= i < |trace| ==> trace[i].pc in pcToIdxs)
    && (forall pc :: pc in pcToIdxs ==> ListsPc(trace, pc, pcToIdxs[pc]))
  }

  lemma FirstOfList(trace: Trace, idxs: seq<nat>, i: nat)
    requires i < |trace| && ListsPc(trace, trace[i].pc, idxs)
    ensures idxs[0] == First(trace, i) && i in idxs
  {
    var f := First(trace, i);
    assert f in idxs;
    var b :| 0 <= b < |idxs| && idxs[b] == f;
    assert trace[idxs[0]].pc == trace[i].pc;
    assert idxs[0] <= idxs[b];
  }

  /** Sorting by record index; with distinct indices the order of equal keys never matters. */
  method SortByIdx(events: seq<Event>) returns (sorted: seq<Event>)
    requires DistinctIdxs(events)
    ensures Ascending(sorted) && forall e :: e in sorted <==> e in events
  {
    sorted := [];
    for k := 0 to |events|
      invariant Ascending(sorted) && forall e :: e in sorted <==> e in events[..k]
    {
      var p := |sorted|;
      while p > 0 && sorted[p - 1].idx > events[k].idx
        invariant 0 <= p <= |sorted|
        invariant p < |sorted| ==> sorted[p].idx > events[k].idx
      {
        p := p - 1;
      }
      if p > 0 { assert sorted[p - 1] in events[..k]; }
      InsertAt(EventIdx, sorted, events[k], p);
      InsertedMembers(sorted, events[k], p);
      assert events[..k + 1] == events[..k] + [events[k]];
      sorted := Inserted(sorted, events[k], p);
    }
    assert events[..|events|] == events;
  }

  /** The events of one PC's records. */
  function EventsOf(idxs: seq<nat>, kind: EventKind): (found: seq<Event>)
    ensures forall e :: e in found <==> e.idx in idxs && e.kind == kind
    ensures |found| == |idxs| && forall j :: 0 <= j < |idxs| ==> found[j].idx == idxs[j]
  {
    if |idxs| == 0 then [] else EventsOf(idxs[..|idxs| - 1], kind) + [Event(idxs[|idxs| - 1], kind)]
  }

  /** Every classified record whose PC has been visited has its event, classified like the first record there. */
  ghost predicate Gathered(trace: Trace, visited: seq<nat>, events: seq<Event>) {
    && DistinctIdxs(events)
    && forall e :: e in events <==> IsGathered(trace, visited, e)
  }

  ghost predicate IsGathered(trace: Trace, visited: seq<nat>, e: Event) {
    e.idx < |trace| && trace[e.idx].pc in visited && EventOf(trace[First(trace, e.idx)]) == Some(e.kind)
  }

  lemma {:induction false} GatherOne(trace: Trace, idxs: seq<nat>, visited: seq<nat>, pc: nat, events: seq<Event>)
    requires ListsPc(trace, pc, idxs) && pc !in visited && Gathered(trace, visited, events)
    ensures var kind := EventOf(trace[idxs[0]]);
      Gathered(trace, visited + [pc], if kind == None then events else events + EventsOf(idxs, kind.value))
  {
    var kind := EventOf(trace[idxs[0]]);
    var more := if kind == None then [] else EventsOf(idxs, kind.value);
    forall e ensures e in events + more <==> IsGathered(trace, visited + [pc], e) {
      assert e in events <==> IsGathered(trace, visited, e);
      if e.idx < |trace| && trace[e.idx].pc == pc { FirstOfList(trace, idxs, e.idx); }
    }
    forall a, b | 0 <= a < |events| && 0 <= b < |more| ensures events[a].idx != more[b].idx {
      assert events[a] in events;
      assert IsGathered(trace, visited, events[a]);
      assert more[b].idx == idxs[b];
    }
    assert kind == None ==> events + more == events;
  }

  lemma {:induction false} AllGathered(trace: Trace, pcToIdxs: map<nat, seq<nat>>, order: seq<nat>, events: seq<Event>)
    requires IsPcIndex(trace, pcToIdxs) && Gathered(trace, order, events)
    requires forall pc :: pc in order <==> pc in pcToIdxs
    ensures forall e :: e in events <==> e in Sequential(ByFirst(trace), |trace|)
  {
    var t := ByFirst(trace);
    SequentialMeans(t, |t|);
    hide Sequential, ListsPc, DistinctIdxs, Ascending;
    forall e ensures e in events <==> e in Sequential(t, |t|) {
      assert e in events <==> IsGathered(trace, order, e);
      assert e in Sequential(t, |t|) <==> e.idx < |t| && t[e.idx] == Some(e.kind);
    }
  }

  /** The events found by visiting each distinct PC once, in whatever order the map yields its keys. */
  method IndexedEvents(trace: Trace, pcToIdxs: map<nat, seq<nat>>, order: seq<nat>) returns (events: seq<Event>)
    requires IsPcIndex(trace, pcToIdxs)
    requires forall pc :: pc in order <==> pc in pcToIdxs
    requires forall i, j :: 0 <= i < j < |order| ==> order[i] != order[j]
    ensures events == Sequential(ByFirst(trace), |trace|)
  {
    hide Sequential;
    events := [];
    for k := 0 to |order|
      invariant Gathered(trace, order[..k], events)
    {
      GatherOne(trace, pcToIdxs[order[k]], order[..k], order[k], events);
      assert order[..k + 1] == order[..k] + [order[k]];
      var idxs := pcToIdxs[order[k]];
      var kind := EventOf(trace[idxs[0]]);
      if kind == None { continue; }
      events := events + EventsOf(idxs, kind.value);
    }
    assert order[..|order|] == order;
    AllGathered(trace, pcToIdxs, order, events);
    events := SortByIdx(events);
    SequentialMeans(ByFirst(trace), |trace|);
    MembersDetermine(EventIdx, events, Sequential(ByFirst(trace), |trace|));
  }

  /** When a PC determines its class, the indexed builder returns the sequential builder's tree. */
  lemma {:induction false} IndexedTreeAgrees(env: Env, maxDepth: nat, trace: Trace)
    requires PcFixesClass(trace)
    ensures CallTree(env, maxDepth, Sequential(ByFirst(trace), |trace|))
      == CallTree(env, maxDepth, Sequential(ByRecord(trace), |trace|))
  {
    IndexedEventsAgreeIff(trace);
  }

  /** Trees with different numbers of calls are different, whatever the cap. */
  lemma {:induction false} DifferentCallsDifferentTrees(env: Env, maxDepth: nat, a: seq<Event>, b: seq<Event>)
    requires CallTreePruning.Calls(a, 0, |a|) != CallTreePruning.Calls(b, 0, |b|)
    ensures CallTree(env, maxDepth, a) != CallTree(env, maxDepth, b)
  {
    CallTreePruning.EveryCallCounted(env, maxDepth, a);
    CallTreePruning.EveryCallCounted(env, maxDepth, b);
  }

  lemma OneCallMore()
    ensures CallTreePruning.Calls([Event(0, Call), Event(1, Call)], 0, 2) == 2
      && CallTreePruning.Calls([Event(0, Call)], 0, 1) == 1
  {
    assert CallTreePruning.Calls([Event(0, Call), Event(1, Call)], 1, 2) == 1;
  }

  lemma {:induction false} TwoEvents(classes: Classes)
    requires |classes| >= 2
    ensures Sequential(classes, 2) == (if classes[0].Some? then [Event(0, classes[0].value)] else [])
      + (if classes[1].Some? then [Event(1, classes[1].value)] else [])
  {
    assert Sequential(classes, 1)
      == Sequential(classes, 0) + (if classes[0].Some? then [Event(0, classes[0].value)] else []);
  }

  /**
   * Where a PC changes its class the trees can differ: the second record at PC 4 is no call, but the index
   * takes it for one.
   */
  lemma IndexedTreeMayDiffer(env: Env, maxDepth: nat)
    ensures var call := Rec(4, "bl", true, true, false, false, [], [], []);
      var trace := [call, Rec(4, "nop", false, false, false, false, [], [], [])];
      CallTree(env, maxDepth, Sequential(ByFirst(trace), 2)) != CallTree(env, maxDepth, Sequential(ByRecord(trace), 2))
  {
    var call := Rec(4, "bl", true, true, false, false, [], [], []);
    var trace := [call, Rec(4, "nop", false, false, false, false, [], [], [])];
    var a, b := Sequential(ByFirst(trace), 2), Sequential(ByRecord(trace), 2);
    TwoEvents(ByFirst(trace));
    TwoEvents(ByRecord(trace));
    assert First(trace, 1) == 0;
    assert a == [Event(0, Call), Event(1, Call)] && b == [Event(0, Call)];
    OneCallMore();
    DifferentCallsDifferentTrees(env, maxDepth, a, b);
  }

  /** Trees built from a trace nest properly, however their records are classified. */
  lemma {:induction false} TraceTreeNests(env: Env, maxDepth: nat, classes: Classes)
    requires |env.pcs| == |classes|
    ensures var root := CallTree(env, maxDepth, Sequential(classes, |classes|));
      && root.depth == 0 && root.enterIdx == 0 && root.exitIdx == env.LastIdx()
      && CallTreeShape.Forest(root.children, 0, root.exitIdx, 1, maxDepth)
  {
    var ev := Sequential(classes, |classes|);
    SequentialMeans(classes, |classes|);
    hide Sequential;
    forall i, j | 0 <= i < j < |ev| ensures ev[i].idx < ev[j].idx { assert EventIdx(ev[i]) < EventIdx(ev[j]); }
    forall i | 0 <= i < |ev| ensures ev[i].idx < |classes| { assert ev[i] in ev; }
    CallTreeShape.TreeNests(env, maxDepth, ev);
  }

  /** The PC lists of a built index are the ones the indexed builder asks for. */
  lemma {:induction false} BuiltIndexIsPcIndex(trace: Trace)
    ensures IsPcIndex(trace, IndexSpec.Range(trace, 0, |trace|).pcToIdxs)
  {
    var m := IndexSpec.Range(trace, 0, |trace|).pcToIdxs;
    forall i | 0 <= i < |trace| ensures trace[i].pc in m {
      IndexSpec.PcListed(trace, 0, |trace|, trace[i].pc);
      assert IndexSpec.RunsAt(trace, trace[i].pc)(i);
      assert i in Postings.Get(m, trace[i].pc);
    }
    forall pc | pc in m ensures ListsPc(trace, pc, m[pc]) {
      IndexSpec.PcListed(trace, 0, |trace|, pc);
      assert m[pc] == Postings.Get(m, pc);
      forall a | 0 <= a < |m[pc]| ensures m[pc][a] < |trace| && trace[m[pc][a]].pc == pc { assert m[pc][a] in m[pc]; }
    }
  }

  method BuildCallTree(env: Env, maxDepth: nat, trace: Trace) returns (tree: CallNode)
    ensures tree == CallTree(env, maxDepth, Sequential(ByRecord(trace), |trace|))
  {
    var events: seq<Event> := [];
    for i := 0 to |trace|
      invariant events == Sequential(ByRecord(trace), i)
    {
      match EventOf(trace[i])
      case Some(kind) => events := events + [Event(i, kind)];
      case None =>
    }
    tree := BuildFromEvents(env, maxDepth, events);
  }

  method BuildCallTreeIndexed(env: Env, maxDepth: nat, trace: Trace, pcToIdxs: map<nat, seq<nat>>, order: seq<nat>)
    returns (tree: CallNode)
    requires IsPcIndex(trace, pcToIdxs)
    requires forall pc :: pc in order <==> pc in pcToIdxs
    requires forall i, j :: 0 <= i < j < |order| ==> order[i] != order[j]
    ensures tree == CallTree(env, maxDepth, Sequential(ByFirst(trace), |trace|))
  {
    var events := IndexedEvents(trace, pcToIdxs, order);
    tree := BuildFromEvents(env, maxDepth, events);
  }
}
