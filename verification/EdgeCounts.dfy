/** Observed edges: how they add up, whatever they are edges of. */
module EdgeCounts {
  import opened Wrappers
  import opened MapSums

  datatype EdgeKind = Fall | CallReturn | Ret | Direct(mnemonic: string)

  datatype EdgeMeta = EdgeMeta(kind: EdgeKind, count: nat)

  type Ends = (nat, nat)

  datatype Seen = Seen(ends: Ends, kind: EdgeKind)

  type Edges = map<Ends, EdgeMeta>

  /** One more observation; the first one fixes the kind. */
  function AddEdge(edges: Edges, seen: Seen): Edges {
    if seen.ends in edges then edges[seen.ends := EdgeMeta(edges[seen.ends].kind, edges[seen.ends].count + 1)]
    else edges[seen.ends := EdgeMeta(seen.kind, 1)]
  }

  function AddAll(edges: Edges, obs: seq<Seen>): Edges {
    if |obs| == 0 then edges else AddEdge(AddAll(edges, obs[..|obs| - 1]), obs[|obs| - 1])
  }

  ghost function CountOf(obs: seq<Seen>, ends: Ends): nat {
    if |obs| == 0 then 0 else CountOf(obs[..|obs| - 1], ends) + (if obs[|obs| - 1].ends == ends then 1 else 0)
  }

  ghost function FirstKind(obs: seq<Seen>, ends: Ends): Option<EdgeKind> {
    if |obs| == 0 then None
    else if obs[0].ends == ends then Some(obs[0].kind)
    else FirstKind(obs[1..], ends)
  }

  lemma {:induction false} FirstKindAppend(obs: seq<Seen>, seen: Seen, ends: Ends)
    ensures FirstKind(obs + [seen], ends)
      == if FirstKind(obs, ends).Some? then FirstKind(obs, ends)
         else if seen.ends == ends then Some(seen.kind) else None
  {
    if |obs| == 0 {
      assert (obs + [seen])[1..] == [];
    } else {
      FirstKindAppend(obs[1..], seen, ends);
      assert (obs + [seen])[1..] == obs[1..] + [seen];
    }
  }

  /** Each edge carries the number of its observations and the kind of the first. */
  lemma {:induction false} EdgesCount(obs: seq<Seen>, ends: Ends)
    ensures ends in AddAll(map[], obs) <==> CountOf(obs, ends) > 0
    ensures ends in AddAll(map[], obs) ==>
      && AddAll(map[], obs)[ends].count == CountOf(obs, ends)
      && FirstKind(obs, ends) == Some(AddAll(map[], obs)[ends].kind)
    ensures ends !in AddAll(map[], obs) ==> FirstKind(obs, ends) == None
  {
    if |obs| > 0 {
      var front, last := obs[..|obs| - 1], obs[|obs| - 1];
      EdgesCount(front, ends);
      FirstKindAppend(front, last, ends);
      hide FirstKind;
      assert obs == front + [last];
    }
  }

  function Counts(edges: Edges): map<Ends, nat> { map e | e in edges :: edges[e].count }

  /** The counts of all edges add up to the number of observations. */
  lemma {:induction false} CountsAddUp(obs: seq<Seen>)
    ensures Total(Counts(AddAll(map[], obs)), AddAll(map[], obs).Keys) == |obs|
  {
    if |obs| > 0 {
      var before, seen := AddAll(map[], obs[..|obs| - 1]), obs[|obs| - 1];
      CountsAddUp(obs[..|obs| - 1]);
      TotalGrows(Counts(before), seen.ends, 1);
      var old' := if seen.ends in before then before[seen.ends].count else 0;
      assert AddAll(map[], obs) == AddEdge(before, seen);
      assert Counts(AddEdge(before, seen)) == Counts(before)[seen.ends := old' + 1];
      hide Total;
      assert Counts(before).Keys == before.Keys && Counts(AddEdge(before, seen)).Keys == AddEdge(before, seen).Keys;
    }
  }
}
