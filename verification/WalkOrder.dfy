/** In which order a walk lists its rows. */
module WalkOrder {
  import opened DependencyGraph
  import opened WalkSpec

  /** Every value once, where it first stands. */
  function Firsts(s: seq<nat>): seq<nat> {
    if |s| == 0 then []
    else
      var front, last := s[..|s| - 1], s[|s| - 1];
      Firsts(front) + (if last in front then [] else [last])
  }

  function InRange(sc: Scope, seeds: seq<nat>): seq<nat> {
    if |seeds| == 0 then []
    else
      var last := seeds[|seeds| - 1];
      InRange(sc, seeds[..|seeds| - 1]) + (if last < sc.n then [last] else [])
  }

  /** Where the edges of a row lead that the query may follow, in row order. */
  function Targets(sc: Scope, row: seq<Edge>): seq<nat> {
    if |row| == 0 then []
    else
      var last := row[|row| - 1];
      Targets(sc, row[..|row| - 1]) + (if sc.Allows(last) then [last.idx] else [])
  }

  /** What the first `k` listed rows lead to, row after row; a row at the depth cap leads nowhere. */
  ghost function Offered(g: Graph, q: Query, idxs: seq<nat>, depths: seq<nat>, k: nat): seq<nat>
    requires k <= |idxs| == |depths|
  {
    if k == 0 then []
    else
      Offered(g, q, idxs, depths, k - 1) +
      (if q.Capped(depths[k - 1]) then [] else Targets(q.sc, g(idxs[k - 1])))
  }

  lemma {:induction false} FirstsHold(s: seq<nat>, v: nat)
    ensures v in Firsts(s) <==> v in s
  {
    if |s| > 0 {
      FirstsHold(s[..|s| - 1], v);
      assert s == s[..|s| - 1] + [s[|s| - 1]];
    }
  }

  lemma {:induction false} FirstsNext(s: seq<nat>, v: nat)
    ensures Firsts(s + [v]) == if v in Firsts(s) then Firsts(s) else Firsts(s) + [v]
  {
    FirstsHold(s, v);
    assert (s + [v])[..|s|] == s;
  }

  lemma InRangeNext(sc: Scope, seeds: seq<nat>)
    requires |seeds| > 0
    ensures var front, last := seeds[..|seeds| - 1], seeds[|seeds| - 1];
      InRange(sc, seeds) == if last < sc.n then InRange(sc, front) + [last] else InRange(sc, front)
  {
    assert InRange(sc, seeds[..|seeds| - 1]) + [] == InRange(sc, seeds[..|seeds| - 1]);
  }

  lemma {:induction false} SeedsInOrder(q: Query, seeds: seq<nat>)
    requires q.maxNodes == 0
    ensures SeedAll(q, seeds).idxs == Firsts(InRange(q.sc, seeds))
  {
    if |seeds| > 0 {
      hide Firsts, InRange;
      var front, last := seeds[..|seeds| - 1], seeds[|seeds| - 1];
      SeedsInOrder(q, front);
      FirstsNext(InRange(q.sc, front), last);
      assert InRange(q.sc, seeds) == if last < q.sc.n then InRange(q.sc, front) + [last] else InRange(q.sc, front) by {
        InRangeNext(q.sc, seeds);
      }
    }
  }

  lemma {:induction false} RowInOrder(q: Query, w: Walk, depth: nat, row: seq<Edge>, listed: seq<nat>)
    requires q.maxNodes == 0 && w.idxs == Firsts(listed)
    ensures VisitRow(q, w, depth, row).idxs
      == Firsts(listed + if q.Capped(depth) then [] else Targets(q.sc, row))
  {
    hide Firsts;
    assert listed + [] == listed;
    if |row| > 0 {
      var front, e := row[..|row| - 1], row[|row| - 1];
      RowInOrder(q, w, depth, front, listed);
      var before := listed + Targets(q.sc, front);
      FirstsNext(before, e.idx);
      assert before + [e.idx] == listed + (Targets(q.sc, front) + [e.idx]);
      assert Targets(q.sc, front) + [] == Targets(q.sc, front);
    }
  }

  lemma {:induction false} OfferedStays(g: Graph, q: Query, v: Walk, w: Walk, k: nat)
    requires k <= |v.idxs| == |v.depths| && |w.idxs| == |w.depths| && v.idxs <= w.idxs && v.depths <= w.depths
    ensures Offered(g, q, w.idxs, w.depths, k) == Offered(g, q, v.idxs, v.depths, k)
  {
    if k > 0 { OfferedStays(g, q, v, w, k - 1); }
  }

  lemma {:induction false} DrainInOrder(g: Graph, q: Query, w: Walk, head: nat, seeds: seq<nat>)
    requires q.maxNodes == 0 && Sound(q, w) && head <= |w.idxs|
    requires w.idxs == Firsts(seeds + Offered(g, q, w.idxs, w.depths, head))
    ensures var r := Drain(g, q, w, head); r.idxs == Firsts(seeds + Offered(g, q, r.idxs, r.depths, |r.idxs|))
    decreases q.sc.n - head
  {
    hide Firsts, Targets, VisitRow;
    if head < |w.idxs| {
      var depth, row := w.depths[head], g(w.idxs[head]);
      var next := VisitRow(q, w, depth, row);
      DistinctBounded(w.idxs, q.sc.n);
      VisitRowSound(q, w, depth, row);
      var offered := Offered(g, q, w.idxs, w.depths, head);
      RowInOrder(q, w, depth, row, seeds + offered);
      OfferedStays(g, q, w, next, head + 1);
      var more := if q.Capped(depth) then [] else Targets(q.sc, row);
      assert (seeds + offered) + more == seeds + (offered + more);
      DrainInOrder(g, q, next, head + 1, seeds);
    }
  }

  /**
   * Rows are listed as they are first met: the seeds, then what the first listed row leads to, then the second, each in
   * the order of its row. A node cap keeps a prefix of that list.
   */
  lemma {:induction false} ListedAsMet(g: Graph, q: Query, seeds: seq<nat>)
    requires q.maxNodes == 0
    ensures var r := Run(g, q, seeds);
      r.idxs == Firsts(InRange(q.sc, seeds) + Offered(g, q, r.idxs, r.depths, |r.idxs|))
  {
    SeedAllSound(q, seeds);
    SeedsInOrder(q, seeds);
    hide Firsts, InRange, Drain;
    var w := SeedAll(q, seeds);
    assert InRange(q.sc, seeds) + Offered(g, q, w.idxs, w.depths, 0) == InRange(q.sc, seeds);
    DrainInOrder(g, q, w, 0, InRange(q.sc, seeds));
  }
}
