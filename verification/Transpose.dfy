/** The forward adjacency: the stored predecessor rows transposed by a two-pass counting sort. */
module Transpose {
  import opened DependencyGraph

  /** The entries row `src` contributes to bucket `p`, in the order of the row. */
  function Hits(row: seq<Edge>, src: nat, p: nat): seq<Edge> {
    if |row| == 0 then []
    else
      var e := row[|row| - 1];
      Hits(row[..|row| - 1], src, p) + (if e.idx == p then [Edge(src, e.kind)] else [])
  }

  /** Bucket `p` after the first `rows` rows. */
  function Incoming(g: Graph, rows: nat, p: nat): seq<Edge> {
    if rows == 0 then []
    else Incoming(g, rows - 1, p) + Hits(g(rows - 1), rows - 1, p)
  }

  /** Entries in the buckets before `p`: where bucket `p` starts. */
  ghost function Offset(g: Graph, rows: nat, p: nat): nat {
    if p == 0 then 0 else Offset(g, rows, p - 1) + |Incoming(g, rows, p - 1)|
  }

  // ---------- what a bucket holds ----------

  lemma {:induction false} HitsCount(row: seq<Edge>, src: nat, p: nat, s: nat, kind: DepKind)
    ensures multiset(Hits(row, src, p))[Edge(s, kind)] == if s == src then multiset(row)[Edge(p, kind)] else 0
    ensures forall e :: e in Hits(row, src, p) ==> e.idx == src
  {
    if |row| > 0 {
      var front, last := row[..|row| - 1], row[|row| - 1];
      HitsCount(front, src, p, s, kind);
      assert row == front + [last];
    }
  }

  /** Bucket `p` lists (s, kind) as often as row `s` holds the edge (p, kind), for every looked-at row. */
  lemma {:induction false} BucketCounts(g: Graph, rows: nat, p: nat, s: nat, kind: DepKind)
    ensures multiset(Incoming(g, rows, p))[Edge(s, kind)] ==
            if s < rows then multiset(g(s))[Edge(p, kind)] else 0
  {
    hide Hits;
    if rows > 0 {
      BucketCounts(g, rows - 1, p, s, kind);
      HitsCount(g(rows - 1), rows - 1, p, s, kind);
    }
  }

  /** Buckets list their sources in ascending order. */
  lemma {:induction false} BucketAscends(g: Graph, rows: nat, p: nat)
    ensures forall i, j :: 0 <= i <= j < |Incoming(g, rows, p)| ==>
      Incoming(g, rows, p)[i].idx <= Incoming(g, rows, p)[j].idx
    ensures forall e :: e in Incoming(g, rows, p) ==> e.idx < rows
  {
    hide Hits;
    if rows > 0 {
      BucketAscends(g, rows - 1, p);
      HitsCount(g(rows - 1), rows - 1, p, 0, Reg);
      var front, back := Incoming(g, rows - 1, p), Hits(g(rows - 1), rows - 1, p);
      assert forall i :: 0 <= i < |front| ==> front[i] in front;
      assert forall i :: 0 <= i < |back| ==> back[i] in back;
    }
  }

  /** The sizes of all buckets add up to the number of in-range edges of the looked-at rows. */
  function InRangeEdges(row: seq<Edge>, n: nat): nat {
    if |row| == 0 then 0
    else InRangeEdges(row[..|row| - 1], n) + (if row[|row| - 1].idx < n then 1 else 0)
  }

  function TotalInRange(g: Graph, rows: nat, n: nat): nat {
    if rows == 0 then 0 else TotalInRange(g, rows - 1, n) + InRangeEdges(g(rows - 1), n)
  }

  ghost function HitsBelow(row: seq<Edge>, src: nat, n: nat): nat {
    if n == 0 then 0 else HitsBelow(row, src, n - 1) + |Hits(row, src, n - 1)|
  }

  lemma {:induction false} HitsBelowFront(row: seq<Edge>, src: nat, n: nat)
    requires |row| > 0
    ensures HitsBelow(row, src, n) ==
            HitsBelow(row[..|row| - 1], src, n) + (if row[|row| - 1].idx < n then 1 else 0)
  {
    if n > 0 { HitsBelowFront(row, src, n - 1); }
  }

  lemma {:induction false} HitsBelowNone(src: nat, n: nat)
    ensures HitsBelow([], src, n) == 0
  {
    if n > 0 { HitsBelowNone(src, n - 1); }
  }

  lemma {:induction false} RowSplits(row: seq<Edge>, src: nat, n: nat)
    ensures HitsBelow(row, src, n) == InRangeEdges(row, n)
  {
    if |row| == 0 {
      HitsBelowNone(src, n);
    } else {
      HitsBelowFront(row, src, n);
      RowSplits(row[..|row| - 1], src, n);
    }
  }

  lemma OffsetOfNextRow(g: Graph, rows: nat, n: nat)
    requires rows > 0
    ensures Offset(g, rows, n) == Offset(g, rows - 1, n) + HitsBelow(g(rows - 1), rows - 1, n)
  {
    if n > 0 { OffsetOfNextRow(g, rows, n - 1); }
  }

  lemma {:induction false} OffsetOfNoRows(g: Graph, n: nat)
    ensures Offset(g, 0, n) == 0
  {
    if n > 0 { OffsetOfNoRows(g, n - 1); }
  }

  lemma {:induction false} EveryEdgeHasASlot(g: Graph, rows: nat, n: nat)
    ensures Offset(g, rows, n) == TotalInRange(g, rows, n)
  {
    if rows == 0 {
      OffsetOfNoRows(g, n);
    } else {
      OffsetOfNextRow(g, rows, n);
      RowSplits(g(rows - 1), rows - 1, n);
      EveryEdgeHasASlot(g, rows - 1, n);
    }
  }

  // ---------- bookkeeping for the in-place fill ----------

  lemma {:induction false} OffsetsClimb(g: Graph, rows: nat, p: nat, q: nat)
    requires p < q
    ensures Offset(g, rows, p) + |Incoming(g, rows, p)| <= Offset(g, rows, q)
  {
    if p < q - 1 { OffsetsClimb(g, rows, p, q - 1); }
  }

  lemma {:induction false} HitsGrow(row: seq<Edge>, j: nat, src: nat, p: nat)
    requires j <= |row|
    ensures Hits(row[..j], src, p) <= Hits(row, src, p)
  {
    if j == |row| {
      assert row[..j] == row;
    } else {
      assert row[..|row| - 1][..j] == row[..j];
      HitsGrow(row[..|row| - 1], j, src, p);
    }
  }

  lemma {:induction false} IncomingGrows(g: Graph, r: nat, rows: nat, p: nat)
    requires r <= rows
    ensures Incoming(g, r, p) <= Incoming(g, rows, p)
  {
    if r < rows { IncomingGrows(g, r, rows - 1, p); }
  }

  /** Bucket `p` part-way through row `r`; always a prefix of the finished bucket. */
  ghost function Filled(g: Graph, r: nat, j: nat, p: nat): seq<Edge>
    requires j <= |g(r)|
  {
    Incoming(g, r, p) + Hits(g(r)[..j], r, p)
  }

  lemma {:induction false} FilledIsPrefix(g: Graph, r: nat, j: nat, rows: nat, p: nat)
    requires r < rows && j <= |g(r)|
    ensures Filled(g, r, j, p) <= Incoming(g, rows, p)
  {
    HitsGrow(g(r), j, r, p);
    IncomingGrows(g, r + 1, rows, p);
  }

  lemma FilledNext(g: Graph, r: nat, j: nat, p: nat)
    requires j < |g(r)|
    ensures var e := g(r)[j];
      Filled(g, r, j + 1, p) == if e.idx == p then Filled(g, r, j, p) + [Edge(r, e.kind)] else Filled(g, r, j, p)
  {
    assert g(r)[..j + 1][..j] == g(r)[..j];
  }

  lemma FilledWhole(g: Graph, r: nat, p: nat)
    ensures Filled(g, r, |g(r)|, p) == Incoming(g, r + 1, p)
    ensures Filled(g, r, 0, p) == Incoming(g, r, p)
  {
    assert g(r)[..|g(r)|] == g(r);
  }
}
