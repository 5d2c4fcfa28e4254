/** The persisted dependency rows and the reachability notions the slice queries are judged by. */
module DependencyGraph {

  datatype DepKind = Reg | Address | Mem | Control

  datatype Edge = Edge(idx: nat, kind: DepKind)

  /** The adjacency a walker is handed; backward and forward queries differ only in this. */
  type Graph = nat -> seq<Edge>

  /** Compressed rows: row i is edges[rowOffsets[i]..rowOffsets[i + 1]]. */
  datatype DependencyIndex = DependencyIndex(rowOffsets: seq<nat>, edges: seq<Edge>) {

    /** Missing or inconsistent offsets give the empty row. */
    function Row(idx: nat): seq<Edge> {
      if idx + 1 >= |rowOffsets| then []
      else
        var start, end := rowOffsets[idx], rowOffsets[idx + 1];
        if start > end || end > |edges| then [] else edges[start..end]
    }

    function Rows(): Graph { (idx: nat) => Row(idx) }
  }

  /** Which edges a query may follow: targets below the trace length, control edges unless data-only. */
  datatype Scope = Scope(n: nat, dataOnly: bool) {
    predicate Allows(e: Edge) {
      e.idx < n && !(dataOnly && e.kind == Control)
    }
  }

  /** Row `v` holds an edge to `t` that the query may follow. */
  ghost predicate Step(g: Graph, sc: Scope, v: nat, t: nat) {
    t < sc.n && exists e :: e in g(v) && e.idx == t && (sc.dataOnly ==> e.kind != Control)
  }

  /** Row `v` is at most `d` allowed edges away from an in-range seed. */
  ghost predicate Near(g: Graph, sc: Scope, seeds: seq<nat>, d: nat, v: nat) {
    if d == 0 then
      v in seeds && v < sc.n
    else
      Near(g, sc, seeds, d - 1, v) || exists u :: Near(g, sc, seeds, d - 1, u) && Step(g, sc, u, v)
  }

  ghost predicate Reachable(g: Graph, sc: Scope, seeds: seq<nat>, v: nat) {
    exists d: nat :: Near(g, sc, seeds, d, v)
  }

  /** `d` is the length of a shortest walk from the seeds to `v`. */
  ghost predicate AtDistance(g: Graph, sc: Scope, seeds: seq<nat>, v: nat, d: nat) {
    Near(g, sc, seeds, d, v) && (d > 0 ==> !Near(g, sc, seeds, d - 1, v))
  }

  lemma {:induction false} NearGrows(g: Graph, sc: Scope, seeds: seq<nat>, d: nat, e: nat, v: nat)
    requires d <= e && Near(g, sc, seeds, d, v)
    ensures Near(g, sc, seeds, e, v)
    decreases e
  {
    if d < e { NearGrows(g, sc, seeds, d, e - 1, v); }
  }

  // ---------- walks as sequences, and their reversal ----------

  /** Consecutive rows of `p` are joined by allowed edges. */
  ghost predicate IsWalk(g: Graph, sc: Scope, p: seq<nat>) {
    |p| > 0 && forall k :: 0 <= k < |p| - 1 ==> Step(g, sc, p[k], p[k + 1])
  }

  lemma {:induction false} WalkReaches(g: Graph, sc: Scope, p: seq<nat>)
    requires IsWalk(g, sc, p) && p[0] < sc.n
    ensures Near(g, sc, [p[0]], |p| - 1, p[|p| - 1])
  {
    if |p| > 1 {
      var q := p[..|p| - 1];
      WalkReaches(g, sc, q);
      assert Step(g, sc, p[|p| - 2], p[|p| - 1]);
    }
  }

  lemma NearHasWalk(g: Graph, sc: Scope, s: nat, d: nat, v: nat) returns (p: seq<nat>)
    requires Near(g, sc, [s], d, v)
    ensures IsWalk(g, sc, p) && p[0] == s && p[|p| - 1] == v && |p| <= d + 1
    ensures forall k :: 0 <= k < |p| ==> p[k] < sc.n
  {
    if d == 0 {
      p := [s];
    } else if Near(g, sc, [s], d - 1, v) {
      p := NearHasWalk(g, sc, s, d - 1, v);
    } else {
      var u :| Near(g, sc, [s], d - 1, u) && Step(g, sc, u, v);
      var q := NearHasWalk(g, sc, s, d - 1, u);
      p := q + [v];
    }
  }

  ghost predicate Transposed(g: Graph, h: Graph, sc: Scope) {
    forall v: nat, t: nat | v < sc.n && t < sc.n :: Step(g, sc, v, t) <==> Step(h, sc, t, v)
  }

  /** Reachability in a graph is reachability backwards in its transpose, in as many steps. */
  lemma {:induction false} ReverseWalk(g: Graph, h: Graph, sc: Scope, s: nat, d: nat, v: nat)
    requires Transposed(g, h, sc)
    requires Near(g, sc, [s], d, v)
    ensures Near(h, sc, [v], d, s)
  {
    var p := NearHasWalk(g, sc, s, d, v);
    var r := seq(|p|, k requires 0 <= k < |p| => p[|p| - 1 - k]);
    forall k | 0 <= k < |r| - 1 ensures Step(h, sc, r[k], r[k + 1]) {
      var j := |p| - 2 - k;
      assert p[j] == r[k + 1] && p[j + 1] == r[k];
      assert Step(g, sc, p[j], p[j + 1]);
    }
    WalkReaches(h, sc, r);
    NearGrows(h, sc, [v], |r| - 1, d, s);
  }

  // ---------- counting ----------

  ghost function Elements(s: seq<nat>): (r: set<nat>)
    ensures forall x :: x in r <==> x in s
  {
    if |s| == 0 then {} else Elements(s[..|s| - 1]) + {s[|s| - 1]}
  }

  ghost function Below(n: nat): (r: set<nat>)
    ensures forall x: nat :: x in r <==> x < n
    ensures |r| == n
  {
    if n == 0 then {} else Below(n - 1) + {n - 1}
  }

  ghost predicate Distinct(s: seq<nat>) {
    forall i, j :: 0 <= i < j < |s| ==> s[i] != s[j]
  }

  lemma {:induction false} SizeOfDistinct(s: seq<nat>)
    requires Distinct(s)
    ensures |Elements(s)| == |s|
  {
    if |s| > 0 { SizeOfDistinct(s[..|s| - 1]); }
  }

  lemma SubsetSize(a: set<nat>, b: set<nat>)
    requires a <= b
    ensures |a| <= |b|
    decreases a
  {
    if a != {} {
      var x :| x in a;
      SubsetSize(a - {x}, b - {x});
    }
  }

  /** Distinct rows below `n` number at most `n`. */
  lemma DistinctBounded(s: seq<nat>, n: nat)
    requires Distinct(s)
    requires forall i :: 0 <= i < |s| ==> s[i] < n
    ensures |s| <= n
  {
    SizeOfDistinct(s);
    SubsetSize(Elements(s), Below(n));
  }
}
