module DependencyUsers {
  import opened DependencyGraph
  import opened Transpose

  /** Rows beyond the stored ones or beyond the trace are not looked at. */
  function RowCount(deps: DependencyIndex, n: nat): nat {
    if |deps.rowOffsets| == 0 then 0
    else if |deps.rowOffsets| - 1 <= n then |deps.rowOffsets| - 1 else n
  }

  const U32_MAX: nat := 0xFFFF_FFFF

  newtype u32 = x: int | 0 <= x <= 0xFFFF_FFFF

  newtype u8 = x: int | 0 <= x <= 0xFF

  const KIND_REG: u8 := 1
  const KIND_ADDRESS: u8 := 2
  const KIND_MEM: u8 := 3
  const KIND_CONTROL: u8 := 4

  function KindToByte(kind: DepKind): u8 {
    match kind
    case Reg => KIND_REG
    case Address => KIND_ADDRESS
    case Mem => KIND_MEM
    case Control => KIND_CONTROL
  }

  function ByteToKind(b: u8): (kind: DepKind)
    ensures forall k :: b == KindToByte(k) ==> kind == k
  {
    if b == KIND_ADDRESS then Address
    else if b == KIND_MEM then Mem
    else if b == KIND_CONTROL then Control
    else Reg
  }

  function SaturatingAdd(a: u32, b: u32): u32 {
    if a as int + b as int > U32_MAX then U32_MAX as u32 else a + b
  }

  function Saturated(v: nat): nat { if v > U32_MAX then U32_MAX else v }

  datatype Users = Users(rowOffsets: seq<u32>, userIdxs: seq<u32>, userKinds: seq<u8>, nRows: nat) {

    ghost predicate Valid() {
      && |userIdxs| == |userKinds|
      && forall i, j :: 0 <= i <= j < |rowOffsets| ==>
        rowOffsets[i] <= rowOffsets[j] && rowOffsets[j] as int <= |userIdxs|
    }

    /** Rows that depended on `idx`; beyond the last row there are none. */
    function Row(idx: nat): (row: seq<Edge>)
      requires Valid()
      ensures |row| == OutDegree(idx)
    {
      if idx + 1 >= |rowOffsets| then []
      else
        var start, end := rowOffsets[idx] as nat, rowOffsets[idx + 1] as nat;
        seq(end - start, k requires 0 <= k < end - start =>
          Edge(userIdxs[start + k] as nat, ByteToKind(userKinds[start + k])))
    }

    function OutDegree(idx: nat): nat
      requires Valid()
    {
      if idx + 1 >= |rowOffsets| then 0 else rowOffsets[idx + 1] as nat - rowOffsets[idx] as nat
    }

    function Rows(): Graph
      requires Valid()
    {
      (idx: nat) => Row(idx)
    }
  }

  /** Bucket `p` of the flat arrays holds the first entries of `bucket`. */
  ghost predicate Holds(userIdxs: seq<u32>, userKinds: seq<u8>, start: nat, bucket: seq<Edge>) {
    && start + |bucket| <= |userIdxs| == |userKinds|
    && forall k :: 0 <= k < |bucket| ==>
         userIdxs[start + k] as nat == bucket[k].idx && userKinds[start + k] == KindToByte(bucket[k].kind)
  }

  /** Bucket starts and sizes: each bucket ends where the next one starts. */
  ghost predicate Layout(starts: seq<nat>, sizes: seq<nat>) {
    && |starts| == |sizes| + 1 && starts[0] == 0
    && (forall p :: 0 <= p < |sizes| ==> starts[p + 1] == starts[p] + sizes[p])
    && (forall p, q :: 0 <= p < q < |starts| ==> starts[p] + sizes[p] <= starts[q])
  }

  method PrefixSums(counts: array<u32>, ghost starts: seq<nat>, ghost sizes: seq<nat>) returns (rowOffsets: seq<u32>)
    requires Layout(starts, sizes) && |sizes| == counts.Length
    requires forall p :: 0 <= p < counts.Length ==> counts[p] as nat == sizes[p]
    ensures |rowOffsets| == |starts|
    ensures forall p :: 0 <= p < |starts| ==> rowOffsets[p] as nat == Saturated(starts[p])
  {
    rowOffsets := [0];
    var total: u32 := 0;
    for p := 0 to counts.Length
      invariant |rowOffsets| == p + 1 && total as nat == Saturated(starts[p])
      invariant forall i :: 0 <= i <= p ==> rowOffsets[i] as nat == Saturated(starts[i])
    {
      total := SaturatingAdd(total, counts[p]);
      rowOffsets := rowOffsets + [total];
    }
  }

  /** Writing the next free slot of one bucket appends to that bucket and leaves the others alone. */
  lemma PlaceOne(starts: seq<nat>, sizes: seq<nat>, content: seq<seq<Edge>>, userIdxs: seq<u32>, userKinds: seq<u8>,
                 p: nat, src: u32, kind: DepKind)
    requires Layout(starts, sizes) && |content| == |sizes| && p < |content|
    requires forall q :: 0 <= q < |content| ==> |content[q]| <= sizes[q]
    requires forall q :: 0 <= q < |content| ==> Holds(userIdxs, userKinds, starts[q], content[q])
    requires |content[p]| < sizes[p] && starts[|sizes|] == |userIdxs| == |userKinds|
    ensures starts[p] + |content[p]| < |userIdxs|
    ensures starts[p] <= |userIdxs|
    ensures forall q :: 0 <= q < |content| ==>
      Holds(userIdxs[starts[p] + |content[p]| := src], userKinds[starts[p] + |content[p]| := KindToByte(kind)],
            starts[q], content[p := content[p] + [Edge(src as nat, kind)]][q])
  {}

  lemma EmptyHolds(starts: seq<nat>, sizes: seq<nat>, userIdxs: seq<u32>, userKinds: seq<u8>)
    requires Layout(starts, sizes) && starts[|sizes|] == |userIdxs| == |userKinds|
    ensures forall p :: 0 <= p < |sizes| ==> Holds(userIdxs, userKinds, starts[p], [])
  {}

  ghost function Snapshot(g: Graph, n: nat, r: nat, j: nat): (content: seq<seq<Edge>>)
    requires j <= |g(r)|
    ensures |content| == n
  {
    seq(n, p requires 0 <= p < n => Filled(g, r, j, p))
  }

  ghost function Sizes(g: Graph, n: nat, rows: nat): (sizes: seq<nat>)
    ensures |sizes| == n
  {
    seq(n, p requires 0 <= p < n => |Incoming(g, rows, p)|)
  }

  ghost function Starts(g: Graph, n: nat, rows: nat): (starts: seq<nat>)
    ensures |starts| == n + 1 && Layout(starts, Sizes(g, n, rows)) && starts[n] == Offset(g, rows, n)
  {
    var starts: seq<nat> := seq(n + 1, p requires 0 <= p <= n => Offset(g, rows, p));
    assert forall p, q :: 0 <= p < q < |starts| ==> starts[p] + |Incoming(g, rows, p)| <= starts[q] by {
      forall p, q | 0 <= p < q < |starts| ensures starts[p] + |Incoming(g, rows, p)| <= starts[q] {
        OffsetsClimb(g, rows, p, q);
      }
    }
    starts
  }

  /** Crossing from one row to the next moves no entry. */
  lemma SnapshotWraps(g: Graph, n: nat, r: nat)
    ensures Snapshot(g, n, r, |g(r)|) == Snapshot(g, n, r + 1, 0)
  {
    forall p | 0 <= p < n ensures Filled(g, r, |g(r)|, p) == Filled(g, r + 1, 0, p) {
      FilledWhole(g, r, p);
      FilledWhole(g, r + 1, p);
    }
  }

  lemma SnapshotNext(g: Graph, n: nat, r: nat, j: nat, rows: nat)
    requires j < |g(r)| && r < rows
    ensures var e, content := g(r)[j], Snapshot(g, n, r, j);
      Snapshot(g, n, r, j + 1) == if e.idx < n then content[e.idx := content[e.idx] + [Edge(r, e.kind)]] else content
    ensures forall p :: 0 <= p < n ==>
      |Snapshot(g, n, r, j)[p]| <= |Snapshot(g, n, r, j + 1)[p]| <= Sizes(g, n, rows)[p]
  {
    forall p | 0 <= p < n ensures |Filled(g, r, j + 1, p)| <= |Incoming(g, rows, p)|
      ensures Filled(g, r, j + 1, p) ==
        if g(r)[j].idx == p then Filled(g, r, j, p) + [Edge(r, g(r)[j].kind)] else Filled(g, r, j, p)
    {
      FilledNext(g, r, j, p);
      FilledIsPrefix(g, r, j + 1, rows, p);
    }
  }

  /** Slot `k` of bucket `p`, counted from its saturated start, lies outside arrays of the saturated total. */
  ghost predicate Overruns(starts: seq<nat>, sizes: seq<nat>, p: nat, k: nat)
    requires p < |sizes| && Layout(starts, sizes)
  {
    k < sizes[p] && Saturated(starts[p]) + k >= Saturated(starts[|sizes|])
  }

  /** Some slot falls outside the arrays exactly when the true total does not fit 32 bits. */
  lemma {:induction false} OverrunIffTooMany(g: Graph, n: nat, rows: nat)
    ensures TotalInRange(g, rows, n) > U32_MAX <==>
      exists p: nat, k: nat :: p < n && Overruns(Starts(g, n, rows), Sizes(g, n, rows), p, k)
  {
    var starts, sizes := Starts(g, n, rows), Sizes(g, n, rows);
    EveryEdgeHasASlot(g, rows, n);
    hide Sizes, Starts, TotalInRange;
    if starts[n] > U32_MAX {
      var p := n;
      while starts[p] > U32_MAX
        invariant p <= n && (p < n ==> starts[p + 1] > U32_MAX) && starts[n] > U32_MAX
        decreases p
      {
        p := p - 1;
      }
      assert Overruns(starts, sizes, p, U32_MAX - starts[p]);
    } else {
      forall p: nat, k: nat | p < n && k < sizes[p] ensures !Overruns(starts, sizes, p, k) {
        assert starts[p] + sizes[p] <= starts[n];
      }
    }
  }

  /** Counts the edges into each row. */
  method CountIncoming(g: Graph, n: nat, rowCount: nat) returns (counts: array<u32>)
    requires forall p :: 0 <= p < n ==> Sizes(g, n, rowCount)[p] <= U32_MAX
    ensures fresh(counts) && counts.Length == n
    ensures forall p :: 0 <= p < n ==> counts[p] as nat == Sizes(g, n, rowCount)[p]
  {
    hide Snapshot, Sizes, Filled, Incoming, Hits, Offset;
    ghost var sizes := Sizes(g, n, rowCount);
    counts := new u32[n](_ => 0);
    ghost var content := Snapshot(g, n, 0, 0);
    NothingYet(g, n);
    for src := 0 to rowCount
      invariant content == Snapshot(g, n, src, 0)
      invariant forall p :: 0 <= p < n ==> counts[p] as nat == |content[p]|
    {
      var row := g(src);
      for j := 0 to |row|
        invariant content == Snapshot(g, n, src, j)
        invariant forall p :: 0 <= p < n ==> counts[p] as nat == |content[p]|
      {
        SnapshotNext(g, n, src, j, rowCount);
        if row[j].idx < n {
          counts[row[j].idx] := counts[row[j].idx] + 1;
        }
        content := Snapshot(g, n, src, j + 1);
      }
      SnapshotWraps(g, n, src);
    }
    AllRowsDone(g, n, rowCount);
  }

  lemma {:induction false} AllFit(g: Graph, n: nat, rows: nat)
    requires Offset(g, rows, n) <= U32_MAX
    ensures forall p :: 0 <= p < n ==> Sizes(g, n, rows)[p] <= U32_MAX
    ensures forall p :: 0 <= p <= n ==> Starts(g, n, rows)[p] <= Starts(g, n, rows)[n]
    ensures forall p :: 0 <= p <= n ==> Saturated(Starts(g, n, rows)[p]) == Starts(g, n, rows)[p]
  {
    var starts, sizes := Starts(g, n, rows), Sizes(g, n, rows);
    hide Incoming, Offset, Sizes, Starts;
    forall p | 0 <= p < n ensures sizes[p] <= U32_MAX && starts[p] <= starts[n] {
      assert starts[p] + sizes[p] <= starts[n];
    }
  }

  lemma NothingYet(g: Graph, n: nat)
    ensures forall p :: 0 <= p < n ==> Snapshot(g, n, 0, 0)[p] == []
  {}

  lemma {:induction false} AllRowsDone(g: Graph, n: nat, rows: nat)
    ensures forall p :: 0 <= p < n ==> Snapshot(g, n, rows, 0)[p] == Incoming(g, rows, p)
    ensures forall p :: 0 <= p < n ==> |Snapshot(g, n, rows, 0)[p]| == Sizes(g, n, rows)[p]
  {}

  /** Fills the buckets; every slot is written exactly once. */
  method FillBuckets(g: Graph, n: nat, rowCount: nat, rowOffsets: seq<u32>, ghost starts: seq<nat>,
      userIdxs: array<u32>, userKinds: array<u8>)
    requires n < U32_MAX && rowCount <= n
    requires starts == Starts(g, n, rowCount) && |rowOffsets| == n + 1
    requires forall p :: 0 <= p <= n ==> rowOffsets[p] as nat == starts[p]
    requires userIdxs.Length == starts[n] == userKinds.Length && userIdxs as object != userKinds
    modifies userIdxs, userKinds
    ensures forall p :: 0 <= p < n ==> Holds(userIdxs[..], userKinds[..], starts[p], Incoming(g, rowCount, p))
  {
    hide Snapshot, Sizes, Starts, Layout, Holds;
    ghost var sizes := Sizes(g, n, rowCount);
    var cursors := new u32[n](_ => 0);
    ghost var content := Snapshot(g, n, 0, 0);
    NothingYet(g, n);
    EmptyHolds(starts, sizes, userIdxs[..], userKinds[..]);
    for src := 0 to rowCount
      invariant content == Snapshot(g, n, src, 0)
      invariant forall p :: 0 <= p < n ==> cursors[p] as nat == |content[p]|
      invariant forall p :: 0 <= p < n ==> Holds(userIdxs[..], userKinds[..], starts[p], content[p])
    {
      var row := g(src);
      for j := 0 to |row|
        invariant content == Snapshot(g, n, src, j)
        invariant forall p :: 0 <= p < n ==> cursors[p] as nat == |content[p]|
        invariant forall p :: 0 <= p < n ==> Holds(userIdxs[..], userKinds[..], starts[p], content[p])
      {
        var e := row[j];
        SnapshotNext(g, n, src, j, rowCount);
        if e.idx >= n {
          content := Snapshot(g, n, src, j + 1);
          continue;
        }
        PlaceOne(starts, sizes, content, userIdxs[..], userKinds[..], e.idx, src as u32, e.kind);
        var position := rowOffsets[e.idx] + cursors[e.idx];
        userIdxs[position] := src as u32;
        userKinds[position] := KindToByte(e.kind);
        cursors[e.idx] := cursors[e.idx] + 1;
        content := Snapshot(g, n, src, j + 1);
      }
      SnapshotWraps(g, n, src);
    }
    AllRowsDone(g, n, rowCount);
  }

  method Build(deps: DependencyIndex, n: nat) returns (users: Users)
    requires n < U32_MAX
    requires TotalInRange(deps.Rows(), RowCount(deps, n), n) <= U32_MAX
    ensures users.Valid() && users.nRows == n
    ensures forall p: nat :: p < n ==> users.Row(p) == Incoming(deps.Rows(), RowCount(deps, n), p)
    ensures forall p: nat :: p >= n ==> users.Row(p) == []
  {
    hide Sizes, Starts, Incoming, TotalInRange;
    var rowCount, g := RowCount(deps, n), deps.Rows();
    EveryEdgeHasASlot(g, rowCount, n);
    ghost var starts, sizes := Starts(g, n, rowCount), Sizes(g, n, rowCount);
    AllFit(g, n, rowCount);
    var counts := CountIncoming(g, n, rowCount);
    var rowOffsets := PrefixSums(counts, starts, sizes);
    var total := rowOffsets[n] as nat;
    var userIdxs, userKinds := new u32[total](_ => 0), new u8[total](_ => 0);
    FillBuckets(g, n, rowCount, rowOffsets, starts, userIdxs, userKinds);
    users := Users(rowOffsets, userIdxs[..], userKinds[..], n);
    forall i, j | 0 <= i <= j < |rowOffsets| ensures rowOffsets[i] <= rowOffsets[j] {
      assert i < j ==> starts[i] + sizes[i] <= starts[j];
    }
    AllRowsDone(g, n, rowCount);
    forall p: nat | p < n ensures users.Row(p) == Incoming(g, rowCount, p) {
      assert starts[p + 1] == starts[p] + sizes[p];
      HeldBucketReadsBack(users, p, Incoming(g, rowCount, p));
    }
  }

  lemma HeldBucketReadsBack(users: Users, p: nat, bucket: seq<Edge>)
    requires users.Valid() && p + 1 < |users.rowOffsets|
    requires Holds(users.userIdxs, users.userKinds, users.rowOffsets[p] as nat, bucket)
    requires users.rowOffsets[p + 1] as nat == users.rowOffsets[p] as nat + |bucket|
    ensures users.Row(p) == bucket
  {
    var start := users.rowOffsets[p] as nat;
    forall k | 0 <= k < |bucket| ensures users.Row(p)[k] == bucket[k] {
      assert users.userIdxs[start + k] as nat == bucket[k].idx;
      assert users.Row(p)[k] == Edge(users.userIdxs[start + k] as nat, ByteToKind(users.userKinds[start + k]));
    }
  }
}
