/** The queries as they search: halving, then walking back over the few events in question. */
module MemShadowQueries {
  import opened Wrappers
  import opened ByteHistory

  datatype Region = Region(base: nat, data: seq<nat>)

  /** Captured regions in the order of their bases; nothing keeps them from being empty or from overlapping. */
  ghost predicate ByBase(regions: seq<Region>) {
    forall i, j :: 0 <= i <= j < |regions| ==> regions[i].base <= regions[j].base
  }

  function End(r: Region): nat { r.base + |r.data| }

  ghost predicate InRegion(r: Region, addr: nat) { r.base <= addr < End(r) }

  /** What the last region that starts at or before `addr` has there. */
  ghost function Captured(regions: seq<Region>, addr: nat): Option<nat> {
    if |regions| == 0 then None
    else
      var r := regions[|regions| - 1];
      if r.base > addr then Captured(regions[..|regions| - 1], addr)
      else if addr < End(r) then Some(r.data[addr - r.base])
      else None
  }

  /** `l` is the last region that starts at or before `addr`. */
  ghost predicate IsLastAt(regions: seq<Region>, addr: nat, l: nat) {
    l < |regions| && regions[l].base <= addr && forall k :: l < k < |regions| ==> regions[k].base > addr
  }

  lemma {:induction false} CapturedIs(regions: seq<Region>, addr: nat, l: nat)
    requires IsLastAt(regions, addr, l)
    ensures Captured(regions, addr) ==
      if InRegion(regions[l], addr) then Some(regions[l].data[addr - regions[l].base]) else None
  {
    if l < |regions| - 1 { CapturedIs(regions[..|regions| - 1], addr, l); }
  }

  lemma {:induction false} CapturedNowhere(regions: seq<Region>, addr: nat)
    requires forall k :: 0 <= k < |regions| ==> regions[k].base > addr
    ensures Captured(regions, addr) == None
  {
    if |regions| > 0 { CapturedNowhere(regions[..|regions| - 1], addr); }
  }

  lemma LastAt(regions: seq<Region>, addr: nat, i: nat) returns (l: nat)
    requires i < |regions| && regions[i].base <= addr
    ensures i <= l && IsLastAt(regions, addr, l)
    decreases |regions|
  {
    l := |regions| - 1;
    if regions[l].base > addr { l := LastAt(regions[..l], addr, i); }
  }

  ghost predicate Covered(regions: seq<Region>, addr: nat) {
    exists i :: 0 <= i < |regions| && InRegion(regions[i], addr)
  }

  /**
   * Region `j` starts inside region `i`, ends before it, and is still the last to start at its own end. Of regions
   * with the same base only the last one counts.
   */
  ghost predicate CutsShort(regions: seq<Region>, i: nat, j: nat)
    requires i < j < |regions|
  {
    && regions[j].base < End(regions[i]) && End(regions[j]) < End(regions[i])
    && (j + 1 < |regions| ==> End(regions[j]) < regions[j + 1].base)
  }

  ghost predicate NoneCutShort(regions: seq<Region>) {
    forall i: nat, j: nat :: i < j < |regions| ==> !CutsShort(regions, i, j)
  }

  /** Every captured address is answered exactly when no region cuts an earlier one short. */
  lemma {:induction false} CapturedFindsIff(regions: seq<Region>)
    requires ByBase(regions)
    ensures (forall addr: nat :: Covered(regions, addr) ==> Captured(regions, addr).Some?) <==> NoneCutShort(regions)
  {
    if NoneCutShort(regions) {
      forall addr: nat | Covered(regions, addr) ensures Captured(regions, addr).Some? { Answered(regions, addr); }
    } else {
      var i: nat, j: nat :| i < j < |regions| && CutsShort(regions, i, j);
      var addr := End(regions[j]);
      assert InRegion(regions[i], addr) && Covered(regions, addr);
      assert IsLastAt(regions, addr, j);
      CapturedIs(regions, addr, j);
    }
  }

  lemma {:induction false} Answered(regions: seq<Region>, addr: nat)
    requires ByBase(regions) && NoneCutShort(regions) && Covered(regions, addr)
    ensures Captured(regions, addr).Some?
  {
    var i: nat :| i < |regions| && InRegion(regions[i], addr);
    var l := LastAt(regions, addr, i);
    CapturedIs(regions, addr, l);
    hide Captured;
    if i < l { assert !CutsShort(regions, i, l); }
  }

  /** An answer is a byte some region captured at the address. */
  lemma {:induction false} CapturedWasThere(regions: seq<Region>, addr: nat)
    ensures Captured(regions, addr).Some? ==> exists i ::
      && 0 <= i < |regions| && InRegion(regions[i], addr)
      && regions[i].data[addr - regions[i].base] == Captured(regions, addr).value
  {
    if |regions| > 0 { CapturedWasThere(regions[..|regions| - 1], addr); }
  }

  /** The captured byte at `addr`, as far as the last region starting at or before it knows. */
  method SnapshotByteAt(regions: seq<Region>, addr: nat) returns (b: Option<nat>)
    requires ByBase(regions)
    ensures b == Captured(regions, addr)
  {
    var lo, hi := 0, |regions|;
    while lo < hi
      invariant 0 <= lo <= hi <= |regions|
      invariant forall k :: 0 <= k < lo ==> regions[k].base <= addr
      invariant forall k :: hi <= k < |regions| ==> regions[k].base > addr
    {
      var mid := (lo + hi) / 2;
      if regions[mid].base <= addr { lo := mid + 1; } else { hi := mid; }
    }
    if lo == 0 {
      CapturedNowhere(regions, addr);
      return None;
    }
    CapturedIs(regions, addr, lo - 1);
    var r := regions[lo - 1];
    var off := addr - r.base;
    if off < |r.data| { return Some(r.data[off]); }
    return None;
  }

  /** `partition_point(|e| e.idx < x)`. */
  method PartitionPoint(evs: History, x: nat) returns (p: nat)
    requires Sorted(evs)
    ensures Splits(evs, x, p)
  {
    var lo, hi := 0, |evs|;
    while lo < hi
      invariant 0 <= lo <= hi <= |evs|
      invariant forall k :: 0 <= k < lo ==> evs[k].idx < x
      invariant forall k :: hi <= k < |evs| ==> evs[k].idx >= x
    {
      var mid := lo + (hi - lo) / 2;
      if evs[mid].idx < x { lo := mid + 1; } else { hi := mid; }
    }
    p := lo;
  }

  method QueryByteAt(evs: History, snap: Option<nat>, t: nat) returns (r: Answer)
    requires Sorted(evs)
    ensures r == ByteAt(evs, snap, t)
  {
    var lo, hi := 0, |evs|;
    while lo < hi
      invariant 0 <= lo <= hi <= |evs|
      invariant forall k :: 0 <= k < lo ==> evs[k].idx <= t
      invariant forall k :: hi <= k < |evs| ==> evs[k].idx > t
    {
      var mid := (lo + hi) / 2;
      if evs[mid].idx <= t { lo := mid + 1; } else { hi := mid; }
    }
    if lo != 0 {
      LastIs(evs, Until(t), lo - 1);
      var e := evs[lo - 1];
      return Answer(Some(e.byte), Observed(e.kind), Some(e.idx));
    }
    LastIsNone(evs, Until(t));
    if snap.Some? { return Answer(snap, Snapshot, Some(0)); }
    return Answer(None, Unknown, None);
  }

  method LatestWriteIdxStrictBefore(evs: History, before: nat) returns (r: Option<nat>)
    requires Sorted(evs)
    ensures r == LatestWrite(evs, before)
  {
    var j := PartitionPoint(evs, before);
    while j > 0
      invariant 0 <= j <= |evs|
      invariant forall k :: j <= k < |evs| ==> !WritesIn(0, before)(evs[k])
      invariant forall k :: 0 <= k < j ==> evs[k].idx < before
    {
      j := j - 1;
      if evs[j].IsWrite() {
        LastIs(evs, WritesIn(0, before), j);
        return Some(evs[j].idx);
      }
    }
    LastIsNone(evs, WritesIn(0, before));
    return None;
  }

  method QueryInputByte(evs: History, snap: Option<nat>, before: nat, start: nat) returns (r: Answer)
    requires Sorted(evs)
    ensures r == InputByte(evs, snap, before, start)
  {
    var j := PartitionPoint(evs, before);
    while j > 0 && evs[j - 1].idx >= start
      invariant 0 <= j <= |evs|
      invariant forall k :: j <= k < |evs| ==> !WritesIn(start, before)(evs[k])
      invariant forall k :: 0 <= k < j ==> evs[k].idx < before
    {
      j := j - 1;
      if evs[j].IsWrite() {
        LastIs(evs, WritesIn(start, before), j);
        return Answer(Some(evs[j].byte), Observed(evs[j].kind), Some(evs[j].idx));
      }
    }
    assert forall k :: 0 <= k < j ==> evs[k].idx <= evs[j - 1].idx;
    LastIsNone(evs, WritesIn(start, before));
    if start == 0 && snap.Some? { return Answer(snap, Snapshot, None); }
    return Answer(None, Unknown, None);
  }

  /** The first load from position `from` on that does not see `base`. */
  method FirstOther(evs: History, snap: Option<nat>, before: nat, from: nat, pos: nat, base: Option<nat>,
      prevIdx: Option<nat>)
    returns (gap: Option<Gap>)
    requires Splits(evs, before, pos) && from <= pos && base == Baseline(evs, snap, before)
    requires forall k :: from <= k < pos ==> !evs[k].IsWrite()
    requires forall k :: 0 <= k < from ==> !Disagrees(evs, snap, before, k)
    requires prevIdx == (match Last(evs, WritesIn(0, before))
                         case Some(w) => Some(w.idx)
                         case None => if snap.Some? then Some(0) else None)
    ensures IsGap(evs, snap, before, gap)
  {
    for j := from to pos
      invariant forall k :: 0 <= k < j ==> !Disagrees(evs, snap, before, k)
    {
      if evs[j].kind == Read && Some(evs[j].byte) != base {
        assert Disagrees(evs, snap, before, j);
        return Some(Gap(prevIdx, base, evs[j].idx, evs[j].byte));
      }
    }
    return None;
  }

  method UnloggedWriteGapBefore(evs: History, snap: Option<nat>, before: nat) returns (gap: Option<Gap>)
    requires Sorted(evs)
    ensures IsGap(evs, snap, before, gap)
  {
    var pos := PartitionPoint(evs, before);
    var w := pos;
    while w > 0 && !evs[w - 1].IsWrite()
      invariant 0 <= w <= pos
      invariant forall k :: w <= k < pos ==> !evs[k].IsWrite()
    {
      w := w - 1;
    }
    if w > 0 {
      var e := evs[w - 1];
      LastIs(evs, WritesIn(0, before), w - 1);
      forall k | 0 <= k < w ensures !Disagrees(evs, snap, before, k) {
        assert k < w - 1 ==> evs[w - 1].IsWrite() && evs[w - 1].idx < before;
      }
      gap := FirstOther(evs, snap, before, w, pos, Some(e.byte), Some(e.idx));
    } else {
      LastIsNone(evs, WritesIn(0, before));
      gap := FirstOther(evs, snap, before, 0, pos, snap, if snap.Some? then Some(0) else None);
    }
  }
}
