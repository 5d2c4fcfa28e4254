/** Binary-search queries over the lists, against looking through the trace. */
module IndexQueries {
  import opened Wrappers
  import opened TraceModel
  import opened Postings
  import opened IndexSpec
  import DependencySpec

  /** `Ok(at)` is some position of `x`, `Err(at)` the place where it would go. */
  datatype SearchResult = Ok(at: nat) | Err(at: nat)

  /** All a binary search promises: with repeated elements any position of `x` will do. */
  ghost predicate Finds(s: seq<nat>, x: nat, r: SearchResult) {
    match r
    case Ok(at) => at < |s| && s[at] == x
    case Err(at) => at <= |s| && (forall k :: 0 <= k < at ==> s[k] < x) && (forall k :: at <= k < |s| ==> x < s[k])
  }

  method BinarySearch(s: seq<nat>, x: nat) returns (r: SearchResult)
    requires Ascending(s)
    ensures Finds(s, x, r)
  {
    var lo, hi := 0, |s|;
    while lo < hi
      invariant 0 <= lo <= hi <= |s|
      invariant forall k :: 0 <= k < lo ==> s[k] < x
      invariant forall k :: hi <= k < |s| ==> x < s[k]
    {
      var mid := lo + (hi - lo) / 2;
      if s[mid] == x { return Ok(mid); }
      if s[mid] < x { lo := mid + 1; } else { hi := mid; }
    }
    r := Err(lo);
  }

  /** The element before the found or insertion position. */
  function Before(s: seq<nat>, r: SearchResult): Option<nat>
    requires r.at <= |s|
  {
    if r.at == 0 then None else Some(s[r.at - 1])
  }

  /** The greatest element below `cursor`, if any. */
  ghost predicate IsLastBelow(s: seq<nat>, cursor: nat, last: Option<nat>) {
    match last
    case None => forall v :: v in s ==> v >= cursor
    case Some(d) => d in s && d < cursor && forall v :: v in s && v < cursor ==> v <= d
  }

  ghost predicate OccursOnce(s: seq<nat>, x: nat) {
    forall i, j :: 0 <= i < j < |s| ==> !(s[i] == x && s[j] == x)
  }

  lemma BeforeIsLastBelow(s: seq<nat>, cursor: nat, r: SearchResult)
    requires Ascending(s) && OccursOnce(s, cursor) && Finds(s, cursor, r)
    ensures IsLastBelow(s, cursor, Before(s, r))
  {}

  /**
   * Taking the element before a search hit is right for every search the library may do
   * exactly when the list names the cursor at most once.
   */
  lemma BeforeIsRightIff(s: seq<nat>, cursor: nat)
    requires Ascending(s)
    ensures OccursOnce(s, cursor) <==> forall r :: Finds(s, cursor, r) ==> IsLastBelow(s, cursor, Before(s, r))
  {
    if OccursOnce(s, cursor) {
      forall r | Finds(s, cursor, r) ensures IsLastBelow(s, cursor, Before(s, r)) { BeforeIsLastBelow(s, cursor, r); }
    } else {
      var i, j :| 0 <= i < j < |s| && s[i] == cursor && s[j] == cursor;
      assert s[i] <= s[j - 1] <= s[j];
      assert Finds(s, cursor, Ok(j)) && Before(s, Ok(j)) == Some(cursor);
    }
  }

  /** The last definition strictly before `cursor`. */
  method LastDefBefore(idx: Index, reg: string, cursor: nat) returns (last: Option<nat>)
    requires Ascending(Get(idx.regDefs, reg)) && OccursOnce(Get(idx.regDefs, reg), cursor)
    ensures IsLastBelow(Get(idx.regDefs, reg), cursor, last)
  {
    if reg !in idx.regDefs { return None; }
    var defs := idx.regDefs[reg];
    var r := BinarySearch(defs, cursor);
    BeforeIsLastBelow(defs, cursor, r);
    match r {
      case Ok(i) => last := if i == 0 then None else Some(defs[i - 1]);
      case Err(i) => last := if i == 0 then None else Some(defs[i - 1]);
    }
  }

  /** The first use strictly after `cursor`; repeated entries do no harm here. */
  method NextUseAfter(idx: Index, reg: string, cursor: nat) returns (next: Option<nat>)
    requires Ascending(Get(idx.regUses, reg))
    ensures next.Some? ==> next.value in Get(idx.regUses, reg) && next.value > cursor
    ensures forall v :: v in Get(idx.regUses, reg) && v > cursor ==> next.Some? && next.value <= v
  {
    if reg !in idx.regUses { return None; }
    var uses := idx.regUses[reg];
    var lo, hi := 0, |uses|;
    while lo < hi
      invariant 0 <= lo <= hi <= |uses|
      invariant forall k :: 0 <= k < lo ==> uses[k] <= cursor
      invariant forall k :: hi <= k < |uses| ==> uses[k] > cursor
    {
      var mid := lo + (hi - lo) / 2;
      if uses[mid] <= cursor { lo := mid + 1; } else { hi := mid; }
    }
    next := if lo < |uses| then Some(uses[lo]) else None;
  }

  /** On a built index the query is the look-back the dependency rows are defined by. */
  lemma {:induction false} QueryIsLookBack(trace: Trace, reg: string, cursor: nat, last: Option<nat>)
    requires cursor <= |trace| && DistinctDefs(trace)
    requires IsLastBelow(Get(Range(trace, 0, |trace|).regDefs, reg), cursor, last)
    ensures last == DependencySpec.LastDef(trace, cursor, reg)
  {
    var defs := Get(Range(trace, 0, |trace|).regDefs, reg);
    DefsListed(trace, 0, |trace|, reg);
    hide Range;
    var found := DependencySpec.LastDef(trace, cursor, reg);
    if found.Some? {
      DependencySpec.LastDefMeans(trace, cursor, reg, found.value);
      assert found.value in defs;
    }
    if last.Some? {
      DependencySpec.LastDefMeans(trace, cursor, reg, last.value);
      forall k | last.value < k < cursor ensures reg !in trace[k].regsDef { assert k !in defs; }
    }
  }

  /** Distinct registers per record make every cursor occur at most once, so the query needs no luck. */
  lemma {:induction false} BuiltListsNameOnce(trace: Trace, reg: string, cursor: nat)
    requires DistinctDefs(trace)
    ensures var defs := Get(Range(trace, 0, |trace|).regDefs, reg);
      Ascending(defs) && OccursOnce(defs, cursor)
  {
    DefsListed(trace, 0, |trace|, reg);
  }
}
