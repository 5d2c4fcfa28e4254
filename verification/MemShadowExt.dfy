/** Rebuilding the writes of copy and fill calls whose bodies the trace does not show. */
module MemShadowExt {
  import opened Wrappers
  import opened Numbers
  import opened TraceModel
  import opened Postings
  import opened ByteHistory
  import opened ExternalWrite
  import opened MemShadowQueries
  import opened ShadowSpec
  import opened MemCallSpec
  import opened MemCallRuns
  import opened StoreOrder

  const MAX_SYNTH_COPY_LEN: nat := 16384

  const MIN_VALID_USER_ADDR: nat := 0x1000

  // ---------- bookkeeping of the two loops ----------

  datatype Verdict = Unread | Refuted | Seen(isNew: bool)

  ghost function Judged(bytes: Histories, snap: Snap, idx: nat, addr: nat, byte: nat): Verdict {
    match PostRead(Get(bytes, addr), idx)
    case None => Unread
    case Some(b) => if b != byte then Refuted else Seen(Known(bytes, snap, addr, idx) != Some(byte))
  }

  /** The counters after the first `k` offsets, none of them contradicted. */
  ghost predicate Counted(bytes: Histories, snap: Snap, idx: nat, dst: nat, fill: Fill, k: nat, verified: nat,
      changed: nat) {
    && (forall j: nat :: j < k ==> !Contradicted(bytes, idx, dst, fill, j))
    && (changed > 0 <==> exists j: nat :: j < k && Confirmed(bytes, snap, idx, dst, fill, j))
    && changed <= verified
  }

  lemma CountedStarts(bytes: Histories, snap: Snap, idx: nat, dst: nat, fill: Fill)
    ensures Counted(bytes, snap, idx, dst, fill, 0, 0, 0)
  {}

  lemma CountedSteps(bytes: Histories, snap: Snap, idx: nat, dst: nat, fill: Fill, k: nat, verified: nat, changed: nat)
    requires Counted(bytes, snap, idx, dst, fill, k, verified, changed) && k < |fill|
    ensures fill[k].None? ==> Counted(bytes, snap, idx, dst, fill, k + 1, verified, changed)
    ensures fill[k].Some? ==>
      match Judged(bytes, snap, idx, dst + k, fill[k].value)
      case Refuted => !Verified(bytes, snap, idx, dst, fill)
      case Unread => Counted(bytes, snap, idx, dst, fill, k + 1, verified, changed)
      case Seen(isNew) =>
        Counted(bytes, snap, idx, dst, fill, k + 1, verified + 1, if isNew then changed + 1 else changed)
  {
    hide PostRead, Known;
    assert fill[k].Some? && Judged(bytes, snap, idx, dst + k, fill[k].value).Refuted? ==>
      Contradicted(bytes, idx, dst, fill, k);
    assert Confirmed(bytes, snap, idx, dst, fill, k)
      <==> fill[k].Some? && Judged(bytes, snap, idx, dst + k, fill[k].value) == Seen(true);
    assert Contradicted(bytes, idx, dst, fill, k)
      <==> fill[k].Some? && Judged(bytes, snap, idx, dst + k, fill[k].value).Refuted?;
    hide Contradicted, Confirmed, Judged;
  }

  lemma CountedEnds(bytes: Histories, snap: Snap, idx: nat, dst: nat, fill: Fill, verified: nat, changed: nat)
    requires Counted(bytes, snap, idx, dst, fill, |fill|, verified, changed)
    ensures Verified(bytes, snap, idx, dst, fill) <==> changed > 0
    ensures changed <= verified
  {}

  lemma {:induction false} FillStarts(bytes: Histories, idx: nat, dst: nat, fill: Fill, sources: map<(nat, nat), nat>,
      src: nat)
    ensures FilledTo(bytes, bytes, idx, dst, fill, 0) && NewStores(bytes, idx, dst, fill, 0) == []
    ensures SourcesTo(sources, sources, bytes, idx, dst, src, fill, 0)
  {}

  lemma FillSteps(was: Histories, now: Histories, idx: nat, dst: nat, fill: Fill, k: nat)
    requires k < |fill| && FilledTo(was, now, idx, dst, fill, k)
    ensures Get(now, dst + k) == Get(was, dst + k)
    ensures if fill[k].None? then FilledTo(was, now, idx, dst, fill, k + 1)
      else FilledTo(was, now[dst + k := WithWrite(Get(was, dst + k), idx, fill[k].value)], idx, dst, fill, k + 1)
    ensures NewStores(was, idx, dst, fill, k + 1) == NewStores(was, idx, dst, fill, k) +
      (if fill[k].Some? && !HasWriteAt(Get(was, dst + k), idx) then [Access(idx, dst + k, 1, fill[k].value)] else [])
  {
    hide WithWrite, HasWriteAt;
  }

  lemma SourcesStep(sources: map<(nat, nat), nat>, now: map<(nat, nat), nat>, was: Histories, idx: nat, dst: nat,
      src: nat, fill: Fill, k: nat)
    requires k < |fill| && SourcesTo(sources, now, was, idx, dst, src, fill, k)
    ensures if Emits(was, idx, dst, fill, k)
      then SourcesTo(sources, now[(dst + k, idx) := src + k], was, idx, dst, src, fill, k + 1)
      else SourcesTo(sources, now, was, idx, dst, src, fill, k + 1)
  {}

  // ---------- the searches ----------

  method KnownByteAtOrBefore(bytes: Histories, snap: Snap, addr: nat, idx: nat) returns (b: Option<nat>)
    requires AllSorted(bytes)
    ensures b == Known(bytes, snap, addr, idx)
  {
    var evs := Get(bytes, addr);
    if addr in bytes {
      var pos := PartitionPoint(bytes[addr], idx + 1);
      if pos > 0 {
        LastIs(evs, Until(idx), pos - 1);
        return Some(evs[pos - 1].byte);
      }
    }
    LastIsNone(evs, Until(idx));
    return snap(addr);
  }

  method FirstPostCallReadBeforeWrite(bytes: Histories, addr: nat, idx: nat) returns (b: Option<nat>)
    requires AllSorted(bytes)
    ensures b == PostRead(Get(bytes, addr), idx)
  {
    if addr !in bytes { return None; }
    var evs := bytes[addr];
    var pos := PartitionPoint(evs, idx + 1);
    CutIs(evs, idx + 1, pos);
    if pos < |evs| && evs[pos].kind == Read { return Some(evs[pos].byte); }
    return None;
  }

  method InsertOrderedWriteEvent(evs: History, idx: nat, byte: nat) returns (evs': History, inserted: bool)
    requires Sorted(evs)
    ensures inserted <==> !HasWriteAt(evs, idx)
    ensures evs' == WithWrite(evs, idx, byte)
  {
    var lo := PartitionPoint(evs, idx);
    var hi := PartitionPoint(evs, idx + 1);
    CutIs(evs, idx, lo);
    CutIs(evs, idx + 1, hi);
    CutGrows(evs, idx, idx + 1);
    for j := lo to hi
      invariant forall i :: lo <= i < j ==> !evs[i].IsWrite()
    {
      if evs[j].IsWrite() { return evs, false; }
    }
    assert forall j :: 0 <= j < |evs| && evs[j].idx == idx ==> lo <= j < hi;
    return evs[..hi] + [External1(idx, byte)] + evs[hi..], true;
  }

  class MemShadow {
    var bytes: Histories
    var stores: seq<Access>
    var copySources: map<(nat, nat), nat>

    ghost predicate Valid()
      reads this
    {
      AllSorted(bytes)
    }

    ghost function View(): ShadowState
      reads this
    {
      ShadowState(bytes, stores, copySources)
    }

    constructor (bytes: Histories, stores: seq<Access>)
      requires AllSorted(bytes)
      ensures Valid() && this.bytes == bytes && this.stores == stores && copySources == map[]
    {
      this.bytes, this.stores, this.copySources := bytes, stores, map[];
    }

    /** One emitted byte: into its history and onto the list of stores, unless a write already stands there. */
    method Emit(idx: nat, addr: nat, byte: nat) returns (inserted: bool)
      requires Valid()
      modifies this`bytes, this`stores
      ensures Valid()
      ensures inserted <==> !HasWriteAt(old(Get(bytes, addr)), idx)
      ensures bytes == old(bytes)[addr := WithWrite(old(Get(bytes, addr)), idx, byte)]
      ensures stores == old(stores) + if inserted then [Access(idx, addr, 1, byte)] else []
    {
      var evs, ok := InsertOrderedWriteEvent(Get(bytes, addr), idx, byte);
      WithWriteSorted(Get(bytes, addr), idx, byte);
      hide Sorted, WithWrite, HasWriteAt;
      bytes := bytes[addr := evs];
      if ok { stores := stores + [Access(idx, addr, 1, byte)]; }
      inserted := ok;
    }

    /** How the load directly after the call, if any, stands to byte `byte` at `addr`. */
    method Judge(idx: nat, addr: nat, byte: nat, snap: Snap) returns (verdict: Verdict)
      requires Valid()
      ensures verdict == Judged(bytes, snap, idx, addr, byte)
    {
      var seen := FirstPostCallReadBeforeWrite(bytes, addr, idx);
      if seen.None? { return Unread; }
      if seen != Some(byte) { return Refuted; }
      var prior := KnownByteAtOrBefore(bytes, snap, addr, idx);
      verdict := Seen(prior != Some(byte));
    }

    /** Gathers the source bytes as they are before the call and holds them against the loads after it. */
    method GatherSource(idx: nat, dst: nat, src: nat, len: nat, snap: Snap) returns (srcBytes: Fill, verified: bool)
      requires Valid() && dst + len <= U64_MAX && src + len <= U64_MAX
      ensures verified <==> Verified(bytes, snap, idx, dst, SourceBytes(bytes, snap, src, idx, len))
      ensures verified ==> srcBytes == SourceBytes(bytes, snap, src, idx, len)
    {
      ghost var fill := SourceBytes(bytes, snap, src, idx, len);
      var known, confirmed, changed := 0, 0, 0;
      srcBytes := [];
      CountedStarts(bytes, snap, idx, dst, fill);
      hide Known, Judged, SourceBytes, Counted, Contradicted, Confirmed, Verified, AllSorted;
      for k := 0 to len
        invariant srcBytes == fill[..k] && confirmed <= known
        invariant Counted(bytes, snap, idx, dst, fill, k, confirmed, changed)
      {
        var byte := KnownByteAtOrBefore(bytes, snap, WrappingAdd(src, k), idx);
        CountedSteps(bytes, snap, idx, dst, fill, k, confirmed, changed);
        if byte.Some? {
          known := known + 1;
          var verdict := Judge(idx, WrappingAdd(dst, k), byte.value, snap);
          if verdict == Refuted { return srcBytes, false; }
          if verdict.Seen? {
            confirmed := confirmed + 1;
            if verdict.isNew { changed := changed + 1; }
          }
        }
        srcBytes := srcBytes + [byte];
      }
      CountedEnds(bytes, snap, idx, dst, fill, confirmed, changed);
      verified := !(known == 0 || confirmed == 0 || changed == 0);
    }

    /** Holds a constant fill against the loads after the call. */
    method CheckConstant(idx: nat, dst: nat, byte: nat, len: nat, snap: Snap) returns (verified: bool)
      requires Valid() && dst + len <= U64_MAX
      ensures verified <==> Verified(bytes, snap, idx, dst, Constant(byte, len))
    {
      ghost var fill := Constant(byte, len);
      var confirmed, changed := 0, 0;
      CountedStarts(bytes, snap, idx, dst, fill);
      hide Judged, Counted, Contradicted, Confirmed, Verified, AllSorted;
      for k := 0 to len
        invariant Counted(bytes, snap, idx, dst, fill, k, confirmed, changed)
      {
        var verdict := Judge(idx, WrappingAdd(dst, k), byte, snap);
        CountedSteps(bytes, snap, idx, dst, fill, k, confirmed, changed);
        if verdict == Refuted { return false; }
        if verdict.Seen? {
          confirmed := confirmed + 1;
          if verdict.isNew { changed := changed + 1; }
        }
      }
      CountedEnds(bytes, snap, idx, dst, fill, confirmed, changed);
      verified := !(confirmed == 0 || changed == 0);
    }

    /**
     * Replays `memcpy` or `memmove`; all source bytes are gathered before the first destination byte is written.
     */
    method TrySynthesizeMemCopy(idx: nat, dst: nat, src: nat, len: nat, snap: Snap) returns (emitted: nat)
      requires Valid() && dst + len <= U64_MAX && src + len <= U64_MAX
      modifies this
      ensures Valid()
      ensures var fill := SourceBytes(old(bytes), snap, src, idx, len);
        if Verified(old(bytes), snap, idx, dst, fill) then
          && FilledTo(old(bytes), bytes, idx, dst, fill, len)
          && stores == old(stores) + NewStores(old(bytes), idx, dst, fill, len)
          && emitted == |NewStores(old(bytes), idx, dst, fill, len)|
          && SourcesTo(old(copySources), copySources, old(bytes), idx, dst, src, fill, len)
        else emitted == 0 && bytes == old(bytes) && stores == old(stores) && copySources == old(copySources)
    {
      hide Known, SourceBytes, Verified, FilledTo, NewStores, SourcesTo, AllSorted, WithWrite, HasWriteAt;
      var srcBytes, verified := GatherSource(idx, dst, src, len, snap);
      if !verified { return 0; }
      emitted := 0;
      ghost var was, listed, sources := bytes, stores, copySources;
      FillStarts(was, idx, dst, srcBytes, sources, src);
      for k := 0 to len
        invariant Valid() && FilledTo(was, bytes, idx, dst, srcBytes, k)
        invariant stores == listed + NewStores(was, idx, dst, srcBytes, k)
          && emitted == |NewStores(was, idx, dst, srcBytes, k)|
        invariant SourcesTo(sources, copySources, was, idx, dst, src, srcBytes, k)
      {
        FillSteps(was, bytes, idx, dst, srcBytes, k);
        SourcesStep(sources, copySources, was, idx, dst, src, srcBytes, k);
        if srcBytes[k].None? { continue; }
        var dAddr, sAddr := WrappingAdd(dst, k), WrappingAdd(src, k);
        var inserted := Emit(idx, dAddr, srcBytes[k].value);
        if inserted {
          copySources := copySources[(dAddr, idx) := sAddr];
          emitted := emitted + 1;
        }
      }
    }

    /** Replays `memset`. */
    method TrySynthesizeMemset(idx: nat, dst: nat, byte: nat, len: nat, snap: Snap) returns (emitted: nat)
      requires Valid() && dst + len <= U64_MAX
      modifies this`bytes, this`stores
      ensures Valid()
      ensures var fill := Constant(byte, len);
        if Verified(old(bytes), snap, idx, dst, fill) then
          && FilledTo(old(bytes), bytes, idx, dst, fill, len)
          && stores == old(stores) + NewStores(old(bytes), idx, dst, fill, len)
          && emitted == |NewStores(old(bytes), idx, dst, fill, len)|
        else emitted == 0 && bytes == old(bytes) && stores == old(stores)
    {
      hide Verified, FilledTo, NewStores, AllSorted, WithWrite, HasWriteAt;
      ghost var fill := Constant(byte, len);
      var verified := CheckConstant(idx, dst, byte, len, snap);
      if !verified { return 0; }
      emitted := 0;
      ghost var was, listed := bytes, stores;
      FillStarts(was, idx, dst, fill, map[], 0);
      for k := 0 to len
        invariant Valid() && FilledTo(was, bytes, idx, dst, fill, k)
        invariant stores == listed + NewStores(was, idx, dst, fill, k) && emitted == |NewStores(was, idx, dst, fill, k)|
      {
        FillSteps(was, bytes, idx, dst, fill, k);
        var inserted := Emit(idx, WrappingAdd(dst, k), byte);
        if inserted { emitted := emitted + 1; }
      }
    }

    /** One candidate call: a copy if its source is an address and the loads bear it out, else a fill. */
    method MergeCall(sites: seq<Site>, idx: nat, budget: nat, snap: Snap) returns (emitted: nat)
      requires Valid() && idx + 1 < |sites|
      modifies this
      ensures Valid() && Replays(sites, idx, budget, snap, old(View()), View(), emitted)
    {
      hide Known, Verified, FilledTo, AllSorted, SourcesTo, EmitsAny;
      var site, next := sites[idx], sites[idx + 1];
      if !site.boundary || next.x0 != site.x0 { return 0; }
      var dst, arg1, len := site.x0, site.x1, site.x2;
      if dst < MIN_VALID_USER_ADDR || !(1 <= len <= MAX_SYNTH_COPY_LEN) { return 0; }
      if len > budget { return 0; }
      if dst + len > U64_MAX { return 0; }
      ghost var before := View();
      if arg1 >= MIN_VALID_USER_ADDR && arg1 != dst && arg1 + len <= U64_MAX {
        emitted := TrySynthesizeMemCopy(idx, dst, arg1, len, snap);
        ghost var fill := SourceBytes(before.bytes, snap, arg1, idx, len);
        CopyReplays(sites, idx, budget, snap, before, View(), emitted);
        if emitted > 0 { return; }
      }
      if arg1 <= 0xff {
        emitted := TrySynthesizeMemset(idx, dst, arg1, len, snap);
        SetReplays(sites, idx, budget, snap, before, View(), emitted);
        if emitted > 0 { return; }
      }
      return 0;
    }

    /** Record after record, until the budget is spent; whether any byte was emitted. */
    method SearchCalls(sites: seq<Site>, snap: Snap)
        returns (added: bool, ghost budgets: seq<nat>, ghost states: seq<ShadowState>)
      requires Valid()
      modifies this
      ensures Valid()
      ensures IsRun(sites, snap, budgets, states, if |sites| < 2 then 0 else |sites| - 1)
      ensures states[0] == old(View()) && states[|states| - 1] == View()
      ensures added <==> budgets[|budgets| - 1] < SynthBudget()
    {
      hide Replays, IsRun, Sorted, AllSorted;
      var n, budget := |sites|, SynthBudget();
      added, budgets, states := false, [budget], [View()];
      RunStarts(sites, snap, View());
      if n < 2 { return; }
      ghost var at: nat := 0;
      for idx := 0 to n - 1
        invariant Valid() && at == idx && IsRun(sites, snap, budgets, states, idx)
        invariant |states| == |budgets| == idx + 1
        invariant states[0] == old(View()) && states[idx] == View() && budgets[idx] == budget
        invariant (added <==> budget < SynthBudget()) && budget <= SynthBudget()
      {
        if budget == 0 { break; }
        var emitted := MergeCall(sites, idx, budget, snap);
        budgets, states := RunTakes(sites, snap, budgets, states, idx, emitted, View());
        budget, at := budget - emitted, at + 1;
        if emitted > 0 { added := true; }
      }
      if at < n - 1 {
        budgets, states := IdleToTheEnd(sites, snap, budgets, states, at, n - 1);
      }
    }

    /**
     * The whole search: record after record, each call against what the ones before it left. However many calls it
     * replays: histories stay in order, no event of the trace moves or disappears, external writes appear only where a
     * call covers them, none that the next load contradicts is added, and at most a mebibyte of bytes are
     * emitted.
     */
    method MergeUninstrumentedMemCalls(sites: seq<Site>, snap: Snap)
        returns (ghost budgets: seq<nat>, ghost states: seq<ShadowState>)
      requires Valid()
      modifies this
      ensures Valid()
      ensures IsRun(sites, snap, budgets, states, if |sites| < 2 then 0 else |sites| - 1) && states[0] == old(View())
      ensures var last := states[|states| - 1];
        && bytes == last.bytes && copySources == last.copySources
        && stores == if last.stores == old(stores) then old(stores) else SortStores(last.stores)
      ensures AllKept(old(bytes), bytes, sites)
      ensures exists added: seq<Access> :: (
        |added| <= SynthBudget() && stores == if added == [] then old(stores)
          else SortStores(old(stores) + added))
    {
      hide AllKept, IsRun, AllSorted, SynthBudget, SortStores, Ordered;
      ghost var n := if |sites| < 2 then 0 else |sites| - 1;
      ghost var was := View();
      var added;
      added, budgets, states := SearchCalls(sites, snap);
      RunShape(sites, snap, budgets, states, n);
      RunKeeps(sites, snap, budgets, states, n);
      ghost var last := AddedStores(was.stores, states[n].stores, budgets[n]);
      if added { stores := SortStores(stores); }
    }
  }
}
