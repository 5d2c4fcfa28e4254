/** Which calls are replayed, and what a whole run of them leaves. */
module MemCallRuns {
  import opened Wrappers
  import opened Numbers
  import opened Postings
  import opened ByteHistory
  import opened ExternalWrite
  import opened ShadowSpec
  import opened MemCallSpec

  // ---------- one candidate call ----------

  /** How many bytes one run may emit. */
  function SynthBudget(): nat { 1024 * 1024 }

  /** What the calls read and write. */
  datatype ShadowState = ShadowState(bytes: Histories, stores: seq<Access>, copySources: map<(nat, nat), nat>)

  /**
   * The record calls out and its return leaves the first register alone; that register is an address, the third a
   * length within the limits and the budget.
   */
  ghost predicate Eligible(sites: seq<Site>, idx: nat, budget: nat) {
    && idx + 1 < |sites| && sites[idx].boundary && sites[idx + 1].x0 == sites[idx].x0
    && 0x1000 <= sites[idx].x0 && 1 <= sites[idx].x2 <= 16384 && sites[idx].x2 <= budget
    && sites[idx].x0 + sites[idx].x2 <= U64_MAX
  }

  /** The fill writes at least one byte. */
  ghost predicate EmitsAny(bytes: Histories, idx: nat, dst: nat, fill: Fill) {
    exists k: nat :: Emits(bytes, idx, dst, fill, k)
  }

  /** The call is replayed as a copy: its second register is another address, and the loads bear the bytes there out. */
  ghost predicate Copies(sites: seq<Site>, idx: nat, budget: nat, bytes: Histories, snap: Snap) {
    && Eligible(sites, idx, budget)
    && var (dst, src, len) := (sites[idx].x0, sites[idx].x1, sites[idx].x2);
      && 0x1000 <= src && src != dst && src + len <= U64_MAX
      && Verified(bytes, snap, idx, dst, SourceBytes(bytes, snap, src, idx, len))
      && EmitsAny(bytes, idx, dst, SourceBytes(bytes, snap, src, idx, len))
  }

  /** It is replayed as a fill: its second register is a byte, and the loads bear that byte out. */
  ghost predicate Sets(sites: seq<Site>, idx: nat, budget: nat, bytes: Histories, snap: Snap) {
    && Eligible(sites, idx, budget) && sites[idx].x1 <= 0xff
    && Verified(bytes, snap, idx, sites[idx].x0, Constant(sites[idx].x1, sites[idx].x2))
    && EmitsAny(bytes, idx, sites[idx].x0, Constant(sites[idx].x1, sites[idx].x2))
  }

  /** The bytes the call is found to have written, if it is replayed at all. */
  ghost function FillOf(sites: seq<Site>, idx: nat, budget: nat, bytes: Histories, snap: Snap): Option<Fill> {
    if Copies(sites, idx, budget, bytes, snap) then
      Some(SourceBytes(bytes, snap, sites[idx].x1, idx, sites[idx].x2))
    else if Sets(sites, idx, budget, bytes, snap) then Some(Constant(sites[idx].x1, sites[idx].x2))
    else None
  }

  /**
   * A replayed call leaves its bytes, one listed store for each emitted one and, if it copies, where each came from.
   */
  ghost predicate Replays(sites: seq<Site>, idx: nat, budget: nat, snap: Snap, before: ShadowState, after: ShadowState,
      emitted: nat)
    requires idx < |sites|
  {
    var (dst, src) := (sites[idx].x0, sites[idx].x1);
    match FillOf(sites, idx, budget, before.bytes, snap)
    case None => after == before && emitted == 0
    case Some(fill) =>
      && FilledTo(before.bytes, after.bytes, idx, dst, fill, |fill|)
      && after.stores == before.stores + NewStores(before.bytes, idx, dst, fill, |fill|)
      && emitted == |NewStores(before.bytes, idx, dst, fill, |fill|)|
      && if Copies(sites, idx, budget, before.bytes, snap) then
           SourcesTo(before.copySources, after.copySources, before.bytes, idx, dst, src, fill, |fill|)
         else after.copySources == before.copySources
  }

  /** A fill that emits nothing changes nothing. */
  lemma {:induction false} FillsNothing(before: ShadowState, after: ShadowState, idx: nat, dst: nat, fill: Fill)
    requires !EmitsAny(before.bytes, idx, dst, fill) && FilledTo(before.bytes, after.bytes, idx, dst, fill, |fill|)
    ensures after.bytes == before.bytes && NewStores(before.bytes, idx, dst, fill, |fill|) == []
  {
    forall addr: nat | Hit(dst, fill, |fill|, addr)
      ensures addr in before.bytes && WithWrite(Get(before.bytes, addr), idx, fill[addr - dst].value)
        == Get(before.bytes, addr) {
      assert !Emits(before.bytes, idx, dst, fill, addr - dst);
    }
    hide WithWrite, HasWriteAt;
  }

  lemma NoSources(before: ShadowState, after: ShadowState, idx: nat, dst: nat, src: nat, fill: Fill)
    requires !EmitsAny(before.bytes, idx, dst, fill)
    requires SourcesTo(before.copySources, after.copySources, before.bytes, idx, dst, src, fill, |fill|)
    ensures after.copySources == before.copySources
  {
    hide Emits;
    var was, now := before.copySources, after.copySources;
    forall addr: nat, at: nat
      ensures (addr, at) in now <==> (addr, at) in was
      ensures (addr, at) in now ==> now[(addr, at)] == was[(addr, at)] {
      assert dst <= addr ==> !Emits(before.bytes, idx, dst, fill, addr - dst);
    }
    forall p ensures p in now <==> p in was ensures p in now ==> now[p] == was[p] { assert p == (p.0, p.1); }
  }

  /** Trying a copy on an eligible record replays the call, unless it is left to be a fill. */
  lemma {:induction false} CopyReplays(sites: seq<Site>, idx: nat, budget: nat, snap: Snap, before: ShadowState,
      after: ShadowState, emitted: nat)
    requires Eligible(sites, idx, budget) && 0x1000 <= sites[idx].x1 != sites[idx].x0
    requires sites[idx].x1 + sites[idx].x2 <= U64_MAX
    requires var (dst, src, len) := (sites[idx].x0, sites[idx].x1, sites[idx].x2);
      var fill := SourceBytes(before.bytes, snap, src, idx, len);
      if Verified(before.bytes, snap, idx, dst, fill) then
        && FilledTo(before.bytes, after.bytes, idx, dst, fill, len)
        && after.stores == before.stores + NewStores(before.bytes, idx, dst, fill, len)
        && emitted == |NewStores(before.bytes, idx, dst, fill, len)|
        && SourcesTo(before.copySources, after.copySources, before.bytes, idx, dst, src, fill, len)
      else emitted == 0 && after == before
    ensures Replays(sites, idx, budget, snap, before, after, emitted)
    ensures emitted == 0 ==> after == before
  {
    var fill := SourceBytes(before.bytes, snap, sites[idx].x1, idx, sites[idx].x2);
    hide Verified, FilledTo, SourcesTo, NewStores, SourceBytes;
    if Verified(before.bytes, snap, idx, sites[idx].x0, fill) && !EmitsAny(before.bytes, idx, sites[idx].x0, fill) {
      FillsNothing(before, after, idx, sites[idx].x0, fill);
      NoSources(before, after, idx, sites[idx].x0, sites[idx].x1, fill);
      assert before.stores + [] == before.stores;
    }
  }

  lemma {:induction false} SetReplays(sites: seq<Site>, idx: nat, budget: nat, snap: Snap, before: ShadowState,
      after: ShadowState, emitted: nat)
    requires Eligible(sites, idx, budget) && sites[idx].x1 <= 0xff && after.copySources == before.copySources
    requires var fill := Constant(sites[idx].x1, sites[idx].x2);
      var dst, len := sites[idx].x0, sites[idx].x2;
      if Verified(before.bytes, snap, idx, dst, fill) then
        && FilledTo(before.bytes, after.bytes, idx, dst, fill, len)
        && after.stores == before.stores + NewStores(before.bytes, idx, dst, fill, len)
        && emitted == |NewStores(before.bytes, idx, dst, fill, len)|
      else emitted == 0 && after == before
    ensures Replays(sites, idx, budget, snap, before, after, emitted)
    ensures emitted == 0 ==> after == before
  {
    var fill := Constant(sites[idx].x1, sites[idx].x2);
    hide Verified, FilledTo, SourcesTo, NewStores;
    if Verified(before.bytes, snap, idx, sites[idx].x0, fill) && !EmitsAny(before.bytes, idx, sites[idx].x0, fill) {
      FillsNothing(before, after, idx, sites[idx].x0, fill);
      assert before.stores + [] == before.stores;
    }
  }

  lemma FillShape(sites: seq<Site>, idx: nat, budget: nat, bytes: Histories, snap: Snap)
    ensures match FillOf(sites, idx, budget, bytes, snap)
      case None => true
      case Some(fill) =>
        && Eligible(sites, idx, budget) && |fill| == sites[idx].x2 && EmitsAny(bytes, idx, sites[idx].x0, fill)
        && Verified(bytes, snap, idx, sites[idx].x0, fill)
  {
    hide Verified, EmitsAny;
  }

  /** However it goes: no more bytes than the budget, stores only appended, histories as a run keeps them. */
  lemma ReplayKeeps(sites: seq<Site>, idx: nat, budget: nat, snap: Snap, before: ShadowState,
      after: ShadowState,
      emitted: nat, was: Histories)
    requires idx < |sites| && Replays(sites, idx, budget, snap, before, after, emitted)
    ensures emitted <= budget && |after.stores| == |before.stores| + emitted && before.stores <= after.stores
    ensures AllSorted(before.bytes) ==> AllSorted(after.bytes)
    ensures AllKept(was, before.bytes, sites) ==> AllKept(was, after.bytes, sites)
  {
    FillShape(sites, idx, budget, before.bytes, snap);
    hide Copies, Sets, Verified, EmitsAny, FilledTo, SourcesTo, AllKept;
    match FillOf(sites, idx, budget, before.bytes, snap)
    case None =>
    case Some(fill) =>
      if AllKept(was, before.bytes, sites) {
        FillKeeps(was, before.bytes, after.bytes, snap, sites, idx, fill);
      }
      if AllSorted(before.bytes) { FillSorts(before.bytes, after.bytes, idx, sites[idx].x0, fill); }
  }

  lemma FillSorts(before: Histories, after: Histories, idx: nat, dst: nat, fill: Fill)
    requires FilledTo(before, after, idx, dst, fill, |fill|) && AllSorted(before)
    ensures AllSorted(after)
  {
    hide Sorted, WithWrite;
    forall addr | addr in after ensures Sorted(after[addr]) {
      FillKeepsTrace(before, after, idx, dst, fill, addr);
      NothingSorted();
    }
  }

  lemma NothingSorted()
    ensures Sorted([])
  {}

  // ---------- a whole run ----------

  /** Record after record, each call against the histories the ones before it left, until the budget is spent. */
  ghost predicate IsRun(sites: seq<Site>, snap: Snap, budgets: seq<nat>, states: seq<ShadowState>, n: nat) {
    && |states| == |budgets| == n + 1 && (n == 0 || n < |sites|) && budgets[0] == SynthBudget()
    && (forall i: nat :: i < n ==> budgets[i + 1] <= budgets[i])
    && forall i: nat :: i < n ==>
         Replays(sites, i, budgets[i], snap, states[i], states[i + 1], budgets[i] - budgets[i + 1])
  }

  lemma RunShape(sites: seq<Site>, snap: Snap, budgets: seq<nat>, states: seq<ShadowState>, n: nat)
    requires IsRun(sites, snap, budgets, states, n)
    ensures |states| == |budgets| == n + 1 && (n == 0 || n < |sites|) && budgets[0] == SynthBudget()
  {}

  lemma RunAt(sites: seq<Site>, snap: Snap, budgets: seq<nat>, states: seq<ShadowState>, n: nat, i: nat)
    requires IsRun(sites, snap, budgets, states, n) && i < n
    ensures |states| == |budgets| == n + 1 && i < |sites| && budgets[i + 1] <= budgets[i]
    ensures Replays(sites, i, budgets[i], snap, states[i], states[i + 1], budgets[i] - budgets[i + 1])
  {}

  lemma RunStarts(sites: seq<Site>, snap: Snap, m: ShadowState)
    ensures IsRun(sites, snap, [SynthBudget()], [m], 0)
  {}

  /** One more call of a run. */
  lemma RunTakes(sites: seq<Site>, snap: Snap, budgets: seq<nat>, states: seq<ShadowState>, n: nat, emitted: nat,
      next: ShadowState) returns (budgets': seq<nat>, states': seq<ShadowState>)
    requires IsRun(sites, snap, budgets, states, n) && n + 1 < |sites|
    requires Replays(sites, n, budgets[n], snap, states[n], next, emitted)
    ensures IsRun(sites, snap, budgets', states', n + 1) && |states'| == |budgets'| == n + 2
    ensures emitted <= budgets[n] && states'[0] == states[0] && states'[n + 1] == next
    ensures budgets'[n + 1] == budgets[n] - emitted
  {
    hide *;
    RunShape(sites, snap, budgets, states, n);
    ReplayBounded(sites, n, budgets[n], snap, states[n], next, emitted);
    RunGoesOn(sites, snap, budgets, states, n, budgets[n] - emitted, next);
    budgets', states' := budgets + [budgets[n] - emitted], states + [next];
  }

  lemma ReplayBounded(sites: seq<Site>, idx: nat, budget: nat, snap: Snap, before: ShadowState,
      after: ShadowState, emitted: nat)
    requires idx < |sites| && Replays(sites, idx, budget, snap, before, after, emitted)
    ensures emitted <= budget
  {
    hide *;
    ReplayKeeps(sites, idx, budget, snap, before, after, emitted, map[]);
  }

  lemma AllKeptStarts(bytes: Histories, sites: seq<Site>)
    ensures AllKept(bytes, bytes, sites)
  {}

  /** Without a budget nothing is replayed, so stopping is going on doing nothing. */
  lemma IdleToTheEnd(sites: seq<Site>, snap: Snap, budgets: seq<nat>, states: seq<ShadowState>,
      n: nat,
      end: nat) returns (budgets': seq<nat>, states': seq<ShadowState>)
    requires IsRun(sites, snap, budgets, states, n) && n <= end < |sites| && budgets[n] == 0
    ensures IsRun(sites, snap, budgets', states', end) && |states'| == |budgets'| == end + 1 && budgets'[end] == 0
    ensures states'[0] == states[0] && states'[end] == states[n]
    decreases end - n
  {
    budgets', states' := budgets, states;
    if n < end {
      budgets', states' := budgets + [0], states + [states[n]];
      NothingEligible(sites, snap, n, states[n]);
      RunGoesOn(sites, snap, budgets, states, n, 0, states[n]);
      hide IsRun;
      budgets', states' := IdleToTheEnd(sites, snap, budgets', states', n + 1, end);
    }
  }

  lemma NothingEligible(sites: seq<Site>, snap: Snap, idx: nat, m: ShadowState)
    requires idx < |sites|
    ensures Replays(sites, idx, 0, snap, m, m, 0)
  {}

  lemma RunGoesOn(sites: seq<Site>, snap: Snap, budgets: seq<nat>, states: seq<ShadowState>, n: nat, budget: nat,
      next: ShadowState)
    requires IsRun(sites, snap, budgets, states, n) && n + 1 < |sites| && budget <= budgets[n]
    requires Replays(sites, n, budgets[n], snap, states[n], next, budgets[n] - budget)
    ensures IsRun(sites, snap, budgets + [budget], states + [next], n + 1)
  {
    hide Replays;
  }

  /** What a run keeps: order, the trace's own events, the stores before it, and the budget. */
  ghost predicate Keeps(was: ShadowState, now: ShadowState, left: nat, sites: seq<Site>) {
    && AllSorted(now.bytes) && AllKept(was.bytes, now.bytes, sites)
    && was.stores <= now.stores && |now.stores| + left == |was.stores| + SynthBudget()
  }

  lemma KeepsStarts(m: ShadowState, sites: seq<Site>)
    requires AllSorted(m.bytes)
    ensures Keeps(m, m, SynthBudget(), sites)
  {
    hide AllSorted, AllKept;
    AllKeptStarts(m.bytes, sites);
  }

  lemma KeepsOn(sites: seq<Site>, idx: nat, snap: Snap, was: ShadowState, before: ShadowState,
      after: ShadowState, left: nat, emitted: nat)
    requires idx < |sites| && Keeps(was, before, left, sites) && Replays(sites, idx, left, snap, before, after, emitted)
    ensures emitted <= left && Keeps(was, after, left - emitted, sites)
  {
    hide AllSorted, AllKept, SynthBudget, Replays;
    ReplayKeeps(sites, idx, left, snap, before, after, emitted, was.bytes);
  }

  lemma RunKeepsTo(sites: seq<Site>, snap: Snap, budgets: seq<nat>, states: seq<ShadowState>, n: nat,
      i: nat)
    requires IsRun(sites, snap, budgets, states, n) && AllSorted(states[0].bytes) && i <= n
    ensures |states| == |budgets| == n + 1 && Keeps(states[0], states[i], budgets[i], sites)
  {
    hide *;
    RunShape(sites, snap, budgets, states, n);
    if i == 0 {
      KeepsStarts(states[0], sites);
    } else {
      var k := i - 1;
      RunAt(sites, snap, budgets, states, n, k);
      RunKeepsTo(sites, snap, budgets, states, n, k);
      KeepsOn(sites, k, snap, states[0], states[k], states[i], budgets[k], budgets[k] - budgets[i]);
    }
  }

  lemma RunKeeps(sites: seq<Site>, snap: Snap, budgets: seq<nat>, states: seq<ShadowState>, n: nat)
    requires IsRun(sites, snap, budgets, states, n) && AllSorted(states[0].bytes)
    ensures AllSorted(states[n].bytes) && AllKept(states[0].bytes, states[n].bytes, sites)
    ensures states[0].stores <= states[n].stores
    ensures |states[n].stores| + budgets[n] == |states[0].stores| + SynthBudget()
  {
    RunKeepsTo(sites, snap, budgets, states, n, n);
    hide AllSorted, AllKept, IsRun, SynthBudget;
  }

  /** The stores a run has listed: none exactly if the budget is untouched. */
  lemma AddedStores(was: seq<Access>, last: seq<Access>, left: nat) returns (added: seq<Access>)
    requires was <= last && |last| + left == |was| + SynthBudget()
    ensures last == was + added && |added| <= SynthBudget()
    ensures left < SynthBudget() <==> added != []
    ensures last == was <==> added == []
  {
    added := last[|was|..];
  }

  // ---------- what a run adds ----------

  /** Record `idx` holds a call that is replayed and emits `byte` at `addr`. */
  ghost predicate Adds(sites: seq<Site>, snap: Snap, budget: nat, m: ShadowState, idx: nat, addr: nat, byte: nat) {
    idx < |sites| && sites[idx].x0 <= addr &&
    match FillOf(sites, idx, budget, m.bytes, snap)
    case None => false
    case Some(fill) =>
      var k: nat := addr - sites[idx].x0;
      Emits(m.bytes, idx, sites[idx].x0, fill, k) && fill[k] == Some(byte)
  }

  /** Event `e` at `addr` is what the call at its record emits when the run reaches it. */
  ghost predicate AddsEvent(sites: seq<Site>, snap: Snap, budgets: seq<nat>, states: seq<ShadowState>, n: nat,
      addr: nat,
      e: ByteEvent) {
    && e.kind == External && e.idx < n && e.idx < |budgets| && e.idx < |states|
    && Adds(sites, snap, budgets[e.idx], states[e.idx], e.idx, addr, e.byte)
  }

  /** Access `a` is the one-byte store listed with such an event. */
  ghost predicate AddsStore(sites: seq<Site>, snap: Snap, budgets: seq<nat>, states: seq<ShadowState>, n: nat,
      a: Access) {
    a.size == 1 && AddsEvent(sites, snap, budgets, states, n, a.addr, ByteEvent(a.idx, a.value, External))
  }

  /** The call at record `at` is replayed as a copy and emits a byte at `addr`. */
  ghost predicate AddsSource(sites: seq<Site>, snap: Snap, budgets: seq<nat>, states: seq<ShadowState>, n: nat,
      addr: nat,
      at: nat) {
    && at < n && at < |budgets| && at < |states| && at < |sites|
    && Copies(sites, at, budgets[at], states[at].bytes, snap)
    && exists byte: nat :: Adds(sites, snap, budgets[at], states[at], at, addr, byte)
  }

  lemma EventsAfter(sites: seq<Site>, idx: nat, budget: nat, snap: Snap, before: ShadowState, after: ShadowState,
      emitted: nat, addr: nat, e: ByteEvent)
    requires idx < |sites| && Replays(sites, idx, budget, snap, before, after, emitted)
    ensures e in Get(after.bytes, addr) <==>
      e in Get(before.bytes, addr)
      || (e.kind == External && e.idx == idx && Adds(sites, snap, budget, before, idx, addr, e.byte))
  {
    FillShape(sites, idx, budget, before.bytes, snap);
    hide FillOf, EmitsAny, Verified, SourcesTo, NewStores, HasWriteAt, WithWrite;
    match FillOf(sites, idx, budget, before.bytes, snap)
    case None =>
    case Some(fill) =>
      var dst := sites[idx].x0;
      if Hit(dst, fill, |fill|, addr) {
        WithWriteMembers(Get(before.bytes, addr), idx, fill[addr - dst].value, e);
      }
  }

  lemma {:induction false} StoresHold(bytes: Histories, idx: nat, dst: nat, fill: Fill, k: nat, a: Access)
    requires k <= |fill|
    ensures a in NewStores(bytes, idx, dst, fill, k) <==>
      && a.idx == idx && a.size == 1 && dst <= a.addr < dst + k
      && Emits(bytes, idx, dst, fill, a.addr - dst) && fill[a.addr - dst] == Some(a.value)
  {
    hide HasWriteAt;
    if k > 0 { StoresHold(bytes, idx, dst, fill, k - 1, a); }
  }

  lemma StoresAfter(sites: seq<Site>, idx: nat, budget: nat, snap: Snap, before: ShadowState, after: ShadowState,
      emitted: nat, a: Access)
    requires idx < |sites| && Replays(sites, idx, budget, snap, before, after, emitted)
    ensures a in after.stores <==>
      a in before.stores
      || (a.idx == idx && a.size == 1 && Adds(sites, snap, budget, before, idx, a.addr, a.value))
  {
    hide FillOf, EmitsAny, Verified, SourcesTo, NewStores, FilledTo, HasWriteAt;
    match FillOf(sites, idx, budget, before.bytes, snap)
    case None =>
    case Some(fill) =>
      StoresHold(before.bytes, idx, sites[idx].x0, fill, |fill|, a);
  }

  lemma SourcesAfter(sites: seq<Site>, idx: nat, budget: nat, snap: Snap, before: ShadowState, after: ShadowState,
      emitted: nat, addr: nat, at: nat)
    requires idx < |sites| && Replays(sites, idx, budget, snap, before, after, emitted)
    ensures var here := at == idx && Copies(sites, idx, budget, before.bytes, snap)
        && exists byte: nat :: Adds(sites, snap, budget, before, idx, addr, byte);
      && ((addr, at) in after.copySources <==> (addr, at) in before.copySources || here)
      && (here ==> after.copySources[(addr, at)] == sites[idx].x1 + (addr - sites[idx].x0))
      && (!here && (addr, at) in after.copySources ==> after.copySources[(addr, at)] == before.copySources[(addr, at)])
  {
    hide EmitsAny, Verified, NewStores, FilledTo, HasWriteAt, Copies, Sets;
    match FillOf(sites, idx, budget, before.bytes, snap)
    case None =>
    case Some(fill) =>
      var dst := sites[idx].x0;
      if dst <= addr && Emits(before.bytes, idx, dst, fill, addr - dst) {
        assert Adds(sites, snap, budget, before, idx, addr, fill[addr - dst].value);
      }
  }

  /**
   * After a run the histories hold what they held, and exactly the bytes emitted by the calls that are replayed, each
   * call judged by what stood there when the run reached it.
   */
  lemma RunAddsEvents(sites: seq<Site>, snap: Snap, budgets: seq<nat>, states: seq<ShadowState>,
      n: nat,
      i: nat, addr: nat, e: ByteEvent)
    requires IsRun(sites, snap, budgets, states, n) && i <= n
    ensures |states| == n + 1
    ensures e in Get(states[i].bytes, addr) <==>
      e in Get(states[0].bytes, addr) || AddsEvent(sites, snap, budgets, states, i, addr, e)
  {
    hide IsRun, Replays, Adds;
    RunShape(sites, snap, budgets, states, n);
    if i > 0 {
      RunAt(sites, snap, budgets, states, n, i - 1);
      RunAddsEvents(sites, snap, budgets, states, n, i - 1, addr, e);
      EventsAfter(sites, i - 1, budgets[i - 1], snap, states[i - 1], states[i], budgets[i - 1] - budgets[i], addr, e);
    }
  }

  /** The same for the list of stores. */
  lemma RunAddsStores(sites: seq<Site>, snap: Snap, budgets: seq<nat>, states: seq<ShadowState>,
      n: nat,
      i: nat, a: Access)
    requires IsRun(sites, snap, budgets, states, n) && i <= n
    ensures |states| == n + 1
    ensures a in states[i].stores <==> a in states[0].stores || AddsStore(sites, snap, budgets, states, i, a)
  {
    hide IsRun, Replays, Adds;
    RunShape(sites, snap, budgets, states, n);
    if i > 0 {
      RunAt(sites, snap, budgets, states, n, i - 1);
      RunAddsStores(sites, snap, budgets, states, n, i - 1, a);
      StoresAfter(sites, i - 1, budgets[i - 1], snap, states[i - 1], states[i], budgets[i - 1] - budgets[i], a);
    }
  }

  /** And every byte a copy emitted names the address it was copied from. */
  lemma RunAddsSources(sites: seq<Site>, snap: Snap, budgets: seq<nat>, states: seq<ShadowState>,
      n: nat,
      i: nat, addr: nat, at: nat)
    requires IsRun(sites, snap, budgets, states, n) && i <= n
    ensures |states| == n + 1
    ensures var was, now, here := states[0].copySources, states[i].copySources,
        AddsSource(sites, snap, budgets, states, i, addr, at);
      && ((addr, at) in now <==> (addr, at) in was || here)
      && (here ==> now[(addr, at)] == sites[at].x1 + (addr - sites[at].x0))
      && (!here && (addr, at) in now ==> now[(addr, at)] == was[(addr, at)])
  {
    hide IsRun, Replays, Adds, Copies;
    RunShape(sites, snap, budgets, states, n);
    if i > 0 {
      RunAt(sites, snap, budgets, states, n, i - 1);
      RunAddsSources(sites, snap, budgets, states, n, i - 1, addr, at);
      SourcesAfter(sites, i - 1, budgets[i - 1], snap, states[i - 1], states[i], budgets[i - 1] - budgets[i], addr, at);
    }
  }
}
