/** Copy and fill calls whose bodies the trace does not show: what each one leaves. */
module MemCallSpec {
  import opened Wrappers
  import opened Postings
  import opened ByteHistory
  import opened ExternalWrite
  import opened ShadowSpec

  type Histories = map<nat, History>

  type Snap = nat -> Option<nat>

  /** What each destination offset is to receive, if known. */
  type Fill = seq<Option<nat>>

  ghost predicate AllSorted(bytes: Histories) { forall addr :: addr in bytes ==> Sorted(bytes[addr]) }

  ghost function Known(bytes: Histories, snap: Snap, addr: nat, idx: nat): Option<nat> {
    ByteAt(Get(bytes, addr), snap(addr), idx).value
  }

  /** A load right after the call saw something else than the fill puts there. */
  ghost predicate Contradicted(bytes: Histories, idx: nat, dst: nat, fill: Fill, k: nat) {
    && k < |fill| && fill[k].Some?
    && PostRead(Get(bytes, dst + k), idx).Some? && PostRead(Get(bytes, dst + k), idx) != fill[k]
  }

  /** A load right after the call saw exactly the byte put there, which was not there before. */
  ghost predicate Confirmed(bytes: Histories, snap: Snap, idx: nat, dst: nat, fill: Fill, k: nat) {
    && k < |fill| && fill[k].Some?
    && PostRead(Get(bytes, dst + k), idx) == fill[k] && Known(bytes, snap, dst + k, idx) != fill[k]
  }

  ghost predicate Verified(bytes: Histories, snap: Snap, idx: nat, dst: nat, fill: Fill) {
    && (forall k: nat :: !Contradicted(bytes, idx, dst, fill, k))
    && (exists k: nat :: Confirmed(bytes, snap, idx, dst, fill, k))
  }

  /** The source bytes as they stand before the call. */
  ghost function SourceBytes(bytes: Histories, snap: Snap, src: nat, idx: nat, len: nat): (fill: Fill)
    ensures |fill| == len && forall k :: 0 <= k < len ==> fill[k] == Known(bytes, snap, src + k, idx)
  {
    seq(len, k requires 0 <= k < len => Known(bytes, snap, src + k, idx))
  }

  function Constant(byte: nat, len: nat): (fill: Fill)
    ensures |fill| == len && forall k :: 0 <= k < len ==> fill[k] == Some(byte)
  {
    seq(len, k => Some(byte))
  }

  ghost predicate Hit(dst: nat, fill: Fill, k: nat, addr: nat)
    requires k <= |fill|
  {
    dst <= addr < dst + k && fill[addr - dst].Some?
  }

  /** Address by address: the known bytes of the first `k` offsets are written at `idx`; nothing else changes. */
  ghost predicate FilledTo(before: Histories, after: Histories, idx: nat, dst: nat, fill: Fill, k: nat)
    requires k <= |fill|
  {
    && (forall addr :: addr in after <==> addr in before || Hit(dst, fill, k, addr))
    && (forall addr :: addr in after ==>
          after[addr] == if Hit(dst, fill, k, addr) then WithWrite(Get(before, addr), idx, fill[addr - dst].value)
                         else Get(before, addr))
  }

  ghost predicate Emits(bytes: Histories, idx: nat, dst: nat, fill: Fill, k: nat) {
    k < |fill| && fill[k].Some? && !HasWriteAt(Get(bytes, dst + k), idx)
  }

  /** The one-byte stores listed for the first `k` offsets. */
  ghost function NewStores(bytes: Histories, idx: nat, dst: nat, fill: Fill, k: nat): (stores: seq<Access>)
    requires k <= |fill|
    ensures |stores| <= k
    ensures |stores| > 0 <==> exists j: nat :: j < k && Emits(bytes, idx, dst, fill, j)
  {
    if k == 0 then []
    else
      NewStores(bytes, idx, dst, fill, k - 1) +
      (if Emits(bytes, idx, dst, fill, k - 1) then [Access(idx, dst + k - 1, 1, fill[k - 1].value)] else [])
  }

  /** Each byte emitted for the first `k` offsets names the source byte it came from. */
  ghost predicate SourcesTo(before: map<(nat, nat), nat>, after: map<(nat, nat), nat>, bytes: Histories, idx: nat,
      dst: nat, src: nat, fill: Fill, k: nat) {
    forall addr: nat, at: nat ::
      var emitted := at == idx && dst <= addr < dst + k && Emits(bytes, idx, dst, fill, addr - dst);
      && ((addr, at) in after <==> (addr, at) in before || emitted)
      && ((addr, at) in after ==> after[(addr, at)] == if emitted then src + (addr - dst) else before[(addr, at)])
  }

  // ---------- what a verified fill leaves ----------

  /** Histories stay in order, and keep every traced event; an address the fill does not hit keeps everything. */
  lemma FillKeepsTrace(before: Histories, after: Histories, idx: nat, dst: nat, fill: Fill, addr: nat)
    requires FilledTo(before, after, idx, dst, fill, |fill|)
    ensures Sorted(Get(before, addr)) ==> Sorted(Get(after, addr))
    ensures Traced(Get(after, addr)) == Traced(Get(before, addr))
    ensures !Hit(dst, fill, |fill|, addr) ==> Get(after, addr) == Get(before, addr)
  {
    if Hit(dst, fill, |fill|, addr) {
      WithWriteTraced(Get(before, addr), idx, fill[addr - dst].value);
      if Sorted(Get(before, addr)) { WithWriteSorted(Get(before, addr), idx, fill[addr - dst].value); }
    }
  }

  /** No byte of a verified fill is contradicted by the load directly after it. */
  lemma FillAgrees(before: Histories, after: Histories, snap: Snap, idx: nat, dst: nat, fill: Fill, addr: nat)
    requires FilledTo(before, after, idx, dst, fill, |fill|) && Verified(before, snap, idx, dst, fill)
    requires Agrees(Get(before, addr))
    ensures Agrees(Get(after, addr))
  {
    if Hit(dst, fill, |fill|, addr) {
      assert !Contradicted(before, idx, dst, fill, addr - dst);
      WithWriteAgrees(Get(before, addr), idx, fill[addr - dst].value);
    }
  }

  /**
   * The oracle after a fill: at every address and time as before, except from `idx` to the address's next event
   * where a byte was emitted; there it is the byte the fill had from before the call.
   */
  lemma {:induction false} FillIsLocal(before: Histories, after: Histories, snap: Snap, idx: nat, dst: nat, fill: Fill,
      addr: nat, t: nat)
    requires AllSorted(before) && FilledTo(before, after, idx, dst, fill, |fill|)
    ensures var evs := Get(before, addr);
      var cut := Cut(evs, idx + 1);
      var shows := idx <= t && dst <= addr && Emits(before, idx, dst, fill, addr - dst)
        && (cut < |evs| ==> t < evs[cut].idx);
      Known(after, snap, addr, t) == if shows then fill[addr - dst] else Known(before, snap, addr, t)
  {
    if Hit(dst, fill, |fill|, addr) {
      ByteAtAfterWrite(Get(before, addr), snap(addr), idx, fill[addr - dst].value, t);
    }
    hide Sorted, Cut, HasWriteAt, WithWrite, ByteAt;
  }

  /** An overlapping move still copies the bytes from before it: each emitted byte now reads as its source did. */
  lemma MoveReadsOldSource(before: Histories, after: Histories, snap: Snap, idx: nat, dst: nat, src: nat, len: nat,
      k: nat)
    requires AllSorted(before) && k < len
    requires var fill := SourceBytes(before, snap, src, idx, len);
      FilledTo(before, after, idx, dst, fill, len) && Emits(before, idx, dst, fill, k)
    ensures Known(after, snap, dst + k, idx) == Known(before, snap, src + k, idx)
  {
    var fill := SourceBytes(before, snap, src, idx, len);
    EmittedReads(before, after, snap, idx, dst, fill, k);
    hide *;
    assert fill[k] == Known(before, snap, src + k, idx);
  }

  lemma EmittedReads(before: Histories, after: Histories, snap: Snap, idx: nat, dst: nat, fill: Fill, k: nat)
    requires AllSorted(before) && FilledTo(before, after, idx, dst, fill, |fill|) && Emits(before, idx, dst, fill, k)
    ensures Known(after, snap, dst + k, idx) == fill[k]
  {
    var evs := Get(before, dst + k);
    CutSplits(evs, idx + 1);
    ByteAtAfterWrite(evs, snap(dst + k), idx, fill[k].value, idx);
    assert Hit(dst, fill, |fill|, dst + k);
    hide Sorted, Cut, HasWriteAt, WithWrite, ByteAt;
  }

  // ---------- a whole run ----------

  /**
   * What the search for copy calls needs of a record: whether it calls out and returns at once, and its first
   * registers.
   */
  datatype Site = Site(boundary: bool, x0: nat, x1: nat, x2: nat)

  /** The call at record `idx` may have written `addr`. */
  ghost predicate Covers(sites: seq<Site>, idx: nat, addr: nat) {
    && idx + 1 < |sites| && sites[idx].boundary && sites[idx + 1].x0 == sites[idx].x0
    && sites[idx].x0 <= addr < sites[idx].x0 + sites[idx].x2
  }

  /**
   * One address after the run so far: the trace's own events intact, and external writes only where a call
   * covers it.
   */
  ghost predicate Kept(old': History, now: History, sites: seq<Site>, addr: nat) {
    && Traced(now) == Traced(old')
    && (Agrees(old') ==> Agrees(now))
    && (forall e :: e in old' ==> e in now)
    && (forall e :: e in now ==> e in old' || (e.kind == External && Covers(sites, e.idx, addr)))
  }

  ghost predicate AllKept(was: Histories, now: Histories, sites: seq<Site>) {
    forall addr: nat :: Kept(Get(was, addr), Get(now, addr), sites, addr)
  }

  lemma FillKeeps(was: Histories, before: Histories, after: Histories, snap: Snap, sites: seq<Site>, idx: nat,
      fill: Fill)
    requires AllKept(was, before, sites)
    requires idx + 1 < |sites| && sites[idx].boundary && sites[idx + 1].x0 == sites[idx].x0 && |fill| == sites[idx].x2
    requires FilledTo(before, after, idx, sites[idx].x0, fill, |fill|)
    requires Verified(before, snap, idx, sites[idx].x0, fill)
    ensures AllKept(was, after, sites)
  {
    hide Verified, Kept, FilledTo, Covers;
    forall addr: nat ensures Kept(Get(was, addr), Get(after, addr), sites, addr) {
      assert Kept(Get(was, addr), Get(before, addr), sites, addr);
      if sites[idx].x0 <= addr < sites[idx].x0 + |fill| { CoversIs(sites, idx, addr); }
      FillKeepsAt(Get(was, addr), before, after, snap, sites, idx, sites[idx].x0, fill, addr);
    }
  }

  lemma VerifiedNotRefuted(bytes: Histories, snap: Snap, idx: nat, dst: nat, fill: Fill, addr: nat)
    requires Verified(bytes, snap, idx, dst, fill) && Hit(dst, fill, |fill|, addr)
    ensures PostRead(Get(bytes, addr), idx) in {None, Some(fill[addr - dst].value)}
  {
    var k: nat := addr - dst;
    hide PostRead, Confirmed;
    assert dst + k == addr && !Contradicted(bytes, idx, dst, fill, k);
  }

  lemma CoversIs(sites: seq<Site>, idx: nat, addr: nat)
    requires idx + 1 < |sites| && sites[idx].boundary && sites[idx + 1].x0 == sites[idx].x0
    requires sites[idx].x0 <= addr < sites[idx].x0 + sites[idx].x2
    ensures Covers(sites, idx, addr)
  {}

  lemma FillKeepsAt(old': History, before: Histories, after: Histories, snap: Snap, sites: seq<Site>, idx: nat,
      dst: nat,
      fill: Fill, addr: nat)
    requires Kept(old', Get(before, addr), sites, addr)
    requires dst <= addr < dst + |fill| ==> Covers(sites, idx, addr)
    requires FilledTo(before, after, idx, dst, fill, |fill|) && Verified(before, snap, idx, dst, fill)
    ensures Kept(old', Get(after, addr), sites, addr)
  {
    hide Kept, WithWrite, PostRead, Verified, Covers;
    if Hit(dst, fill, |fill|, addr) {
      VerifiedNotRefuted(before, snap, idx, dst, fill, addr);
      WriteKeeps(old', Get(before, addr), sites, addr, idx, fill[addr - dst].value);
    }
  }

  lemma WriteKeeps(old': History, before: History, sites: seq<Site>, addr: nat, idx: nat, byte: nat)
    requires Kept(old', before, sites, addr) && Covers(sites, idx, addr)
    requires PostRead(before, idx) in {None, Some(byte)}
    ensures Kept(old', WithWrite(before, idx, byte), sites, addr)
  {
    WithWriteTraced(before, idx, byte);
    if Agrees(before) { WithWriteAgrees(before, idx, byte); }
    hide Traced, Agrees, Covers, PostRead, WithWrite, HasWriteAt;
    forall e ensures e in WithWrite(before, idx, byte) ==> e in before || e == External1(idx, byte) {
      WithWriteMembers(before, idx, byte, e);
    }
    forall e ensures e in before ==> e in WithWrite(before, idx, byte) { WithWriteMembers(before, idx, byte, e); }
  }
}
