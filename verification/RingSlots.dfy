/** Slots of a ring and the bytes they stand for. */
module RingSlots {
  import opened Numbers
  import opened Bytes

  type Record = seq<Byte>

  function Flatten(records: seq<Record>): seq<Byte> {
    if |records| == 0 then [] else Flatten(records[..|records| - 1]) + records[|records| - 1]
  }

  lemma {:induction false} FlattenAppend(a: seq<Record>, b: seq<Record>)
    ensures Flatten(a + b) == Flatten(a) + Flatten(b)
  {
    if |b| == 0 {
      assert a + b == a;
    } else {
      FlattenAppend(a, b[..|b| - 1]);
      assert (a + b)[..|a + b| - 1] == a + b[..|b| - 1];
    }
  }

  lemma FlattenPrefix(records: seq<Record>, k: nat, m: nat)
    requires k <= m <= |records|
    ensures Flatten(records[..m]) == Flatten(records[..k]) + Flatten(records[k..m])
  {
    FlattenAppend(records[..k], records[k..m]);
    assert records[..k] + records[k..m] == records[..m];
  }

  // ---------- positions modulo the ring ----------

  /** Up to the end of the ring, positions are consecutive. */
  lemma Consecutive(t: nat, i: nat, ring: nat)
    requires ring > 0 && i < ring - t % ring
    ensures (t + i) % ring == t % ring + i
  {
    DivModIs(t + i, ring, t / ring, t % ring + i);
  }

  /** Records less than a ring apart have slots of their own. */
  lemma Distinct(a: nat, b: nat, ring: nat)
    requires a < b < a + ring
    ensures a % ring != b % ring
  {
    var i := b - a;
    if i < ring - a % ring {
      Consecutive(a, i, ring);
    } else {
      assert (a / ring + 1) * ring == (a / ring) * ring + ring;
      DivModIs(b, ring, a / ring + 1, a % ring + i - ring);
    }
  }

  /** Slot k mod |slots| holds record k, for tail <= k < head. */
  predicate Holds(slots: seq<Record>, records: seq<Record>, tail: nat, head: nat) {
    && |slots| > 0 && tail <= head <= |records| && head - tail <= |slots|
    && forall k :: tail <= k < head ==> slots[k % |slots|] == records[k]
  }

  /** How many records one contiguous write takes. */
  function ChunkLen(ring: nat, t: nat, h: nat): (count: nat)
    requires ring > 0 && t < h
    ensures 0 < count <= h - t && count <= ring - t % ring
  {
    if ring - t % ring > h - t then h - t else ring - t % ring
  }

  lemma SlotHolds(slots: seq<Record>, records: seq<Record>, t: nat, h: nat, i: nat)
    requires Holds(slots, records, t, h) && i < h - t && i < |slots| - t % |slots|
    ensures slots[t % |slots| + i] == records[t + i]
  {
    Consecutive(t, i, |slots|);
    assert slots[(t + i) % |slots|] == records[t + i];
  }

  /** The contiguous slots from the tail on are the next records in order. */
  lemma ChunkIsRecords(slots: seq<Record>, records: seq<Record>, t: nat, h: nat)
    requires Holds(slots, records, t, h) && t < h
    ensures var offset, count := t % |slots|, ChunkLen(|slots|, t, h);
      offset + count <= |slots| && slots[offset..offset + count] == records[t..t + count]
  {
    var offset, count := t % |slots|, ChunkLen(|slots|, t, h);
    var a, b := slots[offset..offset + count], records[t..t + count];
    forall i | 0 <= i < |a| ensures a[i] == b[i] {
      SlotHolds(slots, records, t, h, i);
    }
  }

  /** Storing the next record leaves the ones still waiting alone. */
  lemma StoreKeeps(slots: seq<Record>, records: seq<Record>, tail: nat, head: nat, rec: Record)
    requires Holds(slots, records, tail, head) && head - tail < |slots|
    ensures Holds(slots[head % |slots| := rec], records, tail, head)
    ensures head == |records| ==> Holds(slots[head % |slots| := rec], records + [rec], tail, head + 1)
  {
    var slots' := slots[head % |slots| := rec];
    forall k | tail <= k < head ensures slots'[k % |slots|] == records[k] {
      Distinct(k, head, |slots|);
    }
    if head == |records| {
      forall k | tail <= k < head + 1 ensures slots'[k % |slots|] == (records + [rec])[k] {
        if k < head { assert slots'[k % |slots|] == records[k]; }
      }
    }
  }
}
