/** The capture writer: rings filled by instruction callbacks and emptied to disk when full or flushed. */
module CaptureRing {
  import opened Numbers
  import opened Bytes
  import opened RingSlots
  import opened NativeIo

  class Ring {
    const slots: array<Record>
    const io: Disk
    var head: nat
    var tail: nat
    ghost var records: seq<Record>

    ghost predicate Valid()
      reads this, slots, io
    {
      && io.Progresses()
      && |records| == head && head - tail < slots.Length
      && Holds(slots[..], records, tail, head)
      && io.data == Flatten(records[..tail])
    }

    constructor (size: nat, io: Disk)
      requires size > 0 && io.Progresses() && io.data == []
      ensures Valid() && records == [] && this.io == io && fresh(slots)
    {
      this.slots := new Record[size](_ => []);
      this.io, head, tail, records := io, 0, 0, [];
    }

    /** Writes out what waits between tail and head, in at most two contiguous pieces. */
    method Drain()
      requires io.Progresses() && |records| == head
      requires Holds(slots[..], records, tail, head) && io.data == Flatten(records[..tail])
      modifies this`tail, io
      ensures Valid() && tail == head && io.data == Flatten(records)
    {
      var h, t := head, tail;
      while t < h
        invariant t == tail && Holds(slots[..], records, t, h)
        invariant io.data == Flatten(records[..t])
      {
        var offset, count := t % slots.Length, ChunkLen(slots.Length, t, h);
        ChunkIsRecords(slots[..], records, t, h);
        FlattenPrefix(records, t, t + count);
        io.WriteAll(Flatten(slots[offset..offset + count]));
        assert slots[..][offset..offset + count] == slots[offset..offset + count];
        t := t + count;
        tail := t;
      }
      assert records[..t] == records;
    }

    /** Appends one record; a full ring is emptied at once, so there is always room. */
    method Push(rec: Record)
      requires Valid()
      modifies this`head, this`tail, this`records, slots, io
      ensures Valid() && records == old(records) + [rec] && head == old(head) + 1
    {
      StoreKeeps(slots[..], records, tail, head, rec);
      slots[head % slots.Length] := rec;
      records := records + [rec];
      head := head + 1;
      assert records[..tail] == old(records)[..tail];
      if head - tail == slots.Length { Drain(); }
    }
  }

  predicate Sampled(stride: nat, idx: nat) { !(stride > 1 && idx % stride != 0) }

  /** The vector records for the first |vectors| instructions: every stride-th, tagged with its index. */
  function Samples(stride: nat, vectors: seq<Record>): seq<Record> {
    if |vectors| == 0 then []
    else
      var idx := |vectors| - 1;
      Samples(stride, vectors[..idx]) + (if Sampled(stride, idx) then [Le(idx, 8) + vectors[idx]] else [])
  }

  function Step(stride: nat): (step: nat)
    ensures step > 0
  {
    if stride > 1 then stride else 1
  }

  /** The sampled stream is dense: its k-th record belongs to instruction k * stride, and none is left out. */
  lemma {:induction false} SamplesAre(stride: nat, vectors: seq<Record>, k: nat)
    ensures |Samples(stride, vectors)| == (|vectors| + Step(stride) - 1) / Step(stride)
    ensures k < |Samples(stride, vectors)| ==>
      k * Step(stride) < |vectors| && Samples(stride, vectors)[k] == Le(k * Step(stride), 8) + vectors[k * Step(stride)]
  {
    var step := Step(stride);
    if |vectors| == 0 {
      DivModIs(step - 1, step, 0, step - 1);
    } else {
      var idx := |vectors| - 1;
      SamplesAre(stride, vectors[..idx], k);
      RoundedUp(idx, step);
      hide Le;
    }
  }

  lemma RoundedUp(idx: nat, step: nat)
    requires step > 0
    ensures idx % step == 0 ==>
      (idx + step - 1) / step * step == idx && (idx + step) / step == (idx + step - 1) / step + 1
    ensures idx % step != 0 ==> (idx + step) / step == (idx + step - 1) / step
  {
    DivideUp(idx, step, idx / step, idx % step);
  }

  lemma DivideUp(idx: nat, step: nat, q: nat, r: nat)
    requires idx == q * step + r && r < step
    ensures (idx + step) / step == q + 1
    ensures (idx + step - 1) / step == if r == 0 then q else q + 1
  {
    assert (q + 1) * step == q * step + step;
    DivModIs(idx + step, step, q + 1, r);
    if r == 0 { DivModIs(idx + step - 1, step, q, step - 1); } else { DivModIs(idx + step - 1, step, q + 1, r - 1); }
  }

  class NativeWriter {
    const trace: Ring
    const simd: Ring
    const stride: nat
    var active: bool
    var firstPc: nat
    ghost var vectors: seq<Record>

    ghost predicate Valid()
      reads this, trace, trace.slots, trace.io, simd, simd.slots, simd.io
    {
      && trace.Valid() && simd.Valid() && trace != simd && trace.slots != simd.slots && trace.io != simd.io
      && |vectors| == trace.head && simd.records == Samples(stride, vectors)
    }

    constructor (trace: Ring, simd: Ring, stride: nat)
      requires trace.Valid() && simd.Valid() && trace != simd && trace.slots != simd.slots && trace.io != simd.io
      requires trace.records == [] && simd.records == []
      ensures Valid() && active && vectors == [] && this.trace == trace && this.simd == simd && this.stride == stride
    {
      this.trace, this.simd, this.stride, active, firstPc, vectors := trace, simd, stride, true, 0, [];
    }

    method WriteSimd(vector: Record, idx: nat)
      requires Valid() && idx == trace.head
      modifies this`vectors, simd`head, simd`tail, simd`records, simd.slots, simd.io
      ensures simd.Valid() && vectors == old(vectors) + [vector] && simd.records == Samples(stride, vectors)
    {
      assert (vectors + [vector])[..idx] == vectors;
      vectors := vectors + [vector];
      if stride > 1 && idx % stride != 0 { return; }
      simd.Push(Le(idx, 8) + vector);
    }

    /** One instruction: recorded if capture is still on, else ignored. */
    method OnInsn(pc: nat, rec: Record, vector: Record)
      requires Valid()
      modifies this, trace, trace.slots, trace.io, simd, simd.slots, simd.io
      ensures Valid() && active == old(active)
      ensures trace.records == old(trace.records) + if old(active) then [rec] else []
      ensures vectors == old(vectors) + if old(active) then [vector] else []
      ensures firstPc == if old(active) && old(|trace.records|) == 0 then pc else old(firstPc)
      ensures !old(active) ==> trace.io.data == old(trace.io.data) && simd.io.data == old(simd.io.data)
    {
      hide Holds, Flatten, Samples, Disk.Progresses;
      if !active { return; }
      var h := trace.head;
      if h == 0 { firstPc := pc; }
      WriteSimd(vector, h);
      trace.Push(rec);
    }

    /** Stops capture; the file is then every record taken while it was on, in order, once each. */
    method FlushTrace()
      requires Valid()
      modifies this`active, trace`tail, trace.io
      ensures Valid() && !active && trace.records == old(trace.records)
      ensures trace.io.data == Flatten(trace.records)
    {
      active := false;
      trace.Drain();
    }

    method FlushSimd()
      requires Valid()
      modifies simd`tail, simd.io
      ensures Valid() && simd.io.data == Flatten(Samples(stride, vectors))
    {
      simd.Drain();
    }
  }
}
