/** The file behind a descriptor and the loops that push bytes into it. */
module NativeIo {
  import opened Bytes

  /** Calls of [from, end) that moved nothing. */
  function Failures(answers: nat -> int, from: nat, end: nat): nat {
    if end <= from then 0 else Failures(answers, from, end - 1) + (if answers(end - 1) <= 0 then 1 else 0)
  }

  lemma OneMoreCall(answers: nat -> int, from: nat, end: nat)
    requires from <= end
    ensures Failures(answers, from, end + 1) == Failures(answers, from, end) + (if answers(end) <= 0 then 1 else 0)
    ensures Failures(answers, from, from) == 0
  {}

  /** `data` with `buf` at `offset`; a hole before it reads as zeros. */
  function Overwritten(data: seq<Byte>, offset: nat, buf: seq<Byte>): (r: seq<Byte>)
    ensures |buf| > 0 ==> |r| == if offset + |buf| > |data| then offset + |buf| else |data|
    ensures forall i :: 0 <= i < |r| ==>
      r[i] == if offset <= i < offset + |buf| then buf[i - offset] else if i < |data| then data[i] else 0
  {
    if |buf| == 0 then data
    else
      var size := if offset + |buf| > |data| then offset + |buf| else |data|;
      seq(size, i requires 0 <= i < size =>
        if offset <= i < offset + |buf| then buf[i - offset] else if i < |data| then data[i] else 0)
  }

  lemma OverwrittenNothing(data: seq<Byte>, offset: nat)
    ensures Overwritten(data, offset, []) == data
  {}

  lemma OverwrittenInParts(data: seq<Byte>, offset: nat, a: seq<Byte>, b: seq<Byte>)
    ensures Overwritten(Overwritten(data, offset, a), offset + |a|, b) == Overwritten(data, offset, a + b)
  {
    if |a| == 0 {
      assert a + b == b;
    } else if |b| == 0 {
      assert a + b == a;
    } else {
      var l, r := Overwritten(Overwritten(data, offset, a), offset + |a|, b), Overwritten(data, offset, a + b);
      assert |l| == |r|;
      assert l == r;
    }
  }

  lemma OverwrittenFurther(data: seq<Byte>, offset: nat, buf: seq<Byte>, done: nat, n: nat)
    requires done + n <= |buf|
    ensures Overwritten(Overwritten(data, offset, buf[..done]), offset + done, buf[done..][..n])
      == Overwritten(data, offset, buf[..done + n])
  {
    OverwrittenInParts(data, offset, buf[..done], buf[done..][..n]);
    hide Overwritten;
    assert buf[..done] + buf[done..][..n] == buf[..done + n];
  }

  /**
   * `answers` is what the system returns call by call: bytes it is willing to take, or nothing. Progress is
   * eventual: after any call, `next` names one that takes something.
   */
  class Disk {
    const answers: nat -> int
    const errnos: nat -> int
    ghost const next: nat -> nat
    var data: seq<Byte>
    var calls: nat
    var errno: int
    var retries: nat
    var written: nat

    ghost predicate Progresses() {
      forall i: nat :: next(i) >= i && answers(next(i)) > 0
    }

    constructor (answers: nat -> int, errnos: nat -> int, ghost next: nat -> nat)
      ensures this.answers == answers && this.errnos == errnos && this.next == next
      ensures data == [] && calls == 0 && errno == 0 && retries == 0 && written == 0
    {
      this.answers, this.errnos, this.next := answers, errnos, next;
      data, calls, errno, retries, written := [], 0, 0, 0, 0;
    }

    /** One `write`: takes a prefix of what it is given, or nothing. */
    method Write(buf: seq<Byte>) returns (n: int)
      requires |buf| > 0
      modifies this`data, this`calls
      ensures calls == old(calls) + 1 && n <= |buf|
      ensures n > 0 <==> answers(old(calls)) > 0
      ensures data == old(data) + if n > 0 then buf[..n] else []
    {
      n := answers(calls);
      calls := calls + 1;
      if n > |buf| { n := |buf|; }
      if n > 0 { data := data + buf[..n]; }
    }

    /** Every byte, in order, exactly once, however the system splits or refuses the calls. */
    method WriteAll(buf: seq<Byte>)
      requires Progresses()
      modifies this
      ensures data == old(data) + buf
      ensures written == old(written) + |buf|
      ensures |buf| > 0 ==> errno == 0
      ensures calls >= old(calls) && retries == old(retries) + Failures(answers, old(calls), calls)
    {
      var done := 0;
      ghost var target := next(calls);
      OneMoreCall(answers, calls, calls);
      hide Failures;
      while done < |buf|
        invariant done <= |buf| && data == old(data) + buf[..done]
        invariant written == old(written) + done && (done > 0 && done == |buf| ==> errno == 0)
        invariant old(calls) <= calls <= target && answers(target) > 0
        invariant retries == old(retries) + Failures(answers, old(calls), calls)
        decreases |buf| - done, target - calls
      {
        OneMoreCall(answers, old(calls), calls);
        var n := Write(buf[done..]);
        if n > 0 {
          assert buf[..done] + buf[done..][..n] == buf[..done + n];
          done := done + n;
          written := written + n;
          errno := 0;
          target := next(calls);
        } else {
          errno := if n == 0 then 5 else errnos(calls - 1);
          retries := retries + 1;
        }
      }
    }

    /** One `pwrite` of what is left of `buf` after its first `done` bytes, which stand at `offset` over `base`. */
    method WritePart(buf: seq<Byte>, done: nat, offset: nat, ghost base: seq<Byte>) returns (n: int)
      requires done < |buf| && data == Overwritten(base, offset, buf[..done])
      modifies this`data, this`calls
      ensures calls == old(calls) + 1 && done + n <= |buf|
      ensures n > 0 <==> answers(old(calls)) > 0
      ensures data == Overwritten(base, offset, buf[..if n > 0 then done + n else done])
    {
      hide Overwritten;
      n := answers(calls);
      calls := calls + 1;
      if n > |buf| - done { n := |buf| - done; }
      if n > 0 {
        data := Overwritten(data, offset + done, buf[done..][..n]);
        OverwrittenFurther(base, offset, buf, done, n);
      }
    }

    method WriteAt(buf: seq<Byte>, offset: nat)
      requires Progresses()
      modifies this
      ensures data == Overwritten(old(data), offset, buf)
      ensures written == old(written) && retries == old(retries) + Failures(answers, old(calls), calls)
      ensures calls >= old(calls)
    {
      var done := 0;
      ghost var base, target := data, next(calls);
      OverwrittenNothing(data, offset);
      OneMoreCall(answers, calls, calls);
      hide Overwritten, Failures;
      while done < |buf|
        invariant done <= |buf| && data == Overwritten(base, offset, buf[..done])
        invariant written == old(written)
        invariant old(calls) <= calls <= target && answers(target) > 0
        invariant retries == old(retries) + Failures(answers, old(calls), calls)
        decreases |buf| - done, target - calls
      {
        OneMoreCall(answers, old(calls), calls);
        var n := WritePart(buf, done, offset, base);
        if n > 0 {
          done := done + n;
          errno := 0;
          target := next(calls);
        } else {
          errno := if n == 0 then 5 else errnos(calls - 1);
          retries := retries + 1;
        }
      }
      assert buf[..done] == buf;
    }
  }
}
