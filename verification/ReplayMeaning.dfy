/** What the plan operators and stores mean, bit by bit and byte by byte. */
module ReplayMeaning {
  import opened Numbers
  import opened Words
  import opened ReplaySpec
  import Bytes

  // ---------- bits of shifted and truncated numbers ----------

  lemma {:induction false} BitAbove(w: nat, n: nat, b: nat)
    ensures Bit(Shr(w, n), b) <==> Bit(w, b + n)
  {
    if n > 0 { BitAbove(w / 2, n - 1, b); }
  }

  lemma {:induction false} BitOfScaled(w: nat, n: nat, b: nat)
    ensures Bit(w * Mask(n), b) <==> b >= n && Bit(w, b - n)
  {
    if n > 0 {
      var half := w * Mask(n - 1);
      assert w * Mask(n) == 2 * half by { assert Mask(n) == 2 * Mask(n - 1); }
      if b > 0 {
        BitOfScaled(w, n - 1, b - 1);
      }
    }
  }

  lemma Halves(v: nat, m: nat, r: nat)
    requires v == 2 * m + r
    ensures v / 2 == m + r / 2 && v % 2 == r % 2
  {}

  lemma {:induction false} BitOfRemainder(v: nat, k: nat, q: nat, r: nat, b: nat)
    requires v == q * Mask(k) + r && r < Mask(k)
    ensures Bit(r, b) <==> b < k && Bit(v, b)
  {
    if k == 0 {
      BitOfZero(b);
    } else {
      var m := q * Mask(k - 1);
      assert q * Mask(k) == 2 * m by { assert Mask(k) == 2 * Mask(k - 1); }
      Halves(v, m, r);
      if b > 0 { BitOfRemainder(v / 2, k - 1, q, r / 2, b - 1); }
    }
  }

  lemma {:induction false} EightBits(o: nat)
    ensures Mask(8 * (o + 1)) == 256 * Mask(8 * o)
  {
    var k := 8 * o;
    assert Mask(k + 8) == 2 * Mask(k + 7) && Mask(k + 7) == 2 * Mask(k + 6) && Mask(k + 6) == 2 * Mask(k + 5)
        && Mask(k + 5) == 2 * Mask(k + 4) && Mask(k + 4) == 2 * Mask(k + 3) && Mask(k + 3) == 2 * Mask(k + 2)
        && Mask(k + 2) == 2 * Mask(k + 1) && Mask(k + 1) == 2 * Mask(k);
  }

  lemma SixtyFourBits()
    ensures Mask(64) == TWO_TO_THE_64
  {
    EightBits(0);
    EightBits(1);
    EightBits(2);
    EightBits(3);
    EightBits(4);
    EightBits(5);
    EightBits(6);
    EightBits(7);
    assert Mask(0) == 1;
    hide Mask;
  }

  lemma BitOfLow64(v: nat, b: nat)
    ensures Bit(Low64(v), b) <==> b < 64 && Bit(v, b)
  {
    SixtyFourBits();
    hide Bit, Mask;
    BitOfRemainder(v, 64, v / TWO_TO_THE_64, v % TWO_TO_THE_64, b);
  }

  lemma {:induction false} BitOfXor(w: nat, v: nat, b: nat)
    ensures Bit(Xor(w, v), b) <==> Bit(w, b) != Bit(v, b)
    decreases w + v
  {
    if w == 0 || v == 0 {
      BitOfZero(b);
    } else if b > 0 {
      BitOfXor(w / 2, v / 2, b - 1);
    }
  }

  // ---------- the folds ----------

  function Sum(nums: seq<nat>): nat { if |nums| == 0 then 0 else nums[0] + Sum(nums[1..]) }

  lemma LowOfLow(a: int, b: int)
    ensures Low64(Low64(a) + b) == Low64(a + b)
  {}

  lemma LowMinusLow(a: int, b: int)
    ensures Low64(a - Low64(b)) == Low64(a - b)
  {}

  lemma {:induction false} FoldAdds(head: nat, tail: seq<nat>)
    ensures Low64(Fold(Add, head, tail)) == Low64(head + Sum(tail))
    ensures |tail| > 0 ==> Fold(Add, head, tail) < TWO_TO_THE_64
    decreases tail
  {
    if |tail| > 0 {
      var acc := Low64(head + Low64(tail[0]));
      FoldAdds(acc, tail[1..]);
      LowOfLow(tail[0], head);
      LowOfLow(head + tail[0], Sum(tail[1..]));
      assert Fold(Add, head, tail) == Fold(Add, acc, tail[1..]);
    }
  }

  lemma {:induction false} FoldSubtracts(head: nat, tail: seq<nat>)
    requires |tail| > 0
    ensures Fold(Sub, head, tail) == Low64(head - Sum(tail))
    decreases tail
  {
    var acc := Low64(head - Low64(tail[0]));
    LowMinusLow(head, tail[0]);
    assert acc == Low64(head - tail[0]);
    if |tail| > 1 {
      FoldSubtracts(acc, tail[1..]);
      LowOfLow(head - tail[0], -(Sum(tail[1..]) as int));
    } else {
      assert tail[1..] == [];
    }
  }

  lemma {:induction false} FoldNothing(op: Operator, head: nat)
    ensures Fold(op, head, []) == head && Low64(0) == 0
  {}

  lemma SmallIsLow(v: nat)
    ensures v < TWO_TO_THE_64 ==> Low64(v) == v
  {}

  /** `add` is the sum modulo 2^64. */
  lemma {:induction false} AddIsSum(nums: seq<nat>)
    ensures ApplyOp(Add, nums) == Low64(Sum(nums))
  {
    FoldAdds(0, nums);
    hide Fold, Sum;
    if |nums| == 0 {
      assert nums == [];
      FoldNothing(Add, 0);
      assert Sum([]) == 0 by { SumNothing(); }
    } else {
      SmallIsLow(Fold(Add, 0, nums));
    }
  }

  lemma SumNothing()
    ensures Sum([]) == 0
  {}

  /** `sub` is the first operand less all the others; a lone operand is not cut to 64 bits. */
  lemma SubIsDifference(nums: seq<nat>)
    requires |nums| > 0
    ensures ApplyOp(Sub, nums) == if |nums| == 1 then nums[0] else Low64(nums[0] - Sum(nums[1..]))
  {
    hide Fold, Sum, Low64;
    if |nums| > 1 {
      FoldSubtracts(nums[0], nums[1..]);
    } else {
      FoldNothing(Sub, nums[0]);
      assert nums[1..] == [];
    }
  }

  /** How a bitwise operator combines one bit position of its operands. */
  function FoldBits(op: Operator, acc: bool, nums: seq<nat>, b: nat): bool
    decreases nums
  {
    if |nums| == 0 then acc
    else
      var bit := Bit(nums[0], b);
      FoldBits(op, if op == And then acc && bit else if op == Orr then acc || bit else acc != bit, nums[1..], b)
  }

  lemma {:induction false} FoldsBitwise(op: Operator, head: nat, tail: seq<nat>, b: nat)
    requires op in {And, Orr, Eor}
    ensures Bit(Fold(op, head, tail), b)
      <==> if b < 64 then FoldBits(op, Bit(head, b), tail, b)
           else if op == And then Bit(head, b) && |tail| == 0 else Bit(head, b)
    decreases tail
  {
    if |tail| > 0 {
      var next := Low64(tail[0]);
      BitOfLow64(tail[0], b);
      BitOfAnd(head, next, b);
      BitOfOr(head, next, b);
      BitOfXor(head, next, b);
      hide Bit, Words.And, Words.Or, Xor, Low64;
      var acc := match op case And => Words.And(head, next) case Orr => Words.Or(head, next) case _ => Xor(head, next);
      assert Fold(op, head, tail) == Fold(op, acc, tail[1..]);
      FoldsBitwise(op, acc, tail[1..], b);
    }
  }

  /** `and`, `orr` and `eor` work on each of the low 64 bit positions alone; nothing stands above them. */
  lemma {:induction false} BitwiseOperators(op: Operator, nums: seq<nat>, b: nat)
    requires op in {And, Orr, Eor} && |nums| > 0
    ensures Bit(ApplyOp(op, nums), b)
      <==> b < 64 && if op == And then FoldBits(And, Bit(nums[0], b), nums[1..], b) else FoldBits(op, false, nums, b)
  {
    BitOfZero(b);
    BitOfLow64(nums[0], b);
    if op == And { FoldsBitwise(And, Low64(nums[0]), nums[1..], b); } else { FoldsBitwise(op, 0, nums, b); }
    hide Bit, Low64;
  }

  /** `lsl` and `lsr` move bits, dropping what leaves the low 64 positions. */
  lemma ShiftsMoveBits(nums: seq<nat>, b: nat)
    requires |nums| >= 2
    ensures Bit(ApplyOp(Lsl, nums), b) <==> nums[1] <= b < 64 && Bit(nums[0], b - nums[1])
    ensures Bit(ApplyOp(Lsr, nums), b) <==> b + nums[1] < 64 && Bit(nums[0], b + nums[1])
  {
    BitOfLow64(nums[0] * Mask(nums[1]), b);
    BitOfScaled(nums[0], nums[1], b);
    BitAbove(Low64(nums[0]), nums[1], b);
    BitOfLow64(nums[0], b + nums[1]);
    hide Bit, Low64, Mask, Shr;
  }

  // ---------- stores ----------

  /** A store sets exactly the bytes in its range; all others keep their value. */
  lemma {:induction false} StoredMeans(mem: map<nat, nat>, addr: nat, value: int, width: nat, a: nat)
    ensures a in Stored(mem, addr, value, width) <==> a in mem || addr <= a < addr + width
    ensures a in Stored(mem, addr, value, width) ==>
      Stored(mem, addr, value, width)[a] == if addr <= a < addr + width then Byte(value, a - addr) else mem[a]
  {
    if width > 0 {
      StoredMeans(mem, addr, value, width - 1, a);
      hide Byte;
    }
  }

  function ValueBytes(value: nat, width: nat): (bytes: seq<nat>)
    ensures |bytes| == width
  {
    seq(width, o requires 0 <= o < width => Byte(value, o))
  }

  lemma DivTwice(v: nat, p: nat)
    requires p > 0
    ensures v / (256 * p) == (v / 256) / p
  {
    var q, r := (v / 256) / p, (v / 256) % p;
    assert v / 256 == p * q + r;
    assert v == 256 * (p * q + r) + v % 256;
    assert v == (256 * p) * q + (256 * r + v % 256) by { assert (256 * p) * q == 256 * (p * q); }
    DivModIs(v, 256 * p, q, 256 * r + v % 256);
  }

  lemma ByteFurther(value: nat, o: nat)
    ensures Byte(value, o + 1) == Byte(value / 256, o)
  {
    EightBits(o);
    DivTwice(value, Mask(8 * o));
  }

  /** The bytes of a store, read back lowest first, spell the value, cut to the width. */
  lemma {:induction false} StoreSpellsValue(value: nat, width: nat)
    ensures ValueBytes(value, width) == Bytes.Le(value, width)
  {
    if width > 0 {
      StoreSpellsValue(value / 256, width - 1);
      var bytes, rest := ValueBytes(value, width), ValueBytes(value / 256, width - 1);
      assert Byte(value, 0) == value % 256 by { assert Mask(0) == 1; }
      forall o: nat | o < width - 1 ensures bytes[o + 1] == rest[o] { ByteFurther(value, o); }
      hide Byte;
      assert bytes == [value % 256] + rest;
    }
  }
}
