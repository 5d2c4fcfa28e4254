/** Unsigned machine words as numbers, with the bit operations the walkers use on them. */
module Words {

  const WORD_BITS: nat := 64

  /** `w >> b`. */
  function Shr(w: nat, b: nat): nat {
    if b == 0 then w else Shr(w / 2, b - 1)
  }

  /** `1 << b`. */
  function Mask(b: nat): (m: nat)
    ensures m > 0
  {
    if b == 0 then 1 else 2 * Mask(b - 1)
  }

  /** `w & v`. */
  function And(w: nat, v: nat): nat {
    if w == 0 || v == 0 then 0 else 2 * And(w / 2, v / 2) + (w % 2) * (v % 2)
  }

  /** `w | v`. */
  function Or(w: nat, v: nat): nat
    decreases w + v
  {
    if w == 0 then v else if v == 0 then w else 2 * Or(w / 2, v / 2) + (if w % 2 + v % 2 > 0 then 1 else 0)
  }

  /** `(w >> b) & 1 == 1`. */
  predicate Bit(w: nat, b: nat) {
    Shr(w, b) % 2 == 1
  }

  lemma BitOfZero(b: nat)
    ensures !Bit(0, b)
  {
    if b > 0 { BitOfZero(b - 1); }
  }

  lemma {:induction false} BitOfMask(i: nat, b: nat)
    ensures Bit(Mask(i), b) <==> i == b
  {
    if i > 0 && b > 0 {
      BitOfMask(i - 1, b - 1);
    } else if b > 0 {
      BitOfZero(b - 1);
    }
  }

  lemma {:induction false} BitOfAnd(w: nat, v: nat, b: nat)
    ensures Bit(And(w, v), b) <==> Bit(w, b) && Bit(v, b)
  {
    if w == 0 || v == 0 {
      BitOfZero(b);
    } else if b > 0 {
      BitOfAnd(w / 2, v / 2, b - 1);
    }
  }

  lemma {:induction false} BitOfOr(w: nat, v: nat, b: nat)
    ensures Bit(Or(w, v), b) <==> Bit(w, b) || Bit(v, b)
    decreases w + v
  {
    if w == 0 || v == 0 {
      BitOfZero(b);
    } else if b > 0 {
      BitOfOr(w / 2, v / 2, b - 1);
    }
  }

  lemma SomeBit(w: nat) returns (b: nat)
    requires w > 0
    ensures Bit(w, b)
  {
    if w % 2 == 1 {
      b := 0;
    } else {
      var c := SomeBit(w / 2);
      b := c + 1;
    }
  }

  /** Testing a word against a one-bit mask reads exactly that bit. */
  lemma {:induction false} MaskReadsBit(w: nat, i: nat)
    ensures And(w, Mask(i)) != 0 <==> Bit(w, i)
  {
    BitOfMask(i, i);
    BitOfAnd(w, Mask(i), i);
    if And(w, Mask(i)) != 0 {
      var b := SomeBit(And(w, Mask(i)));
      BitOfAnd(w, Mask(i), b);
      BitOfMask(i, b);
    } else {
      BitOfZero(i);
    }
  }
}
