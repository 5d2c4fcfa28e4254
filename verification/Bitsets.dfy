/** The packed visited set of the slice walkers: one bit per trace row, 64 rows a word. */
module Bitsets {
  import opened Words

  class Bitset {
    const len: nat
    const words: array<nat>

    ghost predicate Valid() {
      words.Length == (len + WORD_BITS - 1) / WORD_BITS
    }

    ghost predicate At(i: nat)
      requires Valid() && i < len
      reads words
    {
      Bit(words[i / WORD_BITS], i % WORD_BITS)
    }

    /** The rows whose bit is set; bits past `len` are never part of the set. */
    ghost function View(): set<nat>
      requires Valid()
      reads words
    {
      set i: nat | 0 <= i < len && At(i)
    }

    constructor WithLen(len: nat)
      ensures Valid() && fresh(words) && this.len == len
      ensures View() == {}
    {
      this.len := len;
      words := new nat[(len + WORD_BITS - 1) / WORD_BITS](_ => 0);
      new;
      forall i: nat | i < len ensures !At(i) { BitOfZero(i % WORD_BITS); }
    }

    /** Out-of-range queries are false. */
    method Get(i: nat) returns (r: bool)
      requires Valid()
      ensures r <==> i in View()
    {
      if i >= len { return false; }
      r := Bit(words[i / WORD_BITS], i % WORD_BITS);
    }

    /** True iff the bit was clear before; out-of-range writes do nothing and report false. */
    method Set(i: nat) returns (added: bool)
      requires Valid()
      modifies words
      ensures added <==> i < len && i !in old(View())
      ensures View() == if i < len then old(View()) + {i} else old(View())
    {
      if i >= len { return false; }
      var w, mask := i / WORD_BITS, Mask(i % WORD_BITS);
      MaskReadsBit(words[w], i % WORD_BITS);
      added := And(words[w], mask) == 0;
      words[w] := Or(words[w], mask);
      forall j: nat | j < len ensures At(j) <==> i == j || old(At(j)) {
        if j / WORD_BITS == w {
          BitOfOr(old(words[w]), mask, j % WORD_BITS);
          BitOfMask(i % WORD_BITS, j % WORD_BITS);
        }
      }
    }

    constructor FromIdxs(idxs: seq<nat>, len: nat)
      ensures Valid() && fresh(words) && this.len == len
      ensures View() == set i | i in idxs && i < len
    {
      this.len := len;
      words := new nat[(len + WORD_BITS - 1) / WORD_BITS](_ => 0);
      new;
      forall i: nat | i < len ensures !At(i) { BitOfZero(i % WORD_BITS); }
      for k := 0 to |idxs|
        invariant View() == set i | i in idxs[..k] && i < len
      {
        var _ := Set(idxs[k]);
      }
      assert idxs[..|idxs|] == idxs;
    }

    method IntersectInPlace(other: Bitset)
      requires Valid() && other.Valid() && other.len == len && other.words != words
      modifies words
      ensures View() == old(View()) * other.View()
    {
      for k := 0 to words.Length
        invariant forall i :: 0 <= i < k ==> words[i] == And(old(words[i]), other.words[i])
        invariant forall i :: k <= i < words.Length ==> words[i] == old(words[i])
      {
        words[k] := And(words[k], other.words[k]);
      }
      forall i: nat | i < len ensures At(i) <==> old(At(i)) && other.At(i) {
        BitOfAnd(old(words[i / WORD_BITS]), other.words[i / WORD_BITS], i % WORD_BITS);
      }
    }

    method UnionInPlace(other: Bitset)
      requires Valid() && other.Valid() && other.len == len && other.words != words
      modifies words
      ensures View() == old(View()) + other.View()
    {
      for k := 0 to words.Length
        invariant forall i :: 0 <= i < k ==> words[i] == Or(old(words[i]), other.words[i])
        invariant forall i :: k <= i < words.Length ==> words[i] == old(words[i])
      {
        words[k] := Or(words[k], other.words[k]);
      }
      forall i: nat | i < len ensures At(i) <==> old(At(i)) || other.At(i) {
        BitOfOr(old(words[i / WORD_BITS]), other.words[i / WORD_BITS], i % WORD_BITS);
      }
    }

    /** The set rows in ascending order, each once, whatever the unused tail of the last word holds. */
    method Iter() returns (rows: seq<nat>)
      requires Valid()
      ensures forall i, j :: 0 <= i < j < |rows| ==> rows[i] < rows[j]
      ensures (set i | i in rows) == View()
    {
      rows := [];
      for w := 0 to words.Length
        invariant forall i, j :: 0 <= i < j < |rows| ==> rows[i] < rows[j]
        invariant forall i :: 0 <= i < |rows| ==> rows[i] < w * WORD_BITS
        invariant forall i :: i in rows <==> i in View() && i < w * WORD_BITS
      {
        for b := 0 to WORD_BITS
          invariant forall i, j :: 0 <= i < j < |rows| ==> rows[i] < rows[j]
          invariant forall i :: 0 <= i < |rows| ==> rows[i] < w * WORD_BITS + b
          invariant forall i :: i in rows <==> i in View() && i < w * WORD_BITS + b
        {
          var idx := w * WORD_BITS + b;
          assert idx / WORD_BITS == w && idx % WORD_BITS == b;
          if idx < len && Bit(words[w], b) {
            assert idx in View();
            rows := rows + [idx];
          }
        }
      }
    }
  }
}
