/** Bytes, and the numbers they spell lowest byte first. */
module Bytes {

  type Byte = x: nat | x < 256

  /** The lowest `k` bytes of `v`. */
  function Le(v: nat, k: nat): (bytes: seq<Byte>)
    ensures |bytes| == k
  {
    if k == 0 then [] else [v % 256] + Le(v / 256, k - 1)
  }

  function Word(bytes: seq<nat>): nat {
    if |bytes| == 0 then 0 else bytes[0] + 256 * Word(bytes[1..])
  }

  function Pow256(k: nat): (p: nat)
    ensures p > 0
  {
    if k == 0 then 1 else 256 * Pow256(k - 1)
  }

  lemma {:induction false} WordOfLe(v: nat, k: nat)
    ensures Word(Le(v, k)) == v <==> v < Pow256(k)
    ensures Word(Le(v, k)) < Pow256(k)
  {
    if k > 0 {
      WordOfLe(v / 256, k - 1);
      assert Le(v, k)[1..] == Le(v / 256, k - 1);
    }
  }

}
