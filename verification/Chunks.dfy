/** Splitting `n` records over workers in equal runs. */
module Chunks {
  import opened Numbers

  function DivCeil(n: nat, d: nat): nat
    requires d > 0
  {
    (n + d - 1) / d
  }

  function ChunkStart(w: nat, size: nat): nat { w * size }

  function ChunkEnd(w: nat, size: nat, n: nat): nat { Min(w * size + size, n) }

  /** Records the first `w` chunks of `size` hold. */
  function Covered(w: nat, size: nat, n: nat): nat { Min(w * size, n) }

  /** Worker `w` takes exactly the records the earlier workers left off at, up to its own share. */
  lemma ChunkFollows(w: nat, size: nat, n: nat)
    ensures var start, end := ChunkStart(w, size), ChunkEnd(w, size, n);
      if start < end then start == Covered(w, size, n) && end == Covered(w + 1, size, n)
      else Covered(w, size, n) == Covered(w + 1, size, n)
    ensures Covered(w + 1, size, n) <= n
  {}

  /** Together the workers take everything. */
  lemma ChunksCoverAll(n: nat, workers: nat)
    requires workers > 0
    ensures Covered(workers, DivCeil(n, workers), n) == n
  {}
}
