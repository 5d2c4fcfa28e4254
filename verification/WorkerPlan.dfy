/** How many workers a scan is split over. */
module WorkerPlan {
  import opened Wrappers
  import opened Numbers
  import opened Chunks

  /** An explicit request is bounded by the machine and the records; the default also by the size of a chunk. */
  function WorkerCountWith(records: nat, requested: Option<nat>, available: nat, parallelMin: nat, minChunk: nat): nat
    requires minChunk > 0
  {
    if requested.Some? then Max(Min(Min(requested.value, available), Max(records, 1)), 1)
    else if available <= 1 || records < parallelMin then 1
    else Max(Min(available, Max(DivCeil(records, minChunk), 1)), 1)
  }

  /**
   * At least one worker and never more than the machine offers. By default a further worker is only added while
   * the ones before it have a full `minChunk` of records each.
   */
  lemma WorkersBounded(records: nat, requested: Option<nat>, available: nat, parallelMin: nat, minChunk: nat)
    requires minChunk > 0
    ensures var workers := WorkerCountWith(records, requested, available, parallelMin, minChunk);
      && 1 <= workers <= Max(available, 1) && workers <= Max(records, 1)
      && (requested.None? && workers > 1 ==> records >= parallelMin && (workers - 1) * minChunk < records)
  {
    var workers := WorkerCountWith(records, requested, available, parallelMin, minChunk);
    var q := DivCeil(records, minChunk);
    RoundedUpFits(records, minChunk, q);
    hide DivCeil;
    if requested.None? && workers > 1 {
      Scales(workers - 1, q - 1, minChunk);
    }
  }

  /** A further worker that the plan could still take. */
  predicate Takes(records: nat, requested: Option<nat>, available: nat, parallelMin: nat, minChunk: nat, worker: nat) {
    && worker <= available
    && match requested
       case Some(r) => worker <= r && worker <= records
       case None => records >= parallelMin && (worker - 1) * minChunk < records
  }

  /**
   * The plan is the greatest number of workers there is: exactly the first one and those further ones the machine has,
   * the request asks for and the records give work to, or by default those with full chunks before them.
   */
  lemma WorkersAreMost(records: nat, requested: Option<nat>, available: nat, parallelMin: nat,
      minChunk: nat, worker: nat)
    requires minChunk > 0
    ensures worker <= WorkerCountWith(records, requested, available, parallelMin, minChunk) <==>
      worker <= 1 || Takes(records, requested, available, parallelMin, minChunk, worker)
  {
    var q := DivCeil(records, minChunk);
    RoundedUpFits(records, minChunk, q);
    hide DivCeil;
    if worker > 1 && requested.None? {
      if worker <= q { Scales(worker - 1, q - 1, minChunk); } else { Scales(q, worker - 1, minChunk); }
    }
  }

  lemma RoundedUpFits(records: nat, minChunk: nat, q: nat)
    requires minChunk > 0 && q == DivCeil(records, minChunk)
    ensures q > 0 ==> (q - 1) * minChunk < records
    ensures q <= records && records <= q * minChunk
  {
    var x := records + minChunk - 1;
    assert x == minChunk * q + x % minChunk;
    if q > 0 {
      assert (q - 1) * minChunk == minChunk * q - minChunk;
      assert q - 1 <= (q - 1) * minChunk by { Scales(1, minChunk, q - 1); }
    }
  }
}
