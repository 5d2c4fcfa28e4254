/** The greedy minimiser's result, described without it: the least equivalent seed set. */
module SeedMinimality {
  import opened ReplaySpec
  import opened SeedLiveness

  ghost predicate SubSeeds(kept: map<nat, nat>, seeds: map<nat, nat>) {
    kept.Keys <= seeds.Keys && forall s :: s in kept ==> kept[s] == seeds[s]
  }

  /** Seeds the plan reads before writing, and seeds it never writes (they show up in the final slots). */
  function Needed(effects: seq<Effect>, seeds: map<nat, nat>): set<nat> {
    set s | s in seeds && (s in LiveIn(effects) || s !in Written(effects))
  }

  lemma {:induction false} ReplayResolves(effects: seq<Effect>, seeds: map<nat, nat>)
    requires WellFormedPlan(effects)
    ensures var r := Replay(effects, seeds, false);
      && (r.unresolved == [] <==> LiveIn(effects) <= seeds.Keys && !HasOpaque(effects))
      && (r.unresolved == [] ==> r.slots.Keys == seeds.Keys + Written(effects))
      && r.trustedEffects == 0
  {
    assert Start(seeds).slots.Keys == seeds.Keys;
    RunResolves(effects, Start(seeds));
    UnresolvedGrows(effects, Start(seeds), false);
  }

  /** Adding seeds to a run without unresolved reads changes neither its memory nor any slot it writes. */
  lemma {:induction false} MoreSeedsSameRun(effects: seq<Effect>, kept: map<nat, nat>, seeds: map<nat, nat>)
    requires WellFormedPlan(effects) && SubSeeds(kept, seeds)
    requires Replay(effects, kept, false).unresolved == []
    ensures Replay(effects, seeds, false).unresolved == []
    ensures Replay(effects, seeds, false).mem == Replay(effects, kept, false).mem
    ensures AgreeOn(kept.Keys + Written(effects), Replay(effects, kept, false).slots,
      Replay(effects, seeds, false).slots)
  {
    ReplayResolves(effects, kept);
    ReplayResolves(effects, seeds);
    RunAgrees(effects, Start(kept), Start(seeds), kept.Keys);
  }

  /** A subset of the seeds replays equivalently exactly when the full set resolves and every needed seed is kept. */
  lemma EquivalentIff(effects: seq<Effect>, kept: map<nat, nat>, seeds: map<nat, nat>)
    requires WellFormedPlan(effects) && SubSeeds(kept, seeds)
    ensures Equivalent(Replay(effects, kept, false), Replay(effects, seeds, false)) <==>
            Replay(effects, seeds, false).unresolved == [] && Needed(effects, seeds) <= kept.Keys
  {
    var a, b := Replay(effects, kept, false), Replay(effects, seeds, false);
    ReplayResolves(effects, kept);
    ReplayResolves(effects, seeds);
    hide Replay, LiveIn, Written, HasOpaque;
    if Equivalent(a, b) {
      MoreSeedsSameRun(effects, kept, seeds);
      forall s | s in Needed(effects, seeds) ensures s in kept {
        assert s in b.slots.Keys && s in a.slots.Keys;
      }
    }
    if b.unresolved == [] && Needed(effects, seeds) <= kept.Keys {
      forall s | s in LiveIn(effects) ensures s in kept { assert s in Needed(effects, seeds); }
      forall s | s in seeds.Keys ensures s in kept.Keys + Written(effects) {
        assert s !in Written(effects) ==> s in Needed(effects, seeds);
      }
      MoreSeedsSameRun(effects, kept, seeds);
      assert a.slots.Keys == b.slots.Keys == kept.Keys + Written(effects);
      forall k | k in a.slots ensures a.slots[k] == b.slots[k] {
        assert k in kept.Keys + Written(effects);
      }
      assert a.slots == b.slots;
    }
  }

  /** What is left of the seeds: everything if the full run does not resolve, else the user's and the needed ones. */
  function Minimal(effects: seq<Effect>, user: set<nat>, seeds: map<nat, nat>): map<nat, nat>
    requires WellFormedPlan(effects)
  {
    if Replay(effects, seeds, false).unresolved != [] then seeds
    else map s | s in seeds && (s in user || s in Needed(effects, seeds)) :: seeds[s]
  }

  /** The minimised seeds replay to the same final slots and memory. */
  lemma MinimalPreserves(effects: seq<Effect>, user: set<nat>, seeds: map<nat, nat>)
    requires WellFormedPlan(effects)
    ensures Replay(effects, Minimal(effects, user, seeds), false).slots == Replay(effects, seeds, false).slots
    ensures Replay(effects, Minimal(effects, user, seeds), false).mem == Replay(effects, seeds, false).mem
    ensures Replay(effects, seeds, false).unresolved == [] ==>
      Equivalent(Replay(effects, Minimal(effects, user, seeds), false), Replay(effects, seeds, false))
  {
    EquivalentIff(effects, Minimal(effects, user, seeds), seeds);
  }

  /** Dropping any one remaining seed that is not the user's breaks equivalence. */
  lemma MinimalIsOneMinimal(effects: seq<Effect>, user: set<nat>, seeds: map<nat, nat>, s: nat)
    requires WellFormedPlan(effects)
    requires s in Minimal(effects, user, seeds) && s !in user
    ensures !Equivalent(Replay(effects, Minimal(effects, user, seeds) - {s}, false), Replay(effects, seeds, false))
  {
    EquivalentIff(effects, Minimal(effects, user, seeds) - {s}, seeds);
  }

  /**
   * Every equivalent seed set that keeps the user's seeds contains the minimised one: the greedy pass finds the
   * least.
   */
  lemma MinimalIsLeast(effects: seq<Effect>, user: set<nat>, seeds: map<nat, nat>, kept: map<nat, nat>)
    requires WellFormedPlan(effects) && SubSeeds(kept, seeds)
    requires user * seeds.Keys <= kept.Keys
    requires Equivalent(Replay(effects, kept, false), Replay(effects, seeds, false))
    ensures Minimal(effects, user, seeds).Keys <= kept.Keys
  {
    EquivalentIff(effects, kept, seeds);
  }
}
