/** The evaluator and the minimiser as they run. */
module ReplayPlan {
  import opened Wrappers
  import opened ReplaySpec
  import opened SeedMinimality
  import opened Sorting

  class ReplayState {
    var slots: map<nat, nat>
    var mem: map<nat, nat>
    var computedEffects: nat
    var trustedEffects: nat
    var skippedEffects: nat
    var unresolved: seq<Missing>

    ghost function View(): State
      reads this
    {
      State(slots, mem, computedEffects, trustedEffects, skippedEffects, unresolved)
    }

    constructor ()
      ensures View() == State(map[], map[], 0, 0, 0, [])
    {
      slots, mem, computedEffects, trustedEffects, skippedEffects, unresolved := map[], map[], 0, 0, 0, [];
    }

    method EvalExpr(e: Expr, fx: Effect) returns (value: Option<nat>)
      requires WellFormed(e)
      modifies this`unresolved
      ensures value == Eval(e, slots, fx).value
      ensures unresolved == old(unresolved) + Eval(e, slots, fx).missing
      decreases e, 1
    {
      match e
      case Null => return None;
      case Literal(n) => return Some(n);
      case Slot(s) =>
        if s in slots { return Some(slots[s]); }
        unresolved := unresolved + [MissingSlot(s)];
        return None;
      case Low8(s) =>
        if s in slots { return Some(slots[s] % 256); }
        unresolved := unresolved + [MissingSlot(s)];
        return None;
      case ByteLoad(_) =>
        return if fx.observed.Some? then Some(fx.observed.value % 256) else fx.sourceByte;
      case Op(op, args) =>
        var values := EvalOperands(args, fx);
        if None in values { return None; }
        return Some(ApplyOp(op, NumbersOf(values)));
      case Unknown(text) =>
        unresolved := unresolved + [MissingText(text)];
        return None;
    }

    /** Every operand is evaluated, so every unresolved read is recorded. */
    method EvalOperands(args: seq<Expr>, fx: Effect) returns (values: seq<Option<nat>>)
      requires forall a :: a in args ==> WellFormed(a)
      modifies this`unresolved
      ensures values == EvalArgs(args, slots, fx).values
      ensures unresolved == old(unresolved) + EvalArgs(args, slots, fx).missing
      decreases args, 0
    {
      hide Eval, WellFormed;
      values := [];
      ghost var before := unresolved;
      assert args[0..] == args;
      for i := 0 to |args|
        invariant |values| == i
        invariant values + EvalArgs(args[i..], slots, fx).values == EvalArgs(args, slots, fx).values
        invariant unresolved + EvalArgs(args[i..], slots, fx).missing == before + EvalArgs(args, slots, fx).missing
      {
        assert args[i..][1..] == args[i + 1..];
        ghost var rest := EvalArgs(args[i + 1..], slots, fx);
        ghost var values0, unresolved0 := values, unresolved;
        var v := EvalExpr(args[i], fx);
        values := values + [v];
        assert values + rest.values == values0 + ([v] + rest.values);
        assert unresolved + rest.missing == unresolved0 + (Eval(args[i], slots, fx).missing + rest.missing);
      }
    }

    method WriteMem(addr: nat, value: int, width: int)
      modifies this`mem
      ensures mem == Stored(old(mem), addr, value, if width < 0 then 0 else width)
    {
      var offset := 0;
      while offset < width
        invariant offset <= (if width < 0 then 0 else width)
        invariant mem == Stored(old(mem), addr, value, offset)
      {
        mem := mem[addr + offset := Byte(value, offset)];
        offset := offset + 1;
      }
    }

    method ApplyEffect(fx: Effect, trustObserved: bool)
      requires WellFormed(fx.rhs)
      modifies this
      ensures View() == Apply(fx, old(View()), trustObserved)
    {
      if fx.target.Other? {
        skippedEffects := skippedEffects + 1;
        return;
      }
      var evaluated := EvalExpr(fx.rhs, fx);
      var computed: int;
      if evaluated.None? && trustObserved {
        if fx.observed.None? {
          skippedEffects := skippedEffects + 1;
          return;
        }
        computed := fx.observed.value;
        trustedEffects := trustedEffects + 1;
      } else if evaluated.Some? {
        computed := evaluated.value;
        computedEffects := computedEffects + 1;
      } else {
        skippedEffects := skippedEffects + 1;
        return;
      }
      match fx.target
      case SlotTarget(s) => slots := slots[s := Low64(computed)];
      case MemTarget(None) => skippedEffects := skippedEffects + 1;
      case MemTarget(Some(addr)) => WriteMem(addr, computed, Width(fx, computed));
    }
  }

  function Effects(plan: seq<seq<Effect>>): seq<Effect> {
    if |plan| == 0 then [] else plan[0] + Effects(plan[1..])
  }

  lemma {:induction false} RunSplits(a: seq<Effect>, b: seq<Effect>, st: State, trust: bool)
    requires WellFormedPlan(a + b) && WellFormedPlan(a) && WellFormedPlan(b)
    ensures Run(a + b, st, trust) == Run(b, Run(a, st, trust), trust)
  {
    if |a| == 0 {
      assert a + b == b;
    } else {
      assert (a + b)[1..] == a[1..] + b;
      assert (a + b)[0] == a[0];
      RunSplits(a[1..], b, Apply(a[0], st, trust), trust);
    }
  }

  method ReplayThePlan(plan: seq<seq<Effect>>, trustObserved: bool, seeds: map<nat, nat>) returns (state: ReplayState)
    requires WellFormedPlan(Effects(plan))
    ensures fresh(state) && state.View() == Replay(Effects(plan), seeds, trustObserved)
  {
    state := new ReplayState();
    state.slots := map s | s in seeds :: Low64(seeds[s]);
    ghost var result := Replay(Effects(plan), seeds, trustObserved);
    assert plan[0..] == plan;
    for i := 0 to |plan|
      invariant WellFormedPlan(Effects(plan[i..]))
      invariant Run(Effects(plan[i..]), state.View(), trustObserved) == result
    {
      var step := plan[i];
      assert plan[i..][1..] == plan[i + 1..];
      assert Effects(plan[i..]) == step + Effects(plan[i + 1..]);
      assert WellFormedPlan(step) && WellFormedPlan(Effects(plan[i + 1..]));
      RunSplits(step, Effects(plan[i + 1..]), state.View(), trustObserved);
      ghost var after := Run(step, state.View(), trustObserved);
      assert step[0..] == step;
      for j := 0 to |step|
        invariant Run(step[j..], state.View(), trustObserved) == after
      {
        assert step[j..][1..] == step[j + 1..];
        state.ApplyEffect(step[j], trustObserved);
      }
    }
  }

  function SlotOrder(slot: nat): int { slot }

  /** Ascending enumeration of a key set. */
  method SortedKeys(keys: set<nat>) returns (order: seq<nat>)
    ensures StrictlyBy(SlotOrder, order)
    ensures forall k :: k in order <==> k in keys
  {
    order := [];
    var rest := keys;
    while rest != {}
      invariant rest <= keys && StrictlyBy(SlotOrder, order)
      invariant forall k :: k in order <==> k in keys && k !in rest
    {
      var next :| next in rest;
      rest := rest - {next};
      var p := |order|;
      while p > 0 && order[p - 1] > next
        invariant 0 <= p <= |order| && (p < |order| ==> order[p] > next)
      {
        p := p - 1;
      }
      if p > 0 { assert order[p - 1] in order; }
      InsertAt(SlotOrder, order, next, p);
      InsertedMembers(order, next, p);
      order := Inserted(order, next, p);
    }
  }

  /** The seeds left when the slots in `ahead` are still to be tried. */
  function Surviving(effects: seq<Effect>, user: set<nat>, seeds: map<nat, nat>, ahead: seq<nat>): map<nat, nat>
    requires WellFormedPlan(effects)
  {
    map s | s in seeds && (s in ahead || s in Minimal(effects, user, seeds)) :: seeds[s]
  }

  /** Trying one slot: a user's seed stays, any other goes exactly when its removal replays equivalently. */
  lemma SurvivingStep(effects: seq<Effect>, user: set<nat>, seeds: map<nat, nat>, ahead: seq<nat>, slot: nat)
    requires WellFormedPlan(effects) && slot in seeds && slot !in ahead
    ensures var now := Surviving(effects, user, seeds, [slot] + ahead);
      Surviving(effects, user, seeds, ahead) ==
        if slot !in user && Equivalent(Replay(effects, now - {slot}, false), Replay(effects, seeds, false))
        then now - {slot}
        else now
  {
    var now := Surviving(effects, user, seeds, [slot] + ahead);
    EquivalentIff(effects, now - {slot}, seeds);
    hide Replay, Needed, Equivalent;
    assert forall s :: s in [slot] + ahead <==> s == slot || s in ahead;
  }

  lemma SurvivingEnds(effects: seq<Effect>, user: set<nat>, seeds: map<nat, nat>, order: seq<nat>)
    requires WellFormedPlan(effects) && forall s :: s in order <==> s in seeds
    ensures Surviving(effects, user, seeds, order) == seeds
    ensures Surviving(effects, user, seeds, []) == Minimal(effects, user, seeds)
  {}

  lemma TakeNext(order: seq<nat>, k: nat)
    requires StrictlyBy(SlotOrder, order) && k < |order|
    ensures order[k] !in order[k + 1..] && order[k..] == [order[k]] + order[k + 1..]
  {}

  /** Tries to drop the non-user seeds one at a time, in slot order, keeping each drop that stays equivalent. */
  method MinimizeAutoSeedSlots(plan: seq<seq<Effect>>, userSeeds: map<nat, nat>, seeds: map<nat, nat>,
      reference: ReplayState)
    returns (minimized: map<nat, nat>)
    requires WellFormedPlan(Effects(plan))
    requires reference.View() == Replay(Effects(plan), seeds, false)
    ensures minimized == Minimal(Effects(plan), userSeeds.Keys, seeds)
  {
    ghost var effects, user := Effects(plan), userSeeds.Keys;
    minimized := seeds;
    var order := SortedKeys(seeds.Keys);
    SurvivingEnds(effects, user, seeds, order);
    assert order[0..] == order && order[|order|..] == [];
    hide Replay, Minimal, Surviving, Effects;
    for k := 0 to |order|
      invariant minimized == Surviving(effects, user, seeds, order[k..])
    {
      var slot := order[k];
      TakeNext(order, k);
      SurvivingStep(effects, user, seeds, order[k + 1..], slot);
      if slot in userSeeds { continue; }
      var candidate := minimized - {slot};
      var replay := ReplayThePlan(plan, false, candidate);
      if replay.trustedEffects == 0 && replay.unresolved == [] && replay.slots == reference.slots
        && replay.mem == reference.mem {
        minimized := candidate;
      }
    }
  }
}
