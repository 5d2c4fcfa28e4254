/** Which seeds a plan needs, read off its syntax, and the proof that the semantics agrees. */
module SeedLiveness {
  import opened Wrappers
  import opened ReplaySpec

  function Reads(e: Expr): set<nat>
    decreases e, 1
  {
    match e
    case Slot(s) => {s}
    case Low8(s) => {s}
    case Op(_, args) => ReadsAll(args)
    case _ => {}
  }

  function ReadsAll(args: seq<Expr>): set<nat>
    decreases args, 0
  {
    if |args| == 0 then {} else Reads(args[0]) + ReadsAll(args[1..])
  }

  /** Some unrecognised text is evaluated. */
  predicate Opaque(e: Expr)
    decreases e, 1
  {
    match e
    case Unknown(_) => true
    case Op(_, args) => OpaqueAny(args)
    case _ => false
  }

  predicate OpaqueAny(args: seq<Expr>)
    decreases args, 0
  {
    |args| > 0 && (Opaque(args[0]) || OpaqueAny(args[1..]))
  }

  /** Has a value once every slot it reads does. */
  predicate Computable(e: Expr, fx: Effect)
    decreases e, 1
  {
    match e
    case Null => false
    case Unknown(_) => false
    case ByteLoad(_) => fx.observed.Some? || fx.sourceByte.Some?
    case Op(_, args) => ComputableAll(args, fx)
    case _ => true
  }

  predicate ComputableAll(args: seq<Expr>, fx: Effect)
    decreases args, 0
  {
    |args| == 0 || (Computable(args[0], fx) && ComputableAll(args[1..], fx))
  }

  function ReadBy(fx: Effect): set<nat> { if fx.target.Other? then {} else Reads(fx.rhs) }

  function WrittenBy(fx: Effect): set<nat> {
    if fx.target.SlotTarget? && Computable(fx.rhs, fx) then {fx.target.slot} else {}
  }

  predicate OpaqueEffect(fx: Effect) { !fx.target.Other? && Opaque(fx.rhs) }

  /** Slots read before the plan has written them. */
  function LiveIn(effects: seq<Effect>): set<nat> {
    if |effects| == 0 then {} else ReadBy(effects[0]) + (LiveIn(effects[1..]) - WrittenBy(effects[0]))
  }

  function Written(effects: seq<Effect>): set<nat> {
    if |effects| == 0 then {} else WrittenBy(effects[0]) + Written(effects[1..])
  }

  predicate HasOpaque(effects: seq<Effect>) {
    |effects| > 0 && (OpaqueEffect(effects[0]) || HasOpaque(effects[1..]))
  }

  // ---------- one expression ----------

  lemma {:induction false} EvalResolves(e: Expr, slots: map<nat, nat>, fx: Effect)
    requires WellFormed(e)
    ensures Eval(e, slots, fx).missing == [] <==> Reads(e) <= slots.Keys && !Opaque(e)
    ensures Eval(e, slots, fx).missing == [] ==> (Eval(e, slots, fx).value.Some? <==> Computable(e, fx))
    decreases e, 1
  {
    if e.Op? { EvalArgsResolve(e.args, slots, fx); }
  }

  lemma {:induction false} EvalArgsResolve(args: seq<Expr>, slots: map<nat, nat>, fx: Effect)
    requires forall a :: a in args ==> WellFormed(a)
    ensures EvalArgs(args, slots, fx).missing == [] <==> ReadsAll(args) <= slots.Keys && !OpaqueAny(args)
    ensures EvalArgs(args, slots, fx).missing == [] ==>
      (None !in EvalArgs(args, slots, fx).values <==> ComputableAll(args, fx))
    decreases args, 0
  {
    if |args| > 0 {
      EvalResolves(args[0], slots, fx);
      EvalArgsResolve(args[1..], slots, fx);
    }
  }

  ghost predicate AgreeOn(s: set<nat>, a: map<nat, nat>, b: map<nat, nat>) {
    s <= a.Keys && s <= b.Keys && forall k :: k in s ==> a[k] == b[k]
  }

  lemma {:induction false} EvalAgrees(e: Expr, a: map<nat, nat>, b: map<nat, nat>, fx: Effect)
    requires WellFormed(e) && AgreeOn(Reads(e), a, b)
    ensures Eval(e, a, fx) == Eval(e, b, fx)
    decreases e, 1
  {
    if e.Op? { EvalArgsAgree(e.args, a, b, fx); }
  }

  lemma {:induction false} EvalArgsAgree(args: seq<Expr>, a: map<nat, nat>, b: map<nat, nat>, fx: Effect)
    requires forall x :: x in args ==> WellFormed(x)
    requires AgreeOn(ReadsAll(args), a, b)
    ensures EvalArgs(args, a, fx) == EvalArgs(args, b, fx)
    decreases args, 0
  {
    if |args| > 0 {
      EvalAgrees(args[0], a, b, fx);
      EvalArgsAgree(args[1..], a, b, fx);
    }
  }

  // ---------- one effect, untrusted ----------

  lemma ApplyResolves(fx: Effect, st: State)
    requires WellFormed(fx.rhs) && st.unresolved == []
    ensures var r := Apply(fx, st, false);
      && (r.unresolved == [] <==> ReadBy(fx) <= st.slots.Keys && !OpaqueEffect(fx))
      && (r.unresolved == [] ==> r.slots.Keys == st.slots.Keys + WrittenBy(fx))
      && (forall k :: k !in WrittenBy(fx) && k in st.slots && r.unresolved == [] ==> r.slots[k] == st.slots[k])
  {
    EvalResolves(fx.rhs, st.slots, fx);
  }

  lemma ApplyAgrees(fx: Effect, a: State, b: State, agreed: set<nat>)
    requires WellFormed(fx.rhs) && AgreeOn(agreed, a.slots, b.slots) && ReadBy(fx) <= agreed
    requires a.unresolved == b.unresolved == [] && a.mem == b.mem && !OpaqueEffect(fx)
    ensures AgreeOn(agreed + WrittenBy(fx), Apply(fx, a, false).slots, Apply(fx, b, false).slots)
    ensures Apply(fx, a, false).mem == Apply(fx, b, false).mem
  {
    if !fx.target.Other? {
      EvalAgrees(fx.rhs, a.slots, b.slots, fx);
      EvalResolves(fx.rhs, a.slots, fx);
    }
  }

  // ---------- a whole run, untrusted ----------

  lemma {:induction false} UnresolvedGrows(effects: seq<Effect>, st: State, trust: bool)
    requires WellFormedPlan(effects)
    ensures st.unresolved <= Run(effects, st, trust).unresolved
    ensures !trust ==> Run(effects, st, trust).trustedEffects == st.trustedEffects
  {
    if |effects| > 0 { UnresolvedGrows(effects[1..], Apply(effects[0], st, trust), trust); }
  }

  /** A run resolves every read exactly when it starts with every live-in slot (and no text is opaque). */
  lemma {:induction false} RunResolves(effects: seq<Effect>, st: State)
    requires WellFormedPlan(effects) && st.unresolved == []
    ensures var r := Run(effects, st, false);
      && (r.unresolved == [] <==> LiveIn(effects) <= st.slots.Keys && !HasOpaque(effects))
      && (r.unresolved == [] ==> r.slots.Keys == st.slots.Keys + Written(effects))
      && (r.unresolved == [] ==> forall k :: k in st.slots && k !in Written(effects) ==> r.slots[k] == st.slots[k])
  {
    if |effects| > 0 {
      var next := Apply(effects[0], st, false);
      ApplyResolves(effects[0], st);
      UnresolvedGrows(effects[1..], next, false);
      hide Apply, ReadBy, WrittenBy, OpaqueEffect;
      if next.unresolved == [] { RunResolves(effects[1..], next); }
    }
  }

  /** Monotonicity: runs that agree on the live-in slots do the same writes. */
  lemma {:induction false} RunAgrees(effects: seq<Effect>, a: State, b: State, agreed: set<nat>)
    requires WellFormedPlan(effects) && !HasOpaque(effects)
    requires AgreeOn(agreed, a.slots, b.slots) && LiveIn(effects) <= agreed
    requires a.unresolved == b.unresolved == [] && a.mem == b.mem
    ensures AgreeOn(agreed + Written(effects), Run(effects, a, false).slots, Run(effects, b, false).slots)
    ensures Run(effects, a, false).mem == Run(effects, b, false).mem
  {
    if |effects| > 0 {
      ApplyResolves(effects[0], a);
      ApplyResolves(effects[0], b);
      ApplyAgrees(effects[0], a, b, agreed);
      assert ReadBy(effects[0]) <= a.slots.Keys && ReadBy(effects[0]) <= b.slots.Keys;
      hide Apply, ReadBy, WrittenBy, OpaqueEffect;
      var wider := agreed + WrittenBy(effects[0]);
      RunAgrees(effects[1..], Apply(effects[0], a, false), Apply(effects[0], b, false), wider);
      assert wider + Written(effects[1..]) == agreed + Written(effects);
    }
  }
}
