/** Replay plans as syntax, and what evaluating one means. */
module ReplaySpec {
  import opened Wrappers
  import opened Numbers
  import Words

  datatype Operator = Add | Sub | And | Orr | Eor | Lsl | Lsr

  /** `Unknown` is any text the evaluator does not recognise. */
  datatype Expr =
    | Null
    | Literal(number: nat)
    | Slot(slot: nat)
    | Low8(slot: nat)
    | ByteLoad(addr: nat)
    | Op(op: Operator, args: seq<Expr>)
    | Unknown(text: string)

  /** The left-hand side; `Other` covers effects without one the replayer supports. */
  datatype Target = SlotTarget(slot: nat) | MemTarget(addr: Option<nat>) | Other

  datatype Effect = Effect(
    target: Target,
    rhs: Expr,
    observed: Option<int>,
    sourceByte: Option<nat>,
    storeWidth: Option<int>)

  datatype Missing = MissingSlot(slot: nat) | MissingText(text: string)

  datatype State = State(
    slots: map<nat, nat>,
    mem: map<nat, nat>,
    computedEffects: nat,
    trustedEffects: nat,
    skippedEffects: nat,
    unresolved: seq<Missing>)

  /** The operand counts the operators need; with fewer the evaluator raises. */
  function Needs(op: Operator): nat { match op case Sub => 1 case And => 1 case Lsl => 2 case Lsr => 2 case _ => 0 }

  predicate WellFormed(e: Expr) {
    e.Op? ==>
      && |e.args| >= Needs(e.op)
      && forall a :: a in e.args ==> WellFormed(a)
  }

  // ---------- arithmetic ----------

  function Low64(v: int): nat { v % TWO_TO_THE_64 }

  function Xor(w: nat, v: nat): nat
    decreases w + v
  {
    if w == 0 then v else if v == 0 then w else 2 * Xor(w / 2, v / 2) + (w % 2 + v % 2) % 2
  }

  /** The masked operators; masking the operands first changes no bit below 2^64. */
  function Fold(op: Operator, head: nat, tail: seq<nat>): nat
    decreases |tail|
  {
    if |tail| == 0 then head
    else
      var next := Low64(tail[0]);
      var acc: nat := match op
        case Sub => Low64(head - next)
        case And => Words.And(head, next)
        case Orr => Words.Or(head, next)
        case Eor => Xor(head, next)
        case _ => Low64(head + next);
      Fold(op, acc, tail[1..])
  }

  function ApplyOp(op: Operator, nums: seq<nat>): nat
    requires |nums| >= Needs(op)
  {
    match op
    case Lsl => Low64(nums[0] * Words.Mask(nums[1]))
    case Lsr => Words.Shr(Low64(nums[0]), nums[1])
    case Sub => Fold(op, nums[0], nums[1..])
    case And => Fold(op, Low64(nums[0]), nums[1..])
    case _ => Fold(op, 0, nums)
  }

  // ---------- evaluation ----------

  /** A value if there is one, and the reads that could not be resolved on the way. */
  datatype Outcome = Outcome(value: Option<nat>, missing: seq<Missing>)

  datatype Outcomes = Outcomes(values: seq<Option<nat>>, missing: seq<Missing>)

  function Eval(e: Expr, slots: map<nat, nat>, fx: Effect): Outcome
    requires WellFormed(e)
    decreases e, 1
  {
    match e
    case Null => Outcome(None, [])
    case Literal(n) => Outcome(Some(n), [])
    case Slot(s) => if s in slots then Outcome(Some(slots[s]), []) else Outcome(None, [MissingSlot(s)])
    case Low8(s) => if s in slots then Outcome(Some(slots[s] % 256), []) else Outcome(None, [MissingSlot(s)])
    case ByteLoad(_) => Outcome(if fx.observed.Some? then Some(fx.observed.value % 256) else fx.sourceByte, [])
    case Op(op, args) =>
      var r := EvalArgs(args, slots, fx);
      if None in r.values then Outcome(None, r.missing)
      else Outcome(Some(ApplyOp(op, NumbersOf(r.values))), r.missing)
    case Unknown(text) => Outcome(None, [MissingText(text)])
  }

  /** Every operand is evaluated, even after one has failed. */
  function EvalArgs(args: seq<Expr>, slots: map<nat, nat>, fx: Effect): (r: Outcomes)
    requires forall a :: a in args ==> WellFormed(a)
    ensures |r.values| == |args|
    decreases args, 0
  {
    if |args| == 0 then Outcomes([], [])
    else
      var first := Eval(args[0], slots, fx);
      var rest := EvalArgs(args[1..], slots, fx);
      Outcomes([first.value] + rest.values, first.missing + rest.missing)
  }

  function NumbersOf(values: seq<Option<nat>>): (nums: seq<nat>)
    requires None !in values
    ensures |nums| == |values|
  {
    if |values| == 0 then [] else
      assert values[0] in values;
      [values[0].value] + NumbersOf(values[1..])
  }

  // ---------- effects ----------

  predicate StartsWithLow8(e: Expr) {
    e.Low8? || (e.Unknown? && "low8(" <= e.text)
  }

  function ValueWidth(value: int, rhs: Expr): nat {
    if StartsWithLow8(rhs) then 1
    else if value <= 0xFF then 1
    else if value <= 0xFFFF then 2
    else if value <= 0xFFFF_FFFF then 4
    else 8
  }

  /** A recorded width of zero counts as no width. */
  function Width(fx: Effect, value: int): int {
    if fx.storeWidth.Some? && fx.storeWidth.value != 0 then fx.storeWidth.value else ValueWidth(value, fx.rhs)
  }

  function Byte(value: int, offset: nat): nat { (value / Words.Mask(8 * offset)) % 256 }

  function Stored(mem: map<nat, nat>, addr: nat, value: int, width: nat): map<nat, nat> {
    if width == 0 then mem
    else Stored(mem, addr, value, width - 1)[addr + width - 1 := Byte(value, width - 1)]
  }

  function Write(fx: Effect, value: int, st: State): State {
    match fx.target
    case SlotTarget(s) => st.(slots := st.slots[s := Low64(value)])
    case MemTarget(Some(addr)) =>
      var width := Width(fx, value);
      st.(mem := Stored(st.mem, addr, value, if width < 0 then 0 else width))
    case _ => st.(skippedEffects := st.skippedEffects + 1)
  }

  function Apply(fx: Effect, st: State, trust: bool): State
    requires WellFormed(fx.rhs)
  {
    if fx.target.Other? then st.(skippedEffects := st.skippedEffects + 1)
    else
      var r := Eval(fx.rhs, st.slots, fx);
      var seen := st.(unresolved := st.unresolved + r.missing);
      if r.value.Some? then Write(fx, r.value.value, seen.(computedEffects := seen.computedEffects + 1))
      else if trust && fx.observed.Some? then
        Write(fx, fx.observed.value, seen.(trustedEffects := seen.trustedEffects + 1))
      else seen.(skippedEffects := seen.skippedEffects + 1)
  }

  predicate WellFormedPlan(effects: seq<Effect>) {
    forall fx :: fx in effects ==> WellFormed(fx.rhs)
  }

  function Run(effects: seq<Effect>, st: State, trust: bool): State
    requires WellFormedPlan(effects)
  {
    if |effects| == 0 then st else Run(effects[1..], Apply(effects[0], st, trust), trust)
  }

  function Start(seeds: map<nat, nat>): State {
    State(map s | s in seeds :: Low64(seeds[s]), map[], 0, 0, 0, [])
  }

  function Replay(effects: seq<Effect>, seeds: map<nat, nat>, trust: bool): State
    requires WellFormedPlan(effects)
  {
    Run(effects, Start(seeds), trust)
  }

  predicate Equivalent(candidate: State, reference: State) {
    && candidate.trustedEffects == 0
    && candidate.unresolved == []
    && candidate.slots == reference.slots
    && candidate.mem == reference.mem
  }
}
