/** What replaying effects does to slots, memory and counters, said without the evaluator. */
module ReplayEffects {
  import opened Wrappers
  import opened Numbers
  import opened Words
  import Bytes
  import opened ReplaySpec
  import opened ReplayMeaning

  // ---------- values ----------

  predicate Splits(v: int, o: nat, above: int, b: nat, below: nat) {
    v == (256 * above + b) * Bytes.Pow256(o) + below && below < Bytes.Pow256(o)
  }

  /** `b` is byte `o` of `v`, counted from the lowest; a negative value extends upwards without end. */
  ghost predicate IsByteOf(v: int, o: nat, b: nat) {
    b < 256 && exists above: int, below: nat :: Splits(v, o, above, b, below)
  }

  /** Whether the result of a bitwise operator or a shift has bit `b`. */
  ghost predicate HasBit(op: Operator, nums: seq<nat>, b: nat)
    requires |nums| >= Needs(op)
  {
    match op
    case And => b < 64 && forall i :: 0 <= i < |nums| ==> Bit(nums[i], b)
    case Orr => b < 64 && exists i :: 0 <= i < |nums| && Bit(nums[i], b)
    case Eor => b < 64 && Odd(nums, b)
    case Lsl => nums[1] <= b < 64 && Bit(nums[0], b - nums[1])
    case Lsr => b + nums[1] < 64 && Bit(nums[0], b + nums[1])
    case _ => false
  }

  /** `v` is the result of the operator: arithmetic modulo 2^64, the others bit by bit. */
  ghost predicate Yields(op: Operator, nums: seq<nat>, v: nat)
    requires |nums| >= Needs(op)
  {
    match op
    case Add => v == Sum(nums) % TWO_TO_THE_64
    case Sub => v == if |nums| == 1 then nums[0] else (nums[0] - Sum(nums[1..])) % TWO_TO_THE_64
    case _ => forall b: nat :: Bit(v, b) <==> HasBit(op, nums, b)
  }

  /** An odd number of the operands have bit `b`. */
  predicate Odd(nums: seq<nat>, b: nat) { |nums| > 0 && Bit(nums[0], b) != Odd(nums[1..], b) }

  /** `e` has the value `v`; an operator has one only if all its operands do. */
  ghost predicate Denotes(e: Expr, slots: map<nat, nat>, fx: Effect, v: nat)
    requires WellFormed(e)
    decreases e
  {
    match e
    case Null => false
    case Literal(n) => v == n
    case Slot(s) => s in slots && v == slots[s]
    case Low8(s) => s in slots && forall b: nat :: Bit(v, b) <==> b < 8 && Bit(slots[s], b)
    case ByteLoad(_) => if fx.observed.Some? then IsByteOf(fx.observed.value, 0, v) else fx.sourceByte == Some(v)
    case Op(op, args) =>
      exists nums: seq<nat> :: |nums| == |args| && Yields(op, nums, v)
        && forall i :: 0 <= i < |args| ==> Denotes(args[i], slots, fx, nums[i])
    case Unknown(_) => false
  }

  /** The leaves that read a slot or are not understood, left to right. */
  function Asks(e: Expr): seq<Missing>
    decreases e, 1
  {
    match e
    case Slot(s) => [MissingSlot(s)]
    case Low8(s) => [MissingSlot(s)]
    case Op(_, args) => AsksAll(args)
    case Unknown(text) => [MissingText(text)]
    case _ => []
  }

  function AsksAll(args: seq<Expr>): seq<Missing>
    decreases args, 0
  {
    if |args| == 0 then [] else Asks(args[0]) + AsksAll(args[1..])
  }

  /** Those of them that have no answer. */
  function Unanswered(asks: seq<Missing>, slots: map<nat, nat>): seq<Missing> {
    if |asks| == 0 then []
    else
      var last := asks[|asks| - 1];
      Unanswered(asks[..|asks| - 1], slots) + (if last.MissingSlot? && last.slot in slots then [] else [last])
  }

  // ---------- bits determine numbers ----------

  lemma BitsDetermine(v: nat, w: nat)
    requires forall b: nat :: Bit(v, b) <==> Bit(w, b)
    ensures v == w
    decreases v + w
  {
    if v > 0 || w > 0 {
      assert Bit(v, 0) <==> Bit(w, 0);
      forall b: nat ensures Bit(v / 2, b) <==> Bit(w / 2, b) { assert Bit(v, b + 1) <==> Bit(w, b + 1); }
      BitsDetermine(v / 2, w / 2);
    }
  }

  lemma {:induction false} FoldsAll(acc: bool, nums: seq<nat>, b: nat)
    ensures FoldBits(And, acc, nums, b) <==> acc && forall i :: 0 <= i < |nums| ==> Bit(nums[i], b)
    ensures FoldBits(Orr, acc, nums, b) <==> acc || exists i :: 0 <= i < |nums| && Bit(nums[i], b)
    ensures FoldBits(Eor, acc, nums, b) <==> acc != Odd(nums, b)
    decreases nums
  {
    hide Bit;
    if |nums| > 0 {
      var bit, rest := Bit(nums[0], b), nums[1..];
      FoldsAll(acc && bit, rest, b);
      FoldsAll(acc || bit, rest, b);
      FoldsAll(acc != bit, rest, b);
      assert forall i :: 0 <= i < |rest| ==> rest[i] == nums[i + 1];
      assert forall i :: 0 < i < |nums| ==> nums[i] == rest[i - 1];
    }
  }

  lemma BitsOf(op: Operator, nums: seq<nat>, b: nat)
    requires |nums| >= Needs(op) && op !in {Add, Sub}
    ensures Bit(ApplyOp(op, nums), b) <==> HasBit(op, nums, b)
  {
    hide Bit, Fold;
    if op in {Lsl, Lsr} {
      ShiftsMoveBits(nums, b);
    } else if |nums| == 0 {
      assert ApplyOp(op, nums) == 0 by { FoldNothing(op, 0); }
      BitOfZero(b);
    } else {
      BitwiseOperators(op, nums, b);
      FoldsAll(false, nums, b);
      FoldsAll(Bit(nums[0], b), nums[1..], b);
      assert forall i :: 0 < i < |nums| ==> nums[i] == nums[1..][i - 1];
    }
  }

  /** Every operator has exactly the value it should. */
  lemma ApplyYields(op: Operator, nums: seq<nat>, v: nat)
    requires |nums| >= Needs(op)
    ensures Yields(op, nums, v) <==> v == ApplyOp(op, nums)
  {
    hide ApplyOp, Bit, Sum, HasBit;
    match op
    case Add => AddIsSum(nums);
    case Sub => SubIsDifference(nums);
    case _ =>
      forall b: nat ensures Bit(ApplyOp(op, nums), b) <==> HasBit(op, nums, b) { BitsOf(op, nums, b); }
      if Yields(op, nums, v) { BitsDetermine(v, ApplyOp(op, nums)); }
  }

  // ---------- expressions ----------

  lemma {:induction false} ValuesAt(args: seq<Expr>, slots: map<nat, nat>, fx: Effect, i: nat)
    requires i < |args| && forall a :: a in args ==> WellFormed(a)
    ensures EvalArgs(args, slots, fx).values[i] == Eval(args[i], slots, fx).value
  {
    if i > 0 { ValuesAt(args[1..], slots, fx, i - 1); }
  }

  lemma {:induction false} NumbersAt(values: seq<Option<nat>>, i: nat)
    requires None !in values && i < |values|
    ensures values[i] == Some(NumbersOf(values)[i])
  {
    assert values[0] in values;
    if i > 0 { NumbersAt(values[1..], i - 1); }
  }

  lemma Low8Is(w: nat, v: nat)
    ensures (forall b: nat :: Bit(v, b) <==> b < 8 && Bit(w, b)) <==> v == w % 256
  {
    EightBits(0);
    assert Mask(0) == 1;
    forall b: nat ensures Bit(w % 256, b) <==> b < 8 && Bit(w, b) { BitOfRemainder(w, 8, w / 256, w % 256, b); }
    hide Bit, Mask;
    if forall b: nat :: Bit(v, b) <==> b < 8 && Bit(w, b) { BitsDetermine(v, w % 256); }
  }

  lemma LowByteIs(w: int, v: nat)
    ensures IsByteOf(w, 0, v) <==> v == w % 256
  {
    assert Bytes.Pow256(0) == 1;
    if IsByteOf(w, 0, v) {
      var above: int, below: nat :| Splits(w, 0, above, v, below);
      assert w == 256 * above + v;
    }
    assert Splits(w, 0, w / 256, w % 256, 0);
  }

  /** Evaluation finds a value exactly where there is one, and that value. */
  lemma {:induction false} EvalDenotes(e: Expr, slots: map<nat, nat>, fx: Effect, v: nat)
    requires WellFormed(e)
    ensures Denotes(e, slots, fx, v) <==> Eval(e, slots, fx).value == Some(v)
    decreases e, 0
  {
    match e
    case Low8(s) => if s in slots { Low8Is(slots[s], v); }
    case ByteLoad(_) => if fx.observed.Some? { LowByteIs(fx.observed.value, v); }
    case Op(op, args) =>
      OperatorDenotes(op, args, slots, fx, v);
    case _ =>
  }

  lemma {:induction false} OperandDenotes(args: seq<Expr>, slots: map<nat, nat>, fx: Effect, i: nat, n: nat)
    requires i < |args| && forall a :: a in args ==> WellFormed(a)
    ensures Denotes(args[i], slots, fx, n) <==> EvalArgs(args, slots, fx).values[i] == Some(n)
    decreases args, 0
  {
    ValuesAt(args, slots, fx, i);
    EvalDenotes(args[i], slots, fx, n);
  }

  lemma {:induction false} OperatorDenotes(op: Operator, args: seq<Expr>, slots: map<nat, nat>, fx: Effect, v: nat)
    requires WellFormed(Op(op, args))
    ensures Denotes(Op(op, args), slots, fx, v) <==> Eval(Op(op, args), slots, fx).value == Some(v)
    decreases args, 1
  {
    var values := EvalArgs(args, slots, fx).values;
    hide Yields, ApplyOp;
    if None !in values {
      var nums := NumbersOf(values);
      forall i: nat | i < |args| ensures values[i] == Some(nums[i]) && Denotes(args[i], slots, fx, nums[i]) {
        NumbersAt(values, i);
        OperandDenotes(args, slots, fx, i, nums[i]);
      }
      ApplyYields(op, nums, v);
      if Denotes(Op(op, args), slots, fx, v) {
        var nums': seq<nat> :| |nums'| == |args| && Yields(op, nums', v)
          && forall i :: 0 <= i < |args| ==> Denotes(args[i], slots, fx, nums'[i]);
        forall i: nat | i < |args| ensures nums'[i] == nums[i] { OperandDenotes(args, slots, fx, i, nums'[i]); }
        assert nums' == nums;
      }
    } else {
      var i: nat :| i < |values| && values[i] == None;
      forall nums: seq<nat> | |nums| == |args|
        ensures exists j: nat :: j < |args| && !Denotes(args[j], slots, fx, nums[j]) {
        OperandDenotes(args, slots, fx, i, nums[i]);
      }
    }
  }

  /** And it notes exactly the leaves that have no answer, in order. */
  lemma {:induction false} EvalAsks(e: Expr, slots: map<nat, nat>, fx: Effect)
    requires WellFormed(e)
    ensures Eval(e, slots, fx).missing == Unanswered(Asks(e), slots)
    decreases e, 1
  {
    if e.Op? { EvalArgsAsk(e.args, slots, fx); }
  }

  lemma {:induction false} EvalArgsAsk(args: seq<Expr>, slots: map<nat, nat>, fx: Effect)
    requires forall a :: a in args ==> WellFormed(a)
    ensures EvalArgs(args, slots, fx).missing == Unanswered(AsksAll(args), slots)
    decreases args, 0
  {
    if |args| > 0 {
      EvalAsks(args[0], slots, fx);
      EvalArgsAsk(args[1..], slots, fx);
      UnansweredSplits(Asks(args[0]), AsksAll(args[1..]), slots);
    }
  }

  lemma {:induction false} UnansweredSplits(a: seq<Missing>, b: seq<Missing>, slots: map<nat, nat>)
    ensures Unanswered(a + b, slots) == Unanswered(a, slots) + Unanswered(b, slots)
  {
    if |b| == 0 {
      assert a + b == a;
    } else {
      UnansweredSplits(a, b[..|b| - 1], slots);
      assert (a + b)[..|a + b| - 1] == a + b[..|b| - 1];
    }
  }

  // ---------- effects ----------

  /**
   * How many bytes a store writes: the recorded width, else one where the text asks for the low byte, else the fewest
   * of 1, 2, 4 and 8 that hold the value, and 8 if none does.
   */
  ghost predicate IsWidth(fx: Effect, value: int, width: nat) {
    if fx.storeWidth.Some? && fx.storeWidth.value != 0 then
      width == if fx.storeWidth.value > 0 then fx.storeWidth.value else 0
    else if StartsWithLow8(fx.rhs) then width == 1
    else
      && width in {1, 2, 4, 8} && (width < 8 ==> value < Bytes.Pow256(width))
      && (width > 1 ==> value >= Bytes.Pow256(width / 2))
  }

  /** The bytes of the value stand at `width` addresses from `addr` up, lowest first; nothing else changes. */
  ghost predicate StoredAt(before: map<nat, nat>, after: map<nat, nat>, addr: nat, value: int, width: nat) {
    forall a: nat ::
      && (a in after <==> a in before || addr <= a < addr + width)
      && (a in after ==>
            if addr <= a < addr + width then IsByteOf(value, a - addr, after[a]) else after[a] == before[a])
  }

  /** The value goes where the left-hand side says: cut to a slot, or spread over bytes. */
  ghost predicate Writes(fx: Effect, value: int, st: State, st': State) {
    match fx.target
    case SlotTarget(s) => st' == st.(slots := st.slots[s := value % TWO_TO_THE_64])
    case MemTarget(Some(addr)) =>
      && st' == st.(mem := st'.mem)
      && exists width: nat :: IsWidth(fx, value, width) && StoredAt(st.mem, st'.mem, addr, value, width)
    case _ => st' == st.(skippedEffects := st.skippedEffects + 1)
  }

  /** One effect: its value if it has one, else the observed one where that is trusted, else nothing. */
  ghost predicate Steps(fx: Effect, st: State, trust: bool, st': State)
    requires WellFormed(fx.rhs)
  {
    if fx.target.Other? then st' == st.(skippedEffects := st.skippedEffects + 1)
    else
      var seen := st.(unresolved := st.unresolved + Unanswered(Asks(fx.rhs), st.slots));
      if exists v: nat :: Denotes(fx.rhs, st.slots, fx, v) then
        exists v: nat :: Denotes(fx.rhs, st.slots, fx, v)
          && Writes(fx, v, seen.(computedEffects := seen.computedEffects + 1), st')
      else if trust && fx.observed.Some? then
        Writes(fx, fx.observed.value, seen.(trustedEffects := seen.trustedEffects + 1), st')
      else st' == seen.(skippedEffects := seen.skippedEffects + 1)
  }

  lemma {:induction false} MaskIsPow(o: nat)
    ensures Mask(8 * o) == Bytes.Pow256(o)
  {
    if o > 0 {
      MaskIsPow(o - 1);
      EightBits(o - 1);
    } else {
      assert Mask(0) == 1;
    }
  }

  lemma SplitIs(v: int, p: nat, above: int, b: nat, below: nat)
    requires p > 0 && b < 256 && below < p && v == (256 * above + b) * p + below
    ensures (v / p) % 256 == b
  {
    var q := 256 * above + b;
    var d: int := q - v / p;
    assert v == (v / p) * p + v % p;
    assert d * p == v % p - below;
    Multiples(d, p);
  }

  /** A number has one byte at every position, and it is the one stores use. */
  lemma ByteOfIs(v: int, o: nat, b: nat)
    ensures IsByteOf(v, o, b) <==> b == Byte(v, o)
  {
    MaskIsPow(o);
    var p := Bytes.Pow256(o);
    hide Bytes.Pow256, Mask;
    if IsByteOf(v, o, b) {
      var above: int, below: nat :| Splits(v, o, above, b, below);
      SplitIs(v, p, above, b, below);
    }
    var q := v / p;
    assert v == q * p + v % p;
    assert q == 256 * (q / 256) + q % 256;
    assert Splits(v, o, q / 256, Byte(v, o), v % p);
  }

  lemma WidthIs(fx: Effect, value: int)
    ensures IsWidth(fx, value, if Width(fx, value) < 0 then 0 else Width(fx, value))
  {
    assert Bytes.Pow256(1) == 0x100 && Bytes.Pow256(2) == 0x1_0000 && Bytes.Pow256(4) == 0x1_0000_0000;
  }

  lemma {:induction false} StoredIs(before: map<nat, nat>, addr: nat, value: int, width: nat)
    ensures StoredAt(before, Stored(before, addr, value, width), addr, value, width)
  {
    var after := Stored(before, addr, value, width);
    forall a: nat
      ensures a in after <==> a in before || addr <= a < addr + width
      ensures a in after ==>
        if addr <= a < addr + width then IsByteOf(value, a - addr, after[a]) else after[a] == before[a] {
      StoredMeans(before, addr, value, width, a);
      if addr <= a < addr + width { ByteOfIs(value, a - addr, after[a]); }
    }
  }

  lemma WriteWrites(fx: Effect, value: int, st: State)
    ensures Writes(fx, value, st, Write(fx, value, st))
  {
    hide IsWidth, StoredAt, Stored, Width;
    if fx.target.MemTarget? && fx.target.addr.Some? {
      WidthIs(fx, value);
      StoredIs(st.mem, fx.target.addr.value, value, if Width(fx, value) < 0 then 0 else Width(fx, value));
    }
  }

  /** What applying one effect does. */
  lemma ApplySteps(fx: Effect, st: State, trust: bool)
    requires WellFormed(fx.rhs)
    ensures Steps(fx, st, trust, Apply(fx, st, trust))
  {
    var r := Eval(fx.rhs, st.slots, fx);
    EvalAsks(fx.rhs, st.slots, fx);
    forall v: nat ensures Denotes(fx.rhs, st.slots, fx, v) <==> r.value == Some(v) {
      EvalDenotes(fx.rhs, st.slots, fx, v);
    }
    hide Eval, Denotes, Write, Writes, Asks, Unanswered;
    var seen := st.(unresolved := st.unresolved + r.missing);
    if r.value.Some? { WriteWrites(fx, r.value.value, seen.(computedEffects := seen.computedEffects + 1)); }
    if fx.observed.Some? { WriteWrites(fx, fx.observed.value, seen.(trustedEffects := seen.trustedEffects + 1)); }
  }

  ghost predicate IsReplay(effects: seq<Effect>, trust: bool, states: seq<State>)
    requires WellFormedPlan(effects)
  {
    && |states| == |effects| + 1
    && forall i :: 0 <= i < |effects| ==> Steps(effects[i], states[i], trust, states[i + 1])
  }

  lemma RunSteps(effects: seq<Effect>, st: State, trust: bool) returns (states: seq<State>)
    requires WellFormedPlan(effects)
    ensures IsReplay(effects, trust, states) && states[0] == st && states[|effects|] == Run(effects, st, trust)
  {
    if |effects| == 0 {
      states := [st];
    } else {
      var next := Apply(effects[0], st, trust);
      ApplySteps(effects[0], st, trust);
      var rest := RunSteps(effects[1..], next, trust);
      states := [st] + rest;
      hide Steps, Apply;
      forall i | 0 <= i < |effects| ensures Steps(effects[i], states[i], trust, states[i + 1]) {
        assert i > 0 ==> effects[i] == effects[1..][i - 1];
      }
    }
  }

  /** A replay is effect after effect from the seeds, cut to slots, and nothing else. */
  lemma ReplaySteps(effects: seq<Effect>, seeds: map<nat, nat>, trust: bool)
    returns (states: seq<State>)
    requires WellFormedPlan(effects)
    ensures IsReplay(effects, trust, states) && states[|effects|] == Replay(effects, seeds, trust)
    ensures states[0] == State(map s | s in seeds :: seeds[s] % TWO_TO_THE_64, map[], 0, 0, 0, [])
  {
    states := RunSteps(effects, Start(seeds), trust);
  }

  // ---------- plans of one assignment ----------

  lemma {:induction false} OneStep(fx: Effect, st: State, trust: bool)
    requires WellFormed(fx.rhs)
    ensures WellFormedPlan([fx]) && Steps(fx, st, trust, Run([fx], st, trust))
  {
    ApplySteps(fx, st, trust);
    hide Steps, Apply;
    assert [fx][1..] == [];
  }

  /** A slot copy moves the slot, cut to 64 bits; a copy of the low byte its low eight bits. */
  lemma {:induction false} SlotCopies(fx: Effect, st: State, trust: bool, from: nat, to: nat)
    requires fx.target == SlotTarget(to) && from in st.slots && fx.rhs in {Slot(from), Low8(from)}
    ensures var slots := Run([fx], st, trust).slots;
      && to in slots && slots == st.slots[to := slots[to]]
      && (fx.rhs == Slot(from) ==> slots[to] == st.slots[from] % TWO_TO_THE_64)
      && (fx.rhs == Low8(from) ==> forall b: nat :: Bit(slots[to], b) <==> b < 8 && Bit(st.slots[from], b))
  {
    OneStep(fx, st, trust);
    Low8Is(st.slots[from], st.slots[from] % 256);
    assert Denotes(fx.rhs, st.slots, fx, if fx.rhs.Slot? then st.slots[from] else st.slots[from] % 256);
    forall v: nat | Denotes(fx.rhs, st.slots, fx, v) && fx.rhs.Low8? ensures v == st.slots[from] % 256 {
      Low8Is(st.slots[from], v);
    }
    hide Bit, Asks, Unanswered, Run;
  }
}
