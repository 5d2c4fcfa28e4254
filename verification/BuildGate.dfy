/** The gate that limits concurrent builds: callers as a state machine over the steps taken under its lock. */
module BuildGate {
  import opened Numbers

  /** Where a caller stands: a sleeper waits on the condition variable, a woken one waits for the lock. */
  datatype Caller = Out | Sleeping | Notified | TimedOut | Holding

  datatype State = State(active: nat, callers: seq<Caller>)

  /** Each caller asks with a maximum of its own; zero counts as one. */
  type Maxima = seq<nat>

  function Limit(maximum: nat): nat { if maximum >= 1 then maximum else 1 }

  datatype Step =
    | Acquire(expired: bool)
    | WakeSpuriously
    | TimeOut
    | Resume(expired: bool)
    | DropNotifying(sleeper: nat)
    | DropUnheard

  ghost predicate Init(s: State) {
    s.active == 0 && forall t :: 0 <= t < |s.callers| ==> s.callers[t] == Out
  }

  function At(s: State, t: nat, active: nat, caller: Caller): State
    requires t < |s.callers|
  {
    State(active, s.callers[t := caller])
  }

  /** One pass of the loop: take a free slot; else fail when the deadline has passed; else sleep. */
  function Pass(s: State, t: nat, limit: nat, expired: bool): State
    requires t < |s.callers|
  {
    if s.active < limit then At(s, t, s.active + 1, Holding)
    else if expired then At(s, t, s.active, Out)
    else At(s, t, s.active, Sleeping)
  }

  function Decremented(active: nat): nat { if active > 0 then active - 1 else 0 }

  /** Caller `t` takes one step; everything between locking and unlocking (or sleeping) is one step. */
  ghost predicate Next(maxima: Maxima, s: State, t: nat, step: Step, s': State) {
    && t < |s.callers| && |maxima| == |s.callers|
    && var limit := Limit(maxima[t]);
    match step
    case Acquire(expired) => s.callers[t] == Out && s' == Pass(s, t, limit, expired)
    case WakeSpuriously => s.callers[t] == Sleeping && s' == At(s, t, s.active, Notified)
    case TimeOut => s.callers[t] == Sleeping && s' == At(s, t, s.active, TimedOut)
    case Resume(expired) =>
      if s.callers[t] == TimedOut && s.active >= limit then s' == At(s, t, s.active, Out)
      else s.callers[t] in {Notified, TimedOut} && s' == Pass(s, t, limit, expired)
    case DropNotifying(u) =>
      && s.callers[t] == Holding && u < |s.callers| && s.callers[u] == Sleeping
      && s' == At(At(s, t, Decremented(s.active), Out), u, Decremented(s.active), Notified)
    case DropUnheard =>
      && s.callers[t] == Holding && Count(s.callers, Sleeping) == 0
      && s' == At(s, t, Decremented(s.active), Out)
  }

  // ---------- counting callers ----------

  ghost function Count(callers: seq<Caller>, c: Caller): nat {
    if |callers| == 0 then 0 else Count(callers[..|callers| - 1], c) + (if callers[|callers| - 1] == c then 1 else 0)
  }

  lemma CountUpdate(callers: seq<Caller>, t: nat, to': Caller, c: Caller)
    requires t < |callers|
    ensures Count(callers[t := to'], c) + (if callers[t] == c then 1 else 0)
      == Count(callers, c) + (if to' == c then 1 else 0)
  {
    var front := callers[..|callers| - 1];
    if t == |front| {
      assert callers[t := to'][..|front|] == front;
    } else {
      CountUpdate(front, t, to', c);
      assert callers[t := to'][..|front|] == front[t := to'];
    }
  }

  lemma CountFound(callers: seq<Caller>, c: Caller) returns (t: nat)
    requires Count(callers, c) > 0
    ensures t < |callers| && callers[t] == c
  {
    if callers[|callers| - 1] == c { t := |callers| - 1; } else { t := CountFound(callers[..|callers| - 1], c); }
  }

  lemma {:induction false} CountNone(callers: seq<Caller>, c: Caller)
    requires forall t :: 0 <= t < |callers| ==> callers[t] != c
    ensures Count(callers, c) == 0
  {
    if |callers| > 0 { CountNone(callers[..|callers| - 1], c); }
  }

  lemma {:induction false} CountHas(callers: seq<Caller>, t: nat)
    requires t < |callers|
    ensures Count(callers, callers[t]) > 0
  {
    if t < |callers| - 1 { CountHas(callers[..|callers| - 1], t); }
  }

  // ---------- what every step keeps when all callers ask with the same maximum ----------

  ghost predicate Uniform(maxima: Maxima, limit: nat) {
    forall t :: 0 <= t < |maxima| ==> Limit(maxima[t]) == limit
  }

  /** The slots taken are the live permits, and while anybody sleeps every free slot has a woken caller on its way. */
  ghost predicate Inv(s: State, limit: nat) {
    && s.active == Count(s.callers, Holding) && s.active <= limit
    && (Count(s.callers, Sleeping) > 0 ==> Count(s.callers, Notified) >= limit - s.active)
  }

  lemma {:induction false} CountsAfter(callers: seq<Caller>, t: nat, to': Caller)
    requires t < |callers|
    ensures forall c {:trigger Count(callers[t := to'], c)} ::
      Count(callers[t := to'], c)
      == Count(callers, c) + (if to' == c then 1 else 0) - (if callers[t] == c then 1 else 0)
  {
    forall c ensures Count(callers[t := to'], c)
      == Count(callers, c) + (if to' == c then 1 else 0) - (if callers[t] == c then 1 else 0)
    {
      CountUpdate(callers, t, to', c);
    }
  }

  lemma PassKeeps(s: State, t: nat, limit: nat, expired: bool)
    requires Inv(s, limit) && t < |s.callers| && s.callers[t] in {Out, Notified, TimedOut}
    ensures Inv(Pass(s, t, limit, expired), limit)
  {
    hide Count;
    CountsAfter(s.callers, t, Holding);
    CountsAfter(s.callers, t, Out);
    CountsAfter(s.callers, t, Sleeping);
  }

  lemma DropKeeps(s: State, t: nat, u: nat, limit: nat)
    requires Inv(s, limit) && t < |s.callers| && u < |s.callers| && s.callers[t] == Holding && s.callers[u] == Sleeping
    ensures s.active > 0
    ensures Inv(At(At(s, t, s.active - 1, Out), u, s.active - 1, Notified), limit)
  {
    CountHas(s.callers, t);
    hide Count;
    var mid := s.callers[t := Out];
    CountsAfter(s.callers, t, Out);
    CountsAfter(mid, u, Notified);
  }

  lemma StepKeepsInv(maxima: Maxima, s: State, t: nat, step: Step, s': State, limit: nat)
    requires Uniform(maxima, limit) && Inv(s, limit) && Next(maxima, s, t, step, s')
    ensures Inv(s', limit)
  {
    assert Limit(maxima[t]) == limit;
    hide Uniform;
    match step {
      case Acquire(expired) => PassKeeps(s, t, limit, expired);
      case WakeSpuriously => hide Count; CountsAfter(s.callers, t, Notified);
      case TimeOut => hide Count; CountsAfter(s.callers, t, TimedOut);
      case Resume(expired) =>
        hide Count;
        if s.callers[t] == TimedOut && s.active >= limit {
          CountsAfter(s.callers, t, Out);
        } else {
          PassKeeps(s, t, limit, expired);
        }
      case DropNotifying(u) => DropKeeps(s, t, u, limit);
      case DropUnheard =>
        CountHas(s.callers, t);
        hide Count;
        CountsAfter(s.callers, t, Out);
    }
  }

  // ---------- whole runs ----------

  type Move = (nat, Step)

  ghost predicate IsRun(maxima: Maxima, states: seq<State>, moves: seq<Move>) {
    && |states| == |moves| + 1 && Init(states[0])
    && forall i :: 0 <= i < |moves| ==> Next(maxima, states[i], moves[i].0, moves[i].1, states[i + 1])
  }

  lemma RunKeepsInv(maxima: Maxima, states: seq<State>, moves: seq<Move>, i: nat, limit: nat)
    requires IsRun(maxima, states, moves) && i < |states| && Uniform(maxima, limit)
    ensures Inv(states[i], limit)
  {
    hide Inv, Next, Uniform;
    if i == 0 {
      StartsWell(states[0], limit);
    } else {
      RunKeepsInv(maxima, states, moves, i - 1, limit);
      StepKeepsInv(maxima, states[i - 1], moves[i - 1].0, moves[i - 1].1, states[i], limit);
    }
  }

  lemma StartsWell(s: State, limit: nat)
    requires Init(s)
    ensures Inv(s, limit)
  {
    CountNone(s.callers, Holding);
    CountNone(s.callers, Sleeping);
  }

  /**
   * In every run with one maximum: `active` is the number of live permits, never above the maximum, and no wakeup is
   * lost; with slots free and callers asleep, at least min(free, asleep) woken callers are still to run.
   */
  lemma GateHolds(maxima: Maxima, states: seq<State>, moves: seq<Move>, i: nat, limit: nat)
    requires IsRun(maxima, states, moves) && i < |states| && Uniform(maxima, limit)
    ensures var s := states[i];
      && s.active == Count(s.callers, Holding) <= limit
      && Count(s.callers, Notified) >= Min(limit - s.active, Count(s.callers, Sleeping))
  {
    RunKeepsInv(maxima, states, moves, i, limit);
    hide IsRun, Uniform, Count;
  }

  /** With a slot free and a caller asleep, some woken caller's next step takes a slot, whatever its deadline. */
  lemma FreeSlotIsTaken(maxima: Maxima, states: seq<State>, moves: seq<Move>, i: nat, limit: nat, expired: bool)
      returns (t: nat, s': State)
    requires IsRun(maxima, states, moves) && i < |states| && Uniform(maxima, limit) && |maxima| == |states[i].callers|
    requires states[i].active < limit && Count(states[i].callers, Sleeping) > 0
    ensures t < |states[i].callers| && states[i].callers[t] == Notified
    ensures Next(maxima, states[i], t, Resume(expired), s') && s'.callers[t] == Holding
  {
    RunKeepsInv(maxima, states, moves, i, limit);
    t := CountFound(states[i].callers, Notified);
    hide Count, IsRun;
    s' := At(states[i], t, states[i].active + 1, Holding);
    assert Limit(maxima[t]) == limit;
  }

  /**
   * Corollary: a caller that was asleep or has just arrived fails only while as many permits are live as the
   * maximum allows.
   */
  lemma FailsOnlyWhenFull(maxima: Maxima, states: seq<State>, moves: seq<Move>, i: nat, limit: nat)
    requires IsRun(maxima, states, moves) && i < |moves| && Uniform(maxima, limit)
    requires var s, s', t := states[i], states[i + 1], moves[i].0;
      t < |s.callers| && t < |s'.callers| && s.callers[t] != Holding && s'.callers[t] == Out
    ensures Count(states[i].callers, Holding) == limit
  {
    RunKeepsInv(maxima, states, moves, i, limit);
    assert Next(maxima, states[i], moves[i].0, moves[i].1, states[i + 1]) && Limit(maxima[moves[i].0]) == limit;
    hide Count, IsRun, Uniform;
  }

  /** Corollary: asking without waiting gets a permit exactly when fewer are live, and otherwise changes nothing. */
  lemma ZeroWaitIffFree(maxima: Maxima, states: seq<State>, moves: seq<Move>, i: nat, limit: nat)
    requires IsRun(maxima, states, moves) && i < |moves| && Uniform(maxima, limit) && moves[i].1 == Acquire(true)
    ensures states[i + 1].callers[moves[i].0] == Holding <==> Count(states[i].callers, Holding) < limit
    ensures states[i + 1].callers[moves[i].0] != Holding ==> states[i + 1] == states[i]
  {
    var s, t := states[i], moves[i].0;
    RunKeepsInv(maxima, states, moves, i, limit);
    assert Next(maxima, s, t, Acquire(true), states[i + 1]) && Limit(maxima[t]) == limit;
    hide Count, IsRun, Uniform;
    assert s.callers[t := Out] == s.callers;
  }

  // ---------- exactly which maxima are safe ----------

  /** A caller sleeps beside a slot free to it, and nobody is awake who could pass the wakeup on. */
  ghost predicate Lost(maxima: Maxima, s: State) {
    && |maxima| == |s.callers|
    && (exists t :: 0 <= t < |s.callers| && s.callers[t] == Sleeping && s.active < Limit(maxima[t]))
    && (forall t :: 0 <= t < |s.callers| ==> s.callers[t] !in {Notified, TimedOut})
  }

  ghost predicate Among(maxima: Maxima, a: nat, b: nat) {
    forall t :: 0 <= t < |maxima| ==> maxima[t] in {a, b}
  }

  /** However many callers ask with one of the two maxima, and however they interleave. */
  ghost predicate NeverLoses(a: nat, b: nat) {
    forall maxima: Maxima, states: seq<State>, moves: seq<Move>, i: nat ::
      Among(maxima, a, b) && IsRun(maxima, states, moves) && i < |states| ==> !Lost(maxima, states[i])
  }

  lemma OneMaximumNeverLoses(maxima: Maxima, states: seq<State>, moves: seq<Move>, i: nat, limit: nat)
    requires IsRun(maxima, states, moves) && i < |states| && Uniform(maxima, limit)
    ensures !Lost(maxima, states[i])
  {
    RunKeepsInv(maxima, states, moves, i, limit);
    var s := states[i];
    hide IsRun, Count;
    if t :| 0 <= t < |s.callers| && |maxima| == |s.callers| && s.callers[t] == Sleeping && s.active < Limit(maxima[t]) {
      CountHas(s.callers, t);
      var u := CountFound(s.callers, Notified);
    }
  }

  /**
   * The run that loses a wakeup: as many callers as the greater maximum allows take all permits, a caller with the
   * lesser maximum and one with the greater go to sleep, a drop wakes the former, and it may not enter.
   */
  function CallerAt(h: nat, i: nat, t: nat): Caller {
    if t < h then (if t < i && !(t == 0 && i >= h + 3) then Holding else Out)
    else if t == h then (if i <= h then Out else if i == h + 3 then Notified else Sleeping)
    else if i <= h + 1 then Out
    else Sleeping
  }

  function StateAt(h: nat, i: nat): (s: State)
    ensures |s.callers| == h + 2 && forall t :: 0 <= t < h + 2 ==> s.callers[t] == CallerAt(h, i, t)
  {
    State(if i <= h then i else if i <= h + 2 then h else Decremented(h),
      seq(h + 2, t requires 0 <= t => CallerAt(h, i, t)))
  }

  function MoveAt(h: nat, i: nat): Move {
    if i == h + 2 then (0, DropNotifying(h))
    else if i == h + 3 then (h, Resume(false))
    else (i, Acquire(false))
  }

  function MaximaOf(a: nat, b: nat, h: nat): (maxima: Maxima)
    ensures |maxima| == h + 2 && forall t :: 0 <= t < h + 2 ==> maxima[t] == if t == h then a else b
  {
    seq(h + 2, t => if t == h then a else b)
  }

  lemma LosingStep(a: nat, b: nat, h: nat, i: nat)
    requires Limit(a) < Limit(b) == h && i < h + 4
    ensures Next(MaximaOf(a, b, h), StateAt(h, i), MoveAt(h, i).0, MoveAt(h, i).1, StateAt(h, i + 1))
  {
    var s, s' := StateAt(h, i), StateAt(h, i + 1);
    hide Count, MaximaOf;
    if i < h {
      assert s'.callers == s.callers[i := Holding];
    } else if i <= h + 1 {
      assert s'.callers == s.callers[i := Sleeping];
    } else if i == h + 2 {
      assert s'.callers == s.callers[0 := Out][h := Notified];
    } else {
      assert s'.callers == s.callers[h := Sleeping];
    }
  }

  lemma TwoMaximaLose(a: nat, b: nat)
    requires Limit(a) < Limit(b)
    ensures !NeverLoses(a, b) && !NeverLoses(b, a)
  {
    var h := Limit(b);
    var maxima := MaximaOf(a, b, h);
    var states := seq(h + 5, i requires 0 <= i => StateAt(h, i));
    var moves := seq(h + 4, i requires 0 <= i => MoveAt(h, i));
    forall i | 0 <= i < |moves| ensures Next(maxima, states[i], moves[i].0, moves[i].1, states[i + 1]) {
      LosingStep(a, b, h, i);
    }
    hide Next, MaximaOf;
    assert IsRun(maxima, states, moves);
    hide IsRun;
    var last: nat := h + 4;
    assert states[last].callers[h + 1] == Sleeping && maxima[h + 1] == b;
    assert Lost(maxima, states[last]);
    assert Among(maxima, a, b) && Among(maxima, b, a);
  }

  /** No run of callers asking with either of two maxima loses a wakeup if and only if the two allow the same number. */
  lemma NoWakeupLostIff(a: nat, b: nat)
    ensures NeverLoses(a, b) <==> Limit(a) == Limit(b)
  {
    if Limit(a) == Limit(b) {
      forall maxima: Maxima, states: seq<State>, moves: seq<Move>, i: nat
        | Among(maxima, a, b) && IsRun(maxima, states, moves) && i < |states|
        ensures !Lost(maxima, states[i])
      {
        OneMaximumNeverLoses(maxima, states, moves, i, Limit(a));
      }
    } else if Limit(a) < Limit(b) {
      TwoMaximaLose(a, b);
    } else {
      TwoMaximaLose(b, a);
    }
  }
}
