/** The same writer as threads interleave: every shared step under the mutex, writes split at will. */
module CaptureProtocol {
  import opened Bytes
  import opened RingSlots

  /** Where a thread stands. */
  datatype Pc =
    | Idle
    | WantInsn(rec: Record)
    | WantFlush
    | Enter(rec: Record)
    | EnterFlush
    | Stored(rec: Record)
    | Draining(h: nat, done: nat)
    | Leave

  datatype State = State(
    slots: seq<Record>,
    head: nat,
    tail: nat,
    active: bool,
    file: seq<Byte>,
    owner: int,
    pcs: seq<Pc>,
    produced: seq<Record>)

  const NOBODY: int := -1

  ghost predicate Init(s: State) {
    && |s.slots| > 0 && s.head == 0 && s.tail == 0 && s.active && s.file == [] && s.owner == NOBODY && s.produced == []
    && forall t :: 0 <= t < |s.pcs| ==> s.pcs[t] == Idle
  }

  predicate InCritical(pc: Pc) { pc.Enter? || pc.EnterFlush? || pc.Stored? || pc.Draining? || pc.Leave? }

  function Chunk(s: State, h: nat): seq<Byte>
    requires |s.slots| > 0 && s.tail < h
  {
    var offset, count := s.tail % |s.slots|, ChunkLen(|s.slots|, s.tail, h);
    Flatten(s.slots[offset..offset + count])
  }

  function At(s: State, t: nat, pc: Pc): State
    requires t < |s.pcs|
  {
    s.(pcs := s.pcs[t := pc])
  }

  datatype Step =
    | CallInsn(rec: Record)
    | CallFlush
    | Acquire
    | Refuse
    | Store
    | Commit
    | Stop
    | WriteSome(n: nat)
    | WriteFails
    | AdvanceTail
    | EndDrain
    | Release

  /** Thread `t` takes one step. */
  ghost predicate Next(s: State, t: nat, step: Step, s': State) {
    && t < |s.pcs| && |s.slots| > 0
    && var pc := s.pcs[t];
    match step
    case CallInsn(rec) => pc == Idle && s' == At(s, t, WantInsn(rec))
    case CallFlush => pc == Idle && s' == At(s, t, WantFlush)
    case Acquire =>
      && s.owner == NOBODY && (pc.WantInsn? || pc.WantFlush?)
      && s' == At(s, t, if pc.WantInsn? then Enter(pc.rec) else EnterFlush).(owner := t)
    case Refuse => pc.Enter? && !s.active && s' == At(s, t, Leave)
    case Store =>
      && pc.Enter? && s.active
      && s' == At(s, t, Stored(pc.rec)).(slots := s.slots[s.head % |s.slots| := pc.rec])
    case Commit =>
      && pc.Stored?
      && s' == At(s, t, if s.head + 1 - s.tail == |s.slots| then Draining(s.head + 1, 0) else Leave)
               .(head := s.head + 1, produced := s.produced + [pc.rec])
    case Stop => pc.EnterFlush? && s' == At(s, t, Draining(s.head, 0)).(active := false)
    case WriteSome(n) =>
      && pc.Draining? && s.tail < pc.h && n > 0 && pc.done + n <= |Chunk(s, pc.h)|
      && s' == At(s, t, Draining(pc.h, pc.done + n)).(file := s.file + Chunk(s, pc.h)[pc.done..pc.done + n])
    case WriteFails => pc.Draining? && s.tail < pc.h && pc.done < |Chunk(s, pc.h)| && s' == s
    case AdvanceTail =>
      && pc.Draining? && s.tail < pc.h && pc.done == |Chunk(s, pc.h)|
      && s' == At(s, t, Draining(pc.h, 0)).(tail := s.tail + ChunkLen(|s.slots|, s.tail, pc.h))
    case EndDrain => pc.Draining? && s.tail >= pc.h && s' == At(s, t, Leave)
    case Release => pc.Leave? && s' == At(s, t, Idle).(owner := NOBODY)
  }

  // ---------- what every step keeps ----------

  /** Only the owner of the mutex is inside. */
  ghost predicate Exclusive(s: State) {
    && (s.owner == NOBODY || 0 <= s.owner < |s.pcs|)
    && (forall t :: 0 <= t < |s.pcs| ==> (InCritical(s.pcs[t]) <==> t == s.owner))
  }

  /** What the thread inside is doing; `Idle` when nobody is. */
  ghost function Doing(s: State): Pc
    requires Exclusive(s)
  {
    if s.owner == NOBODY then Idle else s.pcs[s.owner]
  }

  /** The shared state, given what the thread inside is doing. */
  ghost predicate Consistent(slots: seq<Record>, head: nat, tail: nat, active: bool, file: seq<Byte>,
      produced: seq<Record>, pc: Pc) {
    && |produced| == head && Holds(slots, produced, tail, head)
    && (!pc.Draining? ==> head - tail < |slots| && file == Flatten(produced[..tail]))
    && (pc.Draining? ==>
          && pc.h == head
          && (tail == head ==> pc.done == 0)
          && var next := if tail < head then produced[tail..tail + ChunkLen(|slots|, tail, head)] else [];
             pc.done <= |Flatten(next)| && file == Flatten(produced[..tail]) + Flatten(next)[..pc.done])
    && (pc.Stored? ==> active && slots[head % |slots|] == pc.rec)
    && (!active && !pc.Draining? ==> tail == head)
  }

  ghost predicate Inv(s: State) {
    Exclusive(s) && Consistent(s.slots, s.head, s.tail, s.active, s.file, s.produced, Doing(s))
  }

  lemma InitInv(s: State)
    requires Init(s)
    ensures Inv(s)
  {}

  lemma StepKeepsExclusive(s: State, t: nat, step: Step, s': State)
    requires Exclusive(s) && Next(s, t, step, s')
    ensures Exclusive(s')
    ensures InCritical(s.pcs[t]) ==> Doing(s) == s.pcs[t]
    ensures Doing(s') ==
      if s.owner == NOBODY || s.owner == t then (if InCritical(s'.pcs[t]) then s'.pcs[t] else Idle) else Doing(s)
  {
    hide Chunk, Flatten;
  }

  lemma CommitKeeps(slots: seq<Record>, head: nat, tail: nat, active: bool, file: seq<Byte>, produced: seq<Record>,
      pc: Pc)
    requires pc.Stored? && Consistent(slots, head, tail, active, file, produced, pc)
    ensures Consistent(slots, head + 1, tail, active, file, produced + [pc.rec],
              if head + 1 - tail == |slots| then Draining(head + 1, 0) else Leave)
  {
    hide Flatten;
    StoreKeeps(slots, produced, tail, head, pc.rec);
    assert slots[head % |slots| := pc.rec] == slots;
    assert (produced + [pc.rec])[..tail] == produced[..tail];
  }

  lemma StoreStepKeeps(slots: seq<Record>, head: nat, tail: nat, file: seq<Byte>, produced: seq<Record>, pc: Pc)
    requires pc.Enter? && Consistent(slots, head, tail, true, file, produced, pc)
    ensures Consistent(slots[head % |slots| := pc.rec], head, tail, true, file, produced, Stored(pc.rec))
  {
    StoreKeeps(slots, produced, tail, head, pc.rec);
    hide Flatten;
  }

  /** The bytes about to be written out of the slots are those of the next records. */
  lemma ChunkIsNext(s: State, h: nat)
    requires Holds(s.slots, s.produced, s.tail, h) && s.tail < h
    ensures Chunk(s, h) == Flatten(s.produced[s.tail..s.tail + ChunkLen(|s.slots|, s.tail, h)])
  {
    ChunkIsRecords(s.slots, s.produced, s.tail, h);
  }

  lemma WriteKeeps(s: State, pc: Pc, n: nat)
    requires pc.Draining? && Consistent(s.slots, s.head, s.tail, s.active, s.file, s.produced, pc)
    requires s.tail < s.head && pc.done + n <= |Chunk(s, s.head)|
    ensures Consistent(s.slots, s.head, s.tail, s.active, s.file + Chunk(s, s.head)[pc.done..pc.done + n], s.produced,
              Draining(pc.h, pc.done + n))
  {
    ChunkIsNext(s, s.head);
    var bytes := Chunk(s, s.head);
    hide Flatten, Chunk, ChunkLen, Holds;
    assert bytes[..pc.done] + bytes[pc.done..pc.done + n] == bytes[..pc.done + n];
  }

  lemma AdvanceKeeps(s: State, pc: Pc)
    requires pc.Draining? && Consistent(s.slots, s.head, s.tail, s.active, s.file, s.produced, pc)
    requires s.tail < s.head && pc.done == |Chunk(s, s.head)|
    ensures Consistent(s.slots, s.head, s.tail + ChunkLen(|s.slots|, s.tail, s.head), s.active, s.file, s.produced,
      Draining(pc.h, 0))
  {
    ChunkIsNext(s, s.head);
    var bytes, count := Chunk(s, s.head), ChunkLen(|s.slots|, s.tail, s.head);
    FlattenPrefix(s.produced, s.tail, s.tail + count);
    assert bytes[..pc.done] == bytes;
    assert s.file == Flatten(s.produced[..s.tail + count]);
    HoldsFurther(s.slots, s.produced, s.tail, s.head, count);
    hide Flatten, Chunk, ChunkLen, Holds;
    NothingWritten(s.slots, s.head, s.tail + count, s.active, s.file, s.produced);
  }

  lemma HoldsFurther(slots: seq<Record>, records: seq<Record>, tail: nat, head: nat, count: nat)
    requires Holds(slots, records, tail, head) && tail + count <= head
    ensures Holds(slots, records, tail + count, head)
  {}

  /** Between chunks the file ends with the record before the tail. */
  lemma NothingWritten(slots: seq<Record>, head: nat, tail: nat, active: bool, file: seq<Byte>, produced: seq<Record>)
    requires |produced| == head && Holds(slots, produced, tail, head) && file == Flatten(produced[..tail])
    ensures Consistent(slots, head, tail, active, file, produced, Draining(head, 0))
  {
    assert Flatten([]) == [];
    hide Flatten;
    var next := if tail < head then produced[tail..tail + ChunkLen(|slots|, tail, head)] else [];
    assert Flatten(next)[..0] == [] && Flatten(produced[..tail]) + [] == Flatten(produced[..tail]);
  }

  /** Steps that only move a thread on, or stop capture. */
  lemma MoveKeeps(s: State, pc: Pc, pc': Pc)
    requires Consistent(s.slots, s.head, s.tail, s.active, s.file, s.produced, pc)
    ensures (pc.Idle? && (pc'.Enter? || pc'.EnterFlush?)) || (pc.Enter? && pc' == Leave) || (pc.Leave? && pc'.Idle?)
            || (pc.Draining? && s.tail >= pc.h && pc' == Leave)
            ==> Consistent(s.slots, s.head, s.tail, s.active, s.file, s.produced, pc')
    ensures pc.EnterFlush? ==> Consistent(s.slots, s.head, s.tail, false, s.file, s.produced, Draining(s.head, 0))
  {
    assert Flatten([]) == [];
    hide Flatten;
    assert Flatten(s.produced[..s.tail]) + [] == Flatten(s.produced[..s.tail]);
  }

  lemma StepKeepsInv(s: State, t: nat, step: Step, s': State)
    requires Inv(s) && Next(s, t, step, s')
    ensures Inv(s')
  {
    StepKeepsExclusive(s, t, step, s');
    StepKeepsConsistent(s, t, step, s');
    hide Next, Exclusive, Consistent;
  }

  lemma StepKeepsConsistent(s: State, t: nat, step: Step, s': State)
    requires Inv(s) && Next(s, t, step, s') && Exclusive(s')
    requires InCritical(s.pcs[t]) ==> Doing(s) == s.pcs[t]
    requires Doing(s') ==
      if s.owner == NOBODY || s.owner == t then (if InCritical(s'.pcs[t]) then s'.pcs[t] else Idle) else Doing(s)
    ensures Consistent(s'.slots, s'.head, s'.tail, s'.active, s'.file, s'.produced, Doing(s'))
  {
    var pc := s.pcs[t];
    hide Exclusive, Consistent, Flatten, Chunk, ChunkLen, Holds, Doing;
    match step {
      case CallInsn(_) =>
      case CallFlush =>
      case Store => StoreStepKeeps(s.slots, s.head, s.tail, s.file, s.produced, pc);
      case Commit => CommitKeeps(s.slots, s.head, s.tail, s.active, s.file, s.produced, pc);
      case WriteSome(_) => DrainStepKeeps(s, t, step, s');
      case WriteFails => DrainStepKeeps(s, t, step, s');
      case AdvanceTail => DrainStepKeeps(s, t, step, s');
      case EndDrain => DrainStepKeeps(s, t, step, s');
      case _ => MoveKeeps(s, Doing(s), s'.pcs[t]);
    }
  }

  lemma DrainStepKeeps(s: State, t: nat, step: Step, s': State)
    requires Next(s, t, step, s') && s.pcs[t].Draining?
    requires Consistent(s.slots, s.head, s.tail, s.active, s.file, s.produced, s.pcs[t])
    ensures Consistent(s'.slots, s'.head, s'.tail, s'.active, s'.file, s'.produced, s'.pcs[t])
  {
    var pc := s.pcs[t];
    assert pc.h == s.head;
    hide Consistent, Flatten, Chunk, ChunkLen, Holds;
    match step {
      case WriteSome(n) => WriteKeeps(s, pc, n);
      case AdvanceTail => AdvanceKeeps(s, pc);
      case EndDrain => MoveKeeps(s, pc, Leave);
      case _ =>
    }
  }

  // ---------- whole runs ----------

  type Move = (nat, Step)

  ghost predicate IsRun(states: seq<State>, moves: seq<Move>) {
    && |states| == |moves| + 1 && Init(states[0])
    && forall i :: 0 <= i < |moves| ==> Next(states[i], moves[i].0, moves[i].1, states[i + 1])
  }

  lemma RunKeepsInv(states: seq<State>, moves: seq<Move>, i: nat)
    requires IsRun(states, moves) && i < |states|
    ensures Inv(states[i])
  {
    hide Inv, Next;
    if i == 0 {
      InitInv(states[0]);
    } else {
      RunKeepsInv(states, moves, i - 1);
      StepKeepsInv(states[i - 1], moves[i - 1].0, moves[i - 1].1, states[i]);
    }
  }

  /** At every moment of every run the file is the stream of records, cut off somewhere; never more, never garbled. */
  lemma FileIsPrefix(states: seq<State>, moves: seq<Move>, i: nat)
    requires IsRun(states, moves) && i < |states|
    ensures states[i].file <= Flatten(states[i].produced)
    ensures states[i].tail <= |states[i].produced| && Flatten(states[i].produced[..states[i].tail]) <= states[i].file
  {
    RunKeepsInv(states, moves, i);
    var s := states[i];
    hide IsRun, Exclusive, Next, Consistent;
    ConsistentPrefix(s, Doing(s));
  }

  lemma ConsistentPrefix(s: State, pc: Pc)
    requires Consistent(s.slots, s.head, s.tail, s.active, s.file, s.produced, pc)
    ensures s.file <= Flatten(s.produced)
    ensures s.tail <= |s.produced| && Flatten(s.produced[..s.tail]) <= s.file
  {
    hide Flatten;
    FlattenPrefix(s.produced, s.tail, s.head);
    assert s.produced[..s.head] == s.produced;
    if s.tail < s.head && pc.Draining? {
      var count := ChunkLen(|s.slots|, s.tail, s.head);
      FlattenPrefix(s.produced, s.tail, s.tail + count);
      FlattenPrefix(s.produced, s.tail + count, s.head);
    }
  }

  /** Once capture is stopped and the mutex is free again, the file is every record produced, in order, once each. */
  lemma FlushedIsComplete(states: seq<State>, moves: seq<Move>, i: nat)
    requires IsRun(states, moves) && i < |states| && !states[i].active && states[i].owner == NOBODY
    ensures states[i].file == Flatten(states[i].produced)
  {
    RunKeepsInv(states, moves, i);
    assert states[i].produced[..states[i].head] == states[i].produced;
    hide IsRun, Flatten;
  }

  lemma StoppedStep(s: State, t: nat, step: Step, s': State)
    requires Inv(s) && Next(s, t, step, s') && !s.active
    ensures !s'.active && s'.produced == s.produced
  {
    StepKeepsExclusive(s, t, step, s');
    hide Flatten, Chunk, Exclusive;
  }

  /** Nothing is produced after the stop, so a flushed file stays complete however the run goes on. */
  lemma StoppedForGood(states: seq<State>, moves: seq<Move>, i: nat, j: nat)
    requires IsRun(states, moves) && i <= j < |states| && !states[i].active
    ensures !states[j].active && states[j].produced == states[i].produced
    decreases j
  {
    hide Inv, Next;
    if i < j {
      StoppedForGood(states, moves, i, j - 1);
      RunKeepsInv(states, moves, j - 1);
      StoppedStep(states[j - 1], moves[j - 1].0, moves[j - 1].1, states[j]);
    }
  }

  /** A call that found capture on is committed under the same hold of the mutex: no flush comes between. */
  lemma StoredMeansActive(states: seq<State>, moves: seq<Move>, i: nat, t: nat)
    requires IsRun(states, moves) && i < |states| && t < |states[i].pcs| && states[i].pcs[t].Stored?
    ensures states[i].active && states[i].owner == t
  {
    RunKeepsInv(states, moves, i);
    hide IsRun, Flatten;
  }

  /** No deadlock: while some thread is in a call, some thread can step. */
  lemma NeverStuck(s: State, t: nat) returns (u: nat, step: Step, s': State)
    requires Inv(s) && t < |s.pcs| && s.pcs[t] != Idle
    ensures Next(s, u, step, s') && !step.CallInsn? && !step.CallFlush?
  {
    assert |s.slots| > 0;
    if s.owner == NOBODY {
      u, step := t, Acquire;
      s' := At(s, t, if s.pcs[t].WantInsn? then Enter(s.pcs[t].rec) else EnterFlush).(owner := t);
    } else {
      u := s.owner;
      var pc := s.pcs[u];
      match pc {
        case Enter(rec) =>
          if s.active {
            step, s' := Store, At(s, u, Stored(rec)).(slots := s.slots[s.head % |s.slots| := rec]);
          } else {
            step, s' := Refuse, At(s, u, Leave);
          }
        case Stored(rec) =>
          step := Commit;
          s' := At(s, u, if s.head + 1 - s.tail == |s.slots| then Draining(s.head + 1, 0) else Leave)
                .(head := s.head + 1, produced := s.produced + [rec]);
        case EnterFlush =>
          step, s' := Stop, At(s, u, Draining(s.head, 0)).(active := false);
        case Leave =>
          step, s' := Release, At(s, u, Idle).(owner := NOBODY);
        case _ =>
          step, s' := DrainMoves(s, u);
      }
    }
  }

  lemma DrainMoves(s: State, u: nat) returns (step: Step, s': State)
    requires Inv(s) && s.owner == u && s.pcs[u].Draining?
    ensures Next(s, u, step, s') && !step.CallInsn? && !step.CallFlush?
  {
    var pc := s.pcs[u];
    if s.tail >= pc.h {
      step, s' := EndDrain, At(s, u, Leave);
    } else {
      ChunkIsNext(s, s.head);
      assert pc.h == s.head && pc.done <= |Chunk(s, pc.h)|;
      hide Flatten, Exclusive, Consistent, Chunk, ChunkLen;
      if pc.done < |Chunk(s, pc.h)| {
        step := WriteSome(1);
        s' := At(s, u, Draining(pc.h, pc.done + 1)).(file := s.file + Chunk(s, pc.h)[pc.done..pc.done + 1]);
      } else {
        step := AdvanceTail;
        s' := At(s, u, Draining(pc.h, 0)).(tail := s.tail + ChunkLen(|s.slots|, s.tail, pc.h));
      }
    }
  }
}
