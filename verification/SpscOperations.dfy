/** What each operation of the interleaved queue does in the end, step by step over every run: which
    pushes and pops go ahead, and what a finished one has added or taken. */
module SpscOperations {
  import opened Words
  import opened SpscRing
  import opened SpscMachine
  import opened SpscTheorems

  // ----- pushing -----

  /** The elements of a push. */
  function Elems<T>(op: ProducerOp<T>): seq<T> {
    match op
    case Push(elem) => [elem]
    case PushSlice(elems) => elems
    case Available => []
  }

  /** The decision of `push` and `push_slice`: with exactly its elements to write if the loaded tail is
      open and they fit behind the loaded head; otherwise it is over, and nothing else changes. */
  lemma FullMeansNoRoom<T>(n: nat, states: seq<State<T>>, acts: seq<Action<T>>, k: nat)
    requires BoundedRun(n, states, acts) && k < |acts| && acts[k] == ProducerDecide
    requires states[k].producer.HaveHead? && !states[k].producer.op.Available?
    ensures var s := states[k];
            var HaveHead(op, i, j) := s.producer;
            && i < |s.tailLog| && j < |s.headLog|
            && states[k + 1] == s.(producer :=
                 if !IsClosed(s.tailLog[i]) && |s.pushed| + |Elems(op)| <= j + n
                 then Writing(Elems(op), i, Enc(n, |s.pushed| + |Elems(op)|), 0)
                 else Idle)
  {
    hide Inv, Enc, IsClosed, Decide;
    InvAt(n, states, acts, k);
    assert IsStep(states[k], acts[k], states[k + 1]);
    DecideMeaning(states[k]);
  }

  lemma DecideMeaning<T>(s: State<T>)
    requires Inv(s) && s.producer.HaveHead? && !s.producer.op.Available?
    ensures var HaveHead(op, i, j) := s.producer;
            && i < |s.tailLog| && j < |s.headLog|
            && Decide(s, op, i, j) == s.(producer :=
                 if !IsClosed(s.tailLog[i]) && |s.pushed| + |Elems(op)| <= j + s.n
                 then Writing(Elems(op), i, Enc(s.n, |s.pushed| + |Elems(op)|), 0)
                 else Idle)
  {
    hide And, Or, MaskBit, Enc, Slot, IsClosed, NextWord, NextSliceWord, PushRefused;
    var HaveHead(op, i, j) := s.producer;
    if !IsClosed(s.tailLog[i]) {
      RefusalMeaning(s, op, i, j);
      NextIsSuccessor(s.n, |s.pushed|);
      if op.PushSlice? { NextSliceIsSum(s.n, |s.pushed|, |op.elems|); }
    }
  }

  /** `available` reserves: a slice that fits the room the producer was last told of goes ahead
      whatever pops run in between, unless the queue was closed. */
  lemma ReservationHolds<T>(n: nat, states: seq<State<T>>, acts: seq<Action<T>>, k: nat)
    requires BoundedRun(n, states, acts) && k < |acts| && acts[k] == ProducerDecide
    requires states[k].producer.HaveHead? && states[k].producer.op.PushSlice?
    requires |states[k].producer.op.elems| <= states[k].room
    ensures var s := states[k];
            var HaveHead(op, i, j) := s.producer;
            && i < |s.tailLog|
            && (!IsClosed(s.tailLog[i]) ==>
                  states[k + 1].producer == Writing(op.elems, i, Enc(n, |s.pushed| + |op.elems|), 0))
  {
    hide Enc, IsClosed;
    FullMeansNoRoom(n, states, acts, k);
    InvAt(n, states, acts, k);
  }

  /** The room that `available` tells: on an open tail exactly what is free behind the loaded head, and
      less the elements of every push that has finished since. */
  lemma AvailableExact<T>(n: nat, states: seq<State<T>>, acts: seq<Action<T>>, k: nat)
    requires BoundedRun(n, states, acts) && k < |acts| && acts[k] == ProducerDecide
    requires states[k].producer.HaveHead? && states[k].producer.op.Available?
    ensures var s := states[k];
            var HaveHead(_, i, j) := s.producer;
            && i < |s.tailLog| && 0 <= |s.pushed| - j <= n
            && states[k + 1] == s.(producer := Idle, room := if IsClosed(s.tailLog[i]) then 0 else n - (|s.pushed| - j))
  {
    StepAt(n, states, acts, k);
    RunCapacity(n, states, acts, k);
    var s := states[k];
    var HaveHead(_, i, j) := s.producer;
    hide And, Or, MaskBit, Enc, Slot, IsClosed, LenWord;
    LenIsDistance(n, s.tailLog[i], |s.pushed|, j);
  }

  /** Until it stores, a push keeps its elements and has published nothing. */
  lemma {:induction false} StillWriting<T>(n: nat, states: seq<State<T>>, acts: seq<Action<T>>, d: nat, e: nat)
    requires BoundedRun(n, states, acts) && d <= e <= |acts| && states[d].producer.Writing?
    requires forall i :: d <= i < e ==> !acts[i].ProducerStore?
    ensures states[e].producer.Writing? && states[e].producer.elems == states[d].producer.elems
    ensures states[e].pushed == states[d].pushed
    decreases e
  {
    hide Inv, Enabled, Apply;
    if d < e {
      StillWriting(n, states, acts, d, e - 1);
      StepAt(n, states, acts, e - 1);
      WritingStep(states[e - 1], acts[e - 1]);
    }
  }

  lemma WritingStep<T>(s: State<T>, a: Action<T>)
    requires WellShaped(s) && Enabled(s, a) && s.producer.Writing? && !a.ProducerStore?
    ensures var t := Apply(s, a);
            t.producer.Writing? && t.producer.elems == s.producer.elems && t.pushed == s.pushed
  {
    hide And, Or, MaskBit, IsClosed, SetClosed, WithoutClosed, NextWord, NextSliceWord, LenWord;
  }

  /** A push that went ahead has, when it is finished, appended exactly its elements. */
  lemma PushAppends<T>(n: nat, states: seq<State<T>>, acts: seq<Action<T>>, d: nat, e: nat)
    requires BoundedRun(n, states, acts) && d < e < |acts|
    requires acts[d] == ProducerDecide && states[d].producer.HaveHead? && !states[d].producer.op.Available?
    requires states[d + 1].producer.Writing?
    requires acts[e] == ProducerStore && forall i :: d < i < e ==> !acts[i].ProducerStore?
    ensures states[e + 1].producer.Idle?
    ensures states[e + 1].pushed == states[d].pushed + Elems(states[d].producer.op)
  {
    hide Inv, Enc, IsClosed;
    FullMeansNoRoom(n, states, acts, d);
    StillWriting(n, states, acts, d + 1, e);
    StepAt(n, states, acts, e);
  }

  // ----- popping -----

  /** The decision of `pop`: the oldest element left if something published by the loaded store has
      not been popped; otherwise the answer is empty or closed, as the loaded word says. */
  lemma PopDecision<T>(n: nat, states: seq<State<T>>, acts: seq<Action<T>>, k: nat)
    requires BoundedRun(n, states, acts) && k < |acts| && acts[k] == ConsumerRead
    requires states[k].consumer.PopTail?
    ensures var s := states[k];
            var i := s.consumer.tailIdx;
            && i < |s.tailLog| == |s.tailAt|
            && (s.tailAt[i] > |s.popped| ==>
                  && |s.popped| < |s.pushed|
                  && states[k + 1] == s.(consumer := PopValue(s.pushed[|s.popped|], Enc(n, |s.popped| + 1))))
            && (s.tailAt[i] <= |s.popped| ==>
                  states[k + 1] == s.(popLog := s.popLog + [if IsClosed(s.tailLog[i]) then Closed else Empty],
                                      consumer := Ready))
  {
    hide And, Or, MaskBit, Enc, Slot, IsClosed, SeesEmpty, NextWord, Values, ClosedForever;
    StepAt(n, states, acts, k);
    RunCapacity(n, states, acts, k);
    var s := states[k];
    SeesEmptyMeaning(s, s.consumer.tailIdx);
    Below(n, |s.popped|, |s.pushed|);
    NextIsSuccessor(n, |s.popped|);
  }

  lemma {:induction false} StillPopping<T>(n: nat, states: seq<State<T>>, acts: seq<Action<T>>, d: nat, e: nat)
    requires BoundedRun(n, states, acts) && d <= e <= |acts| && states[d].consumer.PopValue?
    requires forall i :: d <= i < e ==> !acts[i].ConsumerStore?
    ensures states[e].consumer == states[d].consumer && states[e].popped == states[d].popped
    ensures states[e].popLog == states[d].popLog
    decreases e
  {
    hide Inv, Enabled, Apply;
    if d < e {
      StillPopping(n, states, acts, d, e - 1);
      StepAt(n, states, acts, e - 1);
      PoppingStep(states[e - 1], acts[e - 1]);
    }
  }

  lemma PoppingStep<T>(s: State<T>, a: Action<T>)
    requires WellShaped(s) && Enabled(s, a) && s.consumer.PopValue? && !a.ConsumerStore?
    ensures var t := Apply(s, a);
            t.consumer == s.consumer && t.popped == s.popped && t.popLog == s.popLog
  {
    hide And, Or, MaskBit, IsClosed, SetClosed, WithoutClosed, NextWord, NextSliceWord, LenWord;
  }

  /** A pop that found something has, when it is finished, taken and answered exactly the oldest
      element that was left. */
  lemma PopTakes<T>(n: nat, states: seq<State<T>>, acts: seq<Action<T>>, d: nat, e: nat)
    requires BoundedRun(n, states, acts) && d < e < |acts|
    requires acts[d] == ConsumerRead && states[d].consumer.PopTail? && states[d + 1].consumer.PopValue?
    requires acts[e] == ConsumerStore && forall i :: d < i < e ==> !acts[i].ConsumerStore?
    ensures var s := states[d];
            && |s.popped| < |s.pushed|
            && states[e + 1].popped == s.popped + [s.pushed[|s.popped|]]
            && states[e + 1].popLog == s.popLog + [Value(s.pushed[|s.popped|])]
            && states[e + 1].consumer.Ready?
  {
    hide Inv, Enc, IsClosed;
    PopDecision(n, states, acts, d);
    StillPopping(n, states, acts, d + 1, e);
    StepAt(n, states, acts, e);
  }
}
