/** What the interleaved queue guarantees in every run, for every capacity and every choice of
    stale loads, as long as the encoded tail stays below the closed bit. */
module SpscTheorems {
  import opened Basics
  import opened Words
  import opened SpscRing
  import opened SpscMachine

  /** A run: the states visited from a fresh queue of capacity `n` under the given steps. */
  ghost predicate Run<T>(n: nat, states: seq<State<T>>, acts: seq<Action<T>>) {
    && Capacity(n)
    && |states| == |acts| + 1
    && states[0] == Initial(n)
    && forall i :: 0 <= i < |acts| ==> IsStep(states[i], acts[i], states[i + 1])
  }

  ghost predicate IsStep<T>(s: State<T>, a: Action<T>, t: State<T>) {
    WellShaped(s) && Enabled(s, a) && t == Apply(s, a)
  }

  /** The lap bound: the word of the published count does not reach the closed bit. */
  ghost predicate Bounded<T>(s: State<T>) {
    s.n > 0 && Enc(s.n, |s.pushed|) < CLOSED_BIT
  }

  ghost predicate BoundedRun<T>(n: nat, states: seq<State<T>>, acts: seq<Action<T>>) {
    Run(n, states, acts) && Bounded(states[|acts|])
  }

  lemma {:induction false} RunKeepsInv<T>(n: nat, states: seq<State<T>>, acts: seq<Action<T>>)
    requires BoundedRun(n, states, acts)
    ensures Inv(states[|acts|]) && states[|acts|].n == n
    decreases |acts|
  {
    hide Enc, Inv, And, Or, MaskBit;
    if acts == [] {
      InitialInv<T>(n);
    } else {
      var k := |acts| - 1;
      var s, a, t := states[k], acts[k], states[k + 1];
      assert IsStep(s, a, t);
      assert s.n == t.n && |s.pushed| <= |t.pushed| by { hide Close, Decide; StepGrows(s, a); }
      Below(t.n, |s.pushed|, |t.pushed|) by { RunCapacity(n, states, acts, k + 1); }
      RunKeepsInv(n, states[..k + 1], acts[..k]);
      StepKeepsInv(s, a);
    }
  }

  lemma StepGrows<T>(s: State<T>, a: Action<T>)
    requires WellShaped(s) && Enabled(s, a)
    ensures Apply(s, a).n == s.n && |s.pushed| <= |Apply(s, a).pushed|
  {
    hide And, Or, MaskBit, IsClosed, SetClosed, WithoutClosed, NextWord, NextSliceWord, LenWord;
  }

  lemma {:induction false} RunCapacity<T>(n: nat, states: seq<State<T>>, acts: seq<Action<T>>, k: nat)
    requires Run(n, states, acts) && k <= |acts|
    ensures states[k].n == n
  {
    if k > 0 {
      RunCapacity(n, states, acts, k - 1);
      assert IsStep(states[k - 1], acts[k - 1], states[k]);
      StepGrows(states[k - 1], acts[k - 1]);
    }
  }

  /** Every state of a bounded run satisfies the invariant. */
  lemma InvAt<T>(n: nat, states: seq<State<T>>, acts: seq<Action<T>>, i: nat)
    requires BoundedRun(n, states, acts) && i <= |acts|
    ensures Inv(states[i]) && states[i].n == n
  {
    hide Inv, IsStep, Enc;
    PushedGrows(n, states, acts, i, |acts|);
    RunCapacity(n, states, acts, i);
    RunCapacity(n, states, acts, |acts|);
    Below(n, |states[i].pushed|, |states[|acts|].pushed|);
    assert forall k :: 0 <= k <= i ==> states[..i + 1][k] == states[k];
    RunKeepsInv(n, states[..i + 1], acts[..i]);
  }

  lemma {:induction false} PushedGrows<T>(n: nat, states: seq<State<T>>, acts: seq<Action<T>>, i: nat, j: nat)
    requires Run(n, states, acts) && i <= j <= |acts|
    ensures |states[i].pushed| <= |states[j].pushed|
    decreases j
  {
    hide Enabled, Apply;
    if i < j {
      PushedGrows(n, states, acts, i, j - 1);
      assert IsStep(states[j - 1], acts[j - 1], states[j]);
      StepGrows(states[j - 1], acts[j - 1]);
    }
  }

  /** A step of a bounded run, with the invariant on both sides. */
  lemma StepAt<T>(n: nat, states: seq<State<T>>, acts: seq<Action<T>>, i: nat)
    requires BoundedRun(n, states, acts) && i < |acts|
    ensures Inv(states[i]) && Inv(states[i + 1]) && IsStep(states[i], acts[i], states[i + 1])
  {
    hide Inv, Enabled, Apply, Enc;
    InvAt(n, states, acts, i);
    InvAt(n, states, acts, i + 1);
  }

  /** Order and conservation: what was popped is the oldest part of what was pushed, at most `n`
      elements remain, and the live slots hold exactly those. */
  lemma QueueOrder<T>(n: nat, states: seq<State<T>>, acts: seq<Action<T>>)
    requires BoundedRun(n, states, acts)
    ensures var s := states[|acts|];
            && s.popped <= s.pushed
            && |s.pushed| <= |s.popped| + n
            && |s.slots| == n
            && (forall p :: |s.popped| <= p < |s.pushed| ==> s.slots[Slot(n, p)] == Some(s.pushed[p]))
  {
    RunKeepsInv(n, states, acts);
  }

  /** Slot exclusion: no slot that a half-finished push still has to write is the slot that a
      half-finished pop reads or holds an unread element; a pop that does not see an empty queue
      reads an initialised slot; so neither end is ever stuck in front of its slot. */
  lemma SlotExclusion<T>(n: nat, states: seq<State<T>>, acts: seq<Action<T>>)
    requires BoundedRun(n, states, acts)
    ensures var s := states[|acts|];
            WellShaped(s)
            && (s.producer.Writing? ==>
                  s.producer.tailIdx < |s.tailLog|
                  && forall j :: s.producer.written <= j < |s.producer.elems| ==>
                       var w := WriteSlot(n, s.tailLog[s.producer.tailIdx], j);
                       && 0 <= w < |s.slots|
                       && (s.consumer.PopTail? && s.consumer.tailIdx < |s.tailLog|
                           && !SeesEmpty(s, s.consumer.tailIdx) ==>
                             w != Index(n, Last(s.headLog)))
                       && (forall p :: |s.popped| <= p < |s.pushed| ==> w != Slot(n, p)))
            && (s.consumer.PopTail? ==> Enabled(s, ConsumerRead))
            && (s.producer.Writing? && s.producer.written < |s.producer.elems| ==> Enabled(s, ProducerWrite))
  {
    RunKeepsInv(n, states, acts);
    var s := states[|acts|];
    hide And, Or, MaskBit, Enc, Slot, IsClosed;
    SeesEmptyMeaning(s, s.consumerSeenTail);
    if s.producer.Writing? {
      forall j | s.producer.written <= j < |s.producer.elems|
        ensures var w := WriteSlot(n, s.tailLog[s.producer.tailIdx], j);
                && 0 <= w < n
                && (|s.popped| < |s.pushed| ==> w != Slot(n, |s.popped|))
                && (forall p :: |s.popped| <= p < |s.pushed| ==> w != Slot(n, p))
      {
        WriteSlotIsFree(s, j);
      }
    }
  }

  /** `len` called by the consumer: with the tail store it loaded, it returns exactly the number of
      elements that had been published by that store and not popped; after the producer's close,
      except at the extreme that `ClosedLen` names. */
  lemma ConsumerLenExact<T>(n: nat, states: seq<State<T>>, acts: seq<Action<T>>)
    requires BoundedRun(n, states, acts) && states[|acts|].consumer.LenTail?
    ensures var s := states[|acts|];
            var i := s.consumer.tailIdx;
            && i < |s.tailLog| == |s.tailAt| && s.headLog != []
            && var len := LenWord(n, s.tailLog[i], Last(s.headLog));
            && (!IsClosed(s.tailLog[i]) ==> len == s.tailAt[i] - |s.popped|)
            && (IsClosed(s.tailLog[i]) ==> len == ClosedLen(n, |s.pushed| - |s.popped|))
  {
    RunKeepsInv(n, states, acts);
    var s := states[|acts|];
    hide And, Or, MaskBit, Enc, Slot, IsClosed, LenWord;
    Below(n, s.tailAt[s.consumer.tailIdx], |s.pushed|);
    LenIsDistance(n, s.tailLog[s.consumer.tailIdx], s.tailAt[s.consumer.tailIdx], |s.popped|);
  }

  /** `len` called by the producer: exactly the number of elements published and not popped at the
      head store it loaded; after a close, except at that extreme. */
  lemma ProducerLenExact<T>(n: nat, states: seq<State<T>>, acts: seq<Action<T>>)
    requires BoundedRun(n, states, acts) && states[|acts|].producer.HaveHead?
    ensures var s := states[|acts|];
            var HaveHead(_, i, j) := s.producer;
            && i < |s.tailLog| && j < |s.headLog|
            && var len := LenWord(n, s.tailLog[i], s.headLog[j]);
            && (!IsClosed(s.tailLog[i]) ==> len == |s.pushed| - j)
            && (IsClosed(s.tailLog[i]) ==> len == ClosedLen(n, |s.pushed| - j))
  {
    RunKeepsInv(n, states, acts);
    var s := states[|acts|];
    var HaveHead(_, i, j) := s.producer;
    hide And, Or, MaskBit, Enc, Slot, IsClosed, LenWord;
    LenIsDistance(n, s.tailLog[i], |s.pushed|, j);
  }

  /** The answers of `pop`: the values are the popped elements in order; `Closed` is answered only
      once the producer is gone and everything it pushed has been popped; nothing else follows. */
  lemma CloseDrains<T>(n: nat, states: seq<State<T>>, acts: seq<Action<T>>)
    requires BoundedRun(n, states, acts)
    ensures var s := states[|acts|];
            && Values(s.popLog) == s.popped <= s.pushed
            && ClosedForever(s.popLog)
            && (Closed in s.popLog ==> s.producer.Dropped? && s.popped == s.pushed)
            && (s.producer.Dropped? ==> s.tailLog != [] && IsClosed(Last(s.tailLog)))
  {
    RunKeepsInv(n, states, acts);
  }

  /** `t` follows from `s` by one whole `pop` whose tail load returns the newest store. */
  ghost predicate IsFreshPop<T>(s: State<T>, s1: State<T>, s2: State<T>, s3: State<T>, t: State<T>) {
    && IsStep(s, ConsumerLoadHead, s1)
    && s1.tailLog != []
    && IsStep(s1, ConsumerLoadTail(|s1.tailLog| - 1), s2)
    && IsStep(s2, ConsumerRead, s3)
    && if s3.consumer.Ready? then t == s3 else IsStep(s3, ConsumerStore, t)
  }

  /** What a fresh pop does after the producer is gone. */
  ghost predicate Drained<T>(s: State<T>, t: State<T>) {
    && t.consumer.Ready?
    && t.producer.Dropped?
    && t.pushed == s.pushed
    && if |s.popped| < |s.pushed| then
         && t.popped == s.popped + [s.pushed[|s.popped|]]
         && t.popLog == s.popLog + [Value(s.pushed[|s.popped|])]
       else
         t.popped == s.popped && t.popLog == s.popLog + [Closed]
  }

  lemma FreshPopLoads<T>(s: State<T>, s1: State<T>, s2: State<T>)
    requires Inv(s) && IsStep(s, ConsumerLoadHead, s1) && s1.tailLog != []
    requires IsStep(s1, ConsumerLoadTail(|s1.tailLog| - 1), s2)
    ensures Inv(s2)
    ensures s2 == s.(consumer := PopTail(|s.tailLog| - 1), consumerSeenTail := |s.tailLog| - 1)
  {
    hide Inv, Enc, And, Or, MaskBit;
    assert Enc(s.n, |s.pushed|) < CLOSED_BIT by { InvBounded(s); }
    StepKeepsInv(s, ConsumerLoadHead);
    StepKeepsInv(s1, ConsumerLoadTail(|s1.tailLog| - 1));
  }

  lemma InvBounded<T>(s: State<T>)
    requires Inv(s)
    ensures Capacity(s.n) && Enc(s.n, |s.pushed|) < CLOSED_BIT
    ensures |s.popped| <= |s.pushed|
  {
  }

  lemma FreshPopResult<T>(s: State<T>, s1: State<T>, s2: State<T>, s3: State<T>, t: State<T>)
    requires Inv(s) && s.producer.Dropped? && IsFreshPop(s, s1, s2, s3, t)
    ensures Inv(t) && Drained(s, t)
  {
    hide Enc, And, Or, MaskBit, Slot, SeesEmpty, IsClosed, Inv;
    FreshPopLoads(s, s1, s2);
    var i := |s2.tailLog| - 1;
    FreshRead(s2, i);
    assert s3.n == s.n && s3.pushed == s.pushed;
    InvBounded(s);
    StepKeepsInv(s2, ConsumerRead);
    if !SeesEmpty(s2, i) {
      StepKeepsInv(s3, ConsumerStore);
      PopValueIs(s3);
    }
  }

  lemma FreshRead<T>(s: State<T>, i: nat)
    requires Inv(s) && s.producer.Dropped? && s.consumer == PopTail(i) && i == |s.tailLog| - 1
    ensures SeesEmpty(s, i) <==> |s.popped| == |s.pushed|
    ensures IsClosed(s.tailLog[i])
  {
    SeesEmptyMeaning(s, i);
  }

  lemma PopValueIs<T>(s: State<T>)
    requires Inv(s) && s.consumer.PopValue?
    ensures |s.popped| < |s.pushed| && s.consumer.value == s.pushed[|s.popped|]
  {
  }

  ghost function AsValues<T>(xs: seq<T>): seq<PopResult<T>> {
    seq(|xs|, i requires 0 <= i < |xs| => Value(xs[i]))
  }

  ghost function Closes<T>(k: nat): seq<PopResult<T>> {
    seq(k, _ => Closed)
  }

  /** The visited states of consecutive fresh pops. */
  ghost predicate FreshPops<T>(ss: seq<State<T>>, mids: seq<(State<T>, State<T>, State<T>)>) {
    && |ss| == |mids| + 1
    && forall i :: 0 <= i < |mids| ==> IsFreshPop(ss[i], mids[i].0, mids[i].1, mids[i].2, ss[i + 1])
  }

  /** After the producer is dropped, popping delivers every remaining element, in order, and then
      `Closed` as often as it is called. */
  lemma {:induction false} DrainAfterDrop<T>(ss: seq<State<T>>, mids: seq<(State<T>, State<T>, State<T>)>, extra: nat)
    requires FreshPops(ss, mids) && Inv(ss[0]) && ss[0].producer.Dropped?
    requires |mids| == |ss[0].pushed| - |ss[0].popped| + extra
    ensures var rest := ss[0].pushed[|ss[0].popped|..];
            ss[|mids|].popLog == ss[0].popLog + AsValues(rest) + Closes(extra)
    decreases |mids|
  {
    hide Inv, IsFreshPop;
    var s := ss[0];
    InvBounded(s);
    var rest := s.pushed[|s.popped|..];
    if |mids| > 0 {
      var t := ss[1];
      FreshPopResult(s, mids[0].0, mids[0].1, mids[0].2, t);
      DrainAfterDrop(ss[1..], mids[1..], if rest != [] then extra else extra - 1);
      if rest != [] {
        assert t.pushed[|t.popped|..] == rest[1..];
        assert AsValues(rest) == [Value(rest[0])] + AsValues(rest[1..]);
        assert s.popLog + AsValues(rest) == t.popLog + AsValues(rest[1..]);
      } else {
        assert t.pushed[|t.popped|..] == [];
        assert Closes<T>(extra) == [Closed] + Closes<T>(extra - 1);
        assert s.popLog + AsValues<T>([]) + Closes(extra) == t.popLog + AsValues<T>([]) + Closes(extra - 1);
      }
    }
  }

  /** The same, for the state that any run has reached. */
  lemma DropThenDrain<T>(n: nat, states: seq<State<T>>, acts: seq<Action<T>>,
                         ss: seq<State<T>>, mids: seq<(State<T>, State<T>, State<T>)>, extra: nat)
    requires BoundedRun(n, states, acts) && states[|acts|].producer.Dropped?
    requires FreshPops(ss, mids) && ss[0] == states[|acts|]
    requires |mids| == |ss[0].pushed| - |ss[0].popped| + extra
    ensures |ss[0].popped| <= |ss[0].pushed|
    ensures ss[|mids|].popLog == ss[0].popLog + AsValues(ss[0].pushed[|ss[0].popped|..]) + Closes(extra)
  {
    RunKeepsInv(n, states, acts);
    DrainAfterDrop(ss, mids, extra);
  }

  /** Only the producer's close is permanent: a push in flight overwrites the consumer's close. */
  lemma ConsumerCloseCanBeLost<T>(n: nat, x: T) returns (states: seq<State<T>>, acts: seq<Action<T>>)
    requires Capacity(n)
    ensures Run(n, states, acts)
    ensures ConsumerDrop in acts
    ensures var s := states[|acts|];
            s.consumer.Gone? && s.producer.Idle? && s.tailLog != [] && !IsClosed(Last(s.tailLog))
  {
    hide And, Or, MaskBit, IsClosed, SetClosed, NextWord, Index;
    var s0 := Initial<T>(n);
    acts := [ProducerLoadTail(Push(x), 0), ProducerLoadHead(0), ProducerDecide,
             ConsumerDrop, ProducerWrite, ProducerStore];
    WordFacts(n, 0, 0);
    LapAhead(n, 0);
    NextIsSuccessor(n, 0);
    MaskFits(n);
    EncBelow(n);
    WordFacts(n, Enc(n, 1), 1);
    var s1 := Apply(s0, acts[0]);
    var s2 := Apply(s1, acts[1]);
    var s3 := Apply(s2, acts[2]);
    var s4 := Apply(s3, acts[3]);
    var s5 := Apply(s4, acts[4]);
    var s6 := Apply(s5, acts[5]);
    states := [s0, s1, s2, s3, s4, s5, s6];
  }

  lemma EncBelow(n: nat)
    requires Capacity(n)
    ensures 0 < Enc(n, 1) <= Enc(n, n) == MaskBit(n)
    ensures Enc(n, 1) < CLOSED_BIT
  {
    MaskFits(n);
    if n > 1 { EncMonotone(n, 1, n); }
    EncMonotone(n, 0, 1);
    if n == 1 {
      assert MaskBit(1) == Pow2(1 + CeilLog2(1));
      assert MaskBit(1) == 2;
    }
  }

  // ----- stale answers -----

  /** The run that has decided to push one element into a fresh queue. */
  lemma PushDecided<T>(n: nat, x: T) returns (states: seq<State<T>>, acts: seq<Action<T>>)
    requires Capacity(n)
    ensures Run(n, states, acts) && |acts| == 3
    ensures states[3] == Initial<T>(n).(producer := Writing([x], 0, Enc(n, 1), 0))
  {
    hide And, Or, MaskBit, IsClosed, NextWord, Index;
    acts := [ProducerLoadTail(Push(x), 0), ProducerLoadHead(0), ProducerDecide];
    WordFacts(n, 0, 0);
    LapAhead(n, 0);
    NextIsSuccessor(n, 0);
    MaskFits(n);
    EncBelow(n);
    var s0 := Initial<T>(n);
    var s1 := Apply(s0, acts[0]);
    var s2 := Apply(s1, acts[1]);
    var s3 := Apply(s2, acts[2]);
    states := [s0, s1, s2, s3];
  }

  /** The run that has pushed it. */
  lemma OnePush<T>(n: nat, x: T) returns (states: seq<State<T>>, acts: seq<Action<T>>)
    requires Capacity(n)
    ensures Run(n, states, acts) && |acts| == 5
    ensures states[5] == State(n, [0], [0, Enc(n, 1)], Initial<T>(n).slots[0 := Some(x)], Idle, Ready, 1, 0, 0,
                               [0, 1], [x], [], [], 0)
  {
    hide And, Or, MaskBit, IsClosed, NextWord, Index, Enc, Run;
    states, acts := PushDecided(n, x);
    FirstWord(n);
    WordFacts(n, 0, 0);
    assert |states| == 4 by { RunLength(n, states, acts); }
    states, acts := RunOn(n, states, acts, ProducerWrite);
    states, acts := RunOn(n, states, acts, ProducerStore);
  }

  /** A run with one more step. */
  lemma RunOn<T>(n: nat, states: seq<State<T>>, acts: seq<Action<T>>, a: Action<T>)
    returns (more: seq<State<T>>, steps: seq<Action<T>>)
    requires Run(n, states, acts) && WellShaped(states[|acts|]) && Enabled(states[|acts|], a)
    ensures Run(n, more, steps) && steps == acts + [a] && more == states + [Apply(states[|acts|], a)]
  {
    hide Enabled, Apply;
    more, steps := states + [Apply(states[|acts|], a)], acts + [a];
    forall i | 0 <= i < |steps|
      ensures IsStep(more[i], steps[i], more[i + 1])
    {
      if i < |acts| { assert IsStep(states[i], acts[i], states[i + 1]); }
    }
  }

  /** A pop that loads the tail of before a push finds the queue empty although an element is there. */
  lemma EmptyCanBeStale<T>(n: nat, x: T) returns (states: seq<State<T>>, acts: seq<Action<T>>)
    requires Capacity(n)
    ensures Run(n, states, acts)
    ensures var s := states[|acts|];
            s.popLog == [Empty] && s.pushed == [x] && s.popped == [] && s.consumer.Ready? && s.producer.Idle?
  {
    hide And, Or, MaskBit, IsClosed, NextWord, Index, WithoutClosed, Enc;
    states, acts := OnePush(n, x);
    FirstWord(n);
    WordFacts(n, 0, 0);
    states, acts := RunOn(n, states, acts, ConsumerLoadHead);
    states, acts := RunOn(n, states, acts, ConsumerLoadTail(0));
    states, acts := RunOn(n, states, acts, ConsumerRead);
  }

  /** The run that has found the element again, in a queue of one slot. */
  lemma OnePushOneRead<T>(x: T) returns (states: seq<State<T>>, acts: seq<Action<T>>)
    ensures Run(1, states, acts) && |acts| == 8
    ensures states[8] == State(1, [0], [0, Enc(1, 1)], [Some(x)], Idle, PopValue(x, Enc(1, 1)), 1, 0, 1,
                               [0, 1], [x], [], [], 0)
  {
    hide And, Or, MaskBit, IsClosed, NextWord, Index, WithoutClosed, Enc, Run;
    states, acts := OnePush(1, x);
    FirstWord(1);
    EncBelow(1);
    WordFacts(1, 0, 0);
    WordFacts(1, Enc(1, 1), 1);
    NextIsSuccessor(1, 0);
    assert |states| == 6 by { RunLength(1, states, acts); }
    states, acts := RunOn(1, states, acts, ConsumerLoadHead);
    states, acts := RunOn(1, states, acts, ConsumerLoadTail(1));
    states, acts := RunOn(1, states, acts, ConsumerRead);
  }

  lemma RunLength<T>(n: nat, states: seq<State<T>>, acts: seq<Action<T>>)
    requires Run(n, states, acts)
    ensures |states| == |acts| + 1
  {
  }

  /** A push that loads the head of before a pop is refused as full although the queue is empty. */
  lemma FullCanBeStale<T>(x: T, y: T) returns (states: seq<State<T>>, acts: seq<Action<T>>)
    ensures Run(1, states, acts) && |states| == |acts| + 1 && acts != [] && acts[|acts| - 1] == ProducerDecide
    ensures states[|acts| - 1].producer == HaveHead(Push(y), 1, 0) && states[|acts|].producer.Idle?
    ensures var s := states[|acts|];
            s.pushed == s.popped == [x] && s.tailLog != [] && !IsClosed(Last(s.tailLog))
  {
    hide And, Or, MaskBit, IsClosed, NextWord, Enc, Run;
    states, acts := OnePushOneRead(x);
    FirstWord(1);
    EncBelow(1);
    WordFacts(1, Enc(1, 1), 1);
    LapAhead(1, 0);
    assert |states| == 9 by { RunLength(1, states, acts); }
    states, acts := RunOn(1, states, acts, ConsumerStore);
    states, acts := RunOn(1, states, acts, ProducerLoadTail(Push(y), 1));
    states, acts := RunOn(1, states, acts, ProducerLoadHead(0));
    states, acts := RunOn(1, states, acts, ProducerDecide);
  }

  lemma FirstWord(n: nat)
    requires Capacity(n)
    ensures Enc(n, 0) == 0
  {
  }
}
