/** What becomes of the consumer's close: when it is kept, and from when on it is permanent. */
module SpscClosing {
  import opened Words
  import opened SpscRing
  import opened SpscMachine
  import opened SpscTheorems

  predicate WritesTail<T>(a: Action<T>) {
    a.ProducerStore? || a.ProducerDrop? || a.ConsumerDrop?
  }

  /** What a step does to the tail stores and to what the producer has seen of them. */
  lemma TailEffect<T>(s: State<T>, a: Action<T>, t: State<T>)
    requires Inv(s) && Inv(t) && IsStep(s, a, t)
    ensures s.tailLog != [] && t.tailLog != [] && s.producerSeenTail <= t.producerSeenTail
    ensures !WritesTail(a) ==> t.tailLog == s.tailLog
    ensures WritesTail(a) ==> t.tailLog == s.tailLog + [Last(t.tailLog)]
    ensures WritesTail(a) ==> (IsClosed(Last(t.tailLog)) <==> !a.ProducerStore?)
    ensures a.ProducerStore? ==> t.producerSeenTail == |t.tailLog| - 1
  {
    hide And, Or, MaskBit, Inv, IsClosed, SetClosed, NextWord, NextSliceWord, SeesEmpty, PushRefused, LenWord;
    InvShape(t);
    if a.ProducerStore? {
      StoredOpen(s, t);
      SeenBelow(s);
    } else if a.ProducerDrop? || a.ConsumerDrop? {
      CloseKeepsWords(s);
    }
  }

  lemma SeenBelow<T>(s: State<T>)
    requires Inv(s)
    ensures s.producerSeenTail < |s.tailLog|
  {
    hide Enc, Slot, IsClosed;
  }

  /** Who is still there after a step. */
  lemma EndsAfter<T>(s: State<T>, a: Action<T>, t: State<T>)
    requires IsStep(s, a, t)
    ensures t.producer.Dropped? <==> s.producer.Dropped? || a.ProducerDrop?
    ensures t.consumer.Gone? <==> s.consumer.Gone? || a.ConsumerDrop?
    ensures s.consumer.Gone? ==> !a.ConsumerDrop?
    ensures s.producer.Dropped? ==> !a.ProducerStore? && !a.ProducerDrop?
  {
    hide And, Or, MaskBit, IsClosed, SetClosed, NextWord, NextSliceWord, SeesEmpty, PushRefused, LenWord;
  }

  /** A push stores an open word. */
  lemma StoredOpen<T>(s: State<T>, t: State<T>)
    requires Inv(s) && Inv(t) && IsStep(s, ProducerStore, t)
    ensures t.tailLog != [] && !IsClosed(Last(t.tailLog))
  {
    hide And, Or, MaskBit, Enc, Slot, IsClosed, ContentsOk, ClosingOk, ConsumerOk;
    WordFacts(t.n, Last(t.tailLog), |t.pushed|);
  }

  /** The consumer's close, at any later time: the newest tail is still closed exactly when no push
      has stored since, or the producer has closed too. */
  lemma {:induction false} ConsumerCloseKeptIff<T>(n: nat, states: seq<State<T>>, acts: seq<Action<T>>, k: nat, j: nat)
    requires BoundedRun(n, states, acts) && k < j <= |acts| && acts[k].ConsumerDrop?
    ensures states[j].tailLog != [] && states[j].consumer.Gone?
    ensures IsClosed(Last(states[j].tailLog))
       <==> states[j].producer.Dropped? || forall i :: k < i < j ==> !acts[i].ProducerStore?
    decreases j
  {
    hide Inv, IsStep, IsClosed, Enc;
    StepAt(n, states, acts, j - 1);
    TailEffect(states[j - 1], acts[j - 1], states[j]);
    EndsAfter(states[j - 1], acts[j - 1], states[j]);
    if k + 1 < j {
      ConsumerCloseKeptIff(n, states, acts, k, j - 1);
      NoStoreStep(acts, k, j);
    }
  }

  lemma NoStoreStep<T>(acts: seq<Action<T>>, k: nat, j: nat)
    requires k + 1 < j <= |acts|
    ensures (forall i :: k < i < j ==> !acts[i].ProducerStore?)
       <==> !acts[j - 1].ProducerStore? && forall i :: k < i < j - 1 ==> !acts[i].ProducerStore?
  {
  }

  // ----- after a push has seen the close -----

  /** Words stored after the newest one the producer has seen are closing stores. */
  ghost predicate OnlyCloses<T>(s: State<T>) {
    forall i :: s.producerSeenTail < i < |s.tailLog| ==> IsClosed(s.tailLog[i])
  }

  /** The producer has loaded a closed word, and so is everything it can load from now on. */
  ghost predicate SeenClosed<T>(s: State<T>) {
    && !s.producer.Writing?
    && s.producerSeenTail < |s.tailLog|
    && forall i :: s.producerSeenTail <= i < |s.tailLog| ==> IsClosed(s.tailLog[i])
  }

  lemma OnlyClosesStep<T>(s: State<T>, a: Action<T>, t: State<T>)
    requires Inv(s) && Inv(t) && IsStep(s, a, t) && OnlyCloses(s)
    ensures OnlyCloses(t)
  {
    hide Inv, IsStep, IsClosed;
    TailEffect(s, a, t);
  }

  lemma {:induction false} OnlyClosesAt<T>(n: nat, states: seq<State<T>>, acts: seq<Action<T>>, i: nat)
    requires BoundedRun(n, states, acts) && i <= |acts|
    ensures OnlyCloses(states[i])
  {
    hide Inv, IsStep, IsClosed, Enc;
    if i > 0 {
      OnlyClosesAt(n, states, acts, i - 1);
      StepAt(n, states, acts, i - 1);
      OnlyClosesStep(states[i - 1], acts[i - 1], states[i]);
    }
  }

  lemma SeenClosedStep<T>(s: State<T>, a: Action<T>, t: State<T>)
    requires Inv(s) && Inv(t) && IsStep(s, a, t) && SeenClosed(s)
    ensures SeenClosed(t) && !a.ProducerStore?
  {
    hide Inv, IsStep, IsClosed;
    TailEffect(s, a, t);
    NoWriting(s, a, t);
    SeenBelow(t);
  }

  /** A push that has loaded a closed word does not get to write. */
  lemma NoWriting<T>(s: State<T>, a: Action<T>, t: State<T>)
    requires Inv(s) && IsStep(s, a, t) && SeenClosed(s)
    ensures !t.producer.Writing? && !a.ProducerStore?
  {
    hide And, Or, MaskBit, Enc, Slot, IsClosed, SetClosed, NextWord, NextSliceWord, SeesEmpty, PushRefused, LenWord;
    hide WordsOk, ContentsOk, ClosingOk, ConsumerOk, ViewsOk;
  }

  lemma {:induction false} SeenClosedAt<T>(n: nat, states: seq<State<T>>, acts: seq<Action<T>>, k: nat, j: nat)
    requires BoundedRun(n, states, acts) && k <= j <= |acts| && SeenClosed(states[k])
    ensures SeenClosed(states[j])
    ensures forall i :: k <= i < j ==> !acts[i].ProducerStore?
    decreases j
  {
    hide Inv, IsStep, SeenClosed, Enc;
    if k < j {
      SeenClosedAt(n, states, acts, k, j - 1);
      StepAt(n, states, acts, j - 1);
      SeenClosedStep(states[j - 1], acts[j - 1], states[j]);
    }
  }

  /** Once a load of the producer has returned a closed word, whoever closed, the queue is closed for
      good: no push stores anything afterwards and the newest tail stays closed. */
  lemma LoadedCloseIsPermanent<T>(n: nat, states: seq<State<T>>, acts: seq<Action<T>>, k: nat, j: nat)
    requires BoundedRun(n, states, acts) && k < j <= |acts| && acts[k].ProducerLoadTail?
    requires acts[k].tailIdx < |states[k].tailLog| && IsClosed(states[k].tailLog[acts[k].tailIdx])
    ensures states[j].tailLog != [] && IsClosed(Last(states[j].tailLog))
    ensures forall i :: k <= i < j ==> !acts[i].ProducerStore?
  {
    hide Inv, IsClosed, Enc, Close, Decide;
    OnlyClosesAt(n, states, acts, k);
    StepAt(n, states, acts, k);
    assert SeenClosed(states[k + 1]);
    SeenClosedAt(n, states, acts, k + 1, j);
  }

  /** After a push has answered `Closed`, the close is permanent: no push stores again, every later
      push answers `Closed`, and the newest tail stays closed. */
  lemma AnsweredClosedIsPermanent<T>(n: nat, states: seq<State<T>>, acts: seq<Action<T>>, k: nat, j: nat)
    requires BoundedRun(n, states, acts) && k < j <= |acts| && acts[k].ProducerDecide?
    requires states[k].producer.HaveHead? && states[k].producer.tailIdx < |states[k].tailLog|
    requires IsClosed(states[k].tailLog[states[k].producer.tailIdx])
    ensures states[j].tailLog != [] && IsClosed(Last(states[j].tailLog))
    ensures forall i :: k <= i < j ==> !acts[i].ProducerStore?
    ensures states[j].producer.HaveHead? ==>
              && states[j].producer.tailIdx < |states[j].tailLog|
              && IsClosed(states[j].tailLog[states[j].producer.tailIdx])
  {
    hide Inv, IsClosed, IsStep, Enc;
    OnlyClosesAt(n, states, acts, k);
    InvAt(n, states, acts, k);
    LoadedAtSeen(states[k]);
    assert SeenClosed(states[k]);
    SeenClosedAt(n, states, acts, k, j);
    InvAt(n, states, acts, j);
    if states[j].producer.HaveHead? { LoadedAtSeen(states[j]); }
  }

  /** The word a push works with is the newest one its end has seen. */
  lemma LoadedAtSeen<T>(s: State<T>)
    requires Inv(s) && s.producer.HaveHead?
    ensures s.producer.tailIdx == s.producerSeenTail < |s.tailLog|
  {
    hide Enc, Slot, IsClosed;
  }
}
