/** The queue of `tezos/spsc/src/lib.rs` as a machine of interleaved atomic steps.

    The two ends run concurrently; every step below is one access to shared memory (or one local
    decision). An atomic word is kept as its modification order: the sequence of all values stored
    to it. A load may return any store that the loading end has not already seen superseded, so
    loaded values may be stale; a store is appended at the end. `tailAt`, `pushed`, `popped`,
    `popLog` and `room` are history: no step of either end consults them. */
module SpscMachine {
  import opened Basics
  import opened Words
  import opened SpscRing

  datatype ProducerOp<T> = Push(elem: T) | PushSlice(elems: seq<T>) | Available

  /** `tailIdx` and `headIdx` name the store that a load returned. */
  datatype Producer<T> =
    | Idle
    | HaveTail(op: ProducerOp<T>, tailIdx: nat)
    | HaveHead(op: ProducerOp<T>, tailIdx: nat, headIdx: nat)
    | Writing(elems: seq<T>, tailIdx: nat, next: nat, written: nat)
    | Dropped

  datatype Consumer<T> =
    | Ready
    | PopHead
    | PopTail(tailIdx: nat)
    | PopValue(value: T, next: nat)
    | LenTail(tailIdx: nat)
    | Gone

  datatype PopResult<T> = Value(value: T) | Empty | Closed

  datatype State<T> = State(
    n: nat,
    headLog: seq<nat>,
    tailLog: seq<nat>,
    slots: seq<Option<T>>,
    producer: Producer<T>,
    consumer: Consumer<T>,
    producerSeenTail: nat,
    producerSeenHead: nat,
    consumerSeenTail: nat,
    // history
    tailAt: seq<nat>,
    pushed: seq<T>,
    popped: seq<T>,
    popLog: seq<PopResult<T>>,
    room: nat)

  datatype Action<T> =
    | ProducerLoadTail(op: ProducerOp<T>, tailIdx: nat)
    | ProducerLoadHead(headIdx: nat)
    | ProducerDecide
    | ProducerWrite
    | ProducerStore
    | ProducerDrop
    | ConsumerLoadHead
    | ConsumerLoadTail(tailIdx: nat)
    | ConsumerRead
    | ConsumerStore
    | ConsumerLenTail(tailIdx: nat)
    | ConsumerLenHead
    | ConsumerDrop

  function Initial<T>(n: nat): State<T> {
    State(n, [0], [0], seq(n, _ => None), Idle, Ready, 0, 0, 0, [0], [], [], [], 0)
  }

  function Last(s: seq<nat>): nat
    requires s != []
  {
    s[|s| - 1]
  }

  /** The slot that `push` or `push_slice` writes its k-th element to. */
  function WriteSlot(n: nat, tail: nat, k: nat): int {
    var i := Index(n, tail) + k;
    if i < n then i else i - n
  }

  ghost predicate WellShaped<T>(s: State<T>) {
    && Capacity(s.n)
    && s.headLog != []
    && s.tailLog != []
  }

  /** Which steps the two ends can take. Slices longer than the capacity are not pushed here. */
  ghost predicate Enabled<T>(s: State<T>, a: Action<T>)
    requires WellShaped(s)
  {
    match a
    case ProducerLoadTail(op, i) =>
      && s.producer.Idle?
      && s.producerSeenTail <= i < |s.tailLog|
      && (op.PushSlice? ==> |op.elems| <= s.n)
    case ProducerLoadHead(j) => s.producer.HaveTail? && s.producerSeenHead <= j < |s.headLog|
    case ProducerDecide =>
      s.producer.HaveHead? && s.producer.tailIdx < |s.tailLog| && s.producer.headIdx < |s.headLog|
    case ProducerWrite =>
      && s.producer.Writing?
      && s.producer.written < |s.producer.elems|
      && s.producer.tailIdx < |s.tailLog|
      && 0 <= WriteSlot(s.n, s.tailLog[s.producer.tailIdx], s.producer.written) < |s.slots|
    case ProducerStore => s.producer.Writing? && s.producer.written == |s.producer.elems|
    case ProducerDrop => s.producer.Idle?
    case ConsumerLoadHead => s.consumer.Ready?
    case ConsumerLoadTail(i) => s.consumer.PopHead? && s.consumerSeenTail <= i < |s.tailLog|
    case ConsumerRead =>
      && s.consumer.PopTail?
      && s.consumer.tailIdx < |s.tailLog|
      && (!SeesEmpty(s, s.consumer.tailIdx) ==>
            Index(s.n, Last(s.headLog)) < |s.slots| && s.slots[Index(s.n, Last(s.headLog))].Some?)
    case ConsumerStore => s.consumer.PopValue?
    case ConsumerLenTail(i) => s.consumer.Ready? && s.consumerSeenTail <= i < |s.tailLog|
    case ConsumerLenHead => s.consumer.LenTail?
    case ConsumerDrop => s.consumer.Ready?
  }

  /** The test `tail & !CLOSED_BIT == head` of `pop`. */
  predicate SeesEmpty<T>(s: State<T>, tailIdx: nat)
    requires s.headLog != [] && tailIdx < |s.tailLog|
  {
    WithoutClosed(s.tailLog[tailIdx]) == Last(s.headLog)
  }

  function Apply<T>(s: State<T>, a: Action<T>): State<T>
    requires WellShaped(s) && Enabled(s, a)
  {
    match a
    case ProducerLoadTail(op, i) => s.(producer := HaveTail(op, i), producerSeenTail := i)
    case ProducerLoadHead(j) =>
      s.(producer := HaveHead(s.producer.op, s.producer.tailIdx, j), producerSeenHead := j)
    case ProducerDecide => Decide(s, s.producer.op, s.producer.tailIdx, s.producer.headIdx)
    case ProducerWrite =>
      var slot := WriteSlot(s.n, s.tailLog[s.producer.tailIdx], s.producer.written);
      s.(slots := s.slots[slot := Some(s.producer.elems[s.producer.written])],
         producer := s.producer.(written := s.producer.written + 1))
    case ProducerStore =>
      var len := |s.producer.elems|;
      s.(tailLog := s.tailLog + [s.producer.next],
         producerSeenTail := |s.tailLog|,
         tailAt := s.tailAt + [|s.pushed| + len],
         pushed := s.pushed + s.producer.elems,
         room := if len <= s.room then s.room - len else 0,
         producer := Idle)
    case ProducerDrop => Close(s).(producer := Dropped)
    case ConsumerLoadHead => s.(consumer := PopHead)
    case ConsumerLoadTail(i) => s.(consumer := PopTail(i), consumerSeenTail := i)
    case ConsumerRead =>
      if SeesEmpty(s, s.consumer.tailIdx) then
        s.(popLog := s.popLog + [if IsClosed(s.tailLog[s.consumer.tailIdx]) then Closed else Empty],
           consumer := Ready)
      else
        var head := Last(s.headLog);
        s.(consumer := PopValue(s.slots[Index(s.n, head)].value, NextWord(s.n, head)))
    case ConsumerStore =>
      s.(headLog := s.headLog + [s.consumer.next],
         popped := s.popped + [s.consumer.value],
         popLog := s.popLog + [Value(s.consumer.value)],
         consumer := Ready)
    case ConsumerLenTail(i) => s.(consumer := LenTail(i), consumerSeenTail := i)
    case ConsumerLenHead => s.(consumer := Ready)
    case ConsumerDrop => Close(s).(consumer := Gone)
  }

  /** `set_closed`: one read-modify-write of the newest tail. */
  function Close<T>(s: State<T>): State<T>
    requires s.tailLog != []
  {
    s.(tailLog := s.tailLog + [SetClosed(Last(s.tailLog))],
       tailAt := s.tailAt + (if s.tailAt == [] then [] else [Last(s.tailAt)]))
  }

  predicate PushRefused(n: nat, op: ProducerOp, tail: nat, head: nat)
    requires Capacity(n) && !op.Available?
  {
    match op
    case Push(_) => WrappingAdd(head, MaskBit(n)) == tail
    case PushSlice(elems) => WrappingAdd(head, MaskBit(n)) < NextSliceWord(n, tail, |elems|)
  }

  /** The tests that `push`, `push_slice` and `available` make on the loaded words. */
  function Decide<T>(s: State<T>, op: ProducerOp<T>, tailIdx: nat, headIdx: nat): State<T>
    requires WellShaped(s) && tailIdx < |s.tailLog| && headIdx < |s.headLog|
  {
    var tail, head := s.tailLog[tailIdx], s.headLog[headIdx];
    match op
    case Available =>
      var free := s.n - LenWord(s.n, tail, head);
      s.(producer := Idle, room := if IsClosed(tail) || free < 0 then 0 else free)
    case Push(elem) =>
      if IsClosed(tail) || PushRefused(s.n, op, tail, head) then s.(producer := Idle)
      else s.(producer := Writing([elem], tailIdx, NextWord(s.n, tail), 0))
    case PushSlice(elems) =>
      if IsClosed(tail) || PushRefused(s.n, op, tail, head) then s.(producer := Idle)
      else s.(producer := Writing(elems, tailIdx, NextSliceWord(s.n, tail, |elems|), 0))
  }

  // ----- the invariant -----

  /** Stored words stand for positions, in order, up to the published count. */
  ghost predicate WordsOk<T>(s: State<T>) {
    && Capacity(s.n)
    && |s.slots| == s.n
    && Enc(s.n, |s.pushed|) < CLOSED_BIT
    && |s.headLog| == |s.popped| + 1
    && (forall j :: 0 <= j < |s.headLog| ==> s.headLog[j] == Enc(s.n, j))
    && |s.tailLog| == |s.tailAt| > 0
    && (forall i :: 0 <= i < |s.tailLog| ==> Denotes(s.n, s.tailLog[i], s.tailAt[i]))
    && (forall i, j :: 0 <= i <= j < |s.tailAt| ==> s.tailAt[i] <= s.tailAt[j])
    && Last(s.tailAt) == |s.pushed|
  }

  /** Popped elements are the oldest pushed ones; the rest sits in the ring. */
  ghost predicate ContentsOk<T>(s: State<T>)
    requires Capacity(s.n) && |s.slots| == s.n
  {
    && s.popped <= s.pushed
    && |s.pushed| <= |s.popped| + s.n
    && (forall p :: |s.popped| <= p < |s.pushed| ==> s.slots[Slot(s.n, p)] == Some(s.pushed[p]))
  }

  /** What each end has seen of the other's word. */
  ghost predicate ViewsOk<T>(s: State<T>)
    requires |s.tailLog| == |s.tailAt|
  {
    && s.producerSeenTail < |s.tailLog|
    && (forall i :: s.producerSeenTail <= i < |s.tailAt| ==> s.tailAt[i] == |s.pushed|)
    && s.producerSeenHead <= |s.popped|
    && |s.pushed| + s.room <= s.producerSeenHead + s.n
    && s.consumerSeenTail < |s.tailLog|
    && |s.popped| <= s.tailAt[s.consumerSeenTail]
  }

  ghost predicate ProducerOk<T>(s: State<T>)
    requires Capacity(s.n) && |s.slots| == s.n
  {
    match s.producer
    case Idle => true
    case HaveTail(op, i) => i == s.producerSeenTail && (op.PushSlice? ==> |op.elems| <= s.n)
    case HaveHead(op, i, j) =>
      i == s.producerSeenTail && j == s.producerSeenHead && (op.PushSlice? ==> |op.elems| <= s.n)
    case Writing(elems, i, next, k) =>
      && i == s.producerSeenTail < |s.tailLog|
      && s.tailLog[i] == Enc(s.n, |s.pushed|)
      && k <= |elems| <= s.n
      && next == Enc(s.n, |s.pushed| + |elems|)
      && |s.pushed| + |elems| <= s.producerSeenHead + s.n
      && (forall j :: 0 <= j < k ==> s.slots[Slot(s.n, |s.pushed| + j)] == Some(elems[j]))
    case Dropped => s.tailLog != [] && IsClosed(Last(s.tailLog))
  }

  ghost predicate ConsumerOk<T>(s: State<T>)
    requires Capacity(s.n) && |s.tailAt| == |s.tailLog| && s.consumerSeenTail < |s.tailAt|
  {
    match s.consumer
    case PopTail(i) => i == s.consumerSeenTail
    case LenTail(i) => i == s.consumerSeenTail
    case PopValue(v, next) =>
      && |s.popped| < |s.pushed|
      && |s.popped| < s.tailAt[s.consumerSeenTail]
      && v == s.pushed[|s.popped|]
      && next == Enc(s.n, |s.popped| + 1)
    case _ => true
  }

  ghost function Values<T>(log: seq<PopResult<T>>): seq<T> {
    if log == [] then []
    else
      var rest, r := Values(log[..|log| - 1]), log[|log| - 1];
      if r.Value? then rest + [r.value] else rest
  }

  /** Once `pop` has answered `Closed`, it answers nothing else. */
  ghost predicate ClosedForever<T>(log: seq<PopResult<T>>) {
    forall i, j :: 0 <= i < j < |log| && log[i].Closed? ==> log[j].Closed?
  }

  /** What a closed word tells a consumer that is still there. */
  ghost predicate ClosingOk<T>(s: State<T>)
    requires |s.tailAt| == |s.tailLog| && s.consumerSeenTail < |s.tailLog|
  {
    && (!s.consumer.Gone? ==>
          forall i :: 0 <= i < |s.tailLog| && IsClosed(s.tailLog[i]) ==>
            s.producer.Dropped? && s.tailAt[i] == |s.pushed| && i == |s.tailLog| - 1)
    && Values(s.popLog) == s.popped
    && ClosedForever(s.popLog)
    && (Closed in s.popLog ==>
          && s.popped == s.pushed
          && s.producer.Dropped?
          && !s.consumer.PopValue?
          && (forall i :: s.consumerSeenTail <= i < |s.tailLog| ==> IsClosed(s.tailLog[i])))
  }

  ghost predicate Inv<T>(s: State<T>) {
    && WordsOk(s)
    && ContentsOk(s)
    && ViewsOk(s)
    && ProducerOk(s)
    && ConsumerOk(s)
    && ClosingOk(s)
  }

  // ----- every step keeps it -----

  lemma InitialInv<T>(n: nat)
    requires Capacity(n)
    ensures Inv(Initial<T>(n))
  {
    hide And, Or, MaskBit;
    WordFacts(n, 0, 0);
  }

  /** Before the lap bound is reached, all earlier positions have words below the closed bit too. */
  lemma Below(n: nat, p: nat, q: nat)
    requires Capacity(n) && p <= q && Enc(n, q) < CLOSED_BIT
    ensures Enc(n, p) <= Enc(n, q)
  {
    if p < q { EncMonotone(n, p, q); }
  }

  /** The refusal tests, read on positions. */
  lemma RefusalMeaning<T>(s: State<T>, op: ProducerOp<T>, i: nat, j: nat)
    requires Inv(s) && !op.Available? && (op.PushSlice? ==> |op.elems| <= s.n)
    requires s.producerSeenTail <= i < |s.tailLog| && s.producerSeenHead <= j < |s.headLog|
    requires !IsClosed(s.tailLog[i])
    ensures s.tailLog[i] == Enc(s.n, |s.pushed|)
    ensures var len := if op.Push? then 1 else |op.elems|;
            PushRefused(s.n, op, s.tailLog[i], s.headLog[j]) <==> j + s.n < |s.pushed| + len
  {
    hide And, Or, MaskBit, Enc, Slot;
    var n, p := s.n, |s.pushed|;
    WordFacts(n, s.tailLog[i], s.tailAt[i]);
    Below(n, j, p);
    LapAhead(n, j);
    match op
    case Push(_) =>
      if p < j + n { EncMonotone(n, p, j + n); }
    case PushSlice(elems) =>
      NextSliceIsSum(n, p, |elems|);
      if j + n < p + |elems| {
        EncMonotone(n, j + n, p + |elems|);
      } else if p + |elems| < j + n {
        EncMonotone(n, p + |elems|, j + n);
      }
  }

  lemma DecideKeepsInv<T>(s: State<T>)
    requires Inv(s) && s.producer.HaveHead?
    ensures Inv(Apply(s, ProducerDecide))
  {
    hide And, Or, MaskBit, Enc, Slot, NextWord, NextSliceWord, LenWord;
    var HaveHead(op, i, j) := s.producer;
    WordFacts(s.n, s.tailLog[i], s.tailAt[i]);
    if op.Available? {
      Below(s.n, j, |s.pushed|);
      LenIsDistance(s.n, s.tailLog[i], |s.pushed|, j);
    } else if !IsClosed(s.tailLog[i]) {
      RefusalMeaning(s, op, i, j);
      NextIsSuccessor(s.n, |s.pushed|);
      if op.PushSlice? {
        NextSliceIsSum(s.n, |s.pushed|, |op.elems|);
      }
    }
  }

  /** The element goes to the slot of its position, which no unread element occupies. */
  lemma WriteSlotIsFree<T>(s: State<T>, j: nat)
    requires Inv(s) && s.producer.Writing? && s.producer.written <= j < |s.producer.elems|
    ensures WriteSlot(s.n, s.tailLog[s.producer.tailIdx], j) == Slot(s.n, |s.pushed| + j)
    ensures forall p :: |s.popped| <= p < |s.pushed| + j ==> Slot(s.n, p) != Slot(s.n, |s.pushed| + j)
  {
    hide And, Or, MaskBit, Enc;
    var n, q := s.n, |s.pushed| + j;
    WordFacts(n, s.tailLog[s.producer.tailIdx], |s.pushed|);
    EncAdd(n, |s.pushed|, j);
    forall p | |s.popped| <= p < q
      ensures Slot(n, p) != Slot(n, q)
    {
      SlotsDiffer(n, p, q);
    }
  }

  lemma WriteKeepsInv<T>(s: State<T>)
    requires Inv(s) && Enabled(s, ProducerWrite)
    ensures Inv(Apply(s, ProducerWrite))
  {
    hide And, Or, MaskBit, Enc, Slot;
    WriteSlotIsFree(s, s.producer.written);
  }

  lemma StoreKeepsInv<T>(s: State<T>)
    requires Inv(s) && Enabled(s, ProducerStore)
    requires Enc(s.n, |Apply(s, ProducerStore).pushed|) < CLOSED_BIT
    ensures Inv(Apply(s, ProducerStore))
  {
    hide And, Or, MaskBit, Enc, Slot, IsClosed, ClosingOk, ContentsOk, Values, ClosedForever;
    StoreKeepsClosing(s);
    StoreKeepsContents(s);
  }

  lemma StoreKeepsContents<T>(s: State<T>)
    requires Inv(s) && Enabled(s, ProducerStore)
    ensures ContentsOk(Apply(s, ProducerStore)) && |s.pushed| <= |Apply(s, ProducerStore).pushed|
  {
    hide And, Or, MaskBit, Enc, Slot, IsClosed, ClosingOk, Values, ClosedForever;
    var t := Apply(s, ProducerStore);
    forall p | |t.popped| <= p < |t.pushed|
      ensures t.slots[Slot(t.n, p)] == Some(t.pushed[p])
    {
      if p >= |s.pushed| {
        assert p == |s.pushed| + (p - |s.pushed|);
      }
    }
  }

  lemma StoreKeepsClosing<T>(s: State<T>)
    requires Inv(s) && Enabled(s, ProducerStore)
    requires Enc(s.n, |Apply(s, ProducerStore).pushed|) < CLOSED_BIT
    ensures ClosingOk(Apply(s, ProducerStore))
  {
    hide And, Or, MaskBit, Enc, Slot, IsClosed, ContentsOk;
    var t := Apply(s, ProducerStore);
    WordFacts(s.n, s.producer.next, |t.pushed|);
    assert Closed !in s.popLog;
  }

  /** `set_closed` itself keeps the stored words and the views in order. */
  lemma CloseKeepsWords<T>(s: State<T>)
    requires Inv(s)
    ensures WordsOk(Close(s)) && ViewsOk(Close(s)) && IsClosed(Last(Close(s).tailLog))
  {
    hide And, Or, MaskBit, Enc, Slot, IsClosed, SetClosed;
    WordFacts(s.n, Last(s.tailLog), |s.pushed|);
  }

  lemma ProducerDropKeepsInv<T>(s: State<T>)
    requires Inv(s) && Enabled(s, ProducerDrop)
    ensures Inv(Apply(s, ProducerDrop))
  {
    hide And, Or, MaskBit, Enc, Slot, IsClosed, SetClosed;
    CloseKeepsWords(s);
  }

  lemma ConsumerDropKeepsInv<T>(s: State<T>)
    requires Inv(s) && Enabled(s, ConsumerDrop)
    ensures Inv(Apply(s, ConsumerDrop))
  {
    hide And, Or, MaskBit, Enc, Slot, IsClosed, SetClosed;
    CloseKeepsWords(s);
  }

  /** An empty or closed answer, read on positions. */
  lemma SeesEmptyMeaning<T>(s: State<T>, i: nat)
    requires Inv(s) && s.consumerSeenTail <= i < |s.tailLog|
    ensures SeesEmpty(s, i) <==> s.tailAt[i] == |s.popped|
    ensures |s.popped| <= s.tailAt[i] <= |s.pushed|
    ensures Index(s.n, Last(s.headLog)) == Slot(s.n, |s.popped|)
  {
    hide And, Or, MaskBit, Enc, Slot;
    Below(s.n, s.tailAt[i], |s.pushed|);
    Below(s.n, |s.popped|, |s.pushed|);
    WordFacts(s.n, s.tailLog[i], s.tailAt[i]);
    WordFacts(s.n, Last(s.headLog), |s.popped|);
    if SeesEmpty(s, i) {
      EncInjective(s.n, s.tailAt[i], |s.popped|);
    }
  }

  lemma EmptyKeepsInv<T>(s: State<T>)
    requires Inv(s) && Enabled(s, ConsumerRead) && SeesEmpty(s, s.consumer.tailIdx)
    ensures Inv(Apply(s, ConsumerRead))
  {
    hide And, Or, MaskBit, Enc, Slot, IsClosed, SeesEmpty, ClosingOk, Values, ClosedForever;
    EmptyKeepsClosing(s);
  }

  lemma AllPopped<T>(s: State<T>)
    requires Capacity(s.n) && |s.slots| == s.n && ContentsOk(s)
    ensures |s.popped| <= |s.pushed|
    ensures |s.popped| >= |s.pushed| ==> s.popped == s.pushed
  {
    hide Slot;
  }

  lemma EmptyKeepsClosing<T>(s: State<T>)
    requires Inv(s) && Enabled(s, ConsumerRead) && SeesEmpty(s, s.consumer.tailIdx)
    ensures ClosingOk(Apply(s, ConsumerRead))
  {
    hide And, Or, MaskBit, Enc, Slot, IsClosed, SeesEmpty, ContentsOk, ProducerOk, Values, ClosedForever;
    SeesEmptyMeaning(s, s.consumer.tailIdx);
    AllPopped(s);
    var t := Apply(s, ConsumerRead);
    LogGrows(s.popLog, t.popLog[|s.popLog|]);
  }

  /** An answer without a value at the end of the log. */
  lemma LogGrows<T>(log: seq<PopResult<T>>, r: PopResult<T>)
    requires ClosedForever(log) && !r.Value? && (Closed in log ==> r.Closed?)
    ensures Values(log + [r]) == Values(log) && ClosedForever(log + [r])
    ensures Closed in log + [r] <==> Closed in log || r.Closed?
  {
    assert (log + [r])[..|log|] == log;
    assert (log + [r])[|log|] == r;
  }

  lemma ReadKeepsInv<T>(s: State<T>)
    requires Inv(s) && Enabled(s, ConsumerRead) && !SeesEmpty(s, s.consumer.tailIdx)
    ensures Inv(Apply(s, ConsumerRead))
  {
    hide And, Or, MaskBit, Enc, Slot, IsClosed, SeesEmpty;
    SeesEmptyMeaning(s, s.consumer.tailIdx);
    Below(s.n, |s.popped|, |s.pushed|);
    NextIsSuccessor(s.n, |s.popped|);
  }

  lemma ConsumerStoreKeepsInv<T>(s: State<T>)
    requires Inv(s) && Enabled(s, ConsumerStore)
    ensures Inv(Apply(s, ConsumerStore))
  {
    hide And, Or, MaskBit, Enc, Slot;
    var t := Apply(s, ConsumerStore);
    assert t.popLog[..|t.popLog| - 1] == s.popLog;
  }

  lemma StepKeepsInv<T>(s: State<T>, a: Action<T>)
    requires Inv(s) && Enabled(s, a)
    requires Enc(s.n, |Apply(s, a).pushed|) < CLOSED_BIT
    ensures Inv(Apply(s, a))
  {
    hide Inv, Enc, SeesEmpty, Apply;
    InvShape(s);
    match a
    case ProducerDecide => DecideKeepsInv(s);
    case ProducerWrite => WriteKeepsInv(s);
    case ProducerStore => StoreKeepsInv(s);
    case ProducerDrop => ProducerDropKeepsInv(s);
    case ConsumerRead =>
      if SeesEmpty(s, s.consumer.tailIdx) {
        EmptyKeepsInv(s);
      } else {
        ReadKeepsInv(s);
      }
    case ConsumerStore => ConsumerStoreKeepsInv(s);
    case ConsumerDrop => ConsumerDropKeepsInv(s);
    case _ => LoadKeepsInv(s, a);
  }

  lemma InvShape<T>(s: State<T>)
    requires Inv(s)
    ensures WellShaped(s)
  {
  }

  /** Steps that only load. */
  lemma LoadKeepsInv<T>(s: State<T>, a: Action<T>)
    requires Inv(s) && Enabled(s, a)
    requires a.ProducerLoadTail? || a.ProducerLoadHead? || a.ConsumerLoadHead? || a.ConsumerLoadTail?
             || a.ConsumerLenTail? || a.ConsumerLenHead?
    ensures Inv(Apply(s, a))
  {
    hide Inv, Apply;
    if a.ProducerLoadTail? || a.ProducerLoadHead? {
      ProducerLoadKeepsInv(s, a);
    } else {
      ConsumerLoadKeepsInv(s, a);
    }
  }

  lemma ProducerLoadKeepsInv<T>(s: State<T>, a: Action<T>)
    requires Inv(s) && Enabled(s, a) && (a.ProducerLoadTail? || a.ProducerLoadHead?)
    ensures Inv(Apply(s, a))
  {
    hide And, Or, MaskBit, Enc, Slot, IsClosed, SeesEmpty, Close, Decide, Values, ClosedForever;
  }

  lemma ConsumerLoadKeepsInv<T>(s: State<T>, a: Action<T>)
    requires Inv(s) && Enabled(s, a)
    requires a.ConsumerLoadHead? || a.ConsumerLoadTail? || a.ConsumerLenTail? || a.ConsumerLenHead?
    ensures Inv(Apply(s, a))
  {
    hide And, Or, MaskBit, Enc, Slot, IsClosed, SeesEmpty, Close, Decide, Values, ClosedForever;
    hide ContentsOk, ProducerOk;
    var t := Apply(s, a);
    SharedFrame(s, t);
  }

  /** The parts of the invariant that do not concern the consumer's own state. */
  lemma SharedFrame<T>(s: State<T>, t: State<T>)
    requires Inv(s)
    requires t == s.(consumer := t.consumer, consumerSeenTail := t.consumerSeenTail, popLog := t.popLog)
    ensures WordsOk(t) && ContentsOk(t) && ProducerOk(t)
  {
    hide Enc, Slot, IsClosed;
  }
}
