/** Exactly which pending polls are woken. */
module ExecutorWakeups {
  import opened Basics
  import opened Executor
  import opened ExecutorTheorems

  /** Step `r` of the run is the one in which poll `p` of task `t` registers its waker. */
  ghost predicate Registers<R, T>(states: seq<State<R, T>>, actions: seq<Action<R, T>>, r: nat, t: nat, p: nat) {
    && r < |actions| && |states| == |actions| + 1
    && actions[r] == PollStep(t)
    && t < |states[r].tasks|
    && states[r].tasks[t].pc.HoldsBoth?
    && states[r].tasks[t].polls == p
  }

  /** At that step the executor has not taken the task's waker yet. */
  ghost predicate InTime<R, T>(states: seq<State<R, T>>, r: nat, t: nat)
    requires r < |states|
  {
    !HasTakenWaker(PhaseOf(states[r], t))
  }

  // ----- a pending poll has registered -----

  /** The poll has registered, or was the last to return and returned pending. */
  predicate Waits<T>(t: Task<T>, p: nat) {
    (HasRegistered(t.pc) && t.polls == p) || t.last == Pending(p)
  }

  lemma WaitsBefore<R, T>(start: R, s: State<R, T>, a: Action<R, T>, t: nat, p: nat)
    requires Inv(start, s) && Enabled(s, a) && t < |Apply(s, a).tasks| && Waits(Apply(s, a).tasks[t], p)
    ensures t < |s.tasks|
    ensures Waits(s.tasks[t], p) || (a == PollStep(t) && s.tasks[t].pc.HoldsBoth? && s.tasks[t].polls == p)
  {
    hide Inv;
    InvShape(start, s);
  }

  lemma InvShape<R, T>(start: R, s: State<R, T>)
    requires Inv(start, s)
    ensures |s.jobs| == |s.tasks| && s.received <= |s.tasks| && (!s.exec.Receiving? ==> s.received > 0)
  {
  }

  lemma {:induction false} RegisteredAt<R, T>(runtime: R, states: seq<State<R, T>>, actions: seq<Action<R, T>>,
                                              i: nat, t: nat, p: nat) returns (r: nat)
    requires Run(runtime, states, actions) && i < |states| && t < |states[i].tasks| && Waits(states[i].tasks[t], p)
    ensures r < i && Registers(states, actions, r, t, p)
  {
    hide Inv, Enabled, Apply, Waits;
    if i == 0 {
      assert false;
    } else {
      RunKeepsInv(runtime, states, actions, i - 1);
      assert states[i - 1 + 1] == Apply(states[i - 1], actions[i - 1]) && Enabled(states[i - 1], actions[i - 1]);
      WaitsBefore(runtime, states[i - 1], actions[i - 1], t, p);
      if Waits(states[i - 1].tasks[t], p) {
        r := RegisteredAt(runtime, states, actions, i - 1, t, p);
      } else {
        r := i - 1;
      }
    }
  }

  // ----- what becomes of a registered waker -----

  /** A waker that came too late: it is not woken and nobody will take it. */
  ghost predicate TooLate<T>(t: Task<T>, p: Phase<T>, poll: nat) {
    p.Finished? && poll !in t.woken
  }

  /** A waker that came in time, while no later poll has begun: registered, taken or woken. */
  ghost predicate OnItsWay<T>(t: Task<T>, p: Phase<T>, poll: nat) {
    t.polls == poll ==>
      && (HasRegistered(t.pc) || t.pc.Outside?)
      && ((!HasTakenWaker(p) && t.waker == Some(poll)) || (p.Current? && p.pc == Waking(Some(poll))) || poll in t.woken)
  }

  /** Polls are only ever counted up. */
  lemma StepCounts<R, T>(start: R, s: State<R, T>, a: Action<R, T>, t: nat)
    requires Inv(start, s) && Enabled(s, a) && t < |s.tasks|
    ensures t < |Apply(s, a).tasks| && s.tasks[t].polls <= Apply(s, a).tasks[t].polls
  {
    hide Inv;
    InvShape(start, s);
  }

  lemma StepTooLate<R, T>(start: R, s: State<R, T>, a: Action<R, T>, t: nat, poll: nat)
    requires Inv(start, s) && Enabled(s, a) && t < |s.tasks| && TooLate(s.tasks[t], PhaseOf(s, t), poll)
    ensures t < |Apply(s, a).tasks| && TooLate(Apply(s, a).tasks[t], PhaseOf(Apply(s, a), t), poll)
  {
    FinishedStep(start, s, a, t);
  }

  lemma StepOnItsWay<R, T>(start: R, s: State<R, T>, a: Action<R, T>, t: nat, poll: nat)
    requires Inv(start, s) && Enabled(s, a) && t < |s.tasks| && s.tasks[t].polls >= poll
    requires OnItsWay(s.tasks[t], PhaseOf(s, t), poll)
    ensures t < |Apply(s, a).tasks| && OnItsWay(Apply(s, a).tasks[t], PhaseOf(Apply(s, a), t), poll)
  {
    hide Inv;
    InvShape(start, s);
  }

  /** The registering step itself. */
  lemma RegisterStep<R, T>(start: R, s: State<R, T>, t: nat)
    requires Inv(start, s) && t < |s.tasks| && s.tasks[t].pc.HoldsBoth?
    ensures var s', p := Apply(s, PollStep(t)), s.tasks[t].polls;
            && t < |s'.tasks| && s'.tasks[t].polls == p
            && (if HasTakenWaker(PhaseOf(s, t)) then TooLate(s'.tasks[t], PhaseOf(s', t), p)
                else OnItsWay(s'.tasks[t], PhaseOf(s', t), p))
  {
    hide RuntimeAfter, Expected;
    assert TaskOk(s.tasks[t], PhaseOf(s, t), Expected(start, s.jobs, t));
  }

  lemma {:induction false} AfterRegistering<R, T>(runtime: R, states: seq<State<R, T>>, actions: seq<Action<R, T>>,
                                                  r: nat, i: nat, t: nat, p: nat)
    requires Run(runtime, states, actions) && Registers(states, actions, r, t, p) && r < i < |states|
    ensures t < |states[i].tasks| && states[i].tasks[t].polls >= p
    ensures !InTime(states, r, t) ==> TooLate(states[i].tasks[t], PhaseOf(states[i], t), p)
    ensures InTime(states, r, t) ==> OnItsWay(states[i].tasks[t], PhaseOf(states[i], t), p)
    decreases i
  {
    hide Inv, Enabled, Apply, TooLate, OnItsWay;
    RunKeepsInv(runtime, states, actions, i - 1);
    assert states[i - 1 + 1] == Apply(states[i - 1], actions[i - 1]) && Enabled(states[i - 1], actions[i - 1]);
    if i == r + 1 {
      RegisterStep(runtime, states[r], t);
    } else {
      AfterRegistering(runtime, states, actions, r, i - 1, t, p);
      StepCounts(runtime, states[i - 1], actions[i - 1], t);
      if InTime(states, r, t) {
        StepOnItsWay(runtime, states[i - 1], actions[i - 1], t, p);
      } else {
        StepTooLate(runtime, states[i - 1], actions[i - 1], t, p);
      }
    }
  }

  /** In every run, once the iteration for a task is over, a poll that is the last one and returned
      pending has had its waker woken exactly when it registered before the executor took the waker;
      whether the future had answered before does not matter. */
  lemma WokenIff<R, T>(runtime: R, states: seq<State<R, T>>, actions: seq<Action<R, T>>, i: nat, t: nat, p: nat)
    returns (r: nat)
    requires Run(runtime, states, actions) && i < |states| && t < |states[i].tasks|
    requires PhaseOf(states[i], t).Finished? && states[i].tasks[t].pc.Outside? && states[i].tasks[t].last == Pending(p)
    ensures r < i && Registers(states, actions, r, t, p)
    ensures p in states[i].tasks[t].woken <==> InTime(states, r, t)
  {
    hide RuntimeAfter, Expected, Run;
    r := RegisteredAt(runtime, states, actions, i, t, p);
    AfterRegistering(runtime, states, actions, r, i, t, p);
    RunKeepsInv(runtime, states, actions, i);
    assert TaskOk(states[i].tasks[t], PhaseOf(states[i], t), Expected(runtime, states[i].jobs, t));
  }

  // ----- the two sides -----

  /** A future that has not answered registers in time. */
  lemma UnansweredIsInTime<R, T>(start: R, s: State<R, T>, t: nat)
    requires Inv(start, s) && t < |s.tasks| && s.tasks[t].pc.HoldsBoth? && s.tasks[t].delivered == []
    ensures !HasTakenWaker(PhaseOf(s, t))
  {
    hide RuntimeAfter, Expected;
    assert TaskOk(s.tasks[t], PhaseOf(s, t), Expected(start, s.jobs, t));
  }

  lemma {:induction false} DeliveredGrows<R, T>(runtime: R, states: seq<State<R, T>>, actions: seq<Action<R, T>>,
                                                r: nat, i: nat, t: nat)
    requires Run(runtime, states, actions) && r <= i < |states| && t < |states[r].tasks|
    ensures t < |states[i].tasks| && |states[r].tasks[t].delivered| <= |states[i].tasks[t].delivered|
    decreases i
  {
    hide Inv;
    if r < i {
      DeliveredGrows(runtime, states, actions, r, i - 1, t);
      RunKeepsInv(runtime, states, actions, i - 1);
      InvShape(runtime, states[i - 1]);
      assert states[i - 1 + 1] == Apply(states[i - 1], actions[i - 1]) && Enabled(states[i - 1], actions[i - 1]);
    }
  }

  /** Under the contract of futures no pending poll is forgotten. */
  lemma PendingPollsAreWoken<R, T>(runtime: R, states: seq<State<R, T>>, actions: seq<Action<R, T>>, i: nat, t: nat)
    requires ContractRun(runtime, states, actions) && i < |states| && t < |states[i].tasks|
    requires PhaseOf(states[i], t).Finished?
    requires states[i].tasks[t].last.Pending? && states[i].tasks[t].pc.Outside?
    ensures states[i].tasks[t].last.poll in states[i].tasks[t].woken
  {
    hide Inv, Run;
    var r := WokenIff(runtime, states, actions, i, t, states[i].tasks[t].last.poll);
    RunAnsweredLast(runtime, states, actions, i, t);
    DeliveredGrows(runtime, states, actions, r, i, t);
    RunKeepsInv(runtime, states, actions, r);
    UnansweredIsInTime(runtime, states[r], t);
  }

  lemma {:induction false} PollsGrow<R, T>(runtime: R, states: seq<State<R, T>>, actions: seq<Action<R, T>>,
                                           r: nat, i: nat, t: nat)
    requires Run(runtime, states, actions) && r <= i < |states| && t < |states[r].tasks|
    ensures t < |states[i].tasks| && states[r].tasks[t].polls <= states[i].tasks[t].polls
    decreases i
  {
    hide Inv, Enabled, Apply;
    if r < i {
      PollsGrow(runtime, states, actions, r, i - 1, t);
      RunKeepsInv(runtime, states, actions, i - 1);
      assert states[i - 1 + 1] == Apply(states[i - 1], actions[i - 1]) && Enabled(states[i - 1], actions[i - 1]);
      StepCounts(runtime, states[i - 1], actions[i - 1], t);
    }
  }

  /** A poll begun after the iteration, which finds nothing once the future has answered, never has its
      waker woken. */
  lemma LatePollNeverWoken<R, T>(runtime: R, states: seq<State<R, T>>, actions: seq<Action<R, T>>,
                                 i: nat, j: nat, t: nat)
    requires Run(runtime, states, actions) && i <= j < |states| && t < |states[i].tasks|
    requires PhaseOf(states[i], t).Finished? && states[i].tasks[t].delivered != []
    ensures t < |states[j].tasks| && !states[j].tasks[t].result.Some?
    ensures states[j].tasks[t].last.Pending? && states[j].tasks[t].last.poll > states[i].tasks[t].polls ==>
              states[j].tasks[t].last.poll !in states[j].tasks[t].woken
  {
    hide Run, Registers;
    FinishedStaysQuiet(runtime, states, actions, i, j, t);
    var last := states[j].tasks[t].last;
    if last.Pending? && last.poll > states[i].tasks[t].polls {
      var r := RegisteredAt(runtime, states, actions, j, t, last.poll);
      RegistersShape(states, actions, r, t, last.poll);
      if r < i {
        PollsGrow(runtime, states, actions, r, i, t);
      } else {
        FinishedStaysQuiet(runtime, states, actions, i, r, t);
        AfterRegistering(runtime, states, actions, r, j, t, last.poll);
      }
    }
  }

  lemma RegistersShape<R, T>(states: seq<State<R, T>>, actions: seq<Action<R, T>>, r: nat, t: nat, p: nat)
    requires Registers(states, actions, r, t, p)
    ensures r < |states| && t < |states[r].tasks| && states[r].tasks[t].polls == p
  {
  }

  // ----- a run in which it happens -----

  ghost function Next<R, T>(states: seq<State<R, T>>, a: Action<R, T>): seq<State<R, T>>
    requires states != []
    requires var s := states[|states| - 1]; |s.jobs| == |s.tasks| && Enabled(s, a)
  {
    states + [Apply(states[|states| - 1], a)]
  }

  lemma RunOneMore<R, T>(runtime: R, states: seq<State<R, T>>, actions: seq<Action<R, T>>, a: Action<R, T>)
    requires Run(runtime, states, actions)
    requires var s := states[|actions|]; |s.jobs| == |s.tasks| && Enabled(s, a)
    ensures Run(runtime, Next(states, a), actions + [a])
    ensures Next(states, a)[|actions| + 1] == Apply(states[|actions|], a)
  {
    hide Enabled, Apply;
    var more, acts := Next(states, a), actions + [a];
    assert forall i :: 0 <= i < |states| ==> more[i] == states[i];
    assert forall i :: 0 <= i < |actions| ==> acts[i] == actions[i];
  }

  /** A task that has run without being polled. */
  ghost predicate Ran<R, T>(s: State<R, T>) {
    && |s.jobs| == |s.tasks| == s.received == 1 && s.exec.Receiving?
    && s.tasks[0].result.Some?
    && s.tasks[0] == NewTask<T>().(result := s.tasks[0].result)
  }

  lemma OneIteration<R, T>(runtime: R, job: Job<R, T>) returns (states: seq<State<R, T>>, actions: seq<Action<R, T>>)
    ensures Run(runtime, states, actions) && Ran(states[|actions|])
  {
    states, actions := [Init(runtime)], [];
    RunOneMore(runtime, states, actions, Spawn(job));
    states, actions := Next(states, Spawn(job)), actions + [Spawn(job)];
    var k := 0;
    while k < 9
      invariant k <= 9 && Run(runtime, states, actions)
      invariant Halfway(states[|actions|], k)
      invariant states[|actions|].jobs == [job]
    {
      var s := states[|actions|];
      assert |s.jobs| == |s.tasks| && ExecEnabled(s);
      RunOneMore(runtime, states, actions, ExecStep);
      HalfwayStep(s, k);
      states, actions := Next(states, ExecStep), actions + [ExecStep];
      k := k + 1;
    }
  }

  /** The executor after `k` steps of the first iteration, with no poll made. */
  ghost predicate Halfway<R, T>(s: State<R, T>, k: nat) {
    && |s.jobs| == |s.tasks| == 1
    && s.received == (if k == 0 then 0 else 1)
    && (match s.exec
        case Receiving => k == 0 || k == 9
        case Fetched => k == 1
        case Locked => k == 2
        case Computed(_) => k == 3
        case Stored => k == 4
        case OpDone => k == 5
        case StateLocked => k == 6
        case Waking(w) => k == 7 && w == None
        case Releasing => k == 8)
    && (s.tasks[0].result.Some? <==> k >= 4)
    && s.tasks[0] == NewTask<T>().(result := s.tasks[0].result,
                                   resultLock := if 2 <= k <= 4 then ByExecutor else Free,
                                   stateLock := if 6 <= k <= 8 then ByExecutor else Free)
  }

  lemma HalfwayStep<R, T>(s: State<R, T>, k: nat)
    requires k < 9 && Halfway(s, k)
    ensures ExecEnabled(s) && Halfway(ExecOnce(s), k + 1) && ExecOnce(s).jobs == s.jobs
  {
  }

  /** The calls of two polls, the first of which answers. */
  function PollAction<R, T>(k: nat): Action<R, T> {
    if k == 0 || k == 4 then StartPoll(0) else PollStep(0)
  }

  /** A finished task after `k` steps of the two polls. */
  ghost predicate PolledTwice<T>(t: Task<T>, x: Outcome<T>, k: nat) {
    t == Task(
      if k < 3 then Some(x) else None,
      if k < 9 then None else Some(2),
      if k == 2 || k == 3 || 6 <= k <= 10 then ByPoller else Free,
      if k == 8 || k == 9 then ByPoller else Free,
      PcAt(k, x),
      if k == 0 then 0 else if k < 5 then 1 else 2,
      if k < 4 then Never else if k < 11 then Ready(x) else Pending(2),
      if k < 3 then [] else [x],
      {})
  }

  function PcAt<T>(k: nat, x: Outcome<T>): PollPc<T> {
    if k == 1 || k == 5 then WantsResult
    else if k == 2 || k == 6 then HoldsResult
    else if k == 3 then Leaving(Some(x))
    else if k == 7 then WantsState
    else if k == 8 then HoldsBoth
    else if k == 9 then Registered
    else if k == 10 then Leaving(None)
    else Outside
  }

  lemma PolledTwiceStep<T>(t: Task<T>, x: Outcome<T>, k: nat)
    requires k < 11 && PolledTwice(t, x, k)
    ensures k == 0 || k == 4 ==> t.pc.Outside? && PolledTwice(Begin(t), x, k + 1)
    ensures k != 0 && k != 4 ==> PollEnabled(t) && PolledTwice(PollOnce(t), x, k + 1)
  {
  }

  /** For every job there is a run in which the task is finished, its future has answered and is polled
      again: that poll returns pending, nothing can move any more, and its waker is not woken. */
  lemma PollAfterAnswerHangs<R, T>(runtime: R, job: Job<R, T>)
    returns (states: seq<State<R, T>>, actions: seq<Action<R, T>>)
    ensures Run(runtime, states, actions)
    ensures var s := states[|actions|];
            && |s.tasks| == 1 && PhaseOf(s, 0).Finished? && Quiet(s)
            && |s.tasks[0].delivered| == 1 && s.tasks[0].pc.Outside?
            && s.tasks[0].last == Pending(2) && s.tasks[0].woken == {}
  {
    hide PollOnce, Begin, PollEnabled;
    states, actions := OneIteration(runtime, job);
    var x := states[|actions|].tasks[0].result.value;
    var k := 0;
    while k < 11
      invariant k <= 11 && Run(runtime, states, actions)
      invariant var s := states[|actions|];
                |s.jobs| == |s.tasks| == s.received == 1 && s.exec.Receiving? && PolledTwice(s.tasks[0], x, k)
    {
      var a := PollAction<R, T>(k);
      PolledTwiceStep(states[|actions|].tasks[0], x, k);
      RunOneMore(runtime, states, actions, a);
      states, actions := Next(states, a), actions + [a];
      k := k + 1;
    }
    NotPolling(states[|actions|].tasks[0]);
  }

  lemma NotPolling<T>(t: Task<T>)
    requires t.pc.Outside?
    ensures !PollEnabled(t)
  {
  }

  // ----- wakers are used up -----

  /** A waker that is registered, or in the executor's hands, has not been woken, and it is in one place
      only. */
  ghost predicate NotWokenYet<T>(t: Task<T>, p: Phase<T>) {
    && (t.waker.Some? ==> t.waker.value !in t.woken)
    && (p.Current? && p.pc.Waking? && p.pc.waker.Some? ==>
          p.pc.waker.value !in t.woken && t.waker != p.pc.waker)
  }

  lemma PollKeepsUnwoken<T>(t: Task<T>, p: Phase<T>, expected: Outcome<T>)
    requires TaskOk(t, p, expected) && PollEnabled(t) && NotWokenYet(t, p)
    ensures NotWokenYet(PollOnce(t), p)
  {
    hide ResultOk, WakerOk;
  }

  lemma ExecKeepsUnwoken<T>(t: Task<T>, pc: ExecPc<T>, ran: Outcome<T>, expected: Outcome<T>)
    requires TaskOk(t, Current(pc), expected) && !pc.Receiving? && NotWokenYet(t, Current(pc))
    ensures var next := NextPc(pc, t.waker, ran);
            NotWokenYet(ExecOnTask(t, pc), if next.Receiving? then Finished else Current(next))
  {
    hide ResultOk, WakerOk;
  }

  lemma StepKeepsUnwoken<R, T>(start: R, s: State<R, T>, a: Action<R, T>, t: nat)
    requires Inv(start, s) && Enabled(s, a) && t < |s.tasks| && NotWokenYet(s.tasks[t], PhaseOf(s, t))
    ensures t < |Apply(s, a).tasks| && NotWokenYet(Apply(s, a).tasks[t], PhaseOf(Apply(s, a), t))
  {
    hide RuntimeAfter, Expected, TaskOk, PollOnce, ExecOnTask;
    var expected := Expected(start, s.jobs, t);
    assert TaskOk(s.tasks[t], PhaseOf(s, t), expected);
    if a == PollStep(t) {
      PollKeepsUnwoken(s.tasks[t], PhaseOf(s, t), expected);
    } else if a.ExecStep? && !s.exec.Receiving? && t == s.received - 1 {
      ExecKeepsUnwoken(s.tasks[t], s.exec, OutcomeOf(s.jobs[t](s.runtime).0), expected);
    }
  }

  /** The executor takes a waker to wake it: in every run, no waker that is still registered has been
      woken, so each is woken at most once. */
  lemma {:induction false} WakersAreTaken<R, T>(runtime: R, states: seq<State<R, T>>, actions: seq<Action<R, T>>,
                                                i: nat, t: nat)
    requires Run(runtime, states, actions) && i < |states| && t < |states[i].tasks|
    ensures NotWokenYet(states[i].tasks[t], PhaseOf(states[i], t))
    decreases i
  {
    hide Inv, Enabled, NotWokenYet;
    if i == 0 {
      assert false;
    } else {
      var s, a := states[i - 1], actions[i - 1];
      RunKeepsInv(runtime, states, actions, i - 1);
      assert states[i - 1 + 1] == Apply(s, a) && Enabled(s, a);
      if t < |s.tasks| {
        WakersAreTaken(runtime, states, actions, i - 1, t);
        StepKeepsUnwoken(runtime, s, a, t);
      } else {
        NewTaskUnwoken(s, a, t);
      }
    }
  }

  lemma NewTaskUnwoken<R, T>(s: State<R, T>, a: Action<R, T>, t: nat)
    requires |s.jobs| == |s.tasks| && Enabled(s, a) && |s.tasks| <= t < |Apply(s, a).tasks|
    ensures NotWokenYet(Apply(s, a).tasks[t], PhaseOf(Apply(s, a), t))
  {
  }
}
