/** What every interleaving of polls and the executor guarantees. */
module ExecutorTheorems {
  import opened Basics
  import opened Executor

  // ----- results -----

  /** Tasks run one at a time in the order they were sent: whatever the interleaving, the runtime is
      the one that the jobs executed so far leave behind one after the other, and a future answers
      at most once, with the outcome its job has in that sequence, a panic included. */
  lemma ResultsAreSequential<R, T>(runtime: R, states: seq<State<R, T>>, actions: seq<Action<R, T>>, i: nat, t: nat)
    requires Run(runtime, states, actions) && i < |states| && t < |states[i].tasks|
    ensures var s := states[i];
            && |s.jobs| == |s.tasks| && 0 <= Executed(s) <= |s.jobs|
            && s.runtime == RuntimeAfter(runtime, s.jobs[..Executed(s)])
            && s.tasks[t].delivered <= [Expected(runtime, s.jobs, t)]
            && (s.tasks[t].last.Ready? ==> s.tasks[t].last.outcome == Expected(runtime, s.jobs, t))
            && (s.tasks[t].delivered != [] || s.tasks[t].result.Some? ==> t < Executed(s))
  {
    hide RuntimeAfter, Expected;
    RunKeepsInv(runtime, states, actions, i);
    var s := states[i];
    assert TaskOk(s.tasks[t], PhaseOf(s, t), Expected(runtime, s.jobs, t));
  }

  // ----- wakeups -----

  /** Callers that stop polling a future once it has answered. */
  ghost predicate ContractRun<R, T>(runtime: R, states: seq<State<R, T>>, actions: seq<Action<R, T>>) {
    && Run(runtime, states, actions)
    && forall i :: 0 <= i < |actions| && actions[i].StartPoll? ==>
         actions[i].task < |states[i].tasks| && !states[i].tasks[actions[i].task].last.Ready?
  }

  /** The result was handed over by the last poll or by the one under way. */
  ghost predicate AnsweredLast<T>(t: Task<T>) {
    t.delivered != [] ==> (t.pc.Leaving? && t.pc.answer.Some?) || (t.last.Ready? && t.pc.Outside?)
  }

  lemma StepAnsweredLast<R, T>(start: R, s: State<R, T>, a: Action<R, T>, t: nat)
    requires Inv(start, s) && Enabled(s, a) && t < |s.tasks| && AnsweredLast(s.tasks[t])
    requires a.StartPoll? ==> !s.tasks[a.task].last.Ready?
    ensures t < |Apply(s, a).tasks| && AnsweredLast(Apply(s, a).tasks[t])
  {
    hide RuntimeAfter, Expected;
    assert TaskOk(s.tasks[t], PhaseOf(s, t), Expected(start, s.jobs, t));
  }

  lemma {:induction false} RunAnsweredLast<R, T>(runtime: R, states: seq<State<R, T>>, actions: seq<Action<R, T>>,
                                                 i: nat, t: nat)
    requires ContractRun(runtime, states, actions) && i < |states| && t < |states[i].tasks|
    ensures AnsweredLast(states[i].tasks[t])
  {
    hide Inv, Enabled, AnsweredLast;
    if i > 0 {
      var s, a := states[i - 1], actions[i - 1];
      RunKeepsInv(runtime, states, actions, i - 1);
      assert states[i - 1 + 1] == Apply(s, a) && Enabled(s, a);
      if t < |s.tasks| {
        RunAnsweredLast(runtime, states, actions, i - 1, t);
        StepAnsweredLast(runtime, s, a, t);
      } else {
        SpawnedTask(s, a, t);
      }
    }
  }

  lemma SpawnedTask<R, T>(s: State<R, T>, a: Action<R, T>, t: nat)
    requires |s.jobs| == |s.tasks| && Enabled(s, a) && |s.tasks| <= t < |Apply(s, a).tasks|
    ensures AnsweredLast(Apply(s, a).tasks[t])
  {
  }

  /** Once the iteration for a task is over, a future that has not answered yet has its result
      waiting, and if its last poll was pending, the waker of that poll has been woken. */
  lemma NoLostWakeup<R, T>(runtime: R, states: seq<State<R, T>>, actions: seq<Action<R, T>>, i: nat, t: nat)
    requires Run(runtime, states, actions) && i < |states| && t < |states[i].tasks|
    requires PhaseOf(states[i], t).Finished? && states[i].tasks[t].delivered == []
    ensures |states[i].jobs| == |states[i].tasks|
    ensures states[i].tasks[t].result == Some(Expected(runtime, states[i].jobs, t))
    ensures states[i].tasks[t].last.Pending? ==> states[i].tasks[t].last.poll in states[i].tasks[t].woken
  {
    hide RuntimeAfter, Expected;
    RunKeepsInv(runtime, states, actions, i);
    var s := states[i];
    assert TaskOk(s.tasks[t], PhaseOf(s, t), Expected(runtime, s.jobs, t));
  }

  // ----- no deadlock -----

  ghost predicate Internal<R, T>(a: Action<R, T>) {
    a.PollStep? || a.ExecStep?
  }

  /** Nothing is under way: no poll and no executor step can go on without a new call. */
  ghost predicate Quiet<R, T>(s: State<R, T>) {
    !ExecEnabled(s) && forall t :: 0 <= t < |s.tasks| ==> !PollEnabled(s.tasks[t])
  }

  /** Whoever waits for a mutex waits for someone who can go on: when nothing can move, every poll
      has returned and every task sent is finished. */
  lemma QuietIsDone<R, T>(start: R, s: State<R, T>, t: nat)
    requires Inv(start, s) && Quiet(s) && t < |s.tasks|
    ensures s.exec.Receiving? && s.received == |s.tasks|
    ensures s.tasks[t].pc.Outside? && PhaseOf(s, t).Finished?
  {
    hide RuntimeAfter, Expected, ResultOk, WakerOk;
    if !s.exec.Receiving? {
      var k := s.received - 1;
      assert TaskOk(s.tasks[k], PhaseOf(s, k), Expected(start, s.jobs, k));
      assert !PollEnabled(s.tasks[k]);
    }
    assert TaskOk(s.tasks[t], PhaseOf(s, t), Expected(start, s.jobs, t));
    assert !PollEnabled(s.tasks[t]);
  }

  function ExecRank<T>(pc: ExecPc<T>): nat {
    match pc
    case Receiving => 0
    case Fetched => 8
    case Locked => 7
    case Computed(_) => 6
    case Stored => 5
    case OpDone => 4
    case StateLocked => 3
    case Waking(_) => 2
    case Releasing => 1
  }

  function PollRank<T>(pc: PollPc<T>): nat {
    match pc
    case Outside => 0
    case WantsResult => 6
    case HoldsResult => 5
    case WantsState => 4
    case HoldsBoth => 3
    case Registered => 2
    case Leaving(_) => 1
  }

  function PollWork<T>(tasks: seq<Task<T>>): nat {
    if tasks == [] then 0 else PollRank(tasks[0].pc) + PollWork(tasks[1..])
  }

  /** An upper bound on the steps that can still be made without new calls. */
  function Work<R, T>(s: State<R, T>): int {
    9 * (|s.tasks| - s.received) + ExecRank(s.exec) + PollWork(s.tasks)
  }

  lemma {:induction false} PollWorkUpdate<T>(tasks: seq<Task<T>>, k: nat, t: Task<T>)
    requires k < |tasks|
    ensures PollWork(tasks[k := t]) == PollWork(tasks) - PollRank(tasks[k].pc) + PollRank(t.pc)
  {
    if k > 0 {
      PollWorkUpdate(tasks[1..], k - 1, t);
      assert tasks[k := t][1..] == tasks[1..][k - 1 := t];
    } else {
      assert tasks[0 := t][1..] == tasks[1..];
    }
  }

  /** Every step of a poll or of the executor uses up work. */
  lemma WorkDecreases<R, T>(start: R, s: State<R, T>, a: Action<R, T>)
    requires Inv(start, s) && Internal(a) && Enabled(s, a)
    ensures 0 <= Work(Apply(s, a)) < Work(s)
  {
    hide TaskOk, RuntimeAfter, PollWork;
    StepKeepsInv(start, s, a);
    if a.PollStep? {
      PollWorkUpdate(s.tasks, a.task, PollOnce(s.tasks[a.task]));
    } else if !s.exec.Receiving? {
      var k := s.received - 1;
      PollWorkUpdate(s.tasks, k, ExecOnTask(s.tasks[k], s.exec));
    }
  }

  ghost predicate InternalRun<R, T>(states: seq<State<R, T>>, actions: seq<Action<R, T>>) {
    && |states| == |actions| + 1
    && forall i :: 0 <= i < |actions| ==>
         && |states[i].jobs| == |states[i].tasks|
         && Internal(actions[i]) && Enabled(states[i], actions[i])
         && states[i + 1] == Apply(states[i], actions[i])
  }

  /** From every reachable state, whatever the schedule, the polls and tasks under way end within
      the work left. */
  lemma {:induction false} EveryScheduleEnds<R, T>(start: R, states: seq<State<R, T>>, actions: seq<Action<R, T>>)
    requires InternalRun(states, actions) && Inv(start, states[0])
    ensures Inv(start, states[|actions|])
    ensures |actions| + Work(states[|actions|]) <= Work(states[0]) && Work(states[|actions|]) >= 0
    decreases |actions|
  {
    hide Inv, Enabled, Work;
    if actions == [] {
      WorkIsNatural(start, states[0]);
    } else {
      var k := |actions| - 1;
      var first, steps := states[..k + 1], actions[..k];
      assert InternalRun(first, steps) by {
        assert forall i :: 0 <= i <= k ==> first[i] == states[i];
      }
      EveryScheduleEnds(start, first, steps);
      assert states[k + 1] == Apply(states[k], actions[k]) && Enabled(states[k], actions[k]);
      StepKeepsInv(start, states[k], actions[k]);
      WorkDecreases(start, states[k], actions[k]);
    }
  }

  lemma WorkIsNatural<R, T>(start: R, s: State<R, T>)
    requires Inv(start, s)
    ensures Work(s) >= 0
  {
  }

  /** And when they have ended, every future that has not answered has its result waiting and the
      waker of its last pending poll has been woken. */
  lemma QuietMeansWoken<R, T>(start: R, s: State<R, T>, t: nat)
    requires Inv(start, s) && Quiet(s) && t < |s.tasks| && s.tasks[t].delivered == []
    ensures s.tasks[t].result == Some(Expected(start, s.jobs, t))
    ensures s.tasks[t].last.Pending? ==> s.tasks[t].last.poll in s.tasks[t].woken
  {
    hide RuntimeAfter, Expected;
    QuietIsDone(start, s, t);
    assert TaskOk(s.tasks[t], PhaseOf(s, t), Expected(start, s.jobs, t));
  }

  // ----- polling again after the answer -----

  /** Once the iteration for a task is over nobody wakes its wakers any more, and a result that was
      handed over does not come back. */
  lemma {:induction false} FinishedStaysQuiet<R, T>(runtime: R, states: seq<State<R, T>>, actions: seq<Action<R, T>>,
                                                    i: nat, j: nat, t: nat)
    requires Run(runtime, states, actions) && i <= j < |states| && t < |states[i].tasks|
    requires PhaseOf(states[i], t).Finished?
    ensures t < |states[j].tasks| && PhaseOf(states[j], t).Finished?
    ensures states[j].tasks[t].woken == states[i].tasks[t].woken
    ensures states[i].tasks[t].delivered != [] ==>
              states[j].tasks[t].result == None && states[j].tasks[t].delivered == states[i].tasks[t].delivered
    decreases j
  {
    if i < j {
      FinishedStaysQuiet(runtime, states, actions, i, j - 1, t);
      RunKeepsInv(runtime, states, actions, j - 1);
      assert states[j - 1 + 1] == Apply(states[j - 1], actions[j - 1]) && Enabled(states[j - 1], actions[j - 1]);
      FinishedStep(runtime, states[j - 1], actions[j - 1], t);
    } else {
      RunKeepsInv(runtime, states, actions, j);
      if states[j].tasks[t].delivered != [] { FinishedResult(runtime, states[j], t); }
    }
  }

  lemma FinishedResult<R, T>(start: R, s: State<R, T>, t: nat)
    requires Inv(start, s) && t < |s.tasks| && PhaseOf(s, t).Finished? && s.tasks[t].delivered != []
    ensures s.tasks[t].result == None
  {
    hide RuntimeAfter, Expected;
    assert TaskOk(s.tasks[t], PhaseOf(s, t), Expected(start, s.jobs, t));
  }

  lemma FinishedStep<R, T>(start: R, s: State<R, T>, a: Action<R, T>, t: nat)
    requires Inv(start, s) && Enabled(s, a) && t < |s.tasks| && PhaseOf(s, t).Finished?
    ensures var s' := Apply(s, a);
            && t < |s'.tasks| && PhaseOf(s', t).Finished? && s'.tasks[t].woken == s.tasks[t].woken
            && (s.tasks[t].delivered != [] ==>
                  s'.tasks[t].result == None && s'.tasks[t].delivered == s.tasks[t].delivered)
  {
    hide RuntimeAfter, Expected;
    assert TaskOk(s.tasks[t], PhaseOf(s, t), Expected(start, s.jobs, t));
  }
}
