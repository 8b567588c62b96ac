/** The executor of OCaml tasks and the futures for their results (tezos/interop/src/runtime.rs):
    threads that poll futures and one thread that runs the tasks, as interleaved steps around the
    two mutexes that each task shares with its future. */
module Executor {
  import opened Basics

  /** What a task stores: the value of its block, or the note that the block panicked. */
  datatype Outcome<+T> = Value(value: T) | BlockPanic

  /** A block of code run in the runtime: its value, or nothing if it panics. */
  type Job<!R, T> = R -> (Option<T>, R)

  datatype Lock = Free | ByExecutor | ByPoller

  /** Where a call of `poll` stands. A waker is known by the number of the poll that brought it. */
  datatype PollPc<+T> =
    | Outside
    | WantsResult
    | HoldsResult
    | WantsState
    | HoldsBoth
    | Registered
    | Leaving(answer: Option<Outcome<T>>)

  /** How the last completed poll ended. */
  datatype LastPoll<+T> = Never | Pending(poll: nat) | Ready(outcome: Outcome<T>)

  /** A task with its future: the contents of the two mutexes, who holds them, the poll under way,
      and what the future has answered and which wakers were woken so far. */
  datatype Task<T> = Task(
    result: Option<Outcome<T>>,
    waker: Option<nat>,
    resultLock: Lock,
    stateLock: Lock,
    pc: PollPc<T>,
    polls: nat,
    last: LastPoll<T>,
    delivered: seq<Outcome<T>>,
    woken: set<nat>)

  /** Where the executor stands in the iteration for the task it received last. */
  datatype ExecPc<+T> =
    | Receiving
    | Fetched
    | Locked
    | Computed(outcome: Outcome<T>)
    | Stored
    | OpDone
    | StateLocked
    | Waking(waker: Option<nat>)
    | Releasing

  datatype State<!R, T> = State(
    jobs: seq<Job<R, T>>,
    tasks: seq<Task<T>>,
    received: nat,
    exec: ExecPc<T>,
    runtime: R)

  datatype Action<!R, T> = Spawn(job: Job<R, T>) | StartPoll(task: nat) | PollStep(task: nat) | ExecStep

  function NewTask<T>(): Task<T> {
    Task(None, None, Free, Free, Outside, 0, Never, [], {})
  }

  function Init<R, T>(runtime: R): State<R, T> {
    State([], [], 0, Receiving, runtime)
  }

  // ----- polling -----

  ghost predicate PollEnabled<T>(t: Task<T>) {
    match t.pc
    case Outside => false
    case WantsResult => t.resultLock.Free?
    case WantsState => t.stateLock.Free?
    case _ => true
  }

  /** One step of `poll`: lock the result, take it or lock the state, register the waker, and give
      the locks back. */
  function PollOnce<T>(t: Task<T>): Task<T> {
    match t.pc
    case Outside => t
    case WantsResult => t.(resultLock := ByPoller, pc := HoldsResult)
    case HoldsResult =>
      if t.result.Some? then
        t.(result := None, delivered := t.delivered + [t.result.value], pc := Leaving(t.result))
      else t.(pc := WantsState)
    case WantsState => t.(stateLock := ByPoller, pc := HoldsBoth)
    case HoldsBoth => t.(waker := Some(t.polls), pc := Registered)
    case Registered => t.(stateLock := Free, pc := Leaving(None))
    case Leaving(answer) =>
      t.(resultLock := Free, pc := Outside,
         last := if answer.Some? then Ready(answer.value) else Pending(t.polls))
  }

  function Begin<T>(t: Task<T>): Task<T> {
    t.(pc := WantsResult, polls := t.polls + 1)
  }

  // ----- executing -----

  ghost predicate ExecEnabled<R, T>(s: State<R, T>) {
    match s.exec
    case Receiving => s.received < |s.tasks|
    case Fetched => 0 < s.received <= |s.tasks| && s.tasks[s.received - 1].resultLock.Free?
    case OpDone => 0 < s.received <= |s.tasks| && s.tasks[s.received - 1].stateLock.Free?
    case _ => 0 < s.received <= |s.tasks|
  }

  function OutcomeOf<T>(value: Option<T>): Outcome<T> {
    if value.Some? then Value(value.value) else BlockPanic
  }

  /** The executor's part of a step on the task's mutexes. */
  function ExecOnTask<T>(t: Task<T>, pc: ExecPc<T>): Task<T> {
    match pc
    case Fetched => t.(resultLock := ByExecutor)
    case Computed(outcome) => t.(result := Some(outcome))
    case Stored => t.(resultLock := Free)
    case OpDone => t.(stateLock := ByExecutor)
    case StateLocked => t.(waker := None)
    case Waking(waker) => if waker.Some? then t.(woken := t.woken + {waker.value}) else t
    case Releasing => t.(stateLock := Free)
    case Receiving | Locked => t
  }

  function NextPc<T>(pc: ExecPc<T>, waker: Option<nat>, ran: Outcome<T>): ExecPc<T> {
    match pc
    case Receiving => Fetched
    case Fetched => Locked
    case Locked => Computed(ran)
    case Computed(_) => Stored
    case Stored => OpDone
    case OpDone => StateLocked
    case StateLocked => Waking(waker)
    case Waking(_) => Releasing
    case Releasing => Receiving
  }

  ghost function ExecOnce<R, T>(s: State<R, T>): State<R, T>
    requires |s.jobs| == |s.tasks| && ExecEnabled(s)
  {
    if s.exec.Receiving? then s.(received := s.received + 1, exec := Fetched)
    else
      var k := s.received - 1;
      var (value, runtime) := s.jobs[k](s.runtime);
      s.(tasks := s.tasks[k := ExecOnTask(s.tasks[k], s.exec)],
         exec := NextPc(s.exec, s.tasks[k].waker, OutcomeOf(value)),
         runtime := if s.exec.Locked? then runtime else s.runtime)
  }

  // ----- runs -----

  ghost predicate Enabled<R, T>(s: State<R, T>, a: Action<R, T>) {
    match a
    case Spawn(_) => true
    case StartPoll(t) => t < |s.tasks| && s.tasks[t].pc.Outside?
    case PollStep(t) => t < |s.tasks| && PollEnabled(s.tasks[t])
    case ExecStep => ExecEnabled(s)
  }

  ghost function Apply<R, T>(s: State<R, T>, a: Action<R, T>): State<R, T>
    requires |s.jobs| == |s.tasks| && Enabled(s, a)
  {
    match a
    case Spawn(job) => s.(jobs := s.jobs + [job], tasks := s.tasks + [NewTask()])
    case StartPoll(t) => s.(tasks := s.tasks[t := Begin(s.tasks[t])])
    case PollStep(t) => s.(tasks := s.tasks[t := PollOnce(s.tasks[t])])
    case ExecStep => ExecOnce(s)
  }

  ghost predicate Run<R, T>(runtime: R, states: seq<State<R, T>>, actions: seq<Action<R, T>>) {
    && |states| == |actions| + 1
    && states[0] == Init(runtime)
    && forall i :: 0 <= i < |actions| ==>
         && |states[i].jobs| == |states[i].tasks|
         && Enabled(states[i], actions[i])
         && states[i + 1] == Apply(states[i], actions[i])
  }

  // ----- the specification: one job after the other, in the order they were sent -----

  function RuntimeAfter<R, T>(runtime: R, jobs: seq<Job<R, T>>): R {
    if jobs == [] then runtime
    else
      var k := |jobs| - 1;
      jobs[k](RuntimeAfter(runtime, jobs[..k])).1
  }

  function Expected<R, T>(runtime: R, jobs: seq<Job<R, T>>, k: nat): Outcome<T>
    requires k < |jobs|
  {
    match jobs[k](RuntimeAfter(runtime, jobs[..k])).0
    case Some(value) => Value(value)
    case None => BlockPanic
  }

  // ----- the invariant -----

  /** How far the executor has come with a task. */
  datatype Phase<+T> = NotReceived | Current(pc: ExecPc<T>) | Finished

  function PhaseOf<R, T>(s: State<R, T>, t: nat): Phase<T> {
    if t >= s.received then NotReceived
    else if t == s.received - 1 && !s.exec.Receiving? then Current(s.exec)
    else Finished
  }

  predicate HasStored<T>(p: Phase<T>) {
    p.Finished? || (p.Current? && !p.pc.Fetched? && !p.pc.Locked? && !p.pc.Computed?)
  }

  predicate HasTakenWaker<T>(p: Phase<T>) {
    p.Finished? || (p.Current? && (p.pc.Waking? || p.pc.Releasing?))
  }

  predicate ExecHoldsResult<T>(p: Phase<T>) {
    p.Current? && (p.pc.Locked? || p.pc.Computed? || p.pc.Stored?)
  }

  predicate ExecHoldsState<T>(p: Phase<T>) {
    p.Current? && (p.pc.StateLocked? || p.pc.Waking? || p.pc.Releasing?)
  }

  predicate PollHoldsResult<T>(pc: PollPc<T>) {
    !pc.Outside? && !pc.WantsResult?
  }

  predicate PollHoldsState<T>(pc: PollPc<T>) {
    pc.HoldsBoth? || pc.Registered?
  }

  /** The poll has looked and found no result. */
  predicate SawNothing<T>(pc: PollPc<T>) {
    pc.WantsState? || pc.HoldsBoth? || pc.Registered? || pc == Leaving(None)
  }

  predicate HasRegistered<T>(pc: PollPc<T>) {
    pc.Registered? || pc == Leaving(None)
  }

  function Holder(executor: bool, poller: bool): Lock {
    if executor then ByExecutor else if poller then ByPoller else Free
  }

  /** Both mutexes have the holder that the two program counters say, and only one. */
  ghost predicate LocksOk<T>(t: Task<T>, p: Phase<T>) {
    && !(ExecHoldsResult(p) && PollHoldsResult(t.pc))
    && !(ExecHoldsState(p) && PollHoldsState(t.pc))
    && t.resultLock == Holder(ExecHoldsResult(p), PollHoldsResult(t.pc))
    && t.stateLock == Holder(ExecHoldsState(p), PollHoldsState(t.pc))
  }

  /** The result is the expected one, stored once and handed over at most once. */
  ghost predicate ResultOk<T>(t: Task<T>, p: Phase<T>, expected: Outcome<T>) {
    && (if !HasStored(p) then t.result == None && t.delivered == []
        else (t.result == Some(expected) && t.delivered == []) || (t.result == None && t.delivered == [expected]))
    && (p.Current? && p.pc.Computed? ==> p.pc.outcome == expected)
    && (t.pc.Leaving? && t.pc.answer.Some? ==> t.delivered == [t.pc.answer.value])
    && (t.last.Ready? ==> t.delivered == [t.last.outcome])
  }

  /** While the future has not answered with a result: a poll that found none keeps the executor from
      storing one, and the waker of the last pending poll is registered, in the executor's hands, or
      woken. */
  ghost predicate WakerOk<T>(t: Task<T>, p: Phase<T>) {
    t.delivered == [] ==>
      && (SawNothing(t.pc) ==> !HasStored(p))
      && (HasRegistered(t.pc) ==> t.waker == Some(t.polls))
      && (t.last.Pending? && !HasTakenWaker(p) && !HasRegistered(t.pc) ==> t.waker == Some(t.last.poll))
      && (t.last.Pending? && HasTakenWaker(p) ==>
            t.last.poll in t.woken || (p.Current? && p.pc == Waking(Some(t.last.poll))))
  }

  /** Every waker around has a number below `bound`. */
  ghost predicate WakersBelow<T>(t: Task<T>, p: Phase<T>, bound: nat) {
    && (forall n :: n in t.woken ==> n < bound)
    && (t.waker.Some? ==> t.waker.value < bound)
    && (p.Current? && p.pc.Waking? && p.pc.waker.Some? ==> p.pc.waker.value < bound)
  }

  /** Wakers come from polls that were made, and from the poll under way only once it has registered. */
  ghost predicate NumbersOk<T>(t: Task<T>, p: Phase<T>) {
    && WakersBelow(t, p, if t.pc.Outside? || HasRegistered(t.pc) then t.polls + 1 else t.polls)
    && (t.pc.Outside? && t.last.Pending? ==> t.last.poll == t.polls)
  }

  ghost predicate TaskOk<T>(t: Task<T>, p: Phase<T>, expected: Outcome<T>) {
    LocksOk(t, p) && ResultOk(t, p, expected) && WakerOk(t, p) && NumbersOk(t, p)
  }

  function Executed<R, T>(s: State<R, T>): int {
    if s.exec.Fetched? || s.exec.Locked? then s.received - 1 else s.received
  }

  ghost predicate Inv<R, T>(start: R, s: State<R, T>) {
    && |s.jobs| == |s.tasks| && s.received <= |s.tasks|
    && (!s.exec.Receiving? ==> s.received > 0)
    && s.runtime == RuntimeAfter(start, s.jobs[..Executed(s)])
    && forall t :: 0 <= t < |s.tasks| ==> TaskOk(s.tasks[t], PhaseOf(s, t), Expected(start, s.jobs, t))
  }

  // ----- steps keep it -----

  lemma PollKeeps<T>(t: Task<T>, p: Phase<T>, expected: Outcome<T>)
    requires TaskOk(t, p, expected) && PollEnabled(t)
    ensures TaskOk(PollOnce(t), p, expected)
  {
  }

  lemma BeginKeeps<T>(t: Task<T>, p: Phase<T>, expected: Outcome<T>)
    requires TaskOk(t, p, expected) && t.pc.Outside?
    ensures TaskOk(Begin(t), p, expected)
  {
  }

  /** A step of the executor on the task it works on. */
  lemma ExecKeeps<T>(t: Task<T>, pc: ExecPc<T>, ran: Outcome<T>, expected: Outcome<T>)
    requires TaskOk(t, Current(pc), expected) && !pc.Receiving?
    requires pc.Fetched? ==> t.resultLock.Free?
    requires pc.OpDone? ==> t.stateLock.Free?
    requires pc.Locked? ==> ran == expected
    ensures var next := NextPc(pc, t.waker, ran);
            TaskOk(ExecOnTask(t, pc), if next.Receiving? then Finished else Current(next), expected)
  {
  }

  lemma ReceiveKeeps<T>(t: Task<T>, expected: Outcome<T>)
    requires TaskOk(t, NotReceived, expected)
    ensures TaskOk(t, Current(Fetched), expected)
  {
  }

  lemma ExpectedOfPrefix<R, T>(start: R, jobs: seq<Job<R, T>>, job: Job<R, T>, k: nat)
    requires k < |jobs|
    ensures Expected(start, jobs + [job], k) == Expected(start, jobs, k)
  {
    assert (jobs + [job])[..k] == jobs[..k];
  }

  lemma RuntimeStep<R, T>(start: R, jobs: seq<Job<R, T>>, k: nat)
    requires k < |jobs|
    ensures RuntimeAfter(start, jobs[..k + 1]) == jobs[k](RuntimeAfter(start, jobs[..k])).1
  {
    assert jobs[..k + 1][..k] == jobs[..k];
  }

  lemma SpawnKeepsInv<R, T>(start: R, s: State<R, T>, job: Job<R, T>)
    requires Inv(start, s)
    ensures Inv(start, Apply(s, Spawn(job)))
  {
    hide TaskOk, RuntimeAfter;
    var s' := Apply(s, Spawn(job));
    assert s'.jobs[..Executed(s)] == s.jobs[..Executed(s)];
    forall t | 0 <= t < |s'.tasks|
      ensures TaskOk(s'.tasks[t], PhaseOf(s', t), Expected(start, s'.jobs, t))
    {
      if t < |s.tasks| {
        ExpectedOfPrefix(start, s.jobs, job, t);
        assert TaskOk(s.tasks[t], PhaseOf(s, t), Expected(start, s.jobs, t));
      } else {
        NewTaskOk<T>(Expected(start, s'.jobs, t));
      }
    }
  }

  lemma NewTaskOk<T>(expected: Outcome<T>)
    ensures TaskOk(NewTask(), NotReceived, expected)
  {
  }

  lemma PollerKeepsInv<R, T>(start: R, s: State<R, T>, a: Action<R, T>)
    requires Inv(start, s) && (a.StartPoll? || a.PollStep?) && Enabled(s, a)
    ensures Inv(start, Apply(s, a))
  {
    hide TaskOk, RuntimeAfter, PollOnce, Begin, PollEnabled, Expected;
    var s' := Apply(s, a);
    var k := a.task;
    assert TaskOk(s.tasks[k], PhaseOf(s, k), Expected(start, s.jobs, k));
    if a.StartPoll? {
      BeginKeeps(s.tasks[k], PhaseOf(s, k), Expected(start, s.jobs, k));
    } else {
      PollKeeps(s.tasks[k], PhaseOf(s, k), Expected(start, s.jobs, k));
    }
  }

  lemma ExecKeepsInv<R, T>(start: R, s: State<R, T>)
    requires Inv(start, s) && ExecEnabled(s)
    ensures Inv(start, ExecOnce(s))
  {
    hide TaskOk, RuntimeAfter, ExecOnTask;
    var s' := ExecOnce(s);
    if s.exec.Receiving? {
      var k := s.received;
      assert TaskOk(s.tasks[k], PhaseOf(s, k), Expected(start, s.jobs, k));
      ReceiveKeeps(s.tasks[k], Expected(start, s.jobs, k));
    } else {
      var k := s.received - 1;
      assert TaskOk(s.tasks[k], PhaseOf(s, k), Expected(start, s.jobs, k));
      RuntimeStep(start, s.jobs, k);
      ExecKeeps(s.tasks[k], s.exec, OutcomeOf(s.jobs[k](s.runtime).0), Expected(start, s.jobs, k));
    }
    forall t | 0 <= t < |s'.tasks|
      ensures TaskOk(s'.tasks[t], PhaseOf(s', t), Expected(start, s'.jobs, t))
    {
      assert TaskOk(s.tasks[t], PhaseOf(s, t), Expected(start, s.jobs, t));
    }
  }

  lemma StepKeepsInv<R, T>(start: R, s: State<R, T>, a: Action<R, T>)
    requires Inv(start, s) && Enabled(s, a)
    ensures Inv(start, Apply(s, a))
  {
    hide Inv;
    match a
    case Spawn(job) => SpawnKeepsInv(start, s, job);
    case StartPoll(_) => PollerKeepsInv(start, s, a);
    case PollStep(_) => PollerKeepsInv(start, s, a);
    case ExecStep => ExecKeepsInv(start, s);
  }

  lemma {:induction false} RunKeepsInv<R, T>(runtime: R, states: seq<State<R, T>>, actions: seq<Action<R, T>>, i: nat)
    requires Run(runtime, states, actions) && i < |states|
    ensures Inv(runtime, states[i])
  {
    hide Apply, Enabled;
    if i > 0 {
      RunKeepsInv(runtime, states, actions, i - 1);
      assert states[i - 1 + 1] == Apply(states[i - 1], actions[i - 1]);
      StepKeepsInv(runtime, states[i - 1], actions[i - 1]);
    }
  }
}
