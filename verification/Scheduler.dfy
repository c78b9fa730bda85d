/**
 * The scan scheduler as a protocol.  Coroutines switch only where they suspend, so a step runs from
 * one suspension to the next: the overlap check and the setting of the running flag are one step, and
 * a requested cancellation is delivered when its task would next have run.
 */
module Scheduler {

  type JobId = nat
  type TaskId = nat
  type AttemptId = nat

  /** Where an attempt to run a scan stands.  The running flag is up from `Executing` until the
      completion event or the failure alert has been emitted. */
  datatype Phase =
    | Executing | EmittingCompletion | EmittingFailure | EmittingSkip
    | Completed | Failed | Skipped | Cancelled
  {
    predicate HoldsFlag() { Executing? || EmittingCompletion? || EmittingFailure? }

    predicate Live() { HoldsFlag() || EmittingSkip? }
  }

  datatype Origin = Manual | Cron(task: TaskId)

  datatype Attempt = Attempt(job: JobId, origin: Origin, phase: Phase)

  datatype LoopState = Sleeping | InAttempt(attempt: AttemptId) | Ended

  /** A cron loop task; `cancelled` means cancellation was requested. */
  datatype Loop = Loop(job: JobId, state: LoopState, cancelled: bool)

  datatype Kind = CompletionEvent | FailureAlert | SkipEvent

  datatype Emission = Emission(attempt: AttemptId, kind: Kind)

  /** `used` are all identifiers ever given out, `scheduled` those whose job has a cron schedule, and
      `running` the jobs whose flag is up. */
  datatype State = State(jobs: set<JobId>, used: set<JobId>, scheduled: set<JobId>, running: set<JobId>,
                         tasks: map<JobId, TaskId>, loops: seq<Loop>, attempts: seq<Attempt>, on: bool,
                         emitted: seq<Emission>)

  const EMPTY := State({}, {}, {}, {}, map[], [], [], false, [])

  datatype Step =
    | CreateJob(job: JobId, hasSchedule: bool)
    | DeleteJob(job: JobId)
    | TriggerManual(job: JobId)
    | Start(order: seq<JobId>)
    | Stop
    | CronTick(task: TaskId)
    | ExecutorReturns(attempt: AttemptId)
    | ExecutorRaises(attempt: AttemptId)
    | EmissionDone(attempt: AttemptId)
    | CancelManual(attempt: AttemptId)
    | DeliverCancel(task: TaskId)

  /** The attempt can go on: nobody asked to cancel the task it runs in. */
  predicate MayProceed(s: State, a: AttemptId) {
    a < |s.attempts| &&
    match s.attempts[a].origin
    case Manual => true
    case Cron(t) => t < |s.loops| && !s.loops[t].cancelled
  }

  ghost predicate Enabled(s: State, step: Step) {
    match step
    case CreateJob(job, _) => job !in s.used
    case DeleteJob(_) => true
    case TriggerManual(job) => job in s.jobs
    case Start(order) =>
      (forall j :: j in order <==> j in s.jobs && j in s.scheduled)
      && (forall i, k :: 0 <= i < k < |order| ==> order[i] != order[k])
    case Stop => true
    case CronTick(t) => t < |s.loops| && s.loops[t].state == Sleeping && !s.loops[t].cancelled
    case ExecutorReturns(a) => MayProceed(s, a) && s.attempts[a].phase == Executing
    case ExecutorRaises(a) => MayProceed(s, a) && s.attempts[a].phase == Executing
    case EmissionDone(a) =>
      MayProceed(s, a) && s.attempts[a].phase in {EmittingCompletion, EmittingFailure, EmittingSkip}
    case CancelManual(a) => a < |s.attempts| && s.attempts[a].origin == Manual && s.attempts[a].phase.Live()
    case DeliverCancel(t) => t < |s.loops| && s.loops[t].cancelled && s.loops[t].state != Ended
  }

  function StartLoop(s: State, job: JobId): State {
    s.(loops := s.loops + [Loop(job, Sleeping, false)], tasks := s.tasks[job := |s.loops|])
  }

  function StartLoops(s: State, order: seq<JobId>): State
    decreases |order|
  {
    if order == [] then s else StartLoops(StartLoop(s, order[0]), order[1..])
  }

  /** Cancellation is requested of every task in `tasks`. */
  function CancelLoops(loops: seq<Loop>, tasks: set<TaskId>): (r: seq<Loop>)
    ensures |r| == |loops|
  {
    seq(|loops|, t requires 0 <= t < |loops| => if t in tasks then loops[t].(cancelled := true) else loops[t])
  }

  function CheckOverlap(s: State, job: JobId): bool {
    job in s.jobs && job in s.running
  }

  /** The check-and-set step shared by manual triggers and cron ticks. */
  function Begin(s: State, job: JobId, origin: Origin): State {
    if CheckOverlap(s, job) then
      s.(attempts := s.attempts + [Attempt(job, origin, EmittingSkip)],
         emitted := s.emitted + [Emission(|s.attempts|, SkipEvent)])
    else
      s.(attempts := s.attempts + [Attempt(job, origin, Executing)], running := s.running + {job})
  }

  function SetPhase(s: State, a: AttemptId, phase: Phase): State
    requires a < |s.attempts|
  {
    s.(attempts := s.attempts[a := s.attempts[a].(phase := phase)])
  }

  /** Leaving an attempt, by any path: the flag goes down if the attempt held it. */
  function Finish(s: State, a: AttemptId, phase: Phase): State
    requires a < |s.attempts|
  {
    var s' := SetPhase(s, a, phase);
    if s.attempts[a].phase.HoldsFlag() then s'.(running := s.running - {s.attempts[a].job}) else s'
  }

  function SetLoop(s: State, t: TaskId, state: LoopState): State
    requires t < |s.loops|
  {
    s.(loops := s.loops[t := s.loops[t].(state := state)])
  }

  function Outcome(phase: Phase): Phase {
    if phase == EmittingCompletion then Completed else if phase == EmittingFailure then Failed else Skipped
  }

  function Next(s: State, step: Step): State
    requires Enabled(s, step)
  {
    match step
    case CreateJob(job, hasSchedule) =>
      var s1 := s.(jobs := s.jobs + {job}, used := s.used + {job},
                   scheduled := if hasSchedule then s.scheduled + {job} else s.scheduled);
      if s.on && hasSchedule then StartLoop(s1, job) else s1
    case DeleteJob(job) =>
      if job !in s.jobs then s
      else if job in s.tasks then
        s.(jobs := s.jobs - {job}, tasks := s.tasks - {job}, loops := CancelLoops(s.loops, {s.tasks[job]}))
      else s.(jobs := s.jobs - {job})
    case TriggerManual(job) => Begin(s, job, Manual)
    case Start(order) => StartLoops(s.(on := true), order)
    case Stop => s.(on := false, tasks := map[], loops := CancelLoops(s.loops, s.tasks.Values))
    case CronTick(t) =>
      if !s.on then SetLoop(s, t, Ended)
      else SetLoop(Begin(s, s.loops[t].job, Cron(t)), t, InAttempt(|s.attempts|))
    case ExecutorReturns(a) =>
      SetPhase(s, a, EmittingCompletion).(emitted := s.emitted + [Emission(a, CompletionEvent)])
    case ExecutorRaises(a) =>
      SetPhase(s, a, EmittingFailure).(emitted := s.emitted + [Emission(a, FailureAlert)])
    case EmissionDone(a) =>
      var s1 := Finish(s, a, Outcome(s.attempts[a].phase));
      (match s.attempts[a].origin
       case Manual => s1
       case Cron(t) => SetLoop(s1, t, if s.on then Sleeping else Ended))
    case CancelManual(a) => Finish(s, a, Cancelled)
    case DeliverCancel(t) =>
      (match s.loops[t].state
       case InAttempt(a) =>
         if a < |s.attempts| then SetLoop(Finish(s, a, Cancelled), t, Ended) else SetLoop(s, t, Ended)
       case _ => SetLoop(s, t, Ended))
  }

  ghost function Run(s: State, steps: seq<Step>): State
    requires CanRun(s, steps)
    decreases |steps|
  {
    if steps == [] then s else Run(Next(s, steps[0]), steps[1..])
  }

  ghost predicate CanRun(s: State, steps: seq<Step>)
    decreases |steps|
  {
    steps == [] || (Enabled(s, steps[0]) && CanRun(Next(s, steps[0]), steps[1..]))
  }

  // ---------------------------------------------------------------- mutual exclusion

  ghost predicate Holder(s: State, job: JobId, a: AttemptId) {
    a < |s.attempts| && s.attempts[a].job == job && s.attempts[a].phase.HoldsFlag()
  }

  /** At most one scan of the job is executing, and its flag is up exactly while one is. */
  ghost predicate Exclusive(s: State, job: JobId) {
    && (forall a, b :: Holder(s, job, a) && Holder(s, job, b) ==> a == b)
    && (job in s.running <==> exists a :: Holder(s, job, a))
  }

  lemma BeginExclusive(s: State, job: JobId, origin: Origin, j: JobId)
    requires Exclusive(s, j) && (job == j ==> j in s.jobs)
    ensures Exclusive(Begin(s, job, origin), j)
  {
    var s' := Begin(s, job, origin);
    assert forall a :: Holder(s, j, a) ==> Holder(s', j, a);
    assert forall a :: Holder(s', j, a) ==> Holder(s, j, a) || (a == |s.attempts| && job == j && !CheckOverlap(s, job));
    if job == j && !CheckOverlap(s, job) { assert Holder(s', j, |s.attempts|); }
  }

  lemma FinishExclusive(s: State, a: AttemptId, phase: Phase, j: JobId)
    requires Exclusive(s, j) && a < |s.attempts| && !phase.HoldsFlag()
    ensures Exclusive(Finish(s, a, phase), j)
  {
    var s' := Finish(s, a, phase);
    assert forall b :: Holder(s', j, b) <==> Holder(s, j, b) && b != a;
    assert s.attempts[a].phase.HoldsFlag() && s.attempts[a].job == j ==> Holder(s, j, a);
  }

  lemma KeepExclusive(s: State, a: AttemptId, phase: Phase, j: JobId)
    requires Exclusive(s, j) && a < |s.attempts| && s.attempts[a].phase.HoldsFlag() && phase.HoldsFlag()
    ensures Exclusive(SetPhase(s, a, phase), j)
  {
    assert forall b :: Holder(SetPhase(s, a, phase), j, b) <==> Holder(s, j, b);
  }

  /** A step that touches neither attempts nor flags. */
  lemma SameExclusive(s: State, s': State, j: JobId)
    requires Exclusive(s, j) && s'.attempts == s.attempts && s'.running == s.running
    ensures Exclusive(s', j)
  {
    assert forall a :: Holder(s', j, a) <==> Holder(s, j, a);
  }

  lemma {:induction false} StartLoopsKeeps(s: State, order: seq<JobId>)
    ensures var s' := StartLoops(s, order);
            && s'.attempts == s.attempts && s'.running == s.running && s'.emitted == s.emitted && s'.on == s.on
            && s'.jobs == s.jobs && s'.used == s.used && s'.scheduled == s.scheduled
            && |s'.loops| == |s.loops| + |order|
            && (forall t :: 0 <= t < |s.loops| ==> s'.loops[t] == s.loops[t])
            && (forall k :: 0 <= k < |order| ==> s'.loops[|s.loops| + k] == Loop(order[k], Sleeping, false))
            && (forall j :: j in s'.tasks <==> j in s.tasks || j in order)
    decreases |order|
  {
    if order != [] {
      StartLoopsKeeps(StartLoop(s, order[0]), order[1..]);
      assert order == [order[0]] + order[1..];
    }
  }

  /** The job of a cron tick that executes: the tick asks the registry, so the check is only real for a
      registered job. */
  ghost predicate TicksUnregistered(s: State, step: Step, job: JobId) {
    step.CronTick? && Enabled(s, step) && s.on && s.loops[step.task].job == job && job !in s.jobs
  }

  lemma ExclusiveStep(s: State, step: Step, j: JobId)
    requires Enabled(s, step) && Exclusive(s, j) && !TicksUnregistered(s, step, j)
    ensures Exclusive(Next(s, step), j)
  {
    hide Exclusive, Begin, Finish, SetPhase, StartLoops, CancelLoops, Holder;
    var s' := Next(s, step);
    match step {
      case CreateJob(_, _) => SameExclusive(s, s', j);
      case DeleteJob(_) => SameExclusive(s, s', j);
      case TriggerManual(job) => BeginExclusive(s, job, Manual, j);
      case Start(order) => StartLoopsKeeps(s.(on := true), order); SameExclusive(s, s', j);
      case Stop => SameExclusive(s, s', j);
      case CronTick(t) =>
        if s.on {
          BeginExclusive(s, s.loops[t].job, Cron(t), j);
          LoopsOfBegin(s, s.loops[t].job, Cron(t));
          SameExclusive(Begin(s, s.loops[t].job, Cron(t)), s', j);
        } else {
          SameExclusive(s, s', j);
        }
      case ExecutorReturns(a) =>
        KeepExclusive(s, a, EmittingCompletion, j);
        SameExclusive(SetPhase(s, a, EmittingCompletion), s', j);
      case ExecutorRaises(a) =>
        KeepExclusive(s, a, EmittingFailure, j);
        SameExclusive(SetPhase(s, a, EmittingFailure), s', j);
      case EmissionDone(a) =>
        FinishExclusive(s, a, Outcome(s.attempts[a].phase), j);
        LoopsOfFinish(s, a, Outcome(s.attempts[a].phase));
        SameExclusive(Finish(s, a, Outcome(s.attempts[a].phase)), s', j);
      case CancelManual(a) => FinishExclusive(s, a, Cancelled, j);
      case DeliverCancel(t) =>
        if s.loops[t].state.InAttempt? && s.loops[t].state.attempt < |s.attempts| {
          FinishExclusive(s, s.loops[t].state.attempt, Cancelled, j);
          LoopsOfFinish(s, s.loops[t].state.attempt, Cancelled);
          SameExclusive(Finish(s, s.loops[t].state.attempt, Cancelled), s', j);
        } else {
          SameExclusive(s, s', j);
        }
    }
  }

  lemma LoopsOfBegin(s: State, job: JobId, origin: Origin)
    ensures var s' := Begin(s, job, origin);
            && s'.loops == s.loops && s'.tasks == s.tasks && s'.jobs == s.jobs && s'.used == s.used && s'.on == s.on
            && s'.scheduled == s.scheduled
            && |s'.attempts| == |s.attempts| + 1 && s'.attempts[..|s.attempts|] == s.attempts
            && s'.attempts[|s.attempts|].job == job && s'.attempts[|s.attempts|].origin == origin
  {
  }

  lemma LoopsOfFinish(s: State, a: AttemptId, phase: Phase)
    requires a < |s.attempts|
    ensures var s' := Finish(s, a, phase);
            && s'.loops == s.loops && s'.tasks == s.tasks && s'.jobs == s.jobs && s'.used == s.used && s'.on == s.on
            && s'.scheduled == s.scheduled && s'.attempts == s.attempts[a := s.attempts[a].(phase := phase)]
  {
  }

  /** Identifiers are never reused. */
  ghost predicate Identified(s: State) {
    && s.jobs <= s.used && s.running <= s.used
    && (forall a :: 0 <= a < |s.attempts| ==> s.attempts[a].job in s.used)
    && (forall t :: 0 <= t < |s.loops| ==> s.loops[t].job in s.used)
    && (forall a :: 0 <= a < |s.attempts| && s.attempts[a].origin.Cron? ==> s.attempts[a].origin.task < |s.loops|)
  }

  lemma IdentifiedStep(s: State, step: Step)
    requires Enabled(s, step) && Identified(s)
    ensures Identified(Next(s, step))
  {
    hide StartLoops, Begin, Finish, SetPhase;
    match step {
      case Start(order) =>
        StartLoopsKeeps(s.(on := true), order);
        var s' := Next(s, step);
        forall t | 0 <= t < |s'.loops| ensures s'.loops[t].job in s'.used {
          if t >= |s.loops| { assert s'.loops[|s.loops| + (t - |s.loops|)].job == order[t - |s.loops|]; }
        }
      case TriggerManual(job) => IdentifiedBegin(s, job, Manual);
      case CronTick(t) => IdentifiedBegin(s, s.loops[t].job, Cron(t));
      case ExecutorReturns(a) => IdentifiedPhase(s, a, EmittingCompletion);
      case ExecutorRaises(a) => IdentifiedPhase(s, a, EmittingFailure);
      case EmissionDone(a) => IdentifiedPhase(s, a, Outcome(s.attempts[a].phase));
      case CancelManual(a) => IdentifiedPhase(s, a, Cancelled);
      case DeliverCancel(t) =>
        if s.loops[t].state.InAttempt? && s.loops[t].state.attempt < |s.attempts| {
          IdentifiedPhase(s, s.loops[t].state.attempt, Cancelled);
        }
      case _ =>
    }
  }

  lemma IdentifiedBegin(s: State, job: JobId, origin: Origin)
    requires Identified(s) && job in s.used && (origin.Cron? ==> origin.task < |s.loops|)
    ensures Identified(Begin(s, job, origin)) && Begin(s, job, origin).loops == s.loops
  {
  }

  lemma IdentifiedPhase(s: State, a: AttemptId, phase: Phase)
    requires Identified(s) && a < |s.attempts|
    ensures Identified(Finish(s, a, phase)) && Identified(SetPhase(s, a, phase))
    ensures Finish(s, a, phase).loops == SetPhase(s, a, phase).loops == s.loops
  {
  }

  ghost predicate RegisteredExclusive(s: State) {
    && Identified(s)
    && forall j :: j in s.jobs || j !in s.used ==> Exclusive(s, j)
  }

  /** Mutual exclusion of registered jobs, under every interleaving, even with repeated `start`. */
  lemma {:induction false} RegisteredJobsExclusive(s: State, steps: seq<Step>)
    requires RegisteredExclusive(s) && CanRun(s, steps)
    ensures RegisteredExclusive(Run(s, steps))
    decreases |steps|
  {
    if steps != [] {
      var s' := Next(s, steps[0]);
      IdentifiedStep(s, steps[0]);
      forall j | j in s'.jobs || j !in s'.used ensures Exclusive(s', j) {
        RegistryStep(s, steps[0], j);
        ExclusiveStep(s, steps[0], j);
      }
      RegisteredJobsExclusive(s', steps[1..]);
    }
  }

  lemma RegistryStep(s: State, step: Step, j: JobId)
    requires Enabled(s, step) && Identified(s)
    requires j in Next(s, step).jobs || j !in Next(s, step).used
    ensures j in s.jobs || j !in s.used
    ensures !TicksUnregistered(s, step, j)
  {
    if step.Start? { StartLoopsKeeps(s.(on := true), step.order); }
  }

  // ---------------------------------------------------------------- deleted jobs

  /** A loop nobody has cancelled belongs to a registered job and is the one on file for it. */
  ghost predicate Disciplined(s: State) {
    && (forall t :: 0 <= t < |s.loops| && !s.loops[t].cancelled ==>
          var j := s.loops[t].job; j in s.jobs && j in s.tasks && s.tasks[j] == t)
    && (forall j :: j in s.tasks ==> s.tasks[j] < |s.loops|)
    && (!s.on ==> s.tasks == map[])
    && s.jobs <= s.used
  }

  ghost predicate AllExclusive(s: State) {
    forall j :: Exclusive(s, j)
  }

  /** `start` is not called while the scheduler is running. */
  ghost predicate NoRestart(s: State, steps: seq<Step>)
    requires CanRun(s, steps)
    decreases |steps|
  {
    steps == [] || ((steps[0].Start? ==> !s.on) && NoRestart(Next(s, steps[0]), steps[1..]))
  }

  lemma {:induction false} StartLoopsOther(s: State, order: seq<JobId>, j: JobId)
    requires j !in order
    ensures var s' := StartLoops(s, order);
            (j in s'.tasks <==> j in s.tasks) && (j in s.tasks ==> s'.tasks[j] == s.tasks[j])
    decreases |order|
  {
    if order != [] {
      assert order[0] != j;
      StartLoopsOther(StartLoop(s, order[0]), order[1..], j);
    }
  }

  lemma {:induction false} StartLoopsTask(s: State, order: seq<JobId>, k: nat)
    requires k < |order| && forall i :: k < i < |order| ==> order[i] != order[k]
    ensures var s' := StartLoops(s, order); order[k] in s'.tasks && s'.tasks[order[k]] == |s.loops| + k
    decreases |order|
  {
    var s1, rest := StartLoop(s, order[0]), order[1..];
    if k == 0 {
      StartLoopsOther(s1, rest, order[0]);
    } else {
      assert forall i :: 0 <= i < |rest| ==> rest[i] == order[i + 1];
      StartLoopsTask(s1, rest, k - 1);
    }
  }

  lemma DisciplinedStart(s: State, order: seq<JobId>)
    requires Enabled(s, Start(order)) && Disciplined(s) && !s.on
    ensures Disciplined(Next(s, Start(order)))
  {
    var s0, s' := s.(on := true), Next(s, Start(order));
    StartLoopsKeeps(s0, order);
    forall t | 0 <= t < |s'.loops| && !s'.loops[t].cancelled
      ensures s'.loops[t].job in s'.jobs && s'.loops[t].job in s'.tasks && s'.tasks[s'.loops[t].job] == t
    {
      if t >= |s.loops| {
        assert s'.loops[|s.loops| + (t - |s.loops|)].job == order[t - |s.loops|];
        StartLoopsTask(s0, order, t - |s.loops|);
      }
    }
    forall j | j in s'.tasks ensures s'.tasks[j] < |s'.loops| {
      var k :| 0 <= k < |order| && order[k] == j;
      StartLoopsTask(s0, order, k);
    }
  }

  lemma DisciplinedStep(s: State, step: Step)
    requires Enabled(s, step) && Disciplined(s) && (step.Start? ==> !s.on)
    ensures Disciplined(Next(s, step))
  {
    hide Finish, Begin, SetPhase;
    match step {
      case Start(order) => DisciplinedStart(s, order);
      case TriggerManual(job) => LoopsOfBegin(s, job, Manual);
      case CronTick(t) => LoopsOfBegin(s, s.loops[t].job, Cron(t));
      case ExecutorReturns(a) => LoopsOfSetPhase(s, a, EmittingCompletion);
      case ExecutorRaises(a) => LoopsOfSetPhase(s, a, EmittingFailure);
      case EmissionDone(a) => LoopsOfFinish(s, a, Outcome(s.attempts[a].phase));
      case CancelManual(a) => LoopsOfFinish(s, a, Cancelled);
      case DeliverCancel(t) =>
        if s.loops[t].state.InAttempt? && s.loops[t].state.attempt < |s.attempts| {
          LoopsOfFinish(s, s.loops[t].state.attempt, Cancelled);
        }
      case _ =>
    }
  }

  lemma LoopsOfSetPhase(s: State, a: AttemptId, phase: Phase)
    requires a < |s.attempts|
    ensures var s' := SetPhase(s, a, phase);
            && s'.loops == s.loops && s'.tasks == s.tasks && s'.jobs == s.jobs && s'.used == s.used && s'.on == s.on
            && s'.scheduled == s.scheduled && s'.attempts == s.attempts[a := s.attempts[a].(phase := phase)]
            && s'.emitted == s.emitted
  {
  }

  /** Mutual exclusion outlives deletion: when `start` is never repeated while running, every job, also
      one deleted in the middle of its scan, has at most one executing scan, and its flag is exact. */
  lemma {:induction false} EveryJobExclusive(s: State, steps: seq<Step>)
    requires Disciplined(s) && AllExclusive(s) && CanRun(s, steps) && NoRestart(s, steps)
    ensures Disciplined(Run(s, steps)) && AllExclusive(Run(s, steps))
    decreases |steps|
  {
    if steps != [] {
      hide Exclusive, Next;
      var s' := Next(s, steps[0]);
      DisciplinedStep(s, steps[0]);
      forall j ensures Exclusive(s', j) {
        assert Exclusive(s, j);
        ExclusiveStep(s, steps[0], j);
      }
      EveryJobExclusive(s', steps[1..]);
    }
  }

  // ---------------------------------------------------------------- loops go round

  /** The attempt is under way and was begun by the loop. */
  ghost predicate RunsIn(s: State, a: AttemptId, t: TaskId) {
    a < |s.attempts| && s.attempts[a].origin == Cron(t) && s.attempts[a].phase.Live()
  }

  /** A loop that says it is in an attempt is in a live one of its own, for its own job. */
  ghost predicate Busy(s: State, t: TaskId) {
    t < |s.loops| && (s.loops[t].state.InAttempt? ==>
      RunsIn(s, s.loops[t].state.attempt, t) && s.attempts[s.loops[t].state.attempt].job == s.loops[t].job)
  }

  /** Loops and the attempts they began refer to each other. */
  ghost predicate Linked(s: State) {
    && (forall t: TaskId :: t < |s.loops| ==> Busy(s, t))
    && (forall a: AttemptId, t: TaskId :: RunsIn(s, a, t) ==> t < |s.loops| && s.loops[t].state == InAttempt(a))
  }

  /** The task on file for the job is an uncancelled loop of that job that has not ended. */
  ghost predicate OnFile(s: State, job: JobId) {
    && job in s.tasks && s.tasks[job] < |s.loops|
    && var l := s.loops[s.tasks[job]]; l.job == job && !l.cancelled && l.state != Ended
  }

  ghost predicate AllOnFile(s: State) {
    forall j :: j in s.tasks ==> OnFile(s, j)
  }

  /** While the scheduler runs, every task on file is such a loop, and every registered job that has a schedule
      is on file. */
  ghost predicate Kept(s: State) {
    && (!s.on ==> s.tasks == map[])
    && AllOnFile(s) && s.scheduled <= s.used
    && (s.on ==> forall j :: j in s.jobs && j in s.scheduled ==> j in s.tasks)
  }

  ghost predicate Looping(s: State) {
    Linked(s) && Kept(s)
  }

  lemma LinkedSame(s: State, s': State)
    requires Linked(s) && s'.attempts == s.attempts && |s.loops| <= |s'.loops|
    requires forall t: TaskId :: t < |s.loops| ==>
               s'.loops[t].state == s.loops[t].state && s'.loops[t].job == s.loops[t].job
    requires forall t: TaskId :: |s.loops| <= t < |s'.loops| ==> s'.loops[t].state == Sleeping
    ensures Linked(s')
  {
    assert forall a: AttemptId, t: TaskId :: RunsIn(s', a, t) <==> RunsIn(s, a, t);
    forall t: TaskId | t < |s'.loops| ensures Busy(s', t) {
      if t < |s.loops| { assert Busy(s, t); }
    }
  }

  lemma LinkedBegin(s: State, job: JobId)
    requires Linked(s)
    ensures Linked(Begin(s, job, Manual))
  {
    var s' := Begin(s, job, Manual);
    assert forall a: AttemptId, t: TaskId :: RunsIn(s', a, t) <==> RunsIn(s, a, t);
    forall t: TaskId | t < |s'.loops| ensures Busy(s', t) {
      assert Busy(s, t);
    }
  }

  lemma LinkedTick(s: State, t: TaskId)
    requires Linked(s) && t < |s.loops| && s.loops[t].state == Sleeping
    ensures Linked(SetLoop(Begin(s, s.loops[t].job, Cron(t)), t, InAttempt(|s.attempts|)))
  {
    var a := |s.attempts|;
    var s' := SetLoop(Begin(s, s.loops[t].job, Cron(t)), t, InAttempt(a));
    assert RunsIn(s', a, t);
    assert forall b: AttemptId, u: TaskId :: RunsIn(s', b, u) <==> RunsIn(s, b, u) || (b == a && u == t);
    forall u: TaskId | u < |s'.loops| ensures Busy(s', u) {
      assert Busy(s, u);
    }
  }

  /** An attempt that goes on, or one that no loop began. */
  lemma LinkedPhase(s: State, s': State, a: AttemptId, phase: Phase)
    requires Linked(s) && a < |s.attempts| && s.attempts[a].phase.Live()
    requires s'.loops == s.loops && s'.attempts == s.attempts[a := s.attempts[a].(phase := phase)]
    requires phase.Live() || s.attempts[a].origin == Manual
    ensures Linked(s')
  {
    assert forall b: AttemptId, t: TaskId :: RunsIn(s', b, t) <==> RunsIn(s, b, t);
    forall t: TaskId | t < |s'.loops| ensures Busy(s', t) {
      assert Busy(s, t);
    }
  }

  /** A loop whose attempt, if it is in one, is over. */
  lemma LinkedLeave(s: State, s': State, t: TaskId, phase: Phase, state: LoopState)
    requires Linked(s) && t < |s.loops| && !phase.Live() && !state.InAttempt?
    requires s'.loops == s.loops[t := s.loops[t].(state := state)]
    requires if s.loops[t].state.InAttempt? then
               var a := s.loops[t].state.attempt;
               a < |s.attempts| && s'.attempts == s.attempts[a := s.attempts[a].(phase := phase)]
             else s'.attempts == s.attempts
    ensures Linked(s')
  {
    assert Busy(s, t);
    forall b: AttemptId, u: TaskId ensures RunsIn(s', b, u) <==> RunsIn(s, b, u) && u != t {
      if RunsIn(s, b, u) { assert s.loops[u].state == InAttempt(b); }
    }
    forall u: TaskId | u < |s'.loops| ensures Busy(s', u) {
      assert Busy(s, u);
    }
  }

  lemma LinkedStep(s: State, step: Step)
    requires Enabled(s, step) && Linked(s)
    ensures Linked(Next(s, step))
  {
    var s' := Next(s, step);
    hide Linked, Begin, Finish, SetPhase;
    match step {
      case CreateJob(_, _) => LinkedSame(s, s');
      case DeleteJob(_) => LinkedSame(s, s');
      case TriggerManual(job) => LinkedBegin(s, job);
      case Start(order) => StartLoopsKeeps(s.(on := true), order); LinkedStart(s, s', order);
      case Stop => LinkedSame(s, s');
      case CronTick(t) =>
        if s.on { LinkedTick(s, t); } else { LinkedLeave(s, s', t, Cancelled, Ended); }
      case ExecutorReturns(a) =>
        LoopsOfSetPhase(s, a, EmittingCompletion);
        LinkedPhase(s, s', a, EmittingCompletion);
      case ExecutorRaises(a) =>
        LoopsOfSetPhase(s, a, EmittingFailure);
        LinkedPhase(s, s', a, EmittingFailure);
      case EmissionDone(a) =>
        LoopsOfFinish(s, a, Outcome(s.attempts[a].phase));
        LinkedDone(s, s', a);
      case CancelManual(a) =>
        LoopsOfFinish(s, a, Cancelled);
        LinkedPhase(s, s', a, Cancelled);
      case DeliverCancel(t) =>
        BusyAt(s, t);
        if s.loops[t].state.InAttempt? { LoopsOfFinish(s, s.loops[t].state.attempt, Cancelled); }
        LinkedLeave(s, s', t, Cancelled, Ended);
    }
  }

  lemma BusyAt(s: State, t: TaskId)
    requires Linked(s) && t < |s.loops|
    ensures s.loops[t].state.InAttempt? ==> s.loops[t].state.attempt < |s.attempts|
  {
    assert Busy(s, t);
  }

  lemma LinkedStart(s: State, s': State, order: seq<JobId>)
    requires Linked(s) && s'.attempts == s.attempts && |s'.loops| == |s.loops| + |order|
    requires forall t :: 0 <= t < |s.loops| ==> s'.loops[t] == s.loops[t]
    requires forall k :: 0 <= k < |order| ==> s'.loops[|s.loops| + k] == Loop(order[k], Sleeping, false)
    ensures Linked(s')
  {
    forall t: TaskId | |s.loops| <= t < |s'.loops| ensures s'.loops[t].state == Sleeping {
      assert s'.loops[|s.loops| + (t - |s.loops|)] == Loop(order[t - |s.loops|], Sleeping, false);
    }
    LinkedSame(s, s');
  }

  lemma LinkedDone(s: State, s': State, a: AttemptId)
    requires Linked(s) && Enabled(s, EmissionDone(a))
    requires s'.attempts == s.attempts[a := s.attempts[a].(phase := Outcome(s.attempts[a].phase))]
    requires s'.loops == match s.attempts[a].origin
                         case Manual => s.loops
                         case Cron(t) => s.loops[t := s.loops[t].(state := if s.on then Sleeping else Ended)]
    ensures Linked(s')
  {
    match s.attempts[a].origin {
      case Manual => LinkedPhase(s, s', a, Outcome(s.attempts[a].phase));
      case Cron(t) =>
        assert RunsIn(s, a, t);
        LinkedLeave(s, s', t, Outcome(s.attempts[a].phase), if s.on then Sleeping else Ended);
    }
  }

  // ---------------------------------------------------------------- loops on file

  /** A step that leaves the file alone, ends no loop on file and cancels none. */
  lemma KeptSame(s: State, s': State)
    requires Kept(s) && s'.tasks == s.tasks && s'.on == s.on && s'.jobs == s.jobs && s'.used == s.used
    requires s'.scheduled == s.scheduled
    requires |s'.loops| == |s.loops|
    requires forall t :: 0 <= t < |s.loops| ==>
               s'.loops[t].job == s.loops[t].job && s'.loops[t].cancelled == s.loops[t].cancelled
    requires s.on ==> forall t :: 0 <= t < |s.loops| && s'.loops[t].state == Ended ==>
                        s.loops[t].state == Ended || s.loops[t].cancelled
    ensures Kept(s')
  {
    forall j | j in s'.tasks ensures OnFile(s', j) {
      assert OnFile(s, j);
    }
  }

  lemma StartLoopOnFile(s: State, job: JobId)
    requires AllOnFile(s)
    ensures AllOnFile(StartLoop(s, job))
  {
    var s' := StartLoop(s, job);
    forall j | j in s'.tasks ensures OnFile(s', j) {
      if j != job { assert OnFile(s, j); }
    }
  }

  lemma {:induction false} StartLoopsOnFile(s: State, order: seq<JobId>)
    requires AllOnFile(s)
    ensures AllOnFile(StartLoops(s, order))
    decreases |order|
  {
    hide AllOnFile;
    if order != [] {
      StartLoopOnFile(s, order[0]);
      StartLoopsOnFile(StartLoop(s, order[0]), order[1..]);
    }
  }

  lemma KeptDelete(s: State, job: JobId)
    requires Kept(s)
    ensures Kept(Next(s, DeleteJob(job)))
  {
    var s' := Next(s, DeleteJob(job));
    forall j | j in s'.tasks ensures OnFile(s', j) {
      assert OnFile(s, j);
      if job in s.jobs && job in s.tasks { assert OnFile(s, job); }
    }
  }

  lemma KeptStep(s: State, step: Step)
    requires Enabled(s, step) && Kept(s)
    ensures Kept(Next(s, step))
  {
    var s' := Next(s, step);
    match step {
      case CreateJob(job, hasSchedule) =>
        if s.on && hasSchedule {
          KeptCreate(s, job);
        } else {
          forall j | j in s'.tasks ensures OnFile(s', j) { assert OnFile(s, j); }
        }
      case DeleteJob(job) => KeptDelete(s, job);
      case Start(order) =>
        var s0 := s.(on := true);
        forall j | j in s0.tasks ensures OnFile(s0, j) { assert OnFile(s, j); }
        StartLoopsOnFile(s0, order);
        StartLoopsKeeps(s0, order);
      case Stop =>
      case _ => KeptElse(s, step);
    }
  }

  lemma KeptCreate(s: State, job: JobId)
    requires Kept(s) && s.on && job !in s.used
    ensures Kept(Next(s, CreateJob(job, true)))
  {
    var s1 := s.(jobs := s.jobs + {job}, used := s.used + {job}, scheduled := s.scheduled + {job});
    forall j | j in s1.tasks ensures OnFile(s1, j) { assert OnFile(s, j); }
    StartLoopOnFile(s1, job);
  }

  lemma KeptElse(s: State, step: Step)
    requires Enabled(s, step) && Kept(s)
    requires !step.CreateJob? && !step.DeleteJob? && !step.Start? && !step.Stop?
    ensures Kept(Next(s, step))
  {
    hide Kept, Begin, Finish, SetPhase;
    var s' := Next(s, step);
    match step {
      case TriggerManual(job) => LoopsOfBegin(s, job, Manual);
      case CronTick(t) => LoopsOfBegin(s, s.loops[t].job, Cron(t));
      case ExecutorReturns(a) => LoopsOfSetPhase(s, a, EmittingCompletion);
      case ExecutorRaises(a) => LoopsOfSetPhase(s, a, EmittingFailure);
      case EmissionDone(a) => LoopsOfFinish(s, a, Outcome(s.attempts[a].phase));
      case CancelManual(a) => LoopsOfFinish(s, a, Cancelled);
      case DeliverCancel(t) =>
        if s.loops[t].state.InAttempt? && s.loops[t].state.attempt < |s.attempts| {
          LoopsOfFinish(s, s.loops[t].state.attempt, Cancelled);
        }
      case _ =>
    }
    KeptSame(s, s');
  }

  /** Loops survive their attempts, over every run: while the scheduler is on, every registered job that has a
      schedule has an uncancelled loop on file, which sleeps or is in a live attempt of its own. */
  lemma {:induction false} LoopsSurvive(s: State, steps: seq<Step>)
    requires Looping(s) && CanRun(s, steps)
    ensures Looping(Run(s, steps))
    decreases |steps|
  {
    if steps != [] {
      hide Linked, Kept, Next;
      LinkedStep(s, steps[0]);
      KeptStep(s, steps[0]);
      LoopsSurvive(Next(s, steps[0]), steps[1..]);
    }
  }

  /** However a cron attempt ends, by return, exception or skip, its loop can wake up again. */
  lemma LoopGoesRound(s: State, a: AttemptId)
    requires Linked(s) && s.on && Enabled(s, EmissionDone(a)) && s.attempts[a].origin.Cron?
    ensures Enabled(Next(s, EmissionDone(a)), CronTick(s.attempts[a].origin.task))
  {
    LoopsOfFinish(s, a, Outcome(s.attempts[a].phase));
  }

  /** So a registered job that has a schedule is never stuck while the scheduler is on: its loop can wake up, or
      the attempt the loop is in can take its next step. */
  lemma NeverStuck(s: State, job: JobId)
    requires Looping(s) && s.on && job in s.jobs && job in s.scheduled
    ensures job in s.tasks
    ensures var t := s.tasks[job];
            || Enabled(s, CronTick(t))
            || exists a: AttemptId :: RunsIn(s, a, t) && s.attempts[a].job == job
                           && (Enabled(s, ExecutorReturns(a)) || Enabled(s, EmissionDone(a)))
  {
    assert OnFile(s, job);
    var t := s.tasks[job];
    assert Busy(s, t);
  }

  /** A loop that wakes up while the scheduler is on begins an attempt for its job, which executes unless a scan of
      the job is executing already. */
  lemma TickBegins(s: State, t: TaskId)
    requires Enabled(s, CronTick(t)) && s.on && Exclusive(s, s.loops[t].job) && s.loops[t].job in s.jobs
    ensures var job := s.loops[t].job;
            Next(s, CronTick(t)).attempts ==
              s.attempts + [Attempt(job, Cron(t), if exists a :: Holder(s, job, a) then EmittingSkip else Executing)]
  {
  }

  // ---------------------------------------------------------------- when exclusion breaks, exactly

  /** An uncancelled loop of an unregistered job wakes up while a scan of that job is executing. */
  ghost predicate BreakingTick(s: State, step: Step, job: JobId) {
    TicksUnregistered(s, step, job) && exists a :: Holder(s, job, a)
  }

  lemma TickUnregistered(s: State, t: TaskId, j: JobId)
    requires Enabled(s, CronTick(t)) && Exclusive(s, j) && TicksUnregistered(s, CronTick(t), j)
    ensures Exclusive(Next(s, CronTick(t)), j) <==> !exists a :: Holder(s, j, a)
  {
    var s' := Next(s, CronTick(t));
    assert Holder(s', j, |s.attempts|);
    assert forall a :: a != |s.attempts| ==> (Holder(s', j, a) <==> Holder(s, j, a));
    if a :| Holder(s, j, a) { assert Holder(s', j, a) && a != |s.attempts|; }
  }

  /** One step breaks the exclusion of a job exactly when it is such a tick. */
  lemma StepBreaksExactly(s: State, step: Step, j: JobId)
    requires Enabled(s, step) && Exclusive(s, j)
    ensures Exclusive(Next(s, step), j) <==> !BreakingTick(s, step, j)
  {
    if TicksUnregistered(s, step, j) {
      TickUnregistered(s, step.task, j);
    } else {
      ExclusiveStep(s, step, j);
    }
  }

  /** In every state the run passes through the job has at most one executing scan and an exact flag. */
  ghost predicate StaysExclusive(s: State, steps: seq<Step>, j: JobId)
    requires CanRun(s, steps)
    decreases |steps|
  {
    Exclusive(s, j) && (steps == [] || StaysExclusive(Next(s, steps[0]), steps[1..], j))
  }

  ghost predicate NoBreakingTick(s: State, steps: seq<Step>, j: JobId)
    requires CanRun(s, steps)
    decreases |steps|
  {
    steps == [] || (!BreakingTick(s, steps[0], j) && NoBreakingTick(Next(s, steps[0]), steps[1..], j))
  }

  /** Mutual exclusion of any job, registered or deleted, exactly: a run keeps it in every state precisely
      when no uncancelled loop of the unregistered job wakes up while its scan is executing. */
  lemma {:induction false} RunBreaksExactly(s: State, steps: seq<Step>, j: JobId)
    requires CanRun(s, steps) && Exclusive(s, j)
    ensures StaysExclusive(s, steps, j) <==> NoBreakingTick(s, steps, j)
    decreases |steps|
  {
    hide Exclusive, BreakingTick, Next;
    if steps != [] {
      var s' := Next(s, steps[0]);
      StepBreaksExactly(s, steps[0], j);
      if Exclusive(s', j) {
        RunBreaksExactly(s', steps[1..], j);
      }
    }
  }

  // ---------------------------------------------------------------- emissions

  function CountOf(emitted: seq<Emission>, a: AttemptId, kind: Kind): nat {
    if emitted == [] then 0
    else CountOf(emitted[..|emitted| - 1], a, kind) + if emitted[|emitted| - 1] == Emission(a, kind) then 1 else 0
  }

  /** How often an attempt in a phase has emitted each kind. */
  ghost predicate Tally(phase: Phase, completions: nat, failures: nat, skips: nat) {
    match phase
    case Executing => completions == failures == skips == 0
    case EmittingCompletion => completions == 1 && failures == skips == 0
    case Completed => completions == 1 && failures == skips == 0
    case EmittingFailure => failures == 1 && completions == skips == 0
    case Failed => failures == 1 && completions == skips == 0
    case EmittingSkip => skips == 1 && completions == failures == 0
    case Skipped => skips == 1 && completions == failures == 0
    case Cancelled => completions + failures + skips <= 1
  }

  ghost predicate AccountedAt(s: State, a: AttemptId) {
    if a < |s.attempts| then
      Tally(s.attempts[a].phase, CountOf(s.emitted, a, CompletionEvent), CountOf(s.emitted, a, FailureAlert),
            CountOf(s.emitted, a, SkipEvent))
    else
      forall kind :: CountOf(s.emitted, a, kind) == 0
  }

  lemma CountAppend(emitted: seq<Emission>, e: Emission, a: AttemptId, kind: Kind)
    ensures CountOf(emitted + [e], a, kind) == CountOf(emitted, a, kind) + if e == Emission(a, kind) then 1 else 0
  {
    assert (emitted + [e])[..|emitted|] == emitted;
  }

  lemma EmitAccounted(s: State, b: AttemptId, kind: Kind, a: AttemptId)
    ensures var emitted := s.emitted + [Emission(b, kind)];
            forall k :: CountOf(emitted, a, k) == CountOf(s.emitted, a, k) + if a == b && k == kind then 1 else 0
  {
    forall k ensures CountOf(s.emitted + [Emission(b, kind)], a, k)
                       == CountOf(s.emitted, a, k) + if a == b && k == kind then 1 else 0 {
      CountAppend(s.emitted, Emission(b, kind), a, k);
    }
  }

  lemma BeginAccounted(s: State, job: JobId, origin: Origin, a: AttemptId)
    requires AccountedAt(s, a)
    ensures AccountedAt(Begin(s, job, origin), a)
  {
    hide CountOf;
    var s' := Begin(s, job, origin);
    if CheckOverlap(s, job) {
      EmitAccounted(s, |s.attempts|, SkipEvent, a);
      assert s'.emitted == s.emitted + [Emission(|s.attempts|, SkipEvent)];
      assert a < |s.attempts| ==> s'.attempts[a] == s.attempts[a];
    } else {
      assert s'.emitted == s.emitted;
      assert a < |s.attempts| ==> s'.attempts[a] == s.attempts[a];
    }
  }

  lemma PhaseAccounted(s: State, b: AttemptId, phase: Phase, a: AttemptId)
    requires AccountedAt(s, a) && b < |s.attempts|
    requires phase == Cancelled ||
             (var was := s.attempts[b].phase; was.Live() && !was.Executing? && phase == Outcome(was))
    ensures AccountedAt(Finish(s, b, phase), a)
  {
    hide CountOf;
  }

  lemma SameAccounted(s: State, s': State, a: AttemptId)
    requires AccountedAt(s, a) && s'.attempts == s.attempts && s'.emitted == s.emitted
    ensures AccountedAt(s', a)
  {
  }

  lemma ExecutorAccounted(s: State, b: AttemptId, phase: Phase, kind: Kind, a: AttemptId)
    requires AccountedAt(s, a) && b < |s.attempts| && s.attempts[b].phase == Executing
    requires (phase, kind) in {(EmittingCompletion, CompletionEvent), (EmittingFailure, FailureAlert)}
    ensures AccountedAt(SetPhase(s, b, phase).(emitted := s.emitted + [Emission(b, kind)]), a)
  {
    EmitAccounted(s, b, kind, a);
    hide CountOf;
  }

  lemma AccountedStep(s: State, step: Step, a: AttemptId)
    requires Enabled(s, step) && AccountedAt(s, a)
    ensures AccountedAt(Next(s, step), a)
  {
    hide AccountedAt, Begin, Finish, StartLoops, CancelLoops, CountOf;
    var s' := Next(s, step);
    match step {
      case Start(order) => StartLoopsKeeps(s.(on := true), order); SameAccounted(s, s', a);
      case TriggerManual(job) => BeginAccounted(s, job, Manual, a);
      case CronTick(t) =>
        if s.on {
          BeginAccounted(s, s.loops[t].job, Cron(t), a);
          LoopsOfBegin(s, s.loops[t].job, Cron(t));
          SameAccounted(Begin(s, s.loops[t].job, Cron(t)), s', a);
        } else {
          SameAccounted(s, s', a);
        }
      case ExecutorReturns(b) => ExecutorAccounted(s, b, EmittingCompletion, CompletionEvent, a);
      case ExecutorRaises(b) => ExecutorAccounted(s, b, EmittingFailure, FailureAlert, a);
      case EmissionDone(b) =>
        var phase := Outcome(s.attempts[b].phase);
        PhaseAccounted(s, b, phase, a);
        LoopsOfFinish(s, b, phase);
        SameAccounted(Finish(s, b, phase), s', a);
      case CancelManual(b) => PhaseAccounted(s, b, Cancelled, a);
      case DeliverCancel(t) =>
        if s.loops[t].state.InAttempt? && s.loops[t].state.attempt < |s.attempts| {
          var b := s.loops[t].state.attempt;
          PhaseAccounted(s, b, Cancelled, a);
          LoopsOfFinish(s, b, Cancelled);
          SameAccounted(Finish(s, b, Cancelled), s', a);
        } else {
          SameAccounted(s, s', a);
        }
      case _ => SameAccounted(s, s', a);
    }
  }

  ghost predicate Accounted(s: State) {
    forall a :: AccountedAt(s, a)
  }

  /** In every reachable state a finished attempt that was not cancelled has emitted exactly once, and
      what its outcome calls for; no attempt ever emits twice. */
  lemma {:induction false} OneEmissionEach(s: State, steps: seq<Step>)
    requires Accounted(s) && CanRun(s, steps)
    ensures Accounted(Run(s, steps))
    decreases |steps|
  {
    if steps != [] {
      hide AccountedAt, Next;
      var s' := Next(s, steps[0]);
      forall a ensures AccountedAt(s', a) {
        assert AccountedAt(s, a);
        AccountedStep(s, steps[0], a);
      }
      OneEmissionEach(s', steps[1..]);
    }
  }

  function CountSteps(steps: seq<Step>, step: Step): nat
    decreases |steps|
  {
    if steps == [] then 0 else (if steps[0] == step then 1 else 0) + CountSteps(steps[1..], step)
  }

  lemma EmittedStep(s: State, step: Step, a: AttemptId)
    requires Enabled(s, step)
    ensures CountOf(Next(s, step).emitted, a, CompletionEvent)
              == CountOf(s.emitted, a, CompletionEvent) + if step == ExecutorReturns(a) then 1 else 0
    ensures CountOf(Next(s, step).emitted, a, FailureAlert)
              == CountOf(s.emitted, a, FailureAlert) + if step == ExecutorRaises(a) then 1 else 0
  {
    hide CountOf, StartLoops;
    match step {
      case Start(order) => StartLoopsKeeps(s.(on := true), order);
      case TriggerManual(_) => EmitAccounted(s, |s.attempts|, SkipEvent, a);
      case CronTick(_) => EmitAccounted(s, |s.attempts|, SkipEvent, a);
      case ExecutorReturns(b) => EmitAccounted(s, b, CompletionEvent, a);
      case ExecutorRaises(b) => EmitAccounted(s, b, FailureAlert, a);
      case _ =>
    }
  }

  /** Emissions tell what executors did, over every run: a completion event for every return, a failure alert for
      every exception. */
  lemma {:induction false} EmissionsTell(s: State, steps: seq<Step>, a: AttemptId)
    requires CanRun(s, steps)
    ensures CountOf(Run(s, steps).emitted, a, CompletionEvent)
              == CountOf(s.emitted, a, CompletionEvent) + CountSteps(steps, ExecutorReturns(a))
    ensures CountOf(Run(s, steps).emitted, a, FailureAlert)
              == CountOf(s.emitted, a, FailureAlert) + CountSteps(steps, ExecutorRaises(a))
    decreases |steps|
  {
    if steps != [] {
      hide CountOf, Next;
      EmittedStep(s, steps[0], a);
      EmissionsTell(Next(s, steps[0]), steps[1..], a);
    }
  }

  /** What every run of the scheduler keeps, whoever calls it and when. */
  ghost predicate Sound(s: State) {
    RegisteredExclusive(s) && Accounted(s) && Looping(s)
  }

  lemma KeepsSound(s: State, step: Step)
    requires Enabled(s, step)
    ensures Sound(s) ==> Sound(Next(s, step))
  {
    hide RegisteredExclusive, AccountedAt, Next, Linked, Kept;
    if Sound(s) {
      LinkedStep(s, step);
      KeptStep(s, step);
      assert [step][1..] == [];
      RegisteredJobsExclusive(s, [step]);
      assert Run(s, [step]) == Next(s, step);
      forall a ensures AccountedAt(Next(s, step), a) { AccountedStep(s, step, a); }
    }
  }

  /** A trigger is skipped exactly when the job already has an executing scan. */
  lemma SkippedIffExecuting(s: State, job: JobId)
    requires Exclusive(s, job) && Enabled(s, TriggerManual(job))
    ensures Next(s, TriggerManual(job)).attempts ==
              s.attempts + [Attempt(job, Manual, if exists a :: Holder(s, job, a) then EmittingSkip else Executing)]
  {
  }

  lemma SoundTrigger(s: State, job: JobId)
    requires Enabled(s, TriggerManual(job)) && Sound(s)
    ensures Next(s, TriggerManual(job)).attempts[|s.attempts|].phase == EmittingSkip <==> exists a :: Holder(s, job, a)
  {
    hide Accounted;
    SkippedIffExecuting(s, job);
  }

  lemma EmptyState()
    ensures RegisteredExclusive(EMPTY) && Disciplined(EMPTY) && AllExclusive(EMPTY)
    ensures Accounted(EMPTY) && Looping(EMPTY)
  {
  }

  // ---------------------------------------------------------------- why start must not be repeated

  lemma RunFirst(s: State, step: Step, rest: seq<Step>)
    requires Enabled(s, step) && CanRun(Next(s, step), rest)
    ensures CanRun(s, [step] + rest) && Run(s, [step] + rest) == Run(Next(s, step), rest)
  {
    assert ([step] + rest)[1..] == rest;
  }

  /** With a repeated `start` a deleted job can end up with two executing scans: the first loop is
      forgotten, survives the deletion, and finds no registered job to ask for the flag. */
  lemma RepeatedStartBreaksExclusion()
    ensures var steps := [CreateJob(0, true)] + ([Start([0])] + ([Start([0])] + ([TriggerManual(0)]
                           + ([DeleteJob(0)] + ([CronTick(0)] + [])))));
            CanRun(EMPTY, steps) && !Exclusive(Run(EMPTY, steps), 0)
  {
    var s1 := Next(EMPTY, CreateJob(0, true));
    assert s1 == State({0}, {0}, {0}, {}, map[], [], [], false, []);
    var s2 := OneStart(s1);
    var s3 := OneStart(s2);
    assert s3.loops == [Loop(0, Sleeping, false), Loop(0, Sleeping, false)] && s3.tasks == map[0 := 1];
    var s4 := Next(s3, TriggerManual(0));
    assert s4.attempts == [Attempt(0, Manual, Executing)];
    var s5 := Next(s4, DeleteJob(0));
    assert s5.loops[0] == Loop(0, Sleeping, false) && s5.jobs == {};
    var s6 := Next(s5, CronTick(0));
    assert s6.attempts[0] == Attempt(0, Manual, Executing) && s6.attempts[1] == Attempt(0, Cron(0), Executing);
    assert Holder(s6, 0, 0) && Holder(s6, 0, 1);
    hide Next, Exclusive;
    RunFirst(s5, CronTick(0), []);
    RunFirst(s4, DeleteJob(0), [CronTick(0)] + []);
    RunFirst(s3, TriggerManual(0), [DeleteJob(0)] + ([CronTick(0)] + []));
    RunFirst(s2, Start([0]), [TriggerManual(0)] + ([DeleteJob(0)] + ([CronTick(0)] + [])));
    RunFirst(s1, Start([0]), [Start([0])] + ([TriggerManual(0)] + ([DeleteJob(0)] + ([CronTick(0)] + []))));
    RunFirst(EMPTY, CreateJob(0, true),
             [Start([0])] + ([Start([0])] + ([TriggerManual(0)] + ([DeleteJob(0)] + ([CronTick(0)] + [])))));
  }

  lemma OneStart(s: State) returns (s': State)
    requires s.jobs == {0} && s.scheduled == {0}
    ensures Enabled(s, Start([0])) && s' == Next(s, Start([0]))
    ensures s' == s.(on := true, loops := s.loops + [Loop(0, Sleeping, false)], tasks := s.tasks[0 := |s.loops|])
  {
    s' := Next(s, Start([0]));
    assert [0][1..] == [];
  }
}
