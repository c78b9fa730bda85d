/** The scheduler object: a registry of mutable job records whose methods, between two suspensions,
    take the steps of `Scheduler`. */
module ScanSchedulers {
  import opened Bytes
  import opened Scheduler

  class ScanJob {
    const id: JobId
    const hasSchedule: bool
    var running: bool

    constructor (id: JobId, hasSchedule: bool)
      ensures this.id == id && this.hasSchedule == hasSchedule && !running
    {
      this.id, this.hasSchedule, running := id, hasSchedule, false;
    }
  }

  class ScanScheduler {
    var jobs: map<JobId, ScanJob>
    var schedulerTasks: map<JobId, TaskId>
    var running: bool
    /** The job records coroutines still refer to, registered or not, and the coroutines themselves. */
    var known: map<JobId, ScanJob>
    var loops: seq<Loop>
    var attempts: seq<Attempt>
    var emitted: seq<Emission>

    ghost predicate Valid()
      reads this
    {
      && (forall j :: j in known ==> known[j].id == j)
      && (forall j :: j in jobs ==> j in known && known[j] == jobs[j])
      && (forall a :: 0 <= a < |attempts| ==> attempts[a].job in known)
      && (forall t :: 0 <= t < |loops| ==> loops[t].job in known)
    }

    ghost function Flagged(): (r: set<JobId>)
      reads this`known, known.Values
    {
      set j | j in known && known[j].running
    }

    ghost function Scheduled(): (r: set<JobId>)
      reads this`known
    {
      set j | j in known && known[j].hasSchedule
    }

    ghost function Current(): State
      reads this, known.Values
    {
      State(jobs.Keys, known.Keys, Scheduled(), Flagged(),
            schedulerTasks, loops, attempts, running, emitted)
    }

    constructor ()
      ensures Valid() && Current() == EMPTY && Sound(Current())
    {
      EmptyState();
      jobs, schedulerTasks, running, known := map[], map[], false, map[];
      loops, attempts, emitted := [], [], [];
    }

    method SetFlag(job: ScanJob, value: bool)
      requires Valid() && job.id in known && known[job.id] == job
      modifies job
      ensures Valid()
      ensures Flagged() == if value then old(Flagged()) + {job.id} else old(Flagged()) - {job.id}
    {
      job.running := value;
    }

    method StartJobLoop(job: JobId)
      requires Valid() && job in known
      modifies this`loops, this`schedulerTasks
      ensures Valid() && Current() == StartLoop(old(Current()), job)
    {
      schedulerTasks := schedulerTasks[job := |loops|];
      loops := loops + [Loop(job, Sleeping, false)];
    }

    method Register(id: JobId, hasSchedule: bool)
      requires Valid() && id !in known
      modifies this`jobs, this`known
      ensures Valid() && id in known && fresh(known[id]) && known == old(known)[id := known[id]]
      ensures jobs == old(jobs)[id := known[id]] && Flagged() == old(Flagged())
      ensures Scheduled() == if hasSchedule then old(Scheduled()) + {id} else old(Scheduled())
    {
      var job := new ScanJob(id, hasSchedule);
      ghost var was := known;
      jobs, known := jobs[id := job], known[id := job];
      assert forall j :: j in known <==> j in was || j == id;
      assert forall j :: j in was ==> known[j] == was[j] && was[j].running == old(was[j].running);
      assert Flagged() == old(Flagged());
      assert Scheduled() == if hasSchedule then old(Scheduled()) + {id} else old(Scheduled());
    }

    method CreateJob(id: JobId, hasSchedule: bool)
      requires Valid() && id !in known
      modifies this
      ensures Valid() && id in known && fresh(known[id]) && known == old(known)[id := known[id]]
      ensures Current() == Next(old(Current()), Step.CreateJob(id, hasSchedule))
      ensures Sound(old(Current())) ==> Sound(Current())
    {
      hide Sound;
      KeepsSound(Current(), Step.CreateJob(id, hasSchedule));
      hide ScanScheduler.Flagged, ScanScheduler.Scheduled;
      Register(id, hasSchedule);
      assert jobs.Keys == old(jobs.Keys) + {id} && known.Keys == old(known.Keys) + {id};
      if running && hasSchedule {
        StartJobLoop(id);
      }
    }

    method DeleteJob(id: JobId) returns (found: bool)
      requires Valid()
      modifies this`jobs, this`schedulerTasks, this`loops
      ensures Valid() && found == (id in old(jobs))
      ensures Current() == Next(old(Current()), Step.DeleteJob(id))
      ensures Sound(old(Current())) ==> Sound(Current())
    {
      hide Sound, ScanScheduler.Flagged, ScanScheduler.Scheduled;
      KeepsSound(Current(), Step.DeleteJob(id));
      if id !in jobs { return false; }
      if id in schedulerTasks {
        loops := CancelLoops(loops, {schedulerTasks[id]});
        schedulerTasks := schedulerTasks - {id};
      }
      jobs := jobs - {id};
      found := true;
    }

    /** Asks the registry: an unregistered job never overlaps. */
    method CheckOverlap(id: JobId) returns (overlap: bool)
      requires Valid()
      ensures overlap == Scheduler.CheckOverlap(Current(), id)
    {
      overlap := id in jobs && jobs[id].running;
    }

    method BeginAttempt(id: JobId, origin: Origin)
      requires Valid() && id in known
      modifies this`attempts, this`emitted, known[id]
      ensures Valid() && Current() == Begin(old(Current()), id, origin)
    {
      var overlap := CheckOverlap(id);
      if overlap {
        emitted := emitted + [Emission(|attempts|, SkipEvent)];
        attempts := attempts + [Attempt(id, origin, EmittingSkip)];
      } else {
        SetFlag(known[id], true);
        attempts := attempts + [Attempt(id, origin, Executing)];
      }
    }

    /** `None` stands for the job-not-found exception. */
    method TriggerManual(id: JobId) returns (attempt: Option<AttemptId>)
      requires Valid()
      modifies this`attempts, this`emitted, known.Values
      ensures Valid() && (attempt.Some? <==> id in jobs)
      ensures attempt.Some? ==> Current() == Next(old(Current()), Step.TriggerManual(id))
      ensures attempt.None? ==> Current() == old(Current())
      ensures attempt.Some? && Sound(old(Current())) ==>
                attempt.value < |attempts|
                && (attempts[attempt.value].phase == EmittingSkip <==> exists a :: Holder(old(Current()), id, a))
      ensures Sound(old(Current())) ==> Sound(Current())
    {
      hide Sound;
      hide Begin;
      if id !in jobs { return None; }
      KeepsSound(Current(), Step.TriggerManual(id));
      if Sound(Current()) { SoundTrigger(Current(), id); }
      assert known[id] in known.Values;
      LoopsOfBegin(Current(), id, Manual);
      BeginAttempt(id, Manual);
      var latest: AttemptId := |attempts| - 1;
      attempt := Some(latest);
    }

    method Start() returns (ghost order: seq<JobId>)
      requires Valid()
      modifies this`running, this`loops, this`schedulerTasks
      ensures Valid() && Enabled(old(Current()), Step.Start(order))
      ensures Current() == Next(old(Current()), Step.Start(order))
      ensures Sound(old(Current())) ==> Sound(Current())
    {
      running := true;
      order := [];
      ghost var s0 := Current();
      assert s0 == old(Current()).(on := true) by {
        assert Flagged() == old(Flagged());
      }
      hide ScanScheduler.Current, StartLoop, Sound;
      var todo := jobs.Keys;
      while todo != {}
        invariant todo <= jobs.Keys && Valid() && running
        invariant forall j :: j in order <==> j in jobs && j !in todo && jobs[j].hasSchedule
        invariant forall i, k :: 0 <= i < k < |order| ==> order[i] != order[k]
        invariant Current() == StartLoops(s0, order)
        decreases todo
      {
        var j :| j in todo;
        if jobs[j].hasSchedule {
          StartLoopsSnoc(s0, order, j);
          order := order + [j];
          StartJobLoop(j);
        }
        todo := todo - {j};
      }
      KeepsSound(old(Current()), Step.Start(order));
    }

    method Stop()
      requires Valid()
      modifies this`running, this`loops, this`schedulerTasks
      ensures Valid() && Current() == Next(old(Current()), Step.Stop)
      ensures Sound(old(Current())) ==> Sound(Current())
    {
      hide Sound, ScanScheduler.Flagged, ScanScheduler.Scheduled;
      KeepsSound(Current(), Step.Stop);
      running := false;
      loops := CancelLoops(loops, schedulerTasks.Values);
      schedulerTasks := map[];
    }

    method CronTick(t: TaskId)
      requires Valid() && Enabled(Current(), Step.CronTick(t))
      modifies this`loops, this`attempts, this`emitted, known.Values
      ensures Valid() && Current() == Next(old(Current()), Step.CronTick(t))
      ensures Sound(old(Current())) && running && loops[t].job in jobs ==>
                var job := loops[t].job;
                attempts == old(attempts) + [Attempt(job, Cron(t), if exists a :: Holder(old(Current()), job, a)
                                                                   then EmittingSkip else Executing)]
      ensures Sound(old(Current())) ==> Sound(Current())
    {
      if Sound(Current()) && running && loops[t].job in jobs { TickBegins(Current(), t); }
      hide Sound, Holder;
      KeepsSound(Current(), Step.CronTick(t));
      hide Begin;
      if !running {
        loops := loops[t := loops[t].(state := Ended)];
        return;
      }
      var job := loops[t].job;
      assert known[job] in known.Values;
      LoopsOfBegin(Current(), job, Cron(t));
      BeginAttempt(job, Cron(t));
      loops := loops[t := loops[t].(state := InAttempt(|attempts| - 1))];
    }

    method ExecutorReturns(a: AttemptId)
      requires Valid() && Enabled(Current(), Step.ExecutorReturns(a))
      modifies this`attempts, this`emitted
      ensures Valid() && Current() == Next(old(Current()), Step.ExecutorReturns(a))
      ensures Sound(old(Current())) ==> Sound(Current())
    {
      hide Sound, ScanScheduler.Flagged, ScanScheduler.Scheduled;
      KeepsSound(Current(), Step.ExecutorReturns(a));
      attempts := attempts[a := attempts[a].(phase := EmittingCompletion)];
      emitted := emitted + [Emission(a, CompletionEvent)];
    }

    method ExecutorRaises(a: AttemptId)
      requires Valid() && Enabled(Current(), Step.ExecutorRaises(a))
      modifies this`attempts, this`emitted
      ensures Valid() && Current() == Next(old(Current()), Step.ExecutorRaises(a))
      ensures Sound(old(Current())) ==> Sound(Current())
    {
      hide Sound, ScanScheduler.Flagged, ScanScheduler.Scheduled;
      KeepsSound(Current(), Step.ExecutorRaises(a));
      attempts := attempts[a := attempts[a].(phase := EmittingFailure)];
      emitted := emitted + [Emission(a, FailureAlert)];
    }

    /** The `finally` clause: every way out of a scan lowers the flag. */
    method FinishAttempt(a: AttemptId, phase: Phase)
      requires Valid() && a < |attempts|
      modifies this`attempts, known.Values
      ensures Valid() && Current() == Finish(old(Current()), a, phase)
    {
      var job := known[attempts[a].job];
      assert job in known.Values;
      if attempts[a].phase.HoldsFlag() {
        SetFlag(job, false);
      }
      attempts := attempts[a := attempts[a].(phase := phase)];
    }

    method EmissionDone(a: AttemptId)
      requires Valid() && Enabled(Current(), Step.EmissionDone(a))
      modifies this`attempts, this`loops, known.Values
      ensures Valid() && Current() == Next(old(Current()), Step.EmissionDone(a))
      ensures Sound(old(Current())) && running && attempts[a].origin.Cron? ==>
                Enabled(Current(), Step.CronTick(attempts[a].origin.task))
      ensures Sound(old(Current())) ==> Sound(Current())
    {
      if Sound(Current()) && running && attempts[a].origin.Cron? { LoopGoesRound(Current(), a); }
      hide Sound;
      KeepsSound(Current(), Step.EmissionDone(a));
      hide Finish;
      var origin := attempts[a].origin;
      LoopsOfFinish(Current(), a, Outcome(attempts[a].phase));
      FinishAttempt(a, Outcome(attempts[a].phase));
      if origin.Cron? {
        var t := origin.task;
        loops := loops[t := loops[t].(state := if running then Sleeping else Ended)];
      }
    }

    method CancelManual(a: AttemptId)
      requires Valid() && Enabled(Current(), Step.CancelManual(a))
      modifies this`attempts, known.Values
      ensures Valid() && Current() == Next(old(Current()), Step.CancelManual(a))
      ensures Sound(old(Current())) ==> Sound(Current())
    {
      hide Sound;
      KeepsSound(Current(), Step.CancelManual(a));
      FinishAttempt(a, Cancelled);
    }

    method DeliverCancel(t: TaskId)
      requires Valid() && Enabled(Current(), Step.DeliverCancel(t))
      modifies this`attempts, this`loops, known.Values
      ensures Valid() && Current() == Next(old(Current()), Step.DeliverCancel(t))
      ensures Sound(old(Current())) ==> Sound(Current())
    {
      hide Sound;
      KeepsSound(Current(), Step.DeliverCancel(t));
      hide Finish;
      var state := loops[t].state;
      if state.InAttempt? && state.attempt < |attempts| {
        LoopsOfFinish(Current(), state.attempt, Cancelled);
        FinishAttempt(state.attempt, Cancelled);
      }
      loops := loops[t := loops[t].(state := Ended)];
    }
  }

  lemma {:induction false} StartLoopsSnoc(s: State, order: seq<JobId>, j: JobId)
    ensures StartLoops(s, order + [j]) == StartLoop(StartLoops(s, order), j)
    decreases |order|
  {
    if order == [] {
      assert [j][1..] == [];
    } else {
      assert (order + [j])[1..] == order[1..] + [j];
      StartLoopsSnoc(StartLoop(s, order[0]), order[1..], j);
    }
  }
}
