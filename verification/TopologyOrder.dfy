/**
 * What flushes in any order do to the timestamps.  With several flushers, commits and put-backs may come in
 * any order; for every run this module says exactly when first and last sightings are lost, and shows
 * both ways of losing one.
 */
module TopologyOrders {
  import opened Topology
  import opened TopologyTimes

  // ---------------------------------------------------------------- what the stores remember

  ghost predicate FirstBy(store: Store, t: Triple, at: int) {
    t in store && store[t].first <= at
  }

  ghost predicate LastFrom(store: Store, t: Triple, at: int) {
    t in store && at <= store[t].last
  }

  /** Some store remembers a sighting of `t` at or before `at`. */
  ghost predicate Early(s: State, t: Triple, at: int) {
    FirstBy(s.rows, t, at) || FirstBy(s.buffer, t, at) || exists f :: f in s.flights && FirstBy(f, t, at)
  }

  /** Some store remembers a sighting of `t` at or after `at`. */
  ghost predicate Late(s: State, t: Triple, at: int) {
    LastFrom(s.rows, t, at) || LastFrom(s.buffer, t, at) || exists f :: f in s.flights && LastFrom(f, t, at)
  }

  /** No packet of `t` is earlier than every remembered sighting. */
  ghost predicate FirstKept(s: State, t: Triple) {
    forall i :: 0 <= i < |s.log| && s.log[i].triple == t ==> Early(s, t, s.log[i].at)
  }

  /** No packet of `t` is later than every remembered sighting. */
  ghost predicate LastKept(s: State, t: Triple) {
    forall i :: 0 <= i < |s.log| && s.log[i].triple == t ==> Late(s, t, s.log[i].at)
  }

  /** The state with one snapshot out of sight. */
  function Besides(s: State, k: nat): State
    requires k < |s.flights|
  {
    s.(flights := Without(s.flights, k))
  }

  /** The commit drops the earliest sighting: the row exists, so its first sighting is not lowered, and no
      other store goes back as far as the snapshot. */
  ghost predicate LosesFirst(s: State, step: Step, t: Triple)
    requires Enabled(s, step)
  {
    step.Commit? && t in s.rows && t in s.flights[step.flight]
    && !Early(Besides(s, step.flight), t, s.flights[step.flight][t].first)
  }

  /** The put-back drops the latest sighting: the buffer has an edge, so its last sighting is not raised,
      and no other store reaches as far as the snapshot. */
  ghost predicate LosesLast(s: State, step: Step, t: Triple)
    requires Enabled(s, step)
  {
    step.Fail? && t in s.buffer && t in s.flights[step.flight]
    && !Late(Besides(s, step.flight), t, s.flights[step.flight][t].last)
  }

  // ---------------------------------------------------------------- what every run keeps

  ghost predicate SeenIn(store: Store, log: seq<Observation>) {
    forall t :: t in store ==> Seen(log, t, store[t].first) && Seen(log, t, store[t].last)
  }

  /** Every remembered time is the time of a packet, and every recorded triple is remembered. */
  ghost predicate Sighted(s: State) {
    && Conserved(s)
    && SeenIn(s.rows, s.log) && SeenIn(s.buffer, s.log)
    && forall f :: f in s.flights ==> SeenIn(f, s.log)
  }

  lemma SeenLonger(store: Store, log: seq<Observation>, o: Observation)
    requires SeenIn(store, log)
    ensures SeenIn(store, log + [o])
  {
    forall t | t in store ensures Seen(log + [o], t, store[t].first) && Seen(log + [o], t, store[t].last) {
      SeenConcat(log, [o], t, store[t].first);
      SeenConcat(log, [o], t, store[t].last);
    }
  }

  lemma SeenRecorded(buffer: Store, log: seq<Observation>, o: Observation)
    requires SeenIn(buffer, log)
    ensures SeenIn(RecordIn(buffer, o), log + [o])
  {
    SeenLonger(buffer, log, o);
    assert (log + [o])[|log|] == o;
    assert Seen(log + [o], o.triple, o.at);
  }

  lemma SeenMerged(base: Store, added: Store, log: seq<Observation>)
    requires SeenIn(base, log) && SeenIn(added, log)
    ensures SeenIn(Persist(base, added), log) && SeenIn(Restore(base, added), log)
  {
    hide Seen;
  }

  lemma SplitOff(flights: seq<Store>, k: nat)
    requires k < |flights|
    ensures forall f :: f in flights <==> f == flights[k] || f in Without(flights, k)
  {
    assert flights == flights[..k] + ([flights[k]] + flights[k + 1..]);
  }

  lemma SightedStep(s: State, step: Step)
    requires Sighted(s) && Enabled(s, step)
    ensures Sighted(Next(s, step))
  {
    ConservedStep(s, step);
    hide Conserved, Seen, RecordIn;
    match step {
      case Record(o) =>
        SeenLonger(s.rows, s.log, o);
        SeenRecorded(s.buffer, s.log, o);
        forall f | f in s.flights ensures SeenIn(f, s.log + [o]) { SeenLonger(f, s.log, o); }
      case Snapshot =>
      case Commit(k) =>
        SplitOff(s.flights, k);
        SeenMerged(s.rows, s.flights[k], s.log);
      case Fail(k) =>
        SplitOff(s.flights, k);
        SeenMerged(s.buffer, s.flights[k], s.log);
      case SetSniffer(_) =>
    }
  }

  lemma {:induction false} SomewhereInFlight(flights: seq<Store>, t: Triple)
    requires InFlight(flights, t) > 0
    ensures exists f: Store :: f in flights && t in f
    decreases |flights|
  {
    if t in flights[0] {
      assert flights[0] in flights;
    } else {
      SomewhereInFlight(flights[1..], t);
      var f: Store :| f in flights[1..] && t in f;
      assert f in flights;
    }
  }

  /** A packet that some store forgot is older than every time the stores remember, so a later packet of its
      triple cannot stand in for it. */
  lemma ForgottenIsOlder(s: State, t: Triple, i: nat, o: Observation)
    requires Sighted(s) && i < |s.log| && s.log[i].triple == t && !Early(s, t, s.log[i].at)
    requires ClockRuns(s, Record(o))
    ensures s.log[i].at < o.at
  {
    RecordedZero(s.log, t);
    assert Count(s.rows, t) + InFlight(s.flights, t) + Count(s.buffer, t) == Recorded(s.log, t);
    if t !in s.rows && t !in s.buffer {
      SomewhereInFlight(s.flights, t);
      var f: Store :| f in s.flights && t in f;
      assert !FirstBy(f, t, s.log[i].at);
      assert Seen(s.log, t, f[t].first);
    }
  }

  // ---------------------------------------------------------------- one step, exactly

  lemma SightingsBesides(s: State, k: nat, t: Triple, at: int)
    requires k < |s.flights|
    ensures Early(s, t, at) <==> Early(Besides(s, k), t, at) || FirstBy(s.flights[k], t, at)
    ensures Late(s, t, at) <==> Late(Besides(s, k), t, at) || LastFrom(s.flights[k], t, at)
  {
    hide FirstBy, LastFrom, Without;
    SplitOff(s.flights, k);
  }

  lemma MergedSightings(base: Store, added: Store, t: Triple, at: int)
    ensures FirstBy(Persist(base, added), t, at) <==> FirstBy(base, t, at) || (t !in base && FirstBy(added, t, at))
    ensures LastFrom(Persist(base, added), t, at) <==> LastFrom(base, t, at) || LastFrom(added, t, at)
    ensures FirstBy(Restore(base, added), t, at) <==> FirstBy(base, t, at) || FirstBy(added, t, at)
    ensures LastFrom(Restore(base, added), t, at) <==> LastFrom(base, t, at) || (t !in base && LastFrom(added, t, at))
  {
  }

  /** What a commit leaves of early sightings and a put-back of late ones; the others both keep. */
  lemma FlushedSightings(s: State, k: nat, t: Triple, at: int)
    requires k < |s.flights|
    ensures var s', f := Next(s, Commit(k)), s.flights[k];
            && (Early(s', t, at) <==> Early(Besides(s, k), t, at) || (t !in s.rows && FirstBy(f, t, at)))
            && (Late(s', t, at) <==> Late(s, t, at))
    ensures var s', f := Next(s, Fail(k)), s.flights[k];
            && (Early(s', t, at) <==> Early(s, t, at))
            && (Late(s', t, at) <==> Late(Besides(s, k), t, at) || (t !in s.buffer && LastFrom(f, t, at)))
  {
    SightingsBesides(s, k, t, at);
    MergedSightings(s.rows, s.flights[k], t, at);
    MergedSightings(s.buffer, s.flights[k], t, at);
    hide Persist, Restore, FirstBy, LastFrom, Without;
  }

  lemma SameLog(s: State, step: Step)
    requires Enabled(s, step)
    ensures Next(s, step).log == if step.Record? then s.log + [step.o] else s.log
  {
  }

  lemma CommitKeeps(s: State, k: nat, t: Triple)
    requires Sighted(s) && k < |s.flights|
    ensures FirstKept(Next(s, Commit(k)), t) <==> FirstKept(s, t) && !LosesFirst(s, Commit(k), t)
    ensures LastKept(Next(s, Commit(k)), t) <==> LastKept(s, t)
  {
    hide Conserved, Next, Early, Late;
    var s', f := Next(s, Commit(k)), s.flights[k];
    SameLog(s, Commit(k));
    forall at
      ensures Early(s, t, at) <==> Early(Besides(s, k), t, at) || FirstBy(f, t, at)
      ensures Early(s', t, at) <==> Early(Besides(s, k), t, at) || (t !in s.rows && FirstBy(f, t, at))
      ensures Late(s', t, at) <==> Late(s, t, at)
    {
      FlushedSightings(s, k, t, at);
      SightingsBesides(s, k, t, at);
    }
    if t in f {
      assert f in s.flights;
      var i :| 0 <= i < |s.log| && s.log[i].triple == t && s.log[i].at == f[t].first;
      assert FirstKept(s', t) ==> Early(s', t, s.log[i].at);
      forall at | Early(Besides(s, k), t, f[t].first) && f[t].first <= at ensures Early(Besides(s, k), t, at) {
        LaterStillEarly(Besides(s, k), t, f[t].first, at);
      }
    }
  }

  lemma LaterStillEarly(s: State, t: Triple, at: int, later: int)
    ensures at <= later && Early(s, t, at) ==> Early(s, t, later)
    ensures at <= later && Late(s, t, later) ==> Late(s, t, at)
  {
  }

  lemma FailKeeps(s: State, k: nat, t: Triple)
    requires Sighted(s) && k < |s.flights|
    ensures FirstKept(Next(s, Fail(k)), t) <==> FirstKept(s, t)
    ensures LastKept(Next(s, Fail(k)), t) <==> LastKept(s, t) && !LosesLast(s, Fail(k), t)
  {
    hide Conserved, Next, Early, Late;
    var s', f := Next(s, Fail(k)), s.flights[k];
    SameLog(s, Fail(k));
    forall at
      ensures Early(s', t, at) <==> Early(s, t, at)
      ensures Late(s, t, at) <==> Late(Besides(s, k), t, at) || LastFrom(f, t, at)
      ensures Late(s', t, at) <==> Late(Besides(s, k), t, at) || (t !in s.buffer && LastFrom(f, t, at))
    {
      FlushedSightings(s, k, t, at);
      SightingsBesides(s, k, t, at);
    }
    if t in f {
      assert f in s.flights;
      var i :| 0 <= i < |s.log| && s.log[i].triple == t && s.log[i].at == f[t].last;
      assert LastKept(s', t) ==> Late(s', t, s.log[i].at);
      forall at | Late(Besides(s, k), t, f[t].last) && at <= f[t].last ensures Late(Besides(s, k), t, at) {
        LaterStillEarly(Besides(s, k), t, at, f[t].last);
      }
    }
  }

  lemma RecordedSightings(s: State, o: Observation, t: Triple, at: int)
    ensures var s' := Next(s, Record(o));
            && (Early(s', t, at) <==> Early(s, t, at) || (t == o.triple && t !in s.buffer && o.at <= at))
            && (t == o.triple && at <= o.at ==> Late(s', t, at))
            && (t != o.triple ==> (Late(s', t, at) <==> Late(s, t, at)))
  {
  }

  lemma RecordKeepsFirst(s: State, o: Observation, t: Triple)
    requires Sighted(s) && ClockRuns(s, Record(o))
    ensures FirstKept(Next(s, Record(o)), t) <==> FirstKept(s, t)
  {
    var s' := Next(s, Record(o));
    hide Next, Early, Late, Sighted;
    SameLog(s, Record(o));
    forall i | 0 <= i < |s.log| && s.log[i].triple == t
      ensures Early(s', t, s.log[i].at) <==> Early(s, t, s.log[i].at)
    {
      RecordedSightings(s, o, t, s.log[i].at);
      if !Early(s, t, s.log[i].at) { ForgottenIsOlder(s, t, i, o); }
    }
    RecordedEarly(s, o);
    assert forall i :: 0 <= i < |s.log| ==> s'.log[i] == s.log[i];
    assert s'.log[|s.log|] == o;
  }

  lemma RecordKeepsLast(s: State, o: Observation, t: Triple)
    requires ClockRuns(s, Record(o))
    ensures LastKept(Next(s, Record(o)), t) <==> t == o.triple || LastKept(s, t)
  {
    var s' := Next(s, Record(o));
    hide Next, Early, Late;
    SameLog(s, Record(o));
    forall i | 0 <= i < |s'.log|
      ensures t == o.triple ==> Late(s', t, s'.log[i].at)
      ensures t != o.triple ==> (Late(s', t, s'.log[i].at) <==> Late(s, t, s'.log[i].at))
    {
      RecordedSightings(s, o, t, s'.log[i].at);
    }
    assert forall i :: 0 <= i < |s.log| ==> s'.log[i] == s.log[i];
  }

  lemma RecordedEarly(s: State, o: Observation)
    requires Sighted(s) && ClockRuns(s, Record(o))
    ensures Early(Next(s, Record(o)), o.triple, o.at)
  {
    hide Conserved;
    var t := o.triple;
    if t in s.buffer { assert Seen(s.log, t, s.buffer[t].first); }
  }

  predicate Records(step: Step, t: Triple) {
    step.Record? && step.o.triple == t
  }

  /** Under a clock that does not run backwards one step keeps the first sightings of `t` exactly if it does
      not lose one, and the last ones exactly if it records `t` anew, or does not lose one. */
  lemma StepKeeps(s: State, step: Step, t: Triple)
    requires Sighted(s) && Enabled(s, step) && ClockRuns(s, step)
    ensures FirstKept(Next(s, step), t) <==> FirstKept(s, t) && !LosesFirst(s, step, t)
    ensures LastKept(Next(s, step), t) <==> Records(step, t) || (LastKept(s, t) && !LosesLast(s, step, t))
  {
    hide FirstKept, LastKept, Early, Late;
    match step {
      case Record(o) => RecordKeepsFirst(s, o, t); RecordKeepsLast(s, o, t);
      case Snapshot => SnapshotKeeps(s, t);
      case Commit(k) => CommitKeeps(s, k, t);
      case Fail(k) => FailKeeps(s, k, t);
      case SetSniffer(_) => SameStores(s, Next(s, step), t);
    }
  }

  lemma SameStores(s: State, s': State, t: Triple)
    requires s'.rows == s.rows && s'.flights == s.flights && s'.buffer == s.buffer && s'.log == s.log
    ensures (FirstKept(s', t) <==> FirstKept(s, t)) && (LastKept(s', t) <==> LastKept(s, t))
  {
    assert forall at :: Early(s', t, at) <==> Early(s, t, at);
    assert forall at :: Late(s', t, at) <==> Late(s, t, at);
  }

  lemma SnapshotKeeps(s: State, t: Triple)
    ensures FirstKept(Next(s, Snapshot), t) <==> FirstKept(s, t)
    ensures LastKept(Next(s, Snapshot), t) <==> LastKept(s, t)
  {
    var s' := Next(s, Snapshot);
    hide FirstBy, LastFrom;
    forall at ensures (Early(s', t, at) <==> Early(s, t, at)) && (Late(s', t, at) <==> Late(s, t, at)) {
      NothingSighted(t, at);
    }
  }

  lemma NothingSighted(t: Triple, at: int)
    ensures !FirstBy(map[], t, at) && !LastFrom(map[], t, at)
  {
  }

  // ---------------------------------------------------------------- runs, exactly

  ghost predicate ClockedRun(s: State, steps: seq<Step>)
    decreases |steps|
  {
    steps == [] || (Enabled(s, steps[0]) && ClockRuns(s, steps[0]) && ClockedRun(Next(s, steps[0]), steps[1..]))
  }

  predicate RecordedIn(steps: seq<Step>, t: Triple) {
    exists i :: 0 <= i < |steps| && Records(steps[i], t)
  }

  /** No commit along the run loses the first sighting of `t`. */
  ghost predicate NoFirstLoss(s: State, steps: seq<Step>, t: Triple)
    requires ClockedRun(s, steps)
    decreases |steps|
  {
    steps == [] || (!LosesFirst(s, steps[0], t) && NoFirstLoss(Next(s, steps[0]), steps[1..], t))
  }

  /** No put-back along the run loses the last sighting of `t`, unless `t` is recorded again later. */
  ghost predicate NoLastLoss(s: State, steps: seq<Step>, t: Triple)
    requires ClockedRun(s, steps)
    decreases |steps|
  {
    steps == [] ||
    ((LosesLast(s, steps[0], t) ==> RecordedIn(steps[1..], t)) && NoLastLoss(Next(s, steps[0]), steps[1..], t))
  }

  lemma {:induction false} RunKeeps(s: State, steps: seq<Step>, t: Triple)
    requires Sighted(s) && ClockedRun(s, steps)
    ensures CanRun(s, steps) && Sighted(Run(s, steps))
    ensures FirstKept(Run(s, steps), t) <==> FirstKept(s, t) && NoFirstLoss(s, steps, t)
    ensures LastKept(Run(s, steps), t) <==> (LastKept(s, t) || RecordedIn(steps, t)) && NoLastLoss(s, steps, t)
    decreases |steps|
  {
    hide Sighted, FirstKept, LastKept, LosesFirst, LosesLast, Next, Records;
    if steps != [] {
      var s', rest := Next(s, steps[0]), steps[1..];
      SightedStep(s, steps[0]);
      StepKeeps(s, steps[0], t);
      RunKeeps(s', rest, t);
      RecordedFirst(steps, t);
      OneWayAtATime(s, steps[0], t);
    }
  }

  lemma RecordedFirst(steps: seq<Step>, t: Triple)
    requires steps != []
    ensures RecordedIn(steps, t) <==> Records(steps[0], t) || RecordedIn(steps[1..], t)
  {
    var rest := steps[1..];
    if i :| 0 <= i < |rest| && Records(rest[i], t) { assert Records(steps[i + 1], t); }
    if i :| 0 < i < |steps| && Records(steps[i], t) { assert Records(rest[i - 1], t); }
  }

  lemma OneWayAtATime(s: State, step: Step, t: Triple)
    requires Enabled(s, step)
    ensures !(Records(step, t) && LosesLast(s, step, t))
  {
  }

  // ---------------------------------------------------------------- the stores taken together

  lemma {:induction false} TogetherSightings(stores: seq<Store>, t: Triple, at: int)
    ensures FirstBy(AllOf(stores), t, at) <==> exists f :: f in stores && FirstBy(f, t, at)
    ensures LastFrom(AllOf(stores), t, at) <==> exists f :: f in stores && LastFrom(f, t, at)
    ensures t in AllOf(stores) <==> exists f: Store :: f in stores && t in f
    decreases |stores|
  {
    if stores != [] {
      var first, rest := stores[0], stores[1..];
      TogetherSightings(rest, t, at);
      WidestSightings(first, AllOf(rest), t, at);
      assert forall f :: f in stores <==> f == first || f in rest;
    }
  }

  lemma WidestSightings(a: Store, b: Store, t: Triple, at: int)
    ensures FirstBy(Combine(a, b, Widest), t, at) <==> FirstBy(a, t, at) || FirstBy(b, t, at)
    ensures LastFrom(Combine(a, b, Widest), t, at) <==> LastFrom(a, t, at) || LastFrom(b, t, at)
  {
  }

  lemma {:induction false} CountTogether(flights: seq<Store>, buffer: Store, t: Triple)
    ensures Count(AllOf(flights + [buffer]), t) == InFlight(flights, t) + Count(buffer, t)
    decreases |flights|
  {
    var stores := flights + [buffer];
    if flights == [] {
      assert stores[1..] == [];
      CombineNothing(buffer, Widest);
    } else {
      assert stores[1..] == flights[1..] + [buffer];
      CountTogether(flights[1..], buffer, t);
      CountWidest(flights[0], AllOf(stores[1..]), t);
    }
  }

  lemma CountWidest(a: Store, b: Store, t: Triple)
    ensures Count(Combine(a, b, Widest), t) == Count(a, t) + Count(b, t)
  {
  }

  lemma TogetherOf(s: State, t: Triple, at: int)
    ensures Count(Together(s), t) == Count(s.rows, t) + InFlight(s.flights, t) + Count(s.buffer, t)
    ensures FirstBy(Together(s), t, at) <==> Early(s, t, at)
    ensures LastFrom(Together(s), t, at) <==> Late(s, t, at)
  {
    hide FirstBy, LastFrom;
    var stores := Stores(s);
    TogetherSightings(stores, t, at);
    assert forall f :: f in stores <==> f == s.rows || f in s.flights || f == s.buffer;
    assert stores[1..] == s.flights + [s.buffer];
    CountTogether(s.flights, s.buffer, t);
    CountWidest(s.rows, AllOf(stores[1..]), t);
  }

  lemma TogetherSeen(s: State, t: Triple)
    requires Sighted(s) && t in Together(s)
    ensures Seen(s.log, t, Together(s)[t].first) && Seen(s.log, t, Together(s)[t].last)
  {
    hide Conserved, Seen;
    var all := Together(s)[t];
    forall at ensures FirstBy(Together(s), t, at) <==> Early(s, t, at) { TogetherOf(s, t, at); }
    forall at ensures LastFrom(Together(s), t, at) <==> Late(s, t, at) { TogetherOf(s, t, at); }
    hide Together;
    assert Early(s, t, all.first) && !Early(s, t, all.first - 1);
    assert Late(s, t, all.last) && !Late(s, t, all.last + 1);
  }

  lemma KeptBounds(s: State, t: Triple)
    requires t in Together(s)
    ensures FirstKept(s, t) <==>
              forall i :: 0 <= i < |s.log| && s.log[i].triple == t ==> Together(s)[t].first <= s.log[i].at
    ensures LastKept(s, t) <==>
              forall i :: 0 <= i < |s.log| && s.log[i].triple == t ==> s.log[i].at <= Together(s)[t].last
  {
    hide Early, Late, Together;
    var all := Together(s);
    forall i | 0 <= i < |s.log|
      ensures all[t].first <= s.log[i].at <==> Early(s, t, s.log[i].at)
      ensures s.log[i].at <= all[t].last <==> Late(s, t, s.log[i].at)
    {
      TogetherOf(s, t, s.log[i].at);
    }
  }

  lemma TogetherCounts(s: State, t: Triple)
    requires Sighted(s)
    ensures Count(Together(s), t) == Recorded(s.log, t)
  {
    hide Together, SeenIn;
    TogetherOf(s, t, 0);
  }

  lemma TogetherAt(s: State, t: Triple)
    requires Sighted(s)
    ensures SummarizesAt(Together(s), s.log, t) <==> FirstKept(s, t) && LastKept(s, t)
  {
    hide Together, FirstKept, LastKept, Recorded, Seen, Sighted, Early, Late;
    TogetherCounts(s, t);
    if t in Together(s) {
      TogetherSeen(s, t);
      KeptBounds(s, t);
    } else {
      RecordedZero(s.log, t);
      UnrecordedKept(s, t);
    }
  }

  lemma UnrecordedKept(s: State, t: Triple)
    requires forall i :: 0 <= i < |s.log| ==> s.log[i].triple != t
    ensures FirstKept(s, t) && LastKept(s, t)
  {
  }

  /** Nothing about `t` is lost along the run. */
  ghost predicate NothingLost(steps: seq<Step>, t: Triple)
    requires ClockedRun(EMPTY, steps)
  {
    NoFirstLoss(EMPTY, steps, t) && NoLastLoss(EMPTY, steps, t)
  }

  lemma NothingLostExactly(steps: seq<Step>, t: Triple)
    requires ClockedRun(EMPTY, steps)
    ensures CanRun(EMPTY, steps)
    ensures SummarizesAt(Together(Run(EMPTY, steps)), Run(EMPTY, steps).log, t) <==> NothingLost(steps, t)
  {
    hide Together, SummarizesAt, NoFirstLoss, NoLastLoss, RecordedIn, Early, Late;
    EmptyIsConserved();
    UnrecordedKept(EMPTY, t);
    RunKeeps(EMPTY, steps, t);
    TogetherAt(Run(EMPTY, steps), t);
  }

  /** Timestamps, exactly: after any run under a clock that does not run backwards, with any number of
      flushers and in any order of commits and put-backs, the stores together give the number, the first
      and the last time of every triple precisely when no commit lost a first sighting and no put-back
      lost a last sighting that was not followed by another packet. */
  lemma StampsExactly(steps: seq<Step>)
    requires ClockedRun(EMPTY, steps)
    ensures CanRun(EMPTY, steps)
    ensures Summarizes(Together(Run(EMPTY, steps)), Run(EMPTY, steps).log) <==> forall t :: NothingLost(steps, t)
  {
    hide Together, SummarizesAt, NothingLost, ClockedRun;
    NothingLostExactly(steps, Triple(0, 0, ""));
    var end := Run(EMPTY, steps);
    forall t ensures SummarizesAt(Together(end), end.log, t) <==> NothingLost(steps, t) {
      NothingLostExactly(steps, t);
    }
  }

  // ---------------------------------------------------------------- both losses are real

  /** Two packets of `t`, each in a snapshot of its own. */
  function TwoInFlight(t: Triple): State {
    State(map[], [map[t := Edge(1, 1, 1)], map[t := Edge(1, 2, 2)]], map[], {t}, false, 0,
          [Observation(t, 1), Observation(t, 2)])
  }

  lemma ReachTwoInFlight(t: Triple)
    ensures var steps := [Record(Observation(t, 1))] + ([Snapshot] + ([Record(Observation(t, 2))] + ([Snapshot] + [])));
            ClockedRun(EMPTY, steps) && CanRun(EMPTY, steps) && Run(EMPTY, steps) == TwoInFlight(t)
  {
    var a, b := Observation(t, 1), Observation(t, 2);
    var s1 := Next(EMPTY, Record(a));
    var s2 := Next(s1, Snapshot);
    var s3 := Next(s2, Record(b));
    var s4 := Next(s3, Snapshot);
    assert s2.flights == [map[t := Edge(1, 1, 1)]] && s3.buffer == map[t := Edge(1, 2, 2)];
    assert s4 == TwoInFlight(t);
    hide Next;
    RunFirst(s3, Snapshot, []);
    RunFirst(s2, Record(b), [Snapshot] + []);
    RunFirst(s1, Snapshot, [Record(b)] + ([Snapshot] + []));
    RunFirst(EMPTY, Record(a), [Snapshot] + ([Record(b)] + ([Snapshot] + [])));
  }

  lemma RunFirst(s: State, step: Step, rest: seq<Step>)
    requires Enabled(s, step) && CanRun(Next(s, step), rest)
    ensures CanRun(s, [step] + rest) && Run(s, [step] + rest) == Run(Next(s, step), rest)
    ensures ClockRuns(s, step) && ClockedRun(Next(s, step), rest) ==> ClockedRun(s, [step] + rest)
  {
    assert ([step] + rest)[1..] == rest;
  }

  /** When both flushes fail and the older one is put back first, no store remembers the second packet's
      time. */
  lemma TwoFlushersLoseLastSeen(t: Triple)
    ensures var s1 := Next(TwoInFlight(t), Fail(0));
            && LosesLast(s1, Fail(0), t)
            && Next(s1, Fail(0)).rows == map[] && Next(s1, Fail(0)).flights == []
            && Next(s1, Fail(0)).buffer == map[t := Edge(2, 1, 1)]
  {
  }

  /** When both flushes commit and the newer one is first, the table never learns the first packet's time. */
  lemma TwoFlushersLoseFirstSeen(t: Triple)
    ensures var s1 := Next(TwoInFlight(t), Commit(1));
            && LosesFirst(s1, Commit(0), t)
            && Next(s1, Commit(0)).rows == map[t := Edge(2, 2, 2)]
            && Next(s1, Commit(0)).flights == [] && Next(s1, Commit(0)).buffer == map[]
  {
  }
}
