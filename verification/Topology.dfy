/**
 * The topology write-behind buffer: packets are counted in memory, flushed to a table in three
 * lock regions (snapshot, commit, put back on failure), and read in two (table first, buffer later).
 *
 * `Next` is the protocol at value level.  A region of the source that holds a lock contains no other
 * suspension point, so each region is one atomic step and everything between two regions interleaves.
 */
module Topology {

  type DeviceId = nat

  datatype Triple = Triple(source: DeviceId, destination: DeviceId, protocol: string)

  datatype Edge = Edge(count: nat, first: int, last: int)

  type Store = map<Triple, Edge>

  /** One call of `record_communication`: which triple, at what time. */
  datatype Observation = Observation(triple: Triple, at: int)

  // ---------------------------------------------------------------- the four updates

  function RecordIn(buffer: Store, o: Observation): Store {
    if o.triple in buffer then
      var edge := buffer[o.triple];
      buffer[o.triple := Edge(edge.count + 1, edge.first, o.at)]
    else
      buffer[o.triple := Edge(1, o.at, o.at)]
  }

  /** A flushed edge added to its table row. */
  function PersistEdge(row: Edge, flushed: Edge): Edge {
    Edge(row.count + flushed.count, row.first, if flushed.last > row.last then flushed.last else row.last)
  }

  /** A flushed edge put back on top of what was buffered meanwhile. */
  function RestoreEdge(existing: Edge, flushed: Edge): Edge {
    Edge(existing.count + flushed.count,
         if flushed.first < existing.first then flushed.first else existing.first, existing.last)
  }

  function Combine(base: Store, added: Store, merge: (Edge, Edge) -> Edge): (s: Store)
    ensures s.Keys == base.Keys + added.Keys
  {
    map t | t in base.Keys + added.Keys ::
      if t in base && t in added then merge(base[t], added[t]) else if t in base then base[t] else added[t]
  }

  lemma CombineNothing(s: Store, merge: (Edge, Edge) -> Edge)
    ensures Combine(s, map[], merge) == s
  {
    assert Combine(s, map[], merge).Keys == s.Keys;
  }

  function Persist(rows: Store, flushed: Store): Store {
    Combine(rows, flushed, PersistEdge)
  }

  function Restore(buffer: Store, flushed: Store): Store {
    Combine(buffer, flushed, RestoreEdge)
  }

  function Count(s: Store, t: Triple): nat {
    if t in s then s[t].count else 0
  }

  // ---------------------------------------------------------------- the protocol

  /** `flights` are the snapshots whose transactions have neither committed nor failed; `log` is every
      recorded packet, and `session` its length when the sniffer last started. */
  datatype State = State(rows: Store, flights: seq<Store>, buffer: Store, observed: set<Triple>,
                         snifferRunning: bool, session: nat, log: seq<Observation>)

  datatype Step =
    | Record(o: Observation)
    | Snapshot
    | Commit(flight: nat)
    | Fail(flight: nat)
    | SetSniffer(running: bool)

  const EMPTY := State(map[], [], map[], {}, false, 0, [])

  predicate Enabled(s: State, step: Step) {
    match step
    case Commit(k) => k < |s.flights|
    case Fail(k) => k < |s.flights|
    case _ => true
  }

  function Without<T>(s: seq<T>, k: nat): seq<T>
    requires k < |s|
  {
    s[..k] + s[k + 1..]
  }

  function Next(s: State, step: Step): State
    requires Enabled(s, step)
  {
    match step
    case Record(o) =>
      s.(buffer := RecordIn(s.buffer, o), observed := s.observed + {o.triple}, log := s.log + [o])
    case Snapshot =>
      if s.buffer == map[] then s else s.(flights := s.flights + [s.buffer], buffer := map[])
    case Commit(k) =>
      s.(rows := Persist(s.rows, s.flights[k]), flights := Without(s.flights, k))
    case Fail(k) =>
      s.(buffer := Restore(s.buffer, s.flights[k]), flights := Without(s.flights, k))
    case SetSniffer(running) =>
      if running && !s.snifferRunning then s.(observed := {}, session := |s.log|, snifferRunning := true)
      else s.(snifferRunning := running)
  }

  ghost predicate CanRun(s: State, steps: seq<Step>)
    decreases |steps|
  {
    steps == [] || (Enabled(s, steps[0]) && CanRun(Next(s, steps[0]), steps[1..]))
  }

  ghost function Run(s: State, steps: seq<Step>): State
    requires CanRun(s, steps)
    decreases |steps|
  {
    if steps == [] then s else Run(Next(s, steps[0]), steps[1..])
  }

  // ---------------------------------------------------------------- conservation

  /** How often a triple was recorded. */
  function Recorded(log: seq<Observation>, t: Triple): nat {
    if log == [] then 0
    else Recorded(log[..|log| - 1], t) + if log[|log| - 1].triple == t then 1 else 0
  }

  function InFlight(flights: seq<Store>, t: Triple): nat {
    if flights == [] then 0 else Count(flights[0], t) + InFlight(flights[1..], t)
  }

  ghost predicate Conserved(s: State) {
    forall t :: Count(s.rows, t) + InFlight(s.flights, t) + Count(s.buffer, t) == Recorded(s.log, t)
  }

  lemma {:induction false} InFlightConcat(a: seq<Store>, b: seq<Store>, t: Triple)
    ensures InFlight(a + b, t) == InFlight(a, t) + InFlight(b, t)
    decreases |a|
  {
    if a == [] {
      assert a + b == b;
    } else {
      assert (a + b)[1..] == a[1..] + b;
      InFlightConcat(a[1..], b, t);
    }
  }

  lemma InFlightWithout(flights: seq<Store>, k: nat, t: Triple)
    requires k < |flights|
    ensures InFlight(flights, t) == InFlight(Without(flights, k), t) + Count(flights[k], t)
  {
    assert flights == flights[..k] + ([flights[k]] + flights[k + 1..]);
    InFlightConcat(flights[..k], [flights[k]] + flights[k + 1..], t);
    InFlightConcat([flights[k]], flights[k + 1..], t);
    InFlightConcat(flights[..k], flights[k + 1..], t);
    assert InFlight([flights[k]], t) == Count(flights[k], t) + InFlight([], t);
  }

  lemma CountCombined(base: Store, added: Store, t: Triple)
    ensures Count(Persist(base, added), t) == Count(base, t) + Count(added, t)
    ensures Count(Restore(base, added), t) == Count(base, t) + Count(added, t)
  {
  }

  lemma ConservedStep(s: State, step: Step)
    requires Conserved(s) && Enabled(s, step)
    ensures Conserved(Next(s, step))
  {
    var s' := Next(s, step);
    forall t ensures Count(s'.rows, t) + InFlight(s'.flights, t) + Count(s'.buffer, t) == Recorded(s'.log, t) {
      assert Count(s.rows, t) + InFlight(s.flights, t) + Count(s.buffer, t) == Recorded(s.log, t);
      match step {
        case Record(o) => assert s'.log[..|s.log|] == s.log;
        case Snapshot =>
          if s.buffer != map[] {
            InFlightConcat(s.flights, [s.buffer], t);
            assert InFlight([s.buffer], t) == Count(s.buffer, t) + InFlight([], t);
          }
        case Commit(k) => InFlightWithout(s.flights, k, t); CountCombined(s.rows, s.flights[k], t);
        case Fail(k) => InFlightWithout(s.flights, k, t); CountCombined(s.buffer, s.flights[k], t);
        case SetSniffer(_) =>
      }
    }
  }

  /** No packet is ever lost or counted twice: along every interleaving of records, snapshots, commits
      and failed flushes, table, flights and buffer together hold exactly the recorded packets. */
  lemma {:induction false} PacketsConserved(s: State, steps: seq<Step>)
    requires Conserved(s) && CanRun(s, steps)
    ensures Conserved(Run(s, steps))
    decreases |steps|
  {
    if steps != [] {
      ConservedStep(s, steps[0]);
      PacketsConserved(Next(s, steps[0]), steps[1..]);
    }
  }

  lemma EmptyIsConserved()
    ensures Conserved(EMPTY) && Accounted(EMPTY)
  {
  }

  // ---------------------------------------------------------------- the two-phase reader

  /** Every stored edge stands for at least one packet, and every snapshot for at least one edge. */
  ghost predicate Accounted(s: State) {
    && Positive(s.buffer)
    && forall k :: 0 <= k < |s.flights| ==> Positive(s.flights[k]) && s.flights[k] != map[]
  }

  ghost predicate Positive(s: Store) {
    forall t :: t in s ==> s[t].count > 0
  }

  lemma AccountedStep(s: State, step: Step)
    requires Accounted(s) && Enabled(s, step)
    ensures Accounted(Next(s, step))
  {
  }

  predicate NoCommit(steps: seq<Step>) {
    forall i :: 0 <= i < |steps| ==> !steps[i].Commit?
  }

  /** What a reader reports for `t` when it saw the table in `earlier` and the buffer in `later`. */
  ghost function Reported(earlier: State, later: State, t: Triple): nat {
    Count(Persist(earlier.rows, later.buffer), t)
  }

  lemma {:induction false} RowsOnlyGrow(s: State, steps: seq<Step>)
    requires CanRun(s, steps) && Accounted(s)
    ensures Accounted(Run(s, steps))
    ensures forall t :: Count(s.rows, t) <= Count(Run(s, steps).rows, t)
    ensures NoCommit(steps) ==> Run(s, steps).rows == s.rows
    ensures !NoCommit(steps) ==> exists t :: Count(s.rows, t) < Count(Run(s, steps).rows, t)
    decreases |steps|
  {
    if steps != [] {
      var s1 := Next(s, steps[0]);
      AccountedStep(s, steps[0]);
      RowsOnlyGrow(s1, steps[1..]);
      assert steps == [steps[0]] + steps[1..];
      if steps[0].Commit? {
        var flushed := s.flights[steps[0].flight];
        forall t ensures Count(s1.rows, t) == Count(s.rows, t) + Count(flushed, t) {
          CountCombined(s.rows, flushed, t);
        }
        assert flushed.Keys != {};
        var t :| t in flushed.Keys;
        assert Count(s.rows, t) < Count(s1.rows, t) <= Count(Run(s, steps).rows, t);
      } else {
        assert s1.rows == s.rows;
        assert NoCommit(steps[1..]) ==> NoCommit(steps);
      }
    }
  }

  /** The reader, exactly: what it misses is what was committed between its two reads plus what is in
      flight at the second, so it never reports a packet twice and never more than was recorded. */
  lemma ReaderNeverOvercounts(s: State, steps: seq<Step>, t: Triple)
    requires Conserved(s) && Accounted(s) && CanRun(s, steps)
    ensures var later := Run(s, steps);
            && Reported(s, later, t) + (Count(later.rows, t) - Count(s.rows, t)) + InFlight(later.flights, t)
                 == Recorded(later.log, t)
            && Count(s.rows, t) <= Count(later.rows, t)
            && Reported(s, later, t) <= Recorded(later.log, t)
  {
    PacketsConserved(s, steps);
    RowsOnlyGrow(s, steps);
    CountCombined(s.rows, Run(s, steps).buffer, t);
  }

  lemma {:induction false} NothingInFlight(flights: seq<Store>)
    requires forall k :: 0 <= k < |flights| ==> Positive(flights[k]) && flights[k] != map[]
    ensures flights != [] <==> exists t :: InFlight(flights, t) > 0
  {
    if flights != [] {
      assert flights[0].Keys != {};
      var t :| t in flights[0].Keys;
      assert InFlight(flights, t) > 0;
    }
  }

  /** A reader is exact for every triple precisely when no transaction commits between its two reads
      and none is in flight at the second. */
  lemma ReaderExactIff(s: State, steps: seq<Step>)
    requires Conserved(s) && Accounted(s) && CanRun(s, steps)
    ensures (forall t :: Reported(s, Run(s, steps), t) == Recorded(Run(s, steps).log, t))
              <==> NoCommit(steps) && Run(s, steps).flights == []
  {
    var later := Run(s, steps);
    RowsOnlyGrow(s, steps);
    NothingInFlight(later.flights);
    forall t
      ensures (Reported(s, later, t) == Recorded(later.log, t))
                <==> (Count(later.rows, t) == Count(s.rows, t) && InFlight(later.flights, t) == 0)
    {
      ReaderNeverOvercounts(s, steps, t);
    }
  }

  // ---------------------------------------------------------------- new-path events

  ghost predicate ObservedThisSession(s: State) {
    && s.session <= |s.log|
    && s.observed == set i | s.session <= i < |s.log| :: s.log[i].triple
  }

  lemma ObservedStep(s: State, step: Step)
    requires ObservedThisSession(s) && Enabled(s, step)
    ensures ObservedThisSession(Next(s, step))
  {
    var s' := Next(s, step);
    if step.Record? {
      forall t ensures t in s'.observed <==> exists i :: s.session <= i < |s'.log| && s'.log[i].triple == t {
        if t in s.observed {
          var i :| s.session <= i < |s.log| && s.log[i].triple == t;
          assert s'.log[i].triple == t;
        }
        assert s'.log[|s.log|].triple == step.o.triple;
        if i :| s.session <= i < |s'.log| && s'.log[i].triple == t {
          assert i < |s.log| ==> s.log[i].triple == t;
        }
      }
    }
  }

  /** Along every run, recording `t` raises a new-communication event exactly when `t` has not been
      recorded since the sniffer last went from stopped to running. */
  lemma {:induction false} NewPathEvent(s: State, steps: seq<Step>, t: Triple)
    requires ObservedThisSession(s) && CanRun(s, steps)
    ensures var now := Run(s, steps);
            && ObservedThisSession(now)
            && (t !in now.observed <==> forall i :: now.session <= i < |now.log| ==> now.log[i].triple != t)
    decreases |steps|
  {
    if steps != [] {
      ObservedStep(s, steps[0]);
      NewPathEvent(Next(s, steps[0]), steps[1..], t);
    }
  }

  /** Whether the last step that set it left the sniffer running. */
  predicate SnifferOn(steps: seq<Step>) {
    if steps == [] then false
    else
      var last := steps[|steps| - 1];
      if last.SetSniffer? then last.running else SnifferOn(steps[..|steps| - 1])
  }

  /** Step `j` takes the sniffer from stopped to running. */
  predicate StartsAt(steps: seq<Step>, j: nat) {
    j < |steps| && steps[j] == SetSniffer(true) && !SnifferOn(steps[..j])
  }

  /** Step `i` records the triple, and the sniffer does not start after it. */
  ghost predicate RecordedSinceStart(steps: seq<Step>, i: nat, t: Triple) {
    i < |steps| && steps[i].Record? && steps[i].o.triple == t && forall j :: i < j < |steps| ==> !StartsAt(steps, j)
  }

  lemma {:induction false} RunSnoc(s: State, steps: seq<Step>, last: Step)
    requires CanRun(s, steps + [last])
    ensures CanRun(s, steps) && Enabled(Run(s, steps), last)
    ensures Run(s, steps + [last]) == Next(Run(s, steps), last)
    decreases |steps|
  {
    hide Next, Enabled;
    if steps == [] {
      assert steps + [last] == [last] && [last][1..] == [];
    } else {
      assert (steps + [last])[1..] == steps[1..] + [last];
      RunSnoc(Next(s, steps[0]), steps[1..], last);
    }
  }

  lemma RecordedNext(steps: seq<Step>, last: Step, t: Triple)
    ensures (exists i :: RecordedSinceStart(steps + [last], i, t)) <==>
              || (last.Record? && last.o.triple == t)
              || ((exists i :: RecordedSinceStart(steps, i, t)) && !StartsAt(steps + [last], |steps|))
  {
    var longer := steps + [last];
    assert longer[..|steps|] == steps;
    assert forall j: nat :: j < |steps| ==> longer[..j] == steps[..j] && longer[j] == steps[j];
    hide SnifferOn;
    if last.Record? && last.o.triple == t { assert RecordedSinceStart(longer, |steps|, t); }
    if i: nat :| RecordedSinceStart(steps, i, t) && !StartsAt(longer, |steps|) {
      forall j: nat | i < j < |longer| ensures !StartsAt(longer, j) {
        assert j < |steps| ==> !StartsAt(steps, j);
      }
      assert longer[i] == steps[i] && RecordedSinceStart(longer, i, t);
    }
    if i: nat :| RecordedSinceStart(longer, i, t) {
      if i < |steps| {
        assert !StartsAt(longer, |steps|);
        forall j | i < j < |steps| ensures !StartsAt(steps, j) {
          assert !StartsAt(longer, j);
        }
        assert RecordedSinceStart(steps, i, t);
      }
    }
  }

  /** The packets the steps record. */
  function RecordsOf(steps: seq<Step>): seq<Observation> {
    if steps == [] then []
    else
      var last := steps[|steps| - 1];
      RecordsOf(steps[..|steps| - 1]) + if last.Record? then [last.o] else []
  }

  /** The log and the observed triples in terms of the steps alone: a triple has been observed, so that recording it
      raises no event, exactly when some step recorded it and the sniffer was not started after that step. */
  lemma {:induction false} ObservedExactly(steps: seq<Step>, t: Triple)
    requires CanRun(EMPTY, steps)
    ensures Run(EMPTY, steps).log == RecordsOf(steps)
    ensures Run(EMPTY, steps).snifferRunning == SnifferOn(steps)
    ensures t in Run(EMPTY, steps).observed <==> exists i :: RecordedSinceStart(steps, i, t)
    decreases |steps|
  {
    if steps != [] {
      var init, last := steps[..|steps| - 1], steps[|steps| - 1];
      assert steps == init + [last];
      RunSnoc(EMPTY, init, last);
      ObservedExactly(init, t);
      RecordedNext(init, last, t);
      hide Run, CanRun, RecordedSinceStart, RecordIn, Persist, Restore;
    }
  }
}
