/**
 * Timestamps in the topology buffer.  When the clock never runs backwards, commits take the oldest
 * snapshot in flight and failures the newest, every store is the exact summary of one contiguous slice
 * of the recorded packets, so no flush loses a first or a last sighting.  One flusher at a time keeps
 * that order by itself; `TopologyOrders` says exactly what the other orders lose.
 */
module TopologyTimes {
  import opened Bytes
  import opened Topology

  ghost predicate Monotone(log: seq<Observation>) {
    forall i, j :: 0 <= i < j < |log| ==> log[i].at <= log[j].at
  }

  ghost predicate Seen(log: seq<Observation>, t: Triple, at: int) {
    exists i :: 0 <= i < |log| && log[i].triple == t && log[i].at == at
  }

  /** An edge that tells the truth about the packets of `t` in `log`: their number, and the times of
      the earliest and the latest. */
  ghost predicate Faithful(log: seq<Observation>, t: Triple, edge: Edge) {
    && edge.count == Recorded(log, t)
    && Seen(log, t, edge.first)
    && Seen(log, t, edge.last)
    && forall i :: 0 <= i < |log| && log[i].triple == t ==> edge.first <= log[i].at <= edge.last
  }

  /** The store that holds a faithful edge for exactly the triples that occur in `log`. */
  ghost predicate Summarizes(s: Store, log: seq<Observation>) {
    forall t :: SummarizesAt(s, log, t)
  }

  ghost predicate SummarizesAt(s: Store, log: seq<Observation>, t: Triple) {
    if t in s then Faithful(log, t, s[t]) else Recorded(log, t) == 0
  }

  lemma {:induction false} RecordedZero(log: seq<Observation>, t: Triple)
    ensures Recorded(log, t) == 0 <==> forall i :: 0 <= i < |log| ==> log[i].triple != t
  {
    if log != [] { RecordedZero(log[..|log| - 1], t); }
  }

  lemma FaithfulUnique(log: seq<Observation>, t: Triple, a: Edge, b: Edge)
    requires Faithful(log, t, a) && Faithful(log, t, b)
    ensures a == b
  {
  }

  /** A log has only one summary. */
  lemma SummaryUnique(a: Store, b: Store, log: seq<Observation>)
    requires Summarizes(a, log) && Summarizes(b, log)
    ensures a == b
  {
    forall t ensures (t in a <==> t in b) && (t in a ==> a[t] == b[t]) {
      assert SummarizesAt(a, log, t) && SummarizesAt(b, log, t);
      RecordedZero(log, t);
      if t in a && t in b { FaithfulUnique(log, t, a[t], b[t]); }
    }
    assert a.Keys == b.Keys;
  }

  lemma {:induction false} RecordedConcat(a: seq<Observation>, b: seq<Observation>, t: Triple)
    ensures Recorded(a + b, t) == Recorded(a, t) + Recorded(b, t)
    decreases |b|
  {
    if b == [] {
      assert a + b == a;
    } else {
      assert (a + b)[..|a + b| - 1] == a + b[..|b| - 1];
      RecordedConcat(a, b[..|b| - 1], t);
    }
  }

  /** The later of two slices is nowhere earlier than the first. */
  ghost predicate Precedes(a: seq<Observation>, b: seq<Observation>) {
    forall i, j :: 0 <= i < |a| && 0 <= j < |b| ==> a[i].at <= b[j].at
  }

  lemma SeenConcat(a: seq<Observation>, b: seq<Observation>, t: Triple, at: int)
    ensures Seen(a + b, t, at) <==> Seen(a, t, at) || Seen(b, t, at)
  {
    if i :| 0 <= i < |a| && a[i].triple == t && a[i].at == at { assert (a + b)[i] == a[i]; }
    if i :| 0 <= i < |b| && b[i].triple == t && b[i].at == at { assert (a + b)[|a| + i] == b[i]; }
  }

  lemma FaithfulBoth(a: seq<Observation>, b: seq<Observation>, t: Triple, x: Edge, y: Edge)
    requires Faithful(a, t, x) && Faithful(b, t, y) && Precedes(a, b)
    ensures PersistEdge(x, y) == RestoreEdge(y, x) == Widest(x, y)
    ensures Faithful(a + b, t, Widest(x, y))
  {
    RecordedConcat(a, b, t);
    SeenConcat(a, b, t, x.first);
    SeenConcat(a, b, t, y.last);
    assert x.first <= y.first && x.last <= y.last;
  }

  lemma FaithfulLeft(a: seq<Observation>, b: seq<Observation>, t: Triple, x: Edge)
    requires Faithful(a, t, x) && Recorded(b, t) == 0
    ensures Faithful(a + b, t, x) && Faithful(b + a, t, x)
  {
    RecordedConcat(a, b, t);
    RecordedConcat(b, a, t);
    RecordedZero(b, t);
    SeenConcat(a, b, t, x.first);
    SeenConcat(a, b, t, x.last);
    SeenConcat(b, a, t, x.first);
    SeenConcat(b, a, t, x.last);
  }

  /** The truth about two edges of one triple: all packets, the earliest first and the latest last. */
  function Widest(a: Edge, b: Edge): Edge {
    Edge(a.count + b.count, Min(a.first, b.first), if a.last > b.last then a.last else b.last)
  }

  /** One triple of two stores that summarize consecutive slices. */
  lemma CombineAt(a: seq<Observation>, b: seq<Observation>, older: Store, newer: Store, t: Triple)
    requires Precedes(a, b) && SummarizesAt(older, a, t) && SummarizesAt(newer, b, t)
    ensures SummarizesAt(Persist(older, newer), a + b, t)
    ensures t in older && t in newer ==>
              PersistEdge(older[t], newer[t]) == RestoreEdge(newer[t], older[t]) == Widest(older[t], newer[t])
  {
    hide Faithful, PersistEdge, RestoreEdge, Widest, Recorded;
    RecordedConcat(a, b, t);
    if t in older && t in newer {
      FaithfulBoth(a, b, t, older[t], newer[t]);
    } else if t in older {
      FaithfulLeft(a, b, t, older[t]);
    } else if t in newer {
      FaithfulLeft(b, a, t, newer[t]);
    }
  }

  lemma SameMerge(older: Store, newer: Store)
    requires forall t :: t in older && t in newer ==>
               PersistEdge(older[t], newer[t]) == RestoreEdge(newer[t], older[t]) == Widest(older[t], newer[t])
    ensures Restore(newer, older) == Persist(older, newer) == Combine(older, newer, Widest)
  {
    hide PersistEdge, RestoreEdge, Widest;
  }

  /** Flushing an older slice into the table, putting it back in front of a newer one, and taking the
      widest of both all give the summary of the two slices together. */
  lemma SummaryConcat(a: seq<Observation>, b: seq<Observation>, older: Store, newer: Store)
    requires Precedes(a, b) && Summarizes(older, a) && Summarizes(newer, b)
    ensures Summarizes(Persist(older, newer), a + b)
    ensures Restore(newer, older) == Persist(older, newer) == Combine(older, newer, Widest)
  {
    hide SummarizesAt, PersistEdge, RestoreEdge, Widest, Combine, Precedes;
    forall t
      ensures SummarizesAt(Persist(older, newer), a + b, t)
      ensures t in older && t in newer ==>
                PersistEdge(older[t], newer[t]) == RestoreEdge(newer[t], older[t]) == Widest(older[t], newer[t])
    {
      CombineAt(a, b, older, newer, t);
    }
    SameMerge(older, newer);
  }

  /** The two in-place merges keep the widest times exactly when the stores meet in the right order: a
      commit never lowers the row's first sighting, a put-back never raises the buffer's last. */
  lemma MergesExactly(base: Store, added: Store)
    ensures Persist(base, added) == Combine(base, added, Widest) <==>
              forall t :: t in base && t in added ==> base[t].first <= added[t].first
    ensures Restore(base, added) == Combine(base, added, Widest) <==>
              forall t :: t in base && t in added ==> added[t].last <= base[t].last
  {
    var wide := Combine(base, added, Widest);
    forall t | t in base && t in added
      ensures Persist(base, added)[t] == wide[t] <==> base[t].first <= added[t].first
      ensures Restore(base, added)[t] == wide[t] <==> added[t].last <= base[t].last
    {
    }
  }

  // ---------------------------------------------------------------- orderly flushes, sliced log

  type Slices = seq<seq<Observation>>

  /** The table, the snapshots in flight from oldest to newest, and the buffer. */
  function Stores(s: State): (stores: seq<Store>)
    ensures |stores| == |s.flights| + 2
  {
    [s.rows] + s.flights + [s.buffer]
  }

  function Flat(slices: Slices): seq<Observation> {
    if slices == [] then [] else slices[0] + Flat(slices[1..])
  }

  ghost predicate AllSummarize(stores: seq<Store>, slices: Slices) {
    |stores| == |slices| && forall i :: 0 <= i < |stores| ==> Summarizes(stores[i], slices[i])
  }

  /** The stores summarize consecutive slices of the log. */
  ghost predicate Sliced(s: State, slices: Slices) {
    && |slices| == |s.flights| + 2
    && s.log == Flat(slices) && Monotone(s.log) && AllSummarize(Stores(s), slices)
  }

  ghost predicate ClockRuns(s: State, step: Step) {
    step.Record? ==> forall i :: 0 <= i < |s.log| ==> s.log[i].at <= step.o.at
  }

  /** Commits take the oldest snapshot in flight, failures the newest, and the clock does not run
      backwards. */
  ghost predicate Orderly(s: State, step: Step) {
    && Enabled(s, step) && ClockRuns(s, step)
    && (step.Commit? ==> step.flight == 0)
    && (step.Fail? ==> step.flight == |s.flights| - 1)
  }

  ghost predicate OrderlyRun(s: State, steps: seq<Step>)
    decreases |steps|
  {
    steps == [] || (Orderly(s, steps[0]) && OrderlyRun(Next(s, steps[0]), steps[1..]))
  }

  /** One flusher at a time: no snapshot is taken while another is in flight. */
  ghost predicate OneFlusherRun(s: State, steps: seq<Step>)
    decreases |steps|
  {
    steps == [] ||
    (var step := steps[0];
     && Enabled(s, step) && ClockRuns(s, step) && (step.Snapshot? ==> s.flights == [])
     && OneFlusherRun(Next(s, step), steps[1..]))
  }

  /** A single flusher is always orderly. */
  lemma {:induction false} OneFlusherIsOrderly(s: State, steps: seq<Step>)
    requires |s.flights| <= 1 && OneFlusherRun(s, steps)
    ensures OrderlyRun(s, steps)
    decreases |steps|
  {
    if steps != [] { OneFlusherIsOrderly(Next(s, steps[0]), steps[1..]); }
  }

  lemma {:induction false} FlatConcat(a: Slices, b: Slices)
    ensures Flat(a + b) == Flat(a) + Flat(b)
    decreases |a|
  {
    if a == [] {
      assert a + b == b;
    } else {
      assert (a + b)[1..] == a[1..] + b;
      FlatConcat(a[1..], b);
    }
  }

  lemma FlatOne(x: seq<Observation>)
    ensures Flat([x]) == x
  {
    assert [x][1..] == [];
  }

  function MergeAt<T>(s: seq<seq<T>>, i: nat): seq<seq<T>>
    requires i + 1 < |s|
  {
    s[..i] + [s[i] + s[i + 1]] + s[i + 2..]
  }

  lemma FlatAround(before: Slices, x: seq<Observation>, behind: Slices)
    ensures Flat(before + ([x] + behind)) == Flat(before) + (x + Flat(behind))
    ensures Flat([x] + behind) == x + Flat(behind)
  {
    FlatConcat(before, [x] + behind);
    assert ([x] + behind)[1..] == behind;
  }

  /** Two neighbouring slices of a log in order of time, and the log they are part of. */
  lemma Neighbours(slices: Slices, i: nat)
    requires i + 1 < |slices| && Monotone(Flat(slices))
    ensures Flat(MergeAt(slices, i)) == Flat(slices)
    ensures Precedes(slices[i], slices[i + 1])
  {
    hide Flat, Monotone, Precedes;
    var x, y, before, behind := slices[i], slices[i + 1], slices[..i], slices[i + 2..];
    assert slices == before + ([x] + ([y] + behind));
    assert MergeAt(slices, i) == before + ([x + y] + behind);
    FlatAround(before, x, [y] + behind);
    FlatAround(before, y, behind);
    FlatAround(before, x + y, behind);
    MiddleInOrder(Flat(before), x, y, Flat(behind));
  }

  lemma MiddleInOrder(before: seq<Observation>, x: seq<Observation>, y: seq<Observation>, behind: seq<Observation>)
    requires Monotone(before + (x + (y + behind)))
    ensures before + ((x + y) + behind) == before + (x + (y + behind))
    ensures Precedes(x, y)
  {
    var log := before + (x + (y + behind));
    forall i, j | 0 <= i < |x| && 0 <= j < |y| ensures x[i].at <= y[j].at {
      assert log[|before| + i] == x[i] && log[|before| + |x| + j] == y[j];
    }
  }

  lemma RecordSummarizes(s: Store, log: seq<Observation>, o: Observation)
    requires Summarizes(s, log) && forall i :: 0 <= i < |log| ==> log[i].at <= o.at
    ensures Summarizes(RecordIn(s, o), log + [o])
  {
    var s' := RecordIn(s, o);
    assert (log + [o])[..|log|] == log;
    forall t ensures SummarizesAt(s', log + [o], t) {
      assert SummarizesAt(s, log, t);
      assert t == o.triple ==> Seen([o], t, o.at) by { assert [o][0] == o; }
      SeenConcat(log, [o], t, o.at);
      if t in s {
        SeenConcat(log, [o], t, s[t].first);
        SeenConcat(log, [o], t, s[t].last);
      } else {
        RecordedZero(log, t);
      }
    }
  }

  lemma EmptySummary()
    ensures Summarizes(map[], [])
  {
  }

  lemma SlicedRecord(s: State, o: Observation, slices: Slices) returns (slices': Slices)
    requires Sliced(s, slices) && ClockRuns(s, Record(o))
    ensures Sliced(Next(s, Record(o)), slices')
  {
    var n := |slices| - 1;
    var init, waiting := slices[..n], slices[n];
    slices' := init + [waiting + [o]];
    assert slices == init + [waiting];
    FlatConcat(init, [waiting]);
    FlatConcat(init, [waiting + [o]]);
    FlatOne(waiting);
    FlatOne(waiting + [o]);
    assert Stores(s)[n] == s.buffer;
    hide Flat, Summarizes, RecordIn;
    assert Flat(init) + waiting + [o] == Flat(init) + (waiting + [o]);
    forall i | 0 <= i < |waiting| ensures waiting[i].at <= o.at {
      assert s.log[|Flat(init)| + i] == waiting[i];
    }
    RecordSummarizes(s.buffer, waiting, o);
    var stores, stores' := Stores(s), Stores(Next(s, Record(o)));
    assert forall i :: 0 <= i < n ==> stores'[i] == stores[i];
  }

  lemma SlicedSnapshot(s: State, slices: Slices)
    requires Sliced(s, slices) && s.buffer != map[]
    ensures Sliced(Next(s, Snapshot), slices + [[]])
  {
    FlatConcat(slices, [[]]);
    FlatOne([]);
    EmptySummary();
    hide Flat, Summarizes;
    assert Flat(slices) + [] == Flat(slices);
    assert Stores(Next(s, Snapshot)) == Stores(s) + [map[]];
  }

  lemma SlicedCommit(s: State, slices: Slices)
    requires Sliced(s, slices) && s.flights != []
    ensures Sliced(Next(s, Commit(0)), MergeAt(slices, 0))
  {
    hide Summarizes, Precedes, Combine, Flat;
    Neighbours(slices, 0);
    var stores := Stores(s);
    assert stores[0] == s.rows && stores[1] == s.flights[0];
    SummaryConcat(slices[0], slices[1], s.rows, s.flights[0]);
    var stores' := Stores(Next(s, Commit(0)));
    assert stores' == [Persist(s.rows, s.flights[0])] + stores[2..];
  }

  lemma SlicedFail(s: State, slices: Slices)
    requires Sliced(s, slices) && s.flights != []
    ensures Sliced(Next(s, Fail(|s.flights| - 1)), MergeAt(slices, |slices| - 2))
  {
    hide Summarizes, Precedes, Combine, Flat;
    var n, k := |slices| - 2, |s.flights| - 1;
    Neighbours(slices, n);
    var stores := Stores(s);
    assert stores[n] == s.flights[k] && stores[n + 1] == s.buffer;
    SummaryConcat(slices[n], slices[n + 1], s.flights[k], s.buffer);
    var stores' := Stores(Next(s, Fail(k)));
    assert stores' == stores[..n] + [Restore(s.buffer, s.flights[k])];
  }

  lemma SlicedStep(s: State, step: Step, slices: Slices) returns (slices': Slices)
    requires Sliced(s, slices) && Orderly(s, step)
    ensures Sliced(Next(s, step), slices')
  {
    hide AllSummarize, Monotone, Flat;
    slices' := slices;
    match step {
      case Record(o) => slices' := SlicedRecord(s, o, slices);
      case Snapshot =>
        if s.buffer != map[] {
          SlicedSnapshot(s, slices);
          slices' := slices + [[]];
        }
      case Commit(k) =>
        SlicedCommit(s, slices);
        slices' := MergeAt(slices, 0);
      case Fail(k) =>
        SlicedFail(s, slices);
        slices' := MergeAt(slices, |slices| - 2);
      case SetSniffer(_) =>
    }
  }

  /** Through any sequence of orderly successful and failed flushes, any number of them in flight, every
      store stays the exact summary of its slice of the log. */
  lemma {:induction false} StoresAreSlices(s: State, steps: seq<Step>, slices: Slices) returns (slices': Slices)
    requires Sliced(s, slices) && OrderlyRun(s, steps)
    ensures CanRun(s, steps) && Sliced(Run(s, steps), slices')
    decreases |steps|
  {
    hide Sliced, Next;
    slices' := slices;
    if steps != [] {
      slices' := SlicedStep(s, steps[0], slices);
      slices' := StoresAreSlices(Next(s, steps[0]), steps[1..], slices');
    }
  }

  /** Table, flights and buffer taken together: counts added, earliest first, latest last. */
  ghost function Together(s: State): Store {
    AllOf(Stores(s))
  }

  ghost function AllOf(stores: seq<Store>): Store {
    if stores == [] then map[] else Combine(stores[0], AllOf(stores[1..]), Widest)
  }

  lemma {:induction false} AllOfSummarizes(stores: seq<Store>, slices: Slices)
    requires AllSummarize(stores, slices) && Monotone(Flat(slices))
    ensures Summarizes(AllOf(stores), Flat(slices))
    decreases |stores|
  {
    hide Summarizes, Combine;
    if stores == [] {
      EmptySummary();
    } else {
      var rest := Flat(slices[1..]);
      RestInOrder(slices[0], rest);
      AllOfSummarizes(stores[1..], slices[1..]);
      SummaryConcat(slices[0], rest, stores[0], AllOf(stores[1..]));
    }
  }

  lemma RestInOrder(first: seq<Observation>, rest: seq<Observation>)
    requires Monotone(first + rest)
    ensures Monotone(rest) && Precedes(first, rest)
  {
    var log := first + rest;
    assert forall i :: 0 <= i < |rest| ==> rest[i] == log[|first| + i];
    assert forall i :: 0 <= i < |first| ==> first[i] == log[i];
  }

  lemma EmptySliced()
    ensures Sliced(EMPTY, [[], []])
  {
    EmptySummary();
    var slices: Slices := [[], []];
    var rest := slices[1..];
    assert rest == [[]] && rest[1..] == [];
    assert Flat(rest) == [] + [] && Flat(slices) == [] + Flat(rest);
  }

  /** Timestamps survive failure: through any sequence of orderly failed and successful flushes, for
      every recorded triple the earliest `first` over the stores is the time of its first packet, the
      latest `last` the time of its last, and the counts add up. */
  lemma StampsSurviveFailures(steps: seq<Step>)
    requires OrderlyRun(EMPTY, steps)
    ensures CanRun(EMPTY, steps) && Summarizes(Together(Run(EMPTY, steps)), Run(EMPTY, steps).log)
  {
    EmptySliced();
    hide Summarizes, Flat;
    var slices := StoresAreSlices(EMPTY, steps, [[], []]);
    AllOfSummarizes(Stores(Run(EMPTY, steps)), slices);
  }

  /** Once everything is flushed the table alone is the summary of the whole log. */
  lemma FlushedTableFaithful(steps: seq<Step>)
    requires OrderlyRun(EMPTY, steps)
    ensures CanRun(EMPTY, steps)
    ensures var s := Run(EMPTY, steps); s.flights == [] && s.buffer == map[] ==> Summarizes(s.rows, s.log)
  {
    hide Summarizes;
    StampsSurviveFailures(steps);
    var s := Run(EMPTY, steps);
    if s.flights == [] && s.buffer == map[] { FlushedTogether(s); }
  }

  lemma FlushedTogether(s: State)
    requires s.flights == [] && s.buffer == map[]
    ensures Together(s) == s.rows
  {
    assert Stores(s) == [s.rows, map[]];
    var rest := Stores(s)[1..];
    assert rest == [map[]] && rest[1..] == [];
    assert AllOf(rest[1..]) == map[];
    assert AllOf(rest) == Combine(map[], map[], Widest);
    CombineNothing(map[], Widest);
    CombineNothing(s.rows, Widest);
  }
}
