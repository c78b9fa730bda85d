/**
 * The mapper object itself: a dictionary of mutable edge records, updated in place, whose lock
 * regions are proved to be the steps of `Topology`.
 */
module TopologyMapping {
  import opened Bytes
  import opened Topology

  class BufferedEdge {
    var packetCount: nat
    var firstSeen: int
    var lastSeen: int

    constructor (packetCount: nat, firstSeen: int, lastSeen: int)
      ensures this.packetCount == packetCount && this.firstSeen == firstSeen && this.lastSeen == lastSeen
    {
      this.packetCount, this.firstSeen, this.lastSeen := packetCount, firstSeen, lastSeen;
    }

    function Value(): Edge
      reads this
    {
      Edge(packetCount, firstSeen, lastSeen)
    }
  }

  type EdgeDict = map<Triple, BufferedEdge>

  ghost function Contents(dict: EdgeDict): (s: Store)
    reads dict.Values
    ensures s.Keys == dict.Keys
  {
    map t | t in dict :: dict[t].Value()
  }

  /** Different triples have different records. */
  ghost predicate Unshared(dict: EdgeDict) {
    forall t, u :: t in dict && u in dict && t != u ==> dict[t] != dict[u]
  }

  /** An edge of the answer to a topology query. */
  datatype ReportedEdge = ReportedEdge(triple: Triple, count: nat, lastSeen: int)

  class TopologyMapper {
    var buffer: EdgeDict
    var observed: set<Triple>
    var snifferRunning: bool
    var lastUpdated: Option<int>

    ghost predicate Valid()
      reads this
    {
      Unshared(buffer)
    }

    constructor ()
      ensures Valid() && buffer == map[] && observed == {} && !snifferRunning && lastUpdated == None
    {
      buffer, observed, snifferRunning, lastUpdated := map[], {}, false, None;
    }

    method SetSnifferRunning(value: bool)
      modifies this
      ensures buffer == old(buffer) && lastUpdated == old(lastUpdated) && snifferRunning == value
      ensures observed == if value && !old(snifferRunning) then {} else old(observed)
    {
      if value && !snifferRunning {
        observed := {};
      }
      snifferRunning := value;
    }

    /** The lock region that counts the packet. */
    method BufferPacket(triple: Triple, now: int)
      requires Valid()
      modifies this`buffer, if triple in buffer then {buffer[triple]} else {}
      ensures Valid() && fresh(buffer.Values - old(buffer.Values))
      ensures Contents(buffer) == RecordIn(old(Contents(buffer)), Observation(triple, now))
    {
      if triple in buffer {
        var edge := buffer[triple];
        assert forall u :: u in buffer && u != triple ==> buffer[u] != edge;
        edge.packetCount := edge.packetCount + 1;
        edge.lastSeen := now;
      } else {
        var edge := new BufferedEdge(1, now, now);
        ghost var before := buffer;
        assert forall u :: u in before ==> before[u] in before.Values && before[u] != edge;
        buffer := buffer[triple := edge];
      }
    }

    /** `event` is the new-communication event, if one is due. */
    method RecordCommunication(triple: Triple, now: int) returns (event: Option<Observation>)
      requires Valid()
      modifies this, buffer.Values
      ensures Valid() && fresh(buffer.Values - old(buffer.Values))
      ensures Contents(buffer) == RecordIn(old(Contents(buffer)), Observation(triple, now))
      ensures event == if triple in old(observed) then None else Some(Observation(triple, now))
      ensures observed == old(observed) + {triple}
      ensures snifferRunning == old(snifferRunning) && lastUpdated == Some(now)
    {
      hide Contents, RecordIn;
      assert triple in buffer ==> buffer[triple] in buffer.Values;
      var isNew := triple !in observed;
      if isNew {
        observed := observed + {triple};
      }
      BufferPacket(triple, now);
      event := if isNew then Some(Observation(triple, now)) else None;
      lastUpdated := Some(now);
    }

    /** First lock region of a flush: the snapshot takes the records, the buffer starts afresh. */
    method TakeSnapshot() returns (edges: EdgeDict)
      requires Valid()
      modifies this
      ensures Valid() && buffer == map[] && edges == old(buffer) && Unshared(edges)
      ensures Contents(edges) == old(Contents(buffer))
      ensures observed == old(observed) && snifferRunning == old(snifferRunning) && lastUpdated == old(lastUpdated)
    {
      edges := buffer;
      buffer := map[];
    }

    /** The transaction: every snapshot edge is added to its row or becomes a new one. */
    static method PersistSnapshot(rows: Store, edges: EdgeDict) returns (updated: Store)
      ensures updated == Persist(rows, Contents(edges))
    {
      hide Combine, PersistEdge, Part;
      updated := rows;
      var todo := edges.Keys;
      ghost var flushed, done := Contents(edges), map[];
      CombineNothing(rows, PersistEdge);
      PartSteps(done, flushed, todo);
      while todo != {}
        invariant todo <= edges.Keys && Part(done, flushed, todo)
        invariant updated == Persist(rows, done)
        decreases todo
      {
        var t :| t in todo;
        var edge := edges[t].Value();
        AddOne(rows, done, t, edge, PersistEdge, flushed, todo);
        updated := updated[t := if t in updated then PersistEdge(updated[t], edge) else edge];
        todo, done := todo - {t}, done[t := edge];
      }
      PartSteps(done, flushed, todo);
    }

    /** One edge of a failed flush goes back into the buffer. */
    method RestoreOne(t: Triple, flushed: BufferedEdge)
      requires Valid() && flushed !in buffer.Values
      modifies this`buffer, if t in buffer then {buffer[t]} else {}
      ensures Valid() && buffer == if t in old(buffer) then old(buffer) else old(buffer)[t := flushed]
      ensures flushed.Value() == old(flushed.Value())
      ensures var before, edge := old(Contents(buffer)), old(flushed.Value());
              Contents(buffer) == before[t := if t in before then RestoreEdge(before[t], edge) else edge]
    {
      assert forall u :: u in buffer ==> buffer[u] in buffer.Values && buffer[u] != flushed;
      if t in buffer {
        var existing := buffer[t];
        assert forall u :: u in buffer && u != t ==> buffer[u] != existing;
        existing.packetCount := existing.packetCount + flushed.packetCount;
        if flushed.firstSeen < existing.firstSeen {
          existing.firstSeen := flushed.firstSeen;
        }
      } else {
        buffer := buffer[t := flushed];
      }
    }

    /** One turn of the put-back loop; `done` is the part of the snapshot already put back. */
    method RestoreNext(t: Triple, edges: EdgeDict, ghost mine: EdgeDict, ghost todo: set<Triple>,
                       ghost start: Store, ghost done: Store)
      requires Valid() && Unshared(edges) && edges.Values !! mine.Values
      requires t in todo && todo <= edges.Keys && AllFrom(buffer, mine, edges, todo)
      requires Part(done, Contents(edges), todo) && Contents(buffer) == Restore(start, done)
      modifies this`buffer, mine.Values
      ensures Valid() && AllFrom(buffer, mine, edges, todo - {t})
      ensures Contents(edges) == old(Contents(edges))
      ensures var done' := done[t := old(Contents(edges))[t]];
              Part(done', Contents(edges), todo - {t}) && Contents(buffer) == Restore(start, done')
    {
      hide Combine, RestoreEdge, Part, Origin, AllFrom, Contents, Unshared;
      ghost var flushed, now := Contents(edges), buffer;
      NotYetIn(t, buffer, mine, edges, todo);
      ValueIn(edges, t);
      AddOne(start, done, t, flushed[t], RestoreEdge, flushed, todo);
      RestoreOne(t, edges[t]);
      OriginStep(t, now, buffer, mine, edges, todo);
    }

    /** Last lock region of a failed flush: the records go back, merged into what arrived meanwhile. */
    method RestoreSnapshot(edges: EdgeDict)
      requires Valid() && Unshared(edges) && edges.Values !! buffer.Values
      modifies this`buffer, buffer.Values
      ensures Valid() && buffer.Values <= old(buffer.Values) + edges.Values
      ensures Contents(buffer) == Restore(old(Contents(buffer)), old(Contents(edges)))
    {
      hide Combine, RestoreEdge, Part, Origin, AllFrom, Contents, Unshared;
      OriginStart(buffer, edges);
      var todo := edges.Keys;
      ghost var flushed, start, mine, done := Contents(edges), Contents(buffer), buffer, map[];
      CombineNothing(start, RestoreEdge);
      PartSteps(done, flushed, todo);
      while todo != {}
        invariant todo <= edges.Keys && Valid() && Part(done, flushed, todo)
        invariant Contents(edges) == flushed
        invariant AllFrom(buffer, mine, edges, todo)
        invariant Contents(buffer) == Restore(start, done)
        decreases todo
      {
        var t :| t in todo;
        RestoreNext(t, edges, mine, todo, start, done);
        todo, done := todo - {t}, done[t := flushed[t]];
      }
      PartSteps(done, flushed, todo);
      OriginValues(buffer, mine, edges, todo);
    }

    /** The body of a topology query behind its table read: one edge per triple, each the sum of the
        table row and the buffered record. */
    method MergeEdges(rows: Store) returns (edges: seq<ReportedEdge>)
      ensures Lists(edges, Persist(rows, Contents(buffer)))
    {
      edges := ListRows(rows);
      hide Combine, PersistEdge, Lists, Part;
      ghost var added, done := Contents(buffer), map[];
      var todo := buffer.Keys;
      CombineNothing(rows, PersistEdge);
      PartSteps(done, added, todo);
      while todo != {}
        invariant todo <= buffer.Keys && Part(done, added, todo)
        invariant Lists(edges, Persist(rows, done))
        decreases todo
      {
        var t :| t in todo;
        var edge := buffer[t].Value();
        AddOne(rows, done, t, edge, PersistEdge, added, todo);
        edges := AddEdge(edges, t, edge, Persist(rows, done));
        todo, done := todo - {t}, done[t := edge];
      }
      PartSteps(done, added, todo);
    }
  }

  /** Where a record now in the buffer came from: it was there before the flush failed, or was in the
      snapshot and has been put back. */
  ghost predicate Origin(t: Triple, e: BufferedEdge, mine: EdgeDict, edges: EdgeDict, todo: set<Triple>) {
    (t in mine && mine[t] == e && e in mine.Values) || (t in edges && t !in todo && edges[t] == e && e in edges.Values)
  }

  ghost predicate AllFrom(buffer: EdgeDict, mine: EdgeDict, edges: EdgeDict, todo: set<Triple>) {
    forall u :: u in buffer ==> Origin(u, buffer[u], mine, edges, todo)
  }

  lemma NotYetIn(t: Triple, buffer: EdgeDict, mine: EdgeDict, edges: EdgeDict, todo: set<Triple>)
    requires t in todo && todo <= edges.Keys && Unshared(edges) && edges.Values !! mine.Values
    requires AllFrom(buffer, mine, edges, todo)
    ensures edges[t] in edges.Values && edges[t] !in buffer.Values
    ensures t in buffer ==> buffer[t] in mine.Values && buffer[t] !in edges.Values
  {
    forall u | u in buffer ensures buffer[u] != edges[t] {
      assert Origin(u, buffer[u], mine, edges, todo);
      assert edges[t] in edges.Values;
    }
    if t in buffer { assert Origin(t, buffer[t], mine, edges, todo); }
  }

  lemma OriginStart(buffer: EdgeDict, edges: EdgeDict)
    ensures AllFrom(buffer, buffer, edges, edges.Keys)
  {
    forall u | u in buffer ensures Origin(u, buffer[u], buffer, edges, edges.Keys) {
      assert buffer[u] in buffer.Values;
    }
  }

  lemma OriginStep(t: Triple, now: EdgeDict, buffer: EdgeDict, mine: EdgeDict, edges: EdgeDict, todo: set<Triple>)
    requires t in todo && t in edges && AllFrom(now, mine, edges, todo)
    requires buffer == if t in now then now else now[t := edges[t]]
    ensures AllFrom(buffer, mine, edges, todo - {t})
  {
    forall u | u in buffer ensures Origin(u, buffer[u], mine, edges, todo - {t}) {
      assert edges[t] in edges.Values;
      if u in now { assert Origin(u, now[u], mine, edges, todo); }
    }
  }

  lemma OriginValues(buffer: EdgeDict, mine: EdgeDict, edges: EdgeDict, todo: set<Triple>)
    requires AllFrom(buffer, mine, edges, todo)
    ensures buffer.Values <= mine.Values + edges.Values
  {
    forall e | e in buffer.Values ensures e in mine.Values + edges.Values {
      var t :| t in buffer && buffer[t] == e;
      assert Origin(t, e, mine, edges, todo);
    }
  }

  lemma ValueIn(edges: EdgeDict, t: Triple)
    requires t in edges
    ensures t in Contents(edges) && Contents(edges)[t] == edges[t].Value()
  {
  }

  /** What a loop over a dictionary has dealt with so far. */
  ghost predicate Part(done: Store, whole: Store, todo: set<Triple>) {
    done.Keys == whole.Keys - todo && forall t :: t in done ==> done[t] == whole[t]
  }

  lemma PartSteps(done: Store, whole: Store, todo: set<Triple>)
    ensures done == map[] && todo == whole.Keys ==> Part(done, whole, todo)
    ensures Part(done, whole, todo) && todo == {} ==> done == whole
  {
  }

  method ListRows(rows: Store) returns (edges: seq<ReportedEdge>)
    ensures Lists(edges, rows)
  {
    hide Lists, Part;
    edges := [];
    ghost var done := map[];
    var todo := rows.Keys;
    PartSteps(done, rows, todo);
    ListsNothing();
    while todo != {}
      invariant todo <= rows.Keys && Part(done, rows, todo)
      invariant Lists(edges, done)
      decreases todo
    {
      var t :| t in todo;
      AddOne(map[], done, t, rows[t], PersistEdge, rows, todo);
      ListsAppend(edges, done, t, rows[t]);
      edges := edges + [ReportedEdge(t, rows[t].count, rows[t].last)];
      todo, done := todo - {t}, done[t := rows[t]];
    }
    PartSteps(done, rows, todo);
  }

  lemma ListsNothing()
    ensures Lists([], map[])
  {
  }

  /** A buffered edge is merged into the listed edge of its triple, or becomes a new one. */
  method AddEdge(edges: seq<ReportedEdge>, t: Triple, edge: Edge, ghost s: Store) returns (longer: seq<ReportedEdge>)
    requires Lists(edges, s)
    ensures Lists(longer, s[t := if t in s then PersistEdge(s[t], edge) else edge])
  {
    var i := FindEdge(edges, t);
    if i < |edges| {
      ListsUpdate(edges, s, i, edge);
      longer := edges[i := Bumped(edges[i], edge)];
    } else {
      ListsAppend(edges, s, t, edge);
      longer := edges + [ReportedEdge(t, edge.count, edge.last)];
    }
  }

  function Bumped(e: ReportedEdge, edge: Edge): ReportedEdge {
    ReportedEdge(e.triple, e.count + edge.count, if edge.last > e.lastSeen then edge.last else e.lastSeen)
  }

  method FindEdge(edges: seq<ReportedEdge>, t: Triple) returns (i: nat)
    ensures i <= |edges| && (i < |edges| ==> edges[i].triple == t)
    ensures forall j :: 0 <= j < i ==> edges[j].triple != t
  {
    i := 0;
    while i < |edges| && edges[i].triple != t
      invariant i <= |edges| && forall j :: 0 <= j < i ==> edges[j].triple != t
    {
      i := i + 1;
    }
  }

  ghost predicate Reports(edge: ReportedEdge, s: Store) {
    edge.triple in s && edge.count == s[edge.triple].count && edge.lastSeen == s[edge.triple].last
  }

  /** The list holds exactly one edge for every triple of the store, with its count and last sighting. */
  ghost predicate Lists(edges: seq<ReportedEdge>, s: Store) {
    && (forall i, j :: 0 <= i < j < |edges| ==> edges[i].triple != edges[j].triple)
    && (forall i :: 0 <= i < |edges| ==> Reports(edges[i], s))
    && (forall t :: t in s ==> exists i :: 0 <= i < |edges| && edges[i].triple == t)
  }

  lemma ListsAppend(edges: seq<ReportedEdge>, s: Store, t: Triple, edge: Edge)
    requires Lists(edges, s) && t !in s
    ensures Lists(edges + [ReportedEdge(t, edge.count, edge.last)], s[t := edge])
  {
    var longer, s' := edges + [ReportedEdge(t, edge.count, edge.last)], s[t := edge];
    forall u: Triple | u in s' ensures exists i :: 0 <= i < |longer| && longer[i].triple == u {
      if u == t {
        assert longer[|edges|].triple == u;
      } else {
        var i :| 0 <= i < |edges| && edges[i].triple == u;
        assert longer[i].triple == u;
      }
    }
  }

  lemma ListsUpdate(edges: seq<ReportedEdge>, s: Store, i: nat, edge: Edge)
    requires Lists(edges, s) && i < |edges|
    ensures var t := edges[i].triple;
            t in s && Lists(edges[i := Bumped(edges[i], edge)], s[t := PersistEdge(s[t], edge)])
  {
    var t := edges[i].triple;
    assert Reports(edges[i], s);
    var changed, s' := edges[i := Bumped(edges[i], edge)], s[t := PersistEdge(s[t], edge)];
    assert Reports(changed[i], s');
    assert forall k :: 0 <= k < |edges| ==> changed[k].triple == edges[k].triple;
    forall k | 0 <= k < |edges| && k != i ensures Reports(changed[k], s') {
      assert Reports(edges[k], s) && changed[k] == edges[k];
      assert edges[k].triple != t;
    }
    forall u: Triple | u in s' ensures exists k :: 0 <= k < |changed| && changed[k].triple == u {
      var k :| 0 <= k < |edges| && edges[k].triple == u;
      assert changed[k].triple == u;
    }
  }

  /** Merging one more added edge, in a loop over `whole`. */
  lemma AddOne(base: Store, added: Store, t: Triple, edge: Edge, merge: (Edge, Edge) -> Edge, whole: Store,
               todo: set<Triple>)
    requires t in todo && t in whole && whole[t] == edge && Part(added, whole, todo)
    ensures t !in added && Part(added[t := edge], whole, todo - {t})
    ensures var s := Combine(base, added, merge);
            Combine(base, added[t := edge], merge) == s[t := if t in s then merge(s[t], edge) else edge]
  {
    var s := Combine(base, added, merge);
    var s' := Combine(base, added[t := edge], merge);
    assert s'.Keys == s.Keys + {t};
    assert t in s <==> t in base;
  }
}
