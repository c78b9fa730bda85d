/**
 * The device inventory as values: creation, fill-null-only merge, explicit updates, and the audit
 * entries they write.
 */
module Inventory {
  import opened Bytes
  import opened Csv
  import opened Text
  import opened Audit
  import opened TypedColumns

  const MAX_PROTOCOLS: nat := 20

  /** An address pair in the form in which its columns store it. */
  datatype Key = Key(mac: string, ip: string)

  datatype Record = Record(ip: string, vendor: Option<string>, model: Option<string>, firmware: Option<string>,
                           deviceType: Option<string>, protocols: seq<string>, fingerprint: Option<string>,
                           lastSeen: int)

  /** The arguments of one upsert; an absent protocol list and an empty one behave alike.  The texts are
      those of a fingerprint, so they fit their columns, which store them unchanged. */
  datatype Observation = Observation(key: Key, vendor: Option<string>, model: Option<string>,
                                     firmware: Option<string>, deviceType: Option<string>,
                                     protocols: seq<string>, fingerprint: Option<string>, at: int)

  function Fill<T>(old_: Option<T>, new_: Option<T>): Option<T> {
    if old_.None? then new_ else old_
  }

  /** The attribute as the audit history renders it. */
  function Attribute(d: Record, field: Field): Option<string> {
    match field
    case Vendor => d.vendor
    case Model => d.model
    case Firmware => d.firmware
    case DeviceType => d.deviceType
    case Protocols => Render(d.protocols)
    case IpAddress => Some(d.ip)
  }

  // ---------------------------------------------------------------- merge

  /** The given protocols that are not in the list yet, in order. */
  function NewProtocols(current: seq<string>, given: seq<string>): seq<string> {
    if given == [] then []
    else (if given[0] in current then [] else [given[0]]) + NewProtocols(current, given[1..])
  }

  /** What a merge leaves behind; `limit` is the protocol-limit exception, raised after the other
      attributes were filled. */
  datatype Merged = Merged(record: Record, entries: History, limit: bool)

  function FillEntry(field: Field, old_: Option<string>, new_: Option<string>, at: int): History {
    if old_.None? && new_.Some? then [Entry(field, old_, new_, at)] else []
  }

  function FillEntries(d: Record, o: Observation): History {
    FillEntry(Vendor, d.vendor, o.vendor, o.at) + FillEntry(Model, d.model, o.model, o.at)
      + FillEntry(Firmware, d.firmware, o.firmware, o.at) + FillEntry(DeviceType, d.deviceType, o.deviceType, o.at)
  }

  function Filled(d: Record, o: Observation): Record {
    d.(lastSeen := o.at, vendor := Fill(d.vendor, o.vendor), model := Fill(d.model, o.model),
       firmware := Fill(d.firmware, o.firmware), deviceType := Fill(d.deviceType, o.deviceType))
  }

  function Merge(d: Record, o: Observation): Merged {
    var filled, entries := Filled(d, o), FillEntries(d, o);
    var missing := NewProtocols(d.protocols, o.protocols);
    var all := d.protocols + missing;
    if missing == [] then
      Merged(filled.(fingerprint := Fill(d.fingerprint, o.fingerprint)), entries, false)
    else if |all| > MAX_PROTOCOLS then
      Merged(filled, entries, true)
    else
      Merged(filled.(protocols := all, fingerprint := Fill(d.fingerprint, o.fingerprint)),
             entries + [Entry(Protocols, Render(d.protocols), Some(Join(all)), o.at)], false)
  }

  function Created(o: Observation): Record {
    Record(o.key.ip, o.vendor, o.model, o.firmware, o.deviceType, o.protocols, o.fingerprint, o.at)
  }

  /** The entry of a fill-once attribute. */
  ghost predicate Fills(e: Entry, had: Option<string>, given: Option<string>) {
    had == None && given != None && e.before == None && e.after == given
  }

  /** The entry is one of a merge that leaves the protocols `after`: of an attribute it fills, or of the protocol list
      if it grows. */
  ghost predicate Written(d: Record, o: Observation, after: seq<string>, e: Entry) {
    match e.field
    case Vendor => Fills(e, d.vendor, o.vendor)
    case Model => Fills(e, d.model, o.model)
    case Firmware => Fills(e, d.firmware, o.firmware)
    case DeviceType => Fills(e, d.deviceType, o.deviceType)
    case Protocols => after != d.protocols && e.before == Render(d.protocols) && e.after == Render(after)
    case IpAddress => false
  }

  /** What a merge writes to the history, exactly. */
  lemma MergeWrites(d: Record, o: Observation, e: Entry)
    ensures e in Merge(d, o).entries <==> e.at == o.at && Written(d, o, Merge(d, o).record.protocols, e)
  {
    hide NewProtocols, Join, FillEntries;
    var missing := NewProtocols(d.protocols, o.protocols);
    FillsWritten(d, o, e);
    if missing != [] {
      assert |d.protocols + missing| > |d.protocols|;
      assert Render(d.protocols + missing) == Some(Join(d.protocols + missing));
    }
  }

  lemma FillsWritten(d: Record, o: Observation, e: Entry)
    ensures e in FillEntries(d, o) <==> e.at == o.at && !e.field.Protocols? && Written(d, o, d.protocols, e)
  {
    hide Render;
  }

  // ---------------------------------------------------------------- the store

  type Store = map<Key, Record>

  datatype Outcome = IsNew | ReDetected | LimitExceeded | Duplicate

  function Upsert(store: Store, o: Observation): (r: (Store, Outcome)) {
    if o.key !in store then
      if |o.protocols| > MAX_PROTOCOLS then (store, LimitExceeded) else (store[o.key := Created(o)], IsNew)
    else
      var merged := Merge(store[o.key], o);
      (store[o.key := merged.record], if merged.limit then LimitExceeded else ReDetected)
  }

  function UpsertAll(observations: seq<Observation>): Store {
    if observations == [] then map[]
    else Upsert(UpsertAll(observations[..|observations| - 1]), observations[|observations| - 1]).0
  }

  /** How an upsert ends, and when. */
  lemma OutcomeTells(store: Store, o: Observation)
    ensures var outcome := Upsert(store, o).1;
            var known := if o.key in store then |store[o.key].protocols| else 0;
            var missing :=
              if o.key in store then |NewProtocols(store[o.key].protocols, o.protocols)| else |o.protocols|;
            && (outcome == LimitExceeded <==> missing > 0 && known + missing > 20)
            && (outcome == IsNew <==> o.key !in store && |o.protocols| <= 20)
            && (outcome == ReDetected <==> o.key in store && (missing == 0 || known + missing <= 20))
  {
    hide NewProtocols;
  }

  /** The observations that reached the record of `key`: all of them from the first that could create it. */
  function Reaching(observations: seq<Observation>, key: Key): seq<Observation> {
    if observations == [] then []
    else
      var earlier, last := Reaching(observations[..|observations| - 1], key), observations[|observations| - 1];
      if last.key == key && (earlier != [] || |last.protocols| <= MAX_PROTOCOLS) then earlier + [last] else earlier
  }

  /** The value of a fill-once attribute an observation carries. */
  function Observed(o: Observation, field: Field): Option<string> {
    match field
    case Vendor => o.vendor
    case Model => o.model
    case Firmware => o.firmware
    case _ => o.deviceType
  }

  predicate FillOnce(field: Field) {
    field in {Vendor, Model, Firmware, DeviceType}
  }

  /** `value` is the first non-null value of the attribute in the list. */
  ghost predicate FirstKnown(list: seq<Observation>, field: Field, value: Option<string>) {
    match value
    case None => forall i :: 0 <= i < |list| ==> Observed(list[i], field).None?
    case Some(v) => exists i :: 0 <= i < |list| && Observed(list[i], field) == Some(v)
                      && forall j :: 0 <= j < i ==> Observed(list[j], field).None?
  }

  ghost predicate Distinct(s: seq<string>) {
    forall i, j :: 0 <= i < j < |s| ==> s[i] != s[j]
  }

  lemma {:induction false} NewProtocolsAre(current: seq<string>, given: seq<string>)
    ensures forall p :: p in NewProtocols(current, given) <==> p in given && p !in current
    ensures Distinct(given) ==> Distinct(NewProtocols(current, given))
    decreases |given|
  {
    if given != [] {
      NewProtocolsAre(current, given[1..]);
      assert given == [given[0]] + given[1..];
      var rest := NewProtocols(current, given[1..]);
      if Distinct(given) {
        assert forall j :: 1 <= j < |given| ==> given[j] == given[1..][j - 1];
        assert given[0] !in given[1..];
      }
    }
  }

  lemma FirstKnownExtend(list: seq<Observation>, field: Field, value: Option<string>, o: Observation)
    requires FirstKnown(list, field, value)
    ensures FirstKnown(list + [o], field, Fill(value, Observed(o, field)))
  {
    var longer := list + [o];
    if value.Some? {
      var i :| && 0 <= i < |list| && Observed(list[i], field) == value
               && forall j :: 0 <= j < i ==> Observed(list[j], field).None?;
      assert Observed(longer[i], field) == value;
    } else if Observed(o, field).Some? {
      assert Observed(longer[|list|], field) == Observed(o, field);
    }
  }

  /** The inventory as a fold: after any sequence of upserts a key is present exactly when some
      observation could create it, and each of its fill-once attributes is the first non-null value
      observed from then on, also where the protocol limit was hit in between. */
  lemma {:induction false} InventoryIsFirstKnown(observations: seq<Observation>, key: Key, field: Field)
    requires FillOnce(field)
    ensures key in UpsertAll(observations) <==> Reaching(observations, key) != []
    ensures key in UpsertAll(observations) ==>
              FirstKnown(Reaching(observations, key), field, Attribute(UpsertAll(observations)[key], field))
  {
    if observations != [] {
      var init, last := observations[..|observations| - 1], observations[|observations| - 1];
      InventoryIsFirstKnown(init, key, field);
      var store, reaching := UpsertAll(init), Reaching(init, key);
      if last.key == key {
        if key in store {
          FirstKnownExtend(reaching, field, Attribute(store[key], field), last);
          MergeFills(store[key], last, field);
        } else if |last.protocols| <= MAX_PROTOCOLS {
          FirstKnownExtend([], field, None, last);
          assert [] + [last] == reaching + [last];
        }
      }
    }
  }

  lemma MergeFills(d: Record, o: Observation, field: Field)
    requires FillOnce(field)
    ensures Attribute(Merge(d, o).record, field) == Fill(Attribute(d, field), Observed(o, field))
    ensures Merge(d, o).record.lastSeen == o.at && Merge(d, o).record.ip == d.ip
    ensures Merge(d, o).record.fingerprint
              == if d.fingerprint == None && !Merge(d, o).limit then o.fingerprint else d.fingerprint
  {
  }

  // ---------------------------------------------------------------- protocols

  /** What holds of every stored protocol list. */
  ghost predicate Sound(store: Store) {
    forall k :: k in store ==> |store[k].protocols| <= MAX_PROTOCOLS
  }

  ghost predicate AllDistinct(store: Store) {
    forall k :: k in store ==> Distinct(store[k].protocols)
  }

  /** A merge keeps the list as a prefix, and either adds exactly the missing given protocols or, past
      the limit, leaves the list alone. */
  lemma MergeProtocols(d: Record, o: Observation)
    ensures var m := Merge(d, o);
            && d.protocols <= m.record.protocols
            && (|d.protocols| <= MAX_PROTOCOLS ==> |m.record.protocols| <= MAX_PROTOCOLS)
            && (Distinct(d.protocols) && Distinct(o.protocols) ==> Distinct(m.record.protocols))
            && (m.limit ==> m.record.protocols == d.protocols)
            && (m.limit <==> (exists p :: p in o.protocols && p !in d.protocols)
                             && |d.protocols| + |NewProtocols(d.protocols, o.protocols)| > 20)
            && (!m.limit ==> forall p :: p in m.record.protocols <==> p in d.protocols || p in o.protocols)
  {
    NewProtocolsAre(d.protocols, o.protocols);
    var missing := NewProtocols(d.protocols, o.protocols);
    if missing != [] { assert missing[0] in missing; }
    DistinctConcat(d.protocols, NewProtocols(d.protocols, o.protocols));
  }

  lemma DistinctConcat(a: seq<string>, b: seq<string>)
    ensures Distinct(a) && Distinct(b) && (forall p :: p in b ==> p !in a) ==> Distinct(a + b)
  {
    var c := a + b;
    if Distinct(a) && Distinct(b) && (forall p :: p in b ==> p !in a) {
      forall i, j | 0 <= i < j < |c| ensures c[i] != c[j] {
        if i < |a| <= j { assert c[j] in b; }
      }
    }
  }

  lemma UpsertProtocols(store: Store, o: Observation)
    ensures Sound(store) ==> Sound(Upsert(store, o).0)
    ensures AllDistinct(store) && Distinct(o.protocols) ==> AllDistinct(Upsert(store, o).0)
    ensures forall k :: k in store ==> k in Upsert(store, o).0 && store[k].protocols <= Upsert(store, o).0[k].protocols
  {
    if o.key in store { MergeProtocols(store[o.key], o); }
  }

  /** Over any run, counting the observations that raise the limit exception: a protocol list never
      exceeds twenty entries, never loses or reorders one, and stays free of duplicates when every
      observed list is. */
  lemma {:induction false} ProtocolsOnlyGrow(observations: seq<Observation>, n: nat)
    requires n <= |observations|
    ensures var earlier, later := UpsertAll(observations[..n]), UpsertAll(observations);
            && Sound(later) && (forall k :: k in later ==> |later[k].protocols| <= 20)
            && (forall k :: k in earlier ==> k in later && earlier[k].protocols <= later[k].protocols)
            && ((forall i :: 0 <= i < |observations| ==> Distinct(observations[i].protocols)) ==> AllDistinct(later))
    decreases |observations|
  {
    if observations == [] {
      assert observations[..n] == [];
    } else {
      var m := |observations| - 1;
      var init := observations[..m];
      assert forall i :: 0 <= i < m ==> init[i] == observations[i];
      if n == |observations| {
        ProtocolsOnlyGrow(init, m);
        assert observations[..n] == observations;
      } else {
        ProtocolsOnlyGrow(init, n);
        assert init[..n] == observations[..n];
      }
      UpsertProtocols(UpsertAll(init), observations[m]);
    }
  }

  // ---------------------------------------------------------------- the audit chain

  datatype Op = Redetect(o: Observation) | Update(field: Field, value: Option<string>, at: int)

  /** Explicit updates that raise an exception and change nothing: too many protocols, no address, or a
      text the column refuses. */
  predicate Refused(db: Columns, op: Op) {
    op.Update? &&
    match op.value
    case None => op.field == IpAddress
    case Some(text) =>
      Stored(db, op.field, text).None? || (op.field == Protocols && |ParseCsv(text)| > MAX_PROTOCOLS)
  }

  function Updated(db: Columns, d: Record, field: Field, value: Option<string>): Record {
    var stored := if value.Some? then Stored(db, field, value.value) else None;
    match field
    case Vendor => d.(vendor := stored)
    case Model => d.(model := stored)
    case Firmware => d.(firmware := stored)
    case DeviceType => d.(deviceType := stored)
    case Protocols => d.(protocols := if value.Some? then ParseCsv(value.value) else [])
    case IpAddress => if stored.Some? then d.(ip := stored.value) else d
  }

  /** What an explicit update changes: the attribute itself, to what its column makes of the text, and nothing else. */
  lemma UpdateTells(db: Columns, d: Record, field: Field, value: Option<string>)
    ensures var d' := Updated(db, d, field, value);
            var stored := if value.Some? then Stored(db, field, value.value) else None;
            && d'.vendor == (if field == Vendor then stored else d.vendor)
            && d'.model == (if field == Model then stored else d.model)
            && d'.firmware == (if field == Firmware then stored else d.firmware)
            && d'.deviceType == (if field == DeviceType then stored else d.deviceType)
            && d'.ip == (if field == IpAddress && stored.Some? then stored.value else d.ip)
            && d'.protocols == (if field != Protocols then d.protocols
                                else if value.Some? then ParseCsv(value.value) else [])
            && d'.fingerprint == d.fingerprint && d'.lastSeen == d.lastSeen
  {
  }

  /** Between two operations the attributes are read back from the database. */
  function Apply(db: Columns, d: Record, op: Op): (r: (Record, History)) {
    if Refused(db, op) then (d, [])
    else
      match op
      case Redetect(o) => (Merge(d, o).record, Merge(d, o).entries)
      case Update(field, value, at) =>
        (Updated(db, d, field, value), [Entry(field, Attribute(d, field), value, at)])
  }

  function ApplyAll(db: Columns, d: Record, ops: seq<Op>): (r: (Record, History)) {
    if ops == [] then (d, [])
    else
      var (d1, entries) := ApplyAll(db, d, ops[..|ops| - 1]);
      var (d2, more) := Apply(db, d1, ops[|ops| - 1]);
      (d2, entries + more)
  }

  /** The history would show a text that the attribute does not have: a protocol text the stored list does
      not render back to, or a text its column rewrites. */
  predicate Distorts(db: Columns, op: Op, field: Field) {
    op.Update? && op.field == field && !Refused(db, op) && op.value.Some? &&
    if field == Protocols then !Canonical(op.value.value) else Stored(db, field, op.value.value) != op.value
  }

  /** One operation writes at most one entry per attribute, from the current value; it ends in the new
      value unless the operation distorts the attribute. */
  ghost predicate Links(db: Columns, d: Record, op: Op, field: Field, entries: History) {
    var (d', _) := Apply(db, d, op);
    if |entries| == 0 then Attribute(d', field) == Attribute(d, field) && !Distorts(db, op, field)
    else |entries| == 1 && entries[0].before == Attribute(d, field)
         && (entries[0].after == Attribute(d', field) <==> !Distorts(db, op, field))
  }

  lemma OfOne(e: Entry, field: Field)
    ensures Of([e], field) == if e.field == field then [e] else []
  {
    assert [e][..0] == [];
  }

  lemma OfFill(g: Field, old_: Option<string>, new_: Option<string>, at: int, field: Field)
    ensures Of(FillEntry(g, old_, new_, at), field) == if g == field then FillEntry(g, old_, new_, at) else []
  {
    OfOne(Entry(g, old_, new_, at), field);
  }

  lemma OfFills(d: Record, o: Observation, field: Field)
    ensures Of(FillEntries(d, o), field)
              == if FillOnce(field) then FillEntry(field, Attribute(d, field), Observed(o, field), o.at) else []
  {
    OfFour(FillEntry(Vendor, d.vendor, o.vendor, o.at), FillEntry(Model, d.model, o.model, o.at),
           FillEntry(Firmware, d.firmware, o.firmware, o.at),
           FillEntry(DeviceType, d.deviceType, o.deviceType, o.at), field);
    OfFill(Vendor, d.vendor, o.vendor, o.at, field);
    OfFill(Model, d.model, o.model, o.at, field);
    OfFill(Firmware, d.firmware, o.firmware, o.at, field);
    OfFill(DeviceType, d.deviceType, o.deviceType, o.at, field);
    hide FillEntry, Of;
  }

  lemma OfFour(a: History, b: History, c: History, e: History, field: Field)
    ensures Of(a + b + c + e, field) == Of(a, field) + Of(b, field) + Of(c, field) + Of(e, field)
  {
    hide Of;
    OfConcat(a + b + c, e, field);
    OfConcat(a + b, c, field);
    OfConcat(a, b, field);
  }

  lemma RedetectLinks(db: Columns, d: Record, o: Observation, field: Field)
    ensures Links(db, d, Redetect(o), field, Of(Merge(d, o).entries, field))
  {
    hide FillEntries, Of, NewProtocols, Join;
    var m, fills := Merge(d, o), FillEntries(d, o);
    OfFills(d, o, field);
    if m.entries != fills {
      var all := d.protocols + NewProtocols(d.protocols, o.protocols);
      var e := Entry(Protocols, Render(d.protocols), Some(Join(all)), o.at);
      OfConcat(fills, [e], field);
      OfOne(e, field);
    }
  }

  lemma UpdateLinks(db: Columns, d: Record, op: Op, field: Field)
    requires op.Update?
    ensures Links(db, d, op, field, Of(Apply(db, d, op).1, field))
  {
    if !Refused(db, op) {
      OfOne(Entry(op.field, Attribute(d, op.field), op.value, op.at), field);
      if op.field == Protocols && op.value.Some? { RenderOfParse(op.value.value); }
    }
  }

  lemma OpLinks(db: Columns, d: Record, op: Op, field: Field)
    ensures Links(db, d, op, field, Of(Apply(db, d, op).1, field))
  {
    if op.Redetect? { RedetectLinks(db, d, op.o, field); } else { UpdateLinks(db, d, op, field); }
  }

  ghost predicate NoneDistorts(db: Columns, ops: seq<Op>, field: Field) {
    forall i :: 0 <= i < |ops| ==> !Distorts(db, ops[i], field)
  }

  /** The audit chain, exactly: over any mix of re-detections and explicit updates, the entries of an
      attribute lead link by link from its value at creation to its current value, precisely when no explicit
      update wrote a protocol text that is not in canonical form or a text that its column rewrites. */
  lemma {:induction false} AuditChain(db: Columns, d: Record, ops: seq<Op>, field: Field)
    ensures var (now, entries) := ApplyAll(db, d, ops);
            Chain(Of(entries, field), Attribute(d, field), Attribute(now, field)) <==> NoneDistorts(db, ops, field)
  {
    if ops != [] {
      var n := |ops| - 1;
      var init := ops[..n];
      assert NoneDistorts(db, ops, field) <==> NoneDistorts(db, init, field) && !Distorts(db, ops[n], field) by {
        assert ops == init + [ops[n]];
      }
      hide Attribute, Distorts, Apply, NoneDistorts, Chain, Of;
      AuditChain(db, d, init, field);
      var (d1, entries) := ApplyAll(db, d, init);
      OfConcat(entries, Apply(db, d1, ops[n]).1, field);
      OpExtends(db, d1, ops[n], field, Of(entries, field), Attribute(d, field));
    }
  }

  /** What one more operation does to a chain. */
  lemma OpExtends(db: Columns, d: Record, op: Op, field: Field, earlier: History, from: Option<string>)
    ensures var (d', more) := Apply(db, d, op);
            Chain(earlier + Of(more, field), from, Attribute(d', field)) <==>
              (Chain(earlier, from, Attribute(d, field)) && !Distorts(db, op, field))
  {
    hide Attribute, Distorts, Apply, Chain, Of;
    var (d', more) := Apply(db, d, op);
    OpLinks(db, d, op, field);
    LinkStep(earlier, Of(more, field), from, Attribute(d, field), Attribute(d', field), Distorts(db, op, field));
  }

  lemma LinkStep(earlier: History, added: History, from: Option<string>, mid: Option<string>, to: Option<string>,
                 distorted: bool)
    requires |added| <= 1
    requires added == [] ==> to == mid && !distorted
    requires added != [] ==> added[0].before == mid && (added[0].after == to <==> !distorted)
    ensures Chain(earlier + added, from, to) <==> Chain(earlier, from, mid) && !distorted
  {
    if added == [] {
      assert earlier + added == earlier;
    } else {
      assert added == [added[0]];
      ChainExtend(earlier, added[0], from, to);
    }
  }

  /** Both breaks are real.  Writing " modbus" to the protocols stores "modbus" and logs " modbus". */
  lemma NonCanonicalUpdateBreaksChain(db: Columns, d: Record, at: int)
    requires Stored(db, Protocols, " modbus").Some?
    ensures var (now, entries) := ApplyAll(db, d, [Update(Protocols, Some(" modbus"), at)]);
            !Chain(Of(entries, Protocols), Attribute(d, Protocols), Attribute(now, Protocols))
  {
    var ops := [Update(Protocols, Some(" modbus"), at)];
    BlankDistorts(db, at);
    hide Distorts, Chain, Of, ApplyAll, Attribute;
    AuditChain(db, d, ops, Protocols);
  }

  lemma BlankDistorts(db: Columns, at: int)
    requires Stored(db, Protocols, " modbus").Some?
    ensures Distorts(db, Update(Protocols, Some(" modbus"), at), Protocols)
  {
    hide Canonical, ParseCsv, Stored;
    LeadingBlank();
  }

  lemma LeadingBlank()
    ensures !Canonical(" modbus") && |ParseCsv(" modbus")| <= 1
  {
    var s := " modbus";
    SplitOfPart(s, "");
    assert !CleanPart(Split(s)[0]);
    assert |Cleaned([s])| <= 1 by { assert [s][1..] == []; }
  }

  /** Writing a text that its column rewrites, such as "FE80::1" to an address, stores the rewritten text and
      logs the given one. */
  lemma RewrittenTextBreaksChain(db: Columns, d: Record, field: Field, text: string, at: int)
    requires field != Protocols && Stored(db, field, text).Some? && Stored(db, field, text) != Some(text)
    ensures var (now, entries) := ApplyAll(db, d, [Update(field, Some(text), at)]);
            !Chain(Of(entries, field), Attribute(d, field), Attribute(now, field))
  {
    var ops := [Update(field, Some(text), at)];
    assert Distorts(db, ops[0], field);
    hide Distorts, Chain, Of, ApplyAll, Attribute;
    AuditChain(db, d, ops, field);
  }
}
