/**
 * The alert pipeline: every fingerprint is compared with the stored device, raises its alerts, and is
 * then merged into the inventory.  Handlers run one at a time; disappearance checks and explicit
 * clears interleave with them.  A handler ends early without any effect when an address column refuses
 * the address it looks up, and after its alerts when the database refuses the merge.
 */
module Alerts {
  import opened Bytes
  import opened Audit
  import opened Inventory
  import opened LastWins
  import opened TypedColumns

  datatype Fingerprint = Fingerprint(mac: Option<string>, ip: Option<string>, sourceAddress: string, protocol: string,
                                     vendor: Option<string>, model: Option<string>, firmware: Option<string>,
                                     deviceType: Option<string>, payload: string)

  /** The protocol names a fingerprint can carry. */
  const KNOWN: set<string> := {"modbus_tcp", "ethernetip", "s7comm", "dnp3"}

  /** Python's `value or default`: absent and empty both take the default. */
  function Or(value: Option<string>, default_: string): string {
    if value.Some? && value.value != "" then value.value else default_
  }

  /** The pair under which the device is looked up, or `None` where a column refuses one of the two. */
  function KeyOf(db: Columns, fp: Fingerprint): Option<Key> {
    var mac, ip := db.mac(Or(fp.mac, "unknown")), db.ip(Or(fp.ip, fp.sourceAddress));
    if mac.Some? && ip.Some? then Some(Key(mac.value, ip.value)) else None
  }

  function ObservationOf(key: Key, fp: Fingerprint, at: int): Observation {
    Observation(key, fp.vendor, fp.model, fp.firmware, fp.deviceType,
                if fp.protocol != "" then [fp.protocol] else [], Some(fp.payload), at)
  }

  datatype Alert =
    | NewDevice(key: Key, protocol: string)
    | FirmwareChange(key: Key, previous: string, current: string)
    | NewProtocol(key: Key, protocol: string, existing: seq<string>)
    | DeviceDisappeared(key: Key)

  // ---------------------------------------------------------------- detection

  function FirmwareAlert(key: Key, fp: Fingerprint, d: Record): seq<Alert> {
    if fp.firmware.Some? && d.firmware.Some? && fp.firmware != d.firmware
    then [FirmwareChange(key, d.firmware.value, fp.firmware.value)] else []
  }

  function ProtocolAlert(key: Key, fp: Fingerprint, d: Record): seq<Alert> {
    if fp.protocol != "" && fp.protocol !in d.protocols then [NewProtocol(key, fp.protocol, d.protocols)] else []
  }

  function Detect(key: Key, fp: Fingerprint, existing: Option<Record>): seq<Alert> {
    match existing
    case None => [NewDevice(key, fp.protocol)]
    case Some(d) => FirmwareAlert(key, fp, d) + ProtocolAlert(key, fp, d)
  }

  datatype Sighting = Sighting(key: Key, lastSeen: int)

  /** One disappearance check: its alerts, and the devices alerted afterwards. */
  function CheckSightings(sightings: seq<Sighting>, now: int, timeout: int, alerted: set<Key>)
    : (r: (seq<Alert>, set<Key>))
  {
    if sightings == [] then ([], alerted)
    else
      var (alerts, marked) := CheckSightings(sightings[..|sightings| - 1], now, timeout, alerted);
      var last := sightings[|sightings| - 1];
      if now - last.lastSeen > timeout && last.key !in marked
      then (alerts + [DeviceDisappeared(last.key)], marked + {last.key}) else (alerts, marked)
  }

  // ---------------------------------------------------------------- runs

  /** `merges` says whether the database accepts the merge at the end of the handler. */
  datatype Event =
    | Seen(fp: Fingerprint, at: int, merges: bool)
    | Check(sightings: seq<Sighting>, now: int, timeout: int)
    | Clear(key: Key)

  /** `lost` are the alerts of the log whose handlers did not get to merge. */
  datatype State = State(store: Store, alerted: set<Key>, log: seq<Alert>, lost: seq<Alert>)

  /** The alerts an event raises. */
  function Raised(db: Columns, s: State, e: Event): seq<Alert> {
    match e
    case Seen(fp, _, _) =>
      (match KeyOf(db, fp)
       case None => []
       case Some(key) => Detect(key, fp, Lookup(s.store, key)))
    case Check(sightings, now, timeout) => CheckSightings(sightings, now, timeout, s.alerted).0
    case Clear(_) => []
  }

  function Handled(s: State, key: Key, fp: Fingerprint, at: int, merges: bool): State {
    var alerts := Detect(key, fp, Lookup(s.store, key));
    State(if merges then Upsert(s.store, ObservationOf(key, fp, at)).0 else s.store,
          if key in s.store then s.alerted - {key} else s.alerted,
          s.log + alerts, if merges then s.lost else s.lost + alerts)
  }

  function Next(db: Columns, s: State, e: Event): State {
    match e
    case Seen(fp, at, merges) =>
      (match KeyOf(db, fp)
       case None => s
       case Some(key) => Handled(s, key, fp, at, merges))
    case Check(sightings, now, timeout) =>
      s.(alerted := CheckSightings(sightings, now, timeout, s.alerted).1, log := s.log + Raised(db, s, e))
    case Clear(key) => s.(alerted := s.alerted - {key})
  }

  const EMPTY := State(map[], {}, [], [])

  function Run(db: Columns, events: seq<Event>): State {
    if events == [] then EMPTY else Next(db, Run(db, events[..|events| - 1]), events[|events| - 1])
  }

  /** A fingerprint whose looked-up addresses a column refuses has no effect; one that carries no hardware address
      has the placeholder looked up in its place.  Any other alerts a device that is not stored yet, and leaves
      it stored if the merge is accepted. */
  lemma HandledIff(db: Columns, s: State, fp: Fingerprint, at: int, merges: bool)
    ensures forall m, i :: KeyOf(db, fp) == Some(Key(m, i)) <==>
              && db.mac(if fp.mac == None || fp.mac == Some("") then "unknown" else fp.mac.value) == Some(m)
              && db.ip(if fp.ip == None || fp.ip == Some("") then fp.sourceAddress else fp.ip.value) == Some(i)
    ensures KeyOf(db, fp).None? ==> Raised(db, s, Seen(fp, at, merges)) == [] && Next(db, s, Seen(fp, at, merges)) == s
    ensures KeyOf(db, fp).Some? && merges ==>
              KeyOf(db, fp).value in Next(db, s, Seen(fp, at, merges)).store
    ensures KeyOf(db, fp).Some? && KeyOf(db, fp).value !in s.store ==> Raised(db, s, Seen(fp, at, merges)) != []
  {
  }

  ghost predicate KnownProtocols(events: seq<Event>) {
    forall i :: 0 <= i < |events| && events[i].Seen? ==> events[i].fp.protocol in KNOWN
  }

  /** The fingerprint is merged into the record of `key`. */
  predicate MergedInto(db: Columns, e: Event, key: Key) {
    e.Seen? && e.merges && KeyOf(db, e.fp) == Some(key)
  }

  /** The protocols of the fingerprints of a device, in the order they arrived. */
  function ProtocolsSeen(db: Columns, events: seq<Event>, key: Key): seq<string> {
    if events == [] then []
    else
      var earlier, last := ProtocolsSeen(db, events[..|events| - 1], key), events[|events| - 1];
      if MergedInto(db, last, key) then earlier + [last.fp.protocol] else earlier
  }

  function Count(log: seq<Alert>, wanted: Alert -> bool): nat {
    if log == [] then 0 else Count(log[..|log| - 1], wanted) + if wanted(log[|log| - 1]) then 1 else 0
  }

  function IsNewDevice(key: Key): Alert -> bool {
    (a: Alert) => a.NewDevice? && a.key == key
  }

  function IsNewProtocol(key: Key, p: string): Alert -> bool {
    (a: Alert) => a.NewProtocol? && a.key == key && a.protocol == p
  }

  lemma {:induction false} CountConcat(a: seq<Alert>, b: seq<Alert>, wanted: Alert -> bool)
    ensures Count(a + b, wanted) == Count(a, wanted) + Count(b, wanted)
    decreases |b|
  {
    if b == [] {
      assert a + b == a;
    } else {
      assert (a + b)[..|a + b| - 1] == a + b[..|b| - 1];
      CountConcat(a, b[..|b| - 1], wanted);
    }
  }

  lemma CountOne(a: Alert, wanted: Alert -> bool)
    ensures Count([a], wanted) == if wanted(a) then 1 else 0
  {
    assert [a][..0] == [];
  }

  lemma CountAtMostOne(log: seq<Alert>, wanted: Alert -> bool)
    requires |log| <= 1
    ensures Count(log, wanted) == if log != [] && wanted(log[0]) then 1 else 0
  {
    if log != [] { CountOne(log[0], wanted); assert log == [log[0]]; }
  }

  lemma {:induction false} ChecksRaiseOnlyDisappearances(sightings: seq<Sighting>, now: int, timeout: int,
                                                         alerted: set<Key>, wanted: Alert -> bool)
    requires forall key :: !wanted(DeviceDisappeared(key))
    ensures Count(CheckSightings(sightings, now, timeout, alerted).0, wanted) == 0
  {
    if sightings != [] {
      var init, last := sightings[..|sightings| - 1], sightings[|sightings| - 1];
      ChecksRaiseOnlyDisappearances(init, now, timeout, alerted, wanted);
      var alerts := CheckSightings(init, now, timeout, alerted).0;
      CountConcat(alerts, [DeviceDisappeared(last.key)], wanted);
      CountOne(DeviceDisappeared(last.key), wanted);
    }
  }

  /** How many alerts of a kind one handled fingerprint raises. */
  lemma DetectCounts(of: Key, fp: Fingerprint, existing: Option<Record>, key: Key, p: string)
    ensures Count(Detect(of, fp, existing), IsNewDevice(key)) == if existing.None? && of == key then 1 else 0
    ensures Count(Detect(of, fp, existing), IsNewProtocol(key, p))
              == if existing.Some? && of == key && fp.protocol == p && p != "" && p !in existing.value.protocols
                 then 1 else 0
  {
    hide Count;
    match existing {
      case None =>
        CountOne(NewDevice(of, fp.protocol), IsNewDevice(key));
        CountOne(NewDevice(of, fp.protocol), IsNewProtocol(key, p));
      case Some(d) =>
        var f, n := FirmwareAlert(of, fp, d), ProtocolAlert(of, fp, d);
        CountConcat(f, n, IsNewDevice(key));
        CountConcat(f, n, IsNewProtocol(key, p));
        CountAtMostOne(f, IsNewDevice(key));
        CountAtMostOne(f, IsNewProtocol(key, p));
        CountAtMostOne(n, IsNewDevice(key));
        CountAtMostOne(n, IsNewProtocol(key, p));
    }
  }

  ghost predicate GoodList(protocols: seq<string>) {
    protocols != [] && Distinct(protocols) && forall q :: q in protocols ==> q in KNOWN
  }

  /** What the store and the log say about one device and protocol. */
  ghost predicate Exact(s: State, key: Key, p: string) {
    && (key in s.store ==> GoodList(s.store[key].protocols))
    && Count(s.log, IsNewDevice(key)) == Count(s.lost, IsNewDevice(key)) + (if key in s.store then 1 else 0)
    && Count(s.log, IsNewProtocol(key, p))
         == Count(s.lost, IsNewProtocol(key, p))
            + (if key in s.store && p in s.store[key].protocols && p != s.store[key].protocols[0] then 1 else 0)
  }

  /** With four known protocols the limit of twenty is out of reach. */
  lemma FewProtocols(protocols: seq<string>)
    requires Distinct(protocols) && forall q :: q in protocols ==> q in KNOWN
    ensures |protocols| <= 4
  {
    DistinctSize(protocols);
    var elements := set q | q in protocols;
    assert elements <= KNOWN;
    SubsetSize(elements, KNOWN);
    KnownSize();
  }

  lemma KnownSize()
    ensures |KNOWN| <= 4
  {
    assert KNOWN == {"modbus_tcp"} + {"ethernetip"} + {"s7comm"} + {"dnp3"};
  }

  lemma SubsetSize(a: set<string>, b: set<string>)
    requires a <= b
    ensures |a| <= |b|
  {
    assert b == a + (b - a);
  }

  lemma {:induction false} DistinctSize(s: seq<string>)
    requires Distinct(s)
    ensures |set q | q in s| == |s|
  {
    if s != [] {
      var n := |s| - 1;
      DistinctSize(s[..n]);
      assert s == s[..n] + [s[n]];
      assert (set q | q in s) == (set q | q in s[..n]) + {s[n]};
      assert s[n] !in s[..n];
    }
  }

  /** Handling one fingerprint of a stored device appends its protocol, if missing. */
  lemma MergeOneProtocol(d: Record, o: Observation)
    requires Distinct(d.protocols) && (forall q :: q in d.protocols ==> q in KNOWN)
    requires |o.protocols| == 1 && o.protocols[0] in KNOWN
    ensures var p := o.protocols[0];
            Merge(d, o).record.protocols == if p in d.protocols then d.protocols else d.protocols + [p]
  {
    FewProtocols(d.protocols);
    assert o.protocols[1..] == [];
    assert NewProtocols(d.protocols, o.protocols[1..]) == [];
    assert NewProtocols(d.protocols, o.protocols) == if o.protocols[0] in d.protocols then [] else [o.protocols[0]];
  }

  lemma ExactStep(db: Columns, s: State, e: Event, key: Key, p: string)
    requires Exact(s, key, p) && (e.Seen? ==> e.fp.protocol in KNOWN)
    ensures Exact(Next(db, s, e), key, p)
  {
    match e {
      case Seen(fp, at, merges) =>
        if KeyOf(db, fp).Some? { HandledExact(s, KeyOf(db, fp).value, fp, at, merges, key, p); }
      case Check(sightings, now, timeout) =>
        CountConcat(s.log, Raised(db, s, e), IsNewDevice(key));
        CountConcat(s.log, Raised(db, s, e), IsNewProtocol(key, p));
        ChecksRaiseOnlyDisappearances(sightings, now, timeout, s.alerted, IsNewDevice(key));
        ChecksRaiseOnlyDisappearances(sightings, now, timeout, s.alerted, IsNewProtocol(key, p));
      case Clear(_) =>
    }
  }

  lemma HandledExact(s: State, of: Key, fp: Fingerprint, at: int, merges: bool, key: Key, p: string)
    requires Exact(s, key, p) && fp.protocol in KNOWN
    ensures Exact(Handled(s, of, fp, at, merges), key, p)
  {
    var alerts := Detect(of, fp, Lookup(s.store, of));
    CountConcat(s.log, alerts, IsNewDevice(key));
    CountConcat(s.log, alerts, IsNewProtocol(key, p));
    CountConcat(s.lost, alerts, IsNewDevice(key));
    CountConcat(s.lost, alerts, IsNewProtocol(key, p));
    hide Detect, Count;
    if merges {
      DetectCounts(of, fp, Lookup(s.store, of), key, p);
      if of == key { ExactSeen(s, fp, at, key); }
    }
  }

  lemma ExactSeen(s: State, fp: Fingerprint, at: int, key: Key)
    requires (key in s.store ==> GoodList(s.store[key].protocols)) && fp.protocol in KNOWN
    ensures var store := Upsert(s.store, ObservationOf(key, fp, at)).0;
            && key in store
            && store[key].protocols == (if key !in s.store then [fp.protocol]
                                        else if fp.protocol in s.store[key].protocols then s.store[key].protocols
                                        else s.store[key].protocols + [fp.protocol])
            && GoodList(store[key].protocols)
  {
    assert fp.protocol != "";
    if key in s.store {
      MergeOneProtocol(s.store[key], ObservationOf(key, fp, at));
      DistinctConcat(s.store[key].protocols, [fp.protocol]);
    }
  }

  lemma {:induction false} RunExact(db: Columns, events: seq<Event>, key: Key, p: string)
    requires KnownProtocols(events)
    ensures Exact(Run(db, events), key, p)
  {
    if events != [] {
      var init, last := events[..|events| - 1], events[|events| - 1];
      assert KnownProtocols(init);
      RunExact(db, init, key, p);
      ExactStep(db, Run(db, init), last, key, p);
    }
  }

  /** What the stored protocol list of a device records. */
  lemma {:induction false} StoredProtocols(db: Columns, events: seq<Event>, key: Key, p: string)
    requires KnownProtocols(events)
    ensures var store, seen := Run(db, events).store, ProtocolsSeen(db, events, key);
            && (key in store <==> seen != [])
            && (key in store ==> store[key].protocols != [] && store[key].protocols[0] == seen[0])
            && (key in store ==> (p in store[key].protocols <==> p in seen))
  {
    hide Detect, KeyOf, Count, Distinct, Merge, Created;
    if events != [] {
      var n := |events| - 1;
      var init, last := events[..n], events[n];
      assert KnownProtocols(init);
      StoredProtocols(db, init, key, p);
      RunExact(db, init, key, p);
      if MergedInto(db, last, key) {
        ExactSeen(Run(db, init), last.fp, last.at, key);
      }
    }
  }

  ghost predicate AllMerge(events: seq<Event>) {
    forall i :: 0 <= i < |events| && events[i].Seen? ==> events[i].merges
  }

  /** The alert log, exactly: over any run a device raised one new-device alert if it was ever stored, one
      new-protocol alert for each protocol it was stored with other than the first, and beyond these only
      the alerts of handlers whose merge the database refused. */
  lemma ExactAlertLog(db: Columns, events: seq<Event>, key: Key, p: string)
    requires KnownProtocols(events)
    ensures var log, lost, seen := Run(db, events).log, Run(db, events).lost, ProtocolsSeen(db, events, key);
            && Count(log, IsNewDevice(key)) == (if seen == [] then 0 else 1) + Count(lost, IsNewDevice(key))
            && Count(log, IsNewProtocol(key, p))
                 == (if p in seen && p != seen[0] then 1 else 0) + Count(lost, IsNewProtocol(key, p))
    ensures AllMerge(events) ==> Run(db, events).lost == []
  {
    RunExact(db, events, key, p);
    StoredProtocols(db, events, key, p);
    if AllMerge(events) { NothingLost(db, events); }
  }

  lemma {:induction false} NothingLost(db: Columns, events: seq<Event>)
    requires AllMerge(events)
    ensures Run(db, events).lost == []
  {
    if events != [] { NothingLost(db, events[..|events| - 1]); }
  }

  // ---------------------------------------------------------------- firmware

  /** The observations that reach the inventory. */
  function Observations(db: Columns, events: seq<Event>): seq<Observation> {
    if events == [] then []
    else
      var last := events[|events| - 1];
      Observations(db, events[..|events| - 1]) +
        if last.Seen? && last.merges && KeyOf(db, last.fp).Some?
        then [ObservationOf(KeyOf(db, last.fp).value, last.fp, last.at)] else []
  }

  lemma {:induction false} StoreIsFold(db: Columns, events: seq<Event>)
    ensures Run(db, events).store == UpsertAll(Observations(db, events))
  {
    if events != [] {
      hide Upsert, Detect;
      var init, last := events[..|events| - 1], events[|events| - 1];
      StoreIsFold(db, init);
      if last.Seen? && last.merges && KeyOf(db, last.fp).Some? {
        assert Observations(db, events)[..|Observations(db, init)|] == Observations(db, init);
      } else {
        assert Observations(db, events) == Observations(db, init);
      }
    }
  }

  // ---------------------------------------------------------------- the stored device

  /** What a fingerprint says of a fill-once attribute. */
  function Carried(fp: Fingerprint, field: Field): Option<string> {
    match field
    case Vendor => fp.vendor
    case Model => fp.model
    case Firmware => fp.firmware
    case DeviceType => fp.deviceType
    case _ => None
  }

  /** `value` is what the first fingerprint merged into the record of `key` that says anything of the attribute
      says of it. */
  ghost predicate FirstCarried(db: Columns, events: seq<Event>, key: Key, field: Field, value: Option<string>) {
    match value
    case None => forall i :: 0 <= i < |events| && MergedInto(db, events[i], key) ==> Carried(events[i].fp, field).None?
    case Some(v) => exists i :: CarriedFirstAt(db, events, key, field, i, v)
  }

  ghost predicate CarriedFirstAt(db: Columns, events: seq<Event>, key: Key, field: Field, i: nat, v: string) {
    && i < |events| && MergedInto(db, events[i], key) && Carried(events[i].fp, field) == Some(v)
    && forall j :: 0 <= j < i && MergedInto(db, events[j], key) ==> Carried(events[j].fp, field).None?
  }

  /** The latest fingerprint merged into the record of `key` came at `at`. */
  ghost predicate MergedLastAt(db: Columns, events: seq<Event>, key: Key, i: nat, at: int) {
    && i < |events| && MergedInto(db, events[i], key) && events[i].at == at
    && forall j :: i < j < |events| ==> !MergedInto(db, events[j], key)
  }

  ghost predicate EverMerged(db: Columns, events: seq<Event>, key: Key) {
    exists i :: 0 <= i < |events| && MergedInto(db, events[i], key)
  }

  lemma FirstCarriedExtend(db: Columns, events: seq<Event>, key: Key, field: Field, value: Option<string>, e: Event)
    requires FirstCarried(db, events, key, field, value)
    ensures FirstCarried(db, events + [e], key, field,
                         if MergedInto(db, e, key) then Fill(value, Carried(e.fp, field)) else value)
  {
    hide KeyOf, Carried;
    var longer := events + [e];
    assert longer[|events|] == e;
    match value {
      case None =>
        if MergedInto(db, e, key) && Carried(e.fp, field).Some? {
          assert CarriedFirstAt(db, longer, key, field, |events|, Carried(e.fp, field).value);
        }
      case Some(v) =>
        var i :| CarriedFirstAt(db, events, key, field, i, v);
        assert CarriedFirstAt(db, longer, key, field, i, v);
    }
  }

  lemma EverMergedExtend(db: Columns, events: seq<Event>, key: Key, e: Event)
    ensures EverMerged(db, events + [e], key) <==> EverMerged(db, events, key) || MergedInto(db, e, key)
  {
    hide MergedInto;
    var longer := events + [e];
    assert longer[|events|] == e;
    if i :| 0 <= i < |events| && MergedInto(db, events[i], key) { assert longer[i] == events[i]; }
  }

  /** What merging one fingerprint leaves in the store. */
  lemma MergeStores(store: Store, key: Key, fp: Fingerprint, at: int, field: Field)
    requires FillOnce(field)
    ensures var after := Upsert(store, ObservationOf(key, fp, at)).0;
            && key in after && after[key].lastSeen == at
            && (forall k :: k != key ==> (k in after <==> k in store) && (k in store ==> after[k] == store[k]))
            && Attribute(after[key], field)
                 == Fill(if key in store then Attribute(store[key], field) else None, Carried(fp, field))
            && after[key].ip == (if key in store then store[key].ip else key.ip)
  {
  }

  lemma StoreStep(db: Columns, s: State, e: Event, key: Key, field: Field)
    requires FillOnce(field)
    ensures var before, after := s.store, Next(db, s, e).store;
            if MergedInto(db, e, key) then
              && key in after && after[key].lastSeen == e.at
              && Attribute(after[key], field)
                   == Fill(if key in before then Attribute(before[key], field) else None, Carried(e.fp, field))
              && after[key].ip == (if key in before then before[key].ip else key.ip)
            else (key in after <==> key in before) && (key in before ==> after[key] == before[key])
  {
    hide Upsert, Carried, Attribute, Detect, CheckSightings, ObservationOf;
    if e.Seen? && e.merges && KeyOf(db, e.fp).Some? {
      MergeStores(s.store, KeyOf(db, e.fp).value, e.fp, e.at, field);
    }
  }

  /** What the store says of a device agrees with the events. */
  ghost predicate Tells(db: Columns, events: seq<Event>, store: Store, key: Key, field: Field) {
    && (key in store <==> EverMerged(db, events, key))
    && (key in store ==> FirstCarried(db, events, key, field, Attribute(store[key], field)))
    && (key in store ==> store[key].ip == key.ip)
    && (key in store ==> exists i :: MergedLastAt(db, events, key, i, store[key].lastSeen))
  }

  lemma TellsStep(db: Columns, events: seq<Event>, s: State, e: Event, key: Key, field: Field)
    requires FillOnce(field) && Tells(db, events, s.store, key, field)
    ensures Tells(db, events + [e], Next(db, s, e).store, key, field)
  {
    StoreStep(db, s, e, key, field);
    EverMergedExtend(db, events, key, e);
    NothingCarried(db, events, key, field);
    hide MergedInto, Carried, Attribute, Next, FirstCarried, EverMerged, MergedLastAt, Fill;
    var value := if key in s.store then Attribute(s.store[key], field) else None;
    FirstCarriedExtend(db, events, key, field, value, e);
    LastMergedExtend(db, events, key, e, if key in s.store then s.store[key].lastSeen else 0);
  }

  lemma {:induction false} StoredField(db: Columns, events: seq<Event>, key: Key, field: Field)
    requires FillOnce(field)
    ensures Tells(db, events, Run(db, events).store, key, field)
  {
    if events != [] {
      hide Tells, Next;
      var n := |events| - 1;
      StoredField(db, events[..n], key, field);
      assert events == events[..n] + [events[n]];
      TellsStep(db, events[..n], Run(db, events[..n]), events[n], key, field);
    }
  }

  lemma NothingCarried(db: Columns, events: seq<Event>, key: Key, field: Field)
    ensures !EverMerged(db, events, key) ==> FirstCarried(db, events, key, field, None)
  {
  }

  lemma LastMergedExtend(db: Columns, events: seq<Event>, key: Key, e: Event, at: int)
    ensures MergedInto(db, e, key) ==> exists i :: MergedLastAt(db, events + [e], key, i, e.at)
    ensures !MergedInto(db, e, key) && (exists i :: MergedLastAt(db, events, key, i, at)) ==>
              exists i :: MergedLastAt(db, events + [e], key, i, at)
  {
    hide KeyOf;
    var longer := events + [e];
    assert longer[|events|] == e;
    if MergedInto(db, e, key) { assert MergedLastAt(db, longer, key, |events|, e.at); }
    if !MergedInto(db, e, key) && exists i :: MergedLastAt(db, events, key, i, at) {
      var i :| MergedLastAt(db, events, key, i, at);
      assert MergedLastAt(db, longer, key, i, at);
    }
  }

  /** The stored device in terms of the events alone: it is there exactly if a fingerprint was merged into its
      record; vendor, model, firmware version and device type are each what the first of them that says anything
      says, it was last seen with the last of them, and its address is the one it is stored under. */
  lemma StoredDevice(db: Columns, events: seq<Event>, key: Key)
    ensures key in Run(db, events).store <==> EverMerged(db, events, key)
    ensures key in Run(db, events).store ==>
              var d := Run(db, events).store[key];
              && FirstCarried(db, events, key, Vendor, d.vendor)
              && FirstCarried(db, events, key, Model, d.model)
              && FirstCarried(db, events, key, Firmware, d.firmware)
              && FirstCarried(db, events, key, DeviceType, d.deviceType)
              && d.ip == key.ip
              && exists i :: MergedLastAt(db, events, key, i, d.lastSeen)
  {
    hide Run, FirstCarried, EverMerged, MergedLastAt;
    StoredField(db, events, key, Vendor);
    StoredField(db, events, key, Model);
    StoredField(db, events, key, Firmware);
    StoredField(db, events, key, DeviceType);
  }

  // ---------------------------------------------------------------- alerts in terms of the events

  lemma FirstCarriedUnique(db: Columns, events: seq<Event>, key: Key, field: Field, a: Option<string>,
                           b: Option<string>)
    requires FirstCarried(db, events, key, field, a)
    ensures FirstCarried(db, events, key, field, b) <==> a == b
  {
    hide MergedInto, Carried;
    if FirstCarried(db, events, key, field, b) && a.Some? && b.Some? {
      var i :| CarriedFirstAt(db, events, key, field, i, a.value);
      var j :| CarriedFirstAt(db, events, key, field, j, b.value);
      assert i == j;
    }
  }

  /** After any run, a fingerprint raises a firmware-change alert exactly when it carries a version and the first
      fingerprint merged into the record of its device that carried one carried another. */
  lemma FirmwareAlertIff(db: Columns, events: seq<Event>, e: Event, key: Key, previous: string, current: string)
    requires e.Seen?
    ensures FirmwareChange(key, previous, current) in Raised(db, Run(db, events), e) <==>
              && KeyOf(db, e.fp) == Some(key) && e.fp.firmware == Some(current) && previous != current
              && FirstCarried(db, events, key, Firmware, Some(previous))
  {
    hide FirstCarried, Run, KeyOf, EverMerged, MergedLastAt;
    var s, fp := Run(db, events), e.fp;
    StoredDevice(db, events, key);
    if KeyOf(db, fp) == Some(key) {
      if key in s.store {
        FirstCarriedUnique(db, events, key, Firmware, s.store[key].firmware, Some(previous));
        assert Raised(db, s, e) == FirmwareAlert(key, fp, s.store[key]) + ProtocolAlert(key, fp, s.store[key]);
      } else {
        NothingCarried(db, events, key, Firmware);
        FirstCarriedUnique(db, events, key, Firmware, None, Some(previous));
      }
    }
  }

  /** A fingerprint raises a new-device alert exactly when none was merged under its addresses yet, and a
      new-protocol alert exactly when some were, none of them with its protocol. */
  lemma NewAlertsIff(db: Columns, events: seq<Event>, e: Event, key: Key, p: string)
    requires e.Seen? && KnownProtocols(events)
    ensures NewDevice(key, p) in Raised(db, Run(db, events), e) <==>
              KeyOf(db, e.fp) == Some(key) && e.fp.protocol == p && !EverMerged(db, events, key)
    ensures forall existing :: NewProtocol(key, p, existing) in Raised(db, Run(db, events), e) <==>
              && key in Run(db, events).store && existing == Run(db, events).store[key].protocols
              && KeyOf(db, e.fp) == Some(key) && e.fp.protocol == p && p != ""
              && forall i :: 0 <= i < |events| && MergedInto(db, events[i], key) ==> events[i].fp.protocol != p
  {
    hide FirstCarried, Run, KeyOf, EverMerged, MergedLastAt, MergedInto;
    var s, fp := Run(db, events), e.fp;
    StoredDevice(db, events, key);
    StoredProtocols(db, events, key, p);
    SeenAre(db, events, key, p);
    if KeyOf(db, fp) == Some(key) && key in s.store {
      var alerts := Raised(db, s, e);
      assert alerts == FirmwareAlert(key, fp, s.store[key]) + ProtocolAlert(key, fp, s.store[key]);
      if fp.protocol != "" && fp.protocol !in s.store[key].protocols {
        assert alerts[|alerts| - 1] == NewProtocol(key, fp.protocol, s.store[key].protocols);
      }
    }
  }

  lemma {:induction false} SeenAre(db: Columns, events: seq<Event>, key: Key, p: string)
    ensures p in ProtocolsSeen(db, events, key) <==>
              exists i :: 0 <= i < |events| && MergedInto(db, events[i], key) && events[i].fp.protocol == p
  {
    hide KeyOf;
    if events != [] {
      var n := |events| - 1;
      SeenAre(db, events[..n], key, p);
      assert events == events[..n] + [events[n]];
      if i :| 0 <= i < n && MergedInto(db, events[..n][i], key) && events[..n][i].fp.protocol == p {
        assert events[i] == events[..n][i];
      }
    }
  }

  // ---------------------------------------------------------------- disappearance

  /** A check alerts exactly the listed devices that are overdue and not alerted yet, once each. */
  lemma {:induction false} CheckExact(sightings: seq<Sighting>, now: int, timeout: int, alerted: set<Key>, key: Key)
    ensures var (alerts, marked) := CheckSightings(sightings, now, timeout, alerted);
            && (key in marked <==> key in alerted || Overdue(sightings, now, timeout, key))
            && Count(alerts, (a: Alert) => a == DeviceDisappeared(key))
                 == (if key !in alerted && Overdue(sightings, now, timeout, key) then 1 else 0)
  {
    if sightings != [] {
      var n := |sightings| - 1;
      var init, last := sightings[..n], sightings[n];
      CheckExact(init, now, timeout, alerted, key);
      assert Overdue(sightings, now, timeout, key) <==>
             Overdue(init, now, timeout, key) || (last.key == key && now - last.lastSeen > timeout) by {
        assert sightings == init + [last];
      }
      var alerts := CheckSightings(init, now, timeout, alerted).0;
      assert (alerts + [DeviceDisappeared(last.key)])[..|alerts|] == alerts;
    }
  }

  ghost predicate Overdue(sightings: seq<Sighting>, now: int, timeout: int, key: Key) {
    exists i :: 0 <= i < |sightings| && sightings[i].key == key && now - sightings[i].lastSeen > timeout
  }

  /** The event re-detects a stored device, or clears its state explicitly. */
  ghost predicate Revives(db: Columns, s: State, e: Event, key: Key) {
    (e.Seen? && KeyOf(db, e.fp) == Some(key) && key in s.store) || e == Clear(key)
  }

  lemma {:induction false} RaisedDisappearances(sightings: seq<Sighting>, now: int, timeout: int,
                                                alerted: set<Key>, key: Key)
    ensures DeviceDisappeared(key) in CheckSightings(sightings, now, timeout, alerted).0 ==> key !in alerted
    ensures DeviceDisappeared(key) in CheckSightings(sightings, now, timeout, alerted).0 ==>
              key in CheckSightings(sightings, now, timeout, alerted).1
    ensures alerted <= CheckSightings(sightings, now, timeout, alerted).1
  {
    if sightings != [] { RaisedDisappearances(sightings[..|sightings| - 1], now, timeout, alerted, key); }
  }

  lemma KeepsAlerted(db: Columns, s: State, e: Event, key: Key)
    requires key in s.alerted && !Revives(db, s, e, key)
    ensures key in Next(db, s, e).alerted
  {
    hide Upsert, Detect, CheckSightings;
    if e.Check? { RaisedDisappearances(e.sightings, e.now, e.timeout, s.alerted, key); }
  }

  lemma {:induction false} StaysAlerted(db: Columns, events: seq<Event>, i: nat, j: nat, key: Key)
    requires i <= j <= |events| && key in Run(db, events[..i]).alerted
    requires forall m :: i <= m < j ==> !Revives(db, Run(db, events[..m]), events[m], key)
    ensures key in Run(db, events[..j]).alerted
    decreases j
  {
    hide Next, Revives;
    if i < j {
      StaysAlerted(db, events, i, j - 1, key);
      assert events[..j][..j - 1] == events[..j - 1];
      KeepsAlerted(db, Run(db, events[..j - 1]), events[j - 1], key);
    }
  }

  /** Event `i` of the run raises a disappearance alert for the device. */
  ghost predicate Disappears(db: Columns, events: seq<Event>, i: nat, key: Key) {
    i < |events| && DeviceDisappeared(key) in Raised(db, Run(db, events[..i]), events[i])
  }

  ghost predicate RevivedBetween(db: Columns, events: seq<Event>, i: nat, j: nat, key: Key) {
    exists m :: i < m < j <= |events| && Revives(db, Run(db, events[..m]), events[m], key)
  }

  /** Between two disappearance alerts of one device it was re-detected or explicitly cleared. */
  lemma NoRepeatedDisappearance(db: Columns, events: seq<Event>, i: nat, j: nat, key: Key)
    ensures i < j && Disappears(db, events, i, key) && Disappears(db, events, j, key) ==>
              RevivedBetween(db, events, i, j, key)
  {
    if i < j && Disappears(db, events, i, key) && Disappears(db, events, j, key) {
      var s, e, t, f := Run(db, events[..i]), events[i], Run(db, events[..j]), events[j];
      OnlyChecksDisappear(db, s, e, key);
      OnlyChecksDisappear(db, t, f, key);
      RaisedDisappearances(e.sightings, e.now, e.timeout, s.alerted, key);
      RaisedDisappearances(f.sightings, f.now, f.timeout, t.alerted, key);
      assert events[..i + 1][..i] == events[..i];
      assert Run(db, events[..i + 1]) == Next(db, s, e);
      if !RevivedBetween(db, events, i, j, key) {
        StaysAlerted(db, events, i + 1, j, key);
      }
    }
  }

  lemma AlertedStep(db: Columns, s: State, e: Event, key: Key)
    ensures key in Next(db, s, e).alerted <==>
              (key in s.alerted && !Revives(db, s, e, key))
              || (e.Check? && Overdue(e.sightings, e.now, e.timeout, key))
  {
    hide Upsert, Detect, CheckSightings, KeyOf, Overdue;
    if e.Check? { CheckExact(e.sightings, e.now, e.timeout, s.alerted, key); }
  }

  /** Event `i` found the device overdue, and nothing revived it from then until before event `n`. */
  ghost predicate OverdueSince(db: Columns, events: seq<Event>, i: nat, n: nat, key: Key) {
    && i < n <= |events| && events[i].Check? && Overdue(events[i].sightings, events[i].now, events[i].timeout, key)
    && forall m :: i < m < n ==> !Revives(db, Run(db, events[..m]), events[m], key)
  }

  lemma {:induction false} AlertedExactly(db: Columns, events: seq<Event>, n: nat, key: Key)
    requires n <= |events|
    ensures key in Run(db, events[..n]).alerted <==> exists i :: OverdueSince(db, events, i, n, key)
    decreases n
  {
    if n > 0 {
      hide Next, Revives, Overdue;
      var k: nat := n - 1;
      AlertedExactly(db, events, k, key);
      assert events[..n][..k] == events[..k];
      AlertedStep(db, Run(db, events[..k]), events[k], key);
      hide Run, OverdueSince;
      OverdueNext(db, events, k, n, key);
    }
  }

  lemma OverdueNext(db: Columns, events: seq<Event>, k: nat, n: nat, key: Key)
    requires k < |events| && n == k + 1
    ensures (exists i :: OverdueSince(db, events, i, n, key)) <==>
              || ((exists i :: OverdueSince(db, events, i, k, key))
                  && !Revives(db, Run(db, events[..k]), events[k], key))
              || (events[k].Check? && Overdue(events[k].sightings, events[k].now, events[k].timeout, key))
  {
    hide Revives, Overdue, Run;
    if i: nat :| OverdueSince(db, events, i, k, key) && !Revives(db, Run(db, events[..k]), events[k], key) {
      assert OverdueSince(db, events, i, n, key);
    }
    if events[k].Check? && Overdue(events[k].sightings, events[k].now, events[k].timeout, key) {
      assert OverdueSince(db, events, k, n, key);
    }
    if i: nat :| OverdueSince(db, events, i, n, key) {
      if i < k { assert OverdueSince(db, events, i, k, key); }
    }
  }

  /** A disappearance alert, exactly: an event raises one for a device if and only if it is a check that finds the
      device overdue, and since every earlier such check the device was re-detected or explicitly cleared. */
  lemma DisappearsIff(db: Columns, events: seq<Event>, n: nat, key: Key)
    requires n < |events|
    ensures Disappears(db, events, n, key) <==>
              && events[n].Check? && Overdue(events[n].sightings, events[n].now, events[n].timeout, key)
              && forall i :: !OverdueSince(db, events, i, n, key)
  {
    var s, e := Run(db, events[..n]), events[n];
    AlertedExactly(db, events, n, key);
    if e.Check? {
      hide Overdue, OverdueSince, Run, CheckSightings;
      CheckExact(e.sightings, e.now, e.timeout, s.alerted, key);
      CountIn(Raised(db, s, e), DeviceDisappeared(key));
    } else {
      hide Overdue, OverdueSince, Run;
      if Disappears(db, events, n, key) { OnlyChecksDisappear(db, s, e, key); }
    }
  }

  lemma {:induction false} CountIn(log: seq<Alert>, alert: Alert)
    ensures alert in log <==> Count(log, (a: Alert) => a == alert) > 0
  {
    if log != [] {
      CountIn(log[..|log| - 1], alert);
      assert log == log[..|log| - 1] + [log[|log| - 1]];
    }
  }

  lemma OnlyChecksDisappear(db: Columns, s: State, e: Event, key: Key)
    requires DeviceDisappeared(key) in Raised(db, s, e)
    ensures e.Check?
  {
  }
}
