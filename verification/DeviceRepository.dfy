/**
 * The device repository as objects: device records assigned field by field, their bounded history,
 * and the table indexed by its unique (mac, ip) pair.
 */
module DeviceRepositories {
  import opened Bytes
  import opened Csv
  import opened Audit
  import opened Inventory
  import opened TypedColumns

  class Device {
    var mac: string
    var ip: string
    var vendor: Option<string>
    var model: Option<string>
    var firmware: Option<string>
    var deviceType: Option<string>
    var protocols: seq<string>
    var fingerprint: Option<string>
    var lastSeen: int
    var history: History
    ghost var recorded: History
    ghost var dropped: History

    constructor (o: Observation)
      ensures mac == o.key.mac && ip == o.key.ip && Value() == Created(o) && Valid() && recorded == []
    {
      mac, ip, vendor, model, firmware := o.key.mac, o.key.ip, o.vendor, o.model, o.firmware;
      deviceType, protocols, fingerprint, lastSeen := o.deviceType, o.protocols, o.fingerprint, o.at;
      history, recorded, dropped := [], [], [];
    }

    function Value(): Record
      reads this
    {
      Record(ip, vendor, model, firmware, deviceType, protocols, fingerprint, lastSeen)
    }

    /** The stored history is the latest thousand of everything ever recorded. */
    ghost predicate Valid()
      reads this
    {
      LatestKept(recorded, history, dropped)
    }

    /** Removes the oldest entries beyond the limit. */
    method EnforceHistoryLimit() returns (ghost gone: History)
      modifies this`history
      ensures Trimmed(old(history), history, gone)
    {
      gone := [];
      ghost var before := history;
      while |history| > MAX_HISTORY
        invariant multiset(before) == multiset(history) + multiset(gone)
        invariant forall d, k :: d in gone && k in history ==> d.at <= k.at
        invariant if |before| > MAX_HISTORY then |history| >= MAX_HISTORY else history == before && gone == []
        decreases |history|
      {
        var i := OldestIndex(history);
        RemoveOldest(before, history, gone, i);
        gone := gone + [history[i]];
        history := history[..i] + history[i + 1..];
      }
    }

    method RecordHistory(field: Field, before: Option<string>, after: Option<string>, at: int)
      requires Valid()
      modifies this`history, this`recorded, this`dropped
      ensures Valid() && recorded == old(recorded) + [Entry(field, before, after, at)]
    {
      ghost var kept := history;
      var entry := Entry(field, before, after, at);
      history := history + [entry];
      ghost var gone := EnforceHistoryLimit();
      LatestKeptStep(recorded, kept, dropped, entry, history, gone);
      recorded := recorded + [entry];
      dropped := dropped + gone;
    }

    /** Fills one attribute if it is null, with its history entry. */
    method FillNull(field: Field, given: Option<string>, at: int)
      requires Valid() && FillOnce(field)
      modifies this`vendor, this`model, this`firmware, this`deviceType, this`history, this`recorded, this`dropped
      ensures Valid() && Value() == FilledOne(old(Value()), field, given)
      ensures recorded == old(recorded) + FillEntry(field, Attribute(old(Value()), field), given, at)
    {
      hide LatestKept;
      var current := Attribute(Value(), field);
      assert recorded + [] == recorded;
      if current.None? && given.Some? {
        RecordHistory(field, current, given, at);
        match field {
          case Vendor => vendor := given;
          case Model => model := given;
          case Firmware => firmware := given;
          case DeviceType => deviceType := given;
          case _ =>
        }
      }
    }

    /** The protocol half of a merge. */
    method AddProtocols(o: Observation) returns (limit: bool)
      requires Valid()
      modifies this`protocols, this`history, this`recorded, this`dropped
      ensures Valid()
      ensures var missing := NewProtocols(old(protocols), o.protocols);
              var all := old(protocols) + missing;
              && limit == (missing != [] && |all| > MAX_PROTOCOLS)
              && protocols == (if limit then old(protocols) else all)
              && recorded == old(recorded) + (if missing == [] || limit then []
                                              else [Entry(Protocols, Render(old(protocols)), Some(Join(all)), o.at)])
    {
      hide NewProtocols, Render, Join, LatestKept;
      var missing := NewProtocols(protocols, o.protocols);
      assert recorded + [] == recorded && protocols + [] == protocols;
      limit := false;
      if missing != [] {
        var all := protocols + missing;
        if |all| > MAX_PROTOCOLS { return true; }
        var before := Render(protocols);
        protocols := all;
        RecordHistory(Protocols, before, Some(Join(all)), o.at);
      }
    }

    /** The attribute half of a merge. */
    method FillAttributes(o: Observation)
      requires Valid()
      modifies this`lastSeen, this`vendor, this`model, this`firmware, this`deviceType,
               this`history, this`recorded, this`dropped
      ensures Valid() && Value() == Filled(old(Value()), o)
      ensures recorded == old(recorded) + FillEntries(old(Value()), o)
    {
      hide LatestKept, FillEntry, FillEntries, FilledOne, Filled, Attribute;
      ghost var d, log := Value(), recorded;
      lastSeen := o.at;
      FillNull(Vendor, o.vendor, o.at);
      FillNull(Model, o.model, o.at);
      FillNull(Firmware, o.firmware, o.at);
      FillNull(DeviceType, o.deviceType, o.at);
      FourFills(d, o, log);
    }

    /** Fills what is null, adds missing protocols; `limit` reports the protocol-limit exception. */
    method Merge(o: Observation) returns (limit: bool)
      requires Valid()
      modifies this
      ensures Valid() && mac == old(mac) && ip == old(ip)
      ensures var merged := Inventory.Merge(old(Value()), o);
              Value() == merged.record && recorded == old(recorded) + merged.entries && limit == merged.limit
    {
      hide LatestKept, NewProtocols, FillEntries, Render, Join;
      ghost var d, log := Value(), recorded;
      FillAttributes(o);
      ghost var missing, added := NewProtocols(d.protocols, o.protocols), [];
      limit := AddProtocols(o);
      if missing != [] && !limit {
        added := [Entry(Protocols, Render(d.protocols), Some(Join(d.protocols + missing)), o.at)];
      }
      Concat(log, FillEntries(d, o), added, [], []);
      assert missing == [] ==> d.protocols + missing == d.protocols;
      if limit { return; }
      if fingerprint.None? && o.fingerprint.Some? {
        fingerprint := o.fingerprint;
      }
    }

    /** An explicit change: overwrites, and always records history. */
    method UpdateAttribute(db: Columns, field: Field, value: Option<string>, at: int) returns (refused: bool)
      requires Valid()
      modifies this
      ensures Valid() && mac == old(mac) && ip == Value().ip
      ensures var op := Update(field, value, at);
              && refused == Refused(db, op)
              && Value() == Apply(db, old(Value()), op).0
              && recorded == old(recorded) + Apply(db, old(Value()), op).1
    {
      hide LatestKept, Render, ParseCsv, Stored;
      var before := Attribute(Value(), field);
      refused := Refused(db, Update(field, value, at));
      if refused {
        assert recorded == recorded + [];
        return;
      }
      var stored := if value.Some? then Stored(db, field, value.value) else None;
      match field {
        case Vendor => vendor := stored;
        case Model => model := stored;
        case Firmware => firmware := stored;
        case DeviceType => deviceType := stored;
        case Protocols => protocols := if value.Some? then ParseCsv(value.value) else [];
        case IpAddress => ip := stored.value;
      }
      RecordHistory(field, before, value, at);
    }
  }

  lemma Concat(log: History, a: History, b: History, c: History, d: History)
    ensures log + a + b + c + d == log + (a + b + c + d)
    ensures b == [] && c == [] && d == [] ==> log + a + b == log + a
    ensures c == [] && d == [] ==> log + a + b == log + (a + b)
  {
  }

  /** One step of a merge. */
  function FilledOne(d: Record, field: Field, given: Option<string>): Record {
    match field
    case Vendor => d.(vendor := Fill(d.vendor, given))
    case Model => d.(model := Fill(d.model, given))
    case Firmware => d.(firmware := Fill(d.firmware, given))
    case DeviceType => d.(deviceType := Fill(d.deviceType, given))
    case _ => d
  }

  lemma FourFills(d: Record, o: Observation, log: History)
    ensures var d1 := FilledOne(d.(lastSeen := o.at), Vendor, o.vendor);
            var d2 := FilledOne(d1, Model, o.model);
            var d3 := FilledOne(d2, Firmware, o.firmware);
            && FilledOne(d3, DeviceType, o.deviceType) == Filled(d, o)
            && log + FillEntry(Vendor, Attribute(d.(lastSeen := o.at), Vendor), o.vendor, o.at)
                 + FillEntry(Model, Attribute(d1, Model), o.model, o.at)
                 + FillEntry(Firmware, Attribute(d2, Firmware), o.firmware, o.at)
                 + FillEntry(DeviceType, Attribute(d3, DeviceType), o.deviceType, o.at) == log + FillEntries(d, o)
  {
    hide FillEntry;
    Concat(log, FillEntry(Vendor, d.vendor, o.vendor, o.at), FillEntry(Model, d.model, o.model, o.at),
           FillEntry(Firmware, d.firmware, o.firmware, o.at), FillEntry(DeviceType, d.deviceType, o.deviceType, o.at));
  }

  /** The address a device has after an explicit update. */
  function AddressAfter(db: Columns, ip: string, field: Field, value: Option<string>): string {
    if field == IpAddress && value.Some? && db.ip(value.value).Some? then db.ip(value.value).value else ip
  }

  lemma UpdatedKey(db: Columns, d: Record, field: Field, value: Option<string>)
    ensures Updated(db, d, field, value).ip == AddressAfter(db, d.ip, field, value)
  {
  }

  method OldestIndex(entries: History) returns (i: nat)
    requires entries != []
    ensures i < |entries| && forall k :: 0 <= k < |entries| ==> entries[i].at <= entries[k].at
  {
    i := 0;
    for k := 1 to |entries|
      invariant i < |entries| && forall j :: 0 <= j < k ==> entries[i].at <= entries[j].at
    {
      if entries[k].at < entries[i].at { i := k; }
    }
  }

  lemma RemoveOldest(before: History, entries: History, gone: History, i: nat)
    requires multiset(before) == multiset(entries) + multiset(gone)
    requires forall d, k :: d in gone && k in entries ==> d.at <= k.at
    requires i < |entries| && forall k :: 0 <= k < |entries| ==> entries[i].at <= entries[k].at
    ensures var rest := entries[..i] + entries[i + 1..];
            && multiset(before) == multiset(rest) + multiset(gone + [entries[i]])
            && forall d, k :: d in gone + [entries[i]] && k in rest ==> d.at <= k.at
  {
    var rest := entries[..i] + entries[i + 1..];
    assert entries == entries[..i] + ([entries[i]] + entries[i + 1..]);
    assert multiset(entries) == multiset(rest) + multiset{entries[i]};
    assert forall k :: k in rest ==> k in entries;
  }

  datatype UpdateResult = Changed | Rejected | NotFound | Collides

  class DeviceRepository {
    const db: Columns
    var devices: map<Key, Device>

    /** The unique index: a device stands under its own address pair, so no two devices share one. */
    ghost predicate Valid()
      reads this, devices.Values
    {
      forall k :: k in devices ==> devices[k].mac == k.mac && devices[k].ip == k.ip && devices[k].Valid()
    }

    ghost function Contents(): (s: Store)
      reads this, devices.Values
      ensures s.Keys == devices.Keys
    {
      map k | k in devices :: devices[k].Value()
    }

    constructor (db: Columns)
      ensures Valid() && Contents() == map[] && this.db == db
    {
      this.db, devices := db, map[];
    }

    method GetDeviceByMacIp(key: Key) returns (device: Option<Record>)
      ensures device == if key in Contents() then Some(Contents()[key]) else None
    {
      device := None;
      if key in devices {
        device := Some(devices[key].Value());
      }
    }

    method CreateDevice(o: Observation) returns (result: Outcome)
      requires Valid()
      modifies this
      ensures Valid() && fresh(devices.Values - old(devices.Values))
      ensures result == if |o.protocols| > MAX_PROTOCOLS then LimitExceeded
                        else if o.key in old(devices) then Duplicate else IsNew
      ensures Contents() == if result == IsNew then old(Contents())[o.key := Created(o)] else old(Contents())
    {
      hide Device.Valid, Device.Value, Created;
      if |o.protocols| > MAX_PROTOCOLS { return LimitExceeded; }
      if o.key in devices { return Duplicate; }
      var device := new Device(o);
      ghost var before := devices;
      assert forall k :: k in before ==> before[k] in before.Values && before[k] != device;
      devices := devices[o.key := device];
      result := IsNew;
    }

    method UpsertDevice(o: Observation) returns (result: Outcome)
      requires Valid()
      modifies this, devices.Values
      ensures Valid() && fresh(devices.Values - old(devices.Values))
      ensures var (store, outcome) := Upsert(old(Contents()), o);
              Contents() == store && result == outcome
    {
      hide Inventory.Merge, Device.Valid, Device.Value, Created;
      if o.key !in devices {
        result := CreateDevice(o);
      } else {
        var device := devices[o.key];
        assert device in devices.Values;
        assert forall k :: k in devices && k != o.key ==> devices[k] != device by {
          assert forall k :: k in devices ==> devices[k].mac == k.mac && devices[k].ip == k.ip;
        }
        ghost var before := Contents();
        var limit := device.Merge(o);
        assert Contents() == before[o.key := device.Value()];
        result := if limit then LimitExceeded else ReDetected;
      }
    }

    /** An explicit change of one device; a new address moves it to another slot of the unique index,
        and is rejected by the index when that slot is taken. */
    method UpdateDeviceAttribute(key: Key, field: Field, value: Option<string>, at: int) returns (result: UpdateResult)
      requires Valid()
      modifies this, devices.Values
      ensures Valid()
      ensures result == NotFound <==> key !in old(devices)
      ensures result == Rejected <==> key in old(devices) && Refused(db, Update(field, value, at))
      ensures var key' := Key(key.mac, AddressAfter(db, key.ip, field, value));
              && (result == Collides <==>
                    key in old(devices) && !Refused(db, Update(field, value, at)) && key' in old(devices).Keys - {key})
              && (result == Changed ==>
                    Contents() == (old(Contents()) - {key})[key' := Updated(db, old(Contents())[key], field, value)])
      ensures result != Changed ==> Contents() == old(Contents())
    {
      hide Device.Valid, Updated, ParseCsv, Render, Refused, AddressAfter;
      if key !in devices { return NotFound; }
      if Refused(db, Update(field, value, at)) { return Rejected; }
      var device := devices[key];
      assert device in devices.Values;
      assert forall k :: k in devices && k != key ==> devices[k] != device by {
        assert forall k :: k in devices ==> devices[k].mac == k.mac && devices[k].ip == k.ip;
      }
      var key' := Key(key.mac, AddressAfter(db, key.ip, field, value));
      if key' != key && key' in devices { return Collides; }
      ghost var before := Contents();
      UpdatedKey(db, device.Value(), field, value);
      var refused := device.UpdateAttribute(db, field, value, at);
      ghost var updated := device.Value();
      assert forall k :: k in devices && k != key ==> devices[k].Value() == before[k];
      Reindex(key, key', before);
      result := Changed;
    }

    method Reindex(key: Key, key': Key, ghost before: Store)
      requires key in devices && key' !in devices.Keys - {key} && before.Keys == devices.Keys
      requires forall k :: k in devices && k != key ==>
                 && devices[k].mac == k.mac && devices[k].ip == k.ip && devices[k].Valid()
                 && devices[k].Value() == before[k]
      requires devices[key].mac == key'.mac && devices[key].ip == key'.ip && devices[key].Valid()
      modifies this
      ensures Valid()
      ensures Contents() == (before - {key})[key' := old(devices[key].Value())]
    {
      hide Device.Valid, Device.Value;
      var device := devices[key];
      ghost var value, was := device.Value(), devices;
      devices := (devices - {key})[key' := device];
      assert devices.Keys == (was.Keys - {key}) + {key'};
      assert devices[key'] == device && forall k :: k in devices && k != key' ==> devices[k] == was[k];
    }

    method DeleteDevice(key: Key) returns (found: bool)
      requires Valid()
      modifies this
      ensures Valid() && found == (key in old(devices))
      ensures Contents() == old(Contents()) - {key}
    {
      hide Device.Valid, Device.Value;
      if key !in devices { return false; }
      devices := devices - {key};
      found := true;
    }
  }
}
