/**
 * The S7comm parser: peeling TPKT (section 6 of RFC 1006) and COTP (section 13.7 of RFC 905), then
 * reading device identity out of system status list (SZL) records.
 *
 * The record loops overwrite an identity dictionary in order, and the component loop runs twice.
 * `OfModules` and `OfComponents` say what that amounts to without any order of assignment: which
 * record of the sequence each field comes from.
 */
module S7comm {
  import opened Bytes
  import opened PaddedText

  // ---------------------------------------------------------------- records

  datatype Record = Record(index: nat, name: Option<string>, extra: Option<string>)

  /** The widths of the two text fields behind a record's 16-bit index. */
  datatype Shape = Shape(name: nat, extra: nat) {
    function Size(): nat { 2 + name + extra }
  }

  const MODULE := Shape(20, 6)
  const COMPONENT := Shape(24, 8)

  function RecordAt(records: Packet, offset: nat, shape: Shape): Record
    requires offset + shape.Size() <= |records|
  {
    var extra := offset + 2 + shape.name;
    Record(Word16(records, offset),
           DecodeNullPadded(records[offset + 2..extra]),
           DecodeNullPadded(records[extra..extra + shape.extra]))
  }

  /** All whole records from `offset` on. */
  function RecordsFrom(records: Packet, offset: nat, shape: Shape): seq<Record>
    decreases |records| - offset
  {
    if offset + shape.Size() > |records| then []
    else [RecordAt(records, offset, shape)] + RecordsFrom(records, offset + shape.Size(), shape)
  }

  function EncodeRecord(r: Record, shape: Shape): (bytes: Packet)
    requires Encodable(r, shape)
    ensures |bytes| == shape.Size()
  {
    PackWord16(r.index) + (EncodePadded(r.name, shape.name) + EncodePadded(r.extra, shape.extra))
  }

  predicate Encodable(r: Record, shape: Shape) {
    r.index < 0x1_0000 && Fits(r.name, shape.name) && Fits(r.extra, shape.extra)
  }

  function EncodeRecords(rs: seq<Record>, shape: Shape): Packet
    requires forall i :: 0 <= i < |rs| ==> Encodable(rs[i], shape)
  {
    if rs == [] then [] else EncodeRecord(rs[0], shape) + EncodeRecords(rs[1..], shape)
  }

  lemma RecordDecoded(records: Packet, offset: nat, r: Record, shape: Shape)
    requires Encodable(r, shape) && At(records, offset, EncodeRecord(r, shape))
    ensures offset + shape.Size() <= |records| && RecordAt(records, offset, shape) == r
  {
    hide DecodeNullPadded, EncodePadded, Fits;
    var index, name, extra := PackWord16(r.index), EncodePadded(r.name, shape.name), EncodePadded(r.extra, shape.extra);
    AtSplit(records, offset, index, name + extra);
    AtSplit(records, offset + 2, name, extra);
    AtByte(records, offset, index, 0);
    AtByte(records, offset, index, 1);
    DecodePadded(r.name, shape.name);
    DecodePadded(r.extra, shape.extra);
  }

  /** Round trip of a record list; what is left behind it is shorter than a record. */
  lemma {:induction false} RecordsDecoded(records: Packet, offset: nat, rs: seq<Record>, shape: Shape)
    requires forall i :: 0 <= i < |rs| ==> Encodable(rs[i], shape)
    requires At(records, offset, EncodeRecords(rs, shape))
    requires |records| - (offset + |EncodeRecords(rs, shape)|) < shape.Size()
    ensures RecordsFrom(records, offset, shape) == rs
    decreases |rs|
  {
    hide RecordAt, EncodeRecord, Encodable;
    if rs != [] {
      AtSplit(records, offset, EncodeRecord(rs[0], shape), EncodeRecords(rs[1..], shape));
      RecordDecoded(records, offset, rs[0], shape);
      RecordsDecoded(records, offset + shape.Size(), rs[1..], shape);
      assert rs == [rs[0]] + rs[1..];
    }
  }

  // ---------------------------------------------------------------- which record wins

  /** A way to take a value from records with one index. */
  datatype Pick = Name(index: nat) | Extra(index: nat) | Either(index: nat) | Version(index: nat)

  function OrElse<T>(first: Option<T>, second: Option<T>): Option<T> {
    if first.Some? then first else second
  }

  function Value(p: Pick, r: Record): Option<string> {
    if r.index != p.index then None
    else
      match p
      case Name(_) => r.name
      case Extra(_) => r.extra
      case Either(_) => OrElse(r.name, r.extra)
      case Version(_) => if r.name.Some? && LooksLikeVersion(r.name.value) then r.name else None
  }

  function First(rs: seq<Record>, p: Pick): Option<string> {
    if rs == [] then None else OrElse(First(rs[..|rs| - 1], p), Value(p, rs[|rs| - 1]))
  }

  function Last(rs: seq<Record>, p: Pick): Option<string> {
    if rs == [] then None else OrElse(Value(p, rs[|rs| - 1]), Last(rs[..|rs| - 1], p))
  }

  ghost predicate FirstAt(rs: seq<Record>, p: Pick, i: nat, v: string) {
    i < |rs| && Value(p, rs[i]) == Some(v) && forall j :: 0 <= j < i ==> Value(p, rs[j]) == None
  }

  ghost predicate LastAt(rs: seq<Record>, p: Pick, i: nat, v: string) {
    i < |rs| && Value(p, rs[i]) == Some(v) && forall j :: i < j < |rs| ==> Value(p, rs[j]) == None
  }

  lemma {:induction false} FirstIsFirst(rs: seq<Record>, p: Pick)
    ensures forall v :: First(rs, p) == Some(v) <==> exists i :: FirstAt(rs, p, i, v)
    ensures First(rs, p) == None <==> forall i :: 0 <= i < |rs| ==> Value(p, rs[i]) == None
    decreases |rs|
  {
    hide Value;
    if rs != [] {
      var init, last := rs[..|rs| - 1], |rs| - 1;
      FirstIsFirst(init, p);
      assert forall i :: 0 <= i < last ==> init[i] == rs[i];
      assert forall i: nat, v :: i < last ==> (FirstAt(init, p, i, v) <==> FirstAt(rs, p, i, v));
      forall v ensures First(rs, p) == Some(v) <==> exists i :: FirstAt(rs, p, i, v) {
        if First(rs, p) == Some(v) && First(init, p) == None {
          assert FirstAt(rs, p, last, v);
        }
        if i: nat :| FirstAt(rs, p, i, v) {
          if i < last { assert FirstAt(init, p, i, v); }
        }
      }
    }
  }

  lemma {:induction false} LastIsLast(rs: seq<Record>, p: Pick)
    ensures forall v :: Last(rs, p) == Some(v) <==> exists i :: LastAt(rs, p, i, v)
    ensures Last(rs, p) == None <==> forall i :: 0 <= i < |rs| ==> Value(p, rs[i]) == None
    decreases |rs|
  {
    hide Value;
    if rs != [] {
      var init, last := rs[..|rs| - 1], |rs| - 1;
      LastIsLast(init, p);
      assert forall i :: 0 <= i < last ==> init[i] == rs[i];
      assert Value(p, rs[last]) == None ==>
          forall i: nat, v :: i < last ==> (LastAt(init, p, i, v) <==> LastAt(rs, p, i, v));
      forall v ensures Last(rs, p) == Some(v) <==> exists i :: LastAt(rs, p, i, v) {
        if Value(p, rs[last]) == Some(v) { assert LastAt(rs, p, last, v); }
        if i: nat :| LastAt(rs, p, i, v) {
          if i < last {
            assert Value(p, rs[last]) == None;
            assert LastAt(init, p, i, v);
          }
        }
      }
    }
  }

  /** A first value stays first whatever follows. */
  lemma {:induction false} FirstStays(rs: seq<Record>, more: seq<Record>, p: Pick)
    requires First(rs, p).Some?
    ensures First(rs + more, p) == First(rs, p)
    decreases |more|
  {
    if more == [] {
      assert rs + more == rs;
    } else {
      assert (rs + more)[..|rs + more| - 1] == rs + more[..|more| - 1];
      FirstStays(rs, more[..|more| - 1], p);
    }
  }

  lemma Extended(rs: seq<Record>, r: Record, p: Pick)
    ensures First(rs + [r], p) == OrElse(First(rs, p), Value(p, r))
    ensures Last(rs + [r], p) == OrElse(Value(p, r), Last(rs, p))
  {
    assert (rs + [r])[..|rs|] == rs;
  }

  datatype Identity = Identity(plcType: Option<string>, moduleName: Option<string>,
                               firmwareVersion: Option<string>, serialNumber: Option<string>)

  const UNKNOWN := Identity(None, None, None, None)

  function OfModules(rs: seq<Record>): Identity {
    Identity(Last(rs, Name(1)), Last(rs, Name(2)), Last(rs, Either(3)), Last(rs, Extra(1)))
  }

  function OfComponents(rs: seq<Record>): Identity {
    Identity(OrElse(Last(rs, Name(1)), First(rs, Name(7))),
             Last(rs, Name(2)),
             OrElse(First(rs, Extra(2)), First(rs, Version(4))),
             OrElse(Last(rs, Either(5)), First(rs, Either(9))))
  }

  // ---------------------------------------------------------------- the record loops

  lemma RecordsStep(records: Packet, done: seq<Record>, offset: nat, shape: Shape, all: seq<Record>)
    requires all == done + RecordsFrom(records, offset, shape)
    ensures offset + shape.Size() > |records| ==> all == done
    ensures offset + shape.Size() <= |records| ==>
              all == done + [RecordAt(records, offset, shape)] + RecordsFrom(records, offset + shape.Size(), shape)
  {
    hide RecordAt;
    var rest := RecordsFrom(records, offset, shape);
    if offset + shape.Size() > |records| {
      assert rest == [];
    } else {
      assert rest == [RecordAt(records, offset, shape)] + RecordsFrom(records, offset + shape.Size(), shape);
    }
  }

  /** What one module record changes. */
  function WithModule(was: Identity, r: Record): Identity {
    Identity(OrElse(Value(Name(1), r), was.plcType),
             OrElse(Value(Name(2), r), was.moduleName),
             OrElse(Value(Either(3), r), was.firmwareVersion),
             OrElse(Value(Extra(1), r), was.serialNumber))
  }

  lemma ModulesExtended(rs: seq<Record>, r: Record)
    ensures OfModules(rs + [r]) == WithModule(OfModules(rs), r)
  {
    hide Value, First, Last, OrElse;
    Extended(rs, r, Name(1));
    Extended(rs, r, Name(2));
    Extended(rs, r, Either(3));
    Extended(rs, r, Extra(1));
  }

  method NoteModule(was: Identity, r: Record) returns (identity: Identity)
    ensures identity == WithModule(was, r)
  {
    identity := was;
    if r.index == 1 {
      if r.name.Some? { identity := identity.(plcType := r.name); }
      if r.extra.Some? { identity := identity.(serialNumber := r.extra); }
    } else if r.index == 2 {
      if r.name.Some? { identity := identity.(moduleName := r.name); }
    } else if r.index == 3 {
      if r.name.Some? {
        identity := identity.(firmwareVersion := r.name);
      } else if r.extra.Some? {
        identity := identity.(firmwareVersion := r.extra);
      }
    }
  }

  method ParseSzl0011(records: Packet) returns (identity: Identity)
    ensures identity == OfModules(RecordsFrom(records, 0, MODULE))
  {
    identity := UNKNOWN;
    var offset := 0;
    ghost var done: seq<Record> := [];
    ghost var all := RecordsFrom(records, 0, MODULE);
    assert OfModules(done) == UNKNOWN;
    hide RecordAt, RecordsFrom, OfModules, WithModule;
    while offset + 28 <= |records|
      invariant identity == OfModules(done)
      invariant all == done + RecordsFrom(records, offset, MODULE)
      decreases |records| - offset
    {
      var r := RecordAt(records, offset, MODULE);
      ModulesExtended(done, r);
      RecordsStep(records, done, offset, MODULE, all);
      identity := NoteModule(identity, r);
      done := done + [r];
      offset := offset + 28;
    }
    RecordsStep(records, done, offset, MODULE, all);
  }

  /** Where the first component pass stands after `rs`: everything but the firmware version. */
  function FirstPass(rs: seq<Record>): Identity {
    OfComponents(rs).(firmwareVersion := None)
  }

  /** What one component record changes in the first pass. */
  function WithComponent(was: Identity, r: Record): Identity {
    Identity(OrElse(Value(Name(1), r), OrElse(was.plcType, Value(Name(7), r))),
             OrElse(Value(Name(2), r), was.moduleName),
             was.firmwareVersion,
             OrElse(Value(Either(5), r), OrElse(was.serialNumber, Value(Either(9), r))))
  }

  lemma FirstPassExtended(rs: seq<Record>, r: Record)
    ensures FirstPass(rs + [r]) == WithComponent(FirstPass(rs), r)
  {
    hide Value, First, Last;
    Extended(rs, r, Name(1));
    Extended(rs, r, Name(7));
    Extended(rs, r, Name(2));
    Extended(rs, r, Either(5));
    Extended(rs, r, Either(9));
  }

  method NoteComponent(was: Identity, r: Record) returns (identity: Identity)
    ensures identity == WithComponent(was, r)
  {
    identity := was;
    if r.index == 1 {
      if r.name.Some? { identity := identity.(plcType := r.name); }
    } else if r.index == 2 {
      if r.name.Some? { identity := identity.(moduleName := r.name); }
    } else if r.index == 5 {
      if r.name.Some? {
        identity := identity.(serialNumber := r.name);
      } else if r.extra.Some? {
        identity := identity.(serialNumber := r.extra);
      }
    } else if r.index == 7 {
      if r.name.Some? && identity.plcType.None? { identity := identity.(plcType := r.name); }
    } else if r.index == 9 {
      if identity.serialNumber.None? {
        if r.name.Some? {
          identity := identity.(serialNumber := r.name);
        } else if r.extra.Some? {
          identity := identity.(serialNumber := r.extra);
        }
      }
    }
  }

  method FirstScan(records: Packet) returns (identity: Identity)
    ensures identity == FirstPass(RecordsFrom(records, 0, COMPONENT))
  {
    identity := UNKNOWN;
    var offset := 0;
    ghost var done: seq<Record> := [];
    ghost var all := RecordsFrom(records, 0, COMPONENT);
    assert FirstPass(done) == UNKNOWN;
    hide RecordAt, RecordsFrom, FirstPass, WithComponent;
    while offset + 34 <= |records|
      invariant identity == FirstPass(done)
      invariant all == done + RecordsFrom(records, offset, COMPONENT)
      decreases |records| - offset
    {
      var r := RecordAt(records, offset, COMPONENT);
      FirstPassExtended(done, r);
      RecordsStep(records, done, offset, COMPONENT, all);
      identity := NoteComponent(identity, r);
      done := done + [r];
      offset := offset + 34;
    }
    RecordsStep(records, done, offset, COMPONENT, all);
  }

  /** The second scan stops at the first component record with extra text at index 2. */
  method FirmwareScan(records: Packet) returns (firmware: Option<string>)
    ensures firmware == OfComponents(RecordsFrom(records, 0, COMPONENT)).firmwareVersion
  {
    firmware := None;
    var offset := 0;
    ghost var done: seq<Record> := [];
    ghost var all := RecordsFrom(records, 0, COMPONENT);
    assert First(done, Extra(2)) == None && First(done, Version(4)) == None;
    hide RecordAt, RecordsFrom, First, Last;
    while offset + 34 <= |records|
      invariant First(done, Extra(2)) == None && firmware == First(done, Version(4))
      invariant all == done + RecordsFrom(records, offset, COMPONENT)
      decreases |records| - offset
    {
      var r := RecordAt(records, offset, COMPONENT);
      Extended(done, r, Extra(2));
      Extended(done, r, Version(4));
      RecordsStep(records, done, offset, COMPONENT, all);
      if r.index == 2 && r.extra.Some? {
        FirstStays(done + [r], RecordsFrom(records, offset + 34, COMPONENT), Extra(2));
        return r.extra;
      } else if r.index == 4 && firmware.None? {
        if r.name.Some? && LooksLikeVersion(r.name.value) { firmware := r.name; }
      }
      done := done + [r];
      offset := offset + 34;
    }
    RecordsStep(records, done, offset, COMPONENT, all);
  }

  method ParseSzl001c(records: Packet) returns (identity: Identity)
    ensures identity == OfComponents(RecordsFrom(records, 0, COMPONENT))
  {
    hide First, Last, RecordsFrom;
    identity := FirstScan(records);
    var firmware := FirmwareScan(records);
    identity := identity.(firmwareVersion := firmware);
  }

  // ---------------------------------------------------------------- which record and which text, spelled out

  function NameOf(r: Record): Option<string> { r.name }

  function ExtraOf(r: Record): Option<string> { r.extra }

  function NameOrExtra(r: Record): Option<string> {
    if r.name.Some? then r.name else r.extra
  }

  function VersionName(r: Record): Option<string> {
    if r.name.Some? && LooksLikeVersion(r.name.value) then r.name else None
  }

  /** `v` is the text of the last record with the index that has one. */
  ghost predicate OfLast(rs: seq<Record>, index: nat, text: Record -> Option<string>, v: string) {
    exists i :: && 0 <= i < |rs| && rs[i].index == index && text(rs[i]) == Some(v)
                && forall j :: i < j < |rs| && rs[j].index == index ==> text(rs[j]) == None
  }

  /** `v` is the text of the first record with the index that has one. */
  ghost predicate OfFirst(rs: seq<Record>, index: nat, text: Record -> Option<string>, v: string) {
    exists i :: && 0 <= i < |rs| && rs[i].index == index && text(rs[i]) == Some(v)
                && forall j :: 0 <= j < i && rs[j].index == index ==> text(rs[j]) == None
  }

  ghost predicate OfNone(rs: seq<Record>, index: nat, text: Record -> Option<string>) {
    forall i :: 0 <= i < |rs| && rs[i].index == index ==> text(rs[i]) == None
  }

  ghost predicate Takes(p: Pick, index: nat, text: Record -> Option<string>) {
    forall r: Record :: Value(p, r) == if r.index == index then text(r) else None
  }

  lemma LastTakes(rs: seq<Record>, p: Pick, index: nat, text: Record -> Option<string>, v: string)
    requires Takes(p, index, text)
    ensures Last(rs, p) == Some(v) <==> OfLast(rs, index, text, v)
    ensures Last(rs, p) == None <==> OfNone(rs, index, text)
  {
    LastIsLast(rs, p);
    hide Value, Last;
    if i: nat :| LastAt(rs, p, i, v) { assert Value(p, rs[i]) == Some(v); }
    if OfLast(rs, index, text, v) {
      var i :| && 0 <= i < |rs| && rs[i].index == index && text(rs[i]) == Some(v)
               && forall j :: i < j < |rs| && rs[j].index == index ==> text(rs[j]) == None;
      assert LastAt(rs, p, i, v);
    }
  }

  lemma FirstTakes(rs: seq<Record>, p: Pick, index: nat, text: Record -> Option<string>, v: string)
    requires Takes(p, index, text)
    ensures First(rs, p) == Some(v) <==> OfFirst(rs, index, text, v)
    ensures First(rs, p) == None <==> OfNone(rs, index, text)
  {
    FirstIsFirst(rs, p);
    hide Value, First;
    if i: nat :| FirstAt(rs, p, i, v) { assert Value(p, rs[i]) == Some(v); }
    if OfFirst(rs, index, text, v) {
      var i :| && 0 <= i < |rs| && rs[i].index == index && text(rs[i]) == Some(v)
               && forall j :: 0 <= j < i && rs[j].index == index ==> text(rs[j]) == None;
      assert FirstAt(rs, p, i, v);
    }
  }

  /** The identity of a module list, spelled out: the PLC type is the name of the last index-1 record that has one,
      the module name that of the last index-2 record, the firmware version the name, else the extra text, of the
      last index-3 record, and the serial number the extra text of the last index-1 record. */
  lemma ModulesExactly(rs: seq<Record>, v: string)
    ensures OfModules(rs).plcType == Some(v) <==> OfLast(rs, 1, NameOf, v)
    ensures OfModules(rs).moduleName == Some(v) <==> OfLast(rs, 2, NameOf, v)
    ensures OfModules(rs).firmwareVersion == Some(v) <==> OfLast(rs, 3, NameOrExtra, v)
    ensures OfModules(rs).serialNumber == Some(v) <==> OfLast(rs, 1, ExtraOf, v)
  {
    hide Last, OfLast, OfNone;
    LastTakes(rs, Name(1), 1, NameOf, v);
    LastTakes(rs, Name(2), 2, NameOf, v);
    LastTakes(rs, Either(3), 3, NameOrExtra, v);
    LastTakes(rs, Extra(1), 1, ExtraOf, v);
  }

  /** The identity of a component list, spelled out: the PLC type is the name of the last index-1 record that has
      one, else of the first index-7 record; the module name that of the last index-2 record; the firmware version
      the extra text of the first index-2 record that has one, else the first version-like index-4 name; the serial
      number the name, else the extra text, of the last index-5 record that has either, else of the first such
      index-9 record. */
  lemma ComponentsExactly(rs: seq<Record>, v: string)
    ensures OfComponents(rs).plcType == Some(v) <==>
              OfLast(rs, 1, NameOf, v) || (OfNone(rs, 1, NameOf) && OfFirst(rs, 7, NameOf, v))
    ensures OfComponents(rs).moduleName == Some(v) <==> OfLast(rs, 2, NameOf, v)
    ensures OfComponents(rs).firmwareVersion == Some(v) <==>
              OfFirst(rs, 2, ExtraOf, v) || (OfNone(rs, 2, ExtraOf) && OfFirst(rs, 4, VersionName, v))
    ensures OfComponents(rs).serialNumber == Some(v) <==>
              OfLast(rs, 5, NameOrExtra, v) || (OfNone(rs, 5, NameOrExtra) && OfFirst(rs, 9, NameOrExtra, v))
  {
    hide Last, First, OfLast, OfFirst, OfNone, LooksLikeVersion;
    LastTakes(rs, Name(1), 1, NameOf, v);
    FirstTakes(rs, Name(7), 7, NameOf, v);
    LastTakes(rs, Name(2), 2, NameOf, v);
    FirstTakes(rs, Extra(2), 2, ExtraOf, v);
    FirstTakes(rs, Version(4), 4, VersionName, v);
    LastTakes(rs, Either(5), 5, NameOrExtra, v);
    FirstTakes(rs, Either(9), 9, NameOrExtra, v);
  }

  /** Where the fields of a record stand: a big-endian index, then 20 and 6 bytes of text in a module record, 24 and
      8 in a component record; record follows record. */
  lemma RecordLayout(records: Packet, offset: nat)
    ensures offset + 28 <= |records| ==>
              RecordsFrom(records, offset, MODULE) ==
                [Record(256 * records[offset] as nat + records[offset + 1] as nat,
                        DecodeNullPadded(records[offset + 2..offset + 22]),
                        DecodeNullPadded(records[offset + 22..offset + 28]))]
                + RecordsFrom(records, offset + 28, MODULE)
    ensures offset + 34 <= |records| ==>
              RecordsFrom(records, offset, COMPONENT) ==
                [Record(256 * records[offset] as nat + records[offset + 1] as nat,
                        DecodeNullPadded(records[offset + 2..offset + 26]),
                        DecodeNullPadded(records[offset + 26..offset + 34]))]
                + RecordsFrom(records, offset + 34, COMPONENT)
    ensures offset + 28 > |records| ==> RecordsFrom(records, offset, MODULE) == []
    ensures offset + 34 > |records| ==> RecordsFrom(records, offset, COMPONENT) == []
  {
    hide DecodeNullPadded;
  }
}
