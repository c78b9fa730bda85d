/**
 * The Modbus TCP parser: Read Device Identification responses (section 6.21 of the MODBUS Application
 * Protocol Specification V1.1b3).  UTF-8 decoding with replacement is a parameter; it never fails.
 */
module Modbus {
  import opened Bytes
  import opened LastWins
  import opened Text

  type Decoder = Packet -> string

  const HEADER: nat := 14
  const MAX_NAME: nat := 128
  const MAX_FIRMWARE: nat := 64

  datatype DeviceObject = DeviceObject(id: byte, value: Packet)

  // ---------------------------------------------------------------- the object list

  /** The objects that stand whole in `raw` from `offset` on, at most `count` of them. */
  function ReadObjects(raw: Packet, offset: nat, count: nat): (objects: seq<DeviceObject>)
    ensures |objects| <= count
    decreases count
  {
    if count == 0 || offset + 2 > |raw| then []
    else
      var end := offset + 2 + raw[offset + 1] as nat;
      if end > |raw| then []
      else [DeviceObject(raw[offset], raw[offset + 2..end])] + ReadObjects(raw, end, count - 1)
  }

  function EncodeObjects(objects: seq<DeviceObject>): Packet
    requires Sendable(objects)
  {
    if objects == [] then []
    else EncodeObject(objects[0]) + EncodeObjects(objects[1..])
  }

  function EncodeObject(o: DeviceObject): (bytes: Packet)
    requires |o.value| < 256
    ensures |bytes| == Span(o)
  {
    [o.id, |o.value| as byte] + o.value
  }

  predicate Sendable(objects: seq<DeviceObject>) {
    forall i :: 0 <= i < |objects| ==> |objects[i].value| < 256
  }

  /** The bytes one object takes. */
  function Span(o: DeviceObject): nat { 2 + |o.value| }

  /** How many of the objects lie whole in the first `room` bytes of their encoding. */
  function Whole(objects: seq<DeviceObject>, room: nat): (n: nat)
    ensures n <= |objects|
  {
    if objects == [] || Span(objects[0]) > room then 0 else 1 + Whole(objects[1..], room - Span(objects[0]))
  }

  /** `Whole` is the largest number of objects that fit. */
  lemma {:induction false} WholeIsLargest(objects: seq<DeviceObject>, room: nat)
    requires Sendable(objects)
    ensures var n := Whole(objects, room);
            && |EncodeObjects(objects[..n])| <= room
            && (n < |objects| ==> |EncodeObjects(objects[..n + 1])| > room)
    decreases |objects|
  {
    var n := Whole(objects, room);
    if n == 0 {
      assert objects[..0] == [];
      if objects != [] {
        assert objects[..1][1..] == [];
      }
    } else {
      WholeIsLargest(objects[1..], room - Span(objects[0]));
      assert objects[..n][1..] == objects[1..][..n - 1];
      if n < |objects| { assert objects[..n + 1][1..] == objects[1..][..n]; }
    }
  }

  lemma FrontOf(head: Packet, tail: Packet, rest: Packet)
    requires |head| >= 2
    ensures var bytes := head + tail + rest;
            && bytes[0] == head[0] && bytes[1] == head[1]
            && bytes[2..|head|] == head[2..] && bytes[|head|..] == tail + rest
  {
  }

  lemma FirstObject(objects: seq<DeviceObject>, rest: Packet)
    requires Sendable(objects) && objects != []
    ensures var bytes, span := EncodeObjects(objects) + rest, Span(objects[0]);
            && |bytes| >= span && bytes[0] == objects[0].id && bytes[1] as nat == |objects[0].value|
            && bytes[2..span] == objects[0].value && bytes[span..] == EncodeObjects(objects[1..]) + rest
  {
    var head, tail := EncodeObject(objects[0]), EncodeObjects(objects[1..]);
    assert EncodeObjects(objects) == head + tail;
    FrontOf(head, tail, rest);
    assert head[2..] == objects[0].value;
  }

  /** Reading an encoded list back, cut anywhere and with any declared count up to its length: the
      objects that lie whole before the cut.  What stands behind the list does not matter. */
  lemma {:induction false} ObjectsRead(raw: Packet, offset: nat, objects: seq<DeviceObject>, rest: Packet, count: nat,
                                      cut: nat)
    requires Sendable(objects) && offset <= |raw| && raw[offset..] == EncodeObjects(objects) + rest
    requires count <= |objects| && offset <= cut <= |raw|
    ensures ReadObjects(raw[..cut], offset, count) == objects[..Min(count, Whole(objects, cut - offset))]
    decreases count
  {
    hide EncodeObjects;
    if count > 0 {
      var first, end := objects[0], offset + Span(objects[0]);
      FirstObject(objects, rest);
      ObjectAt(raw, offset, end);
      if end <= cut {
        ObjectsRead(raw, end, objects[1..], rest, count - 1, cut);
        ObjectAt(raw[..cut], offset, end);
        assert raw[..cut][offset..end] == raw[offset..end];
        var n := Min(count, Whole(objects, cut - offset));
        assert objects[..n] == [first] + objects[1..][..n - 1];
      } else {
        assert offset + 2 <= cut ==> raw[..cut][offset + 1] == raw[offset + 1];
      }
    }
  }

  lemma ObjectAt(raw: Packet, offset: nat, end: nat)
    requires offset + 2 <= end <= |raw|
    ensures raw[offset] == raw[offset..][0] == raw[offset..end][0]
    ensures raw[offset + 1] == raw[offset..][1] == raw[offset..end][1]
    ensures raw[offset + 2..end] == raw[offset..][2..end - offset] == raw[offset..end][2..]
    ensures raw[end..] == raw[offset..][end - offset..]
  {
  }

  // ---------------------------------------------------------------- the dictionary

  function Clean(decode: Decoder, value: Packet): string {
    Strip(StripNuls(decode(value)))
  }

  /** `clean` is the text without the NULs around it, and then without the white space around that. */
  ghost predicate Cleaned(text: string, inner: string, clean: string) {
    && (exists a, d :: text == a + inner + d && AllNul(a) && AllNul(d))
    && (inner != "" ==> inner[0] != '\0' && inner[|inner| - 1] != '\0')
    && (exists b, c :: inner == b + clean + c && AllSpace(b) && AllSpace(c))
    && (clean == "" || CleanPart(clean))
  }

  lemma CleanExactly(decode: Decoder, value: Packet)
    ensures exists inner :: Cleaned(decode(value), inner, Clean(decode, value))
  {
    hide Strip, StripNuls, AllNul, AllSpace;
    var inner := StripNuls(decode(value));
    var a, d := StripNulsTakes(decode(value));
    var b, c := StripTakes(inner);
    assert Cleaned(decode(value), inner, Clean(decode, value));
  }

  /** The assignments the loop makes: objects 0x00 to 0x06, cleaned. */
  function Assignments(decode: Decoder, objects: seq<DeviceObject>): (pairs: seq<(byte, string)>) {
    if objects == [] then []
    else
      var (init, last) := (objects[..|objects| - 1], objects[|objects| - 1]);
      Assignments(decode, init) + if last.id <= 6 then [(last.id, Clean(decode, last.value))] else []
  }

  function Dictionary(decode: Decoder, objects: seq<DeviceObject>): map<byte, string> {
    Overlay(Assignments(decode, objects))
  }

  ghost predicate LastOfItsId(objects: seq<DeviceObject>, i: nat) {
    i < |objects| && forall j :: i < j < |objects| ==> objects[j].id != objects[i].id
  }

  /** The dictionary without any order of assignment: the standard identifiers that occur, each with
      the cleaned text of its last occurrence. */
  lemma {:induction false} DictionaryKeys(decode: Decoder, objects: seq<DeviceObject>)
    ensures forall id :: id in Dictionary(decode, objects) <==>
                           id <= 6 && exists i :: 0 <= i < |objects| && objects[i].id == id
    decreases |objects|
  {
    hide Clean, Dictionary;
    if objects == [] {
      EmptyDictionary(decode);
    } else {
      var init, last := objects[..|objects| - 1], objects[|objects| - 1];
      DictionaryKeys(decode, init);
      DictionaryExtended(decode, init, last);
      assert objects == init + [last];
      forall id ensures id in Dictionary(decode, objects) <==>
                          id <= 6 && exists i :: 0 <= i < |objects| && objects[i].id == id
      {
        if i :| 0 <= i < |init| && init[i].id == id { assert objects[i].id == id; }
      }
    }
  }

  lemma {:induction false} DictionaryIsLastWins(decode: Decoder, objects: seq<DeviceObject>, i: nat)
    requires LastOfItsId(objects, i) && objects[i].id <= 6
    ensures objects[i].id in Dictionary(decode, objects)
    ensures Dictionary(decode, objects)[objects[i].id] == Clean(decode, objects[i].value)
    decreases |objects|
  {
    hide Clean, Dictionary;
    var init, last := objects[..|objects| - 1], objects[|objects| - 1];
    DictionaryExtended(decode, init, last);
    assert objects == init + [last];
    if i < |init| {
      assert objects[|init|].id != objects[i].id;
      assert forall j :: 0 <= j < |init| ==> init[j] == objects[j];
      assert LastOfItsId(init, i);
      DictionaryIsLastWins(decode, init, i);
    }
  }

  lemma DictionaryExtended(decode: Decoder, objects: seq<DeviceObject>, last: DeviceObject)
    ensures Dictionary(decode, objects + [last]) ==
              if last.id <= 6 then Dictionary(decode, objects)[last.id := Clean(decode, last.value)]
              else Dictionary(decode, objects)
  {
    hide Clean, Overlay;
    assert (objects + [last])[..|objects|] == objects;
    OverlayExtend(Assignments(decode, objects), last.id, Clean(decode, last.value));
    assert Assignments(decode, objects) + [] == Assignments(decode, objects);
  }

  method ParseDeviceIdObjects(decode: Decoder, raw: Packet, offset: nat, numObjects: nat)
    returns (objects: map<byte, string>)
    ensures objects == Dictionary(decode, ReadObjects(raw, offset, numObjects))
  {
    hide Clean, Assignments;
    objects := map[];
    var current: nat := offset;
    ghost var done: seq<DeviceObject> := [];
    ghost var all := ReadObjects(raw, offset, numObjects);
    EmptyDictionary(decode);
    for i := 0 to numObjects
      invariant objects == Dictionary(decode, done)
      invariant all == done + ReadObjects(raw, current, numObjects - i)
    {
      if current + 2 > |raw| {
        assert all == done;
        break;
      }
      var id, length := raw[current], raw[current + 1] as nat;
      if current + 2 + length > |raw| {
        assert all == done;
        break;
      }
      ghost var o := DeviceObject(id, raw[current + 2..current + 2 + length]);
      ObjectStep(raw, current, numObjects - i, done, all);
      DictionaryExtended(decode, done, o);
      if id <= 6 {
        objects := objects[id := Clean(decode, raw[current + 2..current + 2 + length])];
      }
      done := done + [o];
      current := current + 2 + length;
    }
    assert done + [] == done;
  }

  lemma EmptyDictionary(decode: Decoder)
    ensures Dictionary(decode, []) == map[]
  {
  }

  lemma ObjectStep(raw: Packet, current: nat, count: nat, done: seq<DeviceObject>, all: seq<DeviceObject>)
    requires count > 0 && current + 2 <= |raw| && current + 2 + raw[current + 1] as nat <= |raw|
    requires all == done + ReadObjects(raw, current, count)
    ensures var end := current + 2 + raw[current + 1] as nat;
            all == (done + [DeviceObject(raw[current], raw[current + 2..end])]) + ReadObjects(raw, end, count - 1)
  {
  }

  // ---------------------------------------------------------------- the fingerprint

  datatype Fingerprint = Fingerprint(vendor: Option<string>, model: Option<string>, firmware: Option<string>,
                                     complete: bool, unitId: byte, deviceIdCode: byte, conformity: byte,
                                     objects: map<byte, string>)

  predicate Filled(objects: map<byte, string>, id: byte) { id in objects && objects[id] != "" }

  predicate Truthy(text: Option<string>) { text.Some? && text.value != "" }

  function BuildParseResult(objects: map<byte, string>, unitId: byte, deviceIdCode: byte, conformity: byte)
    : (r: Option<Fingerprint>)
    ensures r.None? <==> objects == map[]
    ensures r.Some? ==> Storable(r.value) && r.value.objects == objects
    ensures r.Some? ==> r.value.unitId == unitId && r.value.deviceIdCode == deviceIdCode
    ensures r.Some? ==> r.value.conformity == conformity
    ensures r.Some? ==> Shows(r.value.vendor, objects, 0, 128) && Shows(r.value.firmware, objects, 2, 64)
    ensures r.Some? ==> Shows(r.value.model, objects, if Filled(objects, 5) then 5 else 1, 128)
    ensures r.Some? ==> (r.value.complete <==>
              Filled(objects, 0) && Filled(objects, 2) && (Filled(objects, 5) || Filled(objects, 1)))
  {
    if objects == map[] then None
    else
      var vendor := Truncate(Lookup(objects, 0), MAX_NAME);
      var name := Lookup(objects, 5);
      var model := Truncate(if Truthy(name) then name else Lookup(objects, 1), MAX_NAME);
      var firmware := Truncate(Lookup(objects, 2), MAX_FIRMWARE);
      Some(Fingerprint(vendor, model, firmware, Truthy(vendor) && Truthy(model) && Truthy(firmware),
                       unitId, deviceIdCode, conformity, objects))
  }

  /** Within the length limits of the domain model, so that building the fingerprint cannot fail. */
  predicate Storable(f: Fingerprint) {
    Within(f.vendor, MAX_NAME) && Within(f.model, MAX_NAME) && Within(f.firmware, MAX_FIRMWARE)
  }

  /** The packet is a device identification response with a whole header. */
  predicate Identification(raw: Packet) {
    |raw| >= HEADER && Word16(raw, 2) == 0 && raw[7] == 0x2B && raw[8] == 0x0E
  }

  function Decode(decode: Decoder, raw: Packet): (r: Option<Fingerprint>) {
    if !Identification(raw) then None
    else BuildParseResult(Dictionary(decode, ReadObjects(raw, HEADER, raw[13] as nat)), raw[6], raw[9], raw[10])
  }

  /** Nothing but a device identification response with at least one standard object yields a fingerprint. */
  lemma OnlyIdentifications(decode: Decoder, raw: Packet)
    ensures Decode(decode, raw).Some? ==>
              && |raw| >= 14 && raw[2] == raw[3] == 0 && raw[7] == 0x2B && raw[8] == 0x0E
              && exists o :: o in ReadObjects(raw, 14, raw[13] as nat) && o.id <= 6
  {
    hide Clean;
    if Decode(decode, raw).Some? {
      var objects := ReadObjects(raw, 14, raw[13] as nat);
      DictionaryKeys(decode, objects);
      hide Dictionary, ReadObjects;
      var known := Dictionary(decode, objects);
      assert known.Keys != {};
      var id :| id in known.Keys;
      var i :| 0 <= i < |objects| && objects[i].id == id;
      assert objects[i] in objects;
    }
  }

  method ParseModbus(decode: Decoder, raw: Packet) returns (fingerprint: Option<Fingerprint>)
    ensures fingerprint == Decode(decode, raw)
  {
    if |raw| < 9 || Word16(raw, 2) != 0 || raw[7] != 0x2B || raw[8] != 0x0E || |raw| < HEADER { return None; }
    var objects := ParseDeviceIdObjects(decode, raw, HEADER, raw[13] as nat);
    fingerprint := BuildParseResult(objects, raw[6], raw[9], raw[10]);
  }

  // ---------------------------------------------------------------- responses

  /** A response: transaction, length, the unused header bytes and the objects. */
  datatype Response = Response(transaction: Packet, length: Packet, unitId: byte, deviceIdCode: byte, conformity: byte,
                               more: byte, next: byte, objects: seq<DeviceObject>)

  predicate Legal(r: Response) {
    |r.transaction| == |r.length| == 2 && |r.objects| < 256 && Sendable(r.objects)
  }

  function Header(r: Response): (h: Packet)
    requires Legal(r)
    ensures |h| == HEADER
  {
    r.transaction + [0, 0] + r.length
      + [r.unitId, 0x2B, 0x0E, r.deviceIdCode, r.conformity, r.more, r.next, |r.objects| as byte]
  }

  function Wire(r: Response): (w: Packet)
    requires Legal(r)
    ensures |w| >= HEADER
  {
    Header(r) + EncodeObjects(r.objects)
  }

  /** A response followed by any padding and cut anywhere behind its header decodes to the last-wins
      dictionary of the objects that lie whole before the cut; the padding itself never matters. */
  lemma ResponseDecoded(decode: Decoder, r: Response, padding: Packet, cut: nat)
    requires Legal(r) && HEADER <= cut <= |Wire(r) + padding|
    ensures var kept := r.objects[..Whole(r.objects, cut - HEADER)];
            Decode(decode, (Wire(r) + padding)[..cut]) ==
              BuildParseResult(Dictionary(decode, kept), r.unitId, r.deviceIdCode, r.conformity)
  {
    hide Whole, EncodeObjects, ReadObjects, Dictionary, BuildParseResult;
    var raw := Wire(r) + padding;
    var header := Header(r);
    assert raw[..HEADER] == header;
    HeaderFields(r, raw[..cut]);
    assert raw[HEADER..] == EncodeObjects(r.objects) + padding;
    ObjectsRead(raw, HEADER, r.objects, padding, |r.objects|, cut);
  }

  lemma HeaderFields(r: Response, raw: Packet)
    requires Legal(r) && |raw| >= HEADER && raw[..HEADER] == Header(r)
    ensures Identification(raw) && raw[6] == r.unitId && raw[9] == r.deviceIdCode && raw[10] == r.conformity
    ensures raw[13] as nat == |r.objects|
  {
    var h := Header(r);
    assert forall i :: 0 <= i < HEADER ==> raw[i] == h[i];
  }

  /** Nothing is lost when the cut is behind the last object. */
  lemma AllWhole(r: Response, cut: nat)
    requires Legal(r) && cut >= |Wire(r)|
    ensures r.objects[..Whole(r.objects, cut - HEADER)] == r.objects
  {
    WholeIsLargest(r.objects, cut - HEADER);
    var n := Whole(r.objects, cut - HEADER);
    if n < |r.objects| { EncodedPrefix(r.objects, n + 1); }
  }

  lemma {:induction false} EncodedPrefix(objects: seq<DeviceObject>, n: nat)
    requires Sendable(objects) && n <= |objects|
    ensures |EncodeObjects(objects[..n])| <= |EncodeObjects(objects)|
    decreases n
  {
    if n > 0 {
      assert objects[..n][1..] == objects[1..][..n - 1];
      EncodedPrefix(objects[1..], n - 1);
    }
  }

  function DeviceIdRequest(): (request: Packet) {
    PackWord16(1) + PackWord16(0) + PackWord16(5) + [0x01, 0x2B, 0x0E, 0x01, 0x00]
  }

  /** The prober's own request, alone or padded with zeros to a minimum-length frame, is not taken for a
      device when it is captured or echoed. */
  lemma EchoedRequestIsNoDevice(decode: Decoder, padding: nat)
    ensures Decode(decode, DeviceIdRequest() + seq(padding, _ => 0 as byte)) == None
  {
    hide Clean;
    EmptyDictionary(decode);
    var raw := DeviceIdRequest() + seq(padding, _ => 0 as byte);
    if |raw| >= HEADER {
      assert raw[13] == 0;
      assert ReadObjects(raw, HEADER, 0) == [];
    }
  }
}
