/**
 * Object group 0 (device attributes) of a DNP3 response: object headers with four kinds of range
 * field, and the nested loops that walk them.
 *
 * How an attribute's bytes become text is a parameter, so every statement holds for every decoder,
 * in particular one that returns `None` for an empty value.
 */
module Dnp3Attributes {
  import opened Bytes
  import opened LastWins
  import opened Text
  import Crc
  import Dnp3Frame

  type Decoder = (byte, Packet) -> Option<string>
  type Assignments = seq<(string, string)>

  const FC_RESPONSE: byte := 0x81

  function AttributeName(variation: byte): Option<string> {
    if variation == 252 then Some("manufacturer")
    else if variation == 253 then Some("model")
    else if variation == 254 then Some("firmware_version")
    else if variation == 246 then Some("serial_number")
    else if variation == 245 then Some("device_id")
    else if variation == 251 then Some("hardware_version")
    else if variation == 250 then Some("location")
    else None
  }

  /** The dictionary assignments one value causes: none, or one. */
  function Assign(variation: byte, value: Option<string>): Assignments {
    if value.Some? && AttributeName(variation).Some? then [(AttributeName(variation).value, value.value)] else []
  }

  // ---------------------------------------------------------------- reading

  /** One type-length-value triple: the decoded value and the offset behind what was consumed. */
  function ReadValue(data: Packet, offset: nat, decode: Decoder): (r: (Option<string>, nat))
    requires offset <= |data|
    ensures offset <= r.1 <= |data|
  {
    if offset + 2 > |data| then (None, offset)
    else
      var kind := data[offset];
      var start := offset + 2;
      var end := start + data[offset + 1] as int;
      if end > |data| then (None, start) else (decode(kind, data[start..end]), end)
  }

  function ReadObjectData(objData: Packet, decode: Decoder): Option<string> {
    if |objData| < 2 || |objData| < 2 + objData[1] as int then None
    else decode(objData[0], objData[2..2 + objData[1] as int])
  }

  /** What an inner loop assigns, and where it leaves the offset. */
  datatype Scan = Scan(pairs: Assignments, offset: nat)

  /** Qualifiers 0x00, 0x17 and 0x28: `count` values, each behind an index prefix of 0, 1 or 2 bytes. */
  function ReadPrefixed(data: Packet, offset: nat, count: nat, prefix: nat, variation: byte, decode: Decoder): (s: Scan)
    requires offset <= |data|
    ensures offset <= s.offset <= |data|
    decreases count
  {
    if count == 0 || offset + prefix > |data| then Scan([], offset)
    else
      var (value, next) := ReadValue(data, offset + prefix, decode);
      var rest := ReadPrefixed(data, next, count - 1, prefix, variation, decode);
      Scan(Assign(variation, value) + rest.pairs, rest.offset)
  }

  /** Qualifier 0x5B: `count` objects, each behind a two-byte length. */
  function ReadSized(data: Packet, offset: nat, count: nat, variation: byte, decode: Decoder): (s: Scan)
    requires offset <= |data|
    ensures offset <= s.offset <= |data|
    decreases count
  {
    if count == 0 || offset + 2 > |data| then Scan([], offset)
    else
      var start := offset + 2;
      var end := start + LittleWord16(data, offset);
      if end > |data| then Scan([], start)
      else
        var rest := ReadSized(data, end, count - 1, variation, decode);
        Scan(Assign(variation, ReadObjectData(data[start..end], decode)) + rest.pairs, rest.offset)
  }

  function RangeCount(start: byte, stop: byte): nat {
    if stop < start then 0 else stop as int - start as int + 1
  }

  /** One turn of the outer loop behind the header at `offset`; `None` where the source breaks. */
  function ReadObject(data: Packet, offset: nat, decode: Decoder): (s: Option<Scan>)
    requires offset + 3 <= |data|
    ensures s.Some? ==> offset + 3 <= s.value.offset <= |data|
  {
    var variation, qualifier, o := data[offset + 1], data[offset + 2], offset + 3;
    if data[offset] != 0 then None
    else if qualifier == 0x00 then
      if o + 2 > |data| then None
      else Some(ReadPrefixed(data, o + 2, RangeCount(data[o], data[o + 1]), 0, variation, decode))
    else if qualifier == 0x17 then
      if o + 1 > |data| then None
      else Some(ReadPrefixed(data, o + 1, data[o] as int, 1, variation, decode))
    else if qualifier == 0x5B then
      if o + 1 > |data| then None
      else Some(ReadSized(data, o + 1, data[o] as int, variation, decode))
    else if qualifier == 0x28 then
      if o + 2 > |data| then None
      else Some(ReadPrefixed(data, o + 2, LittleWord16(data, o), 2, variation, decode))
    else None
  }

  /** Every assignment the parser makes from `offset` on. */
  function ReadObjects(data: Packet, offset: nat, decode: Decoder): Assignments
    requires offset <= |data|
    decreases |data| - offset
  {
    if offset + 3 > |data| then []
    else
      match ReadObject(data, offset, decode)
      case None => []
      case Some(scan) => scan.pairs + ReadObjects(data, scan.offset, decode)
  }

  // ---------------------------------------------------------------- the loops

  lemma Assoc(a: Assignments, b: Assignments, c: Assignments)
    ensures a + (b + c) == (a + b) + c
    ensures a + [] == a
  {
  }

  method Store(attributes: map<string, string>, variation: byte, value: Option<string>, ghost pairs: Assignments)
      returns (updated: map<string, string>)
    requires attributes == Overlay(pairs)
    ensures updated == Overlay(pairs + Assign(variation, value))
  {
    updated := attributes;
    assert pairs + [] == pairs;
    if value.Some? {
      var name := AttributeName(variation);
      if name.Some? {
        OverlayExtend(pairs, name.value, value.value);
        updated := updated[name.value := value.value];
      }
    }
  }

  method ScanPrefixed(data: Packet, start: nat, count: nat, prefix: nat, variation: byte, decode: Decoder,
                      before: map<string, string>, ghost pairs: Assignments)
      returns (attributes: map<string, string>, offset: nat)
    requires start <= |data| && before == Overlay(pairs)
    ensures var scan := ReadPrefixed(data, start, count, prefix, variation, decode);
            offset == scan.offset && attributes == Overlay(pairs + scan.pairs)
  {
    hide ReadValue, Assign, Overlay;
    attributes, offset := before, start;
    ghost var scan := ReadPrefixed(data, start, count, prefix, variation, decode);
    ghost var done := pairs;
    var i := 0;
    while i < count
      invariant 0 <= i <= count && offset <= |data|
      invariant attributes == Overlay(done)
      invariant var rest := ReadPrefixed(data, offset, count - i, prefix, variation, decode);
                rest.offset == scan.offset && done + rest.pairs == pairs + scan.pairs
    {
      if offset + prefix > |data| { break; }
      var (value, next) := ReadValue(data, offset + prefix, decode);
      ghost var rest := ReadPrefixed(data, next, count - i - 1, prefix, variation, decode);
      attributes := Store(attributes, variation, value, done);
      Assoc(done, Assign(variation, value), rest.pairs);
      done := done + Assign(variation, value);
      offset := next;
      i := i + 1;
    }
    assert done + [] == done;
  }

  method ScanSized(data: Packet, start: nat, count: nat, variation: byte, decode: Decoder,
                   before: map<string, string>, ghost pairs: Assignments)
      returns (attributes: map<string, string>, offset: nat)
    requires start <= |data| && before == Overlay(pairs)
    ensures var scan := ReadSized(data, start, count, variation, decode);
            offset == scan.offset && attributes == Overlay(pairs + scan.pairs)
  {
    hide ReadObjectData, Assign, Overlay, LittleWord16;
    attributes, offset := before, start;
    ghost var scan := ReadSized(data, start, count, variation, decode);
    ghost var done := pairs;
    var i := 0;
    while i < count
      invariant 0 <= i <= count && offset <= |data|
      invariant attributes == Overlay(done)
      invariant var rest := ReadSized(data, offset, count - i, variation, decode);
                rest.offset == scan.offset && done + rest.pairs == pairs + scan.pairs
    {
      Assoc(done, [], []);
      if offset + 2 > |data| { return; }
      var length := LittleWord16(data, offset);
      if offset + 2 + length > |data| {
        offset := offset + 2;
        return;
      }
      ghost var rest := ReadSized(data, offset + 2 + length, count - i - 1, variation, decode);
      var value := ReadObjectData(data[offset + 2..offset + 2 + length], decode);
      attributes := Store(attributes, variation, value, done);
      Assoc(done, Assign(variation, value), rest.pairs);
      done := done + Assign(variation, value);
      offset := offset + 2 + length;
      i := i + 1;
    }
    assert done + [] == done;
  }

  /** The body of the outer loop; `more` is false where the source leaves it. */
  method ParseObject(data: Packet, start: nat, decode: Decoder, before: map<string, string>, ghost pairs: Assignments)
      returns (more: bool, attributes: map<string, string>, offset: nat)
    requires start + 3 <= |data| && before == Overlay(pairs)
    ensures more <==> ReadObject(data, start, decode).Some?
    ensures more ==> offset == ReadObject(data, start, decode).value.offset
    ensures more ==> attributes == Overlay(pairs + ReadObject(data, start, decode).value.pairs)
    ensures !more ==> attributes == before
  {
    more, attributes, offset := false, before, start + 3;
    var group, variation, qualifier := data[start], data[start + 1], data[start + 2];
    if group != 0 { return; }
    if qualifier == 0x00 {
      if offset + 2 > |data| { return; }
      var count := RangeCount(data[offset], data[offset + 1]);
      attributes, offset := ScanPrefixed(data, offset + 2, count, 0, variation, decode, before, pairs);
    } else if qualifier == 0x17 {
      if offset + 1 > |data| { return; }
      attributes, offset := ScanPrefixed(data, offset + 1, data[offset] as int, 1, variation, decode, before, pairs);
    } else if qualifier == 0x5B {
      if offset + 1 > |data| { return; }
      attributes, offset := ScanSized(data, offset + 1, data[offset] as int, variation, decode, before, pairs);
    } else if qualifier == 0x28 {
      if offset + 2 > |data| { return; }
      var count := LittleWord16(data, offset);
      attributes, offset := ScanPrefixed(data, offset + 2, count, 2, variation, decode, before, pairs);
    } else {
      return;
    }
    more := true;
  }

  method ParseDeviceAttributes(data: Packet, decode: Decoder) returns (attributes: map<string, string>)
    ensures attributes == Overlay(ReadObjects(data, 0, decode))
  {
    attributes := map[];
    var offset := 0;
    ghost var done: Assignments := [];
    assert done + ReadObjects(data, 0, decode) == ReadObjects(data, 0, decode);
    while offset + 3 <= |data|
      invariant 0 <= offset <= |data|
      invariant attributes == Overlay(done)
      invariant done + ReadObjects(data, offset, decode) == ReadObjects(data, 0, decode)
      decreases |data| - offset
    {
      ghost var scan := ReadObject(data, offset, decode);
      Assoc(done, [], []);
      var more;
      more, attributes, offset := ParseObject(data, offset, decode, attributes, done);
      if !more { return; }
      Assoc(done, scan.value.pairs, ReadObjects(data, offset, decode));
      done := done + scan.value.pairs;
    }
    Assoc(done, [], []);
  }

  // ---------------------------------------------------------------- encoding

  /** One attribute value: its index prefix, type code, bytes, and (qualifier 0x5B) trailing padding
      inside the sized obj. */
  datatype Item = Item(index: nat, kind: byte, value: Packet, padding: Packet)

  datatype AttributeObject = AttributeObject(variation: byte, qualifier: byte, start: byte, items: seq<Item>)

  ghost predicate ItemFits(qualifier: byte, item: Item) {
    && |item.value| <= 255
    && (qualifier == 0x17 ==> item.index < 0x100)
    && (qualifier == 0x28 ==> item.index < 0x1_0000)
    && (qualifier == 0x5B ==> 2 + |item.value| + |item.padding| < 0x1_0000)
  }

  ghost predicate WellFormed(obj: AttributeObject) {
    && obj.qualifier in {0x00, 0x17, 0x5B, 0x28}
    && (obj.qualifier == 0x00 ==> 0 <= obj.start as int + |obj.items| - 1 <= 255)
    && (obj.qualifier == 0x17 || obj.qualifier == 0x5B ==> |obj.items| <= 255)
    && (obj.qualifier == 0x28 ==> |obj.items| < 0x1_0000)
    && forall i :: 0 <= i < |obj.items| ==> ItemFits(obj.qualifier, obj.items[i])
  }

  function Low(v: nat): byte {
    (v % 256) as byte
  }

  function LittleWord(v: nat): (bytes: Packet)
    ensures |bytes| == 2
  {
    PackLittleWord16(v % 0x1_0000)
  }

  function EncodeValue(item: Item): Packet {
    [item.kind, Low(|item.value|)] + item.value
  }

  function EncodeItem(qualifier: byte, item: Item): Packet {
    if qualifier == 0x17 then [Low(item.index)] + EncodeValue(item)
    else if qualifier == 0x28 then LittleWord(item.index) + EncodeValue(item)
    else if qualifier == 0x5B then
      LittleWord(2 + |item.value| + |item.padding|) + (EncodeValue(item) + item.padding)
    else EncodeValue(item)
  }

  function EncodeItems(qualifier: byte, items: seq<Item>): Packet {
    if items == [] then [] else EncodeItem(qualifier, items[0]) + EncodeItems(qualifier, items[1..])
  }

  function EncodeRange(obj: AttributeObject): Packet {
    if obj.qualifier == 0x00 then [obj.start, Low(obj.start as int + |obj.items| + 255)]
    else if obj.qualifier == 0x28 then LittleWord(|obj.items|)
    else [Low(|obj.items|)]
  }

  function EncodeHeader(obj: AttributeObject): Packet {
    [0, obj.variation, obj.qualifier] + EncodeRange(obj)
  }

  function EncodeObject(obj: AttributeObject): Packet {
    EncodeHeader(obj) + EncodeItems(obj.qualifier, obj.items)
  }

  function EncodeObjects(objects: seq<AttributeObject>): Packet {
    if objects == [] then [] else EncodeObject(objects[0]) + EncodeObjects(objects[1..])
  }

  ghost function ItemPairs(variation: byte, items: seq<Item>, decode: Decoder): Assignments {
    if items == [] then []
    else Assign(variation, decode(items[0].kind, items[0].value)) + ItemPairs(variation, items[1..], decode)
  }

  /** The named, decodable values of a list of objects, in order. */
  ghost function ObjectPairs(objects: seq<AttributeObject>, decode: Decoder): Assignments {
    if objects == [] then []
    else ItemPairs(objects[0].variation, objects[0].items, decode) + ObjectPairs(objects[1..], decode)
  }

  // ---------------------------------------------------------------- round trip

  lemma ValueRead(data: Packet, offset: nat, item: Item, decode: Decoder)
    requires |item.value| <= 255 && At(data, offset, EncodeValue(item))
    ensures ReadValue(data, offset, decode) == (decode(item.kind, item.value), offset + 2 + |item.value|)
  {
    AtSplit(data, offset, [item.kind, Low(|item.value|)], item.value);
    AtByte(data, offset, [item.kind, Low(|item.value|)], 0);
    AtByte(data, offset, [item.kind, Low(|item.value|)], 1);
  }

  lemma ItemRead(data: Packet, offset: nat, qualifier: byte, item: Item, prefix: nat, decode: Decoder)
    requires ItemFits(qualifier, item) && (qualifier, prefix) in {(0x00, 0), (0x17, 1), (0x28, 2)}
    requires At(data, offset, EncodeItem(qualifier, item))
    ensures offset + prefix <= |data|
    ensures ReadValue(data, offset + prefix, decode)
              == (decode(item.kind, item.value), offset + |EncodeItem(qualifier, item)|)
  {
    var head := EncodeItem(qualifier, item);
    assert head == head[..prefix] + EncodeValue(item);
    AtSplit(data, offset, head[..prefix], EncodeValue(item));
    ValueRead(data, offset + prefix, item, decode);
  }

  /** The first item and the rest of an encoded list, and where they stand. */
  lemma ItemsAt(data: Packet, offset: nat, qualifier: byte, items: seq<Item>, head: Packet)
    requires items != [] && forall i :: 0 <= i < |items| ==> ItemFits(qualifier, items[i])
    requires head == EncodeItem(qualifier, items[0])
    requires At(data, offset, EncodeItems(qualifier, items))
    ensures At(data, offset, head)
    ensures At(data, offset + |head|, EncodeItems(qualifier, items[1..]))
    ensures |EncodeItems(qualifier, items)| == |head| + |EncodeItems(qualifier, items[1..])|
  {
    AtSplit(data, offset, head, EncodeItems(qualifier, items[1..]));
  }

  lemma PrefixedStep(data: Packet, offset: nat, count: nat, prefix: nat, variation: byte, decode: Decoder,
                     value: Option<string>, next: nat, rest: Scan)
    requires count > 0 && offset + prefix <= |data| && next <= |data|
    requires ReadValue(data, offset + prefix, decode) == (value, next)
    requires ReadPrefixed(data, next, count - 1, prefix, variation, decode) == rest
    ensures ReadPrefixed(data, offset, count, prefix, variation, decode)
              == Scan(Assign(variation, value) + rest.pairs, rest.offset)
  {
  }

  lemma {:induction false} PrefixedRead(data: Packet, offset: nat, qualifier: byte, items: seq<Item>, prefix: nat,
                                        variation: byte, decode: Decoder)
    requires forall i :: 0 <= i < |items| ==> ItemFits(qualifier, items[i])
    requires (qualifier, prefix) in {(0x00, 0), (0x17, 1), (0x28, 2)}
    requires At(data, offset, EncodeItems(qualifier, items))
    ensures ReadPrefixed(data, offset, |items|, prefix, variation, decode)
              == Scan(ItemPairs(variation, items, decode), offset + |EncodeItems(qualifier, items)|)
    decreases |items|
  {
    hide EncodeItem, ReadValue, Assign, ItemFits;
    if items != [] {
      var item, head := items[0], EncodeItem(qualifier, items[0]);
      ItemsAt(data, offset, qualifier, items, head);
      ItemRead(data, offset, qualifier, item, prefix, decode);
      PrefixedRead(data, offset + |head|, qualifier, items[1..], prefix, variation, decode);
      PrefixedStep(data, offset, |items|, prefix, variation, decode, decode(item.kind, item.value), offset + |head|,
                   ReadPrefixed(data, offset + |head|, |items| - 1, prefix, variation, decode));
    }
  }

  lemma LittleWordAt(data: Packet, offset: nat, v: nat)
    requires v < 0x1_0000 && At(data, offset, LittleWord(v))
    ensures LittleWord16(data, offset) == v
  {
    AtByte(data, offset, LittleWord(v), 0);
    AtByte(data, offset, LittleWord(v), 1);
  }

  lemma ObjectDataRead(item: Item, decode: Decoder)
    requires |item.value| <= 255
    ensures ReadObjectData(EncodeValue(item) + item.padding, decode) == decode(item.kind, item.value)
  {
    var d := EncodeValue(item) + item.padding;
    assert d[2..2 + |item.value|] == item.value;
  }

  lemma SizedStep(data: Packet, offset: nat, count: nat, variation: byte, decode: Decoder, body: Packet, rest: Scan)
    requires count > 0 && |body| < 0x1_0000 && offset + 2 + |body| <= |data|
    requires At(data, offset, LittleWord(|body|)) && At(data, offset + 2, body)
    requires ReadSized(data, offset + 2 + |body|, count - 1, variation, decode) == rest
    ensures ReadSized(data, offset, count, variation, decode)
              == Scan(Assign(variation, ReadObjectData(body, decode)) + rest.pairs, rest.offset)
  {
    LittleWordAt(data, offset, |body|);
  }

  lemma {:induction false} SizedRead(data: Packet, offset: nat, items: seq<Item>, variation: byte, decode: Decoder)
    requires forall i :: 0 <= i < |items| ==> ItemFits(0x5B, items[i])
    requires At(data, offset, EncodeItems(0x5B, items))
    ensures ReadSized(data, offset, |items|, variation, decode)
              == Scan(ItemPairs(variation, items, decode), offset + |EncodeItems(0x5B, items)|)
    decreases |items|
  {
    hide ReadObjectData, Assign, EncodeItem, EncodeValue, At, LittleWord16;
    if items != [] {
      var item := items[0];
      var body := EncodeValue(item) + item.padding;
      ItemsAt(data, offset, 0x5B, items, EncodeItem(0x5B, item));
      SizedItemAt(data, offset, item, body);
      ObjectDataRead(item, decode);
      SizedRead(data, offset + 2 + |body|, items[1..], variation, decode);
      SizedStep(data, offset, |items|, variation, decode, body,
                ReadSized(data, offset + 2 + |body|, |items| - 1, variation, decode));
    }
  }

  lemma SizedItemAt(data: Packet, offset: nat, item: Item, body: Packet)
    requires ItemFits(0x5B, item) && body == EncodeValue(item) + item.padding
    requires At(data, offset, EncodeItem(0x5B, item))
    ensures |body| < 0x1_0000 && |EncodeItem(0x5B, item)| == 2 + |body|
    ensures At(data, offset, LittleWord(|body|)) && At(data, offset + 2, body)
    ensures offset + 2 + |body| <= |data|
  {
    AtSplit(data, offset, LittleWord(|body|), body);
  }

  /** The header bytes of an encoded object, and where its range and its items stand. */
  lemma HeaderAt(data: Packet, offset: nat, obj: AttributeObject)
    requires WellFormed(obj) && At(data, offset, EncodeObject(obj))
    ensures offset + 3 <= |data| && data[offset] == 0
    ensures data[offset + 1] == obj.variation && data[offset + 2] == obj.qualifier
    ensures At(data, offset + 3, EncodeRange(obj))
    ensures At(data, offset + 3 + |EncodeRange(obj)|, EncodeItems(obj.qualifier, obj.items))
  {
    hide EncodeRange, EncodeItems, At;
    var start, range := [0, obj.variation, obj.qualifier], EncodeRange(obj);
    assert EncodeObject(obj) == EncodeHeader(obj) + EncodeItems(obj.qualifier, obj.items);
    AtSplit(data, offset, EncodeHeader(obj), EncodeItems(obj.qualifier, obj.items));
    AtSplit(data, offset, start, range);
    AtByte(data, offset, start, 0);
    AtByte(data, offset, start, 1);
    AtByte(data, offset, start, 2);
  }

  lemma RangeRead(data: Packet, offset: nat, obj: AttributeObject)
    requires WellFormed(obj) && At(data, offset, EncodeRange(obj))
    ensures obj.qualifier == 0x00 ==>
              |EncodeRange(obj)| == 2 && RangeCount(data[offset], data[offset + 1]) == |obj.items|
    ensures obj.qualifier == 0x28 ==> |EncodeRange(obj)| == 2 && LittleWord16(data, offset) == |obj.items|
    ensures obj.qualifier in {0x17, 0x5B} ==> |EncodeRange(obj)| == 1 && data[offset] as int == |obj.items|
  {
    AtByte(data, offset, EncodeRange(obj), 0);
    if obj.qualifier == 0x00 { AtByte(data, offset, EncodeRange(obj), 1); }
    if obj.qualifier == 0x28 { LittleWordAt(data, offset, |obj.items|); }
  }

  lemma ObjectRead(data: Packet, offset: nat, obj: AttributeObject, decode: Decoder)
    requires WellFormed(obj) && At(data, offset, EncodeObject(obj))
    ensures offset + 3 <= |data|
    ensures ReadObject(data, offset, decode)
              == Some(Scan(ItemPairs(obj.variation, obj.items, decode), offset + |EncodeObject(obj)|))
  {
    hide At, EncodeItems, ItemPairs, ReadPrefixed, ReadSized, RangeCount, LittleWord16;
    HeaderAt(data, offset, obj);
    RangeRead(data, offset + 3, obj);
    var q, from := obj.qualifier, offset + 3 + |EncodeRange(obj)|;
    if q == 0x5B {
      SizedRead(data, from, obj.items, obj.variation, decode);
    } else {
      var prefix := if q == 0x00 then 0 else if q == 0x17 then 1 else 2;
      PrefixedRead(data, from, q, obj.items, prefix, obj.variation, decode);
    }
  }

  lemma ObjectsStep(data: Packet, offset: nat, scan: Scan, decode: Decoder)
    requires offset + 3 <= |data| && ReadObject(data, offset, decode) == Some(scan)
    ensures ReadObjects(data, offset, decode) == scan.pairs + ReadObjects(data, scan.offset, decode)
  {
  }

  /** Any list of well-formed objects, with any mix of the four qualifiers, is read back exactly;
      behind them the parser is where a fresh call would start. */
  lemma {:induction false} ObjectsRead(data: Packet, offset: nat, objects: seq<AttributeObject>, decode: Decoder)
    requires forall i :: 0 <= i < |objects| ==> WellFormed(objects[i])
    requires At(data, offset, EncodeObjects(objects))
    ensures ReadObjects(data, offset, decode)
              == ObjectPairs(objects, decode) + ReadObjects(data, offset + |EncodeObjects(objects)|, decode)
    decreases |objects|
  {
    hide EncodeObject, ReadObject, ReadObjects, ItemPairs, WellFormed;
    if objects == [] {
      assert [] + ReadObjects(data, offset, decode) == ReadObjects(data, offset, decode);
    } else {
      var first, later := EncodeObject(objects[0]), EncodeObjects(objects[1..]);
      AtSplit(data, offset, first, later);
      ObjectRead(data, offset, objects[0], decode);
      var pairs := ItemPairs(objects[0].variation, objects[0].items, decode);
      ObjectsStep(data, offset, Scan(pairs, offset + |first|), decode);
      ObjectsRead(data, offset + |first|, objects[1..], decode);
      Assoc(pairs, ObjectPairs(objects[1..], decode), ReadObjects(data, offset + |first| + |later|, decode));
    }
  }

  lemma NothingLeft(data: Packet, decode: Decoder)
    ensures ReadObjects(data, |data|, decode) == []
  {
  }

  lemma AttributesRoundTrip(objects: seq<AttributeObject>, decode: Decoder)
    requires forall i :: 0 <= i < |objects| ==> WellFormed(objects[i])
    ensures ReadObjects(EncodeObjects(objects), 0, decode) == ObjectPairs(objects, decode)
  {
    hide ReadObjects, ObjectPairs, EncodeObjects, WellFormed;
    var data := EncodeObjects(objects);
    assert data[0..|data|] == data;
    ObjectsRead(data, 0, objects, decode);
    NothingLeft(data, decode);
    Assoc(ObjectPairs(objects, decode), [], []);
  }

  // ---------------------------------------------------------------- which variation names what

  /** The variations of group 0 the parser knows, with the names it gives them. */
  ghost predicate Named(variation: byte, name: string) {
    || (variation == 252 && name == "manufacturer")
    || (variation == 253 && name == "model")
    || (variation == 254 && name == "firmware_version")
    || (variation == 246 && name == "serial_number")
    || (variation == 245 && name == "device_id")
    || (variation == 251 && name == "hardware_version")
    || (variation == 250 && name == "location")
  }

  /** A value sent, with its variation and its text. */
  datatype Sent = Sent(variation: byte, text: Option<string>)

  ghost function SentItems(variation: byte, items: seq<Item>, decode: Decoder): seq<Sent> {
    if items == [] then []
    else [Sent(variation, decode(items[0].kind, items[0].value))] + SentItems(variation, items[1..], decode)
  }

  ghost function SentObjects(objects: seq<AttributeObject>, decode: Decoder): seq<Sent> {
    if objects == [] then []
    else SentItems(objects[0].variation, objects[0].items, decode) + SentObjects(objects[1..], decode)
  }

  /** The `i`-th value is the last of its variation that has a text. */
  ghost predicate LastSent(sent: seq<Sent>, i: nat, variation: byte, text: string) {
    && i < |sent| && sent[i] == Sent(variation, Some(text))
    && forall j :: i < j < |sent| && sent[j].variation == variation ==> sent[j].text == None
  }

  ghost function Pairs(sent: seq<Sent>): Assignments {
    if sent == [] then []
    else Pairs(sent[..|sent| - 1]) + Assign(sent[|sent| - 1].variation, sent[|sent| - 1].text)
  }

  lemma {:induction false} PairsConcat(a: seq<Sent>, b: seq<Sent>)
    ensures Pairs(a + b) == Pairs(a) + Pairs(b)
    decreases |b|
  {
    hide Assign;
    if b == [] {
      assert a + b == a;
    } else {
      assert (a + b)[..|a + b| - 1] == a + b[..|b| - 1];
      PairsConcat(a, b[..|b| - 1]);
    }
  }

  lemma PairsOfOne(one: Sent)
    ensures Pairs([one]) == Assign(one.variation, one.text)
  {
    assert [one][..0] == [];
  }

  lemma {:induction false} ItemPairsAreSent(variation: byte, items: seq<Item>, decode: Decoder)
    ensures ItemPairs(variation, items, decode) == Pairs(SentItems(variation, items, decode))
    decreases |items|
  {
    hide Assign, Pairs;
    if items == [] {
      NothingSent();
    } else {
      var one := Sent(variation, decode(items[0].kind, items[0].value));
      ItemPairsAreSent(variation, items[1..], decode);
      PairsConcat([one], SentItems(variation, items[1..], decode));
      PairsOfOne(one);
    }
  }

  lemma NothingSent()
    ensures Pairs([]) == []
  {
  }

  lemma {:induction false} ObjectPairsAreSent(objects: seq<AttributeObject>, decode: Decoder)
    ensures ObjectPairs(objects, decode) == Pairs(SentObjects(objects, decode))
    decreases |objects|
  {
    hide ItemPairs, SentItems, Pairs;
    if objects == [] {
      NothingSent();
    } else {
      ItemPairsAreSent(objects[0].variation, objects[0].items, decode);
      ObjectPairsAreSent(objects[1..], decode);
      PairsConcat(SentItems(objects[0].variation, objects[0].items, decode), SentObjects(objects[1..], decode));
    }
  }

  lemma NameOfVariation(variation: byte, name: string)
    ensures AttributeName(variation) == Some(name) <==> Named(variation, name)
    ensures forall other :: Named(variation, name) && Named(other, name) ==> other == variation
  {
    assert "manufacturer"[1] == 'a' && "model"[1] == 'o' && |"location"| == 8;
  }

  lemma LastSentExtend(sent: seq<Sent>, one: Sent, variation: byte, text: string)
    ensures (exists i :: LastSent(sent + [one], i, variation, text)) <==>
              if one.variation == variation && one.text.Some? then one.text == Some(text)
              else exists i :: LastSent(sent, i, variation, text)
  {
    var longer := sent + [one];
    assert longer[|sent|] == one;
    if one == Sent(variation, Some(text)) { assert LastSent(longer, |sent|, variation, text); }
    if i: nat :| LastSent(longer, i, variation, text) {
      if i < |sent| {
        assert forall j :: i < j < |sent| ==> sent[j] == longer[j];
        assert LastSent(sent, i, variation, text);
      }
    }
    if !(one.variation == variation && one.text.Some?) && exists i :: LastSent(sent, i, variation, text) {
      var i :| LastSent(sent, i, variation, text);
      assert LastSent(longer, i, variation, text);
    }
  }

  lemma LookupStep(init: seq<Sent>, one: Sent, variation: byte, name: string)
    requires Named(variation, name)
    ensures Lookup(Overlay(Pairs(init + [one])), name)
              == if one.variation == variation && one.text.Some? then one.text else Lookup(Overlay(Pairs(init)), name)
  {
    NameOfVariation(variation, name);
    NameOfVariation(one.variation, name);
    hide AttributeName, Overlay, Named;
    assert (init + [one])[..|init|] == init;
    assert Pairs(init) + [] == Pairs(init);
    hide Pairs;
    if one.text.Some? && AttributeName(one.variation).Some? {
      OverlayExtend(Pairs(init), AttributeName(one.variation).value, one.text.value);
    }
  }

  lemma NothingNamed(variation: byte, name: string, text: string)
    ensures Lookup(Overlay(Pairs([])), name) == None
    ensures forall i :: !LastSent([], i, variation, text)
  {
  }

  lemma {:induction false} NamedInPairs(sent: seq<Sent>, variation: byte, name: string, text: string)
    requires Named(variation, name)
    ensures Lookup(Overlay(Pairs(sent)), name) == Some(text) <==> exists i :: LastSent(sent, i, variation, text)
    decreases |sent|
  {
    hide *;
    if sent == [] {
      NothingNamed(variation, name, text);
    } else {
      var init, one := sent[..|sent| - 1], sent[|sent| - 1];
      NamedInPairs(init, variation, name, text);
      LastSentExtend(init, one, variation, text);
      LookupStep(init, one, variation, name);
      assert sent == init + [one];
    }
  }

  /** What a name in the dictionary stands for, exactly: the text of the last value of its variation that has
      one. */
  lemma NamedExactly(objects: seq<AttributeObject>, decode: Decoder, variation: byte, name: string, text: string)
    requires Named(variation, name)
    ensures Lookup(Overlay(ObjectPairs(objects, decode)), name) == Some(text) <==>
              exists i :: LastSent(SentObjects(objects, decode), i, variation, text)
  {
    ObjectPairsAreSent(objects, decode);
    NamedInPairs(SentObjects(objects, decode), variation, name, text);
  }

  // ---------------------------------------------------------------- whole packets

  datatype Status = Complete | Partial

  datatype Fingerprint = Fingerprint(status: Status, vendor: Option<string>, model: Option<string>,
                                     firmware: Option<string>, serial: Option<string>, attributes: map<string, string>)

  /** `address` is `None` where the source reports "unknown". */
  datatype ParseResult = ParseResult(fingerprint: Option<Fingerprint>, source: Option<nat>, destination: Option<nat>)

  function BuildFingerprint(attributes: map<string, string>): (fp: Option<Fingerprint>)
    ensures fp.None? <==> (forall name :: name in {"manufacturer", "model", "firmware_version", "serial_number"}
                             ==> name !in attributes)
    ensures fp.Some? ==> (fp.value.status == Complete <==>
              {"manufacturer", "model", "firmware_version", "serial_number"} <= attributes.Keys)
    ensures fp.Some? ==> Shows(fp.value.vendor, attributes, "manufacturer", 128)
    ensures fp.Some? ==> Shows(fp.value.model, attributes, "model", 128)
    ensures fp.Some? ==> Shows(fp.value.firmware, attributes, "firmware_version", 64)
    ensures fp.Some? ==> fp.value.serial == Lookup(attributes, "serial_number") && fp.value.attributes == attributes
  {
    var vendor, model := Lookup(attributes, "manufacturer"), Lookup(attributes, "model");
    var firmware, serial := Lookup(attributes, "firmware_version"), Lookup(attributes, "serial_number");
    if vendor.None? && model.None? && firmware.None? && serial.None? then None
    else
      var status := if vendor.Some? && model.Some? && firmware.Some? && serial.Some? then Complete else Partial;
      Some(Fingerprint(status, Truncate(vendor, 128), Truncate(model, 128), Truncate(firmware, 64), serial, attributes))
  }

  function ParseDnp3(raw: Packet, decode: Decoder): ParseResult {
    if |raw| < Dnp3Frame.HEADER || raw[0..2] != [0x05, 0x64] then ParseResult(None, None, None)
    else
      var destination, source := LittleWord16(raw, 4), LittleWord16(raw, 6);
      var nothing := ParseResult(None, Some(source), Some(destination));
      var userData := Dnp3Frame.UserData(raw);
      if userData.None? || |userData.value| < 5 || userData.value[2] != FC_RESPONSE then nothing
      else
        var attributes := Overlay(ReadObjects(userData.value[5..], 0, decode));
        ParseResult(BuildFingerprint(attributes), Some(source), Some(destination))
  }

  /** Only an application response behind the start bytes of a link frame yields a fingerprint; the addresses stand at
      bytes 4 and 6 whatever follows. */
  lemma OnlyResponses(raw: Packet, decode: Decoder)
    ensures ParseDnp3(raw, decode).fingerprint.Some? ==>
              && |raw| > 10 && raw[0] == 0x05 && raw[1] == 0x64
              && Dnp3Frame.UserData(raw).Some? && |Dnp3Frame.UserData(raw).value| >= 5
              && Dnp3Frame.UserData(raw).value[2] == 0x81
    ensures |raw| >= 10 && raw[0] == 0x05 && raw[1] == 0x64 ==>
              && ParseDnp3(raw, decode).destination == Some(raw[4] as nat + 256 * raw[5] as nat)
              && ParseDnp3(raw, decode).source == Some(raw[6] as nat + 256 * raw[7] as nat)
  {
    hide ReadObjects, BuildFingerprint, Overlay;
    if |raw| >= 2 { assert raw[0..2] == [raw[0], raw[1]]; }
  }

  /** End to end: any framed response that carries well-formed attribute objects, with any bytes behind
      it, is decoded to the last-wins map of their values, under the addresses of the frame. */
  lemma ResponseDecoded(control: byte, destination: nat, source: nat, transport: byte, appControl: byte,
                        iin: (byte, byte), objects: seq<AttributeObject>, trailer: Dnp3Frame.Trailer,
                        padding: Packet, decode: Decoder)
    requires destination < 0x1_0000 && source < 0x1_0000
    requires forall i :: 0 <= i < |objects| ==> WellFormed(objects[i])
    requires 5 + |EncodeObjects(objects)| <= 250
    ensures var user := [transport, appControl, 0x81, iin.0, iin.1] + EncodeObjects(objects);
            ParseDnp3(Dnp3Frame.Frame(control, destination, source, user, trailer) + padding, decode)
              == ParseResult(BuildFingerprint(Overlay(ObjectPairs(objects, decode))), Some(source), Some(destination))
  {
    hide ReadObjects, ObjectPairs, EncodeObjects, BuildFingerprint, Overlay;
    var user := [transport, appControl, FC_RESPONSE, iin.0, iin.1] + EncodeObjects(objects);
    var raw := Dnp3Frame.Frame(control, destination, source, user, trailer) + padding;
    Dnp3Frame.PaddedFrame(control, destination, source, user, trailer, padding);
    var header := Dnp3Frame.LinkHeader(control, destination, source, |user|);
    assert raw[0..2] == header[0..2] == [0x05, 0x64];
    assert raw[4] == PackLittleWord16(destination)[0] && raw[5] == PackLittleWord16(destination)[1];
    assert raw[6] == PackLittleWord16(source)[0] && raw[7] == PackLittleWord16(source)[1];
    assert user[5..] == EncodeObjects(objects);
    AttributesRoundTrip(objects, decode);
  }

  lemma HeaderFirst(control: byte, destination: nat, source: nat, user: Packet)
    requires |user| <= 250 && destination < 0x1_0000 && source < 0x1_0000
    ensures var out := Dnp3Frame.ProberFrame(control, destination, source, user);
            |out| >= 8 && out[..8] == Dnp3Frame.LinkHeader(control, destination, source, |user|)
  {
    hide Dnp3Frame.LinkHeader, Crc.Checksum;
  }

  /** The first bytes of the prober's request: 11 bytes from the control byte on, a primary read from station 3 to
      station 1. */
  lemma RequestHeader()
    ensures var out := Dnp3Frame.AttributesRequest();
            |out| >= 8 && out[..8] == [0x05, 0x64, 0x0B, 0xC4, 0x01, 0x00, 0x03, 0x00]
    ensures Dnp3Frame.RequestData() == [0xC0, 0xC0, 0x01, 0x00, 0xFE, 0x06]
  {
    assert Dnp3Frame.LinkHeader(0xC4, 0x0001, 0x0003, 6) == [0x05, 0x64, 0x0B, 0xC4, 0x01, 0x00, 0x03, 0x00];
    assert |Dnp3Frame.RequestData()| == 6;
    hide Dnp3Frame.LinkHeader, Dnp3Frame.ProberFrame;
    HeaderFirst(0xC4, 0x0001, 0x0003, Dnp3Frame.RequestData());
  }

  /** The prober's own request is framed as the parser expects, and when it is captured or echoed it is not
      taken for a device. */
  lemma EchoedRequestIsNoDevice(decode: Decoder)
    ensures Dnp3Frame.AttributesRequest()[..8] == [0x05, 0x64, 0x0B, 0xC4, 0x01, 0x00, 0x03, 0x00]
    ensures Dnp3Frame.UserData(Dnp3Frame.AttributesRequest()) == Some([0xC0, 0xC0, 0x01, 0x00, 0xFE, 0x06])
    ensures ParseDnp3(Dnp3Frame.AttributesRequest(), decode).fingerprint == None
  {
    RequestHeader();
    assert Dnp3Frame.AttributesRequest() == Dnp3Frame.ProberFrame(0xC4, 0x0001, 0x0003, Dnp3Frame.RequestData());
    hide *;
    Dnp3Frame.ProberFrameIsAFrame(0xC4, 0x0001, 0x0003, Dnp3Frame.RequestData());
    OnlyResponses(Dnp3Frame.AttributesRequest(), decode);
  }
}
