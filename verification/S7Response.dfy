/** The layers around an SZL response: the parser that peels them, the sender that puts them on, and
    the theorem that the identity comes through. */
module S7Responses {
  import opened Bytes
  import opened NetworkHeaders
  import opened S7comm

  const TPKT_HEADER: nat := 4
  const MAX_TPKT_PAYLOAD: nat := 65531
  const S7_HEADER: nat := 10
  const SZL_HEADER: nat := 12
  const MODULES: nat := 0x0011
  const COMPONENTS: nat := 0x001C

  // ---------------------------------------------------------------- peeling

  function ParseTpkt(data: Packet): Option<Packet> {
    if |data| < TPKT_HEADER || data[0] != 0x03 then None
    else
      var length := Word16(data, 2);
      if length < TPKT_HEADER || length > |data| then None else Some(data[TPKT_HEADER..length])
  }

  function ParseCotp(data: Packet): Option<Packet> {
    if |data| < 3 || data[1] != 0xF0 then None
    else
      var end := 1 + data[0] as nat;
      if end > |data| then None else Some(data[end..])
  }

  function Tpkt(reserved: byte, payload: Packet): (data: Packet)
    requires |payload| <= MAX_TPKT_PAYLOAD
  {
    [0x03, reserved] + PackWord16(4 + |payload|) + payload
  }

  /** A COTP data unit: `header` is everything between the length byte and the user data. */
  function Cotp(header: Packet, payload: Packet): (data: Packet)
    requires |header| < 256
  {
    [|header| as byte] + header + payload
  }

  /** A data-transfer header: at least its type byte. */
  predicate DataHeader(header: Packet) {
    0 < |header| < 255 && header[0] == 0xF0
  }

  /** The TPKT step inverts wrapping, whatever follows the unit, and accepts nothing else. */
  lemma TpktPeels(data: Packet, payload: Packet)
    ensures ParseTpkt(data) == Some(payload) <==>
              |payload| <= MAX_TPKT_PAYLOAD && TPKT_HEADER + |payload| <= |data|
              && data == Tpkt(data[1], payload) + data[TPKT_HEADER + |payload|..]
  {
    if ParseTpkt(data) == Some(payload) {
      var length := Word16(data, 2);
      assert PackWord16(length) == data[2..4];
      assert data == [data[0], data[1]] + data[2..4] + data[4..length] + data[length..];
    }
    if && |payload| <= MAX_TPKT_PAYLOAD && TPKT_HEADER + |payload| <= |data|
       && data == Tpkt(data[1], payload) + data[TPKT_HEADER + |payload|..] {
      var unit := Tpkt(data[1], payload);
      assert data[0] == unit[0] && data[2..4] == unit[2..4] == PackWord16(TPKT_HEADER + |payload|);
      assert Word16(data, 2) == Word16(data[2..4], 0);
      assert data[4..4 + |payload|] == unit[4..] == payload;
    }
  }

  /** Both steps invert wrapping for every payload that fits, with anything behind the unit. */
  lemma PeelInvertsWrap(reserved: byte, header: Packet, payload: Packet, trailing: Packet)
    requires DataHeader(header) && |header| + |payload| >= 2
    requires 1 + |header| + |payload| <= MAX_TPKT_PAYLOAD
    ensures var unit := ParseTpkt(Tpkt(reserved, Cotp(header, payload)) + trailing);
            unit.Some? && ParseCotp(unit.value) == Some(payload)
  {
    var inner := Cotp(header, payload);
    var data := Tpkt(reserved, inner) + trailing;
    assert data[TPKT_HEADER + |inner|..] == trailing;
    assert data[1] == reserved;
    TpktPeels(data, inner);
    assert inner[1] == header[0];
    assert inner[1 + |header|..] == payload;
  }

  datatype S7Header = S7Header(messageType: byte, pduReference: nat, parameterLength: nat)

  function ParseHeader(data: Packet): Option<S7Header> {
    if |data| < S7_HEADER || data[0] != 0x32 then None
    else Some(S7Header(data[1], Word16(data, 4), Word16(data, 6)))
  }

  /** The list identifier and the record bytes, if the body is a successful identity list response. */
  function ExtractSzl(body: Packet, parameterLength: nat): Option<(nat, Packet)> {
    if parameterLength < 12 || |body| < parameterLength then None
    else if body[4] != 0x12 || body[5] != 0x84 || body[6] != 0x01 then None
    else
      var data := body[parameterLength..];
      if |data| < SZL_HEADER || data[0] != 0xFF then None
      else
        var id := Word16(data, 4);
        if id != MODULES && id != COMPONENTS then None else Some((id, data[SZL_HEADER..]))
  }

  datatype Addresses = Unaddressed | Addressed(source: Packet, destination: Packet)

  /** The addresses of an IPv4 packet, and what is behind its IP and TCP headers.  Anything else
      passes unchanged. */
  function ExtractAddresses(raw: Packet): (Addresses, Packet) {
    if |raw| < 20 || raw[0] as int / 16 != 4 then (Unaddressed, raw)
    else
      var ihl := raw[0] as nat % 16 * 4;
      if |raw| < ihl then (Unaddressed, raw)
      else
        var addresses := Addressed(Quad(raw, 12), Quad(raw, 16));
        if |raw| < ihl + 20 then (addresses, raw[ihl..])
        else (addresses, From(raw, ihl + raw[ihl + 12] as nat / 16 * 4))
  }

  datatype Fingerprint = Fingerprint(addresses: Addresses, identity: Identity, szlId: nat, pduReference: nat,
                                     complete: bool)

  function Known<T>(field: Option<T>): nat {
    if field.Some? then 1 else 0
  }

  function KnownFields(identity: Identity): nat {
    Known(identity.plcType) + Known(identity.moduleName)
      + Known(identity.firmwareVersion) + Known(identity.serialNumber)
  }

  function OfList(szlId: nat, records: Packet): Identity {
    if szlId == MODULES then OfModules(RecordsFrom(records, 0, MODULE))
    else OfComponents(RecordsFrom(records, 0, COMPONENT))
  }

  function BuildFingerprint(addresses: Addresses, header: S7Header, szlId: nat, identity: Identity)
    : Option<Fingerprint>
  {
    var known := KnownFields(identity);
    if known == 0 then None
    else Some(Fingerprint(addresses, identity, szlId, header.pduReference, known == 4))
  }

  /** The list a packet carries, if it carries one: the header, the list identifier and the records. */
  function Locate(payload: Packet): Option<(S7Header, nat, Packet)> {
    var unit := ParseTpkt(payload);
    if unit.None? then None else
    var message := ParseCotp(unit.value);
    if message.None? then None else
    var header := ParseHeader(message.value);
    if header.None? || header.value.messageType !in {0x07, 0x03} then None else
    var szl := ExtractSzl(message.value[S7_HEADER..], header.value.parameterLength);
    if szl.None? then None else Some((header.value, szl.value.0, szl.value.1))
  }

  function Decode(raw: Packet): Option<Fingerprint> {
    var (addresses, payload) := ExtractAddresses(raw);
    var list := Locate(payload);
    if list.None? then None
    else BuildFingerprint(addresses, list.value.0, list.value.1, OfList(list.value.1, list.value.2))
  }

  /** Only a successful answer to a list request is read: a TPKT unit of version 3 around a COTP data unit around an
      S7comm message whose parameters say it is one, for the module or the component list; the records are what stands
      behind the list's header, up to the end of the unit. */
  lemma OnlyListResponses(payload: Packet)
    ensures Locate(payload).Some? ==>
              && |payload| >= 6 && payload[0] == 0x03 && payload[5] == 0xF0
              && Word16(payload, 2) <= |payload|
              && var unit := payload[..Word16(payload, 2)];
                 var m := 5 + payload[4] as nat;
                 && |unit| >= m + 10 && unit[m] == 0x32 && (unit[m + 1] == 0x07 || unit[m + 1] == 0x03)
                 && var data := m + 10 + Word16(unit, m + 6);
                    && data >= m + 22 && |unit| >= data + 12
                    && unit[m + 14] == 0x12 && unit[m + 15] == 0x84 && unit[m + 16] == 0x01 && unit[data] == 0xFF
                    && (Word16(unit, data + 4) == 0x0011 || Word16(unit, data + 4) == 0x001C)
                    && Locate(payload).value ==
                       (S7Header(unit[m + 1], Word16(unit, m + 4), Word16(unit, m + 6)), Word16(unit, data + 4),
                        unit[data + 12..])
  {
    if Locate(payload).Some? {
      var length, m := Word16(payload, 2), 5 + payload[4] as nat;
      var unit := payload[..length];
      assert payload[4..length] == unit[4..];
      var message := unit[m..];
      assert ParseCotp(unit[4..]) == Some(message);
      assert Word16(message, 4) == Word16(unit, m + 4) && Word16(message, 6) == Word16(unit, m + 6);
      var body, p := message[10..], Word16(unit, m + 6);
      assert body[4] == unit[m + 14] && body[5] == unit[m + 15] && body[6] == unit[m + 16];
      assert body[p..] == unit[m + 10 + p..];
      assert Word16(body[p..], 4) == Word16(unit, m + 10 + p + 4);
      assert body[p..][12..] == unit[m + 10 + p + 12..];
    }
  }

  method ParseSzlIdentity(szlId: nat, records: Packet) returns (identity: Identity)
    requires szlId == MODULES || szlId == COMPONENTS
    ensures identity == OfList(szlId, records)
  {
    if szlId == MODULES {
      identity := ParseSzl0011(records);
    } else {
      identity := ParseSzl001c(records);
    }
  }

  method ParseS7comm(raw: Packet) returns (fingerprint: Option<Fingerprint>)
    ensures fingerprint == Decode(raw)
  {
    var (addresses, payload) := ExtractAddresses(raw);
    var list := Locate(payload);
    if list.None? { return None; }
    var (header, szlId, records) := list.value;
    var identity := ParseSzlIdentity(szlId, records);
    fingerprint := BuildFingerprint(addresses, header, szlId, identity);
  }

  // ---------------------------------------------------------------- the sender

  /** The parts of a response the parser does not look at. */
  datatype Filler = Filler(reserved: byte, s7Reserved: Packet, dataLength: Packet, transport: Packet, szlRest: Packet,
                           tail: Packet, trailing: Packet)

  datatype Response = Response(cotpHeader: Packet, messageType: byte, pduReference: nat, parameters: Packet,
                               szlId: nat, records: seq<Record>, filler: Filler)

  function ShapeOf(szlId: nat): Shape {
    if szlId == 0x0011 then Shape(20, 6) else Shape(24, 8)
  }

  /** An SZL read response with legal headers whose records fit their fields; `tail` is a record cut
      short. */
  predicate ListResponse(r: Response) {
    && DataHeader(r.cotpHeader)
    && (r.messageType == 0x07 || r.messageType == 0x03)
    && r.pduReference < 0x1_0000
    && 12 <= |r.parameters| < 0x1_0000
    && r.parameters[4] == 0x12 && r.parameters[5] == 0x84 && r.parameters[6] == 0x01
    && (r.szlId == 0x0011 || r.szlId == 0x001C)
    && (forall i :: 0 <= i < |r.records| ==> Encodable(r.records[i], ShapeOf(r.szlId)))
    && |r.filler.s7Reserved| == |r.filler.dataLength| == 2
    && |r.filler.transport| == 3 && |r.filler.szlRest| == 6
    && |r.filler.tail| < ShapeOf(r.szlId).Size()
  }

  function RecordBytes(r: Response): Packet
    requires ListResponse(r)
  {
    EncodeRecords(r.records, ShapeOf(r.szlId)) + r.filler.tail
  }

  function DataSection(r: Response): Packet
    requires ListResponse(r)
  {
    [0xFF] + r.filler.transport + PackWord16(r.szlId) + r.filler.szlRest + RecordBytes(r)
  }

  function Message(r: Response): Packet
    requires ListResponse(r)
  {
    [0x32, r.messageType] + r.filler.s7Reserved + PackWord16(r.pduReference) + PackWord16(|r.parameters|)
      + r.filler.dataLength + (r.parameters + DataSection(r))
  }

  /** The response fits one TPKT unit. */
  predicate Fits(r: Response)
    requires ListResponse(r)
  {
    4 + 1 + |r.cotpHeader| + |Message(r)| <= 0xFFFF
  }

  function Wire(r: Response): Packet
    requires ListResponse(r) && Fits(r)
  {
    Tpkt(r.filler.reserved, Cotp(r.cotpHeader, Message(r))) + r.filler.trailing
  }

  lemma SzlExtracted(r: Response)
    requires ListResponse(r)
    ensures ExtractSzl(r.parameters + DataSection(r), |r.parameters|) == Some((r.szlId, RecordBytes(r)))
  {
    hide RecordBytes, Encodable;
    var data := DataSection(r);
    assert (r.parameters + data)[|r.parameters|..] == data;
    assert data[4..6] == PackWord16(r.szlId);
    assert Word16(data, 4) == Word16(data[4..6], 0);
    assert data[SZL_HEADER..] == RecordBytes(r);
  }

  lemma HeaderParsed(r: Response)
    requires ListResponse(r)
    ensures ParseHeader(Message(r)) == Some(S7Header(r.messageType, r.pduReference, |r.parameters|))
    ensures Message(r)[S7_HEADER..] == r.parameters + DataSection(r)
  {
    hide DataSection, Encodable;
    var m := Message(r);
    assert m[4..6] == PackWord16(r.pduReference) && m[6..8] == PackWord16(|r.parameters|);
    assert Word16(m, 4) == Word16(m[4..6], 0) && Word16(m, 6) == Word16(m[6..8], 0);
  }

  lemma ListLocated(r: Response)
    requires ListResponse(r) && Fits(r)
    ensures Locate(Wire(r)) == Some((S7Header(r.messageType, r.pduReference, |r.parameters|), r.szlId, RecordBytes(r)))
  {
    HeaderParsed(r);
    SzlExtracted(r);
    hide ParseTpkt, ParseCotp, ParseHeader, ExtractSzl, Tpkt, Cotp, Message, DataSection, RecordBytes, Encodable;
    PeelInvertsWrap(r.filler.reserved, r.cotpHeader, Message(r), r.filler.trailing);
  }

  function OfRecords(szlId: nat, rs: seq<Record>): Identity {
    if szlId == 0x0011 then OfModules(rs) else OfComponents(rs)
  }

  /** The fingerprint the records call for: none when no field is known, complete when all four are. */
  function Expected(addresses: Addresses, r: Response): Option<Fingerprint> {
    var identity := OfRecords(r.szlId, r.records);
    if identity == Identity(None, None, None, None) then None
    else Some(Fingerprint(addresses, identity, r.szlId, r.pduReference,
                          identity.plcType.Some? && identity.moduleName.Some?
                          && identity.firmwareVersion.Some? && identity.serialNumber.Some?))
  }

  lemma ListDecoded(r: Response)
    requires ListResponse(r)
    ensures OfList(r.szlId, RecordBytes(r)) == OfRecords(r.szlId, r.records)
  {
    hide Encodable, OfModules, OfComponents, RecordsFrom, EncodeRecords;
    var encoded := EncodeRecords(r.records, ShapeOf(r.szlId));
    assert RecordBytes(r)[0..|encoded|] == encoded;
    RecordsDecoded(RecordBytes(r), 0, r.records, ShapeOf(r.szlId));
  }

  /** The packet layers in front of the response are peeled whatever their options. */
  lemma AddressesStripped(ip: Packet, tcp: Packet, payload: Packet)
    requires IpHeader(ip) && TcpHeader(tcp)
    ensures ExtractAddresses(ip + tcp + payload) == (Addressed(Quad(ip, 12), Quad(ip, 16)), payload)
  {
    var raw := ip + tcp + payload;
    assert raw[0] == ip[0] && raw[|ip| + 12] == tcp[12];
    assert raw[12..16] == ip[12..16] && raw[16..20] == ip[16..20];
    assert raw[|ip| + |tcp|..] == payload;
  }

  /** A TPKT unit without headers in front passes the address step unchanged, and unaddressed. */
  lemma UnaddressedTpkt(payload: Packet)
    requires payload != [] && payload[0] == 0x03
    ensures ExtractAddresses(payload) == (Unaddressed, payload)
  {
  }

  /** End to end: the decoded identity is the one the records name, complete exactly when all four
      fields are, and there is none exactly when no field is. */
  lemma ResponseDecoded(r: Response)
    requires ListResponse(r) && Fits(r)
    ensures Decode(Wire(r)) == Expected(Unaddressed, r)
  {
    hide ListResponse, Message, RecordBytes, Locate, OfList, OfRecords;
    ListLocated(r);
    ListDecoded(r);
    WireStart(r);
    UnaddressedTpkt(Wire(r));
  }

  lemma WireStart(r: Response)
    requires ListResponse(r) && Fits(r)
    ensures Wire(r) != [] && Wire(r)[0] == 0x03
  {
    hide ListResponse, Message, Cotp;
  }

  /** The same behind any legal IPv4 and TCP header. */
  lemma PacketDecoded(ip: Packet, tcp: Packet, r: Response)
    requires IpHeader(ip) && TcpHeader(tcp)
    requires ListResponse(r) && Fits(r)
    ensures Decode(ip + tcp + Wire(r)) == Expected(Addressed(Quad(ip, 12), Quad(ip, 16)), r)
  {
    hide ListResponse, Message, RecordBytes, Locate, OfList, OfRecords, ExtractAddresses, Wire, IpHeader, TcpHeader;
    ListLocated(r);
    ListDecoded(r);
    AddressesStripped(ip, tcp, Wire(r));
  }

  // ---------------------------------------------------------------- the prober's request

  function RequestMessage(): Packet {
    [0x32, 0x07, 0x00, 0x00] + PackWord16(0x0100) + PackWord16(8) + PackWord16(8)
      + [0x00, 0x01, 0x12, 0x04, 0x11, 0x44, 0x01, 0x00]
      + [0x0A, 0x00, 0x00, 0x04] + PackWord16(0x001C) + PackWord16(0)
  }

  function SzlRequest(): Packet {
    Tpkt(0x00, Cotp([0xF0, 0x80], RequestMessage()))
  }

  /** The prober's own request is framed as the parser expects, and when it is captured or echoed it is not
      taken for a device. */
  lemma EchoedRequestIsNoDevice(trailing: Packet)
    ensures var unit := ParseTpkt(SzlRequest() + trailing);
            && unit.Some? && ParseCotp(unit.value) == Some(RequestMessage())
            && ParseHeader(RequestMessage()) == Some(S7Header(0x07, 0x0100, 8))
    ensures Decode(SzlRequest() + trailing) == None
  {
    var message := RequestMessage();
    assert message[4..6] == PackWord16(0x0100) && message[6..8] == PackWord16(8);
    assert Word16(message, 4) == Word16(message[4..6], 0) && Word16(message, 6) == Word16(message[6..8], 0);
    hide RequestMessage, ParseTpkt, ParseCotp, Cotp;
    PeelInvertsWrap(0x00, [0xF0, 0x80], message, trailing);
    UnaddressedTpkt(SzlRequest() + trailing);
  }
}
