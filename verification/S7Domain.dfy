/** S7comm fingerprints as domain objects: they always fit the domain model, and whether one survives
    serialization depends on where its packet started. */
module S7Domain {
  import opened Bytes
  import opened PaddedText
  import opened S7comm
  import opened Text
  import S7Responses
  import Schema
  import Serialization

  function Decimal(n: nat): (text: string)
    ensures text != ""
  {
    var digit := [(48 + n % 10) as char];
    if n < 10 then digit else Decimal(n / 10) + digit
  }

  function Dotted(address: Packet): (text: string)
    requires |address| == 4
    ensures text != ""
  {
    Decimal(address[0] as nat) + "." + Decimal(address[1] as nat) + "." + Decimal(address[2] as nat) + "."
      + Decimal(address[3] as nat)
  }

  function Hex(szlId: nat): string {
    if szlId == S7Responses.MODULES then "0x11" else "0x1c"
  }

  predicate Quads(addresses: S7Responses.Addresses) {
    addresses.Addressed? ==> |addresses.source| == |addresses.destination| == 4
  }

  function Domain(f: S7Responses.Fingerprint): Serialization.Fingerprint
    requires Quads(f.addresses)
  {
    Serialization.Fingerprint(
      "1.0.0", "s7comm",
      if f.addresses.Addressed? then Dotted(f.addresses.source) else "",
      if f.addresses.Addressed? then Dotted(f.addresses.destination) else "",
      None, None, Some("Siemens"), f.identity.plcType, f.identity.firmwareVersion, Some("PLC"), f.identity.serialNumber,
      map[Schema.Other("module_name") := Serialization.Nullable(f.identity.moduleName),
          Schema.Other("szl_id") := Schema.Str(Hex(f.szlId)),
          Schema.Other("pdu_reference") := Schema.Integer(f.pduReference)],
      if f.complete then "complete" else "partial", map[])
  }

  // ---------------------------------------------------------------- field lengths

  lemma {:induction false} BeforeNulShorter(data: Packet)
    ensures |BeforeNul(data)| <= |data|
    decreases |data|
  {
    if data != [] && data[0] != 0 { BeforeNulShorter(data[1..]); }
  }

  lemma DecodedShorter(data: Packet)
    ensures Within(DecodeNullPadded(data), |data|)
  {
    BeforeNulShorter(data);
  }

  predicate Short(rs: seq<Record>, limit: nat) {
    forall i :: 0 <= i < |rs| ==> Within(rs[i].name, limit) && Within(rs[i].extra, limit)
  }

  lemma {:induction false} RecordsShort(records: Packet, offset: nat, shape: Shape, limit: nat)
    requires shape.name <= limit && shape.extra <= limit
    ensures Short(RecordsFrom(records, offset, shape), limit)
    decreases |records| - offset
  {
    hide DecodeNullPadded;
    if offset + shape.Size() <= |records| {
      var extra := offset + 2 + shape.name;
      DecodedShorter(records[offset + 2..extra]);
      DecodedShorter(records[extra..extra + shape.extra]);
      RecordsShort(records, offset + shape.Size(), shape, limit);
    }
  }

  lemma {:induction false} PicksShort(rs: seq<Record>, p: Pick, limit: nat)
    requires Short(rs, limit)
    ensures Within(First(rs, p), limit) && Within(Last(rs, p), limit)
    decreases |rs|
  {
    hide LooksLikeVersion;
    if rs != [] { PicksShort(rs[..|rs| - 1], p, limit); }
  }

  predicate ShortIdentity(identity: Identity, limit: nat) {
    && Within(identity.plcType, limit) && Within(identity.moduleName, limit)
    && Within(identity.firmwareVersion, limit) && Within(identity.serialNumber, limit)
  }

  lemma IdentityShort(szlId: nat, records: Packet)
    ensures ShortIdentity(S7Responses.OfList(szlId, records), 24)
  {
    hide RecordsFrom, First, Last, Short;
    var modules, components := RecordsFrom(records, 0, MODULE), RecordsFrom(records, 0, COMPONENT);
    RecordsShort(records, 0, MODULE, 24);
    RecordsShort(records, 0, COMPONENT, 24);
    forall p { PicksShort(modules, p, 24); }
    forall p { PicksShort(components, p, 24); }
  }

  // ---------------------------------------------------------------- domain objects

  lemma DecodedFits(raw: Packet)
    requires S7Responses.Decode(raw).Some?
    ensures var f := S7Responses.Decode(raw).value; Quads(f.addresses) && ShortIdentity(f.identity, 24)
    ensures S7Responses.Decode(raw).value.addresses == S7Responses.ExtractAddresses(raw).0
  {
    hide S7Responses.Locate, S7Responses.OfList;
    var list := S7Responses.Locate(S7Responses.ExtractAddresses(raw).1);
    IdentityShort(list.value.1, list.value.2);
  }

  /** Which part of the identity stands for which attribute of the domain object. */
  lemma DomainTells(f: S7Responses.Fingerprint)
    requires Quads(f.addresses)
    ensures var d := Domain(f);
            && d.protocol == "s7comm" && d.vendor == Some("Siemens") && d.deviceType == Some("PLC")
            && d.model == f.identity.plcType && d.firmware == f.identity.firmwareVersion
            && d.serial == f.identity.serialNumber
            && d.status == (if f.complete then "complete" else "partial")
            && (d.source != "" <==> f.addresses.Addressed?) && (d.destination != "" <==> f.addresses.Addressed?)
  {
  }

  /** Whatever the packet, building the domain object cannot fail. */
  lemma AlwaysValid(raw: Packet)
    requires S7Responses.Decode(raw).Some?
    ensures var f := S7Responses.Decode(raw).value; Quads(f.addresses) && Serialization.Valid(Domain(f))
  {
    DecodedFits(raw);
    Serialization.SupportedIsVersion();
    hide S7Responses.Decode, S7Responses.ExtractAddresses, Schema.IsVersion, Decimal, Dotted, Hex;
  }

  /** Across the modules: the fingerprint of any packet survives serialization exactly when the parser found
      the addresses, that is when the packet started at its IP header. */
  lemma SurvivesIffAddressed(raw: Packet)
    requires S7Responses.Decode(raw).Some?
    ensures var f := S7Responses.Decode(raw).value;
            && Quads(f.addresses)
            && Serialization.Deserialize(Serialization.Serialize(Domain(f))) ==
                 if S7Responses.ExtractAddresses(raw).0.Addressed? then Serialization.Ok(Domain(f))
                 else Serialization.Error(Serialization.SchemaValidation)
  {
    AlwaysValid(raw);
    DecodedFits(raw);
    hide S7Responses.Decode, S7Responses.ExtractAddresses, Serialization.Deserialize, Serialization.Valid, Dotted;
    Serialization.RoundTrip(Domain(S7Responses.Decode(raw).value));
  }

  /** The sniffer hands over the bytes behind the transport header; when these start with the TPKT unit, as
      S7comm over TCP does, the fingerprint does not survive serialization. */
  lemma SniffedNeverSurvives(payload: Packet)
    requires payload != [] && payload[0] == 0x03 && S7Responses.Decode(payload).Some?
    ensures var f := S7Responses.Decode(payload).value;
            && Quads(f.addresses)
            && Serialization.Deserialize(Serialization.Serialize(Domain(f))) ==
                 Serialization.Error(Serialization.SchemaValidation)
  {
    hide S7Responses.Decode, Serialization.Deserialize;
    SurvivesIffAddressed(payload);
    S7Responses.UnaddressedTpkt(payload);
  }
}
