/** The passive sniffer's packet dispatch: which protocol a captured Ethernet frame carries, and the bytes its
    parser gets. */
module Sniffer {
  import opened Bytes
  import opened NetworkHeaders
  import Dnp3Attributes
  import Dnp3Frame
  import LastWins
  import Modbus
  import S7Responses

  datatype Protocol = ModbusTcp | EthernetIp | S7comm | Dnp3

  const TCP: byte := 6
  const UDP: byte := 17
  const ETHERNET: nat := 14
  const MODBUS_PORT: nat := 502
  const ETHERNETIP_TCP_PORT: nat := 44818
  const ETHERNETIP_UDP_PORT: nat := 2222
  const S7COMM_PORT: nat := 102
  const DNP3_PORT: nat := 20000

  function ProtocolOfPorts(source: nat, destination: nat): Option<Protocol> {
    if source == MODBUS_PORT || destination == MODBUS_PORT then Some(ModbusTcp)
    else if source == ETHERNETIP_TCP_PORT || destination == ETHERNETIP_TCP_PORT then Some(EthernetIp)
    else if source == ETHERNETIP_UDP_PORT || destination == ETHERNETIP_UDP_PORT then Some(EthernetIp)
    else if source == S7COMM_PORT || destination == S7COMM_PORT then Some(S7comm)
    else if source == DNP3_PORT || destination == DNP3_PORT then Some(Dnp3)
    else None
  }

  predicate Uses(source: nat, destination: nat, port: nat) {
    source == port || destination == port
  }

  /** Which protocol two ports stand for: the first of 502, 44818 and 2222, 102, and 20000 that is among them. */
  lemma PortsExactly(source: nat, destination: nat)
    ensures var p, at := ProtocolOfPorts(source, destination), (port: nat) => Uses(source, destination, port);
            && (p == Some(ModbusTcp) <==> at(502))
            && (p == Some(EthernetIp) <==> (at(44818) || at(2222)) && !at(502))
            && (p == Some(S7comm) <==> at(102) && !at(502) && !at(44818) && !at(2222))
            && (p == Some(Dnp3) <==> at(20000) && !at(502) && !at(44818) && !at(2222) && !at(102))
  {
  }

  function TransportStart(raw: Packet): nat
    requires |raw| > ETHERNET
  {
    ETHERNET + raw[ETHERNET] as nat % 16 * 4
  }

  function IdentifyProtocol(raw: Packet): Option<Protocol> {
    if |raw| < 34 || Word16(raw, 12) != 0x0800 then None
    else if raw[ETHERNET + 9] != TCP && raw[ETHERNET + 9] != UDP then None
    else
      var transport := TransportStart(raw);
      if |raw| < transport + 4 then None
      else ProtocolOfPorts(Word16(raw, transport), Word16(raw, transport + 2))
  }

  function ExtractPayload(raw: Packet): (payload: Option<Packet>)
    ensures payload.Some? ==> payload.value != []
  {
    if |raw| < 34 then None
    else
      var transport := TransportStart(raw);
      var start :=
        if raw[ETHERNET + 9] == TCP then
          if |raw| < transport + 13 then None else Some(transport + raw[transport + 12] as nat / 16 * 4)
        else if raw[ETHERNET + 9] == UDP then Some(transport + 8)
        else None;
      if start.None? || start.value >= |raw| then None else Some(raw[start.value..])
  }

  function ExtractSourceIp(raw: Packet): Option<Packet> {
    if |raw| < 30 || Word16(raw, 12) != 0x0800 then None else Some(Quad(raw, ETHERNET + 12))
  }

  function ExtractDestinationIp(raw: Packet): Option<Packet> {
    if |raw| < 34 || Word16(raw, 12) != 0x0800 then None else Some(Quad(raw, ETHERNET + 16))
  }

  /** What reaches a parser: the payload, and the addresses the caller passes with it. */
  datatype Dispatch = Dispatch(protocol: Protocol, payload: Packet, source: Packet, destination: Packet)

  /** The addresses fall back to the hardware addresses, which is never needed: `AddressedByIp`. */
  function Route(raw: Packet, sourceMac: Packet, destinationMac: Packet): (d: Option<Dispatch>) {
    var protocol, payload := IdentifyProtocol(raw), ExtractPayload(raw);
    if protocol.None? || payload.None? then None
    else
      var source, destination := ExtractSourceIp(raw), ExtractDestinationIp(raw);
      Some(Dispatch(protocol.value, payload.value,
                    if source.Some? then source.value else sourceMac,
                    if destination.Some? then destination.value else destinationMac))
  }

  /** A dispatched frame always carries IP addresses, so the hardware addresses do not influence it. */
  lemma AddressedByIp(raw: Packet, sourceMac: Packet, destinationMac: Packet, otherSource: Packet,
                      otherDestination: Packet)
    ensures Route(raw, sourceMac, destinationMac) == Route(raw, otherSource, otherDestination)
    ensures var d := Route(raw, sourceMac, destinationMac);
            d.Some? ==> |raw| >= 34 && d.value.source == raw[26..30] && d.value.destination == raw[30..34]
  {
  }

  /** A transport header the sniffer understands, for the protocol number in the IP header. */
  predicate TransportHeader(ip: Packet, transport: Packet)
    requires IpHeader(ip)
  {
    if ip[9] == 6 then TcpHeader(transport) else ip[9] == 17 && |transport| == 8
  }

  /** Any legal frame with a non-empty payload is dispatched by its ports alone, with exactly the payload
      and the addresses of its IP header, whatever header options it carries. */
  lemma FrameRouted(ethernet: Packet, ip: Packet, transport: Packet, payload: Packet, sourceMac: Packet,
                    destinationMac: Packet)
    requires EthernetHeader(ethernet) && IpHeader(ip) && TransportHeader(ip, transport) && payload != []
    ensures var protocol := ProtocolOfPorts(Word16(transport, 0), Word16(transport, 2));
            Route(ethernet + ip + transport + payload, sourceMac, destinationMac) ==
              if protocol.None? then None
              else Some(Dispatch(protocol.value, payload, Quad(ip, 12), Quad(ip, 16)))
  {
    hide ProtocolOfPorts;
    var raw := ethernet + ip + transport + payload;
    var start := ETHERNET + |ip|;
    FrameFields(ethernet, ip, transport, payload);
    assert TransportStart(raw) == start;
    assert IdentifyProtocol(raw) == ProtocolOfPorts(Word16(transport, 0), Word16(transport, 2));
    assert ExtractPayload(raw) == Some(payload);
  }

  lemma FrameFields(ethernet: Packet, ip: Packet, transport: Packet, payload: Packet)
    requires |ethernet| == ETHERNET && |ip| >= 20 && |transport| >= 8
    ensures var raw, start := ethernet + ip + transport + payload, ETHERNET + |ip|;
            && Word16(raw, 12) == Word16(ethernet, 12)
            && raw[ETHERNET] == ip[0] && raw[ETHERNET + 9] == ip[9]
            && Quad(raw, ETHERNET + 12) == Quad(ip, 12) && Quad(raw, ETHERNET + 16) == Quad(ip, 16)
            && Word16(raw, start) == Word16(transport, 0) && Word16(raw, start + 2) == Word16(transport, 2)
            && (|transport| > 12 ==> raw[start + 12] == transport[12])
            && raw[start + |transport|..] == payload
  {
  }

  /** End to end: a device identification response behind any legal Ethernet, IPv4 and TCP headers, sent from
      or to the Modbus port, with any padding behind it. */
  lemma ModbusFrameDecoded(decode: Modbus.Decoder, ethernet: Packet, ip: Packet, tcp: Packet, r: Modbus.Response,
                           padding: Packet, sourceMac: Packet, destinationMac: Packet)
    requires EthernetHeader(ethernet) && IpHeader(ip) && ip[9] == 6 && TcpHeader(tcp) && Modbus.Legal(r)
    requires Word16(tcp, 0) == 502 || Word16(tcp, 2) == 502
    ensures var d := Route(ethernet + ip + tcp + (Modbus.Wire(r) + padding), sourceMac, destinationMac);
            && d.Some? && d.value.protocol == ModbusTcp
            && d.value.source == Quad(ip, 12) && d.value.destination == Quad(ip, 16)
            && Modbus.Decode(decode, d.value.payload) ==
               Modbus.BuildParseResult(Modbus.Dictionary(decode, r.objects), r.unitId, r.deviceIdCode, r.conformity)
  {
    hide Modbus.Wire, Modbus.Decode, Modbus.BuildParseResult, Modbus.Dictionary, Route;
    var payload := Modbus.Wire(r) + padding;
    FrameRouted(ethernet, ip, tcp, payload, sourceMac, destinationMac);
    Modbus.ResponseDecoded(decode, r, padding, |payload|);
    Modbus.AllWhole(r, |payload|);
    assert payload[..|payload|] == payload;
  }

  /** End to end for S7comm.  The parser looks for the addresses in its own bytes, where they no longer are,
      so the fingerprint of a sniffed frame is unaddressed. */
  lemma S7FrameDecoded(ethernet: Packet, ip: Packet, tcp: Packet, r: S7Responses.Response, sourceMac: Packet,
                       destinationMac: Packet)
    requires EthernetHeader(ethernet) && IpHeader(ip) && ip[9] == 6 && TcpHeader(tcp)
    requires Uses(Word16(tcp, 0), Word16(tcp, 2), 102)
    requires forall port :: port in {502, 44818, 2222} ==> !Uses(Word16(tcp, 0), Word16(tcp, 2), port)
    requires S7Responses.ListResponse(r) && S7Responses.Fits(r)
    ensures var d := Route(ethernet + ip + tcp + S7Responses.Wire(r), sourceMac, destinationMac);
            && d.Some? && d.value.protocol == S7comm
            && S7Responses.Decode(d.value.payload) ==
               S7Responses.Expected(S7Responses.Unaddressed, r)
  {
    hide S7Responses.ListResponse, S7Responses.Fits, S7Responses.Wire, S7Responses.Decode, S7Responses.Expected, Route,
         ProtocolOfPorts;
    PortsExactly(Word16(tcp, 0), Word16(tcp, 2));
    S7Responses.WireStart(r);
    FrameRouted(ethernet, ip, tcp, S7Responses.Wire(r), sourceMac, destinationMac);
    S7Responses.ResponseDecoded(r);
  }

  /** End to end for DNP3, over TCP or UDP and with any padding. */
  lemma Dnp3FrameDecoded(decode: Dnp3Attributes.Decoder, ethernet: Packet, ip: Packet, transport: Packet, control: byte,
                         station: nat, master: nat, user: Packet, objects: seq<Dnp3Attributes.AttributeObject>,
                         trailer: Dnp3Frame.Trailer, padding: Packet, sourceMac: Packet, destinationMac: Packet)
    requires EthernetHeader(ethernet) && IpHeader(ip) && TransportHeader(ip, transport)
    requires Uses(Word16(transport, 0), Word16(transport, 2), 20000)
    requires forall port :: port in {502, 44818, 2222, 102} ==>
               !Uses(Word16(transport, 0), Word16(transport, 2), port)
    requires station < 0x1_0000 && master < 0x1_0000
    requires forall i :: 0 <= i < |objects| ==> Dnp3Attributes.WellFormed(objects[i])
    requires |user| == 5 && user[2] == 0x81
    requires 5 + |Dnp3Attributes.EncodeObjects(objects)| <= 250
    ensures var data := user + Dnp3Attributes.EncodeObjects(objects);
            var frame := Dnp3Frame.Frame(control, master, station, data, trailer) + padding;
            var d := Route(ethernet + ip + transport + frame, sourceMac, destinationMac);
            && d.Some? && d.value.protocol == Dnp3
            && Dnp3Attributes.ParseDnp3(d.value.payload, decode) ==
               Dnp3Attributes.ParseResult(
                 Dnp3Attributes.BuildFingerprint(LastWins.Overlay(Dnp3Attributes.ObjectPairs(objects, decode))),
                 Some(station), Some(master))
  {
    hide Dnp3Attributes.ParseDnp3, Dnp3Attributes.BuildFingerprint, LastWins.Overlay, Dnp3Attributes.ObjectPairs,
         Dnp3Attributes.EncodeObjects, Dnp3Attributes.WellFormed, Dnp3Frame.Frame, Route, ProtocolOfPorts;
    PortsExactly(Word16(transport, 0), Word16(transport, 2));
    var encoded := Dnp3Attributes.EncodeObjects(objects);
    assert user + encoded == [user[0], user[1], user[2], user[3], user[4]] + encoded;
    var frame := Dnp3Frame.Frame(control, master, station, user + encoded, trailer);
    FrameRouted(ethernet, ip, transport, frame + padding, sourceMac, destinationMac);
    Dnp3Attributes.ResponseDecoded(control, master, station, user[0], user[1], (user[3], user[4]), objects, trailer,
                                   padding, decode);
  }
}
