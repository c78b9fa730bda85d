/** The headers in front of an industrial protocol: Ethernet II, IPv4 (section 3.1 of RFC 791) and TCP
    (section 3.1 of RFC 9293).  Options may follow the fixed part of the last two. */
module NetworkHeaders {
  import opened Bytes

  /** A legal IPv4 header: version 4, and a header length of at least five 32-bit words. */
  predicate IpHeader(header: Packet) {
    && 20 <= |header| <= 60 && |header| % 4 == 0
    && header[0] as int == 0x40 + |header| / 4
  }

  /** A legal TCP header; the low four bits of byte 12 are reserved. */
  predicate TcpHeader(header: Packet) {
    && 20 <= |header| <= 60 && |header| % 4 == 0
    && header[12] as int / 16 == |header| / 4
  }

  /** A legal Ethernet II header in front of an IPv4 packet. */
  predicate EthernetHeader(header: Packet) {
    |header| == 14 && Word16(header, 12) == 0x0800
  }

  /** A slice whose start may lie behind the end. */
  function From(data: Packet, start: nat): (rest: Packet) {
    if start <= |data| then data[start..] else []
  }

  /** The dotted quad at `offset`, as its four numbers. */
  function Quad(data: Packet, offset: nat): (address: Packet)
    requires offset + 4 <= |data|
    ensures |address| == 4
  {
    data[offset..offset + 4]
  }
}
