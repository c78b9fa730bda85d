/** Bytes, 16-bit fields and positions inside a packet, shared by the protocol modules. */
module Bytes {

  datatype Option<+T> = None | Some(value: T)

  newtype byte = x: int | 0 <= x < 256

  type Packet = seq<byte>

  function Min(a: int, b: int): int {
    if a <= b then a else b
  }

  /** The big-endian 16-bit field (`struct` format ">H") at `offset`. */
  function Word16(data: Packet, offset: nat): (v: nat)
    requires offset + 2 <= |data|
    ensures v < 0x1_0000
  {
    data[offset] as int * 256 + data[offset + 1] as int
  }

  /** The little-endian 16-bit field (`struct` format "<H") at `offset`. */
  function LittleWord16(data: Packet, offset: nat): (v: nat)
    requires offset + 2 <= |data|
    ensures v < 0x1_0000
  {
    data[offset] as int + 256 * data[offset + 1] as int
  }

  function PackWord16(v: nat): (bytes: Packet)
    requires v < 0x1_0000
    ensures |bytes| == 2 && Word16(bytes, 0) == v
  {
    [(v / 256) as byte, (v % 256) as byte]
  }

  function PackLittleWord16(v: nat): (bytes: Packet)
    requires v < 0x1_0000
    ensures |bytes| == 2 && LittleWord16(bytes, 0) == v
  {
    [(v % 256) as byte, (v / 256) as byte]
  }

  /** `part` stands in `data` at `offset`. */
  ghost predicate At(data: Packet, offset: nat, part: Packet) {
    offset + |part| <= |data| && data[offset..offset + |part|] == part
  }

  lemma AtSplit(data: Packet, offset: nat, first: Packet, second: Packet)
    requires At(data, offset, first + second)
    ensures At(data, offset, first) && At(data, offset + |first|, second)
  {
    var whole := data[offset..offset + |first| + |second|];
    assert whole == first + second;
    assert data[offset..offset + |first|] == whole[..|first|];
    assert data[offset + |first|..offset + |first| + |second|] == whole[|first|..];
  }

  lemma AtByte(data: Packet, offset: nat, part: Packet, i: nat)
    requires At(data, offset, part) && i < |part|
    ensures data[offset + i] == part[i]
  {
    assert data[offset..offset + |part|][i] == data[offset + i];
  }
}
