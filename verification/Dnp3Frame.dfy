/**
 * The DNP3 link-layer frame (clause 9 of IEEE Std 1815-2012): a ten-byte header block, then blocks of
 * at most 16 user bytes, every block followed by two checksum bytes.
 *
 * The parser strips the checksum bytes without looking at them, so the framing theorems hold for
 * every block trailer; `Checksummed` is the trailer the prober computes.
 */
module Dnp3Frame {
  import opened Bytes
  import Crc

  const BLOCK: nat := 16
  const HEADER: nat := 10
  const MAX_USER_DATA: nat := 250

  /** The two bytes a builder puts behind a block. */
  type Trailer = Packet -> (byte, byte)

  function Checksummed(block: Packet): (byte, byte) {
    (Crc.Checksum(block)[0], Crc.Checksum(block)[1])
  }

  // ---------------------------------------------------------------- building

  function LinkHeader(control: byte, destination: nat, source: nat, userBytes: nat): (header: Packet)
    requires userBytes <= MAX_USER_DATA && destination < 0x1_0000 && source < 0x1_0000
    ensures |header| == 8
  {
    [0x05, 0x64, (5 + userBytes) as byte, control]
      + PackLittleWord16(destination) + PackLittleWord16(source)
  }

  function WithTrailer(block: Packet, trailer: Trailer): (out: Packet)
    ensures |out| == |block| + 2
  {
    block + [trailer(block).0, trailer(block).1]
  }

  function Blocks(data: Packet, trailer: Trailer): (out: Packet)
    ensures data != [] ==> |out| >= |data| + 2
    decreases |data|
  {
    if data == [] then []
    else if |data| <= 16 then WithTrailer(data, trailer)
    else WithTrailer(data[..16], trailer) + Blocks(data[16..], trailer)
  }

  function Frame(control: byte, destination: nat, source: nat, data: Packet, trailer: Trailer): (out: Packet)
    requires |data| <= MAX_USER_DATA && destination < 0x1_0000 && source < 0x1_0000
    ensures |out| >= HEADER
  {
    WithTrailer(LinkHeader(control, destination, source, |data|), trailer) + Blocks(data, trailer)
  }

  /** The user bytes of the read-all-attributes request: transport header, application control, read,
      then group 0, variation 254, all objects. */
  function RequestData(): Packet {
    [0xC0] + ([0xC0, 0x01] + [0x00, 0xFE, 0x06])
  }

  /** The prober's frame: header, its checksum, the user bytes as one block, their checksum. */
  function ProberFrame(control: byte, destination: nat, source: nat, userData: Packet): (out: Packet)
    requires |userData| <= MAX_USER_DATA && destination < 0x1_0000 && source < 0x1_0000
  {
    var header := LinkHeader(control, destination, source, |userData|);
    header + Crc.Checksum(header) + userData + Crc.Checksum(userData)
  }

  function AttributesRequest(): (out: Packet) {
    ProberFrame(0xC4, 0x0001, 0x0003, RequestData())
  }

  // ---------------------------------------------------------------- extracting

  /** The bytes the extraction loop still collects from `offset` when `remaining` are expected. */
  function Gather(raw: Packet, offset: nat, remaining: nat): (data: Packet)
    ensures |data| <= remaining
    decreases remaining
  {
    if offset < |raw| && remaining > 0 then
      var size := Min(Min(BLOCK, remaining), |raw| - offset);
      raw[offset..offset + size] + Gather(raw, offset + size + 2, remaining - size)
    else
      []
  }

  lemma GatherUnfold(raw: Packet, offset: nat, remaining: nat, size: nat)
    requires offset < |raw| && remaining > 0 && size == Min(Min(BLOCK, remaining), |raw| - offset)
    ensures Gather(raw, offset, remaining)
              == raw[offset..offset + size] + Gather(raw, offset + size + 2, remaining - size)
  {
  }

  lemma GatherStep(raw: Packet, offset: nat, remaining: nat, size: nat, collected: Packet)
    requires offset < |raw| && remaining > 0 && size == Min(Min(BLOCK, remaining), |raw| - offset)
    ensures collected + Gather(raw, offset, remaining)
              == (collected + raw[offset..offset + size]) + Gather(raw, offset + size + 2, remaining - size)
  {
    hide Gather;
    GatherUnfold(raw, offset, remaining, size);
    var block, later := raw[offset..offset + size], Gather(raw, offset + size + 2, remaining - size);
    assert collected + (block + later) == (collected + block) + later;
  }

  lemma GatherDone(raw: Packet, offset: nat, remaining: nat, collected: Packet)
    requires offset >= |raw| || remaining == 0
    ensures collected + Gather(raw, offset, remaining) == collected
  {
    assert collected + [] == collected;
  }

  function UserData(raw: Packet): Option<Packet> {
    if |raw| <= HEADER || raw[2] <= 5 then None
    else
      var data := Gather(raw, HEADER, raw[2] as int - 5);
      if data == [] then None else Some(data)
  }

  method ExtractUserData(raw: Packet) returns (result: Option<Packet>)
    ensures result == UserData(raw)
  {
    hide Gather;
    if |raw| < 10 { return None; }
    var length := raw[2] as int;
    if |raw| <= 10 { return None; }
    var userData: Packet := [];
    var offset := 10;
    var userDataLength := length - 5;
    if userDataLength <= 0 { return None; }
    var remaining := userDataLength;
    while offset < |raw| && remaining > 0
      invariant offset >= 10 && remaining >= 0
      invariant userData + Gather(raw, offset, remaining) == Gather(raw, 10, userDataLength)
      decreases remaining
    {
      var blockSize := Min(16, remaining);
      if offset + blockSize > |raw| {
        blockSize := |raw| - offset;
      }
      GatherStep(raw, offset, remaining, blockSize, userData);
      userData := userData + raw[offset..offset + blockSize];
      remaining := remaining - blockSize;
      offset := offset + blockSize + 2;
    }
    GatherDone(raw, offset, remaining, userData);
    return if userData != [] then Some(userData) else None;
  }

  // ---------------------------------------------------------------- properties

  /** Of the first `sent` bytes behind the header, how many are user bytes of an `n`-byte message. */
  function UserBytesWithin(n: nat, sent: nat): (k: nat)
    ensures k <= n
  {
    Min(n, 16 * (sent / 18) + Min(16, sent % 18))
  }

  lemma UserBytesStep(n: nat, sent: nat)
    requires n > BLOCK && sent >= BLOCK + 2
    ensures UserBytesWithin(n, sent) == BLOCK + UserBytesWithin(n - BLOCK, sent - BLOCK - 2)
  {
    var rest := sent - 18;
    assert sent / 18 == rest / 18 + 1 && sent % 18 == rest % 18;
  }

  lemma OneBlockLength(n: nat, sent: nat)
    requires sent <= BLOCK + 2
    requires n <= BLOCK || sent < BLOCK + 2 || n >= sent - 2
    ensures UserBytesWithin(n, sent) == Min(Min(BLOCK, n), sent)
  {
    if sent == BLOCK + 2 {
      assert sent / 18 == 1 && sent % 18 == 0;
    } else {
      assert sent / 18 == 0 && sent % 18 == sent;
    }
  }

  lemma BlocksStart(raw: Packet, offset: nat, data: Packet, trailer: Trailer, sent: nat)
    requires sent <= |Blocks(data, trailer)| && offset + sent == |raw|
    requires raw[offset..] == Blocks(data, trailer)[..sent]
    ensures raw[offset..][..Min(Min(BLOCK, |data|), sent)] == data[..Min(Min(BLOCK, |data|), sent)]
  {
    var k := Min(Min(BLOCK, |data|), sent);
    assert Blocks(data, trailer)[..sent][..k] == Blocks(data, trailer)[..k] == data[..k];
  }

  lemma BlocksTail(raw: Packet, offset: nat, data: Packet, trailer: Trailer, sent: nat)
    requires |data| > BLOCK && BLOCK + 2 <= sent <= |Blocks(data, trailer)| && offset + sent == |raw|
    requires raw[offset..] == Blocks(data, trailer)[..sent]
    ensures sent - BLOCK - 2 <= |Blocks(data[BLOCK..], trailer)|
    ensures raw[offset + BLOCK + 2..] == Blocks(data[BLOCK..], trailer)[..sent - BLOCK - 2]
  {
    assert raw[offset + BLOCK + 2..] == raw[offset..][BLOCK + 2..];
  }

  /** A cut inside, or right behind, the block that starts at `offset`. */
  lemma GatherLastBlock(raw: Packet, offset: nat, data: Packet, sent: nat)
    requires offset + sent == |raw| && 0 < sent && 0 < |data|
    requires |data| <= BLOCK || sent <= BLOCK + 2
    requires raw[offset..][..Min(Min(BLOCK, |data|), sent)] == data[..Min(Min(BLOCK, |data|), sent)]
    ensures Gather(raw, offset, |data|) == data[..Min(Min(BLOCK, |data|), sent)]
  {
    var size := Min(Min(BLOCK, |data|), sent);
    hide Gather;
    GatherUnfold(raw, offset, |data|, size);
    TakeSlice(raw, offset, size);
    GatherDone(raw, offset + size + 2, |data| - size, raw[offset..offset + size]);
  }

  lemma TakeSlice(raw: Packet, offset: nat, size: nat)
    requires offset + size <= |raw|
    ensures raw[offset..offset + size] == raw[offset..][..size]
  {
  }

  lemma GatherLongStep(raw: Packet, offset: nat, data: Packet, rest: nat)
    requires offset + BLOCK + 2 < |raw| && BLOCK + rest <= |data| && BLOCK < |data|
    requires raw[offset..offset + BLOCK] == data[..BLOCK]
    requires Gather(raw, offset + BLOCK + 2, |data| - BLOCK) == data[BLOCK..][..rest]
    ensures Gather(raw, offset, |data|) == data[..BLOCK + rest]
  {
    hide Gather;
    GatherUnfold(raw, offset, |data|, BLOCK);
    TakeRest(data, BLOCK, rest);
  }

  lemma TakeRest(data: Packet, k: nat, rest: nat)
    requires k + rest <= |data|
    ensures data[..k] + data[k..][..rest] == data[..k + rest]
  {
  }

  lemma OneBlock(data: Packet, trailer: Trailer)
    ensures |data| <= BLOCK ==> |Blocks(data, trailer)| <= BLOCK + 2
  {
  }

  lemma GatherNothing(raw: Packet, offset: nat, n: nat, sent: nat)
    requires offset + sent == |raw| && (sent == 0 || n == 0)
    ensures Gather(raw, offset, n) == [] && UserBytesWithin(n, sent) == 0
  {
  }

  lemma {:induction false} GatherTruncated(raw: Packet, offset: nat, data: Packet, trailer: Trailer, sent: nat)
    requires sent <= |Blocks(data, trailer)| && offset + sent == |raw|
    requires raw[offset..] == Blocks(data, trailer)[..sent]
    ensures Gather(raw, offset, |data|) == data[..UserBytesWithin(|data|, sent)]
    decreases |data|
  {
    hide Gather, Blocks, UserBytesWithin;
    BlocksStart(raw, offset, data, trailer, sent);
    if sent == 0 || data == [] {
      GatherNothing(raw, offset, |data|, sent);
    } else if |data| <= BLOCK || sent <= BLOCK + 2 {
      GatherLastBlock(raw, offset, data, sent);
      OneBlock(data, trailer);
      OneBlockLength(|data|, sent);
    } else {
      BlocksTail(raw, offset, data, trailer, sent);
      GatherTruncated(raw, offset + BLOCK + 2, data[BLOCK..], trailer, sent - BLOCK - 2);
      TakeSlice(raw, offset, BLOCK);
      UserBytesStep(|data|, sent);
      GatherLongStep(raw, offset, data, UserBytesWithin(|data| - BLOCK, sent - BLOCK - 2));
    }
  }

  lemma {:induction false} BlocksHoldEverything(data: Packet, trailer: Trailer)
    ensures UserBytesWithin(|data|, |Blocks(data, trailer)|) == |data|
    decreases |data|
  {
    var sent := |Blocks(data, trailer)|;
    if |data| <= BLOCK {
      if data != [] && sent < 18 { assert sent / 18 == 0 && sent % 18 == sent; }
    } else {
      BlocksHoldEverything(data[BLOCK..], trailer);
      UserBytesStep(|data|, sent);
    }
  }

  /** Truncation, exactly: a frame cut after `kept` bytes yields precisely the user bytes that were
      sent before the cut, `None` standing for none. */
  lemma TruncatedFrame(control: byte, destination: nat, source: nat, data: Packet, trailer: Trailer, kept: nat)
    requires |data| <= 250 && destination < 0x1_0000 && source < 0x1_0000
    requires 10 <= kept <= |Frame(control, destination, source, data, trailer)|
    ensures var prefix := data[..UserBytesWithin(|data|, kept - 10)];
            UserData(Frame(control, destination, source, data, trailer)[..kept])
              == if prefix == [] then None else Some(prefix)
  {
    var raw := Frame(control, destination, source, data, trailer)[..kept];
    assert raw[2] as int - 5 == |data|;
    assert raw[HEADER..] == Blocks(data, trailer)[..kept - HEADER];
    GatherTruncated(raw, HEADER, data, trailer, kept - HEADER);
  }

  /** Round trip: every message of 1 to 250 bytes survives framing, whatever the trailers. */
  lemma FrameRoundTrip(control: byte, destination: nat, source: nat, data: Packet, trailer: Trailer)
    requires 1 <= |data| <= 250 && destination < 0x1_0000 && source < 0x1_0000
    ensures UserData(Frame(control, destination, source, data, trailer)) == Some(data)
  {
    var frame := Frame(control, destination, source, data, trailer);
    assert frame[..|frame|] == frame;
    TruncatedFrame(control, destination, source, data, trailer, |frame|);
    BlocksHoldEverything(data, trailer);
    assert data[..|data|] == data;
  }

  /** On arbitrary bytes too, cutting the input can only shorten the result from the right. */
  lemma {:induction false} GatherMonotone(raw: Packet, cut: nat, offset: nat, remaining: nat)
    requires cut <= |raw|
    ensures Gather(raw[..cut], offset, remaining) <= Gather(raw, offset, remaining)
    decreases remaining
  {
    hide Gather;
    if offset >= cut || remaining == 0 {
      GatherDone(raw[..cut], offset, remaining, []);
      assert [] + Gather(raw[..cut], offset, remaining) == Gather(raw[..cut], offset, remaining);
    } else {
      var size := Min(Min(BLOCK, remaining), |raw| - offset);
      var short := Min(Min(BLOCK, remaining), cut - offset);
      var a, b := raw[offset..offset + size], Gather(raw, offset + size + 2, remaining - size);
      GatherStep(raw, offset, remaining, size, []);
      GatherStep(raw[..cut], offset, remaining, short, []);
      assert raw[..cut][offset..offset + short] == raw[offset..offset + short];
      var c, rest := raw[offset..offset + short], Gather(raw[..cut], offset + short + 2, remaining - short);
      if short == size {
        GatherMonotone(raw, cut, offset + size + 2, remaining - size);
      } else {
        GatherDone(raw[..cut], offset + short + 2, remaining - short, []);
        assert c == a[..short];
      }
      PrefixOfConcat(Gather(raw[..cut], offset, remaining), Gather(raw, offset, remaining), c, rest, a, b);
    }
  }

  lemma PrefixOfConcat(x: Packet, y: Packet, c: Packet, d: Packet, a: Packet, b: Packet)
    requires [] + x == [] + c + d && [] + y == [] + a + b
    requires (c == a && d <= b) || (c <= a && [] + d == [])
    ensures x <= y
  {
    assert [] + x == x && [] + y == y && [] + c == c && [] + a == a && [] + d == d;
    assert x == c + d && y == a + b;
  }

  lemma TruncationMonotone(raw: Packet, cut: nat)
    requires cut <= |raw|
    ensures UserData(raw[..cut]).Some? ==>
              UserData(raw).Some? && UserData(raw[..cut]).value <= UserData(raw).value
  {
    if cut > HEADER { GatherMonotone(raw, cut, HEADER, if raw[2] > 5 then raw[2] as int - 5 else 0); }
  }

  /** Bytes behind the frame, such as the padding of a short Ethernet frame, do not matter. */
  lemma PaddedFrame(control: byte, destination: nat, source: nat, data: Packet, trailer: Trailer, padding: Packet)
    requires 1 <= |data| <= 250 && destination < 0x1_0000 && source < 0x1_0000
    ensures UserData(Frame(control, destination, source, data, trailer) + padding) == Some(data)
  {
    var frame := Frame(control, destination, source, data, trailer);
    var raw := frame + padding;
    assert raw[2] == frame[2] == (5 + |data|) as byte;
    FrameRoundTrip(control, destination, source, data, trailer);
    assert raw[..|frame|] == frame;
    TruncationMonotone(raw, |frame|);
    var found := UserData(raw).value;
    assert |found| == |data| && found == found[..|data|] == data;
  }

  // ---------------------------------------------------------------- checksums in built frames

  /** Every block of `out` ends in the checksum of the bytes before it, as a receiver tests it. */
  ghost predicate BlocksAccepted(out: Packet, userBytes: nat)
    decreases userBytes
  {
    if userBytes == 0 then out == []
    else
      var size := Min(16, userBytes);
      && |out| >= size + 2
      && Crc.Register(out[..size + 2]) == Crc.Residue()
      && BlocksAccepted(out[size + 2..], userBytes - size)
  }

  lemma BlockAccepted(block: Packet)
    ensures Crc.Register(WithTrailer(block, Checksummed)) == Crc.Residue()
  {
    var t := Crc.Checksum(block);
    assert WithTrailer(block, Checksummed) == block + t;
    Crc.ResidueExactlyOnOwnChecksum(block, t);
  }

  lemma {:induction false} BuiltBlocksAccepted(data: Packet)
    ensures BlocksAccepted(Blocks(data, Checksummed), |data|)
    decreases |data|
  {
    hide Checksummed, Crc.Register, Crc.Residue;
    var out := Blocks(data, Checksummed);
    if data != [] {
      var size := Min(BLOCK, |data|);
      assert out[..size + 2] == WithTrailer(data[..size], Checksummed) by { assert data[..|data|] == data; }
      BlockAccepted(data[..size]);
      if |data| > BLOCK {
        assert out[size + 2..] == Blocks(data[BLOCK..], Checksummed);
        BuiltBlocksAccepted(data[BLOCK..]);
      }
    }
  }

  /** A prober frame of at most 16 user bytes is the general frame, its header and its block both pass
      the receiver's check, and the parser recovers the user bytes. */
  lemma ProberFrameIsAFrame(control: byte, destination: nat, source: nat, user: Packet)
    requires 1 <= |user| <= 16 && destination < 0x1_0000 && source < 0x1_0000
    ensures var out := ProberFrame(control, destination, source, user);
            && out == Frame(control, destination, source, user, Checksummed)
            && Crc.Register(out[..10]) == Crc.Residue()
            && BlocksAccepted(out[10..], |user|)
            && UserData(out) == Some(user)
  {
    hide Crc.Checksum, Crc.Register, Gather, BlocksAccepted, UserData, LinkHeader, Blocks, WithTrailer, Checksummed;
    var header := LinkHeader(control, destination, source, |user|);
    var first := WithTrailer(header, Checksummed);
    ProberParts(header, user);
    var frame := Frame(control, destination, source, user, Checksummed);
    assert frame == first + Blocks(user, Checksummed);
    assert frame[..HEADER] == first && frame[HEADER..] == Blocks(user, Checksummed);
    BlockAccepted(header);
    BuiltBlocksAccepted(user);
    FrameRoundTrip(control, destination, source, user, Checksummed);
  }

  lemma TrailerIsChecksum(block: Packet)
    ensures WithTrailer(block, Checksummed) == block + Crc.Checksum(block)
  {
    hide Crc.Checksum;
  }

  lemma FourParts(a: Packet, b: Packet, c: Packet, d: Packet)
    ensures (a + b) + (c + d) == a + b + c + d
  {
  }

  lemma ProberParts(header: Packet, user: Packet)
    requires 1 <= |user| <= BLOCK
    ensures WithTrailer(header, Checksummed) + Blocks(user, Checksummed)
              == header + Crc.Checksum(header) + user + Crc.Checksum(user)
  {
    assert Blocks(user, Checksummed) == WithTrailer(user, Checksummed);
    hide Crc.Checksum, WithTrailer, Checksummed, Blocks;
    TrailerIsChecksum(header);
    TrailerIsChecksum(user);
    FourParts(header, Crc.Checksum(header), user, Crc.Checksum(user));
  }
}
