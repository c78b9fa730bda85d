/**
 * The checksum as the remainder of a division over GF(2).  A bit string is a polynomial whose first bit, the
 * one transmitted first, has the highest exponent.
 */
module CrcDivision {
  import opened Bytes
  import opened Crc

  /** x^16 + x^13 + x^12 + x^11 + x^10 + x^8 + x^6 + x^5 + x^2 + 1. */
  function Generator(): (g: Bits)
    ensures |g| == 17
  {
    seq(17, i requires 0 <= i < 17 => 16 - i in {16, 13, 12, 11, 10, 8, 6, 5, 2, 0})
  }

  /** The product of a polynomial and the generator: for every bit set in `q` the generator is added at its
      place. */
  function Times(q: Bits): (product: Bits)
    ensures |product| == |q| + 16
    decreases |q|
  {
    if q == [] then Repeat(false, 16)
    else XorBits((if q[0] then Generator() else Repeat(false, 17)) + Repeat(false, |q| - 1), [false] + Times(q[1..]))
  }

  ghost predicate Divisible(c: Bits) {
    exists q :: Times(q) == c
  }

  /** The bits of a block in the order of transmission: byte by byte, the least significant bit first. */
  function WireBits(data: Packet): (bits: Bits)
    ensures |bits| == 8 * |data|
  {
    if data == [] then [] else ByteBits(data[0] as int) + WireBits(data[1..])
  }

  function ByteBits(b: nat): (bits: Bits)
    ensures |bits| == 8
  {
    [b % 2 == 1, b / 2 % 2 == 1, b / 4 % 2 == 1, b / 8 % 2 == 1,
     b / 16 % 2 == 1, b / 32 % 2 == 1, b / 64 % 2 == 1, b / 128 % 2 == 1]
  }

  function Complement(bits: Bits): (flipped: Bits)
    ensures |flipped| == |bits|
  {
    seq(|bits|, i requires 0 <= i < |bits| => !bits[i])
  }

  // ---------------------------------------------------------------- the order of bits

  lemma LowBitsStep(v: nat, n: nat)
    ensures LowBits(v, n + 1) == [v % 2 == 1] + LowBits(v / 2, n)
    ensures LowBits(v, 0) == []
  {
  }

  lemma FourBits(v: nat, n: nat)
    ensures LowBits(v, n + 4) == [v % 2 == 1, v / 2 % 2 == 1, v / 4 % 2 == 1, v / 8 % 2 == 1] + LowBits(v / 16, n)
  {
    hide LowBits;
    LowBitsStep(v, n + 3);
    LowBitsStep(v / 2, n + 2);
    LowBitsStep(v / 4, n + 1);
    LowBitsStep(v / 8, n);
  }

  lemma ByteIsLowBits(b: nat)
    ensures LowBits(b, 8) == ByteBits(b)
  {
    hide LowBits;
    var high := b / 16;
    FourBits(b, 4);
    FourBits(high, 0);
    LowBitsStep(high / 16, 0);
    assert high / 2 == b / 32 && high / 4 == b / 64 && high / 8 == b / 128;
  }

  lemma {:induction false} DataBitsAreWireBits(data: Packet)
    ensures DataBits(data) == WireBits(data)
    decreases |data|
  {
    hide LowBits, ByteBits;
    if data != [] {
      ByteIsLowBits(data[0] as int);
      DataBitsAreWireBits(data[1..]);
    }
  }

  // ---------------------------------------------------------------- one bit of the division

  lemma {:induction false} LowBitsXor(a: nat, b: nat, n: nat)
    ensures LowBits(Xor(a, b), n) == XorBits(LowBits(a, n), LowBits(b, n))
    decreases n
  {
    XorLow(a, b);
    if n > 0 { LowBitsXor(a / 2, b / 2, n - 1); }
  }

  lemma {:induction false} LowBitsShift(v: nat, n: nat)
    requires v < Pow2(n)
    ensures LowBits(v, n + 1) == LowBits(v, n) + [false]
    decreases n
  {
    if n > 0 { LowBitsShift(v / 2, n - 1); }
  }

  lemma FeedbackBits()
    ensures LowBits(0xA6BC, 16) == [false, false, true, true, true, true, false, true,
                                    false, true, true, false, false, true, false, true]
  {
    hide LowBits;
    FourBits(0xA6BC, 12);
    FourBits(0xA6B, 8);
    FourBits(0xA6, 4);
    FourBits(0xA, 0);
    LowBitsStep(0, 0);
  }

  /** The register's feedback constant is the generator without its leading term. */
  lemma FeedbackIsGenerator()
    ensures LowBits(0xA6BC, 16) == Generator()[1..]
  {
    hide LowBits;
    FeedbackBits();
    var bits := [false, false, true, true, true, true, false, true, false, true, true, false, false, true, false, true];
    assert forall i :: 0 <= i < 16 ==> bits[i] == Generator()[i + 1];
  }

  /** One step of the register is one step of the long division. */
  lemma StepDivides(reg: nat, bit: bool)
    requires reg < 0x1_0000
    ensures LowBits(reg, 16)[0] == (reg % 2 == 1)
    ensures var f, before := (reg % 2 == 1) != bit, LowBits(reg, 16) + [false];
            forall k :: 1 <= k < 17 ==>
              LowBits(StepBit(POLYNOMIAL, reg, bit), 16)[k - 1] == (before[k] != (f && Generator()[k]))
  {
    hide LowBits, Generator, Xor;
    var half, f := LowBits(reg / 2, 16), (reg % 2 == 1) != bit;
    Pow2Of16();
    LowBitsShift(reg, 16);
    LowBitsStep(reg, 15);
    LowBitsStep(reg, 16);
    assert forall k :: 1 <= k < 17 ==> half[k - 1] == (LowBits(reg, 16) + [false])[k];
    LowBitsXor(reg / 2, 0xA6BC, 16);
    FeedbackIsGenerator();
  }

  lemma QuotientStep(m: Bits, q: Bits, reg: Bits, next: Bits, last: Bits, f: bool)
    requires |m| > 0 && |q| == |m| - 1 && |reg| == |next| == |last| == 16
    requires f == (reg[0] != m[0])
    requires forall k :: 1 <= k < 17 ==> next[k - 1] == ((reg + [false])[k] != (f && Generator()[k]))
    requires Times(q) == XorBits(m[1..] + last, next + Repeat(false, |m| - 1))
    ensures Times([f] + q) == XorBits(m + last, reg + Repeat(false, |m|))
  {
    var n := |m|;
    var top := (if f then Generator() else Repeat(false, 17)) + Repeat(false, n - 1);
    assert ([f] + q)[1..] == q;
    assert Times([f] + q) == XorBits(top, [false] + Times(q));
    hide Times, Generator;
    forall k | 0 <= k < n + 16
      ensures (top[k] != ([false] + Times(q))[k]) == ((m + last)[k] != (reg + Repeat(false, n))[k])
    {
      TopAt(f, n, k);
      if k > 0 { QuotientBit(m, Generator(), reg, next, last, f, k); }
    }
  }

  lemma QuotientBit(m: Bits, g: Bits, reg: Bits, next: Bits, last: Bits, f: bool, k: nat)
    requires |m| > 0 && |g| == 17 && |reg| == |next| == |last| == 16 && 0 < k < |m| + 16
    requires forall k :: 1 <= k < 17 ==> next[k - 1] == ((reg + [false])[k] != (f && g[k]))
    ensures ((f && k < 17 && g[k]) != XorBits(m[1..] + last, next + Repeat(false, |m| - 1))[k - 1])
              == ((m + last)[k] != (reg + Repeat(false, |m|))[k])
  {
    assert (m[1..] + last)[k - 1] == (m + last)[k];
    if k < 17 {
      assert (next + Repeat(false, |m| - 1))[k - 1] == next[k - 1];
      assert (reg + [false])[k] == (reg + Repeat(false, |m|))[k];
    }
  }

  lemma TopAt(f: bool, n: nat, k: nat)
    requires n > 0 && k < n + 16
    ensures ((if f then Generator() else Repeat(false, 17)) + Repeat(false, n - 1))[k]
              == (f && k < 17 && Generator()[k])
    ensures Generator()[0]
  {
  }

  /** Long division: what a register leaves after a message is the remainder, for the quotient of the
      feedbacks. */
  lemma {:induction false} Remainder(reg: nat, m: Bits) returns (q: Bits)
    requires reg < 0x1_0000
    ensures |q| == |m|
    ensures Times(q) == XorBits(m + LowBits(Feed(POLYNOMIAL, reg, m), 16), LowBits(reg, 16) + Repeat(false, |m|))
    decreases |m|
  {
    if m == [] {
      q := [];
      assert Times(q) == XorBits(LowBits(reg, 16), LowBits(reg, 16));
      assert m + LowBits(reg, 16) == LowBits(reg, 16) + Repeat(false, 0);
    } else {
      var next := StepBit(POLYNOMIAL, reg, m[0]);
      StepStays16(POLYNOMIAL, reg, m[0]);
      StepDivides(reg, m[0]);
      var f := (reg % 2 == 1) != m[0];
      var rest := Remainder(next, m[1..]);
      q := [f] + rest;
      hide Times, Generator, LowBits, StepBit;
      QuotientStep(m, rest, LowBits(reg, 16), LowBits(next, 16), LowBits(Feed(POLYNOMIAL, reg, m), 16), f);
    }
  }

  // ---------------------------------------------------------------- the remainder is unique

  /** The leading bits of a multiple determine the quotient. */
  lemma {:induction false} LeadingBits(a: Bits, b: Bits)
    requires |a| == |b| && forall k :: 0 <= k < |a| ==> Times(a)[k] == Times(b)[k]
    ensures a == b
    decreases |a|
  {
    if a != [] {
      assert Generator()[0];
      assert Times(a)[0] == a[0] && Times(b)[0] == b[0];
      forall k | 0 <= k < |a| - 1 ensures Times(a[1..])[k] == Times(b[1..])[k] {
        assert Times(a)[k + 1] == Times(b)[k + 1];
      }
      LeadingBits(a[1..], b[1..]);
      assert a == [a[0]] + a[1..] && b == [b[0]] + b[1..];
    }
  }

  lemma OneRemainder(m: Bits, x: Bits, y: Bits)
    requires |x| == |y| == 16 && Divisible(m + x) && Divisible(m + y)
    ensures x == y
  {
    var p :| Times(p) == m + x;
    var q :| Times(q) == m + y;
    assert forall k :: 0 <= k < |m| ==> Times(p)[k] == m[k] == Times(q)[k];
    LeadingBits(p, q);
    assert x == (m + x)[|m|..] && y == (m + y)[|m|..];
  }

  lemma ChecksumDivides(data: Packet)
    ensures Divisible(WireBits(data) + Complement(WireBits(Checksum(data))))
  {
    hide WireBits, Times, LowBits, Feed, Generator;
    DataBitsAreWireBits(data);
    DataBitsAreWireBits(Checksum(data));
    ChecksumBits(Register(data), 16);
    var low := LowBits(Register(data), 16);
    assert Complement(XorBits(low, Repeat(true, 16))) == low;
    var m := WireBits(data);
    var q := Remainder(0, m);
    ZeroBits(16);
    assert XorBits(m + low, Repeat(false, 16) + Repeat(false, |m|)) == m + low;
  }

  lemma {:induction false} ZeroBits(n: nat)
    ensures LowBits(0, n) == Repeat(false, n)
    decreases n
  {
    if n > 0 { ZeroBits(n - 1); }
  }

  /** The checksum, exactly: two bytes are the checksum of a block if and only if the block's bits, followed by
      the complement of theirs, are a multiple of the generator polynomial. */
  lemma ChecksumExactly(data: Packet, trailer: Packet)
    requires |trailer| == 2
    ensures trailer == Checksum(data) <==> Divisible(WireBits(data) + Complement(WireBits(trailer)))
  {
    hide WireBits, Times, Divisible, Checksum;
    ChecksumDivides(data);
    if Divisible(WireBits(data) + Complement(WireBits(trailer))) {
      var x, y := WireBits(trailer), WireBits(Checksum(data));
      OneRemainder(WireBits(data), Complement(x), Complement(y));
      assert forall i :: 0 <= i < 16 ==> x[i] == !Complement(x)[i] && y[i] == !Complement(y)[i];
      assert x == y;
      DataBitsAreWireBits(trailer);
      DataBitsAreWireBits(Checksum(data));
      DataBitsInjective(trailer, Checksum(data));
    }
  }
}
