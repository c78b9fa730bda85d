/**
 * The CRC-16 of the DNP3 link layer (clause 9 of IEEE Std 1815-2012), computed bit by bit with the
 * reflected polynomial 0xA6BC.
 *
 * Python integers are unbounded, so the register is a `nat` and exclusive-or is the bitwise
 * operation on naturals.  `Feed` is the register as a function of the bits consumed so far, least
 * significant bit of every byte first; the theorems are stated about the two bytes a caller gets.
 */
module Crc {
  import opened Bytes

  const POLYNOMIAL: nat := 0xA6BC

  type Bits = seq<bool>

  /** The shape of polynomial the burst theorem needs: 16 bits wide with the top bit set. */
  ghost predicate FullWidth(p: nat) {
    0x8000 <= p < 0x1_0000
  }

  /** Bitwise exclusive-or of two naturals. */
  function Xor(a: nat, b: nat): nat {
    if a == 0 && b == 0 then 0 else (a % 2 + b % 2) % 2 + 2 * Xor(a / 2, b / 2)
  }

  /** One turn of the inner loop, for the feedback polynomial `p`. */
  function StepBit(p: nat, reg: nat, bit: bool): nat {
    Reduce(p, reg / 2, (reg % 2 == 1) != bit)
  }

  function Reduce(p: nat, half: nat, feedback: bool): nat {
    if feedback then Xor(half, p) else half
  }

  function Feed(p: nat, reg: nat, bits: Bits): nat
    decreases |bits|
  {
    if bits == [] then reg else Feed(p, StepBit(p, reg, bits[0]), bits[1..])
  }

  /** The `n` low bits of `v`, least significant first. */
  function LowBits(v: nat, n: nat): (bits: Bits)
    ensures |bits| == n
    decreases n
  {
    if n == 0 then [] else [v % 2 == 1] + LowBits(v / 2, n - 1)
  }

  function DataBits(data: Packet): (bits: Bits)
    ensures |bits| == 8 * |data|
  {
    if data == [] then [] else LowBits(data[0] as int, 8) + DataBits(data[1..])
  }

  /** The complement of a register as two little-endian bytes. */
  function ChecksumBytes(reg: nat): (out: Packet)
    requires reg < 0x1_0000
    ensures |out| == 2 && LittleWord16(out, 0) == 0xFFFF - reg
  {
    PackLittleWord16(0xFFFF - reg)
  }

  /** The register after a whole block. */
  function Register(data: Packet): (reg: nat)
    ensures reg < 0x1_0000
  {
    FeedStays16(POLYNOMIAL, 0, DataBits(data));
    Feed(POLYNOMIAL, 0, DataBits(data))
  }

  function Checksum(data: Packet): (out: Packet)
    ensures |out| == 2
  {
    ChecksumBytes(Register(data))
  }

  method ComputeChecksum(data: Packet) returns (out: Packet)
    ensures out == Checksum(data)
  {
    var crc: nat := 0;
    for i := 0 to |data|
      invariant crc < 0x1_0000
      invariant Register(data) == Feed(POLYNOMIAL, crc, DataBits(data[i..]))
    {
      var b: nat := data[i] as int;
      ghost var tail := DataBits(data[i + 1..]);
      assert data[i..][1..] == data[i + 1..];
      FeedConcat(POLYNOMIAL, crc, LowBits(b, 8), tail);
      for k := 0 to 8
        invariant crc < 0x1_0000
        invariant Register(data) == Feed(POLYNOMIAL, Feed(POLYNOMIAL, crc, LowBits(b, 8 - k)), tail)
      {
        FeedOneBit(crc, b, 8 - k);
        if Xor(crc, b) % 2 == 1 {
          crc := Xor(crc / 2, 0xA6BC);
        } else {
          crc := crc / 2;
        }
        b := b / 2;
      }
    }
    crc := 0xFFFF - crc;
    out := [(crc % 256) as byte, (crc / 256) as byte];
  }

  lemma FeedOneBit(crc: nat, b: nat, n: nat)
    requires crc < 0x1_0000 && n > 0
    ensures var next := if Xor(crc, b) % 2 == 1 then Xor(crc / 2, POLYNOMIAL) else crc / 2;
            && next < 0x1_0000
            && Feed(POLYNOMIAL, crc, LowBits(b, n)) == Feed(POLYNOMIAL, next, LowBits(b / 2, n - 1))
  {
    XorLow(crc, b);
    StepStays16(POLYNOMIAL, crc, b % 2 == 1);
    assert LowBits(b, n)[1..] == LowBits(b / 2, n - 1);
  }

  // ---------------------------------------------------------------- exclusive-or

  lemma XorLow(a: nat, b: nat)
    ensures Xor(a, b) % 2 == (a % 2 + b % 2) % 2
    ensures Xor(a, b) / 2 == Xor(a / 2, b / 2)
  {
  }

  /** Two numbers with equal halves whose low bits combine the same three bits are equal. */
  lemma SameHalves(a: nat, b: nat, c: nat, u: nat, v: nat, x: nat, y: nat)
    requires u % 2 == (a % 2 + b % 2) % 2 && v % 2 == (b % 2 + c % 2) % 2
    requires x % 2 == (u % 2 + c % 2) % 2 && y % 2 == (a % 2 + v % 2) % 2
    requires x / 2 == y / 2
    ensures x == y
  {
    var p, q, r := a % 2, b % 2, c % 2;
    assert (p == 0 || p == 1) && (q == 0 || q == 1) && (r == 0 || r == 1);
  }

  lemma {:induction false} XorZero(a: nat)
    ensures Xor(a, 0) == a && Xor(0, a) == a && Xor(a, a) == 0
  {
    if a > 0 { XorZero(a / 2); }
  }

  lemma {:induction false} XorAssociative(a: nat, b: nat, c: nat)
    ensures Xor(Xor(a, b), c) == Xor(a, Xor(b, c))
    decreases a + b + c
  {
    if a + b + c > 0 {
      XorAssociative(a / 2, b / 2, c / 2);
      var u, v := Xor(a, b), Xor(b, c);
      XorLow(a, b);
      XorLow(b, c);
      XorLow(u, c);
      XorLow(a, v);
      SameHalves(a, b, c, u, v, Xor(u, c), Xor(a, v));
    }
  }

  lemma {:induction false} XorCommutes(a: nat, b: nat)
    ensures Xor(a, b) == Xor(b, a)
  {
    if a + b > 0 { XorCommutes(a / 2, b / 2); }
  }

  lemma {:induction false} XorEqualsZero(a: nat, b: nat)
    ensures Xor(a, b) == 0 <==> a == b
  {
    if a + b > 0 {
      XorLow(a, b);
      XorEqualsZero(a / 2, b / 2);
    }
  }

  function Pow2(n: nat): (p: nat)
    ensures p >= 1
  {
    if n == 0 then 1 else 2 * Pow2(n - 1)
  }

  lemma Pow2Of16()
    ensures Pow2(15) == 0x8000 && Pow2(16) == 0x1_0000 && Pow2(8) == 0x100
  {
    assert Pow2(4) == 16;
    assert Pow2(8) == 256;
    assert Pow2(12) == 4096;
  }

  lemma {:induction false} XorTopBit(a: nat, b: nat, k: nat)
    requires a < Pow2(k) && Pow2(k) <= b < Pow2(k + 1)
    ensures Pow2(k) <= Xor(a, b) < Pow2(k + 1)
    decreases k
  {
    XorLow(a, b);
    if k == 0 {
      XorZero(1);
    } else {
      XorTopBit(a / 2, b / 2, k - 1);
    }
  }

  /** The polynomial's top bit is set, so a register that took the feedback is at least 0x8000. */
  lemma FeedbackSetsTopBit(p: nat, half: nat)
    requires half < 0x8000 && FullWidth(p)
    ensures 0x8000 <= Xor(half, p) < 0x1_0000
  {
    Pow2Of16();
    XorTopBit(half, p, 15);
  }

  lemma StepStays16(p: nat, reg: nat, bit: bool)
    requires FullWidth(p) && reg < 0x1_0000
    ensures StepBit(p, reg, bit) < 0x1_0000
  {
    FeedbackSetsTopBit(p, reg / 2);
  }

  lemma {:induction false} FeedStays16(p: nat, reg: nat, bits: Bits)
    requires FullWidth(p) && reg < 0x1_0000
    ensures Feed(p, reg, bits) < 0x1_0000
    decreases |bits|
  {
    if bits != [] {
      StepStays16(p, reg, bits[0]);
      FeedStays16(p, StepBit(p, reg, bits[0]), bits[1..]);
    }
  }

  // ---------------------------------------------------------------- linearity over GF(2)

  function XorBits(a: Bits, b: Bits): (c: Bits)
    requires |a| == |b|
    ensures |c| == |a|
    ensures forall i :: 0 <= i < |a| ==> c[i] == (a[i] != b[i])
  {
    seq(|a|, i requires 0 <= i < |a| => a[i] != b[i])
  }

  function Repeat(bit: bool, n: nat): (z: Bits)
    ensures |z| == n && forall i :: 0 <= i < n ==> z[i] == bit
  {
    seq(n, i => bit)
  }

  lemma {:induction false} FeedConcat(p: nat, reg: nat, a: Bits, b: Bits)
    ensures Feed(p, reg, a + b) == Feed(p, Feed(p, reg, a), b)
    decreases |a|
  {
    if a == [] {
      assert a + b == b;
    } else {
      assert (a + b)[1..] == a[1..] + b;
      FeedConcat(p, StepBit(p, reg, a[0]), a[1..], b);
    }
  }

  lemma StepLinear(p: nat, r: nat, s: nat, a: bool, b: bool)
    ensures StepBit(p, Xor(r, s), a != b) == Xor(StepBit(p, r, a), StepBit(p, s, b))
  {
    XorLow(r, s);
    StepLinearOf(p, r, s, Xor(r, s), a, b);
  }

  lemma StepLinearOf(p: nat, r: nat, s: nat, t: nat, a: bool, b: bool)
    requires t % 2 == (r % 2 + s % 2) % 2 && t / 2 == Xor(r / 2, s / 2)
    ensures StepBit(p, t, a != b) == Xor(StepBit(p, r, a), StepBit(p, s, b))
  {
    hide Xor, Reduce;
    var f, g := (r % 2 == 1) != a, (s % 2 == 1) != b;
    ReduceLinear(p, r / 2, s / 2, f, g);
    assert ((t % 2 == 1) != (a != b)) == (f != g);
  }

  lemma ReduceLinear(p: nat, x: nat, y: nat, f: bool, g: bool)
    ensures Reduce(p, Xor(x, y), f != g) == Xor(Reduce(p, x, f), Reduce(p, y, g))
  {
    Distribute(x, y, p);
  }

  lemma Distribute(x: nat, y: nat, p: nat)
    ensures Xor(Xor(x, p), Xor(y, p)) == Xor(x, y)
    ensures Xor(Xor(x, p), y) == Xor(Xor(x, y), p)
    ensures Xor(x, Xor(y, p)) == Xor(Xor(x, y), p)
  {
    XorAssociative(x, y, p);
    XorAssociative(x, p, y);
    XorCommutes(y, p);
    XorAssociative(x, p, Xor(y, p));
    XorAssociative(p, p, y);
    XorZero(p);
    XorZero(y);
  }

  /** Feeding the difference of two inputs into the difference of two registers gives the difference
      of the two results. */
  lemma {:induction false} FeedLinear(p: nat, r: nat, s: nat, a: Bits, b: Bits)
    requires |a| == |b|
    ensures Feed(p, Xor(r, s), XorBits(a, b)) == Xor(Feed(p, r, a), Feed(p, s, b))
    decreases |a|
  {
    if a != [] {
      StepLinear(p, r, s, a[0], b[0]);
      assert XorBits(a, b)[1..] == XorBits(a[1..], b[1..]);
      FeedLinear(p, StepBit(p, r, a[0]), StepBit(p, s, b[0]), a[1..], b[1..]);
    }
  }

  // ---------------------------------------------------------------- what drives the register to zero

  /** A bit string read as a number, `w[0]` in bit 0. */
  function Load(w: Bits): (v: nat)
    ensures v < Pow2(|w|)
    decreases |w|
  {
    if w == [] then 0 else (if w[0] then 1 else 0) + 2 * Load(w[1..])
  }

  lemma StepBack(p: nat, reg: nat, bit: bool, v: nat)
    requires FullWidth(p) && reg < 0x1_0000 && v < 0x8000
    ensures StepBit(p, reg, bit) == v <==> reg == (if bit then 1 else 0) + 2 * v
  {
    FeedbackSetsTopBit(p, reg / 2);
  }

  lemma {:induction false} Pow2Monotone(m: nat, n: nat)
    requires m <= n
    ensures Pow2(m) <= Pow2(n)
    decreases n
  {
    if m < n { Pow2Monotone(m, n - 1); }
  }

  /** A window of at most 16 bits drives the register to zero exactly when the register held those
      very bits. */
  lemma {:induction false} ZeroExactlyOnOwnBits(p: nat, reg: nat, w: Bits)
    requires FullWidth(p) && reg < 0x1_0000 && |w| <= 16
    ensures Feed(p, reg, w) == 0 <==> reg == Load(w)
    decreases |w|
  {
    if w != [] {
      Pow2Monotone(|w| - 1, 15);
      Pow2Of16();
      StepBack(p, reg, w[0], Load(w[1..]));
      StepStays16(p, reg, w[0]);
      ZeroExactlyOnOwnBits(p, StepBit(p, reg, w[0]), w[1..]);
    }
  }

  lemma {:induction false} ZerosKeepNonZero(p: nat, reg: nat, n: nat)
    requires FullWidth(p) && reg < 0x1_0000
    ensures Feed(p, reg, Repeat(false, n)) == 0 <==> reg == 0
    decreases n
  {
    if n > 0 {
      assert Repeat(false, n)[1..] == Repeat(false, n - 1);
      StepBack(p, reg, false, 0);
      StepStays16(p, reg, false);
      ZerosKeepNonZero(p, StepBit(p, reg, false), n - 1);
    }
  }

  lemma {:induction false} LoadZero(w: Bits)
    requires Load(w) == 0
    ensures w == Repeat(false, |w|)
    decreases |w|
  {
    if w != [] {
      LoadZero(w[1..]);
      assert w == [w[0]] + w[1..];
    }
  }

  // ---------------------------------------------------------------- burst errors

  /** The bit strings agree everywhere outside `from..from + width`. */
  ghost predicate DifferWithin(a: Bits, b: Bits, from: nat, width: nat) {
    && |a| == |b|
    && from + width <= |a|
    && forall i :: 0 <= i < |a| && !(from <= i < from + width) ==> a[i] == b[i]
  }

  lemma BurstRegister(p: nat, a: Bits, b: Bits, from: nat, width: nat)
    requires FullWidth(p)
    requires DifferWithin(a, b, from, width) && width <= 16 && a != b
    ensures Feed(p, 0, a) != Feed(p, 0, b)
  {
    var d := XorBits(a, b);
    var w := d[from..from + width];
    var rest := |a| - from - width;
    var pre := Repeat(false, from);
    assert d == pre + w + Repeat(false, rest);
    assert Load(w) != 0 by {
      var i :| 0 <= i < |a| && a[i] != b[i];
      assert w[i - from] == d[i];
      if Load(w) == 0 { LoadZero(w); }
    }
    FeedConcat(p, 0, pre + w, Repeat(false, rest));
    FeedConcat(p, 0, pre, w);
    ZerosKeepNonZero(p, 0, from);
    ZeroExactlyOnOwnBits(p, 0, w);
    FeedStays16(p, 0, w);
    ZerosKeepNonZero(p, Feed(p, 0, w), rest);
    FeedLinear(p, 0, 0, a, b);
    XorEqualsZero(Feed(p, 0, a), Feed(p, 0, b));
  }

  lemma SameChecksumSameRegister(a: Packet, b: Packet)
    ensures Checksum(a) == Checksum(b) <==> Register(a) == Register(b)
  {
    assert LittleWord16(Checksum(a), 0) == 0xFFFF - Register(a);
    assert LittleWord16(Checksum(b), 0) == 0xFFFF - Register(b);
  }

  lemma {:induction false} LoadLowBits(v: nat, n: nat)
    requires v < Pow2(n)
    ensures Load(LowBits(v, n)) == v
    decreases n
  {
    if n > 0 {
      LoadLowBits(v / 2, n - 1);
      assert LowBits(v, n)[1..] == LowBits(v / 2, n - 1);
    }
  }

  lemma {:induction false} DataBitsInjective(a: Packet, b: Packet)
    requires |a| == |b| && DataBits(a) == DataBits(b)
    ensures a == b
    decreases |a|
  {
    if a != [] {
      var x, y := LowBits(a[0] as int, 8), LowBits(b[0] as int, 8);
      assert x == DataBits(a)[..8] && y == DataBits(b)[..8];
      assert DataBits(a[1..]) == DataBits(a)[8..] && DataBits(b[1..]) == DataBits(b)[8..];
      Pow2Of16();
      LoadLowBits(a[0] as int, 8);
      LoadLowBits(b[0] as int, 8);
      DataBitsInjective(a[1..], b[1..]);
    }
  }

  /** Burst detection: two different blocks of equal length whose bits differ only inside a window of
      16 consecutive bits never get the same checksum. */
  lemma BurstDetected(a: Packet, b: Packet, from: nat, width: nat)
    requires |a| == |b| && a != b && width <= 16
    requires DifferWithin(DataBits(a), DataBits(b), from, width)
    ensures Checksum(a) != Checksum(b)
  {
    if DataBits(a) == DataBits(b) { DataBitsInjective(a, b); }
    BurstRegister(POLYNOMIAL, DataBits(a), DataBits(b), from, width);
    SameChecksumSameRegister(a, b);
  }

  // ---------------------------------------------------------------- odd numbers of errors

  function Odd(v: nat): bool {
    if v == 0 then false else (v % 2 == 1) != Odd(v / 2)
  }

  function Parity(bits: Bits): bool
    decreases |bits|
  {
    if bits == [] then false else bits[0] != Parity(bits[1..])
  }

  lemma {:induction false} OddXor(a: nat, b: nat)
    ensures Odd(Xor(a, b)) == (Odd(a) != Odd(b))
  {
    if a + b > 0 {
      XorLow(a, b);
      OddXor(a / 2, b / 2);
    }
  }

  /** The polynomial has an odd number of set bits, so feedback always flips the parity. */
  lemma StepParity(p: nat, reg: nat, bit: bool)
    requires Odd(p)
    ensures Odd(StepBit(p, reg, bit)) == (Odd(reg) != bit)
  {
    OddXor(reg / 2, p);
  }

  lemma {:induction false} FeedParity(p: nat, reg: nat, bits: Bits)
    requires Odd(p)
    ensures Odd(Feed(p, reg, bits)) == (Odd(reg) != Parity(bits))
    decreases |bits|
  {
    if bits != [] {
      StepParity(p, reg, bits[0]);
      FeedParity(p, StepBit(p, reg, bits[0]), bits[1..]);
    }
  }

  /** The number of positions at which two bit strings differ. */
  function Distance(a: Bits, b: Bits): nat
    requires |a| == |b|
    decreases |a|
  {
    if a == [] then 0 else (if a[0] != b[0] then 1 else 0) + Distance(a[1..], b[1..])
  }

  lemma {:induction false} ParityOfDistance(a: Bits, b: Bits)
    requires |a| == |b|
    ensures (Distance(a, b) % 2 == 1) <==> (Parity(a) != Parity(b))
    decreases |a|
  {
    if a != [] { ParityOfDistance(a[1..], b[1..]); }
  }

  lemma PolynomialIsOdd()
    ensures Odd(POLYNOMIAL)
  {
    assert !Odd(0x5) && Odd(0x29);
    assert !Odd(0xA6) && Odd(0xA6B);
  }

  /** Any odd number of flipped bits, anywhere in the block, changes the checksum. */
  lemma OddErrorDetected(a: Packet, b: Packet)
    requires |a| == |b| && Distance(DataBits(a), DataBits(b)) % 2 == 1
    ensures Checksum(a) != Checksum(b)
  {
    hide Feed, DataBits, Parity, Distance, Checksum;
    ParityOfDistance(DataBits(a), DataBits(b));
    PolynomialIsOdd();
    FeedParity(POLYNOMIAL, 0, DataBits(a));
    FeedParity(POLYNOMIAL, 0, DataBits(b));
    SameChecksumSameRegister(a, b);
  }

  // ---------------------------------------------------------------- residue

  lemma {:induction false} DataBitsConcat(a: Packet, b: Packet)
    ensures DataBits(a + b) == DataBits(a) + DataBits(b)
    decreases |a|
  {
    if a == [] {
      assert a + b == b;
    } else {
      assert (a + b)[1..] == a[1..] + b;
      DataBitsConcat(a[1..], b);
    }
  }

  lemma {:induction false} LowBitsSplit(lo: nat, hi: nat, m: nat, n: nat)
    requires lo < Pow2(m)
    ensures LowBits(lo + Pow2(m) * hi, m + n) == LowBits(lo, m) + LowBits(hi, n)
    decreases m
  {
    if m > 0 {
      var half := Pow2(m - 1) * hi;
      assert Pow2(m) * hi == 2 * half;
      assert (lo + 2 * half) / 2 == lo / 2 + half && (lo + 2 * half) % 2 == lo % 2;
      LowBitsSplit(lo / 2, hi, m - 1, n);
    }
  }

  lemma ComplementHalves(q: nat, v: nat)
    requires v < 2 * q
    ensures (2 * q - 1 - v) / 2 == q - 1 - v / 2
    ensures ((2 * q - 1 - v) % 2 == 1) != (v % 2 == 1)
  {
  }

  lemma FlipFirst(bit: bool, rest: Bits)
    ensures XorBits([bit] + rest, Repeat(true, 1 + |rest|)) == [!bit] + XorBits(rest, Repeat(true, |rest|))
  {
  }

  lemma {:induction false} LowBitsComplement(v: nat, n: nat)
    requires v < Pow2(n)
    ensures LowBits(Pow2(n) - 1 - v, n) == XorBits(LowBits(v, n), Repeat(true, n))
    decreases n
  {
    if n > 0 {
      LowBitsComplement(v / 2, n - 1);
      ComplementHalves(Pow2(n - 1), v);
      FlipFirst(v % 2 == 1, LowBits(v / 2, n - 1));
    }
  }

  /** The bits of a little-endian 16-bit field are the bits of its value. */
  lemma LittleWordBits(v: nat, n: nat)
    requires v < 0x1_0000 && n == 8
    ensures DataBits(PackLittleWord16(v)) == LowBits(v, n + n)
  {
    hide LowBits, Pow2;
    var out := PackLittleWord16(v);
    var lo, hi := v % 256, v / 256;
    Pow2Of16();
    LowBitsSplit(lo, hi, n, n);
    assert out[1..][1..] == [];
    assert DataBits(out[1..]) == LowBits(hi, n) + [];
    assert DataBits(out) == LowBits(lo, n) + DataBits(out[1..]);
  }

  /** The checksum bytes of a register, as the bits a receiver consumes. */
  lemma ChecksumBits(reg: nat, n: nat)
    requires reg < 0x1_0000 && n == 16
    ensures DataBits(ChecksumBytes(reg)) == XorBits(LowBits(reg, n), Repeat(true, n))
  {
    Pow2Of16();
    LowBitsComplement(reg, n);
    LittleWordBits(0xFFFF - reg, n / 2);
  }

  /** What a zero register holds after sixteen set bits: no block contributes to it. */
  ghost function Residue(): nat {
    Feed(POLYNOMIAL, 0, Repeat(true, 16))
  }

  /** A received block passes the receiver's check: the register ends in the constant residue exactly
      when the two trailing bytes are the checksum of what precedes them. */
  lemma ResidueExactlyOnOwnChecksum(data: Packet, trailer: Packet)
    requires |trailer| == 2
    ensures Register(data + trailer) == Residue() <==> trailer == Checksum(data)
  {
    DataBitsConcat(data, trailer);
    FeedConcat(POLYNOMIAL, 0, DataBits(data), DataBits(trailer));
    ChecksumBits(Register(data), 16);
    FeedToOnes(POLYNOMIAL, Register(data), DataBits(trailer), 16);
    if DataBits(trailer) == DataBits(Checksum(data)) { DataBitsInjective(trailer, Checksum(data)); }
  }

  /** From register `r`, `n` bits lead to the all-ones result exactly when they are `r` complemented. */
  lemma FeedToOnes(p: nat, r: nat, t: Bits, n: nat)
    requires FullWidth(p) && r < 0x1_0000 && |t| == n == 16
    ensures Feed(p, r, t) == Feed(p, 0, Repeat(true, n)) <==> t == XorBits(LowBits(r, n), Repeat(true, n))
  {
    var ones := Repeat(true, n);
    var flipped := XorBits(t, ones);
    assert XorBits(flipped, ones) == t;
    FeedLinear(p, r, 0, flipped, ones);
    XorZero(r);
    XorRightZero(Feed(p, r, flipped), Feed(p, 0, ones));
    ZeroExactlyOnOwnBits(p, r, flipped);
    Pow2Of16();
    LoadLowBits(r, n);
    if r == Load(flipped) { LoadInjective(flipped, LowBits(r, n)); }
    if t == XorBits(LowBits(r, n), ones) { assert flipped == LowBits(r, n); }
  }

  lemma XorRightZero(a: nat, k: nat)
    ensures Xor(a, k) == k <==> a == 0
  {
    XorZero(k);
    XorZero(a);
    XorAssociative(a, k, k);
  }

  lemma {:induction false} LoadInjective(a: Bits, b: Bits)
    requires |a| == |b| && Load(a) == Load(b)
    ensures a == b
    decreases |a|
  {
    if a != [] {
      LoadInjective(a[1..], b[1..]);
      assert a == [a[0]] + a[1..] && b == [b[0]] + b[1..];
    }
  }
}
