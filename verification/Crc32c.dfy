/**
The CRC-32C register of src/crc32c.c.

The reference is the one-bit-at-a-time shift register with the reversed iSCSI polynomial
(section 12.1 of RFC 3720).  Everything the file does faster rests on one fact proved here:
the register is linear over GF(2), so a message acts as the starting register followed by
zeros, xor the same message on a zero register.
 */
module Crc32c {
  import opened Basics
  import opened Bits

  type Word32 = x: nat | x < 0x1_0000_0000

  /** The feedback taps of the register, the lowest bit being the one shifted out. */
  const POLY: Word32 := 0x82f63b78
  const ONES: Word32 := 0xffffffff

  function Xor32(a: Word32, b: Word32): Word32 {
    Pow2Words();
    XorBound(a, b, 32);
    Xor(a, b)
  }

  // ---------------------------------------------------------------------------
  // The reference: a bit-serial register.
  // ---------------------------------------------------------------------------

  /** One clock of the register: the data bit and the outgoing bit select the feedback. */
  function Clock(c: Word32, bit: bool): Word32 {
    Xor32(c / 2, if (c % 2 == 1) != bit then POLY else 0)
  }

  function BitSerial(c: Word32, bits: seq<bool>): Word32
    decreases |bits|
  {
    if |bits| == 0 then c else BitSerial(Clock(c, bits[0]), bits[1..])
  }

  /** The low `k` bits of a value in transmission order, least significant first. */
  function LowBits(x: nat, k: nat): seq<bool> {
    if k == 0 then [] else [x % 2 == 1] + LowBits(x / 2, k - 1)
  }

  function BitsOf(s: seq<Byte>): seq<bool> {
    if |s| == 0 then [] else LowBits(s[0], 8) + BitsOf(s[1..])
  }

  /** The checksum that every kernel of the file has to return. */
  function Checksum(crc: Word32, s: seq<Byte>): Word32 {
    Xor32(BitSerial(Xor32(crc, ONES), BitsOf(s)), ONES)
  }

  // ---------------------------------------------------------------------------
  // Zero bits and bytewise updates.
  // ---------------------------------------------------------------------------

  /** The operator for one zero bit. */
  function Step(c: Word32): Word32 {
    if c % 2 == 1 then Xor32(c / 2, POLY) else c / 2
  }

  /** The operator for `n` zero bits. */
  function Zeros(n: nat, c: Word32): Word32 {
    if n == 0 then c else Zeros(n - 1, Step(c))
  }

  function UpdateByte(c: Word32, b: Byte): Word32 {
    Zeros(8, Xor32(c, b))
  }

  /** The register after a whole message; also what the hardware CRC instructions compute. */
  function Update(c: Word32, s: seq<Byte>): Word32 {
    if |s| == 0 then c else UpdateByte(Update(c, s[..|s| - 1]), s[|s| - 1])
  }

  lemma StepLinear(a: Word32, b: Word32)
    ensures Step(Xor32(a, b)) == Xor32(Step(a), Step(b))
  {
    hide Xor;
    XorDigits(a, b);
    var x, y := a / 2, b / 2;
    XorExchange(x, y, POLY, POLY);
    XorExchange(x, y, POLY, 0);
    XorExchange(x, y, 0, POLY);
    XorSelf(POLY);
    XorZero(POLY);
    XorZero(x);
    XorZero(y);
    XorZero(Xor(x, y));
  }

  lemma {:induction false} ZerosLinear(n: nat, a: Word32, b: Word32)
    ensures Zeros(n, Xor32(a, b)) == Xor32(Zeros(n, a), Zeros(n, b))
  {
    if n > 0 {
      StepLinear(a, b);
      ZerosLinear(n - 1, Step(a), Step(b));
    }
  }

  lemma ZerosOfFour(n: nat, a: Word32, b: Word32, c: Word32, d: Word32)
    ensures Zeros(n, Xor32(Xor32(Xor32(a, b), c), d))
         == Xor32(Xor32(Xor32(Zeros(n, a), Zeros(n, b)), Zeros(n, c)), Zeros(n, d))
  {
    ZerosLinear(n, a, b);
    ZerosLinear(n, Xor32(a, b), c);
    ZerosLinear(n, Xor32(Xor32(a, b), c), d);
  }

  lemma {:induction false} ZerosOfZero(n: nat)
    ensures Zeros(n, 0) == 0
  {
    if n > 0 {
      ZerosOfZero(n - 1);
    }
  }

  lemma {:induction false} ZerosAdd(m: nat, n: nat, c: Word32)
    ensures Zeros(m + n, c) == Zeros(m, Zeros(n, c))
  {
    if n > 0 {
      ZerosAdd(m, n - 1, Step(c));
    }
  }

  /** Zero bits shift out a value whose low bits are clear. */
  lemma {:induction false} ZerosShiftOut(n: nat, x: nat)
    requires x * Pow2(n) < 0x1_0000_0000
    ensures x <= x * Pow2(n) && Zeros(n, x * Pow2(n)) == x
  {
    if n > 0 {
      var y := x * Pow2(n - 1);
      Associate(x, 2, Pow2(n - 1));
      assert x * Pow2(n) == 2 * y;
      ZerosShiftOut(n - 1, x);
    }
  }

  // ---------------------------------------------------------------------------
  // The bytewise form computes the bit-serial register.
  // ---------------------------------------------------------------------------

  /** Clocking in the low bit of a value leaves the rest of it to be added. */
  lemma ClockThenRest(c: Word32, x: Word32)
    ensures Step(Xor32(c, x)) == Xor32(Clock(c, x % 2 == 1), x / 2)
  {
    XorDigits(c, x);
    XorAssoc(c / 2, x / 2, POLY);
    XorComm(x / 2, POLY);
    XorAssoc(c / 2, POLY, x / 2);
  }

  lemma {:induction false} BitSerialOfLowBits(c: Word32, x: Word32, k: nat)
    requires x < Pow2(k)
    ensures BitSerial(c, LowBits(x, k)) == Zeros(k, Xor32(c, x))
    decreases k
  {
    if k > 0 {
      ClockThenRest(c, x);
      BitSerialOfLowBits(Clock(c, x % 2 == 1), x / 2, k - 1);
      assert LowBits(x, k)[1..] == LowBits(x / 2, k - 1);
    }
  }

  lemma {:induction false} BitSerialAppend(c: Word32, s: seq<bool>, t: seq<bool>)
    ensures BitSerial(c, s + t) == BitSerial(BitSerial(c, s), t)
    decreases |s|
  {
    if |s| == 0 {
      assert s + t == t;
    } else {
      assert (s + t)[1..] == s[1..] + t;
      BitSerialAppend(Clock(c, s[0]), s[1..], t);
    }
  }

  /** The register after a concatenation. */
  lemma {:induction false} UpdateAppend(c: Word32, s: seq<Byte>, t: seq<Byte>)
    ensures Update(c, s + t) == Update(Update(c, s), t)
  {
    if |t| == 0 {
      assert s + t == s;
    } else {
      assert (s + t)[..|s + t| - 1] == s + t[..|t| - 1];
      UpdateAppend(c, s, t[..|t| - 1]);
    }
  }

  /** The bytewise register is the bit-serial register. */
  lemma {:induction false} UpdateIsBitSerial(c: Word32, s: seq<Byte>)
    ensures Update(c, s) == BitSerial(c, BitsOf(s))
    decreases |s|
  {
    if |s| > 0 {
      var b, rest := s[0], s[1..];
      assert s == [b] + rest;
      UpdateAppend(c, [b], rest);
      assert [b][..0] == [];
      BitSerialAppend(c, LowBits(b, 8), BitsOf(rest));
      Pow2Small();
      BitSerialOfLowBits(c, b, 8);
      UpdateIsBitSerial(UpdateByte(c, b), rest);
    }
  }

  /** The checksum as a bytewise update between two complements. */
  lemma ChecksumIsUpdate(crc: Word32, s: seq<Byte>)
    ensures Checksum(crc, s) == Xor32(Update(Xor32(crc, ONES), s), ONES)
  {
    UpdateIsBitSerial(Xor32(crc, ONES), s);
  }

  /** Checksums chain: the checksum of a prefix is the seed for the rest. */
  lemma ChecksumChains(crc: Word32, s: seq<Byte>, t: seq<Byte>)
    ensures Checksum(Checksum(crc, s), t) == Checksum(crc, s + t)
  {
    var c := Xor32(crc, ONES);
    ChecksumIsUpdate(crc, s);
    ChecksumIsUpdate(crc, s + t);
    ChecksumIsUpdate(Checksum(crc, s), t);
    UpdateAppend(c, s, t);
    XorCancel(Update(c, s), ONES);
  }

  // ---------------------------------------------------------------------------
  // The interleaving law.
  // ---------------------------------------------------------------------------

  /** Superposition: the seed and the message contribute independently. */
  lemma {:induction false} UpdateSuperposes(a: Word32, b: Word32, s: seq<Byte>)
    ensures Update(Xor32(a, b), s) == Xor32(Zeros(8 * |s|, a), Update(b, s))
  {
    if |s| > 0 {
      var n := |s| - 1;
      var za, ub := Zeros(8 * n, a), Update(b, s[..n]);
      UpdateSuperposes(a, b, s[..n]);
      XorAssoc(za, ub, s[n]);
      ZerosLinear(8, za, Xor32(ub, s[n]));
      ZerosAdd(8, 8 * n, a);
    }
  }

  /** The law behind the interleaved kernels: blocks are summed apart and joined by a shift. */
  lemma UpdateInterleaves(c: Word32, s: seq<Byte>, t: seq<Byte>)
    ensures Update(c, s + t) == Xor32(Zeros(8 * |t|, Update(c, s)), Update(0, t))
  {
    UpdateAppend(c, s, t);
    UpdateSuperposes(Update(c, s), 0, t);
  }
}
