/**
The three CRC-32C kernels of src/crc32c.c.  Each is proved to return the bit-serial checksum
for every seed, buffer, length and starting alignment.  The hardware CRC instructions on
1, 2, 4 or 8 bytes are modelled as the bytewise update of that many bytes.
 */
module Crc32cKernels {
  import opened Basics
  import opened Bits
  import opened Crc32c
  import opened Crc32cTables

  // ---------------------------------------------------------------------------
  // Slicing-by-8 tables.
  // ---------------------------------------------------------------------------

  /** Table `k` holds the register after a byte followed by `k` zero bytes. */
  ghost predicate IsSliceTable(t: array2<Word32>)
    reads t
  {
    && t.Length0 == 8 && t.Length1 == 256
    && forall k, n :: 0 <= k < 8 && 0 <= n < 256 ==> t[k, n] == Zeros(8 * k + 8, n)
  }

  /** Eight zero bits: look up the low byte, shift the rest down. */
  lemma ZeroByteByTable(c: Word32)
    ensures Zeros(8, c) == Xor32(Zeros(8, c % 0x100), c / 0x100)
  {
    var lo, hi := c % 0x100, c / 0x100;
    Pow2Words();
    XorDisjoint(hi, lo, 8);
    XorComm(hi * 0x100, lo);
    ZerosLinear(8, lo, hi * 0x100);
    ZerosShiftOut(8, hi);
  }

  lemma ZeroByteAppend(m: nat, c: Word32)
    ensures Zeros(m + 8, c) == Zeros(8, Zeros(m, c))
  {
    ZerosAdd(8, m, c);
  }

  lemma ZerosTwo(c: Word32)
    ensures Zeros(2, c) == Step(Step(c))
  {
    assert Zeros(1, Step(c)) == Zeros(0, Step(Step(c)));
  }

  /** The unrolled bit loop of one table entry. */
  function EightSteps(n: Word32): (crc: Word32)
    ensures crc == Zeros(8, n)
  {
    var c2 := Step(Step(n));
    var c4 := Step(Step(c2));
    var c6 := Step(Step(c4));
    ZerosTwo(n);
    ZerosTwo(c2);
    ZerosTwo(c4);
    ZerosTwo(c6);
    ZerosAdd(2, 2, n);
    ZerosAdd(2, 4, n);
    ZerosAdd(2, 6, n);
    Step(Step(c6))
  }

  ghost predicate IsByteTable(t: array2<Word32>)
    reads t
  {
    t.Length0 == 8 && t.Length1 == 256 && forall m :: 0 <= m < 256 ==> t[0, m] == Zeros(8, m)
  }

  /** The tables of one byte value, each from the one before by one more zero byte. */
  method SliceColumn(t: array2<Word32>, n: Byte)
    requires IsByteTable(t)
    modifies t
    ensures IsByteTable(t)
    ensures forall k :: 0 <= k < 8 ==> t[k, n] == Zeros(8 * k + 8, n)
    ensures forall k, m :: 0 <= k < 8 && 0 <= m < 256 && m != n ==> t[k, m] == old(t[k, m])
  {
    hide Zeros, Xor;
    var crc: Word32 := t[0, n];
    for k := 1 to 8
      invariant crc == Zeros(8 * k, n)
      invariant IsByteTable(t)
      invariant forall j :: 0 <= j < k ==> t[j, n] == Zeros(8 * j + 8, n)
      invariant forall j, m :: 0 <= j < 8 && 0 <= m < 256 && m != n ==> t[j, m] == old(t[j, m])
    {
      ZeroByteByTable(crc);
      ZeroByteAppend(8 * k, n);
      crc := Xor32(t[0, crc % 0x100], crc / 0x100);
      t[k, n] := crc;
    }
  }

  /** Construct the tables for the software CRC-32C calculation. */
  method InitSw() returns (t: array2<Word32>)
    ensures fresh(t) && IsSliceTable(t)
  {
    hide Zeros, Xor;
    t := new Word32[8, 256];
    for n := 0 to 256
      invariant forall m :: 0 <= m < n ==> t[0, m] == Zeros(8, m)
    {
      t[0, n] := EightSteps(n);
    }
    for n := 0 to 256
      invariant IsByteTable(t)
      invariant forall k, m :: 0 <= k < 8 && 0 <= m < n ==> t[k, m] == Zeros(8 * k + 8, m)
    {
      SliceColumn(t, n);
    }
  }

  // ---------------------------------------------------------------------------
  // Little-endian words as updates.
  // ---------------------------------------------------------------------------

  lemma LittleEndianFits(x: nat, b: Byte, n: nat)
    requires n < 4 && x < Pow2(8 * n)
    ensures b * Pow2(8 * n) <= x + b * Pow2(8 * n) < Pow2(8 * n + 8) <= 0x1_0000_0000
  {
    Pow2Words();
    Pow2Add(8, 8 * n);
    Pow2Monotone(8 * n + 8, 32);
    MulMonotone(0, b, Pow2(8 * n));
    MulMonotone(b, 0xff, Pow2(8 * n));
  }

  function Join(x: nat, b: Byte, n: nat): (r: Word32)
    requires n < 4 && x < Pow2(8 * n)
    ensures r < Pow2(8 * (n + 1))
  {
    LittleEndianFits(x, b, n);
    x + b * Pow2(8 * n)
  }

  /** The value of up to four bytes loaded in little-endian order. */
  function LittleEndian(s: seq<Byte>): (r: Word32)
    requires |s| <= 4
    ensures r < Pow2(8 * |s|)
  {
    if |s| == 0 then 0 else Join(LittleEndian(s[..|s| - 1]), s[|s| - 1], |s| - 1)
  }

  /** Up to four bytes can be added to the register at once. */
  lemma {:induction false} UpdateLittleEndian(c: Word32, s: seq<Byte>)
    requires |s| <= 4
    ensures Update(c, s) == Zeros(8 * |s|, Xor32(c, LittleEndian(s)))
  {
    hide Xor;
    XorZero(c);
    if |s| > 0 {
      var n := |s| - 1;
      var x, b := LittleEndian(s[..n]), s[n];
      LittleEndianFits(x, b, n);
      var y: Word32 := b * Pow2(8 * n);
      UpdateLittleEndian(c, s[..n]);
      ZerosShiftOut(8 * n, b);
      ZerosLinear(8 * n, Xor32(c, x), y);
      XorAssoc(c, x, y);
      XorDisjoint(b, x, 8 * n);
      XorComm(x, y);
      ZerosAdd(8, 8 * n, Xor32(Xor32(c, x), y));
    }
  }

  lemma ZerosOfByteInPlace(m: nat, n: Byte, j: nat)
    requires j < 4
    ensures Zeros(m + 8 * j, AtByte(n, j)) == Zeros(m, n)
  {
    hide Zeros;
    assert AtByte(n, j) == n * Pow2(8 * j) by { Pow2Words(); }
    ZerosAdd(m, 8 * j, AtByte(n, j));
    ZerosShiftOut(8 * j, n);
  }

  /** A word followed by zero bits, one byte at a time. */
  lemma ZerosOfWord(m: nat, c: Word32)
    ensures Zeros(m + 24, c)
         == Xor32(Xor32(Xor32(Zeros(m + 24, c % 0x100), Zeros(m + 16, c / 0x100 % 0x100)),
                        Zeros(m + 8, c / 0x1_0000 % 0x100)),
                  Zeros(m, c / 0x100_0000))
  {
    var b0, b1, b2, b3 := c % 0x100, c / 0x100 % 0x100, c / 0x1_0000 % 0x100, c / 0x100_0000;
    ByteDigits(c);
    XorOfBytes(b0, b1, b2, b3);
    ZerosOfFour(m + 24, AtByte(b0, 0), AtByte(b1, 1), AtByte(b2, 2), AtByte(b3, 3));
    ZerosOfByteInPlace(m + 24, b0, 0);
    ZerosOfByteInPlace(m + 16, b1, 1);
    ZerosOfByteInPlace(m + 8, b2, 2);
    ZerosOfByteInPlace(m, b3, 3);
  }

  // ---------------------------------------------------------------------------
  // The software kernel.
  // ---------------------------------------------------------------------------

  lemma UpdateNothing(c: Word32, s: seq<Byte>)
    requires |s| == 0
    ensures Update(c, s) == c
  {
  }

  /** Reading on in a buffer. */
  lemma UpdateExtends(c: Word32, buf: seq<Byte>, p: nat, q: nat)
    requires p <= q <= |buf|
    ensures Update(c, buf[..q]) == Update(Update(c, buf[..p]), buf[p..q])
  {
    assert buf[..q] == buf[..p] + buf[p..q];
    UpdateAppend(c, buf[..p], buf[p..q]);
  }

  lemma UpdateExtendsByte(c: Word32, buf: seq<Byte>, p: nat)
    requires p < |buf|
    ensures Update(c, buf[..p + 1]) == UpdateByte(Update(c, buf[..p]), buf[p])
  {
    assert buf[..p + 1][..p] == buf[..p];
  }

  /** One byte by table: the loop body before and after the eight-byte units. */
  function ByteByTable(t: array2<Word32>, crc: Word32, b: Byte): (r: Word32)
    requires IsSliceTable(t)
    reads t
    ensures r == UpdateByte(crc, b)
  {
    assert Xor(crc, b) / 0x100 == crc / 0x100 by {
      Pow2Words();
      XorHigh(crc, b, 8);
      ShrIsDiv(Xor(crc, b), 8);
      ShrIsDiv(crc, 8);
      ShrIsDiv(b, 8);
    }
    ZeroByteByTable(Xor32(crc, b));
    Xor32(t[0, Xor32(crc, b) % 0x100], crc / 0x100)
  }

  /** Eight table lookups on the register xor four bytes, and on the next four bytes. */
  function SliceLookup(t: array2<Word32>, lo: Word32, hi: Word32): Word32
    requires IsSliceTable(t)
    reads t
  {
    var x4 := Xor32(Xor32(Xor32(t[7, lo % 0x100], t[6, lo / 0x100 % 0x100]),
                          t[5, lo / 0x1_0000 % 0x100]),
                    t[4, lo / 0x100_0000]);
    Xor32(Xor32(Xor32(Xor32(x4, t[3, hi % 0x100]), t[2, hi / 0x100 % 0x100]),
                t[1, hi / 0x1_0000 % 0x100]),
          t[0, hi / 0x100_0000])
  }

  lemma XorFourMore(x: nat, a: nat, b: nat, c: nat, d: nat)
    ensures Xor(Xor(Xor(Xor(x, a), b), c), d) == Xor(x, Xor(Xor(Xor(a, b), c), d))
  {
    hide Xor;
    XorAssoc(x, a, b);
    XorAssoc(x, Xor(a, b), c);
    XorAssoc(x, Xor(Xor(a, b), c), d);
  }

  lemma SliceLookupIsZeros(t: array2<Word32>, lo: Word32, hi: Word32)
    requires IsSliceTable(t)
    ensures SliceLookup(t, lo, hi) == Xor32(Zeros(64, lo), Zeros(32, hi))
  {
    hide Xor, Zeros;
    ZerosOfWord(40, lo);
    ZerosOfWord(8, hi);
    XorFourMore(Zeros(64, lo), t[3, hi % 0x100], t[2, hi / 0x100 % 0x100],
                t[1, hi / 0x1_0000 % 0x100], t[0, hi / 0x100_0000]);
  }

  /** Eight bytes at once. */
  lemma SliceIsUpdate(t: array2<Word32>, crc: Word32, s: seq<Byte>)
    requires IsSliceTable(t) && |s| == 8
    ensures SliceLookup(t, Xor32(crc, LittleEndian(s[..4])), LittleEndian(s[4..])) == Update(crc, s)
  {
    hide Xor, Zeros;
    var lo, hi := Xor32(crc, LittleEndian(s[..4])), LittleEndian(s[4..]);
    assert s == s[..4] + s[4..];
    UpdateAppend(crc, s[..4], s[4..]);
    UpdateLittleEndian(crc, s[..4]);
    UpdateLittleEndian(Zeros(32, lo), s[4..]);
    ZerosLinear(32, Zeros(32, lo), hi);
    ZerosAdd(32, 32, lo);
    SliceLookupIsZeros(t, lo, hi);
  }

  const W32: nat := 0x1_0000_0000

  /** Eight table lookups on the bytes of one 64-bit word. */
  function SliceLookup64(t: array2<Word32>, x: nat): Word32
    requires IsSliceTable(t) && x < W32 * W32
    reads t
  {
    var x4 := Xor32(Xor32(Xor32(t[7, x % 0x100], t[6, x / 0x100 % 0x100]),
                          t[5, x / 0x1_0000 % 0x100]),
                    t[4, x / 0x100_0000 % 0x100]);
    Xor32(Xor32(Xor32(Xor32(x4, t[3, x / W32 % 0x100]), t[2, x / 0x100_0000_0000 % 0x100]),
                t[1, x / 0x1_0000_0000_0000 % 0x100]),
          t[0, x / 0x100_0000_0000_0000])
  }

  lemma ByteOfSum(lo: nat, hi: nat, d: nat, e: nat)
    requires d > 0
    ensures (lo + e * d * hi) / d == lo / d + e * hi
  {
    Associate(e, d, hi);
    Associate(e, hi, d);
    ModAddMultiple(lo, e * hi, d);
  }

  /** The bytes of a 64-bit word are those of its halves. */
  lemma LowBytesOfHalves(x: nat, lo: Word32, hi: Word32)
    requires x == lo + 0x1_0000_0000 * hi
    ensures x % 0x100 == lo % 0x100 && x / 0x100 % 0x100 == lo / 0x100 % 0x100
    ensures x / 0x1_0000 % 0x100 == lo / 0x1_0000 % 0x100 && x / 0x100_0000 % 0x100 == lo / 0x100_0000
  {
    ByteOfSum(lo, hi, 0x100, 0x100_0000);
    ByteOfSum(lo, hi, 0x1_0000, 0x1_0000);
    ByteOfSum(lo, hi, 0x100_0000, 0x100);
    ModAddMultiple(lo, 0x100_0000 * hi, 0x100);
    ModAddMultiple(lo / 0x100, 0x1_0000 * hi, 0x100);
    ModAddMultiple(lo / 0x1_0000, 0x100 * hi, 0x100);
    ModAddMultiple(lo / 0x100_0000, hi, 0x100);
  }

  lemma HighBytesOfHalves(x: nat, lo: Word32, hi: Word32)
    requires x == lo + 0x1_0000_0000 * hi
    ensures x / 0x1_0000_0000 == hi && x / 0x100_0000_0000 == hi / 0x100
    ensures x / 0x1_0000_0000_0000 == hi / 0x1_0000 && x / 0x100_0000_0000_0000 == hi / 0x100_0000
  {
    DivModUnique(x, 0x1_0000_0000, hi, lo);
    DivDiv(x, 0x1_0000_0000, 0x100);
    DivDiv(x, 0x1_0000_0000, 0x1_0000);
    DivDiv(x, 0x1_0000_0000, 0x100_0000);
  }

  /** Xor of a register into a 64-bit word touches its low half only. */
  lemma XorIntoLowHalf(crc: Word32, lo: Word32, hi: Word32)
    ensures Xor(crc, lo + W32 * hi) == Xor(crc, lo) + W32 * hi
  {
    hide Xor;
    Pow2Words();
    XorDisjoint(hi, lo, 32);
    XorComm(W32 * hi, lo);
    XorAssoc(crc, lo, W32 * hi);
    XorBound(crc, lo, 32);
    XorDisjoint(hi, Xor(crc, lo), 32);
    XorComm(W32 * hi, Xor(crc, lo));
  }

  // ---------------------------------------------------------------------------
  // The software kernel, whose word loads are in the order of the machine.
  // ---------------------------------------------------------------------------

  /** The machine: pointers of 64 or 32 bits, and the byte order of its loads. */
  datatype Machine = Machine(p64: bool, bigEndian: bool)

  function Reversed(s: seq<Byte>): (r: seq<Byte>)
    ensures |r| == |s| && forall i :: 0 <= i < |s| ==> r[i] == s[|s| - 1 - i]
  {
    seq(|s|, i requires 0 <= i < |s| => s[|s| - 1 - i])
  }

  /** An eight-byte unit in the order in which its lookups take the bytes. */
  function UnitAsLoaded(m: Machine, s: seq<Byte>): (r: seq<Byte>)
    requires |s| == 8
    ensures |r| == 8
  {
    if !m.bigEndian then s else if m.p64 then Reversed(s) else Reversed(s[..4]) + Reversed(s[4..])
  }

  /** Every whole unit as it is loaded; the rest is read byte by byte. */
  function UnitsAsLoaded(m: Machine, s: seq<Byte>): seq<Byte>
    decreases |s|
  {
    if |s| < 8 then s else UnitAsLoaded(m, s[..8]) + UnitsAsLoaded(m, s[8..])
  }

  /** How many bytes come before the first aligned unit. */
  function HeadLength(addr: nat, n: nat): (h: nat)
    ensures h <= n
  {
    Min(n, (8 - addr % 8) % 8)
  }

  lemma HeadStops(addr: nat, n: nat, p: nat)
    requires p <= HeadLength(addr, n)
    ensures p < HeadLength(addr, n) <==> p < n && (addr + p) % 8 != 0
  {
  }

  /** The message that the kernel in effect works on. */
  function AsLoaded(m: Machine, addr: nat, buf: seq<Byte>): seq<Byte> {
    var h := HeadLength(addr, |buf|);
    buf[..h] + UnitsAsLoaded(m, buf[h..])
  }

  lemma {:induction false} LittleEndianAsLoaded(m: Machine, s: seq<Byte>)
    requires !m.bigEndian
    ensures UnitsAsLoaded(m, s) == s
    decreases |s|
  {
    if |s| >= 8 {
      LittleEndianAsLoaded(m, s[8..]);
      assert s == s[..8] + s[8..];
    }
  }

  /** The eight-byte unit of the software kernel, on 64-bit and on 32-bit machines. */
  method SliceUnit(t: array2<Word32>, crc: Word32, s: seq<Byte>, m: Machine) returns (r: Word32)
    requires IsSliceTable(t) && |s| == 8
    ensures r == Update(crc, UnitAsLoaded(m, s))
  {
    var u := UnitAsLoaded(m, s);
    var lo, hi := LittleEndian(u[..4]), LittleEndian(u[4..]);
    SliceIsUpdate(t, crc, u);
    if m.p64 {
      var x := Xor(crc, lo + W32 * hi);
      XorIntoLowHalf(crc, lo, hi);
      LowBytesOfHalves(x, Xor32(crc, lo), hi);
      HighBytesOfHalves(x, Xor32(crc, lo), hi);
      r := SliceLookup64(t, x);
    } else {
      r := SliceLookup(t, Xor32(crc, lo), hi);
    }
  }

  /**
  The checksum of the buffer on a machine with little-endian loads; on any other one that of
  the buffer with the bytes of every aligned unit reversed.
   */
  method Crc32cSw(t: array2<Word32>, crci: Word32, buf: seq<Byte>, addr: nat, m: Machine) returns (r: Word32)
    requires IsSliceTable(t)
    ensures r == Checksum(crci, AsLoaded(m, addr, buf))
    ensures !m.bigEndian ==> r == Checksum(crci, buf)
  {
    hide Update, UpdateByte, Checksum, Xor32, HeadLength, UnitsAsLoaded;
    var crc := Xor32(crci, ONES);
    ghost var c := crc;
    var p := 0;
    ghost var h := HeadLength(addr, |buf|);
    UpdateNothing(c, buf[..p]);
    HeadStops(addr, |buf|, p);
    while p < |buf| && (addr + p) % 8 != 0
      invariant p <= h && crc == Update(c, buf[..p])
      invariant p < h <==> p < |buf| && (addr + p) % 8 != 0
    {
      UpdateExtendsByte(c, buf, p);
      crc := ByteByTable(t, crc, buf[p]);
      p := p + 1;
      HeadStops(addr, |buf|, p);
    }
    UpdateAppend(c, buf[..h], UnitsAsLoaded(m, buf[h..]));
    crc := UnitsAndTail(t, crc, buf[p..], m);
    ChecksumIsUpdate(crci, AsLoaded(m, addr, buf));
    if !m.bigEndian {
      LittleEndianAsLoaded(m, buf[h..]);
      assert buf[..h] + buf[h..] == buf;
    }
    r := Xor32(crc, ONES);
  }

  /** The aligned units and the bytes after them. */
  method UnitsAndTail(t: array2<Word32>, crc: Word32, s: seq<Byte>, m: Machine) returns (r: Word32)
    requires IsSliceTable(t)
    ensures r == Update(crc, UnitsAsLoaded(m, s))
  {
    hide Update, UpdateByte, Xor32, UnitAsLoaded;
    r := crc;
    var p := 0;
    ghost var all := UnitsAsLoaded(m, s);
    ghost var seen: seq<Byte> := [];
    UpdateNothing(crc, seen);
    assert s[0..] == s;
    while |s| - p >= 8
      invariant p <= |s| && r == Update(crc, seen)
      invariant all == seen + UnitsAsLoaded(m, s[p..])
    {
      ghost var unit := UnitAsLoaded(m, s[p..p + 8]);
      assert UnitsAsLoaded(m, s[p..]) == unit + UnitsAsLoaded(m, s[p + 8..]) by {
        assert s[p..][..8] == s[p..p + 8] && s[p..][8..] == s[p + 8..];
      }
      UpdateAppend(crc, seen, unit);
      r := SliceUnit(t, r, s[p..p + 8], m);
      seen := seen + unit;
      p := p + 8;
    }
    r := TableBytes(t, r, s[p..]);
    UpdateAppend(crc, seen, s[p..]);
  }

  /** The bytes of a message one by one. */
  method TableBytes(t: array2<Word32>, crc: Word32, s: seq<Byte>) returns (r: Word32)
    requires IsSliceTable(t)
    ensures r == Update(crc, s)
  {
    hide Update, UpdateByte, Xor32;
    r := crc;
    UpdateNothing(crc, s[..0]);
    for p := 0 to |s|
      invariant r == Update(crc, s[..p])
    {
      UpdateExtendsByte(crc, s, p);
      r := ByteByTable(t, r, s[p]);
    }
    assert s[..|s|] == s;
  }

  // Big-endian loads do change the checksum.

  /** No nonzero register is shifted to zero. */
  lemma {:induction false} ZerosKernel(n: nat, c: Word32)
    requires Zeros(n, c) == 0
    ensures c == 0
  {
    if n > 0 {
      ZerosKernel(n - 1, Step(c));
      hide Xor;
      if c % 2 == 1 {
        XorEqual(c / 2, POLY);
      }
    }
  }

  lemma XorEqual(a: Word32, b: Word32)
    ensures Xor(a, b) == 0 <==> a == b
  {
    hide Xor;
    XorCancel(a, b);
    XorComm(0, b);
    XorZero(b);
    XorSelf(a);
  }

  lemma ZerosInjective(n: nat, a: Word32, b: Word32)
    requires Zeros(n, a) == Zeros(n, b)
    ensures a == b
  {
    hide Xor, Zeros;
    ZerosLinear(n, a, b);
    XorEqual(Zeros(n, a), Zeros(n, b));
    ZerosKernel(n, Xor32(a, b));
    XorEqual(a, b);
  }

  /** The register after a unit decides its two halves. */
  lemma UpdateOfHalves(c: Word32, s: seq<Byte>)
    requires |s| == 8
    ensures Update(c, s) == Zeros(32, Xor32(Zeros(32, Xor32(c, LittleEndian(s[..4]))), LittleEndian(s[4..])))
  {
    hide Xor, Zeros, Update, LittleEndian;
    assert s == s[..4] + s[4..];
    UpdateAppend(c, s[..4], s[4..]);
    UpdateLittleEndian(c, s[..4]);
    UpdateLittleEndian(Update(c, s[..4]), s[4..]);
  }

  const Sample: seq<Byte> := [0, 0, 0, 0, 1, 0, 0, 0]

  /** Whatever the seed, a big-endian machine gets this buffer wrong. */
  lemma BigEndianDiffers(crci: Word32, m: Machine)
    requires m.bigEndian
    ensures Checksum(crci, AsLoaded(m, 0, Sample)) != Checksum(crci, Sample)
  {
    hide Xor, Update, UnitAsLoaded, Checksum, AsLoaded;
    var u := UnitAsLoaded(m, Sample);
    OneUnitAsLoaded(m, Sample);
    ChecksumIsUpdate(crci, u);
    ChecksumIsUpdate(crci, Sample);
    var c := Xor32(crci, ONES);
    SampleDiffers(c, m);
    XorCancel(Update(c, u), ONES);
    XorCancel(Update(c, Sample), ONES);
  }

  lemma OneUnitAsLoaded(m: Machine, s: seq<Byte>)
    requires |s| == 8
    ensures AsLoaded(m, 0, s) == UnitAsLoaded(m, s)
  {
    hide UnitAsLoaded;
    assert s[0..] == s && s[..8] == s && s[8..] == [];
    assert UnitsAsLoaded(m, []) == [];
  }

  lemma WordOfBytes(a: Byte, d: Byte)
    ensures LittleEndian([a, 0, 0, d]) == a + d * 0x100_0000
  {
    Pow2Words();
    var s := [a, 0, 0, d];
    assert s[..3] == [a, 0, 0] && [a, 0, 0][..2] == [a, 0] && [a, 0][..1] == [a] && [a][..0] == [];
    assert LittleEndian([a]) == a;
    assert LittleEndian([a, 0]) == a;
    assert LittleEndian([a, 0, 0]) == a;
  }

  /** The sample as a big-endian machine loads it: in one word, or in two. */
  lemma SampleLoaded(m: Machine)
    requires m.bigEndian
    ensures m.p64 ==> UnitAsLoaded(m, Sample) == [0, 0, 0, 1] + [0, 0, 0, 0]
    ensures !m.p64 ==> UnitAsLoaded(m, Sample) == [0, 0, 0, 0] + [0, 0, 0, 1]
    ensures Sample == [0, 0, 0, 0] + [1, 0, 0, 0]
  {
    assert !m.p64 ==> Sample[..4] == [0, 0, 0, 0] && Sample[4..] == [1, 0, 0, 0];
  }

  lemma SampleRegister(c: Word32, a: Byte, d: Byte, e: Byte, h: Byte)
    ensures Update(c, [a, 0, 0, d] + [e, 0, 0, h])
         == Zeros(32, Xor32(Zeros(32, Xor32(c, a + d * 0x100_0000)), e + h * 0x100_0000))
  {
    hide Xor, Zeros, Update, LittleEndian;
    var s := [a, 0, 0, d] + [e, 0, 0, h];
    assert s[..4] == [a, 0, 0, d] && s[4..] == [e, 0, 0, h];
    UpdateOfHalves(c, s);
    WordOfBytes(a, d);
    WordOfBytes(e, h);
  }

  lemma EarlyBitDiffers(c: Word32)
    ensures Update(c, [0, 0, 0, 1] + [0, 0, 0, 0]) != Update(c, [0, 0, 0, 0] + [1, 0, 0, 0])
  {
    hide Xor, Zeros, Update;
    var z := Zeros(32, c);
    var x, y := Zeros(32, Xor32(c, 0x100_0000)), Xor32(z, 1);
    SampleRegister(c, 0, 1, 0, 0);
    SampleRegister(c, 0, 0, 1, 0);
    XorZero(c);
    XorZero(x);
    HighByteShifted(c);
    if Zeros(32, x) == Zeros(32, y) {
      ZerosInjective(32, x, y);
      XorSame(z, Zeros(8, 1), 1);
    }
  }

  lemma LateBitDiffers(c: Word32)
    ensures Update(c, [0, 0, 0, 0] + [0, 0, 0, 1]) != Update(c, [0, 0, 0, 0] + [1, 0, 0, 0])
  {
    hide Xor, Zeros, Update;
    var z := Zeros(32, c);
    var x, y := Xor32(z, 0x100_0000), Xor32(z, 1);
    SampleRegister(c, 0, 0, 0, 1);
    SampleRegister(c, 0, 0, 1, 0);
    XorZero(c);
    if Zeros(32, x) == Zeros(32, y) {
      ZerosInjective(32, x, y);
      XorSame(z, 0x100_0000, 1);
    }
  }

  lemma SampleDiffers(c: Word32, m: Machine)
    requires m.bigEndian
    ensures Update(c, UnitAsLoaded(m, Sample)) != Update(c, Sample)
  {
    hide Update, UnitAsLoaded;
    SampleLoaded(m);
    EarlyBitDiffers(c);
    LateBitDiffers(c);
  }

  lemma XorSame(z: Word32, a: Word32, b: Word32)
    requires Xor(z, a) == Xor(z, b)
    ensures a == b
  {
    hide Xor;
    XorComm(z, a);
    XorComm(z, b);
    XorCancel(a, z);
    XorCancel(b, z);
  }

  /** Thirty-two zero bits bring the top byte to the bottom and then shift it out as a byte does. */
  lemma HighByteShifted(c: Word32)
    ensures Zeros(32, Xor32(c, 0x100_0000)) == Xor32(Zeros(32, c), Zeros(8, 1))
    ensures Zeros(8, 1) != 1
  {
    Pow2Words();
    ZerosShiftOut(24, 1);
    ZerosShiftOut(8, 1);
    hide Xor, Zeros, Pow2;
    ZerosLinear(32, c, 0x100_0000);
    ZerosAdd(8, 24, 0x100_0000);
    if Zeros(8, 1) == 1 {
      ZerosInjective(8, 1, 0x100);
    }
  }

  // ---------------------------------------------------------------------------
  // The hardware kernels.
  // ---------------------------------------------------------------------------

  /** Joining the registers of two adjacent blocks with a shift table. */
  lemma JoinBlocks(zeros: array2<Word32>, size: nat, c: Word32, buf: seq<Byte>, p: nat)
    requires IsShiftTable(zeros, 8 * size) && p + 2 * size <= |buf|
    ensures Xor32(Shift(zeros, Update(c, buf[p..p + size])), Update(0, buf[p + size..p + 2 * size]))
         == Update(c, buf[p..p + 2 * size])
  {
    var s, t := buf[p..p + size], buf[p + size..p + 2 * size];
    assert buf[p..p + 2 * size] == s + t;
    UpdateInterleaves(c, s, t);
    ShiftIsZeros(zeros, 8 * size, Update(c, s));
  }

  /** One more hardware word in the block that starts at `p`. */
  lemma ExtendBlock(c: Word32, buf: seq<Byte>, p: nat, i: nat, w: nat)
    requires p + i + w <= |buf|
    ensures Update(c, buf[p..p + i + w]) == Update(Update(c, buf[p..p + i]), buf[p + i..p + i + w])
  {
    assert buf[p..p + i + w] == buf[p..p + i] + buf[p + i..p + i + w];
    UpdateAppend(c, buf[p..p + i], buf[p + i..p + i + w]);
  }

  /** Three adjacent blocks, summed side by side a hardware word at a time and joined. */
  method ThreeBlocks(zeros: array2<Word32>, size: nat, w: nat, crc: Word32, buf: seq<Byte>, p: nat)
      returns (r: Word32)
    requires IsShiftTable(zeros, 8 * size) && p + 3 * size <= |buf|
    requires w > 0 && size % w == 0
    ensures r == Update(crc, buf[p..p + 3 * size])
  {
    hide Update, Zeros, Xor32, Shift;
    var crc0, crc1, crc2 := crc, 0, 0;
    var q1, q2 := p + size, p + 2 * size;
    var i := 0;
    UpdateNothing(crc, buf[p..p]);
    UpdateNothing(0, buf[q1..q1]);
    UpdateNothing(0, buf[q2..q2]);
    while i < size
      invariant i <= size && i % w == 0
      invariant crc0 == Update(crc, buf[p..p + i])
      invariant crc1 == Update(0, buf[q1..q1 + i])
      invariant crc2 == Update(0, buf[q2..q2 + i])
    {
      WholeWords(i, size, w);
      ExtendBlock(crc, buf, p, i, w);
      ExtendBlock(0, buf, q1, i, w);
      ExtendBlock(0, buf, q2, i, w);
      crc0 := Update(crc0, buf[p + i..p + i + w]);
      crc1 := Update(crc1, buf[q1 + i..q1 + i + w]);
      crc2 := Update(crc2, buf[q2 + i..q2 + i + w]);
      i := i + w;
    }
    JoinBlocks(zeros, size, crc, buf, p);
    crc0 := Xor32(Shift(zeros, crc0), crc1);
    ghost var s, t := buf[p..q2], buf[q2..q2 + size];
    assert buf[p..p + 3 * size] == s + t;
    UpdateInterleaves(crc, s, t);
    ShiftIsZeros(zeros, 8 * size, crc0);
    r := Xor32(Shift(zeros, crc0), crc2);
  }

  lemma WholeWords(i: nat, size: nat, w: nat)
    requires w > 0 && i % w == 0 && size % w == 0 && i < size
    ensures i + w <= size && (i + w) % w == 0
  {
    ModAddMultiple(i, 1, w);
    if i + w > size {
      assert size == i + (size - i);
      ModAddMultiple(size - i, i / w, w);
      assert i == w * (i / w) + i % w;
      DivModUnique(size - i, w, 0, size - i);
    }
  }

  /** Runs of three blocks while they fit in what is left. */
  method BlockRuns(zeros: array2<Word32>, size: nat, w: nat, crc: Word32, buf: seq<Byte>, p: nat, ghost c: Word32)
      returns (r: Word32, q: nat)
    requires IsShiftTable(zeros, 8 * size) && size > 0 && w > 0 && size % w == 0
    requires p <= |buf| && crc == Update(c, buf[..p])
    ensures p <= q <= |buf| < q + 3 * size && r == Update(c, buf[..q])
  {
    hide Update, IsShiftTable;
    r, q := crc, p;
    while |buf| - q >= 3 * size
      invariant p <= q <= |buf| && r == Update(c, buf[..q])
      decreases |buf| - q
    {
      UpdateExtends(c, buf, q, q + 3 * size);
      r := ThreeBlocks(zeros, size, w, r, buf, q);
      q := q + 3 * size;
    }
  }

  /** Hardware words up to `end`. */
  method HardwareWords(w: nat, crc: Word32, buf: seq<Byte>, p: nat, end: nat, ghost c: Word32) returns (r: Word32)
    requires w > 0 && p <= end <= |buf| && (end - p) % w == 0 && crc == Update(c, buf[..p])
    ensures r == Update(c, buf[..end])
  {
    hide Update;
    r := crc;
    var q := p;
    while q < end
      invariant p <= q <= end && (q - p) % w == 0 && r == Update(c, buf[..q])
    {
      WholeWords(q - p, end - p, w);
      UpdateExtends(c, buf, q, q + w);
      r := Update(r, buf[q..q + w]);
      q := q + w;
    }
  }

  /** Single bytes until the address is a multiple of eight. */
  method LeadingBytes(crc: Word32, buf: seq<Byte>, addr: nat) returns (r: Word32, p: nat)
    ensures p <= |buf| && r == Update(crc, buf[..p])
    ensures p == |buf| || (addr + p) % 8 == 0
  {
    hide Update, UpdateByte;
    r, p := crc, 0;
    UpdateNothing(crc, buf[..p]);
    while p < |buf| && (addr + p) % 8 != 0
      invariant p <= |buf| && r == Update(crc, buf[..p])
    {
      UpdateExtendsByte(crc, buf, p);
      r := UpdateByte(r, buf[p]);
      p := p + 1;
    }
  }

  /** Single bytes to the end of the buffer. */
  method TrailingBytes(crc: Word32, buf: seq<Byte>, p: nat, ghost c: Word32) returns (r: Word32)
    requires p <= |buf| && crc == Update(c, buf[..p])
    ensures r == Update(c, buf)
  {
    hide Update, UpdateByte;
    r := crc;
    var q := p;
    while q < |buf|
      invariant p <= q <= |buf| && r == Update(c, buf[..q])
    {
      UpdateExtendsByte(c, buf, q);
      r := UpdateByte(r, buf[q]);
      q := q + 1;
    }
    assert buf[..q] == buf;
  }

  /** The SSE4.2 kernel; `w` is the pointer size, 8 or 4 bytes. */
  method Crc32cSse42(long: array2<Word32>, short: array2<Word32>, crci: Word32, buf: seq<Byte>, addr: nat, w: nat)
      returns (r: Word32)
    requires IsShiftTable(long, 8 * LONG) && IsShiftTable(short, 8 * SHORT)
    requires w == 4 || w == 8
    ensures r == Checksum(crci, buf)
  {
    hide Update, Checksum, Xor32, IsShiftTable;
    var crc0 := Xor32(crci, ONES);
    ghost var c := crc0;
    var p, end: nat;
    crc0, p := LeadingBytes(crc0, buf, addr);
    crc0, p := BlockRuns(long, LONG, w, crc0, buf, p, c);
    crc0, p := BlockRuns(short, SHORT, w, crc0, buf, p, c);
    var len := |buf| - p;
    end := p + (len - len % 8);
    crc0 := HardwareWords(w, crc0, buf, p, end, c);
    crc0 := TrailingBytes(crc0, buf, end, c);
    ChecksumIsUpdate(crci, buf);
    r := Xor32(crc0, ONES);
  }

  /** Two adjacent SHORT blocks, summed side by side and joined. */
  method TwoBlocks(zeros: array2<Word32>, crc: Word32, buf: seq<Byte>, p: nat) returns (r: Word32)
    requires IsShiftTable(zeros, 8 * SHORT) && p + 2 * SHORT <= |buf|
    ensures r == Update(crc, buf[p..p + 2 * SHORT])
  {
    hide Update, Zeros, Xor32, Shift;
    var crc0, crc1 := crc, 0;
    var q := p + SHORT;
    var i := 0;
    UpdateNothing(crc, buf[p..p]);
    UpdateNothing(0, buf[q..q]);
    while i < SHORT
      invariant i <= SHORT && i % 8 == 0
      invariant crc0 == Update(crc, buf[p..p + i])
      invariant crc1 == Update(0, buf[q..q + i])
    {
      ExtendBlock(crc, buf, p, i, 8);
      ExtendBlock(0, buf, q, i, 8);
      crc0 := Update(crc0, buf[p + i..p + i + 8]);
      crc1 := Update(crc1, buf[q + i..q + i + 8]);
      i := i + 8;
    }
    JoinBlocks(zeros, SHORT, crc, buf, p);
    r := Xor32(Shift(zeros, crc0), crc1);
  }

  /** The ARMv8 kernel: unaligned loads, a two-block step, and a 4-2-1 tail. */
  method Crc32cArmv8(long: array2<Word32>, short: array2<Word32>, crci: Word32, buf: seq<Byte>) returns (r: Word32)
    requires IsShiftTable(long, 8 * LONG) && IsShiftTable(short, 8 * SHORT)
    ensures r == Checksum(crci, buf)
  {
    hide Update, Checksum, Xor32, IsShiftTable;
    var crc := Xor32(crci, ONES);
    ghost var c := crc;
    UpdateNothing(c, buf[..0]);
    var p: nat;
    crc, p := BlockRuns(long, LONG, 8, crc, buf, 0, c);
    crc, p := BlockRuns(short, SHORT, 8, crc, buf, p, c);
    if |buf| - p >= SHORT * 2 {
      UpdateExtends(c, buf, p, p + 2 * SHORT);
      crc := TwoBlocks(short, crc, buf, p);
      p := p + 2 * SHORT;
    }
    var len := |buf| - p;
    var end := p + len - 8;
    while p <= end
      invariant p <= |buf| && (|buf| - p) % 8 == len % 8 && crc == Update(c, buf[..p])
      decreases |buf| - p
    {
      UpdateExtends(c, buf, p, p + 8);
      crc := Update(crc, buf[p..p + 8]);
      p := p + 8;
    }
    crc := Armv8Tail(crc, buf, p, len, c);
    ChecksumIsUpdate(crci, buf);
    r := Xor32(crc, ONES);
  }

  lemma TailBits(len: nat)
    ensures len % 8 == len / 4 % 2 * 4 + len / 2 % 2 * 2 + len % 2
  {
    assert len / 4 == len / 2 / 2;
  }

  /** The last `len % 8` bytes, chosen by the low bits of `len`. */
  method Armv8Tail(crc: Word32, buf: seq<Byte>, p: nat, len: nat, ghost c: Word32) returns (r: Word32)
    requires p <= |buf| && |buf| - p == len % 8 && crc == Update(c, buf[..p])
    ensures r == Update(c, buf)
  {
    hide Update, UpdateByte;
    var q := p;
    r := crc;
    TailBits(len);
    var four, two, one := len / 4 % 2, len / 2 % 2, len % 2;
    if four == 1 {
      UpdateExtends(c, buf, q, q + 4);
      r := Update(r, buf[q..q + 4]);
      q := q + 4;
    }
    if two == 1 {
      UpdateExtends(c, buf, q, q + 2);
      r := Update(r, buf[q..q + 2]);
      q := q + 2;
    }
    if one == 1 {
      UpdateExtendsByte(c, buf, q);
      r := UpdateByte(r, buf[q]);
      q := q + 1;
    }
    assert buf[..q] == buf;
  }
}
