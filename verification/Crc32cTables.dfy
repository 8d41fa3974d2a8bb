/**
The table generator of src/crc32c.c: GF(2) matrices for "append zeros" built by repeated
squaring, the byte-indexed tables that apply them, and the slicing-by-8 tables.
 */
module Crc32cTables {
  import opened Basics
  import opened Bits
  import opened Crc32c

  // ---------------------------------------------------------------------------
  // Matrices over GF(2): row `n` is the image of the value with only bit `n` set.
  // ---------------------------------------------------------------------------

  /** The product of rows `i..` of a matrix with a vector whose bit 0 selects row `i`. */
  function TimesFrom(mat: seq<Word32>, i: nat, v: nat): Word32
    requires |mat| == 32 && i <= 32
    decreases 32 - i
  {
    if i == 32 then 0
    else Xor32(if v % 2 == 1 then mat[i] else 0, TimesFrom(mat, i + 1, v / 2))
  }

  function Times(mat: seq<Word32>, v: Word32): Word32
    requires |mat| == 32
  {
    TimesFrom(mat, 0, v)
  }

  /** The value with only bit `n` set. */
  function Unit(n: nat): Word32
    requires n < 32
  {
    Pow2Words();
    Pow2Monotone(n, 32);
    Pow2(n)
  }

  /** The matrix of the operator that appends `k` zero bits. */
  ghost predicate Represents(mat: seq<Word32>, k: nat) {
    |mat| == 32 && forall n :: 0 <= n < 32 ==> mat[n] == Zeros(k, Unit(n))
  }

  lemma {:induction false} TimesFromZero(mat: seq<Word32>, i: nat)
    requires |mat| == 32 && i <= 32
    ensures TimesFrom(mat, i, 0) == 0
    decreases 32 - i
  {
    if i < 32 {
      TimesFromZero(mat, i + 1);
    }
  }

  /** A shifted value is its lowest bit xor the rest, and stays inside the word. */
  lemma SplitLowBit(v: nat, i: nat)
    requires i < 32 && v < Pow2(32 - i)
    ensures v / 2 < Pow2(31 - i)
    ensures Shl(v, i) < 0x1_0000_0000 && Shl(v % 2, i) < 0x1_0000_0000 && Shl(v / 2, i + 1) < 0x1_0000_0000
    ensures Shl(v, i) == Xor(Shl(v % 2, i), Shl(v / 2, i + 1))
  {
    hide Xor;
    assert Pow2(32 - i) == 2 * Pow2(31 - i);
    assert Pow2(32) == 0x1_0000_0000 by { Pow2Words(); }
    ShlBound(v, i, 32 - i);
    ShlBound(v % 2, i, 32 - i);
    ShlBound(2 * (v / 2), i, 32 - i);
    XorLowBit(v);
    XorShl(v % 2, 2 * (v / 2), i);
  }

  lemma {:induction false} TimesFromIsZeros(mat: seq<Word32>, k: nat, i: nat, v: nat)
    requires Represents(mat, k) && i <= 32 && v < Pow2(32 - i)
    ensures Shl(v, i) < 0x1_0000_0000
    ensures TimesFrom(mat, i, v) == Zeros(k, Shl(v, i))
    decreases 32 - i
  {
    hide Xor, Zeros;
    ShlOne(i);
    ZerosOfZero(k);
    if i < 32 {
      SplitLowBit(v, i);
      TimesFromIsZeros(mat, k, i + 1, v / 2);
      ZerosLinear(k, Shl(v % 2, i), Shl(v / 2, i + 1));
    }
  }

  /** Multiplying by the matrix of an operator applies the operator. */
  lemma TimesIsZeros(mat: seq<Word32>, k: nat, v: Word32)
    requires Represents(mat, k)
    ensures Times(mat, v) == Zeros(k, v)
  {
    Pow2Words();
    TimesFromIsZeros(mat, k, 0, v);
  }

  method Gf2MatrixTimes(mat: array<Word32>, vec: Word32) returns (sum: Word32)
    requires mat.Length == 32
    ensures sum == Times(mat[..], vec)
  {
    hide Xor;
    sum := 0;
    XorZero(Times(mat[..], vec));
    var v: nat := vec;
    var i := 0;
    Pow2Words();
    while v != 0
      invariant i <= 32 && v < Pow2(32 - i)
      invariant Xor(sum, TimesFrom(mat[..], i, v)) == Times(mat[..], vec)
      decreases v
    {
      ghost var rest := TimesFrom(mat[..], i + 1, v / 2);
      XorZero(rest);
      if v % 2 == 1 {
        XorAssoc(sum, mat[i], rest);
        sum := Xor32(sum, mat[i]);
      }
      v := v / 2;
      i := i + 1;
    }
    TimesFromZero(mat[..], i);
    XorZero(sum);
  }

  method Gf2MatrixSquare(square: array<Word32>, mat: array<Word32>)
    requires square.Length == 32 && mat.Length == 32 && square != mat
    modifies square
    ensures IsSquare(square[..], mat[..])
  {
    hide Times;
    for n := 0 to 32
      invariant mat[..] == old(mat[..])
      invariant forall j :: 0 <= j < n ==> square[j] == Times(mat[..], mat[..][j])
    {
      square[n] := Gf2MatrixTimes(mat, mat[n]);
    }
  }

  ghost predicate IsSquare(square: seq<Word32>, mat: seq<Word32>) {
    |square| == 32 == |mat| && forall n :: 0 <= n < 32 ==> square[n] == Times(mat, mat[n])
  }

  /** Squaring the matrix of an operator gives the matrix of the operator done twice. */
  lemma SquareRepresentsDouble(square: seq<Word32>, mat: seq<Word32>, k: nat)
    requires IsSquare(square, mat) && Represents(mat, k)
    ensures Represents(square, 2 * k)
  {
    forall n | 0 <= n < 32
      ensures square[n] == Zeros(2 * k, Unit(n))
    {
      TimesIsZeros(mat, k, mat[n]);
      ZerosAdd(k, k, Unit(n));
    }
  }

  // ---------------------------------------------------------------------------
  // The zeros operator.
  // ---------------------------------------------------------------------------

  /** The exponent of the largest power of two not above `len`, and 0 for `len == 0`. */
  function Log2(len: nat): nat {
    if len <= 1 then 0 else 1 + Log2(len / 2)
  }

  lemma {:induction false} Log2OfPow2(k: nat)
    ensures Log2(Pow2(k)) == k
  {
    if k > 0 {
      Log2OfPow2(k - 1);
    }
  }

  lemma {:induction false} Log2Bounds(len: nat)
    requires len >= 1
    ensures Pow2(Log2(len)) <= len < 2 * Pow2(Log2(len))
  {
    if len > 1 {
      Log2Bounds(len / 2);
    }
  }

  /** The matrix of one zero bit: the polynomial, then the identity moved down a row. */
  method OneZeroBitOp(odd: array<Word32>)
    requires odd.Length == 32
    modifies odd
    ensures Represents(odd[..], 1)
  {
    hide Xor;
    XorZero(POLY);
    odd[0] := POLY;
    var row: nat := 1;
    for n := 1 to 32
      invariant row == Unit(n - 1)
      invariant odd[0] == POLY
      invariant forall j :: 1 <= j < n ==> odd[j] == Unit(j - 1)
    {
      odd[n] := row;
      row := row * 2;
    }
    forall n | 0 <= n < 32
      ensures odd[n] == Zeros(1, Unit(n))
    {
      assert Zeros(1, Unit(n)) == Zeros(0, Step(Unit(n)));
    }
  }

  method SquareOp(square: array<Word32>, mat: array<Word32>, ghost e: nat)
    requires square.Length == 32 && mat.Length == 32 && square != mat && Represents(mat[..], Pow2(e))
    modifies square
    ensures Represents(square[..], Pow2(e + 1))
  {
    Gf2MatrixSquare(square, mat);
    SquareRepresentsDouble(square[..], mat[..], Pow2(e));
  }

  /**
  For every length, `even` ends up with the operator for as many zero bytes as the largest
  power of two in `len`, whichever of the two buffers the last squaring wrote.
   */
  method ZerosOp(even: array<Word32>, len: nat)
    requires even.Length == 32
    modifies even
    ensures Represents(even[..], 8 * Pow2(Log2(len)))
    ensures len >= 1 ==> Pow2(Log2(len)) <= len < 2 * Pow2(Log2(len))
    ensures len == 0 ==> Pow2(Log2(len)) == 1
  {
    hide Represents;
    if len >= 1 {
      Log2Bounds(len);
    }
    LogStep(len);
    BytePower(Log2(len));
    hide Log2, Pow2;
    var odd := new Word32[32];
    OneZeroBitOp(odd);
    SquareOp(even, odd, 0);
    SquareOp(odd, even, 1);
    var rest := len;
    ghost var e: nat := 2;
    while true
      invariant Represents(odd[..], Pow2(e))
      invariant e + Log2(rest) == 2 + Log2(len)
      decreases rest
    {
      LogStep(rest);
      LogStep(rest / 2);
      SquareOp(even, odd, e);
      rest := rest / 2;
      if rest == 0 {
        return;
      }
      SquareOp(odd, even, e + 1);
      e := e + 2;
      rest := rest / 2;
      if rest == 0 {
        break;
      }
    }
    CopyWords(even, odd);
  }

  lemma BytePower(k: nat)
    ensures Pow2(k + 3) == 8 * Pow2(k) && Pow2(0) == 1
  {
    Pow2Small();
    Pow2Add(k, 3);
  }

  lemma LogStep(n: nat)
    ensures Log2(n) == if n / 2 == 0 then 0 else 1 + Log2(n / 2)
    ensures n == 0 ==> Pow2(Log2(n)) == 1
  {
  }

  method CopyWords(to: array<Word32>, from: array<Word32>)
    requires to.Length == from.Length == 32 && to != from
    modifies to
    ensures to[..] == from[..]
  {
    for n := 0 to 32
      invariant from[..] == old(from[..])
      invariant forall j :: 0 <= j < n ==> to[j] == from[j]
    {
      to[n] := from[n];
    }
  }

  // ---------------------------------------------------------------------------
  // Byte-indexed tables.
  // ---------------------------------------------------------------------------

  /** Table `j` of an operator holds its values on byte `j` of a register. */
  ghost predicate IsShiftTable(zeros: array2<Word32>, k: nat)
    reads zeros
  {
    && zeros.Length0 == 4 && zeros.Length1 == 256
    && forall j, n :: 0 <= j < 4 && 0 <= n < 256 ==> zeros[j, n] == Zeros(k, AtByte(n, j))
  }

  /** A byte value placed at byte `j` of a word. */
  function AtByte(n: Byte, j: nat): Word32
    requires j < 4
  {
    match j
    case 0 => n
    case 1 => n * 0x100
    case 2 => n * 0x1_0000
    case _ => n * 0x100_0000
  }

  /** One lookup for each byte of the register. */
  function Shift(zeros: array2<Word32>, crc: Word32): Word32
    requires zeros.Length0 == 4 && zeros.Length1 == 256
    reads zeros
  {
    Xor32(Xor32(Xor32(zeros[0, crc % 0x100], zeros[1, crc / 0x100 % 0x100]),
                zeros[2, crc / 0x1_0000 % 0x100]),
          zeros[3, crc / 0x100_0000])
  }

  /** Bytes in place are joined by xor as by addition. */
  lemma XorOfBytes(b0: Byte, b1: Byte, b2: Byte, b3: Byte)
    ensures Xor(Xor(Xor(AtByte(b0, 0), AtByte(b1, 1)), AtByte(b2, 2)), AtByte(b3, 3))
         == b0 + b1 * 0x100 + b2 * 0x1_0000 + b3 * 0x100_0000
  {
    hide Xor;
    var s1 := b0 + b1 * 0x100;
    var s2 := s1 + b2 * 0x1_0000;
    assert Xor(b0, b1 * 0x100) == s1 by { Pow2Words(); XorDisjoint(b1, b0, 8); XorComm(b0, b1 * 0x100); }
    assert Xor(s1, b2 * 0x1_0000) == s2 by { Pow2Words(); XorDisjoint(b2, s1, 16); XorComm(s1, b2 * 0x1_0000); }
    assert Xor(s2, b3 * 0x100_0000) == s2 + b3 * 0x100_0000
      by { Pow2Words(); XorDisjoint(b3, s2, 24); XorComm(s2, b3 * 0x100_0000); }
  }

  lemma ByteDigits(c: Word32)
    ensures c == c % 0x100 + c / 0x100 % 0x100 * 0x100 + c / 0x1_0000 % 0x100 * 0x1_0000 + c / 0x100_0000 * 0x100_0000
  {
    assert c / 0x1_0000 == c / 0x100 / 0x100;
    assert c / 0x100_0000 == c / 0x1_0000 / 0x100;
  }

  lemma ShiftOfBytes(zeros: array2<Word32>, k: nat, b0: Byte, b1: Byte, b2: Byte, b3: Byte)
    requires IsShiftTable(zeros, k)
    ensures Xor32(Xor32(Xor32(zeros[0, b0], zeros[1, b1]), zeros[2, b2]), zeros[3, b3])
         == Zeros(k, b0 + b1 * 0x100 + b2 * 0x1_0000 + b3 * 0x100_0000)
  {
    hide Xor, Zeros;
    XorOfBytes(b0, b1, b2, b3);
    ZerosOfFour(k, AtByte(b0, 0), AtByte(b1, 1), AtByte(b2, 2), AtByte(b3, 3));
  }

  /** The four tables applied byte by byte are the operator, on every 32-bit value. */
  lemma ShiftIsZeros(zeros: array2<Word32>, k: nat, crc: Word32)
    requires IsShiftTable(zeros, k)
    ensures Shift(zeros, crc) == Zeros(k, crc)
  {
    ByteDigits(crc);
    ShiftOfBytes(zeros, k, crc % 0x100, crc / 0x100 % 0x100, crc / 0x1_0000 % 0x100, crc / 0x100_0000);
  }

  /** One entry of table `j`: the matrix times the byte shifted into place. */
  method ShiftEntry(op: array<Word32>, n: Byte, j: nat, ghost k: nat) returns (z: Word32)
    requires op.Length == 32 && Represents(op[..], k) && j < 4
    ensures z == Zeros(k, AtByte(n, j))
  {
    z := Gf2MatrixTimes(op, AtByte(n, j));
    TimesIsZeros(op[..], k, AtByte(n, j));
  }

  /** Build the four lookup tables that apply the zeros operator for a length. */
  method ZerosTable(zeros: array2<Word32>, len: nat)
    requires zeros.Length0 == 4 && zeros.Length1 == 256
    modifies zeros
    ensures IsShiftTable(zeros, 8 * Pow2(Log2(len)))
  {
    var op := new Word32[32];
    ZerosOp(op, len);
    ghost var k: nat := 8 * Pow2(Log2(len));
    ghost var rows := op[..];
    for n := 0 to 256
      invariant op[..] == rows
      invariant forall j, m :: 0 <= j < 4 && 0 <= m < n ==> zeros[j, m] == Zeros(k, AtByte(m, j))
    {
      zeros[0, n] := ShiftEntry(op, n, 0, k);
      zeros[1, n] := ShiftEntry(op, n, 1, k);
      zeros[2, n] := ShiftEntry(op, n, 2, k);
      zeros[3, n] := ShiftEntry(op, n, 3, k);
    }
  }

  const LONG: nat := 8192
  const SHORT: nat := 256

  /** Initialize tables for shifting crcs: exactly LONG and SHORT zero bytes. */
  method InitHw() returns (long: array2<Word32>, short: array2<Word32>)
    ensures fresh(long) && fresh(short)
    ensures IsShiftTable(long, 8 * LONG) && IsShiftTable(short, 8 * SHORT)
  {
    long := new Word32[4, 256];
    short := new Word32[4, 256];
    Pow2Words();
    Log2OfPow2(8);
    Log2OfPow2(13);
    Pow2Add(8, 5);
    ZerosTable(long, LONG);
    ZerosTable(short, SHORT);
  }
}
