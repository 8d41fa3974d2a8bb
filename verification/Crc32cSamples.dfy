/**
Check values of the checksum: two that section B.4 of RFC 3720 lists for CRC-32C and one that
stdlib/CRC32c/test/runtests.jl demands.

The register is computed here on bit vectors; `Number` reads a bit vector bit by bit.
 */
module Crc32cSamples {
  import opened Basics
  import opened Bits
  import opened Crc32c

  predicate Odd(x: bv32) {
    x & 1 == 1
  }

  function Half(x: bv32): bv32 {
    x >> 1
  }

  function Plus(x: bv32, y: bv32): bv32 {
    x ^ y
  }

  function Digit(x: bv32): (d: nat)
    ensures d < 2
  {
    if Odd(x) then 1 else 0
  }

  /** The number that a bit vector stands for. */
  function Number(x: bv32): nat {
    if x == 0 then 0 else Digit(x) + 2 * Number(Half(x))
  }

  lemma NumberDigits(x: bv32)
    ensures Number(x) == Digit(x) + 2 * Number(Half(x))
  {
  }

  lemma {:induction false} NumberPlus(x: bv32, y: bv32)
    ensures Number(Plus(x, y)) == Xor(Number(x), Number(y))
    decreases x
  {
    hide Half, Plus, Digit, Number, Xor;
    if x == 0 {
      PlusZero(y);
      XorZero(Number(y));
    } else {
      PlusBits(x, y);
      NumberPlus(Half(x), Half(y));
      NumberDigits(x);
      NumberDigits(y);
      NumberDigits(Plus(x, y));
      DigitsXor(Digit(x), Digit(y), Number(Half(x)), Number(Half(y)));
    }
  }

  lemma DigitsXor(i: nat, j: nat, x: nat, y: nat)
    requires i < 2 && j < 2
    ensures Xor(i + 2 * x, j + 2 * y) == (if i != j then 1 else 0) + 2 * Xor(x, y)
  {
    hide Xor;
    XorDigits(i + 2 * x, j + 2 * y);
  }

  lemma PlusZero(y: bv32)
    ensures Plus(0, y) == y && Number(0) == 0
  {
  }

  lemma PlusBits(x: bv32, y: bv32)
    ensures Half(Plus(x, y)) == Plus(Half(x), Half(y))
    ensures Digit(Plus(x, y)) == (if Digit(x) != Digit(y) then 1 else 0)
    ensures x != 0 ==> Half(x) < x
  {
    PlusOdd(x, y);
    PlusHalf(x, y);
    HalfLess(x);
    hide Odd, Plus, Half;
  }

  lemma PlusOdd(x: bv32, y: bv32)
    ensures Odd(Plus(x, y)) == (Odd(x) != Odd(y))
  {
  }

  lemma PlusHalf(x: bv32, y: bv32)
    ensures Half(Plus(x, y)) == Plus(Half(x), Half(y))
  {
  }

  lemma HalfLess(x: bv32)
    ensures x != 0 ==> Half(x) < x
  {
  }

  function Tail(x: bv32): bv32 {
    x >> 4
  }

  lemma TailIsHalves(x: bv32)
    ensures Tail(x) == Half(Half(Half(Half(x))))
  {
  }

  /** The lowest hexadecimal digit. */
  function HexDigit(x: bv32): (d: nat)
    ensures d < 16
  {
    Digit(x) + 2 * Digit(Half(x)) + 4 * Digit(Half(Half(x))) + 8 * Digit(Half(Half(Half(x))))
  }

  lemma NumberHex(x: bv32)
    ensures Number(x) == HexDigit(x) + 16 * Number(Tail(x))
  {
    hide Tail, Half, Digit, Number;
    TailIsHalves(x);
    NumberDigits(x);
    NumberDigits(Half(x));
    NumberDigits(Half(Half(x)));
    NumberDigits(Half(Half(Half(x))));
  }

  lemma TailsEnd(x: bv32)
    ensures Tail(Tail(Tail(Tail(Tail(Tail(Tail(Tail(x)))))))) == 0
  {
  }

  /** All eight hexadecimal digits. */
  lemma NumberWord(x: bv32)
    ensures var x1 := Tail(x); var x2 := Tail(x1); var x3 := Tail(x2); var x4 := Tail(x3);
            var x5 := Tail(x4); var x6 := Tail(x5); var x7 := Tail(x6);
      Number(x) ==
      HexDigit(x) + 0x10 * HexDigit(x1) + 0x100 * HexDigit(x2) + 0x1000 * HexDigit(x3)
      + 0x1_0000 * HexDigit(x4) + 0x10_0000 * HexDigit(x5) + 0x100_0000 * HexDigit(x6)
      + 0x1000_0000 * HexDigit(x7)
  {
    hide Tail, HexDigit, Number;
    var x1 := Tail(x);
    var x2 := Tail(x1);
    var x3 := Tail(x2);
    var x4 := Tail(x3);
    var x5 := Tail(x4);
    var x6 := Tail(x5);
    var x7 := Tail(x6);
    NumberHex(x);
    NumberHex(x1);
    NumberHex(x2);
    NumberHex(x3);
    NumberHex(x4);
    NumberHex(x5);
    NumberHex(x6);
    NumberHex(x7);
    TailsEnd(x);
    PlusZero(0);
  }

  function Word(x: bv32): Word32 {
    hide HexDigit, Number;
    NumberWord(x);
    Number(x)
  }

  lemma TapsWord()
    ensures Word(0x82f6_3b78) == POLY && Word(0xffff_ffff) == ONES
  {
    hide Number;
    NumberWord(0x82f6_3b78);
    NumberWord(0xffff_ffff);
  }

  lemma PublishedWords()
    ensures Word(0x8a91_36aa) == 0x8a91_36aa && Word(0x62a8_ab43) == 0x62a8_ab43
  {
    hide Number;
    NumberWord(0x8a91_36aa);
    NumberWord(0x62a8_ab43);
  }

  lemma TestWord()
    ensures Word(0x4689_1f81) == 0x4689_1f81
  {
    hide Number;
    NumberWord(0x4689_1f81);
  }

  // ---------------------------------------------------------------------------
  // The register on bit vectors.
  // ---------------------------------------------------------------------------

  function ShiftOut(c: bv32): bv32 {
    if Odd(c) then Plus(Half(c), 0x82f6_3b78) else Half(c)
  }

  lemma ShiftOutIsStep(c: bv32)
    ensures Word(ShiftOut(c)) == Step(Word(c))
  {
    hide Odd, Half, Plus, Number, Xor;
    NumberDigits(c);
    NumberPlus(Half(c), 0x82f6_3b78);
    TapsWord();
  }

  function EightBits(c: bv32): bv32 {
    ShiftOut(ShiftOut(ShiftOut(ShiftOut(ShiftOut(ShiftOut(ShiftOut(ShiftOut(c))))))))
  }

  lemma EightBitsIsZeros(c: bv32)
    ensures Word(EightBits(c)) == Zeros(8, Word(c))
  {
    hide ShiftOut, Step, Word, Zeros;
    var c1 := ShiftOut(c);
    var c2 := ShiftOut(c1);
    var c3 := ShiftOut(c2);
    var c4 := ShiftOut(c3);
    var c5 := ShiftOut(c4);
    var c6 := ShiftOut(c5);
    var c7 := ShiftOut(c6);
    ShiftOutIsStep(c);
    ShiftOutIsStep(c1);
    ShiftOutIsStep(c2);
    ShiftOutIsStep(c3);
    ShiftOutIsStep(c4);
    ShiftOutIsStep(c5);
    ShiftOutIsStep(c6);
    ShiftOutIsStep(c7);
    ZerosUnfold(8, Word(c));
    ZerosUnfold(7, Word(c1));
    ZerosUnfold(6, Word(c2));
    ZerosUnfold(5, Word(c3));
    ZerosUnfold(4, Word(c4));
    ZerosUnfold(3, Word(c5));
    ZerosUnfold(2, Word(c6));
    ZerosUnfold(1, Word(c7));
  }

  lemma ZerosUnfold(n: nat, c: Word32)
    requires n > 0
    ensures Zeros(n, c) == Zeros(n - 1, Step(c)) && Zeros(0, Step(c)) == Step(c)
  {
    hide Step;
  }

  function AfterByte(c: bv32, b: bv32): bv32 {
    EightBits(Plus(c, b))
  }

  /** The register after `n` bytes. */
  function AfterBytes(c: bv32, bytes: seq<bv32>, n: nat): bv32
    requires n <= |bytes|
  {
    if n == 0 then c else AfterByte(AfterBytes(c, bytes, n - 1), bytes[n - 1])
  }

  ghost predicate SameBytes(s: seq<Byte>, bytes: seq<bv32>) {
    |s| == |bytes| && forall i :: 0 <= i < |bytes| ==> s[i] == Number(bytes[i])
  }

  lemma {:induction false} AfterBytesIsUpdate(c: bv32, s: seq<Byte>, bytes: seq<bv32>, n: nat)
    requires SameBytes(s, bytes) && n <= |s|
    ensures Word(AfterBytes(c, bytes, n)) == Update(Word(c), s[..n])
  {
    hide AfterByte, Word, Number;
    if n > 0 {
      AfterBytesIsUpdate(c, s, bytes, n - 1);
      AfterByteIsUpdate(AfterBytes(c, bytes, n - 1), bytes[n - 1], s[n - 1]);
      assert s[..n][..n - 1] == s[..n - 1];
    }
  }

  lemma AfterByteIsUpdate(c: bv32, v: bv32, b: Byte)
    requires b == Number(v)
    ensures Word(AfterByte(c, v)) == UpdateByte(Word(c), b)
  {
    hide EightBits, Plus, Number, Xor, Zeros;
    EightBitsIsZeros(Plus(c, v));
    NumberPlus(c, v);
  }

  lemma ByteNumbers()
    ensures Number(0) == 0 && Number(0xff) == 0xff
    ensures Number(1) == 1 && Number(2) == 2 && Number(3) == 3 && Number(4) == 4
    ensures Number(5) == 5 && Number(6) == 6 && Number(7) == 7 && Number(8) == 8
  {
    assert Number(0) == 0;
    hide Number;
    NumberHex(0xff);
    NumberHex(0xf);
    NumberHex(1);
    NumberHex(2);
    NumberHex(3);
    NumberHex(4);
    NumberHex(5);
    NumberHex(6);
    NumberHex(7);
    NumberHex(8);
  }

  function EightBytes(c: bv32, b: seq<bv32>): bv32
    requires |b| == 8
  {
    var c4 := AfterByte(AfterByte(AfterByte(AfterByte(c, b[0]), b[1]), b[2]), b[3]);
    AfterByte(AfterByte(AfterByte(AfterByte(c4, b[4]), b[5]), b[6]), b[7])
  }

  lemma EightBytesIsUpdate(c: bv32, s: seq<Byte>, b: seq<bv32>)
    requires |s| == 8 && SameBytes(s, b)
    ensures Update(Word(c), s) == Word(EightBytes(c, b))
  {
    hide AfterByte, Number, Word, Update;
    AfterBytesIsUpdate(c, s, b, 8);
    assert s[..8] == s;
    hide SameBytes;
    assert AfterBytes(c, b, 4) == AfterByte(AfterByte(AfterByte(AfterByte(c, b[0]), b[1]), b[2]), b[3]) by {
      assert AfterBytes(c, b, 1) == AfterByte(c, b[0]);
      assert AfterBytes(c, b, 3) == AfterByte(AfterByte(AfterByte(c, b[0]), b[1]), b[2]);
    }
    assert AfterBytes(c, b, 6) == AfterByte(AfterByte(AfterBytes(c, b, 4), b[4]), b[5]);
  }

  lemma EightTimesFour(c: bv32, s: seq<Byte>, b: seq<bv32>)
    requires |s| == 8 && SameBytes(s, b)
    ensures Update(Word(c), s + s + s + s) == Word(EightBytes(EightBytes(EightBytes(EightBytes(c, b), b), b), b))
  {
    assert |b| == 8;
    hide EightBytes, SameBytes, Word, Update;
    var c1 := EightBytes(c, b);
    var c2 := EightBytes(c1, b);
    var c3 := EightBytes(c2, b);
    UpdateAppend(Word(c), s, s);
    UpdateAppend(Word(c), s + s, s);
    UpdateAppend(Word(c), s + s + s, s);
    EightBytesIsUpdate(c, s, b);
    EightBytesIsUpdate(c1, s, b);
    EightBytesIsUpdate(c2, s, b);
    EightBytesIsUpdate(c3, s, b);
  }

  /** The checksum with seed zero from the last register. */
  lemma FinishChecksum(s: seq<Byte>, c: bv32)
    requires Update(Word(0xffff_ffff), s) == Word(c)
    ensures Checksum(0, s) == Word(Plus(c, 0xffff_ffff))
  {
    hide Xor, Plus, Number;
    TapsWord();
    XorZero(ONES);
    ChecksumIsUpdate(0, s);
    NumberPlus(c, 0xffff_ffff);
  }

  /** The first example of section B.4: 32 bytes of zeros. */
  lemma ZeroBytes()
    ensures Checksum(0, seq(32, i => 0)) == 0x8a91_36aa
  {
    hide Xor, Word, Number, Plus, Update, AfterByte;
    var s: seq<Byte> := [0, 0, 0, 0, 0, 0, 0, 0];
    var b: seq<bv32> := [0, 0, 0, 0, 0, 0, 0, 0];
    ByteNumbers();
    EightTimesFour(0xffff_ffff, s, b);
    assert s + s + s + s == seq(32, i => 0);
    ZeroBytes8();
    ZeroBytes16();
    ZeroBytes24();
    ZeroBytes32();
    ZeroBytesInverted();
    FinishChecksum(s + s + s + s, 0x756e_c955);
    PublishedWords();
  }

  lemma ZeroBytes8()
    ensures AfterByte(0xffff_ffff, 0) == 0xad82_acae
    ensures AfterByte(0xad82_acae, 0) == 0x0e9e_882d
    ensures AfterByte(0x0e9e_882d, 0) == 0x9f9b_5c85
    ensures AfterByte(0x9f9b_5c85, 0) == 0xb798_b438
    ensures AfterByte(0xb798_b438, 0) == 0xba8d_89ca
    ensures AfterByte(0xba8d_89ca, 0) == 0xa8d5_8375
    ensures AfterByte(0xa8d5_8375, 0) == 0x44c1_9592
    ensures AfterByte(0x44c1_9592, 0) == 0x73d7_4d75
  {
  }

  lemma ZeroBytes16()
    ensures AfterByte(0x73d7_4d75, 0) == 0x441a_975c
    ensures AfterByte(0x441a_975c, 0) == 0x1c22_0f94
    ensures AfterByte(0x1c22_0f94, 0) == 0x552e_4907
    ensures AfterByte(0x552e_4907, 0) == 0xd49f_4aa2
    ensures AfterByte(0xd49f_4aa2, 0) == 0x43a4_5a1b
    ensures AfterByte(0x43a4_5a1b, 0) == 0x8994_c80e
    ensures AfterByte(0x8994_c80e, 0) == 0xacf1_2bef
    ensures AfterByte(0xacf1_2bef, 0) == 0xbd8f_6515
  {
  }

  lemma ZeroBytes24()
    ensures AfterByte(0xbd8f_6515, 0) == 0x2512_5c16
    ensures AfterByte(0x2512_5c16, 0) == 0x36da_32db
    ensures AfterByte(0x36da_32db, 0) == 0x4a6c_90a2
    ensures AfterByte(0x4a6c_90a2, 0) == 0x433a_a9c1
    ensures AfterByte(0x433a_a9c1, 0) == 0x31a5_9f6e
    ensures AfterByte(0x31a5_9f6e, 0) == 0xcd8f_89da
    ensures AfterByte(0xcd8f_89da, 0) == 0xb8fc_461a
    ensures AfterByte(0xb8fc_461a, 0) == 0x7b04_1311
  {
  }

  lemma ZeroBytes32()
    ensures AfterByte(0x7b04_1311, 0) == 0xe24e_407f
    ensures AfterByte(0xe24e_407f, 0) == 0x2f69_2669
    ensures AfterByte(0x2f69_2669, 0) == 0x195b_2188
    ensures AfterByte(0x195b_2188, 0) == 0x0836_3896
    ensures AfterByte(0x0836_3896, 0) == 0xb401_2dc7
    ensures AfterByte(0xb401_2dc7, 0) == 0x17f3_4302
    ensures AfterByte(0x17f3_4302, 0) == 0xe12c_83b4
    ensures AfterByte(0xe12c_83b4, 0) == 0x756e_c955
  {
  }

  lemma ZeroBytesInverted()
    ensures Plus(0x756e_c955, 0xffff_ffff) == 0x8a91_36aa
  {
  }

  /** The second example of section B.4: 32 bytes of ones. */
  lemma OneBytes()
    ensures Checksum(0, seq(32, i => 0xff)) == 0x62a8_ab43
  {
    hide Xor, Word, Number, Plus, Update, AfterByte;
    var s: seq<Byte> := [0xff, 0xff, 0xff, 0xff, 0xff, 0xff, 0xff, 0xff];
    var b: seq<bv32> := [0xff, 0xff, 0xff, 0xff, 0xff, 0xff, 0xff, 0xff];
    ByteNumbers();
    EightTimesFour(0xffff_ffff, s, b);
    assert s + s + s + s == seq(32, i => 0xff);
    OneBytes8();
    OneBytes16();
    OneBytes24();
    OneBytes32();
    OneBytesInverted();
    FinishChecksum(s + s + s + s, 0x9d57_54bc);
    PublishedWords();
  }

  lemma OneBytes8()
    ensures AfterByte(0xffff_ffff, 0xff) == 0x00ff_ffff
    ensures AfterByte(0x00ff_ffff, 0xff) == 0x0000_ffff
    ensures AfterByte(0x0000_ffff, 0xff) == 0x0000_00ff
    ensures AfterByte(0x0000_00ff, 0xff) == 0x0000_0000
    ensures AfterByte(0x0000_0000, 0xff) == 0xad7d_5351
    ensures AfterByte(0xad7d_5351, 0xff) == 0x0e9e_77d2
    ensures AfterByte(0x0e9e_77d2, 0xff) == 0x9f9b_5c7a
    ensures AfterByte(0x9f9b_5c7a, 0xff) == 0xb798_b438
  {
  }

  lemma OneBytes16()
    ensures AfterByte(0xb798_b438, 0xff) == 0x17f0_da9b
    ensures AfterByte(0x17f0_da9b, 0xff) == 0xa64b_f4a7
    ensures AfterByte(0xa64b_f4a7, 0xff) == 0xdb5a_c9e8
    ensures AfterByte(0xdb5a_c9e8, 0xff) == 0xc44f_f94d
    ensures AfterByte(0xc44f_f94d, 0xff) == 0x53ea_4dc7
    ensures AfterByte(0x53ea_4dc7, 0xff) == 0xba69_fb33
    ensures AfterByte(0xba69_fb33, 0xff) == 0x8e74_80ef
    ensures AfterByte(0x8e74_80ef, 0xff) == 0x10d0_b3ef
  {
  }

  lemma OneBytes24()
    ensures AfterByte(0x10d0_b3ef, 0xff) == 0x104e_17dc
    ensures AfterByte(0x104e_17dc, 0xff) == 0x33fd_333d
    ensures AfterByte(0x33fd_333d, 0xff) == 0x2285_ab00
    ensures AfterByte(0x2285_ab00, 0xff) == 0xad5f_d6fa
    ensures AfterByte(0xad5f_d6fa, 0xff) == 0x355c_4bca
    ensures AfterByte(0x355c_4bca, 0xff) == 0x0527_01e6
    ensures AfterByte(0x0527_01e6, 0xff) == 0x68e9_3ba2
    ensures AfterByte(0x68e9_3ba2, 0xff) == 0xee65_7f3b
  {
  }

  lemma OneBytes32()
    ensures AfterByte(0xee65_7f3b, 0xff) == 0x04f9_d4a4
    ensures AfterByte(0x04f9_d4a4, 0xff) == 0xc8a8_883c
    ensures AfterByte(0xc8a8_883c, 0xff) == 0xd015_7db8
    ensures AfterByte(0xd015_7db8, 0xff) == 0x9561_6c2a
    ensures AfterByte(0x9561_6c2a, 0xff) == 0xe6b7_94db
    ensures AfterByte(0xe6b7_94db, 0xff) == 0xe7c1_ae55
    ensures AfterByte(0xe7c1_ae55, 0xff) == 0xc94e_5c30
    ensures AfterByte(0xc94e_5c30, 0xff) == 0x9d57_54bc
  {
  }

  lemma OneBytesInverted()
    ensures Plus(0x9d57_54bc, 0xffff_ffff) == 0x62a8_ab43
  {
  }

  /** The test vector of the first eight positive bytes. */
  lemma FirstBytes()
    ensures Checksum(0, [1, 2, 3, 4, 5, 6, 7, 8]) == 0x4689_1f81
  {
    hide Xor, Word, Number, Plus, Update, AfterByte;
    ByteNumbers();
    EightBytesIsUpdate(0xffff_ffff, [1, 2, 3, 4, 5, 6, 7, 8], [1, 2, 3, 4, 5, 6, 7, 8]);
    FirstBytes8();
    FirstBytesInverted();
    FinishChecksum([1, 2, 3, 4, 5, 6, 7, 8], 0xb976_e07e);
    TestWord();
  }

  lemma FirstBytesInverted()
    ensures Plus(0xb976_e07e, 0xffff_ffff) == 0x4689_1f81
  {
  }

  lemma FirstBytes8()
    ensures AfterByte(0xffff_ffff, 1) == 0x5fe9_2fad
    ensures AfterByte(0x5fe9_2fad, 2) == 0xfc07_60ad
    ensures AfterByte(0xfc07_60ad, 3) == 0x0ecf_0de1
    ensures AfterByte(0x0ecf_0de1, 4) == 0xd6cf_730b
    ensures AfterByte(0xd6cf_730b, 5) == 0xacae_7054
    ensures AfterByte(0xacae_7054, 6) == 0xb0b2_0454
    ensures AfterByte(0xb0b2_0454, 7) == 0x42c5_9b23
    ensures AfterByte(0x42c5_9b23, 8) == 0xb976_e07e
  {
  }
}
