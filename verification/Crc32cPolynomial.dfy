/**
What the checksum of src/crc32c.c means: a remainder of polynomials over GF(2).

A polynomial is a natural number whose bit `i` is the coefficient of `x^i`, so that `Xor` adds
and doubling multiplies by `x`.  The register and the bytes of a message are read with their
lowest bit as the highest coefficient, the reversed bit order of section 12.1 of RFC 3720.
 */
module Crc32cPolynomial {
  import opened Basics
  import opened Bits
  import opened Crc32c

  /** The polynomial with the given exponents. */
  function Terms(exponents: seq<nat>): nat {
    if |exponents| == 0 then 0 else Xor(Pow2(exponents[0]), Terms(exponents[1..]))
  }

  /** The iSCSI generator. */
  function Generator(): nat {
    Terms([32, 28, 27, 26, 25, 23, 22, 20, 19, 18, 14, 13, 11, 10, 9, 8, 6, 0])
  }

  /** The product of two polynomials. */
  function Product(a: nat, b: nat): nat {
    if a == 0 then 0 else Xor(if a % 2 == 1 then b else 0, 2 * Product(a / 2, b))
  }

  /** The polynomial of `k` bits whose lowest bit is the coefficient of `x^(k-1)`. */
  function Reversed(x: nat, k: nat): nat {
    if k == 0 then 0 else x % 2 * Pow2(k - 1) + Reversed(x / 2, k - 1)
  }

  /** The polynomial of the register. */
  function Register(c: Word32): nat {
    Reversed(c, 32)
  }

  /** The polynomial of a message: the first byte has the highest powers. */
  function Message(s: seq<Byte>): nat {
    if |s| == 0 then 0 else Xor(Shl(Message(s[..|s| - 1]), 8), Reversed(s[|s| - 1], 8))
  }

  ghost predicate Congruent(p: nat, r: nat) {
    exists q: nat :: Xor(p, r) == Product(q, Generator())
  }

  ghost predicate IsRemainder(p: nat, r: nat) {
    r < 0x1_0000_0000 && Congruent(p, r)
  }

  /** What a checksum with the seed `crc` divides: the inverted seed in front of the message, times `x^32`. */
  function Dividend(crc: Word32, s: seq<Byte>): nat {
    Xor(Shl(Register(Xor32(crc, 0xffff_ffff)), 8 * |s|), Shl(Message(s), 32))
  }

  /**
  The checksum is CRC-32C: read as a polynomial and inverted, it is the one remainder that the
  dividend leaves modulo the generator.
   */
  lemma ChecksumIsRemainder(crc: Word32, s: seq<Byte>, r: Word32)
    ensures Checksum(crc, s) == r <==> IsRemainder(Dividend(crc, s), Register(Xor32(r, 0xffff_ffff)))
  {
    hide Xor, Shl, Reversed, Message, Update, Checksum, IsRemainder, Generator;
    var c, d := Xor32(crc, ONES), Checksum(crc, s);
    ChecksumIsUpdate(crc, s);
    XorCancel(Update(c, s), ONES);
    assert Xor(d, 0xffff_ffff) == Update(c, s);
    UpdateIsRemainder(c, s);
    if IsRemainder(Dividend(crc, s), Register(Xor32(r, 0xffff_ffff))) {
      RemainderUnique(Dividend(crc, s), Register(Update(c, s)), Register(Xor32(r, ONES)));
      Pow2Words();
      ReversedInjective(Update(c, s), Xor32(r, ONES), 32);
      XorCancel(r, ONES);
    }
  }

  lemma UpdateIsRemainder(c: Word32, s: seq<Byte>)
    ensures IsRemainder(Xor(Shl(Register(c), 8 * |s|), Shl(Message(s), 32)), Register(Update(c, s)))
  {
    hide Xor, Shl, Reversed, Message, Update, Congruent;
    Pow2Words();
    ReversedBound(Update(c, s), 32);
    UpdateCongruent(c, s);
  }

  // ---------------------------------------------------------------------------
  // Products.
  // ---------------------------------------------------------------------------

  lemma ProductDigit(q: nat, k: nat, b: nat)
    requires k < 2
    ensures Product(2 * q + k, b) == Xor(if k == 1 then b else 0, 2 * Product(q, b))
  {
    hide Xor;
    assert (2 * q + k) / 2 == q && (2 * q + k) % 2 == k;
    XorZero(0);
  }

  lemma {:induction false} ProductLinear(p: nat, q: nat, b: nat)
    ensures Product(Xor(p, q), b) == Xor(Product(p, b), Product(q, b))
  {
    if p == 0 || q == 0 {
      XorZero(p + q);
      XorZero(Product(p + q, b));
    } else {
      var s := Xor(p, q);
      XorDigits(p, q);
      ProductLinear(p / 2, q / 2, b);
      ProductDigit(p / 2, p % 2, b);
      ProductDigit(q / 2, q % 2, b);
      ProductDigit(s / 2, s % 2, b);
      hide Xor, Product;
      XorDouble(Product(p / 2, b), Product(q / 2, b));
      DigitsAdd(p % 2, q % 2, b, 2 * Product(p / 2, b), 2 * Product(q / 2, b));
    }
  }

  lemma DigitsAdd(i: nat, j: nat, b: nat, x: nat, y: nat)
    requires i < 2 && j < 2
    ensures Xor(Xor(if i == 1 then b else 0, x), Xor(if j == 1 then b else 0, y))
         == Xor(if i != j then b else 0, Xor(x, y))
  {
    hide Xor;
    XorExchange(if i == 1 then b else 0, x, if j == 1 then b else 0, y);
    XorSelf(b);
    XorZero(b);
    XorZero(0);
  }

  /** A multiple of the generator that is not zero has degree 32 or more. */
  lemma {:induction false} ProductHigh(q: nat, b: nat)
    requires q > 0 && Pow2(32) <= b < Pow2(33)
    ensures Product(q, b) >= Pow2(32)
  {
    ProductDigit(q / 2, q % 2, b);
    if q == 1 {
      assert Product(0, b) == 0;
      XorZero(b);
    } else {
      ProductHigh(q / 2, b);
      hide Xor, Product;
      var h, p := (if q % 2 == 1 then b else 0), 2 * Product(q / 2, b);
      assert Pow2(33) == 2 * Pow2(32);
      if Xor(h, p) < Pow2(33) {
        XorBound(Xor(h, p), h, 33);
        XorComm(h, p);
        XorCancel(p, h);
      }
    }
  }

  // ---------------------------------------------------------------------------
  // Congruence.
  // ---------------------------------------------------------------------------

  lemma CongruentSelf(p: nat)
    ensures Congruent(p, p)
  {
    XorSelf(p);
    assert Product(0, Generator()) == 0;
  }

  /** Multiplying by `x` and reducing if the degree has become 32. */
  lemma CongruentDouble(p: nat, r: nat, k: nat)
    requires Congruent(p, r) && k < 2
    ensures Congruent(2 * p, Xor(2 * r, if k == 1 then Generator() else 0))
  {
    var q: nat :| Xor(p, r) == Product(q, Generator());
    hide Xor, Product, Generator;
    var g := if k == 1 then Generator() else 0;
    ProductDigit(q, k, Generator());
    XorDouble(p, r);
    XorAssoc(2 * p, 2 * r, g);
    XorComm(Xor(2 * p, 2 * r), g);
    assert Xor(2 * p, Xor(2 * r, g)) == Product(2 * q + k, Generator());
  }

  lemma CongruentAdd(p: nat, r: nat, x: nat)
    requires Congruent(p, r)
    ensures Congruent(Xor(p, x), Xor(r, x))
  {
    var q: nat :| Xor(p, r) == Product(q, Generator());
    hide Xor, Product, Generator;
    XorExchange(p, x, r, x);
    XorSelf(x);
    XorZero(Xor(p, r));
    assert Xor(Xor(p, x), Xor(r, x)) == Product(q, Generator());
  }

  lemma RemainderUnique(p: nat, r: nat, s: nat)
    requires IsRemainder(p, r) && IsRemainder(p, s)
    ensures r == s
  {
    var i: nat :| Xor(p, r) == Product(i, Generator());
    var j: nat :| Xor(p, s) == Product(j, Generator());
    hide Xor, Product, Generator;
    ProductLinear(i, j, Generator());
    XorExchange(p, r, p, s);
    XorSelf(p);
    XorZero(Xor(r, s));
    assert Product(Xor(i, j), Generator()) == Xor(r, s);
    Pow2Words();
    XorBound(r, s, 32);
    GeneratorValue();
    assert Pow2(33) == 2 * Pow2(32);
    if Xor(i, j) > 0 {
      ProductHigh(Xor(i, j), Generator());
    }
    assert Product(0, Generator()) == 0 by { ProductZero(Generator()); }
    assert Xor(r, s) == 0;
    XorComm(r, s);
    XorCancel(r, s);
    XorZero(s);
  }

  lemma ProductZero(b: nat)
    ensures Product(0, b) == 0
  {
  }

  // ---------------------------------------------------------------------------
  // Reversed bit order.
  // ---------------------------------------------------------------------------

  lemma {:induction false} ReversedBound(x: nat, k: nat)
    ensures Reversed(x, k) < Pow2(k)
  {
    if k > 0 {
      ReversedBound(x / 2, k - 1);
    }
  }

  lemma {:induction false} ReversedLinear(a: nat, b: nat, k: nat)
    ensures Reversed(Xor(a, b), k) == Xor(Reversed(a, k), Reversed(b, k))
  {
    if k > 0 {
      var p := Pow2(k - 1);
      XorDigits(a, b);
      ReversedLinear(a / 2, b / 2, k - 1);
      ReversedBits(a, k);
      ReversedBits(b, k);
      ReversedBits(Xor(a, b), k);
      hide Xor, Reversed;
      DigitsAdd(a % 2, b % 2, p, Reversed(a / 2, k - 1), Reversed(b / 2, k - 1));
    }
  }

  lemma ReversedBits(x: nat, k: nat)
    requires k > 0
    ensures Reversed(x, k) == Xor(if x % 2 == 1 then Pow2(k - 1) else 0, Reversed(x / 2, k - 1))
  {
    hide Xor;
    ReversedBound(x / 2, k - 1);
    XorDisjoint(x % 2, Reversed(x / 2, k - 1), k - 1);
  }

  /** A clear top bit is a missing constant term. */
  lemma {:induction false} ReversedShort(x: nat, k: nat)
    requires k > 0 && x < Pow2(k - 1)
    ensures Reversed(x, k) == 2 * Reversed(x, k - 1)
  {
    if k > 1 {
      ReversedShort(x / 2, k - 1);
      assert x % 2 * Pow2(k - 1) == 2 * (x % 2 * Pow2(k - 2));
    }
  }

  lemma {:induction false} ReversedInjective(a: nat, b: nat, k: nat)
    requires a < Pow2(k) && b < Pow2(k) && Reversed(a, k) == Reversed(b, k)
    ensures a == b
  {
    if k > 0 {
      ReversedBound(a / 2, k - 1);
      ReversedBound(b / 2, k - 1);
      assert a % 2 == b % 2;
      ReversedInjective(a / 2, b / 2, k - 1);
    }
  }

  /** A byte in the low end of the register stands 24 powers higher. */
  lemma {:induction false} ReversedByte(b: nat, k: nat)
    requires k >= 8 && b < 0x100
    ensures Reversed(b, k) == Shl(Reversed(b, 8), k - 8)
  {
    hide Reversed, Pow2;
    if k > 8 {
      Pow2Monotone(8, k - 1);
      Pow2Small();
      ReversedShort(b, k);
      ReversedByte(b, k - 1);
      ShlAdd(Reversed(b, 8), k - 9, 1);
    }
  }

  // ---------------------------------------------------------------------------
  // The register.
  // ---------------------------------------------------------------------------

  lemma PowersTo32()
    ensures Pow2(6) == 0x40 && Pow2(8) == 0x100 && Pow2(9) == 0x200 && Pow2(10) == 0x400 && Pow2(11) == 0x800
    ensures Pow2(13) == 0x2000 && Pow2(14) == 0x4000 && Pow2(18) == 0x4_0000 && Pow2(19) == 0x8_0000
    ensures Pow2(20) == 0x10_0000 && Pow2(22) == 0x40_0000 && Pow2(23) == 0x80_0000 && Pow2(25) == 0x200_0000
    ensures Pow2(26) == 0x400_0000 && Pow2(27) == 0x800_0000 && Pow2(28) == 0x1000_0000 && Pow2(32) == 0x1_0000_0000
  {
    Pow2Words();
    Pow2Small();
    Pow2Add(8, 1);
    Pow2Add(8, 2);
    Pow2Add(8, 3);
    Pow2Add(8, 5);
    Pow2Add(8, 6);
    Pow2Add(16, 2);
    Pow2Add(16, 3);
    Pow2Add(16, 4);
    Pow2Add(16, 6);
    Pow2Add(16, 7);
    Pow2Add(24, 1);
    Pow2Add(24, 2);
    Pow2Add(24, 3);
    Pow2Add(24, 4);
  }

  /** A term above all others is added to their number. */
  lemma TopTerm(e: nat, rest: seq<nat>, v: nat)
    requires Terms(rest) == v < Pow2(e)
    ensures Terms([e] + rest) == Pow2(e) + v
  {
    assert ([e] + rest)[1..] == rest;
    XorDisjoint(1, v, e);
  }

  lemma ConstantTerm()
    ensures Terms([0]) == 1
  {
    assert [0][1..] == [];
    XorZero(Pow2(0));
  }

  lemma LowTerms() returns (t: seq<nat>)
    ensures t == [14, 13, 11, 10, 9, 8, 6, 0] && Terms(t) == 0x6f41
  {
    hide Pow2, Terms, Xor;
    t := [0];
    ConstantTerm();
    PowersTo32();
    TopTerm(6, t, 1);
    t := [6] + t;
    TopTerm(8, t, 0x41);
    t := [8] + t;
    TopTerm(9, t, 0x141);
    t := [9] + t;
    TopTerm(10, t, 0x341);
    t := [10] + t;
    TopTerm(11, t, 0x741);
    t := [11] + t;
    TopTerm(13, t, 0xf41);
    t := [13] + t;
    TopTerm(14, t, 0x2f41);
    t := [14] + t;
  }

  lemma MiddleTerms() returns (t: seq<nat>)
    ensures t == [25, 23, 22, 20, 19, 18, 14, 13, 11, 10, 9, 8, 6, 0] && Terms(t) == 0x2dc_6f41
  {
    hide Pow2, Terms, Xor;
    PowersTo32();
    t := LowTerms();
    TopTerm(18, t, 0x6f41);
    t := [18] + t;
    TopTerm(19, t, 0x4_6f41);
    t := [19] + t;
    TopTerm(20, t, 0xc_6f41);
    t := [20] + t;
    TopTerm(22, t, 0x1c_6f41);
    t := [22] + t;
    TopTerm(23, t, 0x5c_6f41);
    t := [23] + t;
    TopTerm(25, t, 0xdc_6f41);
    t := [25] + t;
  }

  lemma HighTerms() returns (t: seq<nat>)
    ensures t == [32, 28, 27, 26, 25, 23, 22, 20, 19, 18, 14, 13, 11, 10, 9, 8, 6, 0] && Terms(t) == 0x1_1edc_6f41
  {
    hide Pow2, Terms, Xor;
    PowersTo32();
    t := MiddleTerms();
    TopTerm(26, t, 0x2dc_6f41);
    t := [26] + t;
    TopTerm(27, t, 0x6dc_6f41);
    t := [27] + t;
    TopTerm(28, t, 0xedc_6f41);
    t := [28] + t;
    TopTerm(32, t, 0x1edc_6f41);
    t := [32] + t;
  }

  lemma GeneratorValue()
    ensures Generator() == 0x1_1edc_6f41
  {
    hide Terms;
    var t := HighTerms();
  }

  /** The lowest digits become the highest powers. */
  lemma {:induction false} ReversedSplit(x: nat, y: nat, j: nat, k: nat)
    requires x < Pow2(j)
    ensures Reversed(x + y * Pow2(j), j + k) == Reversed(x, j) * Pow2(k) + Reversed(y, k)
    decreases j
  {
    if j == 0 {
      assert Reversed(x, 0) == 0 && Pow2(0) == 1;
    } else {
      var p, q, z := Pow2(j - 1), Pow2(k), x + y * Pow2(j);
      assert Pow2(j) == 2 * p;
      assert Reversed(z, j + k) == z % 2 * Pow2(j + k - 1) + Reversed(z / 2, j + k - 1);
      assert Reversed(x, j) == x % 2 * p + Reversed(x / 2, j - 1);
      hide Reversed, Pow2;
      HalfOfSum(x, y, p);
      ReversedSplit(x / 2, y, j - 1, k);
      Pow2Add(j - 1, k);
      Associate(x % 2, p, q);
      Distribute(x % 2 * p, Reversed(x / 2, j - 1), q);
    }
  }

  lemma HalfOfSum(x: nat, y: nat, p: nat)
    ensures (x + y * (2 * p)) % 2 == x % 2 && (x + y * (2 * p)) / 2 == x / 2 + y * p
  {
    Associate(y, p, 2);
  }

  lemma ReversedDigits()
    ensures Reversed(2, 4) == 4 && Reversed(3, 4) == 0xc && Reversed(6, 4) == 6 && Reversed(7, 4) == 0xe
    ensures Reversed(8, 4) == 1 && Reversed(0xb, 4) == 0xd && Reversed(0xf, 4) == 0xf
  {
  }

  lemma ReversedBytes()
    ensures Reversed(0x78, 8) == 0x1e && Reversed(0x3b, 8) == 0xdc
    ensures Reversed(0xf6, 8) == 0x6f && Reversed(0x82, 8) == 0x41
  {
    hide Reversed, Pow2;
    Pow2Small();
    ReversedDigits();
    ReversedSplit(8, 7, 4, 4);
    ReversedSplit(0xb, 3, 4, 4);
    ReversedSplit(6, 0xf, 4, 4);
    ReversedSplit(2, 8, 4, 4);
  }

  /** The taps are the generator without its leading term, reversed. */
  lemma TapsAreGenerator()
    ensures 0x1_0000_0000 + Reversed(POLY, 32) == Generator()
  {
    hide Reversed, Pow2;
    GeneratorValue();
    Pow2Words();
    ReversedBytes();
    ReversedSplit(0xf6, 0x82, 8, 8);
    ReversedSplit(0x3b, 0x82f6, 8, 16);
    ReversedSplit(0x78, 0x82_f63b, 8, 24);
  }

  /** Doubling takes out the term of the lowest bit. */
  lemma ReversedDouble(c: nat, k: nat)
    requires k > 0 && c < Pow2(k)
    ensures 2 * Reversed(c, k) == c % 2 * Pow2(k) + Reversed(c / 2, k)
  {
    ReversedShort(c / 2, k);
    var r := Reversed(c / 2, k - 1);
    assert Reversed(c, k) == c % 2 * Pow2(k - 1) + r;
    assert Pow2(k) == 2 * Pow2(k - 1);
    hide Reversed, Pow2;
    Associate(2, c % 2, Pow2(k - 1));
  }

  /** One zero bit multiplies by `x` and subtracts the generator if the degree has become 32. */
  lemma StepMultiplies(c: Word32)
    ensures Register(Step(c)) == Xor(2 * Register(c), if c % 2 == 1 then Generator() else 0)
  {
    hide Xor, Reversed, Generator, Pow2;
    Pow2Words();
    var h, t := c / 2, Reversed(POLY, 32);
    var r := Reversed(h, 32);
    ReversedDouble(c, 32);
    ReversedBound(h, 32);
    ReversedBound(POLY, 32);
    TapsAreGenerator();
    if c % 2 == 1 {
      ReversedLinear(h, POLY, 32);
      XorDisjoint(1, r, 32);
      XorDisjoint(1, t, 32);
      XorExchange(Pow2(32), r, Pow2(32), t);
      XorSelf(Pow2(32));
      XorZero(Xor(r, t));
    } else {
      XorZero(r);
    }
  }

  lemma {:induction false} ZerosCongruent(p: nat, n: nat, c: Word32)
    requires Congruent(p, Register(c))
    ensures Congruent(Shl(p, n), Register(Zeros(n, c)))
    decreases n
  {
    hide Congruent, Register, Generator, Xor, Step;
    if n > 0 {
      StepMultiplies(c);
      CongruentDouble(p, Register(c), c % 2);
      ZerosCongruent(2 * p, n - 1, Step(c));
    }
  }

  lemma ByteCongruent(p: nat, c: Word32, b: Byte)
    requires Congruent(p, Register(c))
    ensures Congruent(Xor(Shl(p, 8), Shl(Reversed(b, 8), 32)), Register(UpdateByte(c, b)))
  {
    hide Xor, Shl, Reversed, Congruent, Generator, Pow2;
    var x := Register(b);
    ReversedLinear(c, b, 32);
    CongruentAdd(p, Register(c), x);
    ZerosCongruent(Xor(p, x), 8, Xor32(c, b));
    XorShl(p, x, 8);
    ReversedByte(b, 32);
    ShlAdd(Reversed(b, 8), 24, 8);
  }

  lemma {:induction false} ShlAdd(x: nat, j: nat, k: nat)
    ensures Shl(Shl(x, j), k) == Shl(x, j + k)
    decreases j
  {
    if j > 0 {
      ShlAdd(2 * x, j - 1, k);
    }
  }

  lemma {:induction false} UpdateCongruent(c: Word32, s: seq<Byte>)
    ensures Congruent(Xor(Shl(Register(c), 8 * |s|), Shl(Message(s), 32)), Register(Update(c, s)))
    decreases |s|
  {
    hide Xor, Shl, Register, Reversed, Congruent, Generator, UpdateByte;
    var a := Register(c);
    if |s| == 0 {
      ShlZero(a);
      XorZero(a);
      CongruentSelf(a);
    } else {
      var n := |s| - 1;
      var init, b := s[..n], s[n];
      UpdateCongruent(c, init);
      var m, u := Message(init), Update(c, init);
      assert Message(s) == Xor(Shl(m, 8), Reversed(b, 8));
      assert Update(c, s) == UpdateByte(u, b);
      hide Message, Update;
      ByteCongruent(Xor(Shl(a, 8 * n), Shl(m, 32)), u, b);
      MessageGrows(a, n, m, Reversed(b, 8));
    }
  }

  lemma ShlZero(x: nat)
    ensures Shl(x, 0) == x && Shl(0, 32) == 0
  {
    ShlIsMul(0, 32);
  }

  lemma MessageGrows(a: nat, n: nat, m: nat, r: nat)
    ensures Xor(Shl(Xor(Shl(a, 8 * n), Shl(m, 32)), 8), Shl(r, 32))
         == Xor(Shl(a, 8 * (n + 1)), Shl(Xor(Shl(m, 8), r), 32))
  {
    hide Xor, Shl;
    XorShl(Shl(a, 8 * n), Shl(m, 32), 8);
    ShlAdd(a, 8 * n, 8);
    ShlAdd(m, 32, 8);
    ShlAdd(m, 8, 32);
    XorShl(Shl(m, 8), r, 32);
    XorAssoc(Shl(a, 8 * (n + 1)), Shl(m, 40), Shl(r, 32));
  }
}
