/**
Integer to floating point conversion of src/APInt.c.  Only the top mbits + 2 bits of the
number are handed to the hardware conversion, with everything below collected in the last
one; the theorem is that this rounds exactly once, and that the result is infinite exactly
when the rounded number is out of the range of the target format.
 */
module ApFloat {
  import opened Basics
  import opened Bits
  import opened Words
  import WordArith
  import opened WordShift
  import opened ApWidth
  import opened ApDiv
  import opened Rounding

  /** The number m * 2^e. */
  datatype Float = Float(m: nat, e: int)

  ghost function Value(f: Float): real {
    if f.e >= 0 then (f.m * Pow2(f.e)) as real else f.m as real / Pow2(-f.e) as real
  }

  /** Conversion to a format with `p` significant bits. */
  function Narrow(f: Float, p: nat): Float {
    Float(RoundTo(f.m, p), f.e)
  }

  // ---------------------------------------------------------------------------
  // The prefix and why it suffices.
  // ---------------------------------------------------------------------------

  /** The leading bits of `x`: `x * 2^-e` cut to an integer. */
  function Leading(x: nat, e: int): nat {
    if e >= 0 then Shr(x, e) else x * Pow2(-e)
  }

  /** Whether something was cut off. */
  predicate Cut(x: nat, e: int) {
    e >= 0 && x % Pow2(e) != 0
  }

  /** The integer that is converted, with its exponent. */
  function Prefix(x: nat, mbits: nat): Float
    requires x > 0
  {
    var e := BitLen(x) - (mbits + 2);
    Float(WithSticky(Leading(x, e), Cut(x, e)), e)
  }

  lemma LeadingLength(x: nat, mbits: nat)
    requires x > 0
    ensures BitLen(Prefix(x, mbits).m) == mbits + 2
    ensures BitLen(Leading(x, BitLen(x) - (mbits + 2))) == mbits + 2
  {
    hide BitLen, Pow2, Shr;
    var e := BitLen(x) - (mbits + 2);
    var m := Leading(x, e);
    if e > 0 {
      TopBitsRange(x, e, mbits + 2);
      ShrIsDiv(x, e);
      BitLenUnique(m, mbits + 2);
    } else if e == 0 {
      ShrIsDiv(x, 0);
      assert Pow2(0) == 1 by { Pow2Zero(); }
    } else {
      BitLenShift(x, -e);
    }
    StickyKeepsLength(m, mbits + 2);
  }

  lemma StickyKeepsLength(m: nat, n: nat)
    requires n >= 2 && BitLen(m) == n
    ensures BitLen(WithSticky(m, true)) == n
  {
    hide BitLen;
    BitLenPositive(m);
    BitLenBounds(m);
    assert Pow2(n) == 2 * Pow2(n - 1);
    BitLenUnique(WithSticky(m, true), n);
  }

  /** Rounding the prefix to `mbits` bits is rounding the number. */
  lemma PrefixRounds(x: nat, mbits: nat)
    requires x > 0 && mbits >= 1
    ensures var f := Prefix(x, mbits);
            if f.e >= 0 then RoundTo(f.m, mbits) * Pow2(f.e) == RoundTo(x, mbits)
            else RoundTo(f.m, mbits) == RoundTo(x, mbits) * Pow2(-f.e)
  {
    hide BitLen, Pow2, Shr, RoundAt, WithSticky;
    var f := Prefix(x, mbits);
    LeadingLength(x, mbits);
    assert Pow2(1) == 2 by { Pow2Small(); }
    if f.e >= 0 {
      ShrIsDiv(x, f.e);
      StickyRounds(x, Pow2(f.e));
      Pow2Add(1, f.e);
      assert BitLen(x) - mbits - 1 == 1 + f.e;
    } else {
      NotCut(x, f.e);
      RoundToScales(x, mbits, -f.e);
    }
  }

  lemma NotCut(x: nat, e: int)
    requires e < 0
    ensures WithSticky(Leading(x, e), Cut(x, e)) == x * Pow2(-e)
  {
  }

  lemma RoundToShort(x: nat, p: nat)
    requires BitLen(x) <= p
    ensures RoundTo(x, p) == x
  {
  }

  /** The precisions of half, bfloat, single and double. */
  predicate IsFormat(mbits: nat) {
    mbits == 8 || mbits == 11 || mbits == 24 || mbits == 53
  }

  /** Numbers of 2 to this power and more are out of the range of the format. */
  function Top(mbits: nat): nat {
    if mbits == 53 then 1024 else if mbits == 11 then 16 else 128
  }

  /** The double for a nonzero number, if it is in range: one conversion to 53 bits. */
  function AsDouble(x: nat, mbits: nat): Float
    requires x > 0
  {
    Narrow(Prefix(x, mbits), 53)
  }

  datatype Number = Infinite | Finite(f: Float)

  /** A number of unlimited exponent, put into a format whose range ends at 2 to the `top`. */
  function InRange(f: Float, top: nat): Number {
    if f.m > 0 && BitLen(f.m) + f.e > top then Infinite else Finite(f)
  }

  /** Conversion of a number to a narrower format. */
  function Convert(v: Number, mbits: nat): Number {
    match v
    case Infinite => Infinite
    case Finite(f) => InRange(Narrow(f, mbits), Top(mbits))
  }

  /** What the runtime does with the returned double for each target format. */
  function ToTarget(v: Number, mbits: nat): Number {
    if mbits == 53 then v
    else if mbits == 24 then Convert(v, 24)
    else Convert(Convert(v, 24), mbits)
  }

  // ---------------------------------------------------------------------------
  // One rounding.
  // ---------------------------------------------------------------------------

  /** The prefix, rounded to the target precision. */
  function Rounded(x: nat, mbits: nat): Float
    requires x > 0
  {
    Narrow(Prefix(x, mbits), mbits)
  }

  lemma RoundedValue(x: nat, mbits: nat)
    requires x > 0 && mbits >= 1
    ensures Value(Rounded(x, mbits)) == RoundTo(x, mbits) as real
  {
    hide BitLen, Pow2, RoundTo, Prefix;
    PrefixRounds(x, mbits);
    var f := Prefix(x, mbits);
    if f.e < 0 {
      RealQuotient(RoundTo(x, mbits), Pow2(-f.e));
    }
  }

  lemma RealQuotient(y: nat, p: nat)
    requires p >= 1
    ensures (y * p) as real / p as real == y as real
  {
    assert (y * p) as real == y as real * p as real;
  }

  /** Rounding does not shorten a number. */
  lemma RoundToLength(x: nat, p: nat)
    requires x > 0 && p >= 1
    ensures RoundTo(x, p) > 0 && BitLen(RoundTo(x, p)) >= BitLen(x)
  {
    hide BitLen, Pow2, RoundAt;
    var n := BitLen(x);
    BitLenBounds(x);
    if n > p {
      var h := Pow2(n - p - 1);
      RoundAtNearest(x, h);
      Pow2Add(1, n - p - 1);
      Pow2Add(p - 1, n - p);
      assert Pow2(1) == 2 by { Pow2Small(); }
      FloorAtLeast(x, Pow2(p - 1), 2 * h);
      BitLenAtLeast(RoundTo(x, p), n - 1);
    }
  }

  lemma FloorAtLeast(x: nat, q: nat, d: nat)
    requires d >= 1 && q * d <= x
    ensures q * d <= x / d * d
  {
    if x / d < q {
      MulMonotone(x / d + 1, q, d);
      Distribute(x / d, 1, d);
      QuotientNat(x, d);
    }
    MulMonotone(q, if x / d < q then q else x / d, d);
  }

  lemma BitLenAtLeast(x: nat, k: nat)
    ensures x >= Pow2(k) <==> x > 0 && BitLen(x) > k
  {
    hide BitLen, Pow2;
    if x > 0 {
      BitLenBounds(x);
      if BitLen(x) > k {
        Pow2Monotone(k, BitLen(x) - 1);
      } else {
        Pow2Monotone(BitLen(x), k);
      }
    }
  }

  /** Significand and exponent together have the length of the rounded number. */
  lemma RoundedLength(x: nat, mbits: nat)
    requires x > 0 && mbits >= 1
    ensures var g := Rounded(x, mbits);
      && g.m > 0 && RoundTo(x, mbits) > 0 && BitLen(g.m) + g.e == BitLen(RoundTo(x, mbits))
      && BitLen(g.m) + g.e >= BitLen(x)
  {
    hide BitLen, Pow2, RoundTo, Prefix;
    var f := Prefix(x, mbits);
    var y := RoundTo(f.m, mbits);
    LeadingLength(x, mbits);
    BitLenZero();
    RoundToLength(f.m, mbits);
    RoundToLength(x, mbits);
    PrefixRounds(x, mbits);
    PrefixExponent(x, mbits);
    if f.e >= 0 {
      BitLenShift(y, f.e);
    } else {
      BitLenShift(RoundTo(x, mbits), -f.e);
    }
  }

  lemma PrefixExponent(x: nat, mbits: nat)
    requires x > 0
    ensures Prefix(x, mbits).e == BitLen(x) - (mbits + 2)
  {
  }

  /**
  The conversions down to the target format round exactly once, and the result is infinite
  exactly when the number, rounded, is out of range.
   */
  lemma ConversionRoundsOnce(x: nat, mbits: nat)
    requires x > 0 && IsFormat(mbits)
    ensures Value(Rounded(x, mbits)) == RoundTo(x, mbits) as real
    ensures ToTarget(InRange(AsDouble(x, mbits), Top(53)), mbits)
         == if RoundTo(x, mbits) >= Pow2(Top(mbits)) then Infinite else Finite(Rounded(x, mbits))
  {
    hide BitLen, Pow2, RoundTo, Prefix, Value;
    RoundedValue(x, mbits);
    var f := Prefix(x, mbits);
    LeadingLength(x, mbits);
    PrefixExponent(x, mbits);
    RoundedLength(x, mbits);
    BitLenAtLeast(RoundTo(x, mbits), Top(mbits));
    if mbits != 53 {
      RoundToShort(f.m, 53);
      if mbits != 24 {
        RoundToShort(f.m, 24);
      }
    }
  }

  // ---------------------------------------------------------------------------
  // Where a format ends.
  // ---------------------------------------------------------------------------

  /** A number rounds to 2^t or more exactly from the middle between 2^t and its predecessor with `p` bits. */
  lemma RangeEnds(x: nat, p: nat, t: nat)
    requires 1 <= p < t
    ensures RoundTo(x, p) >= Pow2(t) <==> x >= (Pow2(p + 1) - 1) * Pow2(t - p - 1)
  {
    hide BitLen, Pow2, RoundTo;
    MiddleBounds(p, t);
    BitLenAtLeast(x, t);
    BitLenAtLeast(x, t - 1);
    if x >= Pow2(t) {
      RoundToLength(x, p);
      BitLenAtLeast(RoundTo(x, p), t);
    } else if x < Pow2(t - 1) {
      RoundsWithin(x, p, t - 1);
    } else {
      LastBinade(x, p, t);
    }
  }

  lemma MiddleBounds(p: nat, t: nat)
    requires 1 <= p < t
    ensures Pow2(t - 1) <= (Pow2(p + 1) - 1) * Pow2(t - p - 1) < Pow2(t)
  {
    hide Pow2;
    var h := Pow2(t - p - 1);
    Pow2Add(p + 1, t - p - 1);
    Distribute(Pow2(p + 1), 1, h);
    Pow2Monotone(t - p - 1, t - 1);
    Pow2Add(1, t - 1);
    Pow2Small();
  }

  lemma RoundsWithin(x: nat, p: nat, k: nat)
    requires p >= 1 && x < Pow2(k)
    ensures RoundTo(x, p) <= Pow2(k)
  {
    hide BitLen, Pow2, RoundTo, IsRepresentable;
    RoundToIsNearestEven(x, p);
    PowerIsRepresentable(k, p);
    assert Distance(x, RoundTo(x, p)) <= Distance(x, Pow2(k));
  }

  lemma PowerIsRepresentable(k: nat, p: nat)
    requires p >= 1
    ensures IsRepresentable(Pow2(k), p)
  {
    Pow2Monotone(1, p);
    ShlIsMul(1, k);
  }

  lemma LastBinade(x: nat, p: nat, t: nat)
    requires 1 <= p < t && x > 0 && BitLen(x) == t
    ensures RoundTo(x, p) >= Pow2(t) <==> x >= (Pow2(p + 1) - 1) * Pow2(t - p - 1)
  {
    hide BitLen, Pow2, RoundAt;
    var h, q := Pow2(t - p - 1), Pow2(p);
    TopBitsRange(x, t - p, p);
    Pow2Add(p, t - p);
    Pow2Add(1, t - p - 1);
    Pow2Add(1, p);
    Pow2Add(1, p - 1);
    Pow2Small();
    RoundsOver(x, h, Pow2(p - 1));
  }

  /** Rounding at `2 h` reaches the multiple `2 j` from a quotient below it exactly from the middle. */
  lemma RoundsOver(x: nat, h: nat, j: nat)
    requires h >= 1 && j >= 1 && x / (2 * h) < 2 * j
    ensures RoundAt(x, h) >= 2 * j * (2 * h) <==> x >= (4 * j - 1) * h
  {
    var d, q, m := 2 * h, x / (2 * h), 2 * j;
    QuotientNat(x, d);
    hide RoundAt;
    RoundAtCases(x, h);
    Associate(4 * j - 1, 1, h);
    assert (4 * j - 1) * h == (m - 1) * d + h by { OddMultiple(j, h); }
    Distribute(m, 1, d);
    if q == m - 1 {
      assert q % 2 == 1;
    } else {
      MulMonotone(q + 1, m - 1, d);
      Distribute(q, 1, d);
    }
  }

  lemma OddMultiple(j: nat, h: nat)
    ensures (4 * j - 1) * h == (2 * j - 1) * (2 * h) + h
  {
    Associate(2 * j - 1, 2, h);
    Distribute(4 * j - 2, 1, h);
  }

  lemma RoundAtCases(x: nat, h: nat)
    requires h >= 1
    ensures var d := 2 * h;
      RoundAt(x, h) == if x % d > h || (x % d == h && x / d % 2 == 1) then (x / d + 1) * d else x / d * d
  {
  }

  lemma AllOnesFits(p: nat, k: nat)
    requires p >= 1 && k >= 1
    ensures var x := (Pow2(p) - 1) * Pow2(k); RoundTo(x, p) == x < (Pow2(p + 1) - 1) * Pow2(k - 1)
  {
    hide Pow2, RoundTo, IsRepresentable;
    Pow2Small();
    Pow2Add(1, p);
    Pow2Add(1, p - 1);
    Pow2Add(1, k - 1);
    OddMultiple(Pow2(p - 1), Pow2(k - 1));
    MultipleIsRepresentable(Pow2(p) - 1, k, p);
    RepresentableIffUnchanged((Pow2(p) - 1) * Pow2(k), p);
  }

  /**
  The ends of the formats, given by precision and largest exponent: the largest number is
  converted to itself, and from the middle between it and the next power of two on every number
  is converted to infinity.
   */
  lemma LargestFinite(mbits: nat, emax: nat, x: nat)
    requires (mbits, emax) in {(11, 15), (8, 127), (24, 127), (53, 1023)} && x > 0
    ensures var v := ToTarget(InRange(AsDouble(x, mbits), 1024), mbits);
      && (v == Infinite <==> x >= (Pow2(mbits + 1) - 1) * Pow2(emax - mbits))
      && (x == (Pow2(mbits) - 1) * Pow2(emax + 1 - mbits) ==> v.Finite? && Value(v.f) == x as real)
  {
    hide BitLen, Pow2, RoundTo, Rounded, Value, InRange, ToTarget, AsDouble;
    ConversionRoundsOnce(x, mbits);
    RangeEnds(x, mbits, emax + 1);
    if x == (Pow2(mbits) - 1) * Pow2(emax + 1 - mbits) {
      AllOnesFits(mbits, emax + 1 - mbits);
    }
  }

  // ---------------------------------------------------------------------------
  // The comment on the returned double.
  // ---------------------------------------------------------------------------

  lemma RepresentableIffUnchanged(x: nat, p: nat)
    requires p >= 1
    ensures IsRepresentable(x, p) <==> RoundTo(x, p) == x
  {
    hide RoundTo, IsRepresentable;
    RoundToIsNearestEven(x, p);
  }

  lemma RoundAtTwoFixed(m: nat)
    ensures RoundAt(m, 2) == m ==> m % 4 == 0
  {
  }

  /**
  The comment above uint_to_fp says that the returned double fits the target format without
  loss.  It does for 53 bits; for the narrower formats exactly when the integer itself does.
   */
  lemma DoubleFitsTarget(x: nat, mbits: nat)
    requires x > 0 && IsFormat(mbits)
    ensures IsRepresentable(AsDouble(x, mbits).m, mbits) <==> mbits == 53 || IsRepresentable(x, mbits)
  {
    hide BitLen, Pow2, RoundTo, Prefix, IsRepresentable;
    var f := Prefix(x, mbits);
    LeadingLength(x, mbits);
    if mbits == 53 {
      RoundToIsNearestEven(f.m, 53);
    } else {
      RoundToShort(f.m, 53);
      RepresentableIffUnchanged(f.m, mbits);
      RepresentableIffUnchanged(x, mbits);
      PrefixUnchanged(x, mbits);
    }
  }

  lemma PrefixUnchanged(x: nat, mbits: nat)
    requires x > 0 && mbits >= 1
    ensures RoundTo(Prefix(x, mbits).m, mbits) == Prefix(x, mbits).m <==> RoundTo(x, mbits) == x
  {
    hide BitLen, Pow2, Shr, RoundAt, RoundTo, WithSticky, Leading, Cut;
    var f := Prefix(x, mbits);
    PrefixRounds(x, mbits);
    if f.e < 0 {
      NotCut(x, f.e);
      ScaleCancels(RoundTo(x, mbits), x, Pow2(-f.e));
    } else {
      LeadingLength(x, mbits);
      RoundToTwoMore(f.m, mbits);
      CutAt(x, f.e);
      UnchangedPrefix(x, Pow2(f.e), f.m, RoundTo(f.m, mbits));
    }
  }

  lemma RoundToTwoMore(m: nat, mbits: nat)
    requires BitLen(m) == mbits + 2
    ensures RoundTo(m, mbits) == RoundAt(m, 2)
  {
    hide BitLen, RoundAt;
    Pow2Small();
  }

  lemma CutAt(x: nat, e: nat)
    ensures Leading(x, e) == x / Pow2(e) && Cut(x, e) == (x % Pow2(e) != 0)
  {
    ShrIsDiv(x, e);
  }

  lemma UnchangedPrefix(x: nat, d: nat, m: nat, r: nat)
    requires d >= 1 && x / d >= 0 && m == WithSticky(x / d, x % d != 0) && r == RoundAt(m, 2)
    ensures r == m <==> r * d == x
  {
    hide RoundAt;
    QuotientNat(x, d);
    if r == m {
      RoundAtTwoFixed(m);
      assert x % d == 0;
    } else if r * d == x {
      MulDivCancel(r, d);
    }
  }

  lemma ScaleCancels(x: nat, y: nat, p: nat)
    requires p >= 1
    ensures x * p == y * p <==> x == y
  {
    if x * p == y * p {
      MulDivCancel(x, p);
      MulDivCancel(y, p);
    }
  }

  /** 2^24 + 1 converted for a 24-bit format: the double needs 25 bits. */
  lemma DoubleNeedNotFit()
    ensures !IsRepresentable(AsDouble(0x100_0001, 24).m, 24)
  {
    hide RoundAt, IsRepresentable, AsDouble;
    var x := 0x100_0001;
    Pow2Words();
    assert Pow2(25) == 2 * Pow2(24);
    BitLenUnique(x, 25);
    DoubleFitsTarget(x, 24);
    RepresentableIffUnchanged(x, 24);
    RoundAtNearest(x, 1);
    assert RoundTo(x, 24) == RoundAt(x, Pow2(0));
  }

  // ---------------------------------------------------------------------------
  // The word-level computation.
  // ---------------------------------------------------------------------------

  /** The length of a number from its highest nonzero word. */
  lemma LengthOfWords(low: nat, hi: Word, hw: nat)
    requires hi > 0 && low < Base(hw)
    ensures BitLen(low + hi * Base(hw)) == 64 * hw + BitLen(hi)
  {
    hide BitLen, Pow2, Base;
    var n := BitLen(hi);
    BitLenBounds(hi);
    BaseIsPow2(hw);
    Pow2Add(n - 1, 64 * hw);
    Pow2Add(n, 64 * hw);
    MulMonotone(Pow2(n - 1), hi, Base(hw));
    MulMonotone(hi, Pow2(n) - 1, Base(hw));
    Distribute(Pow2(n), 1, Base(hw));
    BitLenUnique(low + hi * Base(hw), 64 * hw + n);
  }

  lemma WordLength(hi: Word)
    requires hi > 0
    ensures 1 <= BitLen(hi) <= 64
  {
    BitLenBounds(hi);
    if BitLen(hi) > 64 {
      Pow2Words();
      Pow2Monotone(64, BitLen(hi) - 1);
    }
  }

  /** The two top words shifted left until the first bit is at the top. */
  lemma NormalizedWords(hi: Word, lo: Word, n: nat, hiN: nat, loN: nat)
    requires 1 <= n <= 64 && hi < Pow2(n)
    requires hiN == hi * Pow2(64 - n) + lo / Pow2(n) && loN == lo % Pow2(n) * Pow2(64 - n)
    ensures hiN * 0x1_0000_0000_0000_0000 + loN == (hi * 0x1_0000_0000_0000_0000 + lo) * Pow2(64 - n)
    ensures 0 <= loN <= 0x1_0000_0000_0000_0000 - Pow2(64 - n) && (loN == 0 <==> lo % Pow2(n) == 0)
  {
    hide Pow2;
    var p, q := Pow2(64 - n), Pow2(n);
    assert q * p == 0x1_0000_0000_0000_0000 by { Pow2Words(); Pow2Add(n, 64 - n); }
    assert lo == q * (lo / q) + lo % q;
    Distribute(hi * 0x1_0000_0000_0000_0000, lo, p);
    Distribute(q * (lo / q), lo % q, p);
    Associate(lo / q, q, p);
    Associate(hi, 0x1_0000_0000_0000_0000, p);
    MulMonotone(0, lo % q, p);
    MulMonotone(lo % q, q - 1, p);
    Distribute(q, 1, p);
    if lo % q > 0 {
      MulMonotone(1, lo % q, p);
    }
  }

  /** Scaling the number by the leading zeros puts the normalized top word above everything else. */
  lemma TopOfScaled(hi: Word, lo: Word, low: nat, hw: nat, n: nat, hiN: nat, loN: nat)
    requires 1 <= n <= 64 && hw >= 1 && low < Base(hw - 1)
    requires hiN * 0x1_0000_0000_0000_0000 + loN == (hi * 0x1_0000_0000_0000_0000 + lo) * Pow2(64 - n)
    requires 0 <= loN <= 0x1_0000_0000_0000_0000 - Pow2(64 - n)
    ensures var F := (low + lo * Base(hw - 1) + hi * Base(hw)) * Pow2(64 - n);
            && F / Base(hw) == hiN
            && (F % Base(hw) == 0 <==> loN == 0 && low == 0)
  {
    hide Pow2, Base;
    var p, B := Pow2(64 - n), Base(hw - 1);
    BaseStep(hw - 1);
    var x := low + lo * B + hi * Base(hw);
    ScaledAlgebra(hi, lo, low, B, p, hiN, loN);
    MulMonotone(0, low, p);
    MulMonotone(low + 1, B, p);
    Distribute(low, 1, p);
    MulMonotone(0, loN, B);
    MulMonotone(loN, 0x1_0000_0000_0000_0000 - p, B);
    Distribute(0x1_0000_0000_0000_0000, p, B);
    if loN > 0 {
      MulMonotone(1, loN, B);
    }
    if low > 0 {
      MulMonotone(1, low, p);
    }
    DivModUnique(x * p, Base(hw), hiN, loN * B + low * p);
  }

  lemma ScaledAlgebra(hi: nat, lo: nat, low: nat, B: nat, p: nat, hiN: nat, loN: nat)
    requires hiN * 0x1_0000_0000_0000_0000 + loN == (hi * 0x1_0000_0000_0000_0000 + lo) * p
    ensures (low + lo * B + hi * (0x1_0000_0000_0000_0000 * B)) * p
         == hiN * (0x1_0000_0000_0000_0000 * B) + (loN * B + low * p)
  {
    var t := hi * 0x1_0000_0000_0000_0000 + lo;
    Distribute(hi * 0x1_0000_0000_0000_0000, lo, B);
    Associate(hi, 0x1_0000_0000_0000_0000, B);
    assert lo * B + hi * (0x1_0000_0000_0000_0000 * B) == t * B;
    Distribute(low, t * B, p);
    Associate(t, B, p);
    Associate(t, p, B);
    Distribute(hiN * 0x1_0000_0000_0000_0000, loN, B);
    Associate(hiN, 0x1_0000_0000_0000_0000, B);
  }

  lemma ScaledQuotient(x: nat, d: nat, j: nat)
    requires d >= 1 && j >= 1
    ensures d * j >= 1 && x * j / (d * j) == x / d && (x * j % (d * j) == 0 <==> x % d == 0)
  {
    ScaleDivMod(x, d, j);
    ScaleCancels(x % d, 0, j);
  }

  lemma MultipleQuotient(x: nat, d: nat, j: nat)
    requires d >= 1
    ensures x * (j * d) / d == x * j && x * (j * d) % d == 0
  {
    Associate(x, j, d);
    MulDivCancel(x * j, d);
  }

  lemma ScaledDown(x: nat, lz: nat, g: nat)
    requires g >= lz
    ensures x / Pow2(g - lz) == x * Pow2(lz) / Pow2(g)
    ensures x % Pow2(g - lz) != 0 <==> x * Pow2(lz) % Pow2(g) != 0
  {
    hide Pow2;
    Pow2Add(g - lz, lz);
    ScaledQuotient(x, Pow2(g - lz), Pow2(lz));
  }

  lemma ScaledUp(x: nat, lz: nat, g: nat)
    requires g < lz
    ensures x * Pow2(lz - g) == x * Pow2(lz) / Pow2(g)
    ensures x * Pow2(lz) % Pow2(g) == 0
  {
    hide Pow2;
    Pow2Add(lz - g, g);
    MultipleQuotient(x, Pow2(g), Pow2(lz - g));
  }

  /** Prefix and cut-off of the number from those of its scaled form. */
  lemma PrefixOfScaled(x: nat, lz: nat, g: nat)
    ensures Leading(x, g - lz) == x * Pow2(lz) / Pow2(g)
    ensures Cut(x, g - lz) <==> x * Pow2(lz) % Pow2(g) != 0
  {
    hide Pow2, Shr;
    if g >= lz {
      ScaledDown(x, lz, g);
      ShrIsDiv(x, g - lz);
    } else {
      ScaledUp(x, lz, g);
      assert -(g - lz) == lz - g;
    }
  }

  lemma OrSticky(m: nat, sticky: bool)
    ensures Or(m, if sticky then 1 else 0) == WithSticky(m, sticky)
  {
    if m != 0 {
      assert Or(m / 2, 0) == m / 2;
    }
  }

  /** Normalizing, cutting and the sticky bit, for the two top words and the rest. */
  lemma PrefixOfWords(x: nat, low: nat, lo: Word, hi: Word, hw: nat, n: nat, mbits: nat, hiN: nat, loN: nat)
    requires hi > 0 && n == BitLen(hi) && 1 <= n <= 64 && 1 <= mbits <= 53
    requires hw == 0 ==> lo == 0 && low == 0 && x == hi
    requires hw > 0 ==> low < Base(hw - 1) && x == low + lo * Base(hw - 1) + hi * Base(hw)
    requires hiN == hi * Pow2(64 - n) + lo / Pow2(n) && loN == lo % Pow2(n) * Pow2(64 - n)
    ensures x > 0 && BitLen(x) == 64 * hw + n
    ensures var sticky := hiN % Pow2(62 - mbits) != 0 || loN != 0 || low != 0;
            hiN / Pow2(62 - mbits) >= 0 &&
            Prefix(x, mbits) == Float(WithSticky(hiN / Pow2(62 - mbits), sticky), 64 * hw + (62 - mbits) - (64 - n))
  {
    hide BitLen, Pow2, Base, Leading, Cut, WithSticky;
    BitLenBounds(hi);
    NormalizedWords(hi, lo, n, hiN, loN);
    var B, T, F := Base(hw), Pow2(62 - mbits), x * Pow2(64 - n);
    QuotientNat(hiN, T);
    if hw == 0 {
      assert B == 1 && Base(0) == 1 by { BaseOne(); }
      LengthOfWords(0, hi, 0);
      DivModUnique(0, Pow2(n), 0, 0);
      assert F == hiN;
    } else {
      TopOfScaled(hi, lo, low, hw, n, hiN, loN);
      LowPartBelow(low, lo, hw);
      LengthOfWords(low + lo * Base(hw - 1), hi, hw);
    }
    assert F / B == hiN && (F % B == 0 <==> loN == 0 && low == 0);
    DivDiv(F, B, T);
    MulMonotone(0, hiN % T, B);
    if hiN % T > 0 {
      MulMonotone(1, hiN % T, B);
    }
    BaseIsPow2(hw);
    Pow2Add(64 * hw, 62 - mbits);
    assert x > 0 by { BitLenPositive(x); }
    PrefixOfScaled(x, 64 - n, 64 * hw + (62 - mbits));
  }

  lemma BaseOne()
    ensures Base(0) == 1
  {
  }

  lemma LowPartBelow(low: nat, lo: Word, hw: nat)
    requires hw >= 1 && low < Base(hw - 1)
    ensures 0 <= low + lo * Base(hw - 1) < Base(hw)
  {
    MulMonotone(0, lo, Base(hw - 1));
    MulMonotone(lo, 0xffff_ffff_ffff_ffff, Base(hw - 1));
  }

  /** The number from its highest nonzero word down. */
  lemma HighestWord(s: seq<Word>, hw: nat)
    requires hw < |s| && forall i :: hw < i < |s| ==> s[i] == 0
    ensures hw == 0 ==> Val(s) == s[0]
    ensures hw > 0 ==> Val(s[..hw - 1]) < Base(hw - 1)
                       && Val(s) == Val(s[..hw - 1]) + s[hw - 1] * Base(hw - 1) + s[hw] * Base(hw)
  {
    hide Val, Base;
    ExtensionVal(s, hw + 1, false);
    ValPrefix(s, hw);
    if hw == 0 {
      ValNone(s[..0]);
      BaseOne();
    } else {
      ValPrefix(s, hw - 1);
      ValBound(s[..hw - 1]);
    }
  }

  /** The index of the highest nonzero word, or -1. */
  method FindTop(a: array<Word>) returns (hw: int)
    ensures -1 <= hw < a.Length
    ensures forall i :: hw < i < a.Length ==> a[i] == 0
    ensures hw >= 0 ==> a[hw] != 0
  {
    hw := a.Length - 1;
    while hw >= 0 && a[hw] == 0
      invariant -1 <= hw < a.Length
      invariant forall i :: hw < i < a.Length ==> a[i] == 0
    {
      hw := hw - 1;
    }
  }

  /** The leading bits of an array, converted to a double. */
  method UintToFp(a: array<Word>, mbits: nat) returns (v: Number)
    requires 1 <= mbits <= 53
    ensures Val(a[..]) == 0 ==> v == Finite(Float(0, 0))
    ensures Val(a[..]) > 0 ==> v == InRange(AsDouble(Val(a[..]), mbits), Top(53))
  {
    hide Val, Base, Pow2, BitLen, Or, Prefix, RoundTo, WithSticky;
    var hw := FindTop(a);
    if hw < 0 {
      ValZeros(a[..]);
      return Finite(Float(0, 0));
    }
    var hi := a[hw];
    var lo := if hw > 0 then a[hw - 1] else 0;
    WordLength(hi);
    var n := BitLen(hi);
    var lz := 64 - n;
    var shift := 62 - mbits;
    var hiN, loN := Normalize(hi, lo, n);
    ghost var low := if hw > 0 then Val(a[..hw - 1]) else 0;
    HighestWord(a[..], hw);
    assert hw > 0 ==> a[..][..hw - 1] == a[..hw - 1];
    PrefixOfWords(Val(a[..]), low, lo, hi, hw, n, mbits, hiN, loN);
    ValNone(a[..0]);
    var sticky := hiN % Pow2(shift) != 0 || loN != 0;
    sticky := AnyBelow(a, hw - 1, sticky);
    assert sticky == (hiN % Pow2(62 - mbits) != 0 || loN != 0 || low != 0);
    OrSticky(hiN / Pow2(shift), sticky);
    var m := Or(hiN / Pow2(shift), if sticky then 1 else 0);
    assert Prefix(Val(a[..]), mbits) == Float(m, hw * 64 + shift - lz);
    v := InRange(Float(RoundTo(m, 53), hw * 64 + shift - lz), Top(53));
  }

  /** `hi:lo` shifted left by the leading zeros of `hi`. */
  method Normalize(hi: Word, lo: Word, n: nat) returns (hiN: nat, loN: nat)
    requires hi > 0 && n == BitLen(hi) && 1 <= n <= 64
    ensures hiN == hi * Pow2(64 - n) + lo / Pow2(n) && loN == lo % Pow2(n) * Pow2(64 - n)
  {
    hide Pow2, BitLen, Or;
    var lz := 64 - n;
    BitLenBounds(hi);
    SplitAt(lz);
    HighPart(lo, Pow2(lz), Pow2(n));
    if lz != 0 {
      assert hi * Pow2(lz) % 0x1_0000_0000_0000_0000 == hi * Pow2(lz) by {
        HighPart(hi, Pow2(lz), Pow2(n));
        DivModUnique(hi, Pow2(n), 0, hi);
      }
      OrDisjoint(hi, lo / Pow2(n), lz);
      hiN := Or(hi * Pow2(lz) % 0x1_0000_0000_0000_0000, lo / Pow2(n));
      loN := lo * Pow2(lz) % 0x1_0000_0000_0000_0000;
    } else {
      assert Pow2(0) == 1 && Pow2(64) == 0x1_0000_0000_0000_0000 by { Pow2Zero(); }
      DivModUnique(lo, Pow2(64), 0, lo);
      hiN, loN := hi, lo;
    }
  }

  /** The sticky loop over the words below the two top ones. */
  method AnyBelow(a: array<Word>, top: int, start: bool) returns (sticky: bool)
    requires top <= a.Length
    ensures sticky <==> start || (top > 0 && Val(a[..top]) != 0)
  {
    hide Val;
    sticky := start;
    var i := top - 1;
    while !sticky && i >= 0
      invariant i <= top - 1
      invariant start ==> sticky
      invariant top > 0 ==> -1 <= i
      invariant top > 0 && !sticky ==> forall j :: i < j < top ==> a[j] == 0
      invariant !start && sticky ==> top > 0 && Val(a[..top]) != 0
      decreases i
    {
      if a[i] != 0 {
        WordArith.NonzeroWord(a[..top], i);
        sticky := true;
      }
      i := i - 1;
    }
    if top > 0 && !sticky {
      ValZeros(a[..top]);
    }
  }

  /** The whole conversion: sign, magnitude, one rounding to the target format, and its range. */
  method IntToFp(numbits: nat, pa: array<Byte>, mbits: nat, isSigned: bool) returns (neg: bool, v: Number)
    requires IsWidth(numbits) && pa.Length >= NBytes(numbits) && IsFormat(mbits)
    ensures var x := Reading(Unsigned(pa[..], numbits), numbits, isSigned);
            && neg == (x < 0)
            && (v == Infinite <==> RoundTo(Abs(x), mbits) >= Pow2(Top(mbits)))
            && (v.Finite? ==> Value(v.f) == RoundTo(Abs(x), mbits) as real)
            && (mbits == 11 ==> (v == Infinite <==> Abs(x) >= 65520))
  {
    hide Val, Pow2, NWords, NBytes, Unsigned, Reading, RoundTo, Value, AsDouble, ToTarget, Rounded, InRange, Top;
    var a := Load(pa, numbits);
    var m := a;
    neg := false;
    ReadingCases(Val(a[..]), numbits, isSigned);
    if isSigned {
      m, neg := Absolute(a, numbits);
    }
    var d := UintToFp(m, mbits);
    v := ToTarget(d, mbits);
    if Val(m[..]) == 0 {
      ZeroConverts(mbits);
    } else {
      ConversionRoundsOnce(Val(m[..]), mbits);
    }
    HalfEnds(Val(m[..]));
  }

  lemma HalfEnds(x: nat)
    ensures RoundTo(x, 11) >= Pow2(Top(11)) <==> x >= 65520
  {
    hide RoundTo, Pow2;
    RangeEnds(x, 11, 16);
    Pow2Small();
    Pow2Add(8, 4);
  }

  lemma ReadingCases(x: nat, n: nat, isSigned: bool)
    requires n >= 1
    ensures Reading(x, n, isSigned) == if isSigned then Signed(x, n) else x
  {
  }

  lemma ZeroConverts(mbits: nat)
    requires IsFormat(mbits)
    ensures ToTarget(Finite(Float(0, 0)), mbits) == Finite(Float(0, 0))
    ensures RoundTo(0, mbits) == 0 < Pow2(Top(mbits)) && Value(Float(0, 0)) == 0.0
  {
    hide Pow2;
    RoundToShort(0, mbits);
    RoundToShort(0, 24);
  }
}
