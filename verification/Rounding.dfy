/**
Rounding natural numbers to a binary precision, to nearest with ties to even (section 4.3.1
of IEEE 754), and the sticky-bit argument that lets src/APInt.c round once on a short prefix.
 */
module Rounding {
  import opened Bits

  // ---------------------------------------------------------------------------
  // Bit lengths.
  // ---------------------------------------------------------------------------

  function BitLen(x: nat): nat {
    if x == 0 then 0 else 1 + BitLen(x / 2)
  }

  lemma {:induction false} BitLenBounds(x: nat)
    requires x > 0
    ensures BitLen(x) >= 1 && Pow2(BitLen(x) - 1) <= x < Pow2(BitLen(x))
  {
    if x > 1 {
      BitLenBounds(x / 2);
    }
  }

  lemma BitLenUnique(x: nat, n: nat)
    requires n >= 1 && Pow2(n - 1) <= x < Pow2(n)
    ensures BitLen(x) == n
  {
    hide BitLen, Pow2;
    BitLenBounds(x);
    if BitLen(x) < n {
      Pow2Monotone(BitLen(x), n - 1);
    } else if BitLen(x) > n {
      Pow2Monotone(n, BitLen(x) - 1);
    }
  }

  lemma BitLenShift(x: nat, k: nat)
    requires x > 0
    ensures x * Pow2(k) > 0 && BitLen(x * Pow2(k)) == BitLen(x) + k
  {
    hide BitLen, Pow2;
    var n := BitLen(x);
    BitLenBounds(x);
    Pow2Add(n - 1, k);
    Pow2Add(n, k);
    MulMonotone(Pow2(n - 1), x, Pow2(k));
    MulMonotone(x, Pow2(n) - 1, Pow2(k));
    Distribute(Pow2(n), 1, Pow2(k));
    BitLenUnique(x * Pow2(k), n + k);
  }

  // ---------------------------------------------------------------------------
  // Rounding.
  // ---------------------------------------------------------------------------

  /** Round to a multiple of `2 h`, to nearest, ties to an even multiple. */
  function RoundAt(x: nat, h: nat): (r: nat)
    requires h >= 1
  {
    var d := 2 * h;
    QuotientNat(x, d);
    if x % d > h || (x % d == h && x / d % 2 == 1) then (x / d + 1) * d else x / d * d
  }

  lemma QuotientNat(x: nat, d: nat)
    requires d >= 1
    ensures x / d >= 0 && x / d * d >= 0 && (x / d + 1) * d >= 0 && x == x / d * d + x % d
  {
    var q := x / d;
    assert x == d * q + x % d;
    if q < 0 {
      MulMonotone(q, -1, d);
    }
    MulMonotone(0, q, d);
    MulMonotone(0, q + 1, d);
  }

  /** Round to `p` significant bits. */
  function RoundTo(x: nat, p: nat): nat {
    if BitLen(x) <= p then x else RoundAt(x, Pow2(BitLen(x) - p - 1))
  }

  // ---------------------------------------------------------------------------
  // What rounding means.
  // ---------------------------------------------------------------------------

  /** A number with at most `p` significant bits. */
  ghost predicate IsRepresentable(y: nat, p: nat) {
    exists m: nat, e: nat :: m < Pow2(p) && y == Shl(m, e)
  }

  function Distance(x: nat, y: nat): nat {
    if x <= y then y - x else x - y
  }

  /** No number of `p` bits lies strictly between neighbouring multiples at the rounding position. */
  lemma NoneBetween(q: nat, k: nat, p: nat, m: nat, e: nat)
    requires p >= 1 && q >= Pow2(p - 1) && m < Pow2(p)
    ensures m * Pow2(e) <= q * Pow2(k) || m * Pow2(e) >= (q + 1) * Pow2(k)
  {
    hide Pow2;
    if e >= k {
      var w := Pow2(e - k);
      Pow2Add(e - k, k);
      Associate(m, w, Pow2(k));
      if m * w <= q {
        MulMonotone(m * w, q, Pow2(k));
      } else {
        MulMonotone(q + 1, m * w, Pow2(k));
      }
    } else {
      MulMonotone(m, Pow2(p), Pow2(e));
      Pow2Add(p, e);
      Pow2Monotone(p + e, p - 1 + k);
      Pow2Add(p - 1, k);
      MulMonotone(Pow2(p - 1), q, Pow2(k));
    }
  }

  /** The two neighbours and the choice between them. */
  lemma RoundAtNearest(x: nat, h: nat)
    requires h >= 1
    ensures var lo, hi, r := x / (2 * h) * (2 * h), (x / (2 * h) + 1) * (2 * h), RoundAt(x, h);
            && 0 <= lo <= x < hi
            && (r == lo || r == hi)
            && Distance(x, r) <= x - lo && Distance(x, r) <= hi - x
            && (x - lo == hi - x ==> r / (2 * h) % 2 == 0)
  {
    var d := 2 * h;
    QuotientNat(x, d);
    Distribute(x / d, 1, d);
    MulDivCancel(x / d, d);
    MulDivCancel(x / d + 1, d);
  }

  /** The multiples of the rounding step around `x`, when `x` has more than `p` bits. */
  lemma RoundToNeighbours(x: nat, p: nat) returns (lo: nat, hi: nat)
    requires p >= 1 && BitLen(x) > p
    ensures lo <= x < hi && IsRepresentable(lo, p) && IsRepresentable(hi, p)
    ensures RoundTo(x, p) == lo || RoundTo(x, p) == hi
    ensures Distance(x, RoundTo(x, p)) <= x - lo && Distance(x, RoundTo(x, p)) <= hi - x
    ensures x - lo == hi - x ==> RoundTo(x, p) / Pow2(BitLen(x) - p) % 2 == 0
    ensures forall z: nat :: IsRepresentable(z, p) ==> z <= lo || z >= hi
  {
    hide BitLen, Pow2, RoundAt, Shl, IsRepresentable;
    var k := BitLen(x) - p;
    var q := x / Pow2(k);
    assert Pow2(k) == 2 * Pow2(k - 1) by { Pow2Add(1, k - 1); Pow2Small(); }
    RoundAtNearest(x, Pow2(k - 1));
    TopBitsRange(x, k, p);
    MultipleIsRepresentable(q, k, p);
    lo, hi := q * Pow2(k), (q + 1) * Pow2(k);
    forall z: nat | IsRepresentable(z, p)
      ensures z <= lo || z >= hi
    {
      RepresentableNotBetween(q, k, p, z);
    }
  }

  lemma RepresentableNotBetween(q: nat, k: nat, p: nat, z: nat)
    requires p >= 1 && q >= Pow2(p - 1) && IsRepresentable(z, p)
    ensures z <= q * Pow2(k) || z >= (q + 1) * Pow2(k)
  {
    var m: nat, e: nat :| m < Pow2(p) && z == Shl(m, e);
    ShlIsMul(m, e);
    NoneBetween(q, k, p, m, e);
  }

  /**
  RoundTo is rounding to nearest with ties to even: the result has at most `p` significant
  bits, no such number is closer, and of two equally close ones the even significand is taken.
   */
  lemma RoundToIsNearestEven(x: nat, p: nat)
    requires p >= 1
    ensures IsRepresentable(RoundTo(x, p), p)
    ensures forall z: nat :: IsRepresentable(z, p) ==> Distance(x, RoundTo(x, p)) <= Distance(x, z)
    ensures forall z: nat ::
              IsRepresentable(z, p) && z != RoundTo(x, p) && Distance(x, z) == Distance(x, RoundTo(x, p)) ==>
              BitLen(x) > p && RoundTo(x, p) / Pow2(BitLen(x) - p) % 2 == 0
  {
    hide BitLen, Pow2, RoundAt, IsRepresentable;
    if BitLen(x) <= p {
      ShortIsRepresentable(x, p);
    } else {
      var lo, hi := RoundToNeighbours(x, p);
    }
  }

  lemma ShortIsRepresentable(x: nat, p: nat)
    requires BitLen(x) <= p
    ensures IsRepresentable(x, p)
  {
    assert Shl(x, 0) == x;
    if x > 0 {
      BitLenBounds(x);
      Pow2Monotone(BitLen(x), p);
    }
  }

  /** The quotient at the rounding position has exactly `p` bits. */
  lemma TopBitsRange(x: nat, k: nat, p: nat)
    requires p >= 1 && k >= 1 && BitLen(x) == k + p
    ensures Pow2(p - 1) <= x / Pow2(k) < Pow2(p)
  {
    hide BitLen, Pow2;
    var q, d := x / Pow2(k), Pow2(k);
    BitLenPositive(x);
    BitLenBounds(x);
    Pow2Add(p - 1, k);
    Pow2Add(p, k);
    assert x == d * q + x % d;
    if q < Pow2(p - 1) {
      MulMonotone(q, Pow2(p - 1) - 1, d);
      Distribute(Pow2(p - 1), 1, d);
    }
    if q >= Pow2(p) {
      MulMonotone(Pow2(p), q, d);
    }
  }

  lemma BitLenPositive(x: nat)
    requires BitLen(x) > 0
    ensures x > 0
  {
  }

  /** Both neighbours have at most `p` significant bits, also when the upper one is a power of two. */
  lemma MultipleIsRepresentable(q: nat, k: nat, p: nat)
    requires p >= 1 && q < Pow2(p)
    ensures IsRepresentable(q * Pow2(k), p) && IsRepresentable((q + 1) * Pow2(k), p)
  {
    ShlIsMul(q, k);
    ShlIsMul(q + 1, k);
    if q + 1 == Pow2(p) {
      ShlIsMul(Pow2(p - 1), k + 1);
      Associate(Pow2(p - 1), 2, Pow2(k));
      assert (q + 1) * Pow2(k) == Shl(Pow2(p - 1), k + 1);
    }
  }

  // ---------------------------------------------------------------------------
  // Scaling and the sticky bit.
  // ---------------------------------------------------------------------------

  lemma ScaleDivMod(x: nat, d: nat, j: nat)
    requires d >= 1 && j >= 1
    ensures d * j >= 1 && x * j / (d * j) == x / d && x * j % (d * j) == x % d * j
  {
    var q, r := x / d, x % d;
    assert x == d * q + r;
    MulMonotone(1, j, d);
    Distribute(d * q, r, j);
    Associate(d, q, j);
    Associate(q, d, j);
    MulMonotone(r, d - 1, j);
    MulMonotone(0, r, j);
    Distribute(d, 1, j);
    DivModUnique(x * j, d * j, q, r * j);
  }

  lemma RoundAtScales(x: nat, h: nat, j: nat)
    requires h >= 1 && j >= 1
    ensures h * j >= 1 && RoundAt(x * j, h * j) == RoundAt(x, h) * j
  {
    var d := 2 * h;
    ScaleDivMod(x, d, j);
    Associate(2, h, j);
    MulMonotone(1, j, h);
    QuotientNat(x, d);
    var q, r := x / d, x % d;
    if r > h {
      MulMonotone(h + 1, r, j);
      Distribute(h, 1, j);
    } else if r < h {
      MulMonotone(r + 1, h, j);
      Distribute(r, 1, j);
    }
    Associate(q, d, j);
    Associate(q + 1, d, j);
  }

  /** Rounding a multiple of the rounding step changes nothing. */
  lemma RoundAtMultiple(y: nat, h: nat)
    requires h >= 1
    ensures RoundAt(y * (2 * h), h) == y * (2 * h)
  {
    MulDivCancel(y, 2 * h);
  }

  /** Rounding to a precision commutes with scaling by a power of two. */
  lemma RoundToScales(x: nat, p: nat, j: nat)
    ensures RoundTo(x * Pow2(j), p) == RoundTo(x, p) * Pow2(j)
  {
    hide BitLen, Pow2, RoundAt;
    if x == 0 {
      BitLenZero();
    } else {
      var n := BitLen(x);
      BitLenShift(x, j);
      if n > p {
        RoundAtScales(x, Pow2(n - p - 1), Pow2(j));
        Pow2Add(n - p - 1, j);
      } else if n + j > p {
        var k := n + j - p;
        assert Pow2(k) == 2 * Pow2(k - 1) by { Pow2Add(1, k - 1); Pow2Small(); }
        Pow2Add(j - k, k);
        Associate(x, Pow2(j - k), Pow2(k));
        RoundAtMultiple(x * Pow2(j - k), Pow2(k - 1));
      }
    }
  }

  lemma BitLenZero()
    ensures BitLen(0) == 0
  {
  }

  /** A prefix of the bits with everything below collected in its last bit. */
  function WithSticky(m: nat, sticky: bool): nat {
    if sticky && m % 2 == 0 then m + 1 else m
  }

  /** Rounding away the last two bits of such a prefix rounds the whole number. */
  lemma StickyRounds(x: nat, e: nat)
    requires e >= 1
    ensures x / e >= 0
    ensures RoundAt(WithSticky(x / e, x % e != 0), 2) * e == RoundAt(x, 2 * e)
  {
    DivDiv(x, e, 4);
    QuotientNat(x, e);
    var m0, s := x / e, x % e;
    var m, q, t := WithSticky(m0, s != 0), m0 / 4, m0 % 4;
    QuotientNat(x, 4 * e);
    Associate(q, 4, e);
    Associate(q + 1, 4, e);
    assert m / 4 == q && m % 4 == (if s != 0 && t % 2 == 0 then t + 1 else t);
    StickyDecision(x, e, s, t);
  }

  /** Where the cut-off part lies relative to the half step. */
  lemma StickyDecision(x: nat, e: nat, s: nat, t: nat)
    requires e >= 1 && s < e && t < 4 && x % (e * 4) == s + e * t
    ensures 2 * (2 * e) == e * 4
    ensures x % (4 * e) > 2 * e <==> (if s != 0 && t % 2 == 0 then t + 1 else t) > 2
    ensures x % (4 * e) == 2 * e <==> (if s != 0 && t % 2 == 0 then t + 1 else t) == 2
  {
    if t == 0 {
      assert e * t == 0;
    } else if t == 1 {
      assert e * t == e;
    } else if t == 2 {
      assert e * t == 2 * e;
    } else {
      assert e * t == 3 * e;
    }
  }
}
