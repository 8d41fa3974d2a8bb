/**
Unsigned machine words as natural numbers: powers of two, quotients and remainders, and the
bitwise operators of C given by recursion on the binary digits.  A shift left is a
multiplication by a power of two, a shift right a floor division, and a mask a remainder;
the lemmas below say how the bitwise operators behave under those.
 */
module Bits {

  // ---------------------------------------------------------------------------
  // Powers of two, quotients and remainders.
  // ---------------------------------------------------------------------------

  function Pow2(n: nat): (r: nat)
    ensures r >= 1
  {
    if n == 0 then 1 else 2 * Pow2(n - 1)
  }

  lemma {:induction false} Pow2Add(m: nat, n: nat)
    ensures Pow2(m + n) == Pow2(m) * Pow2(n)
  {
    if m > 0 {
      Pow2Add(m - 1, n);
      assert 2 * Pow2(m - 1) * Pow2(n) == 2 * (Pow2(m - 1) * Pow2(n));
    }
  }

  lemma {:induction false} Pow2Monotone(m: nat, n: nat)
    requires m <= n
    ensures Pow2(m) <= Pow2(n)
    ensures m < n ==> 2 * Pow2(m) <= Pow2(n)
  {
    if m < n {
      Pow2Monotone(m, n - 1);
    }
  }

  lemma Pow2Small()
    ensures Pow2(1) == 2 && Pow2(2) == 4 && Pow2(3) == 8 && Pow2(4) == 16 && Pow2(5) == 32 && Pow2(6) == 64
    ensures Pow2(7) == 128 && Pow2(8) == 256
  {
  }

  lemma Pow2Words()
    ensures Pow2(8) == 0x100
    ensures Pow2(16) == 0x1_0000
    ensures Pow2(24) == 0x100_0000
    ensures Pow2(32) == 0x1_0000_0000
    ensures Pow2(63) == 0x8000_0000_0000_0000
    ensures Pow2(64) == 0x1_0000_0000_0000_0000
  {
    Pow2Small();
    Pow2Add(8, 8);
    Pow2Add(8, 16);
    Pow2Add(16, 16);
    Pow2Add(32, 32);
  }

  lemma MulMonotone(a: int, b: int, c: nat)
    requires a <= b
    ensures a * c <= b * c
  {
  }

  lemma MulBound(a: nat, b: nat, m: nat, n: nat)
    requires a <= m && b <= n
    ensures 0 <= a * b <= m * n
  {
    MulMonotone(0, a, b);
    MulMonotone(a, m, b);
    MulMonotone(b, n, m);
  }

  lemma Distribute(a: int, b: int, c: int)
    ensures (a + b) * c == a * c + b * c
    ensures (a - b) * c == a * c - b * c
    ensures a * c == c * a
  {
  }

  lemma Associate(a: int, b: int, c: int)
    ensures (a * b) * c == a * (b * c)
    ensures (a * b) * c == (a * c) * b
  {
  }

  /** Quotient and remainder are determined by the division equation. */
  lemma DivModUnique(x: int, d: int, q: int, r: int)
    requires d > 0 && x == q * d + r && 0 <= r < d
    ensures x / d == q && x % d == r
  {
    var q', r' := x / d, x % d;
    assert x == d * q' + r' && 0 <= r' < d;
    Distribute(q, q', d);
    Distribute(q', q, d);
    if q > q' {
      MulMonotone(1, q - q', d);
    } else if q < q' {
      MulMonotone(1, q' - q, d);
    }
  }

  /** Dividing in two steps. */
  lemma DivDiv(x: nat, a: nat, b: nat)
    requires a > 0 && b > 0
    ensures a * b > 0
    ensures x / (a * b) == x / a / b
    ensures x % (a * b) == x % a + a * (x / a % b)
  {
    var q, r := x / a, x % a;
    var q', r' := q / b, q % b;
    assert x == a * q + r && q == b * q' + r';
    MulMonotone(1, b, a);
    Distribute(q' * b, r', a);
    Associate(q', b, a);
    MulMonotone(r', b - 1, a);
    Distribute(b, 1, a);
    DivModUnique(x, a * b, q', r' * a + r);
  }

  /** Halving before dividing by half as much. */
  lemma HalfDivMod(x: nat, p: nat)
    requires p > 0
    ensures x / (2 * p) == x / 2 / p
    ensures x % (2 * p) / 2 == x / 2 % p
    ensures x % (2 * p) % 2 == x % 2
  {
    DivDiv(x, 2, p);
  }

  lemma ModAddMultiple(x: int, k: int, d: int)
    requires d > 0
    ensures (x + k * d) % d == x % d
    ensures (x + k * d) / d == x / d + k
  {
    Distribute(x / d, k, d);
    assert x == d * (x / d) + x % d;
    DivModUnique(x + k * d, d, x / d + k, x % d);
  }

  lemma MulDivCancel(x: int, d: int)
    requires d > 0
    ensures x * d / d == x && x * d % d == 0
  {
    DivModUnique(x * d, d, x, 0);
  }

  /** The C operator `x >> k`. */
  function Shr(x: nat, k: nat): nat {
    if k == 0 then x else Shr(x / 2, k - 1)
  }

  lemma {:induction false} ShrIsDiv(x: nat, k: nat)
    ensures Shr(x, k) == x / Pow2(k)
  {
    if k > 0 {
      HalfDivMod(x, Pow2(k - 1));
      ShrIsDiv(x / 2, k - 1);
    }
  }

  /** The C operator `x << k` before it is cut to the width of a word. */
  function Shl(x: nat, k: nat): nat
    decreases k
  {
    if k == 0 then x else Shl(2 * x, k - 1)
  }

  lemma {:induction false} ShlIsMul(x: nat, k: nat)
    ensures Shl(x, k) == x * Pow2(k)
    decreases k
  {
    if k > 0 {
      ShlIsMul(2 * x, k - 1);
      Associate(x, 2, Pow2(k - 1));
    }
  }

  lemma {:induction false} ShlBound(x: nat, k: nat, n: nat)
    requires x < Pow2(n)
    ensures Shl(x, k) < Pow2(n + k)
    decreases k
  {
    if k > 0 {
      ShlBound(2 * x, k - 1, n + 1);
    }
  }

  lemma ShlOne(k: nat)
    ensures Shl(1, k) == Pow2(k)
    ensures Shl(0, k) == 0
  {
    ShlIsMul(1, k);
    ShlIsMul(0, k);
  }

  // ---------------------------------------------------------------------------
  // Bitwise operators.
  // ---------------------------------------------------------------------------

  function And(a: nat, b: nat): nat {
    if a == 0 || b == 0 then 0
    else (a % 2) * (b % 2) + 2 * And(a / 2, b / 2)
  }

  function Or(a: nat, b: nat): nat {
    if a == 0 then b else if b == 0 then a
    else (if a % 2 == 1 || b % 2 == 1 then 1 else 0) + 2 * Or(a / 2, b / 2)
  }

  function Xor(a: nat, b: nat): nat {
    if a == 0 then b else if b == 0 then a
    else (if a % 2 != b % 2 then 1 else 0) + 2 * Xor(a / 2, b / 2)
  }

  // Masking.

  /** `x & (2^k - 1)` keeps the low `k` bits. */
  lemma {:induction false} AndLowMask(x: nat, k: nat)
    ensures And(x, Pow2(k) - 1) == x % Pow2(k)
  {
    if k == 0 {
    } else {
      var p := Pow2(k - 1);
      HalfDivMod(x, p);
      assert (Pow2(k) - 1) / 2 == p - 1 && (Pow2(k) - 1) % 2 == 1;
      AndLowMask(x / 2, k - 1);
      if x == 0 {
        DivModUnique(0, Pow2(k), 0, 0);
      }
    }
  }

  /** `x & ~(2^k - 1)` in a word of `n` bits clears the low `k` bits. */
  lemma {:induction false} AndHighMask(x: nat, k: nat, n: nat)
    requires k <= n && x < Pow2(n)
    ensures Pow2(k) <= Pow2(n)
    ensures And(x, Pow2(n) - Pow2(k)) == x - x % Pow2(k)
  {
    Pow2Monotone(k, n);
    if k == 0 {
      AndLowMask(x, n);
      DivModUnique(x, Pow2(n), 0, x);
    } else {
      var p, q := Pow2(k - 1), Pow2(n - 1);
      HalfDivMod(x, p);
      AndHighMask(x / 2, k - 1, n - 1);
      assert (Pow2(n) - Pow2(k)) / 2 == q - p && (Pow2(n) - Pow2(k)) % 2 == 0;
      if x == 0 {
        DivModUnique(0, Pow2(k), 0, 0);
      }
    }
  }

  // Joining disjoint bits.

  /** Oring low bits into a number whose low bits are clear is an addition. */
  lemma {:induction false} OrDisjoint(h: nat, l: nat, k: nat)
    requires l < Pow2(k)
    ensures Or(h * Pow2(k), l) == h * Pow2(k) + l
  {
    if k > 0 && h > 0 && l > 0 {
      var p := Pow2(k - 1);
      Associate(h, 2, p);
      MulMonotone(1, h, p);
      OrDisjoint(h, l / 2, k - 1);
    } else if h == 0 {
    }
  }

  /** Oring the same low bits in the other order. */
  lemma {:induction false} OrComm(a: nat, b: nat)
    ensures Or(a, b) == Or(b, a)
  {
    if a != 0 && b != 0 {
      OrComm(a / 2, b / 2);
    }
  }

  lemma {:induction false} OrBound(a: nat, b: nat, k: nat)
    requires a < Pow2(k) && b < Pow2(k)
    ensures Or(a, b) < Pow2(k)
  {
    if a != 0 && b != 0 {
      OrBound(a / 2, b / 2, k - 1);
    }
  }

  /** Setting one bit that is clear. */
  lemma {:induction false} OrSetBit(x: nat, k: nat)
    requires Shr(x, k) % 2 == 0
    ensures Or(x, Pow2(k)) == x + Pow2(k)
  {
    if k == 0 {
    } else if x != 0 {
      OrSetBit(x / 2, k - 1);
    }
  }

  // Exclusive or.

  lemma XorZero(a: nat)
    ensures Xor(a, 0) == a && Xor(0, a) == a
  {
  }

  lemma XorDigits(a: nat, b: nat)
    ensures Xor(a, b) % 2 == (if a % 2 != b % 2 then 1 else 0)
    ensures Xor(a, b) / 2 == Xor(a / 2, b / 2)
  {
    var rest := Xor(a / 2, b / 2);
    if a == 0 || b == 0 {
      XorZero(a / 2);
      XorZero(b / 2);
    } else {
      assert Xor(a, b) == (if a % 2 != b % 2 then 1 else 0) + 2 * rest;
    }
  }

  lemma {:induction false} XorComm(a: nat, b: nat)
    ensures Xor(a, b) == Xor(b, a)
  {
    if a != 0 && b != 0 {
      XorComm(a / 2, b / 2);
    }
  }

  lemma {:induction false} XorAssoc(a: nat, b: nat, c: nat)
    ensures Xor(Xor(a, b), c) == Xor(a, Xor(b, c))
  {
    if a != 0 && b != 0 && c != 0 {
      XorDigits(a, b);
      XorDigits(b, c);
      XorDigits(Xor(a, b), c);
      XorDigits(a, Xor(b, c));
      XorAssoc(a / 2, b / 2, c / 2);
    }
  }

  lemma {:induction false} XorSelf(a: nat)
    ensures Xor(a, a) == 0
  {
    if a != 0 {
      XorSelf(a / 2);
    }
  }

  /** Exchanging the middle terms of a double sum. */
  lemma XorExchange(a: nat, b: nat, c: nat, d: nat)
    ensures Xor(Xor(a, b), Xor(c, d)) == Xor(Xor(a, c), Xor(b, d))
  {
    XorAssoc(a, b, Xor(c, d));
    XorAssoc(b, c, d);
    XorComm(b, c);
    XorAssoc(c, b, d);
    XorAssoc(a, c, Xor(b, d));
  }

  lemma XorCancel(a: nat, b: nat)
    ensures Xor(Xor(a, b), b) == a
  {
    XorAssoc(a, b, b);
    XorSelf(b);
  }

  lemma {:induction false} XorBound(a: nat, b: nat, k: nat)
    requires a < Pow2(k) && b < Pow2(k)
    ensures Xor(a, b) < Pow2(k)
  {
    if a != 0 && b != 0 {
      XorBound(a / 2, b / 2, k - 1);
    }
  }

  /** Xor acts on the high and on the low bits separately. */
  lemma {:induction false} XorHigh(a: nat, b: nat, k: nat)
    ensures Shr(Xor(a, b), k) == Xor(Shr(a, k), Shr(b, k))
  {
    if k > 0 {
      XorDigits(a, b);
      XorHigh(a / 2, b / 2, k - 1);
    }
  }

  /** Joining disjoint bits by xor is an addition. */
  lemma {:induction false} XorDisjoint(h: nat, l: nat, k: nat)
    requires l < Pow2(k)
    ensures Xor(h * Pow2(k), l) == h * Pow2(k) + l
  {
    if k > 0 && h > 0 && l > 0 {
      var p := Pow2(k - 1);
      Associate(h, 2, p);
      MulMonotone(1, h, p);
      XorDisjoint(h, l / 2, k - 1);
    } else if h == 0 {
    }
  }

  lemma XorDouble(a: nat, b: nat)
    ensures Xor(2 * a, 2 * b) == 2 * Xor(a, b)
  {
    XorDigits(2 * a, 2 * b);
  }

  /** Xor commutes with shifting left. */
  lemma {:induction false} XorShl(a: nat, b: nat, k: nat)
    ensures Xor(Shl(a, k), Shl(b, k)) == Shl(Xor(a, b), k)
    decreases k
  {
    if k > 0 {
      XorDouble(a, b);
      XorShl(2 * a, 2 * b, k - 1);
    }
  }

  /** The lowest bit and the rest. */
  lemma XorLowBit(v: nat)
    ensures Xor(v % 2, 2 * (v / 2)) == v
  {
    XorDigits(v % 2, 2 * (v / 2));
  }
}
