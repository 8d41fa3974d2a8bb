/**
Checked addition and subtraction and negation at an arbitrary bit width (src/APInt.c).  The
overflow flags are computed from three sign bits only.
 */
module ApAddSub {
  import opened Basics
  import opened Bits
  import opened Words
  import opened WordArith
  import opened ApWidth

  /** The signed range of an n-bit integer. */
  predicate FitsSigned(v: int, n: nat)
    requires n >= 1
  {
    0 - Pow2(n - 1) <= v < Pow2(n - 1)
  }

  predicate FitsUnsigned(v: int, n: nat) {
    0 <= v < Pow2(n)
  }

  /** Reduction modulo a power of two that divides the modulus already used. */
  lemma ModOfMod(x: int, m: nat, k: nat)
    requires m >= 1 && k >= 1
    ensures m * k > 0 && x % (m * k) % m == x % m
  {
    MulMonotone(1, k, m);
    var q, r := x / (m * k), x % (m * k);
    assert x == m * k * q + r;
    Associate(m, k, q);
    Distribute(k * q, 0, m);
    ModAddMultiple(r, k * q, m);
  }

  /** What is computed in whole words and then masked is exact modulo 2^n. */
  lemma WordsThenMask(x: int, y: nat, numbits: nat)
    requires numbits >= 1 && y == x % Base(NWords(numbits))
    ensures y % Pow2(numbits) == x % Pow2(numbits)
  {
    hide Base, Pow2;
    var nw := NWords(numbits);
    BaseIsPow2(nw);
    Pow2Add(numbits, 64 * nw - numbits);
    ModOfMod(x, Pow2(numbits), Pow2(64 * nw - numbits));
  }

  /** Negation modulo 2^n. */
  method Negate(r: array<Word>, a: array<Word>, numbits: nat)
    requires numbits >= 1 && r.Length == a.Length == NWords(numbits)
    modifies r
    ensures Val(r[..]) == (0 - old(Val(a[..]))) % Pow2(numbits)
  {
    hide Val, Base, Pow2;
    ghost var x: int := Val(a[..]);
    var nw := r.Length;
    ValBound(a[..]);
    NegateWords(r, a);
    if x == 0 {
      DivModUnique(0, Base(nw), 0, 0);
    } else {
      DivModUnique(-x, Base(nw), -1, Base(nw) - x);
    }
    WordsThenMask(-x, Val(r[..]), numbits);
    MaskTop(r, numbits);
  }

  // ---------------------------------------------------------------------------
  // The flags.
  // ---------------------------------------------------------------------------

  /** The overflow answer from the signs of the operands and of the wrapped result. */
  predicate OverflowFlag(negA: bool, negB: bool, negR: bool, isSub: bool, isSigned: bool) {
    // For subtraction the sign of b is flipped, not the sign of -b.
    var negB' := if isSub then !negB else negB;
    if isSigned then negA == negB' && negA != negR
    else
      var carry := (negA && negB') || ((negA || negB') && !negR);
      if isSub then !carry else carry
  }

  lemma AddFlag(x: nat, y: nat, r: nat, n: nat, isSigned: bool)
    requires n >= 1 && x < Pow2(n) && y < Pow2(n) && r == (x + y) % Pow2(n)
    ensures OverflowFlag(x >= Pow2(n - 1), y >= Pow2(n - 1), r >= Pow2(n - 1), false, isSigned)
       <==> !(if isSigned then FitsSigned(Signed(x, n) + Signed(y, n), n) else FitsUnsigned(x + y, n))
  {
    var h := Pow2(n - 1);
    if x + y < 2 * h {
      DivModUnique(x + y, 2 * h, 0, x + y);
    } else {
      DivModUnique(x + y, 2 * h, 1, x + y - 2 * h);
    }
  }

  lemma SubFlag(x: nat, y: nat, r: nat, n: nat, isSigned: bool)
    requires n >= 1 && x < Pow2(n) && y < Pow2(n) && r == (x - y) % Pow2(n)
    ensures OverflowFlag(x >= Pow2(n - 1), y >= Pow2(n - 1), r >= Pow2(n - 1), true, isSigned)
       <==> !(if isSigned then FitsSigned(Signed(x, n) - Signed(y, n), n) else FitsUnsigned(x - y, n))
  {
    var h := Pow2(n - 1);
    if x >= y {
      DivModUnique(x - y, 2 * h, 0, x - y);
    } else {
      DivModUnique(x - y, 2 * h, -1, x - y + 2 * h);
    }
  }

  /** Wrapped arithmetic on unsigned readings is wrapped arithmetic on signed readings. */
  lemma SignedIsCongruent(x: nat, n: nat)
    requires n >= 1 && x < Pow2(n)
    ensures Signed(x, n) % Pow2(n) == x
    ensures FitsSigned(Signed(x, n), n)
  {
    var m := Pow2(n);
    if x < Pow2(n - 1) {
      DivModUnique(x, m, 0, x);
    } else {
      DivModUnique(x - m, m, -1, x);
    }
  }

  /** A value in range is recovered from its residue. */
  lemma SignedOfResidue(v: int, n: nat)
    requires n >= 1 && FitsSigned(v, n)
    ensures v % Pow2(n) >= 0 && Signed(v % Pow2(n), n) == v
  {
    var m := Pow2(n);
    if v >= 0 {
      DivModUnique(v, m, 0, v);
    } else {
      DivModUnique(v, m, -1, v + m);
    }
  }

  /** The exact sum or difference, of the readings the operation is asked about. */
  ghost function Exact(x: nat, y: nat, n: nat, isSub: bool, isSigned: bool): int
    requires n >= 1
  {
    var a := if isSigned then Signed(x, n) else x;
    var b := if isSigned then Signed(y, n) else y;
    if isSub then a - b else a + b
  }

  ghost predicate Fits(v: int, n: nat, isSigned: bool)
    requires n >= 1
  {
    if isSigned then FitsSigned(v, n) else FitsUnsigned(v, n)
  }

  /** The sum of the unsigned readings and of the signed readings agree modulo 2^n. */
  lemma ExactIsCongruent(x: nat, y: nat, n: nat, isSub: bool, isSigned: bool)
    requires n >= 1 && x < Pow2(n) && y < Pow2(n)
    ensures Exact(x, y, n, isSub, isSigned) % Pow2(n) == (if isSub then x - y else x + y) % Pow2(n)
  {
    var m: int := Pow2(n);
    var u: int := if isSub then x - y else x + y;
    var k := (Exact(x, y, n, isSub, isSigned) - u);
    assert k == 0 || k == m || k == -m || k == 2 * m || k == -2 * m;
    ModAddMultiple(u, 1, m);
    ModAddMultiple(u, -1, m);
    ModAddMultiple(u, 2, m);
    ModAddMultiple(u, -2, m);
  }

  /** Checked add or subtract: the wrapped result in memory, and whether it is not exact. */
  method AddSubOv(numbits: nat, pa: array<Byte>, pb: array<Byte>, pr: array<Byte>, isSub: bool, isSigned: bool)
      returns (overflow: bool)
    requires IsWidth(numbits)
    requires pa.Length >= NBytes(numbits) && pb.Length >= NBytes(numbits) && pr.Length >= NBytes(numbits)
    modifies pr
    ensures var x, y := old(Unsigned(pa[..], numbits)), old(Unsigned(pb[..], numbits));
            && Unsigned(pr[..], numbits) == Exact(x, y, numbits, isSub, isSigned) % Pow2(numbits)
            && overflow == !Fits(Exact(x, y, numbits, isSub, isSigned), numbits, isSigned)
  {
    hide Val, Pow2, Unsigned, Signed, Shr, Exact, Fits, OverflowFlag, NWords, NBytes;
    var a := Load(pa, numbits);
    var b := Load(pb, numbits);
    var r := new Word[NWords(numbits)];
    ghost var x, y := Val(a[..]), Val(b[..]);
    var negA := IsNegative(a, numbits);
    var negB := IsNegative(b, numbits);
    AddSubMasked(r, a, b, numbits, isSub);
    var negR := IsNegative(r, numbits);
    Store(pr, r, numbits);
    ExactIsCongruent(x, y, numbits, isSub, isSigned);
    Flag(x, y, Val(r[..]), numbits, isSub, isSigned);
    overflow := OverflowFlag(negA, negB, negR, isSub, isSigned);
  }

  lemma Flag(x: nat, y: nat, r: nat, n: nat, isSub: bool, isSigned: bool)
    requires n >= 1 && x < Pow2(n) && y < Pow2(n) && r == (if isSub then x - y else x + y) % Pow2(n)
    ensures OverflowFlag(x >= Pow2(n - 1), y >= Pow2(n - 1), r >= Pow2(n - 1), isSub, isSigned)
         == !Fits(Exact(x, y, n, isSub, isSigned), n, isSigned)
  {
    hide Pow2, OverflowFlag;
    if isSub {
      SubFlag(x, y, r, n, isSigned);
    } else {
      AddFlag(x, y, r, n, isSigned);
    }
  }

  lemma CarryIsQuotient(v: nat, carry: nat, x: int, y: int, B: nat, isSub: bool)
    requires v < B && v + carry * B == x + (if isSub then B - y else y)
    ensures v == (if isSub then x - y else x + y) % B
  {
    var k: int := carry;
    Distribute(k, 1, B);
    if isSub {
      DivModUnique(x - y, B, k - 1, v);
    } else {
      DivModUnique(x + y, B, k, v);
    }
  }

  /** Word-level addition or subtraction, then the mask. */
  method AddSubMasked(r: array<Word>, a: array<Word>, b: array<Word>, numbits: nat, isSub: bool)
    requires numbits >= 1 && r.Length == a.Length == b.Length == NWords(numbits) && r != a && r != b
    modifies r
    ensures Val(r[..]) == (if isSub then Val(a[..]) - Val(b[..]) else Val(a[..]) + Val(b[..])) % Pow2(numbits)
    ensures Val(r[..]) < Pow2(numbits)
  {
    hide Val, Base, Pow2;
    ghost var x: int, y: int := Val(a[..]), Val(b[..]);
    var carry := AddSubWords(r, a, b, isSub);
    ValBound(r[..]);
    CarryIsQuotient(Val(r[..]), carry, x, y, Base(r.Length), isSub);
    WordsThenMask(if isSub then x - y else x + y, Val(r[..]), numbits);
    ModRange(Val(r[..]), Pow2(numbits));
    MaskTop(r, numbits);
  }

  lemma ModRange(x: int, m: nat)
    requires m >= 1
    ensures 0 <= x % m < m
  {
  }
}
