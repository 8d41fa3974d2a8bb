/**
Shifts at an arbitrary bit width (src/APInt.c), for every shift operand: amounts at or above
the width, however large, behave like the mathematical shift.
 */
module ApShift {
  import opened Basics
  import opened Bits
  import opened Words
  import opened WordShift
  import opened ApWidth
  import opened ApAddSub

  /** The amount the code shifts by instead of `y`. */
  function Clamp(y: nat, n: nat): nat {
    if y >= n then n else y
  }

  lemma ShlClamped(x: nat, y: nat, n: nat)
    ensures x * Pow2(Clamp(y, n)) % Pow2(n) == x * Pow2(y) % Pow2(n)
  {
    hide Pow2;
    if y >= n {
      Pow2Add(y - n, n);
      Associate(x, Pow2(y - n), Pow2(n));
      MulDivCancel(x * Pow2(y - n), Pow2(n));
      MulDivCancel(x, Pow2(n));
    }
  }

  lemma FloorOfSmall(v: int, d: nat)
    requires 0 - d <= v < d
    ensures v / d == if v < 0 then -1 else 0
  {
    if v < 0 {
      DivModUnique(v, d, -1, v + d);
    } else {
      DivModUnique(v, d, 0, v);
    }
  }

  lemma ShrClamped(v: int, y: nat, n: nat)
    requires 0 - Pow2(n) <= v < Pow2(n)
    ensures v / Pow2(Clamp(y, n)) == v / Pow2(y)
  {
    hide Pow2;
    if y >= n {
      Pow2Monotone(n, y);
      FloorOfSmall(v, Pow2(n));
      FloorOfSmall(v, Pow2(y));
    }
  }

  /** Left shift: multiplication by 2^y modulo 2^n. */
  method Shl(numbits: nat, pa: array<Byte>, pb: array<Byte>, pr: array<Byte>)
    requires IsWidth(numbits)
    requires pa.Length >= NBytes(numbits) && pb.Length >= NBytes(numbits) && pr.Length >= NBytes(numbits)
    modifies pr
    ensures Unsigned(pr[..], numbits)
         == old(Unsigned(pa[..], numbits)) * Pow2(old(Unsigned(pb[..], numbits))) % Pow2(numbits)
  {
    hide Val, Base, Pow2, Unsigned, NBytes, NWords;
    var a := Load(pa, numbits);
    var b := Load(pb, numbits);
    WidthNonempty(numbits);
    var r := new Word[NWords(numbits)];
    ghost var x, y := Val(a[..]), Val(b[..]);
    var shift := ExtractShift(b, numbits);
    ShlN(r, a, shift);
    WordsThenMask(x * Pow2(shift), Val(r[..]), numbits);
    ModRange(x * Pow2(shift), Pow2(numbits));
    ShlClamped(x, y, numbits);
    MaskTop(r, numbits);
    Store(pr, r, numbits);
  }

  lemma WidthNonempty(numbits: nat)
    requires numbits >= 1
    ensures NWords(numbits) >= 1
  {
  }

  lemma FloorInRange(v: int, d: nat, B: nat)
    requires d >= 1 && 0 - B <= v < B
    ensures 0 - B <= v / d < B && (v < 0 <==> v / d < 0)
  {
    var q := v / d;
    assert v == d * q + v % d;
    if v < 0 {
      if q >= 0 {
        MulMonotone(0, q, d);
      }
      if q < 0 - B {
        MulMonotone(q, 0 - B - 1, d);
        Distribute(0 - B, 1, d);
        MulMonotone(1, d, B);
      }
    } else {
      if q < 0 {
        MulMonotone(q, -1, d);
      }
      if q >= B {
        MulMonotone(B, q, d);
        MulMonotone(1, d, B);
      }
    }
  }

  lemma ExtendedIsResidue(q: int, u: nat, neg: bool, B: nat)
    requires 0 - B <= q < B && (neg <==> q < 0) && q == u - (if neg then B else 0)
    ensures u == q % B
  {
    DivModUnique(q, B, if neg then -1 else 0, u);
  }

  /** Right shift: floor division of the unsigned or of the signed reading by 2^y. */
  method ShrOp(numbits: nat, pa: array<Byte>, pb: array<Byte>, pr: array<Byte>, isSigned: bool)
    requires IsWidth(numbits)
    requires pa.Length >= NBytes(numbits) && pb.Length >= NBytes(numbits) && pr.Length >= NBytes(numbits)
    modifies pr
    ensures Unsigned(pr[..], numbits)
         == Reading(old(Unsigned(pa[..], numbits)), numbits, isSigned) / Pow2(old(Unsigned(pb[..], numbits)))
            % Pow2(numbits)
  {
    hide Val, Base, Pow2, Unsigned, NBytes, NWords, Extended;
    var a := Load(pa, numbits);
    var b := Load(pb, numbits);
    WidthNonempty(numbits);
    var nw := NWords(numbits);
    var r := new Word[nw];
    ghost var x, y := Val(a[..]), Val(b[..]);
    ghost var v := Reading(x, numbits, isSigned);
    var shift := ExtractShift(b, numbits);
    var neg := IsNegative(a, numbits);
    neg := isSigned && neg;
    assert Pow2(numbits) == 2 * Pow2(numbits - 1) by { Pow2Add(1, numbits - 1); Pow2Small(); }
    WidthWeight(numbits);
    if neg {
      assert a[..nw] == a[..];
      Extend(a, numbits, isSigned);
    }
    ExtendedOf(a[..], v, neg);
    ShrN(r, a, shift, neg);
    ghost var q := v / Pow2(shift);
    FloorInRange(v, Pow2(shift), Base(nw));
    ExtendedIs(r[..], neg);
    ExtendedIsResidue(q, Val(r[..]), neg, Base(nw));
    WordsThenMask(q, Val(r[..]), numbits);
    ModRange(q, Pow2(numbits));
    ShrClamped(v, y, numbits);
    MaskTop(r, numbits);
    Store(pr, r, numbits);
  }

  lemma ExtendedIs(s: seq<Word>, neg: bool)
    ensures Extended(s, neg) == Val(s) - (if neg then Base(|s|) else 0)
  {
  }

  lemma ExtendedOf(s: seq<Word>, v: int, neg: bool)
    requires Val(s) == if neg then v + Base(|s|) else v
    ensures Extended(s, neg) == v
  {
  }

  /** The arithmetic shift read back as a signed number: exact, no reduction happens. */
  lemma ArithmeticShiftExact(x: nat, y: nat, n: nat)
    requires n >= 1 && x < Pow2(n)
    ensures (Signed(x, n) / Pow2(y)) % Pow2(n) >= 0
    ensures Signed((Signed(x, n) / Pow2(y)) % Pow2(n), n) == Signed(x, n) / Pow2(y)
  {
    SignedIsCongruent(x, n);
    FloorInRange(Signed(x, n), Pow2(y), Pow2(n - 1));
    SignedOfResidue(Signed(x, n) / Pow2(y), n);
  }

  /** The logical shift never needs the reduction. */
  lemma LogicalShiftExact(x: nat, y: nat, n: nat)
    requires x < Pow2(n)
    ensures (x / Pow2(y)) % Pow2(n) == x / Pow2(y)
  {
    hide Pow2;
    FloorInRange(x, Pow2(y), Pow2(n));
    DivModUnique(x / Pow2(y), Pow2(n), 0, x / Pow2(y));
  }
}
