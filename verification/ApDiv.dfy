/**
Division with remainder at an arbitrary bit width, unsigned and signed (src/APInt.c).  The
signed form divides magnitudes; the overflow answer recognises the minimum value divided by
minus one from trailing zeros and all-ones words.
 */
module ApDiv {
  import opened Basics
  import opened Bits
  import opened Words
  import opened WordArith
  import opened WordDiv
  import opened ApWidth
  import opened ApAddSub

  // ---------------------------------------------------------------------------
  // Truncated division.
  // ---------------------------------------------------------------------------

  function Abs(a: int): nat {
    if a < 0 then -a else a
  }

  function AbsDiv(a: int, b: int): nat
    requires b != 0
  {
    DivisionParts(Abs(a), Abs(b));
    Abs(a) / Abs(b)
  }

  function TruncDiv(a: int, b: int): int
    requires b != 0
  {
    if (a < 0) != (b < 0) then 0 - AbsDiv(a, b) else AbsDiv(a, b)
  }

  function TruncRem(a: int, b: int): int
    requires b != 0
  {
    if a < 0 then 0 - Abs(a) % Abs(b) else Abs(a) % Abs(b)
  }

  lemma DivisionParts(x: nat, y: nat)
    requires y > 0
    ensures 0 <= x / y <= x && x == y * (x / y) + x % y
  {
    var q := x / y;
    assert x == y * q + x % y;
    if q < 0 {
      MulMonotone(q, -1, y);
    } else {
      MulMonotone(1, y, q);
    }
  }

  /** What truncation toward zero means: the remainder has the dividend's sign and is small. */
  lemma TruncDivRem(a: int, b: int)
    requires b != 0
    ensures a == TruncDiv(a, b) * b + TruncRem(a, b)
    ensures Abs(TruncRem(a, b)) < Abs(b)
    ensures TruncRem(a, b) == 0 || (TruncRem(a, b) < 0 <==> a < 0)
    ensures Abs(TruncDiv(a, b) * b) <= Abs(a)
  {
    var q := AbsDiv(a, b);
    DivisionParts(Abs(a), Abs(b));
    assert TruncDiv(a, b) * b == (if a < 0 then 0 - Abs(b) * q else Abs(b) * q);
  }

  /** Quotient and remainder with those properties are unique. */
  lemma TruncDivUnique(a: int, b: int, q: int, r: int)
    requires b != 0 && a == q * b + r && Abs(r) < Abs(b) && (r == 0 || (r < 0 <==> a < 0))
    ensures q == TruncDiv(a, b) && r == TruncRem(a, b)
  {
    TruncDivRem(a, b);
    var q', r' := TruncDiv(a, b), TruncRem(a, b);
    Distribute(q, q', b);
    assert (q - q') * b == r' - r;
    assert Abs(r' - r) < Abs(b);
    SmallMultiple(q - q', b);
  }

  lemma SmallMultiple(k: int, b: int)
    requires b != 0 && Abs(k * b) < Abs(b)
    ensures k == 0
  {
    var x, y := Abs(k), Abs(b);
    assert Abs(k * b) == x * y;
    if x >= 1 {
      MulMonotone(1, x, y);
    }
  }

  // ---------------------------------------------------------------------------
  // Signed division of word arrays.
  // ---------------------------------------------------------------------------

  /** The magnitude of an n-bit two's complement number. */
  lemma Magnitude(x: nat, n: nat)
    requires n >= 1 && x < Pow2(n)
    ensures (if x >= Pow2(n - 1) then (0 - x) % Pow2(n) else x) == Abs(Signed(x, n)) < Pow2(n)
  {
    if x >= Pow2(n - 1) {
      DivModUnique(0 - x, Pow2(n), -1, Pow2(n) - x);
    }
  }

  method Absolute(a: array<Word>, numbits: nat) returns (m: array<Word>, neg: bool)
    requires numbits >= 1 && a.Length == NWords(numbits) && Val(a[..]) < Pow2(numbits)
    ensures fresh(m) && m.Length == a.Length
    ensures neg <==> Signed(Val(a[..]), numbits) < 0
    ensures Val(m[..]) == Abs(Signed(Val(a[..]), numbits)) < Pow2(numbits)
  {
    hide Val, Pow2, NWords, Shr;
    m := new Word[a.Length];
    neg := IsNegative(a, numbits);
    Magnitude(Val(a[..]), numbits);
    if neg {
      Negate(m, a, numbits);
    } else {
      for i := 0 to a.Length
        invariant a[..] == old(a[..]) && m[..i] == a[..i]
      {
        m[i] := a[i];
      }
      assert m[..] == a[..];
    }
  }

  method SDivRem(q: array<Word>, rem: array<Word>, a: array<Word>, b: array<Word>, numbits: nat)
    requires 1 <= numbits < 0x8000_0000 && q.Length == rem.Length == a.Length == b.Length == NWords(numbits)
    requires q != rem && q != a && q != b && rem != a && rem != b
    requires Val(a[..]) < Pow2(numbits) && Val(b[..]) < Pow2(numbits) && Val(b[..]) != 0
    modifies q, rem
    ensures Signed(Val(b[..]), numbits) != 0
    ensures Val(q[..]) == TruncDiv(Signed(Val(a[..]), numbits), Signed(Val(b[..]), numbits)) % Pow2(numbits)
    ensures Val(rem[..]) == TruncRem(Signed(Val(a[..]), numbits), Signed(Val(b[..]), numbits)) % Pow2(numbits)
  {
    hide Val, Pow2, Signed, NWords;
    ghost var x, y, m := Signed(Val(a[..]), numbits), Signed(Val(b[..]), numbits), Pow2(numbits);
    SignedNonzero(Val(b[..]), numbits);
    var absA, negA := Absolute(a, numbits);
    var absB, negB := Absolute(b, numbits);
    assert numbits <= 64 * a.Length by { WidthInWords(numbits); }
    UDivRem(q, rem, absA, absB, numbits);
    UnsignedDivision(Val(q[..]), Val(rem[..]), Abs(x), Abs(y), m);
    if negA != negB {
      Negate(q, q, numbits);
    }
    if negA {
      Negate(rem, rem, numbits);
    }
  }

  lemma WidthInWords(numbits: nat)
    ensures numbits <= 64 * NWords(numbits)
  {
  }

  lemma SignedNonzero(x: nat, n: nat)
    requires n >= 1 && 0 < x < Pow2(n)
    ensures Signed(x, n) != 0
  {
  }

  lemma UnsignedDivision(q: nat, r: nat, x: nat, y: nat, m: nat)
    requires 0 < y && x == q * y + r && r < y && x < m
    ensures q == x / y == q % m && r == x % y == r % m
  {
    DivModUnique(x, y, q, r);
    DivisionParts(x, y);
    MulMonotone(0, q, y);
    DivModUnique(q, m, 0, q);
    DivModUnique(r, m, 0, r);
  }

  // ---------------------------------------------------------------------------
  // Recognising the minimum value and minus one.
  // ---------------------------------------------------------------------------

  /** The number of trailing zeros of a nonzero number. */
  function TrailingZeros(x: nat): nat
    requires x > 0
  {
    if x % 2 == 1 then 0 else 1 + TrailingZeros(x / 2)
  }

  lemma {:induction false} TrailingZerosOfLow(x: nat, y: nat, k: nat)
    requires 0 < x < Pow2(k)
    ensures TrailingZeros(x + Pow2(k) * y) == TrailingZeros(x)
    decreases k
  {
    MulMonotone(0, y, Pow2(k));
    Associate(2, Pow2(k - 1), y);
    if x % 2 == 0 {
      assert (x + Pow2(k) * y) / 2 == x / 2 + Pow2(k - 1) * y;
      TrailingZerosOfLow(x / 2, y, k - 1);
    }
  }

  lemma {:induction false} TrailingZerosShift(x: nat, k: nat)
    requires x > 0
    ensures Shl(x, k) > 0 && TrailingZeros(Shl(x, k)) == k + TrailingZeros(x)
    decreases k
  {
    if k > 0 {
      TrailingZerosShift(2 * x, k - 1);
    }
  }

  lemma {:induction false} TrailingZerosDivide(x: nat)
    requires x > 0
    ensures x % Pow2(TrailingZeros(x)) == 0
  {
    if x % 2 == 0 {
      TrailingZerosDivide(x / 2);
      HalfDivMod(x, Pow2(TrailingZeros(x / 2)));
    }
  }

  /** Word by word, as the loop counts. */
  lemma TrailingZerosOfWords(s: seq<Word>)
    requires |s| > 0 && Val(s) > 0
    ensures s[0] != 0 ==> TrailingZeros(Val(s)) == TrailingZeros(s[0])
    ensures s[0] == 0 ==> Val(s[1..]) > 0 && TrailingZeros(Val(s)) == 64 + TrailingZeros(Val(s[1..]))
  {
    hide TrailingZeros, Shl, Pow2;
    Pow2Words();
    if s[0] != 0 {
      TrailingZerosOfLow(s[0], Val(s[1..]), 64);
    } else {
      TrailingZerosShift(Val(s[1..]), 64);
      ShlIsMul(Val(s[1..]), 64);
    }
  }

  method CountTrailingZeros(a: array<Word>, numbits: nat) returns (count: nat)
    ensures count == if Val(a[..]) == 0 then numbits else TrailingZeros(Val(a[..]))
  {
    hide Val, TrailingZeros;
    count := 0;
    assert a[0..] == a[..];
    for i := 0 to a.Length
      invariant count == 64 * i
      invariant Val(a[..]) == 0 <==> Val(a[i..]) == 0
      invariant Val(a[..]) != 0 ==> TrailingZeros(Val(a[..])) == count + TrailingZeros(Val(a[i..]))
    {
      ZeroWordFirst(a[i..]);
      assert a[i..][1..] == a[i + 1..];
      if Val(a[i..]) > 0 {
        TrailingZerosOfWords(a[i..]);
      }
      if a[i] != 0 {
        return count + TrailingZeros(a[i]);
      }
      count := count + 64;
    }
    ValNone(a[a.Length..]);
    return numbits;
  }

  lemma ZeroWordFirst(s: seq<Word>)
    requires |s| > 0
    ensures s[0] != 0 ==> Val(s) > 0
    ensures s[0] == 0 ==> (Val(s) == 0 <==> Val(s[1..]) == 0)
  {
  }

  /** Only one negative number has all bits but the sign clear. */
  lemma MinimumByTrailingZeros(x: nat, n: nat)
    requires n >= 1 && x < Pow2(n)
    ensures x >= Pow2(n - 1) && TrailingZeros(x) == n - 1 <==> x == Pow2(n - 1)
  {
    var h := Pow2(n - 1);
    if x >= h && TrailingZeros(x) == n - 1 {
      TrailingZerosDivide(x);
      DivModUnique(x, h, 1, x - h);
    }
    if x == h {
      ShlOne(n - 1);
      TrailingZerosShift(1, n - 1);
    }
  }

  method IsMinInt(a: array<Word>, numbits: nat) returns (r: bool)
    requires numbits >= 1 && a.Length == NWords(numbits) && Val(a[..]) < Pow2(numbits)
    ensures r <==> Val(a[..]) == Pow2(numbits - 1)
  {
    hide Val, Pow2, TrailingZeros, Shr, NWords;
    var neg := IsNegative(a, numbits);
    var count := CountTrailingZeros(a, numbits);
    r := neg && count == numbits - 1;
    if Val(a[..]) > 0 {
      MinimumByTrailingZeros(Val(a[..]), numbits);
    }
  }

  lemma AllOnesVal(s: seq<Word>, numbits: nat)
    requires numbits >= 1 && |s| == NWords(numbits)
    requires forall i :: 0 <= i < |s| - 1 ==> s[i] == 0xffff_ffff_ffff_ffff
    requires s[|s| - 1] == TopWordMask(numbits)
    ensures Val(s) == Pow2(numbits) - 1
  {
    hide Val, Base, Pow2;
    var k := |s| - 1;
    assert s[..k + 1] == s;
    ValPrefix(s, k);
    ValOnes(s[..k]);
    WidthWeight(numbits);
    Distribute(Pow2(TopBits(numbits)), 1, Base(k));
  }

  method IsNegOne(a: array<Word>, numbits: nat) returns (r: bool)
    requires numbits >= 1 && a.Length == NWords(numbits)
    ensures r <==> Val(a[..]) == Pow2(numbits) - 1
  {
    hide Val, Pow2, NWords;
    var nw := a.Length;
    assert nw >= 1 by { assert NWords(numbits) >= 1 by { WidthWeight(numbits); } }
    ghost var ones := Fill(nw - 1, 0xffff_ffff_ffff_ffff) + [TopWordMask(numbits)];
    AllOnesVal(ones, numbits);
    for i := 0 to nw - 1
      invariant forall j :: 0 <= j < i ==> a[j] == 0xffff_ffff_ffff_ffff
    {
      if a[i] != 0xffff_ffff_ffff_ffff {
        DifferentWords(a[..], ones, i);
        return false;
      }
    }
    r := a[nw - 1] == TopWordMask(numbits);
    if r {
      assert a[..] == ones;
    } else {
      DifferentWords(a[..], ones, nw - 1);
    }
  }

  lemma DifferentWords(s: seq<Word>, t: seq<Word>, i: nat)
    requires |s| == |t| && i < |s| && s[i] != t[i]
    ensures Val(s) != Val(t)
  {
    if Val(s) == Val(t) {
      ValInjective(s, t);
    }
  }

  // ---------------------------------------------------------------------------
  // The exported operation.
  // ---------------------------------------------------------------------------

  /** Quotient and remainder of the readings the operation is asked about. */
  ghost function Quotient(x: nat, y: nat, n: nat, isSigned: bool): int
    requires n >= 1 && 0 < y < Pow2(n)
  {
    SignedNonzero(y, n);
    TruncDiv(Reading(x, n, isSigned), Reading(y, n, isSigned))
  }

  ghost function Remainder(x: nat, y: nat, n: nat, isSigned: bool): int
    requires n >= 1 && 0 < y < Pow2(n)
  {
    SignedNonzero(y, n);
    TruncRem(Reading(x, n, isSigned), Reading(y, n, isSigned))
  }

  /** Only the minimum divided by minus one has a quotient that does not fit. */
  lemma QuotientFits(x: nat, y: nat, n: nat)
    requires n >= 1 && x < Pow2(n) && 0 < y < Pow2(n)
    ensures FitsSigned(Quotient(x, y, n, true), n) <==> !(x == Pow2(n - 1) && y == Pow2(n) - 1)
  {
    hide Pow2;
    assert Pow2(n) == 2 * Pow2(n - 1) by { Pow2Add(1, n - 1); Pow2Small(); }
    SignedNonzero(y, n);
    var a, b := Signed(x, n), Signed(y, n);
    DivisionParts(Abs(a), Abs(b));
    if Abs(b) == 1 {
      DivModUnique(Abs(a), 1, Abs(a), 0);
    } else if AbsDiv(a, b) >= 1 {
      MulMonotone(2, Abs(b), AbsDiv(a, b));
    }
  }

  method DivRem(numbits: nat, pa: array<Byte>, pb: array<Byte>, pq: array?<Byte>, pr: array?<Byte>, isSigned: bool)
      returns (flag: bool)
    requires IsWidth(numbits) && pa.Length >= NBytes(numbits) && pb.Length >= NBytes(numbits)
    requires pq != null ==> pq.Length >= NBytes(numbits)
    requires pr != null ==> pr.Length >= NBytes(numbits)
    requires pq != null && pr != null ==> pq != pr
    modifies if pq == null then {} else {pq}, if pr == null then {} else {pr}
    ensures var x, y := old(Unsigned(pa[..], numbits)), old(Unsigned(pb[..], numbits));
            && x < Pow2(numbits) && y < Pow2(numbits)
            && (flag <==> y == 0 || (isSigned && pq != null && x == Pow2(numbits - 1) && y == Pow2(numbits) - 1))
            && (y != 0 ==>
                  && (pq != null ==>
                        Unsigned(pq[..], numbits) == Quotient(x, y, numbits, isSigned) % Pow2(numbits))
                  && (pr != null ==>
                        Unsigned(pr[..], numbits) == Remainder(x, y, numbits, isSigned) % Pow2(numbits)))
    ensures old(Unsigned(pb[..], numbits)) == 0 ==>
              (pq != null ==> pq[..] == old(pq[..])) && (pr != null ==> pr[..] == old(pr[..]))
  {
    hide Val, Pow2, Unsigned, NBytes, NWords, Reading, TruncDiv, TruncRem;
    var a := Load(pa, numbits);
    var b := Load(pb, numbits);
    var zero := IsZero(b);
    if zero {
      return true;
    }
    var q := new Word[NWords(numbits)];
    var rem := new Word[NWords(numbits)];
    flag := Divide(q, rem, a, b, numbits, pq != null, isSigned);
    ModRange(Val(q[..]), Pow2(numbits));
    ModRange(Val(rem[..]), Pow2(numbits));
    if pq != null {
      Store(pq, q, numbits);
    }
    if pr != null {
      Store(pr, rem, numbits);
    }
  }

  /** The division proper and the overflow answer, for a nonzero divisor. */
  method Divide(q: array<Word>, rem: array<Word>, a: array<Word>, b: array<Word>, numbits: nat,
                wantQuotient: bool, isSigned: bool) returns (overflow: bool)
    requires IsWidth(numbits) && q.Length == rem.Length == a.Length == b.Length == NWords(numbits)
    requires q != rem && q != a && q != b && rem != a && rem != b
    requires Val(a[..]) < Pow2(numbits) && Val(b[..]) < Pow2(numbits) && Val(b[..]) != 0
    modifies q, rem
    ensures overflow <==>
            isSigned && wantQuotient && Val(a[..]) == Pow2(numbits - 1) && Val(b[..]) == Pow2(numbits) - 1
    ensures Val(q[..]) == Quotient(Val(a[..]), Val(b[..]), numbits, isSigned) % Pow2(numbits) < Pow2(numbits)
    ensures Val(rem[..]) == Remainder(Val(a[..]), Val(b[..]), numbits, isSigned) % Pow2(numbits) < Pow2(numbits)
  {
    hide Val, Pow2, NWords, TruncDiv, TruncRem, Signed;
    overflow := false;
    ghost var x, y, m := Val(a[..]), Val(b[..]), Pow2(numbits);
    if isSigned {
      var isMin := IsMinInt(a, numbits);
      var isNeg := IsNegOne(b, numbits);
      overflow := wantQuotient && isMin && isNeg;
      SDivRem(q, rem, a, b, numbits);
    } else {
      assert numbits <= 64 * a.Length by { WidthInWords(numbits); }
      UDivRem(q, rem, a, b, numbits);
      UnsignedDivision(Val(q[..]), Val(rem[..]), x, y, m);
      TruncOfNaturals(x, y);
    }
    ModRange(Quotient(x, y, numbits, isSigned), m);
    ModRange(Remainder(x, y, numbits, isSigned), m);
    ModTwice(Quotient(x, y, numbits, isSigned), m);
    ModTwice(Remainder(x, y, numbits, isSigned), m);
    MaskTop(q, numbits);
    MaskTop(rem, numbits);
  }

  lemma TruncOfNaturals(x: nat, y: nat)
    requires y > 0
    ensures TruncDiv(x, y) == x / y && TruncRem(x, y) == x % y
  {
  }

  lemma ModTwice(x: int, m: nat)
    requires m >= 1
    ensures x % m % m == x % m
  {
    DivModUnique(x % m, m, 0, x % m);
  }
}
