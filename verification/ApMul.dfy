/**
Checked multiplication at an arbitrary bit width (src/APInt.c): the operands are extended to
twice the words, multiplied, and the bits above the width compared with the sign.
 */
module ApMul {
  import opened Basics
  import opened Bits
  import opened Words
  import opened WordArith
  import opened WordMul
  import opened ApWidth
  import opened ApAddSub

  // ---------------------------------------------------------------------------
  // The bits above the width.
  // ---------------------------------------------------------------------------

  lemma HighWordsWeigh(s: seq<Word>, nw: nat)
    requires nw <= |s|
    ensures Val(s[..nw]) <= Val(s)
    ensures Val(s) < Base(nw) ==> forall i :: nw <= i < |s| ==> s[i] == 0
  {
    hide Val, Base;
    ValSplit(s, nw);
    var high := Val(s[nw..]);
    MulMonotone(0, high, Base(nw));
    if Val(s) < Base(nw) {
      if high > 0 {
        MulMonotone(1, high, Base(nw));
      }
      ValIsZero(s[nw..]);
      assert forall i :: nw <= i < |s| ==> s[i] == s[nw..][i - nw];
    }
  }

  /** A number fits the width exactly when nothing is set above it. */
  lemma FitsWidth(s: seq<Word>, numbits: nat)
    requires numbits >= 1 && NWords(numbits) <= |s|
    ensures var nw := NWords(numbits);
            Val(s) < Pow2(numbits) <==>
            s[nw - 1] < Pow2(TopBits(numbits)) && forall i :: nw <= i < |s| ==> s[i] == 0
  {
    hide Val, Base, Pow2;
    var nw, p := NWords(numbits), Pow2(TopBits(numbits));
    WidthWeight(numbits);
    HighWordsWeigh(s, nw);
    if Val(s) < Pow2(numbits) {
      TopWordBelow(s[..nw], numbits);
    } else if s[nw - 1] < p && forall i :: nw <= i < |s| ==> s[i] == 0 {
      ExtensionVal(s, nw, false);
      ValPrefix(s, nw - 1);
      ValBound(s[..nw - 1]);
      MulMonotone(s[nw - 1], p - 1, Base(nw - 1));
      Distribute(p, 1, Base(nw - 1));
    }
  }

  /** The same from above, by complementing every word. */
  lemma FitsWidthNegative(s: seq<Word>, numbits: nat)
    requires numbits >= 1 && NWords(numbits) <= |s|
    ensures var nw := NWords(numbits);
            Val(s) >= Base(|s|) - Pow2(numbits) <==>
            && Not(s[nw - 1]) < Pow2(TopBits(numbits))
            && forall i :: nw <= i < |s| ==> s[i] == 0xffff_ffff_ffff_ffff
  {
    hide Val, Base, Pow2;
    var c := NotAll(s);
    ValNotAll(s);
    FitsWidth(c, numbits);
    assert forall i :: 0 <= i < |s| ==> (c[i] == 0 <==> s[i] == 0xffff_ffff_ffff_ffff);
  }

  /** `w >> t` compared with the same bits of zero or of all ones. */
  lemma HighBitsEqual(w: Word, t: nat)
    requires 1 <= t < 64
    ensures Shr(w, t) == 0 <==> w < Pow2(t)
    ensures Shr(w, t) == Shr(0xffff_ffff_ffff_ffff, t) <==> Not(w) < Pow2(t)
  {
    hide Shr, Pow2;
    var p, q := Pow2(t), Pow2(64 - t);
    assert p * q == 0x1_0000_0000_0000_0000 by { Pow2Words(); Pow2Add(t, 64 - t); }
    ShrIsDiv(w, t);
    ShrIsDiv(0xffff_ffff_ffff_ffff, t);
    Distribute(q, 1, p);
    DivModUnique(0xffff_ffff_ffff_ffff, p, q - 1, p - 1);
    var d := w / p;
    assert w == p * d + w % p;
    if w < p {
      DivModUnique(w, p, 0, w);
    }
    if w >= (q - 1) * p {
      DivModUnique(w, p, q - 1, w - (q - 1) * p);
    } else if d >= q - 1 {
      MulMonotone(q - 1, d, p);
    }
  }

  /** Whether some bit above the width differs from the expected filling. */
  method CheckOverflow(r: array<Word>, numbits: nat, ones: bool) returns (overflow: bool)
    requires numbits >= 1 && r.Length >= NWords(numbits)
    ensures !overflow <==>
            if ones then Val(r[..]) >= Base(r.Length) - Pow2(numbits) else Val(r[..]) < Pow2(numbits)
  {
    hide Val, Base, Pow2, Shr;
    var nw, t := NWords(numbits), numbits % 64;
    var expected: Word := if ones then 0xffff_ffff_ffff_ffff else 0;
    FitsWidth(r[..], numbits);
    FitsWidthNegative(r[..], numbits);
    if t != 0 {
      HighBitsEqual(r[nw - 1], t);
      var high := Shr(r[nw - 1], t);
      var expHigh := if ones then Shr(0xffff_ffff_ffff_ffff, t) else 0;
      if high != expHigh {
        return true;
      }
    } else {
      assert Pow2(64) == 0x1_0000_0000_0000_0000 by { Pow2Words(); }
    }
    for i := nw to r.Length
      invariant forall j :: nw <= j < i ==> r[j] == expected
    {
      if r[i] != expected {
        return true;
      }
    }
    return false;
  }

  // ---------------------------------------------------------------------------
  // The product.
  // ---------------------------------------------------------------------------

  lemma ResidueAlgebra(m: int, i: int, j: int, u: int, v: int)
    ensures (m * i + u) * (m * j + v) == u * v + (i * (m * j + v) + j * u) * m
  {
    var y := m * j + v;
    Distribute(m * i, u, y);
    Distribute(m * j, v, u);
    Associate(m, i, y);
    Associate(m, j, u);
    Distribute(i * y, j * u, m);
  }

  /** Products of residues are residues of products. */
  lemma ProductOfResidues(x: int, y: int, u: nat, v: nat, m: nat)
    requires m >= 1 && u == x % m && v == y % m
    ensures u * v % m == x * y % m
  {
    var i, j := x / m, y / m;
    var k := i * (m * j + v) + j * u;
    var w: int := u * v;
    ResidueAlgebra(m, i, j, u, v);
    assert x == m * i + u && y == m * j + v;
    assert x * y == w + k * m;
    ModAddMultiple(w, k, m);
  }

  lemma ReadingBound(x: nat, n: nat, isSigned: bool)
    requires n >= 1 && x < Pow2(n)
    ensures var v := Reading(x, n, isSigned);
            0 - Pow2(n) < v < Pow2(n) && (isSigned ==> 0 - Pow2(n - 1) <= v <= Pow2(n - 1))
  {
  }

  lemma AbsProduct(a: int, b: int, m: nat)
    requires 0 - m <= a <= m && 0 - m <= b <= m
    ensures 0 - m * m <= a * b <= m * m
  {
    var x: nat, y: nat := if a < 0 then -a else a, if b < 0 then -b else b;
    MulBound(x, y, m, m);
    assert a * b == x * y || a * b == -(x * y);
  }

  /** How the flag reads a residue of the product, for signed operands. */
  lemma SignedFlag(P: int, R: nat, h: nat, M: nat, C: nat, K: nat)
    requires h >= 1 && M == 2 * h && C == K * M && K >= 1 && 2 * M <= C
    requires 0 - C <= 4 * P <= C && R == P % C
    ensures (if R % M >= h then R >= C - M else R < M) <==> 0 - h <= P < h
  {
    if P >= 0 {
      DivModUnique(P, C, 0, P);
    } else {
      DivModUnique(P, C, -1, P + C);
    }
    Distribute(K, 1, M);
    if R < M {
      DivModUnique(R, M, 0, R);
    } else if R >= C - M {
      DivModUnique(R, M, K - 1, R - (C - M));
    }
  }

  lemma UnsignedFlag(P: nat, R: nat, C: nat)
    requires P < C && R == P % C
    ensures R == P
  {
    DivModUnique(P, C, 0, P);
  }

  /** Bit n - 1 of any number, through its residue. */
  lemma SignBitOfResidue(x: nat, n: nat)
    requires n >= 1
    ensures Shr(x, n - 1) % 2 == 1 <==> x % Pow2(n) >= Pow2(n - 1)
  {
    hide Shr, Pow2;
    assert Pow2(n) == Pow2(n - 1) * 2 by { Pow2Add(n - 1, 1); Pow2Small(); }
    var h := Pow2(n - 1);
    ShrIsDiv(x, n - 1);
    DivDiv(x, h, 2);
    ModRange(x, h);
  }

  /** The weights that the flag compares: 2^n, its half, and the double-width array. */
  lemma DoubleWidth(n: nat, total: nat) returns (K: nat)
    requires n >= 1 && total == 2 * NWords(n)
    ensures Pow2(n) == 2 * Pow2(n - 1) && Base(total) == K * Pow2(n) && K >= 1
    ensures Pow2(n) * Pow2(n) <= Base(total) && 2 * Pow2(n) <= Base(total)
  {
    hide Base, Pow2;
    var M := Pow2(n);
    K := Pow2(64 * total - n);
    assert M == 2 * Pow2(n - 1) by { Pow2Add(1, n - 1); Pow2Small(); }
    BaseIsPow2(total);
    Pow2Add(64 * total - n, n);
    Pow2Add(n, n);
    Pow2Monotone(n + n, 64 * total);
    MulMonotone(2, M, M);
  }

  /** The double-width residue and the flag the code derives from it. */
  lemma SignedMulFlag(a: int, b: int, n: nat, R: nat, total: nat)
    requires n >= 1 && total == 2 * NWords(n)
    requires 0 - Pow2(n - 1) <= a <= Pow2(n - 1) && 0 - Pow2(n - 1) <= b <= Pow2(n - 1)
    requires R == a * b % Base(total)
    ensures (if Shr(R, n - 1) % 2 == 1 then R >= Base(total) - Pow2(n) else R < Pow2(n)) <==> FitsSigned(a * b, n)
  {
    hide Base, Pow2, Shr;
    var h, P, C := Pow2(n - 1), a * b, Base(total);
    var K := DoubleWidth(n, total);
    assert 0 - C <= 4 * P <= C by {
      AbsProduct(a, b, h);
      FourSquares(h);
    }
    SignBitOfResidue(R, n);
    SignedFlag(P, R, h, Pow2(n), C, K);
  }

  lemma FourSquares(h: nat)
    ensures 4 * (h * h) == 2 * h * (2 * h)
  {
  }

  lemma UnsignedMulFlag(a: nat, b: nat, n: nat, R: nat, total: nat)
    requires n >= 1 && total == 2 * NWords(n)
    requires a < Pow2(n) && b < Pow2(n) && R == a * b % Base(total)
    ensures R < Pow2(n) <==> FitsUnsigned(a * b, n)
  {
    hide Base, Pow2;
    var M := Pow2(n);
    var K := DoubleWidth(n, total);
    MulBound(a, b, M - 1, M - 1);
    Distribute(M, 1, M - 1);
    Distribute(M, 1, M);
    UnsignedFlag(a * b, R, Base(total));
  }

  lemma MulFlag(x: nat, y: nat, n: nat, R: nat, total: nat, isSigned: bool)
    requires n >= 1 && x < Pow2(n) && y < Pow2(n) && total == 2 * NWords(n)
    requires R == Reading(x, n, isSigned) * Reading(y, n, isSigned) % Base(total)
    ensures var ones := isSigned && Shr(R, n - 1) % 2 == 1;
            (if ones then R >= Base(total) - Pow2(n) else R < Pow2(n))
            <==> Fits(Reading(x, n, isSigned) * Reading(y, n, isSigned), n, isSigned)
    ensures R % Pow2(n) == Reading(x, n, isSigned) * Reading(y, n, isSigned) % Pow2(n)
  {
    hide Base, Pow2, Shr, Reading;
    var a, b := Reading(x, n, isSigned), Reading(y, n, isSigned);
    ReadingBound(x, n, isSigned);
    ReadingBound(y, n, isSigned);
    var K := DoubleWidth(n, total);
    Distribute(K, 0, Pow2(n));
    ModOfMod(a * b, Pow2(n), K);
    if isSigned {
      SignedMulFlag(a, b, n, R, total);
    } else {
      ReadingUnsigned(x, n);
      ReadingUnsigned(y, n);
      UnsignedMulFlag(x, y, n, R, total);
    }
  }

  lemma ReadingUnsigned(x: nat, n: nat)
    requires n >= 1
    ensures Reading(x, n, false) == x
  {
  }

  /** A reading and its extension to more words agree modulo the array. */
  lemma ExtensionIsResidue(v: int, u: nat, n: nat, total: nat)
    requires u == (if v < 0 then v + Base(total) else v)
    requires 0 - Pow2(n) < v < Pow2(n) <= Base(total)
    ensures u == v % Base(total)
  {
    hide Base, Pow2;
    DivModUnique(v, Base(total), if v < 0 then -1 else 0, u);
  }

  /** Load an operand into twice the words and extend it. */
  method LoadExtended(src: array<Byte>, numbits: nat, isSigned: bool) returns (a: array<Word>)
    requires IsWidth(numbits) && src.Length >= NBytes(numbits)
    ensures fresh(a) && a.Length == 2 * NWords(numbits)
    ensures Unsigned(src[..], numbits) < Pow2(numbits)
    ensures Val(a[..]) == Reading(Unsigned(src[..], numbits), numbits, isSigned) % Base(a.Length)
  {
    hide Val, Base, Pow2, Unsigned, Reading, NBytes;
    var nw := NWords(numbits);
    var low := Load(src, numbits);
    a := new Word[2 * nw];
    ghost var words := low[..];
    for i := 0 to nw
      invariant low[..] == words
      invariant a[..i] == low[..i]
    {
      a[i] := low[i];
    }
    assert a[..nw] == low[..];
    ghost var x := Val(a[..nw]);
    Extend(a, numbits, isSigned);
    ReadingBound(x, numbits, isSigned);
    assert Pow2(numbits) <= Base(2 * nw) by { BaseIsPow2(2 * nw); Pow2Monotone(numbits, 64 * (2 * nw)); }
    ExtensionIsResidue(Reading(x, numbits, isSigned), Val(a[..]), numbits, 2 * nw);
  }

  /** Checked multiply: the wrapped product in memory, and whether it is not exact. */
  method MulOv(numbits: nat, pa: array<Byte>, pb: array<Byte>, pr: array<Byte>, isSigned: bool, wide: bool)
      returns (overflow: bool)
    requires IsWidth(numbits)
    requires pa.Length >= NBytes(numbits) && pb.Length >= NBytes(numbits) && pr.Length >= NBytes(numbits)
    modifies pr
    ensures var x, y := old(Unsigned(pa[..], numbits)), old(Unsigned(pb[..], numbits));
            var P := Reading(x, numbits, isSigned) * Reading(y, numbits, isSigned);
            && Unsigned(pr[..], numbits) == P % Pow2(numbits)
            && overflow == !Fits(P, numbits, isSigned)
  {
    hide Val, Base, Pow2, Unsigned, Reading, NBytes, Shr, Fits;
    var nw := NWords(numbits);
    var a := LoadExtended(pa, numbits, isSigned);
    var b := LoadExtended(pb, numbits, isSigned);
    ghost var x, y := Unsigned(pa[..], numbits), Unsigned(pb[..], numbits);
    ghost var s, t := Reading(x, numbits, isSigned), Reading(y, numbits, isSigned);
    var r := new Word[2 * nw];
    MulWords(r, a, b, wide);
    ProductOfResidues(s, t, Val(a[..]), Val(b[..]), Base(2 * nw));
    MulFlag(x, y, numbits, Val(r[..]), 2 * nw, isSigned);
    var neg := IsNegative(r, numbits);
    overflow := CheckOverflow(r, numbits, isSigned && neg);
    var low := LowWords(r, nw);
    ghost var R := Val(r[..]);
    WordsThenMask(R, Val(low[..]), numbits);
    ModRange(R, Pow2(numbits));
    MaskTop(low, numbits);
    Store(pr, low, numbits);
  }

  /** The low words of a longer array. */
  method LowWords(r: array<Word>, nw: nat) returns (low: array<Word>)
    requires nw <= r.Length
    ensures fresh(low) && low.Length == nw && Val(low[..]) == Val(r[..]) % Base(nw)
  {
    hide Val, Base;
    low := new Word[nw];
    for i := 0 to nw
      invariant r[..] == old(r[..]) && low[..i] == r[..i]
    {
      low[i] := r[i];
    }
    assert low[..] == r[..][..nw];
    ValTruncate(r[..], nw);
  }
}
