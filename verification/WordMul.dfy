/**
Truncated schoolbook multiplication of src/APInt.c, with the multiply-accumulate step in both
of its forms: one 128-bit product, or four 32-bit products with explicit carries.
 */
module WordMul {
  import opened Bits
  import opened Words

  /** The product of two words from the products of their halves. */
  lemma HalvesProduct(a0: nat, a1: nat, b0: nat, b1: nat)
    ensures (a0 + a1 * 0x1_0000_0000) * (b0 + b1 * 0x1_0000_0000)
         == a0 * b0 + (a0 * b1 + a1 * b0) * 0x1_0000_0000 + a1 * b1 * 0x1_0000_0000_0000_0000
  {
    var h := 0x1_0000_0000;
    var b := b0 + b1 * h;
    Distribute(a0, a1 * h, b);
    Distribute(b0, b1 * h, a0);
    Distribute(b0, b1 * h, a1 * h);
    Associate(a0, b1, h);
    Associate(a1, h, b0);
    Associate(a1, h, b1 * h);
    Associate(a1, b1, h);
  }

  lemma HalfProductBound(a: nat, b: nat)
    requires a < 0x1_0000_0000 && b < 0x1_0000_0000
    ensures 0 <= a * b <= 0xffff_fffe_0000_0001
  {
    MulBound(a, b, 0xffff_ffff, 0xffff_ffff);
  }

  lemma WordProductBound(a: Word, b: Word)
    ensures 0 <= a * b <= 0xffff_ffff_ffff_fffe_0000_0000_0000_0001
  {
    MulBound(a, b, 0xffff_ffff_ffff_ffff, 0xffff_ffff_ffff_ffff);
  }

  /** The four-product multiplication loses no carry. */
  method Mul64(a: Word, b: Word) returns (lo: Word, hi: Word)
    ensures lo + hi * 0x1_0000_0000_0000_0000 == a * b
  {
    var a0, a1 := a % 0x1_0000_0000, a / 0x1_0000_0000;
    var b0, b1 := b % 0x1_0000_0000, b / 0x1_0000_0000;
    HalfProductBound(a0, b0);
    HalfProductBound(a0, b1);
    HalfProductBound(a1, b0);
    HalfProductBound(a1, b1);
    var p00 := a0 * b0;
    var p01 := a0 * b1;
    var p10 := a1 * b0;
    var p11 := a1 * b1;
    assert a * b == p00 + (p01 + p10) * 0x1_0000_0000 + p11 * 0x1_0000_0000_0000_0000 by {
      HalvesProduct(a0, a1, b0, b1);
      assert a == a0 + a1 * 0x1_0000_0000 && b == b0 + b1 * 0x1_0000_0000;
    }
    WordProductBound(a, b);
    lo, hi := JoinProducts(p00, p01, p10, p11, a * b);
  }

  /** The carries between the four partial products. */
  method JoinProducts(p00: Word, p01: Word, p10: Word, p11: Word, ghost product: nat) returns (lo: Word, hi: Word)
    requires product == p00 + (p01 + p10) * 0x1_0000_0000 + p11 * 0x1_0000_0000_0000_0000
    requires product < 0x1_0000_0000_0000_0000_0000_0000_0000_0000
    ensures lo + hi * 0x1_0000_0000_0000_0000 == product
  {
    var mid := (p01 + p10) % 0x1_0000_0000_0000_0000;
    var midCarry := if mid < p01 then 1 else 0;
    assert p01 + p10 == mid + midCarry * 0x1_0000_0000_0000_0000;
    var shifted := mid * 0x1_0000_0000 % 0x1_0000_0000_0000_0000;
    var midHigh := mid / 0x1_0000_0000;
    assert mid * 0x1_0000_0000 == shifted + midHigh * 0x1_0000_0000_0000_0000;
    lo := (p00 + shifted) % 0x1_0000_0000_0000_0000;
    var loCarry := if lo < p00 then 1 else 0;
    assert p00 + shifted == lo + loCarry * 0x1_0000_0000_0000_0000;
    ghost var sum := p11 + midHigh + midCarry * 0x1_0000_0000 + loCarry;
    assert product == lo + sum * 0x1_0000_0000_0000_0000;
    hi := (p11 + midHigh + midCarry * 0x1_0000_0000 + loCarry) % 0x1_0000_0000_0000_0000;
  }

  /** One limb pair; `wide` selects the 128-bit form. Both forms compute the same words. */
  method MacLimb(rword: Word, carry: Word, a: Word, b: Word, wide: bool) returns (r: Word, c: Word)
    ensures r + c * 0x1_0000_0000_0000_0000 == a * b + rword + carry
  {
    WordProductBound(a, b);
    if wide {
      var prod := a * b + rword + carry;
      r := prod % 0x1_0000_0000_0000_0000;
      c := prod / 0x1_0000_0000_0000_0000;
    } else {
      var plo, phi := Mul64(a, b);
      var s1 := (plo + rword) % 0x1_0000_0000_0000_0000;
      var c1: nat := if s1 < plo then 1 else 0;
      var s2 := (s1 + carry) % 0x1_0000_0000_0000_0000;
      var c2: nat := if s2 < s1 then 1 else 0;
      assert s2 + (c1 + c2) * 0x1_0000_0000_0000_0000 == plo + rword + carry;
      r := s2;
      c := phi + c1 + c2;
    }
  }

  /** One row: the tail of `r` from word `i` gains `ai` times the low words of `b`. */
  method MulRow(r: array<Word>, i: nat, ai: Word, b: array<Word>, wide: bool) returns (carry: Word)
    requires i <= r.Length == b.Length && r != b
    modifies r
    ensures r[..i] == old(r[..i])
    ensures Val(r[i..]) + carry * Base(r.Length - i) == old(Val(r[i..])) + ai * Val(b[..r.Length - i])
  {
    hide Val, Base;
    var n := r.Length - i;
    ghost var R, B := r[i..], b[..];
    carry := 0;
    ValNone(r[i..i + 0]);
    ValNone(R[..0]);
    ValNone(B[..0]);
    var j := 0;
    while j < n
      invariant 0 <= j <= n && b[..] == B && |R| == n
      invariant r[..i] == old(r[..i])
      invariant forall k :: j <= k < n ==> r[i + k] == R[k]
      invariant Val(r[i..i + j]) + carry * Base(j) == Val(R[..j]) + ai * Val(B[..j])
    {
      var rword, carryOut := MacLimb(r[i + j], carry, ai, b[j], wide);
      ghost var before := r[i..i + j];
      r[i + j] := rword;
      assert r[i..i + j] == before;
      assert r[i..][..j] == r[i..i + j] && r[i..][..j + 1] == r[i..i + j + 1];
      ValPrefix(r[i..], j);
      ValPrefix(R, j);
      ValPrefix(B, j);
      WeighLimb(ai, B[j], R[j], carry, rword, carryOut, Val(B[..j]), j);
      carry := carryOut;
      j := j + 1;
    }
    assert r[i..i + n] == r[i..] && R[..n] == R;
  }

  lemma WeighLimb(a: nat, b: nat, r: nat, c: nat, r': nat, c': nat, low: nat, j: nat)
    requires r' + c' * 0x1_0000_0000_0000_0000 == a * b + r + c
    ensures r' * Base(j) + c' * Base(j + 1) == a * b * Base(j) + r * Base(j) + c * Base(j)
    ensures a * (low + b * Base(j)) == a * low + a * b * Base(j)
  {
    var B := Base(j);
    Distribute(a * b + r, c, B);
    Distribute(a * b, r, B);
    Distribute(r', c' * 0x1_0000_0000_0000_0000, B);
    Associate(c', 0x1_0000_0000_0000_0000, B);
    Distribute(low, b * B, a);
    Associate(a, b, B);
  }

  /**
  One row in terms of whole numbers: it adds `ai * Base(i) * V(b)` up to a multiple of the
  modulus, because what the row cuts off is a multiple of it.
   */
  lemma RowAdds(r: seq<Word>, r': seq<Word>, b: seq<Word>, i: nat, ai: Word, carry: Word)
      returns (k: nat)
    requires |r| == |r'| == |b| && i <= |r| && r'[..i] == r[..i]
    requires Val(r'[i..]) + carry * Base(|r| - i) == Val(r[i..]) + ai * Val(b[..|r| - i])
    ensures Val(r') + k * Base(|r|) == Val(r) + ai * Base(i) * Val(b)
  {
    hide Val, Base;
    var n := |r| - i;
    var B := Base(i);
    var lo, hi := Val(b[..n]), Val(b[n..]);
    ValSplit(r, i);
    ValSplit(r', i);
    ValSplit(b, n);
    BaseAdd(i, n);
    k := carry + ai * hi;
    RowAlgebra(Val(r[i..]), Val(r'[i..]), carry, ai, lo, hi, B, Base(n));
  }

  lemma RowAlgebra(x: nat, x': nat, carry: nat, a: nat, lo: nat, hi: nat, B: nat, C: nat)
    requires x' + carry * C == x + a * lo
    ensures B * x' + (carry + a * hi) * (B * C) == B * x + a * B * (lo + C * hi)
  {
    assert B * (x' + carry * C) == B * (x + a * lo);
    Distribute(x', carry * C, B);
    Distribute(x, a * lo, B);
    Distribute(carry, a * hi, B * C);
    Distribute(lo, C * hi, a * B);
    assert carry * (B * C) == B * (carry * C) by { Associate(carry, B, C); Associate(B, carry, C); }
    assert a * B * lo == B * (a * lo) by { Associate(B, a, lo); }
    assert a * hi * (B * C) == a * B * (C * hi) by {
      Associate(a, hi, B * C);
      Associate(hi, B, C);
      Associate(a, B, C * hi);
      Associate(B, C, hi);
    }
  }

  /** Truncated multiply: the exact product modulo the size of the array. */
  method MulWords(r: array<Word>, a: array<Word>, b: array<Word>, wide: bool)
    requires r.Length == a.Length == b.Length && r != a && r != b
    modifies r
    ensures Val(r[..]) == Val(a[..]) * Val(b[..]) % Base(r.Length)
  {
    hide Val, Base;
    var nw := r.Length;
    ghost var A, B := a[..], b[..];
    for z := 0 to nw
      invariant forall j :: 0 <= j < z ==> r[j] == 0
    {
      r[z] := 0;
    }
    ValZeros(r[..]);
    ValZeros(A[..0]);
    ghost var k: nat := 0;
    for i := 0 to nw
      invariant a[..] == A && b[..] == B
      invariant Val(r[..]) + k * Base(nw) == Val(A[..i]) * Val(B)
    {
      ValPrefix(A, i);
      Distribute(Val(A[..i]), A[i] * Base(i), Val(B));
      if a[i] != 0 {
        ghost var before := r[..];
        assert before[i..] == r[i..];
        var carry := MulRow(r, i, a[i], b, wide);
        assert r[..][..i] == before[..i] && r[..][i..] == r[i..] && B[..nw - i] == b[..nw - i];
        ghost var dk := RowAdds(before, r[..], B, i, A[i], carry);
        Distribute(k, dk, Base(nw));
        k := k + dk;
      }
    }
    assert A[..nw] == A;
    ValBound(r[..]);
    DivModUnique(Val(A) * Val(B), Base(nw), k, Val(r[..]));
  }
}
