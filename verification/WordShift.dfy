/**
The funnel shifts of src/APInt.c: a shift by `64 ws + bs` bits moves `ws` whole words and
joins the parts of neighbouring words.  The result array may be the operand.
 */
module WordShift {
  import opened Bits
  import opened Words

  /** A split of the word at bit `bs`: p == 2^bs and q == 2^(64 - bs). */
  predicate Splits(p: nat, q: nat) {
    p >= 1 && q >= 1 && p * q == 0x1_0000_0000_0000_0000
  }

  lemma SplitAt(bs: nat)
    requires bs < 64
    ensures Splits(Pow2(bs), Pow2(64 - bs))
  {
    Pow2Words();
    Pow2Add(bs, 64 - bs);
  }

  // ---------------------------------------------------------------------------
  // Left.
  // ---------------------------------------------------------------------------

  /** A shifted word joined with the bits coming in from below. */
  function JoinLow(w: Word, c: nat, p: nat, q: nat): (r: Word)
    requires Splits(p, q) && c < p
    ensures r == w % q * p + c
  {
    MulBound(w % q, p, q - 1, p);
    Distribute(q, 1, p);
    w % q * p + c
  }

  lemma HighPart(w: Word, p: nat, q: nat)
    requires Splits(p, q)
    ensures 0 <= w / q < p
    ensures w * p == w / q * 0x1_0000_0000_0000_0000 + w % q * p
    ensures w * p % 0x1_0000_0000_0000_0000 == w % q * p
  {
    var h, l := w / q, w % q;
    assert w == q * h + l;
    Distribute(h * q, l, p);
    Associate(h, q, p);
    Distribute(h, 0, q);
    if h >= p {
      MulMonotone(p, h, q);
    } else if h < 0 {
      MulMonotone(h, -1, q);
    }
    MulBound(l, p, q - 1, p);
    Distribute(q, 1, p);
    DivModUnique(w * p, 0x1_0000_0000_0000_0000, h, l * p);
  }

  function High(w: Word, p: nat, q: nat): (r: nat)
    requires Splits(p, q)
    ensures r == w / q && r < p
  {
    HighPart(w, p, q);
    w / q
  }

  /** The words of `p s + c`, followed by the part that leaves at the top. */
  function ShlBits(s: seq<Word>, c: nat, p: nat, q: nat): (r: seq<Word>)
    requires Splits(p, q) && c < p
    ensures |r| == |s| + 1
  {
    if |s| == 0 then
      HighIsWord(c, p, q);
      [c]
    else [JoinLow(s[0], c, p, q)] + ShlBits(s[1..], High(s[0], p, q), p, q)
  }

  lemma HighIsWord(c: nat, p: nat, q: nat)
    requires Splits(p, q) && c < p
    ensures c < 0x1_0000_0000_0000_0000
  {
    MulMonotone(1, q, p);
  }

  lemma {:induction false} ShlBitsVal(s: seq<Word>, c: nat, p: nat, q: nat)
    requires Splits(p, q) && c < p
    ensures Val(ShlBits(s, c, p, q)) == p * Val(s) + c
    decreases |s|
  {
    if |s| == 0 {
      assert ShlBits(s, c, p, q)[1..] == [];
    } else {
      var h := High(s[0], p, q);
      assert ShlBits(s, c, p, q)[1..] == ShlBits(s[1..], h, p, q);
      ShlBitsVal(s[1..], h, p, q);
      HighPart(s[0], p, q);
      ShlAlgebra(s[0], Val(s[1..]), h, s[0] % q * p, p);
    }
  }

  lemma ShlAlgebra(w: nat, rest: nat, h: nat, l: nat, p: nat)
    requires w * p == h * 0x1_0000_0000_0000_0000 + l
    ensures l + 0x1_0000_0000_0000_0000 * (p * rest + h) == p * (w + 0x1_0000_0000_0000_0000 * rest)
  {
    Distribute(w, 0x1_0000_0000_0000_0000 * rest, p);
    Associate(p, 0x1_0000_0000_0000_0000, rest);
  }

  lemma {:induction false} ShlBitsAt(s: seq<Word>, c: nat, p: nat, q: nat, j: nat)
    requires Splits(p, q) && c < p && j < |s|
    ensures ShlBits(s, c, p, q)[j] == JoinLow(s[j], if j == 0 then c else High(s[j - 1], p, q), p, q)
    decreases j
  {
    if j > 0 {
      ShlBitsAt(s[1..], High(s[0], p, q), p, q, j - 1);
    }
  }

  /** The shifted number with all its words: zeros below, nothing cut at the top. */
  function ShlAll(s: seq<Word>, ws: nat, p: nat, q: nat): (r: seq<Word>)
    requires Splits(p, q)
    ensures |r| == ws + |s| + 1
  {
    Fill(ws, 0) + ShlBits(s, 0, p, q)
  }

  lemma ShlAllVal(s: seq<Word>, ws: nat, p: nat, q: nat)
    requires Splits(p, q)
    ensures Val(ShlAll(s, ws, p, q)) == Base(ws) * p * Val(s)
  {
    ValAppend(Fill(ws, 0), ShlBits(s, 0, p, q));
    ValZeros(Fill(ws, 0));
    ShlBitsVal(s, 0, p, q);
    Associate(Base(ws), p, Val(s));
  }

  /** One word of a left shift as the code computes it. */
  method ShlWord(lo: Word, hi: Word, bs: nat) returns (r: Word)
    requires bs < 64
    ensures Splits(Pow2(bs), Pow2(64 - bs))
    ensures r == JoinLow(lo, High(hi, Pow2(bs), Pow2(64 - bs)), Pow2(bs), Pow2(64 - bs))
  {
    hide Pow2, Or;
    var p, q := Pow2(bs), Pow2(64 - bs);
    SplitAt(bs);
    ghost var l := High(hi, p, q);
    HighPart(lo, p, q);
    if bs == 0 {
      assert p == 1 && q == 0x1_0000_0000_0000_0000 by { Pow2Zero(); }
      DivModUnique(lo, q, 0, lo);
      r := lo;
    } else {
      OrDisjoint(lo % q, l, bs);
      assert Or(lo * p % 0x1_0000_0000_0000_0000, hi / q) == JoinLow(lo, l, p, q);
      r := Or(lo * p % 0x1_0000_0000_0000_0000, hi / q);
    }
  }

  lemma Pow2Zero()
    ensures Pow2(0) == 1 && Pow2(64) == 0x1_0000_0000_0000_0000
  {
    Pow2Words();
  }

  /** `r = a << shift`, cut to the words of the array. */
  method ShlN(r: array<Word>, a: array<Word>, shift: nat)
    requires r.Length == a.Length
    modifies r
    ensures Val(r[..]) == old(Val(a[..])) * Pow2(shift) % Base(r.Length)
  {
    hide Val, Base, Pow2, ShlBits, JoinLow, High, Splits;
    var ws, bs := shift / 64, shift % 64;
    var nw := r.Length;
    ghost var A := a[..];
    ghost var p, q := Pow2(bs), Pow2(64 - bs);
    SplitAt(bs);
    ghost var T := ShlAll(A, ws, p, q);
    var i := nw;
    while i > 0
      invariant 0 <= i <= nw
      invariant forall j :: 0 <= j < i ==> a[j] == A[j]
      invariant forall j :: i <= j < nw ==> r[j] == T[j]
    {
      i := i - 1;
      var lo := if i >= ws then a[i - ws] else 0;
      var hi := if i > ws then a[i - ws - 1] else 0;
      var word := ShlWord(lo, hi, bs);
      ShlAllAt(A, ws, p, q, i);
      r[i] := word;
    }
    assert r[..] == T[..nw];
    ValTruncate(T, nw);
    ShlAllVal(A, ws, p, q);
    BaseIsPow2(ws);
    Pow2Add(64 * ws, bs);
    Distribute(Val(A), 0, Pow2(shift));
  }

  lemma ShlAllAt(s: seq<Word>, ws: nat, p: nat, q: nat, i: nat)
    requires Splits(p, q) && i < |s|
    ensures ShlAll(s, ws, p, q)[i]
         == JoinLow(if i >= ws then s[i - ws] else 0, High(if i > ws then s[i - ws - 1] else 0, p, q), p, q)
  {
    ZeroParts(p, q);
    if i >= ws {
      ShlBitsAt(s, 0, p, q, i - ws);
    }
  }

  lemma ZeroParts(p: nat, q: nat)
    requires Splits(p, q)
    ensures High(0, p, q) == 0 && JoinLow(0, 0, p, q) == 0
  {
    DivModUnique(0, q, 0, 0);
  }

  // ---------------------------------------------------------------------------
  // Right.
  // ---------------------------------------------------------------------------

  /** The signed reading of an array continued with zeros or with ones. */
  function Extended(s: seq<Word>, neg: bool): int {
    Val(s) - (if neg then Base(|s|) else 0)
  }

  function FillWord(neg: bool): Word {
    if neg then 0xffff_ffff_ffff_ffff else 0
  }

  /** The low part of a word moved to the top of the word below. */
  function JoinHigh(w: Word, next: Word, p: nat, q: nat): (r: Word)
    requires Splits(p, q)
    ensures r == w / p + next % p * q
  {
    SplitsSwap(p, q);
    HighPart(w, q, p);
    MulBound(next % p, q, p - 1, q);
    Distribute(p, 1, q);
    w / p + next % p * q
  }

  lemma SplitsSwap(p: nat, q: nat)
    requires Splits(p, q)
    ensures Splits(q, p)
  {
  }

  function First(s: seq<Word>, fill: Word): Word {
    if |s| > 0 then s[0] else fill
  }

  function ShrBits(s: seq<Word>, fill: Word, p: nat, q: nat): (r: seq<Word>)
    requires Splits(p, q)
    ensures |r| == |s|
  {
    if |s| == 0 then [] else [JoinHigh(s[0], First(s[1..], fill), p, q)] + ShrBits(s[1..], fill, p, q)
  }

  lemma {:induction false} ShrBitsAt(s: seq<Word>, fill: Word, p: nat, q: nat, j: nat)
    requires Splits(p, q) && j < |s|
    ensures ShrBits(s, fill, p, q)[j] == JoinHigh(s[j], if j + 1 < |s| then s[j + 1] else fill, p, q)
  {
    if j > 0 {
      ShrBitsAt(s[1..], fill, p, q, j - 1);
    }
  }

  lemma ShrAlgebra(w: nat, next: nat, rest: nat, p: nat, q: nat, x: nat)
    requires Splits(p, q) && p * rest + next % p == x
    ensures p * (w / p + next % p * q + 0x1_0000_0000_0000_0000 * rest) + w % p == w + 0x1_0000_0000_0000_0000 * x
  {
    var n := next % p;
    Distribute(w / p + n * q, 0x1_0000_0000_0000_0000 * rest, p);
    Distribute(w / p, n * q, p);
    assert w == p * (w / p) + w % p;
    Associate(n, q, p);
    Associate(p, 0x1_0000_0000_0000_0000, rest);
  }

  /** The shifted words and the bits shifted out make up the number again. */
  lemma {:induction false} ShrBitsVal(s: seq<Word>, fill: Word, p: nat, q: nat)
    requires Splits(p, q)
    ensures p * Val(ShrBits(s, fill, p, q)) + First(s, fill) % p == Val(s) + fill % p * Base(|s|)
  {
    if |s| > 0 {
      hide Splits, JoinHigh;
      var next, r := First(s[1..], fill), ShrBits(s[1..], fill, p, q);
      var x := Val(s[1..]) + fill % p * Base(|s| - 1);
      ShrBitsVal(s[1..], fill, p, q);
      assert ShrBits(s, fill, p, q)[1..] == r;
      ShrAlgebra(s[0], next, Val(r), p, q, x);
      Associate(fill % p, 0x1_0000_0000_0000_0000, Base(|s| - 1));
    }
  }

  lemma OnesModulo(p: nat, q: nat)
    requires Splits(p, q)
    ensures 0xffff_ffff_ffff_ffff % p == p - 1 && 0 % p == 0
  {
    Distribute(q, 1, p);
    DivModUnique(0xffff_ffff_ffff_ffff, p, q - 1, p - 1);
    DivModUnique(0, p, 0, 0);
  }

  /** Shifting by bits is a floor division of the extended number. */
  lemma ShrBitsExtended(s: seq<Word>, neg: bool, p: nat, q: nat)
    requires Splits(p, q)
    ensures Extended(ShrBits(s, FillWord(neg), p, q), neg) == Extended(s, neg) / p
  {
    hide Val, Base, ShrBits, Splits;
    var fill := FillWord(neg);
    var r := ShrBits(s, fill, p, q);
    ShrBitsVal(s, fill, p, q);
    OnesModulo(p, q);
    assert p >= 1 by { SplitsPositive(p, q); }
    Distribute(p, 1, Base(|s|));
    Distribute(Val(r), Base(|s|), p);
    DivModUnique(Extended(s, neg), p, Extended(r, neg), First(s, fill) % p);
  }

  lemma SplitsPositive(p: nat, q: nat)
    requires Splits(p, q)
    ensures p >= 1
  {
  }

  /** Dropping words at the bottom and continuing at the top. */
  function DropWords(s: seq<Word>, ws: nat, neg: bool): (r: seq<Word>)
    ensures |r| == |s|
    ensures forall i :: 0 <= i < |s| ==> r[i] == if i + ws < |s| then s[i + ws] else FillWord(neg)
  {
    if ws <= |s| then s[ws..] + Fill(ws, FillWord(neg)) else Fill(|s|, FillWord(neg))
  }

  lemma ExtendedAppend(s: seq<Word>, ws: nat, neg: bool)
    ensures Extended(s + Fill(ws, FillWord(neg)), neg) == Extended(s, neg)
  {
    hide Val, Base;
    var f := Fill(ws, FillWord(neg));
    ValAppend(s, f);
    BaseAdd(|s|, ws);
    if neg {
      ValOnes(f);
      Distribute(Base(ws), 1, Base(|s|));
    } else {
      ValZeros(f);
    }
  }

  lemma DropSome(s: seq<Word>, ws: nat, neg: bool)
    requires ws <= |s|
    ensures Extended(s[ws..], neg) == Extended(s, neg) / Base(ws)
  {
    hide Val, Base;
    var t := s[ws..];
    ValSplit(s, ws);
    ValBound(s[..ws]);
    BaseAdd(ws, |t|);
    Distribute(Val(t), Base(|t|), Base(ws));
    DivModUnique(Extended(s, neg), Base(ws), Extended(t, neg), Val(s[..ws]));
  }

  lemma DropAll(s: seq<Word>, ws: nat, neg: bool)
    requires ws > |s|
    ensures Extended(Fill(|s|, FillWord(neg)), neg) == Extended(s, neg) / Base(ws)
  {
    hide Val, Base;
    var n := |s|;
    ValBound(s);
    BaseAdd(n, ws - n);
    MulMonotone(1, Base(ws - n), Base(n));
    if neg {
      ValOnes(Fill(n, FillWord(neg)));
      DivModUnique(Extended(s, neg), Base(ws), -1, Extended(s, neg) + Base(ws));
    } else {
      ValZeros(Fill(n, FillWord(neg)));
      DivModUnique(Extended(s, neg), Base(ws), 0, Extended(s, neg));
    }
  }

  lemma DropWordsExtended(s: seq<Word>, ws: nat, neg: bool)
    ensures Extended(DropWords(s, ws, neg), neg) == Extended(s, neg) / Base(ws)
  {
    hide Extended, Base;
    if ws <= |s| {
      ExtendedAppend(s[ws..], ws, neg);
      DropSome(s, ws, neg);
    } else {
      DropAll(s, ws, neg);
    }
  }

  /** One word of a right shift as the code computes it. */
  method ShrWord(hi: Word, lo: Word, bs: nat) returns (r: Word)
    requires bs < 64
    ensures Splits(Pow2(bs), Pow2(64 - bs))
    ensures r == JoinHigh(hi, lo, Pow2(bs), Pow2(64 - bs))
  {
    hide Pow2, Or;
    var p, q := Pow2(bs), Pow2(64 - bs);
    SplitAt(bs);
    if bs == 0 {
      assert p == 1 by { Pow2Zero(); }
      r := hi;
    } else {
      SplitsSwap(p, q);
      HighPart(lo, q, p);
      HighPart(hi, q, p);
      OrDisjoint(lo % p, hi / p, 64 - bs);
      OrComm(lo % p * q, hi / p);
      assert Or(hi / p, lo * q % 0x1_0000_0000_0000_0000) == JoinHigh(hi, lo, p, q);
      r := Or(hi / p, lo * q % 0x1_0000_0000_0000_0000);
    }
  }

  lemma FloorInTwoSteps(x: int, a: nat, b: nat)
    requires a > 0 && b > 0
    ensures a * b > 0 && x / (a * b) == x / a / b
  {
    var q, r := x / a, x % a;
    var q', r' := q / b, q % b;
    assert x == a * q + r && q == b * q' + r';
    MulMonotone(1, b, a);
    Distribute(q' * b, r', a);
    Associate(q', b, a);
    MulMonotone(r', b - 1, a);
    MulMonotone(0, r', a);
    Distribute(b, 1, a);
    DivModUnique(x, a * b, q', r' * a + r);
  }

  /** `r = a >> shift`, filling with zeros or with ones. */
  method ShrN(r: array<Word>, a: array<Word>, shift: nat, neg: bool)
    requires r.Length == a.Length
    modifies r
    ensures Extended(r[..], neg) == old(Extended(a[..], neg)) / Pow2(shift)
  {
    hide Val, Base, Pow2, ShrBits, JoinHigh, Splits, Extended;
    var ws, bs := shift / 64, shift % 64;
    var nw := r.Length;
    var fill := FillWord(neg);
    ghost var A := a[..];
    ghost var p, q := Pow2(bs), Pow2(64 - bs);
    SplitAt(bs);
    ghost var E := DropWords(A, ws, neg);
    ghost var T := ShrBits(E, fill, p, q);
    for i := 0 to nw
      invariant forall j :: i <= j < nw ==> a[j] == A[j]
      invariant forall j :: 0 <= j < i ==> r[j] == T[j]
    {
      var hi := if i + ws < nw then a[i + ws] else fill;
      var lo := if i + ws + 1 < nw then a[i + ws + 1] else fill;
      var word := ShrWord(hi, lo, bs);
      ShrBitsAt(E, fill, p, q, i);
      r[i] := word;
    }
    assert r[..] == T;
    ShrBitsExtended(E, neg, p, q);
    DropWordsExtended(A, ws, neg);
    FloorInTwoSteps(Extended(A, neg), Base(ws), p);
    BaseIsPow2(ws);
    Pow2Add(64 * ws, bs);
  }

  /** The shift amount: the operand, or the width if the operand is at least that large. */
  method ExtractShift(b: array<Word>, numbits: nat) returns (shift: nat)
    requires b.Length > 0 && numbits < 0x1_0000_0000
    ensures shift == if Val(b[..]) >= numbits then numbits else Val(b[..])
  {
    for i := 1 to b.Length
      invariant forall j :: 1 <= j < i ==> b[j] == 0
    {
      if b[i] != 0 {
        HighWordIsLarge(b[..], i);
        return numbits;
      }
    }
    ValZeros(b[1..]);
    assert b[..][1..] == b[1..];
    return if b[0] >= numbits then numbits else b[0];
  }

  lemma HighWordIsLarge(s: seq<Word>, i: nat)
    requires 1 <= i < |s| && s[i] != 0
    ensures Val(s) >= 0x1_0000_0000_0000_0000
  {
    assert s[1..][i - 1] == s[i];
    if Val(s[1..]) == 0 {
      ValIsZero(s[1..]);
    }
  }
}
