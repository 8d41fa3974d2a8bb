/**
Binary long division of src/APInt.c.  The running remainder is shifted left inside the array;
no bit is lost because the remainder never exceeds the part of the dividend already consumed.
 */
module WordDiv {
  import opened Bits
  import opened Words
  import opened WordArith

  // ---------------------------------------------------------------------------
  // Shifting one bit in.
  // ---------------------------------------------------------------------------

  /** `w << 1` in a word. */
  function Twice(w: Word): Word {
    var x: nat := w;
    2 * x % 0x1_0000_0000_0000_0000
  }

  lemma CarryTimes(c: nat, B: nat)
    requires c <= 1
    ensures c * B == if c == 1 then B else 0
  {
  }

  /** The words of `2 s + c`, without the bit that leaves at the top. */
  function Doubled(s: seq<Word>, c: nat): (r: seq<Word>)
    requires c <= 1
    ensures |r| == |s|
  {
    if |s| == 0 then []
    else [Twice(s[0]) + c] + Doubled(s[1..], s[0] / 0x8000_0000_0000_0000)
  }

  /** The bit that leaves at the top. */
  function DoubledOut(s: seq<Word>, c: nat): (r: nat)
    requires c <= 1
    ensures r <= 1
  {
    if |s| == 0 then c else DoubledOut(s[1..], s[0] / 0x8000_0000_0000_0000)
  }

  lemma TwiceExact(w: Word)
    ensures Twice(w) + w / 0x8000_0000_0000_0000 * 0x1_0000_0000_0000_0000 == w + w
  {
  }

  lemma {:induction false} DoubledVal(s: seq<Word>, c: nat)
    requires c <= 1
    ensures Val(Doubled(s, c)) + DoubledOut(s, c) * Base(|s|) == 2 * Val(s) + c
  {
    if |s| > 0 {
      var c1 := s[0] / 0x8000_0000_0000_0000;
      DoubledVal(s[1..], c1);
      assert Doubled(s, c)[1..] == Doubled(s[1..], c1);
      TwiceExact(s[0]);
      Associate(DoubledOut(s, c), 0x1_0000_0000_0000_0000, Base(|s| - 1));
    }
  }

  lemma {:induction false} DoubledAt(s: seq<Word>, c: nat, j: nat)
    requires c <= 1 && j < |s|
    ensures Doubled(s, c)[j]
         == Twice(s[j]) + (if j == 0 then c else s[j - 1] / 0x8000_0000_0000_0000)
  {
    if j > 0 {
      DoubledAt(s[1..], s[0] / 0x8000_0000_0000_0000, j - 1);
    }
  }

  /** `(x << 1) | low` in a word. */
  lemma OrIntoDouble(x: Word, low: nat)
    requires low <= 1
    ensures Or(Twice(x), low) == Twice(x) + low < 0x1_0000_0000_0000_0000
  {
    var h := x % 0x8000_0000_0000_0000;
    assert Twice(x) == h * 2;
    Pow2Small();
    OrDisjoint(h, low, 1);
  }

  /** `rem <<= 1; rem |= bit`, from the top word down. */
  method ShiftInBit(rem: array<Word>, bit: nat)
    requires rem.Length > 0 && bit <= 1
    modifies rem
    ensures rem[..] == Doubled(old(rem[..]), bit)
  {
    hide Or, Twice;
    ghost var R := rem[..];
    var j := rem.Length - 1;
    while j > 0
      invariant 0 <= j < rem.Length
      invariant forall k :: 0 <= k <= j ==> rem[k] == R[k]
      invariant forall k :: j < k < rem.Length ==>
                  rem[k] == Twice(R[k]) + R[k - 1] / 0x8000_0000_0000_0000
    {
      OrIntoDouble(rem[j], rem[j - 1] / 0x8000_0000_0000_0000);
      rem[j] := Or(Twice(rem[j]), rem[j - 1] / 0x8000_0000_0000_0000);
      j := j - 1;
    }
    OrIntoDouble(rem[0], bit);
    rem[0] := Twice(rem[0]);
    rem[0] := Or(rem[0], bit);
    forall k | 0 <= k < rem.Length
      ensures rem[k] == Doubled(R, bit)[k]
    {
      DoubledAt(R, bit, k);
    }
  }

  /** The shift loses nothing as long as the result fits. */
  lemma DoubledFits(s: seq<Word>, c: nat)
    requires c <= 1 && 2 * Val(s) + c < Base(|s|)
    ensures Val(Doubled(s, c)) == 2 * Val(s) + c
  {
    DoubledVal(s, c);
    CarryTimes(DoubledOut(s, c), Base(|s|));
  }

  // ---------------------------------------------------------------------------
  // Long division.
  // ---------------------------------------------------------------------------

  /** Subtracting in place when the difference is not negative. */
  method SubtractFrom(rem: array<Word>, b: array<Word>)
    requires rem.Length == b.Length && rem != b && Val(rem[..]) >= Val(b[..])
    modifies rem
    ensures Val(rem[..]) == old(Val(rem[..])) - Val(b[..])
  {
    hide Val, Base;
    var carry := AddSubWords(rem, rem, b, true);
    ValBound(rem[..]);
    CarryTimes(carry, Base(rem.Length));
  }

  /** `q[i / 64] |= 1 << (i % 64)` adds `2^i` when that bit is clear. */
  method SetBit(q: array<Word>, i: nat)
    requires i < 64 * q.Length && Shr(Val(q[..]), i) % 2 == 0
    modifies q
    ensures Val(q[..]) == old(Val(q[..])) + Pow2(i)
  {
    hide Val, Base, Or, Shr, Pow2;
    ghost var Q := q[..];
    var w, bit := i / 64, i % 64;
    BitOfVal(Q, i);
    assert Pow2(bit) < Pow2(64) == 0x1_0000_0000_0000_0000 by { Pow2Words(); Pow2Monotone(bit, 64); }
    OrSetBit(Q[w], bit);
    OrBound(Q[w], Pow2(bit), 64);
    q[w] := Or(q[w], Pow2(bit));
    assert q[..] == Q[w := Q[w] + Pow2(bit)];
    ValUpdate(Q, w, Q[w] + Pow2(bit));
    BaseIsPow2(w);
    Pow2Add(bit, 64 * w);
  }

  lemma ShrStep(x: nat, i: nat)
    requires i > 0
    ensures Shr(x, i - 1) == 2 * Shr(x, i) + Shr(x, i - 1) % 2
  {
    ShrAdd(x, i - 1, 1);
    assert Shr(Shr(x, i - 1), 1) == Shr(Shr(x, i - 1) / 2, 0);
  }

  lemma {:induction false} ShrAtMost(x: nat, i: nat)
    ensures Shr(x, i) <= x
  {
    if i > 0 {
      ShrAtMost(x / 2, i - 1);
    }
  }

  /** A multiple of a power of two has its lower bits clear. */
  lemma BitBelowMultiple(Q: nat, i: nat)
    requires i > 0
    ensures Q * Pow2(i) == 2 * Q * Pow2(i - 1)
    ensures Shr(2 * Q * Pow2(i - 1), i - 1) % 2 == 0
  {
    Associate(Q, 2, Pow2(i - 1));
    ShrIsDiv(2 * Q * Pow2(i - 1), i - 1);
    MulDivCancel(2 * Q, Pow2(i - 1));
  }

  /** One bit of the quotient; `Q` is the quotient of the part of the dividend above bit `i`. */
  method DivideBit(q: array<Word>, rem: array<Word>, a: array<Word>, b: array<Word>, i: nat, ghost Q: nat)
      returns (ghost Q': nat)
    requires q.Length == rem.Length == a.Length == b.Length
    requires q != rem && q != a && q != b && rem != a && rem != b
    requires i < 64 * a.Length
    requires Val(rem[..]) < Val(b[..])
    requires Shr(Val(a[..]), i + 1) == Q * Val(b[..]) + Val(rem[..])
    requires Val(q[..]) == Q * Pow2(i + 1)
    modifies q, rem
    ensures Val(rem[..]) < Val(b[..])
    ensures Shr(Val(a[..]), i) == Q' * Val(b[..]) + Val(rem[..])
    ensures Val(q[..]) == Q' * Pow2(i)
  {
    hide Val, Base, Shr, Pow2, Or;
    ghost var A, B, R := Val(a[..]), Val(b[..]), Val(rem[..]);
    var bit := Shr(a[i / 64], i % 64) % 2;
    BitOfVal(a[..], i);
    ShrStep(A, i + 1);
    ghost var R1 := 2 * R + bit;
    assert R1 < Base(rem.Length) by {
      MulMonotone(0, Q, B);
      ShrAtMost(A, i);
      ValBound(a[..]);
    }
    DoubledFits(rem[..], bit);
    ShiftInBit(rem, bit);
    BitBelowMultiple(Q, i + 1);
    Associate(2, Q, B);
    Q' := 2 * Q;
    var c := CompareWords(rem, b);
    if c >= 0 {
      SubtractFrom(rem, b);
      SetBit(q, i);
      Q' := 2 * Q + 1;
      Distribute(2 * Q, 1, B);
      Distribute(2 * Q, 1, Pow2(i));
    }
  }

  method ClearWords(r: array<Word>)
    modifies r
    ensures forall i :: 0 <= i < r.Length ==> r[i] == 0
    ensures Val(r[..]) == 0
  {
    for i := 0 to r.Length
      invariant forall j :: 0 <= j < i ==> r[j] == 0
    {
      r[i] := 0;
    }
    ValZeros(r[..]);
  }

  /**
  Unsigned division with remainder, for every dividend that fits the width.  The loop counts
  down in an `int`, so widths from 2^31 on are not divided at all; at 2^31 itself the counter
  overflows.
   */
  method UDivRem(q: array<Word>, rem: array<Word>, a: array<Word>, b: array<Word>, numbits: nat)
    requires q.Length == rem.Length == a.Length == b.Length
    requires q != rem && q != a && q != b && rem != a && rem != b
    requires 1 <= numbits <= 64 * a.Length && numbits < 0x1_0000_0000 && numbits != 0x8000_0000
    requires Val(a[..]) < Pow2(numbits) && Val(b[..]) != 0
    modifies q, rem
    ensures (Val(a[..]) == Val(q[..]) * Val(b[..]) + Val(rem[..]) && Val(rem[..]) < Val(b[..]))
       <==> (numbits < 0x8000_0000 || Val(a[..]) == 0)
  {
    hide Val, Base, Shr, Pow2;
    ClearWords(q);
    ClearWords(rem);
    if numbits >= 0x8000_0000 {
      // `(int)numbits - 1` is negative and the loop does not run.
      return;
    }
    DivideBits(q, rem, a, b, numbits);
  }

  /** The loop itself, over all bits of the dividend. */
  method DivideBits(q: array<Word>, rem: array<Word>, a: array<Word>, b: array<Word>, numbits: nat)
    requires q.Length == rem.Length == a.Length == b.Length
    requires q != rem && q != a && q != b && rem != a && rem != b
    requires 1 <= numbits <= 64 * a.Length
    requires Val(a[..]) < Pow2(numbits) && Val(b[..]) != 0 && Val(q[..]) == Val(rem[..]) == 0
    modifies q, rem
    ensures Val(a[..]) == Val(q[..]) * Val(b[..]) + Val(rem[..])
    ensures Val(rem[..]) < Val(b[..])
  {
    hide Val, Base, Shr, Pow2;
    ghost var A, B := a[..], b[..];
    ghost var Q: nat := 0;
    ShrSmall(Val(A), numbits);
    var i := numbits;
    while i > 0
      invariant 0 <= i <= numbits && a[..] == A && b[..] == B
      invariant Val(rem[..]) < Val(b[..])
      invariant Shr(Val(a[..]), i) == Q * Val(b[..]) + Val(rem[..])
      invariant Val(q[..]) == Q * Pow2(i)
    {
      i := i - 1;
      Q := DivideBit(q, rem, a, b, i, Q);
    }
    DivisionDone(Val(A), Q);
  }

  lemma DivisionDone(x: nat, Q: nat)
    ensures Shr(x, 0) == x && Q * Pow2(0) == Q
  {
  }
}
