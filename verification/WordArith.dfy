/**
Comparison, addition, subtraction and negation of multiword numbers, as in src/APInt.c.
The result array may be one of the operands.
 */
module WordArith {
  import opened Bits
  import opened Words

  // ---------------------------------------------------------------------------
  // Comparison.
  // ---------------------------------------------------------------------------

  /** The highest differing word decides. */
  lemma TopWordDecides(s: seq<Word>, t: seq<Word>, i: nat)
    requires |s| == |t| && i < |s| && s[i] < t[i] && s[i + 1..] == t[i + 1..]
    ensures Val(s) < Val(t)
  {
    ValSplit(s, i + 1);
    ValSplit(t, i + 1);
    ValPrefix(s, i);
    ValPrefix(t, i);
    ValBound(s[..i]);
    MulMonotone(s[i] + 1, t[i], Base(i));
    Distribute(s[i], 1, Base(i));
  }

  method CompareWords(a: array<Word>, b: array<Word>) returns (r: int)
    requires a.Length == b.Length
    ensures r == if Val(a[..]) < Val(b[..]) then -1 else if Val(a[..]) > Val(b[..]) then 1 else 0
  {
    hide Val;
    var i := a.Length;
    while i > 0
      invariant 0 <= i <= a.Length && a[i..] == b[i..]
    {
      i := i - 1;
      if a[i] < b[i] {
        TopWordDecides(a[..], b[..], i);
        return -1;
      }
      if a[i] > b[i] {
        TopWordDecides(b[..], a[..], i);
        return 1;
      }
      assert a[i..] == [a[i]] + a[i + 1..] && b[i..] == [b[i]] + b[i + 1..];
    }
    assert a[..] == b[..];
    return 0;
  }

  lemma NonzeroWord(s: seq<Word>, i: nat)
    requires i < |s| && s[i] != 0
    ensures Val(s) != 0
  {
    if Val(s) == 0 {
      ValIsZero(s);
    }
  }

  method IsZero(a: array<Word>) returns (r: bool)
    ensures r <==> Val(a[..]) == 0
  {
    for i := 0 to a.Length
      invariant forall j :: 0 <= j < i ==> a[j] == 0
    {
      if a[i] != 0 {
        NonzeroWord(a[..], i);
        return false;
      }
    }
    ValZeros(a[..]);
    return true;
  }

  // ---------------------------------------------------------------------------
  // Addition and subtraction.
  // ---------------------------------------------------------------------------

  function Not(w: Word): Word {
    0xffff_ffff_ffff_ffff - w
  }

  function NotAll(s: seq<Word>): (r: seq<Word>)
    ensures |r| == |s|
  {
    seq(|s|, i requires 0 <= i < |s| => Not(s[i]))
  }

  lemma {:induction false} ValNotAll(s: seq<Word>)
    ensures Val(NotAll(s)) == Base(|s|) - 1 - Val(s)
  {
    if |s| > 0 {
      assert NotAll(s)[1..] == NotAll(s[1..]);
      ValNotAll(s[1..]);
    }
  }

  /** One word of a sum with the carries found by comparing, as the code does. */
  method AddWord(a: Word, b: Word, carry: nat) returns (sum: Word, carryOut: nat)
    requires carry <= 1
    ensures carryOut <= 1 && sum + carryOut * 0x1_0000_0000_0000_0000 == a + b + carry
  {
    var s := (a + b) % 0x1_0000_0000_0000_0000;
    var c1 := if s < a then 1 else 0;
    sum := (s + carry) % 0x1_0000_0000_0000_0000;
    var c2 := if sum < s then 1 else 0;
    carryOut := if c1 == 1 || c2 == 1 then 1 else 0;
  }

  /** Carrying a digit equation to weight `Base(i)`. */
  lemma WeighDigit(a: nat, b: nat, c: nat, sum: nat, c': nat, i: nat)
    requires sum + c' * 0x1_0000_0000_0000_0000 == a + b + c
    ensures sum * Base(i) + c' * Base(i + 1) == a * Base(i) + b * Base(i) + c * Base(i)
  {
    var B := Base(i);
    Distribute(a + b, c, B);
    Distribute(a, b, B);
    Distribute(sum, c' * 0x1_0000_0000_0000_0000, B);
    Associate(c', 0x1_0000_0000_0000_0000, B);
  }

  method AddSubWords(r: array<Word>, a: array<Word>, b: array<Word>, negateB: bool) returns (carry: nat)
    requires r.Length == a.Length == b.Length
    modifies r
    ensures carry <= 1
    ensures Val(r[..]) + carry * Base(r.Length)
         == old(Val(a[..])) + (if negateB then Base(r.Length) - old(Val(b[..])) else old(Val(b[..])))
  {
    hide Val, Base;
    var nw := r.Length;
    ghost var A, B := a[..], if negateB then NotAll(b[..]) else b[..];
    carry := if negateB then 1 else 0;
    ghost var c0 := carry;
    AddSubStart(r[..], A, B, c0);
    var i := 0;
    while i < nw
      invariant 0 <= i <= nw && carry <= 1
      invariant forall j :: i <= j < nw ==> a[j] == A[j]
      invariant forall j :: i <= j < nw ==> B[j] == if negateB then Not(b[j]) else b[j]
      invariant Val(r[..i]) + carry * Base(i) == Val(A[..i]) + Val(B[..i]) + c0
    {
      var bw := if negateB then Not(b[i]) else b[i];
      var sum, carryOut := AddWord(a[i], bw, carry);
      ghost var before := r[..i];
      r[i] := sum;
      assert r[..i] == before;
      WeighDigit(A[i], B[i], carry, sum, carryOut, i);
      ValPrefix(r[..], i);
      ValPrefix(A, i);
      ValPrefix(B, i);
      assert r[..][..i + 1] == r[..i + 1] && r[..][..i] == r[..i];
      carry := carryOut;
      i := i + 1;
    }
    assert r[..nw] == r[..] && A[..nw] == A && B[..nw] == B;
    ValNotAll(old(b[..]));
  }

  lemma AddSubStart(r: seq<Word>, a: seq<Word>, b: seq<Word>, c: nat)
    ensures Val(r[..0]) + c * Base(0) == Val(a[..0]) + Val(b[..0]) + c
  {
  }

  // ---------------------------------------------------------------------------
  // Negation.
  // ---------------------------------------------------------------------------

  /** Negation is complement plus one; the carry survives only over zero words. */
  method NegateWords(r: array<Word>, a: array<Word>)
    requires r.Length == a.Length
    modifies r
    ensures Val(r[..]) == if old(Val(a[..])) == 0 then 0 else Base(r.Length) - old(Val(a[..]))
  {
    hide Val, Base;
    var nw := r.Length;
    ghost var A := a[..];
    ghost var B := NotAll(A);
    var carry := 1;
    AddSubStart(r[..], B, B, 1);
    ValNone(B[..0]);
    var i := 0;
    while i < nw
      invariant 0 <= i <= nw && 0 <= carry <= 1
      invariant forall j :: i <= j < nw ==> a[j] == A[j]
      invariant Val(r[..i]) + carry * Base(i) == Val(B[..i]) + 1
    {
      var val := (Not(a[i]) + carry) % 0x1_0000_0000_0000_0000;
      var carryOut := if a[i] == 0 && carry == 1 then 1 else 0;
      ghost var before := r[..i];
      r[i] := val;
      assert r[..i] == before;
      WeighDigit(B[i], 0, carry, val, carryOut, i);
      ValPrefix(r[..], i);
      ValPrefix(B, i);
      assert r[..][..i + 1] == r[..i + 1] && r[..][..i] == r[..i];
      carry := carryOut;
      i := i + 1;
    }
    assert r[..nw] == r[..] && B[..nw] == B;
    ValNotAll(A);
    ValBound(A);
    ValBound(r[..]);
  }
}
