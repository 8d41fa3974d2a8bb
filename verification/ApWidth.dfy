/**
Integers of an arbitrary bit width in word arrays and in memory, as in src/APInt.c: loading
and storing bytes, clearing the bits above the width, reading the sign, sign extension.
 */
module ApWidth {
  import opened Basics
  import opened Bits
  import opened Words

  function NWords(numbits: nat): nat {
    (numbits + 63) / 64
  }

  function NBytes(numbits: nat): nat {
    (numbits + 7) / 8
  }

  /**
  A width that a primitive type can have (src/builtins.c).  The functions take any C `unsigned`,
  but for the top half of that range the loop counter of a division, an `int`, turns negative.
   */
  predicate IsWidth(numbits: nat) {
    1 <= numbits < 0x80_0000
  }

  /** The two's complement reading of an n-bit number. */
  function Signed(x: nat, n: nat): int
    requires n >= 1
  {
    if x < Pow2(n - 1) then x else x - Pow2(n)
  }

  // ---------------------------------------------------------------------------
  // The top word.
  // ---------------------------------------------------------------------------

  /** How many bits of the top word belong to the number. */
  function TopBits(numbits: nat): (r: nat)
    requires numbits >= 1
    ensures 1 <= r <= 64 && numbits == 64 * (NWords(numbits) - 1) + r
  {
    if numbits % 64 == 0 then 64 else numbits % 64
  }

  function TopWordMask(numbits: nat): (r: Word)
    requires numbits >= 1
    ensures r == Pow2(TopBits(numbits)) - 1
  {
    Pow2Words();
    Pow2Monotone(TopBits(numbits), 64);
    var r := numbits % 64;
    if r != 0 then Pow2(r) - 1 else 0xffff_ffff_ffff_ffff
  }

  lemma WidthWeight(numbits: nat)
    requires numbits >= 1
    ensures NWords(numbits) >= 1
    ensures Pow2(numbits) == Base(NWords(numbits) - 1) * Pow2(TopBits(numbits))
    ensures Pow2(numbits) <= Base(NWords(numbits))
  {
    var k, t := NWords(numbits) - 1, TopBits(numbits);
    BaseIsPow2(k);
    Pow2Add(64 * k, t);
    BaseIsPow2(k + 1);
    Pow2Monotone(numbits, 64 * (k + 1));
  }

  /** Reducing the top word reduces the number. */
  lemma TopWordReduces(s: seq<Word>, k: nat, p: nat, w: Word)
    requires |s| == k + 1 && p >= 1 && w == s[k] % p
    ensures Base(k) * p > 0 && Val(s[k := w]) == Val(s) % (Base(k) * p)
  {
    hide Val, Base;
    var B := Base(k);
    var low := Val(s[..k]);
    assert s[..k + 1] == s && s[k := w][..k + 1] == s[k := w] && s[k := w][..k] == s[..k];
    ValPrefix(s, k);
    ValPrefix(s[k := w], k);
    ValBound(s[..k]);
    MulMonotone(1, p, B);
    MulBound(w, B, p - 1, B);
    MulMonotone(0, w, B);
    Distribute(p, 1, B);
    assert s[k] == p * (s[k] / p) + w;
    Distribute(p * (s[k] / p), w, B);
    Associate(s[k] / p, p, B);
    DivModUnique(Val(s), B * p, s[k] / p, low + w * B);
  }

  method MaskTop(a: array<Word>, numbits: nat)
    requires numbits >= 1 && a.Length == NWords(numbits)
    modifies a
    ensures Val(a[..]) == old(Val(a[..])) % Pow2(numbits)
  {
    hide Val, Base, And, Pow2;
    ghost var A := a[..];
    var k := a.Length - 1;
    ghost var p := Pow2(TopBits(numbits));
    AndLowMask(A[k], TopBits(numbits));
    assert And(A[k], TopWordMask(numbits)) == A[k] % p;
    ModBelow(A[k], p);
    a[k] := And(a[k], TopWordMask(numbits));
    assert a[..] == A[k := A[k] % p];
    TopWordReduces(A, k, p, A[k] % p);
    WidthWeight(numbits);
  }

  lemma ModBelow(x: nat, p: nat)
    requires p >= 1
    ensures 0 <= x % p <= x && x % p < p
  {
    if x < p {
      DivModUnique(x, p, 0, x);
    }
  }

  // ---------------------------------------------------------------------------
  // The sign.
  // ---------------------------------------------------------------------------

  /** Bit n - 1 of a number below 2^n. */
  lemma SignBit(x: nat, n: nat)
    requires n >= 1 && x < Pow2(n)
    ensures Shr(x, n - 1) % 2 == (if x >= Pow2(n - 1) then 1 else 0)
  {
    hide Shr;
    var h := Pow2(n - 1);
    ShrIsDiv(x, n - 1);
    if x >= h {
      DivModUnique(x, h, 1, x - h);
    } else {
      DivModUnique(x, h, 0, x);
    }
  }

  /** The sign bit, also for numbers in more words than the width needs. */
  method IsNegative(a: array<Word>, numbits: nat) returns (neg: bool)
    requires numbits >= 1 && a.Length >= NWords(numbits)
    ensures neg <==> Shr(Val(a[..]), numbits - 1) % 2 == 1
    ensures Val(a[..]) < Pow2(numbits) ==> (neg <==> Val(a[..]) >= Pow2(numbits - 1))
    ensures Val(a[..NWords(numbits)]) < Pow2(numbits) ==>
              (neg <==> Val(a[..NWords(numbits)]) >= Pow2(numbits - 1))
  {
    hide Val, Shr, Pow2;
    var nw := NWords(numbits);
    BitOfVal(a[..], numbits - 1);
    BitOfVal(a[..nw], numbits - 1);
    assert (numbits - 1) / 64 == nw - 1;
    neg := Shr(a[nw - 1], (numbits - 1) % 64) % 2 == 1;
    if Val(a[..]) < Pow2(numbits) {
      SignBit(Val(a[..]), numbits);
    }
    if Val(a[..nw]) < Pow2(numbits) {
      SignBit(Val(a[..nw]), numbits);
    }
  }

  // ---------------------------------------------------------------------------
  // Extension to more words.
  // ---------------------------------------------------------------------------

  /** A number read as signed or as unsigned. */
  function Reading(x: nat, n: nat, isSigned: bool): int
    requires n >= 1
  {
    if isSigned then Signed(x, n) else x
  }

  lemma TopWordBelow(s: seq<Word>, numbits: nat)
    requires numbits >= 1 && |s| == NWords(numbits) && Val(s) < Pow2(numbits)
    ensures s[|s| - 1] < Pow2(TopBits(numbits)) <= 0x1_0000_0000_0000_0000
  {
    hide Val, Base, Pow2;
    var k, p := |s| - 1, Pow2(TopBits(numbits));
    assert p <= 0x1_0000_0000_0000_0000 by { Pow2Words(); Pow2Monotone(TopBits(numbits), 64); }
    assert s[..k + 1] == s;
    WidthWeight(numbits);
    ValPrefix(s, k);
    if s[k] >= p {
      MulMonotone(p, s[k], Base(k));
    }
  }

  /** A word whose bits above the width are set. */
  function WithHighBits(w: Word, p: nat): (r: Word)
    requires w < p <= 0x1_0000_0000_0000_0000
  {
    w + (0x1_0000_0000_0000_0000 - p)
  }

  /** Setting all bits of the top word above the width adds what they weigh. */
  lemma SetTopBits(s: seq<Word>, numbits: nat, w: Word)
    requires numbits >= 1 && |s| == NWords(numbits)
    requires w == s[|s| - 1] + (0x1_0000_0000_0000_0000 - Pow2(TopBits(numbits)))
    ensures Val(s[|s| - 1 := w]) == Val(s) + Base(|s|) - Pow2(numbits)
  {
    hide Val, Base, Pow2;
    var k, p := |s| - 1, Pow2(TopBits(numbits));
    WidthWeight(numbits);
    ValUpdate(s, k, w);
    Distribute(0x1_0000_0000_0000_0000, p, Base(k));
    BaseStep(k);
  }

  lemma BaseStep(k: nat)
    ensures Base(k + 1) == 0x1_0000_0000_0000_0000 * Base(k)
  {
  }

  /** `a[top] |= ~mask`. */
  method FillTopWord(a: array<Word>, numbits: nat)
    requires numbits >= 1 && a.Length >= NWords(numbits) && Val(a[..NWords(numbits)]) < Pow2(numbits)
    modifies a
    ensures Val(a[..NWords(numbits)])
         == old(Val(a[..NWords(numbits)])) + Base(NWords(numbits)) - Pow2(numbits)
  {
    hide Val, Base, Pow2, Or;
    var nw := NWords(numbits);
    var k := nw - 1;
    ghost var s := a[..nw];
    ghost var t := TopBits(numbits);
    ghost var p, q := Pow2(t), Pow2(64 - t);
    TopWordBelow(s, numbits);
    ghost var w := WithHighBits(s[k], p);
    SetTopBits(s, numbits, w);
    assert p * q == 0x1_0000_0000_0000_0000 by { Pow2Words(); Pow2Add(t, 64 - t); }
    var mask := TopWordMask(numbits);
    if numbits % 64 > 0 {
      assert 0xffff_ffff_ffff_ffff - mask == (q - 1) * p by { Distribute(q, 1, p); }
      OrComm(s[k], (q - 1) * p);
      OrDisjoint(q - 1, s[k], t);
      a[k] := Or(a[k], 0xffff_ffff_ffff_ffff - mask);
    } else {
      assert p == 0x1_0000_0000_0000_0000 by { Pow2Words(); }
    }
    assert a[..nw] == s[k := w];
  }

  /** Fill the words from `from` on. */
  method FillWords(a: array<Word>, from: nat, fill: Word)
    requires from <= a.Length
    modifies a
    ensures a[..from] == old(a[..from])
    ensures forall i :: from <= i < a.Length ==> a[i] == fill
  {
    for i := from to a.Length
      invariant a[..from] == old(a[..from])
      invariant forall j :: from <= j < i ==> a[j] == fill
    {
      a[i] := fill;
    }
  }

  lemma ExtensionVal(s: seq<Word>, nw: nat, neg: bool)
    requires nw <= |s|
    requires forall i :: nw <= i < |s| ==> s[i] == if neg then 0xffff_ffff_ffff_ffff else 0
    ensures Val(s) == Val(s[..nw]) + (if neg then Base(|s|) - Base(nw) else 0)
  {
    hide Val, Base;
    var t := s[nw..];
    ValSplit(s, nw);
    BaseAdd(nw, |t|);
    if neg {
      ValOnes(t);
      Distribute(Base(|t|), 1, Base(nw));
    } else {
      ValZeros(t);
    }
  }

  /** Zero- or sign-extend the number in the low words to the whole array. */
  method Extend(a: array<Word>, numbits: nat, isSign: bool)
    requires numbits >= 1 && a.Length >= NWords(numbits) && Val(a[..NWords(numbits)]) < Pow2(numbits)
    modifies a
    ensures var v := Reading(old(Val(a[..NWords(numbits)])), numbits, isSign);
            Val(a[..]) == if v < 0 then v + Base(a.Length) else v
  {
    hide Val, Base, Pow2;
    var nw := NWords(numbits);
    var neg := IsNegative(a, numbits);
    assert Pow2(numbits) == 2 * Pow2(numbits - 1) by { Pow2Add(1, numbits - 1); Pow2Small(); }
    if isSign && neg {
      FillTopWord(a, numbits);
      FillWords(a, nw, 0xffff_ffff_ffff_ffff);
      ExtensionVal(a[..], nw, true);
    } else {
      FillWords(a, nw, 0);
      ExtensionVal(a[..], nw, false);
    }
    assert a[..][..nw] == a[..nw];
  }

  // ---------------------------------------------------------------------------
  // Memory.
  // ---------------------------------------------------------------------------

  /** The number in little-endian bytes. */
  function ByteVal(s: seq<Byte>): nat {
    if |s| == 0 then 0 else s[0] + 0x100 * ByteVal(s[1..])
  }

  /** The unsigned n-bit number in memory: the bits above the width are ignored. */
  ghost function Unsigned(mem: seq<Byte>, n: nat): nat
    requires |mem| >= NBytes(n)
  {
    ModBelow(ByteVal(mem[..NBytes(n)]), Pow2(n));
    ByteVal(mem[..NBytes(n)]) % Pow2(n)
  }

  lemma {:induction false} ByteValAppend(s: seq<Byte>, t: seq<Byte>)
    ensures ByteVal(s + t) == ByteVal(s) + Pow2(8 * |s|) * ByteVal(t)
  {
    if |s| == 0 {
      assert s + t == t;
    } else {
      assert (s + t)[1..] == s[1..] + t;
      ByteValAppend(s[1..], t);
      Pow2Small();
      Pow2Add(8, 8 * (|s| - 1));
      Associate(0x100, Pow2(8 * (|s| - 1)), ByteVal(t));
    }
  }

  lemma {:induction false} ByteValBound(s: seq<Byte>)
    ensures ByteVal(s) < Pow2(8 * |s|)
  {
    if |s| > 0 {
      ByteValBound(s[1..]);
      Pow2Small();
      Pow2Add(8, 8 * (|s| - 1));
    }
  }

  /** The eight bytes of word `i`, or what there is of them. */
  function WordBytes(s: seq<Byte>): (r: Word)
    requires |s| <= 8
    ensures r == ByteVal(s)
  {
    ByteValBound(s);
    Pow2Words();
    Pow2Monotone(8 * |s|, 64);
    ByteVal(s)
  }

  /** Bytes copied over cleared words. */
  function WordsOf(s: seq<Byte>, nw: nat): (r: seq<Word>)
    requires |s| <= 8 * nw
    ensures |r| == nw
    decreases nw
  {
    if nw == 0 then []
    else if |s| <= 8 then [WordBytes(s)] + WordsOf([], nw - 1)
    else [WordBytes(s[..8])] + WordsOf(s[8..], nw - 1)
  }

  lemma {:induction false} WordsOfVal(s: seq<Byte>, nw: nat)
    requires |s| <= 8 * nw
    ensures Val(WordsOf(s, nw)) == ByteVal(s)
    decreases nw
  {
    if nw > 0 {
      var rest := if |s| <= 8 then [] else s[8..];
      WordsOfVal(rest, nw - 1);
      assert WordsOf(s, nw)[1..] == WordsOf(rest, nw - 1);
      if |s| > 8 {
        assert s == s[..8] + s[8..];
        ByteValAppend(s[..8], s[8..]);
        Pow2Words();
      }
    }
  }

  method Load(src: array<Byte>, numbits: nat) returns (dst: array<Word>)
    requires IsWidth(numbits) && src.Length >= NBytes(numbits)
    ensures fresh(dst) && dst.Length == NWords(numbits)
    ensures Val(dst[..]) == Unsigned(src[..], numbits) < Pow2(numbits)
  {
    hide Val, ByteVal, Pow2, WordsOf;
    var nw, nb := NWords(numbits), NBytes(numbits);
    var words := WordsOf(src[..nb], nw);
    dst := new Word[nw](i requires 0 <= i < nw => words[i]);
    assert dst[..] == words;
    WordsOfVal(src[..nb], nw);
    assert src[..][..nb] == src[..nb];
    MaskTop(dst, numbits);
    ModBelow(ByteVal(src[..nb]), Pow2(numbits));
  }

  /** The low `k` bytes of a number. */
  function ToBytes(x: nat, k: nat): (r: seq<Byte>)
    ensures |r| == k
  {
    if k == 0 then [] else [x % 0x100] + ToBytes(x / 0x100, k - 1)
  }

  lemma {:induction false} ToBytesVal(x: nat, k: nat)
    requires x < Pow2(8 * k)
    ensures ByteVal(ToBytes(x, k)) == x
    decreases k
  {
    if k > 0 {
      Pow2Small();
      Pow2Add(8, 8 * (k - 1));
      ToBytesVal(x / 0x100, k - 1);
      assert ToBytes(x, k)[1..] == ToBytes(x / 0x100, k - 1);
    }
  }

  /** The memory image of a word array. */
  function BytesOf(ws: seq<Word>): (r: seq<Byte>)
    ensures |r| == 8 * |ws|
  {
    if |ws| == 0 then [] else ToBytes(ws[0], 8) + BytesOf(ws[1..])
  }

  lemma {:induction false} BytesOfVal(ws: seq<Word>)
    ensures ByteVal(BytesOf(ws)) == Val(ws)
  {
    if |ws| > 0 {
      BytesOfVal(ws[1..]);
      ByteValAppend(ToBytes(ws[0], 8), BytesOf(ws[1..]));
      Pow2Words();
      ToBytesVal(ws[0], 8);
    }
  }

  /** The low bytes hold the whole number if it fits. */
  lemma LowBytes(s: seq<Byte>, k: nat)
    requires k <= |s| && ByteVal(s) < Pow2(8 * k)
    ensures ByteVal(s[..k]) == ByteVal(s)
  {
    hide ByteVal, Pow2;
    var y := ByteVal(s[k..]);
    assert s == s[..k] + s[k..];
    ByteValAppend(s[..k], s[k..]);
    if y > 0 {
      MulMonotone(1, y, Pow2(8 * k));
    }
  }

  /** Copy the low bytes of the words; what is stored has no bits above the width. */
  method Store(dst: array<Byte>, src: array<Word>, numbits: nat)
    requires IsWidth(numbits) && dst.Length >= NBytes(numbits) && src.Length == NWords(numbits)
    requires Val(src[..]) < Pow2(numbits)
    modifies dst
    ensures Unsigned(dst[..], numbits) == ByteVal(dst[..NBytes(numbits)]) == Val(src[..])
    ensures dst[NBytes(numbits)..] == old(dst[NBytes(numbits)..])
  {
    hide Val, ByteVal, Pow2, BytesOf;
    var nb := NBytes(numbits);
    ghost var x := Val(src[..]);
    var bytes := BytesOf(src[..]);
    for i := 0 to nb
      invariant src[..] == old(src[..])
      invariant dst[..i] == bytes[..i]
      invariant dst[nb..] == old(dst[nb..])
    {
      dst[i] := bytes[i];
    }
    BytesOfVal(src[..]);
    Pow2Monotone(numbits, 8 * nb);
    LowBytes(bytes, nb);
    assert dst[..][..nb] == dst[..nb] == bytes[..nb];
    DivModUnique(x, Pow2(numbits), 0, x);
  }
}
