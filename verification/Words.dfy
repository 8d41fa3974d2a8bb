/**
Multiword numbers: an array of 64-bit words, least significant first, stands for the sum of
w[i] * 2^(64 i).  Used by the models of src/APInt.c.
 */
module Words {
  import opened Bits

  type Word = w: nat | w < 0x1_0000_0000_0000_0000

  /** The weight of word `k`. */
  function Base(k: nat): (r: nat)
    ensures r >= 1
  {
    if k == 0 then 1 else 0x1_0000_0000_0000_0000 * Base(k - 1)
  }

  /** The number a sequence of words stands for. */
  function Val(s: seq<Word>): nat {
    if |s| == 0 then 0 else s[0] + 0x1_0000_0000_0000_0000 * Val(s[1..])
  }

  lemma {:induction false} BaseIsPow2(k: nat)
    ensures Base(k) == Pow2(64 * k)
  {
    if k > 0 {
      BaseIsPow2(k - 1);
      Pow2Words();
      Pow2Add(64, 64 * (k - 1));
    }
  }

  lemma {:induction false} BaseAdd(j: nat, k: nat)
    ensures Base(j + k) == Base(j) * Base(k)
  {
    if j > 0 {
      BaseAdd(j - 1, k);
      Associate(0x1_0000_0000_0000_0000, Base(j - 1), Base(k));
    }
  }

  lemma {:induction false} ValBound(s: seq<Word>)
    ensures Val(s) < Base(|s|)
  {
    if |s| > 0 {
      ValBound(s[1..]);
    }
  }

  /** Concatenation, low part first. */
  lemma {:induction false} ValAppend(s: seq<Word>, t: seq<Word>)
    ensures Val(s + t) == Val(s) + Base(|s|) * Val(t)
  {
    if |s| == 0 {
      assert s + t == t;
    } else {
      assert (s + t)[1..] == s[1..] + t;
      ValAppend(s[1..], t);
      Associate(0x1_0000_0000_0000_0000, Base(|s| - 1), Val(t));
    }
  }

  lemma ValNone(s: seq<Word>)
    requires |s| == 0
    ensures Val(s) == 0
  {
  }

  lemma ValOne(w: Word)
    ensures Val([w]) == w
  {
    assert [w][1..] == [];
  }

  /** One more word at the top. */
  lemma ValPrefix(s: seq<Word>, i: nat)
    requires i < |s|
    ensures Val(s[..i + 1]) == Val(s[..i]) + s[i] * Base(i)
  {
    assert s[..i + 1] == s[..i] + [s[i]];
    ValAppend(s[..i], [s[i]]);
    ValOne(s[i]);
    Distribute(s[i], 0, Base(i));
  }

  /** Split at word `i`. */
  lemma ValSplit(s: seq<Word>, i: nat)
    requires i <= |s|
    ensures Val(s) == Val(s[..i]) + Base(i) * Val(s[i..])
  {
    assert s == s[..i] + s[i..];
    ValAppend(s[..i], s[i..]);
  }

  /** Truncation to `i` words is reduction modulo the weight of word `i`. */
  lemma ValTruncate(s: seq<Word>, i: nat)
    requires i <= |s|
    ensures Val(s[..i]) == Val(s) % Base(i) && Val(s[i..]) == Val(s) / Base(i)
  {
    ValSplit(s, i);
    ValBound(s[..i]);
    Distribute(Val(s[i..]), 0, Base(i));
    DivModUnique(Val(s), Base(i), Val(s[i..]), Val(s[..i]));
  }

  /** Equal numbers of equal length have equal words. */
  lemma {:induction false} ValInjective(s: seq<Word>, t: seq<Word>)
    requires |s| == |t| && Val(s) == Val(t)
    ensures s == t
  {
    if |s| > 0 {
      ValInjective(s[1..], t[1..]);
      assert s == [s[0]] + s[1..] && t == [t[0]] + t[1..];
    }
  }

  function Fill(n: nat, w: Word): (s: seq<Word>)
    ensures |s| == n && forall i :: 0 <= i < n ==> s[i] == w
  {
    seq(n, i => w)
  }

  lemma {:induction false} ValZeros(s: seq<Word>)
    requires forall i :: 0 <= i < |s| ==> s[i] == 0
    ensures Val(s) == 0
  {
    if |s| > 0 {
      ValZeros(s[1..]);
    }
  }

  lemma {:induction false} ValOnes(s: seq<Word>)
    requires forall i :: 0 <= i < |s| ==> s[i] == 0xffff_ffff_ffff_ffff
    ensures Val(s) == Base(|s|) - 1
  {
    if |s| > 0 {
      ValOnes(s[1..]);
    }
  }

  lemma {:induction false} ValIsZero(s: seq<Word>)
    requires Val(s) == 0
    ensures forall i :: 0 <= i < |s| ==> s[i] == 0
  {
    if |s| > 0 {
      ValIsZero(s[1..]);
      assert forall i :: 1 <= i < |s| ==> s[i] == s[1..][i - 1];
    }
  }

  /** Changing one word changes the value by its weight. */
  lemma ValUpdate(s: seq<Word>, i: nat, w: Word)
    requires i < |s|
    ensures Val(s[i := w]) == Val(s) + (w - s[i]) * Base(i)
  {
    var t := s[i := w];
    ValSplit(s, i + 1);
    ValSplit(t, i + 1);
    ValPrefix(s, i);
    ValPrefix(t, i);
    assert t[..i] == s[..i] && t[i + 1..] == s[i + 1..];
    Distribute(w, s[i], Base(i));
  }

  // ---------------------------------------------------------------------------
  // Bits.
  // ---------------------------------------------------------------------------

  /** Shifting a sum whose high part is a multiple of the shift. */
  lemma {:induction false} ShrOfSum(x: nat, y: nat, k: nat)
    ensures Shr(x + y * Pow2(k), k) == Shr(x, k) + y
    decreases k
  {
    ShrIsDiv(x + y * Pow2(k), k);
    ShrIsDiv(x, k);
    ModAddMultiple(x, y, Pow2(k));
  }

  lemma {:induction false} ShrAdd(x: nat, j: nat, k: nat)
    ensures Shr(x, j + k) == Shr(Shr(x, j), k)
  {
    if j > 0 {
      ShrAdd(x / 2, j - 1, k);
    }
  }

  lemma ShrSmall(x: nat, k: nat)
    requires x < Pow2(k)
    ensures Shr(x, k) == 0
  {
    ShrIsDiv(x, k);
    DivModUnique(x, Pow2(k), 0, x);
  }

  lemma BitOfLowWord(w: Word, rest: nat, i: nat)
    requires i < 64
    ensures Shr(w + 0x1_0000_0000_0000_0000 * rest, i) % 2 == Shr(w, i) % 2
  {
    hide Shr;
    var p := Pow2(63 - i);
    assert 0x1_0000_0000_0000_0000 == p * (2 * Pow2(i)) by {
      Pow2Words();
      Pow2Add(63 - i, i + 1);
    }
    Associate(rest, p, 2 * Pow2(i));
    Associate(rest * p, 2, Pow2(i));
    ShrOfSum(w, 2 * (rest * p), i);
  }

  lemma ShrHighWord(w: Word, rest: nat, i: nat)
    requires i >= 64
    ensures Shr(w + 0x1_0000_0000_0000_0000 * rest, i) == Shr(rest, i - 64)
  {
    hide Shr;
    Pow2Words();
    ShrAdd(w + 0x1_0000_0000_0000_0000 * rest, 64, i - 64);
    ShrOfSum(w, rest, 64);
    ShrSmall(w, 64);
  }

  /** Bit `i` of the number is bit `i % 64` of word `i / 64`. */
  lemma {:induction false} BitOfVal(s: seq<Word>, i: nat)
    requires i < 64 * |s|
    ensures Shr(s[i / 64], i % 64) % 2 == Shr(Val(s), i) % 2
    decreases |s|
  {
    hide Shr;
    if i < 64 {
      BitOfLowWord(s[0], Val(s[1..]), i);
    } else {
      BitOfVal(s[1..], i - 64);
      ShrHighWord(s[0], Val(s[1..]), i);
    }
  }
}
