/**
The byte strings that cli/loader_win_utils.c accepts, given by a grammar of lead and
continuation bytes with the value of each sequence as a sum.  It is the table of section 4 of
RFC 3629 with two liberties: overlong sequences of three and four bytes are accepted, and so are
the surrogates.
 */
module Wtf8Grammar {
  import opened Basics
  import opened Wtf8
  import opened Wtf8Canonical

  predicate IsContinuation(b: bv8) {
    0x80 <= b <= 0xBF
  }

  /** One code point. */
  predicate IsSequence(t: seq<bv8>) {
    || (|t| == 1 && t[0] <= 0x7F)
    || (|t| == 2 && 0xC2 <= t[0] <= 0xDF && IsContinuation(t[1]))
    || (|t| == 3 && 0xE0 <= t[0] <= 0xEF && IsContinuation(t[1]) && IsContinuation(t[2]))
    || (|t| == 4 && 0xF0 <= t[0] <= 0xF4 && IsContinuation(t[1]) && IsContinuation(t[2]) && IsContinuation(t[3])
        && (t[0] == 0xF4 ==> t[1] <= 0x8F))
  }

  /** How far a byte is above the first of its kind. */
  function Above(b: bv8, first: bv8): bv32 {
    (b - first) as bv32
  }

  function Sum2(b1: bv8, b2: bv8): bv32 {
    64 * Above(b1, 0xC0) + Above(b2, 0x80)
  }

  function Sum3(b1: bv8, b2: bv8, b3: bv8): bv32 {
    64 * (64 * Above(b1, 0xE0) + Above(b2, 0x80)) + Above(b3, 0x80)
  }

  function Sum4(b1: bv8, b2: bv8, b3: bv8, b4: bv8): bv32 {
    64 * (64 * (64 * Above(b1, 0xF0) + Above(b2, 0x80)) + Above(b3, 0x80)) + Above(b4, 0x80)
  }

  function SequenceValue(t: seq<bv8>): bv32
    requires IsSequence(t)
  {
    if |t| == 1 then t[0] as bv32
    else if |t| == 2 then Sum2(t[0], t[1])
    else if |t| == 3 then Sum3(t[0], t[1], t[2])
    else Sum4(t[0], t[1], t[2], t[3])
  }

  lemma TrailIsContinuation(b: bv8)
    ensures IsTrail(b) <==> IsContinuation(b)
  {
  }

  lemma Value2(b1: bv8, b2: bv8)
    requires 0xC2 <= b1 <= 0xDF && IsContinuation(b2)
    ensures Join2(b1, b2) == Sum2(b1, b2)
  {
  }

  lemma Value3(b1: bv8, b2: bv8, b3: bv8)
    requires 0xE0 <= b1 <= 0xEF && IsContinuation(b2) && IsContinuation(b3)
    ensures Join3(b1, b2, b3) == Sum3(b1, b2, b3)
  {
  }

  lemma Value4(b1: bv8, b2: bv8, b3: bv8, b4: bv8)
    requires 0xF0 <= b1 <= 0xF4 && IsContinuation(b2) && IsContinuation(b3) && IsContinuation(b4)
    ensures Join4(b1, b2, b3, b4) == Sum4(b1, b2, b3, b4)
  {
  }

  lemma Range4(b1: bv8, b2: bv8, b3: bv8, b4: bv8)
    requires 0xF0 <= b1 <= 0xF4 && IsContinuation(b2) && IsContinuation(b3) && IsContinuation(b4)
    ensures Join4(b1, b2, b3, b4) <= 0x10FFFF <==> (b1 == 0xF4 ==> b2 <= 0x8F)
  {
  }

  /** A sequence at the front is decoded to its value, up to its last byte. */
  lemma SequenceDecodes(s: seq<bv8>, k: nat)
    requires IsByteString(s) && k <= |s| && IsSequence(s[..k])
    ensures DecodePoint(s) == Point(SequenceValue(s[..k]), k - 1)
  {
    hide Join2, Join3, Join4, IsTrail, IsContinuation, Sum2, Sum3, Sum4;
    assert s[..k][0] == s[0];
    if k > 1 {
      TrailIsContinuation(s[1]);
      assert s[..k][1] == s[1];
    }
    if k > 2 {
      TrailIsContinuation(s[2]);
    }
    if k == 2 {
      Value2(s[0], s[1]);
    } else if k == 3 {
      Value3(s[0], s[1], s[2]);
    } else if k == 4 {
      TrailIsContinuation(s[3]);
      Value4(s[0], s[1], s[2], s[3]);
      Range4(s[0], s[1], s[2], s[3]);
    }
  }

  /** Only sequences are decoded. */
  lemma DecodedIsSequence(s: seq<bv8>)
    requires IsByteString(s) && DecodePoint(s).Point?
    ensures IsSequence(s[..DecodePoint(s).last + 1])
  {
    hide Join2, Join3, Join4, IsTrail, IsContinuation;
    var k := DecodePoint(s).last + 1;
    if k > 1 {
      TrailIsContinuation(s[1]);
    }
    if k > 2 {
      TrailIsContinuation(s[2]);
    }
    if k == 4 {
      TrailIsContinuation(s[3]);
      Range4(s[0], s[1], s[2], s[3]);
    }
  }

  /** What the decoder reads at the front of a string, and what it rejects. */
  lemma DecodePointIff(s: seq<bv8>, cp: bv32, k: nat)
    requires IsByteString(s) && 1 <= k <= |s|
    ensures DecodePoint(s) == Point(cp, k - 1) <==> IsSequence(s[..k]) && SequenceValue(s[..k]) == cp
    ensures DecodePoint(s) == Invalid <==> forall j :: 1 <= j <= |s| ==> !IsSequence(s[..j])
  {
    hide DecodePoint, IsSequence, SequenceValue;
    if IsSequence(s[..k]) {
      SequenceDecodes(s, k);
    }
    if DecodePoint(s).Point? {
      DecodedIsSequence(s);
      SequenceDecodes(s, DecodePoint(s).last + 1);
    } else if j :| 1 <= j <= |s| && IsSequence(s[..j]) {
      SequenceDecodes(s, j);
    }
  }

  /** The string is a concatenation of sequences with the given values. */
  ghost predicate Parses(s: seq<bv8>, cps: seq<bv32>)
    decreases |cps|
  {
    if |cps| == 0 then s == []
    else exists k: nat :: k <= |s| && FrontIs(s, k, cps[0]) && Parses(s[k..], cps[1..])
  }

  predicate FrontIs(s: seq<bv8>, k: nat, cp: bv32)
    requires k <= |s|
  {
    IsSequence(s[..k]) && SequenceValue(s[..k]) == cp
  }

  predicate InRange(cps: seq<bv32>) {
    forall i :: 0 <= i < |cps| ==> cps[i] <= 0x10FFFF
  }

  function AllUnits(cps: seq<bv32>): seq<bv16>
    requires InRange(cps)
  {
    if |cps| == 0 then [] else EncodeUnits(cps[0]) + AllUnits(cps[1..])
  }

  /**
  A string is accepted exactly if it is a concatenation of sequences, and then it becomes the
  units of their values.
   */
  lemma DecodeIff(s: seq<bv8>, u: seq<bv16>)
    requires IsByteString(s)
    ensures Decode(s) == Some(u) <==> exists cps :: Parses(s, cps) && InRange(cps) && AllUnits(cps) == u
  {
    if Decode(s).Some? {
      var cps := DecodeParses(s);
    }
    if cps :| Parses(s, cps) && InRange(cps) && AllUnits(cps) == u {
      ParsesDecode(s, cps);
    }
  }

  lemma {:induction false} DecodeParses(s: seq<bv8>) returns (cps: seq<bv32>)
    requires IsByteString(s) && Decode(s).Some?
    ensures Parses(s, cps) && InRange(cps) && Decode(s) == Some(AllUnits(cps))
    decreases |s|
  {
    hide EncodeUnits, IsSequence, SequenceValue, DecodePoint;
    var d := DecodePoint(s);
    var k := d.last + 1;
    DecodePointIff(s, d.cp, k);
    assert FrontIs(s, k, d.cp);
    if s[d.last] == 0 {
      cps := [d.cp];
      assert s[k..] == [] && cps[1..] == [];
      assert Parses(s[k..], cps[1..]);
      OnePoint(d.cp);
    } else {
      TailIsByteString(s, k);
      var rest := DecodeParses(s[k..]);
      cps := [d.cp] + rest;
      assert cps[1..] == rest;
    }
  }

  lemma {:induction false} ParsesDecode(s: seq<bv8>, cps: seq<bv32>)
    requires IsByteString(s) && Parses(s, cps)
    ensures InRange(cps) && Decode(s) == Some(AllUnits(cps))
    decreases |cps|
  {
    hide EncodeUnits, IsSequence, SequenceValue, DecodePoint;
    var k: nat :| k <= |s| && FrontIs(s, k, cps[0]) && Parses(s[k..], cps[1..]);
    SequenceNotEmpty(s[..k]);
    DecodePointIff(s, cps[0], k);
    if s[k - 1] == 0 {
      assert s[k..] == [];
      NothingParses(cps[1..]);
      assert cps == [cps[0]];
      OnePoint(cps[0]);
    } else {
      TailIsByteString(s, k);
      ParsesDecode(s[k..], cps[1..]);
    }
  }

  lemma OnePoint(cp: bv32)
    requires cp <= 0x10FFFF
    ensures InRange([cp]) && AllUnits([cp]) == EncodeUnits(cp)
  {
    hide EncodeUnits;
    assert [cp][1..] == [] && AllUnits([]) == [];
  }

  lemma SequenceNotEmpty(t: seq<bv8>)
    requires IsSequence(t)
    ensures |t| >= 1
  {
  }

  lemma NothingParses(cps: seq<bv32>)
    requires Parses([], cps)
    ensures cps == []
  {
    hide IsSequence;
    if cps != [] {
      var k: nat :| k <= 0 && FrontIs([], k, cps[0]) && Parses([][k..], cps[1..]);
      SequenceNotEmpty([][..k]);
    }
  }

  /** The encoder writes the shortest sequence for a code point; no other of that length has its value. */
  lemma EncodedIsShortest(cp: bv32, t: seq<bv8>)
    requires cp <= 0x10FFFF
    ensures IsSequence(EncodePoint(cp)) && SequenceValue(EncodePoint(cp)) == cp
    ensures IsSequence(t) && SequenceValue(t) == cp ==> |t| > |EncodePoint(cp)| || t == EncodePoint(cp)
  {
    hide EncodePoint, IsSequence, SequenceValue, DecodePoint, ByteCount;
    EncodedIsSequence(cp);
    if IsSequence(t) && SequenceValue(t) == cp {
      var s := Terminated(t);
      assert s[..|t|] == t;
      SequenceNotEmpty(t);
      DecodePointIff(s, cp, |t|);
      NoShorterForm(s);
      if |t| == ByteCount(cp) {
        ShortestIsEncoded(s);
      }
    }
  }

  lemma EncodedIsSequence(cp: bv32)
    requires cp <= 0x10FFFF
    ensures IsSequence(EncodePoint(cp)) && SequenceValue(EncodePoint(cp)) == cp
  {
    var rest: seq<bv8> := if cp == 0 then [] else [0];
    assert cp == 0 ==> EncodePoint(cp) == [0];
    if cp != 0 {
      EncodePointNonzero(cp);
    }
    var s := EncodePoint(cp) + rest;
    assert IsByteString(s);
    hide EncodePoint, IsSequence, SequenceValue, DecodePoint;
    DecodeEncodedPoint(cp, rest);
    assert s[..ByteCount(cp)] == EncodePoint(cp);
    DecodePointIff(s, cp, ByteCount(cp));
  }

  /** A sequence is a C string when it is the terminator, and otherwise with the terminator added. */
  lemma Terminated(t: seq<bv8>) returns (s: seq<bv8>)
    requires IsSequence(t)
    ensures IsByteString(s) && t <= s
  {
    s := if t == [0] then t else t + [0];
  }

  // ---------------------------------------------------------------------------
  // Surrogate pairs.
  // ---------------------------------------------------------------------------

  /** The pairs count the code points from 0x10000 on: the low half runs first, and the high half follows. */
  lemma PairsCount(u: bv16, next: bv16)
    requires 0xD800 <= u <= 0xDBFF && 0xDC00 <= next <= 0xDFFF
    ensures Pair(0xD800, 0xDC00) == 0x10000
    ensures next < 0xDFFF ==> Pair(u, next + 1) == Pair(u, next) + 1
    ensures u < 0xDBFF ==> Pair(u + 1, 0xDC00) == Pair(u, 0xDFFF) + 1
  {
    hide Pair;
    FirstPair();
    if next < 0xDFFF {
      NextPair(u, next);
    }
    if u < 0xDBFF {
      CarryPair(u);
    }
  }

  lemma FirstPair()
    ensures Pair(0xD800, 0xDC00) == 0x10000
  {
  }

  lemma NextPair(u: bv16, next: bv16)
    requires 0xD800 <= u <= 0xDBFF && 0xDC00 <= next < 0xDFFF
    ensures Pair(u, next + 1) == Pair(u, next) + 1
  {
    assert (next + 1) as bv32 == (next as bv32) + 1;
  }

  lemma CarryPair(u: bv16)
    requires 0xD800 <= u < 0xDBFF
    ensures Pair(u + 1, 0xDC00) == Pair(u, 0xDFFF) + 1
  {
    assert (u + 1) as bv32 == (u as bv32) + 1;
  }
}
