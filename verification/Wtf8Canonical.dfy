/**
The other direction of cli/loader_win_utils.c: when decoding a byte string and encoding the
result gives the bytes back.  The decoder takes overlong three- and four-byte forms, and two
halves of a surrogate pair encoded on their own; those are the only bytes that do not return.
 */
module Wtf8Canonical {
  import opened Basics
  import opened Wtf8

  predicate IsHigh(cp: bv32) { 0xD800 <= cp <= 0xDBFF }
  predicate IsLow(cp: bv32) { 0xDC00 <= cp <= 0xDFFF }

  /** Every code point in its shortest form, and no pair of surrogates encoded one by one. */
  predicate Canonical(s: seq<bv8>)
    requires IsByteString(s)
  {
    match DecodePoint(s)
    case Invalid => false
    case Point(cp, last) =>
      && last + 1 == ByteCount(cp)
      && (s[last] == 0 ||
          (TailIsByteString(s, last + 1);
           Canonical(s[last + 1..]) && !(IsHigh(cp) && StartsLow(s[last + 1..]))))
  }

  predicate StartsLow(s: seq<bv8>)
    requires IsByteString(s)
  {
    match DecodePoint(s)
    case Invalid => false
    case Point(cp, _) => IsLow(cp)
  }

  // ---------------------------------------------------------------------------
  // One code point.
  // ---------------------------------------------------------------------------

  lemma JoinHalves(x: bv32)
    requires x < 0x100000
    ensures (x >> 10) < 0x400 && (x & 0x3FF) < 0x400
    ensures ((x >> 10) << 10) + (x & 0x3FF) == x
  {
    assert ((x >> 10) << 10) & (x & 0x3FF) == 0;
    assert ((x >> 10) << 10) | (x & 0x3FF) == x;
  }

  lemma HighUnitOfHalf(h: bv32)
    requires h < 0x400
    ensures 0xD800 <= h + 0xD800 <= 0xDBFF && ((h + 0xD800) as bv16) as bv32 == h + 0xD800
    ensures (((h + 0xD800) as bv16) as bv32) - 0xD800 == h
  {
  }

  lemma LowUnitOfHalf(h: bv32)
    requires h < 0x400
    ensures 0xDC00 <= h + 0xDC00 <= 0xDFFF && ((h + 0xDC00) as bv16) as bv32 == h + 0xDC00
    ensures (((h + 0xDC00) as bv16) as bv32) - 0xDC00 == h
  {
  }

  lemma PairJoins(cp: bv32)
    requires 0x10000 <= cp <= 0x10FFFF
    ensures 0xD800 <= HighSurrogate(cp) <= 0xDBFF && 0xDC00 <= LowSurrogate(cp) <= 0xDFFF
    ensures Pair(HighSurrogate(cp), LowSurrogate(cp)) == cp
  {
    hide Pair, HighSurrogate, LowSurrogate, AreHalves;
    var h, l := Halves(cp);
    PairOfHalves(cp, h, l);
  }

  predicate AreHalves(cp: bv32, h: bv32, l: bv32) {
    h < 0x400 && l < 0x400 && cp == ((h << 10) + l) + 0x10000
  }

  lemma Halves(cp: bv32) returns (h: bv32, l: bv32)
    requires 0x10000 <= cp <= 0x10FFFF
    ensures h < 0x400 && l < 0x400 && AreHalves(cp, h, l)
    ensures HighSurrogate(cp) == (h + 0xD800) as bv16 && LowSurrogate(cp) == (l + 0xDC00) as bv16
  {
    hide HighSurrogate, LowSurrogate;
    var x := Offset(cp);
    h := HighHalf(cp, x);
    l := LowHalf(cp, x);
    assert AreHalves(cp, h, l) by { JoinHalves(x); }
  }

  lemma HighHalf(cp: bv32, x: bv32) returns (h: bv32)
    requires 0x10000 <= cp <= 0x10FFFF && x == cp - 0x10000 && x < 0x100000
    ensures h == x >> 10 && h < 0x400 && HighSurrogate(cp) == (h + 0xD800) as bv16
  {
    h := x >> 10;
  }

  lemma LowHalf(cp: bv32, x: bv32) returns (l: bv32)
    requires 0x10000 <= cp <= 0x10FFFF && x == cp - 0x10000
    ensures l == x & 0x3FF && l < 0x400 && LowSurrogate(cp) == (l + 0xDC00) as bv16
  {
    l := x & 0x3FF;
  }

  lemma Offset(cp: bv32) returns (x: bv32)
    requires 0x10000 <= cp <= 0x10FFFF
    ensures x == cp - 0x10000 && x < 0x100000 && x + 0x10000 == cp
  {
    x := cp - 0x10000;
  }

  lemma PairOfHalves(cp: bv32, h: bv32, l: bv32)
    requires AreHalves(cp, h, l)
    ensures 0xD800 <= ((h + 0xD800) as bv16) <= 0xDBFF && 0xDC00 <= ((l + 0xDC00) as bv16) <= 0xDFFF
    ensures Pair((h + 0xD800) as bv16, (l + 0xDC00) as bv16) == cp
  {
    HighUnitOfHalf(h);
    LowUnitOfHalf(l);
  }

  lemma Join2Splits(b1: bv8, b2: bv8)
    requires 0xC2 <= b1 <= 0xDF && IsTrail(b2)
    ensures 0x80 <= Join2(b1, b2) < 0x800
    ensures Lead2(Join2(b1, b2)) == b1 && Trail(Join2(b1, b2)) == b2
  {
  }

  lemma Join3Splits(b1: bv8, b2: bv8, b3: bv8)
    requires 0xE0 <= b1 <= 0xEF && IsTrail(b2) && IsTrail(b3)
    ensures Join3(b1, b2, b3) < 0x10000
    ensures Lead3(Join3(b1, b2, b3)) == b1 && Trail(Join3(b1, b2, b3) >> 6) == b2 && Trail(Join3(b1, b2, b3)) == b3
  {
  }

  lemma Join4Splits(b1: bv8, b2: bv8, b3: bv8, b4: bv8)
    requires 0xF0 <= b1 <= 0xF4 && IsTrail(b2) && IsTrail(b3) && IsTrail(b4) && Join4(b1, b2, b3, b4) <= 0x10FFFF
    ensures Lead4(Join4(b1, b2, b3, b4)) == b1 && Trail(Join4(b1, b2, b3, b4) >> 12) == b2
    ensures Trail(Join4(b1, b2, b3, b4) >> 6) == b3 && Trail(Join4(b1, b2, b3, b4)) == b4
  {
  }

  /** The decoder never reads fewer bytes than the shortest form has. */
  lemma NoShorterForm(s: seq<bv8>)
    requires IsByteString(s) && DecodePoint(s).Point?
    ensures var d := DecodePoint(s); ByteCount(d.cp) <= d.last + 1
  {
    hide Join2, Join3, Join4, IsTrail;
    var b1 := s[0];
    if 0xC2 <= b1 <= 0xDF {
      Join2Splits(b1, s[1]);
    } else if 0xE0 <= b1 <= 0xEF {
      Join3Splits(b1, s[1], s[2]);
    }
  }

  /** A shortest form is the encoding. */
  lemma ShortestIsEncoded(s: seq<bv8>)
    requires IsByteString(s) && DecodePoint(s).Point? && DecodePoint(s).last + 1 == ByteCount(DecodePoint(s).cp)
    ensures var d := DecodePoint(s);
      && s[..d.last + 1] == EncodePoint(d.cp)
      && (d.cp == 0 <==> s[d.last] == 0)
  {
    hide Join2, Join3, Join4, IsTrail, EncodePoint;
    var b1 := s[0];
    if b1 <= 0x7F {
      OneByteIs(b1, s);
    } else if b1 <= 0xDF {
      TwoBytesAre(b1, s[1]);
      assert s[..2] == [b1, s[1]];
    } else if b1 <= 0xEF {
      ThreeBytesAre(b1, s[1], s[2]);
      assert s[..3] == [b1, s[1], s[2]];
    } else {
      FourBytesAre(b1, s[1], s[2], s[3]);
      assert s[..4] == [b1, s[1], s[2], s[3]];
    }
  }

  lemma OneByteIs(b1: bv8, s: seq<bv8>)
    requires b1 <= 0x7F && |s| > 0 && s[0] == b1
    ensures (b1 as bv32) <= 0x10FFFF && EncodePoint(b1 as bv32) == s[..1] && (b1 as bv32 == 0 <==> b1 == 0)
  {
    assert (b1 as bv32) < 0x80 && (b1 as bv32) as bv8 == b1;
  }

  lemma TwoBytesAre(b1: bv8, b2: bv8)
    requires 0xC2 <= b1 <= 0xDF && IsTrail(b2)
    ensures 0 < Join2(b1, b2) <= 0x10FFFF && EncodePoint(Join2(b1, b2)) == [b1, b2] && b2 != 0
  {
    hide Join2, Lead2, Trail;
    Join2Splits(b1, b2);
  }

  lemma ThreeBytesAre(b1: bv8, b2: bv8, b3: bv8)
    requires 0xE0 <= b1 <= 0xEF && IsTrail(b2) && IsTrail(b3) && ByteCount(Join3(b1, b2, b3)) == 3
    ensures 0 < Join3(b1, b2, b3) <= 0x10FFFF && EncodePoint(Join3(b1, b2, b3)) == [b1, b2, b3] && b3 != 0
  {
    hide Join3, Lead3, Trail;
    Join3Splits(b1, b2, b3);
  }

  lemma FourBytesAre(b1: bv8, b2: bv8, b3: bv8, b4: bv8)
    requires 0xF0 <= b1 <= 0xF4 && IsTrail(b2) && IsTrail(b3) && IsTrail(b4) && Join4(b1, b2, b3, b4) <= 0x10FFFF
    requires ByteCount(Join4(b1, b2, b3, b4)) == 4
    ensures 0 < Join4(b1, b2, b3, b4) <= 0x10FFFF && EncodePoint(Join4(b1, b2, b3, b4)) == [b1, b2, b3, b4] && b4 != 0
  {
    hide Join4, Lead4, Trail;
    Join4Splits(b1, b2, b3, b4);
  }

  lemma TrailNonzero(b: bv8)
    requires IsTrail(b)
    ensures b != 0
  {
  }

  /** The terminator is the only end of a decoded string. */
  lemma TerminatorDecodes(s: seq<bv8>)
    requires IsByteString(s) && DecodePoint(s).Point? && s[DecodePoint(s).last] == 0
    ensures |s| == 1 && s == [0] && DecodePoint(s) == Point(0, 0)
    ensures Decode(s) == Some([0]) && Canonical(s)
  {
    hide Join2, Join3, Join4;
    var d := DecodePoint(s);
    if d.last > 0 {
      TrailNonzero(s[d.last]);
    }
  }

  // ---------------------------------------------------------------------------
  // Reading the decoded units.
  // ---------------------------------------------------------------------------

  /** Two units that form a surrogate pair. */
  predicate Pairs(u: bv16, next: bv16) {
    0xD800 <= u <= 0xDBFF && 0xDC00 <= next <= 0xDFFF
  }

  lemma ValueOfUnit(w: seq<bv16>)
    requires |w| > 1 && !Pairs(w[0], w[1])
    ensures SurrogateValue(w) == w[0] as bv32
  {
    hide Pair;
  }

  /** Code point `cp` at the front of a wide string, unless it is a high surrogate before a low one. */
  lemma FrontValue(cp: bv32, tail: seq<bv16>)
    requires 0 < cp <= 0x10FFFF && IsWideString(tail) && !(IsHigh(cp) && 0xDC00 <= tail[0] <= 0xDFFF)
    ensures IsWideString(EncodeUnits(cp) + tail)
    ensures SurrogateValue(EncodeUnits(cp) + tail) == cp
  {
    hide HighSurrogate, LowSurrogate, Pair, IsHigh, IsLow, IsWideString, SurrogateValue;
    if cp > 0xFFFF {
      PairJoins(cp);
      FrontPair(cp, HighSurrogate(cp), LowSurrogate(cp), tail);
    } else {
      FrontUnit(cp, tail);
    }
  }

  lemma FrontPair(cp: bv32, h: bv16, l: bv16, tail: seq<bv16>)
    requires IsWideString(tail) && 0xD800 <= h <= 0xDBFF && 0xDC00 <= l <= 0xDFFF && Pair(h, l) == cp
    ensures IsWideString([h, l] + tail) && SurrogateValue([h, l] + tail) == cp
  {
    hide Pair;
  }

  lemma NotPaired(cp: bv32, next: bv16)
    requires cp <= 0xFFFF && !(IsHigh(cp) && 0xDC00 <= next <= 0xDFFF)
    ensures !Pairs(cp as bv16, next)
  {
    OneUnit(cp);
  }

  lemma WideNotEmpty(w: seq<bv16>)
    requires IsWideString(w)
    ensures |w| > 0
  {
  }

  lemma FrontUnit(cp: bv32, tail: seq<bv16>)
    requires 0 < cp <= 0xFFFF && IsWideString(tail) && !(IsHigh(cp) && 0xDC00 <= tail[0] <= 0xDFFF)
    ensures IsWideString([cp as bv16] + tail) && SurrogateValue([cp as bv16] + tail) == cp
  {
    hide IsWideString, SurrogateValue, Pairs, IsHigh, IsLow;
    WideNotEmpty(tail);
    NotPaired(cp, tail[0]);
    OneUnit(cp);
    ConsWide(cp as bv16, tail);
    FrontUnitValue([cp as bv16] + tail, cp as bv16, tail[0]);
  }

  lemma FrontUnitValue(w: seq<bv16>, u: bv16, next: bv16)
    requires |w| > 1 && w[0] == u && w[1] == next && !Pairs(u, next)
    ensures SurrogateValue(w) == u as bv32
  {
    hide SurrogateValue, Pairs;
    ValueOfUnit(w);
  }

  lemma ConsWide(u: bv16, tail: seq<bv16>)
    requires IsWideString(tail) && u != 0
    ensures IsWideString([u] + tail) && |tail| >= 1
  {
    var w := [u] + tail;
    forall i | 0 <= i < |w| - 1
      ensures w[i] != 0
    {
      if i > 0 {
        assert w[i] == tail[i - 1];
      }
    }
  }

  lemma OneUnit(cp: bv32)
    requires cp <= 0xFFFF
    ensures (cp as bv16) as bv32 == cp && (cp as bv16 == 0 <==> cp == 0)
    ensures 0xD800 <= cp as bv16 <= 0xDBFF <==> IsHigh(cp)
    ensures 0xDC00 <= cp as bv16 <= 0xDFFF <==> IsLow(cp)
  {
  }

  /** The first unit of a decoded string is a low surrogate iff the bytes start with one. */
  lemma FirstUnitLow(s: seq<bv8>)
    requires IsByteString(s) && Decode(s).Some?
    ensures |Decode(s).value| > 0
    ensures 0xDC00 <= Decode(s).value[0] <= 0xDFFF <==> StartsLow(s)
  {
    hide HighSurrogate, LowSurrogate, DecodePoint;
    var cp := DecodePoint(s).cp;
    if cp > 0xFFFF {
      PairJoins(cp);
    } else {
      OneUnit(cp);
    }
  }

  // ---------------------------------------------------------------------------
  // Whole strings.
  // ---------------------------------------------------------------------------

  lemma {:induction false} CanonicalReturns(s: seq<bv8>)
    requires IsByteString(s) && Canonical(s)
    ensures Decode(s).Some? && IsWideString(Decode(s).value) && Encode(Decode(s).value) == s
  {
    hide DecodePoint, EncodeUnits, EncodePoint, SurrogateValue, StartsLow, IsHigh, ByteCount;
    var d := DecodePoint(s);
    ShortestIsEncoded(s);
    if s[d.last] == 0 {
      TerminatorDecodes(s);
    } else {
      var rest := s[d.last + 1..];
      CanonicalReturns(rest);
      FirstUnitLow(rest);
      var tail := Decode(rest).value;
      assert Decode(s) == Some(EncodeUnits(d.cp) + tail);
      hide Decode, Canonical, Encode;
      FrontValue(d.cp, tail);
      ReencodeFront(d.cp, tail);
      assert s == s[..d.last + 1] + rest;
    }
  }

  lemma ReencodeFront(cp: bv32, tail: seq<bv16>)
    requires 0 < cp <= 0x10FFFF && IsWideString(tail) && IsWideString(EncodeUnits(cp) + tail)
    requires SurrogateValue(EncodeUnits(cp) + tail) == cp
    ensures Encode(EncodeUnits(cp) + tail) == EncodePoint(cp) + Encode(tail)
  {
    hide SurrogateValue, EncodePoint;
    var w := EncodeUnits(cp) + tail;
    assert |w| > 1;
    assert w[UnitCount(cp)..] == tail;
  }

  /** Encoding again never takes more bytes, and as many only for canonical strings. */
  lemma {:induction false} ReencodedLength(s: seq<bv8>)
    requires IsByteString(s) && Decode(s).Some? && IsWideString(Decode(s).value)
    ensures |Encode(Decode(s).value)| <= |s|
    ensures |Encode(Decode(s).value)| == |s| ==> Canonical(s)
  {
    hide DecodePoint, EncodeUnits, EncodePoint, SurrogateValue, StartsLow, IsHigh, ByteCount;
    var d := DecodePoint(s);
    NoShorterForm(s);
    if s[d.last] == 0 {
      TerminatorDecodes(s);
    } else {
      var w, rest := Decode(s).value, s[d.last + 1..];
      var tail := Decode(rest).value;
      assert w == EncodeUnits(d.cp) + tail;
      UnitsNonzero(d.cp, w, tail);
      ReencodedLength(rest);
      FirstUnitLow(rest);
      if IsHigh(d.cp) && StartsLow(rest) {
        PairShortens(d.cp, tail);
      } else {
        FrontValue(d.cp, tail);
        ReencodeFront(d.cp, tail);
      }
    }
  }

  lemma UnitsNonzero(cp: bv32, w: seq<bv16>, tail: seq<bv16>)
    requires cp <= 0x10FFFF && w == EncodeUnits(cp) + tail && IsWideString(w) && |tail| > 0
    ensures cp != 0 && IsWideString(tail)
  {
    assert w[0] != 0;
    assert tail == w[UnitCount(cp)..];
  }

  /** Two surrogates encoded one by one take six bytes, as a pair only four. */
  lemma PairShortens(cp: bv32, tail: seq<bv16>)
    requires IsHigh(cp) && IsWideString(tail) && 0xDC00 <= tail[0] <= 0xDFFF && IsWideString(EncodeUnits(cp) + tail)
    ensures ByteCount(cp) == 3 && |Encode(EncodeUnits(cp) + tail)| == |Encode(tail)| + 1
  {
    hide Pair;
    OneUnit(cp);
    var w := EncodeUnits(cp) + tail;
    assert w[0] == cp as bv16 && w[1] == tail[0] && w[2..] == tail[1..];
    PairSplits(w[0], w[1]);
    LowAlone(tail);
  }

  lemma LowAlone(tail: seq<bv16>)
    requires IsWideString(tail) && 0xDC00 <= tail[0] <= 0xDFFF
    ensures |tail| > 1 && IsWideString(tail[1..]) && |Encode(tail)| == 3 + |Encode(tail[1..])|
  {
    assert tail[0] != 0;
  }

  /**
  The bytes come back exactly when they are canonical.  Otherwise the decoded units are no C
  string any more, because an overlong zero was among them, or they are encoded in fewer bytes.
   */
  lemma ReverseTripIff(s: seq<bv8>)
    requires IsByteString(s)
    ensures Canonical(s) <==> Decode(s).Some? && IsWideString(Decode(s).value) && Encode(Decode(s).value) == s
  {
    if Canonical(s) {
      CanonicalReturns(s);
    } else if Decode(s).Some? && IsWideString(Decode(s).value) {
      ReencodedLength(s);
    }
  }

  /** An overlong form of the letter A, and a pair of surrogates encoded one by one. */
  const OverlongLetter: seq<bv8> := [0xE0, 0x81, 0x81, 0]
  const SplitPair: seq<bv8> := [0xED, 0xA0, 0x80, 0xED, 0xB0, 0x80, 0]

  /** The decoder takes both, but neither comes back. */
  lemma NotCanonical()
    ensures IsByteString(OverlongLetter) && Decode(OverlongLetter) == Some([0x41, 0]) && !Canonical(OverlongLetter)
    ensures IsByteString(SplitPair) && Decode(SplitPair) == Some([0xD800, 0xDC00, 0]) && !Canonical(SplitPair)
  {
    TerminatorDecodes([0]);
    OverlongDecodes();
    SplitPairDecodes();
  }

  lemma OverlongDecodes()
    requires Decode([0]) == Some([0])
    ensures IsByteString(OverlongLetter) && Decode(OverlongLetter) == Some([0x41, 0]) && !Canonical(OverlongLetter)
  {
    assert DecodePoint(OverlongLetter) == Point(0x41, 2);
    assert OverlongLetter[3..] == [0];
    var unit: seq<bv16>, end: seq<bv16> := [0x41], [0];
    assert EncodeUnits(0x41) == unit;
    assert Decode(OverlongLetter) == Some(unit + end);
    assert unit + end == [0x41, 0];
  }

  lemma SplitPairDecodes()
    requires Decode([0]) == Some([0])
    ensures IsByteString(SplitPair) && Decode(SplitPair) == Some([0xD800, 0xDC00, 0]) && !Canonical(SplitPair)
  {
    var low: seq<bv8> := [0xED, 0xB0, 0x80, 0];
    assert SplitPair[3..] == low && low[3..] == [0];
    assert DecodePoint(SplitPair) == Point(0xD800, 2);
    assert DecodePoint(low) == Point(0xDC00, 2);
    var hi: seq<bv16>, lo: seq<bv16>, end: seq<bv16> := [0xD800], [0xDC00], [0];
    assert EncodeUnits(0xD800) == hi && EncodeUnits(0xDC00) == lo;
    hide DecodePoint, EncodeUnits;
    assert Decode(low) == Some(lo + end);
    assert Decode(SplitPair) == Some(hi + (lo + end));
    assert hi + (lo + end) == [0xD800, 0xDC00, 0];
  }
}
