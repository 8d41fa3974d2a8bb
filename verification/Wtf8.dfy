/**
UTF-16 to WTF-8 and back, as in cli/loader_win_utils.c.  The byte layout is that of section 3
of RFC 3629 and the surrogate arithmetic that of sections 2.1 and 2.2 of RFC 2781; an unpaired
surrogate is encoded on its own in three bytes.  Both directions run twice over their input,
once to count and once to write.
 */
module Wtf8 {
  import opened Basics

  /** A C string with its terminator: the only zero is the last element. */
  ghost predicate IsWideString(w: seq<bv16>) {
    |w| > 0 && w[|w| - 1] == 0 && forall i :: 0 <= i < |w| - 1 ==> w[i] != 0
  }

  ghost predicate IsByteString(s: seq<bv8>) {
    |s| > 0 && s[|s| - 1] == 0 && forall i :: 0 <= i < |s| - 1 ==> s[i] != 0
  }

  // ---------------------------------------------------------------------------
  // One code point.
  // ---------------------------------------------------------------------------

  /** The code point of a surrogate pair. */
  function Pair(u: bv16, next: bv16): bv32
    requires 0xD800 <= u <= 0xDBFF && 0xDC00 <= next <= 0xDFFF
  {
    0x10000 + (((u as bv32) - 0xD800) << 10) + ((next as bv32) - 0xDC00)
  }

  function HighSurrogate(cp: bv32): bv16
    requires 0x10000 <= cp <= 0x10FFFF
  {
    (((cp - 0x10000) >> 10) + 0xD800) as bv16
  }

  function LowSurrogate(cp: bv32): bv16
    requires 0x10000 <= cp <= 0x10FFFF
  {
    (((cp - 0x10000) & 0x3FF) + 0xDC00) as bv16
  }

  lemma PairSplits(u: bv16, next: bv16)
    requires 0xD800 <= u <= 0xDBFF && 0xDC00 <= next <= 0xDFFF
    ensures 0x10000 <= Pair(u, next) <= 0x10FFFF
    ensures HighSurrogate(Pair(u, next)) == u && LowSurrogate(Pair(u, next)) == next
  {
  }

  /** The value of a surrogate pair at the front of the input, or its first unit alone. */
  function SurrogateValue(w: seq<bv16>): bv32
    requires |w| > 0 && (w[0] != 0 ==> |w| > 1)
  {
    if 0xD800 <= w[0] <= 0xDBFF && 0xDC00 <= w[1] <= 0xDFFF then Pair(w[0], w[1]) else w[0] as bv32
  }

  /** How many units a code point takes in UTF-16. */
  function UnitCount(cp: bv32): (n: nat)
    ensures 1 <= n <= 2
  {
    if cp > 0xFFFF then 2 else 1
  }

  function EncodeUnits(cp: bv32): (r: seq<bv16>)
    requires cp <= 0x10FFFF
    ensures |r| == UnitCount(cp)
  {
    if cp > 0xFFFF then [HighSurrogate(cp), LowSurrogate(cp)] else [cp as bv16]
  }

  function ByteCount(cp: bv32): nat {
    if cp < 0x80 then 1 else if cp < 0x800 then 2 else if cp < 0x10000 then 3 else 4
  }

  function Lead2(cp: bv32): bv8
    requires cp < 0x800
  {
    (0xC0 | (cp >> 6)) as bv8
  }

  function Lead3(cp: bv32): bv8
    requires cp < 0x10000
  {
    (0xE0 | (cp >> 12)) as bv8
  }

  function Lead4(cp: bv32): bv8
    requires cp <= 0x10FFFF
  {
    (0xF0 | (cp >> 18)) as bv8
  }

  /** The continuation byte for the low six bits of a value. */
  function Trail(x: bv32): bv8 {
    (0x80 | (x & 0x3F)) as bv8
  }

  function EncodePoint(cp: bv32): (r: seq<bv8>)
    requires cp <= 0x10FFFF
    ensures |r| == ByteCount(cp)
  {
    if cp < 0x80 then [cp as bv8]
    else if cp < 0x800 then [Lead2(cp), Trail(cp)]
    else if cp < 0x10000 then [Lead3(cp), Trail(cp >> 6), Trail(cp)]
    else [Lead4(cp), Trail(cp >> 12), Trail(cp >> 6), Trail(cp)]
  }

  predicate IsTrail(b: bv8) {
    (b & 0xC0) == 0x80
  }

  /** Appending the six bits of a continuation byte. */
  function Append(cp: bv32, b: bv8): bv32 {
    (cp << 6) | ((b as bv32) & 0x3F)
  }

  function Join2(b1: bv8, b2: bv8): bv32 {
    0x7FF & Append(b1 as bv32, b2)
  }

  function Join3(b1: bv8, b2: bv8, b3: bv8): bv32 {
    0xFFFF & Append(Append(b1 as bv32, b2), b3)
  }

  function Join4(b1: bv8, b2: bv8, b3: bv8, b4: bv8): bv32 {
    0x1FFFFF & Append(Append(Append(b1 as bv32, b2), b3), b4)
  }

  lemma TrailIsTrail(x: bv32)
    ensures IsTrail(Trail(x)) && Trail(x) != 0
  {
  }

  lemma TwoBytes(cp: bv32)
    requires 0x80 <= cp < 0x800
    ensures 0xC2 <= Lead2(cp) <= 0xDF && Join2(Lead2(cp), Trail(cp)) == cp
  {
  }

  lemma ThreeBytes(cp: bv32)
    requires 0x800 <= cp < 0x10000
    ensures 0xE0 <= Lead3(cp) <= 0xEF && Join3(Lead3(cp), Trail(cp >> 6), Trail(cp)) == cp
  {
  }

  // A four-byte sequence, one continuation byte at a time.

  lemma FourBytesLead(cp: bv32)
    requires 0x10000 <= cp <= 0x10FFFF
    ensures 0xF0 <= Lead4(cp) <= 0xF4 && (Lead4(cp) as bv32) & 0x7 == cp >> 18
  {
  }

  lemma FourBytesSecond(x: bv32, cp: bv32)
    requires cp <= 0x10FFFF && x & 0x7 == cp >> 18
    ensures Append(x, Trail(cp >> 12)) & 0x1FF == cp >> 12
  {
    AppendTrail(x, cp >> 12);
    assert ((x << 6) | ((cp >> 12) & 0x3F)) & 0x1FF == ((x & 0x7) << 6) | ((cp >> 12) & 0x3F);
  }

  lemma FourBytesThird(x: bv32, cp: bv32)
    requires cp <= 0x10FFFF && x & 0x1FF == cp >> 12
    ensures Append(x, Trail(cp >> 6)) & 0x7FFF == cp >> 6
  {
    AppendTrail(x, cp >> 6);
    assert ((x << 6) | ((cp >> 6) & 0x3F)) & 0x7FFF == ((x & 0x1FF) << 6) | ((cp >> 6) & 0x3F);
  }

  lemma FourBytesLast(x: bv32, cp: bv32)
    requires cp <= 0x10FFFF && x & 0x7FFF == cp >> 6
    ensures Append(x, Trail(cp)) & 0x1FFFFF == cp
  {
    AppendTrail(x, cp);
    assert ((x << 6) | (cp & 0x3F)) & 0x1FFFFF == ((x & 0x7FFF) << 6) | (cp & 0x3F);
  }

  lemma AppendTrail(x: bv32, y: bv32)
    ensures Append(x, Trail(y)) == (x << 6) | (y & 0x3F)
  {
  }

  lemma FourBytesTwo(cp: bv32) returns (x: bv32)
    requires 0x10000 <= cp <= 0x10FFFF
    ensures x == Append(Lead4(cp) as bv32, Trail(cp >> 12)) && x & 0x1FF == cp >> 12
  {
    hide Append, Trail, Lead4;
    FourBytesLead(cp);
    x := Append(Lead4(cp) as bv32, Trail(cp >> 12));
    FourBytesSecond(Lead4(cp) as bv32, cp);
  }

  lemma FourBytesThree(cp: bv32) returns (x: bv32)
    requires 0x10000 <= cp <= 0x10FFFF
    ensures x == Append(Append(Lead4(cp) as bv32, Trail(cp >> 12)), Trail(cp >> 6)) && x & 0x7FFF == cp >> 6
  {
    hide Append, Trail, Lead4;
    var y := FourBytesTwo(cp);
    FourBytesThird(y, cp);
    x := Append(y, Trail(cp >> 6));
  }

  lemma FourBytes(cp: bv32)
    requires 0x10000 <= cp <= 0x10FFFF
    ensures Join4(Lead4(cp), Trail(cp >> 12), Trail(cp >> 6), Trail(cp)) == cp
  {
    hide Append, Trail, Lead4;
    var y := FourBytesThree(cp);
    FourBytesLast(y, cp);
  }

  lemma JoinBounds(b1: bv8, b2: bv8, b3: bv8)
    ensures Join2(b1, b2) <= 0x10FFFF && Join3(b1, b2, b3) <= 0x10FFFF
  {
  }

  /** A decoded code point with the offset of its last byte, or an invalid sequence. */
  datatype Decoded = Invalid | Point(cp: bv32, last: nat)

  function DecodePoint(s: seq<bv8>): (r: Decoded)
    requires IsByteString(s)
    ensures r.Point? ==> r.cp <= 0x10FFFF && r.last < |s|
    ensures r.Point? && s[r.last] != 0 ==> r.last + 1 < |s|
  {
    var b1 := s[0];
    if b1 <= 0x7F then Point(b1 as bv32, 0)
    else if b1 < 0xC2 then Invalid
    else if !IsTrail(s[1]) then Invalid
    else if b1 <= 0xDF then
      JoinBounds(b1, s[1], 0);
      Point(Join2(b1, s[1]), 1)
    else if !IsTrail(s[2]) then Invalid
    else if b1 <= 0xEF then
      JoinBounds(b1, s[1], s[2]);
      Point(Join3(b1, s[1], s[2]), 2)
    else if !IsTrail(s[3]) then Invalid
    else if b1 <= 0xF4 && Join4(b1, s[1], s[2], s[3]) <= 0x10FFFF then
      Point(Join4(b1, s[1], s[2], s[3]), 3)
    else Invalid
  }

  lemma TailIsByteString(s: seq<bv8>, n: nat)
    requires IsByteString(s) && n < |s|
    ensures IsByteString(s[n..])
  {
  }

  /** A code point read from UTF-16 is nonzero before the terminator and stays before it. */
  lemma SurrogateValueFacts(w: seq<bv16>)
    requires IsWideString(w)
    ensures SurrogateValue(w) <= 0x10FFFF
    ensures SurrogateValue(w) == 0 <==> |w| == 1
    ensures |w| > 1 ==> UnitCount(SurrogateValue(w)) < |w|
  {
    hide Pair;
    if |w| > 1 {
      assert w[0] != 0;
      if |w| == 2 {
        assert w[1] == 0;
      }
      if 0xD800 <= w[0] <= 0xDBFF && 0xDC00 <= w[1] <= 0xDFFF {
        PairSplits(w[0], w[1]);
      }
    }
  }

  /** Splitting a code point and reading it back gives the same units. */
  lemma UnitsOfSurrogateValue(w: seq<bv16>)
    requires IsWideString(w) && |w| > 1
    ensures SurrogateValue(w) <= 0x10FFFF && UnitCount(SurrogateValue(w)) < |w|
    ensures EncodeUnits(SurrogateValue(w)) == w[..UnitCount(SurrogateValue(w))]
  {
    hide Pair, HighSurrogate, LowSurrogate;
    SurrogateValueFacts(w);
    if 0xD800 <= w[0] <= 0xDBFF && 0xDC00 <= w[1] <= 0xDFFF {
      PairSplits(w[0], w[1]);
    }
  }

  /** The bytes of a nonzero code point hold no zero. */
  lemma EncodePointNonzero(cp: bv32)
    requires 0 < cp <= 0x10FFFF
    ensures forall i :: 0 <= i < |EncodePoint(cp)| ==> EncodePoint(cp)[i] != 0
  {
  }

  /** Decoding the bytes of a code point, whatever follows them. */
  lemma DecodeEncodedPoint(cp: bv32, rest: seq<bv8>)
    requires cp <= 0x10FFFF && IsByteString(EncodePoint(cp) + rest)
    ensures DecodePoint(EncodePoint(cp) + rest) == Point(cp, ByteCount(cp) - 1)
  {
    hide Lead2, Lead3, Lead4, Trail, Join2, Join3, Join4, IsTrail;
    TrailIsTrail(cp);
    TrailIsTrail(cp >> 6);
    TrailIsTrail(cp >> 12);
    if cp < 0x80 {
    } else if cp < 0x800 {
      TwoBytes(cp);
    } else if cp < 0x10000 {
      ThreeBytes(cp);
    } else {
      FourBytesLead(cp);
      FourBytes(cp);
    }
  }

  // ---------------------------------------------------------------------------
  // Whole strings.
  // ---------------------------------------------------------------------------

  /** The WTF-8 form of a UTF-16 string, terminator included. */
  function Encode(w: seq<bv16>): seq<bv8>
    requires IsWideString(w)
  {
    if |w| == 1 then [0]
    else
      var cp := SurrogateValue(w);
      SurrogateValueFacts(w);
      EncodePoint(cp) + Encode(w[UnitCount(cp)..])
  }

  /** The UTF-16 form of a byte string, terminator included, or nothing if it is invalid. */
  function Decode(s: seq<bv8>): Option<seq<bv16>>
    requires IsByteString(s)
  {
    match DecodePoint(s)
    case Invalid => None
    case Point(cp, last) =>
      if s[last] == 0 then Some(EncodeUnits(cp))
      else
        TailIsByteString(s, last + 1);
        match Decode(s[last + 1..])
        case None => None
        case Some(rest) => Some(EncodeUnits(cp) + rest)
  }

  lemma {:induction false} EncodeIsByteString(w: seq<bv16>)
    requires IsWideString(w)
    ensures IsByteString(Encode(w))
  {
    if |w| > 1 {
      var cp := SurrogateValue(w);
      SurrogateValueFacts(w);
      EncodePointNonzero(cp);
      EncodeIsByteString(w[UnitCount(cp)..]);
    }
  }

  /** Every UTF-16 string survives the trip through WTF-8, unpaired surrogates included. */
  lemma {:induction false} RoundTrip(w: seq<bv16>)
    requires IsWideString(w)
    ensures IsByteString(Encode(w)) && Decode(Encode(w)) == Some(w)
  {
    EncodeIsByteString(w);
    if |w| == 1 {
      assert w == [0];
    } else {
      var cp := SurrogateValue(w);
      SurrogateValueFacts(w);
      UnitsOfSurrogateValue(w);
      var tail := w[UnitCount(cp)..];
      RoundTrip(tail);
      DecodeEncodedPoint(cp, Encode(tail));
      EncodePointNonzero(cp);
      assert Encode(w)[ByteCount(cp)..] == Encode(tail);
      assert w == w[..UnitCount(cp)] + tail;
    }
  }

  // ---------------------------------------------------------------------------
  // The two-pass loops.
  // ---------------------------------------------------------------------------

  /** One turn of either encoding loop, at unit `i` of the input. */
  lemma EncodeTurn(w: seq<bv16>, i: nat)
    requires IsWideString(w) && i < |w|
    ensures IsWideString(w[i..])
    ensures SurrogateValue(w[i..]) <= 0x10FFFF
    ensures SurrogateValue(w[i..]) == 0 ==> Encode(w[i..]) == [0]
    ensures SurrogateValue(w[i..]) != 0 ==>
              var cp := SurrogateValue(w[i..]);
              && i + UnitCount(cp) < |w|
              && IsWideString(w[i + UnitCount(cp)..])
              && Encode(w[i..]) == EncodePoint(cp) + Encode(w[i + UnitCount(cp)..])
  {
    hide SurrogateValue, EncodePoint;
    SurrogateValueFacts(w[i..]);
    if SurrogateValue(w[i..]) != 0 {
      var n := UnitCount(SurrogateValue(w[i..]));
      assert w[i..][n..] == w[i + n..];
    }
  }

  /** First pass: the number of bytes before the terminator. */
  method CountBytes(wstr: array<bv16>) returns (n: nat)
    requires IsWideString(wstr[..])
    ensures n + 1 == |Encode(wstr[..])|
  {
    hide SurrogateValue, Encode, EncodePoint, UnitCount, ByteCount;
    ghost var w := wstr[..];
    var src: nat := 0;
    n := 0;
    assert w[0..] == w;
    while true
      invariant src < |w| && IsWideString(w[src..])
      invariant n + |Encode(w[src..])| == |Encode(w)|
      decreases |w| - src
    {
      EncodeTurn(w, src);
      assert wstr[src..] == w[src..];
      var cp := SurrogateValue(wstr[src..]);
      if cp == 0 {
        break;
      }
      n := n + ByteCount(cp);
      src := src + UnitCount(cp);
    }
  }

  method WcharToUtf8(wstr: array<bv16>) returns (target: array<bv8>)
    requires IsWideString(wstr[..])
    ensures fresh(target)
    ensures target[..] == Encode(wstr[..])
  {
    hide SurrogateValue, Encode, EncodePoint, UnitCount, ByteCount;
    var targetLen := CountBytes(wstr);
    target := new bv8[targetLen + 1];
    ghost var w := wstr[..];
    var src: nat, p: nat := 0, 0;
    assert w[0..] == w;
    while true
      invariant wstr[..] == w && target.Length == |Encode(w)|
      invariant src < |w| && IsWideString(w[src..])
      invariant p + |Encode(w[src..])| == |Encode(w)|
      invariant target[..p] + Encode(w[src..]) == Encode(w)
      decreases |w| - src
    {
      EncodeTurn(w, src);
      assert wstr[src..] == w[src..];
      var cp := SurrogateValue(wstr[src..]);
      if cp == 0 {
        break;
      }
      PutBytes(target, p, EncodePoint(cp));
      p := p + ByteCount(cp);
      src := src + UnitCount(cp);
    }
    target[p] := 0;
    assert target[..] == target[..p] + [0];
  }

  /** `*p++ = b` for each byte of a code point. */
  method PutBytes(target: array<bv8>, p: nat, bytes: seq<bv8>)
    requires p + |bytes| <= target.Length
    modifies target
    ensures target[..p + |bytes|] == old(target[..p]) + bytes
  {
    for i := 0 to |bytes|
      invariant target[..p + i] == old(target[..p]) + bytes[..i]
    {
      target[p + i] := bytes[i];
    }
  }

  /** One turn of either decoding loop, at byte `i` of the input. */
  lemma DecodeTurn(s: seq<bv8>, i: nat)
    requires IsByteString(s) && i < |s|
    ensures IsByteString(s[i..])
    ensures DecodePoint(s[i..]).Invalid? ==> Decode(s[i..]) == None
    ensures DecodePoint(s[i..]).Point? ==>
              var Point(cp, last) := DecodePoint(s[i..]);
              && cp <= 0x10FFFF
              && i + last < |s|
              && (s[i + last] == 0 ==> Decode(s[i..]) == Some(EncodeUnits(cp)))
              && (s[i + last] != 0 ==>
                    && i + last + 1 < |s|
                    && IsByteString(s[i + last + 1..])
                    && Decode(s[i..]) == (match Decode(s[i + last + 1..])
                                          case None => None
                                          case Some(rest) => Some(EncodeUnits(cp) + rest)))
  {
    hide EncodeUnits;
    if DecodePoint(s[i..]).Point? {
      var last := DecodePoint(s[i..]).last;
      if s[i + last] != 0 {
        assert s[i..][last + 1..] == s[i + last + 1..];
      }
    }
  }

  /** What is left to decode, as a length; nothing for an invalid input. */
  ghost function UnitsLeft(s: seq<bv8>): Option<nat>
    requires IsByteString(s)
  {
    match Decode(s)
    case None => None
    case Some(u) => Some(|u|)
  }

  /** First pass: the number of units, terminator included, or nothing for an invalid input. */
  method CountUnits(str: array<bv8>) returns (r: Option<nat>)
    requires IsByteString(str[..])
    ensures r == UnitsLeft(str[..])
  {
    hide DecodePoint, Decode, EncodeUnits, UnitCount;
    ghost var s := str[..];
    var src: nat, n: nat := 0, 0;
    assert s[0..] == s;
    while true
      invariant src < |s| && IsByteString(s[src..])
      invariant UnitsLeft(s) == match UnitsLeft(s[src..]) case None => None case Some(m) => Some(n + m)
      decreases |s| - src
    {
      DecodeTurn(s, src);
      assert str[src..] == s[src..];
      var d := DecodePoint(str[src..]);
      if d == Invalid {
        return None;
      }
      n := n + UnitCount(d.cp);
      src := src + d.last;
      if str[src] == 0 {
        return Some(n);
      }
      src := src + 1;
    }
  }

  method Utf8ToWchar(str: array<bv8>) returns (r: Option<array<bv16>>)
    requires IsByteString(str[..])
    ensures r.None? <==> Decode(str[..]) == None
    ensures r.Some? ==> fresh(r.value) && Decode(str[..]) == Some(r.value[..])
  {
    hide DecodePoint, Decode, EncodeUnits, UnitCount;
    var count := CountUnits(str);
    if count == None {
      return None;
    }
    var target := new bv16[count.value];
    ghost var s := str[..];
    ghost var all := Decode(s).value;
    var src: nat, p: nat := 0, 0;
    assert s[0..] == s;
    while true
      invariant str[..] == s && target.Length == |all| && Decode(s) == Some(all)
      invariant src < |s| && IsByteString(s[src..])
      invariant p <= |all| && Decode(s[src..]) == Some(all[p..])
      invariant target[..p] == all[..p]
      decreases |s| - src
    {
      DecodeTurn(s, src);
      assert str[src..] == s[src..];
      var d := DecodePoint(str[src..]);
      ghost var left := all[p..];
      PutUnits(target, p, EncodeUnits(d.cp), all);
      p := p + UnitCount(d.cp);
      src := src + d.last;
      if str[src] == 0 {
        break;
      }
      assert all[p..] == left[UnitCount(d.cp)..];
      src := src + 1;
    }
    assert p == |all| && all[..p] == all;
    assert target[..] == target[..p] == all;
    return Some(target);
  }

  /** `*p++ = u` for the one or two units of a code point. */
  method PutUnits(target: array<bv16>, p: nat, units: seq<bv16>, ghost all: seq<bv16>)
    requires p <= target.Length == |all| && units <= all[p..] && target[..p] == all[..p]
    modifies target
    ensures target[..p + |units|] == all[..p + |units|]
  {
    for i := 0 to |units|
      invariant target[..p + i] == all[..p + i]
    {
      assert units[i] == all[p..][i];
      target[p + i] := units[i];
    }
  }
}
