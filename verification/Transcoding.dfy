/**
 * Conversion between UTF-8 (RFC 3629, section 3) and UTF-16 (RFC 2781, section 2), with U+FFFD in place
 * of whatever cannot be decoded. Code units and code points are machine words.
 */
module Transcoding {

  type Utf8 = seq<bv8>
  type Utf16 = seq<bv16>

  const REPLACEMENT: bv32 := 0xFFFD
  const LIMIT: bv32 := 0x110000

  predicate IsHighSurrogate(c: bv16) {
    0xD800 <= c < 0xDC00
  }

  predicate IsLowSurrogate(c: bv16) {
    0xDC00 <= c < 0xE000
  }

  predicate IsSurrogate(pt: bv32) {
    0xD800 <= pt < 0xE000
  }

  // ---------------------------------------------------------------- encoding

  function Encode8(pt: bv32): (r: Utf8)
    ensures 1 <= |r| <= 4
  {
    if pt < 0x80 then [pt as bv8]
    else if pt < 0x800 then [((pt >> 6) | 0xC0) as bv8, Continuation(pt)]
    else if pt < 0x10000 then [((pt >> 12) | 0xE0) as bv8, Continuation(pt >> 6), Continuation(pt)]
    else if pt < LIMIT then
      [((pt >> 18) | 0xF0) as bv8, Continuation(pt >> 12), Continuation(pt >> 6), Continuation(pt)]
    else [0xEF, 0xBF, 0xBD]
  }

  function Continuation(bits: bv32): bv8 {
    ((bits & 0x3F) | 0x80) as bv8
  }

  function Encode16(pt: bv32): (r: Utf16)
    ensures 1 <= |r| <= 2
  {
    if pt < 0x10000 then [pt as bv16]
    else if pt < LIMIT then [HighSurrogate(pt), LowSurrogate(pt)]
    else [0xFFFD]
  }

  function HighSurrogate(pt: bv32): bv16
    requires 0x10000 <= pt < LIMIT
  {
    (((pt - 0x10000) >> 10) + 0xD800) as bv16
  }

  function LowSurrogate(pt: bv32): bv16 {
    ((pt & 0x3FF) + 0xDC00) as bv16
  }

  function EncodeAll8(pts: seq<bv32>): Utf8 {
    if pts == [] then [] else Encode8(pts[0]) + EncodeAll8(pts[1..])
  }

  function EncodeAll16(pts: seq<bv32>): Utf16 {
    if pts == [] then [] else Encode16(pts[0]) + EncodeAll16(pts[1..])
  }

  // ---------------------------------------------------------------- decoding one code point

  datatype OffsetPoint = InvalidPoint | OffsetPoint(offset: nat, pt: bv32)

  /** A string may be read up to and including its terminator. */
  function At8(s: Utf8, i: nat): bv8
    requires i <= |s|
  {
    if i < |s| then s[i] else 0
  }

  function At16(s: Utf16, i: nat): bv16
    requires i <= |s|
  {
    if i < |s| then s[i] else 0
  }

  predicate IsContinuation(b: bv8) {
    b & 0xC0 == 0x80
  }

  function Join2(b0: bv8, b1: bv8): bv32 {
    (((b0 & 0x1F) as bv32) << 6) | ((b1 & 0x3F) as bv32)
  }

  function Join3(b0: bv8, b1: bv8, b2: bv8): bv32 {
    (((b0 & 0x0F) as bv32) << 12) | (((b1 & 0x3F) as bv32) << 6) | ((b2 & 0x3F) as bv32)
  }

  function Join4(b0: bv8, b1: bv8, b2: bv8, b3: bv8): bv32 {
    (((b0 & 0x0F) as bv32) << 18) | (((b1 & 0x3F) as bv32) << 12) | (((b2 & 0x3F) as bv32) << 6) | ((b3 & 0x3F) as bv32)
  }

  function JoinSurrogates(high: bv16, low: bv16): bv32 {
    ((((high - 0xD800) as bv32) << 10) | ((low - 0xDC00) as bv32)) + 0x10000
  }

  function Decode8(s: Utf8, i: nat): (r: OffsetPoint)
    requires i <= |s|
    ensures r.OffsetPoint? ==> r.offset > 0 && (i < |s| ==> i + r.offset <= |s|)
  {
    var b0 := At8(s, i);
    if b0 < 0x80 then OffsetPoint(1, b0 as bv32)
    else if b0 < 0xC0 then InvalidPoint
    else if b0 < 0xE0 then
      if !IsContinuation(At8(s, i + 1)) then InvalidPoint
      else
        var pt := Join2(b0, At8(s, i + 1));
        if pt < 0x80 then InvalidPoint else OffsetPoint(2, pt)
    else if b0 < 0xF0 then
      if !IsContinuation(At8(s, i + 1)) then InvalidPoint
      else if !IsContinuation(At8(s, i + 2)) then InvalidPoint
      else
        var pt := Join3(b0, At8(s, i + 1), At8(s, i + 2));
        if pt < 0x800 then InvalidPoint else OffsetPoint(3, pt)
    else if b0 < 0xF8 then
      if !IsContinuation(At8(s, i + 1)) then InvalidPoint
      else if !IsContinuation(At8(s, i + 2)) then InvalidPoint
      else if !IsContinuation(At8(s, i + 3)) then InvalidPoint
      else
        var pt := Join4(b0, At8(s, i + 1), At8(s, i + 2), At8(s, i + 3));
        if pt < 0x10000 || pt >= LIMIT then InvalidPoint else OffsetPoint(4, pt)
    else InvalidPoint
  }

  function Decode16(s: Utf16, i: nat): (r: OffsetPoint)
    requires i <= |s|
    ensures r.OffsetPoint? ==> r.offset > 0 && (i < |s| ==> i + r.offset <= |s|)
  {
    if IsHighSurrogate(At16(s, i)) && IsLowSurrogate(At16(s, i + 1)) then
      OffsetPoint(2, JoinSurrogates(At16(s, i), At16(s, i + 1)))
    else if IsHighSurrogate(At16(s, i)) || IsLowSurrogate(At16(s, i)) then InvalidPoint
    else OffsetPoint(1, At16(s, i) as bv32)
  }

  // ---------------------------------------------------------------- decoding a string

  /** One step of the wrappers: what they return and how far they move. */
  function Replaced(r: OffsetPoint): OffsetPoint {
    if r.InvalidPoint? then OffsetPoint(1, REPLACEMENT) else r
  }

  function Points8(s: Utf8, i: nat): seq<bv32>
    requires i <= |s|
    decreases |s| - i
  {
    if i == |s| then []
    else var r := Replaced(Decode8(s, i)); [r.pt] + Points8(s, i + r.offset)
  }

  function Points16(s: Utf16, i: nat): seq<bv32>
    requires i <= |s|
    decreases |s| - i
  {
    if i == |s| then []
    else var r := Replaced(Decode16(s, i)); [r.pt] + Points16(s, i + r.offset)
  }

  predicate Valid8(s: Utf8, i: nat)
    requires i <= |s|
    decreases |s| - i
  {
    i == |s| || (Decode8(s, i).OffsetPoint? && Valid8(s, i + Decode8(s, i).offset))
  }

  predicate Valid16(s: Utf16, i: nat)
    requires i <= |s|
    decreases |s| - i
  {
    i == |s| || (Decode16(s, i).OffsetPoint? && Valid16(s, i + Decode16(s, i).offset))
  }

  function ToUtf8(s: Utf16): Utf8 {
    EncodeAll8(Points16(s, 0))
  }

  function ToUtf16(s: Utf8): Utf16 {
    EncodeAll16(Points8(s, 0))
  }

  predicate InRange(pts: seq<bv32>) {
    forall k :: 0 <= k < |pts| ==> pts[k] < LIMIT
  }

  predicate IsScalar(pt: bv32) {
    pt < LIMIT && !IsSurrogate(pt)
  }

  predicate Scalar(pts: seq<bv32>) {
    forall k :: 0 <= k < |pts| ==> IsScalar(pts[k])
  }

  // ---------------------------------------------------------------- bits

  lemma JoinOfSplit2(pt: bv32)
    requires 0x80 <= pt < 0x800
    ensures 0xC0 <= ((pt >> 6) | 0xC0) as bv8 < 0xE0 && IsContinuation(Continuation(pt))
    ensures Join2(((pt >> 6) | 0xC0) as bv8, Continuation(pt)) == pt
  {
  }

  lemma JoinOfSplit3(pt: bv32)
    requires 0x800 <= pt < 0x10000
    ensures 0xE0 <= ((pt >> 12) | 0xE0) as bv8 < 0xF0
    ensures IsContinuation(Continuation(pt >> 6)) && IsContinuation(Continuation(pt))
    ensures Join3(((pt >> 12) | 0xE0) as bv8, Continuation(pt >> 6), Continuation(pt)) == pt
  {
  }

  lemma JoinOfSplit4(pt: bv32)
    requires 0x10000 <= pt < LIMIT
    ensures 0xF0 <= ((pt >> 18) | 0xF0) as bv8 < 0xF8
    ensures IsContinuation(Continuation(pt >> 12)) && IsContinuation(Continuation(pt >> 6)) &&
      IsContinuation(Continuation(pt))
    ensures Join4(((pt >> 18) | 0xF0) as bv8, Continuation(pt >> 12), Continuation(pt >> 6), Continuation(pt)) == pt
  {
  }

  lemma SplitOfJoin2(b0: bv8, b1: bv8)
    requires 0xC0 <= b0 < 0xE0 && IsContinuation(b1)
    ensures Join2(b0, b1) < 0x800
    ensures ((Join2(b0, b1) >> 6) | 0xC0) & 0xFF == b0 as bv32 && Continuation(Join2(b0, b1)) == b1
  {
  }

  lemma SplitOfJoin3(b0: bv8, b1: bv8, b2: bv8)
    requires 0xE0 <= b0 < 0xF0 && IsContinuation(b1) && IsContinuation(b2)
    ensures Join3(b0, b1, b2) < 0x10000
    ensures ((Join3(b0, b1, b2) >> 12) | 0xE0) & 0xFF == b0 as bv32
    ensures Continuation(Join3(b0, b1, b2) >> 6) == b1 && Continuation(Join3(b0, b1, b2)) == b2
  {
  }

  lemma SplitOfJoin4(b0: bv8, b1: bv8, b2: bv8, b3: bv8)
    requires 0xF0 <= b0 < 0xF8 && IsContinuation(b1) && IsContinuation(b2) && IsContinuation(b3)
    ensures ((Join4(b0, b1, b2, b3) >> 18) | 0xF0) & 0xFF == b0 as bv32
    ensures Continuation(Join4(b0, b1, b2, b3) >> 12) == b1
    ensures Continuation(Join4(b0, b1, b2, b3) >> 6) == b2 && Continuation(Join4(b0, b1, b2, b3)) == b3
  {
  }

  lemma HighPart(pt: bv32)
    requires 0x10000 <= pt < LIMIT
    ensures IsHighSurrogate(HighSurrogate(pt))
    ensures (HighSurrogate(pt) - 0xD800) as bv32 == (pt - 0x10000) >> 10
  {
    var q := (pt - 0x10000) >> 10;
    assert q < 0x400;
    Shifted(q);
  }

  lemma Shifted(q: bv32)
    requires q < 0x400
    ensures q + 0xD800 < 0x10000
    ensures IsHighSurrogate((q + 0xD800) as bv16) && ((q + 0xD800) as bv16 - 0xD800) as bv32 == q
  {
  }

  lemma LowPart(pt: bv32)
    ensures IsLowSurrogate(LowSurrogate(pt))
    ensures (LowSurrogate(pt) - 0xDC00) as bv32 == pt & 0x3FF
  {
    var q := pt & 0x3FF;
    assert q < 0x400;
    ShiftedLow(q);
  }

  lemma ShiftedLow(q: bv32)
    requires q < 0x400
    ensures q + 0xDC00 < 0x10000
    ensures IsLowSurrogate((q + 0xDC00) as bv16) && ((q + 0xDC00) as bv16 - 0xDC00) as bv32 == q
  {
  }

  lemma Recombined(pt: bv32)
    requires 0x10000 <= pt < LIMIT
    ensures ((((pt - 0x10000) >> 10) << 10) | (pt & 0x3FF)) + 0x10000 == pt
  {
  }

  lemma JoinOfSplitSurrogates(pt: bv32)
    requires 0x10000 <= pt < LIMIT
    ensures IsHighSurrogate(HighSurrogate(pt)) && IsLowSurrogate(LowSurrogate(pt))
    ensures JoinSurrogates(HighSurrogate(pt), LowSurrogate(pt)) == pt
  {
    hide HighSurrogate, LowSurrogate, IsHighSurrogate, IsLowSurrogate;
    HighPart(pt);
    LowPart(pt);
    Recombined(pt);
  }

  lemma SplitOfJoinSurrogates(high: bv16, low: bv16)
    requires IsHighSurrogate(high) && IsLowSurrogate(low)
    ensures 0x10000 <= JoinSurrogates(high, low) < LIMIT
    ensures HighSurrogate(JoinSurrogates(high, low)) == high && LowSurrogate(JoinSurrogates(high, low)) == low
  {
  }

  lemma Narrow8(x: bv32, b: bv8)
    requires x < 0x100 && x & 0xFF == b as bv32
    ensures x as bv8 == b
  {
  }

  lemma LeadBytes(pt: bv32)
    ensures pt < 0x800 ==> (pt >> 6) | 0xC0 < 0x100
    ensures pt < 0x10000 ==> (pt >> 12) | 0xE0 < 0x100
    ensures pt < LIMIT ==> (pt >> 18) | 0xF0 < 0x100
  {
  }

  // ---------------------------------------------------------------- one code point there and back

  lemma SliceAt<T>(s: seq<T>, i: nat, e: seq<T>)
    requires i + |e| <= |s| && s[i..i + |e|] == e
    ensures forall k :: 0 <= k < |e| ==> s[i + k] == e[k]
  {
    forall k | 0 <= k < |e| ensures s[i + k] == e[k] {
      assert s[i..i + |e|][k] == s[i + k];
    }
  }

  lemma {:induction false} Decode8OfEncode8(s: Utf8, i: nat, pt: bv32)
    requires pt < LIMIT && i + |Encode8(pt)| <= |s| && s[i..i + |Encode8(pt)|] == Encode8(pt)
    ensures Decode8(s, i) == OffsetPoint(|Encode8(pt)|, pt)
  {
    hide Join2, Join3, Join4, Continuation, IsContinuation;
    var e := Encode8(pt);
    SliceAt(s, i, e);
    assert s[i + 0] == e[0];
    if pt < 0x80 {
      Encode8OfAscii(pt as bv8);
    } else if pt < 0x800 {
      JoinOfSplit2(pt);
      assert s[i + 1] == e[1];
    } else if pt < 0x10000 {
      JoinOfSplit3(pt);
      assert s[i + 1] == e[1] && s[i + 2] == e[2];
    } else {
      JoinOfSplit4(pt);
      assert s[i + 1] == e[1] && s[i + 2] == e[2] && s[i + 3] == e[3];
    }
  }

  lemma Encode8OfJoin2(b0: bv8, b1: bv8)
    requires 0xC0 <= b0 < 0xE0 && IsContinuation(b1) && Join2(b0, b1) >= 0x80
    ensures Encode8(Join2(b0, b1)) == [b0, b1]
  {
    hide Join2, Continuation, IsContinuation;
    SplitOfJoin2(b0, b1);
    LeadBytes(Join2(b0, b1));
    Narrow8((Join2(b0, b1) >> 6) | 0xC0, b0);
  }

  lemma Encode8OfJoin3(b0: bv8, b1: bv8, b2: bv8)
    requires 0xE0 <= b0 < 0xF0 && IsContinuation(b1) && IsContinuation(b2) && Join3(b0, b1, b2) >= 0x800
    ensures Encode8(Join3(b0, b1, b2)) == [b0, b1, b2]
  {
    hide Join3, Continuation, IsContinuation;
    SplitOfJoin3(b0, b1, b2);
    LeadBytes(Join3(b0, b1, b2));
    Narrow8((Join3(b0, b1, b2) >> 12) | 0xE0, b0);
  }

  lemma Encode8OfJoin4(b0: bv8, b1: bv8, b2: bv8, b3: bv8)
    requires 0xF0 <= b0 < 0xF8 && IsContinuation(b1) && IsContinuation(b2) && IsContinuation(b3)
    requires 0x10000 <= Join4(b0, b1, b2, b3) < LIMIT
    ensures Encode8(Join4(b0, b1, b2, b3)) == [b0, b1, b2, b3]
  {
    hide Join4, Continuation, IsContinuation;
    SplitOfJoin4(b0, b1, b2, b3);
    LeadBytes(Join4(b0, b1, b2, b3));
    Narrow8((Join4(b0, b1, b2, b3) >> 18) | 0xF0, b0);
  }

  lemma {:induction false} Encode8OfDecode8(s: Utf8, i: nat)
    requires i < |s| && Decode8(s, i).OffsetPoint?
    ensures var r := Decode8(s, i); r.pt < LIMIT && Encode8(r.pt) == s[i..i + r.offset]
  {
    hide Join2, Join3, Join4, Encode8, IsContinuation;
    if s[i] < 0x80 {
      Encode8OfAscii(s[i]);
      assert s[i..i + 1] == [s[i]];
    } else if s[i] < 0xE0 {
      assert s[i..i + 2] == [s[i], s[i + 1]];
      Encode8OfJoin2(s[i], s[i + 1]);
      SplitOfJoin2(s[i], s[i + 1]);
    } else if s[i] < 0xF0 {
      assert s[i..i + 3] == [s[i], s[i + 1], s[i + 2]];
      Encode8OfJoin3(s[i], s[i + 1], s[i + 2]);
      SplitOfJoin3(s[i], s[i + 1], s[i + 2]);
    } else {
      assert s[i..i + 4] == [s[i], s[i + 1], s[i + 2], s[i + 3]];
      Encode8OfJoin4(s[i], s[i + 1], s[i + 2], s[i + 3]);
    }
  }

  lemma Encode8OfAscii(b: bv8)
    requires b < 0x80
    ensures b as bv32 < 0x80 && (b as bv32) as bv8 == b && Encode8(b as bv32) == [b]
  {
  }

  lemma UnitOfPoint(pt: bv32)
    requires pt < 0x10000 && !IsSurrogate(pt)
    ensures !IsHighSurrogate(pt as bv16) && !IsLowSurrogate(pt as bv16) && (pt as bv16) as bv32 == pt
  {
  }

  lemma PointOfUnit(c: bv16)
    requires !IsHighSurrogate(c) && !IsLowSurrogate(c)
    ensures IsScalar(c as bv32) && Encode16(c as bv32) == [c]
  {
  }

  lemma PairedPoint(high: bv16, low: bv16)
    requires IsHighSurrogate(high) && IsLowSurrogate(low)
    ensures var pt := JoinSurrogates(high, low); IsScalar(pt) && Encode16(pt) == [high, low]
  {
    hide JoinSurrogates, HighSurrogate, LowSurrogate, IsHighSurrogate, IsLowSurrogate;
    SplitOfJoinSurrogates(high, low);
  }

  lemma {:induction false} Decode16OfEncode16(s: Utf16, i: nat, pt: bv32)
    requires IsScalar(pt)
    requires i + |Encode16(pt)| <= |s| && s[i..i + |Encode16(pt)|] == Encode16(pt)
    ensures Decode16(s, i) == OffsetPoint(|Encode16(pt)|, pt)
  {
    hide JoinSurrogates, HighSurrogate, LowSurrogate, IsHighSurrogate, IsLowSurrogate, IsSurrogate;
    var e := Encode16(pt);
    SliceAt(s, i, e);
    if pt >= 0x10000 {
      JoinOfSplitSurrogates(pt);
    } else {
      UnitOfPoint(pt);
    }
  }

  lemma DecodeOfUnit(s: Utf16, i: nat)
    requires i < |s| && !IsHighSurrogate(s[i]) && !IsLowSurrogate(s[i])
    ensures Decode16(s, i) == OffsetPoint(1, s[i] as bv32)
  {
    hide IsHighSurrogate, IsLowSurrogate;
  }

  lemma Encode16OfUnit(s: Utf16, i: nat)
    requires i < |s| && !IsHighSurrogate(s[i]) && !IsLowSurrogate(s[i])
    ensures Decode16(s, i) == OffsetPoint(1, s[i] as bv32)
    ensures IsScalar(s[i] as bv32) && Encode16(s[i] as bv32) == s[i..i + 1]
  {
    hide *;
    DecodeOfUnit(s, i);
    PointOfUnit(s[i]);
    assert s[i..i + 1] == [s[i]];
  }

  lemma Encode16OfPair(s: Utf16, i: nat)
    requires i + 1 < |s| && IsHighSurrogate(s[i]) && IsLowSurrogate(s[i + 1])
    ensures Decode16(s, i) == OffsetPoint(2, JoinSurrogates(s[i], s[i + 1]))
    ensures var pt := JoinSurrogates(s[i], s[i + 1]); IsScalar(pt) && Encode16(pt) == s[i..i + 2]
  {
    hide IsScalar, IsHighSurrogate, IsLowSurrogate, Encode16, JoinSurrogates;
    PairedPoint(s[i], s[i + 1]);
    assert s[i..i + 2] == [s[i], s[i + 1]];
  }

  lemma DecodableUnits(s: Utf16, i: nat)
    requires i < |s| && Decode16(s, i).OffsetPoint?
    ensures if IsHighSurrogate(s[i]) then i + 1 < |s| && IsLowSurrogate(s[i + 1]) else !IsLowSurrogate(s[i])
  {
  }

  lemma {:induction false} Encode16OfDecode16(s: Utf16, i: nat)
    requires i < |s| && Decode16(s, i).OffsetPoint?
    ensures var r := Decode16(s, i); IsScalar(r.pt) && Encode16(r.pt) == s[i..i + r.offset]
  {
    hide Decode16, IsScalar, IsHighSurrogate, IsLowSurrogate, Encode16, JoinSurrogates;
    DecodableUnits(s, i);
    if IsHighSurrogate(s[i]) {
      Encode16OfPair(s, i);
    } else {
      Encode16OfUnit(s, i);
    }
  }

  // ---------------------------------------------------------------- strings there and back

  lemma {:induction false} Points8OfEncoded(before: Utf8, pts: seq<bv32>)
    requires InRange(pts)
    ensures Points8(before + EncodeAll8(pts), |before|) == pts
    ensures Valid8(before + EncodeAll8(pts), |before|)
    decreases |pts|
  {
    hide Decode8, Encode8;
    var s := before + EncodeAll8(pts);
    if pts != [] {
      var e := Encode8(pts[0]);
      assert s == (before + e) + EncodeAll8(pts[1..]);
      assert s[|before|..|before| + |e|] == e;
      Decode8OfEncode8(s, |before|, pts[0]);
      Points8OfEncoded(before + e, pts[1..]);
    }
  }

  lemma {:induction false} Points16OfEncoded(before: Utf16, pts: seq<bv32>)
    requires Scalar(pts)
    ensures Points16(before + EncodeAll16(pts), |before|) == pts
    ensures Valid16(before + EncodeAll16(pts), |before|)
    decreases |pts|
  {
    hide Decode16, Encode16;
    var s := before + EncodeAll16(pts);
    if pts != [] {
      var e := Encode16(pts[0]);
      assert s == (before + e) + EncodeAll16(pts[1..]);
      assert s[|before|..|before| + |e|] == e;
      Decode16OfEncode16(s, |before|, pts[0]);
      Points16OfEncoded(before + e, pts[1..]);
    }
  }

  lemma Valid8Step(s: Utf8, i: nat)
    requires i <= |s|
    ensures Valid8(s, i) <==> i == |s| || (Decode8(s, i).OffsetPoint? && Valid8(s, i + Decode8(s, i).offset))
  {
    hide Decode8;
  }

  lemma {:induction false} EncodedPoints8(s: Utf8, i: nat)
    requires i <= |s|
    ensures InRange(Points8(s, i))
    ensures Valid8(s, i) ==> EncodeAll8(Points8(s, i)) == s[i..]
    decreases |s| - i
  {
    hide Decode8, Encode8, Valid8;
    Valid8Step(s, i);
    if i < |s| {
      var r := Replaced(Decode8(s, i));
      EncodedPoints8(s, i + r.offset);
      if Decode8(s, i).OffsetPoint? {
        Encode8OfDecode8(s, i);
        assert s[i..] == s[i..i + r.offset] + s[i + r.offset..];
      }
      assert Points8(s, i)[1..] == Points8(s, i + r.offset);
    }
  }

  lemma ReplacementIsScalar()
    ensures IsScalar(REPLACEMENT)
  {
  }

  lemma Points16Step(s: Utf16, i: nat)
    requires i < |s|
    ensures var r := Replaced(Decode16(s, i));
            && r.OffsetPoint? && 0 < r.offset && i + r.offset <= |s|
            && Points16(s, i) == [r.pt] + Points16(s, i + r.offset)
            && (Valid16(s, i) <==> Decode16(s, i).OffsetPoint? && Valid16(s, i + r.offset))
            && (Decode16(s, i).OffsetPoint? ==> r == Decode16(s, i))
            && (Decode16(s, i).InvalidPoint? ==> r.pt == REPLACEMENT)
  {
    hide Decode16;
  }

  lemma EncodeAll16Step(pt: bv32, pts: seq<bv32>)
    requires IsScalar(pt) && Scalar(pts)
    ensures Scalar([pt] + pts) && EncodeAll16([pt] + pts) == Encode16(pt) + EncodeAll16(pts)
  {
    hide Encode16, IsScalar;
    assert ([pt] + pts)[1..] == pts;
  }

  lemma NothingLeft(s: Utf16)
    ensures Scalar(Points16(s, |s|)) && EncodeAll16(Points16(s, |s|)) == s[|s|..]
  {
  }

  lemma {:induction false} EncodedPoints16(s: Utf16, i: nat)
    requires i <= |s|
    ensures Scalar(Points16(s, i))
    ensures Valid16(s, i) ==> EncodeAll16(Points16(s, i)) == s[i..]
    decreases |s| - i
  {
    hide *;
    if i == |s| {
      NothingLeft(s);
    } else {
      var r := Replaced(Decode16(s, i));
      Points16Step(s, i);
      EncodedPoints16(s, i + r.offset);
      ReplacementIsScalar();
      if Decode16(s, i).OffsetPoint? {
        Encode16OfDecode16(s, i);
        assert s[i..] == s[i..i + r.offset] + s[i + r.offset..];
      }
      EncodeAll16Step(r.pt, Points16(s, i + r.offset));
    }
  }

  // ---------------------------------------------------------------- the conversions

  /** Whatever comes in, the output decodes to the same points and is valid. */
  lemma ToUtf8IsValid(s: Utf16)
    ensures Valid8(ToUtf8(s), 0)
    ensures Points8(ToUtf8(s), 0) == Points16(s, 0)
  {
    hide Points8, Points16, Valid8, EncodeAll8;
    EncodedPoints16(s, 0);
    Points8OfEncoded([], Points16(s, 0));
    assert [] + ToUtf8(s) == ToUtf8(s);
  }

  /** UTF-16 survives the way through UTF-8 exactly when it has no unpaired surrogates. */
  lemma Utf16RoundTrip(s: Utf16)
    ensures ToUtf16(ToUtf8(s)) == s <==> Valid16(s, 0)
  {
    hide Points8, Points16, Valid16, EncodeAll16;
    ToUtf8IsValid(s);
    EncodedPoints16(s, 0);
    Points16OfEncoded([], Points16(s, 0));
    assert [] + EncodeAll16(Points16(s, 0)) == EncodeAll16(Points16(s, 0));
    assert s[0..] == s;
  }

  /** UTF-8 survives the way through UTF-16 exactly when it is valid and encodes no surrogates. */
  lemma Utf8RoundTrip(s: Utf8)
    ensures ToUtf8(ToUtf16(s)) == s <==> Valid8(s, 0) && Scalar(Points8(s, 0))
  {
    hide Points8, Points16, Valid8, Valid16, EncodeAll8, EncodeAll16, Scalar;
    var pts := Points8(s, 0);
    EncodedPoints8(s, 0);
    assert s[0..] == s;
    if Valid8(s, 0) && Scalar(pts) {
      Points16OfEncoded([], pts);
      assert [] + EncodeAll16(pts) == EncodeAll16(pts);
    }
    ToUtf8IsValid(ToUtf16(s));
    EncodedPoints16(ToUtf16(s), 0);
  }

  // ---------------------------------------------------------------- the code

  method Utf8Encode(pt: bv32, out: Utf8) returns (out': Utf8)
    ensures out' == out + Encode8(pt)
  {
    out' := out;
    if pt < 0x80 {
      out' := out' + [pt as bv8];
    } else if pt < 0x800 {
      out' := out' + [((pt >> 6) | 0xC0) as bv8, ((pt & 0x3F) | 0x80) as bv8];
    } else if pt < 0x10000 {
      out' := out' + [((pt >> 12) | 0xE0) as bv8, (((pt >> 6) & 0x3F) | 0x80) as bv8, ((pt & 0x3F) | 0x80) as bv8];
    } else if pt < LIMIT {
      out' := out' + [((pt >> 18) | 0xF0) as bv8, (((pt >> 12) & 0x3F) | 0x80) as bv8,
                      (((pt >> 6) & 0x3F) | 0x80) as bv8, ((pt & 0x3F) | 0x80) as bv8];
    } else {
      out' := out' + [0xEF, 0xBF, 0xBD];
    }
  }

  method Utf16Encode(pt: bv32, out: Utf16) returns (out': Utf16)
    ensures out' == out + Encode16(pt)
  {
    out' := out;
    if pt < 0x10000 {
      out' := out' + [pt as bv16];
    } else if pt < LIMIT {
      out' := out' + [(((pt - 0x10000) >> 10) + 0xD800) as bv16, ((pt & 0x3FF) + 0xDC00) as bv16];
    } else {
      out' := out' + [0xFFFD];
    }
  }

  /** Decoding always advances, and never past the end. */
  method Utf8Decode(s: Utf8, i: nat) returns (pt: bv32, i': nat, replaced: bool)
    requires i < |s|
    ensures i < i' <= |s| && OffsetPoint(i' - i, pt) == Replaced(Decode8(s, i))
    ensures replaced == Decode8(s, i).InvalidPoint?
  {
    hide Decode8;
    var r := Decode8(s, i);
    if r.InvalidPoint? {
      return REPLACEMENT, i + 1, true;
    } else {
      return r.pt, i + r.offset, false;
    }
  }

  method Utf16Decode(s: Utf16, i: nat) returns (pt: bv32, i': nat, replaced: bool)
    requires i < |s|
    ensures i < i' <= |s| && OffsetPoint(i' - i, pt) == Replaced(Decode16(s, i))
    ensures replaced == Decode16(s, i).InvalidPoint?
  {
    hide Decode16;
    var r := Decode16(s, i);
    if r.InvalidPoint? {
      return REPLACEMENT, i + 1, true;
    } else {
      return r.pt, i + r.offset, false;
    }
  }

  method Utf8Check(s: Utf8) returns (valid: bool)
    ensures valid == Valid8(s, 0)
  {
    hide Decode8;
    var i: nat := 0;
    while i < |s|
      invariant i <= |s| && Valid8(s, i) == Valid8(s, 0)
    {
      var r := Decode8(s, i);
      if r.InvalidPoint? {
        return false;
      }
      i := i + r.offset;
    }
    return true;
  }

  method Utf16Check(s: Utf16) returns (valid: bool)
    ensures valid == Valid16(s, 0)
  {
    hide Decode16;
    var i: nat := 0;
    while i < |s|
      invariant i <= |s| && Valid16(s, i) == Valid16(s, 0)
    {
      var r := Decode16(s, i);
      if r.InvalidPoint? {
        return false;
      }
      i := i + r.offset;
    }
    return true;
  }

  method ConvertToUtf16(s: Utf8) returns (out: Utf16)
    ensures out == ToUtf16(s)
  {
    hide Decode8, Encode16, Replaced;
    out := [];
    var i: nat := 0;
    while i < |s|
      invariant i <= |s| && out + EncodeAll16(Points8(s, i)) == ToUtf16(s)
      decreases |s| - i
    {
      var pt, next, replaced := Utf8Decode(s, i);
      assert Points8(s, i)[1..] == Points8(s, next) && Points8(s, i)[0] == pt;
      assert out + EncodeAll16(Points8(s, i)) == (out + Encode16(pt)) + EncodeAll16(Points8(s, next));
      out := Utf16Encode(pt, out);
      i := next;
    }
  }

  method ConvertToUtf8(s: Utf16) returns (out: Utf8)
    ensures out == ToUtf8(s)
  {
    hide Decode16, Encode8, Replaced;
    out := [];
    var i: nat := 0;
    while i < |s|
      invariant i <= |s| && out + EncodeAll8(Points16(s, i)) == ToUtf8(s)
      decreases |s| - i
    {
      var pt, next, replaced := Utf16Decode(s, i);
      assert Points16(s, i)[1..] == Points16(s, next) && Points16(s, i)[0] == pt;
      assert out + EncodeAll8(Points16(s, i)) == (out + Encode8(pt)) + EncodeAll8(Points16(s, next));
      out := Utf8Encode(pt, out);
      i := next;
    }
  }
}
