/**
 * Compressed unsigned integers of metadata blobs (ECMA-335 Partition II, section 23.2): one, two or four
 * bytes, most significant first, told apart by the top bits of the first byte.
 */
module CompressedNumbers {
  import opened Bytes

  /** The bytes p stand at position cur of b. */
  predicate At(b: seq<byte>, cur: nat, p: seq<byte>) {
    cur + |p| <= |b| && b[cur..cur + |p|] == p
  }

  lemma AtConcat(b: seq<byte>, cur: nat, p: seq<byte>, q: seq<byte>)
    ensures At(b, cur, p + q) <==> At(b, cur, p) && At(b, cur + |p|, q)
  {
    if At(b, cur, p + q) {
      var s := b[cur..cur + |p + q|];
      assert s[..|p|] == p && s[|p|..] == q;
    }
  }

  lemma AtIndex(b: seq<byte>, cur: nat, p: seq<byte>, i: nat)
    requires At(b, cur, p) && i < |p|
    ensures cur + i < |b| && b[cur + i] == p[i]
  {
    assert b[cur..cur + |p|][i] == p[i];
  }

  lemma AtByte(b: seq<byte>, cur: nat, x: byte)
    ensures At(b, cur, [x]) <==> cur < |b| && b[cur] == x
  {
  }

  /** A number together with the width it is written in; writers choose the least width. */
  datatype Number = Number(value: nat, width: nat)

  predicate IsNumber(n: Number) {
    || (n.width == 1 && n.value <= 0x7F)
    || (n.width == 2 && n.value <= 0x3FFF)
    || (n.width == 4 && n.value <= 0x1FFF_FFFF)
  }

  /** v >> 8 and v & 0xFF. */
  function High(v: nat): (h: nat)
    ensures 0x100 * h <= v < 0x100 * (h + 1)
  {
    v / 0x100
  }

  function Low(v: nat): (l: byte)
    ensures v == 0x100 * High(v) + l
  {
    v % 0x100
  }

  function NumberBytes(n: Number): (b: seq<byte>)
    requires IsNumber(n)
    ensures |b| == n.width
  {
    if n.width == 1 then [n.value]
    else if n.width == 2 then [0x80 + High(n.value), Low(n.value)]
    else
      [0xC0 + High(High(High(n.value))), Low(High(High(n.value))), Low(High(n.value)), Low(n.value)]
  }

  /** CorSigCompressData: the shortest encoding; None when the value is too large. */
  function Compressed(v: nat): (n: Option<Number>)
    ensures n.Some? <==> v <= 0x1FFF_FFFF
    ensures n.Some? ==> IsNumber(n.value) && n.value.value == v
  {
    if v <= 0x7F then Some(Number(v, 1))
    else if v <= 0x3FFF then Some(Number(v, 2))
    else if v <= 0x1FFF_FFFF then Some(Number(v, 4))
    else None
  }

  /** High-order part and next byte. */
  function Join(high: int, low: byte): (v: int)
    ensures v == high * 0x100 + low as int
    ensures high >= 0 ==> v >= 0 && High(v) == high && Low(v) == low
  {
    high * 0x100 + low as int
  }

  /** The number at cur, and the position after it; None where ParseNumber fails. */
  function ReadNumber(b: seq<byte>, cur: nat): (r: Option<(nat, nat)>)
    ensures r.Some? ==> cur < r.value.1 <= |b| && r.value.0 <= 0x1FFF_FFFF
  {
    if cur >= |b| || b[cur] == 0xFF then None
    else if b[cur] < 0x80 then Some((b[cur] as nat, cur + 1))
    else if cur + 1 >= |b| then None
    else if b[cur] < 0xC0 then Some((Join(b[cur] as int - 0x80, b[cur + 1]), cur + 2))
    else if b[cur] >= 0xE0 || cur + 3 >= |b| then None
    else
      Some((Join(Join(Join(b[cur] as int - 0xC0, b[cur + 1]), b[cur + 2]), b[cur + 3]), cur + 4))
  }

  /** Reading inverts writing, for every value below 2^29 and every width that holds it. */
  lemma ReadOfWritten(b: seq<byte>, cur: nat, n: Number)
    requires IsNumber(n) && At(b, cur, NumberBytes(n))
    ensures ReadNumber(b, cur) == Some((n.value, cur + n.width))
  {
    hide High, Low, Join, At;
    var v, p := n.value, NumberBytes(n);
    AtIndex(b, cur, p, 0);
    if n.width == 2 {
      AtIndex(b, cur, p, 1);
    } else if n.width == 4 {
      AtIndex(b, cur, p, 1);
      AtIndex(b, cur, p, 2);
      AtIndex(b, cur, p, 3);
      assert Join(High(High(High(v))), Low(High(High(v)))) == High(High(v));
      assert Join(High(High(v)), Low(High(v))) == High(v);
    }
  }

  /** Whatever is read was written by some encoding. */
  lemma WrittenOfRead(b: seq<byte>, cur: nat) returns (n: Number)
    requires ReadNumber(b, cur).Some?
    ensures IsNumber(n) && At(b, cur, NumberBytes(n))
    ensures ReadNumber(b, cur) == Some((n.value, cur + n.width))
  {
    hide High, Low, Join;
    var (v, next) := ReadNumber(b, cur).value;
    n := Number(v, next - cur);
    if n.width == 2 {
      assert NumberBytes(n) == [b[cur], b[cur + 1]];
    } else if n.width == 4 {
      assert NumberBytes(n) == [b[cur], b[cur + 1], b[cur + 2], b[cur + 3]];
    }
    assert b[cur..next] == NumberBytes(n);
  }

  /** ParseByte and ParseNumber, advancing through the blob. */
  method ParseByte(b: seq<byte>, cur: nat) returns (ok: bool, x: byte, next: nat)
    ensures ok <==> cur < |b|
    ensures ok ==> x == b[cur] && next == cur + 1
  {
    if cur < |b| {
      return true, b[cur], cur + 1;
    }
    return false, 0, cur;
  }

  method ParseNumber(b: seq<byte>, cur: nat) returns (ok: bool, v: nat, next: nat)
    ensures ok <==> ReadNumber(b, cur).Some?
    ensures ok ==> ReadNumber(b, cur) == Some((v, next))
  {
    var b1, b2, b3, b4;
    v := 0;
    ok, b1, next := ParseByte(b, cur);
    if !ok || b1 == 0xFF {
      return false, v, next;
    }
    if b1 < 0x80 {
      return true, b1 as nat, next;
    }
    ok, b2, next := ParseByte(b, next);
    if !ok {
      return;
    }
    if b1 < 0xC0 {
      return true, Join(b1 as int - 0x80, b2), next;
    }
    if b1 >= 0xE0 {
      return false, v, next;
    }
    ok, b3, next := ParseByte(b, next);
    if !ok {
      return;
    }
    ok, b4, next := ParseByte(b, next);
    if !ok {
      return;
    }
    v := Join(Join(Join(b1 as int - 0xC0, b2), b3), b4);
  }
}
