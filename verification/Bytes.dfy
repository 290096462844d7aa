/**
 * Little-endian integers as the native code stores them through UNALIGNED pointers:
 * the n low-order bytes of a two's-complement value.
 */
module Bytes {

  type byte = x: int | 0 <= x < 256

  datatype Option<+T> = None | Some(value: T)

  const TWO_TO_THE_31: int := 0x8000_0000
  const TWO_TO_THE_32: int := 0x1_0000_0000

  /** Conversion of an integer to a 32-bit unsigned one. */
  function Wrap32(x: int): (r: nat)
    ensures r < TWO_TO_THE_32
    ensures 0 <= x < TWO_TO_THE_32 ==> r == x
  {
    x % TWO_TO_THE_32
  }

  lemma Wrap32OfSmall(x: int)
    requires 0 <= x < TWO_TO_THE_31
    ensures Wrap32(x) == x
  {
  }

  function Pow256(n: nat): (p: int)
    ensures p > 0
  {
    if n == 0 then 1 else 256 * Pow256(n - 1)
  }

  /** The n low-order bytes of v, least significant first. */
  function LittleEndian(v: int, n: nat): (b: seq<byte>)
    ensures |b| == n
    decreases n
  {
    if n == 0 then [] else [v % 256] + LittleEndian(v / 256, n - 1)
  }

  function Unsigned(b: seq<byte>): (v: nat)
    ensures v < Pow256(|b|)
  {
    if |b| == 0 then 0 else b[0] + 256 * Unsigned(b[1..])
  }

  function Signed(b: seq<byte>): (v: int)
    ensures -Pow256(|b|) <= 2 * v < Pow256(|b|)
  {
    var u := Unsigned(b);
    if 2 * u >= Pow256(|b|) then u - Pow256(|b|) else u
  }

  /** v is representable as an n-byte two's-complement integer. */
  predicate InRange(v: int, n: nat) {
    -Pow256(n) <= 2 * v < Pow256(n)
  }

  lemma PowerStep(k: int, n: nat)
    requires n > 0
    ensures k * Pow256(n) == 256 * (k * Pow256(n - 1))
  {
  }

  lemma DivModAddMultiple(v: int, q: int)
    ensures (v + 256 * q) % 256 == v % 256
    ensures (v + 256 * q) / 256 == v / 256 + q
  {
  }

  /** Bytes only keep the value modulo 256^n. */
  lemma {:induction false} LittleEndianCongruent(v: int, k: int, n: nat)
    ensures LittleEndian(v + k * Pow256(n), n) == LittleEndian(v, n)
    decreases n
  {
    if n > 0 {
      var q := k * Pow256(n - 1);
      PowerStep(k, n);
      DivModAddMultiple(v, q);
      LittleEndianCongruent(v / 256, k, n - 1);
    }
  }

  lemma {:induction false} LittleEndianOfUnsigned(b: seq<byte>)
    ensures LittleEndian(Unsigned(b), |b|) == b
  {
    if |b| == 0 {
    } else {
      var u := Unsigned(b[1..]);
      assert (b[0] + 256 * u) % 256 == b[0];
      assert (b[0] + 256 * u) / 256 == u;
      LittleEndianOfUnsigned(b[1..]);
      assert b == [b[0]] + b[1..];
    }
  }

  lemma SignedIsCongruent(b: seq<byte>) returns (k: int)
    ensures Signed(b) == Unsigned(b) + k * Pow256(|b|)
  {
    k := if 2 * Unsigned(b) >= Pow256(|b|) then -1 else 0;
  }

  /** Writing back what was read reproduces the bytes. */
  lemma LittleEndianOfSigned(b: seq<byte>)
    ensures LittleEndian(Signed(b), |b|) == b
  {
    var k := SignedIsCongruent(b);
    LittleEndianCongruent(Unsigned(b), k, |b|);
    LittleEndianOfUnsigned(b);
  }

  lemma {:induction false} UnsignedOfLittleEndian(v: int, n: nat) returns (k: int)
    ensures Unsigned(LittleEndian(v, n)) == v + k * Pow256(n)
    decreases n
  {
    if n == 0 {
      k := -v;
    } else {
      k := UnsignedOfLittleEndian(v / 256, n - 1);
      var b := LittleEndian(v, n);
      assert b[1..] == LittleEndian(v / 256, n - 1);
      PowerStep(k, n);
      assert v == 256 * (v / 256) + v % 256;
    }
  }

  lemma ProductOrder(k: int, m: int, p: int)
    requires p > 0
    ensures k >= m ==> k * p >= m * p
    ensures k <= m ==> k * p <= m * p
  {
  }

  lemma QuotientIsZeroOrOne(u: int, v: int, k: int, p: int)
    requires 0 <= u < p && -p <= 2 * v < p && u == v + k * p
    ensures k == 0 || k == 1
  {
    ProductOrder(k, 2, p);
    ProductOrder(k, -1, p);
  }

  /** Reading back a value that fits recovers it. */
  lemma SignedOfLittleEndian(v: int, n: nat)
    requires InRange(v, n)
    ensures Signed(LittleEndian(v, n)) == v
  {
    hide LittleEndian, Unsigned, Pow256;
    var k := UnsignedOfLittleEndian(v, n);
    QuotientIsZeroOrOne(Unsigned(LittleEndian(v, n)), v, k, Pow256(n));
  }

  lemma PowersOf256()
    ensures Pow256(1) == 0x100
    ensures Pow256(2) == 0x1_0000
    ensures Pow256(4) == TWO_TO_THE_32
    ensures Pow256(8) == 0x1_0000_0000_0000_0000
  {
    assert Pow256(2) == 256 * Pow256(1);
    assert Pow256(3) == 256 * Pow256(2);
    assert Pow256(4) == 256 * Pow256(3);
    assert Pow256(5) == 256 * Pow256(4);
    assert Pow256(6) == 256 * Pow256(5);
    assert Pow256(7) == 256 * Pow256(6);
  }

  /** memcpy of b to position at of the buffer. */
  method WriteBytes(buffer: array<byte>, at: nat, b: seq<byte>)
    requires at + |b| <= buffer.Length
    modifies buffer
    ensures buffer[..] == Overwritten(old(buffer[..]), at, b)
  {
    var i := 0;
    while i < |b|
      invariant 0 <= i <= |b|
      invariant forall k :: 0 <= k < buffer.Length ==>
        buffer[k] == if at <= k < at + i then b[k - at] else old(buffer[k])
    {
      buffer[at + i] := b[i];
      i := i + 1;
    }
  }

  function Overwritten(buf: seq<byte>, at: nat, b: seq<byte>): (r: seq<byte>)
    requires at + |b| <= |buf|
    ensures |r| == |buf|
    ensures r[at..at + |b|] == b
    ensures forall lo, hi :: 0 <= lo <= hi <= |buf| && (hi <= at || at + |b| <= lo) ==> r[lo..hi] == buf[lo..hi]
  {
    buf[..at] + b + buf[at + |b|..]
  }
}
