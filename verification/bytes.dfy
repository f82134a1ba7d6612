/** Byte buffers and little-endian integers, as the C sources read them from
    memory (`get_unaligned_le16/le32` in tools/linux_util.h) or copy them with
    `memcpy` on a little-endian host. */
module Bytes {

  /** An octet, kept as its unsigned value. */
  type byte = b: int | 0 <= b < 256

  const TWO_8: nat := 0x100
  const TWO_16: nat := 0x1_0000
  const TWO_32: nat := 0x1_0000_0000
  const TWO_64: nat := 0x1_0000_0000_0000_0000

  /** `n` zero bytes, what `memset(p, 0, n)` leaves behind. */
  function Zeros(n: nat): (r: seq<byte>)
    ensures |r| == n
    ensures forall i :: 0 <= i < n ==> r[i] == 0
  {
    seq(n, _ => 0)
  }

  /** Overwrites `|b|` bytes of `s` starting at `off` (a `memcpy` into a buffer). */
  function Write(s: seq<byte>, off: nat, b: seq<byte>): (r: seq<byte>)
    requires off + |b| <= |s|
    ensures |r| == |s|
    ensures r[off..off + |b|] == b
    ensures r[..off] == s[..off] && r[off + |b|..] == s[off + |b|..]
  {
    s[..off] + b + s[off + |b|..]
  }

  /** A copy of `b` to offset `off` of an object of `|s|` bytes that runs
      on for as long as `b` does: the bytes that would land past the end
      of the object are not kept. */
  function WriteClipped(s: seq<byte>, off: nat, b: seq<byte>): (r: seq<byte>)
    requires off <= |s|
    ensures |r| == |s|
    ensures forall i :: 0 <= i < |s| ==> r[i] == if off <= i < off + |b| then b[i - off] else s[i]
  {
    if off + |b| <= |s| then Write(s, off, b) else s[..off] + b[..|s| - off]
  }

  /** The bytes `s[a..b]`, listed one by one. */
  function Slice(s: seq<byte>, a: nat, b: nat): (r: seq<byte>)
    requires a <= b <= |s|
    ensures |r| == b - a
  {
    seq(b - a, j requires 0 <= j < b - a => s[a + j])
  }

  lemma SliceIsSubseq(s: seq<byte>, a: nat, b: nat)
    requires a <= b <= |s|
    ensures Slice(s, a, b) == s[a..b]
  {
  }

  /** `get_unaligned_le16`: byte 0 is the low byte. */
  function Le16At(s: seq<byte>, off: nat): nat
    requires off + 2 <= |s|
  {
    s[off] as nat + 256 * (s[off + 1] as nat)
  }

  /** `get_unaligned_le32`: bytes 0..3 from least to most significant. */
  function Le32At(s: seq<byte>, off: nat): nat
    requires off + 4 <= |s|
  {
    s[off] as nat + 256 * (s[off + 1] as nat + 256 * (s[off + 2] as nat + 256 * (s[off + 3] as nat)))
  }

  /** A 64-bit little-endian field: two 32-bit halves, low half first. */
  function Le64At(s: seq<byte>, off: nat): nat
    requires off + 8 <= |s|
  {
    Le32At(s, off) + 0x1_0000_0000 * Le32At(s, off + 4)
  }

  /** The four bytes of `v mod 2^32`, least significant first. */
  function Le32Bytes(v: nat): (r: seq<byte>)
    ensures |r| == 4
  {
    var v1 := v / 256;
    var v2 := v1 / 256;
    var v3 := v2 / 256;
    [v % 256, v1 % 256, v2 % 256, v3 % 256]
  }

  /** The eight bytes of `v mod 2^64`, least significant first. */
  function Le64Bytes(v: nat): (r: seq<byte>)
    ensures |r| == 8
  {
    Le32Bytes(v % 0x1_0000_0000) + Le32Bytes(v / 0x1_0000_0000)
  }

  /** `x` reduced modulo 2^32: the value a `uint32_t` holds after an
      addition that may wrap. */
  function Wrap32(x: nat): (r: nat)
    ensures r < 0x1_0000_0000 && r <= x
    ensures x < 0x1_0000_0000 ==> r == x
    ensures r == x % 0x1_0000_0000
    decreases x
  {
    if x < 0x1_0000_0000 then x else Wrap32(x - 0x1_0000_0000)
  }

  /** `a - b` on `uint32_t` operands (`a, b < 2^32`): wraps below zero. */
  function Sub32(a: nat, b: nat): (r: nat)
    requires a < 0x1_0000_0000 && b < 0x1_0000_0000
    ensures r < 0x1_0000_0000
    ensures a >= b ==> r == a - b
    ensures a < b ==> r == a + 0x1_0000_0000 - b
  {
    if a >= b then a - b else a + 0x1_0000_0000 - b
  }

  lemma DivMod256(x: nat, b: int, y: nat)
    requires x == b + 256 * y && 0 <= b < 256
    ensures x % 256 == b && x / 256 == y
  {
  }

  lemma DivMod32(x: nat, b: int, y: nat)
    requires x == b + 0x1_0000_0000 * y && 0 <= b < 0x1_0000_0000
    ensures x % 0x1_0000_0000 == b && x / 0x1_0000_0000 == y
  {
  }

  lemma Le16Bound(s: seq<byte>, off: nat)
    requires off + 2 <= |s|
    ensures Le16At(s, off) < TWO_16
    ensures Le16At(s, off) % 256 == s[off] && Le16At(s, off) / 256 == s[off + 1]
  {
    DivMod256(Le16At(s, off), s[off], s[off + 1]);
  }

  lemma Le32Bound(s: seq<byte>, off: nat)
    requires off + 4 <= |s|
    ensures Le32At(s, off) < TWO_32
  {
  }

  /** A non-zero 32-bit field has a non-zero byte. */
  lemma Le32NonZero(s: seq<byte>, off: nat) returns (k: nat)
    requires off + 4 <= |s| && Le32At(s, off) != 0
    ensures off <= k < off + 4 && s[k] != 0
  {
    if s[off] != 0 { k := off; }
    else if s[off + 1] != 0 { k := off + 1; }
    else if s[off + 2] != 0 { k := off + 2; }
    else { k := off + 3; }
  }

  lemma Le64Bound(s: seq<byte>, off: nat)
    requires off + 8 <= |s|
    ensures Le64At(s, off) < TWO_64
  {
    Le32Bound(s, off);
    Le32Bound(s, off + 4);
  }

  /** Decoding the encoding of a 32-bit value gives it back. */
  lemma Le32RoundTrip(v: nat)
    requires v < TWO_32
    ensures Le32At(Le32Bytes(v), 0) == v
  {
    var v1 := v / 256;
    var v2 := v1 / 256;
    var v3 := v2 / 256;
    DivMod256(v, v % 256, v1);
    DivMod256(v1, v1 % 256, v2);
    DivMod256(v2, v2 % 256, v3);
  }

  /** Encoding a decoded 32-bit field gives back the bytes it was read from. */
  lemma Le32BytesRoundTrip(s: seq<byte>, off: nat)
    requires off + 4 <= |s|
    ensures Le32Bytes(Le32At(s, off)) == s[off..off + 4]
  {
    var y3: nat := s[off + 3];
    var y2: nat := s[off + 2] + 256 * y3;
    var y1: nat := s[off + 1] + 256 * y2;
    var x: nat := s[off] + 256 * y1;
    DivMod256(x, s[off], y1);
    DivMod256(y1, s[off + 1], y2);
    DivMod256(y2, s[off + 2], y3);
    DivMod256(y3, y3, 0);
  }

  lemma Le32AtSlice(s: seq<byte>, off: nat, t: seq<byte>)
    requires off + 4 <= |s| && s[off..off + 4] == t
    ensures Le32At(s, off) == Le32At(t, 0)
  {
    assert s[off] == t[0] && s[off + 1] == t[1] && s[off + 2] == t[2] && s[off + 3] == t[3];
  }

  lemma Le64AtSlice(s: seq<byte>, off: nat, t: seq<byte>)
    requires off + 8 <= |s| && s[off..off + 8] == t
    ensures Le64At(s, off) == Le64At(t, 0)
  {
    Le32AtSlice(s, off, t[..4]);
    Le32AtSlice(s, off + 4, t[4..]);
    Le32AtSlice(t, 4, t[4..]);
  }

  lemma Le64RoundTrip(v: nat)
    requires v < TWO_64
    ensures Le64At(Le64Bytes(v), 0) == v
  {
    var r := Le64Bytes(v);
    Le32RoundTrip(v % 0x1_0000_0000);
    Le32RoundTrip(v / 0x1_0000_0000);
    Le32AtSlice(r, 4, Le32Bytes(v / 0x1_0000_0000));
  }

  lemma Le64BytesRoundTrip(s: seq<byte>, off: nat)
    requires off + 8 <= |s|
    ensures Le64Bytes(Le64At(s, off)) == s[off..off + 8]
  {
    var lo, hi := Le32At(s, off), Le32At(s, off + 4);
    Le32Bound(s, off);
    DivMod32(lo + 0x1_0000_0000 * hi, lo, hi);
    Le32BytesRoundTrip(s, off);
    Le32BytesRoundTrip(s, off + 4);
  }

  /** A 32-bit field depends only on its four bytes. */
  lemma Le32AtSame(s: seq<byte>, off: nat, t: seq<byte>, off2: nat)
    requires off + 4 <= |s| && off2 + 4 <= |t|
    requires s[off..off + 4] == t[off2..off2 + 4]
    ensures Le32At(s, off) == Le32At(t, off2)
  {
    assert s[off] == s[off..off + 4][0] == t[off2];
    assert s[off + 1] == s[off..off + 4][1] == t[off2 + 1];
    assert s[off + 2] == s[off..off + 4][2] == t[off2 + 2];
    assert s[off + 3] == s[off..off + 4][3] == t[off2 + 3];
  }

  lemma Le64AtSame(s: seq<byte>, off: nat, t: seq<byte>, off2: nat)
    requires off + 8 <= |s| && off2 + 8 <= |t|
    requires s[off..off + 8] == t[off2..off2 + 8]
    ensures Le64At(s, off) == Le64At(t, off2)
  {
    assert s[off..off + 4] == s[off..off + 8][..4] == t[off2..off2 + 4];
    assert s[off + 4..off + 8] == s[off..off + 8][4..] == t[off2 + 4..off2 + 8];
    Le32AtSame(s, off, t, off2);
    Le32AtSame(s, off + 4, t, off2 + 4);
  }

  /** Two 32-bit fields with the same value have the same bytes. */
  lemma Le32AtBytes(s: seq<byte>, off: nat, t: seq<byte>, off2: nat)
    requires off + 4 <= |s| && off2 + 4 <= |t|
    requires Le32At(s, off) == Le32At(t, off2)
    ensures s[off..off + 4] == t[off2..off2 + 4]
  {
    Le32BytesRoundTrip(s, off);
    Le32BytesRoundTrip(t, off2);
  }

  lemma Le64AtBytes(s: seq<byte>, off: nat, t: seq<byte>, off2: nat)
    requires off + 8 <= |s| && off2 + 8 <= |t|
    requires Le64At(s, off) == Le64At(t, off2)
    ensures s[off..off + 8] == t[off2..off2 + 8]
  {
    Le64BytesRoundTrip(s, off);
    Le64BytesRoundTrip(t, off2);
  }
}
