// Bytes as the firmware's C code sees them: 8-bit values, and 32-bit integers laid over
// four of them in the little-endian order of the ESP32.
module Bytes {
  type byte = x: int | 0 <= x < 256

  const INT_MAX: int := 0x7FFF_FFFF

  /** The four bytes that `*(int *)p = v` leaves behind, for a non-negative v. */
  function StoreInt(v: int): (s: seq<byte>)
    requires 0 <= v <= INT_MAX
    ensures |s| == 4
  {
    [v % 256, v / 256 % 256, v / 256 / 256 % 256, v / 256 / 256 / 256]
  }

  /** The value of `*(int *)(b + p)`, two's complement. */
  function LoadInt(b: seq<byte>, p: int): int
    requires 0 <= p && p + 4 <= |b|
  {
    var u := Little(b, p, 4);
    if u <= INT_MAX then u else u - 0x1_0000_0000
  }

  /** The n bytes at p as an unsigned little-endian number. */
  function Little(b: seq<byte>, p: int, n: nat): int
    requires 0 <= p && p + n <= |b|
    decreases n
  {
    if n == 0 then 0 else (b[p] as int) + 256 * Little(b, p + 1, n - 1)
  }

  lemma LoadStore(v: int)
    requires 0 <= v <= INT_MAX
    ensures LoadInt(StoreInt(v), 0) == v
  {
    var v1 := v / 256;
    var v2 := v1 / 256;
    assert v == v % 256 + 256 * v1 && v1 == v1 % 256 + 256 * v2 && v2 == v2 % 256 + 256 * (v2 / 256);
  }

  /** b with s stored from offset `at` on: a memcpy into a buffer. */
  function Splice(b: seq<byte>, at: int, s: seq<byte>): (r: seq<byte>)
    ensures |r| == |b|
  {
    seq(|b|, i requires 0 <= i < |b| => if at <= i < at + |s| then s[i - at] else b[i])
  }

  /** The two buffers agree from p up to e. */
  predicate Same(b: seq<byte>, c: seq<byte>, p: int, e: int)
    requires 0 <= p && e <= |b| && e <= |c|
  {
    forall k | p <= k < e :: b[k] == c[k]
  }

  /** A text as the bytes of its characters. */
  function Ascii(s: string): (b: seq<byte>)
    ensures |b| == |s|
  {
    seq(|s|, i requires 0 <= i < |s| => if s[i] as int < 256 then s[i] as int else 63)
  }

  /** pat stands in s at offset p. */
  predicate Occurs<T(==)>(s: seq<T>, pat: seq<T>, p: int) {
    0 <= p && p + |pat| <= |s| && s[p..p + |pat|] == pat
  }

  /** All blocks, one after the other. */
  function Flatten(parts: seq<seq<byte>>): (s: seq<byte>) {
    if parts == [] then [] else parts[0] + Flatten(parts[1..])
  }

  lemma {:induction false} FlattenAppend(a: seq<seq<byte>>, b: seq<seq<byte>>)
    ensures Flatten(a + b) == Flatten(a) + Flatten(b)
  {
    if a == [] {
      assert a + b == b;
    } else {
      assert (a + b)[1..] == a[1..] + b;
      FlattenAppend(a[1..], b);
    }
  }
}
