/** Bytes, 32-bit words and their little-endian wire form. */
module Bytes {

  type byte = x: int | 0 <= x < 0x100

  /** The C type u32. */
  type u32 = x: int | 0 <= x < 0x1_0000_0000

  /** The successor of a u32 counter, wrapping at 2^32 as `x++` does in C. */
  function Next(x: u32): (y: u32)
    ensures y != x
    // it wraps to zero from the largest value only, and otherwise counts up by one
    ensures y == 0 <==> x == 0xFFFF_FFFF
    ensures y != 0 ==> y == x + 1
  {
    if x == 0xFFFF_FFFF then 0 else x + 1
  }

  /** The four bytes a u32 occupies in memory after `cpu_to_le32`. */
  function LE32(x: u32): (b: seq<byte>)
    ensures |b| == 4
    ensures DecodeLE32(b) == x
  {
    var b0 := x % 0x100;
    var r0 := x / 0x100;
    var b1 := r0 % 0x100;
    var r1 := r0 / 0x100;
    var b2 := r1 % 0x100;
    var b3 := r1 / 0x100;
    assert r0 == b1 + 0x100 * r1;
    assert r1 == b2 + 0x100 * b3;
    [b0, b1, b2, b3]
  }

  /** The u32 that four little-endian bytes hold. */
  function DecodeLE32(b: seq<byte>): u32
    requires |b| == 4
  {
    b[0] as int + 0x100 * (b[1] as int) + 0x1_0000 * (b[2] as int) + 0x100_0000 * (b[3] as int)
  }

  /** Decoding loses nothing: the bytes are the encoding of what they decode to. */
  lemma EncodeDecode(b: seq<byte>)
    requires |b| == 4
    ensures LE32(DecodeLE32(b)) == b
  {
    var x := DecodeLE32(b);
    var r0: int := b[1] as int + 0x100 * (b[2] as int) + 0x1_0000 * (b[3] as int);
    var r1: int := b[2] as int + 0x100 * (b[3] as int);
    assert x == b[0] as int + 0x100 * r0;
    assert x % 0x100 == b[0] && x / 0x100 == r0;
    assert r0 == b[1] + 0x100 * r1;
    assert r0 % 0x100 == b[1] && r0 / 0x100 == r1;
    assert r1 % 0x100 == b[2] && r1 / 0x100 == b[3];
  }

  /** Comparing memory images with an encoded constant is comparing decoded words. */
  lemma MatchesEncoding(b: seq<byte>, x: u32)
    requires |b| == 4
    ensures b == LE32(x) <==> DecodeLE32(b) == x
  {
    EncodeDecode(b);
  }

  /** The 32-bit word stored at word index `i` of a byte string. */
  function WordAt(b: seq<byte>, i: nat): u32
    requires 4 * i + 4 <= |b|
  {
    DecodeLE32(b[4 * i .. 4 * i + 4])
  }

  /** A sequence of u32 laid out back to back, each little-endian. */
  function Words(ws: seq<u32>): (b: seq<byte>)
    ensures |b| == 4 * |ws|
    ensures forall i :: 0 <= i < |ws| ==> WordAt(b, i) == ws[i]
  {
    if ws == [] then []
    else
      var rest := Words(ws[1..]);
      var b := LE32(ws[0]) + rest;
      assert b[0..4] == LE32(ws[0]);
      forall i | 1 <= i < |ws|
        ensures WordAt(b, i) == ws[i]
      {
        assert b[4 * i .. 4 * i + 4] == rest[4 * (i - 1) .. 4 * (i - 1) + 4];
        assert WordAt(rest, i - 1) == ws[1..][i - 1];
      }
      b
  }

  /** Taking a prefix of a byte string keeps the words that lie wholly inside it. */
  lemma WordAtPrefix(b: seq<byte>, n: nat, i: nat)
    requires n <= |b| && 4 * i + 4 <= n
    ensures WordAt(b[..n], i) == WordAt(b, i)
  {
    assert b[..n][4 * i .. 4 * i + 4] == b[4 * i .. 4 * i + 4];
  }
}
