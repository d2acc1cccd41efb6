/** Bytes and the fixed-width integers the archive format is built from.

    .NET's `BinaryWriter` and `BinaryReader` store an `int` as 4 and a
    `long` as 8 little-endian bytes in two's complement; `BitConverter`
    uses the host's byte order, taken here to be little-endian as well.
    This module gives that encoding and its inverse. */
module Bytes {

  type byte = b: int | 0 <= b < 256

  const INT32_MIN: int := -0x8000_0000
  const INT32_MAX: int := 0x7FFF_FFFF
  const INT64_MAX: int := 0x7FFF_FFFF_FFFF_FFFF

  /** C#'s `int`. */
  type int32 = x: int | -0x8000_0000 <= x < 0x8000_0000

  /** C#'s `long`. */
  type int64 = x: int | -0x8000_0000_0000_0000 <= x < 0x8000_0000_0000_0000

  /** `Array.MaxLength`: no .NET `byte[]` is longer than this. */
  const ARRAY_MAX_LENGTH: int := 0x7FFF_FFC7

  /** Unchecked conversion of an integer to `int`: its low 32 bits, read
      in two's complement. */
  function Wrap32(x: int): (r: int32)
    ensures INT32_MIN <= x <= INT32_MAX ==> r == x
    ensures (x - r) % 0x1_0000_0000 == 0
  {
    var q, m := (x - INT32_MIN) / 0x1_0000_0000, (x - INT32_MIN) % 0x1_0000_0000;
    assert x - INT32_MIN == q * 0x1_0000_0000 + m;
    assert x - (m + INT32_MIN) == q * 0x1_0000_0000;
    m + INT32_MIN
  }

  /** Unchecked `i++` on an `int`: the largest value wraps to the smallest. */
  function Next(i: int32): (r: int32)
    ensures i < INT32_MAX ==> r == i + 1
    ensures i == INT32_MAX ==> r == INT32_MIN
  {
    if i == INT32_MAX then INT32_MIN else i + 1
  }

  /** `Next` is the 32-bit wrap of adding one. */
  lemma NextIsWrap32(i: int32)
    ensures Next(i) == Wrap32(i + 1)
  {
    if i == INT32_MAX {
      Wrap32Unique(i + 1, INT32_MIN, 1);
    }
  }

  /** Adding to a wrapped value and wrapping again is wrapping the sum:
      `k` unchecked increments from `Wrap32(x)` end on `Wrap32(x + k)`. */
  lemma Wrap32Add(x: int, y: int)
    ensures Wrap32(Wrap32(x) + y) == Wrap32(x + y)
  {
    var w := Wrap32(x);
    var v := Wrap32(w + y);
    var p, q := (x - w) / 0x1_0000_0000, (w + y - v) / 0x1_0000_0000;
    assert x - w == p * 0x1_0000_0000;
    assert w + y - v == q * 0x1_0000_0000;
    Wrap32Unique(x + y, v, p + q);
  }

  /** `Wrap32(x)` is the one `int` that differs from `x` by a multiple of 2^32. */
  lemma Wrap32Unique(x: int, r: int32, q: int)
    requires x - r == q * 0x1_0000_0000
    ensures Wrap32(x) == r
  {
    var w := Wrap32(x);
    var p := (x - w) / 0x1_0000_0000;
    assert x - w == p * 0x1_0000_0000;
    assert r - w == (p - q) * 0x1_0000_0000;
  }

  function Pow256(n: nat): (p: nat)
    ensures p > 0
  {
    if n == 0 then 1 else 256 * Pow256(n - 1)
  }

  lemma Pow256Values()
    ensures Pow256(4) == 0x1_0000_0000
    ensures Pow256(8) == 0x1_0000_0000_0000_0000
  {
    assert Pow256(1) == 256;
    assert Pow256(2) == 0x1_0000;
    assert Pow256(3) == 0x100_0000;
    assert Pow256(4) == 0x1_0000_0000;
    assert Pow256(5) == 0x100_0000_0000;
    assert Pow256(6) == 0x1_0000_0000_0000;
    assert Pow256(7) == 0x100_0000_0000_0000;
  }

  /** The `n` low-order bytes of `u`, least significant first. */
  function UIntToLE(u: nat, n: nat): (s: seq<byte>)
    ensures |s| == n
  {
    if n == 0 then [] else [u % 256] + UIntToLE(u / 256, n - 1)
  }

  /** The unsigned value of a little-endian byte string. */
  function LEToUInt(s: seq<byte>): (u: nat)
    ensures u < Pow256(|s|)
  {
    if s == [] then 0 else s[0] + 256 * LEToUInt(s[1..])
  }

  lemma {:induction false} LEToUIntOfUIntToLE(u: nat, n: nat)
    requires u < Pow256(n)
    ensures LEToUInt(UIntToLE(u, n)) == u
  {
    if n > 0 {
      LEToUIntOfUIntToLE(u / 256, n - 1);
      assert UIntToLE(u, n)[1..] == UIntToLE(u / 256, n - 1);
    }
  }

  lemma {:induction false} UIntToLEOfLEToUInt(s: seq<byte>)
    ensures UIntToLE(LEToUInt(s), |s|) == s
  {
    if s != [] {
      UIntToLEOfLEToUInt(s[1..]);
      var u := LEToUInt(s);
      assert u % 256 == s[0] && u / 256 == LEToUInt(s[1..]);
    }
  }

  function EncodeInt32(v: int32): (s: seq<byte>)
    ensures |s| == 4
  {
    UIntToLE(v % 0x1_0000_0000, 4)
  }

  /** The 4-byte case of `LEToUInt`, written out term by term. */
  function DecodeInt32(s: seq<byte>): int32
    requires |s| == 4
  {
    var u := s[0] as int + 0x100 * s[1] as int + 0x1_0000 * s[2] as int + 0x100_0000 * s[3] as int;
    if u < 0x8000_0000 then u else u - 0x1_0000_0000
  }

  lemma LEToUIntFour(s: seq<byte>)
    requires |s| == 4
    ensures LEToUInt(s) == s[0] as int + 0x100 * s[1] as int + 0x1_0000 * s[2] as int + 0x100_0000 * s[3] as int
  {
    var t1 := s[1..];
    var t2 := t1[1..];
    var t3 := t2[1..];
    assert t3[1..] == [];
    assert LEToUInt(t3) == t3[0];
    assert LEToUInt(t2) == t2[0] as int + 256 * t3[0] as int;
    assert LEToUInt(t1) == t1[0] as int + 256 * t2[0] as int + 0x1_0000 * t3[0] as int;
  }

  function EncodeInt64(v: int64): (s: seq<byte>)
    ensures |s| == 8
  {
    UIntToLE(v % 0x1_0000_0000_0000_0000, 8)
  }

  function DecodeInt64(s: seq<byte>): int64
    requires |s| == 8
  {
    Pow256Values();
    var u := LEToUInt(s);
    if u < 0x8000_0000_0000_0000 then u else u - 0x1_0000_0000_0000_0000
  }

  /** Reading back a written `int` gives the same value. */
  lemma DecodeEncodeInt32(v: int32)
    ensures DecodeInt32(EncodeInt32(v)) == v
  {
    Pow256Values();
    LEToUIntOfUIntToLE(v % 0x1_0000_0000, 4);
    LEToUIntFour(EncodeInt32(v));
  }

  /** Every 4 bytes are the encoding of the `int` they decode to. */
  lemma EncodeDecodeInt32(s: seq<byte>)
    requires |s| == 4
    ensures EncodeInt32(DecodeInt32(s)) == s
  {
    Pow256Values();
    LEToUIntFour(s);
    var u: int := LEToUInt(s);
    var d: int := DecodeInt32(s);
    assert d % 0x1_0000_0000 == u by {
      if u < 0x8000_0000 {
        assert d == u;
      } else {
        assert d == u - 0x1_0000_0000;
      }
    }
    UIntToLEOfLEToUInt(s);
  }

  /** Reading back a written `long` gives the same value. */
  lemma DecodeEncodeInt64(v: int64)
    ensures DecodeInt64(EncodeInt64(v)) == v
  {
    Pow256Values();
    LEToUIntOfUIntToLE(v % 0x1_0000_0000_0000_0000, 8);
  }

  /** A run of `n` zero bytes: what a freshly allocated `byte[n]` holds. */
  function Zeros(n: nat): (z: seq<byte>)
    ensures |z| == n && forall i :: 0 <= i < n ==> z[i] == 0
  {
    seq(n, _ => 0)
  }

  /** All-zero bytes decode to the `int` 0. */
  lemma DecodeZerosInt32()
    ensures DecodeInt32(Zeros(4)) == 0
  {
  }
}
