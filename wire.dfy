/**
 * Octets and the fixed-width numeric fields of the wire format.
 * Every numeric field is big-endian (the default byte order of a Java ByteBuffer):
 * length and count fields are 4-byte Java `int`s, keys are 8-byte Java `long`s.
 */
module Wire {

  /** One octet on the wire. */
  newtype byte = x: int | 0 <= x < 256

  /** Java's `long`: a two's-complement 64-bit integer. */
  newtype int64 = x: int | -0x8000_0000_0000_0000 <= x < 0x8000_0000_0000_0000

  /** The largest Java `int`; it bounds array and string lengths and every length field. */
  const MAX_INT: nat := 0x7FFF_FFFF

  const TWO_TO_32: nat := 0x1_0000_0000
  const TWO_TO_64: nat := 0x1_0000_0000_0000_0000

  function Pow256(n: nat): (r: nat)
    ensures r > 0
  {
    if n == 0 then 1 else 256 * Pow256(n - 1)
  }

  lemma Pow256Widths()
    ensures Pow256(4) == TWO_TO_32
    ensures Pow256(8) == TWO_TO_64
  {
    assert Pow256(2) == 0x1_0000;
    assert Pow256(4) == 0x1_0000_0000 by {
      assert Pow256(3) == 0x100_0000;
    }
    assert Pow256(6) == 0x1_0000_0000_0000 by {
      assert Pow256(5) == 0x100_0000_0000;
    }
    assert Pow256(7) == 0x100_0000_0000_0000;
  }

  /** The `width` octets of `v`, most significant first. */
  function ToBigEndian(v: nat, width: nat): (r: seq<byte>)
    requires v < Pow256(width)
    ensures |r| == width
  {
    if width == 0 then [] else ToBigEndian(v / 256, width - 1) + [(v % 256) as byte]
  }

  /** The unsigned value of a big-endian octet string. */
  function FromBigEndian(s: seq<byte>): (v: nat)
    ensures v < Pow256(|s|)
  {
    if s == [] then 0
    else
      var high := FromBigEndian(s[..|s| - 1]);
      assert high * 256 <= (Pow256(|s| - 1) - 1) * 256;
      high * 256 + s[|s| - 1] as nat
  }

  lemma {:induction false} FromToBigEndian(v: nat, width: nat)
    requires v < Pow256(width)
    ensures FromBigEndian(ToBigEndian(v, width)) == v
  {
    if width > 0 {
      var s := ToBigEndian(v, width);
      assert s[..width - 1] == ToBigEndian(v / 256, width - 1);
      FromToBigEndian(v / 256, width - 1);
    }
  }

  lemma {:induction false} ToFromBigEndian(s: seq<byte>)
    ensures ToBigEndian(FromBigEndian(s), |s|) == s
  {
    if s != [] {
      var high := s[..|s| - 1];
      var v := FromBigEndian(s);
      assert v == FromBigEndian(high) * 256 + s[|s| - 1] as nat;
      assert v / 256 == FromBigEndian(high) && v % 256 == s[|s| - 1] as nat;
      ToFromBigEndian(high);
      assert s == high + [s[|s| - 1]];
    }
  }

  /** A `long` as 8 octets, two's complement, most significant first (ByteBuffer.putLong). */
  function EncodeInt64(n: int64): (r: seq<byte>)
    ensures |r| == 8
  {
    Pow256Widths();
    ToBigEndian(if n >= 0 then n as nat else (n as int + TWO_TO_64) as nat, 8)
  }

  /** The `long` that 8 octets hold (ByteBuffer.getLong). */
  function DecodeInt64(s: seq<byte>): int64
    requires |s| == 8
  {
    Pow256Widths();
    var u := FromBigEndian(s);
    if u <= 0x7FFF_FFFF_FFFF_FFFF then u as int64 else (u - TWO_TO_64) as int64
  }

  lemma Int64RoundTrip(n: int64)
    ensures DecodeInt64(EncodeInt64(n)) == n
  {
    Pow256Widths();
    FromToBigEndian(if n >= 0 then n as nat else (n as int + TWO_TO_64) as nat, 8);
  }

  lemma Int64OctetsRoundTrip(s: seq<byte>)
    requires |s| == 8
    ensures EncodeInt64(DecodeInt64(s)) == s
  {
    Pow256Widths();
    ToFromBigEndian(s);
  }

  /** A non-negative Java `int` length or count field as 4 octets (ByteBuffer.putInt). */
  function EncodeLength(n: nat): (r: seq<byte>)
    requires n <= MAX_INT
    ensures |r| == 4
  {
    Pow256Widths();
    ToBigEndian(n, 4)
  }
}
