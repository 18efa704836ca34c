/**
 * UTF-8, the text encoding of the cache identifier on the wire (RFC 3629).
 * The decoder is strict: it refuses overlong forms, surrogates, values past
 * U+10FFFF and stray continuation octets, so every octet string it accepts is
 * exactly the encoding of the text it returns.
 */
module Utf8 {
  import opened Wire
  import opened Wrappers

  predicate IsContinuation(b: byte) {
    0x80 <= b < 0xC0
  }

  /** The one to four octets of one Unicode scalar value. */
  function EncodeScalar(c: char): (r: seq<byte>)
    ensures 1 <= |r| <= 4
  {
    var v := c as int;
    if v < 0x80 then [v as byte]
    else if v < 0x800 then [(0xC0 + v / 0x40) as byte, (0x80 + v % 0x40) as byte]
    else if v < 0x1_0000 then
      [(0xE0 + v / 0x1000) as byte, (0x80 + v / 0x40 % 0x40) as byte, (0x80 + v % 0x40) as byte]
    else
      [(0xF0 + v / 0x4_0000) as byte, (0x80 + v / 0x1000 % 0x40) as byte,
       (0x80 + v / 0x40 % 0x40) as byte, (0x80 + v % 0x40) as byte]
  }

  /** Division by one of the powers of 64 that UTF-8 uses, given quotient and remainder. */
  lemma DivMod(v: int, m: int, q: int, r: int)
    requires m == 0x40 || m == 0x1000 || m == 0x4_0000
    requires 0 <= r < m && v == q * m + r
    ensures v / m == q && v % m == r
  {
    if m == 0x40 {
    } else if m == 0x1000 {
    } else {
    }
  }

  /** The scalar value of a two-octet sequence. */
  function Decode2(b0: byte, b1: byte): (c: char)
    requires 0xC2 <= b0 < 0xE0 && IsContinuation(b1)
    ensures EncodeScalar(c) == [b0, b1]
  {
    var v := (b0 as int - 0xC0) * 0x40 + (b1 as int - 0x80);
    DivMod(v, 0x40, b0 as int - 0xC0, b1 as int - 0x80);
    v as char
  }

  /** The value of a three-octet sequence, before the range checks. */
  function Value3(b0: byte, b1: byte, b2: byte): int {
    (b0 as int - 0xE0) * 0x1000 + (b1 as int - 0x80) * 0x40 + (b2 as int - 0x80)
  }

  /** The scalar value of a well-formed three-octet sequence. */
  function Decode3(b0: byte, b1: byte, b2: byte): (c: char)
    requires 0xE0 <= b0 < 0xF0 && IsContinuation(b1) && IsContinuation(b2)
    requires var v := Value3(b0, b1, b2); 0x800 <= v && !(0xD800 <= v < 0xE000)
    ensures EncodeScalar(c) == [b0, b1, b2]
  {
    var a, b, d := b0 as int - 0xE0, b1 as int - 0x80, b2 as int - 0x80;
    var v := Value3(b0, b1, b2);
    DivMod(v, 0x1000, a, b * 0x40 + d);
    DivMod(v, 0x40, a * 0x40 + b, d);
    DivMod(a * 0x40 + b, 0x40, a, b);
    v as char
  }

  /** The value of a four-octet sequence, before the range checks. */
  function Value4(b0: byte, b1: byte, b2: byte, b3: byte): int {
    (b0 as int - 0xF0) * 0x4_0000 + (b1 as int - 0x80) * 0x1000
      + (b2 as int - 0x80) * 0x40 + (b3 as int - 0x80)
  }

  /** The scalar value of a well-formed four-octet sequence. */
  function Decode4(b0: byte, b1: byte, b2: byte, b3: byte): (c: char)
    requires 0xF0 <= b0 < 0xF5 && IsContinuation(b1) && IsContinuation(b2) && IsContinuation(b3)
    requires 0x1_0000 <= Value4(b0, b1, b2, b3) <= 0x10_FFFF
    ensures EncodeScalar(c) == [b0, b1, b2, b3]
  {
    var a, b, e, d := b0 as int - 0xF0, b1 as int - 0x80, b2 as int - 0x80, b3 as int - 0x80;
    var v := Value4(b0, b1, b2, b3);
    DivMod(v, 0x4_0000, a, b * 0x1000 + e * 0x40 + d);
    DivMod(v, 0x1000, a * 0x40 + b, e * 0x40 + d);
    DivMod(a * 0x40 + b, 0x40, a, b);
    DivMod(v, 0x40, a * 0x1000 + b * 0x40 + e, d);
    DivMod(a * 0x1000 + b * 0x40 + e, 0x40, a * 0x40 + b, e);
    v as char
  }

  /**
   * The scalar value that `s` starts with and the number of octets it takes,
   * or None when `s` does not start with a well-formed UTF-8 sequence.
   */
  function DecodeScalar(s: seq<byte>): (r: Option<(char, nat)>)
    requires |s| > 0
    ensures r.Some? ==> 1 <= r.value.1 <= |s| && s[..r.value.1] == EncodeScalar(r.value.0)
  {
    var b0 := s[0];
    if b0 < 0x80 then Some((b0 as int as char, 1))
    else if b0 < 0xC2 then None
    else if b0 < 0xE0 then
      if |s| < 2 || !IsContinuation(s[1]) then None
      else Some((Decode2(b0, s[1]), 2))
    else if b0 < 0xF0 then
      if |s| < 3 || !IsContinuation(s[1]) || !IsContinuation(s[2]) then None
      else
        var v := Value3(b0, s[1], s[2]);
        if v < 0x800 || 0xD800 <= v < 0xE000 then None else Some((Decode3(b0, s[1], s[2]), 3))
    else if b0 < 0xF5 then
      if |s| < 4 || !IsContinuation(s[1]) || !IsContinuation(s[2]) || !IsContinuation(s[3]) then None
      else
        var v := Value4(b0, s[1], s[2], s[3]);
        if v < 0x1_0000 || v > 0x10_FFFF then None else Some((Decode4(b0, s[1], s[2], s[3]), 4))
    else None
  }

  lemma EncodeScalar2(c: char)
    requires 0x80 <= c as int < 0x800
    ensures var s := EncodeScalar(c); 0xC2 <= s[0] < 0xE0 && IsContinuation(s[1]) && Decode2(s[0], s[1]) == c
  {
    var v := c as int;
    DivMod(v, 0x40, v / 0x40, v % 0x40);
  }

  lemma EncodeScalar3(c: char)
    requires 0x800 <= c as int < 0x1_0000
    ensures var s := EncodeScalar(c);
      && 0xE0 <= s[0] < 0xF0 && IsContinuation(s[1]) && IsContinuation(s[2])
      && Value3(s[0], s[1], s[2]) == c as int
  {
    var v := c as int;
    var a, rem := v / 0x1000, v % 0x1000;
    var b, d := rem / 0x40, rem % 0x40;
    DivMod(v, 0x40, a * 0x40 + b, d);
    DivMod(a * 0x40 + b, 0x40, a, b);
  }

  lemma EncodeScalar4(c: char)
    requires 0x1_0000 <= c as int
    ensures var s := EncodeScalar(c);
      && 0xF0 <= s[0] < 0xF5 && IsContinuation(s[1]) && IsContinuation(s[2]) && IsContinuation(s[3])
      && Value4(s[0], s[1], s[2], s[3]) == c as int
  {
    var v := c as int;
    var a, rem := v / 0x4_0000, v % 0x4_0000;
    var b, rem' := rem / 0x1000, rem % 0x1000;
    var e, d := rem' / 0x40, rem' % 0x40;
    DivMod(v, 0x1000, a * 0x40 + b, e * 0x40 + d);
    DivMod(a * 0x40 + b, 0x40, a, b);
    DivMod(v, 0x40, a * 0x1000 + b * 0x40 + e, d);
    DivMod(a * 0x1000 + b * 0x40 + e, 0x40, a * 0x40 + b, e);
  }

  lemma DecodeEncodeScalar(c: char, rest: seq<byte>)
    ensures DecodeScalar(EncodeScalar(c) + rest) == Some((c, |EncodeScalar(c)|))
  {
    var v := c as int;
    if v < 0x80 {
    } else if v < 0x800 {
      EncodeScalar2(c);
    } else if v < 0x1_0000 {
      EncodeScalar3(c);
    } else {
      EncodeScalar4(c);
    }
  }

  /** The UTF-8 octets of a text. */
  function Encode(s: string): (r: seq<byte>)
    ensures |s| <= |r| <= 4 * |s|
  {
    if s == [] then [] else EncodeScalar(s[0]) + Encode(s[1..])
  }

  /** The text whose UTF-8 octets `b` are, or None when `b` is not well-formed UTF-8. */
  function Decode(b: seq<byte>): Option<string>
    decreases |b|
  {
    if b == [] then Some([])
    else
      var first := DecodeScalar(b);
      if first.None? then None
      else
        var tail := Decode(b[first.value.1..]);
        if tail.None? then None else Some([first.value.0] + tail.value)
  }

  lemma EncodeCons(c: char, s: string)
    ensures Encode([c] + s) == EncodeScalar(c) + Encode(s)
  {
    assert ([c] + s)[1..] == s;
  }

  /** Decoding is exact: whatever the decoder accepts is the encoding of what it returns. */
  lemma {:induction false} EncodeDecode(b: seq<byte>)
    requires Decode(b).Some?
    ensures Encode(Decode(b).value) == b
    decreases |b|
  {
    if b != [] {
      var c, n := DecodeScalar(b).value.0, DecodeScalar(b).value.1;
      var tail := Decode(b[n..]).value;
      assert Decode(b) == Some([c] + tail);
      EncodeDecode(b[n..]);
      EncodeCons(c, tail);
      assert b == b[..n] + b[n..];
    }
  }

  lemma {:induction false} DecodeEncode(s: string)
    ensures Decode(Encode(s)) == Some(s)
  {
    if s != [] {
      var head := EncodeScalar(s[0]);
      DecodeEncodeScalar(s[0], Encode(s[1..]));
      assert (head + Encode(s[1..]))[|head|..] == Encode(s[1..]);
      DecodeEncode(s[1..]);
      assert [s[0]] + s[1..] == s;
    }
  }
}
