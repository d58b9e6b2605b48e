/** UTF-8 as Rust's `str::from_utf8` accepts it: the well-formed byte
    sequences of the Unicode standard (Table 3-7 of chapter 3), with no
    overlong forms, no surrogates and nothing above U+10FFFF. */
module Utf8 {
  import opened Machine

  /** A Rust `char`: a Unicode scalar value. */
  type Scalar = c: int | 0 <= c < 0x11_0000 && !(0xD800 <= c < 0xE000)

  /** A continuation byte, `10xxxxxx`. */
  predicate IsCont(b: byte)
  {
    0x80 <= b < 0xC0
  }

  /** For the divisors used by the encoding (2^6, 2^12, 2^18),
      `c == d * q + r` with `0 <= r < d` pins down quotient and remainder. */
  lemma DivMod(c: int, d: int, q: int, r: int)
    requires d == 64 || d == 4096 || d == 262144
    requires c == d * q + r && 0 <= r < d
    ensures c / d == q && c % d == r
  {
    if d == 64 {
      assert c == 64 * q + r;
    } else if d == 4096 {
      assert c == 4096 * q + r;
    } else {
      assert c == 262144 * q + r;
    }
  }

  /** The UTF-8 encoding of one scalar value (what `char::encode_utf8` writes). */
  function EncodeChar(c: Scalar): (r: seq<byte>)
    ensures 1 <= |r| <= 4
  {
    if c < 0x80 then
      [c as byte]
    else if c < 0x800 then
      [(0xC0 + c / 64) as byte, (0x80 + c % 64) as byte]
    else if c < 0x1_0000 then
      [(0xE0 + c / 4096) as byte, (0x80 + c / 64 % 64) as byte, (0x80 + c % 64) as byte]
    else
      [(0xF0 + c / 262144) as byte, (0x80 + c / 4096 % 64) as byte,
       (0x80 + c / 64 % 64) as byte, (0x80 + c % 64) as byte]
  }

  /** The bytes of a Rust string holding the scalar values `s`. */
  function Encode(s: seq<Scalar>): seq<byte>
  {
    if s == [] then [] else EncodeChar(s[0]) + Encode(s[1..])
  }

  /** Least admissible second byte after lead byte `b0`: excludes overlong
      three- and four-byte forms. */
  function SecondLo(b0: byte): byte
  {
    if b0 == 0xE0 then 0xA0 else if b0 == 0xF0 then 0x90 else 0x80
  }

  /** Greatest admissible second byte after lead byte `b0`: excludes
      surrogates and values above U+10FFFF. */
  function SecondHi(b0: byte): byte
  {
    if b0 == 0xED then 0x9F else if b0 == 0xF4 then 0x8F else 0xBF
  }

  /** Decodes the scalar value at the front of `b` and says how many bytes it
      took; fails on any ill-formed sequence. Whatever it accepts is exactly
      the encoding of what it returns. */
  function DecodeChar(b: seq<byte>): (r: Option<(Scalar, nat)>)
    requires |b| > 0
    ensures r.Some? ==> 1 <= r.value.1 <= |b| && EncodeChar(r.value.0) == b[..r.value.1]
  {
    var b0 := b[0];
    if b0 < 0x80 then Some((b0 as int, 1))
    else if 0xC2 <= b0 <= 0xDF then DecodeTwoBytes(b)
    else if 0xE0 <= b0 <= 0xEF then DecodeThreeBytes(b)
    else if 0xF0 <= b0 <= 0xF4 then DecodeFourBytes(b)
    else None
  }

  /** A sequence led by 0xC2..0xDF: one continuation byte follows. */
  function DecodeTwoBytes(b: seq<byte>): (r: Option<(Scalar, nat)>)
    requires |b| > 0 && 0xC2 <= b[0] <= 0xDF
    ensures r.Some? ==> r.value.1 == 2 <= |b| && EncodeChar(r.value.0) == b[..2]
  {
    if |b| >= 2 && IsCont(b[1]) then
      var x, y := b[0] as int - 0xC0, b[1] as int - 0x80;
      var c := x * 64 + y;
      DivMod(c, 64, x, y);
      Some((c, 2))
    else None
  }

  /** A sequence led by 0xE0..0xEF: a restricted second byte, then one
      continuation byte. */
  function DecodeThreeBytes(b: seq<byte>): (r: Option<(Scalar, nat)>)
    requires |b| > 0 && 0xE0 <= b[0] <= 0xEF
    ensures r.Some? ==> r.value.1 == 3 <= |b| && EncodeChar(r.value.0) == b[..3]
  {
    if |b| >= 3 && SecondLo(b[0]) <= b[1] <= SecondHi(b[0]) && IsCont(b[2]) then
      var x, y, z := b[0] as int - 0xE0, b[1] as int - 0x80, b[2] as int - 0x80;
      var c := x * 4096 + y * 64 + z;
      DivMod(c, 4096, x, y * 64 + z);
      DivMod(c, 64, x * 64 + y, z);
      DivMod(x * 64 + y, 64, x, y);
      Some((c, 3))
    else None
  }

  /** A sequence led by 0xF0..0xF4: a restricted second byte, then two
      continuation bytes. */
  function DecodeFourBytes(b: seq<byte>): (r: Option<(Scalar, nat)>)
    requires |b| > 0 && 0xF0 <= b[0] <= 0xF4
    ensures r.Some? ==> r.value.1 == 4 <= |b| && EncodeChar(r.value.0) == b[..4]
  {
    if |b| >= 4 && SecondLo(b[0]) <= b[1] <= SecondHi(b[0]) && IsCont(b[2]) && IsCont(b[3]) then
      var x, y, z, w := b[0] as int - 0xF0, b[1] as int - 0x80, b[2] as int - 0x80, b[3] as int - 0x80;
      var c := x * 262144 + y * 4096 + z * 64 + w;
      DivMod(c, 262144, x, y * 4096 + z * 64 + w);
      DivMod(c, 4096, x * 64 + y, z * 64 + w);
      DivMod(x * 64 + y, 64, x, y);
      DivMod(c, 64, x * 4096 + y * 64 + z, w);
      DivMod(x * 4096 + y * 64 + z, 64, x * 64 + y, z);
      Some((c, 4))
    else None
  }

  /** Encoding distributes over a leading scalar value. */
  lemma EncodeCons(c: Scalar, rest: seq<Scalar>)
    ensures Encode([c] + rest) == EncodeChar(c) + Encode(rest)
  {
    assert ([c] + rest)[1..] == rest;
  }

  /** `str::from_utf8`: the scalar values of `b`, or `None` when `b` is not
      well-formed UTF-8. A successful decode re-encodes to `b` byte for byte. */
  function Decode(b: seq<byte>): (r: Option<seq<Scalar>>)
    ensures r.Some? ==> Encode(r.value) == b
    decreases |b|
  {
    if b == [] then Some([])
    else
      match DecodeChar(b)
      case None => None
      case Some((c, n)) =>
        match Decode(b[n..])
        case None => None
        case Some(rest) =>
          EncodeCons(c, rest);
          assert b == b[..n] + b[n..];
          Some([c] + rest)
  }

  /** The encoding of a scalar value decodes back to that value, whatever
      bytes follow it. */
  lemma DecodeCharOfEncode(c: Scalar, rest: seq<byte>)
    ensures DecodeChar(EncodeChar(c) + rest) == Some((c, |EncodeChar(c)|))
  {
    if c < 0x80 {
    } else if c < 0x800 {
      DecodeTwo(c, rest);
    } else if c < 0x1_0000 {
      DecodeThree(c, rest);
    } else {
      DecodeFour(c, rest);
    }
  }

  /** Two-byte case of DecodeCharOfEncode. */
  lemma DecodeTwo(c: Scalar, rest: seq<byte>)
    requires 0x80 <= c < 0x800
    ensures DecodeChar(EncodeChar(c) + rest) == Some((c, 2))
  {
    var x, y := c / 64, c % 64;
    var b := EncodeChar(c) + rest;
    assert b[0] == (0xC0 + x) as byte && b[1] == (0x80 + y) as byte;
    assert 2 <= x < 32;
  }

  /** Three-byte case of DecodeCharOfEncode. */
  lemma DecodeThree(c: Scalar, rest: seq<byte>)
    requires 0x800 <= c < 0x1_0000
    ensures DecodeChar(EncodeChar(c) + rest) == Some((c, 3))
  {
    var x, m := c / 4096, c % 4096;
    var y, z := m / 64, m % 64;
    assert c == 4096 * x + 64 * y + z;
    DivMod(c, 64, 64 * x + y, z);
    DivMod(64 * x + y, 64, x, y);
    var b := EncodeChar(c) + rest;
    assert b[0] == (0xE0 + x) as byte && b[1] == (0x80 + y) as byte && b[2] == (0x80 + z) as byte;
    assert x == 0 ==> y >= 32;
    assert x == 13 ==> y < 32;
  }

  /** Four-byte case of DecodeCharOfEncode. */
  lemma DecodeFour(c: Scalar, rest: seq<byte>)
    requires 0x1_0000 <= c
    ensures DecodeChar(EncodeChar(c) + rest) == Some((c, 4))
  {
    FourDigits(c);
    var x, y, z, w := c / 262144, c / 4096 % 64, c / 64 % 64, c % 64;
    var b := EncodeChar(c) + rest;
    assert b[0] == (0xF0 + x) as byte && b[1] == (0x80 + y) as byte;
    assert b[2] == (0x80 + z) as byte && b[3] == (0x80 + w) as byte;
    assert x == 0 ==> y >= 16;
    assert x == 4 ==> y < 16;
    assert DecodeChar(b) == DecodeFourBytes(b);
  }

  /** A value splits into its base-64 digits as the four-byte form uses them. */
  lemma FourDigits(c: nat)
    ensures c == 262144 * (c / 262144) + 4096 * (c / 4096 % 64) + 64 * (c / 64 % 64) + c % 64
  {
    var x, m := c / 262144, c % 262144;
    var y, m' := m / 4096, m % 4096;
    var z, w := m' / 64, m' % 64;
    assert c == 262144 * x + 4096 * y + 64 * z + w;
    DivMod(c, 4096, 64 * x + y, 64 * z + w);
    DivMod(64 * x + y, 64, x, y);
    DivMod(c, 64, 4096 * x + 64 * y + z, w);
    DivMod(4096 * x + 64 * y + z, 64, 64 * x + y, z);
  }

  /** Decoding the bytes of a string gives back the string: `from_utf8`
      accepts every byte sequence that a Rust `str` can hold. */
  lemma {:induction false} DecodeOfEncode(s: seq<Scalar>)
    ensures Decode(Encode(s)) == Some(s)
  {
    if s != [] {
      var e := EncodeChar(s[0]);
      DecodeCharOfEncode(s[0], Encode(s[1..]));
      DecodeOfEncode(s[1..]);
      assert Encode(s)[|e|..] == Encode(s[1..]);
      assert [s[0]] + s[1..] == s;
    }
  }
}
