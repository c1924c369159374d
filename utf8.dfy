/**
 * UTF-8 as defined by RFC 3629: the encoder of section 3 and the strict
 * decoder whose accepted byte sequences are exactly those of the syntax in
 * section 4 (no overlong forms, no surrogates, nothing above U+10FFFF), which
 * is what Rust's `String::from_utf8` accepts. A Dafny `char` is a Unicode
 * scalar value, so the decoder yields `string`s directly.
 */
module Utf8 {
  import opened Types

  predicate IsContinuation(b: byte) {
    0x80 <= b < 0xC0
  }

  /** The UTF-8 form of one scalar value (section 3 of RFC 3629). */
  function EncodeChar(c: char): seq<byte> {
    var cp := c as int;
    if cp < 0x80 then
      var b0: byte := cp;
      [b0]
    else if cp < 0x800 then
      var b0: byte, b1: byte := 0xC0 + cp / 64, 0x80 + cp % 64;
      [b0, b1]
    else if cp < 0x10000 then
      var b0: byte, b1: byte, b2: byte := 0xE0 + cp / 4096, 0x80 + cp / 64 % 64, 0x80 + cp % 64;
      [b0, b1, b2]
    else
      var b0: byte, b1: byte := 0xF0 + cp / 262144, 0x80 + cp / 4096 % 64;
      var b2: byte, b3: byte := 0x80 + cp / 64 % 64, 0x80 + cp % 64;
      [b0, b1, b2, b3]
  }

  /** The UTF-8 form of a text: its characters' forms, in order. */
  function Encode(s: string): seq<byte>
    decreases |s|
  {
    if |s| == 0 then [] else EncodeChar(s[0]) + Encode(s[1..])
  }

  /** Lowest second byte allowed after lead byte `b0` (rules UTF8-3 and UTF8-4 of RFC 3629). */
  function SecondLow(b0: byte): byte {
    if b0 == 0xE0 then 0xA0 else if b0 == 0xF0 then 0x90 else 0x80
  }

  /** Highest second byte allowed after lead byte `b0`. */
  function SecondHigh(b0: byte): byte {
    if b0 == 0xED then 0x9F else if b0 == 0xF4 then 0x8F else 0xBF
  }

  /** The first character of `bs` and the number of bytes it takes, or `None` if `bs` does not start with a well-formed character. */
  function DecodeFirst(bs: seq<byte>): (r: Option<(char, nat)>)
    requires |bs| > 0
    ensures r.Some? ==> 1 <= r.value.1 <= 4 && r.value.1 <= |bs|
  {
    var b0 := bs[0];
    var x0 := b0 as int;
    if b0 < 0x80 then
      Some((b0 as char, 1))
    else if 0xC2 <= b0 < 0xE0 then
      if 2 <= |bs| && IsContinuation(bs[1]) then
        Some((((x0 - 0xC0) * 64 + (bs[1] as int - 0x80)) as char, 2))
      else None
    else if 0xE0 <= b0 < 0xF0 then
      if 3 <= |bs| && SecondLow(b0) <= bs[1] <= SecondHigh(b0) && IsContinuation(bs[2]) then
        Some((((x0 - 0xE0) * 4096 + (bs[1] as int - 0x80) * 64 + (bs[2] as int - 0x80)) as char, 3))
      else None
    else if 0xF0 <= b0 < 0xF5 then
      if 4 <= |bs| && SecondLow(b0) <= bs[1] <= SecondHigh(b0) && IsContinuation(bs[2]) && IsContinuation(bs[3]) then
        Some((((x0 - 0xF0) * 262144 + (bs[1] as int - 0x80) * 4096 + (bs[2] as int - 0x80) * 64 + (bs[3] as int - 0x80)) as char, 4))
      else None
    else None
  }

  /** `String::from_utf8`: the text `bs` spells, or `None` if `bs` is not well-formed UTF-8. */
  function Decode(bs: seq<byte>): (r: Option<string>)
    ensures r.Some? ==> |r.value| <= |bs| <= 4 * |r.value|
    decreases |bs|
  {
    if |bs| == 0 then Some([])
    else
      match DecodeFirst(bs)
      case None => None
      case Some((c, n)) =>
        match Decode(bs[n..])
        case None => None
        case Some(rest) => Some([c] + rest)
  }

  /** The 6-bit digits of a code point, most significant first. */
  lemma SixBitDigits(cp: nat)
    ensures cp / 64 / 64 == cp / 4096 && cp / 4096 / 64 == cp / 262144
    ensures cp == cp / 64 * 64 + cp % 64
    ensures cp / 64 == cp / 4096 * 64 + cp / 64 % 64
    ensures cp / 4096 == cp / 262144 * 64 + cp / 4096 % 64
  {
  }

  lemma DecodeFirstOneByte(c: char, rest: seq<byte>)
    requires c as int < 0x80
    ensures DecodeFirst(EncodeChar(c) + rest) == Some((c, 1))
  {
    var bs := EncodeChar(c) + rest;
    assert bs[0] == c as int;
  }

  lemma DecodeFirstTwoBytes(c: char, rest: seq<byte>)
    requires 0x80 <= c as int < 0x800
    ensures DecodeFirst(EncodeChar(c) + rest) == Some((c, 2))
  {
    var cp := c as int;
    var bs := EncodeChar(c) + rest;
    assert bs[0] == 0xC0 + cp / 64 && bs[1] == 0x80 + cp % 64;
    SixBitDigits(cp);
    assert (bs[0] as int - 0xC0) * 64 + (bs[1] as int - 0x80) == cp;
  }

  lemma DecodeFirstThreeBytes(c: char, rest: seq<byte>)
    requires 0x800 <= c as int < 0x10000
    ensures DecodeFirst(EncodeChar(c) + rest) == Some((c, 3))
  {
    var cp := c as int;
    var bs := EncodeChar(c) + rest;
    assert bs[0] == 0xE0 + cp / 4096 && bs[1] == 0x80 + cp / 64 % 64 && bs[2] == 0x80 + cp % 64;
    SixBitDigits(cp);
    assert SecondLow(bs[0]) <= bs[1] <= SecondHigh(bs[0]);
    assert (bs[0] as int - 0xE0) * 4096 + (bs[1] as int - 0x80) * 64 + (bs[2] as int - 0x80) == cp;
  }

  lemma DecodeFirstFourBytes(c: char, rest: seq<byte>)
    requires 0x10000 <= c as int
    ensures DecodeFirst(EncodeChar(c) + rest) == Some((c, 4))
  {
    var cp := c as int;
    var bs := EncodeChar(c) + rest;
    assert bs[0] == 0xF0 + cp / 262144 && bs[1] == 0x80 + cp / 4096 % 64;
    assert bs[2] == 0x80 + cp / 64 % 64 && bs[3] == 0x80 + cp % 64;
    SixBitDigits(cp);
    assert SecondLow(bs[0]) <= bs[1] <= SecondHigh(bs[0]);
    assert (bs[0] as int - 0xF0) * 262144 + (bs[1] as int - 0x80) * 4096 + (bs[2] as int - 0x80) * 64 + (bs[3] as int - 0x80) == cp;
  }

  /** Decoding a character's form, whatever follows it, yields that character and consumes exactly its form. */
  lemma DecodeFirstEncodeChar(c: char, rest: seq<byte>)
    ensures DecodeFirst(EncodeChar(c) + rest) == Some((c, |EncodeChar(c)|))
  {
    var cp := c as int;
    if cp < 0x80 {
      DecodeFirstOneByte(c, rest);
    } else if cp < 0x800 {
      DecodeFirstTwoBytes(c, rest);
    } else if cp < 0x10000 {
      DecodeFirstThreeBytes(c, rest);
    } else {
      DecodeFirstFourBytes(c, rest);
    }
  }

  lemma EncodeDecodeFirstTwoBytes(bs: seq<byte>)
    requires |bs| > 0 && 0xC2 <= bs[0] < 0xE0 && DecodeFirst(bs).Some?
    ensures bs[..2] == EncodeChar(DecodeFirst(bs).value.0)
  {
    var c := DecodeFirst(bs).value.0;
    var cp := c as int;
    assert cp == (bs[0] as int - 0xC0) * 64 + (bs[1] as int - 0x80);
    SixBitDigits(cp);
    assert cp / 64 == bs[0] as int - 0xC0 && cp % 64 == bs[1] as int - 0x80;
  }

  lemma EncodeDecodeFirstThreeBytes(bs: seq<byte>)
    requires |bs| > 0 && 0xE0 <= bs[0] < 0xF0 && DecodeFirst(bs).Some?
    ensures bs[..3] == EncodeChar(DecodeFirst(bs).value.0)
  {
    var c := DecodeFirst(bs).value.0;
    var cp := c as int;
    assert cp == (bs[0] as int - 0xE0) * 4096 + (bs[1] as int - 0x80) * 64 + (bs[2] as int - 0x80);
    SixBitDigits(cp);
    assert cp / 4096 == bs[0] as int - 0xE0;
    assert cp / 64 % 64 == bs[1] as int - 0x80 && cp % 64 == bs[2] as int - 0x80;
    assert 0x800 <= cp < 0x10000;
  }

  lemma EncodeDecodeFirstFourBytes(bs: seq<byte>)
    requires |bs| > 0 && 0xF0 <= bs[0] < 0xF5 && DecodeFirst(bs).Some?
    ensures bs[..4] == EncodeChar(DecodeFirst(bs).value.0)
  {
    var c := DecodeFirst(bs).value.0;
    var cp := c as int;
    assert cp == (bs[0] as int - 0xF0) * 262144 + (bs[1] as int - 0x80) * 4096 + (bs[2] as int - 0x80) * 64 + (bs[3] as int - 0x80);
    SixBitDigits(cp);
    assert cp / 262144 == bs[0] as int - 0xF0;
    assert cp / 4096 % 64 == bs[1] as int - 0x80;
    assert cp / 64 % 64 == bs[2] as int - 0x80 && cp % 64 == bs[3] as int - 0x80;
    assert 0x10000 <= cp;
  }

  /** The decoder accepts only the encoder's forms: the bytes it consumes are the encoding of the character it yields. */
  lemma EncodeDecodeFirst(bs: seq<byte>)
    requires |bs| > 0 && DecodeFirst(bs).Some?
    ensures bs[..DecodeFirst(bs).value.1] == EncodeChar(DecodeFirst(bs).value.0)
  {
    var b0 := bs[0];
    if b0 < 0x80 {
    } else if b0 < 0xE0 {
      EncodeDecodeFirstTwoBytes(bs);
    } else if b0 < 0xF0 {
      EncodeDecodeFirstThreeBytes(bs);
    } else {
      EncodeDecodeFirstFourBytes(bs);
    }
  }

  /** Decoding inverts encoding. */
  lemma {:induction false} DecodeEncode(s: string)
    ensures Decode(Encode(s)) == Some(s)
    decreases |s|
  {
    if |s| > 0 {
      var first, rest := EncodeChar(s[0]), Encode(s[1..]);
      DecodeFirstEncodeChar(s[0], rest);
      DecodeEncode(s[1..]);
      DecodeStep(first + rest, s[0], |first|, s[1..]);
      SplitFirst(s);
    }
  }

  /** One step of `Decode`, given what `DecodeFirst` and the rest yield. */
  lemma DecodeStep(bs: seq<byte>, c: char, n: nat, tail: string)
    requires |bs| > 0 && DecodeFirst(bs) == Some((c, n)) && Decode(bs[n..]) == Some(tail)
    ensures Decode(bs) == Some([c] + tail)
  {
  }

  lemma SplitFirst(s: string)
    requires |s| > 0
    ensures s == [s[0]] + s[1..]
  {
  }

  /** Decoding accepts nothing but the encoder's output: the decoded text re-encodes to the input. */
  lemma {:induction false} EncodeDecode(bs: seq<byte>)
    requires Decode(bs).Some?
    ensures Encode(Decode(bs).value) == bs
    decreases |bs|
  {
    if |bs| > 0 {
      var (c, n) := DecodeFirst(bs).value;
      var tail := Decode(bs[n..]).value;
      EncodeDecodeFirst(bs);
      EncodeDecode(bs[n..]);
      DecodeStep(bs, c, n, tail);
      EncodeStep(bs, c, n, tail);
    }
  }

  /** One step of `Encode`, given that the first `n` bytes encode `c` and the rest encode `tail`. */
  lemma EncodeStep(bs: seq<byte>, c: char, n: nat, tail: string)
    requires n <= |bs| && bs[..n] == EncodeChar(c) && Encode(tail) == bs[n..]
    ensures Encode([c] + tail) == bs
  {
    EncodeCons(c, tail);
    assert bs == bs[..n] + bs[n..];
  }

  lemma EncodeCons(c: char, tail: string)
    ensures Encode([c] + tail) == EncodeChar(c) + Encode(tail)
  {
    var s := [c] + tail;
    assert s[0] == c && s[1..] == tail;
  }

  /** A byte sequence decodes to `s` exactly when it is the encoding of `s`. */
  lemma DecodeIsCanonical(bs: seq<byte>, s: string)
    ensures Decode(bs) == Some(s) <==> bs == Encode(s)
  {
    if Decode(bs) == Some(s) {
      EncodeDecode(bs);
    }
    if bs == Encode(s) {
      DecodeEncode(s);
    }
  }
}
