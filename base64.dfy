/**
 * Base64 with the standard alphabet and mandatory `=` padding (section 4 of
 * RFC 4648), decoded the way the `BASE64_STANDARD` engine of the `base64`
 * crate decodes: padding must be exactly the canonical amount and the unused
 * bits of the last symbol before the padding must be zero (section 3.5 of
 * RFC 4648). The encoder is here so that the decoder can be characterised:
 * a text decodes to `data` exactly when it is the encoding of `data`.
 */
module Base64 {
  import opened Types

  /** The value of one alphabet symbol. */
  type sextet = x: int | 0 <= x < 64

  const Pad: char := '='

  predicate IsSymbol(c: char) {
    'A' <= c <= 'Z' || 'a' <= c <= 'z' || '0' <= c <= '9' || c == '+' || c == '/'
  }

  /** The symbol for a 6-bit value (Table 1 of RFC 4648). */
  function Symbol(v: sextet): (c: char)
    ensures IsSymbol(c)
  {
    if v < 26 then ('A' as int + v) as char
    else if v < 52 then ('a' as int + (v - 26)) as char
    else if v < 62 then ('0' as int + (v - 52)) as char
    else if v == 62 then '+'
    else '/'
  }

  /** The 6-bit value of a symbol; inverse of `Symbol`. */
  function Value(c: char): (v: sextet)
    requires IsSymbol(c)
    ensures Symbol(v) == c
  {
    if 'A' <= c <= 'Z' then c as int - 'A' as int
    else if 'a' <= c <= 'z' then c as int - 'a' as int + 26
    else if '0' <= c <= '9' then c as int - '0' as int + 52
    else if c == '+' then 62
    else 63
  }

  lemma ValueOfSymbol(v: sextet)
    ensures Value(Symbol(v)) == v
  {
  }

  /** Three octets as four symbols. */
  function EncodeGroup(a: byte, b: byte, c: byte): string {
    [Symbol(a / 4), Symbol(a % 4 * 16 + b / 16), Symbol(b % 16 * 4 + c / 64), Symbol(c % 64)]
  }

  /** A final quantum of two octets: three symbols and one pad. */
  function EncodeTail2(a: byte, b: byte): string {
    [Symbol(a / 4), Symbol(a % 4 * 16 + b / 16), Symbol(b % 16 * 4), Pad]
  }

  /** A final quantum of one octet: two symbols and two pads. */
  function EncodeTail1(a: byte): string {
    [Symbol(a / 4), Symbol(a % 4 * 16), Pad, Pad]
  }

  /** Padded encoding of `data`: four characters per started group of three octets. */
  function Encode(data: seq<byte>): string
    decreases |data|
  {
    if |data| == 0 then []
    else if |data| == 1 then EncodeTail1(data[0])
    else if |data| == 2 then EncodeTail2(data[0], data[1])
    else EncodeGroup(data[0], data[1], data[2]) + Encode(data[3..])
  }

  /** Four symbols as three octets; anything else (a pad, a foreign character) is rejected. */
  function DecodeGroup(g: string): Option<seq<byte>>
    requires |g| == 4
  {
    if IsSymbol(g[0]) && IsSymbol(g[1]) && IsSymbol(g[2]) && IsSymbol(g[3]) then
      var v0, v1, v2, v3 := Value(g[0]), Value(g[1]), Value(g[2]), Value(g[3]);
      var a: byte, b: byte, c: byte := v0 * 4 + v1 / 16, v1 % 16 * 16 + v2 / 4, v2 % 4 * 64 + v3;
      Some([a, b, c])
    else None
  }

  /** The last group, which may end in one or two pads whose unused bits must be zero. */
  function DecodeLast(g: string): Option<seq<byte>>
    requires |g| == 4
  {
    if g[2] == Pad && g[3] == Pad then
      if IsSymbol(g[0]) && IsSymbol(g[1]) && Value(g[1]) % 16 == 0 then
        var a: byte := Value(g[0]) * 4 + Value(g[1]) / 16;
        Some([a])
      else None
    else if g[3] == Pad then
      if IsSymbol(g[0]) && IsSymbol(g[1]) && IsSymbol(g[2]) && Value(g[2]) % 4 == 0 then
        var v0, v1, v2 := Value(g[0]), Value(g[1]), Value(g[2]);
        var a: byte, b: byte := v0 * 4 + v1 / 16, v1 % 16 * 16 + v2 / 4;
        Some([a, b])
      else None
    else DecodeGroup(g)
  }

  /**
   * `BASE64_STANDARD.decode`: `None` for every text that is not a canonical
   * padded encoding. Every group of four symbols gives three octets, except
   * the last, which gives one to three.
   */
  function Decode(s: string): (r: Option<seq<byte>>)
    ensures r.Some? ==> |s| % 4 == 0 && |s| / 4 * 3 - 2 <= |r.value| <= |s| / 4 * 3
    decreases |s|
  {
    if |s| == 0 then Some([])
    else if |s| % 4 != 0 then None
    else if |s| == 4 then DecodeLast(s)
    else
      match DecodeGroup(s[..4])
      case None => None
      case Some(head) =>
        match Decode(s[4..])
        case None => None
        case Some(tail) => Some(head + tail)
  }

  /** The bytes a group of four symbol values stands for. */
  lemma JoinValues(a: byte, b: byte, c: byte)
    ensures (a / 4) * 4 + (a % 4 * 16 + b / 16) / 16 == a
    ensures (a % 4 * 16 + b / 16) % 16 * 16 + (b % 16 * 4 + c / 64) / 4 == b
    ensures (b % 16 * 4 + c / 64) % 4 * 64 + c % 64 == c
  {
    assert (a % 4 * 16 + b / 16) / 16 == a % 4;
    assert (a % 4 * 16 + b / 16) % 16 == b / 16;
    assert (b % 16 * 4 + c / 64) / 4 == b % 16;
    assert (b % 16 * 4 + c / 64) % 4 == c / 64;
  }

  lemma DecodeEncodeGroup(a: byte, b: byte, c: byte)
    ensures DecodeGroup(EncodeGroup(a, b, c)) == Some([a, b, c])
  {
    var v0, v1, v2, v3 := a / 4, a % 4 * 16 + b / 16, b % 16 * 4 + c / 64, c % 64;
    var g := EncodeGroup(a, b, c);
    ValueOfSymbol(v0);
    ValueOfSymbol(v1);
    ValueOfSymbol(v2);
    ValueOfSymbol(v3);
    assert Value(g[0]) == v0 && Value(g[1]) == v1 && Value(g[2]) == v2 && Value(g[3]) == v3;
    JoinValues(a, b, c);
  }

  lemma DecodeEncodeTail2(a: byte, b: byte)
    ensures DecodeLast(EncodeTail2(a, b)) == Some([a, b])
  {
    var v0, v1, v2 := a / 4, a % 4 * 16 + b / 16, b % 16 * 4;
    var g := EncodeTail2(a, b);
    ValueOfSymbol(v0);
    ValueOfSymbol(v1);
    ValueOfSymbol(v2);
    assert g[2] != Pad && g[3] == Pad;
    assert Value(g[0]) == v0 && Value(g[1]) == v1 && Value(g[2]) == v2;
    JoinValues(a, b, 0);
  }

  lemma DecodeEncodeTail1(a: byte)
    ensures DecodeLast(EncodeTail1(a)) == Some([a])
  {
    var v0, v1 := a / 4, a % 4 * 16;
    var g := EncodeTail1(a);
    ValueOfSymbol(v0);
    ValueOfSymbol(v1);
    assert g[2] == Pad && g[3] == Pad;
    assert Value(g[0]) == v0 && Value(g[1]) == v1;
    JoinValues(a, 0, 0);
  }

  /** The encoding has four characters per started group of three octets. */
  lemma {:induction false} EncodeLength(data: seq<byte>)
    ensures |Encode(data)| == 4 * ((|data| + 2) / 3)
    decreases |data|
  {
    if |data| >= 3 {
      EncodeLength(data[3..]);
      GroupCountStep(|data| - 3);
      assert Encode(data) == EncodeGroup(data[0], data[1], data[2]) + Encode(data[3..]);
    }
  }

  lemma GroupCountStep(n: nat)
    ensures (n + 3 + 2) / 3 == (n + 2) / 3 + 1
  {
  }

  /** Decoding inverts encoding. */
  lemma {:induction false} DecodeEncode(data: seq<byte>)
    ensures Decode(Encode(data)) == Some(data)
    decreases |data|
  {
    if |data| <= 3 {
      DecodeEncodeShort(data);
    } else {
      DecodeEncode(data[3..]);
      DecodeEncodeStep(data);
    }
  }

  lemma DecodeEncodeStep(data: seq<byte>)
    requires |data| > 3 && Decode(Encode(data[3..])) == Some(data[3..])
    ensures Decode(Encode(data)) == Some(data)
  {
    var tail := data[3..];
    var rest := Encode(tail);
    EncodeLength(tail);
    var k := (|tail| + 2) / 3;
    assert |rest| == 4 * k && k >= 1;
    assert |rest| % 4 == 0;
    assert Encode(data) == EncodeGroup(data[0], data[1], data[2]) + rest;
    DecodeGroupThen(data[0], data[1], data[2], rest, tail);
    SplitThree(data);
  }

  lemma SplitThree(data: seq<byte>)
    requires |data| >= 3
    ensures data == [data[0], data[1], data[2]] + data[3..]
  {
  }

  lemma DecodeGroupThen(a: byte, b: byte, c: byte, rest: string, tail: seq<byte>)
    requires |rest| >= 4 && |rest| % 4 == 0 && Decode(rest) == Some(tail)
    ensures Decode(EncodeGroup(a, b, c) + rest) == Some([a, b, c] + tail)
  {
    DecodeEncodeGroup(a, b, c);
    DecodeAfterGroup(EncodeGroup(a, b, c), rest);
  }

  lemma DecodeEncodeShort(data: seq<byte>)
    requires |data| <= 3
    ensures Decode(Encode(data)) == Some(data)
  {
    if |data| == 1 {
      DecodeEncodeOne(data);
    } else if |data| == 2 {
      DecodeEncodeTwo(data);
    } else if |data| == 3 {
      DecodeEncodeThree(data);
    }
  }

  lemma DecodeEncodeOne(data: seq<byte>)
    requires |data| == 1
    ensures Decode(Encode(data)) == Some(data)
  {
    var g := EncodeTail1(data[0]);
    assert Encode(data) == g;
    assert Decode(g) == DecodeLast(g);
    DecodeEncodeTail1(data[0]);
    assert data == [data[0]];
  }

  lemma DecodeEncodeTwo(data: seq<byte>)
    requires |data| == 2
    ensures Decode(Encode(data)) == Some(data)
  {
    var g := EncodeTail2(data[0], data[1]);
    assert Encode(data) == g;
    assert Decode(g) == DecodeLast(g);
    DecodeEncodeTail2(data[0], data[1]);
    assert data == [data[0], data[1]];
  }

  lemma DecodeEncodeThree(data: seq<byte>)
    requires |data| == 3
    ensures Decode(Encode(data)) == Some(data)
  {
    var g := EncodeGroup(data[0], data[1], data[2]);
    SplitThree(data);
    assert data[3..] == [];
    assert Encode(data) == g + Encode(data[3..]);
    assert Encode(data) == g;
    assert Decode(g) == DecodeLast(g);
    assert g[3] != Pad;
    DecodeEncodeGroup(data[0], data[1], data[2]);
    assert data == [data[0], data[1], data[2]];
  }

  /** A group followed by a non-empty remainder is decoded group first. */
  lemma DecodeAfterGroup(g: string, rest: string)
    requires |g| == 4 && |rest| >= 4 && |rest| % 4 == 0
    ensures Decode(g + rest) ==
      match DecodeGroup(g)
      case None => None
      case Some(head) =>
        match Decode(rest)
        case None => None
        case Some(tail) => Some(head + tail)
  {
    var s := g + rest;
    assert |s| != 0 && |s| != 4 && |s| % 4 == 0;
    assert s[..4] == g && s[4..] == rest;
  }

  lemma EncodeDecodeGroup(g: string)
    requires |g| == 4 && DecodeGroup(g).Some?
    ensures |DecodeGroup(g).value| == 3
    ensures EncodeGroup(DecodeGroup(g).value[0], DecodeGroup(g).value[1], DecodeGroup(g).value[2]) == g
  {
    var v0, v1, v2, v3 := Value(g[0]), Value(g[1]), Value(g[2]), Value(g[3]);
    var d := DecodeGroup(g).value;
    assert d[0] / 4 == v0 && d[0] % 4 == v1 / 16;
    assert d[1] / 16 == v1 % 16 && d[1] % 16 == v2 / 4;
    assert d[2] / 64 == v2 % 4 && d[2] % 64 == v3;
  }

  lemma EncodeDecodeLast(g: string)
    requires |g| == 4 && DecodeLast(g).Some?
    ensures Encode(DecodeLast(g).value) == g
  {
    if g[2] == Pad && g[3] == Pad {
      EncodeDecodeOnePad2(g);
    } else if g[3] == Pad {
      EncodeDecodeOnePad1(g);
    } else {
      var d := DecodeGroup(g).value;
      EncodeDecodeGroup(g);
      assert d[3..] == [];
      assert Encode(d) == EncodeGroup(d[0], d[1], d[2]) + Encode(d[3..]);
    }
  }

  lemma EncodeDecodeOnePad2(g: string)
    requires |g| == 4 && g[2] == Pad && g[3] == Pad && DecodeLast(g).Some?
    ensures Encode(DecodeLast(g).value) == g
  {
    var d := DecodeLast(g).value;
    var v0, v1 := Value(g[0]), Value(g[1]);
    assert d[0] / 4 == v0 && d[0] % 4 * 16 == v1;
    assert EncodeTail1(d[0]) == g;
  }

  lemma EncodeDecodeOnePad1(g: string)
    requires |g| == 4 && g[2] != Pad && g[3] == Pad && DecodeLast(g).Some?
    ensures Encode(DecodeLast(g).value) == g
  {
    var d := DecodeLast(g).value;
    var v0, v1, v2 := Value(g[0]), Value(g[1]), Value(g[2]);
    assert d[0] / 4 == v0 && d[0] % 4 == v1 / 16;
    assert d[1] / 16 == v1 % 16 && d[1] % 16 * 4 == v2;
    assert EncodeTail2(d[0], d[1]) == g;
  }

  /** Decoding accepts nothing but canonical encodings: the decoded octets re-encode to the input. */
  lemma {:induction false} EncodeDecode(s: string)
    requires Decode(s).Some?
    ensures Encode(Decode(s).value) == s
    decreases |s|
  {
    if |s| == 4 {
      EncodeDecodeLast(s);
    } else if |s| > 4 {
      EncodeDecode(s[4..]);
      EncodeDecodeStep(s);
    }
  }

  lemma EncodeDecodeStep(s: string)
    requires |s| > 4 && Decode(s).Some?
    requires Decode(s[4..]).Some? && Encode(Decode(s[4..]).value) == s[4..]
    ensures Encode(Decode(s).value) == s
  {
    var g, rest := s[..4], s[4..];
    var head := DecodeGroup(g).value;
    var tail := Decode(rest).value;
    assert Decode(s).value == head + tail;
    EncodeDecodeGroup(g);
    EncodeConcat(head, tail);
    SplitFour(s);
  }

  lemma SplitFour(s: string)
    requires |s| >= 4
    ensures s == s[..4] + s[4..]
  {
  }

  /** Encoding a full group followed by more octets encodes the group first. */
  lemma EncodeConcat(head: seq<byte>, tail: seq<byte>)
    requires |head| == 3
    ensures Encode(head + tail) == EncodeGroup(head[0], head[1], head[2]) + Encode(tail)
  {
    var d := head + tail;
    assert d[3..] == tail;
  }

  /** A text decodes to `data` exactly when it is the encoding of `data`. */
  lemma DecodeIsCanonical(s: string, data: seq<byte>)
    ensures Decode(s) == Some(data) <==> s == Encode(data)
  {
    if Decode(s) == Some(data) {
      EncodeDecode(s);
    }
    if s == Encode(data) {
      DecodeEncode(data);
    }
  }
}
