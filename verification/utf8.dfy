/**
 * UTF-8 as the browser provides it (RFC 3629): `TextEncoder.encode`, the replacing decoder
 * behind `TextDecoder.decode` (the UTF-8 decoder of the WHATWG Encoding Standard, which emits
 * U+FFFD for each maximal ill-formed subsequence) and the strict decoding that
 * `decodeURIComponent` performs, which fails instead.
 */
module Utf8 {
  import opened Common

  const Replacement: char := '\U{FFFD}'

  /** The one to four bytes that encode one code point. */
  function EncodeChar(c: char): (b: seq<byte>)
    ensures 1 <= |b| <= 4
  {
    var cp := c as int;
    if cp < 0x80 then [cp as byte]
    else if cp < 0x800 then [(0xC0 + cp / 0x40) as byte, (0x80 + cp % 0x40) as byte]
    else if cp < 0x10000 then
      [(0xE0 + cp / 0x1000) as byte, (0x80 + cp / 0x40 % 0x40) as byte, (0x80 + cp % 0x40) as byte]
    else
      [(0xF0 + cp / 0x40000) as byte, (0x80 + cp / 0x1000 % 0x40) as byte,
       (0x80 + cp / 0x40 % 0x40) as byte, (0x80 + cp % 0x40) as byte]
  }

  /** `new TextEncoder().encode(s)`. */
  function Encode(s: string): (b: seq<byte>)
    ensures |s| <= |b| <= 4 * |s|
    decreases |s|
  {
    if |s| == 0 then [] else EncodeChar(s[0]) + Encode(s[1..])
  }

  /** What one step of the decoder emits and how many bytes it consumes. */
  datatype Step = Step(c: char, len: nat, wellFormed: bool)

  predicate InRange(b: byte, lo: int, hi: int) {
    lo <= b as int <= hi
  }

  /**
   * Decode the sequence that starts `b`: a code point and its length, or U+FFFD for the
   * longest prefix that could have begun a well-formed sequence (at least one byte).
   */
  function DecodeStep(b: seq<byte>): (st: Step)
    requires |b| > 0
    ensures 1 <= st.len <= |b|
  {
    var b0 := b[0] as int;
    if b0 < 0x80 then Step(b0 as char, 1, true)
    else if 0xC2 <= b0 <= 0xDF then DecodeTwo(b)
    else if 0xE0 <= b0 <= 0xEF then DecodeThree(b)
    else if 0xF0 <= b0 <= 0xF4 then DecodeFour(b)
    else Step(Replacement, 1, false)
  }

  /** A two-byte sequence: lead byte C2-DF. */
  function DecodeTwo(b: seq<byte>): (st: Step)
    requires |b| > 0 && InRange(b[0], 0xC2, 0xDF)
    ensures 1 <= st.len <= |b|
  {
    if |b| < 2 || !InRange(b[1], 0x80, 0xBF) then Step(Replacement, 1, false)
    else Step(((b[0] as int % 0x20) * 0x40 + b[1] as int % 0x40) as char, 2, true)
  }

  /** A three-byte sequence: lead byte E0-EF; E0 excludes overlongs, ED excludes surrogates. */
  function DecodeThree(b: seq<byte>): (st: Step)
    requires |b| > 0 && InRange(b[0], 0xE0, 0xEF)
    ensures 1 <= st.len <= |b|
  {
    var b0 := b[0] as int;
    var lo := if b0 == 0xE0 then 0xA0 else 0x80;
    var hi := if b0 == 0xED then 0x9F else 0xBF;
    if |b| < 2 || !InRange(b[1], lo, hi) then Step(Replacement, 1, false)
    else if |b| < 3 || !InRange(b[2], 0x80, 0xBF) then Step(Replacement, 2, false)
    else
      var cp := (b0 % 0x10) * 0x1000 + (b[1] as int % 0x40) * 0x40 + b[2] as int % 0x40;
      Step(cp as char, 3, true)
  }

  /** A four-byte sequence: lead byte F0-F4; F0 excludes overlongs, F4 caps at U+10FFFF. */
  function DecodeFour(b: seq<byte>): (st: Step)
    requires |b| > 0 && InRange(b[0], 0xF0, 0xF4)
    ensures 1 <= st.len <= |b|
  {
    var b0 := b[0] as int;
    var lo := if b0 == 0xF0 then 0x90 else 0x80;
    var hi := if b0 == 0xF4 then 0x8F else 0xBF;
    if |b| < 2 || !InRange(b[1], lo, hi) then Step(Replacement, 1, false)
    else if |b| < 3 || !InRange(b[2], 0x80, 0xBF) then Step(Replacement, 2, false)
    else if |b| < 4 || !InRange(b[3], 0x80, 0xBF) then Step(Replacement, 3, false)
    else
      var cp := (b0 % 0x08) * 0x40000 + (b[1] as int % 0x40) * 0x1000
                + (b[2] as int % 0x40) * 0x40 + b[3] as int % 0x40;
      Step(cp as char, 4, true)
  }

  /** The WHATWG UTF-8 decode: never fails, replaces ill-formed input by U+FFFD. */
  function Decode(b: seq<byte>): (s: string)
    ensures |s| <= |b|
    decreases |b|
  {
    if |b| == 0 then "" else [DecodeStep(b).c] + Decode(b[DecodeStep(b).len..])
  }

  /** U+FEFF, the byte order mark. */
  const Bom: char := '\U{FEFF}'

  /** The string without one leading byte order mark. */
  function StripBom(s: string): string {
    if |s| > 0 && s[0] == Bom then s[1..] else s
  }

  /**
   * `new TextDecoder().decode(b)`: the decode above, minus one leading U+FEFF, which the
   * decoder takes for a byte order mark and skips because `ignoreBOM` defaults to false.
   */
  function TextDecode(b: seq<byte>): (s: string)
    ensures |s| <= |b|
  {
    StripBom(Decode(b))
  }

  /** Strict decoding (`decodeURIComponent`): fails on any ill-formed sequence. */
  function DecodeStrict(b: seq<byte>): Option<string>
    decreases |b|
  {
    if |b| == 0 then Some("")
    else
      var st := DecodeStep(b);
      if !st.wellFormed then None
      else match DecodeStrict(b[st.len..])
        case None => None
        case Some(rest) => Some([st.c] + rest)
  }

  lemma Split2(cp: int)
    requires 0x80 <= cp < 0x800
    ensures var b0, b1 := 0xC0 + cp / 0x40, 0x80 + cp % 0x40;
      (b0 % 0x20) * 0x40 + b1 % 0x40 == cp && 0xC2 <= b0 <= 0xDF
  {}

  lemma Split3(cp: int)
    requires 0x800 <= cp < 0x10000 && !(0xD800 <= cp < 0xE000)
    ensures var b0, b1, b2 := 0xE0 + cp / 0x1000, 0x80 + cp / 0x40 % 0x40, 0x80 + cp % 0x40;
      (b0 % 0x10) * 0x1000 + (b1 % 0x40) * 0x40 + b2 % 0x40 == cp &&
      0xE0 <= b0 <= 0xEF && (b0 == 0xE0 ==> b1 >= 0xA0) && (b0 == 0xED ==> b1 <= 0x9F)
  {}

  lemma Split4(cp: int)
    requires 0x10000 <= cp < 0x110000
    ensures var b0, b1, b2, b3 := 0xF0 + cp / 0x40000, 0x80 + cp / 0x1000 % 0x40,
                                  0x80 + cp / 0x40 % 0x40, 0x80 + cp % 0x40;
      (b0 % 0x08) * 0x40000 + (b1 % 0x40) * 0x1000 + (b2 % 0x40) * 0x40 + b3 % 0x40 == cp &&
      0xF0 <= b0 <= 0xF4 && (b0 == 0xF0 ==> b1 >= 0x90) && (b0 == 0xF4 ==> b1 <= 0x8F)
  {
    var top, hi, mid, lo := cp / 0x40000, cp / 0x1000 % 0x40, cp / 0x40 % 0x40, cp % 0x40;
    assert cp / 0x1000 == top * 0x40 + hi;
    assert cp / 0x40 == (cp / 0x1000) * 0x40 + mid;
    assert cp == (cp / 0x40) * 0x40 + lo;
    assert 0 <= top <= 4;
    assert (0xF0 + top) % 0x08 == top;
  }

  lemma DecodeEncoded2(c: char, rest: seq<byte>)
    requires 0x80 <= c as int < 0x800
    ensures DecodeStep(EncodeChar(c) + rest) == Step(c, 2, true)
  {
    var cp := c as int;
    var b := EncodeChar(c) + rest;
    Split2(cp);
    ByteValue(0xC0 + cp / 0x40); ByteValue(0x80 + cp % 0x40);
    assert b[0] as int == 0xC0 + cp / 0x40 && b[1] as int == 0x80 + cp % 0x40;
  }

  /** Reading a well-formed three-byte sequence. */
  lemma StepThree(b: seq<byte>, x0: int, x1: int, x2: int)
    requires |b| >= 3 && b[0] as int == x0 && b[1] as int == x1 && b[2] as int == x2
    requires 0xE0 <= x0 <= 0xEF && 0x80 <= x1 <= 0xBF && 0x80 <= x2 <= 0xBF
    requires (x0 == 0xE0 ==> x1 >= 0xA0) && (x0 == 0xED ==> x1 <= 0x9F)
    ensures DecodeStep(b).len == 3 && DecodeStep(b).wellFormed
    ensures DecodeStep(b).c as int == (x0 % 0x10) * 0x1000 + (x1 % 0x40) * 0x40 + x2 % 0x40
  {}

  /** Reading a well-formed four-byte sequence. */
  lemma StepFour(b: seq<byte>, x0: int, x1: int, x2: int, x3: int)
    requires |b| >= 4 && b[0] as int == x0 && b[1] as int == x1
    requires b[2] as int == x2 && b[3] as int == x3
    requires 0xF0 <= x0 <= 0xF4 && 0x80 <= x1 <= 0xBF && 0x80 <= x2 <= 0xBF && 0x80 <= x3 <= 0xBF
    requires (x0 == 0xF0 ==> x1 >= 0x90) && (x0 == 0xF4 ==> x1 <= 0x8F)
    ensures DecodeStep(b).len == 4 && DecodeStep(b).wellFormed
    ensures DecodeStep(b).c as int ==
      (x0 % 0x08) * 0x40000 + (x1 % 0x40) * 0x1000 + (x2 % 0x40) * 0x40 + x3 % 0x40
  {}

  lemma EncodeThreeBytes(c: char, x0: int, x1: int, x2: int)
    requires 0x800 <= c as int < 0x10000
    requires x0 == 0xE0 + c as int / 0x1000 && x1 == 0x80 + c as int / 0x40 % 0x40
    requires x2 == 0x80 + c as int % 0x40
    ensures |EncodeChar(c)| == 3
    ensures EncodeChar(c)[0] as int == x0 && EncodeChar(c)[1] as int == x1
    ensures EncodeChar(c)[2] as int == x2
  {
    ByteValue(x0); ByteValue(x1); ByteValue(x2);
  }

  lemma EncodeFourBytes(c: char, x0: int, x1: int, x2: int, x3: int)
    requires 0x10000 <= c as int
    requires x0 == 0xF0 + c as int / 0x40000 && x1 == 0x80 + c as int / 0x1000 % 0x40
    requires x2 == 0x80 + c as int / 0x40 % 0x40 && x3 == 0x80 + c as int % 0x40
    ensures |EncodeChar(c)| == 4
    ensures EncodeChar(c)[0] as int == x0 && EncodeChar(c)[1] as int == x1
    ensures EncodeChar(c)[2] as int == x2 && EncodeChar(c)[3] as int == x3
  {
    ByteValue(x0); ByteValue(x1); ByteValue(x2); ByteValue(x3);
  }

  lemma DecodeEncoded3(c: char, rest: seq<byte>)
    requires 0x800 <= c as int < 0x10000
    ensures DecodeStep(EncodeChar(c) + rest) == Step(c, 3, true)
  {
    var cp := c as int;
    var x0, x1, x2 := 0xE0 + cp / 0x1000, 0x80 + cp / 0x40 % 0x40, 0x80 + cp % 0x40;
    var e := EncodeChar(c);
    EncodeThreeBytes(c, x0, x1, x2);
    Split3(cp);
    var b := e + rest;
    assert b[0] == e[0] && b[1] == e[1] && b[2] == e[2];
    StepThree(b, x0, x1, x2);
  }

  lemma DecodeEncoded4(c: char, rest: seq<byte>)
    requires 0x10000 <= c as int
    ensures DecodeStep(EncodeChar(c) + rest) == Step(c, 4, true)
  {
    var cp := c as int;
    var x0, x1, x2, x3 := 0xF0 + cp / 0x40000, 0x80 + cp / 0x1000 % 0x40,
                          0x80 + cp / 0x40 % 0x40, 0x80 + cp % 0x40;
    var e := EncodeChar(c);
    EncodeFourBytes(c, x0, x1, x2, x3);
    Split4(cp);
    var b := e + rest;
    assert b[0] == e[0] && b[1] == e[1] && b[2] == e[2] && b[3] == e[3];
    StepFour(b, x0, x1, x2, x3);
  }

  /** The decoder reads back exactly the character the encoder wrote, and nothing more. */
  lemma DecodeEncodedChar(c: char, rest: seq<byte>)
    ensures DecodeStep(EncodeChar(c) + rest) == Step(c, |EncodeChar(c)|, true)
  {
    var cp := c as int;
    if cp < 0x80 {
      ByteValue(cp);
    } else if cp < 0x800 {
      DecodeEncoded2(c, rest);
    } else if cp < 0x10000 {
      DecodeEncoded3(c, rest);
    } else {
      DecodeEncoded4(c, rest);
    }
  }

  lemma {:induction false} EncodeAppend(c: char, s: string)
    ensures Encode([c] + s) == EncodeChar(c) + Encode(s)
  {
    assert ([c] + s)[1..] == s;
  }

  /** Decoding what `TextEncoder` produced gives the original string back. */
  lemma {:induction false} DecodeEncode(s: string)
    ensures Decode(Encode(s)) == s
    decreases |s|
  {
    if |s| > 0 {
      var e := EncodeChar(s[0]);
      DecodeEncodedChar(s[0], Encode(s[1..]));
      assert (e + Encode(s[1..]))[|e|..] == Encode(s[1..]);
      DecodeEncode(s[1..]);
      assert s == [s[0]] + s[1..];
    }
  }

  /** `TextDecoder` skips the bytes EF BB BF at the start of its input. */
  lemma TextDecodeSkipsBom(rest: seq<byte>)
    ensures TextDecode([0xEF, 0xBB, 0xBF] + rest) == Decode(rest)
  {
    var b: seq<byte> := [0xEF, 0xBB, 0xBF] + rest;
    StepThree(b, 0xEF, 0xBB, 0xBF);
    assert b[3..] == rest;
  }

  /** `TextDecoder` gives back what `TextEncoder` encoded, except for a leading U+FEFF. */
  lemma TextDecodeEncode(s: string)
    ensures TextDecode(Encode(s)) == StripBom(s)
  {
    DecodeEncode(s);
  }

  /** The strict decoder accepts every encoded string and returns it. */
  lemma {:induction false} DecodeStrictEncode(s: string)
    ensures DecodeStrict(Encode(s)) == Some(s)
    decreases |s|
  {
    if |s| > 0 {
      var e := EncodeChar(s[0]);
      DecodeEncodedChar(s[0], Encode(s[1..]));
      assert (e + Encode(s[1..]))[|e|..] == Encode(s[1..]);
      DecodeStrictEncode(s[1..]);
      var b := Encode(s);
      assert b == e + Encode(s[1..]);
      assert DecodeStep(b) == Step(s[0], |e|, true);
      assert b[|e|..] == Encode(s[1..]);
      assert s == [s[0]] + s[1..];
    }
  }

  /** Only U+0000 encodes to a leading zero byte. */
  lemma EncodeFirstByte(s: string)
    requires |s| > 0 && s[0] != '\0'
    ensures Encode(s)[0] != 0
  {
    assert Encode(s) == EncodeChar(s[0]) + Encode(s[1..]);
    EncodeCharFirstByte(s[0]);
  }

  lemma EncodeCharFirstByte(c: char)
    requires c != '\0'
    ensures EncodeChar(c)[0] != 0
  {
    var cp := c as int;
    if cp < 0x80 { ByteValue(cp); }
    else if cp < 0x800 { ByteValue(0xC0 + cp / 0x40); }
    else if cp < 0x10000 { ByteValue(0xE0 + cp / 0x1000); }
    else { ByteValue(0xF0 + cp / 0x40000); }
  }

  /** A string that encodes to nothing is empty. */
  lemma EncodeEmpty(s: string)
    requires |s| > 0
    ensures |Encode(s)| > 0
  {}
}
