/**
 * The browser's `btoa` and `atob`.  `btoa` writes the base 64 encoding of section 4 of
 * RFC 4648 (with `=` padding) of a binary string, and fails on any character above U+00FF.
 * `atob` is the forgiving-base64 decode of the WHATWG Infra Standard: it drops ASCII
 * whitespace, drops one or two trailing `=` when the length is a multiple of 4, refuses a
 * length of 1 modulo 4 and any character outside the 64-symbol alphabet, and ignores
 * leftover bits.
 */
module Base64 {
  import opened Common

  /** The name of the DOMException both functions throw. */
  const InvalidCharacter := "InvalidCharacterError"

  /** A binary string: each character stands for one byte. */
  predicate IsBinary(s: string) {
    forall i :: 0 <= i < |s| ==> s[i] as int < 0x100
  }

  /** `String.fromCharCode(...b)`. */
  function FromBytes(b: seq<byte>): (s: string)
    ensures |s| == |b| && IsBinary(s)
  {
    seq(|b|, i requires 0 <= i < |b| => b[i] as char)
  }

  /** The `charCodeAt` of every character of a binary string. */
  function ToBytes(s: string): (b: seq<byte>)
    requires IsBinary(s)
    ensures |b| == |s|
  {
    seq(|s|, i requires 0 <= i < |s| => s[i] as int as byte)
  }

  lemma ToBytesFromBytes(b: seq<byte>)
    ensures ToBytes(FromBytes(b)) == b
  {
    forall i | 0 <= i < |b| ensures (b[i] as char) as int as byte == b[i] {
      assert (b[i] as char) as int == b[i] as int;
    }
  }

  lemma FromBytesToBytes(s: string)
    requires IsBinary(s)
    ensures FromBytes(ToBytes(s)) == s
  {
    forall i | 0 <= i < |s| ensures (s[i] as int as byte) as char == s[i] {
      ByteValue(s[i] as int);
    }
  }

  /** The 64 symbols of the alphabet: A-Z a-z 0-9 + / */
  predicate IsSymbol(c: char) {
    'A' <= c <= 'Z' || 'a' <= c <= 'z' || '0' <= c <= '9' || c == '+' || c == '/'
  }

  /** The symbol for a six-bit value. */
  function Symbol(v: byte): (c: char)
    requires v < 64
    ensures IsSymbol(c)
  {
    if v < 26 then ('A' as int + v as int) as char
    else if v < 52 then ('a' as int + v as int - 26) as char
    else if v < 62 then ('0' as int + v as int - 52) as char
    else if v == 62 then '+'
    else '/'
  }

  /** The six-bit value of a symbol. */
  function SymbolValue(c: char): (v: byte)
    requires IsSymbol(c)
    ensures v < 64
  {
    var x :=
      if 'A' <= c <= 'Z' then c as int - 'A' as int
      else if 'a' <= c <= 'z' then c as int - 'a' as int + 26
      else if '0' <= c <= '9' then c as int - '0' as int + 52
      else if c == '+' then 62
      else 63;
    ByteValue(x);
    x as byte
  }

  lemma SymbolValueOfSymbol(v: byte)
    requires v < 64
    ensures SymbolValue(Symbol(v)) == v
  {
    assert (v as int) as byte == v;
  }

  /** The symbols for a group of three bytes. */
  function EncodeGroup(b0: byte, b1: byte, b2: byte): string {
    [Symbol(b0 >> 2), Symbol(((b0 & 3) << 4) | (b1 >> 4)), Symbol(((b1 & 15) << 2) | (b2 >> 6)),
     Symbol(b2 & 63)]
  }

  /** The symbols of the encoding, without the padding. */
  function EncodeSymbols(b: seq<byte>): (s: string)
    ensures forall i :: 0 <= i < |s| ==> IsSymbol(s[i])
    ensures |s| == if |b| % 3 == 0 then |b| / 3 * 4 else |b| / 3 * 4 + |b| % 3 + 1
    decreases |b|
  {
    if |b| == 0 then ""
    else if |b| == 1 then [Symbol(b[0] >> 2), Symbol((b[0] & 3) << 4)]
    else if |b| == 2 then
      [Symbol(b[0] >> 2), Symbol(((b[0] & 3) << 4) | (b[1] >> 4)), Symbol((b[1] & 15) << 2)]
    else EncodeGroup(b[0], b[1], b[2]) + EncodeSymbols(b[3..])
  }

  /** The `=` characters that complete the last group. */
  function Padding(n: nat): string {
    if n % 3 == 1 then "==" else if n % 3 == 2 then "=" else ""
  }

  /** Base 64 encoding of RFC 4648, section 4. */
  function EncodeBytes(b: seq<byte>): (s: string)
    ensures |s| % 4 == 0
    ensures |s| == 0 <==> |b| == 0
  {
    EncodeSymbols(b) + Padding(|b|)
  }

  /** The three bytes that four symbols stand for. */
  function DecodeGroup(v0: byte, v1: byte, v2: byte, v3: byte): seq<byte> {
    [(v0 << 2) | (v1 >> 4), ((v1 & 15) << 4) | (v2 >> 2), ((v2 & 3) << 6) | v3]
  }

  /** The bytes that a run of symbols stands for, leftover bits dropped. */
  function DecodeSymbols(u: string): seq<byte>
    requires forall i :: 0 <= i < |u| ==> IsSymbol(u[i])
    requires |u| % 4 != 1
    decreases |u|
  {
    if |u| == 0 then []
    else if |u| == 2 then [(SymbolValue(u[0]) << 2) | (SymbolValue(u[1]) >> 4)]
    else if |u| == 3 then
      [(SymbolValue(u[0]) << 2) | (SymbolValue(u[1]) >> 4),
       ((SymbolValue(u[1]) & 15) << 4) | (SymbolValue(u[2]) >> 2)]
    else
      DecodeGroup(SymbolValue(u[0]), SymbolValue(u[1]), SymbolValue(u[2]), SymbolValue(u[3]))
      + DecodeSymbols(u[4..])
  }

  /** The whitespace `atob` ignores: TAB, LF, FF, CR and SPACE. */
  predicate IsAsciiWhitespace(c: char) {
    c == '\t' || c == '\n' || c == '\U{000C}' || c == '\r' || c == ' '
  }

  function RemoveWhitespace(s: string): (r: string)
    ensures forall i :: 0 <= i < |r| ==> !IsAsciiWhitespace(r[i])
    decreases |s|
  {
    if |s| == 0 then ""
    else if IsAsciiWhitespace(s[0]) then RemoveWhitespace(s[1..])
    else [s[0]] + RemoveWhitespace(s[1..])
  }

  /** When the length is a multiple of 4, one or two trailing `=` are dropped. */
  function StripPadding(s: string): string {
    if |s| % 4 == 0 && |s| >= 2 && s[|s| - 1] == '=' && s[|s| - 2] == '=' then s[..|s| - 2]
    else if |s| % 4 == 0 && |s| >= 1 && s[|s| - 1] == '=' then s[..|s| - 1]
    else s
  }

  /** The forgiving-base64 decode. */
  function ForgivingDecode(s: string): Option<seq<byte>> {
    var d := StripPadding(RemoveWhitespace(s));
    if |d| % 4 == 1 || exists i :: 0 <= i < |d| && !IsSymbol(d[i]) then None
    else Some(DecodeSymbols(d))
  }

  /** `btoa(s)`. */
  function Btoa(s: string): (r: Result<string>)
    ensures r.Ok? <==> IsBinary(s)
    ensures r.Err? ==> r.message == InvalidCharacter
    ensures r.Ok? ==> |r.value| % 4 == 0 && (|r.value| == 0 <==> |s| == 0)
  {
    if IsBinary(s) then Ok(EncodeBytes(ToBytes(s))) else Err(InvalidCharacter)
  }

  /** `atob(s)`: a binary string. */
  function Atob(s: string): (r: Result<string>)
    ensures r.Ok? ==> IsBinary(r.value)
  {
    match ForgivingDecode(s)
    case None => Err(InvalidCharacter)
    case Some(b) => Ok(FromBytes(b))
  }

  lemma GroupBits(b0: byte, b1: byte, b2: byte)
    ensures DecodeGroup(b0 >> 2, ((b0 & 3) << 4) | (b1 >> 4), ((b1 & 15) << 2) | (b2 >> 6), b2 & 63)
      == [b0, b1, b2]
  {}

  lemma GroupRoundTrip(b0: byte, b1: byte, b2: byte)
    ensures var g := EncodeGroup(b0, b1, b2);
      DecodeGroup(SymbolValue(g[0]), SymbolValue(g[1]), SymbolValue(g[2]), SymbolValue(g[3]))
      == [b0, b1, b2]
  {
    var v0, v1, v2, v3 := b0 >> 2, ((b0 & 3) << 4) | (b1 >> 4), ((b1 & 15) << 2) | (b2 >> 6), b2 & 63;
    var g := EncodeGroup(b0, b1, b2);
    assert SymbolValue(g[0]) == v0 by { SymbolValueOfSymbol(v0); }
    assert SymbolValue(g[1]) == v1 by { SymbolValueOfSymbol(v1); }
    assert SymbolValue(g[2]) == v2 by { SymbolValueOfSymbol(v2); }
    assert SymbolValue(g[3]) == v3 by { SymbolValueOfSymbol(v3); }
    GroupBits(b0, b1, b2);
  }

  lemma OneByteBits(b0: byte)
    ensures ((b0 >> 2) << 2) | (((b0 & 3) << 4) >> 4) == b0
  {}

  lemma TwoByteBits(b0: byte, b1: byte)
    ensures var v0, v1, v2 := b0 >> 2, ((b0 & 3) << 4) | (b1 >> 4), (b1 & 15) << 2;
      (v0 << 2) | (v1 >> 4) == b0 && ((v1 & 15) << 4) | (v2 >> 2) == b1
  {}

  lemma OneByteRoundTrip(b: seq<byte>)
    requires |b| == 1
    ensures DecodeSymbols(EncodeSymbols(b)) == b
  {
    var v0, v1 := b[0] >> 2, (b[0] & 3) << 4;
    var u := EncodeSymbols(b);
    assert |u| == 2 && u[0] == Symbol(v0) && u[1] == Symbol(v1);
    assert SymbolValue(u[0]) == v0 by { SymbolValueOfSymbol(v0); }
    assert SymbolValue(u[1]) == v1 by { SymbolValueOfSymbol(v1); }
    assert DecodeSymbols(u) == [(SymbolValue(u[0]) << 2) | (SymbolValue(u[1]) >> 4)];
    OneByteBits(b[0]);
  }

  lemma TwoByteRoundTrip(b: seq<byte>)
    requires |b| == 2
    ensures DecodeSymbols(EncodeSymbols(b)) == b
  {
    var v0, v1, v2 := b[0] >> 2, ((b[0] & 3) << 4) | (b[1] >> 4), (b[1] & 15) << 2;
    var u := EncodeSymbols(b);
    assert |u| == 3 && u[0] == Symbol(v0) && u[1] == Symbol(v1) && u[2] == Symbol(v2);
    assert SymbolValue(u[0]) == v0 by { SymbolValueOfSymbol(v0); }
    assert SymbolValue(u[1]) == v1 by { SymbolValueOfSymbol(v1); }
    assert SymbolValue(u[2]) == v2 by { SymbolValueOfSymbol(v2); }
    assert DecodeSymbols(u) == [(SymbolValue(u[0]) << 2) | (SymbolValue(u[1]) >> 4),
                                ((SymbolValue(u[1]) & 15) << 4) | (SymbolValue(u[2]) >> 2)];
    TwoByteBits(b[0], b[1]);
  }

  /** Decoding the symbols recovers every byte. */
  lemma {:induction false} DecodeEncodeSymbols(b: seq<byte>)
    ensures DecodeSymbols(EncodeSymbols(b)) == b
    decreases |b|
  {
    if |b| == 1 {
      OneByteRoundTrip(b);
    } else if |b| == 2 {
      TwoByteRoundTrip(b);
    } else if |b| >= 3 {
      GroupStep(b);
      DecodeEncodeSymbols(b[3..]);
      assert b == [b[0], b[1], b[2]] + b[3..];
    }
  }

  /** Decoding the symbols of three or more bytes gives the first group back, then the rest. */
  lemma GroupStep(b: seq<byte>)
    requires |b| >= 3
    ensures DecodeSymbols(EncodeSymbols(b)) == [b[0], b[1], b[2]] + DecodeSymbols(EncodeSymbols(b[3..]))
  {
    var g := EncodeGroup(b[0], b[1], b[2]);
    var u := EncodeSymbols(b);
    assert u == g + EncodeSymbols(b[3..]);
    assert u[..4] == g && u[4..] == EncodeSymbols(b[3..]);
    GroupRoundTrip(b[0], b[1], b[2]);
  }

  lemma {:induction false} RemoveWhitespaceNoop(s: string)
    requires forall i :: 0 <= i < |s| ==> !IsAsciiWhitespace(s[i])
    ensures RemoveWhitespace(s) == s
    decreases |s|
  {
    if |s| > 0 {
      RemoveWhitespaceNoop(s[1..]);
      assert s == [s[0]] + s[1..];
    }
  }

  /** Removing the padding leaves exactly the symbols. */
  lemma StripPaddingOfEncoding(b: seq<byte>)
    ensures StripPadding(EncodeBytes(b)) == EncodeSymbols(b)
  {
    var u, e := EncodeSymbols(b), EncodeBytes(b);
    if |b| % 3 == 1 {
      assert e[..|e| - 2] == u;
    } else if |b| % 3 == 2 {
      assert e[|e| - 2] == u[|u| - 1] && IsSymbol(u[|u| - 1]);
      assert e[..|e| - 1] == u;
    } else if |b| > 0 {
      assert e == u && IsSymbol(u[|u| - 1]);
    }
  }

  /** `atob` undoes the encoding of any byte sequence. */
  lemma ForgivingDecodeEncode(b: seq<byte>)
    ensures ForgivingDecode(EncodeBytes(b)) == Some(b)
  {
    var e, u := EncodeBytes(b), EncodeSymbols(b);
    assert RemoveWhitespace(e) == e by {
      assert forall i :: 0 <= i < |e| ==> IsSymbol(e[i]) || e[i] == '=';
      RemoveWhitespaceNoop(e);
    }
    var d := StripPadding(RemoveWhitespace(e));
    assert d == u by { StripPaddingOfEncoding(b); }
    assert |d| % 4 != 1;
    assert !exists i :: 0 <= i < |d| && !IsSymbol(d[i]);
    assert DecodeSymbols(u) == b by { DecodeEncodeSymbols(b); }
  }

  /** `atob(btoa(s)) == s` for every binary string. */
  lemma AtobBtoa(s: string)
    requires IsBinary(s)
    ensures Btoa(s).Ok? && Atob(Btoa(s).value) == Ok(s)
  {
    ForgivingDecodeEncode(ToBytes(s));
    FromBytesToBytes(s);
  }

  /** `btoa(String.fromCharCode(...b))` is the encoding of `b`. */
  lemma BtoaFromBytes(b: seq<byte>)
    ensures Btoa(FromBytes(b)) == Ok(EncodeBytes(b))
  {
    ToBytesFromBytes(b);
  }
}
