/**
 * The hex codec (src/utils/hexUtils.ts): UTF-8 bytes written as two lower-case hex digits
 * each, read back pair by pair with `parseInt(pair, 16)` stored into a `Uint8Array`.
 */
module HexUtils {
  import opened Common
  import JsString
  import Utf8

  const InvalidLength := "Invalid hex string length"

  /** The lower-case digit `byte.toString(16)` uses for v. */
  function HexDigit(v: nat): (c: char)
    requires v < 16
  {
    if v < 10 then ('0' as int + v) as char else ('a' as int + v - 10) as char
  }

  /** `/[0-9a-fA-F]/`. */
  predicate IsHexDigit(c: char) {
    '0' <= c <= '9' || 'a' <= c <= 'f' || 'A' <= c <= 'F'
  }

  /** The value of a hex digit of either case. */
  function HexValue(c: char): (v: nat)
    requires IsHexDigit(c)
    ensures v < 16
  {
    if '0' <= c <= '9' then c as int - '0' as int
    else if 'a' <= c <= 'f' then c as int - 'a' as int + 10
    else c as int - 'A' as int + 10
  }

  /** `byte.toString(16).padStart(2, '0')` for every byte, joined. */
  function BytesToHex(b: seq<byte>): (h: string)
    ensures |h| == 2 * |b|
  {
    seq(2 * |b|, i requires 0 <= i < 2 * |b| =>
      var v := b[i / 2] as int;
      HexDigit(if i % 2 == 0 then v / 16 else v % 16))
  }

  /** `stringToHex(s)`. */
  function StringToHex(s: string): (h: string)
    ensures |h| == 2 * |Utf8.Encode(s)|
    ensures forall i :: 0 <= i < |h| ==> '0' <= h[i] <= '9' || 'a' <= h[i] <= 'f'
  {
    BytesToHex(Utf8.Encode(s))
  }

  /** `isValidHex(s)`: `/^[0-9a-fA-F]*$/` and an even length. */
  predicate IsValidHex(s: string)
    ensures IsValidHex(s) ==> HexDecoded(s).Ok?
  {
    (forall i :: 0 <= i < |s| ==> IsHexDigit(s[i])) && |s| % 2 == 0
  }

  /**
   * `parseInt(c0 + c1, 16)`: leading white space skipped, an optional sign, an optional
   * `0x`/`0X` prefix, then the longest run of hex digits; `None` stands for `NaN`.
   */
  function ParsePair(c0: char, c1: char): (r: Option<int>)
    ensures r.Some? ==> -15 <= r.value <= 255
  {
    if JsString.IsJsWhitespace(c0) then (if IsHexDigit(c1) then Some(HexValue(c1)) else None)
    else if c0 == '+' then (if IsHexDigit(c1) then Some(HexValue(c1)) else None)
    else if c0 == '-' then (if IsHexDigit(c1) then Some(0 - HexValue(c1) as int) else None)
    else if c0 == '0' && (c1 == 'x' || c1 == 'X') then None
    else if IsHexDigit(c0) then
      (if IsHexDigit(c1) then Some(16 * HexValue(c0) + HexValue(c1)) else Some(HexValue(c0)))
    else None
  }

  /** Storing a number into a `Uint8Array`: `NaN` becomes 0, anything else is taken modulo 256. */
  function ToUint8(r: Option<int>): byte {
    match r
    case None => 0
    case Some(v) => (v % 256) as byte
  }

  /** The bytes `hexToString` fills in for an even-length input. */
  function HexBytes(hex: string): (b: seq<byte>)
    requires |hex| % 2 == 0
    ensures |b| == |hex| / 2
  {
    seq(|hex| / 2, k requires 0 <= k < |hex| / 2 => ToUint8(ParsePair(hex[2 * k], hex[2 * k + 1])))
  }

  /** What `hexToString(hex)` returns or throws. */
  function HexDecoded(hex: string): Result<string> {
    if |hex| % 2 != 0 then Err(InvalidLength) else Ok(Utf8.TextDecode(HexBytes(hex)))
  }

  method HexToString(hex: string) returns (r: Result<string>)
    ensures r == HexDecoded(hex)
  {
    if |hex| % 2 != 0 {
      return Err(InvalidLength);
    }
    var bytes := new byte[|hex| / 2];
    var i := 0;
    while i < |hex|
      invariant 0 <= i <= |hex| && i % 2 == 0
      invariant forall k :: 0 <= k < i / 2 ==> bytes[k] == ToUint8(ParsePair(hex[2 * k], hex[2 * k + 1]))
    {
      bytes[i / 2] := ToUint8(ParsePair(hex[i], hex[i + 1]));
      i := i + 2;
    }
    assert bytes[..] == HexBytes(hex);
    r := Ok(Utf8.TextDecode(bytes[..]));
  }

  /** An odd-length input is rejected. */
  lemma OddLengthFails(hex: string)
    requires |hex| % 2 == 1
    ensures HexDecoded(hex) == Err(InvalidLength)
  {}

  lemma HexDigitValue(v: nat)
    requires v < 16
    ensures IsHexDigit(HexDigit(v)) && HexValue(HexDigit(v)) == v
  {}

  /** On valid input each pair is read as two digits of either case, high nibble first. */
  lemma ValidPair(c0: char, c1: char)
    requires IsHexDigit(c0) && IsHexDigit(c1)
    ensures ToUint8(ParsePair(c0, c1)) as int == 16 * HexValue(c0) + HexValue(c1)
  {
    var v := 16 * HexValue(c0) + HexValue(c1);
    assert ParsePair(c0, c1) == Some(v);
    assert v % 256 == v;
    ByteValue(v % 256);
  }

  lemma ByteNibbles(b: byte)
    ensures ((b as int / 16) * 16 + b as int % 16) % 256 == b as int
    ensures (b as int) as byte == b
  {}

  /** One byte's two hex digits read back as that byte. */
  lemma PairOfByte(b: byte)
    ensures ToUint8(ParsePair(HexDigit(b as int / 16), HexDigit(b as int % 16))) == b
  {
    var v := b as int;
    HexDigitValue(v / 16);
    HexDigitValue(v % 16);
    ValidPair(HexDigit(v / 16), HexDigit(v % 16));
    var r := ToUint8(ParsePair(HexDigit(v / 16), HexDigit(v % 16)));
    assert r as int == v;
    assert (r as int) as byte == r;
  }

  lemma HexAt(b: seq<byte>, k: nat)
    requires k < |b|
    ensures BytesToHex(b)[2 * k] == HexDigit(b[k] as int / 16)
    ensures BytesToHex(b)[2 * k + 1] == HexDigit(b[k] as int % 16)
  {
    assert (2 * k) / 2 == k && (2 * k) % 2 == 0;
    assert (2 * k + 1) / 2 == k && (2 * k + 1) % 2 == 1;
  }

  /** Reading the hex of any bytes gives the bytes back. */
  lemma HexBytesOfBytesToHex(b: seq<byte>)
    ensures HexBytes(BytesToHex(b)) == b
  {
    var h := BytesToHex(b);
    forall k | 0 <= k < |b|
      ensures HexBytes(h)[k] == b[k]
    {
      HexAt(b, k);
      PairOfByte(b[k]);
    }
  }

  /** `stringToHex` always yields valid hex. */
  lemma StringToHexValid(s: string)
    ensures IsValidHex(StringToHex(s))
  {}

  /** `hexToString(stringToHex(s))` is `s`, less a leading U+FEFF that `TextDecoder` skips. */
  lemma HexRoundTrip(s: string)
    ensures HexDecoded(StringToHex(s)) == Ok(Utf8.StripBom(s))
  {
    HexBytesOfBytesToHex(Utf8.Encode(s));
    Utf8.TextDecodeEncode(s);
  }

  /** `toLowerCase` on a hex digit. */
  function LowerHexDigit(c: char): char {
    if 'A' <= c <= 'F' then (c as int + 32) as char else c
  }

  /** A valid pair, decoded and written out again, comes back in lower case. */
  lemma PairRewritten(c0: char, c1: char)
    requires IsHexDigit(c0) && IsHexDigit(c1)
    ensures var v := ToUint8(ParsePair(c0, c1)) as int;
      HexDigit(v / 16) == LowerHexDigit(c0) && HexDigit(v % 16) == LowerHexDigit(c1)
  {
    ValidPair(c0, c1);
    var hi, lo := HexValue(c0), HexValue(c1);
    assert (16 * hi + lo) / 16 == hi && (16 * hi + lo) % 16 == lo;
    DigitOfValue(c0);
    DigitOfValue(c1);
  }

  lemma DigitOfValue(c: char)
    requires IsHexDigit(c)
    ensures HexDigit(HexValue(c)) == LowerHexDigit(c)
  {
    if 'A' <= c <= 'F' {
      assert HexValue(c) == c as int - 'A' as int + 10;
    }
  }

  /** Valid hex, decoded and written out again, comes back in lower case. */
  lemma BytesToHexOfHexBytes(hex: string)
    requires IsValidHex(hex)
    ensures BytesToHex(HexBytes(hex)) == seq(|hex|, i requires 0 <= i < |hex| => LowerHexDigit(hex[i]))
  {
    var b := HexBytes(hex);
    forall i | 0 <= i < |hex|
      ensures BytesToHex(b)[i] == LowerHexDigit(hex[i])
    {
      var k := i / 2;
      assert 2 * k == i || 2 * k + 1 == i;
      PairRewritten(hex[2 * k], hex[2 * k + 1]);
    }
  }
}
