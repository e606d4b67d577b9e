/**
 * The Unicode-safe base 64 helpers (src/utils/base64Utils.ts): text is taken to its UTF-8
 * bytes before `btoa` and read back with strict UTF-8 decoding after `atob`; `isValidBase64`
 * is a regular-expression test plus a length check.
 */
module Base64Utils {
  import opened Common
  import Utf8
  import Base64

  const EncodeFailed := "Failed to encode string"
  const DecodeFailed := "Failed to decode string"

  /** `s` is symbols up to `k` and `=` from there on, at most two of them. */
  predicate SplitsAt(s: string, k: int) {
    0 <= k <= |s| && |s| - k <= 2 &&
    (forall i :: 0 <= i < k ==> Base64.IsSymbol(s[i])) &&
    (forall i :: k <= i < |s| ==> s[i] == '=')
  }

  /** `/^[A-Za-z0-9+/]*={0,2}$/.test(s)`. */
  predicate MatchesBase64Regex(s: string)
    ensures MatchesBase64Regex(s) ==> forall i :: 0 <= i < |s| ==> Base64.IsSymbol(s[i]) || s[i] == '='
    ensures MatchesBase64Regex(s) ==> forall i, j :: 0 <= i < j < |s| && s[i] == '=' ==> s[j] == '='
  {
    exists k | 0 <= k <= |s| :: SplitsAt(s, k)
  }

  /** `isValidBase64(s)`. */
  predicate IsValidBase64(s: string)
    ensures IsValidBase64(s) ==> Base64.Atob(s).Ok?
  {
    if MatchesBase64Regex(s) && |s| % 4 == 0 then ValidBase64Decodes(s); true else false
  }

  /** The number of `=` at the end of `s`. */
  function PadRun(s: string): (n: nat)
    ensures n <= |s|
    ensures forall i :: |s| - n <= i < |s| ==> s[i] == '='
    ensures n < |s| ==> s[|s| - n - 1] != '='
    decreases |s|
  {
    if |s| == 0 || s[|s| - 1] != '=' then 0 else PadRun(s[..|s| - 1]) + 1
  }

  /** The regular expression matches exactly when the trailing `=` run is at most two long and symbols precede it. */
  lemma RegexDecided(s: string)
    ensures MatchesBase64Regex(s) <==>
      PadRun(s) <= 2 && forall i :: 0 <= i < |s| - PadRun(s) ==> Base64.IsSymbol(s[i])
  {
    var n := PadRun(s);
    if MatchesBase64Regex(s) {
      var k :| 0 <= k <= |s| && SplitsAt(s, k);
      assert k == 0 || s[k - 1] != '=';
      assert k == |s| - n;
    }
    if n <= 2 && forall i :: 0 <= i < |s| - n ==> Base64.IsSymbol(s[i]) {
      assert SplitsAt(s, |s| - n);
    }
  }

  /** Every output of `btoa` passes `isValidBase64`. */
  lemma EncodingIsValid(b: seq<byte>)
    ensures IsValidBase64(Base64.EncodeBytes(b))
  {
    var e := Base64.EncodeBytes(b);
    assert SplitsAt(e, |Base64.EncodeSymbols(b)|);
  }

  lemma ValidHasNoWhitespace(s: string, k: int)
    requires SplitsAt(s, k)
    ensures Base64.RemoveWhitespace(s) == s
  {
    forall i | 0 <= i < |s| ensures !Base64.IsAsciiWhitespace(s[i]) {
      if i < k { assert Base64.IsSymbol(s[i]); }
    }
    Base64.RemoveWhitespaceNoop(s);
  }

  lemma ValidStripsTo(s: string, k: int)
    requires SplitsAt(s, k) && |s| % 4 == 0
    ensures Base64.StripPadding(s) == s[..k]
  {
    if k == |s| - 2 {
      assert s[|s| - 1] == '=' && s[|s| - 2] == '=';
    } else if k == |s| - 1 {
      assert s[|s| - 1] == '=';
      assert |s| >= 2 && Base64.IsSymbol(s[|s| - 2]);
    } else if |s| > 0 {
      assert Base64.IsSymbol(s[|s| - 1]);
    }
  }

  /** `btoa` writes symbols and `=` only, so its output is itself a binary string. */
  lemma EncodingChars(b: seq<byte>)
    ensures forall i :: 0 <= i < |Base64.EncodeBytes(b)| ==>
      Base64.IsSymbol(Base64.EncodeBytes(b)[i]) || Base64.EncodeBytes(b)[i] == '='
    ensures Base64.IsBinary(Base64.EncodeBytes(b))
  {
    var e := Base64.EncodeBytes(b);
    assert SplitsAt(e, |Base64.EncodeSymbols(b)|);
  }

  /** Whatever passes the pattern and the length test, `atob` accepts. */
  lemma ValidBase64Decodes(s: string)
    requires MatchesBase64Regex(s) && |s| % 4 == 0
    ensures Base64.Atob(s).Ok?
  {
    var k :| 0 <= k <= |s| && SplitsAt(s, k);
    var d := Base64.StripPadding(Base64.RemoveWhitespace(s));
    assert d == s[..k] by {
      ValidHasNoWhitespace(s, k);
      ValidStripsTo(s, k);
    }
    assert Base64.ForgivingDecode(s).Some? by {
      assert |d| % 4 != 1;
      assert !exists i :: 0 <= i < |d| && !Base64.IsSymbol(d[i]);
    }
  }

  /** The empty string passes `isValidBase64`. */
  lemma EmptyIsValid()
    ensures IsValidBase64("")
  {
    assert SplitsAt("", 0);
  }

  /**
   * `safeBase64Encode(s)`: `unescape(encodeURIComponent(s))` is the binary string of the
   * UTF-8 bytes of `s`, which `btoa` always accepts.
   */
  function SafeBase64Encode(s: string): (r: Result<string>)
    ensures r.Ok? && IsValidBase64(r.value)
  {
    var binary := Base64.FromBytes(Utf8.Encode(s));
    Base64.BtoaFromBytes(Utf8.Encode(s));
    EncodingIsValid(Utf8.Encode(s));
    match Base64.Btoa(binary)
    case Err(_) => Err(EncodeFailed)
    case Ok(e) => Ok(e)
  }

  /**
   * `safeBase64Decode(s)`: `atob`, then `decodeURIComponent(escape(.))`, which reads the
   * bytes as UTF-8 and throws on a malformed sequence; any failure becomes one message.
   */
  function SafeBase64Decode(s: string): (r: Result<string>)
    ensures r.Err? ==> r.message == DecodeFailed
    ensures r.Ok? ==> Base64.Atob(s).Ok?
  {
    match Base64.Atob(s)
    case Err(_) => Err(DecodeFailed)
    case Ok(binary) =>
      match Utf8.DecodeStrict(Base64.ToBytes(binary))
      case None => Err(DecodeFailed)
      case Some(t) => Ok(t)
  }

  /** `safeBase64Decode(safeBase64Encode(s)) == s` for every string. */
  lemma SafeRoundTrip(s: string)
    ensures SafeBase64Decode(SafeBase64Encode(s).value) == Ok(s)
  {
    var b := Utf8.Encode(s);
    Base64.BtoaFromBytes(b);
    Base64.ForgivingDecodeEncode(b);
    Base64.ToBytesFromBytes(b);
    Utf8.DecodeStrictEncode(s);
  }

  /** A decodable string whose bytes are not UTF-8 is refused with the fixed message. */
  lemma SafeDecodeRejectsMalformed(s: string)
    requires Base64.Atob(s).Ok? && Utf8.DecodeStrict(Base64.ToBytes(Base64.Atob(s).value)).None?
    ensures SafeBase64Decode(s) == Err(DecodeFailed)
  {}
}
