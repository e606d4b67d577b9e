/**
 * The multi-layer pipeline (src/utils/multiLayerEncryption.ts).  `encode` XOR-encrypts the
 * text, base-64 encodes the ciphertext again, spells it in password-derived tokens, base-64
 * encodes the token string, writes that in Morse code and base-64 encodes the Morse.
 * `decode` undoes the layers in reverse order.  Any error inside either function is
 * rethrown with a fixed prefix before its message.
 */
module MultiLayerEncryption {
  import opened Common
  import JsString
  import Utf8
  import Base64
  import Base64Utils
  import EncryptionUtils
  import TokenUtils
  import MorseUtils

  const EncodingFailed := "Encoding failed: "
  const DecodingFailed := "Failed to decode: "
  const MorseFailed := "Failed to convert morse to text"
  const InvalidAfterMorse := "Invalid base64 format after morse conversion"

  /** The token list both directions derive from the password. */
  function Tokens(password: string): (tokens: seq<string>)
    ensures |tokens| == TokenUtils.DefaultTokenCount
  {
    TokenUtils.TokenList(password, TokenUtils.DefaultTokenCount)
  }

  /** Steps 1 to 5 of `encode`: the base 64 of the token string. */
  function TokenBase64(text: string, password: string): Result<string> {
    var encrypted := EncryptionUtils.Encrypted(text, password);
    var b64Encrypted :- Base64.Btoa(encrypted);
    var tokenString := TokenUtils.Tokenize(b64Encrypted, Tokens(password));
    Base64.Btoa(tokenString)
  }

  /** The body of `encode`'s `try` block. */
  function EncodeSteps(text: string, password: string): Result<string> {
    var tokenB64 :- TokenBase64(text, password);
    Base64.Btoa(MorseUtils.TextToMorse(tokenB64))
  }

  /** `encode(text, password)`: base 64 that `isValidBase64` accepts, or a prefixed error. */
  function Encode(text: string, password: string): (r: Result<string>)
    ensures r.Err? ==> StartsWith(r.message, EncodingFailed)
    ensures r.Ok? ==> Base64Utils.IsValidBase64(r.value)
  {
    match EncodeSteps(text, password)
    case Err(m) => Err(EncodingFailed + m)
    case Ok(e) =>
      Base64Utils.EncodingIsValid(Base64.ToBytes(MorseUtils.TextToMorse(TokenBase64(text, password).value)));
      Ok(e)
  }

  /** Steps 3 to 7 of `decode`: from the token base 64 back to the text. */
  function TokenBase64Decoded(tokenB64: string, password: string): Result<string> {
    var tokenString :- Base64.Atob(tokenB64);
    var b64Encrypted :- TokenUtils.Detokenize(tokenString, Tokens(password));
    var encrypted :- Base64.Atob(b64Encrypted);
    EncryptionUtils.Decrypted(encrypted, password)
  }

  /** The body of `decode`'s `try` block. */
  function DecodeSteps(encoded: string, password: string): Result<string> {
    var morse :- Base64.Atob(encoded);
    var tokenB64 := MorseUtils.MorseToText(morse);
    if tokenB64 == "" then Err(MorseFailed)
    else if !Base64Utils.MatchesBase64Regex(tokenB64) then Err(InvalidAfterMorse)
    else TokenBase64Decoded(tokenB64, password)
  }

  /** `decode(encoded, password)`: every error it throws carries the prefix. */
  function Decode(encoded: string, password: string): (r: Result<string>)
    ensures r.Err? ==> StartsWith(r.message, DecodingFailed)
  {
    match DecodeSteps(encoded, password)
    case Err(m) => Err(DecodingFailed + m)
    case Ok(t) => Ok(t)
  }

  /** A password the token layer can invert: non-empty, no spaces, and its first 90 characters differ once lower-cased. */
  predicate UsablePassword(password: string) {
    var n := if |password| < TokenUtils.DefaultTokenCount then |password| else TokenUtils.DefaultTokenCount;
    |password| > 0 && ' ' !in password && TokenUtils.Distinct(JsString.ToLower(password)[..n])
  }

  /** No lower-case ASCII letter, so the upper-casing Morse layer leaves the text alone. */
  predicate NoLowercase(s: string) {
    forall i :: 0 <= i < |s| ==> !('a' <= s[i] <= 'z')
  }

  /** The Morse layer reproduces a base 64 string exactly when it has no lower-case letter. */
  lemma MorseLayerExact(tokenB64: string)
    requires forall i :: 0 <= i < |tokenB64| ==> Base64.IsSymbol(tokenB64[i]) || tokenB64[i] == '='
    ensures MorseUtils.MorseToText(MorseUtils.TextToMorse(tokenB64)) == tokenB64 <==> NoLowercase(tokenB64)
  {
    if NoLowercase(tokenB64) {
      MorseUtils.MorseRoundTripExact(tokenB64);
    } else {
      var i :| 0 <= i < |tokenB64| && 'a' <= tokenB64[i] <= 'z';
      var r := MorseUtils.MorseToText(MorseUtils.TextToMorse(tokenB64));
      assert tokenB64[i] !in MorseUtils.Keys by {
        assert MorseUtils.KeyIndex(tokenB64[i]) < 0;
      }
      assert tokenB64[i] in tokenB64;
      assert forall c :: c in r ==> c in MorseUtils.Keys;
    }
  }

  /** Decoding the Morse of the final base 64 gives back the token base 64. */
  lemma MorseStage(tokenB64: string)
    requires forall i :: 0 <= i < |tokenB64| ==> Base64.IsSymbol(tokenB64[i]) || tokenB64[i] == '='
    requires NoLowercase(tokenB64)
    ensures Base64.Btoa(MorseUtils.TextToMorse(tokenB64)).Ok?
    ensures var morse := MorseUtils.TextToMorse(tokenB64);
      Base64.Atob(Base64.Btoa(morse).value) == Ok(morse) &&
      MorseUtils.MorseToText(morse) == tokenB64
  {
    var morse := MorseUtils.TextToMorse(tokenB64);
    assert Base64.IsBinary(morse) by {
      forall i | 0 <= i < |morse| ensures morse[i] as int < 0x100 {
        assert morse[i] in morse;
      }
    }
    Base64.AtobBtoa(morse);
    MorseLayerExact(tokenB64);
  }

  /**
   * For a non-empty text the ciphertext is a binary string, and its base 64 decodes back to
   * it and starts with a base 64 symbol.
   */
  lemma CiphertextStage(text: string, password: string)
    requires |text| > 0
    ensures var encrypted := EncryptionUtils.Encrypted(text, password);
      Base64.IsBinary(encrypted) && Base64.Btoa(encrypted).Ok? &&
      Base64.Atob(Base64.Btoa(encrypted).value) == Ok(encrypted) &&
      var b64 := Base64.Btoa(encrypted).value;
      |b64| > 0 && Base64.IsSymbol(b64[0])
  {
    var data := Utf8.Encode(text);
    Utf8.EncodeEmpty(text);
    var masked := EncryptionUtils.Mask(data, EncryptionUtils.KeyStream(password, |data|));
    var encrypted := EncryptionUtils.Encrypted(text, password);
    Base64Utils.EncodingChars(masked);
    Base64.AtobBtoa(encrypted);
    var b := Base64.ToBytes(encrypted);
    Base64Utils.EncodingChars(b);
    assert |b| > 0;
    assert Base64.IsSymbol(Base64.Btoa(encrypted).value[0]);
  }

  /** The token string `encode` builds is never empty. */
  lemma TokenStringNonEmpty(text: string, tokens: seq<string>)
    requires |tokens| >= 2
    requires forall k :: 0 <= k < |tokens| ==> |tokens[k]| > 0
    ensures |TokenUtils.Tokenize(text, tokens)| > 0
  {
    var number := TokenUtils.Value(TokenUtils.ByteDigits(Utf8.Encode(text)), 256);
    var parts := TokenUtils.Spell(TokenUtils.DigitsOrZero(number, |tokens|), tokens);
    assert |parts[0]| > 0;
    if |parts| > 1 {
      JsString.JoinCons(parts[0], parts[1..], ' ');
      assert parts == [parts[0]] + parts[1..];
    }
  }

  /** The Morse layer and its base 64, undone: `decode` reaches its third step with the token base 64. */
  lemma OuterLayersUndone(tokenB64: string, password: string)
    requires forall i :: 0 <= i < |tokenB64| ==> Base64.IsSymbol(tokenB64[i]) || tokenB64[i] == '='
    requires |tokenB64| > 0 && Base64Utils.MatchesBase64Regex(tokenB64) && NoLowercase(tokenB64)
    ensures Base64.Btoa(MorseUtils.TextToMorse(tokenB64)).Ok?
    ensures DecodeSteps(Base64.Btoa(MorseUtils.TextToMorse(tokenB64)).value, password) ==
      TokenBase64Decoded(tokenB64, password)
  {
    MorseStage(tokenB64);
  }

  /** The token base 64 `encode` builds is non-empty base 64 that passes the pattern check. */
  lemma TokenBase64Shape(text: string, password: string)
    requires TokenBase64(text, password).Ok?
    ensures var tokenB64 := TokenBase64(text, password).value;
      (forall i :: 0 <= i < |tokenB64| ==> Base64.IsSymbol(tokenB64[i]) || tokenB64[i] == '=') &&
      |tokenB64| > 0 && Base64Utils.MatchesBase64Regex(tokenB64)
  {
    var encrypted := EncryptionUtils.Encrypted(text, password);
    var b64Encrypted := Base64.Btoa(encrypted).value;
    var tokenString := TokenUtils.Tokenize(b64Encrypted, Tokens(password));
    var b := Base64.ToBytes(tokenString);
    assert TokenBase64(text, password).value == Base64.EncodeBytes(b);
    Base64Utils.EncodingChars(b);
    Base64Utils.EncodingIsValid(b);
    TokenStringNonEmpty(b64Encrypted, Tokens(password));
  }

  /**
   * With a usable password the layers inside the Morse layer invert for a non-empty text,
   * up to a leading U+FEFF that `TextDecoder` drops.
   */
  lemma InnerLayersRoundTrip(text: string, password: string)
    requires UsablePassword(password) && |text| > 0
    requires TokenBase64(text, password).Ok?
    ensures TokenBase64Decoded(TokenBase64(text, password).value, password) == Ok(Utf8.StripBom(text))
  {
    var tokens := Tokens(password);
    var encrypted := EncryptionUtils.Encrypted(text, password);
    CiphertextStage(text, password);
    var b64Encrypted := Base64.Btoa(encrypted).value;
    var tokenString := TokenUtils.Tokenize(b64Encrypted, tokens);
    assert Base64.IsBinary(tokenString);
    Base64.AtobBtoa(tokenString);
    assert TokenUtils.Detokenize(tokenString, tokens) == Ok(b64Encrypted) by {
      TokenUtils.KeyTokensUsable(password, TokenUtils.DefaultTokenCount);
      TokenUtils.NoNulRoundTrip(b64Encrypted, tokens);
      assert Utf8.StripBom(b64Encrypted) == b64Encrypted;
    }
    EncryptionUtils.XorRoundTrip(text, password);
  }

  /**
   * `decode(encode(text, password), password)` is the text, less a leading U+FEFF, when the
   * password is usable, the text is non-empty, and the token base 64 has no lower-case
   * letter for the Morse layer to lose.
   */
  lemma RoundTrip(text: string, password: string)
    requires UsablePassword(password) && |text| > 0
    requires TokenBase64(text, password).Ok? && NoLowercase(TokenBase64(text, password).value)
    ensures Encode(text, password).Ok?
    ensures Decode(Encode(text, password).value, password) == Ok(Utf8.StripBom(text))
  {
    var tokenB64 := TokenBase64(text, password).value;
    TokenBase64Shape(text, password);
    OuterLayersUndone(tokenB64, password);
    InnerLayersRoundTrip(text, password);
  }

  /**
   * Under the same conditions an empty text does not survive: the token layer brings back
   * a single NUL character, which `atob` refuses.
   */
  lemma EmptyTextFails(password: string)
    requires UsablePassword(password)
    requires TokenBase64("", password).Ok? && NoLowercase(TokenBase64("", password).value)
    ensures Encode("", password).Ok?
    ensures Decode(Encode("", password).value, password) == Err(DecodingFailed + Base64.InvalidCharacter)
  {
    var tokenB64 := TokenBase64("", password).value;
    TokenBase64Shape("", password);
    OuterLayersUndone(tokenB64, password);
    EmptyInnerLayers(password);
  }

  /** For the empty text the inner layers stop at the NUL character the token layer returns. */
  lemma EmptyInnerLayers(password: string)
    requires UsablePassword(password)
    requires TokenBase64("", password).Ok?
    ensures TokenBase64Decoded(TokenBase64("", password).value, password) == Err(Base64.InvalidCharacter)
  {
    var tokens := Tokens(password);
    var tokenString := TokenUtils.Tokenize("", tokens);
    EmptyTokenBase64(password);
    Base64.AtobBtoa(tokenString);
    TokenUtils.KeyTokensUsable(password, TokenUtils.DefaultTokenCount);
    TokenUtils.EmptyTextRoundTrip(tokens);
    AtobRefusesNul();
  }

  lemma EmptyTokenBase64(password: string)
    ensures TokenBase64("", password) == Base64.Btoa(TokenUtils.Tokenize("", Tokens(password)))
  {
    assert EncryptionUtils.Encrypted("", password) == "" by {
      assert Utf8.Encode("") == [];
    }
    Base64.BtoaFromBytes([]);
    assert Base64.Btoa("") == Ok("");
  }

  lemma AtobRefusesNul()
    ensures Base64.Atob("\0") == Err(Base64.InvalidCharacter)
  {
    assert Base64.RemoveWhitespace("\0") == "\0";
    assert !Base64.IsSymbol("\0"[0]);
  }

  /** Any input whose Morse reads back as no text at all is refused with its own message. */
  lemma DecodeRejectsEmptyMorse(encoded: string, password: string)
    requires Base64.Atob(encoded).Ok? && MorseUtils.MorseToText(Base64.Atob(encoded).value) == ""
    ensures Decode(encoded, password) == Err(DecodingFailed + MorseFailed)
  {}

  /** The empty input is one of them: it decodes to empty Morse text. */
  lemma DecodeEmptyInput(password: string)
    ensures Decode("", password) == Err(DecodingFailed + MorseFailed)
  {
    assert Base64.ForgivingDecode("") == Some([]) by {
      assert Base64.RemoveWhitespace("") == "";
    }
    assert Base64.Atob("") == Ok("");
    assert JsString.Split("", ' ') == [""];
    assert MorseUtils.MorseToText("") == "";
    DecodeRejectsEmptyMorse("", password);
  }

  /** Morse that reads back as text outside the base 64 pattern is refused with its own message. */
  lemma DecodeRejectsNonBase64(encoded: string, password: string)
    requires Base64.Atob(encoded).Ok?
    requires var t := MorseUtils.MorseToText(Base64.Atob(encoded).value);
      t != "" && !Base64Utils.MatchesBase64Regex(t)
    ensures Decode(encoded, password) == Err(DecodingFailed + InvalidAfterMorse)
  {}

  /** A space as the third byte of the input is written as the symbol `g`. */
  lemma SpaceThirdByte(b: seq<byte>)
    requires |b| >= 3 && b[2] == 0x20
    ensures Base64.EncodeBytes(b)[3] == 'g'
  {
    assert Base64.EncodeSymbols(b)[3] == Base64.Symbol(b[2] & 63);
  }

  /** A digit below 90 is in one of the first nine rounds of a key of ten or more characters. */
  lemma EarlyRound(d: nat, l: nat)
    requires d < 90 && l >= 10
    ensures d / l < 9
  {
    TokenUtils.DivMod(d, l);
    TokenUtils.MulSign(d / l - 8, l);
  }

  /** A text of two or more characters not starting with U+0000 is spelled with two or more tokens. */
  lemma TwoDigits(s: string, base: nat)
    requires |s| >= 2 && s[0] != '\0' && 2 <= base <= 256
    ensures |TokenUtils.DigitsOrZero(TokenUtils.Value(TokenUtils.ByteDigits(Utf8.Encode(s)), 256), base)| >= 2
  {
    assert s == [s[0]] + s[1..];
    Utf8.EncodeAppend(s[0], s[1..]);
    Utf8.EncodeEmpty(s[1..]);
    Utf8.EncodeFirstByte(s);
    var number := TokenUtils.Value(TokenUtils.ByteDigits(Utf8.Encode(s)), 256);
    TokenUtils.ValueAtLeastBase(TokenUtils.ByteDigits(Utf8.Encode(s)), 256);
    TokenUtils.DigitsStep(number, base);
    assert number / base >= 1;
  }

  /** With ten or more password characters each of the 90 tokens has two characters. */
  lemma ShortTokens(password: string, d: nat)
    requires |password| >= 10 && d < TokenUtils.DefaultTokenCount
    ensures |Tokens(password)[d]| == 2
  {
    var base := JsString.ToLower(password);
    EarlyRound(d, |base|);
    assert Tokens(password)[d] == TokenUtils.TokenAt(base, d);
  }

  /** With ten or more password characters the token string has a space as its third character. */
  lemma TokenStringSpace(s: string, password: string)
    requires |password| >= 10 && |s| >= 2 && s[0] != '\0'
    ensures var tokenString := TokenUtils.Tokenize(s, Tokens(password));
      |tokenString| >= 3 && tokenString[2] == ' '
  {
    var tokens := Tokens(password);
    var number := TokenUtils.Value(TokenUtils.ByteDigits(Utf8.Encode(s)), 256);
    var ds := TokenUtils.DigitsOrZero(number, |tokens|);
    TwoDigits(s, |tokens|);
    var parts := TokenUtils.Spell(ds, tokens);
    ShortTokens(password, ds[0]);
    JsString.JoinCons(parts[0], parts[1..], ' ');
    assert parts == [parts[0]] + parts[1..];
  }

  /**
   * With ten or more password characters the first token has two characters, so the first
   * space of the token string is its third byte and the token base 64 holds a `g`: for such
   * a password the condition of `RoundTrip` never holds.
   */
  lemma LongPasswordLosesCase(text: string, password: string)
    requires |password| >= 10 && |text| > 0
    requires TokenBase64(text, password).Ok?
    ensures !NoLowercase(TokenBase64(text, password).value)
  {
    CiphertextStage(text, password);
    var b64 := Base64.Btoa(EncryptionUtils.Encrypted(text, password)).value;
    var tokenString := TokenUtils.Tokenize(b64, Tokens(password));
    TokenStringSpace(b64, password);
    var b := Base64.ToBytes(tokenString);
    assert b[2] == 0x20;
    SpaceThirdByte(b);
    assert TokenBase64(text, password).value[3] == 'g';
  }
}
