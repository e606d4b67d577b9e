# A verified model of the multi-layer text obfuscator

This project is a Dafny model of the text-obfuscation utilities in `src/utils/` of a small
TypeScript web application. A text and a password pass through these layers:

- an XOR mask derived from the password (`encryptionUtils.ts`);
- base 64;
- a radix re-encoding into password-derived tokens (`tokenUtils.ts`);
- base 64;
- Morse code (`morseUtils.ts`);
- base 64 once more (`multiLayerEncryption.ts`).

Three further utilities are modelled alongside: a keyed substitution cipher
(`substituionCipher.ts`), a hex codec (`hexUtils.ts`) and Unicode-safe base 64 helpers
(`base64Utils.ts`).

The model has one module per source file. Two library modules stand for what the browser
provides:

- `Utf8`: `TextEncoder`, `TextDecoder` and the strict decoding behind `decodeURIComponent`.
  `TextDecoder` is the WHATWG UTF-8 decode followed by the removal of one leading U+FEFF,
  which is what its default byte-order-mark handling does.
- `Base64`: `btoa` and `atob`, using the RFC 4648 section 4 encoding and the WHATWG
  forgiving-base64 decode.

A third module, `JsString`, holds the string operations the code relies on: `split`, `join`,
`trim`, `String(n)` and `toLowerCase`.

The model takes each source file's own form:

- **Loops become methods.** These are the key-derivation and XOR loops, the token loops and
  the big-number loops, the reverse Morse table, the Fisher-Yates shuffle over an `array`, and
  the stride-2 hex loop. Each method is proved equal to a specification function.
- **Expression pipelines become functions.** These are the Morse conversions,
  `applySubstitution`, the base 64 helpers and the two pipeline functions.
- **Thrown errors become values.** A `Result` carries either the value or the message, and
  the pipeline's `try`/`catch` adds its prefix to every message.

What the proofs establish, in the system's terms:

- **Each layer inverts, up to what `TextDecoder` and the big number forget.**
  - The XOR mask: `xorDecrypt(xorEncrypt(p, pw), pw)` is `p` without a leading U+FEFF, since
    `TextDecoder` takes it for a byte order mark. It is exactly `p` when `p` does not start
    with U+FEFF.
  - Base 64, for every byte string.
  - Hex: `hexToString(stringToHex(s))` is `s` without a leading U+FEFF.
  - The safe base 64 pair, exactly, for every string.
  - The substitution, for every text and password.
  - Tokens, given tokens that are pairwise distinct, non-blank and free of spaces. The number
    the bytes are read as forgets leading zero bytes, so leading U+0000 characters are lost.
    A text made only of them comes back as a single U+0000. Any other text comes back without
    its leading U+0000 characters and then without a leading U+FEFF. `TokenListDistinct` says exactly when a password
    yields distinct tokens: its first min(90, |pw|) lower-cased characters must be pairwise
    distinct. `KeyTokensUsable` adds that a non-empty password without spaces then yields
    usable tokens.
- **The Morse layer loses case.** `morseToText(textToMorse(t))` is `t` with every character
  outside `A-Z a-z 0-9 + / =` removed and the rest upper-cased.
  - The Morse step therefore reproduces a base 64 string exactly when that string has no
    lower-case letter (`MorseLayerExact`).
  - The full round trip is proved for a non-empty `t` and such a password under that
    condition (`RoundTrip`): `decode(encode(t, pw), pw)` is `t` without a leading U+FEFF. The
    condition is on the token base 64 `encode` builds internally; it is not a property of `t`
    alone.
  - For a password of ten or more characters the condition never holds
    (`LongPasswordLosesCase`). Every token then has two characters, and the ciphertext's base 64
    spells at least two digits. So the token string has a space at index 2, and `btoa` turns a
    space at index 2 into a lower-case `g`. The Morse layer therefore loses case for such
    passwords: `decode` works on an upper-cased token base 64, not the one `encode` built, and
    `RoundTrip` does not apply.
- **The empty text does not survive.** The token layer gives it back as a single U+0000,
  which `atob` refuses. So, under the same conditions on the password and the token base 64,
  `encode("", pw)` succeeds and `decode` fails on its result with
  `"Failed to decode: InvalidCharacterError"` (`EmptyTextFails`).
- **Other `decode` failures:**
  - an input whose Morse reads back as empty text, the empty input among them, is refused as
    "Failed to convert morse to text";
  - Morse that reads back as text outside the base 64 pattern is refused with its own message.
- **Properties of the shuffle and the substitution key.**
  - The Fisher-Yates shuffle only permutes the alphabet.
  - The substitution key is a bijection of the 65-character alphabet onto itself.
  - The key depends on the password only through its char-code sum.
- **Properties of the derived XOR key.** It repeats with period 32, keys of two lengths agree
  on their common prefix, and byte `j` is the XOR of the password bytes at positions
  congruent to `j` mod 32.

`multiLayerEncryption.ts` composes XOR, tokens and Morse and computes no checksum. The
substitution cipher and the hex codec are standalone utilities that no pipeline stage calls.

## Model

| member | source | states |
|---|---|---|
| JsString.Split | src/utils/tokenUtils.ts:52 | `split(' ')` yields at least one piece, no piece contains the separator, and joining the pieces with it gives the string back |
| JsString.SplitJoin | src/utils/tokenUtils.ts:44-52 | splitting a `join(' ')` of space-free pieces gives exactly those pieces back |
| JsString.JoinWithin | src/utils/morseUtils.ts:32 | `join` adds no character beyond those of the pieces and the separator |
| JsString.SplitBlank | src/utils/tokenUtils.ts:52 | a string of white space splits into pieces that `trim` empties |
| JsString.ToLower | src/utils/tokenUtils.ts:5 | `toLowerCase` keeps the length |
| JsString.DecimalString | src/utils/tokenUtils.ts:8 | `String(n)` is a non-empty run of decimal digits with no leading zero for n > 0 |
| JsString.DecimalRoundTrip | src/utils/tokenUtils.ts:8 | reading the numeral `String(n)` gives `n` back |
| JsString.DecimalStringInjective | src/utils/tokenUtils.ts:8 | distinct round numbers have distinct numerals |
| Utf8.Encode | src/utils/encryptionUtils.ts:21-22 | `TextEncoder` writes between one and four bytes per character of the text |
| Utf8.EncodeChar | src/utils/encryptionUtils.ts:21-22 | `TextEncoder` writes one to four bytes per code point |
| Utf8.DecodeStep | src/utils/encryptionUtils.ts:42-43 | each decoder step consumes at least one byte and no more than remain |
| Utf8.Decode | src/utils/encryptionUtils.ts:42-43 | the WHATWG UTF-8 decode under `TextDecoder` never fails and yields at most one character per byte |
| Utf8.DecodeEncodedChar | src/utils/encryptionUtils.ts:42-43 | the decoder reads back exactly the code point the encoder wrote, as well-formed, consuming its bytes |
| Utf8.DecodeEncode | src/utils/encryptionUtils.ts:42-43 | the WHATWG decode of what `TextEncoder` produced gives the original string |
| Utf8.TextDecode | src/utils/encryptionUtils.ts:42-43 | `TextDecoder.decode` never fails and yields at most one character per byte |
| Utf8.TextDecodeSkipsBom | src/utils/encryptionUtils.ts:42-43 | bytes that start with EF BB BF decode as the bytes after them: the mark is dropped |
| Utf8.TextDecodeEncode | src/utils/encryptionUtils.ts:21-43 | `TextDecoder` gives back what `TextEncoder` encoded, less one leading U+FEFF |
| Utf8.DecodeStrictEncode | src/utils/base64Utils.ts:14 | the strict decoder behind `decodeURIComponent` accepts every encoded string and returns it |
| Utf8.EncodeFirstByte | src/utils/tokenUtils.ts:23-26 | only a text starting with U+0000 encodes to a leading zero byte |
| Utf8.EncodeEmpty | src/utils/tokenUtils.ts:19 | a non-empty text encodes to at least one byte |
| Base64.FromBytes | src/utils/encryptionUtils.ts:30 | `String.fromCharCode(...b)` is a binary string of the same length |
| Base64.ToBytes | src/utils/encryptionUtils.ts:34 | `charCodeAt` over a binary string keeps its length |
| Base64.ToBytesFromBytes | src/utils/encryptionUtils.ts:30-34 | reading back the char codes of `fromCharCode(...b)` gives `b` |
| Base64.FromBytesToBytes | src/utils/encryptionUtils.ts:30-34 | a binary string is rebuilt from its char codes |
| Base64.Symbol | src/utils/encryptionUtils.ts:30 | every six-bit value has a base 64 symbol |
| Base64.SymbolValue | src/utils/encryptionUtils.ts:34 | every symbol stands for a six-bit value |
| Base64.SymbolValueOfSymbol | src/utils/encryptionUtils.ts:30-34 | a symbol reads back as the value it was written for |
| Base64.EncodeSymbols | src/utils/encryptionUtils.ts:30 | `btoa`'s symbols are all in the alphabet and number 4 per 3 bytes plus 2 or 3 for a trailing partial group |
| Base64.EncodeBytes | src/utils/encryptionUtils.ts:30 | `btoa`'s output length is a multiple of 4 and zero exactly for no bytes |
| Base64.RemoveWhitespace | src/utils/encryptionUtils.ts:34 | `atob` discards all ASCII white space before decoding |
| Base64.Btoa | src/utils/encryptionUtils.ts:30 | `btoa` throws InvalidCharacterError exactly for a non-binary string, and otherwise writes a multiple of four characters, none exactly for the empty string |
| Base64.Atob | src/utils/encryptionUtils.ts:34 | whatever `atob` returns is a binary string |
| Base64.GroupRoundTrip | src/utils/encryptionUtils.ts:30-34 | four symbols written for three bytes decode to those three bytes |
| Base64.OneByteRoundTrip | src/utils/encryptionUtils.ts:30-34 | a trailing single byte survives its two symbols |
| Base64.TwoByteRoundTrip | src/utils/encryptionUtils.ts:30-34 | two trailing bytes survive their three symbols |
| Base64.GroupStep | src/utils/encryptionUtils.ts:30-34 | decoding the symbols of three or more bytes gives the first group, then the rest |
| Base64.DecodeEncodeSymbols | src/utils/encryptionUtils.ts:30-34 | decoding the symbols of any bytes recovers every byte |
| Base64.RemoveWhitespaceNoop | src/utils/encryptionUtils.ts:34 | a string without white space is left alone by `atob`'s first step |
| Base64.StripPaddingOfEncoding | src/utils/encryptionUtils.ts:30-34 | dropping the `=` padding of `btoa`'s output leaves exactly its symbols |
| Base64.ForgivingDecodeEncode | src/utils/encryptionUtils.ts:30-34 | the forgiving decode undoes the encoding of any bytes |
| Base64.AtobBtoa | src/utils/encryptionUtils.ts:30-34 | `atob(btoa(s)) == s` for every binary string, and `btoa` accepts it |
| Base64.BtoaFromBytes | src/utils/encryptionUtils.ts:30 | `btoa(String.fromCharCode(...b))` succeeds with the encoding of `b` |
| EncryptionUtils.Fold | src/utils/encryptionUtils.ts:8-11 | the accumulator always has 32 bytes |
| EncryptionUtils.KeyStream | src/utils/encryptionUtils.ts:13-17 | the derived key has exactly the requested length |
| EncryptionUtils.Mask | src/utils/encryptionUtils.ts:25-28 | the XOR step keeps the number of bytes |
| EncryptionUtils.DeriveKey | src/utils/encryptionUtils.ts:3-18 | the two loops leave a fresh array holding the accumulator tiled to the length |
| EncryptionUtils.XorBytes | src/utils/encryptionUtils.ts:25-28 | the byte loop fills a fresh array with `data[i] ^ key[i]` |
| EncryptionUtils.XorEncrypt | src/utils/encryptionUtils.ts:20-31 | `xorEncrypt` returns the base 64 of the masked UTF-8 bytes |
| EncryptionUtils.XorDecrypt | src/utils/encryptionUtils.ts:33-44 | `xorDecrypt` fails exactly when `atob` does, else returns what `TextDecoder` makes of the unmasked bytes |
| EncryptionUtils.FoldIsColumnXor | src/utils/encryptionUtils.ts:8-11 | accumulator byte j is the XOR of the bytes at positions congruent to j mod 32 |
| EncryptionUtils.KeyColumns | src/utils/encryptionUtils.ts:8-16 | key byte i is the XOR of the password bytes at positions congruent to i mod 32 |
| EncryptionUtils.KeyPeriodic | src/utils/encryptionUtils.ts:14-16 | the key repeats with period 32 |
| EncryptionUtils.KeyPrefix | src/utils/encryptionUtils.ts:13-16 | a shorter key for the same password is a prefix of a longer one |
| EncryptionUtils.EmptyPasswordKey | src/utils/encryptionUtils.ts:8-16 | an empty password gives an all-zero key, so masking changes nothing |
| EncryptionUtils.MaskTwice | src/utils/encryptionUtils.ts:26-28 | masking twice with the same key restores the data |
| EncryptionUtils.XorRoundTrip | src/utils/encryptionUtils.ts:20-44 | `xorDecrypt(xorEncrypt(p, pw), pw)` is `p` less one leading U+FEFF, for every text and password |
| EncryptionUtils.XorRoundTripExact | src/utils/encryptionUtils.ts:20-44 | `xorDecrypt(xorEncrypt(p, pw), pw) == p` for every text not starting with U+FEFF |
| EncryptionUtils.LeadingBomLost | src/utils/encryptionUtils.ts:20-44 | the text U+FEFF `a` comes back as `a`, for every password |
| HexUtils.HexValue | src/utils/hexUtils.ts:18 | a hex digit of either case is worth less than 16 |
| HexUtils.BytesToHex | src/utils/hexUtils.ts:6-8 | two characters per byte |
| HexUtils.StringToHex | src/utils/hexUtils.ts:3-9 | `stringToHex` writes twice as many characters as UTF-8 bytes, all in `0-9a-f` |
| HexUtils.ParsePair | src/utils/hexUtils.ts:18 | `parseInt(pair, 16)` is NaN or a number from -15 to 255 |
| HexUtils.HexBytes | src/utils/hexUtils.ts:16-19 | the loop fills one byte per pair |
| HexUtils.HexToString | src/utils/hexUtils.ts:11-23 | `hexToString` refuses odd lengths and otherwise returns what `TextDecoder` makes of the bytes the stride-2 loop fills |
| HexUtils.OddLengthFails | src/utils/hexUtils.ts:12-14 | an odd-length input fails with "Invalid hex string length" |
| HexUtils.HexDigitValue | src/utils/hexUtils.ts:7 | each digit `toString(16)` writes is a hex digit worth its value |
| HexUtils.ValidPair | src/utils/hexUtils.ts:18 | a pair of hex digits of either case is stored as 16 * high + low |
| HexUtils.PairOfByte | src/utils/hexUtils.ts:7-18 | a byte's two padded hex digits are read back as that byte |
| HexUtils.HexAt | src/utils/hexUtils.ts:6-8 | pair k of the output holds the high and low nibble of byte k |
| HexUtils.HexBytesOfBytesToHex | src/utils/hexUtils.ts:3-19 | reading the hex of any bytes gives the same bytes |
| HexUtils.IsValidHex | src/utils/hexUtils.ts:25-27 | whatever `isValidHex` approves, `hexToString` accepts |
| HexUtils.StringToHexValid | src/utils/hexUtils.ts:3-27 | `stringToHex` output always satisfies `isValidHex` |
| HexUtils.HexRoundTrip | src/utils/hexUtils.ts:3-23 | `hexToString(stringToHex(s))` is `s` less one leading U+FEFF, for every string |
| HexUtils.DigitOfValue | src/utils/hexUtils.ts:7-18 | a digit's value written out again is the digit in lower case |
| HexUtils.PairRewritten | src/utils/hexUtils.ts:7-18 | a valid pair decoded and written out again is the pair in lower case |
| HexUtils.BytesToHexOfHexBytes | src/utils/hexUtils.ts:3-19 | valid hex decoded and re-encoded comes back lower-cased, character for character |
| Base64Utils.MatchesBase64Regex | src/utils/base64Utils.ts:22 | a string the pattern matches holds only symbols and `=`, and no symbol follows an `=` |
| Base64Utils.IsValidBase64 | src/utils/base64Utils.ts:21-24 | whatever `isValidBase64` approves, `atob` accepts |
| Base64Utils.PadRun | src/utils/base64Utils.ts:22 | the trailing `=` run: all `=`, and preceded by a non-`=` character |
| Base64Utils.RegexDecided | src/utils/base64Utils.ts:22 | the pattern matches exactly when the trailing `=` run is at most two long and only symbols precede it |
| Base64Utils.EncodingIsValid | src/utils/base64Utils.ts:21-24 | every `btoa` output passes `isValidBase64` |
| Base64Utils.EncodingChars | src/utils/base64Utils.ts:5 | `btoa` writes only symbols and `=`, so its output is itself a binary string |
| Base64Utils.ValidBase64Decodes | src/utils/base64Utils.ts:21-24 | whatever passes the pattern and the length test of `isValidBase64`, `atob` accepts |
| Base64Utils.EmptyIsValid | src/utils/base64Utils.ts:22-23 | `isValidBase64("")` holds |
| Base64Utils.SafeBase64Encode | src/utils/base64Utils.ts:3-10 | `safeBase64Encode` always succeeds, and its output passes `isValidBase64` |
| Base64Utils.SafeBase64Decode | src/utils/base64Utils.ts:12-19 | every failure is the single "Failed to decode string", and success implies `atob` accepted the input |
| Base64Utils.SafeRoundTrip | src/utils/base64Utils.ts:3-19 | `safeBase64Decode(safeBase64Encode(s)) == s` for every string |
| Base64Utils.SafeDecodeRejectsMalformed | src/utils/base64Utils.ts:14-18 | decodable input whose bytes are not UTF-8 is refused with "Failed to decode string" |
| MorseUtils.KeyIndex | src/utils/morseUtils.ts:3-11 | finds a character's place among the dictionary keys, or reports that it is not a key |
| MorseUtils.ForwardTable | src/utils/morseUtils.ts:3-11 | the dictionary's keys are exactly the listed characters |
| MorseUtils.CodeFacts | src/utils/morseUtils.ts:3-11 | every code is non-empty, read back to its own position, and made of dots and dashes, except the space's `/` |
| MorseUtils.CodesDistinct | src/utils/morseUtils.ts:3-11 | no two characters share a code |
| MorseUtils.ForwardTableAt | src/utils/morseUtils.ts:3-11 | the object literal sends each key to its code |
| MorseUtils.MorseCodeAt | src/utils/morseUtils.ts:3-11 | `MORSE_CODE_DICT` sends the k-th key to the k-th code |
| MorseUtils.ReverseTable | src/utils/morseUtils.ts:13-16 | the reverse table's keys are the codes, and its values are dictionary keys |
| MorseUtils.BuildReverseTable | src/utils/morseUtils.ts:13-16 | the `forEach` loop builds the complete reverse table |
| MorseUtils.ReverseTableAt | src/utils/morseUtils.ts:13-16 | the reverse table sends each code back to its character |
| MorseUtils.Clean | src/utils/morseUtils.ts:22 | cleaning keeps only `A-Z a-z 0-9 + / =` and never lengthens the text |
| MorseUtils.ToUpper | src/utils/morseUtils.ts:25 | upper-casing keeps the length |
| MorseUtils.NonEmpty | src/utils/morseUtils.ts:32 | `filter(m => m)` never lengthens the list |
| MorseUtils.NonEmptyWithin | src/utils/morseUtils.ts:32 | the filter keeps only pieces from its input |
| MorseUtils.NonEmptyKeeps | src/utils/morseUtils.ts:32 | the filter keeps a list of non-empty pieces whole |
| MorseUtils.CharOf | src/utils/morseUtils.ts:42-48 | each piece gives one dictionary character or nothing: empty pieces and unknown codes are skipped, never an error |
| MorseUtils.DecodePieces | src/utils/morseUtils.ts:41-49 | at most one character per piece, each a dictionary key |
| MorseUtils.MorseToText | src/utils/morseUtils.ts:38-53 | `morseToText` never fails and emits only dictionary characters |
| MorseUtils.MorseOfSigns | src/utils/morseUtils.ts:25-31 | the code of a cleaned, upper-cased character is dots and dashes |
| MorseUtils.PartsSigns | src/utils/morseUtils.ts:22-32 | the code of every character of the cleaned, upper-cased text is made of dots and dashes |
| MorseUtils.TextToMorse | src/utils/morseUtils.ts:18-36 | `textToMorse` writes only dots, dashes and spaces; the `/` for a space never appears |
| MorseUtils.UpperCleanEncodable | src/utils/morseUtils.ts:22-25 | after cleaning and upper-casing every character has a code, so the missing-code branch is unreachable |
| MorseUtils.EncodableCode | src/utils/morseUtils.ts:25-31 | such a character's code is non-empty, space-free, and reverse-maps to it |
| MorseUtils.DecodeCodes | src/utils/morseUtils.ts:41-49 | reading back one code per character gives the characters |
| MorseUtils.MorseRoundTrip | src/utils/morseUtils.ts:18-53 | `morseToText(textToMorse(t))` is `t` cleaned and upper-cased: the round trip loses case |
| MorseUtils.MorseRoundTripExact | src/utils/morseUtils.ts:18-53 | text over `A-Z 0-9 + / =` survives the round trip exactly |
| MorseUtils.CleanKeeps | src/utils/morseUtils.ts:22-25 | cleaning and upper-casing leave such text unchanged |
| SubstitutionCipher.AlphabetIndex | src/utils/substituionCipher.ts:4 | a character's place in the alphabet, found exactly for alphabet characters |
| SubstitutionCipher.AlphabetIndexOf | src/utils/substituionCipher.ts:4 | each alphabet character is found at its own place |
| SubstitutionCipher.AlphabetDistinct | src/utils/substituionCipher.ts:4 | the 65-character alphabet has no repeats |
| SubstitutionCipher.NextSeed | src/utils/substituionCipher.ts:15 | after each generator step the seed is below 233280 |
| SubstitutionCipher.Swap | src/utils/substituionCipher.ts:17 | the destructuring swap exchanges two places and leaves the rest |
| SubstitutionCipher.SwapPermutes | src/utils/substituionCipher.ts:17 | a swap permutes, and keeps a repeat-free list repeat-free |
| SubstitutionCipher.ShuffleFrom | src/utils/substituionCipher.ts:14-18 | the remaining shuffle keeps the length |
| SubstitutionCipher.Shuffled | src/utils/substituionCipher.ts:4-18 | the shuffled list is as long as the alphabet |
| SubstitutionCipher.ShufflePermutes | src/utils/substituionCipher.ts:14-18 | the Fisher-Yates pass only permutes, so no repeats appear |
| SubstitutionCipher.KeyTable | src/utils/substituionCipher.ts:20-23 | after k steps the map's keys are the first k alphabet characters |
| SubstitutionCipher.KeyTableAt | src/utils/substituionCipher.ts:20-23 | the map sends the k-th alphabet character to the k-th shuffled one |
| SubstitutionCipher.ShuffleInPlace | src/utils/substituionCipher.ts:14-18 | the in-place downward swap loop over the array leaves the specified shuffle |
| SubstitutionCipher.CreateSubstitutionKey | src/utils/substituionCipher.ts:3-26 | the seed, shuffle and fill loops return the specified key |
| SubstitutionCipher.ShuffledFacts | src/utils/substituionCipher.ts:4-18 | the shuffled list holds each alphabet character exactly once |
| SubstitutionCipher.KeyDomain | src/utils/substituionCipher.ts:20-23 | the key maps exactly the alphabet characters |
| SubstitutionCipher.KeyValuesWithin | src/utils/substituionCipher.ts:20-23 | every value of the key is an alphabet character |
| SubstitutionCipher.KeyValuesCover | src/utils/substituionCipher.ts:20-23 | every alphabet character is a value of the key |
| SubstitutionCipher.KeyInjective | src/utils/substituionCipher.ts:20-23 | distinct characters map to distinct characters |
| SubstitutionCipher.SubstitutionKeyIsPermutation | src/utils/substituionCipher.ts:3-26 | the key is a bijection of the alphabet onto itself |
| SubstitutionCipher.SameSumSameKey | src/utils/substituionCipher.ts:8-18 | passwords with equal char-code sums get the same key |
| SubstitutionCipher.CreateReverseSubstitutionKey | src/utils/substituionCipher.ts:28-34 | the reverse's keys are the map's values, each sent back to a preimage, whatever the entry order |
| SubstitutionCipher.ReverseInverts | src/utils/substituionCipher.ts:28-34 | for an injective map the reverse sends `m[c]` back to `c` |
| SubstitutionCipher.ReverseOfKey | src/utils/substituionCipher.ts:28-34 | the reverse of a password's key undoes it on every alphabet character |
| SubstitutionCipher.ApplySubstitution | src/utils/substituionCipher.ts:36-38 | the length is kept, and unmapped characters pass through unchanged |
| SubstitutionCipher.CharRoundTrip | src/utils/substituionCipher.ts:37 | one character through an alphabet permutation and its reverse comes back |
| SubstitutionCipher.ApplyRoundTrip | src/utils/substituionCipher.ts:36-38 | substituting with such a permutation and then its reverse is the identity |
| SubstitutionCipher.SubstitutionRoundTrip | src/utils/substituionCipher.ts:3-38 | `apply(apply(t, key(pw)), reverse(key(pw))) == t` for every text and password |
| TokenUtils.TokenAt | src/utils/tokenUtils.ts:8 | every token has at least two characters |
| TokenUtils.TokenList | src/utils/tokenUtils.ts:3-13 | exactly `length` tokens |
| TokenUtils.GenerateTokenList | src/utils/tokenUtils.ts:3-13 | the push loop builds the specified token list |
| TokenUtils.TokenFields | src/utils/tokenUtils.ts:8 | token i is the key character at i mod L followed by the numeral of i div L + 1 |
| TokenUtils.DifferentTokens | src/utils/tokenUtils.ts:8 | tokens of different rounds or different key characters differ |
| TokenUtils.TokensDistinctIfPrefix | src/utils/tokenUtils.ts:3-13 | a repeat-free lower-cased key prefix gives pairwise distinct tokens |
| TokenUtils.FirstRoundTokens | src/utils/tokenUtils.ts:8 | in the first round two tokens are equal exactly when their key characters are |
| TokenUtils.PrefixDistinctIfTokens | src/utils/tokenUtils.ts:3-13 | pairwise distinct tokens force a repeat-free lower-cased key prefix |
| TokenUtils.TokenListDistinct | src/utils/tokenUtils.ts:3-13 | for a non-empty key, tokens are distinct exactly when the first min(length, \|key\|) lower-cased characters are |
| TokenUtils.EmptyKeyTokens | src/utils/tokenUtils.ts:5-8 | an empty key yields `undefinedNaN` then `undefinedInfinity` repeated, distinct only up to two tokens |
| TokenUtils.Digits | src/utils/tokenUtils.ts:37-41 | the digits are below the base, with no leading zero, and exist exactly for a positive number |
| TokenUtils.DigitsOrZero | src/utils/tokenUtils.ts:34-42 | zero is written as one zero digit, and every digit is below the base |
| TokenUtils.ValueOfDigits | src/utils/tokenUtils.ts:37-41 | reading the digits back gives the number |
| TokenUtils.ValueOfDigitsOrZero | src/utils/tokenUtils.ts:34-42 | reading the digits back gives the number, zero included |
| TokenUtils.DigitsOfValue | src/utils/tokenUtils.ts:70-77 | digits without a leading zero are exactly the digits of their value |
| TokenUtils.ByteDigits | src/utils/tokenUtils.ts:24-26 | each byte is a base-256 digit |
| TokenUtils.DigitBytes | src/utils/tokenUtils.ts:87-90 | one byte per digit |
| TokenUtils.DigitBytesOfByteDigits | src/utils/tokenUtils.ts:24-90 | bytes read as digits and written back are unchanged |
| TokenUtils.Spell | src/utils/tokenUtils.ts:37-41 | one token per digit |
| TokenUtils.StringToTokens | src/utils/tokenUtils.ts:15-47 | the accumulator and `unshift` loops produce the specified token string |
| TokenUtils.NonBlank | src/utils/tokenUtils.ts:52 | the filter keeps only pieces `trim` leaves non-empty |
| TokenUtils.NonBlankOfBlank | src/utils/tokenUtils.ts:52 | the filter drops every blank piece |
| TokenUtils.NonBlankKeeps | src/utils/tokenUtils.ts:52 | the filter keeps a list of non-blank pieces whole |
| TokenUtils.IndexMap | src/utils/tokenUtils.ts:61-64 | the lookup's keys are the tokens, and each maps to a place holding it |
| TokenUtils.IndexMapLast | src/utils/tokenUtils.ts:61-64 | a token maps to its last place: no later token equals it |
| TokenUtils.DuplicateTokenReadsLast | src/utils/tokenUtils.ts:61-77 | a digit spelled by an earlier copy of a repeated token is looked up as a later digit, so repeated tokens break the round trip |
| TokenUtils.Indices | src/utils/tokenUtils.ts:70-77 | on success there is one index per token |
| TokenUtils.IndicesPrefixError | src/utils/tokenUtils.ts:70-77 | the loop stops at the first unknown token |
| TokenUtils.IndicesKnown | src/utils/tokenUtils.ts:70-77 | a list of known tokens gets its indices |
| TokenUtils.UnknownTokenRefused | src/utils/tokenUtils.ts:71-75 | the first token not in the list fails with "Invalid token: " and that token |
| TokenUtils.BlankRefused | src/utils/tokenUtils.ts:52-58 | a token string of white space fails with "No valid tokens found" |
| TokenUtils.BuildIndex | src/utils/tokenUtils.ts:61-64 | the `forEach` loop builds the specified lookup |
| TokenUtils.NumberToBytes | src/utils/tokenUtils.ts:82-91 | the `unshift` loop writes the base-256 digits of the number, one zero byte for 0 |
| TokenUtils.TokensToString | src/utils/tokenUtils.ts:49-99 | the split, filter, lookup and byte loops return what `Detokenize` specifies, errors included; the lemmas below state what that is |
| TokenUtils.IndexMapDistinct | src/utils/tokenUtils.ts:61-64 | with distinct tokens every token maps to its own index |
| TokenUtils.IndicesOfSpelled | src/utils/tokenUtils.ts:70-77 | the spelled digits are looked up to themselves |
| TokenUtils.ListOfTokenized | src/utils/tokenUtils.ts:44-52 | splitting the token string gives back the tokens that spell the digits |
| TokenUtils.KeyTokensUsable | src/utils/tokenUtils.ts:3-13 | a space-free key with a repeat-free lower-cased prefix yields tokens the round trip accepts |
| TokenUtils.NoNulRoundTrip | src/utils/tokenUtils.ts:15-99 | for usable tokens, a non-empty text not starting with U+0000 comes back less one leading U+FEFF |
| TokenUtils.DropNul | src/utils/tokenUtils.ts:23-26 | removing the leading U+0000 characters leaves a suffix that does not start with one |
| TokenUtils.ValueLeadingZero | src/utils/tokenUtils.ts:23-26 | a leading zero digit does not change a number |
| TokenUtils.ValueAtLeastBase | src/utils/tokenUtils.ts:37-41 | two or more digits with a non-zero lead make a number of at least the base |
| TokenUtils.NumberDropsNul | src/utils/tokenUtils.ts:19-26 | leading U+0000 characters do not change the number the bytes are read as |
| TokenUtils.TokensRoundTrip | src/utils/tokenUtils.ts:15-99 | for usable tokens `tokensToString(stringToTokens(t))` is U+0000 when `t` is only U+0000 characters, else `t` less its leading U+0000 characters and then one leading U+FEFF |
| TokenUtils.EmptyTextRoundTrip | src/utils/tokenUtils.ts:84-85 | the empty text comes back as a single U+0000 |
| MultiLayerEncryption.Tokens | src/utils/multiLayerEncryption.ts:15 | both directions use 90 tokens |
| MultiLayerEncryption.Encode | src/utils/multiLayerEncryption.ts:6-43 | every error carries "Encoding failed: ", and every result passes `isValidBase64` |
| MultiLayerEncryption.Decode | src/utils/multiLayerEncryption.ts:45-93 | every error carries "Failed to decode: " |
| MultiLayerEncryption.MorseLayerExact | src/utils/multiLayerEncryption.ts:31-54 | for base 64 text the Morse layer is exact if and only if the text has no lower-case letter |
| MultiLayerEncryption.MorseStage | src/utils/multiLayerEncryption.ts:31-54 | the final base 64 and the Morse are undone for such text |
| MultiLayerEncryption.CiphertextStage | src/utils/multiLayerEncryption.ts:11-19 | for a non-empty text the ciphertext is a binary string whose base 64 is accepted, decodes back to it, and starts with a base 64 symbol |
| MultiLayerEncryption.TokenStringNonEmpty | src/utils/multiLayerEncryption.ts:23 | the token string is never empty |
| MultiLayerEncryption.OuterLayersUndone | src/utils/multiLayerEncryption.ts:50-66 | `decode` passes its checks and reaches the token base 64 |
| MultiLayerEncryption.TokenBase64Shape | src/utils/multiLayerEncryption.ts:11-27 | the token base 64 is non-empty, symbols and `=` only, and matches the pattern |
| MultiLayerEncryption.InnerLayersRoundTrip | src/utils/multiLayerEncryption.ts:69-85 | with a usable password the inner layers give back a non-empty text less one leading U+FEFF |
| MultiLayerEncryption.RoundTrip | src/utils/multiLayerEncryption.ts:6-93 | `decode(encode(t, pw), pw)` is `t` less one leading U+FEFF, for a usable password, a non-empty text and a token base 64 without lower case |
| MultiLayerEncryption.EmptyTextFails | src/utils/multiLayerEncryption.ts:6-93 | with a usable password and a Morse-exact token base 64, the empty text encodes, but decoding fails with "Failed to decode: InvalidCharacterError" |
| MultiLayerEncryption.EmptyInnerLayers | src/utils/multiLayerEncryption.ts:69-81 | for the empty text the inner layers stop at `atob` of a NUL |
| MultiLayerEncryption.EmptyTokenBase64 | src/utils/multiLayerEncryption.ts:23-27 | for the empty text the token base 64 does not depend on the ciphertext |
| MultiLayerEncryption.AtobRefusesNul | src/utils/multiLayerEncryption.ts:81 | `atob("\0")` throws InvalidCharacterError |
| MultiLayerEncryption.DecodeRejectsEmptyMorse | src/utils/multiLayerEncryption.ts:54-59 | every input whose Morse reads back as empty text is refused with "Failed to convert morse to text" |
| MultiLayerEncryption.DecodeEmptyInput | src/utils/multiLayerEncryption.ts:57-59 | the empty input is such an input |
| MultiLayerEncryption.DecodeRejectsNonBase64 | src/utils/multiLayerEncryption.ts:62-66 | non-empty Morse text outside the pattern is refused with "Invalid base64 format after morse conversion" |
| MultiLayerEncryption.SpaceThirdByte | src/utils/multiLayerEncryption.ts:27 | `btoa` writes a lower-case `g` for a space at index 2 |
| MultiLayerEncryption.EarlyRound | src/utils/tokenUtils.ts:8 | with ten or more key characters each of the 90 tokens is in one of the first nine rounds |
| MultiLayerEncryption.TwoDigits | src/utils/multiLayerEncryption.ts:23 | a text of two or more characters not starting with U+0000 spells at least two digits |
| MultiLayerEncryption.ShortTokens | src/utils/tokenUtils.ts:8 | with ten or more key characters every token has two characters |
| MultiLayerEncryption.TokenStringSpace | src/utils/multiLayerEncryption.ts:23 | such a text and such a password give a token string with a space at index 2 |
| MultiLayerEncryption.LongPasswordLosesCase | src/utils/multiLayerEncryption.ts:15-31 | for a password of ten or more characters the token base 64 always has a lower-case letter, so `RoundTrip`'s condition fails |

## Left out

- Logging: every `console.log`, `console.warn` and `console.error` call is dropped, because none affects a result.
- `src/pages/Index.tsx` is not part of this model. It contains the form, toasts, clipboard, the simulated delay and its own inline copy of the pipeline.
- Strings are sequences of Unicode scalar values, not UTF-16 code units. Lone surrogates are therefore not modelled. Neither is the error `encodeURIComponent` throws on them, which is the only way `safeBase64Encode` can fail.
- A supplementary character is one element here but two code units in JavaScript. This changes two results:
  - `hexToString`'s parity check counts code units, so `hexToString` of the single character U+1F600 yields U+0000 in the browser, while the model refuses it as "Invalid hex string length".
  - `generateTokenList` indexes the lower-cased key by code unit, so a key with such a character yields its surrogate halves as token characters.
- Base64Utils.SafeBase64Encode: never returns "Failed to encode string", because no string of scalar values makes `encodeURIComponent` throw.
- The substitution seed is the one place where UTF-16 is followed: `charCodeAt` is summed over code units, so a supplementary character counts as its two surrogates.
- JsString.ToLower, MorseUtils.ToUpper: `toLowerCase` is modelled for ASCII and Latin-1 only, and `toUpperCase` for ASCII only. Full Unicode case mapping, which can change the length of a string, is not part of this model. For `toUpperCase` nothing is lost, because `textToMorse` applies it only to text already cleaned to ASCII letters, digits and `+/=`.
- `btoa` and `atob` throw a DOMException; its name "InvalidCharacterError" stands for the message, because browsers word the message differently.
- TokenUtils.StringToTokens: requires at least two tokens. With one token the loop never ends for a non-empty text. With none and a non-empty text, `Number(num % 0n)` throws a RangeError; with none and the empty text the source returns the empty string. No caller in `src/utils/` passes fewer than 90.
- The substitution seed is an unbounded integer. The source computes `sum * 9301 + 49297` in double precision, which is exact only below 2^53, so the char-code sum must stay below about 9.7 * 10^11. That holds for ASCII passwords shorter than about 7 * 10^9 characters, but only for passwords of U+FFFF code units shorter than about 1.5 * 10^7.
- SubstitutionCipher.CreateReverseSubstitutionKey: its contract holds for every order of visiting the entries, rather than modelling the exact order `Object.entries` uses.
- Keys inherited from `Object.prototype`, such as a token spelled `constructor`, are not modelled; the objects are modelled as plain maps.
- `TextDecoder` is modelled with the WHATWG replacement of each maximal ill-formed subsequence by U+FFFD and the removal of one leading U+FEFF. `decodeURIComponent(escape(.))` is modelled as strict UTF-8 decoding. Their exact error texts are not modelled; `safeBase64Decode` discards them anyway.
- The browser library calls (`TextEncoder`, `TextDecoder`, `btoa`, `atob`, `String.fromCharCode`, `escape`/`unescape`, `encodeURIComponent`/`decodeURIComponent`) are defined here from their standards, not from the browser's code.
- EncryptionUtils.XorEncrypt: always succeeds. The source spreads the masked bytes into `String.fromCharCode(...)`, which throws a RangeError once the byte count passes the engine's argument limit, so for a large enough text `encode` fails with "Encoding failed: " and that error. No fixed limit exists to model.
