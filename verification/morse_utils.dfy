/**
 * The Morse layer (src/utils/morseUtils.ts): the dictionary from the base-64 alphabet (upper
 * case) and the space to International Morse code, its reverse built by a loop when the
 * module loads, and the two conversions.
 */
module MorseUtils {
  import JsString

  /** The dictionary's keys, in the order the object literal lists them. */
  const Keys: string := JsString.Run('A', 26) + JsString.Run('0', 10) + "+/= "

  /** The code of `Keys[k]`, for every k. */
  const Codes: seq<string> := [
    ".-", "-...", "-.-.", "-..", ".", "..-.", "--.",
    "....", "..", ".---", "-.-", ".-..", "--", "-.",
    "---", ".--.", "--.-", ".-.", "...", "-",
    "..-", "...-", ".--", "-..-", "-.--", "--..",
    "-----", ".----", "..---", "...--", "....-",
    ".....", "-....", "--...", "---..", "----.",
    ".-.-.", "-..-.", "-...-", "/"]

  /** Where `c` stands among the keys, if it is one. */
  function KeyIndex(c: char): (k: int)
    ensures -1 <= k < |Keys|
    ensures k >= 0 ==> Keys[k] == c
    ensures k < 0 ==> c !in Keys
  {
    if 'A' <= c <= 'Z' then c as int - 'A' as int
    else if '0' <= c <= '9' then 26 + (c as int - '0' as int)
    else if c == '+' then 36
    else if c == '/' then 37
    else if c == '=' then 38
    else if c == ' ' then 39
    else
      assert forall i :: 0 <= i < 36 ==> Keys[i] != c;
      -1
  }

  /**
   * The dictionary after its first n entries, in the order the literal writes them. The keys
   * are distinct, so the finished map does not depend on that order.
   */
  function ForwardTable(n: nat): (dict: map<char, string>)
    requires n <= |Keys|
    ensures dict.Keys == set k | 0 <= k < n :: Keys[k]
  {
    if n == 0 then map[] else ForwardTable(n - 1)[Keys[n - 1] := Codes[n - 1]]
  }

  /** `MORSE_CODE_DICT`. */
  const MorseCode: map<char, string> := ForwardTable(|Keys|)

  /** Where `code` stands among the codes: an independent reading of the table, code by code. */
  function CodePosition(code: string): int {
    if code == ".-" then 0
    else if code == "-..." then 1
    else if code == "-.-." then 2
    else if code == "-.." then 3
    else if code == "." then 4
    else if code == "..-." then 5
    else if code == "--." then 6
    else if code == "...." then 7
    else if code == ".." then 8
    else if code == ".---" then 9
    else if code == "-.-" then 10
    else if code == ".-.." then 11
    else if code == "--" then 12
    else if code == "-." then 13
    else if code == "---" then 14
    else if code == ".--." then 15
    else if code == "--.-" then 16
    else if code == ".-." then 17
    else if code == "..." then 18
    else if code == "-" then 19
    else if code == "..-" then 20
    else if code == "...-" then 21
    else if code == ".--" then 22
    else if code == "-..-" then 23
    else if code == "-.--" then 24
    else if code == "--.." then 25
    else if code == "-----" then 26
    else if code == ".----" then 27
    else if code == "..---" then 28
    else if code == "...--" then 29
    else if code == "....-" then 30
    else if code == "....." then 31
    else if code == "-...." then 32
    else if code == "--..." then 33
    else if code == "---.." then 34
    else if code == "----." then 35
    else if code == ".-.-." then 36
    else if code == "-..-." then 37
    else if code == "-...-" then 38
    else if code == "/" then 39
    else -1
  }

  lemma CodeFacts0(k: nat)
    requires 0 <= k < 10
    ensures CodePosition(Codes[k]) == k && |Codes[k]| > 0
    ensures forall i :: 0 <= i < |Codes[k]| ==> Codes[k][i] == '.' || Codes[k][i] == '-' || k == 39
  {
    if k == 0 { assert Codes[0] == ".-"; }
    else if k == 1 { assert Codes[1] == "-..."; }
    else if k == 2 { assert Codes[2] == "-.-."; }
    else if k == 3 { assert Codes[3] == "-.."; }
    else if k == 4 { assert Codes[4] == "."; }
    else if k == 5 { assert Codes[5] == "..-."; }
    else if k == 6 { assert Codes[6] == "--."; }
    else if k == 7 { assert Codes[7] == "...."; }
    else if k == 8 { assert Codes[8] == ".."; }
    else if k == 9 { assert Codes[9] == ".---"; }
  }

  lemma CodeFacts1(k: nat)
    requires 10 <= k < 20
    ensures CodePosition(Codes[k]) == k && |Codes[k]| > 0
    ensures forall i :: 0 <= i < |Codes[k]| ==> Codes[k][i] == '.' || Codes[k][i] == '-' || k == 39
  {
    if k == 10 { assert Codes[10] == "-.-"; }
    else if k == 11 { assert Codes[11] == ".-.."; }
    else if k == 12 { assert Codes[12] == "--"; }
    else if k == 13 { assert Codes[13] == "-."; }
    else if k == 14 { assert Codes[14] == "---"; }
    else if k == 15 { assert Codes[15] == ".--."; }
    else if k == 16 { assert Codes[16] == "--.-"; }
    else if k == 17 { assert Codes[17] == ".-."; }
    else if k == 18 { assert Codes[18] == "..."; }
    else if k == 19 { assert Codes[19] == "-"; }
  }

  lemma CodeFacts2(k: nat)
    requires 20 <= k < 30
    ensures CodePosition(Codes[k]) == k && |Codes[k]| > 0
    ensures forall i :: 0 <= i < |Codes[k]| ==> Codes[k][i] == '.' || Codes[k][i] == '-' || k == 39
  {
    if k == 20 { assert Codes[20] == "..-"; }
    else if k == 21 { assert Codes[21] == "...-"; }
    else if k == 22 { assert Codes[22] == ".--"; }
    else if k == 23 { assert Codes[23] == "-..-"; }
    else if k == 24 { assert Codes[24] == "-.--"; }
    else if k == 25 { assert Codes[25] == "--.."; }
    else if k == 26 { assert Codes[26] == "-----"; }
    else if k == 27 { assert Codes[27] == ".----"; }
    else if k == 28 { assert Codes[28] == "..---"; }
    else if k == 29 { assert Codes[29] == "...--"; }
  }

  lemma CodeFacts3(k: nat)
    requires 30 <= k < 40
    ensures CodePosition(Codes[k]) == k && |Codes[k]| > 0
    ensures forall i :: 0 <= i < |Codes[k]| ==> Codes[k][i] == '.' || Codes[k][i] == '-' || k == 39
  {
    if k == 30 { assert Codes[30] == "....-"; }
    else if k == 31 { assert Codes[31] == "....."; }
    else if k == 32 { assert Codes[32] == "-...."; }
    else if k == 33 { assert Codes[33] == "--..."; }
    else if k == 34 { assert Codes[34] == "---.."; }
    else if k == 35 { assert Codes[35] == "----."; }
    else if k == 36 { assert Codes[36] == ".-.-."; }
    else if k == 37 { assert Codes[37] == "-..-."; }
    else if k == 38 { assert Codes[38] == "-...-"; }
    else if k == 39 { assert Codes[39] == "/"; }
  }

  lemma CodeFacts(k: nat)
    requires k < |Codes|
    ensures CodePosition(Codes[k]) == k && |Codes[k]| > 0
    ensures forall i :: 0 <= i < |Codes[k]| ==> Codes[k][i] == '.' || Codes[k][i] == '-' || k == 39
  {
    if k < 10 { CodeFacts0(k); }
    else if k < 20 { CodeFacts1(k); }
    else if k < 30 { CodeFacts2(k); }
    else { CodeFacts3(k); }
  }

  /** No two characters share a code, which is what lets the reverse table undo the forward one. */
  lemma CodesDistinct(i: nat, j: nat)
    requires i < j < |Codes|
    ensures Codes[i] != Codes[j]
  {
    CodeFacts(i);
    CodeFacts(j);
  }
  lemma KeyIndexOfKey(k: nat)
    requires k < |Keys|
    ensures KeyIndex(Keys[k]) == k
  {
    if k >= 36 {
      assert Keys[36..] == "+/= ";
      assert Keys[k] == "+/= "[k - 36];
    }
  }

  lemma {:induction false} ForwardTableAt(n: nat, k: nat)
    requires k < n <= |Keys|
    ensures ForwardTable(n)[Keys[k]] == Codes[k]
  {
    if k < n - 1 {
      KeyIndexOfKey(k);
      KeyIndexOfKey(n - 1);
      ForwardTableAt(n - 1, k);
    }
  }

  /** The dictionary sends the k-th key to the k-th code. */
  lemma MorseCodeAt(k: nat)
    requires k < |Keys|
    ensures Keys[k] in MorseCode && MorseCode[Keys[k]] == Codes[k]
  {
    ForwardTableAt(|Keys|, k);
  }

  /** `REVERSE_MORSE_CODE_DICT` after the first n keys have been visited. */
  function ReverseTable(n: nat): (rev: map<string, char>)
    requires n <= |Keys|
    ensures rev.Keys == set k | 0 <= k < n :: Codes[k]
    ensures forall code | code in rev :: rev[code] in Keys
  {
    if n == 0 then map[] else ReverseTable(n - 1)[Codes[n - 1] := Keys[n - 1]]
  }

  /** `REVERSE_MORSE_CODE_DICT` once the module has loaded. */
  const ReverseMorseCode: map<string, char> := ReverseTable(|Keys|)

  /**
   * The `Object.keys(MORSE_CODE_DICT).forEach` loop that fills the reverse table. It visits
   * the keys in the order the literal writes them, while `Object.keys` lists the integer-like
   * keys "0" to "9" first. The table comes out the same, because no two keys share a code
   * (`CodesDistinct`), so no entry overwrites another.
   */
  method BuildReverseTable() returns (rev: map<string, char>)
    ensures rev == ReverseMorseCode
  {
    rev := map[];
    for k := 0 to |Keys|
      invariant rev == ReverseTable(k)
    {
      var key := Keys[k];
      MorseCodeAt(k);
      rev := rev[MorseCode[key] := key];
    }
  }

  /** The reverse table sends each code back to its character. */
  lemma {:induction false} ReverseTableAt(n: nat, k: nat)
    requires k < n <= |Keys|
    ensures ReverseTable(n)[Codes[k]] == Keys[k]
  {
    if k < n - 1 {
      CodesDistinct(k, n - 1);
      ReverseTableAt(n - 1, k);
    }
  }

  /** `/[A-Za-z0-9+/=]/`. */
  predicate IsBase64Char(c: char) {
    'A' <= c <= 'Z' || 'a' <= c <= 'z' || '0' <= c <= '9' || c == '+' || c == '/' || c == '='
  }

  /** `text.replace(/[^A-Za-z0-9+/=]/g, '')`. */
  function Clean(text: string): (r: string)
    ensures |r| <= |text|
    ensures forall i :: 0 <= i < |r| ==> IsBase64Char(r[i])
  {
    if |text| == 0 then ""
    else (if IsBase64Char(text[0]) then [text[0]] else "") + Clean(text[1..])
  }

  /** `toUpperCase` on one character of the cleaned text (ASCII only, so exact there). */
  function UpperChar(c: char): char {
    if 'a' <= c <= 'z' then (c as int - 32) as char else c
  }

  function ToUpper(s: string): (r: string)
    ensures |r| == |s|
  {
    seq(|s|, i requires 0 <= i < |s| => UpperChar(s[i]))
  }

  /** The code the dictionary gives `c`, or the empty string the lookup falls back to. */
  function MorseOf(c: char): string {
    if c in MorseCode then MorseCode[c] else ""
  }

  /** `.filter(m => m)`. */
  function NonEmpty(parts: seq<string>): (r: seq<string>)
    ensures |r| <= |parts|
  {
    if |parts| == 0 then []
    else (if parts[0] == "" then [] else [parts[0]]) + NonEmpty(parts[1..])
  }

  /**
   * `textToMorse(text)`. It writes nothing but dots, dashes and spaces: the `/` that stands
   * for a space never appears, because cleaning removes every space first.
   */
  function TextToMorse(text: string): (morse: string)
    ensures forall x :: x in morse ==> x in MorseSigns
  {
    var upper := ToUpper(Clean(text));
    var parts := seq(|upper|, i requires 0 <= i < |upper| => MorseOf(upper[i]));
    PartsSigns(text, parts);
    JsString.JoinWithin(NonEmpty(parts), ' ', MorseSigns);
    JsString.Join(NonEmpty(parts), ' ')
  }

  /** What one space-separated piece turns back into. */
  function CharOf(piece: string): (r: string)
    ensures |r| <= 1 && forall i :: 0 <= i < |r| ==> r[i] in Keys
  {
    if piece == "" then ""
    else if piece in ReverseMorseCode then [ReverseMorseCode[piece]]
    else ""
  }

  /** `.map(...).join('')` over the pieces. */
  function DecodePieces(pieces: seq<string>): (r: string)
    ensures |r| <= |pieces|
    ensures forall i :: 0 <= i < |r| ==> r[i] in Keys
  {
    if |pieces| == 0 then "" else CharOf(pieces[0]) + DecodePieces(pieces[1..])
  }

  /** `morseToText(morse)`: only characters of the dictionary come out. */
  function MorseToText(morse: string): (r: string)
    ensures forall i :: 0 <= i < |r| ==> r[i] in Keys
  {
    DecodePieces(JsString.Split(morse, ' '))
  }

  /** The signs `textToMorse` writes: dot, dash and the separating space. */
  const MorseSigns: set<char> := {'.', '-', ' '}

  lemma MorseOfSigns(c: char)
    requires Encodable(c)
    ensures forall x :: x in MorseOf(c) ==> x in MorseSigns
  {
    var k := KeyIndex(c);
    assert 0 <= k < 39;
    MorseCodeAt(k);
    CodeFacts(k);
  }

  lemma {:induction false} NonEmptyWithin(parts: seq<string>)
    ensures forall p :: p in NonEmpty(parts) ==> p in parts
  {
    if |parts| > 0 {
      NonEmptyWithin(parts[1..]);
    }
  }

  /** The codes of a cleaned, upper-cased text are made of dots and dashes. */
  lemma PartsSigns(text: string, parts: seq<string>)
    requires var upper := ToUpper(Clean(text));
      parts == seq(|upper|, i requires 0 <= i < |upper| => MorseOf(upper[i]))
    ensures forall p, x :: p in NonEmpty(parts) && x in p ==> x in MorseSigns
  {
    var upper := ToUpper(Clean(text));
    forall p, x | p in NonEmpty(parts) && x in p
      ensures x in MorseSigns
    {
      NonEmptyWithin(parts);
      var i :| 0 <= i < |parts| && parts[i] == p;
      UpperCleanEncodable(text);
      MorseOfSigns(upper[i]);
    }
  }

  /** A character of the cleaned, upper-cased text: a key other than the space. */
  predicate Encodable(c: char) {
    'A' <= c <= 'Z' || '0' <= c <= '9' || c == '+' || c == '/' || c == '='
  }

  lemma UpperCleanEncodable(text: string)
    ensures forall i :: 0 <= i < |ToUpper(Clean(text))| ==> Encodable(ToUpper(Clean(text))[i])
  {}

  /** An encodable character has a non-empty code made of dots and dashes, which decodes back. */
  lemma EncodableCode(c: char)
    requires Encodable(c)
    ensures var code := MorseOf(c);
      code != "" && ' ' !in code && code in ReverseMorseCode && ReverseMorseCode[code] == c
  {
    var k := KeyIndex(c);
    assert 0 <= k < 39;
    MorseCodeAt(k);
    CodeFacts(k);
    ReverseTableAt(|Keys|, k);
  }

  lemma {:induction false} NonEmptyKeeps(parts: seq<string>)
    requires forall i :: 0 <= i < |parts| ==> parts[i] != ""
    ensures NonEmpty(parts) == parts
  {
    if |parts| > 0 {
      NonEmptyKeeps(parts[1..]);
      assert parts == [parts[0]] + parts[1..];
    }
  }

  lemma {:induction false} DecodeCodes(u: string)
    requires forall i :: 0 <= i < |u| ==> Encodable(u[i])
    ensures DecodePieces(seq(|u|, i requires 0 <= i < |u| => MorseOf(u[i]))) == u
  {
    if |u| > 0 {
      var parts := seq(|u|, i requires 0 <= i < |u| => MorseOf(u[i]));
      EncodableCode(u[0]);
      DecodeCodes(u[1..]);
      assert parts[1..] == seq(|u| - 1, i requires 0 <= i < |u| - 1 => MorseOf(u[1..][i]));
      assert u == [u[0]] + u[1..];
    }
  }

  /**
   * `morseToText(textToMorse(text))` is the text with every character outside the base-64
   * alphabet dropped and the letters upper-cased: the round trip loses case.
   */
  lemma MorseRoundTrip(text: string)
    ensures MorseToText(TextToMorse(text)) == ToUpper(Clean(text))
  {
    var u := ToUpper(Clean(text));
    var parts := seq(|u|, i requires 0 <= i < |u| => MorseOf(u[i]));
    UpperCleanEncodable(text);
    forall i | 0 <= i < |u|
      ensures parts[i] != "" && ' ' !in parts[i]
    {
      EncodableCode(u[i]);
    }
    NonEmptyKeeps(parts);
    if |u| == 0 {
      assert JsString.Split("", ' ') == [""];
    } else {
      JsString.SplitJoin(parts, ' ');
      DecodeCodes(u);
    }
  }

  /** Text made of upper-case letters, digits, '+', '/' and '=' survives the round trip. */
  lemma MorseRoundTripExact(text: string)
    requires forall i :: 0 <= i < |text| ==> Encodable(text[i])
    ensures MorseToText(TextToMorse(text)) == text
  {
    MorseRoundTrip(text);
    CleanKeeps(text);
  }

  lemma {:induction false} CleanKeeps(text: string)
    requires forall i :: 0 <= i < |text| ==> Encodable(text[i])
    ensures ToUpper(Clean(text)) == text
  {
    if |text| > 0 {
      CleanKeeps(text[1..]);
      assert Clean(text) == [text[0]] + Clean(text[1..]);
    }
  }
}
