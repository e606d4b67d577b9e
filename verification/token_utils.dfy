/**
 * The token layer (src/utils/tokenUtils.ts).  A password yields a list of tokens (a letter of
 * the lower-cased password followed by a round number); a text is read as one big number,
 * its UTF-8 bytes being the base-256 digits, and written out in base `|tokens|` with each
 * digit spelled as its token, the tokens separated by single spaces.
 */
module TokenUtils {
  import opened Common
  import JsString
  import Utf8

  const DefaultTokenCount: nat := 90
  const NoTokens := "No valid tokens found"
  const InvalidTokenPrefix := "Invalid token: "
  /** `undefined + String(NaN)` and `undefined + String(Infinity)`. */
  const UndefinedNaN := "undefinedNaN"
  const UndefinedInfinity := "undefinedInfinity"

  predicate Distinct<T(==)>(s: seq<T>) {
    forall i, j :: 0 <= i < j < |s| ==> s[i] != s[j]
  }

  // ---------------------------------------------------------------- the token list

  /**
   * Token number i for the lower-cased key `base`: `base[i % L] + String(floor(i / L) + 1)`.
   * With an empty base JavaScript computes `undefined + String(NaN)` for i = 0 and
   * `undefined + String(Infinity)` for every later i.
   */
  function TokenAt(base: string, i: nat): (t: string)
    ensures |t| >= 2
  {
    if |base| == 0 then (if i == 0 then UndefinedNaN else UndefinedInfinity)
    else [base[i % |base|]] + JsString.DecimalString(i / |base| + 1)
  }

  /** What `generateTokenList(key, length)` returns. */
  function TokenList(key: string, length: nat): (tokens: seq<string>)
    ensures |tokens| == length
  {
    var base := JsString.ToLower(key);
    seq(length, i requires 0 <= i < length => TokenAt(base, i))
  }

  method GenerateTokenList(key: string, length: nat := DefaultTokenCount) returns (tokens: seq<string>)
    ensures tokens == TokenList(key, length)
  {
    tokens := [];
    var base := JsString.ToLower(key);
    var i := 0;
    while |tokens| < length
      invariant i == |tokens| <= length
      invariant forall k :: 0 <= k < i ==> tokens[k] == TokenAt(base, k)
    {
      tokens := tokens + [TokenAt(base, i)];
      i := i + 1;
    }
  }

  lemma DivMod(i: nat, l: nat)
    requires l > 0
    ensures i == (i / l) * l + i % l && 0 <= i % l < l
  {}

  lemma SameQuotient(i: nat, j: nat, l: nat)
    requires l > 0 && i < j && i / l == j / l
    ensures i % l < j % l
  {
    DivMod(i, l);
    DivMod(j, l);
  }

  lemma SmallDivMod(r: nat, l: nat)
    requires r < l
    ensures r / l == 0 && r % l == r
  {}

  /** Token i reads back as the key character at i mod L and the round number i div L + 1. */
  lemma TokenFields(base: string, i: nat)
    requires |base| > 0
    ensures i % |base| < |base|
    ensures TokenAt(base, i)[0] == base[i % |base|]
    ensures forall k :: 1 <= k < |TokenAt(base, i)| ==> '0' <= TokenAt(base, i)[k] <= '9'
    ensures JsString.DecimalValue(TokenAt(base, i)[1..]) == i / |base| + 1
  {
    var d := JsString.DecimalString(i / |base| + 1);
    assert TokenAt(base, i)[1..] == d;
    JsString.DecimalRoundTrip(i / |base| + 1);
  }

  /** Tokens from different rounds, or with different key characters, differ. */
  lemma DifferentTokens(base: string, i: nat, j: nat)
    requires |base| > 0
    requires i / |base| != j / |base| || base[i % |base|] != base[j % |base|]
    ensures TokenAt(base, i) != TokenAt(base, j)
  {
    TokenFields(base, i);
    TokenFields(base, j);
  }

  lemma TokensDistinctIfPrefix(key: string, length: nat, m: nat)
    requires |key| > 0 && m == (if length < |key| then length else |key|)
    requires Distinct(JsString.ToLower(key)[..m])
    ensures Distinct(TokenList(key, length))
  {
    var base := JsString.ToLower(key);
    var l := |base|;
    var tokens := TokenList(key, length);
    forall i, j | 0 <= i < j < length
      ensures tokens[i] != tokens[j]
    {
      if i / l == j / l {
        SameQuotient(i, j, l);
        DivMod(j, l);
        assert j % l <= j by { MulSign(j / l, l); }
        assert base[..m][i % l] != base[..m][j % l];
      }
      DifferentTokens(base, i, j);
    }
  }

  /** In the first round the tokens are the key characters followed by "1". */
  lemma FirstRoundTokens(base: string, r1: nat, r2: nat)
    requires r1 < |base| && r2 < |base|
    ensures TokenAt(base, r1) == TokenAt(base, r2) <==> base[r1] == base[r2]
  {
    SmallDivMod(r1, |base|);
    SmallDivMod(r2, |base|);
    assert TokenAt(base, r1)[0] == base[r1] && TokenAt(base, r2)[0] == base[r2];
  }

  lemma PrefixDistinctIfTokens(key: string, length: nat, m: nat)
    requires |key| > 0 && m == (if length < |key| then length else |key|)
    requires Distinct(TokenList(key, length))
    ensures Distinct(JsString.ToLower(key)[..m])
  {
    var base := JsString.ToLower(key);
    var tokens := TokenList(key, length);
    forall r1, r2 | 0 <= r1 < r2 < m
      ensures base[..m][r1] != base[..m][r2]
    {
      assert tokens[r1] == TokenAt(base, r1) && tokens[r2] == TokenAt(base, r2);
      FirstRoundTokens(base, r1, r2);
    }
  }

  /**
   * For a non-empty key, the tokens are pairwise different exactly when the first
   * min(length, |key|) characters of the lower-cased key are.
   */
  lemma TokenListDistinct(key: string, length: nat)
    requires |key| > 0
    ensures Distinct(TokenList(key, length)) <==>
            Distinct(JsString.ToLower(key)[..if length < |key| then length else |key|])
  {
    var m := if length < |key| then length else |key|;
    if Distinct(JsString.ToLower(key)[..m]) {
      TokensDistinctIfPrefix(key, length, m);
    }
    if Distinct(TokenList(key, length)) {
      PrefixDistinctIfTokens(key, length, m);
    }
  }

  /** For an empty key, only the first two tokens differ. */
  lemma EmptyKeyTokens(length: nat)
    ensures Distinct(TokenList("", length)) <==> length <= 2
  {
    var tokens := TokenList("", length);
    if length > 2 {
      assert tokens[1] == tokens[2];
    }
    if length == 2 {
      assert tokens[0][9] == 'N' && tokens[1][9] == 'I';
    }
  }

  // ---------------------------------------------------------------- positional numbers

  /** The number whose base-`base` digits, most significant first, are `ds`. */
  function Value(ds: seq<nat>, base: nat): nat
    decreases |ds|
  {
    if |ds| == 0 then 0 else Value(ds[..|ds| - 1], base) * base + ds[|ds| - 1]
  }

  /** The base-`base` digits of `n`, most significant first, with no leading zero. */
  function Digits(n: nat, base: nat): (ds: seq<nat>)
    requires base >= 2
    ensures forall i :: 0 <= i < |ds| ==> ds[i] < base
    ensures |ds| > 0 <==> n > 0
    ensures |ds| > 0 ==> ds[0] > 0
    decreases n
  {
    if n == 0 then [] else Digits(n / base, base) + [n % base]
  }

  /** The digits the conversion loops produce: a lone zero digit for 0. */
  function DigitsOrZero(n: nat, base: nat): (ds: seq<nat>)
    requires base >= 2
    ensures |ds| > 0
    ensures forall i :: 0 <= i < |ds| ==> ds[i] < base
  {
    if n == 0 then [0] else Digits(n, base)
  }

  lemma QuotientSmaller(n: nat, base: nat)
    requires base >= 2 && n > 0
    ensures n / base < n
  {}

  lemma ValueOfDigitsStep(n: nat, base: nat)
    requires base >= 2 && n > 0
    ensures Value(Digits(n, base), base) == Value(Digits(n / base, base), base) * base + n % base
  {
    var ds := Digits(n, base);
    assert ds[..|ds| - 1] == Digits(n / base, base);
  }

  /** Reading the digits of n gives n back. */
  lemma {:induction false} ValueOfDigits(n: nat, base: nat)
    requires base >= 2
    ensures Value(Digits(n, base), base) == n
    decreases n
  {
    if n > 0 {
      DivMod(n, base);
      QuotientSmaller(n, base);
      ValueOfDigitsStep(n, base);
      ValueOfDigits(n / base, base);
    }
  }

  lemma ValueOfDigitsOrZero(n: nat, base: nat)
    requires base >= 2
    ensures Value(DigitsOrZero(n, base), base) == n
  {
    if n > 0 { ValueOfDigits(n, base); }
    else { assert DigitsOrZero(n, base) == [0]; }
  }

  lemma {:induction false} ValuePositive(ds: seq<nat>, base: nat)
    requires base >= 1 && |ds| > 0 && ds[0] > 0
    ensures Value(ds, base) > 0
    decreases |ds|
  {
    if |ds| > 1 {
      ValuePositive(ds[..|ds| - 1], base);
    }
  }

  /** Two or more digits without a leading zero are worth at least the base. */
  lemma ValueAtLeastBase(ds: seq<nat>, base: nat)
    requires base >= 1 && |ds| >= 2 && ds[0] > 0
    ensures Value(ds, base) >= base
  {
    var init := ds[..|ds| - 1];
    assert init[0] == ds[0];
    ValuePositive(init, base);
    MulSign(Value(init, base), base);
  }

  lemma MulSign(k: int, base: nat)
    ensures k >= 1 ==> k * base >= base
    ensures k <= -1 ==> k * base <= -(base as int)
  {}

  /** Euclidean division recovers the last digit and the number before it. */
  lemma Divide(v: nat, d: nat, base: nat)
    requires d < base
    ensures (v * base + d) / base == v && (v * base + d) % base == d
  {
    var n := v * base + d;
    DivMod(n, base);
    var q, r := n / base, n % base;
    assert (q - v) * base == d - r;
    MulSign(q - v, base);
  }

  /** Digits without a leading zero are exactly the digits of their value. */
  lemma {:induction false} DigitsOfValue(ds: seq<nat>, base: nat)
    requires base >= 2
    requires forall i :: 0 <= i < |ds| ==> ds[i] < base
    requires |ds| == 0 || ds[0] > 0
    ensures Digits(Value(ds, base), base) == ds
    decreases |ds|
  {
    if |ds| > 0 {
      var init, d := ds[..|ds| - 1], ds[|ds| - 1];
      var v := Value(init, base);
      Divide(v, d, base);
      if |init| == 0 {
        assert Value(ds, base) == d;
        assert Digits(d, base) == Digits(0, base) + [d];
      } else {
        ValuePositive(init, base);
        DigitsOfValue(init, base);
        assert Digits(Value(ds, base), base) == Digits(v, base) + [d];
      }
      assert init + [d] == ds;
    }
  }

  // ---------------------------------------------------------------- bytes as digits

  function ByteDigits(b: seq<byte>): (ds: seq<nat>)
    ensures |ds| == |b| && forall i :: 0 <= i < |ds| ==> ds[i] < 256
  {
    seq(|b|, i requires 0 <= i < |b| => b[i] as nat)
  }

  function DigitBytes(ds: seq<nat>): (b: seq<byte>)
    requires forall i :: 0 <= i < |ds| ==> ds[i] < 256
    ensures |b| == |ds|
  {
    seq(|ds|, i requires 0 <= i < |ds| => ds[i] as byte)
  }

  lemma DigitBytesOfByteDigits(b: seq<byte>)
    ensures DigitBytes(ByteDigits(b)) == b
  {
    var r := DigitBytes(ByteDigits(b));
    forall i | 0 <= i < |b|
      ensures r[i] == b[i]
    {
      var x := b[i];
      assert (x as nat) as byte == x;
    }
  }

  /** The digits `tokens` spell. */
  function Spell(ds: seq<nat>, tokens: seq<string>): (ts: seq<string>)
    requires forall i :: 0 <= i < |ds| ==> ds[i] < |tokens|
    ensures |ts| == |ds|
  {
    seq(|ds|, i requires 0 <= i < |ds| => tokens[ds[i]])
  }

  lemma ValueSnoc(ds: seq<nat>, d: nat, base: nat)
    ensures Value(ds + [d], base) == Value(ds, base) * base + d
  {
    assert (ds + [d])[..|ds|] == ds;
  }

  lemma ByteDigitsSnoc(b: seq<byte>, i: nat)
    requires i < |b|
    ensures ByteDigits(b[..i + 1]) == ByteDigits(b[..i]) + [b[i] as nat]
  {}

  lemma DigitsStep(n: nat, base: nat)
    requires base >= 2 && n > 0
    ensures Digits(n, base) == Digits(n / base, base) + [n % base]
  {}

  lemma SpellCons(d: nat, ds: seq<nat>, tokens: seq<string>)
    requires d < |tokens| && forall i :: 0 <= i < |ds| ==> ds[i] < |tokens|
    ensures Spell([d] + ds, tokens) == [tokens[d]] + Spell(ds, tokens)
  {}

  lemma DigitBytesCons(d: nat, ds: seq<nat>)
    requires d < 256 && forall i :: 0 <= i < |ds| ==> ds[i] < 256
    ensures DigitBytes([d] + ds) == [d as byte] + DigitBytes(ds)
  {}

  // ---------------------------------------------------------------- text to tokens

  /** What `stringToTokens(text, tokens)` returns. */
  function Tokenize(text: string, tokens: seq<string>): string
    requires |tokens| >= 2
  {
    var number := Value(ByteDigits(Utf8.Encode(text)), 256);
    JsString.Join(Spell(DigitsOrZero(number, |tokens|), tokens), ' ')
  }

  method StringToTokens(text: string, tokens: seq<string>) returns (result: string)
    requires |tokens| >= 2
    ensures result == Tokenize(text, tokens)
  {
    var bytes := Utf8.Encode(text);
    var number: nat := 0;
    for i := 0 to |bytes|
      invariant number == Value(ByteDigits(bytes[..i]), 256)
    {
      ByteDigitsSnoc(bytes, i);
      ValueSnoc(ByteDigits(bytes[..i]), bytes[i] as nat, 256);
      number := number * 256 + bytes[i] as nat;
    }
    assert bytes[..|bytes|] == bytes;
    var tokenList: seq<string> := [];
    var base := |tokens|;
    var num: nat := number;
    if num == 0 {
      tokenList := [tokens[0]];
    } else {
      ghost var emitted: seq<nat> := [];
      while num > 0
        invariant Digits(num, base) + emitted == Digits(number, base)
        invariant forall k :: 0 <= k < |emitted| ==> emitted[k] < base
        invariant tokenList == Spell(emitted, tokens)
        decreases num
      {
        DigitsStep(num, base);
        QuotientSmaller(num, base);
        SpellCons(num % base, emitted, tokens);
        tokenList := [tokens[num % base]] + tokenList;
        emitted := [num % base] + emitted;
        num := num / base;
      }
      assert emitted == Digits(number, base);
    }
    assert tokenList == Spell(DigitsOrZero(number, base), tokens);
    result := JsString.Join(tokenList, ' ');
  }

  // ---------------------------------------------------------------- tokens to text

  /** The pieces of `split(' ')` that `trim` leaves non-empty, in order. */
  function NonBlank(parts: seq<string>): (r: seq<string>)
    ensures |r| <= |parts|
    ensures forall k :: 0 <= k < |r| ==> r[k] in parts && !JsString.IsBlank(r[k])
  {
    if |parts| == 0 then []
    else if JsString.IsBlank(parts[0]) then NonBlank(parts[1..])
    else [parts[0]] + NonBlank(parts[1..])
  }

  /** The lookup object: each token mapped to the last index where it occurs. */
  function IndexMap(tokens: seq<string>): (index: map<string, nat>)
    ensures index.Keys == set t | t in tokens
    ensures forall t :: t in index ==> index[t] < |tokens| && tokens[index[t]] == t
    decreases |tokens|
  {
    if |tokens| == 0 then map[]
    else IndexMap(tokens[..|tokens| - 1])[tokens[|tokens| - 1] := |tokens| - 1]
  }

  /** Each token is indexed at its last place: no later position holds the same token. */
  lemma {:induction false} IndexMapLast(tokens: seq<string>, t: string, j: nat)
    requires t in IndexMap(tokens) && IndexMap(tokens)[t] < j < |tokens|
    ensures tokens[j] != t
    decreases |tokens|
  {
    var last := |tokens| - 1;
    var init := tokens[..last];
    if tokens[last] != t {
      assert IndexMap(tokens)[t] == IndexMap(init)[t];
      if j < last {
        IndexMapLast(init, t, j);
        assert init[j] == tokens[j];
      }
    }
  }

  /**
   * A token that occurs twice is looked up at its last place, so a digit spelled with an
   * earlier copy reads back as another digit: two digit strings then spell the same tokens.
   */
  lemma DuplicateTokenReadsLast(tokens: seq<string>, i: nat, j: nat)
    requires i < j < |tokens| && tokens[i] == tokens[j]
    ensures Spell([i], tokens) == Spell([j], tokens)
    ensures tokens[i] in IndexMap(tokens) && IndexMap(tokens)[tokens[i]] >= j
    ensures Indices(Spell([i], tokens), IndexMap(tokens)) != Ok([i])
  {
    var index := IndexMap(tokens);
    var t := tokens[i];
    assert t in index.Keys;
    assert index[t] >= j by {
      if index[t] < j {
        IndexMapLast(tokens, t, j);
      }
    }
    assert Spell([i], tokens) == [t];
    assert Indices([t], index) == Ok([index[t]]) by {
      assert [t][..0] == [];
      assert Indices([], index) == Ok([]);
      assert t in index && [] + [index[t]] == [index[t]];
    }
  }

  /** The index of every token in `list`, or the error for the first unknown one. */
  function Indices(list: seq<string>, index: map<string, nat>): (r: Result<seq<nat>>)
    ensures r.Ok? ==> |r.value| == |list|
    decreases |list|
  {
    if |list| == 0 then Ok([])
    else
      var ds :- Indices(list[..|list| - 1], index);
      var t := list[|list| - 1];
      if t !in index then Err(InvalidTokenPrefix + t) else Ok(ds + [index[t]])
  }

  /** What `tokensToString(tokenString, tokens)` returns or throws. */
  function Detokenize(tokenString: string, tokens: seq<string>): Result<string> {
    var list := NonBlank(JsString.Split(tokenString, ' '));
    if |list| == 0 then Err(NoTokens)
    else
      var ds :- Indices(list, IndexMap(tokens));
      var number := Value(ds, |tokens|);
      Ok(Utf8.TextDecode(DigitBytes(DigitsOrZero(number, 256))))
  }

  lemma {:induction false} IndicesPrefixError(list: seq<string>, index: map<string, nat>, k: nat)
    requires k <= |list| && Indices(list[..k], index).Err?
    ensures Indices(list, index) == Indices(list[..k], index)
    decreases |list| - k
  {
    if k < |list| {
      assert list[..k + 1][..k] == list[..k];
      IndicesPrefixError(list, index, k + 1);
    } else {
      assert list[..k] == list;
    }
  }

  /** Every known token gets its index. */
  lemma {:induction false} IndicesKnown(list: seq<string>, index: map<string, nat>)
    requires forall i :: 0 <= i < |list| ==> list[i] in index
    ensures Indices(list, index).Ok?
    decreases |list|
  {
    if |list| > 0 {
      IndicesKnown(list[..|list| - 1], index);
    }
  }

  /** The first token that is not in the list is refused by name. */
  lemma UnknownTokenRefused(tokenString: string, tokens: seq<string>, k: nat)
    requires var list := NonBlank(JsString.Split(tokenString, ' '));
      k < |list| && list[k] !in tokens && forall i :: 0 <= i < k ==> list[i] in tokens
    ensures Detokenize(tokenString, tokens) ==
      Err(InvalidTokenPrefix + NonBlank(JsString.Split(tokenString, ' '))[k])
  {
    var list := NonBlank(JsString.Split(tokenString, ' '));
    var index := IndexMap(tokens);
    assert Indices(list, index) == Err(InvalidTokenPrefix + list[k]) by {
      assert list[..k + 1][..k] == list[..k];
      IndicesKnown(list[..k], index);
      IndicesPrefixError(list, index, k + 1);
    }
  }

  lemma {:induction false} NonBlankOfBlank(parts: seq<string>)
    requires forall k :: 0 <= k < |parts| ==> JsString.IsBlank(parts[k])
    ensures NonBlank(parts) == []
    decreases |parts|
  {
    if |parts| > 0 {
      NonBlankOfBlank(parts[1..]);
    }
  }

  /** A token string of nothing but white space holds no token. */
  lemma BlankRefused(tokenString: string, tokens: seq<string>)
    requires JsString.IsBlank(tokenString)
    ensures Detokenize(tokenString, tokens) == Err(NoTokens)
  {
    JsString.SplitBlank(tokenString, ' ');
    NonBlankOfBlank(JsString.Split(tokenString, ' '));
  }

  /** The `tokens.forEach` loop that fills the lookup object. */
  method BuildIndex(tokens: seq<string>) returns (index: map<string, nat>)
    ensures index == IndexMap(tokens)
  {
    index := map[];
    for idx := 0 to |tokens|
      invariant index == IndexMap(tokens[..idx])
    {
      assert tokens[..idx + 1][..idx] == tokens[..idx];
      index := index[tokens[idx] := idx];
    }
    assert tokens[..|tokens|] == tokens;
  }

  /** The loop that writes the number out as bytes, most significant first. */
  method NumberToBytes(number: nat) returns (bytes: seq<byte>)
    ensures bytes == DigitBytes(DigitsOrZero(number, 256))
  {
    bytes := [];
    var num: nat := number;
    if num == 0 {
      bytes := [0];
    } else {
      ghost var emitted: seq<nat> := [];
      while num > 0
        invariant Digits(num, 256) + emitted == Digits(number, 256)
        invariant forall k :: 0 <= k < |emitted| ==> emitted[k] < 256
        invariant bytes == DigitBytes(emitted)
        decreases num
      {
        DigitsStep(num, 256);
        QuotientSmaller(num, 256);
        DigitBytesCons(num % 256, emitted);
        bytes := [(num % 256) as byte] + bytes;
        emitted := [num % 256] + emitted;
        num := num / 256;
      }
      assert emitted == Digits(number, 256);
    }
  }

  method TokensToString(tokenString: string, tokens: seq<string>) returns (r: Result<string>)
    ensures r == Detokenize(tokenString, tokens)
  {
    var list := NonBlank(JsString.Split(tokenString, ' '));
    if |list| == 0 {
      return Err(NoTokens);
    }
    var index := BuildIndex(tokens);
    var base := |tokens|;
    var number: nat := 0;
    for i := 0 to |list|
      invariant Indices(list[..i], index).Ok?
      invariant number == Value(Indices(list[..i], index).value, base)
    {
      var token := list[i];
      assert list[..i + 1][..i] == list[..i];
      if token !in index {
        IndicesPrefixError(list, index, i + 1);
        return Err(InvalidTokenPrefix + token);
      }
      ValueSnoc(Indices(list[..i], index).value, index[token], base);
      number := number * base + index[token];
    }
    assert list[..|list|] == list;
    var bytes := NumberToBytes(number);
    r := Ok(Utf8.TextDecode(bytes));
  }

  // ---------------------------------------------------------------- round trip

  /** A token list the text can travel through: a working base and an unambiguous lookup. */
  predicate UsableTokens(tokens: seq<string>) {
    |tokens| >= 2 && Distinct(tokens) &&
    forall k :: 0 <= k < |tokens| ==> ' ' !in tokens[k] && !JsString.IsBlank(tokens[k])
  }

  lemma {:induction false} NonBlankKeeps(parts: seq<string>)
    requires forall k :: 0 <= k < |parts| ==> !JsString.IsBlank(parts[k])
    ensures NonBlank(parts) == parts
    decreases |parts|
  {
    if |parts| > 0 {
      NonBlankKeeps(parts[1..]);
      assert parts == [parts[0]] + parts[1..];
    }
  }

  lemma IndexMapDistinct(tokens: seq<string>, i: nat)
    requires Distinct(tokens) && i < |tokens|
    ensures tokens[i] in IndexMap(tokens) && IndexMap(tokens)[tokens[i]] == i
  {
    assert tokens[i] in IndexMap(tokens).Keys;
  }

  lemma {:induction false} IndicesOfSpelled(ds: seq<nat>, tokens: seq<string>)
    requires Distinct(tokens)
    requires forall i :: 0 <= i < |ds| ==> ds[i] < |tokens|
    ensures Indices(Spell(ds, tokens), IndexMap(tokens)) == Ok(ds)
    decreases |ds|
  {
    if |ds| > 0 {
      var init := ds[..|ds| - 1];
      var ts := Spell(ds, tokens);
      assert ts[..|ts| - 1] == Spell(init, tokens);
      IndicesOfSpelled(init, tokens);
      IndexMapDistinct(tokens, ds[|ds| - 1]);
      IndicesStep(ts, IndexMap(tokens), init);
      assert init + [ds[|ds| - 1]] == ds;
    }
  }

  lemma IndicesStep(list: seq<string>, index: map<string, nat>, prefix: seq<nat>)
    requires |list| > 0 && Indices(list[..|list| - 1], index) == Ok(prefix)
    requires list[|list| - 1] in index
    ensures Indices(list, index) == Ok(prefix + [index[list[|list| - 1]]])
  {}

  /** The token string splits back into the tokens that spell the digits. */
  lemma ListOfTokenized(text: string, tokens: seq<string>)
    requires UsableTokens(tokens)
    ensures var ds := DigitsOrZero(Value(ByteDigits(Utf8.Encode(text)), 256), |tokens|);
      NonBlank(JsString.Split(Tokenize(text, tokens), ' ')) == Spell(ds, tokens)
  {
    var ds := DigitsOrZero(Value(ByteDigits(Utf8.Encode(text)), 256), |tokens|);
    var ts := Spell(ds, tokens);
    JsString.SplitJoin(ts, ' ');
    NonBlankKeeps(ts);
  }

  /**
   * A key without spaces whose first `length` lower-cased characters differ yields a token
   * list that the round trip accepts.
   */
  lemma KeyTokensUsable(key: string, length: nat)
    requires |key| > 0 && length >= 2 && ' ' !in key
    requires Distinct(JsString.ToLower(key)[..if length < |key| then length else |key|])
    ensures UsableTokens(TokenList(key, length))
  {
    TokenListDistinct(key, length);
    var tokens := TokenList(key, length);
    var base := JsString.ToLower(key);
    forall k | 0 <= k < length
      ensures ' ' !in tokens[k] && !JsString.IsBlank(tokens[k])
    {
      TokenFields(base, k);
      assert key[k % |key|] in key;
      assert !JsString.IsJsWhitespace(tokens[k][1]);
    }
  }

  /**
   * For a text whose first character is not U+0000 the number keeps every byte, so the
   * round trip loses only a leading U+FEFF, to `TextDecoder`.
   */
  lemma NoNulRoundTrip(text: string, tokens: seq<string>)
    requires UsableTokens(tokens)
    requires |text| > 0 && text[0] != '\0'
    ensures Detokenize(Tokenize(text, tokens), tokens) == Ok(Utf8.StripBom(text))
  {
    var bytes := Utf8.Encode(text);
    Utf8.EncodeEmpty(text);
    Utf8.EncodeFirstByte(text);
    var bd := ByteDigits(bytes);
    var number := Value(bd, 256);
    ValuePositive(bd, 256);
    var ds := DigitsOrZero(number, |tokens|);
    ListOfTokenized(text, tokens);
    IndicesOfSpelled(ds, tokens);
    ValueOfDigitsOrZero(number, |tokens|);
    DigitsOfValue(bd, 256);
    DigitBytesOfByteDigits(bytes);
    Utf8.TextDecodeEncode(text);
  }

  /** The empty text comes back as a single U+0000: its number 0 is written as one zero byte. */
  lemma EmptyTextRoundTrip(tokens: seq<string>)
    requires UsableTokens(tokens)
    ensures Detokenize(Tokenize("", tokens), tokens) == Ok("\0")
  {
    assert Utf8.Encode("") == [];
    assert Value(ByteDigits([]), 256) == 0;
    assert DigitsOrZero(0, |tokens|) == [0];
    ListOfTokenized("", tokens);
    var list := NonBlank(JsString.Split(Tokenize("", tokens), ' '));
    assert list == Spell([0], tokens);
    IndicesOfSpelled([0], tokens);
    assert Value([0], |tokens|) == 0;
    assert DigitBytes(DigitsOrZero(0, 256)) == [0 as byte];
    assert Utf8.TextDecode([0 as byte]) == "\0" by {
      assert Utf8.DecodeStep([0 as byte]) == Utf8.Step('\0', 1, true);
      assert [0 as byte][1..] == [];
    }
  }

  /** The text without its leading U+0000 characters, whose zero bytes the number cannot keep. */
  function DropNul(s: string): (r: string)
    ensures |r| <= |s| && r == s[|s| - |r|..]
    ensures |r| == 0 || r[0] != '\0'
    decreases |s|
  {
    if |s| > 0 && s[0] == '\0' then DropNul(s[1..]) else s
  }

  lemma {:induction false} ValueLeadingZero(ds: seq<nat>, base: nat)
    ensures Value([0] + ds, base) == Value(ds, base)
    decreases |ds|
  {
    if |ds| > 0 {
      assert ([0] + ds)[..|ds|] == [0] + ds[..|ds| - 1];
      ValueLeadingZero(ds[..|ds| - 1], base);
    }
  }

  /** Leading U+0000 characters only put zero bytes in front, which leave the number alone. */
  lemma {:induction false} NumberDropsNul(text: string)
    ensures Value(ByteDigits(Utf8.Encode(text)), 256) == Value(ByteDigits(Utf8.Encode(DropNul(text))), 256)
    decreases |text|
  {
    if |text| > 0 && text[0] == '\0' {
      Utf8.EncodeAppend('\0', text[1..]);
      assert text == ['\0'] + text[1..];
      assert Utf8.EncodeChar('\0') == [0];
      var b := Utf8.Encode(text[1..]);
      assert ByteDigits([0] + b) == [0] + ByteDigits(b);
      ValueLeadingZero(ByteDigits(b), 256);
      NumberDropsNul(text[1..]);
    }
  }

  /**
   * `tokensToString(stringToTokens(text, tokens), tokens)` for every text: the number keeps
   * no leading zero byte, so leading U+0000 characters are lost (all but one when nothing
   * else is left), and `TextDecoder` drops a leading U+FEFF of what remains.
   */
  lemma TokensRoundTrip(text: string, tokens: seq<string>)
    requires UsableTokens(tokens)
    ensures Detokenize(Tokenize(text, tokens), tokens) ==
      Ok(if DropNul(text) == "" then "\0" else Utf8.StripBom(DropNul(text)))
  {
    var rest := DropNul(text);
    NumberDropsNul(text);
    assert Tokenize(text, tokens) == Tokenize(rest, tokens);
    if rest == "" {
      EmptyTextRoundTrip(tokens);
    } else {
      NoNulRoundTrip(rest, tokens);
    }
  }
}
