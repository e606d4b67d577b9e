/**
 * The keyed substitution (src/utils/substituionCipher.ts): the 65-character base-64 alphabet
 * is shuffled by a downward Fisher-Yates pass driven by a linear congruential generator seeded
 * with the sum of the password's UTF-16 code units; the key sends the k-th alphabet character
 * to the k-th shuffled one.
 */
module SubstitutionCipher {
  import JsString

  /** `'ABCDEFGHIJKLMNOPQRSTUVWXYZabcdefghijklmnopqrstuvwxyz0123456789+/='`. */
  const Alphabet: string := JsString.Run('A', 26) + JsString.Run('a', 26) + JsString.Run('0', 10) + "+/="

  const Multiplier := 9301
  const Increment := 49297
  const Modulus := 233280

  predicate Distinct(s: seq<char>) {
    forall i, j :: 0 <= i < j < |s| ==> s[i] != s[j]
  }

  /** `/[A-Za-z0-9+\/=]/`: the characters of the alphabet. */
  predicate IsAlphabetChar(c: char) {
    'A' <= c <= 'Z' || 'a' <= c <= 'z' || '0' <= c <= '9' || c == '+' || c == '/' || c == '='
  }

  /** Where `c` stands in the alphabet, if it is in it. */
  function AlphabetIndex(c: char): (k: int)
    ensures -1 <= k < |Alphabet|
    ensures k >= 0 <==> IsAlphabetChar(c)
    ensures k >= 0 ==> Alphabet[k] == c
  {
    if 'A' <= c <= 'Z' then c as int - 'A' as int
    else if 'a' <= c <= 'z' then 26 + (c as int - 'a' as int)
    else if '0' <= c <= '9' then 52 + (c as int - '0' as int)
    else if c == '+' then 62
    else if c == '/' then 63
    else if c == '=' then 64
    else -1
  }

  lemma AlphabetIndexOf(k: nat)
    requires k < |Alphabet|
    ensures IsAlphabetChar(Alphabet[k]) && AlphabetIndex(Alphabet[k]) == k
  {
    if k >= 62 {
      assert Alphabet[62..] == "+/=";
      assert Alphabet[k] == "+/="[k - 62];
    }
  }

  /** No character occurs twice in the alphabet. */
  lemma AlphabetDistinct()
    ensures Distinct(Alphabet)
  {
    forall i, j | 0 <= i < j < |Alphabet|
      ensures Alphabet[i] != Alphabet[j]
    {
      AlphabetIndexOf(i);
      AlphabetIndexOf(j);
    }
  }

  /** The UTF-16 code units of `c`, added up: what `charCodeAt` contributes for it. */
  function CodeUnitSum(c: char): nat {
    var u := c as int;
    if u < 0x10000 then u
    else (0xD800 + (u - 0x10000) / 0x400) + (0xDC00 + (u - 0x10000) % 0x400)
  }

  /** The initial seed: the sum of the password's char codes. */
  function CharCodeSum(password: string): nat
    decreases |password|
  {
    if |password| == 0 then 0
    else CharCodeSum(password[..|password| - 1]) + CodeUnitSum(password[|password| - 1])
  }

  /** One step of the generator `seed = (seed * 9301 + 49297) % 233280`. */
  function NextSeed(seed: nat): (next: nat)
    ensures next < Modulus
  {
    (seed * Multiplier + Increment) % Modulus
  }

  function Swap(s: seq<char>, i: nat, j: nat): (r: seq<char>)
    requires i < |s| && j < |s|
    ensures |r| == |s| && r[i] == s[j] && r[j] == s[i]
    ensures forall k :: 0 <= k < |s| && k != i && k != j ==> r[k] == s[k]
  {
    s[i := s[j]][j := s[i]]
  }

  lemma SwapPermutes(s: seq<char>, i: nat, j: nat)
    requires i < |s| && j < |s|
    ensures multiset(Swap(s, i, j)) == multiset(s)
    ensures Distinct(s) ==> Distinct(Swap(s, i, j))
  {
    var t := s[i := s[j]];
    assert multiset(t) == multiset(s) - multiset{s[i]} + multiset{s[j]};
    assert multiset(t[j := s[i]]) == multiset(t) - multiset{t[j]} + multiset{s[i]};
  }

  /** The rest of the shuffle from index i down, starting from `seed`. */
  function ShuffleFrom(s: seq<char>, i: nat, seed: nat): (r: seq<char>)
    requires i < |s|
    ensures |r| == |s|
    decreases i
  {
    if i == 0 then s
    else
      var next := NextSeed(seed);
      ShuffleFrom(Swap(s, i, next % (i + 1)), i - 1, next)
  }

  /** `shuffled` once the Fisher-Yates loop has run. */
  function Shuffled(password: string): (r: seq<char>)
    ensures |r| == |Alphabet|
  {
    ShuffleFrom(Alphabet, |Alphabet| - 1, CharCodeSum(password))
  }

  /** The shuffle only moves characters: a permutation, and without repeats if there were none. */
  lemma {:induction false} ShufflePermutes(s: seq<char>, i: nat, seed: nat)
    requires i < |s|
    ensures multiset(ShuffleFrom(s, i, seed)) == multiset(s)
    ensures Distinct(s) ==> Distinct(ShuffleFrom(s, i, seed))
    decreases i
  {
    if i > 0 {
      var next := NextSeed(seed);
      SwapPermutes(s, i, next % (i + 1));
      ShufflePermutes(Swap(s, i, next % (i + 1)), i - 1, next);
    }
  }

  /** The map after `substitutionMap[chars[k]] = shuffled[k]` for every k below n. */
  function KeyTable(shuffled: seq<char>, n: nat): (m: map<char, char>)
    requires n <= |Alphabet| <= |shuffled|
    ensures m.Keys == set k | 0 <= k < n :: Alphabet[k]
  {
    if n == 0 then map[] else KeyTable(shuffled, n - 1)[Alphabet[n - 1] := shuffled[n - 1]]
  }

  /** What `createSubstitutionKey(password)` returns. */
  function SubstitutionKey(password: string): map<char, char> {
    KeyTable(Shuffled(password), |Alphabet|)
  }

  /** The Fisher-Yates loop over `shuffled`, from the last index down to 1. */
  method ShuffleInPlace(shuffled: array<char>, seed0: nat)
    requires shuffled.Length > 0
    modifies shuffled
    ensures shuffled[..] == ShuffleFrom(old(shuffled[..]), shuffled.Length - 1, seed0)
  {
    var seed: nat := seed0;
    var i := shuffled.Length - 1;
    while i > 0
      invariant 0 <= i < shuffled.Length
      invariant ShuffleFrom(shuffled[..], i, seed) == ShuffleFrom(old(shuffled[..]), shuffled.Length - 1, seed0)
    {
      ghost var before, seedBefore := shuffled[..], seed;
      seed := NextSeed(seed);
      var j := seed % (i + 1);
      assert 0 <= j <= i;
      shuffled[i], shuffled[j] := shuffled[j], shuffled[i];
      assert shuffled[..] == Swap(before, i, j);
      assert ShuffleFrom(before, i, seedBefore) == ShuffleFrom(shuffled[..], i - 1, seed);
      i := i - 1;
    }
  }

  method CreateSubstitutionKey(password: string) returns (m: map<char, char>)
    ensures m == SubstitutionKey(password)
  {
    var shuffled := new char[|Alphabet|](k requires 0 <= k < |Alphabet| => Alphabet[k]);
    assert shuffled[..] == Alphabet;
    var seed: nat := 0;
    for k := 0 to |password|
      invariant seed == CharCodeSum(password[..k])
    {
      assert password[..k + 1][..k] == password[..k];
      seed := seed + CodeUnitSum(password[k]);
    }
    assert password[..|password|] == password;
    ShuffleInPlace(shuffled, seed);
    m := map[];
    for k := 0 to |Alphabet|
      invariant m == KeyTable(shuffled[..], k)
    {
      m := m[Alphabet[k] := shuffled[k]];
    }
  }

  lemma {:induction false} KeyTableAt(shuffled: seq<char>, n: nat, k: nat)
    requires k < n <= |Alphabet| <= |shuffled|
    ensures KeyTable(shuffled, n)[Alphabet[k]] == shuffled[k]
  {
    if k < n - 1 {
      AlphabetIndexOf(k);
      AlphabetIndexOf(n - 1);
      KeyTableAt(shuffled, n - 1, k);
    }
  }

  /** A map that is a bijection from the alphabet onto itself. */
  predicate IsAlphabetPermutation(m: map<char, char>) {
    (forall c :: c in m.Keys <==> IsAlphabetChar(c)) &&
    (forall c :: c in m.Values <==> IsAlphabetChar(c)) &&
    (forall c, d | c in m && d in m && c != d :: m[c] != m[d])
  }

  /** The shuffled alphabet holds each alphabet character exactly once. */
  lemma ShuffledFacts(password: string)
    ensures multiset(Shuffled(password)) == multiset(Alphabet)
    ensures Distinct(Shuffled(password))
  {
    AlphabetDistinct();
    ShufflePermutes(Alphabet, |Alphabet| - 1, CharCodeSum(password));
  }

  lemma KeyDomain(password: string)
    ensures forall c :: c in SubstitutionKey(password) <==> IsAlphabetChar(c)
  {
    var m := SubstitutionKey(password);
    forall c
      ensures c in m <==> IsAlphabetChar(c)
    {
      if IsAlphabetChar(c) {
        assert Alphabet[AlphabetIndex(c)] in m;
      }
      if c in m {
        var k :| 0 <= k < |Alphabet| && Alphabet[k] == c;
        AlphabetIndexOf(k);
      }
    }
  }

  lemma KeyValuesWithin(password: string)
    ensures forall c | c in SubstitutionKey(password).Values :: IsAlphabetChar(c)
  {
    var sh := Shuffled(password);
    var m := SubstitutionKey(password);
    ShuffledFacts(password);
    forall c | c in m.Values
      ensures IsAlphabetChar(c)
    {
      var d :| d in m && m[d] == c;
      var k := AlphabetIndex(d);
      KeyTableAt(sh, |Alphabet|, k);
      assert sh[k] in multiset(Alphabet);
      var k' :| 0 <= k' < |Alphabet| && Alphabet[k'] == sh[k];
      AlphabetIndexOf(k');
    }
  }

  lemma KeyValuesCover(password: string)
    ensures forall c | IsAlphabetChar(c) :: c in SubstitutionKey(password).Values
  {
    var sh := Shuffled(password);
    var m := SubstitutionKey(password);
    ShuffledFacts(password);
    forall c | IsAlphabetChar(c)
      ensures c in m.Values
    {
      assert Alphabet[AlphabetIndex(c)] == c;
      assert c in multiset(sh);
      var k :| 0 <= k < |sh| && sh[k] == c;
      KeyTableAt(sh, |Alphabet|, k);
      assert Alphabet[k] in m;
    }
  }

  lemma KeyInjective(password: string)
    ensures var m := SubstitutionKey(password);
      forall c, d | c in m && d in m && c != d :: m[c] != m[d]
  {
    var sh := Shuffled(password);
    var m := SubstitutionKey(password);
    ShuffledFacts(password);
    forall c, d | c in m && d in m && c != d
      ensures m[c] != m[d]
    {
      var kc, kd := AlphabetIndex(c), AlphabetIndex(d);
      KeyTableAt(sh, |Alphabet|, kc);
      KeyTableAt(sh, |Alphabet|, kd);
    }
  }

  /** The substitution key is a bijection from the alphabet onto itself. */
  lemma SubstitutionKeyIsPermutation(password: string)
    ensures IsAlphabetPermutation(SubstitutionKey(password))
  {
    KeyDomain(password);
    KeyValuesWithin(password);
    KeyValuesCover(password);
    KeyInjective(password);
  }

  /** The key depends on the password only through the sum of its char codes. */
  lemma SameSumSameKey(p: string, q: string)
    requires CharCodeSum(p) == CharCodeSum(q)
    ensures SubstitutionKey(p) == SubstitutionKey(q)
  {}

  /** `rev` undoes `m`: its keys are the values of `m`, each sent back to a preimage. */
  predicate IsReverseOf(rev: map<char, char>, m: map<char, char>) {
    rev.Keys == m.Values &&
    forall v | v in rev :: rev[v] in m && m[rev[v]] == v
  }

  /**
   * `createReverseSubstitutionKey(m)`: each entry (original, substituted) sets
   * `reverseMap[substituted] = original`.  The entries are visited in an unspecified order.
   */
  method CreateReverseSubstitutionKey(m: map<char, char>) returns (rev: map<char, char>)
    ensures IsReverseOf(rev, m)
  {
    rev := map[];
    var remaining := m.Keys;
    while remaining != {}
      invariant remaining <= m.Keys
      invariant rev.Keys == (m - remaining).Values
      invariant forall v | v in rev :: rev[v] in m && rev[v] !in remaining && m[rev[v]] == v
      decreases remaining
    {
      var original :| original in remaining;
      ValuesUpdate(m - remaining, original, m[original]);
      assert m - (remaining - {original}) == (m - remaining)[original := m[original]];
      rev := rev[m[original] := original];
      remaining := remaining - {original};
    }
    assert m - remaining == m;
  }

  lemma ValuesUpdate(before: map<char, char>, k: char, v: char)
    requires k !in before
    ensures before[k := v].Values == before.Values + {v}
  {
    var after := before[k := v];
    forall w | w in before.Values
      ensures w in after.Values
    {
      var d :| d in before && before[d] == w;
      assert after[d] == w;
    }
    assert after[k] == v;
  }

  /** For an injective map every reverse sends `m[c]` back to `c`. */
  lemma ReverseInverts(rev: map<char, char>, m: map<char, char>, c: char)
    requires IsReverseOf(rev, m)
    requires forall a, b | a in m && b in m && a != b :: m[a] != m[b]
    requires c in m
    ensures m[c] in rev && rev[m[c]] == c
  {}

  /** The reverse of a password's key sends every alphabet character's image back to it. */
  lemma ReverseOfKey(password: string, rev: map<char, char>, c: char)
    requires IsReverseOf(rev, SubstitutionKey(password))
    requires IsAlphabetChar(c)
    ensures c in SubstitutionKey(password)
    ensures SubstitutionKey(password)[c] in rev && rev[SubstitutionKey(password)[c]] == c
  {
    SubstitutionKeyIsPermutation(password);
    ReverseInverts(rev, SubstitutionKey(password), c);
  }

  /** `applySubstitution(text, m)`: mapped characters replaced, the others kept. */
  function ApplySubstitution(text: string, m: map<char, char>): (r: string)
    ensures |r| == |text|
    ensures forall i :: 0 <= i < |text| && text[i] !in m ==> r[i] == text[i]
  {
    seq(|text|, i requires 0 <= i < |text| => if text[i] in m then m[text[i]] else text[i])
  }

  /** One character through a permutation of the alphabet and back. */
  lemma CharRoundTrip(c: char, m: map<char, char>, rev: map<char, char>)
    requires IsAlphabetPermutation(m) && IsReverseOf(rev, m)
    ensures var d := if c in m then m[c] else c;
      (if d in rev then rev[d] else d) == c
  {
    if c in m {
      ReverseInverts(rev, m, c);
    } else {
      assert c !in m.Values;
    }
  }

  /** Substituting with a permutation of the alphabet and then with its reverse is the identity. */
  lemma ApplyRoundTrip(text: string, m: map<char, char>, rev: map<char, char>)
    requires IsAlphabetPermutation(m) && IsReverseOf(rev, m)
    ensures ApplySubstitution(ApplySubstitution(text, m), rev) == text
  {
    forall i | 0 <= i < |text|
      ensures ApplySubstitution(ApplySubstitution(text, m), rev)[i] == text[i]
    {
      CharRoundTrip(text[i], m, rev);
    }
  }

  /** `applySubstitution(applySubstitution(t, key), reverse(key)) == t` for every text. */
  lemma SubstitutionRoundTrip(text: string, password: string, rev: map<char, char>)
    requires IsReverseOf(rev, SubstitutionKey(password))
    ensures ApplySubstitution(ApplySubstitution(text, SubstitutionKey(password)), rev) == text
  {
    SubstitutionKeyIsPermutation(password);
    ApplyRoundTrip(text, SubstitutionKey(password), rev);
  }
}
