/**
 * The few JavaScript string operations the utilities lean on: `split` and `join` with a
 * one-character separator, `trim` emptiness, `String(n)` for a positive integer, and
 * `toLowerCase`.  Strings are sequences of Unicode scalar values.
 */
module JsString {

  /** ECMAScript WhiteSpace and LineTerminator code points: what `trim` removes. */
  predicate IsJsWhitespace(c: char) {
    var u := c as int;
    (0x09 <= u <= 0x0D) || u == 0x20 || u == 0xA0 || u == 0x1680 || (0x2000 <= u <= 0x200A) ||
    u == 0x2028 || u == 0x2029 || u == 0x202F || u == 0x205F || u == 0x3000 || u == 0xFEFF
  }

  /** `s.trim()` is the empty string. */
  predicate IsBlank(s: string) {
    forall i :: 0 <= i < |s| ==> IsJsWhitespace(s[i])
  }

  /** `parts.join(sep)`. */
  function Join(parts: seq<string>, sep: char): string
    decreases |parts|
  {
    if |parts| == 0 then ""
    else if |parts| == 1 then parts[0]
    else parts[0] + [sep] + Join(parts[1..], sep)
  }

  /** `s.split(sep)`: the maximal separator-free pieces, empty ones included. */
  function Split(s: string, sep: char): (parts: seq<string>)
    ensures |parts| >= 1
    ensures forall k :: 0 <= k < |parts| ==> sep !in parts[k]
    ensures Join(parts, sep) == s
    decreases |s|
  {
    if |s| == 0 then [""]
    else
      var rest := Split(s[1..], sep);
      if s[0] == sep then
        assert s == [sep] + s[1..];
        [""] + rest
      else
        assert s == [s[0]] + s[1..];
        [[s[0]] + rest[0]] + rest[1..]
  }

  lemma {:induction false} JoinCons(p: string, parts: seq<string>, sep: char)
    requires |parts| >= 1
    ensures Join([p] + parts, sep) == p + [sep] + Join(parts, sep)
  {
    assert ([p] + parts)[1..] == parts;
  }

  /** Joining adds no character beyond the pieces' and the separator. */
  lemma {:induction false} JoinWithin(parts: seq<string>, sep: char, allowed: set<char>)
    requires sep in allowed
    requires forall p, c :: p in parts && c in p ==> c in allowed
    ensures forall c :: c in Join(parts, sep) ==> c in allowed
    decreases |parts|
  {
    if |parts| == 1 {
      assert parts[0] in parts;
    } else if |parts| > 1 {
      JoinWithin(parts[1..], sep, allowed);
      assert parts[0] in parts;
      assert forall p :: p in parts[1..] ==> p in parts;
    }
  }

  /** Splitting undoes joining when no piece contains the separator. */
  lemma {:induction false} SplitJoin(parts: seq<string>, sep: char)
    requires |parts| >= 1
    requires forall k :: 0 <= k < |parts| ==> sep !in parts[k]
    ensures Split(Join(parts, sep), sep) == parts
    decreases |parts|, |parts[0]|
  {
    var p := parts[0];
    if |p| == 0 {
      if |parts| > 1 {
        SplitJoin(parts[1..], sep);
        assert Join(parts, sep) == [sep] + Join(parts[1..], sep);
        assert ([sep] + Join(parts[1..], sep))[1..] == Join(parts[1..], sep);
        assert parts == [""] + parts[1..];
      }
    } else {
      var tail := [p[1..]] + parts[1..];
      SplitJoin(tail, sep);
      var j := Join(parts, sep);
      if |parts| == 1 {
        assert j == p && j[1..] == Join(tail, sep);
      } else {
        assert j == p + [sep] + Join(parts[1..], sep);
        assert Join(tail, sep) == p[1..] + [sep] + Join(parts[1..], sep) by {
          JoinCons(p[1..], parts[1..], sep);
        }
        assert j[1..] == Join(tail, sep);
      }
      assert j[0] == p[0] && p[0] != sep;
      assert [p[0]] + p[1..] == p;
      assert parts == [p] + tail[1..];
    }
  }

  /** A string of white space splits into pieces of white space. */
  lemma {:induction false} SplitBlank(s: string, sep: char)
    requires IsBlank(s)
    ensures forall k :: 0 <= k < |Split(s, sep)| ==> IsBlank(Split(s, sep)[k])
    decreases |s|
  {
    if |s| > 0 {
      assert IsBlank(s[1..]) by {
        forall i | 0 <= i < |s| - 1 ensures IsJsWhitespace(s[1..][i]) {
          assert s[1..][i] == s[i + 1];
        }
      }
      SplitBlank(s[1..], sep);
      var rest := Split(s[1..], sep);
      if s[0] != sep {
        var first := [s[0]] + rest[0];
        assert IsBlank(first) by {
          forall i | 0 <= i < |first| ensures IsJsWhitespace(first[i]) {
            if i > 0 {
              assert first[i] == rest[0][i - 1];
            }
          }
        }
      }
    }
  }

  /** `count` consecutive characters from `first` on. */
  function Run(first: char, count: nat): (s: string)
    requires first as int + count <= 0xD800
    ensures |s| == count && forall i :: 0 <= i < count ==> s[i] as int == first as int + i
  {
    seq(count, i requires 0 <= i < count => (first as int + i) as char)
  }

  /** The decimal digit character for `d`. */
  function DigitChar(d: nat): char
    requires d < 10
  {
    ('0' as int + d) as char
  }

  /** `String(n)`: the shortest decimal numeral for `n`. */
  function DecimalString(n: nat): (s: string)
    ensures |s| >= 1
    ensures forall i :: 0 <= i < |s| ==> '0' <= s[i] <= '9'
    ensures n > 0 ==> s[0] != '0'
    decreases n
  {
    if n < 10 then [DigitChar(n)] else DecimalString(n / 10) + [DigitChar(n % 10)]
  }

  /** The value of a string of decimal digits (an independent reading of a numeral). */
  function DecimalValue(s: string): nat
    requires forall i :: 0 <= i < |s| ==> '0' <= s[i] <= '9'
    decreases |s|
  {
    if |s| == 0 then 0 else DecimalValue(s[..|s| - 1]) * 10 + (s[|s| - 1] as int - '0' as int)
  }

  lemma {:induction false} DecimalRoundTrip(n: nat)
    ensures DecimalValue(DecimalString(n)) == n
    decreases n
  {
    if n >= 10 {
      DecimalRoundTrip(n / 10);
      var s := DecimalString(n);
      assert s[..|s| - 1] == DecimalString(n / 10);
    }
  }

  /** Distinct numbers have distinct decimal numerals. */
  lemma DecimalStringInjective(a: nat, b: nat)
    requires DecimalString(a) == DecimalString(b)
    ensures a == b
  {
    DecimalRoundTrip(a);
    DecimalRoundTrip(b);
  }

  /**
   * `toLowerCase` on one character, for the Basic Latin and Latin-1 blocks: A-Z and
   * U+00C0-U+00DE except U+00D7 move up by 32; every other character is left alone.
   */
  function LowerChar(c: char): char {
    if 'A' <= c <= 'Z' || ('\U{C0}' <= c <= '\U{DE}' && c != '\U{D7}') then (c as int + 32) as char else c
  }

  /** `s.toLowerCase()`, character by character. */
  function ToLower(s: string): (r: string)
    ensures |r| == |s|
  {
    seq(|s|, i requires 0 <= i < |s| => LowerChar(s[i]))
  }
}
