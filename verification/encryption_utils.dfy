/**
 * The XOR layer (src/utils/encryptionUtils.ts): a key derived from the password by folding
 * its UTF-8 bytes into a 32-byte accumulator with XOR and tiling that accumulator, then a
 * byte-wise XOR of the data with the key, carried as base 64.
 */
module EncryptionUtils {
  import opened Common
  import Utf8
  import Base64

  const HashSize := 32

  /** The accumulator after `hash[i % 32] ^= data[i]` for every i, in order. */
  function Fold(data: seq<byte>): (hash: seq<byte>)
    ensures |hash| == HashSize
    decreases |data|
  {
    if |data| == 0 then seq(HashSize, _ => 0)
    else
      var h := Fold(data[..|data| - 1]);
      var j := (|data| - 1) % HashSize;
      h[j := h[j] ^ data[|data| - 1]]
  }

  /** The XOR of the bytes data[k] with k mod 32 == j: one column read on its own. */
  function ColumnXor(data: seq<byte>, j: nat): byte
    decreases |data|
  {
    if |data| == 0 then 0
    else if (|data| - 1) % HashSize == j then ColumnXor(data[..|data| - 1], j) ^ data[|data| - 1]
    else ColumnXor(data[..|data| - 1], j)
  }

  /** The key `deriveKey(password, length)` returns: the accumulator, tiled. */
  function KeyStream(password: string, length: nat): (key: seq<byte>)
    ensures |key| == length
  {
    var hash := Fold(Utf8.Encode(password));
    seq(length, i requires 0 <= i < length => hash[i % HashSize])
  }

  /** `data[i] ^ key[i]` for every i. */
  function Mask(data: seq<byte>, key: seq<byte>): (r: seq<byte>)
    requires |key| == |data|
    ensures |r| == |data|
  {
    seq(|data|, i requires 0 <= i < |data| => data[i] ^ key[i])
  }

  /** What `xorEncrypt(plaintext, password)` returns. */
  function Encrypted(plaintext: string, password: string): string {
    var data := Utf8.Encode(plaintext);
    Base64.EncodeBytes(Mask(data, KeyStream(password, |data|)))
  }

  /** What `xorDecrypt(ciphertext, password)` returns or throws. */
  function Decrypted(ciphertext: string, password: string): Result<string> {
    match Base64.Atob(ciphertext)
    case Err(m) => Err(m)
    case Ok(bin) =>
      var encrypted := Base64.ToBytes(bin);
      Ok(Utf8.TextDecode(Mask(encrypted, KeyStream(password, |encrypted|))))
  }

  method DeriveKey(password: string, length: nat) returns (key: array<byte>)
    ensures fresh(key)
    ensures key[..] == KeyStream(password, length)
  {
    var data := Utf8.Encode(password);
    var hash := new byte[HashSize](_ => 0);
    for i := 0 to |data|
      invariant hash[..] == Fold(data[..i])
    {
      assert data[..i + 1][..i] == data[..i];
      hash[i % HashSize] := hash[i % HashSize] ^ data[i];
    }
    assert data[..|data|] == data;
    key := new byte[length];
    for i := 0 to length
      invariant hash[..] == Fold(data)
      invariant forall k :: 0 <= k < i ==> key[k] == hash[k % HashSize]
    {
      key[i] := hash[i % HashSize];
    }
  }

  /** The loop both directions share: `out[i] = data[i] ^ key[i]` into a new array. */
  method XorBytes(data: seq<byte>, key: array<byte>) returns (out: array<byte>)
    requires key.Length == |data|
    ensures fresh(out)
    ensures out[..] == Mask(data, key[..])
  {
    out := new byte[|data|];
    for i := 0 to |data|
      invariant forall k :: 0 <= k < i ==> out[k] == data[k] ^ key[k]
    {
      out[i] := data[i] ^ key[i];
    }
  }

  method XorEncrypt(plaintext: string, password: string) returns (ciphertext: string)
    ensures ciphertext == Encrypted(plaintext, password)
  {
    var data := Utf8.Encode(plaintext);
    var key := DeriveKey(password, |data|);
    var encrypted := XorBytes(data, key);
    Base64.BtoaFromBytes(encrypted[..]);
    ciphertext := Base64.Btoa(Base64.FromBytes(encrypted[..])).value;
  }

  method XorDecrypt(ciphertext: string, password: string) returns (r: Result<string>)
    ensures r == Decrypted(ciphertext, password)
  {
    var bin := Base64.Atob(ciphertext);
    if bin.Err? {
      return Err(bin.message);
    }
    var encrypted := Base64.ToBytes(bin.value);
    var key := DeriveKey(password, |encrypted|);
    var decrypted := XorBytes(encrypted, key);
    r := Ok(Utf8.TextDecode(decrypted[..]));
  }

  /** Byte j of the accumulator is the XOR of the password bytes at positions j mod 32. */
  lemma {:induction false} FoldIsColumnXor(data: seq<byte>, j: nat)
    requires j < HashSize
    ensures Fold(data)[j] == ColumnXor(data, j)
    decreases |data|
  {
    if |data| > 0 {
      FoldIsColumnXor(data[..|data| - 1], j);
    }
  }

  /** Key byte i is the XOR of the password's UTF-8 bytes whose position is i mod 32. */
  lemma KeyColumns(password: string, length: nat, i: nat)
    requires i < length
    ensures KeyStream(password, length)[i] == ColumnXor(Utf8.Encode(password), i % HashSize)
  {
    FoldIsColumnXor(Utf8.Encode(password), i % HashSize);
  }

  /** The key repeats with period 32. */
  lemma KeyPeriodic(password: string, length: nat, i: nat)
    requires i + HashSize < length
    ensures KeyStream(password, length)[i] == KeyStream(password, length)[i + HashSize]
  {}

  /** Keys for the same password agree on their common prefix. */
  lemma KeyPrefix(password: string, m: nat, n: nat)
    requires m <= n
    ensures KeyStream(password, m) == KeyStream(password, n)[..m]
  {}

  /** An empty password gives an all-zero key, so masking changes nothing. */
  lemma EmptyPasswordKey(data: seq<byte>)
    ensures KeyStream("", |data|) == seq(|data|, _ => 0)
    ensures Mask(data, KeyStream("", |data|)) == data
  {
    assert Utf8.Encode("") == [];
  }

  /** Masking twice with the same key gives the data back. */
  lemma MaskTwice(data: seq<byte>, key: seq<byte>)
    requires |key| == |data|
    ensures Mask(Mask(data, key), key) == data
  {}

  /**
   * `xorDecrypt(xorEncrypt(p, pw), pw)` is `p`, except that a leading U+FEFF is lost to the
   * byte order mark handling of `TextDecoder`.
   */
  lemma XorRoundTrip(plaintext: string, password: string)
    ensures Decrypted(Encrypted(plaintext, password), password) == Ok(Utf8.StripBom(plaintext))
  {
    var data := Utf8.Encode(plaintext);
    var masked := Mask(data, KeyStream(password, |data|));
    Base64.ForgivingDecodeEncode(masked);
    Base64.ToBytesFromBytes(masked);
    MaskTwice(data, KeyStream(password, |data|));
    Utf8.TextDecodeEncode(plaintext);
  }

  /** The round trip keeps every text that does not start with U+FEFF. */
  lemma XorRoundTripExact(plaintext: string, password: string)
    requires |plaintext| == 0 || plaintext[0] != Utf8.Bom
    ensures Decrypted(Encrypted(plaintext, password), password) == Ok(plaintext)
  {
    XorRoundTrip(plaintext, password);
  }

  /** A text that starts with U+FEFF comes back without it: "\uFEFFa" decrypts to "a". */
  lemma LeadingBomLost(password: string)
    ensures Decrypted(Encrypted("\U{FEFF}a", password), password) == Ok("a")
  {
    XorRoundTrip("\U{FEFF}a", password);
    assert "\U{FEFF}a"[1..] == "a";
  }
}
