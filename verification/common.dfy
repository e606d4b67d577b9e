/** Shared vocabulary: bytes and the error-carrying result of an operation that can throw. */
module Common {

  /** One element of a Uint8Array. */
  type byte = bv8

  /** A number below 256 survives the trip through a byte. */
  lemma ByteValue(x: int)
    requires 0 <= x < 256
    ensures (x as byte) as int == x
  {}

  datatype Option<+T> = None | Some(value: T)

  /** The outcome of a call that either returns a value or throws an Error with a message. */
  datatype Result<+T> = Ok(value: T) | Err(message: string) {
    predicate IsFailure() { Err? }
    function PropagateFailure<U>(): Result<U> requires Err? { Err(message) }
    function Extract(): T requires Ok? { value }
  }

  /** `p` is a prefix of `s`. */
  predicate StartsWith(s: string, p: string) {
    |p| <= |s| && s[..|p|] == p
  }
}
