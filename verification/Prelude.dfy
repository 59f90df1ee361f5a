/** Failure-compatible results, and the text types and small functions that several modules share. */
module Prelude {
  datatype Option<+T> = None | Some(value: T)

  datatype Result<+T, +E> = Ok(value: T) | Err(error: E) {
    predicate IsFailure() { Err? }
    function PropagateFailure<U>(): Result<U, E> requires Err? { Err(error) }
    function Extract(): T requires Ok? { value }
  }

  /** One element of a Python `str`: a Unicode code point, surrogates included. */
  type Code = c: int | 0 <= c < 0x11_0000

  type Text = seq<Code>

  type Byte = b: int | 0 <= b < 256

  type Bytes = seq<Byte>

  predicate IsSurrogate(c: int) { 0xD800 <= c < 0xE000 }

  /** Text that strict UTF-8 can encode. */
  predicate IsScalarText(s: Text) { forall i :: 0 <= i < |s| ==> !IsSurrogate(s[i]) }

  predicate IsAscii(s: Text) { forall i :: 0 <= i < |s| ==> s[i] < 128 }

  /** A lower-case hexadecimal digit. */
  function LowerHex(n: int): Byte
    requires 0 <= n < 16
  {
    if n < 10 then 48 + n else 87 + n
  }

  /** The value of a hexadecimal digit of either case. */
  function HexValue(c: Code): Option<int> {
    if 48 <= c <= 57 then Some(c - 48)
    else if 65 <= c <= 70 then Some(c - 55)
    else if 97 <= c <= 102 then Some(c - 87)
    else None
  }

  lemma SmallerSet<T>(a: set<T>, b: set<T>)
    requires a < b
    ensures |a| < |b|
  {
    assert b == a + (b - a) && |b - a| > 0;
  }
}
