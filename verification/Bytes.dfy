/** Bytes, and text as C sees it. */
module Bytes {
  newtype Byte = x: int | 0 <= x < 256

  /** The byte of an ASCII character. */
  function Chr(c: char): Byte {
    if c as int < 128 then c as int as Byte else 0
  }

  predicate Digit(b: Byte) {
    48 <= b <= 57
  }

  lemma Associate(a: seq<Byte>, b: seq<Byte>, c: seq<Byte>)
    ensures a + (b + c) == a + b + c
  {
  }

  /** Text ends with a NUL. */
  function At(s: seq<Byte>, i: nat): Byte {
    if i < |s| then s[i] else 0
  }
}
