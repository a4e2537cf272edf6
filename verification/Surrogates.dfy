/** Surrogate pairs of 16-bit units. */
module Surrogates {

  predicate IsHi(u: int) { 0xD800 <= u < 0xDC00 }

  predicate IsLo(u: int) { 0xDC00 <= u < 0xE000 }

  /** The code point of a pair. */
  function FromSurrogate(hi: int, lo: int): (c: int)
    requires IsHi(hi) && IsLo(lo)
    ensures 0x1_0000 <= c < 0x11_0000
  {
    0x1_0000 + 1024 * (hi % 1024) + lo % 1024
  }
}
