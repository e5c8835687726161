/** 32-bit integers, and the size of a 64-bit word. */
module Ints {

  const TWO31: int := 0x8000_0000
  const TWO32: int := 0x1_0000_0000
  const WORD: int := 0x1_0000_0000_0000_0000

  predicate Fits32(n: int) {
    -TWO31 <= n < TWO31
  }

  /** A 64-bit value stored in, or passed as, an int. */
  function Wrap32(n: int): (w: int)
    ensures Fits32(w) && (w - n) % TWO32 == 0 && (Fits32(n) ==> w == n)
  {
    (n + TWO31) % TWO32 - TWO31
  }
}
