/** The conversion of the language's 64-bit integers to the C type `int`. */
module Integers {

  type Int64 = x: int | -0x8000_0000_0000_0000 <= x < 0x8000_0000_0000_0000

  const INT_MAX: int := 0x7FFF_FFFF

  /** The lower 32 bits as a two's complement number. */
  function ToInt(x: int): (r: int)
    ensures -0x8000_0000 <= r <= INT_MAX && (x - r) % 0x1_0000_0000 == 0
    ensures -0x8000_0000 <= x <= INT_MAX ==> r == x
  {
    (x + 0x8000_0000) % 0x1_0000_0000 - 0x8000_0000
  }
}
