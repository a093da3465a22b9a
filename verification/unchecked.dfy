/**
  C# integer arithmetic outside a `checked` context: the exact result reduced into the
  32-bit range of `int`, two's complement.
*/
module Unchecked {

  const MinValue: int := -0x8000_0000
  const MaxValue: int := 0x7fff_ffff

  /** Two's-complement wrap-around of a mathematical integer into the 32-bit range. */
  function Wrap(x: int): (w: int)
    ensures MinValue <= w <= MaxValue
    ensures MinValue <= x <= MaxValue ==> w == x
    ensures MinValue - 0x1_0000_0000 <= x < MinValue ==> w == x + 0x1_0000_0000
    ensures MaxValue < x <= MaxValue + 0x1_0000_0000 ==> w == x - 0x1_0000_0000
  {
    (x - MinValue) % 0x1_0000_0000 + MinValue
  }
}
