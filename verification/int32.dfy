/**
 The 32-bit signed integer of the source language (C# `int`), and the
 wrap-around that an unchecked `+=` on it performs.
 */
module Int32Arith {

  const MinValue: int := -0x8000_0000
  const MaxValue: int := 0x7fff_ffff
  const Modulus: int := 0x1_0000_0000

  type Int32 = x: int | MinValue <= x <= MaxValue

  /** Reduces an unbounded sum to the 32-bit value an unchecked C# addition
      leaves behind: the unique representable value congruent to `x`. */
  function Wrap(x: int): (r: Int32)
    ensures (r - x) % Modulus == 0
    ensures MinValue <= x <= MaxValue ==> r == x
  {
    (x - MinValue) % Modulus + MinValue
  }
}
