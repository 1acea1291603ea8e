/** Go's fixed-width integers on top of unbounded ones, and positional decimal numbers. */
module Numbers {
  import opened Basics

  const MAX_INT32: int := 0x7FFF_FFFF
  const MAX_INT64: int := 0x7FFF_FFFF_FFFF_FFFF
  const TWO_32: int := 0x1_0000_0000
  const TWO_64: int := 0x1_0000_0000_0000_0000

  /** The 32-bit result of adding two 32-bit values, given their exact sum `x`. */
  function Wrap32(x: int): int {
    if x > MAX_INT32 then x - TWO_32 else if x < -MAX_INT32 - 1 then x + TWO_32 else x
  }

  /** The 64-bit result of adding two 64-bit values, given their exact sum `x`. */
  function Wrap64(x: int): int {
    if x > MAX_INT64 then x - TWO_64 else if x < -MAX_INT64 - 1 then x + TWO_64 else x
  }

  /** The number that a sequence of digits stands for, most significant digit first. */
  function Number<T>(value: T -> nat, digits: seq<T>): nat {
    if digits == [] then 0 else Number(value, Front(digits)) * 10 + value(Last(digits))
  }
}
