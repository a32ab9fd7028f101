/** Limits of the C# integer types the model has to respect. */
module Limits {

  /** The largest value of a 32-bit signed C# `int`. */
  const Int32Max: int := 0x7FFF_FFFF
}
