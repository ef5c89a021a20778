/** Value types shared by the model: Java's fixed-width integers and bytes,
    and an optional value for partial functions. */
module Primitives {

  /** A byte of a digest or of an encoded string. Java's `byte` is signed, but the
      model only ever looks at its low eight bits, which are the same for the
      signed and the unsigned reading, so the unsigned value 0..255 is used. */
  type byte = x: int | 0 <= x < 0x100

  const MinInt: int := -0x8000_0000
  const MaxInt: int := 0x7FFF_FFFF
  const MinLong: int := -0x8000_0000_0000_0000
  const MaxLong: int := 0x7FFF_FFFF_FFFF_FFFF

  /** Java `int`. */
  type Int32 = x: int | MinInt <= x <= MaxInt

  /** Java `long`. */
  type Int64 = x: int | MinLong <= x <= MaxLong

  datatype Option<+T> = None | Some(value: T)
}
