/** The C integer types and operators the library's arithmetic relies on. */
module CInt {
  const INT_MIN := -0x8000_0000
  const INT_MAX := 0x7fff_ffff
  const INT64_MIN := -0x8000_0000_0000_0000
  const INT64_MAX := 0x7fff_ffff_ffff_ffff
  const TWO_32 := 0x1_0000_0000
  const TWO_64 := 0x1_0000_0000_0000_0000

  /** Declaring a variable with one of these types obliges every assignment to it not to overflow. */
  type int64 = x: int | INT64_MIN <= x <= INT64_MAX
  type uint32 = x: int | 0 <= x < TWO_32
  type byte = x: int | 0 <= x < 256

  datatype Option<+T> = None | Some(value: T)

  /** C division truncates toward zero; Dafny's rounds down for a positive divisor. */
  function TruncDiv(a: int, b: int): int
    requires b > 0
  {
    if a >= 0 then a / b else -((-a) / b)
  }

  function TruncMod(a: int, b: int): int
    requires b > 0
  {
    a - TruncDiv(a, b) * b
  }

  /** Two's-complement wrap-around of a 64-bit sum. */
  function Wrap64(x: int): int64 {
    (x + 0x8000_0000_0000_0000) % TWO_64 - 0x8000_0000_0000_0000
  }
}
