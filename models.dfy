/** The data model of the groceries service (Source/GroceriesAPI/Models/Item.cs). */
module Models {

  /** C#'s `int`: a 32-bit two's-complement integer. */
  newtype Int32 = x: int | -0x8000_0000 <= x < 0x8000_0000

  const MinInt32: Int32 := -0x8000_0000
  const MaxInt32: Int32 := 0x7fff_ffff

  /** Reduces an unbounded integer to the 32-bit value it denotes under
      two's-complement wrap-around. */
  function ToInt32(x: int): (r: Int32)
    ensures MinInt32 as int <= x <= MaxInt32 as int ==> r as int == x
  {
    ((x + 0x8000_0000) % 0x1_0000_0000 - 0x8000_0000) as Int32
  }

  /** The wrapped value differs from the exact one by a multiple of 2^32. */
  lemma ToInt32Congruent(x: int)
    ensures (ToInt32(x) as int - x) % 0x1_0000_0000 == 0
  {
  }

  /** `n + 1` evaluated in C#'s default unchecked context: the largest value
      wraps to the smallest. */
  function Succ(n: Int32): (r: Int32)
    ensures r == ToInt32(n as int + 1)
    ensures n < MaxInt32 ==> r as int == n as int + 1
  {
    if n == MaxInt32 then MinInt32 else n + 1
  }

  /** C#'s `decimal`: a signed integer mantissa scaled by a power of ten.
      The repository never computes with it, so it is only carried along. */
  datatype Decimal = Decimal(mantissa: int, scale: nat)

  /** A grocery item; `Id` is the field marked `[Key]`. */
  datatype Item = Item(Id: Int32, Name: string, Quantity: Int32, Value: Decimal)
}
