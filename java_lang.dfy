// Java's 32-bit `int` arithmetic and the run-time exceptions the editor can raise.

module JavaLang {

  const TWO_POW_32: int := 0x1_0000_0000
  const INT_MIN: int := -0x8000_0000
  const INT_MAX: int := 0x7fff_ffff

  /** A Java `int` (equivalently, the value held by a non-null `Integer`). */
  newtype int32 = x: int | -0x8000_0000 <= x < 0x8000_0000

  /** The run-time exceptions raised by the modelled code. */
  datatype JavaException = NegativeArraySizeException | ArrayIndexOutOfBoundsException

  /** How a `void` method ends: normally or by an uncaught exception. */
  datatype Outcome = Completed | Raised(exception: JavaException)

  /** Two's-complement narrowing of a mathematical integer to 32 bits. */
  function Wrap(x: int): (r: int32)
    ensures (r as int - x) % TWO_POW_32 == 0
    ensures INT_MIN <= x <= INT_MAX ==> r as int == x
  {
    var m := x % TWO_POW_32;
    if m <= INT_MAX then m as int32 else (m - TWO_POW_32) as int32
  }

  /** Java's `a + b` on `int`: the exact sum when it fits, otherwise the sum moved by 2^32. */
  function Add(a: int32, b: int32): (r: int32)
    ensures INT_MIN <= a as int + b as int <= INT_MAX ==> r as int == a as int + b as int
    ensures a as int + b as int > INT_MAX ==> r as int == a as int + b as int - TWO_POW_32
    ensures a as int + b as int < INT_MIN ==> r as int == a as int + b as int + TWO_POW_32
  {
    Wrap(a as int + b as int)
  }

  /** Java's `a / 2`: division that truncates toward zero (Dafny's `/` is Euclidean). */
  function Half(a: int32): (r: int32)
    ensures a >= 0 ==> 0 <= 2 * r as int <= a as int && a as int - 2 * r as int <= 1
    ensures a < 0 ==> a as int <= 2 * r as int <= 0 && 2 * r as int - a as int <= 1
  {
    if a >= 0 then a / 2 else (-((-(a as int)) / 2)) as int32
  }
}
