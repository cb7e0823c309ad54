/** The integers of Go that have a width. */
module Words {
  const TWO_TO_THE_31: int := 0x8000_0000
  const TWO_TO_THE_32: int := 0x1_0000_0000
  const TWO_TO_THE_64: int := 0x1_0000_0000_0000_0000

  /** An `int32` after an operation that may overflow. */
  function ToInt32(x: int): (y: int)
    ensures -2_147_483_648 <= y < 2_147_483_648
    ensures -TWO_TO_THE_31 <= x < TWO_TO_THE_31 ==> y == x
    ensures (x - y) % 4_294_967_296 == 0
  {
    (x + TWO_TO_THE_31) % TWO_TO_THE_32 - TWO_TO_THE_31
  }

  /** The conversion of an `int32` to `uint32`. */
  function ToUint32(x: int): (y: nat)
    ensures y < 4_294_967_296
    ensures (x - y) % 4_294_967_296 == 0
    ensures 0 <= x < TWO_TO_THE_32 ==> y == x
    ensures -TWO_TO_THE_32 <= x < 0 ==> y == x + TWO_TO_THE_32
  {
    x % TWO_TO_THE_32
  }
}
