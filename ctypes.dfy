/** C integer types and the C arithmetic rules the watch face relies on. */
module CTypes {

  /** `uint8_t`: the battery service's charge percentage. */
  type Uint8 = x: int | 0 <= x < 0x100

  /** `unsigned short`: the type of `display_value`'s and `get_display_hour`'s operands. */
  type Uint16 = x: int | 0 <= x < 0x1_0000

  /** Conversion of an `int` (a `struct tm` field) to `unsigned short`: C reduces modulo 2^16. */
  function ToUint16(x: int): (r: Uint16)
    ensures (r - x) % 0x1_0000 == 0
    ensures 0 <= x < 0x1_0000 ==> r == x
  {
    x % 0x1_0000
  }

  /**
   * C's `/` on `int`: the quotient is truncated toward zero, so for a
   * negative dividend it differs from Dafny's Euclidean division.
   */
  function TruncDiv(a: int, b: int): (q: int)
    requires b > 0
    ensures 0 <= a ==> q * b <= a < q * b + b
    ensures a < 0 ==> q * b - b < a <= q * b
  {
    if a >= 0 then a / b else -((-a) / b)
  }
}
