/** Machine-width arithmetic of the AVR target the driver is written for:
    `uint8_t` is a bit-vector byte, `uint16_t` and the 32-bit `long` are
    integers in range, and the C conversions that truncate or wrap are spelt
    out as functions. */
module CTypes {

  /** `uint8_t`. Arithmetic on it wraps modulo 256, as a store into a
      `uint8_t` does in C. */
  type byte = bv8

  /** `uint8_t` where the model computes with it as a number. */
  type uint8 = x: int | 0 <= x < 0x100

  /** `uint16_t`. */
  type uint16 = x: int | 0 <= x < 0x1_0000

  const INT32_MIN: int := -0x8000_0000
  const INT32_MAX: int := 0x7FFF_FFFF

  /** `long` on AVR: a signed 32-bit integer. */
  type int32 = x: int | INT32_MIN <= x <= INT32_MAX

  /** The byte whose value is `n`, counted up from zero. A direct
      `n as bv8` conversion is not proved reliably by the solver. */
  function ByteOf(n: int): (b: byte)
    requires 0 <= n < 0x100
    ensures b as int == n
  {
    if n == 0 then 0 else ByteOf(n - 1) + 1
  }

  /** Storing an `int` value into a `uint8_t`: keep the low eight bits. */
  function ToByte(x: int): (b: byte)
    ensures b as int == x % 0x100
    ensures 0 <= x < 0x100 ==> b as int == x
  {
    ByteOf(x % 0x100)
  }

  /** Storing an `int` value into a `uint8_t` field. */
  function ToUint8(x: int): (r: uint8)
    ensures 0 <= x < 0x100 ==> r == x
  {
    x % 0x100
  }

  /** Storing an `int` value into a `uint16_t`: keep the low sixteen bits. */
  function ToUint16(x: int): (r: uint16)
    ensures 0 <= x < 0x1_0000 ==> r == x
  {
    x % 0x1_0000
  }

  /** The two's-complement wrap of a 32-bit `long` computation. Signed
      overflow is undefined in C; the model takes the wrap that the AVR code
      generator produces. */
  function ToInt32(x: int): (r: int32)
    ensures INT32_MIN <= x <= INT32_MAX ==> r == x
    ensures INT32_MAX < x <= INT32_MAX - INT32_MIN ==> r == x - 0x1_0000_0000
  {
    (x - INT32_MIN) % 0x1_0000_0000 + INT32_MIN
  }

  /** C's `/`: truncates toward zero (Dafny's `/` is Euclidean). */
  function CDiv(a: int, b: int): (q: int)
    requires b > 0
    ensures a >= 0 ==> q == a / b
    ensures a < 0 ==> -q == (-a) / b
  {
    if a >= 0 then a / b else -((-a) / b)
  }

  /** C's `%`: the remainder takes the sign of the dividend. */
  function CRem(a: int, b: int): (r: int)
    requires b > 0
    ensures a == b * CDiv(a, b) + r
    ensures a >= 0 ==> 0 <= r < b
    ensures a < 0 ==> -b < r <= 0
  {
    a - b * CDiv(a, b)
  }
}
