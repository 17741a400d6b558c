/**
 * Java's numeric conversions as the gamepad translator uses them.
 * Single-precision float samples are modelled as reals; the integer casts
 * are written out so that saturation and wrap-around are explicit.
 */
module JavaNum {

  /** Bounds of a Java `int`. */
  const IntMin: int := -0x8000_0000
  const IntMax: int := 0x7FFF_FFFF

  /** A Java `short`. */
  type Int16 = x: int | -0x8000 <= x < 0x8000

  /** An unsigned byte: the bit pattern of a Java `byte` as the wire reads it. */
  type UInt8 = x: int | 0 <= x < 0x100

  /** `Math.abs` on a float. */
  function Abs(x: real): (r: real)
    ensures r >= 0.0 && (r == x || r == -x)
  {
    if x < 0.0 then -x else x
  }

  /** A float-to-int conversion saturates at the bounds of `int`. */
  function SaturateInt(n: int): (r: int)
    ensures IntMin <= r <= IntMax
    ensures IntMin <= n <= IntMax ==> r == n
    ensures n < IntMin ==> r == IntMin
    ensures n > IntMax ==> r == IntMax
  {
    if n < IntMin then IntMin else if n > IntMax then IntMax else n
  }

  /** `Math.round(float)`: the integer nearest to `x`, halves rounded up, saturated. */
  function Round(x: real): (r: int)
    ensures IntMin as real - 0.5 <= x < IntMax as real + 0.5 ==> x - 0.5 < r as real <= x + 0.5
    ensures x >= IntMax as real + 0.5 ==> r == IntMax
    ensures x < IntMin as real - 0.5 ==> r == IntMin
  {
    SaturateInt((x + 0.5).Floor)
  }

  /** The `(int)` cast of a float: truncation toward zero, saturated. */
  function TruncToInt(x: real): (r: int)
    ensures 0.0 <= x < IntMax as real + 1.0 ==> r as real <= x < r as real + 1.0
    ensures IntMin as real - 1.0 < x < 0.0 ==> r as real - 1.0 < x <= r as real
    ensures x >= IntMax as real + 1.0 ==> r == IntMax
    ensures x <= IntMin as real - 1.0 ==> r == IntMin
  {
    SaturateInt(if x >= 0.0 then x.Floor else -((-x).Floor))
  }

  /** The `(short)` cast: the low 16 bits, read as two's complement. */
  function ToShort(n: int): (r: Int16)
    ensures (r - n) % 0x1_0000 == 0
    ensures -0x8000 <= n < 0x8000 ==> r == n
  {
    var m := n % 0x1_0000;
    if m < 0x8000 then m else m - 0x1_0000
  }

  /** The `(byte)` cast: the low 8 bits, as the unsigned byte the wire carries. */
  function ToByte(n: int): (r: UInt8)
    ensures (r - n) % 0x100 == 0
    ensures 0 <= n < 0x100 ==> r == n
  {
    n % 0x100
  }
}
