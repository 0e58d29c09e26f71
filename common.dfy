/** Shared vocabulary: bytes, C integer limits and failure-carrying results. */
module Common {

  /** An `unsigned char`. */
  type byte = x: int | 0 <= x < 256

  /** `INT_MAX` of a 32-bit `int`. */
  const IntMax: int := 0x7FFF_FFFF

  /** Conversion of an `int` to `unsigned char`: C keeps the value modulo 256. */
  function ToByte(x: int): (r: byte)
    ensures r % 256 == x % 256
    ensures 0 <= x < 256 ==> r == x
  {
    x % 256
  }

  /** The C operator `~` on a non-negative `int` (two's complement). */
  function BitNot(x: int): int
  {
    -1 - x
  }

  function Abs(x: int): (r: nat)
    ensures r == x || r == -x
  {
    if x < 0 then -x else x
  }

  datatype Result<+T, +E> = Success(value: T) | Failure(error: E)

  datatype Outcome<+E> = Pass | Fail(error: E)
}
