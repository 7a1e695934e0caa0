/**
 * The fixed-width C integer types the driver computes with.
 *
 * `loff_t` and `ssize_t` are 64-bit two's-complement integers, `size_t` is a
 * 64-bit unsigned integer.  The kernel is built with -fno-strict-overflow, so
 * signed overflow wraps; unsigned arithmetic always reduces modulo 2^64.
 */
module CInt {

  const TWO_64: int := 0x1_0000_0000_0000_0000
  const INT64_MIN: int := -0x8000_0000_0000_0000
  const INT64_MAX: int := 0x7FFF_FFFF_FFFF_FFFF

  /** `loff_t`, `ssize_t` */
  type Int64 = x: int | INT64_MIN <= x <= INT64_MAX

  /** `size_t` */
  type UInt64 = x: int | 0 <= x < TWO_64

  /** The `size_t` value of an exact integer result: reduction modulo 2^64. */
  function ToUInt64(x: int): (r: UInt64)
    ensures (r - x) % TWO_64 == 0
    ensures 0 <= x < TWO_64 ==> r == x
    ensures -TWO_64 <= x < 0 ==> r == x + TWO_64
  {
    x % TWO_64
  }

  /** The 64-bit two's-complement value of an exact integer result. */
  function ToInt64(x: int): (r: Int64)
    ensures (r - x) % TWO_64 == 0
    ensures INT64_MIN <= x <= INT64_MAX ==> r == x
    ensures INT64_MAX < x <= INT64_MAX + TWO_64 ==> r == x - TWO_64
    ensures INT64_MIN - TWO_64 <= x < INT64_MIN ==> r == x + TWO_64
  {
    var u := x % TWO_64;
    if u <= INT64_MAX then u else u - TWO_64
  }
}
