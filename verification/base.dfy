/** Small building blocks shared by the model: an optional value and the
    machine integer types of the C++ program, with their wrap-around made
    explicit. */
module Base {

  /** An optional value; stands for a nullable pointer or a failed search. */
  datatype Option<+T> = None | Some(value: T)

  const INT32_MIN: int := -0x8000_0000
  const INT32_MAX: int := 0x7fff_ffff

  /** A C++ `int` / `int32_t`. */
  type Int32 = x: int | -0x8000_0000 <= x <= 0x7fff_ffff

  /** 2^64: one past the largest `size_t` on a 64-bit target. */
  const SIZE_MOD: int := 0x1_0000_0000_0000_0000

  /** A C++ `size_t` on a 64-bit target. */
  type SizeT = x: int | 0 <= x < 0x1_0000_0000_0000_0000

  /** `a + b` on `size_t`: wraps modulo 2^64. */
  function SizeAdd(a: SizeT, b: SizeT): (r: SizeT)
    ensures a + b < SIZE_MOD ==> r == a + b
    ensures a + b >= SIZE_MOD ==> r == a + b - SIZE_MOD
  {
    (a + b) % SIZE_MOD
  }

  /** `a - b` on `size_t`: wraps modulo 2^64 when `b > a`. */
  function SizeSub(a: SizeT, b: SizeT): (r: SizeT)
    ensures b <= a ==> r == a - b
    ensures a < b ==> r == a - b + SIZE_MOD
  {
    (a - b) % SIZE_MOD
  }

  /** Conversion of an integer to `int` (modulo 2^32, two's complement). */
  function ToInt32(x: int): (r: Int32)
    ensures INT32_MIN <= x <= INT32_MAX ==> r == x
    ensures (x - r) % 0x1_0000_0000 == 0
  {
    var m := x % 0x1_0000_0000;
    if m <= INT32_MAX then m else m - 0x1_0000_0000
  }
}
