/** Java value types the calendar code relies on: nullable references,
    32- and 64-bit two's-complement integers, and TextUtils.isEmpty. */
module JavaTypes {

  /** A Java reference that may be null. */
  datatype Option<+T> = None | Some(value: T)

  const LONG_MIN: int := -0x8000_0000_0000_0000
  const LONG_MAX: int := 0x7FFF_FFFF_FFFF_FFFF

  /** Java `int`. */
  type Int32 = x: int | -0x8000_0000 <= x <= 0x7FFF_FFFF

  /** Java `long`. */
  type Int64 = x: int | -0x8000_0000_0000_0000 <= x <= 0x7FFF_FFFF_FFFF_FFFF

  /** The `long` that Java's wrapping arithmetic yields for the exact value `x`. */
  function WrapLong(x: int): (r: Int64)
    ensures (r - x) % 0x1_0000_0000_0000_0000 == 0
    ensures LONG_MIN <= x <= LONG_MAX ==> r == x
  {
    (x - LONG_MIN) % 0x1_0000_0000_0000_0000 + LONG_MIN
  }

  /** Java's `a + b` on two `long`s. */
  function AddLong(a: Int64, b: Int64): (r: Int64)
    ensures LONG_MIN <= a + b <= LONG_MAX ==> r == a + b
    ensures a + b > LONG_MAX ==> r == a + b - 0x1_0000_0000_0000_0000
    ensures a + b < LONG_MIN ==> r == a + b + 0x1_0000_0000_0000_0000
  {
    WrapLong(a + b)
  }

  /** `TextUtils.isEmpty`: true for null and for the empty string. */
  predicate IsEmpty(s: Option<string>)
  {
    s.None? || s.value == ""
  }

  /** `s.equals(other)` for a non-null `s`: false whenever `other` is null. */
  predicate JavaEquals(s: string, other: Option<string>)
  {
    other.Some? && other.value == s
  }
}
