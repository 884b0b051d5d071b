/** Option and Result, the two sum types the Rust code returns. Rust's `?`
    is written out where it occurs, as a test for `Failure?` that returns
    the error unchanged. */
module Wrappers {

  datatype Option<+T> = None | Some(value: T)

  datatype Result<+R, +E> = Success(value: R) | Failure(error: E)
}

/** The fixed-width integer types of the Rust code. */
module Ints {

  newtype i32 = x: int | -0x8000_0000 <= x < 0x8000_0000
  newtype u8 = x: int | 0 <= x < 0x100
  newtype u32 = x: int | 0 <= x < 0x1_0000_0000

  /** True when `x` is representable as an `i32` (no overflow). */
  predicate InI32(x: int) {
    -0x8000_0000 <= x < 0x8000_0000
  }
}
