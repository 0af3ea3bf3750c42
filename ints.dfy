/** The fixed-width C++ integer types the core uses, as ranges of mathematical integers. */
module Ints {

  const INT64_MIN: int := -0x8000_0000_0000_0000
  const INT64_MAX: int := 0x7fff_ffff_ffff_ffff
  const INT32_MIN: int := -0x8000_0000
  const INT32_MAX: int := 0x7fff_ffff
  const UINT64_MAX: int := 0xffff_ffff_ffff_ffff

  /** `int64_t` (also `NodeId`, `std::time_t`). */
  type int64 = x: int | -0x8000_0000_0000_0000 <= x <= 0x7fff_ffff_ffff_ffff

  /** `int`, 32 bits wide on every platform the node is built for. */
  type int32 = x: int | -0x8000_0000 <= x <= 0x7fff_ffff

  /** `size_t` on a 64-bit platform. */
  type uint64 = x: int | 0 <= x <= 0xffff_ffff_ffff_ffff

  /** `uint8_t`. */
  type uint8 = x: int | 0 <= x < 0x100

  /** `uint256`, a 256-bit unsigned hash; its default value is zero. */
  type uint256 = x: int | 0 <= x < 0x1_0000_0000_0000_0000_0000_0000_0000_0000_0000_0000_0000_0000_0000_0000_0000_0000

  predicate InInt64(x: int) {
    INT64_MIN <= x <= INT64_MAX
  }
}
