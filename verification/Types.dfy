/** Sizes and word types of os/kernel/include/myria/types.h. */
module Types {
  const PAGE_SIZE := 0x1000

  /** Unsigned 32- and 64-bit arithmetic is modulo these. */
  const TWO32 := 0x1_0000_0000
  const TWO64 := 0x1_0000_0000_0000_0000

  type Byte = n: int | 0 <= n < 0x100
  type U64 = n: int | 0 <= n < 0x1_0000_0000_0000_0000
}
