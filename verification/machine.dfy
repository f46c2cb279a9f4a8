/**
  Machine-level types of the benchmark: the byte of a `std::vector<std::byte>`
  and the two unsigned integer widths the `file` struct uses
  (`uint32_t` thread counts and loop counters, `uint64_t` sizes and offsets).
 */
module Machine {

  /** One `std::byte`. */
  newtype byte = x: int | 0 <= x < 256

  const U32_LIMIT: nat := 0x1_0000_0000
  const U64_LIMIT: nat := 0x1_0000_0000_0000_0000

  /** Values of a `uint32_t`. */
  type u32 = x: nat | x < U32_LIMIT

  /** Values of a `uint64_t`. */
  type u64 = x: nat | x < U64_LIMIT
}
