/** The fixed-width unsigned integer types the original program uses,
    as subsets of the mathematical integers. */
module BoundedInts {

  const UINT16_LIMIT: int := 0x1_0000
  const UINT32_LIMIT: int := 0x1_0000_0000
  const UINT64_LIMIT: int := 0x1_0000_0000_0000_0000

  type uint16 = x: int | 0 <= x < UINT16_LIMIT
  type uint32 = x: int | 0 <= x < UINT32_LIMIT
  type uint64 = x: int | 0 <= x < UINT64_LIMIT
}
