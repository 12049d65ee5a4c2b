/** Powers of two that bound machine integers, and limits of the memory allocator. */
module MachineWords {
  const TWO_16: int := 0x1_0000
  const TWO_30: int := 0x4000_0000
  const TWO_31: int := 0x8000_0000
  const TWO_32: int := 0x1_0000_0000
  const TWO_64: int := 0x1_0000_0000_0000_0000

  /** The largest piece of memory that can be had at once. */
  const MAX_ALLOC: nat := 0x3FFF_FFFF
}
