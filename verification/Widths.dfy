/** Integer widths and platform constants of the allocator (config.hpp, page_heap.hpp). */
module Widths {
  const UINT16_MAX: nat := 0xFFFF
  const UINT32_MAX: nat := 0xFFFF_FFFF

  type uint8 = x: int | 0 <= x < 0x100
  type uint16 = x: int | 0 <= x < 0x1_0000
  type uint32 = x: int | 0 <= x < 0x1_0000_0000

  const PAGE_SIZE: nat := 4096
  const MAX_PAGES: nat := 255
  const TRANSFER_CACHE_CAPACITY: nat := 100
  const MAX_SLAB_POINTERS: nat := 20000
  const MAX_BATCH_SIZE: nat := 32

  /** Marks an empty packed free list. */
  const INVALID_INDEX: uint16 := 0xFFFF

  datatype Option<+T> = None | Some(value: T)
}
