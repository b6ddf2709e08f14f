/** Blocks of memory and usage figures (memory/include/galculus/memory/MemoryBlock.hpp, MemoryStats.hpp). */
module MemoryBlocks {
  /** `MemoryBlock`: a null pointer is a failed allocation. */
  datatype Block = Block(ptr: nat, size: nat) {
    predicate Usable() { ptr != 0 && size > 0 }
  }

  const NO_BLOCK := Block(0, 0)

  datatype Stats = Stats(capacity: nat, used: nat, free: nat, peak: nat)
}
