/** Machine word limits shared by all parts. */
module MachineWords {
  /** Exclusive upper bound of a 64-bit word. */
  const WORD_LIMIT: nat := 0x1_0000_0000_0000_0000

  /** The reserved index: head of a queue without entries, and no open or committed index. */
  const UNDEFINED: nat := 0xFFFF_FFFF_FFFF_FFFF

  /** Exclusive upper bound of the 32-bit sync counter. */
  const COUNTER_LIMIT: nat := 0x1_0000_0000
}
