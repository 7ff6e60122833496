/** Sizes that the memory managers share. */
module Machine {

  /** A 64-bit word holds numbers below this. */
  const U64 := 0x1_0000_0000_0000_0000

  /** PAGE_SIZE */
  const PAGE := 4096
}
