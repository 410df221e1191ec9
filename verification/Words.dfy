/** The widths of the source's unsigned numbers. */
module Words {

  /** One more than the largest 32-bit number. */
  const WORD: nat := 0x1_0000_0000

  /** One more than the largest 64-bit number. */
  const DOUBLE_WORD: nat := 0x1_0000_0000_0000_0000
}
