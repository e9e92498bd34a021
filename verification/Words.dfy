/** 32-bit machine words. */
module Words {
  const WORD: nat := 0x1_0000_0000

  /** Conversion to a 32-bit signed integer. */
  function Int32(n: int): int { (n + 0x8000_0000) % WORD - 0x8000_0000 }
}
