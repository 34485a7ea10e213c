/** The 32-bit machine words, the page geometry and the status codes that every layer shares. */
module Words {

  const PAGE := 4096
  const MEMORY_LIMIT := 0x1_0000_0000

  type Word = x: int | 0 <= x < MEMORY_LIMIT

  type Byte = x: int | 0 <= x < 256

  datatype Option<+T> = None | Some(value: T)

  // include/kernel.h:10-15
  datatype Status = Ok | BorkdMem | DoubleFree | InvalidMem | InvalidFree

  /** The number of pages that hold `length` bytes. */
  function PagesFor(length: nat): (n: nat)
    ensures length <= 4096 * n < length + 4096
  {
    (length + 4095) / 4096
  }
}
