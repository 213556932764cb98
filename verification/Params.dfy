/** Sizes and small functions that several components use. */
module Params {
  const U32: nat := 0x1_0000_0000      // uint counts modulo this

  type Byte = b: int | 0 <= b < 256

  const PGSIZE: nat := 4096
  const KERNBASE: nat := 0x8000_0000   // user memory ends below this

  const MAXOPBLOCKS: nat := 10         // blocks that one operation may log
  const LOGSIZE: nat := 30             // MAXOPBLOCKS * 3
  const NBUF: nat := 30                // MAXOPBLOCKS * 3

  /** PGROUNDUP(a) / PGSIZE, the first page boundary at or above a. */
  function PageUp(a: nat): nat { (a + PGSIZE - 1) / PGSIZE }

  function Min(a: nat, b: nat): nat { if a < b then a else b }
}
