/** How many blocks one writei may log, and how filewrite keeps that within one operation's budget. */
module FsChunk {
  import opened Params
  import opened DiskBlocks
  import opened FsState
  import opened FsContent

  const CHUNK: nat := (MAXOPBLOCKS - 1 - 1 - 2) / 2 * 512

  /** The file's blocks that the bytes from off up to end lie in. */
  function Touched(off: nat, end: nat): (t: nat)
    requires off <= end
  {
    if off == end then 0 else (end - 1) / BSIZE - off / BSIZE + 1
  }

  lemma {:induction false} TouchOne(off: nat, at: nat, m: nat)
    requires off <= at && (at == off || at % BSIZE == 0) && 0 < m && at % BSIZE + m <= BSIZE
    ensures Touched(off, at + m) == Touched(off, at) + 1
  {
  }

  /** Data blocks, free-map blocks for the blocks that are new, the indirect block and the inode block. */
  function Budget(size: nat, off: nat, n: nat, mapSize: nat): nat
    requires off <= size
  {
    Touched(off, off + n) + Min(Blocks(Max(size, off + n)) - Blocks(size) + 1, mapSize) + 2
  }

  /** What one operation of filewrite may log: its blocks lie in at most four, and the free map is short on a
      small disk. */
  function OperationBudget(mapSize: nat): nat { Min(MAXOPBLOCKS, 6 + mapSize) }

  /** A chunk of filewrite stays within the blocks that begin_op reserved, however it is aligned. */
  lemma {:induction false} ChunkWithinBudget(size: nat, off: nat, n: nat, mapSize: nat)
    requires off <= size && n <= CHUNK
    ensures Budget(size, off, n, mapSize) <= OperationBudget(mapSize) <= MAXOPBLOCKS
  {
    assert CHUNK == 1536;
    assert Blocks(size) >= Blocks(off);
  }

  /** The blocks that a file of a blocks needs to become one of b blocks, its indirect block included. */
  function Growth(a: nat, b: nat): nat
    requires a <= b
  {
    b - a + if a <= NDIRECT < b then 1 else 0
  }
}
