/** Disk blocks as bytes, with the little-endian integers the kernel stores in them. */
module DiskBlocks {
  import opened Params
  const BSIZE: nat := 512
  const WORDS: nat := 128              // BSIZE / sizeof(uint)

  type Block = b: seq<Byte> | |b| == BSIZE witness seq(BSIZE, _ => 0)

  function ZeroBlock(): Block { seq(BSIZE, _ => 0) }

  /** ((uint*)data)[i] */
  function Get32(b: Block, i: nat): (w: nat)
    requires i < WORDS
    ensures w < U32
  {
    (b[4 * i] as int) + 0x100 * (b[4 * i + 1] as int)
      + 0x1_0000 * (b[4 * i + 2] as int) + 0x100_0000 * (b[4 * i + 3] as int)
  }

  /** ((uint*)data)[i] = w */
  function Set32(b: Block, i: nat, w: nat): (b': Block)
    requires i < WORDS && w < U32
  {
    b[4 * i := w % 0x100][4 * i + 1 := w / 0x100 % 0x100]
     [4 * i + 2 := w / 0x1_0000 % 0x100][4 * i + 3 := w / 0x100_0000]
  }

  lemma {:induction false} Get32Set32(b: Block, i: nat, w: nat, j: nat)
    requires i < WORDS && j < WORDS && w < U32
    ensures Get32(Set32(b, i, w), j) == if i == j then w else Get32(b, j)
  {
    var b' := Set32(b, i, w);
    if i == j {
      WordBytes(w);
      assert b'[4 * j] == w % 0x100 && b'[4 * j + 3] == w / 0x100_0000;
    } else {
      assert b'[4 * j] == b[4 * j] && b'[4 * j + 1] == b[4 * j + 1];
      assert b'[4 * j + 2] == b[4 * j + 2] && b'[4 * j + 3] == b[4 * j + 3];
    }
  }

  lemma {:induction false} WordBytes(w: nat)
    requires w < U32
    ensures w == w % 0x100 + 0x100 * (w / 0x100 % 0x100)
      + 0x1_0000 * (w / 0x1_0000 % 0x100) + 0x100_0000 * (w / 0x100_0000)
  {
  }

  lemma {:induction false} Get32Zero(i: nat)
    requires i < WORDS
    ensures Get32(ZeroBlock(), i) == 0
  {
  }
}
