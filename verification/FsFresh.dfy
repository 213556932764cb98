/** The file system as mkfs lays it out, before it makes any file. */
module FsFresh {
  import opened Params
  import opened DiskBlocks
  import opened FsBits
  import opened FsState

  function Ones(r: nat): (x: Byte)
    requires r <= 8
  {
    OnesFit(r, 8);
    Pow2(r) - 1
  }

  lemma {:induction false} OnesFit(r: nat, n: nat)
    requires r <= n
    ensures Pow2(r) <= Pow2(n)
  {
    if r < n { OnesFit(r, n - 1); }
  }

  lemma {:induction false} OnesBits(r: nat, i: nat)
    ensures TestBit(Pow2(r) - 1, i) <==> i < r
  {
    if r == 0 && i > 0 {
      OnesBits(0, i - 1);
    } else if i > 0 {
      OnesBits(r - 1, i - 1);
      assert (Pow2(r) - 1) / 2 == Pow2(r - 1) - 1;
    }
  }

  /** How many of the eight blocks from b on come before the data. */
  function Before(L: Layout, b: nat): (r: nat)
    ensures r <= 8
  {
    if L.datastart <= b then 0 else if L.datastart - b >= 8 then 8 else L.datastart - b
  }

  /** Block t of the free map: the bits of all blocks before the data are set. */
  function MapOf(L: Layout, t: nat): Block
  {
    seq(BSIZE, j requires 0 <= j < BSIZE => Ones(Before(L, t * BPB + 8 * j)))
  }

  function FreshBlock(L: Layout, x: nat): Block
  {
    if L.bmapstart <= x < L.datastart then MapOf(L, x - L.bmapstart) else ZeroBlock()
  }

  function FreshDisk(L: Layout): (disk: Disk)
    ensures |disk| == L.size
  {
    seq(L.size, x requires 0 <= x < L.size => FreshBlock(L, x))
  }

  function NoInode(): Inode { Inode(0, 0, 0, 0, 0, seq(NDIRECT + 1, _ => 0)) }

  function FreshInodes(L: Layout): (mem: Inodes)
    ensures |mem| == L.ninodes
  {
    seq(L.ninodes, _ => NoInode())
  }

  lemma {:induction false} FreshUse(L: Layout, b: nat)
    requires LayoutOk(L) && b < L.size
    ensures InUse(L, FreshDisk(L), b) <==> b < L.datastart
  {
    var t, bi := b / BPB, b % BPB;
    assert L.bmapstart <= BBlock(L, b) < L.datastart;
    hide TestBit, Pow2, ZeroBlock;
    assert FreshDisk(L)[BBlock(L, b)] == MapOf(L, t);
    assert MapOf(L, t)[bi / 8] == Ones(Before(L, t * BPB + 8 * (bi / 8)));
    OnesBits(Before(L, t * BPB + 8 * (bi / 8)), bi % 8);
  }

  lemma {:induction false} NoInodeRead(slot: nat)
    requires slot < IPB
    ensures ReadInode(ZeroBlock(), slot) == NoInode()
  {
    forall i: nat | i < WORDS ensures Get32(ZeroBlock(), i) == 0 { Get32Zero(i); }
    hide Get32, ZeroBlock;
    assert GetWords(ZeroBlock(), 16 * slot + 3, NDIRECT + 1) == NoInode().addrs;
  }

  lemma {:induction false} FreshSlots(L: Layout, k: nat, s: nat)
    requires k < L.ninodes && s < NSLOTS
    ensures SlotVal(FreshDisk(L), FreshInodes(L), k, s) == 0
  {
    hide FreshDisk, ZeroBlock, Get32;
    assert FreshInodes(L)[k] == NoInode();
  }

  /** Whatever the layout, the empty file system satisfies all that is demanded between operations. */
  lemma {:induction false} FreshSettled(L: Layout)
    requires LayoutOk(L)
    ensures Settled(L, FreshDisk(L), FreshInodes(L))
  {
    var disk, mem := FreshDisk(L), FreshInodes(L);
    forall k: nat, s: nat | k < |mem| && s < NSLOTS ensures SlotVal(disk, mem, k, s) == 0 { FreshSlots(L, k, s); }
    forall b: nat | b < L.size ensures InUse(L, disk, b) <==> b < L.datastart { FreshUse(L, b); }
    forall k: nat | k < |mem| ensures Shape(disk, mem, k, Blocks(mem[k].size)) && InodeOk(mem[k]) {
      hide SlotVal, FreshDisk;
      assert mem[k] == NoInode();
    }
    forall k: nat | k < |mem| && IBlock(L, k) < |disk| ensures DiskInode(L, disk, k) == mem[k] {
      hide SlotVal, ReadInode, MapOf, ZeroBlock;
      assert IBlock(L, k) < L.bmapstart;
      NoInodeRead(k % IPB);
    }
    hide SlotVal, InUse, FreshDisk, FreshInodes, DiskInode, Shape, InodeOk;
  }

  /** The numbers that mkfs computes for its 1000 blocks: 2 blocks, 30 of log, 26 of inodes and 1 of free map. */
  lemma {:induction false} MkfsLayout()
    ensures LayoutOk(Layout(1000, 200, 2 + 30, 2 + 30 + (200 / IPB + 1), 2 + 30 + (200 / IPB + 1) + (1000 / BPB + 1)))
  {
  }
}
