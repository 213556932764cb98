/** writei part of the way through. */
module FsWriting {
  import opened Params
  import opened DiskBlocks
  import opened FsState
  import opened FsSteps
  import opened FsContent

  /** From (d0, m0), the first tot bytes of src have been written at off, and the file has nb blocks. */
  ghost predicate Writing(L: Layout, d0: Disk, m0: Inodes, disk: Disk, mem: Inodes, k: nat, off: nat, src: seq<Byte>,
                          tot: nat, nb: nat)
  {
    k < |m0| == |mem| && tot <= |src| && off <= m0[k].size <= MAXFILE * BSIZE && off + |src| <= MAXFILE * BSIZE &&
    Inv(L, disk, mem) && OthersKept(d0, m0, disk, mem, k) && FieldsKept(L, d0, m0, disk, mem, k) &&
    Shape(disk, mem, k, nb) &&
    Bytes(disk, mem, k, Max(m0[k].size, off + tot)) == Splice(Content(d0, m0, k), off, src[..tot]) &&
    (nb == Blocks(m0[k].size) ==> mem[k] == m0[k])
  }

  lemma {:induction false} WriteStarts(L: Layout, disk: Disk, mem: Inodes, k: nat, off: nat, src: seq<Byte>)
    requires Settled(L, disk, mem) && k < |mem| && off <= mem[k].size && off + |src| <= MAXFILE * BSIZE
    ensures Writing(L, disk, mem, disk, mem, k, off, src, 0, Blocks(mem[k].size))
  {
    hide SlotVal, Own, InodeOk;
    SettledSize(L, disk, mem, k);
    assert Splice(Content(disk, mem, k), off, src[..0]) == Content(disk, mem, k);
  }

  lemma {:induction false} SettledSize(L: Layout, disk: Disk, mem: Inodes, k: nat)
    requires Settled(L, disk, mem) && k < |mem|
    ensures mem[k].size <= MAXFILE * BSIZE
  {
    assert Shape(disk, mem, k, Blocks(mem[k].size));
  }

  /** The next block to write is one the file has, or the one after its last. */
  lemma {:induction false} NextBlock(L: Layout, d0: Disk, m0: Inodes, disk: Disk, mem: Inodes, k: nat, off: nat,
                                     src: seq<Byte>, tot: nat, nb: nat)
    requires Writing(L, d0, m0, disk, mem, k, off, src, tot, nb) && tot < |src|
    requires nb == Blocks(Max(m0[k].size, off + tot))
    ensures (off + tot) / BSIZE <= nb && (off + tot) / BSIZE < MAXFILE
    ensures Addr(disk, mem, k, (off + tot) / BSIZE) == 0 <==> (off + tot) / BSIZE == nb
  {
    hide SlotVal, Inv, OthersKept, FieldsKept, Bytes, Splice;
  }

  /** bmap has added that block. */
  lemma {:induction false} WriteMaps(L: Layout, d0: Disk, m0: Inodes, d1: Disk, m1: Inodes, disk: Disk, mem: Inodes,
                                     k: nat, off: nat, src: seq<Byte>, tot: nat, nb: nat)
    requires Writing(L, d0, m0, d1, m1, k, off, src, tot, nb) && nb == Blocks(Max(m0[k].size, off + tot))
    requires Inv(L, disk, mem) && Mapped(L, d1, m1, disk, mem, k, nb)
    ensures Writing(L, d0, m0, disk, mem, k, off, src, tot, nb + 1)
  {
    hide SlotVal, Inv;
    OthersKeptTrans(d0, m0, d1, m1, disk, mem, k);
    MappedShape(L, d1, m1, disk, mem, k, nb);
    MappedBytes(L, d1, m1, disk, mem, k, nb, Max(m0[k].size, off + tot));
    hide OthersKept, Bytes, Shape;
    assert Blocks(m0[k].size) <= nb;
  }

  /** The bytes for one block have been copied in. */
  lemma {:induction false} WriteCopies(L: Layout, d0: Disk, m0: Inodes, disk: Disk, mem: Inodes, k: nat, off: nat,
                                       src: seq<Byte>, tot: nat, m: nat, nb: nat)
    requires Writing(L, d0, m0, disk, mem, k, off, src, tot, nb)
    requires 0 < m && tot + m <= |src| && (off + tot) % BSIZE + m <= BSIZE
    requires nb == Blocks(Max(m0[k].size, off + tot + m))
    ensures (off + tot) / BSIZE < MAXFILE && L.datastart <= Addr(disk, mem, k, (off + tot) / BSIZE) < |disk|
    ensures var a := Addr(disk, mem, k, (off + tot) / BSIZE);
            var d := disk[a := Overwrite(disk[a], (off + tot) % BSIZE, src[tot..tot + m])];
            Writing(L, d0, m0, d, mem, k, off, src, tot + m, nb)
  {
    var bn := (off + tot) / BSIZE;
    assert bn < nb;
    assert Addr(disk, mem, k, bn) != 0;
    hide SlotVal, Inv, OthersKept, Bytes, Splice, Content;
    InRange(L, disk, mem, k, DataSlot(bn));
    var a, s := Addr(disk, mem, k, bn), src[tot..tot + m];
    var d := disk[a := Overwrite(disk[a], (off + tot) % BSIZE, s)];
    WriteKeeps(L, disk, mem, k, DataSlot(bn), Overwrite(disk[a], (off + tot) % BSIZE, s));
    SameOthersKept(disk, mem, d, k, DataSlot(bn));
    hide Shape, Blocks, Overwrite, SlotsSame, DataBut;
    WriteCopied(L, d0, m0, disk, mem, k, off, src, tot, m, nb, d);
  }

  lemma {:induction false} WriteCopied(L: Layout, d0: Disk, m0: Inodes, disk: Disk, mem: Inodes, k: nat, off: nat,
                                       src: seq<Byte>, tot: nat, m: nat, nb: nat,
                                       d: Disk)
    requires Writing(L, d0, m0, disk, mem, k, off, src, tot, nb)
    requires 0 < m && tot + m <= |src| && (off + tot) % BSIZE + m <= BSIZE && (off + tot) / BSIZE < MAXFILE
    requires nb == Blocks(Max(m0[k].size, off + tot + m)) && |d| == |disk|
    requires Inv(L, d, mem) && SlotsSame(disk, mem, d, mem)
    requires DataBut(disk, mem, d, mem, k, DataSlot((off + tot) / BSIZE))
    requires OthersKept(disk, mem, d, mem, k) && FieldsKept(L, d0, m0, d, mem, k)
    requires var a := Addr(disk, mem, k, (off + tot) / BSIZE);
             a < |disk| && d[a] == Overwrite(disk[a], (off + tot) % BSIZE, src[tot..tot + m])
    ensures Writing(L, d0, m0, d, mem, k, off, src, tot + m, nb)
  {
    hide SlotVal, Inv, OthersKept, Bytes, Splice, Overwrite, DataBut, FieldsKept, Shape, Blocks, Addr, SlotsSame;
    var end, s := Max(m0[k].size, off + tot), src[tot..tot + m];
    OthersKeptTrans(d0, m0, disk, mem, d, mem, k);
    SameShape(disk, mem, d, k, nb);
    ShapeThere(disk, mem, k, nb);
    OverwriteSplices(disk, mem, d, k, end, off + tot, s);
    SpliceConcat(Content(d0, m0, k), off, src[..tot], s);
    assert src[..tot] + s == src[..tot + m];
  }

  lemma {:induction false} InRange(L: Layout, disk: Disk, mem: Inodes, k: nat, s: nat)
    requires Inv(L, disk, mem) && k < |mem| && s < NSLOTS && SlotVal(disk, mem, k, s) != 0
    ensures L.datastart <= SlotVal(disk, mem, k, s) < |disk|
  {
    hide SlotVal, InUse;
  }

  lemma {:induction false} SameShape(disk: Disk, mem: Inodes, disk': Disk, k: nat, nb: nat)
    requires k < |mem| && SlotsSame(disk, mem, disk', mem) && Shape(disk, mem, k, nb)
    ensures Shape(disk', mem, k, nb)
  {
    hide SlotVal;
    forall bn: nat | bn < MAXFILE ensures Addr(disk', mem, k, bn) == Addr(disk, mem, k, bn) {}
  }

  lemma {:induction false} ShapeThere(disk: Disk, mem: Inodes, k: nat, nb: nat)
    requires k < |mem| && Shape(disk, mem, k, nb)
    ensures forall c: nat :: c < nb && c < MAXFILE ==> Addr(disk, mem, k, c) != 0
  {
  }

  /** The size set, which moves no slot and no data. */
  lemma {:induction false} Resized(L: Layout, disk: Disk, mem: Inodes, k: nat, size: nat)
    requires Inv(L, disk, mem) && k < |mem| && size < U32
    ensures var m := mem[k := mem[k].(size := size)];
            Inv(L, disk, m) && SlotsSame(disk, mem, disk, m) && OthersKept(disk, mem, disk, m, k)
  {
    var m := mem[k := mem[k].(size := size)];
    assert InodeOk(mem[k]);
    assert SlotsSame(disk, mem, disk, m);
    hide SlotVal, InUse;
    OwnSame(L, disk, mem, disk, m);
  }

  /** What writei and itrunc promise of the other files. */
  ghost predicate OthersAlike(disk: Disk, mem: Inodes, disk': Disk, mem': Inodes, k: nat)
  {
    |mem'| == |mem| &&
    forall i: nat :: i < |mem| && i != k && mem[i].size <= MAXFILE * BSIZE ==>
      mem'[i] == mem[i] && Content(disk', mem', i) == Content(disk, mem, i)
  }

  lemma {:induction false} OthersSettled(L: Layout, d0: Disk, m0: Inodes, disk: Disk, mem: Inodes, k: nat)
    requires Settled(L, d0, m0) && OthersKept(d0, m0, disk, mem, k)
    ensures OthersAlike(d0, m0, disk, mem, k)
    ensures forall i: nat :: i < |mem| && i != k ==> Shape(disk, mem, i, Blocks(mem[i].size))
  {
    hide SlotVal, Inv, Shape, Content;
    forall i: nat | i < |mem| && i != k
      ensures Shape(disk, mem, i, Blocks(mem[i].size))
      ensures m0[i].size <= MAXFILE * BSIZE && mem[i] == m0[i] && Content(disk, mem, i) == Content(d0, m0, i)
    {
      SettledSize(L, d0, m0, i);
      assert Shape(d0, m0, i, Blocks(m0[i].size));
      OtherContent(d0, m0, disk, mem, k, i);
    }
  }

  /** writei did not grow the file: it allocated nothing, and the inode on disk is still right. */
  lemma {:induction false} WriteEndsInside(L: Layout, d0: Disk, m0: Inodes, disk: Disk, mem: Inodes, k: nat, off: nat,
                                           src: seq<Byte>, nb: nat)
    requires Settled(L, d0, m0) && Writing(L, d0, m0, disk, mem, k, off, src, |src|, nb) && nb == Blocks(m0[k].size)
    requires off + |src| <= m0[k].size
    ensures Settled(L, disk, mem) && OthersAlike(d0, m0, disk, mem, k)
    ensures Content(disk, mem, k) == Splice(Content(d0, m0, k), off, src)
  {
    assert src[..|src|] == src;
    hide SlotVal, Own, Shape, InodeOk, InUse, Splice;
    OthersSettled(L, d0, m0, disk, mem, k);
    forall i: nat | i < |mem| && IBlock(L, i) < |disk| ensures DiskInode(L, disk, i) == mem[i] {
      InodeBlockLow(L, i);
      assert disk[IBlock(L, i)] == d0[IBlock(L, i)];
      assert DiskInode(L, d0, i) == m0[i];
    }
  }

  lemma {:induction false} InodeBlockLow(L: Layout, i: nat)
    requires LayoutOk(L) && i < L.ninodes
    ensures IBlock(L, i) < L.bmapstart
  {
  }

  /** iupdate has stored the inode: everything agrees again. */
  lemma {:induction false} UpdateSettles(L: Layout, d0: Disk, m0: Inodes, disk: Disk, mem: Inodes, k: nat)
    requires Settled(L, d0, m0) && Inv(L, disk, mem) && OthersKept(d0, m0, disk, mem, k) && k < |mem|
    requires L.bmapstart <= |d0| && forall x: nat :: x < L.bmapstart ==> disk[x] == d0[x]
    requires Shape(disk, mem, k, Blocks(mem[k].size))
    ensures mem[k].size <= MAXFILE * BSIZE && InodeOk(mem[k]) && IBlock(L, k) < |disk|
    ensures var d := UpdateDisk(L, disk, mem, k);
            Settled(L, d, mem) && OthersAlike(d0, m0, d, mem, k) && Content(d, mem, k) == Content(disk, mem, k)
  {
    UpdateKeeps(L, disk, mem, k);
    var d := UpdateDisk(L, disk, mem, k);
    assert LayoutOk(L);
    hide SlotVal, Own, Inv, InodeOk, InUse, UpdateDisk, LayoutOk;
    SameOthersKept(disk, mem, d, k, NDIRECT);
    OthersKeptTrans(d0, m0, disk, mem, d, mem, k);
    OthersSettled(L, d0, m0, d, mem, k);
    SameShape(disk, mem, d, k, Blocks(mem[k].size));
    forall bn: nat | bn < Blocks(mem[k].size) && bn < MAXFILE ensures Kept(disk, mem, d, mem, k, DataSlot(bn)) {
      assert Addr(disk, mem, k, bn) != 0;
    }
    BytesKept(disk, mem, d, mem, k, mem[k].size);
    UpdateInodes(L, d0, m0, disk, mem, k, d);
  }

  lemma {:induction false} UpdateInodes(L: Layout, d0: Disk, m0: Inodes, disk: Disk, mem: Inodes, k: nat, d: Disk)
    requires Settled(L, d0, m0) && OthersKept(d0, m0, disk, mem, k) && k < |mem| && |d| == |disk|
    requires L.bmapstart <= |d0| && forall x: nat :: x < L.bmapstart ==> disk[x] == d0[x]
    requires forall i: nat :: i < |mem| && IBlock(L, i) < |disk| ==>
      DiskInode(L, d, i) == if i == k then mem[k] else DiskInode(L, disk, i)
    ensures forall i: nat :: i < |mem| && IBlock(L, i) < |d| ==> DiskInode(L, d, i) == mem[i]
  {
    hide SlotVal, Own, Shape, InodeOk, InUse;
    forall i: nat | i < |mem| && IBlock(L, i) < |d| ensures DiskInode(L, d, i) == mem[i] {
      InodeBlockLow(L, i);
      assert disk[IBlock(L, i)] == d0[IBlock(L, i)];
      assert DiskInode(L, d0, i) == m0[i];
      assert i != k ==> mem[i] == m0[i];
    }
  }

  /** The file has grown, and iupdate has stored the new size and addresses. */
  lemma {:induction false} WriteEndsBeyond(L: Layout, d0: Disk, m0: Inodes, disk: Disk, mem: Inodes, k: nat, off: nat,
                                           src: seq<Byte>, nb: nat,
                                           m: Inodes)
    requires Settled(L, d0, m0) && Writing(L, d0, m0, disk, mem, k, off, src, |src|, nb) && nb == Blocks(off + |src|)
    requires off + |src| > m0[k].size && k < |m| && m[k].size == off + |src|
    requires Inv(L, disk, m) && SlotsSame(disk, mem, disk, m) && OthersKept(disk, mem, disk, m, k)
    ensures InodeOk(m[k]) && IBlock(L, k) < |disk|
    ensures var d := UpdateDisk(L, disk, m, k);
            Settled(L, d, m) && OthersAlike(d0, m0, d, m, k) && Content(d, m, k) == Splice(Content(d0, m0, k), off, src)
  {
    assert src[..|src|] == src;
    hide SlotVal, Inv, InodeOk, InUse, Splice, UpdateDisk, Settled, OthersKept, OthersAlike, Shape, Bytes, SlotsSame;
    hide Blocks;
    OthersKeptTrans(d0, m0, disk, mem, disk, m, k);
    ResizedShape(disk, mem, m, k, nb, off + |src|);
    UpdateSettles(L, d0, m0, disk, m, k);
  }

  lemma {:induction false} ResizedShape(disk: Disk, mem: Inodes, m: Inodes, k: nat, nb: nat, end: nat)
    requires k < |mem| && SlotsSame(disk, mem, disk, m) && Shape(disk, mem, k, nb) && end <= MAXFILE * BSIZE
    ensures Shape(disk, m, k, nb) && Bytes(disk, m, k, end) == Bytes(disk, mem, k, end)
  {
    hide SlotVal;
    forall bn: nat | bn < MAXFILE ensures Addr(disk, m, k, bn) == Addr(disk, mem, k, bn) {}
    forall q: nat | q < end ensures ByteAt(disk, m, k, q) == ByteAt(disk, mem, k, q) {
      assert Addr(disk, m, k, q / BSIZE) == Addr(disk, mem, k, q / BSIZE);
    }
  }
}
