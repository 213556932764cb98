/** The bytes of files under the steps of fs.c. */
module FsContent {
  import opened Params
  import opened DiskBlocks
  import opened FsState
  import opened FsSteps

  /** Every inode but k has its fields, its slots and its data. */
  ghost predicate OthersKept(disk: Disk, mem: Inodes, disk': Disk, mem': Inodes, k: nat)
  {
    |mem'| == |mem| && |disk'| == |disk| &&
    (forall i: nat :: i < |mem| && i != k ==> mem'[i] == mem[i]) &&
    (forall i: nat, s: nat :: i < |mem| && i != k && s < NSLOTS ==>
      SlotVal(disk', mem', i, s) == SlotVal(disk, mem, i, s)) &&
    (forall i: nat, s: nat :: i < |mem| && i != k && s < NSLOTS && s != NDIRECT && SlotVal(disk, mem, i, s) != 0 ==>
      Kept(disk, mem, disk', mem', i, s))
  }

  lemma {:induction false} OthersKeptTrans(d0: Disk, m0: Inodes, d1: Disk, m1: Inodes, d2: Disk, m2: Inodes, k: nat)
    requires OthersKept(d0, m0, d1, m1, k) && OthersKept(d1, m1, d2, m2, k)
    ensures OthersKept(d0, m0, d2, m2, k)
  {
    hide SlotVal;
  }

  lemma {:induction false} ButOthersKept(disk: Disk, mem: Inodes, disk': Disk, mem': Inodes, k: nat, s: nat, v: nat)
    requires SlotsBut(disk, mem, disk', mem', k, s, v) && DataBut(disk, mem, disk', mem', k, s)
    requires forall i: nat :: i < |mem| && i != k ==> mem'[i] == mem[i]
    ensures OthersKept(disk, mem, disk', mem', k)
  {
    hide SlotVal, Kept;
  }

  lemma {:induction false} SameOthersKept(disk: Disk, mem: Inodes, disk': Disk, k: nat, s: nat)
    requires SlotsSame(disk, mem, disk', mem) && DataBut(disk, mem, disk', mem, k, s)
    ensures OthersKept(disk, mem, disk', mem, k)
  {
    hide SlotVal, Kept;
  }

  /** Blocks kept are bytes kept. */
  lemma {:induction false} BytesKept(disk: Disk, mem: Inodes, disk': Disk, mem': Inodes, k: nat, end: nat)
    requires k < |mem| && k < |mem'| && |disk'| == |disk| && end <= MAXFILE * BSIZE
    requires forall bn: nat :: bn < Blocks(end) && bn < MAXFILE ==> Kept(disk, mem, disk', mem', k, DataSlot(bn))
    ensures Bytes(disk', mem', k, end) == Bytes(disk, mem, k, end)
  {
    hide SlotVal;
    forall q: nat | q < end ensures ByteAt(disk', mem', k, q) == ByteAt(disk, mem, k, q) {
      assert q / BSIZE < Blocks(end);
      assert Kept(disk, mem, disk', mem', k, DataSlot(q / BSIZE));
    }
  }

  /** So a file that is not worked on reads as before. */
  lemma {:induction false} OtherContent(disk: Disk, mem: Inodes, disk': Disk, mem': Inodes, k: nat, i: nat)
    requires OthersKept(disk, mem, disk', mem', k) && i < |mem| && i != k
    requires Shape(disk, mem, i, Blocks(mem[i].size)) && mem[i].size <= MAXFILE * BSIZE
    ensures Shape(disk', mem', i, Blocks(mem[i].size)) && Content(disk', mem', i) == Content(disk, mem, i)
  {
    var nb := Blocks(mem[i].size);
    hide SlotVal;
    forall bn: nat | bn < nb && bn < MAXFILE ensures Kept(disk, mem, disk', mem', i, DataSlot(bn)) {
      assert Addr(disk, mem, i, bn) != 0;
    }
    hide Blocks, Kept;
    BytesKept(disk, mem, disk', mem', i, mem[i].size);
    forall bn: nat | bn < MAXFILE ensures Addr(disk', mem', i, bn) == Addr(disk, mem, i, bn) {}
  }

  lemma {:induction false} SpliceConcat(bytes: seq<Byte>, off: nat, s1: seq<Byte>, s2: seq<Byte>)
    requires off <= |bytes|
    ensures Splice(Splice(bytes, off, s1), off + |s1|, s2) == Splice(bytes, off, s1 + s2)
  {
  }

  function Max(a: nat, b: nat): nat { if a < b then b else a }

  /** memmove of src into the block at offset o. */
  function Overwrite(blk: Block, o: nat, src: seq<Byte>): Block
    requires o + |src| <= BSIZE
  {
    blk[..o] + src + blk[o + |src|..]
  }

  /** Overwriting part of one block of a file splices its bytes, extending them if need be. */
  lemma {:induction false} OverwriteSplices(disk: Disk, mem: Inodes, disk': Disk, k: nat, end: nat, off: nat,
                                            src: seq<Byte>)
    requires k < |mem| && |disk'| == |disk| && off <= end && off % BSIZE + |src| <= BSIZE && src != []
    requires Max(end, off + |src|) <= MAXFILE * BSIZE
    requires SlotsSame(disk, mem, disk', mem) && DataBut(disk, mem, disk', mem, k, DataSlot(off / BSIZE))
    requires forall bn: nat :: bn < Blocks(Max(end, off + |src|)) && bn < MAXFILE ==> Addr(disk, mem, k, bn) != 0
    requires var a := Addr(disk, mem, k, off / BSIZE); a < |disk| && disk'[a] == Overwrite(disk[a], off % BSIZE, src)
    ensures Bytes(disk', mem, k, Max(end, off + |src|)) == Splice(Bytes(disk, mem, k, end), off, src)
  {
    var end' := Max(end, off + |src|);
    var was, now := Splice(Bytes(disk, mem, k, end), off, src), Bytes(disk', mem, k, end');
    forall q: nat | q < end' ensures now[q] == was[q] {
      var bn := q / BSIZE;
      ByteSplice(disk, mem, disk', k, end, off, src, q);
    }
    assert |now| == |was|;
  }

  lemma {:induction false} ByteSplice(disk: Disk, mem: Inodes, disk': Disk, k: nat, end: nat, off: nat, src: seq<Byte>,
                                      q: nat)
    requires k < |mem| && |disk'| == |disk| && off <= end && off % BSIZE + |src| <= BSIZE && src != []
    requires Max(end, off + |src|) <= MAXFILE * BSIZE && q < Max(end, off + |src|)
    requires SlotsSame(disk, mem, disk', mem) && DataBut(disk, mem, disk', mem, k, DataSlot(off / BSIZE))
    requires forall bn: nat :: bn < Blocks(Max(end, off + |src|)) && bn < MAXFILE ==> Addr(disk, mem, k, bn) != 0
    requires var a := Addr(disk, mem, k, off / BSIZE); a < |disk| && disk'[a] == Overwrite(disk[a], off % BSIZE, src)
    ensures ByteAt(disk', mem, k, q) == if off <= q < off + |src| then src[q - off] else ByteAt(disk, mem, k, q)
    ensures off <= q < off + |src| || q < end
  {
    var bn := q / BSIZE;
    assert bn < Blocks(Max(end, off + |src|)) && bn < MAXFILE;
    assert Addr(disk, mem, k, bn) != 0;
    hide SlotVal;
    assert SlotVal(disk', mem, k, DataSlot(bn)) == SlotVal(disk, mem, k, DataSlot(bn));
    if bn != off / BSIZE { assert Kept(disk, mem, disk', mem, k, DataSlot(bn)); }
  }

  // ----- bmap -----

  ghost predicate FieldsKept(L: Layout, disk: Disk, mem: Inodes, disk': Disk, mem': Inodes, k: nat)
  {
    k < |mem| == |mem'| && L.bmapstart <= |disk| == |disk'| && mem'[k] == mem[k].(addrs := mem'[k].addrs) &&
    forall x: nat :: x < L.bmapstart ==> disk'[x] == disk[x]
  }

  /** An empty slot has got a block, and nothing else has changed. */
  ghost predicate Filled(L: Layout, disk: Disk, mem: Inodes, disk': Disk, mem': Inodes, k: nat, s: nat, v: nat)
  {
    k < |mem| && s < NSLOTS && v != 0 && SlotVal(disk, mem, k, s) == 0 && SlotsBut(disk, mem, disk', mem', k, s, v) &&
    DataBut(disk, mem, disk', mem', k, s) && OthersKept(disk, mem, disk', mem', k) &&
    FieldsKept(L, disk, mem, disk', mem', k)
  }

  /** What bmap may change: block bn of inode k now exists, and perhaps the indirect block. */
  ghost predicate Mapped(L: Layout, disk: Disk, mem: Inodes, disk': Disk, mem': Inodes, k: nat, bn: nat)
  {
    k < |mem| && bn < MAXFILE && OthersKept(disk, mem, disk', mem', k) && FieldsKept(L, disk, mem, disk', mem', k) &&
    DataBut(disk, mem, disk', mem', k, DataSlot(bn)) && Addr(disk', mem', k, bn) != 0 &&
    (forall c: nat :: c < MAXFILE && c != bn ==> Addr(disk', mem', k, c) == Addr(disk, mem, k, c)) &&
    var ind, ind' := SlotVal(disk, mem, k, NDIRECT), SlotVal(disk', mem', k, NDIRECT);
    (bn < NDIRECT || ind != 0 ==> ind' == ind) && (bn >= NDIRECT ==> ind' != 0)
  }

  lemma {:induction false} AllocFields(L: Layout, disk: Disk, mem: Inodes, k: nat, s: nat, b: nat)
    requires Inv(L, disk, mem) && HasSlot(disk, mem, k, s) && L.datastart <= b < L.size
    ensures BBlock(L, b) < |disk|
    ensures FieldsKept(L, disk, mem, PutDisk(AllocDisk(L, disk, b), mem, k, s, b), PutMem(mem, k, s, b), k)
  {
    MapBlock(L, b);
    assert SlotVal(disk, mem, k, NDIRECT) == mem[k].addrs[NDIRECT];
    hide Own, SlotVal, InUse, InodeOk;
    if s > NDIRECT { OwnDistinct(L, disk, mem); }
  }

  lemma {:induction false} AllocFills(L: Layout, disk: Disk, mem: Inodes, k: nat, s: nat, b: nat)
    requires Inv(L, disk, mem) && HasSlot(disk, mem, k, s) && SlotVal(disk, mem, k, s) == 0
    requires L.datastart <= b < L.size && !InUse(L, disk, b)
    ensures BBlock(L, b) < |disk|
    ensures var d, m := PutDisk(AllocDisk(L, disk, b), mem, k, s, b), PutMem(mem, k, s, b);
            Inv(L, d, m) && Filled(L, disk, mem, d, m, k, s, b)
  {
    AllocKeeps(L, disk, mem, k, s, b);
    AllocFields(L, disk, mem, k, s, b);
    hide Inv, SlotVal, InUse, SlotsBut, DataBut, OthersKept, FieldsKept, AllocDisk, PutDisk;
    ButOthersKept(disk, mem, PutDisk(AllocDisk(L, disk, b), mem, k, s, b), PutMem(mem, k, s, b), k, s, b);
  }

  lemma {:induction false} FilledMaps(L: Layout, disk: Disk, mem: Inodes, disk': Disk, mem': Inodes, k: nat, bn: nat,
                                      v: nat)
    requires bn < MAXFILE && Filled(L, disk, mem, disk', mem', k, DataSlot(bn), v)
    requires bn >= NDIRECT ==> SlotVal(disk, mem, k, NDIRECT) != 0
    ensures Mapped(L, disk, mem, disk', mem', k, bn) && Addr(disk', mem', k, bn) == v
  {
    hide SlotVal, OthersKept, DataBut, FieldsKept;
  }

  lemma {:induction false} FilledTwice(L: Layout, disk: Disk, mem: Inodes, d: Disk, m: Inodes, disk': Disk,
                                       mem': Inodes, k: nat, bn: nat, a: nat, v: nat)
    requires NDIRECT <= bn < MAXFILE && Filled(L, disk, mem, d, m, k, NDIRECT, a)
    requires Filled(L, d, m, disk', mem', k, DataSlot(bn), v)
    ensures Mapped(L, disk, mem, disk', mem', k, bn) && Addr(disk', mem', k, bn) == v
    ensures SlotVal(disk', mem', k, NDIRECT) == a
  {
    OthersKeptTrans(disk, mem, d, m, disk', mem', k);
    hide SlotVal, OthersKept;
    forall i: nat, s: nat | i < |mem| && s < NSLOTS && s != NDIRECT && !(i == k && s == DataSlot(bn)) &&
        SlotVal(disk, mem, i, s) != 0
      ensures Kept(disk, mem, disk', mem', i, s)
    {
      assert Kept(disk, mem, d, m, i, s) && Kept(d, m, disk', mem', i, s);
    }
    assert mem'[k] == mem[k].(addrs := mem'[k].addrs);
  }

  /** The block after the last: the file stays without holes. */
  lemma {:induction false} MappedShape(L: Layout, disk: Disk, mem: Inodes, disk': Disk, mem': Inodes, k: nat, bn: nat)
    requires Mapped(L, disk, mem, disk', mem', k, bn) && Shape(disk, mem, k, bn)
    ensures Shape(disk', mem', k, bn + 1)
  {
    hide SlotVal, OthersKept, DataBut;
    forall c: nat | c < MAXFILE ensures Addr(disk', mem', k, c) != 0 <==> c < bn + 1 {
      if c != bn { assert Addr(disk', mem', k, c) == Addr(disk, mem, k, c); }
    }
  }

  /** A new last block brings no bytes into the file yet. */
  lemma {:induction false} MappedBytes(L: Layout, disk: Disk, mem: Inodes, disk': Disk, mem': Inodes, k: nat, bn: nat,
                                       end: nat)
    requires Mapped(L, disk, mem, disk', mem', k, bn) && Shape(disk, mem, k, bn) && Blocks(end) == bn
    ensures Bytes(disk', mem', k, end) == Bytes(disk, mem, k, end)
  {
    hide SlotVal, OthersKept, FieldsKept;
    forall c: nat | c < Blocks(end) && c < MAXFILE ensures Kept(disk, mem, disk', mem', k, DataSlot(c)) {
      assert Addr(disk, mem, k, c) != 0;
    }
    BytesKept(disk, mem, disk', mem', k, end);
  }
}
