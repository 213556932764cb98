/** fs.c: the block and inode layer. Each block is named by its latest contents; log_write records the
  block as part of the transaction. */
module FileSystem {
  import opened Params
  import opened SetSizes
  import opened DiskBlocks
  import opened FsBits
  import opened FsState
  import opened FsSteps
  import opened FsContent
  import opened FsWriting
  import opened FsChunk
  import opened FsTruncate

  const NDEV: nat := 10

  datatype Ret = Returned(value: int) | Panicked

  ghost predicate AllInUse(L: Layout, disk: Disk) { forall b: nat :: b < L.size ==> InUse(L, disk, b) }

  /** The indirect block of an inode, if it has one. */
  ghost function Indirect(disk: Disk, mem: Inodes, k: nat): set<nat>
    requires k < |mem|
  {
    if SlotVal(disk, mem, k, NDIRECT) == 0 then {} else {SlotVal(disk, mem, k, NDIRECT)}
  }

  class FileSystem {
    const L: Layout                    // from the super block
    var disk: Disk
    var mem: Inodes
    var logged: set<nat>               // blocks passed to log_write

    constructor (layout: Layout, blocks: Disk, inodes: Inodes)
      ensures L == layout && disk == blocks && mem == inodes && logged == {}
    {
      L, disk, mem, logged := layout, blocks, inodes, {};
    }

    /** The lowest block whose bit is clear, marked and zeroed; panics when every bit is set. */
    method Balloc() returns (ok: bool, b: nat)
      requires Inv(L, disk, mem)
      modifies this`disk, this`logged
      ensures ok <==> !AllInUse(L, old(disk))
      ensures ok <==> FreeCount(L, old(disk)) > 0
      ensures !ok ==> unchanged(this)
      ensures ok ==> L.datastart <= b < L.size && !InUse(L, old(disk), b)
      ensures ok ==> forall c: nat :: c < b ==> InUse(L, old(disk), c)
      ensures ok ==> BBlock(L, b) < L.datastart && disk == AllocDisk(L, old(disk), b)
      ensures ok ==> logged == old(logged) + {BBlock(L, b), b}
    {
      hide Inv, InUse, FreeCount, Bit, SetBit, ZeroBlock, BBlock;
      CountZero(L, disk);
      SizeFits(L, disk, mem);
      var c: nat := 0;
      while c < L.size
        invariant c % BPB == 0 && forall x: nat :: x < c && x < L.size ==> InUse(L, disk, x)
        invariant disk == old(disk) && logged == old(logged)
      {
        BitTest(L, disk, mem, c, 0);
        var bi: nat := 0;
        while bi < BPB && c + bi < L.size
          invariant bi <= BPB && forall x: nat :: x < c + bi && x < L.size ==> InUse(L, disk, x)
          invariant disk == old(disk) && logged == old(logged)
        {
          BitTest(L, disk, mem, c, bi);
          if !Bit(disk[BBlock(L, c)], bi) {
            b := c + bi;
            disk := disk[BBlock(L, c) := SetBit(disk[BBlock(L, c)], bi, true)];
            logged := logged + {BBlock(L, c)};
            disk := disk[b := ZeroBlock()];
            logged := logged + {b};
            return true, b;
          }
          bi := bi + 1;
        }
        c := c + BPB;
      }
      return false, 0;
    }

    /** Clears the bit; panics when it is clear already. */
    method Bfree(b: nat) returns (ok: bool)
      requires LayoutOk(L) && |disk| == L.size && b < L.size
      modifies this`disk, this`logged
      ensures ok == InUse(L, old(disk), b) && BBlock(L, b) < L.datastart
      ensures if ok then disk == MarkDisk(L, old(disk), b, false) && logged == old(logged) + {BBlock(L, b)}
              else unchanged(this)
      ensures Tracks(L, old(disk), old(logged), disk, logged)
    {
      MapBlock(L, b);
      var bi := b % BPB;
      if !Bit(disk[BBlock(L, b)], bi) { return false; }
      disk := disk[BBlock(L, b) := SetBit(disk[BBlock(L, b)], bi, false)];
      logged := logged + {BBlock(L, b)};
      return true;
    }

    method Iupdate(k: nat)
      requires Inv(L, disk, mem) && k < |mem|
      modifies this`disk, this`logged
      ensures InodeOk(mem[k]) && IBlock(L, k) < |old(disk)| && disk == UpdateDisk(L, old(disk), mem, k)
      ensures logged == old(logged) + {IBlock(L, k)}
      ensures Tracks(L, old(disk), old(logged), disk, logged)
    {
      UpdateKeeps(L, disk, mem, k);
      disk := disk[IBlock(L, k) := WriteInode(disk[IBlock(L, k)], k % IPB, mem[k])];
      logged := logged + {IBlock(L, k)};
    }

    /** An empty slot of inode k gets a new block from balloc. */
    method Fill(k: nat, s: nat) returns (ok: bool, b: nat)
      requires Inv(L, disk, mem) && HasSlot(disk, mem, k, s) && SlotVal(disk, mem, k, s) == 0
      modifies this
      ensures !ok ==> AllInUse(L, disk) && unchanged(this)
      ensures ok ==> Inv(L, disk, mem) && Filled(L, old(disk), old(mem), disk, mem, k, s, b)
      ensures ok ==>
        logged == old(logged) + {BBlock(L, b), b} + if s > NDIRECT then Indirect(old(disk), old(mem), k) else {}
      ensures ok ==> BBlock(L, b) in MapBlocks(L)
      ensures ok <==> FreeCount(L, old(disk)) > 0
      ensures ok ==> FreeCount(L, disk) == FreeCount(L, old(disk)) - 1
      ensures ok ==> Tracks(L, old(disk), old(logged), disk, logged)
    {
      hide Inv, InUse, Filled, AllocDisk, SlotVal, FreeCount;
      SlotIndirect(disk, mem, k);
      ghost var disk0, logged0 := disk, logged;
      ok, b := Balloc();
      if !ok { return; }
      InMap(L, b);
      AllocFills(L, disk0, mem, k, s, b);
      AllocKeeps(L, disk0, mem, k, s, b);
      SizeFits(L, disk0, mem);
      CountAfterAlloc(L, disk0, PutDisk(AllocDisk(L, disk0, b), mem, k, s, b), b);
      AllocTracks(L, disk0, mem, k, s, b, logged0);
      if s <= NDIRECT {
        mem := mem[k := mem[k].(addrs := mem[k].addrs[s := b])];
      } else {
        var a := mem[k].addrs[NDIRECT];
        disk := disk[a := Set32(disk[a], s - NDIRECT - 1, b)];
        logged := logged + {a};
      }
    }

    /** The disk block of block bn of the file, allocated if it does not exist. */
    method Bmap(k: nat, bn: nat) returns (ok: bool, addr: nat, ghost maps: set<nat>)
      requires Inv(L, disk, mem) && k < |mem|
      modifies this
      ensures bn >= MAXFILE ==> !ok && unchanged(this)
      ensures !ok ==> bn >= MAXFILE || AllInUse(L, disk)
      ensures bn < MAXFILE ==> (ok <==> FreeCount(L, old(disk)) >= Missing(old(disk), old(mem), k, bn))
      ensures ok ==> Inv(L, disk, mem) && |mem| == old(|mem|) && addr == Addr(disk, mem, k, bn) != 0
      ensures bn < MAXFILE && Addr(old(disk), old(mem), k, bn) != 0 ==> ok && unchanged(this) && maps == {}
      ensures ok && Addr(old(disk), old(mem), k, bn) == 0 ==> Mapped(L, old(disk), old(mem), disk, mem, k, bn)
      ensures ok ==> logged <= old(logged) + maps + {addr} + Indirect(disk, mem, k)
      ensures ok ==> |maps| <= NewBlocks(old(disk), old(mem), disk, mem, k, bn)
      ensures ok ==> maps <= MapBlocks(L)
      ensures ok ==> FreeCount(L, disk) == FreeCount(L, old(disk)) - Missing(old(disk), old(mem), k, bn)
      ensures ok ==> Tracks(L, old(disk), old(logged), disk, logged)
    {
      maps := {};
      if bn < NDIRECT {
        SlotsThere(L, disk, mem, k);
        hide Inv, InUse, Filled, Mapped, FieldsKept, FreeCount;
        addr := mem[k].addrs[bn];
        if addr == 0 {
          ok, addr := Fill(k, bn);
          if !ok { return; }
          FilledMaps(L, old(disk), old(mem), disk, mem, k, bn, addr);
          maps := {BBlock(L, addr)};
        }
        return true, addr, maps;
      }
      if bn < MAXFILE {
        ok, addr, maps := BmapIndirect(k, bn);
        return;
      }
      return false, 0, {};
    }

    method BmapIndirect(k: nat, bn: nat) returns (ok: bool, addr: nat, ghost maps: set<nat>)
      requires Inv(L, disk, mem) && k < |mem| && NDIRECT <= bn < MAXFILE
      modifies this
      ensures !ok ==> AllInUse(L, disk)
      ensures ok <==> FreeCount(L, old(disk)) >= Missing(old(disk), old(mem), k, bn)
      ensures ok ==> Inv(L, disk, mem) && |mem| == old(|mem|) && addr == Addr(disk, mem, k, bn) != 0
      ensures Addr(old(disk), old(mem), k, bn) != 0 ==> ok && unchanged(this) && maps == {}
      ensures ok && Addr(old(disk), old(mem), k, bn) == 0 ==> Mapped(L, old(disk), old(mem), disk, mem, k, bn)
      ensures ok ==> logged <= old(logged) + maps + {addr} + Indirect(disk, mem, k)
      ensures ok ==> |maps| <= NewBlocks(old(disk), old(mem), disk, mem, k, bn)
      ensures ok ==> maps <= MapBlocks(L)
      ensures ok ==> FreeCount(L, disk) == FreeCount(L, old(disk)) - Missing(old(disk), old(mem), k, bn)
      ensures ok ==> Tracks(L, old(disk), old(logged), disk, logged)
    {
      SlotsThere(L, disk, mem, k);
      hide Inv, InUse, Filled, Mapped, FieldsKept, SlotVal, FreeCount, Tracks, AllInUse;
      var ind := mem[k].addrs[NDIRECT];
      ghost var disk0, mem0, logged0 := disk, mem, logged;
      TracksNone(L, disk, logged);
      if ind == 0 {
        ok, addr, maps := FillIndirect(k, bn);
      } else {
        ok, addr := Entry(k, bn, ind);
        maps := if Addr(disk0, mem0, k, bn) == 0 then {BBlock(L, addr)} else {};
        if ok && Addr(disk0, mem0, k, bn) == 0 { FilledMaps(L, disk0, mem0, disk, mem, k, bn, addr); }
      }
    }

    /** The indirect block is new, and so is the block that its entry names. */
    method FillIndirect(k: nat, bn: nat) returns (ok: bool, addr: nat, ghost maps: set<nat>)
      requires Inv(L, disk, mem) && k < |mem| && NDIRECT <= bn < MAXFILE && HasSlot(disk, mem, k, NDIRECT)
      requires SlotVal(disk, mem, k, NDIRECT) == 0 == Addr(disk, mem, k, bn)
      modifies this
      ensures !ok ==> AllInUse(L, disk)
      ensures ok <==> FreeCount(L, old(disk)) >= 2
      ensures ok ==> Inv(L, disk, mem) && |mem| == old(|mem|) && addr == Addr(disk, mem, k, bn) != 0
      ensures ok ==> Mapped(L, old(disk), old(mem), disk, mem, k, bn)
      ensures ok ==> logged <= old(logged) + maps + {addr} + Indirect(disk, mem, k)
      ensures ok ==> |maps| <= 2 && Indirect(disk, mem, k) != {} && maps <= MapBlocks(L)
      ensures ok ==> FreeCount(L, disk) == FreeCount(L, old(disk)) - 2
      ensures ok ==> Tracks(L, old(disk), old(logged), disk, logged)
    {
      hide Inv, InUse, Filled, Mapped, FieldsKept, SlotVal, FreeCount, Tracks, AllInUse, MapBlocks, BBlock;
      ghost var disk0, mem0, logged0 := disk, mem, logged;
      var ind;
      ok, ind := Fill(k, NDIRECT);
      if !ok { return false, 0, {}; }
      FilledFacts(L, disk0, mem0, disk, mem, k, NDIRECT, ind);
      ghost var disk1, mem1, logged1 := disk, mem, logged;
      ok, addr := Entry(k, bn, ind);
      maps := {BBlock(L, ind), BBlock(L, addr)};
      if ok {
        TracksTrans(L, disk0, logged0, disk1, logged1, disk, logged);
        FilledTwice(L, disk0, mem0, disk1, mem1, disk, mem, k, bn, ind, addr);
      }
    }

    /** The entry of the indirect block for block bn, filled if it is empty. */
    method Entry(k: nat, bn: nat, ind: nat) returns (ok: bool, addr: nat)
      requires Inv(L, disk, mem) && k < |mem| && NDIRECT <= bn < MAXFILE && ind == SlotVal(disk, mem, k, NDIRECT) != 0
      modifies this
      ensures !ok ==> AllInUse(L, disk)
      ensures Addr(old(disk), old(mem), k, bn) != 0 ==> ok && unchanged(this) && addr == Addr(disk, mem, k, bn)
      ensures Addr(old(disk), old(mem), k, bn) == 0 ==> (ok <==> FreeCount(L, old(disk)) > 0)
      ensures ok && Addr(old(disk), old(mem), k, bn) == 0 ==>
        Inv(L, disk, mem) && Filled(L, old(disk), old(mem), disk, mem, k, DataSlot(bn), addr) &&
        FreeCount(L, disk) == FreeCount(L, old(disk)) - 1 && Tracks(L, old(disk), old(logged), disk, logged) &&
        logged == old(logged) + {BBlock(L, addr), addr, ind} && BBlock(L, addr) in MapBlocks(L)
      ensures ok && Addr(old(disk), old(mem), k, bn) == 0 ==>
        |mem| == |old(mem)| && SlotVal(disk, mem, k, NDIRECT) == ind && Addr(disk, mem, k, bn) == addr != 0
    {
      SlotsThere(L, disk, mem, k);
      hide Inv, InUse, Filled, FieldsKept, SlotVal, FreeCount, Tracks, AllInUse;
      ghost var disk0, mem0 := disk, mem;
      ok, addr := true, Get32(disk[ind], bn - NDIRECT);
      if addr == 0 {
        ok, addr := Fill(k, DataSlot(bn));
        if ok { FilledFacts(L, disk0, mem0, disk, mem, k, DataSlot(bn), addr); }
      }
    }

    /** The part of a read that lies in one block. */
    method ReadPiece(k: nat, at: nat, m: nat) returns (piece: seq<Byte>)
      requires Settled(L, disk, mem) && k < |mem| && 0 < m && at + m <= mem[k].size && at % BSIZE + m <= BSIZE
      modifies this
      ensures unchanged(this) && mem[k].size <= MAXFILE * BSIZE && piece == Content(disk, mem, k)[at..at + m]
    {
      ReadBlock(L, disk, mem, k, at, m);
      hide Inv, Settled, SlotVal, Content, Mapped, Indirect, NewBlocks, AllInUse;
      var ok, addr, _ := Bmap(k, at / BSIZE);
      piece := disk[addr][at % BSIZE..at % BSIZE + m];
    }

    /** readi: the bytes of the file from off on, clipped to its size. */
    method Readi(k: nat, off: nat, n: nat, devsw: set<nat>, driver: int) returns (r: Ret, dst: seq<Byte>)
      requires Settled(L, disk, mem) && k < |mem| && off < U32 && n < U32
      modifies this
      ensures unchanged(this`disk, this`mem, this`logged)
      ensures mem[k].typ == 3 ==> r == Returned(if mem[k].major < 10 && mem[k].major in devsw then driver else -1)
      ensures mem[k].typ != T_DEV && (off > mem[k].size || off + n >= U32) ==> r == Returned(-1)
      ensures mem[k].size <= MAXFILE * BSIZE
      ensures mem[k].typ != T_DEV && off <= mem[k].size && off + n < U32 ==>
        r == Returned(|dst|) &&
        dst == Content(disk, mem, k)[off..if off + n > mem[k].size then mem[k].size else off + n]
    {
      hide Inv, Settled, SlotVal, Content, Part;
      dst := [];
      SettledSize(L, disk, mem, k);
      if mem[k].typ == T_DEV {
        return Returned(if HasDriver(devsw, mem[k]) then driver else -1), dst;
      }
      if BadRange(mem[k], off, n) { return Returned(-1), dst; }
      BelowWrap(mem[k], off, n);
      hide BadRange;
      var end := if off + n > mem[k].size then mem[k].size else off + n;
      ghost var file := Content(disk, mem, k);
      var at := off;
      while at < end
        invariant off <= at <= end && dst == file[off..at]
        invariant disk == old(disk) && mem == old(mem) && logged == old(logged)
      {
        var m := Part(at, end);
        var piece := ReadPiece(k, at, m);
        Slices(file, off, at, at + m);
        dst := dst + piece;
        at := at + m;
      }
      return Returned(end - off), dst;
    }

    /** bmap for the next part of a write: the file now has the blocks up to the end of that part. */
    method MapPiece(k: nat, ghost d0: Disk, ghost m0: Inodes, off: nat, ghost src: seq<Byte>, tot: nat, ghost m: nat,
                    ghost nb: nat)
      returns (ok: bool, addr: nat, ghost maps: set<nat>)
      requires k < |m0| && nb == Blocks(Max(m0[k].size, off + tot))
      requires Writing(L, d0, m0, disk, mem, k, off, src, tot, nb)
      requires 0 < m && tot + m <= |src| && (off + tot) % BSIZE + m <= BSIZE
      modifies this
      ensures !ok ==> AllInUse(L, disk)
      ensures ok ==> (off + tot) / BSIZE < MAXFILE && |mem| == |m0|
      ensures ok ==> addr == Addr(disk, mem, k, (off + tot) / BSIZE) != 0 && Inv(L, disk, mem)
      ensures ok ==> Writing(L, d0, m0, disk, mem, k, off, src, tot, Blocks(Max(m0[k].size, off + tot + m)))
      ensures ok ==> logged <= old(logged) + maps + {addr} + Indirect(disk, mem, k)
      ensures ok ==> Indirect(old(disk), old(mem), k) <= Indirect(disk, mem, k)
      ensures ok ==> maps <= MapBlocks(L)
      ensures ok ==>
        |maps| <= Blocks(Max(m0[k].size, off + tot + m)) - nb + NewIndirect(old(disk), old(mem), disk, mem, k)
      ensures nb <= Blocks(Max(m0[k].size, off + tot + m))
      ensures Tracks(L, old(disk), old(logged), if ok then disk else old(disk), if ok then logged else old(logged))
      ensures ok <==> FreeCount(L, old(disk)) >= Growth(nb, Blocks(Max(m0[k].size, off + tot + m)))
      ensures ok ==> FreeCount(L, disk) == FreeCount(L, old(disk)) - Growth(nb, Blocks(Max(m0[k].size, off + tot + m)))
    {
      hide Inv, Mapped, AllInUse, SlotVal, Writing, Blocks, Indirect, FreeCount, Tracks, MapBlocks, NewIndirect;
      hide Missing;
      TracksNone(L, disk, logged);
      MissingIsGrowth(L, d0, m0, disk, mem, k, off, src, tot, nb);
      ghost var bn := (off + tot) / BSIZE;
      WritingSize(L, d0, m0, disk, mem, k, off, src, tot, nb);
      NextBlock(L, d0, m0, disk, mem, k, off, src, tot, nb);
      BlocksAfter(m0[k].size, off + tot, m);
      ghost var disk1, mem1 := disk, mem;
      ok, addr, maps := Bmap(k, (off + tot) / BSIZE);
      if ok && bn == nb {
        WriteMaps(L, d0, m0, disk1, mem1, disk, mem, k, off, src, tot, nb);
        MappedIndirect(L, disk1, mem1, disk, mem, k, nb);
      }
    }

    /** The part of a write that lies in one block. */
    method WritePiece(k: nat, ghost d0: Disk, ghost m0: Inodes, off: nat, src: seq<Byte>, tot: nat, m: nat)
      returns (ok: bool, addr: nat, ghost maps: set<nat>)
      requires k < |m0| && k < |mem|
      requires Writing(L, d0, m0, disk, mem, k, off, src, tot, Blocks(Max(m0[k].size, off + tot)))
      requires 0 < m && tot + m <= |src| && (off + tot) % BSIZE + m <= BSIZE
      modifies this
      ensures !ok ==> AllInUse(L, disk)
      ensures ok ==> |mem| == |m0|
      ensures ok ==> Writing(L, d0, m0, disk, mem, k, off, src, tot + m, Blocks(Max(m0[k].size, off + tot + m)))
      ensures ok ==> logged <= old(logged) + maps + {addr} + Indirect(disk, mem, k)
      ensures ok ==> Indirect(old(disk), old(mem), k) <= Indirect(disk, mem, k)
      ensures ok ==> maps <= MapBlocks(L)
      ensures ok ==>
        |maps| <= Blocks(Max(m0[k].size, off + tot + m)) - Blocks(Max(m0[k].size, off + tot))
          + NewIndirect(old(disk), old(mem), disk, mem, k)
      ensures Blocks(Max(m0[k].size, off + tot)) <= Blocks(Max(m0[k].size, off + tot + m))
      ensures ok <==>
        FreeCount(L, old(disk)) >= Growth(Blocks(Max(m0[k].size, off + tot)), Blocks(Max(m0[k].size, off + tot + m)))
      ensures ok ==>
        FreeCount(L, disk) == FreeCount(L, old(disk))
          - Growth(Blocks(Max(m0[k].size, off + tot)), Blocks(Max(m0[k].size, off + tot + m)))
      ensures ok ==> Tracks(L, old(disk), old(logged), disk, logged)
    {
      hide Inv, AllInUse, SlotVal, Writing, Blocks, Indirect, Overwrite, Addr, FreeCount, Tracks, Growth;
      ok, addr, maps := MapPiece(k, d0, m0, off, src, tot, m, Blocks(Max(m0[k].size, off + tot)));
      if !ok { return; }
      var at, piece := off + tot, src[tot..tot + m];
      WriteCopies(L, d0, m0, disk, mem, k, off, src, tot, m, Blocks(Max(m0[k].size, off + tot + m)));
      WrittenIndirect(L, disk, mem, k, at / BSIZE, Overwrite(disk[addr], at % BSIZE, piece));
      WrittenTracks(L, disk, mem, k, at / BSIZE, Overwrite(disk[addr], at % BSIZE, piece), old(disk), old(logged),
                    logged);
      disk := disk[addr := Overwrite(disk[addr], at % BSIZE, piece)];
      logged := logged + {addr};
    }

    /** One turn of writei's loop. */
    method WriteTurn(k: nat, off: nat, src: seq<Byte>, tot: nat, ghost d0: Disk, ghost m0: Inodes, ghost l0: set<nat>,
                     ghost data: set<nat>, ghost maps: set<nat>)
      returns (ok: bool, m: nat, ghost data': set<nat>, ghost maps': set<nat>)
      requires tot < |src| && (tot == 0 || (off + tot) % BSIZE == 0) && k < |mem| == |m0|
      requires Writing(L, d0, m0, disk, mem, k, off, src, tot, Blocks(Max(m0[k].size, off + tot)))
      requires Progress(L, d0, m0, l0, disk, mem, logged, k, off, tot, data, maps)
      modifies this
      ensures 0 < m <= |src| - tot && (tot + m == |src| || (off + tot + m) % BSIZE == 0)
      ensures ok ==> |mem| == |m0|
      ensures ok ==>
        Writing(L, d0, m0, disk, mem, k, off, src, tot + m, Blocks(Max(m0[k].size, off + tot + m))) &&
        Progress(L, d0, m0, l0, disk, mem, logged, k, off, tot + m, data', maps')
      ensures !ok ==>
        AllInUse(L, disk) && FreeCount(L, d0) < Growth(Blocks(m0[k].size), Blocks(Max(m0[k].size, off + |src|)))
    {
      hide Inv, Settled, SlotVal, Writing, AllInUse, Blocks, Part, Logs, Touched, Indirect, NewIndirect, FreeCount;
      hide Tracks, Growth, Progress, MapBlocks;
      m := Part(off + tot, off + |src|);
      PartAligns(off + tot, off + |src|);
      GrowthTo(m0[k].size, off + tot, off + tot + m, off + |src|);
      ghost var disk1, mem1, logged1 := disk, mem, logged;
      ghost var more: set<nat>;
      var addr: nat;
      ok, addr, more := WritePiece(k, d0, m0, off, src, tot, m);
      if ok {
        ProgressNext(L, d0, m0, l0, disk1, mem1, logged1, disk, mem, logged, k, off, tot, m, data, maps, addr, more);
      } else {
        ProgressHas(L, d0, m0, l0, disk1, mem1, logged1, k, off, tot, data, maps);
      }
      data', maps' := data + {addr}, maps + more;
    }

    /** writei's loop: the blocks written, and the free-map blocks changed. */
    method WriteBlocks(k: nat, off: nat, src: seq<Byte>) returns (ok: bool, ghost data: set<nat>, ghost maps: set<nat>)
      requires Settled(L, disk, mem) && k < |mem| && off <= mem[k].size && off + |src| <= MAXFILE * BSIZE
      modifies this
      ensures !ok ==> AllInUse(L, disk)
      ensures ok ==>
        Writing(L, old(disk), old(mem), disk, mem, k, off, src, |src|, Blocks(Max(old(mem)[k].size, off + |src|)))
      ensures ok ==> |mem| == |old(mem)| && Logs(old(logged), logged, data, maps, Indirect(disk, mem, k))
      ensures ok ==> |data| <= Touched(off, off + |src|)
      ensures ok ==> |maps| <= Blocks(Max(old(mem)[k].size, off + |src|)) - Blocks(old(mem)[k].size) + 1
      ensures ok ==> |maps| <= MapSize(L)
      ensures Blocks(old(mem)[k].size) <= Blocks(Max(old(mem)[k].size, off + |src|))
      ensures ok <==>
        FreeCount(L, old(disk)) >= Growth(Blocks(old(mem)[k].size), Blocks(Max(old(mem)[k].size, off + |src|)))
      ensures ok ==>
        FreeCount(L, disk) == FreeCount(L, old(disk))
          - Growth(Blocks(old(mem)[k].size), Blocks(Max(old(mem)[k].size, off + |src|)))
      ensures ok ==> Tracks(L, old(disk), old(logged), disk, logged)
    {
      hide Inv, Settled, SlotVal, Writing, AllInUse, Blocks, Part, Logs, Touched, Indirect, NewIndirect, FreeCount;
      hide Tracks;
      hide Growth, Progress;
      ghost var disk0, mem0, logged0, size := disk, mem, logged, mem[k].size;
      data, maps := {}, {};
      WriteStarts(L, disk, mem, k, off, src);
      ProgressStarts(L, disk, mem, logged, k, off);
      BlocksRise(size, off + |src|);
      var tot := 0;
      while tot < |src|
        invariant tot <= |src| && (tot == 0 || tot == |src| || (off + tot) % BSIZE == 0) && k < |mem| == |mem0|
        invariant Writing(L, disk0, mem0, disk, mem, k, off, src, tot, Blocks(Max(size, off + tot)))
        invariant Progress(L, disk0, mem0, logged0, disk, mem, logged, k, off, tot, data, maps)
      {
        var m;
        ok, m, data, maps := WriteTurn(k, off, src, tot, disk0, mem0, logged0, data, maps);
        if !ok { return; }
        tot := tot + m;
      }
      ProgressHas(L, disk0, mem0, logged0, disk, mem, logged, k, off, tot, data, maps);
      return true, data, maps;
    }

    /** The end of writei when the file has grown. */
    method SetSize(k: nat, off: nat, src: seq<Byte>, ghost d0: Disk, ghost m0: Inodes)
      requires k < |m0| && k < |mem| && off + |src| > m0[k].size
      requires Settled(L, d0, m0)
      requires Writing(L, d0, m0, disk, mem, k, off, src, |src|, Blocks(Max(m0[k].size, off + |src|)))
      modifies this
      ensures Wrote(L, d0, m0, disk, mem, k, off, src) && logged == old(logged) + {IBlock(L, k)}
      ensures FreeCount(L, disk) == FreeCount(L, old(disk)) && Tracks(L, old(disk), old(logged), disk, logged)
    {
      hide Inv, Settled, SlotVal, Blocks, OthersAlike, Splice, Bytes, OthersKept, Shape, SlotsSame, FieldsKept, InodeOk;
      hide FreeCount, Tracks, UpdateDisk, InUse;
      WritingSize(L, d0, m0, disk, mem, k, off, src, |src|, Blocks(off + |src|));
      Resized(L, disk, mem, k, off + |src|);
      WriteEndsBeyond(L, d0, m0, disk, mem, k, off, src, Blocks(off + |src|), mem[k := mem[k].(size := off + |src|)]);
      mem := mem[k := mem[k].(size := off + |src|)];
      UpdateKeeps(L, disk, mem, k);
      CountSame(L, disk, UpdateDisk(L, disk, mem, k));
      Iupdate(k);
    }

    /** writei: src spliced into the file at off. Panics exactly when the blocks it needs are not there. */
    method Writei(k: nat, off: nat, src: seq<Byte>, devsw: set<nat>, driver: int) returns (r: Ret)
      requires Settled(L, disk, mem) && k < |mem| && off < U32 && |src| < U32
      modifies this
      ensures old(mem)[k].typ == T_DEV ==> unchanged(this)
      ensures old(mem)[k].typ == 3 ==>
        r == Returned(if mem[k].major < 10 && mem[k].major in devsw then driver else -1)
      ensures old(mem)[k].typ != T_DEV && WriteRefused(old(mem)[k], off, |src|) ==> unchanged(this) && r == Returned(-1)
      ensures old(mem)[k].typ != T_DEV ==>
        (WriteRefused(old(mem)[k], off, |src|) <==> off > old(mem)[k].size || off + |src| > 140 * 512)
      ensures r == Panicked <==>
        Writes(old(mem)[k], off, |src|) && FreeCount(L, old(disk)) < Needed(old(mem)[k].size, off + |src|)
      ensures r == Panicked ==> AllInUse(L, disk)
      ensures Writes(old(mem)[k], off, |src|) && r != Panicked ==>
        r == Returned(|src|) && Wrote(L, old(disk), old(mem), disk, mem, k, off, src) &&
        FreeCount(L, disk) == FreeCount(L, old(disk)) - Needed(old(mem)[k].size, off + |src|) &&
        |logged| <= |old(logged)| + Budget(old(mem)[k].size, off, |src|, MapSize(L)) &&
        Tracks(L, old(disk), old(logged), disk, logged)
    {
      hide Settled, AllInUse, Wrote, Budget, FreeCount, Tracks, Needed;
      if mem[k].typ == T_DEV {
        return Returned(if HasDriver(devsw, mem[k]) then driver else -1);
      }
      if BadRange(mem[k], off, |src|) { return Returned(-1); }
      BelowWrap(mem[k], off, |src|);
      if off + |src| > MAXFILE * BSIZE { return Returned(-1); }
      r := WriteBytes(k, off, src);
    }

    /** The write itself, once the range is known to be good. */
    method WriteBytes(k: nat, off: nat, src: seq<Byte>) returns (r: Ret)
      requires Settled(L, disk, mem) && k < |mem| && off <= mem[k].size && off + |src| <= MAXFILE * BSIZE
      modifies this
      ensures r == Panicked <==> FreeCount(L, old(disk)) < Needed(old(mem)[k].size, off + |src|)
      ensures r == Panicked ==> AllInUse(L, disk)
      ensures r != Panicked ==>
        r == Returned(|src|) && Wrote(L, old(disk), old(mem), disk, mem, k, off, src) &&
        FreeCount(L, disk) == FreeCount(L, old(disk)) - Needed(old(mem)[k].size, off + |src|) &&
        |logged| <= |old(logged)| + Budget(old(mem)[k].size, off, |src|, MapSize(L)) &&
        Tracks(L, old(disk), old(logged), disk, logged)
    {
      hide Inv, Settled, SlotVal, Writing, AllInUse, Blocks, Wrote, Budget, Touched, FreeCount, Tracks, Growth;
      hide Logs;
      ghost var disk0, mem0, logged0, nb := disk, mem, logged, Blocks(Max(mem[k].size, off + |src|));
      var ok, data, maps := WriteBlocks(k, off, src);
      if !ok { return Panicked; }
      ghost var disk1, logged1, ind := disk, logged, Indirect(disk, mem, k);
      WritingSize(L, disk0, mem0, disk, mem, k, off, src, |src|, nb);
      if |src| > 0 && off + |src| > mem[k].size {
        SetSize(k, off, src, disk0, mem0);
        TracksTrans(L, disk0, logged0, disk1, logged1, disk, logged);
      } else {
        WroteInside(L, disk0, mem0, disk, mem, k, off, src);
      }
      LogsSize(logged0, logged1, logged, data, maps, ind, IBlock(L, k), mem0[k].size, off, |src|, MapSize(L));
      return Returned(|src|);
    }

    /** filewrite on an inode: the write is split into operations, none of which logs more blocks than
        begin_op reserves for it. It succeeds exactly when the whole write fits in a file; otherwise
        the operations before the first one refused stay in effect. disks and mems are what the operations
        find and leave. */
    method Filewrite(k: nat, off: nat, src: seq<Byte>, devsw: set<nat>, driver: nat -> int)
      returns (r: Ret, off': nat, ghost ops: seq<set<nat>>, ghost disks: seq<Disk>, ghost mems: seq<Inodes>)
      requires Settled(L, disk, mem) && k < |mem| && off < U32 && |src| < 0x8000_0000
      modifies this
      ensures disks != [] && disks[0] == old(disk) && mems != [] && mems[0] == old(mem)
      ensures old(mem)[k].typ == T_DEV ==> disk == old(disk) && mem == old(mem) && ops == []
      ensures old(mem)[k].typ == T_DEV ==>
        r == DeviceRet(old(mem)[k].major < 10 && old(mem)[k].major in devsw, driver, |src|)
      ensures old(mem)[k].typ != T_DEV ==> Operations(L, k, off, src, disks, mems, ops)
      ensures old(mem)[k].typ != T_DEV && r != Panicked ==>
        disks[|ops|] == disk && mems[|ops|] == mem && off' - off == Done(src, |ops|) &&
        (off' == off + |src| <==> src == [] || (off <= old(mem)[k].size && off + |src| <= MAXFILE * BSIZE)) &&
        r == Returned(if off' == off + |src| then |src| else -1)
      ensures old(mem)[k].typ != T_DEV && r != Panicked && off <= old(mem)[k].size ==>
        FreeCount(L, disk) == FreeCount(L, old(disk)) - Needed(old(mem)[k].size, off')
      ensures old(mem)[k].typ != T_DEV && r == Panicked ==>
        off <= old(mem)[k].size && FreeCount(L, old(disk)) < Needed(old(mem)[k].size, Min(off + |src|, MAXFILE * BSIZE))
    {
      hide Settled, AllInUse, Wrote, Budget, FreeCount, Tracks, Operations, Needed, DeviceSoFar, DeviceRet, Chunks;
      ghost var open := HasDriver(devsw, mem[k]);
      DeviceStart(open, driver, |src|);
      var i := 0;
      off', ops, disks, mems := off, [], [disk], [mem];
      ChunksStart(L, k, off, src, disk, mem);
      while i < |src|
        invariant i <= |src| && off' < U32 && k < |mem| == |old(mem)| && mem[k].typ == old(mem)[k].typ
        invariant Settled(L, disk, mem)
        invariant |disks| == |mems| == |ops| + 1 && disks[0] == old(disk) && mems[0] == old(mem)
        invariant mem[k].typ == T_DEV ==> disk == old(disk) && mem == old(mem) && ops == []
        invariant mem[k].typ == T_DEV ==> DeviceSoFar(open, driver, |src|, i)
        invariant mem[k].typ != T_DEV ==> Chunks(L, k, off, src, disks, mems, ops, disk, mem, i) && off' == off + i
      {
        var n1 := if |src| - i > CHUNK then CHUNK else |src| - i;
        ghost var disk1, mem1 := disk, mem;
        logged := {};                  // begin_op
        r := Writei(k, off', src[i..i + n1], devsw, driver(n1));
        RefusedMeans(mem1[k], off', n1);
        if mem1[k].typ == T_DEV {
          DeviceTurn(open, driver, |src|, i, n1);
        } else {
          ChunksHave(L, k, off, src, disks, mems, ops, disk1, mem1, i, n1);
        }
        if r == Panicked { return; }
        if r.value < 0 { return Returned(-1), off', ops, disks, mems; }
        if r.value != n1 { return Panicked, off', ops, disks, mems; }    // "short filewrite", from a device only
        if mem1[k].typ != T_DEV {
          ChunksMore(L, k, off, src, disks, mems, ops, disk1, mem1, i, disk, mem, logged, n1);
          ops, disks, mems := ops + [logged], disks + [disk], mems + [mem];      // end_op
        }
        off' := (off' + n1) % U32;
        i := i + n1;
      }
      r := Returned(|src|);
      if mem[k].typ == T_DEV {
        DeviceEnds(open, driver, |src|);
      } else {
        ChunksHave(L, k, off, src, disks, mems, ops, disk, mem, i, 0);
      }
    }

    method TruncDirect(k: nat) returns (ok: bool)
      requires Inv(L, disk, mem) && k < |mem|
      modifies this
      ensures ok && Truncating(L, old(disk), old(mem), disk, mem, k, Interval(0, NDIRECT)) && |mem| == |old(mem)|
      ensures Tracks(L, old(disk), old(logged), disk, logged) && logged <= old(logged) + MapBlocks(L)
    {
      hide Inv, Truncating, SlotVal, InUse, Interval, Tracks, MapBlocks;
      ghost var disk0, mem0, logged0 := disk, mem, logged;
      TruncStarts(L, disk, mem, k);
      TracksNone(L, disk, logged);
      assert Interval(0, 0) == {};
      var i: nat := 0;
      while i < NDIRECT
        invariant i <= NDIRECT && |mem| == |mem0| && Truncating(L, disk0, mem0, disk, mem, k, Interval(0, i))
        invariant Tracks(L, disk0, logged0, disk, logged) && logged <= logged0 + MapBlocks(L)
      {
        ghost var disk1, logged1 := disk, logged;
        TruncFacts(L, disk0, mem0, disk, mem, k, Interval(0, i));
        SlotsThere(L, disk, mem, k);
        assert Interval(0, i + 1) == Interval(0, i) + {i};
        if mem[k].addrs[i] != 0 {
          TruncFrees(L, disk0, mem0, disk, mem, k, Interval(0, i), i);
          InMap(L, mem[k].addrs[i]);
          ok := Bfree(mem[k].addrs[i]);
          if !ok { return; }
          TracksTrans(L, disk0, logged0, disk1, logged1, disk, logged);
          mem := mem[k := mem[k].(addrs := mem[k].addrs[i := 0])];
        } else {
          TruncSkips(L, disk0, mem0, disk, mem, k, Interval(0, i), Interval(0, i + 1));
        }
        i := i + 1;
      }
      ok := true;
    }

    /** The blocks that the indirect block names are freed; the block itself is not changed. */
    method TruncEntries(k: nat, ghost d0: Disk, ghost m0: Inodes) returns (ok: bool, ghost vd: Disk)
      requires Truncating(L, d0, m0, disk, mem, k, Interval(0, NDIRECT)) && k < |mem|
      requires |mem[k].addrs| == NDIRECT + 1 && mem[k].addrs[NDIRECT] != 0
      modifies this
      ensures ok && mem == old(mem)
      ensures Truncating(L, d0, m0, vd, mem, k, Entries(NINDIRECT))
      ensures L.datastart <= mem[k].addrs[NDIRECT] < |disk| && BlockApart(disk, vd, mem[k].addrs[NDIRECT])
      ensures Tracks(L, old(disk), old(logged), disk, logged) && logged <= old(logged) + MapBlocks(L)
    {
      hide Inv, Truncating, SlotVal, InUse, Interval, MarkDisk, PutDisk, Get32, Entries, Tracks, MapBlocks;
      ghost var disk0, logged0 := disk, logged;
      TracksNone(L, disk, logged);
      var a := mem[k].addrs[NDIRECT];
      EntriesStart(L, d0, m0, disk, mem, k);
      var blk := disk[a];
      vd := disk;
      NoEntries();
      var j: nat := 0;
      while j < NINDIRECT
        invariant j <= NINDIRECT && mem == old(mem) && |disk| == L.size && disk[a] == blk && BlockApart(disk, vd, a)
        invariant Truncating(L, d0, m0, vd, mem, k, Entries(j))
        invariant Tracks(L, disk0, logged0, disk, logged) && logged <= logged0 + MapBlocks(L)
      {
        ghost var disk1, logged1 := disk, logged;
        ghost var gone, s := Entries(j), NDIRECT + 1 + j;
        NextEntry(j);
        TruncSize(L, d0, m0, vd, mem, k, gone, s);
        assert Get32(blk, s - NDIRECT - 1) == SlotVal(d0, m0, k, s);
        var e := Get32(disk[a], j);
        if e != 0 {
          TruncEntry(L, d0, m0, vd, mem, k, gone, disk, a, s);
          MarkSize(L, disk, e, a);
          InMap(L, e);
          ok := Bfree(e);
          if !ok { return; }
          TracksTrans(L, disk0, logged0, disk1, logged1, disk, logged);
          vd := PutDisk(MarkDisk(L, vd, e, false), mem, k, s, 0);
        } else {
          TruncSkips(L, d0, m0, vd, mem, k, gone, gone + {s});
        }
        j := j + 1;
      }
      ok := true;
    }

    method TruncIndirect(k: nat, ghost d0: Disk, ghost m0: Inodes) returns (ok: bool)
      requires Truncating(L, d0, m0, disk, mem, k, Interval(0, NDIRECT)) && k < |mem|
      requires |mem[k].addrs| == NDIRECT + 1 && mem[k].addrs[NDIRECT] != 0
      modifies this
      ensures ok && Truncating(L, d0, m0, disk, mem, k, AllSlots()) && |mem| == |old(mem)|
      ensures Tracks(L, old(disk), old(logged), disk, logged) && logged <= old(logged) + MapBlocks(L)
    {
      hide Inv, Truncating, SlotVal, InUse, Interval, MarkDisk, AllSlots, PutDisk, Tracks, MapBlocks;
      ghost var disk0, logged0 := disk, logged;
      ghost var gone := Entries(NINDIRECT);
      ghost var vd: Disk;
      ok, vd := TruncEntries(k, d0, m0);
      var a := mem[k].addrs[NDIRECT];
      LastFree(L, d0, m0, vd, disk, mem, k, gone, a);
      InMap(L, a);
      ghost var disk1, logged1 := disk, logged;
      ok := Bfree(a);
      if !ok { return; }
      TracksTrans(L, disk0, logged0, disk1, logged1, disk, logged);
      mem := mem[k := mem[k].(addrs := mem[k].addrs[NDIRECT := 0])];
      assert gone + {NDIRECT} == AllSlots();
    }

    /** itrunc: frees the blocks of the file and no others, and never meets a block that is free already. */
    method Itrunc(k: nat) returns (ok: bool)
      requires Settled(L, disk, mem) && k < |mem|
      modifies this
      ensures ok && Emptied(L, old(disk), old(mem), disk, mem, k)
      ensures Tracks(L, old(disk), old(logged), disk, logged)
      ensures logged <= old(logged) + MapBlocks(L) + {IBlock(L, k)} && IBlock(L, k) in logged
      ensures |logged| <= |old(logged)| + MapSize(L) + 1
    {
      hide Inv, Settled, Truncating, SlotVal, InUse, Interval, AllSlots, OthersAlike, Owns, Emptied, Tracks, MapBlocks;
      SettledInv(L, disk, mem);
      ghost var disk0, mem0, logged0 := disk, mem, logged;
      ok := TruncDirect(k);
      ghost var disk1, logged1 := disk, logged;
      TruncFacts(L, disk0, mem0, disk, mem, k, Interval(0, NDIRECT));
      SlotsThere(L, disk, mem, k);
      if mem[k].addrs[NDIRECT] != 0 {
        ok := TruncIndirect(k, disk0, mem0);
      } else {
        TruncSkips(L, disk0, mem0, disk, mem, k, Interval(0, NDIRECT), AllSlots());
        TracksNone(L, disk, logged);
      }
      TracksTrans(L, disk0, logged0, disk1, logged1, disk, logged);
      ghost var disk2, logged2 := disk, logged;
      TruncFinish(k, disk0, mem0);
      TracksTrans(L, disk0, logged0, disk2, logged2, disk, logged);
      TruncLogs(L, logged0, logged, IBlock(L, k));
    }

    method TruncFinish(k: nat, ghost d0: Disk, ghost m0: Inodes)
      requires Settled(L, d0, m0) && Truncating(L, d0, m0, disk, mem, k, AllSlots()) && k < |mem| == |m0|
      modifies this
      ensures Emptied(L, d0, m0, disk, mem, k)
      ensures Tracks(L, old(disk), old(logged), disk, logged) && logged == old(logged) + {IBlock(L, k)}
    {
      hide Inv, Settled, Truncating, SlotVal, InUse, AllSlots, OthersAlike, Owns, OthersKept, SlotsSame, InodeOk;
      hide UpdateDisk, Tracks;
      TruncKind(L, d0, m0, disk, mem, k, AllSlots());
      TruncUse(L, d0, m0, disk, mem, k, AllSlots());
      Resized(L, disk, mem, k, 0);
      TruncEnds(L, d0, m0, disk, mem, k, mem[k := mem[k].(size := 0)]);
      mem := mem[k := mem[k].(size := 0)];
      Iupdate(k);
    }
  }

  /** min(n - tot, BSIZE - off % BSIZE): what is left to move, or to the end of the block. */
  function Part(at: nat, end: nat): (m: nat)
    requires at < end
    ensures 0 < m <= end - at && at % BSIZE + m <= BSIZE
  {
    if end - at < BSIZE - at % BSIZE then end - at else BSIZE - at % BSIZE
  }

  lemma {:induction false} TruncLogs(L: Layout, before: set<nat>, logged: set<nat>, ib: nat)
    requires logged <= before + MapBlocks(L) + {ib}
    ensures |logged| <= |before| + MapSize(L) + 1
  {
    UnionSize(before, MapBlocks(L));
    UnionSize(before + MapBlocks(L), {ib});
    SubsetSize(logged, before + MapBlocks(L) + {ib});
  }

  /** File k emptied: exactly the blocks of its slots are free now, and every other file is as it was. */
  ghost predicate Emptied(L: Layout, disk: Disk, mem: Inodes, disk': Disk, mem': Inodes, k: nat)
  {
    k < |mem| == |mem'| && Settled(L, disk', mem') && OthersAlike(disk, mem, disk', mem', k) &&
    mem'[k].size == 0 && SameKind(mem[k], mem'[k]) &&
    forall b: nat :: b < L.size ==>
      (InUse(L, disk', b) <==> InUse(L, disk, b) && !Owns(disk, mem, k, AllSlots(), b))
  }

  predicate WriteRefused(ip: Inode, off: nat, n: nat) { BadRange(ip, off, n) || off + n > MAXFILE * BSIZE }

  predicate SameKind(ip: Inode, ip': Inode) { ip' == ip.(size := ip'.size, addrs := ip'.addrs) }

  /** A successful write: the file spliced, every other file alike, memory and disk agreeing. */
  ghost predicate Wrote(L: Layout, disk: Disk, mem: Inodes, disk': Disk, mem': Inodes, k: nat, off: nat, src: seq<Byte>)
  {
    k < |mem| == |mem'| && off <= mem[k].size <= MAXFILE * BSIZE && mem'[k].size <= MAXFILE * BSIZE &&
    Settled(L, disk', mem') && OthersAlike(disk, mem, disk', mem', k) && SameKind(mem[k], mem'[k]) &&
    Content(disk', mem', k) == Splice(Content(disk, mem, k), off, src)
  }

  ghost predicate Logs(before: set<nat>, logged: set<nat>, data: set<nat>, maps: set<nat>, ind: set<nat>)
  {
    logged <= before + data + maps + ind
  }

  lemma {:induction false} RefusedMeans(ip: Inode, off: nat, n: nat)
    requires off < U32 && n < U32
    ensures WriteRefused(ip, off, n) <==> off > ip.size || off + n > MAXFILE * BSIZE
  {
  }

  lemma {:induction false} WroteNone(L: Layout, disk: Disk, mem: Inodes, k: nat, off: nat)
    requires Settled(L, disk, mem) && k < |mem| && off <= mem[k].size
    ensures Wrote(L, disk, mem, disk, mem, k, off, []) && mem[k].size <= MAXFILE * BSIZE
  {
    SettledSize(L, disk, mem, k);
    assert Splice(Content(disk, mem, k), off, []) == Content(disk, mem, k);
  }

  lemma {:induction false} WroteSize(L: Layout, d0: Disk, m0: Inodes, disk: Disk, mem: Inodes, k: nat, off: nat,
                                     src: seq<Byte>)
    requires Wrote(L, d0, m0, disk, mem, k, off, src)
    ensures k < |mem| == |m0| && mem[k].size == Max(m0[k].size, off + |src|) && mem[k].typ == m0[k].typ
    ensures Settled(L, disk, mem)
  {
    hide Settled, OthersAlike, Content;
  }

  lemma {:induction false} WroteTwice(L: Layout, d0: Disk, m0: Inodes, d1: Disk, m1: Inodes, d2: Disk, m2: Inodes,
                                      k: nat, off: nat,
                                      s1: seq<Byte>, s2: seq<Byte>)
    requires Wrote(L, d0, m0, d1, m1, k, off, s1) && Wrote(L, d1, m1, d2, m2, k, off + |s1|, s2)
    ensures Wrote(L, d0, m0, d2, m2, k, off, s1 + s2)
  {
    hide Settled, Content, Splice;
    SpliceConcat(Content(d0, m0, k), off, s1, s2);
  }

  // ----- filewrite -----

  /** filewrite to a device: everything is written if the driver takes whole every chunk that there is; otherwise
      the first one that it does not take whole decides. */
  function DeviceRet(open: bool, driver: nat -> int, n: nat): Ret
  {
    var c := if n >= CHUNK && driver(CHUNK) != CHUNK then CHUNK else n % CHUNK;
    if n == 0 || (open && (c == 0 || driver(c) == c)) then Returned(n)
    else if !open || driver(c) < 0 then Returned(-1)
    else Panicked
  }

  /** Of n bytes the driver has taken i. */
  ghost predicate DeviceSoFar(open: bool, driver: nat -> int, n: nat, i: nat)
  {
    i <= n && (i < n ==> i % CHUNK == 0) && (i > 0 ==> open) && (i >= CHUNK ==> driver(CHUNK) == CHUNK) &&
    (i == n && n % CHUNK != 0 ==> driver(n % CHUNK) == n % CHUNK)
  }

  lemma {:induction false} DeviceStart(open: bool, driver: nat -> int, n: nat)
    ensures DeviceSoFar(open, driver, n, 0)
  {
  }

  lemma {:induction false} DeviceTurn(open: bool, driver: nat -> int, n: nat, i: nat, n1: nat)
    requires DeviceSoFar(open, driver, n, i) && i < n && n1 == Min(CHUNK, n - i)
    ensures !open || driver(n1) < 0 ==> DeviceRet(open, driver, n) == Returned(-1)
    ensures open && driver(n1) >= 0 && driver(n1) != n1 ==> DeviceRet(open, driver, n) == Panicked
    ensures open && driver(n1) == n1 ==> DeviceSoFar(open, driver, n, i + n1)
  {
    assert CHUNK == 1536;
    if n1 < CHUNK { assert n % CHUNK == n1; }
  }

  lemma {:induction false} DeviceEnds(open: bool, driver: nat -> int, n: nat)
    requires DeviceSoFar(open, driver, n, n)
    ensures DeviceRet(open, driver, n) == Returned(n)
  {
  }

  /** The bytes that n operations write. */
  function Done(src: seq<Byte>, n: nat): (done: nat) ensures done <= |src| { Min(n * CHUNK, |src|) }

  /** Operation i starts from disks[i], logs every block it changes, few enough, and leaves the file with i + 1
      chunks written. */
  ghost predicate OperationAt(L: Layout, k: nat, off: nat, src: seq<Byte>, disks: seq<Disk>, mems: seq<Inodes>,
                              ops: seq<set<nat>>, i: nat)
    requires i < |ops| && |disks| == |mems| == |ops| + 1
  {
    |ops[i]| <= OperationBudget(MapSize(L)) && Tracks(L, disks[i], {}, disks[i + 1], ops[i]) &&
    Wrote(L, disks[0], mems[0], disks[i + 1], mems[i + 1], k, off, src[..Done(src, i + 1)])
  }

  ghost predicate Operations(L: Layout, k: nat, off: nat, src: seq<Byte>, disks: seq<Disk>, mems: seq<Inodes>,
                             ops: seq<set<nat>>)
  {
    |disks| == |mems| == |ops| + 1 && k < |mems[0]| && Settled(L, disks[0], mems[0]) && (off > mems[0][k].size ==>
      ops == []) &&
    forall i: nat :: i < |ops| ==> OperationAt(L, k, off, src, disks, mems, ops, i)
  }

  lemma {:induction false} OperationsStart(L: Layout, k: nat, off: nat, src: seq<Byte>, disk: Disk, mem: Inodes)
    requires Settled(L, disk, mem) && k < |mem|
    ensures Operations(L, k, off, src, [disk], [mem], [])
  {
  }

  /** After any number of operations the file is the old one with the bytes of so many chunks written. */
  lemma {:induction false} WroteSoFar(L: Layout, k: nat, off: nat, src: seq<Byte>, disks: seq<Disk>, mems: seq<Inodes>,
                                      ops: seq<set<nat>>, i: nat)
    requires Operations(L, k, off, src, disks, mems, ops) && i <= |ops| && off <= mems[0][k].size
    ensures Wrote(L, disks[0], mems[0], disks[i], mems[i], k, off, src[..Done(src, i)])
  {
    if i == 0 {
      hide Settled;
      WroteNone(L, disks[0], mems[0], k, off);
      assert src[..0] == [];
    } else {
      assert OperationAt(L, k, off, src, disks, mems, ops, i - 1);
    }
  }

  /** The account of filewrite, i bytes in. */
  ghost predicate Chunks(L: Layout, k: nat, off: nat, src: seq<Byte>, disks: seq<Disk>, mems: seq<Inodes>,
                         ops: seq<set<nat>>, disk: Disk, mem: Inodes, i: nat)
  {
    |disks| == |mems| == |ops| + 1 && k < |mem| && k < |mems[0]| &&
    Operations(L, k, off, src, disks, mems, ops) && disks[|ops|] == disk && mems[|ops|] == mem &&
    i == Done(src, |ops|) && (i < |src| ==> i == |ops| * CHUNK) &&
    var size := mems[0][k].size;
    if off > size then i == 0 && mem == mems[0]
    else
      mem[k].size == Max(size, off + i) && off + i <= MAXFILE * BSIZE &&
      FreeCount(L, disk) + Needed(size, off + i) == FreeCount(L, disks[0])
  }

  lemma {:induction false} ChunksStart(L: Layout, k: nat, off: nat, src: seq<Byte>, disk: Disk, mem: Inodes)
    requires Settled(L, disk, mem) && k < |mem|
    ensures Chunks(L, k, off, src, [disk], [mem], [], disk, mem, 0)
  {
    hide Settled, FreeCount, Needed;
    OperationsStart(L, k, off, src, disk, mem);
    NeededNone(L, disk, mem, k, off);
  }

  /** What it says of the next n bytes: the whole write fits if they are the last that fit, and takes at least as
      many blocks as they do. */
  lemma {:induction false} ChunksHave(L: Layout, k: nat, off: nat, src: seq<Byte>, disks: seq<Disk>, mems: seq<Inodes>,
                                      ops: seq<set<nat>>, disk: Disk, mem: Inodes, i: nat, n: nat)
    requires Chunks(L, k, off, src, disks, mems, ops, disk, mem, i) && i + n <= |src|
    ensures |disks| == |mems| == |ops| + 1 && k < |mem| && k < |mems[0]| && i == Done(src, |ops|)
    ensures Operations(L, k, off, src, disks, mems, ops) && disks[|ops|] == disk && mems[|ops|] == mem
    ensures off > mems[0][k].size ==> i == 0 && mem == mems[0]
    ensures off <= mems[0][k].size ==> off + i <= mem[k].size && off + i <= MAXFILE * BSIZE
    ensures off <= mems[0][k].size ==> FreeCount(L, disk) == FreeCount(L, disks[0]) - Needed(mems[0][k].size, off + i)
    ensures off <= mems[0][k].size && off + i + n <= MAXFILE * BSIZE ==>
      FreeCount(L, disk) < Needed(mem[k].size, off + i + n) ==>
        FreeCount(L, disks[0]) < Needed(mems[0][k].size, Min(off + |src|, MAXFILE * BSIZE))
  {
    hide Operations, FreeCount, Needed;
    var size := mems[0][k].size;
    if off <= size && off + i + n <= MAXFILE * BSIZE {
      NeededSum(size, off + i, n, Min(off + |src|, MAXFILE * BSIZE));
    }
  }

  lemma {:induction false} ChunksMore(L: Layout, k: nat, off: nat, src: seq<Byte>, disks: seq<Disk>, mems: seq<Inodes>,
                                      ops: seq<set<nat>>, d1: Disk, m1: Inodes, i: nat, disk: Disk, mem: Inodes,
                                      logged: set<nat>, n: nat)
    requires Chunks(L, k, off, src, disks, mems, ops, d1, m1, i) && i < |src| && n == Min(CHUNK, |src| - i)
    requires k < |m1| && off + i <= m1[k].size && off + i + n <= MAXFILE * BSIZE
    requires |mems| == |ops| + 1 && k < |mems[0]| && off <= mems[0][k].size
    requires Wrote(L, d1, m1, disk, mem, k, off + i, src[i..i + n]) && Tracks(L, d1, {}, disk, logged)
    requires |logged| <= Budget(m1[k].size, off + i, n, MapSize(L))
    requires FreeCount(L, disk) == FreeCount(L, d1) - Needed(m1[k].size, off + i + n)
    ensures Chunks(L, k, off, src, disks + [disk], mems + [mem], ops + [logged], disk, mem, i + n)
    ensures Settled(L, disk, mem) && k < |mem| == |m1| && mem[k].typ == m1[k].typ
  {
    hide Wrote, Tracks, Settled, Operations, FreeCount, Needed, Budget;
    var size := mems[0][k].size;
    ChunkWithinBudget(m1[k].size, off + i, n, MapSize(L));
    OperationsMore(L, k, off, src, disks, mems, ops, disk, mem, logged, n);
    WroteSize(L, d1, m1, disk, mem, k, off + i, src[i..i + n]);
    NeededSum(size, off + i, n, off + i + n);
  }

  lemma {:induction false} OperationsMore(L: Layout, k: nat, off: nat, src: seq<Byte>, disks: seq<Disk>,
                                          mems: seq<Inodes>, ops: seq<set<nat>>,
                                          disk: Disk, mem: Inodes, logged: set<nat>, n: nat)
    requires Operations(L, k, off, src, disks, mems, ops) && off <= mems[0][k].size
    requires |logged| <= OperationBudget(MapSize(L))
    requires |ops| * CHUNK < |src| && n == Min(CHUNK, |src| - |ops| * CHUNK)
    requires Tracks(L, disks[|ops|], {}, disk, logged)
    requires var done := Done(src, |ops|);
             Wrote(L, disks[|ops|], mems[|ops|], disk, mem, k, off + done, src[done..done + n])
    ensures Operations(L, k, off, src, disks + [disk], mems + [mem], ops + [logged])
    ensures Done(src, |ops| + 1) == Done(src, |ops|) + n
  {
    hide Wrote, Tracks, Settled, Done, OperationAt;
    var j, done := |ops|, Done(src, |ops|);
    DoneNext(src, j, n);
    WroteSoFar(L, k, off, src, disks, mems, ops, j);
    assert src[..done] + src[done..done + n] == src[..Done(src, j + 1)];
    WroteTwice(L, disks[0], mems[0], disks[j], mems[j], disk, mem, k, off, src[..done], src[done..done + n]);
    OperationsAppend(L, k, off, src, disks, mems, ops, disk, mem, logged);
  }

  lemma {:induction false} OperationsAppend(L: Layout, k: nat, off: nat, src: seq<Byte>, disks: seq<Disk>,
                                            mems: seq<Inodes>, ops: seq<set<nat>>,
                                            disk: Disk, mem: Inodes, logged: set<nat>)
    requires Operations(L, k, off, src, disks, mems, ops) && off <= mems[0][k].size
    requires |logged| <= OperationBudget(MapSize(L))
    requires Tracks(L, disks[|ops|], {}, disk, logged)
    requires Wrote(L, disks[0], mems[0], disk, mem, k, off, src[..Done(src, |ops| + 1)])
    ensures Operations(L, k, off, src, disks + [disk], mems + [mem], ops + [logged])
  {
    hide Wrote, Tracks, Settled, Done, OperationAt;
    OperationLast(L, k, off, src, disks, mems, ops, disk, mem, logged);
    forall i: nat | i <= |ops|
      ensures OperationAt(L, k, off, src, disks + [disk], mems + [mem], ops + [logged], i)
    {
      if i < |ops| { OperationKept(L, k, off, src, disks, mems, ops, i, disk, mem, logged); }
    }
  }

  lemma {:induction false} OperationLast(L: Layout, k: nat, off: nat, src: seq<Byte>, disks: seq<Disk>,
                                         mems: seq<Inodes>, ops: seq<set<nat>>,
                                         disk: Disk, mem: Inodes, logged: set<nat>)
    requires |disks| == |mems| == |ops| + 1 && |logged| <= OperationBudget(MapSize(L))
    requires Tracks(L, disks[|ops|], {}, disk, logged)
    requires Wrote(L, disks[0], mems[0], disk, mem, k, off, src[..Done(src, |ops| + 1)])
    ensures OperationAt(L, k, off, src, disks + [disk], mems + [mem], ops + [logged], |ops|)
  {
    hide Wrote, Tracks, Done;
  }

  lemma {:induction false} DoneNext(src: seq<Byte>, j: nat, n: nat)
    requires j * CHUNK < |src| && n == Min(CHUNK, |src| - j * CHUNK)
    ensures Done(src, j) == j * CHUNK && Done(src, j + 1) == Done(src, j) + n <= |src|
  {
  }

  lemma {:induction false} OperationKept(L: Layout, k: nat, off: nat, src: seq<Byte>, disks: seq<Disk>,
                                         mems: seq<Inodes>, ops: seq<set<nat>>, i: nat,
                                         disk: Disk, mem: Inodes, logged: set<nat>)
    requires i < |ops| && |disks| == |mems| == |ops| + 1 && OperationAt(L, k, off, src, disks, mems, ops, i)
    ensures OperationAt(L, k, off, src, disks + [disk], mems + [mem], ops + [logged], i)
  {
    hide Wrote, Tracks, Done;
  }

  // ----- how much room a write takes -----

  ghost predicate Writes(ip: Inode, off: nat, n: nat) { ip.typ != T_DEV && !WriteRefused(ip, off, n) }

  /** The blocks that must be free for a file of the given size to reach up to end. */
  function Needed(size: nat, end: nat): (n: nat) { BlocksRise(size, end); Growth(Blocks(size), Blocks(Max(size, end))) }

  lemma {:induction false} NeededNone(L: Layout, disk: Disk, mem: Inodes, k: nat, off: nat)
    requires Settled(L, disk, mem) && k < |mem|
    ensures off <= mem[k].size ==> Needed(mem[k].size, off) == 0 && off <= MAXFILE * BSIZE
  {
    SettledSize(L, disk, mem, k);
  }

  lemma {:induction false} NeededSum(size: nat, at: nat, n: nat, end: nat)
    requires at + n <= end
    ensures Needed(size, at + n) == Needed(size, at) + Needed(Max(size, at), at + n)
    ensures Needed(size, at + n) <= Needed(size, end)
  {
    GrowthTo(size, at, at + n, end);
  }

  lemma {:induction false} IndirectSum(d0: Disk, m0: Inodes, d1: Disk, m1: Inodes, d2: Disk, m2: Inodes, k: nat)
    requires k < |m0| == |m1| == |m2| && Indirect(d0, m0, k) <= Indirect(d1, m1, k) <= Indirect(d2, m2, k)
    ensures NewIndirect(d0, m0, d2, m2, k) == NewIndirect(d0, m0, d1, m1, k) + NewIndirect(d1, m1, d2, m2, k)
    ensures NewIndirect(d0, m0, d0, m0, k) == 0
  {
    hide Indirect;
  }

  lemma {:induction false} LogsNone(before: set<nat>, ind: set<nat>, off: nat)
    ensures Logs(before, before, {}, {}, ind) && Touched(off, off) == 0
  {
  }

  lemma {:induction false} LogsSize(before: set<nat>, l1: set<nat>, logged: set<nat>, data: set<nat>, maps: set<nat>,
                                    ind: set<nat>, ib: nat,
                                    size: nat, off: nat, n: nat, mapSize: nat)
    requires Logs(before, l1, data, maps, ind) && logged <= l1 + {ib} && |ind| <= 1 && off <= size
    requires |data| <= Touched(off, off + n) && |maps| <= Blocks(Max(size, off + n)) - Blocks(size) + 1
    requires |maps| <= mapSize
    ensures |logged| <= |before| + Budget(size, off, n, mapSize)
  {
    var s1, s2, s3 := before + data, before + data + maps, before + data + maps + ind;
    UnionSize(before, data);
    UnionSize(s1, maps);
    UnionSize(s2, ind);
    UnionSize(s3, {ib});
    SubsetSize(logged, s3 + {ib});
  }

  /** The account of a write that has got tot bytes far: the blocks logged, those changed and those taken. */
  ghost predicate Progress(L: Layout, d0: Disk, m0: Inodes, l0: set<nat>, disk: Disk, mem: Inodes, logged: set<nat>,
                           k: nat, off: nat, tot: nat, data: set<nat>, maps: set<nat>)
    requires k < |m0| == |mem|
  {
    var nb0, nb := Blocks(m0[k].size), Blocks(Max(m0[k].size, off + tot));
    Logs(l0, logged, data, maps, Indirect(disk, mem, k)) && Indirect(d0, m0, k) <= Indirect(disk, mem, k) &&
    |data| <= Touched(off, off + tot) && |maps| <= nb - nb0 + NewIndirect(d0, m0, disk, mem, k) &&
    maps <= MapBlocks(L) &&
    Tracks(L, d0, l0, disk, logged) && nb0 <= nb && FreeCount(L, disk) + Growth(nb0, nb) == FreeCount(L, d0)
  }

  lemma {:induction false} ProgressStarts(L: Layout, disk: Disk, mem: Inodes, logged: set<nat>, k: nat, off: nat)
    requires k < |mem| && off <= mem[k].size
    ensures Progress(L, disk, mem, logged, disk, mem, logged, k, off, 0, {}, {})
  {
    LogsNone(logged, Indirect(disk, mem, k), off);
    IndirectSum(disk, mem, disk, mem, disk, mem, k);
    TracksNone(L, disk, logged);
    hide Logs, Indirect, NewIndirect, Tracks, FreeCount, Touched, Blocks;
  }

  lemma {:induction false} ProgressHas(L: Layout, d0: Disk, m0: Inodes, l0: set<nat>, disk: Disk, mem: Inodes,
                                       logged: set<nat>,
                                       k: nat, off: nat, tot: nat, data: set<nat>, maps: set<nat>)
    requires k < |m0| == |mem| && Progress(L, d0, m0, l0, disk, mem, logged, k, off, tot, data, maps)
    ensures var nb0, nb := Blocks(m0[k].size), Blocks(Max(m0[k].size, off + tot));
            Logs(l0, logged, data, maps, Indirect(disk, mem, k)) && |data| <= Touched(off, off + tot) &&
            |maps| <= nb - nb0 + 1 && |maps| <= MapSize(L) &&
            Tracks(L, d0, l0, disk, logged) && nb0 <= nb && FreeCount(L, disk) + Growth(nb0, nb) == FreeCount(L, d0)
  {
    hide Logs, Indirect, Tracks, FreeCount, Touched, Blocks, Growth;
    SubsetSize(maps, MapBlocks(L));
  }

  lemma {:induction false} ProgressNext(L: Layout, d0: Disk, m0: Inodes, l0: set<nat>, d1: Disk, m1: Inodes,
                                        l1: set<nat>,
                                        disk: Disk, mem: Inodes, logged: set<nat>, k: nat, off: nat, tot: nat, m: nat,
                                        data: set<nat>, maps: set<nat>, addr: nat, more: set<nat>)
    requires k < |m0| == |m1| == |mem| && Progress(L, d0, m0, l0, d1, m1, l1, k, off, tot, data, maps)
    requires 0 < m && (off + tot) % BSIZE + m <= BSIZE && (tot == 0 || (off + tot) % BSIZE == 0)
    requires logged <= l1 + more + {addr} + Indirect(disk, mem, k) && Indirect(d1, m1, k) <= Indirect(disk, mem, k)
    requires var b, c := Blocks(Max(m0[k].size, off + tot)), Blocks(Max(m0[k].size, off + tot + m));
             b <= c && |more| <= c - b + NewIndirect(d1, m1, disk, mem, k) &&
             FreeCount(L, disk) == FreeCount(L, d1) - Growth(b, c)
    requires Tracks(L, d1, l1, disk, logged) && more <= MapBlocks(L)
    ensures Progress(L, d0, m0, l0, disk, mem, logged, k, off, tot + m, data + {addr}, maps + more)
  {
    hide Logs, Indirect, NewIndirect, Tracks, FreeCount, Touched, Blocks, Growth;
    TouchOne(off, off + tot, m);
    LogsMore(l0, l1, logged, data, maps, Indirect(d1, m1, k), addr, more, Indirect(disk, mem, k));
    IndirectSum(d0, m0, d1, m1, disk, mem, k);
    TracksTrans(L, d0, l0, d1, l1, disk, logged);
    GrowthTo(m0[k].size, off + tot, off + tot + m, off + tot + m);
  }

  lemma {:induction false} BlocksRise(size: nat, end: nat)
    ensures Blocks(size) <= Blocks(Max(size, end))
  {
  }

  /** Growing step by step adds up, and takes no more than growing to the end. */
  lemma {:induction false} GrowthTo(size: nat, at: nat, next: nat, end: nat)
    requires at <= next <= end
    ensures var a, b, c, d := Blocks(size), Blocks(Max(size, at)), Blocks(Max(size, next)), Blocks(Max(size, end));
            a <= b <= c <= d && Growth(a, c) == Growth(a, b) + Growth(b, c) && Growth(a, c) <= Growth(a, d)
  {
  }

  lemma {:induction false} PartAligns(at: nat, end: nat)
    requires at < end
    ensures at + Part(at, end) == end || (at + Part(at, end)) % BSIZE == 0
  {
  }

  lemma {:induction false} WritingSize(L: Layout, d0: Disk, m0: Inodes, disk: Disk, mem: Inodes, k: nat, off: nat,
                                       src: seq<Byte>, tot: nat, nb: nat)
    requires Writing(L, d0, m0, disk, mem, k, off, src, tot, nb)
    ensures k < |m0| == |mem| && mem[k].size == m0[k].size && SameKind(m0[k], mem[k]) && Inv(L, disk, mem)
  {
    hide Inv, OthersKept, Shape, Bytes, Splice;
  }

  lemma {:induction false} WroteInside(L: Layout, d0: Disk, m0: Inodes, disk: Disk, mem: Inodes, k: nat, off: nat,
                                       src: seq<Byte>)
    requires k < |m0| && Settled(L, d0, m0)
    requires Writing(L, d0, m0, disk, mem, k, off, src, |src|, Blocks(Max(m0[k].size, off + |src|)))
    requires off + |src| <= m0[k].size
    ensures Wrote(L, d0, m0, disk, mem, k, off, src)
  {
    hide Inv, OthersKept, OthersAlike, Shape, Bytes, Splice, Settled, Blocks;
    WriteEndsInside(L, d0, m0, disk, mem, k, off, src, Blocks(m0[k].size));
    WritingSize(L, d0, m0, disk, mem, k, off, src, |src|, Blocks(m0[k].size));
  }

  lemma {:induction false} LogsMore(before: set<nat>, l1: set<nat>, l2: set<nat>, data: set<nat>, maps: set<nat>,
                                    ind1: set<nat>,
                                    addr: nat, more: set<nat>, ind2: set<nat>)
    requires Logs(before, l1, data, maps, ind1) && l2 <= l1 + more + {addr} + ind2 && ind1 <= ind2
    ensures Logs(before, l2, data + {addr}, maps + more, ind2)
    ensures |data + {addr}| <= |data| + 1 && |maps + more| <= |maps| + |more|
  {
    UnionSize(data, {addr});
    UnionSize(maps, more);
  }

  lemma {:induction false} MissingIsGrowth(L: Layout, d0: Disk, m0: Inodes, disk: Disk, mem: Inodes, k: nat, off: nat,
                                           src: seq<Byte>, tot: nat, nb: nat)
    requires Writing(L, d0, m0, disk, mem, k, off, src, tot, nb) && tot < |src|
    requires nb == Blocks(Max(m0[k].size, off + tot))
    ensures (off + tot) / BSIZE < MAXFILE
    ensures Missing(disk, mem, k, (off + tot) / BSIZE) == Growth(nb, Max(nb, (off + tot) / BSIZE + 1))
  {
    NextBlock(L, d0, m0, disk, mem, k, off, src, tot, nb);
    hide SlotVal, Inv, OthersKept, FieldsKept, Bytes, Splice, Blocks;
  }

  lemma {:induction false} BlocksAfter(size: nat, at: nat, m: nat)
    requires 0 < m && at % BSIZE + m <= BSIZE
    ensures Blocks(Max(size, at + m)) == Max(Blocks(Max(size, at)), at / BSIZE + 1)
  {
  }

  lemma {:induction false} MappedIndirect(L: Layout, disk: Disk, mem: Inodes, disk': Disk, mem': Inodes, k: nat,
                                          bn: nat)
    requires Mapped(L, disk, mem, disk', mem', k, bn)
    ensures |mem'| == |mem| && Indirect(disk, mem, k) <= Indirect(disk', mem', k)
  {
    hide SlotVal, OthersKept, DataBut;
  }

  lemma {:induction false} WrittenIndirect(L: Layout, disk: Disk, mem: Inodes, k: nat, bn: nat, blk: Block)
    requires Inv(L, disk, mem) && k < |mem| && bn < MAXFILE && Addr(disk, mem, k, bn) != 0
    ensures Addr(disk, mem, k, bn) < |disk|
    ensures Indirect(disk[Addr(disk, mem, k, bn) := blk], mem, k) == Indirect(disk, mem, k)
  {
    hide SlotVal, Inv;
    WriteKeeps(L, disk, mem, k, DataSlot(bn), blk);
  }

  lemma {:induction false} WrittenTracks(L: Layout, disk: Disk, mem: Inodes, k: nat, bn: nat, blk: Block, d0: Disk,
                                         l0: set<nat>, logged: set<nat>)
    requires Inv(L, disk, mem) && k < |mem| && bn < MAXFILE && Addr(disk, mem, k, bn) != 0
    requires Tracks(L, d0, l0, disk, logged)
    ensures var a := Addr(disk, mem, k, bn);
            a < |disk| && FreeCount(L, disk[a := blk]) == FreeCount(L, disk) &&
            Tracks(L, d0, l0, disk[a := blk], logged + {a})
  {
    var a := Addr(disk, mem, k, bn);
    WriteKeeps(L, disk, mem, k, DataSlot(bn), blk);
    CountSame(L, disk, disk[a := blk]);
    SizeFits(L, disk, mem);
    hide SlotVal, FreeCount, Own, InodeOk;
    assert L.inodestart <= L.datastart;
    TracksOne(L, disk, logged, a, blk);
    TracksTrans(L, d0, l0, disk, logged, disk[a := blk], logged + {a});
  }

  lemma {:induction false} Slices(s: seq<Byte>, a: nat, b: nat, c: nat)
    requires a <= b <= c <= |s|
    ensures s[a..b] + s[b..c] == s[a..c]
  {
  }

  lemma {:induction false} BelowWrap(ip: Inode, off: nat, n: nat)
    requires !BadRange(ip, off, n) && off < U32 && n < U32
    ensures off <= ip.size && off + n < U32
  {
  }

  predicate HasDriver(devsw: set<nat>, ip: Inode) { ip.major < NDEV && ip.major in devsw }

  /** readi and writei refuse these, with 32-bit arithmetic. */
  predicate BadRange(ip: Inode, off: nat, n: nat) { off > ip.size || (off + n) % U32 < off }

  /** What bmap has to allocate for block bn. */
  ghost function Missing(disk: Disk, mem: Inodes, k: nat, bn: nat): nat
    requires k < |mem| && bn < MAXFILE
  {
    if Addr(disk, mem, k, bn) != 0 then 0
    else 1 + if bn >= NDIRECT && SlotVal(disk, mem, k, NDIRECT) == 0 then 1 else 0
  }

  lemma {:induction false} TracksNone(L: Layout, disk: Disk, logged: set<nat>)
    ensures Tracks(L, disk, logged, disk, logged)
  {
  }

  /** At most one block for the data and one for the indirect block. */
  ghost function NewBlocks(disk: Disk, mem: Inodes, disk': Disk, mem': Inodes, k: nat, bn: nat): nat
    requires k < |mem| && k < |mem'| && bn < MAXFILE
  {
    (if Addr(disk, mem, k, bn) == 0 then 1 else 0) + NewIndirect(disk, mem, disk', mem', k)
  }

  ghost function NewIndirect(disk: Disk, mem: Inodes, disk': Disk, mem': Inodes, k: nat): (n: nat)
    requires k < |mem| && k < |mem'|
    ensures n <= 1
  {
    if Indirect(disk, mem, k) == {} && Indirect(disk', mem', k) != {} then 1 else 0
  }

  lemma {:induction false} SlotIndirect(disk: Disk, mem: Inodes, k: nat)
    requires k < |mem| && |mem[k].addrs| == NDIRECT + 1
    ensures SlotVal(disk, mem, k, NDIRECT) == mem[k].addrs[NDIRECT]
  {
  }

  lemma {:induction false} AllocTracks(L: Layout, disk: Disk, mem: Inodes, k: nat, s: nat, b: nat, logged: set<nat>)
    requires Inv(L, disk, mem) && HasSlot(disk, mem, k, s) && L.datastart <= b < L.size
    ensures BBlock(L, b) < |disk|
    ensures var ind := if s > NDIRECT then Indirect(disk, mem, k) else {};
            Tracks(L, disk, logged, PutDisk(AllocDisk(L, disk, b), mem, k, s, b), logged + {BBlock(L, b), b} + ind)
  {
    MapBlock(L, b);
    SlotIndirect(disk, mem, k);
    if s > NDIRECT { InRange(L, disk, mem, k, NDIRECT); }
    hide SlotVal, Own, SetBit, Set32, ZeroBlock;
    assert L.inodestart <= L.bmapstart;
  }

  lemma {:induction false} SizeFits(L: Layout, disk: Disk, mem: Inodes)
    requires Inv(L, disk, mem)
    ensures L.size < U32 && |disk| == L.size && L.datastart <= L.size
  {
  }

  lemma {:induction false} SlotsThere(L: Layout, disk: Disk, mem: Inodes, k: nat)
    requires Inv(L, disk, mem) && k < |mem|
    ensures |mem[k].addrs| == NDIRECT + 1
    ensures forall s: nat :: s <= NDIRECT ==> HasSlot(disk, mem, k, s) && SlotVal(disk, mem, k, s) == mem[k].addrs[s]
    ensures mem[k].addrs[NDIRECT] != 0 ==>
      mem[k].addrs[NDIRECT] < |disk| &&
      (forall s: nat :: NDIRECT < s < NSLOTS ==>
        HasSlot(disk, mem, k, s) && SlotVal(disk, mem, k, s) == Get32(disk[mem[k].addrs[NDIRECT]], s - NDIRECT - 1))
    ensures mem[k].addrs[NDIRECT] == 0 ==> forall s: nat :: NDIRECT < s < NSLOTS ==> SlotVal(disk, mem, k, s) == 0
  {
    hide InUse, Get32;
    assert InodeOk(mem[k]);
    assert SlotVal(disk, mem, k, NDIRECT) == mem[k].addrs[NDIRECT];
  }

  lemma {:induction false} FilledFacts(L: Layout, disk: Disk, mem: Inodes, disk': Disk, mem': Inodes, k: nat, s: nat,
                                       v: nat)
    requires Filled(L, disk, mem, disk', mem', k, s, v)
    ensures v != 0 && |mem'| == |mem| && k < |mem| && s < NSLOTS
    ensures forall t: nat :: t < NSLOTS ==> SlotVal(disk', mem', k, t) == if t == s then v else SlotVal(disk, mem, k, t)
  {
  }

  lemma {:induction false} SameBlock(L: Layout, c: nat, bi: nat)
    requires c % BPB == 0 && bi < BPB
    ensures BBlock(L, c + bi) == BBlock(L, c) && (c + bi) % BPB == bi
  {
  }

  /** The bit that balloc tests for block c + bi. */
  lemma {:induction false} BitTest(L: Layout, disk: Disk, mem: Inodes, c: nat, bi: nat)
    requires Inv(L, disk, mem) && c % BPB == 0 && bi < BPB && c + bi < L.size == |disk|
    ensures BBlock(L, c + bi) == BBlock(L, c) < L.datastart && BBlock(L, c) < |disk| && (c + bi) % BPB == bi
    ensures InUse(L, disk, c + bi) <==> Bit(disk[BBlock(L, c)], bi)
    ensures !InUse(L, disk, c + bi) ==> L.datastart <= c + bi
  {
    hide Own, Bit;
    MapBlock(L, c);
    SameBlock(L, c, bi);
    if !InUse(L, disk, c + bi) { AboveMeta(L, disk, mem, c + bi); }
  }

  lemma {:induction false} AboveMeta(L: Layout, disk: Disk, mem: Inodes, b: nat)
    requires Inv(L, disk, mem) && !InUse(L, disk, b)
    ensures L.datastart <= b
  {
  }

  lemma {:induction false} BlockThere(L: Layout, disk: Disk, mem: Inodes, k: nat, at: nat)
    requires Settled(L, disk, mem) && k < |mem| && at < mem[k].size
    ensures Inv(L, disk, mem) && mem[k].size <= MAXFILE * BSIZE && at / BSIZE < MAXFILE
    ensures 0 < Addr(disk, mem, k, at / BSIZE) < |disk|
  {
    SettledSize(L, disk, mem, k);
    assert Shape(disk, mem, k, Blocks(mem[k].size));
    assert Addr(disk, mem, k, at / BSIZE) != 0;
    hide SlotVal, Settled;
    InRange(L, disk, mem, k, DataSlot(at / BSIZE));
  }

  /** The direct slots and the first j entries of the indirect block. */
  ghost function Entries(j: nat): set<nat> { Interval(0, NDIRECT) + Interval(NDIRECT + 1, NDIRECT + 1 + j) }

  lemma {:induction false} NoEntries()
    ensures Entries(0) == Interval(0, NDIRECT)
  {
  }

  lemma {:induction false} NextEntry(j: nat)
    ensures Entries(j + 1) == Entries(j) + {NDIRECT + 1 + j} && NDIRECT + 1 + j !in Entries(j) && NDIRECT !in Entries(j)
  {
    hide Interval;
  }

  lemma {:induction false} SameBlockAt(at: nat, m: nat, i: nat)
    requires i < m && at % BSIZE + m <= BSIZE
    ensures (at + i) / BSIZE == at / BSIZE && (at + i) % BSIZE == at % BSIZE + i
  {
  }

  /** Within one block, the bytes of the file are the bytes of the block that bmap finds. */
  lemma {:induction false} ReadBlock(L: Layout, disk: Disk, mem: Inodes, k: nat, at: nat, m: nat)
    requires Settled(L, disk, mem) && k < |mem| && 0 < m && at + m <= mem[k].size && at % BSIZE + m <= BSIZE
    ensures Inv(L, disk, mem) && mem[k].size <= MAXFILE * BSIZE && at / BSIZE < MAXFILE
    ensures 0 < Addr(disk, mem, k, at / BSIZE) < |disk|
    ensures disk[Addr(disk, mem, k, at / BSIZE)][at % BSIZE..at % BSIZE + m] == Content(disk, mem, k)[at..at + m]
  {
    hide Addr, Inv, Settled;
    BlockThere(L, disk, mem, k, at);
    var bn, o := at / BSIZE, at % BSIZE;
    var a := Addr(disk, mem, k, bn);
    var piece, want := disk[a][o..o + m], Content(disk, mem, k)[at..at + m];
    forall i | 0 <= i < m ensures piece[i] == want[i] {
      assert want[i] == ByteAt(disk, mem, k, at + i);
      SameBlockAt(at, m, i);
    }
  }

  lemma {:induction false} TruncFacts(L: Layout, d0: Disk, m0: Inodes, disk: Disk, mem: Inodes, k: nat, gone: set<nat>)
    requires Truncating(L, d0, m0, disk, mem, k, gone)
    ensures Inv(L, disk, mem) && LayoutOk(L) && |disk| == L.size && k < |mem|
  {
    hide Own, OthersKept, FieldsKept, Owns, SlotVal;
  }

  lemma {:induction false} EntriesStart(L: Layout, d0: Disk, m0: Inodes, disk: Disk, mem: Inodes, k: nat)
    requires Truncating(L, d0, m0, disk, mem, k, Interval(0, NDIRECT))
    requires |mem[k].addrs| == NDIRECT + 1 && mem[k].addrs[NDIRECT] != 0
    ensures L.datastart <= mem[k].addrs[NDIRECT] < |disk| == L.size
    ensures forall s: nat :: NDIRECT < s < NSLOTS ==>
      Get32(disk[mem[k].addrs[NDIRECT]], s - NDIRECT - 1) == SlotVal(d0, m0, k, s)
  {
    TruncFacts(L, d0, m0, disk, mem, k, Interval(0, NDIRECT));
    SlotsThere(L, disk, mem, k);
    InRange(L, disk, mem, k, NDIRECT);
    hide Inv, SlotVal, Get32, InUse, Interval;
  }

  lemma {:induction false} MarkSize(L: Layout, disk: Disk, b: nat, a: nat)
    requires BBlock(L, b) < |disk|
    ensures |MarkDisk(L, disk, b, false)| == |disk|
    ensures (a < |disk| && a != BBlock(L, b) ==> MarkDisk(L, disk, b, false)[a] == disk[a])
  {
  }

  /** The indirect block itself is freed last, when nothing depends on what it holds. */
  lemma {:induction false} LastFree(L: Layout, d0: Disk, m0: Inodes, vd: Disk, disk: Disk, mem: Inodes, k: nat,
                                    gone: set<nat>, a: nat)
    requires Truncating(L, d0, m0, vd, mem, k, gone) && gone == Interval(0, NDIRECT) + Interval(NDIRECT + 1, NSLOTS)
    requires |mem[k].addrs| == NDIRECT + 1 && mem[k].addrs[NDIRECT] == a && L.datastart <= a < |disk|
    requires BlockApart(disk, vd, a)
    ensures LayoutOk(L) && |disk| == L.size && InUse(L, disk, a) && BBlock(L, a) < |disk|
    ensures Truncating(L, d0, m0, MarkDisk(L, disk, a, false), PutMem(mem, k, NDIRECT, 0), k, gone + {NDIRECT})
  {
    TruncFacts(L, d0, m0, vd, mem, k, gone);
    SlotIndirect(vd, mem, k);
    hide SlotVal, Inv, Truncating, InUse, Interval;
    TruncFrees(L, d0, m0, vd, mem, k, gone, NDIRECT);
    ApartUse(L, disk, vd, a, a);
    Marked(L, vd, a, false);
    ApartTruncating(L, d0, m0, MarkDisk(L, vd, a, false), MarkDisk(L, disk, a, false), PutMem(mem, k, NDIRECT, 0), k,
                    gone + {NDIRECT}, a);
  }

  lemma {:induction false} TruncKind(L: Layout, d0: Disk, m0: Inodes, disk: Disk, mem: Inodes, k: nat, gone: set<nat>)
    requires Truncating(L, d0, m0, disk, mem, k, gone)
    ensures k < |mem| == |m0| && SameKind(m0[k], mem[k]) && Inv(L, disk, mem)
  {
    hide Inv, OthersKept, SlotVal, Owns;
  }

  lemma {:induction false} TruncUse(L: Layout, d0: Disk, m0: Inodes, disk: Disk, mem: Inodes, k: nat, gone: set<nat>)
    requires Truncating(L, d0, m0, disk, mem, k, gone)
    ensures k < |m0|
    ensures forall b: nat :: b < L.size ==> (InUse(L, disk, b) <==> InUse(L, d0, b) && !Owns(d0, m0, k, gone, b))
  {
    hide Inv, OthersKept, SlotVal, Owns, FieldsKept;
  }

  lemma {:induction false} SettledInv(L: Layout, disk: Disk, mem: Inodes)
    requires Settled(L, disk, mem)
    ensures Inv(L, disk, mem)
  {
  }
}
