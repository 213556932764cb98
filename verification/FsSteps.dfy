/** How the steps of fs.c change slots, bits and data. */
module FsSteps {
  import opened Params
  import opened DiskBlocks
  import opened FsBits
  import opened FsState

  // The bit of b set or cleared.
  function MarkDisk(L: Layout, disk: Disk, b: nat, v: bool): (disk': Disk)
    requires BBlock(L, b) < |disk|
    ensures |disk'| == |disk|
  {
    disk[BBlock(L, b) := SetBit(disk[BBlock(L, b)], b % BPB, v)]
  }

  // balloc: the bit of b set, and the block zeroed.
  function AllocDisk(L: Layout, disk: Disk, b: nat): (disk': Disk)
    requires BBlock(L, b) < |disk| && b < |disk|
    ensures |disk'| == |disk|
  {
    MarkDisk(L, disk, b, true)[b := ZeroBlock()]
  }

  ghost predicate HasSlot(disk: Disk, mem: Inodes, k: nat, s: nat)
  {
    k < |mem| && s < NSLOTS && |mem[k].addrs| == NDIRECT + 1 &&
    (s > NDIRECT ==> 0 < mem[k].addrs[NDIRECT] < |disk|)
  }

  // A slot of inode k overwritten, in its indirect block or in memory.
  function PutDisk(disk: Disk, mem: Inodes, k: nat, s: nat, v: nat): Disk
    requires HasSlot(disk, mem, k, s) && v < U32
  {
    if s <= NDIRECT then disk
    else var a := mem[k].addrs[NDIRECT]; disk[a := Set32(disk[a], s - NDIRECT - 1, v)]
  }

  function PutMem(mem: Inodes, k: nat, s: nat, v: nat): Inodes
    requires k < |mem| && |mem[k].addrs| == NDIRECT + 1
  {
    if s <= NDIRECT then mem[k := mem[k].(addrs := mem[k].addrs[s := v])] else mem
  }

  // ----- what a step leaves as it was -----

  ghost predicate SlotsBut(disk: Disk, mem: Inodes, disk': Disk, mem': Inodes, k0: nat, s0: nat, v: nat)
  {
    |mem'| == |mem| &&
    forall k: nat, s: nat :: k < |mem| && s < NSLOTS ==>
      SlotVal(disk', mem', k, s) == if k == k0 && s == s0 then v else SlotVal(disk, mem, k, s)
  }

  ghost predicate SlotsSame(disk: Disk, mem: Inodes, disk': Disk, mem': Inodes)
  {
    |mem'| == |mem| &&
    forall k: nat, s: nat :: k < |mem| && s < NSLOTS ==> SlotVal(disk', mem', k, s) == SlotVal(disk, mem, k, s)
  }

  ghost predicate UseBut(L: Layout, disk: Disk, disk': Disk, b0: nat, v: bool)
  {
    forall b: nat :: b < L.size ==> InUse(L, disk', b) == if b == b0 then v else InUse(L, disk, b)
  }

  ghost predicate UseSame(L: Layout, disk: Disk, disk': Disk)
  {
    forall b: nat :: b < L.size ==> InUse(L, disk', b) == InUse(L, disk, b)
  }

  /** Every file block except the one in slot s0 of inode k0 is where it was, with the bytes it had. */
  ghost predicate DataBut(disk: Disk, mem: Inodes, disk': Disk, mem': Inodes, k0: nat, s0: nat)
  {
    |mem'| == |mem| && |disk'| == |disk| &&
    forall k: nat, s: nat :: (k < |mem| && s < NSLOTS && s != NDIRECT && !(k == k0 && s == s0) &&
      SlotVal(disk, mem, k, s) != 0) ==> Kept(disk, mem, disk', mem', k, s)
  }

  ghost predicate Kept(disk: Disk, mem: Inodes, disk': Disk, mem': Inodes, k: nat, s: nat)
    requires k < |mem| && k < |mem'| && s < NSLOTS && |disk'| == |disk|
  {
    var a := SlotVal(disk, mem, k, s);
    SlotVal(disk', mem', k, s) == a && (a < |disk| ==> disk'[a] == disk[a])
  }

  /** No two slots name the same block, and none a metadata block. */
  ghost predicate SlotsDistinct(L: Layout, disk: Disk, mem: Inodes)
  {
    (forall k: nat, s: nat :: k < |mem| && s < NSLOTS && SlotVal(disk, mem, k, s) != 0 ==>
      L.datastart <= SlotVal(disk, mem, k, s) < L.size) &&
    (forall k: nat, s: nat, k': nat, s': nat ::
      (k < |mem| && s < NSLOTS && k' < |mem| && s' < NSLOTS && SlotVal(disk, mem, k, s) != 0 &&
      SlotVal(disk, mem, k, s) == SlotVal(disk, mem, k', s')) ==> k == k' && s == s')
  }

  // ----- ownership -----

  lemma {:induction false} OwnAdd(L: Layout, disk: Disk, mem: Inodes, disk': Disk, mem': Inodes, k: nat, s: nat, b: nat)
    requires Own(L, disk, mem) && k < |mem| && s < NSLOTS && SlotVal(disk, mem, k, s) == 0
    requires 0 < L.datastart <= b < L.size && !InUse(L, disk, b)
    requires SlotsBut(disk, mem, disk', mem', k, s, b) && UseBut(L, disk, disk', b, true)
    ensures Own(L, disk', mem')
  {
    hide InUse, SlotVal;
    forall c: nat | c < L.size && InUse(L, disk', c) ensures c < L.datastart || Refers(disk', mem', c) {
      if c == b {
        assert SlotVal(disk', mem', k, s) == b;
      } else if c >= L.datastart {
        assert Refers(disk, mem, c);
        var k1: nat, s1: nat :| k1 < |mem| && s1 < NSLOTS && SlotVal(disk, mem, k1, s1) == c;
        assert SlotVal(disk', mem', k1, s1) == c;
      }
    }
  }

  lemma {:induction false} OwnDrop(L: Layout, disk: Disk, mem: Inodes, disk': Disk, mem': Inodes, k: nat, s: nat)
    requires Own(L, disk, mem) && k < |mem| && s < NSLOTS && SlotVal(disk, mem, k, s) != 0 && L.datastart <= L.size
    requires SlotsBut(disk, mem, disk', mem', k, s, 0) && UseBut(L, disk, disk', SlotVal(disk, mem, k, s), false)
    ensures Own(L, disk', mem')
  {
    hide InUse, SlotVal;
    forall c: nat | c < L.size && InUse(L, disk', c) ensures c < L.datastart || Refers(disk', mem', c) {
      if c >= L.datastart {
        assert Refers(disk, mem, c);
        var k1: nat, s1: nat :| k1 < |mem| && s1 < NSLOTS && SlotVal(disk, mem, k1, s1) == c;
        assert SlotVal(disk', mem', k1, s1) == c;
      }
    }
  }

  lemma {:induction false} OwnSame(L: Layout, disk: Disk, mem: Inodes, disk': Disk, mem': Inodes)
    requires Own(L, disk, mem) && SlotsSame(disk, mem, disk', mem') && UseSame(L, disk, disk') && L.datastart <= L.size
    ensures Own(L, disk', mem')
  {
    hide InUse, SlotVal;
    forall c: nat | c < L.size && InUse(L, disk', c) ensures c < L.datastart || Refers(disk', mem', c) {
      if c >= L.datastart {
        assert Refers(disk, mem, c);
        var k1: nat, s1: nat :| k1 < |mem| && s1 < NSLOTS && SlotVal(disk, mem, k1, s1) == c;
        assert SlotVal(disk', mem', k1, s1) == c;
      }
    }
  }

  // ----- slots -----

  lemma {:induction false} OwnDistinct(L: Layout, disk: Disk, mem: Inodes)
    requires Own(L, disk, mem)
    ensures SlotsDistinct(L, disk, mem)
  {
    hide InUse, SlotVal, Refers;
  }

  lemma {:induction false} SameDistinct(L: Layout, disk: Disk, mem: Inodes, disk': Disk, mem': Inodes)
    requires SlotsDistinct(L, disk, mem) && SlotsSame(disk, mem, disk', mem')
    ensures SlotsDistinct(L, disk', mem')
  {
    hide SlotVal;
  }

  /** Slots depend on memory and the indirect blocks only. */
  lemma {:induction false} SlotsFrame(disk: Disk, mem: Inodes, disk': Disk)
    requires |disk'| == |disk|
    requires forall k: nat :: k < |mem| && 0 < SlotVal(disk, mem, k, NDIRECT) < |disk| ==>
      disk'[SlotVal(disk, mem, k, NDIRECT)] == disk[SlotVal(disk, mem, k, NDIRECT)]
    ensures SlotsSame(disk, mem, disk', mem)
  {
    hide Get32;
    forall k: nat, s: nat | k < |mem| && s < NSLOTS ensures SlotVal(disk', mem, k, s) == SlotVal(disk, mem, k, s) {
      assert |mem[k].addrs| == NDIRECT + 1 ==> SlotVal(disk, mem, k, NDIRECT) == mem[k].addrs[NDIRECT];
    }
  }

  /** Bits depend on the bitmap blocks only. */
  lemma {:induction false} UseFrame(L: Layout, disk: Disk, disk': Disk)
    requires LayoutOk(L) && |disk'| == |disk| == L.size
    requires forall x: nat :: L.bmapstart <= x < L.datastart ==> disk'[x] == disk[x]
    ensures UseSame(L, disk, disk')
  {
    forall b: nat | b < L.size ensures InUse(L, disk', b) == InUse(L, disk, b) {
      assert L.bmapstart <= BBlock(L, b) < L.datastart;
    }
  }

  lemma {:induction false} Marked(L: Layout, disk: Disk, b: nat, v: bool)
    requires LayoutOk(L) && |disk| == L.size && b < L.size
    ensures L.bmapstart <= BBlock(L, b) < L.datastart && UseBut(L, disk, MarkDisk(L, disk, b, v), b, v)
  {
    var disk' := MarkDisk(L, disk, b, v);
    forall c: nat | c < L.size ensures InUse(L, disk', c) == if c == b then v else InUse(L, disk, c) {
      if BBlock(L, c) == BBlock(L, b) { BitSetBit(disk[BBlock(L, b)], b % BPB, v, c % BPB); }
    }
  }

  lemma {:induction false} PutSlots(L: Layout, disk: Disk, mem: Inodes, k: nat, s: nat, v: nat)
    requires SlotsDistinct(L, disk, mem) && HasSlot(disk, mem, k, s) && v < U32 && s != NDIRECT
    ensures SlotsBut(disk, mem, PutDisk(disk, mem, k, s, v), PutMem(mem, k, s, v), k, s, v)
  {
    var disk', mem' := PutDisk(disk, mem, k, s, v), PutMem(mem, k, s, v);
    hide Get32, Set32;
    if s > NDIRECT {
      var a := mem[k].addrs[NDIRECT];
      assert a == SlotVal(disk, mem, k, NDIRECT);
      forall k1: nat, s1: nat | k1 < |mem| && s1 < NSLOTS
        ensures SlotVal(disk', mem', k1, s1) == if k1 == k && s1 == s then v else SlotVal(disk, mem, k1, s1)
      {
        if k1 != k { assert SlotVal(disk, mem, k1, NDIRECT) != a; }
        if s1 > NDIRECT { Get32Set32(disk[a], s - NDIRECT - 1, v, s1 - NDIRECT - 1); }
      }
    }
  }

  /** The slot of an indirect block may be filled or emptied while the block holds no entries. */
  lemma {:induction false} PutIndirect(disk: Disk, mem: Inodes, k: nat, v: nat)
    requires HasSlot(disk, mem, k, NDIRECT) && v < |disk| && v < U32
    requires forall s: nat :: NDIRECT < s < NSLOTS ==> SlotVal(disk, mem, k, s) == 0
    requires v != 0 ==> disk[v] == ZeroBlock()
    ensures SlotsBut(disk, mem, disk, PutMem(mem, k, NDIRECT, v), k, NDIRECT, v)
  {
    var mem' := PutMem(mem, k, NDIRECT, v);
    hide Get32, ZeroBlock;
    forall k1: nat, s1: nat | k1 < |mem| && s1 < NSLOTS
      ensures SlotVal(disk, mem', k1, s1) == if k1 == k && s1 == NDIRECT then v else SlotVal(disk, mem, k1, s1)
    {
      if k1 == k && s1 > NDIRECT { Get32Zero(s1 - NDIRECT - 1); }
    }
  }

  /** Writing blocks that hold no slots and no file data, such as the free map, an unused block, or an
      inode block. */
  ghost predicate OnlyIdle(L: Layout, disk: Disk, mem: Inodes, disk': Disk)
  {
    |disk'| == |disk| &&
    forall x: nat :: x < |disk| && L.datastart <= x && InUse(L, disk, x) ==> disk'[x] == disk[x]
  }

  lemma {:induction false} IdleKeeps(L: Layout, disk: Disk, mem: Inodes, disk': Disk)
    requires Inv(L, disk, mem) && OnlyIdle(L, disk, mem, disk')
    ensures SlotsSame(disk, mem, disk', mem)
    ensures forall k: nat, s: nat :: k < |mem| && s < NSLOTS && SlotVal(disk, mem, k, s) != 0 ==>
      Kept(disk, mem, disk', mem, k, s)
  {
    hide InUse, SlotVal, Refers;
    forall k: nat | k < |mem| && 0 < SlotVal(disk, mem, k, NDIRECT) < |disk|
      ensures disk'[SlotVal(disk, mem, k, NDIRECT)] == disk[SlotVal(disk, mem, k, NDIRECT)]
    {
      assert InUse(L, disk, SlotVal(disk, mem, k, NDIRECT));
    }
    SlotsFrame(disk, mem, disk');
    forall k: nat, s: nat | k < |mem| && s < NSLOTS && SlotVal(disk, mem, k, s) != 0
      ensures Kept(disk, mem, disk', mem, k, s)
    {
      assert InUse(L, disk, SlotVal(disk, mem, k, s));
    }
  }

  lemma {:induction false} InodesOk(mem: Inodes, k: nat, s: nat, v: nat)
    requires (forall i :: 0 <= i < |mem| ==> InodeOk(mem[i])) && k < |mem| && v < U32 && |mem[k].addrs| == NDIRECT + 1
    ensures forall i :: 0 <= i < |mem| ==> InodeOk(PutMem(mem, k, s, v)[i])
  {
    var mem' := PutMem(mem, k, s, v);
    assert InodeOk(mem[k]);
    forall i | 0 <= i < |mem| ensures InodeOk(mem'[i]) {
      assert InodeOk(mem[i]);
    }
  }

  /** Storing into a slot moves no other data: the indirect block is not a data block. */
  lemma {:induction false} PutData(L: Layout, disk: Disk, mem: Inodes, k: nat, s: nat, v: nat)
    requires SlotsDistinct(L, disk, mem) && HasSlot(disk, mem, k, s) && v < U32
    requires SlotsBut(disk, mem, PutDisk(disk, mem, k, s, v), PutMem(mem, k, s, v), k, s, v)
    ensures DataBut(disk, mem, PutDisk(disk, mem, k, s, v), PutMem(mem, k, s, v), k, s)
  {
    var disk', mem' := PutDisk(disk, mem, k, s, v), PutMem(mem, k, s, v);
    assert mem[k].addrs[NDIRECT] == SlotVal(disk, mem, k, NDIRECT);
    hide SlotVal, Set32;
    forall k1: nat, s1: nat | k1 < |mem| && s1 < NSLOTS && s1 != NDIRECT && !(k1 == k && s1 == s) &&
        SlotVal(disk, mem, k1, s1) != 0
      ensures Kept(disk, mem, disk', mem', k1, s1)
    {
      assert SlotVal(disk, mem, k1, s1) != SlotVal(disk, mem, k, NDIRECT);
    }
  }

  lemma {:induction false} AllocSlots(L: Layout, disk: Disk, mem: Inodes, k: nat, s: nat, b: nat)
    requires Inv(L, disk, mem) && HasSlot(disk, mem, k, s) && SlotVal(disk, mem, k, s) == 0
    requires L.datastart <= b < L.size && !InUse(L, disk, b)
    ensures BBlock(L, b) < |disk|
    ensures var d := AllocDisk(L, disk, b);
            SlotsSame(disk, mem, d, mem) && SlotsBut(d, mem, PutDisk(d, mem, k, s, b), PutMem(mem, k, s, b), k, s, b) &&
            DataBut(d, mem, PutDisk(d, mem, k, s, b), PutMem(mem, k, s, b), k, s)
    ensures forall k: nat, s: nat :: k < |mem| && s < NSLOTS && SlotVal(disk, mem, k, s) != 0 ==>
              Kept(disk, mem, AllocDisk(L, disk, b), mem, k, s)
  {
    MapBlock(L, b);
    var d := AllocDisk(L, disk, b);
    IdleKeeps(L, disk, mem, d);
    OwnDistinct(L, disk, mem);
    SameDistinct(L, disk, mem, d, mem);
    assert HasSlot(d, mem, k, s);
    assert d[b] == ZeroBlock();
    if s == NDIRECT { assert mem[k].addrs[NDIRECT] == 0; PutIndirect(d, mem, k, b); }
    else { PutSlots(L, d, mem, k, s, b); }
    PutData(L, d, mem, k, s, b);
  }

  lemma {:induction false} MapBlock(L: Layout, b: nat)
    requires LayoutOk(L) && b < L.size
    ensures 0 < L.bmapstart <= BBlock(L, b) < L.datastart
  {
  }

  lemma {:induction false} AllocUse(L: Layout, disk: Disk, mem: Inodes, k: nat, s: nat, b: nat)
    requires Inv(L, disk, mem) && HasSlot(disk, mem, k, s) && L.datastart <= b < L.size
    ensures BBlock(L, b) < |disk| && UseBut(L, disk, PutDisk(AllocDisk(L, disk, b), mem, k, s, b), b, true)
  {
    Marked(L, disk, b, true);
    var d1 := MarkDisk(L, disk, b, true);
    var d3 := PutDisk(AllocDisk(L, disk, b), mem, k, s, b);
    if s > NDIRECT {
      assert SlotVal(disk, mem, k, NDIRECT) == mem[k].addrs[NDIRECT];
      OwnDistinct(L, disk, mem);
    }
    hide InUse, SlotVal;
    UseFrame(L, d1, d3);
  }

  /** A block that balloc returned, stored in an empty slot. */
  lemma {:induction false} AllocKeeps(L: Layout, disk: Disk, mem: Inodes, k: nat, s: nat, b: nat)
    requires Inv(L, disk, mem) && HasSlot(disk, mem, k, s) && SlotVal(disk, mem, k, s) == 0
    requires L.datastart <= b < L.size && !InUse(L, disk, b)
    ensures BBlock(L, b) < |disk|
    ensures var d, m := PutDisk(AllocDisk(L, disk, b), mem, k, s, b), PutMem(mem, k, s, b);
            Inv(L, d, m) && SlotsBut(disk, mem, d, m, k, s, b) && DataBut(disk, mem, d, m, k, s) &&
            UseBut(L, disk, d, b, true)
  {
    AllocSlots(L, disk, mem, k, s, b);
    AllocUse(L, disk, mem, k, s, b);
    InodesOk(mem, k, s, b);
    var d := AllocDisk(L, disk, b);
    var d3, m3 := PutDisk(d, mem, k, s, b), PutMem(mem, k, s, b);
    hide InUse, SlotVal, Own, AllocDisk, PutDisk, PutMem, InodeOk;
    assert SlotsBut(disk, mem, d3, m3, k, s, b);
    OwnAdd(L, disk, mem, d3, m3, k, s, b);
  }

  lemma {:induction false} FreeSlots(L: Layout, disk: Disk, mem: Inodes, k: nat, s: nat)
    requires Inv(L, disk, mem) && HasSlot(disk, mem, k, s) && 0 < SlotVal(disk, mem, k, s) < L.size
    requires s == NDIRECT ==> forall t: nat :: NDIRECT < t < NSLOTS ==> SlotVal(disk, mem, k, t) == 0
    ensures BBlock(L, SlotVal(disk, mem, k, s)) < |disk|
    ensures var d := MarkDisk(L, disk, SlotVal(disk, mem, k, s), false);
            SlotsSame(disk, mem, d, mem) && SlotsBut(d, mem, PutDisk(d, mem, k, s, 0), PutMem(mem, k, s, 0), k, s, 0) &&
            DataBut(d, mem, PutDisk(d, mem, k, s, 0), PutMem(mem, k, s, 0), k, s)
    ensures forall k1: nat, s1: nat :: k1 < |mem| && s1 < NSLOTS && SlotVal(disk, mem, k1, s1) != 0 ==>
              Kept(disk, mem, MarkDisk(L, disk, SlotVal(disk, mem, k, s), false), mem, k1, s1)
  {
    var b := SlotVal(disk, mem, k, s);
    MapBlock(L, b);
    var d := MarkDisk(L, disk, b, false);
    IdleKeeps(L, disk, mem, d);
    OwnDistinct(L, disk, mem);
    SameDistinct(L, disk, mem, d, mem);
    assert HasSlot(d, mem, k, s);
    if s == NDIRECT { PutIndirect(d, mem, k, 0); } else { PutSlots(L, d, mem, k, s, 0); }
    PutData(L, d, mem, k, s, 0);
  }

  lemma {:induction false} FreeUse(L: Layout, disk: Disk, mem: Inodes, k: nat, s: nat, b: nat)
    requires Inv(L, disk, mem) && HasSlot(disk, mem, k, s) && b < L.size
    ensures BBlock(L, b) < |disk| && UseBut(L, disk, PutDisk(MarkDisk(L, disk, b, false), mem, k, s, 0), b, false)
  {
    Marked(L, disk, b, false);
    var d1 := MarkDisk(L, disk, b, false);
    if s > NDIRECT {
      assert SlotVal(disk, mem, k, NDIRECT) == mem[k].addrs[NDIRECT];
      OwnDistinct(L, disk, mem);
    }
    hide InUse, SlotVal;
    UseFrame(L, d1, PutDisk(d1, mem, k, s, 0));
  }

  /** A block given to bfree, and its slot emptied. */
  lemma {:induction false} FreeKeeps(L: Layout, disk: Disk, mem: Inodes, k: nat, s: nat)
    requires Inv(L, disk, mem) && HasSlot(disk, mem, k, s) && SlotVal(disk, mem, k, s) != 0
    requires s == NDIRECT ==> forall t: nat :: NDIRECT < t < NSLOTS ==> SlotVal(disk, mem, k, t) == 0
    ensures L.datastart <= SlotVal(disk, mem, k, s) < L.size && InUse(L, disk, SlotVal(disk, mem, k, s))
    ensures BBlock(L, SlotVal(disk, mem, k, s)) < |disk|
    ensures var b := SlotVal(disk, mem, k, s); var d, m := PutDisk(MarkDisk(L, disk, b, false), mem, k, s, 0),
      PutMem(mem, k, s, 0);
            Inv(L, d, m) && SlotsBut(disk, mem, d, m, k, s, 0) && DataBut(disk, mem, d, m, k, s) &&
            UseBut(L, disk, d, b, false)
  {
    var b := SlotVal(disk, mem, k, s);
    FreeSlots(L, disk, mem, k, s);
    FreeUse(L, disk, mem, k, s, b);
    InodesOk(mem, k, s, 0);
    var d := MarkDisk(L, disk, b, false);
    var d3, m3 := PutDisk(d, mem, k, s, 0), PutMem(mem, k, s, 0);
    hide InUse, SlotVal, Own, MarkDisk, PutDisk, PutMem, InodeOk;
    assert SlotsBut(disk, mem, d3, m3, k, s, 0);
    OwnDrop(L, disk, mem, d3, m3, k, s);
  }

  /** A file block overwritten. */
  lemma {:induction false} WriteKeeps(L: Layout, disk: Disk, mem: Inodes, k: nat, s: nat, blk: Block)
    requires Inv(L, disk, mem) && k < |mem| && s < NSLOTS && s != NDIRECT && SlotVal(disk, mem, k, s) != 0
    ensures L.datastart <= SlotVal(disk, mem, k, s) < |disk|
    ensures var d := disk[SlotVal(disk, mem, k, s) := blk];
            Inv(L, d, mem) && SlotsSame(disk, mem, d, mem) && DataBut(disk, mem, d, mem, k, s) && UseSame(L, disk, d)
  {
    OwnDistinct(L, disk, mem);
    var a := SlotVal(disk, mem, k, s);
    var d := disk[a := blk];
    hide InUse, SlotVal, Own, InodeOk;
    forall k1: nat | k1 < |mem| && 0 < SlotVal(disk, mem, k1, NDIRECT) < |disk|
      ensures d[SlotVal(disk, mem, k1, NDIRECT)] == disk[SlotVal(disk, mem, k1, NDIRECT)]
    {
      assert SlotVal(disk, mem, k1, NDIRECT) != a;
    }
    SlotsFrame(disk, mem, d);
    UseFrame(L, disk, d);
    OwnSame(L, disk, mem, d, mem);
    forall k1: nat, s1: nat | k1 < |mem| && s1 < NSLOTS && s1 != NDIRECT && !(k1 == k && s1 == s) &&
        SlotVal(disk, mem, k1, s1) != 0
      ensures Kept(disk, mem, d, mem, k1, s1)
    {
      assert SlotVal(disk, mem, k1, s1) != a;
    }
  }

  function UpdateDisk(L: Layout, disk: Disk, mem: Inodes, k: nat): Disk
    requires k < |mem| && InodeOk(mem[k]) && IBlock(L, k) < |disk|
  {
    disk[IBlock(L, k) := WriteInode(disk[IBlock(L, k)], k % IPB, mem[k])]
  }

  /** iupdate: only the inode itself changes on disk. */
  lemma {:induction false} UpdateKeeps(L: Layout, disk: Disk, mem: Inodes, k: nat)
    requires Inv(L, disk, mem) && k < |mem|
    ensures InodeOk(mem[k]) && 0 < IBlock(L, k) < L.bmapstart < |disk|
    ensures var d := UpdateDisk(L, disk, mem, k);
            Inv(L, d, mem) && SlotsSame(disk, mem, d, mem) && DataBut(disk, mem, d, mem, k, NDIRECT) &&
            UseSame(L, disk, d)
    ensures forall k1: nat :: k1 < |mem| && IBlock(L, k1) < |disk| ==>
              DiskInode(L, UpdateDisk(L, disk, mem, k), k1) == if k1 == k then mem[k] else DiskInode(L, disk, k1)
  {
    assert InodeOk(mem[k]);
    assert LayoutOk(L);
    var d := UpdateDisk(L, disk, mem, k);
    hide InUse, SlotVal, WriteInode, ReadInode, InodeOk;
    IdleKeeps(L, disk, mem, d);
    UseFrame(L, disk, d);
    OwnSame(L, disk, mem, d, mem);
    forall k1: nat | k1 < |mem| && IBlock(L, k1) < |disk|
      ensures DiskInode(L, d, k1) == if k1 == k then mem[k] else DiskInode(L, disk, k1)
    {
      if IBlock(L, k1) == IBlock(L, k) { InodeRoundTrip(disk[IBlock(L, k)], k % IPB, mem[k], k1 % IPB); }
    }
  }

  // ----- free blocks -----

  ghost function FreeBlocks(L: Layout, disk: Disk): set<nat> { set b: nat | b < L.size && !InUse(L, disk, b) }

  ghost function FreeCount(L: Layout, disk: Disk): nat { |FreeBlocks(L, disk)| }

  lemma {:induction false} CountAfterAlloc(L: Layout, disk: Disk, disk': Disk, b: nat)
    requires b < L.size && !InUse(L, disk, b) && UseBut(L, disk, disk', b, true)
    ensures FreeCount(L, disk) == FreeCount(L, disk') + 1
  {
    hide InUse;
    assert FreeBlocks(L, disk) == FreeBlocks(L, disk') + {b};
    assert b !in FreeBlocks(L, disk');
  }

  lemma {:induction false} CountSame(L: Layout, disk: Disk, disk': Disk)
    requires UseSame(L, disk, disk')
    ensures FreeCount(L, disk') == FreeCount(L, disk)
  {
    hide InUse;
    assert FreeBlocks(L, disk) == FreeBlocks(L, disk');
  }

  lemma {:induction false} CountZero(L: Layout, disk: Disk)
    ensures FreeCount(L, disk) == 0 <==> forall b: nat :: b < L.size ==> InUse(L, disk, b)
  {
    hide InUse;
    if b: nat :| b < L.size && !InUse(L, disk, b) { assert b in FreeBlocks(L, disk); }
    if FreeBlocks(L, disk) != {} {
      var b :| b in FreeBlocks(L, disk);
      assert b < L.size && !InUse(L, disk, b);
    }
  }

  // ----- the log -----

  /** Every block changed has been passed to log_write, and only blocks after the log have. */
  ghost predicate Tracks(L: Layout, disk: Disk, logged: set<nat>, disk': Disk, logged': set<nat>)
  {
    |disk'| == |disk| && logged <= logged' &&
    (forall x: nat :: x < |disk| && disk'[x] != disk[x] ==> x in logged') &&
    (forall x :: x in logged' ==> x in logged || L.inodestart <= x < L.size)
  }

  lemma {:induction false} TracksTrans(L: Layout, d0: Disk, l0: set<nat>, d1: Disk, l1: set<nat>, d2: Disk,
                                       l2: set<nat>)
    requires Tracks(L, d0, l0, d1, l1) && Tracks(L, d1, l1, d2, l2)
    ensures Tracks(L, d0, l0, d2, l2)
  {
  }

  lemma {:induction false} TracksOne(L: Layout, disk: Disk, logged: set<nat>, x: nat, blk: Block)
    requires L.inodestart <= x < L.size == |disk|
    ensures Tracks(L, disk, logged, disk[x := blk], logged + {x})
  {
  }
}
