/** itrunc part of the way through. */
module FsTruncate {
  import opened SetSizes
  import opened DiskBlocks
  import opened FsState
  import opened FsSteps
  import opened FsContent
  import opened FsWriting

  /** One of the given slots of inode k refers to block b. */
  ghost predicate Owns(disk: Disk, mem: Inodes, k: nat, slots: set<nat>, b: nat)
    requires k < |mem|
  {
    b != 0 && exists s: nat :: s in slots && s < NSLOTS && SlotVal(disk, mem, k, s) == b
  }

  /** From (d0, m0), the slots in gone have been emptied and their blocks freed, and nothing else. */
  ghost predicate Truncating(L: Layout, d0: Disk, m0: Inodes, disk: Disk, mem: Inodes, k: nat, gone: set<nat>)
  {
    k < |m0| == |mem| && Inv(L, disk, mem) && OthersKept(d0, m0, disk, mem, k) && FieldsKept(L, d0, m0, disk, mem, k) &&
    (forall s: nat :: s < NSLOTS ==> SlotVal(disk, mem, k, s) == if s in gone then 0 else SlotVal(d0, m0, k, s)) &&
    (forall b: nat :: b < L.size ==> (InUse(L, disk, b) <==> InUse(L, d0, b) && !Owns(d0, m0, k, gone, b)))
  }

  lemma {:induction false} TruncStarts(L: Layout, disk: Disk, mem: Inodes, k: nat)
    requires Inv(L, disk, mem) && k < |mem|
    ensures Truncating(L, disk, mem, disk, mem, k, {})
  {
    hide SlotVal, InUse, Own, InodeOk;
  }

  /** Slots that were empty. */
  lemma {:induction false} TruncSkips(L: Layout, d0: Disk, m0: Inodes, disk: Disk, mem: Inodes, k: nat, gone: set<nat>,
                                      gone': set<nat>)
    requires Truncating(L, d0, m0, disk, mem, k, gone) && gone <= gone'
    requires forall s: nat :: s in gone' && s !in gone && s < NSLOTS ==> SlotVal(disk, mem, k, s) == 0
    ensures Truncating(L, d0, m0, disk, mem, k, gone')
  {
    hide SlotVal, InUse, Inv, OthersKept, FieldsKept;
    forall b: nat | b < L.size ensures Owns(d0, m0, k, gone', b) <==> Owns(d0, m0, k, gone, b) {
      if Owns(d0, m0, k, gone, b) {
        var t: nat :| t in gone && t < NSLOTS && SlotVal(d0, m0, k, t) == b;
        assert t in gone';
      }
    }
  }

  lemma {:induction false} OwnsOne(disk: Disk, mem: Inodes, k: nat, slots: set<nat>, s: nat, b: nat)
    requires k < |mem| && s < NSLOTS
    ensures Owns(disk, mem, k, slots + {s}, b) <==>
      Owns(disk, mem, k, slots, b) || (b != 0 && SlotVal(disk, mem, k, s) == b)
  {
    hide SlotVal;
    if b != 0 && SlotVal(disk, mem, k, s) == b { assert s in slots + {s}; }
    if Owns(disk, mem, k, slots, b) {
      var t: nat :| t in slots && t < NSLOTS && SlotVal(disk, mem, k, t) == b;
      assert t in slots + {s};
    }
  }

  /** A slot freed: its bit was set, so bfree does not panic. */
  lemma {:induction false} TruncFrees(L: Layout, d0: Disk, m0: Inodes, disk: Disk, mem: Inodes, k: nat, gone: set<nat>,
                                      s: nat)
    requires Truncating(L, d0, m0, disk, mem, k, gone) && s < NSLOTS && s !in gone && SlotVal(disk, mem, k, s) != 0
    requires HasSlot(disk, mem, k, s)
    requires s == NDIRECT ==> forall t: nat :: NDIRECT < t < NSLOTS ==> t in gone
    ensures var b, mem' := SlotVal(disk, mem, k, s), PutMem(mem, k, s, 0);
            b < L.size && InUse(L, disk, b) && BBlock(L, b) < |disk| &&
            Truncating(L, d0, m0, PutDisk(MarkDisk(L, disk, b, false), mem, k, s, 0), mem', k, gone + {s})
  {
    var b := SlotVal(disk, mem, k, s);
    FreeKeeps(L, disk, mem, k, s);
    FreeFields(L, disk, mem, k, s, b);
    var d, m := PutDisk(MarkDisk(L, disk, b, false), mem, k, s, 0), PutMem(mem, k, s, 0);
    assert forall i: nat :: i < |mem| && i != k ==> m[i] == mem[i];
    hide SlotVal, InUse, Inv, PutDisk, PutMem, MarkDisk;
    ButOthersKept(disk, mem, d, m, k, s, 0);
    OthersKeptTrans(d0, m0, disk, mem, d, m, k);
    hide OthersKept, DataBut;
    assert FieldsKept(L, d0, m0, d, m, k);
    hide FieldsKept;
    forall c: nat | c < L.size ensures InUse(L, d, c) <==> InUse(L, d0, c) && !Owns(d0, m0, k, gone + {s}, c) {
      OwnsOne(d0, m0, k, gone, s, c);
    }
  }

  lemma {:induction false} FreeFields(L: Layout, disk: Disk, mem: Inodes, k: nat, s: nat, b: nat)
    requires Inv(L, disk, mem) && HasSlot(disk, mem, k, s) && b < L.size
    ensures BBlock(L, b) < |disk|
    ensures FieldsKept(L, disk, mem, PutDisk(MarkDisk(L, disk, b, false), mem, k, s, 0), PutMem(mem, k, s, 0), k)
  {
    MapBlock(L, b);
    assert SlotVal(disk, mem, k, NDIRECT) == mem[k].addrs[NDIRECT];
    hide Own, SlotVal, InUse, InodeOk;
    if s > NDIRECT { OwnDistinct(L, disk, mem); }
  }

  ghost function AllSlots(): (r: set<nat>)
    ensures forall s: nat :: s in r <==> s < NSLOTS
  {
    Interval(0, NSLOTS)
  }

  /** Freeing the entries leaves the indirect block as it was: disk differs from the disk on which the
      entries have been emptied in that block only. */
  ghost predicate BlockApart(disk: Disk, vd: Disk, a: nat)
  {
    |disk| == |vd| && forall x: nat :: x < |disk| && x != a ==> disk[x] == vd[x]
  }

  lemma {:induction false} ApartUse(L: Layout, disk: Disk, vd: Disk, a: nat, b: nat)
    requires LayoutOk(L) && |disk| == L.size && BlockApart(disk, vd, a) && L.datastart <= a && b < L.size
    ensures BBlock(L, b) < L.datastart && InUse(L, disk, b) == InUse(L, vd, b)
    ensures BlockApart(MarkDisk(L, disk, b, false), MarkDisk(L, vd, b, false), a)
  {
    MapBlock(L, b);
  }

  /** With every slot emptied and the size zero, iupdate ends the truncation. */
  lemma {:induction false} TruncEnds(L: Layout, d0: Disk, m0: Inodes, disk: Disk, mem: Inodes, k: nat, m: Inodes)
    requires Settled(L, d0, m0) && Truncating(L, d0, m0, disk, mem, k, AllSlots()) && k < |m| && m[k].size == 0
    requires Inv(L, disk, m) && SlotsSame(disk, mem, disk, m) && OthersKept(disk, mem, disk, m, k)
    ensures InodeOk(m[k]) && IBlock(L, k) < |disk|
    ensures var d := UpdateDisk(L, disk, m, k);
            Settled(L, d, m) && OthersAlike(d0, m0, d, m, k) && UseSame(L, disk, d)
  {
    hide SlotVal, Inv, InodeOk, InUse, Settled, OthersKept, OthersAlike, UpdateDisk;
    OthersKeptTrans(d0, m0, disk, mem, disk, m, k);
    forall bn: nat | bn < MAXFILE ensures Addr(disk, m, k, bn) == 0 {
      assert DataSlot(bn) in AllSlots();
    }
    assert NDIRECT in AllSlots();
    assert Shape(disk, m, k, 0);
    UpdateSettles(L, d0, m0, disk, m, k);
    UpdateKeeps(L, disk, m, k);
  }

  /** The block that differs is not in use, so it does not matter. */
  lemma {:induction false} ApartTruncating(L: Layout, d0: Disk, m0: Inodes, vd: Disk, disk: Disk, mem: Inodes, k: nat,
                                           gone: set<nat>, a: nat)
    requires Truncating(L, d0, m0, vd, mem, k, gone) && BlockApart(disk, vd, a) && L.datastart <= a && !InUse(L, vd, a)
    ensures Truncating(L, d0, m0, disk, mem, k, gone)
  {
    hide SlotVal, InUse, Own, InodeOk;
    IdleKeeps(L, vd, mem, disk);
    UseFrame(L, vd, disk);
    OwnSame(L, vd, mem, disk, mem);
    assert OthersKept(vd, mem, disk, mem, k);
    OthersKeptTrans(d0, m0, vd, mem, disk, mem, k);
    hide OthersKept, Owns;
  }

  /** The entry read from the indirect block is the one to be freed. */
  lemma {:induction false} TruncEntry(L: Layout, d0: Disk, m0: Inodes, vd: Disk, mem: Inodes, k: nat, gone: set<nat>,
                                      disk: Disk, a: nat, s: nat)
    requires Truncating(L, d0, m0, vd, mem, k, gone) && BlockApart(disk, vd, a) && NDIRECT < s < NSLOTS && s !in gone
    requires NDIRECT !in gone
    requires |mem[k].addrs| == NDIRECT + 1 && mem[k].addrs[NDIRECT] == a && L.datastart <= a < |disk|
    requires Get32(disk[a], s - NDIRECT - 1) == SlotVal(d0, m0, k, s) != 0
    ensures var b := SlotVal(d0, m0, k, s);
            b < L.size && InUse(L, disk, b) && BBlock(L, b) < L.datastart && HasSlot(vd, mem, k, s) &&
            var vd' := PutDisk(MarkDisk(L, vd, b, false), mem, k, s, 0);
            Truncating(L, d0, m0, vd', mem, k, gone + {s}) && BlockApart(MarkDisk(L, disk, b, false), vd', a)
  {
    var b := SlotVal(d0, m0, k, s);
    TruncSize(L, d0, m0, vd, mem, k, gone, s);
    assert LayoutOk(L) && |disk| == L.size && 0 < a;
    hide SlotVal, InUse, Truncating;
    TruncFrees(L, d0, m0, vd, mem, k, gone, s);
    ApartUse(L, disk, vd, a, b);
  }

  lemma {:induction false} TruncSize(L: Layout, d0: Disk, m0: Inodes, disk: Disk, mem: Inodes, k: nat, gone: set<nat>,
                                     s: nat)
    requires Truncating(L, d0, m0, disk, mem, k, gone) && s < NSLOTS && s !in gone
    ensures k < |mem| == |m0| && LayoutOk(L) && |disk| == L.size && 0 < L.datastart
    ensures SlotVal(disk, mem, k, s) == SlotVal(d0, m0, k, s)
  {
    hide Own, SlotVal, OthersKept, FieldsKept, Owns;
  }
}
