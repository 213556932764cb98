/** Several processes inside fs.c at once: blocks that balloc has marked and that no slot names yet.

  The bit of a block is tested and set with the block of the free map locked; zeroing the block, and the store
  of its number in a slot, come later. Other processes may allocate, store, write and free in between. */
module FsFlight {
  import opened Params
  import opened DiskBlocks
  import opened FsBits
  import opened FsState
  import opened FsSteps

  /** held: marked and not yet stored; clean: of those, zeroed. */
  datatype State = State(disk: Disk, mem: Inodes, held: set<nat>, clean: set<nat>)

  datatype Event =
    | Mark(b: nat)
    | Zero(b: nat)
    | Store(k: nat, s: nat, b: nat)
    | Write(k: nat, s: nat, block: Block)  // the data block in slot s of inode k
    | Drop(k: nat, s: nat)             // bfree, and the slot cleared

  ghost predicate Enabled(L: Layout, z: State, e: Event)
  {
    match e
    case Mark(b) => b < L.size && !InUse(L, z.disk, b)
    case Zero(b) => b in z.held
    case Store(k, s, b) => b in z.clean && HasSlot(z.disk, z.mem, k, s) && SlotVal(z.disk, z.mem, k, s) == 0
    case Write(k, s, _) => HasSlot(z.disk, z.mem, k, s) && s != NDIRECT && SlotVal(z.disk, z.mem, k, s) != 0
    case Drop(k, s) => HasSlot(z.disk, z.mem, k, s) && s != NDIRECT && SlotVal(z.disk, z.mem, k, s) != 0
  }

  /** Every block past the metadata that is in use is named by one slot or held by one process, never both. */
  ghost predicate OwnBut(L: Layout, disk: Disk, mem: Inodes, held: set<nat>)
  {
    SlotsDistinct(L, disk, mem) &&
    (forall k: nat, s: nat :: k < |mem| && s < NSLOTS && SlotVal(disk, mem, k, s) != 0 ==>
      InUse(L, disk, SlotVal(disk, mem, k, s)) && SlotVal(disk, mem, k, s) !in held) &&
    (forall b :: b in held ==> L.datastart <= b < L.size && InUse(L, disk, b)) &&
    (forall b: nat :: b < L.size && InUse(L, disk, b) ==> b < L.datastart || b in held || Refers(disk, mem, b)) &&
    (forall b: nat :: b < L.datastart ==> InUse(L, disk, b))
  }

  ghost predicate Good(L: Layout, z: State)
  {
    LayoutOk(L) && |z.disk| == L.size < U32 && |z.mem| == L.ninodes &&
    (forall k :: 0 <= k < |z.mem| ==> InodeOk(z.mem[k])) && OwnBut(L, z.disk, z.mem, z.held) &&
    z.clean <= z.held && forall b :: b in z.clean ==> z.disk[b] == ZeroBlock()
  }

  ghost function Next(L: Layout, z: State, e: Event): State
    requires Good(L, z) && Enabled(L, z, e)
  {
    match e
    case Mark(b) => MapBlock(L, b); State(MarkDisk(L, z.disk, b, true), z.mem, z.held + {b}, z.clean)
    case Zero(b) => State(z.disk[b := ZeroBlock()], z.mem, z.held, z.clean + {b})
    case Store(k, s, b) =>
      State(PutDisk(z.disk, z.mem, k, s, b), PutMem(z.mem, k, s, b), z.held - {b}, z.clean - {b})
    case Write(k, s, block) => State(z.disk[SlotVal(z.disk, z.mem, k, s) := block], z.mem, z.held, z.clean)
    case Drop(k, s) =>
      var b := SlotVal(z.disk, z.mem, k, s);
      MapBlock(L, b);
      State(PutDisk(MarkDisk(L, z.disk, b, false), z.mem, k, s, 0), PutMem(z.mem, k, s, 0), z.held, z.clean)
  }

  /** With nothing held this is the invariant of one process at a time. */
  lemma {:induction false} NothingHeld(L: Layout, z: State)
    requires LayoutOk(L) && |z.disk| == L.size < U32 && |z.mem| == L.ninodes && z.held == z.clean == {}
    ensures Good(L, z) <==> Inv(L, z.disk, z.mem)
  {
    hide InUse, SlotVal, Refers, InodeOk;
  }

  /** What keeps ownership: slots the same and a few bits changed, or one slot changed. */
  lemma {:induction false} OwnMarked(L: Layout, disk: Disk, mem: Inodes, held: set<nat>, disk': Disk, b: nat)
    requires OwnBut(L, disk, mem, held) && b < L.size && !InUse(L, disk, b)
    requires SlotsSame(disk, mem, disk', mem) && UseBut(L, disk, disk', b, true)
    ensures OwnBut(L, disk', mem, held + {b}) && b !in held && b >= L.datastart
  {
    hide InUse, SlotVal;
    forall c: nat | c < L.size && InUse(L, disk', c) && c != b && c !in held && c >= L.datastart
      ensures Refers(disk', mem, c)
    {
      RefersOn(disk, mem, disk', mem, c);
    }
  }

  lemma {:induction false} RefersOn(disk: Disk, mem: Inodes, disk': Disk, mem': Inodes, c: nat)
    requires Refers(disk, mem, c) && |mem'| == |mem|
    requires forall k: nat, s: nat :: k < |mem| && s < NSLOTS && SlotVal(disk, mem, k, s) == c ==>
      SlotVal(disk', mem', k, s) == c
    ensures Refers(disk', mem', c)
  {
    hide SlotVal;
    var k: nat, s: nat :| k < |mem| && s < NSLOTS && SlotVal(disk, mem, k, s) == c;
    assert SlotVal(disk', mem', k, s) == c;
  }

  lemma {:induction false} OwnUnmoved(L: Layout, disk: Disk, mem: Inodes, held: set<nat>, disk': Disk)
    requires OwnBut(L, disk, mem, held) && SlotsSame(disk, mem, disk', mem) && UseSame(L, disk, disk')
    requires L.datastart <= L.size
    ensures OwnBut(L, disk', mem, held)
  {
    hide InUse, SlotVal;
    forall c: nat | c < L.size && InUse(L, disk', c) && c !in held && c >= L.datastart ensures Refers(disk', mem, c) {
      RefersOn(disk, mem, disk', mem, c);
    }
  }

  lemma {:induction false} OwnStored(L: Layout, disk: Disk, mem: Inodes, held: set<nat>, disk': Disk, mem': Inodes,
                                     k: nat, s: nat, b: nat)
    requires OwnBut(L, disk, mem, held) && b in held && k < |mem| && s < NSLOTS && SlotVal(disk, mem, k, s) == 0
    requires SlotsBut(disk, mem, disk', mem', k, s, b) && UseSame(L, disk, disk') && 0 < L.datastart <= L.size
    ensures OwnBut(L, disk', mem', held - {b})
  {
    hide InUse, SlotVal;
    forall c: nat | c < L.size && InUse(L, disk', c) && c !in held - {b} && c >= L.datastart
      ensures Refers(disk', mem', c)
    {
      if c == b {
        assert SlotVal(disk', mem', k, s) == b;
      } else {
        RefersOn(disk, mem, disk', mem', c);
      }
    }
  }

  lemma {:induction false} OwnDropped(L: Layout, disk: Disk, mem: Inodes, held: set<nat>, disk': Disk, mem': Inodes,
                                      k: nat, s: nat)
    requires OwnBut(L, disk, mem, held) && k < |mem| && s < NSLOTS && SlotVal(disk, mem, k, s) != 0
    requires SlotsBut(disk, mem, disk', mem', k, s, 0) && UseBut(L, disk, disk', SlotVal(disk, mem, k, s), false)
    requires L.datastart <= L.size
    ensures OwnBut(L, disk', mem', held)
  {
    hide InUse, SlotVal;
    forall c: nat | c < L.size && InUse(L, disk', c) && c !in held && c >= L.datastart
      ensures Refers(disk', mem', c)
    {
      RefersOn(disk, mem, disk', mem', c);
    }
  }

  /** A block that no slot names as an indirect block may change without moving a slot. */
  lemma {:induction false} SlotsStay(L: Layout, disk: Disk, mem: Inodes, x: nat, block: Block)
    requires SlotsDistinct(L, disk, mem) && x < |disk|
    requires forall k: nat :: k < |mem| ==> SlotVal(disk, mem, k, NDIRECT) != x || x == 0
    ensures SlotsSame(disk, mem, disk[x := block], mem)
  {
    hide SlotVal;
    SlotsFrame(disk, mem, disk[x := block]);
  }

  lemma {:induction false} MarkGood(L: Layout, z: State, b: nat)
    requires Good(L, z) && Enabled(L, z, Mark(b))
    ensures Good(L, Next(L, z, Mark(b))) && SlotsSame(z.disk, z.mem, Next(L, z, Mark(b)).disk, z.mem)
  {
    MapBlock(L, b);
    Marked(L, z.disk, b, true);
    var x := BBlock(L, b);
    hide InUse, SlotVal, Refers, InodeOk, SetBit, ZeroBlock, BBlock;
    SlotsStay(L, z.disk, z.mem, x, SetBit(z.disk[x], b % BPB, true));
    OwnMarked(L, z.disk, z.mem, z.held, MarkDisk(L, z.disk, b, true), b);
  }

  lemma {:induction false} ZeroGood(L: Layout, z: State, b: nat)
    requires Good(L, z) && Enabled(L, z, Zero(b))
    ensures Good(L, Next(L, z, Zero(b))) && SlotsSame(z.disk, z.mem, Next(L, z, Zero(b)).disk, z.mem)
  {
    hide InUse, SlotVal, Refers, InodeOk, ZeroBlock;
    SlotsStay(L, z.disk, z.mem, b, ZeroBlock());
    UseFrame(L, z.disk, z.disk[b := ZeroBlock()]);
    OwnUnmoved(L, z.disk, z.mem, z.held, z.disk[b := ZeroBlock()]);
  }

  lemma {:induction false} WriteGood(L: Layout, z: State, k: nat, s: nat, block: Block)
    requires Good(L, z) && Enabled(L, z, Write(k, s, block))
    ensures var z' := Next(L, z, Write(k, s, block)); Good(L, z') && SlotsSame(z.disk, z.mem, z'.disk, z.mem)
  {
    hide InUse, SlotVal, Refers, InodeOk, ZeroBlock;
    var b := SlotVal(z.disk, z.mem, k, s);
    SlotsStay(L, z.disk, z.mem, b, block);
    UseFrame(L, z.disk, z.disk[b := block]);
    OwnUnmoved(L, z.disk, z.mem, z.held, z.disk[b := block]);
  }

  lemma {:induction false} StoreGood(L: Layout, z: State, k: nat, s: nat, b: nat)
    requires Good(L, z) && Enabled(L, z, Store(k, s, b))
    ensures var z' := Next(L, z, Store(k, s, b)); Good(L, z') && SlotsBut(z.disk, z.mem, z'.disk, z'.mem, k, s, b)
    ensures UseSame(L, z.disk, Next(L, z, Store(k, s, b)).disk)
  {
    var d', m' := PutDisk(z.disk, z.mem, k, s, b), PutMem(z.mem, k, s, b);
    IndirectAt(z.disk, z.mem, k, s);
    if s == NDIRECT { PutIndirect(z.disk, z.mem, k, b); } else { PutSlots(L, z.disk, z.mem, k, s, b); }
    InodesOk(z.mem, k, s, b);
    hide InUse, SlotVal, Refers, InodeOk, ZeroBlock, Set32;
    UseFrame(L, z.disk, d');
    OwnStored(L, z.disk, z.mem, z.held, d', m', k, s, b);
  }

  lemma {:induction false} IndirectAt(disk: Disk, mem: Inodes, k: nat, s: nat)
    requires HasSlot(disk, mem, k, s)
    ensures SlotVal(disk, mem, k, NDIRECT) == mem[k].addrs[NDIRECT]
    ensures SlotVal(disk, mem, k, NDIRECT) == 0 ==>
      forall t: nat :: NDIRECT < t < NSLOTS ==> SlotVal(disk, mem, k, t) == 0
  {
  }

  /** The bit first, and then the slot. */
  lemma {:induction false} DropMoves(L: Layout, z: State, k: nat, s: nat)
    requires Good(L, z) && Enabled(L, z, Drop(k, s))
    ensures var b, z' := SlotVal(z.disk, z.mem, k, s), Next(L, z, Drop(k, s));
            L.datastart <= b < L.size && SlotsBut(z.disk, z.mem, z'.disk, z'.mem, k, s, 0) &&
            UseBut(L, z.disk, z'.disk, b, false)
  {
    hide InUse, SlotVal, Refers, InodeOk, ZeroBlock, Set32, SetBit, BBlock;
    var b := SlotVal(z.disk, z.mem, k, s);
    MapBlock(L, b);
    Marked(L, z.disk, b, false);
    IndirectAt(z.disk, z.mem, k, s);
    var x := BBlock(L, b);
    var d1 := MarkDisk(L, z.disk, b, false);
    SlotsStay(L, z.disk, z.mem, x, SetBit(z.disk[x], b % BPB, false));
    SameDistinct(L, z.disk, z.mem, d1, z.mem);
    PutSlots(L, d1, z.mem, k, s, 0);
    UseFrame(L, d1, PutDisk(d1, z.mem, k, s, 0));
  }

  lemma {:induction false} DropGood(L: Layout, z: State, k: nat, s: nat)
    requires Good(L, z) && Enabled(L, z, Drop(k, s))
    ensures var z' := Next(L, z, Drop(k, s)); Good(L, z') && SlotsBut(z.disk, z.mem, z'.disk, z'.mem, k, s, 0)
  {
    hide InUse, SlotVal, Refers, InodeOk, ZeroBlock, Set32, SetBit;
    var z' := Next(L, z, Drop(k, s));
    DropMoves(L, z, k, s);
    InodesOk(z.mem, k, s, 0);
    IndirectAt(z.disk, z.mem, k, s);
    OwnDropped(L, z.disk, z.mem, z.held, z'.disk, z'.mem, k, s);
  }

  /** What each step does: a bit set, a block zeroed, a slot filled, a block written, or a bit and its slot cleared. */
  ghost predicate Effect(L: Layout, z: State, e: Event, z': State)
    requires |z.mem| == |z'.mem| && |z.disk| == |z'.disk|
  {
    match e
    case Mark(b) =>
      UseBut(L, z.disk, z'.disk, b, true) && z'.held == z.held + {b} && z'.clean == z.clean && z'.mem == z.mem
    case Zero(b) =>
      z'.held == z.held && z'.clean == z.clean + {b} && z'.mem == z.mem && b < |z.disk| &&
      forall i :: 0 <= i < BSIZE ==> z'.disk[b][i] == 0
    case Store(k, s, b) =>
      SlotsBut(z.disk, z.mem, z'.disk, z'.mem, k, s, b) && UseSame(L, z.disk, z'.disk) &&
      z'.held == z.held - {b} && z'.clean == z.clean - {b}
    case Write(k, s, block) =>
      k < |z.mem| && s < NSLOTS && z'.mem == z.mem && z'.held == z.held && z'.clean == z.clean &&
      var b := SlotVal(z.disk, z.mem, k, s); b < |z.disk| && z'.disk[b] == block
    case Drop(k, s) =>
      k < |z.mem| && s < NSLOTS && SlotsBut(z.disk, z.mem, z'.disk, z'.mem, k, s, 0) &&
      UseBut(L, z.disk, z'.disk, SlotVal(z.disk, z.mem, k, s), false) && z'.held == z.held && z'.clean == z.clean
  }

  /** Every step of every process keeps ownership; and balloc hands no block out that another process holds. */
  lemma {:induction false} StepKeeps(L: Layout, z: State, e: Event)
    requires Good(L, z) && Enabled(L, z, e)
    ensures Good(L, Next(L, z, e))
    ensures e.Mark? ==> e.b !in z.held && !Refers(z.disk, z.mem, e.b)
    ensures Effect(L, z, e, Next(L, z, e))
  {
    match e
    case Mark(b) =>
      MapBlock(L, b);
      Marked(L, z.disk, b, true);
      MarkGood(L, z, b);
    case Zero(b) => ZeroGood(L, z, b);
    case Store(k, s, b) => StoreGood(L, z, k, s, b);
    case Write(k, s, block) => WriteGood(L, z, k, s, block);
    case Drop(k, s) =>
      DropMoves(L, z, k, s);
      DropGood(L, z, k, s);
  }

  /** The step is about this slot. */
  predicate About(e: Event, k: nat, s: nat) { (e.Store? || e.Write? || e.Drop?) && e.k == k && e.s == s }

  /** And it moves or changes no data block but the one it is about. */
  lemma {:induction false} StepLeavesData(L: Layout, z: State, e: Event, k: nat, s: nat)
    requires Good(L, z) && Enabled(L, z, e) && k < |z.mem| && s < NSLOTS && s != NDIRECT
    requires SlotVal(z.disk, z.mem, k, s) != 0 && !About(e, k, s)
    ensures Kept(z.disk, z.mem, Next(L, z, e).disk, Next(L, z, e).mem, k, s)
  {
    match e
    case Mark(b) => MapBlock(L, b); MarkGood(L, z, b);
    case Zero(b) => ZeroGood(L, z, b);
    case Store(k1, s1, b) => IndirectAt(z.disk, z.mem, k1, s1); StoreGood(L, z, k1, s1, b);
    case Write(k1, s1, block) => WriteGood(L, z, k1, s1, block);
    case Drop(k1, s1) =>
      MapBlock(L, SlotVal(z.disk, z.mem, k1, s1));
      IndirectAt(z.disk, z.mem, k1, s1);
      DropGood(L, z, k1, s1);
  }

  ghost predicate Run(L: Layout, z: State, es: seq<Event>, z': State)
    requires Good(L, z)
    decreases |es|
  {
    if es == [] then z' == z
    else Enabled(L, z, es[0]) && (StepKeeps(L, z, es[0]); Run(L, Next(L, z, es[0]), es[1..], z'))
  }

  /** So from any state of one process at a time, once nothing is in flight again the bits are exact again. */
  lemma {:induction false} RunKeeps(L: Layout, z: State, es: seq<Event>, z': State)
    requires Good(L, z) && Run(L, z, es, z')
    ensures Good(L, z') && (z'.held == {} ==> Inv(L, z'.disk, z'.mem))
    decreases |es|
  {
    if es == [] {
      if z.held == {} { NothingHeld(L, z); }
    } else {
      StepKeeps(L, z, es[0]);
      RunKeeps(L, Next(L, z, es[0]), es[1..], z');
    }
  }
}
