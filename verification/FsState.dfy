/** What fs.c keeps on disk and in memory, and which slot refers to which block. */
module FsState {
  import opened Params
  import opened SetSizes
  import opened DiskBlocks
  import opened FsBits

  const NDIRECT: nat := 12
  const NINDIRECT: nat := 128
  const MAXFILE: nat := 140            // NDIRECT + NINDIRECT
  const NSLOTS: nat := 141             // with the slot of the indirect block itself
  const IPB: nat := 8
  const T_DEV: nat := 3

  /** The super block, and the first block after the free map. */
  datatype Layout = Layout(size: nat, ninodes: nat, inodestart: nat, bmapstart: nat, datastart: nat)

  ghost predicate LayoutOk(L: Layout)
  {
    0 < L.inodestart && L.inodestart + (L.ninodes + IPB - 1) / IPB <= L.bmapstart &&
    L.bmapstart + MapSize(L) <= L.datastart <= L.size < 0x8000_0000
  }

  /** The blocks of the free map, one bit for each block of the disk. */
  function MapSize(L: Layout): nat { (L.size + BPB - 1) / BPB }

  ghost function MapBlocks(L: Layout): set<nat> { Interval(L.bmapstart, L.bmapstart + MapSize(L)) }

  function IBlock(L: Layout, k: nat): nat { k / IPB + L.inodestart }

  function BBlock(L: Layout, b: nat): nat { b / BPB + L.bmapstart }

  lemma {:induction false} InMap(L: Layout, b: nat)
    requires b < L.size
    ensures BBlock(L, b) in MapBlocks(L)
  {
  }

  // ----- inodes -----

  /** The short fields are kept as their 16 bits. */
  datatype Inode = Inode(typ: nat, major: nat, minor: nat, nlink: nat, size: nat, addrs: seq<nat>)

  ghost predicate InodeOk(ip: Inode)
  {
    ip.typ < 0x1_0000 && ip.major < 0x1_0000 && ip.minor < 0x1_0000 && ip.nlink < 0x1_0000 && ip.size < U32 &&
    |ip.addrs| == NDIRECT + 1 && forall i :: 0 <= i < |ip.addrs| ==> ip.addrs[i] < U32
  }

  /** struct dinode as 16 little-endian words. */
  function InodeWords(ip: Inode): (ws: seq<nat>)
    ensures |ws| == 3 + |ip.addrs|
  {
    [ip.typ + 0x1_0000 * ip.major, ip.minor + 0x1_0000 * ip.nlink, ip.size] + ip.addrs
  }

  function ReadInode(b: Block, slot: nat): Inode
    requires slot < IPB
  {
    var w := 16 * slot;
    Inode(Get32(b, w) % 0x1_0000, Get32(b, w) / 0x1_0000, Get32(b, w + 1) % 0x1_0000, Get32(b, w + 1) / 0x1_0000,
          Get32(b, w + 2), GetWords(b, w + 3, NDIRECT + 1))
  }

  lemma {:induction false} WordsFit(ip: Inode)
    requires InodeOk(ip)
    ensures |InodeWords(ip)| == 16 && forall i :: 0 <= i < 16 ==> InodeWords(ip)[i] < U32
  {
  }

  function WriteInode(b: Block, slot: nat, ip: Inode): Block
    requires slot < IPB && InodeOk(ip)
  {
    WordsFit(ip);
    PutWords(b, 16 * slot, InodeWords(ip))
  }

  /** What iupdate stores is what ilock would load, and the inodes beside it are not touched. */
  lemma {:induction false} InodeRoundTrip(b: Block, slot: nat, ip: Inode, other: nat)
    requires slot < IPB && other < IPB && InodeOk(ip)
    ensures ReadInode(WriteInode(b, slot, ip), other) == if other == slot then ip else ReadInode(b, other)
  {
    WordsFit(ip);
    var b', w, ws := WriteInode(b, slot, ip), 16 * other, InodeWords(ip);
    forall j | w <= j < w + 16
      ensures Get32(b', j) == if other == slot then ws[j - w] else Get32(b, j)
    {
      GetPutWords(b, 16 * slot, ws, j);
    }
    hide PutWords, Get32, WriteInode;
    HalfWords(ip.typ, ip.major);
    HalfWords(ip.minor, ip.nlink);
    var addrs, addrs' := GetWords(b, w + 3, NDIRECT + 1), GetWords(b', w + 3, NDIRECT + 1);
    forall i | 0 <= i < NDIRECT + 1
      ensures addrs'[i] == if other == slot then ip.addrs[i] else addrs[i]
    {
      assert Get32(b', w + 3 + i) == addrs'[i];
    }
    assert addrs' == if other == slot then ip.addrs else addrs;
  }

  lemma {:induction false} HalfWords(lo: nat, hi: nat)
    requires lo < 0x1_0000
    ensures (lo + 0x1_0000 * hi) % 0x1_0000 == lo && (lo + 0x1_0000 * hi) / 0x1_0000 == hi
  {
  }

  type Disk = seq<Block>
  type Inodes = seq<Inode>             // the in-memory copies, by inode number

  function DiskInode(L: Layout, disk: Disk, k: nat): Inode
    requires IBlock(L, k) < |disk|
  {
    ReadInode(disk[IBlock(L, k)], k % IPB)
  }

  // ----- slots -----

  /** Slots 0..11 hold the direct blocks, slot 12 the indirect block, slots 13.. its entries. */
  function SlotVal(disk: Disk, mem: Inodes, k: nat, s: nat): nat
    requires k < |mem| && s < NSLOTS
  {
    var addrs := mem[k].addrs;
    if |addrs| != NDIRECT + 1 then 0
    else if s <= NDIRECT then addrs[s]
    else var a := addrs[NDIRECT];
      if a == 0 || a >= |disk| then 0 else Get32(disk[a], s - NDIRECT - 1)
  }

  function DataSlot(bn: nat): nat { if bn < NDIRECT then bn else bn + 1 }

  /** The disk block that holds block bn of the file. */
  function Addr(disk: Disk, mem: Inodes, k: nat, bn: nat): nat
    requires k < |mem| && bn < MAXFILE
  {
    SlotVal(disk, mem, k, DataSlot(bn))
  }

  predicate InUse(L: Layout, disk: Disk, b: nat)
  {
    BBlock(L, b) < |disk| && Bit(disk[BBlock(L, b)], b % BPB)
  }

  ghost predicate Refers(disk: Disk, mem: Inodes, b: nat)
  {
    exists k: nat, s: nat :: k < |mem| && s < NSLOTS && SlotVal(disk, mem, k, s) == b
  }

  /** A block's bit is set iff it holds metadata or some slot refers to it, and no two slots do. */
  ghost predicate Own(L: Layout, disk: Disk, mem: Inodes)
  {
    (forall k: nat, s: nat :: k < |mem| && s < NSLOTS && SlotVal(disk, mem, k, s) != 0 ==>
      L.datastart <= SlotVal(disk, mem, k, s) < L.size && InUse(L, disk, SlotVal(disk, mem, k, s))) &&
    (forall k: nat, s: nat, k': nat, s': nat ::
      (k < |mem| && s < NSLOTS && k' < |mem| && s' < NSLOTS && SlotVal(disk, mem, k, s) != 0 &&
      SlotVal(disk, mem, k, s) == SlotVal(disk, mem, k', s')) ==> k == k' && s == s') &&
    (forall b: nat :: b < L.size && InUse(L, disk, b) ==> b < L.datastart || Refers(disk, mem, b)) &&
    (forall b: nat :: b < L.datastart ==> InUse(L, disk, b))
  }

  ghost predicate Inv(L: Layout, disk: Disk, mem: Inodes)
  {
    LayoutOk(L) && |disk| == L.size && |mem| == L.ninodes &&
    (forall k :: 0 <= k < |mem| ==> InodeOk(mem[k])) && Own(L, disk, mem)
  }

  /** The file has exactly its first nb blocks, and an indirect block only if it needs one. */
  ghost predicate Shape(disk: Disk, mem: Inodes, k: nat, nb: nat)
    requires k < |mem|
  {
    nb <= MAXFILE &&
    (forall bn: nat :: bn < MAXFILE ==> (Addr(disk, mem, k, bn) != 0 <==> bn < nb)) &&
    (SlotVal(disk, mem, k, NDIRECT) != 0 <==> nb > NDIRECT)
  }

  function Blocks(end: nat): nat { (end + BSIZE - 1) / BSIZE }

  /** Between operations: no holes, nothing past the end, and memory agrees with the disk. */
  ghost predicate Settled(L: Layout, disk: Disk, mem: Inodes)
  {
    Inv(L, disk, mem) &&
    (forall k: nat :: k < |mem| ==> Shape(disk, mem, k, Blocks(mem[k].size))) &&
    (forall k: nat :: k < |mem| && IBlock(L, k) < |disk| ==> DiskInode(L, disk, k) == mem[k])
  }

  // ----- contents -----

  function ByteAt(disk: Disk, mem: Inodes, k: nat, q: nat): Byte
    requires k < |mem| && q < MAXFILE * BSIZE
  {
    var a := Addr(disk, mem, k, q / BSIZE);
    if a < |disk| then disk[a][q % BSIZE] else 0
  }

  function Bytes(disk: Disk, mem: Inodes, k: nat, end: nat): (bytes: seq<Byte>)
    requires k < |mem| && end <= MAXFILE * BSIZE
    ensures |bytes| == end
  {
    seq(end, q requires 0 <= q < end => ByteAt(disk, mem, k, q))
  }

  /** The bytes of the file. */
  function Content(disk: Disk, mem: Inodes, k: nat): (bytes: seq<Byte>)
    requires k < |mem| && mem[k].size <= MAXFILE * BSIZE
    ensures |bytes| == mem[k].size
  {
    Bytes(disk, mem, k, mem[k].size)
  }

  /** src written over the bytes from off on, past the end if need be. */
  function Splice(bytes: seq<Byte>, off: nat, src: seq<Byte>): seq<Byte>
    requires off <= |bytes|
  {
    bytes[..off] + src + if off + |src| < |bytes| then bytes[off + |src|..] else []
  }
}
