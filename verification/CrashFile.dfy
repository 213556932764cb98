/** filewrite over the log: what a crash in the middle of it leaves of the file. */
module CrashFile {
  import opened Params
  import opened SetSizes
  import opened DiskBlocks
  import opened FsBits
  import opened FsState
  import opened FsSteps
  import opened FsContent
  import opened FsWriting
  import opened FsChunk
  import FS = FileSystem
  import J = Journal
  import LogAdmission

  /** The log comes before the inodes. */
  ghost predicate LogBefore(L: Layout, g: J.Geometry) { 0 < g.size && g.start + g.size <= L.inodestart }

  /** lh lists the blocks logged, in whatever order log_write recorded them, and the log has room for them. */
  ghost predicate Lists(g: J.Geometry, lh: seq<nat>, logged: set<nat>)
  {
    (forall x :: x in lh <==> x in logged) && Distinct(lh) && |lh| < g.size && |lh| <= LOGSIZE
  }

  ghost function ContentsFor(disk: Disk, lh: seq<nat>): (c: seq<Block>)
    requires forall i :: 0 <= i < |lh| ==> lh[i] < |disk|
    ensures |c| == |lh| && forall i :: 0 <= i < |lh| ==> c[i] == disk[lh[i]]
  {
    seq(|lh|, i requires 0 <= i < |lh| => disk[lh[i]])
  }

  /** The bytes of file k. */
  ghost function File(disk: Disk, mem: Inodes, k: nat): seq<Byte>
  {
    if k < |mem| && mem[k].size <= MAXFILE * BSIZE then Content(disk, mem, k) else []
  }

  /** The disks hold the same files, and the second is in order. */
  ghost predicate SameFs(L: Layout, disk: Disk, disk': Disk, mem: Inodes)
  {
    Settled(L, disk', mem) && forall k: nat :: File(disk', mem, k) == File(disk, mem, k)
  }

  /** A disk with the same blocks outside the log holds the same file system. */
  lemma {:induction false} SameFiles(L: Layout, g: J.Geometry, disk: Disk, disk': Disk, mem: Inodes)
    requires Settled(L, disk, mem) && LogBefore(L, g) && J.SameHome(disk, disk', g)
    ensures SameFs(L, disk, disk', mem)
  {
    hide Own, Shape, InodeOk, ReadInode, SlotVal;
    assert Inv(L, disk, mem);
    assert forall x: nat :: L.inodestart <= x < |disk| ==> disk'[x] == disk[x];
    SameSlots(L, disk, disk', mem);
    UseFrame(L, disk, disk');
    OwnSame(L, disk, mem, disk', mem);
    forall k: nat | k < |mem|
      ensures Shape(disk', mem, k, Blocks(mem[k].size)) && mem[k].size <= MAXFILE * BSIZE
      ensures Content(disk', mem, k) == Content(disk, mem, k)
    {
      SettledSize(L, disk, mem, k);
      assert Shape(disk, mem, k, Blocks(mem[k].size));
      SameShape(disk, mem, disk', k, Blocks(mem[k].size));
      SameContent(L, disk, disk', mem, k);
    }
    forall k: nat | k < |mem| && IBlock(L, k) < |disk'| ensures DiskInode(L, disk', k) == mem[k] {
      assert L.inodestart <= IBlock(L, k);
      assert DiskInode(L, disk, k) == mem[k];
    }
  }

  lemma {:induction false} SameSlots(L: Layout, disk: Disk, disk': Disk, mem: Inodes)
    requires Inv(L, disk, mem) && |disk'| == |disk|
    requires forall x: nat :: L.inodestart <= x < |disk| ==> disk'[x] == disk[x]
    ensures SlotsSame(disk, mem, disk', mem)
  {
    OwnDistinct(L, disk, mem);
    hide Own, SlotVal, InodeOk;
    forall k: nat | k < |mem| && 0 < SlotVal(disk, mem, k, NDIRECT) < |disk|
      ensures disk'[SlotVal(disk, mem, k, NDIRECT)] == disk[SlotVal(disk, mem, k, NDIRECT)]
    {
      assert L.datastart <= SlotVal(disk, mem, k, NDIRECT);
    }
    SlotsFrame(disk, mem, disk');
  }

  lemma {:induction false} SameContent(L: Layout, disk: Disk, disk': Disk, mem: Inodes, k: nat)
    requires Inv(L, disk, mem) && |disk'| == |disk| && SlotsSame(disk, mem, disk', mem) && k < |mem|
    requires mem[k].size <= MAXFILE * BSIZE
    requires forall x: nat :: L.inodestart <= x < |disk| ==> disk'[x] == disk[x]
    requires Shape(disk, mem, k, Blocks(mem[k].size))
    ensures Content(disk', mem, k) == Content(disk, mem, k)
  {
    OwnDistinct(L, disk, mem);
    hide Own, SlotVal, InodeOk;
    forall bn: nat | bn < Blocks(mem[k].size) && bn < MAXFILE ensures Kept(disk, mem, disk', mem, k, DataSlot(bn)) {
      assert Addr(disk, mem, k, bn) != 0;
      assert L.datastart <= SlotVal(disk, mem, k, DataSlot(bn));
    }
    hide Shape, Blocks;
    BytesKept(disk, mem, disk', mem, k, mem[k].size);
  }

  /** In a log of LOGSIZE blocks or more, operations that log no more than those of filewrite never meet a panic of
      log_write exactly when the free map has at most three blocks. On the disk of mkfs it has one. */
  lemma {:induction false} WritesNeverPanicIff(L: Layout, g: J.Geometry, disksize: nat)
    requires LogAdmission.OnDisk(g, disksize) && g.size >= LOGSIZE
    ensures var budget := OperationBudget(MapSize(L));
            (forall s, op, block :: LogAdmission.Called(g, s, op, block, disksize) && s.budget == budget ==>
              !LogAdmission.TooBig(s))
            <==> L.size <= 3 * BPB
  {
    LogAdmission.NeverPanicsIff(g, OperationBudget(MapSize(L)), disksize);
  }

  // ----- one transaction -----

  /** The blocks logged, all applied, give the disk that the operations leave. */
  lemma {:induction false} AppliedOperation(L: Layout, g: J.Geometry, phys: Disk, disk: Disk, disk': Disk,
                                            logged: set<nat>, lh: seq<nat>)
    requires J.SameHome(disk, phys, g) && Tracks(L, disk, {}, disk', logged) && L.size == |disk|
    requires Lists(g, lh, logged) && LogBefore(L, g)
    ensures (forall i :: 0 <= i < |lh| ==> lh[i] < |disk|)
    ensures J.SameHome(disk', J.Applied(phys, lh, ContentsFor(disk', lh), |lh|), g)
  {
    forall i | 0 <= i < |lh| ensures lh[i] < |disk| { assert lh[i] in lh; }
    var c := ContentsFor(disk', lh);
    var applied := J.Applied(phys, lh, c, |lh|);
    assert lh[..|lh|] == lh;
    forall b: nat | b < |disk| && !J.InLog(g, b) ensures applied[b] == disk'[b] {
      J.AppliedEffect(phys, lh, c, |lh|, b);
      if b in lh {
        var i :| 0 <= i < |lh| && lh[i] == b;
      }
    }
  }

  lemma {:induction false} MayCommit(L: Layout, g: J.Geometry, phys: Disk, disk: Disk, disk': Disk,
                                     logged: set<nat>, lh: seq<nat>)
    requires J.Clean(phys, g, phys) && J.SameHome(disk, phys, g) && LogBefore(L, g) && L.size == |disk|
    requires Tracks(L, disk, {}, disk', logged) && Lists(g, lh, logged)
    ensures J.Loggable(g, lh, |phys|) && |disk'| == |phys| && forall i :: 0 <= i < |lh| ==> lh[i] < |disk'|
  {
    forall i | 0 <= i < |lh| ensures lh[i] < |disk'| && !J.InLog(g, lh[i]) { assert lh[i] in lh; }
  }

  /** A commit of what some operations logged, a crash after any of its disk writes, any number of crashes in
      recovery, and the recovery that finishes: the disk has the files from before the operations, or those
      they leave. */
  lemma {:induction false} TransactionAtomic(L: Layout, g: J.Geometry, phys: Disk, disk: Disk, disk': Disk,
                                             logged: set<nat>, lh: seq<nat>, w: nat, ks: seq<nat>)
    requires J.Clean(phys, g, phys) && J.SameHome(disk, phys, g) && LogBefore(L, g) && L.size == |disk|
    requires Tracks(L, disk, {}, disk', logged) && Lists(g, lh, logged) && w <= 2 * |lh| + 2
    ensures J.Loggable(g, lh, |phys|) && forall i :: 0 <= i < |lh| ==> lh[i] < |disk'|
    ensures var crashed := J.Reboots(J.CommitState(phys, g, lh, ContentsFor(disk', lh), w), g, ks);
            J.HeaderOk(crashed, g) && J.SameHome(if w <= |lh| then disk else disk', J.Recovered(crashed, g), g)
  {
    MayCommit(L, g, phys, disk, disk', logged, lh);
    AppliedOperation(L, g, phys, disk, disk', logged, lh);
    J.CrashAtomic(phys, g, lh, ContentsFor(disk', lh), w, ks);
  }

  /** Run to its end, it leaves the disk ready for the next. */
  lemma {:induction false} TransactionDone(L: Layout, g: J.Geometry, phys: Disk, disk: Disk, disk': Disk,
                                           logged: set<nat>, lh: seq<nat>)
    requires J.Clean(phys, g, phys) && J.SameHome(disk, phys, g) && LogBefore(L, g) && L.size == |disk|
    requires Tracks(L, disk, {}, disk', logged) && Lists(g, lh, logged)
    ensures J.Loggable(g, lh, |phys|) && forall i :: 0 <= i < |lh| ==> lh[i] < |disk'|
    ensures var done := J.CommitState(phys, g, lh, ContentsFor(disk', lh), 2 * |lh| + 2);
            J.Clean(done, g, done) && J.SameHome(disk', done, g)
  {
    MayCommit(L, g, phys, disk, disk', logged, lh);
    AppliedOperation(L, g, phys, disk, disk', logged, lh);
    J.CommitPoint(phys, g, lh, ContentsFor(disk', lh), 2 * |lh| + 2);
    hide J.CommitState;
  }

  // ----- a history of operations, and the transactions they commit in -----

  /** What operations of any processes do to the disk as log_write sees it, one after the other; each logs every
      block that it changes. */
  ghost predicate History(L: Layout, disks: seq<Disk>, mems: seq<Inodes>, ops: seq<set<nat>>)
  {
    |disks| == |mems| == |ops| + 1 && (forall i :: 0 <= i < |disks| ==> Settled(L, disks[i], mems[i])) &&
    forall i :: 0 <= i < |ops| ==> Tracks(L, disks[i], {}, disks[i + 1], ops[i])
  }

  /** The blocks logged by operations a to b - 1. */
  ghost function LoggedBy(ops: seq<set<nat>>, a: nat, b: nat): set<nat>
    requires a <= b <= |ops|
  {
    if a == b then {} else LoggedBy(ops, a, b - 1) + ops[b - 1]
  }

  lemma {:induction false} HistoryTracks(L: Layout, disks: seq<Disk>, mems: seq<Inodes>, ops: seq<set<nat>>, a: nat,
                                         b: nat)
    requires History(L, disks, mems, ops) && a <= b <= |ops|
    ensures Tracks(L, disks[a], {}, disks[b], LoggedBy(ops, a, b))
  {
    if a < b {
      HistoryTracks(L, disks, mems, ops, a, b - 1);
      assert Tracks(L, disks[b - 1], {}, disks[b], ops[b - 1]);
    }
  }

  /** Transaction t commits the operations from cuts[t] on, before cuts[t + 1]. */
  ghost predicate Grouped(g: J.Geometry, ops: seq<set<nat>>, cuts: seq<nat>, lists: seq<seq<nat>>)
  {
    |cuts| == |lists| + 1 && cuts[0] == 0 && forall t: nat :: t < |lists| ==> GroupAt(g, ops, cuts, lists, t)
  }

  ghost predicate GroupAt(g: J.Geometry, ops: seq<set<nat>>, cuts: seq<nat>, lists: seq<seq<nat>>, t: nat)
    requires t < |lists| == |cuts| - 1
  {
    cuts[t] <= cuts[t + 1] <= |ops| && Lists(g, lists[t], LoggedBy(ops, cuts[t], cuts[t + 1]))
  }

  /** The disk itself when transaction t begins: each transaction before it has been committed and installed. */
  ghost predicate Commits(g: J.Geometry, disks: seq<Disk>, cuts: seq<nat>, lists: seq<seq<nat>>, phys: seq<Disk>)
  {
    |cuts| == |phys| == |lists| + 1 && forall t: nat :: t < |lists| ==> CommitAt(g, disks, cuts, lists, phys, t)
  }

  ghost predicate CommitAt(g: J.Geometry, disks: seq<Disk>, cuts: seq<nat>, lists: seq<seq<nat>>, phys: seq<Disk>,
                           t: nat)
    requires t < |lists| == |cuts| - 1 == |phys| - 1
  {
    var n, b := |lists[t]|, cuts[t + 1];
    b < |disks| && J.Loggable(g, lists[t], |phys[t]|) && (forall i :: 0 <= i < n ==> lists[t][i] < |disks[b]|) &&
    phys[t + 1] == J.CommitState(phys[t], g, lists[t], ContentsFor(disks[b], lists[t]), 2 * n + 2)
  }

  /** So every transaction begins with a clean log and the files of all the operations before it. */
  lemma {:induction false} TransactionsChain(L: Layout, g: J.Geometry, disks: seq<Disk>, mems: seq<Inodes>,
                                             ops: seq<set<nat>>, cuts: seq<nat>, lists: seq<seq<nat>>,
                                             phys: seq<Disk>, t: nat)
    requires History(L, disks, mems, ops) && Grouped(g, ops, cuts, lists) && Commits(g, disks, cuts, lists, phys)
    requires LogBefore(L, g) && t <= |lists|
    requires J.Clean(phys[0], g, phys[0]) && J.SameHome(disks[0], phys[0], g)
    ensures cuts[t] <= |ops| && J.Clean(phys[t], g, phys[t]) && J.SameHome(disks[cuts[t]], phys[t], g)
  {
    if t > 0 {
      TransactionsChain(L, g, disks, mems, ops, cuts, lists, phys, t - 1);
      var a, b := cuts[t - 1], cuts[t];
      assert GroupAt(g, ops, cuts, lists, t - 1) && CommitAt(g, disks, cuts, lists, phys, t - 1);
      HistoryTracks(L, disks, mems, ops, a, b);
      assert L.size == |disks[a]| by { assert Settled(L, disks[a], mems[a]); }
      TransactionDone(L, g, phys[t - 1], disks[a], disks[b], LoggedBy(ops, a, b), lists[t - 1]);
    }
  }

  /** A crash after w disk writes of transaction t, and a crash in each of some recoveries. */
  ghost function Crashed(g: J.Geometry, disks: seq<Disk>, cuts: seq<nat>, lists: seq<seq<nat>>, phys: seq<Disk>,
                         t: nat, w: nat, ks: seq<nat>): Disk
    requires Commits(g, disks, cuts, lists, phys) && t < |lists| && w <= 2 * |lists[t]| + 2
  {
    assert CommitAt(g, disks, cuts, lists, phys, t);
    J.Reboots(J.CommitState(phys[t], g, lists[t], ContentsFor(disks[cuts[t + 1]], lists[t]), w), g, ks)
  }

  /** How many operations then survive: those of t are among them if its header had been written. */
  function Surviving(cuts: seq<nat>, lists: seq<seq<nat>>, t: nat, w: nat): nat
    requires t < |lists| == |cuts| - 1
  {
    if w <= |lists[t]| then cuts[t] else cuts[t + 1]
  }

  /** A crash after any disk write of transaction t: after recovery the disk holds the files exactly as some of the
      operations have left them, those of the transactions before t, or those of t as well. */
  lemma {:induction false} HistoryAtomic(L: Layout, g: J.Geometry, disks: seq<Disk>, mems: seq<Inodes>,
                                         ops: seq<set<nat>>, cuts: seq<nat>, lists: seq<seq<nat>>, phys: seq<Disk>,
                                         t: nat, w: nat, ks: seq<nat>)
    requires History(L, disks, mems, ops) && Grouped(g, ops, cuts, lists) && Commits(g, disks, cuts, lists, phys)
    requires LogBefore(L, g) && t < |lists| && w <= 2 * |lists[t]| + 2
    requires J.Clean(phys[0], g, phys[0]) && J.SameHome(disks[0], phys[0], g)
    ensures var crashed, p := Crashed(g, disks, cuts, lists, phys, t, w, ks), Surviving(cuts, lists, t, w);
            J.HeaderOk(crashed, g) && p < |disks| && SameFs(L, disks[p], J.Recovered(crashed, g), mems[p])
  {
    hide Own, Shape, SlotVal, InodeOk;
    var a, b := cuts[t], cuts[t + 1];
    assert GroupAt(g, ops, cuts, lists, t) && CommitAt(g, disks, cuts, lists, phys, t);
    TransactionsChain(L, g, disks, mems, ops, cuts, lists, phys, t);
    HistoryTracks(L, disks, mems, ops, a, b);
    assert Settled(L, disks[a], mems[a]) && Settled(L, disks[b], mems[b]);
    assert L.size == |disks[a]|;
    TransactionAtomic(L, g, phys[t], disks[a], disks[b], LoggedBy(ops, a, b), lists[t], w, ks);
    var crashed, p := Crashed(g, disks, cuts, lists, phys, t, w, ks), Surviving(cuts, lists, t, w);
    SameFiles(L, g, disks[p], J.Recovered(crashed, g), mems[p]);
  }

  // ----- filewrite among other operations -----

  /** Of the operations, js[i + 1] - js[i] is 1 where filewrite writes its next chunk, and 0 where another process
      does something that leaves the file alone. */
  ghost predicate WritesAmong(k: nat, off: nat, src: seq<Byte>, disks: seq<Disk>, mems: seq<Inodes>, js: seq<nat>)
  {
    |js| == |disks| == |mems| > 0 && js[0] == 0 && off <= |File(disks[0], mems[0], k)| &&
    forall i: nat :: i + 1 < |disks| ==> WriteStep(k, off, src, disks, mems, js, i)
  }

  ghost predicate WriteStep(k: nat, off: nat, src: seq<Byte>, disks: seq<Disk>, mems: seq<Inodes>, js: seq<nat>, i: nat)
    requires |js| == |disks| == |mems| > i + 1
  {
    Goes(File(disks[i], mems[i], k), File(disks[i + 1], mems[i + 1], k), off, src, js[i], js[i + 1])
  }

  /** The file stays as it is, or gets chunk j. */
  ghost predicate Goes(a: seq<Byte>, b: seq<Byte>, off: nat, src: seq<Byte>, j: nat, j': nat)
  {
    var from, upto := FS.Done(src, j), FS.Done(src, j');
    if j' == j then b == a else j' == j + 1 && off + from <= |a| && b == Splice(a, off + from, src[from..upto])
  }

  lemma {:induction false} GoesOn(file: seq<Byte>, a: seq<Byte>, b: seq<Byte>, off: nat, src: seq<Byte>, j: nat,
                                  j': nat)
    requires off <= |file| && a == Splice(file, off, src[..FS.Done(src, j)]) && Goes(a, b, off, src, j, j')
    ensures b == Splice(file, off, src[..FS.Done(src, j')])
  {
    SpliceNext(file, off, src, j);
    hide Splice, FS.Done;
  }

  lemma {:induction false} SpliceNone(file: seq<Byte>, off: nat, src: seq<Byte>)
    requires off <= |file|
    ensures FS.Done(src, 0) == 0 && Splice(file, off, src[..0]) == file
  {
  }

  /** The chunks so far and the next one. */
  lemma {:induction false} SpliceNext(file: seq<Byte>, off: nat, src: seq<Byte>, j: nat)
    requires off <= |file|
    ensures var from, upto := FS.Done(src, j), FS.Done(src, j + 1);
            from <= upto <= |src| && off + from <= |Splice(file, off, src[..from])| &&
            Splice(Splice(file, off, src[..from]), off + from, src[from..upto]) == Splice(file, off, src[..upto])
  {
    var from, upto := FS.Done(src, j), FS.Done(src, j + 1);
    SpliceConcat(file, off, src[..from], src[from..upto]);
    assert src[..from] + src[from..upto] == src[..upto];
  }

  lemma {:induction false} WritesSoFar(k: nat, off: nat, src: seq<Byte>, disks: seq<Disk>, mems: seq<Inodes>,
                                       js: seq<nat>, i: nat)
    requires WritesAmong(k, off, src, disks, mems, js) && i < |disks|
    ensures File(disks[i], mems[i], k) == Splice(File(disks[0], mems[0], k), off, src[..FS.Done(src, js[i])])
  {
    var file := File(disks[0], mems[0], k);
    hide File, Splice, FS.Done, Goes;
    if i == 0 {
      SpliceNone(file, off, src);
    } else {
      WritesSoFar(k, off, src, disks, mems, js, i - 1);
      assert WriteStep(k, off, src, disks, mems, js, i - 1);
      GoesOn(file, File(disks[i - 1], mems[i - 1], k), File(disks[i], mems[i], k), off, src, js[i - 1], js[i]);
    }
  }

  /** filewrite on its own is such a history. */
  lemma {:induction false} FilewriteHistory(L: Layout, k: nat, off: nat, src: seq<Byte>, disks: seq<Disk>,
                                            mems: seq<Inodes>, ops: seq<set<nat>>)
    requires FS.Operations(L, k, off, src, disks, mems, ops) && off <= mems[0][k].size
    ensures History(L, disks, mems, ops) && WritesAmong(k, off, src, disks, mems, seq(|disks|, i => i))
  {
    hide Settled, File, Splice, FS.Done, Content;
    var file, js := File(disks[0], mems[0], k), seq(|disks|, i => i);
    WroteLong(L, disks[0], mems[0], k, off);
    forall i | 0 <= i < |disks|
      ensures Settled(L, disks[i], mems[i])
      ensures File(disks[i], mems[i], k) == Splice(file, off, src[..FS.Done(src, i)])
    {
      WroteFile(L, k, off, src, disks, mems, ops, i);
    }
    forall i | 0 <= i < |ops| ensures Tracks(L, disks[i], {}, disks[i + 1], ops[i]) {
      assert FS.OperationAt(L, k, off, src, disks, mems, ops, i);
    }
    forall i: nat | i + 1 < |disks| ensures WriteStep(k, off, src, disks, mems, js, i) {
      SpliceNext(file, off, src, i);
    }
  }

  lemma {:induction false} WroteLong(L: Layout, disk: Disk, mem: Inodes, k: nat, off: nat)
    requires Settled(L, disk, mem) && k < |mem| && off <= mem[k].size
    ensures off <= |File(disk, mem, k)|
  {
    SettledSize(L, disk, mem, k);
  }

  lemma {:induction false} WroteFile(L: Layout, k: nat, off: nat, src: seq<Byte>, disks: seq<Disk>, mems: seq<Inodes>,
                                     ops: seq<set<nat>>, i: nat)
    requires FS.Operations(L, k, off, src, disks, mems, ops) && off <= mems[0][k].size && i < |disks|
    ensures Settled(L, disks[i], mems[i]) && off <= |File(disks[0], mems[0], k)|
    ensures File(disks[i], mems[i], k) == Splice(File(disks[0], mems[0], k), off, src[..FS.Done(src, i)])
  {
    hide Settled, Content, Splice;
    FS.WroteSoFar(L, k, off, src, disks, mems, ops, i);
    SettledSize(L, disks[0], mems[0], k);
    SettledSize(L, disks[i], mems[i], k);
  }

  /** A truncation is one of a history's operations. */
  lemma {:induction false} TruncateHistory(L: Layout, disks: seq<Disk>, mems: seq<Inodes>, ops: seq<set<nat>>, k: nat,
                                           disk: Disk, mem: Inodes, logged: set<nat>)
    requires History(L, disks, mems, ops) && FS.Emptied(L, disks[|ops|], mems[|ops|], disk, mem, k)
    requires Tracks(L, disks[|ops|], {}, disk, logged)
    ensures History(L, disks + [disk], mems + [mem], ops + [logged])
    ensures File(disk, mem, k) == []
    ensures forall j: nat :: j != k ==> File(disk, mem, j) == File(disks[|ops|], mems[|ops|], j)
  {
    hide Settled, Tracks, Content, FS.SameKind, InUse;
    var disks', mems', ops' := disks + [disk], mems + [mem], ops + [logged];
    forall i | 0 <= i < |disks'| ensures Settled(L, disks'[i], mems'[i]) {
      if i < |disks| { assert Settled(L, disks[i], mems[i]); }
    }
    forall i | 0 <= i < |ops'| ensures Tracks(L, disks'[i], {}, disks'[i + 1], ops'[i]) {
      if i < |ops| { assert Tracks(L, disks[i], {}, disks[i + 1], ops[i]); }
    }
    EmptyFile(disk, mem, k);
    forall j: nat | j != k ensures File(disk, mem, j) == File(disks[|ops|], mems[|ops|], j) {
      if j < |mem| { SettledSize(L, disks[|ops|], mems[|ops|], j); }
    }
  }

  lemma {:induction false} EmptyFile(disk: Disk, mem: Inodes, k: nat)
    requires k < |mem| && mem[k].size == 0
    ensures File(disk, mem, k) == []
  {
  }

  /** Operation i truncates file k, and the other operations of its transaction leave that file alone. A crash
      anywhere in the transaction: after recovery the file system is whole, and the file has all of its bytes or none,
      none exactly if the header was written. */
  lemma {:induction false} TruncateCrash(L: Layout, g: J.Geometry, disks: seq<Disk>, mems: seq<Inodes>,
                                         ops: seq<set<nat>>, cuts: seq<nat>, lists: seq<seq<nat>>, phys: seq<Disk>,
                                         k: nat, i: nat, t: nat, w: nat, ks: seq<nat>)
    requires History(L, disks, mems, ops) && i < |ops|
    requires FS.Emptied(L, disks[i], mems[i], disks[i + 1], mems[i + 1], k)
    requires Grouped(g, ops, cuts, lists) && Commits(g, disks, cuts, lists, phys)
    requires LogBefore(L, g) && t < |lists| && w <= 2 * |lists[t]| + 2
    requires J.Clean(phys[0], g, phys[0]) && J.SameHome(disks[0], phys[0], g)
    requires cuts[t] <= i < cuts[t + 1] <= |ops| && AloneIn(disks, mems, k, i, cuts[t], cuts[t + 1])
    ensures var crashed, p := Crashed(g, disks, cuts, lists, phys, t, w, ks), Surviving(cuts, lists, t, w);
            J.HeaderOk(crashed, g) && p < |disks| && SameFs(L, disks[p], J.Recovered(crashed, g), mems[p]) &&
            File(J.Recovered(crashed, g), mems[p], k) == if w <= |lists[t]| then File(disks[i], mems[i], k) else []
  {
    hide File, Crashed, J.Recovered, Settled, Tracks, Content, J.HeaderOk, Lists, CommitAt, AloneIn;
    HistoryAtomic(L, g, disks, mems, ops, cuts, lists, phys, t, w, ks);
    AloneKeeps(disks, mems, k, i, cuts[t], cuts[t + 1], i, cuts[t]);
    AloneKeeps(disks, mems, k, i, cuts[t], cuts[t + 1], cuts[t + 1], i + 1);
    EmptyFile(disks[i + 1], mems[i + 1], k);
  }

  /** From operation a to operation b only operation i changes file k. */
  ghost predicate AloneIn(disks: seq<Disk>, mems: seq<Inodes>, k: nat, i: nat, a: nat, b: nat)
  {
    |mems| == |disks| && b < |disks| && forall q: nat :: a <= q < b && q != i ==> Leaves(disks, mems, k, q)
  }

  ghost predicate Leaves(disks: seq<Disk>, mems: seq<Inodes>, k: nat, q: nat)
    requires q + 1 < |disks| == |mems|
  {
    File(disks[q + 1], mems[q + 1], k) == File(disks[q], mems[q], k)
  }

  lemma {:induction false} AloneKeeps(disks: seq<Disk>, mems: seq<Inodes>, k: nat, i: nat, a: nat, b: nat, q: nat,
                                      from: nat)
    requires AloneIn(disks, mems, k, i, a, b) && a <= from <= q <= b && (q <= i || i < from)
    ensures File(disks[q], mems[q], k) == File(disks[from], mems[from], k)
    decreases q
  {
    hide File;
    if from < q {
      AloneKeeps(disks, mems, k, i, a, b, q - 1, from);
      assert Leaves(disks, mems, k, q - 1);
    }
  }

  /** A crash anywhere in any transaction, with the operations of filewrite spread over the transactions in any way
      and any others among them. After recovery the file system is whole and as some of the operations, from the
      first on, have left it; and the file is the old one with a whole number of chunks written. */
  lemma {:induction false} FilewriteCrash(L: Layout, g: J.Geometry, k: nat, off: nat, src: seq<Byte>, disks: seq<Disk>,
                                          mems: seq<Inodes>, ops: seq<set<nat>>, js: seq<nat>, cuts: seq<nat>,
                                          lists: seq<seq<nat>>, phys: seq<Disk>, t: nat, w: nat, ks: seq<nat>)
    requires History(L, disks, mems, ops) && WritesAmong(k, off, src, disks, mems, js)
    requires Grouped(g, ops, cuts, lists) && Commits(g, disks, cuts, lists, phys)
    requires LogBefore(L, g) && t < |lists| && w <= 2 * |lists[t]| + 2
    requires J.Clean(phys[0], g, phys[0]) && J.SameHome(disks[0], phys[0], g)
    ensures var crashed, p := Crashed(g, disks, cuts, lists, phys, t, w, ks), Surviving(cuts, lists, t, w);
            J.HeaderOk(crashed, g) && p < |disks| && SameFs(L, disks[p], J.Recovered(crashed, g), mems[p]) &&
            File(J.Recovered(crashed, g), mems[p], k) ==
              Splice(File(disks[0], mems[0], k), off, src[..FS.Done(src, js[p])])
  {
    hide File, Splice, Crashed, J.Recovered, Settled, Tracks, WriteStep, Content, J.HeaderOk, Lists, CommitAt;
    HistoryAtomic(L, g, disks, mems, ops, cuts, lists, phys, t, w, ks);
    WritesSoFar(k, off, src, disks, mems, js, Surviving(cuts, lists, t, w));
  }
}
