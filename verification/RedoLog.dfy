/** log.c over the buffer cache: what the transaction machinery does to the cache and to the disk. */
module RedoLog {
  import opened Params
  import opened SetSizes
  import opened DiskBlocks
  import opened BufferCache
  import opened Journal
  import LogAdmission

  ghost function ContentsOf(bufs: seq<Buf>, disk: seq<Block>, blocks: seq<nat>): seq<Block>
    requires forall i :: 0 <= i < |blocks| ==> blocks[i] < |disk|
  {
    seq(|blocks|, i requires 0 <= i < |blocks| => Content(bufs, disk, blocks[i]))
  }

  // ----- the disks that a run of writes leaves behind, in order -----

  ghost function LogStates(d: Disk, g: Geometry, c: seq<Block>, w: nat): (t: seq<Disk>)
    requires w <= |c| && g.start + |c| < |d|
    ensures |t| == w && forall i :: 0 <= i < w ==> t[i] == WriteLog(d, g, c, i + 1)
  {
    if w == 0 then [] else LogStates(d, g, c, w - 1) + [WriteLog(d, g, c, w)]
  }

  lemma {:induction false} LogNone(d: Disk, g: Geometry, c: seq<Block>)
    requires g.start + |c| < |d|
    ensures WriteLog(d, g, c, 0) == d && LogStates(d, g, c, 0) == []
  {
  }

  lemma {:induction false} LogNext(d: Disk, g: Geometry, c: seq<Block>, w: nat)
    requires w < |c| && g.start + |c| < |d|
    ensures WriteLog(d, g, c, w + 1) == WriteLog(d, g, c, w)[g.start + w + 1 := c[w]]
    ensures LogStates(d, g, c, w + 1) == LogStates(d, g, c, w) + [WriteLog(d, g, c, w + 1)]
  {
  }

  ghost function InstallStates(d: Disk, g: Geometry, lh: seq<nat>, w: nat): (t: seq<Disk>)
    requires w <= |lh| && Loggable(g, lh, |d|)
    ensures |t| == w && forall i :: 0 <= i < w ==> t[i] == Install(d, g, lh, i + 1)
  {
    if w == 0 then [] else InstallStates(d, g, lh, w - 1) + [Install(d, g, lh, w)]
  }

  ghost function CommitStates(d: Disk, g: Geometry, lh: seq<nat>, c: seq<Block>, w: nat): (t: seq<Disk>)
    requires Loggable(g, lh, |d|) && |c| == |lh| && w <= 2 * |lh| + 2
    ensures |t| == w && forall i :: 0 <= i < w ==> t[i] == CommitState(d, g, lh, c, i + 1)
  {
    if w == 0 then [] else CommitStates(d, g, lh, c, w - 1) + [CommitState(d, g, lh, c, w)]
  }

  ghost function RecoverStates(d: Disk, g: Geometry, w: nat): (t: seq<Disk>)
    requires HeaderOk(d, g)
    ensures |t| == w && forall i :: 0 <= i < w ==> t[i] == RecoverState(d, g, i + 1)
  {
    if w == 0 then [] else RecoverStates(d, g, w - 1) + [RecoverState(d, g, w)]
  }

  lemma {:induction false} CommitPhases(d: Disk, g: Geometry, lh: seq<nat>, c: seq<Block>, j: nat)
    requires Loggable(g, lh, |d|) && |c| == |lh| && j <= |lh|
    ensures CommitState(d, g, lh, c, 0) == d && CommitStates(d, g, lh, c, 0) == []
    ensures CommitState(d, g, lh, c, j) == WriteLog(d, g, c, j)
    ensures CommitStates(d, g, lh, c, j) == LogStates(d, g, c, j)
    ensures var hdr := WriteHead(WriteLog(d, g, c, |lh|), g, lh);
            |hdr| == |d| && CommitState(d, g, lh, c, |lh| + 1 + j) == Install(hdr, g, lh, j) &&
            CommitStates(d, g, lh, c, |lh| + 1 + j) == LogStates(d, g, c, |lh|) + [hdr] + InstallStates(hdr, g, lh, j)
    ensures var end := WriteHead(CommitState(d, g, lh, c, 2 * |lh| + 1), g, []);
            CommitState(d, g, lh, c, 2 * |lh| + 2) == end &&
            CommitStates(d, g, lh, c, 2 * |lh| + 2) == CommitStates(d, g, lh, c, 2 * |lh| + 1) + [end]
    ensures Install(WriteHead(WriteLog(d, g, c, |lh|), g, lh), g, lh, 0) == WriteHead(WriteLog(d, g, c, |lh|), g, lh)
    ensures InstallStates(WriteHead(WriteLog(d, g, c, |lh|), g, lh), g, lh, 0) == []
  {
    hide Encode;
    var n := |lh|;
    var hdr := WriteHead(WriteLog(d, g, c, n), g, lh);
    var t := LogStates(d, g, c, n) + [hdr] + InstallStates(hdr, g, lh, j);
    forall i | 0 <= i < n + 1 + j ensures t[i] == CommitState(d, g, lh, c, i + 1) {}
  }

  ghost predicate Among(lh: seq<nat>, w: nat, x: nat)
    requires w <= |lh|
  {
    exists i :: 0 <= i < w && lh[i] == x
  }

  lemma {:induction false} AmongNext(lh: seq<nat>, w: nat)
    requires w < |lh|
    ensures forall x :: Among(lh, w + 1, x) <==> Among(lh, w, x) || x == lh[w]
  {
    forall x ensures Among(lh, w + 1, x) <==> Among(lh, w, x) || x == lh[w] {
      if Among(lh, w, x) {
        var i :| 0 <= i < w && lh[i] == x;
        assert 0 <= i < w + 1 && lh[i] == x;
      }
      if x == lh[w] { assert 0 <= w < w + 1 && lh[w] == x; }
    }
  }

  lemma {:induction false} AmongAll(lh: seq<nat>)
    ensures forall x :: Among(lh, |lh|, x) <==> x in lh
    ensures forall x :: !Among(lh, 0, x)
  {
  }

  lemma {:induction false} LoggableAt(g: Geometry, lh: seq<nat>, n: nat, i: nat)
    requires Loggable(g, lh, n) && i < |lh|
    ensures lh[i] < n && !InLog(g, lh[i]) && InLog(g, g.start + i + 1) && lh[i] != g.start + i + 1
    ensures g.start + i + 1 < n
    ensures lh[i] in lh
  {
  }

  lemma {:induction false} AmongDistinct(g: Geometry, lh: seq<nat>, n: nat, w: nat)
    requires Loggable(g, lh, n) && w < |lh|
    ensures !Among(lh, w, lh[w]) && !Among(lh, w, g.start + w + 1)
    ensures forall i :: 0 <= i < w ==> lh[i] != lh[w]
  {
  }

  /** The first w blocks are home and unpinned, and nothing else about the cache has changed. */
  ghost predicate InstalledTo(bufs0: seq<Buf>, bufs: seq<Buf>, d0: Disk, disk: Disk, g: Geometry, lh: seq<nat>, w: nat)
  {
    w <= |lh| && |disk| == |d0| && Loggable(g, lh, |d0|) &&
    (forall x :: Pinned(bufs, x) <==> !Among(lh, w, x) && Pinned(bufs0, x)) &&
    (forall x :: Held(bufs, x) <==> Held(bufs0, x)) &&
    (forall x :: 0 <= x < |d0| && !Among(lh, w, x) ==> Content(bufs, disk, x) == Content(bufs0, d0, x)) &&
    (forall i :: 0 <= i < w ==> Content(bufs, disk, lh[i]) == d0[g.start + 1 + i])
  }

  lemma {:induction false} InstalledNone(bufs: seq<Buf>, d0: Disk, g: Geometry, lh: seq<nat>)
    requires Loggable(g, lh, |d0|)
    ensures InstalledTo(bufs, bufs, d0, d0, g, lh, 0)
    ensures Install(d0, g, lh, 0) == d0 && InstallStates(d0, g, lh, 0) == []
  {
    AmongAll(lh);
    hide Pinned, Held, Content, Among, Loggable;
  }

  lemma {:induction false} InstalledSoFar(bufs0: seq<Buf>, bufs: seq<Buf>, d0: Disk, disk: Disk, g: Geometry,
                                          lh: seq<nat>, w: nat)
    requires InstalledTo(bufs0, bufs, d0, disk, g, lh, w)
    ensures forall x :: Held(bufs, x) <==> Held(bufs0, x)
    ensures forall x :: Pinned(bufs, x) ==> Pinned(bufs0, x)
    ensures w < |lh| ==> (Pinned(bufs, lh[w]) <==> Pinned(bufs0, lh[w]))
  {
    if w < |lh| { AmongDistinct(g, lh, |d0|, w); }
    hide Pinned, Held, Content, Loggable;
  }

  lemma {:induction false} InstalledNext(bufs0: seq<Buf>, bufs: seq<Buf>, bufs': seq<Buf>, d0: Disk, disk: Disk,
                                         disk': Disk, g: Geometry, lh: seq<nat>, w: nat)
    requires InstalledTo(bufs0, bufs, d0, disk, g, lh, w) && w < |lh| && |disk'| == |disk| && g.start + 1 + w < |d0|
    requires forall x :: 0 <= x < |d0| ==>
      Content(bufs', disk', x) == if x == lh[w] then d0[g.start + 1 + w] else Content(bufs, disk, x)
    requires forall x :: Pinned(bufs', x) <==> (x != lh[w] && Pinned(bufs, x))
    requires forall x :: Held(bufs', x) <==> Held(bufs, x)
    ensures InstalledTo(bufs0, bufs', d0, disk', g, lh, w + 1)
  {
    AmongNext(lh, w);
    AmongDistinct(g, lh, |d0|, w);
    forall i | 0 <= i < w + 1 ensures lh[i] < |d0| { LoggableAt(g, lh, |d0|, i); }
    hide Pinned, Held, Content, Among, Loggable;
  }

  lemma {:induction false} InstalledAll(bufs0: seq<Buf>, bufs: seq<Buf>, d0: Disk, disk: Disk, g: Geometry,
                                        lh: seq<nat>)
    requires InstalledTo(bufs0, bufs, d0, disk, g, lh, |lh|)
    ensures |disk| == |d0| && Loggable(g, lh, |d0|)
    ensures forall x :: Pinned(bufs, x) <==> x !in lh && Pinned(bufs0, x)
    ensures forall x :: Held(bufs, x) <==> Held(bufs0, x)
    ensures forall x :: 0 <= x < |d0| && x !in lh ==> Content(bufs, disk, x) == Content(bufs0, d0, x)
    ensures forall i :: 0 <= i < |lh| ==> Content(bufs, disk, lh[i]) == d0[g.start + 1 + i]
  {
    AmongAll(lh);
    hide Pinned, Held, Content, Among;
  }

  lemma {:induction false} ListedAppend(g: Geometry, lh: seq<nat>, n: nat, x: nat)
    requires Listed(g, lh, n) && x < n && !InLog(g, x) && x !in lh && |lh| < LOGSIZE
    ensures Listed(g, lh + [x], n)
  {
  }

  /** install_trans reads log blocks it never writes. */
  lemma {:induction false} InstallNext(d: Disk, g: Geometry, lh: seq<nat>, w: nat)
    requires w < |lh| && Loggable(g, lh, |d|)
    ensures Install(d, g, lh, w)[g.start + w + 1] == d[g.start + w + 1]
    ensures Install(d, g, lh, w + 1) == Install(d, g, lh, w)[lh[w] := d[g.start + w + 1]]
    ensures InstallStates(d, g, lh, w + 1) == InstallStates(d, g, lh, w) + [Install(d, g, lh, w + 1)]
  {
    InstallEffect(d, g, lh, w, g.start + w + 1);
    assert forall i :: 0 <= i < w ==> lh[i] != g.start + w + 1;
  }

  lemma {:induction false} RecoverPhases(d: Disk, g: Geometry, w: nat)
    requires HeaderOk(d, g) && w <= |Decode(d[g.start])|
    ensures RecoverStates(d, g, w) == InstallStates(d, g, Decode(d[g.start]), w)
  {
  }

  lemma {:induction false} RecoverStages(d: Disk, g: Geometry)
    requires HeaderOk(d, g)
    ensures var lh := Decode(d[g.start]); var done := WriteHead(Install(d, g, lh, |lh|), g, []);
            RecoverState(d, g, |lh| + 1) == done == Recovered(d, g) &&
            RecoverStates(d, g, |lh| + 1) == RecoverStates(d, g, |lh|) + [done]
  {
    hide Encode, Install;
  }

  lemma {:induction false} BootReachable(size: nat, budget: nat)
    requires budget <= MAXOPBLOCKS
    ensures LogAdmission.Reachable(LogAdmission.Initial(size, budget))
  {
    var s := LogAdmission.Initial(size, budget);
    assert LogAdmission.Run(s, [], s);
  }

  /** Once the header is written the log holds the transaction's contents. */
  lemma {:induction false} LoggedBlocks(d: Disk, g: Geometry, lh: seq<nat>, c: seq<Block>)
    requires Loggable(g, lh, |d|) && |c| == |lh|
    ensures var hdr := WriteHead(WriteLog(d, g, c, |lh|), g, lh);
            forall i :: 0 <= i < |lh| ==> hdr[g.start + 1 + i] == c[i]
  {
    var hdr := WriteHead(WriteLog(d, g, c, |lh|), g, lh);
    hide *;
    forall i | 0 <= i < |lh| ensures hdr[g.start + 1 + i] == c[i] {
      LoggableFits(g, lh, |d|);
      CommitHead(d, g, lh, c, g.start + 1 + i);
    }
  }

  /** The blocks that a commit of n blocks writes besides those: commit never looks at the size of the log. */
  function Reach(g: Geometry, n: nat): Geometry { Geometry(g.start, if n < g.size then g.size else n + 1) }

  /** How many more buffers bread needs for a block that nobody holds. */
  ghost function Wants(bufs: seq<Buf>, x: nat): nat { if Pinned(bufs, x) then 0 else 1 }

  class Log {
    const cache: Cache
    const g: Geometry
    var lh: seq<nat>
    var outstanding: nat
    var committing: bool
    ghost var adm: LogAdmission.State  // the outstanding operations

    constructor (c: Cache, geometry: Geometry, ghost budget: nat)
      requires budget <= MAXOPBLOCKS
      ensures cache == c && g == geometry && lh == [] && outstanding == 0 && !committing
      ensures adm == LogAdmission.Initial(g.size, budget)
    {
      cache, g, lh, outstanding, committing := c, geometry, [], 0, false;
      adm := LogAdmission.Initial(geometry.size, budget);
    }

    /** Exactly the logged blocks are pinned, and nobody holds a block of the log, or of the blocks r. */
    ghost predicate CacheFor(r: Geometry)
      reads this, cache
    {
      cache.Valid() && Listed(r, lh, |cache.disk|) &&
      (forall x :: Pinned(cache.bufs, x) <==> x in lh) &&
      (forall x :: InLog(r, x) ==> !Held(cache.bufs, x))
    }

    ghost predicate CacheOk()
      reads this, cache
    {
      CacheFor(g)
    }

    /** And the log's fields are those of a reachable state of the operations. */
    ghost predicate Valid()
      reads this, cache
    {
      CacheOk() && adm.size == g.size && adm.lh == lh && |adm.ops| == outstanding && adm.committing == committing &&
      LogAdmission.Reachable(adm)
    }

    method BreadTwo(x: nat, y: nat) returns (ok: bool, a: nat, b: nat)
      requires cache.Valid() && x < |cache.disk| && y < |cache.disk| && x != y
      requires !Held(cache.bufs, x) && !Held(cache.bufs, y)
      modifies cache`bufs
      ensures ok ==> cache.Valid() && a < NBUF && b < NBUF
      ensures ok ==> forall z :: 0 <= z < |cache.disk| ==> cache.ContentAt(z) == old(cache.ContentAt(z))
      ensures ok ==> cache.bufs[a] == Buf(DISK_DEV, x, true, Pinned(old(cache.bufs), x), 1, old(cache.ContentAt(x)))
      ensures ok ==> cache.bufs[b] == Buf(DISK_DEV, y, true, Pinned(old(cache.bufs), y), 1, old(cache.ContentAt(y)))
      ensures ok ==> forall z :: Pinned(cache.bufs, z) <==> Pinned(old(cache.bufs), z)
      ensures ok ==> forall z :: Held(cache.bufs, z) <==> z == x || z == y || Held(old(cache.bufs), z)
      ensures ok ==> Free(cache.bufs) == Free(old(cache.bufs)) - {a} - {b}
      ensures ok && Pinned(old(cache.bufs), x) ==> a !in Free(old(cache.bufs))
      ensures ok && Pinned(old(cache.bufs), y) ==> b !in Free(old(cache.bufs))
      ensures ok <==> |Free(old(cache.bufs))| >= Wants(old(cache.bufs), x) + Wants(old(cache.bufs), y)
    {
      hide Pinned, Held, Content, OneBufferPerBlock, Coherent, Ring, Free;
      b := 0;
      RemoveSize(Free(cache.bufs), 0);
      ok, a := cache.Bread(x);
      if !ok { return; }
      RemoveSize(Free(old(cache.bufs)), a);
      RemoveSize(Free(cache.bufs), a);
      ok, b := cache.Bread(y);
    }

    /** bread both blocks, memmove, bwrite the destination, brelse both. */
    method CopyBlock(src: nat, dst: nat, dstFirst: bool) returns (ok: bool)
      requires cache.Valid() && src < |cache.disk| && dst < |cache.disk| && src != dst
      requires !Held(cache.bufs, src) && !Held(cache.bufs, dst)
      modifies cache
      ensures !ok ==> cache.disk == old(cache.disk) && cache.trace == old(cache.trace)
      ensures ok ==> cache.Valid() && cache.disk == old(cache.disk)[dst := old(cache.ContentAt(src))]
      ensures ok ==> cache.trace == old(cache.trace) + [cache.disk]
      ensures ok ==> forall x :: 0 <= x < |cache.disk| ==>
                cache.ContentAt(x) == old(cache.ContentAt(if x == dst then src else x))
      ensures ok ==> forall x :: Pinned(cache.bufs, x) <==> (x != dst && Pinned(old(cache.bufs), x))
      ensures ok ==> forall x :: Held(cache.bufs, x) <==> Held(old(cache.bufs), x)
      ensures ok ==> Free(old(cache.bufs)) <= Free(cache.bufs)
      ensures ok && Pinned(old(cache.bufs), dst) && !Pinned(old(cache.bufs), src) ==>
        |Free(cache.bufs)| > |Free(old(cache.bufs))|
      ensures ok <==> |Free(old(cache.bufs))| >= Wants(old(cache.bufs), src) + Wants(old(cache.bufs), dst)
    {
      hide Pinned, Held, Content, OneBufferPerBlock, Coherent, Ring, Free;
      ghost var free0 := Free(cache.bufs);
      if !Pinned(cache.bufs, src) { CleanContent(cache.bufs, cache.disk, src); }
      var s, d;
      ok, s, d := BreadPair(src, dst, dstFirst);
      if !ok { return; }
      MoveBytes(s, d);
      ReleaseTwo(s, d);
      if Pinned(old(cache.bufs), dst) && !Pinned(old(cache.bufs), src) { MoreThan(free0, Free(cache.bufs), d); }
    }

    method BreadPair(src: nat, dst: nat, dstFirst: bool) returns (ok: bool, s: nat, d: nat)
      requires cache.Valid() && src < |cache.disk| && dst < |cache.disk| && src != dst
      requires !Held(cache.bufs, src) && !Held(cache.bufs, dst)
      modifies cache`bufs
      ensures ok ==> cache.Valid() && s < NBUF && d < NBUF && s != d
      ensures ok ==> forall z :: 0 <= z < |cache.disk| ==> cache.ContentAt(z) == old(cache.ContentAt(z))
      ensures ok ==> var c := old(cache.ContentAt(src));
        cache.bufs[s] == Buf(DISK_DEV, src, true, Pinned(old(cache.bufs), src), 1, c)
      ensures ok ==> var c := old(cache.ContentAt(dst));
        cache.bufs[d] == Buf(DISK_DEV, dst, true, Pinned(old(cache.bufs), dst), 1, c)
      ensures ok ==> forall z :: Pinned(cache.bufs, z) <==> Pinned(old(cache.bufs), z)
      ensures ok ==> forall z :: Held(cache.bufs, z) <==> z == src || z == dst || Held(old(cache.bufs), z)
      ensures ok ==> Free(cache.bufs) == Free(old(cache.bufs)) - {s} - {d}
      ensures ok && Pinned(old(cache.bufs), src) ==> s !in Free(old(cache.bufs))
      ensures ok && Pinned(old(cache.bufs), dst) ==> d !in Free(old(cache.bufs))
      ensures ok <==> |Free(old(cache.bufs))| >= Wants(old(cache.bufs), src) + Wants(old(cache.bufs), dst)
    {
      hide Pinned, Held, Content, OneBufferPerBlock, Coherent, Ring, Free, Wants;
      if dstFirst {
        ok, d, s := BreadTwo(dst, src);
      } else {
        ok, s, d := BreadTwo(src, dst);
      }
    }

    method ReleaseTwo(s: nat, d: nat)
      requires cache.Valid() && s < NBUF && d < NBUF && s != d && cache.bufs[s].dev == cache.bufs[d].dev == DISK_DEV
      requires cache.bufs[s].refcnt == cache.bufs[d].refcnt == 1 && cache.bufs[s].valid && cache.bufs[d].valid
      requires cache.bufs[s].blockno != cache.bufs[d].blockno && !cache.bufs[d].dirty
      requires !cache.bufs[s].dirty ==> cache.bufs[s].data == cache.disk[cache.bufs[s].blockno]
      requires cache.bufs[d].data == cache.disk[cache.bufs[d].blockno]
      modifies cache`bufs, cache`next, cache`prev, cache`order
      ensures cache.Valid() && forall x :: 0 <= x < |cache.disk| ==> cache.ContentAt(x) == old(cache.ContentAt(x))
      ensures forall x :: Pinned(cache.bufs, x) <==> Pinned(old(cache.bufs), x)
      ensures forall x :: Held(cache.bufs, x) <==>
        Held(old(cache.bufs), x) && x != old(cache.bufs)[s].blockno && x != old(cache.bufs)[d].blockno
      ensures Free(cache.bufs) == Free(old(cache.bufs)) + {d} + if old(cache.bufs)[s].dirty then {} else {s}
    {
      hide Pinned, Held, Content, OneBufferPerBlock, Coherent, Ring, Free;
      cache.Brelse(s);
      cache.Brelse(d);
    }

    method MoveBytes(s: nat, d: nat)
      requires cache.Valid() && s < NBUF && d < NBUF && s != d
      requires cache.bufs[d].refcnt > 0 && cache.bufs[d].valid && cache.bufs[d].dev == DISK_DEV
      modifies cache`bufs, cache`disk, cache`trace
      ensures cache.Valid()
      ensures cache.bufs == old(cache.bufs)[d := old(cache.bufs)[d].(data := old(cache.bufs)[s].data, dirty := false)]
      ensures cache.disk == old(cache.disk)[cache.bufs[d].blockno := cache.bufs[s].data]
      ensures cache.trace == old(cache.trace) + [cache.disk]
      ensures forall x :: 0 <= x < |cache.disk| ==>
                cache.ContentAt(x) == if x == cache.bufs[d].blockno then cache.bufs[s].data else old(cache.ContentAt(x))
      ensures forall x :: Pinned(cache.bufs, x) <==> x != cache.bufs[d].blockno && Pinned(old(cache.bufs), x)
      ensures (forall x :: Held(cache.bufs, x) <==> Held(old(cache.bufs), x))
      ensures Free(cache.bufs) == Free(old(cache.bufs))
    {
      hide Pinned, Held, Content, OneBufferPerBlock, Ring, Free;
      cache.SetData(d, cache.bufs[s].data);
      cache.Bwrite(d);
    }

    /** The header block is rewritten from the in-memory header. */
    method WriteHeader(blocks: seq<nat>, ghost r: Geometry) returns (ok: bool)
      requires cache.Valid() && Loggable(r, blocks, |cache.disk|) && r.start == g.start
      requires !Held(cache.bufs, g.start) && !Pinned(cache.bufs, g.start)
      modifies cache
      ensures !ok ==> cache.disk == old(cache.disk) && cache.trace == old(cache.trace)
      ensures ok ==> cache.Valid() && cache.disk == WriteHead(old(cache.disk), r, blocks)
      ensures |cache.disk| == |old(cache.disk)|
      ensures ok ==> cache.trace == old(cache.trace) + [cache.disk]
      ensures ok ==> forall x :: 0 <= x < |cache.disk| && x != g.start ==> cache.ContentAt(x) == old(cache.ContentAt(x))
      ensures ok ==> forall x :: Pinned(cache.bufs, x) <==> Pinned(old(cache.bufs), x)
      ensures ok ==> forall x :: Held(cache.bufs, x) <==> Held(old(cache.bufs), x)
      ensures ok <==> Free(old(cache.bufs)) != {}
      ensures ok ==> Free(old(cache.bufs)) <= Free(cache.bufs)
    {
      hide Pinned, Held, Content, OneBufferPerBlock, Coherent, Ring, Free;
      CleanContent(cache.bufs, cache.disk, g.start);
      var b;
      ok, b := cache.Bread(g.start);
      if !ok { return; }
      var header := Set32(cache.bufs[b].data, 0, |blocks|);
      for i := 0 to |blocks|
        invariant header == SetEntries(Set32(cache.bufs[b].data, 0, |blocks|), blocks, i)
      {
        header := Set32(header, 1 + i, blocks[i]);
      }
      cache.SetData(b, header);
      cache.Bwrite(b);
      cache.Brelse(b);
    }

    /** The transaction's contents, as the cache has them when commit begins. */
    ghost function Contents(): (c: seq<Block>)
      requires CacheOk()
      reads this, cache
      ensures |c| == |lh| && forall i :: 0 <= i < |lh| ==> c[i] == cache.ContentAt(lh[i])
    {
      ContentsOf(cache.bufs, cache.disk, lh)
    }

    /** There are blocks in r for all that is listed, or else no buffer to begin a commit with. */
    ghost predicate RoomIn(r: Geometry)
      reads this, cache
    {
      r.start == g.start && CacheFor(r) && (|lh| < r.size || (Free(cache.bufs) == {} && r.size > 1))
    }

    /** A commit has room: the blocks it writes are on the disk, nobody holds them, and they are none of the
        listed ones, or it stops at once for want of a buffer. */
    ghost predicate Room()
      reads this, cache
    {
      RoomIn(Reach(g, |lh|)) || RoomIn(g)
    }

    /** write_log: every logged block goes from the cache to the log; no home block is written. It
        stops before its first write if the cache has no buffer left. */
    method WriteLogBlocks(ghost r: Geometry) returns (ok: bool, ghost w: nat)
      requires CacheOk() && RoomIn(r) && forall x :: x in lh ==> !Held(cache.bufs, x)
      modifies cache
      ensures w <= |lh|
      ensures |lh| < r.size ==> cache.disk == WriteLog(old(cache.disk), r, old(Contents()), w)
      ensures |lh| < r.size ==> cache.trace == old(cache.trace) + LogStates(old(cache.disk), r, old(Contents()), w)
      ensures !ok ==> w == 0 && cache.disk == old(cache.disk) && cache.trace == old(cache.trace)
      ensures ok <==> lh == [] || Free(old(cache.bufs)) != {}
      ensures ok ==> Free(old(cache.bufs)) <= Free(cache.bufs)
      ensures ok ==> w == |lh| && CacheOk() && CacheFor(r) && Contents() == old(Contents())
      ensures ok ==> forall x :: 0 <= x < |cache.disk| && !InLog(r, x) ==> cache.ContentAt(x) == old(cache.ContentAt(x))
      ensures ok ==> forall x :: Held(cache.bufs, x) <==> Held(old(cache.bufs), x)
    {
      hide Pinned, Held, Content, OneBufferPerBlock, Coherent, Ring, Free, WriteLog, LogStates;
      ghost var d0, c := cache.disk, Contents();
      if |lh| < r.size { LogNone(d0, r, c); }
      ok, w := true, 0;
      var tail := 0;
      while tail < |lh|
        invariant tail == w <= |lh| && ok
        invariant CacheOk() && CacheFor(r) && |cache.disk| == |d0| && Free(old(cache.bufs)) <= Free(cache.bufs)
        invariant w > 0 ==> Free(old(cache.bufs)) != {} && |lh| < r.size
        invariant w == 0 ==> cache.bufs == old(cache.bufs) && cache.disk == d0 && cache.trace == old(cache.trace)
        invariant |lh| < r.size ==> cache.disk == WriteLog(d0, r, c, w)
        invariant |lh| < r.size ==> cache.trace == old(cache.trace) + LogStates(d0, r, c, w)
        invariant forall x :: 0 <= x < |d0| && !InLog(r, x) ==> cache.ContentAt(x) == old(cache.ContentAt(x))
        invariant forall x :: Held(cache.bufs, x) <==> Held(old(cache.bufs), x)
      {
        assert cache.ContentAt(lh[tail]) == c[tail];
        ok := CopyBlock(lh[tail], g.start + tail + 1, true);
        if !ok { return; }
        LogNext(d0, r, c, w);
        tail, w := tail + 1, w + 1;
      }
    }

    /** One block of the log copied to its home. */
    method InstallOne(tail: nat, ghost d0: seq<Block>, ghost r: Geometry) returns (ok: bool)
      requires tail < |lh| && cache.Valid() && |cache.disk| == |d0| && Loggable(r, lh, |d0|)
      requires cache.disk == Install(d0, r, lh, tail) && r.start == g.start
      requires !Held(cache.bufs, lh[tail])
      requires (forall x :: InLog(r, x) ==> !Held(cache.bufs, x) && !Pinned(cache.bufs, x))
      modifies cache
      ensures !ok ==> cache.disk == old(cache.disk) && cache.trace == old(cache.trace)
      ensures ok ==> cache.Valid() && cache.disk == Install(d0, r, lh, tail + 1)
      ensures ok ==> cache.trace == old(cache.trace) + [cache.disk]
      ensures ok ==> InstallStates(d0, r, lh, tail + 1) == InstallStates(d0, r, lh, tail) + [cache.disk]
      ensures ok ==> |cache.disk| == |d0| && forall x :: 0 <= x < |d0| ==>
        Content(cache.bufs, cache.disk, x) == if x == lh[tail] then d0[g.start + 1 + tail]
                                              else Content(old(cache.bufs), old(cache.disk), x)
      ensures ok ==> forall x :: Pinned(cache.bufs, x) <==> (x != lh[tail] && Pinned(old(cache.bufs), x))
      ensures ok ==> forall x :: Held(cache.bufs, x) <==> Held(old(cache.bufs), x)
      ensures ok ==> Free(old(cache.bufs)) <= Free(cache.bufs)
      ensures ok <==> |Free(old(cache.bufs))| >= 1 + Wants(old(cache.bufs), lh[tail])
      ensures ok ==> |Free(cache.bufs)| >= 2
    {
      hide Pinned, Held, Content, OneBufferPerBlock, Coherent, Ring, Install, InstallStates, Loggable, Free;
      LoggableAt(r, lh, |d0|, tail);
      var src, dst := g.start + tail + 1, lh[tail];
      CleanContent(cache.bufs, cache.disk, src);
      InstallNext(d0, r, lh, tail);
      ok := CopyBlock(src, dst, false);
      if ok {
        SubsetSize(Free(old(cache.bufs)), Free(cache.bufs));
        forall x | 0 <= x < |d0|
          ensures Content(cache.bufs, cache.disk, x) == if x == dst then d0[src]
                                                        else Content(old(cache.bufs), old(cache.disk), x)
        {
          assert cache.ContentAt(x) == old(cache.ContentAt(if x == dst then src else x));
        }
      }
    }

    /** install_trans: every block in the log goes to its home, which unpins it. */
    method InstallTrans(ghost r: Geometry) returns (ok: bool, ghost w: nat)
      requires cache.Valid() && Loggable(r, lh, |cache.disk|) && r.start == g.start
      requires forall x :: x in lh || InLog(r, x) ==> !Held(cache.bufs, x)
      requires forall x :: InLog(r, x) ==> !Pinned(cache.bufs, x)
      modifies cache
      ensures w <= |lh| && cache.disk == Install(old(cache.disk), r, lh, w) && |cache.disk| == |old(cache.disk)|
      ensures cache.trace == old(cache.trace) + InstallStates(old(cache.disk), r, lh, w)
      ensures ok <==> lh == [] || |Free(old(cache.bufs))| >= 1 + Wants(old(cache.bufs), lh[0])
      ensures ok ==> w == |lh| && cache.Valid() && Free(old(cache.bufs)) <= Free(cache.bufs)
      ensures ok ==> forall x :: Pinned(cache.bufs, x) <==> x !in lh && Pinned(old(cache.bufs), x)
      ensures ok ==> forall x :: Held(cache.bufs, x) <==> Held(old(cache.bufs), x)
      ensures ok ==> forall x :: 0 <= x < |cache.disk| && x !in lh ==> cache.ContentAt(x) == old(cache.ContentAt(x))
      ensures ok ==> forall i :: 0 <= i < |lh| ==> cache.ContentAt(lh[i]) == old(cache.disk)[g.start + 1 + i]
    {
      hide Pinned, Held, Content, OneBufferPerBlock, Coherent, Ring, Loggable, InLog, Free;
      hide Install, InstallStates, Among, InstalledTo;
      ghost var d0, bufs0 := cache.disk, cache.bufs;
      ok, w := true, 0;
      var tail := 0;
      InstalledNone(bufs0, d0, r, lh);
      while tail < |lh|
        invariant tail == w <= |lh| && ok
        invariant cache.Valid() && |cache.disk| == |d0| && cache.disk == Install(d0, r, lh, w)
        invariant cache.trace == old(cache.trace) + InstallStates(d0, r, lh, w)
        invariant InstalledTo(bufs0, cache.bufs, d0, cache.disk, r, lh, w) && Free(bufs0) <= Free(cache.bufs)
        invariant if tail == 0 then cache.bufs == bufs0
                  else |Free(cache.bufs)| >= 2 && |Free(bufs0)| >= 1 + Wants(bufs0, lh[0])
      {
        ghost var bufs1, disk1 := cache.bufs, cache.disk;
        InstalledSoFar(bufs0, bufs1, d0, disk1, r, lh, w);
        LoggableAt(r, lh, |d0|, tail);
        ok := InstallOne(tail, d0, r);
        if !ok { return; }
        InstalledNext(bufs0, bufs1, cache.bufs, d0, disk1, cache.disk, r, lh, w);
        tail, w := tail + 1, w + 1;
      }
      InstalledAll(bufs0, cache.bufs, d0, cache.disk, r, lh);
    }

    /** The first half of commit: write_log, and the header that is the commit point. */
    method WriteTransaction(ghost r: Geometry) returns (ok: bool, ghost w: nat)
      requires CacheOk() && RoomIn(r) && lh != [] && forall x :: x in lh ==> !Held(cache.bufs, x)
      modifies cache
      ensures ok <==> Free(old(cache.bufs)) != {}
      ensures !ok ==> w == 0 && cache.disk == old(cache.disk) && cache.trace == old(cache.trace)
      ensures ok ==> w == |lh| + 1 && |lh| < r.size && cache.Valid() && Listed(r, lh, |cache.disk|)
      ensures ok ==> cache.disk == CommitState(old(cache.disk), r, lh, old(Contents()), w)
      ensures ok ==> cache.trace == old(cache.trace) + CommitStates(old(cache.disk), r, lh, old(Contents()), w)
      ensures ok ==> cache.disk == WriteHead(WriteLog(old(cache.disk), r, old(Contents()), |lh|), r, lh)
      ensures ok ==> Free(old(cache.bufs)) <= Free(cache.bufs)
      ensures ok ==> forall x :: Pinned(cache.bufs, x) <==> x in lh
      ensures ok ==> forall x :: Held(cache.bufs, x) <==> Held(old(cache.bufs), x)
      ensures ok ==> forall x :: 0 <= x < |cache.disk| && !InLog(r, x) ==> cache.ContentAt(x) == old(cache.ContentAt(x))
    {
      hide Pinned, Held, Content, OneBufferPerBlock, Coherent, Ring, Free;
      hide CommitState, CommitStates, LogStates, InstallStates, WriteLog, Install, WriteHead;
      ghost var d0, c := cache.disk, Contents();
      ok, w := WriteLogBlocks(r);
      if !ok { return; }
      ok := WriteHeader(lh, r);
      w := |lh| + 1;
      CommitPhases(d0, r, lh, c, 0);
    }

    /** The second half: install_trans, and the empty header. */
    method InstallTransaction(ghost r: Geometry)
      requires cache.Valid() && Loggable(r, lh, |cache.disk|) && r.start == g.start
      requires Free(cache.bufs) != {} && forall x :: Pinned(cache.bufs, x) <==> x in lh
      requires forall x :: x in lh || InLog(r, x) ==> !Held(cache.bufs, x)
      modifies this`lh, cache
      ensures lh == [] && cache.Valid() && |cache.disk| == |old(cache.disk)|
      ensures cache.disk == WriteHead(Install(old(cache.disk), r, old(lh), |old(lh)|), r, [])
      ensures cache.trace == old(cache.trace) + InstallStates(old(cache.disk), r, old(lh), |old(lh)|) + [cache.disk]
      ensures forall x :: !Pinned(cache.bufs, x)
      ensures forall x :: Held(cache.bufs, x) <==> Held(old(cache.bufs), x)
      ensures forall x :: 0 <= x < |cache.disk| && x !in old(lh) && !InLog(r, x) ==>
        cache.ContentAt(x) == old(cache.ContentAt(x))
      ensures forall i :: 0 <= i < |old(lh)| ==> cache.ContentAt(old(lh)[i]) == old(cache.disk)[g.start + 1 + i]
    {
      hide Pinned, Held, Content, OneBufferPerBlock, Coherent, Ring, Free, InstallStates, Install, WriteHead;
      RemoveSize(Free(cache.bufs), 0);
      var ok;
      ghost var j;
      ok, j := InstallTrans(r);
      lh := [];
      ok := WriteHeader(lh, r);
    }

    /** commit. After w disk writes the disk is exactly the w-th stage of a commit of the pinned blocks;
        run to the end, the log is empty, nothing is pinned and every block reads as before. It writes
        the blocks of Reach(g, |lh|), which are those of the log if there are log blocks enough. */
    method Commit() returns (ok: bool, ghost w: nat)
      requires CacheOk() && Room() && committing && forall x :: x in lh ==> !Held(cache.bufs, x)
      modifies this`lh, cache
      ensures ok <==> old(lh) == [] || Free(old(cache.bufs)) != {}
      ensures ok ==> old(CacheFor(Reach(g, |lh|)))
      ensures !ok ==> w == 0 && cache.disk == old(cache.disk) && cache.trace == old(cache.trace)
      ensures ok ==> CacheOk() && lh == [] && w == if old(lh) == [] then 0 else 2 * |old(lh)| + 2
      ensures ok ==> cache.disk == CommitState(old(cache.disk), Reach(g, |old(lh)|), old(lh), old(Contents()), w)
      ensures ok ==>
        cache.trace ==
          old(cache.trace) + CommitStates(old(cache.disk), Reach(g, |old(lh)|), old(lh), old(Contents()), w)
      ensures ok ==> forall x :: 0 <= x < |cache.disk| && !InLog(Reach(g, |old(lh)|), x) ==>
        cache.ContentAt(x) == old(cache.ContentAt(x))
      ensures ok ==> forall x :: Held(cache.bufs, x) <==> Held(old(cache.bufs), x)
    {
      hide Pinned, Held, Content, OneBufferPerBlock, Coherent, Ring, Free;
      hide CommitState, CommitStates, LogStates, InstallStates, WriteLog, Install, WriteHead;
      ghost var d0, c, r, n := cache.disk, Contents(), Reach(g, |lh|), |lh|;
      if |lh| == 0 {
        CommitPhases(d0, g, lh, c, 0);
        return true, 0;
      }
      if !RoomIn(r) { r := g; }
      ok, w := WriteTransaction(r);
      if !ok { return; }
      LoggedBlocks(d0, r, lh, c);
      CommitPhases(d0, r, lh, c, n);
      InstallTransaction(r);
      w := 2 * n + 2;
    }

    /** read_head */
    method ReadHead() returns (ok: bool)
      requires cache.Valid() && HeaderOk(cache.disk, g) && !Held(cache.bufs, g.start) && !Pinned(cache.bufs, g.start)
      modifies this`lh, cache
      ensures cache.disk == old(cache.disk) && cache.trace == old(cache.trace)
      ensures ok <==> Free(old(cache.bufs)) != {}
      ensures ok ==> lh == Decode(cache.disk[g.start]) && cache.Valid() && Free(old(cache.bufs)) <= Free(cache.bufs)
      ensures ok ==> forall x :: Pinned(cache.bufs, x) <==> Pinned(old(cache.bufs), x)
      ensures ok ==> forall x :: Held(cache.bufs, x) <==> Held(old(cache.bufs), x)
    {
      hide Pinned, Held, Content, OneBufferPerBlock, Coherent, Ring, Free;
      CleanContent(cache.bufs, cache.disk, g.start);
      var b;
      ok, b := cache.Bread(g.start);
      if !ok { return; }
      var header := cache.bufs[b].data;
      var blocks := [];
      for i := 0 to Get32(header, 0)
        invariant blocks == Decode(header)[..i]
      {
        blocks := blocks + [Get32(header, 1 + i)];
      }
      lh := blocks;
      cache.Brelse(b);
    }

    /** recover_from_log, at boot. Whether it finishes or is cut short after w disk writes, the disk is
        the w-th stage of recovery. */
    method Recover() returns (ghost w: nat)
      requires cache.Valid() && HeaderOk(cache.disk, g)
      requires forall i :: 0 <= i < NBUF ==> cache.bufs[i].refcnt == 0 && !cache.bufs[i].dirty
      requires outstanding == 0 && !committing
      requires adm == LogAdmission.Initial(g.size, adm.budget) && adm.budget <= MAXOPBLOCKS
      modifies this`lh, cache
      ensures cache.disk == RecoverState(old(cache.disk), g, w)
      ensures cache.trace == old(cache.trace) + RecoverStates(old(cache.disk), g, w)
      ensures Valid() && lh == [] && cache.disk == Recovered(old(cache.disk), g)
    {
      AllFree(cache.bufs, NBUF);
      BootReachable(g.size, adm.budget);
      hide Free, Pinned, Held;
      w := Replay();
    }

    /** recover_from_log with two buffers to spare. */
    method Replay() returns (ghost w: nat)
      requires cache.Valid() && HeaderOk(cache.disk, g) && |Free(cache.bufs)| >= 2
      requires forall x :: !Pinned(cache.bufs, x) && !Held(cache.bufs, x)
      modifies this`lh, cache
      ensures cache.disk == RecoverState(old(cache.disk), g, w) == Recovered(old(cache.disk), g)
      ensures cache.trace == old(cache.trace) + RecoverStates(old(cache.disk), g, w)
      ensures CacheOk() && lh == []
    {
      hide Pinned, Held, Content, OneBufferPerBlock, Coherent, Ring, Free, Recovered, RecoverStates;
      hide Install, InstallStates, WriteHead, RecoverState;
      ghost var d0, free0 := cache.disk, Free(cache.bufs);
      RecoverStages(d0, g);
      var ok := ReadHead();
      SubsetSize(free0, Free(cache.bufs));
      ghost var n := |lh|;
      ok, w := InstallTrans(g);
      RecoverPhases(d0, g, w);
      lh := [];
      ok := WriteHeader(lh, g);
      w := n + 1;
    }

    /** One pass of begin_op's loop: join the transaction, or sleep. */
    method BeginOp() returns (admitted: bool)
      requires Valid()
      modifies this`outstanding, this`adm
      ensures Valid() && (admitted <==> LogAdmission.Enabled(old(adm), LogAdmission.Begin))
      ensures admitted <==> !committing && |lh| + (old(outstanding) + 1) * 10 <= 30
      ensures outstanding == old(outstanding) + if admitted then 1 else 0
      ensures adm == if admitted then LogAdmission.Next(old(adm), LogAdmission.Begin) else old(adm)
    {
      admitted := !committing && |lh| + (outstanding + 1) * MAXOPBLOCKS <= LOGSIZE;
      if admitted {
        LogAdmission.ReachableNext(adm, LogAdmission.Begin);
        outstanding := outstanding + 1;
        adm := LogAdmission.Next(adm, LogAdmission.Begin);
      }
    }

    /** The tests at the start of log_write, which take no lock. They come before the search, so a full log
        stops even a write that would be absorbed. */
    method LogWriteTest(b: nat, ghost op: nat) returns (passed: bool)
      requires Valid() && b < NBUF && LogAdmission.InBudget(adm, op, cache.bufs[b].blockno)
      requires adm.ops[op].probe == LogAdmission.Outside
      modifies this`adm
      ensures Valid() && (passed <==> !LogAdmission.TooBig(old(adm)))
      ensures passed <==> |lh| < 30 && |lh| + 1 < g.size
      ensures adm == if passed then LogAdmission.Next(old(adm), LogAdmission.Test(op, cache.bufs[b].blockno))
                     else old(adm)
    {
      passed := !(|lh| >= LOGSIZE || |lh| >= g.size - 1 || outstanding < 1);
      if passed {
        ghost var st := LogAdmission.Test(op, cache.bufs[b].blockno);
        LogAdmission.ReachableNext(adm, st);
        adm := LogAdmission.Next(adm, st);
      }
    }

    /** The rest of log_write, under the lock: the block is recorded once and its buffer pinned. Other operations
        may have inserted blocks since the test. */
    method LogWriteInsert(b: nat, ghost op: nat)
      requires Valid() && b < NBUF && cache.bufs[b].refcnt > 0 && cache.bufs[b].valid && cache.bufs[b].dev == DISK_DEV
      requires !InLog(g, cache.bufs[b].blockno) && op < |adm.ops|
      requires adm.ops[op].probe == LogAdmission.Passed(cache.bufs[b].blockno)
      modifies this`lh, this`adm, cache`bufs
      ensures Valid() && adm == LogAdmission.Next(old(adm), LogAdmission.Insert(op))
      ensures cache.bufs == old(cache.bufs)[b := old(cache.bufs)[b].(dirty := true)]
      ensures var x := cache.bufs[b].blockno; lh == if x in old(lh) then old(lh) else old(lh) + [x]
      ensures forall x :: 0 <= x < |cache.disk| ==> cache.ContentAt(x) == old(cache.ContentAt(x))
    {
      hide Pinned, Held, Content, OneBufferPerBlock, Ring, Free;
      var x := cache.bufs[b].blockno;
      ListingFits(adm, op);
      LogAdmission.ReachableNext(adm, LogAdmission.Insert(op));
      var i := 0;
      while i < |lh| && lh[i] != x
        invariant 0 <= i <= |lh| && x !in lh[..i]
      {
        i := i + 1;
      }
      ghost var was := lh;
      if i == |lh| {
        assert lh[..|lh|] == lh;
        ListedAppend(g, lh, |cache.disk|, x);
        lh := lh + [x];
      } else {
        assert lh[i := x] == lh;
        lh := lh[i := x];
      }
      assert forall y :: y in lh <==> y == x || y in was;
      cache.Pin(b);
      adm := LogAdmission.Next(adm, LogAdmission.Insert(op));
    }

    /** end_op: the last operation out commits, with begin_op held off meanwhile. The commit panics exactly when
        the log is not empty and no buffer can be recycled. */
    method EndOp(ghost op: nat) returns (ok: bool, ghost w: nat)
      requires Valid() && op < |adm.ops| && adm.ops[op].probe == LogAdmission.Outside && !committing
      requires outstanding == 1 ==> Room() && forall x :: x in lh ==> !Held(cache.bufs, x)
      modifies this, cache
      ensures outstanding == old(outstanding) - 1
      ensures ok <==> outstanding > 0 || old(lh) == [] || Free(old(cache.bufs)) != {}
      ensures ok ==> Valid() && var ended := LogAdmission.Next(old(adm), LogAdmission.End(op));
        adm == if outstanding == 0 then LogAdmission.Next(ended, LogAdmission.Committed) else ended
      ensures outstanding > 0 ==> w == 0 && cache.disk == old(cache.disk) && cache.trace == old(cache.trace)
      ensures !ok ==> w == 0 && cache.disk == old(cache.disk) && cache.trace == old(cache.trace)
      ensures ok && outstanding == 0 ==> old(CacheFor(Reach(g, |lh|))) && w <= 2 * |old(lh)| + 2
      ensures ok && outstanding == 0 ==>
        cache.disk == CommitState(old(cache.disk), Reach(g, |old(lh)|), old(lh), old(Contents()), w)
      ensures ok && outstanding == 0 ==>
        cache.trace ==
          old(cache.trace) + CommitStates(old(cache.disk), Reach(g, |old(lh)|), old(lh), old(Contents()), w)
      ensures ok ==> forall x :: 0 <= x < |cache.disk| && !InLog(Reach(g, |old(lh)|), x) ==>
        cache.ContentAt(x) == old(cache.ContentAt(x))
    {
      hide Pinned, Held, Content, OneBufferPerBlock, Coherent, Ring, CommitState, CommitStates, Free;
      LogAdmission.ReachableNext(adm, LogAdmission.End(op));
      adm := LogAdmission.Next(adm, LogAdmission.End(op));
      outstanding := outstanding - 1;
      ok, w := true, 0;
      if outstanding == 0 {
        committing := true;
        LogAdmission.ReachableNext(adm, LogAdmission.Committed);
        ok, w := Commit();
        if ok {
          committing := false;
          adm := LogAdmission.Next(adm, LogAdmission.Committed);
        }
      }
    }
  }

  /** In a log of at least LOGSIZE blocks, as mkfs makes it, the last end_op never writes past the log: either
      fewer blocks are listed than the log has, or every buffer is pinned and the commit stops before its
      first write. */
  lemma {:induction false} CommitStaysInside(s: LogAdmission.State, bufs: seq<Buf>, disk: seq<Block>)
    requires LogAdmission.Reachable(s) && s.size >= LOGSIZE
    requires |bufs| == NBUF && OneBufferPerBlock(bufs) && Coherent(bufs, disk)
    requires forall x :: Pinned(bufs, x) <==> x in s.lh
    ensures |s.lh| < s.size || (Free(bufs) == {} && s.size > 1)
  {
    LogAdmission.ReachableInv(s);
    FreeUnlessAllPinned(bufs, disk, s.lh);
  }

  /** And when no operation uses all of its MAXOPBLOCKS the commit always fits and completes. */
  lemma {:induction false} CommitCompletes(s: LogAdmission.State, bufs: seq<Buf>, disk: seq<Block>)
    requires LogAdmission.Reachable(s) && s.size >= LOGSIZE && s.budget < MAXOPBLOCKS
    requires |bufs| == NBUF && OneBufferPerBlock(bufs) && Coherent(bufs, disk)
    requires (forall x :: Pinned(bufs, x) <==> x in s.lh) && forall i :: 0 <= i < NBUF ==> bufs[i].refcnt == 0
    ensures |s.lh| < s.size && Free(bufs) != {}
  {
    LogAdmission.ReachableInv(s);
    FreeUnlessAllPinned(bufs, disk, s.lh);
  }

  lemma {:induction false} AllFree(bufs: seq<Buf>, n: nat)
    requires |bufs| == n && forall i :: 0 <= i < n ==> bufs[i].refcnt == 0 && !bufs[i].dirty
    ensures |Free(bufs)| == n && forall x :: !Pinned(bufs, x) && !Held(bufs, x)
  {
    assert Free(bufs) == Interval(0, n);
  }

  /** An operation within its budget that inserts a new block finds fewer than LOGSIZE listed. */
  lemma {:induction false} ListingFits(s: LogAdmission.State, op: nat)
    requires LogAdmission.Reachable(s) && op < |s.ops| && s.ops[op].probe.Passed?
    ensures s.ops[op].probe.block !in s.lh ==> |s.lh| < LOGSIZE
  {
    LogAdmission.ReachableInv(s);
    assert LogAdmission.OpOk(s.ops[op], s.lh, s.budget);
    if s.ops[op].probe.block !in s.lh { LogAdmission.AppendFits(s, op, s.ops[op].probe.block); }
  }
}
