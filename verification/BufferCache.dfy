/** bio.c over the disk of memide.c: a fixed set of buffers on a doubly linked ring, most recently
  used first. Pointers between buffers are indices; index NBUF is the ring's head. */
module BufferCache {
  import opened Params
  import opened SetSizes
  import opened DiskBlocks

  const HEAD: nat := NBUF
  const DISK_DEV: nat := 1

  datatype Buf = Buf(dev: nat, blockno: nat, valid: bool, dirty: bool, refcnt: nat, data: Block)

  // ----- the ring -----

  /** Position k of the ring, the head being at -1 and at the end. */
  function At(order: seq<nat>, k: int): nat { if 0 <= k < |order| then order[k] else HEAD }

  ghost predicate Ring(next: seq<nat>, prev: seq<nat>, order: seq<nat>)
  {
    |next| == |prev| == NBUF + 1 &&
    (forall k :: 0 <= k < |order| ==> order[k] < NBUF) &&
    Distinct(order) &&
    (forall k :: 0 <= k <= |order| ==> next[At(order, k - 1)] == At(order, k)) &&
    (forall k :: 0 <= k <= |order| ==> prev[At(order, k)] == At(order, k - 1))
  }

  /** Linking b right behind the head puts it first. */
  lemma {:induction false} RingInsert(next: seq<nat>, prev: seq<nat>, order: seq<nat>, b: nat)
    requires Ring(next, prev, order) && b < NBUF && b !in order
    ensures next[HEAD] <= NBUF
    ensures Ring(next[b := next[HEAD]][HEAD := b], prev[b := HEAD][next[HEAD] := b], [b] + order)
  {
    var order' := [b] + order;
    assert next[At(order, -1)] == At(order, 0);
    var next', prev' := next[b := next[HEAD]][HEAD := b], prev[b := HEAD][next[HEAD] := b];
    forall k | 0 <= k <= |order'|
      ensures next'[At(order', k - 1)] == At(order', k) && prev'[At(order', k)] == At(order', k - 1)
    {
      if k >= 1 {
        assert At(order', k) == At(order, k - 1);
        assert k >= 2 ==> At(order', k - 1) == At(order, k - 2);
        assert next[At(order, k - 2)] == At(order, k - 1) && prev[At(order, k - 1)] == At(order, k - 2);
      }
    }
  }

  function Unlinked(order: seq<nat>, k: nat): seq<nat>
    requires k < |order|
  {
    order[..k] + order[k + 1..]
  }

  /** Unlinking the buffer at position k leaves the others in order. */
  lemma {:induction false} RingRemove(next: seq<nat>, prev: seq<nat>, order: seq<nat>, k: nat)
    requires Ring(next, prev, order) && k < |order|
    ensures var b := order[k];
            next[b] <= NBUF && prev[b] <= NBUF &&
            Ring(next[prev[b] := next[b]], prev[next[b] := prev[b]], Unlinked(order, k))
    ensures order[k] !in Unlinked(order, k)
  {
    var b := order[k];
    var order' := Unlinked(order, k);
    assert next[At(order, k)] == At(order, k + 1) && prev[At(order, k)] == At(order, k - 1);
    var next', prev' := next[prev[b] := next[b]], prev[next[b] := prev[b]];
    forall j | 0 <= j <= |order'|
      ensures next'[At(order', j - 1)] == At(order', j) && prev'[At(order', j)] == At(order', j - 1)
    {
      assert next[At(order, j - 1)] == At(order, j) && prev[At(order, j)] == At(order, j - 1);
      assert next[At(order, j)] == At(order, j + 1) && prev[At(order, j + 1)] == At(order, j);
    }
  }

  // ----- contents -----

  predicate Holds(b: Buf, dev: nat, blockno: nat) { b.dev == dev && b.blockno == blockno }

  /** For every device but 0 (which unused buffers name), one buffer per block. */
  ghost predicate OneBufferPerBlock(bufs: seq<Buf>)
  {
    forall i, j :: 0 <= i < j < |bufs| && bufs[i].dev != 0 ==> !Holds(bufs[j], bufs[i].dev, bufs[i].blockno)
  }

  /** A buffer that is neither held nor pinned has what the disk has. */
  ghost predicate Coherent(bufs: seq<Buf>, disk: seq<Block>)
  {
    (forall i :: 0 <= i < |bufs| && bufs[i].dirty ==> bufs[i].dev == DISK_DEV) &&
    forall i :: 0 <= i < |bufs| && bufs[i].dev == DISK_DEV ==>
      bufs[i].blockno < |disk| && (bufs[i].dirty ==> bufs[i].valid) &&
      (bufs[i].valid && !bufs[i].dirty && bufs[i].refcnt == 0 ==> bufs[i].data == disk[bufs[i].blockno])
  }

  ghost predicate Cached(bufs: seq<Buf>, x: nat)
  {
    exists i :: 0 <= i < |bufs| && bufs[i].valid && Holds(bufs[i], DISK_DEV, x)
  }

  /** The latest contents of block x: its buffer if one is filled, the disk otherwise. */
  ghost function Content(bufs: seq<Buf>, disk: seq<Block>, x: nat): Block
    requires x < |disk|
  {
    if Cached(bufs, x) then
      var i :| 0 <= i < |bufs| && bufs[i].valid && Holds(bufs[i], DISK_DEV, x);
      bufs[i].data
    else disk[x]
  }

  lemma {:induction false} ContentOf(bufs: seq<Buf>, disk: seq<Block>, i: nat)
    requires OneBufferPerBlock(bufs) && i < |bufs| && bufs[i].valid && bufs[i].dev == DISK_DEV
    requires bufs[i].blockno < |disk|
    ensures Content(bufs, disk, bufs[i].blockno) == bufs[i].data
  {
    assert Holds(bufs[i], DISK_DEV, bufs[i].blockno);
  }

  /** Changing one buffer leaves alone the contents of blocks it did not and does not hold. */
  lemma {:induction false} ContentElsewhere(bufs: seq<Buf>, disk: seq<Block>, i: nat, b: Buf, x: nat)
    requires i < |bufs| && x < |disk| && OneBufferPerBlock(bufs) && OneBufferPerBlock(bufs[i := b])
    requires !(bufs[i].valid && Holds(bufs[i], DISK_DEV, x)) && !(b.valid && Holds(b, DISK_DEV, x))
    ensures Content(bufs[i := b], disk, x) == Content(bufs, disk, x)
  {
    var bufs' := bufs[i := b];
    if j :| 0 <= j < |bufs| && bufs[j].valid && Holds(bufs[j], DISK_DEV, x) {
      assert bufs'[j] == bufs[j];
      ContentOf(bufs, disk, j);
      ContentOf(bufs', disk, j);
    } else {
      forall j | 0 <= j < |bufs'| ensures !(bufs'[j].valid && Holds(bufs'[j], DISK_DEV, x)) {
        assert j != i ==> bufs'[j] == bufs[j];
      }
    }
  }

  /** Some buffer of the block is pinned: modified, logged, not yet written home. */
  ghost predicate Pinned(bufs: seq<Buf>, x: nat)
  {
    exists i :: 0 <= i < |bufs| && bufs[i].dirty && Holds(bufs[i], DISK_DEV, x)
  }

  ghost predicate Held(bufs: seq<Buf>, x: nat)
  {
    exists i :: 0 <= i < |bufs| && bufs[i].refcnt > 0 && Holds(bufs[i], DISK_DEV, x)
  }

  /** The buffers that bget may recycle. */
  ghost function Free(bufs: seq<Buf>): set<nat>
  {
    set i: nat | i < |bufs| && bufs[i].refcnt == 0 && !bufs[i].dirty
  }

  /** With every buffer free of holders, one can be recycled exactly when fewer blocks than buffers are pinned. */
  lemma {:induction false} FreeUnlessAllPinned(bufs: seq<Buf>, disk: seq<Block>, lh: seq<nat>)
    requires |bufs| == NBUF && OneBufferPerBlock(bufs) && Coherent(bufs, disk)
    requires (forall x :: Pinned(bufs, x) <==> x in lh) && Distinct(lh)
    ensures |lh| == NBUF ==> Free(bufs) == {}
    ensures (forall i :: 0 <= i < NBUF ==> bufs[i].refcnt == 0) ==> (Free(bufs) == {} <==> |lh| == NBUF)
  {
    var dirty := PinnedBy(bufs, lh);
    forall i | 0 <= i < |lh| ensures Pinned(bufs, lh[i]) { assert lh[i] in lh; }
    PinnedByCount(bufs, lh);
    assert forall i: nat :: i in dirty ==> i < NBUF && bufs[i].dirty;
    FullBelow(dirty, NBUF);
    if Free(bufs) == {} && forall i :: 0 <= i < NBUF ==> bufs[i].refcnt == 0 {
      forall i: nat | i < NBUF ensures i in dirty {
        assert i !in Free(bufs);
        assert Holds(bufs[i], DISK_DEV, bufs[i].blockno) && Pinned(bufs, bufs[i].blockno);
      }
    }
    hide PinnedBy, Interval, OneBufferPerBlock, Coherent;
  }

  lemma {:induction false} FullBelow(a: set<nat>, n: nat)
    requires forall i :: i in a ==> i < n
    ensures |a| == n <==> forall i: nat :: i < n ==> i in a
  {
    if |a| == n {
      forall i: nat | i < n ensures i in a {
        if i !in a { SubsetSize(a, Interval(0, n) - {i}); }
      }
    }
    if forall i: nat :: i < n ==> i in a { assert a == Interval(0, n); }
  }

  predicate Pins(b: Buf, blocks: seq<nat>) { b.dirty && b.dev == DISK_DEV && b.blockno in blocks }

  /** The buffers that pin the given blocks. */
  ghost function PinnedBy(bufs: seq<Buf>,
                          blocks: seq<nat>): set<nat> { set i: nat | i < |bufs| && Pins(bufs[i], blocks) }

  lemma {:induction false} PinnedByCount(bufs: seq<Buf>, blocks: seq<nat>)
    requires OneBufferPerBlock(bufs) && (forall i :: 0 <= i < |blocks| ==> Pinned(bufs, blocks[i]))
    requires forall i, j :: 0 <= i < j < |blocks| ==> blocks[i] != blocks[j]
    ensures |PinnedBy(bufs, blocks)| == |blocks|
  {
    if blocks == [] {
      assert PinnedBy(bufs, blocks) == {};
    } else {
      var rest, x := blocks[..|blocks| - 1], blocks[|blocks| - 1];
      assert blocks == rest + [x] && x !in rest;
      assert forall i :: 0 <= i < |rest| ==> rest[i] == blocks[i];
      PinnedByCount(bufs, rest);
      assert Pinned(bufs, x);
      var b: nat :| b < |bufs| && bufs[b].dirty && Holds(bufs[b], DISK_DEV, x);
      PinnedByOne(bufs, rest, x, b);
    }
  }

  lemma {:induction false} PinnedByOne(bufs: seq<Buf>, rest: seq<nat>, x: nat, b: nat)
    requires OneBufferPerBlock(bufs) && x !in rest && b < |bufs| && bufs[b].dirty && Holds(bufs[b], DISK_DEV, x)
    ensures PinnedBy(bufs, rest + [x]) == PinnedBy(bufs, rest) + {b} && b !in PinnedBy(bufs, rest)
  {
    forall i: nat | i < |bufs| ensures Pins(bufs[i], rest + [x]) <==> Pins(bufs[i], rest) || i == b {
      assert bufs[i].dev == DISK_DEV && bufs[i].blockno == x ==> i == b;
    }
  }

  /** A block that is neither pinned nor held reads as the disk has it. */
  lemma {:induction false} CleanContent(bufs: seq<Buf>, disk: seq<Block>, x: nat)
    requires x < |disk| && OneBufferPerBlock(bufs) && Coherent(bufs, disk) && !Pinned(bufs, x) && !Held(bufs, x)
    ensures Content(bufs, disk, x) == disk[x]
  {
    if Cached(bufs, x) {
      var i :| 0 <= i < |bufs| && bufs[i].valid && Holds(bufs[i], DISK_DEV, x);
      ContentOf(bufs, disk, i);
    }
  }

  lemma {:induction false} UseAfter(bufs: seq<Buf>, i: nat, b: Buf)
    requires i < |bufs| && OneBufferPerBlock(bufs) && OneBufferPerBlock(bufs[i := b])
    ensures forall x :: Pinned(bufs[i := b], x) <==>
            ((b.dirty && Holds(b, DISK_DEV, x)) || (Pinned(bufs, x) && !(bufs[i].dirty && Holds(bufs[i], DISK_DEV, x))))
    ensures forall x :: Held(bufs[i := b], x) <==>
            ((b.refcnt > 0 && Holds(b, DISK_DEV, x)) ||
              (Held(bufs, x) && !(bufs[i].refcnt > 0 && Holds(bufs[i], DISK_DEV, x))))
  {
    var bufs' := bufs[i := b];
    assert bufs'[i] == b;
    assert forall j :: 0 <= j < |bufs| && j != i ==> bufs'[j] == bufs[j];
    assert forall j, x :: 0 <= j < |bufs| && j != i && Holds(bufs[i], DISK_DEV, x) ==> !Holds(bufs[j], DISK_DEV, x);
  }

  class Cache {
    var disk: seq<Block>
    var bufs: seq<Buf>
    var next: seq<nat>
    var prev: seq<nat>
    ghost var order: seq<nat>
    ghost var trace: seq<seq<Block>>     // the disk after each write so far

    ghost predicate Valid()
      reads this
    {
      |bufs| == NBUF && |order| == NBUF && Ring(next, prev, order) &&
      OneBufferPerBlock(bufs) && Coherent(bufs, disk)
    }

    ghost function ContentAt(x: nat): Block
      requires x < |disk|
      reads this
    {
      Content(bufs, disk, x)
    }

    /** binit, at boot: no buffer names a block of the disk. */
    constructor (image: seq<Block>)
      ensures Valid() && disk == image && trace == []
      ensures forall i :: 0 <= i < NBUF ==> bufs[i] == Buf(0, 0, false, false, 0, ZeroBlock())
      ensures forall x :: 0 <= x < |image| ==> ContentAt(x) == image[x]
    {
      disk, trace := image, [];
      bufs := seq(NBUF, _ => Buf(0, 0, false, false, 0, ZeroBlock()));
      next := seq(NBUF + 1, _ => HEAD);
      prev := seq(NBUF + 1, _ => HEAD);
      order := [];
      new;
      for b := 0 to NBUF
        invariant Ring(next, prev, order) && |order| == b && forall k :: 0 <= k < |order| ==> order[k] < b
        invariant disk == image && trace == [] && |bufs| == NBUF
        invariant forall i :: 0 <= i < NBUF ==> bufs[i] == Buf(0, 0, false, false, 0, ZeroBlock())
      {
        RingInsert(next, prev, order, b);
        next := next[b := next[HEAD]];
        prev := prev[b := HEAD];
        prev := prev[next[HEAD] := b];
        next := next[HEAD := b];
        order := [b] + order;
      }
    }

    /** The first loop of bget: follow next from the head. */
    method Find(dev: nat, blockno: nat) returns (b: nat)
      requires Valid()
      ensures b <= NBUF
      ensures b < NBUF ==> Holds(bufs[b], dev, blockno)
      ensures b == NBUF ==> forall i :: 0 <= i < NBUF ==> !Holds(bufs[i], dev, blockno)
    {
      ghost var k := 0;
      assert next[At(order, -1)] == At(order, 0);
      b := next[HEAD];
      while b != HEAD
        invariant 0 <= k <= NBUF && b == At(order, k)
        invariant forall j :: 0 <= j < k ==> !Holds(bufs[order[j]], dev, blockno)
        decreases NBUF - k
      {
        if Holds(bufs[b], dev, blockno) {
          return;
        }
        assert next[At(order, k)] == At(order, k + 1);
        b := next[b];
        k := k + 1;
      }
      OrderCovers(order);
      forall i | 0 <= i < NBUF ensures !Holds(bufs[i], dev, blockno) {
        assert i in order;
      }
    }

    /** The second loop of bget: follow prev from the head to the least recently used free buffer.
        A pinned buffer is never a candidate. */
    method FindFree() returns (b: nat)
      requires Valid()
      ensures b <= NBUF
      ensures b < NBUF ==> bufs[b].refcnt == 0 && !bufs[b].dirty
      ensures b < NBUF ==>
                (exists k :: 0 <= k < NBUF && order[k] == b &&
                             forall j :: k < j < NBUF ==> bufs[order[j]].refcnt != 0 || bufs[order[j]].dirty)
      ensures b == NBUF ==> forall i :: 0 <= i < NBUF ==> bufs[i].refcnt != 0 || bufs[i].dirty
    {
      ghost var k := NBUF - 1;
      assert prev[At(order, NBUF)] == At(order, NBUF - 1);
      b := prev[HEAD];
      while b != HEAD
        invariant -1 <= k < NBUF && b == At(order, k)
        invariant forall j :: k < j < NBUF ==> bufs[order[j]].refcnt != 0 || bufs[order[j]].dirty
        decreases k + 1
      {
        if bufs[b].refcnt == 0 && !bufs[b].dirty {
          return;
        }
        assert prev[At(order, k)] == At(order, k - 1);
        b := prev[b];
        k := k - 1;
      }
      OrderCovers(order);
      forall i | 0 <= i < NBUF ensures bufs[i].refcnt != 0 || bufs[i].dirty {
        assert i in order;
      }
    }

    /** bread: the buffer of the block, filled, and held by the caller until brelse. It panics exactly when
        no buffer has the block and none can be recycled. If another process holds the block, the caller is
        counted and then sleeps for the buffer, which so cannot be recycled. */
    method Bread(blockno: nat) returns (ok: bool, b: nat)
      requires Valid() && blockno < |disk|
      modifies this`bufs
      ensures Valid() && forall x :: 0 <= x < |disk| ==> ContentAt(x) == old(ContentAt(x))
      ensures ok <==> Held(old(bufs), blockno) || Pinned(old(bufs), blockno) || Free(old(bufs)) != {}
      ensures !ok ==> bufs == old(bufs)
      ensures ok ==> b < NBUF && bufs == old(bufs)[b := bufs[b]] && Holds(bufs[b], DISK_DEV, blockno)
      ensures ok ==> Free(bufs) == Free(old(bufs)) - {b} && bufs[b].refcnt > 0
      ensures Held(old(bufs), blockno) ==> bufs[b] == old(bufs)[b].(refcnt := old(bufs)[b].refcnt + 1)
      ensures Held(old(bufs), blockno) ==> old(bufs)[b].refcnt > 0
      ensures ok && !Held(old(bufs), blockno) ==> bufs[b].valid && bufs[b].refcnt == 1
      ensures ok && !Held(old(bufs), blockno) ==> bufs[b].data == old(ContentAt(blockno))
      ensures ok && !Held(old(bufs), blockno) ==> old(bufs)[b].refcnt == 0
      ensures ok && !Held(old(bufs), blockno) ==> bufs[b].dirty == Pinned(old(bufs), blockno)
      ensures ok && !Held(old(bufs), blockno) && !Pinned(old(bufs), blockno) ==> b in Free(old(bufs))
      ensures ok ==> forall x :: Pinned(bufs, x) <==> Pinned(old(bufs), x)
      ensures ok ==> forall x :: Held(bufs, x) <==> x == blockno || Held(old(bufs), x)
      ensures Pinned(old(bufs), blockno) ==> Free(bufs) == Free(old(bufs)) && b !in Free(bufs)
      ensures ok && (forall i :: 0 <= i < NBUF ==> !Holds(old(bufs)[i], DISK_DEV, blockno)) ==>
        exists k :: 0 <= k < NBUF && order[k] == b && forall j :: k < j < NBUF ==>
          old(bufs)[order[j]].refcnt != 0 || old(bufs)[order[j]].dirty
    {
      b := Find(DISK_DEV, blockno);
      var found := b;
      if b == NBUF {
        b := FindFree();
        if b == NBUF {
          assert Free(bufs) == {};
          return false, b;
        }
        assert b in Free(bufs);
      }
      BufferOf(bufs, b, blockno);
      ok := true;
      if found < NBUF && bufs[b].refcnt > 0 {
        CountWaiter(b);
      } else {
        TakeBuffer(b, blockno, found < NBUF);
      }
    }

    /** The block is held already. */
    method CountWaiter(b: nat)
      requires Valid() && b < NBUF && bufs[b].refcnt > 0 && bufs[b].dev == DISK_DEV
      modifies this`bufs
      ensures Valid() && bufs == old(bufs)[b := old(bufs)[b].(refcnt := old(bufs)[b].refcnt + 1)]
      ensures Free(bufs) == Free(old(bufs))
      ensures b !in Free(bufs)
      ensures forall x :: 0 <= x < |disk| ==> ContentAt(x) == old(ContentAt(x))
      ensures forall x :: (Pinned(bufs, x) <==> Pinned(old(bufs), x)) && (Held(bufs, x) <==> Held(old(bufs), x))
    {
      var now := bufs[b].(refcnt := bufs[b].refcnt + 1);
      OneBufferKept(bufs, b, now);
      if now.valid { ContentOf(bufs, disk, b); }
      ContentKept(bufs, disk, b, now);
      UseAfter(bufs, b, now);
      assert Holds(now, DISK_DEV, now.blockno) && Held(bufs, now.blockno);
      bufs := bufs[b := now];
    }

    /** Nobody holds the block: its buffer, or one to be recycled for it. */
    method TakeBuffer(b: nat, blockno: nat, hit: bool)
      requires Valid() && b < NBUF && blockno < |disk| && bufs[b].refcnt == 0
      requires (hit <==> Holds(bufs[b], DISK_DEV, blockno))
      requires !hit ==> !bufs[b].dirty && forall i :: 0 <= i < NBUF ==> !Holds(bufs[i], DISK_DEV, blockno)
      modifies this`bufs
      ensures Valid() && bufs == old(bufs)[b := bufs[b]] && Holds(bufs[b], DISK_DEV, blockno)
      ensures bufs[b].valid && bufs[b].refcnt == 1 && bufs[b].data == old(ContentAt(blockno))
      ensures bufs[b].dirty == old(bufs)[b].dirty
      ensures Free(bufs) == Free(old(bufs)) - {b}
      ensures forall x :: 0 <= x < |disk| ==> ContentAt(x) == old(ContentAt(x))
      ensures forall x :: Pinned(bufs, x) <==> Pinned(old(bufs), x)
      ensures forall x :: Held(bufs, x) <==> x == blockno || Held(old(bufs), x)
    {
      var was := bufs[b];
      var now := if hit then was.(refcnt := was.refcnt + 1) else Buf(DISK_DEV, blockno, false, false, 1, was.data);
      if !now.valid {
        now := now.(data := disk[blockno], valid := true);
      }
      FillKeeps(bufs, disk, b, now);
      UseAfter(bufs, b, now);
      assert was.dirty ==> Pinned(bufs, blockno);
      bufs := bufs[b := now];
    }

    /** The holder of a buffer changes its bytes. */
    method SetData(b: nat, data: Block)
      requires Valid() && b < NBUF && bufs[b].refcnt > 0 && bufs[b].valid && bufs[b].dev == DISK_DEV
      modifies this`bufs
      ensures Valid() && bufs == old(bufs)[b := old(bufs)[b].(data := data)]
      ensures forall x :: 0 <= x < |disk| ==> ContentAt(x) == if x == bufs[b].blockno then data else old(ContentAt(x))
      ensures forall x :: (Pinned(bufs, x) <==> Pinned(old(bufs), x)) && (Held(bufs, x) <==> Held(old(bufs), x))
      ensures Free(bufs) == Free(old(bufs))
    {
      ghost var was := bufs;
      var now := bufs[b].(data := data);
      OneBufferKept(bufs, b, now);
      UseAfter(bufs, b, now);
      bufs := bufs[b := now];
      ContentOf(bufs, disk, b);
      forall x | 0 <= x < |disk| && x != now.blockno ensures ContentAt(x) == Content(was, disk, x) {
        ContentElsewhere(was, disk, b, now, x);
      }
    }

    /** b->flags |= B_DIRTY: the buffer cannot be recycled until it is written. */
    method Pin(b: nat)
      requires Valid() && b < NBUF && bufs[b].refcnt > 0 && bufs[b].valid && bufs[b].dev == DISK_DEV
      modifies this`bufs
      ensures Valid() && bufs == old(bufs)[b := old(bufs)[b].(dirty := true)]
      ensures forall x :: 0 <= x < |disk| ==> ContentAt(x) == old(ContentAt(x))
      ensures forall x :: Pinned(bufs, x) <==> x == bufs[b].blockno || Pinned(old(bufs), x)
      ensures (forall x :: Held(bufs, x) <==> Held(old(bufs), x)) && Free(bufs) == Free(old(bufs))
    {
      var now := bufs[b].(dirty := true);
      OneBufferKept(bufs, b, now);
      ContentOf(bufs, disk, b);
      ContentKept(bufs, disk, b, now);
      UseAfter(bufs, b, now);
      bufs := bufs[b := now];
    }

    /** bwrite: one atomic write of the block, which unpins the buffer. */
    method Bwrite(b: nat)
      requires Valid() && b < NBUF && bufs[b].refcnt > 0 && bufs[b].valid && bufs[b].dev == DISK_DEV
      modifies this`bufs, this`disk, this`trace
      ensures Valid() && bufs == old(bufs)[b := old(bufs)[b].(dirty := false)]
      ensures disk == old(disk)[bufs[b].blockno := bufs[b].data] && trace == old(trace) + [disk]
      ensures forall x :: 0 <= x < |disk| ==> ContentAt(x) == old(ContentAt(x))
      ensures forall x :: Pinned(bufs, x) <==> x != bufs[b].blockno && Pinned(old(bufs), x)
      ensures (forall x :: Held(bufs, x) <==> Held(old(bufs), x)) && Free(bufs) == Free(old(bufs))
    {
      ghost var was, disk0 := bufs, disk;
      var now := bufs[b].(dirty := false);
      OneBufferKept(bufs, b, now);
      ContentOf(bufs, disk, b);
      ContentKept(bufs, disk, b, now);
      UseAfter(bufs, b, now);
      bufs := bufs[b := now];
      disk := disk[now.blockno := now.data];
      trace := trace + [disk];
      ContentOf(bufs, disk, b);
      forall x | 0 <= x < |disk| ensures ContentAt(x) == Content(bufs, disk0, x) {
        ContentOf(bufs, disk0, b);
      }
    }

    /** brelse: the buffer becomes the most recently used one. What the holder changed has been
        pinned by log_write or written by bwrite. */
    method Brelse(b: nat)
      requires Valid() && b < NBUF && bufs[b].refcnt > 0
      requires bufs[b].refcnt == 1 && bufs[b].dev == DISK_DEV && bufs[b].valid && !bufs[b].dirty ==>
                 bufs[b].data == disk[bufs[b].blockno]
      modifies this`bufs, this`next, this`prev, this`order
      ensures Valid() && bufs == old(bufs)[b := old(bufs)[b].(refcnt := old(bufs)[b].refcnt - 1)]
      ensures if bufs[b].refcnt == 0 then
                exists k :: 0 <= k < |old(order)| && old(order)[k] == b &&
                            order == [b] + old(order)[..k] + old(order)[k + 1..]
              else order == old(order)
      ensures forall x :: 0 <= x < |disk| ==> ContentAt(x) == old(ContentAt(x))
      ensures forall x :: Pinned(bufs, x) <==> Pinned(old(bufs), x)
      ensures forall x :: Held(bufs, x) <==> Held(old(bufs), x) && !(bufs[b].refcnt == 0 && Holds(bufs[b], DISK_DEV, x))
      ensures Free(bufs) == Free(old(bufs)) + if bufs[b].refcnt == 0 && !bufs[b].dirty then {b} else {}
    {
      var now := bufs[b].(refcnt := bufs[b].refcnt - 1);
      OneBufferKept(bufs, b, now);
      if now.valid && now.dev == DISK_DEV { ContentOf(bufs, disk, b); }
      ContentKept(bufs, disk, b, now);
      UseAfter(bufs, b, now);
      bufs := bufs[b := now];
      if now.refcnt == 0 {
        MoveToFront(b);
      }
    }

    method MoveToFront(b: nat)
      requires |order| == NBUF && Ring(next, prev, order) && b < NBUF
      modifies this`next, this`prev, this`order
      ensures |order| == NBUF && Ring(next, prev, order) && order[0] == b
      ensures exists k :: 0 <= k < |old(order)| && old(order)[k] == b &&
                          order == [b] + old(order)[..k] + old(order)[k + 1..]
    {
      OrderCovers(order);
      assert b in order;
      ghost var k :| 0 <= k < |order| && order[k] == b;
      RingRemove(next, prev, order, k);
      RingInsert(next[prev[b] := next[b]], prev[next[b] := prev[b]], Unlinked(order, k), b);
      assert next[At(order, k)] == At(order, k + 1) != b;
      prev := prev[next[b] := prev[b]];
      next := next[prev[b] := next[b]];
      next := next[b := next[HEAD]];
      prev := prev[b := HEAD];
      prev := prev[next[HEAD] := b];
      next := next[HEAD := b];
      order := [b] + Unlinked(order, k);
    }
  }

  /** What the buffer found, or to be recycled, says about the block. */
  lemma {:induction false} BufferOf(bufs: seq<Buf>, b: nat, x: nat)
    requires OneBufferPerBlock(bufs) && b < |bufs|
    requires Holds(bufs[b], DISK_DEV, x) || (forall i :: 0 <= i < |bufs| ==> !Holds(bufs[i], DISK_DEV, x))
    ensures Held(bufs, x) <==> Holds(bufs[b], DISK_DEV, x) && bufs[b].refcnt > 0
    ensures Pinned(bufs, x) <==> Holds(bufs[b], DISK_DEV, x) && bufs[b].dirty
    ensures Holds(bufs[b], DISK_DEV, x) && !Held(bufs, x) && !Pinned(bufs, x) ==> b in Free(bufs)
  {
  }

  /** A buffer may be replaced by one for the same block, or by one for a block no buffer holds. */
  lemma {:induction false} OneBufferKept(bufs: seq<Buf>, i: nat, b: Buf)
    requires i < |bufs| && OneBufferPerBlock(bufs)
    requires Holds(bufs[i], b.dev, b.blockno) || forall j :: 0 <= j < |bufs| ==> !Holds(bufs[j], b.dev, b.blockno)
    ensures OneBufferPerBlock(bufs[i := b])
  {
  }

  /** Refilling a buffer keeps the contents of every block if the block it gives up is on disk as it
      was cached, and the block it takes up is filled with its contents. */
  lemma {:induction false} ContentKept(bufs: seq<Buf>, disk: seq<Block>, i: nat, b: Buf)
    requires i < |bufs| && OneBufferPerBlock(bufs) && OneBufferPerBlock(bufs[i := b])
    requires bufs[i].valid && bufs[i].dev == DISK_DEV && bufs[i].blockno < |disk| &&
             !(b.valid && Holds(b, DISK_DEV, bufs[i].blockno))
             ==> bufs[i].data == disk[bufs[i].blockno]
    requires b.valid && b.dev == DISK_DEV ==> b.blockno < |disk| && b.data == Content(bufs, disk, b.blockno)
    ensures forall x :: 0 <= x < |disk| ==> Content(bufs[i := b], disk, x) == Content(bufs, disk, x)
  {
    var bufs' := bufs[i := b];
    forall x | 0 <= x < |disk| ensures Content(bufs', disk, x) == Content(bufs, disk, x) {
      if b.valid && Holds(b, DISK_DEV, x) {
        ContentOf(bufs', disk, i);
      } else if bufs[i].valid && Holds(bufs[i], DISK_DEV, x) {
        ContentOf(bufs, disk, i);
        forall j | 0 <= j < |bufs'| ensures !(bufs'[j].valid && Holds(bufs'[j], DISK_DEV, x)) {
          assert j != i ==> bufs'[j] == bufs[j] && !Holds(bufs[j], DISK_DEV, x);
        }
      } else {
        ContentElsewhere(bufs, disk, i, b, x);
      }
    }
  }

  /** bget and the fill after it: a hit is only counted, a recycled buffer was clean and unheld. */
  lemma {:induction false} FillKeeps(bufs: seq<Buf>, disk: seq<Block>, i: nat, b: Buf)
    requires i < |bufs| && OneBufferPerBlock(bufs) && Coherent(bufs, disk)
    requires b.dev == DISK_DEV && b.blockno < |disk| && b.valid && b.refcnt > 0 && bufs[i].refcnt == 0
    requires b.dirty ==> Holds(bufs[i], DISK_DEV, b.blockno) && bufs[i].dirty
    requires bufs[i].dirty ==> Holds(bufs[i], DISK_DEV, b.blockno)
    requires if Holds(bufs[i], DISK_DEV, b.blockno) then b.data == (if bufs[i].valid then bufs[i].data
      else disk[b.blockno])
             else b.data == disk[b.blockno] && forall j :: 0 <= j < |bufs| ==> !Holds(bufs[j], DISK_DEV, b.blockno)
    ensures OneBufferPerBlock(bufs[i := b]) && Coherent(bufs[i := b], disk)
    ensures b.data == Content(bufs, disk, b.blockno)
    ensures forall x :: 0 <= x < |disk| ==> Content(bufs[i := b], disk, x) == Content(bufs, disk, x)
  {
    OneBufferKept(bufs, i, b);
    if Holds(bufs[i], DISK_DEV, b.blockno) && bufs[i].valid {
      ContentOf(bufs, disk, i);
    } else {
      forall j | 0 <= j < |bufs| ensures !(bufs[j].valid && Holds(bufs[j], DISK_DEV, b.blockno)) {}
    }
    ContentKept(bufs, disk, i, b);
  }

  /** A ring of NBUF distinct buffers holds every buffer. */
  lemma {:induction false} OrderCovers(order: seq<nat>)
    requires |order| == NBUF && (forall k :: 0 <= k < |order| ==> order[k] < NBUF)
    requires Distinct(order)
    ensures forall i :: 0 <= i < NBUF ==> i in order
  {
    forall i | 0 <= i < NBUF ensures i in order {
      OrderHas(order, NBUF, i);
    }
  }

  lemma {:induction false} OrderHas(order: seq<nat>, n: nat, i: nat)
    requires |order| == n && (forall k :: 0 <= k < |order| ==> order[k] < n) && i < n
    requires Distinct(order)
    ensures i in order
  {
    if i !in order {
      SubsetSize(Members(order), Interval(0, n) - {i});
    }
  }
}
