/** umalloc.c: headers in memory, linked into a circular list by address. */
module Umalloc {
  import opened Params
  import opened FreeList
  import opened ProcSize

  const MORECORE_UNITS: nat := 4096

  /** (nbytes + sizeof(Header) - 1) / sizeof(Header) + 1, in 32-bit arithmetic. */
  function Nunits(nbytes: nat): (n: nat) ensures n > 0 { (nbytes + UNIT - 1) % U32 / UNIT + 1 }

  /** The block malloc looks for, header included, holds the request exactly when the rounding up does
      not wrap around. */
  lemma {:induction false} RequestFits(nbytes: nat)
    requires nbytes < U32
    ensures UNIT * (Nunits(nbytes) - 1) >= nbytes <==> nbytes <= U32 - UNIT
  {
  }

  /** The argument of sbrk, as a uint. */
  function SbrkArg(nu: nat): (arg: nat) ensures arg < U32 { UNIT * Grant(nu) % U32 }

  /** sbrk takes an int: it adds memory when the size does not come out negative or zero. */
  predicate SbrkGrows(nbytes: nat) { 0 < SbrkArg(Nunits(nbytes)) < INT_MIN }

  lemma {:induction false} SbrkGrowsIff(nbytes: nat)
    requires nbytes < U32
    ensures SbrkGrows(nbytes) <==> nbytes <= INT_MIN - 2 * UNIT || nbytes > U32 - UNIT
  {
    assert nbytes > U32 - UNIT ==> (nbytes + UNIT - 1) % U32 == nbytes + UNIT - 1 - U32;
  }

  function Succ(i: nat, n: nat): nat
    requires i < n
  {
    if i + 1 < n then i + 1 else 0
  }

  /** The c-th block after block f, going round. */
  function Around(f: nat, c: nat, n: nat): nat
    requires f < n && c < n
  {
    if f + 1 + c < n then f + 1 + c else f + 1 + c - n
  }

  /** The block's header has its size and the address of the next free block, the last one's that of
      the first. */
  ghost predicate LinkedAt(ptr: map<nat, nat>, size: map<nat, nat>, free: seq<Blk>, i: nat)
    requires i < |free|
  {
    var a := free[i].addr;
    a in ptr && a in size && size[a] == free[i].n && ptr[a] == free[Succ(i, |free|)].addr
  }

  ghost predicate Linked(ptr: map<nat, nat>, size: map<nat, nat>, free: seq<Blk>)
  {
    forall i :: 0 <= i < |free| ==> LinkedAt(ptr, size, free, i)
  }

  ghost function LiveUnits(live: map<nat, nat>): nat
  {
    if live == map[] then 0 else var a :| a in live; live[a] + LiveUnits(live - {a})
  }

  lemma {:induction false} LiveUnitsRemove(live: map<nat, nat>, a: nat)
    requires a in live
    ensures LiveUnits(live) == live[a] + LiveUnits(live - {a})
    decreases |live|
  {
    var b :| b in live && LiveUnits(live) == live[b] + LiveUnits(live - {b});
    if a != b {
      LiveUnitsRemove(live - {b}, a);
      LiveUnitsRemove(live - {a}, b);
      assert live - {b} - {a} == live - {a} - {b};
    }
  }

  lemma {:induction false} LiveUnitsAdd(live: map<nat, nat>, a: nat, n: nat)
    requires a !in live
    ensures LiveUnits(live[a := n]) == LiveUnits(live) + n
  {
    LiveUnitsRemove(live[a := n], a);
    assert live[a := n] - {a} == live;
  }

  /** The block before it. */
  function Behind(f: nat, c: nat, n: nat): nat
    requires f < n && c < n
  {
    if c == 0 then f else Around(f, c - 1, n)
  }

  /** The c blocks after block f are too small. */
  ghost predicate Passed(free: seq<Blk>, f: nat, c: nat, n: nat)
    requires f < |free| && c <= |free|
  {
    forall d: nat :: d < c ==> free[Around(f, d, |free|)].n < n
  }

  /** malloc's search, c blocks past freep. */
  ghost predicate Search(free: seq<Blk>, freep: nat, prevp: nat, p: nat, f: nat, c: nat, n: nat)
  {
    f < |free| && c < |free| && free[f].addr == freep && Passed(free, f, c, n) &&
    p == free[Around(f, c, |free|)].addr && prevp == free[Behind(f, c, |free|)].addr
  }

  ghost predicate IsFree(free: seq<Blk>, a: nat) { exists i :: 0 <= i < |free| && free[i].addr == a }

  /** The free list is a ring in address order, no two blocks touching, entered anywhere. */
  ghost predicate ListOk(base: nat, ptr: map<nat, nat>, size: map<nat, nat>, free: seq<Blk>, freep: nat, brk: nat)
  {
    Spaced(free) && free[0].addr == base && Linked(ptr, size, free) && IsFree(free, freep) && Below(free, brk)
  }

  ghost predicate Below(free: seq<Blk>, brk: nat) { forall i :: 0 <= i < |free| ==> End(free[i]) <= brk }

  /** The blocks handed out keep clear of one another and of the free blocks. */
  ghost predicate LiveOk(base: nat, size: map<nat, nat>, free: seq<Blk>, live: map<nat, nat>, brk: nat)
  {
    (forall a :: a in live ==> base < a && live[a] > 0 && a + UNIT * live[a] <= brk) &&
    (forall a :: a in live ==> a in size && size[a] == live[a]) &&
    (forall a, b :: a in live && b in live && a != b ==> Apart(Blk(a, live[a]), Blk(b, live[b]))) &&
    (forall a :: a in live ==> ApartFrom(free, Blk(a, live[a])))
  }

  ghost predicate Good(base: nat, ptr: map<nat, nat>, size: map<nat, nat>, freep: nat, brk: nat, free: seq<Blk>,
                       live: map<nat, nat>, granted: nat)
  {
    0 < base < brk && LiveOk(base, size, free, live, brk) && Units(free) + LiveUnits(live) == granted &&
    if freep == 0 then free == [] && live == map[] else ListOk(base, ptr, size, free, freep, brk)
  }

  /** The heap is user memory; exec puts the stack between it and the pages of the program's data. */
  predicate InUser(base: nat, brk: nat) { PGSIZE * PageUp(base + UNIT) <= brk < KERNBASE }

  /** The test of free whether a block ends where the next one begins is made on 32-bit pointers. */
  ghost predicate EndExact(free: seq<Blk>, b: Blk)
  {
    forall t: nat :: Between(free, t, b) ==>
      var a := free[Succ(t, |free|)].addr;
      End(b) % U32 == a <==> End(b) == a
  }

  ghost predicate Room(free: seq<Blk>, n: nat) { exists i :: 0 <= i < |free| && free[i].n >= n }

  ghost predicate SameBytes(free: seq<Blk>, free': seq<Blk>) { forall x :: Covers(free', x) <==> Covers(free, x) }

  /** The bytes of free' and of b', which do not overlap, are those of free and of b. */
  ghost predicate Gains(free': seq<Blk>, b': Blk, free: seq<Blk>, b: Blk)
  {
    (forall x :: Covers(free', x) || Inside(b', x) <==> Covers(free, x) || Inside(b, x)) &&
    (forall x :: Inside(b', x) ==> !Covers(free', x))
  }

  class Heap {
    const base: nat                     // &base
    var ptr: map<nat, nat>              // s.ptr of the header at an address
    var size: map<nat, nat>             // s.size
    var freep: nat                      // 0 until the first malloc
    var brk: nat                        // the end of the process's memory
    ghost var free: seq<Blk>
    ghost var live: map<nat, nat>       // header address and units of every block handed out
    ghost var granted: nat              // units obtained from sbrk

    /** The list and the blocks handed out are in order, as far as the address top. */
    ghost predicate Holds(top: nat)
      reads this
    {
      Good(base, ptr, size, freep, top, free, live, granted)
    }

    /** And all of it is memory that the process has. */
    ghost predicate Valid()
      reads this
    {
      Holds(brk) && InUser(base, brk)
    }

    constructor (b: nat, end: nat)
      requires 0 < b && InUser(b, end)
      ensures Valid() && freep == 0 && free == [] && base == b && brk == end
    {
      base, ptr, size, freep, brk, free, live, granted := b, map[], map[], 0, end, [], map[], 0;
    }

    /** The search of free: the free block after which bp belongs. */
    method FindPlace(bp: nat, ghost top: nat) returns (p: nat, ghost t: nat)
      requires ListOk(base, ptr, size, free, freep, top) && base < bp
      requires forall i :: 0 <= i < |free| ==> free[i].addr != bp
      ensures t < |free| && p == free[t].addr && p < bp && (t + 1 < |free| ==> bp < free[t + 1].addr)
    {
      hide Linked, Spaced, Below, PlaceOf;
      ghost var n := |free|;
      ghost var k: nat :| k < n && free[k].addr == freep;
      ghost var target := PlaceOf(free, bp);
      p := freep;
      PlaceTurn(ptr, size, free, bp, k);
      while !(bp > p && bp < ptr[p])
        invariant k < n && p == free[k].addr && p in ptr
        invariant PlaceOf(free, bp) == target < n
        decreases if k <= target then target - k else target - k + n
      {
        PlaceTurn(ptr, size, free, bp, k);
        if p >= ptr[p] && (bp > p || bp < ptr[p]) {
          return p, k;
        }
        PlaceTurn(ptr, size, free, bp, Succ(k, n));
        p := ptr[p];
        k := Succ(k, n);
      }
      PlaceTurn(ptr, size, free, bp, k);
      t := k;
    }

    /** The headers at bp and p, after which it goes, joined where they touch. */
    method Relink(bp: nat, p: nat)
      requires p in ptr && p in size && ptr[p] in ptr && ptr[p] in size && bp in size && p != bp && ptr[p] != bp
      requires (bp + UNIT * size[bp]) % U32 == ptr[p] <==> bp + UNIT * size[bp] == ptr[p]
      modifies this`ptr, this`size
      ensures var ptr1, size1 := PlacedPtr(old(ptr), old(size), p, bp), PlacedSize(old(ptr), old(size), p, bp);
              var joins := p + UNIT * old(size)[p] == bp;
              ptr == (if joins then ptr1[p := ptr1[bp]] else ptr1) &&
              size == (if joins then size1[p := size1[p] + size1[bp]] else size1)
    {
      ghost var ptr1 := PlacedPtr(ptr, size, p, bp);
      if (bp + UNIT * size[bp]) % U32 == ptr[p] {
        size := size[bp := size[bp] + size[ptr[p]]];
        ptr := ptr[bp := ptr[ptr[p]]];
      } else {
        ptr := ptr[bp := ptr[p]];
      }
      if p + UNIT * size[p] == bp {
        size := size[p := size[p] + size[bp]];
        ptr := ptr[p := ptr[bp]];
        assert ptr == ptr1[p := ptr1[bp]];
      } else {
        ptr := ptr[p := bp];
      }
    }

    /** Links in the block at bp after block t, joining it to the blocks it touches. */
    method Insert(bp: nat, p: nat, ghost t: nat, ghost top: nat)
      requires ListOk(base, ptr, size, free, freep, top) && bp in size && t < |free| && p == free[t].addr
      requires Between(free, t, Blk(bp, size[bp])) && Fits(free, Blk(bp, size[bp]))
      requires EndExact(free, Blk(bp, size[bp]))
      modifies this
      ensures unchanged(this`brk, this`live, this`granted) && freep == p
      ensures Linked(ptr, size, free) && free == Coalesced(old(free), t, Blk(bp, old(size)[bp])) && t < |free|
      ensures free[t].addr == p
      ensures forall a :: a in old(size) ==> a in size && (a != bp && a != p ==> size[a] == old(size)[a])
    {
      hide EndExact, Linked, Spaced, Placed, Merged, Fits, Between, PlacedPtr, Below, IsFree;
      ghost var b := Blk(bp, size[bp]);
      ghost var _, _ := LinkBoth(ptr, size, free, t, b);
      EndTest(ptr, size, free, t, b);
      Relink(bp, p);
      free := Coalesced(free, t, b);
      freep := p;
    }

    /** free(ap): exactly the block's bytes become free, and nothing else is handed out or taken. */
    method Free(ap: nat)
      requires Valid() && ap >= UNIT && ap - UNIT in live
      modifies this
      ensures Valid() && freep != 0 && unchanged(this`brk, this`granted) && live == old(live) - {ap - UNIT}
      ensures Gains(free, Blk(0, 0), old(free), Blk(ap - UNIT, old(live)[ap - UNIT]))
      ensures Units(free) == old(Units(free)) + old(live)[ap - UNIT] && Room(free, old(live)[ap - UNIT])
    {
      hide Good, Gains, Room, Units, EndExact, Coalesced, Between;
      EndsBelow(base, ptr, size, freep, brk, free, live, granted, ap - UNIT);
      ghost var _ := Release(ap - UNIT, brk);
    }

    /** The body of free, for a block below top. */
    method Release(bp: nat, ghost top: nat) returns (ghost t: nat)
      requires Holds(top) && bp in live && EndExact(free, Blk(bp, live[bp]))
      modifies this
      ensures Holds(top) && freep != 0 && unchanged(this`brk, this`granted) && live == old(live) - {bp}
      ensures Between(old(free), t, Blk(bp, old(live)[bp])) && free == Coalesced(old(free), t, Blk(bp, old(live)[bp]))
      ensures Gains(free, Blk(0, 0), old(free), Blk(bp, old(live)[bp]))
      ensures Units(free) == old(Units(free)) + old(live)[bp] && Room(free, old(live)[bp])
    {
      hide Good, ListOk, Coalesced, Covers, EndExact, Gains, Room, Units, Fits, Linked;
      Freeable(base, ptr, size, freep, top, free, live, granted, bp);
      ghost var ptr0, size0, freep0, free0, live0 := ptr, size, freep, free, live;
      var p;
      p, t := FindPlace(bp, top);
      Insert(bp, p, t, top);
      live := live - {bp};
      FreeKeeps(base, ptr0, size0, freep0, top, free0, live0, granted, t, bp, ptr, size);
      Freed(free0, t, Blk(bp, size0[bp]));
    }

    /** sbrk fails, or answers with the old end of memory, `at`, where a header is then stored and the block
        entered in the free list by free. The memory is there only if sbrk's argument was positive. */
    method Morecore(nu: nat, pages: bool, at: nat) returns (p: nat, faults: bool)
      requires Valid() && freep != 0 && 0 < nu <= U32 / UNIT && brk <= at < KERNBASE
      modifies this
      ensures live == old(live) && freep != 0
      ensures p == if EndMapped(at, SbrkArg(nu), pages) then freep else 0
      ensures faults <==> p == 0 && !Sbrk(at, SbrkArg(nu), pages).Fails?
      ensures p == 0 ==> unchanged(this)
      ensures p != 0 ==> Holds(at + UNIT * Grant(nu)) && granted == old(granted) + Grant(nu)
      ensures p != 0 ==> brk == Sbrk(at, SbrkArg(nu), pages).size && Room(free, nu)
      ensures p != 0 ==> Entered(old(free), free, Blk(at, Grant(nu)))
      ensures p != 0 ==> Gains(free, Blk(0, 0), old(free), Blk(at, Grant(nu)))
    {
      hide Good, Covers, Room, Gains, Grant, EndExact, Sbrk, SbrkArg;
      faults := false;
      var sb := Sbrk(at, SbrkArg(nu), pages);
      if sb.Fails? { return 0, false; }
      if !EndMapped(at, SbrkArg(nu), pages) { return 0, true; }
      brk := sb.size;
      GrantHolds(nu);
      ghost var top := at + UNIT * Grant(nu);
      MoreKeeps(base, ptr, size, freep, old(brk), free, live, granted, at, Grant(nu));
      NoFalseJoin(base, ptr, size, freep, old(brk), free, live, granted, at, nu, pages);
      size := size[at := Grant(nu)];
      live := live[at := Grant(nu)];
      granted := granted + Grant(nu);
      ghost var t := Release(at, top);
      EnteredAt(old(free), t, Blk(at, Grant(nu)));
      p := freep;
    }

    /** malloc's search has found block i: it is handed out whole, or its tail is. */
    method HandOut(prevp: nat, p: nat, nunits: nat, ghost i: nat, ghost top: nat) returns (r: nat)
      requires Holds(top) && freep != 0 && 0 < i < |free| && p == free[i].addr && prevp == free[i - 1].addr
      requires 0 < nunits <= free[i].n
      modifies this
      ensures Holds(top) && unchanged(this`brk, this`granted) && free == Carved(old(free), i, nunits)
      ensures freep == prevp != 0 && r == Piece(old(free), i, nunits).addr + UNIT
      ensures r > UNIT && r - UNIT !in old(live) && live == old(live)[r - UNIT := nunits]
      ensures Room(old(free), nunits) && Gains(free, Blk(r - UNIT, nunits), old(free), Blk(0, 0))
    {
      hide Good, Carved, Gains, Room;
      HandOutCovers(base, ptr, size, freep, top, free, live, granted, i, nunits);
      CarvedKeeps(base, ptr, size, freep, top, free, live, granted, i, nunits);
      ghost var h, free' := Piece(free, i, nunits).addr, Carved(free, i, nunits);
      if size[p] == nunits {
        ptr := ptr[prevp := ptr[p]];
        r := p;
      } else {
        size := size[p := size[p] - nunits];
        r := p + UNIT * size[p];
        size := size[r := nunits];
      }
      freep := prevp;
      free := free';
      live := live[h := nunits];
      r := r + UNIT;
    }

    /** The first call sets up the list, with only the empty block in it. */
    method EnterList(ghost n: nat) returns (prevp: nat)
      requires Valid() && n > 0
      modifies this
      ensures Valid() && prevp == freep != 0 && unchanged(this`live, this`granted, this`brk)
      ensures SameBytes(old(free), free) && (Room(free, n) <==> Room(old(free), n))
    {
      prevp := freep;
      if prevp == 0 {
        InitKeeps(base, ptr, size, brk, live, granted);
        ptr, freep, prevp := ptr[base := base], base, base;
        size := size[base := 0];
        free := [Blk(base, 0)];
      }
    }

    /** malloc(nbytes): a block of Nunits(nbytes) units that was free, or is the tail of what sbrk has just
        answered with; null exactly when no free block is large enough and sbrk fails. The heap is in order
        afterwards exactly when a free block was large enough or the request makes sbrk's argument positive.
        Otherwise sbrk answers without adding memory: the store of the header faults, or the caller gets a
        block that lies past the end of the process's memory. */
    method Malloc(nbytes: nat, pages: bool, at: nat) returns (r: nat, faults: bool, ghost entered: bool)
      requires Valid() && nbytes < U32 && brk <= at < KERNBASE
      modifies this
      ensures !faults && Valid() <==> SbrkGrows(nbytes) || Room(old(free), Nunits(nbytes))
      ensures entered <==> !Room(old(free), Nunits(nbytes)) && EndMapped(at, SbrkArg(Nunits(nbytes)), pages)
      ensures r != 0 <==> entered || Room(old(free), Nunits(nbytes))
      ensures faults <==> r == 0 && !Sbrk(at, SbrkArg(Nunits(nbytes)), pages).Fails?
      ensures granted == old(granted) + if entered then Grant(Nunits(nbytes)) else 0
      ensures brk == if entered then Sbrk(at, SbrkArg(Nunits(nbytes)), pages).size else old(brk)
      ensures r == 0 ==> live == old(live) && SameBytes(old(free), free)
      ensures r != 0 ==> r > UNIT && r - UNIT !in old(live) && live == old(live)[r - UNIT := Nunits(nbytes)]
      ensures r != 0 ==>
        Gains(free, Blk(r - UNIT, Nunits(nbytes)), old(free), Blk(at, if entered then Grant(Nunits(nbytes)) else 0))
      ensures entered ==> r - UNIT == at + UNIT * (Grant(Nunits(nbytes)) - Nunits(nbytes))
      ensures entered && !SbrkGrows(nbytes) ==> brk <= at == r - UNIT
      ensures var n := (nbytes + 7) % 0x1_0000_0000 / 8 + 1;
              var bytes := 8 * if n < 4096 then 4096 else n;
              n == Nunits(nbytes) && (SbrkGrows(nbytes) <==> bytes < 0x8000_0000) &&
              (r == 0 && !faults <==>
                !Room(old(free), n) && bytes < 0x8000_0000 && (at + bytes >= 0x8000_0000 || !pages)) &&
              (entered ==> granted == old(granted) + bytes / 8) &&
              (entered && bytes < 0x8000_0000 ==> brk == at + bytes)
    {
      hide Good, Room, Nunits, Gains, SameBytes, Grant, SbrkGrows, Search, Around, Sbrk, SbrkArg, Entered;
      var nunits := Nunits(nbytes);
      faults, entered := false, false;
      ghost var free0 := free;
      var prevp := EnterList(nunits);
      ghost var free1, brk0, top := free, brk, brk;
      ghost var b := Blk(at, Grant(nunits));
      SbrkGives(nbytes, at, pages);
      RequestSizes(nbytes, at, pages);
      ghost var f: nat := Enter(base, ptr, size, freep, brk, free, live, granted, nunits);
      ghost var c: nat := 0;
      var p := ptr[prevp];
      while true
        invariant Holds(top) && freep != 0 && live == old(live) && !faults
        invariant Search(free, freep, prevp, p, f, c, nunits)
        invariant granted == old(granted) + if entered then b.n else 0
        invariant top == if entered then End(b) else brk0
        invariant entered ==> EndMapped(at, SbrkArg(nunits), pages)
        invariant brk == if entered then Sbrk(at, SbrkArg(nunits), pages).size else brk0
        invariant if entered then
          !Room(free1, nunits) && Room(free, nunits) && Entered(free1, free, b) && Gains(free, Blk(0, 0), free1, b)
                  else free == free1
        decreases !entered, |free| - c
      {
        Visit(base, ptr, size, freep, top, free, live, granted, prevp, p, f, c, nunits);
        if size[p] >= nunits {
          ghost var free2, i := free, Around(f, c, |free|);
          r := HandOut(prevp, p, nunits, i, top);
          HandedOut(free, Blk(r - UNIT, nunits), free2, free1, free0, b, entered);
          if entered { TailOfNew(free1, free2, b, i, nunits); }
          Obtained(base, ptr, size, freep, brk, free, live, granted, r - UNIT, top);
          return;
        }
        if p == freep {
          p, faults := Morecore(nunits, pages, at);
          if p == 0 { return 0, faults, false; }
          entered, top := true, End(b);
          f := Enter(base, ptr, size, freep, top, free, live, granted, nunits);
          c := 0;
        } else {
          c := c + 1;
        }
        prevp, p := p, ptr[p];
      }
    }
  }

  /** A request of 40000 bytes and then one of 2^31, in a process that ends at 16384: sbrk moves the end to
      56392 and then nowhere, and the second block begins where the memory ends. */
  method PastTheEnd() returns (first: nat, second: nat, end: nat)
    ensures first == 16384 + UNIT && end == 56392 && second == end + UNIT
  {
    hide Gains, Good, Room, Nunits, Grant, SbrkArg, Sbrk, EndMapped, SbrkGrows;
    TwoRequests();
    var h := new Heap(4096, 16384);
    NoRoom(h.free, 5001);
    var r, _, _ := h.Malloc(40000, true, 16384);
    Exhausted(h.free, Blk(16384, 5001));
    NoRoom(h.free, 0x1000_0001);
    var r', _, _ := h.Malloc(0x8000_0000, true, h.brk);
    first, second, end := r, r', h.brk;
  }

  lemma {:induction false} TwoRequests()
    ensures Nunits(40000) == Grant(5001) == 5001 && SbrkGrows(40000) && EndMapped(16384, SbrkArg(5001), true)
    ensures Sbrk(16384, SbrkArg(5001), true).size == 56392 && !SbrkGrows(0x8000_0000)
    ensures Nunits(0x8000_0000) == 0x1000_0001 && EndMapped(56392, SbrkArg(0x1000_0001), true)
    ensures Sbrk(56392, SbrkArg(0x1000_0001), true).size == 56392
  {
  }

  lemma {:induction false} NoRoom(free: seq<Blk>, n: nat)
    requires n > 0 && forall x :: !Covers(free, x)
    ensures !Room(free, n)
  {
    if i :| 0 <= i < |free| && free[i].n >= n {
      assert Inside(free[i], free[i].addr);
      assert Covers(free, free[i].addr);
    }
  }

  lemma {:induction false} Exhausted(free: seq<Blk>, b: Blk)
    requires Gains(free, b, [], b)
    ensures forall x :: !Covers(free, x)
  {
    hide Inside;
    forall x ensures !Covers(free, x) {
      assert !Covers([], x);
      assert Covers(free, x) || Inside(b, x) <==> Covers([], x) || Inside(b, x);
    }
  }

  /** What sbrk makes of a request: new memory, or none at all. */
  lemma {:induction false} SbrkGives(nbytes: nat, at: nat, pages: bool)
    requires 0 < at < KERNBASE && nbytes < U32
    ensures var n := Nunits(nbytes);
            var sb := Sbrk(at, SbrkArg(n), pages);
            0 < n <= U32 / UNIT && n <= Grant(n) &&
            if SbrkGrows(nbytes) then
              sb.Fails? || (EndMapped(at, SbrkArg(n), pages) && sb.size == at + UNIT * Grant(n) < KERNBASE)
            else !sb.Fails? && Grant(n) == n && (sb.Done? ==> sb.size <= at)
  {
  }

  /** The numbers: units and bytes asked of sbrk, and when it fails. */
  lemma {:induction false} RequestSizes(nbytes: nat, at: nat, pages: bool)
    requires at < KERNBASE && nbytes < U32
    ensures var n := (nbytes + 7) % 0x1_0000_0000 / 8 + 1;
            var bytes := 8 * if n < 4096 then 4096 else n;
            n == Nunits(nbytes) && bytes == 8 * Grant(n) && (SbrkGrows(nbytes) <==> bytes < 0x8000_0000) &&
            (Sbrk(at, SbrkArg(n), pages).Fails? <==>
              bytes < 0x8000_0000 && (at + bytes >= 0x8000_0000 || !pages))
  {
  }

  ghost predicate Entered(free: seq<Blk>, free': seq<Blk>, b: Blk)
  {
    |free'| > 0 && End(free'[|free'| - 1]) == End(b) &&
    forall i :: 0 <= i < |free'| - 1 ==> i < |free| && free'[i] == free[i]
  }

  /** Memory above every free block becomes the last one, or part of it. */
  lemma {:induction false} EnteredAt(free: seq<Blk>, t: nat, b: Blk)
    requires Below(free, b.addr) && Between(free, t, b) && Rising(free)
    ensures Entered(free, Coalesced(free, t, b), b)
  {
    assert t + 1 < |free| ==> End(free[t + 1]) <= b.addr;
  }

  /** The only block large enough is the new one, and its tail is handed out. */
  lemma {:induction false} TailOfNew(free: seq<Blk>, free': seq<Blk>, b: Blk, i: nat, n: nat)
    requires Entered(free, free', b) && !Room(free, n) && i < |free'| && n <= free'[i].n && n <= b.n
    ensures Piece(free', i, n).addr == b.addr + UNIT * (b.n - n)
  {
    assert i == |free'| - 1;
  }

  lemma {:induction false} Obtained(base: nat, ptr: map<nat, nat>, size: map<nat, nat>, freep: nat, brk: nat,
                                    free: seq<Blk>, live: map<nat, nat>, granted: nat, a: nat, top: nat)
    requires Good(base, ptr, size, freep, top, free, live, granted) && a in live
    ensures top == brk ==> Good(base, ptr, size, freep, brk, free, live, granted)
    ensures brk <= a ==> !Good(base, ptr, size, freep, brk, free, live, granted)
  {
  }

  /** A block that ends in user memory ends at the same address as a 32-bit pointer. */
  lemma {:induction false} EndsBelow(base: nat, ptr: map<nat, nat>, size: map<nat, nat>, freep: nat, brk: nat,
                                     free: seq<Blk>, live: map<nat, nat>, granted: nat, a: nat)
    requires Good(base, ptr, size, freep, brk, free, live, granted) && a in live && brk < KERNBASE
    ensures EndExact(free, Blk(a, live[a]))
  {
    hide EndExact;
    assert End(Blk(a, live[a])) <= brk;
    SmallEnd(free, Blk(a, live[a]));
  }

  lemma {:induction false} SmallEnd(free: seq<Blk>, b: Blk)
    requires End(b) < U32
    ensures EndExact(free, b)
  {
    hide Between, Succ;
    assert End(b) % U32 == End(b);
  }

  /** Even when the end of the new block wraps around, it is not taken for the first free block. */
  lemma {:induction false} NoFalseJoin(base: nat, ptr: map<nat, nat>, size: map<nat, nat>, freep: nat, brk: nat,
                                       free: seq<Blk>, live: map<nat, nat>, granted: nat, at: nat, nu: nat, pages: bool)
    requires Good(base, ptr, size, freep, brk, free, live, granted) && freep != 0 && InUser(base, brk)
    requires brk <= at < KERNBASE && 0 < nu <= U32 / UNIT && EndMapped(at, SbrkArg(nu), pages)
    ensures EndExact(free, Blk(at, Grant(nu))) && Below(free, at) && Rising(free)
  {
    var b := Blk(at, Grant(nu));
    SpacedRises(free, 0);
    forall t: nat | Between(free, t, b)
      ensures Succ(t, |free|) == 0
    {
      assert t + 1 < |free| ==> End(free[t + 1]) <= brk;
    }
    EndElsewhere(base, at, nu, pages);
    hide Good, InUser, EndMapped, Grant;
  }

  lemma {:induction false} EndElsewhere(base: nat, at: nat, nu: nat, pages: bool)
    requires base < at < KERNBASE && PGSIZE * PageUp(base + UNIT) <= at && 0 < base && 0 < nu <= U32 / UNIT
    requires EndMapped(at, SbrkArg(nu), pages)
    ensures at + UNIT * Grant(nu) != base && (at + UNIT * Grant(nu)) % U32 != base
  {
    hide PageUp, Sbrk, EndMapped;
    var arg, end := SbrkArg(nu), at + UNIT * Grant(nu);
    assert arg == UNIT * Grant(nu) || (arg == 0 && UNIT * Grant(nu) == U32);
    if arg >= INT_MIN && end >= U32 {
      assert end % U32 == end - U32;
      NeverGrows(at, arg, pages);
      SamePage(at, base);
      PagesRise(base, base + UNIT);
    }
  }

  /** The search stops at a block exactly if the new one belongs after it. */
  lemma {:induction false} PlaceTurn(ptr: map<nat, nat>, size: map<nat, nat>, free: seq<Blk>, bp: nat, k: nat)
    requires Linked(ptr, size, free) && Spaced(free) && k < |free| && free[0].addr < bp
    requires forall i :: 0 <= i < |free| ==> free[i].addr != bp
    ensures free[k].addr in ptr && ptr[free[k].addr] == free[Succ(k, |free|)].addr
    ensures var p := free[k].addr;
            var next := ptr[p];
            (bp > p && bp < next) || (p >= next && (bp > p || bp < next)) <==> k == PlaceOf(free, bp)
    ensures k == PlaceOf(free, bp) ==> free[k].addr < bp && (k + 1 < |free| ==> bp < free[k + 1].addr)
  {
    assert LinkedAt(ptr, size, free, k);
    SpacedRises(free, 0);
    var t := PlaceOf(free, bp);
    hide Spaced, PlaceOf, Linked;
    assert k < t ==> free[k + 1].addr <= free[t].addr;
    assert t < k ==> free[t + 1].addr <= free[k].addr;
    assert k > 0 ==> free[0].addr < free[k].addr;
  }

  function Grant(nu: nat): nat { if nu < MORECORE_UNITS then MORECORE_UNITS else nu }

  lemma {:induction false} GrantHolds(nu: nat)
    ensures Grant(nu) >= nu && Grant(nu) > 0
    ensures forall free :: Room(free, Grant(nu)) ==> Room(free, nu)
  {
  }

  lemma {:induction false} MoreLive(base: nat, size: map<nat, nat>, free: seq<Blk>, live: map<nat, nat>, brk: nat,
                                    at: nat, n: nat)
    requires LiveOk(base, size, free, live, brk) && base < brk <= at && Below(free, brk) && n > 0
    ensures at !in live && LiveOk(base, size[at := n], free, live[at := n], at + UNIT * n)
  {
    var live' := live[at := n];
    assert at !in live;
    forall a | a in live' ensures ApartFrom(free, Blk(a, live'[a])) {
      if a == at {
        forall i | 0 <= i < |free| ensures Apart(free[i], Blk(at, n)) { assert End(free[i]) <= brk; }
      }
    }
  }

  lemma {:induction false} MoreList(base: nat, ptr: map<nat, nat>, size: map<nat, nat>, free: seq<Blk>, freep: nat,
                                    brk: nat, at: nat, n: nat)
    requires ListOk(base, ptr, size, free, freep, brk) && base < brk <= at
    ensures ListOk(base, ptr, size[at := n], free, freep, at + UNIT * n)
  {
    var size' := size[at := n];
    forall i | 0 <= i < |free| ensures LinkedAt(ptr, size', free, i) {
      assert LinkedAt(ptr, size, free, i);
      assert i > 0 ==> free[i].n > 0;
      assert End(free[i]) <= brk;
    }
  }

  lemma {:induction false} NotFree(base: nat, free: seq<Blk>, b: Blk)
    requires Spaced(free) && free[0].addr == base && base < b.addr && b.n > 0 && ApartFrom(free, b)
    ensures !IsFree(free, b.addr)
  {
    forall i | 0 <= i < |free| ensures free[i].addr != b.addr { assert Apart(free[i], b); }
  }

  lemma {:induction false} FreedRoom(free: seq<Blk>, t: nat, b: Blk)
    requires t < |free|
    ensures Room(Coalesced(free, t, b), b.n)
  {
    var mid := Placed(free, t, b);
    var free' := Coalesced(free, t, b);
    assert mid[t + 1].n >= b.n;
    assert free'[if free' == mid then t + 1 else t].n >= b.n;
  }

  lemma {:induction false} FreedList(base: nat, free: seq<Blk>, t: nat, b: Blk, brk: nat)
    requires Spaced(free) && free[0].addr == base && Below(free, brk) && Between(free, t, b) && Fits(free, b)
    requires End(b) <= brk
    ensures var free' := Coalesced(free, t, b);
            Spaced(free') && free'[0].addr == base && Below(free', brk) && Units(free') == Units(free) + b.n
  {
    var free' := Coalesced(free, t, b);
    CoalescedSpaced(free, t, b);
    CoalescedUnits(free, t, b);
    assert free'[0].addr == base;
    hide Coalesced, Spaced, Between, Fits;
    forall i | 0 <= i < |free'| ensures End(free'[i]) <= brk {
      if free'[i].n > 0 {
        var x := End(free'[i]) - 1;
        assert Inside(free'[i], x);
        CoalescedCovers(free, t, b, x);
      }
    }
  }

  lemma {:induction false} FreedLive(base: nat, size: map<nat, nat>, free: seq<Blk>, live: map<nat, nat>, brk: nat,
                                     t: nat, bp: nat,
                                     size': map<nat, nat>)
    requires Spaced(free) && free[0].addr == base && LiveOk(base, size, free, live, brk) && bp in live && t < |free|
    requires Between(free, t, Blk(bp, live[bp])) && Fits(free, Blk(bp, live[bp]))
    requires forall a :: a in size ==> a in size' && (a != bp && a != free[t].addr ==> size'[a] == size[a])
    ensures LiveOk(base, size', Coalesced(free, t, Blk(bp, live[bp])), live - {bp}, brk)
  {
    var b, live' := Blk(bp, live[bp]), live - {bp};
    var free' := Coalesced(free, t, b);
    CoalescedSpaced(free, t, b);
    assert free'[0].addr == base;
    hide Coalesced, Between, Fits, Covers, Inside;
    forall a | a in live'
      ensures ApartFrom(free', Blk(a, live[a])) && a in size' && size'[a] == live[a]
    {
      var c := Blk(a, live[a]);
      NotFree(base, free, c);
      assert free[t].addr != a by { assert !IsFree(free, a); }
      forall x | Inside(c, x) ensures !Covers(free', x) {
        CoalescedCovers(free, t, b, x);
        ApartBytes(free, c);
      }
      BytesApart(base, free', c);
    }
  }

  lemma {:induction false} ApartBytes(free: seq<Blk>, c: Blk)
    requires ApartFrom(free, c)
    ensures forall x :: Inside(c, x) ==> !Covers(free, x)
  {
  }

  lemma {:induction false} BytesApart(base: nat, free: seq<Blk>, c: Blk)
    requires Spaced(free) && free[0].addr == base && base < c.addr && c.n > 0
    requires forall x :: Inside(c, x) ==> !Covers(free, x)
    ensures ApartFrom(free, c)
  {
    forall i | 0 <= i < |free| ensures Apart(free[i], c) {
      if !Apart(free[i], c) && i > 0 {
        var x := if free[i].addr < c.addr then c.addr else free[i].addr;
        assert Inside(c, x) && Inside(free[i], x);
      }
    }
  }

  /** A block handed out may be freed: it fits in the list, at one place. */
  lemma {:induction false} Freeable(base: nat, ptr: map<nat, nat>, size: map<nat, nat>, freep: nat, brk: nat,
                                    free: seq<Blk>, live: map<nat, nat>, granted: nat, bp: nat)
    requires Good(base, ptr, size, freep, brk, free, live, granted) && bp in live
    ensures freep != 0 && ListOk(base, ptr, size, free, freep, brk) && base < bp && bp in size && size[bp] == live[bp]
    ensures Fits(free, Blk(bp, live[bp])) && forall i :: 0 <= i < |free| ==> free[i].addr != bp
  {
    NotFree(base, free, Blk(bp, live[bp]));
  }

  lemma {:induction false} FreeKeeps(base: nat, ptr: map<nat, nat>, size: map<nat, nat>, freep: nat, brk: nat,
                                     free: seq<Blk>, live: map<nat, nat>, granted: nat, t: nat, bp: nat,
                                     ptr': map<nat, nat>, size': map<nat, nat>)
    requires Good(base, ptr, size, freep, brk, free, live, granted) && bp in live && bp in size && size[bp] == live[bp]
    requires Between(free, t, Blk(bp, size[bp])) && Linked(ptr', size', Coalesced(free, t, Blk(bp, size[bp])))
    requires forall a :: a in size ==> a in size' && (a != bp && a != free[t].addr ==> size'[a] == size[a])
    requires IsFree(Coalesced(free, t, Blk(bp, size[bp])), free[t].addr)
    ensures Good(base, ptr', size', free[t].addr, brk, Coalesced(free, t, Blk(bp, size[bp])), live - {bp}, granted)
    ensures free[t].addr != 0
  {
    var b := Blk(bp, size[bp]);
    hide Linked, Units, LiveUnits, Coalesced;
    FreedList(base, free, t, b, brk);
    FreedLive(base, size, free, live, brk, t, bp, size');
    LiveUnitsRemove(live, bp);
    assert t > 0 ==> End(free[0]) < free[t].addr;
  }

  lemma {:induction false} Freed(free: seq<Blk>, t: nat, b: Blk)
    requires t < |free|
    ensures Room(Coalesced(free, t, b), b.n) && Units(Coalesced(free, t, b)) == Units(free) + b.n
    ensures Gains(Coalesced(free, t, b), Blk(0, 0), free, b)
  {
    FreedRoom(free, t, b);
    CoalescedUnits(free, t, b);
    forall x
      ensures Covers(Coalesced(free, t, b), x) <==> Covers(free, x) || Inside(b, x)
    {
      CoalescedCovers(free, t, b, x);
    }
  }

  lemma {:induction false} MoreKeeps(base: nat, ptr: map<nat, nat>, size: map<nat, nat>, freep: nat, brk: nat,
                                     free: seq<Blk>, live: map<nat, nat>, granted: nat, at: nat, n: nat)
    requires Good(base, ptr, size, freep, brk, free, live, granted) && freep != 0 && brk <= at && n > 0
    ensures at !in live && live[at := n] - {at} == live
    ensures Good(base, ptr, size[at := n], freep, at + UNIT * n, free, live[at := n], granted + n)
  {
    hide Linked, Spaced, Units, LiveUnits;
    MoreLive(base, size, free, live, brk, at, n);
    LiveUnitsAdd(live, at, n);
    MoreList(base, ptr, size, free, freep, brk, at, n);
  }

  lemma {:induction false} InitKeeps(base: nat, ptr: map<nat, nat>, size: map<nat, nat>, brk: nat, live: map<nat, nat>,
                                     granted: nat)
    requires Good(base, ptr, size, 0, brk, [], live, granted)
    ensures Good(base, ptr[base := base], size[base := 0], base, brk, [Blk(base, 0)], live, granted)
  {
    var free := [Blk(base, 0)];
    assert Units(free) == 0 + Units(free[1..]);
    assert LinkedAt(ptr[base := base], size[base := 0], free, 0);
    assert free[0].addr == base;
  }

  lemma {:induction false} Enter(base: nat, ptr: map<nat, nat>, size: map<nat, nat>, freep: nat, brk: nat,
                                 free: seq<Blk>, live: map<nat, nat>, granted: nat, n: nat) returns (f: nat)
    requires Good(base, ptr, size, freep, brk, free, live, granted) && freep != 0
    ensures freep in ptr && Search(free, freep, freep, ptr[freep], f, 0, n)
  {
    f :| f < |free| && free[f].addr == freep;
    assert LinkedAt(ptr, size, free, f);
  }

  /** A lap of malloc's search goes on to the next block, or is back at freep with every block seen. */
  lemma {:induction false} Visit(base: nat, ptr: map<nat, nat>, size: map<nat, nat>, freep: nat, brk: nat,
                                 free: seq<Blk>, live: map<nat, nat>, granted: nat,
                                 prevp: nat, p: nat, f: nat, c: nat, n: nat)
    requires Good(base, ptr, size, freep, brk, free, live, granted) && freep != 0
    requires Search(free, freep, prevp, p, f, c, n) && n > 0
    ensures p in size && p in ptr && c < |free| && f < |free|
    ensures var i := Around(f, c, |free|);
            if size[p] >= n then 0 < i < |free| && p == free[i].addr && prevp == free[i - 1].addr && n <= free[i].n
            else if p == freep then !Room(free, n)
            else Search(free, freep, p, ptr[p], f, c + 1, n)
  {
    var i := Around(f, c, |free|);
    assert LinkedAt(ptr, size, free, i);
    SpacedRises(free, 0);
    assert free[0].n == 0;
    hide Linked, Spaced, LiveOk, Units, LiveUnits, Room, Below, IsFree;
    LapOver(free, f, c);
    hide Rising;
    AroundNext(f, c, |free|);
    hide Around, Behind, Succ;
    if size[p] < n {
      if p == freep { LapDone(free, f, c, n); }
    }
  }

  /** A lap is back where it began exactly at its end. */
  lemma {:induction false} LapOver(free: seq<Blk>, f: nat, c: nat)
    requires Rising(free) && f < |free| && c < |free|
    ensures free[Around(f, c, |free|)].addr == free[f].addr <==> c + 1 == |free|
  {
    var i := Around(f, c, |free|);
    assert i < f ==> free[i].addr < free[f].addr;
    assert f < i ==> free[f].addr < free[i].addr;
  }

  lemma {:induction false} AroundNext(f: nat, c: nat, n: nat)
    requires f < n && c < n
    ensures var i := Around(f, c, n);
            i < n && Behind(f, c, n) < n && (i > 0 ==> Behind(f, c, n) == i - 1) && (c + 1 == n ==> i == f) &&
            (c + 1 < n ==> Succ(i, n) == Around(f, c + 1, n) && Behind(f, c + 1, n) == i)
  {
  }

  lemma {:induction false} LapDone(free: seq<Blk>, f: nat, c: nat, n: nat)
    requires f < |free| && c + 1 == |free| && Passed(free, f, c, n) && free[Around(f, c, |free|)].n < n
    ensures !Room(free, n)
  {
    forall i | 0 <= i < |free| ensures free[i].n < n {
      var d := if f < i then i - f - 1 else i - f - 1 + |free|;
      assert i == Around(f, d, |free|);
    }
  }

  lemma {:induction false} HandOutCovers(base: nat, ptr: map<nat, nat>, size: map<nat, nat>, freep: nat, brk: nat,
                                         free: seq<Blk>, live: map<nat, nat>, granted: nat, i: nat, n: nat)
    requires Good(base, ptr, size, freep, brk, free, live, granted) && freep != 0 && i < |free| && 0 < n <= free[i].n
    ensures Gains(Carved(free, i, n), Blk(Piece(free, i, n).addr, n), free, Blk(0, 0))
    ensures Room(free, n)
  {
    hide Linked, Units, LiveUnits, LiveOk;
    forall x
      ensures Covers(Carved(free, i, n), x) <==> Covers(free, x) && !Inside(Blk(Piece(free, i, n).addr, n), x)
      ensures Inside(Blk(Piece(free, i, n).addr, n), x) ==> Covers(free, x)
    {
      CarvedCovers(free, i, n, x);
    }
  }

  lemma {:induction false} HandedOut(free': seq<Blk>, b': Blk, free: seq<Blk>, free1: seq<Blk>, free0: seq<Blk>,
                                     b: Blk, grown: bool)
    requires Gains(free', b', free, Blk(0, 0)) && SameBytes(free0, free1)
    requires if grown then Gains(free, Blk(0, 0), free1, b) else free == free1
    ensures Gains(free', b', free0, Blk(b.addr, if grown then b.n else 0))
  {
    forall x ensures Covers(free', x) || Inside(b', x) <==> Covers(free0, x) || (grown && Inside(b, x)) {
      assert !Inside(Blk(0, 0), x);
      assert Covers(free1, x) <==> Covers(free0, x);
    }
  }

  lemma {:induction false} CarvedKeeps(base: nat, ptr: map<nat, nat>, size: map<nat, nat>, freep: nat, brk: nat,
                                       free: seq<Blk>, live: map<nat, nat>, granted: nat, i: nat, n: nat)
    requires Good(base, ptr, size, freep, brk, free, live, granted) && freep != 0 && 0 < i < |free|
    requires 0 < n <= free[i].n
    ensures var h, free' := Piece(free, i, n).addr, Carved(free, i, n);
            var p, prevp := free[i].addr, free[i - 1].addr;
            p in ptr && p in size && size[p] == free[i].n && h !in live && prevp != 0 && h > 0 &&
            if free[i].n == n then Good(base, ptr[prevp := ptr[p]], size, prevp, brk, free', live[h := n], granted)
            else Good(base, ptr, size[p := size[p] - n][h := n], prevp, brk, free', live[h := n], granted)
  {
    var h, free' := Piece(free, i, n).addr, Carved(free, i, n);
    var p, prevp := free[i].addr, free[i - 1].addr;
    assert LinkedAt(ptr, size, free, i);
    var ptr' := if free[i].n == n then ptr[prevp := ptr[p]] else ptr;
    var size' := if free[i].n == n then size else size[p := size[p] - n][h := n];
    CarvedLinked(ptr, size, free, i, n);
    CarvedSpaced(free, i, n);
    CarvedBelow(free, i, n, brk);
    CarvedUnits(free, i, n);
    CarvedLive(base, size, free, live, brk, i, n, size');
    LiveUnitsAdd(live, h, n);
    assert free'[i - 1].addr == prevp;
    assert free[0].addr <= prevp by { assert i > 1 ==> End(free[0]) < free[i - 1].addr; }
    assert free'[0].addr == base;
  }

  lemma {:induction false} CarvedBelow(free: seq<Blk>, i: nat, n: nat, brk: nat)
    requires Below(free, brk) && i < |free| && n <= free[i].n
    ensures Below(Carved(free, i, n), brk)
  {
    var free' := Carved(free, i, n);
    forall k | 0 <= k < |free'| ensures End(free'[k]) <= brk {
      assert End(free'[k]) <= End(free[if free[i].n == n && k >= i then k + 1 else k]);
    }
  }

  lemma {:induction false} UnlinkedAt(ptr: map<nat, nat>, size: map<nat, nat>, free: seq<Blk>, i: nat)
    requires Linked(ptr, size, free) && Rising(free) && 0 < i < |free|
    ensures free[i].addr in ptr && Linked(ptr[free[i - 1].addr := ptr[free[i].addr]], size, free[..i] + free[i + 1..])
  {
    var p, prevp, free' := free[i].addr, free[i - 1].addr, free[..i] + free[i + 1..];
    assert LinkedAt(ptr, size, free, i);
    var ptr' := ptr[prevp := ptr[p]];
    forall k | 0 <= k < |free'| ensures LinkedAt(ptr', size, free', k) {
      var m := if k >= i then k + 1 else k;
      assert free'[k] == free[m] && LinkedAt(ptr, size, free, m);
      assert m < i - 1 ==> free[m].addr < prevp;
      assert i - 1 < m ==> prevp < free[m].addr;
    }
  }

  lemma {:induction false} CutAt(ptr: map<nat, nat>, size: map<nat, nat>, free: seq<Blk>, i: nat, n: nat)
    requires Linked(ptr, size, free) && Rising(free) && Spaced(free) && 0 < i < |free| && 0 < n < free[i].n
    ensures var p := free[i].addr;
            p in size && size[p] == free[i].n &&
            Linked(ptr, size[p := size[p] - n][Piece(free, i, n).addr := n], free[i := Blk(p, free[i].n - n)])
  {
    var p, h := free[i].addr, Piece(free, i, n).addr;
    assert LinkedAt(ptr, size, free, i);
    var free', size' := free[i := Blk(p, free[i].n - n)], size[p := size[p] - n][h := n];
    assert p < h < End(free[i]);
    forall k | 0 <= k < |free'| ensures LinkedAt(ptr, size', free', k) {
      assert LinkedAt(ptr, size, free, k);
      assert k < i ==> free[k].addr < p;
      assert i < k ==> End(free[i]) < free[k].addr;
      assert free'[Succ(k, |free'|)].addr == free[Succ(k, |free|)].addr;
    }
  }

  lemma {:induction false} CarvedLinked(ptr: map<nat, nat>, size: map<nat, nat>, free: seq<Blk>, i: nat, n: nat)
    requires Linked(ptr, size, free) && Spaced(free) && 0 < i < |free| && 0 < n <= free[i].n
    ensures var p, prevp := free[i].addr, free[i - 1].addr;
            p in ptr && p in size && size[p] == free[i].n &&
            if free[i].n == n then Linked(ptr[prevp := ptr[p]], size, Carved(free, i, n))
            else Linked(ptr, size[p := size[p] - n][Piece(free, i, n).addr := n], Carved(free, i, n))
  {
    SpacedRises(free, 0);
    assert LinkedAt(ptr, size, free, i);
    hide Linked, Spaced, Rising;
    if free[i].n == n { UnlinkedAt(ptr, size, free, i); } else { CutAt(ptr, size, free, i, n); }
  }

  lemma {:induction false} CarvedClear(base: nat, free: seq<Blk>, i: nat, n: nat, c: Blk)
    requires Spaced(free) && free[0].addr == base < c.addr && c.n > 0 && ApartFrom(free, c)
    requires 0 < i < |free| && 0 < n <= free[i].n
    ensures c.addr != free[i].addr && c.addr != Piece(free, i, n).addr && Apart(Piece(free, i, n), c)
    ensures ApartFrom(Carved(free, i, n), c)
  {
    assert Apart(free[i], c);
    ApartBytes(free, c);
    CarvedSpaced(free, i, n);
    assert Carved(free, i, n)[0].addr == base;
    hide Carved, Spaced;
    forall x | Inside(c, x) ensures !Covers(Carved(free, i, n), x) { CarvedCovers(free, i, n, x); }
    BytesApart(base, Carved(free, i, n), c);
  }

  lemma {:induction false} CarvedLive(base: nat, size: map<nat, nat>, free: seq<Blk>, live: map<nat, nat>, brk: nat,
                                      i: nat, n: nat,
                                      size': map<nat, nat>)
    requires Spaced(free) && free[0].addr == base && LiveOk(base, size, free, live, brk) && Below(free, brk)
    requires 0 < i < |free| && 0 < n <= free[i].n && free[i].addr in size && size[free[i].addr] == free[i].n
    requires size' == if free[i].n == n then size
                      else size[free[i].addr := size[free[i].addr] - n][Piece(free, i, n).addr := n]
    ensures var h := Piece(free, i, n).addr;
            h !in live && LiveOk(base, size', Carved(free, i, n), live[h := n], brk)
  {
    hide Carved, Units, LiveUnits;
    var b, free' := Piece(free, i, n), Carved(free, i, n);
    var h, live' := b.addr, live[b.addr := n];
    assert End(free[0]) < free[i].addr && End(b) == End(free[i]) <= brk;
    forall a | a in live
      ensures a != h && a != free[i].addr && Apart(b, Blk(a, live[a])) && ApartFrom(free', Blk(a, live[a]))
    {
      CarvedClear(base, free, i, n, Blk(a, live[a]));
    }
    PieceClear(base, free, i, n);
    hide Spaced, ApartFrom, Below;
  }

  lemma {:induction false} PieceClear(base: nat, free: seq<Blk>, i: nat, n: nat)
    requires Spaced(free) && free[0].addr == base && 0 < i < |free| && 0 < n <= free[i].n
    ensures base < Piece(free, i, n).addr && ApartFrom(Carved(free, i, n), Piece(free, i, n))
  {
    CarvedSpaced(free, i, n);
    assert End(free[0]) < free[i].addr;
    assert Carved(free, i, n)[0].addr == base;
    hide Carved, Spaced;
    forall x | Inside(Piece(free, i, n), x) ensures !Covers(Carved(free, i, n), x) { CarvedCovers(free, i, n, x); }
    BytesApart(base, Carved(free, i, n), Piece(free, i, n));
  }

  function PlacedPtr(ptr: map<nat, nat>, size: map<nat, nat>, p: nat, bp: nat): map<nat, nat>
    requires p in ptr && bp in size && ptr[p] in ptr
  {
    ptr[bp := if bp + UNIT * size[bp] == ptr[p] then ptr[ptr[p]] else ptr[p]][p := bp]
  }

  function PlacedSize(ptr: map<nat, nat>, size: map<nat, nat>, p: nat, bp: nat): map<nat, nat>
    requires p in ptr && bp in size && ptr[p] in size
  {
    if bp + UNIT * size[bp] == ptr[p] then size[bp := size[bp] + size[ptr[p]]] else size
  }

  /** A header outside lo..hi is as it was, but that block lo - 1 is linked to the new block. */
  ghost predicate Relinked(ptr: map<nat, nat>, size: map<nat, nat>, free: seq<Blk>, lo: nat, hi: nat, j: Blk,
                           ptr': map<nat, nat>, size': map<nat, nat>, i: nat)
    requires i < |free|
  {
    0 <= i < lo || hi <= i ==>
      var a := free[i].addr;
      a in ptr && a in size && a in ptr' && a in size' && size'[a] == size[a] && ptr'[a] == if i == lo - 1 then j.addr
                                                                                            else ptr[a]
  }

  lemma {:induction false} SplicedLinked(ptr: map<nat, nat>, size: map<nat, nat>, free: seq<Blk>, lo: nat, hi: nat,
                                         j: Blk,
                                         ptr': map<nat, nat>, size': map<nat, nat>)
    requires Linked(ptr, size, free) && 0 < lo <= hi <= |free|
    requires forall i :: 0 <= i < |free| ==> Relinked(ptr, size, free, lo, hi, j, ptr', size', i)
    requires j.addr in ptr' && j.addr in size' && size'[j.addr] == j.n
    requires ptr'[j.addr] == free[if hi < |free| then hi else 0].addr
    ensures Linked(ptr', size', Spliced(free, lo, hi, j))
  {
    var free' := Spliced(free, lo, hi, j);
    hide Spliced;
    forall i | 0 <= i < |free'|
      ensures LinkedAt(ptr', size', free', i)
    {
      if i != lo {
        var k := if i < lo then i else i - lo - 1 + hi;
        assert free'[i] == free[k] && LinkedAt(ptr, size, free, k);
        assert Relinked(ptr, size, free, lo, hi, j, ptr', size', k);
      }
    }
  }

  ghost predicate Rising(free: seq<Blk>) { forall i, k :: 0 <= i < k < |free| ==> free[i].addr < free[k].addr }

  lemma {:induction false} SpacedRises(free: seq<Blk>, t: nat)
    requires Spaced(free) || (SpacedBut(free, t) && t + 1 < |free| && free[0].addr < free[t + 1].addr)
    ensures Rising(free)
  {
    forall i, k | 0 <= i < k < |free|
      ensures free[i].addr < free[k].addr
    {
      assert End(free[i]) <= free[k].addr;
    }
  }

  lemma {:induction false} NextAbove(ptr: map<nat, nat>, size: map<nat, nat>, free: seq<Blk>, t: nat, b: Blk)
    requires Linked(ptr, size, free) && Rising(free) && Between(free, t, b)
    ensures var p := free[t].addr;
            p in ptr && ptr[p] in ptr && ptr[p] in size && ptr[p] == free[Succ(t, |free|)].addr &&
            (End(b) == ptr[p] <==> Above(free, t, b)) && forall i :: 0 <= i < |free| ==> free[i].addr != b.addr
  {
    assert LinkedAt(ptr, size, free, t) && LinkedAt(ptr, size, free, Succ(t, |free|));
    forall i | 0 <= i < |free|
      ensures free[i].addr != b.addr
    {
      assert i < t ==> free[i].addr < free[t].addr;
      assert i > t + 1 ==> free[t + 1].addr < free[i].addr;
    }
    if t + 1 == |free| { assert free[0].addr <= free[t].addr; }
  }

  lemma {:induction false} LinkPlaced(ptr: map<nat, nat>, size: map<nat, nat>, free: seq<Blk>, t: nat, b: Blk)
    requires Linked(ptr, size, free) && Rising(free) && Between(free, t, b) && b.addr in size && size[b.addr] == b.n
    ensures var p := free[t].addr;
            p in ptr && ptr[p] in ptr && ptr[p] in size &&
            Linked(PlacedPtr(ptr, size, p, b.addr), PlacedSize(ptr, size, p, b.addr), Placed(free, t, b))
  {
    NextAbove(ptr, size, free, t, b);
    var p, n := free[t].addr, |free|;
    var ptr', size' := PlacedPtr(ptr, size, p, b.addr), PlacedSize(ptr, size, p, b.addr);
    var j, lo, hi := Joined(free, t, b), t + 1, if Above(free, t, b) then t + 2 else t + 1;
    hide Spliced;
    forall i | 0 <= i < n
      ensures Relinked(ptr, size, free, lo, hi, j, ptr', size', i)
    {
      assert LinkedAt(ptr, size, free, i);
      assert i != t ==> free[i].addr != p;
    }
    if Above(free, t, b) { assert LinkedAt(ptr, size, free, t + 1); }
    assert j.addr in ptr' && j.addr in size' && size'[j.addr] == j.n;
    assert ptr'[j.addr] == free[if hi < n then hi else 0].addr;
    hide Linked, Rising, Relinked;
    SplicedLinked(ptr, size, free, lo, hi, j, ptr', size');
  }

  lemma {:induction false} LinkMerged(ptr: map<nat, nat>, size: map<nat, nat>, free: seq<Blk>, t: nat)
    requires Linked(ptr, size, free) && Rising(free) && t + 1 < |free| && (t == 0 ==> free[0].n == 0)
    ensures var p, q := free[t].addr, free[t + 1].addr;
            p in ptr && q in ptr && p in size && q in size && size[p] == free[t].n && size[q] == free[t + 1].n &&
            if End(free[t]) == q then Linked(ptr[p := ptr[q]], size[p := size[p] + size[q]], Merged(free, t))
            else Linked(ptr, size, Merged(free, t))
  {
    hide Spliced, Relinked;
    var p, q, n := free[t].addr, free[t + 1].addr, |free|;
    assert LinkedAt(ptr, size, free, t) && LinkedAt(ptr, size, free, t + 1);
    if End(free[t]) == q {
      var ptr', size' := ptr[p := ptr[q]], size[p := size[p] + size[q]];
      var j, hi := Blk(p, free[t].n + free[t + 1].n), t + 2;
      forall i | 0 <= i < n
        ensures Relinked(ptr, size, free, t, hi, j, ptr', size', i)
      {
        assert LinkedAt(ptr, size, free, i);
        MergeRelinks(ptr, size, free, t, i);
      }
      SplicedLinked(ptr, size, free, t, hi, j, ptr', size');
    }
  }

  lemma {:induction false} MergeRelinks(ptr: map<nat, nat>, size: map<nat, nat>, free: seq<Blk>, t: nat, i: nat)
    requires t + 1 < |free| && i < |free| && Rising(free) && (t == 0 ==> free[0].n == 0)
    requires End(free[t]) == free[t + 1].addr
    requires LinkedAt(ptr, size, free, t) && LinkedAt(ptr, size, free, t + 1) && LinkedAt(ptr, size, free, i)
    ensures var p, q := free[t].addr, free[t + 1].addr;
            Relinked(ptr, size, free, t, t + 2, Blk(p, free[t].n + free[t + 1].n), ptr[p := ptr[q]],
                     size[p := size[p] + size[q]], i)
  {
    assert i != t ==> free[i].addr != free[t].addr;
  }

  lemma {:induction false} EndTest(ptr: map<nat, nat>, size: map<nat, nat>, free: seq<Blk>, t: nat, b: Blk)
    requires Linked(ptr, size, free) && Between(free, t, b) && EndExact(free, b)
    ensures free[t].addr in ptr && (End(b) % U32 == ptr[free[t].addr] <==> End(b) == ptr[free[t].addr])
  {
    assert LinkedAt(ptr, size, free, t);
  }

  /** The headers after each half of free's linking. */
  lemma {:induction false} LinkBoth(ptr: map<nat, nat>, size: map<nat, nat>, free: seq<Blk>, t: nat, b: Blk)
    returns (ptr1: map<nat, nat>, size1: map<nat, nat>)
    requires Linked(ptr, size, free) && Spaced(free) && Between(free, t, b) && Fits(free, b) && b.addr in size
    requires size[b.addr] == b.n
    ensures var p, bp := free[t].addr, b.addr;
            p in ptr && ptr[p] in ptr && ptr[p] in size && p in size && p != bp && ptr[p] != bp &&
            ptr1 == PlacedPtr(ptr, size, p, bp) && size1 == PlacedSize(ptr, size, p, bp) &&
            t + 1 < |Placed(free, t, b)| && t < |Merged(Placed(free, t, b), t)| &&
            Merged(Placed(free, t, b), t)[t].addr == p && bp in ptr1 &&
            if p + UNIT * size[p] == bp then
              Linked(ptr1[p := ptr1[bp]], size1[p := size1[p] + size1[bp]], Coalesced(free, t, b))
            else Linked(ptr1, size1, Coalesced(free, t, b))
  {
    hide Spliced, Linked, Fits, Spaced, SpacedBut, Rising, Above, Joined, Merged, Placed;
    var p, mid := free[t].addr, Placed(free, t, b);
    SpacedRises(free, t);
    NextAbove(ptr, size, free, t, b);
    PlacedHas(free, t, b);
    LinkPlaced(ptr, size, free, t, b);
    PlacedRises(free, t, b);
    ptr1, size1 := PlacedPtr(ptr, size, p, b.addr), PlacedSize(ptr, size, p, b.addr);
    LinkMerged(ptr1, size1, mid, t);
    MergedHas(mid, t);
  }

  lemma {:induction false} PlacedRises(free: seq<Blk>, t: nat, b: Blk)
    requires Spaced(free) && Between(free, t, b) && Fits(free, b)
    ensures var mid := Placed(free, t, b);
            Rising(mid) && (t == 0 ==> mid[0].n == 0)
  {
    PlacedHas(free, t, b);
    PlacedSpaced(free, t, b);
    assert free[0].addr <= free[t].addr by { assert t > 0 ==> End(free[0]) < free[t].addr; }
    hide Placed;
    SpacedRises(Placed(free, t, b), t);
  }

  lemma {:induction false} PlacedHas(free: seq<Blk>, t: nat, b: Blk)
    requires t < |free|
    ensures var mid := Placed(free, t, b);
            t + 1 < |mid| && mid[0] == free[0] && mid[t] == free[t] && mid[t + 1].addr == b.addr
  {
  }

  lemma {:induction false} MergedHas(free: seq<Blk>, t: nat)
    requires t + 1 < |free|
    ensures t < |Merged(free, t)| && Merged(free, t)[t].addr == free[t].addr
  {
  }

  /** The last free block below an address. */
  ghost function PlaceOf(free: seq<Blk>, bp: nat): (t: nat)
    requires Spaced(free) && free[0].addr < bp
    ensures t < |free| && free[t].addr < bp && (t + 1 < |free| ==> bp <= free[t + 1].addr)
    decreases |free|
  {
    var last := |free| - 1;
    if free[last].addr < bp then last else PlaceOf(free[..last], bp)
  }
}
