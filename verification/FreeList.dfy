/** The free blocks of the user-level allocator, in address order, as values. Sizes are in units of one
  header; block 0 is the empty block `base`, below every address sbrk returns. */
module FreeList {
  const UNIT: nat := 8                 // sizeof(Header)

  datatype Blk = Blk(addr: nat, n: nat)

  function End(b: Blk): nat { b.addr + UNIT * b.n }

  predicate Inside(b: Blk, x: nat) { b.addr <= x < End(b) }

  predicate Apart(a: Blk, b: Blk) { End(a) <= b.addr || End(b) <= a.addr }

  /** In address order, and no two blocks so close that they should have been one. */
  ghost predicate Spaced(free: seq<Blk>)
  {
    |free| > 0 && free[0].n == 0 &&
    (forall i :: 1 <= i < |free| ==> free[i].n > 0) &&
    (forall i, j :: 0 <= i < j < |free| ==> End(free[i]) < free[j].addr)
  }

  ghost predicate Covers(free: seq<Blk>, x: nat) { exists i :: 0 <= i < |free| && Inside(free[i], x) }

  function Units(free: seq<Blk>): nat
  {
    if free == [] then 0 else free[0].n + Units(free[1..])
  }

  lemma {:induction false} UnitsConcat(a: seq<Blk>, b: seq<Blk>)
    ensures Units(a + b) == Units(a) + Units(b)
  {
    if a == [] {
      assert a + b == b;
    } else {
      UnitsConcat(a[1..], b);
      assert (a + b)[1..] == a[1..] + b;
    }
  }

  lemma {:induction false} UnitsAt(free: seq<Blk>, i: nat)
    requires i < |free|
    ensures Units(free) == Units(free[..i]) + free[i].n + Units(free[i + 1..])
  {
    assert free == free[..i] + ([free[i]] + free[i + 1..]);
    UnitsConcat(free[..i], [free[i]] + free[i + 1..]);
    UnitsConcat([free[i]], free[i + 1..]);
    assert Units([free[i]]) == free[i].n + Units([]);
  }

  // ----- free -----

  /** Where a block belongs: after block t and before block t + 1. */
  ghost predicate Between(free: seq<Blk>, t: nat, b: Blk)
  {
    t < |free| && free[t].addr < b.addr && (t + 1 < |free| ==> b.addr < free[t + 1].addr)
  }

  ghost predicate ApartFrom(free: seq<Blk>, b: Blk) { forall i :: 0 <= i < |free| ==> Apart(free[i], b) }

  ghost predicate Fits(free: seq<Blk>, b: Blk)
  {
    b.n > 0 && ApartFrom(free, b)
  }

  predicate Above(free: seq<Blk>, t: nat, b: Blk) { t + 1 < |free| && End(b) == free[t + 1].addr }

  /** The block as it is once the block above it has been joined on. */
  function Joined(free: seq<Blk>, t: nat, b: Blk): Blk
  {
    Blk(b.addr, b.n + if Above(free, t, b) then free[t + 1].n else 0)
  }

  /** Blocks lo..hi replaced by one block. */
  function Spliced(free: seq<Blk>, lo: nat, hi: nat, j: Blk): (free': seq<Blk>)
    requires lo <= hi <= |free|
    ensures |free'| == |free| - hi + lo + 1 && free'[lo] == j
    ensures forall i :: 0 <= i < lo ==> free'[i] == free[i]
    ensures forall i :: lo < i < |free'| ==> free'[i] == free[i - lo - 1 + hi]
  {
    free[..lo] + [j] + free[hi..]
  }

  /** The block linked in after block t, with the block above it joined on. */
  function Placed(free: seq<Blk>, t: nat, b: Blk): seq<Blk>
    requires t < |free|
  {
    Spliced(free, t + 1, if Above(free, t, b) then t + 2 else t + 1, Joined(free, t, b))
  }

  /** Blocks t and t + 1 made one if they touch. */
  function Merged(free: seq<Blk>, t: nat): seq<Blk>
    requires t + 1 < |free|
  {
    if End(free[t]) == free[t + 1].addr then Spliced(free, t, t + 2, Blk(free[t].addr, free[t].n + free[t + 1].n))
    else free
  }

  function Coalesced(free: seq<Blk>, t: nat, b: Blk): (free': seq<Blk>)
    requires t < |free|
  {
    Merged(Placed(free, t, b), t)
  }

  lemma {:induction false} SplicedCovers(free: seq<Blk>, lo: nat, hi: nat, j: Blk, x: nat)
    requires lo <= hi <= |free|
    ensures Covers(Spliced(free, lo, hi, j), x) <==>
            Inside(j, x) || exists i :: (0 <= i < lo || hi <= i < |free|) && Inside(free[i], x)
  {
    var free' := Spliced(free, lo, hi, j);
    hide Inside, Spliced;
    if i :| (0 <= i < lo || hi <= i < |free|) && Inside(free[i], x) {
      var i' := if i < lo then i else i - hi + lo + 1;
      assert free'[i'] == free[i];
    }
    if i :| 0 <= i < |free'| && Inside(free'[i], x) {
      if i != lo {
        var i' := if i < lo then i else i - lo - 1 + hi;
        assert free'[i] == free[i'];
      }
    }
  }

  lemma {:induction false} UnitsTwo(free: seq<Blk>, t: nat)
    requires t + 1 < |free|
    ensures Units(free) == Units(free[..t]) + free[t].n + free[t + 1].n + Units(free[t + 2..])
  {
    UnitsAt(free, t);
    UnitsAt(free[t + 1..], 0);
    assert free[t + 1..][..0] == [] && free[t + 1..][1..] == free[t + 2..];
  }

  lemma {:induction false} CoalescedUnits(free: seq<Blk>, t: nat, b: Blk)
    requires t < |free|
    ensures Units(Coalesced(free, t, b)) == Units(free) + b.n
  {
    var mid := Placed(free, t, b);
    UnitsTwo(mid, t);
    assert mid[..t] == free[..t] && mid[t] == free[t];
    assert mid[t + 2..] == if Above(free, t, b) then free[t + 2..] else free[t + 1..];
    if Above(free, t, b) { UnitsTwo(free, t); } else { UnitsAt(free, t); }
    var free' := Merged(mid, t);
    if free' != mid {
      UnitsAt(free', t);
      assert free'[..t] == mid[..t] && free'[t + 1..] == mid[t + 2..];
    }
  }

  /** Spaced, except that block t + 1 may touch block t. */
  ghost predicate SpacedBut(free: seq<Blk>, t: nat)
  {
    |free| > 0 && free[0].n == 0 &&
    (forall i :: 1 <= i < |free| ==> free[i].n > 0) &&
    (forall i, j :: 0 <= i < j < |free| ==> End(free[i]) <= free[j].addr && (i != t || j != t + 1 ==>
      End(free[i]) < free[j].addr))
  }

  lemma {:induction false} SplicedPair(free: seq<Blk>, lo: nat, hi: nat, j: Blk, i: nat, k: nat)
    requires Spaced(free) && 0 < lo <= hi <= |free| && i < k < |Spliced(free, lo, hi, j)|
    requires End(free[lo - 1]) <= j.addr && (hi < |free| ==> End(j) < free[hi].addr)
    ensures var free' := Spliced(free, lo, hi, j);
            End(free'[i]) <= free'[k].addr && (i != lo - 1 || k != lo ==> End(free'[i]) < free'[k].addr)
  {
    var free' := Spliced(free, lo, hi, j);
    hide Spliced;
    if i == lo {
      var k' := k - lo - 1 + hi;
      assert free'[k] == free[k'];
      assert k' > hi ==> End(free[hi]) < free[k'].addr;
    } else if k == lo {
      assert free'[i] == free[i];
      assert i < lo - 1 ==> End(free[i]) < free[lo - 1].addr;
    } else {
      var i', k' := if i < lo then i else i - lo - 1 + hi, if k < lo then k else k - lo - 1 + hi;
      assert free'[i] == free[i'] && free'[k] == free[k'];
    }
  }

  lemma {:induction false} PlacedSpaced(free: seq<Blk>, t: nat, b: Blk)
    requires Spaced(free) && Between(free, t, b) && Fits(free, b)
    ensures SpacedBut(Placed(free, t, b), t)
  {
    assert Apart(free[t], b);
    assert t + 1 < |free| ==> Apart(free[t + 1], b);
    var j, mid := Joined(free, t, b), Placed(free, t, b);
    var hi := if Above(free, t, b) then t + 2 else t + 1;
    assert hi < |free| ==> End(j) < free[hi].addr;
    assert End(free[t]) <= j.addr by { assert t > 0 ==> free[t].n > 0; }
    hide Above, Joined, Spliced, End;
    forall i, k | 0 <= i < k < |mid|
      ensures End(mid[i]) <= mid[k].addr && (i != t || k != t + 1 ==> End(mid[i]) < mid[k].addr)
    {
      SplicedPair(free, t + 1, hi, j, i, k);
    }
  }

  lemma {:induction false} MergedSpaced(free: seq<Blk>, t: nat)
    requires SpacedBut(free, t) && t + 1 < |free| && free[0].addr < free[t + 1].addr
    ensures Spaced(Merged(free, t))
  {
    var free' := Merged(free, t);
    if free' != free {
      assert t != 0;
      assert forall i :: 0 <= i < t ==> free'[i] == free[i];
      assert forall i :: t < i < |free'| ==> free'[i] == free[i + 1];
    }
  }

  lemma {:induction false} CoalescedSpaced(free: seq<Blk>, t: nat, b: Blk)
    requires Spaced(free) && Between(free, t, b) && Fits(free, b)
    ensures Spaced(Coalesced(free, t, b))
  {
    PlacedSpaced(free, t, b);
    assert free[0].addr <= free[t].addr by { assert t > 0 ==> End(free[0]) < free[t].addr; }
    MergedSpaced(Placed(free, t, b), t);
  }

  lemma {:induction false} PlacedCovers(free: seq<Blk>, t: nat, b: Blk, x: nat)
    requires t < |free|
    ensures Covers(Placed(free, t, b), x) <==> Covers(free, x) || Inside(b, x)
  {
    var j := Joined(free, t, b);
    SplicedCovers(free, t + 1, if Above(free, t, b) then t + 2 else t + 1, j, x);
    assert Inside(j, x) <==> Inside(b, x) || (Above(free, t, b) && Inside(free[t + 1], x));
  }

  lemma {:induction false} MergedCovers(free: seq<Blk>, t: nat, x: nat)
    requires t + 1 < |free|
    ensures Covers(Merged(free, t), x) <==> Covers(free, x)
  {
    if End(free[t]) == free[t + 1].addr {
      var j := Blk(free[t].addr, free[t].n + free[t + 1].n);
      SplicedCovers(free, t, t + 2, j, x);
      assert Inside(j, x) <==> Inside(free[t], x) || Inside(free[t + 1], x);
    }
  }

  /** Exactly the bytes of the freed block become free. */
  lemma {:induction false} CoalescedCovers(free: seq<Blk>, t: nat, b: Blk, x: nat)
    requires t < |free|
    ensures Covers(Coalesced(free, t, b), x) <==> Covers(free, x) || Inside(b, x)
  {
    PlacedCovers(free, t, b, x);
    MergedCovers(Placed(free, t, b), t, x);
  }

  // ----- malloc -----

  function Carved(free: seq<Blk>, i: nat, n: nat): (free': seq<Blk>)
    requires i < |free| && n <= free[i].n
  {
    if free[i].n == n then free[..i] + free[i + 1..] else free[i := Blk(free[i].addr, free[i].n - n)]
  }

  /** The tail end of the block, which malloc hands out. */
  function Piece(free: seq<Blk>, i: nat, n: nat): Blk
    requires i < |free| && n <= free[i].n
  {
    Blk(free[i].addr + UNIT * (free[i].n - n), n)
  }

  lemma {:induction false} CarvedUnits(free: seq<Blk>, i: nat, n: nat)
    requires i < |free| && n <= free[i].n
    ensures Units(Carved(free, i, n)) == Units(free) - n
  {
    UnitsAt(free, i);
    if free[i].n == n {
      UnitsConcat(free[..i], free[i + 1..]);
    } else {
      var free' := Carved(free, i, n);
      UnitsAt(free', i);
      assert free'[..i] == free[..i] && free'[i + 1..] == free[i + 1..];
    }
  }

  lemma {:induction false} CarvedSpaced(free: seq<Blk>, i: nat, n: nat)
    requires Spaced(free) && i < |free| && 0 < n <= free[i].n
    ensures i > 0 && Spaced(Carved(free, i, n))
  {
  }

  /** Exactly the bytes handed out stop being free. */
  lemma {:induction false} CarvedCovers(free: seq<Blk>, i: nat, n: nat, x: nat)
    requires Spaced(free) && i < |free| && 0 < n <= free[i].n
    ensures Covers(Carved(free, i, n), x) <==> Covers(free, x) && !Inside(Piece(free, i, n), x)
    ensures Inside(Piece(free, i, n), x) ==> Covers(free, x)
  {
    var free' := Carved(free, i, n);
    var gone := free[i].n == n;
    if Inside(Piece(free, i, n), x) { assert Inside(free[i], x); }
    if j :| 0 <= j < |free| && Inside(free[j], x) {
      if !Inside(Piece(free, i, n), x) {
        assert Inside(free'[if gone && j > i then j - 1 else j], x);
      }
    }
    if j :| 0 <= j < |free'| && Inside(free'[j], x) {
      assert Inside(free[if gone && j >= i then j + 1 else j], x);
    }
  }
}
