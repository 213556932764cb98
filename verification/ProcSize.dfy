/** sys_sbrk and growproc: how the size of a process changes, and what sbrk answers. */
module ProcSize {
  import opened Params

  const INT_MIN: nat := 0x8000_0000    // as a uint

  /** Done: the old size is returned, the size is now `size` and the pages below `mapped` are there.
      Fails: -1 is returned and nothing has changed. Gone: every page of the process has been freed. */
  datatype Answer = Fails | Gone | Done(size: nat, mapped: nat)

  /** sbrk(arg) in a process of size sz. An argument of 2^31 or more is a negative int; `pages` tells whether
      allocuvm finds the pages it needs. */
  function Sbrk(sz: nat, arg: nat, pages: bool): Answer
    requires sz < KERNBASE && arg < U32
  {
    if 0 < arg < INT_MIN then
      if sz + arg >= KERNBASE || !pages then Fails else Done(sz + arg, PGSIZE * PageUp(sz + arg))
    else
      var newsz := (sz + arg) % U32;
      if newsz >= sz then Done(sz, PGSIZE * PageUp(sz))
      else if newsz == 0 then Gone
      else Done(newsz, PGSIZE * PageUp(newsz))
  }

  /** Whether the process can store at its old end when sbrk has returned. */
  predicate EndMapped(sz: nat, arg: nat, pages: bool)
    requires sz < KERNBASE && arg < U32
  {
    var a := Sbrk(sz, arg, pages);
    a.Done? && sz < a.mapped
  }

  /** An address in a page whose rounded-up end comes from a lower address x. */
  lemma {:induction false} SamePage(sz: nat, x: nat)
    requires 0 < x <= sz
    ensures sz < PGSIZE * PageUp(x) <==> sz % PGSIZE != 0 && sz - x < sz % PGSIZE
  {
    var q, r := sz / PGSIZE, sz % PGSIZE;
    assert sz == PGSIZE * q + r;
    if sz - x < r {
      assert x + PGSIZE - 1 == PGSIZE * (q + 1) + (x - PGSIZE * q - 1);
      assert PageUp(x) == q + 1;
    } else {
      assert x + PGSIZE - 1 < PGSIZE * (q + 1);
      assert PageUp(x) <= q;
    }
  }

  lemma {:induction false} PagesRise(x: nat, y: nat)
    requires x <= y
    ensures PageUp(x) <= PageUp(y)
  {
  }

  /** For an argument that is not positive sbrk never adds memory, and the old end can be stored to exactly
      when it was inside a page and the end moves down, if at all, within that page. */
  lemma {:induction false} NeverGrows(sz: nat, arg: nat, pages: bool)
    requires 0 < sz < KERNBASE && arg < U32 && (arg == 0 || arg >= INT_MIN)
    ensures var a := Sbrk(sz, arg, pages);
            !a.Fails? && (a.Done? ==> 0 < a.size <= sz && (a.size == sz || a.size == sz + arg - U32))
    ensures EndMapped(sz, arg, pages) <==>
            sz % PGSIZE != 0 && (arg == 0 || U32 - arg > sz || U32 - arg < sz % PGSIZE)
  {
    var newsz := (sz + arg) % U32;
    assert newsz == if sz + arg < U32 then sz + arg else sz + arg - U32;
    var x := if newsz >= sz then sz else newsz;
    if x > 0 { SamePage(sz, x); }
    hide PageUp;
  }
}
