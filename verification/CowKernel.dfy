/** kalloc.c and vm.c: the allocator and the page-table code, changing their state in place.

  Each method that runs without interruption takes one step of `CowMachine`; the loops of
  allocuvm, deallocuvm, freevm, setupkvm and copyuvm string such steps together. */
module CowKernel {
  import opened Params
  import opened PageFrames
  import opened CowMachine
  import opened CowSafety
  import opened CowRefinement
  import opened CowRuns

  /** Directory entries that setupkvm fills: KERNBASE..KERNBASE+PHYSTOP and DEVSPACE upwards. */
  predicate KernelPdx(i: nat) { 512 <= i < 568 || 1016 <= i < 1024 }

  const SETUP_PAGES: nat := 65         // the directory and the kernel's page tables

  function KernelTables(i: nat): nat { Min(i - Min(i, 512), 56) + (i - Min(i, 1016)) }

  /** Page tables for the first v pages of an address space. */
  function UserTables(v: nat): nat { (v + NPTENTRIES - 1) / NPTENTRIES }

  ghost function Span(s: nat, a: nat, b: nat): (slots: set<Slot>)
    ensures forall x: Slot :: x in slots <==> x.Entry? && x.space == s && a <= x.vpn < b
  {
    set v: nat {:trigger Entry(s, v)} | a <= v < b :: Entry(s, v)
  }

  lemma {:induction false} SpanJoin(w: Words, s: nat, a: nat, v: nat, v': nat)
    requires a <= v <= v'
    ensures w - Span(s, a, v) - Span(s, v, v') == w - Span(s, a, v')
  {
  }

  lemma {:induction false} SpanOne(w: Words, s: nat, v: nat)
    ensures w - Span(s, v, v + 1) == if Entry(s, v) in w then w - {Entry(s, v)} else w
  {
  }

  lemma {:induction false} NextDirectory(v: nat)
    requires v < USER_PAGES
    ensures v < (Pdx(v) + 1) * NPTENTRIES <= USER_PAGES
  {
  }

  lemma {:induction false} NoTableNoPage(words: Words, s: nat, v: nat, b: nat)
    requires Nested(words) && Table(s, Pdx(v)) !in words && b <= (Pdx(v) + 1) * NPTENTRIES
    ensures words - Span(s, v, b) == words
  {
    forall x | x in Span(s, v, b) ensures x !in words {
      assert Pdx(x.vpn) == Pdx(v);
    }
  }

  /** Every page of the smaller image is a page of the larger one, with the same bytes. */
  /** A user page of s that begins between the two sizes. */
  predicate InRange(x: Slot, s: nat, newsz: nat, oldsz: nat)
  {
    x.Entry? && x.space == s && newsz <= x.vpn * 4096 < oldsz
  }

  lemma {:induction false} SpanRange(s: nat, newsz: nat, oldsz: nat)
    ensures forall x: Slot :: x in Span(s, PageUp(newsz), PageUp(oldsz)) <==> InRange(x, s, newsz, oldsz)
  {
    forall x: Slot ensures x in Span(s, PageUp(newsz), PageUp(oldsz)) <==> InRange(x, s, newsz, oldsz) {
      if x.Entry? {
        PageAbove(newsz, x.vpn);
        PageAbove(oldsz, x.vpn);
      }
    }
  }

  lemma {:induction false} PageAbove(size: nat, v: nat)
    ensures PageUp(size) <= v <==> size <= v * 4096
  {
  }

  /** kfree of frame f: one reference less, and with none left the page is junk and first on the free list. */
  ghost predicate Recycled(m: Mem, f: nat, m': Mem)
    requires f < |m.count| == |m.data|
  {
    var n := m.count[f];
    |m'.count| == |m'.data| == |m.count| && m'.count == m.count[f := if n > 0 then n - 1 else 0] &&
    if n > 1 then m'.data == m.data && m'.free == m.free && m'.freePages == m.freePages
    else m'.free == [f] + m.free && m'.freePages == m.freePages + 1 &&
         (forall i :: 0 <= i < PGSIZE ==> m'.data[f][i] == 1) &&
         forall g :: 0 <= g < |m.data| && g != f ==> m'.data[g] == m.data[g]
  }

  /** kalloc: the first page of the free list, counted once, zeroed by the caller unless it is a stack. */
  ghost predicate Given(m: Mem, slot: Slot, m': Mem)
  {
    m.free != [] && m.free[0] < |m.count| == |m.data| == |m'.data| && var f := m.free[0];
    m'.free == m.free[1..] && m'.words == m.words[slot := Word(f, true, true)] && m'.count == m.count[f := 1] &&
    (forall i :: 0 <= i < PGSIZE ==> m'.data[f][i] == if slot.Stack? then m.data[f][i] else 0) &&
    forall g :: 0 <= g < |m.data| && g != f ==> m'.data[g] == m.data[g]
  }

  /** COW_FAULT: with count 1 the page becomes writable; otherwise the word gets a copy of its own, the first free page,
      and the process is killed if there is none. */
  ghost predicate FaultDone(m: Mem, e: Slot, m': Mem, killed: bool)
  {
    e in m.words && e in m'.words && m.words[e].frame < |m.count| && var n := m.count[m.words[e].frame];
    n >= 1 && (killed <==> n > 1 && m.free == []) && (forall t :: t in m'.words <==> t in m.words) &&
    (forall t :: t in m.words && t != e ==> m'.words[t] == m.words[t]) &&
    if n == 1 then m'.free == m.free && m'.words[e] == m.words[e].(w := true)
    else if killed then m'.words == m.words && m'.free == m.free
    else m'.free == m.free[1..] && m'.words[e] == Word(m.free[0], true, true)
  }

  lemma {:induction false} FaultEffect(m: Mem, s: nat, v: nat)
    requires Inv(m) && Enabled(m, Fault(s, v))
    ensures FaultDone(m, Entry(s, v), Next(m, Fault(s, v)), !Succeeds(m, Fault(s, v)))
  {
    hide Inv, Idle, PendSet, Refs;
    CountOfIdle(m, Entry(s, v));
    WordFrame(m, Entry(s, v));
    var e, m' := Entry(s, v), Next(m, Fault(s, v));
    if m.count[m.words[e].frame] == 1 {
      assert m'.words == m.words[e := m.words[e].(w := true)];
    } else if m.free != [] {
      assert m'.words == m.words[e := Word(m.free[0], true, true)];
    }
  }

  /** One byte of one page of one process is new. */
  ghost predicate ByteStored(img: Image, e: Slot, off: nat, b: Byte, img': Image)
  {
    e in img && off < PGSIZE && img' == img[e := img[e][off := b]]
  }

  /** A step that could be taken, taken. */
  ghost predicate Does(m: Mem, st: Step, m': Mem) { Inv(m) && Enabled(m, st) && m' == Next(m, st) }

  lemma {:induction false} TablesNested(m: Mem)
    requires Inv(m)
    ensures Nested(m.words)
  {
  }

  lemma {:induction false} InFlightFrame(m: Mem, c: nat)
    requires Inv(m) && c in m.pending
    ensures m.pending[c].frame < |m.count|
  {
    assert Entry(c, m.pending[c].vpn) in m.words;
  }

  lemma {:induction false} WordFrame(m: Mem, e: Slot)
    requires Inv(m) && e in m.words
    ensures m.words[e].frame < |m.count|
  {
  }

  /** The page of word e has to be copied before it can be stored to, and there is no page to copy it to. */
  ghost predicate NoCopy(m: Mem, e: Slot)
  {
    e in m.words && !m.words[e].w && m.words[e].frame < |m.count| && m.count[m.words[e].frame] != 1 && m.free == []
  }

  ghost predicate Part(a: Image, b: Image) { forall x :: x in a ==> x in b && a[x] == b[x] }

  ghost predicate OfSpace(x: Slot, s: nat) { x.space == s && (x.Dir? || x.Table? || x.Entry?) }

  /** Page directories after freevm has released the user pages and the first i tables of s. */
  ghost function Freed(w: Words, s: nat, i: nat): Words
  {
    map x | x in w && !(x.space == s && (x.Entry? || (x.Table? && x.pdx < i))) :: w[x]
  }

  lemma {:induction false} FreedNext(w: Words, s: nat, i: nat)
    ensures Freed(w, s, i + 1) == if Table(s, i) in Freed(w, s, i) then Freed(w, s, i) - {Table(s, i)}
                                  else Freed(w, s, i)
  {
  }

  /** All that is left once the address space of s is gone. */
  ghost function Without(w: Words, s: nat): Words
  {
    map x | x in w && !OfSpace(x, s) :: w[x]
  }

  lemma {:induction false} WithoutNone(w: Words, s: nat)
    requires forall x :: x in w ==> !OfSpace(x, s)
    ensures Without(w, s) == w
  {
  }

  lemma {:induction false} WithoutAdd(w: Words, w': Words, s: nat, x: Slot)
    requires x in w' && OfSpace(x, s) && w' - {x} == w
    ensures Without(w', s) == Without(w, s)
  {
    assert forall y :: y in w' && y != x ==> y in w && w[y] == w'[y];
  }

  lemma {:induction false} OwnFacts(m: Mem, slot: Slot)
    requires Inv(m) && Enabled(m, Own(slot))
    ensures m.freePages == |m.free| && |m.count| == |m.data| && Inv(Next(m, Own(slot)))
    ensures (Succeeds(m, Own(slot)) <==> m.free != [])
    ensures m.free == [] ==> Next(m, Own(slot)) == m
    ensures m.free != [] ==>
      var m' := Next(m, Own(slot));
      m.free[0] < |m.count| && m' == OwnStep(m, slot) && slot in m'.words && m'.words - {slot} == m.words &&
      m'.freePages == m.freePages - 1 && m'.pending == m.pending && m'.stale == m.stale &&
      CowImage(m') == ImageNext(CowImage(m), Own(slot))
  {
    hide AllBalanced, WritableUnshared, PendingOk, Nested, StaleOk, ImageOf;
    StepKeeps(m, Own(slot));
    if m.free != [] {
      assert m.free[0] in m.free;
      CowStepImage(m, Own(slot));
      assert OwnStep(m, slot).words - {slot} == m.words;
    }
  }

  lemma {:induction false} ShareFacts(m: Mem, p: nat, c: nat, v: nat)
    requires Inv(m) && Enabled(m, Share(p, c, v))
    ensures Inv(Next(m, Share(p, c, v)))
    ensures Next(m, Share(p, c, v)) ==
            Mem(m.lo, m.free, m.freePages, m.count, m.data, m.words[Entry(c, v) := m.words[Entry(p, v)]],
                m.pending[c := InFlight(p, v, m.words[Entry(p, v)].frame)], m.stale)
    ensures Entry(p, v) in m.words && c !in m.pending && Entry(p, v) in CowImage(m)
    ensures CowImage(Next(m, Share(p, c, v))) == CowImage(m)[Entry(c, v) := CowImage(m)[Entry(p, v)]]
  {
    StepKeeps(m, Share(p, c, v));
    CowStepImage(m, Share(p, c, v));
  }

  ghost predicate AllValid(w: Words) { forall x :: x in w ==> ValidSlot(x) }

  lemma {:induction false} SlotsValid(m: Mem)
    requires Inv(m)
    ensures AllValid(m.words)
  {
  }

  lemma {:induction false} FreedEnds(w: Words, s: nat)
    requires AllValid(w)
    ensures w - Span(s, 0, USER_PAGES) == Freed(w, s, 0)
    ensures Freed(w, s, NPDENTRIES) - {Dir(s)} == Without(w, s)
    ensures forall i: nat :: Table(s, i) !in Freed(w, s, NPDENTRIES)
  {
  }

  // ----- copyuvm, page by page -----

  /** Slots outside the page directory of c are as they were, up to PTE_W. */
  ghost predicate Kept(before: Words, words: Words, c: nat)
  {
    forall x: Slot :: !OfSpace(x, c) ==>
      (x in before <==> x in words) && (x in before ==> words[x] == before[x].(w := words[x].w))
  }

  ghost predicate KeptImage(image: Image, img: Image, c: nat)
  {
    forall x: Slot :: !OfSpace(x, c) ==> (x in image <==> x in img) && (x in image ==> img[x] == image[x])
  }

  /** v pages are shared read-only between p and its child c, and nothing else has moved. */
  ghost predicate Copied(before: Words, image: Image, words: Words, img: Image, p: nat, c: nat, v: nat)
  {
    Dir(c) in words && Kept(before, words, c) && KeptImage(image, img, c) &&
    (forall i: nat :: Entry(c, i) in words <==> i < v) &&
    (forall i: nat :: i < v ==>
      Entry(p, i) in words && words[Entry(c, i)] == words[Entry(p, i)] && !words[Entry(p, i)].w) &&
    (forall i: nat :: i < v ==> Entry(p, i) in image && Entry(c, i) in img && img[Entry(c, i)] == image[Entry(p, i)])
  }

  /** The child has the page tables for its first v pages, and no others below the kernel. */
  ghost predicate TablesTo(words: Words, c: nat, v: nat)
  {
    forall i: nat :: i < 512 ==> (Table(c, i) in words <==> i < UserTables(v))
  }

  lemma {:induction false} NextTable(v: nat)
    requires v < USER_PAGES
    ensures Pdx(v) < 512 && (Pdx(v) < UserTables(v) <==> UserTables(v + 1) == UserTables(v))
    ensures UserTables(v + 1) == if Pdx(v) < UserTables(v) then UserTables(v) else Pdx(v) + 1
    ensures !(Pdx(v) < UserTables(v)) ==> Pdx(v) == UserTables(v)
  {
  }

  lemma {:induction false} TablesNext(w: Words, w': Words, c: nat, v: nat)
    requires TablesTo(w, c, v) && v < USER_PAGES
    requires forall i: nat :: Table(c, i) in w' <==> Table(c, i) in w || i == Pdx(v)
    ensures TablesTo(w', c, v + 1)
  {
    NextTable(v);
  }

  lemma {:induction false} TablesGrow(v: nat, v': nat)
    requires v <= v'
    ensures UserTables(v) <= UserTables(v')
  {
  }

  lemma {:induction false} CopiedStart(before: Words, image: Image, words: Words, img: Image, p: nat, c: nat)
    requires Without(words, c) == before && Dir(c) in words && forall v :: Entry(c, v) !in words
    requires Part(img, image)
    requires forall x :: x in img <==> x in words && Visible(x)
    requires forall x :: x in image <==> x in before && Visible(x)
    ensures Copied(before, image, words, img, p, c, 0)
  {
    forall x: Slot | !OfSpace(x, c) ensures x in before <==> x in words {}
  }

  lemma {:induction false} CopiedProtect(before: Words, image: Image, words: Words, img: Image, p: nat, c: nat, v: nat)
    requires p != c && Entry(p, v) in words && Copied(before, image, words, img, p, c, v)
    ensures Copied(before, image, words[Entry(p, v) := words[Entry(p, v)].(w := false)], img, p, c, v)
  {
  }

  lemma {:induction false} CopiedTable(before: Words, image: Image, words: Words, words': Words, img: Image, p: nat,
                                       c: nat, v: nat, t: nat)
    requires p != c && Copied(before, image, words, img, p, c, v) && Table(c, t) !in words
    requires words' - {Table(c, t)} == words
    ensures Copied(before, image, words', img, p, c, v)
  {
    assert forall y :: y in words' && y != Table(c, t) ==> y in words && words[y] == words'[y];
    assert forall y :: y in words ==> y in words' && words[y] == words'[y];
  }

  lemma {:induction false} CopiedShare(before: Words, image: Image, words: Words, img: Image, p: nat, c: nat, v: nat)
    requires p != c && Entry(p, v) in words && !words[Entry(p, v)].w && Copied(before, image, words, img, p, c, v)
    requires Entry(p, v) in img
    ensures var words', img' := words[Entry(c, v) := words[Entry(p, v)]], img[Entry(c, v) := img[Entry(p, v)]];
            Copied(before, image, words', img', p, c, v + 1)
  {
  }

  lemma {:induction false} ImageKeys(m: Mem)
    requires Inv(m)
    ensures Backed(m.words, m.data)
    ensures forall x :: x in CowImage(m) <==> x in m.words && Visible(x)
  {
  }

  lemma {:induction false} UndoneWords(before: Words, words: Words, words': Words, c: nat)
    requires Kept(before, words, c) && words' == Without(words, c) && forall x :: x in before ==> !OfSpace(x, c)
    ensures Kept(before, words', c) && before.Keys == words'.Keys
  {
    forall x: Slot ensures x in before <==> x in words' {}
  }

  lemma {:induction false} UndoneImage(image: Image, img: Image, img': Image, c: nat)
    requires KeptImage(image, img, c) && Part(img', img) && image.Keys == img'.Keys
    requires forall x :: x in image ==> !OfSpace(x, c)
    ensures img' == image
  {
    forall x | x in image ensures img'[x] == image[x] { assert x in img'; }
  }

  lemma {:induction false} CopiedHas(before: Words, image: Image, words: Words, img: Image, p: nat, c: nat, v: nat)
    requires Copied(before, image, words, img, p, c, v)
    ensures Dir(c) in words && Kept(before, words, c) && KeptImage(image, img, c)
  {
  }

  lemma {:induction false} Undone(m: Mem, words: Words, img: Image, m': Mem, c: nat)
    requires Inv(m) && Inv(m') && m.lo == m'.lo && |m.count| == |m'.count|
    requires forall x :: x in m.words ==> !OfSpace(x, c)
    requires Kept(m.words, words, c) && KeptImage(CowImage(m), img, c)
    requires m'.words == Without(words, c) && Part(CowImage(m'), img)
    ensures Kept(m.words, m'.words, c) && m.words.Keys == m'.words.Keys
    ensures CowImage(m') == CowImage(m) && m.freePages == m'.freePages
  {
    hide Inv, CowImage;
    UndoneWords(m.words, words, m'.words, c);
    ImageKeys(m);
    ImageKeys(m');
    UndoneImage(CowImage(m), img, CowImage(m'), c);
    UndoneFreePages(m, m', c);
  }

  lemma {:induction false} KeptSelf(m: Mem, c: nat)
    requires Inv(m) && forall x :: x in m.words ==> !OfSpace(x, c)
    ensures Kept(m.words, m.words, c) && KeptImage(CowImage(m), CowImage(m), c) && Without(m.words, c) == m.words
  {
  }

  lemma {:induction false} UndoneFreePages(m: Mem, m': Mem, c: nat)
    requires Inv(m) && Inv(m') && m.lo == m'.lo && |m.count| == |m'.count|
    requires m.words.Keys == m'.words.Keys && Kept(m.words, m'.words, c)
    requires forall x :: x in m.words ==> !OfSpace(x, c)
    ensures m.freePages == m'.freePages
  {
    forall f ensures f in Named(m.words) <==> f in Named(m'.words) {
      if s :| s in m.words && m.words[s].frame == f { assert m'.words[s].frame == f; }
      if s :| s in m'.words && m'.words[s].frame == f { assert s in m.words && m.words[s].frame == f; }
    }
    assert Named(m.words) == Named(m'.words);
    FreePagesLaw(m);
    FreePagesLaw(m');
  }

  // ----- allocuvm, page by page -----

  /** Page tables may be created on the way and are kept. */
  ghost predicate SameButTables(before: Words, words: Words, s: nat)
  {
    forall x: Slot :: !(x.Table? && x.space == s) ==>
      (x in before <==> x in words) && (x in before ==> words[x] == before[x])
  }

  ghost function TableCost(words: Words, s: nat, v: nat): nat { if Table(s, Pdx(v)) in words then 0 else 1 }

  /** The page tables that have to be made for pages a..v, one for each table without one. */
  ghost function NewTables(words: Words, s: nat, a: nat, v: nat): nat
  {
    if v <= a then 0
    else NewTables(words, s, a, v - 1) + if v - 1 > a && Pdx(v - 2) == Pdx(v - 1) then 0 else TableCost(words, s, v - 1)
  }

  ghost predicate GrowthFits(words: Words, s: nat, oldsz: nat, newsz: nat, pages: nat)
  {
    oldsz <= newsz < KERNBASE &&
    (PageUp(oldsz) <= PageUp(newsz) ==>
      pages >= PageUp(newsz) - PageUp(oldsz) + NewTables(words, s, PageUp(oldsz), PageUp(newsz)))
  }

  /** The tables there are once pages a..v have been added. */
  ghost predicate TablesGrown(before: Words, words: Words, s: nat, a: nat, v: nat)
  {
    forall i: nat :: Table(s, i) in words <==> Table(s, i) in before || (a < v && Pdx(a) <= i <= Pdx(v - 1))
  }

  lemma {:induction false} NewTablesStart(words: Words, s: nat, a: nat)
    ensures NewTables(words, s, a, a) == 0 && TablesGrown(words, words, s, a, a)
  {
  }

  lemma {:induction false} GrownTable(before: Words, words: Words, s: nat, a: nat, v: nat)
    requires a <= v && TablesGrown(before, words, s, a, v)
    ensures NewTables(before, s, a, v + 1) == NewTables(before, s, a, v) + TableCost(words, s, v)
  {
  }

  lemma {:induction false} TablesMore(before: Words, words: Words, words': Words, s: nat, a: nat, v: nat)
    requires a <= v && TablesGrown(before, words, s, a, v)
    requires forall i: nat :: Table(s, i) in words' <==> Table(s, i) in words || i == Pdx(v)
    ensures TablesGrown(before, words', s, a, v + 1)
  {
    assert a < v ==> Pdx(v) <= Pdx(v - 1) + 1 && Pdx(v - 1) <= Pdx(v);
  }

  lemma {:induction false} NewTablesGrow(words: Words, s: nat, a: nat, v: nat, b: nat)
    requires a <= v <= b
    ensures NewTables(words, s, a, v) <= NewTables(words, s, a, b)
    decreases b
  {
    if v < b { NewTablesGrow(words, s, a, v, b - 1); }
  }

  /** Pages a..b of s are new, writable and zero; nothing else has changed. */
  ghost predicate Grown(before: Words, image: Image, words: Words, img: Image, s: nat, a: nat, b: nat)
  {
    SameButTables(before, words - Span(s, a, b), s) && image == img - Span(s, a, b) &&
    forall v: nat :: a <= v < b ==>
      Entry(s, v) in words && words[Entry(s, v)].w && words[Entry(s, v)].u &&
      Entry(s, v) in img && img[Entry(s, v)] == Filled(0)
  }

  lemma {:induction false} GrownStart(m: Mem, s: nat, a: nat)
    requires Inv(m)
    ensures Grown(m.words, CowImage(m), m.words, CowImage(m), s, a, a)
  {
    assert Span(s, a, a) == {};
    assert m.words - {} == m.words && CowImage(m) - {} == CowImage(m);
  }

  /** The new page moves from `mem` to the page table. */
  lemma {:induction false} GrownNext(before: Words, image: Image, words: Words, words': Words, img: Image, s: nat,
                                     a: nat, v: nat)
    requires a <= v && Grown(before, image, words, img, s, a, v) && Entry(s, v) !in words && Entry(s, v) !in img
    requires Entry(s, v) in words' && words'[Entry(s, v)].w && words'[Entry(s, v)].u
    requires SameButTables(words, words' - {Entry(s, v)}, s)
    ensures Grown(before, image, words', img[Entry(s, v) := Filled(0)], s, a, v + 1)
  {
    assert img[Entry(s, v) := Filled(0)] - Span(s, a, v + 1) == img - Span(s, a, v);
    forall x: Slot | !(x.Table? && x.space == s)
      ensures var w' := words' - Span(s, a, v + 1);
              (x in before <==> x in w') && (x in before ==> w'[x] == before[x])
    {
      assert x in words - Span(s, a, v) <==> x in before;
      assert x != Entry(s, v) ==> (x in words <==> x in words' - {Entry(s, v)});
    }
  }

  /** allocuvm's page: allocated, its table found or made, and mapped. */
  lemma {:induction false} FreshWords(w0: Words, w1: Words, w2: Words, w3: Words, s: nat, v: nat)
    requires Local(s) !in w0 && Local(s) in w1 && w1 - {Local(s)} == w0 && Local(s) in w2
    requires w2 == w1 || (Table(s, Pdx(v)) !in w1 && w2 - {Table(s, Pdx(v))} == w1)
    requires Table(s, Pdx(v)) in w2 && Entry(s, v) !in w0
    requires w3 == (w2 - {Local(s)})[Entry(s, v) := Word(w2[Local(s)].frame, true, true)]
    ensures SameButTables(w0, w3 - {Entry(s, v)}, s)
    ensures forall i: nat :: Table(s, i) in w3 <==> Table(s, i) in w0 || i == Pdx(v)
  {
    hide Pdx;
    assert forall x :: x in w1 && x != Local(s) ==> x in w0 && w0[x] == w1[x];
  }

  lemma {:induction false} GrownUndone(m: Mem, words: Words, img: Image, m': Mem, s: nat, a: nat, v: nat, b: nat)
    requires Inv(m) && Inv(m') && a <= v <= b && Grown(m.words, CowImage(m), words, img, s, a, v)
    requires forall i: nat :: v <= i < b ==> Entry(s, i) !in words
    requires m'.words == words - Span(s, a, b) && Part(CowImage(m'), img)
    ensures SameButTables(m.words, m'.words, s) && CowImage(m') == CowImage(m)
  {
    hide Inv, CowImage;
    ImageKeys(m);
    ImageKeys(m');
    assert words - Span(s, a, b) == words - Span(s, a, v);
    forall x | x in CowImage(m) ensures x in CowImage(m') && CowImage(m')[x] == CowImage(m)[x] {
      assert x in m.words;
    }
    forall x | x in CowImage(m') ensures x in CowImage(m) {
      assert x in m'.words && Visible(x);
    }
  }

  class Kernel {
    const lo: nat
    const rCount: array<nat>
    const frames: array<Page>
    var freelist: seq<nat>
    var freePages: nat
    var words: Words
    var stale: Words                   // words still in memory whose frame has been released
    ghost var pending: map<nat, InFlight>

    ghost function View(): Mem
      reads this, rCount, frames
    {
      Mem(lo, freelist, freePages, rCount[..], frames[..], words, pending, stale)
    }

    ghost predicate Valid()
      reads this, rCount, frames
    {
      Inv(View())
    }

    ghost function Img(): Image
      requires Valid()
      reads this, rCount, frames
    {
      CowImage(View())
    }

    /** kinit1 and kinit2: freerange hands every frame from `end` to PHYSTOP to kfree. */
    constructor (first: nat, top: nat)
      requires first <= top
      ensures Valid() && fresh(rCount) && fresh(frames)
      ensures lo == first && rCount.Length == top && words == map[] && pending == map[] && stale == map[]
      ensures freePages == top - first
    {
      lo := first;
      rCount := new nat[top](_ => 0);
      frames := new Page[top](_ => Filled(0));
      freelist, freePages, words, pending, stale := [], 0, map[], map[], map[];
      new;
      for p := first to top
        invariant rCount.Length == frames.Length == top && words == map[] && pending == map[] && stale == map[]
        invariant |freelist| == freePages == p - first
        invariant forall i :: 0 <= i < |freelist| ==> freelist[i] == p - 1 - i
        invariant forall f :: 0 <= f < top ==> rCount[f] == 0
      {
        rCount[p] := 0;
        Kfree(p);
      }
      forall f: nat | Managed(View(), f) ensures Balanced(View(), f) {
        RefsZero(words, f);
        assert PendSet(pending, f) == {};
        assert freelist[top - 1 - f] == f;
      }
    }

    method Kfree(f: nat)
      requires f < rCount.Length == frames.Length
      modifies this`freelist, this`freePages, rCount, frames
      ensures View() == Release(old(View()), f)
      ensures Recycled(old(View()), f, View())
    {
      if rCount[f] > 0 {
        rCount[f] := rCount[f] - 1;
      }
      if rCount[f] == 0 {
        frames[f] := Filled(1);
        freelist, freePages := [f] + freelist, freePages + 1;
      }
    }

    /** kalloc into a slot of the page tables or a kernel pointer, with the memset the caller does. */
    method AllocInto(slot: Slot) returns (ok: bool)
      requires Valid() && Enabled(View(), Own(slot))
      modifies this, rCount, frames
      ensures Valid() && Does(old(View()), Own(slot), View()) && ok == Succeeds(old(View()), Own(slot))
      ensures pending == old(pending) && stale == old(stale) && (ok <==> old(freePages) > 0)
      ensures if ok then slot in words && words - {slot} == old(words) && freePages == old(freePages) - 1
              else View() == old(View())
      ensures Img() == if ok then ImageNext(old(Img()), Own(slot)) else old(Img())
      ensures ok ==> Given(old(View()), slot, View())
    {
      OwnFacts(View(), slot);
      hide Inv, ImageNext, CowImage, OwnStep, Next, Enabled, Given;
      ok := freelist != [];
      if ok {
        Take(slot);
      }
    }

    method Take(slot: Slot)
      requires rCount.Length == frames.Length && freelist != [] && freePages > 0 && freelist[0] < rCount.Length
      modifies this, rCount, frames
      ensures View() == OwnStep(old(View()), slot) && Given(old(View()), slot, View())
    {
      var f := freelist[0];
      freelist, freePages := freelist[1..], freePages - 1;
      rCount[f] := 1;
      if !slot.Stack? {
        frames[f] := Filled(0);
      }
      words := words[slot := Word(f, true, true)];
    }

    /** kfree of the frame that a slot names. The slot still holds the frame's address. */
    method ReleaseSlot(slot: Slot)
      requires Valid() && Enabled(View(), Drop(slot))
      modifies this, rCount, frames
      ensures Valid() && Does(old(View()), Drop(slot), View()) && pending == old(pending)
      ensures words == old(words) - {slot} && slot !in old(stale) && stale == old(stale)[slot := old(words)[slot]]
      ensures Img() == old(Img()) - {slot} && freePages >= old(freePages)
    {
      hide Recycled;
      StepKeeps(View(), Drop(slot));
      CowStepImage(View(), Drop(slot));
      Kfree(words[slot].frame);
      stale := stale[slot := words[slot]];
      words := words - {slot};
    }

    /** *pte = 0. Nothing reads the entries of a directory that is being taken apart, nor its address, so those
        count as cleared as well. */
    method ClearSlot(slot: Slot)
      requires Valid() && slot in stale
      modifies this`stale
      ensures Valid() && Does(old(View()), Clear(slot), View()) && stale == old(stale) - {slot}
      ensures Img() == old(Img())
    {
      StepKeeps(View(), Clear(slot));
      stale := stale - {slot};
    }

    method DropSlot(slot: Slot)
      requires Valid() && Enabled(View(), Drop(slot))
      modifies this, rCount, frames
      ensures Valid() && words == old(words) - {slot} && pending == old(pending) && stale == old(stale)
      ensures Img() == old(Img()) - {slot} && freePages >= old(freePages)
    {
      hide Inv, Next, Enabled;
      ReleaseSlot(slot);
      ClearSlot(slot);
    }

    /** walkpgdir: the table that holds vpn, created on request. */
    method Walk(s: nat, v: nat, alloc: bool) returns (present: bool)
      requires Valid() && s < NPROC && v < USER_PAGES && Dir(s) in words && Idle(View(), s)
      modifies this, rCount, frames
      ensures Valid() && pending == old(pending) && stale == old(stale) && Img() == old(Img())
      ensures present == (Table(s, Pdx(v)) in words)
      ensures present <==> Table(s, Pdx(v)) in old(words) || (alloc && old(freePages) > 0)
      ensures freePages == old(freePages) - if present && Table(s, Pdx(v)) !in old(words) then 1 else 0
      ensures words == old(words) ||
              (alloc && Table(s, Pdx(v)) !in old(words) && words - {Table(s, Pdx(v))} == old(words))
      ensures !alloc || Table(s, Pdx(v)) in old(words) ==> View() == old(View())
    {
      present := Table(s, Pdx(v)) in words;
      if !present && alloc {
        present := AllocInto(Table(s, Pdx(v)));
      }
    }

    /** i_rCount, closing the window that mapping the child's page opened. */
    method CountPending(c: nat, f: nat)
      requires Valid() && c in pending && f == pending[c].frame
      modifies this`pending, rCount
      ensures Valid() && Img() == old(Img()) && pending == old(pending) - {c}
      ensures Does(old(View()), Count(c), View())
      ensures f < rCount.Length && rCount[..] == old(rCount[..])[f := (old(rCount[f]) + 1) % 0x1_0000_0000]
    {
      hide Inv, ImageOf;
      InFlightFrame(View(), c);
      StepKeeps(View(), Count(c));
      rCount[f] := Inc(rCount[f]);
      pending := pending - {c};
    }

    /** The copying half of COW_FAULT. */
    method SplitPage(s: nat, v: nat, f: nat)
      requires Entry(s, v) in words && f == words[Entry(s, v)].frame < rCount.Length == frames.Length
      requires freelist != [] && freePages > 0 && freelist[0] < rCount.Length
      modifies this, rCount, frames
      ensures View() == SplitStep(old(View()), s, v) && freelist == old(freelist)[1..]
    {
      var mem := freelist[0];
      freelist, freePages := freelist[1..], freePages - 1;
      rCount[mem] := 1;
      frames[mem] := frames[f];
      words := words[Entry(s, v) := Word(mem, true, true)];
      rCount[f] := Dec(rCount[f]);
    }

    /** COW_FAULT. A process that cannot be given a page of its own is killed. */
    method CowFault(s: nat, v: nat) returns (killed: bool)
      requires Valid() && Enabled(View(), Fault(s, v))
      modifies this, rCount, frames
      ensures Valid() && Does(old(View()), Fault(s, v), View()) && killed == !Succeeds(old(View()), Fault(s, v))
      ensures Img() == old(Img())
      ensures pending == old(pending) && stale == old(stale) && Entry(s, v) in words && words[Entry(s, v)].u
      ensures !killed ==> words[Entry(s, v)].w
      ensures FaultDone(old(View()), Entry(s, v), View(), killed)
    {
      var e := Entry(s, v);
      ghost var m := View();
      hide FaultDone, CowImage;
      StepKeeps(m, Fault(s, v));
      CowFaultImage(m, s, v);
      FaultEffect(m, s, v);
      CountOfIdle(m, e);
      var f := words[e].frame;
      killed := false;
      if rCount[f] == 1 {
        words := words[e := words[e].(w := true)];
      } else if freelist != [] {
        assert freelist[0] in freelist;
        SplitPage(s, v, f);
      } else {
        killed := true;
      }
    }

    /** One turn of deallocuvm's loop. */
    method ReleaseNext(s: nat, v: nat, ghost hi: nat) returns (v': nat)
      requires Valid() && s < NPROC && Dir(s) in words && Idle(View(), s) && v < hi <= USER_PAGES
      modifies this, rCount, frames
      ensures Valid() && pending == old(pending) && stale == old(stale) && v < v' <= USER_PAGES
      ensures words == old(words) - Span(s, v, Min(v', hi))
      ensures v' == if Table(s, Pdx(v)) in old(words) then v + 1 else (Pdx(v) + 1) * NPTENTRIES
      ensures Part(Img(), old(Img()))
    {
      hide Inv, CowImage, Span, Nested, Pdx;
      TablesNested(View());
      var present := Walk(s, v, false);
      if !present {
        v' := (Pdx(v) + 1) * NPTENTRIES;
        NoTableNoPage(words, s, v, Min(v', hi));
        NextDirectory(v);
      } else {
        v' := v + 1;
        ReleaseOne(s, v);
      }
    }

    method ReleaseOne(s: nat, v: nat)
      requires Valid() && Idle(View(), s)
      modifies this, rCount, frames
      ensures Valid() && pending == old(pending) && stale == old(stale) && words == old(words) - Span(s, v, v + 1)
      ensures Part(Img(), old(Img()))
    {
      hide Inv, CowImage, Span;
      SpanOne(words, s, v);
      if Entry(s, v) in words {
        DropSlot(Entry(s, v));
      }
    }

    /** deallocuvm: every present user page of the range is released once, and nothing else; a missing
        directory entry lets the loop jump to the next directory. */
    method Deallocuvm(s: nat, oldsz: nat, newsz: nat) returns (r: nat)
      requires Valid() && s < NPROC && Dir(s) in words && Idle(View(), s) && oldsz <= KERNBASE
      modifies this, rCount, frames
      ensures Valid() && pending == old(pending) && stale == old(stale)
      ensures r == if newsz >= oldsz then oldsz else newsz
      ensures words == old(words) - Span(s, PageUp(newsz), PageUp(oldsz))
      ensures forall x :: x in words <==> x in old(words) && !InRange(x, s, newsz, oldsz)
      ensures forall x :: x in words ==> words[x] == old(words)[x]
      ensures Part(Img(), old(Img()))
    {
      SpanRange(s, newsz, oldsz);
      if newsz >= oldsz {
        assert Span(s, PageUp(newsz), PageUp(oldsz)) == {};
        return oldsz;
      }
      ghost var hi := PageUp(oldsz);
      var v := PageUp(newsz);
      assert Span(s, v, v) == {};
      while v * PGSIZE < oldsz
        invariant Valid() && pending == old(pending) && stale == old(stale) && Dir(s) in words
        invariant PageUp(newsz) <= v <= USER_PAGES
        invariant words == old(words) - Span(s, PageUp(newsz), Min(v, hi))
        invariant Part(Img(), old(Img()))
        decreases oldsz - v * PGSIZE
      {
        var v' := ReleaseNext(s, v, hi);
        SpanJoin(old(words), s, PageUp(newsz), v, Min(v', hi));
        v := v';
      }
      return newsz;
    }

    /** freevm: user pages, then every page table including the kernel's, then the directory. */
    method Freevm(s: nat)
      requires Valid() && s < NPROC && Dir(s) in words && Idle(View(), s)
      modifies this, rCount, frames
      ensures Valid() && pending == old(pending) && stale == old(stale)
      ensures words == Without(old(words), s)
      ensures forall x :: x in words <==>
        x in old(words) && !(x.space == s && (x.Dir? || x.Table? || x.Entry?))
      ensures Part(Img(), old(Img()))
    {
      hide Inv, CowImage;
      SlotsValid(View());
      FreedEnds(words, s);
      var _ := Deallocuvm(s, KERNBASE, 0);
      for i := 0 to NPDENTRIES
        invariant Valid() && pending == old(pending) && stale == old(stale) && Dir(s) in words
        invariant words == Freed(old(words), s, i)
        invariant Part(Img(), old(Img()))
      {
        DropTable(s, i, old(words));
      }
      DropSlot(Dir(s));
    }

    method DropTable(s: nat, i: nat, ghost w: Words)
      requires Valid() && Idle(View(), s) && words == Freed(w, s, i) && Dir(s) in words
      modifies this, rCount, frames
      ensures Valid() && pending == old(pending) && stale == old(stale) && Dir(s) in words
      ensures words == Freed(w, s, i + 1) && Part(Img(), old(Img()))
    {
      hide Inv, CowImage;
      FreedNext(w, s, i);
      if Table(s, i) in words {
        DropSlot(Table(s, i));
      }
    }

    /** setupkvm: a directory and the kernel's page tables, or nothing at all. */
    method SetupKvm(c: nat) returns (ok: bool)
      requires Valid() && c < NPROC && Idle(View(), c) && forall x :: x in words ==> !OfSpace(x, c)
      modifies this, rCount, frames
      ensures Valid() && pending == old(pending) && stale == old(stale) && Without(words, c) == old(words)
      ensures Part(Img(), old(Img()))
      ensures if ok then Dir(c) in words && forall v :: Entry(c, v) !in words else words == old(words)
      ensures ok <==> old(freePages) >= SETUP_PAGES
      ensures ok ==> freePages == old(freePages) - SETUP_PAGES
      ensures ok ==> forall i: nat :: i < NPDENTRIES ==> (Table(c, i) in words <==> KernelPdx(i))
    {
      hide Inv, Img;
      WithoutNone(words, c);
      ok := AllocInto(Dir(c));
      if !ok {
        return;
      }
      WithoutAdd(old(words), words, c, Dir(c));
      for i := 0 to NPDENTRIES
        invariant Valid() && pending == old(pending) && stale == old(stale) && Dir(c) in words
        invariant Without(words, c) == old(words)
        invariant (forall v :: Entry(c, v) !in words)
        invariant (forall j: nat :: Table(c, j) in words <==> j < i && KernelPdx(j))
        invariant ok && freePages == old(freePages) - 1 - KernelTables(i)
        invariant Part(Img(), old(Img()))
      {
        if KernelPdx(i) {
          ok := KernelTable(c, i);
          if !ok {
            Freevm(c);
            return;
          }
        }
      }
    }

    /** One of setupkvm's page tables. */
    method KernelTable(c: nat, i: nat) returns (ok: bool)
      requires Valid() && c < NPROC && i < NPDENTRIES && Idle(View(), c) && Dir(c) in words && Table(c, i) !in words
      modifies this, rCount, frames
      ensures Valid() && pending == old(pending) && stale == old(stale) && (ok <==> old(freePages) > 0)
      ensures if ok then Table(c, i) in words && words - {Table(c, i)} == old(words) else words == old(words)
      ensures freePages == old(freePages) - if ok then 1 else 0
      ensures Without(words, c) == Without(old(words), c) && Part(Img(), old(Img()))
    {
      hide Inv, CowImage;
      ok := AllocInto(Table(c, i));
      if ok { WithoutAdd(old(words), words, c, Table(c, i)); }
    }

    /** copyuvm clears PTE_W in the parent before anything else. */
    method ProtectPage(p: nat, v: nat)
      requires Valid() && Entry(p, v) in words
      modifies this`words
      ensures Valid() && words == old(words)[Entry(p, v) := old(words)[Entry(p, v)].(w := false)]
      ensures Img() == old(Img())
    {
      StepKeeps(View(), Protect(p, v));
      CowStepImage(View(), Protect(p, v));
      words := words[Entry(p, v) := words[Entry(p, v)].(w := false)];
    }

    /** The mappages call of copyuvm, once the child's table is there. */
    method MapShared(p: nat, c: nat, v: nat)
      requires Valid() && Enabled(View(), Share(p, c, v))
      modifies this
      ensures Valid() && Does(old(View()), Share(p, c, v), View())
      ensures words == old(words)[Entry(c, v) := old(words)[Entry(p, v)]] && stale == old(stale)
      ensures freePages == old(freePages)
      ensures c !in old(pending) && c in pending && pending - {c} == old(pending)
      ensures pending[c].frame == words[Entry(c, v)].frame
      ensures Entry(p, v) in old(Img()) && Img() == old(Img())[Entry(c, v) := old(Img())[Entry(p, v)]]
    {
      hide Inv, Next, CowImage;
      ShareFacts(View(), p, c, v);
      words, pending := words[Entry(c, v) := words[Entry(p, v)]],
                        pending[c := InFlight(p, v, words[Entry(p, v)].frame)];
    }

    method SharePage(p: nat, c: nat, v: nat)
      requires Valid() && Enabled(View(), Share(p, c, v))
      modifies this, rCount
      ensures Valid() && pending == old(pending) && stale == old(stale) && freePages == old(freePages)
      ensures words == old(words)[Entry(c, v) := old(words)[Entry(p, v)]]
      ensures Entry(p, v) in old(Img()) && Img() == old(Img())[Entry(c, v) := old(Img())[Entry(p, v)]]
    {
      hide Inv;
      MapShared(p, c, v);
      CountPending(c, words[Entry(c, v)].frame);
    }

    /** One turn of copyuvm's loop. */
    method CopyNext(p: nat, c: nat, v: nat, ghost before: Words, ghost image: Image) returns (ok: bool)
      requires Valid() && p != c && c < NPROC && v < USER_PAGES && Idle(View(), p) && Idle(View(), c)
      requires Entry(p, v) in before && Copied(before, image, words, Img(), p, c, v) && TablesTo(words, c, v)
      modifies this, rCount, frames
      ensures ok <==> UserTables(v + 1) == UserTables(v) || old(freePages) > 0
      ensures ok ==> TablesTo(words, c, v + 1) && freePages + UserTables(v + 1) == old(freePages) + UserTables(v)
      ensures Valid() && pending == old(pending) && stale == old(stale)
      ensures Copied(before, image, words, Img(), p, c, if ok then v + 1 else v)
    {
      hide Inv, CowImage;
      assert Entry(p, v) in words && Entry(c, v) !in words && Dir(c) in words;
      CopiedProtect(before, image, words, Img(), p, c, v);
      NextTable(v);
      assert Table(c, Pdx(v)) in words <==> Pdx(v) < UserTables(v);
      hide Copied, UserTables, TablesTo, Pdx, Enabled, ImageOf;
      ghost var was := words;
      ProtectPage(p, v);
      ghost var protected, img := words, Img();
      ok := Walk(c, v, true);
      if words != protected {
        CopiedTable(before, image, protected, words, img, p, c, v, Pdx(v));
      }
      if ok {
        forall i: nat ensures Table(c, i) in words <==> Table(c, i) in was || i == Pdx(v) {
          assert i != Pdx(v) ==> (Table(c, i) in words <==> Table(c, i) in words - {Table(c, Pdx(v))});
        }
        ShareNext(p, c, v, before, image, was);
      }
    }

    method ShareNext(p: nat, c: nat, v: nat, ghost before: Words, ghost image: Image, ghost was: Words)
      requires Valid() && p != c && c < NPROC && v < USER_PAGES && Idle(View(), p) && Idle(View(), c)
      requires Entry(p, v) in words && !words[Entry(p, v)].w && Entry(c, v) !in words && Table(c, Pdx(v)) in words
      requires Copied(before, image, words, Img(), p, c, v) && TablesTo(was, c, v)
      requires forall i: nat :: Table(c, i) in words <==> Table(c, i) in was || i == Pdx(v)
      modifies this, rCount
      ensures Valid() && pending == old(pending) && stale == old(stale) && freePages == old(freePages)
      ensures Copied(before, image, words, Img(), p, c, v + 1) && TablesTo(words, c, v + 1)
    {
      hide Inv, CowImage, Copied, TablesTo, Pdx;
      ImageKeys(View());
      CopiedShare(before, image, words, Img(), p, c, v);
      SharePage(p, c, v);
      TablesNext(was, words, c, v);
    }

    /** copyuvm. On success the child maps the parent's pages read-only, reads what the parent reads, and
        no other process sees a change. On failure the child is gone, every process reads what it read
        before, and every frame taken on the way is back on the free list. */
    method Copyuvm(p: nat, c: nat, sz: nat) returns (ok: bool)
      requires Valid() && p != c && c < NPROC && sz <= KERNBASE && Idle(View(), p) && Idle(View(), c)
      requires forall x :: x in words ==> !OfSpace(x, c)
      requires forall v: nat :: v < PageUp(sz) ==> Entry(p, v) in words
      modifies this, rCount, frames
      ensures Valid() && pending == old(pending) && stale == old(stale)
      ensures ok ==> Copied(old(words), old(Img()), words, Img(), p, c, PageUp(sz))
      ensures !ok ==> Kept(old(words), words, c) && words.Keys == old(words).Keys
      ensures !ok ==> Img() == old(Img()) && freePages == old(freePages)
      ensures ok <==> old(freePages) >= SETUP_PAGES + UserTables(PageUp(sz))
      ensures ok ==> freePages == old(freePages) - SETUP_PAGES - UserTables(PageUp(sz))
    {
      hide Inv, CowImage;
      hide Copied, Kept, KeptImage;
      ghost var m := View();
      ImageKeys(m);
      ok := SetupKvm(c);
      ImageKeys(View());
      if !ok {
        KeptSelf(m, c);
        Undone(m, m.words, CowImage(m), View(), c);
        return;
      }
      CopiedStart(old(words), old(Img()), words, Img(), p, c);
      var v := 0;
      while v * PGSIZE < sz
        invariant Valid() && pending == old(pending) && stale == old(stale) && v <= PageUp(sz)
        invariant Copied(old(words), old(Img()), words, Img(), p, c, v) && TablesTo(words, c, v)
        invariant ok && freePages + SETUP_PAGES + UserTables(v) == old(freePages)
      {
        ok := CopyNext(p, c, v, old(words), old(Img()));
        if !ok {
          CopiedHas(old(words), old(Img()), words, Img(), p, c, v);
          ghost var w, img := words, Img();
          TablesGrow(v + 1, PageUp(sz));
          Freevm(c);
          Undone(m, w, img, View(), c);
          return;
        }
        v := v + 1;
      }
    }

    /** mappages of the page in `mem`. */
    method PublishPage(s: nat, v: nat)
      requires Valid() && Enabled(View(), Publish(s, v))
      modifies this`words
      ensures Valid() && Does(old(View()), Publish(s, v), View())
      ensures words == (old(words) - {Local(s)})[Entry(s, v) := Word(old(words)[Local(s)].frame, true, true)]
      ensures Local(s) in old(Img()) && Img() == (old(Img()) - {Local(s)})[Entry(s, v) := old(Img())[Local(s)]]
    {
      StepKeeps(View(), Publish(s, v));
      CowStepImage(View(), Publish(s, v));
      words := (words - {Local(s)})[Entry(s, v) := Word(words[Local(s)].frame, true, true)];
    }

    /** A store instruction: fault first if PTE_W is clear, then write. Exactly one byte of one page of
        one process changes, or nothing does and the process is killed. */
    method StoreByte(s: nat, v: nat, off: nat, b: Byte) returns (killed: bool)
      requires Valid() && Idle(View(), s) && Entry(s, v) in words && words[Entry(s, v)].u && off < PGSIZE
      modifies this, rCount, frames
      ensures Valid() && pending == old(pending) && stale == old(stale)
      ensures killed ==> Img() == old(Img())
      ensures !killed ==> ByteStored(old(Img()), Entry(s, v), off, b, Img())
      ensures killed <==> NoCopy(old(View()), Entry(s, v))
    {
      hide Inv, CowImage, Next;
      ImageKeys(View());
      WordFrame(View(), Entry(s, v));
      killed := false;
      if !words[Entry(s, v)].w {
        killed := CowFault(s, v);
        if killed { return; }
      }
      WriteByte(s, v, off, b);
    }

    method WriteByte(s: nat, v: nat, off: nat, b: Byte)
      requires Valid() && Enabled(View(), Store(s, v, off, b))
      modifies frames
      ensures Valid() && Does(old(View()), Store(s, v, off, b), View())
      ensures ByteStored(old(Img()), Entry(s, v), off, b, Img())
    {
      StepKeeps(View(), Store(s, v, off, b));
      CowStepImage(View(), Store(s, v, off, b));
      var f := words[Entry(s, v)].frame;
      frames[f] := frames[f][off := b];
    }

    /** allocuvm: zeroed private pages for the whole range, or no page at all. */
    method Allocuvm(s: nat, oldsz: nat, newsz: nat) returns (r: nat)
      requires Valid() && s < NPROC && Dir(s) in words && Local(s) !in words && Idle(View(), s)
      requires forall v: nat :: PageUp(oldsz) <= v < PageUp(newsz) ==> Entry(s, v) !in words
      modifies this, rCount, frames
      ensures Valid() && pending == old(pending) && stale == old(stale)
      ensures r == if newsz >= KERNBASE then 0
                   else if newsz < oldsz then oldsz
                   else if GrowthFits(old(words), s, oldsz, newsz, old(freePages)) then newsz
                   else 0
      ensures r == newsz ==> Grown(old(words), old(Img()), words, Img(), s, PageUp(oldsz), PageUp(newsz))
      ensures r != newsz ==> SameButTables(old(words), words, s) && Img() == old(Img())
    {
      ghost var m := View();
      if newsz >= KERNBASE {
        return 0;
      }
      if newsz < oldsz {
        return oldsz;
      }
      r := GrowFrom(s, oldsz, newsz);
    }

    method GrowFrom(s: nat, oldsz: nat, newsz: nat) returns (r: nat)
      requires Valid() && s < NPROC && Dir(s) in words && Local(s) !in words && Idle(View(), s)
      requires oldsz <= newsz < KERNBASE
      requires forall v: nat :: PageUp(oldsz) <= v < PageUp(newsz) ==> Entry(s, v) !in words
      modifies this, rCount, frames
      ensures Valid() && pending == old(pending) && stale == old(stale) && r in {0, newsz}
      ensures r == newsz ==> Grown(old(words), old(Img()), words, Img(), s, PageUp(oldsz), PageUp(newsz))
      ensures r != newsz ==> SameButTables(old(words), words, s) && Img() == old(Img())
      ensures r == newsz <==> GrowthFits(old(words), s, oldsz, newsz, old(freePages))
    {
      hide Inv, CowImage, Grown, TablesGrown, NewTables, TableCost;
      ghost var m := View();
      var v := PageUp(oldsz);
      NewTablesStart(words, s, v);
      GrownStart(m, s, v);
      while v * PGSIZE < newsz
        invariant Valid() && pending == old(pending) && stale == old(stale) && PageUp(oldsz) <= v <= PageUp(newsz)
        invariant Dir(s) in words && Local(s) !in words
        invariant forall i: nat :: v <= i < PageUp(newsz) ==> Entry(s, i) !in words
        invariant Grown(old(words), old(Img()), words, Img(), s, PageUp(oldsz), v)
        invariant TablesGrown(old(words), words, s, PageUp(oldsz), v)
        invariant freePages + (v - PageUp(oldsz)) + NewTables(old(words), s, PageUp(oldsz), v) == old(freePages)
      {
        ghost var w, img := words, Img();
        var mem, mapped := MapNext(s, v, PageUp(oldsz), PageUp(newsz), old(words), old(Img()));
        if !mapped {
          UndoGrow(s, oldsz, newsz, mem);
          NewTablesGrow(old(words), s, PageUp(oldsz), v + 1, PageUp(newsz));
          GrownUndone(m, w, img, View(), s, PageUp(oldsz), v, PageUp(newsz));
          return 0;
        }
        v := v + 1;
      }
      return newsz;
    }

    /** One turn of allocuvm's loop, when pages a..v are done. */
    method MapNext(s: nat, v: nat, ghost a: nat, ghost b: nat, ghost before: Words, ghost image: Image)
      returns (mem: bool, mapped: bool)
      requires Valid() && s < NPROC && a <= v < b <= USER_PAGES && Dir(s) in words && Local(s) !in words
      requires Idle(View(), s) && forall i: nat :: v <= i < b ==> Entry(s, i) !in words
      requires Grown(before, image, words, Img(), s, a, v) && TablesGrown(before, words, s, a, v)
      modifies this, rCount, frames
      ensures Valid() && pending == old(pending) && stale == old(stale) && (mapped ==> mem)
      ensures mapped <==> old(freePages) >= 1 + NewTables(before, s, a, v + 1) - NewTables(before, s, a, v)
      ensures mapped ==> freePages == old(freePages) - 1 - NewTables(before, s, a, v + 1) + NewTables(before, s, a, v)
      ensures mapped ==> Grown(before, image, words, Img(), s, a, v + 1) && TablesGrown(before, words, s, a, v + 1)
      ensures mapped ==> Dir(s) in words && Local(s) !in words
      ensures mapped ==> forall i: nat :: v + 1 <= i < b ==> Entry(s, i) !in words
      ensures !mem ==> View() == old(View())
      ensures mem && !mapped ==> Local(s) in words && words - {Local(s)} == old(words)
      ensures mem && !mapped ==> Img() - {Local(s)} == old(Img())
    {
      hide Inv, CowImage, Grown, TablesGrown, NewTables, TableCost;
      GrownTable(before, words, s, a, v);
      ImageKeys(View());
      mem, mapped := MapFresh(s, v);
      if mapped {
        GrownNext(before, image, old(words), words, old(Img()), s, a, v);
        TablesMore(before, old(words), words, s, a, v);
      }
    }

    /** allocuvm's way back: deallocuvm, and then kfree of the page in hand. */
    method UndoGrow(s: nat, oldsz: nat, newsz: nat, mem: bool)
      requires Valid() && s < NPROC && Dir(s) in words && Idle(View(), s) && newsz <= KERNBASE
      requires mem ==> Local(s) in words
      modifies this, rCount, frames
      ensures Valid() && pending == old(pending) && stale == old(stale) && Part(Img(), old(Img()))
      ensures words == (old(words) - Span(s, PageUp(oldsz), PageUp(newsz))) - if mem then {Local(s)} else {}
      ensures mem ==> Local(s) !in Img()
    {
      hide Inv, CowImage, Span;
      var _ := Deallocuvm(s, newsz, oldsz);
      if mem {
        DropSlot(Local(s));
      }
    }

    /** kalloc, memset and mappages of one page; without a page table `mem` is still in hand. */
    method MapFresh(s: nat, v: nat) returns (mem: bool, mapped: bool)
      requires Valid() && s < NPROC && v < USER_PAGES && Dir(s) in words && Local(s) !in words && Entry(s, v) !in words
      requires Idle(View(), s)
      modifies this, rCount, frames
      ensures mapped <==> old(freePages) >= 1 + TableCost(old(words), s, v)
      ensures mapped ==> freePages == old(freePages) - 1 - TableCost(old(words), s, v)
      ensures mapped ==> forall i: nat :: Table(s, i) in words <==> Table(s, i) in old(words) || i == Pdx(v)
      ensures Valid() && pending == old(pending) && stale == old(stale) && (mapped ==> mem)
      ensures !mem ==> View() == old(View())
      ensures mem && !mapped ==> Local(s) in words && words - {Local(s)} == old(words)
      ensures mem && !mapped ==> Img() - {Local(s)} == old(Img())
      ensures mapped ==> Entry(s, v) in words && words[Entry(s, v)].w && words[Entry(s, v)].u
      ensures mapped ==> SameButTables(old(words), words - {Entry(s, v)}, s)
      ensures mapped ==> Img() == old(Img())[Entry(s, v) := Filled(0)]
    {
      hide Inv, CowImage, Pdx, SameButTables, Next;
      ImageKeys(View());
      mapped := false;
      mem := AllocInto(Local(s));
      if mem {
        ghost var w1 := words;
        mapped := Walk(s, v, true);
        if mapped {
          ghost var w2 := words;
          PublishPage(s, v);
          FreshWords(old(words), w1, w2, words, s, v);
        }
      }
    }
  }
}
