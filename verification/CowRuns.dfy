/** Theorems about whole runs of the copy-on-write kernel. */
module CowRuns {
  import opened Params
  import opened SetSizes
  import opened PageFrames
  import opened CowMachine
  import opened CowSafety
  import opened EagerMachine
  import opened CowRefinement

  // ----- runs -----

  /** Any interleaving of steps by any processes, each possible when it is taken. */
  ghost predicate Allowed(m: Mem, steps: seq<Step>)
    requires Inv(m)
    decreases |steps|
  {
    steps == [] ||
    (Enabled(m, steps[0]) && (StepKeeps(m, steps[0]); Allowed(Next(m, steps[0]), steps[1..])))
  }

  /** Counts stay exact and writable pages unshared in every reachable state. */
  ghost function After(m: Mem, steps: seq<Step>): (m': Mem)
    requires Inv(m) && Allowed(m, steps)
    ensures Inv(m') && m'.lo == m.lo && |m'.count| == |m.count|
    decreases |steps|
  {
    if steps == [] then m
    else
      StepKeeps(m, steps[0]);
      After(Next(m, steps[0]), steps[1..])
  }

  ghost predicate AllSucceed(m: Mem, steps: seq<Step>)
    requires Inv(m) && Allowed(m, steps)
    decreases |steps|
  {
    steps == [] ||
    (Succeeds(m, steps[0]) && (StepKeeps(m, steps[0]); AllSucceed(Next(m, steps[0]), steps[1..])))
  }

  // ----- what the invariant says, in the kernel's own terms -----

  /** page_rCount is the number of page-table words naming the frame plus its kernel owner; a page
      with PTE_W set is mapped nowhere else; the free list is the count-0 frames, each once. */
  lemma {:induction false} CountsAndFreeList(m: Mem)
    requires Inv(m) && m.pending == map[]
    ensures forall f: nat :: m.lo <= f < |m.count| ==> m.count[f] == Refs(m.words, f)
    ensures forall s, t :: s in m.words && t in m.words && s.Entry? && m.words[s].w && s != t ==>
              m.words[s].frame != m.words[t].frame
    ensures forall f: nat :: m.lo <= f < |m.count| ==> (f in m.free <==> m.count[f] == 0)
    ensures forall i, j :: 0 <= i < j < |m.free| ==> m.free[i] != m.free[j]
    ensures m.freePages == |m.free|
  {
    forall f: nat | m.lo <= f < |m.count|
      ensures m.count[f] == Refs(m.words, f) && (f in m.free <==> m.count[f] == 0)
    {
      assert Managed(m, f) && Balanced(m, f);
      assert PendSet(m.pending, f) == {};
    }
    forall s, t | s in m.words && t in m.words && s.Entry? && m.words[s].w && s != t
      ensures m.words[s].frame != m.words[t].frame
    {
      RefsSole(m.words, s);
    }
  }

  // ----- how many frames are free -----

  lemma {:induction false} CardOfRange(a: set<nat>, b: set<nat>, lo: nat, hi: nat)
    requires lo <= hi && (forall f :: f in a ==> lo <= f < hi) && (forall f :: f in b ==> lo <= f < hi)
    requires forall f: nat :: lo <= f < hi ==> (f in a <==> f !in b)
    ensures |a| + |b| == hi - lo
  {
    assert a !! b;
    assert Interval(lo, hi) == a + b;
  }

  lemma {:induction false} FreeCard(free: seq<nat>, words: Words, lo: nat, hi: nat)
    requires lo <= hi && Distinct(free) && (forall f :: f in free ==> lo <= f < hi)
    requires forall f :: f in Named(words) ==> lo <= f < hi
    requires forall f: nat :: lo <= f < hi ==> (f in free <==> f !in Named(words))
    ensures |free| + |Named(words)| == hi - lo
  {
    CardOfRange(Members(free), Named(words), lo, hi);
  }

  /** free_pages is the number of managed frames less the distinct frames in use. */
  lemma {:induction false} FreePagesLaw(m: Mem)
    requires Inv(m)
    ensures m.freePages + |Named(m.words)| == |m.count| - m.lo
  {
    forall f: nat | m.lo <= f < |m.count| ensures f in m.free <==> f !in Named(m.words) {
      assert Managed(m, f) && Balanced(m, f);
      RefsZero(m.words, f);
    }
    FreeCard(m.free, m.words, m.lo, |m.count|);
  }

  lemma {:induction false} NamedRemove(words: Words, s: Slot)
    requires s in words
    ensures Named(words) == Named(words - {s}) + {words[s].frame}
  {
    forall f | f in Named(words) ensures f in Named(words - {s}) + {words[s].frame} {
      var t :| t in words && words[t].frame == f;
      if t != s { assert (words - {s})[t].frame == f; }
    }
  }

  lemma {:induction false} NamedAtMost(words: Words)
    ensures |Named(words)| <= |words|
    decreases |words|
  {
    if words == map[] {
      assert Named(words) == {};
    } else {
      var s :| s in words;
      NamedAtMost(words - {s});
      NamedRemove(words, s);
    }
  }

  lemma {:induction false} NamedSharedLess(words: Words, s: Slot, t: Slot)
    requires s in words && t in words && s != t && words[s].frame == words[t].frame
    ensures |Named(words)| < |words|
  {
    NamedRemove(words, s);
    NamedAtMost(words - {s});
    assert (words - {s})[t].frame == words[s].frame;
    assert words[s].frame in Named(words - {s});
    assert Named(words) == Named(words - {s});
  }

  lemma {:induction false} NamedExact(words: Words)
    requires OneOwner(words)
    ensures |Named(words)| == |words|
    decreases |words|
  {
    if words == map[] {
      assert Named(words) == {};
    } else {
      var s :| s in words;
      NamedExact(words - {s});
      NamedRemove(words, s);
    }
  }

  // ----- refinement -----

  ghost predicate Alike(a: Words, b: Words)
  {
    a.Keys == b.Keys && forall s :: s in a ==> a[s].u == b[s].u
  }

  /** Same pages mapped, same bytes behind them, same amount of physical memory. */
  ghost predicate Sim(m: Mem, e: Eager)
  {
    Inv(m) && EagerInv(e) && m.lo == e.lo <= |m.count| == |e.data| && Alike(m.words, e.words) &&
    CowImage(m) == EagerImage(e)
  }

  /** Copy-on-write never uses more frames than eager copying, and strictly fewer while a page is
      shared: there is a frame for every fault if there was one for every eager copy. */
  lemma {:induction false} CowFrugal(m: Mem, e: Eager)
    requires Sim(m, e)
    ensures |m.free| >= |e.free|
    ensures forall s, t :: s in m.words && t in m.words && s != t && m.words[s].frame == m.words[t].frame ==>
              |m.free| > |e.free|
  {
    FreePagesLaw(m);
    FreeCard(e.free, e.words, e.lo, |e.data|);
    NamedAtMost(m.words);
    NamedExact(e.words);
    assert |m.words.Keys| == |e.words.Keys|;
    forall s, t | s in m.words && t in m.words && s != t && m.words[s].frame == m.words[t].frame
      ensures |m.free| > |e.free|
    {
      NamedSharedLess(m.words, s, t);
    }
  }

  lemma {:induction false} FaultSucceeds(m: Mem, e: Eager, s: nat, v: nat)
    requires Sim(m, e) && Enabled(m, Fault(s, v))
    ensures Succeeds(m, Fault(s, v))
  {
    var x := Entry(s, v);
    CountOfIdle(m, x);
    RefsSole(m.words, x);
    assert Balanced(m, m.words[x].frame);
    CowFrugal(m, e);
  }

  lemma {:induction false} SimStep(m: Mem, e: Eager, st: Step)
    requires Sim(m, e) && Enabled(m, st) && EagerSucceeds(e, st)
    ensures Succeeds(m, st) && EagerEnabled(e, st) && Sim(Next(m, st), EagerNext(e, st))
  {
    if st.Fault? { FaultSucceeds(m, e, st.space, st.vpn); }
    if st.Own? { CowFrugal(m, e); }
    StepKeeps(m, st);
    EagerKeeps(e, st);
    CowStepImage(m, st);
    EagerStepImage(e, st);
    SameKeys(m, e, st);
  }

  lemma {:induction false} AlikeSet(a: Words, b: Words, s: Slot, x: Word, y: Word)
    requires Alike(a, b) && x.u == y.u
    ensures Alike(a[s := x], b[s := y])
  {
  }

  lemma {:induction false} AlikeSetOne(a: Words, b: Words, s: Slot, x: Word)
    requires Alike(a, b) && s in a && x.u == a[s].u
    ensures Alike(a[s := x], b)
  {
    AlikeSet(a, b, s, x, b[s]);
    assert b[s := b[s]] == b;
  }

  lemma {:induction false} SameKeys(m: Mem, e: Eager, st: Step)
    requires Inv(m) && EagerInv(e) && Alike(m.words, e.words)
    requires Enabled(m, st) && Succeeds(m, st) && EagerEnabled(e, st) && EagerSucceeds(e, st)
    ensures Alike(Next(m, st).words, EagerNext(e, st).words)
  {
    match st
    case Own(slot) =>
      assert m.free[0] in m.free && e.free[0] in e.free;
      AlikeSet(m.words, e.words, slot, Word(m.free[0], true, true), Word(e.free[0], true, true));
    case Publish(s, v) =>
      assert Alike(m.words - {Local(s)}, e.words - {Local(s)});
      AlikeSet(m.words - {Local(s)}, e.words - {Local(s)}, Entry(s, v),
               Word(m.words[Local(s)].frame, true, true), Word(e.words[Local(s)].frame, true, true));
    case Share(p, c, v) =>
      var x, y := m.words[Entry(p, v)], e.words[Entry(p, v)];
      assert e.free[0] in e.free;
      AlikeSet(m.words, e.words, Entry(c, v), x, Word(e.free[0], y.w, y.u));
    case Protect(s, v) =>
      AlikeSetOne(m.words, e.words, Entry(s, v), m.words[Entry(s, v)].(w := false));
    case Drop(slot) =>
    case Fault(s, v) =>
      if m.count[m.words[Entry(s, v)].frame] == 1 {
        AlikeSetOne(m.words, e.words, Entry(s, v), m.words[Entry(s, v)].(w := true));
      } else {
        assert m.free[0] in m.free;
        AlikeSetOne(m.words, e.words, Entry(s, v), Word(m.free[0], true, true));
      }
    case Count(c) =>
    case Clear(slot) =>
    case Store(s, v, off, b) =>
  }

  ghost function EagerTry(e: Eager, st: Step): (e': Eager)
  {
    if EagerInv(e) && EagerEnabled(e, st) && EagerSucceeds(e, st) then EagerNext(e, st) else e
  }

  ghost function EagerAfter(e: Eager, steps: seq<Step>): (e': Eager)
    decreases |steps|
  {
    if steps == [] then e else EagerAfter(EagerTry(e, steps[0]), steps[1..])
  }

  /** The eager kernel finds a frame for every page it has to copy or create. */
  ghost predicate Fits(e: Eager, steps: seq<Step>)
    decreases |steps|
  {
    steps == [] || (EagerSucceeds(e, steps[0]) && Fits(EagerTry(e, steps[0]), steps[1..]))
  }

  lemma {:induction false} SimRun(m: Mem, e: Eager, steps: seq<Step>)
    requires Sim(m, e) && Allowed(m, steps) && Fits(e, steps)
    ensures AllSucceed(m, steps)
    ensures Sim(After(m, steps), EagerAfter(e, steps))
    decreases |steps|
  {
    if steps != [] {
      SimStep(m, e, steps[0]);
      SimRun(Next(m, steps[0]), EagerNext(e, steps[0]), steps[1..]);
    }
  }

  /** Every process reads the same byte at every address. */
  ghost predicate ReadAlike(m: Mem, e: Eager)
    requires Backed(m.words, m.data) && Backed(e.words, e.data)
  {
    forall s, v, off :: Entry(s, v) in m.words && 0 <= off < PGSIZE ==>
      Entry(s, v) in e.words &&
      m.data[m.words[Entry(s, v)].frame][off] == e.data[e.words[Entry(s, v)].frame][off]
  }

  lemma {:induction false} SameBytes(m: Mem, e: Eager)
    requires Sim(m, e)
    ensures ReadAlike(m, e)
  {
    forall s, v, off | Entry(s, v) in m.words && 0 <= off < PGSIZE
      ensures Entry(s, v) in e.words
      ensures m.data[m.words[Entry(s, v)].frame][off] == e.data[e.words[Entry(s, v)].frame][off]
    {
      assert CowImage(m)[Entry(s, v)] == EagerImage(e)[Entry(s, v)];
    }
  }

  /** For every run, if eager forking fits in memory then so does copy-on-write, and at the end every
      process reads the same bytes under both kernels. */
  lemma {:induction false} CowRefinesEager(m: Mem, e: Eager, steps: seq<Step>)
    requires Sim(m, e) && Allowed(m, steps) && Fits(e, steps)
    ensures AllSucceed(m, steps)
    ensures Sim(After(m, steps), EagerAfter(e, steps)) && ReadAlike(After(m, steps), EagerAfter(e, steps))
  {
    SimRun(m, e, steps);
    SameBytes(After(m, steps), EagerAfter(e, steps));
  }

  /** And at boot, before any page is mapped, the two kernels start alike. */
  lemma {:induction false} SimAtBoot(m: Mem)
    requires Inv(m) && m.words == map[]
    ensures Sim(m, Eager(m.lo, m.free, m.data, map[]))
  {
    var e := Eager(m.lo, m.free, m.data, map[]);
    forall f: nat | e.lo <= f < |e.data| ensures f in e.free <==> f !in Named(e.words) {
      assert Managed(m, f) && Balanced(m, f);
      RefsZero(m.words, f);
    }
  }

  // ----- conservation -----

  /** A step on behalf of process c, or one that any other process may take while c lives and that makes and
      gives up no page table entry. */
  predicate WhileAlive(st: Step, c: nat)
  {
    match st
    case Own(slot) => slot.space == c
    case Publish(s, _) => s == c
    case Share(_, child, _) => child == c
    case Count(child) => child == c
    case Drop(slot) => slot.space == c
    case Clear(slot) => slot.space == c
    case Protect(_, _) => true
    case Fault(_, _) => true
    case Store(_, _, _, _) => true
  }

  ghost predicate Shares(words: Words, s: Slot, t: Slot)
  {
    s in words && t in words && words[s].frame == words[t].frame
  }

  /** Outside process c: the same words, and no two of them share a frame that did not before. */
  ghost predicate NoNewSharing(words: Words, words': Words, c: nat)
  {
    (forall s: Slot :: s.space != c ==> (s in words <==> s in words')) &&
    (forall s: Slot, t: Slot :: s.space != c && t.space != c && Shares(words', s, t) ==> Shares(words, s, t))
  }

  lemma {:induction false} StepSharing(m: Mem, st: Step, c: nat)
    requires Inv(m) && Enabled(m, st) && WhileAlive(st, c)
    ensures NoNewSharing(m.words, Next(m, st).words, c)
  {
    match st
    case Own(slot) =>
      if m.free != [] {
        assert m.free[0] in m.free;
        SharingIn(m.words, slot, Word(m.free[0], true, true), c);
      }
    case Publish(s, v) =>
      SharingGone(m.words, Local(s), c);
      SharingIn(m.words - {Local(s)}, Entry(s, v), Word(m.words[Local(s)].frame, true, true), c);
    case Protect(s, v) => SharingReworded(m.words, Entry(s, v), m.words[Entry(s, v)].(w := false), c);
    case Share(p, child, v) => SharingIn(m.words, Entry(child, v), m.words[Entry(p, v)], c);
    case Count(child) =>
    case Drop(slot) => SharingGone(m.words, slot, c);
    case Clear(slot) =>
    case Fault(s, v) =>
      if m.count[m.words[Entry(s, v)].frame] == 1 {
        SharingReworded(m.words, Entry(s, v), m.words[Entry(s, v)].(w := true), c);
      } else if m.free != [] {
        assert m.free[0] in m.free && Balanced(m, m.free[0]);
        SharingSplit(m.words, Entry(s, v), Word(m.free[0], true, true), c);
      }
    case Store(s, v, off, b) =>
  }

  lemma {:induction false} SharingIn(words: Words, s: Slot, w: Word, c: nat)
    requires s.space == c
    ensures NoNewSharing(words, words[s := w], c)
  {
  }

  lemma {:induction false} SharingGone(words: Words, s: Slot, c: nat)
    requires s.space == c
    ensures NoNewSharing(words, words - {s}, c)
  {
  }

  lemma {:induction false} SharingReworded(words: Words, s: Slot, w: Word, c: nat)
    requires s in words && w.frame == words[s].frame
    ensures NoNewSharing(words, words[s := w], c)
  {
  }

  lemma {:induction false} SharingSplit(words: Words, s: Slot, w: Word, c: nat)
    requires s in words && Refs(words, w.frame) == 0
    ensures NoNewSharing(words, words[s := w], c)
  {
    RefsZero(words, w.frame);
  }

  lemma {:induction false} RunSharing(m: Mem, steps: seq<Step>, c: nat)
    requires Inv(m) && Allowed(m, steps) && forall st :: st in steps ==> WhileAlive(st, c)
    ensures NoNewSharing(m.words, After(m, steps).words, c)
    decreases |steps|
  {
    if steps != [] {
      assert steps[0] in steps;
      StepKeeps(m, steps[0]);
      StepSharing(m, steps[0], c);
      RunSharing(Next(m, steps[0]), steps[1..], c);
    }
  }

  ghost predicate SharingKept(words: Words, words': Words)
  {
    forall s: Slot, t: Slot :: Shares(words, s, t) ==> Shares(words', s, t)
  }

  /** Splitting shared frames uses up frames: as many as before exactly when nothing was split. */
  lemma {:induction false} NamedGrows(words: Words, words': Words)
    requires words.Keys == words'.Keys && SharingKept(words', words)
    ensures |Named(words)| <= |Named(words')|
    ensures |Named(words)| == |Named(words')| <==> SharingKept(words, words')
    decreases |words|
  {
    if words == map[] {
      assert words' == map[];
    } else {
      var s :| s in words;
      var rest, rest' := words - {s}, words' - {s};
      forall x: Slot, y: Slot | Shares(rest', x, y) ensures Shares(rest, x, y) { assert Shares(words', x, y); }
      NamedGrows(rest, rest');
      NamedOne(words, s);
      NamedOne(words', s);
      if t :| t in rest' && Shares(words', s, t) { assert Shares(words, s, t); }
      SharingOne(words, words', s);
    }
  }

  lemma {:induction false} NamedOne(words: Words, s: Slot)
    requires s in words
    ensures |Named(words)| == |Named(words - {s})| + if exists t :: t in words - {s} && Shares(words, s, t) then 0
                                                     else 1
  {
    NamedRemove(words, s);
    var rest := words - {s};
    if t :| t in rest && Shares(words, s, t) {
      assert rest[t].frame == words[s].frame;
      assert words[s].frame in Named(rest);
    }
    assert words[s].frame in Named(rest) ==> exists t :: t in rest && Shares(words, s, t);
  }

  lemma {:induction false} SharingOne(words: Words, words': Words, s: Slot)
    requires words.Keys == words'.Keys && SharingKept(words', words) && s in words
    ensures SharingKept(words, words') <==>
            SharingKept(words - {s}, words' - {s}) &&
            ((exists t :: t in words - {s} && Shares(words, s, t)) ==>
              (exists t :: t in words' - {s} && Shares(words', s, t)))
  {
    var rest, rest' := words - {s}, words' - {s};
    if SharingKept(words, words') {
      forall x: Slot, y: Slot | Shares(rest, x, y) ensures Shares(rest', x, y) { assert Shares(words, x, y); }
      if t :| t in rest && Shares(words, s, t) { assert t in rest' && Shares(words', s, t); }
    }
    if SharingKept(rest, rest') && ((exists t :: t in rest && Shares(words, s, t)) ==>
      (exists t :: t in rest' && Shares(words', s, t))) {
      forall x: Slot, y: Slot | Shares(words, x, y) ensures Shares(words', x, y) {
        if x != s && y != s {
          assert Shares(rest, x, y);
        } else if x != y {
          var z := if x == s then y else x;
          assert z in rest && Shares(words, s, z);
          var t :| t in rest' && Shares(words', s, t);
          assert Shares(words, s, t);
          assert Shares(rest, t, z);
        }
      }
    }
  }

  /** A process made by fork, run in any way and reaped, or given up half way for want of memory, while every
      other process stores and faults as it likes. */
  ghost predicate Life(m: Mem, steps: seq<Step>, c: nat)
    requires Inv(m)
  {
    Absent(m, c) && Allowed(m, steps) && (forall st :: st in steps ==> WhileAlive(st, c)) && Absent(After(m, steps), c)
  }

  ghost predicate Absent(m: Mem, c: nat) { forall s: Slot :: s in m.words ==> s.space != c }

  /** No page is lost but the copies that the other processes made, so free_pages is as before exactly when none of
      them has split a page it shared with another. */
  lemma {:induction false} FreePagesRestored(m: Mem, steps: seq<Step>, c: nat)
    requires Inv(m) && Life(m, steps, c)
    ensures After(m, steps).freePages <= m.freePages
    ensures After(m, steps).freePages == m.freePages <==> SharingKept(m.words, After(m, steps).words)
  {
    var m' := After(m, steps);
    RunSharing(m, steps, c);
    assert m.words.Keys == m'.words.Keys;
    NamedGrows(m.words, m'.words);
    FreePagesLaw(m);
    FreePagesLaw(m');
  }

  /** Every page that some process may fault on is named once. */
  ghost predicate FaultsUnshared(m: Mem)
  {
    forall a: nat, v: nat :: Enabled(m, Fault(a, v)) ==> Refs(m.words, m.words[Entry(a, v)].frame) == 1
  }

  /** A fault of another process on a page that it shares. */
  lemma {:induction false} FaultTakesPage(m: Mem, a: nat, v: nat, c: nat)
    requires Inv(m) && Absent(m, c) && Enabled(m, Fault(a, v)) && m.free != []
    requires Refs(m.words, m.words[Entry(a, v)].frame) != 1
    ensures Life(m, [Fault(a, v)], c) && After(m, [Fault(a, v)]).freePages == m.freePages - 1
  {
    var st := Fault(a, v);
    CountOfIdle(m, Entry(a, v));
    StepKeeps(m, st);
    assert [st][1..] == [] && After(Next(m, st), []) == Next(m, st) && Allowed(Next(m, st), []);
  }

  /** What such a run leaves alone, if no page can be faulted on that is shared outside c. */
  ghost predicate Undisturbed(m: Mem, m': Mem, c: nat)
  {
    WordsKept(m.words, m'.words, c) && FlightsKept(m, m', c)
  }

  ghost predicate WordsKept(words: Words, words': Words, c: nat)
  {
    (forall s: Slot :: s.space != c ==> (s in words <==> s in words')) &&
    (forall s: Slot :: s.space != c && s in words && s in words' ==> words'[s].u == words[s].u) &&
    (forall s: Slot, t: Slot :: s.space != c && t.space != c && Shares(words, s, t) ==> Shares(words', s, t))
  }

  ghost predicate FlightsKept(m: Mem, m': Mem, c: nat)
  {
    (forall d :: d != c && d in m.pending ==> d in m'.pending && m'.pending[d] == m.pending[d]) &&
    (forall s: Slot :: s.space != c && s in m.stale ==> s in m'.stale)
  }

  /** Words outside c keep their frames and their PTE_U. */
  ghost predicate SameOutside(words: Words, words': Words, c: nat)
  {
    forall s: Slot :: s.space != c ==>
      (s in words <==> s in words') &&
      (s in words ==> words'[s].frame == words[s].frame && words'[s].u == words[s].u)
  }

  lemma {:induction false} WordsOn(words: Words, words1: Words, words2: Words, c: nat)
    requires WordsKept(words, words1, c) && SameOutside(words1, words2, c)
    ensures WordsKept(words, words2, c)
  {
    forall s: Slot, t: Slot | s.space != c && t.space != c && Shares(words, s, t) ensures Shares(words2, s, t) {
      assert Shares(words1, s, t);
    }
  }

  /** A word that shared its frame with none outside c may get another. */
  lemma {:induction false} WordsSplit(words: Words, words1: Words, e: Slot, w: Word, c: nat)
    requires WordsKept(words, words1, c) && e in words1 && e.space != c && w.u == words1[e].u
    requires forall t: Slot :: t.space != c && t != e ==> !Shares(words, e, t)
    ensures WordsKept(words, words1[e := w], c)
  {
    forall s: Slot, t: Slot | s.space != c && t.space != c && Shares(words, s, t) ensures Shares(words1[e := w], s, t) {
      assert Shares(words1, s, t);
      if s != t { assert Shares(words, t, s); }
    }
  }

  /** A fault on a page that was shared at the start could have been taken then. */
  lemma {:induction false} FaultWas(m: Mem, m': Mem, c: nat, a: nat, v: nat, t: Slot)
    requires Inv(m) && Absent(m, c) && Undisturbed(m, m', c) && Enabled(m', Fault(a, v)) && a != c
    requires t.space != c && t != Entry(a, v) && Shares(m.words, Entry(a, v), t)
    ensures Enabled(m, Fault(a, v)) && Refs(m.words, m.words[Entry(a, v)].frame) != 1
  {
    if Refs(m.words, m.words[Entry(a, v)].frame) == 1 { RefsSole(m.words, Entry(a, v)); }
    forall d | d in m.pending ensures m.pending[d].parent != a {
      assert Entry(d, m.pending[d].vpn) in m.words;
    }
  }

  lemma {:induction false} StepUndisturbed(m: Mem, m': Mem, st: Step, c: nat)
    requires Inv(m) && Inv(m') && Absent(m, c) && FaultsUnshared(m) && Undisturbed(m, m', c)
    requires Enabled(m', st) && WhileAlive(st, c)
    ensures Undisturbed(m, Next(m', st), c)
  {
    hide WordsKept;
    FlightsStay(m, m', st, c);
    if st.Fault? && st.space != c && Succeeds(m', st) && m'.count[m'.words[Entry(st.space, st.vpn)].frame] != 1 {
      SplitUndisturbed(m, m', st.space, st.vpn, c);
    } else {
      OutsideStays(m', st, c);
      WordsOn(m.words, m'.words, Next(m', st).words, c);
    }
  }

  lemma {:induction false} FlightsStay(m: Mem, m': Mem, st: Step, c: nat)
    requires Inv(m') && Enabled(m', st) && WhileAlive(st, c) && FlightsKept(m, m', c)
    ensures FlightsKept(m, Next(m', st), c)
  {
    hide Inv;
    match st
    case Own(_) =>
    case Fault(_, _) =>
    case Share(p, child, v) =>
      assert Next(m', st).pending == m'.pending[c := InFlight(p, v, m'.words[Entry(p, v)].frame)];
    case Count(child) => assert Next(m', st).pending == m'.pending - {c};
    case Drop(slot) => assert Next(m', st).stale == m'.stale[slot := m'.words[slot]];
    case Clear(slot) => assert Next(m', st).stale == m'.stale - {slot};
    case Publish(_, _) =>
    case Protect(_, _) =>
    case Store(_, _, _, _) =>
  }

  lemma {:induction false} OutsideIn(words: Words, s: Slot, w: Word, c: nat)
    requires s.space == c || (s in words && w.frame == words[s].frame && w.u == words[s].u)
    ensures SameOutside(words, words[s := w], c)
  {
  }

  lemma {:induction false} OutsideGone(words: Words, s: Slot, c: nat)
    requires s.space == c
    ensures SameOutside(words, words - {s}, c)
  {
  }

  lemma {:induction false} OutsideSame(words: Words, c: nat)
    ensures SameOutside(words, words, c)
  {
  }

  /** Only a copy for another process changes which frame a word outside c names. */
  lemma {:induction false} OutsideStays(m: Mem, st: Step, c: nat)
    requires Inv(m) && Enabled(m, st) && WhileAlive(st, c)
    requires st.Fault? && st.space != c ==>
               !Succeeds(m, st) || m.count[m.words[Entry(st.space, st.vpn)].frame] == 1
    ensures SameOutside(m.words, Next(m, st).words, c)
  {
    hide SameOutside;
    OutsideSame(m.words, c);
    match st
    case Own(slot) =>
      if m.free != [] {
        assert m.free[0] in m.free;
        OutsideIn(m.words, slot, Word(m.free[0], true, true), c);
      }
    case Publish(s, v) =>
      OutsideGone(m.words, Local(s), c);
      OutsideIn(m.words - {Local(s)}, Entry(s, v), Word(m.words[Local(s)].frame, true, true), c);
      OutsideTwice(m.words, m.words - {Local(s)}, Next(m, st).words, c);
    case Protect(s, v) => OutsideIn(m.words, Entry(s, v), m.words[Entry(s, v)].(w := false), c);
    case Share(p, child, v) => OutsideIn(m.words, Entry(child, v), m.words[Entry(p, v)], c);
    case Drop(slot) => OutsideGone(m.words, slot, c);
    case Fault(s, v) =>
      if m.count[m.words[Entry(s, v)].frame] == 1 {
        OutsideIn(m.words, Entry(s, v), m.words[Entry(s, v)].(w := true), c);
      } else if m.free != [] {
        assert m.free[0] in m.free;
        OutsideIn(m.words, Entry(s, v), Word(m.free[0], true, true), c);
      }
    case Count(_) =>
    case Clear(_) =>
    case Store(_, _, _, _) =>
  }

  lemma {:induction false} OutsideTwice(words: Words, words1: Words, words2: Words, c: nat)
    requires SameOutside(words, words1, c) && SameOutside(words1, words2, c)
    ensures SameOutside(words, words2, c)
  {
  }

  /** The copy breaks no sharing that there was at the start. */
  lemma {:induction false} SplitUndisturbed(m: Mem, m': Mem, a: nat, v: nat, c: nat)
    requires Inv(m) && Inv(m') && Absent(m, c) && FaultsUnshared(m) && Undisturbed(m, m', c) && a != c
    requires Enabled(m', Fault(a, v)) && m'.count[m'.words[Entry(a, v)].frame] != 1 && m'.free != []
    ensures WordsKept(m.words, Next(m', Fault(a, v)).words, c)
  {
    var e := Entry(a, v);
    forall t: Slot | t.space != c && t != e ensures !Shares(m.words, e, t) {
      if Shares(m.words, e, t) { FaultWas(m, m', c, a, v, t); }
    }
    assert m'.free[0] in m'.free;
    hide Inv, WordsKept, FlightsKept, FaultsUnshared, Shares;
    WordsSplit(m.words, m'.words, e, Word(m'.free[0], true, true), c);
  }

  lemma {:induction false} RunUndisturbed(m: Mem, m': Mem, steps: seq<Step>, c: nat)
    requires Inv(m) && Inv(m') && Absent(m, c) && FaultsUnshared(m) && Undisturbed(m, m', c)
    requires Allowed(m', steps) && forall st :: st in steps ==> WhileAlive(st, c)
    ensures Undisturbed(m, After(m', steps), c)
    decreases |steps|
  {
    if steps != [] {
      assert steps[0] in steps;
      StepKeeps(m', steps[0]);
      StepUndisturbed(m, m', steps[0], c);
      RunUndisturbed(m, Next(m', steps[0]), steps[1..], c);
    }
  }

  lemma {:induction false} LifeKeepsSharing(m: Mem, steps: seq<Step>, c: nat)
    requires Inv(m) && Life(m, steps, c) && FaultsUnshared(m)
    ensures SharingKept(m.words, After(m, steps).words)
  {
    hide Inv, FaultsUnshared, Allowed, After;
    RunUndisturbed(m, m, steps, c);
  }

  /** Every such life gives back every page, exactly when no page is free at the start, or none that some process may
      then fault on is shared. */
  lemma {:induction false} FreePagesRestoredIff(m: Mem, c: nat)
    requires Inv(m) && Absent(m, c)
    ensures (forall steps :: Life(m, steps, c) ==> After(m, steps).freePages == m.freePages)
            <==> m.free == [] || FaultsUnshared(m)
  {
    hide After, SharingKept;
    forall steps | Life(m, steps, c) && (m.free == [] || FaultsUnshared(m))
      ensures After(m, steps).freePages == m.freePages
    {
      FreePagesRestored(m, steps, c);
      if m.free != [] { LifeKeepsSharing(m, steps, c); }
    }
    if m.free != [] && !FaultsUnshared(m) {
      var a: nat, v: nat :| Enabled(m, Fault(a, v)) && Refs(m.words, m.words[Entry(a, v)].frame) != 1;
      FaultTakesPage(m, a, v, c);
    }
  }

  /** With nothing shared before the fork, as when cow_check runs, free_pages is restored. */
  lemma {:induction false} FreePagesRestoredUnshared(m: Mem, steps: seq<Step>, c: nat)
    requires Inv(m) && Life(m, steps, c) && OneOwner(m.words)
    ensures After(m, steps).freePages == m.freePages
  {
    forall a: nat, v: nat | Enabled(m, Fault(a, v)) ensures Refs(m.words, m.words[Entry(a, v)].frame) == 1 {
      RefsSole(m.words, Entry(a, v));
    }
    FreePagesRestoredIff(m, c);
  }
}
