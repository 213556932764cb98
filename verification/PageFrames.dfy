/** Physical frames, the page-table words that name them, and how often a frame is named.

  A word of kernel memory that holds a frame number is addressed by a `Slot`. Address spaces are
  numbered by process-table slot, and a user page by its virtual page number. */
module PageFrames {
  import opened Params

  const NPROC: nat := 64
  const NPTENTRIES: nat := 1024
  const NPDENTRIES: nat := 1024
  const USER_PAGES: nat := 0x80000       // KERNBASE / PGSIZE

  type Page = p: seq<Byte> | |p| == PGSIZE witness seq(PGSIZE, _ => 0)

  /** memset(v, b, PGSIZE) */
  function Filled(b: Byte): Page { seq(PGSIZE, _ => b) }

  datatype Slot =
    | Dir(space: nat)                  // the process's pgdir pointer
    | Table(space: nat, pdx: nat)      // a present page-directory entry
    | Stack(space: nat)                // the process's kstack pointer
    | Local(space: nat)                // a kernel thread's `mem` between kalloc and mappages
    | Entry(space: nat, vpn: nat)      // a present user page-table entry

  datatype Word = Word(frame: nat, w: bool, u: bool)

  type Words = map<Slot, Word>

  predicate ValidSlot(s: Slot)
  {
    s.space < NPROC
    && (s.Table? ==> s.pdx < NPDENTRIES)
    && (s.Entry? ==> s.vpn < USER_PAGES)
  }

  function Pdx(vpn: nat): nat { vpn / NPTENTRIES }

  /** A user page is only reachable through a present table, a table only through a directory. */
  ghost predicate Nested(words: Words)
  {
    (forall s :: s in words && s.Entry? ==> Table(s.space, Pdx(s.vpn)) in words) &&
    (forall s :: s in words && s.Table? ==> Dir(s.space) in words)
  }

  ghost function RefSet(words: Words, f: nat): set<Slot>
  {
    set s | s in words && words[s].frame == f
  }

  ghost function Refs(words: Words, f: nat): nat { |RefSet(words, f)| }

  ghost function Named(words: Words): set<nat>
  {
    set s | s in words :: words[s].frame
  }

  lemma {:induction false} RefsAdd(words: Words, s: Slot, w: Word, f: nat)
    requires s !in words
    ensures Refs(words[s := w], f) == Refs(words, f) + (if w.frame == f then 1 else 0)
  {
    assert RefSet(words[s := w], f) == if w.frame == f then RefSet(words, f) + {s} else RefSet(words, f);
  }

  lemma {:induction false} RefsRemove(words: Words, s: Slot, f: nat)
    requires s in words
    ensures Refs(words - {s}, f) == Refs(words, f) - (if words[s].frame == f then 1 else 0)
  {
    assert RefSet(words - {s}, f) == if words[s].frame == f then RefSet(words, f) - {s} else RefSet(words, f);
  }

  lemma {:induction false} RefsReplace(words: Words, s: Slot, w: Word, f: nat)
    requires s in words
    ensures Refs(words[s := w], f)
         == Refs(words, f) - (if words[s].frame == f then 1 else 0) + (if w.frame == f then 1 else 0)
  {
    RefsRemove(words, s, f);
    RefsAdd(words - {s}, s, w, f);
    assert (words - {s})[s := w] == words[s := w];
  }

  lemma {:induction false} RefsZero(words: Words, f: nat)
    ensures Refs(words, f) == 0 <==> forall s :: s in words ==> words[s].frame != f
    ensures Refs(words, f) == 0 <==> f !in Named(words)
  {
    assert forall s :: s in words ==> (s in RefSet(words, f) <==> words[s].frame == f);
    assert (exists s :: s in RefSet(words, f)) <==> RefSet(words, f) != {};
  }

  lemma {:induction false} RefsSole(words: Words, s: Slot)
    requires s in words
    ensures Refs(words, words[s].frame) >= 1
    ensures Refs(words, words[s].frame) == 1 <==>
            forall t :: t in words && t != s ==> words[t].frame != words[s].frame
  {
    RefsRemove(words, s, words[s].frame);
    RefsZero(words - {s}, words[s].frame);
    assert forall t :: t in words && t != s <==> t in words - {s};
  }

  // ----- A frame is named fewer than 2^32 times, so its 32-bit count cannot wrap -----

  function Code(s: Slot): nat
  {
    match s
    case Dir(p) => 8 * p
    case Stack(p) => 8 * p + 1
    case Local(p) => 8 * p + 2
    case Table(p, i) => 8 * (p * NPDENTRIES + i) + 3
    case Entry(p, v) => 8 * (p * USER_PAGES + v) + 4
  }

  const CODE_BOUND: nat := 8 * NPROC * USER_PAGES

  lemma {:induction false} BoundedCard(xs: set<nat>, n: nat)
    requires forall x :: x in xs ==> x < n
    ensures |xs| <= n
  {
    if n == 0 {
      assert xs == {};
    } else {
      BoundedCard(xs - {n - 1}, n - 1);
    }
  }

  lemma {:induction false} CodesCard(slots: set<Slot>)
    requires forall s :: s in slots ==> ValidSlot(s)
    ensures |set s | s in slots :: Code(s)| == |slots|
  {
    if slots == {} {
      assert (set s | s in slots :: Code(s)) == {};
    } else {
      var t :| t in slots;
      CodesCard(slots - {t});
      forall s | s in slots && s != t ensures Code(s) != Code(t) {}
      assert (set s | s in slots :: Code(s)) == (set s | s in slots - {t} :: Code(s)) + {Code(t)};
    }
  }

  lemma {:induction false} RefsBounded(words: Words, f: nat)
    requires forall s :: s in words ==> ValidSlot(s)
    ensures Refs(words, f) <= CODE_BOUND < U32 - 1
  {
    var codes := set s | s in RefSet(words, f) :: Code(s);
    CodesCard(RefSet(words, f));
    forall c | c in codes ensures c < CODE_BOUND {}
    BoundedCard(codes, CODE_BOUND);
  }
}
