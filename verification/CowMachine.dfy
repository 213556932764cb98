/** Copy-on-write memory as a machine of atomic steps.

  A step is a kalloc and its publication, the mapping of one shared page by copyuvm, the i_rCount that
  follows it, one kfree, the clearing of the word that named the page, one page fault, one store. Any
  process may step between any two of them, so a run covers the preemption of copyuvm between mapping a
  page and counting it, and of deallocuvm between releasing a page and clearing its entry. */
module CowMachine {
  import opened SetSizes
  import opened Params
  import opened PageFrames

  /** A page that copyuvm has mapped into the child and has not yet counted. */
  datatype InFlight = InFlight(parent: nat, vpn: nat, frame: nat)

  datatype Mem = Mem(
    lo: nat,                        // first managed frame: V2P(end) >> PGSHIFT
    free: seq<nat>,                 // kmem.freelist, head first
    freePages: nat,                 // kmem.free_pages
    count: seq<nat>,                // kmem.page_rCount
    data: seq<Page>,                // contents of physical memory
    words: Words,                   // page directories, page tables, kernel pointers
    pending: map<nat, InFlight>,    // keyed by child
    stale: Words                    // words whose frame has been given to kfree, not yet cleared
  )

  datatype Step =
    | Own(slot: Slot)
    | Publish(space: nat, vpn: nat)
    | Protect(space: nat, vpn: nat)
    | Share(parent: nat, child: nat, vpn: nat)
    | Count(child: nat)
    | Drop(slot: Slot)                 // kfree of the frame that a word names
    | Clear(slot: Slot)                // and *pte = 0
    | Fault(space: nat, vpn: nat)
    | Store(space: nat, vpn: nat, off: nat, value: Byte)

  function Inc(c: nat): nat { (c + 1) % U32 }
  function Dec(c: nat): nat { (c + U32 - 1) % U32 }

  predicate Managed(m: Mem, f: nat) { m.lo <= f < |m.count| }

  /** Neither end of an uncounted mapping: the only processes that run between Share and Count. */
  predicate IdleIn(pending: map<nat, InFlight>, space: nat)
  {
    space !in pending && forall c :: c in pending ==> pending[c].parent != space
  }

  /** And not between releasing a page and clearing its word. */
  predicate Idle(m: Mem, space: nat) { IdleIn(m.pending, space) && forall s :: s in m.stale ==> s.space != space }

  // ----- kalloc.c -----

  /** kfree: uncount one reference and recycle the frame when none is left. */
  function Release(m: Mem, f: nat): (m': Mem)
    requires f < |m.count| && f < |m.data|
  {
    if m.count[f] <= 1 then
      m.(count := m.count[f := 0], data := m.data[f := Filled(1)],
         free := [f] + m.free, freePages := m.freePages + 1)
    else m.(count := m.count[f := m.count[f] - 1])
  }

  // ----- steps -----

  /** When the kernel code behind a step may run. Everything the step reads is present. */
  ghost predicate Enabled(m: Mem, st: Step)
  {
    match st
    case Own(slot) =>
      ValidSlot(slot) && !slot.Entry? && slot !in m.words && slot !in m.stale &&
      (slot.Table? ==> Dir(slot.space) in m.words)
    case Publish(s, v) =>
      ValidSlot(Entry(s, v)) && Local(s) in m.words && Table(s, Pdx(v)) in m.words &&
      Entry(s, v) !in m.words && Entry(s, v) !in m.stale
    case Protect(s, v) => Entry(s, v) in m.words
    case Share(p, c, v) =>
      p != c && ValidSlot(Entry(c, v)) && Idle(m, p) && Idle(m, c) &&
      Entry(p, v) in m.words && !m.words[Entry(p, v)].w &&
      Table(c, Pdx(v)) in m.words && Entry(c, v) !in m.words
    case Count(c) => c in m.pending
    case Drop(slot) =>
      slot in m.words &&
      (slot.Entry? ==> Idle(m, slot.space)) &&
      (slot.Table? ==> forall v: nat :: Entry(slot.space, v) in m.words || Entry(slot.space, v) in m.stale ==>
        Pdx(v) != slot.pdx) &&
      (slot.Dir? ==> forall i: nat :: Table(slot.space, i) !in m.words)
    case Clear(slot) => slot in m.stale
    case Fault(s, v) =>
      Idle(m, s) && Entry(s, v) in m.words && m.words[Entry(s, v)].u && !m.words[Entry(s, v)].w
    case Store(s, v, off, _) =>
      off < PGSIZE && Entry(s, v) in m.words && m.words[Entry(s, v)].u && m.words[Entry(s, v)].w
  }

  /** False exactly when the step asks kalloc for a frame and gets 0. */
  ghost predicate Succeeds(m: Mem, st: Step)
    requires Inv(m) && Enabled(m, st)
  {
    match st
    case Own(_) => m.free != []
    case Fault(s, v) => m.count[m.words[Entry(s, v)].frame] == 1 || m.free != []
    case _ => true
  }

  function OwnStep(m: Mem, slot: Slot): (m': Mem)
    requires m.free != [] && m.freePages > 0 && m.free[0] < |m.count| && m.free[0] < |m.data|
  {
    Mem(m.lo, m.free[1..], m.freePages - 1, m.count[m.free[0] := 1],
        if slot.Stack? then m.data else m.data[m.free[0] := Filled(0)],
        m.words[slot := Word(m.free[0], true, true)], m.pending, m.stale)
  }

  /** The frame is released, and the word that named it is stale. */
  function DropStep(m: Mem, slot: Slot): (m': Mem)
    requires slot in m.words && m.words[slot].frame < |m.count| && m.words[slot].frame < |m.data|
  {
    var r := Release(m, m.words[slot].frame);
    Mem(r.lo, r.free, r.freePages, r.count, r.data, m.words - {slot}, m.pending, m.stale[slot := m.words[slot]])
  }

  function ShareStep(m: Mem, p: nat, c: nat, v: nat): (m': Mem)
    requires Entry(p, v) in m.words
  {
    m.(words := m.words[Entry(c, v) := m.words[Entry(p, v)]],
       pending := m.pending[c := InFlight(p, v, m.words[Entry(p, v)].frame)])
  }

  /** COW_FAULT with a reference count above one and a frame to copy into. */
  function SplitStep(m: Mem, s: nat, v: nat): (m': Mem)
    requires Entry(s, v) in m.words && m.free != [] && m.freePages > 0
    requires m.free[0] < |m.count| && m.free[0] < |m.data|
    requires m.words[Entry(s, v)].frame < |m.count| && m.words[Entry(s, v)].frame < |m.data|
  {
    var was := m.words[Entry(s, v)].frame;
    var taken := m.count[m.free[0] := 1];
    Mem(m.lo, m.free[1..], m.freePages - 1, taken[was := Dec(taken[was])],
        m.data[m.free[0] := m.data[was]],
        m.words[Entry(s, v) := Word(m.free[0], true, true)], m.pending, m.stale)
  }

  /** The new state; a step whose kalloc fails leaves memory as it was. */
  ghost function Next(m: Mem, st: Step): (m': Mem)
    requires Inv(m) && Enabled(m, st)
  {
    if !Succeeds(m, st) then m else
    match st
    case Own(slot) => assert m.free[0] in m.free; OwnStep(m, slot)
    case Publish(s, v) =>
      m.(words := (m.words - {Local(s)})[Entry(s, v) := Word(m.words[Local(s)].frame, true, true)])
    case Protect(s, v) => m.(words := m.words[Entry(s, v) := m.words[Entry(s, v)].(w := false)])
    case Share(p, c, v) => ShareStep(m, p, c, v)
    case Count(c) =>
      var f := m.pending[c].frame;
      m.(count := m.count[f := Inc(m.count[f])], pending := m.pending - {c})
    case Drop(slot) => DropStep(m, slot)
    case Clear(slot) => m.(stale := m.stale - {slot})
    case Fault(s, v) =>
      var e := Entry(s, v);
      if m.count[m.words[e].frame] == 1 then m.(words := m.words[e := m.words[e].(w := true)])
      else assert m.free[0] in m.free; SplitStep(m, s, v)
    case Store(s, v, off, b) =>
      var f := m.words[Entry(s, v)].frame;
      m.(data := m.data[f := m.data[f][off := b]])
  }

  // ----- what every step keeps -----

  ghost function PendSet(pending: map<nat, InFlight>, f: nat): set<nat>
  {
    set c | c in pending && pending[c].frame == f
  }

  /** Both ends of every uncounted mapping are still there, and no process is in two of them. */
  ghost predicate PendingOk(words: Words, pending: map<nat, InFlight>)
  {
    (forall c :: c in pending ==>
      var q := pending[c];
      q.parent != c && q.parent !in pending &&
      Entry(c, q.vpn) in words && words[Entry(c, q.vpn)].frame == q.frame &&
      Entry(q.parent, q.vpn) in words && words[Entry(q.parent, q.vpn)].frame == q.frame) &&
    (forall c, d :: c in pending && d in pending && c != d ==> pending[c].parent != pending[d].parent)
  }

  /** Page tables are nested, and every word names a frame the allocator manages. */
  ghost predicate Shape(words: Words, lo: nat, hi: nat)
  {
    Nested(words) && forall s :: s in words ==> ValidSlot(s) && lo <= words[s].frame < hi
  }

  ghost predicate FreeListOk(m: Mem)
  {
    Distinct(m.free) && m.freePages == |m.free| && forall f :: f in m.free ==> Managed(m, f)
  }

  /** The count of f is the number of words naming it that have not been released, less the mappings still
      in flight, and f is on the free list exactly when there is no such word. */
  ghost predicate Balanced(m: Mem, f: nat)
    requires f < |m.count|
  {
    m.count[f] == Refs(m.words, f) - |PendSet(m.pending, f)| &&
    (f in m.free <==> Refs(m.words, f) == 0)
  }

  ghost predicate AllBalanced(m: Mem) { forall f: nat :: Managed(m, f) ==> Balanced(m, f) }

  /** A kernel page, or a page some process may write, is named by one such word only. */
  ghost predicate WritableUnshared(words: Words)
  {
    forall s :: s in words && (!s.Entry? || words[s].w) ==> Refs(words, words[s].frame) == 1
  }

  ghost predicate Inv(m: Mem)
  {
    m.lo <= |m.count| == |m.data| && Shape(m.words, m.lo, |m.count|) && FreeListOk(m) &&
    PendingOk(m.words, m.pending) && AllBalanced(m) && WritableUnshared(m.words) && StaleOk(m.words, m.stale)
  }

  ghost predicate StaleOk(words: Words, stale: Words)
  {
    words.Keys !! stale.Keys && forall s :: s in stale ==> ValidSlot(s)
  }

  /** Every word in memory that names a frame, released or not. */
  ghost function Present(m: Mem): Words { m.words + m.stale }

  // ----- counting -----

  /** Each in-flight mapping of f contributes two words to f and is missing from its count once. */
  lemma {:induction false} PendingTwice(words: Words, pending: map<nat, InFlight>, f: nat)
    requires PendingOk(words, pending)
    ensures Refs(words, f) >= 2 * |PendSet(pending, f)|
    decreases |PendSet(pending, f)|
  {
    if PendSet(pending, f) != {} {
      var c :| c in PendSet(pending, f);
      var q := pending[c];
      var words' := words - {Entry(c, q.vpn)} - {Entry(q.parent, q.vpn)};
      RefsRemove(words, Entry(c, q.vpn), f);
      RefsRemove(words - {Entry(c, q.vpn)}, Entry(q.parent, q.vpn), f);
      assert PendSet(pending - {c}, f) == PendSet(pending, f) - {c};
      PendingTwice(words', pending - {c}, f);
    }
  }

  lemma {:induction false} PendingTwiceOver(words: Words, pending: map<nat, InFlight>, slot: Slot)
    requires PendingOk(words, pending) && slot in words
    requires forall c :: c in pending ==>
      slot != Entry(c, pending[c].vpn) && slot != Entry(pending[c].parent, pending[c].vpn)
    ensures Refs(words, words[slot].frame) >= 1 + 2 * |PendSet(pending, words[slot].frame)|
  {
    RefsRemove(words, slot, words[slot].frame);
    PendingTwice(words - {slot}, pending, words[slot].frame);
  }

  /** A process outside every in-flight mapping that sees count 1 holds the only reference;
      a frame it names has a positive count. */
  lemma {:induction false} CountOfIdle(m: Mem, slot: Slot)
    requires Inv(m) && slot in m.words && (slot.Entry? ==> Idle(m, slot.space))
    ensures m.count[m.words[slot].frame] >= 1
    ensures m.count[m.words[slot].frame] == 1 ==>
              Refs(m.words, m.words[slot].frame) == 1 && PendSet(m.pending, m.words[slot].frame) == {}
    ensures !slot.Entry? ==> m.count[m.words[slot].frame] == 1
  {
    var f := m.words[slot].frame;
    PendingTwiceOver(m.words, m.pending, slot);
    RefsSole(m.words, slot);
    assert Managed(m, f) && Balanced(m, f);
    assert |PendSet(m.pending, f)| == 0 ==> PendSet(m.pending, f) == {};
  }

  lemma {:induction false} CountBounds(m: Mem, f: nat)
    requires Inv(m) && Managed(m, f)
    ensures m.count[f] == 0 <==> f in m.free
    ensures m.count[f] < U32 - 1
  {
    assert Balanced(m, f);
    RefsBounded(m.words, f);
    PendingTwice(m.words, m.pending, f);
  }

  lemma {:induction false} RefsUnion(a: Words, b: Words, f: nat)
    requires a.Keys !! b.Keys
    ensures Refs(a + b, f) == Refs(a, f) + Refs(b, f)
  {
    assert RefSet(a + b, f) == RefSet(a, f) + RefSet(b, f);
    assert RefSet(a, f) !! RefSet(b, f);
  }

  /** What memory shows at any moment: page_rCount counts the words naming the frame, less the mappings not
      yet counted and the words released but not yet cleared. Beside a word with PTE_W set, the only other
      words naming its frame are such released ones. */
  lemma {:induction false} CountsInMemory(m: Mem, f: nat)
    requires Inv(m) && Managed(m, f)
    ensures Refs(Present(m), f) == m.count[f] + |PendSet(m.pending, f)| + Refs(m.stale, f)
    ensures forall s, t :: (s in m.words && (!s.Entry? || m.words[s].w) && t in Present(m) && t != s &&
              Present(m)[t].frame == m.words[s].frame) ==> t in m.stale
  {
    RefsUnion(m.words, m.stale, f);
    assert Balanced(m, f);
    forall s, t | s in m.words && (!s.Entry? || m.words[s].w) && t in Present(m) && t != s &&
                  Present(m)[t].frame == m.words[s].frame
      ensures t in m.stale
    {
      RefsSole(m.words, s);
    }
  }
}
