/** Every step of the copy-on-write machine keeps the counts exact, the free list exact and every
  writable page unshared, at every point where another process may run, also while a mapping is not yet
  counted or a released word not yet cleared. */
module CowSafety {
  import opened Params
  import opened PageFrames
  import opened CowMachine

  // ----- one word at a time -----

  lemma {:induction false} ShapeSet(words: Words, s: Slot, w: Word, lo: nat, hi: nat)
    requires Shape(words, lo, hi) && ValidSlot(s) && lo <= w.frame < hi
    requires s.Entry? ==> Table(s.space, Pdx(s.vpn)) in words
    requires s.Table? ==> Dir(s.space) in words
    ensures Shape(words[s := w], lo, hi)
  {
  }

  lemma {:induction false} ShapeRemove(words: Words, s: Slot, lo: nat, hi: nat)
    requires Shape(words, lo, hi)
    requires s.Table? ==> forall v: nat :: Entry(s.space, v) in words ==> Pdx(v) != s.pdx
    requires s.Dir? ==> forall i: nat :: Table(s.space, i) !in words
    ensures Shape(words - {s}, lo, hi)
  {
  }

  lemma {:induction false} PendingSet(words: Words, pending: map<nat, InFlight>, s: Slot, w: Word)
    requires PendingOk(words, pending)
    requires s in words && s.Entry? ==> (w.frame == words[s].frame || IdleIn(pending, s.space))
    ensures PendingOk(words[s := w], pending)
  {
  }

  lemma {:induction false} PendingRemove(words: Words, pending: map<nat, InFlight>, s: Slot)
    requires PendingOk(words, pending)
    requires s.Entry? ==> IdleIn(pending, s.space)
    ensures PendingOk(words - {s}, pending)
  {
  }

  /** A fresh frame may be given to any word; a word that shares its frame must not be writable. */
  lemma {:induction false} UnsharedSet(words: Words, s: Slot, w: Word)
    requires WritableUnshared(words)
    requires s in words ==> s.Entry?
    requires Refs(words[s := w], w.frame) == 1 || (s.Entry? && !w.w)
    requires forall t :: t in words && t != s && words[t].frame == w.frame ==> t.Entry? && !words[t].w
    ensures WritableUnshared(words[s := w])
  {
    forall t | t in words[s := w] && t != s && (!t.Entry? || words[t].w)
      ensures Refs(words[s := w], words[t].frame) == 1
    {
      if s in words {
        RefsReplace(words, s, w, words[t].frame);
        RefsSole(words, t);
      } else {
        RefsAdd(words, s, w, words[t].frame);
      }
    }
  }

  lemma {:induction false} UnsharedRemove(words: Words, s: Slot)
    requires WritableUnshared(words) && s in words
    ensures WritableUnshared(words - {s})
  {
    forall t | t in words - {s} && (!t.Entry? || words[t].w)
      ensures Refs(words - {s}, words[t].frame) == 1
    {
      RefsRemove(words, s, words[t].frame);
      RefsSole(words, t);
    }
  }

  // ----- steps -----

  lemma {:induction false} OwnBalance(m: Mem, slot: Slot)
    requires AllBalanced(m) && FreeListOk(m) && |m.count| == |m.data| && PendingOk(m.words, m.pending)
    requires slot !in m.words && m.free != [] && m.free[0] in m.free
    ensures AllBalanced(OwnStep(m, slot)) && FreeListOk(OwnStep(m, slot))
    ensures Refs(m.words, m.free[0]) == 0
  {
    var f := m.free[0];
    var m' := OwnStep(m, slot);
    assert forall g :: g in m.free <==> g == f || g in m'.free;
    assert Managed(m, f) && Balanced(m, f);
    PendingTwice(m.words, m.pending, f);
    forall g: nat | Managed(m', g) ensures Balanced(m', g) {
      assert Managed(m, g) && Balanced(m, g);
      RefsAdd(m.words, slot, Word(f, true, true), g);
    }
  }

  lemma {:induction false} OwnKeeps(m: Mem, slot: Slot)
    requires Inv(m) && Enabled(m, Own(slot)) && m.free != [] && m.free[0] in m.free
    ensures Inv(OwnStep(m, slot))
  {
    var w := Word(m.free[0], true, true);
    OwnBalance(m, slot);
    RefsZero(m.words, w.frame);
    RefsAdd(m.words, slot, w, w.frame);
    ShapeSet(m.words, slot, w, m.lo, |m.count|);
    PendingSet(m.words, m.pending, slot, w);
    UnsharedSet(m.words, slot, w);
  }

  lemma {:induction false} PublishBalance(m: Mem, s: nat, v: nat, words': Words)
    requires AllBalanced(m) && Local(s) in m.words && Entry(s, v) !in m.words
    requires words' == (m.words - {Local(s)})[Entry(s, v) := Word(m.words[Local(s)].frame, true, true)]
    ensures AllBalanced(m.(words := words'))
    ensures Refs(words', m.words[Local(s)].frame) == Refs(m.words, m.words[Local(s)].frame)
  {
    var m' := m.(words := words');
    forall g: nat ensures Refs(words', g) == Refs(m.words, g) {
      RefsRemove(m.words, Local(s), g);
      RefsAdd(m.words - {Local(s)}, Entry(s, v), Word(m.words[Local(s)].frame, true, true), g);
    }
    forall g: nat | Managed(m', g) ensures Balanced(m', g) {
      assert Managed(m, g) && Balanced(m, g);
    }
  }

  lemma {:induction false} PublishKeeps(m: Mem, s: nat, v: nat)
    requires Inv(m) && Enabled(m, Publish(s, v))
    ensures Inv(Next(m, Publish(s, v)))
  {
    var rest := m.words - {Local(s)};
    var w := Word(m.words[Local(s)].frame, true, true);
    PublishBalance(m, s, v, rest[Entry(s, v) := w]);
    RefsSole(m.words, Local(s));
    ShapeRemove(m.words, Local(s), m.lo, |m.count|);
    ShapeSet(rest, Entry(s, v), w, m.lo, |m.count|);
    PendingRemove(m.words, m.pending, Local(s));
    PendingSet(rest, m.pending, Entry(s, v), w);
    UnsharedRemove(m.words, Local(s));
    UnsharedSet(rest, Entry(s, v), w);
  }

  lemma {:induction false} RewordBalance(m: Mem, e: Slot, w: Word)
    requires AllBalanced(m) && e in m.words && w.frame == m.words[e].frame
    ensures AllBalanced(m.(words := m.words[e := w]))
  {
    var m' := m.(words := m.words[e := w]);
    forall g: nat | Managed(m', g) ensures Balanced(m', g) {
      assert Managed(m, g) && Balanced(m, g);
      RefsReplace(m.words, e, w, g);
    }
  }

  lemma {:induction false} SharersReadOnly(words: Words, e: Slot)
    requires WritableUnshared(words) && e in words && e.Entry?
    ensures forall t :: t in words && t != e && words[t].frame == words[e].frame ==> t.Entry? && !words[t].w
  {
    forall t | t in words && t != e && words[t].frame == words[e].frame
      ensures t.Entry? && !words[t].w
    {
      RefsSole(words, t);
    }
  }

  lemma {:induction false} ProtectKeeps(m: Mem, s: nat, v: nat)
    requires Inv(m) && Enabled(m, Protect(s, v))
    ensures Inv(Next(m, Protect(s, v)))
  {
    var e := Entry(s, v);
    var w := m.words[e].(w := false);
    RewordBalance(m, e, w);
    SharersReadOnly(m.words, e);
    ShapeSet(m.words, e, w, m.lo, |m.count|);
    PendingSet(m.words, m.pending, e, w);
    UnsharedSet(m.words, e, w);
  }

  lemma {:induction false} ShareBalance(m: Mem, p: nat, c: nat, v: nat)
    requires AllBalanced(m) && Entry(p, v) in m.words && Entry(c, v) !in m.words && c !in m.pending
    ensures AllBalanced(ShareStep(m, p, c, v))
  {
    var m' := ShareStep(m, p, c, v);
    var shared := m.words[Entry(p, v)];
    RefsSole(m.words, Entry(p, v));
    hide Refs, RefSet, PendSet;
    forall g: nat | Managed(m', g) ensures Balanced(m', g) {
      assert Managed(m, g) && Balanced(m, g);
      RefsAdd(m.words, Entry(c, v), shared, g);
      PendAdd(m.pending, c, InFlight(p, v, shared.frame), g);
    }
  }

  lemma {:induction false} PendAdd(pending: map<nat, InFlight>, c: nat, q: InFlight, g: nat)
    requires c !in pending
    ensures |PendSet(pending[c := q], g)| == |PendSet(pending, g)| + if q.frame == g then 1 else 0
  {
    assert PendSet(pending[c := q], g) == PendSet(pending, g) + if q.frame == g then {c} else {};
    assert c !in PendSet(pending, g);
  }

  lemma {:induction false} SharePending(m: Mem, p: nat, c: nat, v: nat)
    requires PendingOk(m.words, m.pending) && Entry(p, v) in m.words && Entry(c, v) !in m.words
    requires p != c && Idle(m, p) && Idle(m, c)
    ensures PendingOk(ShareStep(m, p, c, v).words, ShareStep(m, p, c, v).pending)
  {
  }

  lemma {:induction false} ShareKeeps(m: Mem, p: nat, c: nat, v: nat)
    requires Inv(m) && Enabled(m, Share(p, c, v))
    ensures Inv(ShareStep(m, p, c, v))
  {
    var shared := m.words[Entry(p, v)];
    ShareBalance(m, p, c, v);
    SharePending(m, p, c, v);
    SharersReadOnly(m.words, Entry(p, v));
    UnsharedSet(m.words, Entry(c, v), shared);
    ShapeSet(m.words, Entry(c, v), shared, m.lo, |m.count|);
  }

  lemma {:induction false} CountKeeps(m: Mem, c: nat)
    requires Inv(m) && Enabled(m, Count(c))
    ensures Inv(Next(m, Count(c)))
  {
    CountBounds(m, m.pending[c].frame);
    CountBalance(m, c);
    assert PendingOk(m.words, m.pending - {c});
  }

  lemma {:induction false} CountBalance(m: Mem, c: nat)
    requires AllBalanced(m) && c in m.pending && Managed(m, m.pending[c].frame)
    requires m.count[m.pending[c].frame] < U32 - 1
    ensures var f := m.pending[c].frame;
            AllBalanced(m.(count := m.count[f := Inc(m.count[f])], pending := m.pending - {c}))
  {
    var f := m.pending[c].frame;
    var m' := m.(count := m.count[f := Inc(m.count[f])], pending := m.pending - {c});
    forall g: nat | Managed(m', g) ensures Balanced(m', g) {
      assert Managed(m, g) && Balanced(m, g);
      assert PendSet(m'.pending, g) == PendSet(m.pending, g) - if f == g then {c} else {};
    }
  }

  lemma {:induction false} DropBalance(m: Mem, slot: Slot)
    requires AllBalanced(m) && FreeListOk(m) && |m.count| == |m.data| && slot in m.words
    requires Managed(m, m.words[slot].frame) && m.count[m.words[slot].frame] >= 1
    requires m.count[m.words[slot].frame] == 1 ==> Refs(m.words, m.words[slot].frame) == 1
    ensures AllBalanced(DropStep(m, slot)) && FreeListOk(DropStep(m, slot))
  {
    var m' := DropStep(m, slot);
    var f := m.words[slot].frame;
    RefsSole(m.words, slot);
    assert Balanced(m, f) && f !in m.free;
    assert m'.free == m.free || (m'.free == [f] + m.free && m.count[f] == 1);
    forall g: nat | Managed(m', g) ensures Balanced(m', g) {
      assert Managed(m, g) && Balanced(m, g);
      RefsRemove(m.words, slot, g);
      assert g in m'.free <==> g in m.free || (g == f && m.count[f] == 1);
    }
  }

  lemma {:induction false} DropKeeps(m: Mem, slot: Slot)
    requires Inv(m) && Enabled(m, Drop(slot))
    ensures Inv(DropStep(m, slot))
  {
    CountOfIdle(m, slot);
    DropBalance(m, slot);
    ShapeRemove(m.words, slot, m.lo, |m.count|);
    PendingRemove(m.words, m.pending, slot);
    UnsharedRemove(m.words, slot);
  }

  lemma {:induction false} ClearKeeps(m: Mem, slot: Slot)
    requires Inv(m) && Enabled(m, Clear(slot))
    ensures Inv(Next(m, Clear(slot)))
  {
    var m' := Next(m, Clear(slot));
    forall g: nat | Managed(m', g) ensures Balanced(m', g) {
      assert Managed(m, g) && Balanced(m, g);
    }
  }

  lemma {:induction false} SplitBalance(m: Mem, s: nat, v: nat)
    requires AllBalanced(m) && FreeListOk(m) && |m.count| == |m.data| && PendingOk(m.words, m.pending)
    requires Entry(s, v) in m.words && Managed(m, m.words[Entry(s, v)].frame)
    requires 1 < m.count[m.words[Entry(s, v)].frame] < U32 - 1
    requires m.free != [] && m.free[0] in m.free
    ensures AllBalanced(SplitStep(m, s, v)) && FreeListOk(SplitStep(m, s, v))
    ensures Refs(m.words, m.free[0]) == 0
  {
    var e := Entry(s, v);
    var f := m.free[0];
    var m' := SplitStep(m, s, v);
    assert forall g :: g in m.free <==> g == f || g in m'.free;
    assert Managed(m, f) && Balanced(m, f);
    PendingTwice(m.words, m.pending, f);
    forall g: nat | Managed(m', g) ensures Balanced(m', g) {
      assert Managed(m, g) && Balanced(m, g);
      RefsReplace(m.words, e, Word(f, true, true), g);
    }
  }

  lemma {:induction false} SplitKeeps(m: Mem, s: nat, v: nat)
    requires Inv(m) && Enabled(m, Fault(s, v)) && m.free != [] && m.free[0] in m.free
    requires m.count[m.words[Entry(s, v)].frame] != 1
    ensures Inv(SplitStep(m, s, v))
  {
    var e := Entry(s, v);
    var w := Word(m.free[0], true, true);
    CountOfIdle(m, e);
    CountBounds(m, m.words[e].frame);
    SplitBalance(m, s, v);
    RefsZero(m.words, w.frame);
    RefsReplace(m.words, e, w, w.frame);
    ShapeSet(m.words, e, w, m.lo, |m.count|);
    PendingSet(m.words, m.pending, e, w);
    UnsharedSet(m.words, e, w);
  }

  lemma {:induction false} UpgradeKeeps(m: Mem, s: nat, v: nat)
    requires Inv(m) && Enabled(m, Fault(s, v))
    requires m.count[m.words[Entry(s, v)].frame] == 1
    ensures Inv(Next(m, Fault(s, v)))
  {
    var e := Entry(s, v);
    var w := m.words[e].(w := true);
    CountOfIdle(m, e);
    RefsSole(m.words, e);
    RefsReplace(m.words, e, w, w.frame);
    ShapeSet(m.words, e, w, m.lo, |m.count|);
    PendingSet(m.words, m.pending, e, w);
    UnsharedSet(m.words, e, w);
    RewordBalance(m, e, w);
  }

  lemma {:induction false} StoreKeeps(m: Mem, s: nat, v: nat, off: nat, b: Byte)
    requires Inv(m) && Enabled(m, Store(s, v, off, b))
    ensures Inv(Next(m, Store(s, v, off, b)))
  {
    var m' := Next(m, Store(s, v, off, b));
    forall g: nat | Managed(m', g) ensures Balanced(m', g) {
      assert Managed(m, g) && Balanced(m, g);
    }
  }

  /** One step, whichever process takes it and whether or not memory runs out. */
  lemma {:induction false} StepKeeps(m: Mem, st: Step)
    requires Inv(m) && Enabled(m, st)
    ensures Inv(Next(m, st))
    ensures Next(m, st).lo == m.lo && |Next(m, st).count| == |m.count|
  {
    if Succeeds(m, st) {
      match st
      case Own(slot) => OwnKeeps(m, slot);
      case Publish(s, v) => PublishKeeps(m, s, v);
      case Protect(s, v) => ProtectKeeps(m, s, v);
      case Share(p, c, v) => ShareKeeps(m, p, c, v);
      case Count(c) => CountKeeps(m, c);
      case Drop(slot) => DropKeeps(m, slot);
      case Clear(slot) => ClearKeeps(m, slot);
      case Fault(s, v) =>
        if m.count[m.words[Entry(s, v)].frame] == 1 { UpgradeKeeps(m, s, v); } else { SplitKeeps(m, s, v); }
      case Store(s, v, off, b) => StoreKeeps(m, s, v, off, b);
    }
  }
}
