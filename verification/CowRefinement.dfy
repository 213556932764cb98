/** The eager machine of the other kernel: fork copies every page, a frame belongs to one word, and
  kalloc and kfree keep no counts. It takes the same steps as the copy-on-write machine; the
  reference count, the write protection and the page fault have no counterpart and change nothing, and a
  word counts as gone once its frame is released. */
module EagerMachine {
  import opened Params
  import opened SetSizes
  import opened PageFrames
  import opened CowMachine

  datatype Eager = Eager(lo: nat, free: seq<nat>, data: seq<Page>, words: Words)

  ghost predicate OneOwner(words: Words)
  {
    forall s, t :: s in words && t in words && words[s].frame == words[t].frame ==> s == t
  }

  ghost predicate EagerInv(e: Eager)
  {
    Distinct(e.free) && OneOwner(e.words) &&
    (forall f :: f in e.free ==> e.lo <= f < |e.data|) &&
    (forall s :: s in e.words ==> e.lo <= e.words[s].frame < |e.data| && e.words[s].w) &&
    (forall f: nat :: e.lo <= f < |e.data| ==> (f in e.free <==> f !in Named(e.words)))
  }

  ghost predicate EagerEnabled(e: Eager, st: Step)
  {
    match st
    case Own(slot) => !slot.Entry? && slot !in e.words
    case Publish(s, v) => Local(s) in e.words && Entry(s, v) !in e.words
    case Share(p, c, v) => Entry(p, v) in e.words && Entry(c, v) !in e.words
    case Drop(slot) => slot in e.words
    case Store(s, v, off, _) => Entry(s, v) in e.words && off < PGSIZE && e.words[Entry(s, v)].u &&
    e.words[Entry(s, v)].w
    case _ => true
  }

  predicate EagerSucceeds(e: Eager, st: Step)
  {
    st.Own? || st.Share? ==> e.free != []
  }

  ghost function EagerNext(e: Eager, st: Step): (e': Eager)
    requires EagerInv(e) && EagerEnabled(e, st) && EagerSucceeds(e, st)
  {
    match st
    case Own(slot) =>
      assert e.free[0] in e.free;
      Eager(e.lo, e.free[1..], if slot.Stack? then e.data else e.data[e.free[0] := Filled(0)],
            e.words[slot := Word(e.free[0], true, true)])
    case Publish(s, v) =>
      e.(words := (e.words - {Local(s)})[Entry(s, v) := Word(e.words[Local(s)].frame, true, true)])
    case Share(p, c, v) =>
      assert e.free[0] in e.free;
      var w := e.words[Entry(p, v)];
      Eager(e.lo, e.free[1..], e.data[e.free[0] := e.data[w.frame]],
            e.words[Entry(c, v) := Word(e.free[0], w.w, w.u)])
    case Drop(slot) =>
      Eager(e.lo, [e.words[slot].frame] + e.free, e.data[e.words[slot].frame := Filled(1)], e.words - {slot})
    case Store(s, v, off, b) =>
      var f := e.words[Entry(s, v)].frame;
      e.(data := e.data[f := e.data[f][off := b]])
    case Count(_) => e
    case Clear(_) => e
    case Protect(_, _) => e
    case Fault(_, _) => e
  }

  lemma {:induction false} EagerOwnFrame(e: Eager, slot: Slot, w: Word)
    requires EagerInv(e) && slot !in e.words && e.free != [] && w.frame == e.free[0] && w.w
    ensures EagerInv(Eager(e.lo, e.free[1..], e.data, e.words[slot := w]))
    ensures e.free[0] in e.free && forall s :: s in e.words ==> e.words[s].frame != e.free[0]
  {
    assert e.free[0] in e.free;
    assert forall g :: g in e.free <==> g == e.free[0] || g in e.free[1..];
    assert Named(e.words[slot := w]) == Named(e.words) + {w.frame} by {
      assert e.words[slot := w][slot] == w;
      forall g | g in Named(e.words) ensures g in Named(e.words[slot := w]) {
        var s :| s in e.words && e.words[s].frame == g;
        assert e.words[slot := w][s].frame == g;
      }
    }
    forall s | s in e.words ensures e.words[s].frame != e.free[0] {
      assert e.words[s].frame in Named(e.words);
    }
  }

  lemma {:induction false} EagerDropFrame(e: Eager, slot: Slot, data': seq<Page>)
    requires EagerInv(e) && slot in e.words && |data'| == |e.data|
    ensures EagerInv(Eager(e.lo, [e.words[slot].frame] + e.free, data', e.words - {slot}))
  {
    var f := e.words[slot].frame;
    assert f in Named(e.words);
    assert Named(e.words - {slot}) == Named(e.words) - {f} by {
      forall g | g in Named(e.words) && g != f ensures g in Named(e.words - {slot}) {
        var s :| s in e.words && e.words[s].frame == g;
        assert (e.words - {slot})[s].frame == g;
      }
    }
    assert forall g :: g in [f] + e.free <==> g == f || g in e.free;
  }

  lemma {:induction false} EagerPublishFrame(e: Eager, s: nat, v: nat)
    requires EagerInv(e) && Local(s) in e.words && Entry(s, v) !in e.words
    ensures EagerInv(EagerNext(e, Publish(s, v)))
  {
    var words' := EagerNext(e, Publish(s, v)).words;
    assert Named(words') == Named(e.words) by {
      assert words'[Entry(s, v)].frame == e.words[Local(s)].frame;
      forall g | g in Named(e.words) ensures g in Named(words') {
        var t :| t in e.words && e.words[t].frame == g;
        assert g == if t == Local(s) then words'[Entry(s, v)].frame else words'[t].frame;
      }
    }
  }

  lemma {:induction false} EagerKeeps(e: Eager, st: Step)
    requires EagerInv(e) && EagerEnabled(e, st) && EagerSucceeds(e, st)
    ensures EagerInv(EagerNext(e, st))
    ensures EagerNext(e, st).lo == e.lo && |EagerNext(e, st).data| == |e.data|
  {
    match st
    case Own(slot) => EagerOwnFrame(e, slot, Word(e.free[0], true, true));
    case Publish(s, v) => EagerPublishFrame(e, s, v);
    case Share(p, c, v) =>
      EagerOwnFrame(e, Entry(c, v), Word(e.free[0], e.words[Entry(p, v)].w, e.words[Entry(p, v)].u));
    case Drop(slot) => EagerDropFrame(e, slot, EagerNext(e, st).data);
    case _ =>
  }
}

/** Copy-on-write fork is indistinguishable from eager fork. */
module CowRefinement {
  import opened Params
  import opened PageFrames
  import opened CowMachine
  import opened EagerMachine

  /** What the two kernels must agree on: the bytes behind every user page, and behind the page a
      kernel thread is about to map. */
  type Image = map<Slot, Page>

  predicate Visible(s: Slot) { s.Entry? || s.Local? }

  ghost predicate Backed(words: Words, data: seq<Page>)
  {
    forall s :: s in words ==> words[s].frame < |data|
  }

  ghost function ImageOf(words: Words, data: seq<Page>): Image
    requires Backed(words, data)
  {
    map s | s in words && Visible(s) :: data[words[s].frame]
  }

  /** The memory a program sees: one private array of bytes per page, no frames and no sharing. */
  function ImageNext(a: Image, st: Step): (a': Image)
    requires st.Publish? ==> Local(st.space) in a
    requires st.Share? ==> Entry(st.parent, st.vpn) in a
    requires st.Store? ==> Entry(st.space, st.vpn) in a && st.off < PGSIZE
  {
    match st
    case Own(slot) => if slot.Local? then a[slot := Filled(0)] else a
    case Publish(s, v) => (a - {Local(s)})[Entry(s, v) := a[Local(s)]]
    case Share(p, c, v) => a[Entry(c, v) := a[Entry(p, v)]]
    case Drop(slot) => a - {slot}
    case Store(s, v, off, b) => a[Entry(s, v) := a[Entry(s, v)][off := b]]
    case Count(_) => a
    case Clear(_) => a
    case Protect(_, _) => a
    case Fault(_, _) => a
  }

  ghost function CowImage(m: Mem): Image
    requires Backed(m.words, m.data)
  {
    ImageOf(m.words, m.data)
  }

  // ----- one word at a time -----

  /** Filling a frame that no other word names is seen through that one word. */
  lemma {:induction false} ImageFill(words: Words, data: seq<Page>, s: Slot, w: Word, page: Page)
    requires Backed(words, data) && w.frame < |data|
    requires forall t :: t in words && t != s && Visible(t) ==> words[t].frame != w.frame
    ensures Backed(words[s := w], data[w.frame := page])
    ensures ImageOf(words[s := w], data[w.frame := page])
         == if Visible(s) then ImageOf(words, data)[s := page] else ImageOf(words, data)
  {
  }

  /** A page copied to a frame that no word names, and the word made to name the copy. */
  lemma {:induction false} ImageMoves(words: Words, data: seq<Page>, e: Slot, f: nat)
    requires Backed(words, data) && f < |data| && e in words && Visible(e)
    requires forall t :: t in words ==> words[t].frame != f
    ensures var words', data' := words[e := Word(f, true, true)], data[f := data[words[e].frame]];
            Backed(words', data') && ImageOf(words', data') == ImageOf(words, data)
  {
    var page := data[words[e].frame];
    ImageFill(words, data, e, Word(f, true, true), page);
    assert ImageOf(words, data)[e] == page;
  }

  lemma {:induction false} ImageAlias(words: Words, data: seq<Page>, s: Slot, w: Word)
    requires Backed(words, data) && w.frame < |data|
    ensures Backed(words[s := w], data)
    ensures ImageOf(words[s := w], data)
         == if Visible(s) then ImageOf(words, data)[s := data[w.frame]] else ImageOf(words, data)
  {
  }

  lemma {:induction false} ImageRemove(words: Words, data: seq<Page>, s: Slot, data': seq<Page>)
    requires Backed(words, data) && |data| == |data'|
    requires forall t :: t in words && t != s && Visible(t) ==> data'[words[t].frame] == data[words[t].frame]
    ensures Backed(words - {s}, data')
    ensures ImageOf(words - {s}, data') == ImageOf(words, data) - {s}
  {
  }

  // ----- copy-on-write -----

  lemma {:induction false} CowOwnImage(m: Mem, slot: Slot)
    requires Inv(m) && Enabled(m, Own(slot)) && m.free != [] && m.free[0] in m.free
    requires Inv(OwnStep(m, slot))
    ensures CowImage(OwnStep(m, slot)) == ImageNext(CowImage(m), Own(slot))
  {
    var w := Word(m.free[0], true, true);
    assert Balanced(m, m.free[0]);
    RefsZero(m.words, m.free[0]);
    if slot.Stack? { ImageAlias(m.words, m.data, slot, w); } else { ImageFill(m.words, m.data, slot, w, Filled(0)); }
  }

  lemma {:induction false} CowShareImage(m: Mem, p: nat, c: nat, v: nat)
    requires Inv(m) && Enabled(m, Share(p, c, v)) && Inv(ShareStep(m, p, c, v))
    ensures CowImage(ShareStep(m, p, c, v)) == ImageNext(CowImage(m), Share(p, c, v))
  {
    ImageAlias(m.words, m.data, Entry(c, v), m.words[Entry(p, v)]);
  }

  lemma {:induction false} CowDropImage(m: Mem, slot: Slot)
    requires Inv(m) && Enabled(m, Drop(slot)) && Inv(DropStep(m, slot))
    ensures CowImage(DropStep(m, slot)) == ImageNext(CowImage(m), Drop(slot))
  {
    CountOfIdle(m, slot);
    RefsSole(m.words, slot);
    ImageRemove(m.words, m.data, slot, DropStep(m, slot).data);
  }

  /** A page fault is invisible: the copy has the bytes of the original. */
  lemma {:induction false} CowFaultImage(m: Mem, s: nat, v: nat)
    requires Inv(m) && Enabled(m, Fault(s, v)) && Inv(Next(m, Fault(s, v)))
    ensures CowImage(Next(m, Fault(s, v))) == CowImage(m)
  {
    hide ImageOf, AllBalanced, WritableUnshared, PendingOk, Nested, StaleOk, SplitStep;
    if m.count[m.words[Entry(s, v)].frame] == 1 {
      CowUpgradeImage(m, s, v);
    } else if m.free != [] {
      assert m.free[0] in m.free;
      CowSplitImage(m, s, v);
    }
  }

  lemma {:induction false} CowUpgradeImage(m: Mem, s: nat, v: nat)
    requires Inv(m) && Entry(s, v) in m.words
    ensures ImageOf(m.words[Entry(s, v) := m.words[Entry(s, v)].(w := true)], m.data) == CowImage(m)
  {
    ImageAlias(m.words, m.data, Entry(s, v), m.words[Entry(s, v)].(w := true));
  }

  lemma {:induction false} CowSplitImage(m: Mem, s: nat, v: nat)
    requires Inv(m) && Enabled(m, Fault(s, v)) && m.free != [] && m.free[0] in m.free && Inv(SplitStep(m, s, v))
    ensures CowImage(SplitStep(m, s, v)) == CowImage(m)
  {
    var e, f := Entry(s, v), m.free[0];
    assert Balanced(m, f);
    RefsZero(m.words, f);
    assert Backed(m.words, m.data) && f < |m.data|;
    hide Inv, ImageOf;
    ImageMoves(m.words, m.data, e, f);
    assert SplitStep(m, s, v).words == m.words[e := Word(f, true, true)];
    assert SplitStep(m, s, v).data == m.data[f := m.data[m.words[e].frame]];
  }

  /** A store reaches one page of one process. */
  lemma {:induction false} CowStoreImage(m: Mem, s: nat, v: nat, off: nat, b: Byte)
    requires Inv(m) && Enabled(m, Store(s, v, off, b)) && Inv(Next(m, Store(s, v, off, b)))
    ensures CowImage(Next(m, Store(s, v, off, b))) == ImageNext(CowImage(m), Store(s, v, off, b))
  {
    var e := Entry(s, v);
    RefsSole(m.words, e);
    ImageFill(m.words, m.data, e, m.words[e], m.data[m.words[e].frame][off := b]);
    assert m.words[e := m.words[e]] == m.words;
  }

  lemma {:induction false} CowPublishImage(m: Mem, s: nat, v: nat)
    requires Inv(m) && Enabled(m, Publish(s, v)) && Inv(Next(m, Publish(s, v)))
    ensures CowImage(Next(m, Publish(s, v))) == ImageNext(CowImage(m), Publish(s, v))
  {
    ImageRemove(m.words, m.data, Local(s), m.data);
    ImageAlias(m.words - {Local(s)}, m.data, Entry(s, v), Word(m.words[Local(s)].frame, true, true));
  }

  /** Every copy-on-write step acts on private pages. */
  lemma {:induction false} CowStepImage(m: Mem, st: Step)
    requires Inv(m) && Enabled(m, st) && Succeeds(m, st) && Inv(Next(m, st))
    ensures CowImage(Next(m, st)) == ImageNext(CowImage(m), st)
  {
    match st
    case Own(slot) => CowOwnImage(m, slot);
    case Publish(s, v) => CowPublishImage(m, s, v);
    case Protect(s, v) => ImageAlias(m.words, m.data, Entry(s, v), m.words[Entry(s, v)].(w := false));
    case Share(p, c, v) => CowShareImage(m, p, c, v);
    case Count(c) =>
    case Clear(slot) =>
    case Drop(slot) => CowDropImage(m, slot);
    case Fault(s, v) => CowFaultImage(m, s, v);
    case Store(s, v, off, b) => CowStoreImage(m, s, v, off, b);
  }

  // ----- eager -----

  ghost function EagerImage(e: Eager): Image
    requires Backed(e.words, e.data)
  {
    ImageOf(e.words, e.data)
  }

  lemma {:induction false} EagerStepImage(e: Eager, st: Step)
    requires EagerInv(e) && EagerEnabled(e, st) && EagerSucceeds(e, st) && EagerInv(EagerNext(e, st))
    ensures EagerImage(EagerNext(e, st)) == ImageNext(EagerImage(e), st)
  {
    match st
    case Own(slot) =>
      var w := Word(e.free[0], true, true);
      EagerOwnFrame(e, slot, w);
      if slot.Stack? { ImageAlias(e.words, e.data, slot, w); } else { ImageFill(e.words, e.data, slot, w, Filled(0)); }
    case Publish(s, v) =>
      ImageRemove(e.words, e.data, Local(s), e.data);
      ImageAlias(e.words - {Local(s)}, e.data, Entry(s, v), Word(e.words[Local(s)].frame, true, true));
    case Share(p, c, v) =>
      var w := e.words[Entry(p, v)];
      EagerOwnFrame(e, Entry(c, v), Word(e.free[0], w.w, w.u));
      ImageFill(e.words, e.data, Entry(c, v), Word(e.free[0], w.w, w.u), e.data[w.frame]);
    case Drop(slot) => ImageRemove(e.words, e.data, slot, EagerNext(e, st).data);
    case Store(s, v, off, b) =>
      var x := Entry(s, v);
      ImageFill(e.words, e.data, x, e.words[x], e.data[e.words[x].frame][off := b]);
      assert e.words[x := e.words[x]] == e.words;
    case Count(c) =>
    case Clear(slot) =>
    case Protect(s, v) =>
    case Fault(s, v) =>
  }
}
