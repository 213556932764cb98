/** Parents and children: no exit goes unnoticed, and every process descends from init. */
module ProcTree {
  import opened SchedMachine

  const ALIVE: set<State> := {SLEEPING, RUNNABLE, RUNNING}

  /** A child under construction belongs to one living, older process. */
  ghost predicate ForkOk(m: Machine, f: nat)
    requires f < |m.procs|
  {
    var p := m.procs[f];
    p.np.Slot? ==>
      var c := p.np.slot;
      p.state in ALIVE && c != f && Is(m, c, EMBRYO) && p.pid < m.procs[c].pid &&
      m.procs[c].parent in {NoParent, Slot(f)} &&
      forall g: nat :: g < |m.procs| && m.procs[g].np == Slot(c) ==> g == f
  }

  /** A parent is alive and older than its child; while fork has not finished, it is in fork. */
  ghost predicate ParentOk(m: Machine, c: nat)
    requires c < |m.procs|
  {
    var p := m.procs[c];
    p.parent.Slot? ==>
      var f := p.parent.slot;
      f < |m.procs| && m.procs[f].state in ALIVE && m.procs[f].pid < p.pid && p.state != UNUSED &&
      (p.state == EMBRYO ==> m.procs[f].np == Slot(c))
  }

  ghost predicate LifeOk(m: Machine, s: nat)
    requires s < |m.procs|
  {
    var p := m.procs[s];
    (p.state != UNUSED ==> 1 <= p.pid < m.nextpid) &&
    (p.state != UNUSED && s != m.init ==> 2 <= p.pid) &&
    (s == m.init ==> p.state in ALIVE && p.pid == 1 && p.parent == NoParent) &&
    (p.state !in {UNUSED, EMBRYO} && s != m.init ==> p.parent.Slot?)
  }

  /** A process asleep in wait has no child to reap. */
  ghost predicate WaitOk(m: Machine, s: nat)
    requires s < |m.procs|
  {
    m.procs[s].state == SLEEPING && m.procs[s].chan == OnProc(s) ==> !ZombieChild(m, s)
  }

  ghost predicate Tree(m: Machine)
  {
    m.init < |m.procs| && m.nextpid >= 2 &&
    (forall f: nat :: f < |m.procs| ==> ForkOk(m, f)) &&
    (forall c: nat :: c < |m.procs| ==> ParentOk(m, c)) &&
    (forall s: nat :: s < |m.procs| ==> LifeOk(m, s)) &&
    (forall s: nat :: s < |m.procs| ==> WaitOk(m, s))
  }

  lemma {:induction false} BootTree(m: Machine)
    requires Boot(m)
    ensures Tree(m)
  {
    assert m.procs[0].pid == 1;
  }

  lemma {:induction false} LifeStep(m: Machine, e: Event, s: nat)
    requires Tree(m) && Enabled(m, e) && s < |m.procs|
    ensures LifeOk(Step(m, e), s)
  {
    if e.Alloc? || e.Adopt? || e.Launch? || e.Abandon? {
      LifeFork(m, e, s);
    } else {
      assert Step(m, e).procs[s] == Next(m, e, s);
      assert LifeOk(m, s);
      if e.Reap? { assert ParentOk(m, e.child); assert LifeOk(m, e.child); }
      hide Step, ZombieChild, FirstWithPid, WaitOk, Tree;
    }
  }

  lemma {:induction false} LifeFork(m: Machine, e: Event, s: nat)
    requires Tree(m) && Enabled(m, e) && s < |m.procs| && (e.Alloc? || e.Adopt? || e.Launch? || e.Abandon?)
    ensures LifeOk(Step(m, e), s)
  {
    assert Step(m, e).procs[s] == Next(m, e, s);
    assert LifeOk(m, s);
    if !e.Alloc? { assert ForkOk(m, e.f); }
    hide Step, ZombieChild, FirstWithPid, WaitOk, Tree;
  }

  /** What the steps do to what the tree depends on. */
  ghost predicate Same(p: Proc, p': Proc) { p'.pid == p.pid && p'.parent == p.parent && p'.np == p.np }

  /** Only fork, exit and wait change pids, parents and forks under way, and who is alive. */
  lemma {:induction false} Elsewhere(m: Machine, e: Event, s: nat)
    requires s < |m.procs| && Enabled(m, e) && !e.Alloc? && !e.Abandon? && !e.Adopt? && !e.Launch? && !e.Reap?
    requires !e.Exit?
    ensures var p, p' := m.procs[s], Next(m, e, s);
            Same(p, p') && (p'.state in ALIVE <==> p.state in ALIVE) && (p.state !in ALIVE ==> p'.state == p.state)
  {
    hide ZombieChild, FirstWithPid;
  }

  lemma {:induction false} ParentQuiet(m: Machine, e: Event, c: nat)
    requires Tree(m) && Enabled(m, e) && c < |m.procs| && !e.Alloc? && !e.Abandon? && !e.Adopt? && !e.Launch?
    requires !e.Reap? && !e.Exit?
    ensures ParentOk(Step(m, e), c) && ForkOk(Step(m, e), c)
  {
    hide Next, Enabled, LifeOk, WaitOk;
    var m' := Step(m, e);
    assert forall s: nat :: s < |m.procs| ==> m'.procs[s] == Next(m, e, s);
    forall s: nat | s < |m.procs|
      ensures Same(m.procs[s], m'.procs[s]) && (m'.procs[s].state in ALIVE <==> m.procs[s].state in ALIVE)
      ensures m.procs[s].state !in ALIVE ==> m'.procs[s].state == m.procs[s].state
    {
      Elsewhere(m, e, s);
    }
    assert ParentOk(m, c) && ForkOk(m, c);
    hide Step;
  }

  lemma {:induction false} ParentAlloc(m: Machine, e: Event, c: nat)
    requires Tree(m) && Enabled(m, e) && c < |m.procs| && e.Alloc?
    ensures ParentOk(Step(m, e), c) && ForkOk(Step(m, e), c)
  {
    var m' := Step(m, e);
    assert forall s: nat :: s < |m.procs| ==> m'.procs[s] == Next(m, e, s);
    assert ParentOk(m, c) && ForkOk(m, c) && LifeOk(m, e.f) && ParentOk(m, e.s) && ForkOk(m, e.s);
    forall g: nat | g < |m.procs| ensures m.procs[g].np != Slot(e.s) { assert ForkOk(m, g); }
    hide Step, WaitOk;
  }

  lemma {:induction false} ParentAbandon(m: Machine, e: Event, c: nat)
    requires Tree(m) && Enabled(m, e) && c < |m.procs| && e.Abandon?
    ensures ParentOk(Step(m, e), c) && ForkOk(Step(m, e), c)
  {
    var m' := Step(m, e);
    assert forall s: nat :: s < |m.procs| ==> m'.procs[s] == Next(m, e, s);
    assert ParentOk(m, c) && ForkOk(m, c) && ForkOk(m, e.f) && ForkOk(m, e.s);
    hide Step, WaitOk, LifeOk;
  }

  lemma {:induction false} ParentLaunch(m: Machine, e: Event, c: nat)
    requires Tree(m) && Enabled(m, e) && c < |m.procs| && e.Launch?
    ensures ParentOk(Step(m, e), c) && ForkOk(Step(m, e), c)
  {
    var m' := Step(m, e);
    assert forall s: nat :: s < |m.procs| ==> m'.procs[s] == Next(m, e, s);
    assert ParentOk(m, c) && ForkOk(m, c) && ForkOk(m, e.f) && ForkOk(m, e.s);
    hide Step, WaitOk, LifeOk;
  }

  lemma {:induction false} ParentAdopt(m: Machine, e: Event, c: nat)
    requires Tree(m) && Enabled(m, e) && c < |m.procs| && e.Adopt?
    ensures ParentOk(Step(m, e), c) && ForkOk(Step(m, e), c)
  {
    var m' := Step(m, e);
    assert forall s: nat :: s < |m.procs| ==> m'.procs[s] == Next(m, e, s);
    assert ParentOk(m, c) && ForkOk(m, c) && ForkOk(m, e.f) && ForkOk(m, e.s);
    hide Step, WaitOk, LifeOk;
  }

  lemma {:induction false} ParentReap(m: Machine, e: Event, c: nat)
    requires Tree(m) && Enabled(m, e) && c < |m.procs| && e.Reap?
    ensures ParentOk(Step(m, e), c) && ForkOk(Step(m, e), c)
  {
    var m' := Step(m, e);
    assert forall s: nat :: s < |m.procs| ==> m'.procs[s] == Next(m, e, s);
    assert ParentOk(m, c) && ForkOk(m, c) && ForkOk(m, e.child);
    hide Step, WaitOk;
  }

  lemma {:induction false} ExitEffect(m: Machine, t: nat, s: nat)
    requires Enabled(m, Exit(t)) && s < |m.procs|
    ensures var p, p' := m.procs[s], Next(m, Exit(t), s);
            p'.pid == p.pid && p'.np == p.np && p'.chan == p.chan &&
            (s != t ==> (p'.state in ALIVE <==> p.state in ALIVE) && (p.state !in ALIVE ==> p'.state == p.state)) &&
            (s == t ==> p'.state == ZOMBIE) &&
            p'.parent == if p.parent == Slot(t) then Slot(m.init) else p.parent
  {
    hide ZombieChild;
    assert Next(m, Exit(t), s) == AfterExit(m, t, s);
  }

  lemma {:induction false} ParentExit(m: Machine, e: Event, c: nat)
    requires Tree(m) && Enabled(m, e) && c < |m.procs| && e.Exit?
    ensures ParentOk(Step(m, e), c)
  {
    var m' := Step(m, e);
    ExitEffect(m, e.s, c);
    ExitEffect(m, e.s, m.init);
    if m.procs[c].parent.Slot? && m.procs[c].parent.slot < |m.procs| { ExitEffect(m, e.s, m.procs[c].parent.slot); }
    assert ParentOk(m, c) && LifeOk(m, m.init) && LifeOk(m, c);
    forall s: nat | s < |m.procs| ensures m'.procs[s] == Next(m, e, s) {}
    hide Step, Next, WaitOk, ForkOk;
  }

  lemma {:induction false} ForkExit(m: Machine, e: Event, f: nat)
    requires Tree(m) && Enabled(m, e) && f < |m.procs| && e.Exit?
    ensures ForkOk(Step(m, e), f)
  {
    var m' := Step(m, e);
    forall s: nat | s < |m.procs|
      ensures m'.procs[s].np == m.procs[s].np && m'.procs[s].pid == m.procs[s].pid
    {
      ExitEffect(m, e.s, s);
    }
    ExitEffect(m, e.s, f);
    assert ForkOk(m, f);
    if m.procs[f].np.Slot? {
      ExitEffect(m, e.s, m.procs[f].np.slot);
      assert ParentOk(m, m.procs[f].np.slot);
    }
    forall s: nat | s < |m.procs| ensures m'.procs[s] == Next(m, e, s) {}
    hide Step, Next, WaitOk, LifeOk;
  }

  /** Except by exit, no zombie appears or changes parents, and only wait goes to sleep on its own slot. */
  lemma {:induction false} WaitElsewhere(m: Machine, e: Event, s: nat)
    requires Tree(m) && s < |m.procs| && Enabled(m, e) && !e.Exit?
    ensures var p, p' := m.procs[s], Next(m, e, s);
            (p'.state == ZOMBIE ==> p.state == ZOMBIE && p'.parent == p.parent) &&
            (p'.state == SLEEPING && p'.chan == OnProc(s) ==>
              (p.state == SLEEPING && p.chan == OnProc(s)) || e == Wait(s))
  {
    if e.Adopt? { assert ForkOk(m, e.f); }
    hide ZombieChild, FirstWithPid, LifeOk, ParentOk, WaitOk;
  }

  lemma {:induction false} WaitQuiet(m: Machine, e: Event, s: nat)
    requires Tree(m) && Enabled(m, e) && s < |m.procs| && !e.Exit?
    ensures WaitOk(Step(m, e), s)
  {
    var m' := Step(m, e);
    assert m'.procs[s] == Next(m, e, s);
    WaitElsewhere(m, e, s);
    if m'.procs[s].state == SLEEPING && m'.procs[s].chan == OnProc(s) {
      assert WaitOk(m, s);
      assert !ZombieChild(m, s);
      forall c: nat | ChildOf(m', c, s) ensures !Is(m', c, ZOMBIE) {
        assert m'.procs[c] == Next(m, e, c);
        WaitElsewhere(m, e, c);
        assert Is(m', c, ZOMBIE) ==> ChildOf(m, c, s) && Is(m, c, ZOMBIE);
      }
    }
  }

  /** exit wakes its parent, and init if init inherits a zombie. */
  lemma {:induction false} WaitExit(m: Machine, e: Event, s: nat)
    requires Tree(m) && Enabled(m, e) && s < |m.procs| && e.Exit?
    ensures WaitOk(Step(m, e), s)
  {
    var m', t := Step(m, e), e.s;
    assert m'.procs[s] == Next(m, e, s) == AfterExit(m, t, s);
    if m'.procs[s].state == SLEEPING && m'.procs[s].chan == OnProc(s) {
      assert m.procs[s].state == SLEEPING && m.procs[s].chan == OnProc(s);
      assert WaitOk(m, s) && ParentOk(m, t);
      assert m.procs[t].parent != Slot(s);
      assert s == m.init ==> !ZombieChild(m, t);
      forall c: nat | ChildOf(m', c, s) ensures !Is(m', c, ZOMBIE) {
        assert m'.procs[c] == Next(m, e, c);
        ExitEffect(m, t, c);
        assert c != t;
        assert Is(m, c, ZOMBIE) ==> !ChildOf(m, c, s) && (s == m.init ==> !ChildOf(m, c, t));
      }
    }
  }

  /** Every step keeps the tree. */
  lemma {:induction false} StepTree(m: Machine, e: Event)
    requires Tree(m) && Enabled(m, e)
    ensures Tree(Step(m, e))
  {
    hide Step, Next, Enabled, ForkOk, ParentOk, LifeOk, WaitOk;
    forall s: nat | s < |m.procs|
      ensures ForkOk(Step(m, e), s) && ParentOk(Step(m, e), s) && LifeOk(Step(m, e), s) && WaitOk(Step(m, e), s)
    {
      LifeStep(m, e, s);
      if e.Exit? { WaitExit(m, e, s); ParentExit(m, e, s); ForkExit(m, e, s); } else { WaitQuiet(m, e, s); }
      if e.Alloc? { ParentAlloc(m, e, s); }
      else if e.Adopt? { ParentAdopt(m, e, s); }
      else if e.Abandon? { ParentAbandon(m, e, s); }
      else if e.Launch? { ParentLaunch(m, e, s); }
      else if e.Reap? { ParentReap(m, e, s); }
      else if !e.Exit? { ParentQuiet(m, e, s); }
    }
  }

  lemma {:induction false} RunTree(m: Machine, run: seq<Event>)
    requires Boot(m) && Possible(m, run)
    ensures Tree(After(m, run)) && After(m, run).init == m.init
    decreases |run|
  {
    if run == [] {
      BootTree(m);
    } else {
      var before, e := run[..|run| - 1], run[|run| - 1];
      RunTree(m, before);
      StepTree(After(m, before), e);
    }
  }

  /** Following parent pointers from the process ends at init. */
  ghost predicate ReachesInit(m: Machine, s: nat)
    requires s < |m.procs|
    decreases m.procs[s].pid
  {
    s == m.init ||
    (m.procs[s].parent.Slot? &&
     var f := m.procs[s].parent.slot; f < |m.procs| && m.procs[f].pid < m.procs[s].pid && ReachesInit(m, f))
  }

  lemma {:induction false} DescendsFromInit(m: Machine, s: nat)
    requires Tree(m) && s < |m.procs| && m.procs[s].state !in {UNUSED, EMBRYO}
    ensures ReachesInit(m, s)
    decreases m.procs[s].pid
  {
    assert LifeOk(m, s) && ParentOk(m, s);
    if s != m.init { DescendsFromInit(m, m.procs[s].parent.slot); }
  }

  /** In every run, whenever the table's lock is free: nobody sleeps in wait beside a zombie child, a
      parent is alive and older than its child, and every process descends from init. */
  lemma {:induction false} NoMissedExit(m: Machine, run: seq<Event>)
    requires Boot(m) && Possible(m, run)
    ensures var n := After(m, run);
            (forall s: nat, c: nat :: Is(n, s, SLEEPING) && n.procs[s].chan == OnProc(s) && ChildOf(n, c, s) ==>
              !Is(n, c, ZOMBIE)) &&
            (forall s: nat, c: nat :: ChildOf(n, c, s) ==>
              s < |n.procs| && n.procs[s].state !in {ZOMBIE, UNUSED} && n.procs[s].pid < n.procs[c].pid) &&
            (forall s: nat :: s < |n.procs| && n.procs[s].state !in {UNUSED, EMBRYO} ==> ReachesInit(n, s))
  {
    RunTree(m, run);
    var n := After(m, run);
    forall s: nat, c: nat | Is(n, s, SLEEPING) && n.procs[s].chan == OnProc(s) && ChildOf(n, c, s)
      ensures !Is(n, c, ZOMBIE)
    {
      assert WaitOk(n, s);
    }
    forall s: nat, c: nat | ChildOf(n, c, s)
      ensures s < |n.procs| && n.procs[s].state !in {ZOMBIE, UNUSED} && n.procs[s].pid < n.procs[c].pid
    {
      assert ParentOk(n, c);
    }
    forall s: nat | s < |n.procs| && n.procs[s].state !in {UNUSED, EMBRYO}
      ensures ReachesInit(n, s)
    {
      DescendsFromInit(n, s);
    }
  }
}
