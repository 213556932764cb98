/** proc.c of the scheduling kernel: the loops over the process table, each one step of the machine. */
module SchedKernel {
  import opened SchedMachine

  datatype WaitResult = Reaped(pid: nat, wtime: int, rtime: nat) | NoChild | Asleep

  class Table {
    const procs: array<Proc>
    const init: nat
    var ticks: nat
    var nextpid: nat

    ghost predicate Valid()
      reads this
    {
      init < procs.Length
    }

    ghost function View(): Machine
      reads this, procs
    {
      Machine(procs[..], ticks, nextpid, init)
    }

    constructor (n: nat, p: Proc)
      requires n > 0
      ensures Valid() && fresh(procs) && procs.Length == n && init == 0 && ticks == 0 && nextpid == 1
      ensures forall i :: 0 <= i < n ==> procs[i] == p
    {
      procs := new Proc[n](_ => p);
      init, ticks, nextpid := 0, 0, 1;
    }

    /** updateRunsandOthers */
    method UpdateRuns()
      modifies procs
      ensures forall i :: 0 <= i < procs.Length ==> procs[i] == TickProc(old(procs[i]))
      ensures forall i :: 0 <= i < procs.Length ==> Charged(old(procs[i]), procs[i])
    {
      hide Charged;
      var i := 0;
      while i < procs.Length
        invariant i <= procs.Length
        invariant forall k :: 0 <= k < i ==> procs[k] == TickProc(old(procs[k]))
        invariant forall k :: i <= k < procs.Length ==> procs[k] == old(procs[k])
      {
        var p := procs[i];
        if p.state == RUNNING {
          var qticks := if p.queue < |p.qticks| then p.qticks[p.queue := p.qticks[p.queue] + 1] else p.qticks;
          procs[i] := p.(rtime := p.rtime + 1, qticks := qticks, currq := p.currq + 1, ticked := true);
        }
        if p.state == SLEEPING {
          procs[i] := p.(iotime := p.iotime + 1, last := p.last + 1);
        }
        i := i + 1;
      }
      forall k | 0 <= k < procs.Length ensures Charged(old(procs[k]), procs[k]) { TickCharges(old(procs[k])); }
    }

    /** wakeup1 */
    method Wakeup1(chan: Chan)
      modifies procs
      ensures forall i :: 0 <= i < procs.Length ==> procs[i] == WakeProc(old(procs[i]), chan)
    {
      var i := 0;
      while i < procs.Length
        invariant i <= procs.Length
        invariant forall k :: 0 <= k < i ==> procs[k] == WakeProc(old(procs[k]), chan)
        invariant forall k :: i <= k < procs.Length ==> procs[k] == old(procs[k])
      {
        if procs[i].state == SLEEPING && procs[i].chan == chan {
          procs[i] := procs[i].(state := RUNNABLE);
        }
        i := i + 1;
      }
    }

    /** The timer case of trap: ticks, updateRunsandOthers, wakeup(&ticks). */
    method TimerTick()
      requires Valid()
      modifies this, procs
      ensures Valid() && View() == Step(old(View()), Tick) && ticks == old(ticks) + 1 && nextpid == old(nextpid)
      ensures forall i :: 0 <= i < procs.Length ==>
        var p, p' := old(procs[i]), procs[i];
        var woken := p.state == SLEEPING && p.chan == OnTicks;
        p'.state == (if woken then RUNNABLE else p.state) && p'.chan == p.chan && p'.pid == p.pid &&
        p'.iotime == p.iotime + (if p.state == SLEEPING then 1 else 0) &&
        p'.rtime == p.rtime + (if p.state == RUNNING then 1 else 0) &&
        Charged(p, p'.(state := p.state))
    {
      ghost var m := View();
      ticks := ticks + 1;
      UpdateRuns();
      Wakeup1(OnTicks);
      assert procs[..] == Step(m, Tick).procs;
    }

    method Wakeup(chan: Chan)
      requires Valid()
      modifies procs
      ensures View() == Step(old(View()), SchedMachine.Wakeup(chan))
      ensures forall i :: 0 <= i < procs.Length ==>
        var p := old(procs[i]);
        procs[i] == if p.state == SLEEPING && p.chan == chan then p.(state := RUNNABLE) else p
    {
      ghost var m := View();
      Wakeup1(chan);
      assert procs[..] == Step(m, SchedMachine.Wakeup(chan)).procs;
    }

    /** allocproc, called by fork in slot f: the lowest unused slot, if there is one. */
    method Allocproc(f: nat) returns (ok: bool, s: nat)
      requires Valid() && f < procs.Length && procs[f].state == RUNNING && procs[f].np == NoParent
      modifies this, procs
      ensures Valid() && (ok <==> exists i: nat :: Is(old(View()), i, UNUSED))
      ensures ok ==> Enabled(old(View()), Alloc(f, s)) && View() == Step(old(View()), Alloc(f, s))
      ensures ok ==> s < procs.Length && old(procs[s].state) == UNUSED && procs[f] == old(procs[f]).(np := Slot(s))
      ensures ok ==> procs[s] == old(procs[s]).(state := EMBRYO, pid := old(nextpid), ctime := ticks, last := ticks,
        rtime := 0, etime := 0, iotime := 0, priority := 60, queue := 0, currq := 0, qticks := [0, 0, 0, 0, 0])
      ensures ok ==> forall i :: 0 <= i < procs.Length && i != s && i != f ==> procs[i] == old(procs[i])
      ensures ok ==> nextpid == old(nextpid) + 1 && ticks == old(ticks)
      ensures !ok ==> View() == old(View())
    {
      ghost var m := View();
      s := 0;
      while s < procs.Length && procs[s].state != UNUSED
        invariant s <= procs.Length
        invariant forall i: nat :: i < s ==> !Is(m, i, UNUSED)
      {
        s := s + 1;
      }
      if s == procs.Length { return false, s; }
      assert Is(m, s, UNUSED);
      procs[s] := NewProc(procs[s], nextpid, ticks);
      nextpid := nextpid + 1;
      procs[f] := procs[f].(np := Slot(s));
      assert procs[..] == Step(m, Alloc(f, s)).procs;
      ok := true;
    }

    /** fork in slot f gives up the child in slot s for want of memory. */
    method GiveUp(f: nat, s: nat)
      requires Valid() && Enabled(View(), Abandon(f, s)) && procs[s].state == EMBRYO
      modifies procs
      ensures View() == Step(old(View()), Abandon(f, s)) && s < procs.Length && f < procs.Length
      ensures s != f && procs[s] == old(procs[s]).(state := UNUSED) && procs[f] == old(procs[f]).(np := NoParent)
      ensures forall i :: 0 <= i < procs.Length && i != s && i != f ==> procs[i] == old(procs[i])
    {
      ghost var m := View();
      procs[s] := procs[s].(state := UNUSED);
      procs[f] := procs[f].(np := NoParent);
      assert procs[..] == Step(m, Abandon(f, s)).procs;
    }

    /** np->parent = curproc */
    method SetParent(f: nat, s: nat)
      requires Valid() && Enabled(View(), Adopt(f, s))
      modifies procs
      ensures View() == Step(old(View()), Adopt(f, s)) && s < procs.Length
      ensures procs[..] == old(procs[..])[s := old(procs[s]).(parent := Slot(f))]
    {
      ghost var m := View();
      procs[s] := procs[s].(parent := Slot(f));
      assert procs[..] == Step(m, Adopt(f, s)).procs;
    }

    /** The end of fork: the child may run. */
    method MakeRunnable(f: nat, s: nat) returns (pid: nat)
      requires Valid() && Enabled(View(), Launch(f, s)) && procs[s].state == EMBRYO
      modifies procs
      ensures View() == Step(old(View()), Launch(f, s)) && s < procs.Length && f < procs.Length
      ensures s != f && procs[s] == old(procs[s]).(state := RUNNABLE) && procs[f] == old(procs[f]).(np := NoParent)
      ensures pid == procs[s].pid && forall i :: 0 <= i < procs.Length && i != s && i != f ==> procs[i] == old(procs[i])
    {
      ghost var m := View();
      procs[s] := procs[s].(state := RUNNABLE);
      procs[f] := procs[f].(np := NoParent);
      assert procs[..] == Step(m, Launch(f, s)).procs;
      pid := procs[s].pid;
    }

    /** yield, up to sched. */
    method Yield(s: nat)
      requires Valid() && Enabled(View(), SchedMachine.Yield(s))
      modifies procs
      ensures View() == Step(old(View()), SchedMachine.Yield(s)) && s < procs.Length
      ensures procs[..] == old(procs[..])[s := old(procs[s]).(state := RUNNABLE)]
    {
      ghost var m := View();
      procs[s] := procs[s].(state := RUNNABLE);
      assert procs[..] == Step(m, SchedMachine.Yield(s)).procs;
    }

    /** sleep, up to sched. */
    method Sleep(s: nat, chan: Chan)
      requires Valid() && Enabled(View(), SchedMachine.Sleep(s, chan))
      modifies procs
      ensures View() == Step(old(View()), SchedMachine.Sleep(s, chan)) && s < procs.Length
      ensures procs[..] == old(procs[..])[s := old(procs[s]).(chan := chan, state := SLEEPING)]
    {
      ghost var m := View();
      procs[s] := procs[s].(chan := chan);
      procs[s] := procs[s].(state := SLEEPING);
      assert procs[..] == Step(m, SchedMachine.Sleep(s, chan)).procs;
    }

    /** kill: only the lowest slot with that pid. */
    method Kill(pid: nat) returns (r: int)
      requires Valid()
      modifies procs
      ensures View() == Step(old(View()), SchedMachine.Kill(pid))
      ensures r == if exists i: nat :: FirstWithPid(old(View()), i, pid) then 0 else -1
      ensures forall i :: 0 <= i < procs.Length ==>
        var p := old(procs[i]);
        if p.pid == pid && forall j :: 0 <= j < i ==> old(procs[j]).pid != pid then
          procs[i] == p.(killed := true, state := if p.state == SLEEPING then RUNNABLE else p.state)
        else procs[i] == p
    {
      ghost var m := View();
      var i := 0;
      while i < procs.Length
        invariant i <= procs.Length && procs[..] == m.procs
        invariant forall k: nat :: k < i ==> procs[k].pid != pid
      {
        if procs[i].pid == pid {
          assert FirstWithPid(m, i, pid);
          procs[i] := procs[i].(killed := true);
          if procs[i].state == SLEEPING { procs[i] := procs[i].(state := RUNNABLE); }
          assert procs[..] == Step(m, SchedMachine.Kill(pid)).procs;
          return 0;
        }
        i := i + 1;
      }
      assert procs[..] == Step(m, SchedMachine.Kill(pid)).procs;
      return -1;
    }

    /** The search of set_priority, which takes no lock: the lowest slot with the pid, or none. */
    method SearchPid(pid: nat) returns (s: nat)
      ensures s <= procs.Length
      ensures if s < procs.Length then FirstWithPid(View(), s, pid) else forall i: nat :: !FirstWithPid(View(), i, pid)
    {
      s := 0;
      while s < procs.Length && procs[s].pid != pid
        invariant s <= procs.Length && forall k: nat :: k < s ==> procs[k].pid != pid
      {
        s := s + 1;
      }
    }

    /** The rest of set_priority, with the lock held, for the slot that the search found. The process in it need
        not be the one found: nothing looks at the pid again. */
    method StorePriority(priority: int, s: nat) returns (r: int, shouldYield: bool)
      requires Valid() && s < procs.Length && 0 <= priority <= 100
      modifies procs
      ensures View() == Step(old(View()), SetPriority(s, priority)) && Enabled(old(View()), SetPriority(s, priority))
      ensures r == old(procs[s].priority) && (shouldYield <==> procs[s].priority < r)
      ensures procs[..] == old(procs[..])[s := old(procs[s]).(priority := priority)]
    {
      ghost var m := View();
      r := procs[s].priority;
      procs[s] := procs[s].(priority := priority);
      shouldYield := r > priority;
      assert procs[..] == Step(m, SetPriority(s, priority)).procs;
    }

    /** set_priority, when nothing comes between the search and the lock: the old priority of the process with that
        pid, or -1. */
    method ChangePriority(priority: int, pid: nat) returns (r: int, shouldYield: bool)
      requires Valid()
      modifies procs
      ensures !(0 <= priority <= 100) || (forall i: nat :: !FirstWithPid(old(View()), i, pid)) ==>
        r == -1 && !shouldYield && View() == old(View())
      ensures forall i: nat :: 0 <= priority <= 100 && FirstWithPid(old(View()), i, pid) ==>
        r == old(procs[i].priority) && (shouldYield <==> priority < r) &&
        View() == Step(old(View()), SetPriority(i, priority)) &&
        procs[..] == old(procs[..])[i := old(procs[i]).(priority := priority)]
    {
      if priority <= -1 || priority > 100 { return -1, false; }
      ghost var m := View();
      var s := SearchPid(pid);
      if s == procs.Length { return -1, false; }
      r, shouldYield := StorePriority(priority, s);
      assert forall i: nat :: FirstWithPid(m, i, pid) ==> i == s;
    }

    /** The loop of exit that passes the children of slot t to init. */
    method HandOver(t: nat, ghost m: Machine)
      requires t < |m.procs| == procs.Length && m.init == init
      requires forall k: nat :: k < procs.Length ==> procs[k] == WokenByExit(m, t, m.procs[k])
      modifies procs
      ensures forall k: nat :: k < procs.Length ==> procs[k] == Passed(m, t, k, procs.Length, ZombieChild(m, t))
    {
      var i := 0;
      ghost var woke := false;
      while i < procs.Length
        invariant i <= procs.Length
        invariant woke ==> ZombieChild(m, t)
        invariant !woke ==> forall c: nat :: c < i && ChildOf(m, c, t) ==> !Is(m, c, ZOMBIE)
        invariant forall k: nat :: k < procs.Length ==> procs[k] == Passed(m, t, k, i, woke)
      {
        if procs[i].parent == Slot(t) {
          procs[i] := procs[i].(parent := Slot(init));
          if procs[i].state == ZOMBIE {
            assert ChildOf(m, i, t) && Is(m, i, ZOMBIE);
            Wakeup1(OnProc(init));
            woke := true;
          }
        }
        i := i + 1;
      }
      assert woke <==> ZombieChild(m, t);
    }

    /** exit in slot t; false is the panic "init exiting". */
    method Exit(t: nat) returns (ok: bool)
      requires Valid() && t < procs.Length && procs[t].state == RUNNING && procs[t].np == NoParent
      modifies procs
      ensures ok == (t != init)
      ensures ok ==> Enabled(old(View()), SchedMachine.Exit(t)) && View() == Step(old(View()), SchedMachine.Exit(t))
      ensures ok ==> forall i :: 0 <= i < procs.Length ==> Exited(old(procs[..]), init, ticks, t, i, procs[i])
      ensures !ok ==> View() == old(View())
    {
      if t == init { return false; }
      hide Step;
      ghost var m := View();
      if procs[t].parent.Slot? { Wakeup1(OnProc(procs[t].parent.slot)); }
      HandOver(t, m);
      procs[t] := procs[t].(etime := ticks);
      procs[t] := procs[t].(state := ZOMBIE);
      assert procs[..] == Step(m, SchedMachine.Exit(t)).procs;
      forall i | 0 <= i < procs.Length ensures Exited(m.procs, init, ticks, t, i, procs[i]) {
        ExitEffect(m, t, i);
      }
      ok := true;
    }

    /** One turn of the loop in wait, or in waitx when clear is set. */
    method WaitTurn(s: nat, clear: bool) returns (r: WaitResult, c: nat)
      requires Valid() && s < procs.Length && procs[s].state == RUNNING && procs[s].np == NoParent
      modifies procs
      ensures r.Reaped? <==> ZombieChild(old(View()), s)
      ensures r.Reaped? ==> Enabled(old(View()), Reap(s, c, clear)) && View() == Step(old(View()), Reap(s, c, clear))
      ensures r.Reaped? ==> c < procs.Length
      ensures r.Reaped? ==> r == Reaped(old(procs[c].pid), WaitTime(old(procs[c])), old(procs[c].rtime))
      ensures r.Reaped? ==> old(procs[c].parent) == Slot(s) && old(procs[c].state) == ZOMBIE
      ensures r.Reaped? ==>
        forall k: nat :: k < c ==> !(old(procs[..])[k].parent == Slot(s) && old(procs[..])[k].state == ZOMBIE)
      ensures r.Reaped? ==>
        var q := old(procs[c]).(pid := 0, parent := NoParent, killed := false, state := UNUSED);
        procs[..] == old(procs[..])[c := if clear then Cleared(q) else q]
      ensures r == NoChild <==>
        !ZombieChild(old(View()), s) && ((forall c: nat :: !ChildOf(old(View()), c, s)) || old(procs[s].killed))
      ensures r == NoChild ==> View() == old(View())
      ensures r == Asleep ==> Enabled(old(View()), SchedMachine.Wait(s))
      ensures r == Asleep ==> View() == Step(old(View()), SchedMachine.Wait(s))
      ensures r == Asleep ==> procs[..] == old(procs[..])[s := old(procs[s]).(state := SLEEPING, chan := OnProc(s))]
    {
      ghost var m := View();
      hide Step;
      var havekids := false;
      c := 0;
      while c < procs.Length
        invariant c <= procs.Length && procs[..] == m.procs
        invariant havekids <==> exists k: nat :: k < c && ChildOf(m, k, s)
        invariant forall k: nat :: k < c && ChildOf(m, k, s) ==> !Is(m, k, ZOMBIE)
      {
        if procs[c].parent == Slot(s) {
          assert ChildOf(m, c, s);
          havekids := true;
          if procs[c].state == ZOMBIE {
            var p := procs[c];
            assert Is(m, c, ZOMBIE);
            forall k: nat | k < c ensures !(m.procs[k].parent == Slot(s) && m.procs[k].state == ZOMBIE) {
              assert ChildOf(m, k, s) ==> !Is(m, k, ZOMBIE);
            }
            procs[c] := ReapProc(p, clear);
            assert procs[..] == Step(m, Reap(s, c, clear)).procs;
            return Reaped(p.pid, WaitTime(p), p.rtime), c;
          }
        }
        c := c + 1;
      }
      if !havekids || procs[s].killed { return NoChild, c; }
      procs[s] := procs[s].(chan := OnProc(s), state := SLEEPING);
      assert procs[..] == Step(m, SchedMachine.Wait(s)).procs;
      return Asleep, c;
    }
  }

  /** The process in slot i when the one in slot t has exited: t is a zombie, its children are init's, and its parent
      is woken if it sleeps in wait, and so is init if a child is a zombie. */
  ghost predicate Exited(ps: seq<Proc>, init: nat, ticks: nat, t: nat, i: nat, p': Proc)
    requires t < |ps| && i < |ps|
  {
    var p := ps[i];
    var woken := p.state == SLEEPING && p.chan.OnProc? &&
                 (ps[t].parent == Slot(p.chan.slot) || (HasZombie(ps, t) && p.chan.slot == init));
    p'.parent == (if p.parent == Slot(t) then Slot(init) else p.parent) &&
    p'.state == (if i == t then ZOMBIE else if woken then RUNNABLE else p.state) &&
    p'.etime == (if i == t then ticks else p.etime) &&
    p' == p.(parent := p'.parent, state := p'.state, etime := p'.etime)
  }

  ghost predicate HasZombie(ps: seq<Proc>, t: nat)
  {
    exists c: nat :: c < |ps| && ps[c].parent == Slot(t) && ps[c].state == ZOMBIE
  }

  lemma {:induction false} ExitEffect(m: Machine, t: nat, i: nat)
    requires t < |m.procs| && i < |m.procs|
    ensures Exited(m.procs, m.init, m.ticks, t, i, Next(m, SchedMachine.Exit(t), i))
  {
    hide HasZombie, ZombieChild;
    ZombieAlike(m, t);
  }

  lemma {:induction false} ZombieAlike(m: Machine, t: nat)
    ensures ZombieChild(m, t) <==> HasZombie(m.procs, t)
  {
    if ZombieChild(m, t) {
      var c: nat :| ChildOf(m, c, t) && Is(m, c, ZOMBIE);
    }
    if c: nat :| c < |m.procs| && m.procs[c].parent == Slot(t) && m.procs[c].state == ZOMBIE {
      assert ChildOf(m, c, t) && Is(m, c, ZOMBIE);
    }
  }

  /** The machine at the switch to the process in slot s, from machine m: that process has the CPU. */
  ghost predicate SwitchedIn(m: Machine, at: Machine, s: nat)
  {
    s < |m.procs| && at.procs == m.procs[s := m.procs[s].(state := RUNNING, last := m.ticks, ticked := false)] &&
    at.ticks == m.ticks && at.nextpid == m.nextpid && at.init == m.init && at == Step(m, Dispatch(s))
  }

  /** What one tick charges: a running process in its queue, a sleeping one as I/O. */
  predicate Charged(p: Proc, p': Proc)
  {
    match p.state
    case RUNNING =>
      p'.rtime == p.rtime + 1 && p'.currq == p.currq + 1 && p'.ticked && |p'.qticks| == |p.qticks| &&
      (forall q :: 0 <= q < |p.qticks| ==> p'.qticks[q] == p.qticks[q] + (if q == p.queue then 1 else 0)) &&
      p' == p.(rtime := p'.rtime, currq := p'.currq, qticks := p'.qticks, ticked := true)
    case SLEEPING => p' == p.(iotime := p.iotime + 1, last := p.last + 1)
    case _ => p' == p
  }

  lemma {:induction false} TickCharges(p: Proc)
    ensures Charged(p, TickProc(p))
  {
  }

  /** What waitx clears in the process that it reaps. */
  function Cleared(p: Proc): Proc
  {
    p.(ctime := 0, rtime := 0, etime := 0, iotime := 0, last := 0, priority := 0, currq := 0,
       qticks := [0, 0, 0, 0, 0])
  }

  /** Slot k in the middle of exit's loop, which has passed the slots below i. */
  ghost function Passed(m: Machine, t: nat, k: nat, i: nat, woke: bool): Proc
    requires t < |m.procs| && k < |m.procs|
  {
    var p := WokenByExit(m, t, m.procs[k]);
    var q := if k < i then HandedOver(m, t, p) else p;
    if woke then WakeProc(q, OnProc(m.init)) else q
  }
}
