/** The times that waitx reports, against the history of the run. */
module TickAccounting {
  import opened SchedMachine
  import opened ProcTree

  const WAITING: set<State> := {EMBRYO, RUNNABLE}

  /** The ticks that found the process in slot s in one of the states, since its slot was allocated. */
  ghost function Spent(m: Machine, run: seq<Event>, s: nat, states: set<State>): nat
    requires s < |m.procs|
  {
    if run == [] then 0
    else
      var before, e := run[..|run| - 1], run[|run| - 1];
      if e.Alloc? && e.s == s then 0
      else Spent(m, before, s, states) + if e == Tick && After(m, before).procs[s].state in states then 1 else 0
  }

  function Sum(xs: seq<nat>): nat { if xs == [] then 0 else xs[0] + Sum(xs[1..]) }

  lemma {:induction false} SumBump(xs: seq<nat>, i: nat)
    requires i < |xs|
    ensures Sum(xs[i := xs[i] + 1]) == Sum(xs) + 1
  {
    if i > 0 {
      SumBump(xs[1..], i - 1);
      assert xs[i := xs[i] + 1][1..] == xs[1..][i - 1 := xs[i] + 1];
    }
  }

  lemma {:induction false} SumZeros()
    ensures Sum([0, 0, 0, 0, 0]) == 0
  {
    assert [0, 0, 0, 0, 0][1..] == [0, 0, 0, 0];
    assert [0, 0, 0, 0][1..] == [0, 0, 0];
    assert [0, 0, 0][1..] == [0, 0];
    assert [0, 0][1..] == [0];
  }

  /** ran, slept and waited account for the whole life of the process, up to now or to its exit. */
  ghost predicate Accounts(m: Machine, s: nat, ran: nat, slept: nat, waited: nat)
    requires s < |m.procs|
  {
    var p := m.procs[s];
    p.queue < NQUEUE && p.last <= m.ticks &&
    (p.state != UNUSED ==>
      p.rtime == ran && p.iotime == slept && |p.qticks| == NQUEUE && p.rtime == Sum(p.qticks) &&
      (if p.state == ZOMBIE then p.etime else m.ticks) == p.ctime + ran + slept + waited)
  }

  lemma {:induction false} TickAccounts(m: Machine, s: nat, ran: nat, slept: nat, waited: nat)
    requires s < |m.procs| && Accounts(m, s, ran, slept, waited)
    ensures var st := m.procs[s].state;
            Accounts(Step(m, Tick), s, ran + (if st == RUNNING then 1 else 0), slept + (if st == SLEEPING then 1
              else 0),
                     waited + (if st in WAITING then 1 else 0))
  {
    var p := m.procs[s];
    var p' := TickProc(p);
    hide Sum, Step, ZombieChild;
    if p.state == RUNNING { SumBump(p.qticks, p.queue); }
    assert Step(m, Tick).procs[s] == WakeProc(p', OnTicks);
  }

  /** The steps that end or start a life. */
  predicate Turns(e: Event, s: nat)
  {
    (e.Alloc? && e.s == s) || (e.Exit? && e.s == s) || (e.Reap? && e.child == s) || (e.Abandon? && e.s == s)
  }

  /** Any other step leaves the times alone, and does not bring the process out of or into ZOMBIE or UNUSED. */
  lemma {:induction false} QuietStep(m: Machine, e: Event, s: nat)
    requires Tree(m) && s < |m.procs| && Enabled(m, e) && e != Tick && !Turns(e, s)
    ensures var p, p' := m.procs[s], Next(m, e, s);
            p'.rtime == p.rtime && p'.iotime == p.iotime && p'.ctime == p.ctime && p'.etime == p.etime &&
            p'.qticks == p.qticks &&
            (p'.state == UNUSED <==> p.state == UNUSED) && (p'.state == ZOMBIE <==> p.state == ZOMBIE) &&
            (p'.last == p.last || p'.last == m.ticks) && (p.queue < NQUEUE ==> p'.queue < NQUEUE)
  {
    hide ZombieChild, FirstWithPid, LifeOk, ParentOk, WaitOk;
    if e.Launch? || e.Adopt? { assert ForkOk(m, e.f); }
    if e.Exit? { assert Next(m, e, s) == AfterExit(m, e.s, s); }
  }

  lemma {:induction false} TurnsAccount(m: Machine, e: Event, s: nat, ran: nat, slept: nat, waited: nat)
    requires Tree(m) && s < |m.procs| && Enabled(m, e) && e != Tick && Accounts(m, s, ran, slept, waited)
    requires Turns(e, s)
    ensures if e.Alloc? && e.s == s then Accounts(Step(m, e), s, 0, 0, 0)
            else Accounts(Step(m, e), s, ran, slept, waited)
  {
    hide Sum, ZombieChild, FirstWithPid, Tree;
    assert Step(m, e).procs[s] == Next(m, e, s);
    SumZeros();
    hide Step;
  }

  lemma {:induction false} StepAccounts(m: Machine, e: Event, s: nat, ran: nat, slept: nat, waited: nat)
    requires Tree(m) && s < |m.procs| && Enabled(m, e) && e != Tick && Accounts(m, s, ran, slept, waited)
    ensures if e.Alloc? && e.s == s then Accounts(Step(m, e), s, 0, 0, 0)
            else Accounts(Step(m, e), s, ran, slept, waited)
  {
    assert Step(m, e).procs[s] == Next(m, e, s);
    if Turns(e, s) {
      TurnsAccount(m, e, s, ran, slept, waited);
    } else {
      QuietStep(m, e, s);
      hide Sum, Next, Step, Enabled, Turns, Tree;
    }
  }

  /** For every process in every run: its life is its running, sleeping and waiting ticks. */
  lemma {:induction false} EveryTickAccounted(m: Machine, run: seq<Event>, s: nat)
    requires Boot(m) && Possible(m, run) && s < |m.procs|
    ensures var ran, slept := Spent(m, run, s, {RUNNING}), Spent(m, run, s, {SLEEPING});
            Accounts(After(m, run), s, ran, slept, Spent(m, run, s, WAITING))
    decreases |run|
  {
    if run == [] {
      SumZeros();
    } else {
      var before, e := run[..|run| - 1], run[|run| - 1];
      EveryTickAccounted(m, before, s);
      var m1 := After(m, before);
      RunTree(m, before);
      hide Accounts, Enabled, Boot, Tree;
      if e == Tick {
        TickAccounts(m1, s, Spent(m, before, s, {RUNNING}), Spent(m, before, s, {SLEEPING}),
                     Spent(m, before, s, WAITING));
      } else {
        StepAccounts(m1, e, s, Spent(m, before, s, {RUNNING}), Spent(m, before, s, {SLEEPING}),
                     Spent(m, before, s, WAITING));
      }
    }
  }

  /** So the waiting time that waitx computes is exact, and the subtraction does not go below zero. */
  lemma {:induction false} WaitxExact(m: Machine, run: seq<Event>, c: nat)
    requires Boot(m) && Possible(m, run) && Is(After(m, run), c, ZOMBIE)
    ensures var p := After(m, run).procs[c];
            WaitTime(p) == Spent(m, run, c, WAITING) && p.rtime == Spent(m, run, c, {RUNNING}) == Sum(p.qticks)
  {
    EveryTickAccounted(m, run, c);
  }
}
