/** One turn of a process on the CPU. */
module SchedTurns {
  import opened SchedMachine
  import opened ProcTree

  /** From the switch to process s to the step in which it gives the CPU up, with whatever it and the interrupt
      handlers do in between. */
  ghost predicate Turn(m: Machine, s: nat, run: seq<Event>)
  {
    |run| >= 2 && s < |m.procs| && run[0] == Dispatch(s) && Possible(m, run) &&
    (forall k: nat :: 1 <= k < |run| ==> Is(After(m, run[..k]), s, RUNNING)) && !Is(After(m, run), s, RUNNING)
  }

  /** While the process has the CPU it keeps its queue and its creation time, and a tick is charged only if
      none has come since it was switched to: the trap that takes the tick ends with the process giving the
      CPU up. */
  lemma {:induction false} RunningStep(m: Machine, e: Event, s: nat)
    requires Tree(m) && Is(m, s, RUNNING) && Enabled(m, e)
    ensures var p, p' := m.procs[s], Next(m, e, s);
            p'.queue == p.queue && p'.ctime == p.ctime && p'.state !in {UNUSED, EMBRYO} &&
            (if e == Tick then !p.ticked && p'.ticked && p'.currq == p.currq + 1 && p'.state == RUNNING
             else p'.ticked == p.ticked && p'.currq == p.currq)
  {
    hide ZombieChild, FirstWithPid, LifeOk, ParentOk, WaitOk;
    if e.Abandon? || e.Adopt? || e.Launch? { assert ForkOk(m, e.f); }
  }

  lemma {:induction false} PossiblePrefix(m: Machine, run: seq<Event>, k: nat)
    requires Possible(m, run) && k <= |run|
    ensures Possible(m, run[..k])
    ensures k > 0 ==> run[..k][..k - 1] == run[..k - 1]
    ensures k > 0 ==> After(m, run[..k]) == Step(After(m, run[..k - 1]), run[k - 1])
    ensures k > 0 ==> Enabled(After(m, run[..k - 1]), run[k - 1])
    decreases |run|
  {
    if k < |run| {
      assert run[..|run| - 1][..k] == run[..k];
      PossiblePrefix(m, run[..|run| - 1], k);
    } else {
      assert run[..k] == run;
    }
  }

  /** The process k steps into its turn. */
  lemma {:induction false} TurnSoFar(m: Machine, s: nat, run: seq<Event>, k: nat)
    requires Tree(m) && Turn(m, s, run) && 1 <= k <= |run|
    ensures var p, p' := m.procs[s], After(m, run[..k]).procs[s];
            Tree(After(m, run[..k])) && p'.queue == p.queue && p'.ctime == p.ctime && p'.state !in {UNUSED, EMBRYO} &&
            p'.currq == p.currq + (if p'.ticked then 1 else 0)
  {
    PossiblePrefix(m, run, k);
    var n, e := After(m, run[..k - 1]), run[k - 1];
    if k == 1 {
      assert run[..0] == [];
      StepTree(m, e);
      assert Step(m, e).procs[s] == Next(m, e, s);
    } else {
      TurnSoFar(m, s, run, k - 1);
      StepTree(n, e);
      RunningStep(n, e, s);
      assert Step(n, e).procs[s] == Next(n, e, s);
    }
    hide Tree, Step, Enabled, Next;
  }

  /** A whole turn: one tick charged at most, the queue and the creation time as they were, and the process
      runnable again, asleep or gone. */
  lemma {:induction false} TurnCharges(m: Machine, s: nat, run: seq<Event>)
    requires Tree(m) && Turn(m, s, run)
    ensures var p, p' := m.procs[s], After(m, run).procs[s];
            Tree(After(m, run)) && p'.queue == p.queue && p'.ctime == p.ctime && p.currq <= p'.currq <= p.currq + 1 &&
            p'.state in {RUNNABLE, SLEEPING, ZOMBIE}
  {
    assert run[..|run|] == run;
    TurnSoFar(m, s, run, |run|);
  }

  // ----- one CPU -----

  ghost predicate OneRunning(m: Machine) { forall s: nat, t: nat :: Is(m, s, RUNNING) && Is(m, t, RUNNING) ==> s == t }

  lemma {:induction false} StepOneRunning(m: Machine, e: Event)
    requires Tree(m) && OneRunning(m) && Enabled(m, e)
    ensures OneRunning(Step(m, e))
  {
    var m' := Step(m, e);
    forall s: nat | Is(m', s, RUNNING) ensures Is(m, s, RUNNING) || e == Dispatch(s) {
      assert m'.procs[s] == Next(m, e, s);
      hide ZombieChild, FirstWithPid, Step, LifeOk, ParentOk, WaitOk;
    }
  }

  /** When the process has given up the CPU nobody has it, so the scheduler goes on. */
  lemma {:induction false} TurnLeavesIdle(m: Machine, s: nat, run: seq<Event>, k: nat)
    requires Tree(m) && CpuIdle(m) && Turn(m, s, run) && k <= |run|
    ensures OneRunning(After(m, run[..k])) && (k == |run| ==> CpuIdle(After(m, run)))
  {
    PossiblePrefix(m, run, k);
    if k == 0 {
      assert run[..0] == [];
    } else {
      TurnLeavesIdle(m, s, run, k - 1);
      if k - 1 >= 1 { TurnSoFar(m, s, run, k - 1); } else { assert run[..0] == []; }
      var n, e := After(m, run[..k - 1]), run[k - 1];
      StepOneRunning(n, e);
      if k == |run| {
        assert run[..k] == run;
        LeavesIdle(n, e, s);
      }
    }
  }

  lemma {:induction false} LeavesIdle(m: Machine, e: Event, s: nat)
    requires Tree(m) && OneRunning(m) && Is(m, s, RUNNING) && Enabled(m, e) && !Is(Step(m, e), s, RUNNING)
    ensures CpuIdle(Step(m, e))
  {
    var m' := Step(m, e);
    forall t: nat ensures !Is(m', t, RUNNING) {
      if t < |m.procs| && t != s {
        assert !Is(m, t, RUNNING);
        assert m'.procs[t] == Next(m, e, t);
        hide ZombieChild, FirstWithPid, Step, LifeOk, ParentOk, WaitOk;
      }
    }
  }
}
