/** Aging in the multi-level feedback queue: a process that waits is promoted in time. */
module MlfqAging {
  import opened SchedMachine
  import opened ProcTree
  import opened TickAccounting

  /** In every run, lastWorkingticks does not exceed ticks, so the unsigned subtraction does not wrap, and
      the queue number stays in range. */
  lemma {:induction false} SubtractionNeverWraps(m: Machine, run: seq<Event>, s: nat)
    requires Boot(m) && Possible(m, run) && s < |m.procs|
    ensures After(m, run).procs[s].last <= After(m, run).ticks && After(m, run).procs[s].queue < NQUEUE
  {
    EveryTickAccounted(m, run, s);
  }

  /** From m on, the process in slot s is RUNNABLE all the time and the scheduler never picks it. */
  ghost predicate Unpicked(m: Machine, run: seq<Event>, s: nat)
  {
    Is(After(m, run), s, RUNNABLE) &&
    (run != [] ==>
      var e := run[|run| - 1];
      Unpicked(m, run[..|run| - 1], s) && e != Dispatch(s) && e != Park(s) && e != Demote(s))
  }

  function SinceScan(run: seq<Event>): nat
  {
    if run == [] then 0
    else
      var e, before := run[|run| - 1], run[..|run| - 1];
      if e == Age then 0 else SinceScan(before) + if e == Tick then 1 else 0
  }

  /** At most L ticks pass between aging scans. */
  ghost predicate ScansWithin(run: seq<Event>, L: nat)
  {
    SinceScan(run) <= L && (run != [] ==> ScansWithin(run[..|run| - 1], L))
  }

  /** The longest wait to come from queue q. */
  function Ahead(q: nat, L: nat): nat { if q == 0 then 0 else MaxWait(q) + L + Ahead(q - 1, L) }

  lemma {:induction false} AheadOfFour(q: nat, L: nat)
    requires q < NQUEUE
    ensures Ahead(q, L) <= 50 + 4 * L && (q == 4 ==> Ahead(q, L) == 50 + 4 * L)
  {
    assert Ahead(0, L) == 0;
    assert Ahead(1, L) == 5 + L;
    assert Ahead(2, L) == 15 + 2 * L;
    assert Ahead(3, L) == 30 + 3 * L;
    assert Ahead(4, L) == 50 + 4 * L;
  }

  /** When the process joined its present queue, or began to wait. */
  function Since(m: Machine, n: Machine, s: nat): nat
    requires s < |n.procs|
  {
    if n.procs[s].last < m.ticks then m.ticks else n.procs[s].last
  }

  /** How a waiting process can change: only by aging. */
  lemma {:induction false} WaitingStep(m: Machine, e: Event, s: nat)
    requires Is(m, s, RUNNABLE) && Is(Step(m, e), s, RUNNABLE) && Enabled(m, e) && Tree(m)
    requires e != Dispatch(s) && e != Park(s) && e != Demote(s)
    ensures var p, p' := m.procs[s], Step(m, e).procs[s];
            if e == Age then p' == AgeProc(p, m.ticks) else p'.last == p.last && p'.queue == p.queue
  {
    assert Step(m, e).procs[s] == Next(m, e, s);
    hide Step, ZombieChild, FirstWithPid, LifeOk, ParentOk, WaitOk;
    if e.Adopt? || e.Launch? || e.Abandon? { assert ForkOk(m, e.f); }
  }

  /** In queue q the process waits at most 5q ticks, which is q_max_time[q], and those since the last scan; and the
      earlier it joined this queue, the longer it may still have to wait. */
  lemma {:induction false} WaitBounded(m: Machine, run: seq<Event>, s: nat, L: nat)
    requires Tree(m) && Possible(m, run) && s < |m.procs| && m.procs[s].last <= m.ticks && m.procs[s].queue < NQUEUE
    requires Unpicked(m, run, s) && ScansWithin(run, L)
    ensures var n := After(m, run); var q := n.procs[s].queue;
            q <= m.procs[s].queue && n.procs[s].last <= n.ticks && m.ticks <= n.ticks && Tree(n) &&
            (q > 0 ==> n.ticks - Since(m, n, s) <= 5 * q + SinceScan(run)) &&
            Since(m, n, s) + Ahead(q, L) <= m.ticks + Ahead(m.procs[s].queue, L)
    decreases |run|
  {
    hide Tree, Enabled, Step, Next;
    if run != [] {
      var before, e := run[..|run| - 1], run[|run| - 1];
      WaitBounded(m, before, s, L);
      var n := After(m, before);
      StepTree(n, e);
      WaitingStep(n, e, s);
    }
  }

  /** The process leaves each queue in time: the scan that promotes it comes at most 5q + L
      ticks after it joined. */
  lemma {:induction false} PromotedInTime(m: Machine, run: seq<Event>, s: nat, L: nat)
    requires Tree(m) && Possible(m, run + [Age]) && s < |m.procs| && m.procs[s].last <= m.ticks
    requires m.procs[s].queue < NQUEUE
    requires Unpicked(m, run, s) && ScansWithin(run, L)
    ensures var n, n' := After(m, run), After(m, run + [Age]);
            n.procs[s].queue > 0 && n'.procs[s].queue < n.procs[s].queue ==>
              n'.procs[s].queue == n.procs[s].queue - 1 && n.ticks - Since(m, n, s) <= 5 * n.procs[s].queue + L
  {
    assert (run + [Age])[..|run|] == run;
    WaitBounded(m, run, s, L);
    assert Step(After(m, run), Age).procs[s] == Next(After(m, run), Age, s);
  }

  /** A process left waiting for more than 50 + 4L ticks is in queue 0, wherever it started. */
  lemma {:induction false} ReachesTopQueue(m: Machine, run: seq<Event>, s: nat, L: nat)
    requires Tree(m) && Possible(m, run) && s < |m.procs| && m.procs[s].last <= m.ticks && m.procs[s].queue < NQUEUE
    requires Unpicked(m, run, s) && ScansWithin(run, L)
    ensures After(m, run).ticks - m.ticks > 50 + 4 * L ==> After(m, run).procs[s].queue == 0
  {
    WaitBounded(m, run, s, L);
    AheadOfFour(m.procs[s].queue, L);
    var n := After(m, run);
    if n.procs[s].queue > 0 { assert Ahead(n.procs[s].queue, L) >= MaxWait(n.procs[s].queue) + L; }
  }
}
