/** The multi-level feedback queue: aging, the choice of a process, and its time slice. Between a switch to a
  process and its return, the rest of the kernel does what it likes: the machine that the scheduler then
  finds is given by the world. */
module MlfqScheduler {
  import opened SchedMachine
  import opened SchedKernel
  import opened ProcTree
  import opened SchedTurns

  // ----- the choice -----

  predicate ReadyIn(ps: seq<Proc>, s: nat, q: nat) { s < |ps| && ps[s].state == RUNNABLE && ps[s].queue == q }

  /** First by creation time, in queue 4 by the time it last worked; then by slot. */
  ghost predicate Best(ps: seq<Proc>, s: nat, q: nat, hi: nat)
  {
    ReadyIn(ps, s, q) && s < hi &&
    forall t: nat :: t < hi && ReadyIn(ps, t, q) && t != s ==>
      if q == 4 then ps[s].last < ps[t].last || (ps[s].last == ps[t].last && s < t)
      else ps[s].ctime < ps[t].ctime || (ps[s].ctime == ps[t].ctime && s < t)
  }

  ghost predicate Chosen(ps: seq<Proc>, choice: int, q: nat, hi: nat)
  {
    if choice < 0 then forall t: nat :: t < hi ==> !ReadyIn(ps, t, q) else Best(ps, choice, q, hi)
  }

  /** Which choice the next slot leaves. */
  lemma {:induction false} ChooseOne(ps: seq<Proc>, choice: int, q: nat, p: nat)
    requires p < |ps| && choice < p && Chosen(ps, choice, q, p)
    ensures !ReadyIn(ps, p, q) ==> Chosen(ps, choice, q, p + 1)
    ensures ReadyIn(ps, p, q) ==>
      var sooner := choice < 0 || if q == 4 then ps[p].last < ps[choice].last else ps[p].ctime < ps[choice].ctime;
      Chosen(ps, if sooner then p else choice, q, p + 1)
  {
  }

  // ----- the slice -----

  /** The machine before turn k of a slice that starts from m. */
  function Before(m: Machine, world: seq<Machine>, k: nat): Machine
    requires k <= |world|
  {
    if k == 0 then m else world[k - 1]
  }

  /** In turn k the process was runnable, and had ticks left after the turn before. */
  ghost predicate SwitchedTo(m: Machine, world: seq<Machine>, s: nat, i: nat, k: nat)
    requires k <= |world|
  {
    Is(Before(m, world, k), s, RUNNABLE) && (k > 0 ==> Before(m, world, k).procs[s].currq < MaxTick(i))
  }

  ghost predicate UsedUp(m: Machine, s: nat, i: nat) { s < |m.procs| && m.procs[s].currq >= MaxTick(i) }

  /** The end of a slice: down one queue if it is used up, except from the last. */
  ghost function Finished(m: Machine, s: nat, i: nat): Machine
  {
    Step(if UsedUp(m, s, i) && i != 4 then Step(m, Demote(s)) else m, Park(s))
  }

  /** Each turn of the slice is a turn on the CPU, and leaves what the scheduler finds. */
  ghost predicate RealTurn(m: Machine, world: seq<Machine>, runs: seq<seq<Event>>, s: nat, k: nat)
    requires k < |world| == |runs|
  {
    Turn(Before(m, world, k), s, runs[k]) && After(Before(m, world, k), runs[k]) == world[k]
  }

  ghost predicate InSlice(m: Machine, n: Machine, s: nat, i: nat)
  {
    Tree(n) && CpuIdle(n) && s < |n.procs| && s < |m.procs| && n.procs[s].queue == i &&
    n.procs[s].ctime == m.procs[s].ctime &&
    n.procs[s].currq <= MaxTick(i)
  }

  /** Whatever happens in its turns, the process uses at most max_tick_of_q[i] ticks and stays in queue i. */
  lemma {:induction false} SliceBound(m: Machine, world: seq<Machine>, runs: seq<seq<Event>>, s: nat, i: nat,
                                      turns: nat)
    requires Tree(m) && CpuIdle(m) && ReadyIn(m.procs, s, i) && m.procs[s].currq == 0 && turns <= |world| == |runs|
    requires forall k: nat :: k < turns ==> SwitchedTo(m, world, s, i, k) && RealTurn(m, world, runs, s, k)
    ensures InSlice(m, Before(m, world, turns), s, i)
    ensures turns > 0 ==> Before(m, world, turns).procs[s].state in {RUNNABLE, SLEEPING, ZOMBIE}
    decreases turns
  {
    if turns > 0 {
      hide Tree, CpuIdle, Turn;
      var k := turns - 1;
      SliceBound(m, world, runs, s, i, k);
      assert SwitchedTo(m, world, s, i, k) && RealTurn(m, world, runs, s, k);
      SliceTurn(m, Before(m, world, k), runs[k], s, i);
    } else {
      hide Tree, CpuIdle, Turn, MaxTick;
    }
  }

  /** One more turn of a process that has ticks left. */
  lemma {:induction false} SliceTurn(m: Machine, n: Machine, run: seq<Event>, s: nat, i: nat)
    requires InSlice(m, n, s, i) && n.procs[s].currq < MaxTick(i) && Turn(n, s, run)
    ensures InSlice(m, After(n, run), s, i) && After(n, run).procs[s].state in {RUNNABLE, SLEEPING, ZOMBIE}
  {
    hide Tree, CpuIdle, Turn, MaxTick;
    TurnCharges(n, s, run);
    assert run[..|run|] == run;
    TurnHas(n, s, run);
    TurnLeavesIdle(n, s, run, |run|);
  }

  lemma {:induction false} TurnHas(m: Machine, s: nat, run: seq<Event>)
    requires Turn(m, s, run)
    ensures s < |m.procs|
  {
  }

  /** The scan and the start of a slice are steps of the machine, taken with the CPU idle. */
  lemma {:induction false} SliceStarts(m: Machine, s: nat, i: nat)
    requires Tree(m) && CpuIdle(m) && s < |m.procs|
    ensures Enabled(m, Age) && Tree(Step(m, Age)) && CpuIdle(Step(m, Age))
    ensures var aged := Step(m, Age);
            ReadyIn(aged.procs, s, i) ==>
              Enabled(aged, Slice(s)) && var n := Step(aged, Slice(s));
              Tree(n) && CpuIdle(n) && ReadyIn(n.procs, s, i) && n.procs[s].currq == 0
  {
    StepTree(m, Age);
    var aged := Step(m, Age);
    forall t: nat ensures !Is(aged, t, RUNNING) {
      if t < |m.procs| { assert aged.procs[t] == Next(m, Age, t); assert !Is(m, t, RUNNING); }
    }
    if ReadyIn(aged.procs, s, i) {
      StepTree(aged, Slice(s));
      var n := Step(aged, Slice(s));
      forall t: nat ensures !Is(n, t, RUNNING) {
        if t < |m.procs| { assert n.procs[t] == Next(aged, Slice(s), t); assert !Is(aged, t, RUNNING); }
      }
    }
    hide Tree;
  }

  /** So at the end of a slice the scheduler's steps are enabled, and the process goes down exactly if it has
      used all its ticks and is not in the last queue. */
  lemma {:induction false} SliceEnds(m: Machine, n: Machine, s: nat, i: nat)
    requires InSlice(m, n, s, i) && i < NQUEUE && n.procs[s].state in {RUNNABLE, SLEEPING, ZOMBIE}
    ensures UsedUp(n, s, i) <==> n.procs[s].currq == MaxTick(i)
    ensures if UsedUp(n, s, i) && i != 4 then Enabled(n, Demote(s)) && Enabled(Step(n, Demote(s)), Park(s))
            else Enabled(n, Park(s))
    ensures Finished(n, s, i).procs[s].queue == if n.procs[s].currq == MaxTick(i) && i != 4 then i + 1 else i
    ensures Finished(n, s, i).procs[s].last == n.ticks
  {
    var d := Step(n, Demote(s));
    assert d.procs[s] == Next(n, Demote(s), s);
    forall t: nat ensures !Is(d, t, RUNNING) {
      if t < |n.procs| { assert d.procs[t] == Next(n, Demote(s), t); assert !Is(n, t, RUNNING); }
    }
    hide Tree;
  }

  /** A whole pass from a machine with the CPU idle: the process chosen uses at most max_tick_of_q[i] ticks,
      keeps its creation time, and is in queue i + 1 afterwards exactly if it used them all and i is not 4. */
  lemma {:induction false} PassSlice(m: Machine, world: seq<Machine>, runs: seq<seq<Event>>, s: nat, i: nat, turns: nat)
    requires Tree(m) && CpuIdle(m) && i < NQUEUE && ReadyIn(Step(m, Age).procs, s, i) && 0 < turns <= |world| == |runs|
    requires var start := Step(Step(m, Age), Slice(s));
             forall k: nat :: k < turns ==> SwitchedTo(start, world, s, i, k) && RealTurn(start, world, runs, s, k)
    ensures var end, slice := world[turns - 1], [1, 2, 4, 8, 16][i];
            s < |end.procs| && end.procs[s].currq <= slice && end.procs[s].ctime == m.procs[s].ctime &&
            Finished(end, s, i).procs[s].queue == if end.procs[s].currq == slice && i != 4 then i + 1 else i
    ensures var end := world[turns - 1];
            if UsedUp(end, s, i) && i != 4 then Enabled(end, Demote(s)) && Enabled(Step(end, Demote(s)), Park(s))
            else Enabled(end, Park(s))
  {
    SliceStarts(m, s, i);
    var start := Step(Step(m, Age), Slice(s));
    assert start.procs[s] == Next(Step(m, Age), Slice(s), s) && Step(m, Age).procs[s] == Next(m, Age, s);
    SliceBound(start, world, runs, s, i, turns);
    SliceEnds(start, world[turns - 1], s, i);
    hide Tree, CpuIdle, SwitchedTo, RealTurn, Finished, UsedUp, Enabled;
  }

  class Mlfq {
    const table: Table

    constructor (t: Table)
      ensures table == t
    {
      table := t;
    }

    /** The aging scan. */
    method AgeAll()
      modifies table.procs
      ensures table.View() == Step(old(table.View()), Age)
      ensures forall t :: 0 <= t < table.procs.Length ==> Aged(old(table.procs[t]), table.ticks, table.procs[t])
    {
      ghost var m := table.View();
      var i := 0;
      while i < table.procs.Length
        invariant i <= table.procs.Length
        invariant forall k :: 0 <= k < i ==> table.procs[k] == AgeProc(old(table.procs[k]), table.ticks)
        invariant forall k :: i <= k < table.procs.Length ==> table.procs[k] == old(table.procs[k])
      {
        var p := table.procs[i];
        if p.state == RUNNABLE && p.queue > 0 && table.ticks - p.last > MaxWait(p.queue) {
          table.procs[i] := table.procs[i].(queue := table.procs[i].queue - 1);
          table.procs[i] := table.procs[i].(last := table.ticks);
        }
        i := i + 1;
      }
      assert table.procs[..] == Step(m, Age).procs;
    }

    /** The best process of each queue: the earliest created, in queue 4 the one that last worked longest ago. */
    method Choose() returns (queues: seq<int>)
      requires forall i :: 0 <= i < table.procs.Length ==> table.procs[i].queue < NQUEUE
      ensures |queues| == NQUEUE
      ensures forall q: nat :: q < NQUEUE ==>
        queues[q] < table.procs.Length && Chosen(table.procs[..], queues[q], q, table.procs.Length)
    {
      queues := [-1, -1, -1, -1, -1];
      ghost var ps := table.procs[..];
      var p := 0;
      while p < table.procs.Length
        invariant p <= table.procs.Length && |queues| == NQUEUE
        invariant forall q: nat :: q < NQUEUE ==> queues[q] < p && Chosen(ps, queues[q], q, p)
      {
        var q := table.procs[p].queue;
        ChooseOne(ps, queues[q], q, p);
        forall r: nat | r < NQUEUE && r != q ensures Chosen(ps, queues[r], r, p + 1) { ChooseOne(ps, queues[r], r, p); }
        if table.procs[p].state == RUNNABLE {
          if queues[q] < 0 {
            queues := queues[q := p];
          } else if (if q != 4 then table.procs[p].ctime < table.procs[queues[q]].ctime
                     else table.procs[queues[q]].last > table.procs[p].last) {
            queues := queues[q := p];
          }
        }
        p := p + 1;
      }
    }

    /** swtch to the process in slot s, and back. */
    method Switch(s: nat, w: Machine) returns (ghost at: Machine)
      requires s < table.procs.Length == |w.procs| && w.init == table.init
      modifies table, table.procs
      ensures table.View() == w && SwitchedIn(old(table.View()), at, s)
    {
      ghost var m := table.View();
      table.procs[s] := table.procs[s].(last := table.ticks, state := RUNNING, ticked := false);
      at := table.View();
      assert at.procs == Step(m, Dispatch(s)).procs;
      table.ticks, table.nextpid := w.ticks, w.nextpid;
      forall t | 0 <= t < table.procs.Length { table.procs[t] := w.procs[t]; }
      assert table.procs[..] == w.procs;
    }

    /** curr_q_ticks = 0 */
    method StartSlice(s: nat)
      requires s < table.procs.Length
      modifies table.procs
      ensures table.View() == Step(old(table.View()), Slice(s))
      ensures table.procs[..] == old(table.procs[..])[s := old(table.procs[s]).(currq := 0)]
    {
      ghost var m := table.View();
      table.procs[s] := table.procs[s].(currq := 0);
      assert table.procs[..] == Step(m, Slice(s)).procs;
    }

    /** The process runs until it blocks or its slice is used up, and is demoted if it used it up. The world says
        how each turn goes; done is false when it says no more. */
    method RunSlice(s: nat, i: nat, world: seq<Machine>) returns (done: bool, turns: nat, ghost ats: seq<Machine>)
      requires s < table.procs.Length && table.procs[s].state == RUNNABLE
      requires forall j :: 0 <= j < |world| ==> |world[j].procs| == table.procs.Length && world[j].init == table.init
      modifies table, table.procs
      ensures var m := Step(old(table.View()), Slice(s));
              turns <= |world| && (forall k: nat :: k < turns ==> SwitchedTo(m, world, s, i, k)) &&
              (if done then turns > 0 && (!Is(world[turns - 1], s, RUNNABLE) || UsedUp(world[turns - 1], s, i)) &&
                            table.View() == Finished(world[turns - 1], s, i)
               else turns == |world| && Is(table.View(), s, RUNNABLE) && table.View() == Before(m, world, turns) &&
                    (turns > 0 ==> !UsedUp(table.View(), s, i)))
      ensures |ats| == turns <= |world|
      ensures var m := Step(old(table.View()), Slice(s));
              forall k: nat :: k < turns ==> SwitchedIn(Before(m, world, k), ats[k], s)
    {
      hide Step, Finished, SwitchedIn;
      StartSlice(s);
      ghost var m := table.View();
      turns, ats := 0, [];
      while table.procs[s].state == RUNNABLE
        invariant turns <= |world| && table.View() == Before(m, world, turns)
        invariant forall k: nat :: k < turns ==> SwitchedTo(m, world, s, i, k)
        invariant |ats| == turns && forall k: nat :: k < turns ==> SwitchedIn(Before(m, world, k), ats[k], s)
        invariant turns == 0 ==> table.procs[s].state == RUNNABLE
        invariant turns > 0 ==> table.procs[s].currq < MaxTick(i)
        decreases |world| - turns
      {
        if turns == |world| { return false, turns, ats; }
        assert SwitchedTo(m, world, s, i, turns);
        ghost var at := Switch(s, world[turns]);
        turns, ats := turns + 1, ats + [at];
        if table.procs[s].currq >= MaxTick(i) { break; }
      }
      FinishSlice(s, i);
      done := true;
    }

    /** Demotion and lastWorkingticks. */
    method FinishSlice(s: nat, i: nat)
      requires s < table.procs.Length
      modifies table.procs
      ensures table.View() == Finished(old(table.View()), s, i)
      ensures var p := old(table.procs[s]);
              var lower := if p.currq >= MaxTick(i) && i != 4 then p.queue + 1 else p.queue;
              table.procs[..] == old(table.procs[..])[s := p.(queue := lower, last := table.ticks)]
    {
      ghost var m := table.View();
      if table.procs[s].currq >= MaxTick(i) && i != 4 {
        table.procs[s] := table.procs[s].(queue := table.procs[s].queue + 1);
        assert table.procs[..] == Step(m, Demote(s)).procs;
      }
      ghost var m1 := table.View();
      table.procs[s] := table.procs[s].(last := table.ticks);
      assert table.procs[..] == Step(m1, Park(s)).procs;
    }

    /** One pass of the scheduler's loop: the best process of the lowest queue that has one gets a slice. */
    method Pass(world: seq<Machine>) returns (s: int, i: nat, done: bool, turns: nat, ghost ats: seq<Machine>)
      requires forall j :: 0 <= j < |world| ==> |world[j].procs| == table.procs.Length && world[j].init == table.init
      requires forall t :: 0 <= t < table.procs.Length ==> table.procs[t].queue < NQUEUE
      modifies table, table.procs
      ensures s < table.procs.Length && i <= NQUEUE && (s >= 0 <==> i < NQUEUE) && (s >= 0 ==> turns <= |world|)
      ensures var aged := Step(old(table.View()), Age);
              (forall q: nat :: q < i ==> Chosen(aged.procs, -1, q, |aged.procs|)) &&
              if s >= 0 then Best(aged.procs, s, i, |aged.procs|) else table.View() == aged
      ensures s >= 0 ==>
        forall k: nat :: k < turns ==> SwitchedTo(Step(Step(old(table.View()), Age), Slice(s)), world, s, i, k)
      ensures s >= 0 && done ==>
        turns > 0 && (!Is(world[turns - 1], s, RUNNABLE) || UsedUp(world[turns - 1], s, i))
      ensures s >= 0 && done ==> table.View() == Finished(world[turns - 1], s, i)
      ensures s >= 0 && !done ==>
        turns == |world| && Is(table.View(), s, RUNNABLE) && (turns > 0 ==> !UsedUp(table.View(), s, i)) &&
        table.View() == Before(Step(Step(old(table.View()), Age), Slice(s)), world, turns)
      ensures s >= 0 ==> |ats| == turns && forall k: nat :: k < turns ==>
        SwitchedIn(Before(Step(Step(old(table.View()), Age), Slice(s)), world, k), ats[k], s)
      ensures s < 0 ==> done && turns == 0 && ats == []
      ensures s >= 0 ==> Outcome(Step(old(table.View()), Age).procs, world, s, i, done, turns, table.procs[..])
    {
      ats := [];
      ghost var was := table.View();
      AgeAll();
      ghost var aged := table.View();
      assert forall t: nat :: t < table.procs.Length ==> table.procs[t] == Next(was, Age, t);
      var queues := Choose();
      hide Finished, SwitchedTo, UsedUp, Chosen, Best;
      i := 0;
      while i < NQUEUE
        invariant i <= NQUEUE && forall q: nat :: q < i ==> Chosen(aged.procs, -1, q, |aged.procs|)
        invariant table.View() == aged
      {
        assert Chosen(table.procs[..], queues[i], i, table.procs.Length);
        NoneChosen(aged.procs, queues[i], i, table.procs.Length);
        if queues[i] >= 0 {
          s := queues[i];
          done, turns, ats := RunSlice(s, i, world);
          SliceOutcome(aged, world, s, i, done, turns, table.View());
          return;
        }
        i := i + 1;
      }
      return -1, i, true, 0, [];
    }
  }

  /** What a slice of 1, 2, 4, 8 or 16 ticks comes to, in a table that has been aged. The process is switched to as long
      as it is runnable and has ticks left; then it goes down a queue if it has none, and not from the last queue, and
      the time is noted. When the world says no more it is left as the last turn left it. */
  ghost predicate Outcome(aged: seq<Proc>, world: seq<Machine>, s: nat, i: nat, done: bool, turns: nat, ps: seq<Proc>)
  {
    i < 5 && turns <= |world| && s < |aged| && (forall k :: 0 <= k < |world| ==> s < |world[k].procs|) &&
    (|world| > 0 ==> turns > 0) && var slice := [1, 2, 4, 8, 16][i];
    (forall k :: 0 <= k < turns - 1 ==> Goes(world[k].procs[s], slice)) &&
    if done then
      turns > 0 && var end := world[turns - 1];
      var p := end.procs[s];
      var lower := if p.currq >= slice && i != 4 then p.queue + 1 else p.queue;
      !Goes(p, slice) && ps == end.procs[s := p.(queue := lower, last := end.ticks)]
    else
      turns == |world| &&
      if turns == 0 then ps == aged[s := aged[s].(currq := 0)]
      else ps == world[turns - 1].procs && Goes(ps[s], slice)
  }

  /** The process can be switched to again. */
  predicate Goes(p: Proc, slice: nat) { p.state == RUNNABLE && p.currq < slice }

  lemma {:induction false} SliceOutcome(aged: Machine, world: seq<Machine>, s: nat, i: nat, done: bool, turns: nat,
                                        m: Machine)
    requires i < NQUEUE && s < |aged.procs| && turns <= |world| && ReadyIn(aged.procs, s, i)
    requires forall k :: 0 <= k < |world| ==> |world[k].procs| == |aged.procs|
    requires var start := Step(aged, Slice(s));
             (forall k: nat :: k < turns ==> SwitchedTo(start, world, s, i, k)) &&
             if done then turns > 0 && (!Is(world[turns - 1], s, RUNNABLE) || UsedUp(world[turns - 1], s, i)) &&
                          m == Finished(world[turns - 1], s, i)
             else turns == |world| && Is(m, s, RUNNABLE) && (turns > 0 ==> !UsedUp(m, s, i)) &&
                  m == Before(start, world, turns)
    ensures Outcome(aged.procs, world, s, i, done, turns, m.procs)
  {
    var start := Step(aged, Slice(s));
    forall k | 0 <= k < turns - 1 ensures Goes(world[k].procs[s], MaxTick(i)) {
      assert SwitchedTo(start, world, s, i, k + 1);
    }
    if done { FinishedProcs(world[turns - 1], s, i); }
    assert start.procs == aged.procs[s := aged.procs[s].(currq := 0)];
    hide Step, Finished;
  }

  lemma {:induction false} FinishedProcs(m: Machine, s: nat, i: nat)
    requires s < |m.procs|
    ensures var p := m.procs[s];
            var lower := if p.currq >= MaxTick(i) && i != 4 then p.queue + 1 else p.queue;
            Finished(m, s, i).procs == m.procs[s := p.(queue := lower, last := m.ticks)]
  {
  }

  /** What the aging scan makes of a process that has waited more than 5, 10, 15 or 20 ticks. */
  predicate Aged(p: Proc, ticks: nat, p': Proc)
  {
    if p.state == RUNNABLE && 0 < p.queue < NQUEUE && ticks > p.last + 5 * p.queue then
      p' == p.(queue := p.queue - 1, last := ticks)
    else p.queue < NQUEUE ==> p' == p
  }

  lemma {:induction false} NoneChosen(ps: seq<Proc>, choice: int, q: nat, hi: nat)
    requires Chosen(ps, choice, q, hi)
    ensures if choice < 0 then Chosen(ps, -1, q, hi) else Best(ps, choice, q, hi) && ReadyIn(ps, choice, q)
  {
  }
}
