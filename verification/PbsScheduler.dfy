/** The priority scheduler. What other code does while a process has the CPU is arbitrary: the machine that the
  scheduler finds after each switch is given by the world. */
module PbsScheduler {
  import opened SchedMachine
  import opened SchedKernel

  type Procs = seq<Proc>

  /** A process switched to, and the table at that moment. */
  datatype Dispatched = Dispatched(slot: nat, procs: Procs)

  predicate Ready(ps: Procs, s: nat) { s < |ps| && ps[s].state == RUNNABLE }

  /** No runnable process is more urgent than pr. */
  ghost predicate NoneBelow(ps: Procs, pr: int) { forall s: nat :: Ready(ps, s) ==> pr <= ps[s].priority }

  ghost predicate MostUrgent(ps: Procs, s: nat) { Ready(ps, s) && NoneBelow(ps, ps[s].priority) }

  /** The process in slot s is runnable, and no runnable one has a lower priority value. */
  ghost predicate LeastRunnable(ps: Procs, s: nat)
  {
    s < |ps| && ps[s].state == RUNNABLE &&
    forall t :: 0 <= t < |ps| && ps[t].state == RUNNABLE ==> ps[s].priority <= ps[t].priority
  }

  lemma {:induction false} UrgentIsLeast(ps: Procs, s: nat)
    ensures MostUrgent(ps, s) <==> LeastRunnable(ps, s)
  {
    if MostUrgent(ps, s) {
      forall t | 0 <= t < |ps| && ps[t].state == RUNNABLE ensures ps[s].priority <= ps[t].priority {
        assert Ready(ps, t);
      }
    }
  }

  /** No slot in lo..hi is ready with priority pr. */
  ghost predicate NoneAt(ps: Procs, lo: nat, hi: nat,
                         pr: int) { forall s: nat :: lo <= s < hi && Ready(ps, s) ==> ps[s].priority != pr }

  /** The slot after the one dispatched in turn j - 1. */
  function Resume(log: seq<Dispatched>, j: nat): nat
    requires j <= |log|
  {
    if j == 0 then 0 else log[j - 1].slot + 1
  }

  /** The process dispatched in turn j was most urgent at that moment; the pass goes up the table, and left
      out no slot that was as urgent. */
  ghost predicate TurnOk(log: seq<Dispatched>, j: nat)
    requires j < |log|
  {
    var d := log[j];
    MostUrgent(d.procs, d.slot) && Resume(log, j) <= d.slot &&
    NoneAt(d.procs, Resume(log, j), d.slot, d.procs[d.slot].priority)
  }

  ghost predicate RoundOk(log: seq<Dispatched>) { forall j: nat :: j < |log| ==> TurnOk(log, j) }

  lemma {:induction false} RoundExtends(log: seq<Dispatched>, d: Dispatched)
    requires RoundOk(log) && MostUrgent(d.procs, d.slot) && Resume(log, |log|) <= d.slot
    requires NoneAt(d.procs, Resume(log, |log|), d.slot, d.procs[d.slot].priority)
    ensures RoundOk(log + [d])
  {
    var log' := log + [d];
    hide NoneAt, MostUrgent;
    forall j: nat | j < |log'| ensures TurnOk(log', j) {
      if j < |log| { assert TurnOk(log, j); }
    }
  }

  class Pbs {
    const table: Table

    constructor (t: Table)
      ensures table == t
    {
      table := t;
    }

    /** The first loop: the lowest of the slots with the most urgent ready process. */
    method FindMin() returns (minone: int)
      ensures minone == -1 ==> forall s: nat :: !Ready(table.procs[..], s)
      ensures minone != -1 ==> 0 <= minone < table.procs.Length && MostUrgent(table.procs[..], minone)
      ensures minone != -1 ==> NoneAt(table.procs[..], 0, minone, table.procs[minone].priority)
      ensures minone == -1 <==> forall s :: 0 <= s < table.procs.Length ==> table.procs[s].state != RUNNABLE
      ensures minone != -1 ==> LeastRunnable(table.procs[..], minone)
    {
      minone := -1;
      var p := 0;
      assert forall s: nat :: Ready(table.procs[..], s) <==> s < table.procs.Length && table.procs[s].state == RUNNABLE;
      while p < table.procs.Length
        invariant 0 <= p <= table.procs.Length && -1 <= minone < p
        invariant minone == -1 ==> forall s: nat :: s < p ==> !Ready(table.procs[..], s)
        invariant minone != -1 ==> Ready(table.procs[..], minone)
        invariant minone != -1 ==> NoneAt(table.procs[..], 0, minone, table.procs[minone].priority)
        invariant minone != -1 ==>
          forall s: nat :: s < p && Ready(table.procs[..], s) ==>
            table.procs[minone].priority <= table.procs[s].priority
      {
        if table.procs[p].state == RUNNABLE {
          if minone == -1 {
            minone := p;
          } else if table.procs[p].priority < table.procs[minone].priority {
            minone := p;
          }
        }
        p := p + 1;
      }
    }

    /** swtch to the process in slot p, and back when the world says so. */
    method Switch(p: nat, w: Machine) returns (ghost at: Machine)
      requires p < table.procs.Length == |w.procs| && w.init == table.init
      modifies table, table.procs
      ensures SwitchedIn(old(table.View()), at, p)
      ensures table.View() == Step(w, Park(p)) && table.ticks == w.ticks && table.nextpid == w.nextpid
      ensures table.procs[..] == w.procs[p := w.procs[p].(last := w.ticks)]
    {
      ghost var m := table.View();
      table.procs[p] := table.procs[p].(state := RUNNING, last := table.ticks, ticked := false);
      at := table.View();
      assert at.procs == Step(m, Dispatch(p)).procs;
      table.ticks, table.nextpid := w.ticks, w.nextpid;
      forall i | 0 <= i < table.procs.Length { table.procs[i] := w.procs[i]; }
      table.procs[p] := table.procs[p].(last := table.ticks);
      assert table.procs[..] == Step(w, Park(p)).procs;
    }

    /** The check after each switch: is a more urgent process ready now? */
    method Better(pr: int) returns (flag: bool)
      ensures flag <==> !NoneBelow(table.procs[..], pr)
      ensures flag <==>
        exists s :: 0 <= s < table.procs.Length && table.procs[s].state == RUNNABLE && table.procs[s].priority < pr
    {
      var k := 0;
      while k < table.procs.Length
        invariant k <= table.procs.Length
        invariant forall s: nat :: s < k && Ready(table.procs[..], s) ==> pr <= table.procs[s].priority
      {
        if table.procs[k].state == RUNNABLE && table.procs[k].priority < pr {
          assert Ready(table.procs[..], k);
          return true;
        }
        k := k + 1;
      }
      return false;
    }

    /** The body of the second loop, for a process as urgent as minone. */
    method Turn(world: seq<Machine>, p: nat, j: nat, minone: int, ghost was: Procs,
                ghost log: seq<Dispatched>) returns (flag: bool, ghost at: Machine)
      requires |world| == table.procs.Length && p < table.procs.Length && |log| == j <= p
      requires |world[j].procs| == table.procs.Length
      requires world[j].init == table.init
      requires Going(was, world, log, table.procs[..], minone, p) && Ready(table.procs[..], p)
      requires minone != -1 ==> table.procs[p].priority == table.procs[minone].priority
      modifies table, table.procs
      ensures var log' := log + [Dispatched(p, TableAt(was, world, log, |log|))];
              0 <= minone < table.procs.Length && (exists s: nat :: Ready(was, s)) && RoundOk(log') &&
              Chained(was, world, log', table.procs[..]) && log'[0].slot == minone &&
              (if flag then !NoneBelow(table.procs[..], table.procs[minone].priority)
                else Going(was, world, log', table.procs[..], minone, p + 1))
      ensures SwitchedIn(old(table.View()), at, p)
      ensures table.ticks == world[j].ticks && table.nextpid == world[j].nextpid
    {
      hide RoundOk, NoneBelow, MostUrgent;
      GoingFacts(was, world, log, table.procs[..], minone, p);
      SwitchTo(was, world, log, table.procs[..], minone, p);
      at := Switch(p, world[j]);
      flag := Better(table.procs[minone].priority);
    }

    /** One pass of the scheduler's loop. */
    method Pass(world: seq<Machine>) returns (minone: int, ghost log: seq<Dispatched>, ghost ats: seq<Machine>)
      requires |world| == table.procs.Length
      requires forall j :: 0 <= j < |world| ==> |world[j].procs| == table.procs.Length && world[j].init == table.init
      modifies table, table.procs
      ensures RoundOk(log) && Chained(old(table.procs[..]), world, log, table.procs[..])
      ensures forall j :: 0 <= j < |log| ==> LeastRunnable(log[j].procs, log[j].slot)
      ensures log == [] <==> forall s: nat :: !Ready(old(table.procs[..]), s)
      ensures log != [] ==> 0 <= minone < table.procs.Length && log[0].slot == minone
      ensures log != [] ==>
        !NoneBelow(table.procs[..], table.procs[minone].priority) ||
          NoneAt(table.procs[..], Resume(log, |log|), table.procs.Length, table.procs[minone].priority)
      ensures |ats| == |log| && forall j: nat :: j < |log| ==> EnteredAt(old(table.View()), world, log, ats, j)
      ensures if log == [] then table.View() == old(table.View())
              else table.ticks == world[|log| - 1].ticks && table.nextpid == world[|log| - 1].nextpid
    {
      hide RoundOk, Chained, NoneBelow, NoneAt, MostUrgent, Going, SwitchedIn, EnteredAt, TableAt, Resume;
      hide LeastRunnable;
      log, ats := [], [];
      minone := FindMin();
      ghost var was := table.procs[..];
      ghost var start := table.View();
      PassStarts(world, was, minone);
      var p, j := 0, 0;
      while p < table.procs.Length
        invariant 0 <= p <= table.procs.Length && |log| == j <= p
        invariant Going(was, world, log, table.procs[..], minone, p) && start == old(table.View())
        invariant |ats| == |log| && forall k: nat :: k < |log| ==> EnteredAt(start, world, log, ats, k)
        invariant table.ticks == (if j == 0 then start.ticks else world[j - 1].ticks)
        invariant table.nextpid == (if j == 0 then start.nextpid else world[j - 1].nextpid)
      {
        GoingFacts(was, world, log, table.procs[..], minone, p);
        assert Ready(table.procs[..], p) <==> table.procs[p].state == RUNNABLE;
        if table.procs[p].state == RUNNABLE && table.procs[p].priority == table.procs[minone].priority {
          ghost var before, at := table.View(), start;
          var flag;
          flag, at := Turn(world, p, j, minone, was, log);
          EnteredMore(start, world, log, ats, before, at, Dispatched(p, TableAt(was, world, log, |log|)));
          log, ats := log + [Dispatched(p, TableAt(was, world, log, |log|))], ats + [at];
          j := j + 1;
          if flag {
            RoundLeast(log);
            return;
          }
        } else {
          PassSkips(was, world, log, table.procs[..], minone, p);
        }
        p := p + 1;
      }
      GoingFacts(was, world, log, table.procs[..], minone, p);
      RoundLeast(log);
    }
  }

  lemma {:induction false} RoundLeast(log: seq<Dispatched>)
    requires RoundOk(log)
    ensures forall j :: 0 <= j < |log| ==> LeastRunnable(log[j].procs, log[j].slot)
  {
    forall j: nat | j < |log| ensures LeastRunnable(log[j].procs, log[j].slot) {
      assert TurnOk(log, j);
      UrgentIsLeast(log[j].procs, log[j].slot);
    }
  }

  /** The table in turn j: the one the pass began with, or the one found after the turn before, with
      lastWorkingticks set for the process that ran. */
  ghost function TableAt(was: Procs, world: seq<Machine>, log: seq<Dispatched>, j: nat): Procs
    requires j <= |log| <= |world|
  {
    if j == 0 then was else Step(world[j - 1], Park(log[j - 1].slot)).procs
  }

  /** In turn j the process in that slot was given the CPU, in the table of the log and at the ticks of the world. */
  ghost predicate EnteredAt(m: Machine, world: seq<Machine>, log: seq<Dispatched>, ats: seq<Machine>, j: nat)
    requires j < |log| == |ats| <= |world|
  {
    var w := if j == 0 then m else world[j - 1];
    SwitchedIn(Machine(log[j].procs, w.ticks, w.nextpid, m.init), ats[j], log[j].slot)
  }

  lemma {:induction false} EnteredMore(m: Machine, world: seq<Machine>, log: seq<Dispatched>, ats: seq<Machine>,
                                       before: Machine, at: Machine, d: Dispatched)
    requires |log| == |ats| < |world| && SwitchedIn(before, at, d.slot)
    requires before.procs == d.procs && before.init == m.init
    requires forall k: nat :: k < |log| ==> EnteredAt(m, world, log, ats, k)
    requires var w := if log == [] then m else world[|log| - 1]; before.ticks == w.ticks && before.nextpid == w.nextpid
    ensures forall k: nat :: k < |log| + 1 ==> EnteredAt(m, world, log + [d], ats + [at], k)
  {
    hide SwitchedIn;
    forall k: nat | k < |log| + 1 ensures EnteredAt(m, world, log + [d], ats + [at], k) {
      if k < |log| { assert EnteredAt(m, world, log, ats, k); }
    }
  }

  ghost predicate FoundAt(was: Procs, world: seq<Machine>, log: seq<Dispatched>, j: nat)
    requires j < |log| <= |world|
  {
    log[j].procs == TableAt(was, world, log, j)
  }

  /** The tables in the log are those of the world, in order, and ps is the last. */
  ghost predicate Chained(was: Procs, world: seq<Machine>, log: seq<Dispatched>, ps: Procs)
  {
    |log| <= |world| && (forall j: nat :: j < |log| ==>
      FoundAt(was, world, log, j)) && ps == TableAt(was, world, log, |log|)
  }

  /** The second loop has reached slot p. */
  ghost predicate Going(was: Procs, world: seq<Machine>, log: seq<Dispatched>, ps: Procs, minone: int, p: nat)
  {
    |ps| == |world| && p <= |ps| && -1 <= minone < |ps| && RoundOk(log) && Resume(log, |log|) <= p &&
    Chained(was, world, log, ps) &&
    (if minone == -1 then log == [] && forall s: nat :: !Ready(ps, s)
     else NoneBelow(ps, ps[minone].priority) && NoneAt(ps, Resume(log, |log|), p, ps[minone].priority)) &&
    (if log == [] then
       minone != -1 ==> p <= minone && Ready(ps, minone) && NoneAt(ps, 0, minone, ps[minone].priority)
     else log[0].slot == minone)
  }

  lemma {:induction false} PassStarts(world: seq<Machine>, was: Procs, minone: int)
    requires |was| == |world| && -1 <= minone < |was|
    requires if minone == -1 then forall s: nat :: !Ready(was, s)
             else MostUrgent(was, minone) && NoneAt(was, 0, minone, was[minone].priority)
    ensures Going(was, world, [], was, minone, 0)
  {
  }

  lemma {:induction false} GoingFacts(was: Procs, world: seq<Machine>, log: seq<Dispatched>, ps: Procs, minone: int,
                                      p: nat)
    requires Going(was, world, log, ps, minone, p)
    ensures RoundOk(log) && Chained(was, world, log, ps) && -1 <= minone < |ps| == |world| && |log| <= |world|
    ensures ps == TableAt(was, world, log, |log|)
    ensures minone == -1 ==> log == [] && forall s: nat :: !Ready(ps, s)
    ensures minone != -1 ==> NoneAt(ps, Resume(log, |log|), p, ps[minone].priority)
    ensures log == [] ==> ps == was && (p == |ps| ==> minone == -1)
    ensures log != [] ==> log[0].slot == minone && exists s: nat :: Ready(was, s)
  {
    if log != [] {
      assert TurnOk(log, 0) && FoundAt(was, world, log, 0);
      assert Ready(was, log[0].slot);
    }
    hide NoneBelow;
  }

  lemma {:induction false} PassSkips(was: Procs, world: seq<Machine>, log: seq<Dispatched>, ps: Procs, minone: int,
                                     p: nat)
    requires Going(was, world, log, ps, minone, p) && p < |ps|
    requires !(Ready(ps, p) && (minone == -1 || ps[p].priority == ps[minone].priority))
    ensures Going(was, world, log, ps, minone, p + 1)
  {
    hide RoundOk, Chained, NoneBelow;
  }

  lemma {:induction false} SwitchTo(was: Procs, world: seq<Machine>, log: seq<Dispatched>, ps: Procs, minone: int,
                                    p: nat)
    requires Going(was, world, log, ps, minone, p) && p < |ps| && Ready(ps, p) && |log| <= p
    requires minone != -1 ==> ps[p].priority == ps[minone].priority
    ensures minone != -1 && RoundOk(log + [Dispatched(p, ps)])
    ensures Chained(was, world, log + [Dispatched(p, ps)], Step(world[|log|], Park(p)).procs)
    ensures (log + [Dispatched(p, ps)])[0].slot == minone
  {
    var log' := log + [Dispatched(p, ps)];
    assert minone != -1;
    RoundExtends(log, Dispatched(p, ps));
    hide RoundOk, NoneBelow, NoneAt;
    forall j: nat | j < |log'| ensures FoundAt(was, world, log', j) {
      if j < |log| { assert FoundAt(was, world, log, j); }
    }
  }
}
