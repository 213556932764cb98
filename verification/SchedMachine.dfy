/** The process table of the scheduling kernel, and every step that changes it. There is one CPU, and a
  step is one critical section under ptable.lock. */
module SchedMachine {
  const NQUEUE: nat := 5
  const DEFAULT_PRIORITY: int := 60

  datatype State = UNUSED | EMBRYO | SLEEPING | RUNNABLE | RUNNING | ZOMBIE

  datatype Chan = Nothing | OnTicks | OnProc(slot: nat) | Other(id: nat)

  datatype Parent = NoParent | Slot(slot: nat)

  /** np is the local variable of a fork that the process has not finished. ticked says that the process, on
      the CPU, is in the timer trap, where interrupts are off. */
  datatype Proc = Proc(state: State, pid: nat, parent: Parent, chan: Chan, killed: bool, np: Parent,
                       ctime: nat, rtime: nat, etime: nat, iotime: nat,
                       priority: int, queue: nat, qticks: seq<nat>, currq: nat, last: nat, ticked: bool)

  datatype Machine = Machine(procs: seq<Proc>, ticks: nat, nextpid: nat, init: nat)

  function MaxTick(q: nat): nat
  {
    if q == 0 then 1 else if q == 1 then 2 else if q == 2 then 4 else if q == 3 then 8 else 16
  }

  function MaxWait(q: nat): nat
  {
    if q == 0 then 1 else if q == 1 then 5 else if q == 2 then 10 else if q == 3 then 15 else 20
  }

  datatype Event =
    | Tick                             // the timer case of trap, on CPU 0
    | Alloc(f: nat, s: nat)            // fork in slot f: allocproc takes slot s
    | Abandon(f: nat, s: nat)          // no memory: the slot is given back
    | Adopt(f: nat, s: nat)            // np->parent = curproc
    | Launch(f: nat, s: nat)           // np->state = RUNNABLE, and fork returns
    | Dispatch(s: nat)                 // scheduler switches to the process
    | Slice(s: nat)                    // scheduler, MLFQ: curr_q_ticks = 0
    | Park(s: nat)                     // scheduler, back from the process: lastWorkingticks = ticks
    | Demote(s: nat)
    | Age
    | Yield(s: nat)
    | Sleep(s: nat, chan: Chan)        // anywhere but in wait
    | Wait(s: nat)                     // wait and waitx, having found no child to reap
    | Reap(s: nat, child: nat, clear: bool)   // waitx clears the times as well
    | Wakeup(chan: Chan)
    | Kill(pid: nat)
    | Exit(s: nat)
    | SetPriority(s: nat, priority: int)      // of whatever process is in the slot

  // ----- one process -----

  function TickProc(p: Proc): Proc
  {
    match p.state
    case RUNNING => p.(rtime := p.rtime + 1, currq := p.currq + 1, ticked := true,
                       qticks := if p.queue < |p.qticks| then p.qticks[p.queue := p.qticks[p.queue] + 1] else p.qticks)
    case SLEEPING => p.(iotime := p.iotime + 1, last := p.last + 1)
    case _ => p
  }

  function WakeProc(p: Proc, chan: Chan): Proc
  {
    if p.state == SLEEPING && p.chan == chan then p.(state := RUNNABLE) else p
  }

  function NewProc(p: Proc, pid: nat, ticks: nat): Proc
  {
    p.(state := EMBRYO, pid := pid, ctime := ticks, rtime := 0, etime := 0, iotime := 0, priority := DEFAULT_PRIORITY,
       queue := 0, currq := 0, last := ticks, qticks := [0, 0, 0, 0, 0])
  }

  function AgeProc(p: Proc, ticks: nat): Proc
  {
    if p.state == RUNNABLE && p.queue > 0 && ticks - p.last > MaxWait(p.queue) then
      p.(queue := p.queue - 1, last := ticks)
    else p
  }

  function ReapProc(p: Proc, clear: bool): Proc
  {
    var q := if clear then
               p.(etime := 0, ctime := 0, rtime := 0, iotime := 0, last := 0, priority := 0,
                  qticks := [0, 0, 0, 0, 0], currq := 0)
             else p;
    q.(pid := 0, parent := NoParent, killed := false, state := UNUSED)
  }

  /** The waiting time that waitx reports. */
  function WaitTime(p: Proc): int { p.etime - (p.ctime + p.rtime + p.iotime) }

  function KillProc(p: Proc): Proc
  {
    p.(killed := true, state := if p.state == SLEEPING then RUNNABLE else p.state)
  }

  // ----- the table -----

  predicate Is(m: Machine, s: nat, st: State) { s < |m.procs| && m.procs[s].state == st }

  predicate ChildOf(m: Machine, c: nat, s: nat) { c < |m.procs| && m.procs[c].parent == Slot(s) }

  /** The lowest slot with that pid; the searches of kill and set_priority stop there. */
  predicate FirstWithPid(m: Machine, s: nat, pid: nat)
  {
    s < |m.procs| && m.procs[s].pid == pid && forall i :: 0 <= i < s ==> m.procs[i].pid != pid
  }

  ghost predicate ZombieChild(m: Machine, s: nat) { exists c: nat :: ChildOf(m, c, s) && Is(m, c, ZOMBIE) }

  /** exit in slot t, before the process itself stops: its parent woken if asleep in wait, its children
      handed to init, and init woken if one of them is a zombie. */
  function WokenByExit(m: Machine, t: nat, p: Proc): Proc
    requires t < |m.procs|
  {
    match m.procs[t].parent case NoParent => p case Slot(f) => WakeProc(p, OnProc(f))
  }

  function HandedOver(m: Machine, t: nat,
                      p: Proc): Proc { if p.parent == Slot(t) then p.(parent := Slot(m.init)) else p }

  ghost function AfterExit(m: Machine, t: nat, s: nat): Proc
    requires t < |m.procs| && s < |m.procs|
  {
    var moved := HandedOver(m, t, WokenByExit(m, t, m.procs[s]));
    var p := if ZombieChild(m, t) then WakeProc(moved, OnProc(m.init)) else moved;
    if s == t then p.(etime := m.ticks, state := ZOMBIE) else p
  }

  ghost function Next(m: Machine, e: Event, s: nat): Proc
    requires s < |m.procs|
  {
    var p := m.procs[s];
    match e
    case Tick => WakeProc(TickProc(p), OnTicks)
    case Alloc(f, t) => if s == t then NewProc(p, m.nextpid, m.ticks) else if s == f then p.(np := Slot(t)) else p
    case Abandon(f, t) => if s == t then p.(state := UNUSED) else if s == f then p.(np := NoParent) else p
    case Adopt(f, t) => if s == t then p.(parent := Slot(f)) else p
    case Launch(f, t) => if s == t then p.(state := RUNNABLE) else if s == f then p.(np := NoParent) else p
    case Dispatch(t) => if s == t then p.(state := RUNNING, last := m.ticks, ticked := false) else p
    case Slice(t) => if s == t then p.(currq := 0) else p
    case Park(t) => if s == t then p.(last := m.ticks) else p
    case Demote(t) => if s == t then p.(queue := p.queue + 1) else p
    case Age => AgeProc(p, m.ticks)
    case Yield(t) => if s == t then p.(state := RUNNABLE) else p
    case Sleep(t, chan) => if s == t then p.(state := SLEEPING, chan := chan) else p
    case Wait(t) => if s == t then p.(state := SLEEPING, chan := OnProc(t)) else p
    case Reap(_, c, clear) => if s == c then ReapProc(p, clear) else p
    case Wakeup(chan) => WakeProc(p, chan)
    case Kill(pid) => if FirstWithPid(m, s, pid) then KillProc(p) else p
    case Exit(t) => if t < |m.procs| then AfterExit(m, t, s) else p
    case SetPriority(t, pr) => if s == t then p.(priority := pr) else p
  }

  ghost function Step(m: Machine, e: Event): (m': Machine)
    ensures |m'.procs| == |m.procs| && forall s :: 0 <= s < |m.procs| ==> m'.procs[s] == Next(m, e, s)
    ensures m'.init == m.init && m'.ticks == m.ticks + (if e == Tick then 1 else 0)
    ensures m'.nextpid == m.nextpid + (if e.Alloc? then 1 else 0)
  {
    Machine(seq(|m.procs|, s requires 0 <= s < |m.procs| => Next(m, e, s)),
            if e == Tick then m.ticks + 1 else m.ticks, if e.Alloc? then m.nextpid + 1 else m.nextpid, m.init)
  }

  /** The process is running, and not in the middle of fork. */
  predicate Calls(m: Machine, s: nat) { Is(m, s, RUNNING) && m.procs[s].np == NoParent }

  /** The process is running, with the child in slot c under construction. */
  predicate Forks(m: Machine, f: nat, c: nat) { Is(m, f, RUNNING) && m.procs[f].np == Slot(c) && c < |m.procs| }

  /** No process has the CPU: the scheduler is running. */
  ghost predicate CpuIdle(m: Machine) { forall s: nat :: !Is(m, s, RUNNING) }

  /** What the code before the step has checked, and what the order of the code in one process implies. */
  ghost predicate Enabled(m: Machine, e: Event)
  {
    match e
    case Tick => forall s: nat :: Is(m, s, RUNNING) ==> !m.procs[s].ticked
    case Alloc(f, s) => Calls(m, f) && Is(m, s, UNUSED) && forall i: nat :: i < s ==> !Is(m, i, UNUSED)
    case Abandon(f, s) => Forks(m, f, s) && m.procs[s].parent == NoParent
    case Adopt(f, s) => Forks(m, f, s) && m.procs[s].parent == NoParent
    case Launch(f, s) => Forks(m, f, s) && m.procs[s].parent == Slot(f)
    case Dispatch(s) => CpuIdle(m) && Is(m, s, RUNNABLE)
    case Slice(s) => CpuIdle(m) && Is(m, s, RUNNABLE)
    case Park(s) => CpuIdle(m) && s < |m.procs| && m.procs[s].state in {RUNNABLE, SLEEPING, ZOMBIE}
    case Demote(s) => CpuIdle(m) && s < |m.procs| && m.procs[s].state in {RUNNABLE, SLEEPING, ZOMBIE} &&
    m.procs[s].queue < 4
    case Age => CpuIdle(m)
    case Yield(s) => Is(m, s, RUNNING)
    case Sleep(s, chan) => Is(m, s, RUNNING) && !chan.OnProc?
    case Wait(s) => Calls(m, s) && !m.procs[s].killed && (exists c: nat :: ChildOf(m, c, s)) && !ZombieChild(m, s)
    case Reap(s, c, _) => Calls(m, s) && ChildOf(m, c, s) && Is(m, c, ZOMBIE)
    case Wakeup(_) => true
    case Kill(_) => true
    case Exit(s) => Calls(m, s) && s != m.init
    case SetPriority(_, pr) => 0 <= pr <= 100
  }

  /** The machine after a run, and whether each step of it was enabled. */
  ghost function After(m: Machine, run: seq<Event>): (m': Machine)
    ensures |m'.procs| == |m.procs|
  {
    if run == [] then m else Step(After(m, run[..|run| - 1]), run[|run| - 1])
  }

  ghost predicate Possible(m: Machine, run: seq<Event>)
  {
    run != [] ==> Possible(m, run[..|run| - 1]) && Enabled(After(m, run[..|run| - 1]), run[|run| - 1])
  }

  /** After userinit: init in slot 0, about to run, and the rest of the table clear. */
  ghost predicate Boot(m: Machine)
  {
    |m.procs| > 0 && m.init == 0 && m.nextpid == 2 &&
    forall s :: 0 <= s < |m.procs| ==>
      var p := m.procs[s];
      p.parent == NoParent && p.np == NoParent && p.chan == Nothing && p.queue == 0 &&
      if s == 0 then
        p.state == RUNNABLE && p.pid == 1 && p.ctime == p.last == m.ticks && p.rtime == p.iotime == 0 &&
        p.qticks == [0, 0, 0, 0, 0]
      else p.state == UNUSED && p.pid == 0 && p.last == 0
  }
}
