/** begin_op, log_write and end_op by concurrent operations: how much log space is promised.

  log_write tests the log's size before it takes the lock, so the test and the insertion are two
  steps, and other operations may run between them. */
module LogAdmission {
  import opened Params
  import opened SetSizes
  import opened DiskBlocks
  import opened Journal

  /** Where an operation is in log_write: past the test of the log's size, with a block to insert. */
  datatype Probe = Outside | Passed(block: nat)

  /** An operation between begin_op and end_op: the blocks it has logged, and those of them that it
      added to the log rather than found there. */
  datatype Op = Op(written: set<nat>, added: set<nat>, probe: Probe)

  /** budget is how many distinct blocks an operation may log, at most MAXOPBLOCKS. */
  datatype State = State(size: nat, budget: nat, lh: seq<nat>, ops: seq<Op>, committing: bool)

  datatype Step =
    | Begin
    | Test(op: nat, block: nat)        // log_write finds room, before it takes the lock
    | Insert(op: nat)                  // and then enters the block, with the lock held
    | End(op: nat)
    | Committed

  function Initial(size: nat, budget: nat): State { State(size, budget, [], [], false) }

  /** The two panics of log_write's unlocked test. */
  predicate TooBig(s: State) { |s.lh| >= LOGSIZE || |s.lh| >= s.size - 1 }

  predicate InBudget(s: State, op: nat, block: nat)
  {
    op < |s.ops| && |s.ops[op].written + {block}| <= s.budget
  }

  /** A test that fails is a panic, and ends the run. */
  predicate Enabled(s: State, st: Step)
  {
    match st
    case Begin => !s.committing && |s.lh| + (|s.ops| + 1) * MAXOPBLOCKS <= LOGSIZE
    case Test(op, block) => InBudget(s, op, block) && s.ops[op].probe == Outside && !TooBig(s)
    case Insert(op) => op < |s.ops| && s.ops[op].probe.Passed?
    case End(op) => op < |s.ops| && s.ops[op].probe == Outside
    case Committed => s.committing
  }

  function Next(s: State, st: Step): State
    requires Enabled(s, st)
  {
    match st
    case Begin => s.(ops := s.ops + [Op({}, {}, Outside)])
    case Test(op, block) => s.(ops := s.ops[op := s.ops[op].(probe := Passed(block))])
    case Insert(op) =>
      var o, block := s.ops[op], s.ops[op].probe.block;
      if block in s.lh then s.(ops := s.ops[op := Op(o.written + {block}, o.added, Outside)])
      else s.(lh := s.lh + [block], ops := s.ops[op := Op(o.written + {block}, o.added + {block}, Outside)])
    case End(op) =>
      var rest := s.ops[..op] + s.ops[op + 1..];
      s.(ops := rest, committing := rest == [])
    case Committed => s.(lh := [], committing := false)
  }

  /** What the outstanding operations may still add. */
  function Unused(ops: seq<Op>, budget: nat): int
  {
    if ops == [] then 0 else budget - |ops[0].added| + Unused(ops[1..], budget)
  }

  ghost predicate OpOk(o: Op, lh: seq<nat>, budget: nat)
  {
    o.added <= o.written && |o.written| <= budget && (forall b :: b in o.written ==> b in lh) &&
    (o.probe.Passed? ==> |o.written + {o.probe.block}| <= budget)
  }

  /** The most that the log can come to list. begin_op sets aside MAXOPBLOCKS for every operation, so all but
      the first find their unused part of that set aside twice over. */
  function Most(budget: nat): nat { MAXOPBLOCKS + 2 * budget }

  ghost predicate Inv(s: State)
  {
    s.budget <= MAXOPBLOCKS && |s.lh| + Unused(s.ops, s.budget) <= Most(s.budget) && Distinct(s.lh) &&
    (forall i :: 0 <= i < |s.ops| ==> OpOk(s.ops[i], s.lh, s.budget)) &&
    (s.committing ==> s.ops == []) && (s.ops == [] && !s.committing ==> s.lh == [])
  }

  lemma {:induction false} UnusedConcat(a: seq<Op>, b: seq<Op>, budget: nat)
    ensures Unused(a + b, budget) == Unused(a, budget) + Unused(b, budget)
  {
    if a == [] {
      assert a + b == b;
    } else {
      UnusedConcat(a[1..], b, budget);
      assert (a + b)[1..] == a[1..] + b;
    }
  }

  lemma {:induction false} UnusedAt(ops: seq<Op>, i: nat, budget: nat)
    requires i < |ops|
    ensures Unused(ops, budget) == Unused(ops[..i], budget) + (budget - |ops[i].added|) + Unused(ops[i + 1..], budget)
  {
    assert ops == ops[..i] + ([ops[i]] + ops[i + 1..]);
    UnusedConcat(ops[..i], [ops[i]] + ops[i + 1..], budget);
    UnusedConcat([ops[i]], ops[i + 1..], budget);
    assert Unused([ops[i]], budget) == budget - |ops[i].added| + Unused([], budget);
  }

  lemma {:induction false} UnusedBounds(ops: seq<Op>, budget: nat)
    requires forall i :: 0 <= i < |ops| ==> |ops[i].added| <= budget
    ensures 0 <= Unused(ops, budget) <= budget * |ops|
  {
    if ops != [] { UnusedBounds(ops[1..], budget); }
  }

  lemma {:induction false} AddedBounds(s: State)
    requires Inv(s)
    ensures forall i :: 0 <= i < |s.ops| ==> |s.ops[i].added| <= s.budget
  {
    forall i | 0 <= i < |s.ops| ensures |s.ops[i].added| <= s.budget {
      assert OpOk(s.ops[i], s.lh, s.budget);
      SubsetSize(s.ops[i].added, s.ops[i].written);
    }
  }

  /** The promise kept: an operation within its budget always finds room for a block that is not
      logged yet, whatever the others did between its test and its insertion. */
  lemma {:induction false} AppendFits(s: State, op: nat, block: nat)
    requires Inv(s) && InBudget(s, op, block) && block !in s.lh
    ensures |s.lh| < Most(s.budget) <= LOGSIZE
  {
    var o := s.ops[op];
    assert OpOk(o, s.lh, s.budget);
    assert block !in o.written;
    assert |o.written + {block}| == |o.written| + 1;
    SubsetSize(o.added, o.written);
    AddedBounds(s);
    UnusedAt(s.ops, op, s.budget);
    UnusedBounds(s.ops[..op], s.budget);
    UnusedBounds(s.ops[op + 1..], s.budget);
  }

  /** A new operation: if others are outstanding, each of them and the new one were promised MAXOPBLOCKS. */
  lemma {:induction false} BeginKeeps(s: State)
    requires Inv(s) && Enabled(s, Begin)
    ensures Inv(Next(s, Begin))
  {
    var o := Op({}, {}, Outside);
    AddedBounds(s);
    UnusedBounds(s.ops, s.budget);
    UnusedConcat(s.ops, [o], s.budget);
    assert Unused([o], s.budget) == s.budget + Unused([], s.budget);
    assert |s.ops| <= 2;
    assert s.budget * |s.ops| <= if |s.ops| == 0 then 0 else if |s.ops| == 1 then s.budget else 2 * s.budget;
    assert forall i :: 0 <= i < |s.ops| ==> (s.ops + [o])[i] == s.ops[i];
  }

  lemma {:induction false} TestKeeps(s: State, op: nat, block: nat)
    requires Inv(s) && Enabled(s, Test(op, block))
    ensures Inv(Next(s, Test(op, block)))
  {
    var s' := Next(s, Test(op, block));
    UnusedAt(s.ops, op, s.budget);
    UnusedAt(s'.ops, op, s.budget);
    assert s'.ops[..op] == s.ops[..op] && s'.ops[op + 1..] == s.ops[op + 1..];
    forall i | 0 <= i < |s'.ops| ensures OpOk(s'.ops[i], s'.lh, s.budget) {
      assert OpOk(s.ops[i], s.lh, s.budget);
    }
  }

  lemma {:induction false} InsertKeeps(s: State, op: nat)
    requires Inv(s) && Enabled(s, Insert(op))
    ensures Inv(Next(s, Insert(op)))
  {
    var s' := Next(s, Insert(op));
    var o, o', block := s.ops[op], s'.ops[op], s.ops[op].probe.block;
    assert OpOk(o, s.lh, s.budget);
    UnusedAt(s.ops, op, s.budget);
    UnusedAt(s'.ops, op, s.budget);
    assert s'.ops[..op] == s.ops[..op] && s'.ops[op + 1..] == s.ops[op + 1..];
    if block !in s.lh {
      assert block !in o.added;
      assert |o'.added| == |o.added| + 1;
    }
    forall i | 0 <= i < |s'.ops| ensures OpOk(s'.ops[i], s'.lh, s.budget) {
      assert OpOk(s.ops[i], s.lh, s.budget);
    }
  }

  lemma {:induction false} EndKeeps(s: State, op: nat)
    requires Inv(s) && Enabled(s, End(op))
    ensures Inv(Next(s, End(op)))
  {
    AddedBounds(s);
    UnusedAt(s.ops, op, s.budget);
    UnusedConcat(s.ops[..op], s.ops[op + 1..], s.budget);
    assert OpOk(s.ops[op], s.lh, s.budget);
  }

  /** In every interleaving: logged blocks are distinct, log space used plus space still to be used is at most
      MAXOPBLOCKS and twice an operation's budget, and commit begins only when no operation is outstanding. */
  lemma {:induction false} StepKeeps(s: State, st: Step)
    requires Inv(s) && Enabled(s, st)
    ensures Inv(Next(s, st))
  {
    match st
    case Begin => BeginKeeps(s);
    case Test(op, block) => TestKeeps(s, op, block);
    case Insert(op) => InsertKeeps(s, op);
    case End(op) => EndKeeps(s, op);
    case Committed =>
  }

  ghost predicate Run(s: State, steps: seq<Step>, s': State)
    decreases |steps|
  {
    if steps == [] then s == s' else Enabled(s, steps[0]) && Run(Next(s, steps[0]), steps[1..], s')
  }

  lemma {:induction false} RunKeeps(s: State, steps: seq<Step>, s': State)
    requires Inv(s) && Run(s, steps, s')
    ensures Inv(s')
    decreases |steps|
  {
    if steps != [] {
      StepKeeps(s, steps[0]);
      RunKeeps(Next(s, steps[0]), steps[1..], s');
    }
  }

  ghost predicate Reachable(s: State)
  {
    s.budget <= MAXOPBLOCKS && exists steps :: Run(Initial(s.size, s.budget), steps, s)
  }

  lemma {:induction false} ReachableInv(s: State)
    requires Reachable(s)
    ensures Inv(s) && |s.lh| <= Most(s.budget) <= LOGSIZE
  {
    var steps :| Run(Initial(s.size, s.budget), steps, s);
    RunKeeps(Initial(s.size, s.budget), steps, s);
    AddedBounds(s);
    UnusedBounds(s.ops, s.budget);
  }

  lemma {:induction false} RunSnoc(s: State, steps: seq<Step>, s': State, st: Step)
    requires Run(s, steps, s') && Enabled(s', st)
    ensures Run(s, steps + [st], Next(s', st))
    decreases |steps|
  {
    if steps == [] {
      assert [st][1..] == [];
      assert Run(Next(s, st), [], Next(s', st));
    } else {
      RunSnoc(Next(s, steps[0]), steps[1..], s', st);
      assert (steps + [st])[1..] == steps[1..] + [st];
    }
  }

  lemma {:induction false} ReachableNext(s: State, st: Step)
    requires Reachable(s) && Enabled(s, st)
    ensures Reachable(Next(s, st))
  {
    var steps :| Run(Initial(s.size, s.budget), steps, s);
    RunSnoc(Initial(s.size, s.budget), steps, s, st);
  }

  // ----- a run that fills the log with any blocks at all -----

  /** An operation that has logged n blocks from a on, all of them new. */
  ghost function Logged(a: nat, n: nat): Op { Op(Interval(a, a + n), Interval(a, a + n), Outside) }

  /** How many of the last k - MAXOPBLOCKS blocks are operation i's. */
  function Share(budget: nat, k: nat, i: nat): nat
    requires budget > 0
  {
    var j := if k < MAXOPBLOCKS then 0 else k - MAXOPBLOCKS;
    if i == 0 then Min(j, budget - 1) else j - Min(j, budget - 1)
  }

  /** The list is k blocks from base on. Operations that have ended logged the first MAXOPBLOCKS, one each; of
      the two outstanding ones the first, and then the second, logged the others. Either may log one more. */
  ghost function Filled(size: nat, budget: nat, base: nat, k: nat): State
    requires 0 < budget && k + 2 <= Most(budget)
  {
    var n, m := Share(budget, k, 0), Share(budget, k, 1);
    State(size, budget, seq(k, i => base + i),
          [Logged(base + MAXOPBLOCKS, n), Logged(base + MAXOPBLOCKS + budget - 1, m)], false)
  }

  ghost predicate Consecutive(lh: seq<nat>, base: nat) { forall i :: 0 <= i < |lh| ==> lh[i] == base + i }

  /** One operation passes the test and inserts. */
  function LogOne(s: State, op: nat, block: nat): State
    requires Enabled(s, Test(op, block))
  {
    Next(Next(s, Test(op, block)), Insert(op))
  }

  lemma {:induction false} LogOneReachable(s: State, op: nat, block: nat)
    requires Reachable(s) && Enabled(s, Test(op, block))
    ensures Reachable(LogOne(s, op, block))
  {
    hide Reachable;
    ReachableNext(s, Test(op, block));
    ReachableNext(Next(s, Test(op, block)), Insert(op));
  }

  lemma {:induction false} LogOneNew(s: State, op: nat, block: nat)
    requires Enabled(s, Test(op, block)) && block !in s.lh
    ensures var o := s.ops[op];
            LogOne(s, op, block) == s.(lh := s.lh + [block],
                                       ops := s.ops[op := Op(o.written + {block}, o.added + {block}, Outside)])
  {
  }

  /** A block logged by an operation that then ends, its place taken by a new one. */
  lemma {:induction false} Turnover(s: State, block: nat)
    requires Reachable(s) && |s.ops| == 2 && |s.lh| < MAXOPBLOCKS && Enabled(s, Test(1, block)) && block !in s.lh
    requires !s.committing
    ensures Reachable(s.(lh := s.lh + [block], ops := [s.ops[0], Op({}, {}, Outside)]))
  {
    hide Reachable;
    LogOneReachable(s, 1, block);
    var t := LogOne(s, 1, block);
    ReachableNext(t, End(1));
    var u := Next(t, End(1));
    assert u.ops == [s.ops[0]];
    ReachableNext(u, Begin);
    assert Next(u, Begin).ops == [s.ops[0], Op({}, {}, Outside)];
  }

  /** The next block of the operation goes on from its last. */
  lemma {:induction false} LoggedMore(a: nat, n: nat)
    ensures Interval(a, a + n) + {a + n} == Interval(a, a + n + 1) && |Interval(a, a + n) + {a + n}| == n + 1
  {
  }

  /** Both operations may log one more block, and the list is in order. */
  lemma {:induction false} FilledHas(size: nat, budget: nat, base: nat, k: nat)
    requires 0 < budget <= MAXOPBLOCKS && k + 2 <= Most(budget)
    ensures var s := Filled(size, budget, base, k);
            s.size == size && s.budget == budget && |s.ops| == 2 && !s.committing &&
            Consecutive(s.lh, base) && |s.lh| == k && s.ops[0].probe == s.ops[1].probe == Outside &&
            (forall i, b: nat :: 0 <= i < 2 ==> InBudget(s, i, b)) &&
            forall b :: b in s.lh <==> base <= b < base + k
  {
    var s := Filled(size, budget, base, k);
    hide Interval;
    forall i, b: nat | 0 <= i < 2 ensures InBudget(s, i, b) { UnionSize(s.ops[i].written, {b}); }
    forall b | base <= b < base + k ensures b in s.lh { assert s.lh[b - base] == b; }
  }

  lemma {:induction false} FilledEarly(size: nat, budget: nat, base: nat, k: nat)
    requires 0 < budget <= MAXOPBLOCKS && k < MAXOPBLOCKS && k + 1 < size && Reachable(Filled(size, budget, base, k))
    ensures Reachable(Filled(size, budget, base, k + 1))
  {
    hide Reachable, Consecutive;
    var s, s' := Filled(size, budget, base, k), Filled(size, budget, base, k + 1);
    FilledHas(size, budget, base, k);
    assert s.lh + [base + k] == s'.lh;
    assert s'.ops == [s.ops[0], Op({}, {}, Outside)];
    hide Filled;
    Turnover(s, base + k);
  }

  /** The operation that logs the next block, and where its blocks begin. */
  predicate Turn(budget: nat, base: nat, k: nat, op: nat, a: nat)
  {
    k >= MAXOPBLOCKS && op == (if k - MAXOPBLOCKS < budget - 1 then 0 else 1) &&
    a == base + MAXOPBLOCKS + if op == 0 then 0 else budget - 1
  }

  lemma {:induction false} FilledStep(size: nat, budget: nat, base: nat, k: nat, op: nat, a: nat)
    requires 0 < budget && k + 3 <= Most(budget) && Turn(budget, base, k, op, a)
    ensures var s := Filled(size, budget, base, k);
            s.ops[op] == Logged(a, Share(budget, k, op)) && a + Share(budget, k, op) == base + k &&
            Filled(size, budget, base, k + 1) ==
              s.(lh := s.lh + [base + k], ops := s.ops[op := Logged(a, Share(budget, k, op) + 1)])
  {
    hide Logged;
    var s, s' := Filled(size, budget, base, k), Filled(size, budget, base, k + 1);
    assert s.lh + [base + k] == s'.lh;
    assert s.ops[op := Logged(a, Share(budget, k, op) + 1)] == s'.ops;
  }

  lemma {:induction false} FilledLate(size: nat, budget: nat, base: nat, k: nat, op: nat, a: nat)
    requires 0 < budget <= MAXOPBLOCKS && k + 3 <= Most(budget) && k + 1 < size && Turn(budget, base, k, op, a)
    requires Reachable(Filled(size, budget, base, k))
    ensures Reachable(Filled(size, budget, base, k + 1))
  {
    hide Reachable, Consecutive, Interval, Filled, LogOne, Share;
    var s := Filled(size, budget, base, k);
    FilledHas(size, budget, base, k);
    FilledStep(size, budget, base, k, op, a);
    LoggedMore(a, Share(budget, k, op));
    assert InBudget(s, op, base + k);
    LogOneReachable(s, op, base + k);
    LogOneNew(s, op, base + k);
  }

  lemma {:induction false} FilledReachable(size: nat, budget: nat, base: nat, k: nat)
    requires 0 < budget <= MAXOPBLOCKS && k + 2 <= Most(budget) && (k == 0 || k < size)
    ensures Reachable(Filled(size, budget, base, k))
  {
    hide Reachable, Filled;
    if k == 0 {
      FilledStart(size, budget, base);
    } else {
      FilledReachable(size, budget, base, k - 1);
      if k <= MAXOPBLOCKS {
        FilledEarly(size, budget, base, k - 1);
      } else if k - 1 - MAXOPBLOCKS < budget - 1 {
        FilledLate(size, budget, base, k - 1, 0, base + MAXOPBLOCKS);
      } else {
        FilledLate(size, budget, base, k - 1, 1, base + MAXOPBLOCKS + budget - 1);
      }
    }
  }

  lemma {:induction false} FilledStart(size: nat, budget: nat, base: nat)
    requires 0 < budget <= MAXOPBLOCKS
    ensures Reachable(Filled(size, budget, base, 0))
  {
    var s0 := Initial(size, budget);
    assert Run(s0, [], s0);
    hide Reachable;
    ReachableNext(s0, Begin);
    ReachableNext(Next(s0, Begin), Begin);
    assert Interval(base + MAXOPBLOCKS, base + MAXOPBLOCKS) == {};
    assert Interval(base + MAXOPBLOCKS + budget - 1, base + MAXOPBLOCKS + budget - 1) == {};
    assert Next(Next(s0, Begin), Begin) == Filled(size, budget, base, 0);
  }

  /** Both operations pass the test before either inserts. */
  lemma {:induction false} TwoMore(s: State, a: nat, b: nat) returns (t: State)
    requires Reachable(s) && |s.ops| == 2 && s.ops[0].probe == s.ops[1].probe == Outside && !s.committing
    requires InBudget(s, 0, a) && InBudget(s, 1, b) && a !in s.lh && b !in s.lh && a != b && !TooBig(s)
    ensures Reachable(t) && t.size == s.size && t.budget == s.budget && t.lh == s.lh + [a, b] && !t.committing
    ensures |t.ops| == 2 && t.ops[0].probe == t.ops[1].probe == Outside && InBudget(t, 0, a)
  {
    hide Reachable;
    ReachableNext(s, Test(0, a));
    var s1 := Next(s, Test(0, a));
    ReachableNext(s1, Test(1, b));
    var s2 := Next(s1, Test(1, b));
    ReachableNext(s2, Insert(0));
    var s3 := Next(s2, Insert(0));
    ReachableNext(s3, Insert(1));
    t := Next(s3, Insert(1));
    assert t.ops[0].written + {a} == s.ops[0].written + {a};
  }

  lemma {:induction false} BothEnd(s: State) returns (t: State)
    requires Reachable(s) && |s.ops| == 2 && s.ops[0].probe == s.ops[1].probe == Outside
    ensures Reachable(t) && t.size == s.size && t.budget == s.budget && t.lh == s.lh && t.committing
  {
    hide Reachable;
    ReachableNext(s, End(1));
    var u := Next(s, End(1));
    ReachableNext(u, End(0));
    t := Next(u, End(0));
  }

  // ----- when log_write's test stops an operation that is within its budget -----

  /** A log and, behind it, blocks enough to fill any list. */
  predicate OnDisk(g: Geometry, disksize: nat)
  {
    0 < g.size && g.start + g.size + 1 + LOGSIZE <= disksize <= U32
  }

  /** The log can be as in s, with blocks listed that log_write may be given. */
  ghost predicate Occurs(g: Geometry, s: State, disksize: nat)
  {
    Reachable(s) && s.size == g.size && Listed(g, s.lh, disksize)
  }

  /** log_write can be called for the block. */
  ghost predicate Called(g: Geometry, s: State, op: nat, block: nat, disksize: nat)
  {
    Occurs(g, s, disksize) && InBudget(s, op, block) && block < disksize && !InLog(g, block)
  }

  /** The first block that the runs below log: not the one after the log. */
  function First(g: Geometry): nat { g.start + g.size + 1 }

  lemma {:induction false} ConsecutiveListed(g: Geometry, lh: seq<nat>, disksize: nat)
    requires OnDisk(g, disksize) && Consecutive(lh, First(g)) && |lh| <= LOGSIZE
    ensures Listed(g, lh, disksize) && g.start + g.size !in lh
  {
  }

  /** A log too small for the most that can come to be listed: operations within their budgets, having
      passed every test so far, reach a new block that log_write refuses. */
  lemma {:induction false} SmallLogPanics(g: Geometry, budget: nat, disksize: nat)
    returns (s: State, op: nat, block: nat)
    requires OnDisk(g, disksize) && 0 < budget <= MAXOPBLOCKS && g.size <= Most(budget)
    ensures Called(g, s, op, block, disksize) && s.budget == budget && block !in s.lh && TooBig(s)
  {
    hide Reachable, Filled;
    var base, k := First(g), g.size - 1;
    op, block := 1, base + k;
    if k + 2 <= Most(budget) {
      FilledReachable(g.size, budget, base, k);
      FilledHas(g.size, budget, base, k);
      s := Filled(g.size, budget, base, k);
    } else {
      FilledReachable(g.size, budget, base, k - 1);
      FilledHas(g.size, budget, base, k - 1);
      var t := Filled(g.size, budget, base, k - 1);
      LogOneReachable(t, 0, base + k - 1);
      s := LogOne(t, 0, base + k - 1);
      assert InBudget(t, 1, block) && s.ops[1] == t.ops[1];
    }
    assert InBudget(s, op, block);
    ConsecutiveListed(g, s.lh, disksize);
  }

  /** The list can come to Most(budget) blocks, with nobody past a test. */
  lemma {:induction false} FillsUp(g: Geometry, budget: nat, disksize: nat) returns (s: State, block: nat)
    requires OnDisk(g, disksize) && 0 < budget <= MAXOPBLOCKS && g.size >= Most(budget)
    ensures s.budget == budget && Called(g, s, 0, block, disksize) && block in s.lh && |s.lh| == Most(budget)
  {
    hide Reachable, Filled;
    var base, k := First(g), Most(budget) - 2;
    FilledReachable(g.size, budget, base, k);
    FilledHas(g.size, budget, base, k);
    block := base + k;
    s := TwoMore(Filled(g.size, budget, base, k), block, block + 1);
    ConsecutiveListed(g, s.lh, disksize);
    assert s.lh[k] == block;
  }

  /** With operations that use all of their MAXOPBLOCKS, a full log of any size refuses a block that is
      already in it. */
  lemma {:induction false} FullLogRefusesAbsorption(g: Geometry, disksize: nat) returns (s: State, op: nat, block: nat)
    requires OnDisk(g, disksize) && g.size > LOGSIZE
    ensures s.budget == MAXOPBLOCKS && Called(g, s, op, block, disksize) && block in s.lh && TooBig(s)
  {
    op := 0;
    s, block := FillsUp(g, MAXOPBLOCKS, disksize);
  }

  /** With room for LOGSIZE blocks besides the header, exactly the writes that find the log full
      panic, and those are all writes that would have been absorbed. */
  lemma {:induction false} PanicsOnlyWhenFull(s: State, op: nat, block: nat)
    requires Reachable(s) && s.size > LOGSIZE && InBudget(s, op, block)
    ensures TooBig(s) <==> |s.lh| == LOGSIZE
    ensures TooBig(s) ==> block in s.lh
  {
    ReachableInv(s);
    if block !in s.lh { AppendFits(s, op, block); }
  }

  /** New blocks are always accepted from operations within budget, exactly when the log has more blocks than
      can come to be listed. */
  lemma {:induction false} NewBlocksAcceptedIff(g: Geometry, budget: nat, disksize: nat)
    requires OnDisk(g, disksize) && 0 < budget <= MAXOPBLOCKS
    ensures (forall s, op, block :: Called(g, s, op, block, disksize) && s.budget == budget && block !in s.lh ==>
              !TooBig(s))
            <==> g.size > Most(budget)
  {
    if g.size > Most(budget) {
      forall s, op, block | Called(g, s, op, block, disksize) && s.budget == budget && block !in s.lh
        ensures !TooBig(s)
      {
        ReachableInv(s);
        AppendFits(s, op, block);
      }
    } else {
      var _, _, _ := SmallLogPanics(g, budget, disksize);
    }
  }

  /** No call of log_write ever panics, exactly when no operation uses all of its MAXOPBLOCKS and the log has
      room to spare. In the log of 30 blocks that mkfs makes that is when none uses more than 9. */
  lemma {:induction false} NeverPanicsIff(g: Geometry, budget: nat, disksize: nat)
    requires OnDisk(g, disksize) && 0 < budget <= MAXOPBLOCKS
    ensures (forall s, op, block :: Called(g, s, op, block, disksize) && s.budget == budget ==> !TooBig(s))
            <==> budget < MAXOPBLOCKS && g.size > Most(budget) + 1
  {
    if budget < MAXOPBLOCKS && g.size > Most(budget) + 1 {
      forall s, op, block | Called(g, s, op, block, disksize) && s.budget == budget
        ensures !TooBig(s)
      {
        ReachableInv(s);
      }
    } else if g.size <= Most(budget) {
      var _, _, _ := SmallLogPanics(g, budget, disksize);
    } else {
      var _, _ := FillsUp(g, budget, disksize);
    }
  }

  // ----- when the log overflows -----

  /** Two operations that test the size before either inserts both pass with one place left. The log then
      lists as many blocks as it has, header included, and goes on to commit. */
  lemma {:induction false} LogOverflows(g: Geometry, budget: nat, disksize: nat) returns (s: State)
    requires OnDisk(g, disksize) && 0 < budget <= MAXOPBLOCKS && 2 <= g.size <= Most(budget)
    ensures Occurs(g, s, disksize) && s.budget == budget && |s.lh| == g.size && s.committing
    ensures g.start + g.size !in s.lh
  {
    hide Reachable, Filled;
    var base, k := First(g), g.size - 2;
    FilledReachable(g.size, budget, base, k);
    FilledHas(g.size, budget, base, k);
    var t := TwoMore(Filled(g.size, budget, base, k), base + k, base + k + 1);
    s := BothEnd(t);
    ConsecutiveListed(g, s.lh, disksize);
  }

  /** In a log of one block, which is its header, no test passes. */
  lemma {:induction false} EmptyLogRun(s: State, steps: seq<Step>, s': State)
    requires s.size <= 1 && s.lh == [] && (forall i :: 0 <= i < |s.ops| ==> s.ops[i].probe == Outside)
    requires Run(s, steps, s')
    ensures s'.lh == []
    decreases |steps|
  {
    if steps != [] {
      var t := Next(s, steps[0]);
      assert t.lh == [] && forall i :: 0 <= i < |t.ops| ==> t.ops[i].probe == Outside;
      EmptyLogRun(t, steps[1..], s');
    }
  }

  /** The log never holds more than fits behind its header, exactly when it has more blocks than can come to be
      listed, or only the header. */
  lemma {:induction false} LogStaysInsideIff(g: Geometry, budget: nat, disksize: nat)
    requires OnDisk(g, disksize) && 0 < budget <= MAXOPBLOCKS
    ensures (forall s :: Occurs(g, s, disksize) && s.budget == budget ==> |s.lh| < g.size)
            <==> g.size > Most(budget) || g.size == 1
  {
    if g.size > Most(budget) || g.size == 1 {
      forall s | Occurs(g, s, disksize) && s.budget == budget ensures |s.lh| < g.size {
        ReachableInv(s);
        if g.size == 1 {
          var steps :| Run(Initial(s.size, s.budget), steps, s);
          EmptyLogRun(Initial(s.size, s.budget), steps, s);
        }
      }
    } else {
      var _ := LogOverflows(g, budget, disksize);
    }
  }

  /** And then what such a commit does: a crash before write_head leaves the block after the log neither as it
      was nor as the transaction would have it. */
  lemma {:induction false} OverflowDamages(d: Disk, g: Geometry, budget: nat) returns (s: State)
    requires Clean(d, g, d) && OnDisk(g, |d|) && 0 < budget <= MAXOPBLOCKS && 2 <= g.size <= Most(budget)
    ensures Occurs(g, s, |d|) && s.budget == budget && s.committing && |s.lh| == g.size
    ensures forall c: seq<Block> :: |c| == |s.lh| && c[g.size - 1] != d[g.start + g.size] ==> Damaged(d, g, s.lh, c)
  {
    s := LogOverflows(g, budget, |d|);
    forall c: seq<Block> | |c| == |s.lh| && c[g.size - 1] != d[g.start + g.size]
      ensures Damaged(d, g, s.lh, c)
    {
      OverfullLogDamages(d, g, s.lh, c);
    }
  }
}
