/** log.c on the disk alone: what each write of commit and of recovery leaves behind. */
module Journal {
  import opened Params
  import opened SetSizes
  import opened DiskBlocks

  type Disk = seq<Block>

  /** sb.logstart and sb.nlog: a header block followed by size - 1 log blocks. */
  datatype Geometry = Geometry(start: nat, size: nat)

  predicate InLog(g: Geometry, b: nat) { g.start <= b < g.start + g.size }

  /** Blocks that log_write may have listed: distinct, on the disk, and not part of the log itself. */
  ghost predicate Listed(g: Geometry, lh: seq<nat>, disksize: nat)
  {
    |lh| <= LOGSIZE && 0 < g.size && g.start + g.size <= disksize <= U32 &&
    (forall i :: 0 <= i < |lh| ==> lh[i] < disksize && !InLog(g, lh[i])) && Distinct(lh)
  }

  /** And no more of them than there are log blocks behind the header. */
  ghost predicate Loggable(g: Geometry, lh: seq<nat>, disksize: nat) { Listed(g, lh, disksize) && |lh| < g.size }

  // ----- the header block -----

  function SetEntries(b: Block, lh: seq<nat>, k: nat): (b': Block)
    requires k <= |lh| <= LOGSIZE && forall i :: 0 <= i < |lh| ==> lh[i] < U32
  {
    if k == 0 then b else Set32(SetEntries(b, lh, k - 1), k, lh[k - 1])
  }

  /** hb->n = n; hb->block[i] = block[i]: words past the n-th keep what the block held. */
  function Encode(b: Block, lh: seq<nat>): (b': Block)
    requires |lh| <= LOGSIZE && forall i :: 0 <= i < |lh| ==> lh[i] < U32
  {
    SetEntries(Set32(b, 0, |lh|), lh, |lh|)
  }

  function Decode(b: Block): seq<nat>
    requires Get32(b, 0) <= LOGSIZE
  {
    seq(Get32(b, 0), i requires 0 <= i < Get32(b, 0) => Get32(b, 1 + i))
  }

  lemma {:induction false} EntriesRoundTrip(b: Block, lh: seq<nat>, k: nat, j: nat)
    requires k <= |lh| <= LOGSIZE && (forall i :: 0 <= i < |lh| ==> lh[i] < U32) && j < WORDS
    ensures Get32(SetEntries(b, lh, k), j) == if 1 <= j <= k then lh[j - 1] else Get32(b, j)
  {
    if k > 0 {
      EntriesRoundTrip(b, lh, k - 1, j);
      Get32Set32(SetEntries(b, lh, k - 1), k, lh[k - 1], j);
    }
  }

  /** The header written by write_head is the header read_head gets back. */
  lemma {:induction false} HeaderRoundTrip(b: Block, lh: seq<nat>)
    requires |lh| <= LOGSIZE && forall i :: 0 <= i < |lh| ==> lh[i] < U32
    ensures Get32(Encode(b, lh), 0) == |lh| && Decode(Encode(b, lh)) == lh
  {
    var b0 := Set32(b, 0, |lh|);
    Get32Set32(b, 0, |lh|, 0);
    EntriesRoundTrip(b0, lh, |lh|, 0);
    forall i | 0 <= i < |lh| ensures Get32(Encode(b, lh), 1 + i) == lh[i] {
      EntriesRoundTrip(b0, lh, |lh|, 1 + i);
    }
  }

  // ----- one disk write at a time -----

  function WriteHead(d: Disk, g: Geometry, lh: seq<nat>): Disk
    requires g.start < |d| && |lh| <= LOGSIZE && forall i :: 0 <= i < |lh| ==> lh[i] < U32
  {
    d[g.start := Encode(d[g.start], lh)]
  }

  /** write_log after k of its writes; c[i] is the cached contents of block lh[i]. Nothing in it looks at the
      size of the log. */
  function WriteLog(d: Disk, g: Geometry, c: seq<Block>, k: nat): (d': Disk)
    requires k <= |c| && g.start + |c| < |d|
    ensures |d'| == |d|
  {
    if k == 0 then d else WriteLog(d, g, c, k - 1)[g.start + k := c[k - 1]]
  }

  /** install_trans after k of its writes. */
  function Install(d: Disk, g: Geometry, lh: seq<nat>, k: nat): (d': Disk)
    requires k <= |lh| && Loggable(g, lh, |d|)
    ensures |d'| == |d|
  {
    if k == 0 then d else var e := Install(d, g, lh, k - 1); e[lh[k - 1] := e[g.start + k]]
  }

  /** commit, stopped after k of its 2n + 2 disk writes. */
  function CommitState(d: Disk, g: Geometry, lh: seq<nat>, c: seq<Block>, k: nat): (d': Disk)
    requires Loggable(g, lh, |d|) && |c| == |lh| && k <= 2 * |lh| + 2
    ensures |d'| == |d|
  {
    var n := |lh|;
    if k <= n then WriteLog(d, g, c, k)
    else
      var committed := WriteHead(WriteLog(d, g, c, n), g, lh);
      if k <= 2 * n + 1 then Install(committed, g, lh, k - n - 1)
      else WriteHead(Install(committed, g, lh, n), g, [])
  }

  ghost predicate HeaderOk(d: Disk, g: Geometry)
  {
    g.start < |d| && Get32(d[g.start], 0) <= LOGSIZE && Loggable(g, Decode(d[g.start]), |d|)
  }

  /** recover_from_log, stopped after k of its n + 1 disk writes, or finished. */
  ghost function RecoverState(d: Disk, g: Geometry, k: nat): (d': Disk)
    requires HeaderOk(d, g)
    ensures |d'| == |d|
  {
    var lh := Decode(d[g.start]);
    if k <= |lh| then Install(d, g, lh, k) else WriteHead(Install(d, g, lh, |lh|), g, [])
  }

  ghost function Recovered(d: Disk, g: Geometry): (d': Disk)
    requires HeaderOk(d, g)
    ensures |d'| == |d|
  {
    RecoverState(d, g, |Decode(d[g.start])| + 1)
  }

  // ----- before and after -----

  ghost predicate SameHome(d: Disk, e: Disk, g: Geometry)
  {
    |d| == |e| && forall b :: 0 <= b < |d| && !InLog(g, b) ==> d[b] == e[b]
  }

  /** The disk with the whole transaction applied. */
  function Applied(d: Disk, lh: seq<nat>, c: seq<Block>, k: nat): (d': Disk)
    requires k <= |lh| == |c| && forall i :: 0 <= i < |lh| ==> lh[i] < |d|
    ensures |d'| == |d|
  {
    if k == 0 then d else Applied(d, lh, c, k - 1)[lh[k - 1] := c[k - 1]]
  }

  /** No transaction in the log; the home blocks are h's. */
  ghost predicate Clean(d: Disk, g: Geometry, h: Disk)
  {
    g.start + g.size <= |d| <= U32 && 0 < g.size && Get32(d[g.start], 0) == 0 && SameHome(d, h, g)
  }

  /** Transaction lh, c is in the log; home blocks outside it are h's, those in it are old or new. */
  ghost predicate Committed(d: Disk, g: Geometry, h: Disk, lh: seq<nat>, c: seq<Block>)
  {
    |d| == |h| && |c| == |lh| && Loggable(g, lh, |d|) &&
    Get32(d[g.start], 0) == |lh| && Decode(d[g.start]) == lh &&
    (forall i :: 0 <= i < |lh| ==> d[g.start + 1 + i] == c[i]) &&
    (forall b :: 0 <= b < |d| && !InLog(g, b) && b !in lh ==> d[b] == h[b])
  }

  lemma {:induction false} WriteLogEffect(d: Disk, g: Geometry, c: seq<Block>, k: nat, b: nat)
    requires k <= |c| && g.start + |c| < |d| && b < |d|
    ensures WriteLog(d, g, c, k)[b] == if g.start < b <= g.start + k then c[b - g.start - 1] else d[b]
  {
    if k > 0 { WriteLogEffect(d, g, c, k - 1, b); }
  }

  lemma {:induction false} AppliedEffect(d: Disk, lh: seq<nat>, c: seq<Block>, k: nat, b: nat)
    requires k <= |lh| == |c| && (forall i :: 0 <= i < |lh| ==> lh[i] < |d|) && b < |d|
    requires Distinct(lh)
    ensures b !in lh[..k] ==> Applied(d, lh, c, k)[b] == d[b]
    ensures forall i :: 0 <= i < k && lh[i] == b ==> Applied(d, lh, c, k)[b] == c[i]
  {
    if k > 0 {
      AppliedEffect(d, lh, c, k - 1, b);
      assert lh[..k] == lh[..k - 1] + [lh[k - 1]];
    }
  }

  /** install_trans, k blocks in: those k are new, every other block is untouched. */
  lemma {:induction false} InstallEffect(d: Disk, g: Geometry, lh: seq<nat>, k: nat, b: nat)
    requires k <= |lh| && Loggable(g, lh, |d|) && b < |d|
    ensures b !in lh[..k] ==> Install(d, g, lh, k)[b] == d[b]
    ensures forall i :: 0 <= i < k && lh[i] == b ==> Install(d, g, lh, k)[b] == d[g.start + 1 + i]
  {
    if k > 0 {
      InstallEffect(d, g, lh, k - 1, b);
      InstallEffect(d, g, lh, k - 1, g.start + k);
      assert lh[..k] == lh[..k - 1] + [lh[k - 1]];
      assert forall i :: 0 <= i < k - 1 ==> lh[i] != g.start + k;
    }
  }

  lemma {:induction false} InstallCommitted(d: Disk, g: Geometry, h: Disk, lh: seq<nat>, c: seq<Block>, k: nat)
    requires Committed(d, g, h, lh, c) && k <= |lh|
    ensures Committed(Install(d, g, lh, k), g, h, lh, c)
  {
    var e := Install(d, g, lh, k);
    forall b | 0 <= b < |d| && b !in lh ensures e[b] == d[b] {
      InstallEffect(d, g, lh, k, b);
    }
    assert forall i :: 0 <= i < |lh| ==> !InLog(g, lh[i]);
    assert g.start !in lh;
  }

  /** Installing all of a committed transaction gives its home blocks their new contents. */
  lemma {:induction false} InstallAll(d: Disk, g: Geometry, h: Disk, lh: seq<nat>, c: seq<Block>)
    requires Committed(d, g, h, lh, c)
    ensures SameHome(Install(d, g, lh, |lh|), Applied(h, lh, c, |lh|), g)
  {
    var e := Install(d, g, lh, |lh|);
    assert lh[..|lh|] == lh;
    forall b | 0 <= b < |d| && !InLog(g, b) ensures e[b] == Applied(h, lh, c, |lh|)[b] {
      InstallEffect(d, g, lh, |lh|, b);
      AppliedEffect(h, lh, c, |lh|, b);
      if b in lh {
        var i :| 0 <= i < |lh| && lh[i] == b;
      }
    }
  }

  // ----- crashes -----

  /** The disk at the commit point: header and log blocks written, every home block untouched. */
  lemma {:induction false} CommitHead(d: Disk, g: Geometry, lh: seq<nat>, c: seq<Block>, b: nat)
    requires Loggable(g, lh, |d|) && |c| == |lh| && b < |d|
    ensures WriteHead(WriteLog(d, g, c, |lh|), g, lh)[b] ==
            if b == g.start then Encode(d[b], lh) else if g.start < b <= g.start + |lh| then c[b - g.start - 1]
              else d[b]
  {
    hide Encode, Loggable;
    assert |lh| < g.size && g.start + g.size <= |d| by { LoggableFits(g, lh, |d|); }
    WriteLogEffect(d, g, c, |lh|, b);
  }

  lemma {:induction false} LoggableFits(g: Geometry, lh: seq<nat>, disksize: nat)
    requires Loggable(g, lh, disksize)
    ensures |lh| <= LOGSIZE && |lh| < g.size && g.start + g.size <= disksize
  {
  }

  lemma {:induction false} CommitHeadCommitted(d: Disk, g: Geometry, lh: seq<nat>, c: seq<Block>)
    requires Clean(d, g, d) && Loggable(g, lh, |d|) && |c| == |lh|
    ensures Committed(WriteHead(WriteLog(d, g, c, |lh|), g, lh), g, d, lh, c)
  {
    hide Get32, Encode, Decode;
    var e := WriteHead(WriteLog(d, g, c, |lh|), g, lh);
    CommitHead(d, g, lh, c, g.start);
    HeaderRoundTrip(d[g.start], lh);
    forall i | 0 <= i < |lh| ensures e[g.start + 1 + i] == c[i] {
      CommitHead(d, g, lh, c, g.start + 1 + i);
    }
    forall b | 0 <= b < |d| && !InLog(g, b) ensures e[b] == d[b] {
      CommitHead(d, g, lh, c, b);
    }
  }

  /** Every disk that commit can leave behind: the old home blocks with nothing in the log, the whole
      transaction in the log, or the new home blocks with nothing in the log. */
  lemma {:induction false} CommitPoint(d: Disk, g: Geometry, lh: seq<nat>, c: seq<Block>, k: nat)
    requires Clean(d, g, d) && Loggable(g, lh, |d|) && |c| == |lh| && k <= 2 * |lh| + 2
    ensures var e := CommitState(d, g, lh, c, k);
            if k <= |lh| then Clean(e, g, d)
            else if k <= 2 * |lh| + 1 then Committed(e, g, d, lh, c)
            else Clean(e, g, Applied(d, lh, c, |lh|))
  {
    hide Get32, Set32, Encode, Decode;
    var n := |lh|;
    if k <= n {
      forall b | 0 <= b < |d| && (b == g.start || !InLog(g, b)) ensures WriteLog(d, g, c, k)[b] == d[b] {
        WriteLogEffect(d, g, c, k, b);
      }
    } else {
      var committed := WriteHead(WriteLog(d, g, c, n), g, lh);
      CommitHeadCommitted(d, g, lh, c);
      if k <= 2 * n + 1 {
        InstallCommitted(committed, g, d, lh, c, k - n - 1);
      } else {
        InstallCommitted(committed, g, d, lh, c, n);
        ClearCommitted(committed, g, d, lh, c);
      }
    }
  }

  /** Clearing the header after the last install ends the transaction. */
  lemma {:induction false} ClearCommitted(d: Disk, g: Geometry, h: Disk, lh: seq<nat>, c: seq<Block>)
    requires Committed(d, g, h, lh, c)
    ensures Clean(WriteHead(Install(d, g, lh, |lh|), g, []), g, Applied(h, lh, c, |lh|))
  {
    var e := Install(d, g, lh, |lh|);
    InstallAll(d, g, h, lh, c);
    HeaderRoundTrip(e[g.start], []);
  }

  /** One attempt at recovery, cut short after any number of writes, loses nothing. */
  lemma {:induction false} RecoveryPoint(d: Disk, g: Geometry, h: Disk, lh: seq<nat>, c: seq<Block>, k: nat)
    requires Committed(d, g, h, lh, c)
    ensures HeaderOk(d, g)
    ensures k <= |lh| ==> Committed(RecoverState(d, g, k), g, h, lh, c)
    ensures k > |lh| ==> Clean(RecoverState(d, g, k), g, Applied(h, lh, c, |lh|))
  {
    if k <= |lh| { InstallCommitted(d, g, h, lh, c, k); } else { ClearCommitted(d, g, h, lh, c); }
  }

  lemma {:induction false} RecoveryOfClean(d: Disk, g: Geometry, h: Disk, k: nat)
    requires Clean(d, g, h)
    ensures HeaderOk(d, g) && Clean(RecoverState(d, g, k), g, h)
  {
    assert Decode(d[g.start]) == [];
    HeaderRoundTrip(d[g.start], []);
  }

  /** Reboot again and again, the i-th attempt at recovery crashing after ks[i] disk writes. */
  ghost function Reboots(d: Disk, g: Geometry, ks: seq<nat>): (d': Disk)
    decreases |ks|
  {
    if ks == [] || !HeaderOk(d, g) then d else Reboots(RecoverState(d, g, ks[0]), g, ks[1..])
  }

  lemma {:induction false} RebootsClean(d: Disk, g: Geometry, h: Disk, ks: seq<nat>)
    requires Clean(d, g, h)
    ensures Clean(Reboots(d, g, ks), g, h)
    decreases |ks|
  {
    if ks != [] {
      RecoveryOfClean(d, g, h, ks[0]);
      RebootsClean(RecoverState(d, g, ks[0]), g, h, ks[1..]);
    }
  }

  lemma {:induction false} RebootsCommitted(d: Disk, g: Geometry, h: Disk, lh: seq<nat>, c: seq<Block>, ks: seq<nat>)
    requires Committed(d, g, h, lh, c)
    ensures Committed(Reboots(d, g, ks), g, h, lh, c) || Clean(Reboots(d, g, ks), g, Applied(h, lh, c, |lh|))
    decreases |ks|
  {
    if ks != [] {
      RecoveryPoint(d, g, h, lh, c, ks[0]);
      if ks[0] <= |lh| {
        RebootsCommitted(RecoverState(d, g, ks[0]), g, h, lh, c, ks[1..]);
      } else {
        RebootsClean(RecoverState(d, g, ks[0]), g, Applied(h, lh, c, |lh|), ks[1..]);
      }
    }
  }

  /** Crash atomicity. Stop commit after any k of its disk writes, then crash any number of times in
      recovery, each time after any number of writes: the recovery that finishes leaves the home
      blocks exactly as before the transaction if write_head had not run, and exactly as after it
      otherwise, with an empty log either way. */
  lemma {:induction false} CrashAtomic(d: Disk, g: Geometry, lh: seq<nat>, c: seq<Block>, k: nat, ks: seq<nat>)
    requires Clean(d, g, d) && Loggable(g, lh, |d|) && |c| == |lh| && k <= 2 * |lh| + 2
    ensures var crashed := Reboots(CommitState(d, g, lh, c, k), g, ks);
            HeaderOk(crashed, g) &&
            Clean(Recovered(crashed, g), g, if k <= |lh| then d else Applied(d, lh, c, |lh|))
  {
    var e := CommitState(d, g, lh, c, k);
    var h := if k <= |lh| then d else Applied(d, lh, c, |lh|);
    CommitPoint(d, g, lh, c, k);
    if k <= |lh| || k > 2 * |lh| + 1 {
      RebootsClean(e, g, h, ks);
    } else {
      RebootsCommitted(e, g, d, lh, c, ks);
    }
    var crashed := Reboots(e, g, ks);
    if Clean(crashed, g, h) {
      RecoveryOfClean(crashed, g, h, |Decode(crashed[g.start])| + 1);
    } else {
      RecoveryPoint(crashed, g, d, lh, c, |lh| + 1);
    }
  }

  /** A crash between write_log and write_head, and recovery, leave the block after the log neither as it was
      nor as the transaction would have it. */
  ghost predicate Damaged(d: Disk, g: Geometry, lh: seq<nat>, c: seq<Block>)
    requires |c| == |lh| && g.start + |lh| < |d| && g.start + g.size < |d|
    requires forall i :: 0 <= i < |lh| ==> lh[i] < |d|
  {
    var crashed, b := WriteLog(d, g, c, |lh|), g.start + g.size;
    HeaderOk(crashed, g) && Recovered(crashed, g)[b] != d[b] && Recovered(crashed, g)[b] != Applied(d, lh, c, |lh|)[b]
  }

  /** With as many blocks listed as the log has, header included, write_log runs over the block after the log. */
  lemma {:induction false} OverfullLogDamages(d: Disk, g: Geometry, lh: seq<nat>, c: seq<Block>)
    requires Clean(d, g, d) && Listed(g, lh, |d|) && |c| == |lh| >= g.size && g.start + |lh| < |d|
    requires g.start + g.size !in lh && c[g.size - 1] != d[g.start + g.size]
    ensures Damaged(d, g, lh, c)
  {
    var crashed, b := WriteLog(d, g, c, |lh|), g.start + g.size;
    WriteLogEffect(d, g, c, |lh|, b);
    WriteLogEffect(d, g, c, |lh|, g.start);
    assert lh[..|lh|] == lh;
    AppliedEffect(d, lh, c, |lh|, b);
    assert Decode(crashed[g.start]) == [];
  }
}
