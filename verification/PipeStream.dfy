/** A pipe as a stream of bytes. A step is one stretch of code under the pipe's lock, from acquiring it to
  releasing it or sleeping. */
module PipeStream {
  import opened Params
  const PIPESIZE: nat := 512

  datatype Stream = Stream(written: seq<Byte>, taken: nat, readopen: bool, writeopen: bool,
                           readers: set<nat>, writers: set<nat>)    // asleep on &nread and &nwrite

  datatype Event =
    | Write(pid: nat, src: seq<Byte>, killed: bool)   // pipewrite, with what is left to write
    | Read(pid: nat, n: nat, killed: bool)            // piperead
    | Close(writable: bool)                           // pipeclose
    | Rouse(pid: nat)                                 // kill wakes a sleeper

  predicate Fits(s: Stream) { s.taken <= |s.written| <= s.taken + PIPESIZE }

  predicate Empty(s: Stream) { s.taken == |s.written| }

  predicate Full(s: Stream) { s.taken + PIPESIZE == |s.written| }

  /** How many bytes the step can write before the pipe is full, and read before it is empty. */
  function Written(s: Stream, n: nat): nat
    requires Fits(s)
  {
    Min(n, s.taken + PIPESIZE - |s.written|)
  }

  function Taken(s: Stream, n: nat): nat
    requires Fits(s)
  {
    Min(n, |s.written| - s.taken)
  }

  function Step(s: Stream, e: Event): Stream
    requires Fits(s)
  {
    match e
    case Write(pid, src, killed) =>
      var k := Written(s, |src|);
      var s' := s.(written := s.written + src[..k]);
      if k == |src| then s'.(readers := {})
      else if !s.readopen || killed then s'
      else s'.(readers := {}, writers := s.writers + {pid})
    case Read(pid, n, killed) =>
      if Empty(s) && s.writeopen then (if killed then s else s.(readers := s.readers + {pid}))
      else s.(taken := s.taken + Taken(s, n), writers := {})
    case Close(writable) =>
      if writable then s.(writeopen := false, readers := {}) else s.(readopen := false, writers := {})
    case Rouse(pid) => s.(readers := s.readers - {pid}, writers := s.writers - {pid})
  }

  /** A process asleep runs nothing, and keeps its end of the pipe open. */
  predicate Enabled(s: Stream, e: Event)
  {
    match e
    case Write(pid, _, _) => s.writeopen && pid !in s.readers + s.writers
    case Read(pid, _, _) => s.readopen && pid !in s.readers + s.writers
    case Close(writable) => if writable then s.writeopen && s.writers == {} else s.readopen && s.readers == {}
    case Rouse(_) => true
  }

  /** Between steps: a sleeping writer finds the pipe full. */
  predicate Inv(s: Stream)
  {
    Fits(s) && (s.writers != {} ==> Full(s) && s.readopen && s.writeopen) && (s.readers != {} ==> s.readopen)
  }

  /** A sleeping reader finds it empty. */
  predicate ReadersRight(s: Stream) { s.readers != {} ==> Empty(s) && s.writeopen }

  /** pipewrite's return when killed: bytes have gone in, and the sleeping readers are not told. */
  predicate LosesWakeup(s: Stream, e: Event)
    requires Fits(s)
  {
    e.Write? && Written(s, |e.src|) < |e.src| && e.killed && s.readers != {} && !Full(s)
  }

  lemma {:induction false} StepKeeps(s: Stream, e: Event)
    requires Inv(s) && Enabled(s, e)
    ensures Inv(Step(s, e))
  {
  }

  /** A step leaves a reader asleep beside bytes exactly when it is that return. */
  lemma {:induction false} ReadersRightIff(s: Stream, e: Event)
    requires Inv(s) && Enabled(s, e) && ReadersRight(s)
    ensures ReadersRight(Step(s, e)) <==> !LosesWakeup(s, e)
  {
  }

  // ----- runs -----

  datatype Run = Start | Then(before: Run, e: Event)

  function NewPipe(): Stream { Stream([], 0, true, true, {}, {}) }

  ghost predicate Possible(run: Run)
  {
    run.Then? ==> Possible(run.before) && Fits(After(run.before)) && Enabled(After(run.before), run.e)
  }

  ghost function After(run: Run): Stream
  {
    if run.Start? then NewPipe() else var s := After(run.before); if Fits(s) then Step(s, run.e) else s
  }

  /** All the bytes that the writes of a run put in, and those that its reads returned. */
  ghost function Sent(run: Run): seq<Byte>
  {
    if run.Start? then []
    else var s := After(run.before);
      Sent(run.before) + if run.e.Write? && Fits(s) then run.e.src[..Written(s, |run.e.src|)] else []
  }

  ghost function Received(run: Run): seq<Byte>
  {
    if run.Start? then []
    else Received(run.before) + Output(After(run.before), run.e)
  }

  /** What a step hands to its caller. */
  function Output(s: Stream, e: Event): seq<Byte>
  {
    if e.Read? && Fits(s) && !(Empty(s) && s.writeopen) then s.written[s.taken..s.taken + Taken(s, e.n)] else []
  }

  ghost predicate Lost(run: Run)
  {
    run.Then? && (Lost(run.before) || (Fits(After(run.before)) && LosesWakeup(After(run.before), run.e)))
  }

  /** In every interleaving: what has been read is a prefix of what has been written, at most 512 bytes
      behind; a sleeping writer finds the pipe full; and a sleeping reader finds it empty, unless a killed
      writer has returned without waking it. */
  lemma {:induction false} StreamInOrder(run: Run)
    requires Possible(run)
    ensures Inv(After(run)) && After(run).written == Sent(run) && Received(run) == Sent(run)[..After(run).taken]
    ensures |Received(run)| <= |Sent(run)| <= |Received(run)| + PIPESIZE
    ensures !Lost(run) ==> ReadersRight(After(run))
  {
    if run.Then? {
      StreamInOrder(run.before);
      var s := After(run.before);
      StepKeeps(s, run.e);
      if ReadersRight(s) { ReadersRightIff(s, run.e); }
      StepBytes(s, run.e);
    }
  }

  lemma {:induction false} StepBytes(s: Stream, e: Event)
    requires Fits(s)
    ensures Step(s, e).written == s.written + if e.Write? then e.src[..Written(s, |e.src|)] else []
    ensures Fits(Step(s, e)) && Step(s, e).written[..Step(s, e).taken] == s.written[..s.taken] + Output(s, e)
  {
    assert e.Read? && !(Empty(s) && s.writeopen) ==>
      s.written[..s.taken + Taken(s, e.n)] == s.written[..s.taken] + s.written[s.taken..s.taken + Taken(s, e.n)];
  }

  /** What a write puts in: as many of its bytes as there is room for. The writer then returns, or sleeps if bytes are
      left and it may. */
  lemma {:induction false} WriteAdds(run: Run, pid: nat, src: seq<Byte>, killed: bool)
    requires Possible(Then(run, Write(pid, src, killed)))
    ensures |Received(run)| <= |Sent(run)| <= |Received(run)| + 512
    ensures var s, run' := After(run), Then(run, Write(pid, src, killed));
            var s', unread := After(run'), |Sent(run)| - |Received(run)|;
            var k := Min(|src|, 512 - unread);
            Sent(run') == Sent(run) + src[..k] && Received(run') == Received(run) &&
            (pid in s'.writers <==> k < |src| && s.readopen && !killed) &&
            s'.writers - {pid} == s.writers &&
            s'.readers == if k < |src| && (!s.readopen || killed) then s.readers else {}
  {
    StreamInOrder(run);
    StreamInOrder(Then(run, Write(pid, src, killed)));
  }

  /** What a read returns: the oldest bytes not yet read, as many as it asks for or as there are. It sleeps exactly on
      an empty pipe that can still be written to, unless killed. */
  lemma {:induction false} ReadAdds(run: Run, pid: nat, n: nat, killed: bool)
    requires Possible(Then(run, Read(pid, n, killed)))
    ensures var s, run' := After(run), Then(run, Read(pid, n, killed));
            var s', from := After(run'), |Received(run)|;
            var waits := from == |Sent(run)| && s.writeopen;
            from <= |Sent(run)| && Sent(run') == Sent(run) &&
            Received(run') == Received(run) + Sent(run)[from..from + Min(n, |Sent(run)| - from)] &&
            (pid in s'.readers <==> waits && !killed) && s'.readers - {pid} == s.readers &&
            s'.writers == if waits then s.writers else {}
  {
    StreamInOrder(run);
    StreamInOrder(Then(run, Read(pid, n, killed)));
  }

  /** Closing an end wakes the sleepers at the other; kill wakes one process; neither moves a byte. */
  lemma {:induction false} OthersWake(run: Run, e: Event)
    requires Possible(Then(run, e)) && (e.Close? || e.Rouse?)
    ensures var s, s' := After(run), After(Then(run, e));
            Sent(Then(run, e)) == Sent(run) && Received(Then(run, e)) == Received(run) &&
            (e == Close(true) ==> s'.readers == {} && s'.writers == s.writers && !s'.writeopen) &&
            (e == Close(false) ==> s'.writers == {} && s'.readers == s.readers && !s'.readopen) &&
            (e != Close(true) ==> s'.writeopen == s.writeopen) && (e != Close(false) ==> s'.readopen == s.readopen) &&
            (e.Rouse? ==> s'.readers == s.readers - {e.pid} && s'.writers == s.writers - {e.pid})
  {
    StreamInOrder(run);
  }

  /** It does happen: the reader sleeps, a writer fills the pipe and is killed, and the pipe stays full with
      the reader asleep. */
  lemma {:induction false} ReaderLeftAsleep(b: Byte)
    ensures var run := Then(Then(Start, Read(1, 1, false)), Write(2, seq(PIPESIZE + 1, _ => b), true));
            Possible(run) && Lost(run) && Full(After(run)) && After(run).readers == {1}
  {
    var src := seq(PIPESIZE + 1, _ => b);
    var r1 := Then(Start, Read(1, 1, false));
    var s1 := After(r1);
    assert After(Start) == NewPipe();
    assert s1 == NewPipe().(readers := {1});
    assert Written(s1, |src|) == PIPESIZE;
    assert Possible(r1) by { assert Possible(Start); }
    var run := Then(r1, Write(2, src, true));
    assert Possible(run);
    assert After(run) == Step(s1, run.e);
    assert LosesWakeup(s1, run.e);
  }
}
