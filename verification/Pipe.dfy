/** pipe.c: the stream kept in a ring of 512 bytes, with counters that wrap at 32 bits. */
module Pipe {
  import opened Params
  import opened PipeStream

  datatype Result = Returned(value: int) | Slept

  class Pipe {
    const data: array<Byte>
    var nread: nat
    var nwrite: nat
    var readopen: bool
    var writeopen: bool
    var readers: set<nat>              // processes asleep on &nread
    var writers: set<nat>              // and on &nwrite
    ghost var written: seq<Byte>
    ghost var taken: nat

    ghost function View(): Stream
      reads this
    {
      Stream(written, taken, readopen, writeopen, readers, writers)
    }

    /** The counters count modulo 2^32, and the ring holds the bytes not yet read. */
    ghost predicate Valid()
      reads this, data
    {
      data.Length == PIPESIZE && Fits(View()) && nwrite == |written| % U32 && nread == taken % U32 &&
      forall k: nat :: taken <= k < |written| ==> data[k % PIPESIZE] == written[k]
    }

    /** pipealloc */
    constructor ()
      ensures Valid() && View() == NewPipe() && fresh(data)
    {
      data := new Byte[PIPESIZE];
      nread, nwrite, readopen, writeopen, readers, writers := 0, 0, true, true, {}, {};
      written, taken := [], 0;
    }

    /** p->data[p->nwrite++ % PIPESIZE] = b */
    method Put(b: Byte)
      requires Valid() && !Full(View())
      modifies this`nwrite, this`written, data
      ensures Valid() && written == old(written) + [b]
    {
      WrapSlot(|written|);
      forall k: nat | taken <= k < |written| ensures k % PIPESIZE != |written| % PIPESIZE { OtherSlot(k, |written|); }
      data[nwrite % PIPESIZE] := b;
      nwrite := (nwrite + 1) % U32;
      written := written + [b];
    }

    /** addr[i] = p->data[p->nread++ % PIPESIZE] */
    method Get() returns (b: Byte)
      requires Valid() && !Empty(View())
      modifies this`nread, this`taken
      ensures Valid() && taken == old(taken) + 1 && b == written[old(taken)]
    {
      WrapSlot(taken);
      b := data[nread % PIPESIZE];
      nread := (nread + 1) % U32;
      taken := taken + 1;
    }

    /** pipewrite under the lock, with src left to write. */
    method Write(pid: nat, src: seq<Byte>, killed: bool) returns (r: Result)
      requires Valid()
      modifies this, data
      ensures Valid() && View() == Step(old(View()), PipeStream.Write(pid, src, killed))
      ensures var k := Min(|src|, 512 - (|old(written)| - old(taken)));
              written == old(written) + src[..k] && taken == old(taken) &&
              r == (if k == |src| then Returned(|src|) else if !readopen || killed then Returned(-1) else Slept) &&
              writers == (if r == Slept then old(writers) + {pid} else old(writers)) &&
              readers == (if r == Returned(-1) then old(readers) else {})
      ensures readopen == old(readopen) && writeopen == old(writeopen)
    {
      var i := 0;
      while i < |src|
        invariant 0 <= i <= |src| && Valid() && View() == old(View()).(written := old(written) + src[..i])
        invariant Fits(View())
      {
        ValidCounts();
        if nwrite == (nread + PIPESIZE) % U32 {
          if !readopen || killed { return Returned(-1); }
          readers := {};
          writers := writers + {pid};
          return Slept;
        }
        Put(src[i]);
        i := i + 1;
      }
      readers := {};
      return Returned(|src|);
    }

    /** piperead under the lock. */
    method Read(pid: nat, n: nat, killed: bool) returns (r: Result, out: seq<Byte>)
      requires Valid()
      modifies this
      ensures Valid() && View() == Step(old(View()), PipeStream.Read(pid, n, killed))
      ensures out == Output(old(View()), PipeStream.Read(pid, n, killed))
      ensures var from, waits := old(taken), old(taken) == |old(written)| && writeopen;
              |out| == Min(n, |old(written)| - from) && out == old(written)[from..from + |out|] &&
              taken == from + |out| && written == old(written) &&
              r == (if !waits then Returned(|out|) else if killed then Returned(-1) else Slept) &&
              readers == (if r == Slept then old(readers) + {pid} else old(readers)) &&
              writers == (if waits then old(writers) else {})
      ensures readopen == old(readopen) && writeopen == old(writeopen)
    {
      out := [];
      ValidCounts();
      if nread == nwrite && writeopen {
        if killed { return Returned(-1), out; }
        readers := readers + {pid};
        return Slept, out;
      }
      out := Drain(n);
      writers := {};
      return Returned(|out|), out;
    }

    /** The copying loop of piperead. */
    method Drain(n: nat) returns (out: seq<Byte>)
      requires Valid()
      modifies this`nread, this`taken
      ensures Valid() && old(taken) <= |written| && taken == old(taken) + Min(n, |written| - old(taken))
      ensures out == written[old(taken)..taken]
    {
      hide Valid;
      ValidCounts();
      out := [];
      while |out| < n
        invariant Valid() && |out| <= n && taken == old(taken) + |out| <= |written| && out == written[old(taken)..taken]
      {
        ValidCounts();
        if nread == nwrite { break; }
        var b := Get();
        out := out + [b];
      }
    }

    /** pipeclose; freed when both ends are closed. */
    method Close(writable: bool) returns (freed: bool)
      requires Valid()
      modifies this
      ensures Valid() && View() == Step(old(View()), PipeStream.Close(writable)) && freed == (!readopen && !writeopen)
      ensures writeopen == (old(writeopen) && !writable) && readopen == (old(readopen) && writable)
      ensures readers == (if writable then {} else old(readers)) && writers == (if writable then old(writers) else {})
      ensures written == old(written) && taken == old(taken)
    {
      if writable {
        writeopen := false;
        readers := {};
      } else {
        readopen := false;
        writers := {};
      }
      freed := !readopen && !writeopen;
    }

    lemma {:induction false} ValidCounts()
      requires Valid()
      ensures Fits(View()) && (nwrite == (nread + PIPESIZE) % U32 <==> Full(View()))
      ensures (nread == nwrite <==> Empty(View()))
    {
      Wraps(taken, |written|);
    }
  }

  /** The ring's size divides 2^32, so the wrapped counter names the same slot. */
  lemma {:induction false} WrapSlot(k: nat)
    ensures k % U32 % PIPESIZE == k % PIPESIZE && (k % U32 + 1) % U32 == (k + 1) % U32
  {
    var q := k / U32;
    assert k == U32 * q + k % U32;
    assert k == PIPESIZE * (0x80_0000 * q) + k % U32;
  }

  /** Fewer than 512 apart, two counts name different slots. */
  lemma {:induction false} OtherSlot(j: nat, k: nat)
    requires j < k < j + PIPESIZE
    ensures j % PIPESIZE != k % PIPESIZE
  {
  }

  /** The tests for full and empty are right after wrap-around too. */
  lemma {:induction false} Wraps(taken: nat, written: nat)
    requires taken <= written <= taken + PIPESIZE
    ensures written % U32 == (taken % U32 + PIPESIZE) % U32 <==> written == taken + PIPESIZE
    ensures taken % U32 == written % U32 <==> taken == written
  {
  }
}
