/** pipe.c: a 512-byte ring with wrapping 32-bit counters, shared by any number of
    readers and writers.

    Each method is one stretch of code run under p->lock: from acquiring it, or from
    waking up inside sleep(), to releasing it or going to sleep, or kill's wakeup of one
    sleeper. Any interleaving of any processes is a sequence of such calls, so what every method keeps holds in
    every run. `stored` and `delivered` are all bytes ever written and read. */
module Pipe {

  const PIPESIZE := 512
  const WRAP := 0x1_0000_0000

  type Byte = x: int | 0 <= x < 256
  type Uint = x: int | 0 <= x < WRAP
  type Pid = nat

  datatype WriteOutcome = Wrote | WriteFailed | WriteAsleep
  datatype ReadOutcome = Read(bytes: seq<Byte>) | ReadFailed | ReadAsleep

  class Pipe {
    const data: array<Byte>
    var nread: Uint
    var nwrite: Uint
    var readopen: bool
    var writeopen: bool
    var readers: set<Pid>     // asleep on &p->nread
    var writers: set<Pid>     // asleep on &p->nwrite
    ghost var stored: seq<Byte>
    ghost var delivered: seq<Byte>

    /** First in, first out: what was read is a prefix of what was written, and
        the rest, at most PIPESIZE bytes, is in the ring. */
    ghost predicate Valid()
      reads this, data
    {
      && data.Length == PIPESIZE
      && delivered <= stored && |stored| - |delivered| <= PIPESIZE
      && nwrite == |stored| % WRAP && nread == |delivered| % WRAP
      && (forall k :: |delivered| <= k < |stored| ==> data[k % PIPESIZE] == stored[k])
    }

    /** Nobody sleeps through a chance: a sleeping reader has nothing to read and
        may still get something; a sleeping writer has no room and may still get some. */
    ghost predicate NoMissedWakeup()
      reads this
    {
      && (readers != {} ==> stored == delivered && writeopen && readopen)
      && (writers != {} ==> |stored| == |delivered| + PIPESIZE && readopen && writeopen)
    }

    constructor ()
      ensures Valid() && NoMissedWakeup() && stored == [] && delivered == []
      ensures readopen && writeopen && readers == {} && writers == {} && fresh(data)
    {
      data := new Byte[PIPESIZE](_ => 0);
      nread, nwrite, readopen, writeopen := 0, 0, true, true;
      readers, writers, stored, delivered := {}, {}, [], [];
    }

    /** pipewrite by process p, which has already stored addr[..done]; on return it
        has stored addr[..i]. It misses a wakeup exactly if the process is killed, readers are
        asleep and there is more to write than the pipe holds. */
    method Write(p: Pid, addr: seq<Byte>, done: nat, killed: bool) returns (r: WriteOutcome, i: nat)
      requires Valid() && done <= |addr| && writeopen && p !in writers && p !in readers
      modifies this`nwrite, this`stored, this`readers, this`writers, data
      ensures Valid() && done <= i <= |addr| && stored == old(stored) + addr[done..i]
      ensures r.Wrote? ==> i == |addr| && writers == old(writers) && readers == {}
      ensures r.WriteAsleep? ==> !killed && i < |addr| && writers == old(writers) + {p} && readers == {} && readopen
      ensures r.WriteFailed? ==> i < |addr| && writers == old(writers) && readers == old(readers) && (killed || !readopen)
      ensures !r.Wrote? ==> |stored| == |delivered| + PIPESIZE
      ensures old(NoMissedWakeup()) ==>
                (NoMissedWakeup() <==> !(killed && old(readers) != {} && |addr| - done > PIPESIZE))
      ensures old(NoMissedWakeup()) && !killed ==> NoMissedWakeup()
    {
      i := done;
      while i < |addr|
        invariant done <= i <= |addr| && Valid()
        invariant stored == old(stored) + addr[done..i]
        invariant readers == old(readers) && writers == old(writers)
        invariant i > done ==> old(|stored|) < |delivered| + PIPESIZE
      {
        Counters();
        if nwrite == (nread + PIPESIZE) % WRAP {
          if !readopen || killed {
            return WriteFailed, i;
          }
          readers := {};
          writers := writers + {p};
          return WriteAsleep, i;
        }
        Put(addr[i]);
        i := i + 1;
      }
      readers := {};
      return Wrote, i;
    }

    /** The counters decide full and empty correctly even after they wrap. */
    lemma {:induction false} Counters()
      requires Valid()
      ensures nwrite == (nread + PIPESIZE) % WRAP <==> |stored| == |delivered| + PIPESIZE
      ensures nwrite == nread <==> |stored| == |delivered|
    {
      CountersDiffer(|delivered|, |stored|);
    }

    /** p->data[p->nwrite++ % PIPESIZE] = c */
    method Put(c: Byte)
      requires Valid() && |stored| < |delivered| + PIPESIZE
      modifies this`nwrite, this`stored, data
      ensures Valid() && stored == old(stored) + [c]
    {
      RingIndex(|stored|);
      data[nwrite % PIPESIZE] := c;
      nwrite := (nwrite + 1) % WRAP;
      ghost var n := |stored|;
      stored := stored + [c];
      forall k | |delivered| <= k < n ensures data[k % PIPESIZE] == stored[k] {
        SlotsDiffer(k, n);
      }
    }

    /** c = p->data[p->nread++ % PIPESIZE] */
    method Get() returns (c: Byte)
      requires Valid() && |delivered| < |stored|
      modifies this`nread, this`delivered
      ensures Valid() && c == stored[|old(delivered)|] && delivered == old(delivered) + [c]
    {
      RingIndex(|delivered|);
      c := data[nread % PIPESIZE];
      nread := (nread + 1) % WRAP;
      delivered := delivered + [c];
    }

    /** piperead by process p: the bytes it returns are the next ones of the stream. */
    method ReadBytes(p: Pid, n: int, killed: bool) returns (r: ReadOutcome)
      requires Valid() && readopen && p !in readers && p !in writers
      modifies this`nread, this`delivered, this`readers, this`writers
      ensures Valid()
      ensures r.Read? ==> delivered == old(delivered) + r.bytes && |r.bytes| <= (if n < 0 then 0 else n)
      ensures r.Read? && |r.bytes| < n ==> delivered == stored
      ensures r.Read? ==> writers == {} && readers == old(readers) && (old(stored != delivered) || !writeopen)
      ensures r.ReadAsleep? ==> !killed && readers == old(readers) + {p} && writers == old(writers)
      ensures !r.Read? ==> delivered == old(delivered) && stored == delivered && writeopen
      ensures r.ReadFailed? ==> killed && readers == old(readers) && writers == old(writers)
      ensures old(NoMissedWakeup()) ==> NoMissedWakeup()
    {
      Counters();
      if nread == nwrite && writeopen {
        if killed {
          return ReadFailed;
        }
        readers := readers + {p};
        return ReadAsleep;
      }
      var i := 0;
      var addr: seq<Byte> := [];
      while i < n
        invariant 0 <= i && |addr| == i && (i > 0 ==> i <= n)
        invariant Valid() && delivered == old(delivered) + addr
        invariant readers == old(readers)
        decreases n - i
      {
        Counters();
        if nread == nwrite {
          break;
        }
        var c := Get();
        addr := addr + [c];
        i := i + 1;
      }
      writers := {};
      return Read(addr);
    }

    /** kill's wakeup: process p no longer sleeps, whatever it waited for, and will run ReadBytes or
        Write again with its killed flag set. */
    method Kill(p: Pid)
      requires Valid()
      modifies this`readers, this`writers
      ensures Valid() && readers == old(readers) - {p} && writers == old(writers) - {p}
      ensures old(NoMissedWakeup()) ==> NoMissedWakeup()
    {
      readers := readers - {p};
      writers := writers - {p};
    }

    /** pipeclose. An end is closed when no process uses it any more. */
    method Close(writable: bool) returns (freed: bool)
      requires Valid() && (if writable then writers == {} else readers == {})
      modifies this`readopen, this`writeopen, this`readers, this`writers
      ensures Valid()
      ensures writeopen == (old(writeopen) && !writable) && readopen == (old(readopen) && writable)
      ensures readers == (if writable then {} else old(readers)) && writers == (if writable then old(writers) else {})
      ensures freed <==> !readopen && !writeopen
      ensures old(NoMissedWakeup()) ==> NoMissedWakeup()
    {
      if writable {
        writeopen := false;
        readers := {};
      } else {
        readopen := false;
        writers := {};
      }
      return !readopen && !writeopen;
    }
  }

  /** A writer killed on a full pipe returns without waking the readers it has
      just fed: the reader stays asleep next to 512 unread bytes. */
  method KilledWriterStrandsReader() returns (p: Pipe)
    ensures p.Valid() && !p.NoMissedWakeup() && p.readers == {1}
    ensures |p.stored| == |p.delivered| + PIPESIZE && p.readopen && p.writeopen
  {
    p := new Pipe();
    var r := p.ReadBytes(1, 1, false);
    var w, i := p.Write(2, seq(PIPESIZE + 1, _ => 0), 0, true);
  }

  lemma {:induction false} CountersDiffer(a: nat, b: nat)
    requires a <= b <= a + PIPESIZE
    ensures b % WRAP == (a % WRAP + PIPESIZE) % WRAP <==> b == a + PIPESIZE
    ensures b % WRAP == a % WRAP <==> b == a
  {
  }

  lemma {:induction false} RingIndex(n: nat)
    ensures n % WRAP % PIPESIZE == n % PIPESIZE
    ensures (n % WRAP + 1) % WRAP == (n + 1) % WRAP
  {
  }

  lemma {:induction false} SlotsDiffer(k: nat, n: nat)
    requires k < n < k + PIPESIZE
    ensures k % PIPESIZE != n % PIPESIZE
  {
  }
}
