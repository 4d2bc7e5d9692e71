/**
 Pipes (pipe.c): a ring of 512 bytes between readers and writers. Each method is one stretch of
 code run with the pipe's lock held, from acquire or from waking up to sleep or release; what it
 keeps holds whatever the order in which processes take their turns.
 */
module Pipe {
  import opened Bytes

  const PIPESIZE: nat := 512

  datatype Outcome = Returned(n: nat) | Failed | Asleep

  // ---- The counters ---------------------------------------------------------

  /** Ring indices survive the wrap of the counters, because PIPESIZE divides 2^32. */
  lemma WrapIndex(n: nat)
    ensures n % UINT_LIMIT % PIPESIZE == n % PIPESIZE
  {
    var q, r := n / UINT_LIMIT, n % UINT_LIMIT;
    assert n == PIPESIZE * (q * 0x80_0000) + r;
    SameRemainder(r, q * 0x80_0000);
  }

  lemma SameRemainder(r: nat, q: nat)
    ensures (PIPESIZE * q + r) % PIPESIZE == r % PIPESIZE
  {
  }

  /** The comparisons of wrapped counters decide empty and full. */
  lemma WrapCompare(r: nat, w: nat)
    requires r <= w <= r + PIPESIZE
    ensures r % UINT_LIMIT == w % UINT_LIMIT <==> r == w
    ensures w % UINT_LIMIT == (r % UINT_LIMIT + PIPESIZE) % UINT_LIMIT <==> w == r + PIPESIZE
  {
    var q, m := r / UINT_LIMIT, r % UINT_LIMIT;
    assert w == q * UINT_LIMIT + m + (w - r);
    Wrapped(q, m + (w - r));
  }

  lemma Wrapped(q: nat, m: nat)
    requires m < 2 * UINT_LIMIT
    ensures (q * UINT_LIMIT + m) % UINT_LIMIT == if m < UINT_LIMIT then m else m - UINT_LIMIT
  {
  }

  lemma NextCounter(n: nat)
    ensures (n + 1) % UINT_LIMIT == (n % UINT_LIMIT + 1) % UINT_LIMIT
  {
    assert n == n / UINT_LIMIT * UINT_LIMIT + n % UINT_LIMIT;
    Wrapped(n / UINT_LIMIT, n % UINT_LIMIT + 1);
    Wrapped(0, n % UINT_LIMIT + 1);
  }

  lemma OtherSlot(k: nat, m: nat)
    requires k < m < k + PIPESIZE
    ensures k % PIPESIZE != m % PIPESIZE
  {
  }

  // ---- The ring ---------------------------------------------------------------

  /** The ring holds what has been stored and not yet delivered; the counters are the two lengths modulo 2^32. */
  predicate Ring(data: seq<byte>, nread: nat, nwrite: nat, stored: seq<byte>, delivered: seq<byte>) {
    && |data| == PIPESIZE && delivered <= stored && |stored| <= |delivered| + PIPESIZE
    && nread == |delivered| % UINT_LIMIT && nwrite == |stored| % UINT_LIMIT
    && forall k :: |delivered| <= k < |stored| ==> data[k % PIPESIZE] == stored[k]
  }

  lemma Store(data: seq<byte>, nread: nat, nwrite: nat, stored: seq<byte>, delivered: seq<byte>, b: byte)
    requires Ring(data, nread, nwrite, stored, delivered) && |stored| < |delivered| + PIPESIZE
    ensures Ring(data[nwrite % PIPESIZE := b], nread, (nwrite + 1) % UINT_LIMIT, stored + [b], delivered)
  {
    WrapIndex(|stored|);
    NextCounter(|stored|);
    forall k | |delivered| <= k < |stored| ensures k % PIPESIZE != |stored| % PIPESIZE {
      OtherSlot(k, |stored|);
    }
  }

  lemma Deliver(data: seq<byte>, nread: nat, nwrite: nat, stored: seq<byte>, delivered: seq<byte>)
    requires Ring(data, nread, nwrite, stored, delivered) && |delivered| < |stored|
    ensures data[nread % PIPESIZE] == stored[|delivered|]
    ensures Ring(data, (nread + 1) % UINT_LIMIT, nwrite, stored, delivered + [stored[|delivered|]])
  {
    WrapIndex(|delivered|);
    NextCounter(|delivered|);
  }

  // ---- The protocol, as its users see it ------------------------------------------

  /** What has been stored and delivered so far, which ends are open, and who is asleep on &nread and on &nwrite. */
  datatype View = View(stored: seq<byte>, delivered: seq<byte>, readopen: bool, writeopen: bool, readers: set<nat>,
                       writers: set<nat>) {
    predicate Empty() {
      |stored| == |delivered|
    }
    predicate Full() {
      |stored| == |delivered| + PIPESIZE
    }
    /** Delivered is an in-order prefix of stored. */
    predicate InOrder() {
      delivered <= stored && |stored| <= |delivered| + PIPESIZE
    }
    /** A sleeping reader means an empty pipe with its write end open, a sleeping writer a full one. */
    predicate Settled() {
      && (readers != {} ==> Empty() && writeopen && readopen)
      && (writers != {} ==> Full() && writeopen && readopen)
    }
  }

  /** A stretch of pipewrite by pid that stores some bytes. */
  predicate Writes(v: View, v': View, pid: nat, bytes: seq<byte>, r: Outcome, killed: bool) {
    && v'.InOrder()
    && v' == v.(stored := v.stored + bytes, readers := v'.readers, writers := v'.writers)
    && match r
       case Returned(_) => v'.readers == {} && v'.writers == v.writers
       case Asleep => v'.Full() && v.readopen && !killed && v'.readers == {} && v'.writers == v.writers + {pid}
       case Failed => v'.Full() && (!v.readopen || killed) && v'.readers == v.readers && v'.writers == v.writers
  }

  /** A stretch of piperead by pid that delivers some bytes. */
  predicate Reads(v: View, v': View, pid: nat, bytes: seq<byte>, r: Outcome, killed: bool) {
    && v'.InOrder()
    && v' == v.(delivered := v.delivered + bytes, readers := v'.readers, writers := v'.writers)
    && match r
       case Returned(_) => v'.writers == {} && v'.readers == v.readers && (v.Empty() ==> !v.writeopen)
       case Asleep => bytes == [] && v.Empty() && v.writeopen && !killed && v'.readers == v.readers + {pid} &&
           v'.writers == v.writers
       case Failed => bytes == [] && v.Empty() && killed && v'.readers == v.readers && v'.writers == v.writers
  }

  /** pipeclose: the last descriptor of one end goes, so nobody sleeps in a call on that end. */
  predicate Closes(v: View, v': View, writable: bool) {
    if writable then v.writers == {} && v' == v.(writeopen := false, readers := {})
    else v.readers == {} && v' == v.(readopen := false, writers := {})
  }

  datatype Event =
    | WriteEvent(pid: nat, bytes: seq<byte>, outcome: Outcome)
    | ReadEvent(pid: nat, bytes: seq<byte>, outcome: Outcome)
    | CloseEvent(writable: bool)

  /** A step of a run without kills: who writes holds the write end open, who reads the read end. */
  predicate Next(v: View, e: Event, v': View) {
    match e
    case WriteEvent(pid, bytes, r) => v.writeopen && Writes(v, v', pid, bytes, r, false)
    case ReadEvent(pid, bytes, r) => v.readopen && Reads(v, v', pid, bytes, r, false)
    case CloseEvent(writable) => Closes(v, v', writable)
  }

  const NEW := View([], [], true, true, {}, {})

  /** In every state of every run without kills: delivery is in order, nobody sleeps in vain, and never both sides
      at once. */
  lemma {:induction false} RunsSettled(run: seq<View>, events: seq<Event>, k: nat)
    requires |run| == |events| + 1 && run[0] == NEW && k < |run|
    requires forall i :: 0 <= i < |events| ==> Next(run[i], events[i], run[i + 1])
    ensures run[k].InOrder() && run[k].Settled() && (run[k].readers == {} || run[k].writers == {})
  {
    if k > 0 {
      RunsSettled(run, events, k - 1);
      assert Next(run[k - 1], events[k - 1], run[k]);
    }
  }

  /** With a killed writer it can fail: a reader asleep on an empty pipe, a killed writer with more than fits. */
  lemma KilledWriterStrandsReader(bytes: seq<byte>)
    requires |bytes| == PIPESIZE
    ensures var v := NEW.(readers := {7});
      var v' := v.(stored := bytes);
      v.Settled() && Writes(v, v', 3, bytes, Failed, true) && !v'.Settled()
  {
    var v' := NEW.(readers := {7}, stored := bytes);
    assert 7 in v'.readers;
  }

  /**
   And exactly then. What a stretch of pipewrite from byte i0 on does is settled when it starts: it strands a reader
   if and only if its process is killed, a reader is asleep, and more is left to write than the pipe holds.
   */
  lemma WriteSettled(v: View, v': View, pid: nat, src: seq<byte>, i0: nat, i: nat, r: Outcome, killed: bool)
    requires v.Settled() && v.InOrder() && v.writeopen && i0 <= i <= |src|
    requires Writes(v, v', pid, src[i0..i], r, killed) && (r.Returned? <==> i == |src|)
    ensures v'.Settled() <==> !(killed && v.readers != {} && |src| - i0 > PIPESIZE)
  {
    if r.Asleep? {
      assert v'.Settled();
    }
  }

  class Pipe {
    var data: seq<byte>
    var nread: nat
    var nwrite: nat
    var readopen: bool
    var writeopen: bool
    ghost var stored: seq<byte>      // every byte ever stored, in order
    ghost var delivered: seq<byte>   // every byte ever handed to a reader, in order
    var readers: set<nat>            // the processes asleep on &p->nread
    var writers: set<nat>            // the processes asleep on &p->nwrite

    /** What is delivered is a prefix of what was stored, and the ring holds the rest. */
    ghost predicate Valid()
      reads this
    {
      Ring(data, nread, nwrite, stored, delivered)
    }

    ghost function Now(): View
      reads this
    {
      View(stored, delivered, readopen, writeopen, readers, writers)
    }

    /** pipealloc (pipe.c:21-45). */
    constructor ()
      ensures Valid() && Now() == NEW
    {
      data := seq(PIPESIZE, _ => 0);
      nread, nwrite, readopen, writeopen := 0, 0, true, true;
      stored, delivered, readers, writers := [], [], {}, {};
    }

    /** pipewrite by process pid from byte i0 on, up to its return or its next sleep (pipe.c:77-97). */
    method Write(pid: nat, src: seq<byte>, i0: nat, killed: bool) returns (r: Outcome, i: nat)
      requires Valid() && i0 <= |src|
      modifies this
      ensures Valid() && i0 <= i <= |src| && Writes(old(Now()), Now(), pid, src[i0..i], r, killed)
      ensures r.Returned? <==> i == |src|
      ensures r.Returned? ==> r.n == |src|
    {
      i := i0;
      while i < |src|
        invariant i0 <= i <= |src| && Valid() && stored == old(stored) + src[i0..i] && delivered == old(delivered)
        invariant readopen == old(readopen) && writeopen == old(writeopen) && readers == old(readers) &&
          writers == old(writers)
      {
        WrapCompare(|delivered|, |stored|);
        if nwrite == (nread + PIPESIZE) % UINT_LIMIT {
          if !readopen || killed {
            return Failed, i;
          }
          readers := {};
          writers := writers + {pid};
          return Asleep, i;
        }
        Store(data, nread, nwrite, stored, delivered, src[i]);
        data := data[nwrite % PIPESIZE := src[i]];
        nwrite := (nwrite + 1) % UINT_LIMIT;
        stored := stored + [src[i]];
        i := i + 1;
      }
      readers := {};
      return Returned(|src|), i;
    }

    /** piperead by process pid, up to its return or its next sleep (pipe.c:99-120). */
    method Read(pid: nat, n: nat, killed: bool) returns (r: Outcome, dst: seq<byte>)
      requires Valid()
      modifies this
      ensures Valid() && Reads(old(Now()), Now(), pid, dst, r, killed)
      ensures r.Returned? ==> r.n == |dst| == Min(n, |stored| - |old(delivered)|)
    {
      dst := [];
      WrapCompare(|delivered|, |stored|);
      if nread == nwrite && writeopen {
        if killed {
          return Failed, dst;
        }
        readers := readers + {pid};
        return Asleep, dst;
      }
      while |dst| < n
        invariant |dst| <= n && Valid() && stored == old(stored) && delivered == old(delivered) + dst
        invariant readopen == old(readopen) && writeopen == old(writeopen) && readers == old(readers) &&
          writers == old(writers)
      {
        WrapCompare(|delivered|, |stored|);
        if nread == nwrite {
          break;
        }
        Deliver(data, nread, nwrite, stored, delivered);
        dst := dst + [data[nread % PIPESIZE]];
        delivered := delivered + [data[nread % PIPESIZE]];
        nread := (nread + 1) % UINT_LIMIT;
      }
      writers := {};
      return Returned(|dst|), dst;
    }

    /** pipeclose (pipe.c:58-74). */
    method Close(writable: bool)
      requires Valid() && (if writable then writers == {} else readers == {})
      modifies this`readopen, this`writeopen, this`readers, this`writers
      ensures Valid() && Closes(old(Now()), Now(), writable)
    {
      if writable {
        writeopen := false;
        readers := {};
      } else {
        readopen := false;
        writers := {};
      }
    }
  }

  function Min(a: nat, b: nat): nat {
    if a < b then a else b
  }
}
