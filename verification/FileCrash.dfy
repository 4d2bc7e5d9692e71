/**
 Crashes in the middle of file system calls. A call commits a row of transactions; the disk may stop at any sector
 write of any of them, and recovery may be interrupted any number of times.
 */
module FileCrash {
  import opened Bitmap
  import opened Bytes
  import opened Blocks
  import opened BufferCache
  import opened Ditto
  import opened Duplicate
  import opened FileCalls
  import opened LogTheory
  import opened Overrun
  import opened Trails
  import opened Transactions

  predicate AllFit(g: Geometry, trans: seq<Ops>) {
    forall j :: 0 <= j < |trans| ==> Fitting(g, trans[j])
  }

  /** No transaction of at most n sectors meets "too big a transaction" in a log with room for more. */
  lemma SmallOnesFit(g: Geometry, trans: seq<Ops>, n: nat)
    requires AllWithin(trans, g.start) && AllAtMost(trans, n) && n < g.Capacity()
    ensures AllFit(g, trans)
  {
    forall j | 0 <= j < |trans| ensures Fitting(g, trans[j]) {
      NeverTooBig(g, trans[j], n, |trans[j]|);
    }
  }

  ghost predicate AllPossible(g: Geometry, es: seq<Event>) {
    forall j :: 0 <= j < |es| ==> Possible(g, es[j])
  }

  /** One event more: its transaction is added as a whole, or nothing is. */
  lemma OneMoreEvent(img: Image, g: Geometry, es: seq<Event>, e: Event)
    requires Quiescent(img, g) && AllPossible(g, es) && Possible(g, e)
    ensures AllPossible(g, es + [e]) && Within(e.ops, g.start)
    ensures ExecuteAll(img, g, es + [e])[..g.start]
         == if Durable(e) then Overlay(ExecuteAll(img, g, es)[..g.start], e.ops) else ExecuteAll(img, g, es)[..g.start]
  {
    assert (es + [e])[..|es|] == es;
    ExecuteAtomic(ExecuteAll(img, g, es), g, e);
  }

  /** The first k transactions complete. */
  function Completed(trans: seq<Ops>, k: nat): seq<Event>
    requires k <= |trans|
  {
    if k == 0 then [] else Completed(trans, k - 1) + [Completes(trans[k - 1])]
  }

  lemma FitsWithin(g: Geometry, trans: seq<Ops>)
    requires AllFit(g, trans)
    ensures AllWithin(trans, g.start)
  {
    forall j | 0 <= j < |trans| ensures Within(trans[j], g.start) {
      FittingPrefix(g, trans[j]);
    }
  }

  lemma OverlayNext(home: Image, trans: seq<Ops>, k: nat)
    requires AllWithin(trans, |home|) && k < |trans|
    ensures OverlayAll(home, trans[..k + 1]) == Overlay(OverlayAll(home, trans[..k]), trans[k])
  {
    assert trans[..k + 1][..k] == trans[..k];
  }

  lemma {:induction false} CompletedRun(img: Image, g: Geometry, trans: seq<Ops>, k: nat)
    requires Quiescent(img, g) && AllFit(g, trans) && AllWithin(trans, g.start) && k <= |trans|
    ensures AllPossible(g, Completed(trans, k))
    ensures ExecuteAll(img, g, Completed(trans, k))[..g.start] == OverlayAll(img[..g.start], trans[..k])
  {
    if k > 0 {
      CompletedRun(img, g, trans, k - 1);
      OneMoreEvent(img, g, Completed(trans, k - 1), Completes(trans[k - 1]));
      OverlayNext(img[..g.start], trans, k - 1);
    }
  }

  /** k transactions complete, the next one is cut short after some of its sector writes, and recovery follows. */
  function CutShort(trans: seq<Ops>, k: nat, after: nat, cuts: seq<nat>): seq<Event>
    requires k < |trans|
  {
    Completed(trans, k) + [Crashes(trans[k], after, cuts)]
  }

  /** How many of them the recovered disk has. */
  function Survivors(trans: seq<Ops>, k: nat, after: nat): nat
    requires k < |trans|
  {
    if after > |trans[k]| then k + 1 else k
  }

  /** The home sectors after that. */
  ghost function Recovered(img: Image, g: Geometry, trans: seq<Ops>, k: nat, after: nat, cuts: seq<nat>): Image
    requires Quiescent(img, g) && k < |trans| && AllPossible(g, CutShort(trans, k, after, cuts))
  {
    ExecuteAll(img, g, CutShort(trans, k, after, cuts))[..g.start]
  }

  /** A crash leaves a whole number of the transactions. */
  lemma CrashedRun(img: Image, g: Geometry, trans: seq<Ops>, k: nat, after: nat, cuts: seq<nat>)
    requires Quiescent(img, g) && AllFit(g, trans) && k < |trans|
    ensures AllWithin(trans, g.start) && AllPossible(g, CutShort(trans, k, after, cuts))
    ensures Recovered(img, g, trans, k, after, cuts) == OverlayAll(img[..g.start], trans[..Survivors(trans, k, after)])
  {
    FitsWithin(g, trans);
    CompletedRun(img, g, trans, k);
    OneMoreEvent(img, g, Completed(trans, k), Crashes(trans[k], after, cuts));
    OverlayNext(img[..g.start], trans, k);
  }

  /** What is wanted of the disk after each transaction is what a crash leaves, for some number of them. */
  lemma CrashedTrail<T>(img: Image, g: Geometry, trans: seq<Ops>, home: Image, read: seq<Block> -> T, want: nat -> T,
                        first: nat, k: nat, after: nat, cuts: seq<nat>)
    requires Quiescent(img, g) && AllFit(g, trans) && k < |trans| && Trail(img[..g.start], trans, home, read, want,
      first)
    ensures AllPossible(g, CutShort(trans, k, after, cuts))
    ensures var m := Survivors(trans, k, after);
      m >= first ==> read(Recovered(img, g, trans, k, after, cuts)) == want(m)
    ensures Survivors(trans, k, after) == 0 ==> Recovered(img, g, trans, k, after, cuts) == img[..g.start]
  {
    CrashedRun(img, g, trans, k, after, cuts);
    var m := Survivors(trans, k, after);
    if m >= first {
      assert Shows(img[..g.start], trans, m, read, want);
    }
  }

  /** No log_write of any of these transactions meets "too big a transaction". */
  predicate AllPass(g: Geometry, trans: seq<Ops>) {
    forall j :: 0 <= j < |trans| ==> Passes(g, trans[j])
  }

  lemma AllPassFit(g: Geometry, trans: seq<Ops>)
    requires AllPass(g, trans) && AllWithin(trans, g.start)
    ensures AllFit(g, trans)
  {
    forall j | 0 <= j < |trans| ensures Fitting(g, trans[j]) {
      PassesFits(g, trans[j]);
    }
  }

  /**
   Crash atomicity of filewrite, whose transactions pass. Wherever the disk stops in whichever of them, the recovered
   disk
   is as it was, or has a whole number of chunks written: in the file and, if it is mirrored, the same in every ditto.
   */
  lemma CrashedWrite(img: Image, g: Geometry, sb: Superblock, past0: seq<Ops>, base0: seq<Block>, past: seq<Ops>,
                     base: seq<Block>, bounded: bool, js: set<nat>, c: seq<byte>, off: nat, src: seq<byte>, n: nat,
                     k: nat, after: nat, cuts: seq<nat>)
    requires Trailed(past0, base0, past, base, sb, WRITE_SECTORS, bounded, js, c, off, src, WRITE_MAX, n)
    requires Quiescent(img, g) && g.start == sb.LogStart() && img[..g.start] == Home(base0, sb)
    requires AllPass(g, past[|past0|..]) && k < |past| - |past0|
    ensures var trans := past[|past0|..];
      && AllPossible(g, CutShort(trans, k, after, cuts))
      && var m, home := Survivors(trans, k, after), Recovered(img, g, trans, k, after, cuts);
      && (m == 0 ==> home == Home(base0, sb))
      && (m > 0 ==> forall j :: j in js ==> Reader(j)(home) == WrittenUpTo(c, off, src, Chunks(|src|, m, WRITE_MAX)))
  {
    var trans := past[|past0|..];
    AllPassFit(g, trans);
    CrashedTrail(img, g, trans, Home(base, sb), Readers(js), AllByChunks(js, c, off, src, WRITE_MAX), 1, k, after,
                 cuts);
    AllRead(js, Recovered(img, g, trans, k, after, cuts), c, off, src, WRITE_MAX, Survivors(trans, k, after));
  }

  /**
   A crash in the middle of a rescue. The replica is on the disk as it was, so the rescue can be done again; the inode
   has a whole number of chunks from the replica and its own bytes after that. That mix has a checksum that fits it, so
   ilock takes it and asks no replica; it is the replica's file if and only if the rest agrees.
   */
  lemma CrashedRescue(img: Image, g: Geometry, sb: Superblock, b0: seq<Block>, i0: seq<Dinode>, disk0: seq<Dinode>,
                      past0: seq<Ops>, base0: seq<Block>, past: seq<Ops>, base: seq<Block>, i: nat, c: nat, off: nat,
                      k: nat, after: nat, cuts: seq<nat>)
    requires RescueTrail(b0, i0, disk0, past0, base0, past, base, sb, i, c, off) && disk0[c] == i0[c] && sb.size < BPB
    requires Quiescent(img, g) && g.start == sb.LogStart() && img[..g.start] == Home(base0, sb) &&
      RESCUE_SECTORS < g.Capacity()
    requires k < |past| - |past0|
    ensures var trans, file := past[|past0|..], Content(b0, i0[c]);
      && AllPossible(g, CutShort(trans, k, after, cuts))
      && var m, home := Survivors(trans, k, after), Recovered(img, g, trans, k, after, cuts);
      && Reader(c)(home) == file
      && (m == 0 ==> home == Home(base0, sb))
      && (m > 0 ==>
            var own, at := Content(b0, i0[i]), Chunks(|file|, m, RESCUE_MAX);
            && Reader(i)(home) == WrittenUpTo(own, 0, file, at) && VerifiesOnDisk(home, i)
            && |own| == |file| && (Reader(i)(home) == file <==> own[at..] == file[at..]))
  {
    var trans, file := past[|past0|..], Content(b0, i0[c]);
    SmallOnesFit(g, trans, RESCUE_SECTORS);
    CrashedTrail(img, g, trans, Home(base, sb), Reader(c), Always(file), 0, k, after, cuts);
    CrashedTrail(img, g, trans, Home(base, sb), Readers({i}),
                 AllByChunks({i}, Content(b0, i0[i]), 0, file, RESCUE_MAX), 1, k, after, cuts);
    AllRead({i}, Recovered(img, g, trans, k, after, cuts), Content(b0, i0[i]), 0, file, RESCUE_MAX,
            Survivors(trans, k, after));
    CrashedTrail(img, g, trans, Home(base, sb), Verifier(i), Always(true), 1, k, after, cuts);
    TailsAgree(Content(b0, i0[i]), file, Chunks(|file|, Survivors(trans, k, after), RESCUE_MAX));
  }

  lemma TailsAgree(own: seq<byte>, file: seq<byte>, at: nat)
    requires |own| == |file| && at <= |file|
    ensures WrittenUpTo(own, 0, file, at) == file <==> own[at..] == file[at..]
  {
    if at > 0 {
      assert WrittenUpTo(own, 0, file, at) == file[..at] + own[at..];
    }
    assert file == file[..at] + file[at..];
  }

  const NLOG: nat := 20              // mkfs.c:18

  /**
   With mkfs's log and one bitmap block, no log_write of any transaction of irescue, of filewrite on an inode without
   dittos, or of ipropagate and duplicate meets "too big a transaction": the guard of log.c:170 is false at each.
   */
  lemma NoneTooBig(g: Geometry, trans: seq<Ops>, n: nat)
    requires g.size == NLOG && AllWithin(trans, g.start) && AllAtMost(trans, n)
    requires n == RESCUE_SECTORS || n == WRITE_SECTORS || n == PROPAGATE_SECTORS
    ensures AllPass(g, trans) && AllFit(g, trans) && g.Capacity() < NBUF
  {
    forall j | 0 <= j < |trans| ensures Passes(g, trans[j]) && Fitting(g, trans[j]) {
      forall k | 0 <= k <= |trans[j]| ensures Fitting(g, trans[j]) && |SectorsOf(trans[j][..k])| < g.Capacity() {
        NeverTooBig(g, trans[j], n, k);
      }
      assert Fitting(g, trans[j]) by {
        NeverTooBig(g, trans[j], n, 0);
      }
    }
  }
}
