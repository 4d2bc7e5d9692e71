/**
 What a call that commits a row of transactions leaves on the disk after each of them: a file with one chunk more, or a
 file that stays as it is.
 */
module Trails {
  import opened Bitmap
  import opened Blocks
  import opened Bytes
  import opened Dinodes
  import opened Transactions

  /** The content once the first k bytes of src are written at off. */
  function WrittenUpTo(c: seq<byte>, off: nat, src: seq<byte>, k: nat): seq<byte>
    requires k <= |src|
  {
    if k == 0 || off > |c| then c else Overwritten(c, off, src[..k])
  }

  /** Writing on where the last write stopped. */
  lemma WriteOn(c: seq<byte>, off: nat, s: seq<byte>, k: nat, x: nat)
    requires k < x <= |s| && (k > 0 ==> off <= |c|) && off + k <= |WrittenUpTo(c, off, s, k)|
    ensures off <= |c| && Overwritten(WrittenUpTo(c, off, s, k), off + k, s[k..x]) == WrittenUpTo(c, off, s, x)
  {
    if k == 0 {
      assert s[0..x] == s[..x];
    } else {
      OverwrittenTwice(c, off, s, k, x);
    }
  }

  lemma OverwrittenTwice(c: seq<byte>, off: nat, s: seq<byte>, k: nat, x: nat)
    requires off <= |c| && k <= x <= |s| && off + k <= |Overwritten(c, off, s[..k])|
    ensures Overwritten(Overwritten(c, off, s[..k]), off + k, s[k..x]) == Overwritten(c, off, s[..x])
  {
    assert s[..x] == s[..k] + s[k..x];
  }

  /** Reads the file of inode i from the home sectors. */
  function Reader(i: nat): seq<Block> -> seq<byte> {
    home => if i / IPB + 2 < |home| then FileOnDisk(home, i) else []
  }

  // ---- Chunks ------------------------------------------------------------------------

  /** Where the next transaction of a job of n bytes ends, after k, with at most max bytes in each. */
  function ChunkEnd(n: nat, k: nat, max: nat): (x: nat)
    requires k < n && 0 < max
    ensures k < x <= n && x - k <= max
  {
    if n - k > max then k + max else n
  }

  /** How many bytes the first m transactions hold. */
  function Chunks(n: nat, m: nat, max: nat): (k: nat)
    ensures k <= n
  {
    if m * max < n then m * max else n
  }

  lemma NextChunk(n: nat, m: nat, max: nat)
    requires Chunks(n, m, max) < n && 0 < max
    ensures ChunkEnd(n, Chunks(n, m, max), max) == Chunks(n, m + 1, max)
  {
    assert (m + 1) * max == m * max + max;
  }

  // ---- Trails ------------------------------------------------------------------------

  /** One more transaction has been committed. */
  ghost predicate Stepped(past0: seq<Ops>, base0: seq<Block>, past: seq<Ops>, base: seq<Block>, sb: Superblock) {
    && |past| == |past0| + 1 && past[..|past0|] == past0 && sb.nlog <= sb.size == |base0| == |base|
    && Within(past[|past0|], sb.LogStart()) && Replays(Home(base0, sb), past[|past0|], Home(base, sb))
  }

  /** What one committed transaction has done: it fits, and the inodes js are on the disk with this content. */
  ghost predicate CommittedStep(past0: seq<Ops>, base0: seq<Block>, past: seq<Ops>, base: seq<Block>, sb: Superblock,
                                n: nat, bounded: bool, js: set<nat>, content: seq<byte>) {
    && Stepped(past0, base0, past, base, sb)
    && (bounded && sb.size < BPB ==> AtMost(past[|past0|], n))
    && forall j :: j in js ==> Reader(j)(Home(base, sb)) == content
  }

  lemma StepCommitted(past: seq<Ops>, base: seq<Block>, t: Txn, blocks: seq<Block>, disk: seq<Dinode>, sb: Superblock,
                      n: nat, bounded: bool, js: set<nat>, content: seq<byte>)
    requires sb.Sane() && |blocks| == sb.size && Consistent(base, t) && Reflects(t.image, blocks, sb) &&
      OnRecord(t, disk, sb)
    requires bounded && sb.size < BPB ==> |t.logged| <= n
    requires forall j :: j in js ==> j < |disk| && InUse(blocks, sb, disk[j]) && Content(blocks, disk[j]) == content
    ensures CommittedStep(past, base, past + [t.ops], t.image, sb, n, bounded, js, content)
  {
    forall j | j in js ensures Reader(j)(Home(t.image, sb)) == content {
      FileCommitted(t, blocks, disk, sb, j);
    }
    ReplaysBelow(base, t.ops, t.image, sb.LogStart());
    if bounded && sb.size < BPB {
      CountSectors(base, t, n);
    }
  }

  /**
   The transactions lead from the home sectors `home0` to `home`, and from the first one that counts on the disk, as
   `read` reads it, has what is wanted after each of them.
   */
  ghost predicate Trail<T>(home0: seq<Block>, trans: seq<Ops>, home: seq<Block>, read: seq<Block> -> T,
                        want: nat -> T,
                        first: nat) {
    && AllWithin(trans, |home0|) && home == OverlayAll(home0, trans)
    && forall m {:trigger Shows(home0, trans, m, read, want)} :: first <= m <= |trans| ==>
      Shows(home0, trans, m, read, want)
  }

  /** After the first m transactions. */
  ghost predicate Shows<T>(home0: seq<Block>, trans: seq<Ops>, m: nat, read: seq<Block> -> T,
                        want: nat -> T) {
    AllWithin(trans, |home0|) && m <= |trans| && read(OverlayAll(home0, trans[..m])) == want(m)
  }

  lemma ShowsStill<T>(home0: seq<Block>, trans: seq<Ops>, ops: Ops, m: nat, read: seq<Block> -> T,
                   want: nat -> T)
    requires Shows(home0, trans, m, read, want) && Within(ops, |home0|)
    ensures Shows(home0, trans + [ops], m, read, want)
  {
    assert (trans + [ops])[..m] == trans[..m];
  }

  lemma OverlayMore(home0: seq<Block>, trans: seq<Ops>, home: seq<Block>, ops: Ops, home': seq<Block>)
    requires AllWithin(trans, |home0|) && home == OverlayAll(home0, trans) && Replays(home, ops, home')
    ensures AllWithin(trans + [ops], |home0|) && home' == OverlayAll(home0, trans + [ops])
  {
    RunMore(home0, trans, home, ops, home', |home0|);
  }

  lemma ShowsNow<T>(home0: seq<Block>, trans: seq<Ops>, home: seq<Block>, read: seq<Block> -> T,
                 want: nat -> T)
    requires AllWithin(trans, |home0|) && home == OverlayAll(home0, trans) && read(home) == want(|trans|)
    ensures Shows(home0, trans, |trans|, read, want)
  {
    assert trans[..|trans|] == trans;
  }

  lemma TrailMore<T>(home0: seq<Block>, trans: seq<Ops>, home: seq<Block>, ops: Ops, home': seq<Block>,
                  read: seq<Block> -> T,
                  want: nat -> T, first: nat)
    requires Trail(home0, trans, home, read, want, first) && Replays(home, ops, home') &&
      read(home') == want(|trans| + 1)
    ensures Trail(home0, trans + [ops], home', read, want, first)
  {
    var trans' := trans + [ops];
    OverlayMore(home0, trans, home, ops, home');
    ShowsNow(home0, trans', home', read, want);
    forall m | first <= m <= |trans'| ensures Shows(home0, trans', m, read, want) {
      if m <= |trans| {
        ShowsStill(home0, trans, ops, m, read, want);
      }
    }
  }

  /** What has been committed since past0 leads to what there is, and shows what is wanted on the way. */
  ghost predicate Followed<T>(past0: seq<Ops>, base0: seq<Block>, past: seq<Ops>, base: seq<Block>, sb: Superblock,
                              read: seq<Block> -> T, want: nat -> T, first: nat) {
    && sb.nlog <= sb.size == |base0| == |base| && |past0| <= |past| && past[..|past0|] == past0
    && Trail(Home(base0, sb), past[|past0|..], Home(base, sb), read, want, first)
  }

  lemma PastMore(past0: seq<Ops>, past1: seq<Ops>, past2: seq<Ops>)
    requires |past0| <= |past1| && past1[..|past0|] == past0 && |past2| == |past1| + 1 && past2[..|past1|] == past1
    ensures past2[..|past0|] == past0 && past2[|past0|..] == past1[|past0|..] + [past2[|past1|]]
  {
    assert past2 == past1 + [past2[|past1|]];
  }

  lemma FollowedNothing<T>(past: seq<Ops>, base: seq<Block>, sb: Superblock, read: seq<Block> -> T, want: nat -> T,
                           first: nat)
    requires sb.nlog <= sb.size == |base| && (first > 0 || read(Home(base, sb)) == want(0))
    ensures Followed(past, base, past, base, sb, read, want, first)
  {
    assert past[|past|..] == [];
    if first == 0 {
      ShowsNow(Home(base, sb), [], Home(base, sb), read, want);
    }
  }

  lemma FollowedMore<T>(past0: seq<Ops>, base0: seq<Block>, past1: seq<Ops>, base1: seq<Block>, past2: seq<Ops>,
                     base2: seq<Block>,
                     sb: Superblock, read: seq<Block> -> T, want: nat -> T, first: nat)
    requires Followed(past0, base0, past1, base1, sb, read, want, first)
    requires Stepped(past1, base1, past2, base2, sb) && read(Home(base2, sb)) == want(|past1| - |past0| + 1)
    ensures Followed(past0, base0, past2, base2, sb, read, want, first)
  {
    PastMore(past0, past1, past2);
    TrailMore(Home(base0, sb), past1[|past0|..], Home(base1, sb), past2[|past1|], Home(base2, sb), read, want,
              first);
  }

  // ---- Files that change chunk by chunk ---------------------------------------------------------

  /** Reads the files of some inodes. */
  function Readers(js: set<nat>): seq<Block> -> map<nat, seq<byte>> {
    home => map j | j in js :: Reader(j)(home)
  }

  /** After m transactions, the first m chunks of src are written at off. */
  function ByChunks(c: seq<byte>, off: nat, src: seq<byte>, max: nat, m: nat): seq<byte> {
    WrittenUpTo(c, off, src, Chunks(|src|, m, max))
  }

  /** In each of these inodes. */
  function AllByChunks(js: set<nat>, c: seq<byte>, off: nat, src: seq<byte>, max: nat): nat -> map<nat, seq<byte>> {
    (m: nat) => map j | j in js :: ByChunks(c, off, src, max, m)
  }

  /** What has been committed since past0 are the transactions of a job on the inodes js, k bytes of it so far. */
  ghost predicate Trailed(past0: seq<Ops>, base0: seq<Block>, past: seq<Ops>, base: seq<Block>, sb: Superblock, n: nat,
                          bounded: bool, js: set<nat>, c: seq<byte>, off: nat, src: seq<byte>, max: nat, k: nat) {
    && Followed(past0, base0, past, base, sb, Readers(js), AllByChunks(js, c, off, src, max), 1)
    && k == Chunks(|src|, |past| - |past0|, max)
    && (bounded && sb.size < BPB ==> AllAtMost(past[|past0|..], n))
  }

  lemma TrailedNothing(past: seq<Ops>, base: seq<Block>, sb: Superblock, n: nat, bounded: bool, js: set<nat>,
                       c: seq<byte>, off: nat, src: seq<byte>, max: nat)
    requires sb.nlog <= sb.size == |base|
    ensures Trailed(past, base, past, base, sb, n, bounded, js, c, off, src, max, 0)
  {
    FollowedNothing(past, base, sb, Readers(js), AllByChunks(js, c, off, src, max), 1);
  }

  lemma TrailedMore(past0: seq<Ops>, base0: seq<Block>, past1: seq<Ops>, base1: seq<Block>, past2: seq<Ops>,
                    base2: seq<Block>, sb: Superblock, n: nat, bounded: bool, js: set<nat>, c: seq<byte>, off: nat,
                    src: seq<byte>, max: nat, k: nat, x: nat)
    requires Trailed(past0, base0, past1, base1, sb, n, bounded, js, c, off, src, max, k) && k < |src| && 0 < max
    requires x == ChunkEnd(|src|, k, max)
    requires CommittedStep(past1, base1, past2, base2, sb, n, bounded, js, WrittenUpTo(c, off, src, x))
    ensures Trailed(past0, base0, past2, base2, sb, n, bounded, js, c, off, src, max, x)
  {
    var m := |past1| - |past0|;
    NextChunk(|src|, m, max);
    assert ByChunks(c, off, src, max, m + 1) == WrittenUpTo(c, off, src, x);
    AllRead(js, Home(base2, sb), c, off, src, max, m + 1);
    FollowedMore(past0, base0, past1, base1, past2, base2, sb, Readers(js), AllByChunks(js, c, off, src, max), 1);
    AtMostMore(past0, past1, past2, n);
  }

  lemma AllRead(js: set<nat>, home: seq<Block>, c: seq<byte>, off: nat, src: seq<byte>, max: nat, m: nat)
    ensures Readers(js)(home) == AllByChunks(js, c, off, src, max)(m) <==>
      forall j :: j in js ==> Reader(j)(home) == ByChunks(c, off, src, max, m)
  {
    if Readers(js)(home) == AllByChunks(js, c, off, src, max)(m) {
      forall j | j in js ensures Reader(j)(home) == ByChunks(c, off, src, max, m) {
        assert Readers(js)(home)[j] == AllByChunks(js, c, off, src, max)(m)[j];
      }
    }
  }

  lemma AtMostMore(past0: seq<Ops>, past1: seq<Ops>, past2: seq<Ops>, n: nat)
    requires |past0| <= |past1| && past1[..|past0|] == past0 && |past2| == |past1| + 1 && past2[..|past1|] == past1
    ensures AllAtMost(past1[|past0|..], n) && AtMost(past2[|past1|], n) ==> AllAtMost(past2[|past0|..], n)
  {
    PastMore(past0, past1, past2);
  }

  // ---- A file that stays as it is -----------------------------------------------------------

  function Always<T>(c: T): nat -> T {
    (m: nat) => c
  }

  /** Before the first of the transactions and after each, the disk has the same file. */
  ghost predicate Steady(past0: seq<Ops>, base0: seq<Block>, past: seq<Ops>, base: seq<Block>, sb: Superblock, i: nat,
                         c: seq<byte>) {
    Followed(past0, base0, past, base, sb, Reader(i), Always(c), 0)
  }

  lemma SteadyNothing(past: seq<Ops>, base: seq<Block>, sb: Superblock, i: nat, c: seq<byte>)
    requires sb.nlog <= sb.size == |base| && Reader(i)(Home(base, sb)) == c
    ensures Steady(past, base, past, base, sb, i, c)
  {
    FollowedNothing(past, base, sb, Reader(i), Always(c), 0);
  }

  lemma SteadyMore(past0: seq<Ops>, base0: seq<Block>, past1: seq<Ops>, base1: seq<Block>, past2: seq<Ops>,
                   base2: seq<Block>,
                   sb: Superblock, n: nat, bounded: bool, i: nat, c: seq<byte>)
    requires Steady(past0, base0, past1, base1, sb, i, c)
    requires CommittedStep(past1, base1, past2, base2, sb, n, bounded, {i}, c)
    ensures Steady(past0, base0, past2, base2, sb, i, c)
  {
    FollowedMore(past0, base0, past1, base1, past2, base2, sb, Reader(i), Always(c), 0);
  }
}
