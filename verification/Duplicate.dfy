/** Giving an inode its dittos: ialloc (fs.c:175-198), ipropagate and duplicate (sysfile.c:313-392). */
module Duplicate {
  import opened Bitmap
  import opened Bytes
  import opened Blocks
  import opened FileSystem
  import opened Ditto
  import opened Transactions
  import opened Wrappers

  const PROPAGATE_MAX: nat := 4096   // ((LOGSIZE-1-1-2) / 2) * 512, sysfile.c:316

  const PROPAGATE_SECTORS: nat := 13

  /** Duplicate returns the inode, or 0, or the run ends in a panic of ialloc or balloc. */
  datatype Outcome = Duplicated | Refused | Ended

  /** A dinode just allocated: zeros but for its type. */
  function Fresh(kind: Kind): Dinode {
    Dinode(kind, 0, 0, seq(NDIRECT + 1, _ => 0), 0, 0, 0)
  }

  lemma OwnedFresh(blocks: seq<Block>, sb: Superblock, ino: seq<Dinode>, c: nat, kind: Kind)
    requires Owned(blocks, sb, ino) && c < |ino|
    ensures Owned(blocks, sb, ino[c := Fresh(kind)])
  {
    assert InUse(blocks, sb, ino[c]);
    assert forall k :: 0 <= k <= MAXFILE ==> Ref(blocks, Fresh(kind), k) == 0;
    var ino' := ino[c := Fresh(kind)];
    forall j | 0 <= j < |ino'| ensures InUse(blocks, sb, ino'[j]) {
      assert InUse(blocks, sb, ino[j]);
    }
  }

  /** Inodes that are free on disk are not in use in memory. */
  predicate FreeUnused(disk: seq<Dinode>, valid: seq<bool>, busy: seq<bool>) {
    && |disk| == |valid| == |busy|
    && forall j :: 0 <= j < |disk| && disk[j].kind.Free? ==> !valid[j] && !busy[j]
  }

  predicate NoFreeInode(disk: seq<Dinode>) {
    forall j :: 0 < j < |disk| ==> !disk[j].kind.Free?
  }

  /** Allocate the lowest free inode (fs.c:175-198). None: the panic "ialloc: no inodes". */
  method Ialloc(l: InodeLayer, kind: Kind) returns (r: Option<nat>)
    requires l.Linked() && FreeUnused(l.fs.disk, l.valid, l.busy) && |l.fs.disk| == l.fs.sb.ninodes && !kind.Free?
    modifies l.fs`disk, l.fs`ino, l.fs`txn
    ensures l.Linked() && FreeUnused(l.fs.disk, l.valid, l.busy)
    ensures r.None? ==> l.fs.disk == old(l.fs.disk) && l.fs.ino == old(l.fs.ino) && NoFreeInode(l.fs.disk)
    ensures r.Some? ==> 0 < r.value < |l.fs.disk| && old(l.fs.disk)[r.value].kind.Free? && !l.valid[r.value]
    ensures r.Some? ==> forall j :: 0 < j < r.value ==> !old(l.fs.disk)[j].kind.Free?
    ensures r.Some? ==>
      l.fs.disk == old(l.fs.disk)[r.value := Fresh(kind)] && l.fs.ino == old(l.fs.ino)[r.value := Fresh(kind)]
    ensures r.Some? ==> l.fs.txn.logged == old(l.fs.txn).logged + {l.fs.sb.InodeBlock(r.value)}
  {
    var inum := 1;
    while inum < l.fs.sb.ninodes
      invariant l.fs.disk == old(l.fs.disk) && l.fs.ino == old(l.fs.ino) && l.fs.txn == old(l.fs.txn) && 1 <= inum
      invariant forall j :: 0 < j < inum && j < |l.fs.disk| ==> !l.fs.disk[j].kind.Free?
    {
      if l.fs.disk[inum].kind.Free? {
        OwnedFresh(l.fs.blocks, l.fs.sb, l.fs.ino, inum, kind);
        l.fs.WriteDinode(inum, Fresh(kind));
        l.fs.ino := l.fs.ino[inum := Fresh(kind)];
        return Some(inum);
      }
      inum := inum + 1;
    }
    return None;
  }

  /** The first off bytes of inode i, as it was in (b0, i0), have been copied to ditto c. */
  predicate Propagated(b0: seq<Block>, i0: seq<Dinode>, b: seq<Block>, ino: seq<Dinode>, i: nat, c: nat, off: nat) {
    && i < |i0| == |ino| && IsDitto(ino, i, c) && WellFormed(i0[i]) && WellFormed(ino[c]) && off <= i0[i].size
    && Data(b, ino[c])[..off] == Content(b0, i0[i])[..off]
    && Present(b, ino[c], 0, off)
    && (if off == 0 then NoHoles(b, ino[c]) else ino[c].size == i0[i].size)
  }

  lemma PropagatedMore(b0: seq<Block>, i0: seq<Dinode>, b1: seq<Block>, i1: seq<Dinode>, b2: seq<Block>,
                       i2: seq<Dinode>,
                       i: nat, c: nat, off: nat, o: nat, x: nat)
    requires Propagated(b0, i0, b1, i1, i, c, off) && i1[i] == i0[i] && SameFile(b0, b1, i0[i]) && off < x <= o
    requires Copied(b1, Resized(i1, i, c), b2, i2, i, c, off, o) && i2[c] == Resized(i1, i, c)[c].(addrs := i2[c].addrs)
    ensures Propagated(b0, i0, b2, i2, i, c, x) && OthersSame(b1, i1, b2, i2, {c})
  {
    var r1 := Resized(i1, i, c);
    assert forall j :: 0 <= j < |i1| && j != c ==> i2[j] == r1[j] == i1[j] && SameFile(b1, b2, r1[j]);
    DataByAddrs(b1, i1[c], r1[c]);
    SameContent(b0, b1, i0[i]);
    PrefixCopied(Data(b1, r1[c]), Content(b0, i0[i]), off, o, x);
    forall y | 0 <= y < x ensures Ref(b2, i2[c], y / BSIZE) != 0 {
      if y < off {
        assert Ref(b1, i1[c], y / BSIZE) != 0;
        assert Ref(b1, r1[c], y / BSIZE) == Ref(b1, i1[c], y / BSIZE);
      }
    }
  }

  lemma PropagatedStays(b0: seq<Block>, i0: seq<Dinode>, b1: seq<Block>, i1: seq<Dinode>, b2: seq<Block>,
                        i2: seq<Dinode>,
                        i: nat, c: nat, e: nat, off: nat)
    requires Propagated(b0, i0, b1, i1, i, c, off) && OthersSame(b1, i1, b2, i2, {e}) && c != e
    ensures Propagated(b0, i0, b2, i2, i, c, off)
  {
    assert i2[c] == i1[c] && SameFile(b1, b2, i1[c]);
    SameFileSameData(b1, b2, i1[c]);
  }

  /** Copy the bytes off..x to a locked ditto (sysfile.c:331, sysfile.c:343). False: the run ended in balloc. */
  method PropagateBytes(l: InodeLayer, i: nat, c: nat, off: nat, x: nat, ghost b0: seq<Block>, ghost i0: seq<Dinode>)
      returns (ok: bool)
    requires l.Linked() && Propagated(b0, i0, l.fs.blocks, l.fs.ino, i, c, off) && l.valid[c]
    requires l.fs.ino[i] == i0[i] && SameFile(b0, l.fs.blocks, i0[i]) && NoHoles(b0, i0[i]) && off < x <= i0[i].size
    modifies l.fs`blocks, l.fs`disk, l.fs`ino, l.fs`txn
    ensures ok ==> l.Linked() && l.fs.disk == old(l.fs.disk)
    ensures ok ==> OthersSame(old(l.fs.blocks), old(l.fs.ino), l.fs.blocks, l.fs.ino, {c})
    ensures ok ==> Propagated(b0, i0, l.fs.blocks, l.fs.ino, i, c, x)
    ensures ok && x - off <= PROPAGATE_MAX && old(l.fs.txn).logged == {} && l.fs.sb.size < BPB ==>
      |l.fs.txn.logged| <= PROPAGATE_SECTORS
    ensures !ok ==> l.fs.OutOfBlocks()
  {
    ghost var b1, i1, logged1 := l.fs.blocks, l.fs.ino, l.fs.txn.logged;
    SameContent(b0, b1, i0[i]);
    var o := l.Iduplicate(i, c, off, x - off);
    if o.None? {
      return false;
    }
    if logged1 == {} {
      LoggedAtMost(l.fs.blocks, l.fs.sb, l.fs.ino[c], l.fs.txn.logged, off, o.value, l.fs.sb.InodeBlock(c));
    }
    PropagatedMore(b0, i0, b1, i1, l.fs.blocks, l.fs.ino, i, c, off, o.value, x);
    return true;
  }

  /** One transaction of ipropagate before its commit: lock a ditto, copy the bytes off..x, unlock
      (sysfile.c:327-348). */
  method PropagateTo(l: InodeLayer, i: nat, c: nat, off: nat, x: nat, ghost b0: seq<Block>, ghost i0: seq<Dinode>)
      returns (ok: bool)
    requires l.Linked() && l.fs.Begun() && Propagated(b0, i0, l.fs.blocks, l.fs.ino, i, c, off) && !l.busy[c]
    requires l.fs.ino[i] == i0[i] && SameFile(b0, l.fs.blocks, i0[i]) && NoHoles(b0, i0[i]) && off < x <= i0[i].size
    modifies l, l.fs`blocks, l.fs`disk, l.fs`ino, l.fs`txn
    ensures ok ==>
      l.Linked() && l.busy == old(l.busy) && l.valid == old(l.valid)[c := true] && l.fs.disk == old(l.fs.disk)
    ensures ok ==> OthersSame(old(l.fs.blocks), old(l.fs.ino), l.fs.blocks, l.fs.ino, {c})
    ensures ok ==> Propagated(b0, i0, l.fs.blocks, l.fs.ino, i, c, x)
    ensures ok && x - off <= PROPAGATE_MAX && l.fs.sb.size < BPB ==> |l.fs.txn.logged| <= PROPAGATE_SECTORS
    ensures !ok ==> l.fs.OutOfBlocks()
  {
    var s := l.LockUnverified(c);
    ok := PropagateBytes(l, i, c, off, x, b0, i0);
    l.Iunlock(c);
    assert l.busy == old(l.busy);
  }

  /** Inode i is as it was, child1 has its first off1 bytes and child2 its first off2; nothing but the dittos
      changed. */
  predicate PropagatedBoth(b0: seq<Block>, i0: seq<Dinode>, b: seq<Block>, ino: seq<Dinode>, i: nat, off1: nat,
                           off2: nat) {
    && HasDittos(i0, i) && WellFormed(i0[i]) && NoHoles(b0, i0[i]) && SameFile(b0, b, i0[i])
    && (i0[i].child1 != 0 ==> i0[i].child1 != i0[i].child2)
    && OthersSame(b0, i0, b, ino, Children(i0[i]))
    && (i0[i].child1 != 0 ==> Propagated(b0, i0, b, ino, i, i0[i].child1, off1))
    && (i0[i].child2 != 0 ==> Propagated(b0, i0, b, ino, i, i0[i].child2, off2))
  }

  lemma OthersSameMore(b0: seq<Block>, i0: seq<Dinode>, b1: seq<Block>, i1: seq<Dinode>, b2: seq<Block>,
                       i2: seq<Dinode>, kids: set<nat>, c: nat)
    requires OthersSame(b0, i0, b1, i1, kids) && OthersSame(b1, i1, b2, i2, {c}) && c in kids
    ensures OthersSame(b0, i0, b2, i2, kids)
  {
    forall j | 0 <= j < |i0| && j !in kids ensures i2[j] == i0[j] && SameFile(b0, b2, i0[j]) {
      SameFileTrans(b0, b1, b2, i0[j]);
    }
  }

  /** One ditto has come from its offset to x; the other is where it was. */
  lemma PropagatedOne(b0: seq<Block>, i0: seq<Dinode>, b1: seq<Block>, i1: seq<Dinode>, b2: seq<Block>, i2: seq<Dinode>,
                      i: nat, c: nat, off1: nat, off2: nat, x: nat)
    requires PropagatedBoth(b0, i0, b1, i1, i, off1, off2) && c in Children(i0[i])
    requires OthersSame(b1, i1, b2, i2, {c}) && Propagated(b0, i0, b2, i2, i, c, x)
    ensures PropagatedBoth(b0, i0, b2, i2, i, if c == i0[i].child1 then x else off1, if c == i0[i].child2 then x
                           else off2)
  {
    OthersSameMore(b0, i0, b1, i1, b2, i2, Children(i0[i]), c);
    if c != i0[i].child1 && i0[i].child1 != 0 {
      PropagatedStays(b0, i0, b1, i1, b2, i2, i, i0[i].child1, c, off1);
    }
    if c != i0[i].child2 && i0[i].child2 != 0 {
      PropagatedStays(b0, i0, b1, i1, b2, i2, i, i0[i].child2, c, off2);
    }
  }

  ghost predicate Propagating(l: InodeLayer, b0: seq<Block>, i0: seq<Dinode>, disk0: seq<Dinode>, busy0: seq<bool>,
                              i: nat, off1: nat, off2: nat)
    reads l, l.fs
  {
    && l.Linked() && PropagatedBoth(b0, i0, l.fs.blocks, l.fs.ino, i, off1, off2) && l.fs.disk == disk0
    && l.valid[i] && l.busy == busy0
  }

  /** Between two transactions; each has fitted the log so far. */
  ghost predicate InTurn(l: InodeLayer, past0: seq<Ops>, base0: seq<Block>)
    reads l, l.fs
  {
    l.fs.Idle() && Committed(past0, base0, l.fs.past, l.fs.base, l.fs.sb, PROPAGATE_SECTORS, true)
  }

  /** One ditto's part of a round, which takes it from off to x. */
  method PropagateChild(l: InodeLayer, i: nat, c: nat, off: nat, x: nat, ghost b0: seq<Block>, ghost i0: seq<Dinode>,
                        ghost disk0: seq<Dinode>, ghost busy0: seq<bool>, ghost off1: nat, ghost off2: nat,
                        ghost past0: seq<Ops>, ghost base0: seq<Block>) returns (ok: bool)
    requires Propagating(l, b0, i0, disk0, busy0, i, off1, off2) && off < x <= i0[i].size && x - off <= PROPAGATE_MAX
    requires InTurn(l, past0, base0)
    requires c in Children(i0[i]) && !busy0[c] && off == if c == i0[i].child1 then off1 else off2
    modifies l, l.fs
    ensures ok && c == i0[i].child1 ==> Propagating(l, b0, i0, disk0, busy0, i, x, off2)
    ensures ok && c == i0[i].child2 ==> Propagating(l, b0, i0, disk0, busy0, i, off1, x)
    ensures ok ==> InTurn(l, past0, base0)
    ensures !ok ==> l.fs.OutOfBlocks()
  {
    ghost var b1, i1 := l.fs.blocks, l.fs.ino;
    l.BeginTrans();
    ok := PropagateTo(l, i, c, off, x, b0, i0);
    if ok {
      PropagatedOne(b0, i0, b1, i1, l.fs.blocks, l.fs.ino, i, c, off1, off2, x);
      CommittedMore(past0, base0, l.fs.past, l.fs.base, l.fs.txn, l.fs.disk, l.fs.sb, PROPAGATE_SECTORS, true);
      l.fs.CommitTrans();
    }
  }

  /** One round of ipropagate: child1, then child2 (sysfile.c:327-348). */
  method PropagateNext(l: InodeLayer, i: nat, off: nat, x: nat, ghost b0: seq<Block>, ghost i0: seq<Dinode>,
                       ghost disk0: seq<Dinode>,
                       ghost busy0: seq<bool>, ghost past0: seq<Ops>, ghost base0: seq<Block>)
    returns (ok: bool)
    requires Propagating(l, b0, i0, disk0, busy0, i, off, off) && off < x <= i0[i].size && x - off <= PROPAGATE_MAX
    requires InTurn(l, past0, base0)
    requires forall c :: c in Children(i0[i]) ==> !busy0[c]
    modifies l, l.fs
    ensures ok ==> Propagating(l, b0, i0, disk0, busy0, i, x, x) && InTurn(l, past0, base0)
    ensures !ok ==> l.fs.OutOfBlocks()
  {
    var c1, c2 := l.fs.ino[i].child1, l.fs.ino[i].child2;
    if c1 != 0 {
      ok := PropagateChild(l, i, c1, off, x, b0, i0, disk0, busy0, off, off, past0, base0);
      if !ok {
        return;
      }
    }
    if c2 != 0 {
      ok := PropagateChild(l, i, c2, off, x, b0, i0, disk0, busy0, x, off, past0, base0);
      if !ok {
        return;
      }
    }
    return true;
  }

  /** Copy an inode to its dittos, PROPAGATE_MAX bytes a transaction (sysfile.c:313-353). False: the run ended in
      balloc. */
  method Ipropagate(l: InodeLayer, i: nat, ghost b0: seq<Block>, ghost i0: seq<Dinode>, ghost disk0: seq<Dinode>,
                    ghost busy0: seq<bool>, ghost past0: seq<Ops>, ghost base0: seq<Block>) returns (ok: bool)
    requires InTurn(l, past0, base0)
    requires Propagating(l, b0, i0, disk0, busy0, i, 0, 0) && (forall c :: c in Children(i0[i]) ==> !busy0[c])
    modifies l, l.fs
    ensures ok ==> i < |i0| && Propagating(l, b0, i0, disk0, busy0, i, i0[i].size, i0[i].size)
    ensures ok ==> InTurn(l, past0, base0)
    ensures !ok ==> l.fs.OutOfBlocks()
  {
    var n := l.fs.ino[i].size;
    var off: nat := 0;
    while off < n
      invariant off <= n == i0[i].size
      invariant Propagating(l, b0, i0, disk0, busy0, i, off, off) && InTurn(l, past0, base0)
    {
      var x := if n - off > PROPAGATE_MAX then off + PROPAGATE_MAX else n;
      ok := PropagateNext(l, i, off, x, b0, i0, disk0, busy0, past0, base0);
      if !ok {
        return;
      }
      off := x;
    }
    return true;
  }

  /** Once everything is propagated, iupdate makes the mirror invariant true. */
  lemma MirrorEstablished(b0: seq<Block>, i0: seq<Dinode>, b: seq<Block>, ino: seq<Dinode>, ino': seq<Dinode>, i: nat)
    requires i < |i0| && PropagatedBoth(b0, i0, b, ino, i, i0[i].size, i0[i].size)
    requires Stamped(b, ino, ino', i, Children(i0[i]))
    ensures MirrorOk(b, ino', i) && Content(b, ino'[i]) == Content(b0, i0[i])
    ensures OthersSame(b0, i0, b, ino', {i} + Children(i0[i]))
  {
    var d := ino[i];
    SameContent(b0, b, i0[i]);
    DataByAddrs(b, ino'[i], d);
    forall c | c in Children(i0[i]) ensures Mirrored(b, ino', i, c) {
      assert Propagated(b0, i0, b, ino, i, c, i0[i].size);
      DataByAddrs(b, ino'[c], ino[c]);
    }
  }

  /** Nothing propagated leaves holes. */
  lemma PropagatedNoHoles(b0: seq<Block>, i0: seq<Dinode>, b: seq<Block>, ino: seq<Dinode>, i: nat)
    requires i < |i0| && PropagatedBoth(b0, i0, b, ino, i, i0[i].size, i0[i].size)
    requires forall j :: 0 <= j < |i0| ==> WellFormed(i0[j]) && NoHoles(b0, i0[j])
    ensures forall j :: 0 <= j < |ino| ==> WellFormed(ino[j]) && NoHoles(b, ino[j])
    ensures forall c :: c in Children(i0[i]) ==>
      IsDitto(ino, i, c) && WellFormed(ino[c]) && NoHoles(b, ino[c].(size := i0[i].size))
  {
    forall c | c in Children(i0[i]) ensures IsDitto(ino, i, c) && WellFormed(ino[c]) &&
        NoHoles(b, ino[c].(size := i0[i].size)) {
      assert Propagated(b0, i0, b, ino, i, c, i0[i].size);
      var d := ino[c].(size := i0[i].size);
      forall k | 0 <= k < MAXFILE && k * BSIZE < d.size ensures Ref(b, d, k) != 0 {
        assert Ref(b, ino[c], (k * BSIZE) / BSIZE) != 0;
        assert Ref(b, d, k) == Ref(b, ino[c], k);
      }
    }
    forall j | 0 <= j < |ino| ensures WellFormed(ino[j]) && NoHoles(b, ino[j]) {
      if j !in Children(i0[i]) {
        SameContent(b0, b, i0[j]);
      } else {
        assert Propagated(b0, i0, b, ino, i, j, i0[i].size);
        if i0[i].size != 0 {
          NoHolesSame(b, ino[j].(size := i0[i].size), ino[j]);
        }
      }
    }
  }

  /** Inode i can be given dittos: it is locked, and those it has are dittos that nobody holds. */
  ghost predicate Expandable(l: InodeLayer, i: nat)
    reads l, l.fs
  {
    && l.Valid() && FreeUnused(l.fs.disk, l.valid, l.busy) && |l.fs.disk| == l.fs.sb.ninodes
    && HasDittos(l.fs.ino, i) && (l.fs.ino[i].child1 != 0 ==> l.fs.ino[i].child1 != l.fs.ino[i].child2)
    && l.valid[i] && l.busy[i] && forall c :: c in Children(l.fs.ino[i]) ==> !l.busy[c]
  }

  /** Inode i is as before but for its dittos, and so is everything else but those. */
  predicate OnlyAdopted(i0: seq<Dinode>, ino: seq<Dinode>, i: nat) {
    && i < |i0| == |ino| && ino[i] == i0[i].(child1 := ino[i].child1, child2 := ino[i].child2)
    && Children(i0[i]) <= Children(ino[i])
    && forall j :: 0 <= j < |i0| && j != i && j !in Children(ino[i]) ==> ino[j] == i0[j]
  }

  function WithDitto(d: Dinode, c: nat, first: bool): Dinode {
    if first then d.(child1 := c) else d.(child2 := c)
  }

  lemma AdoptedOk(i0: seq<Dinode>, ino: seq<Dinode>, i: nat, c: nat, first: bool)
    requires HasDittos(i0, i) && (i0[i].child1 != 0 ==> i0[i].child1 != i0[i].child2)
    requires (if first then i0[i].child1 == 0 else i0[i].child2 == 0) && 0 < c < |i0| && c != i && i0[c].kind.Free?
    requires ino == i0[c := Fresh(Kind.Ditto)][i := WithDitto(i0[i], c, first)]
    ensures HasDittos(ino, i) && (ino[i].child1 != 0 ==> ino[i].child1 != ino[i].child2) && OnlyAdopted(i0, ino, i)
    ensures Children(ino[i]) == Children(i0[i]) + {c} && c !in Children(i0[i])
  {
  }

  lemma AdoptedNoHoles(b: seq<Block>, i0: seq<Dinode>, ino: seq<Dinode>, i: nat, c: nat, first: bool)
    requires i < |i0| && c < |i0| && c != i && ino == i0[c := Fresh(Kind.Ditto)][i := WithDitto(i0[i], c, first)]
    requires forall j :: 0 <= j < |i0| ==> WellFormed(i0[j]) && NoHoles(b, i0[j])
    requires WellFormed(ino[i])
    ensures forall j :: 0 <= j < |ino| ==> WellFormed(ino[j]) && NoHoles(b, ino[j])
  {
    NoHolesSame(b, i0[i], ino[i]);
  }

  /** Record the new ditto c, in memory, as the first or the second of inode i; i0 are the inodes before. */
  method Attach(l: InodeLayer, i: nat, c: nat, first: bool, ghost i0: seq<Dinode>)
    requires l.Linked() && FreeUnused(l.fs.disk, l.valid, l.busy) && |l.fs.disk| == l.fs.sb.ninodes
    requires HasDittos(i0, i) && (i0[i].child1 != 0 ==> i0[i].child1 != i0[i].child2)
    requires (if first then i0[i].child1 == 0 else i0[i].child2 == 0) && 0 < c < |i0| && c != i && i0[c].kind.Free?
    requires forall j :: 0 <= j < |i0| ==> WellFormed(i0[j]) && NoHoles(l.fs.blocks, i0[j])
    requires l.fs.ino == i0[c := Fresh(Kind.Ditto)] && l.valid[i] && l.busy[i] && !l.busy[c]
    requires forall k :: k in Children(i0[i]) ==> !l.busy[k]
    modifies l.fs`ino
    ensures Expandable(l, i) && OnlyAdopted(i0, l.fs.ino, i) && l.fs.ino[i] == WithDitto(i0[i], c, first)
  {
    l.SetInode(i, WithDitto(l.fs.ino[i], c, first));
    AdoptedNoHoles(l.fs.blocks, i0, l.fs.ino, i, c, first);
    AdoptedOk(i0, l.fs.ino, i, c, first);
  }

  /** Allocate a ditto and record it (sysfile.c:372-373, 379-380). */
  method Adopt(l: InodeLayer, i: nat, first: bool) returns (ok: bool)
    requires Expandable(l, i) && (if first then l.fs.ino[i].child1 == 0 else l.fs.ino[i].child2 == 0)
    modifies l.fs`disk, l.fs`ino, l.fs`txn
    ensures ok ==> Expandable(l, i) && OnlyAdopted(old(l.fs.ino), l.fs.ino, i)
    ensures ok && first ==> l.fs.ino[i].child1 != 0 && l.fs.ino[i].child2 == old(l.fs.ino)[i].child2
    ensures ok && !first ==> l.fs.ino[i].child2 != 0 && l.fs.ino[i].child1 == old(l.fs.ino)[i].child1
    ensures ok ==> |l.fs.txn.logged| <= |old(l.fs.txn).logged| + 1
    ensures !ok ==> NoFreeInode(l.fs.disk)
  {
    OwnedWellFormed(l.fs.blocks, l.fs.sb, l.fs.ino);
    var c := Ialloc(l, Kind.Ditto);
    if c.None? {
      return false;
    }
    Attach(l, i, c.value, first, old(l.fs.ino));
    return true;
  }

  lemma OthersAdopted(i0: seq<Dinode>, b: seq<Block>, i1: seq<Dinode>, b2: seq<Block>, i2: seq<Dinode>, i: nat)
    requires OnlyAdopted(i0, i1, i) && OthersSame(b, i1, b2, i2, {i} + Children(i1[i]))
    ensures OthersSame(b, i0, b2, i2, {i} + Children(i1[i]))
  {
    forall j | 0 <= j < |i0| && j !in {i} + Children(i1[i]) ensures i2[j] == i0[j] && SameFile(b, b2, i0[j]) {
      assert i1[j] == i0[j];
    }
  }

  /** One of the dittos asked for is there already (sysfile.c:370, 377). */
  predicate HasDittosAlready(d: Dinode, ndittos: int) {
    (ndittos > 0 && d.child1 != 0) || (ndittos > 1 && d.child2 != 0)
  }

  /** The allocations of duplicate (sysfile.c:369-381). */
  method AllocDittos(l: InodeLayer, i: nat, ndittos: int) returns (r: Outcome)
    requires Expandable(l, i) && l.fs.Begun()
    modifies l.fs`disk, l.fs`ino, l.fs`txn
    ensures r.Duplicated? ==> |l.fs.txn.logged| <= 2
    ensures !r.Ended? ==> (r.Refused? <==> HasDittosAlready(old(l.fs.ino)[i], ndittos))
    ensures r.Duplicated? ==> Expandable(l, i) && OnlyAdopted(old(l.fs.ino), l.fs.ino, i)
    ensures r.Duplicated? ==> (l.fs.ino[i].child1 != 0 <==> ndittos > 0 || old(l.fs.ino)[i].child1 != 0)
    ensures r.Duplicated? ==> (l.fs.ino[i].child2 != 0 <==> ndittos > 1 || old(l.fs.ino)[i].child2 != 0)
    ensures r.Ended? ==> NoFreeInode(l.fs.disk)
  {
    if ndittos > 0 {
      if l.fs.ino[i].child1 != 0 {
        return Refused;
      }
      var ok := Adopt(l, i, true);
      if !ok {
        return Ended;
      }
    }
    if ndittos > 1 {
      if l.fs.ino[i].child2 != 0 {
        return Refused;
      }
      var ok := Adopt(l, i, false);
      if !ok {
        return Ended;
      }
    }
    return Duplicated;
  }

  lemma FewRecords(sb: Superblock, i: nat, c1: nat, c2: nat)
    ensures |RecordSectors(sb, i, c1, c2)| <= 3
  {
  }

  /** The last transaction of duplicate: iupdate (sysfile.c:386-387). */
  method RecordMirror(l: InodeLayer, i: nat, ghost b0: seq<Block>, ghost i0: seq<Dinode>, ghost disk0: seq<Dinode>,
                      ghost busy0: seq<bool>)
    requires l.fs.Begun() && i < |i0| && Propagating(l, b0, i0, disk0, busy0, i, i0[i].size, i0[i].size)
    requires forall j :: 0 <= j < |i0| ==> WellFormed(i0[j]) && NoHoles(b0, i0[j])
    requires forall c :: c in Children(i0[i]) ==> !busy0[c]
    modifies l, l.fs`blocks, l.fs`disk, l.fs`ino, l.fs`txn
    ensures |l.fs.txn.logged| <= 3
    ensures l.Valid() && MirrorOk(l.fs.blocks, l.fs.ino, i) && l.fs.disk[i] == l.fs.ino[i] && l.busy == busy0
    ensures Content(l.fs.blocks, l.fs.ino[i]) == Content(b0, i0[i])
    ensures l.fs.ino[i].child1 == i0[i].child1 && l.fs.ino[i].child2 == i0[i].child2
    ensures OthersSame(b0, i0, l.fs.blocks, l.fs.ino, {i} + Children(i0[i]))
  {
    PropagatedNoHoles(b0, i0, l.fs.blocks, l.fs.ino, i);
    ghost var i1 := l.fs.ino;
    l.IupdateExt(i);
    FewRecords(l.fs.sb, i, i1[i].child1, i1[i].child2);
    assert l.fs.txn.logged == RecordSectors(l.fs.sb, i, i1[i].child1, i1[i].child2);
    MirrorEstablished(b0, i0, l.fs.blocks, i1, l.fs.ino, i);
  }

  /** Copy everything to the dittos and record it: after this they mirror the inode (sysfile.c:383-387). */
  method Mirror(l: InodeLayer, i: nat, ghost past0: seq<Ops>, ghost base0: seq<Block>) returns (ok: bool)
    requires Expandable(l, i) && InTurn(l, past0, base0)
    modifies l, l.fs
    ensures ok ==> InTurn(l, past0, base0)
    ensures ok ==> l.Valid() && MirrorOk(l.fs.blocks, l.fs.ino, i)
    ensures ok ==> l.fs.disk[i] == l.fs.ino[i] && l.busy == old(l.busy) && WellFormed(old(l.fs.ino)[i])
    ensures ok ==> Content(l.fs.blocks, l.fs.ino[i]) == Content(old(l.fs.blocks), old(l.fs.ino)[i])
    ensures ok ==> l.fs.ino[i].child1 == old(l.fs.ino)[i].child1 && l.fs.ino[i].child2 == old(l.fs.ino)[i].child2
    ensures ok ==> OthersSame(old(l.fs.blocks), old(l.fs.ino), l.fs.blocks, l.fs.ino, {i} + Children(old(l.fs.ino)[i]))
    ensures !ok ==> l.fs.OutOfBlocks()
  {
    ghost var b0, i0 := l.fs.blocks, l.fs.ino;
    OwnedWellFormed(b0, l.fs.sb, i0);
    ghost var disk0, busy0 := l.fs.disk, l.busy;
    ok := Ipropagate(l, i, b0, i0, disk0, busy0, past0, base0);
    if ok {
      l.BeginTrans();
      RecordMirror(l, i, b0, i0, disk0, busy0);
      CommittedMore(past0, base0, l.fs.past, l.fs.base, l.fs.txn, l.fs.disk, l.fs.sb, PROPAGATE_SECTORS, true);
      l.fs.CommitTrans();
    }
  }

  /** Give a locked inode ndittos dittos (sysfile.c:355-392, after the inode has been found and locked). */
  method DuplicateInode(l: InodeLayer, i: nat, ndittos: int) returns (r: Outcome)
    requires Expandable(l, i) && l.fs.Idle()
    modifies l, l.fs
    ensures !r.Ended? ==> (r.Refused? <==> HasDittosAlready(old(l.fs.ino)[i], ndittos))
    // the source returns from there with the inode locked and the transaction open
    ensures r.Refused? ==>
      l.busy == old(l.busy) && l.busy[i] && l.fs.open && l.fs.past == old(l.fs.past) && l.fs.base == old(l.fs.base)
    ensures r.Duplicated? ==> InTurn(l, old(l.fs.past), old(l.fs.base))
    ensures r.Duplicated? ==> l.Valid() && MirrorOk(l.fs.blocks, l.fs.ino, i) && l.fs.disk[i] == l.fs.ino[i]
    ensures r.Duplicated? ==> l.busy == old(l.busy)[i := false] && WellFormed(old(l.fs.ino)[i])
    ensures r.Duplicated? ==> Content(l.fs.blocks, l.fs.ino[i]) == Content(old(l.fs.blocks), old(l.fs.ino)[i])
    ensures r.Duplicated? ==> OthersSame(old(l.fs.blocks), old(l.fs.ino), l.fs.blocks, l.fs.ino,
                                         {i} + Children(l.fs.ino[i]))
    ensures r.Duplicated? ==> (l.fs.ino[i].child1 != 0 <==> ndittos > 0 || old(l.fs.ino)[i].child1 != 0)
    ensures r.Duplicated? ==> (l.fs.ino[i].child2 != 0 <==> ndittos > 1 || old(l.fs.ino)[i].child2 != 0)
    ensures r.Ended? ==> NoFreeInode(l.fs.disk) || l.fs.OutOfBlocks()
  {
    assert InUse(l.fs.blocks, l.fs.sb, l.fs.ino[i]);
    CommittedNothing(l.fs.past, l.fs.base, l.fs.sb, PROPAGATE_SECTORS, true);
    l.BeginTrans();
    r := AllocDittos(l, i, ndittos);
    if r.Duplicated? {
      CommittedMore(l.fs.past, l.fs.base, l.fs.past, l.fs.base, l.fs.txn, l.fs.disk, l.fs.sb, PROPAGATE_SECTORS, true);
      l.fs.CommitTrans();
      DataByAddrs(l.fs.blocks, old(l.fs.ino)[i], l.fs.ino[i]);
      ghost var i1 := l.fs.ino;
      var ok := Mirror(l, i, old(l.fs.past), old(l.fs.base));
      if !ok {
        return Ended;
      }
      OthersAdopted(old(l.fs.ino), old(l.fs.blocks), i1, l.fs.blocks, l.fs.ino, i);
      l.Iunlock(i);
    }
  }
}
