/**
 filewrite (file.c:116-165): a write split into transactions that fit the log, each of which is on the disk as a whole
 or not at all.
 */
module FileCalls {
  import opened Bitmap
  import opened Bytes
  import opened Blocks
  import opened Dinodes
  import opened FileSystem
  import opened Ditto
  import opened Overrun
  import opened Trails
  import opened Transactions
  import LogTheory

  const WRITE_MAX: nat := 4096       // ((LOGSIZE-1-1-2) / 2) * 512, file.c:133
  const WRITE_SECTORS: nat := 12

  datatype WriteResult = Wrote(n: nat) | Failed | CorruptFile | Ended

  /** The content ilock_trans hands over: the inode's own, or that of the replica it was repaired from. */
  function Healed(blocks: seq<Block>, ino: seq<Dinode>, valid: seq<bool>, i: nat): seq<byte>
    requires |ino| == |valid| && HasDittos(ino, i) && forall j :: 0 <= j < |ino| ==> WellFormed(ino[j])
  {
    match Verdict(blocks, ino, valid, i)
    case Replica(c) => if c < |ino| then Content(blocks, ino[c]) else []
    case _ => Content(blocks, ino[i])
  }

  // ---- One transaction -----------------------------------------------------------------

  ghost predicate Loaded(l: InodeLayer, i: nat)
    reads l, l.fs
  {
    l.Valid() && l.DittosReady(i) && l.valid[i] && (l.fs.ino[i].kind.File? || l.fs.ino[i].kind.Dir?)
  }

  /** A loaded file, ready to be written by whoever locks it; no transaction is open. */
  ghost predicate Writable(l: InodeLayer, i: nat)
    reads l, l.fs
  {
    Loaded(l, i) && !l.busy[i] && l.fs.Idle()
  }

  /** Loaded with its dittos free, now that it is written. */
  lemma StillReady(b0: seq<Block>, i0: seq<Dinode>, b: seq<Block>, ino: seq<Dinode>, i: nat, off: nat, src: seq<byte>,
                   busy: seq<bool>)
    requires WriteDone(b0, i0, b, ino, i, off, src) && |busy| == |i0| && HasDittos(i0, i)
    requires forall c :: c in Children(i0[i]) ==> !busy[c]
    ensures DittosAgree(ino, i) && forall c :: c in Children(ino[i]) ==> c < |busy| && !busy[c]
  {
  }

  /** ilock on a loaded file. */
  method Hold(l: InodeLayer, i: nat)
    requires Loaded(l, i) && !l.busy[i]
    modifies l`busy, l`valid, l.fs`blocks, l.fs`ino, l.fs`txn
    ensures Loaded(l, i) && l.busy == old(l.busy)[i := true]
    ensures l.fs.blocks == old(l.fs.blocks) && l.fs.ino == old(l.fs.ino) && l.fs.txn == old(l.fs.txn)
  {
    var s := l.Ilock(i);
  }

  /** iunlock. */
  method Release(l: InodeLayer, i: nat)
    requires Loaded(l, i)
    modifies l`busy
    ensures Loaded(l, i) && !l.busy[i]
  {
    l.Iunlock(i);
  }

  /** writei on a locked file, as the first thing of a transaction. */
  method WriteHeld(l: InodeLayer, i: nat, off: nat, src: seq<byte>) returns (r: Transfer<nat>)
    requires Loaded(l, i) && off < UINT_LIMIT && |src| <= WRITE_MAX && l.fs.Begun()
    modifies l, l.fs`blocks, l.fs`disk, l.fs`ino, l.fs`txn
    ensures r.Err? <==> !old(l.CanWrite(i, off, |src|))
    ensures r.Err? ==> l.fs.blocks == old(l.fs.blocks) && l.fs.ino == old(l.fs.ino) && l.fs.txn == old(l.fs.txn)
    ensures !r.Stopped? ==> Loaded(l, i)
    ensures r.Done? ==> WriteDone(old(l.fs.blocks), old(l.fs.ino), l.fs.blocks, l.fs.ino, i, off, src) == true
    ensures r.Done? ==> OnRecordNow(l.fs.disk, l.fs.ino, i, Children(old(l.fs.ino)[i]))
    ensures r.Done? ==> FitsExactly(l.fs.txn.ops, old(l.fs.blocks), old(l.fs.ino), l.fs.sb, i, off, |src|) == true
    ensures r.Done? && Children(old(l.fs.ino)[i]) == {} && l.fs.sb.size < BPB ==> AtMost(l.fs.txn.ops, WRITE_SECTORS)
    ensures l.fs.past == old(l.fs.past) && l.fs.base == old(l.fs.base) && l.fs.open
    ensures r.Stopped? ==> l.fs.OutOfBlocks()
  {
    ghost var b0, i0, busy0 := l.fs.blocks, l.fs.ino, l.busy;
    r := l.Writei(i, off, src);
    if r.Done? {
      StillReady(b0, i0, l.fs.blocks, l.fs.ino, i, off, src, busy0);
      OwnedWellFormed(l.fs.blocks, l.fs.sb, l.fs.ino);
      WriteFits(l.fs.base, l.fs.txn, b0, i0, l.fs.blocks, l.fs.ino, l.fs.sb, i, off, src);
      if Children(i0[i]) == {} && l.fs.sb.size < BPB {
        AloneFits(l.fs.txn.ops, b0, i0, l.fs.sb, i, off, |src|);
      }
    }
  }

  /** The inodes that have the content of inode i: itself and, if it is mirrored, its dittos. */
  function Group(blocks: seq<Block>, ino: seq<Dinode>, i: nat): set<nat>
    requires i < |ino|
  {
    if MirrorOk(blocks, ino, i) then {i} + Children(ino[i]) else {i}
  }

  lemma GroupKept(b0: seq<Block>, i0: seq<Dinode>, b: seq<Block>, ino: seq<Dinode>, disk: seq<Dinode>, i: nat, off: nat,
                  src: seq<byte>)
    requires WriteDone(b0, i0, b, ino, i, off, src) && OnRecordNow(disk, ino, i, Children(i0[i]))
    ensures Group(b0, i0, i) <= Group(b, ino, i) && OnRecordNow(disk, ino, i, Children(ino[i]))
  {
  }

  lemma GroupRecorded(blocks: seq<Block>, ino: seq<Dinode>, disk: seq<Dinode>, sb: Superblock, i: nat, js: set<nat>)
    requires Owned(blocks, sb, ino) && i < |ino| && OnRecordNow(disk, ino, i, Children(ino[i])) &&
      js <= Group(blocks, ino, i)
    ensures WellFormed(ino[i]) && forall j :: j in js ==>
      j < |disk| && InUse(blocks, sb, disk[j]) && Content(blocks, disk[j]) == Content(blocks, ino[i])
  {
    assert InUse(blocks, sb, ino[i]);
    forall j | j in js
      ensures j < |disk| && InUse(blocks, sb, disk[j]) && Content(blocks, disk[j]) == Content(blocks, ino[i])
    {
      if j != i {
        assert Mirrored(blocks, ino, i, j) && InUse(blocks, sb, ino[j]);
        SameLinked(blocks, sb, ino[j], disk[j]);
      }
    }
  }

  lemma SameLinked(blocks: seq<Block>, sb: Superblock, d: Dinode, e: Dinode)
    requires InUse(blocks, sb, d) && e == d.(nlink := 1)
    ensures InUse(blocks, sb, e) && Content(blocks, e) == Content(blocks, d)
  {
    forall k | 0 <= k <= MAXFILE ensures Ref(blocks, e, k) == Ref(blocks, d, k) {
    }
    DataByAddrs(blocks, d, e);
  }

  /** commit_trans, after which the file is on the disk (file.c:154). */
  ghost method CommitWrite(l: InodeLayer, i: nat, bounded: bool, js: set<nat>, past0: seq<Ops>, base0: seq<Block>)
    requires l.fs.past == past0 && l.fs.base == base0
    requires l.Linked() && l.fs.open && i < |l.fs.ino| && OnRecordNow(l.fs.disk, l.fs.ino, i, Children(l.fs.ino[i]))
    requires js <= Group(l.fs.blocks, l.fs.ino, i)
    requires bounded && l.fs.sb.size < BPB ==> AtMost(l.fs.txn.ops, WRITE_SECTORS)
    modifies l.fs`txn, l.fs`base, l.fs`past, l.fs`open
    ensures l.Linked() && l.fs.Idle() && WellFormed(l.fs.ino[i]) && l.fs.past == past0 + [old(l.fs.txn).ops]
    ensures old(Loaded(l, i)) ==> Loaded(l, i)
    ensures CommittedStep(past0, base0, l.fs.past, l.fs.base, l.fs.sb, WRITE_SECTORS, bounded, js,
                          Content(l.fs.blocks, l.fs.ino[i]))
  {
    var fs := l.fs;
    LoggedOnce(fs.txn.ops);
    GroupRecorded(fs.blocks, fs.ino, fs.disk, fs.sb, i, js);
    StepCommitted(fs.past, fs.base, fs.txn, fs.blocks, fs.disk, fs.sb, WRITE_SECTORS, bounded, js,
                  Content(fs.blocks, fs.ino[i]));
    fs.CommitTrans();
  }

  /** The same when nothing has been logged. */
  ghost method CommitNone(l: InodeLayer, i: nat)
    requires Loaded(l, i) && !l.busy[i] && l.fs.Begun()
    modifies l.fs`open
    ensures Writable(l, i)
  {
    l.fs.CommitNothing();
  }

  /** ilock, writei, iunlock (file.c:150-153). */
  method WriteLocked(l: InodeLayer, i: nat, off: nat, src: seq<byte>) returns (r: Transfer<nat>)
    requires Loaded(l, i) && !l.busy[i] && l.fs.Begun() && off < UINT_LIMIT && |src| <= WRITE_MAX
    modifies l, l.fs`blocks, l.fs`disk, l.fs`ino, l.fs`txn
    ensures r.Err? <==> !old(l.CanWrite(i, off, |src|))
    ensures r.Err? ==> l.fs.blocks == old(l.fs.blocks) && l.fs.ino == old(l.fs.ino) && l.fs.txn == old(l.fs.txn)
    ensures !r.Stopped? ==> Loaded(l, i) && !l.busy[i]
    ensures r.Done? ==> WriteDone(old(l.fs.blocks), old(l.fs.ino), l.fs.blocks, l.fs.ino, i, off, src) == true
    ensures r.Done? ==> OnRecordNow(l.fs.disk, l.fs.ino, i, Children(old(l.fs.ino)[i]))
    ensures r.Done? ==> FitsExactly(l.fs.txn.ops, old(l.fs.blocks), old(l.fs.ino), l.fs.sb, i, off, |src|) == true
    ensures r.Done? && Children(old(l.fs.ino)[i]) == {} && l.fs.sb.size < BPB ==> AtMost(l.fs.txn.ops, WRITE_SECTORS)
    ensures l.fs.past == old(l.fs.past) && l.fs.base == old(l.fs.base) && l.fs.open
    ensures r.Stopped? ==> l.fs.OutOfBlocks()
  {
    Hold(l, i);
    r := WriteHeld(l, i, off, src);
    if !r.Stopped? {
      Release(l, i);
    }
  }

  /**
   One transaction of filewrite: begin_trans, ilock, writei, iunlock, commit_trans (file.c:149-154). A writei that
   refuses has logged nothing, and committing nothing writes nothing (log.c:144).
   */
  method WriteOne(l: InodeLayer, i: nat, off: nat, src: seq<byte>) returns (r: Transfer<nat>)
    requires Writable(l, i) && off < UINT_LIMIT && |src| <= WRITE_MAX
    modifies l, l.fs
    ensures r.Err? <==> !old(l.CanWrite(i, off, |src|))
    ensures r.Err? ==> l.fs.blocks == old(l.fs.blocks) && l.fs.ino == old(l.fs.ino)
    ensures r.Err? ==> l.fs.past == old(l.fs.past) && l.fs.base == old(l.fs.base)
    ensures !r.Stopped? ==> Writable(l, i)
    ensures r.Done? ==> WriteDone(old(l.fs.blocks), old(l.fs.ino), l.fs.blocks, l.fs.ino, i, off, src)
    ensures r.Done? ==>
      CommittedStep(old(l.fs.past), old(l.fs.base), l.fs.past, l.fs.base, l.fs.sb, WRITE_SECTORS,
                    Children(old(l.fs.ino)[i]) == {}, Group(old(l.fs.blocks), old(l.fs.ino), i),
                    Content(l.fs.blocks, l.fs.ino[i]))
    ensures r.Done? ==> |l.fs.past| == |old(l.fs.past)| + 1
    ensures r.Done? ==>
      FitsExactly(l.fs.past[|old(l.fs.past)|], old(l.fs.blocks), old(l.fs.ino), l.fs.sb, i, off, |src|)
    ensures r.Stopped? ==> l.fs.OutOfBlocks()
  {
    ghost var b0, i0, past0, base0 := l.fs.blocks, l.fs.ino, l.fs.past, l.fs.base;
    l.BeginTrans();
    r := WriteLocked(l, i, off, src);
    if r.Err? {
      CommitNone(l, i);
    }
    if r.Done? {
      GroupKept(b0, i0, l.fs.blocks, l.fs.ino, l.fs.disk, i, off, src);
      CommitWrite(l, i, Children(i0[i]) == {}, Group(b0, i0, i), past0, base0);
    }
  }

  // ---- The loop ------------------------------------------------------------------------

  /** The state of filewrite's loop after k bytes. */
  predicate WrittenSoFar(b0: seq<Block>, i0: seq<Dinode>, b: seq<Block>, ino: seq<Dinode>, i: nat, off: nat,
                         src: seq<byte>, k: nat) {
    && i < |i0| == |ino| && WellFormed(i0[i]) && WellFormed(ino[i]) && k <= |src| && (k > 0 ==> off <= i0[i].size)
    && Content(b, ino[i]) == WrittenUpTo(Content(b0, i0[i]), off, src, k)
    && (MirrorOk(b0, i0, i) ==> MirrorOk(b, ino, i))
    && OthersSame(b0, i0, b, ino, {i} + Children(i0[i])) && Children(ino[i]) == Children(i0[i])
  }

  lemma WrittenMore(b0: seq<Block>, i0: seq<Dinode>, b1: seq<Block>, i1: seq<Dinode>, b2: seq<Block>, i2: seq<Dinode>,
                    i: nat, off: nat, src: seq<byte>, k: nat, x: nat, o: nat)
    requires WrittenSoFar(b0, i0, b1, i1, i, off, src, k) && k < x <= |src| && o == off + k
    requires WriteDone(b1, i1, b2, i2, i, o, src[k..x])
    ensures WrittenSoFar(b0, i0, b2, i2, i, off, src, x)
  {
    WriteOn(Content(b0, i0[i]), off, src, k, x);
    OthersSameTrans(b0, i0, b1, i1, b2, i2, {i} + Children(i0[i]));
  }

  lemma FewerInodes(past0: seq<Ops>, base0: seq<Block>, past: seq<Ops>, base: seq<Block>, sb: Superblock, n: nat,
                    bounded: bool, js: set<nat>, ks: set<nat>, content: seq<byte>)
    requires CommittedStep(past0, base0, past, base, sb, n, bounded, js, content) && ks <= js
    ensures CommittedStep(past0, base0, past, base, sb, n, bounded, ks, content)
  {
  }

  lemma WrittenNothing(b: seq<Block>, ino: seq<Dinode>, i: nat, off: nat, src: seq<byte>)
    requires i < |ino| && forall j :: 0 <= j < |ino| ==> WellFormed(ino[j])
    ensures WrittenSoFar(b, ino, b, ino, i, off, src, 0)
  {
  }

  /** How long the file is by now, and that its end is in range. */
  lemma WrittenSize(b0: seq<Block>, i0: seq<Dinode>, b: seq<Block>, ino: seq<Dinode>, i: nat, off: nat, src: seq<byte>,
                    k: nat)
    requires WrittenSoFar(b0, i0, b, ino, i, off, src, k)
    ensures |Content(b, ino[i])| == ino[i].size <= MAXBYTES < UINT_LIMIT
    ensures k == 0 ==> ino[i].size == |Content(b0, i0[i])|
    ensures k > 0 ==> off <= |Content(b0, i0[i])| && off + k <= ino[i].size
  {
  }

  // ---- Repair, then write ----------------------------------------------------------------

  /** The file can be opened for writing: its record is intact, nobody holds it or its dittos, no transaction is
      open. */
  ghost predicate Openable(l: InodeLayer, i: nat)
    reads l, l.fs
  {
    && l.Valid() && l.fs.Idle() && l.RecordsIntact(i) && !l.busy[i] && (l.fs.ino[i].kind.File? || l.fs.ino[i].kind.Dir?)
    && (forall c :: c in Children(l.fs.ino[i]) ==> !l.busy[c])
    && forall j :: 0 <= j < |l.fs.ino| ==> WellFormed(l.fs.ino[j])
  }

  lemma ReadyAfterRepair(b0: seq<Block>, i0: seq<Dinode>, busy0: seq<bool>, b: seq<Block>, ino: seq<Dinode>,
                         busy: seq<bool>, i: nat)
    requires DittosAgree(i0, i) && OthersSame(b0, i0, b, ino, {i}) && SameRecord(i0[i], ino[i]) && |busy0| == |i0|
    requires busy == busy0[i := true] && forall c :: c in Children(i0[i]) ==> !busy0[c]
    ensures DittosAgree(ino, i) && Children(ino[i]) == Children(i0[i]) && ino[i].kind == i0[i].kind
    ensures |busy| == |ino| && forall c :: c in Children(ino[i]) ==> !busy[c]
  {
    forall c | c in Children(i0[i]) ensures ino[c] == i0[c] {
    }
  }

  lemma RestoredHealed(b0: seq<Block>, i0: seq<Dinode>, disk0: seq<Dinode>, valid0: seq<bool>,
                       b: seq<Block>, ino: seq<Dinode>, disk: seq<Dinode>, i: nat)
    requires Restored(b0, i0, disk0, valid0, b, ino, disk, i)
    ensures Content(b, ino[i]) == Healed(b0, i0, valid0, i) && (MirrorOk(b0, i0, i) ==> b == b0 && ino == i0)
  {
  }

  /** What the repair of a file comes to: its content is the healed one, nothing else has changed, and a mirror is
      as it was. */
  predicate Entered(b0: seq<Block>, i0: seq<Dinode>, valid0: seq<bool>, b: seq<Block>, ino: seq<Dinode>, i: nat) {
    && |i0| == |valid0| && HasDittos(i0, i) && (forall j :: 0 <= j < |i0| ==> WellFormed(i0[j])) && i < |ino|
    && WellFormed(ino[i])
    && Content(b, ino[i]) == Healed(b0, i0, valid0, i) && OthersSame(b0, i0, b, ino, {i})
    && Children(ino[i]) == Children(i0[i])
    && (MirrorOk(b0, i0, i) ==> b == b0 && ino == i0)
  }

  /** ilock_trans on the file. False: E_CORRUPTED. */
  method LockHealed(l: InodeLayer, i: nat) returns (ok: bool)
    requires Openable(l, i)
    modifies l, l.fs
    ensures FirstIntact(old(l.fs.blocks), old(l.fs.ino), old(l.valid), l.fs.blocks, l.fs.ino, i, !ok)
    ensures ok ==> Loaded(l, i) && Entered(old(l.fs.blocks), old(l.fs.ino), old(l.valid), l.fs.blocks, l.fs.ino, i)
    ensures l.fs.Idle() && Committed(old(l.fs.past), old(l.fs.base), l.fs.past, l.fs.base, l.fs.sb, RESCUE_SECTORS,
                                     true)
    ensures !ok ==>
      l.fs.blocks == old(l.fs.blocks) && l.fs.ino == old(l.fs.ino) && l.fs.disk == old(l.fs.disk) &&
      l.busy == old(l.busy)
  {
    var s := l.IlockTrans(i);
    if s.Corrupted? {
      return false;
    }
    ReadyAfterRepair(old(l.fs.blocks), old(l.fs.ino), old(l.busy), l.fs.blocks, l.fs.ino, l.busy, i);
    RestoredHealed(old(l.fs.blocks), old(l.fs.ino), old(l.fs.disk), old(l.valid), l.fs.blocks, l.fs.ino, l.fs.disk, i);
    return true;
  }

  /** filewrite's first step: lock with repair, then unlock (file.c:137-142). False: E_CORRUPTED. */
  method Enter(l: InodeLayer, i: nat) returns (ok: bool)
    requires Openable(l, i)
    modifies l, l.fs
    ensures FirstIntact(old(l.fs.blocks), old(l.fs.ino), old(l.valid), l.fs.blocks, l.fs.ino, i, !ok)
    ensures ok ==> Writable(l, i) && Entered(old(l.fs.blocks), old(l.fs.ino), old(l.valid), l.fs.blocks, l.fs.ino, i)
    ensures Committed(old(l.fs.past), old(l.fs.base), l.fs.past, l.fs.base, l.fs.sb, RESCUE_SECTORS, true)
    ensures !ok ==>
      l.fs.blocks == old(l.fs.blocks) && l.fs.ino == old(l.fs.ino) && l.fs.disk == old(l.fs.disk) &&
      l.busy == old(l.busy)
  {
    ok := LockHealed(l, i);
    if ok {
      Release(l, i);
    }
  }

  /** What filewrite has made of the file after k bytes: content `c`, as it was handed over, with those bytes
      written. */
  predicate FileWritten(b0: seq<Block>, i0: seq<Dinode>, b: seq<Block>, ino: seq<Dinode>, i: nat, c: seq<byte>,
                        off: nat, src: seq<byte>, k: nat) {
    && i < |i0| == |ino| && WellFormed(ino[i]) && k <= |src| && (k > 0 ==> off <= |c|)
    && Content(b, ino[i]) == WrittenUpTo(c, off, src, k)
    && OthersSame(b0, i0, b, ino, {i} + Children(i0[i])) && (MirrorOk(b0, i0, i) ==> MirrorOk(b, ino, i))
  }

  /** Nothing but the file and its dittos changes from before the repair to after the write, and a mirror stays one. */
  lemma HealedThenWritten(b0: seq<Block>, i0: seq<Dinode>, b1: seq<Block>, i1: seq<Dinode>, b2: seq<Block>,
                          i2: seq<Dinode>,
                          i: nat, c: seq<byte>, off: nat, src: seq<byte>, k: nat)
    requires OthersSame(b0, i0, b1, i1, {i}) && i < |i0| && Children(i1[i]) == Children(i0[i])
    requires MirrorOk(b0, i0, i) ==> b1 == b0 && i1 == i0
    requires WrittenSoFar(b1, i1, b2, i2, i, off, src, k) && Content(b1, i1[i]) == c
    ensures FileWritten(b0, i0, b2, i2, i, c, off, src, k)
  {
    OthersSameTrans(b0, i0, b1, i1, b2, i2, {i} + Children(i0[i]));
  }

  /** The transaction for the bytes k..x of src, the first k being written already. */
  method WriteChunk(l: InodeLayer, i: nat, off: nat, src: seq<byte>, k: nat, x: nat, ghost b0: seq<Block>,
                    ghost i0: seq<Dinode>,
                    ghost past0: seq<Ops>, ghost base0: seq<Block>, ghost off0: nat) returns (r: Transfer<nat>)
    requires Writable(l, i) && off == off0 + k < UINT_LIMIT && k < |src| && x == ChunkEnd(|src|, k, WRITE_MAX)
    requires WrittenSoFar(b0, i0, l.fs.blocks, l.fs.ino, i, off0, src, k)
    requires Trailed(past0, base0, l.fs.past, l.fs.base, l.fs.sb, WRITE_SECTORS, Children(i0[i]) == {},
                     Group(b0, i0, i), Content(b0, i0[i]), off0, src, WRITE_MAX, k)
    modifies l, l.fs
    ensures r.Err? ==> off0 > |Content(b0, i0[i])| || off0 + x > MAXBYTES
    ensures r.Err? ==> WrittenSoFar(b0, i0, l.fs.blocks, l.fs.ino, i, off0, src, k)
    ensures r.Err? ==> l.fs.past == old(l.fs.past) && l.fs.base == old(l.fs.base)
    ensures r.Done? ==> off0 + x < UINT_LIMIT && WrittenSoFar(b0, i0, l.fs.blocks, l.fs.ino, i, off0, src, x)
    ensures r.Done? ==>
      Trailed(past0, base0, l.fs.past, l.fs.base, l.fs.sb, WRITE_SECTORS, Children(i0[i]) == {}, Group(b0, i0, i),
              Content(b0, i0[i]), off0, src, WRITE_MAX, x)
    ensures !r.Stopped? ==> Writable(l, i)
    ensures r.Stopped? ==> l.fs.OutOfBlocks()
  {
    ghost var b1, i1, past1, base1 := l.fs.blocks, l.fs.ino, l.fs.past, l.fs.base;
    WrittenSize(b0, i0, b1, i1, i, off0, src, k);
    r := WriteOne(l, i, off, src[k..x]);
    if r.Done? {
      WrittenMore(b0, i0, b1, i1, l.fs.blocks, l.fs.ino, i, off0, src, k, x, off);
      FewerInodes(past1, base1, l.fs.past, l.fs.base, l.fs.sb, WRITE_SECTORS, Children(i0[i]) == {}, Group(b1, i1, i),
                  Group(b0, i0, i), Content(l.fs.blocks, l.fs.ino[i]));
      TrailedMore(past0, base0, past1, base1, l.fs.past, l.fs.base, l.fs.sb, WRITE_SECTORS, Children(i0[i]) == {},
                  Group(b0, i0, i), Content(b0, i0[i]), off0, src, WRITE_MAX, k, x);
    }
  }

  class File {
    const l: InodeLayer
    const inum: nat
    var off: nat

    constructor (l: InodeLayer, inum: nat)
      ensures this.l == l && this.inum == inum && off == 0
    {
      this.l, this.inum, off := l, inum, 0;
    }

    ghost predicate Progress(b0: seq<Block>, i0: seq<Dinode>, past0: seq<Ops>, base0: seq<Block>, off0: nat,
                             src: seq<byte>, k: nat)
      reads this, l, l.fs
    {
      && Writable(l, inum) && off == off0 + k < UINT_LIMIT
      && WrittenSoFar(b0, i0, l.fs.blocks, l.fs.ino, inum, off0, src, k)
      && Trailed(past0, base0, l.fs.past, l.fs.base, l.fs.sb, WRITE_SECTORS, Children(i0[inum]) == {},
                 Group(b0, i0, inum), Content(b0, i0[inum]), off0, src, WRITE_MAX, k)
    }

    /** One turn of the loop, from k bytes to x (file.c:145-160). */
    method WriteNext(src: seq<byte>, k: nat, x: nat, ghost b0: seq<Block>, ghost i0: seq<Dinode>,
                     ghost past0: seq<Ops>, ghost base0: seq<Block>, ghost off0: nat) returns (r: Transfer<nat>)
      requires Progress(b0, i0, past0, base0, off0, src, k) && k < |src| && x == ChunkEnd(|src|, k, WRITE_MAX)
      modifies this`off, l, l.fs
      ensures r.Err? ==> off0 > |Content(b0, i0[inum])| || off0 + x > MAXBYTES
      ensures r.Err? ==> Progress(b0, i0, past0, base0, off0, src, k)
      ensures r.Done? ==> Progress(b0, i0, past0, base0, off0, src, x)
      ensures r.Stopped? ==> l.fs.OutOfBlocks()
    {
      r := WriteChunk(l, inum, off, src, k, x, b0, i0, past0, base0, off0);
      if r.Done? {
        off := off + (x - k);
      }
    }

    /** The chunk loop of filewrite (file.c:144-162); k counts the bytes written. */
    method WriteLoop(src: seq<byte>, ghost b0: seq<Block>, ghost i0: seq<Dinode>, ghost past0: seq<Ops>,
                     ghost base0: seq<Block>,
                     ghost off0: nat) returns (r: WriteResult, k: nat)
      requires Progress(b0, i0, past0, base0, off0, src, 0)
      modifies this`off, l, l.fs
      ensures r.Wrote? || r.Failed? ==> Progress(b0, i0, past0, base0, off0, src, k)
      ensures r.Wrote? ==> r.n == k == |src|
      ensures r.Failed? ==> k < |src| && (off0 > |Content(b0, i0[inum])| ||
                                          off0 + ChunkEnd(|src|, k, WRITE_MAX) > MAXBYTES)
      ensures !r.CorruptFile?
      ensures r.Ended? ==> l.fs.OutOfBlocks()
    {
      k := 0;
      while k < |src|
        invariant k <= |src| && Progress(b0, i0, past0, base0, off0, src, k)
      {
        var x := ChunkEnd(|src|, k, WRITE_MAX);
        var t := WriteNext(src, k, x, b0, i0, past0, base0, off0);
        if t.Stopped? {
          return Ended, k;
        }
        if t.Err? {
          return Failed, k;
        }
        k := x;
      }
      r := WriteResult.Wrote(k);
    }

    /**
     filewrite on a file or directory (file.c:116-163). A file found damaged is repaired first; then the file is
     overwritten or extended at the offset, which moves along by the k bytes written; a write that fails has written a
     prefix of whole chunks. past1 and base1 are what had been committed when the repair was done: the transactions
     since are the write's, and each leaves the file with its whole chunks on the disk, and the dittos that mirror it.
     */
    method Write(src: seq<byte>)
      returns (r: WriteResult, ghost k: nat, ghost past1: seq<Ops>, ghost base1: seq<Block>, ghost js: set<nat>)
      requires Openable(l, inum) && off < UINT_LIMIT
      modifies this`off, l, l.fs
      ensures r.CorruptFile? <==> NoneIntact(old(l.fs.blocks), old(l.fs.ino), old(l.valid), inum)
      ensures r.CorruptFile? ==>
        off == old(off) && l.fs.blocks == old(l.fs.blocks) && l.fs.ino == old(l.fs.ino) && l.fs.disk == old(l.fs.disk)
      ensures r.Wrote? || r.Failed? ==>
        var c := Healed(old(l.fs.blocks), old(l.fs.ino), old(l.valid), inum);
        && off == old(off) + k
        && FileWritten(old(l.fs.blocks), old(l.fs.ino), l.fs.blocks, l.fs.ino, inum, c, old(off), src, k)
        && Trailed(past1, base1, l.fs.past, l.fs.base, l.fs.sb, WRITE_SECTORS, Children(old(l.fs.ino)[inum]) == {},
                   js, c, old(off), src, WRITE_MAX, k)
        && inum in js && Group(old(l.fs.blocks), old(l.fs.ino), inum) <= js
        && (r.Failed? ==> k < |src| && (old(off) > |c| || old(off) + ChunkEnd(|src|, k, WRITE_MAX) > MAXBYTES))
      ensures r.Wrote? ==> r.n == k == |src|
      ensures r.Wrote? || r.Failed? ==>
        l.fs.Idle() && Committed(old(l.fs.past), old(l.fs.base), past1, base1, l.fs.sb, RESCUE_SECTORS, true)
      ensures r.Ended? ==> l.fs.OutOfBlocks()
    {
      var ok := Enter(l, inum);
      k, past1, base1, js := 0, l.fs.past, l.fs.base, {};
      if !ok {
        return CorruptFile, k, past1, base1, js;
      }
      r, k, js := WriteEntered(src, old(l.fs.blocks), old(l.fs.ino));
    }

    /** filewrite once the file is known to be good. */
    method WriteEntered(src: seq<byte>, ghost b0: seq<Block>, ghost i0: seq<Dinode>)
        returns (r: WriteResult, ghost k: nat, ghost js: set<nat>)
      requires Writable(l, inum) && off < UINT_LIMIT && WellFormed(l.fs.ino[inum])
      requires inum < |i0| && OthersSame(b0, i0, l.fs.blocks, l.fs.ino, {inum}) &&
        Children(l.fs.ino[inum]) == Children(i0[inum])
      requires MirrorOk(b0, i0, inum) ==> l.fs.blocks == b0 && l.fs.ino == i0
      modifies this`off, l, l.fs
      ensures !r.CorruptFile? && (r.Wrote? ==> r.n == k == |src|) && (r.Ended? ==> l.fs.OutOfBlocks())
      ensures !r.Ended? ==>
        var c := Content(old(l.fs.blocks), old(l.fs.ino)[inum]);
        && l.fs.Idle() && off == old(off) + k && FileWritten(b0, i0, l.fs.blocks, l.fs.ino, inum, c, old(off), src, k)
        && Trailed(old(l.fs.past), old(l.fs.base), l.fs.past, l.fs.base, l.fs.sb, WRITE_SECTORS,
                   Children(i0[inum]) == {}, js, c, old(off), src, WRITE_MAX, k)
        && inum in js && Group(b0, i0, inum) <= js
        && (r.Failed? ==> k < |src| && (old(off) > |c| || old(off) + ChunkEnd(|src|, k, WRITE_MAX) > MAXBYTES))
    {
      ghost var b1, i1 := l.fs.blocks, l.fs.ino;
      js := Group(b1, i1, inum);
      OwnedWellFormed(b1, l.fs.sb, i1);
      WrittenNothing(b1, i1, inum, off, src);
      TrailedNothing(l.fs.past, l.fs.base, l.fs.sb, WRITE_SECTORS, Children(i1[inum]) == {}, Group(b1, i1, inum),
                     Content(b1, i1[inum]), off, src, WRITE_MAX);
      var n;
      r, n := WriteLoop(src, l.fs.blocks, l.fs.ino, l.fs.past, l.fs.base, off);
      k := n;
      if !r.Ended? {
        HealedThenWritten(b0, i0, b1, i1, l.fs.blocks, l.fs.ino, inum, Content(b1, i1[inum]), old(off), src, n);
      }
    }
  }
}
