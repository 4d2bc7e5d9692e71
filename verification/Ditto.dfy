/**
 The inode layer of fs.c: checksums, locking with verification, mirrored writes
 to ditto inodes, and repair from a replica.
 */
module Ditto {
  import opened Bitmap
  import opened Bytes
  import opened Blocks
  import opened FileSystem
  import opened Trails
  import opened Transactions
  import opened Checksum
  import opened Dinodes
  import opened Wrappers

  const RESCUE_MAX: nat := 2048      // ((LOGSIZE-1-1-2) / 4) * 512, fs.c:526

  const RESCUE_SECTORS: nat := 9

  /** What ilock returns: 0, the number of an intact replica, E_CORRUPTED; or it sleeps, or panics with "no type". */
  datatype Lock = Locked | Replica(inum: nat) | Corrupted | MustWait | NoType

  /** The inode's content has the checksum recorded for it. */
  predicate Good(blocks: seq<Block>, d: Dinode)
    requires WellFormed(d)
  {
    ChecksumOf(blocks, d) == d.checksum
  }

  /** c is another inode, a ditto without dittos of its own. */
  predicate IsDitto(ino: seq<Dinode>, i: nat, c: nat) {
    c < |ino| && c != i && ino[c].kind.Ditto? && ino[c].child1 == 0 && ino[c].child2 == 0
  }

  /** The children recorded in inode i are dittos. */
  predicate HasDittos(ino: seq<Dinode>, i: nat) {
    && i < |ino|
    && (ino[i].child1 != 0 ==> IsDitto(ino, i, ino[i].child1))
    && (ino[i].child2 != 0 ==> IsDitto(ino, i, ino[i].child2))
  }

  /** c is the checksum of the first off bytes, which are whole words or the whole file. */
  predicate Summed(file: seq<byte>, off: nat, c: bv32) {
    off <= |file| && (off % 4 == 0 || off == |file|) && c == Sum(file[..off])
  }

  /** ilock accepts an inode it has verified before, or that verifies now. */
  predicate Accepted(blocks: seq<Block>, ino: seq<Dinode>, valid: seq<bool>, i: nat)
    requires i < |ino| == |valid| && WellFormed(ino[i])
  {
    valid[i] || Good(blocks, ino[i])
  }

  /** The outcome of a verifying ilock: the inode itself, else child1, else child2, else E_CORRUPTED. */
  function Verdict(blocks: seq<Block>, ino: seq<Dinode>, valid: seq<bool>, i: nat): Lock
    requires |ino| == |valid| && HasDittos(ino, i) && forall j :: 0 <= j < |ino| ==> WellFormed(ino[j])
  {
    if Accepted(blocks, ino, valid, i) then Locked
    else if ino[i].child1 == 0 then Corrupted
    else if Accepted(blocks, ino, valid, ino[i].child1) then Replica(ino[i].child1)
    else if ino[i].child2 == 0 then Corrupted
    else if Accepted(blocks, ino, valid, ino[i].child2) then Replica(ino[i].child2)
    else Corrupted
  }

  /** An inode that passes but is free makes ilock panic when it is loaded. */
  function TypeChecked(ino: seq<Dinode>, valid: seq<bool>, i: nat, r: Lock): Lock
    requires i < |ino| == |valid|
  {
    if r.Locked? && !valid[i] && ino[i].kind.Free? then NoType else r
  }

  /** c is 0 or a ditto with the size, the checksum and the bytes of inode i. */
  predicate Mirrored(blocks: seq<Block>, ino: seq<Dinode>, i: nat, c: nat) {
    c == 0 ||
    (&& i < |ino| && IsDitto(ino, i, c) && WellFormed(ino[i]) && WellFormed(ino[c])
     && ino[c].size == ino[i].size && ino[c].checksum == ino[i].checksum
     && Content(blocks, ino[c]) == Content(blocks, ino[i]))
  }

  /** The mirror invariant: the recorded checksum is the real one, and both dittos repeat the inode. */
  predicate MirrorOk(blocks: seq<Block>, ino: seq<Dinode>, i: nat) {
    && i < |ino| && WellFormed(ino[i]) && Good(blocks, ino[i])
    && Mirrored(blocks, ino, i, ino[i].child1) && Mirrored(blocks, ino, i, ino[i].child2)
    && (ino[i].child1 != 0 ==> ino[i].child1 != ino[i].child2)
  }

  /** Every block of d is in the same slot of d'. */
  predicate SlotsKept(blocks: seq<Block>, d: Dinode, blocks': seq<Block>, d': Dinode) {
    && WellFormed(d) && WellFormed(d')
    && forall l :: 0 <= l <= MAXFILE && Ref(blocks, d, l) != 0 ==> Ref(blocks', d', l) == Ref(blocks, d, l)
  }

  /** Between (blocks, ino) and (blocks', ino') src was written at off into the data of inode j; nothing else of j
      changed. */
  predicate Wrote(blocks: seq<Block>, ino: seq<Dinode>, blocks': seq<Block>, ino': seq<Dinode>, j: nat, off: nat,
                  src: seq<byte>) {
    && j < |ino| == |ino'| && WellFormed(ino[j]) && WellFormed(ino'[j]) && ino'[j] == ino[j].(addrs := ino'[j].addrs)
    && off + |src| <= MAXBYTES && Data(blocks', ino'[j]) == Splice(Data(blocks, ino[j]), off, src)
    && NoHoles(blocks', ino'[j].(size := NewSize(ino[j].size, off, |src|)))
    && SlotsKept(blocks, ino[j], blocks', ino'[j])
  }

  /** A later write to another inode leaves that alone. */
  lemma WroteStays(blocks: seq<Block>, ino: seq<Dinode>, blocks1: seq<Block>, ino1: seq<Dinode>,
                   blocks2: seq<Block>, ino2: seq<Dinode>, j: nat, c: nat, off: nat, src: seq<byte>)
    requires Wrote(blocks, ino, blocks1, ino1, j, off, src) && c < |ino1| && j != c &&
      OnlyGrown(blocks1, ino1, blocks2, ino2, c)
    ensures Wrote(blocks, ino, blocks2, ino2, j, off, src)
  {
    assert ino2[j] == ino1[j] && SameFile(blocks1, blocks2, ino1[j]);
    SameFileSameData(blocks1, blocks2, ino1[j]);
    var d := ino2[j].(size := NewSize(ino[j].size, off, |src|));
    forall l | 0 <= l < MAXFILE && l * BSIZE < d.size ensures Ref(blocks2, d, l) != 0 {
      assert Ref(blocks1, d, l) != 0;
      assert Ref(blocks2, d, l) == Ref(blocks2, ino2[j], l) && Ref(blocks1, d, l) == Ref(blocks1, ino1[j], l);
    }
  }

  /** Every block of d is in the same slot of d', of the same kind and size. */
  predicate KeepsRefs(blocks: seq<Block>, d: Dinode, blocks': seq<Block>, d': Dinode) {
    && SlotsKept(blocks, d, blocks', d') && d'.kind == d.kind && d'.size == d.size
    && d'.child1 == d.child1 && d'.child2 == d.child2
  }

  /** Every inode outside `changed` is the same in memory and has the same blocks with the same contents. */
  predicate OthersSame(blocks: seq<Block>, ino: seq<Dinode>, blocks': seq<Block>, ino': seq<Dinode>,
                       changed: set<nat>) {
    |ino'| == |ino| && forall j :: 0 <= j < |ino| && j !in changed ==>
        ino'[j] == ino[j] && SameFile(blocks, blocks', ino[j])
  }

  lemma OthersSameStep(blocks: seq<Block>, ino: seq<Dinode>, blocks1: seq<Block>, ino1: seq<Dinode>,
                       blocks2: seq<Block>, ino2: seq<Dinode>, changed: set<nat>, c: nat)
    requires OthersSame(blocks, ino, blocks1, ino1, changed) && c < |ino1| && OnlyGrown(blocks1, ino1, blocks2, ino2, c)
    ensures OthersSame(blocks, ino, blocks2, ino2, changed + {c})
  {
    forall j | 0 <= j < |ino| && j !in changed + {c} ensures ino2[j] == ino[j] && SameFile(blocks, blocks2, ino[j]) {
      SameFileTrans(blocks, blocks1, blocks2, ino[j]);
    }
  }

  /** The children of an inode that exist. */
  function Children(d: Dinode): set<nat> {
    (if d.child1 != 0 then {d.child1} else {}) + if d.child2 != 0 then {d.child2} else {}
  }

  function WithFirst(ino: seq<Dinode>, i: nat): set<nat>
    requires i < |ino|
  {
    if ino[i].child1 != 0 then {i} + {ino[i].child1} else {i}
  }

  /** The inodes of kids got the size and checksum of inode i; nothing else changed. */
  predicate KidsStamped(ino: seq<Dinode>, ino': seq<Dinode>, i: nat, kids: set<nat>) {
    && i < |ino| == |ino'| && i !in kids
    && forall j :: 0 <= j < |ino| ==>
      ino'[j] == if j in kids then ino[j].(size := ino[i].size, checksum := ino[i].checksum) else ino[j]
  }

  /** Ditto c, if there is one, got the size and checksum of inode i, and is on the disk with that. */
  predicate KidUpdated(ino: seq<Dinode>, disk: seq<Dinode>, ino': seq<Dinode>, disk': seq<Dinode>, i: nat, c: nat) {
    && i < |ino| == |disk| && (c != 0 ==> c < |ino| && c != i)
    && ino' == (if c != 0 then ino[c := ino[c].(size := ino[i].size, checksum := ino[i].checksum)] else ino)
    && disk' == if c != 0 then disk[c := ino'[c].(nlink := 1)] else disk
  }

  lemma KidsUpdated(i0: seq<Dinode>, d0: seq<Dinode>, i1: seq<Dinode>, d1: seq<Dinode>, i2: seq<Dinode>,
                    d2: seq<Dinode>, i: nat, c1: nat, c2: nat)
    requires KidUpdated(i0, d0, i1, d1, i, c1) && KidUpdated(i1, d1, i2, d2, i, c2) && (c1 != 0 ==> c1 != c2)
    requires c1 == i0[i].child1 && c2 == i0[i].child2
    ensures KidsStamped(i0, i2, i, Children(i0[i])) && DittosOn(d2, i2, Children(i0[i]))
    ensures forall j :: 0 <= j < |d2| && j !in Children(i0[i]) ==> d2[j] == d0[j]
  {
  }

  /** Inode i got the checksum of its content, then the kids its size and checksum. */
  predicate Stamped(blocks: seq<Block>, ino: seq<Dinode>, ino': seq<Dinode>, i: nat, kids: set<nat>) {
    && i < |ino| && WellFormed(ino[i])
    && KidsStamped(ino[i := ino[i].(checksum := ChecksumOf(blocks, ino[i]))], ino', i, kids)
  }

  lemma DataByAddrs(blocks: seq<Block>, d: Dinode, e: Dinode)
    requires WellFormed(d) && WellFormed(e) && d.addrs == e.addrs
    ensures Data(blocks, d) == Data(blocks, e)
  {
    forall o | 0 <= o < MAXBYTES ensures ByteAt(blocks, d, o) == ByteAt(blocks, e, o) {
    }
  }

  /** iupdate by itself keeps the mirror: no byte changes, and the checksum is the one there was. */
  lemma MirrorAfterUpdate(blocks: seq<Block>, ino: seq<Dinode>, ino': seq<Dinode>, i: nat)
    requires MirrorOk(blocks, ino, i) && Stamped(blocks, ino, ino', i, Children(ino[i]))
    ensures MirrorOk(blocks, ino', i) && Content(blocks, ino'[i]) == Content(blocks, ino[i])
  {
    forall j | j in {i} + Children(ino[i]) ensures Data(blocks, ino'[j]) == Data(blocks, ino[j]) {
      DataByAddrs(blocks, ino[j], ino'[j]);
    }
  }

  /** With its new size set, an inode that has been written with its dittos is ready for iupdate. */
  lemma ReadyToStamp(blocks0: seq<Block>, ino0: seq<Dinode>, blocks: seq<Block>, ino: seq<Dinode>, i: nat, off: nat,
                     src: seq<byte>, size: nat)
    requires HasDittos(ino0, i) && size == NewSize(ino0[i].size, off, |src|)
    requires forall j :: j in {i} + Children(ino0[i]) ==> Wrote(blocks0, ino0, blocks, ino, j, off, src)
    requires forall c :: c in Children(ino0[i]) ==> ino0[c].size == ino0[i].size
    ensures i < |ino| == |ino0| && ino[i] == ino0[i].(addrs := ino[i].addrs) && off + |src| <= MAXBYTES
    ensures var ino' := ino[i := ino[i].(size := size)];
      && WellFormed(ino'[i]) && NoHoles(blocks, ino'[i]) && HasDittos(ino', i) && Children(ino'[i]) == Children(ino0[i])
      && forall c :: c in Children(ino0[i]) ==> WellFormed(ino'[c]) && NoHoles(blocks, ino'[c].(size := size))
  {
    assert Wrote(blocks0, ino0, blocks, ino, i, off, src);
    forall c | c in Children(ino0[i]) ensures ino[c] == ino0[c].(addrs := ino[c].addrs) &&
        NoHoles(blocks, ino[c].(size := size)) {
      assert Wrote(blocks0, ino0, blocks, ino, c, off, src);
    }
  }

  /** The content of an inode once the bytes are written and the new size is set. */
  lemma WroteContent(blocks: seq<Block>, ino: seq<Dinode>, blocks': seq<Block>, ino': seq<Dinode>, j: nat, off: nat,
                     src: seq<byte>, d: Dinode)
    requires Wrote(blocks, ino, blocks', ino', j, off, src) && off <= ino[j].size
    requires WellFormed(d) && d.addrs == ino'[j].addrs && d.size == NewSize(ino[j].size, off, |src|)
    ensures Content(blocks', d) == Overwritten(Content(blocks, ino[j]), off, src)
  {
    DataByAddrs(blocks', d, ino'[j]);
    OverwrittenData(Data(blocks, ino[j]), ino[j].size, off, src);
  }

  /** After a mirrored write, the new size and iupdate, inode i holds the overwritten content with its checksum. */
  lemma ContentAfterWrite(blocks: seq<Block>, ino: seq<Dinode>, blocks': seq<Block>, ino1: seq<Dinode>,
                          ino2: seq<Dinode>, i: nat, off: nat, src: seq<byte>, kids: set<nat>)
    requires Wrote(blocks, ino, blocks', ino1, i, off, src) && off <= ino[i].size
    requires Stamped(blocks', ino1[i := ino1[i].(size := NewSize(ino[i].size, off, |src|))], ino2, i, kids)
    ensures WellFormed(ino2[i]) && Good(blocks', ino2[i])
    ensures Content(blocks', ino2[i]) == Overwritten(Content(blocks, ino[i]), off, src)
  {
    var d := ino1[i].(size := NewSize(ino[i].size, off, |src|));
    WroteContent(blocks, ino, blocks', ino1, i, off, src, ino2[i]);
    DataByAddrs(blocks', d, ino2[i]);
  }

  lemma OthersAfterWrite(blocks: seq<Block>, ino: seq<Dinode>, blocks': seq<Block>, ino1: seq<Dinode>,
                         ino2: seq<Dinode>, i: nat, d: Dinode, kids: set<nat>)
    requires OthersSame(blocks, ino, blocks', ino1, {i} + kids) && i < |ino1| &&
      Stamped(blocks', ino1[i := d], ino2, i, kids)
    ensures OthersSame(blocks, ino, blocks', ino2, {i} + kids)
  {
  }

  /** The recorded dittos of i are two different dittos of its size. */
  predicate DittosAgree(ino: seq<Dinode>, i: nat) {
    && HasDittos(ino, i) && (ino[i].child1 != 0 ==> ino[i].child1 != ino[i].child2)
    && forall c :: c in Children(ino[i]) ==> ino[c].size == ino[i].size
  }

  lemma AgreeAfterWrite(blocks: seq<Block>, ino: seq<Dinode>, blocks': seq<Block>, ino1: seq<Dinode>, ino2: seq<Dinode>,
                        i: nat, off: nat, src: seq<byte>)
    requires DittosAgree(ino, i) && i < |ino1|
    requires forall j :: j in {i} + Children(ino[i]) ==> Wrote(blocks, ino, blocks', ino1, j, off, src)
    requires Stamped(blocks', ino1[i := ino1[i].(size := NewSize(ino[i].size, off, |src|))], ino2, i, Children(ino[i]))
    ensures DittosAgree(ino2, i) && ino2[i].kind == ino[i].kind && Children(ino2[i]) == Children(ino[i])
  {
    assert Wrote(blocks, ino, blocks', ino1, i, off, src);
    forall c | c in Children(ino[i]) ensures IsDitto(ino2, i, c) && ino2[c].size == ino2[i].size {
      assert Wrote(blocks, ino, blocks', ino1, c, off, src);
    }
  }

  /** The mirror invariant survives a mirrored write followed by iupdate. */
  lemma MirrorAfterWrite(blocks: seq<Block>, ino: seq<Dinode>, blocks': seq<Block>, ino1: seq<Dinode>,
                         ino2: seq<Dinode>, i: nat, off: nat, src: seq<byte>)
    requires MirrorOk(blocks, ino, i) && off <= ino[i].size && i < |ino1|
    requires forall j :: j in {i} + Children(ino[i]) ==> Wrote(blocks, ino, blocks', ino1, j, off, src)
    requires Stamped(blocks', ino1[i := ino1[i].(size := NewSize(ino[i].size, off, |src|))], ino2, i, Children(ino[i]))
    ensures MirrorOk(blocks', ino2, i)
  {
    ContentAfterWrite(blocks, ino, blocks', ino1, ino2, i, off, src, Children(ino[i]));
    forall c | c in Children(ino[i]) ensures Mirrored(blocks', ino2, i, c) {
      assert Mirrored(blocks, ino, i, c) && Wrote(blocks, ino, blocks', ino1, c, off, src);
      WroteContent(blocks, ino, blocks', ino1, c, off, src, ino2[c]);
    }
  }

  /**
   What a completed writei means. Inode i holds the overwritten content with a matching checksum; its dittos,
   if they mirrored it before, mirror it again; no other file changed.
   */
  predicate WriteDone(b0: seq<Block>, i0: seq<Dinode>, b: seq<Block>, ino: seq<Dinode>, i: nat, off: nat,
                      src: seq<byte>) {
    && i < |i0| == |ino| && WellFormed(i0[i]) && WellFormed(ino[i]) && off <= i0[i].size
    && Content(b, ino[i]) == Overwritten(Content(b0, i0[i]), off, src) && Good(b, ino[i])
    && (MirrorOk(b0, i0, i) ==> MirrorOk(b, ino, i))
    && OthersSame(b0, i0, b, ino, {i} + Children(i0[i]))
    && DittosAgree(ino, i) && ino[i].kind == i0[i].kind && Children(ino[i]) == Children(i0[i])
    && AllSlotsKept(b0, i0, b, ino, {i} + Children(i0[i]))
  }

  /** The inode and its dittos are on the disk as they are in memory, but for the link count of a ditto. */
  predicate OnRecordNow(disk: seq<Dinode>, ino: seq<Dinode>, i: nat, kids: set<nat>) {
    i < |disk| == |ino| && disk[i] == ino[i] && DittosOn(disk, ino, kids)
  }

  predicate DittosOn(disk: seq<Dinode>, ino: seq<Dinode>, kids: set<nat>) {
    |disk| == |ino| && forall c :: c in kids ==> c < |disk| && disk[c] == ino[c].(nlink := 1)
  }

  predicate AllSlotsKept(b0: seq<Block>, i0: seq<Dinode>, b: seq<Block>, ino: seq<Dinode>, js: set<nat>) {
    |i0| == |ino| && forall j :: j in js ==> j < |i0| && SlotsKept(b0, i0[j], b, ino[j])
  }

  lemma SlotsAfterWrite(b0: seq<Block>, i0: seq<Dinode>, b: seq<Block>, i1: seq<Dinode>, d: Dinode, i2: seq<Dinode>,
                        i: nat, off: nat, src: seq<byte>, kids: set<nat>)
    requires i < |i1| && forall j :: j in {i} + kids ==> Wrote(b0, i0, b, i1, j, off, src)
    requires Stamped(b, i1[i := d], i2, i, kids) && d.addrs == i1[i].addrs && WellFormed(d)
    ensures AllSlotsKept(b0, i0, b, i2, {i} + kids)
  {
    assert Wrote(b0, i0, b, i1, i, off, src);
    forall j | j in {i} + kids ensures j < |i0| && SlotsKept(b0, i0[j], b, i2[j]) {
      assert Wrote(b0, i0, b, i1, j, off, src);
      assert i2[j].addrs == i1[j].addrs;
    }
  }

  lemma AfterWrite(b0: seq<Block>, i0: seq<Dinode>, b: seq<Block>, i1: seq<Dinode>, i2: seq<Dinode>, i: nat, off: nat,
                   src: seq<byte>)
    requires DittosAgree(i0, i) && i < |i1| && off <= i0[i].size && OthersSame(b0, i0, b, i1, {i} + Children(i0[i]))
    requires forall j :: j in {i} + Children(i0[i]) ==> Wrote(b0, i0, b, i1, j, off, src)
    requires Stamped(b, i1[i := i1[i].(size := NewSize(i0[i].size, off, |src|))], i2, i, Children(i0[i]))
    ensures WriteDone(b0, i0, b, i2, i, off, src)
  {
    var kids := Children(i0[i]);
    ContentAfterWrite(b0, i0, b, i1, i2, i, off, src, kids);
    OthersAfterWrite(b0, i0, b, i1, i2, i, i1[i].(size := NewSize(i0[i].size, off, |src|)), kids);
    AgreeAfterWrite(b0, i0, b, i1, i2, i, off, src);
    SlotsAfterWrite(b0, i0, b, i1, i1[i].(size := NewSize(i0[i].size, off, |src|)), i2, i, off, src, kids);
    if MirrorOk(b0, i0, i) {
      MirrorAfterWrite(b0, i0, b, i1, i2, i, off, src);
    }
  }

  // ---- What a mirrored write logs ------------------------------------------------------------

  /** Writing n bytes at off into one of the inodes js logs x. */
  ghost predicate TouchedByOne(b0: seq<Block>, i0: seq<Dinode>, b: seq<Block>, ino: seq<Dinode>, sb: Superblock,
                               js: set<nat>, off: nat, n: nat, x: nat) {
    exists j :: j in js && TouchedBy(b0, i0, b, ino, sb, j, off, n, x)
  }

  predicate TouchedBy(b0: seq<Block>, i0: seq<Dinode>, b: seq<Block>, ino: seq<Dinode>, sb: Superblock, j: nat,
                      off: nat, n: nat, x: nat) {
    && j < |i0| == |ino| && WellFormed(i0[j]) && WellFormed(ino[j]) && SlotEnd(off, n) <= MAXFILE
    && Touches(b0, i0[j], b, sb, ino[j], off / BSIZE, SlotEnd(off, n), x)
  }

  /** And that is all that has been logged, if there is one bitmap block. */
  ghost predicate TouchedAll(logged0: set<nat>, logged: set<nat>, b0: seq<Block>, i0: seq<Dinode>, b: seq<Block>,
                             ino: seq<Dinode>, sb: Superblock, js: set<nat>, off: nat, n: nat) {
    sb.size < BPB ==>
      forall x :: x in logged <==> x in logged0 || TouchedByOne(b0, i0, b, ino, sb, js, off, n, x)
  }

  lemma TouchedFirst(logged0: set<nat>, logged: set<nat>, b0: seq<Block>, i0: seq<Dinode>, b: seq<Block>,
                     ino: seq<Dinode>, sb: Superblock, i: nat, off: nat, n: nat)
    requires i < |i0| == |ino|
    requires LogsExactly(logged0, logged, b0, i0[i], b, sb, ino[i], off / BSIZE, SlotEnd(off, n))
    ensures TouchedAll(logged0, logged, b0, i0, b, ino, sb, {i}, off, n)
  {
    if sb.size < BPB {
      forall x ensures x in logged <==> x in logged0 || TouchedByOne(b0, i0, b, ino, sb, {i}, off, n, x) {
        assert TouchedByOne(b0, i0, b, ino, sb, {i}, off, n, x) <==> TouchedBy(b0, i0, b, ino, sb, i, off, n, x);
      }
    }
  }

  /** A write to inode c does not change what was logged for another. */
  lemma TouchedStays(b0: seq<Block>, i0: seq<Dinode>, b1: seq<Block>, i1: seq<Dinode>, b2: seq<Block>, i2: seq<Dinode>,
                     sb: Superblock, j: nat, off: nat, n: nat, x: nat)
    requires |i1| == |i2| && (j < |i1| ==> i2[j] == i1[j] && SameFile(b1, b2, i1[j]))
    ensures TouchedBy(b0, i0, b1, i1, sb, j, off, n, x) <==> TouchedBy(b0, i0, b2, i2, sb, j, off, n, x)
  {
    if j < |i0| == |i1| && WellFormed(i0[j]) && WellFormed(i1[j]) && SlotEnd(off, n) <= MAXFILE {
      forall l | off / BSIZE <= l < SlotEnd(off, n)
        ensures SlotTouches(b0, i0[j], b1, sb, i1[j], l, x) <==> SlotTouches(b0, i0[j], b2, sb, i2[j], l, x)
      {
        assert Ref(b2, i2[j], l) == Ref(b1, i1[j], l) && Ref(b2, i2[j], MAXFILE) == Ref(b1, i1[j], MAXFILE);
      }
    }
  }

  lemma TouchedMore(logged0: set<nat>, logged1: set<nat>, logged2: set<nat>, b0: seq<Block>, i0: seq<Dinode>,
                    b1: seq<Block>, i1: seq<Dinode>, b2: seq<Block>, i2: seq<Dinode>, sb: Superblock, done: set<nat>,
                    c: nat, off: nat, n: nat)
    requires TouchedAll(logged0, logged1, b0, i0, b1, i1, sb, done, off, n) && c < |i0| == |i1| == |i2| && c !in done
    requires OnlyGrown(b1, i1, b2, i2, c) && i1[c] == i0[c] && SameFile(b0, b1, i0[c])
    requires LogsExactly(logged1, logged2, b1, i1[c], b2, sb, i2[c], off / BSIZE, SlotEnd(off, n))
    ensures TouchedAll(logged0, logged2, b0, i0, b2, i2, sb, done + {c}, off, n)
  {
    if sb.size < BPB {
      forall x ensures x in logged2 <==> x in logged0 || TouchedByOne(b0, i0, b2, i2, sb, done + {c}, off, n, x) {
        forall l | off / BSIZE <= l < SlotEnd(off, n)
          ensures SlotTouches(b1, i1[c], b2, sb, i2[c], l, x) <==> SlotTouches(b0, i0[c], b2, sb, i2[c], l, x)
        {
          assert Ref(b1, i1[c], l) == Ref(b0, i0[c], l);
        }
        assert Touches(b1, i1[c], b2, sb, i2[c], off / BSIZE, SlotEnd(off, n), x) <==>
            TouchedBy(b0, i0, b2, i2, sb, c, off, n, x);
        forall j | j in done ensures TouchedBy(b0, i0, b1, i1, sb, j, off, n, x) <==>
            TouchedBy(b0, i0, b2, i2, sb, j, off, n, x) {
          TouchedStays(b0, i0, b1, i1, b2, i2, sb, j, off, n, x);
        }
      }
    }
  }

  /** The inode blocks written by iupdate of inode i with dittos c1 and c2. */
  function RecordSectors(sb: Superblock, i: nat, c1: nat, c2: nat): set<nat> {
    {sb.InodeBlock(i)} + (if c1 != 0 then {sb.InodeBlock(c1)} else {}) + if c2 != 0 then {sb.InodeBlock(c2)} else {}
  }

  /** The same without its last log_write. */
  function EarlierRecords(sb: Superblock, i: nat, c1: nat, c2: nat): set<nat> {
    if c2 != 0 then RecordSectors(sb, i, c1, 0) else if c1 != 0 then {sb.InodeBlock(i)} else {}
  }

  predicate RecordLogged(logged0: set<nat>, t: Txn, sb: Superblock, i: nat, c1: nat, c2: nat) {
    t.logged == logged0 + RecordSectors(sb, i, c1, c2) && t.earlier == logged0 + EarlierRecords(sb, i, c1, c2)
  }

  predicate KidsLogged(t0: Txn, t: Txn, sb: Superblock, c1: nat, c2: nat) {
    var s1 := if c1 != 0 then {sb.InodeBlock(c1)} else {};
    var s2 := if c2 != 0 then {sb.InodeBlock(c2)} else {};
    && t.logged == t0.logged + s1 + s2
    && t.earlier == if c2 != 0 then t0.logged + s1 else if c1 != 0 then t0.logged else t0.earlier
  }

  lemma RecordsLogged(logged0: set<nat>, t1: Txn, t2: Txn, sb: Superblock, i: nat, c1: nat, c2: nat)
    requires t1.logged == logged0 + {sb.InodeBlock(i)} && t1.earlier == logged0 && KidsLogged(t1, t2, sb, c1, c2)
    ensures RecordLogged(logged0, t2, sb, i, c1, c2)
  {
  }

  /** What a whole write has logged, and what it had before its last log_write. */
  ghost predicate WriteLogs(logged0: set<nat>, t: Txn, b0: seq<Block>, i0: seq<Dinode>, b: seq<Block>, ino: seq<Dinode>,
                            sb: Superblock, i: nat, off: nat, n: nat) {
    && i < |i0| && t.logged != {}
    && (sb.size < BPB ==> forall x :: x in t.earlier <==>
          || x in logged0 || x in EarlierRecords(sb, i, i0[i].child1, i0[i].child2)
          || TouchedByOne(b0, i0, b, ino, sb, {i} + Children(i0[i]), off, n, x))
  }

  lemma WriteLogged(logged0: set<nat>, logged1: set<nat>, t: Txn, b0: seq<Block>, i0: seq<Dinode>, b: seq<Block>,
                    i1: seq<Dinode>, d: Dinode, i2: seq<Dinode>, sb: Superblock, i: nat, kids: set<nat>, off: nat,
                    n: nat)
    requires i < |i0| == |i1| == |i2| && TouchedAll(logged0, logged1, b0, i0, b, i1, sb, {i} + Children(i0[i]), off, n)
    requires RecordLogged(logged1, t, sb, i, i0[i].child1, i0[i].child2) && Owned(b, sb, i1) && Owned(b, sb, i2)
    requires Stamped(b, i1[i := d], i2, i, kids) && d.addrs == i1[i].addrs
    ensures WriteLogs(logged0, t, b0, i0, b, i2, sb, i, off, n)
  {
    var js := {i} + Children(i0[i]);
    OwnedWellFormed(b, sb, i1);
    OwnedWellFormed(b, sb, i2);
    assert sb.InodeBlock(i) in t.logged;
    forall x
      ensures TouchedByOne(b0, i0, b, i1, sb, js, off, n, x) <==> TouchedByOne(b0, i0, b, i2, sb, js, off, n, x)
    {
      forall j | j in js
        ensures TouchedBy(b0, i0, b, i1, sb, j, off, n, x) <==> TouchedBy(b0, i0, b, i2, sb, j, off, n, x)
      {
        SameTouches(b0, i0, b, i1, i2, sb, j, off, n, x);
      }
    }
  }

  lemma SameTouches(b0: seq<Block>, i0: seq<Dinode>, b: seq<Block>, i1: seq<Dinode>, i2: seq<Dinode>, sb: Superblock,
                    j: nat, off: nat, n: nat, x: nat)
    requires |i1| == |i2| && (j < |i1| ==> WellFormed(i1[j]) && WellFormed(i2[j]) && i2[j].addrs == i1[j].addrs)
    ensures TouchedBy(b0, i0, b, i1, sb, j, off, n, x) <==> TouchedBy(b0, i0, b, i2, sb, j, off, n, x)
  {
    if j < |i0| == |i1| && WellFormed(i0[j]) && SlotEnd(off, n) <= MAXFILE {
      forall l | off / BSIZE <= l < SlotEnd(off, n)
        ensures SlotTouches(b0, i0[j], b, sb, i1[j], l, x) <==> SlotTouches(b0, i0[j], b, sb, i2[j], l, x)
      {
        assert Ref(b, i1[j], l) == Ref(b, i2[j], l) && Ref(b, i1[j], MAXFILE) == Ref(b, i2[j], MAXFILE);
      }
    }
  }

  lemma KeepsRefsTrans(b0: seq<Block>, d0: Dinode, b1: seq<Block>, d1: Dinode, b2: seq<Block>, d2: Dinode)
    requires KeepsRefs(b0, d0, b1, d1) && KeepsRefs(b1, d1, b2, d2)
    ensures KeepsRefs(b0, d0, b2, d2)
  {
  }

  lemma OthersSameTrans(b0: seq<Block>, i0: seq<Dinode>, b1: seq<Block>, i1: seq<Dinode>, b2: seq<Block>,
                        i2: seq<Dinode>, changed: set<nat>)
    requires OthersSame(b0, i0, b1, i1, changed) && OthersSame(b1, i1, b2, i2, changed)
    ensures OthersSame(b0, i0, b2, i2, changed)
  {
    forall j | 0 <= j < |i0| && j !in changed ensures i2[j] == i0[j] && SameFile(b0, b2, i0[j]) {
      SameFileTrans(b0, b1, b2, i0[j]);
    }
  }

  /** An inode whose file is the same has the same content and still no holes. */
  lemma SameContent(blocks: seq<Block>, blocks': seq<Block>, d: Dinode)
    requires SameFile(blocks, blocks', d)
    ensures Content(blocks', d) == Content(blocks, d) && (NoHoles(blocks, d) ==> NoHoles(blocks', d))
  {
    SameFileSameData(blocks, blocks', d);
  }

  /** Copying file[o..x] behind file[off..o] extends the copy. */
  lemma CopyMore(data: seq<byte>, file: seq<byte>, off: nat, o: nat, x: nat)
    requires off <= o <= x <= |file| <= |data|
    ensures Splice(Splice(data, off, file[off..o]), o, file[o..x]) == Splice(data, off, file[off..x])
  {
  }

  /** What iduplicate needs of its two inodes: one size, and no holes in what will be read. */
  predicate Copyable(blocks: seq<Block>, ino: seq<Dinode>, src: nat, dst: nat) {
    && src < |ino| && src != dst && HasDittos(ino, dst) && WellFormed(ino[src]) && WellFormed(ino[dst])
    && (ino[dst].child1 != 0 ==> ino[dst].child1 != ino[dst].child2)
    && NoHoles(blocks, ino[src]) && ino[dst].size == ino[src].size
    && (!ino[dst].kind.Ditto? ==> NoHoles(blocks, ino[dst]))
  }

  lemma CopyableStays(b0: seq<Block>, i0: seq<Dinode>, b1: seq<Block>, i1: seq<Dinode>, src: nat, dst: nat)
    requires Copyable(b0, i0, src, dst) && OthersSame(b0, i0, b1, i1, {dst}) && KeepsRefs(b0, i0[dst], b1, i1[dst])
    ensures Copyable(b1, i1, src, dst) && Content(b1, i1[src]) == Content(b0, i0[src])
  {
    SameContent(b0, b1, i0[src]);
  }

  /** The inodes with the checksum and size of src recorded in dst. */
  function Resized(ino: seq<Dinode>, src: nat, dst: nat): seq<Dinode>
    requires src < |ino| && dst < |ino|
  {
    ino[dst := ino[dst].(checksum := ino[src].checksum, size := ino[src].size)]
  }

  /** What copying does to the record of dst: a ditto waits for cupdate, anything else is rewritten with its
      checksum. */
  predicate Recorded(blocks: seq<Block>, disk0: seq<Dinode>, disk: seq<Dinode>, d0: Dinode, d: Dinode, dst: nat,
                     moved: bool) {
    if d.kind.Ditto? then d == d0.(addrs := d.addrs) && disk == disk0
    else if moved then WellFormed(d) && Good(blocks, d) && dst < |disk0| && disk == disk0[dst := d]
    else disk == disk0
  }

  /** The bytes off..o of src have been copied into dst; nothing else of any file changed. */
  predicate Copied(b0: seq<Block>, i0: seq<Dinode>, b: seq<Block>, ino: seq<Dinode>, src: nat, dst: nat, off: nat,
                   o: nat) {
    && Copyable(b0, i0, src, dst) && dst < |ino| && off <= o <= i0[src].size
    && OthersSame(b0, i0, b, ino, {dst}) && KeepsRefs(b0, i0[dst], b, ino[dst])
    && Data(b, ino[dst]) == Splice(Data(b0, i0[dst]), off, Content(b0, i0[src])[off..o])
    && Present(b, ino[dst], off, o)
  }

  lemma CopiedMore(b0: seq<Block>, i0: seq<Dinode>, b1: seq<Block>, i1: seq<Dinode>, b2: seq<Block>, i2: seq<Dinode>,
                   src: nat, dst: nat, off: nat, o: nat, x: nat)
    requires Copied(b0, i0, b1, i1, src, dst, off, o) && Copyable(b1, i1, src, dst) && o <= x <= i0[src].size
    requires OthersSame(b1, i1, b2, i2, {dst}) && KeepsRefs(b1, i1[dst], b2, i2[dst]) &&
      Content(b1, i1[src]) == Content(b0, i0[src])
    requires Data(b2, i2[dst]) == Splice(Data(b1, i1[dst]), o, Content(b1, i1[src])[o..x]) && Present(b2, i2[dst], o, x)
    ensures Copied(b0, i0, b2, i2, src, dst, off, x)
  {
    OthersSameTrans(b0, i0, b1, i1, b2, i2, {dst});
    KeepsRefsTrans(b0, i0[dst], b1, i1[dst], b2, i2[dst]);
    CopyMore(Data(b0, i0[dst]), Content(b0, i0[src]), off, o, x);
    forall y | off <= y < x ensures Ref(b2, i2[dst], y / BSIZE) != 0 {
      if y < o {
        assert Ref(b1, i1[dst], y / BSIZE) != 0;
      }
    }
  }

  /** When the sizes agree already, recording size and checksum changes no reference. */
  lemma ResizedSame(blocks: seq<Block>, ino: seq<Dinode>, src: nat, dst: nat)
    requires Copyable(blocks, ino, src, dst) && forall j :: 0 <= j < |ino| ==> WellFormed(ino[j])
    ensures Copyable(blocks, Resized(ino, src, dst), src, dst)
    ensures KeepsRefs(blocks, ino[dst], blocks, Resized(ino, src, dst)[dst])
    ensures OthersSame(blocks, ino, blocks, Resized(ino, src, dst), {dst})
    ensures Data(blocks, Resized(ino, src, dst)[dst]) == Data(blocks, ino[dst])
  {
    var d := Resized(ino, src, dst)[dst];
    DataByAddrs(blocks, ino[dst], d);
    forall l | 0 <= l <= MAXFILE ensures Ref(blocks, d, l) == Ref(blocks, ino[dst], l) {
    }
  }

  /** Then logging s, with the inode's addresses the same. */
  lemma LoggedForUpdate(logged0: set<nat>, logged: set<nat>, blocks: seq<Block>, sb: Superblock, d: Dinode, e: Dinode,
                        lo: nat, hi: nat, s: nat)
    requires WellFormed(d) && WellFormed(e) && d.addrs == e.addrs && hi <= MAXFILE &&
      LoggedFor(logged0, logged, blocks, sb, d, lo, hi, s)
    ensures LoggedFor(logged0, logged + {s}, blocks, sb, e, lo, hi, s)
  {
    forall x | x in logged && x !in logged0 && x != s ensures MayLog(blocks, sb, e, lo, hi, x) {
      assert MayLog(blocks, sb, d, lo, hi, x);
      if l :| lo <= l < hi && x == Ref(blocks, d, l) {
        assert x == Ref(blocks, e, l);
      }
    }
  }

  /** Logging more for further slots of the same, kept, inode. */
  lemma LoggedForMore(logged0: set<nat>, logged1: set<nat>, logged2: set<nat>, b1: seq<Block>, d1: Dinode,
                      b2: seq<Block>, d2: Dinode,
                      sb: Superblock, lo: nat, mid: nat, hi1: nat, hi2: nat, s: nat)
    requires KeepsRefs(b1, d1, b2, d2) && lo <= mid && hi1 <= hi2 <= MAXFILE
    requires LoggedFor(logged0, logged1, b1, sb, d1, lo, hi1, s) && LoggedFor(logged1, logged2, b2, sb, d2, mid, hi2, s)
    ensures LoggedFor(logged0, logged2, b2, sb, d2, lo, hi2, s)
  {
    forall x | x in logged2 && x !in logged0 && x != s ensures x != 0 && MayLog(b2, sb, d2, lo, hi2, x) {
      if x in logged1 {
        assert MayLog(b1, sb, d1, lo, hi1, x);
        if l :| lo <= l < hi1 && x == Ref(b1, d1, l) {
          assert x == Ref(b2, d2, l);
        }
      }
    }
  }

  /** Where copying at least n bytes at off in steps of 512 stops. */
  function CopyEnd(size: nat, off: nat, n: nat): nat {
    var end := off + (n + 511) / 512 * 512;
    if end > size then size else end
  }

  function NextStep(size: nat, o: nat): nat {
    if o + 512 > size then size else o + 512
  }

  /** iduplicate's loop gets to o on its way. */
  predicate OnTheWay(size: nat, off: nat, n: nat, o: nat) {
    off <= o <= CopyEnd(size, off, n) && (o == size || (o - off) % 512 == 0)
  }

  lemma OneStep(size: nat, off: nat, n: nat, o: nat)
    requires OnTheWay(size, off, n, o) && o < off + n && o <= size
    ensures OnTheWay(size, off, n, NextStep(size, o)) && (NextStep(size, o) == o ==> o == CopyEnd(size, off, n))
  {
    assert n <= (n + 511) / 512 * 512;
    var j := (o - off) / 512;
    if o < size {
      assert o - off == 512 * j && 512 * j < n;
      assert j + 1 <= (n + 511) / 512;
      assert (o + 512 - off) % 512 == 0;
    }
  }

  lemma LastStep(size: nat, off: nat, n: nat, o: nat)
    requires OnTheWay(size, off, n, o) && (o >= off + n || o == size) && off <= size
    ensures o == CopyEnd(size, off, n)
  {
    var j := (o - off) / 512;
    if o < size {
      assert o - off == 512 * j && 512 * j >= n;
      assert (n + 511) / 512 <= j;
    }
  }

  /** src has been written at off into inode i, and not into its dittos. */
  predicate WroteAlone(b0: seq<Block>, i0: seq<Dinode>, disk0: seq<Dinode>, logged0: set<nat>, b: seq<Block>,
                       ino: seq<Dinode>, disk: seq<Dinode>, logged: set<nat>, sb: Superblock, i: nat, off: nat,
                       src: seq<byte>) {
    && i < |i0| == |ino| && off + |src| <= MAXBYTES
    && OthersSame(b0, i0, b, ino, {i}) && KeepsRefs(b0, i0[i], b, ino[i])
    && Data(b, ino[i]) == Splice(Data(b0, i0[i]), off, src) && Present(b, ino[i], off, off + |src|)
    && Recorded(b, disk0, disk, i0[i], ino[i], i, true)
    && LoggedFor(logged0, logged, b, sb, ino[i], off / BSIZE, BlockEnd(off + |src|), sb.InodeBlock(i))
  }

  lemma MovedBy(b0: seq<Block>, i0: seq<Dinode>, disk0: seq<Dinode>, logged0: set<nat>, b: seq<Block>,
                ino: seq<Dinode>, disk: seq<Dinode>, logged: set<nat>, sb: Superblock, src: nat, dst: nat, o: nat,
                n: nat, bytes: seq<byte>)
    requires Copyable(b0, i0, src, dst) && o + n <= i0[src].size && bytes == Content(b0, i0[src])[o .. o + n]
    requires WroteAlone(b0, i0, disk0, logged0, b, ino, disk, logged, sb, dst, o, bytes)
    ensures Moved(b0, i0, disk0, logged0, b, ino, disk, logged, sb, src, dst, o, n)
  {
  }

  /** One turn of iduplicate's loop moved n bytes at o from src to dst. */
  predicate Moved(b0: seq<Block>, i0: seq<Dinode>, disk0: seq<Dinode>, logged0: set<nat>,
                  b: seq<Block>, ino: seq<Dinode>, disk: seq<Dinode>, logged: set<nat>, sb: Superblock, src: nat,
                  dst: nat, o: nat, n: nat) {
    && Copyable(b0, i0, src, dst) && o + n <= i0[src].size
    && OthersSame(b0, i0, b, ino, {dst}) && KeepsRefs(b0, i0[dst], b, ino[dst])
    && Data(b, ino[dst]) == Splice(Data(b0, i0[dst]), o, Content(b0, i0[src])[o .. o + n])
    && Present(b, ino[dst], o, o + n)
    && Recorded(b, disk0, disk, i0[dst], ino[dst], dst, true)
    && LoggedFor(logged0, logged, b, sb, ino[dst], o / BSIZE, BlockEnd(o + n), sb.InodeBlock(dst))
  }

  /** The state of iduplicate's loop at o. */
  predicate CopiedSoFar(b0: seq<Block>, i0: seq<Dinode>, disk0: seq<Dinode>, logged0: set<nat>,
                        b: seq<Block>, ino: seq<Dinode>, disk: seq<Dinode>, logged: set<nat>, sb: Superblock, src: nat,
                        dst: nat, off: nat, o: nat) {
    && Copied(b0, i0, b, ino, src, dst, off, o)
    && Copyable(b, ino, src, dst) && Content(b, ino[src]) == Content(b0, i0[src])
    && Recorded(b, disk0, disk, i0[dst], ino[dst], dst, o > off)
    && LoggedFor(logged0, logged, b, sb, ino[dst], off / BSIZE, BlockEnd(o), sb.InodeBlock(dst))
  }

  lemma CopiedNothing(b: seq<Block>, ino: seq<Dinode>, disk: seq<Dinode>, logged: set<nat>, sb: Superblock, src: nat,
                      dst: nat, off: nat)
    requires Copyable(b, ino, src, dst) && off <= ino[src].size && forall j :: 0 <= j < |ino| ==> WellFormed(ino[j])
    ensures CopiedSoFar(b, ino, disk, logged, b, ino, disk, logged, sb, src, dst, off, off)
  {
    assert ino[dst] == ino[dst].(addrs := ino[dst].addrs);
  }

  /** One turn more. */
  lemma CopiedAgain(b0: seq<Block>, i0: seq<Dinode>, disk0: seq<Dinode>, logged0: set<nat>,
                    b1: seq<Block>, i1: seq<Dinode>, disk1: seq<Dinode>, logged1: set<nat>,
                    b2: seq<Block>, i2: seq<Dinode>, disk2: seq<Dinode>, logged2: set<nat>, sb: Superblock, src: nat,
                    dst: nat, off: nat, o: nat, n: nat)
    requires CopiedSoFar(b0, i0, disk0, logged0, b1, i1, disk1, logged1, sb, src, dst, off, o)
    requires Moved(b1, i1, disk1, logged1, b2, i2, disk2, logged2, sb, src, dst, o, n) && n > 0
    ensures CopiedSoFar(b0, i0, disk0, logged0, b2, i2, disk2, logged2, sb, src, dst, off, o + n)
  {
    CopyableStays(b1, i1, b2, i2, src, dst);
    CopiedMore(b0, i0, b1, i1, b2, i2, src, dst, off, o, o + n);
    LoggedForMore(logged0, logged1, logged2, b1, i1[dst], b2, i2[dst], sb, off / BSIZE, o / BSIZE, BlockEnd(o),
                  BlockEnd(o + n), sb.InodeBlock(dst));
  }

  /** One turn, which at the end of src moves nothing. */
  lemma CopiedStep(b0: seq<Block>, i0: seq<Dinode>, disk0: seq<Dinode>, logged0: set<nat>,
                   b1: seq<Block>, i1: seq<Dinode>, disk1: seq<Dinode>, logged1: set<nat>,
                   b2: seq<Block>, i2: seq<Dinode>, disk2: seq<Dinode>, logged2: set<nat>, sb: Superblock, src: nat,
                   dst: nat, off: nat, o: nat, n: nat, x: nat)
    requires CopiedSoFar(b0, i0, disk0, logged0, b1, i1, disk1, logged1, sb, src, dst, off, o) && x == o + n
    requires
      if n == 0 then b2 == b1 && i2 == i1 && disk2 == disk1 && logged2 == logged1
      else Moved(b1, i1, disk1, logged1, b2, i2, disk2, logged2, sb, src, dst, o, n)
    ensures CopiedSoFar(b0, i0, disk0, logged0, b2, i2, disk2, logged2, sb, src, dst, off, x)
  {
    if n > 0 {
      CopiedAgain(b0, i0, disk0, logged0, b1, i1, disk1, logged1, b2, i2, disk2, logged2, sb, src, dst, off, o, n);
    }
  }

  /** The first x bytes are right once the first off were and off..x have been copied. */
  lemma PrefixCopied(data: seq<byte>, file: seq<byte>, off: nat, x: nat, y: nat)
    requires off <= x <= |file| <= |data| && y <= x && data[..off] == file[..off]
    ensures Splice(data, off, file[off..x])[..y] == file[..y]
  {
    var r := Splice(data, off, file[off..x]);
    forall o | 0 <= o < y ensures r[o] == file[o] {
      if o < off {
        assert data[..off][o] == file[..off][o];
      }
    }
  }

  /** The invariant of irescue's loop: the first off bytes of inode i are those of replica c. */
  predicate Rescued(b0: seq<Block>, i0: seq<Dinode>, disk0: seq<Dinode>, b: seq<Block>, ino: seq<Dinode>,
                    disk: seq<Dinode>, i: nat, c: nat, off: nat) {
    && i < |i0| == |disk0| && c < |i0| && WellFormed(i0[c]) && Copyable(b, ino, c, i)
    && !ino[i].kind.Ditto? && OthersSame(b0, i0, b, ino, {i}) && KeepsRefs(b0, i0[i], b, ino[i])
    && off <= i0[c].size == i0[i].size && Content(b, ino[c]) == Content(b0, i0[c])
    && Data(b, ino[i]) == Splice(Data(b0, i0[i]), 0, Content(b0, i0[c])[..off])
    && |disk0| == |disk| && disk == disk0[i := disk[i]]
    && (off > 0 ==> Good(b, ino[i]) && disk[i] == ino[i])
  }

  lemma RescuedNothing(b: seq<Block>, ino: seq<Dinode>, disk: seq<Dinode>, i: nat, c: nat)
    requires Copyable(b, ino, c, i) && !ino[i].kind.Ditto? && |disk| == |ino| && forall j :: 0 <= j < |ino| ==>
      WellFormed(ino[j])
    ensures Rescued(b, ino, disk, b, ino, disk, i, c, 0)
  {
  }

  /** One transaction of irescue extends the rescued prefix. */
  lemma RescuedMore(b0: seq<Block>, i0: seq<Dinode>, disk0: seq<Dinode>, b1: seq<Block>, i1: seq<Dinode>,
                    disk1: seq<Dinode>,
                    b2: seq<Block>, i2: seq<Dinode>, disk2: seq<Dinode>, i: nat, c: nat, off: nat, x: nat)
    requires Rescued(b0, i0, disk0, b1, i1, disk1, i, c, off) && off < x && forall j :: 0 <= j < |i1| ==>
      WellFormed(i1[j])
    requires Copied(b1, Resized(i1, c, i), b2, i2, c, i, off, x)
    requires Recorded(b2, disk1, disk2, Resized(i1, c, i)[i], i2[i], i, true)
    ensures Rescued(b0, i0, disk0, b2, i2, disk2, i, c, x)
  {
    var r1 := Resized(i1, c, i);
    ResizedSame(b1, i1, c, i);
    CopyableStays(b1, r1, b2, i2, c, i);
    OthersSameTrans(b1, i1, b1, r1, b2, i2, {i});
    OthersSameTrans(b0, i0, b1, i1, b2, i2, {i});
    KeepsRefsTrans(b1, i1[i], b1, r1[i], b2, i2[i]);
    KeepsRefsTrans(b0, i0[i], b1, i1[i], b2, i2[i]);
    SplicedOn(Data(b0, i0[i]), Content(b0, i0[c]), off, x);
  }

  lemma SplicedOn(data: seq<byte>, file: seq<byte>, off: nat, x: nat)
    requires off <= x <= |file| <= |data|
    ensures Splice(Splice(data, 0, file[..off]), off, file[off..x]) == Splice(data, 0, file[..x])
  {
  }

  /** A file rescued up to byte off: the replica's bytes so far, its own from there on, and with a checksum that
      fits that. */
  lemma HalfRescued(b0: seq<Block>, i0: seq<Dinode>, disk0: seq<Dinode>, b: seq<Block>, ino: seq<Dinode>,
                    disk: seq<Dinode>, i: nat, c: nat, off: nat)
    requires Rescued(b0, i0, disk0, b, ino, disk, i, c, off)
    ensures Content(b, ino[i]) == WrittenUpTo(Content(b0, i0[i]), 0, Content(b0, i0[c]), off)
    ensures Content(b, ino[i]) == Content(b0, i0[c]) <==> Content(b0, i0[i])[off..] == Content(b0, i0[c])[off..]
    ensures off > 0 ==> Good(b, ino[i])
  {
    var mine, other := Content(b0, i0[i]), Content(b0, i0[c]);
    OverwrittenData(Data(b0, i0[i]), i0[i].size, 0, other[..off]);
    HalfWritten(mine, other, off);
  }

  lemma HalfWritten(mine: seq<byte>, other: seq<byte>, off: nat)
    requires off <= |mine| == |other|
    ensures Overwritten(mine, 0, other[..off]) == WrittenUpTo(mine, 0, other, off)
    ensures WrittenUpTo(mine, 0, other, off) == other <==> mine[off..] == other[off..]
  {
    var mixed := other[..off] + mine[off..];
    assert Overwritten(mine, 0, other[..off]) == mixed && mixed[off..] == mine[off..];
    assert off == 0 ==> mixed == mine;
    assert other == other[..off] + other[off..];
  }

  /** A fully rescued inode has the replica's content; and it is empty or verifies. */
  lemma RescuedAll(b0: seq<Block>, i0: seq<Dinode>, disk0: seq<Dinode>, b: seq<Block>, ino: seq<Dinode>,
                   disk: seq<Dinode>, i: nat, c: nat)
    requires i < |ino| && c < |i0| && Rescued(b0, i0, disk0, b, ino, disk, i, c, i0[c].size)
    requires forall j :: 0 <= j < |i0| ==> WellFormed(i0[j]) && NoHoles(b0, i0[j])
    ensures Content(b, ino[i]) == Content(b0, i0[c])
    ensures forall j :: 0 <= j < |ino| ==> WellFormed(ino[j]) && NoHoles(b, ino[j])
  {
    HalfRescued(b0, i0, disk0, b, ino, disk, i, c, i0[c].size);
    forall j | 0 <= j < |ino| ensures WellFormed(ino[j]) && NoHoles(b, ino[j]) {
      if j != i {
        SameContent(b0, b, i0[j]);
      }
    }
  }

  /** The parts of an inode that repair leaves alone. */
  predicate SameRecord(d: Dinode, e: Dinode) {
    e.kind == d.kind && e.size == d.size && e.child1 == d.child1 && e.child2 == d.child2
  }

  lemma SetAndCleared(busy: seq<bool>, c: nat, i: nat)
    requires c < |busy| && i < |busy| && !busy[c] && !busy[i]
    ensures busy[c := true][i := true][c := false][i := false] == busy
  {
  }

  lemma AfterRescue(b0: seq<Block>, i0: seq<Dinode>, b: seq<Block>, ino: seq<Dinode>, i: nat)
    requires HasDittos(i0, i) && OthersSame(b0, i0, b, ino, {i}) && KeepsRefs(b0, i0[i], b, ino[i])
    ensures HasDittos(ino, i) && Children(ino[i]) == Children(i0[i]) && SameRecord(i0[i], ino[i])
  {
  }

  /** An empty inode whose replica verifies and has the same record verifies itself. */
  lemma EmptyIsGood(blocks: seq<Block>, d: Dinode, e: Dinode)
    requires WellFormed(d) && WellFormed(e) && d.size == 0 == e.size && d.checksum == e.checksum
    requires Good(blocks, e)
    ensures Good(blocks, d)
  {
    assert Content(blocks, d) == [] == Content(blocks, e);
  }

  /** A damaged inode with a ditto that verifies is not empty. */
  lemma NotEmpty(blocks: seq<Block>, ino: seq<Dinode>, valid: seq<bool>, i: nat, c: nat)
    requires |ino| == |valid| && HasDittos(ino, i) && forall j :: 0 <= j < |ino| ==> WellFormed(ino[j])
    requires Verdict(blocks, ino, valid, i) == Replica(c) && !valid[c]
    requires ino[c].size == ino[i].size && ino[c].checksum == ino[i].checksum
    ensures ino[i].size > 0
  {
    if ino[i].size == 0 {
      EmptyIsGood(blocks, ino[i], ino[c]);
    }
  }

  lemma RescueStops(size: nat, off: nat, x: nat, o: nat)
    requires off < size && x == ChunkEnd(size, off, RESCUE_MAX) && o == CopyEnd(size, off, x - off)
    ensures o == x
  {
  }

  /**
   The transactions of irescue so far. They fit the log; each leaves the inode on the disk with one chunk more of the
   replica, and with a checksum that fits it; and the replica on the disk, if it is there as it is in memory, is never
   touched.
   */
  ghost predicate RescueTrail(b0: seq<Block>, i0: seq<Dinode>, disk0: seq<Dinode>, past0: seq<Ops>, base0: seq<Block>,
                              past: seq<Ops>, base: seq<Block>, sb: Superblock, i: nat, c: nat, off: nat) {
    && i < |i0| == |disk0| && c < |i0| && WellFormed(i0[i]) && WellFormed(i0[c]) && i0[i].size == i0[c].size
    && Committed(past0, base0, past, base, sb, RESCUE_SECTORS, true)
    && Trailed(past0, base0, past, base, sb, RESCUE_SECTORS, true, {i}, Content(b0, i0[i]), 0, Content(b0, i0[c]),
               RESCUE_MAX, off)
    && (disk0[c] == i0[c] ==> Steady(past0, base0, past, base, sb, c, Content(b0, i0[c])))
    && Followed(past0, base0, past, base, sb, Verifier(i), Always(true), 1)
  }

  /** The record and the content of inode i on the disk fit, so that ilock takes it. */
  predicate VerifiesOnDisk(home: seq<Block>, i: nat) {
    i / IPB + 2 < |home| && WellFormed(DinodeAt(home, i)) && Good(home, DinodeAt(home, i))
  }

  function Verifier(i: nat): seq<Block> -> bool {
    home => VerifiesOnDisk(home, i)
  }

  lemma GoodCommitted(t: Txn, blocks: seq<Block>, disk: seq<Dinode>, sb: Superblock, i: nat)
    requires sb.Sane() && |blocks| == sb.size && Reflects(t.image, blocks, sb) && OnRecord(t, disk, sb)
    requires i < |disk| && InUse(blocks, sb, disk[i]) && Good(blocks, disk[i])
    ensures Verifier(i)(Home(t.image, sb))
  {
    FileCommitted(t, blocks, disk, sb, i);
    assert RecordIs(t.image, i, disk[i]);
    assert DinodeAt(Home(t.image, sb), i) == DinodeAt(t.image, i);
  }

  /** An inode that verifies on the disk is locked from there, and no replica is asked. */
  lemma VerifiedIsTaken(home: seq<Block>, ino: seq<Dinode>, valid: seq<bool>, i: nat)
    requires |ino| == |valid| && HasDittos(ino, i) && forall j :: 0 <= j < |ino| ==> WellFormed(ino[j])
    requires VerifiesOnDisk(home, i) && ino[i] == DinodeAt(home, i)
    ensures Verdict(home, ino, valid, i) == Locked
  {
  }

  lemma RescueTrailMore(b0: seq<Block>, i0: seq<Dinode>, disk0: seq<Dinode>, b: seq<Block>, ino: seq<Dinode>,
                        disk: seq<Dinode>,
                        past0: seq<Ops>, base0: seq<Block>, past: seq<Ops>, base: seq<Block>, t: Txn, sb: Superblock,
                        i: nat, c: nat, off: nat, x: nat)
    requires RescueTrail(b0, i0, disk0, past0, base0, past, base, sb, i, c, off) &&
      Rescued(b0, i0, disk0, b, ino, disk, i, c, x)
    requires off < i0[c].size && x == ChunkEnd(i0[c].size, off, RESCUE_MAX)
    requires Consistent(base, t) && Reflects(t.image, b, sb) && OnRecord(t, disk, sb) && Owned(b, sb, ino)
    requires sb.Sane() && |b| == sb.size && (sb.size < BPB ==> |t.logged| <= RESCUE_SECTORS)
    ensures RescueTrail(b0, i0, disk0, past0, base0, past + [t.ops], t.image, sb, i, c, x)
  {
    var past', file := past + [t.ops], Content(b0, i0[c]);
    CommittedMore(past0, base0, past, base, t, disk, sb, RESCUE_SECTORS, true);
    RescueStep(b0, i0, disk0, b, ino, disk, past, base, t, sb, i, c, x);
    TrailedMore(past0, base0, past, base, past', t.image, sb, RESCUE_SECTORS, true, {i}, Content(b0, i0[i]), 0, file,
                RESCUE_MAX, off, x);
    FollowedMore(past0, base0, past, base, past', t.image, sb, Verifier(i), Always(true), 1);
    if disk0[c] == i0[c] {
      ReplicaStays(b0, i0, disk0, b, ino, disk, past, base, t, sb, i, c, x);
      SteadyMore(past0, base0, past, base, past', t.image, sb, RESCUE_SECTORS, true, c, file);
    }
  }

  /** One transaction of irescue. */
  lemma RescueStep(b0: seq<Block>, i0: seq<Dinode>, disk0: seq<Dinode>, b: seq<Block>, ino: seq<Dinode>,
                   disk: seq<Dinode>, past: seq<Ops>, base: seq<Block>, t: Txn, sb: Superblock, i: nat, c: nat, x: nat)
    requires Rescued(b0, i0, disk0, b, ino, disk, i, c, x) && 0 < x
    requires Consistent(base, t) && Reflects(t.image, b, sb) && OnRecord(t, disk, sb) && Owned(b, sb, ino)
    requires sb.Sane() && |b| == sb.size && (sb.size < BPB ==> |t.logged| <= RESCUE_SECTORS)
    ensures Verifier(i)(Home(t.image, sb))
    ensures CommittedStep(past, base, past + [t.ops], t.image, sb, RESCUE_SECTORS, true, {i},
                          WrittenUpTo(Content(b0, i0[i]), 0, Content(b0, i0[c]), x))
  {
    assert InUse(b, sb, ino[i]);
    HalfRescued(b0, i0, disk0, b, ino, disk, i, c, x);
    StepCommitted(past, base, t, b, disk, sb, RESCUE_SECTORS, true, {i}, Content(b, ino[i]));
    GoodCommitted(t, b, disk, sb, i);
  }

  /** It leaves the replica on the disk alone. */
  lemma ReplicaStays(b0: seq<Block>, i0: seq<Dinode>, disk0: seq<Dinode>, b: seq<Block>, ino: seq<Dinode>,
                     disk: seq<Dinode>, past: seq<Ops>, base: seq<Block>, t: Txn, sb: Superblock, i: nat, c: nat,
                     x: nat)
    requires Rescued(b0, i0, disk0, b, ino, disk, i, c, x) && disk0[c] == i0[c]
    requires Consistent(base, t) && Reflects(t.image, b, sb) && OnRecord(t, disk, sb) && Owned(b, sb, ino)
    requires sb.Sane() && |b| == sb.size && (sb.size < BPB ==> |t.logged| <= RESCUE_SECTORS)
    ensures CommittedStep(past, base, past + [t.ops], t.image, sb, RESCUE_SECTORS, true, {c}, Content(b0, i0[c]))
  {
    assert InUse(b, sb, ino[c]) && disk[c] == ino[c];
    StepCommitted(past, base, t, b, disk, sb, RESCUE_SECTORS, true, {c}, Content(b0, i0[c]));
  }

  lemma RescueTrailStart(b: seq<Block>, ino: seq<Dinode>, disk: seq<Dinode>, past: seq<Ops>, base: seq<Block>, t: Txn,
                         sb: Superblock, i: nat, c: nat)
    requires sb.Sane() && |b| == sb.size && Reflects(t.image, b, sb) && OnRecord(t, disk, sb) && Owned(b, sb, ino) &&
      t.image == base
    requires i < |ino| == |disk| && c < |ino| && WellFormed(ino[i]) && WellFormed(ino[c]) && ino[i].size == ino[c].size
    ensures RescueTrail(b, ino, disk, past, base, past, base, sb, i, c, 0)
  {
    CommittedNothing(past, base, sb, RESCUE_SECTORS, true);
    TrailedNothing(past, base, sb, RESCUE_SECTORS, true, {i}, Content(b, ino[i]), 0, Content(b, ino[c]), RESCUE_MAX);
    FollowedNothing(past, base, sb, Verifier(i), Always(true), 1);
    if disk[c] == ino[c] {
      assert InUse(b, sb, ino[c]);
      FileCommitted(t, b, disk, sb, c);
      SteadyNothing(past, base, sb, c, Content(b, ino[c]));
    }
  }

  /** Neither the inode nor a ditto that is asked has been loaded before or verifies now; child2 is asked only if there
      is a child1 (fs.c:428-437). */
  predicate NoneIntact(blocks: seq<Block>, ino: seq<Dinode>, valid: seq<bool>, i: nat)
    requires |ino| == |valid| && HasDittos(ino, i) && forall j :: 0 <= j < |ino| ==> WellFormed(ino[j])
  {
    var c1, c2 := ino[i].child1, ino[i].child2;
    && !valid[i] && !Good(blocks, ino[i])
    && (c1 != 0 ==> !valid[c1] && !Good(blocks, ino[c1]) && (c2 != 0 ==> !valid[c2] && !Good(blocks, ino[c2])))
  }

  /** What ilock answers, in terms of checksums and loaded inodes alone. */
  lemma VerdictMeans(blocks: seq<Block>, ino: seq<Dinode>, valid: seq<bool>, i: nat, c: nat)
    requires |ino| == |valid| && HasDittos(ino, i) && forall j :: 0 <= j < |ino| ==> WellFormed(ino[j])
    ensures Verdict(blocks, ino, valid, i) == Corrupted <==> NoneIntact(blocks, ino, valid, i)
    ensures Verdict(blocks, ino, valid, i) == Locked <==> valid[i] || Good(blocks, ino[i])
    ensures Verdict(blocks, ino, valid, i) == Replica(c) <==>
      && !valid[i] && !Good(blocks, ino[i]) && ino[i].child1 != 0 && c in Children(ino[i])
      && (valid[c] || Good(blocks, ino[c]))
      && (c != ino[i].child1 ==> !valid[ino[i].child1] && !Good(blocks, ino[ino[i].child1]))
  {
  }

  /** What ilock_trans promises: E_CORRUPTED if nothing is intact; the inode as it is if it is; else the content of
      child1 if that is intact, else that of child2. */
  predicate FirstIntact(b0: seq<Block>, i0: seq<Dinode>, valid0: seq<bool>, b: seq<Block>, ino: seq<Dinode>, i: nat,
                        corrupted: bool) {
    && |i0| == |ino| == |valid0| && HasDittos(i0, i) && (forall j :: 0 <= j < |i0| ==> WellFormed(i0[j]))
    && WellFormed(ino[i]) && (corrupted <==> NoneIntact(b0, i0, valid0, i))
    && var c1, c2 := i0[i].child1, i0[i].child2;
    if valid0[i] || Good(b0, i0[i]) || corrupted then b == b0 && ino == i0
    else c1 != 0 && Content(b, ino[i]) ==
                    if valid0[c1] || Good(b0, i0[c1]) then Content(b0, i0[c1])
                    else if c2 != 0 then Content(b0, i0[c2]) else []
  }

  lemma RestoredFirst(b0: seq<Block>, i0: seq<Dinode>, disk0: seq<Dinode>, valid0: seq<bool>,
                      b: seq<Block>, ino: seq<Dinode>, disk: seq<Dinode>, i: nat)
    requires Restored(b0, i0, disk0, valid0, b, ino, disk, i)
    ensures FirstIntact(b0, i0, valid0, b, ino, i, Verdict(b0, i0, valid0, i).Corrupted?)
  {
  }

  /** What ilock_trans leaves: the replica's content if there was something to repair, and everything as it was if
      not. */
  predicate Restored(b0: seq<Block>, i0: seq<Dinode>, disk0: seq<Dinode>, valid0: seq<bool>,
                     b: seq<Block>, ino: seq<Dinode>, disk: seq<Dinode>, i: nat) {
    && |i0| == |ino| == |valid0| == |disk| && HasDittos(i0, i) && (forall j :: 0 <= j < |i0| ==> WellFormed(i0[j]))
    && WellFormed(ino[i])
    && match Verdict(b0, i0, valid0, i)
       case Replica(c) =>
         && c < |i0| && (ino[i].size > 0 || !valid0[c] ==> Good(b, ino[i]) && disk[i] == ino[i])
         && Content(b, ino[i]) == Content(b0, i0[c])
       case _ => b == b0 && ino == i0 && disk == disk0
  }

  class InodeLayer {
    const fs: Fs
    var valid: seq<bool>             // I_VALID
    var busy: seq<bool>              // I_BUSY

    constructor (fs: Fs)
      ensures this.fs == fs && valid == busy == seq(|fs.ino|, _ => false)
    {
      this.fs := fs;
      valid, busy := seq(|fs.ino|, _ => false), seq(|fs.ino|, _ => false);
    }

    /** One entry of everything per inode; what is not valid in memory is what the disk has. */
    ghost predicate Linked()
      reads this, fs
    {
      && fs.Valid() && |fs.disk| == |valid| == |busy| == |fs.ino|
      && (forall i :: 0 <= i < |fs.ino| ==> WellFormed(fs.disk[i]))
      && (forall i :: 0 <= i < |fs.ino| && !valid[i] ==> fs.ino[i] == fs.disk[i])
    }

    ghost predicate Valid()
      reads this, fs
    {
      Linked() && forall i :: 0 <= i < |fs.ino| ==> NoHoles(fs.blocks, fs.ino[i])
    }

    /** begin_trans. */
    ghost method BeginTrans()
      requires Linked() && fs.Idle()
      modifies fs`open
      ensures Linked() && fs.Begun() && (old(Valid()) ==> Valid())
    {
      fs.BeginTrans();
    }

    /** The checksum of an inode's content, 2048 bytes at a time (fs.c:201-228). */
    method Ichecksum(i: nat) returns (c: bv32)
      requires fs.Valid() && i < |fs.ino| && NoHoles(fs.blocks, fs.ino[i])
      modifies fs`blocks, fs`ino, fs`txn
      ensures fs.blocks == old(fs.blocks) && fs.ino == old(fs.ino) && fs.txn == old(fs.txn)
      ensures c == ChecksumOf(fs.blocks, fs.ino[i])
    {
      assert InUse(fs.blocks, fs.sb, fs.ino[i]);
      if fs.ino[i].kind.Dev? {
        return 0;
      }
      c := ChecksumLoop(i);
    }

    /** One turn of ichecksum's loop: read, exclusive-or the buffer (fs.c:217-225). No more: the read returned
        nothing. */
    method ChecksumNext(i: nat, off: nat, c: bv32, ghost file: seq<byte>) returns (more: bool, x: nat, sum: bv32)
      requires fs.Valid() && i < |fs.ino| && NoHoles(fs.blocks, fs.ino[i]) && WellFormed(fs.ino[i])
      requires file == Content(fs.blocks, fs.ino[i]) && Summed(file, off, c)
      modifies fs`blocks, fs`ino, fs`txn
      ensures fs.blocks == old(fs.blocks) && fs.ino == old(fs.ino) && fs.txn == old(fs.txn)
      ensures if more then off < x && Summed(file, x, sum) else off == |file|
    {
      var r := fs.Readi(i, off, 2048);
      ghost var end := ReadEnd(fs.ino[i], off, 2048);
      assert r.value == file[off..end];
      if r.value == [] {
        return false, off, c;
      }
      sum := XorChunk(r.value, 512, c, file, off, end);
      SummedMore(file, off, end, sum);
      return true, off + |r.value|, sum;
    }

    /** The loop of ichecksum, until a read returns nothing (fs.c:217-225). */
    method ChecksumLoop(i: nat) returns (c: bv32)
      requires fs.Valid() && i < |fs.ino| && NoHoles(fs.blocks, fs.ino[i]) && WellFormed(fs.ino[i])
      modifies fs`blocks, fs`ino, fs`txn
      ensures fs.blocks == old(fs.blocks) && fs.ino == old(fs.ino) && fs.txn == old(fs.txn)
      ensures c == Sum(Content(fs.blocks, fs.ino[i]))
    {
      ghost var file := Content(fs.blocks, fs.ino[i]);
      c := 0;
      var off := 0;
      while true
        invariant fs.blocks == old(fs.blocks) && fs.ino == old(fs.ino) && fs.txn == old(fs.txn) && Summed(file, off, c)
        decreases |file| - off
      {
        var more, x, sum := ChecksumNext(i, off, c, file);
        if !more {
          break;
        }
        off, c := x, sum;
      }
      assert file[..off] == file;
    }

    ghost predicate Same(blocks: seq<Block>, ino: seq<Dinode>, dinodes: seq<Dinode>, txn: Txn)
      reads this, fs
    {
      fs.blocks == blocks && fs.ino == ino && fs.disk == dinodes && fs.txn == txn
    }

    /** Set I_BUSY (fs.c:397). */
    method Take(i: nat)
      requires i < |busy|
      modifies this`busy
      ensures busy == old(busy)[i := true] && (old(Linked()) ==> Linked()) && (old(Valid()) ==> Valid())
    {
      busy := busy[i := true];
    }

    /** Read an inode that is not valid in memory from the disk (fs.c:401-412). */
    method Load(i: nat)
      requires Linked() && i < |fs.ino| && !valid[i]
      modifies fs`ino
      ensures Linked() && fs.ino == old(fs.ino) && (old(Valid()) ==> Valid())
    {
      fs.ino := fs.ino[i := fs.disk[i]];
      assert fs.ino == old(fs.ino);
    }

    /** ilock_ext(ip, 0): lock and load without verifying. */
    method LockUnverified(i: nat) returns (r: Lock)
      requires Linked() && i < |fs.ino|
      modifies this`busy, this`valid, fs`ino
      ensures Linked() && fs.ino == old(fs.ino)
      ensures r == if old(busy)[i] then MustWait else TypeChecked(fs.ino, old(valid), i, Locked)
      ensures r.MustWait? ==> busy == old(busy) && valid == old(valid)
      ensures !r.MustWait? ==> busy == old(busy)[i := true] && valid == old(valid)[i := true]
    {
      if busy[i] {
        return MustWait;
      }
      Take(i);
      if !valid[i] {
        Load(i);
        valid := valid[i := true];
        if fs.ino[i].kind.Free? {
          return NoType;
        }
      }
      return Locked;
    }

    /** ilock, that is ilock_ext(ip, 1): lock, load from disk if need be, and verify (fs.c:350-354, fs.c:383-471). */
    method Ilock(i: nat) returns (r: Lock)
      requires Valid() && HasDittos(fs.ino, i)
      requires fs.ino[i].child1 != 0 ==> !busy[fs.ino[i].child1]
      requires fs.ino[i].child2 != 0 ==> !busy[fs.ino[i].child2]
      modifies this`busy, this`valid, fs`blocks, fs`ino, fs`txn
      ensures Valid() && Same(old(fs.blocks), old(fs.ino), old(fs.disk), old(fs.txn))
      ensures old(busy)[i] ==> r == MustWait && busy == old(busy) && valid == old(valid)
      ensures !old(busy)[i] ==> r == TypeChecked(fs.ino, old(valid), i, Verdict(fs.blocks, fs.ino, old(valid), i))
      ensures r.Locked? ==> busy == old(busy)[i := true] && valid == old(valid)[i := true]
      ensures r.Replica? ==> busy == old(busy) && r.inum < |valid| && valid == old(valid)[r.inum := true]
      ensures r.Corrupted? ==> busy == old(busy) && valid == old(valid)
      decreases if fs.ino[i].child1 == 0 then 0 else 1, 3
    {
      if busy[i] {
        return MustWait;
      }
      Take(i);
      if !valid[i] {
        Load(i);
        var failed := Verify(i);
        if failed.Some? {
          return failed.value;
        }
        valid := valid[i := true];
        if fs.ino[i].kind.Free? {
          return NoType;
        }
      }
      return Locked;
    }

    /** Does the inode verify, and if not, which replica does? (fs.c:422-459). None: it does. */
    method Verify(i: nat) returns (r: Option<Lock>)
      requires Valid() && HasDittos(fs.ino, i) && !valid[i]
      requires fs.ino[i].child1 != 0 ==> !busy[fs.ino[i].child1]
      requires fs.ino[i].child2 != 0 ==> !busy[fs.ino[i].child2]
      modifies this`busy, this`valid, fs`blocks, fs`ino, fs`txn
      ensures Valid() && Same(old(fs.blocks), old(fs.ino), old(fs.disk), old(fs.txn))
      ensures r == if Verdict(fs.blocks, fs.ino, old(valid), i).Locked? then None
                   else Some(Verdict(fs.blocks, fs.ino, old(valid), i))
      ensures busy == if r.None? then old(busy) else old(busy)[i := false]
      ensures r.None? || r.value.Corrupted? ==> valid == old(valid)
      ensures r.Some? && r.value.Replica? ==> r.value.inum < |valid| && valid == old(valid)[r.value.inum := true]
      decreases if fs.ino[i].child1 == 0 then 0 else 1, 2
    {
      var replica := 0;
      while true
        invariant 0 <= replica <= 2 && Valid() && Same(old(fs.blocks), old(fs.ino), old(fs.disk), old(fs.txn))
        invariant busy == old(busy) && valid == old(valid)
        invariant replica > 0 ==> !Good(fs.blocks, fs.ino[i]) && fs.ino[i].child1 != 0
        invariant replica > 0 ==> !Accepted(fs.blocks, fs.ino, valid, fs.ino[i].child1)
        invariant replica > 1 ==> fs.ino[i].child2 != 0 && !Accepted(fs.blocks, fs.ino, valid, fs.ino[i].child2)
        decreases 2 - replica
      {
        var c := Ichecksum(i);
        if c == fs.ino[i].checksum {
          return None;
        }
        replica := replica + 1;
        r := NextReplica(i, replica);
        if r.Some? {
          return;
        }
      }
    }

    /** The inode does not verify: what its next replica says (fs.c:428-446). None: it does not verify either. */
    method NextReplica(i: nat, replica: nat) returns (r: Option<Lock>)
      requires Valid() && HasDittos(fs.ino, i) && 1 <= replica <= 3 && (replica > 1 ==> fs.ino[i].child1 != 0)
      requires fs.ino[i].child1 != 0 ==> !busy[fs.ino[i].child1]
      requires fs.ino[i].child2 != 0 ==> !busy[fs.ino[i].child2]
      modifies this`busy, this`valid, fs`blocks, fs`ino, fs`txn
      ensures Valid() && Same(old(fs.blocks), old(fs.ino), old(fs.disk), old(fs.txn))
      ensures var c := if replica == 1 then fs.ino[i].child1 else if replica == 2 then fs.ino[i].child2 else 0;
        && (c != 0 ==> c < |fs.ino| == |old(valid)| && WellFormed(fs.ino[c]))
        && (r == Some(Corrupted) <==> c == 0)
        && (c != 0 && Accepted(fs.blocks, fs.ino, old(valid), c) ==> r == Some(Replica(c)))
        && (c != 0 && !Accepted(fs.blocks, fs.ino, old(valid), c) ==> r == None)
        && busy == (if r.Some? then old(busy)[i := false] else old(busy))
        && valid == if r.Some? && c != 0 then old(valid)[c := true] else old(valid)
      decreases if fs.ino[i].child1 == 0 then 0 else 1, 1
    {
      if replica > 2 {
        Iunlock(i);
        return Some(Corrupted);
      }
      var rinum := if replica == 1 then fs.ino[i].child1 else fs.ino[i].child2;
      if rinum == 0 {
        Iunlock(i);
        return Some(Corrupted);
      }
      var ok := TryReplica(i, rinum);
      if !ok {
        return None;
      }
      Iunlock(i);
      return Some(Replica(rinum));
    }

    /** Look whether a ditto verifies: lock it, and unlock it again (fs.c:440-446). */
    method TryReplica(ghost i: nat, c: nat) returns (ok: bool)
      requires Valid() && i < |fs.ino| && IsDitto(fs.ino, i, c) && !busy[c]
      modifies this`busy, this`valid, fs`blocks, fs`ino, fs`txn
      ensures Valid() && Same(old(fs.blocks), old(fs.ino), old(fs.disk), old(fs.txn)) && busy == old(busy)
      ensures WellFormed(fs.ino[c]) && ok == Accepted(fs.blocks, fs.ino, old(valid), c)
      ensures valid == if ok then old(valid)[c := true] else old(valid)
      decreases 1, 0
    {
      assert InUse(fs.blocks, fs.sb, fs.ino[c]);
      var l := Ilock(c);
      ok := l.Locked?;
      if ok {
        Iunlock(c);
      }
    }

    /** iunlock (fs.c:474-484). */
    method Iunlock(i: nat)
      requires i < |busy|
      modifies this`busy
      ensures busy == old(busy)[i := false] && (old(Linked()) ==> Linked()) && (old(Valid()) ==> Valid())
    {
      busy := busy[i := false];
    }

    /** Put d, which has the blocks of inode i, in memory as inode i. */
    method SetInode(i: nat, d: Dinode)
      requires fs.Valid() && i < |fs.ino| && WellFormed(d) && d.addrs == fs.ino[i].addrs
      modifies fs`ino
      ensures fs.Valid() && fs.ino == old(fs.ino)[i := d]
      ensures WellFormed(old(fs.ino)[i]) && Data(fs.blocks, d) == Data(fs.blocks, old(fs.ino)[i])
      ensures forall l :: 0 <= l <= MAXFILE ==> Ref(fs.blocks, d, l) == Ref(fs.blocks, old(fs.ino)[i], l)
    {
      assert InUse(fs.blocks, fs.sb, fs.ino[i]);
      SameAddresses(fs.blocks, fs.sb, fs.ino, i, d);
      fs.ino := fs.ino[i := d];
    }

    /** iupdate_ext up to its children: recompute the checksum and write the inode to its block (fs.c:243-259). */
    method WriteInode(i: nat)
      requires Linked() && i < |fs.ino| && valid[i] && NoHoles(fs.blocks, fs.ino[i])
      modifies fs`blocks, fs`disk, fs`ino, fs`txn
      ensures Linked() && fs.blocks == old(fs.blocks) && NoHoles(fs.blocks, fs.ino[i])
      ensures fs.ino == old(fs.ino)[i := old(fs.ino)[i].(checksum := ChecksumOf(fs.blocks, old(fs.ino)[i]))]
      ensures Good(fs.blocks, fs.ino[i]) && Data(fs.blocks, fs.ino[i]) == Data(fs.blocks, old(fs.ino)[i])
      ensures fs.disk == old(fs.disk)[i := fs.ino[i]]
      ensures fs.txn.logged == old(fs.txn).logged + {fs.sb.InodeBlock(i)} && fs.txn.earlier == old(fs.txn).logged
    {
      var c := Ichecksum(i);
      SetInode(i, fs.ino[i].(checksum := c));
      fs.WriteDinode(i, fs.ino[i]);
    }

    /** Give ditto c the size and checksum of its parent i (fs.c:270-298). */
    method Cupdate(i: nat, c: nat)
      requires Valid() && i < |fs.ino| && IsDitto(fs.ino, i, c) && !busy[c]
      requires NoHoles(fs.blocks, fs.ino[c].(size := fs.ino[i].size))
      modifies this, fs`blocks, fs`disk, fs`ino, fs`txn
      ensures Valid() && fs.blocks == old(fs.blocks) && busy == old(busy) && valid == old(valid)[c := true]
      ensures var parent := old(fs.ino)[i];
        fs.ino == old(fs.ino)[c := old(fs.ino)[c].(size := parent.size, checksum := parent.checksum)]
      ensures fs.disk == old(fs.disk)[c := fs.ino[c].(nlink := 1)]
      ensures fs.txn.logged == old(fs.txn).logged + {fs.sb.InodeBlock(c)} && fs.txn.earlier == old(fs.txn).logged
    {
      assert InUse(fs.blocks, fs.sb, fs.ino[i]) && InUse(fs.blocks, fs.sb, fs.ino[c]);
      var l := LockUnverified(c);
      SetInode(c, fs.ino[c].(size := fs.ino[i].size, checksum := fs.ino[i].checksum));
      NoHolesSame(fs.blocks, old(fs.ino)[c].(size := old(fs.ino)[i].size), fs.ino[c]);
      fs.WriteDinode(c, fs.ino[c].(nlink := 1));
      Iunlock(c);
      assert busy == old(busy);
    }

    /** The loop of writei on a locked inode. False: the run ended in balloc. */
    method WriteData(i: nat, off: nat, src: seq<byte>) returns (ok: bool)
      requires Valid() && i < |fs.ino| && valid[i] && off <= fs.ino[i].size && off + |src| <= MAXBYTES
      modifies fs`blocks, fs`ino, fs`txn
      ensures ok ==> Valid() && OnlyGrown(old(fs.blocks), old(fs.ino), fs.blocks, fs.ino, i)
      ensures ok ==> Data(fs.blocks, fs.ino[i]) == Splice(Data(old(fs.blocks), old(fs.ino)[i]), off, src)
      ensures ok ==> NoHoles(fs.blocks, fs.ino[i].(size := NewSize(fs.ino[i].size, off, |src|)))
      ensures ok ==> LogsExactly(old(fs.txn).logged, fs.txn.logged, old(fs.blocks), old(fs.ino)[i], fs.blocks, fs.sb,
                                 fs.ino[i], off / BSIZE, SlotEnd(off, |src|))
      ensures !ok ==> fs.OutOfBlocks()
    {
      ok := fs.WriteBytes(i, off, src);
      if ok {
        forall j | 0 <= j < |fs.ino| ensures NoHoles(fs.blocks, fs.ino[j]) {
          assert NoHoles(old(fs.blocks), old(fs.ino)[j]);
        }
        PresentNoHoles(fs.blocks, fs.ino[i], off, |src|);
      }
    }

    /** writei's checks (fs.c:718-721) pass. */
    predicate CanWrite(i: nat, off: nat, n: nat)
      reads this, fs
      requires i < |fs.ino|
    {
      off <= fs.ino[i].size && off + n < UINT_LIMIT && off + n <= MAXBYTES
    }

    /** Lock a ditto without verifying, write the data there too, unlock (fs.c:736-739): its size is left for
        cupdate. */
    method WriteDitto(ghost i: nat, c: nat, off: nat, src: seq<byte>) returns (r: Transfer<nat>)
      requires Valid() && i < |fs.ino| && IsDitto(fs.ino, i, c) && !busy[c] && off < UINT_LIMIT && |src| < UINT_LIMIT
      modifies this`busy, this`valid, fs`blocks, fs`ino, fs`txn
      ensures r.Err? <==> !old(CanWrite(c, off, |src|))
      ensures r.Err? ==> Same(old(fs.blocks), old(fs.ino), old(fs.disk), old(fs.txn)) && Valid()
      ensures !r.Stopped? ==> busy == old(busy) && valid == old(valid)[c := true]
      ensures r.Done? ==> Valid() && OnlyGrown(old(fs.blocks), old(fs.ino), fs.blocks, fs.ino, c)
      ensures r.Done? ==> Wrote(old(fs.blocks), old(fs.ino), fs.blocks, fs.ino, c, off, src)
      ensures r.Done? ==> LogsExactly(old(fs.txn).logged, fs.txn.logged, old(fs.blocks), old(fs.ino)[c], fs.blocks,
                                      fs.sb, fs.ino[c], off / BSIZE, SlotEnd(off, |src|))
      ensures r.Stopped? ==> fs.OutOfBlocks()
    {
      SumWraps(off, |src|);
      var l := LockUnverified(c);
      if off > fs.ino[c].size || (off + |src|) % UINT_LIMIT < off || off + |src| > MAXFILE * BSIZE {
        Iunlock(c);
        return Err;
      }
      var ok := WriteData(c, off, src);
      if !ok {
        return Stopped;
      }
      Iunlock(c);
      return Done(|src|);
    }

    /** The dittos of i have its size, and nobody holds them. */
    predicate DittosReady(i: nat)
      reads this, fs
    {
      DittosAgree(fs.ino, i) && |busy| == |fs.ino| && forall c :: c in Children(fs.ino[i]) ==> !busy[c]
    }

    /** src has been written at off into the inodes of `done` and nowhere else; only their addresses have changed, and
        only what that takes has been logged. */
    ghost predicate WroteTo(b0: seq<Block>, i0: seq<Dinode>, logged0: set<nat>, done: set<nat>, off: nat,
                            src: seq<byte>)
      reads this, fs
    {
      && Valid() && OthersSame(b0, i0, fs.blocks, fs.ino, done)
      && TouchedAll(logged0, fs.txn.logged, b0, i0, fs.blocks, fs.ino, fs.sb, done, off, |src|)
      && (forall j :: 0 <= j < |i0| ==> WellFormed(i0[j]) && fs.ino[j] == i0[j].(addrs := fs.ino[j].addrs))
      && forall j :: j in done ==> Wrote(b0, i0, fs.blocks, fs.ino, j, off, src)
    }

    /** The inode's own blocks (fs.c:723-729). */
    method WriteOwn(i: nat, off: nat, src: seq<byte>) returns (ok: bool)
      requires Valid() && i < |fs.ino| && valid[i] && CanWrite(i, off, |src|)
      modifies fs`blocks, fs`ino, fs`txn
      ensures ok ==> WroteTo(old(fs.blocks), old(fs.ino), old(fs.txn).logged, {i}, off, src)
      ensures !ok ==> fs.OutOfBlocks()
    {
      ghost var blocks0, ino0 := fs.blocks, fs.ino;
      OwnedWellFormed(blocks0, fs.sb, ino0);
      ok := WriteData(i, off, src);
      if ok {
        OthersSameStep(blocks0, ino0, blocks0, ino0, fs.blocks, fs.ino, {}, i);
        TouchedFirst(old(fs.txn).logged, fs.txn.logged, blocks0, ino0, fs.blocks, fs.ino, fs.sb, i, off, |src|);
      }
    }

    /** One ditto more: it joins the inodes of `done`, which have been written already (fs.c:734-748). */
    method WriteNextDitto(ghost blocks0: seq<Block>, ghost ino0: seq<Dinode>, ghost logged0: set<nat>, ghost i: nat,
                          c: nat, off: nat, src: seq<byte>, ghost done: set<nat>) returns (ok: bool)
      requires WroteTo(blocks0, ino0, logged0, done, off, src) && i < |ino0| && IsDitto(ino0, i, c) && !busy[c] &&
        c !in done
      requires off <= ino0[c].size && off + |src| < UINT_LIMIT && off + |src| <= MAXBYTES
      modifies this`busy, this`valid, fs`blocks, fs`ino, fs`txn
      ensures ok ==> WroteTo(blocks0, ino0, logged0, done + {c}, off, src)
      ensures ok ==> busy == old(busy) && valid == old(valid)[c := true]
      ensures !ok ==> fs.OutOfBlocks()
    {
      ghost var blocks1, ino1, logged1 := fs.blocks, fs.ino, fs.txn.logged;
      assert fs.ino[c] == ino0[c].(addrs := fs.ino[c].addrs);
      var r := WriteDitto(i, c, off, src);
      ok := r.Done?;
      if ok {
        OthersSameStep(blocks0, ino0, blocks1, ino1, fs.blocks, fs.ino, done, c);
        forall j | j in done ensures Wrote(blocks0, ino0, fs.blocks, fs.ino, j, off, src) {
          WroteStays(blocks0, ino0, blocks1, ino1, fs.blocks, fs.ino, j, c, off, src);
        }
        SameFileSameData(blocks0, blocks1, ino0[c]);
        TouchedMore(logged0, logged1, fs.txn.logged, blocks0, ino0, blocks1, ino1, fs.blocks, fs.ino, fs.sb, done, c,
                    off, |src|);
      }
    }

    /** The inode and its first ditto. */
    method WriteFirst(i: nat, off: nat, src: seq<byte>) returns (ok: bool)
      requires Valid() && DittosReady(i) && valid[i] && CanWrite(i, off, |src|)
      modifies this`busy, this`valid, fs`blocks, fs`ino, fs`txn
      ensures ok ==> busy == old(busy)
      ensures ok ==> WroteTo(old(fs.blocks), old(fs.ino), old(fs.txn).logged, WithFirst(old(fs.ino), i), off, src)
      ensures ok ==> |valid| == |old(valid)| && forall j :: 0 <= j < |valid| && old(valid)[j] ==> valid[j]
      ensures !ok ==> fs.OutOfBlocks()
    {
      ghost var blocks0, ino0 := fs.blocks, fs.ino;
      assert ino0[i].child1 != 0 ==> ino0[i].child1 in Children(ino0[i]);
      ok := WriteOwn(i, off, src);
      if ok && fs.ino[i].child1 != 0 {
        ok := WriteNextDitto(blocks0, ino0, old(fs.txn).logged, i, fs.ino[i].child1, off, src, {i});
      }
    }

    /** The data part of a mirrored writei: the inode's own blocks, then each ditto's (fs.c:723-748). False: the run
        ended. */
    method WriteMirrored(i: nat, off: nat, src: seq<byte>) returns (ok: bool)
      requires Valid() && DittosReady(i) && valid[i] && CanWrite(i, off, |src|)
      modifies this`busy, this`valid, fs`blocks, fs`ino, fs`txn
      ensures ok ==> busy == old(busy)
      ensures ok ==>
        WroteTo(old(fs.blocks), old(fs.ino), old(fs.txn).logged, {i} + Children(old(fs.ino)[i]), off, src)
      ensures ok ==> |valid| == |old(valid)| && forall j :: 0 <= j < |valid| && old(valid)[j] ==> valid[j]
      ensures !ok ==> fs.OutOfBlocks()
    {
      ghost var blocks0, ino0 := fs.blocks, fs.ino;
      ghost var child2 := ino0[i].child2;
      assert child2 != 0 ==> child2 in Children(ino0[i]) && child2 !in WithFirst(ino0, i);
      assert {i} + Children(ino0[i]) == if child2 != 0 then WithFirst(ino0, i) + {child2} else WithFirst(ino0, i);
      ok := WriteFirst(i, off, src);
      if ok && fs.ino[i].child2 != 0 {
        ok := WriteNextDitto(blocks0, ino0, old(fs.txn).logged, i, fs.ino[i].child2, off, src, WithFirst(ino0, i));
      }
    }

    /** cupdate, if there is a ditto (fs.c:263). */
    method UpdateOne(i: nat, c: nat)
      requires Valid() && i < |fs.ino|
      requires c != 0 ==> IsDitto(fs.ino, i, c) && !busy[c] && NoHoles(fs.blocks, fs.ino[c].(size := fs.ino[i].size))
      modifies this, fs`blocks, fs`disk, fs`ino, fs`txn
      ensures Valid() && fs.blocks == old(fs.blocks) && busy == old(busy)
      ensures KidUpdated(old(fs.ino), old(fs.disk), fs.ino, fs.disk, i, c)
      ensures valid == if c != 0 then old(valid)[c := true] else old(valid)
      ensures fs.txn.logged == old(fs.txn).logged + if c != 0 then {fs.sb.InodeBlock(c)} else {}
      ensures fs.txn.earlier == if c != 0 then old(fs.txn).logged else old(fs.txn).earlier
    {
      if c != 0 {
        Cupdate(i, c);
      }
    }

    /** The children part of iupdate_ext (fs.c:262-265). */
    method UpdateDittos(i: nat)
      requires Valid() && HasDittos(fs.ino, i) && (fs.ino[i].child1 != 0 ==> fs.ino[i].child1 != fs.ino[i].child2)
      requires forall c :: c in Children(fs.ino[i]) ==>
        !busy[c] && NoHoles(fs.blocks, fs.ino[c].(size := fs.ino[i].size))
      modifies this, fs`blocks, fs`disk, fs`ino, fs`txn
      ensures Valid() && fs.blocks == old(fs.blocks) && busy == old(busy)
      ensures KidsStamped(old(fs.ino), fs.ino, i, Children(old(fs.ino)[i]))
      ensures forall j :: 0 <= j < |valid| && old(valid)[j] ==> valid[j]
      ensures DittosOn(fs.disk, fs.ino, Children(old(fs.ino)[i]))
      ensures forall j :: 0 <= j < |fs.disk| && j !in Children(old(fs.ino)[i]) ==> fs.disk[j] == old(fs.disk)[j]
      ensures KidsLogged(old(fs.txn), fs.txn, fs.sb, old(fs.ino)[i].child1, old(fs.ino)[i].child2)
    {
      var d := fs.ino[i];
      assert d.child1 != 0 ==> d.child1 in Children(d);
      assert d.child2 != 0 ==> d.child2 in Children(d);
      UpdateOne(i, d.child1);
      ghost var ino1, disk1 := fs.ino, fs.disk;
      UpdateOne(i, d.child2);
      KidsUpdated(old(fs.ino), old(fs.disk), ino1, disk1, fs.ino, fs.disk, i, d.child1, d.child2);
    }

    /** Copy a modified inode to disk with a fresh checksum and bring its dittos up to date (fs.c:237-267). With skip
        set, it is WriteInode alone. */
    method IupdateExt(i: nat)
      requires Valid() && i < |fs.ino| && valid[i] && HasDittos(fs.ino, i)
      requires fs.ino[i].child1 != 0 ==> fs.ino[i].child1 != fs.ino[i].child2
      requires forall c :: c in Children(fs.ino[i]) ==>
        !busy[c] && NoHoles(fs.blocks, fs.ino[c].(size := fs.ino[i].size))
      modifies this, fs`blocks, fs`disk, fs`ino, fs`txn
      ensures Valid() && fs.blocks == old(fs.blocks) && busy == old(busy)
      ensures Stamped(fs.blocks, old(fs.ino), fs.ino, i, Children(old(fs.ino)[i]))
      ensures forall j :: 0 <= j < |valid| && old(valid)[j] ==> valid[j]
      ensures OnRecordNow(fs.disk, fs.ino, i, Children(old(fs.ino)[i]))
      ensures forall j :: 0 <= j < |fs.disk| && j != i && j !in Children(old(fs.ino)[i]) ==>
        fs.disk[j] == old(fs.disk)[j]
      ensures RecordLogged(old(fs.txn).logged, fs.txn, fs.sb, i, old(fs.ino)[i].child1, old(fs.ino)[i].child2)
    {
      assert InUse(fs.blocks, fs.sb, fs.ino[i]);
      WriteInode(i);
      ghost var t := fs.txn;
      UpdateDittos(i);
      RecordsLogged(old(fs.txn).logged, t, fs.txn, fs.sb, i, old(fs.ino)[i].child1, old(fs.ino)[i].child2);
    }

    /** iupdate (fs.c:230-235), which link and unlink call for the link count alone: a mirror stays a mirror. */
    method Iupdate(i: nat)
      requires Valid() && DittosReady(i) && valid[i]
      modifies this, fs`blocks, fs`disk, fs`ino, fs`txn
      ensures Valid() && busy == old(busy) && fs.disk[i] == fs.ino[i]
      ensures fs.blocks == old(fs.blocks) && Stamped(fs.blocks, old(fs.ino), fs.ino, i, Children(old(fs.ino)[i]))
      ensures MirrorOk(old(fs.blocks), old(fs.ino), i) ==> MirrorOk(fs.blocks, fs.ino, i)
    {
      ghost var ino0 := fs.ino;
      forall c | c in Children(fs.ino[i]) ensures NoHoles(fs.blocks, fs.ino[c].(size := fs.ino[i].size)) {
        assert fs.ino[c].(size := fs.ino[i].size) == fs.ino[c];
      }
      IupdateExt(i);
      if MirrorOk(fs.blocks, ino0, i) {
        MirrorAfterUpdate(fs.blocks, ino0, fs.ino, i);
      }
    }

    /** writei after its data is written: the new size, then iupdate (fs.c:755-759). */
    method FinishWrite(i: nat, off: nat, n: nat, ghost blocks0: seq<Block>, ghost ino0: seq<Dinode>,
                       ghost src: seq<byte>)
      requires Valid() && i < |ino0| == |fs.ino| && valid[i] && n == |src| && HasDittos(ino0, i)
      requires ino0[i].child1 != 0 ==> ino0[i].child1 != ino0[i].child2
      requires forall j :: j in {i} + Children(ino0[i]) ==> Wrote(blocks0, ino0, fs.blocks, fs.ino, j, off, src)
      requires forall c :: c in Children(ino0[i]) ==> !busy[c] && ino0[c].size == ino0[i].size
      modifies this, fs`blocks, fs`disk, fs`ino, fs`txn
      ensures Valid() && fs.blocks == old(fs.blocks) && busy == old(busy) &&
        OnRecordNow(fs.disk, fs.ino, i, Children(ino0[i]))
      ensures Stamped(fs.blocks, old(fs.ino)[i := old(fs.ino)[i].(size := NewSize(ino0[i].size, off, n))], fs.ino, i,
                      Children(ino0[i]))
      ensures RecordLogged(old(fs.txn).logged, fs.txn, fs.sb, i, ino0[i].child1, ino0[i].child2)
      ensures valid[i]
    {
      ghost var size := NewSize(ino0[i].size, off, n);
      ReadyToStamp(blocks0, ino0, fs.blocks, fs.ino, i, off, src, size);
      if n > 0 && off + n > fs.ino[i].size {
        SetInode(i, fs.ino[i].(size := off + n));
      }
      assert fs.ino == old(fs.ino)[i := old(fs.ino)[i].(size := size)];
      IupdateExt(i);
    }

    /** writei on a file or directory: the data, then the dittos' data, then size and checksum everywhere
        (fs.c:704-762, skip 0). */
    method Writei(i: nat, off: nat, src: seq<byte>) returns (r: Transfer<nat>)
      requires Valid() && DittosReady(i) && valid[i] && !fs.ino[i].kind.Ditto? && !fs.ino[i].kind.Dev?
      requires off < UINT_LIMIT && |src| < UINT_LIMIT
      modifies this, fs`blocks, fs`disk, fs`ino, fs`txn
      ensures r.Err? <==> !old(CanWrite(i, off, |src|))
      ensures r.Err? ==> Same(old(fs.blocks), old(fs.ino), old(fs.disk), old(fs.txn))
      ensures r.Err? ==> busy == old(busy) && valid == old(valid)
      ensures r.Done? ==> Valid() && busy == old(busy) && r.value == |src| && valid[i]
      ensures r.Done? ==> OnRecordNow(fs.disk, fs.ino, i, Children(old(fs.ino)[i]))
      ensures r.Done? ==> WriteDone(old(fs.blocks), old(fs.ino), fs.blocks, fs.ino, i, off, src)
      ensures r.Done? ==> WriteLogs(old(fs.txn).logged, fs.txn, old(fs.blocks), old(fs.ino), fs.blocks, fs.ino, fs.sb,
                                    i, off, |src|)
      ensures r.Stopped? ==> fs.OutOfBlocks()
    {
      assert InUse(fs.blocks, fs.sb, fs.ino[i]);
      SumWraps(off, |src|);
      if off > fs.ino[i].size || (off + |src|) % UINT_LIMIT < off || off + |src| > MAXFILE * BSIZE {
        return Err;
      }
      var ok := WriteChecked(i, off, src);
      return if ok then Done(|src|) else Stopped;
    }

    /** writei once its checks have passed (fs.c:723-759). */
    method WriteChecked(i: nat, off: nat, src: seq<byte>) returns (ok: bool)
      requires Valid() && DittosReady(i) && valid[i] && CanWrite(i, off, |src|)
      modifies this, fs`blocks, fs`disk, fs`ino, fs`txn
      ensures ok ==> Valid() && busy == old(busy) && valid[i]
      ensures ok ==> OnRecordNow(fs.disk, fs.ino, i, Children(old(fs.ino)[i]))
      ensures ok ==> WriteDone(old(fs.blocks), old(fs.ino), fs.blocks, fs.ino, i, off, src)
      ensures ok ==> WriteLogs(old(fs.txn).logged, fs.txn, old(fs.blocks), old(fs.ino), fs.blocks, fs.ino, fs.sb, i,
                               off, |src|)
      ensures !ok ==> fs.OutOfBlocks()
    {
      ghost var blocks0, ino0 := fs.blocks, fs.ino;
      ok := WriteMirrored(i, off, src);
      if !ok {
        return;
      }
      ghost var ino1, logged1 := fs.ino, fs.txn.logged;
      FinishWrite(i, off, |src|, blocks0, ino0, src);
      AfterWrite(blocks0, ino0, fs.blocks, ino1, fs.ino, i, off, src);
      WriteLogged(old(fs.txn).logged, logged1, fs.txn, blocks0, ino0, fs.blocks, ino1,
                  ino1[i].(size := NewSize(ino0[i].size, off, |src|)), fs.ino, fs.sb, i, Children(ino0[i]), off, |src|);
    }

    /** writei_ext with skip set, inside the file: the data, and for anything but a ditto iupdate_ext (fs.c:723-729,
        750-759). */
    method WriteiAlone(i: nat, off: nat, src: seq<byte>) returns (ok: bool)
      requires Linked() && HasDittos(fs.ino, i) && valid[i] && off + |src| <= fs.ino[i].size
      requires fs.ino[i].child1 != 0 ==> fs.ino[i].child1 != fs.ino[i].child2
      requires !fs.ino[i].kind.Ditto? ==> NoHoles(fs.blocks, fs.ino[i])
      modifies fs`blocks, fs`disk, fs`ino, fs`txn
      ensures !old(fs.ino)[i].kind.Ditto? ==> ok
      ensures ok ==> Linked() && WroteAlone(old(fs.blocks), old(fs.ino), old(fs.disk), old(fs.txn).logged, fs.blocks,
                                            fs.ino, fs.disk, fs.txn.logged, fs.sb, i, off, src)
      ensures !ok ==> fs.OutOfBlocks()
    {
      assert InUse(fs.blocks, fs.sb, fs.ino[i]);
      assert !fs.ino[i].kind.Ditto? ==> Present(fs.blocks, fs.ino[i], off, off + |src|);
      ok := fs.WriteBytes(i, off, src);
      if !ok || fs.ino[i].kind.Ditto? {
        return;
      }
      ghost var d, logged1 := fs.ino[i], fs.txn.logged;
      assert NoHoles(fs.blocks, d);
      WriteInode(i);
      LoggedForUpdate(old(fs.txn).logged, logged1, fs.blocks, fs.sb, d, fs.ino[i], off / BSIZE, BlockEnd(off + |src|),
                      fs.sb.InodeBlock(i));
    }

    /** One turn of iduplicate's loop: copy up to 512 bytes at o (fs.c:568-573). Reports how many; 0 at the end of
        src. */
    method CopyChunk(src: nat, dst: nat, o: nat) returns (r: Option<nat>)
      requires Linked() && Copyable(fs.blocks, fs.ino, src, dst) && valid[dst] && o <= fs.ino[src].size
      modifies fs`blocks, fs`disk, fs`ino, fs`txn
      ensures !old(fs.ino)[dst].kind.Ditto? ==> r.Some?
      ensures r.Some? ==> Linked() && o + r.value == ReadEnd(old(fs.ino)[src], o, 512)
      ensures r == Some(0) ==> Same(old(fs.blocks), old(fs.ino), old(fs.disk), old(fs.txn))
      ensures r.Some? && r.value > 0 ==>
        Moved(old(fs.blocks), old(fs.ino), old(fs.disk), old(fs.txn).logged, fs.blocks, fs.ino, fs.disk, fs.txn.logged,
              fs.sb, src, dst, o, r.value)
      ensures r.None? ==> fs.OutOfBlocks()
    {
      var buf := fs.Readi(src, o, 512);
      if buf.value == [] {
        return Some(0);
      }
      var ok := WriteiAlone(dst, o, buf.value);
      if !ok {
        return None;
      }
      MovedBy(old(fs.blocks), old(fs.ino), old(fs.disk), old(fs.txn).logged, fs.blocks, fs.ino, fs.disk, fs.txn.logged,
              fs.sb, src, dst, o, |buf.value|, buf.value);
      return Some(|buf.value|);
    }

    /** The invariant of iduplicate's loop. */
    ghost predicate Copying(b0: seq<Block>, i0: seq<Dinode>, disk0: seq<Dinode>, logged0: set<nat>, src: nat, dst: nat,
                            off: nat, o: nat)
      reads this, fs
    {
      && Linked() && dst < |valid| && valid[dst]
      && CopiedSoFar(b0, i0, disk0, logged0, fs.blocks, fs.ino, fs.disk, fs.txn.logged, fs.sb, src, dst, off, o)
    }

    /** The same, reporting the next offset; it is o again at the end of src. */
    method CopyNext(src: nat, dst: nat, o: nat,
                    ghost b0: seq<Block>, ghost i0: seq<Dinode>, ghost disk0: seq<Dinode>, ghost logged0: set<nat>,
                    ghost off: nat)
      returns (x: Option<nat>)
      requires Copying(b0, i0, disk0, logged0, src, dst, off, o)
      modifies fs`blocks, fs`disk, fs`ino, fs`txn
      ensures dst < |i0| && (!i0[dst].kind.Ditto? ==> x.Some?)
      ensures x.Some? ==> src < |i0| && o <= i0[src].size && x.value == NextStep(i0[src].size, o)
      ensures x.Some? ==> Copying(b0, i0, disk0, logged0, src, dst, off, x.value)
      ensures x.None? ==> fs.OutOfBlocks()
    {
      ghost var b1, i1, disk1, logged1 := fs.blocks, fs.ino, fs.disk, fs.txn.logged;
      var n := CopyChunk(src, dst, o);
      if n.None? {
        return None;
      }
      x := Some(o + n.value);
      CopiedStep(b0, i0, disk0, logged0, b1, i1, disk1, logged1, fs.blocks, fs.ino, fs.disk, fs.txn.logged, fs.sb, src,
                 dst, off, o, n.value, x.value);
    }

    /** The loop of iduplicate (fs.c:568-573). */
    method CopyLoop(src: nat, dst: nat, off: nat, ntotal: nat,
                    ghost b0: seq<Block>, ghost i0: seq<Dinode>, ghost disk0: seq<Dinode>, ghost logged0: set<nat>)
                    returns (r: Option<nat>)
      requires Copying(b0, i0, disk0, logged0, src, dst, off, off)
      modifies fs`blocks, fs`disk, fs`ino, fs`txn
      ensures dst < |i0| && (!i0[dst].kind.Ditto? ==> r.Some?)
      ensures r.Some? ==> src < |i0| && r.value == CopyEnd(i0[src].size, off, ntotal)
      ensures r.Some? ==> Copying(b0, i0, disk0, logged0, src, dst, off, r.value)
      ensures r.None? ==> fs.OutOfBlocks()
    {
      var o := off;
      ghost var size := i0[src].size;
      while o < ntotal + off
        invariant Copying(b0, i0, disk0, logged0, src, dst, off, o) && OnTheWay(size, off, ntotal, o)
        decreases size - o
      {
        OneStep(size, off, ntotal, o);
        var x := CopyNext(src, dst, o, b0, i0, disk0, logged0, off);
        if x.None? {
          return None;
        }
        if x.value == o {
          break;
        }
        o := x.value;
      }
      LastStep(size, off, ntotal, o);
      return Some(o);
    }

    /** Copy size, checksum and at least ntotal bytes at off from src to dst (fs.c:555-575). Reports where it
        stopped. */
    method Iduplicate(src: nat, dst: nat, off: nat, ntotal: nat) returns (r: Option<nat>)
      requires Linked() && src < |fs.ino| && dst < |fs.ino| && valid[dst] && off <= fs.ino[src].size
      requires Copyable(fs.blocks, Resized(fs.ino, src, dst), src, dst)
      modifies fs`blocks, fs`disk, fs`ino, fs`txn
      ensures !old(fs.ino)[dst].kind.Ditto? ==> r.Some?
      ensures r.Some? ==> r.value == CopyEnd(old(fs.ino)[src].size, off, ntotal)
      ensures r.Some? ==> Copying(old(fs.blocks), Resized(old(fs.ino), src, dst), old(fs.disk), old(fs.txn).logged,
                                  src, dst, off, r.value)
      ensures r.None? ==> fs.OutOfBlocks()
    {
      SetInode(dst, fs.ino[dst].(checksum := fs.ino[src].checksum, size := fs.ino[src].size));
      assert fs.ino == Resized(old(fs.ino), src, dst);
      OwnedWellFormed(fs.blocks, fs.sb, fs.ino);
      CopiedNothing(fs.blocks, fs.ino, fs.disk, fs.txn.logged, fs.sb, src, dst, off);
      r := CopyLoop(src, dst, off, ntotal, fs.blocks, fs.ino, fs.disk, fs.txn.logged);
    }

    /** irescue between two transactions: the first off bytes are rescued, in transactions that fit the log. */
    ghost predicate Rescuing(b0: seq<Block>, i0: seq<Dinode>, disk0: seq<Dinode>, past0: seq<Ops>, base0: seq<Block>,
                             i: nat, c: nat, off: nat)
      reads this, fs
    {
      && Linked() && fs.Idle() && i < |valid| && valid[i]
      && Rescued(b0, i0, disk0, fs.blocks, fs.ino, fs.disk, i, c, off)
      && RescueTrail(b0, i0, disk0, past0, base0, fs.past, fs.base, fs.sb, i, c, off)
    }

    /** begin_trans and iduplicate, one transaction of irescue but for its commit (fs.c:540-541). */
    method RescueCopy(i: nat, c: nat, off: nat, x: nat, ghost b0: seq<Block>, ghost i0: seq<Dinode>,
                      ghost disk0: seq<Dinode>)
      requires Linked() && fs.Idle() && i < |valid| && valid[i]
      requires Rescued(b0, i0, disk0, fs.blocks, fs.ino, fs.disk, i, c, off)
      requires off < i0[c].size && x == ChunkEnd(i0[c].size, off, RESCUE_MAX)
      modifies fs`blocks, fs`disk, fs`ino, fs`txn, fs`open
      ensures fs.open
      ensures Linked() && Rescued(b0, i0, disk0, fs.blocks, fs.ino, fs.disk, i, c, x)
      ensures fs.sb.size < BPB ==> |fs.txn.logged| <= RESCUE_SECTORS
    {
      ghost var b1, i1, disk1 := fs.blocks, fs.ino, fs.disk;
      BeginTrans();
      OwnedWellFormed(fs.blocks, fs.sb, fs.ino);
      ResizedSame(fs.blocks, fs.ino, c, i);
      var r := Iduplicate(c, i, off, x - off);
      RescueStops(i0[c].size, off, x, r.value);
      LoggedAtMost(fs.blocks, fs.sb, fs.ino[i], fs.txn.logged, off, r.value, fs.sb.InodeBlock(i));
      RescuedMore(b0, i0, disk0, b1, i1, disk1, fs.blocks, fs.ino, fs.disk, i, c, off, x);
    }

    /** One transaction of irescue, up to byte x (fs.c:536-545). */
    method RescueNext(i: nat, c: nat, off: nat, x: nat, ghost b0: seq<Block>, ghost i0: seq<Dinode>,
                      ghost disk0: seq<Dinode>,
                      ghost past0: seq<Ops>, ghost base0: seq<Block>)
      requires Rescuing(b0, i0, disk0, past0, base0, i, c, off) && off < i0[c].size &&
        x == ChunkEnd(i0[c].size, off, RESCUE_MAX)
      modifies fs
      ensures Rescuing(b0, i0, disk0, past0, base0, i, c, x)
    {
      RescueCopy(i, c, off, x, b0, i0, disk0);
      RescueTrailMore(b0, i0, disk0, fs.blocks, fs.ino, fs.disk, past0, base0, fs.past, fs.base, fs.txn, fs.sb, i, c,
                      off, x);
      fs.CommitTrans();
    }

    /** The loop of irescue, RESCUE_MAX bytes a transaction (fs.c:535-546). */
    method RescueLoop(i: nat, c: nat, n: nat, ghost b0: seq<Block>, ghost i0: seq<Dinode>, ghost disk0: seq<Dinode>,
                      ghost past0: seq<Ops>, ghost base0: seq<Block>)
      requires Rescuing(b0, i0, disk0, past0, base0, i, c, 0) && n == i0[c].size
      modifies fs
      ensures Rescuing(b0, i0, disk0, past0, base0, i, c, n)
    {
      var off: nat := 0;
      while off < n
        invariant off <= n && Rescuing(b0, i0, disk0, past0, base0, i, c, off)
      {
        var x := ChunkEnd(n, off, RESCUE_MAX);
        RescueNext(i, c, off, x, b0, i0, disk0, past0, base0);
        off := x;
      }
    }

    /** irescue's locks (fs.c:530-531). */
    method LockBoth(c: nat, i: nat)
      requires Valid() && c < |fs.ino| && i < |fs.ino| && c != i && !busy[i] && !busy[c]
      requires !fs.ino[i].kind.Free? && !fs.ino[c].kind.Free?
      modifies this`busy, this`valid, fs`ino
      ensures Valid() && fs.ino == old(fs.ino) && busy == old(busy)[c := true][i := true] &&
        valid == old(valid)[c := true][i := true]
    {
      var l := LockUnverified(c);
      l := LockUnverified(i);
    }

    /** And its unlocks (fs.c:548-549). */
    method UnlockBoth(c: nat, i: nat)
      requires Valid() && c < |busy| && i < |busy|
      modifies this`busy
      ensures Valid() && busy == old(busy)[c := false][i := false]
    {
      Iunlock(c);
      Iunlock(i);
    }

    /** irescue between its locks (fs.c:533-546). */
    method RescueLocked(i: nat, c: nat)
      requires Valid() && fs.Idle() && i < |fs.ino| && Copyable(fs.blocks, fs.ino, c, i) && valid[i] &&
        !fs.ino[i].kind.Ditto?
      modifies fs
      ensures Valid() && fs.Idle() && OthersSame(old(fs.blocks), old(fs.ino), fs.blocks, fs.ino, {i})
      ensures KeepsRefs(old(fs.blocks), old(fs.ino)[i], fs.blocks, fs.ino[i])
      ensures Content(fs.blocks, fs.ino[i]) == Content(old(fs.blocks), old(fs.ino)[c])
      ensures fs.ino[i].size > 0 ==> Good(fs.blocks, fs.ino[i]) && fs.disk[i] == fs.ino[i]
      ensures RescueTrail(old(fs.blocks), old(fs.ino), old(fs.disk), old(fs.past), old(fs.base), fs.past, fs.base,
                          fs.sb, i, c, fs.ino[i].size)
    {
      OwnedWellFormed(fs.blocks, fs.sb, fs.ino);
      RescuedNothing(fs.blocks, fs.ino, fs.disk, i, c);
      RescueTrailStart(fs.blocks, fs.ino, fs.disk, fs.past, fs.base, fs.txn, fs.sb, i, c);
      RescueLoop(i, c, fs.ino[i].size, fs.blocks, fs.ino, fs.disk, fs.past, fs.base);
      RescuedAll(old(fs.blocks), old(fs.ino), old(fs.disk), fs.blocks, fs.ino, fs.disk, i, c);
    }

    /** Copy a replica over its parent (fs.c:522-551). */
    method Irescue(i: nat, c: nat)
      requires Valid() && fs.Idle() && i < |fs.ino| && Copyable(fs.blocks, fs.ino, c, i) && !busy[i] && !busy[c]
      requires !fs.ino[i].kind.Ditto? && !fs.ino[i].kind.Free? && !fs.ino[c].kind.Free?
      modifies this, fs
      ensures Valid() && busy == old(busy) && valid == old(valid)[c := true][i := true]
      ensures OthersSame(old(fs.blocks), old(fs.ino), fs.blocks, fs.ino, {i})
      ensures KeepsRefs(old(fs.blocks), old(fs.ino)[i], fs.blocks, fs.ino[i])
      ensures Content(fs.blocks, fs.ino[i]) == Content(old(fs.blocks), old(fs.ino)[c])
      ensures fs.ino[i].size > 0 ==> Good(fs.blocks, fs.ino[i]) && fs.disk[i] == fs.ino[i]
      ensures fs.Idle()
      ensures RescueTrail(old(fs.blocks), old(fs.ino), old(fs.disk), old(fs.past), old(fs.base), fs.past, fs.base,
                          fs.sb, i, c, fs.ino[i].size)
    {
      LockBoth(c, i);
      RescueLocked(i, c);
      SetAndCleared(old(busy), c, i);
      UnlockBoth(c, i);
    }

    /** Rescue from a replica that verifies, and lock again: an inode already read is not checked again
        (fs.c:372-377). */
    method RescueAndLock(i: nat, c: nat) returns (r: Lock)
      requires Valid() && fs.Idle() && i < |fs.ino| && Copyable(fs.blocks, fs.ino, c, i) && !busy[i] && !busy[c] &&
        HasDittos(fs.ino, i)
      requires forall k :: k in Children(fs.ino[i]) ==> !busy[k]
      requires !fs.ino[i].kind.Ditto? && !fs.ino[i].kind.Free? && !fs.ino[c].kind.Free?
      modifies this, fs
      ensures Valid() && r == Locked && busy == old(busy)[i := true] && valid[i]
      ensures OthersSame(old(fs.blocks), old(fs.ino), fs.blocks, fs.ino, {i})
      ensures Content(fs.blocks, fs.ino[i]) == Content(old(fs.blocks), old(fs.ino)[c])
      ensures fs.ino[i].size > 0 ==> Good(fs.blocks, fs.ino[i]) && fs.disk[i] == fs.ino[i]
      ensures SameRecord(old(fs.ino)[i], fs.ino[i])
      ensures fs.Idle() && Committed(old(fs.past), old(fs.base), fs.past, fs.base, fs.sb, RESCUE_SECTORS, true)
    {
      Irescue(i, c);
      AfterRescue(old(fs.blocks), old(fs.ino), fs.blocks, fs.ino, i);
      r := Ilock(i);
    }

    /** The replicas' records agree with the inode's: the dinodes are intact, whatever became of the data. */
    predicate RecordsIntact(i: nat)
      reads this, fs
    {
      && HasDittos(fs.ino, i) && (fs.ino[i].child1 != 0 ==> fs.ino[i].child1 != fs.ino[i].child2)
      && forall c :: c in Children(fs.ino[i]) ==>
        fs.ino[c].size == fs.ino[i].size && fs.ino[c].checksum == fs.ino[i].checksum
    }

    /** The second half of ilock_trans, when ilock has found a replica (fs.c:371-378). */
    method Repair(i: nat, c: nat, ghost valid0: seq<bool>) returns (r: Lock)
      requires Valid() && fs.Idle() && RecordsIntact(i) && !busy[i] && (fs.ino[i].kind.File? || fs.ino[i].kind.Dir?)
      requires forall k :: k in Children(fs.ino[i]) ==> !busy[k]
      requires |fs.ino| == |valid0| && forall j :: 0 <= j < |fs.ino| ==> WellFormed(fs.ino[j])
      requires Verdict(fs.blocks, fs.ino, valid0, i) == Replica(c)
      modifies this, fs
      ensures Valid() && r == Locked && busy == old(busy)[i := true] && valid[i]
      ensures SameRecord(old(fs.ino)[i], fs.ino[i]) && OthersSame(old(fs.blocks), old(fs.ino), fs.blocks, fs.ino, {i})
      ensures fs.Idle() && Committed(old(fs.past), old(fs.base), fs.past, fs.base, fs.sb, RESCUE_SECTORS, true)
      ensures Restored(old(fs.blocks), old(fs.ino), old(fs.disk), valid0, fs.blocks, fs.ino, fs.disk, i)
    {
      if !valid0[c] {
        NotEmpty(fs.blocks, fs.ino, valid0, i, c);
      }
      r := RescueAndLock(i, c);
    }

    /**
     Lock an inode, repairing it from a replica if it does not verify (fs.c:360-381).
     It ends Locked, or Corrupted with nothing locked; the panic at the end is never reached.
     */
    method IlockTrans(i: nat) returns (r: Lock)
      requires Valid() && fs.Idle() && RecordsIntact(i) && !busy[i] && (fs.ino[i].kind.File? || fs.ino[i].kind.Dir?)
      requires forall c :: c in Children(fs.ino[i]) ==> !busy[c]
      modifies this, fs
      ensures Valid() && (r == Locked || r == Corrupted)
      ensures FirstIntact(old(fs.blocks), old(fs.ino), old(valid), fs.blocks, fs.ino, i, r.Corrupted?)
      ensures r.Corrupted? ==> Same(old(fs.blocks), old(fs.ino), old(fs.disk), old(fs.txn))
      ensures r.Corrupted? ==> busy == old(busy) && valid == old(valid)
      ensures r.Locked? ==> busy == old(busy)[i := true] && valid[i] && SameRecord(old(fs.ino)[i], fs.ino[i])
      ensures r.Locked? ==> OthersSame(old(fs.blocks), old(fs.ino), fs.blocks, fs.ino, {i})
      ensures fs.Idle() && Committed(old(fs.past), old(fs.base), fs.past, fs.base, fs.sb, RESCUE_SECTORS, true)
      ensures fs.past != old(fs.past) || fs.base != old(fs.base) ==>
        Verdict(old(fs.blocks), old(fs.ino), old(valid), i).Replica?
      ensures Restored(old(fs.blocks), old(fs.ino), old(fs.disk), old(valid), fs.blocks, fs.ino, fs.disk, i)
    {
      CommittedNothing(fs.past, fs.base, fs.sb, RESCUE_SECTORS, true);
      OwnedWellFormed(fs.blocks, fs.sb, fs.ino);
      r := Ilock(i);
      if r.Replica? {
        r := Repair(i, r.inum, old(valid));
      }
      RestoredFirst(old(fs.blocks), old(fs.ino), old(fs.disk), old(valid), fs.blocks, fs.ino, fs.disk, i);
    }
  }

  /** The size after writing n bytes at off. */
  function NewSize(size: nat, off: nat, n: nat): nat {
    if n > 0 && off + n > size then off + n else size
  }

  lemma NoHolesSame(blocks: seq<Block>, d: Dinode, e: Dinode)
    requires WellFormed(d) && WellFormed(e) && d.addrs == e.addrs && d.size == e.size && NoHoles(blocks, d)
    ensures NoHoles(blocks, e)
  {
    forall l | 0 <= l < MAXFILE && l * BSIZE < e.size ensures Ref(blocks, e, l) != 0 {
      assert Ref(blocks, e, l) == Ref(blocks, d, l);
    }
  }

  lemma PresentNoHoles(blocks: seq<Block>, d: Dinode, off: nat, n: nat)
    requires WellFormed(d) && NoHoles(blocks, d) && off <= d.size && off + n <= MAXBYTES &&
      Present(blocks, d, off, off + n)
    ensures NoHoles(blocks, d.(size := NewSize(d.size, off, n)))
  {
    var d' := d.(size := NewSize(d.size, off, n));
    forall l | 0 <= l < MAXFILE && l * BSIZE < d'.size ensures Ref(blocks, d', l) != 0 {
      assert Ref(blocks, d', l) == Ref(blocks, d, l);
      if l * BSIZE >= d.size {
        assert (l * BSIZE) / BSIZE == l;
      }
    }
  }

  lemma SummedMore(file: seq<byte>, off: nat, end: nat, c: bv32)
    requires off % 4 == 0 && off <= |file| && (end == off + 2048 <= |file| || end == |file|) && c == Sum(file[..end])
    ensures Summed(file, end, c)
  {
    if end == off + 2048 {
      assert end % 4 == 0;
    }
  }

  /** What ichecksum computes: device inodes count as 0. */
  function ChecksumOf(blocks: seq<Block>, d: Dinode): bv32
    requires WellFormed(d)
  {
    if d.kind.Dev? then 0 else Sum(Content(blocks, d))
  }
}
