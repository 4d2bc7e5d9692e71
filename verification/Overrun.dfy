/**
 How much of the log a write takes (file.c:127-133, fs.c:723-759). The chunks of filewrite are sized for one inode, but
 a write goes to every ditto in the same transaction. Counting is exact, on a disk with one bitmap block as
 mkfs makes it.
 */
module Overrun {
  import opened Bitmap
  import opened Blocks
  import opened Bytes
  import opened Dinodes
  import opened Ditto
  import opened FileSystem
  import opened Transactions
  import LogTheory

  // ---- What can be told before the write ------------------------------------------------------

  /** Some block of the slots lo..hi is missing. */
  predicate Missing(blocks: seq<Block>, d: Dinode, lo: nat, hi: nat)
    requires WellFormed(d) && hi <= MAXFILE
  {
    exists l :: lo <= l < hi && Ref(blocks, d, l) == 0
  }

  /** One that is listed in the indirect block. */
  predicate MissingListed(blocks: seq<Block>, d: Dinode, lo: nat, hi: nat)
    requires WellFormed(d) && hi <= MAXFILE
  {
    exists l :: lo <= l < hi && NDIRECT <= l && Ref(blocks, d, l) == 0
  }

  /** The data area sectors that writing the slots lo..hi of an inode takes: the blocks, and the indirect block if
      something is entered there. */
  function InodeCost(blocks: seq<Block>, d: Dinode, lo: nat, hi: nat): nat
    requires WellFormed(d) && lo <= hi <= MAXFILE
  {
    hi - lo + if MissingListed(blocks, d, lo, hi) then 1 else 0
  }

  /** The inodes a write to inode i goes to: itself and its dittos. */
  predicate WriteGroup(ino: seq<Dinode>, i: nat) {
    && i < |ino| && (forall j :: j in {i} + Children(ino[i]) ==> j < |ino| && WellFormed(ino[j]))
    && (ino[i].child1 != 0 ==> ino[i].child1 != ino[i].child2) && i !in Children(ino[i])
  }

  predicate AnyMissing(blocks: seq<Block>, ino: seq<Dinode>, i: nat, lo: nat, hi: nat)
    requires WriteGroup(ino, i) && hi <= MAXFILE
  {
    exists j :: j in {i} + Children(ino[i]) && Missing(blocks, ino[j], lo, hi)
  }

  function DittoCost(blocks: seq<Block>, ino: seq<Dinode>, c: nat, lo: nat, hi: nat): nat
    requires (c != 0 ==> c < |ino| && WellFormed(ino[c])) && lo <= hi <= MAXFILE
  {
    if c == 0 then 0 else InodeCost(blocks, ino[c], lo, hi)
  }

  /**
   The sectors in the log when the last log_write of a write to the slots lo..hi of inode i comes: the blocks of the
   inode and its dittos, the bitmap if one is new, and the inode blocks of all but the last to be recorded.
   */
  function LogSectors(blocks: seq<Block>, ino: seq<Dinode>, sb: Superblock, i: nat, lo: nat, hi: nat): nat
    requires WriteGroup(ino, i) && lo <= hi <= MAXFILE
  {
    var d := ino[i];
    assert d.child1 != 0 ==> d.child1 in Children(d);
    assert d.child2 != 0 ==> d.child2 in Children(d);
    InodeCost(blocks, d, lo, hi) + DittoCost(blocks, ino, d.child1, lo, hi) + DittoCost(blocks, ino, d.child2, lo, hi)
    + (if AnyMissing(blocks, ino, i, lo, hi) then 1 else 0) + |EarlierRecords(sb, i, d.child1, d.child2)|
  }

  // ---- Counting --------------------------------------------------------------------------------

  /** The sectors a write takes for inode j: its blocks, and the indirect block if something is entered there. */
  ghost predicate SectorsFor(b0: seq<Block>, i0: seq<Dinode>, b: seq<Block>, ino: seq<Dinode>, j: nat, lo: nat, hi: nat,
                             s: set<nat>)
    requires j < |i0| == |ino| && WellFormed(i0[j]) && WellFormed(ino[j]) && lo <= hi <= MAXFILE
  {
    forall x :: x in s <==> || InRange(b, ino[j], lo, hi, x)
                            || (MissingListed(b0, i0[j], lo, hi) && x == Ref(b, ino[j], MAXFILE))
  }

  predicate InRange(blocks: seq<Block>, d: Dinode, lo: nat, hi: nat, x: nat)
    requires WellFormed(d) && hi <= MAXFILE
  {
    exists l :: lo <= l < hi && Ref(blocks, d, l) == x
  }

  /** The blocks of the slots lo..hi of inode j. */
  lemma SlotSet(blocks: seq<Block>, sb: Superblock, ino: seq<Dinode>, j: nat, lo: nat, hi: nat) returns (s: set<nat>)
    requires Owned(blocks, sb, ino) && j < |ino| && WellFormed(ino[j]) && lo <= hi <= MAXFILE
    requires forall l :: lo <= l < hi ==> Ref(blocks, ino[j], l) != 0
    ensures |s| == hi - lo && forall x :: x in s <==> InRange(blocks, ino[j], lo, hi, x)
    decreases hi
  {
    if lo == hi {
      return {};
    }
    var r := SlotSet(blocks, sb, ino, j, lo, hi - 1);
    var y := Ref(blocks, ino[j], hi - 1);
    OwnSlot(blocks, sb, ino, j, lo, hi - 1, hi - 1);
    s := r + {y};
    forall x ensures x in s <==> InRange(blocks, ino[j], lo, hi, x) {
      OneSlotMore(blocks, ino[j], lo, hi, x);
    }
  }

  /** The block of slot k is not in another slot. */
  lemma OwnSlot(blocks: seq<Block>, sb: Superblock, ino: seq<Dinode>, j: nat, lo: nat, hi: nat, k: nat)
    requires Owned(blocks, sb, ino) && j < |ino| && WellFormed(ino[j]) && hi <= MAXFILE && hi <= k <= MAXFILE
    requires Ref(blocks, ino[j], k) != 0
    ensures !InRange(blocks, ino[j], lo, hi, Ref(blocks, ino[j], k))
  {
  }

  lemma OneSlotMore(blocks: seq<Block>, d: Dinode, lo: nat, hi: nat, x: nat)
    requires WellFormed(d) && lo < hi <= MAXFILE
    ensures InRange(blocks, d, lo, hi, x) <==> InRange(blocks, d, lo, hi - 1, x) || x == Ref(blocks, d, hi - 1)
  {
  }

  lemma CountFor(b0: seq<Block>, i0: seq<Dinode>, b: seq<Block>, sb: Superblock, ino: seq<Dinode>, j: nat, lo: nat,
                 hi: nat) returns (s: set<nat>)
    requires j < |i0| == |ino| && WellFormed(i0[j]) && WellFormed(ino[j]) && lo <= hi <= MAXFILE && Owned(b, sb, ino)
    requires forall l :: lo <= l < hi ==> Ref(b, ino[j], l) != 0
    ensures SectorsFor(b0, i0, b, ino, j, lo, hi, s) && |s| == InodeCost(b0, i0[j], lo, hi)
  {
    s := SlotSet(b, sb, ino, j, lo, hi);
    if MissingListed(b0, i0[j], lo, hi) {
      var ind := Ref(b, ino[j], MAXFILE);
      assert ind != 0 by {
        var l :| lo <= l < hi && NDIRECT <= l && Ref(b0, i0[j], l) == 0;
        assert Ref(b, ino[j], l) != 0;
      }
      OwnSlot(b, sb, ino, j, lo, hi, MAXFILE);
      s := s + {ind};
    }
  }

  /** x is one of the sectors that writing the slots lo..hi takes for inode j. */
  predicate SectorOf(b0: seq<Block>, i0: seq<Dinode>, b: seq<Block>, ino: seq<Dinode>, j: nat, lo: nat, hi: nat,
                     x: nat) {
    && j < |i0| == |ino| && WellFormed(i0[j]) && WellFormed(ino[j]) && lo <= hi <= MAXFILE
    && (InRange(b, ino[j], lo, hi, x) || (MissingListed(b0, i0[j], lo, hi) && x == Ref(b, ino[j], MAXFILE)))
  }

  /** The state after a write to the slots lo..hi of inode i and its dittos: all of them are there now. */
  predicate GroupWritten(i0: seq<Dinode>, b: seq<Block>, ino: seq<Dinode>, sb: Superblock, i: nat, lo: nat, hi: nat) {
    && WriteGroup(i0, i) && |ino| == |i0| && Owned(b, sb, ino) && lo <= hi <= MAXFILE
    && forall j :: j in {i} + Children(i0[i]) ==> WellFormed(ino[j]) && AllThere(b, ino[j], lo, hi)
  }

  predicate AllThere(blocks: seq<Block>, d: Dinode, lo: nat, hi: nat)
    requires WellFormed(d) && hi <= MAXFILE
  {
    forall l :: lo <= l < hi ==> Ref(blocks, d, l) != 0
  }

  /** s are the sectors of the inodes js. */
  ghost predicate SectorsOfAll(b0: seq<Block>, i0: seq<Dinode>, b: seq<Block>, ino: seq<Dinode>, js: set<nat>, lo: nat,
                               hi: nat, s: set<nat>) {
    forall x :: x in s <==> SectorOfOne(b0, i0, b, ino, js, lo, hi, x)
  }

  predicate SectorOfOne(b0: seq<Block>, i0: seq<Dinode>, b: seq<Block>, ino: seq<Dinode>, js: set<nat>, lo: nat,
                        hi: nat, x: nat) {
    exists j :: j in js && SectorOf(b0, i0, b, ino, j, lo, hi, x)
  }

  lemma MemberCount(b0: seq<Block>, i0: seq<Dinode>, b: seq<Block>, ino: seq<Dinode>, sb: Superblock, i: nat, j: nat,
                    lo: nat, hi: nat) returns (s: set<nat>)
    requires GroupWritten(i0, b, ino, sb, i, lo, hi) && j in {i} + Children(i0[i])
    ensures j < |i0| && WellFormed(i0[j]) && |s| == InodeCost(b0, i0[j], lo, hi)
    ensures SectorsOfAll(b0, i0, b, ino, {j}, lo, hi, s)
  {
    assert AllThere(b, ino[j], lo, hi);
    s := CountFor(b0, i0, b, sb, ino, j, lo, hi);
    forall x ensures x in s <==> SectorOfOne(b0, i0, b, ino, {j}, lo, hi, x) {
      assert SectorOfOne(b0, i0, b, ino, {j}, lo, hi, x) <==> SectorOf(b0, i0, b, ino, j, lo, hi, x);
    }
  }

  /** The sectors of a ditto, if there is one. */
  lemma DittoCount(b0: seq<Block>, i0: seq<Dinode>, b: seq<Block>, ino: seq<Dinode>, sb: Superblock, i: nat, c: nat,
                   lo: nat, hi: nat) returns (s: set<nat>)
    requires GroupWritten(i0, b, ino, sb, i, lo, hi) && (c != 0 ==> c in Children(i0[i]))
    ensures (c != 0 ==> c < |i0| && WellFormed(i0[c])) && |s| == DittoCost(b0, i0, c, lo, hi)
    ensures SectorsOfAll(b0, i0, b, ino, if c != 0 then {c} else {}, lo, hi, s)
  {
    if c == 0 {
      s := {};
    } else {
      s := MemberCount(b0, i0, b, ino, sb, i, c, lo, hi);
    }
  }

  /** A sector is one of one inode only. */
  lemma SectorOwner(b0: seq<Block>, i0: seq<Dinode>, b: seq<Block>, ino: seq<Dinode>, sb: Superblock, i: nat, j: nat,
                    k: nat, lo: nat, hi: nat, x: nat)
    requires GroupWritten(i0, b, ino, sb, i, lo, hi) && j in {i} + Children(i0[i]) && k in {i} + Children(i0[i])
    requires SectorOf(b0, i0, b, ino, j, lo, hi, x) && SectorOf(b0, i0, b, ino, k, lo, hi, x)
    ensures j == k
  {
    var l := Somewhere(b0, i0, b, ino, sb, i, j, lo, hi, x);
    var m := Somewhere(b0, i0, b, ino, sb, i, k, lo, hi, x);
  }

  /** Where it is: in a slot that is there. */
  lemma Somewhere(b0: seq<Block>, i0: seq<Dinode>, b: seq<Block>, ino: seq<Dinode>, sb: Superblock, i: nat, j: nat,
                  lo: nat, hi: nat, x: nat) returns (l: nat)
    requires GroupWritten(i0, b, ino, sb, i, lo, hi) && j in {i} + Children(i0[i])
    requires SectorOf(b0, i0, b, ino, j, lo, hi, x)
    ensures l <= MAXFILE && j < |ino| && WellFormed(ino[j]) && Ref(b, ino[j], l) == x != 0 && sb.IsData(x)
  {
    assert AllThere(b, ino[j], lo, hi) && InUse(b, sb, ino[j]);
    if InRange(b, ino[j], lo, hi, x) {
      l :| lo <= l < hi && Ref(b, ino[j], l) == x;
    } else {
      var m :| lo <= m < hi && NDIRECT <= m && Ref(b0, i0[j], m) == 0;
      assert Ref(b, ino[j], m) != 0;
      l := MAXFILE;
    }
  }

  /** Together. */
  lemma Union(b0: seq<Block>, i0: seq<Dinode>, b: seq<Block>, ino: seq<Dinode>, sb: Superblock, i: nat, js: set<nat>,
              ks: set<nat>, lo: nat, hi: nat, s: set<nat>, r: set<nat>)
    requires GroupWritten(i0, b, ino, sb, i, lo, hi) && js + ks <= {i} + Children(i0[i]) && js !! ks
    requires SectorsOfAll(b0, i0, b, ino, js, lo, hi, s) && SectorsOfAll(b0, i0, b, ino, ks, lo, hi, r)
    ensures SectorsOfAll(b0, i0, b, ino, js + ks, lo, hi, s + r) && |s + r| == |s| + |r|
  {
    forall x | x in s ensures x !in r {
      assert SectorOfOne(b0, i0, b, ino, js, lo, hi, x);
      if x in r {
        assert SectorOfOne(b0, i0, b, ino, ks, lo, hi, x);
        var j :| j in js && SectorOf(b0, i0, b, ino, j, lo, hi, x);
        var k :| k in ks && SectorOf(b0, i0, b, ino, k, lo, hi, x);
        SectorOwner(b0, i0, b, ino, sb, i, j, k, lo, hi, x);
      }
    }
    assert s !! r;
    forall x ensures x in s + r <==> SectorOfOne(b0, i0, b, ino, js + ks, lo, hi, x) {
    }
  }

  /** The data area sectors of the whole group. */
  lemma GroupCount(b0: seq<Block>, i0: seq<Dinode>, b: seq<Block>, ino: seq<Dinode>, sb: Superblock, i: nat, lo: nat,
                   hi: nat) returns (s: set<nat>)
    requires GroupWritten(i0, b, ino, sb, i, lo, hi)
    ensures var d := i0[i];
      && (d.child1 != 0 ==> d.child1 < |i0| && WellFormed(i0[d.child1]))
      && (d.child2 != 0 ==> d.child2 < |i0| && WellFormed(i0[d.child2])) && WellFormed(d)
      && |s| == InodeCost(b0, d, lo, hi) + DittoCost(b0, i0, d.child1, lo, hi) + DittoCost(b0, i0, d.child2, lo, hi)
    ensures SectorsOfAll(b0, i0, b, ino, {i} + Children(i0[i]), lo, hi, s)
  {
    var c1, c2 := i0[i].child1, i0[i].child2;
    var js1, js2 := if c1 != 0 then {c1} else {}, if c2 != 0 then {c2} else {};
    assert Children(i0[i]) == js1 + js2 && {i} + js1 + js2 == {i} + (js1 + js2);
    s := MemberCount(b0, i0, b, ino, sb, i, i, lo, hi);
    var s1 := DittoCount(b0, i0, b, ino, sb, i, c1, lo, hi);
    var s2 := DittoCount(b0, i0, b, ino, sb, i, c2, lo, hi);
    Union(b0, i0, b, ino, sb, i, {i}, js1, lo, hi, s, s1);
    Union(b0, i0, b, ino, sb, i, {i} + js1, js2, lo, hi, s + s1, s2);
    s := s + s1 + s2;
  }

  /** What one inode's part of a write logs. */
  lemma TouchesAre(b0: seq<Block>, i0: seq<Dinode>, b: seq<Block>, ino: seq<Dinode>, sb: Superblock, j: nat, lo: nat,
                   hi: nat, x: nat)
    requires j < |i0| == |ino| && WellFormed(i0[j]) && WellFormed(ino[j]) && lo <= hi <= MAXFILE
    ensures Touches(b0, i0[j], b, sb, ino[j], lo, hi, x) <==>
      SectorOf(b0, i0, b, ino, j, lo, hi, x) || (Missing(b0, i0[j], lo, hi) && x == sb.BitmapBlock(0))
  {
    if SectorOf(b0, i0, b, ino, j, lo, hi, x) {
      if InRange(b, ino[j], lo, hi, x) {
        var l :| lo <= l < hi && Ref(b, ino[j], l) == x;
        assert SlotTouches(b0, i0[j], b, sb, ino[j], l, x);
      } else {
        var l :| lo <= l < hi && NDIRECT <= l && Ref(b0, i0[j], l) == 0;
        assert SlotTouches(b0, i0[j], b, sb, ino[j], l, x);
      }
    }
    if Missing(b0, i0[j], lo, hi) && x == sb.BitmapBlock(0) {
      var l :| lo <= l < hi && Ref(b0, i0[j], l) == 0;
      assert SlotTouches(b0, i0[j], b, sb, ino[j], l, x);
    }
  }

  lemma GroupTouches(b0: seq<Block>, i0: seq<Dinode>, b: seq<Block>, ino: seq<Dinode>, sb: Superblock, i: nat, off: nat,
                     n: nat, x: nat)
    requires GroupWritten(i0, b, ino, sb, i, off / BSIZE, SlotEnd(off, n))
    ensures var js, lo, hi := {i} + Children(i0[i]), off / BSIZE, SlotEnd(off, n);
      TouchedByOne(b0, i0, b, ino, sb, js, off, n, x) <==>
        || SectorOfOne(b0, i0, b, ino, js, lo, hi, x)
        || (AnyMissing(b0, i0, i, lo, hi) && x == sb.BitmapBlock(0))
  {
    var js, lo, hi := {i} + Children(i0[i]), off / BSIZE, SlotEnd(off, n);
    forall j | j in js ensures TouchedBy(b0, i0, b, ino, sb, j, off, n, x) <==>
        SectorOf(b0, i0, b, ino, j, lo, hi, x) || (Missing(b0, i0[j], lo, hi) && x == sb.BitmapBlock(0)) {
      TouchesAre(b0, i0, b, ino, sb, j, lo, hi, x);
    }
  }

  // ---- The transaction of a write --------------------------------------------------------------

  lemma EarlierSet(b0: seq<Block>, i0: seq<Dinode>, b: seq<Block>, ino: seq<Dinode>, sb: Superblock, i: nat, off: nat,
                   n: nat, t: Txn, s: set<nat>, bits: set<nat>)
    requires GroupWritten(i0, b, ino, sb, i, off / BSIZE, SlotEnd(off, n)) &&
      WriteLogs({}, t, b0, i0, b, ino, sb, i, off, n)
    requires sb.size < BPB && SectorsOfAll(b0, i0, b, ino, {i} + Children(i0[i]), off / BSIZE, SlotEnd(off, n), s)
    requires bits == if AnyMissing(b0, i0, i, off / BSIZE, SlotEnd(off, n)) then {sb.BitmapBlock(0)} else {}
    ensures t.earlier == s + bits + EarlierRecords(sb, i, i0[i].child1, i0[i].child2)
  {
    forall x ensures x in t.earlier <==> x in s || x in bits || x in EarlierRecords(sb, i, i0[i].child1, i0[i].child2) {
      GroupTouches(b0, i0, b, ino, sb, i, off, n, x);
    }
  }

  lemma GroupInData(b0: seq<Block>, i0: seq<Dinode>, b: seq<Block>, ino: seq<Dinode>, sb: Superblock, i: nat, lo: nat,
                    hi: nat, s: set<nat>)
    requires GroupWritten(i0, b, ino, sb, i, lo, hi)
    requires SectorsOfAll(b0, i0, b, ino, {i} + Children(i0[i]), lo, hi, s)
    ensures forall x :: x in s ==> sb.DataStart() <= x
  {
    forall x | x in s ensures sb.DataStart() <= x {
      assert SectorOfOne(b0, i0, b, ino, {i} + Children(i0[i]), lo, hi, x);
      var j :| j in {i} + Children(i0[i]) && SectorOf(b0, i0, b, ino, j, lo, hi, x);
      var l := Somewhere(b0, i0, b, ino, sb, i, j, lo, hi, x);
    }
  }

  lemma ThreeParts(s: set<nat>, bits: set<nat>, records: set<nat>, m: nat, p: nat)
    requires (forall x :: x in s ==> p <= x) && (forall x :: x in bits ==> x == m) && m < p
    requires forall x :: x in records ==> x < m
    ensures |s + bits + records| == |s| + |bits| + |records|
  {
    assert s !! bits && s + bits !! records;
  }

  lemma EarlierCount(b0: seq<Block>, i0: seq<Dinode>, b: seq<Block>, ino: seq<Dinode>, sb: Superblock, i: nat, off: nat,
                     n: nat, t: Txn)
    requires GroupWritten(i0, b, ino, sb, i, off / BSIZE, SlotEnd(off, n)) &&
      WriteLogs({}, t, b0, i0, b, ino, sb, i, off, n)
    requires sb.size < BPB && |i0| <= sb.ninodes
    ensures |t.earlier| == LogSectors(b0, i0, sb, i, off / BSIZE, SlotEnd(off, n))
  {
    var lo, hi := off / BSIZE, SlotEnd(off, n);
    var s := GroupCount(b0, i0, b, ino, sb, i, lo, hi);
    var bits := if AnyMissing(b0, i0, i, lo, hi) then {sb.BitmapBlock(0)} else {};
    EarlierSet(b0, i0, b, ino, sb, i, off, n, t, s, bits);
    GroupInData(b0, i0, b, ino, sb, i, lo, hi, s);
    RecordsBelow(i0, sb, i);
    ThreeParts(s, bits, EarlierRecords(sb, i, i0[i].child1, i0[i].child2), sb.BitmapBlock(0), sb.DataStart());
  }

  /** The inode blocks come before the bitmap, and that before the data. */
  lemma RecordsBelow(ino: seq<Dinode>, sb: Superblock, i: nat)
    requires WriteGroup(ino, i) && |ino| <= sb.ninodes
    ensures forall x :: x in EarlierRecords(sb, i, ino[i].child1, ino[i].child2) ==>
      x < sb.BitmapBlock(0) < sb.DataStart()
  {
    var d := ino[i];
    assert d.child1 != 0 ==> d.child1 in {i} + Children(d);
    assert d.child2 != 0 ==> d.child2 in {i} + Children(d);
    assert i in {i} + Children(d);
  }

  /** After a write everything it wrote to is there. */
  lemma Written(b0: seq<Block>, i0: seq<Dinode>, b: seq<Block>, ino: seq<Dinode>, sb: Superblock, i: nat, off: nat,
                src: seq<byte>)
    requires WriteDone(b0, i0, b, ino, i, off, src) && DittosAgree(i0, i) && Owned(b, sb, ino) && Owned(b0, sb, i0)
    requires off + |src| <= MAXBYTES && forall j :: 0 <= j < |ino| ==> WellFormed(ino[j]) && NoHoles(b, ino[j])
    ensures GroupWritten(i0, b, ino, sb, i, off / BSIZE, SlotEnd(off, |src|))
  {
    OwnedWellFormed(b0, sb, i0);
    var js, lo, hi := {i} + Children(i0[i]), off / BSIZE, SlotEnd(off, |src|);
    assert |Content(b, ino[i])| == ino[i].size;
    forall j | j in js ensures j < |i0| && ino[j].size == ino[i].size {
      assert j != i ==> j in Children(i0[i]);
    }
    forall j | j in js ensures WellFormed(ino[j]) && AllThere(b, ino[j], lo, hi) {
      SlotsBelow(off, |src|, ino[j].size);
      assert NoHoles(b, ino[j]);
    }
  }

  lemma SlotsBelow(off: nat, n: nat, size: nat)
    requires off + n <= size <= MAXBYTES
    ensures SlotEnd(off, n) <= MAXFILE && off / BSIZE <= SlotEnd(off, n)
    ensures forall l :: 0 <= l < SlotEnd(off, n) && off / BSIZE <= l && n > 0 ==> l * BSIZE < size
  {
  }

  /** The log the superblock describes. */
  function LogOf(sb: Superblock): LogTheory.Geometry
    requires sb.nlog <= sb.size
  {
    LogTheory.Geometry(sb.LogStart(), sb.nlog)
  }

  /**
   What the transaction of a write of n bytes at off to inode i takes. It passes the test of log_write at every step if
   and only if the sectors in the log before the last one are fewer than the log holds, and those can be told before.
   */
  predicate FitsExactly(ops: Ops, b0: seq<Block>, i0: seq<Dinode>, sb: Superblock, i: nat, off: nat, n: nat) {
    sb.size < BPB ==>
      && sb.nlog <= sb.size && WriteGroup(i0, i) && off / BSIZE <= SlotEnd(off, n) <= MAXFILE
      && var m := LogSectors(b0, i0, sb, i, off / BSIZE, SlotEnd(off, n));
      (LogTheory.Passes(LogOf(sb), ops) <==> m < LogOf(sb).Capacity()) && AtMost(ops, m + 1)
  }

  lemma WriteFits(base: seq<Block>, t: Txn, b0: seq<Block>, i0: seq<Dinode>, b: seq<Block>, ino: seq<Dinode>,
                  sb: Superblock, i: nat, off: nat, src: seq<byte>)
    requires Consistent(base, t) && sb.nlog <= sb.size && |i0| <= sb.ninodes
    requires WriteDone(b0, i0, b, ino, i, off, src) && DittosAgree(i0, i) && Owned(b, sb, ino) && Owned(b0, sb, i0)
    requires off + |src| <= MAXBYTES && forall j :: 0 <= j < |ino| ==> WellFormed(ino[j]) && NoHoles(b, ino[j])
    requires WriteLogs({}, t, b0, i0, b, ino, sb, i, off, |src|)
    ensures FitsExactly(t.ops, b0, i0, sb, i, off, |src|)
  {
    if sb.size < BPB {
      Written(b0, i0, b, ino, sb, i, off, src);
      EarlierCount(b0, i0, b, ino, sb, i, off, |src|, t);
      PassesLast(base, t, LogOf(sb));
      assert t.logged == t.earlier + {t.ops[|t.ops| - 1].sector};
      CountSectors(base, t, |t.earlier| + 1);
    }
  }

  // ---- How many blocks fit ---------------------------------------------------------------------

  function Dittos(d: Dinode): nat {
    (if d.child1 != 0 then 1 else 0) + if d.child2 != 0 then 1 else 0
  }

  /** n for the inode and n for each ditto. */
  function Copies(d: Dinode, n: nat): nat {
    n + (if d.child1 != 0 then n else 0) + if d.child2 != 0 then n else 0
  }

  /** n blocks take n sectors for each inode besides those of the records; at most one more for each inode and one for
      the bitmap if blocks are missing, and none if they are not. */
  lemma CostBounds(blocks: seq<Block>, ino: seq<Dinode>, sb: Superblock, i: nat, lo: nat, hi: nat)
    requires WriteGroup(ino, i) && lo <= hi <= MAXFILE
    ensures var d := ino[i];
      var m, c, r := LogSectors(blocks, ino, sb, i, lo, hi), Copies(d, hi - lo),
                 |EarlierRecords(sb, i, d.child1, d.child2)|;
      && c + r <= m <= c + r + Copies(d, 1) + 1 && (!AnyMissing(blocks, ino, i, lo, hi) ==> m == c + r)
      && (r == 0 <==> Dittos(d) == 0) && r <= Dittos(d)
  {
    RecordCount(sb, i, ino[i]);
    NoneListed(blocks, ino, i, lo, hi);
  }

  lemma NoneListed(blocks: seq<Block>, ino: seq<Dinode>, i: nat, lo: nat, hi: nat)
    requires WriteGroup(ino, i) && lo <= hi <= MAXFILE
    ensures var d := ino[i];
      && WellFormed(d) && (d.child1 != 0 ==> d.child1 < |ino| && WellFormed(ino[d.child1]))
      && (d.child2 != 0 ==> d.child2 < |ino| && WellFormed(ino[d.child2]))
      && (!AnyMissing(blocks, ino, i, lo, hi) ==>
            && InodeCost(blocks, d, lo, hi) == hi - lo
            && (d.child1 != 0 ==> DittoCost(blocks, ino, d.child1, lo, hi) == hi - lo)
            && (d.child2 != 0 ==> DittoCost(blocks, ino, d.child2, lo, hi) == hi - lo))
  {
    var d := ino[i];
    assert d.child1 != 0 ==> d.child1 in {i} + Children(d);
    assert d.child2 != 0 ==> d.child2 in {i} + Children(d);
    assert i in {i} + Children(d);
    if !AnyMissing(blocks, ino, i, lo, hi) {
      forall j | j in {i} + Children(d) ensures !MissingListed(blocks, ino[j], lo, hi) {
        assert !Missing(blocks, ino[j], lo, hi);
      }
    }
  }

  lemma RecordCount(sb: Superblock, i: nat, d: Dinode)
    ensures var r := |EarlierRecords(sb, i, d.child1, d.child2)|;
      (r == 0 <==> Dittos(d) == 0) && r <= Dittos(d)
  {
    var a, b := {sb.InodeBlock(i)}, {sb.InodeBlock(d.child1)};
    assert |a + b| <= 2 && sb.InodeBlock(i) in a + b;
  }

  /** Without dittos: a sector for each block, three at most besides. */
  lemma AloneFits(ops: Ops, b0: seq<Block>, i0: seq<Dinode>, sb: Superblock, i: nat, off: nat, n: nat)
    requires FitsExactly(ops, b0, i0, sb, i, off, n) && sb.size < BPB && Children(i0[i]) == {}
    ensures AtMost(ops, (n + 2 * (BSIZE - 1)) / BSIZE + 3)
  {
    var d := i0[i];
    assert d.child1 != 0 ==> d.child1 in Children(d);
    assert d.child2 != 0 ==> d.child2 in Children(d);
    CostBounds(b0, i0, sb, i, off / BSIZE, SlotEnd(off, n));
    assert SlotEnd(off, n) - off / BSIZE <= (n + 2 * (BSIZE - 1)) / BSIZE;
  }

  /**
   With mkfs's log of 20 sectors, a write of n blocks passes always without dittos, up to the 9 blocks of a chunk; with
   one ditto, always up to 7 and never from 9 on; with two, always up to 4 and never from 6 on. A write over blocks that
   are there passes if and only if n is at most 8 with one ditto, and at most 5 with two.
   */
  lemma HowManyFit(blocks: seq<Block>, ino: seq<Dinode>, sb: Superblock, i: nat, lo: nat, hi: nat)
    requires WriteGroup(ino, i) && lo <= hi <= MAXFILE && sb.nlog == 20 <= sb.size
    ensures var n, fits := hi - lo, LogSectors(blocks, ino, sb, i, lo, hi) < LogOf(sb).Capacity();
      match Dittos(ino[i])
      case 0 => n <= 9 ==> fits
      case 1 =>
        && (n <= 7 ==> fits) && (n >= 9 ==> !fits)
        && (!AnyMissing(blocks, ino, i, lo, hi) ==> (fits <==> n <= 8))
      case _ =>
        && (n <= 4 ==> fits) && (n >= 6 ==> !fits)
        && (!AnyMissing(blocks, ino, i, lo, hi) ==> (fits <==> n <= 5))
  {
    CostBounds(blocks, ino, sb, i, lo, hi);
  }
}
