/**
 What the file system has written so far: the log_writes of the open transaction, the disk they lead to once they
 are installed, and the transactions committed before.
 */
module Transactions {
  import opened Bitmap
  import opened Blocks
  import opened Bytes
  import opened Dinodes
  import LogTheory

  type Ops = seq<LogTheory.LoggedWrite>

  /** The open transaction: its log_writes, their sectors, those of all but the last, and the disk after them. */
  datatype Txn = Txn(ops: Ops, logged: set<nat>, earlier: set<nat>, image: seq<Block>)

  predicate Within(ops: Ops, n: nat) {
    forall j :: 0 <= j < |ops| ==> ops[j].sector < n
  }

  /** The log_writes lead from base to image. */
  predicate Replays(base: seq<Block>, ops: Ops, image: seq<Block>) {
    Within(ops, |base|) && image == LogTheory.Overlay(base, ops)
  }

  /** The sectors of some log_writes. */
  function SectorSet(ops: Ops): set<nat> {
    if ops == [] then {} else SectorSet(ops[..|ops| - 1]) + {ops[|ops| - 1].sector}
  }

  predicate Consistent(base: seq<Block>, t: Txn) {
    && Replays(base, t.ops, t.image) && t.logged == SectorSet(t.ops)
    && t.earlier == if t.ops == [] then {} else SectorSet(t.ops[..|t.ops| - 1])
  }

  function Put(t: Txn, s: nat, data: Block): Txn
    requires s < |t.image|
  {
    Txn(t.ops + [LogTheory.LoggedWrite(s, data)], t.logged + {s}, t.logged, t.image[s := data])
  }

  lemma PutConsistent(base: seq<Block>, t: Txn, s: nat, data: Block)
    requires Consistent(base, t) && s < |t.image|
    ensures Consistent(base, Put(t, s, data))
  {
    var ops := Put(t, s, data).ops;
    assert ops[..|ops| - 1] == t.ops;
  }

  predicate SameSector(image: seq<Block>, blocks: seq<Block>, s: nat) {
    s < |image| && s < |blocks| && image[s] == blocks[s]
  }

  /** image and blocks are the same but for the inode blocks. */
  predicate Reflects(image: seq<Block>, blocks: seq<Block>, sb: Superblock) {
    |image| == |blocks| && forall s {:trigger SameSector(image, blocks, s)} ::
      0 <= s < |blocks| && !HoldsInodes(sb, s) ==> SameSector(image, blocks, s)
  }

  lemma PutReflects(t: Txn, blocks: seq<Block>, sb: Superblock, s: nat, data: Block)
    requires Reflects(t.image, blocks, sb) && s < |blocks|
    ensures Reflects(Put(t, s, data).image, blocks[s := data], sb)
  {
    forall r | 0 <= r < |blocks| && !HoldsInodes(sb, r) ensures SameSector(Put(t, s, data).image, blocks[s := data],
        r) {
      assert SameSector(t.image, blocks, r);
    }
  }

  /** The inode blocks hold the dinodes, and the transaction stays below the log area. */
  predicate OnRecord(t: Txn, disk: seq<Dinode>, sb: Superblock) {
    sb.nlog <= sb.size && |disk| <= sb.ninodes && Within(t.ops, sb.LogStart()) && AllRecords(t.image, disk)
  }

  predicate AllRecords(image: seq<Block>, disk: seq<Dinode>) {
    forall i {:trigger RecordIs(image, i, disk[i])} :: 0 <= i < |disk| ==> RecordIs(image, i, disk[i])
  }

  lemma PutRecorded(t: Txn, disk: seq<Dinode>, sb: Superblock, s: nat, data: Block)
    requires OnRecord(t, disk, sb) && s < |t.image| && s < sb.LogStart() && !HoldsInodes(sb, s)
    ensures OnRecord(Put(t, s, data), disk, sb)
  {
    forall i | 0 <= i < |disk| ensures RecordIs(Put(t, s, data).image, i, disk[i]) {
      assert RecordIs(t.image, i, disk[i]);
      assert i / IPB <= sb.ninodes / IPB;
    }
  }

  lemma StoreRecord(image: seq<Block>, disk: seq<Dinode>, i: nat, d: Dinode, w: seq<byte>, j: nat)
    requires i < |disk| && j < |disk| && RecordIs(image, j, disk[j])
    requires i / IPB + 2 < |image| && |w| == DINODE && DinodeOf(w) == Kept(d)
    ensures RecordIs(image[i / IPB + 2 := Splice(image[i / IPB + 2], Slot(i), w)], j, disk[i := d][j])
  {
    StoreDinode(image, i, w, d, j, disk[j]);
  }

  lemma StoreAll(image: seq<Block>, disk: seq<Dinode>, i: nat, d: Dinode, w: seq<byte>, s: nat, data: Block)
    requires AllRecords(image, disk) && i < |disk| && s == i / IPB + 2 < |image| && |w| == DINODE &&
      DinodeOf(w) == Kept(d)
    requires data == Splice(image[s], Slot(i), w)
    ensures AllRecords(image[s := data], disk[i := d])
  {
    var image', disk' := image[s := data], disk[i := d];
    forall j | 0 <= j < |disk'| ensures RecordIs(image', j, disk'[j]) {
      StoreRecord(image, disk, i, d, w, j);
    }
  }

  /** A dinode is stored into its block. */
  lemma PutDinode(t: Txn, disk: seq<Dinode>, sb: Superblock, i: nat, d: Dinode, w: seq<byte>)
    requires OnRecord(t, disk, sb) && i < |disk| && |w| == DINODE && DinodeOf(w) == Kept(d)
    requires sb.InodeBlock(i) < |t.image| && sb.InodeBlock(i) < sb.LogStart()
    ensures OnRecord(Put(t, sb.InodeBlock(i), Splice(t.image[sb.InodeBlock(i)], Slot(i), w)), disk[i := d], sb)
  {
    var s := sb.InodeBlock(i);
    StoreAll(t.image, disk, i, d, w, s, Splice(t.image[s], Slot(i), w));
  }

  lemma PutDinodeReflects(t: Txn, blocks: seq<Block>, sb: Superblock, s: nat, data: Block)
    requires Reflects(t.image, blocks, sb) && s < |blocks| && HoldsInodes(sb, s)
    ensures Reflects(Put(t, s, data).image, blocks, sb)
  {
    forall r | 0 <= r < |blocks| && !HoldsInodes(sb, r) ensures SameSector(Put(t, s, data).image, blocks, r) {
      assert SameSector(t.image, blocks, r);
    }
  }

  // ---- What a commit leaves on the disk ------------------------------------------------------

  /** The sectors below the log area. */
  function Home(image: seq<Block>, sb: Superblock): seq<Block>
    requires sb.nlog <= sb.size == |image|
  {
    image[..sb.LogStart()]
  }

  lemma {:induction false} OverlayBelow(base: seq<Block>, ops: Ops, limit: nat)
    requires limit <= |base| && Within(ops, limit)
    ensures Within(ops, |base|) && LogTheory.Overlay(base, ops)[..limit] == LogTheory.Overlay(base[..limit], ops)
    decreases |ops|
  {
    if ops != [] {
      OverlayBelow(base, ops[..|ops| - 1], limit);
    }
  }

  /** The same transaction, seen from the home sectors. */
  lemma ReplaysBelow(base: seq<Block>, ops: Ops, image: seq<Block>, limit: nat)
    requires limit <= |base| && Within(ops, limit) && Replays(base, ops, image)
    ensures Replays(base[..limit], ops, image[..limit])
  {
    OverlayBelow(base, ops, limit);
  }

  /** An inode whose record has been written out is on the disk as it is in memory. */
  lemma FileCommitted(t: Txn, blocks: seq<Block>, disk: seq<Dinode>, sb: Superblock, i: nat)
    requires sb.Sane() && |blocks| == sb.size && Reflects(t.image, blocks, sb) && OnRecord(t, disk, sb)
    requires i < |disk| && InUse(blocks, sb, disk[i])
    ensures i / IPB + 2 < sb.LogStart() && FileOnDisk(Home(t.image, sb), i) == Content(blocks, disk[i])
  {
    var home := Home(t.image, sb);
    assert i / IPB <= sb.ninodes / IPB;
    assert RecordIs(t.image, i, disk[i]);
    assert home[i / IPB + 2] == t.image[i / IPB + 2];
    forall b: nat | sb.IsData(b) ensures home[b] == blocks[b] {
      assert SameSector(t.image, blocks, b);
    }
    OnDisk(home, blocks, sb, i, disk[i]);
  }

  // ---- Transactions in a row -------------------------------------------------------------

  predicate AllWithin(trans: seq<Ops>, n: nat) {
    forall k :: 0 <= k < |trans| ==> Within(trans[k], n)
  }

  /** The disk after some transactions. */
  function OverlayAll(home: seq<Block>, trans: seq<Ops>): (r: seq<Block>)
    requires AllWithin(trans, |home|)
    ensures |r| == |home|
  {
    if trans == [] then home
    else LogTheory.Overlay(OverlayAll(home, trans[..|trans| - 1]), trans[|trans| - 1])
  }

  /** Transactions below the log area lead from one disk to another. */
  predicate Run(base: seq<Block>, trans: seq<Ops>, base': seq<Block>, limit: nat) {
    limit <= |base| && AllWithin(trans, limit) && base' == OverlayAll(base, trans)
  }

  lemma RunMore(base: seq<Block>, trans: seq<Ops>, base1: seq<Block>, ops: Ops, base2: seq<Block>, limit: nat)
    requires Run(base, trans, base1, limit) && Within(ops, limit) && Replays(base1, ops, base2)
    ensures Run(base, trans + [ops], base2, limit)
  {
    assert (trans + [ops])[..|trans|] == trans;
  }

  /** What has been committed since: the new transactions lead from the disk there was to the disk there is. */
  predicate Since(past: seq<Ops>, base: seq<Block>, past': seq<Ops>, base': seq<Block>, limit: nat) {
    |past| <= |past'| && past'[..|past|] == past && Run(base, past'[|past|..], base', limit)
  }

  lemma SinceNothing(past: seq<Ops>, base: seq<Block>, limit: nat)
    requires limit <= |base|
    ensures Since(past, base, past, base, limit)
  {
    assert past[|past|..] == [];
  }

  lemma SinceMore(past: seq<Ops>, base: seq<Block>, past1: seq<Ops>, base1: seq<Block>, ops: Ops, base2: seq<Block>,
                  limit: nat)
    requires Since(past, base, past1, base1, limit) && Within(ops, limit) && Replays(base1, ops, base2)
    ensures Since(past, base, past1 + [ops], base2, limit) && (past1 + [ops])[|past|..] == past1[|past|..] + [ops]
  {
    RunMore(base, past1[|past|..], base1, ops, base2, limit);
    assert (past1 + [ops])[|past|..] == past1[|past|..] + [ops];
    assert (past1 + [ops])[..|past|] == past1[..|past|];
  }

  // ---- The size of a transaction ---------------------------------------------------------

  /** The header lists them, each once. */
  lemma {:induction false} LoggedOnce(ops: Ops)
    ensures LogTheory.Distinct(LogTheory.SectorsOf(ops))
    ensures forall s :: s in LogTheory.SectorsOf(ops) <==> s in SectorSet(ops)
    ensures |LogTheory.SectorsOf(ops)| == |SectorSet(ops)|
  {
    if ops != [] {
      LoggedOnce(ops[..|ops| - 1]);
    }
    DistinctCount(LogTheory.SectorsOf(ops), SectorSet(ops));
  }

  lemma {:induction false} SetWithin(ops: Ops, n: nat)
    requires Within(ops, n)
    ensures forall s :: s in SectorSet(ops) ==> s < n
  {
    if ops != [] {
      SetWithin(ops[..|ops| - 1], n);
    }
  }

  /** A list without repetitions is as long as the set of its members. */
  lemma {:induction false} DistinctCount(secs: seq<nat>, sectors: set<nat>)
    requires LogTheory.Distinct(secs) && forall s :: s in secs <==> s in sectors
    ensures |secs| == |sectors|
  {
    if secs == [] {
      assert sectors == {};
    } else {
      var init, last := secs[..|secs| - 1], secs[|secs| - 1];
      assert secs == init + [last];
      DistinctCount(init, sectors - {last});
    }
  }

  /** The transaction logs at most n sectors. */
  predicate AtMost(ops: Ops, n: nat) {
    |LogTheory.SectorsOf(ops)| <= n
  }

  predicate AllAtMost(trans: seq<Ops>, n: nat) {
    forall k :: 0 <= k < |trans| ==> AtMost(trans[k], n)
  }

  lemma CountSectors(base: seq<Block>, t: Txn, n: nat)
    requires Consistent(base, t) && |t.logged| <= n
    ensures AtMost(t.ops, n)
  {
    LoggedOnce(t.ops);
  }

  /** Transactions since: below the log area and, if bounded and with one bitmap block, of at most n sectors each. */
  predicate Committed(past0: seq<Ops>, base0: seq<Block>, past: seq<Ops>, base: seq<Block>, sb: Superblock, n: nat,
                      bounded: bool) {
    && sb.nlog <= sb.size && Since(past0, base0, past, base, sb.LogStart())
    && (bounded && sb.size < BPB ==> AllAtMost(past[|past0|..], n))
  }

  lemma CommittedNothing(past: seq<Ops>, base: seq<Block>, sb: Superblock, n: nat, bounded: bool)
    requires sb.nlog <= sb.size && sb.LogStart() <= |base|
    ensures Committed(past, base, past, base, sb, n, bounded)
  {
    SinceNothing(past, base, sb.LogStart());
  }

  lemma CommittedMore(past0: seq<Ops>, base0: seq<Block>, past: seq<Ops>, base: seq<Block>, t: Txn, disk: seq<Dinode>,
                      sb: Superblock,
                      n: nat, bounded: bool)
    requires Committed(past0, base0, past, base, sb, n, bounded) && Consistent(base, t) && OnRecord(t, disk, sb)
    requires bounded && sb.size < BPB ==> |t.logged| <= n
    ensures Committed(past0, base0, past + [t.ops], t.image, sb, n, bounded)
  {
    SinceMore(past0, base0, past, base, t.ops, t.image, sb.LogStart());
    if bounded && sb.size < BPB {
      CountSectors(base, t, n);
    }
  }

  /** What is logged stays below the log area and fits: log_write never meets "too big a transaction"
      (log.c:170-171). */
  lemma NeverTooBig(g: LogTheory.Geometry, ops: Ops, n: nat, k: nat)
    requires Within(ops, g.start) && AtMost(ops, n) && n < g.Capacity() && k <= |ops|
    ensures LogTheory.Fitting(g, ops) && |LogTheory.SectorsOf(ops[..k])| < g.Capacity()
  {
    LoggedOnce(ops);
    SetWithin(ops, g.start);
    var secs := LogTheory.SectorsOf(ops);
    forall i | 0 <= i < |secs| ensures secs[i] < g.start {
      assert secs[i] in secs;
    }
    FewerBefore(ops, k);
  }

  /** Only the last log_write matters, since the log only fills up. */
  lemma PassesLast(base: seq<Block>, t: Txn, g: LogTheory.Geometry)
    requires Consistent(base, t) && t.ops != []
    ensures LogTheory.Passes(g, t.ops) <==> |t.earlier| < g.Capacity()
  {
    var init := t.ops[..|t.ops| - 1];
    LoggedOnce(init);
    if |t.earlier| < g.Capacity() {
      forall k | 0 <= k < |t.ops| ensures |LogTheory.SectorsOf(t.ops[..k])| < g.Capacity() {
        FewerBefore(init, k);
        assert init[..k] == t.ops[..k];
      }
    }
  }

  /** A transaction that passes fits. */
  lemma PassesFits(g: LogTheory.Geometry, ops: Ops)
    requires Within(ops, g.start) && LogTheory.Passes(g, ops)
    ensures LogTheory.Fitting(g, ops)
  {
    LoggedOnce(ops);
    SetWithin(ops, g.start);
    var secs := LogTheory.SectorsOf(ops);
    forall i | 0 <= i < |secs| ensures secs[i] < g.start {
      assert secs[i] in secs;
    }
    if ops != [] {
      assert |LogTheory.SectorsOf(ops[..|ops| - 1])| < g.Capacity();
    }
  }

  lemma {:induction false} FewerBefore(ops: Ops, k: nat)
    requires k <= |ops|
    ensures |LogTheory.SectorsOf(ops[..k])| <= |LogTheory.SectorsOf(ops)|
  {
    if k < |ops| {
      FewerBefore(ops[..|ops| - 1], k);
      assert ops[..|ops| - 1][..k] == ops[..k];
    } else {
      assert ops[..k] == ops;
    }
  }
}
