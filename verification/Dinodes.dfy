/** Dinodes in their blocks (fs.h:29-44): eight records of 64 bytes in every inode block. */
module Dinodes {
  import opened Blocks
  import opened Bytes
  import opened Checksum

  const DINODE: nat := 64            // sizeof(struct dinode)

  // ---- A dinode as bytes ---------------------------------------------------------

  function ShortOf(w: seq<byte>): nat
    requires |w| == 2
  {
    Value(w[0]) + 0x100 * Value(w[1])
  }

  function KindOf(n: nat): Kind {
    if n == 1 then Dir else if n == 2 then File else if n == 3 then Dev else if n == 4 then Ditto else Free
  }

  /** type, major, minor, nlink, size, addrs, child1, child2, checksum; the device numbers are not read. */
  function DinodeOf(w: seq<byte>): Dinode
    requires |w| == DINODE
  {
    Dinode(
      KindOf(ShortOf(w[0..2])), ShortOf(w[6..8]), UintOf(w[8..12]), AddrsOf(w[12..56]),
      ShortOf(w[56..58]), ShortOf(w[58..60]), ChecksumIn(w[60..64]))
  }

  function AddrsOf(w: seq<byte>): (a: seq<nat>)
    requires |w| == 4 * (NDIRECT + 1)
    ensures |a| == NDIRECT + 1
  {
    seq(NDIRECT + 1, k requires 0 <= k <= NDIRECT => UintOf(w[4 * k .. 4 * k + 4]))
  }

  function ChecksumIn(w: seq<byte>): bv32
    requires |w| == 4
  {
    Word32(w[0], w[1], w[2], w[3])
  }

  /** What a record keeps of a dinode: the link count and the children are shorts. */
  function Kept(d: Dinode): Dinode {
    d.(nlink := d.nlink % 0x10000, child1 := d.child1 % 0x10000, child2 := d.child2 % 0x10000)
  }

  lemma ShortEncoding(n: nat) returns (w: seq<byte>)
    ensures |w| == 2 && ShortOf(w) == n % 0x10000
  {
    w := [Byte(n % 0x100), Byte(n / 0x100 % 0x100)];
    assert n % 0x10000 == n % 0x100 + 0x100 * (n / 0x100 % 0x100);
  }

  lemma UintEncoding(n: nat) returns (w: seq<byte>)
    requires n < UINT_LIMIT
    ensures |w| == 4 && UintOf(w) == n
  {
    w := BytesOf(n);
  }

  lemma ChecksumEncoding(c: bv32) returns (w: seq<byte>)
    ensures |w| == 4 && ChecksumIn(w) == c
  {
    w := [(c & 0xFF) as byte, ((c >> 8) & 0xFF) as byte, ((c >> 16) & 0xFF) as byte, ((c >> 24) & 0xFF) as byte];
  }

  lemma {:induction false} AddrEncoding(addrs: seq<nat>, n: nat) returns (w: seq<byte>)
    requires n <= |addrs| && forall k :: 0 <= k < n ==> addrs[k] < UINT_LIMIT
    ensures |w| == 4 * n && forall k :: 0 <= k < n ==> UintOf(w[4 * k .. 4 * k + 4]) == addrs[k]
  {
    w := [];
    if n > 0 {
      var init := AddrEncoding(addrs, n - 1);
      var last := UintEncoding(addrs[n - 1]);
      w := init + last;
      forall k | 0 <= k < n ensures UintOf(w[4 * k .. 4 * k + 4]) == addrs[k] {
        assert w[4 * k .. 4 * k + 4] == if k < n - 1 then init[4 * k .. 4 * k + 4] else last;
      }
    }
  }

  /** T_DIR, T_FILE, T_DEV and T_DITTO (stat.h). */
  function TypeOf(kind: Kind): (n: nat)
    ensures n < 5 && KindOf(n) == kind
  {
    match kind
    case Free => 0
    case Dir => 1
    case File => 2
    case Dev => 3
    case Ditto => 4
  }

  lemma SmallShort(n: nat) returns (w: seq<byte>)
    requires n < 5
    ensures |w| == 2 && ShortOf(w) == n
  {
    w := ShortEncoding(n);
  }

  lemma TypeEncoding(kind: Kind) returns (w: seq<byte>)
    ensures |w| == 2 && KindOf(ShortOf(w)) == kind
  {
    w := SmallShort(TypeOf(kind));
  }

  lemma Pieces(a: seq<byte>, z: seq<byte>, b: seq<byte>, c: seq<byte>, e: seq<byte>, f: seq<byte>, g: seq<byte>,
               h: seq<byte>)
    requires |a| == |b| == |f| == |g| == 2 && |z| == |c| == |h| == 4 && |e| == 44
    ensures var w := a + z + b + c + e + f + g + h;
      && |w| == DINODE && w[0..2] == a && w[6..8] == b && w[8..12] == c && w[12..56] == e
      && w[56..58] == f && w[58..60] == g && w[60..64] == h
  {
  }

  /** Every dinode can be stored, and reads back but for what a short cannot hold. */
  lemma Encoding(d: Dinode) returns (w: seq<byte>)
    requires WellFormed(d)
    ensures |w| == DINODE && DinodeOf(w) == Kept(d)
  {
    var a := TypeEncoding(d.kind);
    var b := ShortEncoding(d.nlink);
    var c := UintEncoding(d.size);
    var e := AddrEncoding(d.addrs, NDIRECT + 1);
    var f := ShortEncoding(d.child1);
    var g := ShortEncoding(d.child2);
    var h := ChecksumEncoding(d.checksum);
    Pieces(a, [0, 0, 0, 0], b, c, e, f, g, h);
    w := a + [0, 0, 0, 0] + b + c + e + f + g + h;
    assert AddrsOf(e) == d.addrs;
  }

  // ---- Inode blocks -----------------------------------------------------------------

  predicate HoldsInodes(sb: Superblock, s: nat) {
    2 <= s < sb.BitmapBlock(0)
  }

  /** (struct dinode*)bp->data + inum % IPB */
  function Slot(i: nat): nat {
    DINODE * (i % IPB)
  }

  /** Inode i as the disk has it. */
  function DinodeAt(image: seq<Block>, i: nat): Dinode
    requires i / IPB + 2 < |image|
  {
    DinodeOf(image[i / IPB + 2][Slot(i) .. Slot(i) + DINODE])
  }

  /** The record of inode i on the disk is that of d. */
  predicate RecordIs(image: seq<Block>, i: nat, d: Dinode) {
    i / IPB + 2 < |image| && DinodeAt(image, i) == Kept(d)
  }

  /** Storing one record changes that record. */
  lemma StoreDinode(image: seq<Block>, i: nat, w: seq<byte>, d: Dinode, j: nat, e: Dinode)
    requires i / IPB + 2 < |image| && |w| == DINODE && DinodeOf(w) == Kept(d) && (j == i || RecordIs(image, j, e))
    ensures var s := i / IPB + 2;
      RecordIs(image[s := Splice(image[s], Slot(i), w)], j, if j == i then d else e)
  {
    var s := i / IPB + 2;
    var data := Splice(image[s], Slot(i), w);
    if j == i {
      assert data[Slot(i) .. Slot(i) + DINODE] == w;
    } else if j / IPB == i / IPB {
      OtherSlot(i, j);
      assert data[Slot(j) .. Slot(j) + DINODE] == image[s][Slot(j) .. Slot(j) + DINODE];
    }
  }

  lemma OtherSlot(i: nat, j: nat)
    requires i != j && i / IPB == j / IPB
    ensures Slot(i) + DINODE <= Slot(j) || Slot(j) + DINODE <= Slot(i)
  {
    assert i % IPB != j % IPB;
  }

  /** The file of inode i, read from the sectors of a disk. */
  function FileOnDisk(image: seq<Block>, i: nat): seq<byte>
    requires i / IPB + 2 < |image|
  {
    var d := DinodeAt(image, i);
    if WellFormed(d) then Content(image, d) else []
  }

  /** What the home sectors hold is what the file system has in memory, if that has been written out. */
  lemma OnDisk(home: seq<Block>, blocks: seq<Block>, sb: Superblock, i: nat, d: Dinode)
    requires InUse(blocks, sb, d) && |home| == sb.LogStart() && RecordIs(home, i, d)
    requires forall b: nat :: sb.IsData(b) ==> home[b] == blocks[b]
    ensures FileOnDisk(home, i) == Content(blocks, d)
  {
    var e := DinodeAt(home, i);
    assert e.addrs == d.addrs && e.size == d.size;
    forall k | 0 <= k <= MAXFILE ensures Ref(home, e, k) == Ref(blocks, d, k) {
      assert Ref(blocks, d, MAXFILE) == d.addrs[NDIRECT];
    }
    forall o | 0 <= o < MAXBYTES ensures ByteAt(home, e, o) == ByteAt(blocks, d, o) {
      assert Ref(home, e, o / BSIZE) == Ref(blocks, d, o / BSIZE);
    }
    assert Data(home, e) == Data(blocks, d);
  }
}
