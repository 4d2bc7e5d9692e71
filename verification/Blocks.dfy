/**
 Where an inode's blocks are (fs.h, fs.c:587-650): the direct and indirect block
 map, the free bitmap, and who owns which block.
 */
module Blocks {
  import opened Bytes
  import opened Bitmap

  const NDIRECT: nat := 10
  const NINDIRECT: nat := WORDS
  const MAXFILE: nat := NDIRECT + NINDIRECT
  const IPB: nat := 8                // BSIZE / sizeof(struct dinode)

  datatype Superblock = Superblock(size: nat, nblocks: nat, ninodes: nat, nlog: nat) {
    /** IBLOCK(i) */
    function InodeBlock(i: nat): nat {
      i / IPB + 2
    }
    /** BBLOCK(b, ninodes) */
    function BitmapBlock(b: nat): nat {
      b / BPB + ninodes / IPB + 3
    }
    /** The first data block: the boot block, the superblock, the inodes and the bitmap come before (mkfs.c:102-104). */
    function DataStart(): nat {
      ninodes / IPB + 3 + (size / BPB + 1)
    }
    function LogStart(): nat
      requires nlog <= size
    {
      size - nlog
    }
    predicate Sane() {
      nlog <= size < UINT_LIMIT && DataStart() <= LogStart()
    }
    predicate IsData(b: nat) {
      nlog <= size && DataStart() <= b < LogStart()
    }
  }

  datatype Kind = Free | Dir | File | Dev | Ditto

  /** The persistent part of an inode: struct dinode without the device numbers. */
  datatype Dinode = Dinode(
    kind: Kind, nlink: nat, size: nat, addrs: seq<nat>, child1: nat, child2: nat, checksum: bv32)

  predicate WellFormed(d: Dinode) {
    |d.addrs| == NDIRECT + 1 && (forall i :: 0 <= i <= NDIRECT ==> d.addrs[i] < UINT_LIMIT) && d.size <= MAXFILE * BSIZE
  }

  /**
   The block number in slot k of an inode, 0 if there is none: slots below MAXFILE
   are the file's data blocks, slot MAXFILE is the indirect block itself.
   */
  function Ref(blocks: seq<Block>, d: Dinode, k: nat): nat
    requires WellFormed(d) && k <= MAXFILE
  {
    var ind := d.addrs[NDIRECT];
    if k < NDIRECT then d.addrs[k]
    else if k == MAXFILE then ind
    else if ind == 0 || ind >= |blocks| then 0
    else Word(blocks[ind], k - NDIRECT)
  }

  predicate Used(blocks: seq<Block>, sb: Superblock, b: nat)
    requires sb.Sane() && |blocks| == sb.size && b < sb.size
  {
    BitAt(blocks[sb.BitmapBlock(b)], b % BPB)
  }

  /** Everything an inode refers to is a data block whose bitmap bit is set. */
  predicate InUse(blocks: seq<Block>, sb: Superblock, d: Dinode) {
    && sb.Sane() && |blocks| == sb.size && WellFormed(d)
    && forall k :: 0 <= k <= MAXFILE && Ref(blocks, d, k) != 0 ==>
      sb.IsData(Ref(blocks, d, k)) && Used(blocks, sb, Ref(blocks, d, k))
  }

  /** Block ownership: no block is referred to twice, by one inode or by two. */
  predicate Owned(blocks: seq<Block>, sb: Superblock, ino: seq<Dinode>) {
    && (forall i :: 0 <= i < |ino| ==> InUse(blocks, sb, ino[i]))
    && (forall i, j, k, l ::
      (0 <= i < |ino| && 0 <= j < |ino| && 0 <= k <= MAXFILE && 0 <= l <= MAXFILE
       && Ref(blocks, ino[i], k) == Ref(blocks, ino[j], l) != 0) ==> i == j && k == l)
  }

  lemma OwnedWellFormed(blocks: seq<Block>, sb: Superblock, ino: seq<Dinode>)
    requires Owned(blocks, sb, ino)
    ensures forall j :: 0 <= j < |ino| ==> WellFormed(ino[j])
  {
    forall j | 0 <= j < |ino| ensures WellFormed(ino[j]) {
      assert InUse(blocks, sb, ino[j]);
    }
  }

  /** The block is free for the taking: no inode refers to it. */
  predicate Unowned(blocks: seq<Block>, ino: seq<Dinode>, b: nat) {
    forall i, k :: 0 <= i < |ino| && WellFormed(ino[i]) && 0 <= k <= MAXFILE ==> Ref(blocks, ino[i], k) != b
  }

  /** Two stores in which the inode has the same blocks with the same contents. */
  predicate SameFile(blocks: seq<Block>, blocks': seq<Block>, d: Dinode) {
    && WellFormed(d) && |blocks| == |blocks'|
    && forall k :: 0 <= k <= MAXFILE ==>
      && Ref(blocks', d, k) == Ref(blocks, d, k)
      && (0 < Ref(blocks, d, k) < |blocks| ==> blocks'[Ref(blocks, d, k)] == blocks[Ref(blocks, d, k)])
  }

  /** A free block belongs to nobody. */
  lemma FreeIsUnowned(blocks: seq<Block>, sb: Superblock, ino: seq<Dinode>, b: nat)
    requires Owned(blocks, sb, ino) && sb.Sane() && |blocks| == sb.size && 0 < b < sb.size && !Used(blocks, sb, b)
    ensures Unowned(blocks, ino, b)
  {
    forall i, k | 0 <= i < |ino| && 0 <= k <= MAXFILE ensures Ref(blocks, ino[i], k) != b {
      assert InUse(blocks, sb, ino[i]);
    }
  }

  /** Changing a block that the inode does not refer to leaves its file alone. */
  lemma WriteElsewhere(blocks: seq<Block>, d: Dinode, b: nat, data: Block)
    requires WellFormed(d) && b < |blocks|
    requires forall k :: 0 <= k <= MAXFILE ==> Ref(blocks, d, k) != b || b == 0
    requires b != 0
    ensures SameFile(blocks, blocks[b := data], d)
  {
    assert Ref(blocks, d, MAXFILE) == d.addrs[NDIRECT];
  }

  lemma SameFileTrans(a: seq<Block>, b: seq<Block>, c: seq<Block>, d: Dinode)
    requires SameFile(a, b, d) && SameFile(b, c, d)
    ensures SameFile(a, c, d)
  {
  }

  // ---- Allocation -------------------------------------------------------

  /** The store after balloc has taken block b: its bit set, its contents zero (fs.c:66-69). */
  function Allocated(blocks: seq<Block>, sb: Superblock, b: nat): (r: seq<Block>)
    requires sb.Sane() && |blocks| == sb.size && b < sb.size
    ensures |r| == |blocks|
  {
    var m := sb.BitmapBlock(b);
    blocks[m := SetBit(blocks[m], b % BPB)][b := ZeroBlock()]
  }

  lemma AllocatedUsed(blocks: seq<Block>, sb: Superblock, b: nat, c: nat)
    requires sb.Sane() && |blocks| == sb.size && sb.IsData(b) && c < sb.size
    ensures Used(Allocated(blocks, sb, b), sb, c) == (b == c || Used(blocks, sb, c))
  {
    var m, n := sb.BitmapBlock(b), sb.BitmapBlock(c);
    assert n < sb.DataStart() <= b;
    if m == n {
      SetBitAt(blocks[m], b % BPB, c % BPB);
      assert b / BPB == c / BPB;
    }
  }

  /** Taking a free data block disturbs no file, and afterwards the block is used, zero and still nobody's. */
  lemma AllocatedKeeps(blocks: seq<Block>, sb: Superblock, ino: seq<Dinode>, b: nat)
    requires Owned(blocks, sb, ino) && sb.Sane() && |blocks| == sb.size && sb.IsData(b) && !Used(blocks, sb, b)
    ensures forall i :: 0 <= i < |ino| ==> SameFile(blocks, Allocated(blocks, sb, b), ino[i])
    ensures Owned(Allocated(blocks, sb, b), sb, ino)
    ensures Unowned(Allocated(blocks, sb, b), ino, b)
    ensures Used(Allocated(blocks, sb, b), sb, b) && Allocated(blocks, sb, b)[b] == ZeroBlock()
  {
    var m := sb.BitmapBlock(b);
    var marked := blocks[m := SetBit(blocks[m], b % BPB)];
    var after := Allocated(blocks, sb, b);
    FreeIsUnowned(blocks, sb, ino, b);
    AllocatedUsed(blocks, sb, b, b);
    forall i | 0 <= i < |ino| ensures SameFile(blocks, after, ino[i]) {
      assert InUse(blocks, sb, ino[i]);
      WriteElsewhere(blocks, ino[i], m, marked[m]);
      WriteElsewhere(marked, ino[i], b, ZeroBlock());
      SameFileTrans(blocks, marked, after, ino[i]);
    }
    forall i | 0 <= i < |ino| ensures InUse(after, sb, ino[i]) {
      assert InUse(blocks, sb, ino[i]) && SameFile(blocks, after, ino[i]);
      forall k | 0 <= k <= MAXFILE && Ref(after, ino[i], k) != 0 ensures Used(after, sb, Ref(after, ino[i], k)) {
        AllocatedUsed(blocks, sb, b, Ref(blocks, ino[i], k));
      }
    }
  }

  /** Entering a block that nobody owns into an empty slot of inode i gives it exactly one owner. */
  lemma OwnedAttach(blocks: seq<Block>, blocks': seq<Block>, sb: Superblock, ino: seq<Dinode>, i: nat, d: Dinode,
                    k: nat, b: nat)
    requires Owned(blocks, sb, ino) && i < |ino| && WellFormed(d) && k <= MAXFILE
    requires sb.Sane() && |blocks'| == |blocks| == sb.size && sb.IsData(b) && Unowned(blocks, ino, b)
    requires forall l :: 0 <= l <= MAXFILE ==> Ref(blocks', d, l) == if l == k then b else Ref(blocks, ino[i], l)
    requires forall j :: 0 <= j < |ino| && j != i ==> SameFile(blocks, blocks', ino[j])
    requires forall c :: 0 <= c < sb.size && Used(blocks, sb, c) ==> Used(blocks', sb, c)
    requires Used(blocks', sb, b)
    ensures Owned(blocks', sb, ino[i := d])
  {
    var ino' := ino[i := d];
    forall j | 0 <= j < |ino'| ensures InUse(blocks', sb, ino'[j]) {
      assert InUse(blocks, sb, ino[j]);
    }
    forall j, m, k', l | (0 <= j < |ino'| && 0 <= m < |ino'| && 0 <= k' <= MAXFILE && 0 <= l <= MAXFILE
                          && Ref(blocks', ino'[j], k') == Ref(blocks', ino'[m], l) != 0)
      ensures j == m && k' == l
    {
      if !(j == i && k' == k) {
        assert Ref(blocks', ino'[j], k') == Ref(blocks, ino[j], k');
      }
      if !(m == i && l == k) {
        assert Ref(blocks', ino'[m], l) == Ref(blocks, ino[m], l);
      }
    }
  }

  /** addrs[k] = b for a direct block or, with k == MAXFILE, for a zeroed indirect block. */
  lemma LinkInInode(blocks: seq<Block>, sb: Superblock, ino: seq<Dinode>, i: nat, k: nat, b: nat)
    requires Owned(blocks, sb, ino) && sb.Sane() && i < |ino| && |blocks| == sb.size && sb.IsData(b)
    requires Unowned(blocks, ino, b) && Used(blocks, sb, b) && blocks[b] == ZeroBlock()
    requires (k < NDIRECT || k == MAXFILE) && Ref(blocks, ino[i], k) == 0
    ensures var d := ino[i].(addrs := ino[i].addrs[if k < NDIRECT then k else NDIRECT := b]);
      && Owned(blocks, sb, ino[i := d])
      && (forall l :: 0 <= l <= MAXFILE ==> Ref(blocks, d, l) == if l == k then b else Ref(blocks, ino[i], l))
  {
    assert InUse(blocks, sb, ino[i]);
    var d := ino[i].(addrs := ino[i].addrs[if k < NDIRECT then k else NDIRECT := b]);
    forall l | 0 <= l <= MAXFILE ensures Ref(blocks, d, l) == if l == k then b else Ref(blocks, ino[i], l) {
      if k == MAXFILE && NDIRECT <= l < MAXFILE {
        ZeroWord(l - NDIRECT);
      }
    }
    OwnedAttach(blocks, blocks, sb, ino, i, d, k, b);
  }

  lemma ZeroWord(j: nat)
    requires j < WORDS
    ensures Word(ZeroBlock(), j) == 0
  {
  }

  /** Storing b in word k - NDIRECT of the indirect block changes slot k and no other. */
  lemma IndirectRefs(blocks: seq<Block>, d: Dinode, k: nat, b: nat)
    requires WellFormed(d) && NDIRECT <= k < MAXFILE && 0 < d.addrs[NDIRECT] < |blocks| && b < UINT_LIMIT
    ensures var ind := d.addrs[NDIRECT];
      var blocks' := blocks[ind := SetWord(blocks[ind], k - NDIRECT, b)];
      forall l :: 0 <= l <= MAXFILE ==> Ref(blocks', d, l) == if l == k then b else Ref(blocks, d, l)
  {
    var ind := d.addrs[NDIRECT];
    var blocks' := blocks[ind := SetWord(blocks[ind], k - NDIRECT, b)];
    forall l | 0 <= l <= MAXFILE ensures Ref(blocks', d, l) == if l == k then b else Ref(blocks, d, l) {
      if NDIRECT <= l < MAXFILE {
        WordOfSetWord(blocks[ind], k - NDIRECT, b, l - NDIRECT);
      }
    }
  }

  /** a[k - NDIRECT] = b in the inode's indirect block. */
  lemma LinkInIndirect(blocks: seq<Block>, sb: Superblock, ino: seq<Dinode>, i: nat, k: nat, b: nat)
    requires Owned(blocks, sb, ino) && sb.Sane() && i < |ino| && |blocks| == sb.size && sb.IsData(b)
    requires Unowned(blocks, ino, b) && Used(blocks, sb, b)
    requires NDIRECT <= k < MAXFILE && Ref(blocks, ino[i], MAXFILE) != 0
    ensures Ref(blocks, ino[i], MAXFILE) < |blocks|
    ensures var ind := Ref(blocks, ino[i], MAXFILE);
      var blocks' := blocks[ind := SetWord(blocks[ind], k - NDIRECT, b)];
      && (forall l :: 0 <= l <= MAXFILE ==> Ref(blocks', ino[i], l) == if l == k then b else Ref(blocks, ino[i], l))
      && (forall j :: 0 <= j < |ino| && j != i ==> SameFile(blocks, blocks', ino[j]))
      && Owned(blocks', sb, ino)
  {
    assert InUse(blocks, sb, ino[i]);
    var ind := Ref(blocks, ino[i], MAXFILE);
    assert sb.IsData(ind);
    var data := SetWord(blocks[ind], k - NDIRECT, b);
    IndirectRefs(blocks, ino[i], k, b);
    forall j | 0 <= j < |ino| && j != i ensures SameFile(blocks, blocks[ind := data], ino[j]) {
      assert InUse(blocks, sb, ino[j]);
      WriteElsewhere(blocks, ino[j], ind, data);
    }
    forall c | 0 <= c < sb.size ensures Used(blocks[ind := data], sb, c) == Used(blocks, sb, c) {
      UsedElsewhere(blocks, sb, ind, data, c);
    }
    OwnedAttach(blocks, blocks[ind := data], sb, ino, i, ino[i], k, b);
    assert ino[i := ino[i]] == ino;
  }

  // ---- Bytes ------------------------------------------------------------

  const MAXBYTES: nat := MAXFILE * BSIZE

  /** Byte o of an inode's data; a block that is not there reads as zeros. */
  function ByteAt(blocks: seq<Block>, d: Dinode, o: nat): byte
    requires WellFormed(d) && o < MAXBYTES
  {
    var b := Ref(blocks, d, o / BSIZE);
    if b == 0 || b >= |blocks| then 0 else blocks[b][o % BSIZE]
  }

  /** The whole data area of an inode. Its file content is the first `size` bytes. */
  function Data(blocks: seq<Block>, d: Dinode): (r: seq<byte>)
    requires WellFormed(d)
    ensures |r| == MAXBYTES && forall o :: 0 <= o < MAXBYTES ==> r[o] == ByteAt(blocks, d, o)
  {
    seq(MAXBYTES, o requires 0 <= o < MAXBYTES => ByteAt(blocks, d, o))
  }

  function Content(blocks: seq<Block>, d: Dinode): (r: seq<byte>)
    requires WellFormed(d)
    ensures |r| == d.size
  {
    Data(blocks, d)[..d.size]
  }

  lemma SameFileSameData(blocks: seq<Block>, blocks': seq<Block>, d: Dinode)
    requires SameFile(blocks, blocks', d)
    ensures Data(blocks', d) == Data(blocks, d)
  {
    forall o | 0 <= o < MAXBYTES ensures ByteAt(blocks', d, o) == ByteAt(blocks, d, o) {
      assert Ref(blocks', d, o / BSIZE) == Ref(blocks, d, o / BSIZE);
    }
  }

  /** Entering a zeroed block into an empty slot changes no byte. */
  lemma AttachZeroSameData(blocks: seq<Block>, d: Dinode, blocks': seq<Block>, d': Dinode, k: nat, b: nat)
    requires WellFormed(d) && WellFormed(d') && |blocks| == |blocks'| && k <= MAXFILE && b < |blocks'|
    requires blocks'[b] == ZeroBlock() && Ref(blocks, d, k) == 0
    requires forall l :: 0 <= l <= MAXFILE ==> Ref(blocks', d', l) == if l == k then b else Ref(blocks, d, l)
    requires forall l :: 0 <= l < MAXFILE && 0 < Ref(blocks, d, l) < |blocks| ==>
      blocks'[Ref(blocks, d, l)] == blocks[Ref(blocks, d, l)]
    ensures Data(blocks', d') == Data(blocks, d)
  {
    forall o | 0 <= o < MAXBYTES ensures ByteAt(blocks', d', o) == ByteAt(blocks, d, o) {
      assert Ref(blocks', d', o / BSIZE) == if o / BSIZE == k then b else Ref(blocks, d, o / BSIZE);
    }
  }

  /** (blocks', d') has every block (blocks, d) had, in the same slot; nothing but the addresses of d changed. */
  predicate Grown(blocks: seq<Block>, d: Dinode, blocks': seq<Block>, d': Dinode) {
    && WellFormed(d) && WellFormed(d') && d' == d.(addrs := d'.addrs)
    && forall l :: 0 <= l <= MAXFILE && Ref(blocks, d, l) != 0 ==> Ref(blocks', d', l) == Ref(blocks, d, l)
  }

  /** Only inode i changed, and it only grew: every other file has the same blocks with the same contents. */
  predicate OnlyGrown(blocks: seq<Block>, ino: seq<Dinode>, blocks': seq<Block>, ino': seq<Dinode>, i: nat)
    requires i < |ino|
  {
    && |ino'| == |ino| && |blocks'| == |blocks| && ino' == ino[i := ino'[i]] && Grown(blocks, ino[i], blocks', ino'[i])
    && (forall j :: 0 <= j < |ino| && j != i ==> SameFile(blocks, blocks', ino[j]))
  }

  /** Inode i got blocks, but no byte of any file changed: new blocks read as the zeros that were there before. */
  predicate OneBlockMore(blocks: seq<Block>, ino: seq<Dinode>, blocks': seq<Block>, ino': seq<Dinode>, i: nat)
    requires i < |ino|
  {
    OnlyGrown(blocks, ino, blocks', ino', i) && Data(blocks', ino'[i]) == Data(blocks, ino[i])
  }

  lemma OnlyGrownTrans(blocks: seq<Block>, ino: seq<Dinode>, blocks': seq<Block>, ino': seq<Dinode>,
                       blocks'': seq<Block>, ino'': seq<Dinode>, i: nat)
    requires i < |ino| && OnlyGrown(blocks, ino, blocks', ino', i) && OnlyGrown(blocks', ino', blocks'', ino'', i)
    ensures OnlyGrown(blocks, ino, blocks'', ino'', i)
  {
    forall j | 0 <= j < |ino| && j != i ensures SameFile(blocks, blocks'', ino[j]) {
      assert ino'[j] == ino[j];
      SameFileTrans(blocks, blocks', blocks'', ino[j]);
    }
  }

  /** balloc followed by storing the block number in the inode. */
  lemma AllocInInode(blocks: seq<Block>, sb: Superblock, ino: seq<Dinode>, i: nat, k: nat, b: nat)
    requires Owned(blocks, sb, ino) && sb.Sane() && i < |ino| && |blocks| == sb.size && sb.IsData(b) &&
      !Used(blocks, sb, b)
    requires (k < NDIRECT || k == MAXFILE) && Ref(blocks, ino[i], k) == 0
    ensures var blocks', d := Allocated(blocks, sb, b), ino[i].(addrs := ino[i].addrs[if k < NDIRECT then k
      else NDIRECT := b]);
      && Owned(blocks', sb, ino[i := d]) && OneBlockMore(blocks, ino, blocks', ino[i := d], i)
      && forall l :: 0 <= l <= MAXFILE ==> Ref(blocks', d, l) == if l == k then b else Ref(blocks, ino[i], l)
  {
    var blocks', d := Allocated(blocks, sb, b), ino[i].(addrs := ino[i].addrs[if k < NDIRECT then k else NDIRECT := b]);
    AllocatedKeeps(blocks, sb, ino, b);
    assert SameFile(blocks, blocks', ino[i]);
    LinkInInode(blocks', sb, ino, i, k, b);
    SameFileSameData(blocks, blocks', ino[i]);
    AttachZeroSameData(blocks', ino[i], blocks', d, k, b);
  }

  /** Every data slot but k has the block it had. */
  predicate OtherSlots(blocks: seq<Block>, d: Dinode, blocks': seq<Block>, d': Dinode, k: nat) {
    && WellFormed(d) && WellFormed(d')
    && forall l :: 0 <= l < MAXFILE && l != k ==> Ref(blocks', d', l) == Ref(blocks, d, l)
  }

  /** balloc followed by storing the block number in the indirect block. */
  lemma AllocInIndirect(blocks: seq<Block>, sb: Superblock, ino: seq<Dinode>, i: nat, k: nat, b: nat)
    requires Owned(blocks, sb, ino) && sb.Sane() && i < |ino| && |blocks| == sb.size && sb.IsData(b) &&
      !Used(blocks, sb, b)
    requires NDIRECT <= k < MAXFILE && Ref(blocks, ino[i], k) == 0 && Ref(blocks, ino[i], MAXFILE) != 0
    ensures Ref(blocks, ino[i], MAXFILE) < |blocks|
    ensures var blocks1, ind := Allocated(blocks, sb, b), Ref(blocks, ino[i], MAXFILE);
      var blocks' := blocks1[ind := SetWord(blocks1[ind], k - NDIRECT, b)];
      && Owned(blocks', sb, ino) && OneBlockMore(blocks, ino, blocks', ino, i) && Ref(blocks', ino[i], k) == b
      && OtherSlots(blocks, ino[i], blocks', ino[i], k)
  {
    var blocks1, ind := Allocated(blocks, sb, b), Ref(blocks, ino[i], MAXFILE);
    AllocatedKeeps(blocks, sb, ino, b);
    assert SameFile(blocks, blocks1, ino[i]) && ind == Ref(blocks1, ino[i], MAXFILE);
    LinkInIndirect(blocks1, sb, ino, i, k, b);
    var blocks' := blocks1[ind := SetWord(blocks1[ind], k - NDIRECT, b)];
    SameFileSameData(blocks, blocks1, ino[i]);
    IndirectNotData(blocks1, sb, ino, i);
    assert ind != b by { assert Unowned(blocks1, ino, b); }
    AttachZeroSameData(blocks1, ino[i], blocks', ino[i], k, b);
    assert ino[i := ino[i]] == ino;
    forall j | 0 <= j < |ino| && j != i ensures SameFile(blocks, blocks', ino[j]) {
      SameFileTrans(blocks, blocks1, blocks', ino[j]);
    }
  }

  lemma IndirectNotData(blocks: seq<Block>, sb: Superblock, ino: seq<Dinode>, i: nat)
    requires Owned(blocks, sb, ino) && i < |ino| && Ref(blocks, ino[i], MAXFILE) != 0
    ensures forall l :: 0 <= l < MAXFILE ==> Ref(blocks, ino[i], l) != Ref(blocks, ino[i], MAXFILE)
  {
  }

  // ---- Freeing ----------------------------------------------------------

  /** The store after bfree has cleared the bit of block b (fs.c:92). */
  function Freed(blocks: seq<Block>, sb: Superblock, b: nat): (r: seq<Block>)
    requires sb.Sane() && |blocks| == sb.size && b < sb.size
    ensures |r| == |blocks|
  {
    var m := sb.BitmapBlock(b);
    blocks[m := ClearBit(blocks[m], b % BPB)]
  }

  lemma FreedUsed(blocks: seq<Block>, sb: Superblock, b: nat, c: nat)
    requires sb.Sane() && |blocks| == sb.size && b < sb.size && c < sb.size
    ensures Used(Freed(blocks, sb, b), sb, c) == (b != c && Used(blocks, sb, c))
  {
    var m, n := sb.BitmapBlock(b), sb.BitmapBlock(c);
    if m == n {
      ClearBitAt(blocks[m], b % BPB, c % BPB);
      assert b / BPB == c / BPB;
    }
  }

  /** c is in one of the first n slots of the inode. */
  predicate InSlots(blocks: seq<Block>, d: Dinode, n: nat, c: nat)
    requires WellFormed(d) && n <= MAXFILE + 1
  {
    c != 0 && exists l :: 0 <= l < n && Ref(blocks, d, l) == c
  }

  /** The store in which the first n slots of d have been freed: their bits are clear, nothing else differs. */
  predicate FreedUpTo(blocks: seq<Block>, blocks': seq<Block>, sb: Superblock, d: Dinode, n: nat)
    requires WellFormed(d) && n <= MAXFILE + 1 && sb.Sane() && |blocks| == sb.size
  {
    && |blocks'| == |blocks|
    && (forall c :: sb.DataStart() <= c < sb.size ==> blocks'[c] == blocks[c])
    && (forall c :: 0 <= c < sb.size ==> (Used(blocks', sb, c) <==> Used(blocks, sb, c) && !InSlots(blocks, d, n, c)))
  }

  /** An empty slot needs no freeing. */
  lemma FreeNone(blocks: seq<Block>, blocks': seq<Block>, sb: Superblock, d: Dinode, n: nat)
    requires WellFormed(d) && n <= MAXFILE && sb.Sane() && |blocks| == sb.size
    requires FreedUpTo(blocks, blocks', sb, d, n) && Ref(blocks, d, n) == 0
    ensures FreedUpTo(blocks, blocks', sb, d, n + 1)
  {
    forall c | 0 <= c < sb.size ensures InSlots(blocks, d, n + 1, c) == InSlots(blocks, d, n, c) {
    }
  }

  /** The next slot's block is still marked in use, so freeing it does not panic, and it frees just that block. */
  lemma FreeNext(blocks: seq<Block>, blocks': seq<Block>, sb: Superblock, ino: seq<Dinode>, i: nat, n: nat)
    requires Owned(blocks, sb, ino) && i < |ino| && n <= MAXFILE && sb.Sane() && |blocks| == sb.size
    requires FreedUpTo(blocks, blocks', sb, ino[i], n) && Ref(blocks, ino[i], n) != 0
    ensures Ref(blocks, ino[i], n) < sb.size && Used(blocks', sb, Ref(blocks, ino[i], n))
    ensures FreedUpTo(blocks, Freed(blocks', sb, Ref(blocks, ino[i], n)), sb, ino[i], n + 1)
  {
    var b := Ref(blocks, ino[i], n);
    assert InUse(blocks, sb, ino[i]);
    assert !InSlots(blocks, ino[i], n, b);
    forall c | 0 <= c < sb.size
      ensures Used(Freed(blocks', sb, b), sb, c) <==> Used(blocks, sb, c) && !InSlots(blocks, ino[i], n + 1, c)
    {
      FreedUsed(blocks', sb, b, c);
      assert InSlots(blocks, ino[i], n + 1, c) <==> InSlots(blocks, ino[i], n, c) || c == b;
    }
  }

  /** When every slot is freed and emptied, the other files are untouched and ownership holds. */
  lemma FreedAll(blocks: seq<Block>, blocks': seq<Block>, sb: Superblock, ino: seq<Dinode>, i: nat, d: Dinode)
    requires Owned(blocks, sb, ino) && i < |ino| && sb.Sane() && |blocks| == sb.size
    requires FreedUpTo(blocks, blocks', sb, ino[i], MAXFILE + 1)
    requires WellFormed(d) && forall k :: 0 <= k <= MAXFILE ==> Ref(blocks', d, k) == 0
    ensures forall j :: 0 <= j < |ino| && j != i ==> SameFile(blocks, blocks', ino[j])
    ensures Owned(blocks', sb, ino[i := d])
  {
    forall j | 0 <= j < |ino| && j != i ensures SameFile(blocks, blocks', ino[j]) && InUse(blocks', sb, ino[j]) {
      assert InUse(blocks, sb, ino[j]);
      assert Ref(blocks, ino[j], MAXFILE) == ino[j].addrs[NDIRECT];
      forall k | 0 <= k <= MAXFILE && Ref(blocks, ino[j], k) != 0
        ensures !InSlots(blocks, ino[i], MAXFILE + 1, Ref(blocks, ino[j], k))
      {
      }
    }
  }

  // ---- Writing bytes ----------------------------------------------------

  /** s with src written over it at off. */
  function Splice<T>(s: seq<T>, off: nat, src: seq<T>): (r: seq<T>)
    requires off + |src| <= |s|
    ensures |r| == |s|
    ensures forall o :: 0 <= o < |s| ==> r[o] == if off <= o < off + |src| then src[o - off] else s[o]
  {
    s[..off] + src + s[off + |src|..]
  }

  lemma SpliceTwice<T>(s: seq<T>, off: nat, src: seq<T>, tot: nat, m: nat)
    requires off + |src| <= |s| && tot + m <= |src|
    ensures Splice(Splice(s, off, src[..tot]), off + tot, src[tot..][..m]) == Splice(s, off, src[..tot + m])
  {
  }

  /** Writing a data block leaves the bitmap alone. */
  lemma UsedElsewhere(blocks: seq<Block>, sb: Superblock, b: nat, data: Block, c: nat)
    requires sb.Sane() && |blocks| == sb.size && sb.IsData(b) && c < sb.size
    ensures Used(blocks[b := data], sb, c) == Used(blocks, sb, c)
  {
  }

  /** Ownership depends on the references and the bitmap only. */
  lemma OwnedSame(blocks: seq<Block>, blocks': seq<Block>, sb: Superblock, ino: seq<Dinode>)
    requires Owned(blocks, sb, ino) && sb.Sane() && |blocks| == |blocks'| == sb.size
    requires forall j, l :: 0 <= j < |ino| && 0 <= l <= MAXFILE ==> Ref(blocks', ino[j], l) == Ref(blocks, ino[j], l)
    requires forall c :: 0 <= c < sb.size ==> Used(blocks', sb, c) == Used(blocks, sb, c)
    ensures Owned(blocks', sb, ino)
  {
    forall j | 0 <= j < |ino| ensures InUse(blocks', sb, ino[j]) {
      assert InUse(blocks, sb, ino[j]);
    }
  }

  /** Writing into a data block of inode i moves no block and disturbs no other file. */
  lemma WriteDataBlock(blocks: seq<Block>, sb: Superblock, ino: seq<Dinode>, i: nat, k: nat, data: Block)
    requires Owned(blocks, sb, ino) && sb.Sane() && |blocks| == sb.size && i < |ino| && k < MAXFILE
    requires Ref(blocks, ino[i], k) != 0
    ensures sb.IsData(Ref(blocks, ino[i], k))
    ensures var blocks' := blocks[Ref(blocks, ino[i], k) := data];
      && Owned(blocks', sb, ino)
      && (forall l :: 0 <= l <= MAXFILE ==> Ref(blocks', ino[i], l) == Ref(blocks, ino[i], l))
      && (forall j :: 0 <= j < |ino| && j != i ==> SameFile(blocks, blocks', ino[j]))
  {
    var b := Ref(blocks, ino[i], k);
    assert InUse(blocks, sb, ino[i]);
    var blocks' := blocks[b := data];
    assert Ref(blocks, ino[i], MAXFILE) == ino[i].addrs[NDIRECT];
    forall j | 0 <= j < |ino| && j != i ensures SameFile(blocks, blocks', ino[j]) {
      assert InUse(blocks, sb, ino[j]);
      WriteElsewhere(blocks, ino[j], b, data);
    }
    forall c | 0 <= c < sb.size ensures Used(blocks', sb, c) == Used(blocks, sb, c) {
      UsedElsewhere(blocks, sb, b, data, c);
    }
    OwnedSame(blocks, blocks', sb, ino);
  }

  /** The bytes o..o+m of a file, when they lie in one block, are bytes of that block. */
  lemma DataInBlock(blocks: seq<Block>, d: Dinode, o: nat, m: nat)
    requires WellFormed(d) && o + m <= MAXBYTES && o % BSIZE + m <= BSIZE && 0 < m
    requires 0 < Ref(blocks, d, o / BSIZE) < |blocks|
    ensures Data(blocks, d)[o .. o + m] == blocks[Ref(blocks, d, o / BSIZE)][o % BSIZE .. o % BSIZE + m]
  {
    var file := Data(blocks, d)[o .. o + m];
    var block := blocks[Ref(blocks, d, o / BSIZE)][o % BSIZE .. o % BSIZE + m];
    forall x | 0 <= x < m ensures file[x] == block[x] {
      SameBlock(o, x);
      assert file[x] == ByteAt(blocks, d, o + x);
    }
  }

  lemma SameBlock(o: nat, x: nat)
    requires o % BSIZE + x < BSIZE
    ensures (o + x) / BSIZE == o / BSIZE && (o + x) % BSIZE == o % BSIZE + x
  {
  }

  /** Writing src into the block of byte o writes it into the file at o. */
  lemma WriteInBlock(blocks: seq<Block>, sb: Superblock, ino: seq<Dinode>, i: nat, o: nat, src: seq<byte>)
    requires Owned(blocks, sb, ino) && sb.Sane() && |blocks| == sb.size && i < |ino|
    requires o + |src| <= MAXBYTES && o % BSIZE + |src| <= BSIZE && 0 < |src| && Ref(blocks, ino[i], o / BSIZE) != 0
    ensures sb.IsData(Ref(blocks, ino[i], o / BSIZE))
    ensures var b := Ref(blocks, ino[i], o / BSIZE);
      Data(blocks[b := Splice(blocks[b], o % BSIZE, src)], ino[i]) == Splice(Data(blocks, ino[i]), o, src)
  {
    var d, bn := ino[i], o / BSIZE;
    var b := Ref(blocks, d, bn);
    WriteDataBlock(blocks, sb, ino, i, bn, Splice(blocks[b], o % BSIZE, src));
    var blocks' := blocks[b := Splice(blocks[b], o % BSIZE, src)];
    forall x | 0 <= x < MAXBYTES ensures ByteAt(blocks', d, x) == Splice(Data(blocks, d), o, src)[x] {
      ByteInBlock(o, |src|, x);
      assert Ref(blocks', d, x / BSIZE) == Ref(blocks, d, x / BSIZE);
      if x / BSIZE != bn {
        assert Ref(blocks, d, x / BSIZE) != b;
      }
    }
  }

  lemma ByteInBlock(o: nat, n: nat, x: nat)
    requires o % BSIZE + n <= BSIZE && 0 < n
    ensures o <= x < o + n <==> x / BSIZE == o / BSIZE && o % BSIZE <= x % BSIZE < o % BSIZE + n
    ensures o <= x < o + n ==> x - o == x % BSIZE - o % BSIZE
  {
    assert o == o / BSIZE * BSIZE + o % BSIZE && x == x / BSIZE * BSIZE + x % BSIZE;
  }

  /** Changing an inode's other fields moves no block and changes no byte. */
  lemma SameAddresses(blocks: seq<Block>, sb: Superblock, ino: seq<Dinode>, i: nat, d: Dinode)
    requires Owned(blocks, sb, ino) && i < |ino| && WellFormed(ino[i]) && WellFormed(d) && d.addrs == ino[i].addrs
    ensures Owned(blocks, sb, ino[i := d]) && Data(blocks, d) == Data(blocks, ino[i])
    ensures forall l :: 0 <= l <= MAXFILE ==> Ref(blocks, d, l) == Ref(blocks, ino[i], l)
  {
    var ino' := ino[i := d];
    assert forall j, l :: 0 <= j < |ino| && 0 <= l <= MAXFILE && WellFormed(ino[j]) ==>
        Ref(blocks, ino'[j], l) == Ref(blocks, ino[j], l);
    forall j | 0 <= j < |ino'| ensures InUse(blocks, sb, ino'[j]) {
      assert InUse(blocks, sb, ino[j]);
    }
    forall o | 0 <= o < MAXBYTES ensures ByteAt(blocks, d, o) == ByteAt(blocks, ino[i], o) {
    }
  }

  /** The file content after writing src at off, which may extend it. */
  function Overwritten(content: seq<byte>, off: nat, src: seq<byte>): seq<byte>
    requires off <= |content|
  {
    content[..off] + src + if off + |src| < |content| then content[off + |src|..] else []
  }

  lemma OverwrittenData(data: seq<byte>, size: nat, off: nat, src: seq<byte>)
    requires off <= size <= |data| && off + |src| <= |data|
    ensures Splice(data, off, src)[..if off + |src| > size then off + |src| else size] == Overwritten(data[..size],
      off, src)
  {
  }
}
