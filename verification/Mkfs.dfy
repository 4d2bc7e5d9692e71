/**
 The first image (mkfs.c): blocks and inodes are handed out in order while files are appended, and the bitmap is written
 last. What it leaves satisfies everything the kernel's file system relies on.
 */
module Mkfs {
  import opened Bitmap
  import opened Blocks
  import opened Bytes
  import opened Checksum
  import opened Dinodes
  import opened Ditto
  import opened FileSystem
  import opened Transactions
  import opened Wrappers

  // ---- The bitmap ----------------------------------------------------------------------

  /** A bitmap block with the first n bits set. */
  function Bits(n: nat): Block
    requires n <= BPB
  {
    if n == 0 then ZeroBlock() else SetBit(Bits(n - 1), n - 1)
  }

  lemma ZeroBits(c: nat)
    requires c < BPB
    ensures !BitAt(ZeroBlock(), c)
  {
    assert ZeroBlock()[c / 8] == 0;
  }

  lemma {:induction false} BitsAt(n: nat, c: nat)
    requires n <= BPB && c < BPB
    ensures BitAt(Bits(n), c) <==> c < n
  {
    if n == 0 {
      ZeroBits(c);
    } else {
      BitsAt(n - 1, c);
      SetBitAt(Bits(n - 1), n - 1, c);
    }
  }

  /** The image as it will be once the bitmap says that the first n blocks are in use. */
  function Marked(blocks: seq<Block>, sb: Superblock, n: nat): seq<Block>
    requires sb.Sane() && |blocks| == sb.size && n <= BPB
  {
    blocks[sb.BitmapBlock(0) := Bits(n)]
  }

  lemma MarkedUsed(blocks: seq<Block>, sb: Superblock, n: nat, c: nat)
    requires sb.Sane() && |blocks| == sb.size < BPB && n <= BPB && c < sb.size
    ensures Used(Marked(blocks, sb, n), sb, c) <==> c < n
  {
    assert c / BPB == 0 && c % BPB == c;
    BitsAt(n, c);
  }

  /** Handing out the next block is what balloc would do. */
  lemma MarkNext(blocks: seq<Block>, sb: Superblock, n: nat)
    requires sb.Sane() && |blocks| == sb.size < BPB && sb.IsData(n) && blocks[n] == ZeroBlock()
    ensures !Used(Marked(blocks, sb, n), sb, n)
    ensures Allocated(Marked(blocks, sb, n), sb, n) == Marked(blocks, sb, n + 1)
  {
    MarkedUsed(blocks, sb, n, n);
    assert n / BPB == 0 && n % BPB == n && sb.BitmapBlock(0) < sb.DataStart();
  }

  // ---- Inodes -----------------------------------------------------------------------------

  /** What ialloc writes (mkfs.c:309-312). */
  function NewDinode(kind: Kind): Dinode {
    Dinode(kind, 1, 0, seq(NDIRECT + 1, _ => 0), 0, 0, 0)
  }

  predicate Empty(d: Dinode) {
    d.size == 0 && |d.addrs| == NDIRECT + 1 && forall k :: 0 <= k <= NDIRECT ==> d.addrs[k] == 0
  }

  lemma EmptyRefs(blocks: seq<Block>, d: Dinode, k: nat)
    requires Empty(d) && k <= MAXFILE
    ensures WellFormed(d) && Ref(blocks, d, k) == 0
  {
  }

  lemma OwnedEmpty(blocks: seq<Block>, sb: Superblock, ino: seq<Dinode>, i: nat, d: Dinode)
    requires Owned(blocks, sb, ino) && i < |ino| && Empty(d)
    ensures Owned(blocks, sb, ino[i := d])
  {
    assert InUse(blocks, sb, ino[i]);
    forall k | 0 <= k <= MAXFILE ensures Ref(blocks, d, k) == 0 {
      EmptyRefs(blocks, d, k);
    }
    var ino' := ino[i := d];
    forall j | 0 <= j < |ino'| ensures InUse(blocks, sb, ino'[j]) {
      assert InUse(blocks, sb, ino[j]);
    }
  }

  lemma AllEmptyOwned(blocks: seq<Block>, sb: Superblock, ino: seq<Dinode>)
    requires sb.Sane() && |blocks| == sb.size && forall j :: 0 <= j < |ino| ==> Empty(ino[j])
    ensures Owned(blocks, sb, ino) && forall j :: 0 <= j < |ino| ==> WellFormed(ino[j]) && NoHoles(blocks, ino[j])
  {
    forall j, k | 0 <= j < |ino| && 0 <= k <= MAXFILE ensures WellFormed(ino[j]) && Ref(blocks, ino[j], k) == 0 {
      EmptyRefs(blocks, ino[j], k);
    }
  }

  // ---- One block more -----------------------------------------------------------------------

  /** A disk in the making: the blocks from n up to the log are still zero. */
  predicate Drawn(blocks: seq<Block>, sb: Superblock, n: nat) {
    && sb.Sane() && |blocks| == sb.size < BPB && sb.DataStart() <= n <= sb.LogStart()
    && (forall b :: n <= b < sb.LogStart() ==> blocks[b] == ZeroBlock())
  }

  function SlotOf(k: nat): nat {
    if k < NDIRECT then k else NDIRECT
  }

  lemma NextInInode(blocks: seq<Block>, sb: Superblock, disk: seq<Dinode>, i: nat, k: nat, n: nat, now: seq<Block>,
                    now': seq<Block>, disk': seq<Dinode>)
    requires sb.Sane() && |blocks| == sb.size < BPB && sb.IsData(n) && blocks[n] == ZeroBlock() && i < |disk|
    requires now == Marked(blocks, sb, n) && now' == Marked(blocks, sb, n + 1)
    requires Owned(now, sb, disk) && WellFormed(disk[i]) && (k < NDIRECT || k == MAXFILE) && Ref(now, disk[i], k) == 0
    requires disk' == disk[i := disk[i].(addrs := disk[i].addrs[SlotOf(k) := n])]
    ensures Owned(now', sb, disk') && OneBlockMore(now, disk, now', disk', i)
    ensures WellFormed(disk'[i]) && Ref(now', disk'[i], k) == n != 0
  {
    MarkNext(blocks, sb, n);
    AllocInInode(now, sb, disk, i, k, n);
    assert InUse(now', sb, disk'[i]);
  }

  lemma IndirectBelow(blocks: seq<Block>, sb: Superblock, disk: seq<Dinode>, i: nat, n: nat, k: nat)
    requires sb.Sane() && |blocks| == sb.size < BPB && n <= BPB && i < |disk| && Owned(Marked(blocks, sb, n), sb, disk)
    requires WellFormed(disk[i]) && k <= MAXFILE && Ref(Marked(blocks, sb, n), disk[i], k) != 0
    ensures var b := Ref(Marked(blocks, sb, n), disk[i], k);
      sb.IsData(b) && b < n && Marked(blocks, sb, n)[b] == blocks[b]
  {
    assert InUse(Marked(blocks, sb, n), sb, disk[i]);
    MarkedUsed(blocks, sb, n, Ref(Marked(blocks, sb, n), disk[i], k));
  }

  lemma NextInIndirect(blocks: seq<Block>, sb: Superblock, disk: seq<Dinode>, i: nat, k: nat, n: nat, ind: nat,
                       data: Block, now: seq<Block>, now': seq<Block>)
    requires Drawn(blocks, sb, n) && n < sb.LogStart() && i < |disk|
    requires now == Marked(blocks, sb, n) && Owned(now, sb, disk) && WellFormed(disk[i]) && NDIRECT <= k < MAXFILE
    requires Ref(now, disk[i], k) == 0 && ind == Ref(now, disk[i], MAXFILE) != 0 && ind < |blocks|
    requires data == SetWord(blocks[ind], k - NDIRECT, n) && now' == Marked(blocks[ind := data], sb, n + 1)
    ensures Owned(now', sb, disk) && OneBlockMore(now, disk, now', disk, i) && Ref(now', disk[i], k) == n != 0
  {
    IndirectBelow(blocks, sb, disk, i, n, MAXFILE);
    MarkNext(blocks, sb, n);
    AllocInIndirect(now, sb, disk, i, k, n);
    assert Allocated(now, sb, n)[ind] == blocks[ind];
    assert Marked(blocks, sb, n + 1)[ind := data] == now';
  }

  /** Bytes are written into the block of byte o of a file. */
  lemma NextBytes(blocks: seq<Block>, sb: Superblock, disk: seq<Dinode>, i: nat, o: nat, src: seq<byte>, n: nat, b: nat)
    requires sb.Sane() && |blocks| == sb.size < BPB && n <= BPB && i < |disk| && Owned(Marked(blocks, sb, n), sb, disk)
    requires o + |src| <= MAXBYTES && o % BSIZE + |src| <= BSIZE && 0 < |src|
    requires b == Ref(Marked(blocks, sb, n), disk[i], o / BSIZE) != 0
    ensures sb.IsData(b) && b < n
    ensures var now, now' := Marked(blocks, sb, n), Marked(blocks[b := Splice(blocks[b], o % BSIZE, src)], sb, n);
      && Owned(now', sb, disk) && OnlyGrown(now, disk, now', disk, i) && Ref(now', disk[i], o / BSIZE) == b
      && Data(now', disk[i]) == Splice(Data(now, disk[i]), o, src)
  {
    var now := Marked(blocks, sb, n);
    assert InUse(now, sb, disk[i]);
    MarkedUsed(blocks, sb, n, b);
    WriteInBlock(now, sb, disk, i, o, src);
    var data := Splice(blocks[b], o % BSIZE, src);
    WriteDataBlock(now, sb, disk, i, o / BSIZE, data);
    assert now[b := data] == Marked(blocks[b := data], sb, n);
    assert disk[i := disk[i]] == disk;
  }

  datatype Finished = Mirrored | Holed | Full

  class Builder {
    const sb: Superblock
    var blocks: seq<Block>           // every sector but the inode blocks
    var disk: seq<Dinode>            // the inode blocks, by inode number
    var freeblock: nat               // and usedblocks, which is always the same
    var freeinode: nat

    ghost predicate Shaped()
      reads this
    {
      |disk| == sb.ninodes && Drawn(blocks, sb, freeblock)
    }

    /** The image with its bitmap. */
    ghost function Now(): seq<Block>
      reads this
      requires Shaped()
    {
      Marked(blocks, sb, freeblock)
    }

    ghost predicate Sound()
      reads this
    {
      Shaped() && Owned(Now(), sb, disk)
    }

    ghost predicate Valid()
      reads this
    {
      && Sound() && (forall j :: 0 <= j < |disk| ==> NoHoles(Now(), disk[j]))
      && 1 <= freeinode && forall j :: freeinode <= j < |disk| ==> disk[j].kind.Free?
    }

    /** Every sector zero, no inode in use (mkfs.c:101-113). */
    constructor (sb: Superblock)
      requires sb.Sane() && sb.size < BPB
      ensures Valid() && this.sb == sb && freeinode == 1
      ensures forall j :: 0 <= j < |disk| ==> disk[j].kind.Free?
    {
      this.sb := sb;
      blocks := seq(sb.size, _ => ZeroBlock());
      disk := seq(sb.ninodes, _ => NewDinode(Kind.Free));
      freeblock := sb.DataStart();
      freeinode := 1;
      new;
      AllEmptyOwned(Now(), sb, disk);
    }

    /** The next inode (mkfs.c:303-315). None: there are no more, and mkfs writes past the inode blocks. */
    method Ialloc(kind: Kind) returns (r: Option<nat>)
      requires Valid() && !kind.Free?
      modifies this`disk, this`freeinode
      ensures r.None? <==> old(freeinode) >= sb.ninodes
      ensures r.None? ==> disk == old(disk) && freeinode == old(freeinode)
      ensures r.Some? ==> Valid() && r.value == old(freeinode) < |disk| && disk == old(disk)[r.value := NewDinode(kind)]
      ensures r.Some? ==> old(disk)[r.value].kind.Free? && freeinode == r.value + 1
    {
      if freeinode >= sb.ninodes {
        return None;
      }
      OwnedEmpty(Now(), sb, disk, freeinode, NewDinode(kind));
      r := Some(freeinode);
      disk := disk[freeinode := NewDinode(kind)];
      freeinode := freeinode + 1;
    }

    /** freeblock++, usedblocks++ */
    method TakeBlock()
      requires Shaped() && freeblock < sb.LogStart()
      modifies this`freeblock
      ensures Shaped() && freeblock == old(freeblock) + 1
    {
      freeblock := freeblock + 1;
    }

    /** wsect (mkfs.c:234-245). */
    method Wsect(b: nat, data: Block)
      requires Shaped() && b < freeblock
      modifies this`blocks
      ensures Shaped() && blocks == old(blocks)[b := data]
    {
      blocks := blocks[b := data];
    }

    /** The block in slot k of the inode itself, the next free one if it is missing (mkfs.c:352-356, mkfs.c:358-362). */
    method SlotInInode(i: nat, k: nat) returns (ok: bool)
      requires Sound() && i < |disk| && (k < NDIRECT || k == MAXFILE)
      modifies this`disk, this`freeblock
      ensures ok ==> Sound() && OneBlockMore(old(Now()), old(disk), Now(), disk, i) && Ref(Now(), disk[i], k) != 0
      ensures !ok ==> freeblock == sb.LogStart()
    {
      assert InUse(Now(), sb, disk[i]);
      if disk[i].addrs[SlotOf(k)] == 0 {
        if freeblock >= sb.LogStart() {
          return false;
        }
        disk := disk[i := disk[i].(addrs := disk[i].addrs[SlotOf(k) := freeblock])];
        TakeBlock();
        NextInInode(blocks, sb, old(disk), i, k, old(freeblock), old(Now()), Now(), disk);
      } else {
        Unchanged(Now(), disk, i);
      }
      return true;
    }

    /** The block number of file block fbn. */
    method Lookup(i: nat, fbn: nat) returns (x: nat)
      requires Sound() && i < |disk| && fbn < MAXFILE
      ensures InUse(Now(), sb, disk[i]) && x == Ref(Now(), disk[i], fbn)
    {
      assert InUse(Now(), sb, disk[i]);
      assert Ref(Now(), disk[i], MAXFILE) == disk[i].addrs[NDIRECT];
      if fbn < NDIRECT {
        return disk[i].addrs[fbn];
      }
      var ind := disk[i].addrs[NDIRECT];
      return if ind == 0 then 0 else Word(blocks[ind], fbn - NDIRECT);
    }

    /** A new block for slot k of the indirect block. */
    method TakeInIndirect(ind: nat, k: nat)
      requires Shaped() && ind < freeblock < sb.LogStart() && NDIRECT <= k < MAXFILE
      modifies this`blocks, this`freeblock
      ensures Shaped() && freeblock == old(freeblock) + 1
      ensures blocks == old(blocks)[ind := SetWord(old(blocks)[ind], k - NDIRECT, old(freeblock))]
    {
      Wsect(ind, SetWord(blocks[ind], k - NDIRECT, freeblock));
      TakeBlock();
    }

    /** The same, seen from the file. */
    method LinkInIndirect(i: nat, k: nat, ind: nat)
      requires Sound() && i < |disk| && NDIRECT <= k < MAXFILE && freeblock < sb.LogStart() && WellFormed(disk[i])
      requires Ref(Now(), disk[i], k) == 0 && ind == Ref(Now(), disk[i], MAXFILE) != 0
      modifies this`blocks, this`freeblock
      ensures Sound() && OneBlockMore(old(Now()), disk, Now(), disk, i) && Ref(Now(), disk[i], k) != 0
    {
      ghost var blocks0, n, now := blocks, freeblock, Now();
      IndirectBelow(blocks, sb, disk, i, freeblock, MAXFILE);
      TakeInIndirect(ind, k);
      NextInIndirect(blocks0, sb, disk, i, k, n, ind, blocks[ind], now, Now());
    }

    /** The block in slot k of the indirect block (mkfs.c:365-371). */
    method SlotInIndirect(i: nat, k: nat) returns (ok: bool)
      requires Sound() && i < |disk| && NDIRECT <= k < MAXFILE && Ref(Now(), disk[i], MAXFILE) != 0
      modifies this`blocks, this`freeblock
      ensures ok ==> Sound() && OneBlockMore(old(Now()), old(disk), Now(), disk, i) && Ref(Now(), disk[i], k) != 0
      ensures !ok ==> freeblock == sb.LogStart()
    {
      var x := Lookup(i, k);
      if x == 0 {
        if freeblock >= sb.LogStart() {
          return false;
        }
        LinkInIndirect(i, k, disk[i].addrs[NDIRECT]);
      } else {
        OwnedWellFormed(Now(), sb, disk);
        Unchanged(Now(), disk, i);
      }
      return true;
    }

    /** The block for file block fbn (mkfs.c:350-372). False: none is left below the log. */
    method FileBlock(i: nat, fbn: nat) returns (ok: bool)
      requires Sound() && i < |disk| && fbn < MAXFILE
      modifies this`blocks, this`disk, this`freeblock
      ensures ok ==> Sound() && OneBlockMore(old(Now()), old(disk), Now(), disk, i) && Ref(Now(), disk[i], fbn) != 0
      ensures !ok ==> freeblock == sb.LogStart()
    {
      if fbn < NDIRECT {
        ok := SlotInInode(i, fbn);
        return;
      }
      ok := SlotInInode(i, MAXFILE);
      if ok {
        ghost var now1, disk1 := Now(), disk;
        ok := SlotInIndirect(i, fbn);
        if ok {
          OnlyGrownTrans(old(Now()), old(disk), now1, disk1, Now(), disk, i);
        }
      }
    }

    /** One turn of iappend's loop: fill the block of byte o from p (mkfs.c:349-379). */
    method AppendChunk(i: nat, o: nat, p: seq<byte>) returns (r: Option<nat>)
      requires Sound() && i < |disk| && 0 < |p| && o + |p| <= MAXBYTES
      modifies this`blocks, this`disk, this`freeblock
      ensures r.Some? ==> Sound() && OnlyGrown(old(Now()), old(disk), Now(), disk, i)
      ensures r.Some? ==> 0 < r.value <= |p| && o % BSIZE + r.value <= BSIZE && Ref(Now(), disk[i], o / BSIZE) != 0
      ensures r.Some? ==> Data(Now(), disk[i]) == Splice(Data(old(Now()), old(disk)[i]), o, p[..r.value])
      ensures r.None? ==> freeblock == sb.LogStart()
    {
      var ok := FileBlock(i, o / BSIZE);
      if !ok {
        return None;
      }
      var n1 := if |p| < BSIZE - o % BSIZE then |p| else BSIZE - o % BSIZE;
      ghost var now1 := Now();
      var x := Lookup(i, o / BSIZE);
      NextBytes(blocks, sb, disk, i, o, p[..n1], freeblock, x);
      Wsect(x, Splice(blocks[x], o % BSIZE, p[..n1]));
      OnlyGrownTrans(old(Now()), old(disk), now1, disk, Now(), disk, i);
      return Some(n1);
    }

    ghost predicate Appending(b0: seq<Block>, i0: seq<Dinode>, i: nat, off: nat, p: seq<byte>, tot: nat)
      reads this
    {
      Sound() && WrittenData(b0, i0, Now(), disk, i, off, p, tot)
    }

    method AppendNext(ghost b0: seq<Block>, ghost i0: seq<Dinode>, i: nat, off: nat, p: seq<byte>, tot: nat)
      returns (x: Option<nat>)
      requires Appending(b0, i0, i, off, p, tot) && tot < |p|
      modifies this`blocks, this`disk, this`freeblock
      ensures x.Some? ==> tot < x.value && Appending(b0, i0, i, off, p, x.value)
      ensures x.None? ==> freeblock == sb.LogStart()
    {
      ghost var b1, i1 := Now(), disk;
      var m := AppendChunk(i, off + tot, p[tot..]);
      if m.None? {
        return None;
      }
      x := Some(tot + m.value);
      WrittenDataMore(b0, i0, b1, i1, Now(), disk, i, off, p, tot, m.value, off + tot, x.value);
    }

    /** The loop of iappend. */
    method AppendBytes(i: nat, off: nat, p: seq<byte>) returns (ok: bool)
      requires Sound() && i < |disk| && off + |p| <= MAXBYTES
      modifies this`blocks, this`disk, this`freeblock
      ensures ok ==> Appending(old(Now()), old(disk), i, off, p, |p|)
      ensures !ok ==> freeblock == sb.LogStart()
    {
      ghost var b0, i0 := Now(), disk;
      OwnedWellFormed(b0, sb, i0);
      Unchanged(b0, i0, i);
      assert p[..0] == [] && Splice(Data(b0, i0[i]), off, []) == Data(b0, i0[i]);
      var tot := 0;
      while tot < |p|
        invariant tot <= |p| && Appending(b0, i0, i, off, p, tot)
        decreases |p| - tot
      {
        var x := AppendNext(b0, i0, i, off, p, tot);
        if x.None? {
          return false;
        }
        tot := x.value;
      }
      return true;
    }

    /**
     Append to a file (mkfs.c:335-383). False: the file would grow beyond MAXFILE blocks, which the source asserts
     it does not, or no block is left below the log.
     */
    method Iappend(i: nat, p: seq<byte>) returns (ok: bool)
      requires Valid() && i < freeinode && i < |disk|
      modifies this`blocks, this`disk, this`freeblock
      ensures !ok ==> old(disk)[i].size + |p| > MAXBYTES || freeblock == sb.LogStart()
      ensures ok ==> Valid() && OthersSame(old(Now()), old(disk), Now(), disk, {i}) && WellFormed(old(disk)[i])
      ensures ok ==> WellFormed(disk[i]) && Content(Now(), disk[i]) == Content(old(Now()), old(disk)[i]) + p
      ensures ok ==> disk[i] == old(disk)[i].(size := old(disk)[i].size + |p|, addrs := disk[i].addrs)
    {
      var off := disk[i].size;
      if off + |p| > MAXBYTES {
        return false;
      }
      ok := AppendBytes(i, off, p);
      if ok {
        Appended(old(Now()), old(disk), Now(), disk, sb, i, off, p);
        disk := disk[i := disk[i].(size := off + |p|)];
      }
    }

    /** One turn of readi's loop (mkfs.c:403-406): the bytes of byte o's block, at most `want` of them. */
    method ReadChunk(i: nat, o: nat, want: nat) returns (r: seq<byte>)
      requires Valid() && i < |disk| && 0 < want && o + want <= disk[i].size
      ensures WellFormed(disk[i]) && 0 < |r| <= want && r == Data(Now(), disk[i])[o .. o + |r|]
    {
      var x := Lookup(i, o / BSIZE);
      var m := if want < BSIZE - o % BSIZE then want else BSIZE - o % BSIZE;
      assert (o / BSIZE) * BSIZE < disk[i].size;
      IndirectBelow(blocks, sb, disk, i, freeblock, o / BSIZE);
      DataInBlock(Now(), disk[i], o, m);
      return blocks[x][o % BSIZE .. o % BSIZE + m];
    }

    /** Read n bytes at off, which is not past the end (mkfs.c:386-409). */
    method Readi(i: nat, off: nat, n: nat) returns (dst: seq<byte>)
      requires Valid() && i < |disk| && off <= disk[i].size
      ensures WellFormed(disk[i]) && off <= ReadEnd(disk[i], off, n)
      ensures dst == Content(Now(), disk[i])[off .. ReadEnd(disk[i], off, n)]
      ensures ReadsFully(Content(Now(), disk[i]), off, n, dst)
    {
      assert InUse(Now(), sb, disk[i]);
      var end := if off + n > disk[i].size then disk[i].size else off + n;
      dst := [];
      ghost var data := Data(Now(), disk[i]);
      while off + |dst| < end
        invariant off + |dst| <= end && dst == data[off .. off + |dst|]
        decreases end - |dst|
      {
        var r := ReadChunk(i, off + |dst|, end - (off + |dst|));
        SliceConcat(data, off, off + |dst|, off + |dst| + |r|);
        dst := dst + r;
      }
      assert off + |dst| == end && data[..disk[i].size][off..end] == data[off..end];
    }

    /** The checksum of a file, 2048 bytes at a time (mkfs.c:429-451). */
    method Ichecksum(i: nat) returns (c: bv32)
      requires Valid() && i < |disk|
      ensures WellFormed(disk[i]) && c == Sum(Content(Now(), disk[i]))
    {
      assert InUse(Now(), sb, disk[i]);
      ghost var file := Content(Now(), disk[i]);
      c := 0;
      var off := 0;
      while true
        invariant Summed(file, off, c)
        decreases |file| - off
      {
        var buf := Readi(i, off, 2048);
        if buf == [] {
          break;
        }
        ghost var end := ReadEnd(disk[i], off, 2048);
        c := XorChunk(buf, 512, c, file, off, end);
        SummedMore(file, off, end, c);
        off := off + |buf|;
      }
      assert file[..off] == file;
    }

    /** Put d, which has the blocks of inode i, in its place (winode). */
    method Winode(i: nat, d: Dinode)
      requires Valid() && i < freeinode && i < |disk| && WellFormed(disk[i]) && WellFormed(d)
      requires d.addrs == disk[i].addrs && d.size == disk[i].size
      modifies this`disk
      ensures Valid() && disk == old(disk)[i := d] && Content(Now(), d) == Content(Now(), old(disk)[i])
    {
      SameAddresses(Now(), sb, disk, i, d);
      NoHolesSame(Now(), disk[i], d);
      disk := disk[i := d];
    }

    /** Record the checksum of a finished file (mkfs.c:180-187). */
    method Stamp(i: nat)
      requires Valid() && i < freeinode && i < |disk| && !disk[i].kind.Dev?
      modifies this`disk
      ensures Valid() && WellFormed(disk[i]) && Good(Now(), disk[i])
      ensures disk == old(disk)[i := old(disk)[i].(checksum := disk[i].checksum)] && WellFormed(old(disk)[i])
      ensures Content(Now(), disk[i]) == Content(Now(), old(disk)[i])
    {
      var c := Ichecksum(i);
      Winode(i, disk[i].(checksum := c));
    }

    /** The first off bytes of src, as it was in (b0, i0), have been appended to dst, which was empty. */
    ghost predicate CopyingTo(b0: seq<Block>, i0: seq<Dinode>, src: nat, dst: nat, off: nat)
      reads this
    {
      && Valid() && src < |i0| == |disk| && dst < |i0| && src != dst && WellFormed(i0[src]) && WellFormed(disk[dst])
      && off <= i0[src].size && OthersSame(b0, i0, Now(), disk, {dst})
      && Content(Now(), disk[dst]) == Content(b0, i0[src])[..off] && disk[dst].size == off
      && disk[dst] == i0[dst].(size := off, addrs := disk[dst].addrs)
    }

    /** One turn of copy_dinode_content's loop (mkfs.c:463-464). */
    method CopyNext(src: nat, dst: nat, off: nat, ghost b0: seq<Block>, ghost i0: seq<Dinode>)
      returns (ok: bool, x: nat)
      requires CopyingTo(b0, i0, src, dst, off) && dst < freeinode
      modifies this`blocks, this`disk, this`freeblock
      ensures ok ==> CopyingTo(b0, i0, src, dst, x) && off <= x && (x == off ==> off == i0[src].size)
      ensures !ok ==> freeblock == sb.LogStart()
    {
      ghost var now1, disk1, file := Now(), disk, Content(b0, i0[src]);
      SameContent(b0, now1, i0[src]);
      var buf := Readi(src, off, 512);
      ok := Iappend(dst, buf);
      x := off + |buf|;
      if ok {
        OthersSameTrans(b0, i0, now1, disk1, Now(), disk, {dst});
        PrefixMore(file, off, x, buf);
      }
    }

    /** Append the content of src to dst, which is empty (mkfs.c:453-467). */
    method CopyContent(src: nat, dst: nat) returns (ok: bool)
      requires Valid() && src < |disk| && dst < |disk| && dst < freeinode && src != dst && Empty(disk[dst])
      modifies this`blocks, this`disk, this`freeblock
      ensures ok ==> CopyingTo(old(Now()), old(disk), src, dst, old(disk)[src].size)
      ensures !ok ==> freeblock == sb.LogStart()
    {
      ghost var b0, i0 := Now(), disk;
      OwnedWellFormed(b0, sb, i0);
      var off := 0;
      while true
        invariant CopyingTo(b0, i0, src, dst, off)
        decreases i0[src].size - off
      {
        var x;
        ok, x := CopyNext(src, dst, off, b0, i0);
        if !ok {
          return;
        }
        if x == off {
          break;
        }
        off := x;
      }
      return true;
    }

    /**
     The root directory's size goes up to the end of its last block (mkfs.c:192-200). A size that is a multiple of BSIZE
     already goes up by a whole block, which the file does not have: that leaves a hole.
     */
    method RoundSize(i: nat)
      requires Valid() && i < freeinode && i < |disk| && disk[i].size < MAXBYTES
      modifies this`disk
      ensures Sound() && WellFormed(old(disk)[i]) && WellFormed(disk[i])
      ensures disk == old(disk)[i := old(disk)[i].(size := (old(disk)[i].size / BSIZE + 1) * BSIZE)]
      ensures Content(Now(), disk[i])[..old(disk)[i].size] == Content(Now(), old(disk)[i])
      ensures NoHoles(Now(), disk[i]) <==>
        old(disk)[i].size % BSIZE != 0 || Ref(Now(), old(disk)[i], old(disk)[i].size / BSIZE) != 0
    {
      OwnedWellFormed(Now(), sb, disk);
      var off := disk[i].size;
      var d := disk[i].(size := (off / BSIZE + 1) * BSIZE);
      SameAddresses(Now(), sb, disk, i, d);
      RoundedHoles(Now(), disk[i], d);
      disk := disk[i := d];
    }

    /** One ditto for inode i (mkfs.c:206-213): its content, then its checksum and size. */
    method AddDitto(i: nat) returns (r: Option<nat>)
      requires Valid() && i < freeinode && i < |disk|
      modifies this`blocks, this`disk, this`freeblock, this`freeinode
      ensures r.None? ==> freeinode >= sb.ninodes || freeblock == sb.LogStart()
      ensures r.Some? ==>
        Valid() && old(freeinode) == r.value < |disk| && r.value < freeinode && old(disk)[r.value].kind.Free?
      ensures r.Some? ==> DittoOf(old(Now()), old(disk), Now(), disk, i, r.value)
    {
      ghost var b0, i0 := Now(), disk;
      OwnedWellFormed(b0, sb, i0);
      r := Ialloc(Kind.Ditto);
      if r.None? {
        return;
      }
      var c := r.value;
      ghost var i1 := disk;
      var ok := CopyContent(i, c);
      if !ok {
        return None;
      }
      SameContent(b0, Now(), i1[i]);
      Winode(c, disk[c].(checksum := disk[i].checksum));
    }

    /** The dittos of an inode that has its checksum, and their numbers in it (mkfs.c:202-225). */
    method Mirror(i: nat) returns (ok: bool)
      requires Valid() && 0 < i < freeinode && i < |disk| && WellFormed(disk[i]) && Good(Now(), disk[i])
      requires disk[i].child1 == 0 && disk[i].child2 == 0 && !disk[i].kind.Ditto? && !disk[i].kind.Dev?
      modifies this`blocks, this`disk, this`freeblock, this`freeinode
      ensures ok ==> Valid() && MirrorOk(Now(), disk, i) && disk[i].child1 != 0 && disk[i].child2 != 0
      ensures ok ==> Content(Now(), disk[i]) == Content(old(Now()), old(disk)[i])
      ensures !ok ==> freeinode >= sb.ninodes || freeblock == sb.LogStart()
    {
      ghost var b0, i0 := Now(), disk;
      var c1 := AddDitto(i);
      if c1.None? {
        return false;
      }
      ghost var b1, i1 := Now(), disk;
      var c2 := AddDitto(i);
      if c2.None? {
        return false;
      }
      BothDittos(b0, i0, b1, i1, Now(), disk, i, c1.value, c2.value);
      ghost var i2 := disk;
      Winode(i, disk[i].(child1 := c1.value, child2 := c2.value));
      Mirrors(b0, i0, Now(), i2, disk, i, c1.value, c2.value);
      return true;
    }

    /** The bitmap (mkfs.c:317-332). */
    method Balloc()
      requires Valid()
      modifies this`blocks
      ensures Valid() && blocks == old(Now()) == Now()
    {
      var buf := ZeroBlock();
      for i := 0 to freeblock
        invariant buf == Bits(i)
      {
        buf := SetBit(buf, i);
      }
      blocks := blocks[sb.BitmapBlock(0) := buf];
      assert Marked(blocks, sb, freeblock) == blocks;
    }

    /** The root directory gets its final size, a checksum and two dittos, and the image its bitmap
        (mkfs.c:192-230). With a hole mkfs goes on; the model stops there. */
    method Finish(i: nat) returns (r: Finished)
      requires Valid() && 0 < i < freeinode && i < |disk| && disk[i].size < MAXBYTES
      requires disk[i].child1 == 0 && disk[i].child2 == 0 && !disk[i].kind.Ditto? && !disk[i].kind.Dev?
      modifies this`blocks, this`disk, this`freeblock, this`freeinode
      ensures WellFormed(old(disk)[i])
      ensures r.Holed? <==>
        old(disk)[i].size % BSIZE == 0 && Ref(old(Now()), old(disk)[i], old(disk)[i].size / BSIZE) == 0
      ensures r.Mirrored? ==> Valid() && blocks == Now() && MirrorOk(blocks, disk, i) && Good(blocks, disk[i])
      ensures r.Mirrored? ==> disk[i].child1 != 0 && disk[i].child2 != 0
      ensures r.Mirrored? ==> disk[i].size == (old(disk)[i].size / BSIZE + 1) * BSIZE
      ensures r.Mirrored? ==> Content(blocks, disk[i])[..old(disk)[i].size] == Content(old(Now()), old(disk)[i])
      ensures r.Full? ==> freeinode >= sb.ninodes || freeblock == sb.LogStart()
    {
      OwnedWellFormed(Now(), sb, disk);
      var off := disk[i].size;
      var last := Lookup(i, off / BSIZE);
      RoundSize(i);
      if off % BSIZE == 0 && last == 0 {
        return Holed;
      }
      Stamp(i);
      var ok := Mirror(i);
      if !ok {
        return Full;
      }
      Balloc();
      return Mirrored;
    }

    /** The kernel's view of the finished image: everything on disk, nothing in memory, no transaction open. */
    method Mount() returns (l: InodeLayer)
      requires Valid() && blocks == Now()
      ensures fresh(l) && fresh(l.fs) && l.Valid() && l.fs.Idle() && l.fs.blocks == blocks &&
        l.fs.disk == l.fs.ino == disk
      ensures l.fs.sb == sb && l.valid == l.busy == seq(|disk|, _ => false)
    {
      OwnedWellFormed(blocks, sb, disk);
      ghost var image := ImageOf(blocks, disk, sb, |disk|);
      var fs := new Fs(sb, blocks, disk, disk, image);
      forall c | 0 <= c < sb.DataStart() ensures Used(blocks, sb, c) {
        MarkedUsed(blocks, sb, freeblock, c);
      }
      l := new InodeLayer(fs);
    }
  }

  lemma PrefixMore(file: seq<byte>, off: nat, x: nat, buf: seq<byte>)
    requires off <= x <= |file| && buf == file[off..x]
    ensures file[..off] + buf == file[..x]
  {
  }

  lemma RoundedHoles(b: seq<Block>, d: Dinode, e: Dinode)
    requires WellFormed(d) && d.size < MAXBYTES && NoHoles(b, d) && e == d.(size := (d.size / BSIZE + 1) * BSIZE)
    ensures WellFormed(e) && (NoHoles(b, e) <==> d.size % BSIZE != 0 || Ref(b, d, d.size / BSIZE) != 0)
  {
    var k := d.size / BSIZE;
    assert forall l :: 0 <= l <= MAXFILE ==> Ref(b, e, l) == Ref(b, d, l);
    assert k * BSIZE < e.size && k < MAXFILE;
    if d.size % BSIZE != 0 {
      assert k * BSIZE < d.size;
    }
    if d.size % BSIZE != 0 || Ref(b, d, k) != 0 {
      forall l | 0 <= l < MAXFILE && l * BSIZE < e.size ensures Ref(b, e, l) != 0 {
        assert l < k ==> l * BSIZE < d.size;
      }
    }
  }

  /** For example a directory of one full block. */
  lemma FullBlockHole(b: seq<Block>)
    ensures var d := NewDinode(Kind.Dir).(size := BSIZE, addrs := NewDinode(Kind.Dir).addrs[0 := 29]);
      WellFormed(d) && NoHoles(b, d) && WellFormed(d.(size := 2 * BSIZE)) && !NoHoles(b, d.(size := 2 * BSIZE))
  {
    var d := NewDinode(Kind.Dir).(size := BSIZE, addrs := NewDinode(Kind.Dir).addrs[0 := 29]);
    RoundedHoles(b, d, d.(size := 2 * BSIZE));
  }

  /** Inode c is a ditto of i with the size and the checksum of d and these bytes. */
  predicate CopyOf(b: seq<Block>, ino: seq<Dinode>, i: nat, c: nat, d: Dinode, file: seq<byte>) {
    && IsDitto(ino, i, c) && WellFormed(ino[c]) && ino[c].size == d.size && ino[c].checksum == d.checksum
    && Content(b, ino[c]) == file
  }

  /** Inode c, new in ino, is a ditto of inode i; nothing else has changed. */
  predicate DittoOf(b0: seq<Block>, i0: seq<Dinode>, b: seq<Block>, ino: seq<Dinode>, i: nat, c: nat) {
    && i < |i0| == |ino| && OthersSame(b0, i0, b, ino, {c}) && WellFormed(i0[i]) && c != i
    && CopyOf(b, ino, i, c, i0[i], Content(b0, i0[i]))
  }

  lemma BothDittos(b0: seq<Block>, i0: seq<Dinode>, b1: seq<Block>, i1: seq<Dinode>, b2: seq<Block>, i2: seq<Dinode>,
                   i: nat, c1: nat, c2: nat)
    requires DittoOf(b0, i0, b1, i1, i, c1) && DittoOf(b1, i1, b2, i2, i, c2) && c1 != c2
    ensures i < |i2| && i2[i] == i0[i] && WellFormed(i0[i]) && Content(b2, i2[i]) == Content(b0, i0[i])
    ensures CopyOf(b2, i2, i, c1, i0[i], Content(b0, i0[i])) && CopyOf(b2, i2, i, c2, i0[i], Content(b0, i0[i]))
  {
    SameContent(b0, b1, i0[i]);
    SameContent(b1, b2, i1[i]);
    SameContent(b1, b2, i1[c1]);
  }

  lemma Mirrors(b0: seq<Block>, i0: seq<Dinode>, b: seq<Block>, i2: seq<Dinode>, ino: seq<Dinode>, i: nat, c1: nat,
                c2: nat)
    requires i < |i0| && i < |i2| && WellFormed(i0[i]) && i2[i] == i0[i] && Content(b, i2[i]) == Content(b0, i0[i])
    requires CopyOf(b, i2, i, c1, i0[i], Content(b0, i0[i])) && CopyOf(b, i2, i, c2, i0[i], Content(b0, i0[i]))
    requires ino == i2[i := i2[i].(child1 := c1, child2 := c2)] && Good(b0, i0[i]) && !i0[i].kind.Dev? && c1 != c2
    ensures MirrorOk(b, ino, i) && Content(b, ino[i]) == Content(b0, i0[i])
  {
    DataByAddrs(b, ino[i], i2[i]);
    assert Content(b, ino[i]) == Content(b0, i0[i]);
    assert ino[c1] == i2[c1] && ino[c2] == i2[c2];
  }

  /** An image whose inode blocks hold the first n dinodes. */
  lemma {:induction false} ImageOf(blocks: seq<Block>, disk: seq<Dinode>, sb: Superblock, n: nat)
      returns (image: seq<Block>)
    requires sb.Sane() && |blocks| == sb.size && n <= |disk| <= sb.ninodes && forall j :: 0 <= j < n ==>
      WellFormed(disk[j])
    ensures Reflects(image, blocks, sb) && forall j :: 0 <= j < n ==> RecordIs(image, j, disk[j])
  {
    image := blocks;
    if n > 0 {
      var i := n - 1;
      var s := i / IPB + 2;
      var before := ImageOf(blocks, disk, sb, i);
      var w := Encoding(disk[i]);
      assert i / IPB <= sb.ninodes / IPB;
      image := before[s := Splice(before[s], Slot(i), w)];
      forall r | 0 <= r < |blocks| && !HoldsInodes(sb, r) ensures SameSector(image, blocks, r) {
        assert SameSector(before, blocks, r);
      }
      forall j | 0 <= j < n ensures RecordIs(image, j, disk[j]) {
        StoreDinode(before, i, w, disk[i], j, disk[j]);
      }
    }
  }

  /** A file that has been written from its end on, and gets its new size. */
  lemma Appended(b0: seq<Block>, i0: seq<Dinode>, b: seq<Block>, ino: seq<Dinode>, sb: Superblock, i: nat, off: nat,
                 p: seq<byte>)
    requires WrittenData(b0, i0, b, ino, i, off, p, |p|) && Owned(b, sb, ino) && off == i0[i].size
    requires forall j :: 0 <= j < |i0| ==> WellFormed(i0[j]) && NoHoles(b0, i0[j])
    ensures var ino' := ino[i := ino[i].(size := off + |p|)];
      && Owned(b, sb, ino') && OthersSame(b0, i0, b, ino', {i}) && WellFormed(ino'[i])
      && Content(b, ino'[i]) == Content(b0, i0[i]) + p
      && forall j :: 0 <= j < |ino'| ==> NoHoles(b, ino'[j])
  {
    var d := ino[i].(size := off + |p|);
    assert InUse(b, sb, ino[i]);
    SameAddresses(b, sb, ino, i, d);
    assert p[..|p|] == p;
    OverwrittenData(Data(b0, i0[i]), off, off, p);
    forall j | 0 <= j < |ino| && j != i ensures NoHoles(b, ino[j]) {
      SameContent(b0, b, i0[j]);
    }
    forall l | 0 <= l < MAXFILE && l * BSIZE < d.size ensures Ref(b, d, l) != 0 {
      AppendedBlock(b0, i0[i], b, ino[i], off, off + |p|, l);
      assert Ref(b, d, l) == Ref(b, ino[i], l);
    }
  }

  lemma AppendedBlock(b0: seq<Block>, d0: Dinode, b: seq<Block>, d: Dinode, off: nat, end: nat, l: nat)
    requires Grown(b0, d0, b, d) && NoHoles(b0, d0) && d0.size == off <= end <= MAXBYTES && Present(b, d, off, end)
    requires l < MAXFILE && l * BSIZE < end
    ensures Ref(b, d, l) != 0
  {
    if l * BSIZE < off {
      assert Ref(b0, d0, l) != 0;
    } else {
      assert Ref(b, d, (l * BSIZE) / BSIZE) != 0;
    }
  }
}
