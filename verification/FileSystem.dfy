/** The block allocator, the block map and byte-level file access of fs.c. */
module FileSystem {
  import opened Bytes
  import opened Bitmap
  import opened Blocks
  import opened Dinodes
  import opened Transactions
  import opened Wrappers

  class Fs {
    const sb: Superblock
    var blocks: seq<Block>           // every sector but the inode blocks, as seen through the log and the cache
    var disk: seq<Dinode>            // the inode blocks, by inode number
    var ino: seq<Dinode>             // the inodes in memory, by inode number
    ghost var txn: Txn               // the open transaction
    ghost var base: seq<Block>       // the disk when it began
    ghost var past: seq<Ops>         // the transactions committed before
    ghost var open: bool             // log.busy: a transaction is open

    constructor (sb: Superblock, blocks: seq<Block>, disk: seq<Dinode>, ino: seq<Dinode>, ghost image: seq<Block>)
      ensures this.sb == sb && this.blocks == blocks && this.disk == disk && this.ino == ino
      ensures txn == Txn([], {}, {}, image) && base == image && past == [] && !open
    {
      this.sb, this.blocks, this.disk, this.ino := sb, blocks, disk, ino;
      txn, base, past, open := Txn([], {}, {}, image), image, [], false;
    }

    ghost predicate Shaped()
      reads this
    {
      sb.Sane() && |blocks| == sb.size && Consistent(base, txn) && Reflects(txn.image, blocks, sb)
    }

    /** bread, modify, log_write, brelse. */
    method LogWrite(s: nat, data: Block)
      requires Shaped() && s < sb.size
      modifies this`blocks, this`txn
      ensures Shaped() && blocks == old(blocks)[s := data] && txn == Put(old(txn), s, data)
    {
      PutConsistent(base, txn, s, data);
      PutReflects(txn, blocks, sb, s, data);
      blocks := blocks[s := data];
      txn := Put(txn, s, data);
    }

    /** No transaction is open. */
    ghost predicate Idle()
      reads this
    {
      !open && txn == Txn([], {}, {}, base)
    }

    /** A transaction is open, and has logged nothing yet. */
    ghost predicate Begun()
      reads this
    {
      open && txn == Txn([], {}, {}, base)
    }

    /** begin_trans, when no transaction is open. */
    ghost method BeginTrans()
      requires Shaped() && Idle()
      modifies this`open
      ensures Shaped() && Begun() && (old(Valid()) ==> Valid())
    {
      open := true;
    }

    /** commit_trans: what the transaction wrote is the disk from now on. */
    ghost method CommitTrans()
      requires Shaped() && open
      modifies this`txn, this`base, this`past, this`open
      ensures Shaped() && past == old(past) + [old(txn).ops] && base == old(txn).image && Idle()
      ensures old(Valid()) ==> Valid()
    {
      past, base := past + [txn.ops], txn.image;
      txn, open := Txn([], {}, {}, base), false;
    }

    /** commit_trans with nothing logged, which writes nothing (log.c:144). */
    ghost method CommitNothing()
      requires Shaped() && Begun()
      modifies this`open
      ensures Shaped() && Idle() && (old(Valid()) ==> Valid())
    {
      open := false;
    }

    /** The inner loop of balloc: the first clear bit of the bitmap block for blocks b, b+1, ... (fs.c:63-65). */
    method FindClear(b: nat) returns (bi: nat)
      requires Shaped() && b % BPB == 0 && b < sb.size
      ensures bi <= BPB && b + bi <= sb.size
      ensures forall c :: b <= c < b + bi ==> Used(blocks, sb, c)
      ensures bi < BPB && b + bi < sb.size ==> !Used(blocks, sb, b + bi)
    {
      bi := 0;
      while bi < BPB && b + bi < sb.size
        invariant bi <= BPB && b + bi <= sb.size
        invariant forall c :: b <= c < b + bi ==> Used(blocks, sb, c)
      {
        InBitmapBlock(b, bi);
        if !BitAt(blocks[sb.BitmapBlock(b)], bi) {
          return;
        }
        bi := bi + 1;
      }
    }

    /** Mark block b + bi in use and zero it (fs.c:66-70). */
    method Claim(b: nat, bi: nat)
      requires Shaped() && b % BPB == 0 && bi < BPB && b + bi < sb.size
      modifies this`blocks, this`txn
      ensures Shaped() && blocks == Allocated(old(blocks), sb, b + bi)
      ensures txn == AllocTxn(old(txn), old(blocks), sb, b + bi)
    {
      InBitmapBlock(b, bi);
      var m := sb.BitmapBlock(b);
      LogWrite(m, SetBit(blocks[m], bi));
      LogWrite(b + bi, ZeroBlock());
    }

    /** Allocate a zeroed block: the lowest one whose bit is clear (fs.c:52-76). */
    method Balloc() returns (r: Option<nat>)
      requires Shaped()
      modifies this`blocks, this`txn
      ensures Shaped()
      ensures r.Some? ==> r.value < sb.size && !Used(old(blocks), sb, r.value)
      ensures r.Some? ==> forall c :: 0 <= c < r.value ==> Used(old(blocks), sb, c)
      ensures r.Some? ==> blocks == Allocated(old(blocks), sb, r.value)
      ensures r.Some? ==> txn == AllocTxn(old(txn), old(blocks), sb, r.value)
      ensures r.None? ==> blocks == old(blocks) && forall c :: 0 <= c < sb.size ==> Used(blocks, sb, c)
    {
      var b := 0;
      while b < sb.size
        invariant Shaped() && b % BPB == 0 && blocks == old(blocks) && txn == old(txn)
        invariant forall c :: 0 <= c < b && c < sb.size ==> Used(blocks, sb, c)
      {
        var bi := FindClear(b);
        if bi < BPB && b + bi < sb.size {
          Claim(b, bi);
          return Some(b + bi);
        }
        NextGroup(b);
        b := b + BPB;
      }
      return None;
    }

    ghost predicate Valid()
      reads this
    {
      Shaped() && Owned(blocks, sb, ino) && MetadataUsed(blocks, sb) && OnRecord(txn, disk, sb)
    }

    /** bread the inode block, fill in the dinode, log_write, brelse. */
    method WriteDinode(i: nat, d: Dinode)
      requires Valid() && i < |disk| && WellFormed(d)
      modifies this`disk, this`txn
      ensures Valid() && disk == old(disk)[i := d]
      ensures txn.logged == old(txn).logged + {sb.InodeBlock(i)} && txn.earlier == old(txn).logged
    {
      ghost var s := sb.InodeBlock(i);
      ghost var w := Encoding(d);
      ghost var data := Splice(txn.image[s], Slot(i), w);
      PutDinode(txn, disk, sb, i, d, w);
      PutDinodeReflects(txn, blocks, sb, s, data);
      PutConsistent(base, txn, s, data);
      disk := disk[i := d];
      txn := Put(txn, s, data);
    }

    /** No data block is left: the only way for a run to end. */
    ghost predicate OutOfBlocks()
      reads this
    {
      Shaped() && NoFreeData(blocks, sb)
    }

    /**
     balloc where its callers need it: a data block. None stands for the end of the
     run: the panic "out of blocks", or a block of the log area handed out as if free.
     */
    method AllocData() returns (r: Option<nat>)
      requires Shaped() && MetadataUsed(blocks, sb) && OnRecord(txn, disk, sb)
      modifies this`blocks, this`txn
      ensures Shaped() && MetadataUsed(blocks, sb) && (r.Some? ==> OnRecord(txn, disk, sb))
      ensures r.Some? ==> sb.IsData(r.value) && !Used(old(blocks), sb, r.value)
      ensures r.Some? ==> blocks == Allocated(old(blocks), sb, r.value)
      ensures r.Some? ==> txn.logged == old(txn).logged + {sb.BitmapBlock(r.value), r.value}
      ensures r.None? ==> OutOfBlocks()
    {
      r := Balloc();
      if r.Some? {
        AllocatedMetadata(old(blocks), sb, r.value);
        if !sb.IsData(r.value) {
          r := None;
        } else {
          AllocRecorded(old(txn), old(blocks), disk, sb, r.value);
        }
      }
    }

    /** The block in slot k of the inode itself, allocated if it is missing (fs.c:594-595, fs.c:602-603). */
    method SlotInInode(i: nat, k: nat) returns (r: Option<nat>)
      requires Valid() && i < |ino| && (k < NDIRECT || k == MAXFILE)
      modifies this`blocks, this`ino, this`txn
      ensures r.Some? ==> Valid() && OneBlockMore(old(blocks), old(ino), blocks, ino, i)
      ensures r.Some? ==> r.value == Ref(blocks, ino[i], k) != 0
      ensures Ref(old(blocks), old(ino)[i], k) != 0 ==>
        r.Some? && blocks == old(blocks) && ino == old(ino) && txn == old(txn)
      ensures r.Some? && Ref(old(blocks), old(ino)[i], k) == 0 ==> !Used(old(blocks), sb, r.value)
      ensures r.Some? && Ref(old(blocks), old(ino)[i], k) == 0 ==>
        txn.logged == old(txn).logged + {sb.BitmapBlock(r.value), r.value}
      ensures r.Some? ==>
        forall l :: 0 <= l <= MAXFILE && l != k ==> Ref(blocks, ino[i], l) == Ref(old(blocks), old(ino)[i], l)
      ensures r.Some? ==> forall c :: 0 <= c < sb.size && Used(old(blocks), sb, c) ==> Used(blocks, sb, c)
      ensures r.None? ==> OutOfBlocks()
    {
      var slot := if k < NDIRECT then k else NDIRECT;
      var addr := ino[i].addrs[slot];
      if addr == 0 {
        r := AllocData();
        if r.None? {
          return;
        }
        AllocInInode(old(blocks), sb, ino, i, k, r.value);
        forall c | 0 <= c < sb.size && Used(old(blocks), sb, c) ensures Used(blocks, sb, c) {
          AllocatedUsed(old(blocks), sb, r.value, c);
        }
        ino := ino[i := ino[i].(addrs := ino[i].addrs[slot := r.value])];
        return;
      }
      Unchanged(blocks, ino, i);
      return Some(addr);
    }

    /** The block in slot k of the indirect block, allocated if it is missing (fs.c:604-611). */
    method SlotInIndirect(i: nat, k: nat) returns (r: Option<nat>)
      requires Valid() && i < |ino| && NDIRECT <= k < MAXFILE && Ref(blocks, ino[i], MAXFILE) != 0
      modifies this`blocks, this`ino, this`txn
      ensures r.Some? ==> Valid() && OneBlockMore(old(blocks), old(ino), blocks, ino, i)
      ensures r.Some? ==> r.value == Ref(blocks, ino[i], k) != 0
      ensures Ref(old(blocks), old(ino)[i], k) != 0 ==>
        r.Some? && blocks == old(blocks) && ino == old(ino) && txn == old(txn)
      ensures r.Some? && Ref(old(blocks), old(ino)[i], k) == 0 ==> !Used(old(blocks), sb, r.value)
      ensures r.Some? && Ref(old(blocks), old(ino)[i], k) == 0 ==>
        txn.logged == old(txn).logged + {sb.BitmapBlock(r.value), r.value, Ref(blocks, ino[i], MAXFILE)}
      ensures r.Some? ==> OtherSlots(old(blocks), old(ino)[i], blocks, ino[i], k)
      ensures r.None? ==> OutOfBlocks()
    {
      var ind := ino[i].addrs[NDIRECT];
      assert InUse(blocks, sb, ino[i]) && ind == Ref(blocks, ino[i], MAXFILE);
      var addr := Word(blocks[ind], k - NDIRECT);
      if addr == 0 {
        r := AllocData();
        if r.None? {
          return;
        }
        AllocInIndirect(old(blocks), sb, ino, i, k, r.value);
        DataKeepsMetadata(blocks, sb, ind, SetWord(blocks[ind], k - NDIRECT, r.value));
        PutRecorded(txn, disk, sb, ind, SetWord(blocks[ind], k - NDIRECT, r.value));
        LogWrite(ind, SetWord(blocks[ind], k - NDIRECT, r.value));
        return;
      }
      Unchanged(blocks, ino, i);
      return Some(addr);
    }

    /** The block number of file block bn, allocating what is missing (fs.c:587-615). None: the run ends. */
    method Bmap(i: nat, bn: nat) returns (r: Option<nat>)
      requires Valid() && i < |ino| && bn < MAXFILE
      modifies this`blocks, this`ino, this`txn
      ensures r.Some? ==> Valid() && OneBlockMore(old(blocks), old(ino), blocks, ino, i)
      ensures r.Some? ==> r.value == Ref(blocks, ino[i], bn) != 0
      ensures Ref(old(blocks), old(ino)[i], bn) != 0 ==>
        r.Some? && blocks == old(blocks) && ino == old(ino) && txn == old(txn)
      ensures r.Some? && Ref(old(blocks), old(ino)[i], bn) == 0 ==> !Used(old(blocks), sb, r.value)
      ensures r.Some? ==> OtherSlots(old(blocks), old(ino)[i], blocks, ino[i], bn)
      ensures r.Some? ==>
        txn.logged == old(txn).logged + AllocLogs(old(blocks), old(ino)[i], blocks, sb, ino[i], bn)
      ensures r.None? ==> OutOfBlocks()
    {
      if bn < NDIRECT {
        r := SlotInInode(i, bn);
      } else {
        r := SlotThroughIndirect(i, bn);
      }
    }

    /** The same for a block listed in the indirect block (fs.c:600-612). */
    method SlotThroughIndirect(i: nat, bn: nat) returns (r: Option<nat>)
      requires Valid() && i < |ino| && NDIRECT <= bn < MAXFILE
      modifies this`blocks, this`ino, this`txn
      ensures r.Some? ==> Valid() && OneBlockMore(old(blocks), old(ino), blocks, ino, i)
      ensures r.Some? ==> r.value == Ref(blocks, ino[i], bn) != 0
      ensures Ref(old(blocks), old(ino)[i], bn) != 0 ==>
        r.Some? && blocks == old(blocks) && ino == old(ino) && txn == old(txn)
      ensures r.Some? && Ref(old(blocks), old(ino)[i], bn) == 0 ==> !Used(old(blocks), sb, r.value)
      ensures r.Some? ==> OtherSlots(old(blocks), old(ino)[i], blocks, ino[i], bn)
      ensures r.Some? ==>
        txn.logged == old(txn).logged + AllocLogs(old(blocks), old(ino)[i], blocks, sb, ino[i], bn)
      ensures r.None? ==> OutOfBlocks()
    {
      r := SlotInInode(i, MAXFILE);
      if r.None? {
        return;
      }
      ghost var blocks1, ino1 := blocks, ino;
      r := SlotInIndirect(i, bn);
      if r.Some? {
        OnlyGrownTrans(old(blocks), old(ino), blocks1, ino1, blocks, ino, i);
      }
    }

    /** Free a block; false is the panic "freeing free block" (fs.c:79-95). */
    method Bfree(b: nat) returns (ok: bool)
      requires Shaped() && b < sb.size
      modifies this`blocks, this`txn
      ensures Shaped() && ok == Used(old(blocks), sb, b)
      ensures ok ==> blocks == Freed(old(blocks), sb, b) && txn.logged == old(txn).logged + {sb.BitmapBlock(b)}
      ensures !ok ==> blocks == old(blocks)
      ensures OnRecord(old(txn), disk, sb) ==> OnRecord(txn, disk, sb)
    {
      var m := sb.BitmapBlock(b);
      if !BitAt(blocks[m], b % BPB) {
        return false;
      }
      if OnRecord(txn, disk, sb) {
        PutRecorded(txn, disk, sb, m, ClearBit(blocks[m], b % BPB));
      }
      LogWrite(m, ClearBit(blocks[m], b % BPB));
      return true;
    }

    /** Free the direct blocks and clear their addresses (fs.c:629-634). */
    method FreeDirect(i: nat) returns (ok: bool)
      requires Valid() && i < |ino|
      modifies this`blocks, this`ino, this`txn
      ensures ok && Shaped() && OnRecord(txn, disk, sb) && |ino| == |old(ino)| &&
        FreedUpTo(old(blocks), blocks, sb, old(ino)[i], NDIRECT)
      ensures ino == old(ino)[i := old(ino)[i].(addrs := ino[i].addrs)] && |ino[i].addrs| == NDIRECT + 1
      ensures ino[i].addrs[NDIRECT] == old(ino)[i].addrs[NDIRECT] && forall k :: 0 <= k < NDIRECT ==>
        ino[i].addrs[k] == 0
    {
      ghost var d := ino[i];
      ok := true;
      assert InUse(blocks, sb, d);
      for n := 0 to NDIRECT
        invariant ok && Shaped() && OnRecord(txn, disk, sb) && |ino| == |old(ino)| &&
          FreedUpTo(old(blocks), blocks, sb, d, n)
        invariant ino == old(ino)[i := d.(addrs := ino[i].addrs)] && |ino[i].addrs| == NDIRECT + 1
        invariant forall k :: 0 <= k <= NDIRECT ==> ino[i].addrs[k] == if k < n then 0 else d.addrs[k]
      {
        assert Ref(old(blocks), d, n) == d.addrs[n];
        if ino[i].addrs[n] != 0 {
          FreeNext(old(blocks), blocks, sb, old(ino), i, n);
          ok := Bfree(ino[i].addrs[n]);
          ino := ino[i := ino[i].(addrs := ino[i].addrs[n := 0])];
        } else {
          FreeNone(old(blocks), blocks, sb, d, n);
        }
      }
    }

    /** Free the block in slot n, if there is one (fs.c:639-641). */
    method FreeSlot(ghost blocks0: seq<Block>, ghost ino0: seq<Dinode>, ghost i: nat, ghost n: nat, ghost x: nat,
                    b: nat) returns (ok: bool)
      requires Shaped() && OnRecord(txn, disk, sb) && |blocks0| == sb.size && Owned(blocks0, sb, ino0) && i < |ino0| &&
        n <= MAXFILE
      requires FreedUpTo(blocks0, blocks, sb, ino0[i], n) && b == Ref(blocks0, ino0[i], n) && x == n + 1
      modifies this`blocks, this`txn
      ensures ok && Shaped() && OnRecord(txn, disk, sb) && FreedUpTo(blocks0, blocks, sb, ino0[i], x)
    {
      ok := true;
      if b != 0 {
        FreeNext(blocks0, blocks, sb, ino0, i, n);
        ok := Bfree(b);
      } else {
        FreeNone(blocks0, blocks, sb, ino0[i], n);
      }
    }

    /** Free the blocks listed in the indirect block (fs.c:637-642). */
    method FreeListed(ghost blocks0: seq<Block>, ghost ino0: seq<Dinode>, ghost i: nat, ind: nat) returns (ok: bool)
      requires Shaped() && OnRecord(txn, disk, sb) && |blocks0| == sb.size && Owned(blocks0, sb, ino0) && i < |ino0|
      requires FreedUpTo(blocks0, blocks, sb, ino0[i], NDIRECT)
      requires ind == Ref(blocks0, ino0[i], MAXFILE) && sb.IsData(ind)
      modifies this`blocks, this`txn
      ensures ok && Shaped() && OnRecord(txn, disk, sb) && FreedUpTo(blocks0, blocks, sb, ino0[i], MAXFILE)
    {
      ok := true;
      var a := blocks[ind];
      for j := 0 to NINDIRECT
        invariant ok && Shaped() && OnRecord(txn, disk, sb) && FreedUpTo(blocks0, blocks, sb, ino0[i], NDIRECT + j)
      {
        assert Ref(blocks0, ino0[i], NDIRECT + j) == Word(a, j);
        ok := FreeSlot(blocks0, ino0, i, NDIRECT + j, NDIRECT + (j + 1), Word(a, j));
      }
    }

    /** Free the blocks listed in the indirect block, if any, and the indirect block itself (fs.c:636-646). */
    method FreeIndirect(ghost blocks0: seq<Block>, ghost ino0: seq<Dinode>, i: nat) returns (ok: bool)
      requires Shaped() && OnRecord(txn, disk, sb) && |blocks0| == sb.size && Owned(blocks0, sb, ino0) &&
        i < |ino0| == |ino|
      requires FreedUpTo(blocks0, blocks, sb, ino0[i], NDIRECT)
      requires |ino[i].addrs| == NDIRECT + 1 && ino[i].addrs[NDIRECT] == Ref(blocks0, ino0[i], MAXFILE)
      modifies this`blocks, this`ino, this`txn
      ensures ok && Shaped() && OnRecord(txn, disk, sb) && FreedUpTo(blocks0, blocks, sb, ino0[i], MAXFILE + 1)
      ensures ino == old(ino)[i := old(ino)[i].(addrs := old(ino)[i].addrs[NDIRECT := 0])]
    {
      ok := true;
      var ind := ino[i].addrs[NDIRECT];
      assert InUse(blocks0, sb, ino0[i]);
      if ind != 0 {
        ok := FreeListed(blocks0, ino0, i, ind);
        FreeNext(blocks0, blocks, sb, ino0, i, MAXFILE);
        ok := Bfree(ind);
        ino := ino[i := ino[i].(addrs := ino[i].addrs[NDIRECT := 0])];
      } else {
        NothingListed(blocks0, blocks, sb, ino0[i], NDIRECT);
        assert ino[i].addrs[NDIRECT := 0] == ino[i].addrs;
      }
    }

    /** Discard the content of an inode (fs.c:622-648, before its iupdate). */
    method Itrunc(i: nat) returns (ok: bool)
      requires Valid() && i < |ino|
      modifies this`blocks, this`ino, this`txn
      // "freeing free block" never fires, and exactly the blocks the inode owned are free now
      ensures ok && Valid() && |ino| == |old(ino)|
      ensures forall c :: 0 <= c < sb.size ==>
        (Used(blocks, sb, c) <==> Used(old(blocks), sb, c) && !InSlots(old(blocks), old(ino)[i], MAXFILE + 1, c))
      ensures ino == old(ino)[i := ino[i]] && ino[i] == old(ino)[i].(size := 0, addrs := ino[i].addrs)
      ensures forall k :: 0 <= k <= MAXFILE ==> Ref(blocks, ino[i], k) == 0
      ensures forall j :: 0 <= j < |ino| && j != i ==> SameFile(old(blocks), blocks, ino[j])
    {
      assert InUse(blocks, sb, ino[i]);
      ok := FreeDirect(i);
      ok := FreeIndirect(old(blocks), old(ino), i);
      ino := ino[i := ino[i].(size := 0)];
      assert forall k :: 0 <= k <= NDIRECT ==> ino[i].addrs[k] == 0;
      FreedAll(old(blocks), blocks, sb, old(ino), i, ino[i]);
      FreedMetadata(old(blocks), blocks, sb, old(ino)[i]);
    }

    /** One turn of readi's loop: at most `want` bytes, up to the end of the block of byte o (fs.c:686-689). */
    method ReadChunk(i: nat, o: nat, want: nat) returns (r: Option<seq<byte>>)
      requires Valid() && i < |ino| && 0 < want && o + want <= MAXBYTES
      modifies this`blocks, this`ino, this`txn
      ensures r.Some? ==> Valid() && OneBlockMore(old(blocks), old(ino), blocks, ino, i)
      ensures r.Some? ==> 0 < |r.value| <= want && r.value == Data(old(blocks), old(ino)[i])[o .. o + |r.value|]
      ensures Ref(old(blocks), old(ino)[i], o / BSIZE) != 0 ==>
        r.Some? && blocks == old(blocks) && ino == old(ino) && txn == old(txn)
    {
      var b := Bmap(i, o / BSIZE);
      if b.None? {
        return None;
      }
      var m := if want < BSIZE - o % BSIZE then want else BSIZE - o % BSIZE;
      DataInBlock(blocks, ino[i], o, m);
      return Some(blocks[b.value][o % BSIZE .. o % BSIZE + m]);
    }

    /** The invariant of readi's loop: dst holds the bytes off..o; nothing has moved if no block was missing. */
    ghost predicate Reading(b0: seq<Block>, i0: seq<Dinode>, t0: Txn, i: nat, off: nat, end: nat, o: nat,
                            dst: seq<byte>)
      reads this
    {
      && off <= o <= end <= MAXBYTES && i < |i0| && Valid() && OneBlockMore(b0, i0, blocks, ino, i)
      && dst == Data(b0, i0[i])[off..o]
      && (Present(b0, i0[i], off, end) ==> blocks == b0 && ino == i0 && txn == t0)
    }

    /** One turn, which takes the loop from o to x. */
    method ReadNext(i: nat, end: nat, o: nat, dst: seq<byte>, ghost b0: seq<Block>, ghost i0: seq<Dinode>,
                    ghost t0: Txn, ghost off: nat)
      returns (x: Option<nat>, d: seq<byte>)
      requires Reading(b0, i0, t0, i, off, end, o, dst) && o < end
      modifies this`blocks, this`ino, this`txn
      ensures x.None? ==> i < |i0| && !Present(b0, i0[i], off, end)
      ensures x.Some? ==> o < x.value && Reading(b0, i0, t0, i, off, end, x.value, d)
    {
      ghost var blocks1, ino1 := blocks, ino;
      var c := ReadChunk(i, o, end - o);
      if c.None? {
        return None, dst;
      }
      OnlyGrownTrans(b0, i0, blocks1, ino1, blocks, ino, i);
      SliceConcat(Data(b0, i0[i]), off, o, o + |c.value|);
      return Some(o + |c.value|), dst + c.value;
    }

    /** The loop of readi (fs.c:685-690). */
    method ReadBytes(i: nat, off: nat, n: nat) returns (r: Option<seq<byte>>)
      requires Valid() && i < |ino| && off + n <= MAXBYTES
      modifies this`blocks, this`ino, this`txn
      ensures r.Some? ==> Valid() && OneBlockMore(old(blocks), old(ino), blocks, ino, i)
      ensures r.Some? ==> r.value == Data(old(blocks), old(ino)[i])[off .. off + n]
      ensures Present(old(blocks), old(ino)[i], off, off + n) ==>
        r.Some? && blocks == old(blocks) && ino == old(ino) && txn == old(txn)
    {
      ghost var b0, i0, t0 := blocks, ino, txn;
      Unchanged(blocks, ino, i);
      var dst: seq<byte> := [];
      var o, end := off, off + n;
      while o < end
        invariant Reading(b0, i0, t0, i, off, end, o, dst)
      {
        var x, d := ReadNext(i, end, o, dst, b0, i0, t0, off);
        if x.None? {
          return None;
        }
        o, dst := x.value, d;
      }
      return Some(dst);
    }

    /** Read n bytes at off (fs.c:668-692). Err is the return value -1. */
    method Readi(i: nat, off: nat, n: nat) returns (r: Transfer<seq<byte>>)
      requires Valid() && i < |ino| && off < UINT_LIMIT && n < UINT_LIMIT
      modifies this`blocks, this`ino, this`txn
      ensures r.Err? <==> off > old(ino)[i].size || off + n >= UINT_LIMIT
      ensures r.Err? ==> blocks == old(blocks) && ino == old(ino) && txn == old(txn)
      ensures r.Done? ==> Valid() && OneBlockMore(old(blocks), old(ino), blocks, ino, i)
      ensures r.Done? ==> off <= ReadEnd(old(ino)[i], off, n)
      ensures r.Done? ==> r.value == Content(old(blocks), old(ino)[i])[off .. ReadEnd(old(ino)[i], off, n)]
      ensures r.Done? ==> ReadsFully(Content(old(blocks), old(ino)[i]), off, n, r.value)
      ensures NoHoles(old(blocks), old(ino)[i]) ==>
        !r.Stopped? && blocks == old(blocks) && ino == old(ino) && txn == old(txn)
    {
      assert InUse(blocks, sb, ino[i]);
      SumWraps(off, n);
      if off > ino[i].size || (off + n) % UINT_LIMIT < off {
        return Err;
      }
      var m := if off + n > ino[i].size then ino[i].size - off else n;
      assert off + m == ReadEnd(ino[i], off, n);
      assert Content(blocks, ino[i])[off .. off + m] == Data(blocks, ino[i])[off .. off + m];
      assert NoHoles(blocks, ino[i]) ==> Present(blocks, ino[i], off, off + m);
      var dst := ReadBytes(i, off, m);
      return if dst.None? then Stopped else Done(dst.value);
    }

    /** memmove into the block of byte o, and log_write (fs.c:726-727). */
    method FillBlock(i: nat, o: nat, chunk: seq<byte>, b: nat)
      requires Valid() && i < |ino| && 0 < |chunk| && o + |chunk| <= MAXBYTES && o % BSIZE + |chunk| <= BSIZE
      requires b == Ref(blocks, ino[i], o / BSIZE) != 0
      modifies this`blocks, this`txn
      ensures Valid() && Grown(old(blocks), ino[i], blocks, ino[i]) && OnlyGrown(old(blocks), ino, blocks, ino, i)
      ensures Data(blocks, ino[i]) == Splice(Data(old(blocks), ino[i]), o, chunk)
      ensures forall l :: 0 <= l <= MAXFILE ==> Ref(blocks, ino[i], l) == Ref(old(blocks), ino[i], l)
      ensures txn.logged == old(txn).logged + {b}
    {
      WriteInBlock(blocks, sb, ino, i, o, chunk);
      DataKeepsMetadata(blocks, sb, b, Splice(blocks[b], o % BSIZE, chunk));
      PutRecorded(txn, disk, sb, b, Splice(blocks[b], o % BSIZE, chunk));
      WriteDataBlock(blocks, sb, ino, i, o / BSIZE, Splice(blocks[b], o % BSIZE, chunk));
      LogWrite(b, Splice(blocks[b], o % BSIZE, chunk));
      assert ino[i := ino[i]] == ino;
    }

    /** One turn of writei's loop: fill the block of byte o from src, as far as src or the block goes (fs.c:724-728). */
    method WriteChunk(i: nat, o: nat, src: seq<byte>) returns (r: Option<nat>)
      requires Valid() && i < |ino| && 0 < |src| && o + |src| <= MAXBYTES
      modifies this`blocks, this`ino, this`txn
      ensures r.Some? ==> Valid() && OnlyGrown(old(blocks), old(ino), blocks, ino, i)
      ensures r.Some? ==> 0 < r.value <= |src| && o % BSIZE + r.value <= BSIZE
      ensures r.Some? ==> Data(blocks, ino[i]) == Splice(Data(old(blocks), old(ino)[i]), o, src[..r.value])
      ensures r.Some? ==> Ref(blocks, ino[i], o / BSIZE) != 0
      ensures Ref(old(blocks), old(ino)[i], o / BSIZE) != 0 ==> r.Some?
      ensures r.Some? ==>
        TurnLogged(old(blocks), old(ino)[i], blocks, sb, ino[i], o / BSIZE, old(txn).logged, txn.logged)
      ensures r.None? ==> OutOfBlocks()
    {
      var b := Bmap(i, o / BSIZE);
      if b.None? {
        return None;
      }
      var m := if |src| < BSIZE - o % BSIZE then |src| else BSIZE - o % BSIZE;
      ghost var blocks1, logged1 := blocks, txn.logged;
      FillBlock(i, o, src[..m], b.value);
      OnlyGrownTrans(old(blocks), old(ino), blocks1, ino, blocks, ino, i);
      assert InUse(blocks, sb, ino[i]);
      TurnDone(old(blocks), old(ino)[i], blocks1, blocks, sb, ino[i], o / BSIZE, old(txn).logged, logged1, txn.logged);
      return Some(m);
    }

    /** The invariant of writei's loop: the first tot bytes of src are written. */
    ghost predicate Writing(b0: seq<Block>, i0: seq<Dinode>, logged0: set<nat>, i: nat, off: nat, src: seq<byte>,
                            tot: nat)
      reads this
    {
      Valid() && WrittenPart(b0, i0, logged0, blocks, ino, txn.logged, sb, i, off, src, tot)
    }

    /** One turn, which takes the loop from tot bytes to x. */
    method WriteNext(ghost b0: seq<Block>, ghost i0: seq<Dinode>, ghost logged0: set<nat>, i: nat, off: nat,
                     src: seq<byte>, tot: nat)
      returns (x: Option<nat>)
      requires Writing(b0, i0, logged0, i, off, src, tot) && tot < |src|
      modifies this`blocks, this`ino, this`txn
      ensures x.Some? ==> tot < x.value && Writing(b0, i0, logged0, i, off, src, x.value)
      ensures x.None? ==> Ref(b0, i0[i], (off + tot) / BSIZE) == 0 && OutOfBlocks()
    {
      ghost var blocks1, ino1, logged1 := blocks, ino, txn.logged;
      var m := WriteChunk(i, off + tot, src[tot..]);
      if m.None? {
        return None;
      }
      x := Some(tot + m.value);
      WrittenPartMore(b0, i0, logged0, blocks1, ino1, logged1, blocks, ino, txn.logged, sb, i, off, src, tot, m.value,
                      off + tot, x.value);
    }

    /** The loop of writei: write src at off, allocating blocks as needed (fs.c:723-729). False: the run ended. */
    method WriteBytes(i: nat, off: nat, src: seq<byte>) returns (ok: bool)
      requires Valid() && i < |ino| && off + |src| <= MAXBYTES
      modifies this`blocks, this`ino, this`txn
      ensures ok ==> Valid() && OnlyGrown(old(blocks), old(ino), blocks, ino, i)
      ensures ok ==> Data(blocks, ino[i]) == Splice(Data(old(blocks), old(ino)[i]), off, src)
      ensures ok ==> Present(blocks, ino[i], off, off + |src|)
      ensures Present(old(blocks), old(ino)[i], off, off + |src|) ==> ok
      ensures !ok ==> OutOfBlocks()
      ensures ok ==> forall x :: x in txn.logged && x !in old(txn).logged ==>
        x != 0 && MayLog(blocks, sb, ino[i], off / BSIZE, BlockEnd(off + |src|), x)
      ensures ok ==> LogsExactly(old(txn).logged, txn.logged, old(blocks), old(ino)[i], blocks, sb, ino[i], off / BSIZE,
                                 SlotEnd(off, |src|))
    {
      Unchanged(blocks, ino, i);
      assert src[..0] == [];
      var tot := 0;
      while tot < |src|
        invariant Writing(old(blocks), old(ino), old(txn).logged, i, off, src, tot)
        decreases |src| - tot
      {
        var x := WriteNext(old(blocks), old(ino), old(txn).logged, i, off, src, tot);
        if x.None? {
          return false;
        }
        tot := x.value;
      }
      assert src[..|src|] == src;
      return true;
    }
  }

  /** The first tot bytes of src have been written at off. */
  predicate WrittenData(b0: seq<Block>, i0: seq<Dinode>, b: seq<Block>, ino: seq<Dinode>, i: nat, off: nat,
                        src: seq<byte>, tot: nat) {
    && i < |i0| && tot <= |src| && off + |src| <= MAXBYTES && OnlyGrown(b0, i0, b, ino, i)
    && Data(b, ino[i]) == Splice(Data(b0, i0[i]), off, src[..tot])
    && Present(b, ino[i], off, off + tot)
  }

  lemma WrittenDataMore(b0: seq<Block>, i0: seq<Dinode>, b1: seq<Block>, i1: seq<Dinode>, b2: seq<Block>,
                        i2: seq<Dinode>, i: nat, off: nat, src: seq<byte>, tot: nat, m: nat, o: nat, x: nat)
    requires WrittenData(b0, i0, b1, i1, i, off, src, tot) && OnlyGrown(b1, i1, b2, i2, i)
    requires 0 < m && o == off + tot && x == tot + m <= |src| && o % BSIZE + m <= BSIZE
    requires Data(b2, i2[i]) == Splice(Data(b1, i1[i]), o, src[tot..][..m]) && Ref(b2, i2[i], o / BSIZE) != 0
    ensures WrittenData(b0, i0, b2, i2, i, off, src, x)
  {
    OnlyGrownTrans(b0, i0, b1, i1, b2, i2, i);
    SpliceTwice(Data(b0, i0[i]), off, src, tot, m);
    PresentMore(b1, i1[i], b2, i2[i], off, o, m);
  }

  /** And nothing but what that takes has been logged. */
  ghost predicate WrittenPart(b0: seq<Block>, i0: seq<Dinode>, logged0: set<nat>, b: seq<Block>, ino: seq<Dinode>,
                              logged: set<nat>, sb: Superblock, i: nat, off: nat, src: seq<byte>, tot: nat) {
    && WrittenData(b0, i0, b, ino, i, off, src, tot)
    && (forall x :: x in logged && x !in logged0 ==>
      x != 0 && MayLog(b, sb, ino[i], off / BSIZE, BlockEnd(off + |src|), x))
    && SlotsFrom(b0, i0[i], b, ino[i], SlotEnd(off, tot))
    && LogsExactly(logged0, logged, b0, i0[i], b, sb, ino[i], off / BSIZE, SlotEnd(off, tot))
  }

  /** The slot after the last one that tot bytes at off are in. */
  function SlotEnd(off: nat, tot: nat): nat {
    if tot == 0 then off / BSIZE else BlockEnd(off + tot)
  }

  /** The slots from hi on have the blocks they had. */
  predicate SlotsFrom(blocks: seq<Block>, d: Dinode, blocks': seq<Block>, d': Dinode, hi: nat) {
    && WellFormed(d) && WellFormed(d')
    && forall l :: hi <= l < MAXFILE ==> Ref(blocks', d', l) == Ref(blocks, d, l)
  }

  lemma WrittenPartMore(b0: seq<Block>, i0: seq<Dinode>, logged0: set<nat>, b1: seq<Block>, i1: seq<Dinode>,
                        logged1: set<nat>, b2: seq<Block>, i2: seq<Dinode>, logged2: set<nat>, sb: Superblock,
                        i: nat, off: nat, src: seq<byte>, tot: nat, m: nat, o: nat, x: nat)
    requires WrittenPart(b0, i0, logged0, b1, i1, logged1, sb, i, off, src, tot) && OnlyGrown(b1, i1, b2, i2, i)
    requires 0 < m && o == off + tot && x == tot + m <= |src| && o % BSIZE + m <= BSIZE
    requires Data(b2, i2[i]) == Splice(Data(b1, i1[i]), o, src[tot..][..m]) && Ref(b2, i2[i], o / BSIZE) != 0
    requires TurnLogged(b1, i1[i], b2, sb, i2[i], o / BSIZE, logged1, logged2)
    ensures WrittenPart(b0, i0, logged0, b2, i2, logged2, sb, i, off, src, x)
  {
    WrittenDataMore(b0, i0, b1, i1, b2, i2, i, off, src, tot, m, o, x);
    LoggedMore(b1, i1[i], b2, i2[i], sb, logged0, logged1, logged2, off, o, off + |src|);
    SlotEndMore(off, tot, m);
    PresentSlots(b1, i1[i], off, tot);
    ExactMore(b0, i0[i], b1, i1[i], b2, i2[i], sb, off / BSIZE, SlotEnd(off, tot), o / BSIZE, logged0, logged1,
              logged2);
  }

  lemma SlotEndMore(off: nat, tot: nat, m: nat)
    requires 0 < m && (off + tot) % BSIZE + m <= BSIZE
    ensures SlotEnd(off, tot + m) == (off + tot) / BSIZE + 1
    ensures SlotEnd(off, tot) <= (off + tot) / BSIZE + 1 && (off + tot) / BSIZE <= SlotEnd(off, tot)
    ensures off / BSIZE <= SlotEnd(off, tot)
  {
    var o := off + tot;
    var q, r := o / BSIZE, o % BSIZE;
    assert o + m + BSIZE - 1 == (q + 1) * BSIZE + (r + m - 1) && 0 <= r + m - 1 < BSIZE;
    assert (o + m + BSIZE - 1) / BSIZE == q + 1;
  }

  lemma PresentSlots(blocks: seq<Block>, d: Dinode, off: nat, tot: nat)
    requires WellFormed(d) && off + tot <= MAXBYTES && Present(blocks, d, off, off + tot)
    ensures SlotEnd(off, tot) <= MAXFILE && forall l :: off / BSIZE <= l < SlotEnd(off, tot) ==> Ref(blocks, d, l) != 0
  {
    forall l | off / BSIZE <= l < SlotEnd(off, tot) ensures Ref(blocks, d, l) != 0 {
      var o := if off < l * BSIZE then l * BSIZE else off;
      assert off <= o < off + tot && o / BSIZE == l;
    }
  }

  /** One turn more, at the next slot or, if that is not full yet, at the last. */
  lemma ExactMore(b0: seq<Block>, d0: Dinode, b1: seq<Block>, d1: Dinode, b2: seq<Block>, d2: Dinode, sb: Superblock,
                  lo: nat, hi: nat, l: nat, logged0: set<nat>, logged1: set<nat>, logged2: set<nat>)
    requires LogsExactly(logged0, logged1, b0, d0, b1, sb, d1, lo, hi) && SlotsFrom(b0, d0, b1, d1, hi)
    requires Grown(b1, d1, b2, d2) && lo <= hi && l <= hi <= l + 1 <= MAXFILE && lo <= l && Ref(b2, d2, l) != 0
    requires forall k :: lo <= k < hi ==> Ref(b1, d1, k) != 0
    requires TurnLogged(b1, d1, b2, sb, d2, l, logged1, logged2)
    ensures LogsExactly(logged0, logged2, b0, d0, b2, sb, d2, lo, l + 1) && SlotsFrom(b0, d0, b2, d2, l + 1)
  {
    if sb.size < BPB {
      forall x ensures x in logged2 <==> x in logged0 || Touches(b0, d0, b2, sb, d2, lo, l + 1, x) {
        assert Touches(b1, d1, b2, sb, d2, l, l + 1, x) <==> SlotTouches(b1, d1, b2, sb, d2, l, x);
        TouchesMore(b0, d0, b1, d1, b2, d2, sb, lo, hi, l, x);
      }
    }
  }

  lemma TouchesMore(b0: seq<Block>, d0: Dinode, b1: seq<Block>, d1: Dinode, b2: seq<Block>, d2: Dinode, sb: Superblock,
                    lo: nat, hi: nat, l: nat, x: nat)
    requires SlotsFrom(b0, d0, b1, d1, hi) && Grown(b1, d1, b2, d2) && lo <= hi && l <= hi <= l + 1 <= MAXFILE &&
      lo <= l
    requires (forall k :: lo <= k < hi ==> Ref(b1, d1, k) != 0) && Ref(b2, d2, l) != 0
    ensures Touches(b0, d0, b2, sb, d2, lo, l + 1, x) <==>
      Touches(b0, d0, b1, sb, d1, lo, hi, x) || SlotTouches(b1, d1, b2, sb, d2, l, x)
  {
    forall k | lo <= k < hi ensures SlotTouches(b0, d0, b1, sb, d1, k, x) <==> SlotTouches(b0, d0, b2, sb, d2, k, x) {
      assert Ref(b2, d2, k) == Ref(b1, d1, k);
      assert k >= NDIRECT ==> Ref(b1, d1, MAXFILE) != 0;
    }
    if l == hi {
      assert SlotTouches(b1, d1, b2, sb, d2, l, x) <==> SlotTouches(b0, d0, b2, sb, d2, l, x);
    } else {
      assert SlotTouches(b1, d1, b2, sb, d2, l, x) ==> SlotTouches(b0, d0, b2, sb, d2, l, x);
    }
    assert Touches(b0, d0, b2, sb, d2, lo, l + 1, x) <==>
        Touches(b0, d0, b2, sb, d2, lo, l, x) || SlotTouches(b0, d0, b2, sb, d2, l, x);
  }

  /** Where a read of n bytes at off ends: at the end of the file if that comes first. */
  function ReadEnd(d: Dinode, off: nat, n: nat): nat {
    if off + n > d.size then d.size else off + n
  }

  /** All of the n bytes at off that the file has, and nothing else. */
  predicate ReadsFully(file: seq<byte>, off: nat, n: nat, r: seq<byte>) {
    && off <= |file| && (|r| == n || (|r| < n && off + |r| == |file|)) && off + |r| <= |file|
    && forall j :: 0 <= j < |r| ==> r[j] == file[off + j]
  }

  /** So two reads one after the other are one read of both. */
  lemma ReadsJoin(file: seq<byte>, off: nat, n: nat, m: nat, a: seq<byte>, b: seq<byte>, c: seq<byte>)
    requires ReadsFully(file, off, n, a) && ReadsFully(file, off + |a|, m, b) && ReadsFully(file, off, n + m, c)
    ensures c == a + b
  {
  }

  /** What readi and writei return: -1, a result, or nothing because the run ended in balloc. */
  datatype Transfer<+T> = Err | Done(value: T) | Stopped

  /** Every block of the file up to its size is there, so reading it never allocates. */
  predicate NoHoles(blocks: seq<Block>, d: Dinode)
    requires WellFormed(d)
  {
    forall l :: 0 <= l < MAXFILE && l * BSIZE < d.size ==> Ref(blocks, d, l) != 0
  }

  lemma {:induction false} NothingListed(blocks: seq<Block>, blocks': seq<Block>, sb: Superblock, d: Dinode, n: nat)
    requires WellFormed(d) && NDIRECT <= n <= MAXFILE + 1 && sb.Sane() && |blocks| == sb.size
    requires Ref(blocks, d, MAXFILE) == 0 && FreedUpTo(blocks, blocks', sb, d, n)
    ensures FreedUpTo(blocks, blocks', sb, d, MAXFILE + 1)
    decreases MAXFILE + 1 - n
  {
    if n <= MAXFILE {
      FreeNone(blocks, blocks', sb, d, n);
      NothingListed(blocks, blocks', sb, d, n + 1);
    }
  }

  /** The boot block, superblock, inode blocks and bitmap blocks are marked in use, as mkfs leaves them. */
  predicate MetadataUsed(blocks: seq<Block>, sb: Superblock)
    requires sb.Sane() && |blocks| == sb.size
  {
    forall c :: 0 <= c < sb.DataStart() ==> Used(blocks, sb, c)
  }

  predicate NoFreeData(blocks: seq<Block>, sb: Superblock)
    requires sb.Sane() && |blocks| == sb.size
  {
    forall c :: 0 <= c < sb.size && sb.IsData(c) ==> Used(blocks, sb, c)
  }

  /** Allocation unmarks nothing, and with the lowest free block outside the data area no data block is left. */
  lemma AllocatedMetadata(blocks: seq<Block>, sb: Superblock, b: nat)
    requires sb.Sane() && |blocks| == sb.size && MetadataUsed(blocks, sb) && b < sb.size && !Used(blocks, sb, b)
    requires forall c :: 0 <= c < b ==> Used(blocks, sb, c)
    ensures MetadataUsed(Allocated(blocks, sb, b), sb)
    ensures !sb.IsData(b) ==> NoFreeData(Allocated(blocks, sb, b), sb)
  {
    assert sb.DataStart() <= b;
    forall c | 0 <= c < sb.size && Used(blocks, sb, c) ensures Used(Allocated(blocks, sb, b), sb, c) {
      assert sb.BitmapBlock(c) < sb.DataStart();
      if sb.BitmapBlock(b) == sb.BitmapBlock(c) {
        SetBitAt(blocks[sb.BitmapBlock(b)], b % BPB, c % BPB);
      }
    }
  }

  /** The two log_writes of balloc (fs.c:67, fs.c:47). */
  function AllocTxn(t: Txn, blocks: seq<Block>, sb: Superblock, b: nat): Txn
    requires sb.Sane() && |blocks| == |t.image| == sb.size && b < sb.size
  {
    var m := sb.BitmapBlock(b);
    Put(Put(t, m, SetBit(blocks[m], b % BPB)), b, ZeroBlock())
  }

  lemma AllocRecorded(t: Txn, blocks: seq<Block>, disk: seq<Dinode>, sb: Superblock, b: nat)
    requires sb.Sane() && |blocks| == |t.image| == sb.size && OnRecord(t, disk, sb) && sb.IsData(b)
    ensures OnRecord(AllocTxn(t, blocks, sb, b), disk, sb)
  {
    var m := sb.BitmapBlock(b);
    PutRecorded(t, disk, sb, m, SetBit(blocks[m], b % BPB));
    PutRecorded(Put(t, m, SetBit(blocks[m], b % BPB)), disk, sb, b, ZeroBlock());
  }

  lemma DataKeepsMetadata(blocks: seq<Block>, sb: Superblock, b: nat, data: Block)
    requires sb.Sane() && |blocks| == sb.size && sb.IsData(b) && MetadataUsed(blocks, sb)
    ensures MetadataUsed(blocks[b := data], sb)
  {
    var blocks' := blocks[b := data];
    forall c | 0 <= c < sb.DataStart() ensures Used(blocks', sb, c) {
      assert Used(blocks, sb, c) && sb.BitmapBlock(c) < sb.DataStart();
    }
  }

  lemma FreedMetadata(blocks: seq<Block>, blocks': seq<Block>, sb: Superblock, d: Dinode)
    requires InUse(blocks, sb, d) && MetadataUsed(blocks, sb) && FreedUpTo(blocks, blocks', sb, d, MAXFILE + 1)
    ensures |blocks'| == sb.size && MetadataUsed(blocks', sb)
  {
    forall c | 0 <= c < sb.DataStart() ensures Used(blocks', sb, c) {
      assert Used(blocks, sb, c) && !InSlots(blocks, d, MAXFILE + 1, c);
    }
  }

  /** Sector x is a bitmap block, the indirect block, or the block in one of the slots lo..hi of the inode. */
  predicate MayLog(blocks: seq<Block>, sb: Superblock, d: Dinode, lo: nat, hi: nat, x: nat)
    requires WellFormed(d) && hi <= MAXFILE
  {
    || sb.BitmapBlock(0) <= x < sb.DataStart()
    || x == Ref(blocks, d, MAXFILE)
    || exists l :: lo <= l < hi && x == Ref(blocks, d, l)
  }

  lemma NextGroup(b: nat)
    requires b % BPB == 0
    ensures (b + BPB) % BPB == 0
  {
  }

  /** What bmap logs for slot bn: nothing if it has a block, else the new block, the indirect block if the slot is in
      there, and the bitmap blocks of what is new. */
  function AllocLogs(blocks: seq<Block>, d: Dinode, blocks': seq<Block>, sb: Superblock, d': Dinode, bn: nat): set<nat>
    requires WellFormed(d) && WellFormed(d') && bn < MAXFILE
  {
    var b, ind := Ref(blocks', d', bn), Ref(blocks', d', MAXFILE);
    if Ref(blocks, d, bn) != 0 then {}
    else if bn < NDIRECT then {sb.BitmapBlock(b), b}
    else if Ref(blocks, d, MAXFILE) != 0 then {sb.BitmapBlock(b), b, ind}
    else {sb.BitmapBlock(b), b, sb.BitmapBlock(ind), ind}
  }

  /** What a turn of writei's loop logs may be logged. */
  lemma SlotLogs(blocks: seq<Block>, d: Dinode, blocks': seq<Block>, sb: Superblock, d': Dinode, bn: nat,
                 logged0: set<nat>, logged: set<nat>)
    requires WellFormed(d) && InUse(blocks', sb, d') && bn < MAXFILE && Ref(blocks', d', bn) != 0
    requires logged == logged0 + AllocLogs(blocks, d, blocks', sb, d', bn) + {Ref(blocks', d', bn)}
    ensures forall x :: x in logged && x !in logged0 ==> x != 0 && MayLog(blocks', sb, d', bn, bn + 1, x)
  {
    assert bn >= NDIRECT ==> Ref(blocks', d', MAXFILE) != 0;
  }

  // ---- Exactly what is logged, on a disk with one bitmap block -------------------------------

  /** Writing slot l logs its block; if it was missing, the bitmap; and the indirect block, if the slot is in there. */
  predicate SlotTouches(blocks: seq<Block>, d: Dinode, blocks': seq<Block>, sb: Superblock, d': Dinode, l: nat, x: nat)
    requires WellFormed(d) && WellFormed(d') && l < MAXFILE
  {
    || x == Ref(blocks', d', l)
    || (Ref(blocks, d, l) == 0 && (x == sb.BitmapBlock(0) || (l >= NDIRECT && x == Ref(blocks', d', MAXFILE))))
  }

  /** Writing the slots lo..hi, which took the inode from (blocks, d) to (blocks', d'), logs x. */
  predicate Touches(blocks: seq<Block>, d: Dinode, blocks': seq<Block>, sb: Superblock, d': Dinode, lo: nat, hi: nat,
                    x: nat)
    requires WellFormed(d) && WellFormed(d') && hi <= MAXFILE
  {
    exists l :: lo <= l < hi && SlotTouches(blocks, d, blocks', sb, d', l, x)
  }

  /** And nothing else has been logged. */
  ghost predicate LogsExactly(logged0: set<nat>, logged: set<nat>, blocks: seq<Block>, d: Dinode, blocks': seq<Block>,
                              sb: Superblock, d': Dinode, lo: nat, hi: nat)
  {
    && WellFormed(d) && WellFormed(d') && hi <= MAXFILE
    && (sb.size < BPB ==>
          forall x :: x in logged <==> x in logged0 || Touches(blocks, d, blocks', sb, d', lo, hi, x))
  }

  /** What a turn of writei's loop at slot bn does to the log and to the other slots. */
  ghost predicate TurnLogged(blocks: seq<Block>, d: Dinode, blocks': seq<Block>, sb: Superblock, d': Dinode, bn: nat,
                             logged0: set<nat>, logged: set<nat>) {
    && OtherSlots(blocks, d, blocks', d', bn) && LogsExactly(logged0, logged, blocks, d, blocks', sb, d', bn, bn + 1)
    && forall x :: x in logged && x !in logged0 ==> x != 0 && MayLog(blocks', sb, d', bn, bn + 1, x)
  }

  lemma TurnDone(blocks: seq<Block>, d: Dinode, blocks1: seq<Block>, blocks': seq<Block>, sb: Superblock, d': Dinode,
                 bn: nat, logged0: set<nat>, logged1: set<nat>, logged: set<nat>)
    requires OtherSlots(blocks, d, blocks1, d', bn) && InUse(blocks', sb, d') && bn < MAXFILE &&
      Ref(blocks1, d', bn) != 0
    requires forall l :: 0 <= l <= MAXFILE ==> Ref(blocks', d', l) == Ref(blocks1, d', l)
    requires logged1 == logged0 + AllocLogs(blocks, d, blocks1, sb, d', bn)
    requires logged == logged1 + {Ref(blocks1, d', bn)}
    ensures TurnLogged(blocks, d, blocks', sb, d', bn, logged0, logged)
  {
    assert AllocLogs(blocks, d, blocks', sb, d', bn) == AllocLogs(blocks, d, blocks1, sb, d', bn);
    SlotLogs(blocks, d, blocks', sb, d', bn, logged0, logged);
    SlotExactly(blocks, d, blocks', sb, d', bn, logged0, logged);
  }

  lemma SlotExactly(blocks: seq<Block>, d: Dinode, blocks': seq<Block>, sb: Superblock, d': Dinode, bn: nat,
                    logged0: set<nat>, logged: set<nat>)
    requires WellFormed(d) && InUse(blocks', sb, d') && bn < MAXFILE && Ref(blocks', d', bn) != 0
    requires logged == logged0 + AllocLogs(blocks, d, blocks', sb, d', bn) + {Ref(blocks', d', bn)}
    ensures LogsExactly(logged0, logged, blocks, d, blocks', sb, d', bn, bn + 1)
  {
    if sb.size < BPB {
      assert forall b :: 0 <= b < sb.size ==> sb.BitmapBlock(b) == sb.BitmapBlock(0);
      forall x ensures x in logged <==> x in logged0 || Touches(blocks, d, blocks', sb, d', bn, bn + 1, x) {
        assert Touches(blocks, d, blocks', sb, d', bn, bn + 1, x) <==> SlotTouches(blocks, d, blocks', sb, d', bn, x);
      }
    }
  }

  /** Sectors that could be logged for slots lo..hi still can after the inode has grown. */
  lemma MayLogGrows(blocks: seq<Block>, d: Dinode, blocks': seq<Block>, d': Dinode, sb: Superblock, lo: nat, hi: nat,
                    hi': nat, x: nat)
    requires Grown(blocks, d, blocks', d') && hi <= hi' <= MAXFILE && x != 0 && MayLog(blocks, sb, d, lo, hi, x)
    ensures MayLog(blocks', sb, d', lo, hi', x)
  {
    if l :| lo <= l < hi && x == Ref(blocks, d, l) {
      assert x == Ref(blocks', d', l);
    }
  }

  /** The first block past the bytes below `end`. */
  function BlockEnd(end: nat): nat {
    (end + BSIZE - 1) / BSIZE
  }

  /** The blocks of the bytes lo..hi are there. */
  predicate Present(blocks: seq<Block>, d: Dinode, lo: nat, hi: nat)
    requires WellFormed(d) && hi <= MAXBYTES
  {
    forall o :: lo <= o < hi ==> Ref(blocks, d, o / BSIZE) != 0
  }

  lemma PresentMore(blocks: seq<Block>, d: Dinode, blocks': seq<Block>, d': Dinode, lo: nat, mid: nat, m: nat)
    requires Grown(blocks, d, blocks', d') && mid + m <= MAXBYTES && Present(blocks, d, lo, mid) && lo <= mid
    requires 0 < m && mid % BSIZE + m <= BSIZE && Ref(blocks', d', mid / BSIZE) != 0
    ensures Present(blocks', d', lo, mid + m)
  {
    forall o | lo <= o < mid + m ensures Ref(blocks', d', o / BSIZE) != 0 {
      if o < mid {
        assert Ref(blocks, d, o / BSIZE) != 0;
      } else {
        SameBlock(mid, o - mid);
      }
    }
  }

  lemma LoggedMore(blocks: seq<Block>, d: Dinode, blocks': seq<Block>, d': Dinode, sb: Superblock,
                   logged0: set<nat>, logged: set<nat>, logged': set<nat>, off: nat, o: nat, end: nat)
    requires Grown(blocks, d, blocks', d') && off <= o < end <= MAXBYTES
    requires forall x :: x in logged && x !in logged0 ==> x != 0 && MayLog(blocks, sb, d, off / BSIZE, BlockEnd(end), x)
    requires forall x :: x in logged' && x !in logged ==> x != 0 && MayLog(blocks', sb, d', o / BSIZE, o / BSIZE + 1, x)
    ensures forall x :: x in logged' && x !in logged0 ==>
      x != 0 && MayLog(blocks', sb, d', off / BSIZE, BlockEnd(end), x)
  {
    forall x | x in logged' && x !in logged0 ensures x != 0 && MayLog(blocks', sb, d', off / BSIZE, BlockEnd(end), x) {
      if x in logged {
        MayLogGrows(blocks, d, blocks', d', sb, off / BSIZE, BlockEnd(end), BlockEnd(end), x);
      }
    }
  }

  /** The sectors logged since logged0 are s, or ones that writing slots lo..hi of d may log. */
  predicate LoggedFor(logged0: set<nat>, logged: set<nat>, blocks: seq<Block>, sb: Superblock, d: Dinode, lo: nat,
                      hi: nat, s: nat)
    requires WellFormed(d) && hi <= MAXFILE
  {
    forall x :: x in logged && x !in logged0 ==> x == s || (x != 0 && MayLog(blocks, sb, d, lo, hi, x))
  }

  /** A set of at most hi - lo numbers with every block of the slots lo..hi. */
  lemma SlotSectors(blocks: seq<Block>, d: Dinode, lo: nat, hi: nat) returns (s: set<nat>)
    requires WellFormed(d) && lo <= hi <= MAXFILE
    ensures |s| <= hi - lo && forall l :: lo <= l < hi ==> Ref(blocks, d, l) in s
    decreases hi
  {
    if lo == hi {
      return {};
    }
    s := SlotSectors(blocks, d, lo, hi - 1);
    s := s + {Ref(blocks, d, hi - 1)};
  }

  /** With one bitmap block, a transaction that writes the slots lo..hi of an inode logs at most three sectors
      besides. */
  lemma FewSectors(blocks: seq<Block>, sb: Superblock, d: Dinode, logged: set<nat>, lo: nat, hi: nat, s: nat)
    requires WellFormed(d) && lo <= hi <= MAXFILE && sb.size < BPB && LoggedFor({}, logged, blocks, sb, d, lo, hi, s)
    ensures |logged| <= hi - lo + 3
  {
    var slots := SlotSectors(blocks, d, lo, hi);
    var others := {s, sb.BitmapBlock(0), Ref(blocks, d, MAXFILE)};
    assert |others| <= 3;
    var all := slots + others;
    forall x | x in logged ensures x in all {
      assert x == s || MayLog(blocks, sb, d, lo, hi, x);
    }
    assert all == logged + (all - logged);
  }

  /** The same counted in bytes. */
  lemma LoggedAtMost(blocks: seq<Block>, sb: Superblock, d: Dinode, logged: set<nat>, off: nat, end: nat, s: nat)
    requires WellFormed(d) && off <= end <= MAXBYTES
    requires LoggedFor({}, logged, blocks, sb, d, off / BSIZE, BlockEnd(end), s)
    ensures sb.size < BPB ==> |logged| <= (end - off + 2 * (BSIZE - 1)) / BSIZE + 3
  {
    if sb.size < BPB {
      FewSectors(blocks, sb, d, logged, off / BSIZE, BlockEnd(end), s);
    }
  }

  lemma SliceConcat<T>(s: seq<T>, a: nat, b: nat, c: nat)
    requires a <= b <= c <= |s|
    ensures s[a..b] + s[b..c] == s[a..c]
  {
  }

  lemma Unchanged(blocks: seq<Block>, ino: seq<Dinode>, i: nat)
    requires i < |ino| && forall j :: 0 <= j < |ino| ==> WellFormed(ino[j])
    ensures OneBlockMore(blocks, ino, blocks, ino, i)
  {
    assert ino[i := ino[i]] == ino;
  }

  lemma InBitmapBlock(b: nat, bi: nat)
    requires b % BPB == 0 && bi < BPB
    ensures (b + bi) / BPB == b / BPB && (b + bi) % BPB == bi
  {
  }
}
