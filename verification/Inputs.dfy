/**
 Inputs at which a promise fails: an image as mkfs makes them (mkfs.c:84-87), with a file of 4096 zero bytes in inode 1
 and its dittos in inodes 2 and 3.
 */
module Inputs {
  import opened Bitmap
  import opened Blocks
  import opened Bytes
  import opened Checksum
  import opened Ditto
  import opened Duplicate
  import opened FileCalls
  import opened FileSystem
  import opened Mkfs
  import opened Overrun
  import opened Trails

  import LogTheory

  const IMAGE := Superblock(2048, 1999, 200, 20)
  const FIRST: nat := 29             // the first data block
  const SIZE: nat := 4096            // 8 blocks, the most that filewrite writes at once

  /** The blocks of inodes 1, 2 and 3 follow each other, 8 for each. */
  function Record(j: nat): Dinode {
    var none := NewDinode(Kind.Free);
    if 1 <= j <= 3 then
      var d := none.(kind := Kind.Ditto, size := SIZE,
                     addrs := seq(NDIRECT + 1, k requires 0 <= k => if k < 8 then FIRST + 8 * (j - 1) + k else 0));
      if j == 1 then d.(kind := Kind.File, child1 := 2, child2 := 3) else d
    else none
  }

  function Records(): seq<Dinode> {
    seq(200, j requires 0 <= j => Record(j))
  }

  /** Every sector zero but the bitmap. */
  function Image(): (b: seq<Block>)
    ensures |b| == 2048 && b[28] == Bits(FIRST + 24) && forall s :: FIRST <= s < FIRST + 24 ==> b[s] == ZeroBlock()
  {
    Marked(seq(2048, _ => ZeroBlock()), IMAGE, FIRST + 24)
  }

  function Zeros(n: nat): seq<byte> {
    seq(n, _ => 0)
  }

  lemma RecordRefs(b: seq<Block>, j: nat, k: nat)
    requires j < 200 && k <= MAXFILE
    ensures WellFormed(Record(j)) && Ref(b, Record(j), k) == if 1 <= j <= 3 && k < 8 then FIRST + 8 * (j - 1) + k else 0
  {
  }

  /** Whatever is in the blocks, they have one owner each, and the files are complete. */
  lemma Whole(b: seq<Block>)
    requires |b| == 2048 && b[28] == Bits(FIRST + 24)
    ensures Owned(b, IMAGE, Records()) && forall j :: 0 <= j < 200 ==> NoHoles(b, Records()[j])
  {
    var ino := Records();
    forall j, k | 0 <= j < 200 && 0 <= k <= MAXFILE
      ensures WellFormed(ino[j]) && Ref(b, ino[j], k) == if 1 <= j <= 3 && k < 8 then FIRST + 8 * (j - 1) + k else 0
    {
      RecordRefs(b, j, k);
    }
    forall c: nat | c < 2048 ensures Used(b, IMAGE, c) <==> c < FIRST + 24 {
      MarkedUsed(b, IMAGE, FIRST + 24, c);
      assert Marked(b, IMAGE, FIRST + 24) == b;
    }
  }

  /** A file of zero blocks. */
  lemma ZeroFile(b: seq<Block>, j: nat)
    requires |b| == 2048 && 1 <= j <= 3
    requires forall s :: FIRST + 8 * (j - 1) <= s < FIRST + 8 * j ==> b[s] == ZeroBlock()
    ensures Content(b, Record(j)) == Zeros(SIZE) && Good(b, Record(j))
  {
    var file := Content(b, Record(j));
    forall o | 0 <= o < SIZE ensures file[o] == 0 {
      var k := o / BSIZE;
      assert b[FIRST + 8 * (j - 1) + k] == ZeroBlock();
      RecordRefs(b, j, k);
      assert file[o] == ByteAt(b, Record(j), o);
    }
    SumOfOneWord(file, SIZE, WordCount(SIZE));
  }

  lemma MirroredFile(b: seq<Block>, ino: seq<Dinode>)
    requires |b| == 2048 && forall s :: FIRST <= s < FIRST + 24 ==> b[s] == ZeroBlock()
    requires |ino| == 200 && ino[1] == Record(1) && ino[2] == Record(2) && ino[3] == Record(3)
    ensures MirrorOk(b, ino, 1)
  {
    ZeroFile(b, 1);
    ZeroFile(b, 2);
    ZeroFile(b, 3);
  }

  lemma TooManySectors(b: seq<Block>, ino: seq<Dinode>)
    requires |ino| == 200 && ino[1] == Record(1) && ino[2] == Record(2) && ino[3] == Record(3)
    ensures WriteGroup(ino, 1) && LogSectors(b, ino, IMAGE, 1, 0, 8) >= LogOf(IMAGE).Capacity()
  {
    assert Children(ino[1]) == {2, 3};
    HowManyFit(b, ino, IMAGE, 1, 0, 8);
  }

  /** The image is sound and the file mirrored; the transaction of a write of its 4096 bytes does not pass. */
  lemma MirroredWriteOverruns()
    ensures Owned(Image(), IMAGE, Records()) && MirrorOk(Image(), Records(), 1)
    ensures forall j :: 0 <= j < 200 ==> NoHoles(Image(), Records()[j])
    ensures forall ops :: FitsExactly(ops, Image(), Records(), IMAGE, 1, 0, WRITE_MAX) ==>
      !LogTheory.Passes(LogOf(IMAGE), ops)
  {
    var b, ino := Image(), Records();
    Whole(b);
    assert ino[1] == Record(1) && ino[2] == Record(2) && ino[3] == Record(3);
    MirroredFile(b, ino);
    TooManySectors(b, ino);
  }

  /** Another ditto for that file is refused. */
  lemma SecondDuplicateRefused()
    ensures Records()[1].kind.File? && HasDittosAlready(Records()[1], 1)
  {
  }

  // ---- A rescue that is cut ---------------------------------------------------------------------

  function Tagged(x: byte): Block {
    ZeroBlock()[0 := x]
  }

  /** Two bytes of the file are damaged, one in each half. */
  function DamagedImage(): (b: seq<Block>)
    ensures |b| == 2048 && b[28] == Bits(FIRST + 24)
    ensures forall s :: FIRST + 8 <= s < FIRST + 24 ==> b[s] == ZeroBlock()
  {
    Image()[FIRST := Tagged(1)][FIRST + 4 := Tagged(2)]
  }

  function Damaged(): seq<byte> {
    Zeros(SIZE)[0 := 1][2048 := 2]
  }

  lemma DamagedFile()
    ensures |DamagedImage()| == 2048 && Content(DamagedImage(), Record(1)) == Damaged()
  {
    var b := DamagedImage();
    var file := Content(b, Record(1));
    forall o | 0 <= o < SIZE ensures file[o] == Damaged()[o] {
      var k := o / BSIZE;
      RecordRefs(b, 1, k);
      assert file[o] == ByteAt(b, Record(1), o);
      assert b[FIRST + k] == if k == 0 then Tagged(1) else if k == 4 then Tagged(2) else ZeroBlock();
    }
  }

  /** Its checksum tells. */
  lemma DamageShows(file: seq<byte>)
    requires file == Damaged()
    ensures Sum(file) == 3
  {
    var a, c := Zeros(2048)[0 := 1], Zeros(2048)[0 := 2];
    assert file == a + c;
    SumConcat(a, c);
    SumOfOneWord(a, 0, 512);
    SumOfOneWord(c, 0, 512);
    assert WordAt(a, 0) == 1 && WordAt(c, 0) == 2;
  }

  lemma FoundReplica(b: seq<Block>, ino: seq<Dinode>, valid: seq<bool>, file: seq<byte>)
    requires |ino| == |valid| && HasDittos(ino, 1) && forall j :: 0 <= j < |ino| ==> WellFormed(ino[j]) && !valid[j]
    requires !ino[1].kind.Dev? && Content(b, ino[1]) == file && Sum(file) != ino[1].checksum
    requires ino[1].child1 == 2 && Good(b, ino[2])
    ensures Verdict(b, ino, valid, 1) == Replica(2)
  {
  }

  lemma NeitherFile()
    ensures WrittenUpTo(Damaged(), 0, Zeros(SIZE), RESCUE_MAX) !in {Damaged(), Zeros(SIZE)}
  {
    HalfWritten(Damaged(), Zeros(SIZE), RESCUE_MAX);
    assert Damaged()[RESCUE_MAX..][0] != Zeros(SIZE)[RESCUE_MAX..][0];
    assert Overwritten(Damaged(), 0, Zeros(SIZE)[..RESCUE_MAX])[0] == 0;
  }

  /** Only the file itself is damaged, and ilock finds the first ditto to repair it from; one chunk of the rescue makes
      a file that is neither. */
  lemma MixedRescue(b: seq<Block>, ino: seq<Dinode>, valid: seq<bool>)
    requires b == DamagedImage() && ino == Records() && valid == seq(200, _ => false)
    ensures Owned(b, IMAGE, ino) && HasDittos(ino, 1) && (forall j :: 0 <= j < |ino| ==> WellFormed(ino[j]))
    ensures Verdict(b, ino, valid, 1) == Replica(2) && ino[1].size == ino[2].size > RESCUE_MAX
    ensures WrittenUpTo(Content(b, ino[1]), 0, Content(b, ino[2]), RESCUE_MAX)
            !in {Content(b, ino[1]), Content(b, ino[2])}
  {
    Whole(b);
    OwnedWellFormed(b, IMAGE, ino);
    assert ino[1] == Record(1) && ino[2] == Record(2) && ino[3] == Record(3);
    DamagedFile();
    var file := Content(b, ino[1]);
    DamageShows(file);
    ZeroFile(b, 2);
    FoundReplica(b, ino, valid, file);
    NeitherFile();
  }
}
