/** Bits of a bitmap block: byte bi/8, mask 1 << (bi % 8) (fs.c:64-66, fs.c:88-92, mkfs.c:328). */
module Bitmap {
  import opened Bytes

  const BPB: nat := 4096             // BSIZE * 8

  function Mask(k: nat): byte
    requires k < 8
  {
    1 << k
  }

  predicate BitAt(b: Block, bi: nat)
    requires bi < BPB
  {
    b[bi / 8] & Mask(bi % 8) != 0
  }

  function SetBit(b: Block, bi: nat): Block
    requires bi < BPB
  {
    b[bi / 8 := b[bi / 8] | Mask(bi % 8)]
  }

  function ClearBit(b: Block, bi: nat): Block
    requires bi < BPB
  {
    b[bi / 8 := b[bi / 8] & !Mask(bi % 8)]
  }

  lemma MaskBits(x: byte, j: nat, k: nat)
    requires j < 8 && k < 8
    ensures ((x | Mask(j)) & Mask(k) != 0) == (j == k || x & Mask(k) != 0)
    ensures ((x & !Mask(j)) & Mask(k) != 0) == (j != k && x & Mask(k) != 0)
  {
    assert Mask(0) == 1 && Mask(1) == 2 && Mask(2) == 4 && Mask(3) == 8;
    assert Mask(4) == 16 && Mask(5) == 32 && Mask(6) == 64 && Mask(7) == 128;
  }

  lemma SameBit(bi: nat, bj: nat)
    ensures bi == bj <==> bi / 8 == bj / 8 && bi % 8 == bj % 8
  {
  }

  /** Setting one bit changes that bit and no other. */
  lemma SetBitAt(b: Block, bi: nat, bj: nat)
    requires bi < BPB && bj < BPB
    ensures BitAt(SetBit(b, bi), bj) == (bi == bj || BitAt(b, bj))
  {
    SameBit(bi, bj);
    if bi / 8 == bj / 8 {
      MaskBits(b[bi / 8], bi % 8, bj % 8);
      assert SetBit(b, bi)[bj / 8] == b[bi / 8] | Mask(bi % 8);
    }
  }

  /** Clearing one bit changes that bit and no other. */
  lemma ClearBitAt(b: Block, bi: nat, bj: nat)
    requires bi < BPB && bj < BPB
    ensures BitAt(ClearBit(b, bi), bj) == (bi != bj && BitAt(b, bj))
  {
    SameBit(bi, bj);
    if bi / 8 == bj / 8 {
      MaskBits(b[bi / 8], bi % 8, bj % 8);
      assert ClearBit(b, bi)[bj / 8] == b[bi / 8] & !Mask(bi % 8);
    }
  }
}
