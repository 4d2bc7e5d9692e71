/** The inode checksum: the exclusive or of a file's 32-bit words (fs.c:200-228, mkfs.c:159-175, mkfs.c:429-451). */
module Checksum {
  import opened Bytes

  /** Byte i of a buffer that is zero past the end of s. */
  function Padded(s: seq<byte>, i: nat): byte {
    if i < |s| then s[i] else 0
  }

  function Word32(b0: byte, b1: byte, b2: byte, b3: byte): bv32 {
    b0 as bv32 | ((b1 as bv32) << 8) | ((b2 as bv32) << 16) | ((b3 as bv32) << 24)
  }

  /** Word i of s, zero-padded. */
  function WordAt(s: seq<byte>, i: nat): bv32 {
    Word32(Padded(s, 4 * i), Padded(s, 4 * i + 1), Padded(s, 4 * i + 2), Padded(s, 4 * i + 3))
  }

  /** The exclusive or of the first n words. */
  function XorUpTo(s: seq<byte>, n: nat): bv32 {
    if n == 0 then 0 else XorUpTo(s, n - 1) ^ WordAt(s, n - 1)
  }

  function WordCount(n: nat): nat {
    (n + 3) / 4
  }

  /** The checksum of a byte sequence: the exclusive or of all its zero-padded words. */
  function Sum(s: seq<byte>): bv32 {
    XorUpTo(s, WordCount(|s|))
  }

  // ---- Chunking ---------------------------------------------------------

  lemma {:induction false} PaddingAddsNothing(s: seq<byte>, n: nat)
    requires n >= WordCount(|s|)
    ensures XorUpTo(s, n) == Sum(s)
  {
    if n > WordCount(|s|) {
      PaddingAddsNothing(s, n - 1);
      PaddingWord(s, n - 1);
      XorLaws(XorUpTo(s, n - 1), 0, 0);
    }
  }

  lemma PaddingWord(s: seq<byte>, k: nat)
    requires 4 * k >= |s|
    ensures WordAt(s, k) == 0
  {
    assert Padded(s, 4 * k) == 0 && Padded(s, 4 * k + 1) == 0 && Padded(s, 4 * k + 2) == 0 && Padded(s, 4 * k + 3) == 0;
  }

  lemma {:induction false} PrefixWords(a: seq<byte>, b: seq<byte>, n: nat)
    requires 4 * n <= |a|
    ensures XorUpTo(a + b, n) == XorUpTo(a, n)
  {
    if n > 0 {
      PrefixWords(a, b, n - 1);
    }
  }

  lemma XorLaws(a: bv32, b: bv32, c: bv32)
    ensures (a ^ b) ^ c == a ^ (b ^ c) && a ^ b == b ^ a && a ^ a == 0 && a ^ 0 == a
  {
  }

  lemma {:induction false} SuffixWords(a: seq<byte>, b: seq<byte>, n: nat)
    requires |a| % 4 == 0
    ensures XorUpTo(a + b, |a| / 4 + n) == XorUpTo(a + b, |a| / 4) ^ XorUpTo(b, n)
  {
    if n > 0 {
      SuffixWords(a, b, n - 1);
      assert WordAt(a + b, |a| / 4 + n - 1) == WordAt(b, n - 1);
      XorLaws(XorUpTo(a + b, |a| / 4), XorUpTo(b, n - 1), WordAt(b, n - 1));
    }
  }

  /** Splitting at a multiple of four bytes splits the checksum. */
  lemma SumConcat(a: seq<byte>, b: seq<byte>)
    requires |a| % 4 == 0
    ensures Sum(a + b) == Sum(a) ^ Sum(b)
  {
    PrefixWords(a, b, |a| / 4);
    SuffixWords(a, b, WordCount(|b|));
  }

  /** One step of a pass over a file: the bytes up to off are summed, the next ones are added. */
  lemma SumStep(file: seq<byte>, off: nat, end: nat, c: bv32)
    requires off <= end <= |file| && off % 4 == 0 && c == Sum(file[..off])
    ensures Sum(file[..end]) == c ^ Sum(file[off..end])
  {
    SumConcat(file[..off], file[off..end]);
    assert file[..off] + file[off..end] == file[..end];
  }

  function Flatten(chunks: seq<seq<byte>>): seq<byte> {
    if chunks == [] then [] else Flatten(chunks[..|chunks| - 1]) + chunks[|chunks| - 1]
  }

  /** The accumulator after streaming the chunks, each zero-padded to whole words. */
  function Stream(chunks: seq<seq<byte>>): bv32 {
    if chunks == [] then 0 else Stream(chunks[..|chunks| - 1]) ^ Sum(chunks[|chunks| - 1])
  }

  predicate WholeWords(chunks: seq<seq<byte>>) {
    forall i :: 0 <= i < |chunks| - 1 ==> |chunks[i]| % 4 == 0
  }

  lemma {:induction false} FlattenWhole(chunks: seq<seq<byte>>)
    requires forall i :: 0 <= i < |chunks| ==> |chunks[i]| % 4 == 0
    ensures |Flatten(chunks)| % 4 == 0
  {
    if chunks != [] {
      FlattenWhole(chunks[..|chunks| - 1]);
    }
  }

  /**
   The checksum does not depend on the chunk size: reading in chunks of any sizes,
   all but the last a multiple of four, gives the checksum of the whole. So the
   2048-byte passes of the kernel and of mkfs agree with mkfs's 512-byte stream.
   */
  lemma {:induction false} ChunkingIrrelevant(chunks: seq<seq<byte>>)
    requires WholeWords(chunks)
    ensures Stream(chunks) == Sum(Flatten(chunks))
  {
    if chunks != [] {
      var init, last := chunks[..|chunks| - 1], chunks[|chunks| - 1];
      ChunkingIrrelevant(init);
      FlattenWhole(init);
      SumConcat(Flatten(init), last);
    }
  }

  // ---- What damage is seen ----------------------------------------------

  /** The bytewise difference of two files of one size. */
  function Difference(a: seq<byte>, b: seq<byte>): (d: seq<byte>)
    requires |a| == |b|
    ensures |d| == |a|
  {
    seq(|a|, i requires 0 <= i < |a| => a[i] ^ b[i])
  }

  lemma Word32Xor(a0: byte, a1: byte, a2: byte, a3: byte, b0: byte, b1: byte, b2: byte, b3: byte)
    ensures Word32(a0 ^ b0, a1 ^ b1, a2 ^ b2, a3 ^ b3) == Word32(a0, a1, a2, a3) ^ Word32(b0, b1, b2, b3)
    ensures Word32(a0, a1, a2, a3) == Word32(b0, b1, b2, b3) ==> a0 == b0 && a1 == b1 && a2 == b2 && a3 == b3
  {
  }

  lemma PaddedXor(a: seq<byte>, b: seq<byte>, j: nat)
    requires |a| == |b|
    ensures Padded(Difference(a, b), j) == Padded(a, j) ^ Padded(b, j)
  {
  }

  lemma DifferenceWord(a: seq<byte>, b: seq<byte>, i: nat)
    requires |a| == |b|
    ensures WordAt(Difference(a, b), i) == WordAt(a, i) ^ WordAt(b, i)
  {
    PaddedXor(a, b, 4 * i);
    PaddedXor(a, b, 4 * i + 1);
    PaddedXor(a, b, 4 * i + 2);
    PaddedXor(a, b, 4 * i + 3);
    Word32Xor(Padded(a, 4 * i), Padded(a, 4 * i + 1), Padded(a, 4 * i + 2), Padded(a, 4 * i + 3),
              Padded(b, 4 * i), Padded(b, 4 * i + 1), Padded(b, 4 * i + 2), Padded(b, 4 * i + 3));
  }

  lemma XorSwap(a: bv32, b: bv32, x: bv32, y: bv32)
    ensures (a ^ b) ^ (x ^ y) == (a ^ x) ^ (b ^ y)
  {
  }

  lemma XorZero(a: bv32, b: bv32)
    ensures a == b <==> a ^ b == 0
  {
  }

  lemma {:induction false} XorOfDifference(a: seq<byte>, b: seq<byte>, n: nat)
    requires |a| == |b|
    ensures XorUpTo(Difference(a, b), n) == XorUpTo(a, n) ^ XorUpTo(b, n)
  {
    if n > 0 {
      XorOfDifference(a, b, n - 1);
      DifferenceWord(a, b, n - 1);
      XorSwap(XorUpTo(a, n - 1), XorUpTo(b, n - 1), WordAt(a, n - 1), WordAt(b, n - 1));
    }
  }

  lemma SumOfDifference(a: seq<byte>, b: seq<byte>, x: bv32, y: bv32)
    requires |a| == |b| && x == Sum(a) && y == Sum(b)
    ensures Sum(Difference(a, b)) == x ^ y
  {
    XorOfDifference(a, b, WordCount(|a|));
  }

  /** Damage that keeps the size goes unnoticed exactly when its word differences cancel. */
  lemma DamageUnnoticed(a: seq<byte>, b: seq<byte>)
    requires |a| == |b|
    ensures Sum(a) == Sum(b) <==> Sum(Difference(a, b)) == 0
  {
    var x, y := Sum(a), Sum(b);
    SumOfDifference(a, b, x, y);
    XorZero(x, y);
  }

  /** For example two words that have changed places. */
  lemma SwapUnnoticed()
    ensures Sum([1, 0, 0, 0, 0, 0, 0, 0]) == Sum([0, 0, 0, 0, 1, 0, 0, 0])
  {
    var a: seq<byte>, b: seq<byte> := [1, 0, 0, 0, 0, 0, 0, 0], [0, 0, 0, 0, 1, 0, 0, 0];
    SumOfOneWord(a, 0, 2);
    SumOfOneWord(b, 1, 2);
  }

  lemma {:induction false} SumOfOneWord(d: seq<byte>, k: nat, n: nat)
    requires forall i :: 0 <= i < |d| && i / 4 != k ==> d[i] == 0
    ensures XorUpTo(d, n) == if k < n then WordAt(d, k) else 0
  {
    if n > 0 {
      SumOfOneWord(d, k, n - 1);
      if n - 1 != k {
        assert WordAt(d, n - 1) == 0;
      }
      XorLaws(0, WordAt(d, k), 0);
    }
  }

  /** Damage within one word is always noticed. */
  lemma OneWordDamageNoticed(a: seq<byte>, b: seq<byte>, k: nat)
    requires |a| == |b| && a != b
    requires forall i :: 0 <= i < |a| && i / 4 != k ==> a[i] == b[i]
    ensures Sum(a) != Sum(b)
  {
    var d := Difference(a, b);
    var j :| 0 <= j < |a| && a[j] != b[j];
    SumOfOneWord(d, k, WordCount(|a|));
    DamageUnnoticed(a, b);
    assert Padded(d, j) != 0;
    Word32Xor(Padded(d, 4 * k), Padded(d, 4 * k + 1), Padded(d, 4 * k + 2), Padded(d, 4 * k + 3), 0, 0, 0, 0);
  }

  // ---- The loops ----------------------------------------------------------

  /** ichecksum's inner loop: exclusive or of the whole words of a zero-padded buffer (fs.c:219-223). */
  method XorBuffer(data: seq<byte>, words: nat, checksum: bv32) returns (c: bv32)
    requires |data| <= 4 * words
    ensures c == checksum ^ Sum(data)
  {
    c := checksum;
    var i := 0;
    while i < words
      invariant i <= words && c == checksum ^ XorUpTo(data, i)
    {
      XorLaws(checksum, XorUpTo(data, i), WordAt(data, i));
      c := c ^ WordAt(data, i);
      i := i + 1;
    }
    PaddingAddsNothing(data, words);
  }

  /** The same loop as a step of a pass over a file: bytes off..end join the checksum of the bytes before. */
  method XorChunk(data: seq<byte>, words: nat, checksum: bv32, ghost file: seq<byte>, ghost off: nat, ghost end: nat)
    returns (c: bv32)
    requires off <= end <= |file| && off % 4 == 0 && data == file[off..end] && |data| <= 4 * words
    requires checksum == Sum(file[..off])
    ensures c == Sum(file[..end])
  {
    SumStep(file, off, end, checksum);
    c := XorBuffer(data, words, checksum);
  }
}
