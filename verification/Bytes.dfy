/** Bytes, 32-bit little-endian words and disk blocks (types.h, fs.h, x86 byte order). */
module Bytes {
  type byte = bv8

  const BSIZE: nat := 512
  const WORDS: nat := 128            // BSIZE / sizeof(uint)
  const UINT_LIMIT: nat := 0x1_0000_0000

  type Block = b: seq<byte> | |b| == BSIZE witness seq(BSIZE, _ => 0)

  function ZeroBlock(): (b: Block)
    ensures forall i :: 0 <= i < BSIZE ==> b[i] == 0
  {
    seq(BSIZE, _ => 0)
  }

  function Value(b: byte): (n: nat)
    ensures n < 0x100
  {
    b as nat
  }

  /** The byte whose value is n. */
  function Byte(n: nat): (b: byte)
    requires n < 0x100
    ensures Value(b) == n
  {
    if n == 0 then 0 else Byte(n - 1) + 1
  }

  /** The value of four bytes read as a uint: least significant byte first. */
  function UintOf(w: seq<byte>): (n: nat)
    requires |w| == 4
    ensures n < UINT_LIMIT
  {
    Value(w[0]) + 0x100 * Value(w[1]) + 0x10000 * Value(w[2]) + 0x1000000 * Value(w[3])
  }

  lemma Digits(n: nat)
    requires n < UINT_LIMIT
    ensures n / 0x1000000 < 0x100
    ensures n == n % 0x100 + 0x100 * (n / 0x100 % 0x100) + 0x10000 * (n / 0x10000 % 0x100) + 0x1000000 * (n / 0x1000000)
  {
  }

  function BytesOf(n: nat): (w: seq<byte>)
    requires n < UINT_LIMIT
    ensures |w| == 4 && UintOf(w) == n
  {
    Digits(n);
    [Byte(n % 0x100), Byte(n / 0x100 % 0x100), Byte(n / 0x10000 % 0x100), Byte(n / 0x1000000)]
  }

  /** ((uint*)b)[i] */
  function Word(b: Block, i: nat): (n: nat)
    requires i < WORDS
    ensures n < UINT_LIMIT
  {
    UintOf(b[4 * i .. 4 * i + 4])
  }

  /** ((uint*)b)[i] = n */
  function SetWord(b: Block, i: nat, n: nat): (r: Block)
    requires i < WORDS && n < UINT_LIMIT
  {
    b[..4 * i] + BytesOf(n) + b[4 * i + 4..]
  }

  lemma WordOfSetWord(b: Block, i: nat, n: nat, j: nat)
    requires i < WORDS && j < WORDS && n < UINT_LIMIT
    ensures Word(SetWord(b, i, n), j) == if i == j then n else Word(b, j)
  {
    var r := SetWord(b, i, n);
    if i == j {
      assert r[4 * j .. 4 * j + 4] == BytesOf(n);
    } else {
      assert r[4 * j .. 4 * j + 4] == b[4 * j .. 4 * j + 4];
    }
  }

  /** The overflow test `a + b < a` of unsigned arithmetic. */
  lemma SumWraps(a: nat, b: nat)
    requires a < UINT_LIMIT && b < UINT_LIMIT
    ensures (a + b) % UINT_LIMIT < a <==> a + b >= UINT_LIMIT
  {
    assert (a + b) % UINT_LIMIT == if a + b >= UINT_LIMIT then a + b - UINT_LIMIT else a + b;
  }
}
