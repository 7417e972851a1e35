/** Disk blocks as raw bytes, with the two views the kernel takes of them: an array of
    32-bit little-endian words (log header, inodes, indirect blocks) and an array of bits
    (free map). */
module Blocks {

  const BSIZE: nat := 1024
  const WORDS: nat := 256       // BSIZE / sizeof(uint)
  const BITS: nat := 8192       // BSIZE * 8

  type byte = x: nat | x < 256
  type word = x: nat | x < 0x1_0000_0000
  datatype RawBlock = RawBlock(bytes: seq<byte>)
  type Block = b: RawBlock | |b.bytes| == BSIZE witness RawBlock(seq(BSIZE, _ => 0))

  /** A disk image. */
  type Image = seq<Block>

  function Zero(): Block { RawBlock(seq(BSIZE, _ => 0)) }

  // ---- words -------------------------------------------------------------------

  function Word(b: Block, j: nat): (w: word)
    requires j < WORDS
  {
    var b0: nat, b1: nat := b.bytes[4 * j], b.bytes[4 * j + 1];
    var b2: nat, b3: nat := b.bytes[4 * j + 2], b.bytes[4 * j + 3];
    b0 + 256 * b1 + 65536 * b2 + 16777216 * b3
  }

  /** Store `v` as word `j`; every other word keeps its value. */
  function SetWord(b: Block, j: nat, v: word): (r: Block)
    requires j < WORDS
    ensures Word(r, j) == v
    ensures forall k {:trigger Word(r, k)} :: 0 <= k < WORDS && k != j ==> Word(r, k) == Word(b, k)
  {
    Digits(v);
    RawBlock(b.bytes[4 * j := v % 256][4 * j + 1 := v / 256 % 256]
             [4 * j + 2 := v / 65536 % 256][4 * j + 3 := v / 16777216])
  }

  lemma Digits(v: word)
    ensures v == v % 256 + 256 * (v / 256 % 256) + 65536 * (v / 65536 % 256) + 16777216 * (v / 16777216)
    ensures v / 16777216 < 256
  {
    assert v / 65536 == v / 256 / 256 && v / 16777216 == v / 65536 / 256;
  }

  lemma ZeroWords(j: nat)
    requires j < WORDS
    ensures Word(Zero(), j) == 0
  {
  }

  // ---- bits --------------------------------------------------------------------

  /** Bit k of x: the low bit after shifting right k times. */
  predicate HasBit(x: nat, k: nat) {
    if k == 0 then x % 2 == 1 else HasBit(x / 2, k - 1)
  }

  /** x with bit k set or cleared. */
  function PutBit(x: nat, k: nat, on: bool): (r: nat)
    ensures HasBit(r, k) == on
    ensures forall i: nat {:trigger HasBit(r, i)} :: i != k ==> HasBit(r, i) == HasBit(x, i)
  {
    if k == 0 then x / 2 * 2 + (if on then 1 else 0)
    else PutBit(x / 2, k - 1, on) * 2 + x % 2
  }

  ghost function Pow2(n: nat): (p: nat)
    ensures p > 0
  {
    if n == 0 then 1 else 2 * Pow2(n - 1)
  }

  lemma {:induction false} PutBitBound(x: nat, k: nat, on: bool, n: nat)
    requires k < n && x < Pow2(n)
    ensures PutBit(x, k, on) < Pow2(n)
  {
    if k > 0 {
      PutBitBound(x / 2, k - 1, on, n - 1);
    }
  }

  predicate Bit(b: Block, i: nat)
    requires i < BITS
  {
    HasBit(b.bytes[i / 8], i % 8)
  }

  /** Set or clear bit `i` of the block; every other bit keeps its value. */
  function SetBit(b: Block, i: nat, on: bool): (r: Block)
    requires i < BITS
    ensures Bit(r, i) == on
    ensures forall k {:trigger Bit(r, k)} :: 0 <= k < BITS && k != i ==> Bit(r, k) == Bit(b, k)
  {
    PutBitBound(b.bytes[i / 8], i % 8, on, 8);
    assert Pow2(8) == 2 * Pow2(7) && Pow2(7) == 2 * Pow2(6) && Pow2(6) == 2 * Pow2(5) && Pow2(5) == 2 * Pow2(4);
    assert Pow2(4) == 16;
    RawBlock(b.bytes[i / 8 := PutBit(b.bytes[i / 8], i % 8, on)])
  }
}
