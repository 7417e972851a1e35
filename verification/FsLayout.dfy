/** The on-disk layout of kernel/fs.h: where bitmap bits and inodes live, and how inodes
    are stored in blocks. */
module FsLayout {
  import opened Blocks

  const NDIRECT: nat := 12
  const NINDIRECT: nat := 256
  const MAXFILE: nat := 268
  const IPB: nat := 16          // BSIZE / sizeof(struct dinode)

  datatype Dinode = Dinode(typ: nat, major: nat, minor: nat, nlink: nat, size: nat, addrs: seq<nat>) {

    /** The fields fit their C types. */
    predicate Fits() {
      && typ < 65536 && major < 65536 && minor < 65536 && nlink < 65536 && size < 0x1_0000_0000
      && |addrs| == NDIRECT + 1 && forall k :: 0 <= k < |addrs| ==> addrs[k] < 0x1_0000_0000
    }

    /** The inode as sixteen little-endian words. */
    function Words(): (w: seq<nat>)
      requires Fits()
      ensures |w| == 16 && forall i :: 0 <= i < 16 ==> w[i] < 0x1_0000_0000
    {
      [typ + 65536 * major, minor + 65536 * nlink, size] + addrs
    }
  }

  function FreeInode(typ: nat): (di: Dinode) {
    Dinode(typ, 0, 0, 0, 0, [0, 0, 0, 0, 0, 0, 0, 0, 0, 0, 0, 0, 0])
  }

  /** Inode number k of an inode block. */
  function GetInode(b: Block, k: nat): (di: Dinode)
    requires k < IPB
    ensures di.Fits()
  {
    var o := 16 * k;
    Dinode(Word(b, o) % 65536, Word(b, o) / 65536, Word(b, o + 1) % 65536, Word(b, o + 1) / 65536, Word(b, o + 2),
           [Word(b, o + 3), Word(b, o + 4), Word(b, o + 5), Word(b, o + 6), Word(b, o + 7), Word(b, o + 8),
            Word(b, o + 9), Word(b, o + 10), Word(b, o + 11), Word(b, o + 12), Word(b, o + 13), Word(b, o + 14),
            Word(b, o + 15)])
  }

  function PutWords(b: Block, o: nat, w: seq<nat>): (r: Block)
    requires o + |w| <= WORDS && forall i :: 0 <= i < |w| ==> w[i] < 0x1_0000_0000
    ensures forall i :: 0 <= i < |w| ==> Word(r, o + i) == w[i]
    ensures forall j {:trigger Word(r, j)} :: 0 <= j < WORDS && !(o <= j < o + |w|) ==> Word(r, j) == Word(b, j)
  {
    if w == [] then b else SetWord(PutWords(b, o, w[..|w| - 1]), o + |w| - 1, w[|w| - 1])
  }

  function SetInode(b: Block, k: nat, di: Dinode): (r: Block)
    requires k < IPB && di.Fits()
  {
    PutWords(b, 16 * k, di.Words())
  }

  lemma Halves(x: nat, y: nat)
    requires x < 65536
    ensures (x + 65536 * y) % 65536 == x && (x + 65536 * y) / 65536 == y
  {
  }

  lemma InodeRoundTrip(b: Block, k: nat, di: Dinode)
    requires k < IPB && di.Fits()
    ensures GetInode(SetInode(b, k, di), k) == di
  {
    hide PutWords, Word;
    var w, r, o := di.Words(), SetInode(b, k, di), 16 * k;
    assert Word(r, o + 0) == w[0] && Word(r, o + 1) == w[1] && Word(r, o + 2) == w[2];
    Halves(di.typ, di.major);
    Halves(di.minor, di.nlink);
    var e := GetInode(r, k);
    forall j | 0 <= j < 13 ensures e.addrs[j] == di.addrs[j] {
      assert w[j + 3] == di.addrs[j];
      assert e.addrs[j] == Word(r, o + (j + 3));
    }
    assert e.addrs == di.addrs;
  }

  lemma InodeOther(b: Block, k: nat, di: Dinode, j: nat)
    requires k < IPB && j < IPB && j != k && di.Fits()
    ensures GetInode(SetInode(b, k, di), j) == GetInode(b, j)
  {
    hide PutWords, Word;
  }

  /** The superblock fields fs.c uses. */
  datatype Super = Super(size: nat, ninodes: nat, inodestart: nat, bmapstart: nat) {

    /** First block after the bitmap: 2 + nlog + ninodeblocks + nbitmap in mkfs. */
    function DataStart(): nat { bmapstart + size / BITS + 1 }

    function BBlock(b: nat): nat { b / BITS + bmapstart }

    function IBlock(i: nat): nat { i / IPB + inodestart }

    ghost predicate Valid() {
      && 0 < inodestart && inodestart + ninodes / IPB + 1 <= bmapstart
      && DataStart() <= size < 0x1_0000_0000
    }

    ghost predicate Fits(d: Image) { Valid() && size <= |d| }

    predicate BitAt(d: Image, b: nat)
      requires b < size && BBlock(b) < |d|
    {
      Bit(d[BBlock(b)], b % BITS)
    }

    function InodeAt(d: Image, i: nat): Dinode
      requires IBlock(i) < |d|
    {
      GetInode(d[IBlock(i)], i % IPB)
    }

    function PutInode(d: Image, i: nat, di: Dinode): Image
      requires IBlock(i) < |d| && di.Fits()
    {
      d[IBlock(i) := SetInode(d[IBlock(i)], i % IPB, di)]
    }

    function PutBit(d: Image, b: nat, on: bool): Image
      requires b < size && BBlock(b) < |d|
    {
      d[BBlock(b) := SetBit(d[BBlock(b)], b % BITS, on)]
    }

    lemma InRange(b: nat, i: nat)
      requires Valid()
      ensures b < size ==> bmapstart <= BBlock(b) < DataStart()
      ensures i < ninodes ==> inodestart <= IBlock(i) < bmapstart
    {
    }

    lemma BitAfterPutBit(d: Image, b: nat, on: bool, c: nat)
      requires Fits(d) && b < size && c < size
      ensures BBlock(b) < |d| && BBlock(c) < |d|
      ensures BitAt(PutBit(d, b, on), c) == if c == b then on else BitAt(d, c)
    {
      InRange(b, 0);
      InRange(c, 0);
      if BBlock(b) == BBlock(c) {
        assert b / BITS == c / BITS;
      }
    }

    lemma InodeAfterPutInode(d: Image, i: nat, di: Dinode, j: nat)
      requires Fits(d) && i < ninodes && j < ninodes && di.Fits()
      ensures IBlock(i) < |d| && IBlock(j) < |d|
      ensures InodeAt(PutInode(d, i, di), j) == if j == i then di else InodeAt(d, j)
    {
      InRange(0, i);
      InRange(0, j);
      if IBlock(i) == IBlock(j) {
        assert i / IPB == j / IPB;
        if i == j {
          InodeRoundTrip(d[IBlock(i)], i % IPB, di);
        } else {
          InodeOther(d[IBlock(i)], i % IPB, di, j % IPB);
        }
      }
    }
  }
}
