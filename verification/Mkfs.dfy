/** mkfs/mkfs.c: building the first image.  mkfs hands out blocks from a counter and writes
    the bitmap last; the ghost state `g` is the image with the bits of the blocks handed out
    already set, so the kernel's own invariant is kept at every step. */
module Mkfs {
  import opened Blocks
  import opened FsLayout
  import opened FsCore

  /** The bits below n set. */
  ghost function Marked(sb: Super, d: Image, n: nat): (r: Image)
    requires sb.Fits(d) && n <= sb.size
    ensures |r| == |d|
  {
    if n == 0 then d else (sb.InRange(n - 1, 0); sb.PutBit(Marked(sb, d, n - 1), n - 1, true))
  }

  lemma {:induction false} MarkedBits(sb: Super, d: Image, n: nat, b: nat)
    requires sb.Fits(d) && n <= sb.size && b < sb.size
    ensures sb.BBlock(b) < |d| && (sb.BitAt(Marked(sb, d, n), b) <==> b < n || sb.BitAt(d, b))
  {
    sb.InRange(b, 0);
    if n > 0 {
      MarkedBits(sb, d, n - 1, b);
      sb.BitAfterPutBit(Marked(sb, d, n - 1), n - 1, true, b);
    }
  }

  lemma {:induction false} MarkedOther(sb: Super, d: Image, n: nat, x: nat)
    requires sb.Fits(d) && n <= sb.size && x < |d| && !(sb.bmapstart <= x < sb.DataStart())
    ensures Marked(sb, d, n)[x] == d[x]
  {
    if n > 0 {
      MarkedOther(sb, d, n - 1, x);
      sb.InRange(n - 1, 0);
    }
  }

  /** An inode or bitmap bit of a zero block. */
  lemma ZeroInode(k: nat)
    requires k < IPB
    ensures GetInode(Zero(), k) == FreeInode(0)
  {
    hide Zero, Word;
    forall j | 0 <= j < WORDS ensures Word(Zero(), j) == 0 { ZeroWords(j); }
    assert GetInode(Zero(), k).addrs == FreeInode(0).addrs;
  }

  lemma {:induction false} ZeroBits(k: nat)
    ensures !HasBit(0, k)
  {
    if k > 0 { ZeroBits(k - 1); }
  }

  lemma ZeroBit(i: nat)
    requires i < BITS
    ensures !Bit(Zero(), i)
  {
    ZeroBits(i % 8);
  }

  const BYTES_PER_DIRENT: nat := 16

  /** A host file: its directory entry, and its contents in the pieces read() returns. */
  datatype HostFile = HostFile(dirent: seq<byte>, pieces: seq<seq<byte>>) {
    ghost function Size(): nat { |Flatten(pieces, |pieces|)| }
  }

  ghost function Flatten(p: seq<seq<byte>>, n: nat): seq<byte>
    requires n <= |p|
  {
    if n == 0 then [] else Flatten(p, n - 1) + p[n - 1]
  }

  /** The image has the size the superblock says, and its log is blank. */
  ghost predicate BlankLog(sb: Super, d: Image) {
    |d| == sb.size && forall x :: 2 <= x < sb.inodestart && x < |d| ==> d[x] == Zero()
  }

  /** The image d so far against e, which has the bits below `free` set. */
  ghost predicate Deferred(sb: Super, d: Image, e: Image, free: nat) {
    && sb.Fits(d) && |e| == |d| && sb.DataStart() <= free <= sb.size && BlankLog(sb, d)
    && (forall x {:trigger d[x]} {:trigger e[x]} ::
       0 <= x < |d| && !(sb.bmapstart <= x < sb.DataStart()) ==> d[x] == e[x])
    && (forall x :: free <= x < sb.size ==> d[x] == Zero())
    && (forall x :: sb.bmapstart <= x < sb.DataStart() ==> d[x] == Zero())
    && (forall b :: 0 <= b < sb.size ==> sb.BBlock(b) < |e| && (sb.BitAt(e, b) <==> b < free))
  }

  ghost predicate FreeFrom(ino: seq<Dinode>, n: nat) {
    forall i :: n <= i < |ino| ==> ino[i] == FreeInode(0)
  }

  /** The empty file system on a zero image whose metadata bits are set. */
  ghost function EmptyFs(sb: Super, d: Image): Fs
    requires sb.Fits(d)
  {
    Fs(Marked(sb, d, sb.DataStart()), seq(sb.ninodes, _ => FreeInode(0)), map[], {})
  }

  lemma EmptyBits(sb: Super, d: Image, b: nat)
    requires sb.Fits(d) && b < sb.size
    requires forall x :: sb.bmapstart <= x < sb.DataStart() ==> d[x] == Zero()
    ensures sb.BBlock(b) < |d| && (sb.BitAt(Marked(sb, d, sb.DataStart()), b) <==> b < sb.DataStart())
  {
    sb.InRange(b, 0);
    MarkedBits(sb, d, sb.DataStart(), b);
    ZeroBit(b % BITS);
  }

  lemma EmptyInv(sb: Super, d: Image)
    requires sb.Fits(d) && |d| == sb.size && sb.inodestart >= 2 && forall x :: 2 <= x < |d| ==> d[x] == Zero()
    ensures EmptyFs(sb, d).Inv(sb) && EmptyFs(sb, d).Stored(sb, -1)
    ensures Deferred(sb, d, EmptyFs(sb, d).disk, sb.DataStart())
  {
    var g := EmptyFs(sb, d);
    forall i: nat, k: nat ensures g.S(i, k) == 0 { }
    forall b | 0 <= b < sb.size ensures sb.BBlock(b) < |d| && (sb.BitAt(g.disk, b) <==> b < sb.DataStart()) {
      EmptyBits(sb, d, b);
    }
    forall x | 0 <= x < |d| && !(sb.bmapstart <= x < sb.DataStart()) ensures d[x] == g.disk[x] {
      MarkedOther(sb, d, sb.DataStart(), x);
    }
    forall i | 0 <= i < sb.ninodes ensures sb.IBlock(i) < |g.disk| && sb.InodeAt(g.disk, i) == g.ino[i] {
      sb.InRange(0, i);
      ZeroInode(i % IPB);
    }
  }

  /** Storing the same block outside the bitmap in both images keeps them in step. */
  lemma DeferredPut(sb: Super, d: Image, e: Image, free: nat, x: nat, b: Block)
    requires Deferred(sb, d, e, free) && sb.inodestart <= x < |d| && !(sb.bmapstart <= x < sb.DataStart())
               && (free <= x < sb.size ==> b == Zero())
    ensures Deferred(sb, d[x := b], e[x := b], free)
  {
    forall c | 0 <= c < sb.size ensures sb.BBlock(c) < |e| && (sb.BitAt(e[x := b], c) <==> c < free) {
      sb.InRange(c, 0);
    }
  }

  /** Handing out the next block is an allocation whose bitmap write is deferred. */
  lemma DeferredAlloc(sb: Super, d: Image, e: Image, free: nat)
    requires Deferred(sb, d, e, free) && free < sb.size
    ensures sb.BBlock(free) < |e| && !sb.BitAt(e, free)
    ensures Deferred(sb, d, sb.PutBit(e, free, true)[free := Zero()], free + 1)
  {
    sb.InRange(free, 0);
    var f := sb.PutBit(e, free, true)[free := Zero()];
    forall b | 0 <= b < sb.size ensures sb.BBlock(b) < |f| && (sb.BitAt(f, b) <==> b < free + 1) {
      sb.InRange(b, 0);
      sb.BitAfterPutBit(e, free, true, b);
    }
  }

  class Mkfs {
    const sb: Super
    var disk: Image
    var freeinode: nat
    var freeblock: nat
    ghost var g: Fs

    /** Blocks below freeblock have been handed out, inodes from freeinode on are free. */
    ghost predicate Valid(dirty: int)
      reads this
    {
      && g.Inv(sb) && g.extra == {} && g.Stored(sb, dirty) && Deferred(sb, disk, g.disk, freeblock)
      && 1 <= freeinode <= sb.ninodes && FreeFrom(g.ino, freeinode)
    }

    /** The zero image with the superblock written, before any inode is allocated. */
    constructor (s: Super, super: Block)
      requires s.Valid() && s.inodestart >= 2 && s.ninodes >= 1
      ensures sb == s && Valid(-1) && freeinode == 1 && freeblock == s.DataStart()
      ensures g.ino == seq(s.ninodes, _ => FreeInode(0))
    {
      var d: Image := seq(s.size, _ => Zero());
      d := d[1 := super];
      EmptyInv(s, d);
      sb, disk, freeinode, freeblock := s, d, 1, s.DataStart();
      g := EmptyFs(s, d);
    }

    /** ialloc(): the next inode, with one link; `!ok` when the inodes have run out. */
    method Ialloc(typ: nat) returns (ok: bool, i: nat)
      requires Valid(-1) && 0 < typ < 65536
      modifies this`disk, this`freeinode, this`g
      ensures Valid(-1) && i == old(freeinode)
      ensures ok <==> i < sb.ninodes
      ensures ok ==> freeinode == i + 1 && i < |old(g).ino| && g.ino == old(g).ino[i := FreeInode(typ).(nlink := 1)]
      ensures ok ==>
                old(g).SameSlots(g) && g.owner == old(g).owner && old(g).ino[i].typ == 0 && |g.disk| == |old(g).disk|
      ensures ok ==> forall x {:trigger g.disk[x]} :: sb.bmapstart <= x < |g.disk| ==> g.disk[x] == old(g).disk[x]
      ensures !ok ==> g == old(g) && disk == old(disk) && freeinode == old(freeinode)
    {
      hide Fs.Owned, Fs.InData, Fs.Bits, Fs.Filled, Fs.Stored, Fs.S;
      i := freeinode;
      ok := i < sb.ninodes;
      if ok {
        var di := FreeInode(typ).(nlink := 1);
        g.AllocInode(sb, i, di);
        var x := sb.IBlock(i);
        DeferredPut(sb, disk, g.disk, freeblock, x, SetInode(disk[x], i % IPB, di));
        disk := sb.PutInode(disk, i, di);
        g := Fs(sb.PutInode(g.disk, i, di), g.ino[i := di], g.owner, g.extra);
        freeinode := i + 1;
      }
    }

    /** Address slot k of the inode, filled with the next block if it is empty; `!ok` when the
        image is full. */
    method FillSlot(i: nat, din: Dinode, k: nat) returns (ok: bool, out: Dinode)
      requires Valid(i) && i < freeinode && i < |g.ino| && din == g.ino[i] && din.typ != 0 && k <= IND
      modifies this`freeblock, this`g
      ensures ok ==> Valid(i) && |g.ino| == |old(g).ino| && out == g.ino[i] && out.typ != 0 && old(g).Extends(g)
      ensures ok ==> g.S(i, k) != 0 && OnlySlot(old(g), g, i, k, k)
      ensures ok <==> old(freeblock) + (if old(g).S(i, k) == 0 then 1 else 0) <= sb.size
      ensures ok ==> freeblock == old(freeblock) + if old(g).S(i, k) == 0 then 1 else 0
      ensures ok && old(g).S(i, k) == 0 ==> Blank(g, g.S(i, k))
    {
      hide Fs.Owned, Fs.InData, Fs.Bits, Fs.Filled, Fs.Stored, Fs.Extends, Deferred;
      ok, out := true, din;
      g.ShapeAt(sb, i);
      DeferredRange(sb, disk, g.disk, freeblock);
      if din.addrs[k] == 0 {
        ok := freeblock < sb.size;
        if ok {
          DeferredAlloc(sb, disk, g.disk, freeblock);
          g.GrowKeeps(sb, i, k, freeblock);
          forall i': nat, k': nat | !(i' == i && k' == k) ensures g.Grow(sb, i, k, freeblock).S(i', k') == g.S(i', k') {
            g.GrowSlot(sb, i, k, freeblock, i', k');
          }
          out := din.(addrs := din.addrs[k := freeblock]);
          g := g.Grow(sb, i, k, freeblock);
          freeblock := freeblock + 1;
        }
      } else {
        g.ExtendsRefl();
      }
    }

    /** The same for entry j of the indirect block, which is read and written back. */
    method FillEntry(i: nat, din: Dinode, j: nat) returns (ok: bool)
      requires Valid(i) && i < freeinode && i < |g.ino| && din == g.ino[i] && din.typ != 0 && j < NINDIRECT
                 && g.S(i, IND) != 0
      modifies this`disk, this`freeblock, this`g
      ensures ok ==> Valid(i) && g.ino == old(g).ino && old(g).Extends(g) && g.S(i, 13 + j) != 0
      ensures ok ==> OnlySlot(old(g), g, i, 13 + j, 13 + j)
      ensures ok <==> old(freeblock) + (if old(g).S(i, 13 + j) == 0 then 1 else 0) <= sb.size
      ensures ok ==> freeblock == old(freeblock) + if old(g).S(i, 13 + j) == 0 then 1 else 0
      ensures ok && old(g).S(i, 13 + j) == 0 ==> Blank(g, g.S(i, 13 + j))
    {
      hide Fs.Owned, Fs.InData, Fs.Bits, Fs.Filled, Fs.Stored, Fs.Extends, Deferred, OnlySlot, Blank;
      ok := true;
      g.ShapeAt(sb, i);
      g.InDisk(sb, i, IND);
      var ind := din.addrs[IND];
      DeferredRange(sb, disk, g.disk, freeblock);
      DeferredAt(sb, disk, g.disk, freeblock, ind);
      OwnedBelow(sb, g, disk, freeblock, i, IND);
      if Word(disk[ind], j) == 0 {
        ok := freeblock < sb.size;
        if ok {
          DeferredAlloc(sb, disk, g.disk, freeblock);
          g.GrowEntryKeeps(sb, i, j, freeblock);
          EntryGrown(sb, g, i, j, freeblock);
          ghost var e := g.Alloc(sb, freeblock).disk;
          var b := SetWord(disk[ind], j, freeblock);
          DeferredPut(sb, disk, e, freeblock + 1, ind, b);
          disk := disk[ind := b];
          g := g.GrowEntry(sb, i, j, freeblock);
          freeblock := freeblock + 1;
        }
      } else {
        g.ExtendsRefl();
        OnlySlotNone(g, i, 13 + j, 13 + j);
      }
    }

    /** One round of iappend's loop: find or make the block, then copy `chunk` into it. */
    method AppendOne(i: nat, din: Dinode, off: nat, chunk: seq<byte>) returns (ok: bool, out: Dinode)
      requires Valid(i) && i < freeinode && i < |g.ino| && din == g.ino[i] && din.typ != 0
                 && off % BSIZE + |chunk| <= BSIZE
      modifies this`disk, this`freeblock, this`g
      ensures ok ==> Valid(i) && |g.ino| == |old(g).ino| && out == g.ino[i] && out.typ != 0
      ensures ok ==> old(g).Wrote(g, i, off, chunk) && off / BSIZE < MAXFILE
      ensures ok ==> OnlySlot(old(g), g, i, SlotOf(off / BSIZE), IND)
      ensures ok ==> (g.S(i, IND) != 0 <==> old(g).S(i, IND) != 0 || off / BSIZE >= NDIRECT)
      ensures ok <==> off / BSIZE < MAXFILE && old(freeblock) + Missing(old(g), i, off / BSIZE) <= sb.size
      ensures ok ==> freeblock == old(freeblock) + Missing(old(g), i, off / BSIZE)
      ensures ok && Padded(old(g), i, off) ==> Padded(g, i, off + |chunk|)
    {
      hide Fs.Owned, Fs.InData, Fs.Bits, Fs.Filled, Fs.Stored, Fs.Extends, Deferred, Fs.Wrote, Fs.S, Fs.Inv, Padded,
           Blank;
      var fbn := off / BSIZE;
      MissingEntry(g, i, fbn);
      ok, out := fbn < MAXFILE, din;
      if ok {
        ok, out := FillSlot(i, din, if fbn < NDIRECT then fbn else IND);
      }
      if ok && fbn >= NDIRECT {
        ghost var g1 := g;
        ok := FillEntry(i, out, fbn - NDIRECT);
        if ok { old(g).ExtendsTrans(g1, g); }
      }
      if !ok {
        return;
      }
      old(g).ExtendsWrote(g, i, off);
      ghost var g2 := g;
      BlankPads(old(g), g, i, off);
      WriteAt(i, out, fbn, off % BSIZE, chunk);
      WrotePads(g2, g, i, off, chunk);
      old(g).WroteTrans(g2, g, i, off, [], chunk);
      assert [] + chunk == chunk;
    }

    /** Read the block of file block fbn, copy `chunk` into it, write it back. */
    method WriteAt(i: nat, din: Dinode, fbn: nat, o: nat, chunk: seq<byte>)
      requires Valid(i) && i < |g.ino| && din == g.ino[i] && fbn < MAXFILE && o + |chunk| <= BSIZE
                 && g.S(i, SlotOf(fbn)) != 0
      modifies this`disk, this`g
      ensures Valid(i) && g.ino == old(g).ino && old(g).Wrote(g, i, fbn * BSIZE + o, chunk) && old(g).SameSlots(g)
      ensures |g.disk| == |old(g).disk|
    {
      hide Fs.Owned, Fs.InData, Fs.Bits, Fs.Filled, Fs.Stored, Deferred, Fs.Wrote;
      g.ShapeAt(sb, i);
      ghost var k := SlotOf(fbn);
      g.InDisk(sb, i, k);
      OwnedBelow(sb, g, disk, freeblock, i, k);
      DeferredAt(sb, disk, g.disk, freeblock, g.S(i, k));
      var x := din.addrs[if fbn < NDIRECT then fbn else IND];
      if fbn >= NDIRECT {
        g.InDisk(sb, i, IND);
        DeferredAt(sb, disk, g.disk, freeblock, x);
        x := Word(disk[x], fbn - NDIRECT);
      }
      var data := Overlay(disk[x], o, chunk);
      g.DataKeeps(sb, i, k, data);
      g.DataStored(sb, i, k, data, i);
      g.ChunkWrote(sb, i, fbn, o, chunk);
      DeferredPut(sb, disk, g.disk, freeblock, x, data);
      disk := disk[x := data];
      g := g.WriteBlock(x, data);
    }

    /** rinode(): the stored inode. */
    method Rinode(i: nat) returns (din: Dinode)
      requires Valid(-1) && i < |g.ino|
      ensures din == g.ino[i] && din.Fits()
    {
      hide Fs.Owned, Fs.InData, Fs.Bits, Fs.Filled;
      g.StoredAt(sb, i);
      sb.InRange(0, i);
      din := sb.InodeAt(disk, i);
    }

    /** winode() of inode i with a new size; the file must have blocks up to it. */
    method Winode(i: nat, din: Dinode)
      requires Valid(i) && i < freeinode && i < |g.ino| && din == g.ino[i].(size := din.size) && din.typ != 0
      requires din.size <= MAXFILE * BSIZE
      requires forall bn: nat {:trigger g.S(i, SlotOf(bn))} :: bn * BSIZE < din.size ==> g.S(i, SlotOf(bn)) != 0
      modifies this`disk, this`g
      ensures Valid(-1) && g.ino == old(g).ino[i := din] && old(g).SameSlots(g) && old(g).SameBytes(g)
    {
      hide Fs.Owned, Fs.InData, Fs.Bits, Fs.Stored, Deferred, Fs.S;
      g.ShapeAt(sb, i);
      sb.InRange(0, i);
      g.EditKeeps(sb, i, din);
      g.EditStored(sb, i, din);
      ghost var e := g.Edit(i, din);
      e.Updated(sb, i);
      var x := sb.IBlock(i);
      DeferredLow(sb, disk, g.disk, freeblock, x);
      DeferredPut(sb, disk, g.disk, freeblock, x, SetInode(disk[x], i % IPB, din));
      disk := sb.PutInode(disk, i, din);
      g := e.(disk := sb.PutInode(e.disk, i, din));
      old(g).FrameBytes(sb, g);
    }

    /** The end of iappend(): store the inode with its new size. */
    method FinishAppend(i: nat, din: Dinode, data: seq<byte>, ghost g0: Fs)
      requires Valid(i) && i < freeinode && g0.Inv(sb) && i < |g.ino| == |g0.ino| && din == g.ino[i] && din.typ != 0
      requires g0.ino[i].size + |data| <= MAXFILE * BSIZE
      requires g0.Wrote(g, i, g0.ino[i].size, data) && GrownTo(g0, g, i, g0.ino[i].size + |data|)
      requires g.S(i, IND) != 0 <==> g0.ino[i].size + |data| > NDIRECT * BSIZE
      requires Padded(g, i, g0.ino[i].size + |data|)
      modifies this`disk, this`g
      ensures Valid(-1) && Appended(g0, g, i, data)
    {
      hide Fs.Owned, Fs.InData, Fs.Bits, Fs.Filled, Fs.Stored, Deferred, Fs.S, Fs.Inv, Fs.SameBytes, GrownTo, Snug,
           Padded;
      ghost var g1, off := g, g0.ino[i].size;
      g0.WroteSize(g, i, off, data);
      forall bn: nat | bn * BSIZE < off + |data| ensures g.S(i, SlotOf(bn)) != 0 {
        g0.SplicedNoHole(sb, g, i, off, data, bn);
      }
      Winode(i, din.(size := din.size + |data|));
      g0.Spliced(sb, g1, g, i, off, data);
      assert Splice(g0.Content(i), off, data) == g0.Content(i) + data;
      SnugKeeps(sb, g0, g1, g, i, data);
    }

    /** iappend(): the file becomes its old contents followed by `data`, no other file changes,
        and exactly the blocks are taken that the new size needs and the old did not.  `!ok`
        exactly when the file gets too large (the assert) or the image has not that many
        blocks left. */
    method Iappend(i: nat, data: seq<byte>) returns (ok: bool)
      requires Valid(-1) && i < freeinode && i < |g.ino| && g.ino[i].typ != 0 && Snug(g, i)
      modifies this`disk, this`freeblock, this`g
      ensures ok <==> var size := old(g).ino[i].size; CanGrow(sb, old(freeblock), size, size + |data|)
      ensures ok ==> Valid(-1) && Appended(old(g), g, i, data)
      ensures ok ==> freeblock == old(freeblock) + Need(g.ino[i].size) - Need(old(g).ino[i].size)
    {
      hide Fs.Owned, Fs.InData, Fs.Bits, Fs.Filled, Fs.Stored, Deferred, Fs.S, Fs.Wrote, Fs.Inv, Fs.SameBytes, Need,
           Missing, GrownTo, Snug, Appended, OnlySlot, FreeFrom, Padded;
      ghost var g0 := g;
      GrownNone(g0, i);
      g.StoredWeaken(sb, i);
      g0.ExtendsRefl();
      g0.ExtendsWrote(g0, i, g0.ino[i].size);
      g0.ShapeAt(sb, i);
      DeferredRange(sb, disk, g.disk, freeblock);
      var din := Rinode(i);
      var off0, off := din.size, din.size;
      ok := true;
      while off < off0 + |data|
        modifies this`disk, this`freeblock, this`g
        invariant off0 <= off <= off0 + |data| && Valid(i) && |g.ino| == |g0.ino| && din == g.ino[i] && din.typ != 0
        invariant g0.Wrote(g, i, off0, data[..off - off0]) && GrownTo(g0, g, i, off)
        invariant off == off0 || off <= MAXFILE * BSIZE
        invariant (off == off0 ==> g == g0) && (off0 < off < off0 + |data| ==> off % BSIZE == 0)
        invariant (g.S(i, IND) != 0 <==> off > NDIRECT * BSIZE) && Padded(g, i, off)
        invariant freeblock == old(freeblock) + Need(off) - Need(off0) && freeblock <= sb.size
      {
        var left := off0 + |data| - off;
        var n1 := if left < (off / BSIZE + 1) * BSIZE - off then left else (off / BSIZE + 1) * BSIZE - off;
        ghost var g1, a := g, off - off0;
        NeedStep(sb, g0, g, i, off, n1);
        NeedMono(off + n1, off0 + |data|);
        ok, din := AppendOne(i, din, off, data[off - off0..off - off0 + n1]);
        if !ok {
          return;
        }
        DeferredRange(sb, disk, g.disk, freeblock);
        g0.WroteTrans(g1, g, i, off0, data[..a], data[a..a + n1]);
        assert data[..a] + data[a..a + n1] == data[..a + n1];
        GrownStep(g0, g1, g, i, off, n1);
        off := off + n1;
      }
      assert data[..off - off0] == data;
      FinishAppend(i, din, data, g0);
      AppendedShape(g0, g, i, data);
    }

    /** main()'s last change to the root directory: round the size up to the next block boundary,
        always by at least one byte.  No file then has a hole below its size exactly when the
        size was not already on a boundary; otherwise the new last block is one. */
    method FixRoot(root: nat)
      requires Valid(-1) && root < freeinode && root < |g.ino| && g.ino[root].typ != 0 && Snug(g, root)
      modifies this`disk, this`g
      ensures var off := old(g).ino[root].size;
              && g.ino == old(g).ino[root := old(g).ino[root].(size := (off / BSIZE + 1) * BSIZE)]
              && (g.Filled() <==> off % BSIZE != 0)
      ensures Allocated(sb, g) && Deferred(sb, disk, g.disk, freeblock) && old(g).SameBytes(g) && old(g).SameSlots(g)
    {
      hide Fs.Owned, Fs.InData, Fs.Bits, Fs.Stored, Deferred, Fs.S, Allocated, Fs.SameBytes;
      g.ShapeAt(sb, root);
      var din := Rinode(root);
      var off := din.size;
      din := din.(size := (off / BSIZE + 1) * BSIZE);
      if off % BSIZE != 0 { RoundedFilled(sb, g, root); }
      Resized(sb, g, root, din);
      var x := sb.IBlock(root);
      DeferredLow(sb, disk, g.disk, freeblock, x);
      DeferredPut(sb, disk, g.disk, freeblock, x, SetInode(disk[x], root % IPB, din));
      disk := sb.PutInode(disk, root, din);
      g := Fs(sb.PutInode(g.disk, root, din), g.ino[root := din], g.owner, g.extra);
      if off % BSIZE == 0 {
        assert old(g).S(root, SlotOf(off / BSIZE)) == 0;
        assert off / BSIZE * BSIZE < din.size;
      }
    }

    /** balloc(): write the one bitmap block, with the bits of all blocks handed out.  `!ok`
        is its assert that they fit in one block.  The image then has the bits the kernel
        expects. */
    method Balloc() returns (ok: bool)
      requires Allocated(sb, g) && Deferred(sb, disk, g.disk, freeblock)
      modifies this`disk
      ensures ok <==> freeblock < BITS
      ensures |disk| == |g.disk| && BlankLog(sb, disk)
      ensures ok ==> Allocated(sb, g.(disk := disk)) && g.SameSlots(g.(disk := disk)) && g.SameBytes(g.(disk := disk))
    {
      hide Allocated, Fs.SameSlots, Fs.SameBytes;
      ok := freeblock < BITS;
      if !ok {
        return;
      }
      var buf := Zero();
      var i := 0;
      forall b | 0 <= b < BITS ensures !Bit(buf, b) { ZeroBit(b); }
      while i < freeblock
        invariant 0 <= i <= freeblock
        invariant forall b :: 0 <= b < BITS ==> (Bit(buf, b) <==> b < i)
      {
        buf := SetBit(buf, i, true);
        i := i + 1;
      }
      FirstBitmap(sb, disk, g, freeblock, buf);
      disk := disk[sb.bmapstart := buf];
    }

    /** Append the pieces one after another. */
    method AppendAll(i: nat, pieces: seq<seq<byte>>) returns (ok: bool)
      requires Valid(-1) && i < freeinode && i < |g.ino| && g.ino[i].typ != 0 && Snug(g, i)
      modifies this`disk, this`freeblock, this`g
      ensures ok <==> var size := old(g).ino[i].size;
                CanGrow(sb, old(freeblock), size, size + |Flatten(pieces, |pieces|)|)
      ensures ok ==> Valid(-1) && Appended(old(g), g, i, Flatten(pieces, |pieces|))
      ensures ok ==> freeblock == old(freeblock) + Need(g.ino[i].size) - Need(old(g).ino[i].size)
    {
      hide Fs.Owned, Fs.InData, Fs.Bits, Fs.Filled, Fs.Stored, Deferred, Fs.S, Fs.Inv, Appended, Need, Snug;
      ok := true;
      AppendedNone(g, i);
      g.ShapeAt(sb, i);
      DeferredRange(sb, disk, g.disk, freeblock);
      ghost var size := g.ino[i].size;
      var k := 0;
      while k < |pieces|
        modifies this`disk, this`freeblock, this`g
        invariant 0 <= k <= |pieces| && Valid(-1) && Appended(old(g), g, i, Flatten(pieces, k))
        invariant i < |g.ino| && g.ino[i].size == size + |Flatten(pieces, k)|
        invariant CanGrow(sb, old(freeblock), size, g.ino[i].size)
        invariant freeblock == old(freeblock) + Need(g.ino[i].size) - Need(size)
      {
        AppendedShape(old(g), g, i, Flatten(pieces, k));
        ghost var g1 := g;
        FlattenMono(pieces, k + 1, |pieces|);
        NeedMono(size + |Flatten(pieces, k + 1)|, size + |Flatten(pieces, |pieces|)|);
        ok := Iappend(i, pieces[k]);
        if !ok { return; }
        AppendedTrans(old(g), g1, g, i, Flatten(pieces, k), pieces[k]);
        AppendedShape(old(g), g, i, Flatten(pieces, k + 1));
        k := k + 1;
      }
    }

    /** One host file: a new inode, its entry in the root directory, its contents. */
    method AddFile(f: HostFile) returns (ok: bool)
      requires Valid(-1) && 1 < freeinode && 1 < |g.ino| && g.ino[1].typ != 0 && Snug(g, 1)
      modifies this`disk, this`freeinode, this`freeblock, this`g
      ensures ok <==> var size := old(g).ino[1].size;
                      && old(freeinode) < sb.ninodes && CanGrow(sb, old(freeblock), size, size + |f.dirent|)
                      && CanGrow(sb, old(freeblock) + Need(size + |f.dirent|) - Need(size), 0, f.Size())
      ensures ok ==> Valid(-1) && freeinode == old(freeinode) + 1
      ensures ok ==> Added(old(g), g, old(freeinode), f)
      ensures ok ==> freeblock == old(freeblock) + Need(g.ino[1].size) - Need(old(g).ino[1].size) + Need(f.Size())
    {
      hide Fs.Owned, Fs.InData, Fs.Bits, Fs.Filled, Fs.Stored, Deferred, Fs.S, Fs.Inv, Appended, Need, Snug, CanGrow,
           Added, Fs.SameSlots, Fs.ByteAt;
      ghost var g0 := g;
      NeedZero();
      var i;
      ok, i := Ialloc(2);
      if !ok { return; }
      AllocContents(sb, g0, g, i, 2);
      ghost var g1 := g;
      ok := Iappend(1, f.dirent);
      if !ok { return; }
      AppendedShape(g1, g, 1, f.dirent);
      AppendedOther(g1, g, 1, f.dirent, i);
      ghost var g2 := g;
      ok := AppendAll(i, f.pieces);
      if ok {
        AppendedShape(g2, g, i, Flatten(f.pieces, |f.pieces|));
        AppendedOther(g2, g, i, Flatten(f.pieces, |f.pieces|), 1);
        AddedBy(g0, g1, g2, g, i, f);
      }
    }

    /** One round of main()'s loop over the host files. */
    method AddNext(ghost dots: seq<byte>, files: seq<HostFile>, n: nat) returns (ok: bool)
      requires n < |files| && Valid(-1) && freeinode == 2 + n && Populated(g, dots, files, n)
      requires |files[n].dirent| == BYTES_PER_DIRENT && freeblock == Used(sb, files, n) && Room(sb, files, n)
      modifies this`disk, this`freeinode, this`freeblock, this`g
      ensures ok <==> Room(sb, files, n + 1)
      ensures ok ==>
                Valid(-1) && freeinode == 2 + (n + 1) && |g.ino| == |old(g).ino| && Populated(g, dots, files, n + 1)
      ensures ok ==> freeblock == Used(sb, files, n + 1)
    {
      hide Fs.Owned, Fs.InData, Fs.Bits, Fs.Filled, Fs.Stored, Deferred, Fs.S, Fs.Inv, Snug, Added, Populated, Used,
           Room, CanGrow, Need, Entries, FreeFrom, Flatten, FilesIn;
      ghost var g1 := g;
      PopulatedRoot(g, dots, files, n);
      RoomStep(sb, files, n);
      ok := AddFile(files[n]);
      if ok {
        PopulatedStep(g1, g, dots, files, n);
        PopulatedRoot(g, dots, files, n + 1);
      }
    }

    /** main()'s loop over the host files, after the root directory has its two entries. */
    method AddFiles(ghost dots: seq<byte>, files: seq<HostFile>) returns (ok: bool)
      requires Valid(-1) && freeinode == 2 && Populated(g, dots, files, 0)
      requires forall k :: 0 <= k < |files| ==> |files[k].dirent| == BYTES_PER_DIRENT
      requires freeblock == Used(sb, files, 0) && Room(sb, files, 0)
      modifies this`disk, this`freeinode, this`freeblock, this`g
      ensures ok <==> Room(sb, files, |files|)
      ensures ok ==>
                Valid(-1) && freeinode == 2 + |files| && |g.ino| == |old(g).ino| && Populated(g, dots, files, |files|)
      ensures ok ==> freeblock == Used(sb, files, |files|)
    {
      hide Mkfs.Valid, Populated, Used, Room;
      ok := true;
      var n := 0;
      while n < |files|
        modifies this`disk, this`freeinode, this`freeblock, this`g
        invariant 0 <= n <= |files| && Valid(-1) && freeinode == 2 + n && |g.ino| == |old(g).ino|
                    && Populated(g, dots, files, n)
        invariant freeblock == Used(sb, files, n) && Room(sb, files, n)
      {
        if Room(sb, files, |files|) { RoomLess(sb, files, n + 1, |files|); }
        ok := AddNext(dots, files, n);
        if !ok { return; }
        n := n + 1;
      }
    }

    /** main() up to its loop: the root inode and its two entries. */
    method MakeRoot(dot: seq<byte>, dotdot: seq<byte>, ghost files: seq<HostFile>) returns (ok: bool)
      requires Valid(-1) && freeinode == 1 && freeblock == sb.DataStart() && sb.ninodes > 1
      requires |dot| == |dotdot| == BYTES_PER_DIRENT
      modifies this`disk, this`freeinode, this`freeblock, this`g
      ensures ok <==> Room(sb, files, 0)
      ensures ok ==> Valid(-1) && freeinode == 2 && |g.ino| == |old(g).ino| && freeblock == Used(sb, files, 0)
      ensures ok ==> Populated(g, dot + dotdot, files, 0)
    {
      hide Fs.Owned, Fs.InData, Fs.Bits, Fs.Filled, Fs.Stored, Deferred, Fs.S, Fs.Inv, Appended, Snug, Populated, Room,
           Used, CanGrow, Need;
      ghost var g0 := g;
      g.ShapeAll(sb);
      RoomStart(sb, files);
      var root;
      ok, root := Ialloc(1);
      AllocContents(sb, g0, g, root, 1);
      ghost var g1 := g;
      assert Flatten([dot, dotdot], 2) == dot + dotdot by { assert Flatten([dot, dotdot], 1) == [] + dot == dot; }
      ok := AppendAll(root, [dot, dotdot]);
      if ok {
        RootDots(g1, g, dot + dotdot, files);
        PopulatedRoot(g, dot + dotdot, files, 0);
      }
    }

    /** main() from the root inode on.  It completes exactly when inodes, blocks and the one
        bitmap block suffice; then the root directory holds its entries in order and each file
        its contents.  The image meets the kernel's invariant exactly when the directory's
        length is not a multiple of the block size, that is when the number of entries is not
        a multiple of 64. */
    method Build(dot: seq<byte>, dotdot: seq<byte>, files: seq<HostFile>) returns (ok: bool)
      requires Valid(-1) && freeinode == 1 && freeblock == sb.DataStart() && sb.ninodes > 1
      requires |dot| == |dotdot| == BYTES_PER_DIRENT
      requires forall k :: 0 <= k < |files| ==> |files[k].dirent| == BYTES_PER_DIRENT
      modifies this
      ensures ok <==> Room(sb, files, |files|) && Used(sb, files, |files|) < BITS
      ensures ok ==> BlankLog(sb, disk)
      ensures ok ==> |disk| == |g.disk| && var h := g.(disk := disk);
                && Allocated(sb, h) && FilesIn(h, files, |files|) && |h.ino| == sb.ninodes
                && Starts(h, Entries(dot + dotdot, files, |files|))
      ensures ok ==> (Meets(sb, disk) <==> (2 + |files|) % 64 != 0)
      ensures ok && (2 + |files|) % 64 != 0 ==> RootIs(g.(disk := disk), Entries(dot + dotdot, files, |files|))
    {
      hide Fs.Owned, Fs.InData, Fs.Bits, Fs.Filled, Fs.Stored, Deferred, Fs.S, Fs.Inv, Appended, Snug, Fs.SameBytes,
           Populated, FilesIn, Room, Used, CanGrow, Need, Allocated, Starts, Meets, Fs.SameSlots, RootIs, Entries,
           FreeFrom, Fs.ByteAt, BlankLog;
      g.ShapeAll(sb);
      ok := MakeRoot(dot, dotdot, files);
      if Room(sb, files, |files|) { RoomLess(sb, files, 0, |files|); }
      if !ok { return; }
      ok := AddFiles(dot + dotdot, files);
      if !ok { return; }
      ghost var g3 := g;
      PopulatedRoot(g, dot + dotdot, files, |files|);
      FixRoot(1);
      RootRounded(g3, g, dot + dotdot, files);
      ok := Balloc();
      if ok {
        Finished(sb, g, disk, dot + dotdot, files);
      }
    }
  }

  /** From g0 to g, `data` was appended to file i; no other file changed, no inode changed
      type, and files without spare blocks still have none. */
  ghost predicate Appended(g0: Fs, g: Fs, i: nat, data: seq<byte>) {
    && i < |g.ino| == |g0.ino| && g.Content(i) == g0.Content(i) + data
    && (forall j :: 0 <= j < |g.ino| && j != i ==> g.Content(j) == g0.Content(j))
    && (forall j :: 0 <= j < |g.ino| ==> g.ino[j].typ == g0.ino[j].typ)
    && (forall j: nat :: j < |g.ino| && Snug(g0, j) ==> Snug(g, j))
  }

  lemma AppendedOther(g0: Fs, g: Fs, i: nat, data: seq<byte>, j: nat)
    requires Appended(g0, g, i, data) && j != i && j < |g.ino|
    ensures |g0.ino| == |g.ino| && g.ino[j].size == g0.ino[j].size && (Snug(g0, j) ==> Snug(g, j))
  {
    hide Snug, Fs.ByteAt;
    assert |g.Content(j)| == g.ino[j].size && |g0.Content(j)| == g0.ino[j].size;
  }

  lemma AppendedNone(g: Fs, i: nat)
    requires i < |g.ino|
    ensures Appended(g, g, i, [])
  {
  }

  lemma AppendedShape(g0: Fs, g: Fs, i: nat, data: seq<byte>)
    requires Appended(g0, g, i, data)
    ensures i < |g.ino| == |g0.ino| && forall j :: 0 <= j < |g.ino| ==> g.ino[j].typ == g0.ino[j].typ
    ensures g.ino[i].size == g0.ino[i].size + |data| && (Snug(g0, i) ==> Snug(g, i))
  {
    hide Snug, Fs.ByteAt;
    assert |g.Content(i)| == g.ino[i].size && |g0.Content(i)| == g0.ino[i].size;
  }

  lemma AppendedTrans(g0: Fs, g1: Fs, g2: Fs, i: nat, a: seq<byte>, b: seq<byte>)
    requires Appended(g0, g1, i, a) && Appended(g1, g2, i, b)
    ensures Appended(g0, g2, i, a + b)
  {
  }

  /** From g0 to g, host file f became inode i and the last entry of the root directory. */
  ghost predicate Added(g0: Fs, g: Fs, i: nat, f: HostFile) {
    && 1 < i < |g.ino| == |g0.ino| && g.ino[1].typ != 0 && (Snug(g0, 1) ==> Snug(g, 1))
    && g.Content(1) == g0.Content(1) + f.dirent && g.Content(i) == Flatten(f.pieces, |f.pieces|)
    && (forall j :: 2 <= j < |g.ino| && j != i ==> g.Content(j) == g0.Content(j))
  }

  lemma AddedBy(g0: Fs, g1: Fs, g2: Fs, g: Fs, i: nat, f: HostFile)
    requires 1 < i < |g0.ino| == |g1.ino| && g1.Content(i) == [] && g1.ino[1].typ != 0
    requires forall j :: 0 <= j < |g1.ino| && j != i ==> g1.Content(j) == g0.Content(j)
    requires forall j: nat :: j < |g1.ino| && Snug(g0, j) ==> Snug(g1, j)
    requires Appended(g1, g2, 1, f.dirent) && Appended(g2, g, i, Flatten(f.pieces, |f.pieces|))
    ensures Added(g0, g, i, f)
  {
    hide Snug;
    assert g2.Content(i) == [];
    assert [] + Flatten(f.pieces, |f.pieces|) == Flatten(f.pieces, |f.pieces|);
  }

  ghost predicate FilesIn(g: Fs, files: seq<HostFile>, n: nat) {
    n <= |files| && 2 + n <= |g.ino|
    && forall k :: 0 <= k < n ==> g.Content(2 + k) == Flatten(files[k].pieces, |files[k].pieces|)
  }

  /** The root directory's entries: the two dots, then the first n files. */
  ghost function Entries(dots: seq<byte>, files: seq<HostFile>, n: nat): seq<byte>
    requires n <= |files|
  {
    if n == 0 then dots else Entries(dots, files, n - 1) + files[n - 1].dirent
  }

  /** The first n host files are in, and the root directory has 2 + n entries. */
  ghost predicate Populated(g: Fs, dots: seq<byte>, files: seq<HostFile>, n: nat) {
    && FilesIn(g, files, n) && g.ino[1].typ != 0 && Snug(g, 1) && g.ino[1].size == BYTES_PER_DIRENT * (2 + n)
    && g.Content(1) == Entries(dots, files, n)
  }

  lemma PopulatedRoot(g: Fs, dots: seq<byte>, files: seq<HostFile>, n: nat)
    requires Populated(g, dots, files, n)
    ensures n <= |files| && 2 + n <= |g.ino| && g.ino[1].typ != 0 && Snug(g, 1)
              && g.ino[1].size == BYTES_PER_DIRENT * (2 + n)
    ensures FilesIn(g, files, n) && g.Content(1) == Entries(dots, files, n)
  {
  }

  lemma PopulatedStep(g0: Fs, g: Fs, dots: seq<byte>, files: seq<HostFile>, n: nat)
    requires Populated(g0, dots, files, n) && n < |files| && Added(g0, g, 2 + n, files[n])
    requires |files[n].dirent| == BYTES_PER_DIRENT
    ensures |g.ino| == |g0.ino| && Populated(g, dots, files, n + 1)
  {
    hide Snug;
    assert |g.Content(1)| == |g0.Content(1)| + BYTES_PER_DIRENT;
  }

  lemma RootDots(g1: Fs, g: Fs, dots: seq<byte>, files: seq<HostFile>)
    requires 1 < |g1.ino| && g1.ino[1].typ != 0 && g1.Content(1) == [] && Snug(g1, 1)
    requires Appended(g1, g, 1, dots) && |dots| == 2 * BYTES_PER_DIRENT
    ensures |g.ino| == |g1.ino| && Populated(g, dots, files, 0)
  {
    hide Snug;
    assert [] + dots == dots;
    assert |g.Content(1)| == |dots|;
  }

  /** The root directory holds these bytes and then free entries. */
  ghost predicate Starts(g: Fs, entries: seq<byte>) {
    && 1 < |g.ino| && |entries| <= g.ino[1].size && Padded(g, 1, |entries|)
    && forall p :: 0 <= p < |entries| ==> g.ByteAt(1, p) == entries[p]
  }

  /** The root directory is these bytes, and zero from there to its size. */
  ghost predicate RootIs(h: Fs, entries: seq<byte>) {
    1 < |h.ino| && |entries| <= h.ino[1].size && h.Content(1) == entries + seq(h.ino[1].size - |entries|, _ => 0)
  }

  lemma RootContents(sb: Super, h: Fs, entries: seq<byte>)
    requires h.Inv(sb) && Starts(h, entries)
    ensures RootIs(h, entries)
  {
    hide Fs.S, Fs.ByteAt, Fs.Owned, Fs.InData, Fs.Bits;
    forall p | 0 <= p < h.ino[1].size ensures h.ByteAt(1, p) == if p < |entries| then entries[p] else 0 {
      h.InSize(sb, 1, p);
    }
  }

  lemma RootRounded(g: Fs, h: Fs, dots: seq<byte>, files: seq<HostFile>)
    requires |g.ino| == |h.ino| && g.SameBytes(h) && (forall j :: 2 <= j < |g.ino| ==> h.ino[j] == g.ino[j])
    requires FilesIn(g, files, |files|) && 1 < |g.ino| && h.ino[1].size >= g.ino[1].size && Snug(g, 1)
    requires g.Content(1) == Entries(dots, files, |files|)
    ensures FilesIn(h, files, |files|) && Starts(h, Entries(dots, files, |files|))
  {
    hide Fs.ByteAt;
    forall j | 2 <= j < |g.ino| ensures h.Content(j) == g.Content(j) {
      assert forall p :: 0 <= p < g.ino[j].size ==> h.ByteAt(j, p) == g.ByteAt(j, p);
    }
  }

  // ---- what the finished image means ----------------------------------------------------------

  /** Everything the kernel expects of an image but that no file has a hole below its size. */
  ghost predicate Allocated(sb: Super, g: Fs) {
    g.Shape(sb) && g.Owned() && g.InData(sb) && g.Bits(sb) && g.extra == {} && g.Stored(sb, -1)
  }

  /** The image is one the kernel's invariant holds of. */
  ghost predicate Meets(sb: Super, d: Image) {
    exists fs: Fs :: fs.disk == d && fs.extra == {} && fs.Inv(sb) && fs.Stored(sb, -1)
  }

  /** An image determines its inodes, and so whether it has holes. */
  lemma MeetsExactly(sb: Super, h: Fs)
    requires Allocated(sb, h)
    ensures Meets(sb, h.disk) <==> h.Filled()
  {
    if h.Filled() {
      assert h.Inv(sb);
    }
    forall fs: Fs | fs.disk == h.disk && fs.Inv(sb) && fs.Stored(sb, -1) ensures h.Filled() {
      OneReading(sb, fs, h);
    }
  }

  lemma OneReading(sb: Super, fs: Fs, h: Fs)
    requires fs.disk == h.disk && fs.Inv(sb) && fs.Stored(sb, -1) && h.Shape(sb) && h.Stored(sb, -1)
    ensures fs.ino == h.ino && h.Filled()
  {
    forall i | 0 <= i < |fs.ino| ensures fs.ino[i] == h.ino[i] {
      assert sb.InodeAt(fs.disk, i) == sb.InodeAt(h.disk, i);
    }
    FilledSame(fs, h);
  }

  lemma FilledSame(g: Fs, h: Fs)
    requires g.ino == h.ino && g.SameSlots(h)
    ensures g.Filled() <==> h.Filled()
  {
    hide Fs.S;
    assert forall i: nat, bn: nat {:trigger g.S(i, SlotOf(bn))} {:trigger h.S(i, SlotOf(bn))} ::
        g.S(i, SlotOf(bn)) == h.S(i, SlotOf(bn));
  }

  lemma {:induction false} EmptyBlocks(files: seq<HostFile>, n: nat)
    requires n <= |files| && forall k :: 0 <= k < |files| ==> files[k].Size() == 0
    ensures FileBlocks(files, n) == 0
  {
    if n > 0 { EmptyBlocks(files, n - 1); }
  }

  /** With mkfs's own superblock, 62 empty files are enough to complete a build whose image does
      not meet the invariant. */
  lemma SixtyTwoFiles(files: seq<HostFile>)
    requires |files| == 62 && forall k :: 0 <= k < |files| ==> files[k].Size() == 0
    ensures var sb := Super(1000, 200, 32, 45);
            sb.Valid() && Room(sb, files, |files|) && Used(sb, files, |files|) < BITS && (2 + |files|) % 64 == 0
  {
    EmptyBlocks(files, 62);
  }

  /** The end of main(): the image on disk in place of the one with its bits set early. */
  lemma Finished(sb: Super, g: Fs, d: Image, dots: seq<byte>, files: seq<HostFile>)
    requires Allocated(sb, g.(disk := d)) && g.SameSlots(g.(disk := d)) && g.SameBytes(g.(disk := d))
    requires FilesIn(g, files, |files|) && Starts(g, Entries(dots, files, |files|))
    ensures FilesIn(g.(disk := d), files, |files|) && Starts(g.(disk := d), Entries(dots, files, |files|))
    ensures |g.ino| == sb.ninodes && (Meets(sb, d) <==> g.Filled())
    ensures g.Filled() ==> RootIs(g.(disk := d), Entries(dots, files, |files|))
  {
    hide Fs.Owned, Fs.InData, Fs.Bits, Fs.Filled, Fs.Stored, Fs.S, Fs.ByteAt, Meets;
    var h := g.(disk := d);
    FilledSame(g, h);
    MeetsExactly(sb, h);
    if g.Filled() { RootContents(sb, h, Entries(dots, files, |files|)); }
    forall j | 2 <= j < |g.ino| ensures h.Content(j) == g.Content(j) {
      assert forall p :: 0 <= p < g.ino[j].size ==> h.ByteAt(j, p) == g.ByteAt(j, p);
    }
  }

  /** Storing an inode with another size keeps everything but perhaps the absence of holes. */
  lemma Resized(sb: Super, g: Fs, i: nat, di: Dinode)
    requires g.Inv(sb) && g.Stored(sb, -1) && g.extra == {} && i < |g.ino| && di.Fits() && di.addrs == g.ino[i].addrs
    ensures sb.IBlock(i) < sb.bmapstart && sb.IBlock(i) < |g.disk|
    ensures var h := Fs(sb.PutInode(g.disk, i, di), g.ino[i := di], g.owner, g.extra);
            Allocated(sb, h) && g.SameSlots(h) && g.SameBytes(h)
  {
    hide Fs.Owned, Fs.InData, Fs.Bits, Fs.Filled, Fs.S, SetInode;
    sb.InRange(0, i);
    var x := sb.IBlock(i);
    var e := g.WriteBlock(x, SetInode(g.disk[x], i % IPB, di));
    g.MetaKeeps(sb, x, SetInode(g.disk[x], i % IPB, di));
    var h := Fs(sb.PutInode(g.disk, i, di), g.ino[i := di], g.owner, g.extra);
    assert h == e.Edit(i, di);
    EditOwned(sb, e, i, di);
    forall j | 0 <= j < sb.ninodes ensures sb.IBlock(j) < |h.disk| && sb.InodeAt(h.disk, j) == h.ino[j] {
      sb.InodeAfterPutInode(g.disk, i, di, j);
    }
    g.FrameBytes(sb, h);
  }

  lemma EditOwned(sb: Super, e: Fs, i: nat, di: Dinode)
    requires e.Inv(sb) && i < |e.ino| && di.Fits() && di.addrs == e.ino[i].addrs
    ensures var h := e.Edit(i, di);
            h.Shape(sb) && h.Owned() && h.InData(sb) && h.Bits(sb) && e.SameSlots(h)
  {
    var h := e.Edit(i, di);
    forall j: nat, k: nat ensures h.S(j, k) == e.S(j, k) {
      if j == i { e.EditSlot(i, di, k); }
    }
    e.BitsFrame(sb, h, 0);
  }

  // ---- how much fits --------------------------------------------------------------------------

  /** How many blocks a file of this size has: data blocks, and the indirect block. */
  ghost function Need(size: nat): nat {
    (size + BSIZE - 1) / BSIZE + if size > NDIRECT * BSIZE then 1 else 0
  }

  lemma NeedMono(a: nat, b: nat)
    requires a <= b
    ensures Need(a) <= Need(b)
  {
  }

  lemma NeedZero()
    ensures Need(0) == 0
  {
  }

  /** A file can grow from size a to size b when the blocks from `free` on are free. */
  ghost predicate CanGrow(sb: Super, free: nat, a: nat, b: nat) {
    b <= MAXFILE * BSIZE && free + Need(b) - Need(a) <= sb.size
  }

  /** How many blocks iappend takes for file block bn. */
  ghost function Missing(g: Fs, i: nat, bn: nat): nat {
    (if g.S(i, SlotOf(bn)) == 0 then 1 else 0) + if bn >= NDIRECT && g.S(i, IND) == 0 then 1 else 0
  }

  lemma MissingEntry(g: Fs, i: nat, bn: nat)
    ensures bn >= NDIRECT && g.S(i, IND) == 0 ==> g.S(i, SlotOf(bn)) == 0
  {
  }

  /** The next round of iappend takes what the size it reaches needs more. */
  lemma NeedStep(sb: Super, g0: Fs, g: Fs, i: nat, off: nat, n: nat)
    requires g0.Inv(sb) && Snug(g0, i) && GrownTo(g0, g, i, off) && g0.ino[i].size <= off
    requires (off == g0.ino[i].size && g == g0) || off % BSIZE == 0
    requires g.S(i, IND) != 0 <==> off > NDIRECT * BSIZE
    requires 0 < n <= (off / BSIZE + 1) * BSIZE - off
    ensures Missing(g, i, off / BSIZE) == Need(off + n) - Need(off)
  {
    hide Fs.Owned, Fs.InData, Fs.Bits, Fs.S;
    var bn := off / BSIZE;
    if off % BSIZE == 0 {
      assert bn * BSIZE >= off;
      assert g.S(i, SlotOf(bn)) == g0.S(i, SlotOf(bn)) == 0;
    } else {
      assert bn * BSIZE < g0.ino[i].size;
      assert g0.S(i, SlotOf(bn)) != 0;
    }
    NeedBy(off, n);
  }

  lemma NeedBy(off: nat, n: nat)
    requires 0 < n <= (off / BSIZE + 1) * BSIZE - off
    ensures Need(off + n) - Need(off) == (if off % BSIZE == 0 then 1 else 0) + (if off == NDIRECT * BSIZE then 1 else 0)
    ensures off / BSIZE >= NDIRECT && off <= NDIRECT * BSIZE <==> off == NDIRECT * BSIZE
  {
  }

  lemma {:induction false} FlattenMono(p: seq<seq<byte>>, a: nat, b: nat)
    requires a <= b <= |p|
    ensures |Flatten(p, a)| <= |Flatten(p, b)|
  {
    if a < b { FlattenMono(p, a, b - 1); }
  }

  ghost function FileBlocks(files: seq<HostFile>, n: nat): nat
    requires n <= |files|
  {
    if n == 0 then 0 else FileBlocks(files, n - 1) + Need(files[n - 1].Size())
  }

  /** The first block after the metadata, the root directory with 2 + n entries and n files. */
  ghost function Used(sb: Super, files: seq<HostFile>, n: nat): nat
    requires n <= |files|
  {
    sb.DataStart() + Need(BYTES_PER_DIRENT * (2 + n)) + FileBlocks(files, n)
  }

  /** Inodes, blocks and file sizes allow the first n files. */
  ghost predicate Room(sb: Super, files: seq<HostFile>, n: nat)
    requires n <= |files|
  {
    && 2 + n <= sb.ninodes && BYTES_PER_DIRENT * (2 + n) <= MAXFILE * BSIZE && Used(sb, files, n) <= sb.size
    && forall k :: 0 <= k < n ==> files[k].Size() <= MAXFILE * BSIZE
  }

  lemma RoomStart(sb: Super, files: seq<HostFile>)
    requires sb.ninodes > 1
    ensures Room(sb, files, 0) <==> CanGrow(sb, sb.DataStart(), 0, 2 * BYTES_PER_DIRENT)
    ensures Used(sb, files, 0) == sb.DataStart() + Need(2 * BYTES_PER_DIRENT) - Need(0)
  {
  }

  lemma RoomStep(sb: Super, files: seq<HostFile>, n: nat)
    requires n < |files| && Room(sb, files, n)
    ensures var a, b, f := BYTES_PER_DIRENT * (2 + n), BYTES_PER_DIRENT * (2 + n) + BYTES_PER_DIRENT, files[n].Size();
            && (Room(sb, files, n + 1) <==>
                  2 + n < sb.ninodes && CanGrow(sb, Used(sb, files, n), a, b)
                  && CanGrow(sb, Used(sb, files, n) + Need(b) - Need(a), 0, f))
            && Used(sb, files, n + 1) == Used(sb, files, n) + Need(b) - Need(a) + Need(f)
  {
    hide Need;
    NeedZero();
    assert BYTES_PER_DIRENT * (2 + n) + BYTES_PER_DIRENT == BYTES_PER_DIRENT * (2 + (n + 1));
  }

  lemma {:induction false} RoomLess(sb: Super, files: seq<HostFile>, n: nat, m: nat)
    requires n <= m <= |files| && Room(sb, files, m)
    ensures Room(sb, files, n)
  {
    if n < m {
      NeedMono(BYTES_PER_DIRENT * (2 + (m - 1)), BYTES_PER_DIRENT * (2 + m));
      RoomLess(sb, files, n, m - 1);
    }
  }

  /** A new inode is an empty file and no other file changes. */
  lemma AllocContents(sb: Super, g0: Fs, g: Fs, i: nat, typ: nat)
    requires g0.Inv(sb) && i < |g0.ino| && g0.ino[i].typ == 0 && g0.SameSlots(g) && |g.disk| == |g0.disk|
    requires g.ino == g0.ino[i := FreeInode(typ).(nlink := 1)]
    requires forall x {:trigger g.disk[x]} :: sb.bmapstart <= x < |g.disk| ==> g.disk[x] == g0.disk[x]
    ensures g.Content(i) == [] && Snug(g, i)
    ensures forall j :: 0 <= j < |g.ino| && j != i ==> g.Content(j) == g0.Content(j)
    ensures forall j: nat :: j < |g.ino| && Snug(g0, j) ==> Snug(g, j)
  {
    g0.FrameBytes(sb, g);
    hide Fs.Owned, Fs.InData, Fs.Bits, Fs.ByteAt;
    assert forall k: nat :: g0.S(i, k) == 0;
  }

  lemma RoundedFilled(sb: Super, g: Fs, i: nat)
    requires g.Inv(sb) && i < |g.ino| && g.ino[i].size % BSIZE != 0
    ensures (g.ino[i].size / BSIZE + 1) * BSIZE <= MAXFILE * BSIZE
    ensures forall bn: nat {:trigger g.S(i, SlotOf(bn))} ::
              bn * BSIZE < (g.ino[i].size / BSIZE + 1) * BSIZE ==> g.S(i, SlotOf(bn)) != 0
  {
    forall bn: nat | bn * BSIZE < (g.ino[i].size / BSIZE + 1) * BSIZE ensures g.S(i, SlotOf(bn)) != 0 {
      assert bn <= g.ino[i].size / BSIZE;
      assert bn * BSIZE < g.ino[i].size;
    }
  }

  /** The bitmap block mkfs writes gives every block the bit it should have. */
  lemma FirstBitmap(sb: Super, d: Image, g: Fs, free: nat, buf: Block)
    requires Allocated(sb, g) && Deferred(sb, d, g.disk, free) && free < BITS
    requires forall b :: 0 <= b < BITS ==> (Bit(buf, b) <==> b < free)
    ensures sb.bmapstart < |d| == |g.disk|
    ensures var h := g.(disk := d[sb.bmapstart := buf]);
            Allocated(sb, h) && g.SameSlots(h) && g.SameBytes(h)
  {
    hide Fs.Owned, Fs.InData, Fs.S, Fs.SameBytes;
    var e := d[sb.bmapstart := buf];
    var h := g.(disk := e);
    BitmapSlots(sb, d, g, free, buf);
    forall b | 0 <= b < sb.size
      ensures sb.BBlock(b) < |e| && (sb.BitAt(e, b) <==> b < sb.DataStart() || b in g.owner || b in g.extra)
    {
      sb.InRange(b, 0);
      assert sb.BitAt(g.disk, b) <==> b < free;
      if sb.BBlock(b) == sb.bmapstart {
        assert b / BITS == 0 && b % BITS == b;
      } else {
        ZeroBit(b % BITS);
      }
    }
    g.StoredFrame(sb, h, -1);
  }

  lemma BitmapSlots(sb: Super, d: Image, g: Fs, free: nat, buf: Block)
    requires g.Shape(sb) && g.Owned() && g.InData(sb) && Deferred(sb, d, g.disk, free)
    ensures sb.bmapstart < |d| == |g.disk|
    ensures var h := g.(disk := d[sb.bmapstart := buf]);
            h.Shape(sb) && g.SameSlots(h) && h.Owned() && h.InData(sb) && g.SameBytes(h)
  {
    var h := g.(disk := d[sb.bmapstart := buf]);
    forall i: nat, k: nat ensures h.S(i, k) == g.S(i, k) {
      if g.S(i, IND) != 0 {
        g.SlotInData(sb, i, IND);
        assert d[g.S(i, IND)] == g.disk[g.S(i, IND)];
      }
    }
    forall j: nat, p: nat ensures h.ByteAt(j, p) == g.ByteAt(j, p) {
      if g.S(j, SlotOf(p / BSIZE)) != 0 {
        g.SlotInData(sb, j, SlotOf(p / BSIZE));
      }
    }
  }

  /** Only slots k and l of inode i may differ. */
  ghost predicate OnlySlot(g: Fs, h: Fs, i: nat, k: nat, l: nat) {
    forall i': nat, k': nat {:trigger h.S(i', k')} :: !(i' == i && (k' == k || k' == l)) ==> h.S(i', k') == g.S(i', k')
  }

  lemma OnlySlotNone(g: Fs, i: nat, k: nat, l: nat)
    ensures OnlySlot(g, g, i, k, l)
  {
  }

  /** From byte `off` on the file is zero or has no block. */
  ghost predicate Padded(g: Fs, i: nat, off: nat) {
    forall p: nat {:trigger g.ByteAt(i, p)} :: p >= off ==> g.ByteAt(i, p) <= 0
  }

  ghost predicate Blank(g: Fs, x: nat) { x < |g.disk| && g.disk[x] == Zero() }

  /** A block just handed out is zero. */
  lemma BlankPads(g0: Fs, g: Fs, i: nat, off: nat)
    requires g0.Extends(g) && OnlySlot(g0, g, i, SlotOf(off / BSIZE), IND)
    requires g0.S(i, SlotOf(off / BSIZE)) == 0 ==> Blank(g, g.S(i, SlotOf(off / BSIZE)))
    ensures Padded(g0, i, off) ==> Padded(g, i, off)
  {
    hide Fs.S;
    forall p: nat | p >= off && g0.ByteAt(i, p) <= 0 ensures g.ByteAt(i, p) <= 0 {
      var bn := p / BSIZE;
      if g0.S(i, SlotOf(bn)) == 0 && bn == off / BSIZE {
        assert g.disk[g.S(i, SlotOf(bn))] == Zero();
      } else if g0.S(i, SlotOf(bn)) == 0 {
        assert g.S(i, SlotOf(bn)) == g0.S(i, SlotOf(bn));
      }
    }
  }

  lemma EntryGrown(sb: Super, g: Fs, i: nat, j: nat, b: nat)
    requires g.Inv(sb) && g.S(i, IND) != 0 && j < NINDIRECT && g.S(i, 13 + j) == 0
    requires b < sb.size && sb.BBlock(b) < |g.disk| && !sb.BitAt(g.disk, b) && b != g.S(i, IND)
    ensures g.Alloc(sb, b).S(i, IND) < |g.disk|
    ensures OnlySlot(g, g.GrowEntry(sb, i, j, b), i, 13 + j, 13 + j) && Blank(g.GrowEntry(sb, i, j, b), b)
  {
    hide Fs.Owned, Fs.InData, Fs.Bits, Fs.Filled, Fs.S;
    g.AllocInd(sb, i, b);
    forall i': nat, k': nat | !(i' == i && k' == 13 + j) ensures g.GrowEntry(sb, i, j, b).S(i', k') == g.S(i', k') {
      g.GrowEntrySlot(sb, i, j, b, i', k');
    }
  }

  lemma WrotePads(g0: Fs, g: Fs, i: nat, off: nat, chunk: seq<byte>)
    requires g0.Wrote(g, i, off, chunk) && g0.SameSlots(g) && |g.disk| == |g0.disk|
    ensures Padded(g0, i, off) ==> Padded(g, i, off + |chunk|)
  {
    hide Fs.S;
    forall p: nat | p >= off + |chunk| && g0.ByteAt(i, p) <= 0 ensures g.ByteAt(i, p) <= 0 {
      assert g0.S(i, SlotOf(p / BSIZE)) == g.S(i, SlotOf(p / BSIZE));
    }
  }

  /** Padding of a file that was not written to. */
  lemma OtherPads(sb: Super, g0: Fs, g: Fs, i: nat, o: nat, data: seq<byte>, j: nat, off: nat)
    requires g0.Inv(sb) && g0.Wrote(g, i, o, data) && j != i && Padded(g0, j, off)
    requires forall k: nat {:trigger g.S(j, k)} :: g.S(j, k) == g0.S(j, k)
    ensures Padded(g, j, off)
  {
    hide Fs.S, Fs.Owned, Fs.InData, Fs.Bits, Fs.Filled;
    forall p: nat | p >= off ensures g.ByteAt(j, p) <= 0 {
      assert g0.ByteAt(j, p) <= 0;
      var k := SlotOf(p / BSIZE);
      if g0.S(j, k) != 0 { g0.InDisk(sb, j, k); }
      assert g.S(j, k) == g0.S(j, k);
    }
  }

  /** The file has no block past its size, an indirect block only if it needs one, and zeroes
      from its size to the end of its last block. */
  ghost predicate Snug(g: Fs, i: nat) {
    && i < |g.ino| && (g.S(i, IND) != 0 <==> g.ino[i].size > NDIRECT * BSIZE) && Padded(g, i, g.ino[i].size)
    && forall bn: nat {:trigger g.S(i, SlotOf(bn))} :: bn * BSIZE >= g.ino[i].size ==> g.S(i, SlotOf(bn)) == 0
  }

  /** Blocks of file i from `off` on, and slots of other files, are as they were. */
  ghost predicate GrownTo(g0: Fs, g: Fs, i: nat, off: nat) {
    && (forall bn: nat {:trigger g.S(i, SlotOf(bn))} :: bn * BSIZE >= off ==> g.S(i, SlotOf(bn)) == g0.S(i, SlotOf(bn)))
    && (forall j: nat, k: nat {:trigger g.S(j, k)} :: j != i ==> g.S(j, k) == g0.S(j, k))
  }

  lemma GrownNone(g: Fs, i: nat)
    requires Snug(g, i)
    ensures GrownTo(g, g, i, g.ino[i].size) && (g.S(i, IND) != 0 <==> g.ino[i].size > NDIRECT * BSIZE)
    ensures Padded(g, i, g.ino[i].size)
  {
  }

  lemma GrownStep(g0: Fs, g1: Fs, g: Fs, i: nat, off: nat, n: nat)
    requires GrownTo(g0, g1, i, off) && OnlySlot(g1, g, i, SlotOf(off / BSIZE), IND) && n > 0
    ensures GrownTo(g0, g, i, off + n)
  {
    forall bn: nat | bn * BSIZE >= off + n ensures g.S(i, SlotOf(bn)) == g0.S(i, SlotOf(bn)) {
      assert bn != off / BSIZE;
    }
  }

  lemma SnugKeeps(sb: Super, g0: Fs, g1: Fs, g: Fs, i: nat, data: seq<byte>)
    requires g0.Inv(sb) && i < |g.ino| == |g0.ino| && g0.Wrote(g1, i, g0.ino[i].size, data)
    requires GrownTo(g0, g1, i, g.ino[i].size) && g1.SameSlots(g) && g1.SameBytes(g)
    requires g.ino[i].size == g0.ino[i].size + |data| && (g1.S(i, IND) != 0 <==> g.ino[i].size > NDIRECT * BSIZE)
    requires forall j :: 0 <= j < |g.ino| && j != i ==> g.ino[j].size == g0.ino[j].size
    requires Padded(g1, i, g.ino[i].size)
    ensures forall j: nat :: j < |g.ino| && Snug(g0, j) ==> Snug(g, j)
  {
    hide Fs.S, Fs.ByteAt, Fs.Inv, Fs.Wrote;
    forall j: nat | j < |g.ino| && Snug(g0, j) ensures Snug(g, j) {
      if j != i { OtherPads(sb, g0, g1, i, g0.ino[i].size, data, j, g0.ino[j].size); }
      assert g1.S(j, IND) == g.S(j, IND) && (j != i ==> g1.S(j, IND) == g0.S(j, IND));
      forall bn: nat | bn * BSIZE >= g.ino[j].size ensures g.S(j, SlotOf(bn)) == 0 {
        assert g1.S(j, SlotOf(bn)) == g.S(j, SlotOf(bn));
        assert g0.S(j, SlotOf(bn)) == 0;
      }
      forall p: nat | p >= g.ino[j].size ensures g.ByteAt(j, p) <= 0 {
        assert g1.ByteAt(j, p) == g.ByteAt(j, p);
      }
    }
  }

  lemma DeferredRange(sb: Super, d: Image, e: Image, free: nat)
    requires Deferred(sb, d, e, free)
    ensures sb.DataStart() <= free <= sb.size
  {
  }

  lemma DeferredLow(sb: Super, d: Image, e: Image, free: nat, x: nat)
    requires Deferred(sb, d, e, free) && x < sb.bmapstart
    ensures x < |d| == |e| && d[x] == e[x] && x < sb.DataStart() <= free
  {
  }

  lemma DeferredAt(sb: Super, d: Image, e: Image, free: nat, x: nat)
    requires Deferred(sb, d, e, free) && sb.DataStart() <= x < |e|
    ensures |d| == |e| && d[x] == e[x]
  {
  }

  /** A block in a slot has been handed out. */
  lemma OwnedBelow(sb: Super, g: Fs, d: Image, free: nat, i: nat, k: nat)
    requires g.Inv(sb) && Deferred(sb, d, g.disk, free) && g.S(i, k) != 0
    ensures sb.DataStart() <= g.S(i, k) < free <= sb.size
  {
    g.SlotInData(sb, i, k);
    assert sb.BitAt(g.disk, g.S(i, k));
  }
}
