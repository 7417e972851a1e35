/** kernel/fs.c: the block allocator, inodes and file contents, over the blocks that bread
    returns inside a transaction.  `disk` is that logical image (what the buffer cache and
    the log keep, see module Log); `logged` collects the blocks passed to log_write. */
module FileSystem {
  import opened Blocks
  import opened FsLayout
  import opened FsCore

  /** A slot of the inode table. */
  datatype Entry = Entry(inum: nat, ref: nat, valid: bool, din: Dinode)

  /** Each inode has at most one table entry in use, and a valid entry is the inode. */
  ghost predicate Table(tab: seq<Entry>, ino: seq<Dinode>) {
    && (forall t :: 0 <= t < |tab| && tab[t].ref > 0 ==> tab[t].inum < |ino|)
    && (forall t :: 0 <= t < |tab| && tab[t].ref > 0 && tab[t].valid ==>
          tab[t].din == ino[tab[t].inum] && tab[t].din.typ != 0)
    && (forall t, u :: 0 <= t < u < |tab| && tab[t].ref > 0 && tab[u].ref > 0 ==> tab[t].inum != tab[u].inum)
  }

  datatype Call =
    | Get(inum: nat)
    | Lock(t: nat)
    | New(typ: nat)
    | Write(t: nat, off: nat, data: seq<byte>, avail: nat)
    | Trunc(t: nat)
    | Set(t: nat, major: nat, minor: nat, nlink: nat)   // as create, link and unlink do
    | Put(t: nat)

  /** Entry t is inode inum's and has one more reference; it was unused only if the inode had no entry. */
  ghost predicate Gotten(a: seq<Entry>, b: seq<Entry>, t: nat, inum: nat) {
    && t < |a| == |b| && b[t].inum == inum && (forall u :: 0 <= u < |b| && u != t ==> b[u] == a[u])
    && (a[t].ref > 0 ==> b[t] == a[t].(ref := a[t].ref + 1))
    && (a[t].ref == 0 ==>
          b[t].ref == 1 && !b[t].valid && forall u :: 0 <= u < |a| && a[u].ref > 0 ==> a[u].inum != inum)
  }

  /** Since the image was `base` only the blocks in `logged` were changed, all of them at or
      above lo. */
  ghost predicate Framed(lo: nat, base: Image, disk: Image, logged: set<nat>) {
    && |base| == |disk| && (forall x :: x in logged ==> lo <= x < |disk|)
    && (forall x {:trigger disk[x]} :: 0 <= x < |disk| && x !in logged ==> disk[x] == base[x])
  }

  lemma FramedPut(lo: nat, base: Image, disk: Image, logged: set<nat>, x: nat, b: Block)
    requires Framed(lo, base, disk, logged) && lo <= x < |disk|
    ensures Framed(lo, base, disk[x := b], logged + {x})
  {
  }

  /** The file system as its callers see it: inodes, contents and the inode table. */
  datatype State = State(g: Fs, tab: seq<Entry>)

  predicate InUse(a: State, t: nat) { t < |a.tab| && a.tab[t].ref > 0 && a.tab[t].inum < |a.g.ino| }

  predicate Loaded(a: State, t: nat) { InUse(a, t) && a.tab[t].valid }

  /** Only the copy in entry t changed. */
  ghost predicate Refreshed(a: State, b: State, t: nat)
    requires t < |a.tab|
  {
    |b.tab| == |a.tab| && b.tab == a.tab[t := a.tab[t].(din := b.tab[t].din)]
  }

  /** No file but i changed. */
  ghost predicate Elsewhere(a: Fs, b: Fs, i: nat) {
    |a.ino| == |b.ino| && forall j :: 0 <= j < |a.ino| && j != i ==> b.Content(j) == a.Content(j)
  }

  /** ialloc(typ) gave entry t. */
  ghost predicate Made(a: State, b: State, t: nat, typ: nat) {
    && t < |b.tab|
    && var i := b.tab[t].inum;
       && 1 <= i < |a.g.ino| && a.g.ino[i].typ == 0 && (forall j :: 1 <= j < i ==> a.g.ino[j].typ != 0)
       && b.g.ino == a.g.ino[i := FreeInode(typ)] && a.g.SameBytes(b.g) && Gotten(a.tab, b.tab, t, i)
  }

  /** writei() wrote w bytes through entry t. */
  ghost predicate Wrote(a: State, b: State, t: nat, off: nat, data: seq<byte>, avail: nat, w: nat)
    requires Loaded(a, t)
  {
    var i := a.tab[t].inum;
    && Refreshed(a, b, t) && |b.g.ino| == |a.g.ino| && WroteFile(a.g, b.g, i, off, data, w)
    && (off <= a.g.ino[i].size && off + |data| <= MAXFILE * BSIZE ==> w <= avail && (w == |data| <==> |data| <= avail))
    && (off > a.g.ino[i].size || off + |data| > MAXFILE * BSIZE ==> w == 0)
  }

  /** iput() of entry t: the last reference to an unlinked inode frees it. */
  ghost predicate Dropped(a: State, b: State, t: nat)
    requires InUse(a, t)
  {
    var e := a.tab[t];
    var freed := e.ref == 1 && e.valid && e.din.nlink == 0;
    && |b.tab| == |a.tab| && b.tab == a.tab[t := Entry(e.inum, e.ref - 1, e.valid && !freed, b.tab[t].din)]
    && Elsewhere(a.g, b.g, e.inum)
    && if freed then
         var d := a.g.Detach(e.inum);
         b.g.ino == a.g.ino[e.inum := d.ino[e.inum].(typ := 0)] && b.g.owner == d.owner
       else b.g == a.g && b.tab[t].din == e.din
  }

  /** What a completed call does to the files and the table. */
  ghost predicate Did(c: Call, a: State, b: State) {
    match c
    case Get(inum) => b.g == a.g && if inum < |a.g.ino| then exists t :: Gotten(a.tab, b.tab, t, inum)
      else b.tab == a.tab
    case Lock(t) =>
      && b.g == a.g
      && if InUse(a, t) then b.tab == a.tab[t := a.tab[t].(valid := true, din := a.g.ino[a.tab[t].inum])] else b == a
    case New(typ) => if 0 < typ < 65536 then exists t :: Made(a, b, t, typ) else b == a
    case Write(t, off, data, avail) =>
      if Loaded(a, t) && off < 0x1_0000_0000 && |data| < 0x1_0000_0000 then
        exists w :: Wrote(a, b, t, off, data, avail, w)
      else b == a
    case Trunc(t) =>
      if Loaded(a, t) then
        && Refreshed(a, b, t) && Elsewhere(a.g, b.g, a.tab[t].inum)
        && a.g.SameFields(b.g) && b.g.ino[a.tab[t].inum].size == 0
      else b == a
    case Set(t, major, minor, nlink) =>
      if Loaded(a, t) && major < 65536 && minor < 65536 && nlink < 65536 then
        var i := a.tab[t].inum;
        && Refreshed(a, b, t) && a.g.SameBytes(b.g)
        && b.g.ino == a.g.ino[i := a.g.ino[i].(major := major, minor := minor, nlink := nlink)]
      else b == a
    case Put(t) => if InUse(a, t) then Dropped(a, b, t) else b == a
  }

  /** The calls one after another lead from a to b. */
  ghost predicate Ran(calls: seq<Call>, a: State, b: State) {
    if calls == [] then a == b else
    var n := |calls| - 1;
    exists m :: Ran(calls[..n], a, m) && Did(calls[n], m, b)
  }

  lemma RanMore(calls: seq<Call>, c: Call, a: State, m: State, b: State)
    requires Ran(calls, a, m) && Did(c, m, b)
    ensures Ran(calls + [c], a, b)
  {
    hide Did;
    assert (calls + [c])[..|calls|] == calls;
  }

  class FileSystem {
    const sb: Super
    var disk: Image
    var tab: seq<Entry>        // itable.inode
    var logged: set<nat>
    ghost var base: Image      // the image at the start of the transaction, when `logged` was empty
    ghost var g: Fs

    /** The invariant, with every inode but `dirty` stored on disk. */
    ghost predicate Valid(dirty: int)
      reads this
    {
      && g.Inv(sb) && disk == g.disk && g.extra == {} && g.Stored(sb, dirty)
      && Table(tab, g.ino) && Framed(sb.inodestart, base, disk, logged)
    }

    ghost function Now(): State reads this { State(g, tab) }

    /** Every block is marked in the bitmap. */
    ghost predicate Full()
      reads this
    {
      forall c :: 0 <= c < sb.size ==> sb.BBlock(c) < |disk| && sb.BitAt(disk, c)
    }

    constructor (s: Super, image: Image, nentries: nat, ghost fs: Fs)
      requires fs.Inv(s) && fs.disk == image && fs.extra == {} && fs.Stored(s, -1)
      ensures sb == s && g == fs && Valid(-1) && tab == seq(nentries, _ => Entry(0, 0, false, FreeInode(0)))
    {
      sb, disk, g, logged, base := s, image, fs, {}, image;
      tab := seq(nentries, _ => Entry(0, 0, false, FreeInode(0)));
    }

    /** The inner loop of balloc(): the lowest clear bit of a bitmap block, or the number of bits it
        looked at. */
    method ScanBlock(bp: Block, b: nat) returns (bi: nat)
      requires b < sb.size
      ensures bi <= BITS && b + bi <= sb.size && forall k :: 0 <= k < bi ==> Bit(bp, k)
      ensures bi == BITS || b + bi == sb.size || !Bit(bp, bi)
    {
      bi := 0;
      while bi < BITS && b + bi < sb.size && Bit(bp, bi)
        invariant 0 <= bi <= BITS && b + bi <= sb.size && forall k :: 0 <= k < bi ==> Bit(bp, k)
      {
        bi := bi + 1;
      }
    }

    /** The two loops of balloc(): the lowest clear bit, or sb.size. */
    method FindFree() returns (b: nat)
      requires sb.Fits(disk)
      ensures b <= sb.size
      ensures b < sb.size ==> sb.BBlock(b) < |disk| && !sb.BitAt(disk, b)
      ensures forall c :: 0 <= c < b ==> sb.BBlock(c) < |disk| && sb.BitAt(disk, c)
    {
      hide Bit;
      b := 0;
      while b < sb.size
        invariant b % BITS == 0
        invariant forall c :: 0 <= c < b && c < sb.size ==> sb.BBlock(c) < |disk| && sb.BitAt(disk, c)
        decreases sb.size - b
      {
        sb.InRange(b, 0);
        var bi := ScanBlock(disk[sb.BBlock(b)], b);
        forall c | b <= c < b + bi && c < sb.size ensures sb.BBlock(c) < |disk| && sb.BitAt(disk, c) {
          SameBlock(b, c - b);
        }
        if bi < BITS && b + bi < sb.size {
          SameBlock(b, bi);
          return b + bi;
        }
        b := b + BITS;
      }
      b := sb.size;
    }

    /** balloc(): take the lowest clear bit, mark it, zero the block.  `!ok` is the "out of
        blocks" panic. */
    method Balloc() returns (ok: bool, b: nat)
      requires g.Inv(sb) && disk == g.disk && Framed(sb.inodestart, base, disk, logged)
      modifies this`disk, this`g, this`logged
      ensures !ok ==> g == old(g) && disk == old(disk) && logged == old(logged) && Full()
      ensures ok ==> b < sb.size && sb.BBlock(b) < |old(disk)| && !sb.BitAt(old(disk), b)
      ensures ok ==> forall c :: 0 <= c < b ==> sb.BBlock(c) < |old(disk)| && sb.BitAt(old(disk), c)
      ensures ok ==> g == old(g).Alloc(sb, b) && g.Inv(sb) && disk == g.disk
      ensures ok ==> logged == old(logged) + {sb.BBlock(b), b} && Framed(sb.inodestart, base, disk, logged)
    {
      hide Framed;
      b := FindFree();
      ok := b < sb.size;
      if ok {
        g.AllocKeeps(sb, b);
        sb.InRange(b, 0);
        FramedPut(sb.inodestart, base, disk, logged, sb.BBlock(b), SetBit(disk[sb.BBlock(b)], b % BITS, true));
        FramedPut(sb.inodestart, base, sb.PutBit(disk, b, true), logged + {sb.BBlock(b)}, b, Zero());
        assert logged + {sb.BBlock(b)} + {b} == logged + {sb.BBlock(b), b};
        disk := sb.PutBit(disk, b, true)[b := Zero()];
        logged := logged + {sb.BBlock(b), b};
        g := g.Alloc(sb, b);
      }
    }

    /** bfree() of a block no slot holds; its bit is set, so "freeing free block" cannot
        happen. */
    method Bfree(b: nat)
      requires g.Inv(sb) && disk == g.disk && b in g.extra && Framed(sb.inodestart, base, disk, logged)
      modifies this`disk, this`g, this`logged
      ensures g.Inv(sb) && disk == g.disk && old(g).SameSlots(g) && Framed(sb.inodestart, base, disk, logged)
      ensures b < sb.size && sb.BBlock(b) < |old(disk)| && sb.BitAt(old(disk), b) && g == old(g).Free(sb, b)
      ensures logged == old(logged) + {sb.BBlock(b)}
    {
      hide Framed;
      g.FreeKeeps(sb, b);
      sb.InRange(b, 0);
      FramedPut(sb.inodestart, base, disk, logged, sb.BBlock(b), SetBit(disk[sb.BBlock(b)], b % BITS, false));
      disk := sb.PutBit(disk, b, false);
      logged := logged + {sb.BBlock(b)};
      g := g.Free(sb, b);
    }

    /** iupdate() */
    method Iupdate(t: nat)
      requires t < |tab| && tab[t].ref > 0 && tab[t].inum < sb.ninodes && g.Inv(sb) && disk == g.disk
      requires g.Stored(sb, tab[t].inum) && tab[t].din == g.ino[tab[t].inum]
                 && Framed(sb.inodestart, base, disk, logged)
      modifies this`disk, this`g, this`logged
      ensures g.Inv(sb) && disk == g.disk && g.Stored(sb, -1) && old(g).SameSlots(g)
      ensures g == old(g).(disk := g.disk) && logged == old(logged) + {sb.IBlock(tab[t].inum)}
                && Framed(sb.inodestart, base, disk, logged)
      ensures |g.disk| == |old(g).disk|
      ensures forall x {:trigger g.disk[x]} :: sb.bmapstart <= x < |g.disk| ==> g.disk[x] == old(g).disk[x]
    {
      hide Fs.Owned, Fs.InData, Fs.Bits, Fs.Filled, Fs.Stored, Fs.S, Super.Fits, SetInode, Framed;
      var i := tab[t].inum;
      g.Updated(sb, i);
      FramedPut(sb.inodestart, base, disk, logged, sb.IBlock(i), SetInode(disk[sb.IBlock(i)], i % IPB, tab[t].din));
      disk := sb.PutInode(disk, i, tab[t].din);
      logged := logged + {sb.IBlock(i)};
      g := g.(disk := disk);
    }

    /** The caller has locked table entry t: it is in use and loaded. */
    predicate Locked(t: nat)
      reads this
    {
      t < |tab| && tab[t].ref > 0 && tab[t].valid
    }

    /** Address slot k of the inode, filled by balloc if it is empty; `!ok` is balloc's panic. */
    method FillSlot(t: nat, k: nat) returns (ok: bool, addr: nat)
      requires Locked(t) && Valid(tab[t].inum) && k <= IND
      modifies this`disk, this`g, this`logged, this`tab
      ensures ok ==> Locked(t) && tab[t].inum == old(tab[t]).inum && Valid(tab[t].inum)
      ensures ok ==> tab == old(tab)[t := old(tab[t]).(din := tab[t].din)]
      ensures old(g).S(old(tab[t]).inum, k) != 0 ==> ok
      ensures !ok ==> Full()
      ensures ok ==> old(g).Extends(g) && addr == g.S(tab[t].inum, k) && addr != 0
      ensures ok && old(g).S(old(tab[t]).inum, k) != 0 ==> g == old(g) && tab == old(tab) && logged == old(logged)
      ensures ok ==> logged <= old(logged) + {sb.BBlock(addr), addr}
    {
      hide Fs.Owned, Fs.InData, Fs.Bits, Fs.Filled, Fs.Stored, Super.Fits, Table, Framed;
      ghost var i := tab[t].inum;
      TableAt(tab, g.ino, t);
      ok, addr := true, tab[t].din.addrs[k];
      if addr == 0 {
        ok, addr := Balloc();
        if ok {
          old(g).GrowKeeps(sb, i, k, addr);
          var din := tab[t].din.(addrs := tab[t].din.addrs[k := addr]);
          TableSet(tab, g.ino, t, din);
          tab := tab[t := tab[t].(din := din)];
          g := g.Attach(i, k, addr);
        }
      } else {
        g.ExtendsRefl();
      }
    }

    /** The same for entry j of the indirect block, which bmap logs when it changes. */
    method FillEntry(t: nat, j: nat) returns (ok: bool, addr: nat)
      requires Locked(t) && Valid(tab[t].inum) && j < NINDIRECT && g.S(tab[t].inum, IND) != 0
      modifies this`disk, this`g, this`logged
      ensures ok ==> Locked(t) && Valid(tab[t].inum)
      ensures old(g).S(tab[t].inum, 13 + j) != 0 ==> ok
      ensures !ok ==> Full()
      ensures ok ==> old(g).Extends(g) && addr == g.S(tab[t].inum, 13 + j) && addr != 0
      ensures ok && old(g).S(tab[t].inum, 13 + j) != 0 ==> g == old(g) && logged == old(logged)
      ensures ok ==> logged <= old(logged) + {sb.BBlock(addr), addr, g.S(tab[t].inum, IND)}
    {
      hide Fs.Owned, Fs.InData, Fs.Bits, Fs.Filled, Fs.Stored, Super.Fits, Table, Fs.Extends, Framed;
      ghost var i := tab[t].inum;
      TableAt(tab, g.ino, t);
      g.SlotInData(sb, i, IND);
      g.InDisk(sb, i, IND);
      var ind := tab[t].din.addrs[IND];
      ok, addr := true, Word(disk[ind], j);
      if addr == 0 {
        ok, addr := Balloc();
        if ok {
          old(g).GrowEntryKeeps(sb, i, j, addr);
          g.InodesFirst(sb);
          FramedPut(sb.inodestart, base, disk, logged, ind, SetWord(disk[ind], j, addr));
          disk := disk[ind := SetWord(disk[ind], j, addr)];
          logged := logged + {ind};
          g := g.AttachEntry(i, j, addr);
          old(g).ExtendsKeeps(g, i, IND);
        }
      } else {
        g.ExtendsRefl();
      }
    }

    /** bmap(): the block of file block bn, allocated if missing.  `bms` are the bitmap
        blocks it logged: one if the block was missing, one more if the indirect block was. */
    method Bmap(t: nat, bn: nat) returns (ok: bool, addr: nat, ghost bms: set<nat>)
      requires Locked(t) && Valid(tab[t].inum)
      modifies this`disk, this`g, this`logged, this`tab
      ensures bn >= MAXFILE ==> !ok
      ensures bn < MAXFILE && !ok ==> Full()
      ensures bn < MAXFILE && old(g).S(old(tab[t]).inum, SlotOf(bn)) != 0 ==> ok
      ensures ok ==> Locked(t) && tab[t].inum == old(tab[t]).inum && Valid(tab[t].inum)
      ensures ok ==> tab == old(tab)[t := old(tab[t]).(din := tab[t].din)]
      ensures ok ==> old(g).Extends(g) && addr == g.S(tab[t].inum, SlotOf(bn)) && addr != 0
      ensures ok && old(g).S(tab[t].inum, SlotOf(bn)) != 0 ==>
                g == old(g) && tab == old(tab) && logged == old(logged) && bms == {}
      ensures ok ==> |bms| <= 1 + (if bn >= NDIRECT && old(g).S(tab[t].inum, IND) == 0 then 1 else 0)
      ensures ok ==> logged <= old(logged) + bms + {addr} + (if bn < NDIRECT then {} else {g.S(tab[t].inum, IND)})
    {
      hide Fs.Owned, Fs.InData, Fs.Bits, Fs.Filled, Fs.Stored, Super.Fits, Table, Fs.Extends, Fs.Inv, Framed,
           FileSystem.Full;
      ghost var i := tab[t].inum;
      bms := {};
      if bn < NDIRECT {
        ok, addr := FillSlot(t, bn);
        if ok && old(g).S(i, bn) == 0 {
          bms := {sb.BBlock(addr)};
        }
        return;
      }
      if bn - NDIRECT < NINDIRECT {
        IndFirst(old(g), i, bn);
        ok, addr := FillSlot(t, IND);
        if !ok {
          return;
        }
        if old(g).S(i, IND) == 0 {
          bms := {sb.BBlock(addr)};
        }
        ghost var g1 := g;
        ok, addr := FillEntry(t, bn - NDIRECT);
        if ok {
          old(g).ExtendsTrans(g1, g);
          g1.ExtendsKeeps(g, i, IND);
          if g1.S(i, bn + 1) == 0 {
            bms := bms + {sb.BBlock(addr)};
          }
        }
        return;
      }
      ok, addr := false, 0;
    }

    /** The block, if any, of the r-th slot of inode i, which has let go of its blocks. */
    method FreeNext(b: nat, ghost g0: Fs, ghost i: nat, ghost r: nat)
      requires g0.Inv(sb) && i < |g0.ino| && r < NSLOT && b == g0.S(i, Unrank(r))
      requires disk == g.disk && g.Inv(sb) && g0.Freeing(sb, g, i, r) && Framed(sb.inodestart, base, disk, logged)
      modifies this`disk, this`g, this`logged
      ensures disk == g.disk && g.Inv(sb) && g0.Freeing(sb, g, i, r + 1) && Framed(sb.inodestart, base, disk, logged)
    {
      hide Framed, Fs.Owned, Fs.InData, Fs.Bits, Fs.Filled, Super.Fits, Fs.S, Fs.Held, Fs.Inv;
      g0.FreeingStep(sb, g, i, r);
      if b != 0 {
        Bfree(b);
      }
    }

    /** itrunc(): every block of the inode is freed, none twice, and the inode is stored with
        no blocks and size 0. */
    method Itrunc(t: nat)
      requires Locked(t) && Valid(tab[t].inum)
      modifies this`disk, this`g, this`logged, this`tab
      ensures Locked(t) && tab[t].inum == old(tab[t]).inum && Valid(-1) && |tab| == |old(tab)|
      ensures g.ino == old(g).Detach(tab[t].inum).ino && g.owner == old(g).Detach(tab[t].inum).owner
      ensures tab == old(tab)[t := old(tab[t]).(din := g.ino[tab[t].inum])]
      ensures |g.disk| == |old(g).disk|
      ensures forall x {:trigger g.disk[x]} :: sb.DataStart() <= x < |g.disk| ==> g.disk[x] == old(g).disk[x]
      ensures Elsewhere(old(g), g, tab[t].inum) && old(g).SameFields(g) && g.ino[tab[t].inum].size == 0
    {
      hide Fs.Owned, Fs.InData, Fs.Bits, Fs.Filled, Super.Fits, Table, Fs.Held, Fs.Inv, Fs.Stored, Framed, Fs.ByteAt,
           Fs.Content;
      ghost var g0 := g;
      ghost var i := tab[t].inum;
      TableAt(tab, g.ino, t);
      g0.ShapeAt(sb, i);
      g0.FreeingStart(sb, i);
      g := g.Detach(i);
      var din := tab[t].din;
      var k := 0;
      while k < NDIRECT
        modifies this`disk, this`g, this`logged
        invariant 0 <= k <= NDIRECT && disk == g.disk && g.Inv(sb) && g0.Freeing(sb, g, i, k)
        invariant Framed(sb.inodestart, base, disk, logged)
        invariant |din.addrs| == NDIRECT + 1 && din == g0.ino[i].(addrs := din.addrs)
        invariant forall m :: k <= m <= IND ==> din.addrs[m] == g0.ino[i].addrs[m]
        invariant forall m :: 0 <= m < k ==> din.addrs[m] == 0
      {
        FreeNext(din.addrs[k], g0, i, k);
        din := din.(addrs := din.addrs[k := 0]);
        k := k + 1;
      }
      FreeIndirect(din.addrs[IND], g0, i);
      din := din.(addrs := din.addrs[IND := 0], size := 0);
      assert din.addrs == FreeInode(0).addrs;
      g0.FreeingEnd(sb, g, i);
      TableSet(tab, g0.ino, t, din);
      tab := tab[t := tab[t].(din := din)];
      Iupdate(t);
      g0.OthersKept(sb, g, i);
    }

    /** itrunc's second half: the blocks in the indirect block, then the indirect block. */
    method FreeIndirect(ind: nat, ghost g0: Fs, ghost i: nat)
      requires g0.Inv(sb) && i < |g0.ino| && ind == g0.S(i, IND)
      requires disk == g.disk && g.Inv(sb) && g0.Freeing(sb, g, i, NDIRECT) && Framed(sb.inodestart, base, disk, logged)
      modifies this`disk, this`g, this`logged
      ensures disk == g.disk && g.Inv(sb) && g0.Freeing(sb, g, i, NSLOT) && Framed(sb.inodestart, base, disk, logged)
    {
      hide Framed, Fs.Owned, Fs.InData, Fs.Bits, Fs.Filled, Super.Fits, Fs.Held, Fs.Inv;
      if ind == 0 {
        g0.FreeingNoIndirect(sb, g, i);
        return;
      }
      g0.InDisk(sb, i, IND);
      var bp := disk[ind];
      var j := 0;
      while j < NINDIRECT
        invariant 0 <= j <= NINDIRECT && disk == g.disk && g.Inv(sb) && g0.Freeing(sb, g, i, NDIRECT + j)
        invariant Framed(sb.inodestart, base, disk, logged)
      {
        FreeNext(Word(bp, j), g0, i, NDIRECT + j);
        j := j + 1;
      }
      FreeNext(ind, g0, i, 268);
    }

    /** One round of writei's loop: bmap, copy `chunk` into the buffer (which fails as a whole
        when !copies), log_write. */
    method WriteOne(t: nat, o: nat, chunk: seq<byte>, copies: bool) returns (ok: bool, addr: nat, ghost bms: set<nat>)
      requires Locked(t) && Valid(tab[t].inum) && o % BSIZE + |chunk| <= BSIZE
      modifies this`disk, this`g, this`logged, this`tab
      ensures o / BSIZE >= MAXFILE ==> !ok
      ensures o / BSIZE < MAXFILE && !ok ==> Full()
      ensures ok ==> Locked(t) && tab[t].inum == old(tab[t]).inum && Valid(tab[t].inum)
      ensures ok ==> tab == old(tab)[t := old(tab[t]).(din := tab[t].din)]
      ensures ok ==> old(g).Wrote(g, tab[t].inum, o, if copies then chunk else [])
      ensures ok && old(g).S(tab[t].inum, SlotOf(o / BSIZE)) != 0 ==> bms == {}
      ensures ok ==> |bms| <= 1 + (if g.S(tab[t].inum, IND) != 0 && old(g).S(tab[t].inum, IND) == 0 then 1 else 0)
      ensures ok ==> logged <= old(logged) + bms + {addr} + IndSet(g.S(tab[t].inum, IND))
    {
      hide Fs.Owned, Fs.InData, Fs.Bits, Fs.Filled, Fs.Stored, Super.Fits, Table, Fs.Extends, Fs.Inv, Fs.Wrote, Fs.S;
      hide Framed, FileSystem.Full;
      ghost var i := tab[t].inum;
      ok, addr, bms := Bmap(t, o / BSIZE);
      if ok {
        IndFirst(g, i, o / BSIZE);
        old(g).ExtendsWrote(g, i, o);
        if copies {
          ghost var g1 := g;
          CopyChunk(t, o, chunk, addr);
          old(g).WroteTrans(g1, g, i, o, [], chunk);
          assert [] + chunk == chunk;
        }
      }
    }

    /** either_copyin() into the cached block and log_write(). */
    method CopyChunk(t: nat, o: nat, chunk: seq<byte>, addr: nat)
      requires Locked(t) && Valid(tab[t].inum) && o % BSIZE + |chunk| <= BSIZE && o / BSIZE < MAXFILE
      requires addr == g.S(tab[t].inum, SlotOf(o / BSIZE)) && addr != 0
      modifies this`disk, this`g, this`logged
      ensures Locked(t) && Valid(tab[t].inum) && logged == old(logged) + {addr}
      ensures old(g).Wrote(g, tab[t].inum, o, chunk) && g.S(tab[t].inum, IND) == old(g).S(tab[t].inum, IND)
    {
      hide Fs.Owned, Fs.InData, Fs.Bits, Fs.Filled, Fs.Stored, Super.Fits, Table, Fs.Inv, Fs.Wrote, Fs.S, Framed;
      ghost var i := tab[t].inum;
      g.InDisk(sb, i, SlotOf(o / BSIZE));
      var data := Overlay(disk[addr], o % BSIZE, chunk);
      g.DataKeeps(sb, i, SlotOf(o / BSIZE), data);
      g.DataStored(sb, i, SlotOf(o / BSIZE), data, i);
      g.ChunkWrote(sb, i, o / BSIZE, o % BSIZE, chunk);
      g.DataSlot(sb, i, SlotOf(o / BSIZE), data, i, IND);
      g.InodesFirst(sb);
      FramedPut(sb.inodestart, base, disk, logged, addr, data);
      disk := disk[addr := data];
      logged := logged + {addr};
      g := g.WriteBlock(addr, data);
    }

    /** The end of writei(): the size grows to the offset reached, and the inode is stored. */
    method FinishWrite(t: nat, off: nat)
      requires Locked(t) && Valid(tab[t].inum) && off <= MAXFILE * BSIZE
      requires forall bn: nat {:trigger g.S(tab[t].inum, SlotOf(bn))} ::
                 bn * BSIZE < off ==> g.S(tab[t].inum, SlotOf(bn)) != 0
      modifies this`disk, this`g, this`logged, this`tab
      ensures Locked(t) && tab[t].inum == old(tab[t]).inum && Valid(-1)
      ensures tab == old(tab)[t := old(tab[t]).(din := tab[t].din)]
      ensures old(g).SameSlots(g) && old(g).SameBytes(g) && |g.ino| == |old(g).ino| && g.owner == old(g).owner
      ensures var i := tab[t].inum;
              var size := if off > old(g).ino[i].size then off else old(g).ino[i].size;
              i < |g.ino| && g.ino == old(g).ino[i := old(g).ino[i].(size := size)]
      ensures logged == old(logged) + {sb.IBlock(tab[t].inum)}
    {
      hide Fs.Owned, Fs.InData, Fs.Bits, Fs.Stored, Super.Fits, Table, Fs.S, Framed;
      ghost var i := tab[t].inum;
      TableAt(tab, g.ino, t);
      g.ShapeAt(sb, i);
      if off > tab[t].din.size {
        var din := tab[t].din.(size := off);
        g.EditKeeps(sb, i, din);
        g.EditStored(sb, i, din);
        TableSet(tab, g.ino, t, din);
        tab := tab[t := tab[t].(din := din)];
        g := g.Edit(i, din);
      } else {
        assert g.ino[i := g.ino[i]] == g.ino;
      }
      ghost var g1 := g;
      Iupdate(t);
      old(g).FrameBytes(sb, g);
    }

    /** After the loop of writei: store the inode; the contents are the old ones spliced. */
    method FinishWriteSplice(t: nat, off: nat, data: seq<byte>, ghost g0: Fs)
      requires Locked(t) && Valid(tab[t].inum) && tab[t].inum < |g0.ino| && g0.Inv(sb)
                 && off + |data| <= MAXFILE * BSIZE
      requires off <= g0.ino[tab[t].inum].size && g0.Wrote(g, tab[t].inum, off, data)
      modifies this`disk, this`g, this`logged, this`tab
      ensures Locked(t) && tab[t].inum == old(tab[t]).inum && Valid(-1)
      ensures tab == old(tab)[t := old(tab[t]).(din := tab[t].din)]
      ensures |g.ino| == |g0.ino| && g.Content(tab[t].inum) == Splice(g0.Content(tab[t].inum), off, data)
      ensures forall j :: 0 <= j < |g.ino| && j != tab[t].inum ==> g.Content(j) == g0.Content(j)
      ensures g0.SameFields(g) && logged == old(logged) + {sb.IBlock(tab[t].inum)}
    {
      hide Fs.Owned, Fs.InData, Fs.Bits, Fs.Stored, Super.Fits, Table, Fs.S, Fs.Inv, Fs.SameBytes, Fs.SameSlots, Framed;
      ghost var i := tab[t].inum;
      forall bn: nat | bn * BSIZE < off + |data| ensures g.S(i, SlotOf(bn)) != 0 {
        g0.SplicedNoHole(sb, g, i, off, data, bn);
      }
      ghost var g1 := g;
      FinishWrite(t, off + |data|);
      g0.Spliced(sb, g1, g, i, off, data);
    }

    /** One round of writei's loop after `tot` bytes and c blocks, with the accounting of the
        blocks logged since lg0. */
    method WriteRound(t: nat, off: nat, data: seq<byte>, tot: nat, m: nat, copies: bool,
                      ghost g0: Fs, ghost lg0: set<nat>, ghost D: set<nat>, ghost B: set<nat>, ghost c: nat)
      returns (ok: bool, ghost D': set<nat>, ghost B': set<nat>)
      requires Locked(t) && Valid(tab[t].inum) && tab[t].inum < |g0.ino| && off <= g0.ino[tab[t].inum].size
      requires tot + m <= |data| && (off + tot) % BSIZE + m <= BSIZE && (c == 0 ==> tot == 0)
      requires (off + tot) / BSIZE < MAXFILE
      requires g0.Wrote(g, tab[t].inum, off, data[..tot])
      requires Few(lg0, logged, D, B, c, g0.S(tab[t].inum, IND), g.S(tab[t].inum, IND), off)
      modifies this`disk, this`g, this`logged, this`tab
      ensures ok ==> Locked(t) && tab[t].inum == old(tab[t]).inum && Valid(tab[t].inum)
      ensures ok ==> tab == old(tab)[t := old(tab[t]).(din := tab[t].din)]
      ensures !ok ==> Full()
      ensures ok ==> g0.Wrote(g, tab[t].inum, off, data[..if copies then tot + m else tot])
      ensures ok ==> Few(lg0, logged, D', B', c + 1, g0.S(tab[t].inum, IND), g.S(tab[t].inum, IND), off)
    {
      hide Fs.Owned, Fs.InData, Fs.Bits, Fs.Filled, Fs.Stored, Super.Fits, Table, Fs.S, Fs.Wrote, Fs.Inv, Few, IndSet,
           Framed, FileSystem.Full;
      D', B' := D, B;
      ghost var chunk := if copies then data[tot..tot + m] else [];
      ghost var i, g1, lg := tab[t].inum, g, logged;
      var addr; ghost var bms;
      ok, addr, bms := WriteOne(t, off + tot, data[tot..tot + m], copies);
      if ok {
        g0.WroteSize(g1, i, off, data[..tot]);
        if c == 0 && off % BSIZE != 0 {
          FirstExists(sb, g1, i, off);
        }
        g0.WroteInd(g1, i, off, data[..tot]);
        g1.WroteInd(g, i, off + tot, chunk);
        FewStep(lg0, lg, logged, D, B, c, g0.S(i, IND), g1.S(i, IND), g.S(i, IND), off, addr, bms);
        g0.WroteTrans(g1, g, i, off, data[..tot], chunk);
        D', B' := D + {addr}, B + bms;
        assert data[..tot] + chunk == data[..tot + |chunk|];
      }
    }

    /** The loop of writei(): copies whole chunks while `avail` lasts. */
    method WriteLoop(t: nat, off: nat, data: seq<byte>, avail: nat) returns (ok: bool, tot: nat)
      requires Locked(t) && Valid(tab[t].inum) && tab[t].inum < |g.ino| && off <= g.ino[tab[t].inum].size
      requires off + |data| <= MAXFILE * BSIZE
      modifies this`disk, this`g, this`logged, this`tab
      ensures !ok ==> Full()
      ensures ok ==> tot <= |data| && tot <= avail && (tot == |data| <==> |data| <= avail)
      ensures ok ==> Locked(t) && tab[t].inum == old(tab[t]).inum && Valid(tab[t].inum)
      ensures ok ==> tab == old(tab)[t := old(tab[t]).(din := tab[t].din)]
      ensures ok ==> old(g).Wrote(g, tab[t].inum, off, data[..tot])
      ensures ok ==> forall x :: |logged + {x} - old(logged)| <= WriteBound(off, |data|)
    {
      hide Fs.Owned, Fs.InData, Fs.Bits, Fs.Filled, Fs.Stored, Super.Fits, Table, Fs.S, Fs.Wrote, Fs.Inv, Touch, Few,
           IndSet, WriteBound, Framed, FileSystem.Full;
      ghost var i, g0 := tab[t].inum, g;
      ghost var D: set<nat>, B: set<nat>, c := {}, {}, 0;
      g0.ExtendsRefl();
      g0.ExtendsWrote(g0, i, off);
      FewStart(logged, g.S(i, IND), off);
      var n, copied := |data|, true;
      tot := 0;
      TouchNone(off);
      TouchMono(off, 0, n);
      while tot < n && copied
        invariant 0 <= tot <= n && tot <= avail && (tot < n && copied && tot > 0 ==> (off + tot) % BSIZE == 0)
        invariant !copied ==> tot < n && avail < n
        invariant Locked(t) && tab[t].inum == i && Valid(i) && g0.Wrote(g, i, off, data[..tot])
        invariant tab == old(tab)[t := old(tab[t]).(din := tab[t].din)]
        invariant Few(old(logged), logged, D, B, c, g0.S(i, IND), g.S(i, IND), off) && c <= Touch(off, n)
        invariant copied ==> c == Touch(off, tot) && (c == 0 <==> tot == 0)
        decreases n - tot, copied
      {
        var o := off + tot;
        var m := if n - tot < BSIZE - o % BSIZE then n - tot else BSIZE - o % BSIZE;
        copied := tot + m <= avail;
        ok, D, B := WriteRound(t, off, data, tot, m, copied, g0, old(logged), D, B, c);
        if !ok {
          return;
        }
        TouchStep(off, tot, m);
        TouchMono(off, tot + m, n);
        c := c + 1;
        tot := if copied then tot + m else tot;
      }
      ok := true;
      forall x ensures |logged + {x} - old(logged)| <= WriteBound(off, n) {
        FewEnd(old(logged), logged, D, B, c, g0.S(i, IND), g.S(i, IND), off, x);
        WriteBoundMono(off, n, c);
      }
    }

    /** writei(): `avail` bytes of the source can be copied in.  The result is -1 for an
        offset past the end or a file too large, otherwise the bytes written: all of them
        unless a copy fails.  Then the file is the old one with those bytes spliced in, no
        other file has changed, and few blocks were logged.  `!ok` is a panic of balloc. */
    method Writei(t: nat, off: nat, data: seq<byte>, avail: nat) returns (ok: bool, r: int)
      requires Locked(t) && Valid(-1) && off < 0x1_0000_0000 && |data| < 0x1_0000_0000
      modifies this`disk, this`g, this`logged, this`tab
      ensures off > old(tab[t]).din.size || off + |data| > MAXFILE * BSIZE ==>
                ok && r == -1 && g == old(g) && disk == old(disk) && tab == old(tab) && logged == old(logged)
      ensures old(Loaded(Now(), t))
      ensures ok && off <= old(tab[t]).din.size && off + |data| <= MAXFILE * BSIZE ==> r >= 0
      ensures ok ==> Valid(-1) && Locked(t) && r <= |data| && |logged - old(logged)| <= WriteBound(off, |data|)
      ensures ok ==> Wrote(old(Now()), Now(), t, off, data, avail, if r > 0 then r else 0)
      ensures !ok ==> Full()
    {
      hide Fs.Owned, Fs.InData, Fs.Bits, Fs.Stored, Super.Fits, Table, Fs.Wrote, Fs.Inv, WriteBound, Framed,
           FileSystem.Full, Fs.ByteAt, Fs.S, Fs.SameFields, Splice;
      ghost var i, g0 := tab[t].inum, g;
      TableAt(tab, g.ino, t);
      WroteNothing(g, i, off, data);
      g.ShapeAt(sb, i);
      g.StoredWeaken(sb, i);
      var n := |data|;
      if off > tab[t].din.size || off + n >= 0x1_0000_0000 {
        return true, -1;
      }
      if off + n > MAXFILE * BSIZE {
        return true, -1;
      }
      var tot;
      ok, tot := WriteLoop(t, off, data, avail);
      if !ok {
        return ok, 0;
      }
      FinishWriteSplice(t, off, data[..tot], g0);
      r := tot;
    }

    /** bread(bmap(ip, off/BSIZE)) below the size: no allocation, nothing changes. */
    method ReadPiece(t: nat, o: nat, k: nat) returns (piece: seq<byte>)
      requires Locked(t) && Valid(tab[t].inum) && tab[t].inum < |g.ino| && o < g.ino[tab[t].inum].size
                 && o % BSIZE + k <= BSIZE
      modifies this`disk, this`g, this`logged, this`tab
      ensures g == old(g) && disk == old(disk) && tab == old(tab) && logged == old(logged)
      ensures |piece| == k && forall q :: 0 <= q < k ==> piece[q] == g.ByteAt(tab[t].inum, o + q)
    {
      hide Fs.Owned, Fs.InData, Fs.Bits, Fs.Filled, Fs.Stored, Super.Fits, Table, Fs.S, Fs.Inv, Fs.Extends, Fs.ByteAt,
           Framed;
      ghost var i := tab[t].inum;
      g.InSize(sb, i, o);
      g.InDisk(sb, i, SlotOf(o / BSIZE));
      var ok, addr, bms := Bmap(t, o / BSIZE);
      piece := disk[addr].bytes[o % BSIZE..o % BSIZE + k];
      g.PieceBytes(i, o, k, piece);
    }

    /** readi(): the bytes [off, off+n) of the file cut to its size, 0 for an offset past the
        end, or -1 when a copy out fails; nothing changes, since below the size bmap never
        allocates. */
    method Readi(t: nat, off: nat, n: nat, avail: nat) returns (r: int, out: seq<byte>)
      requires Locked(t) && Valid(-1) && off < 0x1_0000_0000 && n < 0x1_0000_0000
      modifies this`disk, this`g, this`logged, this`tab
      ensures g == old(g) && disk == old(disk) && tab == old(tab) && logged == old(logged) && tab[t].inum < |g.ino|
      ensures off > tab[t].din.size || off + n >= 0x1_0000_0000 ==> r == 0 && out == []
      ensures off <= tab[t].din.size && off + n < 0x1_0000_0000 ==>
                var c := g.Content(tab[t].inum);
                var m := if off + n > |c| then |c| - off else n;
                if m <= avail then r == m && out == c[off..off + m] else r == -1
    {
      hide Fs.Owned, Fs.InData, Fs.Bits, Fs.Filled, Fs.Stored, Super.Fits, Table, Fs.Inv, Fs.ByteAt, Framed;
      ghost var i := tab[t].inum;
      TableAt(tab, g.ino, t);
      g.StoredWeaken(sb, i);
      if off > tab[t].din.size || off + n >= 0x1_0000_0000 {
        return 0, [];
      }
      var m := if off + n > tab[t].din.size then tab[t].din.size - off else n;
      out := [];
      while |out| < m
        invariant g == old(g) && disk == old(disk) && tab == old(tab) && logged == old(logged)
        invariant |out| <= m && |out| <= avail && forall p :: 0 <= p < |out| ==> out[p] == g.ByteAt(i, off + p)
      {
        var o := off + |out|;
        var k := if m - |out| < BSIZE - o % BSIZE then m - |out| else BSIZE - o % BSIZE;
        var piece := ReadPiece(t, o, k);
        if |out| + k > avail {
          return -1, out;
        }
        out := out + piece;
      }
      r := |out|;
      assert g.Content(i)[off..off + m] == out;
    }

    /** iget(): the entry of inode inum, with one more reference; an unused entry is taken if
        there is none.  `!ok` is the "no inodes" panic. */
    method Iget(inum: nat) returns (ok: bool, t: nat)
      requires Table(tab, g.ino) && inum < |g.ino|
      modifies this`tab
      ensures Table(tab, g.ino) && |tab| == |old(tab)|
      ensures !ok ==> tab == old(tab) && forall u :: 0 <= u < |tab| ==> tab[u].ref > 0 && tab[u].inum != inum
      ensures ok ==> Gotten(old(tab), tab, t, inum)
    {
      var empty: nat := |tab|;
      t := 0;
      while t < |tab|
        invariant 0 <= t <= |tab| && tab == old(tab) && empty <= |tab|
        invariant forall u :: 0 <= u < t && tab[u].ref > 0 ==> tab[u].inum != inum
        invariant if empty < |tab| then tab[empty].ref == 0 else forall u :: 0 <= u < t ==> tab[u].ref > 0
      {
        if tab[t].ref > 0 && tab[t].inum == inum {
          tab := tab[t := tab[t].(ref := tab[t].ref + 1)];
          return true, t;
        }
        if empty == |tab| && tab[t].ref == 0 {
          empty := t;
        }
        t := t + 1;
      }
      if empty == |tab| {
        return false, t;
      }
      t := empty;
      tab := tab[t := Entry(inum, 1, false, tab[t].din)];
      ok := true;
    }

    /** ilock(): load the inode if the entry is not valid.  `!ok` is the "no type" panic. */
    method Ilock(t: nat) returns (ok: bool)
      requires Valid(-1) && t < |tab| && tab[t].ref > 0
      modifies this`tab
      ensures t < |tab| && tab == old(tab)[t := old(tab[t]).(valid := true, din := tab[t].din)]
      ensures ok ==> Valid(-1) && Locked(t)
      ensures old(tab[t]).inum < |g.ino| && (ok <==> old(tab[t]).valid || g.ino[old(tab[t]).inum].typ != 0)
    {
      hide Fs.Inv, Fs.Stored, Super.Fits, Framed;
      ok := true;
      if !tab[t].valid {
        g.StoredAt(sb, tab[t].inum);
        var din := sb.InodeAt(disk, tab[t].inum);
        tab := tab[t := tab[t].(valid := true, din := din)];
        ok := din.typ != 0;
      }
    }

    /** ialloc(): the lowest free inode from 1 on becomes an empty one of the given type.  `!ok`
        is a panic: no inode is free, or iget finds the table full. */
    method Ialloc(typ: nat) returns (ok: bool, t: nat)
      requires Valid(-1) && 0 < typ < 65536
      modifies this`disk, this`g, this`logged, this`tab
      ensures ok ==> Valid(-1) && t < |tab| && tab[t].ref > 0
      ensures !ok ==>
                (forall j :: 1 <= j < |g.ino| ==> g.ino[j].typ != 0) || forall u :: 0 <= u < |tab| ==> tab[u].ref > 0
      ensures ok ==> Made(old(Now()), Now(), t, typ) && old(g).SameSlots(g) && g.owner == old(g).owner
      ensures ok ==> logged == old(logged) + {sb.IBlock(tab[t].inum)}
    {
      hide Fs.Owned, Fs.InData, Fs.Bits, Fs.Filled, Fs.Stored, Table, Fs.SameSlots, Super.Fits, Framed;
      var inum := FindInode();
      if inum >= sb.ninodes {
        return false, 0;
      }
      g.ShapeAt(sb, inum);
      g.AllocInode(sb, inum, FreeInode(typ));
      TableNew(tab, g.ino, inum, FreeInode(typ));
      FramedPut(sb.inodestart, base, disk, logged, sb.IBlock(inum),
        SetInode(disk[sb.IBlock(inum)], inum % IPB, FreeInode(typ)));
      disk := sb.PutInode(disk, inum, FreeInode(typ));
      logged := logged + {sb.IBlock(inum)};
      g := Fs(disk, g.ino[inum := FreeInode(typ)], g.owner, g.extra);
      old(g).FrameBytes(sb, g);
      ok, t := Iget(inum);
    }

    /** The loop of ialloc(). */
    method FindInode() returns (i: nat)
      requires Valid(-1)
      ensures 1 <= i && |g.ino| == sb.ninodes && (i < sb.ninodes ==> g.ino[i].typ == 0)
      ensures forall j :: 1 <= j < i && j < sb.ninodes ==> g.ino[j].typ != 0
    {
      hide Fs.Owned, Fs.InData, Fs.Bits, Fs.Filled;
      i := 1;
      while i < sb.ninodes
        invariant 1 <= i
        invariant forall j :: 1 <= j < i && j < sb.ninodes ==> g.ino[j].typ != 0
      {
        g.StoredAt(sb, i);
        if sb.InodeAt(disk, i).typ == 0 {
          return;
        }
        i := i + 1;
      }
    }

    /** create(), sys_link() and sys_unlink() setting the fields of a locked inode, then iupdate(). */
    method SetFields(t: nat, major: nat, minor: nat, nlink: nat)
      requires Locked(t) && Valid(-1) && major < 65536 && minor < 65536 && nlink < 65536
      modifies this`disk, this`g, this`logged, this`tab
      ensures Locked(t) && Valid(-1) && tab[t].inum == old(tab[t]).inum < |old(g).ino| == |g.ino|
      ensures var di := old(g).ino[tab[t].inum].(major := major, minor := minor, nlink := nlink);
              g.ino == old(g).ino[tab[t].inum := di] && tab == old(tab)[t := old(tab[t]).(din := di)]
      ensures g.owner == old(g).owner && old(g).SameSlots(g) && old(g).SameBytes(g)
      ensures logged == old(logged) + {sb.IBlock(tab[t].inum)}
    {
      hide Fs.Owned, Fs.InData, Fs.Bits, Fs.Stored, Super.Fits, Table, Fs.S, Framed, Fs.SameBytes;
      ghost var i := tab[t].inum;
      TableAt(tab, g.ino, t);
      g.ShapeAt(sb, i);
      g.StoredWeaken(sb, i);
      var din := tab[t].din.(major := major, minor := minor, nlink := nlink);
      g.EditKeeps(sb, i, din);
      g.EditStored(sb, i, din);
      TableSet(tab, g.ino, t, din);
      tab := tab[t := tab[t].(din := din)];
      g := g.Edit(i, din);
      Iupdate(t);
      old(g).FrameBytes(sb, g);
    }

    /** iput(): the last reference to an unlinked inode frees its blocks and then the inode; the
        other files keep their bytes. */
    method Iput(t: nat)
      requires Valid(-1) && t < |tab| && tab[t].ref > 0
      modifies this`disk, this`g, this`logged, this`tab
      ensures Valid(-1) && old(InUse(Now(), t)) && Dropped(old(Now()), Now(), t)
    {
      hide Fs.Owned, Fs.InData, Fs.Bits, Fs.Filled, Fs.Stored, Super.Fits, Table, Fs.S, Fs.Inv, Framed, Fs.ByteAt,
           Fs.Content;
      TableInum(tab, g.ino, t);
      if tab[t].ref == 1 && tab[t].valid && tab[t].din.nlink == 0 {
        ghost var i := tab[t].inum;
        TableAt(tab, g.ino, t);
        g.ShapeAt(sb, i);
        g.StoredWeaken(sb, i);
        Itrunc(t);
        g.FreeEmpty(sb, i);
        TableDrop(tab, g.ino, t, tab[t].din.(typ := 0));
        tab := tab[t := tab[t].(din := tab[t].din.(typ := 0))];
        g := g.Edit(i, g.ino[i].(typ := 0));
        Iupdate(t);
        old(g).OthersKept(sb, g, i);
        tab := tab[t := tab[t].(valid := false)];
      }
      TableUnref(tab, g.ino, t);
      tab := tab[t := tab[t].(ref := tab[t].ref - 1)];
    }

    /** The start of a transaction. */
    method Start()
      requires Valid(-1)
      modifies this`logged, this`base
      ensures Valid(-1) && logged == {} && base == disk
    {
      hide Fs.Owned, Fs.InData, Fs.Bits, Fs.Filled, Fs.Stored, Super.Fits, Table, Fs.Inv;
      logged, base := {}, disk;
    }

    /** One transaction of filewrite(): at most three blocks of data, at most MAXOPBLOCKS
        logged blocks. */
    method WriteTransaction(t: nat, off: nat, data: seq<byte>, avail: nat) returns (ok: bool, r: int)
      requires Locked(t) && Valid(-1) && off < 0x1_0000_0000 && |data| <= 3 * BSIZE
      modifies this`disk, this`g, this`logged, this`tab, this`base
      ensures ok ==> Locked(t) && tab[t].inum == old(tab[t]).inum && Valid(-1) && |logged| <= MAXOPBLOCKS
      ensures ok ==> base == old(disk)
      ensures !ok ==> Full()
      ensures ok ==> r <= |data| && (r > 0 ==> off + r < 0x1_0000_0000) && tab[t].inum < |old(g).ino| == |g.ino|
      ensures ok && off <= old(tab[t]).din.size && off + |data| <= MAXFILE * BSIZE && |data| <= avail ==> r == |data|
      ensures ok ==> WroteFile(old(g), g, tab[t].inum, off, data, if r > 0 then r else 0)
    {
      hide Fs.Owned, Fs.InData, Fs.Bits, Fs.Filled, Fs.Stored, Super.Fits, Table, Fs.S, Fs.Inv, WriteBound, Fs.ByteAt,
           Framed, FileSystem.Full;
      TableAt(tab, g.ino, t);
      Start();
      ok, r := Writei(t, off, data, avail);
      ChunkBound(off, |data|);
      if ok {
        assert logged - {} == logged;
        WroteNothing(old(g), tab[t].inum, off, data);
      }
    }

    /** The FD_INODE branch of filewrite(): the data is written in chunks of three blocks, each
        in its own transaction, and no transaction logs more than MAXOPBLOCKS blocks
        (`worst`).  w bytes are written in all, and it is all of them if the file may hold them
        and they can be copied in; short of n the result is -1. */
    method Filewrite(t: nat, off: nat, data: seq<byte>, avail: nat)
      returns (ok: bool, ret: int, newoff: nat, w: nat, ghost worst: nat)
      requires Locked(t) && Valid(-1) && off < 0x1_0000_0000
      modifies this`disk, this`g, this`logged, this`tab, this`base
      ensures worst <= MAXOPBLOCKS
      ensures !ok ==> Full()
      ensures ok ==> Locked(t) && tab[t].inum == old(tab[t]).inum && Valid(-1) && w <= |data| && newoff == off + w
      ensures ok ==> ret == if w == |data| then |data| else -1
      ensures ok && off <= old(tab[t]).din.size && off + |data| <= MAXFILE * BSIZE && |data| <= avail ==> w == |data|
      ensures ok ==> tab[t].inum < |old(g).ino| == |g.ino| && WroteFile(old(g), g, tab[t].inum, off, data, w)
    {
      hide Fs.Owned, Fs.InData, Fs.Bits, Fs.Filled, Fs.Stored, Super.Fits, Table, Fs.S, Fs.Inv, WroteFile, Framed,
           FileSystem.Full;
      ghost var i := tab[t].inum;
      TableAt(tab, g.ino, t);
      WroteNothing(g, i, off, data);
      var max := (MAXOPBLOCKS - 1 - 1 - 2) / 2 * BSIZE;
      ok, newoff, w, worst := true, off, 0, 0;
      var n, done := |data|, false;
      ghost var fits := off <= tab[t].din.size && off + n <= MAXFILE * BSIZE && n <= avail;
      while w < n && !done
        invariant 0 <= w <= n && newoff == off + w && newoff < 0x1_0000_0000 && worst <= MAXOPBLOCKS
        invariant Locked(t) && tab[t].inum == i && Valid(-1) && i < |old(g).ino| == |g.ino|
        invariant WroteFile(old(g), g, i, off, data, w) && (fits ==> !done)
        decreases n - w, !done
      {
        TableAt(tab, g.ino, t);
        if fits { WroteFileSize(old(g), g, i, off, data, w); }
        var n1 := if n - w > max then max else n - w;
        var r;
        ghost var g1 := g;
        ok, r := WriteTransaction(t, newoff, data[w..w + n1], if avail > w then avail - w else 0);
        if !ok {
          return false, -1, newoff, w, worst;
        }
        worst := if |logged| > worst then |logged| else worst;
        done := r != n1;
        WroteFileTrans(old(g), g1, g, i, off, data, w, n1, if r > 0 then r else 0);
        if r > 0 {
          newoff, w := newoff + r, w + r;
        }
      }
      ret := if w == n then n else -1;
    }

    /** Why a run stopped: no block or no inode is free, every table entry is in use, or a free
        inode was locked. */
    ghost predicate Stopped()
      reads this
    {
      || Full()
      || (forall j :: 1 <= j < |g.ino| ==> g.ino[j].typ != 0)
      || (forall u :: 0 <= u < |tab| ==> tab[u].ref > 0)
      || (exists u :: 0 <= u < |tab| && tab[u].ref > 0 && tab[u].inum < |g.ino| && g.ino[tab[u].inum].typ == 0)
    }

    /** One call, made as the callers in the kernel make it: an inode is written, truncated or
        read only while its entry is held and loaded. */
    method ServeOne(call: Call) returns (ok: bool)
      requires Valid(-1)
      modifies this`disk, this`g, this`logged, this`tab
      ensures ok ==> Valid(-1) && Did(call, old(Now()), Now())
      ensures !ok ==> Stopped()
    {
      hide Fs.Owned, Fs.InData, Fs.Bits, Fs.Filled, Super.Fits, Fs.S, Fs.Inv, Fs.Content, Splice, Framed,
           FileSystem.Full;
      hide Fs.Stored, WriteBound, Fs.Detach, Gotten, Made, Wrote, Dropped, Elsewhere, Fs.SameFields, Fs.SameBytes;
      ok := true;
      g.ShapeAll(sb);
      match call {
        case Get(inum) =>
          if inum < sb.ninodes { var t; ok, t := Iget(inum); }
        case Lock(t) =>
          if t < |tab| && tab[t].ref > 0 { ok := Ilock(t); }
        case New(typ) =>
          if 0 < typ < 65536 { var t; ok, t := Ialloc(typ); }
        case Write(t, off, data, avail) =>
          if Locked(t) && off < 0x1_0000_0000 && |data| < 0x1_0000_0000 {
            var r;
            ok, r := Writei(t, off, data, avail);
          }
        case Set(t, major, minor, nlink) =>
          if Locked(t) && major < 65536 && minor < 65536 && nlink < 65536 { SetFields(t, major, minor, nlink); }
        case Trunc(t) =>
          if Locked(t) { g.StoredWeaken(sb, tab[t].inum); Itrunc(t); }
        case Put(t) =>
          if t < |tab| && tab[t].ref > 0 { Iput(t); }
      }
    }

    /** Any sequence of calls inside a transaction does what the calls one by one do, keeps the
        invariant and logs every block it changes, or stops in a panic of balloc, ialloc, iget or
        ilock.  So after every completed call each set bitmap bit has exactly one owner
        (Fs.ExactOwner). */
    method Serve(calls: seq<Call>) returns (ok: bool)
      requires Valid(-1)
      modifies this`disk, this`g, this`logged, this`tab
      ensures ok ==> Valid(-1) && Framed(sb.inodestart, base, disk, logged) && Ran(calls, old(Now()), Now())
      ensures !ok ==> Stopped()
    {
      hide Did, Ran;
      RanNone(Now());
      ok := true;
      var n := 0;
      while n < |calls| && ok
        modifies this`disk, this`g, this`logged, this`tab
        invariant 0 <= n <= |calls| && (ok ==> Valid(-1) && Ran(calls[..n], old(Now()), Now())) && (!ok ==> Stopped())
      {
        ghost var m := Now();
        ok := ServeOne(calls[n]);
        if ok {
          RanMore(calls[..n], calls[n], old(Now()), m, Now());
          assert calls[..n + 1] == calls[..n] + [calls[n]];
        }
        n := n + 1;
      }
      assert calls[..|calls|] == calls;
    }
  }

  lemma RanNone(a: State)
    ensures Ran([], a, a)
  {
  }

  lemma SameBlock(b: nat, k: nat)
    requires b % BITS == 0 && k < BITS
    ensures (b + k) / BITS == b / BITS && (b + k) % BITS == k
  {
  }

  /** An indirect entry can be filled only if the indirect block exists. */
  lemma IndFirst(g: Fs, i: nat, bn: nat)
    requires bn < MAXFILE
    ensures bn >= NDIRECT && g.S(i, SlotOf(bn)) != 0 ==> g.S(i, IND) != 0
  {
  }

  ghost function IndSet(x: nat): (r: set<nat>)
    ensures |r| <= 1
  {
    if x == 0 then {} else {x}
  }

  /** How many blocks the bytes [off, off+n) touch. */
  ghost function Touch(off: nat, n: nat): nat {
    if n == 0 then 0 else (off % BSIZE + n - 1) / BSIZE + 1
  }

  lemma TouchNone(off: nat)
    ensures Touch(off, 0) == 0
  {
  }

  lemma TouchStep(off: nat, tot: nat, m: nat)
    requires tot == 0 || (off + tot) % BSIZE == 0
    requires 0 < m <= BSIZE - (off + tot) % BSIZE
    ensures Touch(off, tot + m) == Touch(off, tot) + 1
  {
    if tot > 0 {
      assert (off % BSIZE + tot) % BSIZE == 0;
    }
  }

  lemma TouchMono(off: nat, a: nat, b: nat)
    requires a <= b
    ensures Touch(off, a) <= Touch(off, b)
  {
  }

  /** The most blocks one writei can log: the data blocks, a bitmap block for each that is
      new (an unaligned first block is not), the indirect block and its bitmap block, and
      the inode. */
  ghost function WriteBound(off: nat, n: nat): nat {
    2 * Touch(off, n) + 3 - (if n > 0 && off % BSIZE != 0 then 1 else 0)
  }

  /** Blocks lg0 were logged before, lg now: data blocks D, bitmap blocks B for c blocks
      visited, and the indirect block, which is `ind` now and was ind0. */
  ghost predicate Few(lg0: set<nat>, lg: set<nat>, D: set<nat>, B: set<nat>, c: nat, ind0: nat, ind: nat, off: nat) {
    && lg <= lg0 + D + B + IndSet(ind) && |D| <= c
    && |B| <= c - (if c > 0 && off % BSIZE != 0 then 1 else 0) + (if ind != 0 && ind0 == 0 then 1 else 0)
  }

  lemma FewStart(lg: set<nat>, ind: nat, off: nat)
    ensures Few(lg, lg, {}, {}, 0, ind, ind, off)
  {
  }

  lemma WriteBoundMono(off: nat, n: nat, c: nat)
    requires c <= Touch(off, n)
    ensures 2 * c + 3 - (if c > 0 && off % BSIZE != 0 then 1 else 0) <= WriteBound(off, n)
  {
  }

  lemma FewStep(lg0: set<nat>, lg1: set<nat>, lg2: set<nat>, D: set<nat>, B: set<nat>, c: nat,
                ind0: nat, ind1: nat, ind2: nat, off: nat, addr: nat, bms: set<nat>)
    requires Few(lg0, lg1, D, B, c, ind0, ind1, off) && (ind1 != 0 ==> ind2 == ind1) && (ind0 != 0 ==> ind1 == ind0)
    requires lg2 <= lg1 + bms + {addr} + IndSet(ind2) && |bms| <= 1 + (if ind2 != 0 && ind1 == 0 then 1 else 0)
    requires c == 0 && off % BSIZE != 0 ==> bms == {}
    ensures Few(lg0, lg2, D + {addr}, B + bms, c + 1, ind0, ind2, off)
  {
    assert |B + bms| <= |B| + |bms|;
  }

  lemma FewEnd(lg0: set<nat>, lg: set<nat>, D: set<nat>, B: set<nat>, c: nat, ind0: nat, ind: nat, off: nat, x: nat)
    requires Few(lg0, lg, D, B, c, ind0, ind, off)
    ensures |lg + {x} - lg0| <= 2 * c + 3 - (if c > 0 && off % BSIZE != 0 then 1 else 0)
  {
    var all := D + B + IndSet(ind) + {x};
    assert lg + {x} - lg0 <= all;
    SubsetSize(lg + {x} - lg0, all);
    assert |all| <= |D + B + IndSet(ind)| + 1;
    assert |D + B + IndSet(ind)| <= |D + B| + 1;
    assert |D + B| <= |D| + |B|;
  }

  lemma SubsetSize(a: set<nat>, b: set<nat>)
    requires a <= b
    ensures |a| <= |b|
  {
    assert b == a + (b - a);
  }

  const MAXOPBLOCKS: nat := 10

  /** A chunk of at most three blocks fits in an operation's reservation, aligned or not. */
  lemma ChunkBound(off: nat, n: nat)
    requires n <= 3 * BSIZE
    ensures WriteBound(off, n) <= MAXOPBLOCKS
  {
  }

  /** From g to h, the first w bytes of `data` were written to file i at off (none if off is
      past its end) and no other file changed. */
  ghost predicate WroteFile(g: Fs, h: Fs, i: nat, off: nat, data: seq<byte>, w: nat)
    requires i < |g.ino| == |h.ino|
  {
    && w <= |data| && (off > g.ino[i].size ==> w == 0)
    && h.Content(i) == (if off <= g.ino[i].size then Splice(g.Content(i), off, data[..w]) else g.Content(i))
    && (forall j :: 0 <= j < |g.ino| && j != i ==> h.Content(j) == g.Content(j)) && g.SameFields(h)
  }

  lemma WroteNothing(g: Fs, i: nat, off: nat, data: seq<byte>)
    requires i < |g.ino|
    ensures WroteFile(g, g, i, off, data, 0)
  {
    if off <= g.ino[i].size {
      assert Splice(g.Content(i), off, data[..0]) == g.Content(i);
    }
  }

  lemma WroteFileSize(g: Fs, h: Fs, i: nat, off: nat, data: seq<byte>, w: nat)
    requires i < |g.ino| == |h.ino| && WroteFile(g, h, i, off, data, w) && off <= g.ino[i].size
    ensures off + w <= h.ino[i].size
  {
    hide Fs.ByteAt, Fs.S;
    assert |h.Content(i)| == h.ino[i].size;
  }

  lemma WroteFileTrans(g: Fs, h: Fs, k: Fs, i: nat, off: nat, data: seq<byte>, w: nat, n1: nat, r: nat)
    requires i < |g.ino| == |h.ino| == |k.ino| && WroteFile(g, h, i, off, data, w) && r <= n1 && w + n1 <= |data|
    requires WroteFile(h, k, i, off + w, data[w..w + n1], r)
    ensures WroteFile(g, k, i, off, data, w + r)
  {
    hide Fs.ByteAt, Fs.S, Splice;
    assert |h.Content(i)| == h.ino[i].size;
    if off <= g.ino[i].size {
      SpliceSplice(g.Content(i), off, data[..w], data[w..w + r]);
      assert data[w..w + n1][..r] == data[w..w + r];
      assert data[..w] + data[w..w + r] == data[..w + r];
    }
  }

  lemma SpliceSplice(c: seq<int>, o: nat, a: seq<int>, b: seq<int>)
    requires o <= |c|
    ensures o + |a| <= |Splice(c, o, a)|
    ensures Splice(Splice(c, o, a), o + |a|, b) == Splice(c, o, a + b)
  {
  }

  /** writei only starts inside the file, so an unaligned first block exists. */
  lemma FirstExists(sb: Super, g: Fs, i: nat, off: nat)
    requires g.Inv(sb) && i < |g.ino| && off <= g.ino[i].size && off % BSIZE != 0
    ensures g.S(i, SlotOf(off / BSIZE)) != 0
  {
    assert off / BSIZE * BSIZE < off;
    g.InSize(sb, i, off / BSIZE * BSIZE);
  }

  lemma TableAt(tab: seq<Entry>, ino: seq<Dinode>, t: nat)
    requires Table(tab, ino) && t < |tab| && tab[t].ref > 0 && tab[t].valid
    ensures tab[t].inum < |ino| && tab[t].din == ino[tab[t].inum] && tab[t].din.typ != 0
  {
  }

  /** A free inode has no valid entry, so it may be changed under the table. */
  lemma TableNew(tab: seq<Entry>, ino: seq<Dinode>, i: nat, di: Dinode)
    requires Table(tab, ino) && i < |ino| && ino[i].typ == 0
    ensures Table(tab, ino[i := di])
  {
  }

  lemma TableInum(tab: seq<Entry>, ino: seq<Dinode>, t: nat)
    requires Table(tab, ino) && t < |tab| && tab[t].ref > 0
    ensures tab[t].inum < |ino|
  {
  }

  lemma TableUnref(tab: seq<Entry>, ino: seq<Dinode>, t: nat)
    requires Table(tab, ino) && t < |tab| && tab[t].ref > 0
    ensures Table(tab[t := tab[t].(ref := tab[t].ref - 1)], ino)
  {
  }

  lemma TableDrop(tab: seq<Entry>, ino: seq<Dinode>, t: nat, di: Dinode)
    requires Table(tab, ino) && t < |tab| && tab[t].ref > 0 && tab[t].inum < |ino|
    ensures Table(tab[t := tab[t].(din := di)][t := tab[t].(din := di, valid := false)], ino[tab[t].inum := di])
  {
  }

  lemma TableSet(tab: seq<Entry>, ino: seq<Dinode>, t: nat, din: Dinode)
    requires Table(tab, ino) && t < |tab| && tab[t].ref > 0 && tab[t].valid && din.typ != 0
    ensures tab[t].inum < |ino| && Table(tab[t := tab[t].(din := din)], ino[tab[t].inum := din])
  {
  }
}
