/** Who owns which disk block.  `Fs` is the file system's state as a value: the blocks every
    bread returns, the inodes, and for the proof the owner of each block.  The lemmas say
    how each elementary change of kernel/fs.c acts on it. */
module FsCore {
  import opened Blocks
  import opened FsLayout

  /** An inode's block slots: 0..11 direct, 12 the indirect pointer, 13+j indirect entry j. */
  const NSLOT: nat := 269
  const IND: nat := 12

  function SlotOf(bn: nat): nat { if bn < NDIRECT then bn else bn + 1 }

  function SlotVal(d: Image, di: Dinode, k: nat): nat {
    if |di.addrs| != NDIRECT + 1 || k >= NSLOT then 0
    else if k <= IND then di.addrs[k]
    else if di.addrs[IND] == 0 || di.addrs[IND] >= |d| then 0
    else Word(d[di.addrs[IND]], k - 13)
  }

  datatype Fs = Fs(disk: Image, ino: seq<Dinode>, owner: map<nat, (nat, nat)>, extra: set<nat>) {

    /** The block in slot k of inode i; 0 means none. */
    function S(i: nat, k: nat): nat {
      if i < |ino| then SlotVal(disk, ino[i], k) else 0
    }

    ghost predicate Shape(sb: Super) {
      && sb.Fits(disk) && |ino| == sb.ninodes && (forall i :: 0 <= i < |ino| ==> ino[i].Fits())
    }

    /** `owner` is exactly the inverse of the slots, so no block is in two slots. */
    ghost predicate Owned() {
      && (forall i: nat, k: nat {:trigger S(i, k)} :: S(i, k) != 0 ==> S(i, k) in owner && owner[S(i, k)] == (i, k))
      && (forall b :: b in owner ==> b != 0 && S(owner[b].0, owner[b].1) == b)
    }

    /** Owned blocks and blocks allocated but not yet attached (`extra`) are data blocks. */
    ghost predicate InData(sb: Super) {
      && (forall b :: b in owner ==> sb.DataStart() <= b < sb.size && b !in extra)
      && (forall b :: b in extra ==> sb.DataStart() <= b < sb.size)
    }

    /** A bitmap bit is set exactly for metadata, owned and unattached blocks. */
    ghost predicate Bits(sb: Super)
      requires Shape(sb)
    {
      forall b :: 0 <= b < sb.size ==>
        sb.BBlock(b) < |disk| && (sb.BitAt(disk, b) <==> b < sb.DataStart() || b in owner || b in extra)
    }

    /** A free inode holds nothing, and no file has a hole below its size. */
    ghost predicate Filled() {
      && (forall i: nat, k: nat {:trigger S(i, k)} :: i < |ino| && ino[i].typ == 0 ==> S(i, k) == 0)
      && (forall i: nat, bn: nat {:trigger S(i, SlotOf(bn))} ::
            i < |ino| && bn * BSIZE < ino[i].size ==> S(i, SlotOf(bn)) != 0)
      && (forall i :: 0 <= i < |ino| ==> ino[i].size <= MAXFILE * BSIZE)
    }

    ghost predicate Inv(sb: Super) {
      Shape(sb) && Owned() && InData(sb) && Bits(sb) && Filled()
    }

    /** Same slots: what ownership depends on. */
    ghost predicate SameSlots(g: Fs) {
      |ino| == |g.ino| && forall i: nat, k: nat {:trigger S(i, k)} {:trigger g.S(i, k)} :: S(i, k) == g.S(i, k)
    }

    // ---- balloc: set a clear bit, zero the block ------------------------------------------

    ghost function Alloc(sb: Super, b: nat): Fs
      requires Shape(sb) && b < sb.size && sb.BBlock(b) < |disk|
    {
      Fs(sb.PutBit(disk, b, true)[b := Zero()], ino, owner, extra + {b})
    }

    lemma AllocSlot(sb: Super, b: nat, i: nat, k: nat)
      requires Inv(sb) && b < sb.size && sb.BBlock(b) < |disk| && !sb.BitAt(disk, b)
      ensures Alloc(sb, b).S(i, k) == S(i, k)
    {
      sb.InRange(b, 0);
      if i < |ino| {
        var ind := S(i, IND);
        assert ind != 0 ==> ind in owner;
      }
    }

    lemma AllocKeeps(sb: Super, b: nat)
      requires Inv(sb) && b < sb.size && sb.BBlock(b) < |disk| && !sb.BitAt(disk, b)
      ensures Alloc(sb, b).Inv(sb) && SameSlots(Alloc(sb, b))
      ensures sb.DataStart() <= b && b !in owner && b !in extra
    {
      var g := Alloc(sb, b);
      sb.InRange(b, 0);
      forall i: nat, k: nat ensures g.S(i, k) == S(i, k) { AllocSlot(sb, b, i, k); }
      forall c | 0 <= c < sb.size
        ensures sb.BBlock(c) < |g.disk| && (sb.BitAt(g.disk, c) <==> c < sb.DataStart() || c in g.owner || c in g.extra)
      {
        sb.InRange(c, 0);
        sb.BitAfterPutBit(disk, b, true, c);
      }
    }

    /** Ownership and fullness depend on the slots only. */
    lemma Transfer(sb: Super, g: Fs)
      requires Owned() && InData(sb) && Filled() && SameSlots(g) && g.owner == owner && g.extra == extra
                 && |g.ino| == |ino|
      requires forall i :: 0 <= i < |ino| ==> g.ino[i].typ == ino[i].typ && g.ino[i].size == ino[i].size
      ensures g.Owned() && g.InData(sb) && g.Filled()
    {
      hide Fs.S;
      forall b | b in g.owner ensures b != 0 && g.S(g.owner[b].0, g.owner[b].1) == b {
        assert S(owner[b].0, owner[b].1) == b;
      }
    }

    /** Changing a block outside the bitmap changes no bit. */
    lemma BitsFrame(sb: Super, g: Fs, x: nat)
      requires Shape(sb) && g.Shape(sb) && Bits(sb) && g.owner.Keys + g.extra == owner.Keys + extra
      requires !(sb.bmapstart <= x < sb.DataStart()) && |g.disk| == |disk|
      requires forall c {:trigger g.disk[c]} :: 0 <= c < |disk| && c != x ==> g.disk[c] == disk[c]
      ensures g.Bits(sb)
    {
      forall b | 0 <= b < sb.size
        ensures sb.BBlock(b) < |g.disk| && (sb.BitAt(g.disk, b) <==> b < sb.DataStart() || b in g.owner || b in g.extra)
      {
        sb.InRange(b, 0);
        assert b in g.owner.Keys + g.extra <==> b in owner.Keys + extra;
      }
    }

    /** Filling one empty slot with an allocated block keeps ownership exact. */
    lemma AddOwned(sb: Super, g: Fs, i: nat, k: nat, b: nat)
      requires Owned() && InData(sb) && Filled() && b in extra && b != 0 && S(i, k) == 0 && i < |ino| && ino[i].typ != 0
      requires g.owner == owner[b := (i, k)] && g.extra == extra - {b} && |g.ino| == |ino|
      requires forall j :: 0 <= j < |ino| ==> g.ino[j].typ == ino[j].typ && g.ino[j].size == ino[j].size
      requires forall i': nat, k': nat {:trigger g.S(i', k')} :: g.S(i', k') ==
                 if i' == i && k' == k then b else S(i', k')
      ensures g.Owned() && g.InData(sb) && g.Filled()
    {
      hide Fs.S;
      forall c | c in g.owner ensures c != 0 && g.S(g.owner[c].0, g.owner[c].1) == c {
        if c != b {
          assert S(owner[c].0, owner[c].1) == c;
        }
      }
    }

    // ---- attaching an allocated block to a slot -------------------------------------------

    /** Block b goes into address slot k of the inode. */
    ghost function Attach(i: nat, k: nat, b: nat): Fs
      requires i < |ino| && k < |ino[i].addrs|
    {
      Fs(disk, ino[i := ino[i].(addrs := ino[i].addrs[k := b])], owner[b := (i, k)], extra - {b})
    }

    lemma AttachSlot(sb: Super, i: nat, k: nat, b: nat, i': nat, k': nat)
      requires Inv(sb) && i < |ino| && k <= IND && ino[i].addrs[k] == 0 && b in extra
      requires k == IND ==> disk[b] == Zero()
      ensures Attach(i, k, b).S(i', k') == if i' == i && k' == k then b else S(i', k')
    {
      if i' == i && k == IND && IND < k' < NSLOT {
        ZeroWords(k' - 13);
      }
    }

    lemma AttachKeeps(sb: Super, i: nat, k: nat, b: nat)
      requires Inv(sb) && i < |ino| && ino[i].typ != 0 && k <= IND && ino[i].addrs[k] == 0 && b in extra
      requires k == IND ==> disk[b] == Zero()
      ensures Attach(i, k, b).Inv(sb)
    {
      var g := Attach(i, k, b);
      forall i': nat, k': nat ensures g.S(i', k') == if i' == i && k' == k then b else S(i', k') {
        AttachSlot(sb, i, k, b, i', k');
      }
      AddOwned(sb, g, i, k, b);
      BitsFrame(sb, g, 0);
    }

    /** Block b goes into entry j of the indirect block. */
    ghost function AttachEntry(i: nat, j: nat, b: nat): Fs
      requires j < NINDIRECT && S(i, IND) < |disk| && b < 0x1_0000_0000
    {
      Fs(disk[S(i, IND) := SetWord(disk[S(i, IND)], j, b)], ino, owner[b := (i, 13 + j)], extra - {b})
    }

    lemma EntrySlot(sb: Super, i: nat, j: nat, b: nat, i': nat, k': nat)
      requires Inv(sb) && S(i, IND) != 0 && j < NINDIRECT && S(i, 13 + j) == 0 && b in extra
      ensures S(i, IND) < |disk| && b < 0x1_0000_0000
      ensures AttachEntry(i, j, b).S(i', k') == if i' == i && k' == 13 + j then b else S(i', k')
    {
      assert S(i, IND) in owner;
      if i' != i && i' < |ino| {
        assert S(i', IND) != 0 ==> owner[S(i', IND)] == (i', IND);
      }
    }

    lemma EntryKeeps(sb: Super, i: nat, j: nat, b: nat)
      requires Inv(sb) && S(i, IND) != 0 && j < NINDIRECT && S(i, 13 + j) == 0 && b in extra
      ensures S(i, IND) < |disk| && b < 0x1_0000_0000 && AttachEntry(i, j, b).Inv(sb)
    {
      assert S(i, IND) in owner;
      var g := AttachEntry(i, j, b);
      forall i': nat, k': nat ensures g.S(i', k') == if i' == i && k' == 13 + j then b else S(i', k') {
        EntrySlot(sb, i, j, b, i', k');
      }
      AddOwned(sb, g, i, 13 + j, b);
      BitsFrame(sb, g, S(i, IND));
    }

    // ---- data, inode and bitmap writes ----------------------------------------------------

    ghost function WriteBlock(x: nat, data: Block): Fs
      requires x < |disk|
    {
      this.(disk := disk[x := data])
    }

    lemma DataSlot(sb: Super, i: nat, k: nat, data: Block, i': nat, k': nat)
      requires Inv(sb) && S(i, k) != 0 && k != IND
      ensures S(i, k) < |disk| && WriteBlock(S(i, k), data).S(i', k') == S(i', k')
    {
      assert S(i, k) in owner && owner[S(i, k)] == (i, k);
      assert S(i', IND) != 0 ==> owner[S(i', IND)] == (i', IND);
    }

    /** Writing a data block changes no slot and no bit. */
    lemma DataKeeps(sb: Super, i: nat, k: nat, data: Block)
      requires Inv(sb) && S(i, k) != 0 && k != IND
      ensures S(i, k) < |disk| && WriteBlock(S(i, k), data).Inv(sb) && SameSlots(WriteBlock(S(i, k), data))
    {
      assert S(i, k) in owner;
      var g := WriteBlock(S(i, k), data);
      forall i': nat, k': nat ensures g.S(i', k') == S(i', k') { DataSlot(sb, i, k, data, i', k'); }
      BitsFrame(sb, g, S(i, k));
    }

    /** Writing a block of the inode area changes no slot and no bit. */
    lemma MetaKeeps(sb: Super, x: nat, data: Block)
      requires Inv(sb) && x < sb.bmapstart
      ensures x < |disk| && WriteBlock(x, data).Inv(sb) && SameSlots(WriteBlock(x, data))
    {
      var g := WriteBlock(x, data);
      forall i: nat, k: nat ensures g.S(i, k) == S(i, k) {
        assert S(i, IND) != 0 ==> S(i, IND) in owner;
      }
      BitsFrame(sb, g, x);
    }

    /** Changing inode fields other than the block addresses. */
    ghost function Edit(i: nat, di: Dinode): Fs
      requires i < |ino|
    {
      this.(ino := ino[i := di])
    }

    lemma EditSlot(i: nat, di: Dinode, k: nat)
      requires i < |ino| && di.addrs == ino[i].addrs
      ensures Edit(i, di).S(i, k) == S(i, k)
    {
    }

    lemma EditKeeps(sb: Super, i: nat, di: Dinode)
      requires Inv(sb) && i < |ino| && di.Fits() && di.addrs == ino[i].addrs && di.size <= MAXFILE * BSIZE
      requires forall bn: nat :: bn * BSIZE < di.size ==> S(i, SlotOf(bn)) != 0
      requires di.typ == 0 ==> forall k: nat :: S(i, k) == 0
      ensures Edit(i, di).Inv(sb) && SameSlots(Edit(i, di))
    {
      var g := Edit(i, di);
      forall i': nat, k: nat ensures g.S(i', k) == S(i', k) { }
      BitsFrame(sb, g, 0);
    }

    /** bfree of a block that no slot holds any more. */
    ghost function Free(sb: Super, b: nat): Fs
      requires Shape(sb) && b < sb.size && sb.BBlock(b) < |disk|
    {
      Fs(sb.PutBit(disk, b, false), ino, owner, extra - {b})
    }

    lemma FreeSlot(sb: Super, b: nat, i: nat, k: nat)
      requires Shape(sb) && Owned() && InData(sb) && b < sb.size && sb.BBlock(b) < |disk|
      ensures Free(sb, b).S(i, k) == S(i, k)
    {
      sb.InRange(b, 0);
      assert S(i, IND) != 0 ==> S(i, IND) in owner;
    }

    lemma FreeKeeps(sb: Super, b: nat)
      requires Inv(sb) && b in extra
      ensures b < sb.size && sb.BBlock(b) < |disk| && sb.BitAt(disk, b)
      ensures Free(sb, b).Inv(sb) && SameSlots(Free(sb, b))
    {
      var g := Free(sb, b);
      sb.InRange(b, 0);
      forall i: nat, k: nat ensures g.S(i, k) == S(i, k) { FreeSlot(sb, b, i, k); }
      forall c | 0 <= c < sb.size
        ensures sb.BBlock(c) < |g.disk| && (sb.BitAt(g.disk, c) <==> c < sb.DataStart() || c in g.owner || c in g.extra)
      {
        sb.InRange(c, 0);
        sb.BitAfterPutBit(disk, b, false, c);
      }
    }

    // ---- itrunc: the inode lets go of all its blocks, then they are freed one by one --------

    /** The blocks of inode i whose slot comes r-th or later in itrunc's order. */
    ghost function Held(i: nat, r: nat): set<nat> {
      set b | b in owner && owner[b].0 == i && Rank(owner[b].1) >= r
    }

    ghost function Detach(i: nat): Fs
      requires i < |ino|
    {
      Fs(disk, ino[i := ino[i].(addrs := FreeInode(0).addrs, size := 0)],
         map b | b in owner && owner[b].0 != i :: owner[b], extra + Held(i, 0))
    }

    lemma DetachKeeps(sb: Super, i: nat)
      requires Inv(sb) && i < |ino|
      ensures Detach(i).Inv(sb)
      ensures forall i': nat, k: nat {:trigger Detach(i).S(i', k)} :: Detach(i).S(i', k) ==
                if i' == i then 0 else S(i', k)
    {
      var g := Detach(i);
      forall i': nat, k: nat ensures g.S(i', k) == if i' == i then 0 else S(i', k) { }
      BitsFrame(sb, g, 0);
    }

    /** Freeing the block in the r-th slot leaves the later ones held. */
    lemma HeldStep(i: nat, r: nat)
      requires Owned() && i < |ino| && r < NSLOT
      ensures Held(i, r) == if S(i, Unrank(r)) == 0 then Held(i, r + 1) else Held(i, r + 1) + {S(i, Unrank(r))}
      ensures S(i, Unrank(r)) !in Held(i, r + 1)
    {
    }

    lemma HeldNone(i: nat)
      requires Owned()
      ensures Held(i, NSLOT) == {}
    {
      forall b | b in owner ensures Rank(owner[b].1) < NSLOT {
        assert S(owner[b].0, owner[b].1) == b;
      }
    }

    /** g is what itrunc has made of this state when r slots of inode i have been freed. */
    ghost predicate Freeing(sb: Super, g: Fs, i: nat, r: nat)
      requires i < |ino|
    {
      && g.ino == Detach(i).ino && g.owner == Detach(i).owner && g.extra == Held(i, r) && |g.disk| == |disk|
      && (forall x {:trigger g.disk[x]} ::
         0 <= x < |disk| && !(sb.bmapstart <= x < sb.DataStart()) ==> g.disk[x] == disk[x])
    }

    lemma ShapeAt(sb: Super, i: nat)
      requires Inv(sb) && i < |ino|
      ensures |ino| == sb.ninodes && ino[i].Fits() && ino[i].size <= MAXFILE * BSIZE
    {
    }

    lemma InodesFirst(sb: Super)
      requires Inv(sb)
      ensures sb.inodestart <= sb.bmapstart <= sb.DataStart()
    {
    }

    lemma ShapeAll(sb: Super)
      requires Inv(sb)
      ensures |ino| == sb.ninodes
    {
    }

    lemma FreeingStart(sb: Super, i: nat)
      requires Inv(sb) && i < |ino| && extra == {}
      ensures Detach(i).Inv(sb) && Freeing(sb, Detach(i), i, 0)
    {
      DetachKeeps(sb, i);
    }

    lemma FreeingStep(sb: Super, g: Fs, i: nat, r: nat)
      requires Inv(sb) && g.Inv(sb) && i < |ino| && r < NSLOT && Freeing(sb, g, i, r)
      ensures var b := S(i, Unrank(r));
              && (b == 0 ==> Freeing(sb, g, i, r + 1))
              && (b != 0 ==>
                 b in g.extra && b < sb.size && sb.BBlock(b) < |g.disk| && Freeing(sb, g.Free(sb, b), i, r + 1))
    {
      HeldStep(i, r);
      var b := S(i, Unrank(r));
      if b != 0 {
        sb.InRange(b, 0);
      }
    }

    /** Without an indirect block there are no indirect entries to free. */
    lemma FreeingNoIndirect(sb: Super, g: Fs, i: nat)
      requires Inv(sb) && i < |ino| && S(i, IND) == 0 && Freeing(sb, g, i, NDIRECT)
      ensures Freeing(sb, g, i, NSLOT)
    {
      forall b | b in owner && owner[b].0 == i ensures Rank(owner[b].1) < NDIRECT {
        assert S(owner[b].0, owner[b].1) == b;
      }
      HeldNone(i);
    }

    lemma FreeingEnd(sb: Super, g: Fs, i: nat)
      requires Inv(sb) && g.Inv(sb) && i < |ino| && Freeing(sb, g, i, NSLOT) && Stored(sb, i)
      ensures g.extra == {} && g.Stored(sb, i)
    {
      HeldNone(i);
      StoredFrame(sb, g, i);
    }

    // ---- inodes on disk -------------------------------------------------------------------

    /** Every inode but `dirty` is on disk as it is in memory. */
    ghost predicate Stored(sb: Super, dirty: int)
      requires Shape(sb)
    {
      forall i :: 0 <= i < sb.ninodes && i != dirty ==> sb.IBlock(i) < |disk| && sb.InodeAt(disk, i) == ino[i]
    }

    lemma StoredFrame(sb: Super, g: Fs, dirty: int)
      requires Shape(sb) && g.Shape(sb) && Stored(sb, dirty) && |g.disk| == |disk|
      requires forall x :: 0 <= x < sb.bmapstart ==> g.disk[x] == disk[x]
      requires forall i :: 0 <= i < |ino| && i != dirty ==> g.ino[i] == ino[i]
      ensures g.Stored(sb, dirty)
    {
      forall i | 0 <= i < sb.ninodes && i != dirty
        ensures sb.IBlock(i) < |g.disk| && sb.InodeAt(g.disk, i) == g.ino[i]
      {
        sb.InRange(0, i);
      }
    }

    lemma StoredWeaken(sb: Super, i: nat)
      requires Inv(sb) && Stored(sb, -1)
      ensures Stored(sb, i)
    {
    }

    lemma EditStored(sb: Super, i: nat, di: Dinode)
      requires Inv(sb) && Stored(sb, i) && i < |ino| && di.Fits()
      ensures Edit(i, di).Shape(sb) && Edit(i, di).Stored(sb, i)
    {
      StoredFrame(sb, Edit(i, di), i);
    }

    /** Files depend on slots and data blocks only. */
    lemma FrameBytes(sb: Super, g: Fs)
      requires Inv(sb) && SameSlots(g) && |g.disk| == |disk|
      requires forall x {:trigger g.disk[x]} :: sb.bmapstart <= x < |disk| ==> g.disk[x] == disk[x]
      ensures SameBytes(g)
    {
      forall j: nat, p: nat ensures g.ByteAt(j, p) == ByteAt(j, p) {
        if S(j, SlotOf(p / BSIZE)) != 0 { SlotInData(sb, j, SlotOf(p / BSIZE)); }
      }
    }

    lemma StoredAt(sb: Super, i: nat)
      requires Inv(sb) && Stored(sb, -1) && i < |ino|
      ensures sb.IBlock(i) < |disk| && sb.InodeAt(disk, i) == ino[i] && ino[i].Fits()
    {
    }

    /** The file system is what its inodes, bitmap and data blocks are: boot block, superblock and
        log may be anything. */
    lemma HomeOnly(sb: Super, e: Image)
      requires Inv(sb) && Stored(sb, -1) && |e| == |disk|
      requires forall x {:trigger e[x]} :: sb.inodestart <= x < |disk| ==> e[x] == disk[x]
      ensures var g := this.(disk := e);
              g.Inv(sb) && g.Stored(sb, -1) && SameSlots(g) && SameBytes(g)
    {
      hide Fs.Owned, Fs.InData, Fs.Bits, Fs.Filled, Fs.Stored, Fs.S, Fs.SameBytes, Super.Fits;
      var g := this.(disk := e);
      InodesFirst(sb);
      forall i: nat, k: nat ensures g.S(i, k) == S(i, k) { HomeSlot(sb, e, i, k); }
      Transfer(sb, g);
      HomeBits(sb, e);
      FrameBytes(sb, g);
    }

    lemma HomeSlot(sb: Super, e: Image, i: nat, k: nat)
      requires Inv(sb) && |e| == |disk| && forall x {:trigger e[x]} :: sb.DataStart() <= x < |disk| ==> e[x] == disk[x]
      ensures this.(disk := e).S(i, k) == S(i, k)
    {
      hide Fs.Owned, Fs.InData, Fs.Bits, Fs.Filled;
      if S(i, IND) != 0 { SlotInData(sb, i, IND); }
    }

    lemma HomeBits(sb: Super, e: Image)
      requires Inv(sb) && Stored(sb, -1) && |e| == |disk|
      requires forall x {:trigger e[x]} :: sb.inodestart <= x < |disk| ==> e[x] == disk[x]
      ensures this.(disk := e).Shape(sb) && this.(disk := e).Bits(sb) && this.(disk := e).Stored(sb, -1)
    {
      var g := this.(disk := e);
      forall b | 0 <= b < sb.size
        ensures sb.BBlock(b) < |e| && (sb.BitAt(e, b) <==> b < sb.DataStart() || b in owner || b in extra)
      {
        sb.InRange(b, 0);
      }
      forall i | 0 <= i < sb.ninodes ensures sb.IBlock(i) < |e| && sb.InodeAt(e, i) == ino[i] {
        sb.InRange(0, i);
      }
    }

    /** Files other than i are what their inodes and the data blocks say. */
    lemma OthersKept(sb: Super, g: Fs, i: nat)
      requires Inv(sb) && |g.ino| == |ino| && |g.disk| == |disk|
                 && forall j :: 0 <= j < |ino| && j != i ==> g.ino[j] == ino[j]
      requires forall x {:trigger g.disk[x]} :: sb.DataStart() <= x < |disk| ==> g.disk[x] == disk[x]
      ensures forall j :: 0 <= j < |ino| && j != i ==> g.Content(j) == Content(j)
    {
      hide Fs.Owned, Fs.InData, Fs.Bits, Fs.Filled;
      forall j | 0 <= j < |ino| && j != i ensures g.Content(j) == Content(j) {
        forall p | 0 <= p < ino[j].size ensures g.ByteAt(j, p) == ByteAt(j, p) {
          var k := SlotOf(p / BSIZE);
          if S(j, IND) != 0 { SlotInData(sb, j, IND); }
          if S(j, k) != 0 { SlotInData(sb, j, k); }
          assert g.S(j, k) == S(j, k);
        }
      }
    }

    /** ialloc(): a free inode has no blocks, so replacing it by an empty one loses none. */
    lemma AllocInode(sb: Super, i: nat, di: Dinode)
      requires Inv(sb) && Stored(sb, -1) && i < |ino| && ino[i].typ == 0
      requires di.Fits() && di.addrs == FreeInode(0).addrs && di.size == 0
      ensures sb.IBlock(i) < sb.bmapstart <= |disk|
      ensures var g := Fs(sb.PutInode(disk, i, di), ino[i := di], owner, extra);
              g.Inv(sb) && g.Stored(sb, -1) && SameSlots(g)
    {
      assert ino[i].addrs == di.addrs by {
        forall k | 0 <= k <= IND ensures ino[i].addrs[k] == 0 { assert S(i, k) == 0; }
      }
      sb.InRange(0, i);
      EditKeeps(sb, i, di);
      EditStored(sb, i, di);
      Edit(i, di).Updated(sb, i);
    }

    /** An inode that has let go of its blocks may become free. */
    lemma FreeEmpty(sb: Super, i: nat)
      requires Inv(sb) && Stored(sb, -1) && i < |ino| && ino[i].addrs == FreeInode(0).addrs && ino[i].size == 0
      ensures var di := ino[i].(typ := 0);
              Edit(i, di).Inv(sb) && Edit(i, di).Stored(sb, i)
    {
      hide Fs.Owned, Fs.InData, Fs.Bits, Fs.Filled, Fs.Stored, Super.Fits;
      var di := ino[i].(typ := 0);
      forall k: nat ensures S(i, k) == 0 { }
      EditKeeps(sb, i, di);
      StoredWeaken(sb, i);
      EditStored(sb, i, di);
    }

    lemma DataStored(sb: Super, i: nat, k: nat, data: Block, dirty: int)
      requires Inv(sb) && Stored(sb, dirty) && S(i, k) != 0 && k != IND
      ensures S(i, k) < |disk| && WriteBlock(S(i, k), data).Stored(sb, dirty)
    {
      DataKeeps(sb, i, k, data);
      SlotInData(sb, i, k);
      StoredFrame(sb, WriteBlock(S(i, k), data), dirty);
    }

    /** iupdate() brings the dirty inode to disk. */
    lemma Updated(sb: Super, i: nat)
      requires Inv(sb) && Stored(sb, i) && i < |ino|
      ensures sb.IBlock(i) < sb.bmapstart && sb.IBlock(i) < |disk|
      ensures var g := this.(disk := sb.PutInode(disk, i, ino[i]));
              g.Inv(sb) && SameSlots(g) && g.Stored(sb, -1)
    {
      sb.InRange(0, i);
      var x := sb.IBlock(i);
      var g := this.(disk := sb.PutInode(disk, i, ino[i]));
      assert g == WriteBlock(x, SetInode(disk[x], i % IPB, ino[i]));
      MetaKeeps(sb, x, SetInode(disk[x], i % IPB, ino[i]));
      forall j | 0 <= j < sb.ninodes ensures sb.IBlock(j) < |g.disk| && sb.InodeAt(g.disk, j) == ino[j] {
        sb.InodeAfterPutInode(disk, i, ino[i], j);
      }
    }

    // ---- file contents --------------------------------------------------------------------

    /** Byte p of the blocks of inode i, or -1 where it has no block. */
    ghost function ByteAt(i: nat, p: nat): int {
      var x := S(i, SlotOf(p / BSIZE));
      if x == 0 || x >= |disk| then -1 else disk[x].bytes[p % BSIZE]
    }

    /** Every block a file has, it still has in g with the same data; the other inode fields
        are unchanged. */
    ghost predicate Extends(g: Fs) {
      && |g.ino| == |ino| && |g.disk| == |disk|
      && (forall i :: 0 <= i < |ino| ==> g.ino[i] == ino[i].(addrs := g.ino[i].addrs))
      && (forall i: nat, k: nat {:trigger S(i, k)} :: S(i, k) != 0 ==> g.S(i, k) == S(i, k))
      && (forall i: nat, k: nat {:trigger S(i, k)} ::
            S(i, k) != 0 && k != IND && S(i, k) < |disk| ==> g.disk[S(i, k)] == disk[S(i, k)])
    }

    lemma ExtendsRefl()
      ensures Extends(this)
    {
    }

    lemma ExtendsKeeps(g: Fs, i: nat, k: nat)
      requires Extends(g) && S(i, k) != 0
      ensures g.S(i, k) == S(i, k)
    {
    }

    lemma ExtendsTrans(g: Fs, h: Fs)
      requires Extends(g) && g.Extends(h)
      ensures Extends(h)
    {
    }

    lemma AllocExtends(sb: Super, b: nat)
      requires Inv(sb) && b < sb.size && sb.BBlock(b) < |disk| && !sb.BitAt(disk, b)
      ensures Extends(Alloc(sb, b))
    {
      AllocKeeps(sb, b);
      sb.InRange(b, 0);
      forall i: nat, k: nat | S(i, k) != 0 ensures Alloc(sb, b).disk[S(i, k)] == disk[S(i, k)] {
        assert S(i, k) in owner;
      }
    }

    lemma AttachExtends(sb: Super, i: nat, k: nat, b: nat)
      requires Inv(sb) && i < |ino| && k <= IND && ino[i].addrs[k] == 0 && b in extra
      requires k == IND ==> disk[b] == Zero()
      ensures Extends(Attach(i, k, b))
    {
      forall i': nat, k': nat ensures Attach(i, k, b).S(i', k') == if i' == i && k' == k then b else S(i', k') {
        AttachSlot(sb, i, k, b, i', k');
      }
    }

    lemma EntryExtends(sb: Super, i: nat, j: nat, b: nat)
      requires Inv(sb) && S(i, IND) != 0 && j < NINDIRECT && S(i, 13 + j) == 0 && b in extra
      ensures S(i, IND) < |disk| && b < 0x1_0000_0000 && Extends(AttachEntry(i, j, b))
    {
      assert S(i, IND) in owner;
      forall i': nat, k': nat
        ensures AttachEntry(i, j, b).S(i', k') == if i' == i && k' == 13 + j then b else S(i', k')
      {
        EntrySlot(sb, i, j, b, i', k');
      }
      forall i': nat, k': nat | S(i', k') != 0 && k' != IND ensures S(i', k') != S(i, IND) {
        assert owner[S(i', k')] == (i', k') && owner[S(i, IND)] == (i, IND);
      }
    }

    lemma ExtendsBytes(g: Fs, j: nat, p: nat)
      requires Extends(g) && ByteAt(j, p) >= 0
      ensures g.ByteAt(j, p) == ByteAt(j, p)
    {
    }

    /** Storing `chunk` at offset o of file block bn of inode i changes exactly those bytes of
        that file and nothing of any other file. */
    lemma ChunkBytes(sb: Super, i: nat, bn: nat, o: nat, chunk: seq<byte>, j: nat, p: nat)
      requires Inv(sb) && S(i, SlotOf(bn)) != 0 && o + |chunk| <= BSIZE
      ensures S(i, SlotOf(bn)) < |disk|
      ensures var x := S(i, SlotOf(bn));
              var g := WriteBlock(x, Overlay(disk[x], o, chunk));
              var inside := j == i && bn * BSIZE + o <= p < bn * BSIZE + o + |chunk|;
              g.ByteAt(j, p) == if inside then chunk[p - bn * BSIZE - o] else ByteAt(j, p)
    {
      hide Fs.Owned, Fs.InData, Fs.Bits, Fs.Filled, Fs.S, Super.Fits;
      InDisk(sb, i, SlotOf(bn));
      var x := S(i, SlotOf(bn));
      var y := S(j, SlotOf(p / BSIZE));
      DataSlot(sb, i, SlotOf(bn), Overlay(disk[x], o, chunk), j, SlotOf(p / BSIZE));
      SlotInData(sb, i, SlotOf(bn));
      if y == x {
        SlotInData(sb, j, SlotOf(p / BSIZE));
        assert j == i && p / BSIZE == bn;
      }
    }

    /** From this state to g, bytes [o, o+|data|) of inode i became `data`; every other byte
        that some file had is still there, and no inode field but the addresses changed. */
    ghost predicate Wrote(g: Fs, i: nat, o: nat, data: seq<byte>) {
      && |g.ino| == |ino| && (forall j :: 0 <= j < |ino| ==> g.ino[j] == ino[j].(addrs := g.ino[j].addrs))
      && (forall p: nat {:trigger g.ByteAt(i, p)} :: o <= p < o + |data| ==> g.ByteAt(i, p) == data[p - o])
      && (forall j: nat, p: nat {:trigger g.ByteAt(j, p)} ::
            ByteAt(j, p) >= 0 && !(j == i && o <= p < o + |data|) ==> g.ByteAt(j, p) == ByteAt(j, p))
      && (S(i, IND) != 0 ==> g.S(i, IND) == S(i, IND))
    }

    lemma ExtendsWrote(g: Fs, i: nat, o: nat)
      requires Extends(g)
      ensures Wrote(g, i, o, [])
    {
      forall j: nat, p: nat | ByteAt(j, p) >= 0 ensures g.ByteAt(j, p) == ByteAt(j, p) { ExtendsBytes(g, j, p); }
    }

    lemma ChunkWrote(sb: Super, i: nat, bn: nat, o: nat, chunk: seq<byte>)
      requires Inv(sb) && S(i, SlotOf(bn)) != 0 && o + |chunk| <= BSIZE
      ensures S(i, SlotOf(bn)) < |disk|
      ensures var x := S(i, SlotOf(bn));
              Wrote(WriteBlock(x, Overlay(disk[x], o, chunk)), i, bn * BSIZE + o, chunk)
    {
      InDisk(sb, i, SlotOf(bn));
      var x := S(i, SlotOf(bn));
      var g := WriteBlock(x, Overlay(disk[x], o, chunk));
      forall j: nat, p: nat ensures g.ByteAt(j, p)
        == if j == i && bn * BSIZE + o <= p < bn * BSIZE + o + |chunk| then chunk[p - bn * BSIZE - o] else ByteAt(j, p)
      {
        ChunkBytes(sb, i, bn, o, chunk, j, p);
      }
      DataSlot(sb, i, SlotOf(bn), Overlay(disk[x], o, chunk), i, IND);
    }

    lemma WroteInd(g: Fs, i: nat, o: nat, data: seq<byte>)
      requires Wrote(g, i, o, data)
      ensures S(i, IND) != 0 ==> g.S(i, IND) == S(i, IND)
    {
    }

    lemma WroteSize(g: Fs, i: nat, o: nat, data: seq<byte>)
      requires Wrote(g, i, o, data) && i < |ino|
      ensures |g.ino| == |ino| && g.ino[i].size == ino[i].size
    {
    }

    /** Consecutive writes compose. */
    lemma WroteTrans(g: Fs, h: Fs, i: nat, o: nat, a: seq<byte>, b: seq<byte>)
      requires Wrote(g, i, o, a) && g.Wrote(h, i, o + |a|, b)
      ensures Wrote(h, i, o, a + b)
    {
      forall p: nat | o <= p < o + |a + b| ensures h.ByteAt(i, p) == (a + b)[p - o] {
        if p < o + |a| { assert g.ByteAt(i, p) == a[p - o]; }
      }
      forall j: nat, p: nat | ByteAt(j, p) >= 0 && !(j == i && o <= p < o + |a + b|)
        ensures h.ByteAt(j, p) == ByteAt(j, p)
      {
        assert g.ByteAt(j, p) == ByteAt(j, p);
      }
    }

    /** The contents of file i, a flat array of its size. */
    ghost function Content(i: nat): (c: seq<int>)
      requires i < |ino|
      ensures |c| == ino[i].size && forall p :: 0 <= p < |c| ==> c[p] == ByteAt(i, p)
    {
      seq(ino[i].size, p requires 0 <= p < ino[i].size => ByteAt(i, p))
    }

    /** Below its size every byte of a file exists. */
    lemma InSize(sb: Super, i: nat, p: nat)
      requires Inv(sb) && i < |ino| && p < ino[i].size
      ensures S(i, SlotOf(p / BSIZE)) != 0 && ByteAt(i, p) >= 0 && p / BSIZE < MAXFILE
    {
      assert p / BSIZE * BSIZE <= p;
      assert S(i, SlotOf(p / BSIZE)) != 0;
      InDisk(sb, i, SlotOf(p / BSIZE));
    }

    /** The bytes readi copies from one buffer. */
    lemma PieceBytes(i: nat, o: nat, k: nat, piece: seq<byte>)
      requires o % BSIZE + k <= BSIZE && 0 < S(i, SlotOf(o / BSIZE)) < |disk|
      requires piece == disk[S(i, SlotOf(o / BSIZE))].bytes[o % BSIZE..o % BSIZE + k]
      ensures |piece| == k && forall q :: 0 <= q < k ==> piece[q] == ByteAt(i, o + q)
    {
      forall q | 0 <= q < k ensures piece[q] == ByteAt(i, o + q) {
        assert (o + q) / BSIZE == o / BSIZE && (o + q) % BSIZE == o % BSIZE + q;
      }
    }

    /** The end of writei: if the file was written from o <= size on and its size set to the
        maximum, its contents are the old ones with `data` spliced in, it has no hole below
        its new size, and every other file is as before. */
    lemma SplicedNoHole(sb: Super, g: Fs, i: nat, o: nat, data: seq<byte>, bn: nat)
      requires Inv(sb) && g.Inv(sb) && i < |ino| && o <= ino[i].size && Wrote(g, i, o, data)
      requires bn * BSIZE < ino[i].size || bn * BSIZE < o + |data|
      ensures g.S(i, SlotOf(bn)) != 0
    {
      if bn * BSIZE < ino[i].size {
        assert g.ino[i].size == ino[i].size;
      } else {
        var p := bn * BSIZE;
        assert p / BSIZE == bn;
        assert g.ByteAt(i, p) == data[p - o];
      }
    }

    lemma Spliced(sb: Super, g: Fs, h: Fs, i: nat, o: nat, data: seq<byte>)
      requires Inv(sb) && i < |ino| && o <= ino[i].size && Wrote(g, i, o, data)
      requires |h.ino| == |g.ino| && g.SameBytes(h)
      requires h.ino[i].size == if o + |data| > ino[i].size then o + |data| else ino[i].size
      requires forall j :: 0 <= j < |ino| && j != i ==> h.ino[j].size == ino[j].size
      ensures h.Content(i) == Splice(Content(i), o, data)
      ensures forall j :: 0 <= j < |ino| && j != i ==> h.Content(j) == Content(j)
    {
      hide Fs.Owned, Fs.InData, Fs.Bits, Fs.Filled, Fs.S, Fs.ByteAt, Super.Fits;
      forall p | 0 <= p < h.ino[i].size ensures h.ByteAt(i, p) == Splice(Content(i), o, data)[p] {
        assert g.ByteAt(i, p) == h.ByteAt(i, p);
        if !(o <= p < o + |data|) { InSize(sb, i, p); }
      }
      forall j | 0 <= j < |ino| && j != i ensures h.Content(j) == Content(j) {
        forall p | 0 <= p < ino[j].size ensures h.ByteAt(j, p) == ByteAt(j, p) {
          InSize(sb, j, p);
          assert g.ByteAt(j, p) == h.ByteAt(j, p);
        }
      }
    }

    /** No inode changed its type, device numbers or link count. */
    ghost predicate SameFields(g: Fs) {
      |g.ino| == |ino| && forall j ::
        0 <= j < |ino| ==> g.ino[j] == ino[j].(addrs := g.ino[j].addrs, size := g.ino[j].size)
    }

    ghost predicate SameBytes(g: Fs) {
      forall j: nat, p: nat {:trigger ByteAt(j, p)} {:trigger g.ByteAt(j, p)} :: g.ByteAt(j, p) == ByteAt(j, p)
    }

    /** Block ownership: a bit is set exactly when the block is metadata or is in some slot of
        some inode, never both, and never in two slots. */
    lemma ExactOwner(sb: Super, b: nat)
      requires Inv(sb) && extra == {} && b < sb.size
      ensures sb.BBlock(b) < |disk|
      ensures sb.BitAt(disk, b) <==> b < sb.DataStart() || exists i: nat, k: nat :: S(i, k) == b
      ensures b < sb.DataStart() && b != 0 ==> forall i: nat, k: nat :: S(i, k) != b
      ensures b != 0 ==>
                forall i: nat, k: nat, i': nat, k': nat :: S(i, k) == b && S(i', k') == b ==> i == i' && k == k'
    {
      if b in owner {
        assert S(owner[b].0, owner[b].1) == b;
      }
    }

    // ---- balloc followed by the store into the slot it was called for -----------------------

    ghost function Grow(sb: Super, i: nat, k: nat, b: nat): Fs
      requires Shape(sb) && b < sb.size && sb.BBlock(b) < |disk| && i < |ino| && k < |ino[i].addrs|
    {
      Alloc(sb, b).Attach(i, k, b)
    }

    lemma GrowKeeps(sb: Super, i: nat, k: nat, b: nat)
      requires Inv(sb) && Stored(sb, i) && extra == {}
      requires b < sb.size && sb.BBlock(b) < |disk| && !sb.BitAt(disk, b)
      requires i < |ino| && ino[i].typ != 0 && k <= IND && ino[i].addrs[k] == 0
      ensures var h := Grow(sb, i, k, b);
              h.Inv(sb) && h.Stored(sb, i) && h.extra == {} && Extends(h) && h.S(i, k) == b && b >= sb.DataStart()
    {
      AllocKeeps(sb, b);
      AllocExtends(sb, b);
      var a := Alloc(sb, b);
      a.AttachKeeps(sb, i, k, b);
      a.AttachExtends(sb, i, k, b);
      ExtendsTrans(a, a.Attach(i, k, b));
      a.AttachSlot(sb, i, k, b, i, k);
      GrowStored(sb, i, k, b);
    }

    lemma GrowSlot(sb: Super, i: nat, k: nat, b: nat, i': nat, k': nat)
      requires Inv(sb) && i < |ino| && k <= IND && ino[i].addrs[k] == 0
      requires b < sb.size && sb.BBlock(b) < |disk| && !sb.BitAt(disk, b)
      ensures Grow(sb, i, k, b).S(i', k') == if i' == i && k' == k then b else S(i', k')
    {
      AllocKeeps(sb, b);
      AllocSlot(sb, b, i', k');
      Alloc(sb, b).AttachSlot(sb, i, k, b, i', k');
    }

    lemma GrowStored(sb: Super, i: nat, k: nat, b: nat)
      requires Shape(sb) && Stored(sb, i) && sb.DataStart() <= b < sb.size
      requires sb.BBlock(b) < |disk| && i < |ino| && k < |ino[i].addrs| && Grow(sb, i, k, b).Shape(sb)
      ensures Grow(sb, i, k, b).Stored(sb, i)
    {
      sb.InRange(b, 0);
      StoredFrame(sb, Grow(sb, i, k, b), i);
    }

    ghost function GrowEntry(sb: Super, i: nat, j: nat, b: nat): Fs
      requires Shape(sb) && b < sb.size && sb.BBlock(b) < |disk| && j < NINDIRECT && Alloc(sb, b).S(i, IND) < |disk|
    {
      Alloc(sb, b).AttachEntry(i, j, b)
    }

    /** A block in a slot is an owned data block. */
    lemma SlotInData(sb: Super, i: nat, k: nat)
      requires Owned() && InData(sb) && S(i, k) != 0
      ensures S(i, k) in owner && owner[S(i, k)] == (i, k) && sb.DataStart() <= S(i, k) < sb.size && S(i, k) !in extra
    {
    }

    lemma InDisk(sb: Super, i: nat, k: nat)
      requires Inv(sb) && S(i, k) != 0
      ensures sb.DataStart() <= S(i, k) < sb.size <= |disk|
    {
      SlotInData(sb, i, k);
    }

    lemma AllocInd(sb: Super, i: nat, b: nat)
      requires Inv(sb) && b < sb.size && sb.BBlock(b) < |disk| && !sb.BitAt(disk, b) && S(i, IND) != 0
      ensures sb.DataStart() <= b && Alloc(sb, b).S(i, IND) == S(i, IND) < |disk|
      ensures Alloc(sb, b).disk[S(i, IND)] == disk[S(i, IND)]
    {
      AllocKeeps(sb, b);
      AllocSlot(sb, b, i, IND);
      SlotInData(sb, i, IND);
      sb.InRange(b, 0);
    }

    lemma GrowEntrySlot(sb: Super, i: nat, j: nat, b: nat, i': nat, k': nat)
      requires Inv(sb) && S(i, IND) != 0 && j < NINDIRECT && S(i, 13 + j) == 0
      requires b < sb.size && sb.BBlock(b) < |disk| && !sb.BitAt(disk, b)
      ensures Alloc(sb, b).S(i, IND) < |disk|
      ensures GrowEntry(sb, i, j, b).S(i', k') == if i' == i && k' == 13 + j then b else S(i', k')
    {
      AllocInd(sb, i, b);
      AllocKeeps(sb, b);
      AllocSlot(sb, b, i', k');
      AllocSlot(sb, b, i, 13 + j);
      Alloc(sb, b).EntrySlot(sb, i, j, b, i', k');
    }

    lemma GrowEntryStored(sb: Super, i: nat, j: nat, b: nat)
      requires Shape(sb) && Stored(sb, i) && sb.DataStart() <= b < sb.size && sb.BBlock(b) < |disk| && j < NINDIRECT
      requires sb.DataStart() <= Alloc(sb, b).S(i, IND) < |disk| && GrowEntry(sb, i, j, b).Shape(sb)
      ensures GrowEntry(sb, i, j, b).Stored(sb, i)
    {
      hide Fs.S, SetWord;
      sb.InRange(b, 0);
      StoredFrame(sb, GrowEntry(sb, i, j, b), i);
    }

    lemma GrowEntryKeeps(sb: Super, i: nat, j: nat, b: nat)
      requires Inv(sb) && Stored(sb, i) && extra == {}
      requires b < sb.size && sb.BBlock(b) < |disk| && !sb.BitAt(disk, b)
      requires i < |ino| && ino[i].typ != 0 && S(i, IND) != 0 && j < NINDIRECT && S(i, 13 + j) == 0
      ensures Alloc(sb, b).S(i, IND) == S(i, IND) < |disk| && b >= sb.DataStart()
      ensures Alloc(sb, b).disk[S(i, IND)] == disk[S(i, IND)]
      ensures var h := GrowEntry(sb, i, j, b);
              h.Inv(sb) && h.Stored(sb, i) && h.extra == {} && Extends(h) && h.S(i, 13 + j) == b && h.ino == ino
    {
      hide Fs.Owned, Fs.InData, Fs.Bits, Fs.Filled, Fs.Extends, Fs.S, Fs.Stored, Super.Fits;
      AllocInd(sb, i, b);
      AllocKeeps(sb, b);
      AllocExtends(sb, b);
      AllocSlot(sb, b, i, 13 + j);
      SlotInData(sb, i, IND);
      var a := Alloc(sb, b);
      a.EntryKeeps(sb, i, j, b);
      a.EntryExtends(sb, i, j, b);
      ExtendsTrans(a, a.AttachEntry(i, j, b));
      a.EntrySlot(sb, i, j, b, i, 13 + j);
      GrowEntryStored(sb, i, j, b);
    }
  }

  /** Overwrite from offset o, growing the array if `data` reaches past its end. */
  ghost function Splice(c: seq<int>, o: nat, data: seq<int>): seq<int>
    requires o <= |c|
  {
    c[..o] + data + (if o + |data| < |c| then c[o + |data|..] else [])
  }

  /** memmove of `chunk` into a block at offset o. */
  function Overlay(b: Block, o: nat, chunk: seq<byte>): (r: Block)
    requires o + |chunk| <= BSIZE
    ensures forall q {:trigger r.bytes[q]} :: 0 <= q < BSIZE ==>
              r.bytes[q] == if o <= q < o + |chunk| then chunk[q - o] else b.bytes[q]
  {
    RawBlock(b.bytes[..o] + chunk + b.bytes[o + |chunk|..])
  }

  /** The order in which itrunc frees slots: direct, indirect entries, the indirect block. */
  function Rank(k: nat): nat { if k < IND then k else if k == IND then 268 else k - 1 }

  function Unrank(r: nat): nat { if r < IND then r else if r < 268 then r + 1 else IND }
}
