/** kernel/log.c over the buffer cache: transactions are collected in pinned buffers and
    committed through the on-disk log.  Every method that writes the disk states the whole
    list of disk images it passes through. */
module Log {
  import opened Blocks
  import opened BufferCache
  import opened Recovery
  import opened GroupCommit

  /** The meaning of the cache: `logical` is what every bread returns; `slot` maps each
      block whose newest contents may exist only in the cache to the buffer that holds it;
      ext[i] counts the references to buffer i other than the log's. */
  datatype Meaning = Meaning(logical: Image, slot: map<nat, nat>, ext: seq<nat>) {

    predicate Pins(b: Buf, i: nat) { b.blockno in slot && slot[b.blockno] == i }

    /** Each pinned block has a valid buffer that carries the log's reference, so bget
        cannot recycle it; every other block is the same on disk as in the cache. */
    ghost predicate Coherent(dev: nat, buf: seq<Buf>, disk: Image) {
      && dev != 0 && |logical| == |disk| && |ext| == |buf|
      && (forall i :: 0 <= i < |buf| && buf[i].valid ==> buf[i].dev == dev && buf[i].blockno < |disk|)
      && (forall i :: 0 <= i < |buf| && buf[i].valid ==> buf[i].data == logical[buf[i].blockno])
      && (forall b {:trigger logical[b]} :: 0 <= b < |disk| && b !in slot ==> logical[b] == disk[b])
      && (forall b :: b in slot ==> b < |disk| && slot[b] < |buf|)
      && (forall b :: b in slot ==> buf[slot[b]].valid && buf[slot[b]].blockno == b)
      && (forall i :: 0 <= i < |buf| ==> buf[i].refcnt == ext[i] + if Pins(buf[i], i) then 1 else 0)
    }

    ghost function Set(b: nat, data: Block): Meaning { this.(logical := Put(logical, b, data)) }

    ghost function Refer(i: nat, n: int): Meaning
      requires i < |ext| && ext[i] + n >= 0
    {
      this.(ext := ext[i := ext[i] + n])
    }

    /** A bread returns the logical contents and keeps the cache coherent. */
    lemma BreadKeeps(dev: nat, c: Cache, disk: Image, b: nat)
      requires c.Valid() && Coherent(dev, c.buf, disk) && b < |disk| && c.Slot(dev, b) < |c.buf|
      ensures var r, i := c.Bread(dev, b, disk), c.Slot(dev, b);
              && r.Valid() && Refer(i, 1).Coherent(dev, r.buf, disk)
              && r.buf[i].valid && r.buf[i].Is(dev, b) && r.buf[i].data == logical[b]
    {
      hide Cache.Slot, Cache.Valid;
      BreadValid(dev, c, disk, b);
      BreadCoherent(dev, c, disk, b);
    }

    lemma BreadValid(dev: nat, c: Cache, disk: Image, b: nat)
      requires c.Valid() && dev != 0 && b < |disk| && c.Slot(dev, b) < |c.buf|
      ensures c.Bread(dev, b, disk).Valid()
    {
      hide Cache.Slot;
    }

    lemma BreadCoherent(dev: nat, c: Cache, disk: Image, b: nat)
      requires c.Valid() && Coherent(dev, c.buf, disk) && b < |disk| && c.Slot(dev, b) < |c.buf|
      ensures var r, i := c.Bread(dev, b, disk), c.Slot(dev, b);
              && Refer(i, 1).Coherent(dev, r.buf, disk)
              && r.buf[i].valid && r.buf[i].Is(dev, b) && r.buf[i].data == logical[b]
    {
      hide Cache.Slot;
    }

    /** A bread never recycles a referenced buffer. */
    lemma BreadHolds(dev: nat, c: Cache, disk: Image, b: nat, mine: set<nat>)
      requires c.Valid() && Coherent(dev, c.buf, disk) && b < |disk| && c.Slot(dev, b) < |c.buf|
      requires forall i :: 0 <= i < |ext| && i in mine ==> ext[i] > 0
      ensures forall i :: 0 <= i < |c.buf| && i in mine ==> Same(c.buf[i], c.Bread(dev, b, disk).buf[i])
    {
      hide Cache.Slot;
    }

    /** A bread can fail only for a block that is not pinned, when every buffer is referenced. */
    lemma BreadFails(dev: nat, c: Cache, disk: Image, b: nat, mine: set<nat>)
      requires c.Valid() && Coherent(dev, c.buf, disk) && c.Slot(dev, b) == |c.buf|
      ensures b !in slot
      ensures (forall i :: 0 <= i < |ext| && ext[i] > 0 ==> i in mine) ==> |c.buf| <= |slot| + |mine|
    {
      if forall i :: 0 <= i < |ext| && ext[i] > 0 ==> i in mine {
        PigeonHole(c.buf, |c.buf|, slot, mine);
      }
    }

    /** A valid buffer holds the newest contents. */
    lemma Current(dev: nat, c: Cache, disk: Image, i: nat)
      requires Coherent(dev, c.buf, disk) && i < |c.buf| && c.buf[i].valid
      ensures c.buf[i].blockno < |disk| == |logical| && logical[c.buf[i].blockno] == c.buf[i].data
    {
    }

    lemma Unpinned(dev: nat, c: Cache, disk: Image, b: nat)
      requires Coherent(dev, c.buf, disk) && b < |disk| && b !in slot
      ensures |logical| == |disk| && logical[b] == disk[b]
    {
    }

    lemma BrelseKeeps(dev: nat, c: Cache, disk: Image, i: nat)
      requires c.Valid() && Coherent(dev, c.buf, disk) && i < |c.buf| && ext[i] > 0
      ensures c.buf[i].refcnt > 0 && i in c.order
      ensures c.Brelse(i).Valid() && Refer(i, -1).Coherent(dev, c.Brelse(i).buf, disk)
    {
      c.BrelseValid(i);
    }

    /** Storing into a buffer and writing it through keeps cache and disk in step. */
    lemma WriteKeeps(dev: nat, c: Cache, disk: Image, i: nat, data: Block)
      requires c.Valid() && Coherent(dev, c.buf, disk) && i < |c.buf| && c.buf[i].valid
      ensures c.Store(i, data).Valid()
      ensures Set(c.buf[i].blockno, data).Coherent(dev, c.Store(i, data).buf, Put(disk, c.buf[i].blockno, data))
    {
    }

    /** Dropping the log's reference to a block that is the same in cache and on disk. */
    lemma UnpinKeeps(dev: nat, c: Cache, disk: Image, i: nat)
      requires c.Valid() && Coherent(dev, c.buf, disk) && i < |c.buf| && c.buf[i].valid
      requires c.buf[i].blockno in slot && logical[c.buf[i].blockno] == disk[c.buf[i].blockno]
      ensures c.buf[i].refcnt > 0 && c.Bpin(i, -1).Valid()
      ensures this.(slot := slot - {c.buf[i].blockno}).Coherent(dev, c.Bpin(i, -1).buf, disk)
    {
      assert slot[c.buf[i].blockno] == i;
    }

    /** log_write() of a held buffer that is not yet logged: new contents and one reference. */
    lemma PinKeeps(dev: nat, c: Cache, disk: Image, i: nat, data: Block)
      requires c.Valid() && Coherent(dev, c.buf, disk) && i < |c.buf| && c.buf[i].valid
      requires c.buf[i].blockno !in slot
      ensures c.Store(i, data).Bpin(i, 1).Valid() && c.buf[i].blockno < |disk|
      ensures Set(c.buf[i].blockno, data).(slot := slot[c.buf[i].blockno := i])
              .Coherent(dev, c.Store(i, data).Bpin(i, 1).buf, disk)
    {
    }

    /** log_write() of a block already in the transaction: absorption. */
    lemma AbsorbKeeps(dev: nat, c: Cache, disk: Image, i: nat, data: Block)
      requires c.Valid() && Coherent(dev, c.buf, disk) && i < |c.buf| && c.buf[i].valid
      requires c.buf[i].blockno in slot
      ensures c.Store(i, data).Valid()
      ensures Set(c.buf[i].blockno, data).Coherent(dev, c.Store(i, data).buf, disk)
    {
    }
  }

  /** The buffer is the same but for its reference count, if it was valid. */
  ghost predicate Same(a: Buf, b: Buf) { a.valid ==> b == a.(refcnt := b.refcnt) }

  lemma SameAll(buf: seq<Buf>)
    ensures forall i :: 0 <= i < |buf| ==> Same(buf[i], buf[i])
  {
  }

  lemma SameTrans(a: Buf, b: Buf, d: Buf)
    requires Same(a, b) && Same(b, d)
    ensures Same(a, d)
  {
  }

  lemma BrelseHolds(c: Cache, i: nat)
    requires i < |c.buf| && c.buf[i].refcnt > 0 && i in c.order
    ensures |c.Brelse(i).buf| == |c.buf| && forall j :: 0 <= j < |c.buf| ==> Same(c.buf[j], c.Brelse(i).buf[j])
  {
  }

  /** Pigeonhole: if each of the first n buffers that is not in `mine` carries a pin, there are
      at least as many pinned blocks. */
  lemma {:induction false} PigeonHole(buf: seq<Buf>, n: nat, slot: map<nat, nat>, mine: set<nat>)
    requires n <= |buf|
    requires forall i :: 0 <= i < n && i !in mine ==> buf[i].blockno in slot && slot[buf[i].blockno] == i
    ensures n <= |slot| + |mine|
  {
    if n > 0 {
      var b := buf[n - 1].blockno;
      if n - 1 in mine {
        PigeonHole(buf, n - 1, slot, mine - {n - 1});
      } else {
        var rest := slot - {b};
        assert slot == rest[b := slot[b]];
        PigeonHole(buf, n - 1, rest, mine);
      }
    }
  }

  /** Exactly the blocks lh[k], lh[k+1], ... are pinned. */
  ghost predicate Pinned(lh: seq<nat>, slot: map<nat, nat>, k: nat) {
    && k <= |lh| && |slot| == |lh| - k
    && (forall i :: k <= i < |lh| ==> lh[i] in slot)
    && (forall b :: b in slot ==> b in lh)
  }

  lemma PinnedStep(lh: seq<nat>, slot: map<nat, nat>, k: nat)
    requires Pinned(lh, slot, k) && k < |lh| && forall j :: k < j < |lh| ==> lh[j] != lh[k]
    ensures lh[k] in slot && Pinned(lh, slot - {lh[k]}, k + 1) && |slot - {lh[k]}| < |slot|
    ensures forall b :: b !in lh ==> b !in slot
  {
    assert slot == (slot - {lh[k]})[lh[k] := slot[lh[k]]];
  }

  lemma PinnedIn(lh: seq<nat>, slot: map<nat, nat>, b: nat)
    requires Pinned(lh, slot, 0) && b !in lh
    ensures b !in slot && |slot| == |lh|
  {
  }

  lemma PinnedAdd(lh: seq<nat>, slot: map<nat, nat>, b: nat, i: nat)
    requires Pinned(lh, slot, 0) && b !in lh
    ensures b !in slot && Pinned(lh + [b], slot[b := i], 0)
  {
  }

  /** The blocks lh[..k] are no longer pinned; no block is listed twice. */
  ghost predicate Installed(lh: seq<nat>, slot: map<nat, nat>, k: nat, n: nat) {
    && k <= |lh| && (forall i, j :: 0 <= i < j < |lh| ==> lh[i] != lh[j])
    && (forall i :: 0 <= i < k ==> lh[i] !in slot && lh[i] < n)
  }

  lemma InstalledStep(lh: seq<nat>, slot: map<nat, nat>, k: nat, n: nat)
    requires Installed(lh, slot, k, n) && k < |lh| && lh[k] < n
    ensures Installed(lh, slot - {lh[k]}, k + 1, n)
    ensures forall j :: k < j < |lh| ==> lh[j] != lh[k]
    ensures forall b :: b in slot && b in slot - {lh[k]} ==> (slot - {lh[k]})[b] == slot[b]
  {
  }

  lemma PinnedOut(lh: seq<nat>, slot: map<nat, nat>, b: nat)
    requires Pinned(lh, slot, 0) && b !in slot
    ensures b !in lh
  {
  }

  lemma PinnedNone(lh: seq<nat>, slot: map<nat, nat>)
    requires Pinned(lh, slot, |lh|)
    ensures slot == map[]
  {
  }

  /** What a process that is in no transaction may do to the cache at any moment, a commit
      included: bread a block, or brelse a buffer it holds. */
  datatype Visit = Read(b: nat) | Release(i: nat)

  /** Besides the processes' references the log routine at work holds the buffers `mine`. */
  ghost predicate Mine(ext: seq<nat>, held: seq<nat>, mine: set<nat>) {
    |ext| == |held| && forall i :: 0 <= i < |ext| ==> ext[i] == held[i] + (if i in mine then 1 else 0)
  }

  /** No process holds a buffer, and none comes by. */
  ghost predicate Undisturbed(held: seq<nat>, others: seq<seq<Visit>>) {
    (forall i :: 0 <= i < |held| ==> held[i] == 0) && (forall k :: 0 <= k < |others| ==> others[k] == [])
  }

  class Log {
    const dev: nat
    const area: Area
    const logsize: nat               // LOGSIZE
    var c: Cache
    var disk: Image
    var lh: seq<nat>                 // log.lh.block[0 .. log.lh.n)
    var outstanding: int
    var committing: bool
    var held: seq<nat>               // the references that processes hold to each buffer
    var others: seq<seq<Visit>>      // what other processes do at the next interleaving points
    var trace: seq<Image>            // the disk after each block write so far, for crashes
    ghost var m: Meaning

    ghost predicate Coherent()
      reads this
    {
      c.Valid() && m.Coherent(dev, c.buf, disk) && |m.logical| == |disk| && |m.ext| == |c.buf|
    }

    ghost predicate Holds(mine: set<nat>)
      reads this
    {
      Coherent() && Mine(m.ext, held, mine)
    }

    /** The fields that begin_op, log_write and end_op test. */
    function Fields(): Gate
      reads this
    {
      Gate(|lh|, outstanding, committing)
    }

    /** initlog() up to the call of recover_from_log(), on a cache that agrees with the disk. */
    constructor (d: nat, a: Area, max: nat, cache: Cache, image: Image)
      requires cache.Valid() && d != 0
      requires forall i :: 0 <= i < |cache.buf| ==> cache.buf[i].refcnt == 0
      requires forall i :: 0 <= i < |cache.buf| && cache.buf[i].valid ==>
                 cache.buf[i].dev == d && cache.buf[i].blockno < |image|
                   && cache.buf[i].data == image[cache.buf[i].blockno]
      ensures dev == d && area == a && logsize == max && c == cache && disk == image && lh == []
      ensures Holds({}) && Undisturbed(held, others) && m.slot == map[] && m.logical == image && trace == []
      ensures Fields() == Gate(0, 0, false)
    {
      outstanding, committing := 0, false;
      dev, area, logsize, c, disk, lh := d, a, max, cache, image, [];
      held, others := seq(|cache.buf|, _ => 0), [];
      trace, m := [], Meaning(image, map[], seq(|cache.buf|, _ => 0));
    }

    /** bread() by a process, while a log routine may hold `mine`.  What the cache means, what is
        pinned where and the buffers in `mine` stay as they are.  `!ok` is the "no buffers"
        panic. */
    method Bread(b: nat, ghost mine: set<nat>) returns (ok: bool, i: nat)
      requires Holds(mine) && b < |disk|
      modifies this`c, this`m, this`held
      ensures Holds(mine) && |c.buf| == old(|c.buf|) && m.logical == old(m).logical && m.slot == old(m).slot
      ensures forall j :: 0 <= j < |c.buf| && j in mine ==> Same(old(c.buf[j]), c.buf[j])
      ensures ok ==> i < |held| == |old(held)| == |c.buf| && held == old(held)[i := old(held)[i] + 1]
      ensures !ok ==> held == old(held) && forall j :: 0 <= j < |c.buf| ==> c.buf[j].refcnt > 0
      ensures !ok && mine == {} && Undisturbed(old(held), []) ==> |c.buf| <= |m.slot|
      ensures ok ==> c.buf[i].valid && c.buf[i].blockno == b && c.buf[i].data == m.logical[b]
    {
      hide Meaning.Coherent, Cache.Valid, Cache.Slot, Cache.Bread, Same;
      SameAll(c.buf);
      i := c.Slot(dev, b);
      ok := i < |c.buf|;
      if ok {
        m.BreadKeeps(dev, c, disk, b);
        m.BreadHolds(dev, c, disk, b, mine);
        c, m := c.Bread(dev, b, disk), m.Refer(i, 1);
        held := held[i := held[i] + 1];
      } else {
        m.BreadFails(dev, c, disk, b, mine);
      }
    }

    /** brelse() by a process that holds the buffer. */
    method Brelse(i: nat, ghost mine: set<nat>)
      requires Holds(mine) && i < |held| && held[i] > 0
      modifies this`c, this`m, this`held
      ensures held == old(held)[i := old(held)[i] - 1]
      ensures Holds(mine) && |c.buf| == old(|c.buf|) && m.logical == old(m).logical && m.slot == old(m).slot
      ensures forall j :: 0 <= j < |c.buf| && j in mine ==> Same(old(c.buf[j]), c.buf[j])
    {
      hide Meaning.Coherent, Cache.Valid, Cache.Brelse, Same;
      m.BrelseKeeps(dev, c, disk, i);
      BrelseHolds(c, i);
      c, m := c.Brelse(i), m.Refer(i, -1);
      held := held[i := held[i] - 1];
    }

    /** A process reads a block or releases a buffer it holds.  A visit that is not possible
        changes nothing. */
    method Serve(v: Visit, ghost mine: set<nat>)
      requires Holds(mine)
      modifies this`c, this`m, this`held
      ensures v.Release? && v.i < |old(held)| && old(held)[v.i] > 0 ==> held == old(held)[v.i := old(held)[v.i] - 1]
      ensures v.Read? && v.b < |disk| ==>
                || (forall j :: 0 <= j < |c.buf| ==> c.buf[j].refcnt > 0)
                || exists i :: 0 <= i < |held| == |c.buf| && held[i] > 0 && c.buf[i].valid && c.buf[i].blockno == v.b
      ensures Holds(mine) && |c.buf| == old(|c.buf|) && m.logical == old(m).logical && m.slot == old(m).slot
      ensures forall i :: 0 <= i < |c.buf| && i in mine ==> Same(old(c.buf[i]), c.buf[i])
    {
      hide Meaning.Coherent, Cache.Valid, Mine, Same;
      SameAll(c.buf);
      match v {
        case Read(b) =>
          if b < |disk| { var ok, i := Bread(b, mine); }
        case Release(i) =>
          if i < |held| && held[i] > 0 { Brelse(i, mine); }
      }
    }

    /** An interleaving point: other processes may visit the cache here. */
    method Meanwhile(ghost mine: set<nat>)
      requires Holds(mine)
      modifies this`c, this`m, this`held, this`others
      ensures Holds(mine) && |c.buf| == old(|c.buf|) && m.logical == old(m).logical && m.slot == old(m).slot
      ensures forall i :: 0 <= i < |c.buf| && i in mine ==> Same(old(c.buf[i]), c.buf[i])
      ensures old(Undisturbed(held, others)) ==> Undisturbed(held, others)
      ensures others == if old(others) == [] then [] else old(others)[1..]
    {
      hide Meaning.Coherent, Cache.Valid, Mine, Same;
      SameAll(c.buf);
      if others == [] {
        return;
      }
      var visits := others[0];
      others := others[1..];
      ghost var held0 := held;
      var k := 0;
      while k < |visits|
        modifies this`c, this`m, this`held
        invariant 0 <= k <= |visits| && Holds(mine) && |c.buf| == old(|c.buf|)
        invariant m.logical == old(m).logical && m.slot == old(m).slot && (k == 0 ==> held == held0)
        invariant forall i :: 0 <= i < |c.buf| && i in mine ==> Same(old(c.buf[i]), c.buf[i])
      {
        ghost var buf := c.buf;
        Serve(visits[k], mine);
        forall i | 0 <= i < |c.buf| && i in mine ensures Same(old(c.buf[i]), c.buf[i]) {
          SameTrans(old(c.buf[i]), buf[i], c.buf[i]);
        }
        k := k + 1;
      }
    }

    /** One bread of a log routine that holds `mine`; other processes come first. */
    method Fetch(b: nat, ghost mine: set<nat>) returns (ok: bool, i: nat)
      requires Holds(mine) && b < |disk|
      requires forall j :: 0 <= j < |c.buf| && j in mine ==> c.buf[j].valid && c.buf[j].blockno != b
      modifies this`c, this`m, this`held, this`others
      ensures |c.buf| == old(|c.buf|) && m.logical == old(m).logical && m.slot == old(m).slot
      ensures old(Undisturbed(held, others)) ==> Undisturbed(held, others)
      ensures ok ==> i < |c.buf| && i !in mine && Holds(mine + {i})
      ensures ok ==> c.buf[i].valid && c.buf[i].blockno == b && c.buf[i].data == m.logical[b]
      ensures ok ==> forall j :: 0 <= j < |c.buf| && j in mine ==> Same(old(c.buf[j]), c.buf[j])
      ensures !ok && old(Undisturbed(held, others)) ==> b !in m.slot && |c.buf| <= |m.slot| + |mine|
    {
      hide Meaning.Coherent, Cache.Valid, Cache.Slot, Cache.Bread;
      Meanwhile(mine);
      i := c.Slot(dev, b);
      ok := i < |c.buf|;
      if ok {
        m.BreadKeeps(dev, c, disk, b);
        m.BreadHolds(dev, c, disk, b, mine);
        ghost var buf := c.buf;
        c, m := c.Bread(dev, b, disk), m.Refer(i, 1);
        forall j | 0 <= j < |c.buf| && j in mine ensures Same(old(c.buf[j]), c.buf[j]) {
          SameTrans(old(c.buf[j]), buf[j], c.buf[j]);
        }
      } else {
        m.BreadFails(dev, c, disk, b, mine);
      }
    }

    /** One brelse of a log routine. */
    method Drop(i: nat, ghost mine: set<nat>)
      requires Holds(mine) && i in mine && i < |c.buf|
      modifies this`c, this`m, this`held, this`others
      ensures Holds(mine - {i}) && |c.buf| == old(|c.buf|) && m.logical == old(m).logical && m.slot == old(m).slot
      ensures old(Undisturbed(held, others)) ==> Undisturbed(held, others)
    {
      hide Meaning.Coherent, Cache.Valid, Cache.Brelse;
      Meanwhile(mine);
      m.BrelseKeeps(dev, c, disk, i);
      c, m := c.Brelse(i), m.Refer(i, -1);
    }

    /** memmove into a held buffer i and bwrite(i); other processes come first. */
    method Write(i: nat, data: Block, ghost mine: set<nat>)
      requires Holds(mine) && i in mine && i < |c.buf| && c.buf[i].valid
      modifies this`c, this`m, this`disk, this`trace, this`held, this`others
      ensures Holds(mine) && |c.buf| == old(|c.buf|) && m.slot == old(m).slot
      ensures m.logical == Put(old(m).logical, old(c.buf[i]).blockno, data)
      ensures disk == Put(old(disk), old(c.buf[i]).blockno, data) && trace == old(trace) + [disk]
      ensures c.buf[i].valid && c.buf[i].blockno == old(c.buf[i]).blockno
      ensures old(Undisturbed(held, others)) ==> Undisturbed(held, others)
    {
      hide Meaning.Coherent, Cache.Valid, Put;
      Meanwhile(mine);
      m.WriteKeeps(dev, c, disk, i, data);
      m, disk, c := m.Set(c.buf[i].blockno, data), Put(disk, c.buf[i].blockno, data), c.Store(i, data);
      trace := trace + [disk];
    }

    /** The breads of one round of write_log or install_trans: a log block l and a home block h. */
    method BreadPair(l: nat, h: nat) returns (ok: bool, lbuf: nat, hbuf: nat)
      requires Holds({}) && l < |disk| && h < |disk| && l != h && l !in m.slot
      modifies this`c, this`m, this`held, this`others
      ensures |c.buf| == old(|c.buf|) && m.logical == old(m).logical && m.slot == old(m).slot
      ensures old(Undisturbed(held, others)) ==> Undisturbed(held, others)
      ensures old(Undisturbed(held, others)) && |m.slot| + (if h in m.slot then 1 else 2) <= |c.buf| ==> ok
      ensures ok ==> lbuf < |c.buf| && hbuf < |c.buf| && lbuf != hbuf && Holds({lbuf, hbuf})
      ensures ok ==> c.buf[lbuf].valid && c.buf[lbuf].blockno == l && c.buf[lbuf].data == m.logical[l]
      ensures ok ==> c.buf[hbuf].valid && c.buf[hbuf].blockno == h && c.buf[hbuf].data == m.logical[h]
    {
      hide Meaning.Coherent, Cache.Valid, Mine, Undisturbed;
      hbuf := 0;
      ok, lbuf := Fetch(l, {});
      if ok {
        assert {} + {lbuf} == {lbuf};
        ok, hbuf := Fetch(h, {lbuf});
        assert {lbuf} + {hbuf} == {lbuf, hbuf};
      }
    }

    /** One round of write_log(): copy a home block from the cache into the log. */
    method CopyToLog(l: nat, h: nat) returns (ok: bool)
      requires Holds({}) && l < |disk| && h < |disk| && l != h && l !in m.slot
      modifies this`c, this`m, this`disk, this`trace, this`held, this`others
      ensures old(Undisturbed(held, others)) ==> Undisturbed(held, others)
      ensures old(Undisturbed(held, others)) && |m.slot| + (if h in m.slot then 1 else 2) <= old(|c.buf|) ==> ok
      ensures !ok ==> disk == old(disk) && trace == old(trace)
      ensures ok ==> Holds({}) && m.logical == Put(old(m).logical, l, old(m).logical[h])
      ensures ok ==> disk == Put(old(disk), l, old(m).logical[h]) && trace == old(trace) + [disk]
      ensures |c.buf| == old(|c.buf|) && m.slot == old(m).slot
    {
      hide Meaning.Coherent, Cache.Valid, Mine, Undisturbed, Put;
      var lbuf, hbuf;
      ok, lbuf, hbuf := BreadPair(l, h);
      if ok {
        Write(lbuf, c.buf[hbuf].data, {lbuf, hbuf});
        Drop(hbuf, {lbuf, hbuf});
        Drop(lbuf, {lbuf, hbuf} - {hbuf});
        assert {lbuf, hbuf} - {hbuf} - {lbuf} == {};
      }
    }

    /** One round of install_trans(): copy a log block home; unless recovering, unpin it. */
    method CopyHome(l: nat, h: nat, unpin: bool) returns (ok: bool)
      requires Holds({}) && l < |disk| && h < |disk| && l != h && l !in m.slot && (unpin ==> h in m.slot)
      modifies this`c, this`m, this`disk, this`trace, this`held, this`others
      ensures old(Undisturbed(held, others)) ==> Undisturbed(held, others)
      ensures old(Undisturbed(held, others)) && |old(m).slot| + (if h in old(m).slot then 1 else 2) <= old(|c.buf|) ==>
                ok
      ensures !ok ==> disk == old(disk) && trace == old(trace)
      ensures ok ==> Holds({}) && m.logical == Put(old(m).logical, h, old(m).logical[l])
      ensures ok ==> disk == Put(old(disk), h, old(m).logical[l]) && trace == old(trace) + [disk]
      ensures ok ==> m.slot == if unpin then old(m).slot - {h} else old(m).slot
      ensures |c.buf| == old(|c.buf|)
    {
      hide Meaning.Coherent, Cache.Valid, Undisturbed;
      var lbuf, hbuf;
      ok, lbuf, hbuf := BreadPair(l, h);
      if ok {
        Write(hbuf, c.buf[lbuf].data, {lbuf, hbuf});
        if unpin {
          m.UnpinKeeps(dev, c, disk, hbuf);
          c, m := c.Bpin(hbuf, -1), m.(slot := m.slot - {h});
        }
        Drop(lbuf, {lbuf, hbuf});
        Drop(hbuf, {lbuf, hbuf} - {lbuf});
        assert {lbuf, hbuf} - {lbuf} - {hbuf} == {};
      }
    }

    /** write_log(): copy each logged block from the cache into the log; `done` rounds
        complete before success or panic.  Whatever other processes read and release before
        and during any round, the log gets the newest contents of the logged blocks, and
        these stay pinned in their buffers. */
    method WriteLog() returns (ok: bool, ghost done: nat)
      requires Holds({}) && Pinned(lh, m.slot, 0) && area.Loggable(disk, lh)
      modifies this`c, this`m, this`disk, this`trace, this`held, this`others
      ensures old(Undisturbed(held, others)) ==> Undisturbed(held, others)
      ensures old(Undisturbed(held, others)) && |lh| + 1 <= old(|c.buf|) ==> ok
      ensures done <= |lh| && (ok ==> done == |lh|)
      ensures trace == old(trace) + area.LogTrace(old(disk), lh, old(m).logical, done)
      ensures disk == area.Logged(old(disk), lh, old(m).logical, done)
      ensures |c.buf| == old(|c.buf|) && m.slot == old(m).slot
      ensures ok ==> Holds({}) && area.SameHome(m.logical, old(m).logical)
    {
      hide Meaning.Coherent, Cache.Valid, Area.Loggable, Mine, Undisturbed;
      ok, done := true, 0;
      var tail := 0;
      while tail < |lh|
        invariant 0 <= tail == done <= |lh|
        invariant Holds({}) && |c.buf| == old(|c.buf|)
        invariant old(Undisturbed(held, others)) ==> Undisturbed(held, others)
        invariant m.slot == old(m).slot && area.SameHome(m.logical, old(m).logical)
        invariant disk == area.Logged(old(disk), lh, old(m).logical, done)
        invariant trace == old(trace) + area.LogTrace(old(disk), lh, old(m).logical, done)
      {
        area.Round(old(disk), lh, tail);
        ok := CopyToLog(area.start + tail + 1, lh[tail]);
        if !ok {
          return;
        }
        tail, done := tail + 1, done + 1;
      }
    }

    /** write_head(): the commit point when lh is not empty, the erasure when it is. */
    method WriteHead() returns (ok: bool)
      requires Holds({}) && area.Loggable(disk, lh) && area.start !in m.slot
      modifies this`c, this`m, this`disk, this`trace, this`held, this`others
      ensures old(Undisturbed(held, others)) ==> Undisturbed(held, others)
      ensures old(Undisturbed(held, others)) && |m.slot| + 1 <= old(|c.buf|) ==> ok
      ensures !ok ==> disk == old(disk) && trace == old(trace)
      ensures ok ==> Holds({}) && area.SameHome(m.logical, old(m).logical)
      ensures ok ==> disk == area.Headed(old(disk), lh) && trace == old(trace) + [disk]
      ensures |c.buf| == old(|c.buf|) && m.slot == old(m).slot
    {
      hide Meaning.Coherent, Cache.Valid, Mine, Undisturbed;
      m.Unpinned(dev, c, disk, area.start);
      var i;
      ok, i := Fetch(area.start, {});
      if ok {
        assert {} + {i} == {i} && {i} - {i} == {};
        Write(i, PutHeads(c.buf[i].data, lh, |lh|), {i});
        Drop(i, {i});
      }
    }

    /** install_trans(): copy each logged block home, unpinning unless recovering. */
    method InstallTrans(recovering: bool) returns (ok: bool, ghost done: nat)
      requires Holds({}) && area.Loggable(disk, lh) && (if recovering then m.slot == map[] else Pinned(lh, m.slot, 0))
      modifies this`c, this`m, this`disk, this`trace, this`held, this`others
      ensures old(Undisturbed(held, others)) ==> Undisturbed(held, others)
      ensures old(Undisturbed(held, others)) && |old(m).slot| + (if recovering then 2 else 1) <= old(|c.buf|) ==> ok
      ensures done <= |lh| && (ok ==> done == |lh|)
      ensures trace == old(trace) + area.InstallTrace(old(disk), lh, done)
      ensures disk == area.Installed(old(disk), lh, done)
      ensures |c.buf| == old(|c.buf|)
      ensures ok ==> Holds({}) && m.slot == map[]
    {
      hide Meaning.Coherent, Cache.Valid, Area.Loggable, Pinned, Area.Installed, Area.InstallTrace, Mine, Undisturbed;
      ok, done := true, 0;
      area.InstallNone(disk, lh);
      var tail := 0;
      while tail < |lh|
        invariant 0 <= tail == done <= |lh|
        invariant Holds({}) && |c.buf| == old(|c.buf|)
        invariant old(Undisturbed(held, others)) ==> Undisturbed(held, others)
        invariant |m.slot| <= |old(m).slot| && if recovering then m.slot == map[] else Pinned(lh, m.slot, tail)
        invariant disk == area.Installed(old(disk), lh, done)
        invariant trace == old(trace) + area.InstallTrace(old(disk), lh, done)
      {
        area.Round(old(disk), lh, tail);
        area.InstallStep(old(disk), lh, tail);
        if !recovering { PinnedStep(lh, m.slot, tail); }
        m.Unpinned(dev, c, disk, area.start + tail + 1);
        ok := CopyHome(area.start + tail + 1, lh[tail], !recovering);
        if !ok {
          return;
        }
        tail, done := tail + 1, done + 1;
      }
      if !recovering { PinnedNone(lh, m.slot); }
    }

    /** Install, empty the list, write the header: the second half of commit() and all of
        recover_from_log() after read_head(). */
    method InstallAndClear(recovering: bool) returns (ok: bool, ghost done: nat)
      requires Holds({}) && area.Loggable(disk, lh) && (if recovering then m.slot == map[] else Pinned(lh, m.slot, 0))
      modifies this`c, this`m, this`disk, this`trace, this`lh, this`held, this`others
      ensures old(Undisturbed(held, others)) && |old(m).slot| + (if recovering then 2 else 1) <= old(|c.buf|) ==> ok
      ensures done <= |old(lh)| + 1 && (ok ==> done == |old(lh)| + 1)
      ensures trace == old(trace) + area.RecoveryTrace(old(disk), old(lh), done)
      ensures ok ==> disk == area.Recovering(old(disk), old(lh), done)
      ensures ok ==> Holds({}) && lh == [] && m.slot == map[] && area.Loggable(disk, lh)
    {
      hide Meaning.Coherent, Cache.Valid, Area.Loggable, Pinned, Area.Installed, Area.InstallTrace, Area.Headed, Mine,
           Undisturbed;
      ok, done := InstallTrans(recovering);
      area.RecoveryTraceParts(old(disk), lh, done);
      if !ok {
        return;
      }
      area.LoggableSize(old(disk), disk, lh);
      lh := [];
      ok := WriteHead();
      if ok {
        done := done + 1;
        area.LoggableSize(old(disk), disk, old(lh));
      }
    }

    /** Between commits: the on-disk log is empty, exactly the logged blocks are pinned, and
        all other references are the processes'. */
    ghost predicate Valid()
      reads this
    {
      Holds({}) && Pinned(lh, m.slot, 0) && area.Loggable(disk, lh) && area.Settled(disk, disk)
    }

    /** What a transaction would change is what it has logged. */
    lemma Uncommitted()
      requires Valid()
      ensures area.FromHome(disk, lh, m.logical)
    {
    }

    /** The first half of commit(): write_log() and write_head(), up to the commit point. */
    method LogAndHead() returns (ok: bool, ghost done: nat)
      requires Holds({}) && Pinned(lh, m.slot, 0) && area.Loggable(disk, lh)
      modifies this`c, this`m, this`disk, this`trace, this`held, this`others
      ensures old(Undisturbed(held, others)) ==> Undisturbed(held, others)
      ensures old(Undisturbed(held, others)) && |lh| + 1 <= old(|c.buf|) ==> ok
      ensures done <= |lh| + 1 && (ok ==> done == |lh| + 1)
      ensures trace == old(trace) + area.CommitTrace(old(disk), lh, old(m).logical, done)
      ensures ok ==> disk == area.CommitDisk(old(disk), lh, old(m).logical, done) && |disk| == |old(disk)|
      ensures ok ==> Holds({}) && m.slot == old(m).slot && |c.buf| == old(|c.buf|)
    {
      hide Meaning.Coherent, Cache.Valid, Area.Loggable, Pinned, Area.LogTrace, Area.RecoveryTrace, Area.Logged,
           Area.Headed, Mine, Undisturbed;
      ok, done := WriteLog();
      area.CommitTraceParts(old(disk), lh, old(m).logical, done);
      if ok {
        area.LoggableSize(old(disk), disk, lh);
        PinnedIn(lh, m.slot, area.start);
        ok := WriteHead();
        if ok {
          area.AtCommitPoint(old(disk), lh, old(m).logical);
          done := done + 1;
        }
      }
    }

    /** commit(), while other processes do what `visitors` says: the disk passes through the
        images of CommitDisk, `done` of them if a bread panics, and each stands for the old
        contents before the header write and for the new ones from it on.  It cannot panic
        while one buffer more than the transaction's exists and no other buffer is held. */
    method Commit(visitors: seq<seq<Visit>>) returns (ok: bool, ghost done: nat)
      requires Valid()
      modifies this`c, this`m, this`disk, this`trace, this`lh, this`held, this`others
      ensures Undisturbed(old(held), visitors) && |old(lh)| + 1 <= old(|c.buf|) ==> ok
      ensures done <= (if |old(lh)| == 0 then 0 else 2 * |old(lh)| + 2)
      ensures trace == old(trace) + area.CommitTrace(old(disk), old(lh), old(m).logical, done)
      ensures AllOrNothing(area, trace[|old(trace)|..], |old(lh)|, old(disk), old(m).logical)
      ensures ok ==> done == if |old(lh)| == 0 then 0 else 2 * |old(lh)| + 2
      ensures ok ==> Valid() && lh == [] && area.SameHome(disk, old(m).logical)
    {
      hide Meaning.Coherent, Cache.Valid, Area.Loggable, Pinned, Area.Settled, Area.SameHome, Area.FromHome, Mine,
           Undisturbed;
      hide Area.CommitTrace, Area.RecoveryTrace, Area.CommitDisk, Area.Recovering, AllOrNothing;
      others := visitors;
      Uncommitted();
      area.NoWrites(disk, lh, m.logical);
      ok, done := true, 0;
      if |lh| > 0 {
        ok, done := LogAndHead();
        if ok {
          area.LoggableSize(old(disk), disk, lh);
          PinnedIn(lh, m.slot, area.start);
          ghost var more;
          ok, more := InstallAndClear(false);
          area.CommitTraceJoin(old(disk), old(lh), old(m).logical, more);
          done := done + more;
          if ok {
            area.CommitSettles(old(disk), old(lh), old(m).logical);
            PinnedEmpty();
          }
        }
      } else {
        Unchanged();
      }
      CommitAllOrNothing(area, old(disk), old(lh), old(m).logical, done);
      assert trace[|old(trace)|..] == area.CommitTrace(old(disk), old(lh), old(m).logical, done);
    }

    /** read_head(): the header entries of the disk. */
    method ReadHead() returns (ok: bool)
      requires Holds({}) && area.Sane(disk) && m.slot == map[]
      modifies this`c, this`m, this`lh
      ensures Undisturbed(held, []) && 1 <= old(|c.buf|) ==> ok
      ensures ok ==> Holds({}) && m == old(m) && lh == Heads(disk[area.start]) && |c.buf| == old(|c.buf|)
    {
      hide Meaning.Coherent, Cache.Valid, Cache.Slot, Area.Loggable;
      var i := c.Slot(dev, area.start);
      if i == |c.buf| {
        m.BreadFails(dev, c, disk, area.start, {});
        return false;
      }
      m.BreadKeeps(dev, c, disk, area.start);
      m.Unpinned(dev, c, disk, area.start);
      c, m := c.Bread(dev, area.start, disk), m.Refer(i, 1);
      var head := c.buf[i].data;
      lh := [];
      while |lh| < Word(head, 0)
        modifies this`lh
        invariant |lh| <= Word(head, 0) < WORDS
        invariant forall k :: 0 <= k < |lh| ==> lh[k] == Word(head, k + 1)
      {
        lh := lh + [Word(head, |lh| + 1)];
      }
      m.BrelseKeeps(dev, c, disk, i);
      c, m := c.Brelse(i), m.Refer(i, -1);
      ok := true;
    }

    /** recover_from_log() at boot, on an image that stands for v: every image it passes
        through still stands for v, so it may crash and be run again; if it completes, the
        home blocks are v's.  Two buffers are enough for it not to panic. */
    method RecoverFromLog(ghost v: Image) returns (ok: bool)
      requires Holds({}) && m.slot == map[] && area.Represents(disk, v)
      modifies this`c, this`m, this`disk, this`trace, this`lh, this`held, this`others
      ensures Undisturbed(old(held), []) && 2 <= old(|c.buf|) ==> ok
      ensures |old(trace)| <= |trace| && old(trace) == trace[..|old(trace)|]
      ensures forall j :: |old(trace)| <= j < |trace| ==> area.Represents(trace[j], v)
      ensures ok ==> Valid() && lh == [] && area.Settled(disk, v)
    {
      hide Meaning.Coherent, Cache.Valid, Area.Loggable, Area.FromLog, Area.FromHome, Area.RecoveryTrace,
           Area.Recovering;
      others := [];
      ok := ReadHead();
      if ok {
        ghost var done;
        ok, done := InstallAndClear(true);
        forall j | 0 <= j < done
          ensures area.Represents(area.RecoveryTrace(old(disk), Heads(old(disk)[area.start]), done)[j], v)
        {
          area.RecoveryTraceAt(old(disk), Heads(old(disk)[area.start]), done, j);
          area.RecoveryKeeps(old(disk), v, j + 1);
        }
        if ok {
          area.RecoveryKeeps(old(disk), v, done);
          PinnedEmpty();
        }
      }
    }

    /** log_write(): buffer i is held and `data` is what the caller has put in it.  `!ok` is
        a panic. */
    method LogWrite(i: nat, data: Block) returns (ok: bool)
      requires Valid() && i < |c.buf| && c.buf[i].valid && held[i] > 0
      requires logsize + 1 < WORDS && !area.Holds(c.buf[i].blockno)
      modifies this`c, this`m, this`lh
      ensures var r := old(Fields()).LogWrite(logsize, area.size, old(c.buf[i]).blockno in old(lh));
              ok == r.Ok? && (ok ==> Fields() == r.value)
      ensures ok ==> Valid() && m.ext == old(m).ext && m.logical == Put(old(m).logical, old(c.buf[i]).blockno, data)
      ensures ok ==> lh == if old(c.buf[i]).blockno in old(lh) then old(lh) else old(lh) + [old(c.buf[i]).blockno]
    {
      hide Meaning.Coherent, Cache.Valid, Pinned, Area.Loggable, Area.Settled, Put;
      ok := !(|lh| >= logsize || |lh| >= area.size - 1) && outstanding >= 1;
      if !ok {
        return;
      }
      var k := FindLogged(c.buf[i].blockno);
      if k == |lh| {
        Append(i, data);
      } else {
        Absorb(i, data);
      }
    }

    /** The absorption loop of log_write(). */
    method FindLogged(b: nat) returns (k: nat)
      ensures k <= |lh| && (k < |lh| ==> lh[k] == b) && (k == |lh| ==> b !in lh)
    {
      k := 0;
      while k < |lh| && lh[k] != b
        invariant 0 <= k <= |lh| && b !in lh[..k]
      {
        k := k + 1;
      }
    }

    /** begin_op(): one pass of its loop. */
    method BeginOp(maxop: nat) returns (admitted: bool)
      modifies this`outstanding
      ensures var r := old(Fields()).BeginOp(logsize, maxop);
              admitted == r.Ok? && Fields() == if admitted then r.value else old(Fields())
      ensures old(Valid()) ==> Valid()
    {
      hide Meaning.Coherent, Cache.Valid, Mine, Pinned, Area.Loggable, Area.Settled;
      admitted := !committing && |lh| + (outstanding + 1) * maxop <= logsize;
      if admitted {
        outstanding := outstanding + 1;
      }
    }

    /** end_op(): the last operation out commits, while other processes do what `visitors` says.
        Every image the disk passes through stands for the contents before the transaction or
        for those after it.  `!ok` is a panic. */
    method EndOp(visitors: seq<seq<Visit>>) returns (ok: bool, ghost done: nat)
      requires Valid()
      modifies this`c, this`m, this`disk, this`trace, this`lh, this`outstanding, this`committing, this`held, this`others
      ensures old(Fields()).EndOp().Panic? ==> !ok && done == 0
      ensures old(Fields()).EndOp().Ok? ==>
                var g := old(Fields()).EndOp().value;
                && (ok ==> Fields() == if g.committing then g.Committed() else g)
                && (!g.committing ==> ok && c == old(c) && m == old(m) && disk == old(disk) && lh == old(lh))
                && (g.committing && Undisturbed(old(held), visitors) && |old(lh)| + 1 <= old(|c.buf|) ==> ok)
                && (g.committing && ok ==> area.SameHome(disk, old(m).logical))
      ensures ok ==> Valid()
      ensures done <= 2 * |old(lh)| + 2
                && trace == old(trace) + area.CommitTrace(old(disk), old(lh), old(m).logical, done)
      ensures AllOrNothing(area, trace[|old(trace)|..], |old(lh)|, old(disk), old(m).logical)
    {
      area.NoWrites(disk, lh, m.logical);
      hide Area.CommitTrace, Area.Loggable, Area.Settled, Meaning.Coherent, Cache.Valid, Pinned, Area.SameHome, Mine,
           Undisturbed;
      done := 0;
      outstanding := outstanding - 1;
      if committing {
        return false, 0;
      }
      if outstanding != 0 {
        return true, 0;
      }
      committing := true;
      ok, done := Commit(visitors);
      if ok {
        committing := false;
      }
    }

    /** log_write() of a block that is new to the transaction. */
    method Append(i: nat, data: Block)
      requires Valid() && i < |c.buf| && c.buf[i].valid && c.buf[i].blockno !in lh
      requires |lh| + 1 < area.size && |lh| + 1 < WORDS && !area.Holds(c.buf[i].blockno)
      modifies this`c, this`m, this`lh
      ensures Valid() && m.ext == old(m).ext && m.logical == Put(old(m).logical, old(c.buf[i]).blockno, data)
      ensures lh == old(lh) + [old(c.buf[i]).blockno]
    {
      hide Meaning.Coherent, Cache.Valid, Pinned, Area.Loggable, Area.Settled;
      var b := c.buf[i].blockno;
      PinnedAdd(lh, m.slot, b, i);
      m.PinKeeps(dev, c, disk, i, data);
      area.LoggableAdd(disk, lh, b);
      c, m := c.Store(i, data).Bpin(i, 1), m.Set(b, data).(slot := m.slot[b := i]);
      lh := lh + [b];
    }

    method Absorb(i: nat, data: Block)
      requires Valid() && i < |c.buf| && c.buf[i].valid && c.buf[i].blockno in lh
      modifies this`c, this`m
      ensures Valid() && m.ext == old(m).ext && m.logical == Put(old(m).logical, old(c.buf[i]).blockno, data)
    {
      hide Meaning.Coherent, Cache.Valid;
      m.AbsorbKeeps(dev, c, disk, i, data);
      c, m := c.Store(i, data), m.Set(c.buf[i].blockno, data);
    }

    lemma Unchanged()
      requires Valid() && lh == []
      ensures area.SameHome(disk, m.logical)
    {
    }

    lemma ValidParts()
      requires Valid()
      ensures Holds({}) && area.Settled(disk, disk) && |m.logical| == |disk| && |m.slot| == |lh|
    {
    }
  }

  /** Each image of a commit of n blocks stands for the old contents up to the last log write
      and for the new ones from the header write on. */
  ghost predicate AllOrNothing(area: Area, images: seq<Image>, n: nat, before: Image, after: Image) {
    forall j :: 0 <= j < |images| ==> area.Represents(images[j], if j < n then before else after)
  }

  lemma CommitAllOrNothing(area: Area, d: Image, lh: seq<nat>, w: Image, done: nat)
    requires area.Settled(d, d) && area.Loggable(d, lh) && |w| == |d| && area.FromHome(d, lh, w) && done <= 2 * |lh| + 2
    ensures AllOrNothing(area, area.CommitTrace(d, lh, w, done), |lh|, d, w)
  {
    hide Area.Settled, Area.Loggable, Area.FromHome, Area.Represents, Area.CommitDisk, Area.CommitTrace;
    forall j | 0 <= j < done ensures area.Represents(area.CommitTrace(d, lh, w, done)[j], if j < |lh| then d else w) {
      area.CommitTraceAt(d, lh, w, done, j);
      area.CommitPoint(d, lh, d, w, j + 1);
    }
  }

  // ---- logged blocks stay cached ----------------------------------------------------------

  /** What anyone may do to the cache from the first log_write of a transaction to the end of its
      commit: visit it; store into a held buffer and log_write it; bwrite a held buffer, with
      new contents if it is not pinned; and in install_trans drop the pin of the next block,
      which is on disk by then. */
  datatype Access = Visitor(v: Visit) | Update(i: nat, data: Block) | Bwrite(i: nat, data: Block) | Unpin(i: nat)

  /** `at` logged blocks have been unpinned. */
  datatype Txn = Txn(c: Cache, m: Meaning, lh: seq<nat>, at: nat, disk: Image) {

    ghost predicate Inv(dev: nat) {
      && c.Valid() && m.Coherent(dev, c.buf, disk) && Pinned(lh, m.slot, at)
      && Installed(lh, m.slot, at, |disk|)
    }

    ghost predicate Held(i: nat) { i < |c.buf| && i < |m.ext| && m.ext[i] > 0 && c.buf[i].valid }

    /** An access that is not possible (nothing held, no buffer free) changes nothing. */
    ghost function Step(dev: nat, a: Access): (r: Txn)
      requires Inv(dev)
    {
      match a
      case Visitor(Read(b)) =>
        if b < |disk| && c.Slot(dev, b) < |c.buf| then
          this.(c := c.Bread(dev, b, disk), m := m.Refer(c.Slot(dev, b), 1))
        else this
      case Visitor(Release(i)) =>
        if Held(i) && c.buf[i].refcnt > 0 && i in c.order then this.(c := c.Brelse(i), m := m.Refer(i, -1)) else this
      case Update(i, data) =>
        if !Held(i) || at > 0 then this
        else if c.buf[i].blockno in m.slot then this.(c := c.Store(i, data), m := m.Set(c.buf[i].blockno, data))
        else
          var b := c.buf[i].blockno;
          this.(c := c.Store(i, data).Bpin(i, 1), m := m.Set(b, data).(slot := m.slot[b := i]), lh := lh + [b])
      case Bwrite(i, data) =>
        if Held(i) && (c.buf[i].blockno in m.slot ==> data == c.buf[i].data) then
          var b := c.buf[i].blockno;
          this.(c := c.Store(i, data), m := m.Set(b, data), disk := Put(disk, b, data))
        else this
      case Unpin(i) =>
        if Held(i) && at < |lh| && c.buf[i].blockno == lh[at] && lh[at] < |disk| && disk[lh[at]] == c.buf[i].data
           && c.buf[i].refcnt > 0 then
          this.(c := c.Bpin(i, -1), m := m.(slot := m.slot - {lh[at]}), at := at + 1)
        else this
    }

    /** Every access keeps the invariant, and a block that is pinned and stays pinned keeps its
        buffer. */
    lemma StepKeeps(dev: nat, a: Access)
      requires Inv(dev)
      ensures Step(dev, a).Inv(dev) && Follows(Step(dev, a))
    {
      hide Meaning.Coherent, Cache.Valid, Cache.Slot, Cache.Bread, Cache.Brelse, Cache.Store, Cache.Bpin, Pinned;
      match a
      case Visitor(Read(b)) =>
        if b < |disk| && c.Slot(dev, b) < |c.buf| {
          m.BreadKeeps(dev, c, disk, b);
        }
      case Visitor(Release(i)) =>
        if Held(i) && c.buf[i].refcnt > 0 && i in c.order {
          m.BrelseKeeps(dev, c, disk, i);
        }
      case Update(i, data) =>
        if Held(i) && at == 0 { UpdateKeeps(dev, i, data); }
      case Bwrite(i, data) =>
        if Held(i) {
          m.WriteKeeps(dev, c, disk, i, data);
        }
      case Unpin(i) =>
        UnpinStepKeeps(dev, i);
    }

    lemma UpdateKeeps(dev: nat, i: nat, data: Block)
      requires Inv(dev) && Held(i) && at == 0
      ensures Step(dev, Update(i, data)).Inv(dev) && Follows(Step(dev, Update(i, data)))
    {
      hide Meaning.Coherent, Cache.Valid, Cache.Slot, Cache.Bread, Cache.Brelse, Cache.Store, Cache.Bpin, Pinned;
      var b := c.buf[i].blockno;
      if b in m.slot {
        m.AbsorbKeeps(dev, c, disk, i, data);
      } else {
        PinnedOut(lh, m.slot, b);
        m.PinKeeps(dev, c, disk, i, data);
        PinnedAdd(lh, m.slot, b, i);
      }
    }

    lemma UnpinStepKeeps(dev: nat, i: nat)
      requires Inv(dev)
      ensures Step(dev, Unpin(i)).Inv(dev) && Follows(Step(dev, Unpin(i)))
    {
      hide Meaning.Coherent, Cache.Valid, Cache.Slot, Cache.Bread, Cache.Brelse, Cache.Store, Cache.Bpin, Pinned,
           Installed;
      if Step(dev, Unpin(i)) != this {
        InstalledStep(lh, m.slot, at, |disk|);
        PinnedStep(lh, m.slot, at);
        m.Current(dev, c, disk, i);
        m.UnpinKeeps(dev, c, disk, i);
      }
    }

    /** In r, some steps later, the log has grown, and what is pinned then has not moved. */
    ghost predicate Follows(r: Txn) {
      && lh <= r.lh && at <= r.at
      && forall b :: b in m.slot && b in r.m.slot ==> r.m.slot[b] == m.slot[b]
    }

    ghost function Run(dev: nat, acts: seq<Access>): (r: Txn)
      requires Inv(dev)
      ensures r.Inv(dev)
      decreases |acts|
    {
      if acts == [] then this else (StepKeeps(dev, acts[0]); Step(dev, acts[0]).Run(dev, acts[1..]))
    }

    /** From log_write to bunpin: after any further accesses of anyone, every block logged so
        far is either still in the buffer it was logged in, valid and referenced, and bread
        finds that buffer with the block's newest contents; or install_trans has unpinned it,
        and its newest contents are on disk.  So neither write_log nor a reader ever gets a
        stale disk block. */
    lemma {:induction false} LoggedStayCached(dev: nat, acts: seq<Access>, t: nat)
      requires Inv(dev) && at <= t < |lh|
      ensures var r := Run(dev, acts);
              var b := lh[t];
              && lh <= r.lh && b in m.slot
              && if t < r.at then b < |r.disk| == |r.m.logical| && r.disk[b] == r.m.logical[b]
                 else r.Cached(dev, b, m.slot[b])
      decreases |acts|
    {
      if acts == [] {
        CachedNow(dev, t);
      } else {
        StepKeeps(dev, acts[0]);
        PinnedAt(dev, t);
        var s := Step(dev, acts[0]);
        assert s.lh[t] == lh[t];
        if t < s.at {
          s.InstalledStay(dev, acts[1..], t);
        } else {
          s.PinnedAt(dev, t);
          s.LoggedStayCached(dev, acts[1..], t);
        }
      }
    }

    lemma {:induction false} InstalledStay(dev: nat, acts: seq<Access>, t: nat)
      requires Inv(dev) && t < at
      ensures var r := Run(dev, acts);
              && t < r.at && lh <= r.lh && lh[t] < |r.disk| == |r.m.logical| && r.disk[lh[t]] == r.m.logical[lh[t]]
      decreases |acts|
    {
      if acts == [] {
        m.Unpinned(dev, c, disk, lh[t]);
      } else {
        StepKeeps(dev, acts[0]);
        assert Step(dev, acts[0]).lh[t] == lh[t];
        Step(dev, acts[0]).InstalledStay(dev, acts[1..], t);
      }
    }

    ghost predicate Cached(dev: nat, b: nat, i: nat)
      requires c.Valid()
    {
      && i < |c.buf| && c.buf[i].Is(dev, b) && c.buf[i].valid && c.buf[i].refcnt >= 1
      && b < |m.logical| && c.buf[i].data == m.logical[b] && c.Slot(dev, b) == i
    }

    lemma PinnedAt(dev: nat, t: nat)
      requires Inv(dev) && at <= t < |lh|
      ensures lh[t] in m.slot
    {
    }

    lemma CachedNow(dev: nat, t: nat)
      requires Inv(dev) && at <= t < |lh|
      ensures lh[t] in m.slot && Cached(dev, lh[t], m.slot[lh[t]])
    {
    }
  }

  lemma PinnedEmpty()
    ensures Pinned([], map[], 0)
  {
  }
}
