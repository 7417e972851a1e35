/** The buffer cache of kernel/bio.c.  `Cache` is the cache as a list of buffers in
    least-recently-used order; class `Bcache` is the source's doubly linked ring, proved to
    behave like it.  Pointers are buffer indices; index `head` stands for `bcache.head`. */
module BufferCache {
  import opened Blocks

  datatype Buf = Buf(valid: bool, dev: nat, blockno: nat, refcnt: nat, data: Block) {
    predicate Is(d: nat, b: nat) { dev == d && blockno == b }
    function Refer(n: int): Buf requires refcnt + n >= 0 { this.(refcnt := refcnt + n) }
  }

  /** `order` lists the buffers 0..n once each, `pos` being its inverse. */
  ghost predicate Permutation(order: seq<nat>, pos: seq<nat>, n: nat) {
    && |order| == |pos| == n
    && (forall k :: 0 <= k < n ==> order[k] < n && pos[order[k]] == k)
    && (forall b :: 0 <= b < n ==> pos[b] < n && order[pos[b]] == b)
  }

  /** The successor of buffer b in the ring for `order`. */
  ghost function Succ(order: seq<nat>, pos: seq<nat>, head: nat, b: nat): nat
    requires Permutation(order, pos, head) && b <= head
  {
    var k := if b == head then 0 else pos[b] + 1;
    if k == head then head else order[k]
  }

  ghost function Pred(order: seq<nat>, pos: seq<nat>, head: nat, b: nat): nat
    requires Permutation(order, pos, head) && b <= head
  {
    var k := if b == head then head else pos[b];
    if k == 0 then head else order[k - 1]
  }

  /** `next` and `prev` thread the cycle head -> order[0] -> ... -> order[last] -> head. */
  ghost predicate Ring(next: seq<nat>, prev: seq<nat>, order: seq<nat>, pos: seq<nat>, head: nat)
    requires Permutation(order, pos, head)
  {
    && |next| == |prev| == head + 1
    && (forall b {:trigger next[b]} :: 0 <= b <= head ==> next[b] == Succ(order, pos, head, b))
    && (forall b {:trigger prev[b]} :: 0 <= b <= head ==> prev[b] == Pred(order, pos, head, b))
  }

  function MoveToFront(order: seq<nat>, k: nat): (r: seq<nat>)
    requires k < |order|
  {
    [order[k]] + order[..k] + order[k + 1..]
  }

  /** Where MoveToFront(order, k) puts the buffer that was at position p. */
  ghost function Moved(p: nat, k: nat): nat {
    if p < k then p + 1 else if p == k then 0 else p
  }

  ghost function MovedAll(pos: seq<nat>, k: nat): (r: seq<nat>)
    ensures |r| == |pos|
    ensures forall b :: 0 <= b < |pos| ==> r[b] == Moved(pos[b], k)
  {
    seq(|pos|, b requires 0 <= b < |pos| => Moved(pos[b], k))
  }

  /** No block of a real device (dev != 0; fresh buffers carry key (0,0)) has two buffers. */
  ghost predicate Unique(buf: seq<Buf>) {
    forall i, j :: 0 <= i < j < |buf| && buf[i].dev != 0 ==> !buf[j].Is(buf[i].dev, buf[i].blockno)
  }

  // ---- the cache as a list ------------------------------------------------------------

  /** The buffer that caches block (d,b), or |buf|; the caller searches from buffer k. */
  function Lookup(buf: seq<Buf>, d: nat, b: nat, k: nat): (i: nat)
    requires k <= |buf|
    ensures k <= i <= |buf| && (i < |buf| ==> buf[i].Is(d, b))
    ensures forall j :: k <= j < i ==> !buf[j].Is(d, b)
    decreases |buf| - k
  {
    if k == |buf| || buf[k].Is(d, b) then k else Lookup(buf, d, b, k + 1)
  }

  /** The last unreferenced buffer among order[..k], or |buf|. */
  function Victim(buf: seq<Buf>, order: seq<nat>, k: nat): (i: nat)
    requires k <= |order| && forall j :: 0 <= j < |order| ==> order[j] < |buf|
    ensures i <= |buf| && (i < |buf| ==> buf[i].refcnt == 0)
    ensures i == |buf| ==> forall j :: 0 <= j < k ==> buf[order[j]].refcnt > 0
  {
    if k == 0 then |buf| else if buf[order[k - 1]].refcnt == 0 then order[k - 1] else Victim(buf, order, k - 1)
  }

  datatype Cache = Cache(buf: seq<Buf>, order: seq<nat>) {

    ghost predicate Valid() {
      && |order| == |buf| && Unique(buf)
      && (forall k :: 0 <= k < |order| ==> order[k] < |buf|)
      && (forall i :: 0 <= i < |buf| ==> i in order)
    }

    /** The buffer bget returns, or |buf| for the "bget: no buffers" panic. */
    function Slot(d: nat, b: nat): (i: nat)
      requires Valid()
      ensures i <= |buf|
      ensures i == |buf| ==> forall j :: 0 <= j < |buf| ==> !buf[j].Is(d, b) && buf[j].refcnt > 0
      ensures i < |buf| && !buf[i].Is(d, b) ==> buf[i].refcnt == 0 && forall j :: 0 <= j < |buf| ==> !buf[j].Is(d, b)
    {
      var i := Lookup(buf, d, b, 0);
      if i < |buf| then i
      else
        var v := Victim(buf, order, |order|);
        assert v == |buf| ==> forall j :: 0 <= j < |buf| ==> buf[j].refcnt > 0 by {
          forall j | 0 <= j < |buf| && v == |buf| ensures buf[j].refcnt > 0 {
            assert order[Index(order, j)] == j;
          }
        }
        v
    }

    /** bread(): the buffer with its reference counted; the disk is read only on a miss or
        for an invalid buffer. */
    function Bread(d: nat, b: nat, disk: seq<Block>): (r: Cache)
      requires Valid() && Slot(d, b) < |buf| && b < |disk|
      ensures r.order == order && |r.buf| == |buf|
    {
      var i := Slot(d, b);
      this.(buf := buf[i := if !buf[i].Is(d, b) then Buf(true, d, b, 1, disk[b])
                            else if buf[i].valid then buf[i].Refer(1)
                            else Buf(true, d, b, buf[i].refcnt + 1, disk[b])])
    }

    /** brelse(): the last release moves the buffer to the front of the order. */
    function Brelse(i: nat): (r: Cache)
      requires i < |buf| && buf[i].refcnt > 0 && i in order
    {
      Cache(buf[i := buf[i].Refer(-1)], if buf[i].refcnt == 1 then MoveToFront(order, Index(order, i)) else order)
    }

    lemma BrelseValid(i: nat)
      requires Valid() && i < |buf| && buf[i].refcnt > 0
      ensures i in order && Brelse(i).Valid()
    {
      var k := Index(order, i);
      forall j | 0 <= j < |buf| ensures j in MoveToFront(order, k) {
        MoveKeeps(order, k, j);
      }
    }

    function Store(i: nat, data: Block): (r: Cache)
      requires i < |buf|
    {
      this.(buf := buf[i := buf[i].(data := data)])
    }

    /** bpin() and bunpin() */
    function Bpin(i: nat, n: int): (r: Cache)
      requires i < |buf| && buf[i].refcnt + n >= 0
    {
      this.(buf := buf[i := buf[i].Refer(n)])
    }
  }

  /** The position of i in the order. */
  function Index(order: seq<nat>, i: nat): (k: nat)
    requires i in order
    ensures k < |order| && order[k] == i
  {
    if order[0] == i then 0 else 1 + Index(order[1..], i)
  }

  /** The ring is in order of last release: nearer the front means released later. */
  ghost predicate Stamped(pos: seq<nat>, stamp: seq<nat>, clock: nat)
    requires |pos| == |stamp|
  {
    && (forall i :: 0 <= i < |stamp| ==> stamp[i] < clock)
    && (forall i, j :: 0 <= i < |pos| && 0 <= j < |pos| && pos[i] < pos[j] ==> stamp[i] > stamp[j])
  }

  lemma MoveKeeps(order: seq<nat>, k: nat, i: nat)
    requires k < |order|
    ensures i in order ==> i in MoveToFront(order, k)
    ensures i in MoveToFront(order, k) ==> i in order
  {
    var r := MoveToFront(order, k);
    if i in order {
      var j := Index(order, i);
      assert r[Moved(j, k)] == i;
    }
  }

  // ---- the ring ---------------------------------------------------------------------

  class Bcache {
    const head: nat            // NBUF
    var buf: seq<Buf>
    var next: seq<nat>
    var prev: seq<nat>
    ghost var order: seq<nat>          // the ring, most recently released first
    ghost var pos: seq<nat>            // each buffer's position in the ring
    ghost var stamp: seq<nat>          // when each buffer was last released to zero by brelse
    ghost var clock: nat

    ghost predicate Valid()
      reads this
    {
      && |buf| == |stamp| == head
      && Permutation(order, pos, head)
      && Ring(next, prev, order, pos, head)
      && Stamped(pos, stamp, clock)
      && Unique(buf)
    }

    ghost function Abs(): Cache
      reads this
    {
      Cache(buf, order)
    }

    /** binit(): every buffer is pushed at the front, so buffer 0 is recycled first. */
    constructor (nbuf: nat)
      ensures Valid() && head == nbuf
      ensures buf == seq(nbuf, _ => Buf(false, 0, 0, 0, Zero()))
      ensures order == seq(nbuf, k requires 0 <= k < nbuf => nbuf - 1 - k)
    {
      var nx: seq<nat> := seq(nbuf + 1, _ => nbuf);
      var pv: seq<nat> := seq(nbuf + 1, _ => nbuf);
      var b := 0;
      while b < nbuf
        invariant 0 <= b <= nbuf && |nx| == |pv| == nbuf + 1
        invariant nx[nbuf] == if b == 0 then nbuf else b - 1
        invariant pv[nbuf] == if b == 0 then nbuf else 0
        invariant forall i :: 0 <= i < b ==> nx[i] == if i == 0 then nbuf else i - 1
        invariant forall i :: 0 <= i < b ==> pv[i] == if i + 1 == b then nbuf else i + 1
      {
        nx := nx[b := nx[nbuf]];
        pv := pv[b := nbuf];
        pv := pv[nx[nbuf] := b];
        nx := nx[nbuf := b];
        b := b + 1;
      }
      ghost var ord: seq<nat> := seq(nbuf, k requires 0 <= k < nbuf => nbuf - 1 - k);
      head := nbuf;
      next, prev, order, pos := nx, pv, ord, ord;
      buf := seq(nbuf, _ => Buf(false, 0, 0, 0, Zero()));
      stamp, clock := seq(nbuf, i => i), nbuf;
    }

    /** First loop of bget(): walk the ring from the front for the block's buffer. */
    method FindCached(d: nat, b: nat) returns (i: nat)
      requires Valid()
      ensures i <= head
      ensures i < head ==> buf[i].Is(d, b)
      ensures i == head ==> forall j :: 0 <= j < head ==> !buf[j].Is(d, b)
    {
      i := next[head];
      ghost var k := 0;
      while i != head
        invariant 0 <= k <= head && i == if k == head then head else order[k]
        invariant forall j :: 0 <= j < head && pos[j] < k ==> !buf[j].Is(d, b)
        decreases head - k
      {
        if buf[i].Is(d, b) {
          return;
        }
        i, k := next[i], k + 1;
      }
    }

    /** Second loop of bget(): walk the ring from the back for an unreferenced buffer; the
        one found is the least recently released. */
    method FindVictim() returns (i: nat)
      requires Valid()
      ensures i == Victim(buf, order, head)
      ensures i < head ==> forall j :: 0 <= j < head && buf[j].refcnt == 0 ==> stamp[i] <= stamp[j]
    {
      i := prev[head];
      ghost var k := head;
      while i != head
        invariant 0 <= k <= head && i == if k == 0 then head else order[k - 1]
        invariant Victim(buf, order, head) == Victim(buf, order, k)
        invariant forall j :: 0 <= j < head && pos[j] >= k ==> buf[j].refcnt > 0
        decreases k
      {
        if buf[i].refcnt == 0 {
          forall j | 0 <= j < head && buf[j].refcnt == 0 ensures stamp[i] <= stamp[j] {
            assert pos[j] <= pos[i] == k - 1;
            assert pos[j] == pos[i] ==> j == i;
          }
          return;
        }
        i, k := prev[i], k - 1;
      }
    }

    /** The list cache of a valid ring is valid. */
    lemma AbsValid()
      requires Valid()
      ensures Abs().Valid()
    {
      forall i | 0 <= i < head ensures i in order {
        assert order[pos[i]] == i;
      }
    }

    /** bget() and bread() for a real device; `!ok` is the "bget: no buffers" panic. */
    method Bread(d: nat, b: nat, disk: seq<Block>) returns (ok: bool, i: nat)
      requires Valid() && b < |disk| && d != 0
      modifies this`buf
      ensures Valid() && old(Abs()).Valid()
      ensures ok <==> old(Abs()).Slot(d, b) < head
      ensures !ok ==> buf == old(buf)
      ensures ok ==> i == old(Abs()).Slot(d, b) && Abs() == old(Abs()).Bread(d, b, disk)
      ensures ok && !old(buf)[i].Is(d, b) ==>
                forall j :: 0 <= j < head && old(buf)[j].refcnt == 0 ==> stamp[i] <= stamp[j]
    {
      AbsValid();
      i := FindCached(d, b);
      if i != head {
        buf := buf[i := buf[i].Refer(1)];
        ok := true;
      } else {
        i := FindVictim();
        ok := i != head;
        if ok {
          buf := buf[i := Buf(false, d, b, 1, buf[i].data)];
        }
      }
      if ok && !buf[i].valid {
        buf := buf[i := buf[i].(data := disk[b], valid := true)];
      }
    }

    /** brelse() by a holder of the buffer. */
    method Brelse(i: nat)
      requires Valid() && i < head && buf[i].refcnt > 0
      modifies this`buf, this`next, this`prev, this`order, this`pos, this`stamp, this`clock
      ensures Valid() && i in old(order)
      ensures Abs() == old(Abs()).Brelse(i)
      ensures stamp == if buf[i].refcnt == 0 then old(stamp)[i := old(clock)] else old(stamp)
    {
      assert order[pos[i]] == i;
      assert Index(order, i) == pos[i];
      buf := buf[i := buf[i].Refer(-1)];
      if buf[i].refcnt == 0 {
        ToFront(i);
      }
    }

    /** The pointer writes of brelse(). */
    method ToFront(i: nat)
      requires |stamp| == head && Permutation(order, pos, head) && Ring(next, prev, order, pos, head)
      requires Stamped(pos, stamp, clock) && i < head
      modifies this`next, this`prev, this`order, this`pos, this`stamp, this`clock
      ensures |stamp| == head && Permutation(order, pos, head) && Ring(next, prev, order, pos, head)
      ensures Stamped(pos, stamp, clock)
      ensures order == MoveToFront(old(order), old(pos)[i])
      ensures stamp == old(stamp)[i := old(clock)]
    {
      hide Stamped, Succ, Pred, MovedAll, MoveToFront;
      Restamp(pos, stamp, clock, head, i);
      Relink(next, prev, order, pos, head, i);
      prev := prev[next[i] := prev[i]];
      next := next[prev[i] := next[i]];
      next := next[i := next[head]];
      prev := prev[i := head];
      prev := prev[next[head] := i];
      next := next[head := i];
      order, pos := MoveToFront(order, pos[i]), MovedAll(pos, pos[i]);
      stamp := stamp[i := clock];
      clock := clock + 1;
    }

    /** bpin() is n = 1, bunpin() is n = -1; neither moves the buffer. */
    method Bpin(i: nat, n: int)
      requires Valid() && i < head && buf[i].refcnt + n >= 0
      modifies this`buf
      ensures Valid()
      ensures Abs() == old(Abs()).Bpin(i, n)
    {
      buf := buf[i := buf[i].Refer(n)];
    }
  }

  lemma MovePermutation(order: seq<nat>, pos: seq<nat>, n: nat, k: nat)
    requires Permutation(order, pos, n) && k < n
    ensures Permutation(MoveToFront(order, k), MovedAll(pos, k), n)
  {
  }

  /** How moving order[k] to the front changes the successor of each buffer. */
  lemma MovedSucc(order: seq<nat>, pos: seq<nat>, head: nat, i: nat, b: nat)
    requires Permutation(order, pos, head) && i < head && b <= head
    requires Permutation(MoveToFront(order, pos[i]), MovedAll(pos, pos[i]), head)
    ensures Succ(MoveToFront(order, pos[i]), MovedAll(pos, pos[i]), head, b)
         == if b == head then i
            else if pos[i] == 0 then Succ(order, pos, head, b)
            else if b == i then Succ(order, pos, head, head)
            else if b == Pred(order, pos, head, i) then Succ(order, pos, head, i)
            else Succ(order, pos, head, b)
  {
    hide Succ, Pred;
    if b == head || b == i || pos[i] == 0 {
      MovedSuccEnds(order, pos, head, i, b);
    } else {
      MovedSuccRest(order, pos, head, i, b);
    }
  }

  lemma MovedSuccEnds(order: seq<nat>, pos: seq<nat>, head: nat, i: nat, b: nat)
    requires Permutation(order, pos, head) && i < head && b <= head && (b == head || b == i || pos[i] == 0)
    requires Permutation(MoveToFront(order, pos[i]), MovedAll(pos, pos[i]), head)
    ensures Succ(MoveToFront(order, pos[i]), MovedAll(pos, pos[i]), head, b)
         == if b == head then i else if pos[i] == 0 then Succ(order, pos, head, b) else Succ(order, pos, head, head)
  {}

  lemma MovedSuccRest(order: seq<nat>, pos: seq<nat>, head: nat, i: nat, b: nat)
    requires Permutation(order, pos, head) && i < head && b < head && b != i && pos[i] > 0
    requires Permutation(MoveToFront(order, pos[i]), MovedAll(pos, pos[i]), head)
    ensures Succ(MoveToFront(order, pos[i]), MovedAll(pos, pos[i]), head, b)
         == if b == Pred(order, pos, head, i) then Succ(order, pos, head, i) else Succ(order, pos, head, b)
  {
    if pos[b] + 1 < pos[i] {} else if pos[b] + 1 == pos[i] {} else {}
  }

  lemma MovedPred(order: seq<nat>, pos: seq<nat>, head: nat, i: nat, b: nat)
    requires Permutation(order, pos, head) && i < head && b <= head
    requires Permutation(MoveToFront(order, pos[i]), MovedAll(pos, pos[i]), head)
    ensures Pred(MoveToFront(order, pos[i]), MovedAll(pos, pos[i]), head, b)
         == if b == i then head
            else if pos[i] == 0 then Pred(order, pos, head, b)
            else if b == Succ(order, pos, head, head) then i
            else if b == Succ(order, pos, head, i) then Pred(order, pos, head, i)
            else Pred(order, pos, head, b)
  {
    if b < head && b != i {
      if pos[b] < pos[i] {} else if pos[b] == pos[i] + 1 {} else {}
    }
  }

  /** brelse's pointer writes: unlinking buffer i and pushing it at the front turns a ring
      for `order` into a ring for the moved order. */
  lemma Relink(next: seq<nat>, prev: seq<nat>, order: seq<nat>, pos: seq<nat>, head: nat, i: nat)
    requires Permutation(order, pos, head) && Ring(next, prev, order, pos, head) && i < head
    ensures next[i] <= head && prev[i] <= head
    ensures Permutation(MoveToFront(order, pos[i]), MovedAll(pos, pos[i]), head)
    ensures var prev1 := prev[next[i] := prev[i]];
            var next1 := next[prev1[i] := next[i]];
            var next2 := next1[i := next1[head]];
            && next2[head] <= head
            && Ring(next2[head := i], prev1[i := head][next2[head] := i],
                    MoveToFront(order, pos[i]), MovedAll(pos, pos[i]), head)
  {
    MovePermutation(order, pos, head, pos[i]);
    var order', pos' := MoveToFront(order, pos[i]), MovedAll(pos, pos[i]);
    var prev1 := prev[next[i] := prev[i]];
    var next1 := next[prev1[i] := next[i]];
    var next2 := next1[i := next1[head]];
    assert Succ(order, pos, head, i) != i && Pred(order, pos, head, i) != i;
    forall b | 0 <= b <= head
      ensures next2[head := i][b] == Succ(order', pos', head, b)
    {
      MovedSucc(order, pos, head, i, b);
    }
    forall b | 0 <= b <= head
      ensures prev1[i := head][next2[head] := i][b] == Pred(order', pos', head, b)
    {
      MovedPred(order, pos, head, i, b);
    }
  }

  lemma Restamp(pos: seq<nat>, stamp: seq<nat>, clock: nat, head: nat, i: nat)
    requires |pos| == |stamp| == head && i < head && Stamped(pos, stamp, clock)
    requires forall a, b :: 0 <= a < head && 0 <= b < head && a != b ==> pos[a] != pos[b]
    ensures Stamped(MovedAll(pos, pos[i]), stamp[i := clock], clock + 1)
  {
  }
}
