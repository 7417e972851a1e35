/** The virtio disk driver (kernel/virtio_disk.c) and the device it talks to, as steps on the
    shared descriptor table and rings of section 2.6 of VIRTIO v1.1.  The driver's steps run
    under vdisk_lock; the device's steps may come between any two of them, in any order. */
module Virtio {

  const NUM: nat := 8
  const TWO16: nat := 65536

  /** What a descriptor points to: the operation of head h, the data of buffer b, the status of
      head h. */
  datatype Addr = Null | OpOf(h: nat) | DataOf(b: nat) | StatusOf(h: nat)

  /** `write` is VRING_DESC_F_WRITE: the device writes this memory. */
  datatype Desc = Desc(addr: Addr, len: nat, write: bool, hasNext: bool, next: nat)

  /** struct virtio_blk_req; `write` is VIRTIO_BLK_T_OUT. */
  datatype Op = Op(write: bool, sector: nat)

  /** info[i] and ops[i]. */
  datatype Info = Info(b: nat, status: nat, op: Op)

  /** How far a request has come.  `Prepared`: in the avail ring but not yet published; `Done`:
      `disk` is cleared and the chain not yet freed. */
  datatype Phase = Prepared | Queued | Fetched | Used | Done

  datatype Req = Req(i1: nat, i2: nat, b: nat, op: Op, phase: Phase)

  function NoDesc(): Desc { Desc(Null, 0, false, false, 0) }

  function OpDesc(h: nat, next: nat): Desc { Desc(OpOf(h), 16, false, true, next) }

  /** The device writes the buffer exactly when it is to read the disk. */
  function DataDesc(b: nat, write: bool, next: nat): Desc { Desc(DataOf(b), 1024, !write, true, next) }

  function StatusDesc(h: nat): Desc { Desc(StatusOf(h), 1, true, false, 0) }

  function At8(n: nat): (r: nat)
    ensures r < NUM
  {
    n % NUM
  }

  /** uint16 arithmetic. */
  function U16(n: nat): nat { n % TWO16 }

  predicate NoDup(s: seq<nat>) { forall i, j :: 0 <= i < j < |s| ==> s[i] != s[j] }

  /** Requests by chain head, the heads in the avail ring not yet fetched, the one written there
      but not yet published, the heads in the used ring not yet seen, and how many entries the
      device has fetched and the driver has seen. */
  datatype Ghost = Ghost(reqs: map<nat, Req>, own: map<nat, nat>, home: map<nat, nat>, q: seq<nat>, prep: seq<nat>,
                         u: seq<nat>, nFetched: nat, nSeen: nat) {

    /** Descriptors split into free ones and disjoint three-link chains. */
    ghost predicate Chains(free: seq<bool>, desc: seq<Desc>) {
      && |free| == NUM && |desc| == NUM
      && (forall i :: 0 <= i < NUM ==> (free[i] <==> i !in own))
      && (forall i :: i in own ==> i < NUM && own[i] in reqs && i in {own[i], reqs[own[i]].i1, reqs[own[i]].i2})
      && (forall h :: h in reqs ==> Chain(h, desc))
    }

    ghost predicate Chain(h: nat, desc: seq<Desc>)
      requires h in reqs && |desc| == NUM
    {
      var r := reqs[h];
      && h in own && r.i1 in own && r.i2 in own && own[h] == h && own[r.i1] == h && own[r.i2] == h
      && h != r.i1 && h != r.i2 && r.i1 != r.i2 && h < NUM && r.i1 < NUM && r.i2 < NUM
      && desc[h] == OpDesc(h, r.i1) && desc[r.i1] == DataDesc(r.b, r.op.write, r.i2) && desc[r.i2] == StatusDesc(h)
    }

    lemma NotInUse(free: seq<bool>, desc: seq<Desc>, h: nat)
      requires Chains(free, desc) && h < NUM && free[h]
      ensures h !in reqs && h !in own
    {
      assert h in reqs ==> Chain(h, desc);
    }

    /** What is in free descriptors does not matter. */
    lemma UnusedKept(free: seq<bool>, desc: seq<Desc>, d: seq<Desc>)
      requires Chains(free, desc) && |d| == NUM && forall i :: 0 <= i < NUM && !free[i] ==> d[i] == desc[i]
      ensures Chains(free, d)
    {
      hide OpDesc, DataDesc, StatusDesc;
      forall h | h in reqs ensures Chain(h, d) { assert Chain(h, desc); }
    }

    ghost function Added(h: nat, r: Req): Ghost {
      this.(reqs := reqs[h := r], own := own[h := h][r.i1 := h][r.i2 := h], home := home[r.b := h], prep := [h])
    }

    /** A chain that shares no descriptor with x, y, z is untouched by writes to those. */
    lemma ChainKept(g: Ghost, free: seq<bool>, desc: seq<Desc>, d: seq<Desc>, k: nat, x: nat, y: nat, z: nat)
      requires Chains(free, desc) && k in reqs && x < NUM && y < NUM && z < NUM && free[x] && free[y] && free[z]
      requires |d| == NUM && forall i :: 0 <= i < NUM && i != x && i != y && i != z ==> d[i] == desc[i]
      requires k in g.reqs && g.reqs[k] == reqs[k]
                 && forall i :: i in own && i != x && i != y && i != z ==> i in g.own && g.own[i] == own[i]
      ensures g.Chain(k, d)
    {
      hide OpDesc, DataDesc, StatusDesc;
      assert Chain(k, desc);
    }

    lemma AddedOwn(free: seq<bool>, desc: seq<Desc>, h: nat, r: Req, i: nat)
      requires Chains(free, desc) && h < NUM && r.i1 < NUM && r.i2 < NUM && h !in reqs && i in Added(h, r).own
      ensures var g := Added(h, r);
              i < NUM && g.own[i] in g.reqs && i in {g.own[i], g.reqs[g.own[i]].i1, g.reqs[g.own[i]].i2}
    {}

    lemma AddedChains(free: seq<bool>, desc: seq<Desc>, h: nat, r: Req)
      requires Chains(free, desc) && h < NUM && r.i1 < NUM && r.i2 < NUM && h != r.i1 && h != r.i2 && r.i1 != r.i2
      requires free[h] && free[r.i1] && free[r.i2]
      ensures Added(h, r).Chains(
                free[h := false][r.i1 := false][r.i2 := false],
                desc[h := OpDesc(h, r.i1)][r.i1 := DataDesc(r.b, r.op.write, r.i2)][r.i2 := StatusDesc(h)])
    {
      hide Ghost.Chain;
      var g := Added(h, r);
      var d := desc[h := OpDesc(h, r.i1)][r.i1 := DataDesc(r.b, r.op.write, r.i2)][r.i2 := StatusDesc(h)];
      NotInUse(free, desc, h);
      forall k | k in g.reqs ensures g.Chain(k, d) {
        if k != h { ChainKept(g, free, desc, d, k, h, r.i1, r.i2); } else { NewChain(d, h, r); }
      }
      forall i | i in g.own
        ensures i < NUM && g.own[i] in g.reqs && i in {g.own[i], g.reqs[g.own[i]].i1, g.reqs[g.own[i]].i2}
      {
        AddedOwn(free, desc, h, r, i);
      }
    }

    lemma NewChain(d: seq<Desc>, h: nat, r: Req)
      requires |d| == NUM && h < NUM && r.i1 < NUM && r.i2 < NUM && h != r.i1 && h != r.i2 && r.i1 != r.i2
      requires d[h] == OpDesc(h, r.i1) && d[r.i1] == DataDesc(r.b, r.op.write, r.i2) && d[r.i2] == StatusDesc(h)
      ensures Added(h, r).Chain(h, d)
    {}

    lemma AddedBuffers(info: seq<Info>, busy: set<nat>, h: nat, r: Req)
      requires Buffers(info, busy) && h < NUM && h !in reqs && r.b !in busy && r.phase == Prepared
      requires forall k :: k in reqs ==> reqs[k].b != r.b
      ensures Added(h, r).Buffers(info[h := Info(r.b, 0xff, r.op)], busy + {r.b})
    {}

    lemma HeadInfo(info: seq<Info>, busy: set<nat>, h: nat)
      requires Buffers(info, busy) && h in reqs
      ensures h < NUM && info[h].op == reqs[h].op && info[h].b == reqs[h].b
                && (reqs[h].phase != Done ==> reqs[h].b in busy)
    {}

    lemma HeadRange(info: seq<Info>, busy: set<nat>, h: nat)
      requires Buffers(info, busy) && h in reqs
      ensures h < NUM
    {}

    /** The ring entry of a new request is written before the index moves, and beyond it. */
    lemma AddedRings(info: seq<Info>, busy: set<nat>, avail: seq<nat>, availIdx: nat, devIdx: nat, used: seq<nat>,
                     usedIdx: nat, seenIdx: nat, h: nat, r: Req)
      requires Buffers(info, busy) && Queues() && Rings(avail, availIdx, devIdx, used, usedIdx, seenIdx) && h < NUM
      requires h !in reqs && prep == [] && r.phase == Prepared
      ensures Added(h, r).Queues()
      ensures Added(h, r).Rings(avail[At8(availIdx) := h], availIdx, devIdx, used, usedIdx, seenIdx)
    {
      hide At8, U16, Ghost.Buffers;
      forall i | 0 <= i < |q| ensures q[i] < NUM && q[i] != h { assert q[i] in q; HeadRange(info, busy, q[i]); }
      Room(q, h);
      Slot(nFetched + |q|);
      assert q + prep == q;
      PushRing(avail, nFetched, q, h);
    }

    ghost function Published(): Ghost
      requires prep != [] && prep[0] in reqs
    {
      Moved(prep[0], Queued).(q := q + prep, prep := [])
    }

    lemma PublishKeeps(avail: seq<nat>, availIdx: nat, devIdx: nat, used: seq<nat>, usedIdx: nat, seenIdx: nat)
      requires Queues() && Rings(avail, availIdx, devIdx, used, usedIdx, seenIdx) && prep != []
      ensures prep[0] in reqs && reqs[prep[0]].phase == Prepared && prep == [prep[0]]
      ensures Published().Queues() && Published().Rings(avail, U16(availIdx + 1), devIdx, used, usedIdx, seenIdx)
    {
      hide At8, U16;
      assert prep[0] in prep;
      Slot(nFetched + |q|);
      assert q + prep + [] == q + prep;
    }

    /** A request moving on: nothing but its phase changes. */
    ghost function Moved(h: nat, p: Phase): Ghost
      requires h in reqs
    {
      this.(reqs := reqs[h := reqs[h].(phase := p)])
    }

    lemma MovedChains(h: nat, p: Phase, free: seq<bool>, desc: seq<Desc>)
      requires h in reqs && Chains(free, desc)
      ensures Moved(h, p).Chains(free, desc)
    {
      forall k | k in Moved(h, p).reqs ensures Moved(h, p).Chain(k, desc) { assert Chain(k, desc); }
    }

    lemma MovedBuffers(h: nat, p: Phase, info: seq<Info>, busy: set<nat>, st: nat)
      requires h in reqs && Buffers(info, busy) && reqs[h].phase != Done
      ensures h < NUM && Moved(h, p).Buffers(info[h := info[h].(status := st)], if p == Done then busy - {reqs[h].b}
                else busy)
    {}

    ghost function FetchedFirst(): Ghost
      requires q != [] && q[0] in reqs
    {
      Moved(q[0], Fetched).(q := q[1..], nFetched := nFetched + 1)
    }

    lemma FetchKeeps(avail: seq<nat>, availIdx: nat, devIdx: nat, used: seq<nat>, usedIdx: nat, seenIdx: nat)
      requires Queues() && Rings(avail, availIdx, devIdx, used, usedIdx, seenIdx) && q != []
      ensures avail[At8(devIdx)] == q[0] && q[0] in reqs && reqs[q[0]].phase == Queued
      ensures FetchedFirst().Queues() && FetchedFirst().Rings(avail, availIdx, U16(devIdx + 1), used, usedIdx, seenIdx)
    {
      hide At8, U16;
      Slot(nFetched);
      assert q[0] in q;
      assert At8(nFetched + 0) == At8(nFetched);
      PopQueue(q);
      assert (q + prep)[0] == q[0];
      forall j | 0 <= j < |q[1..] + prep| ensures avail[At8(nFetched + 1 + j)] == (q[1..] + prep)[j] {
        assert (q[1..] + prep)[j] == (q + prep)[j + 1] && nFetched + 1 + j == nFetched + (j + 1);
      }
    }

    ghost function FinishedOne(h: nat): Ghost
      requires h in reqs
    {
      Moved(h, Used).(u := u + [h])
    }

    lemma FinishKeeps(info: seq<Info>, busy: set<nat>, avail: seq<nat>, availIdx: nat, devIdx: nat, used: seq<nat>,
                      usedIdx: nat, seenIdx: nat, h: nat)
      requires Buffers(info, busy) && Queues() && Rings(avail, availIdx, devIdx, used, usedIdx, seenIdx) && h in reqs
      requires reqs[h].phase == Fetched
      ensures FinishedOne(h).Queues() && FinishedOne(h).Rings(avail, availIdx, devIdx, used[At8(usedIdx) := h],
                U16(usedIdx + 1), seenIdx)
    {
      hide At8, U16, Ghost.Buffers;
      forall i | 0 <= i < |u| ensures u[i] < NUM && u[i] != h { assert u[i] in u; HeadRange(info, busy, u[i]); }
      HeadRange(info, busy, h);
      Room(u, h);
      Slot(nSeen + |u|);
      PushRing(used, nSeen, u, h);
    }

    ghost function SeenFirst(): Ghost
      requires u != [] && u[0] in reqs
    {
      Moved(u[0], Done).(u := u[1..], nSeen := nSeen + 1)
    }

    lemma SeenKeeps(avail: seq<nat>, availIdx: nat, devIdx: nat, used: seq<nat>, usedIdx: nat, seenIdx: nat)
      requires Queues() && Rings(avail, availIdx, devIdx, used, usedIdx, seenIdx) && u != []
      ensures used[At8(seenIdx)] == u[0] && u[0] in reqs && reqs[u[0]].phase == Used
      ensures SeenFirst().Queues() && SeenFirst().Rings(avail, availIdx, devIdx, used, usedIdx, U16(seenIdx + 1))
    {
      hide At8, U16;
      Slot(nSeen);
      assert u[0] in u;
      assert At8(nSeen + 0) == At8(nSeen);
      PopQueue(u);
      forall j | 0 <= j < |u| - 1 ensures used[At8(nSeen + 1 + j)] == u[1..][j] {
        assert u[1..][j] == u[j + 1] && nSeen + 1 + j == nSeen + (j + 1);
      }
    }

    /** The requests once those in `heads` are completed. */
    ghost function Completed(heads: seq<nat>): map<nat, Req> {
      map h | h in reqs :: if h in heads then reqs[h].(phase := Done) else reqs[h]
    }

    lemma CompletedNone()
      ensures Completed(u[..0]) == reqs
    {}

    lemma SeenHeads()
      requires Queues()
      ensures forall h :: h in u ==> h in reqs
    {}

    lemma CompletedBusy(g: Ghost, info: seq<Info>, busy0: set<nat>, busy: set<nat>)
      requires Buffers(info, busy0) && g.Buffers(info, busy) && g.reqs == Completed(u)
      ensures forall h :: h in reqs ==> (reqs[h].b in busy <==> reqs[h].b in busy0 && h !in u)
    {}

    lemma CompletedStep(k: nat)
      requires Queues() && k < |u|
      ensures u[k] in u && u[k] in reqs && u[k] !in u[..k] && u[k] in Completed(u[..k])
      ensures Completed(u[..k])[u[k] := Completed(u[..k])[u[k]].(phase := Done)] == Completed(u[..k + 1])
    {
      assert u[k] in u;
      assert u[..k + 1] == u[..k] + [u[k]];
    }

    /** The chain of h is free again. */
    ghost function Freed(h: nat): Ghost
      requires h in reqs
    {
      this.(reqs := reqs - {h}, own := own - {h, reqs[h].i1, reqs[h].i2}, home := home - {reqs[h].b})
    }

    lemma FreedChains(h: nat, free: seq<bool>, desc: seq<Desc>, f: seq<bool>, d: seq<Desc>)
      requires h in reqs && Chains(free, desc) && |f| == NUM && |d| == NUM && Chain(h, desc)
      requires f == free[h := true][reqs[h].i1 := true][reqs[h].i2 := true]
      requires forall i :: 0 <= i < NUM && i != h && i != reqs[h].i1 && i != reqs[h].i2 ==> d[i] == desc[i]
      ensures Freed(h).Chains(f, d)
    {
      hide Ghost.Chain;
      var g := Freed(h);
      FreedOwn(h, free, desc);
      forall k | k in g.reqs ensures g.Chain(k, d) { FreedOther(h, k, desc, d); }
    }

    lemma FreedOther(h: nat, k: nat, desc: seq<Desc>, d: seq<Desc>)
      requires h in reqs && k in reqs && k != h && |desc| == |d| == NUM && Chain(h, desc) && Chain(k, desc)
      requires forall i :: 0 <= i < NUM && i != h && i != reqs[h].i1 && i != reqs[h].i2 ==> d[i] == desc[i]
      ensures Freed(h).Chain(k, d)
    {
      hide OpDesc, DataDesc, StatusDesc;
    }

    lemma FreedOwn(h: nat, free: seq<bool>, desc: seq<Desc>)
      requires h in reqs && Chains(free, desc)
      ensures h < NUM && reqs[h].i1 < NUM && reqs[h].i2 < NUM
      ensures forall i ::
                i in Freed(h).own ==> own[i] in Freed(h).reqs && i in {own[i], reqs[own[i]].i1, reqs[own[i]].i2}
    {
      assert Chain(h, desc);
    }

    lemma FreedRest(h: nat, info: seq<Info>, busy: set<nat>)
      requires h in reqs && Buffers(info, busy) && Queues() && reqs[h].phase == Done
      ensures h < NUM && Freed(h).Buffers(info[h := info[h].(b := 0)], busy) && Freed(h).Queues()
    {}

    /** Queue positions do not matter to chains and buffers. */
    lemma Requeued(h: nat, p: Phase, n: Ghost, free: seq<bool>, desc: seq<Desc>, info: seq<Info>, busy: set<nat>)
      requires h in reqs && n.reqs == Moved(h, p).reqs && n.own == own && n.home == home
      requires Moved(h, p).Chains(free, desc) && Moved(h, p).Buffers(info, busy)
      ensures n.Chains(free, desc) && n.Buffers(info, busy)
    {
      forall k | k in n.reqs ensures n.Chain(k, desc) { assert Moved(h, p).Chain(k, desc); }
    }

    lemma ChainRange(h: nat, desc: seq<Desc>)
      requires h in reqs && |desc| == NUM && Chain(h, desc)
      ensures h < NUM && reqs[h].i1 < NUM && reqs[h].i2 < NUM
    {}

    lemma FreedRings(h: nat, avail: seq<nat>, availIdx: nat, devIdx: nat, used: seq<nat>, usedIdx: nat, seenIdx: nat)
      requires h in reqs && Rings(avail, availIdx, devIdx, used, usedIdx, seenIdx)
      ensures Freed(h).Rings(avail, availIdx, devIdx, used, usedIdx, seenIdx)
    {}

    /** info[] and `disk` flags: a buffer is busy exactly while its request is under way. */
    ghost predicate Buffers(info: seq<Info>, busy: set<nat>) {
      && |info| == NUM
      && (forall h :: h in reqs ==> h < NUM && info[h].b == reqs[h].b && reqs[h].b in home && home[reqs[h].b] == h)
      && (forall h :: h in reqs ==> info[h].op == reqs[h].op)
      && (forall h :: h in reqs ==> (reqs[h].b in busy <==> reqs[h].phase != Done))
      && (forall b :: b in busy ==> b in home && home[b] in reqs && reqs[home[b]].b == b)
    }

    ghost predicate Queues() {
      && NoDup(q) && NoDup(u) && |prep| <= 1
      && (forall h :: h in prep <==> h in reqs && reqs[h].phase == Prepared)
      && (forall h :: h in q <==> h in reqs && reqs[h].phase == Queued)
      && (forall h :: h in u <==> h in reqs && reqs[h].phase == Used)
    }

    /** The rings hold the two queues and the entry not yet published, and the 16-bit indices
        wrap. */
    ghost predicate Rings(avail: seq<nat>, availIdx: nat, devIdx: nat, used: seq<nat>, usedIdx: nat, seenIdx: nat) {
      && |avail| == NUM && |used| == NUM && |q + prep| <= NUM && |u| <= NUM
      && availIdx == U16(nFetched + |q|) && devIdx == U16(nFetched)
      && usedIdx == U16(nSeen + |u|) && seenIdx == U16(nSeen)
      && (forall j :: 0 <= j < |q + prep| ==> avail[At8(nFetched + j)] == (q + prep)[j])
      && (forall j :: 0 <= j < |u| ==> used[At8(nSeen + j)] == u[j])
    }
  }

  /** Ring slots survive the wrap because NUM divides 2^16. */
  lemma Slot(n: nat)
    ensures At8(U16(n)) == At8(n) && U16(U16(n) + 1) == U16(n + 1)
  {
    assert n == n / TWO16 * TWO16 + n % TWO16;
  }

  lemma SlotsDiffer(n: nat, i: nat, j: nat)
    requires i < j < i + NUM
    ensures At8(n + i) != At8(n + j)
  {}

  /** A queue is empty exactly when the two 16-bit indices agree. */
  lemma IndexTest(n: nat, k: nat)
    requires k <= NUM
    ensures U16(n + k) == U16(n) <==> k == 0
  {}

  lemma {:induction false} Pigeons(s: seq<nat>, k: set<nat>)
    requires NoDup(s) && forall i :: 0 <= i < |s| ==> s[i] in k
    ensures |s| <= |k|
    decreases |s|
  {
    if s != [] {
      var x := s[|s| - 1];
      Pigeons(s[..|s| - 1], k - {x});
    }
  }

  /** A queue of chain heads that lacks one has a free ring slot. */
  lemma Room(s: seq<nat>, h: nat)
    requires NoDup(s) && (forall i :: 0 <= i < |s| ==> s[i] < NUM) && h < NUM && h !in s
    ensures |s| < NUM
  {
    var k: set<nat> := {0, 1, 2, 3, 4, 5, 6, 7};
    assert forall i :: 0 <= i < |s| ==> s[i] in k - {h};
    Pigeons(s, k - {h});
  }

  lemma PushRing(ring: seq<nat>, n: nat, s: seq<nat>, h: nat)
    requires |ring| == NUM && |s| < NUM && forall j :: 0 <= j < |s| ==> ring[At8(n + j)] == s[j]
    ensures var r := ring[At8(n + |s|) := h]; forall j :: 0 <= j < |s| + 1 ==> r[At8(n + j)] == (s + [h])[j]
  {
    hide At8;
    var r := ring[At8(n + |s|) := h];
    forall j | 0 <= j < |s| + 1 ensures r[At8(n + j)] == (s + [h])[j] {
      if j < |s| { SlotsDiffer(n, j, |s|); }
    }
  }

  lemma PopQueue(s: seq<nat>)
    requires s != [] && NoDup(s)
    ensures NoDup(s[1..]) && forall h :: h in s[1..] <==> h in s && h != s[0]
  {
    forall h | h in s && h != s[0] ensures h in s[1..] {
      var i :| 0 <= i < |s| && s[i] == h;
      assert s[1..][i - 1] == h;
    }
  }

  /** Fewer than three descriptors are free. */
  ghost predicate Scarce(free: seq<bool>) { exists i, j :: OnlyFree(free, i, j) }

  ghost predicate OnlyFree(free: seq<bool>, i: nat, j: nat) {
    forall k :: 0 <= k < |free| && free[k] ==> k == i || k == j
  }

  class Disk {
    // shared with the device
    var desc: seq<Desc>
    var avail: seq<nat>
    var availIdx: nat
    var used: seq<nat>
    var usedIdx: nat
    // the driver's own
    var free: seq<bool>
    var seenIdx: nat            // used_idx
    var info: seq<Info>
    var busy: set<nat>          // the buffers with disk == 1
    // the device's own
    var devIdx: nat
    ghost var g: Ghost

    ghost predicate Valid()
      reads this
    {
      && |info| == NUM && |avail| == NUM && |used| == NUM
      && g.Chains(free, desc) && g.Buffers(info, busy) && g.Queues()
      && g.Rings(avail, availIdx, devIdx, used, usedIdx, seenIdx)
    }

    constructor ()
      ensures Valid() && g.reqs == map[] && busy == {} && forall i :: 0 <= i < NUM ==> free[i]
    {
      desc, free := seq(NUM, _ => NoDesc()), seq(NUM, _ => true);
      avail, used := seq(NUM, _ => 0), seq(NUM, _ => 0);
      info := seq(NUM, _ => Info(0, 0, Op(false, 0)));
      availIdx, usedIdx, seenIdx, devIdx, busy := 0, 0, 0, 0, {};
      g := Ghost(map[], map[], map[], [], [], [], 0, 0);
    }

    /** alloc_desc(): the first free descriptor; NUM when there is none. */
    method AllocDesc() returns (i: nat)
      requires |free| == NUM
      modifies this`free
      ensures i <= NUM && |free| == NUM
      ensures i == NUM ==> free == old(free) && forall j :: 0 <= j < NUM ==> !free[j]
      ensures i < NUM ==> old(free)[i] && free == old(free)[i := false] && forall j :: 0 <= j < i ==> !old(free)[j]
    {
      i := 0;
      while i < NUM
        invariant i <= NUM && free == old(free) && forall j :: 0 <= j < i ==> !free[j]
      {
        if free[i] {
          free := free[i := false];
          return;
        }
        i := i + 1;
      }
    }

    /** free_desc(); `!ok` is one of its two panics. */
    method FreeDesc(i: nat) returns (ok: bool)
      requires |free| == NUM && |desc| == NUM
      modifies this`free, this`desc
      ensures ok <==> i < NUM && !old(free)[i]
      ensures ok ==> free == old(free)[i := true] && desc == old(desc)[i := NoDesc()]
      ensures !ok ==> free == old(free) && desc == old(desc)
    {
      if i >= NUM || free[i] {
        return false;
      }
      desc, free := desc[i := NoDesc()], free[i := true];
      ok := true;
    }

    /** alloc3_desc(): three different free descriptors, or the table as it was if there are not so
        many. */
    method Alloc3() returns (ok: bool, i0: nat, i1: nat, i2: nat)
      requires |free| == NUM && |desc| == NUM
      modifies this`free, this`desc
      ensures |free| == NUM && |desc| == NUM
      ensures !ok ==> free == old(free) && forall i :: 0 <= i < NUM && !free[i] ==> desc[i] == old(desc)[i]
      ensures !ok ==> Scarce(free)
      ensures ok ==> i0 < NUM && i1 < NUM && i2 < NUM && i0 != i1 && i0 != i2 && i1 != i2 && desc == old(desc)
      ensures ok ==>
                old(free)[i0] && old(free)[i1] && old(free)[i2]
                  && free == old(free)[i0 := false][i1 := false][i2 := false]
    {
      ok, i1, i2 := false, 0, 0;
      i0 := AllocDesc();
      if i0 == NUM {
        assert OnlyFree(free, 0, 0);
        return;
      }
      i1 := AllocDesc();
      if i1 == NUM {
        var _ := FreeDesc(i0);
        assert free == old(free);
        assert OnlyFree(free, i0, i0);
        return;
      }
      i2 := AllocDesc();
      if i2 == NUM {
        var _ := FreeDesc(i0);
        var _ := FreeDesc(i1);
        assert free == old(free);
        assert OnlyFree(free, i0, i1);
        return;
      }
      ok := true;
    }

    /** virtio_disk_rw() up to the first barrier: the chain is formatted and its head is in the ring,
        but the index the device looks at has not moved.  `!ok` means it has to sleep for
        descriptors.  The caller holds the buffer, so no request for it is under way, and the
        lock, so no other request is being prepared. */
    method Prepare(b: nat, blockno: nat, write: bool) returns (ok: bool, h: nat)
      requires Valid() && b !in busy && g.prep == [] && forall k :: k in g.reqs ==> g.reqs[k].b != b
      modifies this`free, this`desc, this`avail, this`info, this`busy, this`g
      ensures Valid()
      ensures !ok ==> g == old(g) && busy == old(busy) && free == old(free) && Scarce(free)
      ensures ok ==>
                h !in old(g).reqs && h in g.reqs && g.reqs == old(g).reqs[h := g.reqs[h]] && h < NUM && old(free)[h]
      ensures ok ==> g.reqs[h].b == b && g.reqs[h].phase == Prepared && g.reqs[h].op == Op(write, 2 * blockno)
      ensures ok ==> busy == old(busy) + {b} && g.prep == [h] && g.q == old(g).q && g.u == old(g).u
    {
      hide Ghost.Rings, Ghost.Queues, Ghost.Buffers, Ghost.Chain, At8, U16;
      var i1, i2;
      ok, h, i1, i2 := Alloc3();
      if !ok {
        g.UnusedKept(free, old(desc), desc);
        return;
      }
      ghost var g0 := g;
      g0.NotInUse(old(free), old(desc), h);
      desc := desc[h := OpDesc(h, i1)][i1 := DataDesc(b, write, i2)][i2 := StatusDesc(h)];
      info := info[h := Info(b, 0xff, Op(write, 2 * blockno))];
      busy := busy + {b};
      ghost var r := Req(i1, i2, b, Op(write, 2 * blockno), Prepared);
      g := g0.Added(h, r);
      g0.AddedRings(old(info), old(busy), avail, availIdx, devIdx, used, usedIdx, seenIdx, h, r);
      avail := avail[At8(availIdx) := h];
      g0.AddedChains(old(free), old(desc), h, r);
      g0.AddedBuffers(old(info), old(busy), h, r);
    }

    /** The increment of the avail index: from here on the device may take the chain. */
    method Publish()
      requires Valid() && g.prep != []
      modifies this`availIdx, this`g
      ensures Valid() && old(g).prep[0] in old(g).reqs && g == old(g).Published() && g.q == old(g).q + old(g).prep
    {
      hide Ghost.Chains, Ghost.Buffers, Ghost.Queues, Ghost.Rings, At8, U16;
      ghost var h := g.prep[0];
      g.PublishKeeps(avail, availIdx, devIdx, used, usedIdx, seenIdx);
      g.MovedChains(h, Queued, free, desc);
      g.HeadRange(info, busy, h);
      g.MovedBuffers(h, Queued, info, busy, info[h].status);
      assert info[h := info[h].(status := info[h].status)] == info;
      g.Requeued(h, Queued, g.Published(), free, desc, info, busy);
      availIdx := U16(availIdx + 1);
      g := g.Published();
    }

    /** The device takes the next published chain from the avail ring, if there is one, and
        follows it: it finds the operation and the data buffer that were submitted. */
    method DeviceFetch() returns (some: bool, h: nat, op: Op, data: Desc, status: Desc)
      requires Valid()
      modifies this`devIdx, this`g
      ensures Valid() && (some <==> old(g).q != [])
      ensures some ==>
                h == old(g).q[0] && h in old(g).reqs && g.reqs == old(g).reqs[h := old(g).reqs[h].(phase := Fetched)]
      ensures some ==> var r := old(g).reqs[h];
                       op == r.op && data.addr == DataOf(r.b) && data.len == 1024 && (data.write <==> !r.op.write)
                       && status == StatusDesc(h)
      ensures some ==> g.q == old(g).q[1..] && g.prep == old(g).prep && g.u == old(g).u
      ensures !some ==> g == old(g)
    {
      hide Ghost.Buffers, Ghost.Queues, At8, U16;
      h, op, data, status := 0, Op(false, 0), NoDesc(), NoDesc();
      IndexTest(g.nFetched, |g.q|);
      some := devIdx != availIdx;
      if some {
        h := avail[At8(devIdx)];
        g.FetchKeeps(avail, availIdx, devIdx, used, usedIdx, seenIdx);
        g.HeadRange(info, busy, h);
        assert g.Chain(h, desc);
        g.HeadInfo(info, busy, h);
        op := info[desc[h].addr.h].op;
        data := desc[desc[h].next];
        status := desc[data.next];
        Fetch(h);
      }
    }

    method Fetch(h: nat)
      requires Valid() && g.q != [] && h == g.q[0]
      modifies this`devIdx, this`g
      ensures Valid() && h in old(g).reqs && g == old(g).FetchedFirst()
    {
      hide Ghost.Chains, Ghost.Buffers, Ghost.Queues, Ghost.Rings, At8, U16;
      g.FetchKeeps(avail, availIdx, devIdx, used, usedIdx, seenIdx);
      g.MovedChains(h, Fetched, free, desc);
      g.HeadRange(info, busy, h);
      g.MovedBuffers(h, Fetched, info, busy, info[h].status);
      assert info[h := info[h].(status := info[h].status)] == info;
      g.Requeued(h, Fetched, g.FetchedFirst(), free, desc, info, busy);
      devIdx := U16(devIdx + 1);
      g := g.FetchedFirst();
    }

    /** The device finishes any chain it has fetched, with a status byte, in any order. */
    method DeviceFinish(h: nat, st: nat)
      requires Valid() && h in g.reqs && g.reqs[h].phase == Fetched
      modifies this`info, this`used, this`usedIdx, this`g
      ensures Valid() && g.reqs == old(g).reqs[h := old(g).reqs[h].(phase := Used)] && g.u == old(g).u + [h]
      ensures |info| == |old(info)| && h < |info| && info == old(info)[h := old(info)[h].(status := st)]
    {
      hide Ghost.Chains, Ghost.Buffers, Ghost.Queues, Ghost.Rings, At8, U16;
      g.FinishKeeps(info, busy, avail, availIdx, devIdx, used, usedIdx, seenIdx, h);
      g.MovedChains(h, Used, free, desc);
      g.MovedBuffers(h, Used, info, busy, st);
      g.Requeued(h, Used, g.FinishedOne(h), free, desc, info[h := info[h].(status := st)], busy);
      info := info[h := info[h].(status := st)];
      used := used[At8(usedIdx) := h];
      usedIdx := U16(usedIdx + 1);
      g := g.FinishedOne(h);
    }

    /** One round of virtio_disk_intr()'s loop: `disk` is cleared on exactly the buffer that was
        submitted with the finished head.  `!ok` is the status panic. */
    method IntrOne() returns (ok: bool, b: nat)
      requires Valid() && seenIdx != usedIdx
      modifies this`busy, this`seenIdx, this`g
      ensures old(g).u != [] && old(g).u[0] in old(g).reqs && old(g).u[0] < |info|
      ensures ok <==> info[old(g).u[0]].status == 0
      ensures ok ==>
                Valid() && b == old(g).reqs[old(g).u[0]].b && b in old(busy) && busy == old(busy) - {b}
                  && g == old(g).SeenFirst()
      ensures !ok ==> g == old(g) && busy == old(busy) && seenIdx == old(seenIdx)
    {
      hide Ghost.Chains, Ghost.Queues, Ghost.Buffers, Ghost.Rings, At8, U16;
      RingEmpty();
      g.SeenKeeps(avail, availIdx, devIdx, used, usedIdx, seenIdx);
      var id := used[At8(seenIdx)];
      g.HeadInfo(info, busy, id);
      b := 0;
      if info[id].status != 0 {
        return false, b;
      }
      b := info[id].b;
      g.MovedChains(id, Done, free, desc);
      g.MovedBuffers(id, Done, info, busy, info[id].status);
      assert info[id := info[id].(status := info[id].status)] == info;
      g.Requeued(id, Done, g.SeenFirst(), free, desc, info, busy - {b});
      busy := busy - {b};
      seenIdx := U16(seenIdx + 1);
      g := g.SeenFirst();
      ok := true;
    }

    /** virtio_disk_intr() with no device step in between: exactly the requests in the used ring are
        completed and their buffers released; it panics exactly if one of them failed. */
    method Intr() returns (ok: bool)
      requires Valid()
      modifies this`busy, this`seenIdx, this`g
      ensures |info| == NUM && forall h :: h in old(g).u ==> h < NUM
      ensures ok <==> forall h :: h in old(g).u ==> info[h].status == 0
      ensures ok ==> Valid() && g.u == [] && g.q == old(g).q && g.prep == old(g).prep
      ensures ok ==> g.reqs == old(g).Completed(old(g).u)
      ensures ok ==> busy <= old(busy) && forall h :: h in old(g).reqs ==>
                (old(g).reqs[h].b in busy <==> old(g).reqs[h].b in old(busy) && h !in old(g).u)
    {
      hide Ghost.Chains, Ghost.Buffers, Ghost.Rings, Ghost.Queues, Ghost.Completed, At8, U16;
      ok := true;
      ghost var k, g0 := 0, g;
      g0.SeenHeads();
      forall h | h in g0.u ensures h < NUM { g0.HeadRange(info, busy, h); }
      g0.CompletedNone();
      while seenIdx != usedIdx
        invariant Valid() && ok && k <= |g0.u| && g.u == g0.u[k..] && g.q == g0.q && g.prep == g0.prep
        invariant g.reqs == g0.Completed(g0.u[..k])
        invariant forall h :: h in g0.u[..k] ==> h < |info| && info[h].status == 0
        invariant busy <= old(busy)
        decreases |g.u|
      {
        ghost var g1 := g;
        var b;
        ok, b := IntrOne();
        assert g1.u[0] == g0.u[k] && g0.u[k] in g0.u;
        if !ok {
          return;
        }
        assert g0.u[..k + 1] == g0.u[..k] + [g0.u[k]];
        g0.CompletedStep(k);
        k := k + 1;
      }
      RingEmpty();
      assert g0.u[..k] == g0.u;
      g0.CompletedBusy(g, info, old(busy), busy);
    }

    lemma RingEmpty()
      requires Valid()
      ensures seenIdx == usedIdx <==> g.u == []
    {
      IndexTest(g.nSeen, |g.u|);
    }

    /** free_chain(): exactly the three descriptors of the chain. */
    method FreeChain(h: nat) returns (ok: bool)
      requires h in g.reqs && g.Chains(free, desc) && g.Chain(h, desc)
      modifies this`free, this`desc
      ensures ok && |desc| == NUM && free == old(free)[h := true][g.reqs[h].i1 := true][g.reqs[h].i2 := true]
      ensures forall i :: 0 <= i < NUM && i != h && i != g.reqs[h].i1 && i != g.reqs[h].i2 ==> desc[i] == old(desc)[i]
    {
      ghost var r := g.reqs[h];
      var i, more := h, true;
      ghost var k := 0;
      ok := true;
      while more
        invariant k <= 3 && more == (k < 3) && ok && |free| == NUM && |desc| == NUM
        invariant k < 3 ==> i == if k == 0 then h else if k == 1 then r.i1 else r.i2
        invariant k == 0 ==> free == old(free)
        invariant k == 1 ==> free == old(free)[h := true]
        invariant k == 2 ==> free == old(free)[h := true][r.i1 := true]
        invariant k == 3 ==> free == old(free)[h := true][r.i1 := true][r.i2 := true]
        invariant k <= 1 ==> desc[r.i1] == old(desc)[r.i1]
        invariant k <= 2 ==> desc[r.i2] == old(desc)[r.i2]
        invariant k == 0 ==> desc[h] == old(desc)[h]
        invariant forall j :: 0 <= j < NUM && j != h && j != r.i1 && j != r.i2 ==> desc[j] == old(desc)[j]
        decreases 3 - k
      {
        var flag, nxt := desc[i].hasNext, desc[i].next;
        ok := FreeDesc(i);
        k := k + 1;
        if flag { i := nxt; } else { more := false; }
      }
    }

    /** The end of virtio_disk_rw(), once `disk` is clear: the request is gone. */
    method Finish(h: nat) returns (ok: bool)
      requires Valid() && h in g.reqs && g.reqs[h].b !in busy
      modifies this`info, this`free, this`desc, this`g
      ensures ok && Valid() && g.reqs == old(g).reqs - {h} && g.q == old(g).q && g.u == old(g).u
                && g.prep == old(g).prep
    {
      hide Ghost.Queues, Ghost.Rings, Ghost.Chain;
      ghost var g0 := g;
      assert g0.Chain(h, desc);
      g0.ChainRange(h, desc);
      info := info[h := info[h].(b := 0)];
      ok := FreeChain(h);
      g0.FreedChains(h, old(free), old(desc), free, desc);
      g0.FreedRest(h, old(info), busy);
      g0.FreedRings(h, avail, availIdx, devIdx, used, usedIdx, seenIdx);
      g := g0.Freed(h);
    }
  }
}
