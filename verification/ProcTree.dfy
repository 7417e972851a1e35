/** fork(), reparent(), exit() and wait() of kernel/proc.c as interleaved steps on the process
    table.  What happens under wait_lock in one piece is still split at every process the scans
    of reparent() and wait() look at. */
module ProcTree {

  /** `Alive` stands for RUNNABLE, RUNNING and SLEEPING. */
  datatype ProcState = Unused | Used | Alive | Zombie

  /** Where the process itself is: elsewhere, in fork() with child j before and after the parent
      link is set, in exit() before slot i of reparent(), in wait() before slot i. */
  datatype Place = Elsewhere | Forking(j: nat) | Linked(j: nat) | Exiting(i: nat, status: int) | Waiting(i: nat)

  /** `parent` is a slot, or -1. */
  datatype Proc = Proc(st: ProcState, pid: nat, parent: int, xstate: int, at: Place)

  const EMPTY: Proc := Proc(Unused, 0, -1, 0, Elsewhere)

  /** `lock` is the holder of wait_lock or -1; `exited` and `reaped` record the exits and the
      successful waits so far. */
  datatype Sys = Sys(procs: seq<Proc>, init: nat, lock: int, nextpid: nat, exited: map<nat, int>,
                     reaped: seq<(nat, int)>)

  datatype ForkAct = Take(j: nat) | Fails | Link | Launch
  datatype ExitAct = Begin(status: int) | Reparent | Die
  datatype WaitAct = Enter | Pass | Reap | CopyFails | Leave

  /** A step of process p in fork(), exit() or wait(). */
  datatype Event = Fork(p: nat, f: ForkAct) | Exit(p: nat, x: ExitAct) | Wait(p: nat, w: WaitAct)

  predicate CanFork(s: Sys, p: nat, a: ForkAct) {
    p < |s.procs| && s.procs[p].st.Alive? &&
    var at := s.procs[p].at;
    match a
    case Take(j) => at.Elsewhere? && j < |s.procs| && s.procs[j].st.Unused?
    case Fails => at.Forking? && at.j < |s.procs| && at.j != p
    case Link => at.Forking? && at.j < |s.procs| && at.j != p && s.lock == -1
    case Launch => at.Linked? && at.j < |s.procs| && at.j != p
  }

  predicate CanExit(s: Sys, p: nat, a: ExitAct) {
    p < |s.procs| && s.procs[p].st.Alive? && s.init < |s.procs| &&
    var at := s.procs[p].at;
    match a
    case Begin(_) => at.Elsewhere? && s.lock == -1 && p != s.init        // else panic("init exiting")
    case Reparent => at.Exiting? && at.i < |s.procs|
    case Die => at.Exiting? && at.i >= |s.procs|
  }

  predicate CanWait(s: Sys, p: nat, a: WaitAct) {
    p < |s.procs| && s.procs[p].st.Alive? &&
    var at := s.procs[p].at;
    match a
    case Enter => at.Elsewhere? && s.lock == -1
    case Pass => at.Waiting? && at.i < |s.procs| && !Ready(s, p, at.i)
    case Reap => at.Waiting? && at.i < |s.procs| && Ready(s, p, at.i)
    case CopyFails => at.Waiting? && at.i < |s.procs| && Ready(s, p, at.i)
    case Leave => at.Waiting? && at.i >= |s.procs|                       // return -1, or sleep
  }

  predicate Ready(s: Sys, p: nat, i: nat)
    requires i < |s.procs|
  {
    s.procs[i].parent == p && s.procs[i].st.Zombie?
  }

  function Put(s: Sys, p: nat, x: Proc): Sys
    requires p < |s.procs|
  {
    s.(procs := s.procs[p := x])
  }

  function Move(s: Sys, p: nat, a: Place): Sys
    requires p < |s.procs|
  {
    Put(s, p, s.procs[p].(at := a))
  }

  function ForkStep(s: Sys, p: nat, a: ForkAct): Sys
    requires CanFork(s, p, a)
  {
    var at := s.procs[p].at;
    match a
    case Take(j) => Put(Move(s, p, Forking(j)), j, EMPTY.(st := Used, pid := s.nextpid)).(nextpid := s.nextpid + 1)
    case Fails => Put(Move(s, p, Elsewhere), at.j, EMPTY)
    case Link => Put(Move(s, p, Linked(at.j)), at.j, s.procs[at.j].(parent := p))
    case Launch => Put(Move(s, p, Elsewhere), at.j, s.procs[at.j].(st := Alive))
  }

  function ExitStep(s: Sys, p: nat, a: ExitAct): Sys
    requires CanExit(s, p, a)
  {
    var x := s.procs[p];
    match a
    case Begin(status) => Move(s, p, Exiting(0, status)).(lock := p)
    case Reparent =>
      var t := if s.procs[x.at.i].parent == p then Put(s, x.at.i, s.procs[x.at.i].(parent := s.init)) else s;
      Move(t, p, Exiting(x.at.i + 1, x.at.status))
    case Die =>
      Put(s, p, x.(st := Zombie, xstate := x.at.status, at := Elsewhere)).(lock := -1,
        exited := s.exited[x.pid := x.at.status])
  }

  function WaitStep(s: Sys, p: nat, a: WaitAct): Sys
    requires CanWait(s, p, a)
  {
    var at := s.procs[p].at;
    match a
    case Enter => Move(s, p, Waiting(0)).(lock := p)
    case Pass => Move(s, p, Waiting(at.i + 1))
    case Reap => Put(Move(s, p, Elsewhere), at.i, EMPTY).(lock := -1,
      reaped := s.reaped + [(s.procs[at.i].pid, s.procs[at.i].xstate)])
    case CopyFails => Move(s, p, Elsewhere).(lock := -1)
    case Leave => Move(s, p, Elsewhere).(lock := -1)
  }

  predicate Can(s: Sys, e: Event) {
    match e
    case Fork(p, a) => CanFork(s, p, a)
    case Exit(p, a) => CanExit(s, p, a)
    case Wait(p, a) => CanWait(s, p, a)
  }

  function Step(s: Sys, e: Event): Sys
    requires Can(s, e)
  {
    match e
    case Fork(p, a) => ForkStep(s, p, a)
    case Exit(p, a) => ExitStep(s, p, a)
    case Wait(p, a) => WaitStep(s, p, a)
  }

  // ---- the invariant ---------------------------------------------------------------------------

  /** q's parent is a live process that has not yet passed q in reparent(). */
  ghost predicate HasParent(s: Sys, q: nat)
    requires q < |s.procs|
  {
    var pp := s.procs[q].parent;
    && 0 <= pp < |s.procs| && s.procs[pp].st.Alive?
    && (s.procs[pp].at.Exiting? ==> s.procs[pp].at.i <= q)
  }

  /** Past USED a process has a parent; in USED it may have one that is in fork() with it. */
  ghost predicate TreeOk(s: Sys, q: nat)
    requires q < |s.procs|
  {
    var x := s.procs[q];
    && ((x.st.Alive? || x.st.Zombie?) && q != s.init ==> HasParent(s, q))
    && (x.st.Used? && x.parent != -1 ==>
       0 <= x.parent < |s.procs| && s.procs[x.parent].st.Alive? && s.procs[x.parent].at == Linked(q))
    && (q == s.init ==> x.st.Alive?)
  }

  /** A process's own place agrees with its state, its child in fork() and wait_lock. */
  ghost predicate PlaceOk(s: Sys, q: nat)
    requires q < |s.procs|
  {
    var x := s.procs[q];
    && (x.st.Unused? ==> x == EMPTY)
    && (!x.st.Alive? ==> x.at.Elsewhere?)
    && (x.at.Forking? || x.at.Linked? ==> x.at.j < |s.procs| && x.at.j != q && s.procs[x.at.j].st.Used?)
    && (x.at.Forking? ==> s.procs[x.at.j].parent == -1)
    && (x.at.Linked? ==> s.procs[x.at.j].parent == q)
    && (x.at.Exiting? || x.at.Waiting? ==> s.lock == q)
    && (x.at.Exiting? ==> q != s.init)
  }

  /** A zombie's status is the one it exited with, and pids are issued once. */
  ghost predicate RecordOk(s: Sys, q: nat)
    requires q < |s.procs|
  {
    var x := s.procs[q];
    && (x.st.Zombie? ==> x.pid in s.exited && s.exited[x.pid] == x.xstate)
    && (!x.st.Unused? ==> x.pid < s.nextpid && (x.pid in s.exited ==> x.st.Zombie?))
    && (!x.st.Unused? ==> forall i :: 0 <= i < |s.reaped| ==> s.reaped[i].0 != x.pid)
  }

  /** Two processes have different pids and different children in fork(). */
  ghost predicate Distinct(s: Sys, q: nat, r: nat)
    requires q < |s.procs| && r < |s.procs|
  {
    var x, y := s.procs[q], s.procs[r];
    q != r && !x.st.Unused? && !y.st.Unused? ==>
      x.pid != y.pid && ((x.at.Forking? || x.at.Linked?) && (y.at.Forking? || y.at.Linked?) ==> x.at.j != y.at.j)
  }

  ghost predicate LockOk(s: Sys) {
    s.lock != -1 ==> 0 <= s.lock < |s.procs| && (s.procs[s.lock].at.Exiting? || s.procs[s.lock].at.Waiting?)
  }

  /** What wait() has returned: pids and statuses of processes that exited, no pid twice. */
  ghost predicate ReapedOk(s: Sys) {
    && (forall i :: 0 <= i < |s.reaped| ==> s.reaped[i].0 in s.exited && s.exited[s.reaped[i].0] == s.reaped[i].1)
    && (forall i, j :: 0 <= i < j < |s.reaped| ==> s.reaped[i].0 != s.reaped[j].0)
    && (forall d :: d in s.exited ==> d < s.nextpid)
  }

  ghost predicate Inv(s: Sys) {
    && s.init < |s.procs| && LockOk(s) && ReapedOk(s)
    && (forall q {:trigger TreeOk(s, q)} :: 0 <= q < |s.procs| ==> TreeOk(s, q))
    && (forall q {:trigger PlaceOk(s, q)} :: 0 <= q < |s.procs| ==> PlaceOk(s, q))
    && (forall q {:trigger RecordOk(s, q)} :: 0 <= q < |s.procs| ==> RecordOk(s, q))
    && (forall q, r {:trigger Distinct(s, q, r)} :: 0 <= q < |s.procs| && 0 <= r < |s.procs| ==> Distinct(s, q, r))
  }

  // ---- every step keeps it ----------------------------------------------------------------------

  lemma ForkTree(s: Sys, p: nat, a: ForkAct, q: nat)
    requires CanFork(s, p, a) && q < |s.procs| && PlaceOk(s, p) && TreeOk(s, q) && TreeOk(s, p)
    ensures TreeOk(ForkStep(s, p, a), q)
  {}

  lemma ForkPlace(s: Sys, p: nat, a: ForkAct, q: nat)
    requires CanFork(s, p, a) && q < |s.procs| && PlaceOk(s, p) && PlaceOk(s, q) && Distinct(s, p, q)
    ensures PlaceOk(ForkStep(s, p, a), q)
  {}

  lemma ForkRecord(s: Sys, p: nat, a: ForkAct, q: nat)
    requires CanFork(s, p, a) && q < |s.procs| && PlaceOk(s, p) && RecordOk(s, q) && ReapedOk(s)
    ensures RecordOk(ForkStep(s, p, a), q)
  {}

  lemma ForkDistinct(s: Sys, p: nat, a: ForkAct, q: nat, r: nat)
    requires CanFork(s, p, a) && q < |s.procs| && r < |s.procs| && Distinct(s, q, r) && PlaceOk(s, p)
    requires PlaceOk(s, q) && PlaceOk(s, r)
    requires RecordOk(s, q) && RecordOk(s, r)
    ensures Distinct(ForkStep(s, p, a), q, r)
  {}

  lemma ForkRest(s: Sys, p: nat, a: ForkAct)
    requires CanFork(s, p, a) && PlaceOk(s, p) && LockOk(s) && ReapedOk(s) && (s.lock != -1 ==> PlaceOk(s, s.lock))
    ensures LockOk(ForkStep(s, p, a)) && ReapedOk(ForkStep(s, p, a))
  {}

  lemma ExitTree(s: Sys, p: nat, a: ExitAct, q: nat)
    requires CanExit(s, p, a) && q < |s.procs| && PlaceOk(s, p) && TreeOk(s, q) && TreeOk(s, s.init)
               && PlaceOk(s, s.init)
    ensures TreeOk(ExitStep(s, p, a), q)
  {}

  lemma ExitPlace(s: Sys, p: nat, a: ExitAct, q: nat)
    requires CanExit(s, p, a) && q < |s.procs| && PlaceOk(s, p) && PlaceOk(s, q)
    ensures PlaceOk(ExitStep(s, p, a), q)
  {}

  lemma ExitRecord(s: Sys, p: nat, a: ExitAct, q: nat)
    requires CanExit(s, p, a) && q < |s.procs| && RecordOk(s, q) && RecordOk(s, p) && Distinct(s, p, q)
    ensures RecordOk(ExitStep(s, p, a), q)
  {}

  lemma ExitDistinct(s: Sys, p: nat, a: ExitAct, q: nat, r: nat)
    requires CanExit(s, p, a) && q < |s.procs| && r < |s.procs| && Distinct(s, q, r) && PlaceOk(s, p)
    ensures Distinct(ExitStep(s, p, a), q, r)
  {}

  lemma ExitRest(s: Sys, p: nat, a: ExitAct)
    requires CanExit(s, p, a) && PlaceOk(s, p) && RecordOk(s, p) && LockOk(s) && ReapedOk(s)
    ensures LockOk(ExitStep(s, p, a)) && ReapedOk(ExitStep(s, p, a))
  {}

  lemma WaitTree(s: Sys, p: nat, a: WaitAct, q: nat)
    requires CanWait(s, p, a) && q < |s.procs| && PlaceOk(s, p) && TreeOk(s, q)
    ensures TreeOk(WaitStep(s, p, a), q)
  {}

  lemma WaitPlace(s: Sys, p: nat, a: WaitAct, q: nat)
    requires CanWait(s, p, a) && q < |s.procs| && PlaceOk(s, p) && PlaceOk(s, q)
    ensures PlaceOk(WaitStep(s, p, a), q)
  {}

  lemma WaitRecord(s: Sys, p: nat, a: WaitAct, t: nat, q: nat)
    requires CanWait(s, p, a) && q < |s.procs| && RecordOk(s, q)
    requires t < |s.procs| && (s.procs[p].at.Waiting? && s.procs[p].at.i < |s.procs| ==> t == s.procs[p].at.i)
               && Distinct(s, t, q)
    ensures RecordOk(WaitStep(s, p, a), q)
  {}

  lemma WaitDistinct(s: Sys, p: nat, a: WaitAct, q: nat, r: nat)
    requires CanWait(s, p, a) && q < |s.procs| && r < |s.procs| && Distinct(s, q, r)
    ensures Distinct(WaitStep(s, p, a), q, r)
  {}

  lemma WaitRest(s: Sys, p: nat, a: WaitAct, t: nat)
    requires CanWait(s, p, a) && PlaceOk(s, p) && LockOk(s) && ReapedOk(s)
    requires t < |s.procs| && (s.procs[p].at.Waiting? && s.procs[p].at.i < |s.procs| ==> t == s.procs[p].at.i)
               && RecordOk(s, t)
    ensures LockOk(WaitStep(s, p, a)) && ReapedOk(WaitStep(s, p, a))
  {}

  lemma LockHolder(s: Sys)
    requires Inv(s)
    ensures s.lock != -1 ==> 0 <= s.lock < |s.procs| && PlaceOk(s, s.lock)
  {
    hide TreeOk, PlaceOk, RecordOk, Distinct, ReapedOk;
  }

  lemma ForkInv(s: Sys, p: nat, a: ForkAct)
    requires Inv(s) && CanFork(s, p, a)
    ensures Inv(ForkStep(s, p, a))
  {
    hide TreeOk, PlaceOk, RecordOk, Distinct, LockOk, ReapedOk;
    var r := ForkStep(s, p, a);
    assert PlaceOk(s, p) && TreeOk(s, p) && RecordOk(s, p) && TreeOk(s, s.init) && PlaceOk(s, s.init);
    forall q | 0 <= q < |r.procs| ensures TreeOk(r, q) { assert TreeOk(s, q); ForkTree(s, p, a, q); }
    forall q | 0 <= q < |r.procs|
      ensures PlaceOk(r, q)
    {
      assert PlaceOk(s, q) && Distinct(s, p, q);
      ForkPlace(s, p, a, q);
    }
    forall q | 0 <= q < |r.procs| ensures RecordOk(r, q) { assert RecordOk(s, q); ForkRecord(s, p, a, q); }
    forall q, t | 0 <= q < |r.procs| && 0 <= t < |r.procs| ensures Distinct(r, q, t) {
      assert Distinct(s, q, t) && PlaceOk(s, q) && PlaceOk(s, t) && RecordOk(s, q) && RecordOk(s, t);
      ForkDistinct(s, p, a, q, t);
    }
    LockHolder(s);
    ForkRest(s, p, a);
  }

  lemma ExitInv(s: Sys, p: nat, a: ExitAct)
    requires Inv(s) && CanExit(s, p, a)
    ensures Inv(ExitStep(s, p, a))
  {
    hide TreeOk, PlaceOk, RecordOk, Distinct, LockOk, ReapedOk;
    var r := ExitStep(s, p, a);
    assert PlaceOk(s, p) && TreeOk(s, p) && RecordOk(s, p) && TreeOk(s, s.init) && PlaceOk(s, s.init);
    forall q | 0 <= q < |r.procs| ensures TreeOk(r, q) { assert TreeOk(s, q); ExitTree(s, p, a, q); }
    forall q | 0 <= q < |r.procs| ensures PlaceOk(r, q) { assert PlaceOk(s, q); ExitPlace(s, p, a, q); }
    forall q | 0 <= q < |r.procs|
      ensures RecordOk(r, q)
    {
      assert RecordOk(s, q) && Distinct(s, p, q);
      ExitRecord(s, p, a, q);
    }
    forall q, t | 0 <= q < |r.procs| && 0 <= t < |r.procs| ensures Distinct(r, q, t) {
      assert Distinct(s, q, t) && PlaceOk(s, q) && PlaceOk(s, t) && RecordOk(s, q) && RecordOk(s, t);
      ExitDistinct(s, p, a, q, t);
    }
    ExitRest(s, p, a);
  }

  lemma WaitInv(s: Sys, p: nat, a: WaitAct)
    requires Inv(s) && CanWait(s, p, a)
    ensures Inv(WaitStep(s, p, a))
  {
    hide TreeOk, PlaceOk, RecordOk, Distinct, LockOk, ReapedOk;
    var r := WaitStep(s, p, a);
    var t0 := if s.procs[p].at.Waiting? && s.procs[p].at.i < |s.procs| then s.procs[p].at.i else p;
    assert PlaceOk(s, p) && TreeOk(s, p) && RecordOk(s, p) && TreeOk(s, s.init) && PlaceOk(s, s.init);
    forall q | 0 <= q < |r.procs| ensures TreeOk(r, q) { assert TreeOk(s, q); WaitTree(s, p, a, q); }
    forall q | 0 <= q < |r.procs| ensures PlaceOk(r, q) { assert PlaceOk(s, q); WaitPlace(s, p, a, q); }
    forall q | 0 <= q < |r.procs|
      ensures RecordOk(r, q)
    {
      assert RecordOk(s, q) && Distinct(s, t0, q);
      WaitRecord(s, p, a, t0, q);
    }
    forall q, t | 0 <= q < |r.procs| && 0 <= t < |r.procs| ensures Distinct(r, q, t) {
      assert Distinct(s, q, t) && PlaceOk(s, q) && PlaceOk(s, t) && RecordOk(s, q) && RecordOk(s, t);
      WaitDistinct(s, p, a, q, t);
    }
    assert RecordOk(s, t0);
    WaitRest(s, p, a, t0);
  }

  // ---- whole runs --------------------------------------------------------------------------------

  /** The first process, in slot 0 of n. */
  function Boot(n: nat): Sys
    requires n > 0
  {
    Sys(seq(n, i => if i == 0 then Proc(Alive, 1, -1, 0, Elsewhere) else EMPTY), 0, -1, 2, map[], [])
  }

  ghost predicate Run(s: Sys, es: seq<Event>, t: Sys)
    decreases |es|
  {
    if es == [] then s == t else Can(s, es[0]) && Run(Step(s, es[0]), es[1..], t)
  }

  lemma BootInv(n: nat)
    requires n > 0
    ensures Inv(Boot(n))
  {}

  lemma {:induction false} RunInv(s: Sys, es: seq<Event>, t: Sys)
    requires Inv(s) && Run(s, es, t)
    ensures Inv(t) && t.init == s.init
    decreases |es|
  {
    hide Inv, CanFork, CanExit, CanWait;
    if es != [] {
      match es[0] {
        case Fork(p, a) => ForkInv(s, p, a);
        case Exit(p, a) => ExitInv(s, p, a);
        case Wait(p, a) => WaitInv(s, p, a);
      }
      RunInv(Step(s, es[0]), es[1..], t);
    }
  }

  /** Process-tree safety: in every reachable state a process past USED, other than init, has a
      parent that is neither free nor a zombie; in particular whenever wait_lock is free. */
  lemma TreeSafe(n: nat, es: seq<Event>, s: Sys, q: nat)
    requires n > 0 && Run(Boot(n), es, s) && q < |s.procs| && q != s.init
               && (s.procs[q].st.Alive? || s.procs[q].st.Zombie?)
    ensures 0 <= s.procs[q].parent < |s.procs| && s.procs[s.procs[q].parent].st.Alive?
  {
    BootInv(n);
    RunInv(Boot(n), es, s);
    assert TreeOk(s, q);
  }

  /** init is never gone, so there is always somebody to adopt orphans. */
  lemma InitLives(n: nat, es: seq<Event>, s: Sys)
    requires n > 0 && Run(Boot(n), es, s)
    ensures s.init < |s.procs| && s.procs[s.init].st.Alive?
  {
    BootInv(n);
    RunInv(Boot(n), es, s);
    assert TreeOk(s, s.init);
  }

  /** Each exit is reaped at most once, with the status it gave. */
  lemma ReapedOnce(n: nat, es: seq<Event>, s: Sys, i: nat, j: nat)
    requires n > 0 && Run(Boot(n), es, s) && i < |s.reaped| && j < |s.reaped|
    ensures s.reaped[i].0 in s.exited && s.exited[s.reaped[i].0] == s.reaped[i].1
    ensures s.reaped[i].0 == s.reaped[j].0 ==> i == j
  {
    BootInv(n);
    RunInv(Boot(n), es, s);
  }
}
