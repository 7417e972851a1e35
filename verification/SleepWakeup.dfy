/** sleep(), wakeup(), sched() and scheduler() of kernel/proc.c as a machine of interleaved
    steps.  A step is what one CPU does between two lock operations; lock operations are atomic.
    Sleepers test their condition under the channel's lock and call sleep() with it; wakers,
    which are processes or interrupt handlers on idle CPUs, call wakeup() with it held. */
module SleepWakeup {

  /** A channel, and the spinlock that protects the condition waited for on it. */
  datatype Chan = Chan(lock: nat, id: nat)

  datatype ProcState = Sleeping | Runnable | Running

  /** Where a process is in the kernel. */
  datatype Pc =
    | Free                      // holds none of these locks
    | Hold(c: Chan)             // holds c.lock
    | Tested(c: Chan)           // in sleep(), after the failed test: about to take its own lock
    | Both(c: Chan)             // has both locks, about to release c.lock
    | Marking(c: Chan)          // about to set chan and SLEEPING
    | Leaving(c: Chan)          // SLEEPING, about to swtch
    | Parked(c: Chan)           // switched out inside sleep()
    | Resumed(c: Chan)          // switched in again, still with its own lock
    | Relock(c: Chan)           // about to take c.lock again
    | Waking(c: Chan, i: nat)   // in wakeup(), before process i
    | Checking(c: Chan, i: nat) // in wakeup(), with the lock of process i
    | Yielding                  // in yield(), RUNNABLE, with its own lock
    | YieldParked               // switched out inside yield(); for a handler, not running
    | YieldResumed

  datatype Holder = Nobody | Thread(q: nat) | Scheduler(k: nat)

  /** What a CPU does: idle between processes, looking at one with its lock held, running one,
      or back from one with its lock still held. */
  datatype Cpu = Idle | Looking(p: nat) | Runs(p: nat) | Back(p: nat)

  /** With `irq`, the context of an interrupt handler on an otherwise idle CPU: it takes locks and
      wakes processes, but is not in the process table, never sleeps and is not scheduled.  A
      handler that interrupts a process counts as that process. */
  datatype Proc = Proc(st: ProcState, chan: Chan, lock: Holder, pc: Pc, cpu: nat, mark: nat, irq: bool)

  /** `started` and `finished` count the wakeups on a channel; `mark` of a process is the number
      started when it last tested its condition, and `cpu` the CPU that last ran it. */
  datatype Sys = Sys(procs: seq<Proc>, cpus: seq<Cpu>, held: map<nat, nat>, started: map<Chan, nat>,
                     finished: map<Chan, nat>)

  function Get(m: map<Chan, nat>, c: Chan): nat { if c in m then m[c] else 0 }

  // The steps, by what part of the code they belong to: taking and leaving a channel's lock and
  // sleep(); wakeup() and kill(); and swtch(), scheduler(), yield() and interrupts of an idle CPU.
  datatype SleepAct = Acquire(c: Chan) | Release | TestFails | OwnLock | Unlock | Mark | Tidy | Reacquire
  datatype WakeAct = Start | Lock | Skip | Check | End | Kill(t: nat)
  datatype SchedAct = Switch(p: nat) | SchedRelease | Look(p: nat) | Pass | Run | Yield(p: nat) | YieldDone(p: nat)
                    | Enter(p: nat) | Leave(p: nat)

  /** A step taken on CPU k; process p runs there in the first two cases. */
  datatype Event = Sleep(k: nat, p: nat, a: SleepAct) | Wakeup(k: nat, p: nat, w: WakeAct) | Sched(k: nat, d: SchedAct)

  /** Process p executes on CPU k. */
  predicate At(s: Sys, k: nat, p: nat) { k < |s.cpus| && p < |s.procs| && s.cpus[k] == Runs(p) }

  predicate CanSleep(s: Sys, k: nat, p: nat, a: SleepAct) {
    At(s, k, p) &&
    var x := s.procs[p];
    match a
    case Acquire(c) => x.pc.Free? && c.lock !in s.held
    case Release => x.pc.Hold?
    case TestFails => x.pc.Hold? && !x.irq
    case OwnLock => x.pc.Tested? && x.lock.Nobody?
    case Unlock => x.pc.Both?
    case Mark => x.pc.Marking?
    case Tidy => x.pc.Resumed?
    case Reacquire => x.pc.Relock? && x.pc.c.lock !in s.held
  }

  predicate CanWake(s: Sys, k: nat, p: nat, a: WakeAct) {
    At(s, k, p) &&
    var x := s.procs[p];
    match a
    case Start => x.pc.Hold?
    case Lock =>
      x.pc.Waking? && x.pc.i < |s.procs| && x.pc.i != p && !s.procs[x.pc.i].irq && s.procs[x.pc.i].lock.Nobody?
    case Skip => x.pc.Waking? && x.pc.i < |s.procs| && (x.pc.i == p || s.procs[x.pc.i].irq)
    case Check => x.pc.Checking? && x.pc.i < |s.procs| && x.pc.i != p
    case End => x.pc.Waking? && x.pc.i >= |s.procs|
    case Kill(t) => x.pc.Free? && t < |s.procs| && !s.procs[t].irq && s.procs[t].lock.Nobody?
  }

  predicate CanSched(s: Sys, k: nat, a: SchedAct) {
    k < |s.cpus| &&
    match a
    case Switch(p) => At(s, k, p) && (s.procs[p].pc.Leaving? || s.procs[p].pc.Yielding?)
    case SchedRelease => s.cpus[k].Back? && s.cpus[k].p < |s.procs|
    case Look(p) => s.cpus[k].Idle? && p < |s.procs| && !s.procs[p].irq && s.procs[p].lock.Nobody?
    case Pass => s.cpus[k].Looking? && s.cpus[k].p < |s.procs| && !s.procs[s.cpus[k].p].st.Runnable?
    case Run => s.cpus[k].Looking? && s.cpus[k].p < |s.procs| && s.procs[s.cpus[k].p].st.Runnable?
    case Yield(p) => At(s, k, p) && !s.procs[p].irq && s.procs[p].pc.Free? && s.procs[p].lock.Nobody?
    case YieldDone(p) => At(s, k, p) && s.procs[p].pc.YieldResumed?
    case Enter(p) => s.cpus[k].Idle? && p < |s.procs| && s.procs[p].irq && s.procs[p].pc.YieldParked?
    case Leave(p) => At(s, k, p) && s.procs[p].irq && s.procs[p].pc.Free?
  }

  predicate CanDo(s: Sys, e: Event) {
    match e
    case Sleep(k, p, a) => CanSleep(s, k, p, a)
    case Wakeup(k, p, a) => CanWake(s, k, p, a)
    case Sched(k, a) => CanSched(s, k, a)
  }

  function Put(s: Sys, p: nat, x: Proc): Sys
    requires p < |s.procs|
  {
    s.(procs := s.procs[p := x])
  }

  function SleepStep(s: Sys, k: nat, p: nat, a: SleepAct): Sys
    requires CanSleep(s, k, p, a)
  {
    var x := s.procs[p];
    match a
    case Acquire(c) => Put(s, p, x.(pc := Hold(c))).(held := s.held[c.lock := p])
    case Release => Put(s, p, x.(pc := Free)).(held := s.held - {x.pc.c.lock})
    case TestFails => Put(s, p, x.(pc := Tested(x.pc.c), mark := Get(s.started, x.pc.c)))
    case OwnLock => Put(s, p, x.(pc := Both(x.pc.c), lock := Thread(p)))
    case Unlock => Put(s, p, x.(pc := Marking(x.pc.c))).(held := s.held - {x.pc.c.lock})
    case Mark => Put(s, p, x.(pc := Leaving(x.pc.c), chan := x.pc.c, st := Sleeping))
    case Tidy => Put(s, p, x.(pc := Relock(x.pc.c), chan := Chan(0, 0), lock := Nobody))
    case Reacquire => Put(s, p, x.(pc := Hold(x.pc.c))).(held := s.held[x.pc.c.lock := p])
  }

  function WakeStep(s: Sys, k: nat, p: nat, a: WakeAct): Sys
    requires CanWake(s, k, p, a)
  {
    var x := s.procs[p];
    match a
    case Start => Put(s, p, x.(pc := Waking(x.pc.c, 0))).(started := s.started[x.pc.c := Get(s.started, x.pc.c) + 1])
    case Lock => Put(Put(s, p, x.(pc := Checking(x.pc.c, x.pc.i))), x.pc.i, s.procs[x.pc.i].(lock := Thread(p)))
    case Skip => Put(s, p, x.(pc := Waking(x.pc.c, x.pc.i + 1)))
    case Check =>
      var t := s.procs[x.pc.i];
      var st := if t.st.Sleeping? && t.chan == x.pc.c then Runnable else t.st;
      Put(Put(s, p, x.(pc := Waking(x.pc.c, x.pc.i + 1))), x.pc.i, t.(lock := Nobody, st := st))
    case End => Put(s, p, x.(pc := Hold(x.pc.c))).(finished := s.finished[x.pc.c := Get(s.finished, x.pc.c) + 1])
    case Kill(t) => if s.procs[t].st.Sleeping? then Put(s, t, s.procs[t].(st := Runnable)) else s
  }

  function SchedStep(s: Sys, k: nat, a: SchedAct): Sys
    requires CanSched(s, k, a)
  {
    match a
    case Switch(p) =>
      var pc := if s.procs[p].pc.Leaving? then Parked(s.procs[p].pc.c) else YieldParked;
      Put(s, p, s.procs[p].(pc := pc, lock := Scheduler(k))).(cpus := s.cpus[k := Back(p)])
    case SchedRelease => var p := s.cpus[k].p; Put(s, p, s.procs[p].(lock := Nobody)).(cpus := s.cpus[k := Idle])
    case Look(p) => Put(s, p, s.procs[p].(lock := Scheduler(k))).(cpus := s.cpus[k := Looking(p)])
    case Pass => var p := s.cpus[k].p; Put(s, p, s.procs[p].(lock := Nobody)).(cpus := s.cpus[k := Idle])
    case Run =>
      var p := s.cpus[k].p;
      var pc := if s.procs[p].pc.Parked? then Resumed(s.procs[p].pc.c) else YieldResumed;
      Put(s, p, s.procs[p].(pc := pc, st := Running, lock := Thread(p), cpu := k)).(cpus := s.cpus[k := Runs(p)])
    case Yield(p) => Put(s, p, s.procs[p].(pc := Yielding, lock := Thread(p), st := Runnable))
    case YieldDone(p) => Put(s, p, s.procs[p].(pc := Free, lock := Nobody))
    case Enter(p) => Put(s, p, s.procs[p].(pc := Free, st := Running, cpu := k)).(cpus := s.cpus[k := Runs(p)])
    case Leave(p) => Put(s, p, s.procs[p].(pc := YieldParked, st := Runnable)).(cpus := s.cpus[k := Idle])
  }

  function Step(s: Sys, e: Event): Sys
    requires CanDo(s, e)
  {
    match e
    case Sleep(k, p, a) => SleepStep(s, k, p, a)
    case Wakeup(k, p, a) => WakeStep(s, k, p, a)
    case Sched(k, a) => SchedStep(s, k, a)
  }

  // ---- the invariant ---------------------------------------------------------------------------

  /** Places where a process has its own lock. */
  predicate OwnLocked(pc: Pc) {
    pc.Both? || pc.Marking? || pc.Leaving? || pc.Resumed? || pc.Yielding? || pc.YieldResumed?
  }

  /** Places where it has the channel's lock. */
  predicate ChanLocked(pc: Pc) { pc.Hold? || pc.Tested? || pc.Both? || pc.Waking? || pc.Checking? }

  predicate Off(pc: Pc) { pc.Parked? || pc.YieldParked? }

  predicate InWakeup(pc: Pc, c: Chan) { (pc.Waking? || pc.Checking?) && pc.c == c }

  /** Lock holders and places agree. */
  ghost predicate LockOk(s: Sys, p: nat)
    requires p < |s.procs|
  {
    var x := s.procs[p];
    && (OwnLocked(x.pc) ==> x.lock == Thread(p))
    && (x.lock.Thread? ==>
          && x.lock.q < |s.procs|
          && if x.lock.q == p then OwnLocked(x.pc) else s.procs[x.lock.q].pc.Checking? && s.procs[x.lock.q].pc.i == p)
    && (x.lock.Scheduler? ==> x.lock.k < |s.cpus| && (s.cpus[x.lock.k] == Looking(p) || s.cpus[x.lock.k] == Back(p)))
    && (x.pc.Checking? ==> x.pc.i < |s.procs| && x.pc.i != p && s.procs[x.pc.i].lock == Thread(p))
  }

  ghost predicate ChanOk(s: Sys, p: nat)
    requires p < |s.procs|
  {
    var pc := s.procs[p].pc;
    ChanLocked(pc) ==> pc.c.lock in s.held && s.held[pc.c.lock] == p
  }

  /** State, place and CPU agree. */
  ghost predicate StateOk(s: Sys, p: nat)
    requires p < |s.procs|
  {
    var x := s.procs[p];
    && (x.st.Running? <==> !Off(x.pc) && !x.pc.Leaving? && !x.pc.Yielding?)
    && (x.pc.Leaving? ==> x.st.Sleeping? && x.chan == x.pc.c)
    && (x.pc.Parked? ==> x.chan == x.pc.c)
    && (x.pc.Yielding? || x.pc.YieldParked? ==> x.st.Runnable?)
    && (!Off(x.pc) ==> x.cpu < |s.cpus| && s.cpus[x.cpu] == Runs(p))
    && (x.irq ==> x.lock.Nobody? && (x.pc.Free? || x.pc.Hold? || x.pc.Waking? || x.pc.Checking? || x.pc.YieldParked?))
  }

  ghost predicate CpuOk(s: Sys, k: nat)
    requires k < |s.cpus|
  {
    match s.cpus[k]
    case Idle => true
    case Runs(p) => p < |s.procs| && !Off(s.procs[p].pc) && s.procs[p].cpu == k
    case Looking(p) => p < |s.procs| && s.procs[p].lock == Scheduler(k)
    case Back(p) => p < |s.procs| && s.procs[p].lock == Scheduler(k) && Off(s.procs[p].pc)
  }

  ghost predicate HeldOk(s: Sys) {
    forall l ::
      l in s.held ==> s.held[l] < |s.procs| && ChanLocked(s.procs[s.held[l]].pc) && s.procs[s.held[l]].pc.c.lock == l
  }

  /** At most one wakeup on a channel is under way, and only under the channel's lock. */
  ghost predicate CountOk(s: Sys, c: Chan) {
    && Get(s.finished, c) <= Get(s.started, c) <= Get(s.finished, c) + 1
    && (Get(s.started, c) > Get(s.finished, c) <==>
       c.lock in s.held && s.held[c.lock] < |s.procs| && InWakeup(s.procs[s.held[c.lock]].pc, c))
  }

  /** Between the failed test and the wakeup. */
  predicate Pending(x: Proc) {
    x.pc.Tested? || x.pc.Both? || x.pc.Marking? || x.pc.Leaving? || (x.pc.Parked? && x.st.Sleeping?)
  }

  /** No wakeup has finished since the test, and one that has started has not passed this
      process. */
  ghost predicate NotMissed(s: Sys, p: nat)
    requires p < |s.procs|
  {
    var x := s.procs[p];
    Pending(x) ==>
      var c := x.pc.c;
      && Get(s.finished, c) == x.mark
      && (Get(s.started, c) > x.mark ==>
            && c.lock in s.held && s.held[c.lock] < |s.procs|
            && InWakeup(s.procs[s.held[c.lock]].pc, c) && s.procs[s.held[c.lock]].pc.i <= p)
  }

  ghost predicate Inv(s: Sys) {
    && (forall p {:trigger LockOk(s, p)} :: 0 <= p < |s.procs| ==> LockOk(s, p))
    && (forall p {:trigger ChanOk(s, p)} :: 0 <= p < |s.procs| ==> ChanOk(s, p))
    && (forall p {:trigger StateOk(s, p)} :: 0 <= p < |s.procs| ==> StateOk(s, p))
    && (forall p {:trigger NotMissed(s, p)} :: 0 <= p < |s.procs| ==> NotMissed(s, p))
    && (forall k {:trigger CpuOk(s, k)} :: 0 <= k < |s.cpus| ==> CpuOk(s, k))
    && (forall c {:trigger CountOk(s, c)} :: CountOk(s, c))
    && HeldOk(s)
  }

  // ---- every step keeps it ----------------------------------------------------------------------

  lemma SleepLockOk(s: Sys, k: nat, p: nat, a: SleepAct, q: nat)
    requires CanSleep(s, k, p, a) && q < |s.procs| && LockOk(s, p) && LockOk(s, q) && StateOk(s, p)
    ensures LockOk(SleepStep(s, k, p, a), q)
  {
    hide LockOk;
    if p == q { SleepLockSelf(s, k, p, a); } else { SleepLockOther(s, k, p, a, q); }
  }

  lemma SleepLockSelf(s: Sys, k: nat, p: nat, a: SleepAct)
    requires CanSleep(s, k, p, a) && LockOk(s, p) && StateOk(s, p)
    ensures LockOk(SleepStep(s, k, p, a), p)
  {}

  lemma SleepLockOther(s: Sys, k: nat, p: nat, a: SleepAct, q: nat)
    requires CanSleep(s, k, p, a) && q < |s.procs| && p != q && LockOk(s, p) && LockOk(s, q)
    ensures LockOk(SleepStep(s, k, p, a), q)
  {}

  lemma SleepChanOk(s: Sys, k: nat, p: nat, a: SleepAct, q: nat)
    requires CanSleep(s, k, p, a) && q < |s.procs| && ChanOk(s, p) && ChanOk(s, q)
    ensures ChanOk(SleepStep(s, k, p, a), q)
  {}

  lemma SleepStateOk(s: Sys, k: nat, p: nat, a: SleepAct, q: nat)
    requires CanSleep(s, k, p, a) && q < |s.procs| && StateOk(s, p) && StateOk(s, q)
    ensures StateOk(SleepStep(s, k, p, a), q)
  {}

  lemma SleepNotMissed(s: Sys, k: nat, p: nat, a: SleepAct, q: nat)
    requires CanSleep(s, k, p, a) && q < |s.procs| && ChanOk(s, p) && ChanOk(s, q) && StateOk(s, p)
    requires NotMissed(s, p) && NotMissed(s, q)
    requires s.procs[p].pc.Hold? ==> CountOk(s, s.procs[p].pc.c)
    ensures NotMissed(SleepStep(s, k, p, a), q)
  {}

  lemma SleepCpuOk(s: Sys, k: nat, p: nat, a: SleepAct, j: nat)
    requires CanSleep(s, k, p, a) && j < |s.cpus| && CpuOk(s, j) && CpuOk(s, k) && StateOk(s, p) && LockOk(s, p)
    ensures CpuOk(SleepStep(s, k, p, a), j)
  {}

  lemma SleepCountOk(s: Sys, k: nat, p: nat, a: SleepAct, c: Chan)
    requires CanSleep(s, k, p, a) && CountOk(s, c) && ChanOk(s, p)
    ensures CountOk(SleepStep(s, k, p, a), c)
  {}

  lemma SleepHeldOk(s: Sys, k: nat, p: nat, a: SleepAct)
    requires CanSleep(s, k, p, a) && HeldOk(s) && ChanOk(s, p)
    ensures HeldOk(SleepStep(s, k, p, a))
  {}

  lemma WakeLockOk(s: Sys, k: nat, p: nat, a: WakeAct, q: nat)
    requires CanWake(s, k, p, a) && q < |s.procs| && LockOk(s, p) && LockOk(s, q)
    ensures LockOk(WakeStep(s, k, p, a), q)
  {
    hide LockOk;
    match a
    case Lock => WakeTakes(s, k, p, q);
    case Check => WakeGives(s, k, p, q);
    case _ => WakeRound(s, k, p, a, q);
  }

  lemma WakeRound(s: Sys, k: nat, p: nat, a: WakeAct, q: nat)
    requires !a.Lock? && !a.Check? && CanWake(s, k, p, a) && q < |s.procs| && LockOk(s, p) && LockOk(s, q)
    ensures LockOk(WakeStep(s, k, p, a), q)
  {}

  lemma WakeTakes(s: Sys, k: nat, p: nat, q: nat)
    requires CanWake(s, k, p, Lock) && q < |s.procs| && LockOk(s, p) && LockOk(s, q)
    ensures LockOk(WakeStep(s, k, p, Lock), q)
  {}

  lemma WakeGives(s: Sys, k: nat, p: nat, q: nat)
    requires CanWake(s, k, p, Check) && q < |s.procs| && LockOk(s, p) && LockOk(s, q)
    ensures LockOk(WakeStep(s, k, p, Check), q)
  {}

  lemma WakeChanOk(s: Sys, k: nat, p: nat, a: WakeAct, q: nat)
    requires CanWake(s, k, p, a) && q < |s.procs| && ChanOk(s, p) && ChanOk(s, q)
    ensures ChanOk(WakeStep(s, k, p, a), q)
  {}

  lemma WakeStateOk(s: Sys, k: nat, p: nat, a: WakeAct, q: nat)
    requires CanWake(s, k, p, a) && q < |s.procs| && StateOk(s, p) && StateOk(s, q) && LockOk(s, p) && LockOk(s, q)
    ensures StateOk(WakeStep(s, k, p, a), q)
  {}

  lemma WakeNotMissed(s: Sys, k: nat, p: nat, a: WakeAct, q: nat)
    requires CanWake(s, k, p, a) && q < |s.procs| && LockOk(s, p) && LockOk(s, q) && ChanOk(s, p) && ChanOk(s, q)
    requires StateOk(s, q) && NotMissed(s, q)
    requires Pending(s.procs[q]) ==> CountOk(s, s.procs[q].pc.c)
    ensures NotMissed(WakeStep(s, k, p, a), q)
  {
    hide NotMissed, LockOk, StateOk, ChanOk, CountOk;
    match a
    case Check => CheckNotMissed(s, k, p, q);
    case Lock => LockNotMissed(s, k, p, q);
    case Kill(_) => KillNotMissed(s, k, p, a, q);
    case _ => RoundNotMissed(s, k, p, a, q);
  }

  lemma CheckNotMissed(s: Sys, k: nat, p: nat, q: nat)
    requires CanWake(s, k, p, Check) && q < |s.procs| && LockOk(s, p) && LockOk(s, q) && ChanOk(s, p) && ChanOk(s, q)
    requires StateOk(s, q) && NotMissed(s, q)
    requires Pending(s.procs[q]) ==> CountOk(s, s.procs[q].pc.c)
    ensures NotMissed(WakeStep(s, k, p, Check), q)
  {}

  lemma LockNotMissed(s: Sys, k: nat, p: nat, q: nat)
    requires CanWake(s, k, p, Lock) && q < |s.procs| && NotMissed(s, q)
    ensures NotMissed(WakeStep(s, k, p, Lock), q)
  {}

  lemma KillNotMissed(s: Sys, k: nat, p: nat, a: WakeAct, q: nat)
    requires a.Kill? && CanWake(s, k, p, a) && q < |s.procs| && LockOk(s, q) && StateOk(s, q) && NotMissed(s, q)
    ensures NotMissed(WakeStep(s, k, p, a), q)
  {}

  lemma RoundNotMissed(s: Sys, k: nat, p: nat, a: WakeAct, q: nat)
    requires (a.Start? || a.Skip? || a.End?) && CanWake(s, k, p, a) && q < |s.procs| && ChanOk(s, p) && ChanOk(s, q)
    requires StateOk(s, q) && NotMissed(s, q)
    requires Pending(s.procs[q]) ==> CountOk(s, s.procs[q].pc.c)
    ensures NotMissed(WakeStep(s, k, p, a), q)
  {}

  lemma WakeCpuOk(s: Sys, k: nat, p: nat, a: WakeAct, j: nat)
    requires CanWake(s, k, p, a) && j < |s.cpus| && CpuOk(s, j) && CpuOk(s, k) && StateOk(s, p) && LockOk(s, p)
    ensures CpuOk(WakeStep(s, k, p, a), j)
  {}

  lemma WakeCountOk(s: Sys, k: nat, p: nat, a: WakeAct, c: Chan)
    requires CanWake(s, k, p, a) && CountOk(s, c) && ChanOk(s, p)
    ensures CountOk(WakeStep(s, k, p, a), c)
  {}

  lemma WakeHeldOk(s: Sys, k: nat, p: nat, a: WakeAct)
    requires CanWake(s, k, p, a) && HeldOk(s) && ChanOk(s, p)
    ensures HeldOk(WakeStep(s, k, p, a))
  {}

  lemma SchedLockOk(s: Sys, k: nat, a: SchedAct, p: nat, q: nat)
    requires CanSched(s, k, a) && p == Subject(s, k, a) && q < |s.procs| && LockOk(s, p) && LockOk(s, q)
    requires StateOk(s, p) && CpuOk(s, k)
    ensures LockOk(SchedStep(s, k, a), q)
  {
    hide LockOk, StateOk, CpuOk;
    if p == q { SchedLockSelf(s, k, a, p); } else { SchedLockOther(s, k, a, p, q); }
  }

  lemma SchedLockSelf(s: Sys, k: nat, a: SchedAct, p: nat)
    requires CanSched(s, k, a) && p == Subject(s, k, a) && LockOk(s, p) && StateOk(s, p) && CpuOk(s, k)
    ensures LockOk(SchedStep(s, k, a), p)
  {}

  lemma SchedLockOther(s: Sys, k: nat, a: SchedAct, p: nat, q: nat)
    requires CanSched(s, k, a) && p == Subject(s, k, a) && q < |s.procs| && p != q && LockOk(s, p) && LockOk(s, q)
    requires StateOk(s, p) && CpuOk(s, k)
    ensures LockOk(SchedStep(s, k, a), q)
  {}

  lemma SchedChanOk(s: Sys, k: nat, a: SchedAct, p: nat, q: nat)
    requires CanSched(s, k, a) && p == Subject(s, k, a) && q < |s.procs| && LockOk(s, p) && ChanOk(s, q)
    requires StateOk(s, p) && CpuOk(s, k)
    ensures ChanOk(SchedStep(s, k, a), q)
  {}

  lemma SchedStateOk(s: Sys, k: nat, a: SchedAct, p: nat, q: nat)
    requires CanSched(s, k, a) && p == Subject(s, k, a) && q < |s.procs| && LockOk(s, p) && StateOk(s, q)
    requires StateOk(s, p) && CpuOk(s, k)
    ensures StateOk(SchedStep(s, k, a), q)
  {}

  lemma SchedNotMissed(s: Sys, k: nat, a: SchedAct, p: nat, q: nat)
    requires CanSched(s, k, a) && p == Subject(s, k, a) && q < |s.procs| && LockOk(s, p) && NotMissed(s, q)
    requires StateOk(s, p) && StateOk(s, q) && CpuOk(s, k)
    ensures NotMissed(SchedStep(s, k, a), q)
  {}

  lemma SchedCpuOk(s: Sys, k: nat, a: SchedAct, p: nat, j: nat)
    requires CanSched(s, k, a) && p == Subject(s, k, a) && j < |s.cpus| && CpuOk(s, j) && CpuOk(s, k)
    requires StateOk(s, p) && LockOk(s, p)
    ensures CpuOk(SchedStep(s, k, a), j)
  {}

  lemma SchedCountOk(s: Sys, k: nat, a: SchedAct, p: nat, c: Chan)
    requires CanSched(s, k, a) && p == Subject(s, k, a) && CountOk(s, c) && LockOk(s, p) && StateOk(s, p) && CpuOk(s, k)
    ensures CountOk(SchedStep(s, k, a), c)
  {}

  lemma SchedHeldOk(s: Sys, k: nat, a: SchedAct, p: nat)
    requires CanSched(s, k, a) && p == Subject(s, k, a) && HeldOk(s) && LockOk(s, p) && StateOk(s, p) && CpuOk(s, k)
    ensures HeldOk(SchedStep(s, k, a))
  {}

  function Subject(s: Sys, k: nat, a: SchedAct): (p: nat)
    requires CanSched(s, k, a)
    ensures p < |s.procs|
  {
    if a.Switch? || a.Look? || a.Yield? || a.YieldDone? || a.Enter? || a.Leave? then a.p else s.cpus[k].p
  }

  lemma StepInv(s: Sys, e: Event)
    requires Inv(s) && CanDo(s, e)
    ensures Inv(Step(s, e))
  {
    hide LockOk, ChanOk, StateOk, NotMissed, CpuOk, CountOk, HeldOk, CanSleep, CanWake, CanSched;
    match e
    case Sleep(k, p, a) => SleepInv(s, k, p, a);
    case Wakeup(k, p, a) => WakeInv(s, k, p, a);
    case Sched(k, a) => SchedInv(s, k, a);
  }

  lemma SleepInv(s: Sys, k: nat, p: nat, a: SleepAct)
    requires Inv(s) && CanSleep(s, k, p, a)
    ensures Inv(SleepStep(s, k, p, a))
  {
    hide LockOk, ChanOk, StateOk, NotMissed, CpuOk, CountOk, HeldOk;
    var r := SleepStep(s, k, p, a);
    assert LockOk(s, p) && ChanOk(s, p) && StateOk(s, p) && NotMissed(s, p) && CpuOk(s, k);
    forall q | 0 <= q < |r.procs| ensures LockOk(r, q) { assert LockOk(s, q); SleepLockOk(s, k, p, a, q); }
    forall q | 0 <= q < |r.procs| ensures ChanOk(r, q) { assert ChanOk(s, q); SleepChanOk(s, k, p, a, q); }
    forall q | 0 <= q < |r.procs| ensures StateOk(r, q) { assert StateOk(s, q); SleepStateOk(s, k, p, a, q); }
    forall q | 0 <= q < |r.procs| ensures NotMissed(r, q) {
      assert NotMissed(s, q) && ChanOk(s, q) && (s.procs[p].pc.Hold? ==> CountOk(s, s.procs[p].pc.c));
      SleepNotMissed(s, k, p, a, q);
    }
    forall j | 0 <= j < |r.cpus| ensures CpuOk(r, j) { assert CpuOk(s, j); SleepCpuOk(s, k, p, a, j); }
    forall c ensures CountOk(r, c) { assert CountOk(s, c); SleepCountOk(s, k, p, a, c); }
    SleepHeldOk(s, k, p, a);
  }

  lemma WakeInv(s: Sys, k: nat, p: nat, a: WakeAct)
    requires Inv(s) && CanWake(s, k, p, a)
    ensures Inv(WakeStep(s, k, p, a))
  {
    hide LockOk, ChanOk, StateOk, NotMissed, CpuOk, CountOk, HeldOk;
    var r := WakeStep(s, k, p, a);
    assert LockOk(s, p) && ChanOk(s, p) && StateOk(s, p) && NotMissed(s, p) && CpuOk(s, k);
    forall q | 0 <= q < |r.procs| ensures LockOk(r, q) { assert LockOk(s, q); WakeLockOk(s, k, p, a, q); }
    forall q | 0 <= q < |r.procs| ensures ChanOk(r, q) { assert ChanOk(s, q); WakeChanOk(s, k, p, a, q); }
    forall q | 0 <= q < |r.procs|
      ensures StateOk(r, q)
    {
      assert StateOk(s, q) && LockOk(s, q);
      WakeStateOk(s, k, p, a, q);
    }
    forall q | 0 <= q < |r.procs| ensures NotMissed(r, q) {
      assert NotMissed(s, q) && ChanOk(s, q) && LockOk(s, q) && StateOk(s, q)
        && (Pending(s.procs[q]) ==> CountOk(s, s.procs[q].pc.c));
      WakeNotMissed(s, k, p, a, q);
    }
    forall j | 0 <= j < |r.cpus| ensures CpuOk(r, j) { assert CpuOk(s, j); WakeCpuOk(s, k, p, a, j); }
    forall c ensures CountOk(r, c) { assert CountOk(s, c); WakeCountOk(s, k, p, a, c); }
    WakeHeldOk(s, k, p, a);
  }

  lemma SchedInv(s: Sys, k: nat, a: SchedAct)
    requires Inv(s) && CanSched(s, k, a)
    ensures Inv(SchedStep(s, k, a))
  {
    hide LockOk, ChanOk, StateOk, NotMissed, CpuOk, CountOk, HeldOk;
    var r, p := SchedStep(s, k, a), Subject(s, k, a);
    assert LockOk(s, p) && ChanOk(s, p) && StateOk(s, p) && NotMissed(s, p) && CpuOk(s, k);
    forall q | 0 <= q < |r.procs| ensures LockOk(r, q) { assert LockOk(s, q); SchedLockOk(s, k, a, p, q); }
    forall q | 0 <= q < |r.procs| ensures ChanOk(r, q) { assert ChanOk(s, q); SchedChanOk(s, k, a, p, q); }
    forall q | 0 <= q < |r.procs| ensures StateOk(r, q) { assert StateOk(s, q); SchedStateOk(s, k, a, p, q); }
    forall q | 0 <= q < |r.procs|
      ensures NotMissed(r, q)
    {
      assert NotMissed(s, q) && StateOk(s, q);
      SchedNotMissed(s, k, a, p, q);
    }
    forall j | 0 <= j < |r.cpus| ensures CpuOk(r, j) { assert CpuOk(s, j); SchedCpuOk(s, k, a, p, j); }
    forall c ensures CountOk(r, c) { assert CountOk(s, c); SchedCountOk(s, k, a, p, c); }
    SchedHeldOk(s, k, a, p);
  }

  // ---- whole runs --------------------------------------------------------------------------------

  /** n processes ready to run for the first time, interrupt handlers, and idle CPUs. */
  function Boot(n: nat, handlers: nat, ncpu: nat): Sys {
    Sys(seq(n + handlers, i => Proc(Runnable, Chan(0, 0), Nobody, YieldParked, 0, 0, i >= n)), seq(ncpu, _ => Idle),
        map[], map[], map[])
  }

  ghost predicate Run(s: Sys, es: seq<Event>, t: Sys)
    decreases |es|
  {
    if es == [] then s == t else CanDo(s, es[0]) && Run(Step(s, es[0]), es[1..], t)
  }

  lemma {:induction false} RunInv(s: Sys, es: seq<Event>, t: Sys)
    requires Inv(s) && Run(s, es, t)
    ensures Inv(t)
    decreases |es|
  {
    hide Inv, CanDo, Step;
    if es != [] {
      StepInv(s, es[0]);
      RunInv(Step(s, es[0]), es[1..], t);
    }
  }

  lemma BootInv(n: nat, handlers: nat, ncpu: nat)
    ensures Inv(Boot(n, handlers, ncpu))
  {}

  /** No lost wakeup: in every reachable state, no wakeup on the channel of a sleeping process has
      finished since that process tested its condition. */
  lemma NoLostWakeup(n: nat, handlers: nat, ncpu: nat, es: seq<Event>, s: Sys, p: nat)
    requires Run(Boot(n, handlers, ncpu), es, s) && p < |s.procs| && s.procs[p].st.Sleeping?
    ensures Get(s.finished, s.procs[p].chan) == s.procs[p].mark
  {
    BootInv(n, handlers, ncpu);
    RunInv(Boot(n, handlers, ncpu), es, s);
    assert StateOk(s, p) && NotMissed(s, p);
  }

  /** When a wakeup ends, nobody is asleep on its channel. */
  lemma WakeupComplete(n: nat, handlers: nat, ncpu: nat, es: seq<Event>, s: Sys, k: nat, p: nat, q: nat)
    requires Run(Boot(n, handlers, ncpu), es, s) && CanWake(s, k, p, End) && q < |s.procs|
    ensures !(s.procs[q].st.Sleeping? && s.procs[q].chan == s.procs[p].pc.c)
  {
    BootInv(n, handlers, ncpu);
    RunInv(Boot(n, handlers, ncpu), es, s);
    assert StateOk(s, q) && NotMissed(s, q) && ChanOk(s, p) && CountOk(s, s.procs[p].pc.c);
  }

  /** Each running process is on exactly one CPU, and a process that no CPU runs is not running. */
  lemma OneCpu(n: nat, handlers: nat, ncpu: nat, es: seq<Event>, s: Sys, p: nat, k: nat)
    requires Run(Boot(n, handlers, ncpu), es, s) && p < |s.procs| && k < |s.cpus|
    ensures s.procs[p].st.Running? ==> s.procs[p].cpu < |s.cpus| && s.cpus[s.procs[p].cpu] == Runs(p)
    ensures s.cpus[k] == Runs(p) ==> k == s.procs[p].cpu
  {
    BootInv(n, handlers, ncpu);
    RunInv(Boot(n, handlers, ncpu), es, s);
    assert StateOk(s, p) && CpuOk(s, k);
  }
}
