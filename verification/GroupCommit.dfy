/** Group commit: kernel/log.c's begin_op, log_write and end_op called by many processes in
    any interleaving.  `Gate` holds the fields of `log` they test and set under log.lock. */
module GroupCommit {

  datatype Outcome<T> = Ok(value: T) | Wait | Panic(msg: string)

  datatype Gate = Gate(n: nat, outstanding: int, committing: bool) {

    /** begin_op(): one pass of its loop; Wait is sleep(&log). */
    function BeginOp(logsize: nat, maxop: nat): (r: Outcome<Gate>) {
      if committing then Wait
      else if n + (outstanding + 1) * maxop > logsize then Wait
      else Ok(this.(outstanding := outstanding + 1))
    }

    /** log_write(): `absorbed` says whether the block is already in the header. */
    function LogWrite(logsize: nat, nlog: int, absorbed: bool): (r: Outcome<Gate>) {
      if n >= logsize || n >= nlog - 1 then Panic("too big a transaction")
      else if outstanding < 1 then Panic("log_write outside of trans")
      else Ok(if absorbed then this else this.(n := n + 1))
    }

    /** end_op() up to its call of commit(); the result says whether to commit. */
    function EndOp(): (r: Outcome<Gate>) {
      var left := outstanding - 1;
      if committing then Panic("log.committing")
      else Ok(this.(outstanding := left, committing := left == 0))
    }

    /** end_op() after commit(), which has emptied the header. */
    function Committed(): (r: Gate) { this.(n := 0, committing := false) }
  }

  /** The limits: LOGSIZE, the superblock's nlog, MAXOPBLOCKS; and what is asked of callers.
      Operations always log at most MAXOPBLOCKS new blocks; if `strict`, they also log nothing,
      not even a block that is in the log already, once they have used up that reservation. */
  datatype Limits = Limits(logsize: nat, nlog: int, maxop: nat, strict: bool)

  /** The gate, and for each process the reservation its operation has not yet used (-1 when
      it is not in an operation). */
  datatype System = System(gate: Gate, unused: seq<int>)

  datatype Event =
    | Begin(p: nat)
    | Write(p: nat, absorbed: bool)   // a block already logged, or one more new block
    | End(p: nat)
    | Commit

  /** A process only writes and ends inside its operation, logs at most MAXOPBLOCKS new
      blocks in it, and a block can only be absorbed if some block is logged. */
  predicate Obeys(l: Limits, s: System, e: Event) {
    match e
    case Begin(p) => p < |s.unused| && s.unused[p] == -1
    case Write(p, absorbed) =>
      && p < |s.unused| && s.unused[p] >= 0
      && (if absorbed then s.gate.n > 0 else s.unused[p] > 0) && (l.strict ==> s.unused[p] > 0)
    case End(p) => p < |s.unused| && s.unused[p] >= 0
    case Commit => s.gate.committing
  }

  function Next(l: Limits, s: System, e: Event): (r: Outcome<System>)
    requires Obeys(l, s, e)
  {
    match e
    case Begin(p) =>
      (match s.gate.BeginOp(l.logsize, l.maxop)
       case Ok(g) => Ok(System(g, s.unused[p := l.maxop]))
       case Wait => Wait
       case Panic(m) => Panic(m))
    case Write(p, absorbed) =>
      (match s.gate.LogWrite(l.logsize, l.nlog, absorbed)
       case Ok(g) => Ok(System(g, if absorbed then s.unused else s.unused[p := s.unused[p] - 1]))
       case Wait => Wait
       case Panic(m) => Panic(m))
    case End(p) =>
      (match s.gate.EndOp()
       case Ok(g) => Ok(System(g, s.unused[p := -1]))
       case Wait => Wait
       case Panic(m) => Panic(m))
    case Commit => Ok(System(s.gate.Committed(), s.unused))
  }

  /** Run a sequence of events; events a process may not issue and calls that would sleep
      leave the state as it is. */
  function Run(l: Limits, s: System, es: seq<Event>): (r: Outcome<System>)
    decreases |es|
  {
    if es == [] then Ok(s)
    else if !Obeys(l, s, es[0]) then Run(l, s, es[1..])
    else match Next(l, s, es[0])
         case Ok(t) => Run(l, t, es[1..])
         case Wait => Run(l, s, es[1..])
         case Panic(m) => Panic(m)
  }

  function Boot(nproc: nat): System { System(Gate(0, 0, false), seq(nproc, _ => -1)) }

  // ---- accounting -----------------------------------------------------------------------

  ghost function Open(u: seq<int>): nat {
    if u == [] then 0 else (if u[0] >= 0 then 1 else 0) + Open(u[1..])
  }

  ghost function Reserved(u: seq<int>): nat {
    if u == [] then 0 else (if u[0] >= 0 then u[0] else 0) + Reserved(u[1..])
  }

  lemma {:induction false} Update(u: seq<int>, p: nat, v: int)
    requires p < |u|
    ensures Open(u[p := v]) == Open(u) - (if u[p] >= 0 then 1 else 0) + (if v >= 0 then 1 else 0)
    ensures Reserved(u[p := v]) == Reserved(u) - (if u[p] >= 0 then u[p] else 0) + (if v >= 0 then v else 0)
  {
    if p > 0 {
      assert u[p := v][1..] == u[1..][p - 1 := v];
      Update(u[1..], p - 1, v);
    } else {
      assert u[p := v][1..] == u[1..];
    }
  }

  lemma {:induction false} Bounds(u: seq<int>, maxop: nat)
    requires forall p :: 0 <= p < |u| ==> u[p] <= maxop
    ensures Reserved(u) <= Open(u) * maxop
    ensures forall p :: 0 <= p < |u| && u[p] >= 0 ==> u[p] <= Reserved(u) && Open(u) >= 1
  {
    if u != [] {
      Bounds(u[1..], maxop);
      assert u[0] >= 0 ==> (1 + Open(u[1..])) * maxop == maxop + Open(u[1..]) * maxop;
      forall p | 0 <= p < |u| && u[p] >= 0 ensures u[p] <= Reserved(u) && Open(u) >= 1 {
        if p > 0 { assert u[p] == u[1..][p - 1]; }
      }
    }
  }

  /** The reservations still unused always fit in the log, and nobody is inside an operation
      while a commit runs. */
  ghost predicate Inv(l: Limits, s: System) {
    && s.gate.outstanding == Open(s.unused)
    && (forall p :: 0 <= p < |s.unused| ==> -1 <= s.unused[p] <= l.maxop)
    && s.gate.n + Reserved(s.unused) <= l.logsize
    && (s.gate.committing ==> s.gate.outstanding == 0)
  }

  lemma {:induction false} BootInv(l: Limits, nproc: nat)
    ensures Inv(l, Boot(nproc))
  {
    if nproc > 0 {
      BootInv(l, nproc - 1);
      assert Boot(nproc).unused[1..] == Boot(nproc - 1).unused;
    }
  }

  /** One step keeps the invariant, and can only panic in log_write's size test. */
  lemma NextInv(l: Limits, s: System, e: Event)
    requires Inv(l, s) && Obeys(l, s, e)
    ensures var r := Next(l, s, e);
            && (r.Ok? ==> Inv(l, r.value))
            && (r.Panic? <==> e.Write? && (s.gate.n >= l.logsize || s.gate.n >= l.nlog - 1))
            && (r.Panic? ==> r.msg == "too big a transaction")
            && (r.Panic? && (!e.absorbed || l.strict) ==> l.nlog - 1 <= s.gate.n < l.logsize)
  {
    match e {
      case Begin(p) => BeginInv(l, s, p);
      case Write(p, absorbed) =>
        Bounds(s.unused, l.maxop);
        Update(s.unused, p, s.unused[p] - 1);
      case End(p) =>
        Bounds(s.unused, l.maxop);
        Update(s.unused, p, -1);
      case Commit =>
    }
  }

  lemma BeginInv(l: Limits, s: System, p: nat)
    requires Inv(l, s) && Obeys(l, s, Begin(p))
    ensures var r := Next(l, s, Begin(p));
            !r.Panic? && (r.Ok? ==> Inv(l, r.value))
  {
    Bounds(s.unused, l.maxop);
    Update(s.unused, p, l.maxop);
    assert (s.gate.outstanding + 1) * l.maxop == s.gate.outstanding * l.maxop + l.maxop;
  }

  /** Group-commit safety for every interleaving: the invariant holds throughout, and the
      "log.committing" and "outside of trans" panics are unreachable. */
  lemma {:induction false} RunInv(l: Limits, s: System, es: seq<Event>)
    requires Inv(l, s)
    ensures var r := Run(l, s, es);
            && !r.Wait?
            && (r.Ok? ==> Inv(l, r.value))
            && (r.Panic? ==> r.msg == "too big a transaction")
    decreases |es|
  {
    if es != [] {
      if Obeys(l, s, es[0]) {
        NextInv(l, s, es[0]);
        match Next(l, s, es[0])
        case Ok(t) => RunInv(l, t, es[1..]);
        case Wait => RunInv(l, s, es[1..]);
        case Panic(_) =>
      } else {
        RunInv(l, s, es[1..]);
      }
    }
  }

  // ---- when the size test can fire --------------------------------------------------------

  /** Where the on-disk log has a block for the header besides LOGSIZE data blocks, log_write
      panics exactly when the log is full.  Then the block was already in the log, and every
      operation in progress has used up its reservation, the caller's included. */
  lemma WritePanics(l: Limits, s: System, p: nat, absorbed: bool)
    requires Inv(l, s) && Obeys(l, s, Write(p, absorbed)) && l.nlog > l.logsize
    ensures Next(l, s, Write(p, absorbed)).Panic? <==> s.gate.n == l.logsize
    ensures Next(l, s, Write(p, absorbed)).Panic? ==>
              absorbed && !l.strict && forall q :: 0 <= q < |s.unused| ==> s.unused[q] <= 0
  {
    NextInv(l, s, Write(p, absorbed));
    Bounds(s.unused, l.maxop);
  }

  /** So operations that log only while part of their reservation is unused never panic. */
  lemma {:induction false} RoomyLogNeverPanics(l: Limits, s: System, es: seq<Event>)
    requires Inv(l, s) && l.nlog > l.logsize && l.strict
    ensures Run(l, s, es).Ok?
    decreases |es|
  {
    if es != [] {
      if Obeys(l, s, es[0]) {
        NextInv(l, s, es[0]);
        match Next(l, s, es[0])
        case Ok(t) => RoomyLogNeverPanics(l, t, es[1..]);
        case Wait => RoomyLogNeverPanics(l, s, es[1..]);
        case Panic(_) =>
      } else {
        RoomyLogNeverPanics(l, s, es[1..]);
      }
    }
  }

  /** Process p logging k new blocks in a row. */
  function Burst(p: nat, k: nat): (es: seq<Event>)
    ensures |es| == k
  {
    if k == 0 then [] else [Write(p, false)] + Burst(p, k - 1)
  }

  lemma RunCons(l: Limits, s: System, e: Event, t: System, rest: seq<Event>)
    requires Obeys(l, s, e) && Next(l, s, e) == Ok(t)
    ensures Run(l, s, [e] + rest) == Run(l, t, rest)
  {
    assert ([e] + rest)[1..] == rest;
  }

  lemma RunPanics(l: Limits, s: System, e: Event, rest: seq<Event>)
    requires Obeys(l, s, e) && Next(l, s, e).Panic?
    ensures Run(l, s, [e] + rest).Panic?
  {}

  lemma BurstMore(p: nat, k: nat, rest: seq<Event>)
    ensures Burst(p, 0) + rest == rest
    ensures k > 0 ==> Burst(p, k) + rest == [Write(p, false)] + (Burst(p, k - 1) + rest)
  {}

  /** A burst within the reservation panics if it would pass nlog-1, and otherwise fills. */
  lemma {:induction false} BurstFills(l: Limits, s: System, p: nat, k: nat, rest: seq<Event>)
    requires p < |s.unused| && s.unused[p] >= k && s.gate.outstanding >= 1 && s.gate.n + k <= l.logsize
    ensures k > 0 && s.gate.n + k > l.nlog - 1 ==> Run(l, s, Burst(p, k) + rest).Panic?
    ensures k == 0 || s.gate.n + k <= l.nlog - 1 ==>
              var t := System(s.gate.(n := s.gate.n + k), s.unused[p := s.unused[p] - k]);
              Run(l, s, Burst(p, k) + rest) == Run(l, t, rest)
    decreases k
  {
    hide Run, Burst;
    BurstMore(p, k, rest);
    if k == 0 {
      assert s.unused[p := s.unused[p] - k] == s.unused;
    } else {
      var es := Burst(p, k - 1) + rest;
      if s.gate.n < l.nlog - 1 {
        var t := System(s.gate.(n := s.gate.n + 1), s.unused[p := s.unused[p] - 1]);
        RunCons(l, s, Write(p, false), t, es);
        BurstFills(l, t, p, k - 1, rest);
        assert t.unused[p := t.unused[p] - (k - 1)] == s.unused[p := s.unused[p] - k];
      } else {
        RunPanics(l, s, Write(p, false), es);
      }
    }
  }

  // ---- exactly when it fires -------------------------------------------------------------------

  /** How full the log can get with nproc processes: not at all if no operation is ever admitted or
      none may log; to the brim if two operations can overlap, since one may keep the log from
      committing while others come and go; else as far as one operation takes it. */
  function Cap(l: Limits, nproc: nat): (cap: nat)
    ensures cap <= l.logsize
  {
    if l.maxop == 0 || l.maxop > l.logsize || nproc == 0 then 0
    else if nproc >= 2 && 2 * l.maxop <= l.logsize then l.logsize
    else l.maxop
  }

  /** Below that cap; and if it is less than the log, operations do not overlap. */
  ghost predicate Capped(l: Limits, s: System, nproc: nat) {
    && Inv(l, s) && |s.unused| == nproc && s.gate.n + Reserved(s.unused) <= Cap(l, nproc)
    && (Cap(l, nproc) < l.logsize && l.maxop > 0 ==>
          s.gate.outstanding <= 1 && (s.gate.outstanding == 0 && !s.gate.committing ==> s.gate.n == 0))
  }

  lemma BootCapped(l: Limits, nproc: nat)
    ensures Capped(l, Boot(nproc), nproc)
  {
    BootInv(l, nproc);
    NobodyIn(Boot(nproc).unused);
  }

  lemma {:induction false} NobodyIn(u: seq<int>)
    requires forall p :: 0 <= p < |u| ==> u[p] < 0
    ensures Open(u) == 0 && Reserved(u) == 0
  {
    if u != [] { NobodyIn(u[1..]); }
  }

  lemma NextCapped(l: Limits, s: System, e: Event, nproc: nat)
    requires Capped(l, s, nproc) && Obeys(l, s, e)
    ensures var r := Next(l, s, e);
            && (r.Ok? ==> Capped(l, r.value, nproc))
            && (r.Panic? ==> Fires(l, nproc))
  {
    NextInv(l, s, e);
    Bounds(s.unused, l.maxop);
    match e {
      case Begin(p) => BeginCapped(l, s, p, nproc);
      case Write(p, absorbed) => Update(s.unused, p, s.unused[p] - 1);
      case End(p) => Update(s.unused, p, -1);
      case Commit =>
    }
  }

  lemma BeginCapped(l: Limits, s: System, p: nat, nproc: nat)
    requires Capped(l, s, nproc) && Obeys(l, s, Begin(p))
    ensures var r := Next(l, s, Begin(p)); r.Ok? ==> Capped(l, r.value, nproc)
  {
    BeginInv(l, s, p);
    Bounds(s.unused, l.maxop);
    Update(s.unused, p, l.maxop);
    if nproc == 1 {
      NobodyIn(s.unused);
    }
  }

  lemma {:induction false} RunCapped(l: Limits, s: System, es: seq<Event>, nproc: nat)
    requires Capped(l, s, nproc)
    ensures Run(l, s, es).Panic? ==> Fires(l, nproc)
    decreases |es|
  {
    hide Capped, Fires, Next, Obeys;
    if es != [] {
      if Obeys(l, s, es[0]) {
        NextCapped(l, s, es[0], nproc);
        match Next(l, s, es[0])
        case Ok(t) => RunCapped(l, t, es[1..], nproc);
        case Wait => RunCapped(l, s, es[1..], nproc);
        case Panic(_) =>
      } else {
        RunCapped(l, s, es[1..], nproc);
      }
    }
  }

  /** The condition: something can be logged, and the cap reaches the on-disk log's size; or blocks
      may be logged again after the reservation is used up, and the cap reaches either limit. */
  predicate Fires(l: Limits, nproc: nat) {
    var cap := Cap(l, nproc);
    cap > 0 && (l.nlog <= cap || (!l.strict && (cap == l.logsize || l.nlog <= cap + 1)))
  }

  /** One operation uses its whole reservation, then `rest`. */
  function Solo(l: Limits, rest: seq<Event>): seq<Event> { [Begin(0)] + (Burst(0, l.maxop) + rest) }

  lemma SoloFills(l: Limits, nproc: nat, rest: seq<Event>) returns (t: System)
    requires 0 < l.maxop <= l.logsize && nproc >= 1
    ensures l.nlog <= l.maxop ==> Run(l, Boot(nproc), Solo(l, rest)).Panic?
    ensures l.nlog > l.maxop ==> Run(l, Boot(nproc), Solo(l, rest)) == Run(l, t, rest)
    ensures t.gate == Gate(l.maxop, 1, false) && |t.unused| == nproc && t.unused[0] == 0
  {
    hide Run, Burst;
    var s0 := Boot(nproc);
    var s1 := System(Gate(0, 1, false), s0.unused[0 := l.maxop]);
    RunCons(l, s0, Begin(0), s1, Burst(0, l.maxop) + rest);
    BurstFills(l, s1, 0, l.maxop, rest);
    t := System(Gate(l.maxop, 1, false), s1.unused[0 := 0]);
  }

  /** Process 1 stays in its operation and process 0 runs one after another until n blocks more are
      logged; then `rest`. */
  function Climb(l: Limits, n: nat, rest: seq<Event>): seq<Event>
    requires l.maxop > 0
    decreases n
  {
    if n == 0 then rest
    else
      var w := if n < l.maxop then n else l.maxop;
      [Begin(0)] + (Burst(0, w) + ([End(0)] + Climb(l, n - w, rest)))
  }

  /** Process 1 is in an operation that has logged nothing, process 0 in none, n blocks are logged. */
  ghost predicate Climbing(l: Limits, s: System, n: nat) {
    |s.unused| >= 2 && s.unused[0] == -1 && s.unused[1] == l.maxop && s.gate == Gate(n, 1, false)
  }

  lemma {:induction false} ClimbFills(l: Limits, s: System, n: nat, rest: seq<Event>)
    requires l.maxop > 0 && Climbing(l, s, s.gate.n) && s.gate.n + n + 2 * l.maxop <= l.logsize
    ensures var t := s.(gate := Gate(s.gate.n + n, 1, false));
            || Run(l, s, Climb(l, n, rest)) == Run(l, t, rest)
            || (Run(l, s, Climb(l, n, rest)).Panic? && l.nlog <= s.gate.n + n)
    decreases n
  {
    hide Run, Burst;
    if n > 0 {
      var w := if n < l.maxop then n else l.maxop;
      var more := Climb(l, n - w, rest);
      var s1 := System(Gate(s.gate.n, 2, false), s.unused[0 := l.maxop]);
      RunCons(l, s, Begin(0), s1, Burst(0, w) + ([End(0)] + more));
      BurstFills(l, s1, 0, w, [End(0)] + more);
      if s.gate.n + w <= l.nlog - 1 {
        var s2 := System(Gate(s.gate.n + w, 2, false), s1.unused[0 := l.maxop - w]);
        var s3 := s.(gate := Gate(s.gate.n + w, 1, false));
        assert s2.unused[0 := -1] == s.unused;
        RunCons(l, s2, End(0), s3, more);
        ClimbFills(l, s3, n - w, rest);
      }
    }
  }

  /** Two processes fill the log exactly, then `rest`. */
  function Pair(l: Limits, rest: seq<Event>): seq<Event>
    requires 0 < 2 * l.maxop <= l.logsize
  {
    [Begin(1)] + Climb(l, l.logsize - 2 * l.maxop, [Begin(0)] + (Burst(0, l.maxop) + (Burst(1, l.maxop) + rest)))
  }

  lemma PairFills(l: Limits, nproc: nat, rest: seq<Event>) returns (t: System)
    requires 0 < 2 * l.maxop <= l.logsize && nproc >= 2
    ensures l.nlog <= l.logsize ==> Run(l, Boot(nproc), Pair(l, rest)).Panic?
    ensures l.nlog > l.logsize ==> Run(l, Boot(nproc), Pair(l, rest)) == Run(l, t, rest)
    ensures t.gate == Gate(l.logsize, 2, false) && |t.unused| == nproc && t.unused[0] == 0
  {
    hide Run, Burst, Climb;
    var m, n, s0 := l.maxop, l.logsize - 2 * l.maxop, Boot(nproc);
    var end := Burst(0, m) + (Burst(1, m) + rest);
    var s1 := System(Gate(0, 1, false), s0.unused[1 := m]);
    RunCons(l, s0, Begin(1), s1, Climb(l, n, [Begin(0)] + end));
    ClimbFills(l, s1, n, [Begin(0)] + end);
    var s2 := s1.(gate := Gate(n, 1, false));
    var s3 := System(Gate(n, 2, false), s2.unused[0 := m]);
    RunCons(l, s2, Begin(0), s3, end);
    BurstFills(l, s3, 0, m, Burst(1, m) + rest);
    var s4 := System(Gate(n + m, 2, false), s3.unused[0 := 0]);
    BurstFills(l, s4, 1, m, rest);
    t := System(Gate(l.logsize, 2, false), s4.unused[1 := 0]);
  }

  /** Under the condition there is a run that fires the test: fill the log as far as it goes, and
      where that is allowed log a block of one's own again. */
  lemma FiringRun(l: Limits, nproc: nat) returns (es: seq<Event>)
    requires Fires(l, nproc)
    ensures Run(l, Boot(nproc), es).Panic?
  {
    hide Run, Solo, Pair;
    var again := if l.strict then [] else [Write(0, true)] + [];
    var t;
    if Cap(l, nproc) == l.logsize && 2 * l.maxop <= l.logsize {
      es := Pair(l, again);
      t := PairFills(l, nproc, again);
    } else {
      es := Solo(l, again);
      t := SoloFills(l, nproc, again);
    }
    if !l.strict {
      if t.gate.n >= l.logsize || t.gate.n >= l.nlog - 1 {
        RunPanics(l, t, Write(0, true), []);
      }
    }
  }

  /** Exactly when operations within their reservations can hit the size test, for every LOGSIZE,
      nlog and MAXOPBLOCKS and any number of processes. */
  lemma GuardFires(l: Limits, nproc: nat)
    ensures (exists es :: Run(l, Boot(nproc), es).Panic?) <==> Fires(l, nproc)
  {
    hide Run, Fires;
    if Fires(l, nproc) {
      var es := FiringRun(l, nproc);
    }
    BootCapped(l, nproc);
    forall es | Run(l, Boot(nproc), es).Panic? ensures Fires(l, nproc) {
      RunCapped(l, Boot(nproc), es, nproc);
    }
  }

  /** With LOGSIZE 30 and MAXOPBLOCKS 10: always if blocks may be logged again after the reservation
      is used up, and if they may not, exactly when nlog <= LOGSIZE. */
  lemma KernelGuard(nlog: int, nproc: nat, strict: bool)
    requires nproc >= 2
    ensures (exists es :: Run(Limits(30, nlog, 10, strict), Boot(nproc), es).Panic?) <==> !strict || nlog <= 30
  {
    hide Run;
    GuardFires(Limits(30, nlog, 10, strict), nproc);
  }
}
