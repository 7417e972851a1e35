/** kernel/fs.c over kernel/log.c: whole groups of file system calls as transactions of the
    log.  Whatever block write the machine crashes at, recovery finds the file system as it
    was after some number of whole transactions. */
module DurableFs {
  import opened Blocks
  import opened Recovery
  import opened FsLayout
  import opened FsCore
  import Files = FileSystem
  import L = Log

  /** Represents speaks of home blocks only. */
  lemma RepresentsSame(area: Area, d: Image, v: Image, w: Image)
    requires area.Represents(d, v) && area.SameHome(v, w)
    ensures area.Represents(d, w)
  {
  }

  lemma AllOrNothingSame(area: Area, images: seq<Image>, n: nat, v: Image, w: Image, v': Image, w': Image)
    requires L.AllOrNothing(area, images, n, v, w) && area.SameHome(v, v') && area.SameHome(w, w')
    ensures L.AllOrNothing(area, images, n, v', w')
  {
    hide Area.Represents, Area.SameHome;
    forall j | 0 <= j < |images| ensures area.Represents(images[j], if j < n then v' else w') {
      if j < n { RepresentsSame(area, images[j], v, v'); } else { RepresentsSame(area, images[j], w, w'); }
    }
  }

  lemma SameHomeTrans(area: Area, u: Image, v: Image, w: Image)
    requires area.SameHome(u, v) && area.SameHome(v, w)
    ensures area.SameHome(u, w) && area.SameHome(v, u)
  {
  }

  /** The home blocks of v are those of w, except perhaps the blocks in `todo`. */
  ghost predicate Behind(area: Area, v: Image, w: Image, todo: set<nat>) {
    |v| == |w| && forall b {:trigger v[b]} :: 0 <= b < |v| && !area.Holds(b) && b !in todo ==> v[b] == w[b]
  }

  lemma BehindStart(area: Area, lo: nat, v: Image, base: Image, w: Image, logged: set<nat>)
    requires area.SameHome(v, base) && Files.Framed(lo, base, w, logged)
    ensures Behind(area, v, w, logged)
  {
  }

  lemma BehindStep(area: Area, v: Image, w: Image, todo: set<nat>, x: nat)
    requires Behind(area, v, w, todo) && x < |w|
    ensures |v| == |w| && Behind(area, Put(v, x, w[x]), w, todo - {x})
  {
  }

  /** A file system and the log it runs on, between transactions. */
  ghost predicate Linked(fs: Files.FileSystem, log: L.Log)
    reads fs, log
  {
    && fs.Valid(-1) && log.Valid() && log.lh == [] && log.outstanding == 0 && !log.committing
    && log.area.SameHome(log.disk, fs.disk) && log.area.start + log.area.size <= fs.sb.inodestart
       && log.logsize + 1 < WORDS
  }

  /** The log takes n more blocks: entries and buffers are left, and no process holds any. */
  ghost predicate Roomy(log: L.Log, n: nat)
    reads log
  {
    && |log.lh| + n <= log.logsize && |log.lh| + n < log.area.size && |log.lh| + n <= |log.c.buf|
    && log.outstanding >= 1 && L.Undisturbed(log.held, [])
  }

  /** bread, change, log_write, brelse of one block. */
  method LogOne(log: L.Log, x: nat, data: Block) returns (ok: bool)
    requires log.Valid() && x < |log.m.logical| && !log.area.Holds(x) && log.logsize + 1 < WORDS
    modifies log`c, log`m, log`lh, log`held
    ensures ok ==> log.Valid() && log.m.logical == Put(old(log.m.logical), x, data)
    ensures ok ==> log.held == old(log.held) && |log.lh| <= old(|log.lh|) + 1 && |log.c.buf| == old(|log.c.buf|)
    ensures old(Roomy(log, 1)) ==> ok
  {
    hide Put, Area.Settled, Area.Loggable, L.Meaning.Coherent, L.Mine;
    log.ValidParts();
    var i;
    ok, i := log.Bread(x, {});
    if ok {
      ok := log.LogWrite(i, data);
      if ok {
        log.Brelse(i, {});
      }
    }
  }

  /** Between transactions the disk stands for the file system. */
  lemma LinkedStands(fs: Files.FileSystem, log: L.Log)
    requires Linked(fs, log)
    ensures log.area.Represents(log.disk, fs.disk)
  {
    hide Files.FileSystem.Valid, L.Log.Coherent;
    log.ValidParts();
  }

  /** log_write of every block the calls have changed. */
  method LogAll(fs: Files.FileSystem, log: L.Log) returns (ok: bool)
    requires fs.Valid(-1) && log.Valid() && log.area.start + log.area.size <= fs.sb.inodestart
               && log.logsize + 1 < WORDS
    requires log.area.SameHome(log.m.logical, fs.base)
    modifies log`c, log`m, log`lh, log`held
    ensures ok ==> log.Valid() && log.area.SameHome(log.m.logical, fs.disk)
    ensures ok ==>
              log.held == old(log.held) && |log.lh| <= old(|log.lh|) + |fs.logged| && |log.c.buf| == old(|log.c.buf|)
    ensures old(Roomy(log, |fs.logged|)) ==> ok
  {
    hide Files.FileSystem.Valid, L.Log.Valid, Area.SameHome, Behind, Put, L.Log.Holds;
    ok := true;
    var todo := fs.logged;
    FramedParts(fs);
    BehindStart(log.area, fs.sb.inodestart, log.m.logical, fs.base, fs.disk, todo);
    while todo != {}
      modifies log`c, log`m, log`lh, log`held
      invariant log.Valid() && todo <= fs.logged && Behind(log.area, log.m.logical, fs.disk, todo)
      invariant log.held == old(log.held) && |log.c.buf| == old(|log.c.buf|)
      invariant |log.lh| + |todo| <= old(|log.lh|) + |fs.logged|
    {
      var x :| x in todo;
      BehindStep(log.area, log.m.logical, fs.disk, todo, x);
      ok := LogOne(log, x, fs.disk[x]);
      if !ok {
        return;
      }
      todo := todo - {x};
    }
    BehindEnd(log.area, log.m.logical, fs.disk);
  }

  lemma BehindEnd(area: Area, v: Image, w: Image)
    requires Behind(area, v, w, {})
    ensures area.SameHome(v, w)
  {
  }

  lemma FramedParts(fs: Files.FileSystem)
    requires fs.Valid(-1)
    ensures Files.Framed(fs.sb.inodestart, fs.base, fs.disk, fs.logged)
  {
  }

  /** Inside a transaction that began with the disk standing for `before`: the log's contents are the
      file system's, and nothing has been written yet. */
  ghost predicate Open(fs: Files.FileSystem, log: L.Log, before: Image)
    reads fs, log
  {
    && fs.Valid(-1) && log.Valid() && log.outstanding == 1 && !log.committing && log.logsize + 1 < WORDS
    && log.area.start + log.area.size <= fs.sb.inodestart
    && log.area.SameHome(log.disk, before) && log.area.SameHome(log.m.logical, fs.disk)
  }

  /** begin_op() on an idle log. */
  method OpenLog(fs: Files.FileSystem, log: L.Log) returns (ok: bool)
    requires Linked(fs, log)
    modifies log`outstanding
    ensures ok ==> Open(fs, log, fs.disk)
    ensures ok <==> Files.MAXOPBLOCKS <= log.logsize
  {
    hide Files.FileSystem.Valid, L.Log.Valid, Area.SameHome;
    log.Unchanged();
    SameHomeTrans(log.area, log.disk, log.m.logical, log.m.logical);
    SameHomeTrans(log.area, log.m.logical, log.disk, fs.disk);
    ok := log.BeginOp(Files.MAXOPBLOCKS);
  }

  /** end_op() of the last operation.  The disk passes through images that stand for `before` up to
      some write and for the present file system from then on. */
  method CloseLog(fs: Files.FileSystem, log: L.Log, visitors: seq<seq<L.Visit>>, ghost before: Image)
    returns (ok: bool, ghost n: nat)
    requires Open(fs, log, before)
    modifies log
    ensures |old(log.trace)| <= |log.trace| && log.trace[..|old(log.trace)|] == old(log.trace)
    ensures L.AllOrNothing(log.area, log.trace[|old(log.trace)|..], n, before, fs.disk)
    ensures ok ==> Linked(fs, log)
    ensures !ok ==> |old(log.lh)| >= |old(log.c.buf)| || !L.Undisturbed(old(log.held), visitors)
  {
    hide Files.FileSystem.Valid, L.Log.Valid, Area.SameHome, Area.CommitTrace, Area.Represents;
    ghost var d, w := log.disk, log.m.logical;
    n := |log.lh|;
    ghost var done;
    ok, done := log.EndOp(visitors);
    AllOrNothingSame(log.area, log.trace[|old(log.trace)|..], n, d, w, before, fs.disk);
    if ok {
      SameHomeTrans(log.area, log.disk, w, fs.disk);
    }
  }

  /** Log or cache cannot take this many blocks in one transaction. */
  ghost predicate Cramped(logsize: nat, area: Area, nbuf: nat, blocks: nat) {
    logsize < Files.MAXOPBLOCKS || blocks > logsize || blocks >= area.size || blocks >= nbuf
  }

  /** What happens during a transaction: a call of one of its operations, or a process outside it
      reads a block or releases a buffer. */
  datatype Step = Act(call: Files.Call) | Reader(v: L.Visit)

  /** The calls among the steps. */
  function Calls(steps: seq<Step>): seq<Files.Call> {
    if steps == [] then [] else
    var n := |steps| - 1;
    Calls(steps[..n]) + if steps[n].Act? then [steps[n].call] else []
  }

  lemma CallsMore(steps: seq<Step>, k: nat)
    requires k < |steps|
    ensures steps[k].Act? ==> Calls(steps[..k + 1]) == Calls(steps[..k]) + [steps[k].call]
    ensures steps[k].Reader? ==> Calls(steps[..k + 1]) == Calls(steps[..k])
  {
    assert steps[..k + 1][..k] == steps[..k];
    assert Calls(steps[..k]) + [] == Calls(steps[..k]);
  }

  /** One call, whose changes the log has when it is over; b blocks of them. */
  method Act1(fs: Files.FileSystem, log: L.Log, call: Files.Call, ghost before: Image) returns (ok: bool, ghost b: nat)
    requires Open(fs, log, before)
    modifies fs, log`c, log`m, log`lh, log`held
    ensures ok ==> Open(fs, log, before) && log.held == old(log.held) && |log.c.buf| == old(|log.c.buf|)
    ensures ok ==> |log.lh| <= old(|log.lh|) + b && Files.Did(call, old(fs.Now()), fs.Now())
    ensures !ok ==> fs.Stopped() || !old(Roomy(log, b))
  {
    hide Files.FileSystem.Valid, L.Log.Valid, Area.SameHome, Files.Did;
    fs.Start();
    ok := fs.ServeOne(call);
    b := |fs.logged|;
    if ok {
      ok := LogAll(fs, log);
    }
  }

  method Read1(fs: Files.FileSystem, log: L.Log, v: L.Visit, ghost before: Image)
    requires Open(fs, log, before)
    modifies log`c, log`m, log`held
    ensures Open(fs, log, before) && |log.c.buf| == old(|log.c.buf|)
  {
    hide Files.FileSystem.Valid, Area.SameHome, Area.Settled, Area.Loggable, L.Pinned, L.Log.Holds;
    log.Serve(v, {});
  }

  /** One transaction: begin_op, the calls of all operations of the group and the reads of others in
      any order, end_op, while others read as `visitors` says.  `blocks` counts what the calls
      have logged. */
  method Transaction(fs: Files.FileSystem, log: L.Log, steps: seq<Step>, visitors: seq<seq<L.Visit>>)
    returns (ok: bool, ghost n: nat, ghost blocks: nat)
    requires Linked(fs, log)
    modifies fs, log
    ensures |old(log.trace)| <= |log.trace| && log.trace[..|old(log.trace)|] == old(log.trace)
    ensures L.AllOrNothing(log.area, log.trace[|old(log.trace)|..], n, old(fs.disk), fs.disk)
    ensures ok || |log.trace| > |old(log.trace)| ==>
              fs.Valid(-1) && Files.Ran(Calls(steps), old(fs.Now()), fs.Now())
    ensures ok ==> Linked(fs, log)
    ensures !ok ==>
              || fs.Stopped() || Cramped(log.logsize, log.area, |old(log.c.buf)|, blocks)
              || !L.Undisturbed(old(log.held), visitors) || exists k :: 0 <= k < |steps| && steps[k].Reader?
  {
    hide Files.FileSystem.Valid, L.Log.Valid, Area.SameHome, Area.Represents, Files.Did, Files.Ran, Calls;
    n, blocks := 0, 0;
    ghost var before := fs.disk;
    ok := OpenLog(fs, log);
    if !ok {
      return;
    }
    CallsNone(steps);
    Files.RanNone(fs.Now());
    var k := 0;
    while k < |steps|
      modifies fs, log`c, log`m, log`lh, log`held
      invariant 0 <= k <= |steps| && Open(fs, log, before) && |log.c.buf| == old(|log.c.buf|)
      invariant |log.lh| <= blocks && Files.Ran(Calls(steps[..k]), old(fs.Now()), fs.Now())
      invariant log.held == old(log.held) || exists j :: 0 <= j < k && steps[j].Reader?
    {
      ghost var m := fs.Now();
      CallsMore(steps, k);
      match steps[k] {
        case Act(call) =>
          ghost var b;
          ok, b := Act1(fs, log, call, before);
          blocks := blocks + b;
          if !ok {
            return;
          }
          Files.RanMore(Calls(steps[..k]), call, old(fs.Now()), m, fs.Now());
        case Reader(v) => Read1(fs, log, v, before);
      }
      k := k + 1;
    }
    assert steps[..|steps|] == steps;
    ok, n := CloseLog(fs, log, visitors, before);
  }

  lemma CallsNone(steps: seq<Step>)
    ensures Calls(steps[..0]) == []
  {
  }

  /** One chunk of filewrite() on the log.  Any crash leaves the file as it was or with the bytes
      spliced in; on return they are durable.  The reservation is enough, so the only panics are
      those of a full disk and of too few buffers. */
  method WriteDurably(fs: Files.FileSystem, log: L.Log, t: nat, off: nat, data: seq<byte>, avail: nat,
                      visitors: seq<seq<L.Visit>>)
    returns (ok: bool, r: int, ghost n: nat)
    requires Linked(fs, log) && fs.Locked(t) && off < 0x1_0000_0000 && |data| <= 3 * BSIZE
    modifies fs, log
    ensures |old(log.trace)| <= |log.trace| && log.trace[..|old(log.trace)|] == old(log.trace)
    ensures L.AllOrNothing(log.area, log.trace[|old(log.trace)|..], n, old(fs.disk), fs.disk)
    ensures ok ==> Linked(fs, log) && log.area.Represents(log.disk, fs.disk)
    ensures ok || |log.trace| > |old(log.trace)| ==>
              && old(fs.tab[t]).inum < |old(fs.g).ino| == |fs.g.ino|
              && Files.WroteFile(old(fs.g), fs.g, old(fs.tab[t]).inum, off, data, if r > 0 then r else 0)
    ensures ok && off <= old(fs.tab[t]).din.size && off + |data| <= MAXFILE * BSIZE && |data| <= avail ==> r == |data|
    ensures !ok ==>
              || fs.Full() || Cramped(log.logsize, log.area, |old(log.c.buf)|, Files.MAXOPBLOCKS)
              || !L.Undisturbed(old(log.held), visitors)
  {
    hide Files.FileSystem.Valid, L.Log.Valid, Area.SameHome, Area.Represents, Files.WroteFile, Files.FileSystem.Full;
    n, r := 0, 0;
    ghost var before := fs.disk;
    ok := OpenLog(fs, log);
    if !ok {
      return;
    }
    ok, r := fs.WriteTransaction(t, off, data, avail);
    if !ok {
      return;
    }
    ok := LogAll(fs, log);
    if ok {
      ok, n := CloseLog(fs, log, visitors, before);
      if ok {
        LinkedStands(fs, log);
      }
    }
  }

  // ---- whole runs --------------------------------------------------------------------------

  datatype Group = Group(steps: seq<Step>, visitors: seq<seq<L.Visit>>)

  /** `snaps` are file systems that meet the invariant, and images[j] stands for snaps[at[j]],
      never for an earlier one than the image before it. */
  ghost predicate Story(sb: Super, area: Area, images: seq<Image>, snaps: seq<Files.State>, at: seq<nat>) {
    && |at| == |images| && |snaps| > 0 && (forall s :: 0 <= s < |snaps| ==> Sound(sb, snaps[s].g))
    && (forall j :: 0 <= j < |images| ==> at[j] < |snaps| && area.Represents(images[j], snaps[at[j]].g.disk))
    && (forall i, j :: 0 <= i < j < |at| ==> at[i] <= at[j])
  }

  /** Each snapshot is what the calls of its group make of the one before. */
  ghost predicate Worked(groups: seq<Group>, snaps: seq<Files.State>) {
    && 0 < |snaps| <= |groups| + 1
    && forall s :: 0 < s < |snaps| ==> Files.Ran(Calls(groups[s - 1].steps), snaps[s - 1], snaps[s])
  }

  lemma WorkedMore(groups: seq<Group>, snaps: seq<Files.State>, next: Files.State)
    requires Worked(groups, snaps) && |snaps| <= |groups|
    requires Files.Ran(Calls(groups[|snaps| - 1].steps), snaps[|snaps| - 1], next)
    ensures Worked(groups, snaps + [next])
  {
    hide Files.Ran, Calls;
  }

  ghost predicate Sound(sb: Super, f: Fs) { f.Inv(sb) && f.extra == {} && f.Stored(sb, -1) }

  /** After one more transaction, whose first n images stand for the last snapshot. */
  ghost function Told(at: seq<nat>, last: nat, more: nat, n: nat): (r: seq<nat>)
    ensures |r| == |at| + more
  {
    at + seq(more, j => if j < n then last else last + 1)
  }

  lemma StoryStep(sb: Super, area: Area, images: seq<Image>, snaps: seq<Files.State>, at: seq<nat>, more: seq<Image>,
                  n: nat, f: Files.State)
    requires Story(sb, area, images, snaps, at) && Sound(sb, f.g)
    requires L.AllOrNothing(area, more, n, snaps[|snaps| - 1].g.disk, f.g.disk)
    ensures Story(sb, area, images + more, snaps + [f], Told(at, |snaps| - 1, |more|, n))
  {
    hide Area.Represents, Sound;
    var all, told, next := images + more, Told(at, |snaps| - 1, |more|, n), snaps + [f];
    forall j | 0 <= j < |all| ensures told[j] < |next| && area.Represents(all[j], next[told[j]].g.disk) {
      if j >= |images| {
        assert all[j] == more[j - |images|];
      }
    }
  }

  /** Any number of transactions one after another: every image the disk ever passes through
      stands for the file system after some number of whole transactions, in order. */
  method Work(fs: Files.FileSystem, log: L.Log, groups: seq<Group>)
    returns (ok: bool, ghost snaps: seq<Files.State>, ghost at: seq<nat>)
    requires Linked(fs, log)
    modifies fs, log
    ensures |old(log.trace)| <= |log.trace| && log.trace[..|old(log.trace)|] == old(log.trace)
    ensures Story(fs.sb, log.area, log.trace[|old(log.trace)|..], snaps, at) && snaps[0] == old(fs.Now())
    ensures Worked(groups, snaps)
    ensures ok ==> Linked(fs, log) && snaps[|snaps| - 1] == fs.Now() && |snaps| == |groups| + 1
  {
    hide Files.FileSystem.Valid, L.Log.Valid, Area.SameHome, Area.Represents, Story, Sound, L.AllOrNothing,
         Files.Ran, Calls;
    ghost var t0 := |log.trace|;
    Snapshot(fs);
    StoryStart(fs.sb, log.area, fs.Now());
    ok, snaps, at := true, [fs.Now()], [];
    assert log.trace[t0..] == [];
    var k := 0;
    while k < |groups| && ok
      invariant 0 <= k <= |groups| && t0 <= |log.trace| && log.trace[..t0] == old(log.trace)
      invariant Story(fs.sb, log.area, log.trace[t0..], snaps, at) && Worked(groups, snaps)
      invariant snaps[0] == old(fs.Now()) && |snaps| <= k + 1
      invariant ok ==> Linked(fs, log) && snaps[|snaps| - 1] == fs.Now() && |snaps| == k + 1
    {
      Snapshot(fs);
      ghost var before := log.trace;
      ghost var n, blocks;
      ok, n, blocks := Transaction(fs, log, groups[k].steps, groups[k].visitors);
      ghost var more := log.trace[|before|..];
      assert log.trace == before + more;
      assert log.trace[t0..] == before[t0..] + more;
      if more != [] || ok {
        Snapshot(fs);
        StoryStep(fs.sb, log.area, before[t0..], snaps, at, more, n, fs.Now());
        WorkedMore(groups, snaps, fs.Now());
        snaps, at := snaps + [fs.Now()], Told(at, |snaps| - 1, |more|, n);
      } else {
        assert log.trace[t0..] == before[t0..];
      }
      k := k + 1;
    }
  }

  lemma Snapshot(fs: Files.FileSystem)
    requires fs.Valid(-1)
    ensures Sound(fs.sb, fs.g) && fs.g.disk == fs.disk
  {
  }

  lemma StoryStart(sb: Super, area: Area, f: Files.State)
    requires Sound(sb, f.g)
    ensures Story(sb, area, [], [f], [])
  {
  }

  /** Let the machine crash at an image that stands for the file system f, let any number of
      recoveries crash, and let one complete.  What is then on disk is f: it meets the
      invariant, its inodes are f's, and so is every byte of every file. */
  lemma Recovered(sb: Super, area: Area, f: Fs, ds: seq<Image>)
    requires Sound(sb, f) && area.start + area.size <= sb.inodestart
    requires area.Crashes(ds) && area.Represents(ds[0], f.disk)
    ensures var last := ds[|ds| - 1];
            && area.Sane(last)
            && var e := f.(disk := area.RecoveryDisk(last, |Heads(last[area.start])| + 1));
               Sound(sb, e) && f.SameBytes(e)
  {
    hide Area.Recovering, Fs.Inv, Fs.Stored, Fs.SameBytes;
    area.CrashesKeep(ds, f.disk);
    var last := ds[|ds| - 1];
    area.RecoveryKeeps(last, f.disk, |Heads(last[area.start])| + 1);
    f.HomeOnly(sb, area.RecoveryDisk(last, |Heads(last[area.start])| + 1));
  }
}
