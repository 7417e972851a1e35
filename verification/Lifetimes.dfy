/** The life of a disk: mkfs writes it, and then the machine boots, recovers, mounts, works and
    crashes any number of times, in recovery too.  It always holds the file system after some
    number of whole transactions. */
module Lifetimes {
  import opened Blocks
  import opened Recovery
  import opened FsLayout
  import opened FsCore
  import opened DurableFs
  import B = BufferCache
  import Files = FileSystem
  import L = Log
  import M = Mkfs

  /** What is fixed from boot to boot. */
  datatype Machine = Machine(sb: Super, area: Area, dev: nat, logsize: nat, nbuf: nat, nentries: nat) {
    ghost predicate Ok() {
      && dev != 0 && nbuf >= 2 && logsize + 1 < WORDS
      && 2 <= area.start && 0 < area.size && area.start + area.size <= sb.inodestart
    }
  }

  /** The two file systems have the same inodes and the same bytes in every file. */
  ghost predicate Same(f: Fs, g: Fs) { f.ino == g.ino && f.SameBytes(g) }

  /** f as mounted: no entry of the inode table is in use. */
  ghost predicate Booted(mc: Machine, f: Fs, s: Files.State) {
    Same(f, s.g) && |s.tab| == mc.nentries && forall t :: 0 <= t < |s.tab| ==> s.tab[t].ref == 0
  }

  /** The buffer cache after binit(). */
  function BootCache(n: nat): (c: B.Cache)
    ensures |c.buf| == n && c.Valid() && forall i :: 0 <= i < n ==> !c.buf[i].valid && c.buf[i].refcnt == 0
  {
    var order: seq<nat> := seq(n, k requires 0 <= k < n => n - 1 - k);
    assert forall i :: 0 <= i < n ==> i in order by {
      forall i | 0 <= i < n ensures i in order { assert order[n - 1 - i] == i; }
    }
    B.Cache(seq(n, _ => B.Buf(false, 0, 0, 0, Zero())), order)
  }

  /** Boot: initlog() with its recovery, then the file system on what is on disk.  Every image the
      disk passes through stands for f, and what is mounted is f. */
  method Mount(mc: Machine, image: Image, ghost f: Fs) returns (log: L.Log, fs: Files.FileSystem)
    requires mc.Ok() && Sound(mc.sb, f) && mc.area.Represents(image, f.disk)
    ensures fresh(log) && fresh(fs) && log.area == mc.area && fs.sb == mc.sb
    ensures forall j :: 0 <= j < |log.trace| ==> mc.area.Represents(log.trace[j], f.disk)
    ensures Linked(fs, log) && Booted(mc, f, fs.Now()) && mc.area.SameHome(f.disk, fs.disk)
  {
    hide Fs.Inv, Fs.Stored, Fs.SameBytes, Area.Represents, L.Log.Valid, L.Log.Holds;
    log := new L.Log(mc.dev, mc.area, mc.logsize, BootCache(mc.nbuf), image);
    var ok := log.RecoverFromLog(f.disk);
    SettledHome(mc.area, log.disk, f.disk, mc.sb.inodestart);
    f.HomeOnly(mc.sb, log.disk);
    fs := new Files.FileSystem(mc.sb, log.disk, mc.nentries, f.(disk := log.disk));
  }

  lemma SettledHome(area: Area, d: Image, v: Image, lo: nat)
    requires area.Settled(d, v) && area.start + area.size <= lo
    ensures |d| == |v| && area.SameHome(v, d) && area.SameHome(d, d)
    ensures forall x {:trigger d[x]} :: lo <= x < |v| ==> d[x] == v[x]
  {
  }

  // ---- one life --------------------------------------------------------------------------------

  /** From boot to crash: `snaps` are the file systems after each transaction, the first one is f, and
      the disk is left standing for snaps[cut]. */
  ghost predicate Lived(mc: Machine, groups: seq<Group>, f: Fs, snaps: seq<Files.State>, cut: nat, after: Image) {
    && cut < |snaps| && (forall s :: 0 <= s < |snaps| ==> Sound(mc.sb, snaps[s].g))
    && Booted(mc, f, snaps[0]) && Worked(groups, snaps) && mc.area.Represents(after, snaps[cut].g.disk)
  }

  /** Boot, work, and crash after `crash` of the block writes, those of recovery included, or after
      the last one.  If no transaction panics and the crash comes after the last write, all of
      them have happened. */
  method Live(mc: Machine, image: Image, groups: seq<Group>, crash: nat, ghost f: Fs)
    returns (ok: bool, writes: nat, after: Image, ghost snaps: seq<Files.State>, ghost cut: nat)
    requires mc.Ok() && Sound(mc.sb, f) && mc.area.Represents(image, f.disk)
    ensures Lived(mc, groups, f, snaps, cut, after)
    ensures ok ==> |snaps| == |groups| + 1
    ensures ok && crash > writes ==> cut == |groups|
  {
    hide Area.Represents, Sound, Fs.SameBytes, Files.FileSystem.Valid, L.Log.Valid, Area.SameHome, Worked, Booted;
    var log, fs := Mount(mc, image, f);
    ghost var recovery := |log.trace|;
    RepresentsSame(mc.area, image, f.disk, fs.disk);
    forall j | 0 <= j < recovery ensures mc.area.Represents(log.trace[j], fs.disk) {
      RepresentsSame(mc.area, log.trace[j], f.disk, fs.disk);
    }
    Snapshot(fs);
    ghost var at;
    ok, snaps, at := Work(fs, log, groups);
    writes := |log.trace|;
    if crash == 0 {
      after, cut := image, 0;
    } else if crash <= writes {
      after := log.trace[crash - 1];
      cut := if crash <= recovery then 0 else at[crash - 1 - recovery];
      assert crash <= recovery ==> after == log.trace[..recovery][crash - 1];
      assert crash > recovery ==> after == log.trace[recovery..][crash - 1 - recovery];
    } else if ok {
      LinkedStands(fs, log);
      Snapshot(fs);
      after, cut := log.disk, |groups|;
    } else if writes == 0 {
      after, cut := image, 0;
    } else {
      after := log.trace[writes - 1];
      cut := if writes == recovery then 0 else at[writes - 1 - recovery];
      assert writes == recovery ==> after == log.trace[..recovery][writes - 1];
      assert writes > recovery ==> after == log.trace[recovery..][writes - 1 - recovery];
    }
  }

  // ---- any number of lives -----------------------------------------------------------------------

  datatype Life = Life(groups: seq<Group>, crash: nat)

  /** The file system the disk stood for when life r began. */
  ghost function At(f: Fs, hist: seq<seq<Files.State>>, cuts: seq<nat>, r: nat): Fs
    requires r <= |hist| == |cuts| && forall i :: 0 <= i < |hist| ==> cuts[i] < |hist[i]|
  {
    if r == 0 then f else hist[r - 1][cuts[r - 1]].g
  }

  /** Each life begins with the file system the one before left, and each of its states meets the
      invariant and is what the calls of a transaction make of the state before. */
  ghost predicate Chain(mc: Machine, lives: seq<Life>, f: Fs, hist: seq<seq<Files.State>>, cuts: seq<nat>) {
    && |hist| == |cuts| == |lives| && (forall i :: 0 <= i < |hist| ==> cuts[i] < |hist[i]|)
    && (forall i, s :: 0 <= i < |hist| && 0 <= s < |hist[i]| ==> Sound(mc.sb, hist[i][s].g))
    && (forall i :: 0 <= i < |hist| ==> Worked(lives[i].groups, hist[i]))
    && (forall i :: 0 <= i < |hist| ==> Booted(mc, At(f, hist, cuts, i), hist[i][0]))
  }

  lemma ChainMore(mc: Machine, lives: seq<Life>, f: Fs, hist: seq<seq<Files.State>>, cuts: seq<nat>,
                  life: Life, snaps: seq<Files.State>, cut: nat, after: Image)
    requires Chain(mc, lives, f, hist, cuts) && Lived(mc, life.groups, At(f, hist, cuts, |hist|), snaps, cut, after)
    ensures Chain(mc, lives + [life], f, hist + [snaps], cuts + [cut])
    ensures At(f, hist + [snaps], cuts + [cut], |hist| + 1) == snaps[cut].g
  {
    hide Sound, Booted, Worked;
    var h, c := hist + [snaps], cuts + [cut];
    forall i | 0 <= i < |h| ensures Booted(mc, At(f, h, c, i), h[i][0]) {
      assert At(f, h, c, i) == At(f, hist, cuts, i);
      assert i < |hist| ==> Booted(mc, At(f, hist, cuts, i), hist[i][0]);
    }
  }

  /** Any number of lives: the disk ends up standing for a file system reached by whole transactions
      only, those of each life up to its crash. */
  method Lives(mc: Machine, image: Image, lives: seq<Life>, ghost f: Fs)
    returns (after: Image, ghost hist: seq<seq<Files.State>>, ghost cuts: seq<nat>)
    requires mc.Ok() && Sound(mc.sb, f) && mc.area.Represents(image, f.disk)
    ensures Chain(mc, lives, f, hist, cuts)
    ensures Sound(mc.sb, At(f, hist, cuts, |hist|)) && mc.area.Represents(after, At(f, hist, cuts, |hist|).disk)
  {
    hide Area.Represents, Sound, Booted, Worked, Chain, Lived;
    after, hist, cuts := image, [], [];
    ChainNone(mc, f);
    var r := 0;
    assert lives[..0] == [];
    while r < |lives|
      invariant 0 <= r == |hist| <= |lives| && Chain(mc, lives[..r], f, hist, cuts)
      invariant |cuts| == |hist| && forall i :: 0 <= i < |hist| ==> cuts[i] < |hist[i]|
      invariant Sound(mc.sb, At(f, hist, cuts, r)) && mc.area.Represents(after, At(f, hist, cuts, r).disk)
    {
      ghost var now := At(f, hist, cuts, r);
      var ok, writes;
      ghost var snaps, cut;
      ok, writes, after, snaps, cut := Live(mc, after, lives[r].groups, lives[r].crash, now);
      LivedParts(mc, lives[r].groups, now, snaps, cut, after);
      ChainMore(mc, lives[..r], f, hist, cuts, lives[r], snaps, cut, after);
      assert lives[..r + 1] == lives[..r] + [lives[r]];
      hist, cuts := hist + [snaps], cuts + [cut];
      r := r + 1;
    }
    assert lives[..|lives|] == lives;
  }

  lemma ChainNone(mc: Machine, f: Fs)
    ensures Chain(mc, [], f, [], [])
  {
  }

  lemma LivedParts(mc: Machine, groups: seq<Group>, f: Fs, snaps: seq<Files.State>, cut: nat, after: Image)
    requires Lived(mc, groups, f, snaps, cut, after)
    ensures cut < |snaps| && Sound(mc.sb, snaps[cut].g) && mc.area.Represents(after, snaps[cut].g.disk)
  {
  }

  // ---- from mkfs on ------------------------------------------------------------------------------

  /** A blank log means what is on disk. */
  lemma BlankStands(sb: Super, area: Area, d: Image)
    requires M.BlankLog(sb, d) && sb.Valid() && 2 <= area.start && 0 < area.size
               && area.start + area.size <= sb.inodestart
    ensures area.Represents(d, d)
  {
    ZeroWords(0);
    assert d[area.start] == Zero();
    assert Heads(d[area.start]) == [];
  }

  /** mkfs, then any number of lives.  If the build completes and its root does not end on a block
      boundary, the first file system has the host's files and the root's entries, and after all
      crashes the disk stands for a file system reached from it by whole transactions. */
  method History(mc: Machine, super: Block, dot: seq<byte>, dotdot: seq<byte>, files: seq<M.HostFile>, lives: seq<Life>)
    returns (ok: bool, after: Image, ghost first: Fs, ghost hist: seq<seq<Files.State>>, ghost cuts: seq<nat>)
    requires mc.Ok() && mc.sb.Valid() && mc.sb.ninodes > 1
    requires |dot| == |dotdot| == M.BYTES_PER_DIRENT
    requires forall k :: 0 <= k < |files| ==> |files[k].dirent| == M.BYTES_PER_DIRENT
    ensures ok <==> M.Room(mc.sb, files, |files|) && M.Used(mc.sb, files, |files|) < BITS && (2 + |files|) % 64 != 0
    ensures ok ==> M.FilesIn(first, files, |files|) && M.RootIs(first, M.Entries(dot + dotdot, files, |files|))
    ensures ok ==> Chain(mc, lives, first, hist, cuts)
    ensures ok ==>
              var last := At(first, hist, cuts, |hist|);
              Sound(mc.sb, last) && mc.area.Represents(after, last.disk)
  {
    hide Area.Represents, Booted, Worked, M.Room, M.Used, M.FilesIn, M.RootIs, M.Starts, M.Entries, M.BlankLog, Fs.Inv,
         Fs.Stored;
    after, first, hist, cuts := [], Fs([], [], map[], {}), [], [];
    var mkfs := new M.Mkfs(mc.sb, super);
    ok := mkfs.Build(dot, dotdot, files);
    ok := ok && (2 + |files|) % 64 != 0;
    if ok {
      first := mkfs.g.(disk := mkfs.disk);
      M.MeetsExactly(mc.sb, first);
      BuiltSound(mc.sb, first);
      BlankStands(mc.sb, mc.area, mkfs.disk);
      after, hist, cuts := Lives(mc, mkfs.disk, lives, first);
    }
  }

  lemma BuiltSound(sb: Super, f: Fs)
    requires M.Allocated(sb, f) && f.Filled()
    ensures Sound(sb, f)
  {
  }
}
