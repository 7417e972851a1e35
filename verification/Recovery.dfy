/** What the on-disk redo log of kernel/log.c means, and why a crash between any two block
    writes is harmless.  A disk image is a sequence of blocks; the log occupies the blocks
    start .. start+size, header first. */
module Recovery {
  import opened Blocks

  /** The block numbers recorded in a header block. */
  function Heads(b: Block): (h: seq<nat>)
    ensures Word(b, 0) < WORDS ==> |h| == Word(b, 0)
    ensures forall i :: 0 <= i < |h| ==> i + 1 < WORDS && h[i] == Word(b, i + 1)
  {
    seq(if Word(b, 0) < WORDS then Word(b, 0) else 0, i requires 0 <= i < WORDS - 1 => Word(b, i + 1))
  }

  /** Header block after write_head's loop has copied k entries. */
  function PutHeads(b: Block, lh: seq<nat>, k: nat): (r: Block)
    requires k <= |lh| < WORDS
    ensures Word(r, 0) == |lh|
    ensures forall i :: 0 <= i < k ==> Word(r, i + 1) == lh[i] % 0x1_0000_0000
  {
    if k == 0 then SetWord(b, 0, |lh|) else SetWord(PutHeads(b, lh, k - 1), k, lh[k - 1] % 0x1_0000_0000)
  }

  lemma HeadsRoundTrip(b: Block, lh: seq<nat>)
    requires |lh| < WORDS && forall i :: 0 <= i < |lh| ==> lh[i] < 0x1_0000_0000
    ensures Heads(PutHeads(b, lh, |lh|)) == lh
  {
    hide PutHeads, Word;
    var h := Heads(PutHeads(b, lh, |lh|));
    forall i | 0 <= i < |lh| ensures h[i] == lh[i] { }
  }

  function Put(d: Image, b: nat, x: Block): Image { if b < |d| then d[b := x] else d }

  datatype Area = Area(start: nat, size: nat) {

    predicate Holds(b: nat) { start <= b < start + size }

    /** A list of home blocks that can be logged together. */
    ghost predicate Loggable(d: Image, lh: seq<nat>) {
      && start + size <= |d| < 0x1_0000_0000 && |lh| < size && |lh| < WORDS
      && (forall i :: 0 <= i < |lh| ==> lh[i] < |d| && !Holds(lh[i]))
      && (forall i, j :: 0 <= i < j < |lh| ==> lh[i] != lh[j])
    }

    lemma LoggableSize(d: Image, e: Image, lh: seq<nat>)
      requires Loggable(d, lh) && |e| == |d|
      ensures Loggable(e, lh) && Loggable(e, []) && start !in lh
    {
    }

    lemma LoggableAdd(d: Image, lh: seq<nat>, b: nat)
      requires Loggable(d, lh) && |lh| + 1 < size && |lh| + 1 < WORDS && b < |d| && !Holds(b) && b !in lh
      ensures Loggable(d, lh + [b])
    {
    }

    /** The image holds a sane header: every image the kernel can leave behind does. */
    ghost predicate Sane(d: Image) {
      0 < size && start + size <= |d| && Word(d[start], 0) < WORDS && Loggable(d, Heads(d[start]))
    }

    /** The home blocks that image d durably stands for are those of v: a block named in
        the header is taken from the log, any other from its own place. */
    ghost predicate Represents(d: Image, v: Image) {
      Sane(d) && |v| == |d| && FromLog(d, Heads(d[start]), v) && FromHome(d, Heads(d[start]), v)
    }

    ghost predicate FromLog(d: Image, lh: seq<nat>, v: Image)
      requires Loggable(d, lh) && |v| == |d|
    {
      forall i :: 0 <= i < |lh| ==> v[lh[i]] == d[start + 1 + i]
    }

    ghost predicate FromHome(d: Image, lh: seq<nat>, v: Image)
      requires |v| == |d|
    {
      forall b {:trigger v[b]} :: 0 <= b < |d| && !Holds(b) && b !in lh ==> v[b] == d[b]
    }

    /** The home blocks of d and v are the same. */
    ghost predicate SameHome(d: Image, v: Image) {
      |d| == |v| && forall b {:trigger v[b]} :: 0 <= b < |d| && !Holds(b) ==> v[b] == d[b]
    }

    /** d's home blocks are physically those of v and the log is empty. */
    ghost predicate Settled(d: Image, v: Image) {
      Sane(d) && Word(d[start], 0) == 0 && SameHome(d, v)
    }

    // ---- the disk after each write of the kernel's routines -----------------------

    /** write_log(): the first k cached blocks copied into the log. */
    ghost function Logged(d: Image, lh: seq<nat>, v: Image, k: nat): (r: Image)
      ensures |r| == |d|
    {
      if k == 0 then d
      else if k <= |lh| && lh[k - 1] < |v| then Put(Logged(d, lh, v, k - 1), start + k, v[lh[k - 1]])
      else Logged(d, lh, v, k - 1)
    }

    /** write_head() */
    ghost function Headed(d: Image, lh: seq<nat>): (r: Image)
      ensures |r| == |d|
    {
      if start < |d| && |lh| < WORDS then d[start := PutHeads(d[start], lh, |lh|)] else d
    }

    /** install_trans(): the first k logged blocks copied home. */
    ghost function Installed(d: Image, lh: seq<nat>, k: nat): (r: Image)
      ensures |r| == |d|
    {
      if k == 0 then d
      else if k <= |lh| && start + k < |d| then Put(Installed(d, lh, k - 1), lh[k - 1], d[start + k])
      else Installed(d, lh, k - 1)
    }

    /** The disk after k of the block writes of recover_from_log() with header entries lh. */
    ghost function Recovering(d: Image, lh: seq<nat>, k: nat): (r: Image) {
      if k <= |lh| then Installed(d, lh, k) else Headed(Installed(d, lh, |lh|), [])
    }

    /** The disk after k of the |lh|+1 block writes of recover_from_log(). */
    ghost function RecoveryDisk(d: Image, k: nat): (r: Image)
      requires Sane(d)
    {
      Recovering(d, Heads(d[start]), k)
    }

    /** The disk after k of the 2|lh|+2 block writes of commit(). */
    ghost function CommitDisk(d: Image, lh: seq<nat>, v: Image, k: nat): (r: Image) {
      if k <= |lh| then Logged(d, lh, v, k)
      else Recovering(Headed(Logged(d, lh, v, |lh|), lh), lh, k - |lh| - 1)
    }

    /** The successive disks of write_log(), install_trans(), recover_from_log() and commit(). */
    ghost function LogTrace(d: Image, lh: seq<nat>, v: Image, k: nat): (t: seq<Image>)
      ensures |t| == k
    {
      if k == 0 then [] else LogTrace(d, lh, v, k - 1) + [Logged(d, lh, v, k)]
    }

    ghost function InstallTrace(d: Image, lh: seq<nat>, k: nat): (t: seq<Image>)
      ensures |t| == k
    {
      if k == 0 then [] else InstallTrace(d, lh, k - 1) + [Installed(d, lh, k)]
    }

    ghost function RecoveryTrace(d: Image, lh: seq<nat>, k: nat): (t: seq<Image>)
      ensures |t| == k
    {
      if k == 0 then [] else RecoveryTrace(d, lh, k - 1) + [Recovering(d, lh, k)]
    }

    ghost function CommitTrace(d: Image, lh: seq<nat>, v: Image, k: nat): (t: seq<Image>)
      ensures |t| == k
    {
      if k == 0 then [] else CommitTrace(d, lh, v, k - 1) + [CommitDisk(d, lh, v, k)]
    }

    lemma {:induction false} RecoveryTraceParts(d: Image, lh: seq<nat>, k: nat)
      requires k <= |lh|
      ensures RecoveryTrace(d, lh, k) == InstallTrace(d, lh, k)
    {
      if k > 0 { RecoveryTraceParts(d, lh, k - 1); }
    }

    lemma {:induction false} CommitTraceParts(d: Image, lh: seq<nat>, v: Image, k: nat)
      ensures CommitTrace(d, lh, v, k)
           == if k <= |lh| then LogTrace(d, lh, v, k)
              else var e := Headed(Logged(d, lh, v, |lh|), lh);
                   LogTrace(d, lh, v, |lh|) + [e] + RecoveryTrace(e, lh, k - |lh| - 1)
    {
      if k > 0 {
        CommitTraceParts(d, lh, v, k - 1);
        if k == |lh| + 1 {
          var e := Headed(Logged(d, lh, v, |lh|), lh);
          assert CommitDisk(d, lh, v, k) == e;
          assert RecoveryTrace(e, lh, 0) == [];
        }
      }
    }

    lemma {:induction false} RecoveryTraceAt(d: Image, lh: seq<nat>, k: nat, j: nat)
      requires j < k
      ensures RecoveryTrace(d, lh, k)[j] == Recovering(d, lh, j + 1)
    {
      if j < k - 1 { RecoveryTraceAt(d, lh, k - 1, j); }
    }

    lemma {:induction false} CommitTraceAt(d: Image, lh: seq<nat>, v: Image, k: nat, j: nat)
      requires j < k
      ensures CommitTrace(d, lh, v, k)[j] == CommitDisk(d, lh, v, j + 1)
    {
      if j < k - 1 { CommitTraceAt(d, lh, v, k - 1, j); }
    }

    // ---- crash atomicity ------------------------------------------------------------

    /** The durable contents are determined by the image. */
    lemma RepresentsUnique(d: Image, v: Image, w: Image)
      requires Represents(d, v) && Represents(d, w)
      ensures SameHome(v, w)
    {
      var lh := Heads(d[start]);
      forall b | 0 <= b < |d| && !Holds(b) ensures v[b] == w[b] {
        if b in lh {
          var i :| 0 <= i < |lh| && lh[i] == b;
        }
      }
    }

    lemma {:induction false} LoggedAt(d: Image, lh: seq<nat>, v: Image, k: nat, b: nat)
      requires Loggable(d, lh) && |v| == |d| && k <= |lh| && b < |d|
      ensures Logged(d, lh, v, k)[b] == if start < b <= start + k then v[lh[b - start - 1]] else d[b]
    {
      if k > 0 { LoggedAt(d, lh, v, k - 1, b); }
    }

    lemma {:induction false} InstalledAt(d: Image, lh: seq<nat>, v: Image, k: nat, b: nat)
      requires Loggable(d, lh) && |v| == |d| && FromLog(d, lh, v) && k <= |lh| && b < |d|
      ensures Installed(d, lh, k)[b] == if b in lh[..k] then v[b] else d[b]
    {
      if k > 0 {
        InstalledAt(d, lh, v, k - 1, b);
        assert lh[..k] == lh[..k - 1] + [lh[k - 1]];
        assert v[lh[k - 1]] == d[start + k];
      }
    }

    /** What round t of a loop over the log header may rely on. */
    lemma Round(d: Image, lh: seq<nat>, t: nat)
      requires Loggable(d, lh) && t < |lh|
      ensures lh[t] < |d| && !Holds(lh[t]) && Holds(start + t + 1) && start + t + 1 < |d| && lh[t] != start + t + 1
      ensures start + t + 1 !in lh && forall j :: t < j < |lh| ==> lh[j] != lh[t]
    {
    }

    /** Installing any number of log blocks leaves the log area, and so the header, alone. */
    lemma {:induction false} InstalledLogArea(d: Image, lh: seq<nat>, k: nat, l: nat)
      requires Loggable(d, lh) && k <= |lh| && Holds(l)
      ensures Installed(d, lh, k)[l] == d[l]
    {
      if k > 0 { InstalledLogArea(d, lh, k - 1, l); }
    }

    lemma InstallNone(d: Image, lh: seq<nat>)
      ensures Installed(d, lh, 0) == d && InstallTrace(d, lh, 0) == []
    {
    }

    lemma InstallStep(d: Image, lh: seq<nat>, t: nat)
      requires Loggable(d, lh) && t < |lh|
      ensures Installed(d, lh, t)[start + t + 1] == d[start + t + 1]
      ensures Installed(d, lh, t + 1) == Put(Installed(d, lh, t), lh[t], d[start + t + 1])
      ensures InstallTrace(d, lh, t + 1) == InstallTrace(d, lh, t) + [Installed(d, lh, t + 1)]
    {
      InstalledLogArea(d, lh, t, start + t + 1);
    }

    lemma InstalledKeeps(d: Image, lh: seq<nat>, v: Image, k: nat)
      requires Loggable(d, lh) && |v| == |d| && FromLog(d, lh, v) && FromHome(d, lh, v) && k <= |lh|
      ensures Installed(d, lh, k)[start] == d[start]
      ensures FromLog(Installed(d, lh, k), lh, v) && FromHome(Installed(d, lh, k), lh, v)
    {
      var r := Installed(d, lh, k);
      InstalledLogArea(d, lh, k, start);
      forall i | 0 <= i < |lh| ensures v[lh[i]] == r[start + 1 + i] {
        InstalledLogArea(d, lh, k, start + 1 + i);
      }
      forall b | 0 <= b < |d| && !Holds(b) && b !in lh ensures v[b] == r[b] {
        InstalledAt(d, lh, v, k, b);
      }
    }

    lemma InstalledAll(d: Image, lh: seq<nat>, v: Image)
      requires Loggable(d, lh) && |v| == |d| && FromLog(d, lh, v) && FromHome(d, lh, v)
      ensures SameHome(Installed(d, lh, |lh|), v)
    {
      forall b | 0 <= b < |d| && !Holds(b) ensures v[b] == Installed(d, lh, |lh|)[b] {
        InstalledAt(d, lh, v, |lh|, b);
        assert lh[..|lh|] == lh;
      }
    }

    /** Clearing the header of an image whose home blocks are v's settles it. */
    lemma ClearSettles(d: Image, v: Image)
      requires 0 < size && start + size <= |d| < 0x1_0000_0000 && SameHome(d, v)
      ensures Loggable(d, []) && Settled(Headed(d, []), v) && Represents(Headed(d, []), v)
    {
      HeadsRoundTrip(d[start], []);
    }

    /** A crashed recovery changes nothing durable; a completed one settles the disk. */
    lemma RecoveryKeeps(d: Image, v: Image, k: nat)
      requires Represents(d, v) && k <= |Heads(d[start])| + 1
      ensures Represents(RecoveryDisk(d, k), v)
      ensures k == |Heads(d[start])| + 1 ==> Settled(RecoveryDisk(d, k), v)
    {
      var lh := Heads(d[start]);
      if k <= |lh| {
        InstalledKeeps(d, lh, v, k);
      } else {
        InstalledAll(d, lh, v);
        ClearSettles(Installed(d, lh, |lh|), v);
      }
    }

    lemma LoggedKeeps(d: Image, lh: seq<nat>, v: Image, w: Image, k: nat)
      requires Settled(d, v) && Loggable(d, lh) && |w| == |d| && k <= |lh|
      ensures Represents(Logged(d, lh, w, k), v)
    {
      LoggedAt(d, lh, w, k, start);
      forall b | 0 <= b < |d| && !Holds(b) ensures v[b] == Logged(d, lh, w, k)[b] {
        LoggedAt(d, lh, w, k, b);
      }
    }

    lemma {:induction false} LoggedEntry(d: Image, lh: seq<nat>, v: Image, k: nat, i: nat)
      requires Loggable(d, lh) && |v| == |d| && i < k <= |lh|
      ensures Logged(d, lh, v, k)[start + 1 + i] == v[lh[i]]
    {
      if i < k - 1 { LoggedEntry(d, lh, v, k - 1, i); }
    }

    lemma LoggedFromLog(d: Image, lh: seq<nat>, w: Image)
      requires Loggable(d, lh) && |w| == |d|
      ensures FromLog(Logged(d, lh, w, |lh|), lh, w)
    {
      forall i | 0 <= i < |lh| ensures w[lh[i]] == Logged(d, lh, w, |lh|)[start + 1 + i] {
        LoggedEntry(d, lh, w, |lh|, i);
      }
    }

    lemma LoggedFromHome(d: Image, lh: seq<nat>, v: Image, w: Image, k: nat)
      requires SameHome(d, v) && Loggable(d, lh) && |w| == |d| && FromHome(v, lh, w) && k <= |lh|
      ensures FromHome(Logged(d, lh, w, k), lh, w)
    {
      forall b | 0 <= b < |d| && !Holds(b) && b !in lh ensures w[b] == Logged(d, lh, w, k)[b] {
        LoggedAt(d, lh, w, k, b);
      }
    }

    lemma HeadedCommits(g: Image, lh: seq<nat>, w: Image)
      requires Loggable(g, lh) && |w| == |g| && FromLog(g, lh, w) && FromHome(g, lh, w)
      ensures Heads(Headed(g, lh)[start]) == lh && Represents(Headed(g, lh), w)
    {
      HeadsRoundTrip(g[start], lh);
      var e := Headed(g, lh);
      assert FromLog(e, lh, w) && FromHome(e, lh, w);
    }

    /** After k block writes of a commit the image stands for the old contents up to and
        including the last log write, and for the new contents from the header write on. */
    lemma CommitPoint(d: Image, lh: seq<nat>, v: Image, w: Image, k: nat)
      requires Settled(d, v) && Loggable(d, lh) && |w| == |d| && k <= 2 * |lh| + 2 && FromHome(v, lh, w)
      ensures Represents(CommitDisk(d, lh, w, k), if k <= |lh| then v else w)
      ensures k == 2 * |lh| + 2 ==> Settled(CommitDisk(d, lh, w, k), w)
    {
      hide Represents, FromLog, FromHome, SameHome, Sane, Logged, Installed, Headed, Heads;
      if k <= |lh| {
        LoggedKeeps(d, lh, v, w, k);
      } else {
        HeaderCommits(d, lh, v, w);
        CommitIsRecovery(d, lh, w, k);
        RecoveryKeeps(Headed(Logged(d, lh, w, |lh|), lh), w, k - |lh| - 1);
      }
    }

    lemma HeaderCommits(d: Image, lh: seq<nat>, v: Image, w: Image)
      requires SameHome(d, v) && Loggable(d, lh) && |w| == |d| && FromHome(v, lh, w)
      ensures Represents(Headed(Logged(d, lh, w, |lh|), lh), w)
    {
      hide Headed;
      LoggedFromLog(d, lh, w);
      LoggedFromHome(d, lh, v, w, |lh|);
      HeadedCommits(Logged(d, lh, w, |lh|), lh, w);
    }

    /** From the header write on, commit() writes what recovery would write. */
    lemma CommitIsRecovery(d: Image, lh: seq<nat>, w: Image, k: nat)
      requires Loggable(d, lh) && |w| == |d| && |lh| < k <= 2 * |lh| + 2
      ensures var e := Headed(Logged(d, lh, w, |lh|), lh);
              Sane(e) && Heads(e[start]) == lh && CommitDisk(d, lh, w, k) == RecoveryDisk(e, k - |lh| - 1)
    {
      HeadsRoundTrip(Logged(d, lh, w, |lh|)[start], lh);
    }

    lemma NoWrites(d: Image, lh: seq<nat>, v: Image)
      ensures CommitTrace(d, lh, v, 0) == []
    {
    }

    /** write_head is write |lh|+1 of a commit. */
    lemma AtCommitPoint(d: Image, lh: seq<nat>, v: Image)
      ensures CommitDisk(d, lh, v, |lh| + 1) == Headed(Logged(d, lh, v, |lh|), lh)
      ensures CommitTrace(d, lh, v, |lh| + 1) == CommitTrace(d, lh, v, |lh|) + [CommitDisk(d, lh, v, |lh| + 1)]
    {
    }

    /** The writes of a commit are those up to the commit point and then a recovery's. */
    lemma CommitTraceJoin(d: Image, lh: seq<nat>, v: Image, more: nat)
      ensures var e := CommitDisk(d, lh, v, |lh| + 1);
              CommitTrace(d, lh, v, |lh| + 1) + RecoveryTrace(e, lh, more) == CommitTrace(d, lh, v, |lh| + 1 + more)
    {
      AtCommitPoint(d, lh, v);
      CommitTraceParts(d, lh, v, |lh|);
      CommitTraceParts(d, lh, v, |lh| + 1 + more);
    }

    lemma CommitSettles(d: Image, lh: seq<nat>, w: Image)
      requires Settled(d, d) && Loggable(d, lh) && |w| == |d| && FromHome(d, lh, w)
      ensures var e := Recovering(CommitDisk(d, lh, w, |lh| + 1), lh, |lh| + 1);
              Settled(e, e) && SameHome(e, w)
    {
      AtCommitPoint(d, lh, w);
      CommitPoint(d, lh, d, w, 2 * |lh| + 2);
    }

    /** Images linked by recoveries that each crashed after some number of writes. */
    ghost predicate Crashes(ds: seq<Image>) {
      |ds| > 0 && forall i :: 0 <= i < |ds| - 1 ==>
        Sane(ds[i]) && exists k :: 0 <= k <= |Heads(ds[i][start])| + 1 && ds[i + 1] == RecoveryDisk(ds[i], k)
    }

    lemma {:induction false} CrashesKeep(ds: seq<Image>, v: Image)
      requires Crashes(ds) && Represents(ds[0], v)
      ensures Represents(ds[|ds| - 1], v)
    {
      if |ds| > 1 {
        var k :| 0 <= k <= |Heads(ds[0][start])| + 1 && ds[1] == RecoveryDisk(ds[0], k);
        RecoveryKeeps(ds[0], v, k);
        var rest := ds[1..];
        assert forall i :: 0 <= i < |rest| ==> rest[i] == ds[i + 1];
        assert Crashes(rest);
        CrashesKeep(rest, v);
      }
    }

    /** Crash atomicity of a transaction: crash the commit after any k block writes, crash
        any number of recoveries after any number of their writes, then let one complete.
        The home blocks are all old or all new, and new exactly when write_head's block
        reached the disk. */
    lemma CrashAtomicity(d: Image, lh: seq<nat>, v: Image, w: Image, k: nat, ds: seq<Image>)
      requires Settled(d, v) && Loggable(d, lh) && |w| == |d| && k <= 2 * |lh| + 2 && FromHome(v, lh, w)
      requires Crashes(ds) && ds[0] == CommitDisk(d, lh, w, k)
      ensures var last := ds[|ds| - 1];
              && Sane(last)
              && Settled(RecoveryDisk(last, |Heads(last[start])| + 1), if k > |lh| then w else v)
    {
      CommitPoint(d, lh, v, w, k);
      CrashesKeep(ds, if k > |lh| then w else v);
      var last := ds[|ds| - 1];
      RecoveryKeeps(last, if k > |lh| then w else v, |Heads(last[start])| + 1);
    }
  }
}
