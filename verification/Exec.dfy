/** exec() (kernel/exec.c): build a new address space beside the old one, then commit or throw
    it away.  What the file system and the user supply comes in as parameters. */
module Exec {
  import opened PageTable
  import opened VirtualMemory
  import opened AddressSpace

  /** One program header: whether readi() delivered it, its fields, the contents of the pages
      that loadseg() fills, and the page at which a readi() comes up short. */
  datatype Segment = Segment(readOk: bool, load: bool, vaddr: nat, memsz: nat, filesz: nat, pages: seq<Page>,
                             failAt: nat) {
    ghost predicate Ok() {
      && vaddr < TWO64 && memsz < TWO64 && filesz < TWO64
      && |pages| == RoundUp(filesz % 0x1_0000_0000)             // loadseg's sz is a 32-bit uint
      && forall k :: 0 <= k < |pages| ==> |pages[k]| == ENTRIES
    }

    /** exec finds nothing wrong with the header or the file. */
    predicate Good() {
      readOk && (load ==>
        filesz <= memsz && vaddr + memsz < TWO64 && vaddr % PGSIZE == 0 && vaddr + memsz > 0 && failAt >= |pages|)
    }
  }

  const TWO64: nat := 0x1_0000_0000_0000_0000
  const MAXARG: nat := 32

  // What a program's memory should hold, page by page.

  function Grown(img: seq<Page>, n: nat): (r: seq<Page>)
    ensures |r| == (if n > |img| then n else |img|)
              && forall v :: 0 <= v < |r| ==> r[v] == if v < |img| then img[v] else Fill(0)
  {
    if n <= |img| then img else Grown(img, n - 1) + [Fill(0)]
  }

  function Overlaid(img: seq<Page>, v0: nat, pages: seq<Page>): (r: seq<Page>)
    ensures |r| == |img|
    ensures v0 + |pages| <= |img| ==>
              forall v :: 0 <= v < |r| ==> r[v] == if v0 <= v < v0 + |pages| then pages[v - v0] else img[v]
  {
    if v0 + |pages| <= |img| then img[..v0] + pages + img[v0 + |pages|..] else img
  }

  /** One loadable segment: memory up to its end, zero where nothing was, and its pages on top. */
  function Loaded(img: seq<Page>, seg: Segment): seq<Page> {
    if !seg.load then img else Overlaid(Grown(img, RoundUp(seg.vaddr + seg.memsz)), seg.vaddr / PGSIZE, seg.pages)
  }

  function Image(segs: seq<Segment>): seq<Page> {
    if segs == [] then [] else Loaded(Image(segs[..|segs| - 1]), segs[|segs| - 1])
  }

  lemma LoadedSize(img: seq<Page>, seg: Segment)
    ensures seg.load ==>
              var grown := Grown(img, RoundUp(seg.vaddr + seg.memsz));
              Loaded(img, seg) == Overlaid(grown, seg.vaddr / PGSIZE, seg.pages)
    ensures !seg.load ==> Loaded(img, seg) == img
    ensures |Loaded(img, seg)|
         == if seg.load && RoundUp(seg.vaddr + seg.memsz) > |img| then RoundUp(seg.vaddr + seg.memsz) else |img|
  {
    hide RoundUp;
  }

  lemma {:induction false} ImageGrows(segs: seq<Segment>, a: nat, b: nat)
    requires a <= b <= |segs|
    ensures |Image(segs[..a])| <= |Image(segs[..b])| && segs[..|segs|] == segs
  {
    if a < b {
      assert segs[..b][..b - 1] == segs[..b - 1];
      ImageGrows(segs, a, b - 1);
    }
  }

  ghost predicate Holds(g: Vm, root: nat, img: seq<Page>) {
    forall v: nat {:trigger g.Data(root, v)} :: v < |img| ==> g.Data(root, v) == img[v]
  }

  /** The address space under construction: everything so far is open to the user. */
  ghost predicate Building(g: Vm, root: nat, sz: nat, tf: nat, tramp: nat) {
    g.Space(root, RoundUp(sz), tf, tramp) && g.AllUser(root, RoundUp(sz))
  }

  /** loadseg(): the pages exist, so walkaddr() finds them and the panic cannot happen. */
  method LoadSeg(m: Memory, root: nat, v0: nat, pages: seq<Page>, failAt: nat, ghost n: nat) returns (ok: bool)
    requires m.Valid() && m.g.UserMap(root, n) && m.g.AllUser(root, n) && v0 + |pages| <= n
    requires forall k :: 0 <= k < |pages| ==> |pages[k]| == ENTRIES
    modifies m`free, m`mem, m`g
    ensures m.Valid() && old(m.g).Frames(m.g) && m.g.UserMap(root, n) && m.g.AllUser(root, n)
    ensures old(m.g).ViewOutside(m.g, root, v0, v0 + |pages|)
    ensures (ok <==> failAt >= |pages|) && |m.free| == |old(m.free)|
    ensures ok ==> forall k :: 0 <= k < |pages| ==> m.g.Data(root, v0 + k) == pages[k]
  {
    hide Vm.Inv, Vm.Rooted, Vm.Pte, Vm.Data, Vm.Frames, Vm.ViewOutside, Vm.ViewBut, Flags;
    m.g.KeptSelf();
    m.g.SelfOutside(root, v0);
    var i := 0;
    while i < |pages|
      invariant i <= |pages| && i <= failAt && m.Valid() && old(m.g).Frames(m.g) && |m.free| == |old(m.free)|
      invariant m.g.UserMap(root, n) && m.g.AllUser(root, n) && old(m.g).ViewOutside(m.g, root, v0, v0 + i)
      invariant forall k :: 0 <= k < i ==> m.g.Data(root, v0 + k) == pages[k]
    {
      if i == failAt {
        old(m.g).OutsideWiden(m.g, root, v0, v0 + i, v0 + |pages|);
        return false;
      }
      ghost var g1 := m.g;
      var _ := m.WriteUser(root, v0 + i, pages[i]);
      old(m.g).FramesTrans(g1, m.g);
      old(m.g).Extend(g1, m.g, root, v0, v0 + i);
      g1.Rewritten(m.g, root, v0 + i, n);
      forall k | 0 <= k < i ensures m.g.Data(root, v0 + k) == pages[k] { g1.ButAt(m.g, root, v0 + i, root, v0 + k); }
      i := i + 1;
    }
    ok := true;
  }

  /** One round of exec's program-header loop. */
  method LoadSegment(m: Memory, root: nat, oldsz: nat, seg: Segment, ghost img: seq<Page>, ghost tf: nat,
                     ghost tramp: nat)
    returns (ok: bool, sz: nat)
    requires m.Valid() && seg.Ok() && Building(m.g, root, oldsz, tf, tramp) && Holds(m.g, root, img)
               && |img| == RoundUp(oldsz)
    modifies m`free, m`mem, m`g
    ensures m.Valid() && old(m.g).Frames(m.g) && Building(m.g, root, sz, tf, tramp)
    ensures old(m.g).SameExcept(m.g, {root})
    ensures ok ==> Holds(m.g, root, Loaded(img, seg)) && |Loaded(img, seg)| == RoundUp(sz)
    ensures ok ==> |m.free| + 3 * (|Loaded(img, seg)| - |img|) >= |old(m.free)|
    ensures seg.Good() && |old(m.free)| >= 3 * (|Loaded(img, seg)| - |img|) ==> ok
  {
    hide Vm.Inv, Vm.Rooted, Vm.Pte, Vm.Data, Vm.Frames, Vm.SameExcept, Vm.SameView, Vm.ViewOutside, Vm.Fresh,
         Vm.UserMap, Vm.AllUser, Holds, Grown, Overlaid, Loaded, RoundUp;
    ghost var g0 := m.g;
    g0.KeptSelf();
    g0.SameIsExcept(g0, {root});
    LoadedSize(img, seg);
    sz := oldsz;
    if !seg.readOk {
      return false, sz;
    }
    if !seg.load {
      return true, sz;
    }
    if seg.memsz < seg.filesz || (seg.vaddr + seg.memsz) % TWO64 < seg.vaddr {
      return false, sz;
    }
    var sz1 := m.UvmAlloc(root, sz, seg.vaddr + seg.memsz);
    ghost var g1 := m.g;
    if sz1 == 0 {
      AllocFailed(g0, g1, root, sz, tf, tramp);
      return false, sz;
    }
    Allocated(g0, g1, root, sz, sz1, tf, tramp);
    GrownHolds(g0, g1, root, img, sz, sz1, seg.vaddr + seg.memsz);
    sz := sz1;
    if seg.vaddr % PGSIZE != 0 {
      return false, sz;
    }
    SegmentFits(seg, sz);
    ok := LoadSeg(m, root, seg.vaddr / PGSIZE, seg.pages, seg.failAt, RoundUp(sz));
    SegmentLoaded(g0, g1, m.g, root, seg.vaddr / PGSIZE, |seg.pages|, sz, tf, tramp);
    if ok {
      OverlaidHolds(g1, m.g, root, Grown(img, RoundUp(seg.vaddr + seg.memsz)), seg.vaddr / PGSIZE, seg.pages);
    }
  }

  /** The 16-byte boundary at or below an address. */
  function Align(sp: int): (r: int)
    ensures r <= sp && r % 16 == 0 && (sp >= 0 ==> r >= 0)
  {
    sp - sp % 16
  }

  /** String i is at ustack[i], in the page below sz, below the string before it. */
  ghost predicate Stacked(sz: nat, lens: seq<nat>, ustack: seq<nat>) {
    |ustack| <= |lens| && sz >= PGSIZE &&
    forall i {:trigger lens[i]} :: 0 <= i < |ustack| ==>
      ustack[i] % 16 == 0 && sz - PGSIZE <= ustack[i]
        && ustack[i] + lens[i] + 1 <= (if i == 0 then sz else ustack[i - 1])
  }

  lemma StackedMore(sz: nat, lens: seq<nat>, ustack: seq<nat>, sp: nat)
    requires Stacked(sz, lens, ustack) && |ustack| < |lens| && sp % 16 == 0 && sz - PGSIZE <= sp
    requires sp + lens[|ustack|] + 1 <= (if ustack == [] then sz else ustack[|ustack| - 1])
    ensures Stacked(sz, lens, ustack + [sp])
  {
    var u := ustack + [sp];
    forall i | 0 <= i < |u|
      ensures u[i] % 16 == 0 && sz - PGSIZE <= u[i] && u[i] + lens[i] + 1 <= (if i == 0 then sz else u[i - 1])
    {
      if i < |ustack| {
        assert u[i] == ustack[i];
        assert lens[i] >= 0;
        assert u[i] % 16 == 0;
        assert u[i] + lens[i] + 1 <= (if i == 0 then sz else u[i - 1]);
      }
    }
  }

  /** Where the first k strings end when each is pushed at a 16-byte boundary below sz. */
  ghost function ArgsEnd(sz: int, lens: seq<nat>, k: nat): int
    requires k <= |lens|
  {
    if k == 0 then sz else Align(ArgsEnd(sz, lens, k - 1) - (lens[k - 1] + 1))
  }

  lemma {:induction false} ArgsEndDown(sz: int, lens: seq<nat>, a: nat, b: nat)
    requires a <= b <= |lens|
    ensures ArgsEnd(sz, lens, b) <= ArgsEnd(sz, lens, a)
  {
    if a < b { ArgsEndDown(sz, lens, a, b - 1); }
  }

  /** The strings and the pointer array fit in the page below sz. */
  ghost predicate ArgsFit(sz: int, lens: seq<nat>) {
    |lens| <= MAXARG && Align(ArgsEnd(sz, lens, |lens|) - (|lens| + 1) * 8) >= sz - PGSIZE
  }

  /** The loop of exec that pushes the argument strings; it stops when there are too many or one does
      not fit. */
  method PushStrings(sz: nat, lens: seq<nat>) returns (ok: bool, sp: nat, ustack: seq<nat>)
    requires sz >= 2 * PGSIZE && forall i :: 0 <= i < |lens| ==> lens[i] < PGSIZE
    ensures |ustack| <= MAXARG && (ok <==> |lens| <= MAXARG && ArgsEnd(sz, lens, |lens|) >= sz - PGSIZE)
    ensures ok ==> |ustack| == |lens| && Stacked(sz, lens, ustack) && sp == ArgsEnd(sz, lens, |lens|)
    ensures ok ==> sp == if |lens| == 0 then sz else ustack[|lens| - 1]
  {
    hide Align, Stacked;
    sp, ustack := sz, [];
    StackedNone(sz, lens);
    var argc := 0;
    while argc < |lens|
      invariant argc <= |lens| && argc <= MAXARG && |ustack| == argc && sz - PGSIZE <= sp
      invariant sp == (if argc == 0 then sz else ustack[argc - 1]) && sp == ArgsEnd(sz, lens, argc)
      invariant Stacked(sz, lens, ustack)
    {
      if argc >= MAXARG {
        return false, sp, ustack;
      }
      ArgsEndDown(sz, lens, argc + 1, |lens|);
      sp := Align(sp - (lens[argc] + 1));
      if sp < sz - PGSIZE {
        return false, sp, ustack;
      }
      StackedMore(sz, lens, ustack, sp);
      ustack := ustack + [sp];
      argc := argc + 1;
    }
    ok := true;
  }

  lemma StackedNone(sz: nat, lens: seq<nat>)
    requires sz >= PGSIZE
    ensures Stacked(sz, lens, [])
  {
  }

  /** The argument strings and then the pointer array, pushed below sz, each at a 16-byte
      boundary; all of it stays in the stack page and nothing overlaps.  It fails exactly when
      there are too many strings or they do not fit.  `ustack` is what is stored into the
      kernel's array of MAXARG elements; it stays within the array unless there are exactly
      MAXARG strings and they fit, for then the terminating 0 is one element more. */
  method PushArgs(sz: nat, lens: seq<nat>) returns (ok: bool, sp: nat, ustack: seq<nat>)
    requires sz >= 2 * PGSIZE && forall i :: 0 <= i < |lens| ==> lens[i] < PGSIZE
    ensures ok <==> ArgsFit(sz, lens)
    ensures ok ==> |lens| <= MAXARG && |ustack| == |lens| + 1 && ustack[|lens|] == 0
    ensures |ustack| > MAXARG <==> |lens| == MAXARG && ArgsEnd(sz, lens, |lens|) >= sz - PGSIZE
    ensures ok ==> Stacked(sz, lens, ustack[..|lens|])
    ensures ok ==>
              sp % 16 == 0 && sz - PGSIZE <= sp
                && sp + (|lens| + 1) * 8 <= if |lens| == 0 then sz else ustack[|lens| - 1]
  {
    hide Align, Stacked, ArgsEnd;
    ok, sp, ustack := PushStrings(sz, lens);
    if ok {
      ghost var strings := ustack;
      ustack := ustack + [0];
      assert ustack[..|lens|] == strings;
      sp := Align(sp - (|lens| + 1) * 8);
      ok := sp >= sz - PGSIZE;
    }
  }

  /** The guard page and the stack page on top of the image. */
  method AddStack(m: Memory, root: nat, oldsz: nat, lens: seq<nat>, stack: Page, ghost img: seq<Page>, ghost tf: nat,
                  ghost tramp: nat)
    returns (ok: bool, sz: nat)
    requires Holds(m.g, root, img) && |img| == RoundUp(oldsz)
    requires m.Valid() && Building(m.g, root, oldsz, tf, tramp) && oldsz % PGSIZE == 0 && |stack| == ENTRIES
    requires forall i :: 0 <= i < |lens| ==> lens[i] < PGSIZE
    modifies m`free, m`mem, m`g
    ensures m.Valid() && old(m.g).Frames(m.g) && m.g.Space(root, RoundUp(sz), tf, tramp)
              && old(m.g).SameExcept(m.g, {root})
    ensures ok ==> sz == oldsz + 2 * PGSIZE && Flags(m.g.Pte(root, RoundUp(sz) - 2)) == 15
    ensures ok ==> Flags(m.g.Pte(root, RoundUp(sz) - 1)) == 31
    ensures ok ==> Holds(m.g, root, img + [Fill(0), stack]) && |img| + 2 == RoundUp(sz)
    ensures |old(m.free)| >= 6 && ArgsFit(oldsz + 2 * PGSIZE, lens) ==> ok
  {
    hide Vm.Inv, Vm.Rooted, Vm.Pte, Vm.Data, Vm.Frames, Vm.SameExcept, Vm.SameView, Vm.ViewOutside, Vm.ViewBut,
         Vm.Fresh, Vm.AllUser, Flags, ClearU, Holds, Grown;
    ghost var g0 := m.g;
    sz := oldsz;
    var sz1 := m.UvmAlloc(root, sz, sz + 2 * PGSIZE);
    ghost var g1 := m.g;
    if sz1 == 0 {
      AllocFailed(g0, g1, root, sz, tf, tramp);
      return false, sz;
    }
    Allocated(g0, g1, root, sz, sz1, tf, tramp);
    GrownHolds(g0, g1, root, img, sz, sz1, sz + 2 * PGSIZE);
    sz := sz1;
    ghost var n := RoundUp(sz);
    StackPages(g1, root, sz, tf, tramp);
    var _ := m.UvmClear(root, sz - 2 * PGSIZE);
    ghost var g2 := m.g;
    Guarded(g0, g1, g2, root, n, tf, tramp);
    var sp, ustack;
    ok, sp, ustack := PushArgs(sz, lens);
    if ok {
      var _ := m.WriteUser(root, sz / PGSIZE - 1, stack);
      Pushed(g0, g2, m.g, root, n, tf, tramp);
      StackHolds(g1, g2, m.g, root, img, n, stack);
    }
  }

  /** exec's program-header loop. */
  method LoadAll(m: Memory, root: nat, segs: seq<Segment>, ghost tf: nat, ghost tramp: nat) returns (ok: bool, sz: nat)
    requires m.Valid() && Building(m.g, root, 0, tf, tramp) && forall i :: 0 <= i < |segs| ==> segs[i].Ok()
    modifies m`free, m`mem, m`g
    ensures m.Valid() && old(m.g).Frames(m.g) && old(m.g).SameExcept(m.g, {root})
    ensures Building(m.g, root, sz, tf, tramp)
    ensures ok ==> Holds(m.g, root, Image(segs)) && |Image(segs)| == RoundUp(sz)
    ensures ok ==> |m.free| + 3 * |Image(segs)| >= |old(m.free)|
    ensures (forall i :: 0 <= i < |segs| ==> segs[i].Good()) && |old(m.free)| >= 3 * |Image(segs)| ==> ok
  {
    hide Vm.Inv, Vm.Rooted, Vm.Pte, Vm.Data, Vm.Frames, Vm.SameExcept, Vm.AllUser, Vm.UserMap, Holds, Fill, Loaded;
    ghost var g0 := m.g;
    g0.KeptSelf();
    g0.SameIsExcept(g0, {root});
    HoldsNone(g0, root);
    ok, sz := true, 0;
    var i := 0;
    while ok && i < |segs|
      invariant i <= |segs| && m.Valid() && Building(m.g, root, sz, tf, tramp)
      invariant g0.Frames(m.g) && g0.SameExcept(m.g, {root})
      invariant ok ==> Holds(m.g, root, Image(segs[..i])) && |Image(segs[..i])| == RoundUp(sz)
      invariant ok ==> |m.free| + 3 * |Image(segs[..i])| >= |old(m.free)|
      invariant !ok ==> (exists k :: 0 <= k < i && !segs[k].Good()) || |old(m.free)| < 3 * |Image(segs)|
      decreases |segs| - i, ok
    {
      ghost var g1 := m.g;
      assert segs[..i + 1][..i] == segs[..i];
      ImageGrows(segs, i + 1, |segs|);
      ok, sz := LoadSegment(m, root, sz, segs[i], Image(segs[..i]), tf, tramp);
      g0.FramesTrans(g1, m.g);
      g0.ExceptTrans(g1, m.g, {root}, {root});
      assert {root} + {root} == {root};
      i := i + 1;
    }
    assert segs[..|segs|] == segs;
  }

  lemma HoldsNone(g: Vm, root: nat)
    ensures Holds(g, root, [])
  {
  }

  /** The program is in order, its arguments fit, and there are three free pages for each page of
      the image and five for the empty address space. */
  ghost predicate CanBuild(free: nat, segs: seq<Segment>, lens: seq<nat>) {
    && (forall i :: 0 <= i < |segs| ==> segs[i].Good()) && ArgsFit((|Image(segs)| + 2) * PGSIZE, lens)
    && free >= 5 + 3 * (|Image(segs)| + 2)
  }

  /** exec() up to the commit point: a complete new address space, or no trace of one. */
  method Build(m: Memory, tf: nat, tramp: nat, segs: seq<Segment>, lens: seq<nat>, stack: Page)
    returns (root: nat, sz: nat)
    requires m.Valid() && tf != 0 && tramp != 0 && m.g.kern <= m.g.tree.Keys && |stack| == ENTRIES
    requires forall i :: 0 <= i < |segs| ==> segs[i].Ok()
    requires forall i :: 0 <= i < |lens| ==> lens[i] < PGSIZE
    modifies m`free, m`mem, m`g
    ensures m.Valid() && m.g.extra == old(m.g).extra && m.g.kern == old(m.g).kern && m.g.frames == old(m.g).frames
    ensures root == 0 ==> old(m.g).SameView(m.g) && m.g.tree.Keys == old(m.g).tree.Keys
    ensures root != 0 ==> root !in old(m.g).tree && m.g.tree.Keys == old(m.g).tree.Keys + {root}
    ensures root != 0 ==> m.g.Space(root, RoundUp(sz), tf, tramp) && old(m.g).SameExcept(m.g, {root})
    ensures root != 0 ==>
              RoundUp(sz) >= 2 && Flags(m.g.Pte(root, RoundUp(sz) - 2)) == 15
                && Flags(m.g.Pte(root, RoundUp(sz) - 1)) == 31
    ensures root != 0 ==> Holds(m.g, root, Image(segs) + [Fill(0), stack]) && RoundUp(sz) == |Image(segs)| + 2
    ensures CanBuild(|old(m.free)|, segs, lens) ==> root != 0
  {
    hide Vm.Inv, Vm.Rooted, Vm.Pte, Vm.Data, Vm.Frames, Vm.SameExcept, Vm.SameView, Vm.ViewOutside, Vm.AllUser,
         Vm.UserMap, Flags, Holds, Fill, Loaded;
    ghost var g0 := m.g;
    sz := 0;
    root := m.ProcPagetable(tf, tramp);
    if root == 0 {
      return;
    }
    ghost var g1 := m.g;
    g0.OutsideExcept(g1, root, 0, MAXVPN);
    StartBuilding(g1, root, tf, tramp);
    var ok;
    ok, sz := LoadAll(m, root, segs, tf, tramp);
    g0.ExceptTrans(g1, m.g, {root}, {root});
    assert {root} + {root} == {root};
    ghost var g3 := m.g;
    if ok {
      RoundMono(sz, sz);
      sz := RoundUp(sz) * PGSIZE;
      ok, sz := AddStack(m, root, sz, lens, stack, Image(segs), tf, tramp);
      g1.FramesTrans(g3, m.g);
      g0.ExceptTrans(g3, m.g, {root}, {root});
      assert {root} + {root} == {root};
    }
    ghost var g4 := m.g;
    g1.FramesOwning(g4, root);
    if !ok {
      var _ := m.ProcFreePagetable(root, sz, tf, tramp);
      g4.OutsideExcept(m.g, root, 0, MAXVPN);
      g0.ExceptTrans(g4, m.g, {root}, {root});
      assert {root} + {root} == {root};
      g0.GoneExcept(m.g, root);
      root := 0;
    }
  }

  /** exec(): on success the process has exactly the new address space and the old one is gone;
      on failure nothing has changed.  No other process notices.  It succeeds if the program is
      in order and memory suffices. */
  method Exec(k: Kernel, i: nat, headerOk: bool, segs: seq<Segment>, lens: seq<nat>, stack: Page) returns (ok: bool)
    requires k.Valid() && i < |k.procs| && k.procs[i].used && |stack| == ENTRIES
    requires forall s :: 0 <= s < |segs| ==> segs[s].Ok()
    requires forall a :: 0 <= a < |lens| ==> lens[a] < PGSIZE
    modifies k`procs, k.m`free, k.m`mem, k.m`g
    ensures k.Valid() && |k.procs| == |old(k.procs)|
    ensures !ok ==> k.procs == old(k.procs) && old(k.m.g).SameView(k.m.g)
    ensures ok ==>
              k.procs == old(k.procs)[i := k.procs[i]] && k.procs[i].used
                && k.procs[i].trapframe == old(k.procs)[i].trapframe
    ensures ok ==> k.procs[i].pagetable !in old(k.m.g).tree && old(k.procs)[i].pagetable !in k.m.g.tree
    ensures ok ==> old(k.m.g).SameExcept(k.m.g, {k.procs[i].pagetable} + {old(k.procs)[i].pagetable})
    ensures ok ==> var n := RoundUp(k.procs[i].sz); n >= 2 && Flags(k.m.g.Pte(k.procs[i].pagetable, n - 2)) == 15
    ensures ok ==>
              Holds(k.m.g, k.procs[i].pagetable, Image(segs) + [Fill(0), stack])
                && RoundUp(k.procs[i].sz) == |Image(segs)| + 2
    ensures headerOk && CanBuild(|old(k.m.free)|, segs, lens) ==> ok
  {
    hide Vm.Inv, Vm.Rooted, Vm.Pte, Vm.Data, Vm.Frames, Vm.SameExcept, Vm.SameView, Vm.ViewOutside, Vm.UserMap, Flags,
         Holds, Fill, Image;
    ghost var g0 := k.m.g;
    var p := k.procs[i];
    g0.SameViewSelf();
    if !headerOk {
      return false;
    }
    assert ProcOk(g0, p, k.tramp);
    InTree(g0, k.procs, i, k.tramp);
    var root, sz := Build(k.m, p.trapframe, k.tramp, segs, lens, stack);
    ghost var g1 := k.m.g;
    if root == 0 {
      Untouched(g0, g1, k.procs, i, k.tramp);
      return false;
    }
    g0.SpaceKept(g1, {root}, p.pagetable, RoundUp(p.sz), p.trapframe, k.tramp);
    var _ := k.m.ProcFreePagetable(p.pagetable, p.sz, p.trapframe, k.tramp);
    g1.OutsideExcept(k.m.g, p.pagetable, 0, MAXVPN);
    g0.ExceptTrans(g1, k.m.g, {root}, {p.pagetable});
    g1.SpaceKept(k.m.g, {p.pagetable}, root, RoundUp(sz), p.trapframe, k.tramp);
    g1.ExceptAt(k.m.g, {p.pagetable}, root, RoundUp(sz) - 2);
    HoldsKept(g1, k.m.g, {p.pagetable}, root, Image(segs) + [Fill(0), stack]);
    TablesUpdate(g0, k.m.g, k.procs, i, Proc(true, root, sz, p.trapframe), k.tramp, {root} + {p.pagetable});
    k.procs := k.procs[i := Proc(true, root, sz, p.trapframe)];
    ok := true;
  }

  /** The system calls that change address spaces; `Exited` is wait() freeing a zombie. */
  datatype Call = Forked(i: nat) | Execed(i: nat, headerOk: bool, segs: seq<Segment>, lens: seq<nat>, stack: Page)
                | Sbrk(i: nat, n: int) | Exited(i: nat)
  {
    ghost predicate Ok(procs: seq<Proc>) {
      && i < |procs| && procs[i].used
      && (Execed? ==>
         |stack| == ENTRIES && (forall s :: 0 <= s < |segs| ==> segs[s].Ok())
           && (forall a :: 0 <= a < |lens| ==> lens[a] < PGSIZE))
      && (Sbrk? ==> -0x8000_0000 <= n < 0x8000_0000)
    }
  }

  /** One call by a live process. */
  method Serve(k: Kernel, c: Call)
    requires k.Valid() && c.Ok(k.procs)
    modifies k`procs, k.m`free, k.m`mem, k.m`g
    ensures k.Valid() && |k.procs| == |old(k.procs)|
  {
    hide Tables, Vm.SameExcept, Vm.SameView, Vm.Copied, Vm.Fresh, Vm.Pte, Vm.Data, Flags;
    match c {
      case Forked(i) => var _, _ := k.Fork(i);
      case Execed(i, h, segs, lens, stack) => var _ := Exec(k, i, h, segs, lens, stack);
      case Sbrk(i, n) => var _ := k.Growproc(i, n);
      case Exited(i) => k.Freeproc(i);
    }
  }

  /** Who holds page p: a kernel table, or the trapframe, the tables or the memory of a live process. */
  ghost predicate Accounted(g: Vm, procs: seq<Proc>, p: nat) {
    p in g.owner &&
    var (s, k) := g.owner[p];
    if k.Frame? then s < |procs| && procs[s].used && procs[s].trapframe == p else s in g.kern || Held(procs, s)
  }

  /** Page conservation: between system calls every page is free or held once by somebody alive,
      never both, so nothing leaks. */
  lemma Conservation(g: Vm, pool: set<nat>, procs: seq<Proc>, tramp: nat, p: nat)
    requires g.Inv(pool) && Tables(g, procs, tramp) && p in pool
    ensures p in g.free <==> !Accounted(g, procs, p)
    ensures Accounted(g, procs, p) ==> g.Val(g.owner[p].0, g.owner[p].1) == p
    ensures Accounted(g, procs, p) ==>
              forall s: nat, k: Slot {:trigger g.Val(s, k)} :: g.Val(s, k) == p ==> (s, k) == g.owner[p]
    ensures p in g.free ==> forall s: nat, k: Slot {:trigger g.Val(s, k)} :: g.Val(s, k) != p
  {
    hide Vm.Space, Vm.Val;
    if p in g.owner {
      var (s, k) := g.owner[p];
      assert g.Val(s, k) == p != 0;
      g.HolderInTree(s, k);
    }
  }

  lemma HoldsKept(g: Vm, h: Vm, x: set<nat>, root: nat, img: seq<Page>)
    requires Holds(g, root, img) && g.SameExcept(h, x) && root !in x
    ensures Holds(h, root, img)
  {
    hide Vm.Pte, Vm.Data;
  }

  /** uvmalloc() adds zero pages and leaves the rest. */
  lemma GrownHolds(g: Vm, h: Vm, root: nat, img: seq<Page>, oldsz: nat, sz: nat, want: nat)
    requires Holds(g, root, img) && |img| == RoundUp(oldsz) && sz == (if want < oldsz then oldsz else want)
    requires (h == g && sz == oldsz) || (h.Fresh(root, RoundUp(oldsz), RoundUp(sz))
               && g.ViewOutside(h, root, RoundUp(oldsz), RoundUp(sz)))
    ensures Holds(h, root, Grown(img, RoundUp(want))) && |Grown(img, RoundUp(want))| == RoundUp(sz)
  {
    hide Vm.Pte, Vm.Data, Flags, Fill;
    if want < oldsz { RoundMono(want, oldsz); } else { RoundMono(oldsz, want); }
    var r := Grown(img, RoundUp(want));
    forall v: nat | v < |r| ensures h.Data(root, v) == r[v] {
      if v < |img| && h != g { g.OutsideAt(h, root, RoundUp(oldsz), RoundUp(sz), root, v); }
    }
  }

  lemma OverlaidHolds(g: Vm, h: Vm, root: nat, img: seq<Page>, v0: nat, pages: seq<Page>)
    requires Holds(g, root, img) && g.ViewOutside(h, root, v0, v0 + |pages|) && v0 + |pages| <= |img|
    requires forall k :: 0 <= k < |pages| ==> h.Data(root, v0 + k) == pages[k]
    ensures Holds(h, root, Overlaid(img, v0, pages))
  {
    hide Vm.Pte, Vm.Data;
    var r := Overlaid(img, v0, pages);
    forall v: nat | v < |r| ensures h.Data(root, v) == r[v] {
      if v0 <= v < v0 + |pages| {
        assert h.Data(root, v0 + (v - v0)) == pages[v - v0];
      } else {
        g.OutsideAt(h, root, v0, v0 + |pages|, root, v);
      }
    }
  }

  lemma StackHolds(g: Vm, h: Vm, k: Vm, root: nat, img: seq<Page>, n: nat, stack: Page)
    requires n == |img| + 2 && Holds(g, root, Grown(img, n)) && g.ViewBut(h, root, n - 2) && h.ViewBut(k, root, n - 1)
    requires k.Data(root, n - 1) == stack && h.Data(root, n - 2) == g.Data(root, n - 2)
    ensures Holds(k, root, img + [Fill(0), stack])
  {
    hide Vm.Pte, Vm.Data, Fill;
    var r := img + [Fill(0), stack];
    forall v: nat | v < |r| ensures k.Data(root, v) == r[v] {
      if v != n - 1 { h.ButAt(k, root, n - 1, root, v); }
      if v < n - 2 { g.ButAt(h, root, n - 2, root, v); }
      assert v < n - 1 ==> Grown(img, n)[v] == if v < |img| then img[v] else Fill(0);
    }
  }

  lemma StartBuilding(g: Vm, root: nat, tf: nat, tramp: nat)
    requires g.Space(root, 0, tf, tramp)
    ensures Building(g, root, 0, tf, tramp) && Holds(g, root, [])
  {}

  lemma StackPages(g: Vm, root: nat, sz: nat, tf: nat, tramp: nat)
    requires Building(g, root, sz, tf, tramp) && sz >= 2 * PGSIZE && sz % PGSIZE == 0
    ensures RoundUp(sz) == sz / PGSIZE && (sz - 2 * PGSIZE) / PGSIZE == sz / PGSIZE - 2
    ensures forall v: nat {:trigger g.Pte(root, v)} :: v < RoundUp(sz) ==>
              g.Pte(root, v) != 0 && Flags(g.Pte(root, v)) == 31 && g.Owning(root, v)
  {
    hide Vm.Pte, Flags;
  }

  lemma Guarded(g: Vm, h: Vm, k: Vm, root: nat, n: nat, tf: nat, tramp: nat)
    requires 2 <= n && h.Space(root, n, tf, tramp) && h.AllUser(root, n) && g.Frames(h) && h.Frames(k)
    requires g.SameExcept(h, {root})
    requires h.ViewBut(k, root, n - 2) && k.Pte(root, n - 2) == ClearU(h.Pte(root, n - 2)) != 0
    ensures k.Space(root, n, tf, tramp) && g.Frames(k) && g.SameExcept(k, {root})
    ensures Flags(k.Pte(root, n - 2)) == 15 && Flags(k.Pte(root, n - 1)) == 31 && k.Owning(root, n - 1)
  {
    hide Vm.Pte, Vm.Data, Flags, ClearU, MkPte;
    ClearUFields(h.Pte(root, n - 2));
    assert root in k.tree.Keys;
    g.FramesTrans(h, k);
    assert k.Pte(root, n - 1) == h.Pte(root, n - 1);
  }

  lemma Pushed(g: Vm, h: Vm, k: Vm, root: nat, n: nat, tf: nat, tramp: nat)
    requires 2 <= n && h.Space(root, n, tf, tramp) && g.Frames(h) && h.Frames(k) && g.SameExcept(h, {root})
    requires h.ViewBut(k, root, n - 1) && k.Pte(root, n - 1) == h.Pte(root, n - 1)
    ensures k.Space(root, n, tf, tramp) && g.Frames(k) && g.SameExcept(k, {root})
              && k.Pte(root, n - 2) == h.Pte(root, n - 2)
  {
    hide Vm.Pte, Vm.Data, MkPte;
    assert root in k.tree.Keys;
    g.FramesTrans(h, k);
    forall v: nat ensures k.Pte(root, v) == h.Pte(root, v) {}
  }

  lemma Untouched(g: Vm, h: Vm, procs: seq<Proc>, j: nat, tramp: nat)
    requires Tables(g, procs, tramp) && j < |procs| && procs[j].used && g.SameView(h)
    requires h.tree.Keys == g.tree.Keys && h.extra == g.extra && h.kern == g.kern && h.frames == g.frames
    ensures Tables(h, procs, tramp)
  {
    hide Vm.Space, Vm.SameView, Vm.SameExcept;
    InTree(g, procs, j, tramp);
    assert ProcOk(g, procs[j], tramp);
    assert procs[j].pagetable in h.tree.Keys;
    g.SameIsExcept(h, {});
    g.SpaceKept(h, {}, procs[j].pagetable, RoundUp(procs[j].sz), procs[j].trapframe, tramp);
    TablesUpdate(g, h, procs, j, procs[j], tramp, {});
    assert procs[j := procs[j]] == procs;
  }

  lemma AllocFailed(g: Vm, h: Vm, root: nat, sz: nat, tf: nat, tramp: nat)
    requires Building(g, root, sz, tf, tramp) && g.Frames(h) && g.SameView(h)
    ensures Building(h, root, sz, tf, tramp) && g.SameExcept(h, {root})
  {
    hide Vm.Pte, Vm.Data, Flags;
    assert root in h.tree.Keys;
  }

  lemma Allocated(g: Vm, h: Vm, root: nat, oldsz: nat, sz: nat, tf: nat, tramp: nat)
    requires Building(g, root, oldsz, tf, tramp) && g.Frames(h) && sz >= oldsz
    requires
      || (h == g && sz == oldsz)
      || (h.UserMap(root, RoundUp(sz)) && h.Fresh(root, RoundUp(oldsz), RoundUp(sz))
        && g.ViewOutside(h, root, RoundUp(oldsz), RoundUp(sz)))
    ensures Building(h, root, sz, tf, tramp) && g.SameExcept(h, {root})
  {
    hide Vm.Pte, Vm.Data, Flags;
    RoundMono(oldsz, sz);
    if h != g || sz != oldsz {
      g.SpaceMoved(h, root, RoundUp(oldsz), RoundUp(sz), RoundUp(oldsz), RoundUp(sz), tf, tramp);
      g.OutsideExcept(h, root, RoundUp(oldsz), RoundUp(sz));
      forall v: nat | v < RoundUp(sz) ensures Flags(h.Pte(root, v)) == 31 {
        if v < RoundUp(oldsz) { assert h.Pte(root, v) == g.Pte(root, v); } else { assert h.Data(root, v) == Fill(0); }
      }
    }
  }

  lemma SegmentFits(seg: Segment, sz: nat)
    requires seg.Ok() && seg.filesz <= seg.memsz && seg.vaddr + seg.memsz <= sz && seg.vaddr % PGSIZE == 0
    ensures seg.vaddr / PGSIZE + |seg.pages| <= RoundUp(sz)
  {
    var f := seg.filesz % 0x1_0000_0000;
    assert f <= seg.filesz;
    assert RoundUp(seg.vaddr + f) == seg.vaddr / PGSIZE + RoundUp(f);
    RoundMono(seg.vaddr + f, sz);
  }

  lemma SegmentLoaded(g: Vm, h: Vm, k: Vm, root: nat, v0: nat, n: nat, sz: nat, tf: nat, tramp: nat)
    requires Building(h, root, sz, tf, tramp) && g.Frames(h) && g.SameExcept(h, {root}) && h.Frames(k)
    requires k.UserMap(root, RoundUp(sz)) && k.AllUser(root, RoundUp(sz)) && h.ViewOutside(k, root, v0, v0 + n)
    requires v0 + n <= RoundUp(sz)
    ensures Building(k, root, sz, tf, tramp) && g.SameExcept(k, {root}) && g.Frames(k)
  {
    hide Vm.Pte, Vm.Data, Vm.SameExcept, Vm.Frames, Vm.AllUser, Vm.ViewOutside;
    h.SpaceMoved(k, root, v0, v0 + n, RoundUp(sz), RoundUp(sz), tf, tramp);
    h.OutsideExcept(k, root, v0, v0 + n);
    g.ExceptTrans(h, k, {root}, {root});
    assert {root} + {root} == {root};
    g.FramesTrans(h, k);
  }
}
