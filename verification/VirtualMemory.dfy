/** kernel/kalloc.c and kernel/vm.c: the page allocator and the operations on page tables. */
module VirtualMemory {
  import opened PageTable

  const PGSIZE: nat := 4096
  const MAXVA: nat := 0x40_0000_0000
  const KERNBASE: nat := 0x80000        // page numbers of the start and the end of RAM
  const PHYSTOP: nat := 0x88000

  datatype Result = Done | NoMemory | Panic

  /** What walk() returns: the address of an entry, 0, or a panic. */
  datatype Found = Entry(page: nat, idx: nat) | Missing | Panicked

  /** PX(level, va) */
  function Px(level: nat, va: nat): nat {
    if level == 2 then va / PGSIZE / 262144 % 512 else if level == 1 then va / PGSIZE / 512 % 512 else va / PGSIZE % 512
  }

  function RoundUp(sz: nat): nat { (sz + PGSIZE - 1) / PGSIZE }

  /** PGROUNDDOWN(va + size - 1) as a page number, in 64-bit arithmetic. */
  function Last(va: nat, size: nat): nat
    requires size > 0
  {
    (va + size - 1) % 0x1_0000_0000_0000_0000 / PGSIZE
  }

  /** May mappages() get to page v?  If the end of its range has wrapped around, it only stops at
      MAXVA. */
  predicate Reaches(va: nat, size: nat, v: nat)
    requires size > 0
  {
    va / PGSIZE <= v < MAXVPN && (va / PGSIZE <= Last(va, size) ==> v <= Last(va, size))
  }

  class Memory {
    const lo: nat                       // first whole page after the kernel
    var free: seq<nat>                  // kmem.freelist
    var mem: map<nat, Page>
    ghost var g: Vm
    ghost const pool: set<nat>

    ghost predicate Pool() {
      && KERNBASE <= lo && (forall p :: p in pool <==> lo <= p < PHYSTOP) && |pool| <= PHYSTOP - KERNBASE
    }

    ghost predicate Valid()
      reads this
    {
      Pool() && g.Inv(pool) && g.Rooted() && free == g.free && mem == g.mem
    }

    /** kinit(): every whole page from the end of the kernel to PHYSTOP goes on the free list. */
    constructor (first: nat, ram: map<nat, Page>)
      requires KERNBASE <= first <= PHYSTOP && forall p :: first <= p < PHYSTOP ==> p in ram && |ram[p]| == ENTRIES
      ensures Valid() && lo == first && g.extra == {} && g.tree == map[] && g.frames == map[] && g.kern == {}
      ensures |free| == PHYSTOP - first && forall p :: p in free <==> first <= p < PHYSTOP
    {
      hide Vm.Inv, Vm.SameView;
      lo := first;
      free, mem := [], ram;
      pool := PageSet(first, PHYSTOP);
      g := Vm([], ram, map[], map[], {}, map[], PageSet(first, PHYSTOP));
      new;
      g.InitInv(pool);
      var p := first;
      while p < PHYSTOP
        invariant first <= p <= PHYSTOP && Valid() && g.tree == map[] && g.frames == map[] && g.kern == {}
                    && g.owner == map[]
        invariant (forall q :: q in g.extra <==> p <= q < PHYSTOP) && |free| == p - first
      {
        Drop(p);
        p := p + 1;
      }
      g.AllFree(pool);
    }

    /** kalloc(); 0 when the list is empty. */
    method Kalloc() returns (p: nat)
      requires Valid()
      modifies this`free, this`mem, this`g
      ensures p == 0 ==> free == old(free) == [] && mem == old(mem) && g == old(g)
      ensures p != 0 ==> old(free) != [] && p == old(free)[0] && g == old(g).Kalloc()
      ensures p != 0 ==> p in g.extra && p !in old(g).extra && p in mem && |mem[p]| == ENTRIES
      ensures Valid() && old(g).SameView(g)
    {
      hide Vm.Trees, Vm.Leaves, Vm.Owned, Vm.Pte, Vm.Data;
      if free == [] {
        return 0;
      }
      p := free[0];
      g.KallocKeeps(pool);
      free, mem, g := free[1..], mem[p := Fill(JUNK5)], g.Kalloc();
    }

    /** kfree(): range check, junk, push. */
    method Kfree(p: nat) returns (ok: bool)
      modifies this`free, this`mem
      ensures ok == (lo <= p < PHYSTOP)
      ensures free == if ok then [p] + old(free) else old(free)
      ensures mem == if ok then old(mem)[p := Fill(JUNK1)] else old(mem)
    {
      ok := lo <= p < PHYSTOP;
      if ok {
        free, mem := [p] + free, mem[p := Fill(JUNK1)];
      }
    }

    /** The allocating step of walk(): a zeroed page behind entry i of directory page pt. */
    method NewDir(root: nat, ghost p: Path, pt: nat, i: nat) returns (page: nat)
      requires Valid() && root in g.tree && !p.Low? && i < ENTRIES && pt == g.At(root, p) && pt != 0
      requires g.At(root, Child(p, i)) == 0 && (p.Root? ==> i < TOP) && (p.Mid? ==> p.i < TOP)
      modifies this`free, this`mem, this`g
      ensures Valid() && old(g).Kept(g)
      ensures page == 0 ==> free == old(free) == [] && g == old(g)
      ensures page != 0 ==> g.At(root, Child(p, i)) == page && |free| + 1 == |old(free)|
    {
      hide Vm.Trees, Vm.Leaves, Vm.Owned, Vm.Pages, Vm.Pte, Vm.Data, Vm.WordAt, Fill, Set;
      ghost var g0 := g;
      page := Kalloc();
      if page == 0 {
        return;
      }
      g0.SproutKeeps(pool, root, Child(p, i));
      mem := mem[page := Fill(0)];
      mem := mem[pt := Set(mem[pt], i, MkPte(page, 1))];
      g := g0.Sprout(root, Child(p, i));
    }

    /** walk() */
    method Walk(root: nat, va: nat, alloc: bool) returns (r: Found)
      requires Valid() && root in g.tree
      modifies this`free, this`mem, this`g
      ensures Valid() && old(g).Kept(g)
      ensures r.Panicked? <==> va >= MAXVA
      ensures !alloc ==> g == old(g)
      ensures |free| + 2 >= |old(free)| && (r.Missing? && alloc ==> |old(free)| < 2)
      ensures r.Entry? ==> r.page == g.LowPage(root, va / PGSIZE) != 0 && r.idx == Px0(va / PGSIZE)
      ensures r.Missing? ==>
                g.LowPage(root, va / PGSIZE) == 0 && g.Pte(root, va / PGSIZE) == 0 && (alloc ==> free == [])
    {
      hide Vm.Leaves, Vm.Owned, Vm.Pages, Vm.Pte, Vm.Data, Vm.WordAt, Vm.Kept;
      g.KeptSelf();
      g.KeptPte(g, root, va / PGSIZE);
      if va >= MAXVA {
        return Panicked;
      }
      var pt, level := root, 2;
      while level > 0
        invariant 0 <= level <= 2 && Valid() && root in g.tree && old(g).Kept(g)
        invariant pt == g.At(root, Down(level, va / PGSIZE)) && pt != 0
        invariant (!alloc ==> g == old(g)) && |free| + (2 - level) >= |old(free)|
      {
        var i := Px(level, va);
        ghost var p := Down(level, va / PGSIZE);
        g.EntryAt(pool, root, p, i);
        var pte := mem[pt][i];
        if IsValid(pte) {
          pt := Ppn(pte);
        } else {
          ghost var g0 := g;
          if alloc {
            pt := NewDir(root, p, pt, i);
            old(g).KeptTrans(g0, g);
            g0.KeptPte(g, root, va / PGSIZE);
          }
          if !alloc || pt == 0 {
            g0.NoEntry(root, va / PGSIZE);
            return Missing;
          }
        }
        level := level - 1;
      }
      r := Entry(pt, Px(0, va));
    }

    /** The loop body of mappages(): one entry.  An entry that owns its page takes it from
        the caller's hand. */
    method MapOne(root: nat, va: nat, ppn: nat, perm: nat) returns (r: Result)
      requires Valid() && root in g.tree && ppn != 0 && perm < 1024 && IsLeaf(perm)
      requires g.Owning(root, va / PGSIZE) ==> ppn in g.extra
      modifies this`free, this`mem, this`g
      ensures Valid() && g.tree.Keys == old(g).tree.Keys && g.kern == old(g).kern && g.frames == old(g).frames
      ensures r.Panic? <==> va >= MAXVA || old(g).Pte(root, va / PGSIZE) != 0
      ensures |free| + 2 >= |old(free)| && (r.NoMemory? ==> free == [] && |old(free)| < 2)
      ensures !r.Done? ==> old(g).SameView(g) && g.extra == old(g).extra
      ensures r.Done? ==> old(g).ViewBut(g, root, va / PGSIZE) && g.Pte(root, va / PGSIZE) == MkPte(ppn, OrV(perm))
      ensures r.Done? ==> g.extra == if g.Owning(root, va / PGSIZE) then old(g).extra - {ppn} else old(g).extra
      ensures old(g).HandKept(g)
    {
      hide Vm.Leaves, Vm.Owned, Vm.Pages, Vm.Pte, Vm.Data, Vm.WordAt, Vm.Trees;
      var w := Walk(root, va, true);
      if w.Panicked? {
        return Panic;
      }
      if w.Missing? {
        return NoMemory;
      }
      g.PteAt(pool, root, va / PGSIZE);
      if IsValid(mem[w.page][w.idx]) {
        return Panic;
      }
      OrVFields(perm);
      PteFields(ppn, OrV(perm));
      mem := mem[w.page := Set(mem[w.page], w.idx, MkPte(ppn, OrV(perm)))];
      if g.Owning(root, va / PGSIZE) {
        g.MapUserKeeps(pool, root, va / PGSIZE, ppn, OrV(perm));
        g := g.MapUser(root, va / PGSIZE, ppn, OrV(perm));
      } else {
        g.RemarkKeeps(pool, root, va / PGSIZE, MkPte(ppn, OrV(perm)));
        g := g.SetPte(root, va / PGSIZE, MkPte(ppn, OrV(perm)), g.owner, g.extra);
      }
      r := Done;
    }

    /** mappages(): the n entries from va on that it managed to write, in order.  `last` is
        computed in 64-bit arithmetic, as in the source. */
    method MapPages(root: nat, va: nat, size: nat, pa: nat, perm: nat) returns (r: Result, n: nat)
      requires Valid() && root in g.tree && pa / PGSIZE != 0 && perm < 1024 && IsLeaf(perm)
      requires forall v: nat {:trigger g.Owning(root, v)} ::
                 size > 0 && Reaches(va, size, v) && g.Owning(root, v) ==> pa / PGSIZE + (v - va / PGSIZE) in g.extra
      modifies this`free, this`mem, this`g
      ensures Valid() && old(g).MapState(g, root, va / PGSIZE, n, pa / PGSIZE, OrV(perm))
      ensures n == 0 || (n == 1 && r.Done?) ==> old(g).HandKept(g)
      ensures r.Done? ==> size > 0 && va / PGSIZE + n == Last(va, size) + 1
      ensures !r.Done? && size > 0 && va / PGSIZE <= Last(va, size) ==> va / PGSIZE + n <= Last(va, size)
      ensures |free| + 2 * n + 2 >= |old(free)| && (r.Done? ==> |free| + 2 * n >= |old(free)|)
      ensures r.NoMemory? ==> free == [] && |old(free)| < 2 * n + 2
      ensures r.Panic? ==> size == 0 || va / PGSIZE + n >= MAXVPN || old(g).Pte(root, va / PGSIZE + n) != 0
    {
      hide Vm.Inv, Vm.Pte, Vm.Data, Vm.Rooted, Vm.ViewBut, Vm.SameView, Vm.HandKept, Vm.MapState, MkPte, OrV, IsLeaf;
      g.HandSelf();
      g.MapStateNone(root, va / PGSIZE, pa / PGSIZE, OrV(perm));
      n := 0;
      if size == 0 {
        return Panic, n;
      }
      var a, last, ppn := va / PGSIZE, Last(va, size), pa / PGSIZE;
      while true
        invariant a == va / PGSIZE + n && ppn == pa / PGSIZE + n
        invariant Valid() && old(g).MapState(g, root, va / PGSIZE, n, pa / PGSIZE, OrV(perm))
        invariant n == 0 ==> old(g).HandKept(g)
        invariant (n > 0 ==> a <= MAXVPN) && (va / PGSIZE <= last ==> a <= last) && |free| + 2 * n >= |old(free)|
        decreases MAXVPN + 1 - a
      {
        ghost var g1 := g;
        old(g).MapStateAt(g, root, va / PGSIZE, n, pa / PGSIZE, OrV(perm));
        r := MapOne(root, a * PGSIZE, ppn, perm);
        if n == 0 { old(g).HandTrans(g1, g); }
        if !r.Done? {
          old(g).MapStateSame(g1, g, root, va / PGSIZE, n, pa / PGSIZE, OrV(perm));
          return;
        }
        old(g).MapStateMore(g1, g, root, va / PGSIZE, n, pa / PGSIZE, OrV(perm));
        n := n + 1;
        if a == last {
          return;
        }
        a, ppn := a + 1, ppn + 1;
      }
    }

    /** The loop body of uvmunmap(): free the page if asked, then clear the entry; a page that was
        owned and is not freed is in the caller's hand.  `!ok` is a panic; the "not a leaf" and
        kfree panics cannot happen. */
    method UnmapOne(root: nat, va: nat, doFree: bool) returns (ok: bool)
      requires Valid() && root in g.tree && (doFree ==> g.Owning(root, va / PGSIZE))
      modifies this`free, this`mem, this`g
      ensures Valid() && old(g).FramesBut(g)
      ensures g.extra == old(g).extra + if ok && !doFree then old(g).Let(root, va / PGSIZE) else {}
      ensures ok <==> va < MAXVA && old(g).Pte(root, va / PGSIZE) != 0
      ensures !ok ==> g == old(g)
      ensures ok ==> old(g).ViewBut(g, root, va / PGSIZE) && g.Pte(root, va / PGSIZE) == 0
      ensures |free| == |old(free)| + if ok && doFree then 1 else 0
    {
      hide Vm.Leaves, Vm.Owned, Vm.Pages, Vm.Pte, Vm.Data, Vm.WordAt, Vm.Trees, Vm.SameView, Vm.ViewBut, Fill, Set;
      var w := Walk(root, va, false);
      if !w.Entry? {
        return false;
      }
      ghost var v := va / PGSIZE;
      g.PteAt(pool, root, v);
      var pte := mem[w.page][w.idx];
      if !IsValid(pte) || Flags(pte) == 1 {
        return false;
      }
      if doFree {
        var _ := Kfree(Ppn(pte));
        g.UnmapFreeKeeps(pool, root, v);
        g := g.Unmap(root, v).Kfree(Ppn(pte));
      } else if g.Owning(root, v) {
        g.UnmapKeeps(pool, root, v);
        g := g.Unmap(root, v);
      } else {
        g.RemarkKeeps(pool, root, v, 0);
        g := g.SetPte(root, v, 0, g.owner, g.extra);
      }
      mem := mem[w.page := Set(mem[w.page], w.idx, 0)];
      ok := true;
    }

    /** uvmunmap(): n entries from va on are removed; all npages of them unless it panics.  The
        caller may only ask to free pages that the entries own. */
    method UvmUnmap(root: nat, va: nat, npages: nat, doFree: bool) returns (ok: bool, n: nat)
      requires Valid() && root in g.tree
      requires forall v {:trigger g.Owning(root, v)} ::
                 doFree && va / PGSIZE <= v < va / PGSIZE + npages ==> g.Owning(root, v)
      modifies this`free, this`mem, this`g
      ensures Valid() && n <= npages && old(g).UnmapState(g, root, va / PGSIZE, n, doFree)
      ensures ok ==> va % PGSIZE == 0 && n == npages
      ensures !ok ==> va % PGSIZE != 0 || (n < npages && old(g).Pte(root, va / PGSIZE + n) == 0)
      ensures |free| == |old(free)| + if doFree then n else 0
    {
      hide Vm.Inv, Vm.Pte, Vm.Data, Vm.Rooted, Vm.ViewBut, Vm.HandKept, Vm.Let, Vm.UnmapState;
      g.UnmapStateNone(root, va / PGSIZE, doFree);
      n := 0;
      if va % PGSIZE != 0 {
        return false, n;
      }
      while n < npages
        invariant n <= npages && Valid() && old(g).UnmapState(g, root, va / PGSIZE, n, doFree)
        invariant |free| == |old(free)| + if doFree then n else 0
      {
        ghost var g1 := g;
        assert (va + n * PGSIZE) / PGSIZE == va / PGSIZE + n;
        old(g).UnmapStateAt(g, root, va / PGSIZE, n, doFree);
        g.PteBeyond(root, va / PGSIZE + n);
        var one := UnmapOne(root, va + n * PGSIZE, doFree);
        if !one {
          return false, n;
        }
        old(g).UnmapStateMore(g1, g, root, va / PGSIZE, n, doFree);
        n := n + 1;
      }
      ok := true;
    }

    /** mappages() of a single page that is not mapped yet. */
    method MapPage(root: nat, v: nat, ppn: nat, perm: nat) returns (r: Result)
      requires Valid() && root in g.tree && v < MAXVPN && g.Pte(root, v) == 0 && ppn != 0 && perm < 1024 && IsLeaf(perm)
      requires g.Owning(root, v) ==> ppn in g.extra
      modifies this`free, this`mem, this`g
      ensures Valid() && g.tree.Keys == old(g).tree.Keys && g.kern == old(g).kern && g.frames == old(g).frames
      ensures !r.Panic? && old(g).HandKept(g)
      ensures r.NoMemory? ==> old(g).SameView(g) && g.extra == old(g).extra && free == [] && |old(free)| < 2
      ensures |free| + 2 >= |old(free)|
      ensures r.Done? ==> old(g).ViewBut(g, root, v) && g.Pte(root, v) == MkPte(ppn, OrV(perm))
      ensures r.Done? ==> g.extra == if g.Owning(root, v) then old(g).extra - {ppn} else old(g).extra
    {
      hide Vm.Inv, Vm.Pte, Vm.Data, Vm.Rooted, Vm.HandKept, MkPte, OrV, IsLeaf;
      LastOfPage(v);
      g.TakenMore(root, v, 0, ppn);
      var n;
      r, n := MapPages(root, v * PGSIZE, PGSIZE, ppn * PGSIZE, perm);
    }

    /** kalloc() and fill the page with d. */
    method Grab(d: Page) returns (p: nat)
      requires Valid() && |d| == ENTRIES
      modifies this`free, this`mem, this`g
      ensures Valid() && old(g).SameView(g) && old(g).HandKept(g)
      ensures g.tree == old(g).tree && g.kern == old(g).kern && g.frames == old(g).frames
      ensures p == 0 ==> g == old(g) && free == old(free) == []
      ensures p != 0 ==> |free| + 1 == |old(free)|
      ensures p != 0 ==> p !in old(g).extra && g.extra == old(g).extra + {p} && p in mem && mem[p] == d
    {
      hide Vm.Trees, Vm.Owned, Vm.Leaves, Vm.Pte, Vm.Data;
      ghost var g0 := g;
      p := Kalloc();
      if p != 0 {
        g0.GrabKeeps(pool, d);
        mem, g := mem[p := d], g0.Grab(d);
      }
    }

    /** kfree() of a page that nothing refers to. */
    method Drop(p: nat)
      requires Valid() && p in g.extra
      modifies this`free, this`mem, this`g
      ensures Valid() && old(g).SameView(g) && free == [p] + old(free)
      ensures g.tree == old(g).tree && g.kern == old(g).kern && g.frames == old(g).frames
                && g.extra == old(g).extra - {p}
      ensures g.owner == old(g).owner
      ensures forall q :: q in g.extra && q in old(mem) ==> q in mem && mem[q] == old(mem)[q]
    {
      hide Vm.Trees, Vm.Owned, Vm.Leaves, Vm.Pte, Vm.Data;
      g.KfreeKeeps(pool, p);
      var _ := Kfree(p);
      g := g.Kfree(p);
    }

    /** Grab, mappages, and kfree if the mapping fails: the common loop body of uvmalloc() and
        uvmcopy(). */
    method NewUserPage(root: nat, v: nat, d: Page, perm: nat) returns (ok: bool)
      requires Valid() && root in g.tree && g.Owning(root, v) && g.Pte(root, v) == 0
      requires |d| == ENTRIES && perm < 1024 && IsLeaf(perm)
      modifies this`free, this`mem, this`g
      ensures Valid() && old(g).Frames(g) && |free| + 3 >= |old(free)|
      ensures !ok ==> old(g).SameView(g) && |old(free)| < 3
      ensures ok ==> old(g).ViewBut(g, root, v) && g.Pte(root, v) != 0
      ensures ok ==> g.Data(root, v) == d && Flags(g.Pte(root, v)) == OrV(perm)
    {
      hide Vm.Inv, Vm.Rooted, Vm.Pte, Vm.Data, Vm.SameView, Vm.ViewBut, OrV, IsLeaf, IsValid, Flags;
      ghost var g0 := g;
      var p := Grab(d);
      if p == 0 {
        return false;
      }
      ghost var g1 := g;
      g0.SameViewPte(g1, root, v);
      var r := MapPage(root, v, p, perm);
      ghost var g2 := g;
      if r.Done? {
        OrVFields(perm);
        g.DataNew(pool, root, v, p, OrV(perm));
        PteFields(p, OrV(perm));
        g0.SameThenBut(g1, g, root, v);
        return true;
      }
      g0.ViewTrans(g1, g2);
      Drop(p);
      g0.ViewTrans(g2, g);
      ok := false;
    }

    /** uvmdealloc() */
    method UvmDealloc(root: nat, oldsz: nat, newsz: nat) returns (sz: nat)
      requires Valid() && g.UserMap(root, RoundUp(oldsz))
      modifies this`free, this`mem, this`g
      ensures Valid() && old(g).Frames(g) && sz == (if newsz < oldsz then newsz else oldsz)
      ensures g.UserMap(root, RoundUp(sz)) && g.Empty(root, RoundUp(sz), RoundUp(oldsz))
      ensures old(g).ViewOutside(g, root, RoundUp(sz), RoundUp(oldsz))
      ensures |free| == |old(free)| + (RoundUp(oldsz) - RoundUp(sz))
    {
      hide Vm.Inv, Vm.Rooted, Vm.Pte, Vm.Data;
      if newsz >= oldsz {
        return oldsz;
      }
      RoundMono(newsz, oldsz);
      if RoundUp(newsz) < RoundUp(oldsz) {
        var npages := RoundUp(oldsz) - RoundUp(newsz);
        var ok, n := UvmUnmap(root, RoundUp(newsz) * PGSIZE, npages, true);
        old(g).UserMapMove(g, root, RoundUp(newsz), RoundUp(oldsz));
      }
      sz := newsz;
    }

    /** uvmalloc(): all of the new pages, zeroed, or nothing; and that only if there are fewer than
        three free pages for each, one for the page and two for directories. */
    method UvmAlloc(root: nat, oldsz: nat, newsz: nat) returns (sz: nat)
      requires Valid() && g.UserMap(root, RoundUp(oldsz))
      modifies this`free, this`mem, this`g
      ensures Valid() && old(g).Frames(g)
      ensures newsz < oldsz ==> sz == oldsz && g == old(g)
      ensures newsz >= oldsz ==> sz == 0 || sz == newsz
      ensures newsz >= oldsz && sz == 0 ==> old(g).SameView(g)
      ensures newsz >= oldsz && newsz > 0 && sz == 0 ==> |old(free)| < 3 * (RoundUp(newsz) - RoundUp(oldsz))
      ensures newsz >= oldsz && sz != 0 ==> |free| + 3 * (RoundUp(newsz) - RoundUp(oldsz)) >= |old(free)|
      ensures newsz >= oldsz && sz != 0 ==>
                g.UserMap(root, RoundUp(newsz)) && g.Fresh(root, RoundUp(oldsz), RoundUp(newsz))
      ensures newsz >= oldsz && sz != 0 ==> old(g).ViewOutside(g, root, RoundUp(oldsz), RoundUp(newsz))
    {
      hide Vm.Inv, Vm.Rooted, Vm.Pte, Vm.Data, Vm.Frames, Vm.ViewBut, Fill, Flags;
      if newsz < oldsz {
        old(g).KeptSelf();
        return oldsz;
      }
      RoundMono(oldsz, newsz);
      g.KeptSelf();
      var a := RoundUp(oldsz);
      while a * PGSIZE < newsz
        invariant RoundUp(oldsz) <= a <= RoundUp(newsz) && Valid() && old(g).Frames(g)
        invariant g.UserMap(root, a) && old(g).ViewOutside(g, root, RoundUp(oldsz), a)
                    && g.Fresh(root, RoundUp(oldsz), a)
        invariant |free| + 3 * (a - RoundUp(oldsz)) >= |old(free)|
      {
        ghost var g1 := g;
        g.Room(pool, root, a);
        var ok := NewUserPage(root, a, Fill(0), 30);
        old(g).FramesTrans(g1, g);
        if !ok {
          old(g).OutsideSame(g1, g, root, RoundUp(oldsz), a);
          ghost var g2 := g;
          g1.UserMapSame(g2, root, a);
          var _ := UvmDealloc(root, a * PGSIZE, RoundUp(oldsz) * PGSIZE);
          old(g).FramesTrans(g2, g);
          old(g).Undo(g2, g, root, RoundUp(oldsz), a);
          return 0;
        }
        old(g).Extend(g1, g, root, RoundUp(oldsz), a);
        g1.FreshMore(g, root, RoundUp(oldsz), a);
        g1.UserMapMore(g, root, a);
        a := a + 1;
      }
      sz := newsz;
    }

    /** freewalk() on the page at path p of a space without mappings: every page below goes to
        the free list, and then the page itself, whose parent still points to it. */
    method FreeWalk(page: nat, ghost s: nat, ghost p: Path) returns (ok: bool)
      requires Valid() && g.Bare(s) && page == g.At(s, p) && page != 0
      modifies this`free, this`mem, this`g
      ensures ok && g.Inv(pool) && g.Rooted() && old(g).Kept(g)
      ensures free == [page] + g.free && mem == g.mem[page := Fill(JUNK1)]
      ensures forall q: Path {:trigger g.At(s, q)} :: g.At(s, q) == if Below(p, q) then 0 else old(g).At(s, q)
      decreases Level(p), 1
    {
      hide Vm.Inv, Vm.Rooted, Vm.Kept, Vm.Bare, Vm.At, Fill;
      ok := true;
      g.KeptSelf();
      var i := 0;
      while i < ENTRIES
        invariant i <= ENTRIES && Valid() && old(g).Kept(g) && g.Bare(s) && ok
        invariant forall q: Path {:trigger g.At(s, q)} :: g.At(s, q) ==
                    if Below(p, q) && Via(p, q) < i then 0 else old(g).At(s, q)
      {
        ghost var g1 := g;
        ok := FreeEntry(page, i, s, p);
        old(g).KeptTrans(g1, g);
        i := i + 1;
      }
      forall q: Path | Below(p, q) && old(g).At(s, q) != 0
        ensures Via(p, q) < ENTRIES
      {
        old(g).ViaRange(pool, s, p, q);
      }
      g.FreeEntryAt(pool, s, p, 0);
      ok := Kfree(page);
    }

    /** The loop body of freewalk(): entry i and all that hangs from it. */
    method FreeEntry(page: nat, i: nat, ghost s: nat, ghost p: Path) returns (ok: bool)
      requires Valid() && g.Bare(s) && page == g.At(s, p) && page != 0 && i < ENTRIES
      modifies this`free, this`mem, this`g
      ensures ok && Valid() && old(g).Kept(g) && g.Bare(s)
      ensures forall q: Path {:trigger g.At(s, q)} :: g.At(s, q) ==
                if Below(p, q) && Via(p, q) == i then 0 else old(g).At(s, q)
      decreases Level(p), 0
    {
      hide Vm.Inv, Vm.Rooted, Vm.Kept, Vm.Bare, Vm.At, Fill, Set, IsValid, IsLeaf, Ppn;
      ghost var g0 := g;
      g.KeptSelf();
      g.FreeEntryAt(pool, s, p, i);
      var pte := mem[page][i];
      ok := !(IsValid(pte) && IsLeaf(pte));
      if IsValid(pte) && !IsLeaf(pte) {
        ghost var c := Child(p, i);
        ok := FreeWalk(Ppn(pte), s, c);
        g0.KeptBare(g, s);
        ghost var g1 := g;
        g.PruneReady(pool, s, p, i);
        g.PruneKeeps(pool, s, c);
        mem := mem[page := Set(mem[page], i, 0)];
        g := g.Prune(s, c);
        g0.KeptTrans(g1, g);
        g0.KeptBare(g, s);
      } else {
        g.NoChild(pool, s, p, i);
      }
    }

    /** uvmcreate(); 0 when out of memory. */
    method UvmCreate() returns (root: nat)
      requires Valid()
      modifies this`free, this`mem, this`g
      ensures Valid() && old(g).SameView(g) && g.extra == old(g).extra && g.kern == old(g).kern
                && g.frames == old(g).frames
      ensures root == 0 ==> g == old(g) && old(free) == []
      ensures root != 0 ==> root !in old(g).tree && g.tree.Keys == old(g).tree.Keys + {root} && g.Bare(root)
      ensures root != 0 ==> |free| + 1 == |old(free)|
    {
      hide Vm.Inv, Vm.Pte, Vm.Data, Vm.SameView, Vm.Bare, Vm.HandKept, Fill;
      ghost var g0 := g;
      root := Grab(Fill(0));
      if root != 0 {
        ghost var g1 := g;
        g1.NotRoot(pool, root);
        g1.NewTreeKeeps(pool, root, root);
        g := g1.NewTree(root, root);
        g0.ViewTrans(g1, g);
        g.NewBare(g1, root);
      }
    }

    /** uvmfree() of a space that maps exactly [0, PGROUNDUP(sz)): all its pages go to the free
        list.  Neither uvmunmap nor freewalk panics. */
    method UvmFree(root: nat, sz: nat) returns (ok: bool)
      requires Valid() && g.UserMap(root, RoundUp(sz)) && g.Empty(root, TRAPF, MAXVPN)
      modifies this`free, this`mem, this`g
      ensures ok && Valid() && g.extra == old(g).extra && g.kern == old(g).kern && g.frames == old(g).frames
      ensures g.tree.Keys == old(g).tree.Keys - {root} && old(g).ViewOutside(g, root, 0, MAXVPN)
    {
      hide Vm.Inv, Vm.Rooted, Vm.Pte, Vm.Data, Vm.Kept, Vm.At;
      ok := true;
      var n := 0;
      if sz > 0 {
        ok, n := UvmUnmap(root, 0, RoundUp(sz), true);
      }
      ghost var g1 := g;
      old(g).NowBare(g1, root, RoundUp(sz));
      g.RootedAt(pool, root);
      ok := FreeWalk(root, root, Root);
      g1.KeptPte(g, root, 0);
      ghost var g2 := g;
      g.FellFreeKeeps(pool, root);
      g := g.Fell(root).Kfree(root);
      old(g).FellView(g1, g2, g, root, RoundUp(sz));
    }

    /** What uvmcopy() reads for page v: contents and flags.  walk() does find the entry, so the
        two panics there cannot happen. */
    method ReadUserPage(root: nat, v: nat) returns (d: Page, flags: nat)
      requires Valid() && root in g.tree && g.Owning(root, v) && g.Pte(root, v) != 0
      modifies this`free, this`mem, this`g
      ensures g == old(g) && Valid()
      ensures d == g.Data(root, v) && |d| == ENTRIES && flags == Flags(g.Pte(root, v))
      ensures flags < 1024 && IsLeaf(flags) && OrV(flags) == flags
    {
      hide Vm.Inv, Vm.Rooted, Vm.Data, Vm.Pte, Vm.LowPage, Vm.Kept, Flags, IsLeaf, OrV;
      var w := Walk(root, v * PGSIZE, false);
      g.PteAt(pool, root, v);
      g.DataOld(pool, root, v);
      var pte := mem[w.page][w.idx];
      FlagsFields(pte);
      d, flags := mem[Ppn(pte)], Flags(pte);
    }

    /** uvmcopy(): the child gets the parent's contents and flags page by page, or nothing; and that
        only if there are fewer than three free pages for each. */
    method UvmCopy(from: nat, to: nat, sz: nat) returns (ok: bool)
      requires Valid() && from != to && g.UserMap(from, RoundUp(sz)) && g.UserMap(to, 0)
      modifies this`free, this`mem, this`g
      ensures Valid() && old(g).Frames(g)
      ensures !ok ==> old(g).SameView(g) && |old(free)| < 3 * RoundUp(sz)
      ensures ok ==> g.UserMap(to, RoundUp(sz)) && old(g).Copied(g, from, to, RoundUp(sz))
      ensures ok ==> old(g).ViewOutside(g, to, 0, RoundUp(sz))
    {
      hide Vm.Inv, Vm.Rooted, Vm.Pte, Vm.Data, Vm.Frames, Vm.ViewBut, Vm.Copied, IsLeaf, OrV, Flags;
      g.KeptSelf();
      var i := 0;
      assert old(g).Copied(g, from, to, 0) by { old(g).CopiedNone(g, from, to); }
      while i * PGSIZE < sz
        invariant i <= RoundUp(sz) && Valid() && old(g).Frames(g)
        invariant g.UserMap(to, i) && old(g).ViewOutside(g, to, 0, i) && old(g).Copied(g, from, to, i)
        invariant |free| + 3 * i >= |old(free)|
      {
        ghost var g1 := g;
        old(g).OutsideAt(g, to, 0, i, from, i);
        old(g).FramesOwning(g, from);
        var d, flags := ReadUserPage(from, i);
        var one := NewUserPage(to, i, d, flags);
        old(g).FramesTrans(g1, g);
        if !one {
          ghost var g2 := g;
          old(g).OutsideSame(g1, g, to, 0, i);
          g1.UserMapSame(g2, to, i);
          var _, _ := UvmUnmap(to, 0, i, true);
          old(g).FramesTrans(g2, g);
          old(g).Undo(g2, g, to, 0, i);
          return false;
        }
        old(g).Extend(g1, g, to, 0, i);
        g1.UserMapMore(g, to, i);
        old(g).CopiedMore(g1, g, from, to, i);
        i := i + 1;
      }
      ok := true;
    }

    /** uvmclear(): the user bit goes, the mapping stays.  `!ok` is the panic on a missing directory. */
    method UvmClear(root: nat, va: nat) returns (ok: bool)
      requires Valid() && root in g.tree
      modifies this`free, this`mem, this`g
      ensures Valid() && old(g).Frames(g) && (!ok ==> g == old(g))
      ensures ok <==> va < MAXVA && old(g).LowPage(root, va / PGSIZE) != 0
      ensures ok ==>
                old(g).ViewBut(g, root, va / PGSIZE)
                  && g.Pte(root, va / PGSIZE) == ClearU(old(g).Pte(root, va / PGSIZE))
      ensures ok ==> g.Data(root, va / PGSIZE) == old(g).Data(root, va / PGSIZE)
      ensures old(g).Pte(root, va / PGSIZE) != 0 ==> ok && g.Pte(root, va / PGSIZE) != 0
    {
      hide Vm.Leaves, Vm.Owned, Vm.Pages, Vm.Trees, Vm.Pte, Vm.Data, Vm.Kept, Set, IsLeaf, ClearU;
      ghost var v := va / PGSIZE;
      g.PteBeyond(root, v);
      g.NoLow(root, v);
      g.KeptSelf();
      var w := Walk(root, va, false);
      if !w.Entry? {
        return false;
      }
      g.PteAt(pool, root, v);
      var pte := mem[w.page][w.idx];
      ClearUFields(pte);
      ClearUZero(pte);
      g.LeafAt(pool, root, v);
      g.RemarkKeeps(pool, root, v, ClearU(pte));
      g.RemarkData(pool, root, v, ClearU(pte));
      mem := mem[w.page := Set(mem[w.page], w.idx, ClearU(pte))];
      g := g.SetPte(root, v, ClearU(pte), g.owner, g.extra);
      ok := true;
    }

    /** uvmfree(pagetable, 0) after everything has been unmapped. */
    method FreeBare(root: nat)
      requires Valid() && g.Bare(root) && root !in g.kern
      modifies this`free, this`mem, this`g
      ensures Valid() && g.extra == old(g).extra && g.kern == old(g).kern && g.frames == old(g).frames
      ensures g.tree.Keys == old(g).tree.Keys - {root} && old(g).ViewOutside(g, root, 0, MAXVPN)
    {
      hide Vm.Inv, Vm.Rooted, Vm.Pte, Vm.Data, Vm.ViewOutside;
      var _ := UvmFree(root, 0);
    }

    /** uvmunmap() of the trampoline or the trapframe, which are not freed. */
    method UnmapFixed(root: nat, v: nat)
      requires Valid() && root in g.tree && (v == TRAMP || v == TRAPF) && g.Pte(root, v) != 0
      modifies this`free, this`mem, this`g
      ensures Valid() && old(g).Frames(g) && old(g).ViewOutside(g, root, v, v + 1) && g.Empty(root, v, v + 1)
    {
      hide Vm.Inv, Vm.Rooted, Vm.Pte, Vm.Data, Vm.ViewOutside, Vm.HandKept, Vm.Empty;
      g.LetMore(root, v, 0);
      var _, _ := UvmUnmap(root, v * PGSIZE, 1, false);
    }

    /** proc_pagetable(): an address space with no user memory, or nothing. */
    method ProcPagetable(tf: nat, tramp: nat) returns (root: nat)
      requires Valid() && tf != 0 && tramp != 0 && g.kern <= g.tree.Keys
      modifies this`free, this`mem, this`g
      ensures Valid() && g.extra == old(g).extra && g.kern == old(g).kern && g.frames == old(g).frames
      ensures root == 0 ==> old(g).SameView(g) && g.tree.Keys == old(g).tree.Keys && |old(free)| < 5
      ensures root != 0 ==>
                root !in old(g).tree && g.tree.Keys == old(g).tree.Keys + {root} && |free| + 5 >= |old(free)|
      ensures root != 0 ==> g.Space(root, 0, tf, tramp) && old(g).ViewOutside(g, root, 0, MAXVPN)
    {
      hide Vm.Inv, Vm.Rooted, Vm.Pte, Vm.Data, Vm.ViewOutside, Vm.ViewBut, Vm.SameView, Vm.HandKept, MkPte, Vm.Empty;
      ghost var g0 := g;
      root := UvmCreate();
      if root == 0 {
        return;
      }
      ghost var g1 := g;
      g0.SameWhole(g1, root);
      var r := MapPage(root, TRAMP, tramp, 10);
      ghost var g2 := g;
      if !r.Done? {
        g0.ViewTrans(g1, g2);
        g1.BareSame(g2, root);
        FreeBare(root);
        g0.SameWhole(g2, root);
        g0.WholeOutside(g2, g, root, 0, MAXVPN);
        g0.Gone(g, root);
        return 0;
      }
      g0.WholeBut(g1, g2, root, TRAMP);
      g1.BareButAt(g2, root, TRAMP);
      r := MapPage(root, TRAPF, tf, 6);
      ghost var g3 := g;
      if !r.Done? {
        g2.SameViewPte(g3, root, TRAMP);
        PteNonzero(tramp, 11);
        UnmapFixed(root, TRAMP);
        g0.Retreat(g2, g3, g, root);
        ghost var g4 := g;
        FreeBare(root);
        g0.WholeOutside(g4, g, root, 0, MAXVPN);
        g0.Gone(g, root);
        return 0;
      }
      g0.WholeBut(g2, g3, root, TRAPF);
      g2.TwoMapped(g3, root);
    }

    /** proc_freepagetable(): nothing of the address space is left.  No panic. */
    method ProcFreePagetable(root: nat, sz: nat, ghost tf: nat, ghost tramp: nat) returns (ok: bool)
      requires Valid() && g.Space(root, RoundUp(sz), tf, tramp) && tf != 0 && tramp != 0
      modifies this`free, this`mem, this`g
      ensures ok && Valid() && g.extra == old(g).extra && g.kern == old(g).kern && g.frames == old(g).frames
      ensures g.tree.Keys == old(g).tree.Keys - {root} && old(g).ViewOutside(g, root, 0, MAXVPN)
    {
      hide Vm.Inv, Vm.Rooted, Vm.Pte, Vm.Data, Vm.ViewOutside, Vm.HandKept, Vm.Empty, Vm.UserMap, MkPte;
      ghost var g0 := g;
      PteNonzero(tramp, 11);
      PteNonzero(tf, 7);
      g.UserMapIn(root, RoundUp(sz));
      UnmapFixed(root, TRAMP);
      ghost var g1 := g;
      g0.OutsideAt(g1, root, TRAMP, TRAMP + 1, root, TRAPF);
      UnmapFixed(root, TRAPF);
      g0.TwoUnmapped(g1, g, root, RoundUp(sz));
      ghost var g2 := g;
      ok := UvmFree(root, sz);
      g0.WholeOutside(g2, g, root, 0, MAXVPN);
    }

    /** allocproc()'s trapframe page for process slot j; 0 when out of memory. */
    method NewFrame(j: nat) returns (tf: nat)
      requires Valid() && j !in g.frames
      modifies this`free, this`mem, this`g
      ensures Valid() && old(g).SameView(g) && g.tree == old(g).tree && g.kern == old(g).kern && g.extra == old(g).extra
      ensures tf == 0 ==> g == old(g) && old(free) == []
      ensures tf != 0 ==> g.frames == old(g).frames[j := tf] && |free| + 1 == |old(free)|
    {
      hide Vm.Trees, Vm.Leaves, Vm.Owned, Vm.Pte, Vm.Data, Vm.SameView;
      ghost var g0 := g;
      tf := Kalloc();
      if tf != 0 {
        ghost var g1 := g;
        g1.SetFrameKeeps(pool, j, tf);
        g := g1.SetFrame(j, tf);
        g0.ViewTrans(g1, g);
      }
    }

    /** freeproc()'s kfree of the trapframe. */
    method FreeFrame(ghost j: nat, tf: nat)
      requires Valid() && j in g.frames && g.frames[j] == tf != 0
      modifies this`free, this`mem, this`g
      ensures Valid() && old(g).SameView(g) && g.tree == old(g).tree && g.kern == old(g).kern && g.extra == old(g).extra
      ensures g.frames == old(g).frames - {j}
    {
      hide Vm.Trees, Vm.Leaves, Vm.Owned, Vm.Pte, Vm.Data, Vm.SameView;
      ghost var g0 := g;
      g.DropFrameKeeps(pool, j);
      g := g.DropFrame(j);
      ghost var g1 := g;
      Drop(tf);
      g0.ViewTrans(g1, g);
    }

    /** walkaddr(); 0 unless the page is mapped and open to the user. */
    method WalkAddr(root: nat, va: nat) returns (p: nat)
      requires Valid() && root in g.tree
      modifies this`free, this`mem, this`g
      ensures g == old(g) && Valid()
      ensures var pte := g.Pte(root, va / PGSIZE); p == if pte != 0 && IsUser(pte) then Ppn(pte) else 0
    {
      hide Vm.Inv, Vm.Rooted, Vm.Pte, Vm.LowPage, Vm.Kept, IsLeaf, IsUser, Ppn, Flags;
      g.PteBeyond(root, va / PGSIZE);
      if va >= MAXVA {
        return 0;
      }
      var w := Walk(root, va, false);
      if w.Missing? {
        return 0;
      }
      g.PteAt(pool, root, va / PGSIZE);
      var pte := mem[w.page][w.idx];
      p := if IsValid(pte) && IsUser(pte) then Ppn(pte) else 0;
    }

    /** Filling one user page, as loadseg() and copyout() do; `!ok` when walkaddr() finds none. */
    method WriteUser(root: nat, v: nat, d: Page) returns (ok: bool)
      requires Valid() && root in g.tree && g.Owning(root, v) && |d| == ENTRIES
      modifies this`free, this`mem, this`g
      ensures |free| == |old(free)|
      ensures Valid() && old(g).Frames(g) && g.Pte(root, v) == old(g).Pte(root, v)
      ensures Flags(g.Pte(root, v)) == 31 ==> ok
      ensures ok ==> old(g).ViewBut(g, root, v) && g.Data(root, v) == d
      ensures !ok ==> g == old(g)
    {
      hide Vm.Inv, Vm.Rooted, Vm.Pte, Vm.Data, Vm.ViewBut, Flags, IsUser, Ppn;
      var p := WalkAddr(root, v * PGSIZE);
      if Flags(g.Pte(root, v)) == 31 { g.UserBit(pool, root, v); }
      if p == 0 {
        return false;
      }
      g.StoreUserKeeps(pool, root, v, d);
      mem, g := mem[p := d], g.Store(p, d);
      ok := true;
    }
  }

  ghost function PageSet(a: nat, b: nat): (r: set<nat>)
    requires a <= b
    ensures |r| == b - a && forall p :: p in r <==> a <= p < b
    decreases b - a
  {
    if a == b then {} else {a} + PageSet(a + 1, b)
  }

  lemma RoundMono(a: nat, b: nat)
    requires a <= b
    ensures RoundUp(a) <= RoundUp(b) && RoundUp(RoundUp(a) * PGSIZE) == RoundUp(a)
  {}

  lemma LastOfPage(v: nat)
    requires v < MAXVPN
    ensures Last(v * PGSIZE, PGSIZE) == v && v * PGSIZE / PGSIZE == v
  {}
}
