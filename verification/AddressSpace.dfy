/** The address spaces of the processes: allocproc, freeproc, growproc and fork (kernel/proc.c)
    and exec (kernel/exec.c), as far as they touch memory. */
module AddressSpace {
  import opened PageTable
  import opened VirtualMemory

  /** The memory fields of a process; pagetable and trapframe are page numbers or 0. */
  datatype Proc = Proc(used: bool, pagetable: nat, sz: nat, trapframe: nat)

  const UNUSED: Proc := Proc(false, 0, 0, 0)

  ghost predicate ProcOk(g: Vm, p: Proc, tramp: nat) {
    && (!p.used ==> p == UNUSED)
    && (p.used ==> p.pagetable != 0 && p.trapframe != 0 && g.Space(p.pagetable, RoundUp(p.sz), p.trapframe, tramp))
  }

  /** Between system calls: no page in hand, every process has its own complete address space
      and trapframe, and there is no other user address space or trapframe. */
  ghost predicate Tables(g: Vm, procs: seq<Proc>, tramp: nat) {
    && g.extra == {} && tramp != 0 && g.kern <= g.tree.Keys
    && (forall i :: 0 <= i < |procs| ==> ProcOk(g, procs[i], tramp))
    && (forall i, j ::
       0 <= i < j < |procs| && procs[i].used && procs[j].used ==> procs[i].pagetable != procs[j].pagetable)
    && (forall s {:trigger s in g.tree} :: s in g.tree ==> s in g.kern || Held(procs, s))
    && (forall i: nat {:trigger i in g.frames} :: i in g.frames <==> i < |procs| && procs[i].used)
    && (forall i: nat {:trigger g.frames[i]} :: i in g.frames ==> g.frames[i] == procs[i].trapframe)
  }

  ghost predicate Held(procs: seq<Proc>, s: nat) {
    exists i :: 0 <= i < |procs| && procs[i].used && procs[i].pagetable == s
  }

  /** The address space of one process slot replaced, all others left alone. */
  lemma TablesUpdate(g: Vm, h: Vm, procs: seq<Proc>, j: nat, p: Proc, tramp: nat, x: set<nat>)
    requires Tables(g, procs, tramp) && j < |procs| && ProcOk(h, p, tramp)
    requires h.extra == {} && h.kern == g.kern && g.SameExcept(h, x)
    requires forall s :: s in x ==> s in {procs[j].pagetable, p.pagetable} || s !in g.tree
    requires h.tree.Keys == g.tree.Keys - (if procs[j].used then {procs[j].pagetable} else {})
               + (if p.used then {p.pagetable} else {})
    requires p.used ==> p.pagetable !in g.tree || (procs[j].used && p.pagetable == procs[j].pagetable)
    requires h.frames == if p.used then g.frames[j := p.trapframe] else g.frames - {j}
    ensures Tables(h, procs[j := p], tramp)
  {
    hide Vm.Space, Vm.SameExcept;
    var q := procs[j := p];
    forall i | 0 <= i < |q| ensures ProcOk(h, q[i], tramp) {
      if i != j && procs[i].used { OtherKept(g, h, procs, j, i, p, tramp, x); }
    }
    forall s | s in h.tree ensures s in h.kern || Held(q, s) {
      if p.used && s == p.pagetable {
        assert q[j].pagetable == s;
      } else {
        assert s in h.tree.Keys;
        assert s in g.tree;
        if s !in g.kern {
          var i :| 0 <= i < |procs| && procs[i].used && procs[i].pagetable == s;
          assert i != j && q[i] == procs[i];
        }
      }
    }
    forall i, k | 0 <= i < k < |q| && q[i].used && q[k].used ensures q[i].pagetable != q[k].pagetable {
      if i != j { InTree(g, procs, i, tramp); }
      if k != j { InTree(g, procs, k, tramp); }
    }
    forall s | s in h.kern ensures s in h.tree.Keys {
      if procs[j].used { InTree(g, procs, j, tramp); }
    }
  }

  lemma InTree(g: Vm, procs: seq<Proc>, i: nat, tramp: nat)
    requires Tables(g, procs, tramp) && i < |procs| && procs[i].used
    ensures procs[i].pagetable in g.tree && procs[i].pagetable !in g.kern
  {
    hide Vm.Pte;
    assert ProcOk(g, procs[i], tramp);
  }

  lemma OtherKept(g: Vm, h: Vm, procs: seq<Proc>, j: nat, i: nat, p: Proc, tramp: nat, x: set<nat>)
    requires Tables(g, procs, tramp) && j < |procs| && i < |procs| && i != j && procs[i].used
    requires h.kern == g.kern && g.SameExcept(h, x) && (p.used || p.pagetable == 0)
    requires forall s :: s in x ==> s in {procs[j].pagetable, p.pagetable} || s !in g.tree
    requires h.tree.Keys == g.tree.Keys - (if procs[j].used then {procs[j].pagetable} else {})
               + (if p.used then {p.pagetable} else {})
    requires p.used ==> p.pagetable !in g.tree || (procs[j].used && p.pagetable == procs[j].pagetable)
    ensures ProcOk(h, procs[i], tramp)
  {
    hide Vm.Space, Vm.SameExcept;
    InTree(g, procs, i, tramp);
    if procs[j].used { InTree(g, procs, j, tramp); }
    var s := procs[i].pagetable;
    assert ProcOk(g, procs[j], tramp) && ProcOk(g, procs[i], tramp);
    assert s in h.tree.Keys;
    g.SpaceKept(h, x, s, RoundUp(procs[i].sz), procs[i].trapframe, tramp);
  }

  class Kernel {
    const m: Memory
    const tramp: nat
    var procs: seq<Proc>

    ghost predicate Valid()
      reads this, m
    {
      m.Valid() && Tables(m.g, procs, tramp)
    }

    /** Boot: kernel page tables only, and an empty process table. */
    constructor (mem: Memory, trampoline: nat, nproc: nat)
      requires mem.Valid() && mem.g.extra == {} && mem.g.tree.Keys == mem.g.kern && mem.g.frames == map[]
                 && trampoline != 0
      ensures Valid() && m == mem && tramp == trampoline && |procs| == nproc
    {
      m, tramp, procs := mem, trampoline, seq(nproc, _ => UNUSED);
    }

    /** The search of allocproc(). */
    method FindUnused() returns (j: nat)
      ensures j <= |procs| && (j < |procs| ==> !procs[j].used)
      ensures j == |procs| ==> forall i :: 0 <= i < |procs| ==> procs[i].used
    {
      j := 0;
      while j < |procs|
        invariant j <= |procs| && forall i :: 0 <= i < j ==> procs[i].used
      {
        if !procs[j].used {
          return;
        }
        j := j + 1;
      }
    }

    /** allocproc(): a slot with an empty address space, or nothing at all; and that only if no slot
        is unused or there are fewer than six free pages. */
    method Allocproc() returns (ok: bool, j: nat)
      requires Valid()
      modifies this`procs, m`free, m`mem, m`g
      ensures Valid()
      ensures !ok ==> procs == old(procs) && old(m.g).SameView(m.g)
      ensures !ok ==> |old(m.free)| < 6 || forall i :: 0 <= i < |procs| ==> procs[i].used
      ensures ok ==> j < |procs| == |old(procs)| && !old(procs)[j].used && procs == old(procs)[j := procs[j]]
      ensures ok ==> procs[j].used && procs[j].sz == 0 && |m.free| + 6 >= |old(m.free)|
      ensures ok ==> procs[j].pagetable !in old(m.g).tree && m.g.tree.Keys == old(m.g).tree.Keys + {procs[j].pagetable}
      ensures ok ==> old(m.g).SameExcept(m.g, {procs[j].pagetable})
    {
      hide Vm.Inv, Vm.Rooted, Vm.Pte, Vm.Data, Vm.SameView, Vm.SameExcept, Vm.Space, Vm.ViewOutside;
      m.g.SameViewSelf();
      j := FindUnused();
      if j == |procs| {
        return false, j;
      }
      ghost var g0 := m.g;
      var tf := m.NewFrame(j);
      if tf == 0 {
        return false, j;
      }
      ghost var g1 := m.g;
      var root := m.ProcPagetable(tf, tramp);
      ghost var g2 := m.g;
      if root == 0 {
        g0.ViewTrans(g1, g2);
        m.FreeFrame(j, tf);
        g0.ViewTrans(g2, m.g);
        g0.SameIsExcept(m.g, {});
        TablesUpdate(g0, m.g, procs, j, UNUSED, tramp, {});
        assert procs[j := UNUSED] == procs;
        return false, j;
      }
      g0.SameIsExcept(g1, {root});
      g1.OutsideExcept(g2, root, 0, MAXVPN);
      g0.ExceptTrans(g1, g2, {root}, {root});
      assert {root} + {root} == {root};
      TablesUpdate(g0, g2, procs, j, Proc(true, root, 0, tf), tramp, {root});
      procs := procs[j := Proc(true, root, 0, tf)];
      ok := true;
    }

    /** freeproc(), as wait() calls it on a zombie: the slot is empty and its pages are back on
        the free list.  No panic. */
    method Freeproc(j: nat)
      requires Valid() && j < |procs| && procs[j].used
      modifies this`procs, m`free, m`mem, m`g
      ensures Valid() && procs == old(procs)[j := UNUSED] && old(m.g).SameExcept(m.g, {old(procs)[j].pagetable})
      ensures m.g.tree.Keys == old(m.g).tree.Keys - {old(procs)[j].pagetable}
    {
      hide Vm.Inv, Vm.Rooted, Vm.Pte, Vm.Data, Vm.SameView, Vm.SameExcept, Vm.ViewOutside;
      ghost var g0 := m.g;
      var p := procs[j];
      assert ProcOk(g0, p, tramp);
      InTree(g0, procs, j, tramp);
      m.FreeFrame(j, p.trapframe);
      ghost var g1 := m.g;
      g0.SameIsExcept(g1, {});
      g0.SpaceKept(g1, {}, p.pagetable, RoundUp(p.sz), p.trapframe, tramp);
      var _ := m.ProcFreePagetable(p.pagetable, p.sz, p.trapframe, tramp);
      g1.OutsideExcept(m.g, p.pagetable, 0, MAXVPN);
      g0.ExceptTrans(g1, m.g, {}, {p.pagetable});
      assert {} + {p.pagetable} == {p.pagetable};
      TablesUpdate(g0, m.g, procs, j, UNUSED, tramp, {p.pagetable});
      procs := procs[j := UNUSED];
    }

    /** growproc() with n > 0. */
    method Grow(j: nat, n: nat) returns (ok: bool)
      requires Valid() && j < |procs| && procs[j].used && 0 < n < 0x8000_0000
      modifies this`procs, m`free, m`mem, m`g
      ensures Valid() && |procs| == |old(procs)|
      ensures !ok ==> procs == old(procs) && old(m.g).SameView(m.g)
      ensures !ok ==> |old(m.free)| < 3 * (RoundUp(procs[j].sz + n) - RoundUp(procs[j].sz))
      ensures ok ==> procs == old(procs)[j := old(procs)[j].(sz := old(procs)[j].sz + n)]
      ensures ok ==> old(m.g).ViewOutside(m.g, procs[j].pagetable, RoundUp(old(procs)[j].sz), RoundUp(procs[j].sz))
      ensures ok ==> m.g.Fresh(procs[j].pagetable, RoundUp(old(procs)[j].sz), RoundUp(procs[j].sz))
    {
      hide Vm.Inv, Vm.Rooted, Vm.Pte, Vm.Data, Vm.SameView, Vm.SameExcept, Vm.ViewOutside, Vm.Fresh, Vm.HandKept;
      ghost var g0 := m.g;
      var p := procs[j];
      assert ProcOk(g0, p, tramp);
      InTree(g0, procs, j, tramp);
      SizeBound(g0, m.pool, p.pagetable, p.sz);
      var sz := m.UvmAlloc(p.pagetable, p.sz, (p.sz + n) % 0x1_0000_0000);
      if sz == 0 {
        Unmoved(g0, m.g, procs, j, tramp);
        return false;
      }
      g0.SpaceMoved(m.g, p.pagetable, RoundUp(p.sz), RoundUp(sz), RoundUp(p.sz), RoundUp(sz), p.trapframe, tramp);
      Resize(g0, m.g, procs, j, tramp, RoundUp(p.sz), RoundUp(sz), sz);
      procs := procs[j := p.(sz := sz)];
      ok := true;
    }

    /** growproc() with n < 0.  `sz` is a 32-bit unsigned variable, so shrinking by more than the
        size wraps to a larger size, which uvmdealloc() ignores; growproc still succeeds. */
    method Shrink(j: nat, n: nat)
      requires Valid() && j < |procs| && procs[j].used && 0 < n <= 0x8000_0000
      modifies this`procs, m`free, m`mem, m`g
      ensures Valid() && |procs| == |old(procs)|
      ensures var sz := old(procs)[j].sz; procs == old(procs)[j := old(procs)[j].(sz := if n <= sz then sz - n else sz)]
      ensures old(m.g).ViewOutside(m.g, procs[j].pagetable, RoundUp(procs[j].sz), RoundUp(old(procs)[j].sz))
    {
      hide Vm.Inv, Vm.Rooted, Vm.Pte, Vm.Data, Vm.SameExcept, Vm.ViewOutside, Vm.HandKept, Vm.Empty;
      ghost var g0 := m.g;
      var p := procs[j];
      assert ProcOk(g0, p, tramp);
      InTree(g0, procs, j, tramp);
      SizeBound(g0, m.pool, p.pagetable, p.sz);
      var sz := m.UvmDealloc(p.pagetable, p.sz, (p.sz - n) % 0x1_0000_0000);
      g0.SpaceMoved(m.g, p.pagetable, RoundUp(sz), RoundUp(p.sz), RoundUp(p.sz), RoundUp(sz), p.trapframe, tramp);
      Resize(g0, m.g, procs, j, tramp, RoundUp(sz), RoundUp(p.sz), sz);
      procs := procs[j := p.(sz := sz)];
    }

    /** growproc() */
    method Growproc(j: nat, n: int) returns (ok: bool)
      requires Valid() && j < |procs| && procs[j].used && -0x8000_0000 <= n < 0x8000_0000
      modifies this`procs, m`free, m`mem, m`g
      ensures Valid() && |procs| == |old(procs)|
      ensures !ok ==> n > 0 && procs == old(procs) && old(m.g).SameView(m.g)
      ensures !ok ==> |old(m.free)| < 3 * (RoundUp(procs[j].sz + n) - RoundUp(procs[j].sz))
      ensures var sz := old(procs)[j].sz;
                ok ==> procs == old(procs)[j := old(procs)[j].(sz := if sz + n >= 0 then sz + n else sz)]
      ensures old(m.g).SameExcept(m.g, {procs[j].pagetable})
      ensures forall v: nat {:trigger m.g.Data(procs[j].pagetable, v)} ::
                v < RoundUp(old(procs)[j].sz) && v < RoundUp(procs[j].sz) ==>
        m.g.Data(procs[j].pagetable, v) == old(m.g).Data(procs[j].pagetable, v)
      ensures n > 0 && ok ==> m.g.Fresh(procs[j].pagetable, RoundUp(old(procs)[j].sz), RoundUp(procs[j].sz))
    {
      hide Vm.Inv, Vm.Rooted, Vm.Pte, Vm.Data, Vm.Fresh, Tables, RoundUp;
      ok := true;
      if n > 0 {
        ok := Grow(j, n);
      } else if n < 0 {
        Shrink(j, -n);
      }
    }

    /** fork(): the child's memory equals the parent's, or nothing has happened; and that only if no
        slot is unused or memory is short. */
    method Fork(i: nat) returns (ok: bool, j: nat)
      requires Valid() && i < |procs| && procs[i].used
      modifies this`procs, m`free, m`mem, m`g
      ensures Valid()
      ensures !ok ==> procs == old(procs) && old(m.g).SameView(m.g)
      ensures !ok ==> |old(m.free)| < 6 + 3 * RoundUp(procs[i].sz) || forall k :: 0 <= k < |procs| ==> procs[k].used
      ensures ok ==>
                j < |procs| == |old(procs)| && !old(procs)[j].used && procs[j].used
                  && procs == old(procs)[j := procs[j]]
      ensures ok ==> procs[j].sz == procs[i].sz && procs[j].pagetable !in old(m.g).tree
      ensures ok ==> old(m.g).Copied(m.g, procs[i].pagetable, procs[j].pagetable, RoundUp(procs[i].sz))
      ensures ok ==> old(m.g).SameExcept(m.g, {procs[j].pagetable})
    {
      hide Vm.Inv, Vm.Rooted, Vm.Pte, Vm.Data, Vm.SameView, Vm.SameExcept, Vm.ViewOutside, Vm.HandKept, Vm.Copied;
      ghost var g0 := m.g;
      ok, j := Allocproc();
      if !ok {
        return;
      }
      ghost var g1 := m.g;
      var from, to, sz := procs[i].pagetable, procs[j].pagetable, procs[i].sz;
      assert ProcOk(g1, procs[i], tramp) && ProcOk(g1, procs[j], tramp);
      ok := m.UvmCopy(from, to, sz);
      ghost var g2 := m.g;
      if !ok {
        Unmoved(g1, g2, procs, j, tramp);
        g1.SameIsExcept(g2, {to});
        g0.ExceptTrans(g1, g2, {to}, {to});
        Freeproc(j);
        g0.ExceptTrans(g2, m.g, {to} + {to}, {to});
        assert {to} + {to} + {to} == {to};
        g0.GoneExcept(m.g, to);
        assert procs == old(procs);
        return;
      }
      g1.SpaceMoved(g2, to, 0, RoundUp(sz), 0, RoundUp(sz), procs[j].trapframe, tramp);
      Resize(g1, g2, procs, j, tramp, 0, RoundUp(sz), sz);
      g1.OutsideExcept(g2, to, 0, RoundUp(sz));
      g0.ExceptTrans(g1, g2, {to}, {to});
      assert {to} + {to} == {to};
      g0.CopiedFrom(g1, g2, from, to, RoundUp(sz));
      procs := procs[j := procs[j].(sz := sz)];
    }
  }

  /** User memory fits in RAM, so a size is at most 128 MB. */
  lemma SizeBound(g: Vm, pool: set<nat>, s: nat, sz: nat)
    requires g.Inv(pool) && g.UserMap(s, RoundUp(sz)) && |pool| <= PHYSTOP - KERNBASE
    ensures sz <= RoundUp(sz) * PGSIZE <= 0x800_0000
  {
    hide Vm.Inv, Vm.Pte;
    g.Room(pool, s, RoundUp(sz));
  }

  lemma Resize(g: Vm, h: Vm, procs: seq<Proc>, j: nat, tramp: nat, a: nat, b: nat, sz: nat)
    requires Tables(g, procs, tramp) && j < |procs| && procs[j].used
    requires g.ViewOutside(h, procs[j].pagetable, a, b) && g.Frames(h)
    requires h.Space(procs[j].pagetable, RoundUp(sz), procs[j].trapframe, tramp)
    ensures Tables(h, procs[j := procs[j].(sz := sz)], tramp)
  {
    hide Vm.Space, Vm.ViewOutside, Vm.SameExcept, Vm.HandKept;
    var s := procs[j].pagetable;
    InTree(g, procs, j, tramp);
    g.OutsideExcept(h, s, a, b);
    TablesUpdate(g, h, procs, j, procs[j].(sz := sz), tramp, {s});
  }

  lemma Unmoved(g: Vm, h: Vm, procs: seq<Proc>, j: nat, tramp: nat)
    requires Tables(g, procs, tramp) && j < |procs| && procs[j].used && g.SameView(h) && g.Frames(h)
    ensures Tables(h, procs, tramp)
  {
    hide Vm.Space, Vm.SameView, Vm.SameExcept, Vm.HandKept;
    InTree(g, procs, j, tramp);
    assert ProcOk(g, procs[j], tramp);
    assert procs[j].pagetable in h.tree.Keys;
    g.SameIsExcept(h, {});
    g.SpaceKept(h, {}, procs[j].pagetable, RoundUp(procs[j].sz), procs[j].trapframe, tramp);
    TablesUpdate(g, h, procs, j, procs[j], tramp, {});
    assert procs[j := procs[j]] == procs;
  }
}
