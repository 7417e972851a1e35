/** Physical pages and Sv39 page tables (kernel/kalloc.c, kernel/vm.c).  `Vm` is the memory
    as a value: the free list, the words of every page, and for the proof which page-table
    page sits where in which tree and who owns each page.  Addresses are page numbers. */
module PageTable {

  const ENTRIES: nat := 512
  const MAXVPN: nat := 0x400_0000       // MAXVA / PGSIZE
  const TOP: nat := 256                 // level-2 entries below MAXVA
  const TRAMP: nat := 0x3FF_FFFF        // TRAMPOLINE / PGSIZE
  const TRAPF: nat := 0x3FF_FFFE        // TRAPFRAME / PGSIZE

  /** A physical page as 512 64-bit words. */
  type Page = seq<nat>

  /** Where a page-table page sits: the root, below root entry i, or below entry j of that. */
  datatype Path = Root | Mid(i: nat) | Low(i: nat, j: nat)

  /** What a page can be held by: a place in a page-table tree, a user page of an address
      space, or a process's trapframe pointer. */
  datatype Slot = Tab(path: Path) | User(vpn: nat) | Frame

  function Px2(vpn: nat): nat { vpn / 262144 % 512 }
  function Px1(vpn: nat): nat { vpn / 512 % 512 }
  function Px0(vpn: nat): nat { vpn % 512 }

  lemma PxJoin(v: nat)
    requires v < MAXVPN
    ensures v == Px2(v) * 262144 + Px1(v) * 512 + Px0(v)
  {
    var a := v / 512;
    assert v / 262144 == a / 512 && a / 512 < 512;
  }

  /** PX(2..0) is injective on pages below MAXVA. */
  lemma PxInjective(v: nat, w: nat)
    requires v < MAXVPN && w < MAXVPN && Px2(v) == Px2(w) && Px1(v) == Px1(w) && Px0(v) == Px0(w)
    ensures v == w
  {
    PxJoin(v);
    PxJoin(w);
  }

  lemma PxRange(v: nat)
    ensures Px2(v) < ENTRIES && Px1(v) < ENTRIES && Px0(v) < ENTRIES && (v < MAXVPN ==> Px2(v) < TOP)
  {}

  lemma PxOf(i: nat, j: nat, k: nat)
    requires i < TOP && j < ENTRIES && k < ENTRIES
    ensures var v := i * 262144 + j * 512 + k; v < MAXVPN && Px2(v) == i && Px1(v) == j && Px0(v) == k
  {
    var v := i * 262144 + j * 512 + k;
    assert v / 512 == i * 512 + j;
    assert v / 262144 == v / 512 / 512;
  }

  lemma Subset(a: set<nat>, b: set<nat>)
    requires a <= b
    ensures |a| <= |b|
  {
    assert b == a + (b - a);
  }

  // A page-table entry is ppn * 1024 + flags; bit 0 is V, bits 1..3 are R, W, X, bit 4 is U.
  predicate IsValid(pte: nat) { pte % 2 == 1 }
  predicate IsLeaf(pte: nat) { pte / 2 % 8 != 0 }
  predicate IsUser(pte: nat) { Flags(pte) / 16 % 2 == 1 }
  function Ppn(pte: nat): nat { pte / 1024 }
  function Flags(pte: nat): nat { pte % 1024 }
  function MkPte(ppn: nat, flags: nat): nat { ppn * 1024 + flags }

  lemma PteFields(ppn: nat, flags: nat)
    requires flags < 1024
    ensures var w := MkPte(ppn, flags);
              Ppn(w) == ppn && Flags(w) == flags && IsValid(w) == IsValid(flags) && IsLeaf(w) == IsLeaf(flags)
  {
    assert (ppn * 1024 + flags) / 2 == ppn * 512 + flags / 2;
  }

  lemma PteNonzero(ppn: nat, flags: nat)
    requires ppn != 0
    ensures MkPte(ppn, flags) != 0
  {}

  lemma LinkFields(ppn: nat)
    ensures var w := MkPte(ppn, 1); IsValid(w) && !IsLeaf(w) && Ppn(w) == ppn && !IsValid(0)
  {
    PteFields(ppn, 1);
  }

  const JUNK1: nat := 0x0101_0101_0101_0101
  const JUNK5: nat := 0x0505_0505_0505_0505

  function Fill(w: nat): (r: Page)
    ensures |r| == ENTRIES && forall i :: 0 <= i < ENTRIES ==> r[i] == w
  {
    seq(ENTRIES, _ => w)
  }

  function Set(d: Page, k: nat, w: nat): Page
    requires k < |d|
  {
    d[..k] + [w] + d[k + 1..]
  }

  datatype Vm = Vm(free: seq<nat>, mem: map<nat, Page>, tree: map<nat, map<Path, nat>>, frames: map<nat, nat>,
                   kern: set<nat>, owner: map<nat, (nat, Slot)>, extra: set<nat>) {

    /** The page-table page of space s at a path, or 0. */
    function At(s: nat, p: Path): nat {
      if s in tree && p in tree[s] then tree[s][p] else 0
    }

    function WordAt(page: nat, k: nat): nat {
      if page != 0 && page in mem && k < |mem[page]| then mem[page][k] else 0
    }

    /** The level-0 entry of virtual page vpn in space s, 0 if there is none. */
    function Pte(s: nat, vpn: nat): nat {
      if vpn < MAXVPN then WordAt(At(s, Low(Px2(vpn), Px1(vpn))), Px0(vpn)) else 0
    }

    /** Does the entry of vpn own its page?  A kernel table owns none, a user table all below
        TRAPFRAME; the trapframe is owned by its process and the trampoline by nobody. */
    predicate Owning(s: nat, vpn: nat) { s !in kern && vpn < TRAPF }

    /** The page a slot holds, or 0. */
    function Val(s: nat, k: Slot): nat {
      match k
      case Tab(p) => At(s, p)
      case User(vpn) => if Owning(s, vpn) then Ppn(Pte(s, vpn)) else 0
      case Frame => if s in frames then frames[s] else 0
    }

    /** Every page of the pool is free, in hand, or owned, and is exactly one of these. */
    ghost predicate Pages(pool: set<nat>) {
      && 0 !in pool
      && (forall i, j :: 0 <= i < j < |free| ==> free[i] != free[j])
      && (forall p :: p in pool <==> p in free || p in extra || p in owner)
      && (forall p :: p in free ==> p !in extra && p !in owner)
      && (forall p :: p in extra ==> p !in owner)
      && (forall p :: p in pool ==> p in mem && |mem[p]| == ENTRIES)
    }

    /** `owner` is exactly the inverse of the slots. */
    ghost predicate Owned() {
      && (forall s: nat, k: Slot {:trigger Val(s, k)} ::
         Val(s, k) != 0 ==> Val(s, k) in owner && owner[Val(s, k)] == (s, k))
      && (forall p :: p in owner ==> p != 0 && Val(owner[p].0, owner[p].1) == p)
    }

    /** The entry that a directory page must hold for the page at path p. */
    function Link(s: nat, p: Path): nat {
      if At(s, p) == 0 then 0 else MkPte(At(s, p), 1)
    }

    /** Directory entries are exactly the links of the tree, and every space has a root. */
    ghost predicate Trees() {
      && (forall s :: s in tree ==> At(s, Root) != 0)
      && (forall s: nat, i: nat, j: nat {:trigger At(s, Low(i, j))} ::
         At(s, Low(i, j)) != 0 ==> i < TOP && j < ENTRIES && At(s, Mid(i)) != 0)
      && (forall s: nat, i: nat {:trigger At(s, Mid(i))} :: At(s, Mid(i)) != 0 ==> i < TOP && At(s, Root) != 0)
      && (forall s: nat, i: nat {:trigger WordAt(At(s, Root), i)} ::
         i < ENTRIES ==> WordAt(At(s, Root), i) == Link(s, Mid(i)))
      && (forall s: nat, i: nat, j: nat {:trigger WordAt(At(s, Mid(i)), j)} ::
            i < ENTRIES && j < ENTRIES && At(s, Mid(i)) != 0 ==> WordAt(At(s, Mid(i)), j) == Link(s, Low(i, j)))
    }

    /** A level-0 entry is 0 or a valid leaf. */
    ghost predicate Leaves() {
      forall s: nat, v: nat {:trigger Pte(s, v)} ::
        Pte(s, v) != 0 ==> IsValid(Pte(s, v)) && IsLeaf(Pte(s, v)) && Ppn(Pte(s, v)) != 0
    }

    ghost predicate Inv(pool: set<nat>) {
      Pages(pool) && Owned() && Trees() && Leaves()
    }

    // ---- frames ---------------------------------------------------------------------------

    /** Same tables and same words in them: same translations and the same slots. */
    lemma Same(g: Vm)
      requires Owned() && Trees() && Leaves() && g.tree == tree && g.kern == kern
      requires forall p :: p in owner && owner[p].1.Tab? ==> p in mem && p in g.mem && g.mem[p] == mem[p]
      ensures g.Trees() && g.Leaves()
      ensures forall s: nat, v: nat {:trigger g.Pte(s, v)} :: g.Pte(s, v) == Pte(s, v)
      ensures forall s: nat, k: Slot {:trigger g.Val(s, k)} ::
                !k.Frame? || g.frames == frames ==> g.Val(s, k) == Val(s, k)
    {
      forall s: nat, p: Path ensures g.At(s, p) == At(s, p) {}
      forall s: nat, p: Path, k: nat ensures g.WordAt(At(s, p), k) == WordAt(At(s, p), k) {
        assert Val(s, Tab(p)) == At(s, p);
      }
      forall s: nat, v: nat ensures g.Pte(s, v) == Pte(s, v) {}
    }

    /** The contents of user page vpn of space s; [] where nothing is mapped. */
    function Data(s: nat, vpn: nat): Page {
      if Owning(s, vpn) && Pte(s, vpn) != 0 && Ppn(Pte(s, vpn)) in mem then mem[Ppn(Pte(s, vpn))] else []
    }

    /** Every address space reads the same: same entries and same user memory. */
    ghost predicate SameView(g: Vm) {
      && (forall s: nat, v: nat {:trigger g.Pte(s, v)} {:trigger Pte(s, v)} :: g.Pte(s, v) == Pte(s, v))
      && (forall s: nat, v: nat {:trigger g.Data(s, v)} {:trigger Data(s, v)} :: g.Data(s, v) == Data(s, v))
    }

    /** The same but for page vpn of space s. */
    ghost predicate ViewBut(g: Vm, s: nat, vpn: nat) {
      && (forall s': nat, v: nat {:trigger g.Pte(s', v)} {:trigger Pte(s', v)} ::
         (s' == s && v == vpn) || g.Pte(s', v) == Pte(s', v))
      && (forall s': nat, v: nat {:trigger g.Data(s', v)} {:trigger Data(s', v)} ::
         (s' == s && v == vpn) || g.Data(s', v) == Data(s', v))
    }

    /** The same but for pages a..b of space s. */
    ghost predicate ViewOutside(g: Vm, s: nat, a: nat, b: nat) {
      && (forall s': nat, v: nat {:trigger g.Pte(s', v)} {:trigger Pte(s', v)} ::
         (s' == s && a <= v < b) || g.Pte(s', v) == Pte(s', v))
      && (forall s': nat, v: nat {:trigger g.Data(s', v)} {:trigger Data(s', v)} ::
         (s' == s && a <= v < b) || g.Data(s', v) == Data(s', v))
    }

    /** Exactly the first n pages are mapped below TRAPFRAME. */
    ghost predicate UserMap(s: nat, n: nat) {
      && s in tree && s !in kern && n <= TRAPF
      && (forall v: nat {:trigger Pte(s, v)} :: v < TRAPF ==> (Pte(s, v) != 0 <==> v < n))
    }

    /** Pages a..b of s translate to consecutive pages from ppn on. */
    ghost predicate Mapped(s: nat, a: nat, b: nat, ppn: nat, flags: nat) {
      forall v: nat {:trigger Pte(s, v)} :: a <= v < b ==> Pte(s, v) == MkPte(ppn + (v - a), flags)
    }

    /** Pages a..b of s are fresh: readable, writable, executable by the user, and zero. */
    ghost predicate Fresh(s: nat, a: nat, b: nat) {
      forall v: nat {:trigger Data(s, v)} :: a <= v < b ==> Flags(Pte(s, v)) == 31 && Data(s, v) == Fill(0)
    }

    ghost predicate Empty(s: nat, a: nat, b: nat) {
      forall v: nat {:trigger Pte(s, v)} :: a <= v < b ==> Pte(s, v) == 0
    }

    /** One more page at the end of a changed range. */
    lemma Extend(g: Vm, h: Vm, s: nat, a: nat, b: nat)
      requires a <= b && ViewOutside(g, s, a, b) && g.ViewBut(h, s, b)
      ensures ViewOutside(h, s, a, b + 1) && g.Pte(s, b) == Pte(s, b)
      ensures forall v: nat {:trigger h.Pte(s, v)} :: a <= v < b ==> h.Pte(s, v) == g.Pte(s, v)
    {
      hide Vm.Pte, Vm.Data;
    }

    /** Mapping a range that was empty and emptying it again changes nothing. */
    lemma Undo(g: Vm, h: Vm, s: nat, a: nat, b: nat)
      requires ViewOutside(g, s, a, b) && g.ViewOutside(h, s, a, b) && Empty(s, a, b) && h.Empty(s, a, b)
      ensures SameView(h)
    {
      hide Vm.Pte, Ppn;
      forall s': nat, v: nat ensures h.Data(s', v) == Data(s', v) {
        assert h.Pte(s', v) == Pte(s', v);
        assert g.Data(s', v) == Data(s', v) || (s' == s && a <= v < b);
      }
    }

    /** Emptying the top of a user map, or adding to it. */
    lemma UserMapMove(g: Vm, s: nat, a: nat, b: nat)
      requires a <= b <= TRAPF && ViewOutside(g, s, a, b) && Frames(g)
      ensures UserMap(s, b) && g.Empty(s, a, b) ==> g.UserMap(s, a)
      ensures UserMap(s, a) && (forall v: nat {:trigger g.Pte(s, v)} :: a <= v < b ==> g.Pte(s, v) != 0) ==>
                g.UserMap(s, b)
    {
      hide Vm.Pte, Vm.Data;
      forall v: nat | v < TRAPF && (v < a || v >= b) ensures g.Pte(s, v) == Pte(s, v) {}
    }

    lemma UserMapSame(g: Vm, s: nat, n: nat)
      requires SameView(g) && UserMap(s, n) && Frames(g)
      ensures g.UserMap(s, n)
    {
      hide Vm.Pte, Vm.Data;
    }

    lemma UserMapMore(g: Vm, s: nat, n: nat)
      requires ViewBut(g, s, n) && UserMap(s, n) && Frames(g) && g.Pte(s, n) != 0 && n < TRAPF
      ensures g.UserMap(s, n + 1)
    {
      hide Vm.Pte, Vm.Data;
    }

    lemma FreshMore(g: Vm, s: nat, a: nat, b: nat)
      requires ViewBut(g, s, b) && Fresh(s, a, b) && Flags(g.Pte(s, b)) == 31 && g.Data(s, b) == Fill(0)
      ensures g.Fresh(s, a, b + 1)
    {
      hide Vm.Pte, Vm.Data;
      forall v: nat | a <= v < b ensures g.Pte(s, v) == Pte(s, v) && g.Data(s, v) == Data(s, v) {}
    }

    /** The first n pages of space `to` hold what those of `from` held in this state. */
    ghost predicate Copied(g: Vm, from: nat, to: nat, n: nat) {
      forall v: nat {:trigger g.Data(to, v)} ::
        v < n ==> g.Data(to, v) == Data(from, v) && Flags(g.Pte(to, v)) == Flags(Pte(from, v))
    }

    lemma CopiedNone(g: Vm, from: nat, to: nat)
      ensures Copied(g, from, to, 0)
    {}

    lemma CopiedMore(g: Vm, h: Vm, from: nat, to: nat, n: nat)
      requires Copied(g, from, to, n) && g.ViewBut(h, to, n)
      requires h.Data(to, n) == Data(from, n) && Flags(h.Pte(to, n)) == Flags(Pte(from, n))
      ensures Copied(h, from, to, n + 1)
    {
      hide Vm.Pte, Vm.Data;
      forall v: nat | v < n ensures h.Pte(to, v) == g.Pte(to, v) && h.Data(to, v) == g.Data(to, v) {}
    }

    lemma OutsideAt(g: Vm, s: nat, a: nat, b: nat, s': nat, v: nat)
      requires ViewOutside(g, s, a, b) && (s' != s || v < a || v >= b)
      ensures g.Pte(s', v) == Pte(s', v) && g.Data(s', v) == Data(s', v)
    {}

    /** A whole space changed, and then a change inside it. */
    lemma WholeBut(g: Vm, h: Vm, s: nat, v: nat)
      requires ViewOutside(g, s, 0, MAXVPN) && g.ViewBut(h, s, v) && v < MAXVPN
      ensures ViewOutside(h, s, 0, MAXVPN)
    {
      hide Vm.Pte, Vm.Data;
    }

    lemma WholeOutside(g: Vm, h: Vm, s: nat, a: nat, b: nat)
      requires ViewOutside(g, s, 0, MAXVPN) && g.ViewOutside(h, s, a, b) && b <= MAXVPN
      ensures ViewOutside(h, s, 0, MAXVPN)
    {
      hide Vm.Pte, Vm.Data;
    }

    lemma SameWhole(g: Vm, s: nat)
      requires SameView(g)
      ensures ViewOutside(g, s, 0, MAXVPN)
    {}

    lemma BareButAt(g: Vm, s: nat, v: nat)
      requires Bare(s) && ViewBut(g, s, v) && s in g.tree
      ensures forall u: nat {:trigger g.Pte(s, u)} :: u != v ==> g.Pte(s, u) == 0
    {
      hide Vm.Pte, Vm.Data;
    }

    /** A space that exists neither before nor after. */
    lemma Gone(g: Vm, s: nat)
      requires ViewOutside(g, s, 0, MAXVPN) && s !in tree && s !in g.tree
      ensures SameView(g)
    {
      forall s': nat, v: nat ensures g.Pte(s', v) == Pte(s', v) && g.Data(s', v) == Data(s', v) {
        if s' == s { assert g.At(s, Low(Px2(v), Px1(v))) == 0; }
      }
    }

    /** A process's address space: sz bytes of user memory, its trapframe, the trampoline. */
    ghost predicate Space(s: nat, n: nat, tf: nat, tramp: nat) {
      && UserMap(s, n) && Pte(s, TRAPF) == MkPte(tf, 7) && Pte(s, TRAMP) == MkPte(tramp, 11)
    }

    lemma BareSame(g: Vm, s: nat)
      requires Bare(s) && SameView(g) && s in g.tree
      ensures g.Bare(s)
    {
      hide Vm.Pte, Vm.Data;
    }

    /** Only the trampoline is mapped, a failed mapping changes nothing, and it is unmapped. */
    lemma Retreat(g: Vm, h: Vm, k: Vm, s: nat)
      requires ViewOutside(g, s, 0, MAXVPN) && g.SameView(h) && h.ViewOutside(k, s, TRAMP, MAXVPN)
                 && k.Empty(s, TRAMP, MAXVPN)
      requires (forall u: nat {:trigger g.Pte(s, u)} :: u != TRAMP ==> g.Pte(s, u) == 0) && s in k.tree
      ensures k.Bare(s) && ViewOutside(k, s, 0, MAXVPN)
    {
      hide Vm.Pte, Vm.Data;
      forall u: nat ensures k.Pte(s, u) == 0 {
        if u != TRAMP {
          assert g.Pte(s, u) == h.Pte(s, u);
          assert k.Pte(s, u) == h.Pte(s, u) || u >= MAXVPN;
          k.PteBeyond(s, u);
        }
      }
    }

    lemma UserMapIn(s: nat, n: nat)
      requires UserMap(s, n)
      ensures s in tree && s !in kern
    {}

    lemma TwoUnmapped(g: Vm, h: Vm, s: nat, n: nat)
      requires UserMap(s, n) && ViewOutside(g, s, TRAMP, MAXVPN) && g.Empty(s, TRAMP, MAXVPN) && Frames(g)
      requires g.ViewOutside(h, s, TRAPF, TRAMP) && h.Empty(s, TRAPF, TRAMP) && g.Frames(h)
      ensures h.UserMap(s, n) && h.Empty(s, TRAPF, MAXVPN) && ViewOutside(h, s, 0, MAXVPN)
    {
      hide Vm.Pte, Vm.Data;
      forall v: nat | v < TRAPF ensures h.Pte(s, v) == Pte(s, v) { assert h.Pte(s, v) == g.Pte(s, v); }
      assert s in h.tree.Keys;
    }

    lemma TwoMapped(g: Vm, s: nat)
      requires (forall u: nat {:trigger Pte(s, u)} :: u != TRAMP ==> Pte(s, u) == 0) && ViewBut(g, s, TRAPF)
                 && s in g.tree && s !in g.kern
      ensures g.UserMap(s, 0) && g.Pte(s, TRAMP) == Pte(s, TRAMP)
    {
      hide Vm.Pte, Vm.Data;
    }

    /** Every space outside x reads the same. */
    ghost predicate SameExcept(g: Vm, x: set<nat>) {
      && (forall s: nat, v: nat {:trigger g.Pte(s, v)} {:trigger Pte(s, v)} :: s !in x ==> g.Pte(s, v) == Pte(s, v))
      && (forall s: nat, v: nat {:trigger g.Data(s, v)} {:trigger Data(s, v)} :: s !in x ==> g.Data(s, v) == Data(s, v))
    }

    lemma OutsideExcept(g: Vm, s: nat, a: nat, b: nat)
      requires ViewOutside(g, s, a, b)
      ensures SameExcept(g, {s})
    {
      hide Vm.Pte, Vm.Data;
    }

    lemma ExceptTrans(g: Vm, h: Vm, x: set<nat>, y: set<nat>)
      requires SameExcept(g, x) && g.SameExcept(h, y)
      ensures SameExcept(h, x + y)
    {
      hide Vm.Pte, Vm.Data;
    }

    lemma SameViewSelf()
      ensures SameView(this)
    {}

    lemma GoneExcept(g: Vm, s: nat)
      requires SameExcept(g, {s}) && s !in tree && s !in g.tree
      ensures SameView(g)
    {
      forall s': nat, v: nat ensures g.Pte(s', v) == Pte(s', v) && g.Data(s', v) == Data(s', v) {
        if s' == s { assert g.At(s, Low(Px2(v), Px1(v))) == 0; }
      }
    }

    lemma CopiedFrom(g: Vm, h: Vm, from: nat, to: nat, n: nat)
      requires SameExcept(g, {to}) && from != to && g.Copied(h, from, to, n)
      ensures Copied(h, from, to, n)
    {
      hide Vm.Pte, Vm.Data;
    }

    lemma OutsideWiden(g: Vm, s: nat, a: nat, b: nat, c: nat)
      requires ViewOutside(g, s, a, b) && b <= c
      ensures ViewOutside(g, s, a, c)
    {
      hide Vm.Pte, Vm.Data;
    }

    lemma ButAt(g: Vm, s: nat, v: nat, s': nat, u: nat)
      requires ViewBut(g, s, v) && (s' != s || u != v)
      ensures g.Pte(s', u) == Pte(s', u) && g.Data(s', u) == Data(s', u)
    {}

    /** Writing memory leaves the mapping as it is. */
    lemma Rewritten(g: Vm, s: nat, v: nat, n: nat)
      requires ViewBut(g, s, v) && g.Pte(s, v) == Pte(s, v) && Frames(g) && UserMap(s, n) && AllUser(s, n)
      ensures g.UserMap(s, n) && g.AllUser(s, n)
    {
      hide Vm.Pte, Vm.Data, Flags;
      forall u: nat ensures g.Pte(s, u) == Pte(s, u) {}
      assert s in g.tree.Keys;
    }

    lemma ExceptAt(g: Vm, x: set<nat>, s: nat, v: nat)
      requires SameExcept(g, x) && s !in x
      ensures g.Pte(s, v) == Pte(s, v) && g.Data(s, v) == Data(s, v)
    {}

    lemma SelfOutside(s: nat, a: nat)
      ensures ViewOutside(this, s, a, a)
    {}

    lemma SameIsExcept(g: Vm, x: set<nat>)
      requires SameView(g)
      ensures SameExcept(g, x)
    {
      hide Vm.Pte, Vm.Data;
    }

    lemma SpaceKept(g: Vm, x: set<nat>, s: nat, n: nat, tf: nat, tramp: nat)
      requires SameExcept(g, x) && s !in x && Space(s, n, tf, tramp) && s in g.tree && g.kern == kern
      ensures g.Space(s, n, tf, tramp)
    {
      hide Vm.Pte, Vm.Data;
    }

    /** A change below TRAPFRAME keeps the two fixed mappings. */
    lemma SpaceMoved(g: Vm, s: nat, a: nat, b: nat, n: nat, k: nat, tf: nat, tramp: nat)
      requires Space(s, n, tf, tramp) && ViewOutside(g, s, a, b) && b <= TRAPF && g.UserMap(s, k)
      ensures g.Space(s, k, tf, tramp)
    {
      hide Vm.Pte, Vm.Data;
    }

    /** The first n pages are open to the user. */
    ghost predicate AllUser(s: nat, n: nat) {
      forall v: nat {:trigger Pte(s, v)} :: v < n ==> Flags(Pte(s, v)) == 31
    }

    lemma OutsideSame(g: Vm, h: Vm, s: nat, a: nat, b: nat)
      requires a <= b && ViewOutside(g, s, a, b) && g.SameView(h)
      ensures ViewOutside(h, s, a, b)
    {
      hide Vm.Pte, Vm.Data;
    }

    /** User pages untouched, entry untouched: memory at that address untouched. */
    lemma DataAt(g: Vm, s: nat, v: nat)
      requires Owned() && Leaves() && g.kern == kern && g.Pte(s, v) == Pte(s, v)
      requires forall p :: p in owner && owner[p].1.User? ==> p in mem && p in g.mem && g.mem[p] == mem[p]
      ensures g.Data(s, v) == Data(s, v)
    {
      hide Vm.Pte, Ppn;
      assert Owning(s, v) ==> Val(s, User(v)) == Ppn(Pte(s, v));
    }

    lemma ViewSame(g: Vm)
      requires Owned() && Leaves() && g.kern == kern
      requires forall s: nat, v: nat {:trigger g.Pte(s, v)} :: g.Pte(s, v) == Pte(s, v)
      requires forall p :: p in owner && owner[p].1.User? ==> p in mem && p in g.mem && g.mem[p] == mem[p]
      ensures SameView(g)
    {
      hide Vm.Pte, Vm.Owned, Vm.Leaves, Vm.Data;
      forall s: nat, v: nat ensures g.Data(s, v) == Data(s, v) { DataAt(g, s, v); }
    }

    /** One empty slot taking a page that was in hand. */
    lemma AddOwned(g: Vm, s: nat, k: Slot, p: nat)
      requires Owned() && p in extra && p !in owner && p != 0 && Val(s, k) == 0
      requires g.owner == owner[p := (s, k)]
      requires forall s': nat, k': Slot {:trigger g.Val(s', k')} :: g.Val(s', k') ==
                 if s' == s && k' == k then p else Val(s', k')
      ensures g.Owned()
    {
      hide Vm.Val;
      forall q | q in g.owner ensures q != 0 && g.Val(g.owner[q].0, g.owner[q].1) == q {
        if q != p { assert Val(owner[q].0, owner[q].1) == q; }
      }
    }

    /** One slot giving up its page. */
    lemma DelOwned(g: Vm, s: nat, k: Slot)
      requires Owned() && Val(s, k) != 0 && Val(s, k) in owner
      requires g.owner == owner - {Val(s, k)}
      requires forall s': nat, k': Slot {:trigger g.Val(s', k')} :: g.Val(s', k') ==
                 if s' == s && k' == k then 0 else Val(s', k')
      ensures g.Owned()
    {
      hide Vm.Val;
      forall q | q in g.owner ensures q != 0 && g.Val(g.owner[q].0, g.owner[q].1) == q {
        assert Val(owner[q].0, owner[q].1) == q;
      }
    }

    lemma SameOwned(g: Vm)
      requires Owned() && g.owner == owner
      requires forall s: nat, k: Slot {:trigger g.Val(s, k)} :: g.Val(s, k) == Val(s, k)
      ensures g.Owned()
    {
      hide Vm.Val;
      forall q | q in g.owner ensures q != 0 && g.Val(g.owner[q].0, g.owner[q].1) == q {
        assert Val(owner[q].0, owner[q].1) == q;
      }
    }

    // ---- kalloc, kfree, writing a page in hand --------------------------------------------

    ghost function Kalloc(): Vm
      requires free != []
    {
      this.(free := free[1..], mem := mem[free[0] := Fill(JUNK5)], extra := extra + {free[0]})
    }

    ghost function Kfree(p: nat): Vm {
      this.(free := [p] + free, mem := mem[p := Fill(JUNK1)], extra := extra - {p})
    }

    ghost function Store(p: nat, d: Page): Vm { this.(mem := mem[p := d]) }

    lemma KallocKeeps(pool: set<nat>)
      requires Inv(pool) && free != []
      ensures Kalloc().Inv(pool) && SameView(Kalloc()) && free[0] in pool && free[0] !in extra && free[0] !in owner
    {
      var g := Kalloc();
      assert free[0] in free;
      assert forall p :: p in g.free <==> p in free && p != free[0];
      Same(g);
      SameOwned(g);
      ViewSame(g);
    }

    lemma KfreeKeeps(pool: set<nat>, p: nat)
      requires Inv(pool) && p in extra
      ensures Kfree(p).Inv(pool) && SameView(Kfree(p))
    {
      var g := Kfree(p);
      assert forall q :: q in g.free <==> q in free || q == p;
      Same(g);
      SameOwned(g);
      ViewSame(g);
    }

    lemma StoreKeeps(pool: set<nat>, p: nat, d: Page)
      requires Inv(pool) && p in extra && |d| == ENTRIES
      ensures Store(p, d).Inv(pool) && SameView(Store(p, d))
    {
      var g := Store(p, d);
      Same(g);
      SameOwned(g);
      ViewSame(g);
    }

    // ---- a new tree, a new directory link, a level-0 entry ---------------------------------

    /** uvmcreate: a zeroed page becomes the root of space s. */
    ghost function NewTree(s: nat, p: nat): Vm {
      this.(tree := tree[s := map[Root := p]], owner := owner[p := (s, Tab(Root))], extra := extra - {p})
    }

    ghost predicate CanPlant(pool: set<nat>, s: nat, p: nat) {
      Inv(pool) && s !in tree && p in extra && mem[p] == Fill(0)
    }

    lemma NewTreeWord(pool: set<nat>, s: nat, p: nat, s': nat, q: Path, k: nat)
      requires CanPlant(pool, s, p) && k < ENTRIES
      ensures NewTree(s, p).At(s', q) == if s' == s && q == Root then p else At(s', q)
      ensures NewTree(s, p).WordAt(NewTree(s, p).At(s', q), k) == WordAt(At(s', q), k)
      ensures s' == s ==> At(s', q) == 0
    {}

    lemma NewTreeTrees(pool: set<nat>, s: nat, p: nat)
      requires CanPlant(pool, s, p)
      ensures NewTree(s, p).Trees() && NewTree(s, p).Leaves()
      ensures forall s': nat, v: nat {:trigger NewTree(s, p).Pte(s', v)} :: NewTree(s, p).Pte(s', v) == Pte(s', v)
    {
      hide Vm.At, Vm.WordAt, Fill;
      var g := NewTree(s, p);
      forall s': nat, q: Path, k: nat | k < ENTRIES
        ensures g.At(s', q) == if s' == s && q == Root then p else At(s', q)
        ensures g.WordAt(g.At(s', q), k) == WordAt(At(s', q), k)
        ensures s' == s ==> At(s', q) == 0
      { NewTreeWord(pool, s, p, s', q, k); }
      forall s': nat, q: Path
        ensures g.At(s', q) == if s' == s && q == Root then p else At(s', q)
      { NewTreeWord(pool, s, p, s', q, 0); }
      forall s': nat, v: nat ensures g.Pte(s', v) == Pte(s', v) {}
    }

    lemma NewTreeKeeps(pool: set<nat>, s: nat, p: nat)
      requires CanPlant(pool, s, p)
      ensures NewTree(s, p).Inv(pool)
      ensures SameView(NewTree(s, p))
    {
      hide Vm.WordAt, Vm.Pte, Vm.Trees, Vm.Leaves, Fill;
      var g := NewTree(s, p);
      NewTreeTrees(pool, s, p);
      assert Val(s, Tab(Root)) == 0;
      AddOwned(g, s, Tab(Root), p);
      ViewSame(g);
    }

    function Parent(p: Path): Path { if p.Low? then Mid(p.i) else Root }
    function Idx(p: Path): nat { if p.Low? then p.j else if p.Mid? then p.i else 0 }

    /** The step of walk() that hangs a zeroed page p below an empty directory entry. */
    ghost function Hang(s: nat, p: Path, page: nat): Vm
      requires s in tree && At(s, Parent(p)) in mem && Idx(p) < |mem[At(s, Parent(p))]|
    {
      var up := At(s, Parent(p));
      var t: map<Path, nat> := tree[s][p := page];
      this.(mem := mem[up := Set(mem[up], Idx(p), MkPte(page, 1))], tree := tree[s := t],
            owner := owner[page := (s, Tab(p))], extra := extra - {page})
    }

    /** A directory page, and that it is found in memory. */
    lemma DirAt(pool: set<nat>, s: nat, p: Path)
      requires Inv(pool) && At(s, p) != 0
      ensures s in tree && At(s, p) in mem && |mem[At(s, p)]| == ENTRIES && At(s, p) in owner
                && owner[At(s, p)] == (s, Tab(p))
      ensures At(s, p) !in extra && At(s, p) in pool
    {
      assert Val(s, Tab(p)) == At(s, p);
    }

    function HungWord(s: nat, p: Path, page: nat, s': nat, q: Path, k: nat): nat {
      if s' == s && q == p then 0
      else if s' == s && q == Parent(p) && k == Idx(p) then MkPte(page, 1) else WordAt(At(s', q), k)
    }

    ghost predicate CanHang(pool: set<nat>, s: nat, p: Path, page: nat) {
      && Inv(pool) && s in tree && p != Root && At(s, p) == 0 && At(s, Parent(p)) != 0 && Idx(p) < ENTRIES
      && (p != Root ==> p.i < TOP) && At(s, Parent(p)) in mem && |mem[At(s, Parent(p))]| == ENTRIES
      && page in extra && mem[page] == Fill(0)
    }

    lemma HangWord(pool: set<nat>, s: nat, p: Path, page: nat, s': nat, q: Path, k: nat)
      requires CanHang(pool, s, p, page) && k < ENTRIES
      ensures Hang(s, p, page).At(s', q) == if s' == s && q == p then page else At(s', q)
      ensures Hang(s, p, page).WordAt(Hang(s, p, page).At(s', q), k) == HungWord(s, p, page, s', q, k)
    {
      DirAt(pool, s, Parent(p));
      if At(s', q) != 0 { DirAt(pool, s', q); }
    }

    lemma HangTrees(pool: set<nat>, s: nat, p: Path, page: nat)
      requires CanHang(pool, s, p, page)
      ensures Hang(s, p, page).Trees()
      ensures forall s': nat, v: nat {:trigger Hang(s, p, page).Pte(s', v)} :: Hang(s, p, page).Pte(s', v) == Pte(s', v)
      ensures Hang(s, p, page).Leaves()
    {
      hide Vm.At, Vm.WordAt, Set, Fill, Px2, Px1, Px0;
      assert page != 0;
      var g := Hang(s, p, page);
      forall s': nat, q: Path, k: nat | k < ENTRIES
        ensures g.At(s', q) == if s' == s && q == p then page else At(s', q)
        ensures g.WordAt(g.At(s', q), k) == HungWord(s, p, page, s', q, k)
      { HangWord(pool, s, p, page, s', q, k); }
      forall s': nat, q: Path ensures g.At(s', q) == if s' == s && q == p then page else At(s', q) {
        HangWord(pool, s, p, page, s', q, 0);
      }
      forall s': nat, v: nat ensures g.Pte(s', v) == Pte(s', v) {
        PxRange(v);
        SameWord(this, 0, Px0(v));
      }
    }

    lemma HangKeeps(pool: set<nat>, s: nat, p: Path, page: nat)
      requires CanHang(pool, s, p, page)
      ensures Hang(s, p, page).Inv(pool)
      ensures SameView(Hang(s, p, page))
    {
      hide Vm.WordAt, Vm.Pte, Vm.Trees, Vm.Leaves, Fill;
      var g := Hang(s, p, page);
      HangTrees(pool, s, p, page);
      forall s': nat, k: Slot ensures g.Val(s', k) == if s' == s && k == Tab(p) then page else Val(s', k) {}
      AddOwned(g, s, Tab(p), page);
      DirAt(pool, s, Parent(p));
      ViewSame(g);
    }

    // ---- level-0 entries -------------------------------------------------------------------

    /** The page that holds the level-0 entry of vpn, 0 if walk() would find none. */
    function LowPage(s: nat, vpn: nat): nat { At(s, Low(Px2(vpn), Px1(vpn))) }

    /** Overwrite the level-0 entry of vpn, with the given new owners. */
    ghost function SetPte(s: nat, vpn: nat, w: nat, o: map<nat, (nat, Slot)>, e: set<nat>): Vm
      requires LowPage(s, vpn) in mem && |mem[LowPage(s, vpn)]| == ENTRIES
    {
      var lp := LowPage(s, vpn);
      this.(mem := mem[lp := Set(mem[lp], Px0(vpn), w)], owner := o, extra := e)
    }

    ghost predicate CanSet(pool: set<nat>, s: nat, vpn: nat) {
      && Inv(pool) && vpn < MAXVPN && LowPage(s, vpn) != 0
      && LowPage(s, vpn) in mem && |mem[LowPage(s, vpn)]| == ENTRIES
    }

    lemma SetWord(pool: set<nat>, s: nat, vpn: nat, w: nat, o: map<nat, (nat, Slot)>, e: set<nat>, s': nat, q: Path,
                  k: nat)
      requires CanSet(pool, s, vpn) && k < ENTRIES
      ensures SetPte(s, vpn, w, o, e).At(s', q) == At(s', q)
      ensures SetPte(s, vpn, w, o, e).WordAt(At(s', q), k) ==
        if s' == s && q == Low(Px2(vpn), Px1(vpn)) && k == Px0(vpn) then w else WordAt(At(s', q), k)
    {
      DirAt(pool, s, Low(Px2(vpn), Px1(vpn)));
      if At(s', q) != 0 { DirAt(pool, s', q); }
    }

    lemma SetPteAt(pool: set<nat>, s: nat, vpn: nat, w: nat, o: map<nat, (nat, Slot)>, e: set<nat>, s': nat, v: nat)
      requires CanSet(pool, s, vpn)
      ensures SetPte(s, vpn, w, o, e).Pte(s', v) == if s' == s && v == vpn then w else Pte(s', v)
    {
      if v < MAXVPN {
        SetWord(pool, s, vpn, w, o, e, s', Low(Px2(v), Px1(v)), Px0(v));
        if Px2(v) == Px2(vpn) && Px1(v) == Px1(vpn) && Px0(v) == Px0(vpn) { PxInjective(v, vpn); }
      }
    }

    lemma SetTrees(pool: set<nat>, s: nat, vpn: nat, w: nat, o: map<nat, (nat, Slot)>, e: set<nat>)
      requires CanSet(pool, s, vpn) && (w != 0 ==> IsValid(w) && IsLeaf(w) && Ppn(w) != 0)
      ensures SetPte(s, vpn, w, o, e).Trees() && SetPte(s, vpn, w, o, e).Leaves()
    {
      hide Vm.At, Vm.WordAt, Set, Ppn, IsValid, IsLeaf, Px2, Px1, Px0, Vm.Pte;
      var g := SetPte(s, vpn, w, o, e);
      forall s': nat, v: nat ensures g.Pte(s', v) == if s' == s && v == vpn then w else Pte(s', v) {
        SetPteAt(pool, s, vpn, w, o, e, s', v);
      }
      forall s': nat, q: Path, k: nat | k < ENTRIES && !q.Low?
        ensures g.At(s', q) == At(s', q) && g.WordAt(g.At(s', q), k) == WordAt(At(s', q), k)
      { SetWord(pool, s, vpn, w, o, e, s', q, k); }
      forall s': nat, q: Path ensures g.At(s', q) == At(s', q) { SetWord(pool, s, vpn, w, o, e, s', q, 0); }
    }

    lemma ViewButAt(g: Vm, s: nat, vpn: nat)
      requires Owned() && Leaves() && g.kern == kern
      requires forall s': nat, v: nat {:trigger g.Pte(s', v)} :: (s' == s && v == vpn) || g.Pte(s', v) == Pte(s', v)
      requires forall p :: p in owner && owner[p].1.User? ==> p in mem && p in g.mem && g.mem[p] == mem[p]
      ensures ViewBut(g, s, vpn)
    {
      hide Vm.Pte, Vm.Owned, Vm.Leaves, Vm.Data;
      forall s': nat, v: nat | s' != s || v != vpn ensures g.Data(s', v) == Data(s', v) { DataAt(g, s', v); }
    }

    /** mappages on one page in hand, below TRAPFRAME: the page becomes user page vpn of s. */
    ghost function MapUser(s: nat, vpn: nat, p: nat, flags: nat): Vm
      requires LowPage(s, vpn) in mem && |mem[LowPage(s, vpn)]| == ENTRIES
    {
      SetPte(s, vpn, MkPte(p, flags), owner[p := (s, User(vpn))], extra - {p})
    }

    lemma MapUserKeeps(pool: set<nat>, s: nat, vpn: nat, p: nat, flags: nat)
      requires CanSet(pool, s, vpn) && Owning(s, vpn) && Pte(s, vpn) == 0 && p in extra
      requires flags < 1024 && IsValid(flags) && IsLeaf(flags)
      ensures MapUser(s, vpn, p, flags).Inv(pool)
      ensures ViewBut(MapUser(s, vpn, p, flags), s, vpn) && MapUser(s, vpn, p, flags).Pte(s, vpn) == MkPte(p, flags)
    {
      hide Vm.WordAt, Vm.Pte, Vm.Trees, Vm.Leaves, Set, Px2, Px1, Px0;
      var w, o, e := MkPte(p, flags), owner[p := (s, User(vpn))], extra - {p};
      var g := MapUser(s, vpn, p, flags);
      PteFields(p, flags);
      SetTrees(pool, s, vpn, w, o, e);
      forall s': nat, v: nat ensures g.Pte(s', v) == if s' == s && v == vpn then w else Pte(s', v) {
        SetPteAt(pool, s, vpn, w, o, e, s', v);
      }
      DirAt(pool, s, Low(Px2(vpn), Px1(vpn)));
      SetPages(pool, s, vpn, w, o, e);
      AddOwned(g, s, User(vpn), p);
      ViewButAt(g, s, vpn);
    }

    /** Moving pages between hand and owners while writing one entry keeps the page count. */
    lemma SetPages(pool: set<nat>, s: nat, vpn: nat, w: nat, o: map<nat, (nat, Slot)>, e: set<nat>)
      requires CanSet(pool, s, vpn) && o.Keys !! e && o.Keys + e == owner.Keys + extra
      ensures SetPte(s, vpn, w, o, e).Pages(pool)
    {
      hide Vm.Owned, Vm.Trees, Vm.Leaves;
      assert forall p :: p in o || p in e <==> p in o.Keys + e;
      assert forall p :: p in owner || p in extra <==> p in owner.Keys + extra;
    }

    /** Overwriting an entry that owns no page before and after: flags, or a fixed mapping. */
    lemma RemarkKeeps(pool: set<nat>, s: nat, vpn: nat, w: nat)
      requires CanSet(pool, s, vpn) && (w != 0 ==> IsValid(w) && IsLeaf(w) && Ppn(w) != 0)
      requires Owning(s, vpn) ==> Ppn(w) == Ppn(Pte(s, vpn))
      ensures SetPte(s, vpn, w, owner, extra).Inv(pool)
      ensures ViewBut(SetPte(s, vpn, w, owner, extra), s, vpn) && SetPte(s, vpn, w, owner, extra).Pte(s, vpn) == w
    {
      hide Vm.WordAt, Vm.Pte, Vm.Trees, Vm.Leaves, Set, Px2, Px1, Px0, Ppn;
      var g := SetPte(s, vpn, w, owner, extra);
      SetTrees(pool, s, vpn, w, owner, extra);
      forall s': nat, v: nat ensures g.Pte(s', v) == if s' == s && v == vpn then w else Pte(s', v) {
        SetPteAt(pool, s, vpn, w, owner, extra, s', v);
      }
      SetPages(pool, s, vpn, w, owner, extra);
      SameOwned(g);
      DirAt(pool, s, Low(Px2(vpn), Px1(vpn)));
      ViewButAt(g, s, vpn);
    }

    /** New flags on a user page leave its contents. */
    lemma RemarkData(pool: set<nat>, s: nat, vpn: nat, w: nat)
      requires CanSet(pool, s, vpn) && Ppn(w) == Ppn(Pte(s, vpn)) && (w == 0 <==> Pte(s, vpn) == 0)
      ensures SetPte(s, vpn, w, owner, extra).Data(s, vpn) == Data(s, vpn)
    {
      hide Vm.Pte, Vm.Trees, Set, Px2, Px1, Px0, Ppn;
      SetPteAt(pool, s, vpn, w, owner, extra, s, vpn);
      DirAt(pool, s, Low(Px2(vpn), Px1(vpn)));
      assert Owning(s, vpn) ==> Val(s, User(vpn)) == Ppn(Pte(s, vpn));
    }

    /** uvmunmap with do_free on one user page. */
    ghost function Unmap(s: nat, vpn: nat): Vm
      requires LowPage(s, vpn) in mem && |mem[LowPage(s, vpn)]| == ENTRIES
    {
      var p := Ppn(Pte(s, vpn));
      SetPte(s, vpn, 0, owner - {p}, extra + {p})
    }

    lemma UnmapKeeps(pool: set<nat>, s: nat, vpn: nat)
      requires CanSet(pool, s, vpn) && Owning(s, vpn) && Pte(s, vpn) != 0
      ensures Unmap(s, vpn).Inv(pool) && Ppn(Pte(s, vpn)) in Unmap(s, vpn).extra && Ppn(Pte(s, vpn)) in owner
      ensures ViewBut(Unmap(s, vpn), s, vpn) && Unmap(s, vpn).Pte(s, vpn) == 0
    {
      hide Vm.WordAt, Vm.Pte, Vm.Trees, Set, Px2, Px1, Px0;
      var p := Ppn(Pte(s, vpn));
      var o, e := owner - {p}, extra + {p};
      var g := Unmap(s, vpn);
      assert Val(s, User(vpn)) == p;
      SetTrees(pool, s, vpn, 0, o, e);
      forall s': nat, v: nat ensures g.Pte(s', v) == if s' == s && v == vpn then 0 else Pte(s', v) {
        SetPteAt(pool, s, vpn, 0, o, e, s', v);
      }
      SetPages(pool, s, vpn, 0, o, e);
      DelOwned(g, s, User(vpn));
      DirAt(pool, s, Low(Px2(vpn), Px1(vpn)));
      ViewButAt(g, s, vpn);
    }

    /** A user page just mapped reads as what was in the page. */
    lemma DataNew(pool: set<nat>, s: nat, vpn: nat, p: nat, flags: nat)
      requires Inv(pool) && Owning(s, vpn) && Pte(s, vpn) == MkPte(p, flags) && flags < 1024 && p != 0 && p in mem
      ensures Data(s, vpn) == mem[p] && Flags(Pte(s, vpn)) == flags
    {
      PteFields(p, flags);
    }

    /** What uvmcopy() reads of a mapped user page. */
    lemma DataOld(pool: set<nat>, s: nat, vpn: nat)
      requires Inv(pool) && Owning(s, vpn) && Pte(s, vpn) != 0
      ensures Ppn(Pte(s, vpn)) in mem && Data(s, vpn) == mem[Ppn(Pte(s, vpn))] && |Data(s, vpn)| == ENTRIES
    {
      hide Vm.Trees, Vm.Pte;
      assert Val(s, User(vpn)) == Ppn(Pte(s, vpn));
    }

    lemma UserBit(pool: set<nat>, s: nat, vpn: nat)
      requires Inv(pool) && Flags(Pte(s, vpn)) == 31
      ensures Pte(s, vpn) != 0 && IsUser(Pte(s, vpn)) && Ppn(Pte(s, vpn)) != 0
    {
      hide Vm.Pte, Vm.Trees, Vm.Owned, Vm.Pages, Ppn, IsLeaf, IsValid;
    }

    /** Writing user memory changes that page of that space and nothing else. */
    lemma StoreUserKeeps(pool: set<nat>, s: nat, vpn: nat, d: Page)
      requires Inv(pool) && Owning(s, vpn) && Pte(s, vpn) != 0 && |d| == ENTRIES
      ensures var g := Store(Ppn(Pte(s, vpn)), d);
        g.Inv(pool) && ViewBut(g, s, vpn) && g.Pte(s, vpn) == Pte(s, vpn) && g.Data(s, vpn) == d && Frames(g)
          && (Rooted() ==> g.Rooted())
    {
      hide Vm.Trees, Vm.Pte, Ppn;
      var p := Ppn(Pte(s, vpn));
      UserPageAt(pool, s, vpn);
      var g := Store(p, d);
      Same(g);
      SameOwned(g);
      forall s': nat, v: nat | s' != s || v != vpn ensures g.Data(s', v) == Data(s', v) {
        if Owning(s', v) && Pte(s', v) != 0 { UserPageAt(pool, s', v); }
      }
    }

    /** Unmapping a user page and freeing it; the order of the two writes does not matter. */
    lemma UnmapFreeKeeps(pool: set<nat>, s: nat, vpn: nat)
      requires CanSet(pool, s, vpn) && Owning(s, vpn) && Pte(s, vpn) != 0
      ensures Unmap(s, vpn).Kfree(Ppn(Pte(s, vpn))).Inv(pool)
      ensures Unmap(s, vpn).Kfree(Ppn(Pte(s, vpn))).extra == extra
      ensures ViewBut(Unmap(s, vpn).Kfree(Ppn(Pte(s, vpn))), s, vpn)
      ensures Unmap(s, vpn).Kfree(Ppn(Pte(s, vpn))).Pte(s, vpn) == 0
      ensures Ppn(Pte(s, vpn)) in pool && LowPage(s, vpn) != Ppn(Pte(s, vpn)) && Ppn(Pte(s, vpn)) in owner
    {
      hide Vm.Trees, Vm.Pte, Vm.Data, Vm.WordAt;
      var p := Ppn(Pte(s, vpn));
      DirAt(pool, s, Low(Px2(vpn), Px1(vpn)));
      assert Val(s, User(vpn)) == p;
      UnmapKeeps(pool, s, vpn);
      var g := Unmap(s, vpn);
      g.KfreeKeeps(pool, p);
    }

    // ---- freewalk: taking a directory page out of the tree ---------------------------------

    ghost function Unhang(s: nat, p: Path): Vm
      requires s in tree && At(s, Parent(p)) in mem && Idx(p) < |mem[At(s, Parent(p))]|
    {
      var up := At(s, Parent(p));
      var t: map<Path, nat> := tree[s] - {p};
      this.(mem := mem[up := Set(mem[up], Idx(p), 0)], tree := tree[s := t],
            owner := owner - {At(s, p)}, extra := extra + {At(s, p)})
    }

    /** The page at p has no children and, at level 0, no mapping. */
    ghost predicate CanPrune(pool: set<nat>, s: nat, p: Path) {
      && Inv(pool) && s in tree && p != Root && At(s, p) != 0 && At(s, Parent(p)) != 0 && Idx(p) < ENTRIES
      && At(s, Parent(p)) in mem && |mem[At(s, Parent(p))]| == ENTRIES
      && Bare(s)
      && (p.Mid? ==> forall j: nat {:trigger At(s, Low(p.i, j))} :: At(s, Low(p.i, j)) == 0)
    }

    function PrunedWord(s: nat, p: Path, s': nat, q: Path, k: nat): nat {
      if s' == s && (q == p || (q == Parent(p) && k == Idx(p))) then 0 else WordAt(At(s', q), k)
    }

    lemma UnhangWord(pool: set<nat>, s: nat, p: Path, s': nat, q: Path, k: nat)
      requires CanPrune(pool, s, p) && k < ENTRIES
      ensures Unhang(s, p).At(s', q) == if s' == s && q == p then 0 else At(s', q)
      ensures Unhang(s, p).WordAt(Unhang(s, p).At(s', q), k) == PrunedWord(s, p, s', q, k)
    {
      hide Vm.Trees, Vm.Leaves, Vm.Pte;
      DirAt(pool, s, Parent(p));
      if At(s', q) != 0 { DirAt(pool, s', q); }
    }

    lemma UnhangTrees(pool: set<nat>, s: nat, p: Path)
      requires CanPrune(pool, s, p)
      ensures Unhang(s, p).Trees() && Unhang(s, p).Leaves()
      ensures forall s': nat, v: nat {:trigger Unhang(s, p).Pte(s', v)} :: Unhang(s, p).Pte(s', v) == Pte(s', v)
    {
      hide Vm.At, Vm.WordAt, Set, Px2, Px1, Px0;
      var g := Unhang(s, p);
      forall s': nat, q: Path, k: nat | k < ENTRIES
        ensures g.At(s', q) == if s' == s && q == p then 0 else At(s', q)
        ensures g.WordAt(g.At(s', q), k) == PrunedWord(s, p, s', q, k)
      { UnhangWord(pool, s, p, s', q, k); }
      forall s': nat, q: Path ensures g.At(s', q) == if s' == s && q == p then 0 else At(s', q) {
        UnhangWord(pool, s, p, s', q, 0);
      }
      forall s': nat, v: nat ensures g.Pte(s', v) == Pte(s', v) { PxRange(v); }
    }

    lemma UnhangKeeps(pool: set<nat>, s: nat, p: Path)
      requires CanPrune(pool, s, p)
      ensures Unhang(s, p).Inv(pool) && At(s, p) in Unhang(s, p).extra && At(s, p) !in extra
      ensures SameView(Unhang(s, p))
    {
      hide Vm.WordAt, Vm.Pte, Vm.Trees, Vm.Leaves;
      var g := Unhang(s, p);
      UnhangTrees(pool, s, p);
      DirAt(pool, s, p);
      DirAt(pool, s, Parent(p));
      forall s': nat, k: Slot ensures g.Val(s', k) == if s' == s && k == Tab(p) then 0 else Val(s', k) {}
      DelOwned(g, s, Tab(p));
      ViewSame(g);
    }

    /** In a space without mappings every level-0 word is 0. */
    lemma LowZero(pool: set<nat>, s: nat, i: nat, j: nat, k: nat)
      requires Inv(pool) && At(s, Low(i, j)) != 0 && k < ENTRIES && Bare(s)
      ensures At(s, Low(i, j)) in mem && |mem[At(s, Low(i, j))]| == ENTRIES && mem[At(s, Low(i, j))][k] == 0
    {
      DirAt(pool, s, Low(i, j));
      PxOf(i, j, k);
      assert Pte(s, i * 262144 + j * 512 + k) == WordAt(At(s, Low(i, j)), k);
    }

    /** What freewalk() reads: a link to the child, or 0. */
    lemma FreeEntryAt(pool: set<nat>, s: nat, p: Path, i: nat)
      requires Inv(pool) && Bare(s) && At(s, p) != 0 && i < ENTRIES
      ensures At(s, p) in mem && |mem[At(s, p)]| == ENTRIES && At(s, p) in pool && At(s, p) !in extra
      ensures var w := mem[At(s, p)][i];
        if p.Low? || At(s, Child(p, i)) == 0 then !IsValid(w)
          else IsValid(w) && !IsLeaf(w) && Ppn(w) == At(s, Child(p, i))
    {
      hide Vm.Trees, Vm.Leaves, Vm.Owned, Vm.Pte, Ppn, IsLeaf;
      DirAt(pool, s, p);
      if p.Low? { LowZero(pool, s, p.i, p.j, i); } else { EntryAt(pool, s, p, i); }
    }

    lemma ViaRange(pool: set<nat>, s: nat, p: Path, q: Path)
      requires Inv(pool) && At(s, q) != 0 && Below(p, q)
      ensures Via(p, q) < ENTRIES
    {}

    lemma NoChild(pool: set<nat>, s: nat, p: Path, i: nat)
      requires Inv(pool) && (p.Low? || At(s, Child(p, i)) == 0)
      ensures forall q: Path {:trigger At(s, q)} :: Below(p, q) && Via(p, q) == i ==> At(s, q) == 0
    {
      hide Vm.Leaves, Vm.Owned, Vm.Pages;
      forall q: Path | Below(p, q) && Via(p, q) == i ensures At(s, q) == 0 {
        if q.Low? { assert At(s, Low(q.i, q.j)) == At(s, q); }
      }
    }

    lemma PruneReady(pool: set<nat>, s: nat, p: Path, i: nat)
      requires Inv(pool) && Bare(s) && At(s, p) != 0 && !p.Low? && i < ENTRIES && At(s, Child(p, i)) != 0
      requires forall q: Path {:trigger At(s, q)} :: Below(Child(p, i), q) ==> At(s, q) == 0
      ensures CanPrune(pool, s, Child(p, i)) && Parent(Child(p, i)) == p && Idx(Child(p, i)) == i
    {
      hide Vm.Trees, Vm.Leaves, Vm.Owned, Vm.Pte, Vm.Pages;
      DirAt(pool, s, p);
    }

    /** A childless page leaves its parent and goes to the free list. */
    ghost function Prune(s: nat, p: Path): Vm
      requires s in tree && At(s, Parent(p)) in mem && Idx(p) < |mem[At(s, Parent(p))]|
    {
      Unhang(s, p).Kfree(At(s, p))
    }

    lemma PruneKeeps(pool: set<nat>, s: nat, p: Path)
      requires CanPrune(pool, s, p) && Rooted()
      ensures Prune(s, p).Inv(pool) && Prune(s, p).Rooted() && Kept(Prune(s, p))
      ensures At(s, p) in pool && At(s, p) != At(s, Parent(p))
      ensures forall q: Path {:trigger Prune(s, p).At(s, q)} :: Prune(s, p).At(s, q) == if q == p then 0 else At(s, q)
    {
      hide Vm.Trees, Vm.Leaves, Vm.Owned, Vm.SameView;
      DirAt(pool, s, p);
      DirAt(pool, s, Parent(p));
      UnhangKeeps(pool, s, p);
      var g := Unhang(s, p);
      g.KfreeKeeps(pool, At(s, p));
      ViewTrans(g, Prune(s, p));
    }

    /** The last step of freewalk: only the root is left and it leaves too. */
    ghost function Fell(s: nat): Vm {
      this.(tree := tree - {s}, owner := owner - {At(s, Root)}, extra := extra + {At(s, Root)})
    }

    lemma FellKeeps(pool: set<nat>, s: nat)
      requires Inv(pool) && s in tree && forall q :: q != Root ==> At(s, q) == 0
      ensures Fell(s).Inv(pool) && At(s, Root) in Fell(s).extra && At(s, Root) !in extra
      ensures SameView(Fell(s))
    {
      hide Vm.Trees, Vm.Leaves, Vm.Pte, Vm.WordAt;
      var g := Fell(s);
      FellTrees(pool, s);
      DirAt(pool, s, Root);
      forall s': nat, k: Slot ensures g.Val(s', k) == if s' == s && k == Tab(Root) then 0 else Val(s', k) {}
      DelOwned(g, s, Tab(Root));
      ViewSame(g);
    }

    lemma FellTrees(pool: set<nat>, s: nat)
      requires Inv(pool) && s in tree && forall q :: q != Root ==> At(s, q) == 0
      ensures Fell(s).Trees() && Fell(s).Leaves() && At(s, Root) != 0
      ensures forall s': nat, v: nat {:trigger Fell(s).Pte(s', v)} :: Fell(s).Pte(s', v) == Pte(s', v)
    {
      hide Vm.WordAt, Vm.Pages;
      var g := Fell(s);
      forall s': nat, q: Path ensures g.At(s', q) == if s' == s then 0 else At(s', q) {}
      forall page: nat, k: nat
        ensures g.WordAt(page, k) == WordAt(page, k) && WordAt(0, k) == 0
      {
        SameWord(g, page, k);
      }
      forall s': nat, v: nat ensures g.Pte(s', v) == Pte(s', v) {}
    }

    lemma SameWord(g: Vm, page: nat, k: nat)
      requires g.mem == mem
      ensures g.WordAt(page, k) == WordAt(page, k) && WordAt(0, k) == 0
    {}

    /** The root goes to the free list. */
    lemma FellFreeKeeps(pool: set<nat>, s: nat)
      requires Inv(pool) && Rooted() && s in tree
                 && forall q: Path {:trigger At(s, q)} :: Below(Root, q) ==> At(s, q) == 0
      ensures var g := Fell(s).Kfree(s); g.Inv(pool) && g.Rooted() && SameView(g) && g.extra == extra && s in pool
    {
      hide Vm.Trees, Vm.Leaves, Vm.Owned, Vm.SameView;
      FellKeeps(pool, s);
      var g := Fell(s);
      g.KfreeKeeps(pool, s);
      ViewTrans(g, g.Kfree(s));
      DirAt(pool, s, Root);
    }

    /** A page in hand is the root of no space. */
    lemma NotRoot(pool: set<nat>, p: nat)
      requires Inv(pool) && Rooted() && p in extra
      ensures p !in tree
    {
      if p in tree {
        assert At(p, Root) != 0;
        DirAt(pool, p, Root);
      }
    }

    lemma RootedAt(pool: set<nat>, s: nat)
      requires Inv(pool) && Rooted() && s in tree
      ensures At(s, Root) == s && s != 0 && s in pool
    {
      DirAt(pool, s, Root);
    }

    /** A space that was not there maps nothing. */
    lemma NewBare(g: Vm, s: nat)
      requires s !in g.tree && s in tree && g.SameView(this)
      ensures Bare(s)
    {
      forall v: nat ensures Pte(s, v) == 0 {
        assert Pte(s, v) == g.Pte(s, v);
      }
    }

    lemma NowBare(g: Vm, s: nat, n: nat)
      requires UserMap(s, n) && Empty(s, TRAPF, MAXVPN) && ViewOutside(g, s, 0, n) && g.Empty(s, 0, n) && Frames(g)
      ensures g.Bare(s)
    {
      forall v: nat ensures g.Pte(s, v) == 0 {
        assert v >= n ==> g.Pte(s, v) == Pte(s, v);
        PteBeyond(s, v);
      }
      assert s in g.tree.Keys;
    }

    lemma FellView(g: Vm, h: Vm, k: Vm, s: nat, n: nat)
      requires g.Kept(h) && h.SameView(k) && n <= TRAPF && ViewOutside(g, s, 0, n)
      ensures ViewOutside(k, s, 0, MAXVPN)
    {
      hide Vm.Pte, Vm.Data;
      g.ViewTrans(h, k);
    }

    // ---- trapframe pages, and counting -----------------------------------------------------

    ghost function SetFrame(s: nat, p: nat): Vm {
      this.(frames := frames[s := p], owner := owner[p := (s, Frame)], extra := extra - {p})
    }

    lemma SetFrameKeeps(pool: set<nat>, s: nat, p: nat)
      requires Inv(pool) && s !in frames && p in extra
      ensures SetFrame(s, p).Inv(pool)
      ensures SameView(SetFrame(s, p))
    {
      hide Vm.Trees, Vm.Leaves, Vm.Pte, Vm.WordAt;
      var g := SetFrame(s, p);
      Same(g);
      AddOwned(g, s, Frame, p);
      ViewSame(g);
    }

    ghost function DropFrame(s: nat): Vm
      requires s in frames
    {
      this.(frames := frames - {s}, owner := owner - {frames[s]}, extra := extra + {frames[s]})
    }

    lemma DropFrameKeeps(pool: set<nat>, s: nat)
      requires Inv(pool) && s in frames && frames[s] != 0
      ensures DropFrame(s).Inv(pool) && frames[s] in DropFrame(s).extra && frames[s] !in extra
      ensures SameView(DropFrame(s))
    {
      hide Vm.Trees, Vm.Leaves, Vm.Pte, Vm.WordAt;
      var g := DropFrame(s);
      assert Val(s, Frame) == frames[s];
      Same(g);
      DelOwned(g, s, Frame);
      ViewSame(g);
    }

    lemma UserPageAt(pool: set<nat>, s: nat, v: nat)
      requires Inv(pool) && Owning(s, v) && Pte(s, v) != 0
      ensures Ppn(Pte(s, v)) in owner && owner[Ppn(Pte(s, v))] == (s, User(v)) && Ppn(Pte(s, v)) in pool
    {
      hide Vm.Pte, Vm.Trees, Ppn;
      assert Val(s, User(v)) == Ppn(Pte(s, v));
    }

    ghost function UserPages(s: nat, n: nat): set<nat> {
      if n == 0 then {} else UserPages(s, n - 1) + {Ppn(Pte(s, n - 1))}
    }

    /** Mapped user pages are distinct pages of the pool. */
    lemma {:induction false} UserPagesCount(pool: set<nat>, s: nat, n: nat)
      requires Inv(pool) && s !in kern && n <= TRAPF && forall v: nat {:trigger Pte(s, v)} :: v < n ==> Pte(s, v) != 0
      ensures |UserPages(s, n)| == n
      ensures forall p ::
                p in UserPages(s, n) ==> p in owner && owner[p].0 == s && owner[p].1.User? && owner[p].1.vpn < n
    {
      hide Vm.Pte, Vm.Inv, Ppn;
      if n > 0 {
        UserPagesCount(pool, s, n - 1);
        assert Pte(s, n - 1) != 0;
        UserPageAt(pool, s, n - 1);
      }
    }

    /** So a user map can never reach TRAPFRAME while the pool is smaller than that. */
    lemma Room(pool: set<nat>, s: nat, n: nat)
      requires Inv(pool) && s !in kern && n <= TRAPF && forall v: nat {:trigger Pte(s, v)} :: v < n ==> Pte(s, v) != 0
      ensures n + |extra| <= |pool|
    {
      UserPagesCount(pool, s, n);
      var all := UserPages(s, n) + extra;
      assert all <= pool;
      Subset(all, pool);
      assert UserPages(s, n) !! extra;
    }

    lemma HolderInTree(s: nat, k: Slot)
      requires Val(s, k) != 0
      ensures if k.Frame? then s in frames && frames[s] == Val(s, k) else s in tree
    {}

    /** At boot: nothing mapped, all pages in hand; after kinit: all pages free. */
    lemma InitInv(pool: set<nat>)
      requires free == [] && tree == map[] && frames == map[] && kern == {} && owner == map[] && extra == pool
                 && 0 !in pool
      requires forall p :: p in pool ==> p in mem && |mem[p]| == ENTRIES
      ensures Inv(pool) && Rooted()
    {}

    lemma AllFree(pool: set<nat>)
      requires Inv(pool) && owner == map[] && extra == {}
      ensures forall p :: p in free <==> p in pool
    {}

    // ---- what walk() reads -----------------------------------------------------------------

    /** Everything but the pages of the trees. */
    ghost predicate Frames(g: Vm) {
      && g.tree.Keys == tree.Keys && g.frames == frames && g.kern == kern && g.extra == extra
      && HandKept(g)
    }

    /** The same but for what is in hand. */
    ghost predicate FramesBut(g: Vm) {
      g.tree.Keys == tree.Keys && g.frames == frames && g.kern == kern && HandKept(g)
    }

    /** The page that goes into the caller's hand when the entry of vpn is cleared. */
    ghost function Let(s: nat, vpn: nat): set<nat> {
      if Owning(s, vpn) && Pte(s, vpn) != 0 then {Ppn(Pte(s, vpn))} else {}
    }

    ghost function LetAll(s: nat, v: nat, n: nat): set<nat> {
      if n == 0 then {} else LetAll(s, v, n - 1) + Let(s, v + n - 1)
    }

    lemma LetMore(s: nat, v: nat, n: nat)
      ensures LetAll(s, v, n + 1) == LetAll(s, v, n) + Let(s, v + n)
      ensures LetAll(s, v, 0) == {}
    {}

    /** What uvmunmap() has made of this state when n pages of s from v on are unmapped. */
    ghost predicate UnmapState(g: Vm, s: nat, v: nat, n: nat, freed: bool) {
      && FramesBut(g) && ViewOutside(g, s, v, v + n) && g.Empty(s, v, v + n)
      && (forall u: nat {:trigger Pte(s, u)} :: v <= u < v + n ==> Pte(s, u) != 0)
      && g.extra == extra + if freed then {} else LetAll(s, v, n)
    }

    lemma UnmapStateNone(s: nat, v: nat, freed: bool)
      ensures UnmapState(this, s, v, 0, freed)
    {}

    lemma UnmapStateAt(g: Vm, s: nat, v: nat, n: nat, freed: bool)
      requires UnmapState(g, s, v, n, freed)
      ensures g.tree.Keys == tree.Keys && g.Pte(s, v + n) == Pte(s, v + n) && g.Owning(s, v + n) == Owning(s, v + n)
    {}

    lemma UnmapStateMore(g: Vm, h: Vm, s: nat, v: nat, n: nat, freed: bool)
      requires UnmapState(g, s, v, n, freed) && g.ViewBut(h, s, v + n) && g.FramesBut(h)
      requires h.extra == g.extra + (if freed then {} else g.Let(s, v + n)) && h.Pte(s, v + n) == 0 != g.Pte(s, v + n)
      ensures UnmapState(h, s, v, n + 1, freed)
    {
      hide Vm.Pte, Vm.Data, Vm.HandKept, Vm.LetAll;
      UnmapStateAt(g, s, v, n, freed);
      LetMore(s, v, n);
      Extend(g, h, s, v, v + n);
      HandTrans(g, h);
    }

    /** The pages that mapping n pages from page v of s on takes out of the caller's hand. */
    ghost function Taken(s: nat, v: nat, n: nat, ppn: nat): set<nat> {
      if n == 0 then {} else Taken(s, v, n - 1, ppn) + if Owning(s, v + n - 1) then {ppn + n - 1} else {}
    }

    lemma {:induction false} TakenBelow(s: nat, v: nat, n: nat, ppn: nat)
      ensures forall p :: p in Taken(s, v, n, ppn) ==> p < ppn + n
    {
      if n > 0 { TakenBelow(s, v, n - 1, ppn); }
    }

    lemma TakenMore(s: nat, v: nat, n: nat, ppn: nat)
      ensures Taken(s, v, n + 1, ppn) == Taken(s, v, n, ppn) + if Owning(s, v + n) then {ppn + n} else {}
      ensures ppn + n !in Taken(s, v, n, ppn) && Taken(s, v, 0, ppn) == {}
    {
      TakenBelow(s, v, n, ppn);
    }

    lemma LeafAt(pool: set<nat>, s: nat, v: nat)
      requires Inv(pool)
      ensures Pte(s, v) != 0 ==> IsValid(Pte(s, v)) && IsLeaf(Pte(s, v)) && Ppn(Pte(s, v)) != 0
    {
      hide Vm.Pte, Vm.Pages, Vm.Owned, Vm.Trees, IsLeaf;
    }

    lemma NoLow(s: nat, v: nat)
      ensures LowPage(s, v) == 0 ==> Pte(s, v) == 0
    {}

    /** Pages in hand keep their contents. */
    ghost predicate HandKept(g: Vm) {
      forall p {:trigger p in extra} {:trigger g.mem[p]} :: p in extra && p in mem ==> p in g.mem && g.mem[p] == mem[p]
    }

    /** Pages that stay in hand keep their contents. */
    ghost predicate HandLeft(g: Vm) {
      forall p {:trigger p in g.extra} {:trigger g.mem[p]} ::
        p in extra && p in g.extra && p in mem ==> p in g.mem && g.mem[p] == mem[p]
    }

    lemma HandLeftTrans(g: Vm, h: Vm)
      requires HandLeft(g) && g.HandKept(h) && h.extra <= g.extra
      ensures HandLeft(h)
    {
      forall p | p in extra && p in h.extra && p in mem
        ensures p in h.mem && h.mem[p] == mem[p]
      {
        assert p in g.extra;
      }
    }

    /** What mappages() has made of this state when n pages of s from v on are mapped to the
        physical pages from ppn on. */
    ghost predicate MapState(g: Vm, s: nat, v: nat, n: nat, ppn: nat, flags: nat) {
      && g.tree.Keys == tree.Keys && g.kern == kern && g.frames == frames
      && ViewOutside(g, s, v, v + n) && g.Mapped(s, v, v + n, ppn, flags) && Empty(s, v, v + n)
      && g.extra == extra - Taken(s, v, n, ppn) && HandLeft(g)
    }

    lemma MapStateNone(s: nat, v: nat, ppn: nat, flags: nat)
      ensures MapState(this, s, v, 0, ppn, flags)
    {}

    lemma MapStateAt(g: Vm, s: nat, v: nat, n: nat, ppn: nat, flags: nat)
      requires MapState(g, s, v, n, ppn, flags)
      ensures g.tree.Keys == tree.Keys && g.kern == kern && g.Pte(s, v + n) == Pte(s, v + n)
      ensures g.Owning(s, v + n) == Owning(s, v + n) && (ppn + n in g.extra <==> ppn + n in extra)
                && (n == 0 ==> g.extra == extra)
    {
      TakenMore(s, v, n, ppn);
    }

    lemma MapStateSame(g: Vm, h: Vm, s: nat, v: nat, n: nat, ppn: nat, flags: nat)
      requires MapState(g, s, v, n, ppn, flags) && g.SameView(h) && g.HandKept(h) && h.extra == g.extra
      requires h.tree.Keys == g.tree.Keys && h.kern == g.kern && h.frames == g.frames
      ensures MapState(h, s, v, n, ppn, flags)
    {
      hide Vm.Pte, Vm.Data, Vm.HandLeft, Vm.HandKept, MkPte;
      OutsideSame(g, h, s, v, v + n);
      HandLeftTrans(g, h);
    }

    lemma MapStateMore(g: Vm, h: Vm, s: nat, v: nat, n: nat, ppn: nat, flags: nat)
      requires MapState(g, s, v, n, ppn, flags) && g.ViewBut(h, s, v + n) && g.HandKept(h)
      requires h.extra == (if h.Owning(s, v + n) then g.extra - {ppn + n} else g.extra)
      requires h.Pte(s, v + n) == MkPte(ppn + n, flags) && Pte(s, v + n) == 0
      requires h.tree.Keys == g.tree.Keys && h.kern == g.kern && h.frames == g.frames
      ensures MapState(h, s, v, n + 1, ppn, flags)
    {
      hide Vm.Pte, Vm.Data, Vm.HandLeft, Vm.HandKept, MkPte, Vm.Taken;
      TakenMore(s, v, n, ppn);
      Extend(g, h, s, v, v + n);
      HandLeftTrans(g, h);
    }

    lemma HandTrans(g: Vm, h: Vm)
      requires HandKept(g) && g.HandKept(h) && extra <= g.extra
      ensures HandKept(h)
    {}

    lemma HandSelf()
      ensures HandKept(this)
    {}

    /** Nothing a caller can see has changed. */
    ghost predicate Kept(g: Vm) { SameView(g) && Frames(g) }

    lemma KeptTrans(g: Vm, h: Vm)
      requires Kept(g) && g.Kept(h)
      ensures Kept(h)
    {
      hide Vm.Pte, Vm.Data;
    }

    lemma FramesTrans(g: Vm, h: Vm)
      requires Frames(g) && g.Frames(h)
      ensures Frames(h)
    {}

    /** Space s maps nothing. */
    ghost predicate Bare(s: nat) {
      s in tree && forall v: nat {:trigger Pte(s, v)} :: Pte(s, v) == 0
    }

    lemma KeptBare(g: Vm, s: nat)
      requires Kept(g) && Bare(s)
      ensures g.Bare(s) && g.extra == extra
    {
      hide Vm.Pte, Vm.Data;
      assert s in g.tree.Keys;
    }

    lemma FramesOwning(g: Vm, s: nat)
      requires Frames(g)
      ensures s in g.tree <==> s in tree
      ensures g.kern == kern && g.extra == extra && g.frames == frames && g.tree.Keys == tree.Keys
    {
      assert s in tree.Keys <==> s in g.tree.Keys;
    }

    lemma KeptSelf()
      ensures Kept(this)
    {}

    lemma KeptPte(g: Vm, s: nat, v: nat)
      requires Kept(g)
      ensures g.Pte(s, v) == Pte(s, v) && g.tree.Keys == tree.Keys && g.frames == frames && g.kern == kern
                && g.extra == extra
    {}

    /** Spaces are named by their root page. */
    ghost predicate Rooted() { forall s {:trigger s in tree} :: s in tree ==> At(s, Root) == s }

    /** A directory entry leads to exactly the child page, if there is one. */
    lemma EntryAt(pool: set<nat>, s: nat, p: Path, i: nat)
      requires Inv(pool) && At(s, p) != 0 && !p.Low? && i < ENTRIES
      ensures At(s, p) in mem && |mem[At(s, p)]| == ENTRIES && At(s, p) in pool
      ensures mem[At(s, p)][i] == Link(s, Child(p, i))
      ensures IsValid(mem[At(s, p)][i]) == (At(s, Child(p, i)) != 0)
      ensures IsValid(mem[At(s, p)][i]) ==> Ppn(mem[At(s, p)][i]) == At(s, Child(p, i)) && !IsLeaf(mem[At(s, p)][i])
    {
      hide Vm.Leaves, Vm.Pte, Ppn, IsValid, IsLeaf, MkPte;
      DirAt(pool, s, p);
      assert WordAt(At(s, p), i) == Link(s, Child(p, i));
      LinkFields(At(s, Child(p, i)));
    }

    lemma ViewTrans(g: Vm, h: Vm)
      requires SameView(g) && g.SameView(h)
      ensures SameView(h)
    {
      hide Vm.Pte, Vm.Data;
    }

    lemma SameViewPte(g: Vm, s: nat, v: nat)
      requires SameView(g)
      ensures g.Pte(s, v) == Pte(s, v) && g.Data(s, v) == Data(s, v)
    {}

    lemma SameThenBut(g: Vm, h: Vm, s: nat, v: nat)
      requires SameView(g) && g.ViewBut(h, s, v)
      ensures ViewBut(h, s, v)
    {
      hide Vm.Pte, Vm.Data;
    }

    /** kalloc and memset to d. */
    ghost function Grab(d: Page): Vm
      requires free != []
    {
      Kalloc().Store(free[0], d)
    }

    lemma GrabKeeps(pool: set<nat>, d: Page)
      requires Inv(pool) && free != [] && |d| == ENTRIES
      ensures free[0] != 0 && free[0] in pool && free[0] !in extra && free[0] !in owner
      ensures Grab(d).Inv(pool) && SameView(Grab(d))
    {
      hide Vm.Trees, Vm.Leaves, Vm.Owned, Vm.SameView;
      KallocKeeps(pool);
      Kalloc().StoreKeeps(pool, free[0], d);
      ViewTrans(Kalloc(), Grab(d));
    }

    /** The allocating step of walk(): kalloc, memset, link. */
    ghost function Sprout(s: nat, p: Path): Vm
      requires free != [] && s in tree && At(s, Parent(p)) in mem && Idx(p) < |mem[At(s, Parent(p))]|
      requires At(s, Parent(p)) != free[0]
    {
      Grab(Fill(0)).Hang(s, p, free[0])
    }

    lemma SproutKeeps(pool: set<nat>, s: nat, p: Path)
      requires Inv(pool) && Rooted() && free != [] && s in tree && p != Root && At(s, p) == 0 && At(s, Parent(p)) != 0
      requires Idx(p) < ENTRIES && (p != Root ==> p.i < TOP)
      ensures At(s, Parent(p)) in mem && |mem[At(s, Parent(p))]| == ENTRIES && At(s, Parent(p)) != free[0]
                && free[0] in pool
      ensures Sprout(s, p).Inv(pool) && Kept(Sprout(s, p))
      ensures Sprout(s, p).At(s, p) == free[0] != 0 && Sprout(s, p).Rooted()
    {
      hide Vm.Trees, Vm.Leaves, Vm.Owned, Vm.SameView;
      DirAt(pool, s, Parent(p));
      GrabKeeps(pool, Fill(0));
      var g1 := Grab(Fill(0));
      g1.HangKeeps(pool, s, p, free[0]);
      ViewTrans(g1, Sprout(s, p));
    }

    lemma PteBeyond(s: nat, v: nat)
      ensures v >= MAXVPN ==> Pte(s, v) == 0
    {}

    /** What walk() finds at level 0 is the entry. */
    lemma PteAt(pool: set<nat>, s: nat, vpn: nat)
      requires Inv(pool) && vpn < MAXVPN && LowPage(s, vpn) != 0
      ensures CanSet(pool, s, vpn) && mem[LowPage(s, vpn)][Px0(vpn)] == Pte(s, vpn) && LowPage(s, vpn) !in extra
      ensures Pte(s, vpn) == 0 <==> !IsValid(Pte(s, vpn))
      ensures Pte(s, vpn) != 0 ==> IsLeaf(Pte(s, vpn)) && Flags(Pte(s, vpn)) != 1
      ensures Pte(s, vpn) != 0 && Owning(s, vpn) ==> Ppn(Pte(s, vpn)) in pool && Ppn(Pte(s, vpn)) in owner
    {
      hide Vm.Trees;
      DirAt(pool, s, Low(Px2(vpn), Px1(vpn)));
      assert Val(s, User(vpn)) == if Owning(s, vpn) then Ppn(Pte(s, vpn)) else 0;
    }

    /** No middle page, no level-0 page, no entry. */
    lemma NoEntry(s: nat, vpn: nat)
      requires Trees() && (At(s, Mid(Px2(vpn))) == 0 || LowPage(s, vpn) == 0)
      ensures LowPage(s, vpn) == 0 && Pte(s, vpn) == 0
    {
      assert At(s, Low(Px2(vpn), Px1(vpn))) == LowPage(s, vpn);
    }
  }

  /** The entry without its user bit. */
  function ClearU(pte: nat): nat {
    var f := Flags(pte);
    MkPte(Ppn(pte), if f / 16 % 2 == 1 then f - 16 else f)
  }

  lemma ClearUZero(pte: nat)
    ensures ClearU(0) == 0 && (Ppn(pte) != 0 ==> ClearU(pte) != 0)
  {
  }

  lemma ClearUFields(pte: nat)
    ensures Ppn(ClearU(pte)) == Ppn(pte) && IsValid(ClearU(pte)) == IsValid(pte) && IsLeaf(ClearU(pte)) == IsLeaf(pte)
    ensures Flags(pte) == 31 ==> Flags(ClearU(pte)) == 15
  {
    hide MkPte, Ppn, IsValid, IsLeaf;
    var f := Flags(pte);
    FlagsFields(pte);
    if f / 16 % 2 == 1 {
      SmallFlags(f);
      PteFields(Ppn(pte), f - 16);
    } else {
      PteFields(Ppn(pte), f);
    }
  }

  lemma SmallFlags(f: nat)
    requires f < 1024 && f / 16 % 2 == 1
    ensures f >= 16 && IsValid(f - 16) == IsValid(f) && IsLeaf(f - 16) == IsLeaf(f)
  {
    assert (f - 16) / 2 == f / 2 - 8;
  }

  lemma FlagsFields(pte: nat)
    ensures IsLeaf(Flags(pte)) == IsLeaf(pte) && IsValid(Flags(pte)) == IsValid(pte) && Flags(pte) < 1024
    ensures IsValid(pte) ==> OrV(Flags(pte)) == Flags(pte)
  {
    var q := pte / 1024;
    assert pte == q * 1024 + Flags(pte);
    PteFields(q, Flags(pte));
  }

  /** perm | PTE_V */
  function OrV(perm: nat): nat { if perm % 2 == 1 then perm else perm + 1 }

  lemma OrVFields(perm: nat)
    requires perm < 1024
    ensures OrV(perm) < 1024 && IsValid(OrV(perm)) && IsLeaf(OrV(perm)) == IsLeaf(perm)
  {}

  /** How many levels lie below a page. */
  function Level(p: Path): nat { if p.Root? then 2 else if p.Mid? then 1 else 0 }

  /** Is q strictly below p? */
  predicate Below(p: Path, q: Path) { (p.Root? && !q.Root?) || (p.Mid? && q.Low? && q.i == p.i) }

  /** For q below p: the entry of p it hangs from. */
  function Via(p: Path, q: Path): nat { if p.Root? && !q.Root? then q.i else if q.Low? then q.j else 0 }

  function Child(p: Path, i: nat): Path { if p.Root? then Mid(i) else if p.Mid? then Low(p.i, i) else Root }

  /** The page walk() looks at when it reaches a level. */
  function Down(level: nat, vpn: nat): Path {
    if level == 2 then Root else if level == 1 then Mid(Px2(vpn)) else Low(Px2(vpn), Px1(vpn))
  }
}
