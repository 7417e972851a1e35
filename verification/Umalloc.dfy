/** The allocator of user/umalloc.c.  Addresses and sizes are in header units; a header holds
    the next free block and the size of its own block. */
module Umalloc {

  /** Blocks by address: block a covers units a .. a + m[a]. */
  type Blocks = map<nat, nat>

  ghost predicate Covers(m: Blocks, u: nat) { exists a :: a in m && a <= u < a + m[a] }

  /** The ring order: b is the next address above a, or the base if a is the highest. */
  ghost predicate Next(k: set<nat>, base: nat, a: nat, b: nat) {
    && b in k
    && ((a < b && forall c :: c in k && a < c ==> b <= c) || (b == base && forall c :: c in k ==> c <= a))
  }

  ghost predicate Ring(k: set<nat>, base: nat, ptr: map<nat, nat>) {
    && base in k && (forall c :: c in k ==> base <= c) && (forall a :: a in k ==> a in ptr)
    && (forall a {:trigger ptr[a]} :: a in k ==> Next(k, base, a, ptr[a]))
  }

  lemma NextInsert(k: set<nat>, base: nat, p: nat, x: nat, a: nat, b: nat)
    requires base in k && p in k && a in k && p < x && (forall c :: c in k ==> base <= c && (c <= p || x < c))
               && Next(k, base, a, b)
    ensures if a == p then Next(k + {x}, base, p, x) && Next(k + {x}, base, x, b) else Next(k + {x}, base, a, b)
  {
    if a < p && b != base { assert b <= p; }
  }

  /** Linking a new address in behind the last one below it. */
  lemma RingInsert(k: set<nat>, base: nat, ptr: map<nat, nat>, p: nat, x: nat)
    requires Ring(k, base, ptr) && p in k && p < x && forall c :: c in k ==> c <= p || x < c
    ensures Ring(k + {x}, base, ptr[x := ptr[p]][p := x])
  {
    hide Next;
    var r, t := ptr[x := ptr[p]][p := x], k + {x};
    NextInsert(k, base, p, x, p, ptr[p]);
    forall a {:trigger r[a]} | a in t ensures Next(t, base, a, r[a]) {
      if a != x && a != p { NextInsert(k, base, p, x, a, ptr[a]); }
    }
  }

  lemma NextRemove(k: set<nat>, base: nat, p: nat, x: nat, y: nat, a: nat, b: nat)
    requires base in k && p in k && x in k && a in k && p != x && a != x && x != base
               && forall c :: c in k ==> base <= c
    requires Next(k, base, p, x) && Next(k, base, x, y) && Next(k, base, a, b)
    ensures Next(k - {x}, base, a, if a == p then y else b)
  {
    assert a < p ==> b <= p;
    assert a > x ==> b != x;
  }

  /** Unlinking the address after p. */
  lemma RingRemove(k: set<nat>, base: nat, ptr: map<nat, nat>, p: nat)
    requires Ring(k, base, ptr) && p in k && ptr[p] in k && ptr[p] != base && ptr[p] != p
    ensures Ring(k - {ptr[p]}, base, ptr[p := ptr[ptr[p]]])
  {
    hide Next;
    var x := ptr[p];
    var r, t := ptr[p := ptr[x]], k - {x};
    forall a {:trigger r[a]} | a in t ensures Next(t, base, a, r[a]) {
      NextRemove(k, base, p, x, ptr[x], a, ptr[a]);
    }
  }

  // ---- sums over block maps ------------------------------------------------------------------

  ghost function Sum(m: Blocks): nat {
    if m == map[] then 0 else var k :| k in m; m[k] + Sum(m - {k})
  }

  lemma {:induction false} SumLess(m: Blocks, k: nat)
    requires k in m
    ensures Sum(m) == m[k] + Sum(m - {k})
    decreases m
  {
    var j :| j in m && Sum(m) == m[j] + Sum(m - {j});
    if j != k {
      SumLess(m - {j}, k);
      SumLess(m - {k}, j);
      assert m - {j} - {k} == m - {k} - {j};
    }
  }

  lemma SumNone()
    ensures Sum(map[]) == 0
  {}

  lemma SumPut(m: Blocks, k: nat, n: nat)
    requires k !in m
    ensures Sum(m[k := n]) == Sum(m) + n
  {
    SumLess(m[k := n], k);
    assert m[k := n] - {k} == m;
  }

  lemma SumSet(m: Blocks, k: nat, n: nat)
    requires k in m
    ensures Sum(m[k := n]) == Sum(m) - m[k] + n
  {
    SumLess(m[k := n], k);
    SumLess(m, k);
    assert m[k := n] - {k} == m - {k};
  }

  // ---- the heap --------------------------------------------------------------------------------

  /** The free blocks: the empty base block, then blocks above it that neither overlap nor
      touch. */
  ghost predicate FreeOk(f: Blocks, base: nat) {
    && base in f && f[base] == 0
    && (forall a :: a in f && a != base ==> base < a && f[a] >= 1)
    && (forall a, b :: a in f && b in f && a < b ==> a + f[a] < b)
  }

  ghost predicate Apart(a: nat, n: nat, b: nat, m: nat) { a + n <= b || b + m <= a }

  /** Live blocks overlap neither each other nor a free block. */
  ghost predicate LiveOk(f: Blocks, l: Blocks, base: nat) {
    && (forall a :: a in l ==> base < a && l[a] >= 1)
    && (forall a, b :: a in l && b in l && a != b ==> Apart(a, l[a], b, l[b]))
    && (forall a, b :: a in l && b in f && b != base ==> Apart(a, l[a], b, f[b]))
  }

  /** The headers agree: sizes of all blocks, and the free ones closed to a ring. */
  ghost predicate Headers(f: Blocks, l: Blocks, base: nat, ptr: map<nat, nat>, size: map<nat, nat>) {
    && (forall a :: a in l ==> a in size && size[a] == l[a])
    && (forall a :: a in f ==> a in size && size[a] == f[a])
    && Ring(f.Keys, base, ptr)
  }

  /** All blocks end at or below `top`. */
  ghost predicate Within(f: Blocks, l: Blocks, base: nat, top: nat) {
    base < top && (forall a :: a in f ==> a + f[a] <= top) && (forall a :: a in l ==> a + l[a] <= top)
  }

  // ---- free() on block maps --------------------------------------------------------------------

  /** p is the last free block below bp. */
  ghost predicate Gap(f: Blocks, p: nat, bp: nat) {
    p in f && p < bp && forall c :: c in f ==> c <= p || bp < c
  }

  /** Block bp of n units added to the free blocks, joined with the block above if they touch. */
  ghost function Put(f: Blocks, bp: nat, n: nat): Blocks {
    if bp + n in f then (f - {bp + n})[bp := n + f[bp + n]] else f[bp := n]
  }

  /** Then joined with the block p below it if they touch. */
  ghost function Join(f: Blocks, p: nat, bp: nat): Blocks
    requires p in f && bp in f
  {
    if p + f[p] == bp then (f - {bp})[p := f[p] + f[bp]] else f
  }

  /** A block that can be freed: below it p, and overlapping no free block. */
  ghost predicate CanPut(f: Blocks, base: nat, p: nat, bp: nat, n: nat) {
    && FreeOk(f, base) && Gap(f, p, bp) && n >= 1 && forall b :: b in f && b != base ==> Apart(bp, n, b, f[b])
  }

  /** FreeOk, except that p and bp may touch. */
  ghost predicate Nearly(g: Blocks, base: nat, p: nat, bp: nat) {
    && base in g && g[base] == 0 && p in g && bp in g && p < bp
    && (forall a :: a in g && a != base ==> base < a && g[a] >= 1)
    && (forall a, b :: a in g && b in g && a < b ==> a + g[a] < b || (a == p && b == bp && a != base && a + g[a] == b))
  }

  lemma PutPair(f: Blocks, base: nat, p: nat, bp: nat, n: nat, a: nat, b: nat)
    requires CanPut(f, base, p, bp, n) && a in Put(f, bp, n) && b in Put(f, bp, n) && a < b
    ensures var g := Put(f, bp, n); a + g[a] < b || (a == p && b == bp && a != base && a + g[a] == b)
  {
    if a == bp {
      assert b in f && bp < b;
      assert Apart(bp, n, b, f[b]);
      if bp + n in f { assert bp + n < b; }
    } else if b == bp {
      assert a in f && a <= p;
      if a == p && a != base { assert Apart(bp, n, a, f[a]); }
    }
  }

  lemma PutOk(f: Blocks, base: nat, p: nat, bp: nat, n: nat)
    requires CanPut(f, base, p, bp, n)
    ensures Nearly(Put(f, bp, n), base, p, bp) && Put(f, bp, n)[p] == f[p] && bp !in f
    ensures forall a :: a in Put(f, bp, n) <==> a == bp || (a in f && a != bp + n)
    ensures bp + n in f ==> bp + n > bp && bp + n != base && bp + n != p
  {
    var g := Put(f, bp, n);
    forall a, b | a in g && b in g && a < b
      ensures a + g[a] < b || (a == p && b == bp && a != base && a + g[a] == b)
    { PutPair(f, base, p, bp, n, a, b); }
  }

  lemma JoinOk(g: Blocks, base: nat, p: nat, bp: nat)
    requires Nearly(g, base, p, bp)
    ensures FreeOk(Join(g, p, bp), base) && p in Join(g, p, bp)
    ensures p + g[p] == bp ==> p != base
  {
    var h := Join(g, p, bp);
    if p + g[p] == bp {
      forall a, b | a in h && b in h && a < b ensures a + h[a] < b {
        if a == p { assert bp < b || b < bp; }
      }
    } else {
      assert h == g;
    }
  }

  lemma PutSum(f: Blocks, base: nat, p: nat, bp: nat, n: nat)
    requires CanPut(f, base, p, bp, n)
    requires p in Put(f, bp, n) && bp in Put(f, bp, n)
    ensures Sum(Join(Put(f, bp, n), p, bp)) == Sum(f) + n
  {
    hide FreeOk, Apart;
    var g := Put(f, bp, n);
    if bp + n in f {
      SumLess(f, bp + n);
      SumPut(f - {bp + n}, bp, n + f[bp + n]);
    } else {
      SumPut(f, bp, n);
    }
    if p + g[p] == bp {
      SumLess(g, bp);
      SumSet(g - {bp}, p, g[p] + g[bp]);
    }
  }

  /** Exactly the units of the block become free. */
  lemma PutCovers(f: Blocks, bp: nat, n: nat, u: nat)
    requires bp !in f
    ensures Covers(Put(f, bp, n), u) <==> Covers(f, u) || bp <= u < bp + n
  {
    var g := Put(f, bp, n);
    assert bp in g && g[bp] >= n;
    if Covers(f, u) {
      var a :| a in f && a <= u < a + f[a];
      assert if a == bp + n then bp <= u < bp + g[bp] else a in g && g[a] == f[a];
    }
    if Covers(g, u) {
      var a :| a in g && a <= u < a + g[a];
      if a != bp { assert a in f && f[a] == g[a]; } else if u >= bp + n { assert bp + n in f; }
    }
  }

  lemma JoinCovers(g: Blocks, p: nat, bp: nat, u: nat)
    requires p in g && bp in g && p < bp
    ensures Covers(Join(g, p, bp), u) <==> Covers(g, u)
  {
    var h := Join(g, p, bp);
    if Covers(g, u) {
      var a :| a in g && a <= u < a + g[a];
      assert if a == bp && p + g[p] == bp then p <= u < p + h[p] else a in h && a <= u < a + h[a];
    }
    if Covers(h, u) {
      var a :| a in h && a <= u < a + h[a];
      if a == p && u >= p + g[p] { assert bp <= u < bp + g[bp]; } else { assert a in g && a <= u < a + g[a]; }
    }
  }

  /** A live block stays apart from the grown free block. */
  lemma PutApart(f: Blocks, base: nat, p: nat, bp: nat, n: nat, a: nat, m: nat)
    requires CanPut(f, base, p, bp, n) && p in Put(f, bp, n) && bp in Put(f, bp, n)
    requires m >= 1 && Apart(bp, n, a, m) && forall b :: b in f && b != base ==> Apart(a, m, b, f[b])
    ensures var h := Join(Put(f, bp, n), p, bp); forall b :: b in h && b != base ==> Apart(a, m, b, h[b])
  {
    PutOk(f, base, p, bp, n);
  }

  /** The block above bp, if it touches, is the one p points to. */
  lemma NextOfGap(f: Blocks, base: nat, ptr: map<nat, nat>, p: nat, bp: nat, n: nat)
    requires CanPut(f, base, p, bp, n) && Ring(f.Keys, base, ptr)
    ensures bp + n == ptr[p] <==> bp + n in f
  {
    hide FreeOk, Ring, Next;
    RingIn(f.Keys, base, ptr, p);
    if bp + n in f {
      BaseBelow(f, base, p);
      forall c | c in f.Keys && p < c ensures bp + n <= c { assert Apart(bp, n, c, f[c]); }
      RingNext(f.Keys, base, ptr, p, bp + n);
    }
  }

  lemma BaseBelow(f: Blocks, base: nat, p: nat)
    requires FreeOk(f, base) && p in f
    ensures base <= p
  {}

  /** The least address above a is its successor. */
  lemma RingNext(k: set<nat>, base: nat, ptr: map<nat, nat>, a: nat, x: nat)
    requires Ring(k, base, ptr) && a in k && x in k && a < x && forall c :: c in k && a < c ==> x <= c
    ensures ptr[a] == x
  {
    assert Next(k, base, a, ptr[a]);
  }

  /** What free() writes: the pointers after both joins. */
  ghost function FreedPtr(f: Blocks, ptr: map<nat, nat>, p: nat, bp: nat, n: nat): map<nat, nat>
    requires p in f && p in ptr && (bp + n in f ==> bp + n in ptr)
  {
    var q := if bp + n in f then ptr[bp + n] else ptr[p];
    if p + f[p] == bp then ptr[bp := q][p := q] else ptr[bp := q][p := bp]
  }

  lemma FreedRing(f: Blocks, base: nat, ptr: map<nat, nat>, p: nat, bp: nat, n: nat)
    requires CanPut(f, base, p, bp, n) && Ring(f.Keys, base, ptr) && p in Put(f, bp, n) && bp in Put(f, bp, n)
    requires Put(f, bp, n)[p] == f[p] && bp !in f && (p + f[p] == bp ==> p != base)
    ensures var h := Join(Put(f, bp, n), p, bp); Ring(h.Keys, base, FreedPtr(f, ptr, p, bp, n))
  {
    hide Next, FreeOk, Ring, Apart;
    RingIn(f.Keys, base, ptr, p);
    var g := Put(f, bp, n);
    var h := Join(g, p, bp);
    NextOfGap(f, base, ptr, p, bp, n);
    RingInsert(f.Keys, base, ptr, p, bp);
    var k1, r1 := f.Keys + {bp}, ptr[bp := ptr[p]][p := bp];
    if bp + n in f {
      RingIn(f.Keys, base, ptr, bp + n);
      RingRemove(k1, base, r1, bp);
      var k2, r2 := k1 - {bp + n}, r1[bp := ptr[bp + n]];
      assert g.Keys == k2;
      FreedJoin(g, base, r2, p, bp);
      assert FreedPtr(f, ptr, p, bp, n) == if p + f[p] == bp then r2[p := r2[bp]] else r2;
    } else {
      assert g.Keys == k1;
      FreedJoin(g, base, r1, p, bp);
      assert FreedPtr(f, ptr, p, bp, n) == if p + f[p] == bp then r1[p := r1[bp]] else r1;
    }
  }

  lemma FreedJoin(g: Blocks, base: nat, ptr: map<nat, nat>, p: nat, bp: nat)
    requires Ring(g.Keys, base, ptr) && p in g && bp in g && p in ptr && ptr[p] == bp && bp in ptr && p < bp
               && base != bp
    ensures Ring(Join(g, p, bp).Keys, base, if p + g[p] == bp then ptr[p := ptr[bp]] else ptr)
  {
    hide Next;
    if p + g[p] == bp {
      RingRemove(g.Keys, base, ptr, p);
      assert Join(g, p, bp).Keys == g.Keys - {bp};
    }
  }

  lemma RingIn(k: set<nat>, base: nat, ptr: map<nat, nat>, a: nat)
    requires Ring(k, base, ptr) && a in k
    ensures a in ptr && ptr[a] in k && base <= a
  {
    assert Next(k, base, a, ptr[a]);
  }

  // ---- going round -----------------------------------------------------------------------------

  /** c lies on the way from p round to t, both included. */
  predicate Ahead(p: nat, t: nat, c: nat) { if p <= t then p <= c <= t else c >= p || c <= t }

  ghost function AheadSet(k: set<nat>, p: nat, t: nat): set<nat> { set c | c in k && Ahead(p, t, c) }

  lemma AheadStep(k: set<nat>, base: nat, p: nat, q: nat, t: nat)
    requires p in k && t in k && p != t && Next(k, base, p, q) && forall c :: c in k ==> base <= c
    ensures AheadSet(k, q, t) == AheadSet(k, p, t) - {p} && p in AheadSet(k, p, t)
    ensures |AheadSet(k, q, t)| < |AheadSet(k, p, t)|
  {
    assert |AheadSet(k, p, t) - {p}| == |AheadSet(k, p, t)| - 1;
  }

  /** Starting behind t, everything is ahead. */
  lemma AheadAll(k: set<nat>, base: nat, t: nat, q: nat)
    requires t in k && Next(k, base, t, q) && forall c :: c in k ==> base <= c
    ensures AheadSet(k, q, t) == k
  {}

  lemma {:induction false} GapExists(k: set<nat>, base: nat, x: nat) returns (t: nat)
    requires base in k && base < x && x !in k
    ensures t in k && t < x && forall c :: c in k ==> c <= t || x < c
    decreases k
  {
    if exists c :: c in k && base < c < x {
      var c :| c in k && base < c < x;
      t := GapExists(k - {base}, c, x);
      assert c in k - {base} && c <= t;
      forall d | d in k ensures d <= t || x < d {
        if d != base { assert d in k - {base}; }
      }
    } else {
      t := base;
    }
  }

  // ---- malloc() on block maps ------------------------------------------------------------------

  /** The last n units of free block p leave it; the block goes if nothing is left. */
  ghost function Cut(f: Blocks, p: nat, n: nat): Blocks
    requires p in f && n <= f[p]
  {
    if f[p] == n then f - {p} else f[p := f[p] - n]
  }

  lemma CutSum(f: Blocks, p: nat, n: nat)
    requires p in f && 1 <= n <= f[p]
    ensures Sum(Cut(f, p, n)) + n == Sum(f)
  {
    if f[p] == n { SumLess(f, p); } else { SumSet(f, p, f[p] - n); }
  }

  lemma CutFree(f: Blocks, base: nat, p: nat, n: nat)
    requires FreeOk(f, base) && p in f && 1 <= n <= f[p]
    ensures FreeOk(Cut(f, p, n), base) && base in Cut(f, p, n)
  {
    var g := Cut(f, p, n);
    forall a | a in g ensures a in f && g[a] <= f[a] && (a != p ==> g[a] == f[a]) {}
    forall a, b | a in g && b in g && a < b ensures a + g[a] < b {
      assert a + f[a] < b;
    }
  }

  /** A live block is apart from the cut-off units and from what is left. */
  lemma CutApart(f: Blocks, p: nat, n: nat, b: nat, m: nat)
    requires p in f && 1 <= n <= f[p] && m >= 1 && Apart(b, m, p, f[p])
    ensures var a := p + f[p] - n;
              a != b && Apart(b, m, a, n) && Apart(a, n, b, m)
                && (p in Cut(f, p, n) ==> Apart(b, m, p, Cut(f, p, n)[p]))
  {}

  lemma CutNew(f: Blocks, base: nat, p: nat, n: nat, c: nat)
    requires FreeOk(f, base) && p in f && 1 <= n <= f[p] && c in Cut(f, p, n) && c != base
    ensures Apart(p + f[p] - n, n, c, Cut(f, p, n)[c]) && base < p
  {
    assert c < p ==> c + f[c] < p;
    assert p < c ==> p + f[p] < c;
  }

  lemma CutOk(f: Blocks, l: Blocks, base: nat, top: nat, p: nat, n: nat)
    requires FreeOk(f, base) && LiveOk(f, l, base) && Within(f, l, base, top) && p in f && 1 <= n <= f[p]
    ensures var a := p + f[p] - n;
              a !in l && LiveOk(Cut(f, p, n), l[a := n], base) && Within(Cut(f, p, n), l[a := n], base, top)
  {
    hide FreeOk, LiveOk, Within, Apart;
    var a := p + f[p] - n;
    var g := Cut(f, p, n);
    CutShape(f, base, p, n);
    forall b | b in l
      ensures a != b && Apart(b, l[b], a, n) && Apart(a, n, b, l[b]) && (p in g ==> Apart(b, l[b], p, g[p]))
    {
      LiveApart(f, l, base, b, p);
      CutApart(f, p, n, b, l[b]);
    }
    forall c | c in g && c != base ensures Apart(a, n, c, g[c]) { CutNew(f, base, p, n, c); }
    CutJoin(f, l, g, base, a, n, p);
    CutWithin(f, l, base, top, p, n);
  }

  lemma LiveApart(f: Blocks, l: Blocks, base: nat, b: nat, p: nat)
    requires LiveOk(f, l, base) && b in l && p in f && p != base
    ensures Apart(b, l[b], p, f[p]) && l[b] >= 1
  {}

  lemma CutShape(f: Blocks, base: nat, p: nat, n: nat)
    requires FreeOk(f, base) && p in f && 1 <= n <= f[p]
    ensures base < p && forall c :: c in Cut(f, p, n) ==> c in f && (c != p ==> Cut(f, p, n)[c] == f[c])
  {}

  lemma CutWithin(f: Blocks, l: Blocks, base: nat, top: nat, p: nat, n: nat)
    requires Within(f, l, base, top) && p in f && 1 <= n <= f[p]
    ensures Within(Cut(f, p, n), l[p + f[p] - n := n], base, top)
  {
    forall c | c in Cut(f, p, n) ensures c + Cut(f, p, n)[c] <= top { assert c in f; }
  }

  lemma CutJoin(f: Blocks, l: Blocks, g: Blocks, base: nat, a: nat, n: nat, p: nat)
    requires LiveOk(f, l, base) && a !in l && base < a && n >= 1
    requires forall b :: b in l ==> Apart(b, l[b], a, n) && Apart(a, n, b, l[b]) && (p in g ==> Apart(b, l[b], p, g[p]))
    requires forall c :: c in g ==> c in f && (c != p ==> g[c] == f[c])
    requires forall c :: c in g && c != base ==> Apart(a, n, c, g[c])
    ensures LiveOk(g, l[a := n], base)
  {
    hide Apart;
    var m := l[a := n];
    forall b, c | b in m && c in g && c != base ensures Apart(b, m[b], c, g[c]) {
      if b != a && c != p { assert Apart(b, l[b], c, f[c]); }
    }
  }

  lemma CutCovers(f: Blocks, base: nat, p: nat, n: nat, u: nat)
    requires FreeOk(f, base) && p in f && 1 <= n <= f[p]
    ensures var a := p + f[p] - n; Covers(f, u) <==> Covers(Cut(f, p, n), u) || a <= u < a + n
    ensures var a := p + f[p] - n; !(Covers(Cut(f, p, n), u) && a <= u < a + n)
  {
    var g := Cut(f, p, n);
    if Covers(f, u) {
      var b :| b in f && b <= u < b + f[b];
      if b != p { assert b in g && g[b] == f[b]; } else if u < p + f[p] - n { assert p in g && p <= u < p + g[p]; }
    }
    if Covers(g, u) {
      var b :| b in g && b <= u < b + g[b];
      assert b in f && b <= u < b + f[b];
    }
  }

  // ---- the program -----------------------------------------------------------------------------

  /** Units needed for nbytes: one for the header. */
  function UnitsFor(nbytes: nat): nat { (nbytes + 15) / 16 + 1 }

  /** What sbrk(int) makes of a 64-bit byte count. */
  function ToInt(x: nat): int {
    var y := x % 0x1_0000_0000; if y < 0x8000_0000 then y else y - 0x1_0000_0000
  }

  /** The break, in units, after sbrk of n units succeeds at break `core`: moved by what the int
      argument says, but left alone if that is below 0, where growproc's unsigned sum wraps. */
  function Break(core: nat, n: nat): nat {
    var k := ToInt(n * 16) / 16; if core + k >= 0 then core + k else core
  }

  lemma BreakCovers(core: nat, n: nat)
    requires n > 0
    ensures core + n <= Break(core, n) <==> n < 0x800_0000
  {
  }

  class Heap {
    const base: nat
    var ptr: map<nat, nat>
    var size: map<nat, nat>
    var freep: nat              // 0 before the first malloc
    ghost var free: Blocks
    ghost var live: Blocks
    ghost var total: nat        // units that morecore has recorded
    ghost var top: nat          // the end of the last of them
    ghost var brk: nat          // the end of the process's memory

    /** Live and free blocks are disjoint, no two free blocks touch, the free ones form a ring in
        address order, and together they are all that morecore ever recorded. */
    ghost predicate Inv()
      reads this
    {
      && FreeOk(free, base) && LiveOk(free, live, base) && Within(free, live, base, top)
      && Headers(free, live, base, ptr, size) && Sum(free) + Sum(live) == total && freep in free
    }

    ghost predicate Valid()
      reads this
    {
      0 < base < top && if freep == 0 then free == map[] && live == map[] && total == 0 else Inv()
    }

    /** All blocks are memory of the process. */
    ghost predicate InMemory()
      reads this
    {
      top <= brk
    }

    constructor (b: nat, end: nat)
      requires 0 < b < end
      ensures Valid() && InMemory() && base == b && top == end && live == map[] && total == 0
    {
      base, freep, ptr, size, free, live, total, top, brk := b, 0, map[], map[], map[], map[], 0, end, end;
    }

    /** The search loop of free(): from freep round to the last free block below bp. */
    method FindGap(bp: nat) returns (p: nat)
      requires Inv() && base < bp && bp !in free
      ensures Gap(free, p, bp)
    {
      hide FreeOk, LiveOk, Within, Next, Sum;
      RingIn(free.Keys, base, ptr, freep);
      ghost var t := GapExists(free.Keys, base, bp);
      p := freep;
      while !(p < bp < ptr[p])
        invariant p in free.Keys && p in ptr
        decreases |AheadSet(free.Keys, p, t)|
      {
        GapTest(free.Keys, base, p, ptr[p], bp, t);
        if p >= ptr[p] && (bp > p || bp < ptr[p]) {
          break;
        }
        AheadStep(free.Keys, base, p, ptr[p], t);
        RingIn(free.Keys, base, ptr, p);
        p := ptr[p];
        RingIn(free.Keys, base, ptr, p);
      }
      GapTest(free.Keys, base, p, ptr[p], bp, t);
    }

    /** free(): exactly the block's units become free; everything else keeps its place. */
    method Free(bp: nat)
      requires freep != 0 && Valid() && bp in live
      modifies this`ptr, this`size, this`freep, this`free, this`live
      ensures freep != 0 && Valid() && live == old(live) - {bp}
      ensures forall u: nat {:trigger Covers(free, u)} ::
                Covers(free, u) <==> Covers(old(free), u) || bp <= u < bp + old(live)[bp]
      ensures exists a :: a in free && free[a] >= old(live)[bp]
    {
      hide FreeOk, LiveOk, Within, Headers, Sum, Covers, Put, Join, CanPut, FreedPtr, FreedSize;
      ghost var f, l, n := free, live, live[bp];
      LiveNotFree(f, l, base, bp);
      var p := FindGap(bp);
      LiveCanPut(f, l, base, p, bp);
      FreedFree(f, base, p, bp, n);
      FreedLive(f, l, base, p, bp);
      FreedWithin(f, l, base, top, p, bp);
      FreedHeaders(f, l, base, ptr, size, p, bp);
      forall u: nat ensures Covers(Join(Put(f, bp, n), p, bp), u) <==> Covers(f, u) || bp <= u < bp + n {
        PutCovers(f, bp, n, u);
        JoinCovers(Put(f, bp, n), p, bp, u);
      }
      Splice(p, bp);
      freep := p;
      free, live := Join(Put(f, bp, n), p, bp), l - {bp};
    }

    /** The pointer surgery of free(). */
    method Splice(p: nat, bp: nat)
      requires bp in live && p in free && p < bp && bp !in free && Headers(free, live, base, ptr, size)
      requires p in ptr && ptr[p] in free && ptr[p] in ptr && (bp + live[bp] == ptr[p] <==> bp + live[bp] in free)
      modifies this`ptr, this`size
      ensures ptr == FreedPtr(free, old(ptr), p, bp, live[bp]) && size == FreedSize(free, old(size), p, bp, live[bp])
    {
      hide Ring;
      var q := ptr[p];
      if bp + size[bp] == q {
        size := size[bp := size[bp] + size[q]];
        ptr := ptr[bp := ptr[q]];
      } else {
        ptr := ptr[bp := q];
      }
      if p + size[p] == bp {
        size := size[p := size[p] + size[bp]];
        ptr := ptr[p := ptr[bp]];
      } else {
        ptr := ptr[p := bp];
      }
      assert size == FreedSize(free, old(size), p, bp, live[bp]);
    }

    /** morecore(): at least 4096 units, which go through free().  `core` is what sbrk returns, 0
        when it fails; sbrk moves the break by what an int makes of the byte count, so the
        units recorded are memory of the process exactly when there are fewer than 2^27.  That
        sbrk's memory is above every block (core >= top) holds until a call wraps: what a later
        call then does is not stated. */
    method Morecore(nu: nat, core: nat) returns (p: nat)
      requires freep != 0 && Valid() && 1 <= nu && (core != 0 ==> core >= top)
      modifies this
      ensures p == 0 <==> core == 0
      ensures p == 0 ==>
                Valid() && free == old(free) && live == old(live) && total == old(total) && freep == old(freep)
                  && ptr == old(ptr)
      ensures p == 0 ==> top == old(top) && brk == old(brk)
      ensures p != 0 ==> brk == Break(core, Most(nu, 4096)) && (InMemory() <==> Most(nu, 4096) < 0x800_0000)
      ensures p != 0 ==>
                p == freep && Valid() && live == old(live) && total == old(total) + Most(nu, 4096)
                  && top == core + Most(nu, 4096)
      ensures p != 0 ==> exists a :: a in free && free[a] >= nu
      ensures forall u: nat {:trigger Covers(free, u)} ::
                Covers(free, u) <==> Covers(old(free), u) || (core != 0 && core <= u < core + Most(nu, 4096))
    {
      hide FreeOk, LiveOk, Within, Headers, Sum, Covers, Break;
      var n := Most(nu, 4096);
      if core != 0 { BreakCovers(core, n); }
      if core == 0 {
        return 0;
      }
      CoreApart(free, live, base, top, core, n);
      CoreHeaders(free, live, base, ptr, size, core, n);
      size := size[core := n];
      live, total, top, brk := live[core := n], total + n, core + n, Break(core, n);
      Free(core);
      assert live == old(live);
      p := freep;
    }

    /** The end of malloc()'s search: the last n units of block p, or all of it. */
    method Take(prevp: nat, p: nat, n: nat) returns (a: nat)
      requires freep != 0 && Valid() && prevp in free && prevp in ptr && ptr[prevp] == p && p in free
                 && 1 <= n <= free[p]
      modifies this`ptr, this`size, this`freep, this`free, this`live
      ensures freep != 0 && Valid() && a !in old(live) && live == old(live)[a := n] && a != 0
      ensures forall u: nat {:trigger Covers(free, u)} :: Covers(old(free), u) <==> Covers(free, u) || a <= u < a + n
      ensures forall u: nat {:trigger Covers(free, u)} :: !(Covers(free, u) && a <= u < a + n)
    {
      hide FreeOk, LiveOk, Within, Sum, Covers, Cut, Next, Ring, CutPtr, CutSize;
      ghost var f, l := free, live;
      CutFree(f, base, p, n);
      CutSum(f, p, n);
      CutOk(f, l, base, top, p, n);
      SumPut(l, p + f[p] - n, n);
      forall u: nat ensures Covers(f, u) <==> Covers(Cut(f, p, n), u) || p + f[p] - n <= u < p + f[p]
        ensures !(Covers(Cut(f, p, n), u) && p + f[p] - n <= u < p + f[p])
      { CutCovers(f, base, p, n, u); }
      RingIn(f.Keys, base, ptr, p);
      CutHeaders(f, l, base, ptr, size, prevp, p, n);
      a := CutOut(prevp, p, n);
      freep := prevp;
      free, live := Cut(f, p, n), l[a := n];
    }

    /** The writes of malloc() for the block it takes. */
    method CutOut(prevp: nat, p: nat, n: nat) returns (a: nat)
      requires p in free && p in size && size[p] == free[p] && n <= free[p] && prevp in ptr && p in ptr
      modifies this`ptr, this`size
      ensures a == p + free[p] - n && ptr == CutPtr(free, old(ptr), prevp, p, n)
                && size == CutSize(free, old(size), p, n)
    {
      if size[p] == n {
        ptr := ptr[prevp := ptr[p]];
        a := p;
      } else {
        size := size[p := size[p] - n];
        a := p + size[p];
        size := size[a := n];
      }
    }

    /** malloc(): a block of enough units, cut out of the free ones, or 0 when sbrk fails.  It
        calls morecore at most once.  The heap stays within the process's memory exactly if it
        does not have to call it for a request above 2^31 - 32 bytes (SbrkArgument). */
    method Malloc(nbytes: nat, core: nat) returns (a: nat, cores: nat)
      requires Valid() && (core != 0 ==> core >= top)
      modifies this
      ensures Valid() && cores <= 1
      ensures InMemory() <==> if cores == 1 && core != 0 then UnitsFor(nbytes) < 0x800_0000 else old(InMemory())
      ensures a == 0 ==> cores == 1 && core == 0 && live == old(live) && total == old(total)
      ensures a == 0 ==> forall u: nat {:trigger Covers(free, u)} :: Covers(free, u) <==> Covers(old(free), u)
      ensures a != 0 ==>
                forall u: nat {:trigger Covers(free, u)} :: (Covers(free, u) || a <= u < a + UnitsFor(nbytes)) <==>
        (Covers(old(free), u) || (cores == 1 && core <= u < core + Most(UnitsFor(nbytes), 4096)))
      ensures a != 0 ==> a !in old(live) && live == old(live)[a := UnitsFor(nbytes)]
      ensures a != 0 ==> total == old(total) + if cores == 1 then Most(UnitsFor(nbytes), 4096) else 0
    {
      hide FreeOk, LiveOk, Within, Sum, Covers, Next, Ring, Headers;
      var nunits := UnitsFor(nbytes);
      cores := 0;
      if freep == 0 {
        Init();
      }
      var prevp := freep;
      Around(free, live, base, ptr, size, freep);
      var p := ptr[prevp];
      while size[p] < nunits
        invariant freep != 0 && Valid() && prevp in free && prevp in ptr && ptr[prevp] == p && p in free && p in size
                    && size[p] == free[p]
        invariant cores <= 1 && live == old(live) && (cores == 0 ==> top == old(top) && brk == old(brk))
        invariant cores == 1 ==> (InMemory() <==> Most(nunits, 4096) < 0x800_0000)
        invariant total == old(total) + if cores == 1 then Most(nunits, 4096) else 0
        invariant forall u: nat {:trigger Covers(free, u)} :: Covers(free, u) <==>
          Covers(old(free), u) || (cores == 1 && core <= u < core + Most(nunits, 4096))
        invariant cores == 1 ==> core != 0 && exists c :: c in free && free[c] >= nunits
        invariant forall c :: c in free && free[c] >= nunits ==> Ahead(p, freep, c)
        decreases 1 - cores, |AheadSet(free.Keys, p, freep)|
      {
        if p == freep {
          assert cores == 0;
          cores := 1;
          p := Morecore(nunits, core);
          if p == 0 {
            return 0, cores;
          }
          Around(free, live, base, ptr, size, freep);
        } else {
          Onward(free, live, base, ptr, size, p, freep);
        }
        prevp := p;
        p := ptr[p];
      }
      ghost var f1 := free;
      a := Take(prevp, p, nunits);
      forall u: nat
        ensures (Covers(free, u) || a <= u < a + nunits) <==>
                  (Covers(old(free), u) || (cores == 1 && core <= u < core + Most(nunits, 4096)))
      {
        assert Covers(f1, u) <==> Covers(old(free), u) || (cores == 1 && core <= u < core + Most(nunits, 4096));
        assert Covers(f1, u) <==> Covers(free, u) || a <= u < a + nunits;
      }
    }

    /** The empty ring of the first call. */
    method Init()
      requires freep == 0 && Valid()
      modifies this`ptr, this`size, this`freep, this`free
      ensures freep != 0 && Valid() && free == map[base := 0]
      ensures forall u: nat {:trigger Covers(free, u)} :: Covers(free, u) <==> Covers(old(free), u)
    {
      hide Sum;
      ptr, size, freep := ptr[base := base], size[base := 0], base;
      free := map[base := 0];
      SumPut(map[], base, 0);
      SumNone();
      assert map[][base := 0] == free;
      assert Next(free.Keys, base, base, base);
    }
  }

  /** morecore() asks sbrk for what it will record as the block's size exactly when the request
      was at most 2^31 - 32 bytes. */
  lemma SbrkArgument(nbytes: nat)
    requires nbytes < 0x1_0000_0000
    ensures var nu := Most(UnitsFor(nbytes), 4096); ToInt(nu * 16) == nu * 16 <==> nbytes <= 0x7FFF_FFE0
    ensures nbytes <= 0x7FFF_FFE0 <==> UnitsFor(nbytes) < 0x800_0000
  {}

  /** For 2^31 - 1 bytes it asks sbrk to shrink the process. */
  lemma SbrkArgumentWraps()
    ensures ToInt(UnitsFor(0x7FFF_FFFF) * 16) == -0x7FFF_FFF0
  {}

  function Most(a: nat, b: nat): nat { if a < b then b else a }

  lemma CoreHeaders(f: Blocks, l: Blocks, base: nat, ptr: map<nat, nat>, size: map<nat, nat>, core: nat, n: nat)
    requires Headers(f, l, base, ptr, size) && core !in f
    ensures Headers(f, l[core := n], base, ptr, size[core := n])
  {
    hide Ring;
  }

  lemma CoreApart(f: Blocks, l: Blocks, base: nat, top: nat, core: nat, n: nat)
    requires FreeOk(f, base) && LiveOk(f, l, base) && Within(f, l, base, top) && core >= top && n >= 1
    ensures core !in l && core !in f && LiveOk(f, l[core := n], base) && Within(f, l[core := n], base, core + n)
    ensures Sum(l[core := n]) == Sum(l) + n && l[core := n] - {core} == l
  {
    hide Sum;
    forall b | b in l ensures b < core {}
    SumPut(l, core, n);
    assert core !in f && core !in l;
    forall b | b in l ensures Apart(b, l[b], core, n) && Apart(core, n, b, l[b]) {}
    forall c | c in f ensures Apart(core, n, c, f[c]) {}
    CutJoin(f, l, f, base, core, n, core);
    assert l[core := n] - {core} == l;
  }

  /** What malloc() writes when it takes the last n units of block p. */
  ghost function CutPtr(f: Blocks, ptr: map<nat, nat>, prevp: nat, p: nat, n: nat): map<nat, nat>
    requires p in f && p in ptr
  {
    if f[p] == n then ptr[prevp := ptr[p]] else ptr
  }

  ghost function CutSize(f: Blocks, size: map<nat, nat>, p: nat, n: nat): map<nat, nat>
    requires p in f && n <= f[p]
  {
    if f[p] == n then size else size[p := f[p] - n][p + f[p] - n := n]
  }

  lemma CutHeaders(f: Blocks, l: Blocks, base: nat, ptr: map<nat, nat>, size: map<nat, nat>, prevp: nat, p: nat, n: nat)
    requires prevp in f && prevp in ptr && ptr[prevp] == p && p in f && 1 <= n <= f[p] && p in ptr
    requires FreeOk(f, base) && LiveOk(f, l, base) && Headers(f, l, base, ptr, size)
    ensures prevp != p && base <= prevp && base < p && prevp in Cut(f, p, n)
    ensures Headers(Cut(f, p, n), l[p + f[p] - n := n], base, CutPtr(f, ptr, prevp, p, n), CutSize(f, size, p, n))
  {
    hide Next, Ring, FreeOk, LiveOk;
    var a := p + f[p] - n;
    CutShape(f, base, p, n);
    RingIn(f.Keys, base, ptr, prevp);
    RingIn(f.Keys, base, ptr, p);
    NotSelf(f.Keys, base, ptr, prevp);
    if f[p] == n {
      RingRemove(f.Keys, base, ptr, prevp);
      assert Cut(f, p, n).Keys == f.Keys - {p};
    } else {
      assert Cut(f, p, n).Keys == f.Keys;
      forall b | b in f ensures b != a { InsideNotFree(f, base, p, a, b); }
    }
    forall b | b in l ensures b != a && b != p {
      LiveNotFree(f, l, base, b);
      LiveApart(f, l, base, b, p);
      CutApart(f, p, n, b, l[b]);
    }
  }

  lemma InsideNotFree(f: Blocks, base: nat, p: nat, a: nat, b: nat)
    requires FreeOk(f, base) && p in f && p < a < p + f[p] && b in f
    ensures b != a
  {
    assert p < b ==> p + f[p] < b;
  }

  lemma NotSelf(k: set<nat>, base: nat, ptr: map<nat, nat>, a: nat)
    requires Ring(k, base, ptr) && a in k && ptr[a] != base
    ensures ptr[a] != a
  {
    assert Next(k, base, a, ptr[a]);
  }

  /** Behind freep the whole ring is ahead. */
  lemma Around(f: Blocks, l: Blocks, base: nat, ptr: map<nat, nat>, size: map<nat, nat>, t: nat)
    requires FreeOk(f, base) && Headers(f, l, base, ptr, size) && t in f
    ensures t in ptr && ptr[t] in f && ptr[t] in size && size[ptr[t]] == f[ptr[t]]
    ensures forall c :: c in f ==> Ahead(ptr[t], t, c)
  {
    RingIn(f.Keys, base, ptr, t);
    AheadAll(f.Keys, base, t, ptr[t]);
    forall c | c in f ensures Ahead(ptr[t], t, c) { assert c in AheadSet(f.Keys, ptr[t], t); }
  }

  /** One step of the search leaves only p behind. */
  lemma Onward(f: Blocks, l: Blocks, base: nat, ptr: map<nat, nat>, size: map<nat, nat>, p: nat, t: nat)
    requires Headers(f, l, base, ptr, size) && p in f && t in f && p != t
    ensures p in ptr && ptr[p] in f && ptr[p] in size && size[ptr[p]] == f[ptr[p]]
    ensures |AheadSet(f.Keys, ptr[p], t)| < |AheadSet(f.Keys, p, t)|
    ensures forall c :: c in f && c != p && Ahead(p, t, c) ==> Ahead(ptr[p], t, c)
  {
    RingIn(f.Keys, base, ptr, p);
    AheadStep(f.Keys, base, p, ptr[p], t);
    forall c | c in f && c != p && Ahead(p, t, c) ensures Ahead(ptr[p], t, c) {
      assert c in AheadSet(f.Keys, p, t) - {p};
    }
  }

  lemma LiveNotFree(f: Blocks, l: Blocks, base: nat, a: nat)
    requires LiveOk(f, l, base) && FreeOk(f, base) && a in l
    ensures a !in f && base < a && l[a] >= 1
  {
    assert a in f && a != base ==> Apart(a, l[a], a, f[a]);
  }

  /** What free() writes into the size fields. */
  ghost function FreedSize(f: Blocks, size: map<nat, nat>, p: nat, bp: nat, n: nat): map<nat, nat>
    requires p in f
  {
    var m := if bp + n in f then n + f[bp + n] else n;
    if p + f[p] == bp then size[bp := m][p := f[p] + m] else size[bp := m]
  }

  lemma FreedSizes(f: Blocks, base: nat, size: map<nat, nat>, p: nat, bp: nat, n: nat)
    requires CanPut(f, base, p, bp, n) && (forall a :: a in f ==> a in size && size[a] == f[a]) && bp !in f
    requires p in Put(f, bp, n) && bp in Put(f, bp, n) && Put(f, bp, n)[p] == f[p]
    ensures var h := Join(Put(f, bp, n), p, bp); var z := FreedSize(f, size, p, bp, n);
      forall a :: a in h ==> a in z && z[a] == h[a]
  {
    hide FreeOk, Apart;
  }

  /** A live block is one that can be freed. */
  lemma LiveCanPut(f: Blocks, l: Blocks, base: nat, p: nat, bp: nat)
    requires FreeOk(f, base) && LiveOk(f, l, base) && bp in l && Gap(f, p, bp)
    ensures CanPut(f, base, p, bp, l[bp])
  {}

  /** free() keeps the free blocks in order and accounts for every unit, ... */
  lemma FreedFree(f: Blocks, base: nat, p: nat, bp: nat, n: nat)
    requires CanPut(f, base, p, bp, n)
    ensures p in Put(f, bp, n) && bp in Put(f, bp, n) && Put(f, bp, n)[p] == f[p] && (p + f[p] == bp ==> p != base)
    ensures var h := Join(Put(f, bp, n), p, bp);
              FreeOk(h, base) && p in h && Sum(h) == Sum(f) + n && (exists a :: a in h && h[a] >= n)
  {
    hide FreeOk, Apart;
    var g := Put(f, bp, n);
    var h := Join(g, p, bp);
    PutOk(f, base, p, bp, n);
    JoinOk(g, base, p, bp);
    PutSum(f, base, p, bp, n);
    assert g[bp] >= n;
    assert if p + g[p] == bp then h[p] >= n else h[bp] >= n;
  }

  /** ... the live blocks apart, ... */
  lemma FreedLive(f: Blocks, l: Blocks, base: nat, p: nat, bp: nat)
    requires bp in l && LiveOk(f, l, base) && CanPut(f, base, p, bp, l[bp]) && p in Put(f, bp, l[bp])
               && bp in Put(f, bp, l[bp])
    ensures LiveOk(Join(Put(f, bp, l[bp]), p, bp), l - {bp}, base) && Sum(l - {bp}) + l[bp] == Sum(l)
  {
    hide FreeOk, Put, Join;
    SumLess(l, bp);
    var h := Join(Put(f, bp, l[bp]), p, bp);
    forall a | a in l - {bp} ensures forall b :: b in h && b != base ==> Apart(a, l[a], b, h[b]) {
      PutApart(f, base, p, bp, l[bp], a, l[a]);
    }
  }

  lemma FreedWithin(f: Blocks, l: Blocks, base: nat, top: nat, p: nat, bp: nat)
    requires Within(f, l, base, top) && bp in l && p in Put(f, bp, l[bp]) && bp in Put(f, bp, l[bp])
    ensures Within(Join(Put(f, bp, l[bp]), p, bp), l - {bp}, base, top)
  {}

  /** ... and the headers in agreement. */
  lemma FreedHeaders(f: Blocks, l: Blocks, base: nat, ptr: map<nat, nat>, size: map<nat, nat>, p: nat, bp: nat)
    requires bp in l && CanPut(f, base, p, bp, l[bp]) && LiveOk(f, l, base) && Headers(f, l, base, ptr, size)
               && bp !in f
    requires p in Put(f, bp, l[bp]) && bp in Put(f, bp, l[bp]) && Put(f, bp, l[bp])[p] == f[p]
               && (p + f[p] == bp ==> p != base)
    ensures base <= p && p in ptr && ptr[p] in f && ptr[p] in ptr && (bp + l[bp] == ptr[p] <==> bp + l[bp] in f)
    ensures var h := Join(Put(f, bp, l[bp]), p, bp);
      Headers(h, l - {bp}, base, FreedPtr(f, ptr, p, bp, l[bp]), FreedSize(f, size, p, bp, l[bp]))
  {
    hide Ring, Next, FreeOk, LiveOk, Apart, Put, Join, FreedPtr;
    var n := l[bp];
    RingIn(f.Keys, base, ptr, p);
    RingIn(f.Keys, base, ptr, ptr[p]);
    NextOfGap(f, base, ptr, p, bp, n);
    FreedRing(f, base, ptr, p, bp, n);
    FreedSizes(f, base, size, p, bp, n);
    forall a | a in l - {bp} ensures a != p && a != bp { LiveNotFree(f, l, base, a); }
  }

  /** free()'s two tests succeed exactly at the gap. */
  lemma GapTest(k: set<nat>, base: nat, p: nat, q: nat, bp: nat, t: nat)
    requires p in k && Next(k, base, p, q) && (forall c :: c in k ==> base <= c) && base < bp && bp !in k
    requires t in k && t < bp && forall c :: c in k ==> c <= t || bp < c
    ensures p < bp < q || (p >= q && (bp > p || bp < q)) <==> p == t
  {}
}
