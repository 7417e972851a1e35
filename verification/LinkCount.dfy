/** Link counts: link, unlink and create (kernel/sysfile.c) over directories as lists of entries
    (dirlookup and dirlink, kernel/fs.c).  System calls run one at a time. */
module LinkCount {

  datatype Kind = Free | File | Dir | Device

  /** A directory entry; inum 0 is an empty slot. */
  datatype Entry = Entry(name: string, inum: nat)

  datatype Inode = Inode(kind: Kind, nlink: nat, dir: seq<Entry>)

  const ROOT: nat := 1

  type Inodes = seq<Inode>

  // ---- counting ----------------------------------------------------------------------------------

  /** Entries of a directory that name x, other than ".". */
  function Names(es: seq<Entry>, x: nat): nat {
    if es == [] then 0
    else Names(es[..|es| - 1], x) + if es[|es| - 1].inum == x && es[|es| - 1].name != "." then 1 else 0
  }

  /** A directory counts while it is itself linked. */
  predicate Live(i: Inode) { i.kind.Dir? && i.nlink > 0 }

  function Share(i: Inode, x: nat): nat { if Live(i) then Names(i.dir, x) else 0 }

  /** Entries that name x in the linked directories among the first n inodes. */
  function Count(ino: Inodes, n: nat, x: nat): nat
    requires n <= |ino|
  {
    if n == 0 then 0 else Count(ino, n - 1, x) + Share(ino[n - 1], x)
  }

  lemma {:induction false} CountSame(a: Inodes, b: Inodes, n: nat, x: nat)
    requires n <= |a| && n <= |b| && forall d :: 0 <= d < n ==> Share(a[d], x) == Share(b[d], x)
    ensures Count(a, n, x) == Count(b, n, x)
  {
    if n > 0 { CountSame(a, b, n - 1, x); }
  }

  lemma {:induction false} CountSet(a: Inodes, d: nat, i: Inode, n: nat, x: nat)
    requires d < |a| && n <= |a|
    ensures Count(a[d := i], n, x) == if d < n then Count(a, n, x) - Share(a[d], x) + Share(i, x) else Count(a, n, x)
    ensures d < n ==> Count(a, n, x) >= Share(a[d], x)
  {
    if n > 0 {
      CountSet(a, d, i, n - 1, x);
      if n - 1 == d { CountSame(a[d := i], a, n - 1, x); }
    }
  }

  lemma {:induction false} NamesSet(es: seq<Entry>, k: nat, e: Entry, x: nat)
    requires k < |es|
    ensures Names(es[k := e], x) + One(es[k], x) == Names(es, x) + One(e, x)
  {
    var last := |es| - 1;
    if k == last {
      assert es[k := e][..last] == es[..last];
    } else {
      assert es[k := e][..last] == es[..last][k := e];
      NamesSet(es[..last], k, e, x);
    }
  }

  function One(e: Entry, x: nat): nat { if e.inum == x && e.name != "." then 1 else 0 }

  lemma NamesAdd(es: seq<Entry>, e: Entry, x: nat)
    ensures Names(es + [e], x) == Names(es, x) + One(e, x)
  {
    assert (es + [e])[..|es|] == es;
  }

  lemma {:induction false} NamesNone(es: seq<Entry>, x: nat)
    requires forall k :: 0 <= k < |es| ==> One(es[k], x) == 0
    ensures Names(es, x) == 0
  {
    if es != [] { NamesNone(es[..|es| - 1], x); }
  }

  lemma {:induction false} NamesOne(es: seq<Entry>, k: nat, x: nat)
    requires k < |es| && One(es[k], x) == 1 && forall j :: 0 <= j < |es| && j != k ==> One(es[j], x) == 0
    ensures Names(es, x) == 1
  {
    var last := |es| - 1;
    if k == last { NamesNone(es[..last], x); } else { NamesOne(es[..last], k, x); }
  }

  // ---- the invariant -----------------------------------------------------------------------------

  /** A directory starts with "." and "..", and no other entry has these names. */
  ghost predicate Shape(ino: Inodes, d: nat)
    requires d < |ino|
  {
    var i := ino[d];
    && (d == 0 ==> i.kind.Free?) && (i.kind.Free? ==> i.nlink == 0)
    && (!i.kind.Dir? ==> i.dir == [])
    && (i.kind.Dir? ==>
          && |i.dir| >= 2 && i.dir[0] == Entry(".", d) && i.dir[1].name == ".." && 0 < i.dir[1].inum < |ino|
          && (forall k ::
             2 <= k < |i.dir| ==>
               i.dir[k].inum < |ino| && (i.dir[k].inum != 0 ==> i.dir[k].name != "." && i.dir[k].name != "..")))
  }

  /** An unlinked directory has no entries left; a linked one other than the root is named by an
      entry of its parent. */
  ghost predicate Placed(ino: Inodes, d: nat)
    requires d < |ino|
  {
    var i := ino[d];
    i.kind.Dir? && |i.dir| >= 2 ==>
      && (i.nlink == 0 ==> forall k :: 2 <= k < |i.dir| ==> i.dir[k].inum == 0)
      && (i.nlink > 0 && d != ROOT ==> i.dir[1].inum < |ino| && i.dir[1].inum != d && NamedIn(ino[i.dir[1].inum], d))
      && (d == ROOT ==> i.dir[1].inum == ROOT)
  }

  ghost predicate NamedIn(p: Inode, d: nat) {
    Live(p) && exists k :: 2 <= k < |p.dir| && p.dir[k].inum == d
  }

  /** Entry k of directory d, if it names a directory, is the only one that does, and sits in the
      directory that the named one's ".." points to. */
  ghost predicate Sole(ino: Inodes, d: nat, k: nat)
    requires d < |ino|
  {
    var i := ino[d];
    Live(i) && 2 <= k < |i.dir| && 0 < i.dir[k].inum < |ino| ==>
      var x := ino[i.dir[k].inum];
      && !x.kind.Free? && i.dir[k].inum != ROOT
      && (x.kind.Dir? && |x.dir| >= 2 ==>
            && x.dir[1].inum == d && x.nlink > 0
            && forall j :: 2 <= j < |i.dir| && j != k ==> i.dir[j].inum != i.dir[k].inum)
  }

  ghost predicate Counted(ino: Inodes, x: nat)
    requires x < |ino|
  {
    x > 0 ==> ino[x].nlink == Count(ino, |ino|, x)
  }

  /** Every link count is the number of entries that name the inode. */
  ghost predicate AllCounted(ino: Inodes) {
    forall x {:trigger Counted(ino, x)} :: 0 <= x < |ino| ==> Counted(ino, x)
  }

  ghost predicate Inv(ino: Inodes) {
    && |ino| > ROOT && Live(ino[ROOT])
    && (forall d {:trigger Shape(ino, d)} :: 0 <= d < |ino| ==> Shape(ino, d))
    && (forall d {:trigger Placed(ino, d)} :: 0 <= d < |ino| ==> Placed(ino, d))
    && (forall d, k {:trigger Sole(ino, d, k)} :: 0 <= d < |ino| && 0 <= k ==> Sole(ino, d, k))
    && AllCounted(ino)
  }

  lemma {:induction false} NamesPos(es: seq<Entry>, k: nat, x: nat)
    requires k < |es| && One(es[k], x) == 1
    ensures Names(es, x) >= 1
  {
    var last := |es| - 1;
    if k < last { NamesPos(es[..last], k, x); }
  }

  lemma CountAtLeast(ino: Inodes, a: nat, x: nat)
    requires a < |ino|
    ensures Count(ino, |ino|, x) >= Share(ino[a], x)
  {
    CountSet(ino, a, ino[a], |ino|, x);
  }

  lemma CountTwo(ino: Inodes, a: nat, b: nat, x: nat)
    requires a < |ino| && b < |ino| && a != b
    ensures Count(ino, |ino|, x) >= Share(ino[a], x) + Share(ino[b], x)
  {
    var e := Inode(Free, 0, []);
    CountSet(ino, a, e, |ino|, x);
    CountAtLeast(ino[a := e], b, x);
  }

  /** Two inodes replaced. */
  lemma CountBoth(ino: Inodes, a: nat, i: Inode, b: nat, j: Inode, x: nat)
    requires a < |ino| && b < |ino| && a != b
    ensures Count(ino[a := i][b := j], |ino|, x) == Count(ino, |ino|, x) - Share(ino[a], x) - Share(ino[b], x)
              + Share(i, x) + Share(j, x)
  {
    CountSet(ino, a, i, |ino|, x);
    CountSet(ino[a := i], b, j, |ino|, x);
    CountTwo(ino, a, b, x);
  }

  /** All that names x is one entry of directory p. */
  lemma {:induction false} CountOne(ino: Inodes, n: nat, p: nat, x: nat)
    requires n <= |ino| && forall d :: 0 <= d < n ==> Share(ino[d], x) == if d == p then 1 else 0
    ensures Count(ino, n, x) == if p < n then 1 else 0
  {
    if n > 0 { CountOne(ino, n - 1, p, x); }
  }

  // ---- dirlink() on values -----------------------------------------------------------------------

  function PutEntry(i: Inode, k: nat, e: Entry): Inode
    requires k <= |i.dir|
  {
    i.(dir := if k < |i.dir| then i.dir[k := e] else i.dir + [e])
  }

  /** Slot k of a directory can take a new entry. */
  predicate OpenSlot(i: Inode, k: nat) { 2 <= k <= |i.dir| && (k < |i.dir| ==> i.dir[k].inum == 0) }

  lemma PutEntryNames(i: Inode, k: nat, e: Entry, x: nat)
    requires OpenSlot(i, k) && x > 0
    ensures Names(PutEntry(i, k, e).dir, x) == Names(i.dir, x) + One(e, x)
  {
    if k < |i.dir| { NamesSet(i.dir, k, e, x); } else { NamesAdd(i.dir, e, x); }
  }

  // ---- sys_link() --------------------------------------------------------------------------------

  function Linked(ino: Inodes, ip: nat, dp: nat, k: nat, name: string): Inodes
    requires ip < |ino| && dp < |ino| && ip != dp && k <= |ino[dp].dir|
  {
    ino[ip := ino[ip].(nlink := ino[ip].nlink + 1)][dp := PutEntry(ino[dp], k, Entry(name, ip))]
  }

  /** File ip can get a new name in slot k of directory dp. */
  ghost predicate CanName(ino: Inodes, ip: nat, dp: nat, k: nat, name: string) {
    && 0 < ip < |ino| && dp < |ino| && ip != dp && (ino[ip].kind.File? || ino[ip].kind.Device?) && ino[dp].kind.Dir?
    && OpenSlot(ino[dp], k) && name != "." && name != ".."
  }

  ghost predicate CanLink(ino: Inodes, ip: nat, dp: nat, k: nat, name: string) {
    CanName(ino, ip, dp, k, name) && Live(ino[dp])
  }

  lemma LinkKeeps(ino: Inodes, ip: nat, dp: nat, k: nat, name: string)
    requires Inv(ino) && CanLink(ino, ip, dp, k, name)
    ensures Inv(Linked(ino, ip, dp, k, name))
  {
    var r := Linked(ino, ip, dp, k, name);
    assert Shape(ino, dp) && Shape(ino, ip);
    forall d | 0 <= d < |r| ensures Shape(r, d) { assert Shape(ino, d); }
    forall d | 0 <= d < |r|
      ensures Placed(r, d)
    {
      assert Placed(ino, d) && Shape(ino, d);
      LinkPlaced(ino, ip, dp, k, name, d);
    }
    forall d, j | 0 <= d < |r| && 0 <= j
      ensures Sole(r, d, j)
    {
      assert Sole(ino, d, j) && Shape(ino, d);
      LinkSole(ino, ip, dp, k, name, d, j);
    }
    forall x | 0 <= x < |r| ensures Counted(r, x) { assert Counted(ino, x); LinkCounted(ino, ip, dp, k, name, x); }
  }

  /** A new name in a directory that has itself been unlinked is not counted: the file has one link
      more than entries. */
  lemma LinkBreaks(ino: Inodes, ip: nat, dp: nat, k: nat, name: string)
    requires Inv(ino) && CanName(ino, ip, dp, k, name) && !Live(ino[dp])
    ensures !Counted(Linked(ino, ip, dp, k, name), ip)
  {
    var r := Linked(ino, ip, dp, k, name);
    CountBoth(ino, ip, r[ip], dp, r[dp], ip);
    assert Counted(ino, ip);
  }

  lemma NamedStays(p: Inode, k: nat, e: Entry, d: nat)
    requires NamedIn(p, d) && OpenSlot(p, k) && d > 0
    ensures NamedIn(PutEntry(p, k, e), d)
  {
    var j :| 2 <= j < |p.dir| && p.dir[j].inum == d;
    assert PutEntry(p, k, e).dir[j] == p.dir[j];
  }

  lemma LinkPlaced(ino: Inodes, ip: nat, dp: nat, k: nat, name: string, d: nat)
    requires CanLink(ino, ip, dp, k, name) && d < |ino| && Shape(ino, d) && Placed(ino, d)
    ensures Placed(Linked(ino, ip, dp, k, name), d)
  {
    if Live(ino[d]) && d != ROOT && ino[d].dir[1].inum == dp && NamedIn(ino[dp], d) {
      NamedStays(ino[dp], k, Entry(name, ip), d);
    }
  }

  lemma LinkSole(ino: Inodes, ip: nat, dp: nat, k: nat, name: string, d: nat, j: nat)
    requires CanLink(ino, ip, dp, k, name) && d < |ino| && Shape(ino, d) && Sole(ino, d, j) && ROOT < |ino|
               && Live(ino[ROOT])
    ensures Sole(Linked(ino, ip, dp, k, name), d, j)
  {}

  lemma LinkCounted(ino: Inodes, ip: nat, dp: nat, k: nat, name: string, x: nat)
    requires CanLink(ino, ip, dp, k, name) && x < |ino| && Counted(ino, x)
    ensures Counted(Linked(ino, ip, dp, k, name), x)
  {
    if x > 0 {
      PutEntryNames(ino[dp], k, Entry(name, ip), x);
      CountBoth(ino, ip, ino[ip].(nlink := ino[ip].nlink + 1), dp, PutEntry(ino[dp], k, Entry(name, ip)), x);
    }
  }

  // ---- create() ----------------------------------------------------------------------------------

  function Dots(ip: nat, dp: nat): seq<Entry> { [Entry(".", ip), Entry("..", dp)] }

  function Created(ino: Inodes, ip: nat, dp: nat, k: nat, name: string, kind: Kind): Inodes
    requires ip < |ino| && dp < |ino| && ip != dp && k <= |ino[dp].dir|
  {
    var p := PutEntry(ino[dp], k, Entry(name, ip));
    ino[ip := Inode(kind, 1, if kind.Dir? then Dots(ip, dp) else [])]
       [dp := p.(nlink := if kind.Dir? then p.nlink + 1 else p.nlink)]
  }

  /** Free inode ip can be created in slot k of directory dp. */
  ghost predicate CanMake(ino: Inodes, ip: nat, dp: nat, k: nat, name: string, kind: Kind) {
    && 0 < ip < |ino| && 0 < dp < |ino| && ip != dp && ino[ip].kind.Free? && ino[dp].kind.Dir? && OpenSlot(ino[dp], k)
    && name != "." && name != ".." && !kind.Free?
  }

  ghost predicate CanCreate(ino: Inodes, ip: nat, dp: nat, k: nat, name: string, kind: Kind) {
    CanMake(ino, ip, dp, k, name, kind) && Live(ino[dp])
  }

  lemma CreateKeeps(ino: Inodes, ip: nat, dp: nat, k: nat, name: string, kind: Kind)
    requires Inv(ino) && CanCreate(ino, ip, dp, k, name, kind)
    ensures Inv(Created(ino, ip, dp, k, name, kind))
  {
    var r := Created(ino, ip, dp, k, name, kind);
    assert Shape(ino, dp) && Shape(ino, ip) && Counted(ino, ip);
    forall d | 0 <= d < |r| ensures Shape(r, d) { assert Shape(ino, d); }
    forall d | 0 <= d < |r|
      ensures Placed(r, d)
    {
      assert Placed(ino, d) && Shape(ino, d);
      CreatePlaced(ino, ip, dp, k, name, kind, d);
    }
    forall d, j | 0 <= d < |r| && 0 <= j ensures Sole(r, d, j) {
      assert Sole(ino, d, j) && Shape(ino, d) && Counted(ino, ip);
      CreateSole(ino, ip, dp, k, name, kind, d, j);
    }
    forall x | 0 <= x < |r|
      ensures Counted(r, x)
    {
      assert Counted(ino, x);
      CreateCounted(ino, ip, dp, k, name, kind, x);
    }
  }

  /** The inode whose count create() gets wrong in an unlinked directory: the new file, or for a new
      directory what the parent's ".." names, since the parent's extra link makes it count again. */
  function Miscounted(ino: Inodes, ip: nat, dp: nat, kind: Kind): nat
    requires dp < |ino| && (kind.Dir? ==> |ino[dp].dir| >= 2)
  {
    if kind.Dir? then ino[dp].dir[1].inum else ip
  }

  lemma CreateBreaks(ino: Inodes, ip: nat, dp: nat, k: nat, name: string, kind: Kind)
    requires Inv(ino) && CanMake(ino, ip, dp, k, name, kind) && !Live(ino[dp])
    ensures |ino[dp].dir| >= 2 && Miscounted(ino, ip, dp, kind) < |ino|
    ensures !Counted(Created(ino, ip, dp, k, name, kind), Miscounted(ino, ip, dp, kind))
  {
    var r, x := Created(ino, ip, dp, k, name, kind), ip;
    assert Shape(ino, ip) && Shape(ino, dp);
    if kind.Dir? {
      x := ino[dp].dir[1].inum;
      PutEntryNames(ino[dp], k, Entry(name, ip), x);
      DotsNames(ip, dp, x);
      NamesPos(ino[dp].dir, 1, x);
    }
    assert Counted(ino, x);
    CountBoth(ino, ip, r[ip], dp, r[dp], x);
  }

  lemma CreatePlaced(ino: Inodes, ip: nat, dp: nat, k: nat, name: string, kind: Kind, d: nat)
    requires CanCreate(ino, ip, dp, k, name, kind) && d < |ino| && Shape(ino, d) && Placed(ino, d) && Live(ino[ROOT])
    ensures Placed(Created(ino, ip, dp, k, name, kind), d)
  {
    var e := Entry(name, ip);
    if d == ip {
      assert PutEntry(ino[dp], k, e).dir[k] == e;
    } else if Live(ino[d]) && d != ROOT && ino[d].dir[1].inum == dp {
      NamedStays(ino[dp], k, e, d);
    }
  }

  /** Nothing names a free inode. */
  lemma Unnamed(ino: Inodes, d: nat, j: nat, x: nat)
    requires x < |ino| && d < |ino| && Counted(ino, x) && x > 0 && ino[x].nlink == 0 && Live(ino[d])
    requires j < |ino[d].dir| && ino[d].dir[j].name != "."
    ensures ino[d].dir[j].inum != x
  {
    CountAtLeast(ino, d, x);
    if One(ino[d].dir[j], x) == 1 { NamesPos(ino[d].dir, j, x); }
  }

  lemma CreateSole(ino: Inodes, ip: nat, dp: nat, k: nat, name: string, kind: Kind, d: nat, j: nat)
    requires CanCreate(ino, ip, dp, k, name, kind) && d < |ino| && Shape(ino, d) && Sole(ino, d, j)
    requires Counted(ino, ip) && Shape(ino, ip) && ROOT < |ino| && Live(ino[ROOT])
    ensures Sole(Created(ino, ip, dp, k, name, kind), d, j)
  {
    var r := Created(ino, ip, dp, k, name, kind);
    if Live(ino[d]) {
      forall l | 2 <= l < |ino[d].dir| ensures ino[d].dir[l].inum != ip {
        if ino[d].dir[l].inum != 0 { Unnamed(ino, d, l, ip); }
      }
    }
  }

  lemma CreateCounted(ino: Inodes, ip: nat, dp: nat, k: nat, name: string, kind: Kind, x: nat)
    requires CanCreate(ino, ip, dp, k, name, kind) && x < |ino| && Counted(ino, x) && Shape(ino, ip)
    ensures Counted(Created(ino, ip, dp, k, name, kind), x)
  {
    if x > 0 {
      var p := PutEntry(ino[dp], k, Entry(name, ip));
      PutEntryNames(ino[dp], k, Entry(name, ip), x);
      DotsNames(ip, dp, x);
      CountBoth(ino, ip, Inode(kind, 1, if kind.Dir? then Dots(ip, dp) else []), dp,
        p.(nlink := if kind.Dir? then p.nlink + 1 else p.nlink), x);
    }
  }

  lemma DotsNames(ip: nat, dp: nat, x: nat)
    ensures Names(Dots(ip, dp), x) == if x == dp then 1 else 0
  {
    var a, b := Entry(".", ip), Entry("..", dp);
    assert Dots(ip, dp) == [] + [a] + [b];
    NamesAdd([], a, x);
    NamesAdd([] + [a], b, x);
    assert |".."| != |"."|;
  }

  // ---- iput() of an unlinked inode ---------------------------------------------------------------

  function Freed(ino: Inodes, x: nat): Inodes
    requires x < |ino|
  {
    ino[x := Inode(Free, 0, [])]
  }

  lemma FreeKeeps(ino: Inodes, x: nat)
    requires Inv(ino) && 0 < x < |ino| && ino[x].nlink == 0
    ensures Inv(Freed(ino, x))
  {
    var r := Freed(ino, x);
    assert Counted(ino, x) && Shape(ino, x);
    forall d | 0 <= d < |r| ensures Shape(r, d) { assert Shape(ino, d); }
    forall d | 0 <= d < |r| ensures Placed(r, d) { assert Placed(ino, d) && Shape(ino, d); }
    forall d, j | 0 <= d < |r| && 0 <= j ensures Sole(r, d, j) {
      assert Sole(ino, d, j) && Shape(ino, d);
      if Live(ino[d]) && 2 <= j < |ino[d].dir| && ino[d].dir[j].inum != 0 { Unnamed(ino, d, j, x); }
    }
    forall y | 0 <= y < |r| ensures Counted(r, y) { assert Counted(ino, y); CountSet(ino, x, r[x], |ino|, y); }
  }

  // ---- sys_unlink() ------------------------------------------------------------------------------

  /** Entry k of dp erased; dp loses the ".." of a directory, and the named inode a link. */
  function Unlinked(ino: Inodes, dp: nat, k: nat): Inodes
    requires dp < |ino| && k < |ino[dp].dir| && 0 < ino[dp].dir[k].inum < |ino| && ino[dp].dir[k].inum != dp
    requires ino[ino[dp].dir[k].inum].nlink > 0 && ino[dp].nlink > 0
  {
    var ip := ino[dp].dir[k].inum;
    var p := ino[dp].(dir := ino[dp].dir[k := Entry("", 0)]);
    ino[ip := ino[ip].(nlink := ino[ip].nlink - 1)]
       [dp := p.(nlink := if ino[ip].kind.Dir? then p.nlink - 1 else p.nlink)]
  }

  predicate Empty(i: Inode) { forall k :: 2 <= k < |i.dir| ==> i.dir[k].inum == 0 }

  ghost predicate CanUnlink(ino: Inodes, dp: nat, k: nat) {
    && dp < |ino| && Live(ino[dp]) && 2 <= k < |ino[dp].dir| && 0 < ino[dp].dir[k].inum < |ino|
    && (ino[ino[dp].dir[k].inum].kind.Dir? ==> Empty(ino[ino[dp].dir[k].inum]))
  }

  /** What an entry of a linked directory names is linked, and is not that directory. */
  lemma Named(ino: Inodes, dp: nat, k: nat)
    requires Inv(ino) && dp < |ino| && Live(ino[dp]) && 2 <= k < |ino[dp].dir| && 0 < ino[dp].dir[k].inum < |ino|
    ensures var ip := ino[dp].dir[k].inum; ino[ip].nlink > 0 && ip != dp && !ino[ip].kind.Free? && ip != ROOT
    ensures var ip := ino[dp].dir[k].inum; ino[ip].kind.Dir? ==> |ino[ip].dir| >= 2 && ino[ip].dir[1].inum == dp
  {
    var ip := ino[dp].dir[k].inum;
    assert Shape(ino, dp) && Shape(ino, ip) && Counted(ino, ip) && Sole(ino, dp, k) && Placed(ino, ip);
    assert Placed(ino, dp) && Placed(ino, ROOT) && Shape(ino, ROOT);
    NamesPos(ino[dp].dir, k, ip);
    CountAtLeast(ino, dp, ip);
  }

  /** Only its parent names an empty directory, and only once. */
  lemma EmptyShare(ino: Inodes, dp: nat, k: nat, d: nat)
    requires Inv(ino) && CanUnlink(ino, dp, k) && ino[ino[dp].dir[k].inum].kind.Dir? && d < |ino|
    ensures var ip := ino[dp].dir[k].inum; Share(ino[d], ip) == if d == dp then 1 else 0
  {
    var ip := ino[dp].dir[k].inum;
    Named(ino, dp, k);
    assert Shape(ino, d) && Shape(ino, dp) && Shape(ino, ip) && Placed(ino, d) && Sole(ino, dp, k);
    if Live(ino[d]) {
      forall j | 0 <= j < |ino[d].dir| && !(d == dp && j == k)
        ensures One(ino[d].dir[j], ip) == 0
      {
        EmptyEntry(ino, dp, k, d, j);
      }
      if d == dp { NamesOne(ino[d].dir, k, ip); } else { NamesNone(ino[d].dir, ip); }
    }
  }

  lemma EmptyEntry(ino: Inodes, dp: nat, k: nat, d: nat, j: nat)
    requires Inv(ino) && CanUnlink(ino, dp, k) && ino[ino[dp].dir[k].inum].kind.Dir? && d < |ino| && Live(ino[d])
    requires j < |ino[d].dir| && !(d == dp && j == k)
    ensures One(ino[d].dir[j], ino[dp].dir[k].inum) == 0
  {
    var ip := ino[dp].dir[k].inum;
    Named(ino, dp, k);
    assert Shape(ino, d) && Placed(ino, d) && Sole(ino, dp, k) && Sole(ino, d, j);
  }

  /** An empty directory that is unlinked had one link, and its parent keeps one. */
  lemma EmptyLinks(ino: Inodes, dp: nat, k: nat)
    requires Inv(ino) && CanUnlink(ino, dp, k) && ino[ino[dp].dir[k].inum].kind.Dir?
    ensures ino[ino[dp].dir[k].inum].nlink == 1 && ino[dp].nlink >= 2
  {
    var ip := ino[dp].dir[k].inum;
    Named(ino, dp, k);
    assert Counted(ino, ip) && Counted(ino, dp) && Shape(ino, ip) && Shape(ino, dp) && Placed(ino, dp);
    forall d | 0 <= d < |ino| ensures Share(ino[d], ip) == if d == dp then 1 else 0 { EmptyShare(ino, dp, k, d); }
    CountOne(ino, |ino|, dp, ip);
    var pp := ino[dp].dir[1].inum;
    NamesPos(ino[ip].dir, 1, dp);
    ParentNames(ino, dp);
    CountTwo(ino, ip, pp, dp);
  }

  /** Every linked directory is named in the directory its ".." points to. */
  lemma ParentNames(ino: Inodes, d: nat)
    requires Inv(ino) && d < |ino| && Live(ino[d])
    ensures |ino[d].dir| >= 2 && ino[d].dir[1].inum < |ino| && Share(ino[ino[d].dir[1].inum], d) >= 1
    ensures d != ROOT ==> !Empty(ino[ino[d].dir[1].inum])
    ensures d == ROOT ==> ino[d].dir[1].inum == ROOT
  {
    assert Shape(ino, d) && Placed(ino, d);
    var pp := ino[d].dir[1].inum;
    if d == ROOT {
      NamesPos(ino[d].dir, 1, d);
    } else {
      assert Shape(ino, pp);
      var l :| 2 <= l < |ino[pp].dir| && ino[pp].dir[l].inum == d;
      NamesPos(ino[pp].dir, l, d);
    }
  }

  lemma UnlinkKeeps(ino: Inodes, dp: nat, k: nat)
    requires Inv(ino) && CanUnlink(ino, dp, k)
    ensures var ip := ino[dp].dir[k].inum; ip != dp && ino[ip].nlink > 0 && Inv(Unlinked(ino, dp, k))
  {
    var ip := ino[dp].dir[k].inum;
    Named(ino, dp, k);
    if ino[ip].kind.Dir? { EmptyLinks(ino, dp, k); }
    var r := Unlinked(ino, dp, k);
    assert Shape(ino, dp) && Shape(ino, ip) && Sole(ino, dp, k);
    forall d | 0 <= d < |r| ensures Shape(r, d) { assert Shape(ino, d); }
    forall d | 0 <= d < |r|
      ensures Placed(r, d)
    {
      assert Placed(ino, d) && Shape(ino, d);
      UnlinkPlaced(ino, dp, k, d);
    }
    forall d, j | 0 <= d < |r| && 0 <= j
      ensures Sole(r, d, j)
    {
      assert Sole(ino, d, j) && Shape(ino, d);
      UnlinkSole(ino, dp, k, d, j);
    }
    forall x | 0 <= x < |r| ensures Counted(r, x) { assert Counted(ino, x); UnlinkCounted(ino, dp, k, x); }
  }

  /** The facts about the two inodes that the cases below use. */
  ghost predicate Ready(ino: Inodes, dp: nat, k: nat) {
    && CanUnlink(ino, dp, k)
    && var ip := ino[dp].dir[k].inum;
      && ip != dp && ip != ROOT && ino[ip].nlink > 0 && Shape(ino, dp) && Shape(ino, ip) && Sole(ino, dp, k)
      && (ino[ip].kind.Dir? ==> ino[ip].nlink == 1 && ino[dp].nlink >= 2 && ino[ip].dir[1].inum == dp)
  }

  lemma UnlinkPlaced(ino: Inodes, dp: nat, k: nat, d: nat)
    requires Ready(ino, dp, k) && d < |ino| && Shape(ino, d) && Placed(ino, d)
    ensures Placed(Unlinked(ino, dp, k), d)
  {
    var ip := ino[dp].dir[k].inum;
    var r := Unlinked(ino, dp, k);
    if Live(ino[d]) && d != ROOT && d != ip {
      var pp := ino[d].dir[1].inum;
      var l :| 2 <= l < |ino[pp].dir| && ino[pp].dir[l].inum == d;
      assert r[pp].dir[l] == ino[pp].dir[l];
    }
  }

  lemma UnlinkSole(ino: Inodes, dp: nat, k: nat, d: nat, j: nat)
    requires Ready(ino, dp, k) && d < |ino| && Shape(ino, d) && Sole(ino, d, j)
    ensures Sole(Unlinked(ino, dp, k), d, j)
  {}

  lemma UnlinkCounted(ino: Inodes, dp: nat, k: nat, x: nat)
    requires Ready(ino, dp, k) && x < |ino| && Counted(ino, x)
    ensures Counted(Unlinked(ino, dp, k), x)
  {
    var ip := ino[dp].dir[k].inum;
    var r := Unlinked(ino, dp, k);
    if x > 0 {
      NamesSet(ino[dp].dir, k, Entry("", 0), x);
      if ino[ip].kind.Dir? { EmptyNames(ino, ip, x); }
      CountBoth(ino, ip, r[ip], dp, r[dp], x);
    }
  }

  /** An empty directory names only its parent. */
  lemma EmptyNames(ino: Inodes, d: nat, x: nat)
    requires d < |ino| && Shape(ino, d) && ino[d].kind.Dir? && Empty(ino[d]) && x > 0
    ensures Names(ino[d].dir, x) == if x == ino[d].dir[1].inum then 1 else 0
  {
    if x == ino[d].dir[1].inum { NamesOne(ino[d].dir, 1, x); } else { NamesNone(ino[d].dir, x); }
  }

  // ---- the program -------------------------------------------------------------------------------

  datatype Outcome = Done | Fails | Panic

  class FileTree {
    var ino: Inodes

    ghost predicate Valid()
      reads this
    {
      Inv(ino)
    }

    /** What mkfs leaves: the root, which names itself twice, and files in it. */
    constructor (n: nat, files: seq<string>)
      requires n >= |files| + 2 && forall k :: 0 <= k < |files| ==> files[k] != "." && files[k] != ".."
      ensures Valid() && |ino| == n && |ino[ROOT].dir| == 2 + |files|
      ensures forall k {:trigger files[k]} :: 0 <= k < |files| ==> InRoot(ino, k, files[k])
      ensures forall d :: 2 + |files| <= d < n ==> ino[d].kind.Free?
    {
      ino := seq(n, d => if d == ROOT then Inode(Dir, 1, Dots(ROOT, ROOT)) else Inode(Free, 0, []));
      new;
      RootInv(ino);
      var k := 0;
      while k < |files|
        invariant k <= |files| && Valid() && |ino| == n && Live(ino[ROOT]) && OpenSlot(ino[ROOT], 2 + k)
                    && |ino[ROOT].dir| == 2 + k
        invariant forall d :: 2 + k <= d < n ==> ino[d].kind.Free?
        invariant forall j {:trigger files[j]} :: 0 <= j < k ==> InRoot(ino, j, files[j])
      {
        CreateKeeps(ino, 2 + k, ROOT, 2 + k, files[k], File);
        ino := Created(ino, 2 + k, ROOT, 2 + k, files[k], File);
        k := k + 1;
      }
    }

    /** dirlookup(): the slot of the first entry with that name, or the number of slots. */
    method DirLookup(dp: nat, name: string) returns (k: nat)
      requires dp < |ino|
      ensures k <= |ino[dp].dir|
      ensures k < |ino[dp].dir| ==> ino[dp].dir[k].inum != 0 && ino[dp].dir[k].name == name
      ensures forall j :: 0 <= j < k ==> ino[dp].dir[j].inum == 0 || ino[dp].dir[j].name != name
    {
      k := 0;
      while k < |ino[dp].dir|
        invariant k <= |ino[dp].dir| && forall j ::
                    0 <= j < k ==> ino[dp].dir[j].inum == 0 || ino[dp].dir[j].name != name
      {
        if ino[dp].dir[k].inum != 0 && ino[dp].dir[k].name == name {
          return;
        }
        k := k + 1;
      }
    }

    /** The search of dirlink(): the first empty slot, or the end. */
    method FindSlot(dp: nat) returns (k: nat)
      requires dp < |ino|
      ensures k <= |ino[dp].dir| && (k < |ino[dp].dir| ==> ino[dp].dir[k].inum == 0)
      ensures forall j :: 0 <= j < k ==> ino[dp].dir[j].inum != 0
    {
      k := 0;
      while k < |ino[dp].dir| && ino[dp].dir[k].inum != 0
        invariant k <= |ino[dp].dir| && forall j :: 0 <= j < k ==> ino[dp].dir[j].inum != 0
      {
        k := k + 1;
      }
    }

    /** isdirempty() */
    method IsDirEmpty(dp: nat) returns (b: bool)
      requires dp < |ino| && |ino[dp].dir| >= 2
      ensures b <==> Empty(ino[dp])
    {
      var off := 2;
      while off < |ino[dp].dir|
        invariant 2 <= off <= |ino[dp].dir| && forall j :: 2 <= j < off ==> ino[dp].dir[j].inum == 0
      {
        if ino[dp].dir[off].inum != 0 {
          return false;
        }
        off := off + 1;
      }
      b := true;
    }

    /** sys_link() once namei(old) has found ip; `parent` is nameiparent(new), 0 when it fails.  The
        counts stay right exactly when the new name does not go into a directory that has
        itself been unlinked. */
    method Link(ip: nat, parent: nat, name: string) returns (r: Outcome)
      requires Valid() && 0 < ip < |ino| && !ino[ip].kind.Free? && parent < |ino|
                 && (parent != 0 ==> ino[parent].kind.Dir?)
      modifies this
      ensures !r.Panic? && (AllCounted(ino) <==> r.Fails? || Live(old(ino)[parent])) && (Valid() <==> AllCounted(ino))
      ensures r.Fails? ==> ino == old(ino)
      ensures r.Fails? <==> || parent == 0 || old(ino)[ip].kind.Dir?
                            || exists k: nat :: k < |old(ino)[parent].dir| && Hit(old(ino)[parent].dir[k], name)
      ensures r.Done? ==>
                exists k: nat :: CanName(old(ino), ip, parent, k, name) && ino == Linked(old(ino), ip, parent, k, name)
    {
      if ino[ip].kind.Dir? {
        return Fails;
      }
      ino := ino[ip := ino[ip].(nlink := ino[ip].nlink + 1)];
      if parent != 0 {
        var at := DirLookup(parent, name);
        if at == |ino[parent].dir| {
          var k := FindSlot(parent);
          NewName(old(ino), parent, name, at, k);
          if Live(old(ino)[parent]) {
            LinkKeeps(old(ino), ip, parent, k, name);
          } else {
            LinkBreaks(old(ino), ip, parent, k, name);
          }
          ino := ino[parent := PutEntry(ino[parent], k, Entry(name, ip))];
          return Done;
        }
      }
      // bad:
      ino := ino[ip := ino[ip].(nlink := ino[ip].nlink - 1)];
      assert ino == old(ino);
      r := Fails;
    }

    /** sys_unlink() in directory dp; `last` says that nobody else holds the inode, so that iput()
        frees it.  The panic on a missing link cannot happen. */
    method Unlink(dp: nat, name: string, last: bool) returns (r: Outcome)
      requires Valid() && dp < |ino| && ino[dp].kind.Dir?
      modifies this
      ensures Valid() && !r.Panic?
      ensures r.Fails? ==> ino == old(ino)
      ensures r.Fails? ==> || name == "." || name == ".."
                           || (forall k :: 0 <= k < |ino[dp].dir| ==> !Hit(ino[dp].dir[k], name))
                           || exists x: nat ::
                             x < |ino| && Finds(ino[dp].dir, name, x) && ino[x].kind.Dir? && !Empty(ino[x])
      ensures r.Done? ==>
                exists k: nat ::
                  CanUnlink(old(ino), dp, k) && old(ino)[dp].dir[k].name == name && Erased(old(ino), dp, k, last, ino)
    {
      if name == "." || name == ".." {
        return Fails;
      }
      var k := DirLookup(dp, name);
      if k == |ino[dp].dir| {
        return Fails;
      }
      var ip := ino[dp].dir[k].inum;
      Entries(ino, dp, k);
      Named(ino, dp, k);
      if ino[ip].nlink < 1 {
        return Panic;
      }
      if ino[ip].kind.Dir? {
        var b := IsDirEmpty(ip);
        if !b {
          assert Finds(ino[dp].dir, name, ip);
          return Fails;
        }
      }
      UnlinkKeeps(ino, dp, k);
      var wasDir := ino[ip].kind.Dir?;
      ino := ino[dp := ino[dp].(dir := ino[dp].dir[k := Entry("", 0)])];
      if wasDir {
        ino := ino[dp := ino[dp].(nlink := ino[dp].nlink - 1)];
      }
      ino := ino[ip := ino[ip].(nlink := ino[ip].nlink - 1)];
      assert ino == Unlinked(old(ino), dp, k);
      if ino[ip].nlink == 0 && last {
        FreeKeeps(ino, ip);
        ino := Freed(ino, ip);
      }
      r := Done;
    }

    /** The last iput() of an inode that was unlinked while somebody still held it. */
    method LastPut(x: nat)
      requires Valid() && 0 < x < |ino|
      modifies this
      ensures Valid() && ino == if old(ino)[x].nlink == 0 then Freed(old(ino), x) else old(ino)
    {
      if ino[x].nlink == 0 {
        FreeKeeps(ino, x);
        ino := Freed(ino, x);
      }
    }

    /** The search of ialloc(): the first free inode, or the number of inodes. */
    method FindInode() returns (ip: nat)
      requires |ino| > 0
      ensures 1 <= ip <= |ino| && (ip < |ino| ==> ino[ip].kind.Free?)
      ensures forall i :: 1 <= i < ip ==> !ino[i].kind.Free?
    {
      ip := 1;
      while ip < |ino| && !ino[ip].kind.Free?
        invariant 1 <= ip <= |ino| && forall i :: 1 <= i < ip ==> !ino[i].kind.Free?
      {
        ip := ip + 1;
      }
    }

    /** The rest of create(): the inode, its dots and the parent's link, and the entry. */
    method Make(ip: nat, dp: nat, k: nat, name: string, kind: Kind)
      requires Valid() && CanMake(ino, ip, dp, k, name, kind)
      modifies this
      ensures ino == Created(old(ino), ip, dp, k, name, kind)
      ensures (AllCounted(ino) <==> Live(old(ino)[dp])) && (Valid() <==> AllCounted(ino))
    {
      hide Shape, Placed, Sole, Counted;
      if Live(ino[dp]) {
        CreateKeeps(ino, ip, dp, k, name, kind);
      } else {
        CreateBreaks(ino, ip, dp, k, name, kind);
      }
      ino := ino[ip := Inode(kind, 1, [])];
      if kind.Dir? {
        ino := ino[dp := ino[dp].(nlink := ino[dp].nlink + 1)];
        ino := ino[ip := ino[ip].(dir := Dots(ip, dp))];
      }
      ino := ino[dp := PutEntry(ino[dp], k, Entry(name, ip))];
      assert ino == Created(old(ino), ip, dp, k, name, kind);
    }

    /** create(): a new inode, or the file or device that already has the name.  The counts stay
        right exactly when nothing is created in a directory that has itself been unlinked. */
    method Create(dp: nat, name: string, kind: Kind) returns (r: Outcome, ip: nat)
      requires Valid() && 0 < dp < |ino| && ino[dp].kind.Dir? && !kind.Free?
      modifies this
      ensures (AllCounted(ino) <==> ino == old(ino) || Live(old(ino)[dp])) && (Valid() <==> AllCounted(ino))
      ensures !r.Done? ==> ino == old(ino)
      ensures r.Done? && ino == old(ino) ==>
                kind.File? && ip < |ino| && (ino[ip].kind.File? || ino[ip].kind.Device?) && Finds(ino[dp].dir, name, ip)
      ensures r.Done? && ino != old(ino) ==>
                exists k: nat ::
                  CanMake(old(ino), ip, dp, k, name, kind) && ino == Created(old(ino), ip, dp, k, name, kind)
      ensures r.Fails? ==> exists x: nat :: x < |ino| && Finds(ino[dp].dir, name, x)
                                            && !(kind.File? && (ino[x].kind.File? || ino[x].kind.Device?))
      ensures r.Panic? ==> forall i :: 1 <= i < |ino| ==> !ino[i].kind.Free?
    {
      var at := DirLookup(dp, name);
      if at < |ino[dp].dir| {
        ip := ino[dp].dir[at].inum;
        EntryRange(ino, dp, at);
        assert Finds(ino[dp].dir, name, ip);
        if kind.File? && (ino[ip].kind.File? || ino[ip].kind.Device?) {
          return Done, ip;
        }
        return Fails, 0;
      }
      ip := FindInode();
      if ip == |ino| {
        return Panic, 0;
      }
      var k := FindSlot(dp);
      NewName(ino, dp, name, at, k);
      Make(ip, dp, k, name, kind);
      r := Done;
    }
  }

  /** The k-th file is inode 2 + k, with one link, and has this name in the root. */
  ghost predicate InRoot(ino: Inodes, k: nat, name: string) {
    && 2 + k < |ino| && 2 + k < |ino[ROOT].dir|
    && ino[ROOT].dir[2 + k] == Entry(name, 2 + k) && ino[2 + k].kind.File? && ino[2 + k].nlink == 1
  }

  /** The entry is in use under that name. */
  predicate Hit(e: Entry, name: string) { e.inum != 0 && e.name == name }

  /** The first entry in use with that name names x. */
  ghost predicate Finds(es: seq<Entry>, name: string, x: nat) {
    exists k: nat :: k < |es| && Hit(es[k], name) && es[k].inum == x && forall j :: 0 <= j < k ==> !Hit(es[j], name)
  }

  ghost predicate Erased(a: Inodes, dp: nat, k: nat, last: bool, b: Inodes)
    requires CanUnlink(a, dp, k)
  {
    var ip := a[dp].dir[k].inum;
    && ip != dp && a[ip].nlink > 0
    && b == if a[ip].nlink == 1 && last then Freed(Unlinked(a, dp, k), ip) else Unlinked(a, dp, k)
  }

  lemma RootInv(ino: Inodes)
    requires |ino| > ROOT && ino[ROOT] == Inode(Dir, 1, Dots(ROOT, ROOT))
    requires forall d :: 0 <= d < |ino| && d != ROOT ==> ino[d] == Inode(Free, 0, [])
    ensures Inv(ino)
  {
    forall x | 0 <= x < |ino| ensures Counted(ino, x) {
      DotsNames(ROOT, ROOT, x);
      if x == ROOT {
        CountOne(ino, |ino|, ROOT, x);
      } else {
        CountSame(ino, ino[ROOT := Inode(Free, 0, [])], |ino|, x);
        CountZero(ino, |ino|, x);
      }
    }
  }

  /** Such a directory exists: make one in the root and remove it while it is held. */
  lemma OrphanExample() returns (ino: Inodes)
    ensures Inv(ino) && CanMake(ino, 3, 2, 2, "f", File) && !Live(ino[2])
    ensures !Counted(Created(ino, 3, 2, 2, "f", File), 3)
  {
    var none := Inode(Free, 0, []);
    var boot := [none, Inode(Dir, 1, Dots(ROOT, ROOT)), none, none];
    RootInv(boot);
    CreateKeeps(boot, 2, ROOT, 2, "d", Dir);
    var made := Created(boot, 2, ROOT, 2, "d", Dir);
    UnlinkKeeps(made, ROOT, 2);
    ino := Unlinked(made, ROOT, 2);
    CreateBreaks(ino, 3, 2, 2, "f", File);
  }

  lemma {:induction false} CountZero(ino: Inodes, n: nat, x: nat)
    requires n <= |ino| && forall d :: 0 <= d < n ==> Share(ino[d], x) == 0
    ensures Count(ino, n, x) == 0
  {
    if n > 0 { CountZero(ino, n - 1, x); }
  }

  /** A name that dirlookup() does not find is neither dot, and the slot found is behind them. */
  lemma NewName(ino: Inodes, dp: nat, name: string, at: nat, k: nat)
    requires Inv(ino) && dp < |ino| && ino[dp].kind.Dir? && at == |ino[dp].dir| && k <= |ino[dp].dir|
    requires forall j :: 0 <= j < at ==> ino[dp].dir[j].inum == 0 || ino[dp].dir[j].name != name
    requires (k < |ino[dp].dir| ==> ino[dp].dir[k].inum == 0) && forall j :: 0 <= j < k ==> ino[dp].dir[j].inum != 0
    ensures name != "." && name != ".." && OpenSlot(ino[dp], k) && dp > 0
  {
    assert Shape(ino, dp);
    assert ino[dp].dir[0].name == "." && ino[dp].dir[1].name == "..";
  }

  /** An entry that is not a dot sits in a linked directory behind the dots. */
  lemma Entries(ino: Inodes, dp: nat, k: nat)
    requires Inv(ino) && dp < |ino| && ino[dp].kind.Dir? && k < |ino[dp].dir| && ino[dp].dir[k].inum != 0
    requires ino[dp].dir[k].name != "." && ino[dp].dir[k].name != ".."
    ensures Live(ino[dp]) && 2 <= k && ino[dp].dir[k].inum < |ino|
  {
    assert Shape(ino, dp) && Placed(ino, dp);
  }

  lemma EntryRange(ino: Inodes, dp: nat, k: nat)
    requires Inv(ino) && dp < |ino| && ino[dp].kind.Dir? && k < |ino[dp].dir|
    ensures ino[dp].dir[k].inum < |ino|
  {
    assert Shape(ino, dp);
  }
}
