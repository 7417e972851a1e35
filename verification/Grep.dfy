/** The regular-expression matcher of user/grep.c.  Patterns and texts are C strings, so `re[1]`
    of a one-character pattern is the terminating NUL; here they are sequences without it. */
module Grep {

  datatype Atom = Any | Lit(c: char) {
    predicate Fits(d: char) { Any? || c == d }
  }

  datatype Item = One(a: Atom) | Star(a: Atom)

  /** A pattern after its optional caret: items in order, and whether it ends in a bare dollar. */
  datatype Pattern = Pattern(items: seq<Item>, atEnd: bool)

  function AtomOf(c: char): Atom { if c == '.' then Any else Lit(c) }

  /** How a pattern is read.  A star binds first, so a starred dollar is a literal dollar. */
  function Parse(re: string): Pattern {
    if re == [] then Pattern([], false)
    else if |re| >= 2 && re[1] == '*' then var p := Parse(re[2..]); p.(items := [Star(AtomOf(re[0]))] + p.items)
    else if re == "$" then Pattern([], true)
    else var p := Parse(re[1..]); p.(items := [One(AtomOf(re[0]))] + p.items)
  }

  // ---- the language of a pattern -------------------------------------------------------------

  predicate ItemHas(i: Item, w: string) {
    (i.One? ==> |w| == 1) && forall k :: 0 <= k < |w| ==> i.a.Fits(w[k])
  }

  /** w is the concatenation of one word for each item. */
  ghost predicate InLanguage(items: seq<Item>, w: string) {
    if items == [] then w == []
    else exists k :: 0 <= k <= |w| && ItemHas(items[0], w[..k]) && InLanguage(items[1..], w[k..])
  }

  /** Some prefix of t, all of it if the pattern ends in a dollar, is in the language. */
  ghost predicate Here(p: Pattern, t: string) {
    exists k :: 0 <= k <= |t| && InLanguage(p.items, t[..k]) && (p.atEnd ==> k == |t|)
  }

  /** Some substring matches: a prefix if the pattern starts with a caret. */
  ghost predicate Matches(re: string, t: string) {
    if re != [] && re[0] == '^' then Here(Parse(re[1..]), t)
    else exists i :: 0 <= i <= |t| && Here(Parse(re), t[i..])
  }

  // ---- how a first item can be matched -------------------------------------------------------

  lemma HereNil(p: Pattern, t: string)
    requires p.items == []
    ensures Here(p, t) <==> p.atEnd ==> t == []
  {
    if p.atEnd ==> t == [] {
      assert InLanguage(p.items, t[..0]);
    }
  }

  lemma HereOne(a: Atom, p: Pattern, t: string)
    ensures Here(p.(items := [One(a)] + p.items), t) <==> t != [] && a.Fits(t[0]) && Here(p, t[1..])
  {
    var q := p.(items := [One(a)] + p.items);
    assert q.items[0] == One(a) && q.items[1..] == p.items;
    if Here(q, t) {
      var k :| 0 <= k <= |t| && InLanguage(q.items, t[..k]) && (q.atEnd ==> k == |t|);
      var w := t[..k];
      var j :| 0 <= j <= |w| && ItemHas(q.items[0], w[..j]) && InLanguage(q.items[1..], w[j..]);
      assert w[..j][0] == t[0];
      assert w[1..] == t[1..][..k - 1];
    }
    if t != [] && a.Fits(t[0]) && Here(p, t[1..]) {
      var k :| 0 <= k <= |t[1..]| && InLanguage(p.items, t[1..][..k]) && (p.atEnd ==> k == |t[1..]|);
      var w := t[..k + 1];
      assert w[1..] == t[1..][..k];
      assert ItemHas(q.items[0], w[..1]) && InLanguage(q.items[1..], w[1..]);
      assert InLanguage(q.items, w);
    }
  }

  /** A star matches nothing, or one more character and then a star again. */
  lemma HereStar(a: Atom, p: Pattern, t: string)
    ensures var q := p.(items := [Star(a)] + p.items);
      Here(q, t) <==> Here(p, t) || (t != [] && a.Fits(t[0]) && Here(q, t[1..]))
  {
    var q := p.(items := [Star(a)] + p.items);
    assert q.items[0] == Star(a) && q.items[1..] == p.items;
    if Here(q, t) { HereStarOut(a, p, q, t); }
    if Here(p, t) {
      var k :| 0 <= k <= |t| && InLanguage(p.items, t[..k]) && (p.atEnd ==> k == |t|);
      var w := t[..k];
      assert w[0..] == w;
      assert ItemHas(q.items[0], w[..0]) && InLanguage(q.items[1..], w[0..]);
      assert InLanguage(q.items, t[..k]);
    }
    if t != [] && a.Fits(t[0]) && Here(q, t[1..]) { HereStarIn(a, p, q, t); }
  }

  lemma HereStarOut(a: Atom, p: Pattern, q: Pattern, t: string)
    requires q.items != [] && q.items[0] == Star(a) && q.items[1..] == p.items && q.atEnd == p.atEnd && Here(q, t)
    ensures Here(p, t) || (t != [] && a.Fits(t[0]) && Here(q, t[1..]))
  {
    var k :| 0 <= k <= |t| && InLanguage(q.items, t[..k]) && (q.atEnd ==> k == |t|);
    var w := t[..k];
    var j :| 0 <= j <= |w| && ItemHas(q.items[0], w[..j]) && InLanguage(q.items[1..], w[j..]);
    if j == 0 {
      assert w[0..] == t[..k];
    } else {
      StarTail(q.items, w, j);
      assert w[1..] == t[1..][..k - 1];
    }
  }

  lemma StarTail(items: seq<Item>, w: string, j: nat)
    requires items != [] && items[0].Star? && 1 <= j <= |w| && ItemHas(items[0], w[..j])
               && InLanguage(items[1..], w[j..])
    ensures items[0].a.Fits(w[0]) && InLanguage(items, w[1..])
  {
    var u, y := w[1..], w[..j];
    var x := u[..j - 1];
    assert y[0] == w[0];
    forall i | 0 <= i < |x| ensures items[0].a.Fits(x[i]) {
      assert x[i] == y[i + 1];
    }
    assert u[j - 1..] == w[j..];
  }

  lemma HereStarIn(a: Atom, p: Pattern, q: Pattern, t: string)
    requires q.items != [] && q.items[0] == Star(a) && q.items[1..] == p.items && q.atEnd == p.atEnd
    requires t != [] && a.Fits(t[0]) && Here(q, t[1..])
    ensures Here(q, t)
  {
    var k :| 0 <= k <= |t[1..]| && InLanguage(q.items, t[1..][..k]) && (q.atEnd ==> k == |t[1..]|);
    var u := t[1..][..k];
    var j :| 0 <= j <= |u| && ItemHas(q.items[0], u[..j]) && InLanguage(q.items[1..], u[j..]);
    var w := t[..k + 1];
    assert w[1..] == u;
    var x := w[..j + 1];
    forall i | 0 <= i < |x| ensures a.Fits(x[i]) {
      if i > 0 { assert x[i] == u[..j][i - 1]; }
    }
    assert w[j + 1..] == u[j..];
    assert InLanguage(q.items, w);
  }

  // ---- the program ---------------------------------------------------------------------------

  /** match() */
  method Match(re: string, text: string) returns (r: bool)
    ensures r <==> Matches(re, text)
  {
    if re != [] && re[0] == '^' {
      r := MatchHere(re[1..], text);
      return;
    }
    var i := 0;
    while true
      invariant 0 <= i <= |text| && forall j :: 0 <= j < i ==> !Here(Parse(re), text[j..])
      decreases |text| - i
    {
      r := MatchHere(re, text[i..]);
      if r || i == |text| {
        return;
      }
      i := i + 1;
    }
  }

  /** matchhere() */
  method MatchHere(re: string, text: string) returns (r: bool)
    ensures r <==> Here(Parse(re), text)
    decreases |re|, 0
  {
    if re == [] {
      HereNil(Parse(re), text);
      return true;
    }
    if |re| >= 2 && re[1] == '*' {
      r := MatchStar(re[0], re[2..], text);
      return;
    }
    if re == "$" {
      HereNil(Parse(re), text);
      return text == [];
    }
    HereOne(AtomOf(re[0]), Parse(re[1..]), text);
    if text != [] && (re[0] == '.' || re[0] == text[0]) {
      r := MatchHere(re[1..], text[1..]);
      return;
    }
    r := false;
  }

  /** matchstar(): a starred c and then re, at the beginning of text. */
  method MatchStar(c: char, re: string, text: string) returns (r: bool)
    ensures r <==> var p := Parse(re); Here(p.(items := [Star(AtomOf(c))] + p.items), text)
    decreases |re|, 1
  {
    ghost var p := Parse(re);
    ghost var q := p.(items := [Star(AtomOf(c))] + p.items);
    var i := 0;
    assert text[0..] == text;
    while true
      invariant 0 <= i <= |text| && (Here(q, text) <==> Here(q, text[i..]))
      decreases |text| - i
    {
      HereStar(AtomOf(c), p, text[i..]);
      r := MatchHere(re, text[i..]);
      if r || !(i < |text| && (text[i] == c || c == '.')) {
        return;
      }
      assert text[i..][1..] == text[i + 1..];
      i := i + 1;
    }
  }
}
