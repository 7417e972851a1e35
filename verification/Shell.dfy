/** The command parser of user/sh.c.  First the parser as functions on the remaining input,
    with words as strings; the class below follows the source's cursor. */
module Shell {

  datatype Mode = Read | Write | Append

  /** A command tree over words of type W. */
  datatype Cmd<W> =
    | Exec(args: seq<W>)
    | Redir(cmd: Cmd<W>, file: W, mode: Mode)
    | Pipe(left: Cmd<W>, right: Cmd<W>)
    | List(left: Cmd<W>, right: Cmd<W>)
    | Back(cmd: Cmd<W>)

  const MAXARGS: nat := 10

  predicate Space(c: char) { c in " \t\r\n\U{000B}" }
  predicate Symbol(c: char) { c in "<|>&;()" }
  predicate Letter(c: char) { !Space(c) && !Symbol(c) }

  datatype Token = End | Sym(c: char) | Appends | Name(w: string)

  // ---- gettoken() and peek() ---------------------------------------------------------------------

  function Skip(r: string): (t: string)
    ensures |t| <= |r| && (t != [] ==> !Space(t[0]))
  {
    if r != [] && Space(r[0]) then Skip(r[1..]) else r
  }

  function Span(r: string): (n: nat)
    ensures n <= |r| && (forall i :: 0 <= i < n ==> Letter(r[i])) && (n < |r| ==> !Letter(r[n]))
  {
    if r != [] && Letter(r[0]) then 1 + Span(r[1..]) else 0
  }

  function Peek(r: string, toks: string): bool { var t := Skip(r); t != [] && t[0] in toks }

  function Tok(r: string): Token {
    var t := Skip(r);
    if t == [] then End
    else if t[0] == '>' then if |t| > 1 && t[1] == '>' then Appends else Sym('>')
    else if Symbol(t[0]) then Sym(t[0])
    else Name(t[..Span(t)])
  }

  /** What is left after the token and the white space behind it. */
  function Rest(r: string): (u: string)
    ensures |u| <= |r| && (Tok(r) != End ==> |u| < |r|) && (u != [] ==> !Space(u[0]))
  {
    var t := Skip(r);
    if t == [] then []
    else if t[0] == '>' then if |t| > 1 && t[1] == '>' then Skip(t[2..]) else Skip(t[1..])
    else if Symbol(t[0]) then Skip(t[1..])
    else Skip(t[Span(t)..])
  }

  // ---- the grammar -------------------------------------------------------------------------------

  datatype Res<T> = Ok(v: T, rest: string) | Err

  type Redirs = seq<(string, Mode)>

  function ModeOf(k: Token): Mode { if k == Sym('<') then Read else if k == Appends then Append else Write }

  function ParseRedirs(r: string): (res: Res<Redirs>)
    ensures res.Ok? ==> |res.rest| <= |r|
    decreases |r|
  {
    if !Peek(r, "<>") then Ok([], Skip(r))
    else
      var k, r1 := Tok(r), Rest(r);
      if !Tok(r1).Name? then Err
      else match ParseRedirs(Rest(r1))
        case Err => Err
        case Ok(rs, rest) => Ok([(Tok(r1).w, ModeOf(k))] + rs, rest)
  }

  /** The argument loop of parseexec(), with n arguments already read. */
  function ParseArgs(r: string, n: nat): (res: Res<(seq<string>, Redirs)>)
    ensures res.Ok? ==> |res.rest| <= |r|
    decreases |r|
  {
    if Peek(r, "|)&;") || Tok(r).End? then Ok(([], []), Skip(r))
    else if !Tok(r).Name? || n + 1 >= MAXARGS then Err
    else match ParseRedirs(Rest(r))
      case Err => Err
      case Ok(rs, r2) =>
        match ParseArgs(r2, n + 1)
        case Err => Err
        case Ok(more, rest) => Ok(([Tok(r).w] + more.0, rs + more.1), rest)
  }

  function Wrap<W>(c: Cmd<W>, rs: seq<(W, Mode)>): Cmd<W>
    decreases |rs|
  {
    if rs == [] then c else Wrap(Redir(c, rs[0].0, rs[0].1), rs[1..])
  }

  function ParseExec(r: string): (res: Res<Cmd<string>>)
    ensures res.Ok? ==> |res.rest| <= |r|
    decreases |r|, 1
  {
    if Peek(r, "(") then ParseBlock(r)
    else match ParseRedirs(r)
      case Err => Err
      case Ok(rs, r1) =>
        match ParseArgs(r1, 0)
        case Err => Err
        case Ok(more, rest) => Ok(Wrap(Exec(more.0), rs + more.1), rest)
  }

  function ParseBlock(r: string): (res: Res<Cmd<string>>)
    requires Peek(r, "(")
    ensures res.Ok? ==> |res.rest| <= |r|
    decreases |r|, 0
  {
    match ParseLine(Rest(r))
    case Err => Err
    case Ok(c, r1) =>
      if !Peek(r1, ")") then Err
      else match ParseRedirs(Rest(r1))
        case Err => Err
        case Ok(rs, rest) => Ok(Wrap(c, rs), rest)
  }

  function ParsePipe(r: string): (res: Res<Cmd<string>>)
    ensures res.Ok? ==> |res.rest| <= |r|
    decreases |r|, 2
  {
    match ParseExec(r)
    case Err => Err
    case Ok(c, r1) =>
      if !Peek(r1, "|") then Ok(c, Skip(r1))
      else match ParsePipe(Rest(r1))
        case Err => Err
        case Ok(d, rest) => Ok(Pipe(c, d), rest)
  }

  /** The ampersands after a pipe. */
  function Backs(c: Cmd<string>, r: string): (res: Res<Cmd<string>>)
    ensures res.Ok? && |res.rest| <= |r|
    decreases |r|
  {
    if Peek(r, "&") then Backs(Back(c), Rest(r)) else Ok(c, Skip(r))
  }

  function ParseLine(r: string): (res: Res<Cmd<string>>)
    ensures res.Ok? ==> |res.rest| <= |r|
    decreases |r|, 3
  {
    match ParsePipe(r)
    case Err => Err
    case Ok(c0, r0) =>
      var b := Backs(c0, r0);
      if !Peek(b.rest, ";") then Ok(b.v, Skip(b.rest))
      else match ParseLine(Rest(b.rest))
        case Err => Err
        case Ok(d, rest) => Ok(List(b.v, d), rest)
  }

  /** parsecmd() up to nulterminate(): a whole line. */
  function ParseCmd(r: string): Res<Cmd<string>> {
    match ParseLine(r)
    case Err => Err
    case Ok(c, rest) => if Skip(rest) != [] then Err else Ok(c, [])
  }

  // ---- printing ----------------------------------------------------------------------------------

  predicate WordOk(w: string) { w != [] && forall i :: 0 <= i < |w| ==> Letter(w[i]) }

  /** Trees the shell can hold: words without spaces and symbols, at most 9 arguments. */
  predicate Printable(t: Cmd<string>) {
    match t
    case Exec(args) => |args| < MAXARGS && forall i :: 0 <= i < |args| ==> WordOk(args[i])
    case Redir(c, f, _) => WordOk(f) && Printable(c)
    case Pipe(l, r) => Printable(l) && Printable(r)
    case List(l, r) => Printable(l) && Printable(r)
    case Back(c) => Printable(c)
  }

  function Size(t: Cmd<string>): (n: nat)
    ensures n >= 1
  {
    match t
    case Exec(_) => 1
    case Redir(c, _, _) => 1 + Size(c)
    case Pipe(l, r) => 1 + Size(l) + Size(r)
    case List(l, r) => 1 + Size(l) + Size(r)
    case Back(c) => 1 + Size(c)
  }

  /** The command under the redirections, and the redirections in the order of the line. */
  function Base(t: Cmd<string>): (b: Cmd<string>)
    ensures Size(b) <= Size(t) && !b.Redir? && (Printable(t) ==> Printable(b))
  {
    if t.Redir? then Base(t.cmd) else t
  }

  function RedirsOf(t: Cmd<string>): (rs: Redirs)
    ensures Printable(t) ==> forall i :: 0 <= i < |rs| ==> WordOk(rs[i].0)
  {
    if t.Redir? then RedirsOf(t.cmd) + [(t.file, t.mode)] else []
  }

  function Words(args: seq<string>): string { if args == [] then [] else args[0] + " " + Words(args[1..]) }

  function Op(m: Mode): string { match m case Read => "<" case Write => ">" case Append => ">>" }

  function Redirections(rs: Redirs): string
    decreases |rs|
  {
    if rs == [] then [] else Op(rs[0].1) + rs[0].0 + " " + Redirections(rs[1..])
  }

  /** A tree where a line, a line without semicolons, a pipe or a simple command is expected, with
      parentheses where it would not fit otherwise. */
  function PrintLine(t: Cmd<string>): string
    decreases Size(t), 4
  {
    if t.List? then PrintBack(t.left) + ";" + PrintLine(t.right) else PrintBack(t)
  }

  function PrintBack(t: Cmd<string>): string
    decreases Size(t), 3
  {
    if t.Back? then PrintBack(t.cmd) + "&" else PrintPipe(t)
  }

  function PrintPipe(t: Cmd<string>): string
    decreases Size(t), 2
  {
    if t.Pipe? then PrintExec(t.left) + "|" + PrintPipe(t.right) else PrintExec(t)
  }

  function PrintExec(t: Cmd<string>): string
    decreases Size(t), 1
  {
    PrintBase(Base(t)) + Redirections(RedirsOf(t))
  }

  function PrintBase(b: Cmd<string>): string
    requires !b.Redir?
    decreases Size(b), 0
  {
    match b
    case Exec(args) => Words(args)
    case List(l, r) => "(" + (PrintBack(l) + ";" + PrintLine(r)) + ")"
    case Back(c) => "(" + (PrintBack(c) + "&") + ")"
    case Pipe(l, r) => "(" + (PrintExec(l) + "|" + PrintPipe(r)) + ")"
  }

  lemma PrintBaseIs(b: Cmd<string>)
    requires !b.Redir? && !b.Exec?
    ensures PrintBase(b) == "(" + PrintLine(b) + ")"
  {
    if b.Back? { assert PrintLine(b) == PrintBack(b); }
    if b.Pipe? { assert PrintLine(b) == PrintBack(b) == PrintPipe(b); }
  }

  lemma {:induction false} WrapSnoc<W>(c: Cmd<W>, rs: seq<(W, Mode)>, x: (W, Mode))
    ensures Wrap(c, rs + [x]) == Redir(Wrap(c, rs), x.0, x.1)
    decreases |rs|
  {
    if rs != [] {
      assert (rs + [x])[1..] == rs[1..] + [x];
      WrapSnoc(Redir(c, rs[0].0, rs[0].1), rs[1..], x);
    }
  }

  lemma {:induction false} WrapBase(t: Cmd<string>)
    ensures Wrap(Base(t), RedirsOf(t)) == t
  {
    if t.Redir? {
      WrapBase(t.cmd);
      WrapSnoc(Base(t.cmd), RedirsOf(t.cmd), (t.file, t.mode));
    }
  }

  // ---- parsing what was printed ------------------------------------------------------------------

  /** The input ends here or goes on with one of the given characters. */
  predicate Then(r: string, toks: string) { r == [] || r[0] in toks }

  lemma SkipTight(r: string)
    requires r == [] || !Space(r[0])
    ensures Skip(r) == r
  {}

  lemma {:induction false} SpanWord(w: string, r: string)
    requires WordOk(w) && (r == [] || !Letter(r[0]))
    ensures Span(w + r) == |w|
    decreases |w|
  {
    assert (w + r)[0] == w[0] && (w + r)[1..] == w[1..] + r;
    if |w| > 1 { SpanWord(w[1..], r); } else { assert w[1..] + r == r; }
  }

  lemma LexWord(w: string, r: string)
    requires WordOk(w) && (r == [] || !Space(r[0]))
    ensures Tok(w + " " + r) == Name(w) && Rest(w + " " + r) == r && !Peek(w + " " + r, "<|>&;()")
  {
    var t := w + " " + r;
    assert t == w + (" " + r) && t[0] == w[0];
    SkipTight(t);
    SpanWord(w, " " + r);
    assert t[..|w|] == w && t[|w|..] == " " + r;
    assert (" " + r)[1..] == r;
    SkipTight(r);
  }

  lemma LexSymbol(c: char, r: string)
    requires c in "|();&" && (r == [] || !Space(r[0]))
    ensures Tok([c] + r) == Sym(c) && Rest([c] + r) == r && Skip([c] + r) == [c] + r
  {
    assert ([c] + r)[1..] == r;
    SkipTight([c] + r);
    SkipTight(r);
  }

  lemma LexOp(m: Mode, r: string)
    requires r != [] && Letter(r[0])
    ensures Peek(Op(m) + r, "<>") && ModeOf(Tok(Op(m) + r)) == m && Rest(Op(m) + r) == r
  {
    var t := Op(m) + r;
    SkipTight(t);
    assert m.Append? ==> t[2..] == r && t[1] == '>';
    assert !m.Append? ==> t[1..] == r && t[1] == r[0];
    SkipTight(r);
  }

  lemma {:induction false} RedirsBack(rs: Redirs, r: string)
    requires (forall i :: 0 <= i < |rs| ==> WordOk(rs[i].0)) && (r == [] || (!Space(r[0]) && r[0] !in "<>"))
    ensures ParseRedirs(Redirections(rs) + r) == Ok(rs, r)
    decreases |rs|
  {
    hide Tok, Rest, Peek, Skip, Op, WordOk;
    if rs == [] {
      assert Redirections(rs) + r == r;
      PeekNot(r, "<>");
    } else {
      var m, w, u := rs[0].1, rs[0].0, Redirections(rs[1..]) + r;
      var t := Redirections(rs) + r;
      assert t == Op(m) + (w + " " + u);
      RedirsTight(rs[1..], r);
      WordStart(w, u);
      LexOp(m, w + " " + u);
      LexWord(w, u);
      RedirsBack(rs[1..], r);
      assert [(w, m)] + rs[1..] == rs;
    }
  }

  lemma PeekNot(r: string, toks: string)
    requires r == [] || (!Space(r[0]) && r[0] !in toks)
    ensures !Peek(r, toks) && Skip(r) == r
  {}

  lemma PeekIs(r: string, toks: string)
    requires r != [] && !Space(r[0]) && r[0] in toks
    ensures Peek(r, toks) && Skip(r) == r
  {}

  lemma WordStart(w: string, u: string)
    requires WordOk(w)
    ensures var t := w + " " + u; t != [] && Letter(t[0])
  {
    assert (w + " " + u)[0] == w[0];
  }

  lemma RedirsTight(rs: Redirs, r: string)
    requires r == [] || !Space(r[0])
    ensures var u := Redirections(rs) + r; u == [] || !Space(u[0])
  {
    if rs != [] { assert (Redirections(rs) + r)[0] == Op(rs[0].1)[0]; }
  }

  lemma {:induction false} ArgsBack(args: seq<string>, rs: Redirs, n: nat, r: string)
    requires n + |args| < MAXARGS && (forall i :: 0 <= i < |args| ==> WordOk(args[i]))
               && (forall i :: 0 <= i < |rs| ==> WordOk(rs[i].0))
    requires Then(r, "|)&;") && (args == [] ==> rs == [])
    ensures ParseArgs(Words(args) + Redirections(rs) + r, n) == Ok((args, rs), r)
    decreases |args|
  {
    hide *;
    if args == [] {
      assert Words(args) + Redirections(rs) + r == r by { WordsNone(); }
      ArgsStop(r, n);
    } else {
      var w, u := args[0], Words(args[1..]) + Redirections(rs) + r;
      var t := Words(args) + Redirections(rs) + r;
      WordsMore(args);
      assert t == w + " " + u;
      ArgsTight(args[1..], rs, r);
      LexWord(w, u);
      PeekFewer(t);
      assert [w] + args[1..] == args;
      if args[1..] == [] {
        WordsNone();
        assert u == Redirections(rs) + r;
        FollowRedirs(r);
        RedirsBack(rs, r);
        ArgsStop(r, n + 1);
        ArgsStep(t, n, w, u, rs, r, ([], []), r);
        assert rs + [] == rs;
      } else {
        NextWord(args[1..], rs, r);
        LetterStart(u);
        RedirsBack([], u);
        WordsNone();
        assert Redirections([]) + u == u;
        ArgsBack(args[1..], rs, n + 1, r);
        ArgsStep(t, n, w, u, [], u, (args[1..], rs), r);
        assert [] + rs == rs;
      }
    }
  }

  lemma WordsNone()
    ensures Words([]) == [] && Redirections([]) == []
  {}

  lemma WordsMore(args: seq<string>)
    requires args != []
    ensures Words(args) == args[0] + " " + Words(args[1..])
  {}

  lemma FollowRedirs(r: string)
    requires Then(r, "|)&;")
    ensures r == [] || (!Space(r[0]) && r[0] !in "<>")
  {}

  lemma LetterStart(r: string)
    requires r != [] && Letter(r[0])
    ensures !Space(r[0]) && r[0] !in "<>" && r[0] !in "("
  {}

  lemma ArgsStop(r: string, n: nat)
    requires Then(r, "|)&;")
    ensures ParseArgs(r, n) == Ok(([], []), r)
  {
    if r == [] { EndOfInput(); } else { PeekIs(r, "|)&;"); }
  }

  lemma ArgsStep(t: string, n: nat, w: string, u: string, rs: Redirs, r: string, more: (seq<string>, Redirs),
                 rest: string)
    requires Tok(t) == Name(w) && Rest(t) == u && !Peek(t, "|)&;") && n + 1 < MAXARGS
    requires ParseRedirs(u) == Ok(rs, r) && ParseArgs(r, n + 1) == Ok(more, rest)
    ensures ParseArgs(t, n) == Ok(([w] + more.0, rs + more.1), rest)
  {
    hide Tok, Rest, Peek, Skip, ParseRedirs;
  }

  lemma EndOfInput()
    ensures Tok([]) == End && Skip([]) == []
  {}

  lemma PeekFewer(t: string)
    requires !Peek(t, "<|>&;()")
    ensures !Peek(t, "|)&;") && !Peek(t, "(") && !Peek(t, "<>")
  {}

  lemma NextWord(args: seq<string>, rs: Redirs, r: string)
    requires args != [] && WordOk(args[0])
    ensures var u := Words(args) + Redirections(rs) + r; u != [] && Letter(u[0])
  {
    assert (Words(args) + Redirections(rs) + r)[0] == args[0][0];
  }

  lemma ArgsTight(args: seq<string>, rs: Redirs, r: string)
    requires (args != [] ==> WordOk(args[0])) && Then(r, "|)&;")
    ensures var u := Words(args) + Redirections(rs) + r; u == [] || !Space(u[0])
  {
    if args == [] {
      assert Words(args) + Redirections(rs) + r == Redirections(rs) + r;
      RedirsTight(rs, r);
    } else {
      NextWord(args, rs, r);
    }
  }

  /** Printed commands do not start with white space. */
  predicate Tight(x: string) { x == [] || !Space(x[0]) }

  lemma TightAdd(x: string, y: string)
    requires Tight(x) && Tight(y)
    ensures Tight(x + y)
  {
    if x == [] { assert x + y == y; } else { assert (x + y)[0] == x[0]; }
  }

  lemma {:induction false} PrintTight(t: Cmd<string>)
    requires Printable(t)
    ensures Tight(PrintLine(t)) && Tight(PrintBack(t)) && Tight(PrintPipe(t)) && Tight(PrintExec(t))
    decreases Size(t)
  {
    hide PrintLine, PrintBack, PrintPipe, PrintExec, Tight;
    ExecTight(t);
    PrintIs(t);
    match t
    case List(l, r) =>
      PrintTight(l);
      SymbolTight(";" + PrintLine(r));
      TightAdd(PrintBack(l), ";" + PrintLine(r));
      assert PrintLine(t) == PrintBack(l) + (";" + PrintLine(r));
    case Back(c) =>
      PrintTight(c);
      SymbolTight("&");
      TightAdd(PrintBack(c), "&");
    case Pipe(l, r) =>
      PrintTight(l);
      SymbolTight("|" + PrintPipe(r));
      TightAdd(PrintExec(l), "|" + PrintPipe(r));
      assert PrintPipe(t) == PrintExec(l) + ("|" + PrintPipe(r));
    case _ =>
  }

  lemma PrintIs(t: Cmd<string>)
    ensures PrintLine(t) == if t.List? then PrintBack(t.left) + ";" + PrintLine(t.right) else PrintBack(t)
    ensures PrintBack(t) == if t.Back? then PrintBack(t.cmd) + "&" else PrintPipe(t)
    ensures PrintPipe(t) == if t.Pipe? then PrintExec(t.left) + "|" + PrintPipe(t.right) else PrintExec(t)
  {}

  lemma SymbolTight(x: string)
    requires x != [] && Symbol(x[0])
    ensures Tight(x)
  {}

  lemma ExecTight(t: Cmd<string>)
    requires Printable(t)
    ensures Tight(PrintExec(t))
  {
    var b, rs := Base(t), RedirsOf(t);
    RedirsTight(rs, []);
    assert Redirections(rs) + [] == Redirections(rs);
    if b.Exec? && b.args != [] { assert Words(b.args)[0] == b.args[0][0]; }
    TightAdd(PrintBase(b), Redirections(rs));
  }

  // ---- one grammar rule at a time ----------------------------------------------------------------

  /** The first half of parseline(). */
  function Start(r: string): Res<Cmd<string>> {
    match ParsePipe(r)
    case Err => Err
    case Ok(c, r0) => Backs(c, r0)
  }

  lemma StartIs(x: string, c: Cmd<string>, r: string)
    requires ParsePipe(x) == Ok(c, r)
    ensures Start(x) == Backs(c, r)
  {}

  lemma LineEnds(x: string, c: Cmd<string>, r: string)
    requires Start(x) == Ok(c, r) && Then(r, ")")
    ensures ParseLine(x) == Ok(c, r)
  {
    hide Backs, ParsePipe, Tok, Rest, Peek, Skip;
    PeekNot(r, ";");
  }

  lemma LineGoesOn(x: string, c: Cmd<string>, y: string, d: Cmd<string>, r: string)
    requires Start(x) == Ok(c, ";" + y) && Tight(y) && ParseLine(y) == Ok(d, r)
    ensures ParseLine(x) == Ok(List(c, d), r)
  {
    hide Backs, ParsePipe, Tok, Rest, Peek, Skip;
    PeekIs(";" + y, ";");
    LexSymbol(';', y);
  }

  lemma BacksStop(c: Cmd<string>, r: string)
    requires Then(r, ");")
    ensures Backs(c, r) == Ok(c, r)
  {
    PeekNot(r, "&");
  }

  lemma BacksMore(c: Cmd<string>, r: string)
    requires Tight(r)
    ensures Backs(c, "&" + r) == Backs(Back(c), r)
  {
    hide Tok, Rest, Peek, Skip;
    PeekIs("&" + r, "&");
    LexSymbol('&', r);
  }

  lemma PipeEnds(x: string, c: Cmd<string>, r: string)
    requires ParseExec(x) == Ok(c, r) && Then(r, ")&;")
    ensures ParsePipe(x) == Ok(c, r)
  {
    hide ParseExec, Tok, Rest, Peek, Skip;
    PeekNot(r, "|");
  }

  lemma PipeGoesOn(x: string, c: Cmd<string>, y: string, d: Cmd<string>, r: string)
    requires ParseExec(x) == Ok(c, "|" + y) && Tight(y) && ParsePipe(y) == Ok(d, r)
    ensures ParsePipe(x) == Ok(Pipe(c, d), r)
  {
    hide ParseExec, Tok, Rest, Peek, Skip;
    PeekIs("|" + y, "|");
    LexSymbol('|', y);
  }

  lemma BlockOf(y: string, c: Cmd<string>, z: string, rs: Redirs, r: string)
    requires Tight(y) && Tight(z) && ParseLine(y) == Ok(c, ")" + z) && ParseRedirs(z) == Ok(rs, r)
    ensures ParseExec("(" + y) == Ok(Wrap(c, rs), r)
  {
    hide ParseLine, ParseRedirs, Tok, Rest, Peek, Skip;
    PeekIs("(" + y, "(");
    LexSymbol('(', y);
    PeekIs(")" + z, ")");
    LexSymbol(')', z);
  }

  lemma SimpleOf(x: string, rs: Redirs, y: string, args: seq<string>, more: Redirs, r: string)
    requires !Peek(x, "(") && ParseRedirs(x) == Ok(rs, y) && ParseArgs(y, 0) == Ok((args, more), r)
    ensures ParseExec(x) == Ok(Wrap(Exec(args), rs + more), r)
  {
    hide ParseArgs, ParseRedirs, Peek;
  }

  // ---- the round trip ----------------------------------------------------------------------------

  lemma SimpleBack(t: Cmd<string>, r: string)
    requires Printable(t) && Base(t).Exec? && Then(r, "|)&;")
    ensures ParseExec(PrintExec(t) + r) == Ok(t, r)
  {
    hide *;
    var args, rs := Base(t).args, RedirsOf(t);
    var x := PrintExec(t) + r;
    PrintSimple(t);
    assert x == Words(args) + Redirections(rs) + r;
    WrapBase(t);
    WordsNone();
    FollowRedirs(r);
    if args == [] {
      assert x == Redirections(rs) + r;
      NotBlock(rs, r);
      RedirsBack(rs, r);
      ArgsStop(r, 0);
      SimpleOf(x, rs, r, [], [], r);
      assert rs + [] == rs;
    } else {
      NextWord(args, rs, r);
      LetterStart(x);
      PeekNot(x, "(");
      RedirsBack([], x);
      assert Redirections([]) + x == x;
      ArgsBack(args, rs, 0, r);
      SimpleOf(x, [], x, args, rs, r);
      assert [] + rs == rs;
    }
  }

  lemma PrintSimple(t: Cmd<string>)
    requires Base(t).Exec?
    ensures PrintExec(t) == Words(Base(t).args) + Redirections(RedirsOf(t))
    ensures Printable(t) ==> |Base(t).args| < MAXARGS && forall i :: 0 <= i < |Base(t).args| ==> WordOk(Base(t).args[i])
  {}

  lemma NotBlock(rs: Redirs, r: string)
    requires Then(r, "|)&;")
    ensures !Peek(Redirections(rs) + r, "(")
  {
    var x := Redirections(rs) + r;
    if rs != [] { assert x[0] == Op(rs[0].1)[0]; } else { assert x == r; }
    PeekNot(x, "(");
  }

  lemma {:induction false} ExecBack(t: Cmd<string>, r: string)
    requires Printable(t) && Then(r, "|)&;")
    ensures ParseExec(PrintExec(t) + r) == Ok(t, r)
    decreases Size(t), 1
  {
    hide *;
    var b, rs := Base(t), RedirsOf(t);
    if b.Exec? {
      SimpleBack(t, r);
    } else {
      PrintExecIs(t);
      var z := Redirections(rs) + r;
      var y := PrintLine(b) + (")" + z);
      assert PrintExec(t) + r == "(" + y;
      FollowRedirs(r);
      RedirsTight(rs, r);
      TightIs(z);
      PrintTight(b);
      Closing(z);
      TightAdd(PrintLine(b), ")" + z);
      InnerBack(b, ")" + z);
      RedirsBack(rs, r);
      BlockOf(y, b, z, rs, r);
      WrapBase(t);
    }
  }

  lemma PrintExecIs(t: Cmd<string>)
    requires !Base(t).Exec?
    ensures PrintExec(t) == "(" + PrintLine(Base(t)) + ")" + Redirections(RedirsOf(t))
  {
    PrintBaseIs(Base(t));
  }

  lemma TightIs(z: string)
    ensures Tight(z) <==> z == [] || !Space(z[0])
  {}

  lemma Closing(z: string)
    ensures Then(")" + z, ")") && Tight(")" + z)
  {}

  /** A tree that is no simple command, where a line is expected. */
  lemma {:induction false} InnerBack(b: Cmd<string>, r: string)
    requires Printable(b) && !b.Exec? && !b.Redir? && Then(r, ")")
    ensures ParseLine(PrintLine(b) + r) == Ok(b, r)
    decreases Size(b), 0
  {
    hide PrintLine, PrintBack, PrintPipe, PrintExec, ParseLine, Start, Backs, ParsePipe;
    PrintIs(b);
    match b
    case List(l, d) => ListBack(l, d, r);
    case Back(c) =>
      BackBack(c, "&" + r);
      BacksMore(c, r);
      BacksStop(b, r);
      assert PrintLine(b) + r == PrintBack(c) + ("&" + r);
      LineEnds(PrintLine(b) + r, b, r);
    case Pipe(l, d) =>
      PairBack(l, d, r);
      BacksStop(b, r);
      StartIs(PrintLine(b) + r, b, r);
      LineEnds(PrintLine(b) + r, b, r);
  }

  lemma {:induction false} ListBack(l: Cmd<string>, d: Cmd<string>, r: string)
    requires Printable(l) && Printable(d) && Then(r, ")")
    ensures ParseLine(PrintLine(List(l, d)) + r) == Ok(List(l, d), r)
    decreases Size(l) + Size(d), 5
  {
    hide Backs, ParsePipe, ParseLine, Start;
    var y := PrintLine(d) + r;
    assert PrintLine(List(l, d)) + r == PrintBack(l) + (";" + y);
    PrintTight(d);
    TightAdd(PrintLine(d), r);
    BackBack(l, ";" + y);
    BacksStop(l, ";" + y);
    LineBack(d, r);
    LineGoesOn(PrintBack(l) + (";" + y), l, y, d, r);
  }

  lemma {:induction false} PairBack(l: Cmd<string>, d: Cmd<string>, r: string)
    requires Printable(l) && Printable(d) && Then(r, ")&;")
    ensures ParsePipe(PrintPipe(Pipe(l, d)) + r) == Ok(Pipe(l, d), r)
    decreases Size(l) + Size(d), 5
  {
    hide ParsePipe, ParseExec;
    var y := PrintPipe(d) + r;
    assert PrintPipe(Pipe(l, d)) + r == PrintExec(l) + ("|" + y);
    PrintTight(d);
    TightAdd(PrintPipe(d), r);
    ExecBack(l, "|" + y);
    PipeBack(d, r);
    PipeGoesOn(PrintExec(l) + ("|" + y), l, y, d, r);
  }

  lemma {:induction false} PipeBack(t: Cmd<string>, r: string)
    requires Printable(t) && Then(r, ")&;")
    ensures ParsePipe(PrintPipe(t) + r) == Ok(t, r)
    decreases Size(t), 2
  {
    hide ParsePipe, ParseExec;
    if t.Pipe? {
      PairBack(t.left, t.right, r);
    } else {
      ExecBack(t, r);
      PipeEnds(PrintExec(t) + r, t, r);
    }
  }

  /** Trailing ampersands are taken up one by one. */
  lemma {:induction false} BackBack(t: Cmd<string>, r: string)
    requires Printable(t) && Then(r, ")&;")
    ensures Start(PrintBack(t) + r) == Backs(t, r)
    decreases Size(t), 3
  {
    hide ParsePipe, Backs;
    if t.Back? {
      BackBack(t.cmd, "&" + r);
      assert PrintBack(t) + r == PrintBack(t.cmd) + ("&" + r);
      BacksMore(t.cmd, r);
    } else {
      PipeBack(t, r);
    }
  }

  lemma {:induction false} LineBack(t: Cmd<string>, r: string)
    requires Printable(t) && Then(r, ")")
    ensures ParseLine(PrintLine(t) + r) == Ok(t, r)
    decreases Size(t), 4
  {
    hide ParsePipe, Backs, ParseLine, Start;
    if t.List? {
      ListBack(t.left, t.right, r);
    } else {
      BackBack(t, r);
      BacksStop(t, r);
      LineEnds(PrintBack(t) + r, t, r);
    }
  }

  /** Printing any command tree and parsing the line gives the tree back. */
  lemma RoundTrip(t: Cmd<string>)
    requires Printable(t)
    ensures ParseCmd(PrintLine(t)) == Ok(t, [])
  {
    LineBack(t, []);
    assert PrintLine(t) + [] == PrintLine(t);
  }
}
