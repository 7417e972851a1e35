/** The parser of user/sh.c in the source's own form: a cursor that every function advances, and
    trees whose words are start and end positions in the line, terminated in place afterwards. */
module ShellParser {
  import opened Shell

  /** A word as the source records it: argv[i] and eargv[i], or file and efile. */
  datatype Mark = Mark(q: nat, eq: nat)

  /** A mark spans letters only and ends at a character that is none, or at the end. */
  predicate Good(s: string, m: Mark) {
    m.q < m.eq <= |s| && (forall j :: m.q <= j < m.eq ==> Letter(s[j])) && (m.eq < |s| ==> !Letter(s[m.eq]))
  }

  function Slice(s: string, m: Mark): string { if m.q <= m.eq <= |s| then s[m.q..m.eq] else [] }

  predicate AllGood(s: string, c: Cmd<Mark>) {
    match c
    case Exec(args) => forall k :: 0 <= k < |args| ==> Good(s, args[k])
    case Redir(d, f, _) => Good(s, f) && AllGood(s, d)
    case Pipe(l, r) => AllGood(s, l) && AllGood(s, r)
    case List(l, r) => AllGood(s, l) && AllGood(s, r)
    case Back(d) => AllGood(s, d)
  }

  function Slices(s: string, ms: seq<Mark>): (r: seq<string>)
    ensures |r| == |ms| && forall k :: 0 <= k < |ms| ==> r[k] == Slice(s, ms[k])
  {
    if ms == [] then [] else Slices(s, ms[..|ms| - 1]) + [Slice(s, ms[|ms| - 1])]
  }

  function RedirSlices(s: string, rs: seq<(Mark, Mode)>): (r: Redirs)
    ensures |r| == |rs| && forall k :: 0 <= k < |rs| ==> r[k] == (Slice(s, rs[k].0), rs[k].1)
  {
    if rs == [] then [] else RedirSlices(s, rs[..|rs| - 1]) + [(Slice(s, rs[|rs| - 1].0), rs[|rs| - 1].1)]
  }

  /** The tree with every mark replaced by the text it spans. */
  function Text(s: string, c: Cmd<Mark>): Cmd<string> {
    match c
    case Exec(args) => Exec(Slices(s, args))
    case Redir(d, f, m) => Redir(Text(s, d), Slice(s, f), m)
    case Pipe(l, r) => Pipe(Text(s, l), Text(s, r))
    case List(l, r) => List(Text(s, l), Text(s, r))
    case Back(d) => Back(Text(s, d))
  }

  lemma {:induction false} TextWrap(s: string, c: Cmd<Mark>, rs: seq<(Mark, Mode)>)
    ensures Text(s, Wrap(c, rs)) == Wrap(Text(s, c), RedirSlices(s, rs))
    decreases |rs|
  {
    if rs != [] {
      TextWrap(s, Redir(c, rs[0].0, rs[0].1), rs[1..]);
      assert RedirSlices(s, rs)[1..] == RedirSlices(s, rs[1..]);
    }
  }

  lemma {:induction false} WrapGood(s: string, c: Cmd<Mark>, rs: seq<(Mark, Mode)>)
    requires AllGood(s, c) && forall k :: 0 <= k < |rs| ==> Good(s, rs[k].0)
    ensures AllGood(s, Wrap(c, rs))
    decreases |rs|
  {
    if rs != [] { WrapGood(s, Redir(c, rs[0].0, rs[0].1), rs[1..]); }
  }

  // ---- the spec of a loop in the middle ----------------------------------------------------------

  function AddRedirs(pre: Redirs, r: Res<Redirs>): Res<Redirs> {
    if r.Err? then Err else Ok(pre + r.v, r.rest)
  }

  function AddArgs(a: seq<string>, rs: Redirs, r: Res<(seq<string>, Redirs)>): Res<(seq<string>, Redirs)> {
    if r.Err? then Err else Ok((a + r.v.0, rs + r.v.1), r.rest)
  }

  /** What gettoken() returns for a token. */
  function Code(k: Token): char {
    match k case End => '\0' case Sym(c) => c case Appends => '+' case Name(_) => 'a'
  }

  predicate Single(c: char) { c in "|();&<" }

  /** gettoken()'s cases at position q, behind the white space. */
  lemma TokenAt(s: string, r: string, q: nat)
    requires q <= |s| && Skip(r) == s[q..]
    ensures q == |s| ==> Tok(r) == End && Rest(r) == []
    ensures q < |s| && Single(s[q]) ==> Tok(r) == Sym(s[q]) && Rest(r) == Skip(s[q + 1..])
    ensures q < |s| && s[q] == '>' ==>
              if q + 1 < |s| && s[q + 1] == '>' then Tok(r) == Appends && Rest(r) == Skip(s[q + 2..])
              else Tok(r) == Sym('>') && Rest(r) == Skip(s[q + 1..])
  {
    hide Skip, Span;
    var t := s[q..];
    if q < |s| {
      assert t[0] == s[q] && t[1..] == s[q + 1..];
      if q + 1 < |s| { assert t[1] == s[q + 1] && t[2..] == s[q + 2..]; }
    }
  }

  lemma WordAt(s: string, r: string, q: nat)
    requires q < |s| && Skip(r) == s[q..] && !Single(s[q]) && s[q] != '>'
    ensures var n := Span(s[q..]);
              q + n <= |s| && n > 0 && Tok(r) == Name(s[q..q + n]) && Rest(r) == Skip(s[q + n..])
                && Good(s, Mark(q, q + n))
  {
    hide Skip;
    var t, n := s[q..], Span(s[q..]);
    assert t[0] == s[q];
    SkipHead(r);
    assert Letter(s[q]);
    assert t[..n] == s[q..q + n] && t[n..] == s[q + n..];
    forall j | q <= j < q + n ensures Letter(s[j]) { assert t[j - q] == s[j]; }
    assert q + n < |s| ==> s[q + n] == t[n];
  }

  lemma SkipHead(r: string)
    ensures Skip(r) != [] ==> !Space(Skip(r)[0])
  {}

  datatype Result = Parsed(c: Cmd<Mark>) | Panic

  class Parser {
    const s: string
    var i: nat          // *ps

    constructor (line: string)
      ensures s == line && i == 0
    {
      s, i := line, 0;
    }

    /** The white-space loops. */
    method SkipSpace()
      requires i <= |s|
      modifies this`i
      ensures old(i) <= i <= |s| && s[i..] == Skip(s[old(i)..])
    {
      while i < |s| && Space(s[i])
        invariant old(i) <= i <= |s| && Skip(s[i..]) == Skip(s[old(i)..])
      {
        assert s[i..][1..] == s[i + 1..];
        i := i + 1;
      }
    }

    /** peek() */
    method PeekAt(toks: string) returns (b: bool)
      requires i <= |s|
      modifies this`i
      ensures old(i) <= i <= |s| && s[i..] == Skip(s[old(i)..]) && b == Peek(s[old(i)..], toks)
    {
      SkipSpace();
      b := i < |s| && s[i] in toks;
    }

    /** The word loop of gettoken(). */
    method ReadWord()
      requires i <= |s|
      modifies this`i
      ensures i == old(i) + Span(s[old(i)..]) && i <= |s|
    {
      while i < |s| && Letter(s[i])
        invariant old(i) <= i <= |s| && i - old(i) + Span(s[i..]) == Span(s[old(i)..])
      {
        assert s[i..][1..] == s[i + 1..];
        i := i + 1;
      }
    }

    /** gettoken() */
    method GetToken() returns (k: char, m: Mark)
      requires i <= |s|
      modifies this`i
      ensures old(i) <= i <= |s| && s[i..] == Rest(s[old(i)..]) && k == Code(Tok(s[old(i)..]))
      ensures k != '\0' ==> i > old(i)
      ensures Tok(s[old(i)..]).Name? ==> Good(s, m) && Slice(s, m) == Tok(s[old(i)..]).w
    {
      hide Skip, Span, Tok, Rest, Space, Letter, Good, Symbol, Single;
      ghost var r := s[i..];
      EndOfInput();
      SkipSpace();
      var q := i;
      TokenAt(s, r, q);
      k := if i < |s| then s[i] else '\0';
      if i == |s| {
        assert s[i..] == [];
      } else if Single(s[i]) {
        i := i + 1;
      } else if s[i] == '>' {
        i := i + 1;
        if i < |s| && s[i] == '>' {
          k := '+';
          i := i + 1;
        }
      } else {
        k := 'a';
        WordAt(s, r, q);
        ReadWord();
      }
      m := Mark(q, i);
      SkipSpace();
    }

    /** parseredirs(): the redirections here, each to be put around the command.  Wrapping an
        execcmd and adding arguments to it commute in the source, where it is shared. */
    method ReadRedirs() returns (ok: bool, rs: seq<(Mark, Mode)>)
      requires i <= |s|
      modifies this`i
      ensures old(i) <= i <= |s|
      ensures var r := ParseRedirs(s[old(i)..]); ok == r.Ok? && (ok ==> RedirSlices(s, rs) == r.v && s[i..] == r.rest)
      ensures forall k :: 0 <= k < |rs| ==> Good(s, rs[k].0)
    {
      hide *;
      rs := [];
      ghost var r0 := s[i..];
      RedirsNone(r0);
      SlicesNone(s);
      while true
        invariant old(i) <= i <= |s| && ParseRedirs(r0) == AddRedirs(RedirSlices(s, rs), ParseRedirs(s[i..]))
        invariant forall k :: 0 <= k < |rs| ==> Good(s, rs[k].0)
        decreases |s| - i
      {
        ghost var r := s[i..];
        ParseRedirsSkip(r);
        var b := PeekAt("<>");
        if !b {
          RedirsEnd(r, RedirSlices(s, rs));
          return true, rs;
        }
        PeekSkip(r, "<>");
        ghost var r1, pre := s[i..], RedirSlices(s, rs);
        var one, m, mode := OneRedir();
        if !one {
          RedirsErr(r1, pre);
          return false, rs;
        }
        RedirsStep(r1, pre, r0);
        RedirSnoc(s, rs, m, mode);
        rs := rs + [(m, mode)];
      }
    }

    /** One redirection: the operator and a file name. */
    method OneRedir() returns (ok: bool, m: Mark, mode: Mode)
      requires i <= |s| && Peek(s[i..], "<>")
      modifies this`i
      ensures old(i) <= i <= |s| && s[i..] == Rest(Rest(s[old(i)..])) && i > old(i)
      ensures ok == Tok(Rest(s[old(i)..])).Name?
      ensures ok ==> Good(s, m) && Slice(s, m) == Tok(Rest(s[old(i)..])).w && mode == ModeOf(Tok(s[old(i)..]))
    {
      hide *;
      RedirTok(s[i..]);
      var k, _ := GetToken();
      ghost var r := s[i..];
      var k2;
      k2, m := GetToken();
      ok := k2 == 'a';
      mode := if k == '<' then Read else if k == '>' then Write else Append;
      Names(r);
    }

    /** The argument loop of parseexec(). */
    method ReadArgs() returns (ok: bool, args: seq<Mark>, rs: seq<(Mark, Mode)>)
      requires i <= |s|
      modifies this`i
      ensures old(i) <= i <= |s|
      ensures var r := ParseArgs(s[old(i)..], 0);
                ok == r.Ok? && (ok ==> (Slices(s, args), RedirSlices(s, rs)) == r.v && s[i..] == r.rest)
      ensures (forall k :: 0 <= k < |args| ==> Good(s, args[k])) && forall k :: 0 <= k < |rs| ==> Good(s, rs[k].0)
    {
      hide *;
      ok, args, rs := true, [], [];
      ghost var r0 := s[i..];
      SlicesNone(s);
      MaxArgs();
      ArgsNone(r0);
      while true
        invariant old(i) <= i <= |s| && |args| < MAXARGS && ok
        invariant ParseArgs(r0, 0) == AddArgs(Slices(s, args), RedirSlices(s, rs), ParseArgs(s[i..], |args|))
        invariant (forall k :: 0 <= k < |args| ==> Good(s, args[k])) && forall k :: 0 <= k < |rs| ==> Good(s, rs[k].0)
        decreases |s| - i
      {
        ghost var r, a, q := s[i..], Slices(s, args), RedirSlices(s, rs);
        ArgsCases(r, |args|, a, q);
        var b := PeekAt("|)&;");
        if b {
          return;
        }
        PeekSkip(r, "|)&;");
        ArgsCodes(r);
        var k, m := GetToken();
        if k == '\0' {
          return;
        }
        if k != 'a' {
          return false, args, rs;
        }
        ArgSnoc(s, args, m);
        args := args + [m];
        if |args| >= MAXARGS {
          return false, args, rs;
        }
        var more;
        ok, more := ReadRedirs();
        ArgsNext(r, |args| - 1, a, q);
        if !ok {
          return;
        }
        RedirJoin(s, rs, more);
        rs := rs + more;
      }
    }

    /** parseexec() */
    method ParseExecAt() returns (p: Result)
      requires i <= |s|
      modifies this`i
      ensures old(i) <= i <= |s| && Agrees(s, i, p, ParseExec(s[old(i)..]))
      decreases |s| - i, 1
    {
      hide *;
      ghost var r := s[i..];
      ExecCases(r);
      var b := PeekAt("(");
      PeekSkip(r, "(");
      ghost var r1 := s[i..];
      if b {
        p := ParseBlockAt();
        return;
      }
      var ok, rs := ReadRedirs();
      if !ok {
        NoTree(s, i);
        return Panic;
      }
      var args, more;
      ok, args, more := ReadArgs();
      if !ok {
        NoTree(s, i);
        return Panic;
      }
      p := Parsed(Wrap(Exec(args), rs + more));
      RedirJoin(s, rs, more);
      ExecTree(s, i, args, rs + more);
    }

    /** parseblock() */
    method ParseBlockAt() returns (p: Result)
      requires i <= |s| && Peek(s[i..], "(")
      modifies this`i
      ensures old(i) <= i <= |s| && Agrees(s, i, p, ParseExec(s[old(i)..]))
      decreases |s| - i, 0
    {
      hide *;
      ghost var r := s[i..];
      BlockCases(r);
      var _, _ := GetToken();
      p := ParseLineAt();
      AgreesIs(s, i, p, ParseLine(Rest(r)));
      if p.Panic? {
        NoTree(s, i);
        return;
      }
      ghost var r1 := s[i..];
      var b := PeekAt(")");
      if !b {
        NoTree(s, i);
        return Panic;
      }
      PeekSkip(r1, ")");
      var _, _ := GetToken();
      var ok, rs := ReadRedirs();
      if !ok {
        NoTree(s, i);
        return Panic;
      }
      WrapTree(s, i, p.c, rs);
      p := Parsed(Wrap(p.c, rs));
    }

    /** parsepipe() */
    method ParsePipeAt() returns (p: Result)
      requires i <= |s|
      modifies this`i
      ensures old(i) <= i <= |s| && Agrees(s, i, p, ParsePipe(s[old(i)..]))
      decreases |s| - i, 2
    {
      hide *;
      ghost var r := s[i..];
      PipeCases(r);
      p := ParseExecAt();
      AgreesIs(s, i, p, ParseExec(r));
      if p.Panic? {
        NoTree(s, i);
        return;
      }
      ghost var r1 := s[i..];
      var b := PeekAt("|");
      PeekSkip(r1, "|");
      if b {
        SymbolAhead(r1, "|");
        var _, _ := GetToken();
        ghost var r2 := s[i..];
        var d := ParsePipeAt();
        AgreesIs(s, i, d, ParsePipe(r2));
        if d.Panic? {
          NoTree(s, i);
          return Panic;
        }
        PairTree(s, i, p.c, d.c);
        p := Parsed(Pipe(p.c, d.c));
      } else {
        SameTree(s, i, p.c);
      }
    }

    /** parseline() */
    method ParseLineAt() returns (p: Result)
      requires i <= |s|
      modifies this`i
      ensures old(i) <= i <= |s| && Agrees(s, i, p, ParseLine(s[old(i)..]))
      decreases |s| - i, 3
    {
      hide *;
      ghost var r := s[i..];
      LineCases(r);
      p := ParsePipeAt();
      AgreesIs(s, i, p, ParsePipe(r));
      if p.Panic? {
        NoTree(s, i);
        return;
      }
      var c := ReadBacks(p.c);
      ghost var r1 := s[i..];
      var b := PeekAt(";");
      PeekSkip(r1, ";");
      if b {
        SymbolAhead(r1, ";");
        var _, _ := GetToken();
        ghost var r2 := s[i..];
        var d := ParseLineAt();
        AgreesIs(s, i, d, ParseLine(r2));
        if d.Panic? {
          NoTree(s, i);
          return Panic;
        }
        ListTree(s, i, c, d.c);
        p := Parsed(List(c, d.c));
      } else {
        SameTree(s, i, c);
        p := Parsed(c);
      }
    }

    /** The ampersand loop of parseline(). */
    method ReadBacks(c0: Cmd<Mark>) returns (c: Cmd<Mark>)
      requires i <= |s| && AllGood(s, c0)
      modifies this`i
      ensures old(i) <= i <= |s| && AllGood(s, c)
      ensures var b := Backs(Text(s, c0), s[old(i)..]); b.Ok? && Text(s, c) == b.v && s[i..] == b.rest
    {
      hide *;
      c := c0;
      ghost var r0 := s[i..];
      while true
        invariant old(i) <= i <= |s| && AllGood(s, c) && Backs(Text(s, c0), r0) == Backs(Text(s, c), s[i..])
        decreases |s| - i
      {
        ghost var r := s[i..];
        BackCases(s, c, r);
        var b := PeekAt("&");
        if !b {
          return;
        }
        PeekSkip(r, "&");
        SymbolAhead(r, "&");
        var _, _ := GetToken();
        c := Back(c);
      }
    }

    /** parsecmd() on a fresh line, up to nulterminate(); the leftovers are a panic. */
    method ParseCmdAt() returns (p: Result)
      requires i == 0
      modifies this`i
      ensures i <= |s|
      ensures match ParseCmd(s) {
        case Err => p.Panic?
        case Ok(t, _) => p.Parsed? && AllGood(s, p.c) && Text(s, p.c) == t }
    {
      hide ParseLine, Skip, Peek;
      assert s[0..] == s;
      p := ParseLineAt();
      var _ := PeekAt("");
      if p.Parsed? && i != |s| {
        p := Panic;
      }
    }
  }

  // ---- nulterminate() ----------------------------------------------------------------------------

  /** m is one of the words of c. */
  ghost predicate IsWord(c: Cmd<Mark>, m: Mark) {
    match c
    case Exec(args) => m in args
    case Redir(d, f, _) => m == f || IsWord(d, m)
    case Pipe(l, r) => IsWord(l, m) || IsWord(r, m)
    case List(l, r) => IsWord(l, m) || IsWord(r, m)
    case Back(d) => IsWord(d, m)
  }

  /** Some word of c ends at position p. */
  ghost predicate EndsAt(c: Cmd<Mark>, p: nat) {
    match c
    case Exec(args) => exists k :: 0 <= k < |args| && args[k].eq == p
    case Redir(d, f, _) => f.eq == p || EndsAt(d, p)
    case Pipe(l, r) => EndsAt(l, p) || EndsAt(r, p)
    case List(l, r) => EndsAt(l, p) || EndsAt(r, p)
    case Back(d) => EndsAt(d, p)
  }

  /** nulterminate(): a NUL at the end of every word, and no other change. */
  method NulTerminate(buf: array<char>, c: Cmd<Mark>, ghost s: string)
    requires buf.Length == |s| + 1 && AllGood(s, c)
    modifies buf
    ensures forall p :: 0 <= p < buf.Length ==> buf[p] == if EndsAt(c, p) then '\0' else old(buf[p])
    decreases c
  {
    match c
    case Exec(args) =>
      var k := 0;
      while k < |args|
        invariant k <= |args|
        invariant forall p :: 0 <= p < buf.Length ==> buf[p] == if EndsAt(Exec(args[..k]), p) then '\0' else old(buf[p])
      {
        EndsMore(args, k);
        buf[args[k].eq] := '\0';
        k := k + 1;
      }
      assert args[..k] == args;
    case Redir(d, f, _) =>
      NulTerminate(buf, d, s);
      buf[f.eq] := '\0';
    case Pipe(l, r) =>
      NulTerminate(buf, l, s);
      NulTerminate(buf, r, s);
    case List(l, r) =>
      NulTerminate(buf, l, s);
      NulTerminate(buf, r, s);
    case Back(d) =>
      NulTerminate(buf, d, s);
  }

  lemma EndsMore(args: seq<Mark>, k: nat)
    requires k < |args|
    ensures forall p: nat :: EndsAt(Exec(args[..k + 1]), p) <==> EndsAt(Exec(args[..k]), p) || args[k].eq == p
  {
    forall p: nat ensures EndsAt(Exec(args[..k + 1]), p) <==> EndsAt(Exec(args[..k]), p) || args[k].eq == p {
      if args[k].eq == p { assert args[..k + 1][k].eq == p; }
      if EndsAt(Exec(args[..k]), p) {
        var j :| 0 <= j < k && args[..k][j].eq == p;
        assert args[..k + 1][j].eq == p;
      }
    }
  }

  /** The C string at address q. */
  function CString(b: seq<char>, q: nat): string
    decreases |b| - q
  {
    if q < |b| && b[q] != '\0' then [b[q]] + CString(b, q + 1) else []
  }

  lemma {:induction false} CStringIs(b: seq<char>, q: nat, e: nat)
    requires q <= e < |b| && b[e] == '\0' && forall j :: q <= j < e ==> b[j] != '\0'
    ensures CString(b, q) == b[q..e]
    decreases e - q
  {
    if q < e {
      CStringIs(b, q + 1, e);
      assert b[q..e] == [b[q]] + b[q + 1..e];
    }
  }

  /** A NUL falls only on separators and on the end of the line, never inside a word. */
  lemma {:induction false} EndsOutside(s: string, c: Cmd<Mark>, p: nat)
    requires AllGood(s, c) && EndsAt(c, p)
    ensures p <= |s| && (p < |s| ==> !Letter(s[p]))
  {
    match c
    case Exec(args) => var k :| 0 <= k < |args| && args[k].eq == p; assert Good(s, args[k]);
    case Redir(d, f, _) => if f.eq != p { EndsOutside(s, d, p); }
    case Pipe(l, r) => if EndsAt(l, p) { EndsOutside(s, l, p); } else { EndsOutside(s, r, p); }
    case List(l, r) => if EndsAt(l, p) { EndsOutside(s, l, p); } else { EndsOutside(s, r, p); }
    case Back(d) => EndsOutside(s, d, p);
  }

  lemma {:induction false} WordEnds(s: string, c: Cmd<Mark>, m: Mark)
    requires AllGood(s, c) && IsWord(c, m)
    ensures Good(s, m) && EndsAt(c, m.eq)
  {
    match c
    case Exec(args) => var k :| 0 <= k < |args| && args[k] == m; assert Good(s, args[k]);
    case Redir(d, f, _) => if m != f { WordEnds(s, d, m); }
    case Pipe(l, r) => if IsWord(l, m) { WordEnds(s, l, m); } else { WordEnds(s, r, m); }
    case List(l, r) => if IsWord(l, m) { WordEnds(s, l, m); } else { WordEnds(s, r, m); }
    case Back(d) => WordEnds(s, d, m);
  }

  /** parsecmd(): parse the line in the buffer and terminate its words in place.  Afterwards every
      word of the tree is, as a C string, exactly its slice of the line. */
  method ParseAndTerminate(buf: array<char>, line: string) returns (p: Result)
    requires buf.Length == |line| + 1 && buf[..] == line + ['\0'] && '\0' !in line
    modifies buf
    ensures p.Parsed? <==> ParseCmd(line).Ok?
    ensures p.Parsed? ==> Text(line, p.c) == ParseCmd(line).v
    ensures p.Parsed? ==> forall m :: IsWord(p.c, m) ==> CString(buf[..], m.q) == Slice(line, m)
  {
    hide ParseCmd, EndsAt, AllGood, IsWord;
    var parser := new Parser(line);
    p := parser.ParseCmdAt();
    if p.Parsed? {
      NulTerminate(buf, p.c, line);
      forall m | IsWord(p.c, m) ensures CString(buf[..], m.q) == Slice(line, m) {
        WordEnds(line, p.c, m);
        forall j | m.q <= j < m.eq ensures buf[..][j] == line[j] {
          if EndsAt(p.c, j) { EndsOutside(line, p.c, j); }
          assert old(buf[..])[j] == line[j];
        }
        CStringIs(buf[..], m.q, m.eq);
        assert buf[..][m.q..m.eq] == line[m.q..m.eq];
      }
    }
  }

  /** A method's outcome at cursor i is what the function says. */
  ghost predicate Agrees(s: string, i: nat, p: Result, r: Res<Cmd<string>>) {
    if r.Err? then p.Panic? else i <= |s| && p.Parsed? && AllGood(s, p.c) && Text(s, p.c) == r.v && s[i..] == r.rest
  }

  lemma AgreesIs(s: string, i: nat, p: Result, r: Res<Cmd<string>>)
    requires Agrees(s, i, p, r)
    ensures if r.Err? then p.Panic?
              else i <= |s| && p.Parsed? && AllGood(s, p.c) && Text(s, p.c) == r.v && s[i..] == r.rest
  {}

  lemma NoTree(s: string, i: nat)
    ensures Agrees(s, i, Panic, Err)
  {}

  lemma SameTree(s: string, i: nat, c: Cmd<Mark>)
    requires i <= |s| && AllGood(s, c)
    ensures Agrees(s, i, Parsed(c), Ok(Text(s, c), s[i..]))
  {}

  lemma WrapTree(s: string, i: nat, c: Cmd<Mark>, rs: seq<(Mark, Mode)>)
    requires i <= |s| && AllGood(s, c) && forall k :: 0 <= k < |rs| ==> Good(s, rs[k].0)
    ensures Agrees(s, i, Parsed(Wrap(c, rs)), Ok(Wrap(Text(s, c), RedirSlices(s, rs)), s[i..]))
  {
    TextWrap(s, c, rs);
    WrapGood(s, c, rs);
  }

  lemma ExecTree(s: string, i: nat, args: seq<Mark>, rs: seq<(Mark, Mode)>)
    requires i <= |s| && (forall k :: 0 <= k < |args| ==> Good(s, args[k]))
               && forall k :: 0 <= k < |rs| ==> Good(s, rs[k].0)
    ensures Agrees(s, i, Parsed(Wrap(Exec(args), rs)), Ok(Wrap(Exec(Slices(s, args)), RedirSlices(s, rs)), s[i..]))
  {
    WrapTree(s, i, Exec(args), rs);
  }

  lemma PairTree(s: string, i: nat, c: Cmd<Mark>, d: Cmd<Mark>)
    requires i <= |s| && AllGood(s, c) && AllGood(s, d)
    ensures Agrees(s, i, Parsed(Pipe(c, d)), Ok(Pipe(Text(s, c), Text(s, d)), s[i..]))
  {}

  lemma ListTree(s: string, i: nat, c: Cmd<Mark>, d: Cmd<Mark>)
    requires i <= |s| && AllGood(s, c) && AllGood(s, d)
    ensures Agrees(s, i, Parsed(List(c, d)), Ok(List(Text(s, c), Text(s, d)), s[i..]))
  {}

  // The grammar rules once more, as the methods use them.

  lemma ExecCases(r: string)
    ensures ParseExec(Skip(r)) == ParseExec(r)
    ensures !Peek(r, "(") ==> ParseExec(r) == match ParseRedirs(r) {
        case Err => Err
        case Ok(rs, r1) =>
          match ParseArgs(r1, 0) {
            case Err => Err
            case Ok(more, rest) => Ok(Wrap(Exec(more.0), rs + more.1), rest)
          } }
    ensures ParseRedirs(Skip(r)) == ParseRedirs(r)
  {
    hide Tok, Rest, Peek, Skip, ParseLine, ParseArgs, ParseRedirs, Wrap;
    PeekSkip(r, "(");
    ParseRedirsSkip(r);
    if Peek(r, "(") { assert ParseBlock(Skip(r)) == ParseBlock(r); }
  }

  lemma BlockCases(r: string)
    requires Peek(r, "(")
    ensures Tok(r) != End && Code(Tok(r)) != '\0'
    ensures ParseExec(r) == match ParseLine(Rest(r)) {
        case Err => Err
        case Ok(c, r1) =>
          if !Peek(r1, ")") then Err
          else match ParseRedirs(Rest(r1)) { case Err => Err case Ok(rs, rest) => Ok(Wrap(c, rs), rest) } }
  {
    hide ParseLine, ParseRedirs, Wrap;
  }

  lemma PipeCases(r: string)
    ensures ParsePipe(r) == match ParseExec(r) {
        case Err => Err
        case Ok(c, r1) =>
          if !Peek(r1, "|") then Ok(c, Skip(r1))
          else match ParsePipe(Rest(r1)) { case Err => Err case Ok(d, rest) => Ok(Pipe(c, d), rest) } }
  {
    hide ParseExec, Tok, Rest, Peek, Skip;
  }

  lemma LineCases(r: string)
    ensures ParseLine(r) == match ParsePipe(r) {
        case Err => Err
        case Ok(c0, r0) =>
          var b := Backs(c0, r0);
          if !Peek(b.rest, ";") then Ok(b.v, Skip(b.rest))
          else match ParseLine(Rest(b.rest)) { case Err => Err case Ok(d, rest) => Ok(List(b.v, d), rest) } }
  {
    hide ParsePipe, Backs, Tok, Rest, Peek, Skip;
  }

  lemma BackCases(s: string, c: Cmd<Mark>, r: string)
    requires AllGood(s, c)
    ensures AllGood(s, Back(c)) && Text(s, Back(c)) == Back(Text(s, c))
    ensures Backs(Text(s, c), r) == if Peek(r, "&") then Backs(Back(Text(s, c)), Rest(r)) else Ok(Text(s, c), Skip(r))
  {
    hide Tok, Rest, Peek, Skip;
  }

  lemma SymbolAhead(r: string, toks: string)
    requires Peek(r, toks) && (toks == "|" || toks == ";" || toks == "&")
    ensures Tok(r) != End && Code(Tok(r)) != '\0'
  {}

  lemma MaxArgs()
    ensures MAXARGS == 10
  {}

  lemma ArgsNone(r: string)
    ensures AddArgs([], [], ParseArgs(r, 0)) == ParseArgs(r, 0)
  {
    var p := ParseArgs(r, 0);
    if p.Ok? { assert [] + p.v.0 == p.v.0 && [] + p.v.1 == p.v.1; }
  }

  /** Where the loop stops, and where it panics. */
  lemma ArgsCases(r: string, n: nat, a: seq<string>, q: Redirs)
    ensures Peek(r, "|)&;") || Tok(r).End? ==> AddArgs(a, q, ParseArgs(r, n)) == Ok((a, q), Skip(r))
    ensures !Peek(r, "|)&;") && !Tok(r).End? && (!Tok(r).Name? || n + 1 >= MAXARGS) ==>
              AddArgs(a, q, ParseArgs(r, n)).Err?
  {
    hide Tok, Peek, Skip, Rest, ParseRedirs;
    assert a + [] == a && q + [] == q;
  }

  lemma ArgsCodes(r: string)
    ensures Code(Tok(r)) == '\0' ==> Tok(r).End? || Tok(r) == Sym('\0')
    ensures Code(Tok(r)) == 'a' <==> Tok(r).Name?
    ensures Tok(r).End? ==> Code(Tok(r)) == '\0' && Rest(r) == Skip(r)
    ensures Tok(r) != Sym('\0')
  {}

  lemma ArgsNext(r: string, n: nat, a: seq<string>, q: Redirs)
    requires !Peek(r, "|)&;") && Tok(r).Name? && n + 1 < MAXARGS
    ensures var x := ParseRedirs(Rest(r));
      AddArgs(a, q, ParseArgs(r, n)) ==
        if x.Err? then Err else AddArgs(a + [Tok(r).w], q + x.v, ParseArgs(x.rest, n + 1))
  {
    hide Tok, Peek, Skip, Rest, ParseRedirs;
    var x := ParseRedirs(Rest(r));
    if x.Ok? {
      var y := ParseArgs(x.rest, n + 1);
      if y.Ok? { assert a + ([Tok(r).w] + y.v.0) == a + [Tok(r).w] + y.v.0 && q + (x.v + y.v.1) == q + x.v + y.v.1; }
    }
  }

  lemma ArgSnoc(s: string, args: seq<Mark>, m: Mark)
    ensures Slices(s, args + [m]) == Slices(s, args) + [Slice(s, m)]
  {
    assert (args + [m])[..|args|] == args;
  }

  lemma RedirJoin(s: string, a: seq<(Mark, Mode)>, b: seq<(Mark, Mode)>)
    ensures RedirSlices(s, a + b) == RedirSlices(s, a) + RedirSlices(s, b)
  {}

  lemma SlicesNone(s: string)
    ensures Slices(s, []) == [] && RedirSlices(s, []) == []
  {}

  lemma RedirSnoc(s: string, rs: seq<(Mark, Mode)>, m: Mark, mode: Mode)
    ensures RedirSlices(s, rs + [(m, mode)]) == RedirSlices(s, rs) + [(Slice(s, m), mode)]
  {
    assert (rs + [(m, mode)])[..|rs|] == rs;
  }

  lemma PeekSkip(r: string, toks: string)
    ensures Peek(Skip(r), toks) == Peek(r, toks) && Skip(Skip(r)) == Skip(r) && Tok(Skip(r)) == Tok(r)
              && Rest(Skip(r)) == Rest(r)
  {
    if Skip(r) != [] { SkipHead(r); }
  }

  lemma ParseRedirsSkip(r: string)
    ensures ParseRedirs(Skip(r)) == ParseRedirs(r) && (!Peek(r, "<>") ==> ParseRedirs(r) == Ok([], Skip(r)))
  {
    hide Tok, Rest, Peek, Skip;
    PeekSkip(r, "<>");
  }

  lemma RedirsNone(r: string)
    ensures AddRedirs([], ParseRedirs(r)) == ParseRedirs(r)
  {
    if ParseRedirs(r).Ok? { assert [] + ParseRedirs(r).v == ParseRedirs(r).v; }
  }

  lemma RedirsEnd(r: string, pre: Redirs)
    requires ParseRedirs(r) == Ok([], Skip(r))
    ensures AddRedirs(pre, ParseRedirs(r)) == Ok(pre, Skip(r))
  {
    assert pre + [] == pre;
  }

  lemma RedirsErr(r: string, pre: Redirs)
    requires Peek(r, "<>") && !Tok(Rest(r)).Name?
    ensures AddRedirs(pre, ParseRedirs(r)).Err?
  {}

  lemma RedirTok(r: string)
    requires Peek(r, "<>")
    ensures Tok(r) != End && Code(Tok(r)) != '\0'
    ensures ModeOf(Tok(r)) == (if Code(Tok(r)) == '<' then Read else if Code(Tok(r)) == '>' then Write else Append)
  {}

  lemma Names(r: string)
    ensures Code(Tok(r)) == 'a' <==> Tok(r).Name?
  {}

  lemma RedirsStep(r: string, pre: Redirs, r0: string)
    requires Peek(r, "<>") && Tok(Rest(r)).Name? && ParseRedirs(r0) == AddRedirs(pre, ParseRedirs(r))
    ensures ParseRedirs(r0) == AddRedirs(pre + [(Tok(Rest(r)).w, ModeOf(Tok(r)))], ParseRedirs(Rest(Rest(r))))
  {
    hide Tok, Rest, Peek, Skip;
    var x := [(Tok(Rest(r)).w, ModeOf(Tok(r)))];
    var n := ParseRedirs(Rest(Rest(r)));
    if n.Ok? { assert pre + (x + n.v) == pre + x + n.v; }
  }
}
