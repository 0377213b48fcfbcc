/** The grammar of sh.c: what the parser returns for a text and a position. */
module ShellSpec {
  import opened Machine

  datatype RedirKind = In | Out | OutAppend

  /** A command over words of type W: a span of the text, or the word itself. */
  datatype Cmd<W> =
    | Exec(argv: seq<W>)
    | Redir(cmd: Cmd<W>, file: W, kind: RedirKind)
    | Pipe(left: Cmd<W>, right: Cmd<W>)
    | List(left: Cmd<W>, right: Cmd<W>)
    | Back(cmd: Cmd<W>)

  /** A word of the text: argv and eargv, or file and efile. */
  datatype Span = Span(q: nat, eq: nat)

  datatype Redirection<W> = Redirection(file: W, kind: RedirKind)

  datatype Tok = End | Symbol(c: char) | Append | Word(span: Span)
  datatype Token = Token(tok: Tok, next: nat)

  /** A command and the position after it, or a syntax error. */
  datatype Res = Ok(c: Cmd<Span>, i: nat) | Fail
  datatype Redirs = Some(rs: seq<Redirection<Span>>, i: nat) | None

  const MAXARGS: nat := 10

  predicate White(c: char) {
    c == ' ' || c == '\t' || c == '\r' || c == '\n' || c == '\U{0B}'
  }

  predicate Special(c: char) {
    c == '<' || c == '|' || c == '>' || c == '&' || c == ';' || c == '(' || c == ')'
  }

  predicate WordChar(c: char) {
    !White(c) && !Special(c) && c != NUL
  }

  /** The text is a C string: behind its end there is a NUL. */
  function At(t: string, i: nat): char {
    if i < |t| then t[i] else NUL
  }

  function SkipWhite(t: string, i: nat): (j: nat)
    requires i <= |t|
    ensures i <= j <= |t|
    decreases |t| - i
  {
    if i < |t| && White(t[i]) then SkipWhite(t, i + 1) else i
  }

  lemma {:induction false} SkipStops(t: string, i: nat)
    requires i <= |t|
    ensures !White(At(t, SkipWhite(t, i)))
    decreases |t| - i
  {
    if i < |t| && White(t[i]) {
      SkipStops(t, i + 1);
    }
  }

  function WordEnd(t: string, i: nat): (j: nat)
    requires i <= |t|
    ensures i <= j <= |t|
    decreases |t| - i
  {
    if i < |t| && !White(t[i]) && !Special(t[i]) then WordEnd(t, i + 1) else i
  }

  /** gettoken */
  function GetToken(t: string, i: nat): (r: Token)
    requires i <= |t| && NulFree(t)
    ensures i <= r.next <= |t| && (r.tok != End ==> i < r.next)
  {
    var s := SkipWhite(t, i);
    var c := At(t, s);
    if s == |t| then Token(End, s)
    else if c == '>' then
      if At(t, s + 1) == '>' then Token(Append, SkipWhite(t, s + 2)) else Token(Symbol('>'), SkipWhite(t, s + 1))
    else if Special(c) then Token(Symbol(c), SkipWhite(t, s + 1))
    else
      SkipStops(t, i);
      assert WordEnd(t, s) > s;
      Token(Word(Span(s, WordEnd(t, s))), SkipWhite(t, WordEnd(t, s)))
  }

  lemma {:induction false} WordEndIs(t: string, i: nat)
    requires i <= |t|
    ensures var j := WordEnd(t, i);
            (j == |t| || White(t[j]) || Special(t[j])) && forall k :: i <= k < j ==> !White(t[k]) && !Special(t[k])
    decreases |t| - i
  {
    if i < |t| && !White(t[i]) && !Special(t[i]) {
      WordEndIs(t, i + 1);
    }
  }

  /** gettoken delimits words by their characters alone. */
  lemma TokenSpan(t: string, i: nat)
    requires i <= |t| && NulFree(t)
    ensures GetToken(t, i).tok.Word? ==> SpanOk(t, GetToken(t, i).tok.span)
  {
    SkipStops(t, i);
    WordEndIs(t, SkipWhite(t, i));
  }

  /** A span is a maximal run of word characters. */
  predicate SpanOk(t: string, w: Span) {
    && w.q < w.eq <= |t| && (forall k :: w.q <= k < w.eq ==> WordChar(t[k]))
    && !WordChar(At(t, w.eq))
  }

  /** Redirections, innermost first, around a command. */
  function Wrap<W>(c: Cmd<W>, rs: seq<Redirection<W>>): Cmd<W> {
    if rs == [] then c else Redir(Wrap(c, rs[..|rs| - 1]), rs[|rs| - 1].file, rs[|rs| - 1].kind)
  }

  /** parseredirs, collecting what it wraps around the command. */
  function ParseRedirs(t: string, i: nat, rs: seq<Redirection<Span>>): (r: Redirs)
    requires i <= |t| && NulFree(t)
    ensures r.Some? ==> i <= r.i <= |t|
    decreases |t| - i
  {
    var j := SkipWhite(t, i);
    if At(t, j) == '<' || At(t, j) == '>' then
      var op := GetToken(t, j);
      var f := GetToken(t, op.next);
      if !f.tok.Word? then None
      else
        var kind := if op.tok == Append then OutAppend else if op.tok == Symbol('<') then In else Out;
        ParseRedirs(t, f.next, rs + [Redirection(f.tok.span, kind)])
    else Some(rs, j)
  }

  /** parseexec without parentheses: arguments and redirections in any order. */
  function ParseArgs(t: string, i: nat, argv: seq<Span>, rs: seq<Redirection<Span>>): (r: Res)
    requires i <= |t| && NulFree(t)
    ensures r.Ok? ==> i <= r.i <= |t|
    decreases |t| - i
  {
    var j := SkipWhite(t, i);
    var c := At(t, j);
    if c == '|' || c == ')' || c == '&' || c == ';' then Ok(Wrap(Exec(argv), rs), j)
    else
      var tok := GetToken(t, j);
      if tok.tok == End then Ok(Wrap(Exec(argv), rs), tok.next)
      else if !tok.tok.Word? || |argv| + 1 >= MAXARGS then Fail
      else
        var more := ParseRedirs(t, tok.next, rs);
        if more.None? then Fail else ParseArgs(t, more.i, argv + [tok.tok.span], more.rs)
  }

  function ParseExec(t: string, i: nat): (r: Res)
    requires i <= |t| && NulFree(t)
    ensures r.Ok? ==> i <= r.i <= |t|
    decreases |t| - i, 1
  {
    var j := SkipWhite(t, i);
    if At(t, j) == '(' then ParseBlock(t, j)
    else
      var rs := ParseRedirs(t, j, []);
      if rs.None? then Fail else ParseArgs(t, rs.i, [], rs.rs)
  }

  function ParseBlock(t: string, i: nat): (r: Res)
    requires i <= |t| && NulFree(t)
    ensures r.Ok? ==> i <= r.i <= |t|
    decreases |t| - i, 0
  {
    var j := SkipWhite(t, i);
    if At(t, j) != '(' then Fail
    else
      var r := ParseLine(t, GetToken(t, j).next);
      if r.Fail? then Fail
      else
        var k := SkipWhite(t, r.i);
        if At(t, k) != ')' then Fail
        else
          var rs := ParseRedirs(t, GetToken(t, k).next, []);
          if rs.None? then Fail else Ok(Wrap(r.c, rs.rs), rs.i)
  }

  function ParsePipe(t: string, i: nat): (r: Res)
    requires i <= |t| && NulFree(t)
    ensures r.Ok? ==> i <= r.i <= |t|
    decreases |t| - i, 2
  {
    var a := ParseExec(t, i);
    if a.Fail? then Fail
    else
      var j := SkipWhite(t, a.i);
      if At(t, j) != '|' then Ok(a.c, j)
      else
        var b := ParsePipe(t, GetToken(t, j).next);
        if b.Fail? then Fail else Ok(Pipe(a.c, b.c), b.i)
  }

  /** The &s after a command. */
  function ParseBacks(t: string, i: nat, c: Cmd<Span>): (r: Res)
    requires i <= |t| && NulFree(t)
    ensures r.Ok? && i <= r.i <= |t|
    decreases |t| - i
  {
    var j := SkipWhite(t, i);
    if At(t, j) != '&' then Ok(c, j) else ParseBacks(t, GetToken(t, j).next, Back(c))
  }

  function ParseLine(t: string, i: nat): (r: Res)
    requires i <= |t| && NulFree(t)
    ensures r.Ok? ==> i <= r.i <= |t|
    decreases |t| - i, 3
  {
    var a := ParsePipe(t, i);
    if a.Fail? then Fail
    else
      var b := ParseBacks(t, a.i, a.c);
      var j := SkipWhite(t, b.i);
      if At(t, j) != ';' then Ok(b.c, j)
      else
        var r := ParseLine(t, GetToken(t, j).next);
        if r.Fail? then Fail else Ok(List(b.c, r.c), r.i)
  }

  /** parsecmd: the whole text is one command. */
  function ParseCmd(t: string): Res
    requires NulFree(t)
  {
    var r := ParseLine(t, 0);
    if r.Ok? && SkipWhite(t, r.i) == |t| then r else Fail
  }
}
