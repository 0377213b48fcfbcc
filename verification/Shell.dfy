/** The recursive-descent parser of sh.c with its cursor, and nulterminate. */
module Shell {
  import Spec = ShellSpec
  import opened Machine
  import opened ShellSpec
  import opened ShellProof

  datatype Maybe<T> = Got(value: T) | Syntax

  class Parser {
    const text: string
    var pos: nat

    ghost predicate Valid()
      reads this
    {
      NulFree(text) && pos <= |text|
    }

    constructor (text: string)
      requires NulFree(text)
      ensures Valid() && this.text == text && pos == 0
    {
      this.text := text;
      pos := 0;
    }

    /** Move past white space, if any. */
    method Skip()
      requires Valid()
      modifies this`pos
      ensures Valid() && pos == SkipWhite(text, old(pos))
    {
      while pos < |text| && White(text[pos])
        invariant Valid() && SkipWhite(text, pos) == SkipWhite(text, old(pos))
      {
        pos := pos + 1;
      }
    }

    /** peek: the next character that is not white space, if it is one of toks. */
    method Peek(toks: string) returns (b: bool)
      requires Valid()
      modifies this`pos
      ensures Valid() && pos == SkipWhite(text, old(pos))
      ensures b <==> At(text, pos) != NUL && At(text, pos) in toks
    {
      Skip();
      b := At(text, pos) != NUL && At(text, pos) in toks;
    }

    method GetToken() returns (tok: Tok)
      requires Valid()
      modifies this`pos
      ensures Valid() && Token(tok, pos) == Spec.GetToken(text, old(pos))
    {
      Skip();
      var s := pos;
      SkipStops(text, old(pos));
      if s == |text| {
        tok := End;
      } else if text[s] == '>' {
        tok := Symbol('>');
        pos := pos + 1;
        if At(text, pos) == '>' {
          tok := Append;
          pos := pos + 1;
        }
      } else if Special(text[s]) {
        tok := Symbol(text[s]);
        pos := pos + 1;
      } else {
        ToWordEnd();
        tok := Word(Span(s, pos));
      }
      Skip();
    }

    method ToWordEnd()
      requires Valid()
      modifies this`pos
      ensures Valid() && pos == WordEnd(text, old(pos))
    {
      while pos < |text| && !White(text[pos]) && !Special(text[pos])
        invariant Valid() && WordEnd(text, pos) == WordEnd(text, old(pos))
      {
        pos := pos + 1;
      }
    }

    /** parseredirs, with the redirections found so far. */
    method ParseRedirs(before: seq<Redirection<Span>>) returns (r: Maybe<seq<Redirection<Span>>>)
      requires Valid()
      modifies this`pos
      ensures Valid() && old(pos) <= pos
      ensures var s := Spec.ParseRedirs(text, old(pos), before);
              r == (if s.Some? then Got(s.rs) else Syntax) && (s.Some? ==> pos == s.i)
    {
      ghost var all := Spec.ParseRedirs(text, pos, before);
      RedirsSkip(text, pos, before);
      var rs, ok := before, true;
      var more := Peek("<>");
      while more && ok
        invariant Valid() && old(pos) <= pos && SkipWhite(text, pos) == pos && (ok ==> (more <==> At(text, pos) == '<' || At(text, pos) == '>'))
        invariant all == if ok then Spec.ParseRedirs(text, pos, rs) else None
        decreases |text| - pos, ok
      {
        ok, rs := OneRedir(rs);
        RedirsSkip(text, pos, rs);
        more := Peek("<>");
      }
      r := if ok then Got(rs) else Syntax;
    }

    /** One iteration of parseredirs. */
    method OneRedir(before: seq<Redirection<Span>>) returns (ok: bool, rs: seq<Redirection<Span>>)
      requires Valid() && SkipWhite(text, pos) == pos && (At(text, pos) == '<' || At(text, pos) == '>')
      modifies this`pos
      ensures Valid() && old(pos) < pos
      ensures Spec.ParseRedirs(text, old(pos), before) == if ok then Spec.ParseRedirs(text, pos, rs) else None
    {
      var op := GetToken();
      var f := GetToken();
      ok, rs := f.Word?, before;
      if ok {
        var kind := if op == Append then OutAppend else if op == Symbol('<') then In else Out;
        rs := before + [Redirection(f.span, kind)];
      }
    }

    static lemma RedirsSkip(t: string, i: nat, rs: seq<Redirection<Span>>)
      requires NulFree(t) && i <= |t|
      ensures SkipWhite(t, SkipWhite(t, i)) == SkipWhite(t, i)
      ensures Spec.ParseRedirs(t, SkipWhite(t, i), rs) == Spec.ParseRedirs(t, i, rs)
    {
      SkipStops(t, i);
      SkipNone(t, SkipWhite(t, i));
    }

    /** A parse function did what the grammar says. */
    static ghost predicate Agrees(s: Res, r: Maybe<Cmd<Span>>, pos: nat) {
      if s.Ok? then r == Got(s.c) && pos == s.i else r == Syntax
    }

    /** The loop of parseexec: arguments, with redirections before, between and after them. */
    method ParseArgs(wrap: seq<Redirection<Span>>) returns (r: Maybe<Cmd<Span>>)
      requires Valid()
      modifies this`pos
      ensures Valid() && old(pos) <= pos && Agrees(Spec.ParseArgs(text, old(pos), [], wrap), r, pos)
    {
      ghost var all := Spec.ParseArgs(text, pos, [], wrap);
      var argv, rs := [], wrap;
      var ok := true;
      ArgsSkip(text, pos, argv, rs);
      var stop := Peek("|)&;");
      while !stop && ok
        invariant Valid() && old(pos) <= pos && |argv| < MAXARGS && SkipWhite(text, pos) == pos
        invariant ok ==> all == Spec.ParseArgs(text, pos, argv, rs) && (stop ==> all == Ok(Wrap(Exec(argv), rs), pos))
        invariant ok && !stop ==> !Closes(At(text, pos))
        invariant !ok ==> all == Fail
        decreases |text| - pos, !stop, ok
      {
        ok, stop, argv, rs := OneArg(argv, rs);
        if !stop {
          ArgsSkip(text, pos, argv, rs);
          stop := Peek("|)&;");
        }
      }
      r := if ok then Got(Wrap(Exec(argv), rs)) else Syntax;
    }

    static predicate Closes(c: char) {
      c == '|' || c == ')' || c == '&' || c == ';'
    }

    /** One iteration; stop at the end of the text. */
    method OneArg(before: seq<Span>, rs0: seq<Redirection<Span>>) returns (ok: bool, stop: bool, argv: seq<Span>, rs: seq<Redirection<Span>>)
      requires Valid() && |before| < MAXARGS && SkipWhite(text, pos) == pos && !Closes(At(text, pos))
      modifies this`pos
      ensures Valid() && old(pos) <= pos && |argv| < MAXARGS && (ok && !stop ==> old(pos) < pos)
      ensures stop ==> ok && argv == before && rs == rs0 && SkipWhite(text, pos) == pos && Spec.ParseArgs(text, old(pos), before, rs0) == Ok(Wrap(Exec(argv), rs), pos)
                       && Spec.ParseArgs(text, pos, argv, rs) == Ok(Wrap(Exec(argv), rs), pos)
      ensures !stop ==> Spec.ParseArgs(text, old(pos), before, rs0) == if ok then Spec.ParseArgs(text, pos, argv, rs) else Fail
    {
      argv, rs, ok, stop := before, rs0, true, false;
      var tok := GetToken();
      if tok == End {
        stop := true;
        SkipNone(text, pos);
      } else if !tok.Word? || |argv| + 1 >= MAXARGS {
        ok := false;
      } else {
        argv := argv + [tok.span];
        var more := ParseRedirs(rs0);
        ok := more.Got?;
        rs := if ok then more.value else rs0;
      }
    }

    static lemma ArgsSkip(t: string, i: nat, argv: seq<Span>, rs: seq<Redirection<Span>>)
      requires NulFree(t) && i <= |t|
      ensures SkipWhite(t, SkipWhite(t, i)) == SkipWhite(t, i)
      ensures Spec.ParseArgs(t, SkipWhite(t, i), argv, rs) == Spec.ParseArgs(t, i, argv, rs)
      ensures Closes(At(t, SkipWhite(t, i))) ==> Spec.ParseArgs(t, i, argv, rs) == Ok(Wrap(Exec(argv), rs), SkipWhite(t, i))
    {
      SkipStops(t, i);
      SkipNone(t, SkipWhite(t, i));
    }

    method ParseExec() returns (r: Maybe<Cmd<Span>>)
      requires Valid()
      modifies this`pos
      ensures Valid() && old(pos) <= pos && Agrees(Spec.ParseExec(text, old(pos)), r, pos)
      decreases |text| - pos, 1
    {
      var block := Peek("(");
      if block {
        r := ParseBlock();
      } else {
        var rs := ParseRedirs([]);
        if rs.Got? {
          r := ParseArgs(rs.value);
        } else {
          r := Syntax;
        }
      }
    }

    method ParseBlock() returns (r: Maybe<Cmd<Span>>)
      requires Valid()
      modifies this`pos
      ensures Valid() && old(pos) <= pos && Agrees(Spec.ParseBlock(text, old(pos)), r, pos)
      decreases |text| - pos, 0
    {
      r := Syntax;
      var open := Peek("(");
      if open {
        var tok := GetToken();
        r := ParseLine();
        if r.Got? {
          r := CloseBlock(r.value);
        }
      }
    }

    /** The rest of parseblock, after its command. */
    method CloseBlock(c: Cmd<Span>) returns (r: Maybe<Cmd<Span>>)
      requires Valid()
      modifies this`pos
      ensures Valid() && old(pos) <= pos
      ensures var k := SkipWhite(text, old(pos));
              if At(text, k) != ')' then r == Syntax
              else var rs := Spec.ParseRedirs(text, Spec.GetToken(text, k).next, []);
                   if rs.None? then r == Syntax else r == Got(Wrap(c, rs.rs)) && pos == rs.i
    {
      r := Syntax;
      var close := Peek(")");
      if close {
        var tok := GetToken();
        var rs := ParseRedirs([]);
        if rs.Got? {
          r := Got(Wrap(c, rs.value));
        }
      }
    }

    method ParsePipe() returns (r: Maybe<Cmd<Span>>)
      requires Valid()
      modifies this`pos
      ensures Valid() && old(pos) <= pos && Agrees(Spec.ParsePipe(text, old(pos)), r, pos)
      decreases |text| - pos, 2
    {
      r := ParseExec();
      if r.Got? {
        var bar := Peek("|");
        if bar {
          var tok := GetToken();
          var right := ParsePipe();
          r := if right.Got? then Got(Pipe(r.value, right.value)) else Syntax;
        }
      }
    }

    method ParseBacks(c: Cmd<Span>) returns (d: Cmd<Span>)
      requires Valid()
      modifies this`pos
      ensures Valid() && old(pos) <= pos && Spec.ParseBacks(text, old(pos), c) == Ok(d, pos)
    {
      ghost var all := Spec.ParseBacks(text, pos, c);
      d := c;
      BacksSkip(text, pos, d);
      var more := Peek("&");
      while more
        invariant Valid() && old(pos) <= pos && SkipWhite(text, pos) == pos && (more <==> At(text, pos) == '&')
        invariant all == Spec.ParseBacks(text, pos, d)
        decreases |text| - pos
      {
        var tok := GetToken();
        d := Back(d);
        BacksSkip(text, pos, d);
        more := Peek("&");
      }
    }

    static lemma BacksSkip(t: string, i: nat, c: Cmd<Span>)
      requires NulFree(t) && i <= |t|
      ensures SkipWhite(t, SkipWhite(t, i)) == SkipWhite(t, i)
      ensures Spec.ParseBacks(t, SkipWhite(t, i), c) == Spec.ParseBacks(t, i, c)
    {
      SkipStops(t, i);
      SkipNone(t, SkipWhite(t, i));
    }

    method ParseLine() returns (r: Maybe<Cmd<Span>>)
      requires Valid()
      modifies this`pos
      ensures Valid() && old(pos) <= pos && Agrees(Spec.ParseLine(text, old(pos)), r, pos)
      decreases |text| - pos, 3
    {
      r := ParsePipe();
      if r.Got? {
        var c := ParseBacks(r.value);
        r := Got(c);
        var semi := Peek(";");
        if semi {
          var tok := GetToken();
          var right := ParseLine();
          r := if right.Got? then Got(List(c, right.value)) else Syntax;
        }
      }
    }

    /** parsecmd on the whole text. */
    method ParseCmd() returns (r: Maybe<Cmd<Span>>)
      requires Valid() && pos == 0
      modifies this`pos
      ensures Valid() && r == (if Spec.ParseCmd(text).Ok? then Got(Spec.ParseCmd(text).c) else Syntax)
    {
      r := ParseLine();
      if r.Got? {
        var b := Peek("");
        r := if pos == |text| then r else Syntax;
      }
    }
  }

  // ----- nulterminate ---------------------------------------------------------------------------

  /** w is a word of the command. */
  predicate Mentions(c: Cmd<Span>, w: Span) {
    match c
    case Exec(argv) => w in argv
    case Redir(d, file, _) => Mentions(d, w) || w == file
    case Pipe(l, r) => Mentions(l, w) || Mentions(r, w)
    case List(l, r) => Mentions(l, w) || Mentions(r, w)
    case Back(d) => Mentions(d, w)
  }

  /** A word of the command ends at j. */
  predicate EndsAt(c: Cmd<Span>, j: nat) {
    match c
    case Exec(argv) => exists k :: 0 <= k < |argv| && argv[k].eq == j
    case Redir(d, file, _) => EndsAt(d, j) || file.eq == j
    case Pipe(l, r) => EndsAt(l, j) || EndsAt(r, j)
    case List(l, r) => EndsAt(l, j) || EndsAt(r, j)
    case Back(d) => EndsAt(d, j)
  }

  /** The words are maximal runs of word characters, and each simple command has room for its arguments. */
  ghost predicate AllOk(t: string, c: Cmd<Span>) {
    match c
    case Exec(argv) => |argv| < MAXARGS && forall k :: 0 <= k < |argv| ==> SpanOk(t, argv[k])
    case Redir(d, file, _) => AllOk(t, d) && SpanOk(t, file)
    case Pipe(l, r) => AllOk(t, l) && AllOk(t, r)
    case List(l, r) => AllOk(t, l) && AllOk(t, r)
    case Back(d) => AllOk(t, d)
  }

  /** nulterminate: a NUL behind every word, and nothing else. */
  method NulTerminate(buf: array<char>, c: Cmd<Span>, ghost t: string)
    requires AllOk(t, c) && buf.Length == |t| + 1
    modifies buf
    ensures forall j :: 0 <= j < buf.Length ==> buf[j] == if EndsAt(c, j) then NUL else old(buf[j])
    decreases c
  {
    match c
    case Exec(argv) =>
      var i := 0;
      while i < |argv|
        invariant 0 <= i <= |argv|
        invariant forall j :: 0 <= j < buf.Length ==> buf[j] == if exists k :: 0 <= k < i && argv[k].eq == j then NUL else old(buf[j])
      {
        buf[argv[i].eq] := NUL;
        i := i + 1;
      }
    case Redir(d, file, _) =>
      NulTerminate(buf, d, t);
      buf[file.eq] := NUL;
    case Pipe(l, r) =>
      NulTerminate(buf, l, t);
      NulTerminate(buf, r, t);
    case List(l, r) =>
      NulTerminate(buf, l, t);
      NulTerminate(buf, r, t);
    case Back(d) =>
      NulTerminate(buf, d, t);
  }

  /** The C string that starts at q. */
  function CString(s: string, q: nat): string
    decreases |s| - q
  {
    if q >= |s| || s[q] == NUL then "" else [s[q]] + CString(s, q + 1)
  }

  lemma {:induction false} CStringIs(s: string, q: nat, e: nat)
    requires q <= e < |s| && s[e] == NUL && forall k :: q <= k < e ==> s[k] != NUL
    ensures CString(s, q) == s[q..e]
    decreases e - q
  {
    if q < e {
      CStringIs(s, q + 1, e);
    }
  }

  lemma {:induction false} EndOfWord(t: string, c: Cmd<Span>, j: nat)
    requires AllOk(t, c) && EndsAt(c, j)
    ensures j <= |t| && !WordChar(At(t, j))
  {
    match c
    case Exec(argv) =>
      var k :| 0 <= k < |argv| && argv[k].eq == j;
    case Redir(d, file, _) => if EndsAt(d, j) { EndOfWord(t, d, j); }
    case Pipe(l, r) => if EndsAt(l, j) { EndOfWord(t, l, j); } else { EndOfWord(t, r, j); }
    case List(l, r) => if EndsAt(l, j) { EndOfWord(t, l, j); } else { EndOfWord(t, r, j); }
    case Back(d) => EndOfWord(t, d, j);
  }

  lemma {:induction false} MentionedOk(t: string, c: Cmd<Span>, w: Span)
    requires AllOk(t, c) && Mentions(c, w)
    ensures SpanOk(t, w) && EndsAt(c, w.eq)
  {
    match c
    case Exec(argv) =>
      var k :| 0 <= k < |argv| && argv[k] == w;
    case Redir(d, file, _) => if Mentions(d, w) { MentionedOk(t, d, w); }
    case Pipe(l, r) => if Mentions(l, w) { MentionedOk(t, l, w); } else { MentionedOk(t, r, w); }
    case List(l, r) => if Mentions(l, w) { MentionedOk(t, l, w); } else { MentionedOk(t, r, w); }
    case Back(d) => MentionedOk(t, d, w);
  }

  /** After nulterminate every argument and file name is exactly its token. */
  lemma WordsAreTokens(t: string, c: Cmd<Span>, buf: string, w: Span)
    requires AllOk(t, c) && NulFree(t) && |buf| == |t| + 1 && Mentions(c, w)
    requires forall j :: 0 <= j < |buf| ==> buf[j] == if EndsAt(c, j) then NUL else At(t, j)
    ensures CString(buf, w.q) == Text(t, w)
  {
    MentionedOk(t, c, w);
    forall k | w.q <= k < w.eq ensures buf[k] == t[k] {
      if EndsAt(c, k) {
        EndOfWord(t, c, k);
      }
    }
    CStringIs(buf, w.q, w.eq);
    assert buf[w.q..w.eq] == t[w.q..w.eq];
  }

  // ----- the words of a parsed command ------------------------------------------------------------

  ghost predicate RedirsOk(t: string, rs: seq<Redirection<Span>>) {
    forall k :: 0 <= k < |rs| ==> SpanOk(t, rs[k].file)
  }

  lemma {:induction false} WrapOk(t: string, c: Cmd<Span>, rs: seq<Redirection<Span>>)
    requires AllOk(t, c) && RedirsOk(t, rs)
    ensures AllOk(t, Wrap(c, rs))
  {
    if rs != [] {
      WrapOk(t, c, rs[..|rs| - 1]);
    }
  }

  lemma {:induction false} ParsedRedirs(t: string, i: nat, rs: seq<Redirection<Span>>)
    requires NulFree(t) && i <= |t| && RedirsOk(t, rs)
    ensures var r := Spec.ParseRedirs(t, i, rs); r.Some? ==> RedirsOk(t, r.rs)
    decreases |t| - i
  {
    var j := SkipWhite(t, i);
    if At(t, j) == '<' || At(t, j) == '>' {
      var op := Spec.GetToken(t, j);
      var f := Spec.GetToken(t, op.next);
      TokenSpan(t, op.next);
      if f.tok.Word? {
        var kind := if op.tok == Append then OutAppend else if op.tok == Symbol('<') then In else Out;
        ParsedRedirs(t, f.next, rs + [Redirection(f.tok.span, kind)]);
      }
    }
  }

  lemma {:induction false} ParsedArgs(t: string, i: nat, argv: seq<Span>, rs: seq<Redirection<Span>>)
    requires NulFree(t) && i <= |t| && RedirsOk(t, rs) && AllOk(t, Exec(argv))
    ensures var r := Spec.ParseArgs(t, i, argv, rs); r.Ok? ==> AllOk(t, r.c)
    decreases |t| - i
  {
    var j := SkipWhite(t, i);
    WrapOk(t, Exec(argv), rs);
    var tok := Spec.GetToken(t, j);
    if !Parser.Closes(At(t, j)) && tok.tok.Word? && |argv| + 1 < MAXARGS {
      TokenSpan(t, j);
      ParsedRedirs(t, tok.next, rs);
      var more := Spec.ParseRedirs(t, tok.next, rs);
      if more.Some? {
        ParsedArgs(t, more.i, argv + [tok.tok.span], more.rs);
      }
    }
  }

  lemma {:induction false} ParsedExec(t: string, i: nat)
    requires NulFree(t) && i <= |t|
    ensures var r := Spec.ParseExec(t, i); r.Ok? ==> AllOk(t, r.c)
    decreases |t| - i, 1
  {
    var j := SkipWhite(t, i);
    if At(t, j) == '(' {
      ParsedBlock(t, j);
    } else {
      ParsedRedirs(t, j, []);
      var rs := Spec.ParseRedirs(t, j, []);
      if rs.Some? {
        ParsedArgs(t, rs.i, [], rs.rs);
      }
    }
  }

  lemma {:induction false} ParsedBlock(t: string, i: nat)
    requires NulFree(t) && i <= |t|
    ensures var r := Spec.ParseBlock(t, i); r.Ok? ==> AllOk(t, r.c)
    decreases |t| - i, 0
  {
    var j := SkipWhite(t, i);
    if At(t, j) == '(' {
      ParsedLine(t, Spec.GetToken(t, j).next);
      var r := Spec.ParseLine(t, Spec.GetToken(t, j).next);
      if r.Ok? && At(t, SkipWhite(t, r.i)) == ')' {
        var k := Spec.GetToken(t, SkipWhite(t, r.i)).next;
        ParsedRedirs(t, k, []);
        if Spec.ParseRedirs(t, k, []).Some? {
          WrapOk(t, r.c, Spec.ParseRedirs(t, k, []).rs);
        }
      }
    }
  }

  lemma {:induction false} ParsedPipe(t: string, i: nat)
    requires NulFree(t) && i <= |t|
    ensures var r := Spec.ParsePipe(t, i); r.Ok? ==> AllOk(t, r.c)
    decreases |t| - i, 2
  {
    ParsedExec(t, i);
    var a := Spec.ParseExec(t, i);
    if a.Ok? && At(t, SkipWhite(t, a.i)) == '|' {
      ParsedPipe(t, Spec.GetToken(t, SkipWhite(t, a.i)).next);
    }
  }

  lemma {:induction false} ParsedBacks(t: string, i: nat, c: Cmd<Span>)
    requires NulFree(t) && i <= |t| && AllOk(t, c)
    ensures AllOk(t, Spec.ParseBacks(t, i, c).c)
    decreases |t| - i
  {
    var j := SkipWhite(t, i);
    if At(t, j) == '&' {
      ParsedBacks(t, Spec.GetToken(t, j).next, Back(c));
    }
  }

  /** Every word of a parsed command is a maximal run of word characters of the text. */
  lemma {:induction false} ParsedLine(t: string, i: nat)
    requires NulFree(t) && i <= |t|
    ensures var r := Spec.ParseLine(t, i); r.Ok? ==> AllOk(t, r.c)
    decreases |t| - i, 3
  {
    ParsedPipe(t, i);
    var a := Spec.ParsePipe(t, i);
    if a.Ok? {
      ParsedBacks(t, a.i, a.c);
      var b := Spec.ParseBacks(t, a.i, a.c);
      if At(t, SkipWhite(t, b.i)) == ';' {
        ParsedLine(t, Spec.GetToken(t, SkipWhite(t, b.i)).next);
      }
    }
  }

  lemma {:induction false} WordsPrintable(t: string, c: Cmd<Span>)
    requires AllOk(t, c)
    ensures Printable(Words(t, c))
  {
    match c
    case Exec(argv) =>
      forall k | 0 <= k < |argv| ensures Legal(Text(t, argv[k])) {
        assert SpanOk(t, argv[k]);
      }
    case Redir(d, _, _) => WordsPrintable(t, d);
    case Pipe(l, r) => WordsPrintable(t, l); WordsPrintable(t, r);
    case List(l, r) => WordsPrintable(t, l); WordsPrintable(t, r);
    case Back(d) => WordsPrintable(t, d);
  }

  /** Whatever text is accepted, the command it stands for can be printed, and parsing that gives the same
      command. */
  lemma Normalizes(t: string)
    requires NulFree(t) && Spec.ParseCmd(t).Ok?
    ensures var c := Words(t, Spec.ParseCmd(t).c);
            && Printable(c) && NulFree(Print(c)) && Spec.ParseCmd(Print(c)).Ok?
            && Words(Print(c), Spec.ParseCmd(Print(c)).c) == c
  {
    ParsedLine(t, 0);
    WordsPrintable(t, Spec.ParseCmd(t).c);
    RoundTrip(Words(t, Spec.ParseCmd(t).c));
  }

  /** Two accepted texts stand for the same command if and only if their printed forms are equal. */
  lemma SameForm(t: string, u: string)
    requires NulFree(t) && NulFree(u) && Spec.ParseCmd(t).Ok? && Spec.ParseCmd(u).Ok?
    ensures var c, d := Words(t, Spec.ParseCmd(t).c), Words(u, Spec.ParseCmd(u).c);
            c == d <==> Print(c) == Print(d)
  {
    Normalizes(t);
    Normalizes(u);
  }

  /** parsecmd: parse the text in a buffer and terminate its words in place.  Then each word of the
      command, read as a C string, is its token. */
  method ParseBuffer(text: string, buf: array<char>) returns (r: Maybe<Cmd<Span>>)
    requires NulFree(text) && buf.Length == |text| + 1 && buf[..] == text + [NUL]
    modifies buf
    ensures r == (if Spec.ParseCmd(text).Ok? then Got(Spec.ParseCmd(text).c) else Syntax)
    ensures r.Got? ==> forall w :: Mentions(r.value, w) ==> CString(buf[..], w.q) == Text(text, w)
  {
    var p := new Parser(text);
    r := p.ParseCmd();
    if r.Got? {
      ParsedLine(text, 0);
      assert forall j :: 0 <= j < buf.Length ==> buf[j] == At(text, j);
      NulTerminate(buf, r.value, text);
      Tokens(text, r.value, buf[..]);
    }
  }

  lemma Tokens(t: string, c: Cmd<Span>, buf: string)
    requires AllOk(t, c) && NulFree(t) && |buf| == |t| + 1
    requires forall j :: 0 <= j < |buf| ==> buf[j] == if EndsAt(c, j) then NUL else At(t, j)
    ensures forall w :: Mentions(c, w) ==> CString(buf, w.q) == Text(t, w)
  {
    forall w | Mentions(c, w) ensures CString(buf, w.q) == Text(t, w) {
      WordsAreTokens(t, c, buf, w);
    }
  }
}
