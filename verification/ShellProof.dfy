/** Printing a command with every part in parentheses and parsing it again. */
module ShellProof {
  import opened Machine
  import opened ShellSpec

  predicate Legal(w: string) {
    w != "" && forall k :: 0 <= k < |w| ==> WordChar(w[k])
  }

  /** Commands that can be written down. */
  predicate Printable(c: Cmd<string>) {
    match c
    case Exec(argv) => |argv| < MAXARGS && forall k :: 0 <= k < |argv| ==> Legal(argv[k])
    case Redir(d, file, _) => Printable(d) && Legal(file)
    case Pipe(l, r) => Printable(l) && Printable(r)
    case List(l, r) => Printable(l) && Printable(r)
    case Back(d) => Printable(d)
  }

  function PrintArgs(argv: seq<string>): string {
    if argv == [] then "" else if |argv| == 1 then argv[0] else argv[0] + " " + PrintArgs(argv[1..])
  }

  function Operator(kind: RedirKind): string {
    match kind case In => "<" case Out => ">" case OutAppend => ">>"
  }

  function Paren(c: Cmd<string>): string
    decreases c, 1
  {
    "(" + Print(c) + ")"
  }

  function Print(c: Cmd<string>): string
    decreases c, 0
  {
    match c
    case Exec(argv) => PrintArgs(argv)
    case Redir(d, file, kind) => Paren(d) + (Operator(kind) + file)
    case Pipe(l, r) => Paren(l) + ("|" + Paren(r))
    case List(l, r) => Paren(l) + (";" + Paren(r))
    case Back(d) => Paren(d) + "&"
  }

  /** The words behind the spans of a parsed command. */
  function Text(t: string, w: Span): string {
    if w.q <= w.eq <= |t| then t[w.q..w.eq] else ""
  }

  function Words(t: string, c: Cmd<Span>): Cmd<string> {
    match c
    case Exec(argv) => Exec(seq(|argv|, k requires 0 <= k < |argv| => Text(t, argv[k])))
    case Redir(d, file, kind) => Redir(Words(t, d), Text(t, file), kind)
    case Pipe(l, r) => Pipe(Words(t, l), Words(t, r))
    case List(l, r) => List(Words(t, l), Words(t, r))
    case Back(d) => Back(Words(t, d))
  }

  /** The text reads w from position i on. */
  predicate Has(t: string, i: nat, w: string) {
    i + |w| <= |t| && t[i..i + |w|] == w
  }

  lemma HasSplit(t: string, i: nat, a: string, b: string)
    requires Has(t, i, a + b)
    ensures Has(t, i, a) && Has(t, i + |a|, b)
  {
    assert t[i..i + |a|] == (a + b)[..|a|];
    assert t[i + |a|..i + |a| + |b|] == (a + b)[|a|..];
  }

  lemma HasChar(t: string, i: nat, w: string, k: nat)
    requires Has(t, i, w) && k < |w|
    ensures At(t, i + k) == w[k]
  {
    assert t[i..i + |w|][k] == w[k];
  }

  lemma SkipNone(t: string, i: nat)
    requires i <= |t| && !White(At(t, i))
    ensures SkipWhite(t, i) == i
  {}

  /** A one-character symbol. */
  lemma OneSymbol(t: string, i: nat, c: char)
    requires NulFree(t) && i < |t| && t[i] == c && Special(c) && !White(At(t, i + 1)) && (c == '>' ==> At(t, i + 1) != '>')
    ensures GetToken(t, i) == Token(Symbol(c), i + 1)
  {
    SkipNone(t, i);
    SkipNone(t, i + 1);
  }

  /** A word and the position after it, when no white space follows. */
  lemma OneWord(t: string, i: nat, w: string)
    requires NulFree(t) && Has(t, i, w) && Legal(w) && !WordChar(At(t, i + |w|))
    ensures i < |t| && WordChar(t[i]) && WordEnd(t, i) == i + |w| && Text(t, Span(i, i + |w|)) == w
    ensures GetToken(t, i) == Token(Word(Span(i, i + |w|)), SkipWhite(t, i + |w|))
  {
    forall m | i <= m < i + |w| ensures WordChar(t[m]) {
      HasChar(t, i, w, m - i);
    }
    WordEndIs(t, i);
    SkipNone(t, i);
  }

  /** What may follow a printed command: its end, or the parenthesis that closes it. */
  predicate Stop(c: char) {
    c == NUL || c == ')'
  }

  lemma NoRedirs(t: string, i: nat)
    requires NulFree(t) && i <= |t| && !White(At(t, i)) && At(t, i) != '<' && At(t, i) != '>'
    ensures ParseRedirs(t, i, []) == Some([], i)
  {
    SkipNone(t, i);
  }

  /** Where the words of a printed simple command are. */
  function SpansOf(i: nat, argv: seq<string>): (r: seq<Span>)
    ensures |r| == |argv|
    decreases |argv|
  {
    if argv == [] then [] else [Span(i, i + |argv[0]|)] + SpansOf(i + |argv[0]| + if |argv| == 1 then 0 else 1, argv[1..])
  }

  lemma {:induction false} SpansText(t: string, i: nat, argv: seq<string>, k: nat)
    requires Has(t, i, PrintArgs(argv)) && k < |argv|
    ensures Text(t, SpansOf(i, argv)[k]) == argv[k]
    decreases |argv|
  {
    var w, rest := argv[0], if |argv| == 1 then "" else " " + PrintArgs(argv[1..]);
    assert PrintArgs(argv) == w + rest;
    HasSplit(t, i, w, rest);
    if k > 0 {
      HasSplit(t, i + |w|, " ", PrintArgs(argv[1..]));
      SpansText(t, i + |w| + 1, argv[1..], k - 1);
    }
  }

  lemma WordsExec(t: string, i: nat, argv: seq<string>)
    requires Has(t, i, PrintArgs(argv))
    ensures Words(t, Exec(SpansOf(i, argv))) == Exec(argv)
  {
    forall k | 0 <= k < |argv| ensures Text(t, SpansOf(i, argv)[k]) == argv[k] {
      SpansText(t, i, argv, k);
    }
  }

  lemma {:induction false} ArgsParse(t: string, i: nat, argv: seq<string>, done: seq<Span>)
    requires NulFree(t) && Has(t, i, PrintArgs(argv)) && Stop(At(t, i + |PrintArgs(argv)|)) && |done| + |argv| < MAXARGS
    requires forall k :: 0 <= k < |argv| ==> Legal(argv[k])
    ensures ParseArgs(t, i, done, []) == Ok(Exec(done + SpansOf(i, argv)), i + |PrintArgs(argv)|)
    decreases |argv|
  {
    if argv == [] {
      ArgsEnd(t, i, done);
      assert done + SpansOf(i, argv) == done;
    } else {
      var w := Span(i, i + |argv[0]|);
      var next, rest := ArgsFirst(t, i, argv, done);
      ArgsParse(t, next, rest, done + [w]);
      SpansFirst(done, i, argv, w, next, rest);
    }
  }

  lemma SpansFirst(done: seq<Span>, i: nat, argv: seq<string>, w: Span, next: nat, rest: seq<string>)
    requires argv != [] && w == Span(i, i + |argv[0]|) && next == i + |argv[0]| + (if |argv| == 1 then 0 else 1) && rest == argv[1..]
    ensures done + [w] + SpansOf(next, rest) == done + SpansOf(i, argv)
  {
    assert SpansOf(i, argv) == [w] + SpansOf(next, rest);
  }

  /** The loop of parseexec takes the first word. */
  lemma ArgsFirst(t: string, i: nat, argv: seq<string>, done: seq<Span>) returns (next: nat, rest: seq<string>)
    requires NulFree(t) && argv != [] && Has(t, i, PrintArgs(argv)) && Stop(At(t, i + |PrintArgs(argv)|)) && |done| + 1 < MAXARGS
    requires forall k :: 0 <= k < |argv| ==> Legal(argv[k])
    ensures next == i + |argv[0]| + if |argv| == 1 then 0 else 1
    ensures rest == argv[1..] && forall k :: 0 <= k < |rest| ==> Legal(rest[k])
    ensures Has(t, next, PrintArgs(rest)) && next + |PrintArgs(rest)| == i + |PrintArgs(argv)|
    ensures ParseArgs(t, i, done, []) == ParseArgs(t, next, done + [Span(i, i + |argv[0]|)], [])
  {
    rest := argv[1..];
    next := FirstWord(t, i, argv[0], argv);
    ArgsNext(t, i, next, Span(i, i + |argv[0]|), done);
    PrintTail(argv);
  }

  lemma PrintTail(argv: seq<string>)
    requires argv != []
    ensures |PrintArgs(argv)| == |argv[0]| + |PrintArgs(argv[1..])| + if |argv| == 1 then 0 else 1
  {}

  lemma ArgsEnd(t: string, i: nat, done: seq<Span>)
    requires NulFree(t) && i <= |t| && Stop(At(t, i))
    ensures ParseArgs(t, i, done, []) == Ok(Exec(done), i)
  {
    SkipNone(t, i);
    assert At(t, i) == NUL ==> i == |t|;
  }

  lemma ArgsNext(t: string, i: nat, next: nat, w: Span, done: seq<Span>)
    requires NulFree(t) && i < |t| && next <= |t| && SkipWhite(t, i) == i && WordChar(t[i]) && |done| + 1 < MAXARGS
    requires GetToken(t, i) == Token(Word(w), next) && ParseRedirs(t, next, []) == Some([], next)
    ensures ParseArgs(t, i, done, []) == ParseArgs(t, next, done + [w], [])
  {}

  lemma FirstWord(t: string, i: nat, w: string, argv: seq<string>) returns (next: nat)
    requires NulFree(t) && argv != [] && argv[0] == w && Has(t, i, PrintArgs(argv)) && Stop(At(t, i + |PrintArgs(argv)|))
    requires forall k :: 0 <= k < |argv| ==> Legal(argv[k])
    ensures next == if |argv| == 1 then i + |w| else i + |w| + 1
    ensures i < |t| && next <= |t| && SkipWhite(t, i) == i && WordChar(t[i])
    ensures GetToken(t, i) == Token(Word(Span(i, i + |w|)), next) && Text(t, Span(i, i + |w|)) == w
    ensures ParseRedirs(t, next, []) == Some([], next)
    ensures Has(t, next, PrintArgs(argv[1..]))
  {
    next := AfterWord(t, i, w, argv);
    OneWord(t, i, w);
    SkipNone(t, i);
    SkipNone(t, next);
    assert SkipWhite(t, i + |w|) == next;
    NoRedirs(t, next);
  }

  lemma AfterWord(t: string, i: nat, w: string, argv: seq<string>) returns (next: nat)
    requires argv != [] && argv[0] == w && Has(t, i, PrintArgs(argv)) && Stop(At(t, i + |PrintArgs(argv)|))
    requires forall k :: 0 <= k < |argv| ==> Legal(argv[k])
    ensures next == if |argv| == 1 then i + |w| else i + |w| + 1
    ensures Has(t, i, w) && next <= |t| && Has(t, next, PrintArgs(argv[1..]))
    ensures (if |argv| == 1 then Stop(At(t, i + |w|)) else At(t, i + |w|) == ' ') && (WordChar(At(t, next)) || Stop(At(t, next)))
  {
    var rest := if |argv| == 1 then "" else " " + PrintArgs(argv[1..]);
    assert PrintArgs(argv) == w + rest;
    HasSplit(t, i, w, rest);
    if |argv| == 1 {
      next := i + |w|;
      assert argv[1..] == [];
    } else {
      next := i + |w| + 1;
      HasSplit(t, i + |w|, " ", PrintArgs(argv[1..]));
      HasChar(t, i + |w|, " ", 0);
      assert Legal(argv[1]) && PrintArgs(argv[1..]) != "" && PrintArgs(argv[1..])[0] == argv[1][0];
      HasChar(t, next, PrintArgs(argv[1..]), 0);
    }
  }

  // ----- one level of the grammar -------------------------------------------------------------------

  lemma LineOfPipe(t: string, i: nat, r: Cmd<Span>, e: nat)
    requires NulFree(t) && i <= e <= |t| && ParsePipe(t, i) == Ok(r, e) && Stop(At(t, e))
    ensures ParseLine(t, i) == Ok(r, e)
  {
    SkipNone(t, e);
  }

  lemma LineOfExec(t: string, i: nat, r: Cmd<Span>, e: nat)
    requires NulFree(t) && i <= e <= |t| && ParseExec(t, i) == Ok(r, e) && Stop(At(t, e))
    ensures ParsePipe(t, i) == Ok(r, e) && ParseLine(t, i) == Ok(r, e)
  {
    SkipNone(t, e);
    assert ParsePipe(t, i) == Ok(r, e);
    LineOfPipe(t, i, r, e);
  }

  lemma PipeSteps(t: string, i: nat, l: Cmd<Span>, e: nat, k: nat, r: Cmd<Span>, f: nat)
    requires NulFree(t) && i <= e < k <= f <= |t| && ParseExec(t, i) == Ok(l, e) && SkipWhite(t, e) == e && t[e] == '|'
    requires GetToken(t, e).next == k && ParsePipe(t, k) == Ok(r, f)
    ensures ParsePipe(t, i) == Ok(Pipe(l, r), f)
  {}

  lemma LineOfPipes(t: string, i: nat, l: Cmd<Span>, e: nat, r: Cmd<Span>, f: nat)
    requires NulFree(t) && i <= e < f <= |t| && ParseExec(t, i) == Ok(l, e) && t[e] == '|' && !White(At(t, e + 1))
    requires ParsePipe(t, e + 1) == Ok(r, f) && Stop(At(t, f))
    ensures ParseLine(t, i) == Ok(Pipe(l, r), f)
  {
    SkipNone(t, e);
    OneSymbol(t, e, '|');
    PipeSteps(t, i, l, e, e + 1, r, f);
    LineOfPipe(t, i, Pipe(l, r), f);
  }

  lemma LineOfList(t: string, i: nat, l: Cmd<Span>, e: nat, r: Cmd<Span>, f: nat)
    requires NulFree(t) && i <= e < f <= |t| && ParseExec(t, i) == Ok(l, e) && t[e] == ';' && !White(At(t, e + 1))
    requires ParseLine(t, e + 1) == Ok(r, f)
    ensures ParseLine(t, i) == Ok(List(l, r), f)
  {
    SkipNone(t, e);
    OneSymbol(t, e, ';');
  }

  lemma OneBack(t: string, e: nat, c: Cmd<Span>)
    requires NulFree(t) && e < |t| && t[e] == '&' && Stop(At(t, e + 1))
    ensures ParseBacks(t, e, c) == Ok(Back(c), e + 1)
  {
    SkipNone(t, e);
    OneSymbol(t, e, '&');
    SkipNone(t, e + 1);
    assert ParseBacks(t, e + 1, Back(c)) == Ok(Back(c), e + 1);
  }

  lemma LineOfBack(t: string, i: nat, l: Cmd<Span>, e: nat)
    requires NulFree(t) && i <= e < |t| && ParseExec(t, i) == Ok(l, e) && t[e] == '&' && Stop(At(t, e + 1))
    ensures ParseLine(t, i) == Ok(Back(l), e + 1)
  {
    SkipNone(t, e);
    OneBack(t, e, l);
    SkipNone(t, e + 1);
  }

  /** A command in parentheses, and its redirections. */
  lemma BlockOf(t: string, i: nat, r: Cmd<Span>, e: nat, rs: seq<Redirection<Span>>, f: nat)
    requires NulFree(t) && i < e < |t| && t[i] == '(' && t[e] == ')' && !White(At(t, i + 1)) && !White(At(t, e + 1))
    requires ParseLine(t, i + 1) == Ok(r, e) && ParseRedirs(t, e + 1, []) == Some(rs, f)
    ensures ParseBlock(t, i) == Ok(Wrap(r, rs), f)
  {
    SkipNone(t, i);
    OneSymbol(t, i, '(');
    SkipNone(t, e);
    OneSymbol(t, e, ')');
    BlockSteps(t, i, i + 1, r, e, e + 1, rs, f);
  }

  lemma BlockSteps(t: string, i: nat, j: nat, r: Cmd<Span>, e: nat, k: nat, rs: seq<Redirection<Span>>, f: nat)
    requires NulFree(t) && i < j <= e < k <= |t| && SkipWhite(t, i) == i && t[i] == '(' && GetToken(t, i).next == j
    requires ParseLine(t, j) == Ok(r, e) && SkipWhite(t, e) == e && t[e] == ')' && GetToken(t, e).next == k
    requires ParseRedirs(t, k, []) == Some(rs, f)
    ensures ParseBlock(t, i) == Ok(Wrap(r, rs), f)
  {}

  lemma ExecOfBlock(t: string, i: nat, r: Cmd<Span>, f: nat)
    requires NulFree(t) && i < |t| && t[i] == '(' && ParseBlock(t, i) == Ok(r, f)
    ensures ParseExec(t, i) == Ok(r, f)
  {
    SkipNone(t, i);
  }

  lemma PlainBlock(t: string, i: nat, r: Cmd<Span>, e: nat)
    requires NulFree(t) && i < e < |t| && t[i] == '(' && t[e] == ')' && !White(At(t, i + 1))
    requires ParseLine(t, i + 1) == Ok(r, e)
    requires !White(At(t, e + 1)) && At(t, e + 1) != '<' && At(t, e + 1) != '>'
    ensures ParseExec(t, i) == Ok(r, e + 1)
  {
    NoRedirs(t, e + 1);
    BlockOf(t, i, r, e, [], e + 1);
    ExecOfBlock(t, i, r, e + 1);
  }

  lemma OperatorToken(t: string, i: nat, kind: RedirKind)
    requires NulFree(t) && Has(t, i, Operator(kind)) && WordChar(At(t, i + |Operator(kind)|))
    ensures i < |t| && (t[i] == '<' || t[i] == '>')
    ensures GetToken(t, i).next == i + |Operator(kind)|
    ensures GetToken(t, i).tok == match kind case In => Symbol('<') case Out => Symbol('>') case OutAppend => Append
  {
    var op := Operator(kind);
    HasChar(t, i, op, 0);
    HasChar(t, i, op, |op| - 1);
    SkipNone(t, i);
    SkipNone(t, i + |op|);
  }

  lemma RedirStep(t: string, i: nat, kind: RedirKind, q: nat, w: Span, e: nat)
    requires NulFree(t) && i < q < e <= |t| && (t[i] == '<' || t[i] == '>') && Stop(At(t, e))
    requires GetToken(t, i).next == q
    requires GetToken(t, i).tok == match kind case In => Symbol('<') case Out => Symbol('>') case OutAppend => Append
    requires GetToken(t, q) == Token(Word(w), e)
    ensures ParseRedirs(t, i, []) == Some([Redirection(w, kind)], e)
  {
    SkipNone(t, i);
    NextRedirs(t, e, [Redirection(w, kind)]);
    assert [] + [Redirection(w, kind)] == [Redirection(w, kind)];
  }

  /** One redirection with its file. */
  lemma RedirAt(t: string, i: nat, kind: RedirKind, q: nat, file: string)
    requires NulFree(t) && Has(t, i, Operator(kind)) && q == i + |Operator(kind)| && Has(t, q, file) && Legal(file)
    requires Stop(At(t, q + |file|))
    ensures Text(t, Span(q, q + |file|)) == file
    ensures ParseRedirs(t, i, []) == Some([Redirection(Span(q, q + |file|), kind)], q + |file|)
  {
    OneWord(t, q, file);
    OperatorToken(t, i, kind);
    SkipNone(t, q + |file|);
    RedirStep(t, i, kind, q, Span(q, q + |file|), q + |file|);
  }

  lemma NextRedirs(t: string, i: nat, rs: seq<Redirection<Span>>)
    requires NulFree(t) && i <= |t| && Stop(At(t, i))
    ensures ParseRedirs(t, i, rs) == Some(rs, i)
  {
    SkipNone(t, i);
  }

  // ----- the round trip -----------------------------------------------------------------------------

  lemma ParenAt(t: string, i: nat, d: Cmd<string>)
    requires Has(t, i, Paren(d))
    ensures |Paren(d)| == |Print(d)| + 2 && i + |Paren(d)| <= |t|
    ensures t[i] == '(' && Has(t, i + 1, Print(d)) && t[i + 1 + |Print(d)|] == ')'
  {
    var p := Print(d);
    HasSplit(t, i, "(" + p, ")");
    HasSplit(t, i, "(", p);
    HasChar(t, i, "(", 0);
    HasChar(t, i + 1 + |p|, ")", 0);
  }

  lemma NotWhite(t: string, i: nat, c: Cmd<string>)
    requires Has(t, i, Print(c)) && Printable(c) && Stop(At(t, i + |Print(c)|))
    ensures !White(At(t, i))
  {
    if c.Exec? {
      if c.argv != [] {
        assert Legal(c.argv[0]) && PrintArgs(c.argv)[0] == c.argv[0][0];
        HasChar(t, i, Print(c), 0);
      }
    } else {
      assert Print(c)[0] == '(';
      HasChar(t, i, Print(c), 0);
    }
  }

  lemma ExecOfArgs(t: string, i: nat, argv: seq<string>)
    requires NulFree(t) && Has(t, i, PrintArgs(argv)) && Stop(At(t, i + |PrintArgs(argv)|)) && Printable(Exec(argv))
    ensures ParseExec(t, i) == Ok(Exec(SpansOf(i, argv)), i + |PrintArgs(argv)|)
  {
    var c := At(t, i);
    assert !White(c) && c != '<' && c != '>' && c != '(' by {
      if argv != [] {
        assert Legal(argv[0]) && PrintArgs(argv)[0] == argv[0][0];
        HasChar(t, i, PrintArgs(argv), 0);
      }
    }
    SkipNone(t, i);
    NoRedirs(t, i);
    ArgsParse(t, i, argv, []);
    assert [] + SpansOf(i, argv) == SpansOf(i, argv);
  }

  /** Parsing the printed form gives the command back, wherever in a text it stands. */
  lemma {:induction false} RoundTripAt(t: string, i: nat, c: Cmd<string>) returns (r: Cmd<Span>)
    requires NulFree(t) && Has(t, i, Print(c)) && Printable(c) && Stop(At(t, i + |Print(c)|))
    ensures ParseLine(t, i) == Ok(r, i + |Print(c)|) && Words(t, r) == c
    decreases c, 5
  {
    match c
    case Exec(argv) => r := TripExec(t, i, argv);
    case Redir(_, _, _) => r := TripRedir(t, i, c);
    case Pipe(_, _) => r := TripPipe(t, i, c);
    case List(_, _) => r := TripList(t, i, c);
    case Back(_) => r := TripBack(t, i, c);
  }

  /** The parts of two commands with a symbol between them. */
  lemma PairParts(t: string, i: nat, c: Cmd<string>) returns (e: nat)
    requires (c.Pipe? || c.List?) && Has(t, i, Print(c))
    ensures Has(t, i, Paren(c.left)) && e == i + |Paren(c.left)| && At(t, e) == (if c.Pipe? then '|' else ';')
    ensures Has(t, e + 1, Paren(c.right)) && e + 1 + |Paren(c.right)| == i + |Print(c)|
  {
    var op := if c.Pipe? then "|" else ";";
    e := i + |Paren(c.left)|;
    HasSplit(t, i, Paren(c.left), op + Paren(c.right));
    HasSplit(t, e, op, Paren(c.right));
    HasChar(t, e, op, 0);
  }

  lemma TripExec(t: string, i: nat, argv: seq<string>) returns (r: Cmd<Span>)
    requires NulFree(t) && Has(t, i, PrintArgs(argv)) && Printable(Exec(argv)) && Stop(At(t, i + |PrintArgs(argv)|))
    ensures ParseLine(t, i) == Ok(r, i + |PrintArgs(argv)|) && Words(t, r) == Exec(argv)
  {
    hide ParseExec, ParseLine, ParsePipe, SpansOf, PrintArgs, Words;
    r := Exec(SpansOf(i, argv));
    ExecOfArgs(t, i, argv);
    LineOfExec(t, i, r, i + |PrintArgs(argv)|);
    WordsExec(t, i, argv);
  }

  /** The inside of a pair of parentheses. */
  lemma {:induction false} TripParen(t: string, i: nat, d: Cmd<string>) returns (r: Cmd<Span>)
    requires NulFree(t) && Has(t, i, Paren(d)) && Printable(d)
    ensures i + 1 + |Print(d)| < |t| && |Paren(d)| == |Print(d)| + 2 && t[i] == '(' && t[i + 1 + |Print(d)|] == ')'
    ensures ParseLine(t, i + 1) == Ok(r, i + 1 + |Print(d)|) && Words(t, r) == d && !White(At(t, i + 1))
    decreases d, 6
  {
    ParenAt(t, i, d);
    NotWhite(t, i + 1, d);
    r := RoundTripAt(t, i + 1, d);
  }

  lemma {:induction false} TripBlock(t: string, i: nat, d: Cmd<string>) returns (r: Cmd<Span>)
    requires NulFree(t) && Has(t, i, Paren(d)) && Printable(d)
    requires var c := At(t, i + |Paren(d)|); !White(c) && c != '<' && c != '>'
    ensures ParseExec(t, i) == Ok(r, i + |Paren(d)|) && Words(t, r) == d && At(t, i) == '('
    decreases d, 7
  {
    r := TripParen(t, i, d);
    PlainBlock(t, i, r, i + 1 + |Print(d)|);
  }

  lemma {:induction false} TripRedir(t: string, i: nat, c: Cmd<string>) returns (r: Cmd<Span>)
    requires c.Redir? && NulFree(t) && Has(t, i, Print(c)) && Printable(c) && Stop(At(t, i + |Print(c)|))
    ensures ParseLine(t, i) == Ok(r, i + |Print(c)|) && Words(t, r) == c
    decreases c, 4
  {
    var e, q := RedirParts(t, i, c);
    r := TripRedirParts(t, i, c.cmd, c.file, c.kind, e, q);
  }

  lemma RedirParts(t: string, i: nat, c: Cmd<string>) returns (e: nat, q: nat)
    requires c.Redir? && Has(t, i, Print(c))
    ensures Has(t, i, Paren(c.cmd)) && e == i + |Paren(c.cmd)| && Has(t, e, Operator(c.kind))
    ensures q == e + |Operator(c.kind)| && Has(t, q, c.file) && q + |c.file| == i + |Print(c)|
  {
    e := i + |Paren(c.cmd)|;
    q := e + |Operator(c.kind)|;
    HasSplit(t, i, Paren(c.cmd), Operator(c.kind) + c.file);
    HasSplit(t, e, Operator(c.kind), c.file);
  }

  lemma {:induction false} TripRedirParts(t: string, i: nat, d: Cmd<string>, file: string, kind: RedirKind, e: nat, q: nat)
    returns (r: Cmd<Span>)
    requires NulFree(t) && Has(t, i, Paren(d)) && Printable(d) && Legal(file) && e == i + |Paren(d)|
    requires Has(t, e, Operator(kind)) && q == e + |Operator(kind)| && Has(t, q, file) && Stop(At(t, q + |file|))
    ensures ParseLine(t, i) == Ok(r, q + |file|) && Words(t, r) == Redir(d, file, kind)
    decreases d, 8
  {
    var inner := TripParen(t, i, d);
    r := RedirLine(t, i, inner, e, kind, q, file);
  }

  lemma RedirLine(t: string, i: nat, inner: Cmd<Span>, e: nat, kind: RedirKind, q: nat, file: string) returns (r: Cmd<Span>)
    requires NulFree(t) && i + 1 < e <= |t| && t[i] == '(' && t[e - 1] == ')' && !White(At(t, i + 1)) && Legal(file)
    requires ParseLine(t, i + 1) == Ok(inner, e - 1) && Has(t, e, Operator(kind)) && q == e + |Operator(kind)| && Has(t, q, file)
    requires Stop(At(t, q + |file|))
    ensures r == Redir(inner, Span(q, q + |file|), kind) && Text(t, Span(q, q + |file|)) == file
    ensures ParseLine(t, i) == Ok(r, q + |file|)
  {
    RedirAt(t, e, kind, q, file);
    r := RedirBlock(t, i, inner, e, kind, q, file);
    LineOfExec(t, i, r, q + |file|);
  }

  lemma RedirBlock(t: string, i: nat, inner: Cmd<Span>, e: nat, kind: RedirKind, q: nat, file: string) returns (r: Cmd<Span>)
    requires NulFree(t) && i + 1 < e <= |t| && t[i] == '(' && t[e - 1] == ')' && !White(At(t, i + 1))
    requires ParseLine(t, i + 1) == Ok(inner, e - 1) && Has(t, e, Operator(kind)) && q + |file| <= |t| && Stop(At(t, q + |file|))
    requires ParseRedirs(t, e, []) == Some([Redirection(Span(q, q + |file|), kind)], q + |file|)
    ensures r == Redir(inner, Span(q, q + |file|), kind) && ParseExec(t, i) == Ok(r, q + |file|)
  {
    hide ParseExec, ParseLine, ParseBlock, ParseRedirs, NulFree;
    var x := Redirection(Span(q, q + |file|), kind);
    HasChar(t, e, Operator(kind), 0);
    BlockOf(t, i, inner, e - 1, [x], q + |file|);
    WrapOne(inner, x);
    r := Redir(inner, x.file, kind);
    ExecOfBlock(t, i, r, q + |file|);
  }

  lemma WrapOne(c: Cmd<Span>, x: Redirection<Span>)
    ensures Wrap(c, [x]) == Redir(c, x.file, x.kind)
  {
    assert [x][..0] == [];
  }

  lemma {:induction false} TripPipe(t: string, i: nat, c: Cmd<string>) returns (r: Cmd<Span>)
    requires c.Pipe? && NulFree(t) && Has(t, i, Print(c)) && Printable(c) && Stop(At(t, i + |Print(c)|))
    ensures ParseLine(t, i) == Ok(r, i + |Print(c)|) && Words(t, r) == c
    decreases c, 4
  {
    var e := PairParts(t, i, c);
    r := TripPipeParts(t, i, c.left, c.right, e);
  }

  lemma {:induction false} TripPipeParts(t: string, i: nat, x: Cmd<string>, y: Cmd<string>, e: nat) returns (r: Cmd<Span>)
    requires NulFree(t) && Has(t, i, Paren(x)) && Printable(x) && e == i + |Paren(x)| && At(t, e) == '|'
    requires Has(t, e + 1, Paren(y)) && Printable(y) && Stop(At(t, e + 1 + |Paren(y)|))
    ensures ParseLine(t, i) == Ok(r, e + 1 + |Paren(y)|) && Words(t, r) == Pipe(x, y)
    decreases Pipe(x, y), 3
  {
    hide ParseExec, ParseLine, Printable, NulFree;
    var a := TripBlock(t, i, x);
    var b := TripPipeRight(t, i, a, e, y);
    r := Pipe(a, b);
  }

  lemma {:induction false} TripPipeRight(t: string, i: nat, a: Cmd<Span>, e: nat, y: Cmd<string>) returns (b: Cmd<Span>)
    requires NulFree(t) && i <= e < |t| && ParseExec(t, i) == Ok(a, e) && t[e] == '|'
    requires Has(t, e + 1, Paren(y)) && Printable(y) && Stop(At(t, e + 1 + |Paren(y)|))
    ensures ParseLine(t, i) == Ok(Pipe(a, b), e + 1 + |Paren(y)|) && Words(t, b) == y
    decreases y, 10
  {
    hide ParseExec, ParseLine, Words, Paren, Printable, NulFree, Has;
    b := TripLastPipe(t, e + 1, y);
    LineOfPipes(t, i, a, e, b, e + 1 + |Paren(y)|);
  }

  lemma {:induction false} TripList(t: string, i: nat, c: Cmd<string>) returns (r: Cmd<Span>)
    requires c.List? && NulFree(t) && Has(t, i, Print(c)) && Printable(c) && Stop(At(t, i + |Print(c)|))
    ensures ParseLine(t, i) == Ok(r, i + |Print(c)|) && Words(t, r) == c
    decreases c, 4
  {
    var e := PairParts(t, i, c);
    r := TripListParts(t, i, c.left, c.right, e);
  }

  lemma {:induction false} TripListParts(t: string, i: nat, x: Cmd<string>, y: Cmd<string>, e: nat) returns (r: Cmd<Span>)
    requires NulFree(t) && Has(t, i, Paren(x)) && Printable(x) && e == i + |Paren(x)| && At(t, e) == ';'
    requires Has(t, e + 1, Paren(y)) && Printable(y) && Stop(At(t, e + 1 + |Paren(y)|))
    ensures ParseLine(t, i) == Ok(r, e + 1 + |Paren(y)|) && Words(t, r) == List(x, y)
    decreases List(x, y), 3
  {
    hide ParseExec, ParseLine, Printable, NulFree;
    var a := TripBlock(t, i, x);
    var b := TripListRight(t, i, a, e, y);
    r := List(a, b);
  }

  lemma {:induction false} TripListRight(t: string, i: nat, a: Cmd<Span>, e: nat, y: Cmd<string>) returns (b: Cmd<Span>)
    requires NulFree(t) && i <= e < |t| && ParseExec(t, i) == Ok(a, e) && t[e] == ';'
    requires Has(t, e + 1, Paren(y)) && Printable(y) && Stop(At(t, e + 1 + |Paren(y)|))
    ensures ParseLine(t, i) == Ok(List(a, b), e + 1 + |Paren(y)|) && Words(t, b) == y
    decreases y, 10
  {
    b := TripLastLine(t, e + 1, y);
    LineOfList(t, i, a, e, b, e + 1 + |Paren(y)|);
  }

  /** A command in parentheses with nothing behind it. */
  lemma {:induction false} TripLastPipe(t: string, i: nat, d: Cmd<string>) returns (r: Cmd<Span>)
    requires NulFree(t) && Has(t, i, Paren(d)) && Printable(d) && Stop(At(t, i + |Paren(d)|))
    ensures ParsePipe(t, i) == Ok(r, i + |Paren(d)|) && Words(t, r) == d && At(t, i) == '('
    decreases d, 8
  {
    r := TripBlock(t, i, d);
    LineOfExec(t, i, r, i + |Paren(d)|);
  }

  lemma {:induction false} TripLastLine(t: string, i: nat, d: Cmd<string>) returns (r: Cmd<Span>)
    requires NulFree(t) && Has(t, i, Paren(d)) && Printable(d) && Stop(At(t, i + |Paren(d)|))
    ensures ParseLine(t, i) == Ok(r, i + |Paren(d)|) && Words(t, r) == d && At(t, i) == '('
    decreases d, 9
  {
    r := TripLastPipe(t, i, d);
    LineOfPipe(t, i, r, i + |Paren(d)|);
  }

  lemma {:induction false} TripBack(t: string, i: nat, c: Cmd<string>) returns (r: Cmd<Span>)
    requires c.Back? && NulFree(t) && Has(t, i, Print(c)) && Printable(c) && Stop(At(t, i + |Print(c)|))
    ensures ParseLine(t, i) == Ok(r, i + |Print(c)|) && Words(t, r) == c
    decreases c, 4
  {
    var e := i + |Paren(c.cmd)|;
    HasSplit(t, i, Paren(c.cmd), "&");
    HasChar(t, e, "&", 0);
    r := TripBackParts(t, i, c.cmd, e);
  }

  lemma {:induction false} TripBackParts(t: string, i: nat, d: Cmd<string>, e: nat) returns (r: Cmd<Span>)
    requires NulFree(t) && Has(t, i, Paren(d)) && Printable(d) && e == i + |Paren(d)| && At(t, e) == '&' && Stop(At(t, e + 1))
    ensures ParseLine(t, i) == Ok(r, e + 1) && Words(t, r) == Back(d)
    decreases d, 8
  {
    var a := TripBlock(t, i, d);
    LineOfBack(t, i, a, e);
    r := Back(a);
  }

  /** The main result: parsecmd of the printed form is the command. */
  lemma RoundTrip(c: Cmd<string>)
    requires Printable(c)
    ensures NulFree(Print(c))
    ensures var r := ParseCmd(Print(c)); r.Ok? && Words(Print(c), r.c) == c
  {
    var t := Print(c);
    PrintNulFree(c);
    assert t[0..0 + |t|] == t;
    var r := RoundTripAt(t, 0, c);
    SkipNone(t, |t|);
  }

  lemma {:induction false} PrintNulFree(c: Cmd<string>)
    requires Printable(c)
    ensures NulFree(Print(c))
  {
    match c
    case Exec(argv) => ArgsNulFree(argv);
    case Redir(d, _, _) => PrintNulFree(d);
    case Pipe(l, r) => PrintNulFree(l); PrintNulFree(r);
    case List(l, r) => PrintNulFree(l); PrintNulFree(r);
    case Back(d) => PrintNulFree(d);
  }

  lemma {:induction false} ArgsNulFree(argv: seq<string>)
    requires forall k :: 0 <= k < |argv| ==> Legal(argv[k])
    ensures NulFree(PrintArgs(argv))
  {
    if |argv| > 1 {
      ArgsNulFree(argv[1..]);
    }
  }
}
