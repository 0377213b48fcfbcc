/** The grammar of sh.c as a language: syntax trees, the tokens they are written with and the commands they stand
    for.  The parser accepts exactly the texts whose tokens are those of a tree, and gives its command.

      line  = pipe &* [; line]
      pipe  = stage [| pipe]
      stage = ( line ) redirection* | (word or redirection)* */
module ShellGrammar {
  import opened Machine
  import opened ShellSpec

  datatype Item = Arg(w: Span) | Redirect(file: Span, kind: RedirKind)

  datatype Stage = Plain(items: seq<Item>) | Block(inner: Line, rs: seq<Item>)
  datatype Bars = Last(stage: Stage) | Bar(stage: Stage, rest: Bars)
  datatype Line = Whole(bars: Bars, backs: nat) | Semi(bars: Bars, backs: nat, rest: Line)

  // ----- how a tree is written ------------------------------------------------------------------

  function OpToken(kind: RedirKind): Tok {
    match kind case In => Symbol('<') case Out => Symbol('>') case OutAppend => Append
  }

  function ItemTokens(x: Item): seq<Tok> {
    if x.Arg? then [Word(x.w)] else [OpToken(x.kind), Word(x.file)]
  }

  function ItemsTokens(items: seq<Item>): seq<Tok> {
    if items == [] then [] else ItemTokens(items[0]) + ItemsTokens(items[1..])
  }

  function Ands(n: nat): seq<Tok> {
    if n == 0 then [] else [Symbol('&')] + Ands(n - 1)
  }

  function StageTokens(s: Stage): seq<Tok>
    decreases s
  {
    match s
    case Plain(items) => ItemsTokens(items)
    case Block(inner, rs) => [Symbol('(')] + LineTokens(inner) + [Symbol(')')] + ItemsTokens(rs)
  }

  function BarsTokens(b: Bars): seq<Tok>
    decreases b
  {
    if b.Last? then StageTokens(b.stage) else StageTokens(b.stage) + [Symbol('|')] + BarsTokens(b.rest)
  }

  function LineTokens(l: Line): seq<Tok>
    decreases l
  {
    BarsTokens(l.bars) + Ands(l.backs) + if l.Whole? then [] else [Symbol(';')] + LineTokens(l.rest)
  }

  // ----- what a tree means ----------------------------------------------------------------------

  /** The words that are not file names. */
  function Args(items: seq<Item>): seq<Span> {
    if items == [] then [] else (if items[0].Arg? then [items[0].w] else []) + Args(items[1..])
  }

  /** A command with redirections around it, the first of the text innermost. */
  function Around(c: Cmd<Span>, items: seq<Item>): Cmd<Span>
    decreases |items|
  {
    if items == [] then c
    else if items[0].Arg? then Around(c, items[1..])
    else Around(Redir(c, items[0].file, items[0].kind), items[1..])
  }

  function Backs(c: Cmd<Span>, n: nat): Cmd<Span> {
    if n == 0 then c else Back(Backs(c, n - 1))
  }

  function StageCmd(s: Stage): Cmd<Span>
    decreases s
  {
    match s
    case Plain(items) => Around(Exec(Args(items)), items)
    case Block(inner, rs) => Around(LineCmd(inner), rs)
  }

  function BarsCmd(b: Bars): Cmd<Span>
    decreases b
  {
    if b.Last? then StageCmd(b.stage) else Pipe(StageCmd(b.stage), BarsCmd(b.rest))
  }

  function LineCmd(l: Line): Cmd<Span>
    decreases l
  {
    var c := Backs(BarsCmd(l.bars), l.backs);
    if l.Whole? then c else List(c, LineCmd(l.rest))
  }

  /** Arguments fit the argument vector, and only redirections follow a parenthesis. */
  predicate StageFits(s: Stage)
    decreases s
  {
    match s
    case Plain(items) => |Args(items)| < MAXARGS
    case Block(inner, rs) => LineFits(inner) && Args(rs) == []
  }

  predicate BarsFit(b: Bars)
    decreases b
  {
    StageFits(b.stage) && (b.Bar? ==> BarsFit(b.rest))
  }

  predicate LineFits(l: Line)
    decreases l
  {
    BarsFit(l.bars) && (l.Semi? ==> LineFits(l.rest))
  }

  // ----- the tokens of a text -------------------------------------------------------------------

  function Tokens(t: string, i: nat): seq<Tok>
    requires i <= |t| && NulFree(t)
    decreases |t| - i
  {
    var r := GetToken(t, i);
    if r.tok == End then [] else [r.tok] + Tokens(t, r.next)
  }

  lemma {:induction false} SkipIs(t: string, i: nat)
    requires i <= |t|
    ensures forall x :: i <= x < SkipWhite(t, i) ==> White(t[x])
    ensures SkipWhite(t, SkipWhite(t, i)) == SkipWhite(t, i)
    decreases |t| - i
  {
    if i < |t| && White(t[i]) {
      SkipIs(t, i + 1);
    }
  }

  /** gettoken: a token stands at s..e-1 between white space, and is the longest one that stands there. */
  lemma TokenIs(t: string, i: nat) returns (s: nat, e: nat)
    requires i <= |t| && NulFree(t)
    ensures var r := GetToken(t, i);
            && i <= s <= e <= r.next <= |t| && (forall x :: i <= x < s || e <= x < r.next ==> White(t[x]))
            && !White(At(t, s)) && !White(At(t, r.next))
            && match r.tok
               case End => s == |t|
               case Symbol(c) => t[s..e] == [c] && Special(c) && (c == '>' ==> At(t, e) != '>')
               case Append => t[s..e] == ">>"
               case Word(span) => span == Span(s, e) && SpanOk(t, span)
  {
    var r := GetToken(t, i);
    s := SkipWhite(t, i);
    e := match r.tok case End => s case Symbol(_) => s + 1 case Append => s + 2 case Word(span) => span.eq;
    SkipIs(t, i);
    SkipStops(t, i);
    if r.tok != End {
      TokenSpan(t, i);
      SkipIs(t, e);
      SkipStops(t, e);
    }
  }

  /** The next character tells the first token. */
  lemma Head(t: string, i: nat)
    requires i <= |t| && NulFree(t)
    ensures var j := SkipWhite(t, i);
            && GetToken(t, j) == GetToken(t, i) && Tokens(t, j) == Tokens(t, i)
            && (Tokens(t, i) == [] <==> j == |t|)
            && (j < |t| ==> Tokens(t, i) == [GetToken(t, j).tok] + Tokens(t, GetToken(t, j).next))
            && (forall c :: GetToken(t, j).tok == Symbol(c) ==> At(t, j) == c)
            && (j < |t| && Special(t[j]) && t[j] != '>' ==> GetToken(t, j).tok == Symbol(t[j]))
            && (j < |t| && t[j] == '>' ==> GetToken(t, j).tok == Append || GetToken(t, j).tok == Symbol('>'))
            && (GetToken(t, j).tok == Append ==> At(t, j) == '>')
            && (GetToken(t, j).tok.Word? ==> j < |t| && !Special(t[j]))
  {
    SkipIs(t, i);
  }

  // ----- what the parser gives is a tree ----------------------------------------------------------

  /** The redirections, in the order of the text. */
  function Redirects(items: seq<Item>): seq<Redirection<Span>> {
    if items == [] then [] else (if items[0].Arg? then [] else [Redirection(items[0].file, items[0].kind)]) + Redirects(items[1..])
  }

  lemma AroundIs(c: Cmd<Span>, items: seq<Item>)
    ensures Around(c, items) == Wrap(c, Redirects(items))
  {
    AroundMore(c, [], items);
    assert [] + Redirects(items) == Redirects(items);
  }

  lemma {:induction false} AroundMore(c: Cmd<Span>, rs: seq<Redirection<Span>>, items: seq<Item>)
    ensures Around(Wrap(c, rs), items) == Wrap(c, rs + Redirects(items))
    decreases |items|
  {
    if items == [] {
      assert rs + Redirects(items) == rs;
    } else if items[0].Arg? {
      AroundMore(c, rs, items[1..]);
      assert Redirects(items) == Redirects(items[1..]);
    } else {
      var x := [Redirection(items[0].file, items[0].kind)];
      assert (rs + x)[..|rs|] == rs;
      AroundMore(c, rs + x, items[1..]);
      Assoc(rs, x, Redirects(items[1..]));
    }
  }

  lemma Assoc<T>(a: seq<T>, b: seq<T>, c: seq<T>)
    ensures a + b + c == a + (b + c)
  {}

  lemma Cons(x: Item, rest: seq<Item>)
    ensures Args([x] + rest) == (if x.Arg? then [x.w] else []) + Args(rest)
    ensures Redirects([x] + rest) == (if x.Arg? then [] else [Redirection(x.file, x.kind)]) + Redirects(rest)
    ensures ItemsTokens([x] + rest) == ItemTokens(x) + ItemsTokens(rest)
  {
    assert ([x] + rest)[1..] == rest;
  }

  lemma TokensNext(t: string, i: nat)
    requires i <= |t| && NulFree(t) && GetToken(t, i).tok != End
    ensures Tokens(t, i) == [GetToken(t, i).tok] + Tokens(t, GetToken(t, i).next)
  {}

  lemma {:induction false} Joined(a: seq<Item>, b: seq<Item>)
    ensures Args(a + b) == Args(a) + Args(b) && Redirects(a + b) == Redirects(a) + Redirects(b)
    ensures ItemsTokens(a + b) == ItemsTokens(a) + ItemsTokens(b)
  {
    if a == [] {
      assert a + b == b;
    } else {
      hide Args, Redirects, ItemsTokens, ItemTokens;
      var x, rest := a[0], a[1..];
      Joined(rest, b);
      assert a == [x] + rest && a + b == [x] + (rest + b);
      Cons(x, rest);
      Cons(x, rest + b);
      Assoc(ItemTokens(x), ItemsTokens(rest), ItemsTokens(b));
      Assoc(if x.Arg? then [x.w] else [], Args(rest), Args(b));
      Assoc(if x.Arg? then [] else [Redirection(x.file, x.kind)], Redirects(rest), Redirects(b));
    }
  }

  lemma {:induction false} RedirsSound(t: string, i: nat, rs: seq<Redirection<Span>>) returns (items: seq<Item>)
    requires i <= |t| && NulFree(t) && ParseRedirs(t, i, rs).Some?
    ensures var r := ParseRedirs(t, i, rs);
            Args(items) == [] && r.rs == rs + Redirects(items) && Tokens(t, i) == ItemsTokens(items) + Tokens(t, r.i)
    decreases |t| - i
  {
    var j := SkipWhite(t, i);
    Head(t, i);
    if At(t, j) == '<' || At(t, j) == '>' {
      hide Args, Redirects, ItemsTokens, Tokens, GetToken;
      var op := GetToken(t, j);
      var f := GetToken(t, op.next);
      var kind := if op.tok == Append then OutAppend else if op.tok == Symbol('<') then In else Out;
      var x := Redirect(f.tok.span, kind);
      var more := RedirsSound(t, f.next, rs + [Redirection(f.tok.span, kind)]);
      items := [x] + more;
      TokensNext(t, op.next);
      Cons(x, more);
      RedirFirst(op.tok, f.tok, ItemsTokens(more), Tokens(t, ParseRedirs(t, i, rs).i));
      Assoc(rs, [Redirection(f.tok.span, kind)], Redirects(more));
    } else {
      items := [];
    }
  }

  lemma RedirFirst(a: Tok, b: Tok, c: seq<Tok>, d: seq<Tok>)
    ensures [a] + ([b] + (c + d)) == [a, b] + c + d
  {}

  lemma {:induction false} ArgsSound(t: string, i: nat, argv: seq<Span>, rs: seq<Redirection<Span>>) returns (items: seq<Item>)
    requires i <= |t| && NulFree(t) && |argv| < MAXARGS && ParseArgs(t, i, argv, rs).Ok?
    ensures var r := ParseArgs(t, i, argv, rs);
            && r.c == Wrap(Exec(argv + Args(items)), rs + Redirects(items)) && |argv + Args(items)| < MAXARGS
            && Tokens(t, i) == ItemsTokens(items) + Tokens(t, r.i)
    decreases |t| - i
  {
    hide Wrap, ParseRedirs, GetToken, Tokens;
    var j := SkipWhite(t, i);
    Head(t, i);
    var tok := GetToken(t, j);
    if At(t, j) == '|' || At(t, j) == ')' || At(t, j) == '&' || At(t, j) == ';' || tok.tok == End {
      items := [];
      assert argv + Args(items) == argv && rs + Redirects(items) == rs;
      StopsHere(t, i, argv, rs);
    } else {
      hide Args, Redirects, ItemsTokens;
      var more := ParseRedirs(t, tok.next, rs);
      var lead := RedirsSound(t, tok.next, rs);
      var rest := ArgsSound(t, more.i, argv + [tok.tok.span], more.rs);
      items := [Arg(tok.tok.span)] + (lead + rest);
      ArgsFirst(argv, rs, tok.tok.span, lead, rest);
      Assoc(ItemsTokens(lead), ItemsTokens(rest), Tokens(t, ParseArgs(t, i, argv, rs).i));
      Assoc([tok.tok], ItemsTokens(lead) + ItemsTokens(rest), Tokens(t, ParseArgs(t, i, argv, rs).i));
    }
  }

  /** parseexec stops in front of a symbol, or at the end. */
  lemma StopsHere(t: string, i: nat, argv: seq<Span>, rs: seq<Redirection<Span>>)
    requires i <= |t| && NulFree(t)
    requires var c := At(t, SkipWhite(t, i)); c == '|' || c == ')' || c == '&' || c == ';' || GetToken(t, SkipWhite(t, i)).tok == End
    ensures var r := ParseArgs(t, i, argv, rs); r.Ok? && r.c == Wrap(Exec(argv), rs) && Tokens(t, r.i) == Tokens(t, i)
  {
    Head(t, i);
  }

  lemma ArgsFirst(argv: seq<Span>, rs: seq<Redirection<Span>>, w: Span, lead: seq<Item>, rest: seq<Item>)
    requires Args(lead) == []
    ensures var items := [Arg(w)] + (lead + rest);
            && argv + [w] + Args(rest) == argv + Args(items) && rs + Redirects(lead) + Redirects(rest) == rs + Redirects(items)
            && ItemsTokens(items) == [Word(w)] + (ItemsTokens(lead) + ItemsTokens(rest))
  {
    hide Args, Redirects, ItemsTokens;
    Joined(lead, rest);
    Cons(Arg(w), lead + rest);
  }

  lemma {:induction false} StageSound(t: string, i: nat) returns (s: Stage)
    requires i <= |t| && NulFree(t) && ParseExec(t, i).Ok?
    ensures StageFits(s) && StageCmd(s) == ParseExec(t, i).c && Tokens(t, i) == StageTokens(s) + Tokens(t, ParseExec(t, i).i)
    decreases |t| - i, 1
  {
    hide Args, Redirects, ItemsTokens, Tokens, GetToken, Wrap, Around, ParseRedirs, ParseArgs, ParseBlock, ParseLine;
    var j := SkipWhite(t, i);
    Head(t, i);
    if At(t, j) == '(' {
      s := BlockSound(t, j);
    } else {
      var rs := ParseRedirs(t, j, []);
      var lead := RedirsSound(t, j, []);
      var rest := ArgsSound(t, rs.i, [], rs.rs);
      Joined(lead, rest);
      s := Plain(lead + rest);
      assert [] + Args(rest) == Args(lead + rest) && rs.rs + Redirects(rest) == Redirects(lead + rest);
      Assoc(ItemsTokens(lead), ItemsTokens(rest), Tokens(t, ParseExec(t, i).i));
      AroundIs(Exec(Args(lead + rest)), lead + rest);
    }
  }

  lemma BlockWritten(l: Line, rs: seq<Item>, more: seq<Tok>)
    ensures StageTokens(Block(l, rs)) + more == [Symbol('(')] + (LineTokens(l) + ([Symbol(')')] + (ItemsTokens(rs) + more)))
  {}

  lemma BarsWritten(b: Bars, more: seq<Tok>)
    ensures BarsTokens(b) + more == StageTokens(b.stage) + if b.Last? then more else [Symbol('|')] + (BarsTokens(b.rest) + more)
  {}

  lemma {:induction false} BlockSound(t: string, i: nat) returns (s: Stage)
    requires i <= |t| && NulFree(t) && ParseBlock(t, i).Ok?
    ensures StageFits(s) && StageCmd(s) == ParseBlock(t, i).c && Tokens(t, i) == StageTokens(s) + Tokens(t, ParseBlock(t, i).i)
    decreases |t| - i, 0
  {
    hide Tokens, GetToken, Args, Redirects, ItemsTokens, ParseLine, ParseRedirs, Wrap, StageTokens, Around;
    var j := SkipWhite(t, i);
    Head(t, i);
    var a := GetToken(t, j).next;
    var r := ParseLine(t, a);
    var l := LineSound(t, a);
    var k := SkipWhite(t, r.i);
    Head(t, r.i);
    var b := GetToken(t, k).next;
    var rs := RedirsSound(t, b, []);
    s := Block(l, rs);
    assert [] + Redirects(rs) == Redirects(rs);
    BlockWritten(l, rs, Tokens(t, ParseBlock(t, i).i));
    AroundIs(LineCmd(l), rs);
  }

  lemma {:induction false} BarsSound(t: string, i: nat) returns (b: Bars)
    requires i <= |t| && NulFree(t) && ParsePipe(t, i).Ok?
    ensures BarsFit(b) && BarsCmd(b) == ParsePipe(t, i).c && Tokens(t, i) == BarsTokens(b) + Tokens(t, ParsePipe(t, i).i)
    decreases |t| - i, 2
  {
    hide Tokens, GetToken, ParseExec, StageTokens, BarsTokens, StageCmd;
    var a := ParseExec(t, i);
    var s := StageSound(t, i);
    var j := SkipWhite(t, a.i);
    Head(t, a.i);
    if At(t, j) != '|' {
      b := Last(s);
    } else {
      var rest := BarsSound(t, GetToken(t, j).next);
      b := Bar(s, rest);
    }
    BarsWritten(b, Tokens(t, ParsePipe(t, i).i));
  }

  lemma {:induction false} BacksSound(t: string, i: nat, c: Cmd<Span>) returns (n: nat)
    requires i <= |t| && NulFree(t)
    ensures ParseBacks(t, i, c).c == Backs(c, n) && Tokens(t, i) == Ands(n) + Tokens(t, ParseBacks(t, i, c).i)
    decreases |t| - i
  {
    var j := SkipWhite(t, i);
    Head(t, i);
    if At(t, j) != '&' {
      n := 0;
      assert Ands(0) + Tokens(t, i) == Tokens(t, i);
    } else {
      hide Tokens, GetToken;
      var k := BacksSound(t, GetToken(t, j).next, Back(c));
      BacksMore(c, k);
      n := k + 1;
      Assoc([Symbol('&')], Ands(k), Tokens(t, ParseBacks(t, i, c).i));
    }
  }

  lemma {:induction false} BacksMore(c: Cmd<Span>, k: nat)
    ensures Backs(Back(c), k) == Backs(c, k + 1)
  {
    if k > 0 {
      BacksMore(c, k - 1);
    }
  }

  lemma LineWritten(l: Line, more: seq<Tok>)
    ensures LineTokens(l) + more == BarsTokens(l.bars) + (Ands(l.backs) + if l.Whole? then more else [Symbol(';')] + (LineTokens(l.rest) + more))
  {}

  lemma {:induction false} LineSound(t: string, i: nat) returns (l: Line)
    requires i <= |t| && NulFree(t) && ParseLine(t, i).Ok?
    ensures LineFits(l) && LineCmd(l) == ParseLine(t, i).c && Tokens(t, i) == LineTokens(l) + Tokens(t, ParseLine(t, i).i)
    decreases |t| - i, 3
  {
    hide Tokens, GetToken, ParsePipe, ParseBacks, BarsTokens, BarsCmd, Ands, LineTokens;
    var a := ParsePipe(t, i);
    var bars := BarsSound(t, i);
    var b := ParseBacks(t, a.i, a.c);
    var n := BacksSound(t, a.i, a.c);
    var j := SkipWhite(t, b.i);
    Head(t, b.i);
    if At(t, j) != ';' {
      l := Whole(bars, n);
    } else {
      var rest := LineSound(t, GetToken(t, j).next);
      l := Semi(bars, n, rest);
    }
    LineWritten(l, Tokens(t, ParseLine(t, i).i));
  }

  // ----- every tree is what the parser gives ------------------------------------------------------

  predicate Starts(ts: seq<Tok>, c: char) {
    ts != [] && ts[0] == Symbol(c)
  }

  /** What may follow a line, a pipe and a stage. */
  predicate AfterLine(ts: seq<Tok>) {
    ts == [] || Starts(ts, ')')
  }

  predicate AfterBars(ts: seq<Tok>) {
    AfterLine(ts) || Starts(ts, '&') || Starts(ts, ';')
  }

  predicate AfterStage(ts: seq<Tok>) {
    AfterBars(ts) || Starts(ts, '|')
  }

  /** The first token tells the next character. */
  lemma First(t: string, i: nat)
    requires i <= |t| && NulFree(t)
    ensures var j, ts := SkipWhite(t, i), Tokens(t, i);
            && j <= |t| && Tokens(t, j) == ts && (ts == [] ==> At(t, j) == NUL && GetToken(t, j).tok == End)
            && (ts != [] ==> GetToken(t, j).tok == ts[0] && Tokens(t, GetToken(t, j).next) == ts[1..])
            && (forall c :: Starts(ts, c) ==> At(t, j) == c)
            && (forall c :: Special(c) && c != '>' && At(t, j) == c ==> Starts(ts, c))
            && (At(t, j) == '>' <==> Starts(ts, '>') || (ts != [] && ts[0] == Append))
  {
    Head(t, i);
    var j := SkipWhite(t, i);
    if j < |t| {
      assert ([GetToken(t, j).tok] + Tokens(t, GetToken(t, j).next))[1..] == Tokens(t, GetToken(t, j).next);
    }
  }

  lemma Read(t: string, i: nat, x: Tok, more: seq<Tok>)
    requires i <= |t| && NulFree(t) && Tokens(t, i) == [x] + more
    ensures GetToken(t, i).tok == x != End && Tokens(t, GetToken(t, i).next) == more
  {
    assert ([x] + more)[1..] == more;
  }

  lemma NoRedir(t: string, i: nat, rs: seq<Redirection<Span>>)
    requires i <= |t| && NulFree(t) && (AfterStage(Tokens(t, i)) || Tokens(t, i)[0].Word?)
    ensures var r := ParseRedirs(t, i, rs); r.Some? && r.rs == rs && Tokens(t, r.i) == Tokens(t, i)
  {
    First(t, i);
  }

  lemma OneRedir(t: string, i: nat, file: Span, kind: RedirKind, more: seq<Tok>, rs: seq<Redirection<Span>>) returns (e: nat)
    requires i <= |t| && NulFree(t) && Tokens(t, i) == [OpToken(kind)] + ([Word(file)] + more)
    ensures i < e <= |t| && Tokens(t, e) == more && ParseRedirs(t, i, rs) == ParseRedirs(t, e, rs + [Redirection(file, kind)])
  {
    hide Tokens;
    First(t, i);
    assert Tokens(t, i)[1..] == [Word(file)] + more;
    assert if kind == In then Starts(Tokens(t, i), '<') else kind == Out ==> Starts(Tokens(t, i), '>');
    var op := GetToken(t, SkipWhite(t, i));
    Read(t, op.next, Word(file), more);
    e := GetToken(t, op.next).next;
  }

  /** parseredirs takes all redirections that come next. */
  lemma {:induction false} RedirsComplete(t: string, i: nat, items: seq<Item>, rest: seq<Tok>, rs: seq<Redirection<Span>>)
    returns (lead: seq<Item>, tail: seq<Item>)
    requires i <= |t| && NulFree(t) && Tokens(t, i) == ItemsTokens(items) + rest && AfterStage(rest)
    ensures items == lead + tail && Args(lead) == [] && (tail != [] ==> tail[0].Arg?)
    ensures var r := ParseRedirs(t, i, rs); r.Some? && r.rs == rs + Redirects(lead) && Tokens(t, r.i) == ItemsTokens(tail) + rest
    decreases |items|
  {
    hide Tokens, ParseRedirs, AfterStage;
    if items == [] || items[0].Arg? {
      lead, tail := [], items;
      FirstItem(items, rest);
      NoRedir(t, i, rs);
    } else {
      hide Args, Redirects, ItemsTokens;
      var x := items[0];
      var more := [Redirection(x.file, x.kind)];
      FirstItem(items, rest);
      var e := OneRedir(t, i, x.file, x.kind, ItemsTokens(items[1..]) + rest, rs);
      lead, tail := RedirsComplete(t, e, items[1..], rest, rs + more);
      Cons(x, lead);
      Assoc(rs, more, Redirects(lead));
      assert items == [x] + items[1..];
      lead := [x] + lead;
    }
  }

  lemma FirstItem(items: seq<Item>, rest: seq<Tok>)
    ensures items == [] ==> ItemsTokens(items) + rest == rest
    ensures items != [] && items[0].Arg? ==> ItemsTokens(items) + rest == [Word(items[0].w)] + (ItemsTokens(items[1..]) + rest)
    ensures items != [] && items[0].Redirect? ==>
              ItemsTokens(items) + rest == [OpToken(items[0].kind)] + ([Word(items[0].file)] + (ItemsTokens(items[1..]) + rest))
  {
    if items != [] {
      hide ItemsTokens;
      assert items == [items[0]] + items[1..];
      Cons(items[0], items[1..]);
      if items[0].Arg? {
        Assoc([Word(items[0].w)], ItemsTokens(items[1..]), rest);
      } else {
        RedirFirst(OpToken(items[0].kind), Word(items[0].file), ItemsTokens(items[1..]), rest);
      }
    }
  }

  /** The loop of parseexec takes all arguments and redirections. */
  lemma {:induction false} ArgsComplete(t: string, i: nat, items: seq<Item>, rest: seq<Tok>, argv: seq<Span>, rs: seq<Redirection<Span>>)
    requires i <= |t| && NulFree(t) && Tokens(t, i) == ItemsTokens(items) + rest && AfterStage(rest) && (items != [] ==> items[0].Arg?)
    requires |argv + Args(items)| < MAXARGS
    ensures var r := ParseArgs(t, i, argv, rs);
            r.Ok? && r.c == Wrap(Exec(argv + Args(items)), rs + Redirects(items)) && Tokens(t, r.i) == rest
    decreases |items|
  {
    hide Tokens, ParseRedirs, ParseArgs, GetToken, Wrap;
    FirstItem(items, rest);
    First(t, i);
    if items == [] {
      assert argv + Args(items) == argv && rs + Redirects(items) == rs;
      StopsHere(t, i, argv, rs);
    } else {
      hide Args, Redirects, ItemsTokens, AfterStage;
      var w, more := items[0].w, items[1..];
      assert items == [Arg(w)] + more;
      Cons(Arg(w), more);
      var e := OneArg(t, i, w, ItemsTokens(more) + rest);
      var lead, tail := RedirsComplete(t, e, more, rest, rs);
      ArgsFirst(argv, rs, w, lead, tail);
      ArgNext(t, i, w, e, argv, rs);
      var r := ParseRedirs(t, e, rs);
      ArgsComplete(t, r.i, tail, rest, argv + [w], r.rs);
    }
  }

  lemma OneArg(t: string, i: nat, w: Span, more: seq<Tok>) returns (e: nat)
    requires i <= |t| && NulFree(t) && Tokens(t, i) == [Word(w)] + more
    ensures i < e <= |t| && Tokens(t, e) == more && GetToken(t, SkipWhite(t, i)) == Token(Word(w), e) && WordChar(At(t, SkipWhite(t, i)))
  {
    hide Tokens;
    First(t, i);
    assert Tokens(t, i)[1..] == more;
    e := GetToken(t, SkipWhite(t, i)).next;
    SkipStops(t, i);
  }

  lemma ArgNext(t: string, i: nat, w: Span, e: nat, argv: seq<Span>, rs: seq<Redirection<Span>>)
    requires i < e <= |t| && NulFree(t) && GetToken(t, SkipWhite(t, i)) == Token(Word(w), e) && WordChar(At(t, SkipWhite(t, i)))
    requires |argv| + 1 < MAXARGS && ParseRedirs(t, e, rs).Some?
    ensures ParseArgs(t, i, argv, rs) == ParseArgs(t, ParseRedirs(t, e, rs).i, argv + [w], ParseRedirs(t, e, rs).rs)
  {}

  lemma {:induction false} StageComplete(t: string, i: nat, s: Stage, rest: seq<Tok>)
    requires i <= |t| && NulFree(t) && Tokens(t, i) == StageTokens(s) + rest && StageFits(s) && AfterStage(rest)
    ensures var r := ParseExec(t, i); r.Ok? && r.c == StageCmd(s) && Tokens(t, r.i) == rest
    decreases s
  {
    if s.Plain? {
      PlainComplete(t, i, s.items, rest);
      AroundIs(Exec(Args(s.items)), s.items);
    } else {
      BlockWritten(s.inner, s.rs, rest);
      hide Tokens, GetToken, ItemsTokens, StageTokens, LineTokens, ParseLine, ParseRedirs, AfterStage, LineCmd, Wrap, Args, Redirects;
      First(t, i);
      assert Starts(Tokens(t, i), '(');
      var j := SkipWhite(t, i);
      var a := GetToken(t, j).next;
      var behind := [Symbol(')')] + (ItemsTokens(s.rs) + rest);
      assert Tokens(t, i)[1..] == LineTokens(s.inner) + behind;
      LineComplete(t, a, s.inner, behind);
      BlockEnds(t, j, a, s.inner, s.rs, rest);
      AroundIs(LineCmd(s.inner), s.rs);
    }
  }

  lemma PlainComplete(t: string, i: nat, items: seq<Item>, rest: seq<Tok>)
    requires i <= |t| && NulFree(t) && Tokens(t, i) == ItemsTokens(items) + rest && |Args(items)| < MAXARGS && AfterStage(rest)
    ensures var r := ParseExec(t, i); r.Ok? && r.c == Wrap(Exec(Args(items)), Redirects(items)) && Tokens(t, r.i) == rest
  {
    hide Tokens, GetToken, ItemsTokens, ParseRedirs, ParseArgs, Wrap, Args, Redirects;
    First(t, i);
    FirstItem(items, rest);
    var j := SkipWhite(t, i);
    SkipIs(t, i);
    assert !Starts(Tokens(t, i), '(') && Special('(') && At(t, j) != '(';
    var lead, tail := RedirsComplete(t, j, items, rest, []);
    Joined(lead, tail);
    var r := ParseRedirs(t, j, []);
    assert [] + Redirects(lead) == Redirects(lead) && Args(lead) + Args(tail) == Args(tail) == [] + Args(tail);
    ArgsComplete(t, r.i, tail, rest, [], r.rs);
  }

  /** The parenthesis that closes, and the redirections behind it. */
  lemma BlockEnds(t: string, j: nat, a: nat, inner: Line, rs: seq<Item>, rest: seq<Tok>)
    requires j < a <= |t| && NulFree(t) && SkipWhite(t, j) == j && At(t, j) == '(' && GetToken(t, j).next == a && AfterStage(rest) && Args(rs) == []
    requires var r := ParseLine(t, a); r.Ok? && r.c == LineCmd(inner) && Tokens(t, r.i) == [Symbol(')')] + (ItemsTokens(rs) + rest)
    ensures var r := ParseExec(t, j); r.Ok? && r.c == Wrap(LineCmd(inner), Redirects(rs)) && Tokens(t, r.i) == rest
  {
    hide Tokens, GetToken, ItemsTokens, ParseLine, ParseRedirs, AfterStage, LineCmd, Wrap, Args, Redirects;
    var e := ParseLine(t, a).i;
    First(t, e);
    assert Starts(Tokens(t, e), ')') && Tokens(t, e)[1..] == ItemsTokens(rs) + rest;
    var b := GetToken(t, SkipWhite(t, e)).next;
    var lead, tail := RedirsComplete(t, b, rs, rest, []);
    Joined(lead, tail);
    NoArgs(tail);
    assert lead + [] == lead && [] + Redirects(lead) == Redirects(lead);
  }

  lemma NoArgs(items: seq<Item>)
    requires Args(items) == [] && (items != [] ==> items[0].Arg?)
    ensures items == [] && ItemsTokens(items) == []
  {}

  lemma {:induction false} BarsComplete(t: string, i: nat, b: Bars, rest: seq<Tok>)
    requires i <= |t| && NulFree(t) && Tokens(t, i) == BarsTokens(b) + rest && BarsFit(b) && AfterBars(rest)
    ensures var r := ParsePipe(t, i); r.Ok? && r.c == BarsCmd(b) && Tokens(t, r.i) == rest
    decreases b
  {
    hide Tokens, GetToken, StageTokens, BarsTokens, ParseExec, StageCmd;
    BarsWritten(b, rest);
    var behind := if b.Last? then rest else [Symbol('|')] + (BarsTokens(b.rest) + rest);
    StageComplete(t, i, b.stage, behind);
    var e := ParseExec(t, i).i;
    First(t, e);
    if b.Bar? {
      assert Starts(Tokens(t, e), '|') && behind[1..] == BarsTokens(b.rest) + rest;
      BarsComplete(t, GetToken(t, SkipWhite(t, e)).next, b.rest, rest);
    }
  }

  lemma {:induction false} BacksComplete(t: string, i: nat, c: Cmd<Span>, n: nat, rest: seq<Tok>)
    requires i <= |t| && NulFree(t) && Tokens(t, i) == Ands(n) + rest && !Starts(rest, '&')
    ensures var r := ParseBacks(t, i, c); r.Ok? && r.c == Backs(c, n) && Tokens(t, r.i) == rest
    decreases n
  {
    hide Tokens, GetToken;
    First(t, i);
    if n > 0 {
      assert Ands(n) + rest == [Symbol('&')] + (Ands(n - 1) + rest);
      assert Starts(Tokens(t, i), '&') && Tokens(t, i)[1..] == Ands(n - 1) + rest;
      BacksComplete(t, GetToken(t, SkipWhite(t, i)).next, Back(c), n - 1, rest);
      BacksMore(c, n - 1);
    } else {
      assert Ands(0) + rest == rest;
    }
  }

  lemma {:induction false} LineComplete(t: string, i: nat, l: Line, rest: seq<Tok>)
    requires i <= |t| && NulFree(t) && Tokens(t, i) == LineTokens(l) + rest && LineFits(l) && AfterLine(rest)
    ensures var r := ParseLine(t, i); r.Ok? && r.c == LineCmd(l) && Tokens(t, r.i) == rest
    decreases l
  {
    hide Tokens, GetToken, BarsTokens, LineTokens, ParsePipe, ParseBacks, BarsCmd;
    LineWritten(l, rest);
    var behind := if l.Whole? then rest else [Symbol(';')] + (LineTokens(l.rest) + rest);
    AndsFirst(l.backs, behind);
    BarsComplete(t, i, l.bars, Ands(l.backs) + behind);
    var a := ParsePipe(t, i);
    BacksComplete(t, a.i, a.c, l.backs, behind);
    var e := ParseBacks(t, a.i, a.c).i;
    First(t, e);
    if l.Semi? {
      assert Starts(Tokens(t, e), ';') && behind[1..] == LineTokens(l.rest) + rest;
      LineComplete(t, GetToken(t, SkipWhite(t, e)).next, l.rest, rest);
    }
  }

  lemma AndsFirst(n: nat, rest: seq<Tok>)
    requires AfterLine(rest) || Starts(rest, ';')
    ensures AfterBars(Ands(n) + rest)
  {}

  // ----- the theorem --------------------------------------------------------------------------------

  /** The text is written as the tree says, and the command is what the tree means. */
  ghost predicate Derives(l: Line, t: string, c: Cmd<Span>)
    requires NulFree(t)
  {
    LineFits(l) && LineTokens(l) == Tokens(t, 0) && LineCmd(l) == c
  }

  /** parsecmd accepts a text with a command if and only if the grammar derives it. */
  lemma ParsesIff(t: string, c: Cmd<Span>)
    requires NulFree(t)
    ensures ParseCmd(t).Ok? && ParseCmd(t).c == c <==> exists l :: Derives(l, t, c)
  {
    if ParseCmd(t).Ok? && ParseCmd(t).c == c {
      var l := LineSound(t, 0);
      First(t, ParseLine(t, 0).i);
      assert Derives(l, t, c);
    }
    if l :| Derives(l, t, c) {
      assert LineTokens(l) + [] == LineTokens(l);
      LineComplete(t, 0, l, []);
      First(t, ParseLine(t, 0).i);
    }
  }

  /** A text has at most one meaning. */
  lemma Unambiguous(t: string, k: Line, l: Line)
    requires NulFree(t) && LineFits(k) && LineFits(l) && LineTokens(k) == Tokens(t, 0) == LineTokens(l)
    ensures LineCmd(k) == LineCmd(l)
  {
    assert Derives(k, t, LineCmd(k)) && Derives(l, t, LineCmd(l));
    ParsesIff(t, LineCmd(k));
    ParsesIff(t, LineCmd(l));
  }
}
