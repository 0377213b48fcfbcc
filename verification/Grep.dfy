/** The regular expressions of grep.c: what they mean, and the matcher. */
module Regex {

  /** One character or any ('.'), or a run of them. */
  datatype Item = One(c: char) | Star(c: char)

  /** A pattern: its items and whether it ends in '$'.  A leading '^' is not part of it. */
  datatype Pattern = Pattern(items: seq<Item>, eol: bool)

  function Parse(re: string): Pattern
    decreases |re|
  {
    if re == "" then Pattern([], false)
    else if |re| >= 2 && re[1] == '*' then Prepend(Star(re[0]), Parse(re[2..]))
    else if re == "$" then Pattern([], true)
    else Prepend(One(re[0]), Parse(re[1..]))
  }

  function Prepend(x: Item, p: Pattern): Pattern {
    p.(items := [x] + p.items)
  }

  /** A pattern as it is written. */
  function Print(p: Pattern): string {
    PrintItems(p.items) + if p.eol then "$" else ""
  }

  function PrintItems(items: seq<Item>): string {
    if items == [] then "" else (if items[0].One? then [items[0].c] else [items[0].c, '*']) + PrintItems(items[1..])
  }

  /** The text of a pattern is read in one way only: no single character stands before a '*' that it would take, and
      the last one is not a '$' that would end the pattern. */
  predicate Readable(items: seq<Item>, eol: bool) {
    && (forall i :: 0 <= i < |items| - 1 && items[i].One? ==> items[i + 1].c != '*')
    && (!eol ==> items == [] || items[|items| - 1] != One('$'))
  }

  /** Every regular expression is the text of the pattern it is read as. */
  lemma {:induction false} PrintParse(re: string)
    ensures Print(Parse(re)) == re
    decreases |re|
  {
    if re != "" {
      var star := |re| >= 2 && re[1] == '*';
      if star || re != "$" {
        var rest := if star then re[2..] else re[1..];
        PrintParse(rest);
        assert Parse(re).items[1..] == Parse(rest).items;
      }
    }
  }

  /** A pattern is read back from its text if and only if the text is unambiguous. */
  lemma ParsePrintIff(p: Pattern)
    ensures Parse(Print(p)) == p <==> Readable(p.items, p.eol)
  {
    if Readable(p.items, p.eol) {
      ParsePrint(p);
    }
    if Parse(Print(p)) == p {
      ParsedReadable(Print(p));
    }
  }

  lemma {:induction false} ParsePrint(p: Pattern)
    requires Readable(p.items, p.eol)
    ensures Parse(Print(p)) == p
    decreases |p.items|
  {
    if p.items != [] {
      var rest := p.(items := p.items[1..]);
      var text := if p.items[0].One? then [p.items[0].c] else [p.items[0].c, '*'];
      ParsePrint(rest);
      assert Print(p) == text + Print(rest);
      assert Print(p)[|text|..] == Print(rest);
      FirstChar(rest);
      assert p == Prepend(p.items[0], rest);
    }
  }

  lemma FirstChar(p: Pattern)
    ensures if p.items != [] then Print(p) != "" && Print(p)[0] == p.items[0].c else Print(p) == if p.eol then "$" else ""
  {}

  lemma {:induction false} ParsedReadable(re: string)
    ensures Readable(Parse(re).items, Parse(re).eol)
    decreases |re|
  {
    if re != "" {
      var star := |re| >= 2 && re[1] == '*';
      if star || re != "$" {
        var rest := if star then re[2..] else re[1..];
        ParsedReadable(rest);
        PrintParse(rest);
        FirstChar(Parse(rest));
        assert Parse(re).items[1..] == Parse(rest).items;
      }
    }
  }

  predicate Fits(c: char, x: char) {
    c == '.' || c == x
  }

  /** The strings an item sequence stands for. */
  ghost predicate Denotes(items: seq<Item>, w: string)
    decreases |items|
  {
    if items == [] then w == ""
    else if items[0].One? then w != "" && Fits(items[0].c, w[0]) && Denotes(items[1..], w[1..])
    else exists k :: 0 <= k <= |w| && AllFit(items[0].c, w, k) && Denotes(items[1..], w[k..])
  }

  predicate AllFit(c: char, w: string, k: nat)
    requires k <= |w|
  {
    forall j :: 0 <= j < k ==> Fits(c, w[j])
  }

  /** A pattern matches at the start of a text: some prefix is one of its strings, all of the text if
      the pattern ends in '$'. */
  ghost predicate Starts(p: Pattern, t: string) {
    exists n :: 0 <= n <= |t| && Denotes(p.items, t[..n]) && (p.eol ==> n == |t|)
  }

  /** A regular expression matches a text: at its start after '^', else anywhere. */
  ghost predicate Found(re: string, t: string) {
    if re != "" && re[0] == '^' then Starts(Parse(re[1..]), t)
    else exists s :: 0 <= s <= |t| && Starts(Parse(re), t[s..])
  }

  lemma StartsNone(p: Pattern, t: string)
    requires p.items == []
    ensures Starts(p, t) <==> (p.eol ==> t == "")
  {
    if p.eol ==> t == "" {
      assert Denotes(p.items, t[..0]);
    }
  }

  lemma StartsOne(c: char, p: Pattern, t: string)
    ensures Starts(Prepend(One(c), p), t) <==> t != "" && Fits(c, t[0]) && Starts(p, t[1..])
  {
    var q := Prepend(One(c), p);
    assert q.items[0] == One(c) && q.items[1..] == p.items;
    if Starts(q, t) {
      var n :| 0 <= n <= |t| && Denotes(q.items, t[..n]) && (q.eol ==> n == |t|);
      assert t[..n][1..] == t[1..][..n - 1];
    }
    if t != "" && Fits(c, t[0]) && Starts(p, t[1..]) {
      var n :| 0 <= n <= |t[1..]| && Denotes(p.items, t[1..][..n]) && (p.eol ==> n == |t[1..]|);
      assert t[..n + 1][1..] == t[1..][..n];
      assert Denotes(q.items, t[..n + 1]);
    }
  }

  lemma StartsStar(c: char, p: Pattern, t: string)
    ensures Starts(Prepend(Star(c), p), t) <==> exists k :: 0 <= k <= |t| && AllFit(c, t, k) && Starts(p, t[k..])
  {
    if Starts(Prepend(Star(c), p), t) {
      var k := StarSplit(c, p, t);
    }
    if exists k :: 0 <= k <= |t| && AllFit(c, t, k) && Starts(p, t[k..]) {
      var k :| 0 <= k <= |t| && AllFit(c, t, k) && Starts(p, t[k..]);
      StarJoin(c, p, t, k);
    }
  }

  lemma StarSplit(c: char, p: Pattern, t: string) returns (k: nat)
    requires Starts(Prepend(Star(c), p), t)
    ensures k <= |t| && AllFit(c, t, k) && Starts(p, t[k..])
  {
    var q := Prepend(Star(c), p);
    assert q.items[0] == Star(c) && q.items[1..] == p.items;
    var n :| 0 <= n <= |t| && Denotes(q.items, t[..n]) && (q.eol ==> n == |t|);
    k :| 0 <= k <= n && AllFit(c, t[..n], k) && Denotes(p.items, t[..n][k..]);
    assert t[..n][k..] == t[k..][..n - k];
    assert forall j :: 0 <= j < k ==> t[..n][j] == t[j];
  }

  lemma StarJoin(c: char, p: Pattern, t: string, k: nat)
    requires k <= |t| && AllFit(c, t, k) && Starts(p, t[k..])
    ensures Starts(Prepend(Star(c), p), t)
  {
    var q := Prepend(Star(c), p);
    assert q.items[0] == Star(c) && q.items[1..] == p.items;
    var n :| 0 <= n <= |t[k..]| && Denotes(p.items, t[k..][..n]) && (p.eol ==> n == |t[k..]|);
    assert t[..k + n][k..] == t[k..][..n];
    assert AllFit(c, t[..k + n], k);
    assert Denotes(q.items, t[..k + n]);
  }

  /** What an expression matches at the start of a text, read off its first characters: nothing is left to match; a
      character with '*' takes any number of fitting characters; a last '$' wants the end; anything else
      takes one fitting character. */
  lemma Meaning(re: string, t: string)
    ensures re == "" ==> Starts(Parse(re), t)
    ensures |re| >= 2 && re[1] == '*' ==>
            (Starts(Parse(re), t) <==> exists k :: 0 <= k <= |t| && (forall j :: 0 <= j < k ==> re[0] == '.' || re[0] == t[j]) && Starts(Parse(re[2..]), t[k..]))
    ensures re == "$" ==> (Starts(Parse(re), t) <==> t == "")
    ensures re != "" && re != "$" && (|re| == 1 || re[1] != '*') ==>
            (Starts(Parse(re), t) <==> t != "" && (re[0] == '.' || re[0] == t[0]) && Starts(Parse(re[1..]), t[1..]))
  {
    hide Starts;
    if re == "" || re == "$" {
      StartsNone(Parse(re), t);
    } else if |re| >= 2 && re[1] == '*' {
      StartsStar(re[0], Parse(re[2..]), t);
      assert forall k :: 0 <= k <= |t| ==> (AllFit(re[0], t, k) <==> forall j :: 0 <= j < k ==> re[0] == '.' || re[0] == t[j]);
    } else {
      StartsOne(re[0], Parse(re[1..]), t);
    }
  }

  /** matchhere */
  method MatchHere(re: string, text: string) returns (b: bool)
    ensures b <==> Starts(Parse(re), text)
    decreases |re|, 0
  {
    if re == "" {
      StartsNone(Parse(re), text);
      return true;
    }
    if |re| >= 2 && re[1] == '*' {
      b := MatchStar(re[0], re[2..], text);
      return;
    }
    if re == "$" {
      StartsNone(Parse(re), text);
      return text == "";
    }
    StartsOne(re[0], Parse(re[1..]), text);
    if text != "" && (re[0] == '.' || re[0] == text[0]) {
      b := MatchHere(re[1..], text[1..]);
    } else {
      b := false;
    }
  }

  /** matchstar: c*re at the start of the text */
  method MatchStar(c: char, re: string, text: string) returns (b: bool)
    ensures b <==> Starts(Prepend(Star(c), Parse(re)), text)
    decreases |re|, 1
  {
    StartsStar(c, Parse(re), text);
    var i := 0;
    b := MatchHere(re, text);
    assert text[0..] == text;
    while !b && i < |text| && (text[i] == c || c == '.')
      invariant 0 <= i <= |text| && AllFit(c, text, i)
      invariant b <==> Starts(Parse(re), text[i..])
      invariant forall k :: 0 <= k < i ==> !Starts(Parse(re), text[k..])
      decreases |text| - i, !b
    {
      i := i + 1;
      b := MatchHere(re, text[i..]);
    }
  }

  /** match */
  method Match(re: string, text: string) returns (b: bool)
    ensures b <==> Found(re, text)
    ensures b <==> if re != "" && re[0] == '^' then Starts(Parse(re[1..]), text) else exists s :: 0 <= s <= |text| && Starts(Parse(re), text[s..])
  {
    if re != "" && re[0] == '^' {
      b := MatchHere(re[1..], text);
      return;
    }
    b := MatchHere(re, text);
    var i := 0;
    assert text[0..] == text;
    while !b && i < |text|
      invariant 0 <= i <= |text|
      invariant b <==> Starts(Parse(re), text[i..])
      invariant forall k :: 0 <= k < i ==> !Starts(Parse(re), text[k..])
      decreases |text| - i, !b
    {
      i := i + 1;
      b := MatchHere(re, text[i..]);
    }
  }
}

/** The buffering loop of grep. */
module Grep {
  import opened Machine
  import opened Regex

  const BUFSIZE: nat := 1024

  /** The position of the first newline, or the length. */
  function LineEnd(s: string): (k: nat)
    ensures k <= |s| && (k < |s| ==> s[k] == '\n') && forall j :: 0 <= j < k ==> s[j] != '\n'
  {
    if s == "" || s[0] == '\n' then 0 else LineEnd(s[1..]) + 1
  }

  /** The complete lines of a text that match, with their newlines. */
  ghost function Selected(re: string, s: string): string
    decreases |s|
  {
    var k := LineEnd(s);
    if k == |s| then "" else (if Found(re, s[..k]) then s[..k + 1] else "") + Selected(re, s[k + 1..])
  }

  /** A line that is complete is selected if and only if it matches, whatever stands before and behind it. */
  lemma {:induction false} SelectedLine(re: string, a: string, line: string, b: string)
    requires (a == "" || a[|a| - 1] == '\n') && '\n' !in line
    ensures Selected(re, a + line + "\n" + b) == Selected(re, a) + (if Found(re, line) then line + "\n" else "") + Selected(re, b)
    decreases |a|
  {
    hide Found, Selected, LineEnd;
    var s := a + line + "\n" + b;
    if a == "" {
      assert s[..|line|] == line && s[..|line| + 1] == line + "\n" && s[|line| + 1..] == b;
      LineEndOf(s, |line|);
      SelectedFirst(re, s, |line|);
      SelectedNone(re);
      assert "" + (if Found(re, line) then line + "\n" else "") == if Found(re, line) then line + "\n" else "";
    } else {
      var k := FirstEnd(a);
      var rest := a[k + 1..];
      assert s[..k] == a[..k] && s[..k + 1] == a[..k + 1] && s[k + 1..] == rest + line + "\n" + b;
      LineEndOf(s, k);
      LineEndOf(a, k);
      SelectedFirst(re, s, k);
      SelectedFirst(re, a, k);
      SelectedLine(re, rest, line, b);
      Regrouped(if Found(re, a[..k]) then a[..k + 1] else "", Selected(re, rest), if Found(re, line) then line + "\n" else "");
      Regrouped(if Found(re, a[..k]) then a[..k + 1] else "", Selected(re, rest) + (if Found(re, line) then line + "\n" else ""), Selected(re, b));
    }
  }

  lemma SelectedNone(re: string)
    ensures Selected(re, "") == ""
  {}

  lemma SelectedFirst(re: string, s: string, k: nat)
    requires LineEnd(s) == k < |s|
    ensures Selected(re, s) == (if Found(re, s[..k]) then s[..k + 1] else "") + Selected(re, s[k + 1..])
  {
    hide Found, LineEnd;
  }

  /** Where the first line of a text that ends in a newline ends. */
  lemma FirstEnd(a: string) returns (k: nat)
    requires a != "" && a[|a| - 1] == '\n'
    ensures k < |a| && a[k] == '\n' && (forall j :: 0 <= j < k ==> a[j] != '\n') && (k + 1 == |a| || a[k + 1..][|a| - k - 2] == '\n')
  {
    k := LineEnd(a);
  }

  /** Every complete line fits the buffer, with its newline and a NUL. */
  predicate LinesFit(s: string)
    decreases |s|
  {
    var k := LineEnd(s);
    k == |s| || (k + 1 < BUFSIZE && LinesFit(s[k + 1..]))
  }

  lemma LineEndOf(s: string, k: nat)
    requires k < |s| && s[k] == '\n' && forall j :: 0 <= j < k ==> s[j] != '\n'
    ensures LineEnd(s) == k
  {}

  lemma Halves(s: string, rest: string, k: nat)
    requires k <= |s|
    ensures (s + rest)[..k] == s[..k] && (s + rest)[k..] == s[k..] + rest
  {}

  /** read: at least one byte if there is room and input is left, as many as `want` if it can. */
  method Read(input: string, at: nat, room: nat, want: nat) returns (n: nat)
    requires at <= |input|
    ensures n <= room && at + n <= |input| && (n == 0 <==> room == 0 || at == |input|)
  {
    var left := if |input| - at < room then |input| - at else room;
    n := if want == 0 then 1 else want;
    if n > left {
      n := left;
    }
  }

  lemma FirstLine(re: string, out: string, s: string, rest: string, k: nat)
    requires k < |s| && s[k] == '\n' && forall j :: 0 <= j < k ==> s[j] != '\n'
    requires LinesFit(s + rest)
    ensures out + Selected(re, s + rest) == out + (if Found(re, s[..k]) then s[..k + 1] else "") + Selected(re, s[k + 1..] + rest)
    ensures LinesFit(s[k + 1..] + rest)
  {
    hide Found, Selected, LinesFit, LineEnd;
    LineEndOf(s + rest, k);
    Halves(s, rest, k);
    Halves(s, rest, k + 1);
    FirstSelected(re, s + rest, k);
    var line := if Found(re, s[..k]) then s[..k + 1] else "";
    Regrouped(out, line, Selected(re, s[k + 1..] + rest));
  }

  lemma FirstSelected(re: string, t: string, k: nat)
    requires LineEnd(t) == k < |t| && LinesFit(t)
    ensures Selected(re, t) == (if Found(re, t[..k]) then t[..k + 1] else "") + Selected(re, t[k + 1..]) && LinesFit(t[k + 1..])
  {
    hide Found, LineEnd, Selected;
    SelectedFirst(re, t, k);
  }

  lemma Regrouped(a: string, b: string, c: string)
    ensures a + (b + c) == a + b + c
  {}

  class Grepper {
    const buf: array<char>
    var out: string

    constructor ()
      ensures fresh(buf) && buf.Length == BUFSIZE && out == ""
    {
      buf := new char[BUFSIZE];
      out := "";
    }

    /** strchr(p, '\n') on the bytes before the NUL at m. */
    method FindNewline(p: nat, m: nat) returns (q: nat)
      requires p <= m < buf.Length && buf[m] == NUL && forall j :: p <= j < m ==> buf[j] != NUL
      ensures p <= q <= m && (q < m ==> buf[q] == '\n') && forall j :: p <= j < q ==> buf[j] != '\n'
    {
      q := p;
      while buf[q] != NUL && buf[q] != '\n'
        invariant p <= q <= m && forall j :: p <= j < q ==> buf[j] != '\n'
        decreases m - q
      {
        q := q + 1;
      }
    }

    /** One complete line of the buffer: its newline becomes a NUL for match, and again a newline to be written. */
    method DoLine(re: string, p: nat, q: nat, m: nat)
      requires buf.Length == BUFSIZE && p <= q < m < BUFSIZE && buf[q] == '\n' && forall j :: p <= j < q ==> buf[j] != '\n'
      modifies buf, this`out
      ensures forall j :: 0 <= j < BUFSIZE && j != q ==> buf[j] == old(buf[j])
      ensures out == old(out) + if Found(re, old(buf[p..q])) then old(buf[p..q + 1]) else ""
    {
      buf[q] := NUL;
      assert buf[p..q] == old(buf[p..q]);
      var b := Match(re, buf[p..q]);
      if b {
        buf[q] := '\n';
        assert buf[p..q + 1] == old(buf[p..q + 1]);
        out := out + buf[p..q + 1];
      }
    }

    /** The complete lines of the buffer; p is where the incomplete one starts. */
    method DoLines(re: string, m: nat, ghost rest: string) returns (p: nat)
      requires buf.Length == BUFSIZE && m < BUFSIZE && buf[m] == NUL && NulFree(buf[..m]) && LinesFit(buf[..m] + rest)
      modifies buf, this`out
      ensures p <= m && buf[m] == NUL && NulFree(buf[p..m]) && LineEnd(buf[p..m]) == m - p
      ensures old(out) + Selected(re, old(buf[..m]) + rest) == out + Selected(re, buf[p..m] + rest)
      ensures LinesFit(buf[p..m] + rest)
    {
      ghost var total := out + Selected(re, buf[..m] + rest);
      p := 0;
      assert buf[0..m] == buf[..m];
      var q := FindNewline(p, m);
      while q < m
        invariant p <= q <= m && buf[m] == NUL && (q < m ==> buf[q] == '\n') && (forall j :: p <= j < q ==> buf[j] != '\n')
        invariant NulFree(buf[p..m]) && LinesFit(buf[p..m] + rest)
        invariant total == out + Selected(re, buf[p..m] + rest)
        decreases m - p
      {
        p, q := NextLine(re, p, q, m, rest, total);
      }
      NoLine(buf[p..m]);
    }

    static lemma NoLine(s: string)
      requires forall j :: 0 <= j < |s| ==> s[j] != '\n'
      ensures LineEnd(s) == |s|
    {}

    method NextLine(re: string, p: nat, q: nat, m: nat, ghost rest: string, ghost total: string) returns (p': nat, q': nat)
      requires buf.Length == BUFSIZE && p <= q < m < BUFSIZE && buf[m] == NUL && buf[q] == '\n' && forall j :: p <= j < q ==> buf[j] != '\n'
      requires NulFree(buf[p..m]) && LinesFit(buf[p..m] + rest) && total == out + Selected(re, buf[p..m] + rest)
      modifies buf, this`out
      ensures p < p' <= q' <= m && buf[m] == NUL && (q' < m ==> buf[q'] == '\n') && (forall j :: p' <= j < q' ==> buf[j] != '\n')
      ensures NulFree(buf[p'..m]) && LinesFit(buf[p'..m] + rest) && total == out + Selected(re, buf[p'..m] + rest)
    {
      hide LinesFit, Selected, Found;
      ghost var s, k := buf[p..m], q - p;
      assert buf[p..q] == s[..k] && buf[p..q + 1] == s[..k + 1];
      FirstLine(re, out, s, rest, k);
      DoLine(re, p, q, m);
      p' := q + 1;
      Kept(s, p, k, buf[p'..m]);
      q' := FindNewline(p', m);
    }

    static lemma Kept(s: string, p: nat, k: nat, now: string)
      requires k < |s| && now == s[k + 1..] && NulFree(s)
      ensures NulFree(now)
    {}

    /** read into the buffer behind the m bytes kept from before, and a NUL behind it. */
    method Fill(input: string, at: nat, m: nat, want: nat) returns (n: nat)
      requires buf.Length == BUFSIZE && m < BUFSIZE && at <= |input|
      modifies buf
      ensures m + n < BUFSIZE && at + n <= |input| && (n == 0 <==> m == BUFSIZE - 1 || at == |input|)
      ensures n == 0 ==> buf[..] == old(buf[..])
      ensures n > 0 ==> buf[m + n] == NUL && buf[..m + n] == old(buf[..m]) + input[at..at + n]
    {
      n := Read(input, at, BUFSIZE - m - 1, want);
      var k := 0;
      while k < n
        invariant 0 <= k <= n && buf[..m + k] == old(buf[..m]) + input[at..at + k] && (n == 0 ==> buf[..] == old(buf[..]))
      {
        buf[m + k] := input[at + k];
        k := k + 1;
      }
      if n > 0 {
        buf[m + n] := NUL;
      }
    }

    /** memmove of the incomplete line to the start of the buffer. */
    method Shift(p: nat, m: nat)
      requires buf.Length == BUFSIZE && p <= m <= BUFSIZE
      modifies buf
      ensures buf[..m - p] == old(buf[p..m])
    {
      var k := 0;
      while k < m - p
        invariant 0 <= k <= m - p && buf[..k] == old(buf[p..p + k])
        invariant forall j :: p + k <= j < m ==> buf[j] == old(buf[j])
      {
        buf[k] := buf[p + k];
        k := k + 1;
      }
    }

    /** Between two reads: s is the incomplete line in the buffer, and the lines still to come are those
        of s and the rest of the input. */
    static ghost predicate Between(re: string, s: string, rest: string, out: string, total: string) {
      LineEnd(s) == |s| && NulFree(s) && LinesFit(s + rest) && total == out + Selected(re, s + rest)
    }

    /** grep on a whole input, however read splits it: the complete lines that match, in order. */
    method Run(re: string, input: string, wants: nat -> nat)
      requires buf.Length == BUFSIZE && NulFree(input) && LinesFit(input)
      modifies buf, this`out
      ensures out == old(out) + Selected(re, input)
    {
      ghost var total := out + Selected(re, input);
      var m: nat, at: nat, more := 0, 0, true;
      StartOfInput(buf[..0], input);
      while more
        invariant 0 <= m < BUFSIZE && 0 <= at <= |input| && Between(re, buf[..m], input[at..], out, total)
        invariant !more ==> m == BUFSIZE - 1 || at == |input|
        decreases |input| - at, more
      {
        m, at, more := Round(re, input, m, at, wants(at), total);
      }
      NothingLeft(re, buf[..m], input[at..]);
    }

    /** One iteration: read, handle the complete lines, keep the rest. */
    method Round(re: string, input: string, m: nat, at: nat, want: nat, ghost total: string) returns (m': nat, at': nat, more: bool)
      requires buf.Length == BUFSIZE && m < BUFSIZE && at <= |input| && NulFree(input)
      requires Between(re, buf[..m], input[at..], out, total)
      modifies buf, this`out
      ensures m' < BUFSIZE && at' <= |input| && Between(re, buf[..m'], input[at'..], out, total)
      ensures if more then at < at' else m' == m && at' == at && (m == BUFSIZE - 1 || at == |input|)
    {
      ghost var s := buf[..m];
      var n := Fill(input, at, m, want);
      m', at', more := m, at, n > 0;
      if more {
        at' := at + n;
        MoreInput(re, s, input, at, n, out, total);
        var p := DoLines(re, m + n, input[at'..]);
        ghost var tail := buf[p..m + n];
        Shift(p, m + n);
        m' := m + n - p;
        assert buf[..m'] == tail;
      } else {
        assert buf[..m] == buf[..][..m];
      }
    }

    static lemma MoreInput(re: string, s: string, input: string, at: nat, n: nat, out: string, total: string)
      requires at + n <= |input| && NulFree(input) && Between(re, s, input[at..], out, total)
      ensures var s' := s + input[at..at + n];
              NulFree(s') && LinesFit(s' + input[at + n..]) && total == out + Selected(re, s' + input[at + n..])
    {
      assert s + input[at..at + n] + input[at + n..] == s + input[at..];
    }

    /** A full buffer without a newline, or the end of the input: no complete line is left. */
    static lemma NothingLeft(re: string, s: string, rest: string)
      requires LineEnd(s) == |s| && LinesFit(s + rest) && (|s| == BUFSIZE - 1 || rest == "")
      ensures Selected(re, s + rest) == ""
    {
      assert forall j :: 0 <= j < |s| ==> (s + rest)[j] != '\n';
    }

    static lemma StartOfInput(s: string, input: string)
      requires s == ""
      ensures s + input[0..] == input
    {}
  }
}
