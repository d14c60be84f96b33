/** From characters to tokens, and from syntax trees to the commands that sh.c builds. */
module ShellText {
  import opened ShellGrammar

  const NUL := '\0'

  // ---------------------------------------------------------------- tokens

  const WHITESPACE := [' ', '\t', '\r', '\n', 11 as char]
  const SYMBOLS := "<|>&;()"

  predicate Space(c: char) {
    c in WHITESPACE
  }

  predicate WordChar(c: char) {
    c !in WHITESPACE && c !in SYMBOLS && c != NUL
  }

  /** The first position from s on that is not a space. */
  function Skip(line: string, s: nat): (k: nat)
    requires s <= |line|
    ensures s <= k <= |line| && (k < |line| ==> !Space(line[k]))
    decreases |line| - s
  {
    if s < |line| && Space(line[s]) then Skip(line, s + 1) else s
  }

  function WordEnd(line: string, s: nat): (k: nat)
    requires s <= |line|
    ensures s <= k <= |line|
    decreases |line| - s
  {
    if s < |line| && WordChar(line[s]) then WordEnd(line, s + 1) else s
  }

  /** The token at s, which is not a space, and where it ends. */
  function TokenAt(line: string, s: nat): (r: (Tok, nat))
    requires s < |line| && line[s] != NUL && !Space(line[s])
    ensures s < r.1 <= |line|
  {
    if line[s] == '>' then
      if s + 1 < |line| && line[s + 1] == '>' then (Sym('+'), s + 2) else (Sym('>'), s + 1)
    else if line[s] in SYMBOLS then (Sym(line[s]), s + 1)
    else (Word(s, WordEnd(line, s + 1)), WordEnd(line, s + 1))
  }

  predicate NoNul(line: string) {
    forall k :: 0 <= k < |line| ==> line[k] != NUL
  }

  function Lex(line: string, s: nat): (ts: seq<Tok>)
    requires s <= |line| && NoNul(line)
    decreases |line| - s
  {
    var k := Skip(line, s);
    if k == |line| then [] else var (t, e) := TokenAt(line, k); [t] + Lex(line, e)
  }

  lemma {:induction false} SkipTwice(line: string, s: nat)
    requires s <= |line|
    ensures Skip(line, Skip(line, s)) == Skip(line, s)
    decreases |line| - s
  {
    if s < |line| && Space(line[s]) { SkipTwice(line, s + 1); }
  }

  lemma LexSkip(line: string, s: nat)
    requires s <= |line| && NoNul(line)
    ensures Lex(line, Skip(line, s)) == Lex(line, s)
  {
    SkipTwice(line, s);
  }

  /** A word is a longest run of word characters. */
  ghost predicate WordAt(line: string, q: nat, eq: nat) {
    && q < eq <= |line| && (forall k :: q <= k < eq ==> WordChar(line[k])) && (eq < |line| ==> !WordChar(line[eq]))
    && (q > 0 ==> !WordChar(line[q - 1]))
  }

  lemma {:induction false} WordEndIs(line: string, s: nat)
    requires s <= |line|
    ensures var e := WordEnd(line, s);
            (forall k :: s <= k < e ==> WordChar(line[k])) && (e < |line| ==> !WordChar(line[e]))
    decreases |line| - s
  {
    if s < |line| && WordChar(line[s]) { WordEndIs(line, s + 1); }
  }

  /** Between tokens: not in the middle of a word. */
  ghost predicate Between(line: string, s: nat) {
    s <= |line| && (0 < s < |line| && WordChar(line[s]) ==> !WordChar(line[s - 1]))
  }

  lemma {:induction false} SkipBetween(line: string, s: nat)
    requires Between(line, s)
    ensures Between(line, Skip(line, s)) && forall k :: s <= k < Skip(line, s) ==> !WordChar(line[k])
    decreases |line| - s
  {
    if s < |line| && Space(line[s]) { SkipBetween(line, s + 1); }
  }

  lemma TokenBetween(line: string, s: nat)
    requires s < |line| && line[s] != NUL && !Space(line[s]) && Between(line, s)
    ensures var (t, e) := TokenAt(line, s);
            && Between(line, e)
            && if t.Word? then t == Word(s, e) && WordAt(line, s, e)
               else !WordChar(line[s]) && !WordChar(line[e - 1])
  {
    WordEndIs(line, s + 1);
  }

  /** The words among the tokens are exactly the words of the text. */
  lemma {:induction false} WordsFound(line: string, s: nat, q: nat, eq: nat)
    requires NoNul(line) && Between(line, s)
    ensures Word(q, eq) in Lex(line, s) <==> s <= q && WordAt(line, q, eq)
    decreases |line| - s
  {
    var k := Skip(line, s);
    SkipBetween(line, s);
    if k < |line| {
      TokenBetween(line, k);
      var (t, e) := TokenAt(line, k);
      WordsFound(line, e, q, eq);
      assert Lex(line, s) == [t] + Lex(line, e);
      if s <= q && WordAt(line, q, eq) && q < e { WordFirst(line, s, k, e, q, eq); }
    } else {
      NoWords(line, s, q, eq);
    }
  }

  lemma NoWords(line: string, s: nat, q: nat, eq: nat)
    requires forall j :: s <= j < |line| ==> !WordChar(line[j])
    ensures !(s <= q && WordAt(line, q, eq))
  {
    assert q < |line| ==> (WordChar(line[q]) || !WordChar(line[q]));
  }

  /** A word that starts before the end of the first token is that token. */
  lemma WordFirst(line: string, s: nat, k: nat, e: nat, q: nat, eq: nat)
    requires NoNul(line) && s <= k < e <= |line| && s <= q < e && WordAt(line, q, eq)
    requires forall j :: s <= j < k ==> !WordChar(line[j])
    requires (forall j :: k <= j < e ==> !WordChar(line[j])) || WordAt(line, k, e)
    ensures q == k && eq == e && WordAt(line, k, e)
  {
    assert WordChar(line[q]);
  }

  // ---------------------------------------------------------------- commands

  datatype Span = Span(q: nat, eq: nat)

  datatype Cmd =
    | ExecCmd(argv: seq<Span>)
    | RedirCmd(cmd: Cmd, file: Span, mode: nat, fd: nat)
    | PipeCmd(left: Cmd, right: Cmd)
    | ListCmd(left: Cmd, right: Cmd)
    | BackCmd(cmd: Cmd)

  const O_RDONLY := 0
  const O_WRONLY_CREATE := 0x201

  /** redircmd, as parseredirs calls it: >> opens like >. */
  function WithRedir(c: Cmd, r: Redir): Cmd {
    if r.op == '<' then RedirCmd(c, Span(r.q, r.eq), O_RDONLY, 0) else RedirCmd(c, Span(r.q, r.eq), O_WRONLY_CREATE, 1)
  }

  /** The first redirection is innermost. */
  function Wrap(c: Cmd, rs: seq<Redir>): Cmd
    decreases |rs|
  {
    if rs == [] then c else Wrap(WithRedir(c, rs[0]), rs[1..])
  }

  function Args(xs: seq<Item>): seq<Span> {
    if xs == [] then [] else if xs[0].Arg? then [Span(xs[0].q, xs[0].eq)] + Args(xs[1..]) else Args(xs[1..])
  }

  function RedirsOf(xs: seq<Item>): seq<Redir> {
    if xs == [] then [] else if xs[0].Into? then [xs[0].r] + RedirsOf(xs[1..]) else RedirsOf(xs[1..])
  }

  lemma {:induction false} ArgsAdd(xs: seq<Item>, ys: seq<Item>)
    ensures Args(xs + ys) == Args(xs) + Args(ys)
  {
    if xs == [] {
      assert xs + ys == ys && Args(xs) == [];
    } else {
      ArgsAdd(xs[1..], ys);
      assert (xs + ys)[1..] == xs[1..] + ys && (xs + ys)[0] == xs[0];
    }
  }

  lemma {:induction false} RedirsAdd(xs: seq<Item>, ys: seq<Item>)
    ensures RedirsOf(xs + ys) == RedirsOf(xs) + RedirsOf(ys)
  {
    if xs == [] {
      assert xs + ys == ys && RedirsOf(xs) == [];
    } else {
      RedirsAdd(xs[1..], ys);
      assert (xs + ys)[1..] == xs[1..] + ys && (xs + ys)[0] == xs[0];
    }
  }

  function Backs(c: Cmd, n: nat): Cmd {
    if n == 0 then c else BackCmd(Backs(c, n - 1))
  }

  function OfExec(e: Exec): Cmd {
    match e
    case Simple(xs) => Wrap(ExecCmd(Args(xs)), RedirsOf(xs))
    case Block(l, rs) => Wrap(OfLine(l), rs)
  }

  function OfPipe(p: Pipeline): Cmd {
    match p
    case One(e) => OfExec(e)
    case Piped(e, r) => PipeCmd(OfExec(e), OfPipe(r))
  }

  function OfLine(l: Line): Cmd {
    match l
    case Only(p, n) => Backs(OfPipe(p), n)
    case Then(p, n, r) => ListCmd(Backs(OfPipe(p), n), OfLine(r))
  }

  /** The strings a command refers to. */
  function Spans(c: Cmd): set<Span> {
    match c
    case ExecCmd(argv) => set k | 0 <= k < |argv| :: argv[k]
    case RedirCmd(d, f, _, _) => Spans(d) + {f}
    case PipeCmd(a, b) => Spans(a) + Spans(b)
    case ListCmd(a, b) => Spans(a) + Spans(b)
    case BackCmd(d) => Spans(d)
  }

  /** The words of a token list. */
  function Words(ts: seq<Tok>): set<Span> {
    set k | 0 <= k < |ts| && ts[k].Word? :: Span(ts[k].q, ts[k].eq)
  }

  lemma WordsAdd(a: seq<Tok>, b: seq<Tok>)
    ensures Words(a + b) == Words(a) + Words(b)
  {
    forall w ensures w in Words(a + b) <==> w in Words(a) + Words(b) {
      if w in Words(a) {
        var k :| 0 <= k < |a| && a[k].Word? && Span(a[k].q, a[k].eq) == w;
        assert (a + b)[k] == a[k];
      }
      if w in Words(b) {
        var k :| 0 <= k < |b| && b[k].Word? && Span(b[k].q, b[k].eq) == w;
        assert (a + b)[|a| + k] == b[k];
      }
    }
  }

  lemma {:induction false} WrapSpans(c: Cmd, rs: seq<Redir>)
    ensures Spans(Wrap(c, rs)) == Spans(c) + Words(PrintRedirs(rs))
    decreases |rs|
  {
    if rs != [] {
      WrapSpans(WithRedir(c, rs[0]), rs[1..]);
      WordsAdd(PrintRedir(rs[0]), PrintRedirs(rs[1..]));
      RedirWords(rs[0]);
    }
  }

  lemma RedirWords(r: Redir)
    ensures Words(PrintRedir(r)) == {Span(r.q, r.eq)}
  {
    assert PrintRedir(r)[1] == Word(r.q, r.eq);
  }

  lemma {:induction false} ItemSpans(xs: seq<Item>)
    ensures Words(PrintItems(xs)) == Spans(ExecCmd(Args(xs))) + Words(PrintRedirs(RedirsOf(xs)))
  {
    if xs != [] {
      ItemSpans(xs[1..]);
      WordsAdd(PrintItem(xs[0]), PrintItems(xs[1..]));
      if xs[0].Arg? {
        ArgSpans(Span(xs[0].q, xs[0].eq), Args(xs[1..]));
        assert PrintItem(xs[0])[0] == Word(xs[0].q, xs[0].eq);
        assert RedirsOf(xs) == RedirsOf(xs[1..]);
      } else {
        RedirWords(xs[0].r);
        RedirsCons(xs[0].r, RedirsOf(xs[1..]));
        WordsAdd(PrintRedir(xs[0].r), PrintRedirs(RedirsOf(xs[1..])));
        assert Args(xs) == Args(xs[1..]);
      }
    }
  }

  lemma ArgSpans(s: Span, rest: seq<Span>)
    ensures Spans(ExecCmd([s] + rest)) == {s} + Spans(ExecCmd(rest))
  {
    var a := [s] + rest;
    assert a[0] == s;
    assert forall k :: 0 <= k < |rest| ==> a[k + 1] == rest[k];
  }

  lemma {:induction false} BackSpans(c: Cmd, n: nat)
    ensures Spans(Backs(c, n)) == Spans(c) && Words(Amps(n)) == {}
  {
    if n > 0 { BackSpans(c, n - 1); }
  }

  lemma {:induction false} AmpsTail(n: nat)
    requires n > 0
    ensures Amps(n) == Amps(n - 1) + [Sym('&')]
  {
    if n > 1 { AmpsTail(n - 1); }
  }

  lemma {:induction false} ExecSpans(e: Exec)
    ensures Spans(OfExec(e)) == Words(PrintExec(e))
    decreases e
  {
    match e
    case Simple(xs) =>
      ItemSpans(xs);
      WrapSpans(ExecCmd(Args(xs)), RedirsOf(xs));
    case Block(l, rs) =>
      LineSpans(l);
      WrapSpans(OfLine(l), rs);
      WordsAdd([Sym('(')], PrintLine(l));
      WordsAdd([Sym('(')] + PrintLine(l), [Sym(')')]);
      WordsAdd([Sym('(')] + PrintLine(l) + [Sym(')')], PrintRedirs(rs));
  }

  lemma {:induction false} PipeSpans(p: Pipeline)
    ensures Spans(OfPipe(p)) == Words(PrintPipe(p))
    decreases p
  {
    ExecSpans(p.e);
    if p.Piped? {
      PipeSpans(p.p);
      WordsAdd(PrintExec(p.e), [Sym('|')]);
      WordsAdd(PrintExec(p.e) + [Sym('|')], PrintPipe(p.p));
    }
  }

  /** A command refers to exactly the words it was written with. */
  lemma {:induction false} LineSpans(l: Line)
    ensures Spans(OfLine(l)) == Words(PrintLine(l))
    decreases l
  {
    PipeSpans(l.p);
    BackSpans(OfPipe(l.p), l.amps);
    WordsAdd(PrintPipe(l.p), Amps(l.amps));
    if l.Then? {
      LineSpans(l.l);
      WordsAdd(PrintPipe(l.p) + Amps(l.amps), [Sym(';')]);
      WordsAdd(PrintPipe(l.p) + Amps(l.amps) + [Sym(';')], PrintLine(l.l));
    }
  }

  // ---------------------------------------------------------------- terminators

  function Ends(c: Cmd): set<nat> {
    set s | s in Spans(c) :: s.eq
  }

  /** The C string at q. */
  function CString(b: seq<char>, q: nat): seq<char>
    decreases |b| - q
  {
    if q < |b| && b[q] != NUL then [b[q]] + CString(b, q + 1) else []
  }

  lemma {:induction false} CStringIs(b: seq<char>, q: nat, eq: nat)
    requires q <= eq < |b| && b[eq] == NUL && forall k :: q <= k < eq ==> b[k] != NUL
    ensures CString(b, q) == b[q..eq]
    decreases eq - q
  {
    if q < eq {
      CStringIs(b, q + 1, eq);
      assert b[q..eq] == [b[q]] + b[q + 1..eq];
    }
  }

  /** Putting terminators at the ends of words leaves every word whole: no end lies inside a word. */
  lemma TerminatedWords(line: string, b: seq<char>, ends: set<nat>, q: nat, eq: nat)
    requires |b| == |line| + 1 && WordAt(line, q, eq) && eq in ends
    requires forall e :: e in ends ==> e <= |line| && (e < |line| ==> !WordChar(line[e]))
    requires forall k :: 0 <= k <= |line| ==> b[k] == if k in ends || k == |line| then NUL else line[k]
    ensures CString(b, q) == line[q..eq]
  {
    forall k | q <= k < eq ensures b[k] == line[k] && b[k] != NUL { assert WordChar(line[k]); }
    CStringIs(b, q, eq);
    assert b[q..eq] == line[q..eq];
  }

  // ---------------------------------------------------------------- >> is >

  function PlainTok(t: Tok): Tok {
    if t == Sym('+') then Sym('>') else t
  }

  /** The tokens with every >> made a >. */
  function PlainToks(ts: seq<Tok>): (r: seq<Tok>)
    ensures |r| == |ts|
  {
    seq(|ts|, k requires 0 <= k < |ts| => PlainTok(ts[k]))
  }

  function PlainRedir(r: Redir): Redir {
    if r.op == '+' then r.(op := '>') else r
  }

  function PlainRedirs(rs: seq<Redir>): seq<Redir> {
    if rs == [] then [] else [PlainRedir(rs[0])] + PlainRedirs(rs[1..])
  }

  function PlainItems(xs: seq<Item>): seq<Item> {
    if xs == [] then []
    else [if xs[0].Into? then Into(PlainRedir(xs[0].r)) else xs[0]] + PlainItems(xs[1..])
  }

  function PlainExec(e: Exec): Exec {
    match e
    case Simple(xs) => Simple(PlainItems(xs))
    case Block(l, rs) => Block(PlainLine(l), PlainRedirs(rs))
  }

  function PlainPipe(p: Pipeline): Pipeline {
    match p
    case One(e) => One(PlainExec(e))
    case Piped(e, r) => Piped(PlainExec(e), PlainPipe(r))
  }

  function PlainLine(l: Line): Line {
    match l
    case Only(p, n) => Only(PlainPipe(p), n)
    case Then(p, n, r) => Then(PlainPipe(p), n, PlainLine(r))
  }

  lemma PlainAdd(a: seq<Tok>, b: seq<Tok>)
    ensures PlainToks(a + b) == PlainToks(a) + PlainToks(b)
  {
  }

  lemma {:induction false} RedirsPlain(c: Cmd, rs: seq<Redir>)
    ensures Wrap(c, PlainRedirs(rs)) == Wrap(c, rs) && PlainToks(PrintRedirs(rs)) == PrintRedirs(PlainRedirs(rs))
    decreases |rs|
  {
    if rs != [] {
      RedirsPlain(WithRedir(c, rs[0]), rs[1..]);
      PlainAdd(PrintRedir(rs[0]), PrintRedirs(rs[1..]));
      assert PlainToks(PrintRedir(rs[0])) == PrintRedir(PlainRedir(rs[0]));
    }
  }

  lemma {:induction false} ItemsPlain(xs: seq<Item>)
    ensures Args(PlainItems(xs)) == Args(xs) && RedirsOf(PlainItems(xs)) == PlainRedirs(RedirsOf(xs))
    ensures PlainToks(PrintItems(xs)) == PrintItems(PlainItems(xs))
  {
    if xs != [] {
      ItemsPlain(xs[1..]);
      PlainAdd(PrintItem(xs[0]), PrintItems(xs[1..]));
      assert PlainToks(PrintItem(xs[0])) == PrintItem(PlainItems(xs)[0]);
    }
  }

  lemma {:induction false} AmpsPlain(n: nat)
    ensures PlainToks(Amps(n)) == Amps(n)
  {
    if n > 0 {
      AmpsPlain(n - 1);
      PlainAdd([Sym('&')], Amps(n - 1));
    }
  }

  lemma {:induction false} ExecPlain(e: Exec)
    ensures OfExec(PlainExec(e)) == OfExec(e) && PlainToks(PrintExec(e)) == PrintExec(PlainExec(e))
    decreases e, 0
  {
    match e
    case Simple(xs) =>
      ItemsPlain(xs);
      RedirsPlain(ExecCmd(Args(xs)), RedirsOf(xs));
    case Block(l, rs) =>
      LinePlain(l);
      RedirsPlain(OfLine(l), rs);
      PlainAdd([Sym('(')], PrintLine(l));
      PlainAdd([Sym('(')] + PrintLine(l), [Sym(')')]);
      PlainAdd([Sym('(')] + PrintLine(l) + [Sym(')')], PrintRedirs(rs));
  }

  lemma {:induction false} PipePlain(p: Pipeline)
    ensures OfPipe(PlainPipe(p)) == OfPipe(p) && PlainToks(PrintPipe(p)) == PrintPipe(PlainPipe(p))
    decreases p, 1
  {
    match p
    case One(e) => ExecPlain(e);
    case Piped(e, r) =>
      ExecPlain(e);
      PipePlain(r);
      PlainAdd(PrintExec(e), [Sym('|')]);
      PlainAdd(PrintExec(e) + [Sym('|')], PrintPipe(r));
  }

  /** A line and the line with > for every >> are commands to open the same files in the same way. */
  lemma {:induction false} LinePlain(l: Line)
    ensures OfLine(PlainLine(l)) == OfLine(l) && PlainToks(PrintLine(l)) == PrintLine(PlainLine(l))
    decreases l, 2
  {
    match l
    case Only(p, n) =>
      PipePlain(p);
      AmpsPlain(n);
      PlainAdd(PrintPipe(p), Amps(n));
    case Then(p, n, r) =>
      PipePlain(p);
      AmpsPlain(n);
      LinePlain(r);
      PlainAdd(PrintPipe(p), Amps(n));
      PlainAdd(PrintPipe(p) + Amps(n), [Sym(';')]);
      PlainAdd(PrintPipe(p) + Amps(n) + [Sym(';')], PrintLine(r));
  }
}
