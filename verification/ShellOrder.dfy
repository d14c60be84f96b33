/**
 What a line's command has to do with the order in which the line was written: which
 string comes before which, with which symbol in between, and how many symbols of a
 kind there are. None of it refers to syntax trees.
 */
module ShellOrder {
  import opened ShellGrammar
  import opened ShellText

  // ---------------------------------------------------------------- commands and the text

  /** The character ch stands behind all strings of l and before all strings of r. */
  ghost predicate Parted(line: string, l: Cmd, r: Cmd, ch: char) {
    exists k: nat :: k < |line| && line[k] == ch && Behind(l, k) && (forall w :: w in Spans(r) ==> k < w.q)
  }

  ghost predicate Behind(c: Cmd, k: nat) {
    forall w :: w in Spans(c) ==> w.eq <= k
  }

  /** A redirection operator at k, of one character or two, with the word at q next. */
  ghost predicate Redirects(line: string, k: nat, q: nat) {
    && k < q <= |line| && (line[k] == '<' || line[k] == '>')
    && forall j :: k < j < q ==> Space(line[j]) || (j == k + 1 && line[k] == '>' && line[j] == '>')
  }

  /** `<` opens its file for reading as descriptor 0, `>` and `>>` for writing and creating as descriptor 1. */
  ghost predicate Opened(line: string, file: Span, mode: nat, fd: nat) {
    exists k: nat ::
      Redirects(line, k, file.q) && if line[k] == '<' then mode == 0 && fd == 0 else mode == 0x201 && fd == 1
  }

  ghost predicate Increasing(argv: seq<Span>) {
    forall j, k :: 0 <= j < k < |argv| ==> argv[j].eq <= argv[k].q
  }

  /**
   Left comes before right with | or ; in between; & comes behind the command it puts in the
   background; arguments are in order; files are opened as their operator says, and of two
   redirections around a command the one written first is inside.
   */
  ghost predicate InOrder(line: string, c: Cmd) {
    match c
    case ExecCmd(argv) => Increasing(argv)
    case RedirCmd(d, f, mode, fd) =>
      InOrder(line, d) && Opened(line, f, mode, fd) && (d.RedirCmd? ==> d.file.eq <= f.q)
    case PipeCmd(l, r) => InOrder(line, l) && InOrder(line, r) && Parted(line, l, r, '|')
    case ListCmd(l, r) => InOrder(line, l) && InOrder(line, r) && Parted(line, l, r, ';')
    case BackCmd(d) => InOrder(line, d) && exists k: nat :: k < |line| && line[k] == '&' && Behind(d, k)
  }

  /** How many parts of c are of the kind that the symbol makes. */
  function Made(c: Cmd, ch: char): nat {
    match c
    case ExecCmd(_) => 0
    case RedirCmd(d, _, _, fd) => Made(d, ch) + if ch == (if fd == 0 then '<' else '>') then 1 else 0
    case PipeCmd(l, r) => Made(l, ch) + Made(r, ch) + if ch == '|' then 1 else 0
    case ListCmd(l, r) => Made(l, ch) + Made(r, ch) + if ch == ';' then 1 else 0
    case BackCmd(d) => Made(d, ch) + if ch == '&' then 1 else 0
  }

  function Occurs(line: string, s: nat, ch: char): nat
    requires s <= |line|
    decreases |line| - s
  {
    if s == |line| then 0 else (if line[s] == ch then 1 else 0) + Occurs(line, s + 1, ch)
  }

  // ---------------------------------------------------------------- where the tokens are

  /** Where the tokens of Lex begin. */
  function Places(line: string, s: nat): (ps: seq<nat>)
    requires s <= |line| && NoNul(line)
    ensures |ps| == |Lex(line, s)|
    decreases |line| - s
  {
    var k := Skip(line, s);
    if k == |line| then [] else [k] + Places(line, TokenAt(line, k).1)
  }

  /** Spaces only, from e to the next token or the end of the line. */
  ghost predicate Gap(line: string, e: nat, next: nat) {
    e <= next <= |line| && forall j :: e <= j < next ==> Space(line[j])
  }

  ghost predicate Placed(line: string, ts: seq<Tok>, ps: seq<nat>, i: nat) {
    i < |ts| == |ps| ==>
      && ps[i] < |line| && line[ps[i]] != NUL && !Space(line[ps[i]]) && TokenAt(line, ps[i]).0 == ts[i]
      && Gap(line, TokenAt(line, ps[i]).1, if i + 1 < |ps| then ps[i + 1] else |line|)
  }

  lemma {:induction false} SkipIs(line: string, s: nat)
    requires s <= |line|
    ensures Gap(line, s, Skip(line, s))
    decreases |line| - s
  {
    if s < |line| && Space(line[s]) { SkipIs(line, s + 1); }
  }

  lemma {:induction false} PlacesOk(line: string, s: nat, i: nat)
    requires s <= |line| && NoNul(line)
    ensures Placed(line, Lex(line, s), Places(line, s), i)
    ensures Places(line, s) != [] ==> Gap(line, s, Places(line, s)[0])
    ensures Places(line, s) == [] ==> Gap(line, s, |line|)
    decreases |line| - s
  {
    SkipIs(line, s);
    var k := Skip(line, s);
    if k < |line| { PlacesOk(line, TokenAt(line, k).1, if i > 0 then i - 1 else 0); }
  }

  /** The tokens ts of the line, and the places where they begin. */
  ghost predicate Laid(line: string, ts: seq<Tok>, ps: seq<nat>) {
    |ts| == |ps| && forall i: nat :: Placed(line, ts, ps, i)
  }

  lemma {:induction false} PlacesGrow(line: string, ts: seq<Tok>, ps: seq<nat>, i: nat, j: nat)
    requires Laid(line, ts, ps) && i < j < |ts|
    ensures Placed(line, ts, ps, i) && Placed(line, ts, ps, j) && TokenAt(line, ps[i]).1 <= ps[j]
  {
    assert Placed(line, ts, ps, i) && Placed(line, ts, ps, j);
    if i + 1 < j {
      PlacesGrow(line, ts, ps, i, j - 1);
      assert Placed(line, ts, ps, j - 1);
    }
  }

  ghost predicate Segment(ts: seq<Tok>, at: nat, xs: seq<Tok>) {
    at + |xs| <= |ts| && ts[at..at + |xs|] == xs
  }

  lemma Split(ts: seq<Tok>, at: nat, a: seq<Tok>, b: seq<Tok>)
    requires Segment(ts, at, a + b)
    ensures Segment(ts, at, a) && Segment(ts, at + |a|, b)
  {
    var xs := ts[at..at + |a + b|];
    assert a == xs[..|a|] && b == xs[|a|..];
  }

  lemma Split3(ts: seq<Tok>, at: nat, a: seq<Tok>, t: Tok, b: seq<Tok>)
    requires Segment(ts, at, a + [t] + b)
    ensures Segment(ts, at, a) && at + |a| < |ts| && ts[at + |a|] == t && Segment(ts, at + |a| + 1, b)
  {
    Split(ts, at, a + [t], b);
    Split(ts, at, a, [t]);
  }

  /** A word of a segment begins and ends where one of the segment's tokens does. */
  lemma WordPlace(line: string, ts: seq<Tok>, ps: seq<nat>, at: nat, xs: seq<Tok>, w: Span) returns (i: nat)
    requires Laid(line, ts, ps) && Segment(ts, at, xs) && w in Words(xs)
    ensures at <= i < at + |xs| && ps[i] == w.q && Placed(line, ts, ps, i) && TokenAt(line, ps[i]).1 == w.eq
  {
    var k: nat :| k < |xs| && xs[k].Word? && Span(xs[k].q, xs[k].eq) == w;
    i := at + k;
    assert ts[i] == ts[at..at + |xs|][k];
    assert Placed(line, ts, ps, i);
  }

  /** The words of a segment end before a later token begins, and begin after an earlier one has ended. */
  lemma WordsAround(line: string, ts: seq<Tok>, ps: seq<nat>, at: nat, xs: seq<Tok>, w: Span, i: nat)
    requires Laid(line, ts, ps) && Segment(ts, at, xs) && w in Words(xs) && i < |ts|
    ensures at + |xs| <= i ==> w.eq <= ps[i]
    ensures i < at ==> Placed(line, ts, ps, i) && TokenAt(line, ps[i]).1 <= w.q
  {
    var k := WordPlace(line, ts, ps, at, xs, w);
    if k < i { PlacesGrow(line, ts, ps, k, i); } else if i < at { PlacesGrow(line, ts, ps, i, k); }
  }

  lemma PartedBy(line: string, ts: seq<Tok>, ps: seq<nat>, at: nat, a: seq<Tok>, b: seq<Tok>, l: Cmd, r: Cmd, ch: char)
    requires Laid(line, ts, ps) && Segment(ts, at, a + [Sym(ch)] + b) && ch != '+'
    requires Spans(l) == Words(a) && Spans(r) == Words(b)
    ensures Parted(line, l, r, ch)
  {
    Split3(ts, at, a, Sym(ch), b);
    var i := at + |a|;
    assert Placed(line, ts, ps, i);
    forall w | w in Spans(l) ensures w.eq <= ps[i] { WordsAround(line, ts, ps, at, a, w, i); }
    forall w | w in Spans(r) ensures ps[i] < w.q { WordsAround(line, ts, ps, i + 1, b, w, i); }
    assert Behind(l, ps[i]);
  }

  lemma BackedBy(line: string, ts: seq<Tok>, ps: seq<nat>, at: nat, a: seq<Tok>, i: nat, c: Cmd)
    requires Laid(line, ts, ps) && Segment(ts, at, a) && at + |a| <= i < |ts| && ts[i] == Sym('&')
    requires Spans(c) == Words(a)
    ensures exists k: nat :: k < |line| && line[k] == '&' && Behind(c, k)
  {
    assert Placed(line, ts, ps, i);
    forall w | w in Spans(c) ensures w.eq <= ps[i] { WordsAround(line, ts, ps, at, a, w, i); }
    assert Behind(c, ps[i]);
  }

  // ---------------------------------------------------------------- redirections

  /** r's file is opened as WithRedir says because of the operator in front of it. */
  ghost predicate RedirAt(line: string, r: Redir) {
    exists k: nat :: Redirects(line, k, r.q) && (line[k] == '<' <==> r.op == '<')
  }

  lemma RedirPlace(line: string, ts: seq<Tok>, ps: seq<nat>, at: nat, r: Redir)
    requires Laid(line, ts, ps) && Segment(ts, at, PrintRedir(r)) && RedirOp(r.op)
    ensures RedirAt(line, r)
  {
    assert ts[at] == ts[at..at + 2][0] && ts[at + 1] == ts[at..at + 2][1];
    assert Placed(line, ts, ps, at) && Placed(line, ts, ps, at + 1);
    assert Redirects(line, ps[at], r.q);
  }

  ghost predicate RedirsIn(line: string, rs: seq<Redir>) {
    && (forall k :: 0 <= k < |rs| ==> RedirAt(line, rs[k]))
    && forall j, k :: 0 <= j < k < |rs| ==> rs[j].eq <= rs[k].q
  }

  lemma RedirsInCons(line: string, r: Redir, rs: seq<Redir>)
    requires RedirAt(line, r) && RedirsIn(line, rs) && forall k :: 0 <= k < |rs| ==> r.eq <= rs[k].q
    ensures RedirsIn(line, [r] + rs)
  {
    var v := [r] + rs;
    forall k | 0 <= k < |v| ensures RedirAt(line, v[k]) {}
  }

  lemma {:induction false} WrapInOrder(line: string, c: Cmd, rs: seq<Redir>)
    requires InOrder(line, c) && RedirsIn(line, rs)
    requires c.RedirCmd? ==> forall k :: 0 <= k < |rs| ==> c.file.eq <= rs[k].q
    ensures InOrder(line, Wrap(c, rs))
    decreases |rs|
  {
    if rs != [] {
      assert RedirAt(line, rs[0]);
      var k: nat :| Redirects(line, k, rs[0].q) && (line[k] == '<' <==> rs[0].op == '<');
      var d := WithRedir(c, rs[0]);
      assert Opened(line, d.file, d.mode, d.fd);
      assert forall j :: 0 <= j < |rs[1..]| ==> rs[1..][j] == rs[j + 1];
      WrapInOrder(line, d, rs[1..]);
    }
  }

  lemma RedirsWords(rs: seq<Redir>, k: nat)
    requires k < |rs|
    ensures Span(rs[k].q, rs[k].eq) in Words(PrintRedirs(rs))
    decreases |rs|
  {
    WordsAdd(PrintRedir(rs[0]), PrintRedirs(rs[1..]));
    RedirWords(rs[0]);
    if k > 0 { RedirsWords(rs[1..], k - 1); }
  }

  lemma {:induction false} RedirsLaid(line: string, ts: seq<Tok>, ps: seq<nat>, at: nat, rs: seq<Redir>)
    requires Laid(line, ts, ps) && Segment(ts, at, PrintRedirs(rs)) && RedirsOk(rs)
    ensures RedirsIn(line, rs)
    decreases |rs|
  {
    if rs != [] {
      Split(ts, at, PrintRedir(rs[0]), PrintRedirs(rs[1..]));
      RedirPlace(line, ts, ps, at, rs[0]);
      RedirsLaid(line, ts, ps, at + 2, rs[1..]);
      FirstEnds(line, ts, ps, at, rs[0]);
      forall k | 0 <= k < |rs[1..]| ensures rs[0].eq <= rs[1..][k].q {
        RedirsWords(rs[1..], k);
        WordsAround(line, ts, ps, at + 2, PrintRedirs(rs[1..]), Span(rs[1..][k].q, rs[1..][k].eq), at + 1);
      }
      RedirsInCons(line, rs[0], rs[1..]);
      assert rs == [rs[0]] + rs[1..];
    }
  }

  lemma FirstEnds(line: string, ts: seq<Tok>, ps: seq<nat>, at: nat, r: Redir)
    requires Laid(line, ts, ps) && Segment(ts, at, PrintRedir(r))
    ensures at + 1 < |ts| && Placed(line, ts, ps, at + 1) && ts[at + 1] == Word(r.q, r.eq)
    ensures TokenAt(line, ps[at + 1]).1 == r.eq && ps[at + 1] == r.q
  {
    assert ts[at + 1] == ts[at..at + 2][1];
    assert Placed(line, ts, ps, at + 1);
  }

  // ---------------------------------------------------------------- simple commands

  lemma {:induction false} ItemWords(xs: seq<Item>)
    ensures forall k :: 0 <= k < |Args(xs)| ==> Args(xs)[k] in Words(PrintItems(xs))
    ensures forall k :: 0 <= k < |RedirsOf(xs)| ==>
              Span(RedirsOf(xs)[k].q, RedirsOf(xs)[k].eq) in Words(PrintItems(xs))
  {
    ItemSpans(xs);
    var argv, rs := Args(xs), RedirsOf(xs);
    forall k | 0 <= k < |argv| ensures argv[k] in Words(PrintItems(xs)) { assert argv[k] in Spans(ExecCmd(argv)); }
    forall k | 0 <= k < |rs| ensures Span(rs[k].q, rs[k].eq) in Words(PrintItems(xs)) { RedirsWords(rs, k); }
  }

  lemma {:induction false} ItemsLaid(line: string, ts: seq<Tok>, ps: seq<nat>, at: nat, xs: seq<Item>)
    requires Laid(line, ts, ps) && Segment(ts, at, PrintItems(xs)) && ItemsOk(xs)
    ensures Increasing(Args(xs)) && RedirsIn(line, RedirsOf(xs))
    decreases |xs|
  {
    if xs != [] {
      var x, ys := xs[0], xs[1..];
      Split(ts, at, PrintItem(x), PrintItems(ys));
      ItemsLaid(line, ts, ps, at + |PrintItem(x)|, ys);
      ItemWords(ys);
      if x.Arg? {
        ArgBefore(line, ts, ps, at, x, ys);
      } else {
        IntoBefore(line, ts, ps, at, x.r, ys);
      }
    }
  }

  lemma ArgBefore(line: string, ts: seq<Tok>, ps: seq<nat>, at: nat, x: Item, ys: seq<Item>)
    requires Laid(line, ts, ps) && x.Arg? && Segment(ts, at, PrintItem(x)) && Segment(ts, at + 1, PrintItems(ys))
    requires Increasing(Args(ys))
    ensures Increasing([Span(x.q, x.eq)] + Args(ys))
  {
    ItemWords(ys);
    assert ts[at] == ts[at..at + 1][0];
    assert Placed(line, ts, ps, at);
    var argv := [Span(x.q, x.eq)] + Args(ys);
    forall j, k | 0 <= j < k < |argv| ensures argv[j].eq <= argv[k].q {
      if j == 0 { WordsAround(line, ts, ps, at + 1, PrintItems(ys), Args(ys)[k - 1], at); }
    }
  }

  lemma IntoBefore(line: string, ts: seq<Tok>, ps: seq<nat>, at: nat, r: Redir, ys: seq<Item>)
    requires Laid(line, ts, ps) && Segment(ts, at, PrintRedir(r)) && Segment(ts, at + 2, PrintItems(ys))
    requires RedirOp(r.op) && RedirsIn(line, RedirsOf(ys))
    ensures RedirsIn(line, [r] + RedirsOf(ys))
  {
    ItemWords(ys);
    RedirPlace(line, ts, ps, at, r);
    FirstEnds(line, ts, ps, at, r);
    var rs := RedirsOf(ys);
    forall k | 0 <= k < |rs| ensures r.eq <= rs[k].q {
      WordsAround(line, ts, ps, at + 2, PrintItems(ys), Span(rs[k].q, rs[k].eq), at + 1);
    }
    RedirsInCons(line, r, rs);
  }

  // ---------------------------------------------------------------- whole lines

  lemma {:induction false} ExecInOrder(line: string, ts: seq<Tok>, ps: seq<nat>, at: nat, e: Exec)
    requires Laid(line, ts, ps) && Segment(ts, at, PrintExec(e)) && ExecOk(e)
    ensures InOrder(line, OfExec(e))
    decreases e
  {
    match e
    case Simple(xs) =>
      ItemsLaid(line, ts, ps, at, xs);
      WrapInOrder(line, ExecCmd(Args(xs)), RedirsOf(xs));
    case Block(l, rs) =>
      var a := [Sym('(')] + PrintLine(l) + [Sym(')')];
      Split(ts, at, a, PrintRedirs(rs));
      Split(ts, at, [Sym('(')] + PrintLine(l), [Sym(')')]);
      Split(ts, at, [Sym('(')], PrintLine(l));
      LineInOrder(line, ts, ps, at + 1, l);
      RedirsLaid(line, ts, ps, at + |a|, rs);
      LineSpans(l);
      forall k | 0 <= k < |rs| && OfLine(l).RedirCmd? ensures OfLine(l).file.eq <= rs[k].q {
        RedirsWords(rs, k);
        var i := WordPlace(line, ts, ps, at + |a|, PrintRedirs(rs), Span(rs[k].q, rs[k].eq));
        WordsAround(line, ts, ps, at + 1, PrintLine(l), OfLine(l).file, i);
      }
      WrapInOrder(line, OfLine(l), rs);
  }

  lemma {:induction false} PipeInOrder(line: string, ts: seq<Tok>, ps: seq<nat>, at: nat, p: Pipeline)
    requires Laid(line, ts, ps) && Segment(ts, at, PrintPipe(p)) && PipeOk(p)
    ensures InOrder(line, OfPipe(p))
    decreases p
  {
    match p
    case One(e) => ExecInOrder(line, ts, ps, at, e);
    case Piped(e, r) =>
      Split3(ts, at, PrintExec(e), Sym('|'), PrintPipe(r));
      ExecInOrder(line, ts, ps, at, e);
      PipeInOrder(line, ts, ps, at + |PrintExec(e)| + 1, r);
      ExecSpans(e);
      PipeSpans(r);
      PartedBy(line, ts, ps, at, PrintExec(e), PrintPipe(r), OfExec(e), OfPipe(r), '|');
  }

  lemma {:induction false} BacksInOrder(line: string, ts: seq<Tok>, ps: seq<nat>, at: nat, a: seq<Tok>, c: Cmd, n: nat)
    requires Laid(line, ts, ps) && Segment(ts, at, a + Amps(n)) && Spans(c) == Words(a) && InOrder(line, c)
    ensures InOrder(line, Backs(c, n))
  {
    if n > 0 {
      AmpsTail(n);
      assert a + Amps(n) == a + Amps(n - 1) + [Sym('&')];
      Split(ts, at, a + Amps(n - 1), [Sym('&')]);
      Split(ts, at, a, Amps(n - 1));
      BacksInOrder(line, ts, ps, at, a, c, n - 1);
      BackSpans(c, n - 1);
      var i := at + |a + Amps(n - 1)|;
      assert ts[i] == ts[i..i + 1][0];
      BackedBy(line, ts, ps, at, a, i, Backs(c, n - 1));
    }
  }

  lemma {:induction false} LineInOrder(line: string, ts: seq<Tok>, ps: seq<nat>, at: nat, l: Line)
    requires Laid(line, ts, ps) && Segment(ts, at, PrintLine(l)) && LineOk(l)
    ensures InOrder(line, OfLine(l))
    decreases l
  {
    var a := PrintPipe(l.p) + Amps(l.amps);
    if l.Then? { Split3(ts, at, a, Sym(';'), PrintLine(l.l)); }
    Split(ts, at, PrintPipe(l.p), Amps(l.amps));
    PipeInOrder(line, ts, ps, at, l.p);
    PipeSpans(l.p);
    BacksInOrder(line, ts, ps, at, PrintPipe(l.p), OfPipe(l.p), l.amps);
    if l.Then? {
      LineInOrder(line, ts, ps, at + |a| + 1, l.l);
      LineSpans(l.l);
      BackSpans(OfPipe(l.p), l.amps);
      WordsAdd(PrintPipe(l.p), Amps(l.amps));
      PartedBy(line, ts, ps, at, a, PrintLine(l.l), Backs(OfPipe(l.p), l.amps), OfLine(l.l), ';');
    }
  }

  // ---------------------------------------------------------------- counting

  predicate Mark(t: Tok, ch: char) {
    t == Sym(ch) || (t == Sym('+') && ch == '>')
  }

  /** Tokens that are ch, >> being a kind of >. */
  function Marks(ts: seq<Tok>, ch: char): nat {
    if ts == [] then 0 else (if Mark(ts[0], ch) then 1 else 0) + Marks(ts[1..], ch)
  }

  lemma {:induction false} MarksAdd(a: seq<Tok>, b: seq<Tok>, ch: char)
    ensures Marks(a + b, ch) == Marks(a, ch) + Marks(b, ch)
  {
    if a == [] {
      assert a + b == b;
    } else {
      assert (a + b)[0] == a[0] && (a + b)[1..] == a[1..] + b;
      MarksAdd(a[1..], b, ch);
    }
  }

  lemma {:induction false} RedirsMarks(c: Cmd, rs: seq<Redir>, ch: char)
    requires RedirsOk(rs) && ch != '+'
    ensures Made(Wrap(c, rs), ch) == Made(c, ch) + Marks(PrintRedirs(rs), ch)
    decreases |rs|
  {
    if rs != [] {
      RedirsMarks(WithRedir(c, rs[0]), rs[1..], ch);
      MarksAdd(PrintRedir(rs[0]), PrintRedirs(rs[1..]), ch);
      RedirMark(rs[0], ch);
    }
  }

  lemma RedirMark(r: Redir, ch: char)
    ensures Marks(PrintRedir(r), ch) == if Mark(Sym(r.op), ch) then 1 else 0
  {
    assert PrintRedir(r)[1..] == [Word(r.q, r.eq)] && [Word(r.q, r.eq)][1..] == [];
    assert Marks([Word(r.q, r.eq)], ch) == 0;
  }

  lemma {:induction false} ItemsMarks(xs: seq<Item>, ch: char)
    requires ItemsOk(xs)
    ensures Marks(PrintItems(xs), ch) == Marks(PrintRedirs(RedirsOf(xs)), ch) && RedirsOk(RedirsOf(xs))
  {
    if xs != [] {
      ItemsMarks(xs[1..], ch);
      MarksAdd(PrintItem(xs[0]), PrintItems(xs[1..]), ch);
      if xs[0].Into? {
        RedirsCons(xs[0].r, RedirsOf(xs[1..]));
        MarksAdd(PrintRedir(xs[0].r), PrintRedirs(RedirsOf(xs[1..])), ch);
      } else {
        assert PrintItem(xs[0])[1..] == [];
      }
    }
  }

  lemma {:induction false} BacksMarks(c: Cmd, n: nat, ch: char)
    requires ch != '+'
    ensures Made(Backs(c, n), ch) == Made(c, ch) + Marks(Amps(n), ch)
  {
    if n > 0 {
      BacksMarks(c, n - 1, ch);
      assert Amps(n)[1..] == Amps(n - 1);
    }
  }

  lemma OneMark(t: char, ch: char)
    ensures Marks([Sym(t)], ch) == if Mark(Sym(t), ch) then 1 else 0
  {
    assert [Sym(t)][1..] == [];
  }

  predicate Maker(ch: char) {
    ch == '|' || ch == ';' || ch == '&' || ch == '<' || ch == '>'
  }

  lemma {:induction false} ExecMarks(e: Exec, ch: char)
    requires ExecOk(e) && Maker(ch)
    ensures Made(OfExec(e), ch) == Marks(PrintExec(e), ch)
    decreases e
  {
    match e
    case Simple(xs) =>
      ItemsMarks(xs, ch);
      RedirsMarks(ExecCmd(Args(xs)), RedirsOf(xs), ch);
    case Block(l, rs) =>
      LineMarks(l, ch);
      RedirsMarks(OfLine(l), rs, ch);
      OneMark('(', ch);
      OneMark(')', ch);
      MarksAdd([Sym('(')], PrintLine(l), ch);
      MarksAdd([Sym('(')] + PrintLine(l), [Sym(')')], ch);
      MarksAdd([Sym('(')] + PrintLine(l) + [Sym(')')], PrintRedirs(rs), ch);
  }

  lemma {:induction false} PipeMarks(p: Pipeline, ch: char)
    requires PipeOk(p) && Maker(ch)
    ensures Made(OfPipe(p), ch) == Marks(PrintPipe(p), ch)
    decreases p
  {
    ExecMarks(p.e, ch);
    if p.Piped? {
      PipeMarks(p.p, ch);
      OneMark('|', ch);
      MarksAdd(PrintExec(p.e), [Sym('|')], ch);
      MarksAdd(PrintExec(p.e) + [Sym('|')], PrintPipe(p.p), ch);
    }
  }

  lemma {:induction false} LineMarks(l: Line, ch: char)
    requires LineOk(l) && Maker(ch)
    ensures Made(OfLine(l), ch) == Marks(PrintLine(l), ch)
    decreases l
  {
    PipeMarks(l.p, ch);
    BacksMarks(OfPipe(l.p), l.amps, ch);
    MarksAdd(PrintPipe(l.p), Amps(l.amps), ch);
    if l.Then? {
      LineMarks(l.l, ch);
      OneMark(';', ch);
      MarksAdd(PrintPipe(l.p) + Amps(l.amps), [Sym(';')], ch);
      MarksAdd(PrintPipe(l.p) + Amps(l.amps) + [Sym(';')], PrintLine(l.l), ch);
    }
  }

  lemma {:induction false} OccursNot(line: string, a: nat, b: nat, ch: char)
    requires a <= b <= |line| && forall j :: a <= j < b ==> line[j] != ch
    ensures Occurs(line, a, ch) == Occurs(line, b, ch)
    decreases b - a
  {
    if a < b { OccursNot(line, a + 1, b, ch); }
  }

  lemma TokenMarks(line: string, k: nat, ch: char)
    requires k < |line| && line[k] != NUL && !Space(line[k]) && Maker(ch) && ch != '>'
    ensures var (t, e) := TokenAt(line, k); Occurs(line, k, ch) == (if Mark(t, ch) then 1 else 0) + Occurs(line, e, ch)
  {
    var (t, e) := TokenAt(line, k);
    WordEndIs(line, k + 1);
    assert line[k] == ch <==> Mark(t, ch);
    assert ch in SYMBOLS;
    assert forall j :: k < j < e ==> line[j] == '>' || WordChar(line[j]);
    OccursNot(line, k + 1, e, ch);
  }

  /** Of | ; & and < every character is a token of its own. */
  lemma {:induction false} LexMarks(line: string, s: nat, ch: char)
    requires NoNul(line) && s <= |line| && Maker(ch) && ch != '>'
    ensures Marks(Lex(line, s), ch) == Occurs(line, s, ch)
    decreases |line| - s
  {
    var k := Skip(line, s);
    SkipIs(line, s);
    assert !Space(ch);
    OccursNot(line, s, k, ch);
    if k < |line| {
      var (t, e) := TokenAt(line, k);
      LexMarks(line, e, ch);
      TokenMarks(line, k, ch);
      assert Lex(line, s)[1..] == Lex(line, e);
    }
  }

  // ---------------------------------------------------------------- > and >>

  /** A run of > begins at k. */
  predicate RunAt(line: string, k: nat) {
    k < |line| && line[k] == '>' && (k == 0 || line[k - 1] != '>')
  }

  /** How many runs of > there are from s on. */
  function Runs(line: string, s: nat): nat
    requires s <= |line|
    decreases |line| - s
  {
    if s == |line| then 0
    else (if RunAt(line, s) then 1 else 0) + Runs(line, s + 1)
  }

  /** Every operator has its file. */
  ghost predicate Filed(ts: seq<Tok>) {
    forall i :: 0 <= i < |ts| && ts[i].Sym? && RedirOp(ts[i].c) ==> i + 1 < |ts| && ts[i + 1].Word?
  }

  lemma FiledAdd(a: seq<Tok>, b: seq<Tok>)
    requires Filed(a) && Filed(b)
    ensures Filed(a + b)
  {
    var c := a + b;
    forall i | 0 <= i < |c| && c[i].Sym? && RedirOp(c[i].c) ensures i + 1 < |c| && c[i + 1].Word? {
      if i < |a| { assert a[i] == c[i] && a[i + 1] == c[i + 1]; } else { assert c[i] == b[i - |a|]; }
    }
  }

  lemma {:induction false} RedirsFiled(rs: seq<Redir>)
    ensures Filed(PrintRedirs(rs))
  {
    if rs != [] {
      RedirsFiled(rs[1..]);
      FiledAdd(PrintRedir(rs[0]), PrintRedirs(rs[1..]));
    }
  }

  lemma {:induction false} ItemsFiled(xs: seq<Item>)
    ensures Filed(PrintItems(xs))
  {
    if xs != [] {
      ItemsFiled(xs[1..]);
      FiledAdd(PrintItem(xs[0]), PrintItems(xs[1..]));
    }
  }

  lemma {:induction false} ExecFiled(e: Exec)
    ensures Filed(PrintExec(e))
    decreases e
  {
    match e
    case Simple(xs) => ItemsFiled(xs);
    case Block(l, rs) =>
      LineFiled(l);
      RedirsFiled(rs);
      FiledAdd([Sym('(')], PrintLine(l));
      FiledAdd([Sym('(')] + PrintLine(l), [Sym(')')]);
      FiledAdd([Sym('(')] + PrintLine(l) + [Sym(')')], PrintRedirs(rs));
  }

  lemma {:induction false} PipeFiled(p: Pipeline)
    ensures Filed(PrintPipe(p))
    decreases p
  {
    ExecFiled(p.e);
    if p.Piped? {
      PipeFiled(p.p);
      FiledAdd(PrintExec(p.e), [Sym('|')]);
      FiledAdd(PrintExec(p.e) + [Sym('|')], PrintPipe(p.p));
    }
  }

  lemma {:induction false} AmpsFiled(n: nat)
    ensures Filed(Amps(n))
  {
    if n > 0 {
      AmpsFiled(n - 1);
      FiledAdd([Sym('&')], Amps(n - 1));
    }
  }

  lemma {:induction false} LineFiled(l: Line)
    ensures Filed(PrintLine(l))
    decreases l
  {
    PipeFiled(l.p);
    AmpsFiled(l.amps);
    FiledAdd(PrintPipe(l.p), Amps(l.amps));
    if l.Then? {
      LineFiled(l.l);
      FiledAdd(PrintPipe(l.p) + Amps(l.amps), [Sym(';')]);
      FiledAdd(PrintPipe(l.p) + Amps(l.amps) + [Sym(';')], PrintLine(l.l));
    }
  }

  lemma {:induction false} RunsNot(line: string, a: nat, b: nat)
    requires a <= b <= |line| && forall j :: a <= j < b ==> !RunAt(line, j)
    ensures Runs(line, a) == Runs(line, b)
    decreases b - a
  {
    if a < b { RunsNot(line, a + 1, b); }
  }

  /** Not in the middle of a run. */
  ghost predicate Apart(line: string, s: nat) {
    0 < s < |line| && line[s] == '>' ==> line[s - 1] != '>'
  }

  lemma WordIsNot(c: char)
    requires WordChar(c)
    ensures c != '>'
  {
    assert SYMBOLS[2] == '>';
  }

  lemma TokenRuns(line: string, k: nat)
    requires k < |line| && line[k] != NUL && !Space(line[k]) && Apart(line, k)
    ensures var (t, e) := TokenAt(line, k); Runs(line, k) == (if Mark(t, '>') then 1 else 0) + Runs(line, e)
  {
    var (t, e) := TokenAt(line, k);
    WordEndIs(line, k + 1);
    forall j | k < j < e ensures !RunAt(line, j) {
      if line[k] != '>' { WordIsNot(line[j]); }
    }
    assert RunAt(line, k) <==> line[k] == '>';
    RunsNot(line, k + 1, e);
  }

  /** Where every operator has its file, a run of > is one operator, > or >>. */
  lemma {:induction false} LexRuns(line: string, s: nat)
    requires NoNul(line) && s <= |line| && Apart(line, s) && Filed(Lex(line, s))
    ensures Marks(Lex(line, s), '>') == Runs(line, s)
    decreases |line| - s
  {
    var k := Skip(line, s);
    SkipIs(line, s);
    assert !Space('>');
    RunsNot(line, s, k);
    if k < |line| {
      var (t, e) := TokenAt(line, k);
      var ts, us := Lex(line, s), Lex(line, e);
      assert ts[0] == t && ts[1..] == us;
      forall i | 0 <= i < |us| && us[i].Sym? && RedirOp(us[i].c) ensures i + 1 < |us| && us[i + 1].Word? {
        assert us[i] == ts[i + 1];
      }
      TokenRuns(line, k);
      OperatorEnds(line, s);
      LexRuns(line, e);
    }
  }

  lemma OperatorEnds(line: string, s: nat)
    requires NoNul(line) && s <= |line| && Skip(line, s) < |line| && Filed(Lex(line, s))
    ensures Apart(line, TokenAt(line, Skip(line, s)).1)
  {
    var k := Skip(line, s);
    var (t, e) := TokenAt(line, k);
    WordEndIs(line, k + 1);
    assert Lex(line, s)[0] == t;
    if e < |line| && line[e] == '>' {
      assert Skip(line, e) == e;
      assert Lex(line, s)[1] == Lex(line, e)[0] == TokenAt(line, e).0;
    }
  }

  // ---------------------------------------------------------------- the two together

  /** A command that is in order with the line, and made of as many parts as the line has symbols. */
  ghost predicate Follows(line: string, c: Cmd) {
    && NoNul(line) && InOrder(line, c)
    && (forall ch :: ch in "|;&<" ==> Made(c, ch) == Occurs(line, 0, ch))
    && Made(c, '>') == Runs(line, 0)
  }

  lemma LineFollows(line: string, l: Line)
    requires NoNul(line) && LineOk(l) && PrintLine(l) == Lex(line, 0)
    ensures Follows(line, OfLine(l))
  {
    var ts, ps := Lex(line, 0), Places(line, 0);
    forall i: nat ensures Placed(line, ts, ps, i) { PlacesOk(line, 0, i); }
    LineInOrder(line, ts, ps, 0, l);
    LineMarks(l, '>');
    LineFiled(l);
    LexRuns(line, 0);
    forall ch | ch in "|;&<" ensures Made(OfLine(l), ch) == Occurs(line, 0, ch) {
      LineMarks(l, ch);
      LexMarks(line, 0, ch);
    }
  }
}
