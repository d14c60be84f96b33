/** The command language of sh.c: tokens, syntax trees, a parser of token lists, and what trees stand for. */
module ShellGrammar {
  const MAXARGS := 10

  /** A symbol ('+' for >>), or a word and where it lies in the line. */
  datatype Tok = Sym(c: char) | Word(q: nat, eq: nat)

  datatype Redir = Redir(op: char, q: nat, eq: nat)

  datatype Item = Arg(q: nat, eq: nat) | Into(r: Redir)

  /** A simple command is arguments and redirections in any order; a block is a line in parentheses. */
  datatype Exec = Simple(items: seq<Item>) | Block(line: Line, redirs: seq<Redir>)

  datatype Pipeline = One(e: Exec) | Piped(e: Exec, p: Pipeline)

  datatype Line = Only(p: Pipeline, amps: nat) | Then(p: Pipeline, amps: nat, l: Line)

  // ---------------------------------------------------------------- the grammar, as printing

  predicate RedirOp(c: char) {
    c == '<' || c == '>' || c == '+'
  }

  function PrintRedir(r: Redir): seq<Tok> {
    [Sym(r.op), Word(r.q, r.eq)]
  }

  function PrintRedirs(rs: seq<Redir>): seq<Tok> {
    if rs == [] then [] else PrintRedir(rs[0]) + PrintRedirs(rs[1..])
  }

  function PrintItem(i: Item): seq<Tok> {
    if i.Arg? then [Word(i.q, i.eq)] else PrintRedir(i.r)
  }

  function PrintItems(xs: seq<Item>): seq<Tok> {
    if xs == [] then [] else PrintItem(xs[0]) + PrintItems(xs[1..])
  }

  function PrintExec(e: Exec): seq<Tok> {
    match e
    case Simple(xs) => PrintItems(xs)
    case Block(l, rs) => [Sym('(')] + PrintLine(l) + [Sym(')')] + PrintRedirs(rs)
  }

  function PrintPipe(p: Pipeline): seq<Tok> {
    match p
    case One(e) => PrintExec(e)
    case Piped(e, r) => PrintExec(e) + [Sym('|')] + PrintPipe(r)
  }

  function Amps(n: nat): seq<Tok> {
    if n == 0 then [] else [Sym('&')] + Amps(n - 1)
  }

  function PrintLine(l: Line): seq<Tok> {
    match l
    case Only(p, n) => PrintPipe(p) + Amps(n)
    case Then(p, n, r) => PrintPipe(p) + Amps(n) + [Sym(';')] + PrintLine(r)
  }

  // ---------------------------------------------------------------- which trees there are

  predicate RedirsOk(rs: seq<Redir>) {
    forall k :: 0 <= k < |rs| ==> RedirOp(rs[k].op)
  }

  function Argc(xs: seq<Item>): nat {
    if xs == [] then 0 else (if xs[0].Arg? then 1 else 0) + Argc(xs[1..])
  }

  predicate ItemsOk(xs: seq<Item>) {
    forall k :: 0 <= k < |xs| && xs[k].Into? ==> RedirOp(xs[k].r.op)
  }

  predicate ExecOk(e: Exec) {
    match e
    case Simple(xs) => ItemsOk(xs) && Argc(xs) < MAXARGS
    case Block(l, rs) => LineOk(l) && RedirsOk(rs)
  }

  predicate PipeOk(p: Pipeline) {
    match p
    case One(e) => ExecOk(e)
    case Piped(e, r) => ExecOk(e) && PipeOk(r)
  }

  predicate LineOk(l: Line) {
    match l
    case Only(p, _) => PipeOk(p)
    case Then(p, _, r) => PipeOk(p) && LineOk(r)
  }

  // ---------------------------------------------------------------- parsing token lists

  datatype Parsed<T> = Ok(v: T, rest: seq<Tok>) | Err

  predicate Starts(ts: seq<Tok>, c: char) {
    ts != [] && ts[0] == Sym(c)
  }

  predicate StartsRedir(ts: seq<Tok>) {
    ts != [] && ts[0].Sym? && RedirOp(ts[0].c)
  }

  /** What ends a simple command: nothing more, or one of |)&; */
  predicate AtStop(ts: seq<Tok>) {
    ts == [] || Starts(ts, '|') || Starts(ts, ')') || Starts(ts, '&') || Starts(ts, ';')
  }

  function ParseRedirs(ts: seq<Tok>): (r: Parsed<seq<Redir>>)
    ensures r.Ok? ==> |r.rest| <= |ts|
  {
    if !StartsRedir(ts) then Ok([], ts)
    else if |ts| < 2 || !ts[1].Word? then Err
    else
      match ParseRedirs(ts[2..])
      case Ok(rs, rest) => Ok([Redir(ts[0].c, ts[1].q, ts[1].eq)] + rs, rest)
      case Err => Err
  }

  function Prepend(i: Item, r: Parsed<seq<Item>>): Parsed<seq<Item>> {
    if r.Ok? then Ok([i] + r.v, r.rest) else Err
  }

  function ParseItems(ts: seq<Tok>, argc: nat): (r: Parsed<seq<Item>>)
    ensures r.Ok? ==> |r.rest| <= |ts|
  {
    if AtStop(ts) then Ok([], ts)
    else if StartsRedir(ts) then
      if |ts| < 2 || !ts[1].Word? then Err
      else Prepend(Into(Redir(ts[0].c, ts[1].q, ts[1].eq)), ParseItems(ts[2..], argc))
    else if !ts[0].Word? || argc + 1 >= MAXARGS then Err
    else Prepend(Arg(ts[0].q, ts[0].eq), ParseItems(ts[1..], argc + 1))
  }

  function ParseExec(ts: seq<Tok>): (r: Parsed<Exec>)
    ensures r.Ok? ==> |r.rest| <= |ts|
    decreases |ts|, 0
  {
    if !Starts(ts, '(') then
      match ParseItems(ts, 0)
      case Ok(xs, rest) => Ok(Simple(xs), rest)
      case Err => Err
    else
      match ParseLine(ts[1..])
      case Ok(l, r) =>
        if !Starts(r, ')') then Err
        else (match ParseRedirs(r[1..])
              case Ok(rs, rest) => Ok(Block(l, rs), rest)
              case Err => Err)
      case Err => Err
  }

  function ParsePipe(ts: seq<Tok>): (r: Parsed<Pipeline>)
    ensures r.Ok? ==> |r.rest| <= |ts|
    decreases |ts|, 1
  {
    match ParseExec(ts)
    case Ok(e, r) =>
      if !Starts(r, '|') then Ok(One(e), r)
      else (match ParsePipe(r[1..])
            case Ok(p, rest) => Ok(Piped(e, p), rest)
            case Err => Err)
    case Err => Err
  }

  /** Skip leading ampersands. */
  function CountAmps(ts: seq<Tok>): (r: (nat, seq<Tok>))
    ensures |r.1| <= |ts|
  {
    if !Starts(ts, '&') then (0, ts) else var r := CountAmps(ts[1..]); (r.0 + 1, r.1)
  }

  function ParseLine(ts: seq<Tok>): (r: Parsed<Line>)
    ensures r.Ok? ==> |r.rest| <= |ts|
    decreases |ts|, 2
  {
    match ParsePipe(ts)
    case Ok(p, r) =>
      var (n, s) := CountAmps(r);
      if !Starts(s, ';') then Ok(Only(p, n), s)
      else (match ParseLine(s[1..])
            case Ok(l, rest) => Ok(Then(p, n, l), rest)
            case Err => Err)
    case Err => Err
  }

  // ---------------------------------------------------------------- soundness

  lemma Join(a: seq<Tok>, b: seq<Tok>, c: seq<Tok>)
    ensures a + b + c == a + (b + c)
  {
  }

  lemma RedirsCons(r: Redir, v: seq<Redir>)
    ensures PrintRedirs([r] + v) == PrintRedir(r) + PrintRedirs(v)
    ensures RedirsOk([r] + v) <==> RedirOp(r.op) && RedirsOk(v)
  {
    assert ([r] + v)[1..] == v;
    assert RedirsOk([r] + v) ==> forall k :: 0 <= k < |v| ==> v[k] == ([r] + v)[k + 1];
  }

  lemma ItemsCons(i: Item, v: seq<Item>)
    ensures PrintItems([i] + v) == PrintItem(i) + PrintItems(v)
    ensures Argc([i] + v) == (if i.Arg? then 1 else 0) + Argc(v)
    ensures ItemsOk([i] + v) <==> (i.Into? ==> RedirOp(i.r.op)) && ItemsOk(v)
  {
    assert ([i] + v)[1..] == v;
    assert ItemsOk([i] + v) ==> forall k :: 0 <= k < |v| ==> v[k] == ([i] + v)[k + 1];
  }

  lemma {:induction false} RedirsSound(ts: seq<Tok>)
    requires ParseRedirs(ts).Ok?
    ensures var r := ParseRedirs(ts); ts == PrintRedirs(r.v) + r.rest && RedirsOk(r.v) && !StartsRedir(r.rest)
  {
    if StartsRedir(ts) {
      RedirsSound(ts[2..]);
      var r, i := ParseRedirs(ts[2..]), Redir(ts[0].c, ts[1].q, ts[1].eq);
      RedirsCons(i, r.v);
      Join(PrintRedir(i), PrintRedirs(r.v), r.rest);
      assert ts == PrintRedir(i) + ts[2..];
    }
  }

  lemma {:induction false} ItemsSound(ts: seq<Tok>, argc: nat)
    requires ParseItems(ts, argc).Ok? && argc < MAXARGS
    ensures var r := ParseItems(ts, argc);
            ts == PrintItems(r.v) + r.rest && ItemsOk(r.v) && argc + Argc(r.v) < MAXARGS && AtStop(r.rest)
  {
    if !AtStop(ts) {
      var i, n, m := HeadItem(ts), HeadLen(ts), if StartsRedir(ts) then argc else argc + 1;
      ItemsSound(ts[n..], m);
      var r := ParseItems(ts[n..], m);
      ItemsCons(i, r.v);
      Join(PrintItem(i), PrintItems(r.v), r.rest);
      assert ts == PrintItem(i) + ts[n..];
    }
  }

  /** The item ts begins with, and its length. */
  function HeadItem(ts: seq<Tok>): Item
    requires ts != [] && if StartsRedir(ts) then |ts| >= 2 && ts[1].Word? else ts[0].Word?
  {
    if StartsRedir(ts) then Into(Redir(ts[0].c, ts[1].q, ts[1].eq)) else Arg(ts[0].q, ts[0].eq)
  }

  function HeadLen(ts: seq<Tok>): nat {
    if StartsRedir(ts) then 2 else 1
  }

  lemma {:induction false} ExecSound(ts: seq<Tok>)
    requires ParseExec(ts).Ok?
    ensures var r := ParseExec(ts); ts == PrintExec(r.v) + r.rest && ExecOk(r.v)
    decreases |ts|, 0
  {
    if !Starts(ts, '(') {
      ItemsSound(ts, 0);
    } else {
      LineSound(ts[1..]);
      var l := ParseLine(ts[1..]);
      RedirsSound(l.rest[1..]);
      var r := ParseRedirs(l.rest[1..]);
      BlockPrint(ts, l.v, l.rest, r.v, r.rest);
    }
  }

  lemma BlockPrint(ts: seq<Tok>, l: Line, after: seq<Tok>, rs: seq<Redir>, rest: seq<Tok>)
    ensures PrintExec(Block(l, rs)) + rest == [Sym('(')] + (PrintLine(l) + ([Sym(')')] + (PrintRedirs(rs) + rest)))
    ensures Starts(ts, '(') && ts[1..] == PrintLine(l) + after
            && Starts(after, ')') && after[1..] == PrintRedirs(rs) + rest
            ==> ts == PrintExec(Block(l, rs)) + rest
  {
    if Starts(ts, '(') { assert ts == [Sym('(')] + ts[1..]; }
    if Starts(after, ')') { assert after == [Sym(')')] + after[1..]; }
  }

  lemma {:induction false} PipeSound(ts: seq<Tok>)
    requires ParsePipe(ts).Ok?
    ensures var r := ParsePipe(ts); ts == PrintPipe(r.v) + r.rest && PipeOk(r.v)
    decreases |ts|, 1
  {
    ExecSound(ts);
    var e := ParseExec(ts);
    if Starts(e.rest, '|') {
      PipeSound(e.rest[1..]);
      assert e.rest == [e.rest[0]] + e.rest[1..];
    }
  }

  lemma {:induction false} AmpsSound(ts: seq<Tok>)
    ensures var r := CountAmps(ts); ts == Amps(r.0) + r.1 && !Starts(r.1, '&')
  {
    if Starts(ts, '&') {
      AmpsSound(ts[1..]);
      assert ts == [ts[0]] + ts[1..];
    }
  }

  lemma LinePrint(p: Pipeline, n: nat, l: Line, rest: seq<Tok>)
    ensures PrintLine(Only(p, n)) + rest == PrintPipe(p) + (Amps(n) + rest)
    ensures PrintLine(Then(p, n, l)) + rest == PrintPipe(p) + (Amps(n) + ([Sym(';')] + (PrintLine(l) + rest)))
  {
  }

  /** What the parser returns prints as what it consumed. */
  lemma {:induction false} LineSound(ts: seq<Tok>)
    requires ParseLine(ts).Ok?
    ensures var r := ParseLine(ts); ts == PrintLine(r.v) + r.rest && LineOk(r.v)
    decreases |ts|, 2
  {
    PipeSound(ts);
    var p := ParsePipe(ts);
    AmpsSound(p.rest);
    var c := CountAmps(p.rest);
    if Starts(c.1, ';') {
      LineSound(c.1[1..]);
      var l := ParseLine(c.1[1..]);
      assert c.1 == [Sym(';')] + c.1[1..];
      LinePrint(p.v, c.0, l.v, l.rest);
    } else {
      LinePrint(p.v, c.0, Only(p.v, 0), c.1);
    }
  }

  // ---------------------------------------------------------------- completeness

  lemma {:induction false} RedirsComplete(rs: seq<Redir>, rest: seq<Tok>)
    requires RedirsOk(rs) && !StartsRedir(rest)
    ensures ParseRedirs(PrintRedirs(rs) + rest) == Ok(rs, rest)
  {
    var ts := PrintRedirs(rs) + rest;
    if rs == [] {
      assert ts == rest;
    } else {
      RedirsComplete(rs[1..], rest);
      Join(PrintRedir(rs[0]), PrintRedirs(rs[1..]), rest);
      assert ts[2..] == PrintRedirs(rs[1..]) + rest;
      assert ts[0] == Sym(rs[0].op) && ts[1] == Word(rs[0].q, rs[0].eq);
      assert [rs[0]] + rs[1..] == rs;
    }
  }

  lemma {:induction false} ItemsComplete(xs: seq<Item>, argc: nat, rest: seq<Tok>)
    requires ItemsOk(xs) && argc + Argc(xs) < MAXARGS && AtStop(rest)
    ensures ParseItems(PrintItems(xs) + rest, argc) == Ok(xs, rest)
  {
    var ts := PrintItems(xs) + rest;
    if xs == [] {
      assert ts == rest;
    } else {
      Join(PrintItem(xs[0]), PrintItems(xs[1..]), rest);
      assert [xs[0]] + xs[1..] == xs;
      if xs[0].Arg? {
        ItemsComplete(xs[1..], argc + 1, rest);
        assert ts[0] == Word(xs[0].q, xs[0].eq) && ts[1..] == PrintItems(xs[1..]) + rest;
      } else {
        ItemsComplete(xs[1..], argc, rest);
        assert ts[0] == Sym(xs[0].r.op) && ts[1] == Word(xs[0].r.q, xs[0].r.eq);
        assert ts[2..] == PrintItems(xs[1..]) + rest;
      }
    }
  }

  /** What may follow a pipeline, and a line. */
  predicate AfterPipe(ts: seq<Tok>) {
    AtStop(ts) && !Starts(ts, '|')
  }

  predicate AfterLine(ts: seq<Tok>) {
    ts == [] || Starts(ts, ')')
  }

  /** A simple command never looks like a block. */
  lemma ItemsHead(xs: seq<Item>, rest: seq<Tok>)
    requires ItemsOk(xs) && AtStop(rest)
    ensures !Starts(PrintItems(xs) + rest, '(')
  {
  }

  lemma {:induction false} ExecComplete(e: Exec, rest: seq<Tok>)
    requires ExecOk(e) && AtStop(rest)
    ensures ParseExec(PrintExec(e) + rest) == Ok(e, rest)
    decreases e
  {
    var ts := PrintExec(e) + rest;
    match e
    case Simple(xs) =>
      ItemsHead(xs, rest);
      ItemsComplete(xs, 0, rest);
    case Block(l, rs) =>
      var after := [Sym(')')] + (PrintRedirs(rs) + rest);
      BlockPrint(ts, l, after, rs, rest);
      LineComplete(l, after);
      assert ts[1..] == PrintLine(l) + after && after[1..] == PrintRedirs(rs) + rest;
      RedirsComplete(rs, rest);
  }

  lemma {:induction false} PipeComplete(p: Pipeline, rest: seq<Tok>)
    requires PipeOk(p) && AfterPipe(rest)
    ensures ParsePipe(PrintPipe(p) + rest) == Ok(p, rest)
    decreases p
  {
    match p
    case One(e) => ExecComplete(e, rest);
    case Piped(e, r) =>
      var after := [Sym('|')] + PrintPipe(r) + rest;
      ExecComplete(e, after);
      assert PrintPipe(p) + rest == PrintExec(e) + after;
      PipeComplete(r, rest);
      assert after[1..] == PrintPipe(r) + rest;
  }

  lemma {:induction false} AmpsComplete(n: nat, rest: seq<Tok>)
    requires !Starts(rest, '&')
    ensures CountAmps(Amps(n) + rest) == (n, rest)
  {
    if n == 0 {
      assert [] + rest == rest;
    } else {
      AmpsComplete(n - 1, rest);
      assert (Amps(n) + rest)[1..] == Amps(n - 1) + rest;
    }
  }

  lemma AmpsFollow(n: nat, rest: seq<Tok>)
    requires AfterPipe(rest)
    ensures AfterPipe(Amps(n) + rest)
  {
    if n == 0 { assert [] + rest == rest; }
  }

  /** Every tree is parsed back from its print: the parser misses nothing, and the grammar is unambiguous. */
  lemma {:induction false} LineComplete(l: Line, rest: seq<Tok>)
    requires LineOk(l) && AfterLine(rest)
    ensures ParseLine(PrintLine(l) + rest) == Ok(l, rest)
    decreases l
  {
    var after := if l.Only? then rest else [Sym(';')] + (PrintLine(l.l) + rest);
    LinePrint(l.p, l.amps, if l.Only? then l else l.l, rest);
    AmpsFollow(l.amps, after);
    PipeComplete(l.p, Amps(l.amps) + after);
    AmpsComplete(l.amps, after);
    if l.Then? {
      LineComplete(l.l, rest);
      assert after[1..] == PrintLine(l.l) + rest;
    }
  }

  /** The parser accepts exactly the token lists the grammar has, each with its one tree. */
  lemma AcceptsIff(ts: seq<Tok>, l: Line)
    ensures ParseLine(ts) == Ok(l, []) <==> LineOk(l) && PrintLine(l) == ts
  {
    if ParseLine(ts) == Ok(l, []) {
      LineSound(ts);
      assert PrintLine(l) + [] == PrintLine(l);
    }
    if LineOk(l) && PrintLine(l) == ts {
      LineComplete(l, []);
      assert PrintLine(l) + [] == PrintLine(l);
    }
  }
}
