/**
 Which lines are accepted, decided in one pass over the tokens that only remembers how many
 parentheses are open and what has come last. This is the reference for the grammar.
 */
module ShellAccept {
  import opened ShellGrammar

  /** A command may begin; n arguments of one have been read; a parenthesis has been closed; & has come. */
  datatype Mode = Fresh | Arguments(n: nat) | Shut | Amp

  /** file: the file of a redirection must come next. */
  datatype Reader = Reading(m: Mode, file: bool, depth: nat) | Refused

  /** One token more. */
  function Read(s: Reader, t: Tok): Reader {
    if s.Refused? then Refused
    else if s.file then if t.Word? then s.(file := false) else Refused
    else match t
      case Word(_, _) =>
        if s.m.Fresh? then s.(m := Arguments(1))
        else if s.m.Arguments? && s.m.n < 9 then s.(m := Arguments(s.m.n + 1))
        else Refused
      case Sym(c) =>
        if c == '<' || c == '>' || c == '+' then
          if s.m.Amp? then Refused else s.(m := if s.m.Fresh? then Arguments(0) else s.m, file := true)
        else if c == '(' then if s.m.Fresh? then s.(depth := s.depth + 1) else Refused
        else if c == ')' then if s.depth > 0 then s.(m := Shut, depth := s.depth - 1) else Refused
        else if c == '|' then if s.m.Amp? then Refused else s.(m := Fresh)
        else if c == '&' then s.(m := Amp)
        else if c == ';' then s.(m := Fresh)
        else Refused
  }

  function ReadAll(s: Reader, ts: seq<Tok>): Reader
    decreases |ts|
  {
    if ts == [] then s else ReadAll(Read(s, ts[0]), ts[1..])
  }

  predicate Good(s: Reader) {
    s.Reading? && !s.file && s.depth == 0
  }

  predicate Accepts(ts: seq<Tok>) {
    Good(ReadAll(Reading(Fresh, false, 0), ts))
  }

  lemma {:induction false} RefusedStays(ts: seq<Tok>)
    ensures ReadAll(Refused, ts) == Refused
    decreases |ts|
  {
    if ts != [] { RefusedStays(ts[1..]); }
  }

  /** If the first token is refused, so is the list. */
  lemma RefusedAtOnce(s: Reader, ts: seq<Tok>)
    requires ts != [] && Read(s, ts[0]) == Refused
    ensures !Good(ReadAll(s, ts))
  {
    RefusedStays(ts[1..]);
  }

  lemma ReadTwo(s: Reader, ts: seq<Tok>)
    requires |ts| >= 2
    ensures ReadAll(s, ts) == ReadAll(Read(Read(s, ts[0]), ts[1]), ts[2..])
  {
    assert ts[1..][0] == ts[1] && ts[1..][1..] == ts[2..];
  }

  // ---------------------------------------------------------------- the parser, read

  /** A redirection without its file is not accepted, one with it is passed. */
  lemma RedirRead(m: Mode, d: nat, ts: seq<Tok>)
    requires StartsRedir(ts) && !m.Amp?
    ensures var s, m' := Reading(m, false, d), if m.Fresh? then Arguments(0) else m;
            if |ts| >= 2 && ts[1].Word? then ReadAll(s, ts) == ReadAll(Reading(m', false, d), ts[2..])
            else !Good(ReadAll(s, ts))
  {
    var s := Reading(m, false, d);
    if |ts| >= 2 {
      ReadTwo(s, ts);
      RefusedStays(ts[2..]);
    } else {
      assert ts[1..] == [];
    }
  }

  lemma {:induction false} RedirsRead(d: nat, ts: seq<Tok>)
    ensures var s, r := Reading(Shut, false, d), ParseRedirs(ts);
            if r.Ok? then ReadAll(s, ts) == ReadAll(s, r.rest) && !StartsRedir(r.rest) else !Good(ReadAll(s, ts))
  {
    if StartsRedir(ts) {
      RedirRead(Shut, d, ts);
      if |ts| >= 2 && ts[1].Word? { RedirsRead(d, ts[2..]); }
    }
  }

  lemma {:induction false} ItemsRead(m: Mode, argc: nat, d: nat, ts: seq<Tok>) returns (m': Mode)
    requires m == Arguments(argc) || (m.Fresh? && argc == 0 && !Starts(ts, '('))
    ensures !m'.Amp? && !m'.Shut?
    ensures var s, r := Reading(m, false, d), ParseItems(ts, argc);
            if r.Ok? then ReadAll(s, ts) == ReadAll(Reading(m', false, d), r.rest) && AtStop(r.rest)
            else !Good(ReadAll(s, ts))
    decreases |ts|
  {
    var s := Reading(m, false, d);
    m' := m;
    if AtStop(ts) {
    } else if StartsRedir(ts) {
      RedirRead(m, d, ts);
      if |ts| >= 2 && ts[1].Word? { m' := ItemsRead(Arguments(argc), argc, d, ts[2..]); }
    } else if !ts[0].Word? || argc + 1 >= MAXARGS {
      RefusedAtOnce(s, ts);
    } else {
      m' := ItemsRead(Arguments(argc + 1), argc + 1, d, ts[1..]);
    }
  }

  /** Behind a command: one of |)&; or the end, or anything but a redirection behind a block. */
  ghost predicate Behind(m: Mode, rest: seq<Tok>) {
    !m.Amp? && (AtStop(rest) || (m.Shut? && !StartsRedir(rest)))
  }

  ghost predicate BehindLine(m: Mode, rest: seq<Tok>) {
    && !Starts(rest, ';') && !Starts(rest, '&')
    && (m.Amp? || (Behind(m, rest) && !Starts(rest, '|')))
  }

  /** Behind a line only a closing parenthesis is read. */
  lemma LineEnds(m: Mode, d: nat, rest: seq<Tok>)
    requires BehindLine(m, rest) && rest != [] && (d == 0 || !Starts(rest, ')'))
    ensures !Good(ReadAll(Reading(m, false, d), rest))
  {
    RefusedAtOnce(Reading(m, false, d), rest);
  }

  lemma {:induction false} ExecRead(d: nat, ts: seq<Tok>) returns (m: Mode)
    ensures var s, r := Reading(Fresh, false, d), ParseExec(ts);
            if r.Ok? then ReadAll(s, ts) == ReadAll(Reading(m, false, d), r.rest) && Behind(m, r.rest)
            else !Good(ReadAll(s, ts))
    decreases |ts|, 0
  {
    m := Fresh;
    if !Starts(ts, '(') {
      m := ItemsRead(Fresh, 0, d, ts);
    } else {
      var inner := LineRead(d + 1, ts[1..]);
      var r := ParseLine(ts[1..]);
      if r.Ok? {
        m := Shut;
        if Starts(r.rest, ')') {
          RedirsRead(d, r.rest[1..]);
        } else if r.rest != [] {
          LineEnds(inner, d + 1, r.rest);
        }
      }
    }
  }

  lemma {:induction false} PipeRead(d: nat, ts: seq<Tok>) returns (m: Mode)
    ensures var s, r := Reading(Fresh, false, d), ParsePipe(ts);
            if r.Ok? then
              && ReadAll(s, ts) == ReadAll(Reading(m, false, d), r.rest)
              && Behind(m, r.rest) && !Starts(r.rest, '|')
            else !Good(ReadAll(s, ts))
    decreases |ts|, 1
  {
    m := ExecRead(d, ts);
    var e := ParseExec(ts);
    if e.Ok? && Starts(e.rest, '|') { m := PipeRead(d, e.rest[1..]); }
  }

  lemma {:induction false} AmpsRead(m: Mode, d: nat, ts: seq<Tok>) returns (m': Mode)
    ensures var r := CountAmps(ts);
            && ReadAll(Reading(m, false, d), ts) == ReadAll(Reading(m', false, d), r.1) && !Starts(r.1, '&')
            && m' == if r.0 > 0 then Amp else m
    decreases |ts|
  {
    m' := m;
    if Starts(ts, '&') { m' := AmpsRead(Amp, d, ts[1..]); }
  }

  lemma {:induction false} LineRead(d: nat, ts: seq<Tok>) returns (m: Mode)
    ensures var s, r := Reading(Fresh, false, d), ParseLine(ts);
            if r.Ok? then ReadAll(s, ts) == ReadAll(Reading(m, false, d), r.rest) && BehindLine(m, r.rest)
            else !Good(ReadAll(s, ts))
    decreases |ts|, 2
  {
    m := PipeRead(d, ts);
    var p := ParsePipe(ts);
    if p.Ok? {
      m := AmpsRead(m, d, p.rest);
      var a := CountAmps(p.rest);
      if Starts(a.1, ';') { m := LineRead(d, a.1[1..]); }
    }
  }

  /** The parser leaves nothing over just when the single pass accepts. */
  lemma AcceptsParsed(ts: seq<Tok>)
    ensures Accepts(ts) <==> ParseLine(ts).Ok? && ParseLine(ts).rest == []
  {
    var m := LineRead(0, ts);
    var r := ParseLine(ts);
    if r.Ok? && r.rest != [] { LineEnds(m, 0, r.rest); }
  }

  /** The grammar's lines are the ones that the single pass accepts. */
  lemma AcceptsLines(ts: seq<Tok>)
    ensures Accepts(ts) <==> exists t :: LineOk(t) && PrintLine(t) == ts
  {
    AcceptsParsed(ts);
    if Accepts(ts) { AcceptsIff(ts, ParseLine(ts).v); }
    if t :| LineOk(t) && PrintLine(t) == ts { AcceptsIff(ts, t); }
  }
}
