/** The parser of sh.c: it walks the line buffer by recursive descent and then terminates the words in place. */
module Shell {
  import opened ShellGrammar
  import opened ShellText
  import opened ShellAccept
  import opened ShellMeaning
  import opened ShellOrder

  /** What peek looks at: the first character of a token. */
  function FirstChar(t: Tok): char {
    if t.Word? then 'a' else if t.c == '+' then '>' else t.c
  }

  /** xs in front of whatever r found. */
  function After(xs: seq<Item>, r: Parsed<seq<Item>>): Parsed<seq<Item>> {
    if r.Ok? then Ok(xs + r.v, r.rest) else Err
  }

  function Intos(rs: seq<Redir>): (xs: seq<Item>)
    ensures |xs| == |rs| && forall k :: 0 <= k < |xs| ==> xs[k] == Into(rs[k])
  {
    if rs == [] then [] else [Into(rs[0])] + Intos(rs[1..])
  }

  lemma AfterAfter(xs: seq<Item>, ys: seq<Item>, r: Parsed<seq<Item>>)
    ensures After(xs, After(ys, r)) == After(xs + ys, r)
  {
    if r.Ok? { assert xs + (ys + r.v) == xs + ys + r.v; }
  }

  /** A run of redirections is a run of items. */
  lemma {:induction false} RedirItems(ts: seq<Tok>, argc: nat)
    ensures var r := ParseRedirs(ts);
            ParseItems(ts, argc) == if r.Ok? then After(Intos(r.v), ParseItems(r.rest, argc)) else Err
    ensures ParseRedirs(ts).Ok? ==> !StartsRedir(ParseRedirs(ts).rest)
  {
    if StartsRedir(ts) && |ts| >= 2 && ts[1].Word? {
      RedirItems(ts[2..], argc);
      var r, i := ParseRedirs(ts[2..]), Redir(ts[0].c, ts[1].q, ts[1].eq);
      if r.Ok? {
        assert ([i] + r.v)[1..] == r.v;
        AfterAfter([Into(i)], Intos(r.v), ParseItems(r.rest, argc));
      }
    }
    AfterNone(ParseItems(ts, argc));
  }

  lemma AfterNone(r: Parsed<seq<Item>>)
    ensures After([], r) == r
  {
    if r.Ok? { assert [] + r.v == r.v; }
  }

  lemma {:induction false} IntosAre(rs: seq<Redir>)
    ensures Args(Intos(rs)) == [] && RedirsOf(Intos(rs)) == rs
  {
    if rs != [] {
      IntosAre(rs[1..]);
      assert Intos(rs)[1..] == Intos(rs[1..]);
    }
  }

  function AfterRedirs(rs: seq<Redir>, r: Parsed<seq<Redir>>): Parsed<seq<Redir>> {
    if r.Ok? then Ok(rs + r.v, r.rest) else Err
  }

  lemma AfterNoRedirs(r: Parsed<seq<Redir>>)
    ensures AfterRedirs([], r) == r
  {
    if r.Ok? { assert [] + r.v == r.v; }
  }

  lemma RedirStep(done: seq<Redir>, ts: seq<Tok>, r: Redir)
    requires StartsRedir(ts) && |ts| >= 2 && ts[1].Word? && r == Redir(ts[0].c, ts[1].q, ts[1].eq)
    ensures AfterRedirs(done, ParseRedirs(ts)) == AfterRedirs(done + [r], ParseRedirs(ts[2..]))
  {
    var p := ParseRedirs(ts[2..]);
    if p.Ok? { assert done + ([r] + p.v) == done + [r] + p.v; }
  }

  /** The first token of a list is a symbol of the language or a word. */
  lemma LexSyms(line: string, s: nat)
    requires s <= |line| && NoNul(line)
    ensures var ts := Lex(line, s);
            ts != [] && ts[0].Sym? ==> ts[0].c != NUL && ts[0].c != 'a' && (ts[0].c == '+' || ts[0].c in SYMBOLS)
  {
  }

  /** One more argument, and the redirections after it. */
  lemma ArgStep(xs: seq<Item>, cur: seq<Tok>, argc: nat, a: Item, r: Parsed<seq<Redir>>)
    requires !AtStop(cur) && !StartsRedir(cur) && cur[0].Word? && argc + 1 < MAXARGS
    requires a == Arg(cur[0].q, cur[0].eq) && r == ParseRedirs(cur[1..])
    ensures After(xs, ParseItems(cur, argc))
            == if r.Ok? then After(xs + ([a] + Intos(r.v)), ParseItems(r.rest, argc + 1)) else Err
  {
    RedirItems(cur[1..], argc + 1);
    if r.Ok? {
      AfterAfter([a], Intos(r.v), ParseItems(r.rest, argc + 1));
      AfterAfter(xs, [a] + Intos(r.v), ParseItems(r.rest, argc + 1));
    }
  }

  lemma ArgMore(xs: seq<Item>, a: Item, rs: seq<Redir>)
    requires a.Arg?
    ensures var ys := xs + ([a] + Intos(rs));
            Args(ys) == Args(xs) + [Span(a.q, a.eq)] && RedirsOf(ys) == RedirsOf(xs) + rs
  {
    OneArg(a);
    IntosAre(rs);
    ArgsAdd([a], Intos(rs));
    ArgsAdd(xs, [a] + Intos(rs));
    RedirsAdd([a], Intos(rs));
    RedirsAdd(xs, [a] + Intos(rs));
    assert [Span(a.q, a.eq)] + [] == [Span(a.q, a.eq)] && [] + rs == rs;
  }

  lemma OneArg(a: Item)
    requires a.Arg?
    ensures Args([a]) == [Span(a.q, a.eq)] && RedirsOf([a]) == []
  {
    assert [a][1..] == [] && Args([]) == [] && RedirsOf([]) == [];
  }

  /** One of the first i arguments ends at k. */
  ghost predicate EndsBy(argv: seq<Span>, i: nat, k: int) {
    exists j :: 0 <= j < i && j < |argv| && argv[j].eq == k
  }

  lemma EndIn(argv: seq<Span>, i: nat)
    requires i < |argv|
    ensures argv[i].eq in Ends(ExecCmd(argv))
    ensures forall k :: EndsBy(argv, i + 1, k) <==> EndsBy(argv, i, k) || k == argv[i].eq
  {
    assert argv[i] in Spans(ExecCmd(argv));
    forall k ensures EndsBy(argv, i + 1, k) <==> EndsBy(argv, i, k) || k == argv[i].eq {
      if EndsBy(argv, i, k) { var j :| 0 <= j < i && j < |argv| && argv[j].eq == k; assert argv[j].eq == k; }
    }
  }

  lemma EndsAre(argv: seq<Span>, k: int)
    ensures k in Ends(ExecCmd(argv)) <==> EndsBy(argv, |argv|, k)
  {
    if EndsBy(argv, |argv|, k) {
      var j :| 0 <= j < |argv| && argv[j].eq == k;
      assert argv[j] in Spans(ExecCmd(argv));
    }
  }

  lemma EndsBoth(l: Cmd, r: Cmd)
    ensures (set s | s in Spans(l) + Spans(r) :: s.eq) == Ends(l) + Ends(r)
  {
    forall k ensures k in Ends(l) + Ends(r) <==> k in set s | s in Spans(l) + Spans(r) :: s.eq {}
  }

  lemma EndsRedir(c: Cmd)
    requires c.RedirCmd?
    ensures Ends(c) == Ends(c.cmd) + {c.file.eq}
  {
    assert c.file in Spans(c);
    forall k ensures k in Ends(c) <==> k in Ends(c.cmd) + {c.file.eq} {}
  }

  /** The strings of an accepted line's command are its words, and no terminator falls on a word character. */
  lemma SpansAreWords(line: string, cmd: Cmd, l: Line)
    requires NoNul(line) && Spans(cmd) == Words(PrintLine(l)) && PrintLine(l) == Lex(line, 0)
    ensures forall w :: w in Spans(cmd) <==> WordAt(line, w.q, w.eq)
    ensures forall e :: e in Ends(cmd) ==> e <= |line| && (e < |line| ==> !WordChar(line[e]))
  {
    forall w ensures w in Spans(cmd) <==> WordAt(line, w.q, w.eq) {
      WordsFound(line, 0, w.q, w.eq);
      WordsIn(Lex(line, 0), w);
    }
  }

  lemma WordsIn(ts: seq<Tok>, w: Span)
    ensures w in Words(ts) <==> Word(w.q, w.eq) in ts
  {
    if Word(w.q, w.eq) in ts { var k :| 0 <= k < |ts| && ts[k] == Word(w.q, w.eq); assert ts[k].Word?; }
  }

  datatype Turn = Over | Bad | More

  class Parser {
    const buf: array<char>
    var s: nat
    ghost const line: string

    ghost predicate Valid()
      reads this, buf
    {
      && buf.Length == |line| + 1 && buf[..|line|] == line && buf[|line|] == NUL && NoNul(line) && s <= |line|
    }

    /** The tokens from here on. */
    ghost function Toks(): seq<Tok>
      reads this, buf
      requires Valid()
    {
      Lex(line, s)
    }

    /** A line ends at its first NUL. */
    constructor (b: array<char>, ghost text: string)
      requires b.Length == |text| + 1 && b[..|text|] == text && b[|text|] == NUL && NoNul(text)
      ensures Valid() && buf == b && line == text && s == 0
    {
      buf, line, s := b, text, 0;
    }

    method SkipSpaces(from: nat) returns (k: nat)
      requires Valid() && from <= |line|
      ensures k == Skip(line, from)
    {
      k := from;
      while k < buf.Length - 1 && buf[k] in WHITESPACE
        invariant from <= k <= |line| && Skip(line, k) == Skip(line, from)
      {
        assert buf[k] == line[k];
        k := k + 1;
      }
      assert k < |line| ==> buf[k] == line[k];
    }

    /** gettoken's default case. */
    method SkipWord(from: nat) returns (k: nat)
      requires Valid() && from <= |line|
      ensures k == WordEnd(line, from)
    {
      k := from;
      while k < buf.Length - 1 && buf[k] !in WHITESPACE && buf[k] !in SYMBOLS
        invariant from <= k <= |line| && WordEnd(line, k) == WordEnd(line, from)
      {
        assert buf[k] == line[k];
        k := k + 1;
      }
      assert k < |line| ==> buf[k] == line[k];
    }

    /** gettoken: NUL at the end, else a symbol, or 'a' and the word's bounds. */
    method Gettoken() returns (ret: char, q: nat, eq: nat)
      requires Valid()
      modifies this`s
      ensures Valid() && old(s) <= s
      ensures old(Toks()) == [] ==> ret == NUL && Toks() == []
      ensures old(Toks()) != [] ==> Toks() == old(Toks())[1..] && old(s) < s
      ensures old(Toks()) != [] ==>
                if old(Toks())[0].Word? then ret == 'a' && old(Toks())[0] == Word(q, eq) else ret == old(Toks())[0].c
    {
      var k := SkipSpaces(s);
      q := k;
      assert k < |line| ==> buf[k] == line[k];
      ret := buf[k];
      if buf[k] == NUL {
      } else if buf[k] == '|' || buf[k] == '(' || buf[k] == ')' || buf[k] == ';' || buf[k] == '&' || buf[k] == '<' {
        k := k + 1;
      } else if buf[k] == '>' {
        k := k + 1;
        assert k < |line| ==> buf[k] == line[k];
        if buf[k] == '>' {
          ret := '+';
          k := k + 1;
        }
      } else {
        ret := 'a';
        k := SkipWord(k);
      }
      eq := k;
      LexSkip(line, k);
      s := SkipSpaces(k);
    }

    /** peek: does one of these symbols come next? */
    method Peek(toks: string) returns (b: bool)
      requires Valid() && forall c :: c in toks ==> c in SYMBOLS
      modifies this`s
      ensures Valid() && old(s) <= s && Toks() == old(Toks())
      ensures b <==> Toks() != [] && FirstChar(Toks()[0]) in toks
      ensures s == |line| <==> Toks() == []
    {
      LexSkip(line, s);
      s := SkipSpaces(s);
      assert s < |line| ==> buf[s] == line[s];
      b := buf[s] != NUL && buf[s] in toks;
    }

    /** peek for one symbol. */
    method PeekOne(c: char) returns (b: bool)
      requires Valid() && c in SYMBOLS && c != '>'
      modifies this`s
      ensures Valid() && old(s) <= s && Toks() == old(Toks()) && (b <==> Starts(Toks(), c))
    {
      b := Peek([c]);
      LexSyms(line, s);
    }

    /** peek for a redirection. */
    method PeekRedir() returns (b: bool)
      requires Valid()
      modifies this`s
      ensures Valid() && old(s) <= s && Toks() == old(Toks()) && (b <==> StartsRedir(Toks()))
    {
      b := Peek("<>");
      LexSyms(line, s);
    }

    /** peek for what ends a simple command. */
    method PeekStop() returns (b: bool)
      requires Valid()
      modifies this`s
      ensures Valid() && old(s) <= s && Toks() == old(Toks()) && (b <==> Toks() != [] && AtStop(Toks()))
    {
      b := Peek("|)&;");
      LexSyms(line, s);
    }

    /** gettoken for its effect. */
    method Eat()
      requires Valid() && Toks() != []
      modifies this`s
      ensures Valid() && old(s) < s && Toks() == old(Toks())[1..]
    {
      var ret, q, eq := Gettoken();
    }

    /** A redirection operator and its file; false if the file is missing. */
    method TakeRedir() returns (ok: bool, r: Redir)
      requires Valid() && StartsRedir(Toks())
      modifies this`s
      ensures Valid() && old(s) < s
      ensures ok <==> |old(Toks())| >= 2 && old(Toks())[1].Word?
      ensures ok ==> Toks() == old(Toks())[2..] && r == Redir(old(Toks())[0].c, old(Toks())[1].q, old(Toks())[1].eq)
    {
      LexSyms(line, s);
      var tok, q, eq := Gettoken();
      LexSyms(line, s);
      var ret, q', eq' := Gettoken();
      return ret == 'a', Redir(tok, q', eq');
    }

    /** parseredirs: the redirections that come next, after those in rs; false stands for its panic. */
    method Parseredirs(rs: seq<Redir>) returns (ok: bool, all: seq<Redir>)
      requires Valid()
      modifies this`s
      ensures Valid() && old(s) <= s
      ensures ok <==> ParseRedirs(old(Toks())).Ok?
      ensures ok ==> all == rs + ParseRedirs(old(Toks())).v && Toks() == ParseRedirs(old(Toks())).rest
    {
      all := rs;
      ghost var ts, done := Toks(), [];
      AfterNoRedirs(ParseRedirs(ts));
      var more := PeekRedir();
      while more
        invariant Valid() && old(s) <= s && all == rs + done && (more <==> StartsRedir(Toks()))
        invariant ParseRedirs(ts) == AfterRedirs(done, ParseRedirs(Toks()))
        decreases |line| - s
      {
        ghost var cur := Toks();
        var r;
        ok, r := TakeRedir();
        if !ok { return; }
        RedirStep(done, cur, r);
        all, done := all + [r], done + [r];
        more := PeekRedir();
      }
      return true, all;
    }

    /** parseline's loop: one more backcmd for every ampersand. */
    method Parseamps(c: Cmd) returns (cmd: Cmd)
      requires Valid()
      modifies this`s
      ensures Valid() && old(s) <= s
      ensures cmd == Backs(c, CountAmps(old(Toks())).0) && Toks() == CountAmps(old(Toks())).1
    {
      cmd := c;
      ghost var n, all := 0, CountAmps(Toks());
      var more := PeekOne('&');
      while more
        invariant Valid() && old(s) <= s && cmd == Backs(c, n) && n <= all.0
        invariant CountAmps(Toks()) == (all.0 - n, all.1) && (more <==> Starts(Toks(), '&'))
        decreases |line| - s
      {
        Eat();
        cmd, n := BackCmd(cmd), n + 1;
        more := PeekOne('&');
      }
    }

    /** parseline. */
    method Parseline() returns (ok: bool, cmd: Cmd)
      requires Valid()
      modifies this`s
      ensures Valid() && old(s) <= s
      ensures ok <==> ParseLine(old(Toks())).Ok?
      ensures ok ==> cmd == OfLine(ParseLine(old(Toks())).v) && Toks() == ParseLine(old(Toks())).rest
      ensures ok ==> cmd == Meaning(Used(old(Toks()), Toks()))
      decreases |line| - s, 3
    {
      ok, cmd := Parsepipe();
      if !ok { return; }
      cmd := Parseamps(cmd);
      var more := PeekOne(';');
      if more {
        Eat();
        var right;
        ok, right := Parseline();
        if ok { cmd := ListCmd(cmd, right); }
      }
      if ok { LineUsed(old(Toks())); }
    }

    /** parsepipe. */
    method Parsepipe() returns (ok: bool, cmd: Cmd)
      requires Valid()
      modifies this`s
      ensures Valid() && old(s) <= s
      ensures ok <==> ParsePipe(old(Toks())).Ok?
      ensures ok ==> cmd == OfPipe(ParsePipe(old(Toks())).v) && Toks() == ParsePipe(old(Toks())).rest
      ensures ok ==> cmd == Meaning(Used(old(Toks()), Toks()))
      decreases |line| - s, 2
    {
      ok, cmd := Parseexec();
      if !ok { return; }
      var more := PeekOne('|');
      if more {
        Eat();
        var right;
        ok, right := Parsepipe();
        if ok { cmd := PipeCmd(cmd, right); }
      }
      if ok { PipeUsed(old(Toks())); }
    }

    /** parseblock; false stands for a missing parenthesis or a panic below. */
    method Parseblock() returns (ok: bool, cmd: Cmd)
      requires Valid() && Starts(Toks(), '(')
      modifies this`s
      ensures Valid() && old(s) <= s
      ensures ok <==> ParseExec(old(Toks())).Ok?
      ensures ok ==> cmd == OfExec(ParseExec(old(Toks())).v) && Toks() == ParseExec(old(Toks())).rest
      ensures ok ==> cmd == Meaning(Used(old(Toks()), Toks()))
      decreases |line| - s, 0
    {
      ghost var ts := Toks();
      var open := PeekOne('(');
      Eat();
      ok, cmd := Parseline();
      if !ok { return; }
      ghost var l := ParseLine(ts[1..]);
      var close := PeekOne(')');
      if !close { return false, cmd; }
      Eat();
      var rs;
      ok, rs := Parseredirs([]);
      assert ok ==> rs == ParseRedirs(l.rest[1..]).v;
      if ok {
        cmd := Wrap(cmd, rs);
        ExecUsed(ts);
      }
    }

    /** parseexec. */
    method Parseexec() returns (ok: bool, cmd: Cmd)
      requires Valid()
      modifies this`s
      ensures Valid() && old(s) <= s
      ensures ok <==> ParseExec(old(Toks())).Ok?
      ensures ok ==> cmd == OfExec(ParseExec(old(Toks())).v) && Toks() == ParseExec(old(Toks())).rest
      ensures ok ==> cmd == Meaning(Used(old(Toks()), Toks()))
      decreases |line| - s, 1
    {
      var block := PeekOne('(');
      if block {
        ok, cmd := Parseblock();
        return;
      }
      var argv, rs;
      ok, argv, rs := Parsesimple();
      cmd := Wrap(ExecCmd(argv), rs);
      if ok { ExecUsed(old(Toks())); }
    }

    /** One turn of parseexec's loop: Over if there is nothing left, Bad for a panic. xs and ys are what was read. */
    method Takearg(argv: seq<Span>, rs: seq<Redir>, ghost xs: seq<Item>)
      returns (how: Turn, argv': seq<Span>, rs': seq<Redir>, ghost ys: seq<Item>)
      requires Valid() && !StartsRedir(Toks()) && (Toks() == [] || !AtStop(Toks())) && |argv| < MAXARGS
      requires argv == Args(xs) && rs == RedirsOf(xs)
      modifies this`s
      ensures Valid() && old(s) <= s
      ensures how == Over <==> old(Toks()) == []
      ensures how == Over ==> Toks() == [] && argv' == argv && rs' == rs && ys == xs
      ensures how == Bad ==> ParseItems(old(Toks()), |argv|).Err?
      ensures how == More ==>
                && old(s) < s && |argv'| == |argv| + 1 < MAXARGS && argv' == Args(ys) && rs' == RedirsOf(ys)
                && After(xs, ParseItems(old(Toks()), |argv|)) == After(ys, ParseItems(Toks(), |argv'|))
                && !StartsRedir(Toks())
    {
      argv', rs', ys := argv, rs, xs;
      ghost var cur := Toks();
      LexSyms(line, s);
      var tok, q, eq := Gettoken();
      if tok == NUL { return Over, argv, rs, xs; }
      if tok != 'a' || |argv| + 1 >= MAXARGS { return Bad, argv, rs, xs; }
      ghost var mid := Toks();
      ArgStep(xs, cur, |argv|, Arg(q, eq), ParseRedirs(mid));
      RedirItems(mid, |argv| + 1);
      var ok;
      ok, rs' := Parseredirs(rs);
      if !ok { return Bad, argv, rs, xs; }
      ArgMore(xs, Arg(q, eq), ParseRedirs(mid).v);
      return More, argv + [Span(q, eq)], rs', xs + ([Arg(q, eq)] + Intos(ParseRedirs(mid).v));
    }

    /** The rest of parseexec: the arguments, and the redirections around and between them. */
    method Parsesimple() returns (ok: bool, argv: seq<Span>, rs: seq<Redir>)
      requires Valid()
      modifies this`s
      ensures Valid() && old(s) <= s
      ensures ok <==> ParseItems(old(Toks()), 0).Ok?
      ensures ok ==>
                && Toks() == ParseItems(old(Toks()), 0).rest && |argv| < MAXARGS
                && argv == Args(ParseItems(old(Toks()), 0).v) && rs == RedirsOf(ParseItems(old(Toks()), 0).v)
    {
      ghost var ts := Toks();
      argv := [];
      RedirItems(ts, 0);
      ok, rs := Parseredirs([]);
      if !ok { return; }
      assert rs == ParseRedirs(ts).v;
      ghost var xs := Intos(rs);
      IntosAre(rs);
      var stop := PeekStop();
      while !stop
        invariant Valid() && old(s) <= s && |argv| < MAXARGS
        invariant argv == Args(xs) && rs == RedirsOf(xs) && ParseItems(ts, 0) == After(xs, ParseItems(Toks(), |argv|))
        invariant !StartsRedir(Toks()) && (stop <==> Toks() != [] && AtStop(Toks()))
        decreases |line| - s
      {
        var how;
        how, argv, rs, xs := Takearg(argv, rs, xs);
        if how == Over { break; }
        if how == Bad { return false, argv, rs; }
        stop := PeekStop();
      }
      assert xs + [] == xs;
      return true, argv, rs;
    }

    // -------------------------------------------------------------- parsecmd

    /** nulterminate: a NUL at the end of every string of the command, and nowhere else. */
    method Nulterminate(cmd: Cmd)
      requires forall e :: e in Ends(cmd) ==> e < buf.Length
      modifies buf
      ensures forall k :: 0 <= k < buf.Length ==> buf[k] == if k in Ends(cmd) then NUL else old(buf[k])
      decreases cmd
    {
      match cmd
      case ExecCmd(argv) =>
        for i := 0 to |argv|
          invariant forall k :: 0 <= k < buf.Length ==> buf[k] == if EndsBy(argv, i, k) then NUL else old(buf[k])
        {
          EndIn(argv, i);
          buf[argv[i].eq] := NUL;
        }
        forall k ensures k in Ends(cmd) <==> EndsBy(argv, |argv|, k) { EndsAre(argv, k); }
      case RedirCmd(c, file, _, _) =>
        EndsRedir(cmd);
        Nulterminate(c);
        buf[file.eq] := NUL;
      case PipeCmd(l, r) =>
        EndsBoth(l, r);
        assert Ends(cmd) == Ends(l) + Ends(r);
        Nulterminate(l);
        Nulterminate(r);
      case ListCmd(l, r) =>
        EndsBoth(l, r);
        assert Ends(cmd) == Ends(l) + Ends(r);
        Nulterminate(l);
        Nulterminate(r);
      case BackCmd(c) =>
        assert Ends(cmd) == Ends(c);
        Nulterminate(c);
    }

    /**
     parsecmd. A line is accepted just when the single pass of ShellAccept accepts its tokens; it is then consumed
     whole, the command is what the tokens mean and has them in order, and its strings are exactly the words of the
     line, each a C string.
     */
    method Parsecmd() returns (ok: bool, cmd: Cmd, ghost l: Line)
      requires Valid() && s == 0
      modifies this`s, buf
      ensures ok <==> Accepts(Lex(line, 0))
      ensures !ok ==> buf[..] == old(buf[..])
      ensures ok ==> s == |line| && LineOk(l) && PrintLine(l) == Lex(line, 0) && cmd == OfLine(l)
      ensures ok ==> cmd == Meaning(Lex(line, 0)) && Follows(line, cmd)
      ensures ok ==> forall w :: w in Spans(cmd) <==> WordAt(line, w.q, w.eq)
      ensures ok ==> forall w: Span :: WordAt(line, w.q, w.eq) ==> CString(buf[..], w.q) == line[w.q..w.eq]
    {
      ghost var ts := Toks();
      l := Only(One(Simple([])), 0);
      ok, cmd := Parseline();
      AcceptsParsed(ts);
      if !ok { return; }
      var none := Peek("");
      if s != buf.Length - 1 { return false, cmd, l; }
      l := ParseLine(ts).v;
      AcceptsIff(ts, l);
      LineSpans(l);
      LineMeans(l);
      LineFollows(line, l);
      SpansAreWords(line, cmd, l);
      Nulterminate(cmd);
      forall w | w in Spans(cmd) ensures CString(buf[..], w.q) == line[w.q..w.eq] {
        TerminatedWords(line, buf[..], Ends(cmd), w.q, w.eq);
      }
    }
  }
}
