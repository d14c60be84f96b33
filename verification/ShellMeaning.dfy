/**
 What a line means, read from the top: a list is split at its first semicolon outside
 parentheses, what ends in & runs in the background, a pipeline is split at its first bar,
 the last redirection is the outermost, and then there are parentheses to take off or
 words to run. This is the reference for the parser's commands; it has no grammar in it.
 */
module ShellMeaning {
  import opened ShellGrammar
  import opened ShellText

  function Turn(t: Tok): int {
    if t == Sym('(') then 1 else if t == Sym(')') then -1 else 0
  }

  /** How many parentheses are open before token k. */
  function Depth(ts: seq<Tok>, k: nat): int
    requires k <= |ts|
  {
    if k == 0 then 0 else Depth(ts, k - 1) + Turn(ts[k - 1])
  }

  /** The first t from k on outside parentheses, or the end. */
  function Find(ts: seq<Tok>, t: Tok, k: nat): (r: nat)
    requires k <= |ts|
    ensures k <= r <= |ts|
    decreases |ts| - k
  {
    if k == |ts| || (ts[k] == t && Depth(ts, k) == 0) then k else Find(ts, t, k + 1)
  }

  predicate FileAt(ts: seq<Tok>, k: nat) {
    0 < k < |ts| && ts[k].Word? && ts[k - 1].Sym? && RedirOp(ts[k - 1].c) && Depth(ts, k - 1) == 0
  }

  /** The last file up to k that is redirected to outside parentheses, 0 if there is none. */
  function LastFile(ts: seq<Tok>, k: nat): (r: nat)
    ensures r <= k && (r > 0 ==> FileAt(ts, r))
  {
    if k == 0 || FileAt(ts, k) then k else LastFile(ts, k - 1)
  }

  function WordList(ts: seq<Tok>): seq<Span> {
    if ts == [] then [] else (if ts[0].Word? then [Span(ts[0].q, ts[0].eq)] else []) + WordList(ts[1..])
  }

  /** What a token list is, outside parentheses, and the parts that are left to be read. */
  datatype Form =
    | Sequence(left: seq<Tok>, right: seq<Tok>)
    | Background(body: seq<Tok>)
    | Piping(left: seq<Tok>, right: seq<Tok>)
    | Redirected(body: seq<Tok>, op: Tok, file: Span)
    | Enclosed(body: seq<Tok>)
    | Plain

  function FormOf(ts: seq<Tok>): (f: Form)
    ensures f.Sequence? || f.Piping? ==> |f.left| < |ts| && |f.right| < |ts|
    ensures f.Background? || f.Redirected? || f.Enclosed? ==> |f.body| < |ts|
  {
    var semi, bar, file := Find(ts, Sym(';'), 0), Find(ts, Sym('|'), 0), LastFile(ts, |ts|);
    if semi < |ts| then Sequence(ts[..semi], ts[semi + 1..])
    else if ts != [] && ts[|ts| - 1] == Sym('&') then Background(ts[..|ts| - 1])
    else if bar < |ts| then Piping(ts[..bar], ts[bar + 1..])
    else if file > 0 then Redirected(ts[..file - 1] + ts[file + 1..], ts[file - 1], Span(ts[file].q, ts[file].eq))
    else if |ts| >= 2 && ts[0] == Sym('(') then Enclosed(ts[1..|ts| - 1])
    else Plain
  }

  function Meaning(ts: seq<Tok>): Cmd
    decreases |ts|
  {
    match FormOf(ts)
    case Sequence(l, r) => ListCmd(Meaning(l), Meaning(r))
    case Background(a) => BackCmd(Meaning(a))
    case Piping(l, r) => PipeCmd(Meaning(l), Meaning(r))
    case Redirected(a, op, f) =>
      if op == Sym('<') then RedirCmd(Meaning(a), f, 0, 0) else RedirCmd(Meaning(a), f, 0x201, 1)
    case Enclosed(a) => Meaning(a)
    case Plain => ExecCmd(WordList(ts))
  }

  /** ts means c; a quantifier keeps the definition of Meaning out of proofs that have no use for it. */
  ghost predicate Means(ts: seq<Tok>, c: Cmd) {
    forall us: seq<Tok> :: us == ts ==> Meaning(us) == c
  }

  // ---------------------------------------------------------------- parentheses

  ghost predicate Closed(ts: seq<Tok>) {
    Depth(ts, |ts|) == 0 && forall k: nat :: k <= |ts| ==> Depth(ts, k) >= 0
  }

  /** No t outside parentheses. */
  ghost predicate Bare(ts: seq<Tok>, t: Tok) {
    forall k: nat :: k < |ts| && Depth(ts, k) == 0 ==> ts[k] != t
  }

  lemma {:induction false} DepthLeft(a: seq<Tok>, b: seq<Tok>, k: nat)
    requires k <= |a|
    ensures Depth(a + b, k) == Depth(a, k)
  {
    if k > 0 { DepthLeft(a, b, k - 1); }
  }

  lemma {:induction false} DepthRight(a: seq<Tok>, b: seq<Tok>, k: nat)
    requires k <= |b|
    ensures Depth(a + b, |a| + k) == Depth(a, |a|) + Depth(b, k)
  {
    if k > 0 { DepthRight(a, b, k - 1); } else { DepthLeft(a, b, |a|); }
  }

  lemma DepthAt(a: seq<Tok>, b: seq<Tok>, k: nat)
    requires k <= |a| + |b|
    ensures Depth(a + b, k) == if k <= |a| then Depth(a, k) else Depth(a, |a|) + Depth(b, k - |a|)
  {
    if k <= |a| { DepthLeft(a, b, k); } else { DepthRight(a, b, k - |a|); }
  }

  lemma ClosedAdd(a: seq<Tok>, b: seq<Tok>)
    requires Closed(a) && Closed(b)
    ensures Closed(a + b)
  {
    forall k: nat | k <= |a + b| ensures Depth(a + b, k) >= 0 { DepthAt(a, b, k); }
    DepthRight(a, b, |b|);
  }

  lemma BareAdd(a: seq<Tok>, b: seq<Tok>, t: Tok)
    requires Closed(a) && Bare(a, t) && Bare(b, t)
    ensures Bare(a + b, t)
  {
    forall k: nat | k < |a + b| && Depth(a + b, k) == 0 ensures (a + b)[k] != t { DepthAt(a, b, k); }
  }

  lemma Alone(t: Tok, u: Tok)
    requires Turn(t) == 0
    ensures Closed([t]) && (t != u ==> Bare([t], u))
  {
    forall k: nat | k <= 1 ensures Depth([t], k) == 0 { assert Depth([t], 0) == 0; }
  }

  lemma ParensDepth(a: seq<Tok>, k: nat)
    requires Closed(a) && k <= |a| + 2
    ensures Depth([Sym('(')] + a + [Sym(')')], k) == if k == 0 || k == |a| + 2 then 0 else 1 + Depth(a, k - 1)
  {
    DepthAt([Sym('(')] + a, [Sym(')')], k);
    if k <= |a| + 1 { DepthAt([Sym('(')], a, k); } else { DepthAt([Sym('(')], a, |a| + 1); }
    assert Depth([Sym('(')], 0) == 0 && Depth([Sym(')')], 0) == 0;
    assert Depth([Sym('(')], 1) == 1 && Depth([Sym(')')], 1) == -1;
  }

  /** Inside parentheses nothing is outside. */
  lemma Parens(a: seq<Tok>, t: Tok)
    requires Closed(a) && t != Sym('(')
    ensures var p := [Sym('(')] + a + [Sym(')')]; Closed(p) && Bare(p, t)
  {
    var p := [Sym('(')] + a + [Sym(')')];
    forall k: nat | k <= |p| ensures Depth(p, k) >= 0 && (0 < k < |p| ==> Depth(p, k) > 0) {
      ParensDepth(a, k);
      if 0 < k < |p| { assert Depth(a, k - 1) >= 0; }
    }
    ParensDepth(a, |p|);
  }

  lemma {:induction false} FindNone(ts: seq<Tok>, t: Tok, k: nat)
    requires k <= |ts| && Bare(ts, t)
    ensures Find(ts, t, k) == |ts|
    decreases |ts| - k
  {
    if k < |ts| { FindNone(ts, t, k + 1); }
  }

  lemma {:induction false} FindFirst(a: seq<Tok>, t: Tok, b: seq<Tok>, k: nat)
    requires k <= |a| && Closed(a) && Bare(a, t)
    ensures Find(a + [t] + b, t, k) == |a|
    decreases |a| - k
  {
    var ts := a + [t] + b;
    assert ts == a + ([t] + b);
    DepthLeft(a, [t] + b, k);
    if k < |a| {
      assert ts[k] == a[k];
      FindFirst(a, t, b, k + 1);
    }
  }

  /** The last token is outside parentheses, so it is not &. */
  lemma LastIsNot(ts: seq<Tok>, t: Tok)
    requires Closed(ts) && Bare(ts, t) && Turn(t) == 0 && ts != []
    ensures ts[|ts| - 1] != t
  {
    assert Depth(ts, |ts|) == Depth(ts, |ts| - 1) + Turn(ts[|ts| - 1]);
  }

  // ---------------------------------------------------------------- flat token lists

  /** Words and redirections only. */
  ghost predicate Flat(ts: seq<Tok>) {
    forall k :: 0 <= k < |ts| ==> ts[k].Word? || RedirOp(ts[k].c)
  }

  lemma {:induction false} FlatDepth(ts: seq<Tok>, k: nat)
    requires Flat(ts) && k <= |ts|
    ensures Depth(ts, k) == 0
  {
    if k > 0 { FlatDepth(ts, k - 1); }
  }

  lemma FlatShape(ts: seq<Tok>, t: Tok)
    requires Flat(ts) && t.Sym? && !RedirOp(t.c)
    ensures Closed(ts) && Bare(ts, t)
  {
    forall k: nat | k <= |ts| ensures Depth(ts, k) == 0 { FlatDepth(ts, k); }
  }

  lemma {:induction false} RedirsFlat(rs: seq<Redir>)
    requires RedirsOk(rs)
    ensures Flat(PrintRedirs(rs))
  {
    if rs != [] {
      assert forall k :: 0 <= k < |rs[1..]| ==> rs[1..][k] == rs[k + 1];
      RedirsFlat(rs[1..]);
    }
  }

  lemma {:induction false} ItemsFlat(xs: seq<Item>)
    requires ItemsOk(xs)
    ensures Flat(PrintItems(xs))
  {
    if xs != [] {
      assert forall k :: 0 <= k < |xs[1..]| ==> xs[1..][k] == xs[k + 1];
      ItemsFlat(xs[1..]);
    }
  }

  // ---------------------------------------------------------------- shapes of printed trees

  ghost predicate Separator(t: Tok) {
    t == Sym(';') || t == Sym('&') || t == Sym('|')
  }

  lemma {:induction false} ExecShape(e: Exec, t: Tok)
    requires ExecOk(e) && Separator(t)
    ensures Closed(PrintExec(e)) && Bare(PrintExec(e), t)
    decreases e, 0
  {
    match e
    case Simple(xs) =>
      ItemsFlat(xs);
      FlatShape(PrintItems(xs), t);
    case Block(l, rs) =>
      LineShape(l);
      Parens(PrintLine(l), t);
      RedirsFlat(rs);
      FlatShape(PrintRedirs(rs), t);
      ClosedAdd([Sym('(')] + PrintLine(l) + [Sym(')')], PrintRedirs(rs));
      BareAdd([Sym('(')] + PrintLine(l) + [Sym(')')], PrintRedirs(rs), t);
  }

  lemma {:induction false} PipeShape(p: Pipeline, t: Tok)
    requires PipeOk(p) && Separator(t)
    ensures Closed(PrintPipe(p)) && (t != Sym('|') ==> Bare(PrintPipe(p), t))
    decreases p, 1
  {
    ExecShape(p.e, t);
    if p.Piped? {
      var a := PrintExec(p.e) + [Sym('|')];
      PipeShape(p.p, t);
      Alone(Sym('|'), t);
      ClosedAdd(PrintExec(p.e), [Sym('|')]);
      ClosedAdd(a, PrintPipe(p.p));
      if t != Sym('|') {
        BareAdd(PrintExec(p.e), [Sym('|')], t);
        BareAdd(a, PrintPipe(p.p), t);
      }
    }
  }

  lemma {:induction false} AmpsShape(n: nat)
    ensures Closed(Amps(n)) && Bare(Amps(n), Sym(';'))
  {
    if n > 0 {
      AmpsShape(n - 1);
      Alone(Sym('&'), Sym(';'));
      ClosedAdd([Sym('&')], Amps(n - 1));
      BareAdd([Sym('&')], Amps(n - 1), Sym(';'));
    }
  }

  lemma PartShape(a: seq<Tok>, n: nat)
    requires Closed(a) && Bare(a, Sym(';'))
    ensures Closed(a + Amps(n)) && Bare(a + Amps(n), Sym(';'))
  {
    AmpsShape(n);
    ClosedAdd(a, Amps(n));
    BareAdd(a, Amps(n), Sym(';'));
  }

  lemma {:induction false} LineShape(l: Line)
    requires LineOk(l)
    ensures Closed(PrintLine(l))
    decreases l, 2
  {
    PipeShape(l.p, Sym(';'));
    PartShape(PrintPipe(l.p), l.amps);
    if l.Then? {
      var a := PrintPipe(l.p) + Amps(l.amps);
      LineShape(l.l);
      Alone(Sym(';'), Sym('|'));
      ClosedAdd(a, [Sym(';')]);
      ClosedAdd(a + [Sym(';')], PrintLine(l.l));
    }
  }

  // ---------------------------------------------------------------- redirections

  lemma {:induction false} WrapLast(c: Cmd, rs: seq<Redir>, r: Redir)
    ensures Wrap(c, rs + [r]) == WithRedir(Wrap(c, rs), r)
    decreases |rs|
  {
    if rs == [] {
      assert rs + [r] == [r] && [r][1..] == [];
    } else {
      assert (rs + [r])[0] == rs[0] && (rs + [r])[1..] == rs[1..] + [r];
      WrapLast(WithRedir(c, rs[0]), rs[1..], r);
    }
  }

  ghost predicate NoSymbols(ts: seq<Tok>) {
    forall k :: 0 <= k < |ts| ==> ts[k].Word?
  }

  /** Words after a redirection do not hide it. */
  lemma {:induction false} LastFileIs(a: seq<Tok>, r: Redir, b: seq<Tok>, k: nat)
    requires Closed(a) && RedirOp(r.op) && NoSymbols(b) && |a| + 1 <= k <= |a| + 2 + |b|
    ensures LastFile(a + PrintRedir(r) + b, k) == |a| + 1
  {
    var ts := a + PrintRedir(r) + b;
    assert ts == a + (PrintRedir(r) + b);
    DepthLeft(a, PrintRedir(r) + b, |a|);
    assert ts[|a|] == Sym(r.op) && ts[|a| + 1] == Word(r.q, r.eq);
    if k > |a| + 1 {
      assert forall j :: |a| + 2 <= j < |ts| ==> ts[j] == b[j - |a| - 2];
      assert !FileAt(ts, k);
      LastFileIs(a, r, b, k - 1);
    }
  }

  /** Redirections and words add no separator to a list that has none. */
  lemma RedirShape(a: seq<Tok>, r: Redir, b: seq<Tok>, t: Tok)
    requires Closed(a) && RedirOp(r.op) && NoSymbols(b) && Separator(t) && Bare(a, t)
    ensures Closed(a + PrintRedir(r) + b) && Bare(a + PrintRedir(r) + b, t)
  {
    var c := PrintRedir(r) + b;
    FlatShape(c, t);
    ClosedAdd(a, c);
    BareAdd(a, c, t);
    assert a + PrintRedir(r) + b == a + c;
  }

  /** What is not a list, a pipeline or in the background is its last redirection around the rest. */
  lemma RedirForm(a: seq<Tok>, r: Redir, b: seq<Tok>)
    requires Closed(a) && RedirOp(r.op) && NoSymbols(b)
    requires Bare(a, Sym(';')) && Bare(a, Sym('&')) && Bare(a, Sym('|'))
    ensures FormOf(a + PrintRedir(r) + b) == Redirected(a + b, Sym(r.op), Span(r.q, r.eq))
  {
    var ts := a + PrintRedir(r) + b;
    LastFileIs(a, r, b, |ts|);
    RedirShape(a, r, b, Sym(';'));
    RedirShape(a, r, b, Sym('&'));
    RedirShape(a, r, b, Sym('|'));
    FindNone(ts, Sym(';'), 0);
    FindNone(ts, Sym('|'), 0);
    LastIsNot(ts, Sym('&'));
    assert ts[..|a|] == a && ts[|a| + 2..] == b;
    assert ts[|a|] == Sym(r.op) && ts[|a| + 1] == Word(r.q, r.eq);
  }

  /** Taking the last redirection off. */
  lemma MeaningRedir(a: seq<Tok>, r: Redir, b: seq<Tok>, c: Cmd)
    requires Closed(a) && RedirOp(r.op) && NoSymbols(b)
    requires Bare(a, Sym(';')) && Bare(a, Sym('&')) && Bare(a, Sym('|'))
    requires Means(a + b, c)
    ensures Means(a + PrintRedir(r) + b, WithRedir(c, r))
  {
    RedirForm(a, r, b);
  }

  // ---------------------------------------------------------------- simple commands

  lemma {:induction false} PrintItemsAdd(xs: seq<Item>, ys: seq<Item>)
    ensures PrintItems(xs + ys) == PrintItems(xs) + PrintItems(ys)
  {
    if xs == [] {
      assert xs + ys == ys;
    } else {
      assert (xs + ys)[0] == xs[0] && (xs + ys)[1..] == xs[1..] + ys;
      PrintItemsAdd(xs[1..], ys);
    }
  }

  lemma {:induction false} ArgsOnly(xs: seq<Item>)
    requires forall k :: 0 <= k < |xs| ==> xs[k].Arg?
    ensures NoSymbols(PrintItems(xs)) && WordList(PrintItems(xs)) == Args(xs) && RedirsOf(xs) == []
  {
    if xs != [] {
      ArgsOnly(xs[1..]);
      assert PrintItems(xs)[1..] == PrintItems(xs[1..]);
    }
  }

  /** Words alone are run. */
  lemma MeaningWords(ts: seq<Tok>)
    requires NoSymbols(ts)
    ensures Means(ts, ExecCmd(WordList(ts)))
  {
    WordsForm(ts);
  }

  lemma WordsForm(ts: seq<Tok>)
    requires NoSymbols(ts)
    ensures FormOf(ts) == Plain
  {
    FlatShape(ts, Sym(';'));
    FlatShape(ts, Sym('|'));
    FindNone(ts, Sym(';'), 0);
    FindNone(ts, Sym('|'), 0);
    assert forall k: nat :: !FileAt(ts, k);
  }

  /** The last redirection of a simple command, or none. */
  lemma {:induction false} LastInto(xs: seq<Item>) returns (k: nat)
    ensures k <= |xs| && (k > 0 ==> xs[k - 1].Into?) && forall j :: k <= j < |xs| ==> xs[j].Arg?
  {
    k := |xs|;
    while k > 0 && xs[k - 1].Arg?
      invariant k <= |xs| && forall j :: k <= j < |xs| ==> xs[j].Arg?
    {
      k := k - 1;
    }
  }

  lemma Without(xs: seq<Item>, k: nat)
    requires 0 < k <= |xs| && xs[k - 1].Into? && forall j :: k <= j < |xs| ==> xs[j].Arg?
    ensures var ys, r, zs := xs[..k - 1], xs[k - 1].r, xs[k..];
            && PrintItems(xs) == PrintItems(ys) + PrintRedir(r) + PrintItems(zs)
            && PrintItems(ys + zs) == PrintItems(ys) + PrintItems(zs)
            && Args(xs) == Args(ys + zs) && RedirsOf(xs) == RedirsOf(ys + zs) + [r]
  {
    var ys, x, zs := xs[..k - 1], xs[k - 1], xs[k..];
    assert xs == ys + ([x] + zs);
    assert ([x] + zs)[0] == x && ([x] + zs)[1..] == zs;
    PrintItemsAdd(ys, [x] + zs);
    PrintItemsAdd(ys, zs);
    ArgsOnly(zs);
    ArgsAdd(ys, [x] + zs);
    ArgsAdd(ys, zs);
    RedirsAdd(ys, [x] + zs);
    RedirsAdd(ys, zs);
  }

  /** The items without their last redirection r; b are the words behind it. */
  lemma TakeOff(xs: seq<Item>, k: nat) returns (ys: seq<Item>, r: Redir, b: seq<Tok>, ws: seq<Item>)
    requires ItemsOk(xs) && 0 < k <= |xs| && xs[k - 1].Into? && forall j :: k <= j < |xs| ==> xs[j].Arg?
    ensures |ws| < |xs| && ItemsOk(ws) && ItemsOk(ys) && RedirOp(r.op) && NoSymbols(b)
    ensures PrintItems(xs) == PrintItems(ys) + PrintRedir(r) + b && PrintItems(ws) == PrintItems(ys) + b
    ensures Args(xs) == Args(ws) && RedirsOf(xs) == RedirsOf(ws) + [r]
  {
    ys, r, ws := xs[..k - 1], xs[k - 1].r, xs[..k - 1] + xs[k..];
    b := PrintItems(xs[k..]);
    Without(xs, k);
    ArgsOnly(xs[k..]);
    assert forall j :: 0 <= j < |ws| ==> ws[j] == if j < k - 1 then xs[j] else xs[j + 1];
  }

  lemma {:induction false} SimpleMeans(xs: seq<Item>)
    requires ItemsOk(xs)
    ensures Means(PrintItems(xs), Wrap(ExecCmd(Args(xs)), RedirsOf(xs)))
    decreases |xs|
  {
    var k := LastInto(xs);
    if k == 0 {
      ArgsOnly(xs);
      MeaningWords(PrintItems(xs));
    } else {
      var ys, r, b, ws := TakeOff(xs, k);
      SimpleMeans(ws);
      ItemsRedir(ys, r, b, Wrap(ExecCmd(Args(ws)), RedirsOf(ws)));
      WrapLast(ExecCmd(Args(ws)), RedirsOf(ws), r);
    }
  }

  lemma ItemsRedir(ys: seq<Item>, r: Redir, b: seq<Tok>, c: Cmd)
    requires ItemsOk(ys) && RedirOp(r.op) && NoSymbols(b) && Means(PrintItems(ys) + b, c)
    ensures Means(PrintItems(ys) + PrintRedir(r) + b, WithRedir(c, r))
  {
    var a := PrintItems(ys);
    ItemsFlat(ys);
    FlatShape(a, Sym(';'));
    FlatShape(a, Sym('&'));
    FlatShape(a, Sym('|'));
    MeaningRedir(a, r, b, c);
  }

  // ---------------------------------------------------------------- blocks

  /** Parentheses are taken off. */
  lemma MeaningParens(a: seq<Tok>, c: Cmd)
    requires Closed(a) && Means(a, c)
    ensures Means([Sym('(')] + a + [Sym(')')], c)
  {
    ParensForm(a);
  }

  lemma ParensForm(a: seq<Tok>)
    requires Closed(a)
    ensures FormOf([Sym('(')] + a + [Sym(')')]) == Enclosed(a)
  {
    var p := [Sym('(')] + a + [Sym(')')];
    Parens(a, Sym(';'));
    Parens(a, Sym('|'));
    FindNone(p, Sym(';'), 0);
    FindNone(p, Sym('|'), 0);
    forall k: nat ensures !FileAt(p, k) {
      if 0 < k < |p| {
        ParensDepth(a, k - 1);
        if k > 1 { assert Depth(a, k - 2) >= 0; }
      }
    }
    assert p[1..|p| - 1] == a;
  }

  lemma {:induction false} PrintRedirsLast(rs: seq<Redir>, r: Redir)
    ensures PrintRedirs(rs + [r]) == PrintRedirs(rs) + PrintRedir(r)
  {
    if rs == [] {
      assert rs + [r] == [r] && [r][1..] == [];
    } else {
      assert (rs + [r])[0] == rs[0] && (rs + [r])[1..] == rs[1..] + [r];
      PrintRedirsLast(rs[1..], r);
    }
  }

  lemma {:induction false} BlockMeans(l: Line, rs: seq<Redir>)
    requires LineOk(l) && RedirsOk(rs) && Means(PrintLine(l), OfLine(l))
    ensures Means(PrintExec(Block(l, rs)), Wrap(OfLine(l), rs))
    decreases |rs|
  {
    var p := [Sym('(')] + PrintLine(l) + [Sym(')')];
    if rs == [] {
      LineShape(l);
      MeaningParens(PrintLine(l), OfLine(l));
      assert PrintExec(Block(l, rs)) == p + [] == p;
    } else {
      var qs, r := rs[..|rs| - 1], rs[|rs| - 1];
      assert rs == qs + [r];
      BlockMeans(l, qs);
      PrintRedirsLast(qs, r);
      WrapLast(OfLine(l), qs, r);
      var a := PrintExec(Block(l, qs));
      ExecShape(Block(l, qs), Sym(';'));
      ExecShape(Block(l, qs), Sym('&'));
      ExecShape(Block(l, qs), Sym('|'));
      assert PrintExec(Block(l, rs)) == a + PrintRedir(r) + [] && a + [] == a;
      MeaningRedir(a, r, [], Wrap(OfLine(l), qs));
    }
  }

  // ---------------------------------------------------------------- whole lines

  lemma {:induction false} ExecMeans(e: Exec)
    requires ExecOk(e)
    ensures Means(PrintExec(e), OfExec(e))
    decreases e, 0
  {
    match e
    case Simple(xs) => SimpleMeans(xs);
    case Block(l, rs) =>
      LineMeans(l);
      BlockMeans(l, rs);
  }

  lemma {:induction false} PipeMeans(p: Pipeline)
    requires PipeOk(p)
    ensures Means(PrintPipe(p), OfPipe(p))
    decreases p, 1
  {
    ExecMeans(p.e);
    if p.Piped? {
      PipeMeans(p.p);
      MeaningPipe(p, OfExec(p.e), OfPipe(p.p));
    }
  }

  lemma MeaningPipe(p: Pipeline, c: Cmd, d: Cmd)
    requires PipeOk(p) && p.Piped? && Means(PrintExec(p.e), c) && Means(PrintPipe(p.p), d)
    ensures Means(PrintPipe(p), PipeCmd(c, d))
  {
    PipeForm(p);
  }

  lemma PipeForm(p: Pipeline)
    requires PipeOk(p) && p.Piped?
    ensures FormOf(PrintPipe(p)) == Piping(PrintExec(p.e), PrintPipe(p.p))
  {
    var a, ts := PrintExec(p.e), PrintPipe(p);
    PipeShape(p, Sym(';'));
    PipeShape(p, Sym('&'));
    ExecShape(p.e, Sym('|'));
    FindNone(ts, Sym(';'), 0);
    LastIsNot(ts, Sym('&'));
    FindFirst(a, Sym('|'), PrintPipe(p.p), 0);
    assert ts[..|a|] == a && ts[|a| + 1..] == PrintPipe(p.p);
  }

  lemma {:induction false} BacksMean(a: seq<Tok>, c: Cmd, n: nat)
    requires Closed(a) && Bare(a, Sym(';')) && Means(a, c)
    ensures Means(a + Amps(n), Backs(c, n))
  {
    if n == 0 {
      assert a + Amps(n) == a;
    } else {
      BacksMean(a, c, n - 1);
      MeaningBack(a, n, Backs(c, n - 1));
    }
  }

  lemma MeaningBack(a: seq<Tok>, n: nat, c: Cmd)
    requires Closed(a) && Bare(a, Sym(';')) && n > 0 && Means(a + Amps(n - 1), c)
    ensures Means(a + Amps(n), BackCmd(c))
  {
    BackForm(a, n);
  }

  lemma BackForm(a: seq<Tok>, n: nat)
    requires Closed(a) && Bare(a, Sym(';')) && n > 0
    ensures FormOf(a + Amps(n)) == Background(a + Amps(n - 1))
  {
    var ts := a + Amps(n);
    AmpsTail(n);
    PartShape(a, n);
    FindNone(ts, Sym(';'), 0);
    assert ts[..|ts| - 1] == a + Amps(n - 1);
  }

  /** The command that a syntax tree stands for is what its tokens mean. */
  lemma {:induction false} LineMeans(l: Line)
    requires LineOk(l)
    ensures Means(PrintLine(l), OfLine(l))
    decreases l, 2
  {
    PipeMeans(l.p);
    PipeShape(l.p, Sym(';'));
    BacksMean(PrintPipe(l.p), OfPipe(l.p), l.amps);
    if l.Then? {
      LineMeans(l.l);
      MeaningList(l, Backs(OfPipe(l.p), l.amps), OfLine(l.l));
    }
  }

  lemma MeaningList(l: Line, c: Cmd, d: Cmd)
    requires LineOk(l) && l.Then? && Means(PrintPipe(l.p) + Amps(l.amps), c) && Means(PrintLine(l.l), d)
    ensures Means(PrintLine(l), ListCmd(c, d))
  {
    ListForm(l);
  }

  lemma ListForm(l: Line)
    requires LineOk(l) && l.Then?
    ensures FormOf(PrintLine(l)) == Sequence(PrintPipe(l.p) + Amps(l.amps), PrintLine(l.l))
  {
    var a, ts := PrintPipe(l.p) + Amps(l.amps), PrintLine(l);
    PipeShape(l.p, Sym(';'));
    PartShape(PrintPipe(l.p), l.amps);
    FindFirst(a, Sym(';'), PrintLine(l.l), 0);
    assert ts[..|a|] == a && ts[|a| + 1..] == PrintLine(l.l);
  }

  // ---------------------------------------------------------------- what the parser has used

  /** The tokens that are no longer in rest. */
  function Used(ts: seq<Tok>, rest: seq<Tok>): seq<Tok>
    requires |rest| <= |ts|
  {
    ts[..|ts| - |rest|]
  }

  lemma ExecUsed(ts: seq<Tok>)
    requires ParseExec(ts).Ok?
    ensures OfExec(ParseExec(ts).v) == Meaning(Used(ts, ParseExec(ts).rest))
  {
    var r := ParseExec(ts);
    ExecSound(ts);
    ExecMeans(r.v);
    assert Used(ts, r.rest) == PrintExec(r.v);
  }

  lemma PipeUsed(ts: seq<Tok>)
    requires ParsePipe(ts).Ok?
    ensures OfPipe(ParsePipe(ts).v) == Meaning(Used(ts, ParsePipe(ts).rest))
  {
    var r := ParsePipe(ts);
    PipeSound(ts);
    PipeMeans(r.v);
    assert Used(ts, r.rest) == PrintPipe(r.v);
  }

  lemma LineUsed(ts: seq<Tok>)
    requires ParseLine(ts).Ok?
    ensures OfLine(ParseLine(ts).v) == Meaning(Used(ts, ParseLine(ts).rest))
  {
    var r := ParseLine(ts);
    LineSound(ts);
    LineMeans(r.v);
    assert Used(ts, r.rest) == PrintLine(r.v);
  }
}
