/**
 Log space: when log_write's "too big a transaction" panic can and cannot happen, and
 when the group an operation joins can outgrow the log although that panic is there.
 */
module LogBudget {
  import opened Common
  import opened Blocks
  import opened LogProtocol
  import opened LogSafety

  /** An operation keeps to its promise of at most MAXOPBLOCKS distinct blocks. */
  ghost predicate InBudget(s: State, step: Step) {
    step.AppendStep? && step.op in s.ops ==> |s.ops[step.op] + {step.b}| <= MAXOPBLOCKS
  }

  ghost predicate BudgetNext(g: Geo, s: State, s': State) {
    exists step :: NextStep(g, s, s', step) && InBudget(s, step)
  }

  ghost predicate BudgetRun(g: Geo, run: seq<State>) {
    && |run| > 0
    && Init(g, run[0])
    && forall i :: 0 <= i < |run| - 1 ==> BudgetNext(g, run[i], run[i + 1])
  }

  lemma BudgetRunIsRun(g: Geo, run: seq<State>)
    requires BudgetRun(g, run)
    ensures IsRun(g, run)
  {
    forall i | 0 <= i < |run| - 1
      ensures Next(g, run[i], run[i + 1])
    {
      assert BudgetNext(g, run[i], run[i + 1]);
      var step :| NextStep(g, run[i], run[i + 1], step) && InBudget(run[i], step);
    }
  }

  /** Blocks the running operations may still add to the log. */
  ghost function Unused(ops: map<nat, set<nat>>): int
    decreases |ops|
  {
    if ops == map[] then 0
    else
      var op :| op in ops;
      assert (ops - {op}).Keys == ops.Keys - {op};
      assert |ops - {op}| == |(ops - {op}).Keys|;
      MAXOPBLOCKS - |ops[op]| + Unused(ops - {op})
  }

  lemma {:induction false} UnusedSplit(ops: map<nat, set<nat>>, op: nat)
    requires op in ops
    ensures Unused(ops) == MAXOPBLOCKS - |ops[op]| + Unused(ops - {op})
    decreases |ops|
  {
    var p :| p in ops && Unused(ops) == MAXOPBLOCKS - |ops[p]| + Unused(ops - {p});
    if p != op {
      assert (ops - {p}).Keys == ops.Keys - {p} && |ops - {p}| == |(ops - {p}).Keys|;
      UnusedSplit(ops - {p}, op);
      assert (ops - {op}).Keys == ops.Keys - {op} && |ops - {op}| == |(ops - {op}).Keys|;
      UnusedSplit(ops - {op}, p);
      assert ops - {p} - {op} == ops - {op} - {p};
    }
  }

  /** Every operation in its budget contributes at least nothing and at most MAXOPBLOCKS. */
  lemma {:induction false} UnusedBounds(ops: map<nat, set<nat>>)
    requires forall op :: op in ops ==> |ops[op]| <= MAXOPBLOCKS
    ensures 0 <= Unused(ops) <= |ops| * MAXOPBLOCKS
    decreases |ops|
  {
    if ops != map[] {
      var op :| op in ops;
      assert (ops - {op}).Keys == ops.Keys - {op} && |ops - {op}| == |(ops - {op}).Keys|;
      UnusedSplit(ops, op);
      UnusedBounds(ops - {op});
    }
  }

  ghost predicate BudgetInv(s: State) {
    && (forall op :: op in s.ops ==> |s.ops[op]| <= MAXOPBLOCKS)
    && (forall op, b :: op in s.ops && b in s.ops[op] ==> b in s.lh)
    && |s.lh| + Unused(s.ops) <= LOGSIZE
  }

  lemma BudgetBegin(s: State, s': State, pid: nat)
    requires BudgetInv(s) && AdmitInv(s) && NameInv(s) && Begin(s, s', pid)
    ensures BudgetInv(s')
  {
    if Admits(s) {
      UnusedBounds(s.ops);
      assert s.nextOp !in s.ops;
      UnusedSplit(s'.ops, s.nextOp);
      assert s'.ops - {s.nextOp} == s.ops;
    }
  }

  lemma BudgetAppend(g: Geo, s: State, s': State, op: nat, b: nat, data: Block)
    requires BudgetInv(s) && Append(g, s, s', op, b, data)
    requires |s.ops[op] + {b}| <= MAXOPBLOCKS
    ensures BudgetInv(s')
  {
    UnusedSplit(s.ops, op);
    UnusedSplit(s'.ops, op);
    assert s'.ops - {op} == s.ops - {op};
    if b in s.ops[op] {
      assert s.ops[op] + {b} == s.ops[op];
    }
  }

  lemma BudgetEnd(s: State, s': State, op: nat)
    requires BudgetInv(s) && End(s, s', op)
    ensures BudgetInv(s')
  {
    UnusedSplit(s.ops, op);
  }

  lemma BudgetKeeps(g: Geo, s: State, s': State, step: Step)
    requires OpsInv(s) && BudgetInv(s) && NextStep(g, s, s', step) && InBudget(s, step)
    ensures BudgetInv(s')
  {
    OpsInvKeeps(g, s, s', step);
    match step
    case BeginStep(pid) => BudgetBegin(s, s', pid);
    case TestStep(op) =>
    case AppendStep(op, b, data) => BudgetAppend(g, s, s', op, b, data);
    case EndStep(op) => BudgetEnd(s, s', op);
    case FinishStep =>
    case _ => assert s'.ops == map[]; assert |s'.lh| <= LOGSIZE;
  }

  lemma BudgetStep(g: Geo, s: State, s': State)
    requires OpsInv(s) && BudgetInv(s) && BudgetNext(g, s, s')
    ensures BudgetInv(s')
  {
    var step :| NextStep(g, s, s', step) && InBudget(s, step);
    BudgetKeeps(g, s, s', step);
  }

  lemma BudgetNextInv(g: Geo, run: seq<State>, i: nat)
    requires IsRun(g, run) && i + 1 < |run| && BudgetInv(run[i]) && BudgetNext(g, run[i], run[i + 1])
    ensures BudgetInv(run[i + 1])
  {
    RunOps(g, run, i);
    BudgetStep(g, run[i], run[i + 1]);
  }

  lemma {:induction false} BudgetRunInv(g: Geo, run: seq<State>, i: nat)
    requires BudgetRun(g, run) && i < |run|
    ensures IsRun(g, run) && BudgetInv(run[i])
  {
    BudgetRunIsRun(g, run);
    if i > 0 {
      BudgetRunInv(g, run, i - 1);
      assert BudgetNext(g, run[i - 1], run[i - 1 + 1]);
      BudgetNextInv(g, run, i - 1);
    }
  }

  /** log.lh.n and all unspent budgets together never exceed the log. */
  lemma AdmissionIsSound(g: Geo, run: seq<State>, i: nat, op: nat)
    requires BudgetRun(g, run) && i < |run| && op in run[i].ops
    ensures |run[i].lh| + Unused(run[i].ops) <= LOGSIZE
    ensures |run[i].lh| + MAXOPBLOCKS - |run[i].ops[op]| <= LOGSIZE
  {
    BudgetRunInv(g, run, i);
    var ops := run[i].ops;
    UnusedSplit(ops, op);
    UnusedBounds(ops - {op});
  }

  // ---------------------------------------------------------------- groups that fit

  /** The log lists no more blocks than there are outside it. */
  lemma HomesAreFew(g: Geo, lh: seq<nat>)
    requires g.Valid() && Homes(g, lh) && Distinct(lh)
    ensures |lh| <= g.nblocks - g.size
  {
    var s := seq(|lh|, i requires 0 <= i < |lh| => if lh[i] < g.start then lh[i] else lh[i] - g.size);
    forall i, j | 0 <= i < j < |s|
      ensures s[i] != s[j]
    {
      assert g.Home(lh[i]) && g.Home(lh[j]) && lh[i] != lh[j];
    }
    forall i | 0 <= i < |s|
      ensures s[i] < g.nblocks - g.size
    {
      assert g.Home(lh[i]);
    }
    Pigeonhole(s, g.nblocks - g.size);
  }

  /** A log with a header and no slot never gets past log_write's test. */
  ghost predicate NothingLogged(s: State) {
    s.passed == {} && (Up(s) ==> s.lh == []) && forall op :: op in s.ops ==> s.ops[op] == {}
  }

  lemma NothingKeeps(g: Geo, s: State, s': State, step: Step)
    requires g.size == 1 && OpsInv(s) && NothingLogged(s) && NextStep(g, s, s', step)
    ensures NothingLogged(s')
  {
    match step
    case BeginStep(pid) =>
    case EndStep(op) =>
    case EraseStep(hb) =>
    case _ =>
  }

  lemma NothingNext(g: Geo, run: seq<State>, i: nat)
    requires IsRun(g, run) && i + 1 < |run| && g.size == 1 && NothingLogged(run[i])
    ensures NothingLogged(run[i + 1])
  {
    RunOps(g, run, i);
    assert Next(g, run[i], run[i + 1]);
    var s, s' := run[i], run[i + 1];
    var step :| NextStep(g, s, s', step);
    NothingKeeps(g, s, s', step);
  }

  lemma {:induction false} HeaderOnly(g: Geo, run: seq<State>, i: nat)
    requires IsRun(g, run) && i < |run| && g.size == 1
    ensures NothingLogged(run[i])
  {
    if i > 0 {
      HeaderOnly(g, run, i - 1);
      NothingNext(g, run, i - 1);
    }
  }

  /** Operations in their budgets cannot overfill the log. */
  ghost predicate Ample(g: Geo) {
    g.size >= LOGSIZE || g.size == 1 || g.nblocks < 2 * g.size
  }

  lemma BudgetInvFits(s: State)
    requires BudgetInv(s)
    ensures |s.lh| <= LOGSIZE
  {
    UnusedBounds(s.ops);
  }

  /** A group goes to be committed as the log lists it. */
  lemma LoggingFrom(g: Geo, s: State, s': State, step: Step)
    requires OpsInv(s) && NextStep(g, s, s', step) && s'.phase.Logging?
    ensures s'.lh == s.lh
  {
  }

  lemma AmpleFits(g: Geo, base: Disk, s: State, s': State, step: Step)
    requires Ample(g) && Safe(g, base, s) && NextStep(g, s, s', step) && s'.phase.Logging?
    requires |s.lh| <= LOGSIZE && (g.size == 1 ==> NothingLogged(s'))
    ensures CommitFits(g, s')
  {
    LoggingFrom(g, s, s', step);
    HomesAreFew(g, s.lh);
  }

  lemma {:induction false} BudgetFits(g: Geo, run: seq<State>, i: nat)
    requires BudgetRun(g, run) && i < |run| && Ample(g)
    ensures IsRun(g, run) && GroupsFit(g, run, i)
  {
    BudgetRunIsRun(g, run);
    if i > 0 {
      BudgetFits(g, run, i - 1);
      BudgetRunInv(g, run, i - 1);
      BudgetInvFits(run[i - 1]);
      RunSafe(g, run, i - 1);
      if g.size == 1 { HeaderOnly(g, run, i); }
      assert Next(g, run[i - 1], run[i - 1 + 1]);
      var step :| NextStep(g, run[i - 1], run[i], step);
      if run[i].phase.Logging? {
        AmpleFits(g, Recovered(g, run[0].disk), run[i - 1], run[i], step);
      }
    }
  }

  /** The log is not full while an operation is between its test and its append. */
  ghost predicate RoomKept(g: Geo, s: State) {
    s.phase.Running? ==> Fits(g, s.lh) && (s.passed != {} ==> !LogFull(g, s))
  }

  lemma RoomKeeps(g: Geo, s: State, s': State, step: Step)
    requires g.Valid() && OpsInv(s) && RoomKept(g, s) && |s.passed| <= 1 && CommitFits(g, s)
    requires NextStep(g, s, s', step)
    ensures RoomKept(g, s') && CommitFits(g, s')
  {
    match step
    case AppendStep(op, b, data) => Single(s.passed, op);
    case BeginStep(pid) =>
    case EndStep(op) =>
    case EraseStep(hb) =>
    case FinishStep =>
    case _ =>
  }

  /** Groups fit too, whatever the budgets, if no two operations are ever between test and append. */
  lemma {:induction false} TestedAloneFits(g: Geo, run: seq<State>, i: nat)
    requires IsRun(g, run) && i < |run|
    requires forall k :: 0 <= k < i ==> |run[k].passed| <= 1
    ensures GroupsFit(g, run, i) && RoomKept(g, run[i])
  {
    if i > 0 {
      TestedAloneFits(g, run, i - 1);
      RunOps(g, run, i - 1);
      assert Next(g, run[i - 1], run[i - 1 + 1]);
      var step :| NextStep(g, run[i - 1], run[i], step);
      RoomKeeps(g, run[i - 1], run[i], step);
    }
  }

  lemma Single(s: set<nat>, x: nat)
    requires |s| <= 1 && x in s
    ensures s == {x}
  {
    assert |s - {x}| == 0;
  }

  // ---------------------------------------------------------------- how full the log can get

  /** The i-th block outside the log. */
  function HomeBlock(g: Geo, i: nat): nat {
    if i < g.start then i else i + g.size
  }

  function HomeBlocks(g: Geo, k: nat): seq<nat> {
    seq(k, i requires 0 <= i => HomeBlock(g, i))
  }

  /** How many of k blocks operation op has logged when three operations take turns. */
  function Share(k: nat, op: nat): nat
    requires op < 3
  {
    (k + 2 - op) / 3
  }

  function Blank(g: Geo): Disk {
    seq(g.nblocks, _ => ZERO)
  }

  /** Three operations have between them logged k blocks, those of lh. */
  ghost predicate Shared(ops: map<nat, set<nat>>, lh: seq<nat>, k: nat) {
    && (forall op: nat :: op in ops <==> op < 3)
    && (forall op :: op in ops ==> |ops[op]| == Share(k, op))
    && (forall op, b :: op in ops && b in ops[op] ==> b in lh)
  }

  /** Three operations have been admitted and have logged the first k blocks outside the log. */
  ghost predicate Loaded(g: Geo, s: State, k: nat) {
    && s.phase.Running? && |s.view| == g.nblocks
    && s.lh == HomeBlocks(g, k) && s.outstanding == 3 && Shared(s.ops, s.lh, k)
  }

  /** And nothing is committed yet. */
  ghost predicate Filled(g: Geo, s: State, k: nat) {
    Loaded(g, s, k) && s.disk == Blank(g) && s.durable == []
  }

  ghost predicate FilledRun(g: Geo, run: seq<State>, k: nat) {
    && BudgetRun(g, run) && run[0].disk == Blank(g)
    && Filled(g, run[|run| - 1], k) && run[|run| - 1].passed == {}
  }

  lemma ExtendRun(g: Geo, run: seq<State>, s': State, step: Step)
    requires BudgetRun(g, run) && NextStep(g, run[|run| - 1], s', step) && InBudget(run[|run| - 1], step)
    ensures BudgetRun(g, run + [s'])
  {
    var r := run + [s'];
    forall i | 0 <= i < |r| - 1
      ensures BudgetNext(g, r[i], r[i + 1])
    {
      if i < |run| - 1 {
        assert BudgetNext(g, run[i], run[i + 1]);
      }
    }
  }

  lemma BlankHeader()
    ensures HeaderOk(ZERO) && Header(ZERO) == []
  {
    assert GetWord(ZERO, 0) == 0;
  }

  /** A machine switched on over a blank disk and recovered. */
  lemma Booted(g: Geo) returns (run: seq<State>)
    requires g.Valid()
    ensures BudgetRun(g, run) && run[0].disk == Blank(g)
    ensures run[|run| - 1] == State(Blank(g), Blank(g), [], Running, 0, map[], {}, {}, 0, [], [], [])
  {
    BlankHeader();
    var d := Blank(g);
    var s0 := State(d, d, [], Boot, 0, map[], {}, {}, 0, [], [], []);
    var s1 := s0.(phase := Redo(0));
    var s2 := s1.(phase := Running);
    run := [s0];
    ExtendRun(g, run, s1, ReadHeadStep);
    run := run + [s1];
    assert d[g.start := ZERO] == d;
    assert Erase(g, s1, s2, ZERO);
    ExtendRun(g, run, s2, EraseStep(ZERO));
    run := run + [s2];
  }

  lemma Admitted(g: Geo) returns (run: seq<State>)
    requires g.Valid()
    ensures FilledRun(g, run, 0)
  {
    run := Booted(g);
    var s := run[|run| - 1];
    s := s.(outstanding := 1, ops := map[0 := {}], nextOp := 1);
    ExtendRun(g, run, s, BeginStep(0));
    run := run + [s];
    s := s.(outstanding := 2, ops := map[0 := {}, 1 := {}], nextOp := 2);
    ExtendRun(g, run, s, BeginStep(0));
    run := run + [s];
    s := s.(outstanding := 3, ops := map[0 := {}, 1 := {}, 2 := {}], nextOp := 3);
    ExtendRun(g, run, s, BeginStep(0));
    run := run + [s];
  }

  lemma HomeBlockFresh(g: Geo, k: nat)
    requires g.Valid() && g.size + k < g.nblocks
    ensures g.Home(HomeBlock(g, k)) && HomeBlock(g, k) !in HomeBlocks(g, k)
    ensures Absorb(HomeBlocks(g, k), HomeBlock(g, k)) == HomeBlocks(g, k + 1)
  {
  }

  lemma ShareGrows(k: nat, turn: nat, op: nat)
    requires k < LOGSIZE && turn == k % 3 && op < 3
    ensures Share(k + 1, op) == if op == turn then Share(k, op) + 1 else Share(k, op)
    ensures Share(k, turn) < MAXOPBLOCKS
  {
  }

  /** Each operation's share of the blocks is what it was, and op's is one more. */
  lemma FillShares(ops: map<nat, set<nat>>, lh: seq<nat>, k: nat, op: nat, b: nat)
    requires Shared(ops, lh, k) && k < LOGSIZE && op == k % 3 && op in ops && b !in lh
    ensures |ops[op] + {b}| <= MAXOPBLOCKS
    ensures Shared(ops[op := ops[op] + {b}], lh + [b], k + 1)
  {
    var ops' := ops[op := ops[op] + {b}];
    assert ops'.Keys == ops.Keys;
    assert b !in ops[op] && |ops'[op]| == |ops[op]| + 1;
    forall p | p in ops' ensures |ops'[p]| == Share(k + 1, p) { ShareGrows(k, op, p); }
    ShareGrows(k, op, op);
  }

  ghost function Tested(s: State, op: nat): State {
    s.(passed := s.passed + {op})
  }

  ghost function Appended(s: State, op: nat, b: nat, data: Block): State
    requires op in s.ops && b < |s.view|
  {
    s.(view := s.view[b := data], lh := Absorb(s.lh, b),
       ops := s.ops[op := s.ops[op] + {b}], passed := s.passed - {op},
       pending := s.pending + [Write(op, b, data)], issued := s.issued + [Write(op, b, data)])
  }

  /** The operation whose turn it is has tested, and appends the next block. */
  lemma FillOne(g: Geo, s: State, s': State, k: nat, op: nat, data: Block)
    requires g.Valid() && Loaded(g, s, k) && k < LOGSIZE && g.size + k < g.nblocks && op == k % 3
    requires Append(g, s, s', op, HomeBlock(g, k), data)
    ensures Loaded(g, s', k + 1) && InBudget(s, AppendStep(op, HomeBlock(g, k), data))
  {
    HomeBlockFresh(g, k);
    FillShares(s.ops, s.lh, k, op, HomeBlock(g, k));
  }

  lemma TestOnly(g: Geo, s: State, op: nat)
    requires op in s.ops && op !in s.passed && !LogFull(g, s)
    ensures NextStep(g, s, Tested(s, op), TestStep(op)) && InBudget(s, TestStep(op))
  {
  }

  lemma TestOne(g: Geo, run: seq<State>, k: nat, op: nat) returns (r: seq<State>)
    requires BudgetRun(g, run) && Filled(g, run[|run| - 1], k) && op < 3 && op !in run[|run| - 1].passed
    requires !LogFull(g, run[|run| - 1])
    ensures BudgetRun(g, r) && r[0] == run[0] && Filled(g, r[|r| - 1], k)
    ensures r[|r| - 1].passed == run[|run| - 1].passed + {op}
  {
    var s := run[|run| - 1];
    TestOnly(g, s, op);
    ExtendRun(g, run, Tested(s, op), TestStep(op));
    r := run + [Tested(s, op)];
  }

  lemma AppendOnly(g: Geo, s: State, k: nat, op: nat, data: Block) returns (s': State)
    requires g.Valid() && k < LOGSIZE && g.size + k < g.nblocks && op == k % 3
    requires Filled(g, s, k) && op in s.passed
    ensures NextStep(g, s, s', AppendStep(op, HomeBlock(g, k), data))
    ensures InBudget(s, AppendStep(op, HomeBlock(g, k), data))
    ensures Filled(g, s', k + 1) && s'.passed == s.passed - {op}
    ensures HomeBlock(g, k) < g.nblocks && s'.view[HomeBlock(g, k)] == data
  {
    HomeBlockFresh(g, k);
    s' := Appended(s, op, HomeBlock(g, k), data);
    FillOne(g, s, s', k, op, data);
  }

  lemma AppendOne(g: Geo, run: seq<State>, k: nat, op: nat, data: Block) returns (r: seq<State>)
    requires g.Valid() && k < LOGSIZE && g.size + k < g.nblocks && op == k % 3
    requires BudgetRun(g, run) && Filled(g, run[|run| - 1], k) && op in run[|run| - 1].passed
    ensures BudgetRun(g, r) && r[0] == run[0] && Filled(g, r[|r| - 1], k + 1)
    ensures r[|r| - 1].passed == run[|run| - 1].passed - {op}
    ensures HomeBlock(g, k) < g.nblocks && r[|r| - 1].view[HomeBlock(g, k)] == data
  {
    var s := run[|run| - 1];
    var s' := AppendOnly(g, s, k, op, data);
    ExtendRun(g, run, s', AppendStep(op, HomeBlock(g, k), data));
    r := run + [s'];
  }

  lemma {:induction false} Fill(g: Geo, k: nat) returns (run: seq<State>)
    requires g.Valid() && k <= LOGSIZE && k <= g.size - 1 && g.size + k <= g.nblocks
    ensures FilledRun(g, run, k)
  {
    if k == 0 {
      run := Admitted(g);
    } else {
      run := Fill(g, k - 1);
      run := TestOne(g, run, k - 1, (k - 1) % 3);
      run := AppendOne(g, run, k - 1, (k - 1) % 3, ZERO);
    }
  }

  /** The run keeps every budget and ends with operation op having budget left. */
  ghost predicate BudgetLeft(g: Geo, run: seq<State>, op: nat) {
    && BudgetRun(g, run)
    && op in run[|run| - 1].ops && |run[|run| - 1].ops[op]| < MAXOPBLOCKS
  }

  /** In every run of operations that keep to their budget, one with budget left passes the test. */
  ghost predicate NeverTooBig(g: Geo) {
    forall run: seq<State>, op: nat :: BudgetLeft(g, run, op) ==> !LogFull(g, run[|run| - 1])
  }

  /** What the log of a budget run lists, when no group can overfill it. */
  lemma ListedFew(g: Geo, run: seq<State>)
    requires BudgetRun(g, run) && Ample(g)
    ensures |run[|run| - 1].lh| <= g.nblocks - g.size
  {
    BudgetFits(g, run, |run| - 1);
    RunSafe(g, run, |run| - 1);
    HomesAreFew(g, run[|run| - 1].lh);
  }

  /**
   "too big a transaction" is unreachable for operations with budget left exactly when
   the log has more than LOGSIZE blocks, or more than the rest of the disk could fill.
   mkfs gives it LOGSIZE, one too few.
   */
  lemma NeverTooBigIff(g: Geo)
    requires g.Valid()
    ensures NeverTooBig(g) <==> g.size > LOGSIZE || g.nblocks - g.size < g.size - 1
  {
    if g.size > LOGSIZE || g.nblocks - g.size < g.size - 1 {
      forall run: seq<State>, op: nat | BudgetLeft(g, run, op)
        ensures !LogFull(g, run[|run| - 1])
      {
        AdmissionIsSound(g, run, |run| - 1, op);
        ListedFew(g, run);
      }
    } else {
      var run := Fill(g, g.size - 1);
      assert LogFull(g, run[|run| - 1]);
      assert BudgetLeft(g, run, 2);
    }
  }

  /** The run keeps every budget and ends with the log full and b already logged by op. */
  ghost predicate FullAndLogged(g: Geo, run: seq<State>, op: nat, b: nat) {
    && BudgetRun(g, run)
    && op in run[|run| - 1].ops && b in run[|run| - 1].ops[op]
    && LogFull(g, run[|run| - 1])
  }

  /**
   The size test precedes absorption: rewriting an already logged block, which needs no
   room, can panic in every log that has a slot and a disk large enough to fill it.
   */
  lemma AbsorptionCanPanic(g: Geo)
    requires g.Valid()
    ensures (exists run: seq<State>, op: nat, b: nat :: FullAndLogged(g, run, op, b))
            <==> g.size >= 2 && g.nblocks - g.size >= Min(LOGSIZE, g.size - 1)
  {
    var k := Min(LOGSIZE, g.size - 1);
    if g.size >= 2 && g.nblocks - g.size >= k {
      var run := Fill(g, k);
      var ops := run[|run| - 1].ops;
      assert 0 in ops && |ops[0]| > 0;
      var b :| b in ops[0];
      assert FullAndLogged(g, run, 0, b);
    } else {
      forall run: seq<State>, op: nat, b: nat | BudgetRun(g, run)
        ensures !FullAndLogged(g, run, op, b)
      {
        BudgetRunIsRun(g, run);
        if g.size == 1 {
          HeaderOnly(g, run, |run| - 1);
        } else {
          ListedFew(g, run);
        }
      }
    }
  }
}
