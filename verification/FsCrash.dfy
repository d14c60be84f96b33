/** The file system over the log: if operations keep it in order one at a time, it is in order after every crash. */
module FsCrash {
  import opened Common
  import opened Blocks
  import opened LogProtocol
  import opened LogSafety
  import opened LogBudget
  import opened FsLayout
  import opened FsState
  import Fs

  /** v is the file system on disk d: in order, every inode on disk as in memory and with the blocks it needs. */
  ghost predicate OrderedBy(sb: Super, v: View, d: Disk) {
    v.disk == d && FsOk(sb, v) && forall j: nat :: Fs.SteadyAt(sb, v, j)
  }

  ghost predicate InOrder(sb: Super, d: Disk) {
    exists v :: OrderedBy(sb, v, d)
  }

  /** If the file system on d is in order, so it is once ws have been written. */
  ghost predicate KeepsOrder(sb: Super, d: Disk, ws: seq<Write>) {
    InOrder(sb, d) ==> InOrder(sb, Apply(d, ws))
  }

  /** The same blocks with the same contents, whichever operation wrote them. */
  ghost predicate SameWrites(ws: seq<Write>, vs: seq<Write>) {
    |ws| == |vs| && forall k :: 0 <= k < |ws| ==> ws[k].blockno == vs[k].blockno && ws[k].data == vs[k].data
  }

  lemma {:induction false} ApplySame(d: Disk, ws: seq<Write>, vs: seq<Write>)
    requires SameWrites(ws, vs)
    ensures Apply(d, ws) == Apply(d, vs)
  {
    if ws != [] { ApplySame(d, ws[..|ws| - 1], vs[..|vs| - 1]); }
  }

  /** That is what the log_writes of the file system's operations do: they end as they began, with all in order. */
  lemma OperationsKeepOrder(fs: Fs.FileSystem, ws: seq<Write>)
    requires fs.Valid() && fs.Steady() && SameWrites(ws, fs.trace)
    ensures KeepsOrder(fs.sb, fs.start, ws)
  {
    assert OrderedBy(fs.sb, fs.V(), fs.disk);
    ApplySame(fs.start, ws, fs.trace);
    assert fs.disk == Apply(fs.start, fs.trace);
  }

  /** As mkfs lays the disk out, the log lies below the inodes. */
  ghost predicate LogBelow(g: Geo, sb: Super) {
    g.Valid() && sb.Valid() && sb.size == g.nblocks && g.start + g.size <= sb.inodestart
  }

  /** What is in the log's blocks is of no concern to the file system. */
  lemma LogIsApart(g: Geo, sb: Super, v: View, d: Disk, e: Disk)
    requires LogBelow(g, sb) && OrderedBy(sb, v, d) && |d| == |e| == g.nblocks && SameHome(g, d, e)
    ensures OrderedBy(sb, v.(disk := e), e)
  {
    var w := v.(disk := e);
    forall b: nat ensures BitAt(sb, e, w.owner, b) {
      assert BitAt(sb, d, v.owner, b);
      if b < sb.size { BitmapIsMeta(sb, b); assert g.Home(sb.BBlock(b)); }
    }
    forall b: nat ensures b in {} || OwnAt(w, b) {
      assert b in {} || OwnAt(v, b);
      if b in v.owner && v.owner[b].Data? { SameBlocks(g, sb, v, d, e, v.owner[b].inum, v.owner[b].bn); }
    }
    forall i: nat ensures InodeAt(w, i) { assert InodeAt(v, i); }
    forall i: nat, bn: nat ensures MapAt(w, i, bn) {
      assert MapAt(v, i, bn) && InodeAt(v, i);
      if i < sb.ninodes && bn < MAXFILE { SameBlocks(g, sb, v, d, e, i, bn); }
    }
    forall j: nat ensures Fs.SteadyAt(sb, w, j) {
      assert Fs.SteadyAt(sb, v, j);
      if j < sb.ninodes { assert g.Home(sb.IBlock(j)); }
    }
  }

  lemma SameBlocks(g: Geo, sb: Super, v: View, d: Disk, e: Disk, i: nat, bn: nat)
    requires LogBelow(g, sb) && OrderedBy(sb, v, d) && |d| == |e| == g.nblocks && SameHome(g, d, e)
    requires i < sb.ninodes && bn < MAXFILE
    ensures InodeAt(v, i) && |v.inodes[i].addrs| == NDIRECT + 1
    ensures var a := BlockOf(d, v.inodes[i], bn);
            BlockOf(e, v.inodes[i], bn) == a && (bn < v.nb[i] ==> a < |d| && e[a] == d[a])
  {
    assert InodeAt(v, i) && MapAt(v, i, bn);
    var ind, a := v.inodes[i].addrs[NDIRECT], BlockOf(d, v.inodes[i], bn);
    assert MetaAt(sb, v.owner, ind) && MetaAt(sb, v.owner, a);
    if ind != 0 { assert g.Home(ind); }
    if bn < v.nb[i] { assert g.Home(a); }
  }

  lemma StaysInOrder(g: Geo, sb: Super, d: Disk, e: Disk)
    requires LogBelow(g, sb) && InOrder(sb, d) && |d| == |e| == g.nblocks && SameHome(g, d, e)
    ensures InOrder(sb, e)
  {
    var v :| OrderedBy(sb, v, d);
    LogIsApart(g, sb, v, d, e);
    assert OrderedBy(sb, v.(disk := e), e);
  }

  // ---------------------------------------------------------------- from one boundary to the next

  /** What was written from state a to state e. */
  ghost function Since(run: seq<State>, a: nat, e: nat): seq<Write>
    requires a < |run| && e < |run| && |run[a].issued| <= |run[e].issued|
  {
    run[e].issued[|run[a].issued|..]
  }

  /** From a to e, two states with no operation in progress, there was always one in progress. */
  ghost predicate Span(run: seq<State>, a: nat, e: nat) {
    && a < e < |run| && Boundary(run[a]) && Boundary(run[e]) && |run[a].issued| <= |run[e].issued|
    && forall k :: a < k < e ==> run[k].ops != map[]
  }

  /** Whatever is written in between keeps the file system in order. */
  ghost predicate SpansKeepOrder(sb: Super, run: seq<State>, i: nat) {
    forall a: nat, e: nat :: Span(run, a, e) && e <= i ==> KeepsOrder(sb, run[a].view, Since(run, a, e))
  }

  /** While operations run, the view changes by their writes alone. */
  ghost predicate Through(run: seq<State>, a: nat, k: nat) {
    && a < k < |run| && Boundary(run[a]) && (forall m :: a < m <= k ==> run[m].ops != map[])
    && run[a].issued <= run[k].issued && run[k].view == Apply(run[a].view, Since(run, a, k))
  }

  lemma BeginsThrough(g: Geo, run: seq<State>, a: nat)
    requires IsRun(g, run) && a + 1 < |run| && run[a].ops == map[] && run[a + 1].ops != map[]
    ensures Through(run, a, a + 1)
  {
    assert Next(g, run[a], run[a + 1]);
    assert Since(run, a, a + 1) == [];
  }

  /** A step of a running system writes nothing, or one block. */
  lemma RunningWrites(g: Geo, s: State, s': State) returns (ws: seq<Write>)
    requires Next(g, s, s') && s.phase.Running? && Up(s')
    ensures s'.issued == s.issued + ws && s'.view == Apply(s.view, ws) && |ws| <= 1
    ensures ws != [] ==> ws[0].blockno < |s.view|
  {
    var step :| NextStep(g, s, s', step);
    if step.AppendStep? {
      var w := Write(step.op, step.b, step.data);
      ws := [w];
      ApplyAppend(s.view, [], w);
      assert [] + [w] == [w];
    } else {
      ws := [];
    }
  }

  lemma ApplyMore(d: Disk, vs: seq<Write>, ws: seq<Write>)
    requires |ws| <= 1 && (ws != [] ==> ws[0].blockno < |d|)
    ensures Apply(d, vs + ws) == Apply(Apply(d, vs), ws)
  {
    if ws == [] {
      assert vs + ws == vs;
    } else {
      ApplyAppend(d, vs, ws[0]);
      ApplyAppend(Apply(d, vs), [], ws[0]);
      assert ws == [ws[0]] == [] + [ws[0]];
    }
  }

  lemma ThroughMore(g: Geo, run: seq<State>, a: nat, k: nat)
    requires IsRun(g, run) && Through(run, a, k) && k + 1 < |run| && run[k].phase.Running? && Up(run[k + 1])
    ensures run[a].issued <= run[k + 1].issued && run[k + 1].view == Apply(run[a].view, Since(run, a, k + 1))
  {
    assert Next(g, run[k], run[k + 1]);
    var ws := RunningWrites(g, run[k], run[k + 1]);
    assert Since(run, a, k + 1) == Since(run, a, k) + ws;
    ApplyMore(run[a].view, Since(run, a, k), ws);
  }

  /** An operation in progress began at some boundary. */
  lemma {:induction false} ThroughFrom(g: Geo, run: seq<State>, k: nat) returns (a: nat)
    requires IsRun(g, run) && k < |run| && run[k].ops != map[]
    ensures Through(run, a, k)
  {
    RunAdmit(g, run, k);
    if k == 0 || run[k - 1].ops == map[] {
      assert k > 0;
      a := k - 1;
      BeginsThrough(g, run, a);
    } else {
      a := ThroughFrom(g, run, k - 1);
      RunAdmit(g, run, k - 1);
      ThroughMore(g, run, a, k - 1);
    }
  }

  /** What programs read, block by block: the committed groups and then the pending writes. */
  ghost function Meaning(base: Disk, s: State): Disk {
    Apply(Replay(base, s.durable), s.pending)
  }

  lemma ViewIsMeaning(g: Geo, run: seq<State>, i: nat)
    requires IsRun(g, run) && i < |run| && GroupsFit(g, run, i) && Up(run[i])
    ensures Recoverable(g, run[0].disk) && |run[i].view| == g.nblocks
    ensures SameHome(g, run[i].view, Meaning(Recovered(g, run[0].disk), run[i]))
  {
    RunSafe(g, run, i);
  }

  /** Commits do not change it. */
  lemma CommitKeepsMeaning(g: Geo, base: Disk, s: State, s': State)
    requires Next(g, s, s') && Up(s) && Up(s') && s'.issued == s.issued
    ensures Meaning(base, s') == Meaning(base, s)
  {
    var step :| NextStep(g, s, s', step);
    if step.WriteHeadStep? { ReplayAppend(base, s.durable, s.pending); }
  }

  /** A machine that has just come up reads what it read at the last boundary that was committed. */
  lemma ComesUp(g: Geo, sb: Super, run: seq<State>, i: nat) returns (d: Disk)
    requires IsRun(g, run) && i < |run| && GroupsFit(g, run, i) && LogBelow(g, sb)
    requires run[i].phase.Running? && run[i].ops == map[]
    ensures Recoverable(g, run[0].disk) && |run[i].view| == |d| == g.nblocks && SameHome(g, d, run[i].view)
    ensures d == Recovered(g, run[0].disk) || exists j: nat :: j < i && Boundary(run[j]) && d == run[j].view
  {
    RunAdmit(g, run, i);
    QuiescentIsDurable(g, run, i);
    ViewIsMeaning(g, run, i);
    if run[i].durable == [] {
      d := Recovered(g, run[0].disk);
    } else {
      var j := RecoversBoundary(g, run, i);
      d := run[j].view;
      ViewIsMeaning(g, run, j);
      ReplayAppend(Recovered(g, run[0].disk), run[j].durable, run[j].pending);
    }
  }

  /** So the file system is in order whenever no operation is in progress. */
  lemma {:induction false} OrderAtBoundary(g: Geo, sb: Super, run: seq<State>, i: nat)
    requires IsRun(g, run) && i < |run| && GroupsFit(g, run, i) && LogBelow(g, sb) && Boundary(run[i])
    requires Recoverable(g, run[0].disk) && InOrder(sb, Recovered(g, run[0].disk)) && SpansKeepOrder(sb, run, i)
    ensures InOrder(sb, run[i].view)
    decreases i, 1
  {
    assert i > 0;
    var s, s' := run[i - 1], run[i - 1 + 1];
    assert Next(g, s, s');
    RunAdmit(g, run, i - 1);
    if !Up(s) {
      ComesUpInOrder(g, sb, run, i);
    } else if s.ops == map[] {
      OrderAtBoundary(g, sb, run, i - 1);
      ViewIsMeaning(g, run, i - 1);
      ViewIsMeaning(g, run, i);
      IdleIssuesNothing(g, s, s');
      CommitKeepsMeaning(g, Recovered(g, run[0].disk), s, s');
      StaysInOrder(g, sb, s.view, s'.view);
    } else {
      var a := ThroughFrom(g, run, i - 1);
      ThroughMore(g, run, a, i - 1);
      assert Span(run, a, i);
      OrderAtBoundary(g, sb, run, a);
      assert KeepsOrder(sb, run[a].view, Since(run, a, i));
    }
  }

  lemma ComesUpRunning(g: Geo, run: seq<State>, i: nat)
    requires IsRun(g, run) && i + 1 < |run| && !Up(run[i]) && Up(run[i + 1])
    ensures run[i + 1].phase.Running?
  {
    RunAdmit(g, run, i);
    var step := StepAt(g, run, i);
    ErasedRunning(g, run[i], run[i + 1], step);
  }

  lemma ErasedRunning(g: Geo, s: State, s': State, step: Step)
    requires NextStep(g, s, s', step) && AdmitInv(s) && !Up(s) && Up(s')
    ensures s'.phase.Running?
  {
  }

  lemma IdleIssuesNothing(g: Geo, s: State, s': State)
    requires Next(g, s, s') && s.ops == map[]
    ensures s'.issued == s.issued
  {
    var step :| NextStep(g, s, s', step);
  }

  lemma {:induction false} ComesUpInOrder(g: Geo, sb: Super, run: seq<State>, i: nat)
    requires IsRun(g, run) && 0 < i < |run| && GroupsFit(g, run, i) && LogBelow(g, sb) && Boundary(run[i])
    requires Recoverable(g, run[0].disk) && InOrder(sb, Recovered(g, run[0].disk)) && SpansKeepOrder(sb, run, i)
    requires !Up(run[i - 1])
    ensures InOrder(sb, run[i].view)
    decreases i, 0
  {
    ComesUpRunning(g, run, i - 1);
    var d := ComesUp(g, sb, run, i);
    if d != Recovered(g, run[0].disk) {
      var j: nat :| j < i && Boundary(run[j]) && d == run[j].view;
      OrderAtBoundary(g, sb, run, j);
    }
    StaysInOrder(g, sb, d, run[i].view);
  }

  /**
   Cut the power at any state of a run whose groups fitted the log, with any number of
   operations in progress and any block write pending: if what was written between one
   moment without operations and the next kept the file system in order, recovery leaves
   one that is in order. Run one at a time, the operations of module Fs write such things.
   */
  lemma FsSurvivesCrash(g: Geo, sb: Super, run: seq<State>, i: nat)
    requires IsRun(g, run) && i < |run| && GroupsFit(g, run, i) && LogBelow(g, sb) && Recoverable(g, run[0].disk)
    requires InOrder(sb, Recovered(g, run[0].disk)) && SpansKeepOrder(sb, run, i)
    ensures Recoverable(g, run[i].disk) && InOrder(sb, Recovered(g, run[i].disk))
  {
    CrashAtomicity(g, run, i, i);
    var d := Recovered(g, run[0].disk);
    if run[i].durable != [] {
      var j := RecoversBoundary(g, run, i);
      OrderAtBoundary(g, sb, run, j);
      d := run[j].view;
    }
    StaysInOrder(g, sb, d, Recovered(g, run[i].disk));
  }

  /** In particular on a disk as mkfs makes it, and for operations that keep to their budgets. */
  lemma SurvivesInBudget(g: Geo, sb: Super, run: seq<State>, i: nat)
    requires BudgetRun(g, run) && i < |run| && g.size >= LOGSIZE && LogBelow(g, sb) && Recoverable(g, run[0].disk)
    requires InOrder(sb, Recovered(g, run[0].disk)) && SpansKeepOrder(sb, run, i)
    ensures Recoverable(g, run[i].disk) && InOrder(sb, Recovered(g, run[i].disk))
  {
    BudgetFits(g, run, i);
    FsSurvivesCrash(g, sb, run, i);
  }
}
