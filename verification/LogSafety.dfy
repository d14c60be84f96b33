/** What the log of log.c guarantees over whole runs, with any number of crashes. */
module LogSafety {
  import opened Common
  import opened Blocks
  import opened LogProtocol

  // ---------------------------------------------------------------- the recovered disk

  /** Redo leaves the log region and unlisted blocks alone. */
  lemma {:induction false} RedoFrame(g: Geo, d: Disk, lh: seq<nat>, t: nat, b: nat)
    requires g.Valid() && |d| == g.nblocks && HomeList(g, lh) && t <= |lh|
    requires b < |d| && b !in lh[..t]
    ensures RedoPrefix(g, d, lh, t)[b] == d[b]
  {
    if t > 0 {
      assert lh[t - 1] in lh[..t];
      RedoFrame(g, d, lh, t - 1, b);
    }
  }

  lemma RedoSlots(g: Geo, d: Disk, lh: seq<nat>, t: nat, i: nat)
    requires g.Valid() && |d| == g.nblocks && HomeList(g, lh) && t <= |lh| && i < |lh|
    ensures RedoPrefix(g, d, lh, t)[g.Slot(i)] == d[g.Slot(i)]
  {
    assert !g.Home(g.Slot(i));
    RedoFrame(g, d, lh, t, g.Slot(i));
  }

  /** Without repetitions every listed block receives its own slot. */
  lemma {:induction false} RedoListed(g: Geo, d: Disk, lh: seq<nat>, t: nat, i: nat)
    requires g.Valid() && |d| == g.nblocks && LhOk(g, lh) && i < t <= |lh|
    ensures RedoPrefix(g, d, lh, t)[lh[i]] == d[g.Slot(i)]
  {
    RedoSlots(g, d, lh, t - 1, t - 1);
    if i < t - 1 {
      RedoListed(g, d, lh, t - 1, i);
    }
  }

  /** Holds pins down what recovery yields ... */
  lemma HoldsDetermines(g: Geo, d: Disk, h: Disk)
    requires Holds(g, d, h)
    ensures SameHome(g, Recovered(g, d), h)
  {
    var lh := Header(d[g.start]);
    forall b: nat | g.Home(b)
      ensures Recovered(g, d)[b] == h[b]
    {
      if b in lh {
        var i :| 0 <= i < |lh| && lh[i] == b;
        RedoListed(g, d, lh, |lh|, i);
      } else {
        assert lh[..|lh|] == lh;
        RedoFrame(g, d, lh, |lh|, b);
      }
    }
  }

  /** ... and a recovered disk is held by the disk it came from. */
  lemma HoldsRecovered(g: Geo, d: Disk)
    requires Recoverable(g, d) && LhOk(g, Header(d[g.start]))
    ensures Holds(g, d, Recovered(g, d))
  {
    var lh := Header(d[g.start]);
    forall i | 0 <= i < |lh|
      ensures d[g.Slot(i)] == Recovered(g, d)[lh[i]]
    {
      RedoListed(g, d, lh, |lh|, i);
    }
    forall b: nat | g.Home(b) && b !in lh
      ensures d[b] == Recovered(g, d)[b]
    {
      assert lh[..|lh|] == lh;
      RedoFrame(g, d, lh, |lh|, b);
    }
  }

  // ---------------------------------------------------------------- whole runs

  lemma InitSafe(g: Geo, s: State)
    requires Init(g, s)
    ensures Recoverable(g, s.disk) && Safe(g, Recovered(g, s.disk), s)
  {
    HoldsRecovered(g, s.disk);
  }

  lemma StepAt(g: Geo, run: seq<State>, i: nat) returns (step: Step)
    requires IsRun(g, run) && i + 1 < |run|
    ensures NextStep(g, run[i], run[i + 1], step)
  {
    assert Next(g, run[i], run[i + 1]);
    step :| NextStep(g, run[i], run[i + 1], step);
  }

  /** Up to state i, every group that went to be committed has room in the log, or leaves its commit no buffer. */
  ghost predicate GroupsFit(g: Geo, run: seq<State>, i: nat) {
    forall k :: 0 <= k <= i && k < |run| ==> CommitFits(g, run[k])
  }

  lemma {:induction false} RunOps(g: Geo, run: seq<State>, i: nat)
    requires IsRun(g, run) && i < |run|
    ensures OpsInv(run[i])
  {
    if i > 0 {
      RunOps(g, run, i - 1);
      assert Next(g, run[i - 1], run[i - 1 + 1]);
      var step :| NextStep(g, run[i - 1], run[i], step);
      OpsInvKeeps(g, run[i - 1], run[i], step);
    }
  }

  lemma RunAdmit(g: Geo, run: seq<State>, i: nat)
    requires IsRun(g, run) && i < |run|
    ensures AdmitInv(run[i])
  {
    RunOps(g, run, i);
  }

  lemma {:induction false} RunSafe(g: Geo, run: seq<State>, i: nat)
    requires IsRun(g, run) && i < |run| && GroupsFit(g, run, i)
    ensures Recoverable(g, run[0].disk)
    ensures Safe(g, Recovered(g, run[0].disk), run[i])
  {
    InitSafe(g, run[0]);
    if i > 0 {
      RunSafe(g, run, i - 1);
      assert Next(g, run[i - 1], run[i - 1 + 1]);
      var step :| NextStep(g, run[i - 1], run[i], step);
      InvKeeps(g, Recovered(g, run[0].disk), run[i - 1], run[i], step);
    }
  }

  /** No step takes a committed group back. */
  lemma DurableStep(g: Geo, s: State, s': State)
    requires Next(g, s, s')
    ensures s.durable <= s'.durable
  {
    var step :| NextStep(g, s, s', step);
  }

  lemma {:induction false} DurableGrows(g: Geo, run: seq<State>, i: nat, j: nat)
    requires IsRun(g, run) && i <= j < |run|
    ensures run[i].durable <= run[j].durable
  {
    if i < j {
      DurableGrows(g, run, i, j - 1);
      assert Next(g, run[j - 1], run[j - 1 + 1]);
      DurableStep(g, run[j - 1], run[j]);
    }
  }

  /** Recovery at state i leaves every home block as the groups committed by then make it. */
  ghost predicate AtomicAt(g: Geo, run: seq<State>, i: nat)
    requires i < |run|
  {
    && Recoverable(g, run[0].disk) && Recoverable(g, run[i].disk)
    && SameHome(g, Recovered(g, run[i].disk), Replay(Recovered(g, run[0].disk), run[i].durable))
  }

  /**
   Crash atomicity. Cut the power at any state of a run whose groups fitted the log:
   recovery leaves every home block with the contents that the groups committed so
   far give it, and the list of committed groups is a prefix of every later one.
   */
  lemma CrashAtomicity(g: Geo, run: seq<State>, i: nat, j: nat)
    requires IsRun(g, run) && i <= j < |run| && GroupsFit(g, run, i)
    ensures AtomicAt(g, run, i)
    ensures run[i].durable <= run[j].durable
  {
    RunSafe(g, run, i);
    HoldsDetermines(g, run[i].disk, Replay(Recovered(g, run[0].disk), run[i].durable));
    DurableGrows(g, run, i, j);
  }

  /** Whenever the file system is up, reads see the committed groups and then the pending writes. */
  lemma ReadsSeeWrites(g: Geo, run: seq<State>, i: nat, b: nat)
    requires IsRun(g, run) && i < |run| && GroupsFit(g, run, i) && Up(run[i]) && g.Home(b)
    ensures Recoverable(g, run[0].disk) && |run[i].view| == g.nblocks
    ensures run[i].view[b] == Apply(Replay(Recovered(g, run[0].disk), run[i].durable), run[i].pending)[b]
  {
    RunSafe(g, run, i);
  }

  /** At rest nothing is waiting for the disk: every write made is committed and installed. */
  lemma QuiescentIsDurable(g: Geo, run: seq<State>, i: nat)
    requires IsRun(g, run) && i < |run| && GroupsFit(g, run, i)
    requires run[i].phase.Running? && run[i].outstanding == 0
    ensures run[i].pending == [] && Recoverable(g, run[0].disk) && |run[i].disk| == g.nblocks
    ensures SameHome(g, run[i].disk, Replay(Recovered(g, run[0].disk), run[i].durable))
  {
    RunSafe(g, run, i);
    var s := run[i];
    assert s.lh == [];
    assert |s.pending| == 0 || s.pending[0].blockno in s.lh;
  }

  /**
   An operation is committed whole or not at all: if a group holds any of its
   writes then the group holds all it ever makes, in order, the operation has
   ended, and no other group names it.
   */
  lemma OperationAtomicity(g: Geo, run: seq<State>, i: nat, j: nat, k: nat, op: nat)
    requires IsRun(g, run) && i <= j < |run|
    requires k < |run[i].durable| && Names(run[i].durable[k], op)
    ensures k < |run[j].durable| && run[j].durable[k] == run[i].durable[k]
    ensures OfOp(run[j].issued, op) == OfOp(run[i].durable[k], op)
    ensures op !in run[j].ops && !Names(run[j].pending, op)
    ensures forall m :: 0 <= m < |run[j].durable| && Names(run[j].durable[m], op) ==> m == k
  {
    DurableGrows(g, run, i, j);
    RunOps(g, run, j);
    assert Names(run[j].durable[k], op);
  }

  // ---------------------------------------------------------------- what a crash goes back to

  /** Up, with no operation in progress. */
  ghost predicate Boundary(s: State) {
    Up(s) && s.ops == map[]
  }

  lemma CommitsAlone(g: Geo, s: State, s': State)
    requires AdmitInv(s) && Next(g, s, s') && s'.durable != s.durable
    ensures Boundary(s) && s'.durable == s.durable + [s.pending]
  {
    var step :| NextStep(g, s, s', step);
  }

  /** A step commits a group only at a boundary, and the group is what was pending there. */
  lemma CommitsAtBoundary(g: Geo, run: seq<State>, i: nat)
    requires IsRun(g, run) && i + 1 < |run| && run[i + 1].durable != run[i].durable
    ensures Boundary(run[i]) && run[i + 1].durable == run[i].durable + [run[i].pending]
  {
    RunAdmit(g, run, i);
    assert Next(g, run[i], run[i + 1]);
    CommitsAlone(g, run[i], run[i + 1]);
  }

  /**
   A crash takes the system back to a moment when no operation was in progress: once
   anything has been committed, recovery yields exactly what programs could read when
   the last committed group was complete.
   */
  lemma {:induction false} RecoversBoundary(g: Geo, run: seq<State>, i: nat) returns (j: nat)
    requires IsRun(g, run) && i < |run| && GroupsFit(g, run, i) && run[i].durable != []
    ensures j < i && Boundary(run[j]) && run[i].durable == run[j].durable + [run[j].pending]
    ensures Recoverable(g, run[i].disk) && |run[j].view| == g.nblocks
    ensures SameHome(g, Recovered(g, run[i].disk), run[j].view)
  {
    CrashAtomicity(g, run, i, i);
    if i > 0 && run[i].durable == run[i - 1].durable {
      j := RecoversBoundary(g, run, i - 1);
      CrashAtomicity(g, run, i - 1, i);
    } else {
      j := i - 1;
      CommitsAtBoundary(g, run, j);
      RunSafe(g, run, j);
      var base := Recovered(g, run[0].disk);
      assert run[i].durable[..|run[i].durable| - 1] == run[j].durable;
      assert Replay(base, run[i].durable) == Apply(Replay(base, run[j].durable), run[j].pending);
    }
  }

  // ---------------------------------------------------------------- recovery interrupted

  /** The slots, and the home blocks that are not listed, are as on d. */
  ghost predicate Outside(g: Geo, d: Disk, e: Disk)
    requires Recoverable(g, d) && |e| == g.nblocks
  {
    var lh := Header(d[g.start]);
    && (forall i :: 0 <= i < |lh| ==> e[g.Slot(i)] == d[g.Slot(i)])
    && (forall b: nat :: g.Home(b) && b !in lh ==> e[b] == d[b])
  }

  lemma OutsideListed(g: Geo, d: Disk, e: Disk, t: nat, x: Block)
    requires Recoverable(g, d) && |e| == g.nblocks && Outside(g, d, e) && t < |Header(d[g.start])|
    ensures g.Home(Header(d[g.start])[t]) && Outside(g, d, e[Header(d[g.start])[t] := x])
  {
  }

  /** States of a machine that is only recovering, d being the disk it was switched on with. */
  ghost predicate Recovering(g: Geo, d: Disk, s: State)
    requires Recoverable(g, d)
  {
    var lh := Header(d[g.start]);
    && |s.disk| == g.nblocks && s.view == s.disk && s.ops == map[]
    && (!s.phase.Running? ==> s.disk[g.start] == d[g.start])
    && Outside(g, d, s.disk)
    && match s.phase
       case Boot => true
       case Redo(t) => t <= |lh| && s.lh == lh && ListedDone(g, d, s.disk, t)
       case Running => ListedDone(g, d, s.disk, |lh|)
       case _ => false
  }

  /** The first t entries of d's header have their final contents in e. */
  ghost predicate ListedDone(g: Geo, d: Disk, e: Disk, t: nat)
    requires Recoverable(g, d) && |e| == |d| && t <= |Header(d[g.start])|
  {
    var lh := Header(d[g.start]);
    forall b: nat :: b in lh[..t] ==> b < |e| && e[b] == RedoPrefix(g, d, lh, t)[b]
  }

  lemma ListedNext(g: Geo, d: Disk, e: Disk, e': Disk, t: nat)
    requires Recoverable(g, d) && |e| == |d| && t < |Header(d[g.start])| && ListedDone(g, d, e, t)
    requires var lh := Header(d[g.start]); lh[t] < |e| && e' == e[lh[t] := d[g.Slot(t)]]
    ensures ListedDone(g, d, e', t + 1)
  {
    var lh := Header(d[g.start]);
    RedoSlots(g, d, lh, t, t);
    forall b: nat | b in lh[..t + 1]
      ensures b < |e'| && e'[b] == RedoPrefix(g, d, lh, t + 1)[b]
    {
      if b != lh[t] {
        assert b in lh[..t];
      }
    }
  }

  /** In a recovering machine, install_trans writes what recovery of d would write. */
  lemma InstallWrites(g: Geo, d: Disk, s: State, s': State)
    requires Recoverable(g, d) && Recovering(g, d, s) && Install(g, s, s')
    ensures s.phase.Redo? && s.phase.tail < |Header(d[g.start])|
    ensures var t := s.phase.tail;
            && g.Home(s.lh[t]) && s'.disk == s.disk[s.lh[t] := d[g.Slot(t)]]
            && s'.view == s'.disk && s'.disk[g.start] == d[g.start]
  {
  }

  lemma RecoveringInstall(g: Geo, d: Disk, s: State, s': State)
    requires Recoverable(g, d) && Recovering(g, d, s) && Install(g, s, s')
    ensures Recovering(g, d, s')
  {
    var t := s.phase.tail;
    InstallWrites(g, d, s, s');
    OutsideListed(g, d, s.disk, t, d[g.Slot(t)]);
    ListedNext(g, d, s.disk, s'.disk, t);
  }

  lemma RecoveringOther(g: Geo, d: Disk, s: State, s': State, step: Step)
    requires Recoverable(g, d) && Recovering(g, d, s) && NextStep(g, s, s', step)
    requires !s.phase.Running? && !step.InstallStep?
    ensures Recovering(g, d, s')
  {
  }

  lemma {:induction false} RecoveringRun(g: Geo, run: seq<State>, i: nat)
    requires |run| > 0 && Recoverable(g, run[0].disk)
    requires run[0].phase.Boot? && run[0].view == run[0].disk && run[0].ops == map[]
    requires forall k :: 0 <= k < |run| - 1 ==> Next(g, run[k], run[k + 1])
    requires forall k :: 0 <= k < |run| - 1 ==> !run[k].phase.Running?
    requires i < |run|
    ensures Recovering(g, run[0].disk, run[i])
  {
    if i > 0 {
      RecoveringRun(g, run, i - 1);
      assert Next(g, run[i - 1], run[i - 1 + 1]);
      var step :| NextStep(g, run[i - 1], run[i], step);
      if step.InstallStep? {
        RecoveringInstall(g, run[0].disk, run[i - 1], run[i]);
      } else {
        RecoveringOther(g, run[0].disk, run[i - 1], run[i], step);
      }
    }
  }

  /**
   Recovery is idempotent: crash it at any block write, any number of times; when
   it finally completes, the home blocks are those of one uninterrupted recovery.
   The listed blocks need only lie outside the log; they may even repeat.
   */
  lemma RecoveryIdempotent(g: Geo, run: seq<State>)
    requires |run| > 0 && Recoverable(g, run[0].disk)
    requires run[0].phase.Boot? && run[0].view == run[0].disk && run[0].ops == map[]
    requires forall k :: 0 <= k < |run| - 1 ==> Next(g, run[k], run[k + 1])
    requires forall k :: 0 <= k < |run| - 1 ==> !run[k].phase.Running?
    requires run[|run| - 1].phase.Running?
    ensures |run[|run| - 1].disk| == g.nblocks
    ensures SameHome(g, run[|run| - 1].disk, Recovered(g, run[0].disk))
  {
    RecoveringRun(g, run, |run| - 1);
    var d, e := run[0].disk, run[|run| - 1].disk;
    var lh := Header(d[g.start]);
    assert lh[..|lh|] == lh;
    forall b: nat | g.Home(b)
      ensures e[b] == Recovered(g, d)[b]
    {
      if b !in lh {
        RedoFrame(g, d, lh, |lh|, b);
      }
    }
  }

  // ---------------------------------------------------------------- admission

  /** end_op never finds a commit in progress, so its panic is unreachable. */
  lemma EndOpNeverPanics(g: Geo, run: seq<State>, i: nat, op: nat)
    requires IsRun(g, run) && i < |run| && op in run[i].ops
    ensures !Committing(run[i]) && run[i].outstanding >= 1
    ensures op !in run[i].passed ==> exists s' :: End(run[i], s', op)
  {
    RunAdmit(g, run, i);
    var s := run[i];
    assert s.ops.Keys != {};
    assert |s.ops| == |s.ops.Keys|;
    var t := s.(outstanding := s.outstanding - 1, ops := s.ops - {op});
    var s' := if t.outstanding == 0
              then t.(phase := if |s.lh| > 0 then Logging(0) else Finishing)
              else t.(waiting := {});
    assert op !in s.passed ==> End(s, s', op);
  }

  /**
   No lost wakeup: a process asleep in begin_op would not be admitted if it ran,
   and there is an operation or a commit still to come that wakes it.
   */
  lemma SleepersAreWoken(g: Geo, run: seq<State>, i: nat)
    requires IsRun(g, run) && i < |run| && run[i].waiting != {}
    ensures
      || Committing(run[i])
      || (|run[i].lh| + (run[i].outstanding + 1) * MAXOPBLOCKS > LOGSIZE && run[i].outstanding > 0)
  {
    RunAdmit(g, run, i);
    var s := run[i];
    if s.ops != map[] {
      assert s.ops.Keys != {};
      assert |s.ops| == |s.ops.Keys|;
    }
  }
}
