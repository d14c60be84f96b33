/**
 log_write tests the size of the group before it takes log.lock. Two operations can both
 pass the test when one slot is left, so the group can outgrow a log of LOGSIZE blocks or
 fewer. In one of LOGSIZE blocks the commit then finds no buffer, as many blocks being
 pinned as there are buffers; in a smaller one write_log writes past the log's end before
 anything is committed.
 */
module LogOverrun {
  import opened Common
  import opened Blocks
  import opened LogProtocol
  import opened LogSafety
  import opened LogBudget

  const ONE: Block := ZERO[0 := 1]

  /** Geometries in which operations in their budgets can fill the log and one block more, and commit it. */
  ghost predicate Overfillable(g: Geo) {
    g.Valid() && 2 <= g.size < LOGSIZE && g.start + g.size < g.nblocks && 2 * g.size <= g.nblocks
  }

  /** One slot is left and two operations pass the test. */
  lemma BothTest(g: Geo) returns (run: seq<State>)
    requires g.Valid() && 2 <= g.size <= LOGSIZE && 2 * g.size <= g.nblocks
    ensures BudgetRun(g, run) && run[0].disk == Blank(g) && Filled(g, run[|run| - 1], g.size - 2)
    ensures run[|run| - 1].passed == {(g.size - 2) % 3, (g.size - 1) % 3}
  {
    var k := g.size - 2;
    run := Fill(g, k);
    run := TestOne(g, run, k, k % 3);
    run := TestOne(g, run, k, (k + 1) % 3);
  }

  /** Both append. */
  lemma BothAppend(g: Geo) returns (run: seq<State>)
    requires g.Valid() && 2 <= g.size <= LOGSIZE && 2 * g.size <= g.nblocks
    ensures FilledRun(g, run, g.size)
    ensures HomeBlock(g, g.size - 1) < g.nblocks && run[|run| - 1].view[HomeBlock(g, g.size - 1)] == ONE
  {
    run := BothTest(g);
    run := AppendOne(g, run, g.size - 2, (g.size - 2) % 3, ZERO);
    run := AppendOne(g, run, g.size - 1, (g.size - 1) % 3, ONE);
  }

  /** All end, and the commit of the overfull group begins. */
  lemma AllEnd(g: Geo) returns (run: seq<State>)
    requires g.Valid() && 2 <= g.size <= LOGSIZE && 2 * g.size <= g.nblocks
    ensures BudgetRun(g, run) && run[0].disk == Blank(g) && Overfull(g, run[|run| - 1])
  {
    run := BothAppend(g);
    var s := run[|run| - 1];
    var s0 := s.(outstanding := 2, ops := s.ops - {0}, waiting := {});
    ExtendRun(g, run, s0, EndStep(0));
    run := run + [s0];
    var s1 := s0.(outstanding := 1, ops := s0.ops - {1});
    ExtendRun(g, run, s1, EndStep(1));
    run := run + [s1];
    var s2 := s1.(outstanding := 0, ops := s1.ops - {2}, phase := Logging(0));
    ExtendRun(g, run, s2, EndStep(2));
    run := run + [s2];
  }

  /** A group of as many blocks as the log has is about to be committed, nothing is on disk yet. */
  ghost predicate Overfull(g: Geo, s: State) {
    && s.phase == Logging(0) && g.size > 0 && s.disk == Blank(g) && |s.view| == g.nblocks
    && s.lh == HomeBlocks(g, g.size) && s.durable == []
    && HomeBlock(g, g.size - 1) < g.nblocks && s.view[HomeBlock(g, g.size - 1)] == ONE
  }

  /** The commit of the overfull group has copied t blocks; the last one is yet to go past the log. */
  ghost predicate Spilling(g: Geo, s: State, t: nat) {
    && s.phase == Logging(t) && t <= g.size && g.size > 0 && |s.disk| == |s.view| == g.nblocks
    && s.lh == HomeBlocks(g, g.size) && s.durable == []
    && g.start + g.size < g.nblocks && s.disk[g.start] == ZERO
    && HomeBlock(g, g.size - 1) < g.nblocks
    && (t < g.size ==> s.view[HomeBlock(g, g.size - 1)] == ONE)
    && (t == g.size ==> s.disk[g.start + g.size] == ONE)
  }

  lemma SpillOne(g: Geo, s: State, t: nat) returns (s': State)
    requires Overfillable(g) && t < g.size && Spilling(g, s, t)
    ensures NextStep(g, s, s', WriteLogStep) && Spilling(g, s', t + 1)
  {
    HomeBlockFresh(g, t);
    HomeBlockFresh(g, g.size - 1);
    var b, data := g.Slot(t), s.view[HomeBlock(g, t)];
    s' := s.(disk := s.disk[b := data], view := s.view[b := data], phase := Logging(t + 1));
    assert s.lh[t] == HomeBlock(g, t);
  }

  lemma {:induction false} Spill(g: Geo, t: nat) returns (run: seq<State>)
    requires Overfillable(g) && t <= g.size
    ensures BudgetRun(g, run) && run[0].disk == Blank(g) && Spilling(g, run[|run| - 1], t)
  {
    if t == 0 {
      run := AllEnd(g);
    } else {
      run := Spill(g, t - 1);
      var s' := SpillOne(g, run[|run| - 1], t - 1);
      ExtendRun(g, run, s', WriteLogStep);
      run := run + [s'];
    }
  }

  /**
   In a log of fewer than LOGSIZE blocks, operations that all keep to their budgets can
   change a block behind the log with nothing committed: a crash then leaves it changed.
   */
  lemma UncommittedWriteLeaks(g: Geo) returns (run: seq<State>)
    requires Overfillable(g)
    ensures BudgetRun(g, run) && run[|run| - 1].durable == [] && g.Home(g.start + g.size)
    ensures |run[0].disk| == |run[|run| - 1].disk| == g.nblocks
    ensures run[|run| - 1].disk[g.start + g.size] != run[0].disk[g.start + g.size]
    ensures !AtomicAt(g, run, |run| - 1)
  {
    run := Spill(g, g.size);
    BlankHeader();
    var d := run[|run| - 1].disk;
    assert d[g.start + g.size][0] != ZERO[0];
    if AtomicAt(g, run, |run| - 1) {
      assert Recovered(g, d)[g.start + g.size] == d[g.start + g.size];
    }
  }

  /** Crash atomicity of operations that keep to their budgets. */
  ghost predicate CrashAtomic(g: Geo) {
    forall run: seq<State>, i: nat :: BudgetRun(g, run) && i < |run| ==> AtomicAt(g, run, i)
  }

  /**
   Exactly which logs make operations atomic: those with LOGSIZE blocks or more, those
   with no slot at all, and those larger than everything that could be logged in them.
   */
  lemma CrashAtomicIff(g: Geo)
    requires g.Valid() && g.start + g.size < g.nblocks
    ensures CrashAtomic(g) <==> g.size >= LOGSIZE || g.size == 1 || g.nblocks < 2 * g.size
  {
    if Ample(g) {
      forall run: seq<State>, i: nat | BudgetRun(g, run) && i < |run|
        ensures AtomicAt(g, run, i)
      {
        BudgetFits(g, run, i);
        CrashAtomicity(g, run, i, i);
      }
    } else {
      var run := UncommittedWriteLeaks(g);
    }
  }

  /** The disk that mkfs makes: boot block, super block, LOGSIZE blocks of log, FSSIZE blocks in all. */
  const MKFS := Geo(2, LOGSIZE, 1000)

  /** On it, whatever operations within budget do and wherever the power is cut, recovery is atomic. */
  lemma MkfsIsAtomic(run: seq<State>, i: nat)
    requires BudgetRun(MKFS, run) && i < |run|
    ensures AtomicAt(MKFS, run, i)
  {
    CrashAtomicIff(MKFS);
  }

  /** Although a group there can outgrow the log: its commit stops before the first write to the disk. */
  lemma OverfullStops(g: Geo) returns (run: seq<State>)
    requires g.Valid() && g.size == LOGSIZE && 2 * LOGSIZE <= g.nblocks
    ensures BudgetRun(g, run) && Stuck(run[|run| - 1]) && !Fits(g, run[|run| - 1].lh)
    ensures forall s' :: Next(g, run[|run| - 1], s') ==> s'.disk == run[|run| - 1].disk == run[0].disk
  {
    run := AllEnd(g);
  }
}
