/**
 A group that fits the log, with every operation in its budget, can still fail to commit:
 readers hold buffers outside any operation, and the commit needs one to spare.
 */
module LogReader {
  import opened Common
  import opened Bio
  import opened LogProtocol
  import opened LogBudget
  import opened Log

  /** The log is up with k blocks logged, and nobody uses the cache. */
  ghost predicate Ready(log: Log, k: nat)
    reads log, log.bc
  {
    log.Valid() && log.bc.Idle() && Loaded(log.g, log.Now(), k) && log.Now().passed == {}
  }

  /** Which block of the group can still be got. */
  lemma RoomToRead(log: Log, k: nat, b: nat)
    requires log.Valid() && log.bc.Idle() && Loaded(log.g, log.Now(), k) && k < NBUF && b !in log.lh
    ensures Gettable(log.bc.buf, b) && Unheld(log.bc.buf, b) && b !in Pinned(log.bc.buf)
  {
    var bc := log.bc;
    Reached(log.g, log.run);
    DistinctCard(log.lh);
    SpareIff(bc.buf, bc.disk, bc.view);
    assert Borrowed(bc.buf) == {};
    forall i | 0 <= i < NBUF ensures !bc.buf[i].locked { assert BufOk(bc.buf[i], bc.view); }
    GettableIff(bc.buf, bc.disk, bc.view, b);
  }

  /** log_write of a held buffer with the k-th block by the operation whose turn it is. */
  method LogNext(log: Log, b: nat, k: nat)
    requires log.Valid() && Loaded(log.g, log.Now(), k) && log.Now().passed == {}
    requires k < LOGSIZE - 1 && log.g.size >= LOGSIZE && log.g.size + k < log.g.nblocks && log.g.Valid()
    requires b < NBUF && log.bc.buf[b].locked && log.bc.buf[b].valid
    requires log.bc.buf[b].blockno == HomeBlock(log.g, k) && log.g.Home(HomeBlock(log.g, k))
    modifies log, log.bc
    ensures log.Valid() && Loaded(log.g, log.Now(), k + 1) && log.Now().passed == {}
    ensures log.bc.buf == old(log.bc.buf)[b := old(log.bc.buf)[b].(dirty := true)]
    ensures log.bc.buf[b].blockno < |log.bc.view| && log.bc.view[log.bc.buf[b].blockno] == log.bc.buf[b].data
  {
    ghost var op := k % 3;
    var ok := log.LogTest(op);
    ghost var t := log.Now();
    log.LogAppend(b, op);
    FillOne(log.g, t, log.Now(), k, op, log.bc.buf[b].data);
  }

  /** bread, log_write and brelse of one more block. */
  method LoadOne(log: Log, k: nat)
    requires Ready(log, k) && k < LOGSIZE - 1 && log.g.size >= LOGSIZE && log.g.size + k < log.g.nblocks
    modifies log, log.bc
    ensures Ready(log, k + 1)
  {
    Reached(log.g, log.run);
    HomeBlockFresh(log.g, k);
    RoomToRead(log, k, HomeBlock(log.g, k));
    var b := log.bc.Bread(HomeBlock(log.g, k));
    LogNext(log, b.value, k);
    var done := log.bc.Brelse(b.value);
  }

  lemma ThreeBegun(g: Geo, s: State, s1: State, s2: State, s3: State)
    requires s.phase.Running? && s.lh == [] && s.ops == map[] && s.outstanding == 0 && s.nextOp == 0
    requires |s.view| == g.nblocks
    requires Begin(s, s1, 0) && Begin(s1, s2, 0) && Begin(s2, s3, 0)
    ensures Loaded(g, s3, 0) && s3.passed == s.passed
  {
    assert s3.ops == map[0 := {}, 1 := {}, 2 := {}];
  }

  /** Switch on over a blank disk and recover. */
  method Boot(g: Geo) returns (log: Log)
    requires g.Valid()
    ensures fresh(log) && fresh(log.bc) && log.g == g && log.Valid() && log.bc.Idle()
    ensures log.Now() == State(log.bc.disk, log.bc.view, [], Running, 0, map[], {}, {}, 0, [], [], [])
    ensures |log.bc.view| == g.nblocks
  {
    BlankHeader();
    log := new Log(g, Blank(g));
    var ok := log.RecoverFromLog();
    Reached(g, log.run);
  }

  /** And admit three operations. */
  method Start(g: Geo) returns (log: Log)
    requires g.Valid()
    ensures fresh(log) && fresh(log.bc) && log.g == g && Ready(log, 0)
  {
    log := Boot(g);
    ghost var s := log.Now();
    var a := log.BeginOp(0);
    ghost var s1 := log.Now();
    a := log.BeginOp(0);
    ghost var s2 := log.Now();
    a := log.BeginOp(0);
    ThreeBegun(g, s, s1, s2, log.Now());
  }

  /** A reader gets the last spare buffer. */
  method ReadLast(log: Log)
    requires Ready(log, NBUF - 1) && log.g.Valid() && log.g.size + NBUF <= log.g.nblocks
    modifies log.bc
    ensures log.Valid() && log.Now() == old(log.Now())
    ensures Apart(log.g, log.bc.buf, log.lh) && |Borrowed(log.bc.buf)| > 0
  {
    var b := HomeBlock(log.g, NBUF - 1);
    HomeBlockFresh(log.g, NBUF - 1);
    RoomToRead(log, NBUF - 1, b);
    forall i | 0 <= i < NBUF ensures !log.bc.buf[i].locked { assert BufOk(log.bc.buf[i], log.bc.view); }
    var x := log.bc.Bread(b);
    assert x.value in Borrowed(log.bc.buf);
  }

  /** All three operations end. */
  method EndAll(log: Log) returns (ok: bool)
    requires log.Valid() && Loaded(log.g, log.Now(), NBUF - 1) && log.Now().passed == {} && log.g.size >= LOGSIZE
    requires Apart(log.g, log.bc.buf, log.lh) && |Borrowed(log.bc.buf)| > 0
    modifies log, log.bc
    ensures log.Valid() && !ok && |log.lh| < NBUF && Fits(log.g, log.lh)
  {
    ok := log.EndOp(0);
    ok := log.EndOp(1);
    ok := log.EndOp(2);
  }

  /**
   Twenty-nine blocks logged by three operations, none over its budget, in a log they fit:
   with one clean buffer held by a reader, the last end_op panics.
   */
  method ReaderStopsCommit(g: Geo) returns (log: Log, ok: bool)
    requires g.Valid() && g.size >= LOGSIZE && g.size + NBUF <= g.nblocks
    ensures fresh(log) && log.g == g && log.Valid()
    ensures !ok && |log.lh| < NBUF && Fits(g, log.lh)
  {
    log := Start(g);
    var k := 0;
    while k < LOGSIZE - 1
      invariant 0 <= k <= LOGSIZE - 1 && log.g == g && Ready(log, k)
      invariant fresh(log) && fresh(log.bc)
    {
      LoadOne(log, k);
      k := k + 1;
    }
    ReadLast(log);
    ok := EndAll(log);
  }
}
