/**
 log.c itself, over the buffer cache. Each method only takes steps of LogProtocol:
 the ghost field run records them, so everything LogSafety proves of runs holds of
 every disk state these methods pass through, also when one stops in a panic.
 */
module Log {
  import opened Common
  import opened Blocks
  import opened Bio
  import opened LogProtocol
  import opened LogSafety

  /** The header block that write_head builds from lh over old contents b. */
  method EncodeHeader(b: Block, lh: seq<nat>) returns (r: Block)
    requires |lh| <= LOGSIZE && forall i :: 0 <= i < |lh| ==> lh[i] < WRAP
    ensures HeaderOk(r) && Header(r) == lh
    ensures GetWord(r, 0) == |lh| && forall j :: 0 <= j < |lh| ==> GetWord(r, j + 1) == lh[j]
    ensures forall k :: 4 * (|lh| + 1) <= k < BSIZE ==> r[k] == b[k]
  {
    r := PutWord(b, 0, |lh|);
    GetPutWord(b, 0, |lh|, 0);
    var i := 0;
    while i < |lh|
      invariant 0 <= i <= |lh|
      invariant GetWord(r, 0) == |lh|
      invariant forall j :: 0 <= j < i ==> GetWord(r, j + 1) == lh[j]
      invariant forall k :: 4 * (|lh| + 1) <= k < BSIZE ==> r[k] == b[k]
    {
      ghost var r0 := r;
      r := PutWord(r, i + 1, lh[i]);
      forall j | 0 <= j <= i + 1
        ensures GetWord(r, j) == if j == i + 1 then lh[i] else GetWord(r0, j)
      {
        GetPutWord(r0, i + 1, lh[i], j);
      }
      i := i + 1;
    }
  }

  /** read_head's copy of the listed block numbers. */
  method DecodeHeader(b: Block) returns (lh: seq<nat>)
    requires HeaderOk(b)
    ensures lh == Header(b)
    ensures |lh| == GetWord(b, 0) < WORDS && forall j :: 0 <= j < |lh| ==> lh[j] == GetWord(b, j + 1)
  {
    lh := [];
    var i := 0;
    while i < GetWord(b, 0)
      invariant 0 <= i <= GetWord(b, 0)
      invariant lh == Header(b)[..i]
    {
      lh := lh + [GetWord(b, i + 1)];
      i := i + 1;
    }
  }

  /** What the phases need to know of a reachable state. */
  lemma Reached(g: Geo, run: seq<State>)
    requires IsRun(g, run) && GroupsFit(g, run, |run| - 1)
    ensures var s := run[|run| - 1];
            && g.Valid() && |s.disk| == |s.view| == g.nblocks && Homes(g, s.lh) && Distinct(s.lh)
            && (s.phase.Running? || Stuck(s) || Fits(g, s.lh)) && (s.lh != [] ==> g.size >= 2)
            && HeaderOk(s.disk[g.start]) && HomeList(g, Header(s.disk[g.start]))
            && (s.phase.Boot? ==> s.view == s.disk)
            && (s.ops != map[] ==> s.phase.Running?)
            && (s.phase.Running? && s.ops == map[] ==> s.lh == [])
            && s.outstanding == |s.ops|
  {
    RunSafe(g, run, |run| - 1);
  }

  lemma Extend(g: Geo, run: seq<State>, s': State, step: Step)
    requires IsRun(g, run) && NextStep(g, run[|run| - 1], s', step)
    requires GroupsFit(g, run, |run| - 1) && CommitFits(g, s')
    ensures IsRun(g, run + [s']) && GroupsFit(g, run + [s'], |run|)
  {
    var r := run + [s'];
    forall i | 0 <= i < |r| - 1
      ensures Next(g, r[i], r[i + 1])
    {
      if i < |run| - 1 {
        assert Next(g, run[i], run[i + 1]);
      }
    }
  }

  /** A run that starts recovering in state i and ends Running without a commit in between. */
  lemma RecoveredBy(g: Geo, run: seq<State>, i: nat)
    requires IsRun(g, run) && GroupsFit(g, run, |run| - 1) && i < |run| && run[|run| - 1].phase.Running?
    requires run[i].durable == run[|run| - 1].durable && run[|run| - 1].ops == map[]
    ensures Recoverable(g, run[i].disk) && |run[|run| - 1].disk| == g.nblocks
    ensures SameHome(g, run[|run| - 1].disk, Recovered(g, run[i].disk))
  {
    CrashAtomicity(g, run, i, i);
    RunSafe(g, run, |run| - 1);
    QuiescentIsDurable(g, run, |run| - 1);
  }

  /** Blocks still pinned in the cache when the log is in state s. */
  ghost function StillPinned(s: State): set<nat> {
    if s.phase.Installing? && s.phase.tail <= |s.lh| then Elems(s.lh[s.phase.tail..])
    else if Up(s) then Elems(s.lh)
    else {}
  }

  /** While the log lists lh, no other process uses its region or holds a listed block. */
  ghost predicate Apart(g: Geo, buf: seq<Buf>, lh: seq<nat>) {
    forall i :: 0 <= i < |buf| && buf[i].dev == 1 ==>
      && (buf[i].refcnt > 0 ==> !(g.start <= buf[i].blockno < g.start + g.size))
      && (buf[i].locked ==> buf[i].blockno !in lh)
  }

  lemma ApartKept(g: Geo, before: seq<Buf>, after: seq<Buf>, disk: Disk, view: Disk, lh: seq<nat>)
    requires Apart(g, before, lh) && SameUsers(before, after) && CacheOk(after, disk, view)
    ensures Apart(g, after, lh)
  {
    forall i | 0 <= i < |after| && after[i].dev == 1
      ensures after[i].refcnt > 0 ==> !(g.start <= after[i].blockno < g.start + g.size)
      ensures after[i].locked ==> after[i].blockno !in lh
    {
      assert UserKept(before[i], after[i]) && BufOk(after[i], view);
    }
  }

  lemma UsersTrans(a: seq<Buf>, b: seq<Buf>, c: seq<Buf>)
    requires SameUsers(a, b) && SameUsers(b, c)
    ensures SameUsers(a, c)
  {
    forall i | 0 <= i < |a|
      ensures UserKept(a[i], c[i])
    {
      assert UserKept(a[i], b[i]) && UserKept(b[i], c[i]);
    }
  }

  /** Every buffer that nobody used is unused still. */
  lemma IdleKept(before: seq<Buf>, after: seq<Buf>)
    requires SameUsers(before, after) && forall i :: 0 <= i < |before| ==> before[i].refcnt == 0
    ensures forall i :: 0 <= i < |after| ==> after[i].refcnt == 0
  {
    forall i | 0 <= i < |after| ensures after[i].refcnt == 0 { assert UserKept(before[i], after[i]); }
  }

  /** In a cache that nobody uses and nothing pins, any two blocks can be got. */
  lemma IdleRoomy(buf: seq<Buf>, home: nat)
    requires |buf| == NBUF && (forall i :: 0 <= i < NBUF ==> buf[i].refcnt == 0) && Pinned(buf) == {}
    ensures Roomy(buf, home)
  {
    DirtyPinned(buf);
    assert Recyclable(buf[0]) && Recyclable(buf[1]);
  }

  lemma DirtyPinned(buf: seq<Buf>)
    ensures forall i :: 0 <= i < |buf| && buf[i].dirty ==> buf[i].blockno in Pinned(buf)
  {
  }

  lemma TailPinned(lh: seq<nat>, tail: nat)
    requires Distinct(lh) && tail < |lh|
    ensures Elems(lh[tail + 1..]) == Elems(lh[tail..]) - {lh[tail]}
  {
    assert lh[tail..] == [lh[tail]] + lh[tail + 1..];
  }

  lemma AbsorbElems(lh: seq<nat>, b: nat)
    ensures Elems(Absorb(lh, b)) == Elems(lh) + {b}
  {
  }

  class Log {
    const g: Geo
    const bc: Bcache
    var lh: seq<nat>
    var outstanding: int
    var committing: bool
    ghost var run: seq<State>

    ghost predicate Valid()
      reads this, bc
    {
      && bc.Valid() && IsRun(g, run) && GroupsFit(g, run, |run| - 1)
      && var s := run[|run| - 1];
         && s.disk == bc.disk && s.view == bc.view
         && s.lh == lh && s.outstanding == outstanding && Committing(s) == committing
         && Pinned(bc.buf) == StillPinned(s)
    }

    ghost function Now(): State
      requires |run| > 0
      reads this
    {
      run[|run| - 1]
    }

    /** Power on over disk d. */
    constructor (geo: Geo, d: Disk)
      requires Recoverable(geo, d) && Distinct(Header(d[geo.start]))
      ensures Valid() && fresh(bc) && bc.Idle() && bc.disk == d && g == geo
      ensures |run| == 1 && Now().phase.Boot?
    {
      g := geo;
      bc := new Bcache(d);
      lh, outstanding, committing := [], 0, false;
      run := [State(d, d, [], Boot, 0, map[], {}, {}, 0, [], [], [])];
      new;
      assert Pinned(bc.buf) == {};
    }

    /** Record a step the code has just taken. */
    ghost method Take(s': State, step: Step)
      requires IsRun(g, run) && NextStep(g, Now(), s', step)
      requires GroupsFit(g, run, |run| - 1) && CommitFits(g, s')
      modifies this`run
      ensures IsRun(g, run) && run == old(run) + [s'] && GroupsFit(g, run, |run| - 1)
    {
      Extend(g, run, s', step);
      run := run + [s'];
    }

    /** The cache as a commit or a recovery needs it: the others apart, and a buffer to spare. */
    ghost predicate Workable()
      reads this, bc
    {
      Apart(g, bc.buf, lh) && Spare(bc.buf)
    }

    /** What the cache can give a commit, counted. */
    lemma RoomForCommit()
      requires Valid() && Now().phase.Logging?
      ensures Spare(bc.buf) <==> |lh| + |Borrowed(bc.buf)| < NBUF
    {
      Reached(g, run);
      DistinctCard(lh);
      SpareIff(bc.buf, bc.disk, bc.view);
    }

    /** One iteration of write_log. */
    method LogBlock(tail: nat) returns (ok: bool)
      requires Valid() && Apart(g, bc.buf, lh) && tail < |lh| && Now().phase == Logging(tail)
      modifies this`run, bc
      ensures Valid() && old(run) <= run
      ensures ok <==> Spare(old(bc.buf))
      ensures ok ==> Workable() && SameUsers(old(bc.buf), bc.buf)
      ensures ok ==> Now() == old(Now()).(disk := bc.disk, view := bc.view, phase := Logging(tail + 1))
    {
      Reached(g, run);
      assert g.Home(lh[tail]) && !g.Home(g.start + tail + 1);
      RoomForCommit();
      ghost var s := Now();
      ok := bc.CopyBlock(g.start + tail + 1, lh[tail], true);
      if ok {
        ApartKept(g, old(bc.buf), bc.buf, bc.disk, bc.view, lh);
        Take(s.(disk := bc.disk, view := bc.view, phase := Logging(tail + 1)), WriteLogStep);
      }
    }

    /** write_log: every listed block goes from the cache to its slot. */
    method WriteLog() returns (ok: bool)
      requires Valid() && Apart(g, bc.buf, lh) && Now().phase == Logging(0) && |lh| > 0
      modifies this`run, bc
      ensures Valid() && old(run) <= run
      ensures ok <==> Spare(old(bc.buf))
      ensures ok ==> Workable() && SameUsers(old(bc.buf), bc.buf)
      ensures ok ==> Now() == old(Now()).(disk := bc.disk, view := bc.view, phase := Logging(|lh|))
    {
      var tail := 0;
      while tail < |lh|
        invariant 0 <= tail <= |lh| && Valid() && Apart(g, bc.buf, lh) && old(run) <= run
        invariant SameUsers(old(bc.buf), bc.buf)
        invariant if tail == 0 then bc.buf == old(bc.buf) else Spare(bc.buf) && Spare(old(bc.buf))
        invariant Now() == old(Now()).(disk := bc.disk, view := bc.view, phase := Logging(tail))
      {
        ghost var before := bc.buf;
        ok := LogBlock(tail);
        if !ok { return false; }
        UsersTrans(old(bc.buf), before, bc.buf);
        tail := tail + 1;
      }
      return true;
    }

    /** The cache can give install_trans the slot and the home of a block, which are apart. */
    lemma RoomToInstall(tail: nat)
      requires Valid() && Workable() && tail < |lh|
      requires Now().phase == Installing(tail) || (Now().phase == Redo(tail) && bc.Idle())
      ensures Distinct(lh) && g.Slot(tail) < |bc.disk| && lh[tail] < |bc.disk| && g.Slot(tail) != lh[tail]
      ensures Unused(bc.buf, g.Slot(tail)) && g.Slot(tail) !in Pinned(bc.buf) && Unheld(bc.buf, lh[tail])
      ensures Roomy(bc.buf, lh[tail])
    {
      Reached(g, run);
      assert g.Home(lh[tail]) && !g.Home(g.start + tail + 1);
      if Now().phase.Redo? {
        IdleRoomy(bc.buf, lh[tail]);
      } else {
        assert lh[tail] in lh[tail..];
        assert lh[tail] in Pinned(bc.buf);
      }
    }

    /** The copying of one logged block to its home. */
    method CopyHome(tail: nat) returns (ok: bool)
      requires Valid() && Workable() && tail < |lh|
      requires Now().phase == Installing(tail) || (Now().phase == Redo(tail) && bc.Idle())
      modifies bc
      ensures ok && bc.Valid() && Distinct(lh) && Workable() && SameUsers(old(bc.buf), bc.buf)
      ensures lh[tail] < |old(bc.disk)| == |old(bc.view)| && g.Slot(tail) < |old(bc.view)|
      ensures bc.disk == old(bc.disk)[lh[tail] := old(bc.view)[g.Slot(tail)]]
      ensures bc.view == old(bc.view)[lh[tail] := old(bc.view)[g.Slot(tail)]]
      ensures Pinned(bc.buf) == Pinned(old(bc.buf)) - {lh[tail]}
    {
      RoomToInstall(tail);
      ok := bc.CopyBlock(g.start + tail + 1, lh[tail], false);
      ApartKept(g, old(bc.buf), bc.buf, bc.disk, bc.view, lh);
    }

    /** One iteration of install_trans. */
    method InstallBlock(tail: nat) returns (ok: bool)
      requires Valid() && Workable() && tail < |lh|
      requires Now().phase == Installing(tail) || (Now().phase == Redo(tail) && bc.Idle())
      modifies this`run, bc
      ensures ok && Valid() && old(run) <= run && Workable() && SameUsers(old(bc.buf), bc.buf)
      ensures Now() == old(Now()).(disk := bc.disk, view := bc.view, phase := Advance(old(Now()).phase))
    {
      ghost var s := Now();
      ok := CopyHome(tail);
      Take(s.(disk := bc.disk, view := bc.view, phase := Advance(s.phase)), InstallStep);
      TailPinned(lh, tail);
    }

    /** install_trans: every committed block goes from its slot to its home, in commit or in recovery. */
    method InstallTrans() returns (ok: bool)
      requires Valid() && Workable()
      requires Now().phase == Installing(0) || (Now().phase == Redo(0) && bc.Idle())
      modifies this`run, bc
      ensures ok && Valid() && old(run) <= run && Workable() && SameUsers(old(bc.buf), bc.buf)
      ensures Now() == old(Now()).(disk := bc.disk, view := bc.view,
                                   phase := if old(Now()).phase.Redo? then Redo(|lh|) else Installing(|lh|))
    {
      var tail := 0;
      while tail < |lh|
        invariant 0 <= tail <= |lh| && Valid() && Workable() && old(run) <= run
        invariant SameUsers(old(bc.buf), bc.buf)
        invariant Now() == old(Now()).(disk := bc.disk, view := bc.view,
                                       phase := if old(Now()).phase.Redo? then Redo(tail) else Installing(tail))
      {
        ghost var before := bc.buf;
        if Now().phase.Redo? { IdleKept(old(bc.buf), bc.buf); }
        ok := InstallBlock(tail);
        UsersTrans(old(bc.buf), before, bc.buf);
        tail := tail + 1;
      }
      return true;
    }

    /** Write the in-memory header to its block, which is then hb. */
    method WriteHead() returns (ok: bool, hb: Block)
      requires bc.Valid() && g.start < |bc.disk| && |lh| <= LOGSIZE
      requires Unused(bc.buf, g.start) && g.start !in Pinned(bc.buf)
      requires forall i :: 0 <= i < |lh| ==> lh[i] < WRAP
      modifies bc
      ensures bc.Valid()
      ensures ok <==> Spare(old(bc.buf))
      ensures !ok ==> bc.disk == old(bc.disk) && bc.view == old(bc.view) && Pinned(bc.buf) == Pinned(old(bc.buf))
      ensures ok ==>
                && SameUsers(old(bc.buf), bc.buf) && Spare(bc.buf)
                && HeaderOk(hb) && Header(hb) == lh && |old(bc.view)| == |old(bc.disk)|
                && bc.disk == old(bc.disk)[g.start := hb] && bc.view == old(bc.view)[g.start := hb]
                && Pinned(bc.buf) == Pinned(old(bc.buf))
    {
      hb := ZERO;
      assert forall i :: 0 <= i < NBUF ==> BufOk(bc.buf[i], bc.view);
      GettableIff(bc.buf, bc.disk, bc.view, g.start);
      var b := bc.Bread(g.start);
      if b.None? { return false, hb; }
      hb := EncodeHeader(bc.buf[b.value].data, lh);
      bc.Store(b.value, hb);
      ok := bc.Bwrite(b.value);
      var done := bc.Brelse(b.value);
      assert Recyclable(bc.buf[b.value]);
    }

    /** write_head in commit. */
    method WriteCommitHead() returns (ok: bool)
      requires Valid() && Workable() && Now().phase == Logging(|lh|)
      modifies this`run, bc
      ensures ok && Valid() && old(run) <= run && Workable() && SameUsers(old(bc.buf), bc.buf)
      ensures Now() == old(Now()).(disk := bc.disk, view := bc.view, phase := Installing(0), pending := [],
                                   durable := old(Now()).durable + [old(Now()).pending])
    {
      Reached(g, run);
      assert !g.Home(g.start);
      forall i | 0 <= i < |lh| ensures g.Home(lh[i]) { }
      ghost var s := Now();
      var hb;
      ok, hb := WriteHead();
      ApartKept(g, old(bc.buf), bc.buf, bc.disk, bc.view, lh);
      ghost var s' := s.(disk := bc.disk, view := bc.view, phase := Installing(0), pending := [],
                         durable := s.durable + [s.pending]);
      Take(s', WriteHeadStep(hb));
      assert lh[0..] == lh;
    }

    /** log.lh.n = 0; write_head(). */
    method EraseHead() returns (ok: bool)
      requires Valid() && Workable() && (Now().phase == Installing(|lh|) || Now().phase == Redo(|lh|))
      modifies this`run, this`lh, bc
      ensures ok && Valid() && old(run) <= run && SameUsers(old(bc.buf), bc.buf)
      ensures lh == []
      ensures Now() == old(Now()).(disk := bc.disk, view := bc.view, lh := [],
                                   phase := if old(Now()).phase.Redo? then Running else Finishing)
    {
      Reached(g, run);
      ghost var s := Now();
      assert Pinned(bc.buf) == {};
      lh := [];
      var hb;
      ok, hb := WriteHead();
      ghost var s' := s.(disk := bc.disk, view := bc.view, lh := [],
                         phase := if s.phase.Redo? then Running else Finishing);
      Take(s', EraseStep(hb));
    }

    /** commit once the blocks are in the log: the commit point, the copying home and the erasing. */
    method CommitLogged() returns (ok: bool)
      requires Valid() && Workable() && Now().phase == Logging(|lh|)
      modifies this`run, this`lh, bc
      ensures ok && Valid() && old(run) <= run && SameUsers(old(bc.buf), bc.buf) && lh == []
      ensures Now() == old(Now()).(disk := bc.disk, view := bc.view, lh := [], phase := Finishing, pending := [],
                                   durable := old(Now()).durable + [old(Now()).pending])
    {
      ghost var u0 := bc.buf;
      ok := WriteCommitHead();
      ghost var u1 := bc.buf;
      ok := InstallTrans();
      UsersTrans(u0, u1, bc.buf);
      ghost var u2 := bc.buf;
      ok := EraseHead();
      UsersTrans(u0, u2, bc.buf);
    }

    /**
     commit(): the pending writes become one durable group. It fails exactly when the
     group and the clean buffers that other processes use take up the whole cache.
     */
    method Commit() returns (ok: bool)
      requires Valid() && Apart(g, bc.buf, lh)
      requires Now().phase == if |lh| > 0 then Logging(0) else Finishing
      modifies this`run, this`lh, bc
      ensures Valid() && old(run) <= run
      ensures ok <==> |old(lh)| == 0 || |old(lh)| + |Borrowed(old(bc.buf))| < NBUF
      ensures !ok ==> lh == old(lh)
      ensures ok ==>
                && SameUsers(old(bc.buf), bc.buf) && lh == []
                && Now() == old(Now()).(disk := bc.disk, view := bc.view, lh := [], phase := Finishing,
                     pending := if |old(lh)| > 0 then [] else old(Now()).pending,
                     durable := old(Now()).durable + if |old(lh)| > 0 then [old(Now()).pending] else [])
    {
      if |lh| > 0 {
        RoomForCommit();
        ghost var u0 := bc.buf;
        ok := WriteLog();
        if ok {
          ghost var u1 := bc.buf;
          ok := CommitLogged();
          UsersTrans(u0, u1, bc.buf);
        }
      } else {
        assert old(Now()).durable + [] == old(Now()).durable;
        ok := true;
      }
    }

    /** bread and brelse of the header block, with nobody else in the cache. */
    method FetchHead() returns (data: Block)
      requires bc.Valid() && bc.Idle() && g.start < |bc.disk| && Pinned(bc.buf) == {}
      modifies bc
      ensures bc.Valid() && bc.Idle() && Pinned(bc.buf) == {} && Spare(bc.buf)
      ensures bc.disk == old(bc.disk) && bc.view == old(bc.view) && g.start < |bc.view| && data == bc.view[g.start]
    {
      assert forall i :: 0 <= i < NBUF ==> BufOk(bc.buf[i], bc.view);
      IdleRoomy(bc.buf, g.start);
      GettableIff(bc.buf, bc.disk, bc.view, g.start);
      var b := bc.Bread(g.start);
      data := bc.buf[b.value].data;
      var done := bc.Brelse(b.value);
      assert Recyclable(bc.buf[b.value]);
    }

    method ReadHead()
      requires Valid() && bc.Idle() && Now().phase.Boot?
      modifies this`run, this`lh, bc
      ensures Valid() && old(run) <= run && bc.Idle() && Workable()
      ensures Now() == old(Now()).(phase := Redo(0), lh := lh) && bc.disk == old(bc.disk)
      ensures g.start < |bc.disk| && HeaderOk(bc.disk[g.start]) && lh == Header(bc.disk[g.start])
    {
      Reached(g, run);
      ghost var s := Now();
      var data := FetchHead();
      lh := DecodeHeader(data);
      assert forall i :: 0 <= i < NBUF ==> BufOk(bc.buf[i], bc.view);
      Take(s.(phase := Redo(0), lh := lh), ReadHeadStep);
    }

    /** recover_from_log, before any other process runs: brings the file system up over whatever a crash left. */
    method RecoverFromLog() returns (ok: bool)
      requires Valid() && bc.Idle() && Now().phase.Boot?
      modifies this`run, this`lh, bc
      ensures ok && Valid() && old(run) <= run && bc.Idle()
      ensures Now() == old(Now()).(disk := bc.disk, view := bc.view, lh := [], phase := Running)
      ensures Recoverable(g, old(bc.disk)) && |bc.disk| == g.nblocks
      ensures SameHome(g, bc.disk, Recovered(g, old(bc.disk)))
    {
      ghost var i := |run| - 1;
      ghost var d := bc.disk;
      Reached(g, run);
      ReadHead();
      ghost var u0 := bc.buf;
      ok := InstallTrans();
      ghost var u1 := bc.buf;
      ok := EraseHead();
      UsersTrans(u0, u1, bc.buf);
      IdleKept(u0, bc.buf);
      RecoveredBy(g, run, i);
    }

    /** One pass of begin_op's loop: process pid starts an operation or goes to sleep on &log. */
    method BeginOp(pid: nat) returns (admitted: bool)
      requires Valid() && Up(Now())
      modifies this`run, this`outstanding
      ensures Valid() && run == old(run) + [Now()] && Begin(old(Now()), Now(), pid)
      ensures admitted <==> !committing && |lh| + (old(outstanding) + 1) * MAXOPBLOCKS <= LOGSIZE
      ensures outstanding == if admitted then old(outstanding) + 1 else old(outstanding)
      ensures Now().waiting == if admitted then old(Now()).waiting - {pid} else old(Now()).waiting + {pid}
    {
      ghost var s := Now();
      if committing {
        admitted := false;
      } else if |lh| + (outstanding + 1) * MAXOPBLOCKS > LOGSIZE {
        admitted := false;
      } else {
        outstanding := outstanding + 1;
        admitted := true;
      }
      Take(if admitted
           then s.(outstanding := outstanding, ops := s.ops[s.nextOp := {}],
                   nextOp := s.nextOp + 1, waiting := s.waiting - {pid})
           else s.(waiting := s.waiting + {pid}), BeginStep(pid));
    }

    /** log_write up to acquire, by operation op; false stands for its panics. */
    method LogTest(ghost op: nat) returns (ok: bool)
      requires Valid() && (outstanding >= 1 ==> op in Now().ops && op !in Now().passed)
      modifies this`run
      ensures Valid() && old(run) <= run
      ensures ok <==> |old(lh)| < LOGSIZE && |old(lh)| < g.size - 1 && outstanding >= 1
      ensures if ok then run == old(run) + [Now()] && Test(g, old(Now()), Now(), op) else run == old(run)
    {
      if |lh| >= LOGSIZE || |lh| >= g.size - 1 { return false; }
      if outstanding < 1 { return false; }
      Take(Now().(passed := Now().passed + {op}), TestStep(op));
      return true;
    }

    /** log_write from acquire to release, on a held buffer: the size is not looked at again. */
    method LogAppend(b: nat, ghost op: nat)
      requires Valid() && op in Now().ops && op in Now().passed
      requires b < NBUF && bc.buf[b].locked && bc.buf[b].valid && g.Home(bc.buf[b].blockno)
      modifies this`run, this`lh, bc
      ensures Valid() && run == old(run) + [Now()]
      ensures bc.buf == old(bc.buf)[b := old(bc.buf)[b].(dirty := true)]
      ensures Append(g, old(Now()), Now(), op, bc.buf[b].blockno, bc.buf[b].data)
      ensures lh == if bc.buf[b].blockno in old(lh) then old(lh) else old(lh) + [bc.buf[b].blockno]
    {
      Reached(g, run);
      ghost var s := Now();
      var blockno := bc.buf[b].blockno;
      var i := 0;
      while i < |lh|
        invariant 0 <= i <= |lh| && blockno !in lh[..i]
      {
        if lh[i] == blockno { break; }
        i := i + 1;
      }
      if i == |lh| {
        lh := lh + [blockno];
      } else {
        lh := lh[i := blockno];
      }
      assert lh == Absorb(s.lh, blockno);
      bc.SetDirty(b);
      ghost var w := Write(op, blockno, bc.buf[b].data);
      Take(s.(view := bc.view, lh := lh, ops := s.ops[op := s.ops[op] + {blockno}], passed := s.passed - {op},
              pending := s.pending + [w], issued := s.issued + [w]), AppendStep(op, blockno, w.data));
      AbsorbElems(s.lh, blockno);
    }

    /** log_write that no other process comes between; false stands for its panics. */
    method LogWrite(b: nat, ghost op: nat) returns (ok: bool)
      requires Valid() && (outstanding >= 1 ==> op in Now().ops && op !in Now().passed)
      requires b < NBUF && bc.buf[b].locked && bc.buf[b].valid && g.Home(bc.buf[b].blockno)
      modifies this`run, this`lh, bc
      ensures Valid() && old(run) <= run
      ensures ok <==> |old(lh)| < LOGSIZE && |old(lh)| < g.size - 1 && outstanding >= 1
      ensures !ok ==> run == old(run)
      ensures ok ==>
                && bc.buf == old(bc.buf)[b := old(bc.buf)[b].(dirty := true)]
                && Fits(g, lh) && Now().passed == old(Now()).passed && |run| == |old(run)| + 2
                && Test(g, old(Now()), run[|old(run)|], op)
                && Append(g, run[|old(run)|], Now(), op, bc.buf[b].blockno, bc.buf[b].data)
    {
      ok := LogTest(op);
      if ok {
        LogAppend(b, op);
      }
    }

    /** end_op's first critical section; the result says whether a commit is due. */
    method LeaveOp(ghost op: nat) returns (doCommit: bool)
      requires Valid() && op in Now().ops && op !in Now().passed && (outstanding == 1 ==> Fits(g, lh) || |lh| >= NBUF)
      modifies this`run, this`outstanding, this`committing
      ensures Valid() && run == old(run) + [Now()] && End(old(Now()), Now(), op)
      ensures doCommit <==> old(outstanding) == 1
      ensures outstanding == old(outstanding) - 1 && committing == doCommit && outstanding >= 0
      ensures op !in Now().ops
      ensures Now().phase == if !doCommit then Running else if |lh| > 0 then Logging(0) else Finishing
      ensures !doCommit ==> Now().waiting == {}
    {
      Reached(g, run);
      ghost var s := Now();
      assert s.ops.Keys != {} && |s.ops| == |s.ops.Keys|;
      doCommit := false;
      outstanding := outstanding - 1;
      assert !committing;
      if outstanding == 0 {
        doCommit := true;
        committing := true;
      }
      ghost var t := s.(outstanding := outstanding, ops := s.ops - {op});
      Take(if outstanding == 0
           then t.(phase := if |lh| > 0 then Logging(0) else Finishing)
           else t.(waiting := {}), EndStep(op));
    }

    /**
     end_op; false stands for a panic, which the last operation of a group meets exactly
     when the group and the buffers that other processes use take up the whole cache.
     */
    method EndOp(ghost op: nat) returns (ok: bool)
      requires Valid() && op in Now().ops && op !in Now().passed
      requires outstanding == 1 ==> (Fits(g, lh) || |lh| >= NBUF) && Apart(g, bc.buf, lh)
      modifies this, bc
      ensures Valid() && old(run) <= run
      ensures ok <==> old(outstanding) > 1 || |old(lh)| == 0 || |old(lh)| + |Borrowed(old(bc.buf))| < NBUF
      ensures if ok then SameUsers(old(bc.buf), bc.buf) else lh == old(lh)
      ensures ok ==> !committing && op !in Now().ops && Now().phase.Running? && Now().waiting == {}
      ensures ok && old(outstanding) > 1 ==>
                && run == old(run) + [Now()] && End(old(Now()), Now(), op)
                && bc.buf == old(bc.buf) && bc.disk == old(bc.disk) && bc.view == old(bc.view)
      ensures ok && old(outstanding) == 1 ==>
                && outstanding == 0 && lh == []
                && Now().durable == old(Now()).durable + if |old(lh)| > 0 then [old(Now()).pending] else []
    {
      var doCommit := LeaveOp(op);
      ok := true;
      if doCommit {
        ok := Commit();
        if ok {
          committing := false;
          Take(Now().(phase := Running, waiting := {}), FinishStep);
        }
      }
    }
  }
}
