/**
 The redo log of log.c as a step system. One step is one critical section of
 `log.lock`, log_write's size test (which is made before the lock is taken) or one
 single-block disk write, so any interleaving of any number of operations, with a
 crash between any two disk writes, is a sequence of steps.
 */
module LogProtocol {
  import opened Common
  import opened Blocks

  /** Where the log lies on the disk: header at `start`, data slots after it. */
  datatype Geo = Geo(start: nat, size: nat, nblocks: nat) {
    ghost predicate Valid() {
      1 <= size && start + size <= nblocks <= WRAP
    }

    predicate Home(b: nat) {
      b < nblocks && !(start <= b < start + size)
    }

    function Slot(i: nat): nat {
      start + 1 + i
    }
  }

  // ---------------------------------------------------------------- header block

  predicate HeaderOk(b: Block) {
    GetWord(b, 0) <= LOGSIZE
  }

  /** The block numbers listed in a header block (struct logheader). */
  function Header(b: Block): seq<nat>
    requires HeaderOk(b)
  {
    seq(GetWord(b, 0), i requires 0 <= i < GetWord(b, 0) => GetWord(b, i + 1))
  }

  // ---------------------------------------------------------------- state

  datatype Write = Write(op: nat, blockno: nat, data: Block)

  datatype Phase =
    | Boot                    // powered on, header not read yet
    | Redo(tail: nat)         // recover_from_log, in install_trans
    | Running
    | Logging(tail: nat)      // commit, in write_log
    | Installing(tail: nat)   // commit, in install_trans
    | Finishing               // commit done, log.committing still set

  datatype State = State(
    disk: Disk,               // what survives a crash
    view: Disk,               // what bread returns: the buffer cache over the disk
    lh: seq<nat>,             // log.lh
    phase: Phase,
    outstanding: int,         // log.outstanding
    ops: map<nat, set<nat>>,  // running operations and the blocks each has logged
    passed: set<nat>,         // operations between log_write's test and its critical section
    waiting: set<nat>,        // processes asleep on &log
    nextOp: nat,
    pending: seq<Write>,      // log_writes since the last commit
    durable: seq<seq<Write>>, // log_writes of each committed group
    issued: seq<Write>)       // every log_write ever made

  predicate Committing(s: State) {
    s.phase.Logging? || s.phase.Installing? || s.phase.Finishing?
  }

  predicate Up(s: State) {
    s.phase.Running? || Committing(s)
  }

  /** The admission test of begin_op. */
  predicate Admits(s: State) {
    !Committing(s) && |s.lh| + (s.outstanding + 1) * MAXOPBLOCKS <= LOGSIZE
  }

  /** The first panic of log_write. */
  predicate LogFull(g: Geo, s: State) {
    |s.lh| >= LOGSIZE || |s.lh| >= g.size - 1
  }

  // ---------------------------------------------------------------- steps

  datatype Step =
    | BeginStep(pid: nat)
    | TestStep(op: nat)
    | AppendStep(op: nat, b: nat, data: Block)
    | EndStep(op: nat)
    | WriteLogStep
    | WriteHeadStep(hb: Block)
    | InstallStep
    | EraseStep(hb: Block)
    | FinishStep
    | CrashStep
    | ReadHeadStep

  ghost predicate Begin(s: State, s': State, pid: nat) {
    && Up(s)
    && s' == if Admits(s)
             then s.(outstanding := s.outstanding + 1, ops := s.ops[s.nextOp := {}],
                     nextOp := s.nextOp + 1, waiting := s.waiting - {pid})
             else s.(waiting := s.waiting + {pid})
  }

  function Absorb(lh: seq<nat>, b: nat): seq<nat> {
    if b in lh then lh else lh + [b]
  }

  /** log_write up to acquire: the size test, without the lock. */
  ghost predicate Test(g: Geo, s: State, s': State, op: nat) {
    && op in s.ops && op !in s.passed
    && !LogFull(g, s)
    && s' == s.(passed := s.passed + {op})
  }

  /** log_write from acquire to release, however full the log has become since the test. */
  ghost predicate Append(g: Geo, s: State, s': State, op: nat, b: nat, data: Block) {
    && op in s.ops && op in s.passed
    && g.Home(b) && b < |s.view|
    && s' == s.(view := s.view[b := data], lh := Absorb(s.lh, b),
                ops := s.ops[op := s.ops[op] + {b}], passed := s.passed - {op},
                pending := s.pending + [Write(op, b, data)],
                issued := s.issued + [Write(op, b, data)])
  }

  ghost predicate End(s: State, s': State, op: nat) {
    && op in s.ops && op !in s.passed
    && !Committing(s)
    && var t := s.(outstanding := s.outstanding - 1, ops := s.ops - {op});
       s' == if t.outstanding == 0
             then t.(phase := if |s.lh| > 0 then Logging(0) else Finishing)
             else t.(waiting := {})
  }

  ghost predicate WriteBlock(s: State, s': State, b: nat, data: Block) {
    && b < |s.disk| && b < |s.view|
    && s'.disk == s.disk[b := data]
    && s'.view == s.view[b := data]
  }

  /** Every listed block is pinned in the cache, so a group of NBUF blocks leaves write_log no buffer. */
  ghost predicate WriteLog(g: Geo, s: State, s': State) {
    && s.phase.Logging? && s.phase.tail < |s.lh| < NBUF
    && s.lh[s.phase.tail] < |s.view|
    && WriteBlock(s, s', g.Slot(s.phase.tail), s.view[s.lh[s.phase.tail]])
    && s' == s.(disk := s'.disk, view := s'.view, phase := Logging(s.phase.tail + 1))
  }

  /** write_head in commit: the commit point. */
  ghost predicate WriteHead(g: Geo, s: State, s': State, hb: Block) {
    && s.phase.Logging? && s.phase.tail == |s.lh|
    && HeaderOk(hb) && Header(hb) == s.lh
    && WriteBlock(s, s', g.start, hb)
    && s' == s.(disk := s'.disk, view := s'.view, phase := Installing(0),
                pending := [], durable := s.durable + [s.pending])
  }

  function Advance(p: Phase): Phase
    requires p.Redo? || p.Installing?
  {
    if p.Redo? then Redo(p.tail + 1) else Installing(p.tail + 1)
  }

  /** One iteration of install_trans, in commit or in recovery. */
  ghost predicate Install(g: Geo, s: State, s': State) {
    && (s.phase.Redo? || s.phase.Installing?) && s.phase.tail < |s.lh|
    && g.Slot(s.phase.tail) < |s.view|
    && WriteBlock(s, s', s.lh[s.phase.tail], s.view[g.Slot(s.phase.tail)])
    && s' == s.(disk := s'.disk, view := s'.view, phase := Advance(s.phase))
  }

  /** log.lh.n = 0; write_head(): ends a commit or a recovery. */
  ghost predicate Erase(g: Geo, s: State, s': State, hb: Block) {
    && (s.phase.Redo? || s.phase.Installing?) && s.phase.tail == |s.lh|
    && HeaderOk(hb) && Header(hb) == []
    && WriteBlock(s, s', g.start, hb)
    && s' == s.(disk := s'.disk, view := s'.view, lh := [],
                phase := if s.phase.Redo? then Running else Finishing)
  }

  ghost predicate Finish(s: State, s': State) {
    && s.phase.Finishing?
    && s' == s.(phase := Running, waiting := {})
  }

  /** Power failure or kernel panic: only the disk survives. */
  ghost predicate Crash(s: State, s': State) {
    s' == State(s.disk, s.disk, [], Boot, 0, map[], {}, {}, s.nextOp, [], s.durable, s.issued)
  }

  ghost predicate ReadHead(g: Geo, s: State, s': State) {
    && s.phase.Boot?
    && g.start < |s.view| && HeaderOk(s.view[g.start])
    && s' == s.(phase := Redo(0), lh := Header(s.view[g.start]))
  }

  ghost predicate NextStep(g: Geo, s: State, s': State, step: Step) {
    match step
    case BeginStep(pid) => Begin(s, s', pid)
    case TestStep(op) => Test(g, s, s', op)
    case AppendStep(op, b, data) => Append(g, s, s', op, b, data)
    case EndStep(op) => End(s, s', op)
    case WriteLogStep => WriteLog(g, s, s')
    case WriteHeadStep(hb) => WriteHead(g, s, s', hb)
    case InstallStep => Install(g, s, s')
    case EraseStep(hb) => Erase(g, s, s', hb)
    case FinishStep => Finish(s, s')
    case CrashStep => Crash(s, s')
    case ReadHeadStep => ReadHead(g, s, s')
  }

  ghost predicate Next(g: Geo, s: State, s': State) {
    exists step :: NextStep(g, s, s', step)
  }

  /** A machine switched on over any disk whose header is well formed. */
  ghost predicate Init(g: Geo, s: State) {
    && g.Valid()
    && |s.disk| == g.nblocks
    && s == State(s.disk, s.disk, [], Boot, 0, map[], {}, {}, 0, [], [], [])
    && HeaderOk(s.disk[g.start])
    && LhOk(g, Header(s.disk[g.start]))
  }

  ghost predicate IsRun(g: Geo, run: seq<State>) {
    && |run| > 0
    && Init(g, run[0])
    && forall i :: 0 <= i < |run| - 1 ==> Next(g, run[i], run[i + 1])
  }

  // ---------------------------------------------------------------- meaning

  /** The plain meaning of a list of block writes. */
  function Apply(d: Disk, ws: seq<Write>): (r: Disk)
    ensures |r| == |d|
  {
    if ws == [] then d
    else
      var r := Apply(d, ws[..|ws| - 1]);
      var w := ws[|ws| - 1];
      if w.blockno < |r| then r[w.blockno := w.data] else r
  }

  function Replay(d: Disk, groups: seq<seq<Write>>): (r: Disk)
    ensures |r| == |d|
  {
    if groups == [] then d
    else Apply(Replay(d, groups[..|groups| - 1]), groups[|groups| - 1])
  }

  /** What recover_from_log makes of the first t logged blocks. */
  function RedoPrefix(g: Geo, d: Disk, lh: seq<nat>, t: nat): (r: Disk)
    requires t <= |lh| && g.Slot(|lh|) <= |d|
    requires forall i :: 0 <= i < |lh| ==> lh[i] < |d|
    ensures |r| == |d|
  {
    if t == 0 then d
    else
      var r := RedoPrefix(g, d, lh, t - 1);
      r[lh[t - 1] := r[g.Slot(t - 1)]]
  }

  ghost predicate Recoverable(g: Geo, d: Disk) {
    && g.Valid() && |d| == g.nblocks
    && HeaderOk(d[g.start]) && HomeList(g, Header(d[g.start]))
  }

  /** The disk a complete, uninterrupted recovery produces (header aside). */
  function Recovered(g: Geo, d: Disk): (r: Disk)
    requires Recoverable(g, d)
    ensures |r| == |d|
  {
    var lh := Header(d[g.start]);
    RedoPrefix(g, d, lh, |lh|)
  }

  ghost predicate SameHome(g: Geo, d: Disk, e: Disk)
    requires |d| == |e| == g.nblocks
  {
    forall b: nat :: g.Home(b) ==> d[b] == e[b]
  }

  // ---------------------------------------------------------------- invariant

  /** The header and the slots have room for the blocks of lh. */
  predicate Fits(g: Geo, lh: seq<nat>) {
    |lh| <= LOGSIZE && |lh| <= g.size - 1
  }

  /** The group being committed has room in the log, or leaves its commit no buffer. */
  ghost predicate CommitFits(g: Geo, s: State) {
    s.phase.Logging? ==> Fits(g, s.lh) || |s.lh| >= NBUF
  }

  ghost predicate Homes(g: Geo, lh: seq<nat>) {
    forall i :: 0 <= i < |lh| ==> g.Home(lh[i])
  }

  ghost predicate HomeList(g: Geo, lh: seq<nat>) {
    Fits(g, lh) && Homes(g, lh)
  }

  ghost predicate LhOk(g: Geo, lh: seq<nat>) {
    HomeList(g, lh) && Distinct(lh)
  }

  /** Whatever the phase, the disk determines the committed contents h. */
  ghost predicate Holds(g: Geo, d: Disk, h: Disk) {
    && Recoverable(g, d) && |h| == g.nblocks
    && var lh := Header(d[g.start]);
       && Distinct(lh)
       && (forall i :: 0 <= i < |lh| ==> d[g.Slot(i)] == h[lh[i]])
       && (forall b: nat :: g.Home(b) && b !in lh ==> d[b] == h[b])
  }

  /** The first t logged blocks have reached their home. */
  ghost predicate Installed(g: Geo, d: Disk, h: Disk, lh: seq<nat>, t: nat)
    requires |d| == |h| == g.nblocks && LhOk(g, lh)
  {
    t <= |lh| && forall i :: 0 <= i < t ==> d[lh[i]] == h[lh[i]]
  }

  /** The first t logged blocks have been copied to their slots. */
  ghost predicate Copied(g: Geo, s: State, t: nat)
    requires g.Valid() && |s.disk| == |s.view| == g.nblocks && LhOk(g, s.lh)
  {
    t <= |s.lh| && forall i :: 0 <= i < t ==> s.disk[g.Slot(i)] == s.view[s.lh[i]]
  }

  ghost predicate Clean(g: Geo, s: State)
    requires |s.disk| == |s.view| == g.nblocks
  {
    forall b :: 0 <= b < g.nblocks && b !in s.lh ==> s.view[b] == s.disk[b]
  }

  /** A commit that cannot begin: its group has every buffer pinned. */
  predicate Stuck(s: State) {
    s.phase == Logging(0) && |s.lh| >= NBUF
  }

  ghost predicate Inv(g: Geo, h: Disk, s: State) {
    && Holds(g, s.disk, h) && |s.view| == g.nblocks
    && Homes(g, s.lh) && Distinct(s.lh) && (s.phase.Running? || Stuck(s) || Fits(g, s.lh))
    && (s.lh != [] || s.passed != {} ==> g.size >= 2)
    && Clean(g, s)
    && (forall w :: w in s.pending ==> w.blockno in s.lh)
    && (!Up(s) ==> s.view == s.disk && s.pending == [])
    && (Up(s) ==> SameHome(g, s.view, Apply(h, s.pending)))
    && match s.phase
       case Boot => true
       case Redo(t) => Header(s.disk[g.start]) == s.lh && Installed(g, s.disk, h, s.lh, t)
       case Running => Header(s.disk[g.start]) == []
       case Logging(t) => Header(s.disk[g.start]) == [] && (Stuck(s) || Copied(g, s, t))
       case Installing(t) =>
         Header(s.disk[g.start]) == s.lh && s.pending == [] && Installed(g, s.disk, h, s.lh, t)
       case Finishing => Header(s.disk[g.start]) == [] && s.lh == [] && s.pending == []
  }

  // ---------------------------------------------------------------- Apply and Replay

  lemma ApplyAppend(d: Disk, ws: seq<Write>, w: Write)
    requires w.blockno < |d|
    ensures Apply(d, ws + [w]) == Apply(d, ws)[w.blockno := w.data]
  {
    assert (ws + [w])[..|ws|] == ws;
  }

  /** Blocks no write names keep their contents. */
  lemma {:induction false} ApplyUntouched(d: Disk, ws: seq<Write>, b: nat)
    requires b < |d|
    requires forall w :: w in ws ==> w.blockno != b
    ensures Apply(d, ws)[b] == d[b]
  {
    if ws != [] {
      ApplyUntouched(d, ws[..|ws| - 1], b);
      assert ws[|ws| - 1] in ws;
    }
  }

  lemma ReplayAppend(d: Disk, groups: seq<seq<Write>>, ws: seq<Write>)
    ensures Replay(d, groups + [ws]) == Apply(Replay(d, groups), ws)
  {
    assert (groups + [ws])[..|groups|] == groups;
  }

  // ---------------------------------------------------------------- every step keeps the invariant

  lemma BeginKeeps(g: Geo, h: Disk, s: State, s': State, pid: nat)
    requires Inv(g, h, s) && Begin(s, s', pid)
    ensures Inv(g, h, s')
  {
    assert s'.disk == s.disk && s'.view == s.view && s'.lh == s.lh;
    assert s'.phase == s.phase && s'.pending == s.pending;
  }

  lemma AppendKeeps(g: Geo, h: Disk, s: State, s': State, op: nat, b: nat, data: Block)
    requires Inv(g, h, s) && s.phase.Running? && Append(g, s, s', op, b, data)
    ensures Inv(g, h, s')
  {
    ApplyAppend(h, s.pending, Write(op, b, data));
    assert Homes(g, s'.lh) && Distinct(s'.lh);
    assert SameHome(g, s'.view, Apply(h, s'.pending));
  }

  lemma TestKeeps(g: Geo, h: Disk, s: State, s': State, op: nat)
    requires Inv(g, h, s) && Test(g, s, s', op)
    ensures Inv(g, h, s')
  {
  }

  lemma FinishKeeps(g: Geo, h: Disk, s: State, s': State)
    requires Inv(g, h, s) && Finish(s, s')
    ensures Inv(g, h, s')
  {
  }

  lemma EndKeeps(g: Geo, h: Disk, s: State, s': State, op: nat)
    requires Inv(g, h, s) && s.phase.Running? && End(s, s', op)
    requires CommitFits(g, s')
    ensures Inv(g, h, s')
  {
    assert s'.disk == s.disk && s'.view == s.view && s'.lh == s.lh && s'.pending == s.pending;
  }

  lemma WriteLogKeeps(g: Geo, h: Disk, s: State, s': State)
    requires Inv(g, h, s) && WriteLog(g, s, s')
    ensures Inv(g, h, s')
  {
    var t := s.phase.tail;
    assert !g.Home(g.Slot(t)) && g.Slot(t) != g.start;
    assert s'.disk[g.start] == s.disk[g.start];
    assert Copied(g, s', t + 1);
  }

  /** The commit point: the group moves from pending to durable at once. */
  lemma WriteHeadKeeps(g: Geo, h: Disk, s: State, s': State, hb: Block)
    requires Inv(g, h, s) && WriteHead(g, s, s', hb)
    ensures Inv(g, Apply(h, s.pending), s')
  {
    var h' := Apply(h, s.pending);
    assert s'.disk[g.start] == hb;
    forall i | 0 <= i < |s.lh|
      ensures s'.disk[g.Slot(i)] == h'[s.lh[i]]
    {
      assert g.Home(s.lh[i]);
    }
    forall b: nat | g.Home(b) && b !in s.lh
      ensures s'.disk[b] == h'[b]
    {
      ApplyUntouched(h, s.pending, b);
    }
    assert Holds(g, s'.disk, h');
    assert Apply(h', []) == h';
  }

  /** Copying a logged block home loses nothing that the disk holds. */
  lemma InstallHolds(g: Geo, d: Disk, h: Disk, lh: seq<nat>, t: nat, e: Disk)
    requires Holds(g, d, h) && Header(d[g.start]) == lh && t < |lh| && Installed(g, d, h, lh, t)
    requires lh[t] < |d| && e == d[lh[t] := h[lh[t]]]
    ensures e[g.start] == d[g.start] && Holds(g, e, h) && Installed(g, e, h, lh, t + 1)
  {
    assert g.Home(lh[t]);
    assert forall i :: 0 <= i < |lh| ==> g.Slot(i) != lh[t];
  }

  lemma InstallKeeps(g: Geo, h: Disk, s: State, s': State)
    requires Inv(g, h, s) && Install(g, s, s')
    ensures Inv(g, h, s')
  {
    var t := s.phase.tail;
    var b := s.lh[t];
    assert g.Home(b) && !g.Home(g.Slot(t));
    assert s.view[g.Slot(t)] == s.disk[g.Slot(t)] == h[b];
    assert Apply(h, []) == h;
    InstallHolds(g, s.disk, h, s.lh, t, s'.disk);
  }

  lemma EraseKeeps(g: Geo, h: Disk, s: State, s': State, hb: Block)
    requires Inv(g, h, s) && Erase(g, s, s', hb)
    ensures Inv(g, h, s')
  {
    assert s'.disk[g.start] == hb;
    forall b: nat | g.Home(b)
      ensures s'.disk[b] == h[b] && s'.disk[b] == s'.view[b]
    {
      assert s'.disk[b] == s.disk[b];
      assert Apply(h, []) == h;
      if b in s.lh {
        var i :| 0 <= i < |s.lh| && s.lh[i] == b;
        assert s.disk[s.lh[i]] == h[s.lh[i]];
      }
    }
    assert Holds(g, s'.disk, h);
    assert s.pending == [] && Apply(h, []) == h;
  }

  lemma CrashKeeps(g: Geo, h: Disk, s: State, s': State)
    requires Inv(g, h, s) && Crash(s, s')
    ensures Inv(g, h, s')
  {
  }

  lemma ReadHeadKeeps(g: Geo, h: Disk, s: State, s': State)
    requires Inv(g, h, s) && ReadHead(g, s, s')
    ensures Inv(g, h, s')
  {
  }

  // ---------------------------------------------------------------- operations and admission

  /** The writes of one operation, in order. */
  function OfOp(ws: seq<Write>, op: nat): seq<Write> {
    if ws == [] then []
    else
      var r := OfOp(ws[..|ws| - 1], op);
      if ws[|ws| - 1].op == op then r + [ws[|ws| - 1]] else r
  }

  lemma OfOpAppend(ws: seq<Write>, w: Write, op: nat)
    ensures OfOp(ws + [w], op) == if w.op == op then OfOp(ws, op) + [w] else OfOp(ws, op)
  {
    assert (ws + [w])[..|ws|] == ws;
  }

  lemma {:induction false} OfOpNone(ws: seq<Write>, op: nat)
    requires forall w :: w in ws ==> w.op != op
    ensures OfOp(ws, op) == []
  {
    if ws != [] {
      assert ws[|ws| - 1] in ws;
      OfOpNone(ws[..|ws| - 1], op);
    }
  }

  ghost predicate Names(ws: seq<Write>, op: nat) {
    exists w :: w in ws && w.op == op
  }

  /** Counters, phases and sleepers agree with the running operations. */
  ghost predicate AdmitInv(s: State) {
    && s.outstanding == |s.ops| && s.passed <= s.ops.Keys
    && (s.ops != map[] ==> s.phase.Running?)
    && (s.phase.Running? && s.ops == map[] ==> s.lh == [])
    && (s.phase.Finishing? ==> s.lh == [])
    && (s.waiting != {} ==> Up(s) && !Admits(s))
  }

  /** Operation identities: fresh ones unused, durable ones finished. */
  ghost predicate NameInv(s: State) {
    && (forall op :: op in s.ops ==> op < s.nextOp)
    && (forall w :: w in s.issued ==> w.op < s.nextOp)
    && (forall w :: w in s.pending ==> w.op < s.nextOp)
    && (forall k, op: nat {:trigger Names(s.durable[k], op)} :: 0 <= k < |s.durable| && Names(s.durable[k], op) ==>
          op < s.nextOp && op !in s.ops && !Names(s.pending, op))
    && (forall k, m, op: nat {:trigger Names(s.durable[k], op), Names(s.durable[m], op)} ::
          0 <= k < |s.durable| && 0 <= m < |s.durable| && Names(s.durable[k], op) && Names(s.durable[m], op) ==>
            k == m)
  }

  ghost predicate WholeInv(s: State) {
    && (forall op: nat :: op in s.ops || Names(s.pending, op) ==> OfOp(s.issued, op) == OfOp(s.pending, op))
    && (forall k, op: nat {:trigger Names(s.durable[k], op)} :: 0 <= k < |s.durable| && Names(s.durable[k], op) ==>
          OfOp(s.issued, op) == OfOp(s.durable[k], op))
  }

  lemma AdmitBegin(s: State, s': State, pid: nat)
    requires AdmitInv(s) && NameInv(s) && Begin(s, s', pid)
    ensures AdmitInv(s')
  {
    if Admits(s) {
      assert s.nextOp !in s.ops;
      assert s'.ops.Keys == s.ops.Keys + {s.nextOp};
      assert |s'.ops| == |s'.ops.Keys|;
    }
  }

  lemma AdmitAppend(g: Geo, s: State, s': State, op: nat, b: nat, data: Block)
    requires AdmitInv(s) && Append(g, s, s', op, b, data)
    ensures AdmitInv(s')
  {
    assert s'.ops.Keys == s.ops.Keys;
    assert |s'.ops| == |s'.ops.Keys|;
  }

  lemma AdmitEnd(s: State, s': State, op: nat)
    requires AdmitInv(s) && End(s, s', op)
    ensures AdmitInv(s')
  {
    assert s'.ops.Keys == s.ops.Keys - {op};
    assert |s'.ops| == |s'.ops.Keys|;
    assert s'.outstanding == |s'.ops.Keys|;
  }

  /** Size tests, disk steps, commit's end, a crash. */
  lemma AdmitOther(g: Geo, s: State, s': State, step: Step)
    requires AdmitInv(s) && NextStep(g, s, s', step)
    requires !step.BeginStep? && !step.AppendStep? && !step.EndStep?
    ensures AdmitInv(s')
  {
  }

  lemma NamesAppend(ws: seq<Write>, w: Write, p: nat)
    ensures Names(ws + [w], p) <==> p == w.op || Names(ws, p)
  {
    if p == w.op { assert w in ws + [w]; }
    if Names(ws, p) {
      var v :| v in ws && v.op == p;
      assert v in ws + [w];
    }
  }

  lemma NamesBegin(s: State, s': State, pid: nat)
    requires NameInv(s) && WholeInv(s) && Begin(s, s', pid)
    ensures NameInv(s') && WholeInv(s')
  {
    assert s'.issued == s.issued && s'.pending == s.pending && s'.durable == s.durable;
    OfOpNone(s.issued, s.nextOp);
    OfOpNone(s.pending, s.nextOp);
    forall k, op: nat | 0 <= k < |s'.durable| && Names(s'.durable[k], op)
      ensures op < s'.nextOp && op !in s'.ops && !Names(s'.pending, op)
    {
      assert Names(s.durable[k], op);
    }
  }

  /** The part of log_write that concerns operations: w joins the pending and the issued writes. */
  ghost predicate Joins(s: State, s': State, w: Write) {
    && w.op in s.ops && s'.ops.Keys == s.ops.Keys && s'.nextOp == s.nextOp && s'.durable == s.durable
    && s'.pending == s.pending + [w] && s'.issued == s.issued + [w]
  }

  lemma NameAppend(s: State, s': State, w: Write)
    requires NameInv(s) && Joins(s, s', w)
    ensures NameInv(s')
  {
    forall p: nat ensures Names(s'.pending, p) <==> p == w.op || Names(s.pending, p) { NamesAppend(s.pending, w, p); }
  }

  lemma WholeAppend(s: State, s': State, w: Write)
    requires NameInv(s) && WholeInv(s) && Joins(s, s', w)
    ensures WholeInv(s')
  {
    forall p: nat | p in s'.ops || Names(s'.pending, p) ensures OfOp(s'.issued, p) == OfOp(s'.pending, p) {
      NamesAppend(s.pending, w, p);
      OfOpAppend(s.issued, w, p);
      OfOpAppend(s.pending, w, p);
    }
    forall k, p: nat | 0 <= k < |s'.durable| && Names(s'.durable[k], p)
      ensures OfOp(s'.issued, p) == OfOp(s'.durable[k], p)
    {
      assert Names(s.durable[k], p);
      OfOpAppend(s.issued, w, p);
    }
  }

  lemma NamesWriteHead(g: Geo, s: State, s': State, hb: Block)
    requires AdmitInv(s) && NameInv(s) && WholeInv(s) && WriteHead(g, s, s', hb)
    ensures NameInv(s') && WholeInv(s')
  {
    assert s.ops == map[];
    forall k, op: nat | 0 <= k < |s'.durable| && Names(s'.durable[k], op)
      ensures op < s'.nextOp && OfOp(s'.issued, op) == OfOp(s'.durable[k], op)
    {
      if k == |s.durable| {
        assert s'.durable[k] == s.pending;
        var w :| w in s.pending && w.op == op;
      } else {
        assert s'.durable[k] == s.durable[k];
        assert Names(s.durable[k], op);
      }
    }
  }

  lemma NamesOther(g: Geo, s: State, s': State, step: Step)
    requires NameInv(s) && WholeInv(s) && NextStep(g, s, s', step)
    requires !step.BeginStep? && !step.AppendStep? && !step.WriteHeadStep?
    ensures NameInv(s') && WholeInv(s')
  {
    assert s'.issued == s.issued && s'.durable == s.durable && s'.nextOp == s.nextOp;
    assert s'.ops.Keys <= s.ops.Keys;
    assert s'.pending == s.pending || s'.pending == [];
  }

  /** What holds of the operations in every reachable state. */
  ghost predicate OpsInv(s: State) {
    AdmitInv(s) && NameInv(s) && WholeInv(s)
  }

  lemma OpsInvKeeps(g: Geo, s: State, s': State, step: Step)
    requires OpsInv(s) && NextStep(g, s, s', step)
    ensures OpsInv(s')
  {
    match step
    case BeginStep(pid) => AdmitBegin(s, s', pid); NamesBegin(s, s', pid);
    case AppendStep(op, b, data) =>
      AdmitAppend(g, s, s', op, b, data);
      NameAppend(s, s', Write(op, b, data));
      WholeAppend(s, s', Write(op, b, data));
    case EndStep(op) => AdmitEnd(s, s', op); NamesOther(g, s, s', step);
    case WriteHeadStep(hb) => AdmitOther(g, s, s', step); NamesWriteHead(g, s, s', hb);
    case _ => AdmitOther(g, s, s', step); NamesOther(g, s, s', step);
  }

  /** The disk in every state of a run whose groups fit; base is the recovered initial disk. */
  ghost predicate Safe(g: Geo, base: Disk, s: State) {
    |base| == g.nblocks && Inv(g, Replay(base, s.durable), s) && OpsInv(s)
  }

  /** Steps of operations, which leave the disk alone. */
  lemma InvKeepsOps(g: Geo, base: Disk, s: State, s': State, step: Step)
    requires Safe(g, base, s) && NextStep(g, s, s', step) && CommitFits(g, s')
    requires step.BeginStep? || step.TestStep? || step.AppendStep? || step.EndStep? || step.FinishStep?
    ensures Inv(g, Replay(base, s'.durable), s')
  {
    var h := Replay(base, s.durable);
    match step
    case BeginStep(pid) => BeginKeeps(g, h, s, s', pid);
    case TestStep(op) => TestKeeps(g, h, s, s', op);
    case AppendStep(op, b, data) => AppendKeeps(g, h, s, s', op, b, data);
    case EndStep(op) => EndKeeps(g, h, s, s', op);
    case FinishStep => FinishKeeps(g, h, s, s');
  }

  /** Steps of a commit or a recovery, and crashes. */
  lemma InvKeepsDisk(g: Geo, base: Disk, s: State, s': State, step: Step)
    requires |base| == g.nblocks && Inv(g, Replay(base, s.durable), s) && NextStep(g, s, s', step)
    requires !(step.BeginStep? || step.TestStep? || step.AppendStep? || step.EndStep? || step.FinishStep?)
    ensures Inv(g, Replay(base, s'.durable), s')
  {
    var h := Replay(base, s.durable);
    match step
    case WriteLogStep => WriteLogKeeps(g, h, s, s');
    case WriteHeadStep(hb) => WriteHeadKeeps(g, h, s, s', hb); ReplayAppend(base, s.durable, s.pending);
    case InstallStep => InstallKeeps(g, h, s, s');
    case EraseStep(hb) => EraseKeeps(g, h, s, s', hb);
    case CrashStep => CrashKeeps(g, h, s, s');
    case ReadHeadStep => ReadHeadKeeps(g, h, s, s');
  }

  lemma InvKeeps(g: Geo, base: Disk, s: State, s': State, step: Step)
    requires Safe(g, base, s) && NextStep(g, s, s', step) && CommitFits(g, s')
    ensures Safe(g, base, s')
  {
    OpsInvKeeps(g, s, s', step);
    if step.BeginStep? || step.TestStep? || step.AppendStep? || step.EndStep? || step.FinishStep? {
      InvKeepsOps(g, base, s, s', step);
    } else {
      InvKeepsDisk(g, base, s, s', step);
    }
  }
}
