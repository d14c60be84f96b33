/**
 The ring buffer of pipe.c. nread and nwrite are 32-bit counters that wrap; since
 PIPESIZE divides 2^32, the ring still behaves as a queue of at most PIPESIZE bytes.
 */
module Pipe {
  import opened Common
  import opened Blocks

  const PIPESIZE := 512

  type Page = s: seq<Byte> | |s| == PIPESIZE witness Zeros(PIPESIZE)

  /** data, nread and nwrite of struct pipe. */
  datatype Cells = Cells(data: Page, nread: Word, nwrite: Word)

  predicate Full(c: Cells) {
    c.nwrite == (c.nread + PIPESIZE) % WRAP
  }

  predicate Empty(c: Cells) {
    c.nread == c.nwrite
  }

  function Put(c: Cells, x: Byte): Cells {
    c.(data := c.data[c.nwrite % PIPESIZE := x], nwrite := (c.nwrite + 1) % WRAP)
  }

  function Next(c: Cells): Byte {
    c.data[c.nread % PIPESIZE]
  }

  function Take(c: Cells): Cells {
    c.(nread := (c.nread + 1) % WRAP)
  }

  /** pipewrite's copying from byte i of addr on, up to the end or until the ring is full; and where it stops. */
  function PutMany(c: Cells, addr: seq<Byte>, i: nat): (r: (Cells, nat))
    requires i <= |addr|
    ensures i <= r.1 <= |addr| && (r.1 < |addr| ==> Full(r.0))
    decreases |addr| - i
  {
    if i < |addr| && !Full(c) then PutMany(Put(c, addr[i]), addr, i + 1) else (c, i)
  }

  /** piperead's copying of up to n bytes, until the ring is empty. */
  function TakeMany(c: Cells, n: nat): (r: (Cells, seq<Byte>))
    ensures |r.1| <= n && (|r.1| < n ==> Empty(r.0))
    decreases n
  {
    if n == 0 || Empty(c) then (c, [])
    else
      var r := TakeMany(Take(c), n - 1);
      (r.0, [Next(c)] + r.1)
  }

  /** How a call leaves the pipe lock: returned, returned -1, or put to sleep. */
  datatype Outcome = Done | Failed | Asleep

  function WriteOutcome(addr: seq<Byte>, i: int, readopen: bool, killed: bool): Outcome {
    if i == |addr| then Done else if !readopen || killed then Failed else Asleep
  }

  function ReadOutcome(empty: bool, writeopen: bool, killed: bool): Outcome {
    if empty && writeopen then (if killed then Failed else Asleep) else Done
  }

  // ---------------------------------------------------------------- the ring is a queue

  /** The ring holds exactly the bytes put and not yet taken; the counters count them modulo 2^32. */
  ghost predicate RingOk(c: Cells, put: seq<Byte>, taken: seq<Byte>) {
    && taken <= put && |put| - |taken| <= PIPESIZE
    && c.nread == |taken| % WRAP && c.nwrite == |put| % WRAP
    && forall k :: |taken| <= k < |put| ==> c.data[k % PIPESIZE] == put[k]
  }

  /** PIPESIZE divides the wrap, so a wrapped counter still indexes the right cell. */
  lemma WrapIndex(n: nat)
    ensures n % WRAP % PIPESIZE == n % PIPESIZE
  {
    assert n == (n / WRAP) * WRAP + n % WRAP;
    assert n == ((n / WRAP) * 8388608) * PIPESIZE + n % WRAP;
    ModShift((n / WRAP) * 8388608, n % WRAP);
  }

  lemma {:induction false} ModShift(q: nat, r: nat)
    ensures (q * PIPESIZE + r) % PIPESIZE == r % PIPESIZE
  {
    if q > 0 {
      ModShift(q - 1, r);
      assert q * PIPESIZE + r == (q - 1) * PIPESIZE + r + PIPESIZE;
    }
  }

  lemma WrapStep(n: nat)
    ensures (n + 1) % WRAP == (n % WRAP + 1) % WRAP
  {
  }

  /** The source's full and empty tests on wrapped counters decide the queue's length. */
  lemma CountersTell(c: Cells, put: seq<Byte>, taken: seq<Byte>)
    requires RingOk(c, put, taken)
    ensures Full(c) <==> |put| - |taken| == PIPESIZE
    ensures Empty(c) <==> put == taken
  {
    var n := |put| - |taken|;
    assert |put| == |taken| + n;
    if |put| == |taken| { assert put == taken; }
  }

  /** Distinct live positions are distinct cells. */
  lemma CellsDistinct(j: nat, k: nat)
    requires j < k < j + PIPESIZE
    ensures j % PIPESIZE != k % PIPESIZE
  {
  }

  lemma PutOk(c: Cells, put: seq<Byte>, taken: seq<Byte>, x: Byte)
    requires RingOk(c, put, taken) && |put| - |taken| < PIPESIZE
    ensures RingOk(Put(c, x), put + [x], taken)
  {
    WrapIndex(|put|);
    WrapStep(|put|);
    var d := Put(c, x);
    forall k | |taken| <= k < |put| + 1
      ensures d.data[k % PIPESIZE] == (put + [x])[k]
    {
      if k < |put| { CellsDistinct(k, |put|); }
    }
  }

  lemma TakeOk(c: Cells, put: seq<Byte>, taken: seq<Byte>)
    requires RingOk(c, put, taken) && |taken| < |put|
    ensures Next(c) == put[|taken|] && RingOk(Take(c), put, taken + [Next(c)])
  {
    WrapIndex(|taken|);
    WrapStep(|taken|);
  }

  /** What pipewrite copies joins the queue: as much as there is room for. */
  lemma {:induction false} PutManyOk(c: Cells, put: seq<Byte>, taken: seq<Byte>, addr: seq<Byte>, i: nat)
    requires RingOk(c, put, taken) && i <= |addr|
    ensures var r := PutMany(c, addr, i);
            && RingOk(r.0, put + addr[i..r.1], taken)
            && r.1 == i + Min(|addr| - i, PIPESIZE - (|put| - |taken|))
    decreases |addr| - i
  {
    CountersTell(c, put, taken);
    var r := PutMany(c, addr, i);
    if i < |addr| && !Full(c) {
      PutOk(c, put, taken, addr[i]);
      PutManyOk(Put(c, addr[i]), put + [addr[i]], taken, addr, i + 1);
      assert put + [addr[i]] + addr[i + 1..r.1] == put + addr[i..r.1];
    } else {
      assert put + addr[i..i] == put;
    }
  }

  lemma TakenOn(put: seq<Byte>, taken: seq<Byte>, x: Byte, bs: seq<Byte>)
    requires |taken| + 1 + |bs| <= |put| && x == put[|taken|]
    requires bs == put[|taken| + 1..|taken| + 1 + |bs|]
    ensures taken + [x] + bs == taken + ([x] + bs)
    ensures [x] + bs == put[|taken|..|taken| + |[x] + bs|]
  {
  }

  /** What piperead copies are the oldest bytes of the queue, as many as are there, and they leave it. */
  lemma {:induction false} TakeManyOk(c: Cells, put: seq<Byte>, taken: seq<Byte>, n: nat)
    requires RingOk(c, put, taken)
    ensures var r := TakeMany(c, n);
            && |r.1| == Min(n, |put| - |taken|) && r.1 == put[|taken|..|taken| + |r.1|]
            && RingOk(r.0, put, taken + r.1)
    decreases n
  {
    CountersTell(c, put, taken);
    if n > 0 && !Empty(c) {
      var x := Next(c);
      TakeOk(c, put, taken);
      TakeManyOk(Take(c), put, taken + [x], n - 1);
      TakenOn(put, taken, x, TakeMany(Take(c), n - 1).1);
    } else {
      assert taken + [] == taken;
    }
  }

  // ---------------------------------------------------------------- the code

  class Ring {
    var data: array<Byte>
    var nread: Word
    var nwrite: Word
    var readopen: bool
    var writeopen: bool

    ghost predicate Valid()
      reads this, data
    {
      data.Length == PIPESIZE
    }

    ghost function Now(): Cells
      reads this, data
      requires Valid()
    {
      Cells(data[..], nread, nwrite)
    }

    /** pipealloc: whatever the page holds, the ring is empty. */
    constructor ()
      ensures Valid() && fresh(data) && RingOk(Now(), [], []) && readopen && writeopen
    {
      data := new Byte[PIPESIZE];
      nread, nwrite, readopen, writeopen := 0, 0, true, true;
    }

    /**
     pipewrite from holding the lock at byte i until it returns or sleeps.
     wake says whether sleeping readers are woken.
     */
    method WriteSegment(addr: seq<Byte>, start: nat, killed: bool) returns (i: nat, out: Outcome, wake: bool)
      requires Valid() && start <= |addr|
      modifies this`nwrite, data
      ensures Valid() && (Now(), i) == PutMany(old(Now()), addr, start)
      ensures nwrite == (old(nwrite) + (i - start)) % WRAP
      ensures out == Done <==> i == |addr|
      ensures out != Done ==> nwrite == (nread + PIPESIZE) % WRAP
      ensures out == Failed <==> i < |addr| && (!readopen || killed)
      ensures wake <==> out != Failed
    {
      i := start;
      while i < |addr|
        invariant start <= i <= |addr| && Valid() && nwrite == (old(nwrite) + (i - start)) % WRAP
        invariant PutMany(Now(), addr, i) == PutMany(old(Now()), addr, start)
      {
        if nwrite == (nread + PIPESIZE) % WRAP {
          if !readopen || killed {
            return i, Failed, false;
          }
          return i, Asleep, true;
        }
        ghost var c := Now();
        data[nwrite % PIPESIZE] := addr[i];
        WrapStep(old(nwrite) + (i - start));
        nwrite := (nwrite + 1) % WRAP;
        assert Now() == Put(c, addr[i]);
        i := i + 1;
      }
      return i, Done, true;
    }

    /** piperead from holding the lock until it returns or sleeps; wake is about sleeping writers. */
    method ReadSegment(n: nat, killed: bool) returns (got: seq<Byte>, out: Outcome, wake: bool)
      requires Valid()
      modifies this`nread
      ensures Valid()
      ensures out == Failed <==> old(nread) == nwrite && writeopen && killed
      ensures out == Asleep <==> old(nread) == nwrite && writeopen && !killed
      ensures (Now(), got) == if out == Done then TakeMany(old(Now()), n) else (old(Now()), [])
      ensures out == Done ==> nread == (old(nread) + |got|) % WRAP && (|got| == n || nread == nwrite)
      ensures wake <==> out == Done
    {
      got := [];
      if nread == nwrite && writeopen {
        if killed { return got, Failed, false; }
        return got, Asleep, false;
      }
      var i := 0;
      assert [] + TakeMany(Now(), n).1 == TakeMany(Now(), n).1;
      while i < n
        invariant 0 <= i <= n && Valid() && data[..] == old(data[..])
        invariant |got| == i && nread == (old(nread) + i) % WRAP
        invariant var r := TakeMany(Now(), n - i); TakeMany(old(Now()), n) == (r.0, got + r.1)
      {
        if nread == nwrite { break; }
        var x := data[nread % PIPESIZE];
        ghost var c := Now();
        ghost var rest := TakeMany(Take(c), n - i - 1).1;
        WrapStep(old(nread) + i);
        nread := (nread + 1) % WRAP;
        assert Now() == Take(c) && got + ([x] + rest) == got + [x] + rest;
        got := got + [x];
        i := i + 1;
      }
      assert got + [] == got;
      return got, Done, true;
    }

    /** pipeclose: whose sleepers it wakes, and whether the pipe's page is freed. */
    method Close(writable: bool) returns (wakeReaders: bool, wakeWriters: bool, gone: bool)
      requires Valid()
      modifies this`readopen, this`writeopen
      ensures Valid() && Now() == old(Now())
      ensures writeopen == (old(writeopen) && !writable) && readopen == (old(readopen) && writable)
      ensures (wakeReaders <==> writable) && (wakeWriters <==> !writable)
      ensures gone <==> !readopen && !writeopen
    {
      if writable {
        writeopen := false;
      } else {
        readopen := false;
      }
      return writable, !writable, !readopen && !writeopen;
    }
  }
}

/**
 Readers and writers of one pipe, any number of them, as a step system. A step is
 what a process does from acquiring the pipe lock to releasing it or sleeping.
 */
module PipeProtocol {
  import opened Common
  import opened Blocks
  import opened Pipe
  import opened ProcTable
  import Sleep

  datatype Proc =
    | Writer(addr: seq<Byte>, i: nat, asleep: bool)  // in pipewrite, i bytes put
    | Reader(n: nat, asleep: bool)                   // in piperead

  datatype State = State(
    cells: Cells,
    readopen: bool, writeopen: bool,
    procs: map<nat, Proc>,  // processes inside pipewrite or piperead
    result: map<nat, int>,  // what a process's latest call has returned
    put: seq<Byte>,         // every byte that writers have copied in
    taken: seq<Byte>)       // every byte that readers have copied out

  datatype Step =
    | StartWrite(pid: nat, addr: seq<Byte>)
    | StartRead(pid: nat, n: nat)
    | WriteSeg(pid: nat, killed: bool)
    | ReadSeg(pid: nat, killed: bool)
    | CloseWrite
    | CloseRead

  function WakeReaders(procs: map<nat, Proc>): map<nat, Proc> {
    map pid | pid in procs :: match procs[pid]
      case Reader(n, _) => Reader(n, false)
      case Writer(addr, i, asleep) => Writer(addr, i, asleep)
  }

  function WakeWriters(procs: map<nat, Proc>): map<nat, Proc> {
    map pid | pid in procs :: match procs[pid]
      case Writer(addr, i, _) => Writer(addr, i, false)
      case Reader(n, asleep) => Reader(n, asleep)
  }

  predicate WriterReady(s: State, pid: nat) {
    pid in s.procs && s.procs[pid].Writer? && !s.procs[pid].asleep && s.procs[pid].i <= |s.procs[pid].addr|
  }

  predicate ReaderReady(s: State, pid: nat) {
    pid in s.procs && s.procs[pid].Reader? && !s.procs[pid].asleep
  }

  /** One segment of pipewrite, as Ring.WriteSegment specifies it. */
  function AfterWrite(s: State, pid: nat, killed: bool): State
    requires WriterReady(s, pid)
  {
    var w := s.procs[pid];
    var r := PutMany(s.cells, w.addr, w.i);
    var t := s.(cells := r.0, put := s.put + w.addr[w.i..r.1]);
    match WriteOutcome(w.addr, r.1, s.readopen, killed)
    case Done => t.(procs := WakeReaders(s.procs) - {pid}, result := s.result[pid := |w.addr|])
    case Failed => t.(procs := s.procs - {pid}, result := s.result[pid := -1])
    case Asleep => t.(procs := WakeReaders(s.procs)[pid := Writer(w.addr, r.1, true)])
  }

  /** One segment of piperead, as Ring.ReadSegment specifies it. */
  function AfterRead(s: State, pid: nat, killed: bool): State
    requires ReaderReady(s, pid)
  {
    match ReadOutcome(Empty(s.cells), s.writeopen, killed)
    case Done =>
      var r := TakeMany(s.cells, s.procs[pid].n);
      s.(cells := r.0, taken := s.taken + r.1,
         procs := WakeWriters(s.procs) - {pid}, result := s.result[pid := |r.1|])
    case Failed => s.(procs := s.procs - {pid}, result := s.result[pid := -1])
    case Asleep => s.(procs := s.procs[pid := s.procs[pid].(asleep := true)])
  }

  /** A process in a call keeps its end open, so closing an end means nobody is using it. */
  ghost predicate NextStep(s: State, s': State, step: Step) {
    match step
    case StartWrite(pid, addr) =>
      pid !in s.procs && s.writeopen && s' == s.(procs := s.procs[pid := Writer(addr, 0, false)])
    case StartRead(pid, n) =>
      pid !in s.procs && s.readopen && s' == s.(procs := s.procs[pid := Reader(n, false)])
    case WriteSeg(pid, killed) =>
      WriterReady(s, pid) && s' == AfterWrite(s, pid, killed)
    case ReadSeg(pid, killed) =>
      ReaderReady(s, pid) && s' == AfterRead(s, pid, killed)
    case CloseWrite =>
      && (forall pid :: pid in s.procs ==> !s.procs[pid].Writer?)
      && s' == s.(writeopen := false, procs := WakeReaders(s.procs))
    case CloseRead =>
      && (forall pid :: pid in s.procs ==> !s.procs[pid].Reader?)
      && s' == s.(readopen := false, procs := WakeWriters(s.procs))
  }

  predicate Kills(step: Step) {
    (step.WriteSeg? || step.ReadSeg?) && step.killed
  }

  /** pipealloc leaves whatever the page held in the ring. */
  predicate Init(s: State) {
    s == State(Cells(s.cells.data, 0, 0), true, true, map[], map[], [], [])
  }

  /** States linked by steps, killed processes allowed or not. */
  ghost predicate IsRun(run: seq<State>, kills: bool) {
    && |run| > 0 && Init(run[0])
    && forall k :: 0 <= k < |run| - 1 ==> Linked(run[k], run[k + 1], kills)
  }

  ghost predicate Linked(s: State, s': State, kills: bool) {
    exists step :: NextStep(s, s', step) && (Kills(step) ==> kills)
  }

  // ---------------------------------------------------------------- first in, first out

  /** The ring is the queue of bytes put and not taken, and calls are made on open ends. */
  ghost predicate Fifo(s: State) {
    && RingOk(s.cells, s.put, s.taken)
    && (forall pid :: pid in s.procs && s.procs[pid].Writer? ==> s.procs[pid].i <= |s.procs[pid].addr|)
    && (forall pid :: pid in s.procs ==> if s.procs[pid].Writer? then s.writeopen else s.readopen)
  }

  lemma FifoKeeps(s: State, s': State, step: Step)
    requires Fifo(s) && NextStep(s, s', step)
    ensures Fifo(s') && s.put <= s'.put && s.taken <= s'.taken
  {
    match step
    case WriteSeg(pid, _) => PutManyOk(s.cells, s.put, s.taken, s.procs[pid].addr, s.procs[pid].i);
    case ReadSeg(pid, _) => TakeManyOk(s.cells, s.put, s.taken, s.procs[pid].n);
    case _ =>
  }

  lemma {:induction false} FifoRun(run: seq<State>, kills: bool, k: nat)
    requires IsRun(run, kills) && k < |run|
    ensures Fifo(run[k])
  {
    if k > 0 {
      FifoRun(run, kills, k - 1);
      var s, s' := run[k - 1], run[k - 1 + 1];
      assert Linked(s, s', kills);
      var step :| NextStep(s, s', step) && (Kills(step) ==> kills);
      FifoKeeps(s, s', step);
    }
  }

  /**
   In every interleaving, killed processes included: what readers have copied out of the
   ring is a prefix of what writers have copied in, nothing is ever unread or rewritten,
   and the ring holds exactly the bytes in between, at most PIPESIZE of them.
   */
  lemma {:induction false} BytesInOrder(run: seq<State>, kills: bool, j: nat, k: nat)
    requires IsRun(run, kills) && j <= k < |run|
    ensures RingOk(run[k].cells, run[k].put, run[k].taken)
    ensures run[j].put <= run[k].put && run[j].taken <= run[k].taken
  {
    FifoRun(run, kills, k);
    if j < k {
      BytesInOrder(run, kills, j, k - 1);
      FifoRun(run, kills, k - 1);
      var s, s' := run[k - 1], run[k - 1 + 1];
      LinkedGrows(s, s', kills);
      PrefixTrans(run[j].put, s.put, s'.put);
      PrefixTrans(run[j].taken, s.taken, s'.taken);
    }
  }

  lemma LinkedGrows(s: State, s': State, kills: bool)
    requires Fifo(s) && Linked(s, s', kills)
    ensures s.put <= s'.put && s.taken <= s'.taken
  {
    var step :| NextStep(s, s', step) && (Kills(step) ==> kills);
    FifoKeeps(s, s', step);
  }

  lemma PrefixTrans(a: seq<Byte>, b: seq<Byte>, c: seq<Byte>)
    requires a <= b <= c
    ensures a <= c
  {
  }

  // ---------------------------------------------------------------- what the calls return

  /**
   In every run: a reader that finds bytes takes the oldest, as many as it asked for if there
   are so many, and returns their number. On an empty pipe that number is 0, the end of file,
   once the write end is closed; while it is open the reader sleeps, or returns -1 if killed.
   */
  lemma ReadReturns(run: seq<State>, kills: bool, k: nat, pid: nat, killed: bool)
    requires IsRun(run, kills) && k + 1 < |run| && NextStep(run[k], run[k + 1], ReadSeg(pid, killed))
    ensures
      var s, s' := run[k], run[k + 1];
      var n, left := s.procs[pid].n, |s.put| - |s.taken|;
      s'.put == s.put
      && if left == 0 && s.writeopen then
           && s'.taken == s.taken
           && if killed then pid !in s'.procs && s'.result == s.result[pid := -1]
              else s'.procs == s.procs[pid := Reader(n, true)] && s'.result == s.result
         else
           && Min(n, left) >= 0 && s'.taken == s.put[..|s.taken| + Min(n, left)]
           && pid !in s'.procs && s'.result == s.result[pid := Min(n, left)]
  {
    var s, s' := run[k], run[k + 1];
    FifoRun(run, kills, k);
    CountersTell(s.cells, s.put, s.taken);
    TakeManyOk(s.cells, s.put, s.taken, s.procs[pid].n);
  }

  /**
   A writer copies in what there is room for. It returns the length of its buffer once all
   of it is copied; short of room it returns -1 if the read end is closed or it is killed,
   and sleeps otherwise.
   */
  lemma WriteReturns(run: seq<State>, kills: bool, k: nat, pid: nat, killed: bool)
    requires IsRun(run, kills) && k + 1 < |run| && NextStep(run[k], run[k + 1], WriteSeg(pid, killed))
    ensures
      var s, s' := run[k], run[k + 1];
      var w, room := s.procs[pid], PIPESIZE - (|s.put| - |s.taken|);
      && s'.taken == s.taken
      && if |w.addr| - w.i <= room then
           && s'.put == s.put + w.addr[w.i..]
           && pid !in s'.procs && s'.result == s.result[pid := |w.addr|]
         else
           && room >= 0 && s'.put == s.put + w.addr[w.i..w.i + room]
           && if !s.readopen || killed then pid !in s'.procs && s'.result == s.result[pid := -1]
              else pid in s'.procs && s'.procs[pid] == Writer(w.addr, w.i + room, true) && s'.result == s.result
  {
    var s := run[k];
    FifoRun(run, kills, k);
    PutManyOk(s.cells, s.put, s.taken, s.procs[pid].addr, s.procs[pid].i);
  }

  // ---------------------------------------------------------------- sleep and wakeup

  ghost predicate SleepsRightly(s: State, p: Proc) {
    p.asleep ==> if p.Reader? then Empty(s.cells) && s.writeopen else Full(s.cells) && s.readopen
  }

  /** Whoever sleeps has a reason to: a reader an empty pipe, a writer a full one. */
  ghost predicate NoLostWakeup(s: State) {
    forall pid :: pid in s.procs ==> SleepsRightly(s, s.procs[pid])
  }

  /** A ring cannot be both full and empty, and a write that copies nothing changes nothing. */
  lemma WriteChanges(s: State, s': State, pid: nat, killed: bool)
    requires Fifo(s) && WriterReady(s, pid) && s' == AfterWrite(s, pid, killed)
    ensures !(Full(s.cells) && Empty(s.cells))
    ensures Full(s.cells) ==> s'.cells == s.cells
    ensures var w := s.procs[pid];
            Empty(s.cells) ==>
              && (Empty(s'.cells) <==> |w.addr| == w.i)
              && (PutMany(s.cells, w.addr, w.i).1 == |w.addr| <==> |w.addr| - w.i <= PIPESIZE)
  {
    var w := s.procs[pid];
    PutManyOk(s.cells, s.put, s.taken, w.addr, w.i);
    CountersTell(s.cells, s.put, s.taken);
    CountersTell(s'.cells, s'.put, s'.taken);
  }

  lemma WakeupKeeps(s: State, s': State, step: Step)
    requires Fifo(s) && NoLostWakeup(s) && NextStep(s, s', step) && !Kills(step)
    ensures NoLostWakeup(s')
  {
    if step.WriteSeg? { WriteChanges(s, s', step.pid, step.killed); }
    forall pid | pid in s'.procs
      ensures SleepsRightly(s', s'.procs[pid])
    {
      if pid in s.procs { assert SleepsRightly(s, s.procs[pid]); }
    }
  }

  /** No lost wakeup, over every run in which no process is killed in mid call. */
  lemma {:induction false} NeverLost(run: seq<State>, k: nat)
    requires IsRun(run, false) && k < |run|
    ensures NoLostWakeup(run[k])
  {
    if k > 0 {
      NeverLost(run, k - 1);
      FifoRun(run, false, k - 1);
      assert Linked(run[k - 1], run[k - 1 + 1], false);
      var step :| NextStep(run[k - 1], run[k], step) && (Kills(step) ==> false);
      WakeupKeeps(run[k - 1], run[k], step);
    }
  }

  /** Hence readers and writers never wait for each other at the same time. */
  lemma NeverBothAsleep(run: seq<State>, k: nat, r: nat, w: nat)
    requires IsRun(run, false) && k < |run| && r in run[k].procs && w in run[k].procs
    requires run[k].procs[r].Reader? && run[k].procs[w].Writer?
    ensures !run[k].procs[r].asleep || !run[k].procs[w].asleep
  {
    NeverLost(run, k);
    assert SleepsRightly(run[k], run[k].procs[r]) && SleepsRightly(run[k], run[k].procs[w]);
  }

  ghost predicate ReaderAsleep(s: State) {
    exists pid :: pid in s.procs && s.procs[pid].Reader? && s.procs[pid].asleep
  }

  /**
   A writer killed in mid call returns without waking readers. That loses a wakeup
   exactly when a reader sleeps and the write is larger than the whole pipe.
   */
  lemma KilledWriterIff(s: State, s': State, pid: nat)
    requires Fifo(s) && NoLostWakeup(s) && NextStep(s, s', WriteSeg(pid, true))
    ensures NoLostWakeup(s') <==> !(ReaderAsleep(s) && |s.procs[pid].addr| - s.procs[pid].i > PIPESIZE)
  {
    var w := s.procs[pid];
    WriteChanges(s, s', pid, true);
    if ReaderAsleep(s) && |w.addr| - w.i > PIPESIZE {
      var r :| r in s.procs && s.procs[r].Reader? && s.procs[r].asleep;
      assert SleepsRightly(s, s.procs[r]);
      assert s'.procs[r] == s.procs[r];
      assert !SleepsRightly(s', s'.procs[r]);
    } else {
      forall p | p in s'.procs
        ensures SleepsRightly(s', s'.procs[p])
      {
        assert SleepsRightly(s, s.procs[p]);
      }
    }
  }

  /** And that happens: a reader sleeps on an empty pipe, and a writer of more than fits is killed. */
  lemma KilledWriterLoses() returns (run: seq<State>)
    ensures IsRun(run, true) && !NoLostWakeup(run[|run| - 1])
  {
    var s0 := State(Cells(Zeros(PIPESIZE), 0, 0), true, true, map[], map[], [], []);
    var s1 := s0.(procs := map[1 := Reader(1, false)]);
    var s2 := s1.(procs := map[1 := Reader(1, true)]);
    var s3 := s2.(procs := s2.procs[2 := Writer(Zeros(PIPESIZE + 1), 0, false)]);
    var s4 := AfterWrite(s3, 2, true);
    run := [s0, s1, s2, s3, s4];
    assert NextStep(s0, s1, StartRead(1, 1));
    assert NextStep(s1, s2, ReadSeg(1, false));
    assert NextStep(s2, s3, StartWrite(2, Zeros(PIPESIZE + 1)));
    assert NextStep(s3, s4, WriteSeg(2, true));
    assert SleepsRightly(s3, s3.procs[1]) && ReaderAsleep(s3);
    KilledWriterIff(s3, s4, 2);
  }

  /** A reader killed in mid call never costs anyone a wakeup. */
  lemma KilledReader(s: State, s': State, pid: nat)
    requires Fifo(s) && NoLostWakeup(s) && NextStep(s, s', ReadSeg(pid, true))
    ensures NoLostWakeup(s')
  {
    forall p | p in s'.procs
      ensures SleepsRightly(s', s'.procs[p])
    {
      assert SleepsRightly(s, s.procs[p]);
    }
  }

  // ---------------------------------------------------------------- as a client of sleep and wakeup

  /** The two channels, and the data under the pipe lock on which they depend. */
  const NREAD := Other(0)
  const NWRITE := Other(1)

  datatype Shared = Shared(cells: Cells, readopen: bool, writeopen: bool)

  function Data(s: State): Shared {
    Shared(s.cells, s.readopen, s.writeopen)
  }

  /** Why a process waits on a channel; about a closed end, where nobody can be waiting, this says nothing. */
  function PipeClient(): Sleep.Client<Shared> {
    Sleep.Client({NREAD, NWRITE}, (c: Chan, d: Shared) =>
      if c == NREAD then d.readopen ==> Empty(d.cells) && d.writeopen
      else d.writeopen ==> Full(d.cells) && d.readopen)
  }

  /** Whether the step makes a wakeup on the channel. */
  predicate Wakes(s: State, step: Step, c: Chan) {
    match step
    case StartWrite(_, _) => false
    case StartRead(_, _) => false
    case WriteSeg(pid, killed) =>
      && c == NREAD && WriterReady(s, pid)
      && WriteOutcome(s.procs[pid].addr, PutMany(s.cells, s.procs[pid].addr, s.procs[pid].i).1, s.readopen, killed)
         != Failed
    case ReadSeg(_, killed) => c == NWRITE && ReadOutcome(Empty(s.cells), s.writeopen, killed) == Done
    case CloseWrite => c == NREAD
    case CloseRead => c == NWRITE
  }

  /**
   The calls keep the rules of module Sleep, unless their process is killed: whoever loses
   a reason to sleep is sent a wakeup before the lock is released, and whoever goes to
   sleep has a reason.
   */
  lemma KeepsSleepRules(s: State, s': State, step: Step, c: Chan)
    requires Fifo(s) && NoLostWakeup(s) && NextStep(s, s', step) && !Kills(step)
    ensures c in Sleep.Owed(PipeClient(), Data(s), Data(s')) ==> Wakes(s, step, c)
    ensures forall pid :: pid in s'.procs && s'.procs[pid].asleep ==>
              PipeClient().waits(if s'.procs[pid].Reader? then NREAD else NWRITE, Data(s'))
  {
    WakeupKeeps(s, s', step);
    forall pid | pid in s'.procs && s'.procs[pid].asleep
      ensures PipeClient().waits(if s'.procs[pid].Reader? then NREAD else NWRITE, Data(s'))
    {
      assert SleepsRightly(s', s'.procs[pid]);
    }
  }

  /**
   The same guarantee lock operation by lock operation: in every run of clients that keep the
   rules, whenever nobody holds the pipe lock, a reader asleep at an open end has an empty
   pipe and an open writer, and a writer a full pipe and an open reader, even if it has only
   just released the lock and is not marked asleep yet.
   */
  lemma NeverLostLockByLock(run: seq<Sleep.State<Shared>>, k: nat, p: nat)
    requires Sleep.IsRun(PipeClient(), run) && k < |run| && run[k].lk.None?
    requires p < |run[k].pcs| == |run[k].slots|
    ensures var d := run[k].data;
            && (Sleep.AsleepOn(run[k], p) == Some(NREAD) && d.readopen ==> Empty(d.cells) && d.writeopen)
            && (Sleep.AsleepOn(run[k], p) == Some(NWRITE) && d.writeopen ==> Full(d.cells) && d.readopen)
  {
    if Sleep.AsleepOn(run[k], p).Some? { Sleep.NoWakeupLost(PipeClient(), run, k, p); }
  }
}
