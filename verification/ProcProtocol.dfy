/**
 fork, exit, wait, sleep and wakeup by any number of processes. A step is one
 compare-and-swap, one lock-free assignment, or one critical section of ptable.lock.
 */
module ProcProtocol {
  import opened Common
  import opened ProcTable

  /** How far a process is in fork. */
  datatype Pc =
    | Idle
    | Scan(i: nat)                 // allocproc, about to cas slot i
    | LoadPid(np: nat)             // allocpid, about to read nextpid
    | CasPid(np: nat, local: int)  // allocpid, about to cas nextpid
    | Stack(np: nat)               // about to allocate the kernel stack
    | Copy(np: nat)                // about to copy the address space
    | Adopt(np: nat)               // about to set np->parent
    | Publish(np: nat)             // about to make np runnable

  datatype State = State(
    slots: seq<Slot>,
    pcs: seq<Pc>,
    init: nat,       // initproc
    nextpid: int,    // a 32-bit counter
    issued: seq<int>) // every value allocpid returned

  datatype Step =
    | ForkStart
    | CasSlot
    | ReadPid
    | SwapPid
    | GotStack(ok: bool)
    | Copied(ok: bool)
    | SetParent
    | SetRunnable
    | ExitStep
    | WaitReap(child: nat)
    | WaitFail
    | WaitSleep
    | SleepOn(c: nat)
    | WakeupOn(chan: Chan)
    | Yield
    | Schedule

  /** The slot a process in fork has claimed. */
  function Claim(pc: Pc): Option<nat> {
    match pc
    case Idle => None
    case Scan(_) => None
    case LoadPid(np) => Some(np)
    case CasPid(np, _) => Some(np)
    case Stack(np) => Some(np)
    case Copy(np) => Some(np)
    case Adopt(np) => Some(np)
    case Publish(np) => Some(np)
  }

  predicate Active(s: State, p: nat) {
    |s.pcs| == |s.slots| && p < |s.slots| && s.slots[p].state == RUNNING
  }

  function SetPc(s: State, p: nat, pc: Pc): State
    requires p < |s.pcs|
  {
    s.(pcs := s.pcs[p := pc])
  }

  function SetSlot(s: State, i: nat, x: Slot): State
    requires i < |s.slots|
  {
    s.(slots := s.slots[i := x])
  }

  ghost predicate ForkStep(s: State, s': State, p: nat, step: Step) {
    && Active(s, p)
    && match (step, s.pcs[p])
       case (ForkStart, Idle) => s' == SetPc(s, p, Scan(0))
       case (CasSlot, Scan(i)) =>
         if i >= |s.slots| then s' == SetPc(s, p, Idle)
         else if s.slots[i].state == UNUSED
         then s' == SetPc(SetSlot(s, i, s.slots[i].(state := EMBRYO)), p, LoadPid(i))
         else s' == SetPc(s, p, Scan(i + 1))
       case (ReadPid, LoadPid(np)) => s' == SetPc(s, p, CasPid(np, s.nextpid))
       case (SwapPid, CasPid(np, local)) =>
         if s.nextpid != local then s' == SetPc(s, p, LoadPid(np))
         else
           var pid := (local + 1) % WRAP;
           && np < |s.slots|
           && s' == SetPc(SetSlot(s, np, s.slots[np].(pid := pid)), p, Stack(np))
                    .(nextpid := pid, issued := s.issued + [pid])
       case (GotStack(ok), Stack(np)) =>
         && np < |s.slots|
         && s' == if ok then SetPc(s, p, Copy(np))
                  else SetPc(SetSlot(s, np, s.slots[np].(state := UNUSED)), p, Idle)
       case (Copied(ok), Copy(np)) =>
         && np < |s.slots|
         && s' == if ok then SetPc(s, p, Adopt(np))
                  else SetPc(SetSlot(s, np, s.slots[np].(state := UNUSED)), p, Idle)
       case (SetParent, Adopt(np)) =>
         np < |s.slots| && s' == SetPc(SetSlot(s, np, s.slots[np].(parent := Some(p))), p, Publish(np))
       case (SetRunnable, Publish(np)) =>
         np < |s.slots| && s' == SetPc(SetSlot(s, np, s.slots[np].(state := RUNNABLE)), p, Idle)
       case _ => false
  }

  ghost predicate LockStep(s: State, s': State, p: nat, step: Step) {
    && |s.pcs| == |s.slots| && p < |s.slots|
    && match step
       case ExitStep => // panics for initproc
         && Active(s, p) && s.pcs[p].Idle? && p != s.init
         && s' == s.(slots := Exited(s.slots, p, s.init))
       case WaitReap(c) =>
         && Active(s, p) && s.pcs[p].Idle? && ZombieChild(s.slots, p, c)
         && s' == s.(slots := Collected(s.slots, c))
       case WaitFail => Active(s, p) && s.pcs[p].Idle? && s' == s
       case WaitSleep =>
         && Active(s, p) && s.pcs[p].Idle? && (forall i: nat :: !ZombieChild(s.slots, p, i))
         && s' == SetSlot(s, p, s.slots[p].(state := SLEEPING, chan := OnProc(p)))
       case SleepOn(c) =>
         && Active(s, p) && s.pcs[p].Idle?
         && s' == SetSlot(s, p, s.slots[p].(state := SLEEPING, chan := Other(c)))
       case WakeupOn(chan) => s' == s.(slots := WakeAll(s.slots, chan))
       case Yield => Active(s, p) && s' == SetSlot(s, p, s.slots[p].(state := RUNNABLE))
       case Schedule => s.slots[p].state == RUNNABLE && s' == SetSlot(s, p, s.slots[p].(state := RUNNING))
       case _ => false
  }

  ghost predicate NextStep(s: State, s': State, p: nat, step: Step) {
    ForkStep(s, s', p, step) || LockStep(s, s', p, step)
  }

  ghost predicate Next(s: State, s': State) {
    exists p: nat, step :: NextStep(s, s', p, step)
  }

  /** After userinit: initproc alone, with the first pid. */
  ghost predicate Init(s: State) {
    && |s.pcs| == |s.slots| && s.init < |s.slots| && s.nextpid == 2 && s.issued == [2]
    && (forall i :: 0 <= i < |s.pcs| ==> s.pcs[i].Idle?)
    && s.slots[s.init] == Slot(RUNNABLE, 2, None, Other(0))
    && forall i :: 0 <= i < |s.slots| && i != s.init ==> s.slots[i] == Slot(UNUSED, 0, None, Other(0))
  }

  ghost predicate IsRun(run: seq<State>) {
    && |run| > 0 && Init(run[0])
    && forall k :: 0 <= k < |run| - 1 ==> Next(run[k], run[k + 1])
  }

  // ---------------------------------------------------------------- invariant

  predicate Alive(x: Slot) {
    x.state == SLEEPING || x.state == RUNNABLE || x.state == RUNNING
  }

  /** A slot's parent is alive, and every process but initproc has one; free slots have none. */
  ghost predicate FamilyAt(s: State, i: nat) {
    i < |s.slots| ==>
      var x := s.slots[i];
      && (x.parent.Some? ==> x.parent.value < |s.slots| && Alive(s.slots[x.parent.value]))
      && ((Alive(x) || x.state == ZOMBIE) && i != s.init ==> x.parent.Some?)
      && (x.state == UNUSED || i == s.init ==> x.parent.None?)
      && x.parent != Some(i)
  }

  /** A process in fork is alive and owns an embryo, to which it alone will give a parent. */
  ghost predicate ForkAt(s: State, p: nat) {
    p < |s.pcs| == |s.slots| ==>
      && (!s.pcs[p].Idle? ==> s.slots[p].state == RUNNING || s.slots[p].state == RUNNABLE)
      && match Claim(s.pcs[p])
         case None => true
         case Some(np) =>
           && np < |s.slots| && s.slots[np].state == EMBRYO
           && s.slots[np].parent == if s.pcs[p].Publish? then Some(p) else None
  }

  /** No slot is claimed by two processes. */
  ghost predicate ClaimsDiffer(s: State, p: nat, q: nat) {
    p < |s.pcs| && q < |s.pcs| && p != q && Claim(s.pcs[p]).Some? ==> Claim(s.pcs[p]) != Claim(s.pcs[q])
  }

  ghost predicate ClaimedBy(s: State, np: nat, p: nat) {
    p < |s.pcs| && Claim(s.pcs[p]) == Some(np)
  }

  /** Every embryo is some process's claim: none leaks. */
  ghost predicate EmbryoAt(s: State, np: nat) {
    np < |s.slots| && s.slots[np].state == EMBRYO ==> exists p: nat :: ClaimedBy(s, np, p)
  }

  /** A process asleep in wait has no exited child. */
  ghost predicate WaitAt(s: State, p: nat, i: nat) {
    p < |s.slots| && Sleeps(s.slots[p], OnProc(p)) ==> !ZombieChild(s.slots, p, i)
  }

  ghost predicate Inv(s: State) {
    && |s.pcs| == |s.slots| && s.init < |s.slots| && Alive(s.slots[s.init])
    && (forall i: nat :: FamilyAt(s, i))
    && (forall p: nat :: ForkAt(s, p))
    && (forall p: nat, q: nat :: ClaimsDiffer(s, p, q))
    && (forall np: nat :: EmbryoAt(s, np))
    && (forall p: nat, i: nat :: WaitAt(s, p, i))
  }

  // ---------------------------------------------------------------- every step keeps it

  /** Steps of fork that move only the caller's own position. */
  lemma PcStep(s: State, s': State, p: nat, pc: Pc)
    requires Inv(s) && Active(s, p) && s' == SetPc(s, p, pc)
    requires Claim(pc) == Claim(s.pcs[p]) && !pc.Publish? && !s.pcs[p].Publish?
    ensures Inv(s')
  {
    forall i: nat ensures FamilyAt(s', i) { assert FamilyAt(s, i); }
    forall q: nat ensures ForkAt(s', q) { assert ForkAt(s, q); }
    forall q: nat, r: nat ensures ClaimsDiffer(s', q, r) { assert ClaimsDiffer(s, q, r); }
    forall np: nat ensures EmbryoAt(s', np) {
      assert EmbryoAt(s, np);
      if np < |s.slots| && s.slots[np].state == EMBRYO {
        var q: nat :| ClaimedBy(s, np, q);
        assert ClaimedBy(s', np, q);
      }
    }
    forall q: nat, i: nat ensures WaitAt(s', q, i) { assert WaitAt(s, q, i); }
  }

  /** The winning cas of allocproc. */
  lemma ClaimStep(s: State, s': State, p: nat, i: nat)
    requires Inv(s) && Active(s, p) && s.pcs[p].Scan? && i < |s.slots| && s.slots[i].state == UNUSED
    requires s' == SetPc(SetSlot(s, i, s.slots[i].(state := EMBRYO)), p, LoadPid(i))
    ensures Inv(s')
  {
    assert FamilyAt(s, i);
    forall j: nat ensures FamilyAt(s', j) { assert FamilyAt(s, j); }
    forall q: nat ensures ForkAt(s', q) { assert ForkAt(s, q); }
    forall q: nat, r: nat ensures ClaimsDiffer(s', q, r) {
      assert ClaimsDiffer(s, q, r) && ForkAt(s, q) && ForkAt(s, r);
    }
    forall np: nat ensures EmbryoAt(s', np) {
      assert EmbryoAt(s, np);
      if np == i {
        assert ClaimedBy(s', np, p);
      } else if np < |s.slots| && s.slots[np].state == EMBRYO {
        var q: nat :| ClaimedBy(s, np, q);
        assert ClaimedBy(s', np, q);
      }
    }
    forall q: nat, j: nat ensures WaitAt(s', q, j) { assert WaitAt(s, q, j); }
  }

  /** fork gives up: the embryo becomes a free slot again. */
  lemma DropStep(s: State, s': State, p: nat, np: nat)
    requires Inv(s) && Active(s, p) && Claim(s.pcs[p]) == Some(np) && !s.pcs[p].Publish? && np < |s.slots|
    requires s' == SetPc(SetSlot(s, np, s.slots[np].(state := UNUSED)), p, Idle)
    ensures Inv(s')
  {
    assert ForkAt(s, p);
    forall j: nat ensures FamilyAt(s', j) { assert FamilyAt(s, j); }
    forall q: nat ensures ForkAt(s', q) { assert ForkAt(s, q) && ClaimsDiffer(s, p, q); }
    forall q: nat, r: nat ensures ClaimsDiffer(s', q, r) { assert ClaimsDiffer(s, q, r); }
    forall m: nat ensures EmbryoAt(s', m) {
      assert EmbryoAt(s, m);
      if m != np && m < |s.slots| && s.slots[m].state == EMBRYO {
        var q: nat :| ClaimedBy(s, m, q);
        assert ClaimedBy(s', m, q);
      }
    }
    forall q: nat, j: nat ensures WaitAt(s', q, j) { assert WaitAt(s, q, j); }
  }

  /** Changes to the claimed embryo's pid or parent. */
  lemma EmbryoStep(s: State, s': State, p: nat, np: nat, x: Slot, pc: Pc)
    requires Inv(s) && Active(s, p) && Claim(s.pcs[p]) == Claim(pc) == Some(np) && np < |s.slots|
    requires x == s.slots[np].(pid := x.pid, parent := x.parent)
    requires x.parent == (if pc.Publish? then Some(p) else None)
    requires s'.slots == s.slots[np := x] && s'.pcs == s.pcs[p := pc] && s'.init == s.init
    ensures Inv(s')
  {
    assert ForkAt(s, p);
    forall j: nat ensures FamilyAt(s', j) { assert FamilyAt(s, j); }
    forall q: nat ensures ForkAt(s', q) { assert ForkAt(s, q) && ClaimsDiffer(s, p, q); }
    forall q: nat, r: nat ensures ClaimsDiffer(s', q, r) { assert ClaimsDiffer(s, q, r); }
    forall m: nat ensures EmbryoAt(s', m) {
      assert EmbryoAt(s, m);
      if m < |s.slots| && s.slots[m].state == EMBRYO {
        var q: nat :| ClaimedBy(s, m, q);
        assert ClaimedBy(s', m, q);
      }
    }
    forall q: nat, j: nat ensures WaitAt(s', q, j) { assert WaitAt(s, q, j); }
  }

  /** The child becomes runnable. */
  lemma PublishStep(s: State, s': State, p: nat, np: nat)
    requires Inv(s) && Active(s, p) && s.pcs[p] == Publish(np) && np < |s.slots|
    requires s' == SetPc(SetSlot(s, np, s.slots[np].(state := RUNNABLE)), p, Idle)
    ensures Inv(s')
  {
    assert ForkAt(s, p) && FamilyAt(s, np);
    forall j: nat ensures FamilyAt(s', j) { assert FamilyAt(s, j); }
    forall q: nat ensures ForkAt(s', q) { assert ForkAt(s, q) && ClaimsDiffer(s, p, q); }
    forall q: nat, r: nat ensures ClaimsDiffer(s', q, r) { assert ClaimsDiffer(s, q, r); }
    forall m: nat ensures EmbryoAt(s', m) {
      assert EmbryoAt(s, m);
      if m != np && m < |s.slots| && s.slots[m].state == EMBRYO {
        var q: nat :| ClaimedBy(s, m, q);
        assert ClaimedBy(s', m, q);
      }
    }
    forall q: nat, j: nat ensures WaitAt(s', q, j) { assert WaitAt(s, q, j); }
  }

  lemma ForkKeeps(s: State, s': State, p: nat, step: Step)
    requires Inv(s) && ForkStep(s, s', p, step)
    ensures Inv(s')
  {
    assert ForkAt(s, p);
    match (step, s.pcs[p])
    case (ForkStart, Idle) => PcStep(s, s', p, Scan(0));
    case (CasSlot, Scan(i)) =>
      if i >= |s.slots| { PcStep(s, s', p, Idle); }
      else if s.slots[i].state == UNUSED { ClaimStep(s, s', p, i); }
      else { PcStep(s, s', p, Scan(i + 1)); }
    case (ReadPid, LoadPid(np)) => PcStep(s, s', p, CasPid(np, s.nextpid));
    case (SwapPid, CasPid(np, local)) =>
      if s.nextpid != local { PcStep(s, s', p, LoadPid(np)); }
      else { EmbryoStep(s, s', p, np, s'.slots[np], Stack(np)); }
    case (GotStack(ok), Stack(np)) =>
      if ok { PcStep(s, s', p, Copy(np)); } else { DropStep(s, s', p, np); }
    case (Copied(ok), Copy(np)) =>
      if ok { PcStep(s, s', p, Adopt(np)); } else { DropStep(s, s', p, np); }
    case (SetParent, Adopt(np)) => EmbryoStep(s, s', p, np, s'.slots[np], Publish(np));
    case (SetRunnable, Publish(np)) => PublishStep(s, s', p, np);
    case _ =>
  }

  /** Table changes that only let sleepers run, or move a process between its live states. */
  ghost predicate Milder(s: State, s': State) {
    && |s'.slots| == |s.slots| && s'.pcs == s.pcs && s'.init == s.init
    && forall i: nat :: MilderAt(s, s', i)
  }

  ghost predicate MilderAt(s: State, s': State, i: nat) {
    i < |s.slots| == |s'.slots| ==>
      var x, y := s.slots[i], s'.slots[i];
      && y.parent == x.parent && (x.state == y.state || (Alive(x) && Alive(y)))
      && (Sleeps(y, OnProc(i)) ==> Sleeps(x, OnProc(i)) || forall j: nat :: !ZombieChild(s.slots, i, j))
      && (i < |s.pcs| && !s.pcs[i].Idle? && x.state != y.state ==> y.state == RUNNABLE || y.state == RUNNING)
  }

  lemma MilderKeeps(s: State, s': State)
    requires Inv(s) && Milder(s, s')
    ensures Inv(s')
  {
    assert MilderAt(s, s', s.init);
    forall i: nat ensures FamilyAt(s', i) {
      assert FamilyAt(s, i) && MilderAt(s, s', i);
      if i < |s.slots| && s.slots[i].parent.Some? { assert MilderAt(s, s', s.slots[i].parent.value); }
    }
    forall p: nat ensures ForkAt(s', p) {
      assert ForkAt(s, p) && MilderAt(s, s', p);
      if p < |s.pcs| && Claim(s.pcs[p]).Some? { assert MilderAt(s, s', Claim(s.pcs[p]).value); }
    }
    forall p: nat, q: nat ensures ClaimsDiffer(s', p, q) { assert ClaimsDiffer(s, p, q); }
    forall np: nat ensures EmbryoAt(s', np) {
      assert EmbryoAt(s, np) && MilderAt(s, s', np);
      if np < |s.slots| && s.slots[np].state == EMBRYO {
        var q: nat :| ClaimedBy(s, np, q);
        assert ClaimedBy(s', np, q);
      }
    }
    forall p: nat, i: nat ensures WaitAt(s', p, i) {
      assert WaitAt(s, p, i) && MilderAt(s, s', p) && MilderAt(s, s', i);
      if ZombieChild(s'.slots, p, i) { assert ZombieChild(s.slots, p, i); }
    }
  }

  lemma ExitFamily(s: State, s': State, p: nat, i: nat)
    requires Inv(s) && LockStep(s, s', p, ExitStep)
    ensures FamilyAt(s', i) && ForkAt(s', i)
  {
    assert FamilyAt(s, i) && ForkAt(s, i) && FamilyAt(s, p);
    if i < |s.slots| {
      ExitedAt(s.slots, p, s.init, i);
      ExitedAt(s.slots, p, s.init, s.init);
      if s.slots[i].parent.Some? { ExitedAt(s.slots, p, s.init, s.slots[i].parent.value); }
      match Claim(s.pcs[i])
      case None =>
      case Some(np) => ExitedAt(s.slots, p, s.init, np);
    }
  }

  /** exit leaves nobody asleep in wait over a zombie: neither its parent nor init. */
  lemma ExitWait(s: State, s': State, p: nat, q: nat, i: nat)
    requires Inv(s) && LockStep(s, s', p, ExitStep)
    ensures WaitAt(s', q, i)
  {
    assert WaitAt(s, q, i) && FamilyAt(s, i);
    if q < |s.slots| && i < |s.slots| {
      ExitedAt(s.slots, p, s.init, q);
      ExitedAt(s.slots, p, s.init, i);
      if s.slots[i].parent == Some(p) && s.slots[i].state == ZOMBIE {
        assert ZombieChild(s.slots, p, i);
      }
    }
  }

  lemma ExitKeeps(s: State, s': State, p: nat)
    requires Inv(s) && LockStep(s, s', p, ExitStep)
    ensures Inv(s')
  {
    ExitedAt(s.slots, p, s.init, s.init);
    forall i: nat ensures FamilyAt(s', i) && ForkAt(s', i) { ExitFamily(s, s', p, i); }
    forall q: nat, r: nat ensures ClaimsDiffer(s', q, r) { assert ClaimsDiffer(s, q, r); }
    forall np: nat ensures EmbryoAt(s', np) {
      assert EmbryoAt(s, np);
      if np < |s.slots| { ExitedAt(s.slots, p, s.init, np); }
      if np < |s.slots| && s.slots[np].state == EMBRYO {
        var q: nat :| ClaimedBy(s, np, q);
        assert ClaimedBy(s', np, q);
      }
    }
    forall q: nat, i: nat ensures WaitAt(s', q, i) { ExitWait(s, s', p, q, i); }
  }

  lemma ReapKeeps(s: State, s': State, p: nat, c: nat)
    requires Inv(s) && LockStep(s, s', p, WaitReap(c))
    ensures Inv(s')
  {
    assert ForkAt(s, c);
    forall i: nat ensures FamilyAt(s', i) { assert FamilyAt(s, i); }
    forall q: nat ensures ForkAt(s', q) { assert ForkAt(s, q); }
    forall q: nat, r: nat ensures ClaimsDiffer(s', q, r) { assert ClaimsDiffer(s, q, r); }
    forall np: nat ensures EmbryoAt(s', np) {
      assert EmbryoAt(s, np);
      if np < |s.slots| && s.slots[np].state == EMBRYO {
        var q: nat :| ClaimedBy(s, np, q);
        assert ClaimedBy(s', np, q);
      }
    }
    forall q: nat, i: nat ensures WaitAt(s', q, i) { assert WaitAt(s, q, i); }
  }

  lemma LockKeeps(s: State, s': State, p: nat, step: Step)
    requires Inv(s) && LockStep(s, s', p, step)
    ensures Inv(s')
  {
    if step.ExitStep? {
      ExitKeeps(s, s', p);
    } else if step.WaitReap? {
      ReapKeeps(s, s', p, step.child);
    } else {
      forall i: nat ensures MilderAt(s, s', i) { assert ForkAt(s, i); }
      MilderKeeps(s, s');
    }
  }

  // ---------------------------------------------------------------- whole runs

  lemma {:induction false} RunInv(run: seq<State>, k: nat)
    requires IsRun(run) && k < |run|
    ensures Inv(run[k])
  {
    if k == 0 {
      var s := run[0];
      assert forall i: nat :: FamilyAt(s, i) && ForkAt(s, i) && EmbryoAt(s, i);
      assert forall p: nat, q: nat :: ClaimsDiffer(s, p, q) && WaitAt(s, p, q);
    } else {
      RunInv(run, k - 1);
      var s, s' := run[k - 1], run[k - 1 + 1];
      assert Next(s, s');
      var p: nat, step :| NextStep(s, s', p, step);
      if ForkStep(s, s', p, step) {
        ForkKeeps(s, s', p, step);
      } else {
        LockKeeps(s, s', p, step);
      }
    }
  }

  /** No lost wakeup between exit and wait: nobody sleeps in wait while a child of theirs has exited. */
  lemma NoMissedExit(run: seq<State>, k: nat, p: nat, child: nat)
    requires IsRun(run) && k < |run| && p < |run[k].slots| && ZombieChild(run[k].slots, p, child)
    ensures !Sleeps(run[k].slots[p], OnProc(p))
  {
    RunInv(run, k);
    assert WaitAt(run[k], p, child);
  }

  /** Every process from its first run until it is collected has a live parent, initproc apart. */
  lemma ParentsAlive(run: seq<State>, k: nat, i: nat)
    requires IsRun(run) && k < |run| && i < |run[k].slots|
    ensures var s := run[k];
            var x := s.slots[i];
            && (i != s.init && (Alive(x) || x.state == ZOMBIE) ==> x.parent.Some?)
            && (x.parent.Some? ==> x.parent.value < |s.slots| && x.parent.value != i && Alive(s.slots[x.parent.value]))
    ensures run[k].init < |run[k].slots| && Alive(run[k].slots[run[k].init])
  {
    RunInv(run, k);
    assert FamilyAt(run[k], i);
  }

  /** Two processes in fork never hold the same slot, and a slot being set up always has its one owner. */
  lemma SlotsOwnedOnce(run: seq<State>, k: nat, np: nat)
    requires IsRun(run) && k < |run| && np < |run[k].slots|
    ensures forall p: nat, q: nat :: ClaimedBy(run[k], np, p) && ClaimedBy(run[k], np, q) ==> p == q
    ensures run[k].slots[np].state == EMBRYO <==> exists p: nat :: ClaimedBy(run[k], np, p)
  {
    RunInv(run, k);
    var s := run[k];
    assert EmbryoAt(s, np);
    forall p: nat, q: nat | ClaimedBy(s, np, p) && ClaimedBy(s, np, q)
      ensures p == q && s.slots[np].state == EMBRYO
    {
      assert ClaimsDiffer(s, p, q) && ForkAt(s, p);
    }
    if p: nat :| ClaimedBy(s, np, p) { assert ForkAt(s, p); }
  }

  ghost predicate Goes(s: State, p: nat, step: Step) {
    exists s' :: ForkStep(s, s', p, step)
  }

  /** In every run a process in the middle of fork that has a processor has a next step. */
  lemma ForkGoesOn(run: seq<State>, k: nat, p: nat)
    requires IsRun(run) && k < |run| && p < |run[k].pcs| == |run[k].slots|
    requires run[k].slots[p].state == RUNNING && !run[k].pcs[p].Idle?
    ensures exists step :: Goes(run[k], p, step)
  {
    var s := run[k];
    RunInv(run, k);
    assert ForkAt(s, p);
    match s.pcs[p]
    case Scan(i) =>
      if i >= |s.slots| {
        assert ForkStep(s, SetPc(s, p, Idle), p, CasSlot);
      } else if s.slots[i].state == UNUSED {
        assert ForkStep(s, SetPc(SetSlot(s, i, s.slots[i].(state := EMBRYO)), p, LoadPid(i)), p, CasSlot);
      } else {
        assert ForkStep(s, SetPc(s, p, Scan(i + 1)), p, CasSlot);
      }
      assert Goes(s, p, CasSlot);
    case LoadPid(np) =>
      assert ForkStep(s, SetPc(s, p, CasPid(np, s.nextpid)), p, ReadPid);
      assert Goes(s, p, ReadPid);
    case CasPid(np, local) =>
      PidGoes(s, p, np, local);
    case Stack(np) =>
      assert ForkStep(s, SetPc(s, p, Copy(np)), p, GotStack(true));
      assert Goes(s, p, GotStack(true));
    case Copy(np) =>
      assert ForkStep(s, SetPc(s, p, Adopt(np)), p, Copied(true));
      assert Goes(s, p, Copied(true));
    case Adopt(np) =>
      assert ForkStep(s, SetPc(SetSlot(s, np, s.slots[np].(parent := Some(p))), p, Publish(np)), p, SetParent);
      assert Goes(s, p, SetParent);
    case Publish(np) =>
      assert ForkStep(s, SetPc(SetSlot(s, np, s.slots[np].(state := RUNNABLE)), p, Idle), p, SetRunnable);
      assert Goes(s, p, SetRunnable);
  }

  lemma PidGoes(s: State, p: nat, np: nat, local: int)
    requires Active(s, p) && s.pcs[p] == CasPid(np, local) && np < |s.slots|
    ensures Goes(s, p, SwapPid)
  {
    if s.nextpid != local {
      assert ForkStep(s, SetPc(s, p, LoadPid(np)), p, SwapPid);
    } else {
      var pid := (local + 1) % WRAP;
      var t := SetPc(SetSlot(s, np, s.slots[np].(pid := pid)), p, Stack(np));
      assert ForkStep(s, t.(nextpid := pid, issued := s.issued + [pid]), p, SwapPid);
    }
  }

  // ---------------------------------------------------------------- the scan of allocproc

  /** At m process p tried slot j and found it in use; since then, up to k, it has been scanning. */
  ghost predicate Tried(run: seq<State>, m: nat, k: nat, p: nat, j: nat) {
    && m < k < |run| && p < |run[m].pcs| && run[m].pcs[p] == Scan(j)
    && j < |run[m].slots| && run[m].slots[j].state != UNUSED
    && forall n: nat :: m < n <= k ==> Scanning(run[n], p)
  }

  ghost predicate Scanning(s: State, p: nat) {
    p < |s.pcs| && s.pcs[p].Scan?
  }

  lemma TriedOn(run: seq<State>, m: nat, k: nat, p: nat, j: nat)
    requires Tried(run, m, k, p, j) && k + 1 < |run| && Scanning(run[k + 1], p)
    ensures Tried(run, m, k + 1, p, j)
  {
    forall n: nat | m < n <= k + 1 ensures Scanning(run[n], p) {}
  }

  /** A process's place in fork is changed by its own steps only. */
  lemma OwnSteps(s: State, s': State, q: nat, step: Step, p: nat)
    requires NextStep(s, s', q, step) && p < |s.pcs| && p != q
    ensures |s'.pcs| == |s.pcs| && s'.pcs[p] == s.pcs[p]
  {
  }

  /** How a scan comes to slot i: from the start of fork, or from slot i - 1, which was in use. */
  lemma ScanFrom(s: State, s': State, p: nat, i: nat)
    requires Next(s, s') && p < |s'.pcs| && s'.pcs[p] == Scan(i)
    ensures
      || i == 0 || (p < |s.pcs| && s.pcs[p] == Scan(i))
      || (p < |s.pcs| && s.pcs[p] == Scan(i - 1) && i - 1 < |s.slots| && s.slots[i - 1].state != UNUSED)
  {
    var q: nat, step :| NextStep(s, s', q, step);
    if p != q && p < |s.pcs| { OwnSteps(s, s', q, step, p); }
  }

  /** In every run, a scan that has come to slot i has tried all slots before it and found them in use. */
  lemma {:induction false} ScanTries(run: seq<State>, k: nat, p: nat, i: nat, j: nat) returns (m: nat)
    requires IsRun(run) && k < |run| && p < |run[k].pcs| && run[k].pcs[p] == Scan(i) && j < i
    ensures Tried(run, m, k, p, j)
  {
    m := 0;
    if k > 0 {
      var s, s' := run[k - 1], run[k - 1 + 1];
      assert Next(s, s');
      ScanFrom(s, s', p, i);
      if p < |s.pcs| && s.pcs[p] == Scan(i) {
        m := ScanTries(run, k - 1, p, i, j);
        TriedOn(run, m, k - 1, p, j);
      } else if j < i - 1 {
        m := ScanTries(run, k - 1, p, i - 1, j);
        TriedOn(run, m, k - 1, p, j);
      } else {
        m := k - 1;
        assert Tried(run, m, k, p, j);
      }
    }
  }

  /** A fork that finds no slot has tried every slot of the table during its scan and found it in use. */
  lemma FailedScan(run: seq<State>, k: nat, p: nat, j: nat) returns (m: nat)
    requires IsRun(run) && k + 1 < |run| && p < |run[k].pcs| && run[k].pcs[p].Scan?
    requires NextStep(run[k], run[k + 1], p, CasSlot) && run[k + 1].pcs[p].Idle? && j < |run[k].slots|
    ensures Tried(run, m, k, p, j)
  {
    m := ScanTries(run, k, p, run[k].pcs[p].i, j);
  }

  /** A stretch of a run in which only p moves, from its trying slot i to the end of its scan. */
  ghost predicate ScansAlone(run: seq<State>, p: nat, i: nat) {
    && |run| >= 2 && p < |run[0].pcs| && run[0].pcs[p] == Scan(i)
    && (forall n: nat :: n < |run| - 1 ==> Tries(run[n], run[n + 1], p))
    && p < |run[|run| - 1].pcs| && !run[|run| - 1].pcs[p].Scan?
  }

  ghost predicate Tries(s: State, s': State, p: nat) {
    p < |s.pcs| && s.pcs[p].Scan? && NextStep(s, s', p, CasSlot)
  }

  /** With no other process interfering the scan is ClaimSlot: it claims the first unused slot, or there is none. */
  lemma {:induction false} AloneScan(run: seq<State>, p: nat, i: nat)
    requires ScansAlone(run, p, i)
    requires forall j :: 0 <= j < i && j < |run[0].slots| ==> run[0].slots[j].state != UNUSED
    ensures
      var s, s' := run[0], run[|run| - 1];
      if exists j :: 0 <= j < |s.slots| && s.slots[j].state == UNUSED then
        exists np: nat ::
          && np < |s.slots| && s.slots[np].state == UNUSED && s'.pcs[p] == LoadPid(np)
          && (forall j :: 0 <= j < np ==> s.slots[j].state != UNUSED)
          && s'.slots == s.slots[np := s.slots[np].(state := EMBRYO)]
      else s'.pcs[p] == Idle && s'.slots == s.slots
    decreases |run|
  {
    var s, t := run[0], run[1];
    assert Tries(run[0], run[0 + 1], p) && (|run| > 2 ==> Tries(run[1], run[1 + 1], p));
    if t.pcs[p].Scan? {
      var rest := run[1..];
      forall n: nat | n < |rest| - 1 ensures Tries(rest[n], rest[n + 1], p) {
        assert Tries(run[n + 1], run[n + 1 + 1], p);
      }
      assert rest[|rest| - 1] == run[|run| - 1];
      AloneScan(rest, p, i + 1);
    }
  }

  // ---------------------------------------------------------------- process ids

  /** allocpid's results count up from 2 modulo 2^32. */
  ghost predicate CountAt(s: State, k: nat) {
    k < |s.issued| ==> s.issued[k] == (k + 2) % WRAP
  }

  ghost predicate PidAt(s: State, i: nat) {
    i < |s.slots| ==> 0 <= s.slots[i].pid <= |s.issued| + 1
  }

  ghost predicate PidsDiffer(s: State, i: nat, j: nat) {
    i < |s.slots| && j < |s.slots| && i != j && s.slots[i].pid != 0 ==> s.slots[i].pid != s.slots[j].pid
  }

  ghost predicate PidInv(s: State) {
    && |s.issued| >= 1 && s.nextpid == (|s.issued| + 1) % WRAP
    && (forall k: nat :: CountAt(s, k))
    && (|s.issued| + 1 < WRAP ==> (forall i: nat :: PidAt(s, i)) && forall i: nat, j: nat :: PidsDiffer(s, i, j))
  }

  lemma PidSwap(s: State, s': State, np: nat)
    requires PidInv(s) && np < |s.slots|
    requires s'.nextpid == (s.nextpid + 1) % WRAP && s'.issued == s.issued + [s'.nextpid]
    requires s'.slots == s.slots[np := s.slots[np].(pid := s'.nextpid)]
    ensures PidInv(s')
  {
    assert s'.nextpid == (|s.issued| + 2) % WRAP;
    forall k: nat ensures CountAt(s', k) { assert CountAt(s, k); }
    if |s'.issued| + 1 < WRAP {
      forall i: nat ensures PidAt(s', i) { assert PidAt(s, i); }
      forall i: nat, j: nat ensures PidsDiffer(s', i, j) {
        assert PidsDiffer(s, i, j) && PidAt(s, i) && PidAt(s, j);
      }
    }
  }

  lemma PidSame(s: State, s': State)
    requires PidInv(s) && s'.nextpid == s.nextpid && s'.issued == s.issued && |s'.slots| == |s.slots|
    requires forall i :: 0 <= i < |s.slots| ==> s'.slots[i].pid == s.slots[i].pid || s'.slots[i].pid == 0
    ensures PidInv(s')
  {
    forall k: nat ensures CountAt(s', k) { assert CountAt(s, k); }
    if |s'.issued| + 1 < WRAP {
      forall i: nat ensures PidAt(s', i) { assert PidAt(s, i); }
      forall i: nat, j: nat ensures PidsDiffer(s', i, j) { assert PidsDiffer(s, i, j) && PidsDiffer(s, j, i); }
    }
  }

  lemma PidKeeps(s: State, s': State, p: nat, step: Step)
    requires PidInv(s) && NextStep(s, s', p, step)
    ensures PidInv(s')
  {
    if ForkStep(s, s', p, step) && step.SwapPid? && s.nextpid == s.pcs[p].local {
      PidSwap(s, s', s.pcs[p].np);
    } else {
      forall i | 0 <= i < |s.slots|
        ensures s'.slots[i].pid == s.slots[i].pid || s'.slots[i].pid == 0
      {
        if step.ExitStep? { ExitedAt(s.slots, p, s.init, i); }
      }
      PidSame(s, s');
    }
  }

  lemma {:induction false} RunPids(run: seq<State>, k: nat)
    requires IsRun(run) && k < |run|
    ensures PidInv(run[k])
  {
    if k == 0 {
      var s := run[0];
      assert forall i: nat :: CountAt(s, i) && PidAt(s, i);
      assert forall i: nat, j: nat :: PidsDiffer(s, i, j);
    } else {
      RunPids(run, k - 1);
      var s, s' := run[k - 1], run[k - 1 + 1];
      assert Next(s, s');
      var p: nat, step :| NextStep(s, s', p, step);
      PidKeeps(s, s', p, step);
    }
  }

  lemma ModEqual(a: nat, b: nat)
    requires a <= b
    ensures a % WRAP == b % WRAP <==> (b - a) % WRAP == 0
  {
    assert b - a == (b / WRAP - a / WRAP) * WRAP + (b % WRAP - a % WRAP);
    var q, r := b / WRAP - a / WRAP, b % WRAP - a % WRAP;
    if r == 0 {
      assert (q * WRAP) % WRAP == 0;
    }
  }

  /**
   However many CPUs race in allocpid, the i-th and j-th ids handed out are equal
   exactly when a multiple of 2^32 calls lies between them.
   */
  lemma PidsEqualIff(run: seq<State>, k: nat, i: nat, j: nat)
    requires IsRun(run) && k < |run| && i <= j < |run[k].issued|
    ensures run[k].issued[i] == run[k].issued[j] <==> (j - i) % WRAP == 0
  {
    RunPids(run, k);
    assert CountAt(run[k], i) && CountAt(run[k], j);
    ModEqual(i + 2, j + 2);
  }

  /** Until then no two table slots carry the same id. */
  lemma PidsUnique(run: seq<State>, k: nat, i: nat, j: nat)
    requires IsRun(run) && k < |run| && |run[k].issued| + 1 < WRAP
    requires i < |run[k].slots| && j < |run[k].slots| && i != j && run[k].slots[i].pid != 0
    ensures run[k].slots[i].pid != run[k].slots[j].pid
  {
    RunPids(run, k);
    assert PidsDiffer(run[k], i, j);
  }
}
