/**
 sleep and wakeup of proc.c, lock operation by lock operation, for any number of processes
 that share some data under a spin lock lk. The sleeper takes ptable.lock before it lets go
 of lk, and marks itself asleep after; the waker takes ptable.lock to look for sleepers.
 */
module Sleep {
  import opened Common
  import opened ProcTable

  /** Channels sleep is called on, and what the shared data must say for a process to wait there. */
  datatype Client<!D> = Client(chans: set<Chan>, waits: (Chan, D) -> bool)

  datatype Pc =
    | Out                                      // outside; holds neither lock
    | Crit(debt: set<Chan>)                    // holds lk, and owes wakeups
    | Falling(c: Chan)                         // in sleep, holds lk, wants ptable.lock
    | Both(c: Chan)                            // in sleep, holds both
    | Gap(c: Chan)                             // lk released, not yet asleep
    | Marked(c: Chan)                          // p->chan is set
    | Fallen                                   // p->state is set; in sched
    | Away                                     // switched out, and ptable.lock released
    | Tidy                                     // picked by a scheduler, which took ptable.lock
    | Back                                     // ptable.lock released, wants lk
    | Calling(c: Chan, debt: set<Chan>)        // in wakeup, holds lk, wants ptable.lock
    | Waking(c: Chan, i: nat, debt: set<Chan>) // in wakeup1, at slot i; holds both

  predicate HoldsLk(pc: Pc) {
    pc.Crit? || pc.Falling? || pc.Both? || pc.Calling? || pc.Waking?
  }

  predicate HoldsPtable(pc: Pc) {
    pc.Both? || pc.Gap? || pc.Marked? || pc.Fallen? || pc.Tidy? || pc.Waking?
  }

  function Debt(pc: Pc): set<Chan> {
    if pc.Crit? || pc.Calling? || pc.Waking? then pc.debt else {}
  }

  datatype State<D> = State(
    data: D,             // what lk protects
    lk: Option<nat>,     // who holds lk
    ptable: Option<nat>, // who holds ptable.lock
    slots: seq<Slot>,
    pcs: seq<Pc>)

  datatype Step<D> =
    | Acquire
    | Act(d: D)
    | Release
    | CallWakeup(c: Chan)
    | LockToWake
    | Visit
    | EndWakeup
    | CallSleep(c: Chan)
    | LockToSleep
    | HandOver
    | SetChan
    | SetState
    | Switch
    | Pick
    | Resume

  /** The channels whose waiters have had their reason to wait taken away. */
  function Owed<D>(cl: Client<D>, d: D, d': D): set<Chan> {
    set c | c in cl.chans && cl.waits(c, d) && !cl.waits(c, d')
  }

  function At<D>(s: State<D>, p: nat, pc: Pc): State<D>
    requires p < |s.pcs|
  {
    s.(pcs := s.pcs[p := pc])
  }

  /**
   Clients change the data only under lk, sleep only after finding a reason to, and wake
   the waiters whose reason they took away before they release lk or sleep themselves.
   */
  ghost predicate NextStep<D>(cl: Client<D>, s: State<D>, s': State<D>, p: nat, step: Step<D>) {
    && |s.slots| == |s.pcs| && p < |s.pcs|
    && match (step, s.pcs[p])
       case (Acquire, Out) => s.lk.None? && s' == At(s, p, Crit({})).(lk := Some(p))
       case (Acquire, Back) => s.lk.None? && s' == At(s, p, Crit({})).(lk := Some(p))
       case (Act(d), Crit(debt)) => s' == At(s, p, Crit(debt + Owed(cl, s.data, d))).(data := d)
       case (Release, Crit(debt)) => debt == {} && s' == At(s, p, Out).(lk := None)
       case (CallWakeup(c), Crit(debt)) => s' == At(s, p, Calling(c, debt))
       case (LockToWake, Calling(c, debt)) =>
         s.ptable.None? && s' == At(s, p, Waking(c, 0, debt)).(ptable := Some(p))
       case (Visit, Waking(c, i, debt)) =>
         i < |s.slots| && s' == At(s, p, Waking(c, i + 1, debt)).(slots := s.slots[i := Woken(s.slots[i], c)])
       case (EndWakeup, Waking(c, i, debt)) =>
         i == |s.slots| && s' == At(s, p, Crit(debt - {c})).(ptable := None)
       case (CallSleep(c), Crit(debt)) =>
         debt == {} && c in cl.chans && cl.waits(c, s.data) && s' == At(s, p, Falling(c))
       case (LockToSleep, Falling(c)) => s.ptable.None? && s' == At(s, p, Both(c)).(ptable := Some(p))
       case (HandOver, Both(c)) => s' == At(s, p, Gap(c)).(lk := None)
       case (SetChan, Gap(c)) => s' == At(s, p, Marked(c)).(slots := s.slots[p := s.slots[p].(chan := c)])
       case (SetState, Marked(c)) => s' == At(s, p, Fallen).(slots := s.slots[p := s.slots[p].(state := SLEEPING)])
       case (Switch, Fallen) => s' == At(s, p, Away).(ptable := None)
       case (Pick, Away) =>
         && s.slots[p].state == RUNNABLE && s.ptable.None?
         && s' == At(s, p, Tidy).(ptable := Some(p), slots := s.slots[p := s.slots[p].(state := RUNNING)])
       case (Resume, Tidy) => s' == At(s, p, Back).(ptable := None)
       case _ => false
  }

  ghost predicate Next<D(!new)>(cl: Client<D>, s: State<D>, s': State<D>) {
    exists p: nat, step :: NextStep(cl, s, s', p, step)
  }

  ghost predicate Init<D>(s: State<D>) {
    && |s.slots| == |s.pcs| && s.lk == None && s.ptable == None
    && forall p :: 0 <= p < |s.pcs| ==> s.pcs[p] == Out && s.slots[p].state == RUNNING
  }

  ghost predicate IsRun<D(!new)>(cl: Client<D>, run: seq<State<D>>) {
    && |run| > 0 && Init(run[0])
    && forall k :: 0 <= k < |run| - 1 ==> Next(cl, run[k], run[k + 1])
  }

  // ---------------------------------------------------------------- invariant

  /** The channel a process waits on from the moment it has released lk in sleep until it is woken. */
  function AsleepOn<D>(s: State<D>, p: nat): Option<Chan>
    requires |s.slots| == |s.pcs| && p < |s.pcs|
  {
    var pc := s.pcs[p];
    if pc.Gap? || pc.Marked? then Some(pc.c)
    else if (pc.Fallen? || pc.Away?) && s.slots[p].state == SLEEPING then Some(s.slots[p].chan)
    else None
  }

  /** Each lock is held by the process that says so, and its state is what its place in the code implies. */
  ghost predicate PlaceOk<D>(cl: Client<D>, s: State<D>, p: nat) {
    p < |s.pcs| == |s.slots| ==>
      var pc, x := s.pcs[p], s.slots[p];
      && (HoldsLk(pc) <==> s.lk == Some(p)) && (HoldsPtable(pc) <==> s.ptable == Some(p))
      && (pc.Fallen? ==> x.state == SLEEPING) && (pc.Marked? ==> x.chan == pc.c)
      && (if pc.Away? then x.state == SLEEPING || x.state == RUNNABLE else pc.Fallen? || x.state == RUNNING)
      && (pc.Falling? || pc.Both? ==> pc.c in cl.chans && cl.waits(pc.c, s.data))
  }

  /** Whoever is asleep has a reason to, unless the holder of lk has yet to wake them. */
  ghost predicate RightlyAsleep<D>(cl: Client<D>, s: State<D>, p: nat) {
    p < |s.pcs| == |s.slots| && AsleepOn(s, p).Some? ==>
      var c := AsleepOn(s, p).value;
      && c in cl.chans
      && (cl.waits(c, s.data) || (s.lk.Some? && s.lk.value < |s.pcs| && c in Debt(s.pcs[s.lk.value])))
  }

  /** A scan of the table has woken everybody it has passed. */
  ghost predicate PassedOk<D>(s: State<D>, p: nat) {
    p < |s.pcs| == |s.slots| && s.pcs[p].Waking? ==>
      && s.pcs[p].i <= |s.slots|
      && forall j :: 0 <= j < s.pcs[p].i ==> AsleepOn(s, j) != Some(s.pcs[p].c)
  }

  ghost predicate Inv<D>(cl: Client<D>, s: State<D>) {
    && |s.slots| == |s.pcs|
    && (forall p: nat :: PlaceOk(cl, s, p))
    && (forall p: nat :: RightlyAsleep(cl, s, p))
    && (forall p: nat :: PassedOk(s, p))
  }

  /** While a process scans the table, nobody is between releasing lk and being asleep. */
  lemma NobodyInTheGap<D>(cl: Client<D>, s: State<D>, p: nat, q: nat)
    requires Inv(cl, s) && p < |s.pcs| && s.pcs[p].Waking? && q < |s.pcs| && AsleepOn(s, q) == Some(s.pcs[p].c)
    ensures s.pcs[q].Away? && Sleeps(s.slots[q], s.pcs[p].c) && q >= s.pcs[p].i
  {
    assert PlaceOk(cl, s, p) && PlaceOk(cl, s, q) && PassedOk(s, p);
  }

  lemma PlaceKeeps<D>(cl: Client<D>, s: State<D>, s': State<D>, p: nat, step: Step<D>)
    requires Inv(cl, s) && NextStep(cl, s, s', p, step)
    ensures forall q: nat :: PlaceOk(cl, s', q)
  {
    assert PlaceOk(cl, s, p);
    forall q: nat ensures PlaceOk(cl, s', q) {
      assert PlaceOk(cl, s, q);
      if step.Visit? && q == s.pcs[p].i { assert PassedOk(s, p); }
    }
  }

  lemma RightlyKeeps<D>(cl: Client<D>, s: State<D>, s': State<D>, p: nat, step: Step<D>)
    requires Inv(cl, s) && NextStep(cl, s, s', p, step)
    ensures forall q: nat :: RightlyAsleep(cl, s', q)
  {
    assert PlaceOk(cl, s, p);
    forall q: nat ensures RightlyAsleep(cl, s', q) {
      assert RightlyAsleep(cl, s, q) && PlaceOk(cl, s, q);
      if step.EndWakeup? { assert PassedOk(s, p); }
    }
  }

  lemma PassedKeeps<D>(cl: Client<D>, s: State<D>, s': State<D>, p: nat, step: Step<D>)
    requires Inv(cl, s) && NextStep(cl, s, s', p, step)
    ensures forall q: nat :: PassedOk(s', q)
  {
    assert PlaceOk(cl, s, p) && PassedOk(s, p);
    forall q: nat ensures PassedOk(s', q) {
      assert PassedOk(s, q) && PlaceOk(cl, s, q);
      if q < |s.pcs| && s'.pcs[q].Waking? {
        forall j | 0 <= j < s'.pcs[q].i
          ensures AsleepOn(s', j) != Some(s'.pcs[q].c)
        {
          assert PlaceOk(cl, s, j);
          if step.Visit? && AsleepOn(s, j) == Some(s.pcs[p].c) { NobodyInTheGap(cl, s, p, j); }
        }
      }
    }
  }

  lemma {:induction false} RunInv<D(!new)>(cl: Client<D>, run: seq<State<D>>, k: nat)
    requires IsRun(cl, run) && k < |run|
    ensures Inv(cl, run[k])
  {
    if k == 0 {
      forall p: nat ensures PlaceOk(cl, run[0], p) && RightlyAsleep(cl, run[0], p) && PassedOk(run[0], p) { }
    } else {
      RunInv(cl, run, k - 1);
      var s, s' := run[k - 1], run[k - 1 + 1];
      assert Next(cl, s, s');
      var p: nat, step :| NextStep(cl, s, s', p, step);
      PlaceKeeps(cl, s, s', p, step);
      RightlyKeeps(cl, s, s', p, step);
      PassedKeeps(cl, s, s', p, step);
    }
  }

  // ---------------------------------------------------------------- what it guarantees

  /**
   No wakeup is lost: in every state of every run, a process asleep on c has a reason to
   be, or the process that took the reason away still holds lk and has yet to wake it.
   */
  lemma NoWakeupLost<D(!new)>(cl: Client<D>, run: seq<State<D>>, k: nat, p: nat)
    requires IsRun(cl, run) && k < |run| && p < |run[k].pcs| == |run[k].slots| && AsleepOn(run[k], p).Some?
    ensures var s, c := run[k], AsleepOn(run[k], p).value;
            cl.waits(c, s.data) || (s.lk.Some? && s.lk.value < |s.pcs| && c in Debt(s.pcs[s.lk.value]))
  {
    RunInv(cl, run, k);
    assert RightlyAsleep(cl, run[k], p);
  }

  /** A finished wakeup has left nobody asleep on its channel. */
  lemma WakeupMissesNobody<D(!new)>(cl: Client<D>, run: seq<State<D>>, k: nat, p: nat, q: nat)
    requires IsRun(cl, run) && k < |run| && p < |run[k].pcs| == |run[k].slots| && q < |run[k].pcs|
    requires run[k].pcs[p].Waking? && run[k].pcs[p].i == |run[k].slots|
    ensures AsleepOn(run[k], q) != Some(run[k].pcs[p].c)
  {
    RunInv(cl, run, k);
    if AsleepOn(run[k], q) == Some(run[k].pcs[p].c) { NobodyInTheGap(cl, run[k], p, q); }
  }

  // ---------------------------------------------------------------- no deadlock

  ghost predicate CanMove<D(!new)>(cl: Client<D>, s: State<D>, p: nat) {
    exists s': State<D>, step: Step<D> :: NextStep(cl, s, s', p, step)
  }

  lemma SleeperMoves<D(!new)>(cl: Client<D>, s: State<D>, p: nat, c: Chan)
    requires |s.slots| == |s.pcs| && p < |s.pcs| && (s.pcs[p] == Gap(c) || s.pcs[p] == Marked(c))
    ensures CanMove(cl, s, p)
  {
    var x := s.slots[p];
    if s.pcs[p].Gap? {
      assert NextStep(cl, s, At(s, p, Marked(c)).(slots := s.slots[p := x.(chan := c)]), p, SetChan);
    } else {
      assert NextStep(cl, s, At(s, p, Fallen).(slots := s.slots[p := x.(state := SLEEPING)]), p, SetState);
    }
  }

  /** Whoever has ptable.lock can go on at once, whoever holds lk. */
  lemma PtableMoves<D(!new)>(cl: Client<D>, s: State<D>, p: nat)
    requires Inv(cl, s) && p < |s.pcs| && s.ptable == Some(p)
    ensures CanMove(cl, s, p)
  {
    assert PlaceOk(cl, s, p) && PassedOk(s, p);
    match s.pcs[p]
    case Both(c) => assert NextStep(cl, s, At(s, p, Gap(c)).(lk := None), p, HandOver);
    case Gap(c) => SleeperMoves(cl, s, p, c);
    case Marked(c) => SleeperMoves(cl, s, p, c);
    case Fallen => assert NextStep(cl, s, At(s, p, Away).(ptable := None), p, Switch);
    case Tidy => assert NextStep(cl, s, At(s, p, Back).(ptable := None), p, Resume);
    case Waking(c, i, debt) => WakerMoves(cl, s, p, c, i, debt);
  }

  lemma WakerMoves<D(!new)>(cl: Client<D>, s: State<D>, p: nat, c: Chan, i: nat, debt: set<Chan>)
    requires |s.slots| == |s.pcs| && p < |s.pcs| && s.pcs[p] == Waking(c, i, debt) && i <= |s.slots|
    ensures CanMove(cl, s, p)
  {
    if i == |s.slots| {
      assert NextStep(cl, s, At(s, p, Crit(debt - {c})).(ptable := None), p, EndWakeup);
    } else {
      assert NextStep(cl, s, At(s, p, Waking(c, i + 1, debt)).(slots := s.slots[i := Woken(s.slots[i], c)]), p, Visit);
    }
  }

  /** Whoever holds lk can go on as soon as ptable.lock is free. */
  lemma LkMoves<D(!new)>(cl: Client<D>, s: State<D>, p: nat)
    requires Inv(cl, s) && p < |s.pcs| && s.lk == Some(p) && s.ptable.None?
    ensures CanMove(cl, s, p)
  {
    assert PlaceOk(cl, s, p);
    match s.pcs[p]
    case Crit(debt) => assert NextStep(cl, s, At(s, p, Calling(Other(0), debt)), p, CallWakeup(Other(0)));
    case Falling(c) => assert NextStep(cl, s, At(s, p, Both(c)).(ptable := Some(p)), p, LockToSleep);
    case Calling(c, debt) =>
      assert NextStep(cl, s, At(s, p, Waking(c, 0, debt)).(ptable := Some(p)), p, LockToWake);
  }

  /** With both locks free everybody can go on who is not asleep. */
  lemma FreeMoves<D(!new)>(cl: Client<D>, s: State<D>, p: nat)
    requires Inv(cl, s) && p < |s.pcs| && s.lk.None? && s.ptable.None? && AsleepOn(s, p).None?
    ensures CanMove(cl, s, p)
  {
    assert PlaceOk(cl, s, p);
    match s.pcs[p]
    case Out => assert NextStep(cl, s, At(s, p, Crit({})).(lk := Some(p)), p, Acquire);
    case Back => assert NextStep(cl, s, At(s, p, Crit({})).(lk := Some(p)), p, Acquire);
    case Away =>
      assert NextStep(cl, s, At(s, p, Tidy).(ptable := Some(p), slots := s.slots[p := s.slots[p].(state := RUNNING)]),
                      p, Pick);
  }

  ghost predicate Held<D>(s: State<D>) {
    && (s.lk.Some? ==> s.lk.value < |s.pcs|) && (s.ptable.Some? ==> s.ptable.value < |s.pcs|)
  }

  lemma {:induction false} RunHeld<D(!new)>(cl: Client<D>, run: seq<State<D>>, k: nat)
    requires IsRun(cl, run) && k < |run|
    ensures Held(run[k])
  {
    if k > 0 {
      RunHeld(cl, run, k - 1);
      var s, s' := run[k - 1], run[k - 1 + 1];
      assert Next(cl, s, s');
    }
  }

  /** The two locks are taken in one order, so in no run does everybody who is not asleep wait for a lock. */
  lemma NoDeadlock<D(!new)>(cl: Client<D>, run: seq<State<D>>, k: nat, p: nat)
    requires IsRun(cl, run) && k < |run| && p < |run[k].pcs| == |run[k].slots| && AsleepOn(run[k], p).None?
    ensures exists q: nat :: CanMove(cl, run[k], q)
  {
    var s := run[k];
    RunInv(cl, run, k);
    RunHeld(cl, run, k);
    if s.ptable.Some? {
      PtableMoves(cl, s, s.ptable.value);
    } else if s.lk.Some? {
      LkMoves(cl, s, s.lk.value);
    } else {
      FreeMoves(cl, s, p);
    }
  }

  // ---------------------------------------------------------------- sleep as one step

  /** What the other models see: who holds lk, and who is asleep where. */
  datatype Atom<D> = Atom(data: D, lk: Option<nat>, asleep: map<nat, Chan>)

  /** A waker that has ptable.lock has, in effect, woken everybody already. */
  predicate BeingWoken<D>(s: State<D>, c: Chan) {
    && s.ptable.Some? && s.ptable.value < |s.pcs|
    && s.pcs[s.ptable.value].Waking? && s.pcs[s.ptable.value].c == c
  }

  predicate Dormant<D>(s: State<D>, p: nat)
    requires |s.slots| == |s.pcs|
  {
    p < |s.pcs| && AsleepOn(s, p).Some? && !BeingWoken(s, AsleepOn(s, p).value)
  }

  function Abs<D>(s: State<D>): Atom<D>
    requires |s.slots| == |s.pcs|
  {
    Atom(s.data, s.lk, map p: nat | p < |s.pcs| && Dormant(s, p) :: AsleepOn(s, p).value)
  }

  function Awake(asleep: map<nat, Chan>, c: Chan): map<nat, Chan> {
    map p | p in asleep && asleep[p] != c :: asleep[p]
  }

  /** The steps of the system in which sleep releases lk and falls asleep at once, and wakeup is at once. */
  ghost predicate Atomic<D>(cl: Client<D>, a: Atom<D>, a': Atom<D>, p: nat, step: Step<D>) {
    match step
    case Acquire => a.lk.None? && p !in a.asleep && a' == a.(lk := Some(p))
    case Act(d) => a.lk == Some(p) && a' == a.(data := d)
    case Release => a.lk == Some(p) && a' == a.(lk := None)
    case HandOver =>
      && a.lk == Some(p) && p !in a.asleep
      && exists c :: c in cl.chans && cl.waits(c, a.data) && a' == a.(lk := None, asleep := a.asleep[p := c])
    case LockToWake => a.lk == Some(p) && exists c :: a' == a.(asleep := Awake(a.asleep, c))
    case _ => a' == a
  }

  lemma HandOverSleeps<D>(cl: Client<D>, s: State<D>, s': State<D>, p: nat, q: nat)
    requires Inv(cl, s) && NextStep(cl, s, s', p, HandOver) && q < |s.pcs|
    ensures (Dormant(s', q) <==> Dormant(s, q) || q == p) && !Dormant(s, p)
    ensures q != p ==> AsleepOn(s', q) == AsleepOn(s, q)
  {
    assert PlaceOk(cl, s, p) && PlaceOk(cl, s, q);
  }

  lemma LockingWakes<D>(cl: Client<D>, s: State<D>, s': State<D>, p: nat, q: nat)
    requires Inv(cl, s) && NextStep(cl, s, s', p, LockToWake) && q < |s.pcs|
    ensures Dormant(s', q) <==> Dormant(s, q) && AsleepOn(s, q) != Some(s.pcs[p].c)
    ensures AsleepOn(s', q) == AsleepOn(s, q)
  {
    assert PlaceOk(cl, s, p) && PlaceOk(cl, s, q);
  }

  /** The scan itself wakes those who count as awake already. */
  lemma ScanWakesNobodyElse<D>(cl: Client<D>, s: State<D>, s': State<D>, p: nat, step: Step<D>, q: nat)
    requires Inv(cl, s) && NextStep(cl, s, s', p, step) && (step.Visit? || step.EndWakeup?) && q < |s.pcs|
    ensures (Dormant(s', q) <==> Dormant(s, q)) && (Dormant(s, q) ==> AsleepOn(s', q) == AsleepOn(s, q))
  {
    assert PlaceOk(cl, s, p) && PlaceOk(cl, s, q) && PassedOk(s, p);
    if AsleepOn(s, q) == Some(s.pcs[p].c) { NobodyInTheGap(cl, s, p, q); }
  }

  lemma OthersStay<D>(cl: Client<D>, s: State<D>, s': State<D>, p: nat, step: Step<D>, q: nat)
    requires Inv(cl, s) && NextStep(cl, s, s', p, step) && q < |s.pcs|
    requires !step.HandOver? && !step.LockToWake? && !step.Visit? && !step.EndWakeup?
    ensures (Dormant(s', q) <==> Dormant(s, q)) && (Dormant(s, q) ==> AsleepOn(s', q) == AsleepOn(s, q))
  {
    assert PlaceOk(cl, s, p) && PlaceOk(cl, s, q);
  }

  /** Every step is one of the atomic system, or no step at all there. */
  lemma SleepIsAtomic<D>(cl: Client<D>, s: State<D>, s': State<D>, p: nat, step: Step<D>)
    requires Inv(cl, s) && NextStep(cl, s, s', p, step)
    ensures |s'.slots| == |s'.pcs| && Atomic(cl, Abs(s), Abs(s'), p, step)
  {
    assert PlaceOk(cl, s, p);
    var a, a' := Abs(s), Abs(s');
    if step.HandOver? {
      forall q: nat | q < |s.pcs| { HandOverSleeps(cl, s, s', p, q); }
      assert a'.asleep == a.asleep[p := s.pcs[p].c];
    } else if step.LockToWake? {
      forall q: nat | q < |s.pcs| { LockingWakes(cl, s, s', p, q); }
      assert a'.asleep == Awake(a.asleep, s.pcs[p].c);
    } else {
      forall q: nat | q < |s.pcs|
        ensures (Dormant(s', q) <==> Dormant(s, q)) && (Dormant(s, q) ==> AsleepOn(s', q) == AsleepOn(s, q))
      {
        if step.Visit? || step.EndWakeup? {
          ScanWakesNobodyElse(cl, s, s', p, step, q);
        } else {
          OthersStay(cl, s, s', p, step, q);
        }
      }
      assert a'.asleep == a.asleep;
    }
  }

  ghost predicate AtomicNext<D(!new)>(cl: Client<D>, a: Atom<D>, a': Atom<D>) {
    exists p: nat, step :: Atomic(cl, a, a', p, step)
  }

  /** A run of the atomic system: it starts with the lock free and nobody asleep. */
  ghost predicate IsAtomicRun<D(!new)>(cl: Client<D>, atoms: seq<Atom<D>>) {
    && |atoms| > 0 && atoms[0].lk == None && atoms[0].asleep == map[]
    && forall k :: 0 <= k < |atoms| - 1 ==> AtomicNext(cl, atoms[k], atoms[k + 1])
  }

  /** So every run is a run of the system in which sleep releases lk and falls asleep in one step. */
  lemma {:induction false} RunsAreAtomic<D(!new)>(cl: Client<D>, run: seq<State<D>>) returns (atoms: seq<Atom<D>>)
    requires IsRun(cl, run)
    ensures IsAtomicRun(cl, atoms) && |atoms| == |run|
    ensures forall k :: 0 <= k < |run| ==> |run[k].slots| == |run[k].pcs| && atoms[k] == Abs(run[k])
  {
    forall k: nat | k < |run| ensures |run[k].slots| == |run[k].pcs| { RunInv(cl, run, k); }
    atoms := seq(|run|, k requires 0 <= k < |run| => Abs(run[k]));
    forall k | 0 <= k < |atoms| - 1 ensures AtomicNext(cl, atoms[k], atoms[k + 1]) { StepIsAtomic(cl, run, k); }
    assert atoms[0].asleep == map[];
  }

  lemma StepIsAtomic<D(!new)>(cl: Client<D>, run: seq<State<D>>, k: nat)
    requires IsRun(cl, run) && k + 1 < |run|
    ensures |run[k].slots| == |run[k].pcs| && |run[k + 1].slots| == |run[k + 1].pcs|
    ensures AtomicNext(cl, Abs(run[k]), Abs(run[k + 1]))
  {
    RunInv(cl, run, k);
    assert Next(cl, run[k], run[k + 1]);
    var p: nat, step :| NextStep(cl, run[k], run[k + 1], p, step);
    SleepIsAtomic(cl, run[k], run[k + 1], p, step);
  }
}
