/** The process table of proc.c: what its table-scanning loops do. */
module ProcTable {
  import opened Common

  datatype ProcState = UNUSED | EMBRYO | SLEEPING | RUNNABLE | RUNNING | ZOMBIE

  /** Sleep channels: the address of a process (used by wait) or of anything else. */
  datatype Chan = OnProc(p: nat) | Other(c: nat)

  datatype Slot = Slot(state: ProcState, pid: int, parent: Option<nat>, chan: Chan)

  predicate Sleeps(s: Slot, chan: Chan) {
    s.state == SLEEPING && s.chan == chan
  }

  function Woken(s: Slot, chan: Chan): Slot {
    if Sleeps(s, chan) then s.(state := RUNNABLE) else s
  }

  /** The table after wakeup1(chan). */
  function WakeAll(t: seq<Slot>, chan: Chan): (r: seq<Slot>)
    ensures |r| == |t| && forall i :: 0 <= i < |t| ==> r[i] == Woken(t[i], chan)
  {
    seq(|t|, i requires 0 <= i < |t| => Woken(t[i], chan))
  }

  /** The table after wakeup1 of a process pointer that may be null. */
  function WakeParent(t: seq<Slot>, parent: Option<nat>): (r: seq<Slot>)
    ensures |r| == |t|
  {
    if parent.Some? then WakeAll(t, OnProc(parent.value)) else t
  }

  predicate ZombieChild(t: seq<Slot>, p: nat, i: nat) {
    i < |t| && t[i].parent == Some(p) && t[i].state == ZOMBIE
  }

  /** The children of p handed to init. */
  function Reparent(t: seq<Slot>, p: nat, init: nat): (r: seq<Slot>)
    ensures |r| == |t|
    ensures forall i :: 0 <= i < |t| ==> r[i] == if t[i].parent == Some(p) then t[i].(parent := Some(init)) else t[i]
  {
    seq(|t|, i requires 0 <= i < |t| => if t[i].parent == Some(p) then t[i].(parent := Some(init)) else t[i])
  }

  /** The table after exit by p: parent woken, children given to init (woken for zombies), p a zombie. */
  ghost function Exited(t: seq<Slot>, p: nat, init: nat): (r: seq<Slot>)
    requires p < |t|
    ensures |r| == |t|
  {
    var a := Reparent(WakeParent(t, t[p].parent), p, init);
    var b := if exists i: nat :: ZombieChild(t, p, i) then WakeAll(a, OnProc(init)) else a;
    b[p := b[p].(state := ZOMBIE)]
  }

  ghost predicate ExitWakes(t: seq<Slot>, p: nat, init: nat, x: Slot)
    requires p < |t|
  {
    || (t[p].parent.Some? && Sleeps(x, OnProc(t[p].parent.value)))
    || (Sleeps(x, OnProc(init)) && exists i: nat :: ZombieChild(t, p, i))
  }

  /** exit seen from slot i. */
  lemma ExitedAt(t: seq<Slot>, p: nat, init: nat, i: nat)
    requires p < |t| && i < |t|
    ensures var r := Exited(t, p, init)[i];
            && r.parent == (if t[i].parent == Some(p) then Some(init) else t[i].parent)
            && r.pid == t[i].pid && r.chan == t[i].chan
            && r.state == if i == p then ZOMBIE else if ExitWakes(t, p, init, t[i]) then RUNNABLE else t[i].state
  {
  }

  datatype WaitResult = Reaped(child: nat, pid: int) | Gone | Slept

  /** The slot of an exited child after wait has collected it. */
  function Collected(t: seq<Slot>, c: nat): seq<Slot>
    requires c < |t|
  {
    t[c := t[c].(pid := 0, parent := None, state := UNUSED)]
  }

  class Ptable {
    var slots: seq<Slot>

    constructor (n: nat)
      ensures |slots| == n && forall i :: 0 <= i < n ==> slots[i] == Slot(UNUSED, 0, None, Other(0))
    {
      slots := seq(n, _ => Slot(UNUSED, 0, None, Other(0)));
    }

    method Wakeup1(chan: Chan)
      modifies this
      ensures slots == WakeAll(old(slots), chan)
      ensures forall i :: 0 <= i < |slots| ==>
                var x := old(slots)[i];
                slots[i] == if x.state == SLEEPING && x.chan == chan then x.(state := RUNNABLE) else x
    {
      var p := 0;
      while p < |slots|
        invariant 0 <= p <= |slots| == |old(slots)|
        invariant forall i :: 0 <= i < |slots| ==>
                    slots[i] == if i < p then Woken(old(slots)[i], chan) else old(slots)[i]
      {
        if slots[p].state == SLEEPING && slots[p].chan == chan {
          slots := slots[p := slots[p].(state := RUNNABLE)];
        }
        p := p + 1;
      }
    }

    /** exit under ptable.lock; the caller is not initproc. */
    method Exit(cur: nat, init: nat)
      requires cur < |slots| && init < |slots| && cur != init
      requires slots[cur].state == RUNNING
      modifies this
      ensures slots == Exited(old(slots), cur, init)
    {
      ghost var t := slots;
      if slots[cur].parent.Some? {
        Wakeup1(OnProc(slots[cur].parent.value));
      }
      ghost var u := slots;
      var p := 0;
      ghost var woke := false;
      while p < |slots|
        invariant 0 <= p <= |slots| == |u|
        invariant woke <==> exists i: nat :: i < p && ZombieChild(t, cur, i)
        invariant forall i :: 0 <= i < |slots| ==>
                    slots[i] == var mine := i < p && u[i].parent == Some(cur);
                                var x := if mine then u[i].(parent := Some(init)) else u[i];
                                if woke then Woken(x, OnProc(init)) else x
      {
        if slots[p].parent == Some(cur) {
          slots := slots[p := slots[p].(parent := Some(init))];
          if slots[p].state == ZOMBIE {
            assert ZombieChild(t, cur, p);
            Wakeup1(OnProc(init));
            woke := true;
          }
        }
        p := p + 1;
      }
      slots := slots[cur := slots[cur].(state := ZOMBIE)];
      assert woke <==> exists i: nat :: ZombieChild(t, cur, i);
      assert slots == Exited(t, cur, init);
    }

    /** One pass of wait's loop under ptable.lock. */
    method Wait(cur: nat, killed: bool) returns (r: WaitResult)
      requires cur < |slots|
      modifies this
      ensures r.Reaped? <==> exists i: nat :: ZombieChild(old(slots), cur, i)
      ensures r.Reaped? ==>
                && ZombieChild(old(slots), cur, r.child) && r.pid == old(slots)[r.child].pid
                && (forall i: nat :: i < r.child ==> !ZombieChild(old(slots), cur, i))
                && old(slots)[r.child].parent == Some(cur) && old(slots)[r.child].state == ZOMBIE
                && slots == Collected(old(slots), r.child)
                && slots == old(slots)[r.child := Slot(UNUSED, 0, None, old(slots)[r.child].chan)]
      ensures r.Gone? ==>
                slots == old(slots) && (killed || forall i :: 0 <= i < |slots| ==> slots[i].parent != Some(cur))
      ensures r.Slept? ==>
                && slots == old(slots)[cur := old(slots)[cur].(state := SLEEPING, chan := OnProc(cur))]
                && !killed && exists i :: 0 <= i < |slots| && old(slots)[i].parent == Some(cur)
    {
      var havekids := false;
      var p := 0;
      while p < |slots|
        invariant 0 <= p <= |slots| && slots == old(slots)
        invariant havekids <==> exists i :: 0 <= i < p && slots[i].parent == Some(cur)
        invariant forall i: nat :: i < p ==> !ZombieChild(slots, cur, i)
      {
        if slots[p].parent == Some(cur) {
          havekids := true;
          if slots[p].state == ZOMBIE {
            var pid := slots[p].pid;
            slots := slots[p := slots[p].(pid := 0)];
            slots := slots[p := slots[p].(parent := None)];
            slots := slots[p := slots[p].(state := UNUSED)];
            assert ZombieChild(old(slots), cur, p);
            return Reaped(p, pid);
          }
        }
        p := p + 1;
      }
      if !havekids || killed {
        return Gone;
      }
      slots := slots[cur := slots[cur].(chan := OnProc(cur))];
      slots := slots[cur := slots[cur].(state := SLEEPING)];
      return Slept;
    }

    /** The scan of allocproc when no other CPU interferes: claim the first unused slot. */
    method ClaimSlot() returns (r: Option<nat>)
      modifies this
      ensures r.None? <==> forall i :: 0 <= i < |old(slots)| ==> old(slots)[i].state != UNUSED
      ensures r.None? ==> slots == old(slots)
      ensures r.Some? ==>
                && r.value < |old(slots)| && old(slots)[r.value].state == UNUSED
                && slots == old(slots)[r.value := old(slots)[r.value].(state := EMBRYO)]
                && forall i :: 0 <= i < r.value ==> old(slots)[i].state != UNUSED
    {
      var p := 0;
      while p < |slots|
        invariant 0 <= p <= |slots| && slots == old(slots)
        invariant forall i :: 0 <= i < p ==> slots[i].state != UNUSED
      {
        if slots[p].state == UNUSED {
          slots := slots[p := slots[p].(state := EMBRYO)];
          return Some(p);
        }
        p := p + 1;
      }
      return None;
    }
  }
}
