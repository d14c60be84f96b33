/** What a call on one directory may change, in terms of entries and frames. */
module VmEffect {
  import opened Common
  import opened VmState

  /** A user page of directory d in [lo, hi). */
  ghost predicate InRange(u: Use, d: nat, lo: nat, hi: nat) {
    u.User? && u.dir == d && lo <= u.page < hi
  }

  ghost predicate EntryKept(m: Mach, n: Mach, d: nat, lo: nat, hi: nat, e: nat, q: nat) {
    IsDir(m, e) && q < PAGES && !(e == d && lo <= q < hi) ==>
      IsDir(n, e) && Lookup(n.mem, e, q) == Lookup(m.mem, e, q)
  }

  ghost predicate FrameKept(m: Mach, n: Mach, d: nat, lo: nat, hi: nat, f: nat) {
    && (f in m.owner && !InRange(m.owner[f], d, lo, hi) ==>
          && f in n.owner && n.owner[f] == m.owner[f]
          && (m.owner[f].User? && f < |m.mem| == |n.mem| ==> n.mem[f] == m.mem[f]))
    && (f in n.owner && (f !in m.owner || InRange(m.owner[f], d, lo, hi)) ==>
          InRange(n.owner[f], d, lo, hi) || (n.owner[f].Table? && n.owner[f].dir == d))
  }

  /** Nothing changed but the pages [lo, hi) of d and, perhaps, new page tables for d. */
  ghost predicate Only(m: Mach, n: Mach, d: nat, lo: nat, hi: nat) {
    && |m.mem| == |n.mem|
    && (forall e: nat, q: nat :: EntryKept(m, n, d, lo, hi, e, q))
    && (forall f: nat :: FrameKept(m, n, d, lo, hi, f))
  }

  lemma OnlySelf(m: Mach, d: nat, lo: nat, hi: nat)
    ensures Only(m, m, d, lo, hi)
  {
    forall e: nat, q: nat ensures EntryKept(m, m, d, lo, hi, e, q) {}
    forall f: nat ensures FrameKept(m, m, d, lo, hi, f) {}
  }

  lemma OnlyWider(m: Mach, n: Mach, d: nat, lo: nat, hi: nat, lo': nat, hi': nat)
    requires Only(m, n, d, lo, hi) && ((lo' <= lo && hi <= hi') || lo == hi)
    ensures Only(m, n, d, lo', hi')
  {
    forall e: nat, q: nat ensures EntryKept(m, n, d, lo', hi', e, q) { assert EntryKept(m, n, d, lo, hi, e, q); }
    forall f: nat ensures FrameKept(m, n, d, lo', hi', f) { assert FrameKept(m, n, d, lo, hi, f); }
  }

  lemma OnlyTrans(m: Mach, n: Mach, r: Mach, d: nat, lo: nat, hi: nat)
    requires Only(m, n, d, lo, hi) && Only(n, r, d, lo, hi)
    ensures Only(m, r, d, lo, hi)
  {
    forall e: nat, q: nat ensures EntryKept(m, r, d, lo, hi, e, q) {
      assert EntryKept(m, n, d, lo, hi, e, q) && EntryKept(n, r, d, lo, hi, e, q);
    }
    forall f: nat ensures FrameKept(m, r, d, lo, hi, f) {
      assert FrameKept(m, n, d, lo, hi, f) && FrameKept(n, r, d, lo, hi, f);
    }
  }

  // ---------------------------------------------------------------- effects of single steps

  /** What is done to a frame in hand, or to the free list, is no effect at all. */
  lemma HandOnly(g: Pool, m: Mach, x: set<nat>, f: nat, c: Frame, free: seq<nat>, d: nat)
    requires VmOk(g, m, x) && f in x
    ensures f < |m.mem| && Only(m, m.(mem := m.mem[f := c], free := free), d, 0, 0)
  {
    assert PartAt(g, m, x, f);
    var n := m.(mem := m.mem[f := c], free := free);
    forall e: nat, q: nat ensures EntryKept(m, n, d, 0, 0, e, q) {
      if IsDir(m, e) && q < PAGES { LookupFrame(g, m, x, e, q, f, c); }
    }
    forall h: nat ensures FrameKept(m, n, d, 0, 0, h) { assert PartAt(g, m, x, h); }
  }

  lemma TableOnly(g: Pool, m: Mach, x: set<nat>, d: nat, i: nat, f: nat)
    requires VmOk(g, m, x) && IsDir(m, d) && i < ENTRIES && !Present(m.mem[d][i])
    requires f in x && f < |m.mem| && m.mem[f] == Blank()
    ensures Only(m, m.(mem := WithTable(m.mem, d, i, f), owner := m.owner[f := Table(d, i)]), d, 0, 0)
  {
    assert PartAt(g, m, x, f);
    var n := m.(mem := WithTable(m.mem, d, i, f), owner := m.owner[f := Table(d, i)]);
    forall e: nat, q: nat ensures EntryKept(m, n, d, 0, 0, e, q) {
      if IsDir(m, e) && q < PAGES { TableLookup(g, m, x, d, i, f, e, q); }
    }
    forall h: nat ensures FrameKept(m, n, d, 0, 0, h) {}
  }

  /** Writing one entry, and giving its frame to it or taking it away. */
  lemma EntryOnly(g: Pool, m: Mach, x: set<nat>, d: nat, p: nat, w: Word, owner: map<nat, Use>, f: nat)
    requires VmOk(g, m, x) && IsDir(m, d) && p < PAGES && 0 < TableOf(m.mem, d, p) < |m.mem|
    requires || owner == m.owner
             || (f !in m.owner && owner == m.owner[f := User(d, p)])
             || (f in m.owner && m.owner[f] == User(d, p) && owner == m.owner - {f})
    ensures Only(m, m.(mem := WithEntry(m.mem, d, p, w), owner := owner), d, p, p + 1)
  {
    TableOwned(g, m, x, d, p);
    var n, r := m.(mem := WithEntry(m.mem, d, p, w), owner := owner), p + 1;
    forall e: nat, q: nat ensures EntryKept(m, n, d, p, r, e, q) {
      if IsDir(m, e) && q < PAGES { EntryLookup(g, m, x, d, p, w, e, q); }
    }
    forall h: nat ensures FrameKept(m, n, d, p, r, h) {}
  }

  // ---------------------------------------------------------------- unmapping a range

  /** owner without the user pages [lo, hi) of d. */
  ghost function Dropped(owner: map<nat, Use>, d: nat, lo: nat, hi: nat): map<nat, Use> {
    map f | f in owner && !InRange(owner[f], d, lo, hi) :: owner[f]
  }

  lemma DroppedMore(owner: map<nat, Use>, d: nat, lo: nat, p: nat, hi: nat)
    requires lo <= p <= hi
    ensures Dropped(Dropped(owner, d, lo, p), d, p, hi) == Dropped(owner, d, lo, hi)
    ensures Dropped(owner, d, lo, lo) == owner
  {
  }

  /** Pages that are not mapped have no frames. */
  lemma NothingDropped(g: Pool, m: Mach, x: set<nat>, d: nat, lo: nat, hi: nat)
    requires VmOk(g, m, x) && IsDir(m, d) && forall q: nat :: lo <= q < hi ==> !Present(Lookup(m.mem, d, q))
    ensures Dropped(m.owner, d, lo, hi) == m.owner
  {
    forall f: nat | f in m.owner ensures !InRange(m.owner[f], d, lo, hi) { assert UseAt(m, f); }
  }

  /** A mapped page has one frame. */
  lemma OneDropped(g: Pool, m: Mach, x: set<nat>, d: nat, p: nat)
    requires VmOk(g, m, x) && IsDir(m, d) && Present(Lookup(m.mem, d, p)) && p < USERPAGES
    ensures Dropped(m.owner, d, p, p + 1) == m.owner - {FrameOf(Lookup(m.mem, d, p))}
  {
    assert MapAt(m, d, p);
    forall f: nat | f in m.owner ensures InRange(m.owner[f], d, p, p + 1) <==> f == FrameOf(Lookup(m.mem, d, p)) {
      assert UseAt(m, f);
    }
  }

  /** Where a directory entry is absent, so are the pages it would cover. */
  lemma NoTable(g: Pool, m: Mach, x: set<nat>, d: nat, p: nat, q: nat)
    requires VmOk(g, m, x) && IsDir(m, d) && p < PAGES && TableOf(m.mem, d, p) == 0
    requires p <= q < (p / ENTRIES + 1) * ENTRIES
    ensures Lookup(m.mem, d, q) == 0
  {
    assert q / ENTRIES == p / ENTRIES;
  }

  // ---------------------------------------------------------------- everything but one directory

  ghost predicate ViewKept(m: Mach, n: Mach, d: nat, e: nat, q: nat) {
    IsDir(m, e) && e != d && q < PAGES ==> IsDir(n, e) && Lookup(n.mem, e, q) == Lookup(m.mem, e, q)
  }

  ghost predicate UseKept(m: Mach, n: Mach, d: nat, f: nat) {
    && (f in m.owner && !Belongs(m.owner[f], f, d) ==>
          && f in n.owner && n.owner[f] == m.owner[f]
          && (m.owner[f].User? && f < |m.mem| == |n.mem| ==> n.mem[f] == m.mem[f]))
    && (f in n.owner && (f !in m.owner || Belongs(m.owner[f], f, d)) ==> Belongs(n.owner[f], f, d))
  }

  /** Whatever does not belong to d is as it was: uses, entries, and the contents of user pages. */
  ghost predicate Others(m: Mach, n: Mach, d: nat) {
    && |m.mem| == |n.mem|
    && (forall e: nat, q: nat :: ViewKept(m, n, d, e, q))
    && (forall f: nat :: UseKept(m, n, d, f))
  }

  lemma OnlyOthers(m: Mach, n: Mach, d: nat, lo: nat, hi: nat)
    requires Only(m, n, d, lo, hi)
    ensures Others(m, n, d)
  {
    forall e: nat, q: nat ensures ViewKept(m, n, d, e, q) { assert EntryKept(m, n, d, lo, hi, e, q); }
    forall f: nat ensures UseKept(m, n, d, f) { assert FrameKept(m, n, d, lo, hi, f); }
  }

  lemma OthersTrans(m: Mach, n: Mach, r: Mach, d: nat)
    requires Others(m, n, d) && Others(n, r, d)
    ensures Others(m, r, d)
  {
    forall e: nat, q: nat ensures ViewKept(m, r, d, e, q) { assert ViewKept(m, n, d, e, q) && ViewKept(n, r, d, e, q); }
    forall f: nat ensures UseKept(m, r, d, f) { assert UseKept(m, n, d, f) && UseKept(n, r, d, f); }
  }

  /** Giving up a directory's frames, or making a new directory, concerns nothing else. */
  lemma OwnerOthers(m: Mach, n: Mach, d: nat)
    requires n == m.(owner := n.owner)
    requires n.owner == m.owner - FramesOf(m.owner, d) || (d !in m.owner && n.owner == m.owner[d := Dir])
    ensures Others(m, n, d)
  {
    forall e: nat, q: nat ensures ViewKept(m, n, d, e, q) {}
    forall f: nat ensures UseKept(m, n, d, f) {}
  }

  /** What was made for a new directory and given up again leaves no trace in the frames in use. */
  lemma NoTrace(g: Pool, m: Mach, x: set<nat>, n: Mach, d: nat)
    requires VmOk(g, m, x) && d !in m.owner && Others(m, n, d) && FramesOf(n.owner, d) == {}
    ensures n.owner == m.owner
  {
    forall f: nat ensures f in n.owner <==> f in m.owner { TraceAt(g, m, x, n, d, f); }
    forall f: nat | f in m.owner ensures n.owner[f] == m.owner[f] { TraceAt(g, m, x, n, d, f); }
  }

  lemma TraceAt(g: Pool, m: Mach, x: set<nat>, n: Mach, d: nat, f: nat)
    requires VmOk(g, m, x) && d !in m.owner && Others(m, n, d) && FramesOf(n.owner, d) == {}
    ensures f in n.owner <==> f in m.owner
    ensures f in m.owner ==> n.owner[f] == m.owner[f]
  {
    assert UseKept(m, n, d, f) && UseAt(m, f);
    assert f in n.owner && Belongs(n.owner[f], f, d) ==> f in FramesOf(n.owner, d);
  }

  // ---------------------------------------------------------------- dismantling a directory

  /** d and its page tables from the k-th on. */
  ghost function Rest(owner: map<nat, Use>, d: nat, k: nat): set<nat> {
    set f | f in owner && ((owner[f] == Dir && f == d) || (owner[f].Table? && owner[f].dir == d && owner[f].i >= k))
  }

  /** Without user pages, the directory and its page tables are all it has. */
  lemma RestAll(owner: map<nat, Use>, d: nat)
    requires forall f: nat :: f in owner ==> !(owner[f].User? && owner[f].dir == d)
    ensures Rest(owner, d, 0) == FramesOf(owner, d)
  {
  }

  lemma RestNext(g: Pool, m: Mach, x: set<nat>, d: nat, k: nat)
    requires VmOk(g, m, x) && IsDir(m, d) && k < ENTRIES
    ensures var w := m.mem[d][k];
            if Present(w) then FrameOf(w) in Rest(m.owner, d, k) && FrameOf(w) != d
                               && Rest(m.owner, d, k + 1) == Rest(m.owner, d, k) - {FrameOf(w)}
            else Rest(m.owner, d, k + 1) == Rest(m.owner, d, k)
  {
    assert DirAt(m, d, k);
    var e := if Present(m.mem[d][k]) then Rest(m.owner, d, k) - {FrameOf(m.mem[d][k])} else Rest(m.owner, d, k);
    forall f: nat ensures f in Rest(m.owner, d, k + 1) <==> f in e { assert UseAt(m, f); }
    assert Rest(m.owner, d, k + 1) == e;
  }

  lemma RestDir(g: Pool, m: Mach, x: set<nat>, d: nat)
    requires VmOk(g, m, x) && IsDir(m, d)
    ensures Rest(m.owner, d, ENTRIES) == {d}
  {
    forall f: nat ensures f in Rest(m.owner, d, ENTRIES) <==> f == d { assert UseAt(m, f); }
  }

  /** Changes to what belongs to a directory that did not exist, and does not now, are no changes. */
  lemma OthersNone(g: Pool, m: Mach, x: set<nat>, n: Mach, d: nat)
    requires VmOk(g, m, x) && d !in m.owner && Others(m, n, d) && FramesOf(n.owner, d) == {}
    ensures n.owner == m.owner && Others(m, n, 0)
  {
    NoTrace(g, m, x, n, d);
    assert PartAt(g, m, x, 0);
    forall e: nat, q: nat ensures ViewKept(m, n, 0, e, q) { assert ViewKept(m, n, d, e, q); }
    forall f: nat ensures UseKept(m, n, 0, f) { assert UseKept(m, n, d, f) && UseAt(m, f); }
  }
}
