/**
 Physical frames and who uses them. A frame is 1024 words, whether it holds user data, a
 page table, a page directory or a link of kalloc's free list; a kernel pointer to a frame
 is represented by the frame's number, 0 being the null pointer.
 */
module VmState {
  import opened Common

  const ENTRIES := 1024
  const PAGES := 0x10_0000   // pages of the 32-bit address space
  const USERPAGES := 0x8_0000 // pages below KERNBASE
  const PGSIZE := 4096

  function Blank(): (s: seq<Word>)
    ensures |s| == ENTRIES && forall k :: 0 <= k < ENTRIES ==> s[k] == 0
  {
    seq(ENTRIES, _ => 0)
  }

  type Frame = s: seq<Word> | |s| == ENTRIES witness Blank()

  type Memory = seq<Frame>

  /** The frames kalloc hands out. */
  datatype Pool = Pool(lo: nat, hi: nat) {
    ghost predicate Valid() {
      0 < lo <= hi <= PAGES
    }

    predicate Has(f: nat) {
      lo <= f < hi
    }

    ghost function Frames(): set<nat> {
      set f: nat | f < hi && Has(f)
    }
  }

  // ---------------------------------------------------------------- page table entries

  predicate Present(w: Word) {
    w % 2 == 1
  }

  function FrameOf(w: Word): nat {
    w / PGSIZE
  }

  function Flags(w: Word): nat {
    w % PGSIZE
  }

  function Pte(f: nat, flags: nat): Word
    requires f < PAGES && flags < PGSIZE
  {
    f * PGSIZE + flags
  }

  lemma PteParts(f: nat, flags: nat)
    requires f < PAGES && flags < PGSIZE
    ensures FrameOf(Pte(f, flags)) == f && Flags(Pte(f, flags)) == flags
    ensures Present(Pte(f, flags)) <==> flags % 2 == 1
  {
  }

  /** The page table that covers page p, 0 if there is none. */
  function TableOf(mem: Memory, d: nat, p: nat): nat {
    if d < |mem| && p < PAGES && Present(mem[d][p / ENTRIES]) then FrameOf(mem[d][p / ENTRIES]) else 0
  }

  /** The entry for page p, 0 if there is none. */
  function Lookup(mem: Memory, d: nat, p: nat): Word {
    var t := TableOf(mem, d, p);
    if t == 0 || t >= |mem| then 0 else mem[t][p % ENTRIES]
  }

  // ---------------------------------------------------------------- invariant

  /** What a frame in use is for: directory, i-th page table or user page of a directory. */
  datatype Use = Dir | Table(dir: nat, i: nat) | User(dir: nat, page: nat)

  datatype Mach = Mach(mem: Memory, free: seq<nat>, owner: map<nat, Use>)

  function HeadOf(free: seq<nat>): nat {
    if free == [] then 0 else free[0]
  }

  ghost predicate IsDir(m: Mach, d: nat) {
    d in m.owner && m.owner[d] == Dir && d < |m.mem|
  }

  /** Frames are free, in use, or (x) in the hands of a running call, and only one of these. */
  ghost predicate PartAt(g: Pool, m: Mach, x: set<nat>, f: nat) {
    && (f in m.owner ==> g.Has(f) && f !in x && f !in m.free)
    && (f in x ==> g.Has(f) && f !in m.free)
    && (f in m.free ==> g.Has(f))
    && (g.Has(f) ==> f in m.owner || f in x || f in m.free)
  }

  /** The free frames are linked in order. */
  ghost predicate FreeAt(m: Mach, k: nat) {
    k < |m.free| ==> m.free[k] < |m.mem| && m.mem[m.free[k]][0] == HeadOf(m.free[k + 1..])
  }

  /** A directory entry is absent or leads, whatever the access, to a page table of its own. */
  ghost predicate DirAt(m: Mach, d: nat, i: nat) {
    IsDir(m, d) && i < ENTRIES ==>
      var w := m.mem[d][i];
      if Present(w) then Flags(w) == 7 && FrameOf(w) in m.owner && m.owner[FrameOf(w)] == Table(d, i) else w == 0
  }

  /** A frame in use is where its use says. */
  ghost predicate UseAt(m: Mach, f: nat) {
    f in m.owner ==>
      match m.owner[f]
      case Dir => true
      case Table(d, i) => IsDir(m, d) && i < ENTRIES && Present(m.mem[d][i]) && FrameOf(m.mem[d][i]) == f
      case User(d, p) =>
        IsDir(m, d) && p < USERPAGES && Present(Lookup(m.mem, d, p)) && FrameOf(Lookup(m.mem, d, p)) == f
  }

  /** Every user page that is mapped is mapped to a frame of its own. */
  ghost predicate MapAt(m: Mach, d: nat, p: nat) {
    IsDir(m, d) && p < USERPAGES ==>
      var w := Lookup(m.mem, d, p);
      if Present(w) then FrameOf(w) in m.owner && m.owner[FrameOf(w)] == User(d, p) else w == 0
  }

  ghost predicate VmOk(g: Pool, m: Mach, x: set<nat>) {
    && g.Valid() && g.hi <= |m.mem| <= PAGES && Distinct(m.free)
    && (forall f: nat :: PartAt(g, m, x, f))
    && (forall k: nat :: FreeAt(m, k))
    && (forall d: nat, i: nat :: DirAt(m, d, i))
    && (forall f: nat :: UseAt(m, f))
    && (forall d: nat, p: nat :: MapAt(m, d, p))
  }

  // ---------------------------------------------------------------- what a lookup depends on

  /** The table of a page is a frame of the directory. */
  lemma TableOwned(g: Pool, m: Mach, x: set<nat>, d: nat, p: nat)
    requires VmOk(g, m, x) && IsDir(m, d) && p < PAGES
    ensures var t := TableOf(m.mem, d, p);
            t != 0 ==> t in m.owner && m.owner[t] == Table(d, p / ENTRIES) && g.Has(t) && t < |m.mem|
    ensures TableOf(m.mem, d, p) == 0 <==> !Present(m.mem[d][p / ENTRIES])
  {
    var t := TableOf(m.mem, d, p);
    assert DirAt(m, d, p / ENTRIES) && PartAt(g, m, x, t) && PartAt(g, m, x, 0);
  }

  /** Writing a frame that is neither the directory nor one of its tables changes no lookup. */
  lemma LookupFrame(g: Pool, m: Mach, x: set<nat>, d: nat, p: nat, f: nat, c: Frame)
    requires VmOk(g, m, x) && IsDir(m, d) && p < PAGES && f < |m.mem| && f != d
    requires f in m.owner ==> m.owner[f] != Table(d, p / ENTRIES)
    ensures Lookup(m.mem[f := c], d, p) == Lookup(m.mem, d, p)
    ensures TableOf(m.mem[f := c], d, p) == TableOf(m.mem, d, p)
  {
    TableOwned(g, m, x, d, p);
  }

  // ---------------------------------------------------------------- frames in hand

  /** What is in hand may be overwritten. */
  lemma ScribbleOk(g: Pool, m: Mach, x: set<nat>, f: nat, c: Frame)
    requires VmOk(g, m, x) && f in x
    ensures f < |m.mem| && VmOk(g, m.(mem := m.mem[f := c]), x)
  {
    assert PartAt(g, m, x, f);
    var n := m.(mem := m.mem[f := c]);
    forall e: nat ensures PartAt(g, n, x, e) { assert PartAt(g, m, x, e); }
    forall k: nat ensures FreeAt(n, k) { assert FreeAt(m, k); }
    forall d: nat, i: nat ensures DirAt(n, d, i) { assert DirAt(m, d, i); }
    forall d: nat, p: nat ensures MapAt(n, d, p) {
      assert MapAt(m, d, p);
      if IsDir(m, d) && p < USERPAGES { LookupFrame(g, m, x, d, p, f, c); }
    }
    forall e: nat ensures UseAt(n, e) {
      assert UseAt(m, e);
      if e in m.owner && m.owner[e].User? { LookupFrame(g, m, x, m.owner[e].dir, m.owner[e].page, f, c); }
    }
  }

  /** kalloc. */
  lemma TakeOk(g: Pool, m: Mach, x: set<nat>)
    requires VmOk(g, m, x) && m.free != []
    ensures var f := m.free[0]; g.Has(f) && f !in m.owner && f !in x
    ensures VmOk(g, m.(free := m.free[1..]), x + {m.free[0]})
    ensures FreeAt(m, 0)
  {
    var f, n, y := m.free[0], m.(free := m.free[1..]), x + {m.free[0]};
    assert PartAt(g, m, x, f) && FreeAt(m, 0);
    forall e: nat ensures PartAt(g, n, y, e) {
      assert PartAt(g, m, x, e);
      assert e in n.free <==> e in m.free && e != f;
    }
    forall k: nat ensures FreeAt(n, k) {
      assert FreeAt(m, k + 1);
      if k < |n.free| { assert n.free[k + 1..] == m.free[k + 2..]; }
    }
    forall d: nat, i: nat ensures DirAt(n, d, i) { assert DirAt(m, d, i); }
    forall d: nat, p: nat ensures MapAt(n, d, p) { assert MapAt(m, d, p); }
    forall e: nat ensures UseAt(n, e) { assert UseAt(m, e); }
  }

  /** kfree. */
  lemma GiveOk(g: Pool, m: Mach, x: set<nat>, f: nat, c: Frame)
    requires VmOk(g, m, x) && f in x && c[0] == HeadOf(m.free)
    ensures f < |m.mem| && VmOk(g, m.(mem := m.mem[f := c], free := [f] + m.free), x - {f})
  {
    ScribbleOk(g, m, x, f, c);
    var u := m.(mem := m.mem[f := c]);
    var n, y := u.(free := [f] + m.free), x - {f};
    assert PartAt(g, m, x, f);
    forall e: nat ensures PartAt(g, n, y, e) { assert PartAt(g, u, x, e); }
    forall k: nat ensures FreeAt(n, k) {
      if k == 0 {
        assert n.free[1..] == m.free;
      } else {
        assert FreeAt(u, k - 1);
        if k < |n.free| { assert n.free[k + 1..] == m.free[k..]; }
      }
    }
    forall d: nat, i: nat ensures DirAt(n, d, i) { assert DirAt(u, d, i); }
    forall d: nat, p: nat ensures MapAt(n, d, p) { assert MapAt(u, d, p); }
    forall e: nat ensures UseAt(n, e) { assert UseAt(u, e); }
  }

  // ---------------------------------------------------------------- changing a page table

  /** A zeroed frame in hand becomes a directory. */
  lemma DirOk(g: Pool, m: Mach, x: set<nat>, f: nat)
    requires VmOk(g, m, x) && f in x && f < |m.mem| && m.mem[f] == Blank()
    ensures VmOk(g, m.(owner := m.owner[f := Dir]), x - {f})
    ensures forall p: nat :: Lookup(m.mem, f, p) == 0
  {
    var n, y := m.(owner := m.owner[f := Dir]), x - {f};
    assert PartAt(g, m, x, f);
    forall e: nat ensures PartAt(g, n, y, e) { assert PartAt(g, m, x, e); }
    forall k: nat ensures FreeAt(n, k) { assert FreeAt(m, k); }
    forall d: nat, i: nat ensures DirAt(n, d, i) { assert DirAt(m, d, i); }
    forall d: nat, p: nat ensures MapAt(n, d, p) { assert MapAt(m, d, p); }
    forall e: nat ensures UseAt(n, e) { assert UseAt(m, e); }
  }

  /** d's entry for table i now leads to f. */
  function WithTable(mem: Memory, d: nat, i: nat, f: nat): Memory
    requires d < |mem| && i < ENTRIES && f < PAGES
  {
    mem[d := mem[d][i := Pte(f, 7)]]
  }

  lemma TableLookup(g: Pool, m: Mach, x: set<nat>, d: nat, i: nat, f: nat, e: nat, p: nat)
    requires VmOk(g, m, x) && IsDir(m, d) && i < ENTRIES && !Present(m.mem[d][i])
    requires f in x && f < |m.mem| && m.mem[f] == Blank() && IsDir(m, e) && p < PAGES
    ensures Lookup(WithTable(m.mem, d, i, f), e, p) == Lookup(m.mem, e, p)
  {
    PteParts(f, 7);
    assert PartAt(g, m, x, f);
    TableOwned(g, m, x, e, p);
    assert PartAt(g, m, x, d);
  }

  /** A zeroed frame in hand becomes a page table; no page is mapped by that. */
  lemma TableOk(g: Pool, m: Mach, x: set<nat>, d: nat, i: nat, f: nat)
    requires VmOk(g, m, x) && IsDir(m, d) && i < ENTRIES && !Present(m.mem[d][i])
    requires f in x && f < |m.mem| && m.mem[f] == Blank()
    ensures VmOk(g, m.(mem := WithTable(m.mem, d, i, f), owner := m.owner[f := Table(d, i)]), x - {f})
  {
    PteParts(f, 7);
    var n, y := m.(mem := WithTable(m.mem, d, i, f), owner := m.owner[f := Table(d, i)]), x - {f};
    assert PartAt(g, m, x, f) && PartAt(g, m, x, d);
    forall e: nat ensures PartAt(g, n, y, e) { assert PartAt(g, m, x, e); }
    forall k: nat ensures FreeAt(n, k) { assert FreeAt(m, k); }
    forall e: nat, k: nat ensures DirAt(n, e, k) { assert DirAt(m, e, k); }
    forall e: nat, p: nat ensures MapAt(n, e, p) {
      assert MapAt(m, e, p);
      if IsDir(m, e) && p < USERPAGES { TableLookup(g, m, x, d, i, f, e, p); }
    }
    forall e: nat ensures UseAt(n, e) {
      assert UseAt(m, e);
      if e in m.owner && m.owner[e].User? { TableLookup(g, m, x, d, i, f, m.owner[e].dir, m.owner[e].page); }
    }
  }

  /** The entry of page p in directory d becomes w. */
  function WithEntry(mem: Memory, d: nat, p: nat, w: Word): Memory
    requires 0 < TableOf(mem, d, p) < |mem|
  {
    var t := TableOf(mem, d, p);
    mem[t := mem[t][p % ENTRIES := w]]
  }

  /** Writing an entry changes that entry alone. */
  lemma EntryLookup(g: Pool, m: Mach, x: set<nat>, d: nat, p: nat, w: Word, e: nat, q: nat)
    requires VmOk(g, m, x) && IsDir(m, d) && p < PAGES && 0 < TableOf(m.mem, d, p) < |m.mem|
    requires IsDir(m, e) && q < PAGES
    ensures Lookup(WithEntry(m.mem, d, p, w), e, q) == if e == d && q == p then w else Lookup(m.mem, e, q)
    ensures TableOf(WithEntry(m.mem, d, p, w), e, q) == TableOf(m.mem, e, q)
  {
    TableOwned(g, m, x, d, p);
    TableOwned(g, m, x, e, q);
  }

  /** The parts of the invariant that writing an entry cannot affect. */
  lemma EntryFrame(g: Pool, m: Mach, x: set<nat>, d: nat, p: nat, w: Word)
    requires VmOk(g, m, x) && IsDir(m, d) && p < PAGES && 0 < TableOf(m.mem, d, p) < |m.mem|
    ensures var n := m.(mem := WithEntry(m.mem, d, p, w));
            && (forall k: nat :: FreeAt(n, k)) && (forall e: nat, i: nat :: DirAt(n, e, i))
            && |n.mem| == |m.mem|
  {
    var n, t := m.(mem := WithEntry(m.mem, d, p, w)), TableOf(m.mem, d, p);
    TableOwned(g, m, x, d, p);
    assert PartAt(g, m, x, t);
    forall k: nat ensures FreeAt(n, k) { assert FreeAt(m, k); }
    forall e: nat, i: nat ensures DirAt(n, e, i) { assert DirAt(m, e, i); }
  }

  /** An entry of the kernel's half is nobody's. */
  lemma KernelOk(g: Pool, m: Mach, x: set<nat>, d: nat, p: nat, w: Word)
    requires VmOk(g, m, x) && IsDir(m, d) && USERPAGES <= p < PAGES && 0 < TableOf(m.mem, d, p) < |m.mem|
    ensures VmOk(g, m.(mem := WithEntry(m.mem, d, p, w)), x)
  {
    var n := m.(mem := WithEntry(m.mem, d, p, w));
    EntryFrame(g, m, x, d, p, w);
    TableOwned(g, m, x, d, p);
    forall e: nat ensures PartAt(g, n, x, e) { assert PartAt(g, m, x, e); }
    forall e: nat, q: nat ensures MapAt(n, e, q) {
      assert MapAt(m, e, q);
      if IsDir(m, e) && q < USERPAGES { EntryLookup(g, m, x, d, p, w, e, q); }
    }
    forall e: nat ensures UseAt(n, e) {
      assert UseAt(m, e);
      if e in m.owner && m.owner[e].User? { EntryLookup(g, m, x, d, p, w, m.owner[e].dir, m.owner[e].page); }
    }
  }

  /** A frame in hand becomes the user page p, which was not mapped. */
  lemma UserOk(g: Pool, m: Mach, x: set<nat>, d: nat, p: nat, f: nat, w: Word)
    requires VmOk(g, m, x) && IsDir(m, d) && p < USERPAGES && 0 < TableOf(m.mem, d, p) < |m.mem|
    requires !Present(Lookup(m.mem, d, p)) && f in x && Present(w) && FrameOf(w) == f
    ensures VmOk(g, m.(mem := WithEntry(m.mem, d, p, w), owner := m.owner[f := User(d, p)]), x - {f})
  {
    var n, y := m.(mem := WithEntry(m.mem, d, p, w), owner := m.owner[f := User(d, p)]), x - {f};
    EntryFrame(g, m, x, d, p, w);
    TableOwned(g, m, x, d, p);
    assert PartAt(g, m, x, f);
    forall e: nat ensures PartAt(g, n, y, e) { assert PartAt(g, m, x, e); }
    forall k: nat ensures FreeAt(n, k) { assert FreeAt(m.(mem := n.mem), k); }
    forall e: nat, i: nat ensures DirAt(n, e, i) { assert DirAt(m.(mem := n.mem), e, i); }
    forall e: nat, q: nat ensures MapAt(n, e, q) {
      assert MapAt(m, e, q);
      if IsDir(m, e) && q < USERPAGES { EntryLookup(g, m, x, d, p, w, e, q); }
    }
    forall e: nat ensures UseAt(n, e) {
      assert UseAt(m, e);
      if e == f {
        EntryLookup(g, m, x, d, p, w, d, p);
      } else if e in m.owner && m.owner[e].User? {
        EntryLookup(g, m, x, d, p, w, m.owner[e].dir, m.owner[e].page);
      }
    }
  }

  /** A user page is unmapped, and its frame is in hand. */
  lemma UnmapOk(g: Pool, m: Mach, x: set<nat>, d: nat, p: nat, f: nat)
    requires VmOk(g, m, x) && IsDir(m, d) && p < USERPAGES && 0 < TableOf(m.mem, d, p) < |m.mem|
    requires Present(Lookup(m.mem, d, p)) && f == FrameOf(Lookup(m.mem, d, p))
    ensures f in m.owner && m.owner[f] == User(d, p) && g.Has(f) && f !in m.free && f != TableOf(m.mem, d, p)
    ensures VmOk(g, m.(mem := WithEntry(m.mem, d, p, 0), owner := m.owner - {f}), x + {f})
  {
    var n, y := m.(mem := WithEntry(m.mem, d, p, 0), owner := m.owner - {f}), x + {f};
    EntryFrame(g, m, x, d, p, 0);
    TableOwned(g, m, x, d, p);
    assert MapAt(m, d, p) && PartAt(g, m, x, f);
    forall e: nat ensures PartAt(g, n, y, e) { assert PartAt(g, m, x, e); }
    forall k: nat ensures FreeAt(n, k) { assert FreeAt(m.(mem := n.mem), k); }
    forall e: nat, i: nat ensures DirAt(n, e, i) { assert DirAt(m.(mem := n.mem), e, i); }
    forall e: nat, q: nat ensures MapAt(n, e, q) {
      assert MapAt(m, e, q);
      if IsDir(m, e) && q < USERPAGES { EntryLookup(g, m, x, d, p, 0, e, q); }
    }
    forall e: nat ensures UseAt(n, e) {
      assert UseAt(m, e);
      if e in m.owner && m.owner[e].User? { EntryLookup(g, m, x, d, p, 0, m.owner[e].dir, m.owner[e].page); }
    }
  }

  // ---------------------------------------------------------------- giving up a directory

  ghost predicate Belongs(u: Use, f: nat, d: nat) {
    (u == Dir && f == d) || (u.Table? && u.dir == d) || (u.User? && u.dir == d)
  }

  ghost function FramesOf(owner: map<nat, Use>, d: nat): set<nat> {
    set f | f in owner && Belongs(owner[f], f, d)
  }

  /** All of a directory's frames can be taken in hand at once: nobody else refers to them. */
  lemma ReleaseOk(g: Pool, m: Mach, x: set<nat>, d: nat)
    requires VmOk(g, m, x) && IsDir(m, d)
    ensures VmOk(g, m.(owner := m.owner - FramesOf(m.owner, d)), x + FramesOf(m.owner, d))
  {
    var mine := FramesOf(m.owner, d);
    var n, y := m.(owner := m.owner - mine), x + mine;
    forall e: nat ensures PartAt(g, n, y, e) { assert PartAt(g, m, x, e); }
    forall k: nat ensures FreeAt(n, k) { assert FreeAt(m, k); }
    forall e: nat, i: nat ensures DirAt(n, e, i) { assert DirAt(m, e, i); }
    forall e: nat, p: nat ensures MapAt(n, e, p) { assert MapAt(m, e, p); }
    forall e: nat ensures UseAt(n, e) { assert UseAt(m, e); }
  }
}
