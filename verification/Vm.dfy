/**
 kalloc.c and the user half of vm.c. owner says what every frame in use is for; x is the
 set of frames a call and its callers have taken and not yet put to use.
 */
module Vm {
  import opened Common
  import opened VmState
  import opened VmEffect

  const KERNBASE := 0x8000_0000
  const PTE_W_U := 6

  function PDX(va: nat): nat {
    va / 0x40_0000 % 1024
  }

  function PTX(va: nat): nat {
    va / 4096 % 1024
  }

  lemma AddressParts(va: nat)
    requires va < 0x1_0000_0000
    ensures PDX(va) == va / PGSIZE / ENTRIES && PTX(va) == va / PGSIZE % ENTRIES && va / PGSIZE < PAGES
  {
  }

  function PageRoundUp(sz: nat): nat {
    (sz + PGSIZE - 1) / PGSIZE * PGSIZE
  }

  /** What kfree leaves in a frame: junk, and the link. */
  function Junk(next: nat): Frame
    requires next < PAGES
  {
    seq(ENTRIES, k => if k == 0 then next else 0x0101_0101)
  }

  ghost predicate Within(f: nat, vstart: nat, vend: nat) {
    vstart <= f * PGSIZE && f * PGSIZE + PGSIZE <= vend
  }

  lemma FreeOnly(m: Mach, n: Mach, d: nat)
    requires n == m.(free := n.free)
    ensures Only(m, n, d, 0, 0)
  {
    forall e: nat, q: nat ensures EntryKept(m, n, d, 0, 0, e, q) {}
    forall f: nat ensures FrameKept(m, n, d, 0, 0, f) {}
  }

  /** The frames in hand hold what they held. */
  ghost predicate SameHand(x: set<nat>, m: Memory, n: Memory) {
    |m| == |n| && forall f :: f in x && f < |m| ==> n[f] == m[f]
  }

  /** `perm | PTE_P`. */
  function OrPresent(perm: nat): nat {
    if perm % 2 == 1 then perm else perm + 1
  }

  /** Page q of d is mapped to the frame as far above f as q is above lo. */
  ghost predicate MapsTo(mem: Memory, d: nat, lo: nat, q: nat, f: nat, perm: nat) {
    lo <= q && f + q - lo < PAGES && OrPresent(perm) < PGSIZE && Lookup(mem, d, q) == Pte(f + q - lo, OrPresent(perm))
  }

  /** The last page that size bytes at va touch. */
  function Last(va: nat, size: nat): nat
    requires size > 0
  {
    (va + size - 1) / PGSIZE
  }

  /** n is m with the pages [lo, p) of [lo, hi) mapped to the frames from pa on, and page tables for them. */
  ghost predicate Mapping(m: Mach, n: Mach, d: nat, lo: nat, p: nat, hi: nat, pa: nat, perm: nat) {
    && lo <= p <= hi <= PAGES && lo < hi && d < |m.mem| && Only(m, n, d, lo, hi)
    && (forall q :: lo <= q < p ==> MapsTo(n.mem, d, lo, q, pa, perm))
    && (forall q :: p <= q < hi ==> !Present(Lookup(n.mem, d, q)))
    && |n.free| == |m.free| - Tables(m.mem, d, lo, p) && Pdes(m.mem, n.mem, d, lo, p)
  }

  lemma MappingNone(m: Mach, d: nat, lo: nat, hi: nat, pa: nat, perm: nat)
    requires d < |m.mem| && lo < hi <= PAGES && forall q :: lo <= q < hi ==> !Present(Lookup(m.mem, d, q))
    ensures Mapping(m, m, d, lo, lo, hi, pa, perm)
  {
    OnlySelf(m, d, lo, hi);
    forall i: nat ensures PdeAt(m.mem, m.mem, d, lo, lo, i) {}
  }

  /** One more page mapped, the pages before it as they were, those after it still free. */
  lemma MappedMore(m: Mach, u: Mach, w: Mach, d: nat, lo: nat, p: nat, hi: nat, pa: nat, perm: nat)
    requires Only(m, u, d, lo, hi) && IsDir(u, d) && lo <= p < hi <= PAGES && Only(u, w, d, p, p + 1)
    requires forall q :: lo <= q < p ==> MapsTo(u.mem, d, lo, q, pa, perm)
    requires forall q :: p <= q < hi ==> !Present(Lookup(u.mem, d, q))
    requires MapsTo(w.mem, d, p, p, pa + p - lo, perm)
    ensures forall q :: lo <= q <= p ==> MapsTo(w.mem, d, lo, q, pa, perm)
    ensures forall q :: p < q < hi ==> !Present(Lookup(w.mem, d, q))
    ensures Only(m, w, d, lo, hi)
  {
    var r := p + 1;
    OnlyWider(u, w, d, p, r, lo, hi);
    OnlyTrans(m, u, w, d, lo, hi);
    forall q: nat | lo <= q <= p ensures MapsTo(w.mem, d, lo, q, pa, perm) {
      if q < p { assert MapsTo(u.mem, d, lo, q, pa, perm) && EntryKept(u, w, d, p, r, d, q); }
    }
    forall q: nat | p < q < hi ensures !Present(Lookup(w.mem, d, q)) { assert EntryKept(u, w, d, p, r, d, q); }
  }

  function PagesFor(sz: nat): (n: nat)
    ensures sz <= PGSIZE * n < sz + PGSIZE
  {
    (sz + PGSIZE - 1) / PGSIZE
  }

  /** The pages [p, r) of d are not mapped in n; up to any of them, what n has lost of m is their frames. */
  ghost predicate Swept(m: Mach, n: Mach, d: nat, p: nat, r: nat) {
    && (forall q: nat :: p <= q < r ==> Lookup(n.mem, d, q) == 0)
    && (forall q: nat :: p < q <= r ==> n.owner == Dropped(m.owner, d, p, q))
  }

  lemma SweptOne(m: Mach, n: Mach, d: nat, p: nat)
    requires Lookup(n.mem, d, p) == 0 && n.owner == Dropped(m.owner, d, p, p + 1)
    ensures Swept(m, n, d, p, p + 1)
  {
  }

  /** The stretch of addresses that deallocuvm steps over has no pages. */
  lemma SkipTable(g: Pool, m: Mach, x: set<nat>, d: nat, a: nat)
    requires VmOk(g, m, x) && IsDir(m, d) && a < 0x1_0000_0000 && TableOf(m.mem, d, a / PGSIZE) == 0
    ensures var p, top := a / PGSIZE, (PDX(a) + 1) * 0x40_0000;
            a < top && top % PGSIZE == 0 && Swept(m, m, d, p, top / PGSIZE)
  {
    var p, top := a / PGSIZE, (PDX(a) + 1) * 0x40_0000;
    AddressParts(a);
    assert top / PGSIZE == (p / ENTRIES + 1) * ENTRIES;
    forall q: nat | p <= q < top / PGSIZE ensures Lookup(m.mem, d, q) == 0 { NoTable(g, m, x, d, p, q); }
    forall q: nat | p < q <= top / PGSIZE
      ensures m.owner == Dropped(m.owner, d, p, q)
    {
      NothingDropped(g, m, x, d, p, q);
    }
  }

  lemma ZeroStays(u: Mach, w: Mach, d: nat, lo: nat, p: nat)
    requires IsDir(u, d) && p < PAGES && Only(u, w, d, p, p + 1)
    requires forall q: nat :: lo <= q < p ==> Lookup(u.mem, d, q) == 0
    ensures forall q: nat :: lo <= q < p ==> Lookup(w.mem, d, q) == 0
  {
    var r := p + 1;
    forall q: nat | lo <= q < p ensures Lookup(w.mem, d, q) == 0 { assert EntryKept(u, w, d, p, r, d, q); }
  }

  /** Unmapping page p and freeing its frame f. */
  lemma FreedOk(g: Pool, m: Mach, x: set<nat>, d: nat, p: nat, f: nat, n: Mach)
    requires VmOk(g, m, x) && IsDir(m, d) && p < USERPAGES && 0 < TableOf(m.mem, d, p) < |m.mem|
    requires Present(Lookup(m.mem, d, p)) && f == FrameOf(Lookup(m.mem, d, p)) < |m.mem| && HeadOf(m.free) < PAGES
    requires n == Mach(WithEntry(m.mem, d, p, 0)[f := Junk(HeadOf(m.free))], [f] + m.free, m.owner - {f})
    ensures VmOk(g, n, x) && IsDir(n, d) && SameHand(x, m.mem, n.mem)
    ensures Only(m, n, d, p, p + 1) && Lookup(n.mem, d, p) == 0
  {
    UnmapOk(g, m, x, d, p, f);
    EntryOnly(g, m, x, d, p, 0, m.owner - {f}, f);
    EntryLookup(g, m, x, d, p, 0, d, p);
    TableOwned(g, m, x, d, p);
    var u := m.(mem := WithEntry(m.mem, d, p, 0), owner := m.owner - {f});
    assert PartAt(g, m, x, TableOf(m.mem, d, p)) && PartAt(g, m, x, f);
    GiveOk(g, u, x + {f}, f, Junk(HeadOf(m.free)));
    HandOnly(g, u, x + {f}, f, Junk(HeadOf(m.free)), n.free, d);
    assert x + {f} - {f} == x;
    OnlyWider(u, n, d, 0, 0, p, p + 1);
    OnlyTrans(m, u, n, d, p, p + 1);
    assert EntryKept(u, n, d, 0, 0, d, p);
  }

  /** Entering w for page p: a user page takes its frame out of hand. */
  lemma MappedOk(g: Pool, u: Mach, x: set<nat>, d: nat, p: nat, f: nat, w: Word, n: Mach)
    requires VmOk(g, u, x) && IsDir(u, d) && p < PAGES && 0 < TableOf(u.mem, d, p) < |u.mem|
    requires !Present(Lookup(u.mem, d, p)) && Present(w) && FrameOf(w) == f && (p < USERPAGES ==> f in x)
    requires n == Mach(WithEntry(u.mem, d, p, w), u.free, if p < USERPAGES then u.owner[f := User(d, p)] else u.owner)
    ensures VmOk(g, n, if p < USERPAGES then x - {f} else x) && IsDir(n, d)
    ensures Only(u, n, d, p, p + 1) && Lookup(n.mem, d, p) == w && SameHand(x, u.mem, n.mem)
  {
    TableOwned(g, u, x, d, p);
    assert PartAt(g, u, x, TableOf(u.mem, d, p));
    EntryLookup(g, u, x, d, p, w, d, p);
    assert PartAt(g, u, x, f) && PartAt(g, u, x, d);
    EntryOnly(g, u, x, d, p, w, n.owner, f);
    if p < USERPAGES {
      UserOk(g, u, x, d, p, f, w);
    } else {
      KernelOk(g, u, x, d, p, w);
    }
  }

  /** Page q of d is mapped, user-writable, to a zeroed frame that was not in use in m. */
  ghost predicate FreshAt(m: Mach, n: Mach, d: nat, q: nat) {
    var f := FrameOf(Lookup(n.mem, d, q));
    && f < |n.mem| && f < PAGES && Lookup(n.mem, d, q) == Pte(f, 7) && n.mem[f] == Blank()
    && f in n.owner && n.owner[f] == User(d, q) && f !in m.owner
  }

  /** One more fresh page; the ones before it stay fresh, those after it unmapped. */
  lemma FreshMore(m: Mach, u: Mach, w: Mach, d: nat, lo: nat, p: nat, hi: nat)
    requires IsDir(u, d) && lo <= p < hi <= PAGES && Only(u, w, d, p, p + 1)
    requires forall q: nat :: lo <= q < p ==> FreshAt(m, u, d, q)
    requires forall q: nat :: p <= q < hi ==> !Present(Lookup(u.mem, d, q))
    requires FreshAt(u, w, d, p) && Dropped(m.owner, d, lo, hi) == m.owner && Only(m, u, d, lo, hi)
    ensures Only(m, w, d, lo, hi)
    ensures forall q: nat :: lo <= q <= p ==> FreshAt(m, w, d, q)
    ensures forall q: nat :: p < q < hi ==> !Present(Lookup(w.mem, d, q))
  {
    var r := p + 1;
    OnlyWider(u, w, d, p, r, lo, hi);
    OnlyTrans(m, u, w, d, lo, hi);
    forall q: nat | lo <= q <= p ensures FreshAt(m, w, d, q) {
      if q < p {
        assert FreshAt(m, u, d, q) && EntryKept(u, w, d, p, r, d, q);
        assert FrameKept(u, w, d, p, r, FrameOf(Lookup(u.mem, d, q)));
      } else {
        var f := FrameOf(Lookup(w.mem, d, p));
        assert FrameKept(m, u, d, lo, hi, f) && (f in m.owner ==> f in Dropped(m.owner, d, lo, hi));
      }
    }
    forall q: nat | p < q < hi ensures !Present(Lookup(w.mem, d, q)) { assert EntryKept(u, w, d, p, r, d, q); }
  }

  /** If no page in the range was mapped before or is now, then only page tables can have changed. */
  lemma Undone(g: Pool, m: Mach, x: set<nat>, n: Mach, y: set<nat>, d: nat, lo: nat, hi: nat)
    requires VmOk(g, m, x) && VmOk(g, n, y) && IsDir(m, d) && IsDir(n, d) && hi <= USERPAGES && Only(m, n, d, lo, hi)
    requires forall q: nat :: lo <= q < hi ==> !Present(Lookup(m.mem, d, q))
    requires lo < hi ==> forall q: nat :: lo <= q < hi ==> Lookup(n.mem, d, q) == 0
    ensures Only(m, n, d, 0, 0)
  {
    forall e: nat, q: nat ensures EntryKept(m, n, d, 0, 0, e, q) {
      assert EntryKept(m, n, d, lo, hi, e, q);
      if e == d && lo <= q < hi { assert MapAt(m, d, q); }
    }
    forall f: nat ensures FrameKept(m, n, d, 0, 0, f) {
      assert FrameKept(m, n, d, lo, hi, f) && UseAt(m, f) && UseAt(n, f);
    }
  }

  /** Of d's entries at most the i-th has changed. */
  ghost predicate DirGrows(m: Memory, n: Memory, d: nat, i: nat) {
    d < |m| == |n| && i < ENTRIES && n[d] == m[d][i := n[d][i]]
  }

  /** Entry i of d, if it is one of lo to hi, is absent. */
  ghost predicate NoPde(mem: Memory, d: nat, lo: nat, hi: nat, i: nat) {
    d < |mem| && lo <= i <= hi && i < ENTRIES ==> !Present(mem[d][i])
  }

  ghost predicate NoPdes(mem: Memory, d: nat, lo: nat, hi: nat) {
    forall i: nat :: NoPde(mem, d, lo, hi, i)
  }

  /** Page tables that d lacks for the pages [lo, p), no later one being there yet. */
  function Tables(mem: Memory, d: nat, lo: nat, p: nat): nat
    requires d < |mem| && lo <= p <= PAGES && lo < PAGES
  {
    if p == lo then 0 else (p - 1) / ENTRIES - lo / ENTRIES + (if Present(mem[d][lo / ENTRIES]) then 0 else 1)
  }

  /** With the pages [lo, p) mapped, d has its old page tables and theirs. */
  ghost predicate PdeAt(m: Memory, n: Memory, d: nat, lo: nat, p: nat, i: nat) {
    d < |m| == |n| && i < ENTRIES ==>
      (Present(n[d][i]) <==> Present(m[d][i]) || (lo < p && lo / ENTRIES <= i <= (p - 1) / ENTRIES))
  }

  ghost predicate Pdes(m: Memory, n: Memory, d: nat, lo: nat, p: nat) {
    forall i: nat :: PdeAt(m, n, d, lo, p, i)
  }

  /** Whether the next page needs a page table. */
  lemma PdeStep(m: Memory, n: Memory, d: nat, lo: nat, p: nat, hi: nat)
    requires d < |m| == |n| && lo <= p < hi <= PAGES && Pdes(m, n, d, lo, p)
    requires NoPdes(m, d, lo / ENTRIES + 1, (hi - 1) / ENTRIES)
    ensures Tables(m, d, lo, p + 1) == Tables(m, d, lo, p) + (if Present(n[d][p / ENTRIES]) then 0 else 1)
    ensures Tables(m, d, lo, p + 1) <= Tables(m, d, lo, hi)
  {
    assert NoPde(m, d, lo / ENTRIES + 1, (hi - 1) / ENTRIES, p / ENTRIES) && PdeAt(m, n, d, lo, p, p / ENTRIES);
    assert p > lo ==> p / ENTRIES <= (p - 1) / ENTRIES + 1;
  }

  lemma PdeNext(m: Memory, n: Memory, r: Memory, d: nat, lo: nat, p: nat)
    requires d < |m| == |n| && lo <= p < PAGES && Pdes(m, n, d, lo, p)
    requires DirGrows(n, r, d, p / ENTRIES) && Present(r[d][p / ENTRIES])
    ensures Pdes(m, r, d, lo, p + 1)
  {
    var s := p + 1;
    forall i: nat ensures PdeAt(m, r, d, lo, s, i) {
      assert PdeAt(m, n, d, lo, p, i);
      assert p > lo ==> p / ENTRIES <= (p - 1) / ENTRIES + 1;
    }
  }

  lemma NoUsers(g: Pool, m: Mach, x: set<nat>, d: nat)
    requires VmOk(g, m, x)
    ensures forall f: nat :: f in Dropped(m.owner, d, 0, USERPAGES) ==> !(m.owner[f].User? && m.owner[f].dir == d)
    ensures Dropped(m.owner, d, 0, USERPAGES) - FramesOf(Dropped(m.owner, d, 0, USERPAGES), d)
            == m.owner - FramesOf(m.owner, d)
  {
    forall f: nat | f in Dropped(m.owner, d, 0, USERPAGES) ensures !(m.owner[f].User? && m.owner[f].dir == d) {
      assert UseAt(m, f);
    }
  }

  lemma PdesSelf(m: Memory, d: nat, lo: nat)
    ensures Pdes(m, m, d, lo, lo)
  {
    forall i: nat ensures PdeAt(m, m, d, lo, lo, i) {}
  }

  lemma PdesMore(m: Memory, n: Memory, r: Memory, d: nat, lo: nat, p: nat)
    requires |m| == |n| == |r| && lo <= p && Pdes(m, n, d, lo, p) && Pdes(n, r, d, p, p + 1)
    ensures Pdes(m, r, d, lo, p + 1)
  {
    var s := p + 1;
    forall i: nat ensures PdeAt(m, r, d, lo, s, i) {
      assert PdeAt(m, n, d, lo, p, i) && PdeAt(n, r, d, p, s, i);
      assert p > lo ==> (p - 1) / ENTRIES <= p / ENTRIES <= (p - 1) / ENTRIES + 1;
    }
  }

  /** Frames it takes to map the pages [lo, p): one each, and one for each page table that d lacks. */
  function Growth(mem: Memory, d: nat, lo: nat, p: nat): nat
    requires d < |mem| && lo <= p <= PAGES
  {
    if p == lo then 0
    else
      var q := p - 1;
      Growth(mem, d, lo, q) + 1 + if (q == lo || q % ENTRIES == 0) && !Present(mem[d][q / ENTRIES]) then 1 else 0
  }

  lemma {:induction false} GrowthGrows(mem: Memory, d: nat, lo: nat, p: nat, hi: nat)
    requires d < |mem| && lo <= p <= hi <= PAGES
    ensures Growth(mem, d, lo, p) <= Growth(mem, d, lo, hi)
    decreases hi - p
  {
    if p < hi { GrowthGrows(mem, d, lo, p + 1, hi); }
  }

  lemma GrowthStep(m: Memory, n: Memory, d: nat, lo: nat, p: nat, hi: nat)
    requires d < |m| == |n| && lo <= p < hi <= PAGES && Pdes(m, n, d, lo, p)
    ensures Growth(m, d, lo, p + 1) == Growth(m, d, lo, p) + 1 + if Present(n[d][p / ENTRIES]) then 0 else 1
    ensures Growth(m, d, lo, p + 1) <= Growth(m, d, lo, hi)
  {
    assert PdeAt(m, n, d, lo, p, p / ENTRIES);
    assert p > lo ==> (p / ENTRIES <= (p - 1) / ENTRIES <==> p % ENTRIES != 0);
    GrowthGrows(m, d, lo, p + 1, hi);
  }

  /** n is m with the pages [lo, p) of [lo, hi) mapped to fresh frames, and page tables for them. */
  ghost predicate Growing(m: Mach, n: Mach, d: nat, lo: nat, p: nat, hi: nat) {
    && lo <= p <= hi <= USERPAGES && d < |m.mem| && Only(m, n, d, lo, hi) && Dropped(m.owner, d, lo, hi) == m.owner
    && (forall q: nat :: lo <= q < p ==> FreshAt(m, n, d, q))
    && (forall q: nat :: p <= q < hi ==> !Present(Lookup(n.mem, d, q)))
    && |n.free| == |m.free| - Growth(m.mem, d, lo, p) && Pdes(m.mem, n.mem, d, lo, p)
  }

  lemma GrowingNone(g: Pool, m: Mach, x: set<nat>, d: nat, lo: nat, hi: nat)
    requires VmOk(g, m, x) && IsDir(m, d) && lo <= hi <= USERPAGES
    requires forall q: nat :: lo <= q < hi ==> !Present(Lookup(m.mem, d, q))
    ensures Growing(m, m, d, lo, lo, hi)
  {
    OnlySelf(m, d, lo, hi);
    NothingDropped(g, m, x, d, lo, hi);
    PdesSelf(m.mem, d, lo);
  }

  lemma PdesFrom(m: Memory, v: Memory, n: Memory, d: nat, lo: nat, p: nat)
    requires d < |m| == |v| && m[d] == v[d] && Pdes(v, n, d, lo, p)
    ensures Pdes(m, n, d, lo, p)
  {
    forall i: nat ensures PdeAt(m, n, d, lo, p, i) { assert PdeAt(v, n, d, lo, p, i); }
  }

  // ---------------------------------------------------------------- the kernel's mappings

  const EXTMEM := 0x10_0000
  const PHYSTOP := 0xE00_0000
  const DEVSPACE := 0xFE00_0000
  const KERNLINK := 0x8010_0000
  const KFRAMES := 65 // a directory and 64 page tables

  datatype Region = Region(va: nat, size: nat, pa: nat, perm: nat)

  /** Where the linker puts `data`: on a page boundary inside the kernel. */
  predicate DataOk(data: nat) {
    data % PGSIZE == 0 && KERNLINK < data < KERNBASE + PHYSTOP
  }

  /** The table kmap, with sizes for ends and frame numbers for physical addresses. */
  function Kmap(data: nat): seq<Region>
    requires DataOk(data)
  {
    [Region(KERNBASE, EXTMEM, 0, 2),
     Region(KERNLINK, data - KERNLINK, EXTMEM / PGSIZE, 0),
     Region(data, KERNBASE + PHYSTOP - data, (data - KERNBASE) / PGSIZE, 2),
     Region(DEVSPACE, 0x1_0000_0000 - DEVSPACE, DEVSPACE / PGSIZE, 2)]
  }

  /** The last directory entry used by the first k regions, the fourth lying apart. */
  function TopPde(data: nat, k: nat): nat
    requires DataOk(data) && k <= 4
  {
    if k == 0 then 511 else if k == 1 then 512 else if k == 2 then (data / PGSIZE - 1) / ENTRIES else 567
  }

  /** Page tables the first k regions take. */
  function TablesTo(data: nat, k: nat): nat
    requires DataOk(data) && k <= 4
    ensures k == 4 ==> TablesTo(data, k) == KFRAMES - 1
  {
    if k == 4 then 64 else if TopPde(data, k) < 511 then 0 else TopPde(data, k) - 511
  }

  /** First page that regions k and on cover. */
  function StartPage(data: nat, k: nat): nat
    requires DataOk(data) && k <= 4
  {
    if k < 4 then Kmap(data)[k].va / PGSIZE else PAGES
  }

  ghost predicate RegionMapped(mem: Memory, d: nat, r: Region) {
    && r.size > 0
    && forall q :: r.va / PGSIZE <= q <= Last(r.va, r.size) ==> MapsTo(mem, d, r.va / PGSIZE, q, r.pa, r.perm)
  }

  ghost predicate RegionAt(mem: Memory, d: nat, data: nat, k: nat, j: nat) {
    DataOk(data) && j < k <= 4 ==> RegionMapped(mem, d, Kmap(data)[j])
  }

  /** Not mapped: what regions k and on cover, what lies below the first region or below the fourth. */
  ghost predicate UnmappedAt(mem: Memory, d: nat, data: nat, k: nat, q: nat) {
    DataOk(data) && k <= 4 && (q < USERPAGES || StartPage(data, k) <= q || 0x8_E000 <= q < 0xF_E000) ==>
      Lookup(mem, d, q) == 0
  }

  ghost predicate KernelPde(mem: Memory, d: nat, data: nat, k: nat, i: nat) {
    DataOk(data) && k <= 4 && d < |mem| && i < ENTRIES ==>
      (Present(mem[d][i]) <==> 512 <= i <= TopPde(data, k) || (k == 4 && 1016 <= i))
  }

  /** d maps the first k regions, each page where it should be, and nothing else that matters. */
  ghost predicate KernelTo(mem: Memory, d: nat, data: nat, k: nat) {
    && (forall j: nat :: RegionAt(mem, d, data, k, j))
    && (forall q: nat :: UnmappedAt(mem, d, data, k, q))
    && (forall i: nat :: KernelPde(mem, d, data, k, i))
  }

  lemma KernelNone(mem: Memory, d: nat, data: nat)
    requires DataOk(data) && d < |mem| && mem[d] == Blank() && forall q: nat :: Lookup(mem, d, q) == 0
    ensures KernelTo(mem, d, data, 0) && TablesTo(data, 0) == 0
  {
    forall j: nat ensures RegionAt(mem, d, data, 0, j) {}
    forall q: nat ensures UnmappedAt(mem, d, data, 0, q) {}
    forall i: nat ensures KernelPde(mem, d, data, 0, i) {}
  }

  lemma TablesGrow(data: nat, k: nat)
    requires DataOk(data) && k < 4
    ensures TablesTo(data, k) <= TablesTo(data, k + 1) <= KFRAMES - 1
  {
  }

  /** What mappages needs to know of the k-th region. */
  lemma RegionFits(mem: Memory, d: nat, data: nat, k: nat)
    requires DataOk(data) && k < 4 && d < |mem| && KernelTo(mem, d, data, k)
    ensures var r := Kmap(data)[k];
            var lo, last := r.va / PGSIZE, (r.va + r.size - 1) / PGSIZE;
            && r.size > 0 && r.va >= KERNBASE && r.va + r.size <= 0x1_0000_0000 && r.pa + last - lo < PAGES
            && (forall q :: lo <= q <= last ==> !Present(Lookup(mem, d, q)))
            && NoPdes(mem, d, lo / ENTRIES + 1, last / ENTRIES)
            && Tables(mem, d, lo, last + 1) == TablesTo(data, k + 1) - TablesTo(data, k)
  {
    var r := Kmap(data)[k];
    var lo, last := r.va / PGSIZE, (r.va + r.size - 1) / PGSIZE;
    forall q: nat | lo <= q <= last ensures !Present(Lookup(mem, d, q)) { assert UnmappedAt(mem, d, data, k, q); }
    var a, b := lo / ENTRIES + 1, last / ENTRIES;
    forall i: nat ensures NoPde(mem, d, a, b, i) { assert KernelPde(mem, d, data, k, i); }
    assert KernelPde(mem, d, data, k, lo / ENTRIES);
  }

  lemma KernelNext(m: Mach, n: Mach, d: nat, data: nat, k: nat)
    requires DataOk(data) && k < 4 && IsDir(m, d) && KernelTo(m.mem, d, data, k)
    requires var r := Kmap(data)[k];
             && Only(m, n, d, r.va / PGSIZE, Last(r.va, r.size) + 1) && RegionMapped(n.mem, d, r)
             && Pdes(m.mem, n.mem, d, r.va / PGSIZE, Last(r.va, r.size) + 1)
    ensures KernelTo(n.mem, d, data, k + 1)
  {
    var r, s := Kmap(data)[k], k + 1;
    var lo, hi := r.va / PGSIZE, Last(r.va, r.size) + 1;
    assert hi <= StartPage(data, s) <= PAGES && USERPAGES <= lo;
    forall j: nat ensures RegionAt(n.mem, d, data, s, j) {
      assert RegionAt(m.mem, d, data, k, j);
      if j < k { RegionStays(m, n, d, lo, hi, Kmap(data)[j]); }
    }
    forall q: nat ensures UnmappedAt(n.mem, d, data, s, q) {
      assert UnmappedAt(m.mem, d, data, k, q) && EntryKept(m, n, d, lo, hi, d, q);
    }
    forall i: nat ensures KernelPde(n.mem, d, data, s, i) {
      assert KernelPde(m.mem, d, data, k, i) && PdeAt(m.mem, n.mem, d, lo, hi, i);
    }
  }

  /** A region outside [lo, hi) stays mapped. */
  lemma RegionStays(m: Mach, n: Mach, d: nat, lo: nat, hi: nat, r: Region)
    requires IsDir(m, d) && Only(m, n, d, lo, hi) && RegionMapped(m.mem, d, r)
    requires Last(r.va, r.size) < PAGES && (Last(r.va, r.size) < lo || hi <= r.va / PGSIZE)
    ensures RegionMapped(n.mem, d, r)
  {
    forall q: nat | r.va / PGSIZE <= q <= Last(r.va, r.size) ensures MapsTo(n.mem, d, r.va / PGSIZE, q, r.pa, r.perm) {
      assert EntryKept(m, n, d, lo, hi, d, q) && MapsTo(m.mem, d, r.va / PGSIZE, q, r.pa, r.perm);
    }
  }

  /**
   The entry of page q in a directory that setupkvm has made: physical memory up to PHYSTOP is
   mapped at KERNBASE, read-only between KERNLINK and data, the devices are mapped onto
   themselves, and nothing else is mapped.
   */
  function KernelEntry(data: nat, q: nat): Word {
    if 0x8_0000 <= q < 0x8_E000 then Pte(q - 0x8_0000, if 0x8_0100 <= q < data / PGSIZE then 1 else 3)
    else if 0xF_E000 <= q < PAGES then Pte(q, 3)
    else 0
  }

  lemma KernelEntries(mem: Memory, d: nat, data: nat, q: nat)
    requires DataOk(data) && KernelTo(mem, d, data, 4)
    ensures Lookup(mem, d, q) == KernelEntry(data, q)
  {
    var j := if q < 0x8_0100 then 0 else if q < data / PGSIZE then 1 else if q < 0xF_E000 then 2 else 3;
    assert RegionAt(mem, d, data, 4, j) && UnmappedAt(mem, d, data, 4, q);
    var r := Kmap(data)[j];
    if r.va / PGSIZE <= q <= Last(r.va, r.size) { assert MapsTo(mem, d, r.va / PGSIZE, q, r.pa, r.perm); }
  }

  // ---------------------------------------------------------------- copying

  /** Page q is the same in c as in d, flags and bytes, on a frame of its own. */
  ghost predicate CopiedAt(m: Mach, d: nat, c: nat, q: nat) {
    var v, w := Lookup(m.mem, d, q), Lookup(m.mem, c, q);
    && Present(v) && Present(w) && Flags(v) == Flags(w) && FrameOf(v) != FrameOf(w)
    && FrameOf(v) < |m.mem| && FrameOf(w) < |m.mem| && m.mem[FrameOf(w)] == m.mem[FrameOf(v)]
  }

  /** Filling a frame in hand with page p's bytes and mapping it in c copies the page. */
  lemma CopyDone(g: Pool, m: Mach, x: set<nat>, v: Mach, n: Mach, d: nat, c: nat, p: nat, f: nat)
    requires VmOk(g, m, x) && IsDir(m, d) && d != c && p < USERPAGES && Present(Lookup(m.mem, d, p))
    requires Only(m, v, c, 0, 0) && Only(v, n, c, p, p + 1) && f !in m.owner
    requires var w := Lookup(m.mem, d, p);
             && FrameOf(w) < |m.mem| && f < |m.mem| && f < PAGES && v.mem[f] == m.mem[FrameOf(w)]
             && n.mem[f] == v.mem[f] && Lookup(n.mem, c, p) == Pte(f, Flags(w))
    ensures Only(m, n, c, p, p + 1) && CopiedAt(n, d, c, p) && IsDir(n, d)
  {
    var w := Lookup(m.mem, d, p);
    OnlyWider(m, v, c, 0, 0, p, p + 1);
    OnlyTrans(m, v, n, c, p, p + 1);
    PteParts(f, Flags(w));
    var r := p + 1;
    assert MapAt(m, d, p) && EntryKept(m, n, c, p, r, d, p) && FrameKept(m, n, c, p, r, FrameOf(w));
  }

  /** Frames that n copied pages take: one each, and one for each page table. */
  function Cost(n: nat): nat {
    n + (n + ENTRIES - 1) / ENTRIES
  }

  lemma CostStep(p: nat)
    ensures Cost(p + 1) == Cost(p) + (if p % ENTRIES == 0 then 2 else 1)
    ensures p % ENTRIES == 0 ==> (Cost(p) + 1) % (ENTRIES + 1) == 1
    ensures Cost(p) % (ENTRIES + 1) != 1
  {
    var a, b := p / ENTRIES, p % ENTRIES;
    assert p == ENTRIES * a + b;
    if b == 0 {
      assert Cost(p) == (ENTRIES + 1) * a;
    } else {
      assert Cost(p) == (ENTRIES + 1) * a + b + 1;
    }
  }

  lemma {:induction false} CostGrows(p: nat, n: nat)
    requires p <= n
    ensures Cost(p) <= Cost(n)
  {
  }

  /** With this many free frames, copyuvm of n pages fails in mappages and loses the frame it meant to map. */
  predicate Leaks(free: nat, n: nat) {
    KFRAMES < free < KFRAMES + Cost(n) && (free - KFRAMES) % (ENTRIES + 1) == 1
  }

  /** 66 free frames are such a number, however small the copy. */
  lemma LeakHappens(n: nat)
    requires n > 0
    ensures Leaks(KFRAMES + 1, n)
  {
    CostGrows(1, n);
  }

  ghost predicate KernelMapped(mem: Memory, c: nat, data: nat) {
    forall q: nat :: USERPAGES <= q < PAGES ==> Lookup(mem, c, q) == KernelEntry(data, q)
  }

  /** With p pages copied, c has the page tables for them. */
  ghost predicate UserPde(mem: Memory, c: nat, p: nat, i: nat) {
    c < |mem| && i < 512 ==> (Present(mem[c][i]) <==> i * ENTRIES < p)
  }

  /** Half way through copyuvm: m is the state before, n the state with p pages copied. */
  ghost predicate Copying(m: Mach, n: Mach, d: nat, c: nat, data: nat, p: nat) {
    && c != d && IsDir(n, c) && IsDir(n, d) && c !in m.owner && Others(m, n, c) && KernelMapped(n.mem, c, data)
    && (forall q: nat :: q < p ==> CopiedAt(n, d, c, q))
    && (forall q: nat :: p <= q < USERPAGES ==> Lookup(n.mem, c, q) == 0)
    && (forall i: nat :: UserPde(n.mem, c, p, i))
  }

  lemma CopyStart(g: Pool, m: Mach, x: set<nat>, n: Mach, d: nat, c: nat, data: nat)
    requires VmOk(g, m, x) && IsDir(m, d) && DataOk(data) && IsDir(n, c) && c !in m.owner && Others(m, n, c)
    requires KernelTo(n.mem, c, data, 4)
    ensures Copying(m, n, d, c, data, 0) && Cost(0) == 0
  {
    assert ViewKept(m, n, c, d, 0);
    forall q: nat ensures Lookup(n.mem, c, q) == KernelEntry(data, q) { KernelEntries(n.mem, c, data, q); }
    forall i: nat ensures UserPde(n.mem, c, 0, i) { assert KernelPde(n.mem, c, data, 4, i); }
  }

  /** The next page is there to be copied, and needs a page table just when it is the first of its 1024. */
  lemma CopyReady(g: Pool, m: Mach, x: set<nat>, n: Mach, d: nat, c: nat, data: nat, p: nat, last: nat)
    requires VmOk(g, m, x) && IsDir(m, d) && Copying(m, n, d, c, data, p) && p < last <= USERPAGES
    requires forall q: nat :: q < last ==> Present(Lookup(m.mem, d, q))
    ensures Present(Lookup(n.mem, d, p)) && Lookup(n.mem, c, p) == 0
    ensures Present(n.mem[c][p / ENTRIES]) <==> p % ENTRIES != 0
  {
    assert ViewKept(m, n, c, d, p) && UserPde(n.mem, c, p, p / ENTRIES);
  }

  lemma CopyMore(g: Pool, m: Mach, x: set<nat>, u: Mach, n: Mach, d: nat, c: nat, data: nat, p: nat)
    requires VmOk(g, u, x) && Copying(m, u, d, c, data, p) && p < USERPAGES && IsDir(n, c) && IsDir(n, d)
    requires Only(u, n, c, p, p + 1) && CopiedAt(n, d, c, p) && Pdes(u.mem, n.mem, c, p, p + 1) && DataOk(data)
    ensures Copying(m, n, d, c, data, p + 1)
  {
    var r := p + 1;
    OnlyOthers(u, n, c, p, r);
    OthersTrans(m, u, n, c);
    forall q: nat | USERPAGES <= q < PAGES ensures Lookup(n.mem, c, q) == KernelEntry(data, q) {
      assert EntryKept(u, n, c, p, r, c, q);
    }
    forall q: nat | q < r ensures CopiedAt(n, d, c, q) {
      if q < p {
        var v, w := Lookup(u.mem, d, q), Lookup(u.mem, c, q);
        assert CopiedAt(u, d, c, q) && EntryKept(u, n, c, p, r, d, q) && EntryKept(u, n, c, p, r, c, q);
        assert MapAt(u, d, q) && MapAt(u, c, q);
        assert FrameKept(u, n, c, p, r, FrameOf(v)) && FrameKept(u, n, c, p, r, FrameOf(w));
      }
    }
    forall q: nat | r <= q < USERPAGES ensures Lookup(n.mem, c, q) == 0 { assert EntryKept(u, n, c, p, r, c, q); }
    forall i: nat ensures UserPde(n.mem, c, r, i) { assert UserPde(u.mem, c, p, i) && PdeAt(u.mem, n.mem, c, p, r, i); }
  }

  class Machine {
    const g: Pool
    var mem: Memory
    var freelist: nat
    ghost var free: seq<nat>
    ghost var owner: map<nat, Use>

    ghost function M(): Mach
      reads this
    {
      Mach(mem, free, owner)
    }

    ghost predicate Valid(x: set<nat>)
      reads this
    {
      VmOk(g, M(), x) && freelist == HeadOf(free)
    }

    // -------------------------------------------------------------- kalloc.c

    /** Before kinit: no frame is free yet, all are in hand. */
    constructor (pool: Pool, m: Memory)
      requires pool.Valid() && pool.hi <= |m| <= PAGES
      ensures g == pool && mem == m && owner == map[] && free == []
      ensures Valid(pool.Frames())
    {
      g, mem, freelist, free, owner := pool, m, 0, [], map[];
      new;
      forall f: nat ensures PartAt(g, M(), pool.Frames(), f) {}
    }

    /** kalloc: the first free frame, 0 if there is none. */
    method Kalloc(ghost x: set<nat>) returns (f: nat)
      requires Valid(x)
      modifies this`freelist, this`free
      ensures f == 0 <==> old(free) == []
      ensures f == 0 ==> free == old(free) && Valid(x)
      ensures f != 0 ==> f == old(free)[0] && free == old(free)[1..] && Valid(x + {f})
      ensures f != 0 ==> g.Has(f) && f !in owner && f !in x && f < |mem|
    {
      f := freelist;
      assert g.Has(0) ==> g.lo == 0;
      if free != [] {
        TakeOk(g, M(), x);
        assert HeadOf(free[1..]) == mem[f][0];
      }
      if f != 0 {
        freelist := mem[f][0];
        free := free[1..];
      }
    }

    /** kfree; false stands for its panic. */
    method Kfree(f: nat) returns (ok: bool)
      requires freelist < PAGES && g.hi <= |mem|
      modifies this`mem, this`freelist
      ensures ok <==> g.Has(f)
      ensures !ok ==> mem == old(mem) && freelist == old(freelist)
      ensures ok ==> mem == old(mem)[f := Junk(old(freelist))] && freelist == f
      ensures ok ==> mem[f][0] == old(freelist) && forall k :: 0 < k < ENTRIES ==> mem[f][k] == 0x0101_0101
    {
      if f < g.lo || f >= g.hi { return false; }
      mem := mem[f := seq(ENTRIES, _ => 0x0101_0101)];
      mem := mem[f := mem[f][0 := freelist]];
      assert mem[f] == Junk(freelist);
      freelist := f;
      return true;
    }

    /** kfree of a frame in hand. */
    method Give(f: nat, ghost x: set<nat>)
      requires Valid(x) && f in x
      modifies this`mem, this`freelist, this`free
      ensures Valid(x - {f}) && free == [f] + old(free)
      ensures f < |mem| == |old(mem)| && mem == old(mem)[f := mem[f]]
      ensures forall d: nat :: Only(old(M()), M(), d, 0, 0)
    {
      assert PartAt(g, M(), x, f) && PartAt(g, M(), x, HeadOf(free));
      GiveOk(g, M(), x, f, Junk(freelist));
      ghost var m, n := M(), M().(mem := mem[f := Junk(freelist)], free := [f] + free);
      forall d: nat ensures Only(m, n, d, 0, 0) { HandOnly(g, m, x, f, Junk(freelist), n.free, d); }
      var ok := Kfree(f);
      free := [f] + free;
    }

    /** freerange over the frames that lie wholly in [vstart, vend). */
    method Freerange(vstart: nat, vend: nat, ghost x: set<nat>)
      requires Valid(x) && forall f: nat :: Within(f, vstart, vend) ==> f in x
      modifies this`mem, this`freelist, this`free
      ensures owner == old(owner) && Valid(set f | f in x && !Within(f, vstart, vend))
    {
      var p := PageRoundUp(vstart);
      ghost var y := x;
      while p + PGSIZE <= vend
        invariant p % PGSIZE == 0 && vstart <= p && owner == old(owner) && Valid(y)
        invariant forall f :: f in y <==> f in x && !(vstart <= f * PGSIZE < p)
        invariant p < vstart + PGSIZE || p <= vend
      {
        assert Within(p / PGSIZE, vstart, vend);
        Give(p / PGSIZE, y);
        y := y - {p / PGSIZE};
        p := p + PGSIZE;
      }
      assert y == set f | f in x && !Within(f, vstart, vend);
    }

    /** A frame from kalloc, filled with s; 0 if there is none. */
    method TakeFilled(s: Frame, ghost x: set<nat>) returns (f: nat)
      requires Valid(x)
      modifies this`mem, this`freelist, this`free
      ensures 0 !in x && forall c: nat :: Only(old(M()), M(), c, 0, 0)
      ensures f == 0 <==> old(free) == []
      ensures f == 0 ==> M() == old(M()) && Valid(x)
      ensures f != 0 ==>
                && Valid(x + {f}) && f !in x && f !in owner && f < |mem| && f < PAGES
                && mem == old(mem)[f := s] && |free| == |old(free)| - 1
    {
      ghost var m := M();
      assert PartAt(g, m, x, 0);
      f := Kalloc(x);
      ghost var u, y := M(), x + {f};
      if f == 0 {
        forall c: nat ensures Only(m, u, c, 0, 0) { OnlySelf(m, c, 0, 0); }
        return;
      }
      ScribbleOk(g, u, y, f, s);
      mem := mem[f := s];
      ghost var v := M();
      forall c: nat ensures Only(m, v, c, 0, 0) {
        FreeOnly(m, u, c);
        HandOnly(g, u, y, f, s, free, c);
        OnlyTrans(m, u, v, c, 0, 0);
      }
    }

    // -------------------------------------------------------------- page tables

    /** A new, zeroed page table for entry i of d. */
    method NewTable(d: nat, i: nat, ghost x: set<nat>) returns (t: nat)
      requires Valid(x) && IsDir(M(), d) && i < ENTRIES && !Present(mem[d][i])
      modifies this
      ensures Valid(x) && IsDir(M(), d) && Only(old(M()), M(), d, 0, 0)
      ensures SameHand(x, old(mem), mem)
      ensures t == 0 <==> old(free) == []
      ensures t == 0 ==> M() == old(M())
      ensures DirGrows(old(mem), mem, d, i)
      ensures t != 0 ==>
                && |free| == |old(free)| - 1 && owner == old(owner)[t := Table(d, i)]
                && t < PAGES && mem[d][i] == Pte(t, 7)
    {
      assert mem[d] == mem[d][i := mem[d][i]];
      t := TakeFilled(Blank(), x);
      ghost var u, y := M(), x + {t};
      assert Only(old(M()), u, d, 0, 0);
      if t == 0 { return; }
      assert PartAt(g, u, y, d);
      TableOk(g, u, y, d, i, t);
      TableOnly(g, u, y, d, i, t);
      mem := mem[d := mem[d][i := t * PGSIZE + 7]];
      owner := owner[t := Table(d, i)];
      OnlyTrans(old(M()), u, M(), d, 0, 0);
      assert y - {t} == x;
    }

    /** walkpgdir: the page table holding va's entry, 0 if there is none. */
    method Walkpgdir(d: nat, va: nat, alloc: bool, ghost x: set<nat>) returns (t: nat)
      requires Valid(x) && IsDir(M(), d) && va < 0x1_0000_0000
      modifies this
      ensures Valid(x) && IsDir(M(), d) && Only(old(M()), M(), d, 0, 0)
      ensures t == TableOf(mem, d, va / PGSIZE) && t < |mem| && SameHand(x, old(mem), mem)
      ensures !alloc || old(TableOf(mem, d, va / PGSIZE)) != 0 ==> M() == old(M())
      ensures alloc ==> (t == 0 <==> old(TableOf(mem, d, va / PGSIZE)) == 0 && old(free) == [])
      ensures t == 0 ==> M() == old(M())
      ensures DirGrows(old(mem), mem, d, va / PGSIZE / ENTRIES)
      ensures |free| == |old(free)| - (if t != old(TableOf(mem, d, va / PGSIZE)) then 1 else 0)
    {
      AddressParts(va);
      TableOwned(g, M(), x, d, va / PGSIZE);
      OnlySelf(M(), d, 0, 0);
      assert mem[d] == mem[d][PDX(va) := mem[d][PDX(va)]];
      var pde := mem[d][PDX(va)];
      if Present(pde) {
        t := FrameOf(pde);
      } else if !alloc {
        t := 0;
      } else {
        t := NewTable(d, PDX(va), x);
        if t != 0 { PteParts(t, 7); }
        TableOwned(g, M(), x, d, va / PGSIZE);
      }
    }

    /** One turn of mappages' loop: false if there is no frame for a page table. */
    method MapPage(d: nat, va: nat, f: nat, perm: nat, ghost x: set<nat>) returns (ok: bool)
      requires Valid(x) && IsDir(M(), d) && va < 0x1_0000_0000 && f < PAGES && perm < PGSIZE
      requires !Present(Lookup(mem, d, va / PGSIZE)) && (va < KERNBASE ==> f in x)
      modifies this
      ensures IsDir(M(), d) && SameHand(x, old(mem), mem)
      ensures ok <==> old(TableOf(mem, d, va / PGSIZE)) != 0 || old(free) != []
      ensures !ok ==> M() == old(M()) && Valid(x)
      ensures ok ==> Valid(if va < KERNBASE then x - {f} else x) && Only(old(M()), M(), d, va / PGSIZE, va / PGSIZE + 1)
      ensures ok ==> MapsTo(mem, d, va / PGSIZE, va / PGSIZE, f, perm)
      ensures ok ==>
                && DirGrows(old(mem), mem, d, va / PGSIZE / ENTRIES) && Present(mem[d][va / PGSIZE / ENTRIES])
                && |free| == |old(free)| - (if old(Present(mem[d][va / PGSIZE / ENTRIES])) then 0 else 1)
    {
      ghost var p := va / PGSIZE;
      AddressParts(va);
      ghost var m := M();
      TableOwned(g, m, x, d, p);
      var t := Walkpgdir(d, va, true, x);
      if t == 0 { return false; }
      ghost var u := M();
      assert EntryKept(m, u, d, 0, 0, d, p);
      TableOwned(g, u, x, d, p);
      assert PartAt(g, u, x, t);
      var w := Pte(f, OrPresent(perm));
      PteParts(f, OrPresent(perm));
      mem := mem[t := mem[t][PTX(va) := w]];
      if va < KERNBASE { owner := owner[f := User(d, p)]; }
      MappedOk(g, u, x, d, p, f, w, M());
      OnlyWider(m, u, d, 0, 0, p, p + 1);
      OnlyTrans(m, u, M(), d, p, p + 1);
      return true;
    }

    /** mappages: -1 (false) if a page table could not be had. User pages are mapped one at a time. */
    method Mappages(d: nat, va: nat, size: nat, pa: nat, perm: nat, ghost x: set<nat>) returns (ok: bool)
      requires Valid(x) && IsDir(M(), d) && size > 0 && va + size <= 0x1_0000_0000 && perm < PGSIZE
      requires pa + Last(va, size) - va / PGSIZE < PAGES
      requires va >= KERNBASE || (Last(va, size) == va / PGSIZE && pa in x)
      requires forall q :: va / PGSIZE <= q <= Last(va, size) ==> !Present(Lookup(mem, d, q))
      requires NoPdes(mem, d, va / PGSIZE / ENTRIES + 1, Last(va, size) / ENTRIES)
      modifies this
      ensures IsDir(M(), d) && SameHand(x, old(mem), mem)
      ensures Only(old(M()), M(), d, va / PGSIZE, Last(va, size) + 1)
      ensures ok ==> Valid(if va < KERNBASE then x - {pa} else x)
      ensures ok ==> forall q :: va / PGSIZE <= q <= Last(va, size) ==> MapsTo(mem, d, va / PGSIZE, q, pa, perm)
      ensures !ok ==> Valid(x) && (va < KERNBASE ==> M() == old(M()))
      ensures ok <==> |old(free)| >= Tables(old(mem), d, va / PGSIZE, Last(va, size) + 1)
      ensures ok ==> |free| == |old(free)| - Tables(old(mem), d, va / PGSIZE, Last(va, size) + 1)
      ensures ok ==> Pdes(old(mem), mem, d, va / PGSIZE, Last(va, size) + 1)
    {
      ghost var m, lo, hi := M(), va / PGSIZE, Last(va, size) + 1;
      var a, f, last := va / PGSIZE * PGSIZE, pa, Last(va, size) * PGSIZE;
      MappingNone(m, d, lo, hi, pa, perm);
      while true
        invariant a % PGSIZE == 0 && lo <= a / PGSIZE < hi && f == pa + a / PGSIZE - lo
        invariant va < KERNBASE ==> a / PGSIZE == lo && M() == m
        invariant Valid(x) && IsDir(M(), d) && SameHand(x, m.mem, mem)
        invariant Mapping(m, M(), d, lo, a / PGSIZE, hi, pa, perm)
        decreases last - a
      {
        ok := MapNext(d, a, f, perm, m, lo, hi, pa, x);
        if !ok { return; }
        if a == last { break; }
        a, f := a + PGSIZE, f + 1;
      }
    }

    /** One turn of mappages' loop, as a step from what has been mapped so far. */
    method MapNext(d: nat, a: nat, f: nat, perm: nat, ghost m: Mach, ghost lo: nat, ghost hi: nat, ghost pa: nat,
                   ghost x: set<nat>) returns (ok: bool)
      requires Valid(x) && IsDir(M(), d) && a < 0x1_0000_0000 && f < PAGES && perm < PGSIZE && (a < KERNBASE ==> f in x)
      requires lo <= a / PGSIZE < hi <= PAGES && f == pa + a / PGSIZE - lo && SameHand(x, m.mem, mem)
      requires Mapping(m, M(), d, lo, a / PGSIZE, hi, pa, perm)
      requires NoPdes(m.mem, d, lo / ENTRIES + 1, (hi - 1) / ENTRIES)
      modifies this
      ensures IsDir(M(), d) && SameHand(x, m.mem, mem)
      ensures !ok ==> Valid(x) && M() == old(M()) && |m.free| < Tables(m.mem, d, lo, hi)
      ensures ok ==> Valid(if a < KERNBASE then x - {f} else x) && Mapping(m, M(), d, lo, a / PGSIZE + 1, hi, pa, perm)
      ensures ok ==> Tables(m.mem, d, lo, a / PGSIZE + 1) <= |m.free|
    {
      ghost var u, p := M(), a / PGSIZE;
      PdeStep(m.mem, mem, d, lo, p, hi);
      TableOwned(g, u, x, d, p);
      ok := MapPage(d, a, f, perm, x);
      if !ok { return; }
      PdeNext(m.mem, u.mem, mem, d, lo, p);
      MappedMore(m, u, M(), d, lo, p, hi, pa, perm);
    }

    // -------------------------------------------------------------- shrinking

    /** Free the frame of a mapped user page and clear its entry. */
    method FreePage(d: nat, va: nat, t: nat, ghost x: set<nat>)
      requires Valid(x) && IsDir(M(), d) && va < KERNBASE && 0 < t == TableOf(mem, d, va / PGSIZE) < |mem|
      requires Present(Lookup(mem, d, va / PGSIZE))
      modifies this
      ensures Valid(x) && IsDir(M(), d) && SameHand(x, old(mem), mem)
      ensures Only(old(M()), M(), d, va / PGSIZE, va / PGSIZE + 1)
      ensures owner == old(owner) - {FrameOf(old(Lookup(mem, d, va / PGSIZE)))} && Lookup(mem, d, va / PGSIZE) == 0
    {
      ghost var m, p := M(), va / PGSIZE;
      AddressParts(va);
      var f := FrameOf(mem[t][PTX(va)]);
      UnmapOk(g, m, x, d, p, f);
      assert PartAt(g, m, x, HeadOf(free));
      var ok := Kfree(f);
      mem := mem[t := mem[t][PTX(va) := 0]];
      owner := owner - {f};
      free := [f] + free;
      assert mem == WithEntry(m.mem, d, p, 0)[f := Junk(old(freelist))];
      FreedOk(g, m, x, d, p, f, M());
    }

    /** One turn of deallocuvm's loop at address a: one page, or all that a missing page table would cover. */
    method DropStep(d: nat, a: nat, ghost x: set<nat>) returns (next: nat)
      requires Valid(x) && IsDir(M(), d) && a % PGSIZE == 0 && a < KERNBASE
      modifies this
      ensures Valid(x) && IsDir(M(), d) && SameHand(x, old(mem), mem)
      ensures next % PGSIZE == 0 && a < next
      ensures Only(old(M()), M(), d, a / PGSIZE, a / PGSIZE + 1)
      ensures Swept(old(M()), M(), d, a / PGSIZE, next / PGSIZE)
    {
      ghost var m, p := M(), a / PGSIZE;
      AddressParts(a);
      var t := Walkpgdir(d, a, false, x);
      OnlySelf(m, d, p, p + 1);
      if t == 0 {
        next := (PDX(a) + 1) * 0x40_0000 - PGSIZE;
        SkipTable(g, m, x, d, a);
      } else {
        next := a;
        TableOwned(g, m, x, d, p);
        if Present(mem[t][PTX(a)]) {
          OneDropped(g, m, x, d, p);
          FreePage(d, a, t, x);
        } else {
          assert MapAt(m, d, p);
          NothingDropped(g, m, x, d, p, p + 1);
        }
        SweptOne(m, M(), d, p);
        assert (a + PGSIZE) / PGSIZE == p + 1;
      }
      next := next + PGSIZE;
    }

    /** deallocuvm: exactly the mapped pages at or above newsz and below oldsz go, and their frames are free again. */
    method Deallocuvm(d: nat, oldsz: nat, newsz: nat, ghost x: set<nat>) returns (sz: nat)
      requires Valid(x) && IsDir(M(), d) && oldsz <= KERNBASE
      modifies this
      ensures Valid(x) && IsDir(M(), d) && SameHand(x, old(mem), mem)
      ensures newsz >= oldsz ==> sz == oldsz && M() == old(M())
      ensures newsz < oldsz ==>
                && sz == newsz && Only(old(M()), M(), d, PagesFor(newsz), PagesFor(oldsz))
                && owner == Dropped(old(owner), d, PagesFor(newsz), PagesFor(oldsz))
                && forall q: nat :: PagesFor(newsz) <= q < PagesFor(oldsz) ==> Lookup(mem, d, q) == 0
    {
      if newsz >= oldsz { return oldsz; }
      ghost var m, lo, hi := M(), PagesFor(newsz), PagesFor(oldsz);
      var a := PageRoundUp(newsz);
      OnlySelf(m, d, lo, hi);
      DroppedMore(owner, d, lo, lo, lo);
      while a < oldsz
        invariant a % PGSIZE == 0 && lo <= a / PGSIZE
        invariant Valid(x) && IsDir(M(), d) && SameHand(x, m.mem, mem) && Only(m, M(), d, lo, hi)
        invariant owner == Dropped(m.owner, d, lo, Min(a / PGSIZE, hi))
        invariant forall q: nat :: lo <= q < Min(a / PGSIZE, hi) ==> Lookup(mem, d, q) == 0
        decreases oldsz - a
      {
        ghost var u, p := M(), a / PGSIZE;
        a := DropStep(d, a, x);
        ghost var r := Min(a / PGSIZE, hi);
        OnlyWider(u, M(), d, p, p + 1, lo, hi);
        OnlyTrans(m, u, M(), d, lo, hi);
        DroppedMore(m.owner, d, lo, p, r);
        ZeroStays(u, M(), d, lo, p);
      }
      return newsz;
    }

    // -------------------------------------------------------------- growing

    /** One turn of allocuvm's loop. Without success f is 0, or a frame still in hand. */
    method GrowPage(d: nat, a: nat, ghost x: set<nat>) returns (ok: bool, f: nat)
      requires Valid(x) && IsDir(M(), d) && a % PGSIZE == 0 && a < KERNBASE && !Present(Lookup(mem, d, a / PGSIZE))
      modifies this
      ensures IsDir(M(), d) && SameHand(x, old(mem), mem)
      ensures ok ==>
                && Valid(x) && Only(old(M()), M(), d, a / PGSIZE, a / PGSIZE + 1)
                && FreshAt(old(M()), M(), d, a / PGSIZE) && Pdes(old(mem), mem, d, a / PGSIZE, a / PGSIZE + 1)
                && |free| == |old(free)| - 1 - (if old(Present(mem[d][a / PGSIZE / ENTRIES])) then 0 else 1)
      ensures !ok ==> Only(old(M()), M(), d, 0, 0) && Valid(if f == 0 then x else x + {f}) && f !in x
      ensures !ok ==> |old(free)| < 1 + (if old(Present(mem[d][a / PGSIZE / ENTRIES])) then 0 else 1)
    {
      ghost var m, p := M(), a / PGSIZE;
      f := TakeFilled(Blank(), x);
      ghost var v, y := M(), x + {f};
      assert Only(m, v, d, 0, 0) && EntryKept(m, v, d, 0, 0, d, p);
      if f == 0 { return false, 0; }
      assert Last(a, PGSIZE) == p;
      ok := Mappages(d, a, PGSIZE, f, PTE_W_U, y);
      if ok {
        assert y - {f} == x;
        OnlyWider(m, v, d, 0, 0, p, p + 1);
        OnlyTrans(m, v, M(), d, p, p + 1);
        assert MapsTo(mem, d, p, p, f, PTE_W_U);
        PteParts(f, 7);
        assert MapAt(M(), d, p);
        PdesFrom(m.mem, v.mem, mem, d, p, p + 1);
      }
    }

    /**
     allocuvm from oldsz to newsz. With ok, exactly the missing pages are there, zeroed, on frames of their own.
     Without, every user page and every user frame is as before: all that may remain is page tables.
     */
    method Allocuvm(d: nat, oldsz: nat, newsz: nat, ghost x: set<nat>) returns (sz: nat, ok: bool)
      requires Valid(x) && IsDir(M(), d)
      requires forall q: nat :: PagesFor(oldsz) <= q < PagesFor(newsz) && q < USERPAGES ==> !Present(Lookup(mem, d, q))
      modifies this
      ensures Valid(x) && IsDir(M(), d)
      ensures newsz >= KERNBASE ==> !ok && M() == old(M())
      ensures newsz < KERNBASE && newsz < oldsz ==> ok && sz == oldsz && M() == old(M())
      ensures oldsz <= newsz < KERNBASE && ok ==>
                && sz == newsz && Only(old(M()), M(), d, PagesFor(oldsz), PagesFor(newsz))
                && forall q: nat :: PagesFor(oldsz) <= q < PagesFor(newsz) ==> FreshAt(old(M()), M(), d, q)
      ensures !ok ==> sz == 0 && Only(old(M()), M(), d, 0, 0)
      ensures oldsz <= newsz < KERNBASE ==>
                (ok <==> |old(free)| >= Growth(old(mem), d, PagesFor(oldsz), PagesFor(newsz)))
    {
      OnlySelf(M(), d, 0, 0);
      if newsz >= KERNBASE { return 0, false; }
      if newsz < oldsz { return oldsz, true; }
      ghost var m, lo, hi := M(), PagesFor(oldsz), PagesFor(newsz);
      GrowingNone(g, m, x, d, lo, hi);
      var a := PageRoundUp(oldsz);
      ghost var p := lo;
      while a < newsz
        invariant a == p * PGSIZE && lo <= p <= hi
        invariant Valid(x) && IsDir(M(), d) && Growing(m, M(), d, lo, p, hi)
      {
        var done, f := GrowNext(d, a, p, m, lo, hi, x);
        if !done {
          Undo(d, newsz, oldsz, f, m, x);
          return 0, false;
        }
        a, p := a + PGSIZE, p + 1;
      }
      return newsz, true;
    }

    /** One turn of allocuvm's loop, as a step from what has been mapped since m. */
    method GrowNext(d: nat, a: nat, ghost p: nat, ghost m: Mach, ghost lo: nat, ghost hi: nat, ghost x: set<nat>)
      returns (ok: bool, f: nat)
      requires Valid(x) && IsDir(M(), d) && a == p * PGSIZE && lo <= p < hi <= USERPAGES
      requires Growing(m, M(), d, lo, p, hi)
      modifies this
      ensures IsDir(M(), d)
      ensures ok ==> Valid(x) && Growing(m, M(), d, lo, p + 1, hi)
      ensures !ok ==>
                && Only(m, M(), d, lo, hi) && Valid(if f == 0 then x else x + {f}) && f !in x
                && |m.free| < Growth(m.mem, d, lo, hi)
    {
      ghost var u := M();
      assert a / PGSIZE == p;
      GrowthStep(m.mem, mem, d, lo, p, hi);
      ok, f := GrowPage(d, a, x);
      if ok {
        FreshMore(m, u, M(), d, lo, p, hi);
        PdesMore(m.mem, u.mem, mem, d, lo, p);
      } else {
        OnlyWider(u, M(), d, 0, 0, lo, hi);
        OnlyTrans(m, u, M(), d, lo, hi);
      }
    }

    /** allocuvm's way out: free what was mapped since m, and the frame that could not be. */
    method Undo(d: nat, newsz: nat, oldsz: nat, f: nat, ghost m: Mach, ghost x: set<nat>)
      requires Valid(if f == 0 then x else x + {f}) && f !in x && IsDir(M(), d) && oldsz <= newsz < KERNBASE
      requires VmOk(g, m, x) && IsDir(m, d) && Only(m, M(), d, PagesFor(oldsz), PagesFor(newsz))
      requires forall q: nat :: PagesFor(oldsz) <= q < PagesFor(newsz) ==> !Present(Lookup(m.mem, d, q))
      modifies this
      ensures Valid(x) && IsDir(M(), d) && Only(m, M(), d, 0, 0)
    {
      ghost var u, lo, hi := M(), PagesFor(oldsz), PagesFor(newsz);
      ghost var y := if f == 0 then x else x + {f};
      OnlySelf(u, d, lo, hi);
      var sz := Deallocuvm(d, newsz, oldsz, y);
      OnlyTrans(m, u, M(), d, lo, hi);
      Undone(g, m, x, M(), y, d, lo, hi);
      ghost var w := M();
      if f != 0 {
        Give(f, y);
        assert y - {f} == x;
        OnlyTrans(m, w, M(), d, 0, 0);
        assert EntryKept(w, M(), d, 0, 0, d, 0);
      }
    }

    // -------------------------------------------------------------- whole address spaces

    /** freevm's loop: free the page tables of the directory in m, which are all in hand. */
    method FreeTables(d: nat, ghost m: Mach, ghost x: set<nat>)
      requires VmOk(g, m, x) && IsDir(m, d) && mem == m.mem && owner == m.owner - FramesOf(m.owner, d)
      requires Valid(x + Rest(m.owner, d, 0)) && x !! Rest(m.owner, d, 0)
      modifies this`mem, this`freelist, this`free
      ensures Valid(x + {d}) && SameHand(x, old(mem), mem) && Only(old(M()), M(), d, 0, 0)
    {
      OnlySelf(M(), d, 0, 0);
      ghost var s := M();
      for i := 0 to ENTRIES
        invariant Valid(x + Rest(m.owner, d, i)) && x !! Rest(m.owner, d, i)
        invariant d < |mem| && mem[d] == m.mem[d] && SameHand(x, s.mem, mem) && Only(s, M(), d, 0, 0)
      {
        RestNext(g, m, x, d, i);
        if Present(mem[d][i]) {
          ghost var u, f := M(), FrameOf(mem[d][i]);
          Give(FrameOf(mem[d][i]), x + Rest(m.owner, d, i));
          assert x + Rest(m.owner, d, i) - {f} == x + Rest(m.owner, d, i + 1);
          OnlyTrans(s, u, M(), d, 0, 0);
        }
      }
      RestDir(g, m, x, d);
    }

    /** freevm: exactly the directory's frames are free again, and nothing else has changed. */
    method Freevm(d: nat, ghost x: set<nat>)
      requires Valid(x) && IsDir(M(), d)
      modifies this
      ensures Valid(x) && SameHand(x, old(mem), mem)
      ensures owner == old(owner) - FramesOf(old(owner), d) && Others(old(M()), M(), d)
    {
      ghost var m := M();
      var sz := Deallocuvm(d, KERNBASE, 0, x);
      ghost var n := M();
      OnlyOthers(m, n, d, 0, USERPAGES);
      NoUsers(g, m, x, d);
      RestAll(n.owner, d);
      ReleaseOk(g, n, x, d);
      forall f | f in Rest(n.owner, d, 0) ensures f !in x { assert PartAt(g, n, x, f); }
      owner := owner - FramesOf(owner, d);
      ghost var r := M();
      OwnerOthers(n, r, d);
      FreeTables(d, n, x);
      ghost var s := M();
      assert d !in x by { assert PartAt(g, n, x, d); }
      Give(d, x + {d});
      assert x + {d} - {d} == x;
      OnlyTrans(r, s, M(), d, 0, 0);
      OnlyOthers(r, M(), d, 0, 0);
      OthersTrans(m, n, r, d);
      OthersTrans(m, r, M(), d);
      assert owner == m.owner - FramesOf(m.owner, d);
    }

    /** A zeroed page directory; 0 if there is no frame. */
    method NewDir(ghost x: set<nat>) returns (d: nat)
      requires Valid(x)
      modifies this
      ensures Valid(x)
      ensures d == 0 <==> old(free) == []
      ensures d == 0 ==> M() == old(M())
      ensures d != 0 ==>
                && IsDir(M(), d) && d !in old(owner) && mem[d] == Blank() && Others(old(M()), M(), d)
                && |free| == |old(free)| - 1 && forall q: nat :: Lookup(mem, d, q) == 0
    {
      ghost var m := M();
      d := TakeFilled(Blank(), x);
      if d == 0 { return; }
      ghost var v, y := M(), x + {d};
      OnlyOthers(m, v, d, 0, 0);
      DirOk(g, v, y, d);
      owner := owner[d := Dir];
      OwnerOthers(v, M(), d);
      OthersTrans(m, v, M(), d);
      assert y - {d} == x;
    }

    /** One turn of setupkvm's loop. */
    method MapRegion(d: nat, data: nat, k: nat, ghost x: set<nat>) returns (ok: bool)
      requires Valid(x) && IsDir(M(), d) && DataOk(data) && k < 4 && KernelTo(mem, d, data, k)
      modifies this
      ensures Valid(x) && IsDir(M(), d) && Only(old(M()), M(), d, USERPAGES, PAGES)
      ensures ok <==> |old(free)| >= TablesTo(data, k + 1) - TablesTo(data, k)
      ensures ok ==> KernelTo(mem, d, data, k + 1)
      ensures ok ==> |free| == |old(free)| - (TablesTo(data, k + 1) - TablesTo(data, k))
    {
      var r := Kmap(data)[k];
      ghost var m, lo, hi := M(), r.va / PGSIZE, Last(r.va, r.size) + 1;
      RegionFits(mem, d, data, k);
      ok := Mappages(d, r.va, r.size, r.pa, r.perm, x);
      if ok { KernelNext(m, M(), d, data, k); }
      OnlyWider(m, M(), d, lo, hi, USERPAGES, PAGES);
    }

    /** setupkvm: a directory with the kernel's mappings and no user pages; 0 if there are not 65 free frames. */
    method Setupkvm(data: nat, ghost x: set<nat>) returns (d: nat)
      requires Valid(x) && DataOk(data)
      modifies this
      ensures Valid(x)
      ensures d == 0 <==> |old(free)| < KFRAMES
      ensures d == 0 ==> owner == old(owner) && Others(old(M()), M(), 0)
      ensures d != 0 ==>
                && IsDir(M(), d) && d !in old(owner) && Others(old(M()), M(), d)
                && KernelTo(mem, d, data, 4) && |free| == |old(free)| - KFRAMES
      ensures d != 0 ==> forall q: nat :: Lookup(mem, d, q) == KernelEntry(data, q)
    {
      ghost var m := M();
      d := NewDir(x);
      if d == 0 {
        assert PartAt(g, m, x, 0);
        OnlySelf(m, 0, 0, 0);
        OnlyOthers(m, m, 0, 0, 0);
        return;
      }
      KernelNone(mem, d, data);
      for k := 0 to 4
        invariant Valid(x) && IsDir(M(), d) && Others(m, M(), d) && KernelTo(mem, d, data, k)
        invariant |free| == |m.free| - 1 - TablesTo(data, k)
      {
        ghost var u := M();
        TablesGrow(data, k);
        var ok := MapRegion(d, data, k, x);
        OnlyOthers(u, M(), d, USERPAGES, PAGES);
        OthersTrans(m, u, M(), d);
        if !ok {
          u := M();
          Freevm(d, x);
          OthersTrans(m, u, M(), d);
          OthersNone(g, m, x, M(), d);
          return 0;
        }
      }
      forall q: nat ensures Lookup(mem, d, q) == KernelEntry(data, q) { KernelEntries(mem, d, data, q); }
    }

    /** The entry of a page that is mapped. */
    method ReadEntry(d: nat, a: nat, ghost x: set<nat>) returns (pte: Word)
      requires Valid(x) && IsDir(M(), d) && a < KERNBASE && Present(Lookup(mem, d, a / PGSIZE))
      modifies this
      ensures M() == old(M()) && freelist == old(freelist) && pte == Lookup(mem, d, a / PGSIZE)
      ensures FrameOf(pte) < |mem| && FrameOf(pte) in owner && g.Has(FrameOf(pte))
    {
      AddressParts(a);
      TableOwned(g, M(), x, d, a / PGSIZE);
      assert MapAt(M(), d, a / PGSIZE);
      var t := Walkpgdir(d, a, false, x);
      pte := mem[t][PTX(a)];
      assert PartAt(g, M(), x, FrameOf(pte));
    }

    /** One turn of copyuvm's loop. Without success f is 0, or a frame that is mapped nowhere. */
    method CopyPage(d: nat, c: nat, a: nat, ghost x: set<nat>) returns (ok: bool, f: nat)
      requires Valid(x) && IsDir(M(), d) && IsDir(M(), c) && d != c && a % PGSIZE == 0 && a < KERNBASE
      requires Present(Lookup(mem, d, a / PGSIZE)) && !Present(Lookup(mem, c, a / PGSIZE))
      modifies this
      ensures IsDir(M(), d) && IsDir(M(), c)
      ensures ok ==>
                && Valid(x) && Only(old(M()), M(), c, a / PGSIZE, a / PGSIZE + 1) && CopiedAt(M(), d, c, a / PGSIZE)
                && Pdes(old(mem), mem, c, a / PGSIZE, a / PGSIZE + 1)
                && |free| == |old(free)| - 1 - (if old(Present(mem[c][a / PGSIZE / ENTRIES])) then 0 else 1)
      ensures !ok ==> Only(old(M()), M(), c, 0, 0) && Valid(if f == 0 then x else x + {f}) && f !in x
      ensures !ok && f == 0 ==> old(free) == []
      ensures !ok && f != 0 ==> |old(free)| == 1 && !old(Present(mem[c][a / PGSIZE / ENTRIES]))
    {
      ghost var m, p := M(), a / PGSIZE;
      var pte := ReadEntry(d, a, x);
      f := TakeFilled(mem[FrameOf(pte)], x);
      ghost var v, y := M(), x + {f};
      assert Only(m, v, c, 0, 0) && EntryKept(m, v, c, 0, 0, c, p) && EntryKept(m, v, c, 0, 0, d, p);
      if f == 0 { return false, 0; }
      ok := MapCopy(c, a, f, Flags(pte), y);
      if ok {
        assert y - {f} == x;
        CopyDone(g, m, x, v, M(), d, c, p, f);
        PdesFrom(m.mem, v.mem, mem, c, p, p + 1);
      }
    }

    /** mappages of one page, as copyuvm calls it. */
    method MapCopy(c: nat, a: nat, f: nat, flags: nat, ghost y: set<nat>) returns (ok: bool)
      requires Valid(y) && IsDir(M(), c) && a % PGSIZE == 0 && a < KERNBASE && f in y
      requires flags < PGSIZE && flags % 2 == 1
      requires !Present(Lookup(mem, c, a / PGSIZE))
      modifies this
      ensures IsDir(M(), c) && SameHand(y, old(mem), mem)
      ensures ok <==> old(Present(mem[c][a / PGSIZE / ENTRIES])) || old(free) != []
      ensures !ok ==> M() == old(M()) && Valid(y)
      ensures ok ==>
                && Valid(y - {f}) && Only(old(M()), M(), c, a / PGSIZE, a / PGSIZE + 1)
                && f < PAGES && Lookup(mem, c, a / PGSIZE) == Pte(f, flags)
                && Pdes(old(mem), mem, c, a / PGSIZE, a / PGSIZE + 1)
                && |free| == |old(free)| - (if old(Present(mem[c][a / PGSIZE / ENTRIES])) then 0 else 1)
    {
      assert PartAt(g, M(), y, f);
      assert Last(a, PGSIZE) == a / PGSIZE;
      ok := Mappages(c, a, PGSIZE, f, flags, y);
      if ok { assert MapsTo(mem, c, a / PGSIZE, a / PGSIZE, f, flags); }
    }

    /**
     copyuvm of the first sz bytes of d. The copy c has the same bytes and flags at every page on frames of its own;
     if there is none (0), no frame in use has changed, and all but the frame lost are free as before.
     */
    method Copyuvm(d: nat, sz: nat, data: nat, ghost x: set<nat>) returns (c: nat, ghost lost: nat)
      requires Valid(x) && IsDir(M(), d) && DataOk(data) && sz <= KERNBASE
      requires forall q: nat :: q < PagesFor(sz) ==> Present(Lookup(mem, d, q))
      modifies this
      ensures c != 0 <==> |old(free)| >= KFRAMES + Cost(PagesFor(sz))
      ensures c != 0 ==>
                && Valid(x) && IsDir(M(), c) && c !in old(owner) && Others(old(M()), M(), c)
                && KernelMapped(mem, c, data)
                && (forall q: nat :: q < PagesFor(sz) ==> CopiedAt(M(), d, c, q))
                && (forall q: nat :: PagesFor(sz) <= q < USERPAGES ==> Lookup(mem, c, q) == 0)
      ensures c == 0 ==> owner == old(owner) && Others(old(M()), M(), 0)
      ensures c == 0 ==> Valid(if lost == 0 then x else x + {lost}) && lost !in x
      ensures lost != 0 <==> Leaks(|old(free)|, PagesFor(sz))
    {
      ghost var m, n := M(), PagesFor(sz);
      lost := 0;
      assert PartAt(g, m, x, 0) && PartAt(g, m, x, d);
      CostGrows(0, n);
      c := Setupkvm(data, x);
      if c == 0 { return; }
      CopyStart(g, m, x, M(), d, c, data);
      var a := 0;
      while a < sz
        invariant a % PGSIZE == 0 && a / PGSIZE <= n
        invariant Valid(x) && Copying(m, M(), d, c, data, a / PGSIZE)
        invariant |free| == |m.free| - KFRAMES - Cost(a / PGSIZE)
      {
        var ok, f := CopyNext(d, c, data, a, m, n, x);
        if !ok {
          lost := f;
          DropCopy(c, f, m, x);
          return 0, lost;
        }
        a := a + PGSIZE;
      }
    }

    /** One turn of copyuvm's loop, after a bytes have been copied since m. */
    method CopyNext(d: nat, c: nat, data: nat, a: nat, ghost m: Mach, ghost n: nat, ghost x: set<nat>)
      returns (ok: bool, f: nat)
      requires Valid(x) && VmOk(g, m, x) && IsDir(m, d) && DataOk(data) && a % PGSIZE == 0 && a < KERNBASE
      requires Copying(m, M(), d, c, data, a / PGSIZE) && |free| == |m.free| - KFRAMES - Cost(a / PGSIZE)
      requires a / PGSIZE < n <= USERPAGES && forall q: nat :: q < n ==> Present(Lookup(m.mem, d, q))
      modifies this
      ensures ok ==>
                && Valid(x) && Copying(m, M(), d, c, data, a / PGSIZE + 1)
                && |free| == |m.free| - KFRAMES - Cost(a / PGSIZE + 1)
      ensures !ok ==> IsDir(M(), c) && Others(m, M(), c) && Valid(if f == 0 then x else x + {f}) && f !in x
      ensures !ok ==> |m.free| - KFRAMES < Cost(n) && (f != 0 <==> (|m.free| - KFRAMES) % (ENTRIES + 1) == 1)
      ensures !ok && f != 0 ==> |m.free| > KFRAMES
    {
      ghost var p, u := a / PGSIZE, M();
      CopyReady(g, m, x, u, d, c, data, p, n);
      CostStep(p);
      CostGrows(p + 1, n);
      ok, f := CopyPage(d, c, a, x);
      if ok {
        CopyMore(g, m, x, u, M(), d, c, data, p);
      } else {
        OnlyOthers(u, M(), c, 0, 0);
        OthersTrans(m, u, M(), c);
      }
    }

    /** copyuvm's way out. */
    method DropCopy(c: nat, f: nat, ghost m: Mach, ghost x: set<nat>)
      requires Valid(if f == 0 then x else x + {f}) && IsDir(M(), c)
      requires VmOk(g, m, x) && c !in m.owner && Others(m, M(), c)
      modifies this
      ensures Valid(if f == 0 then x else x + {f}) && owner == m.owner && Others(m, M(), 0)
    {
      ghost var u := M();
      Freevm(c, if f == 0 then x else x + {f});
      OthersTrans(m, u, M(), c);
      OthersNone(g, m, x, M(), c);
    }
  }
}