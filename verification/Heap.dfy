/**
 The Kernighan & Ritchie allocator of umalloc.c. Addresses count units of one
 Header; ptr and size are the two header fields at each address.
 */
module Heap {
  /** The i-th block points to the next one, the last back to &base. */
  ghost predicate LinkAt(base: nat, ptr: map<nat, nat>, free: seq<nat>, i: nat) {
    i < |free| ==> free[i] in ptr && ptr[free[i]] == if i + 1 < |free| then free[i + 1] else base
  }

  ghost predicate SizeAt(size: map<nat, nat>, free: seq<nat>, i: nat) {
    i < |free| ==> free[i] in size && (i >= 1 ==> size[free[i]] >= 1)
  }

  /** The i-th block ends before the j-th starts, if i < j. */
  ghost predicate Before(size: map<nat, nat>, free: seq<nat>, i: nat, j: nat) {
    i < j < |free| ==> free[i] in size && free[i] < free[j] && free[i] + size[free[i]] <= free[j]
  }

  /** The i-th block does not touch the next one. */
  ghost predicate ApartAt(size: map<nat, nat>, free: seq<nat>, i: nat) {
    i + 1 < |free| ==> free[i] in size && free[i] + size[free[i]] < free[i + 1]
  }

  /** free is circular through ptr, with one wrap. */
  ghost predicate Chained(base: nat, ptr: map<nat, nat>, free: seq<nat>) {
    |free| >= 1 && free[0] == base && forall i: nat :: LinkAt(base, ptr, free, i)
  }

  /** free is in address order from &base, whose size is 0, and its blocks are disjoint. */
  ghost predicate Ordered(base: nat, size: map<nat, nat>, free: seq<nat>) {
    && |free| >= 1 && free[0] == base && base > 0 && base in size && size[base] == 0
    && (forall i: nat :: SizeAt(size, free, i))
    && (forall i: nat, j: nat :: Before(size, free, i, j))
  }

  /** Neighbours in the list do not touch, except possibly after the blocks numbered in t. */
  ghost predicate Apart(size: map<nat, nat>, free: seq<nat>, t: set<nat>) {
    forall i: nat :: i in t || ApartAt(size, free, i)
  }

  /** All blocks, free and live. */
  ghost function Blocks(base: nat, free: seq<nat>, live: map<nat, nat>): set<nat> {
    (set a | a in free && a != base) + live.Keys
  }

  /** Unit u, if ours, lies in the block that owns it. */
  ghost predicate UnitOk(blocks: set<nat>, size: map<nat, nat>, owner: map<nat, nat>, u: nat) {
    u in owner ==> owner[u] in blocks && owner[u] in size && owner[u] <= u < owner[u] + size[owner[u]]
  }

  /** Block a owns unit u if it contains it. */
  ghost predicate CoverOk(blocks: set<nat>, size: map<nat, nat>, owner: map<nat, nat>, a: nat, u: nat) {
    a in blocks && a in size && a <= u < a + size[a] ==> u in owner && owner[u] == a
  }

  /**
   owner maps every unit obtained from sbrk to the one block that contains it: the
   blocks tile that memory without gaps or overlaps.
   */
  ghost predicate Tiles(base: nat, blocks: set<nat>, size: map<nat, nat>, owner: map<nat, nat>) {
    && (forall a :: a in blocks ==> a > base && a in size && size[a] >= 1)
    && (forall u: nat :: UnitOk(blocks, size, owner, u))
    && (forall a: nat, u: nat :: CoverOk(blocks, size, owner, a, u))
  }

  ghost predicate LiveOk(size: map<nat, nat>, free: seq<nat>, live: map<nat, nat>) {
    forall a :: a in live ==> a !in free && a in size && size[a] == live[a]
  }

  /** The whole heap is in order, except that free neighbours may touch after the blocks numbered in t. */
  ghost predicate HeapOkBut(base: nat, ptr: map<nat, nat>, size: map<nat, nat>, free: seq<nat>,
                            live: map<nat, nat>, owner: map<nat, nat>, t: set<nat>) {
    && Chained(base, ptr, free) && Ordered(base, size, free) && Apart(size, free, t)
    && LiveOk(size, free, live)
    && Tiles(base, Blocks(base, free, live), size, owner)
  }

  ghost predicate HeapOk(base: nat, ptr: map<nat, nat>, size: map<nat, nat>, free: seq<nat>,
                         live: map<nat, nat>, owner: map<nat, nat>) {
    HeapOkBut(base, ptr, size, free, live, owner, {})
  }

  /** Hence no two blocks overlap. */
  lemma BlocksDisjoint(base: nat, blocks: set<nat>, size: map<nat, nat>, owner: map<nat, nat>, a: nat, b: nat)
    requires Tiles(base, blocks, size, owner) && a in blocks && b in blocks && a < b
    ensures a + size[a] <= b
  {
    assert CoverOk(blocks, size, owner, a, b) && CoverOk(blocks, size, owner, b, b);
  }

  /** Units lo..hi change hands to block a. */
  function Reassign(owner: map<nat, nat>, lo: nat, hi: nat, a: nat): map<nat, nat> {
    map u | u in owner :: if lo <= u < hi then a else owner[u]
  }

  /** Two touching blocks become one. */
  lemma TilesMerge(base: nat, blocks: set<nat>, size: map<nat, nat>, owner: map<nat, nat>, p: nat, q: nat)
    requires Tiles(base, blocks, size, owner) && p in blocks && q in blocks && p + size[p] == q
    ensures Tiles(base, blocks - {q}, size[p := size[p] + size[q]], Reassign(owner, q, q + size[q], p))
  {
    var bs, s, o := blocks - {q}, size[p := size[p] + size[q]], Reassign(owner, q, q + size[q], p);
    forall u: nat
      ensures UnitOk(bs, s, o, u)
    {
      assert UnitOk(blocks, size, owner, u);
    }
    forall a: nat, u: nat
      ensures CoverOk(bs, s, o, a, u)
    {
      assert CoverOk(blocks, size, owner, a, u) && CoverOk(blocks, size, owner, q, u);
    }
  }

  /** A block gives up its last n units as a new block. */
  lemma TilesSplit(base: nat, blocks: set<nat>, size: map<nat, nat>, owner: map<nat, nat>, p: nat, n: nat)
    requires Tiles(base, blocks, size, owner) && p in blocks && 1 <= n < size[p]
    ensures var q := p + size[p] - n;
            && q !in blocks
            && Tiles(base, blocks + {q}, size[p := size[p] - n][q := n], Reassign(owner, q, q + n, q))
  {
    var q := p + size[p] - n;
    var bs, s, o := blocks + {q}, size[p := size[p] - n][q := n], Reassign(owner, q, q + n, q);
    assert CoverOk(blocks, size, owner, p, q) && CoverOk(blocks, size, owner, q, q);
    forall u: nat
      ensures UnitOk(bs, s, o, u)
    {
      assert UnitOk(blocks, size, owner, u);
    }
    forall a: nat, u: nat
      ensures CoverOk(bs, s, o, a, u)
    {
      assert CoverOk(blocks, size, owner, a, u) && CoverOk(blocks, size, owner, p, u);
    }
  }

  function Units(p: nat, n: nat): (r: set<nat>)
    ensures forall u: nat :: u in r <==> p <= u < p + n
  {
    if n == 0 then {} else Units(p, n - 1) + {p + n - 1}
  }

  function Granted(p: nat, n: nat): map<nat, nat> {
    map u | u in Units(p, n) :: p
  }

  lemma GrantedUnits(owner: map<nat, nat>, p: nat, n: nat)
    requires forall u :: u in owner ==> u < p
    ensures (owner + Granted(p, n)).Keys == owner.Keys + Units(p, n)
    ensures forall u :: u in owner + Granted(p, n) ==> u < p + n
  {
  }

  /** Fresh memory from sbrk becomes one block. */
  lemma TilesGrow(base: nat, blocks: set<nat>, size: map<nat, nat>, owner: map<nat, nat>, p: nat, n: nat)
    requires Tiles(base, blocks, size, owner) && p > base && n >= 1
    requires forall u :: p <= u < p + n ==> u !in owner
    ensures p !in blocks
    ensures Tiles(base, blocks + {p}, size[p := n], owner + Granted(p, n))
  {
    var bs, s, o := blocks + {p}, size[p := n], owner + Granted(p, n);
    assert CoverOk(blocks, size, owner, p, p);
    forall u: nat
      ensures UnitOk(bs, s, o, u)
    {
      assert UnitOk(blocks, size, owner, u);
    }
    forall a: nat, u: nat
      ensures CoverOk(bs, s, o, a, u)
    {
      assert CoverOk(blocks, size, owner, a, u);
    }
  }

  // ---------------------------------------------------------------- giving a block back

  /** bp belongs right after the j-th free block. */
  predicate Between(free: seq<nat>, j: nat, bp: nat) {
    j < |free| && free[j] < bp && (j + 1 < |free| ==> bp < free[j + 1])
  }

  /** What the tiling says about a live block and its free neighbours. */
  lemma Neighbours(base: nat, ptr: map<nat, nat>, size: map<nat, nat>, free: seq<nat>,
                   live: map<nat, nat>, owner: map<nat, nat>, j: nat, bp: nat)
    requires HeapOk(base, ptr, size, free, live, owner) && bp in live && Between(free, j, bp)
    ensures bp in size && size[bp] >= 1 && bp > base
    ensures free[j] in size && free[j] + size[free[j]] <= bp
    ensures j + 1 < |free| ==> bp + size[bp] <= free[j + 1]
  {
    var bs := Blocks(base, free, live);
    assert bp in bs;
    assert SizeAt(size, free, j) && Before(size, free, 0, j) && Before(size, free, 0, j + 1);
    if j > 0 {
      assert free[j] in bs;
      BlocksDisjoint(base, bs, size, owner, free[j], bp);
    }
    if j + 1 < |free| {
      assert free[j + 1] in bs;
      BlocksDisjoint(base, bs, size, owner, bp, free[j + 1]);
    }
  }

  lemma ListDistinct(base: nat, size: map<nat, nat>, free: seq<nat>, i: nat, j: nat)
    requires Ordered(base, size, free) && i < |free| && j < |free| && i != j
    ensures free[i] != free[j]
  {
    assert Before(size, free, i, j) && Before(size, free, j, i);
  }

  lemma NotListed(base: nat, size: map<nat, nat>, free: seq<nat>, j: nat, bp: nat, i: nat)
    requires Ordered(base, size, free) && Between(free, j, bp) && i < |free|
    ensures free[i] != bp
  {
    assert Before(size, free, i, j) && Before(size, free, j + 1, i);
  }

  function Inserted(free: seq<nat>, j: nat, bp: nat): seq<nat>
    requires j < |free|
  {
    free[..j + 1] + [bp] + free[j + 1..]
  }

  /** Where the i-th block of the longer list comes from. */
  lemma InsertedAt(free: seq<nat>, j: nat, bp: nat, i: nat)
    requires j < |free| && i <= |free|
    ensures |Inserted(free, j, bp)| == |free| + 1
    ensures Inserted(free, j, bp)[i] == if i <= j then free[i] else if i == j + 1 then bp else free[i - 1]
  {
  }

  lemma InsertChained(base: nat, ptr: map<nat, nat>, size: map<nat, nat>, free: seq<nat>, j: nat, bp: nat)
    requires Chained(base, ptr, free) && Ordered(base, size, free) && Between(free, j, bp)
    ensures LinkAt(base, ptr, free, j)
    ensures Chained(base, ptr[bp := ptr[free[j]]][free[j] := bp], Inserted(free, j, bp))
  {
    var f := Inserted(free, j, bp);
    assert LinkAt(base, ptr, free, j);
    var pt := ptr[bp := ptr[free[j]]][free[j] := bp];
    InsertedAt(free, j, bp, 0);
    forall i: nat
      ensures LinkAt(base, pt, f, i)
    {
      if i < |f| {
        InsertedAt(free, j, bp, i);
        if i + 1 < |f| { InsertedAt(free, j, bp, i + 1); }
        if i != j && i != j + 1 {
          var i' := if i <= j then i else i - 1;
          assert LinkAt(base, ptr, free, i');
          ListDistinct(base, size, free, i', j);
          NotListed(base, size, free, j, bp, i');
        }
      }
    }
  }

  lemma InsertOrdered(base: nat, size: map<nat, nat>, free: seq<nat>, j: nat, bp: nat)
    requires Ordered(base, size, free) && Between(free, j, bp) && bp in size && size[bp] >= 1
    requires free[j] in size && free[j] + size[free[j]] <= bp
    requires j + 1 < |free| ==> bp + size[bp] <= free[j + 1]
    ensures Ordered(base, size, Inserted(free, j, bp))
  {
    var f := Inserted(free, j, bp);
    InsertedAt(free, j, bp, 0);
    forall i: nat
      ensures SizeAt(size, f, i)
    {
      if i < |f| {
        InsertedAt(free, j, bp, i);
        if i != j + 1 { assert SizeAt(size, free, if i <= j then i else i - 1); }
      }
    }
    forall i: nat, k: nat
      ensures Before(size, f, i, k)
    {
      if i < k < |f| {
        InsertedAt(free, j, bp, i);
        InsertedAt(free, j, bp, k);
        var i', k' := if i <= j then i else i - 1, if k <= j + 1 then k else k - 1;
        assert SizeAt(size, free, j + 1);
        assert Before(size, free, i, j) && Before(size, free, j + 1, k') && Before(size, free, i', k');
      }
    }
  }

  lemma InsertApart(size: map<nat, nat>, free: seq<nat>, j: nat, bp: nat)
    requires Apart(size, free, {}) && j < |free|
    ensures Apart(size, Inserted(free, j, bp), {j, j + 1})
  {
    var f := Inserted(free, j, bp);
    forall i: nat
      ensures i in {j, j + 1} || ApartAt(size, f, i)
    {
      if i + 1 < |f| && i != j && i != j + 1 {
        InsertedAt(free, j, bp, i);
        InsertedAt(free, j, bp, i + 1);
        assert ApartAt(size, free, if i <= j then i else i - 1);
      }
    }
  }

  function Merged(free: seq<nat>, k: nat): seq<nat>
    requires k + 1 < |free|
  {
    free[..k + 1] + free[k + 2..]
  }

  lemma MergedAt(free: seq<nat>, k: nat, i: nat)
    requires k + 1 < |free| && i + 1 < |free|
    ensures |Merged(free, k)| == |free| - 1
    ensures Merged(free, k)[i] == if i <= k then free[i] else free[i + 1]
  {
  }

  lemma MergeChained(base: nat, ptr: map<nat, nat>, size: map<nat, nat>, free: seq<nat>, k: nat)
    requires Chained(base, ptr, free) && Ordered(base, size, free) && k + 1 < |free|
    ensures LinkAt(base, ptr, free, k + 1)
    ensures Chained(base, ptr[free[k] := ptr[free[k + 1]]], Merged(free, k))
  {
    var f := Merged(free, k);
    assert LinkAt(base, ptr, free, k + 1);
    var pt := ptr[free[k] := ptr[free[k + 1]]];
    MergedAt(free, k, 0);
    forall i: nat
      ensures LinkAt(base, pt, f, i)
    {
      if i < |f| {
        MergedAt(free, k, i);
        if i + 1 < |f| { MergedAt(free, k, i + 1); }
        if i != k {
          var i' := if i <= k then i else i + 1;
          assert LinkAt(base, ptr, free, i');
          ListDistinct(base, size, free, i', k);
        }
      }
    }
  }

  lemma MergeOrdered(base: nat, size: map<nat, nat>, free: seq<nat>, k: nat)
    requires Ordered(base, size, free) && 1 <= k && k + 1 < |free|
    requires free[k] in size && free[k + 1] in size && free[k] + size[free[k]] == free[k + 1]
    ensures Ordered(base, size[free[k] := size[free[k]] + size[free[k + 1]]], Merged(free, k))
  {
    var f := Merged(free, k);
    var s := size[free[k] := size[free[k]] + size[free[k + 1]]];
    MergedAt(free, k, 0);
    ListDistinct(base, size, free, 0, k);
    forall i: nat
      ensures SizeAt(s, f, i)
    {
      if i < |f| {
        MergedAt(free, k, i);
        assert SizeAt(size, free, if i <= k then i else i + 1);
      }
    }
    forall i: nat, m: nat
      ensures Before(s, f, i, m)
    {
      if i < m < |f| {
        MergedAt(free, k, i);
        MergedAt(free, k, m);
        var i', m' := if i <= k then i else i + 1, if m <= k then m else m + 1;
        assert Before(size, free, i', m') && Before(size, free, k + 1, m');
        if i != k { ListDistinct(base, size, free, i', k); }
      }
    }
  }

  lemma MergeApart(base: nat, size: map<nat, nat>, free: seq<nat>, k: nat, t: set<nat>)
    requires Ordered(base, size, free) && k + 1 < |free|
    requires free[k] in size && free[k + 1] in size && free[k] + size[free[k]] == free[k + 1]
    requires Apart(size, free, t) && k + 1 !in t && forall i :: i in t ==> i <= k
    ensures Apart(size[free[k] := size[free[k]] + size[free[k + 1]]], Merged(free, k), t - {k})
  {
    var f := Merged(free, k);
    var s := size[free[k] := size[free[k]] + size[free[k + 1]]];
    forall i: nat
      ensures i in t - {k} || ApartAt(s, f, i)
    {
      if i + 1 < |f| {
        MergedAt(free, k, i);
        MergedAt(free, k, i + 1);
        assert i in t || ApartAt(size, free, i);
        assert i + 1 in t || ApartAt(size, free, i + 1);
        if i != k { ListDistinct(base, size, free, if i <= k then i else i + 1, k); }
      }
    }
  }

  lemma InsertedMembers(free: seq<nat>, j: nat, bp: nat)
    requires j < |free|
    ensures forall a :: a in Inserted(free, j, bp) <==> a in free || a == bp
  {
    var f := Inserted(free, j, bp);
    forall a | a in free
      ensures a in f
    {
      var i :| 0 <= i < |free| && free[i] == a;
      InsertedAt(free, j, bp, if i <= j then i else i + 1);
    }
  }

  lemma MergedMembers(base: nat, size: map<nat, nat>, free: seq<nat>, k: nat)
    requires Ordered(base, size, free) && k + 1 < |free|
    ensures forall a :: a in Merged(free, k) <==> a in free && a != free[k + 1]
  {
    var f := Merged(free, k);
    MergedAt(free, k, 0);
    forall a
      ensures a in f <==> a in free && a != free[k + 1]
    {
      if a in free && a != free[k + 1] {
        var i :| 0 <= i < |free| && free[i] == a;
        MergedAt(free, k, if i <= k then i else i - 1);
      }
      if a in f {
        var i :| 0 <= i < |f| && f[i] == a;
        MergedAt(free, k, i);
        ListDistinct(base, size, free, if i <= k then i else i + 1, k + 1);
      }
    }
  }

  lemma InsertStep(base: nat, ptr: map<nat, nat>, size: map<nat, nat>, free: seq<nat>,
                   live: map<nat, nat>, owner: map<nat, nat>, j: nat, bp: nat)
    requires HeapOk(base, ptr, size, free, live, owner) && bp in live && Between(free, j, bp)
    ensures LinkAt(base, ptr, free, j)
    ensures HeapOkBut(base, ptr[bp := ptr[free[j]]][free[j] := bp], size, Inserted(free, j, bp),
                      live - {bp}, owner, {j, j + 1})
  {
    Neighbours(base, ptr, size, free, live, owner, j, bp);
    InsertChained(base, ptr, size, free, j, bp);
    InsertOrdered(base, size, free, j, bp);
    InsertApart(size, free, j, bp);
    InsertedMembers(free, j, bp);
    assert Blocks(base, Inserted(free, j, bp), live - {bp}) == Blocks(base, free, live);
  }

  lemma MergeLive(base: nat, size: map<nat, nat>, free: seq<nat>, live: map<nat, nat>, k: nat)
    requires Ordered(base, size, free) && LiveOk(size, free, live) && 1 <= k && k + 1 < |free|
    ensures SizeAt(size, free, k) && SizeAt(size, free, k + 1)
    ensures LiveOk(size[free[k] := size[free[k]] + size[free[k + 1]]], Merged(free, k), live)
    ensures Blocks(base, Merged(free, k), live) == Blocks(base, free, live) - {free[k + 1]}
    ensures free[k] in Blocks(base, free, live) && free[k + 1] in Blocks(base, free, live)
  {
    MergedMembers(base, size, free, k);
    assert SizeAt(size, free, k) && SizeAt(size, free, k + 1);
    ListDistinct(base, size, free, 0, k);
    ListDistinct(base, size, free, 0, k + 1);
    assert free[k] in free && free[k + 1] in free;
  }

  lemma MergeStep(base: nat, ptr: map<nat, nat>, size: map<nat, nat>, free: seq<nat>,
                  live: map<nat, nat>, owner: map<nat, nat>, t: set<nat>, k: nat, p: nat, q: nat,
                  ptr': map<nat, nat>, size': map<nat, nat>, t': set<nat>)
    returns (free': seq<nat>, owner': map<nat, nat>)
    requires HeapOkBut(base, ptr, size, free, live, owner, t)
    requires 1 <= k && k + 1 < |free| && free[k] == p && free[k + 1] == q
    requires p in size && p + size[p] == q
    requires k + 1 !in t && (forall i :: i in t ==> i <= k) && t' == t - {k}
    requires q in ptr && ptr' == ptr[p := ptr[q]] && q in size && size' == size[p := size[p] + size[q]]
    ensures owner'.Keys == owner.Keys && k < |free'| && free'[..k + 1] == free[..k + 1]
    ensures HeapOkBut(base, ptr', size', free', live, owner', t')
  {
    free' := Merged(free, k);
    MergeLive(base, size, free, live, k);
    MergeChained(base, ptr, size, free, k);
    MergeOrdered(base, size, free, k);
    MergeApart(base, size, free, k, t);
    TilesMerge(base, Blocks(base, free, live), size, owner, p, q);
    owner' := Reassign(owner, q, q + size[q], p);
  }

  lemma ApartLess(base: nat, ptr: map<nat, nat>, size: map<nat, nat>, free: seq<nat>,
                  live: map<nat, nat>, owner: map<nat, nat>, t: set<nat>, k: nat)
    requires HeapOkBut(base, ptr, size, free, live, owner, t)
    requires k + 1 < |free| ==> free[k] in size && free[k] + size[free[k]] != free[k + 1]
    ensures HeapOkBut(base, ptr, size, free, live, owner, t - {k})
  {
    assert Before(size, free, k, k + 1);
    forall i: nat
      ensures i in t - {k} || ApartAt(size, free, i)
    {
      assert i in t || ApartAt(size, free, i);
    }
  }

  /** The block after the j-th, or &base. */
  lemma NextBlock(base: nat, ptr: map<nat, nat>, size: map<nat, nat>, free: seq<nat>, j: nat)
    requires Chained(base, ptr, free) && Ordered(base, size, free) && j < |free|
    ensures free[j] in ptr && ptr[free[j]] in ptr && ptr[free[j]] in size
    ensures ptr[free[j]] == if j + 1 < |free| then free[j + 1] else base
  {
    assert LinkAt(base, ptr, free, j) && LinkAt(base, ptr, free, 0) && LinkAt(base, ptr, free, j + 1);
    assert SizeAt(size, free, 0) && SizeAt(size, free, j + 1);
  }

  /** First half of free when bp touches the block above it: the two fuse. */
  lemma FreeOnto(base: nat, ptr: map<nat, nat>, size: map<nat, nat>, free: seq<nat>,
                 live: map<nat, nat>, owner: map<nat, nat>, j: nat, bp: nat, ptr': map<nat, nat>, size': map<nat, nat>)
    returns (free': seq<nat>, owner': map<nat, nat>)
    requires HeapOk(base, ptr, size, free, live, owner) && bp in live && Between(free, j, bp)
    requires j + 1 < |free| && bp in size && bp + size[bp] == free[j + 1]
    requires free[j + 1] in ptr && free[j + 1] in size
    requires ptr' == ptr[bp := ptr[free[j + 1]]][free[j] := bp] && size' == size[bp := size[bp] + size[free[j + 1]]]
    ensures HeapOkBut(base, ptr', size', free', live - {bp}, owner', {j})
    ensures j + 1 < |free'| && free'[j] == free[j] && free'[j + 1] == bp && owner'.Keys == owner.Keys
  {
    InsertStep(base, ptr, size, free, live, owner, j, bp);
    NextBlock(base, ptr, size, free, j);
    var p, f := free[j], Inserted(free, j, bp);
    var q: nat := free[j + 1];
    InsertedAt(free, j, bp, j);
    InsertedAt(free, j, bp, j + 1);
    InsertedAt(free, j, bp, j + 2);
    var pt := ptr[bp := q][p := bp];
    ListDistinct(base, size, free, j, j + 1);
    free', owner' := MergeStep(base, pt, size, f, live - {bp}, owner, {j, j + 1}, j + 1, bp, q,
                               ptr', size', {j});
    assert free'[..j + 2][j] == p && free'[..j + 2][j + 1] == bp;
  }

  /** First half of free otherwise: bp is linked in between. */
  lemma FreeInto(base: nat, ptr: map<nat, nat>, size: map<nat, nat>, free: seq<nat>,
                 live: map<nat, nat>, owner: map<nat, nat>, j: nat, bp: nat)
    requires HeapOk(base, ptr, size, free, live, owner) && bp in live && Between(free, j, bp)
    requires bp in size && (j + 1 < |free| ==> bp + size[bp] != free[j + 1])
    ensures free[j] in ptr
    ensures HeapOkBut(base, ptr[bp := ptr[free[j]]][free[j] := bp], size, Inserted(free, j, bp),
                      live - {bp}, owner, {j})
  {
    InsertStep(base, ptr, size, free, live, owner, j, bp);
    var f := Inserted(free, j, bp);
    InsertedAt(free, j, bp, j + 1);
    if j + 2 < |f| { InsertedAt(free, j, bp, j + 2); }
    ApartLess(base, ptr[bp := ptr[free[j]]][free[j] := bp], size, f, live - {bp}, owner, {j, j + 1}, j + 1);
    assert {j, j + 1} - {j + 1} == {j};
  }

  /** Second half: a lower neighbour takes in bp if they touch. */
  lemma FreeDown(base: nat, ptr: map<nat, nat>, size: map<nat, nat>, free: seq<nat>,
                 live: map<nat, nat>, owner: map<nat, nat>, j: nat)
    returns (ptr': map<nat, nat>, size': map<nat, nat>, free': seq<nat>, owner': map<nat, nat>)
    requires HeapOkBut(base, ptr, size, free, live, owner, {j}) && j + 1 < |free|
    ensures free[j] in size && free[j + 1] in size && free[j + 1] in ptr
    ensures var p, bp := free[j], free[j + 1];
            && ptr' == (if p + size[p] == bp then ptr[p := ptr[bp]] else ptr)
            && size' == (if p + size[p] == bp then size[p := size[p] + size[bp]] else size)
    ensures HeapOk(base, ptr', size', free', live, owner')
    ensures j < |free'| && free'[j] == free[j] && owner'.Keys == owner.Keys
    ensures free[j] + size[free[j]] == free[j + 1] ==> j >= 1
    ensures free[j] + size[free[j]] != free[j + 1] ==> free' == free
  {
    assert SizeAt(size, free, j) && SizeAt(size, free, j + 1) && LinkAt(base, ptr, free, j + 1);
    assert Before(size, free, 0, j + 1);
    var p, bp := free[j], free[j + 1];
    ptr', size', free', owner' := ptr, size, free, owner;
    assert {j} - {j} == {};
    if p + size[p] == bp {
      ptr', size' := ptr[p := ptr[bp]], size[p := size[p] + size[bp]];
      free', owner' := MergeStep(base, ptr, size, free, live, owner, {j}, j, p, bp, ptr', size', {});
      assert free'[..j + 1][j] == p;
    } else {
      ApartLess(base, ptr, size, free, live, owner, {j}, j);
    }
  }

  /** bp's own fields after the first half of free, p being the block at which its search ends. */
  function UpPtr(ptr: map<nat, nat>, size: map<nat, nat>, p: nat, bp: nat): map<nat, nat>
    requires p in ptr && ptr[p] in ptr && bp in size
  {
    ptr[bp := if bp + size[bp] == ptr[p] then ptr[ptr[p]] else ptr[p]]
  }

  function UpSize(ptr: map<nat, nat>, size: map<nat, nat>, p: nat, bp: nat): map<nat, nat>
    requires p in ptr && ptr[p] in size && bp in size
  {
    if bp + size[bp] == ptr[p] then size[bp := size[bp] + size[ptr[p]]] else size
  }

  /** All fields after free(bp). */
  function FreedPtr(ptr: map<nat, nat>, size: map<nat, nat>, p: nat, bp: nat): map<nat, nat>
    requires p in ptr && ptr[p] in ptr && p in size && bp in size
  {
    var up := UpPtr(ptr, size, p, bp);
    up[p := if p + size[p] == bp then up[bp] else bp]
  }

  function FreedSize(ptr: map<nat, nat>, size: map<nat, nat>, p: nat, bp: nat): map<nat, nat>
    requires p in ptr && ptr[p] in size && p in size && bp in size
  {
    var up := UpSize(ptr, size, p, bp);
    if p + size[p] == bp then up[p := size[p] + up[bp]] else up
  }

  lemma FreeFirst(base: nat, ptr: map<nat, nat>, size: map<nat, nat>, free: seq<nat>,
                  live: map<nat, nat>, owner: map<nat, nat>, j: nat, p: nat, bp: nat)
    returns (free': seq<nat>, owner': map<nat, nat>)
    requires HeapOk(base, ptr, size, free, live, owner) && bp in live && Between(free, j, bp) && p == free[j]
    ensures p in ptr && ptr[p] in ptr && ptr[p] in size && p in size && bp in size
    ensures HeapOkBut(base, UpPtr(ptr, size, p, bp)[p := bp], UpSize(ptr, size, p, bp), free', live - {bp}, owner', {j})
    ensures j + 1 < |free'| && free'[j] == p && free'[j + 1] == bp && owner'.Keys == owner.Keys
  {
    NextBlock(base, ptr, size, free, j);
    Neighbours(base, ptr, size, free, live, owner, j, bp);
    if bp + size[bp] == ptr[p] {
      NextBlock(base, ptr, size, free, j + 1);
      free', owner' := FreeOnto(base, ptr, size, free, live, owner, j, bp,
                                UpPtr(ptr, size, p, bp)[p := bp], UpSize(ptr, size, p, bp));
    } else {
      FreeInto(base, ptr, size, free, live, owner, j, bp);
      InsertedAt(free, j, bp, j);
      InsertedAt(free, j, bp, j + 1);
      free', owner' := Inserted(free, j, bp), owner;
    }
  }

  /** Some free block contains the n units from bp. */
  ghost predicate FreeHolds(size: map<nat, nat>, free: seq<nat>, bp: nat, n: nat) {
    exists k :: 1 <= k < |free| && free[k] in size && free[k] <= bp && bp + n <= free[k] + size[free[k]]
  }

  /** free keeps the heap in order: bp joins the free list, fused with any neighbour it touches. */
  lemma FreeKeeps(base: nat, ptr: map<nat, nat>, size: map<nat, nat>, free: seq<nat>,
                  live: map<nat, nat>, owner: map<nat, nat>, j: nat, p: nat, bp: nat)
    returns (free': seq<nat>, owner': map<nat, nat>)
    requires HeapOk(base, ptr, size, free, live, owner) && bp in live && Between(free, j, bp) && p == free[j]
    ensures p in ptr && ptr[p] in ptr && ptr[p] in size && p in size && bp in size
    ensures HeapOk(base, FreedPtr(ptr, size, p, bp), FreedSize(ptr, size, p, bp), free', live - {bp}, owner')
    ensures owner'.Keys == owner.Keys && p in free'
    ensures FreeHolds(FreedSize(ptr, size, p, bp), free', bp, size[bp])
  {
    var f, o := FreeFirst(base, ptr, size, free, live, owner, j, p, bp);
    var ptr1, size1 := UpPtr(ptr, size, p, bp)[p := bp], UpSize(ptr, size, p, bp);
    var ptr2, size2;
    ptr2, size2, free', owner' := FreeDown(base, ptr1, size1, f, live - {bp}, o, j);
    assert ptr2 == FreedPtr(ptr, size, p, bp);
    assert size2 == FreedSize(ptr, size, p, bp);
    var k := if p + size[p] == bp then j else j + 1;
    assert free'[k] in size2 && free'[k] <= bp && bp + size[bp] <= free'[k] + size2[free'[k]];
  }

  // ---------------------------------------------------------------- taking a block

  function Removed(free: seq<nat>, k: nat): seq<nat>
    requires k < |free|
  {
    free[..k] + free[k + 1..]
  }

  lemma RemovedAt(free: seq<nat>, k: nat, i: nat)
    requires k < |free| && i + 1 < |free|
    ensures |Removed(free, k)| == |free| - 1
    ensures Removed(free, k)[i] == if i < k then free[i] else free[i + 1]
  {
  }

  lemma RemoveList(base: nat, ptr: map<nat, nat>, size: map<nat, nat>, free: seq<nat>, k: nat)
    requires Chained(base, ptr, free) && Ordered(base, size, free) && Apart(size, free, {}) && 1 <= k < |free|
    ensures LinkAt(base, ptr, free, k)
    ensures Chained(base, ptr[free[k - 1] := ptr[free[k]]], Removed(free, k))
    ensures Ordered(base, size, Removed(free, k)) && Apart(size, Removed(free, k), {})
  {
    var f := Removed(free, k);
    assert LinkAt(base, ptr, free, k);
    var pt := ptr[free[k - 1] := ptr[free[k]]];
    RemovedAt(free, k, 0);
    forall i: nat
      ensures LinkAt(base, pt, f, i) && SizeAt(size, f, i) && ApartAt(size, f, i)
    {
      if i < |f| {
        RemovedAt(free, k, i);
        if i + 1 < |f| { RemovedAt(free, k, i + 1); }
        var i' := if i < k then i else i + 1;
        assert LinkAt(base, ptr, free, i') && SizeAt(size, free, i') && SizeAt(size, free, k);
        assert i' in {} || ApartAt(size, free, i');
        assert k in {} || ApartAt(size, free, k);
        if i != k - 1 { ListDistinct(base, size, free, i', k - 1); }
      }
    }
    forall i: nat, m: nat
      ensures Before(size, f, i, m)
    {
      if i < m < |f| {
        RemovedAt(free, k, i);
        RemovedAt(free, k, m);
        assert Before(size, free, if i < k then i else i + 1, if m < k then m else m + 1);
      }
    }
  }

  lemma RemovedMembers(base: nat, size: map<nat, nat>, free: seq<nat>, k: nat)
    requires Ordered(base, size, free) && 1 <= k < |free|
    ensures forall a :: a in Removed(free, k) <==> a in free && a != free[k]
  {
    var f := Removed(free, k);
    RemovedAt(free, k, 0);
    forall a
      ensures a in f <==> a in free && a != free[k]
    {
      if a in free && a != free[k] {
        var i :| 0 <= i < |free| && free[i] == a;
        RemovedAt(free, k, if i < k then i else i - 1);
      }
      if a in f {
        var i :| 0 <= i < |f| && f[i] == a;
        RemovedAt(free, k, i);
        ListDistinct(base, size, free, if i < k then i else i + 1, k);
      }
    }
  }

  /** malloc with an exact fit: the k-th block leaves the list and goes live. */
  lemma TakeWhole(base: nat, ptr: map<nat, nat>, size: map<nat, nat>, free: seq<nat>,
                  live: map<nat, nat>, owner: map<nat, nat>, k: nat)
    requires HeapOk(base, ptr, size, free, live, owner) && 1 <= k < |free|
    ensures free[k] in ptr && free[k] in size && free[k] !in live
    ensures HeapOk(base, ptr[free[k - 1] := ptr[free[k]]], size, Removed(free, k),
                   live[free[k] := size[free[k]]], owner)
  {
    RemoveList(base, ptr, size, free, k);
    RemovedMembers(base, size, free, k);
    assert SizeAt(size, free, k);
    assert free[k] in free;
    ListDistinct(base, size, free, 0, k);
    assert Blocks(base, Removed(free, k), live[free[k] := size[free[k]]]) == Blocks(base, free, live);
  }

  lemma ShrinkList(base: nat, size: map<nat, nat>, free: seq<nat>, k: nat, n: nat, q: nat)
    requires Ordered(base, size, free) && Apart(size, free, {}) && 1 <= k < |free| && q !in free
    requires free[k] in size && n < size[free[k]]
    ensures Ordered(base, size[free[k] := size[free[k]] - n][q := n], free)
    ensures Apart(size[free[k] := size[free[k]] - n][q := n], free, {})
  {
    var s := size[free[k] := size[free[k]] - n][q := n];
    assert free[0] in free;
    ListDistinct(base, size, free, 0, k);
    forall i: nat
      ensures SizeAt(s, free, i) && ApartAt(s, free, i)
    {
      if i < |free| {
        assert free[i] in free;
        assert SizeAt(size, free, i);
        assert i in {} || ApartAt(size, free, i);
      }
    }
    forall i: nat, j: nat
      ensures Before(s, free, i, j)
    {
      if i < |free| { assert free[i] in free; }
      assert Before(size, free, i, j);
    }
  }

  /** malloc from a larger block: its tail of n units goes live, the list stays. */
  lemma TakeTail(base: nat, ptr: map<nat, nat>, size: map<nat, nat>, free: seq<nat>,
                 live: map<nat, nat>, owner: map<nat, nat>, k: nat, p: nat, n: nat)
    returns (owner': map<nat, nat>)
    requires HeapOk(base, ptr, size, free, live, owner) && 1 <= k < |free| && free[k] == p
    requires p in size && 1 <= n < size[p]
    ensures var q := p + size[p] - n;
            && q !in live && owner'.Keys == owner.Keys
            && HeapOk(base, ptr, size[p := size[p] - n][q := n], free, live[q := n], owner')
  {
    var q := p + size[p] - n;
    var bs := Blocks(base, free, live);
    ListDistinct(base, size, free, 0, k);
    assert p in free && p in bs;
    TilesSplit(base, bs, size, owner, p, n);
    assert Before(size, free, 0, k);
    assert q !in free;
    ShrinkList(base, size, free, k, n, q);
    owner' := Reassign(owner, q, q + n, q);
    assert Blocks(base, free, live[q := n]) == bs + {q};
    TailLive(size, free, live, p, q, n);
  }

  lemma TailLive(size: map<nat, nat>, free: seq<nat>, live: map<nat, nat>, p: nat, q: nat, n: nat)
    requires LiveOk(size, free, live) && p in free && p in size && n <= size[p] && q !in free
    ensures LiveOk(size[p := size[p] - n][q := n], free, live[q := n])
  {
  }

  /** Memory fresh from sbrk can be treated as a live block (which morecore frees at once). */
  lemma GrowKeeps(base: nat, ptr: map<nat, nat>, size: map<nat, nat>, free: seq<nat>,
                  live: map<nat, nat>, owner: map<nat, nat>, hp: nat, n: nat)
    requires HeapOk(base, ptr, size, free, live, owner) && hp > base && n >= 1
    requires forall u :: u in owner ==> u < hp
    ensures hp !in live
    ensures HeapOk(base, ptr, size[hp := n], free, live[hp := n], owner + Granted(hp, n))
  {
    var bs := Blocks(base, free, live);
    TilesGrow(base, bs, size, owner, hp, n);
    assert hp !in free;
    SizeElsewhere(base, size, free, hp, n);
    assert Blocks(base, free, live[hp := n]) == bs + {hp};
  }

  lemma SizeElsewhere(base: nat, size: map<nat, nat>, free: seq<nat>, hp: nat, n: nat)
    requires Ordered(base, size, free) && Apart(size, free, {}) && hp !in free
    ensures Ordered(base, size[hp := n], free) && Apart(size[hp := n], free, {})
  {
    var s := size[hp := n];
    assert free[0] in free;
    forall i: nat
      ensures SizeAt(s, free, i) && ApartAt(s, free, i)
    {
      if i < |free| { assert free[i] in free; }
      assert SizeAt(size, free, i);
      assert i in {} || ApartAt(size, free, i);
    }
    forall i: nat, j: nat
      ensures Before(s, free, i, j)
    {
      if i < |free| { assert free[i] in free; }
      assert Before(size, free, i, j);
    }
  }

  /** The list malloc starts from: &base alone. */
  lemma EmptyHeap(base: nat, ptr: map<nat, nat>, size: map<nat, nat>)
    requires base > 0
    ensures HeapOk(base, ptr[base := base], size[base := 0], [base], map[], map[])
  {
    var p, s, f := ptr[base := base], size[base := 0], [base];
    assert forall i: nat :: LinkAt(base, p, f, i) && SizeAt(s, f, i) && ApartAt(s, f, i);
    assert forall i: nat, j: nat :: Before(s, f, i, j);
    assert Blocks(base, f, map[]) == {};
    assert forall u: nat :: UnitOk({}, s, map[], u);
    assert forall a: nat, u: nat :: CoverOk({}, s, map[], a, u);
  }
}
