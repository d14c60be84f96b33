/** Which blocks writei logs, told from the file system before the write: balloc takes the first free block. */
module FsLogged {
  import opened Common
  import opened Blocks
  import opened FsLayout
  import opened FsState

  // ---------------------------------------------------------------- the first free blocks

  /** The lowest free block from c on; size if there is none. */
  ghost function Lowest(size: nat, used: set<nat>, c: nat): (b: nat)
    requires c <= size
    ensures c <= b <= size && (b < size ==> b !in used)
    decreases size - c
  {
    if c < size && c in used then Lowest(size, used, c + 1) else c
  }

  /** b is the block that balloc finds. */
  ghost predicate First(size: nat, used: set<nat>, b: nat) {
    b < size && b == Lowest(size, used, 0)
  }

  /** The k lowest free blocks, or all there are. */
  ghost function FirstFree(size: nat, used: set<nat>, k: nat): set<nat>
    decreases k
  {
    var b := Lowest(size, used, 0);
    if k == 0 || b == size then {} else {b} + FirstFree(size, used + {b}, k - 1)
  }

  lemma {:induction false} LowestFrom(size: nat, used: set<nat>, c: nat, b: nat)
    requires c <= b < size && b !in used && forall d: nat :: c <= d < b ==> d in used
    ensures Lowest(size, used, c) == b
    decreases b - c
  {
    if c < b { LowestFrom(size, used, c + 1, b); }
  }

  lemma FirstOne(size: nat, used: set<nat>, b: nat)
    requires First(size, used, b)
    ensures FirstFree(size, used, 1) == {b}
  {
    assert FirstFree(size, used + {b}, 0) == {};
  }

  lemma {:induction false} FirstMore(size: nat, used: set<nat>, j: nat, k: nat)
    ensures FirstFree(size, used, j + k)
            == FirstFree(size, used, j) + FirstFree(size, used + FirstFree(size, used, j), k)
    decreases j
  {
    var b := Lowest(size, used, 0);
    if j == 0 {
      assert used + {} == used;
    } else if b < size {
      FirstMore(size, used + {b}, j - 1, k);
      assert used + FirstFree(size, used, j) == used + {b} + FirstFree(size, used + {b}, j - 1);
    } else {
      assert used + {} == used;
    }
  }

  /** One more block is the one balloc finds next. */
  lemma FirstNext(size: nat, used: set<nat>, j: nat, b: nat)
    requires First(size, used + FirstFree(size, used, j), b)
    ensures FirstFree(size, used, j + 1) == FirstFree(size, used, j) + {b}
  {
    FirstMore(size, used, j, 1);
    FirstOne(size, used + FirstFree(size, used, j), b);
  }

  lemma {:induction false} FirstAreFree(size: nat, used: set<nat>, k: nat, b: nat)
    requires b in FirstFree(size, used, k)
    ensures b < size && b !in used
    decreases k
  {
    var c := Lowest(size, used, 0);
    if b != c { FirstAreFree(size, used + {c}, k - 1, b); }
  }

  lemma {:induction false} LowestFull(size: nat, used: set<nat>, c: nat, b: nat)
    requires c <= b < size && Lowest(size, used, c) == size
    ensures b in used
    decreases b - c
  {
    if c < b { LowestFull(size, used, c + 1, b); }
  }

  ghost predicate Below(used: set<nat>, size: nat) {
    forall b :: b in used ==> b < size
  }

  lemma UsedCount(size: nat, used: set<nat>)
    requires Below(used, size)
    ensures |used| <= size && (Lowest(size, used, 0) == size ==> |used| == size)
  {
    var all := seq(size, i requires 0 <= i < size => i);
    DistinctCard(all);
    forall b | b in used ensures b in Elems(all) { assert all[b] == b; }
    SubsetCard(used, Elems(all));
    if Lowest(size, used, 0) == size {
      forall b | b in Elems(all) ensures b in used { LowestFull(size, used, 0, b); }
      assert used == Elems(all);
    }
  }

  /** They are k unless fewer are free. */
  lemma {:induction false} FirstCount(size: nat, used: set<nat>, k: nat)
    requires Below(used, size)
    ensures |FirstFree(size, used, k)| == Min(k, size - |used|)
    decreases k
  {
    UsedCount(size, used);
    var b := Lowest(size, used, 0);
    if k > 0 && b < size {
      UsedCount(size, used + {b});
      FirstCount(size, used + {b}, k - 1);
      if b in FirstFree(size, used + {b}, k - 1) { FirstAreFree(size, used + {b}, k - 1, b); }
    }
  }

  // ---------------------------------------------------------------- what a write logs

  /** Blocks it takes to make a file of n blocks one of m: the blocks, and the indirect block if it has none. */
  function Needs(n: nat, ind: Word, m: nat): nat {
    if m <= n then 0 else m - n + (if ind == 0 && m > NDIRECT then 1 else 0)
  }

  /** Blocks that n bytes at off touch. */
  function Turns(off: nat, n: nat): nat {
    if n == 0 then 0 else BlocksFor(off + n) - off / BSIZE
  }

  /** The first block that n bytes at off touch, and the block after the last. */
  function From(off: nat): nat {
    off / BSIZE
  }

  function Upto(off: nat, n: nat): nat {
    off / BSIZE + Turns(off, n)
  }

  ghost predicate Sized(v: View, i: nat) {
    i < |v.inodes| && i < |v.nb| && |v.inodes[i].addrs| == NDIRECT + 1 && v.nb[i] <= MAXFILE
  }

  ghost function Ind(v: View, i: nat): Word
    requires Sized(v, i)
  {
    v.inodes[i].addrs[NDIRECT]
  }

  /** The blocks that inode i already has among its blocks from..to. */
  ghost function OldBlocks(v: View, i: nat, from: nat, to: nat): set<nat>
    requires Sized(v, i)
  {
    set bn | from <= bn < to && bn < v.nb[i] :: BlockOf(v.disk, v.inodes[i], bn)
  }

  /** The blocks that inode i will be given to have m blocks. */
  ghost function NewBlocks(sb: Super, v: View, i: nat, m: nat): set<nat>
    requires Sized(v, i)
  {
    FirstFree(sb.size, v.owner.Keys, Needs(v.nb[i], Ind(v, i), m))
  }

  ghost function Bitmaps(sb: Super, bs: set<nat>): set<nat> {
    set b | b in bs :: sb.BBlock(b)
  }

  /** The indirect block, if inode i has one and a new address goes into it. */
  ghost function Listing(v: View, i: nat, to: nat): set<nat>
    requires Sized(v, i)
  {
    if to > v.nb[i] && to > NDIRECT && Ind(v, i) != 0 then {Ind(v, i)} else {}
  }

  /** The blocks that writing to blocks from..to of inode i logs, the inode's own block aside. */
  ghost function WriteSet(sb: Super, v: View, i: nat, from: nat, to: nat): set<nat>
    requires Sized(v, i)
  {
    var added := NewBlocks(sb, v, i, to);
    OldBlocks(v, i, from, to) + added + Bitmaps(sb, added) + Listing(v, i, to)
  }

  ghost predicate Grows(v: View, i: nat, off: nat, n: nat)
    requires Sized(v, i)
  {
    n > 0 && off + n > v.inodes[i].size
  }

  ghost function With(s: set<nat>, x: nat, more: bool): set<nat> {
    if more then s + {x} else s
  }

  /** All the blocks that writei of n bytes at off logs. */
  ghost function LoggedBy(sb: Super, v: View, i: nat, off: nat, n: nat): set<nat>
    requires Sized(v, i)
  {
    With(WriteSet(sb, v, i, From(off), Upto(off, n)), sb.IBlock(i), Grows(v, i, off, n))
  }

  // ---------------------------------------------------------------- turn by turn

  /** The effect of bmap adding block bn at b: the blocks it takes and the blocks it logs. */
  ghost predicate Charged(sb: Super, v: View, w: View, i: nat, bn: nat, b: nat, l0: set<nat>, l: set<nat>) {
    && Sized(v, i) && Sized(w, i)
    && if bn >= NDIRECT && Ind(v, i) == 0 then
         && var ind := Ind(w, i);
         && ind != 0 && First(sb.size, v.owner.Keys, ind) && First(sb.size, v.owner.Keys + {ind}, b)
         && w.owner == v.owner[ind := Indirect(i)][b := Data(i, bn)]
         && l == l0 + {sb.BBlock(b), b} + {ind, sb.BBlock(ind)}
       else
         && Ind(w, i) == Ind(v, i) && First(sb.size, v.owner.Keys, b)
         && w.owner == v.owner[b := Data(i, bn)]
         && l == l0 + {sb.BBlock(b), b} + (if bn < NDIRECT then {} else {Ind(w, i)})
  }

  /** b is the one block with this use. */
  ghost predicate Only(o: map<nat, Use>, use: Use, b: nat) {
    forall a :: a in o && o[a] == use ==> a == b
  }

  ghost predicate OwnedAt(v: View, i: nat, bn: nat) {
    Sized(v, i) && bn < v.nb[i] ==>
      var a := BlockOf(v.disk, v.inodes[i], bn); a in v.owner && v.owner[a] == Data(i, bn)
  }

  /** What the blocks of inode i are, before a write. */
  ghost predicate Settled(v: View, i: nat) {
    Sized(v, i) && i < |v.files| && |v.files[i]| == BSIZE * v.nb[i] && forall bn: nat :: OwnedAt(v, i, bn)
  }

  lemma OkSettled(sb: Super, v: View, i: nat)
    requires FsOk(sb, v) && i < sb.ninodes && InodeAt(v, i)
    ensures Settled(v, i)
  {
    forall bn: nat ensures OwnedAt(v, i, bn) { if bn < MAXFILE { assert MapAt(v, i, bn); } }
  }

  lemma OkOnly(sb: Super, v: View, i: nat, bn: nat)
    requires FsOk(sb, v) && i < sb.ninodes && InodeAt(v, i) && bn < v.nb[i]
    ensures Only(v.owner, Data(i, bn), BlockOf(v.disk, v.inodes[i], bn))
  {
    forall a | a in v.owner && v.owner[a] == Data(i, bn) ensures a == BlockOf(v.disk, v.inodes[i], bn) {
      assert OwnAt(v, a);
    }
  }

  /** One turn of writei's loop, at block bn: the block is there already, or it is added at b. */
  ghost predicate Turned(sb: Super, v: View, w: View, i: nat, bn: nat, b: nat, l0: set<nat>, l: set<nat>) {
    && Sized(v, i) && Sized(w, i) && bn <= v.nb[i] && bn < MAXFILE
    && if bn < v.nb[i] then
         && w.owner == v.owner && Ind(w, i) == Ind(v, i) && w.nb[i] == v.nb[i]
         && Only(v.owner, Data(i, bn), b) && l == l0 + {b}
       else w.nb[i] == bn + 1 && Charged(sb, v, w, i, bn, b, l0, l)
  }

  ghost predicate OwnerKept(o: map<nat, Use>, p: map<nat, Use>) {
    forall b :: b in o ==> b in p && p[b] == o[b]
  }

  /** From v to w the blocks from..to of inode i were written: what was taken, and what was logged. */
  ghost predicate Logs(sb: Super, v: View, l0: set<nat>, w: View, l: set<nat>, i: nat, from: nat, to: nat) {
    && Sized(v, i) && Sized(w, i) && OwnerKept(v.owner, w.owner)
    && w.nb[i] == Max(v.nb[i], to)
    && w.owner.Keys == v.owner.Keys + NewBlocks(sb, v, i, to)
    && (if Ind(v, i) != 0 || to <= v.nb[i] || to <= NDIRECT then Ind(w, i) == Ind(v, i)
        else Ind(w, i) != 0 && Ind(w, i) in NewBlocks(sb, v, i, to))
    && l == l0 + WriteSet(sb, v, i, from, to)
  }

  lemma LogsNone(sb: Super, v: View, l: set<nat>, i: nat, from: nat)
    requires Sized(v, i) && from <= v.nb[i]
    ensures Logs(sb, v, l, v, l, i, from, from)
  {
    assert NewBlocks(sb, v, i, from) == {};
    assert OldBlocks(v, i, from, from) == {};
  }

  lemma LogsOld(sb: Super, v: View, l0: set<nat>, u: View, l1: set<nat>, w: View, l: set<nat>,
                i: nat, from: nat, bn: nat, b: nat)
    requires Settled(v, i)
    requires Logs(sb, v, l0, u, l1, i, from, bn) && from <= bn < v.nb[i] && Turned(sb, u, w, i, bn, b, l1, l)
    ensures Logs(sb, v, l0, w, l, i, from, bn + 1)
  {
    var a := BlockOf(v.disk, v.inodes[i], bn);
    assert OwnedAt(v, i, bn);
    assert a == b;
    assert OldBlocks(v, i, from, bn + 1) == OldBlocks(v, i, from, bn) + {a};
    assert NewBlocks(sb, v, i, bn) == NewBlocks(sb, v, i, bn + 1) == {};
  }

  /** The blocks a file needs are those that each block added needs. */
  lemma FreeNext(size: nat, used: set<nat>, n: nat, ind0: Word, bn: nat, ind1: Word, ind: nat, b: nat)
    requires n <= bn && if ind0 != 0 || bn <= n || bn <= NDIRECT then ind1 == ind0 else ind1 != 0
    requires var taken := used + FirstFree(size, used, Needs(n, ind0, bn));
             if bn >= NDIRECT && ind1 == 0 then First(size, taken, ind) && First(size, taken + {ind}, b)
             else First(size, taken, b)
    ensures FirstFree(size, used, Needs(n, ind0, bn + 1)) == FirstFree(size, used, Needs(n, ind0, bn))
            + {b} + (if bn >= NDIRECT && ind1 == 0 then {ind} else {})
  {
    var k := Needs(n, ind0, bn);
    if bn >= NDIRECT && ind1 == 0 {
      FirstNext(size, used, k, ind);
      assert used + FirstFree(size, used, k + 1) == used + FirstFree(size, used, k) + {ind};
      FirstNext(size, used, k + 1, b);
      assert Needs(n, ind0, bn + 1) == k + 2;
    } else {
      FirstNext(size, used, k, b);
      assert Needs(n, ind0, bn + 1) == k + 1;
    }
  }

  lemma NewNext(sb: Super, v: View, u: View, w: View, i: nat, bn: nat, b: nat, l1: set<nat>, l: set<nat>)
    requires Sized(v, i) && Sized(u, i) && v.nb[i] <= bn && Charged(sb, u, w, i, bn, b, l1, l)
    requires u.owner.Keys == v.owner.Keys + NewBlocks(sb, v, i, bn)
    requires if Ind(v, i) != 0 || bn <= v.nb[i] || bn <= NDIRECT then Ind(u, i) == Ind(v, i) else Ind(u, i) != 0
    ensures NewBlocks(sb, v, i, bn + 1) == NewBlocks(sb, v, i, bn)
            + {b} + (if bn >= NDIRECT && Ind(u, i) == 0 then {Ind(w, i) as nat} else {})
  {
    FreeNext(sb.size, v.owner.Keys, v.nb[i], Ind(v, i), bn, Ind(u, i), Ind(w, i), b);
  }

  lemma BitmapsMore(sb: Super, bs: set<nat>, b: nat)
    ensures Bitmaps(sb, bs + {b}) == Bitmaps(sb, bs) + {sb.BBlock(b)}
  {
  }

  /** The blocks that adding block bn at b logs; ind is the indirect block afterwards. */
  ghost function ForBlock(sb: Super, bn: nat, ind1: Word, ind: Word, b: nat): set<nat> {
    {sb.BBlock(b), b} + (if bn < NDIRECT then {} else if ind1 == 0 then {ind, sb.BBlock(ind)} else {ind})
  }

  lemma WriteSetNext(sb: Super, v: View, i: nat, from: nat, bn: nat, ind1: Word, ind: Word, b: nat)
    requires Sized(v, i) && v.nb[i] <= bn
    requires NewBlocks(sb, v, i, bn + 1) == NewBlocks(sb, v, i, bn)
             + {b} + (if bn >= NDIRECT && ind1 == 0 then {ind as nat} else {})
    requires if Ind(v, i) != 0 || bn <= v.nb[i] || bn <= NDIRECT then ind1 == Ind(v, i)
             else ind1 in NewBlocks(sb, v, i, bn)
    requires ind1 != 0 ==> ind == ind1
    ensures WriteSet(sb, v, i, from, bn + 1) == WriteSet(sb, v, i, from, bn) + ForBlock(sb, bn, ind1, ind, b)
  {
    var added := NewBlocks(sb, v, i, bn);
    assert OldBlocks(v, i, from, bn + 1) == OldBlocks(v, i, from, bn);
    BitmapsMore(sb, added, b);
    if bn >= NDIRECT && ind1 == 0 {
      BitmapsMore(sb, added + {b}, ind);
    } else if bn >= NDIRECT && Ind(v, i) != 0 {
      assert Listing(v, i, bn + 1) == {ind as nat};
    }
  }

  /** The owners after block bn has been added. */
  lemma OwnersNext(sb: Super, v: View, u: View, w: View, i: nat, bn: nat, b: nat, l1: set<nat>, l: set<nat>)
    requires OwnerKept(v.owner, u.owner) && Charged(sb, u, w, i, bn, b, l1, l)
    ensures OwnerKept(v.owner, w.owner)
    ensures w.owner.Keys == u.owner.Keys + {b} + (if bn >= NDIRECT && Ind(u, i) == 0 then {Ind(w, i) as nat} else {})
    ensures l == l1 + ForBlock(sb, bn, Ind(u, i), Ind(w, i), b)
    ensures if bn >= NDIRECT && Ind(u, i) == 0 then Ind(w, i) != 0 else Ind(w, i) == Ind(u, i)
  {
  }

  lemma LogsNew(sb: Super, v: View, l0: set<nat>, u: View, l1: set<nat>, w: View, l: set<nat>,
                i: nat, from: nat, bn: nat, b: nat)
    requires Logs(sb, v, l0, u, l1, i, from, bn) && v.nb[i] <= bn && Turned(sb, u, w, i, bn, b, l1, l)
    ensures Logs(sb, v, l0, w, l, i, from, bn + 1)
  {
    NewNext(sb, v, u, w, i, bn, b, l1, l);
    OwnersNext(sb, v, u, w, i, bn, b, l1, l);
    WriteSetNext(sb, v, i, from, bn, Ind(u, i), Ind(w, i), b);
  }

  /** Adding the indirect block and then the first block listed in it. */
  lemma ChargedBoth(sb: Super, v: View, u: View, w: View, i: nat, bn: nat, b: nat,
                    l0: set<nat>, l1: set<nat>, l: set<nat>)
    requires Sized(v, i) && bn >= NDIRECT && Ind(v, i) == 0 && Charged(sb, u, w, i, bn, b, l1, l) && Ind(u, i) != 0
    requires First(sb.size, v.owner.Keys, Ind(u, i)) && u.owner == v.owner[Ind(u, i) := Indirect(i)]
    requires l1 == l0 + {sb.BBlock(Ind(u, i)), Ind(u, i)}
    ensures Charged(sb, v, w, i, bn, b, l0, l)
  {
    assert u.owner.Keys == v.owner.Keys + {Ind(u, i) as nat};
  }

  // ---------------------------------------------------------------- how many they are

  lemma {:induction false} BitmapsFew(sb: Super, bs: set<nat>)
    ensures |Bitmaps(sb, bs)| <= |bs|
  {
    if bs == {} {
      assert Bitmaps(sb, bs) == {};
    } else {
      var b :| b in bs;
      BitmapsFew(sb, bs - {b});
      assert bs - {b} + {b} == bs;
      BitmapsMore(sb, bs - {b}, b);
    }
  }

  /** The blocks of an inode are all different. */
  lemma {:induction false} OldCount(sb: Super, v: View, i: nat, from: nat, end: nat)
    requires FsOk(sb, v) && i < sb.ninodes && InodeAt(v, i) && from <= end
    ensures |OldBlocks(v, i, from, end)| == Max(0, Min(end, v.nb[i]) - from)
    decreases end
  {
    if from == end || end > v.nb[i] {
      if from < end {
        OldCount(sb, v, i, from, end - 1);
        assert OldBlocks(v, i, from, end) == OldBlocks(v, i, from, end - 1);
      } else {
        assert OldBlocks(v, i, from, end) == {};
      }
    } else {
      OldCount(sb, v, i, from, end - 1);
      var a := BlockOf(v.disk, v.inodes[i], end - 1);
      assert MapAt(v, i, end - 1);
      forall bn | from <= bn < end - 1 ensures BlockOf(v.disk, v.inodes[i], bn) != a { assert MapAt(v, i, bn); }
      assert a !in OldBlocks(v, i, from, end - 1);
      assert OldBlocks(v, i, from, end) == OldBlocks(v, i, from, end - 1) + {a as nat};
    }
  }

  /** What is where: the kinds of blocks a write logs do not overlap. */
  lemma KindsApart(sb: Super, v: View, i: nat, from: nat, to: nat)
    requires FsOk(sb, v) && i < sb.ninodes && InodeAt(v, i)
    ensures var old', added := OldBlocks(v, i, from, to), NewBlocks(sb, v, i, to);
            && old' !! added && old' !! Bitmaps(sb, added) && old' !! Listing(v, i, to)
            && added !! Bitmaps(sb, added) && added !! Listing(v, i, to) && Bitmaps(sb, added) !! Listing(v, i, to)
            && sb.IBlock(i) !in old' + added + Bitmaps(sb, added) + Listing(v, i, to)
  {
    var added := NewBlocks(sb, v, i, to);
    forall b | b in OldBlocks(v, i, from, to)
      ensures b >= sb.datastart && b in v.owner && v.owner[b].Data?
    {
      var bn :| from <= bn < to && bn < v.nb[i] && b == BlockOf(v.disk, v.inodes[i], bn);
      assert MapAt(v, i, bn) && MetaAt(sb, v.owner, b);
    }
    forall b | b in added
      ensures sb.datastart <= b < sb.size && b !in v.owner
    {
      FirstAreFree(sb.size, v.owner.Keys, Needs(v.nb[i], Ind(v, i), to), b);
      assert MetaAt(sb, v.owner, b);
    }
    forall c | c in Bitmaps(sb, added)
      ensures sb.bmapstart <= c < sb.datastart
    {
      var b :| b in added && c == sb.BBlock(b);
      BitmapIsMeta(sb, b);
    }
    assert MetaAt(sb, v.owner, Ind(v, i));
    assert sb.inodestart <= sb.IBlock(i) < sb.bmapstart;
  }

  lemma UnionCount(a: set<nat>, b: set<nat>, c: set<nat>, d: set<nat>)
    requires a !! b && a !! c && a !! d && b !! c && b !! d && c !! d
    ensures |a + b + c + d| == |a| + |b| + |c| + |d|
  {
    assert a + b !! c && a + b + c !! d;
  }

  /** The number of blocks that writing to blocks from..to of inode i logs, the inode's own block aside. */
  ghost function Count(sb: Super, v: View, i: nat, from: nat, to: nat): int
    requires Sized(v, i)
  {
    Max(0, Min(to, v.nb[i]) - from) + Needs(v.nb[i], Ind(v, i), to)
    + |Bitmaps(sb, NewBlocks(sb, v, i, to))| + |Listing(v, i, to)|
  }

  lemma WriteSetCount(sb: Super, v: View, i: nat, from: nat, to: nat)
    requires FsOk(sb, v) && i < sb.ninodes && InodeAt(v, i) && from <= to
    requires Needs(v.nb[i], Ind(v, i), to) <= sb.size - |v.owner|
    ensures sb.IBlock(i) !in WriteSet(sb, v, i, from, to)
    ensures |WriteSet(sb, v, i, from, to)| == Count(sb, v, i, from, to)
    ensures |Bitmaps(sb, NewBlocks(sb, v, i, to))| <= Needs(v.nb[i], Ind(v, i), to)
  {
    var added := NewBlocks(sb, v, i, to);
    KindsApart(sb, v, i, from, to);
    OldCount(sb, v, i, from, to);
    forall b | b in v.owner.Keys ensures b < sb.size { assert MetaAt(sb, v.owner, b); }
    assert |v.owner| == |v.owner.Keys|;
    FirstCount(sb.size, v.owner.Keys, Needs(v.nb[i], Ind(v, i), to));
    BitmapsFew(sb, added);
    UnionCount(OldBlocks(v, i, from, to), added, Bitmaps(sb, added), Listing(v, i, to));
  }

  lemma WithCount(s: set<nat>, x: nat, more: bool)
    requires x !in s
    ensures |With(s, x, more)| == |s| + if more then 1 else 0
  {
  }

  /** The number of blocks a write logs, exactly. */
  lemma LoggedCount(sb: Super, v: View, i: nat, off: nat, n: nat)
    requires FsOk(sb, v) && i < sb.ninodes && InodeAt(v, i)
    requires Needs(v.nb[i], Ind(v, i), Upto(off, n)) <= sb.size - |v.owner|
    ensures |LoggedBy(sb, v, i, off, n)|
            == Count(sb, v, i, From(off), Upto(off, n)) + if Grows(v, i, off, n) then 1 else 0
  {
    WriteSetCount(sb, v, i, From(off), Upto(off, n));
    WithCount(WriteSet(sb, v, i, From(off), Upto(off, n)), sb.IBlock(i), Grows(v, i, off, n));
  }

  /**
   The most blocks writei of n bytes at off can log: the blocks touched, the bitmap blocks of those
   added, the indirect block and its bitmap block, and the inode's block.
   */
  function WriteBudget(off: nat, n: nat): int {
    Turns(off, n) + BlocksFor(off + n) - BlocksFor(off) + 3
  }

  lemma WithinBudget(sb: Super, v: View, i: nat, off: nat, n: nat)
    requires FsOk(sb, v) && i < sb.ninodes && InodeAt(v, i) && BlocksFor(off) <= v.nb[i]
    requires Needs(v.nb[i], Ind(v, i), BlocksFor(off + n)) <= sb.size - |v.owner|
    ensures |LoggedBy(sb, v, i, off, n)| <= WriteBudget(off, n)
  {
    assert if n > 0 then Upto(off, n) == BlocksFor(off + n) else Upto(off, n) <= v.nb[i];
    LoggedCount(sb, v, i, off, n);
    WriteSetCount(sb, v, i, From(off), Upto(off, n));
  }

  const MAXWRITE := 1536 // ((MAXOPBLOCKS-1-1-2) / 2) * 512

  /** filewrite's chunk fits a transaction wherever it starts. */
  lemma BudgetFits(off: nat, n: nat)
    requires n <= MAXWRITE
    ensures WriteBudget(off, n) <= MAXOPBLOCKS
  {
    var q, r := off / BSIZE, off % BSIZE;
    assert off == BSIZE * q + r;
    assert BlocksFor(off) == q + BlocksFor(r) && BlocksFor(off + n) == q + BlocksFor(r + n);
  }

  // ---------------------------------------------------------------- the bound is reached

  /** The first k free blocks lie under k different bitmap blocks. */
  ghost predicate Spread(sb: Super, v: View, k: nat) {
    |Bitmaps(sb, FirstFree(sb.size, v.owner.Keys, k))| == k
  }

  /**
   A chunk that starts on the last byte of a file's direct blocks, with no indirect block yet and the
   next four free blocks under four bitmap blocks, logs exactly an operation's share of the log ...
   */
  lemma TenBlocks(sb: Super, v: View, i: nat)
    requires FsOk(sb, v) && i < sb.ninodes && InodeAt(v, i) && |v.owner| + 4 <= sb.size
    requires v.nb[i] == NDIRECT && Ind(v, i) == 0 && v.inodes[i].size <= BSIZE * NDIRECT && Spread(sb, v, 4)
    ensures |LoggedBy(sb, v, i, BSIZE * NDIRECT - 1, MAXWRITE)| == MAXOPBLOCKS
  {
    var off := BSIZE * NDIRECT - 1;
    assert From(off) == NDIRECT - 1 && Upto(off, MAXWRITE) == NDIRECT + 3;
    assert Count(sb, v, i, NDIRECT - 1, NDIRECT + 3) == MAXOPBLOCKS - 1;
    LoggedCount(sb, v, i, off, MAXWRITE);
  }

  /** ... and one byte more, from the next byte on, is one block too many. */
  lemma ElevenBlocks(sb: Super, v: View, i: nat)
    requires FsOk(sb, v) && i < sb.ninodes && InodeAt(v, i) && |v.owner| + 5 <= sb.size
    requires v.nb[i] == NDIRECT && Ind(v, i) == 0 && v.inodes[i].size <= BSIZE * NDIRECT && Spread(sb, v, 5)
    ensures |LoggedBy(sb, v, i, BSIZE * NDIRECT, MAXWRITE + 1)| == MAXOPBLOCKS + 1
  {
    var off := BSIZE * NDIRECT;
    assert From(off) == NDIRECT && Upto(off, MAXWRITE + 1) == NDIRECT + 4;
    assert Count(sb, v, i, NDIRECT, NDIRECT + 4) == MAXOPBLOCKS;
    LoggedCount(sb, v, i, off, MAXWRITE + 1);
  }
}
