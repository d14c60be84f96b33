/**
 The block layer of fs.c. disk is what bread returns and log_write updates inside
 one operation; logged collects the distinct blocks the operation has logged.
 */
module Fs {
  import opened Common
  import opened Blocks
  import opened FsLayout
  import opened FsState
  import opened FsTrunc
  import opened FsLogged
  import opened LogProtocol

  const T_DEV := 3

  ghost predicate Full(sb: Super, owner: map<nat, Use>) {
    forall c: nat :: c < sb.size ==> c in owner
  }

  /** The disk is full when as many blocks are in use as it has. */
  lemma FullCount(sb: Super, disk: Disk, owner: map<nat, Use>)
    requires BitsOk(sb, disk, owner)
    ensures |owner| <= sb.size && (Full(sb, owner) <==> |owner| == sb.size)
  {
    forall b | b in owner.Keys ensures 0 <= b < 0 + sb.size { assert MetaAt(sb, owner, b); }
    assert |owner| == |owner.Keys|;
    RangeCard(owner.Keys, 0, sb.size);
    if Full(sb, owner) {
      RangeFull(owner.Keys, sb.size);
    } else {
      var c: nat :| c < sb.size && c !in owner;
      RangeCard(owner.Keys + {c}, 0, sb.size);
    }
  }

  /** Blocks below the bitmap, which hold the inodes, are the same on both disks. */
  ghost predicate SameInodeBlocks(sb: Super, d: Disk, e: Disk) {
    |d| == |e| >= sb.bmapstart && d[..sb.bmapstart] == e[..sb.bmapstart]
  }

  /** From v to w only inode i's addresses may differ. */
  ghost predicate SameFields(v: View, w: View, i: nat) {
    i < |v.inodes| == |w.inodes| && w.inodes == v.inodes[i := v.inodes[i].(addrs := w.inodes[i].addrs)]
  }

  /** w is v after inode i has been given block b, all zeros, as its next block. */
  ghost predicate Extends(sb: Super, v: View, w: View, i: nat, b: Word) {
    && SameFields(v, w, i) && SameInodeBlocks(sb, v.disk, w.disk)
    && i < |v.nb| == |v.files| && w.nb == v.nb[i := v.nb[i] + 1]
    && w.files == v.files[i := v.files[i] + Zeros(BSIZE)]
    && v.nb[i] < MAXFILE && |w.inodes[i].addrs| == NDIRECT + 1 && BlockOf(w.disk, w.inodes[i], v.nb[i]) == b
  }

  /** Allocating b, zeroing it and entering it in the inode gives inode i its next block. */
  lemma DirectExtends(sb: Super, v: View, i: nat, b: Word, d: Disk, w: View)
    requires FsOk(sb, v) && i < sb.ninodes && InodeAt(v, i) && v.nb[i] < NDIRECT && b < sb.size && b !in v.owner
    requires BitAt(sb, v.disk, v.owner, b) && d == Allocated(sb, v.disk, b)
    requires w == Grown(v.(disk := d, owner := v.owner[b := Data(i, v.nb[i])]), i, d,
                        v.inodes[i].(addrs := v.inodes[i].addrs[v.nb[i] := b]))
    ensures FsOk(sb, w) && InodeAt(w, i) && Extends(sb, v, w, i, b)
  {
    AllocFrame(sb, v, b, Data(i, v.nb[i]), {});
    var u := v.(disk := d, owner := v.owner[b := Data(i, v.nb[i])]);
    assert InodeAt(u, i);
    assert {} + {b as nat} == {b as nat};
    LinkDirect(sb, u, i, b);
  }

  /** Allocating b, zeroing it and entering it in the indirect block gives inode i its next block. */
  lemma ThroughExtends(sb: Super, v: View, i: nat, b: Word, d: Disk, w: View)
    requires FsOk(sb, v) && i < sb.ninodes && InodeAt(v, i) && NDIRECT <= v.nb[i] < MAXFILE
    requires v.inodes[i].addrs[NDIRECT] != 0 && b < sb.size && b !in v.owner
    requires BitAt(sb, v.disk, v.owner, b) && d == Allocated(sb, v.disk, b)
    requires v.inodes[i].addrs[NDIRECT] < |d|
    requires var ind := v.inodes[i].addrs[NDIRECT];
             var u := v.(disk := d, owner := v.owner[b := Data(i, v.nb[i])]);
             w == Grown(u, i, d[ind := PutWord(d[ind], v.nb[i] - NDIRECT, b)], v.inodes[i])
    ensures FsOk(sb, w) && InodeAt(w, i) && Extends(sb, v, w, i, b) && w.inodes == v.inodes
  {
    AllocFrame(sb, v, b, Data(i, v.nb[i]), {});
    var u := v.(disk := d, owner := v.owner[b := Data(i, v.nb[i])]);
    var ind := v.inodes[i].addrs[NDIRECT];
    assert InodeAt(u, i) && MetaAt(sb, u.owner, ind);
    assert {} + {b as nat} == {b as nat};
    LinkThrough(sb, u, i, b);
    ThroughIs(sb, v, u, w, i, b);
  }

  lemma ThroughIs(sb: Super, v: View, u: View, w: View, i: nat, b: Word)
    requires FsOkBut(sb, u, {b}) && i < sb.ninodes && InodeAt(u, i) && NDIRECT <= u.nb[i] < MAXFILE
    requires u.inodes[i].addrs[NDIRECT] != 0 && b in u.owner && u.owner[b] == Data(i, u.nb[i])
    requires u.inodes[i].addrs[NDIRECT] < |u.disk| && SameInodeBlocks(sb, v.disk, u.disk)
    requires u == v.(disk := u.disk, owner := u.owner)
    requires var ind := u.inodes[i].addrs[NDIRECT];
             w == Grown(u, i, u.disk[ind := PutWord(u.disk[ind], u.nb[i] - NDIRECT, b)], u.inodes[i])
    ensures InodeAt(w, i) && Extends(sb, v, w, i, b) && w.inodes == v.inodes
  {
    var ind := u.inodes[i].addrs[NDIRECT];
    assert MetaAt(sb, u.owner, ind);
    assert w.inodes == v.inodes;
    IndirectEntry(sb, u, i, b, {b}, i, u.nb[i]);
  }

  lemma ThroughCharged(sb: Super, v: View, w: View, i: nat, bn: nat, b: nat, l0: set<nat>, l: set<nat>)
    requires Sized(v, i) && Sized(w, i) && w.inodes == v.inodes && bn >= NDIRECT && Ind(v, i) != 0
    requires First(sb.size, v.owner.Keys, b) && w.owner == v.owner[b := Data(i, bn)]
    requires l == l0 + {sb.BBlock(b), b} + {Ind(v, i)}
    ensures Charged(sb, v, w, i, bn, b, l0, l) && |w.owner| == |v.owner| + 1
  {
  }

  /** u is v with an indirect block sure to be there for inode i, which was logged if it is new. */
  ghost predicate Listable(sb: Super, v: View, u: View, i: nat, l0: set<nat>, l1: set<nat>) {
    && Sized(v, i) && Sized(u, i) && Ind(u, i) != 0
    && if Ind(v, i) != 0 then u == v && l1 == l0
       else
         && SameFields(v, u, i) && SameInodeBlocks(sb, v.disk, u.disk) && u.nb == v.nb && u.files == v.files
         && First(sb.size, v.owner.Keys, Ind(u, i)) && u.owner == v.owner[Ind(u, i) := Indirect(i)]
         && |u.owner| == |v.owner| + 1 && l1 == l0 + {sb.BBlock(Ind(u, i)), Ind(u, i)}
  }

  /** Adding a block through the indirect block, after that has been added too if need be. */
  lemma ListedExtends(sb: Super, v: View, u: View, w: View, i: nat, bn: nat, b: Word,
                      l0: set<nat>, l1: set<nat>, l: set<nat>)
    requires Listable(sb, v, u, i, l0, l1) && Extends(sb, u, w, i, b) && w.inodes == u.inodes
    requires NDIRECT <= bn == u.nb[i] && Charged(sb, u, w, i, bn, b, l1, l) && |w.owner| == |u.owner| + 1
    ensures Extends(sb, v, w, i, b) && Charged(sb, v, w, i, bn, b, l0, l)
    ensures |w.owner| == |v.owner| + Needs(bn, Ind(v, i), bn + 1)
  {
    if Ind(v, i) == 0 { ChargedBoth(sb, v, u, w, i, bn, b, l0, l1, l); }
  }

  /** An inode's address slots are zero exactly past its last block. */
  lemma Mapped(sb: Super, v: View, i: nat, bn: nat)
    requires FsOk(sb, v) && i < sb.ninodes && InodeAt(v, i) && bn < MAXFILE
    ensures BlockOf(v.disk, v.inodes[i], bn) == 0 <==> bn >= v.nb[i]
    ensures BlockOf(v.disk, v.inodes[i], bn) < |v.disk| && v.inodes[i].addrs[NDIRECT] < |v.disk|
    ensures bn < v.nb[i] ==>
              BSIZE * bn + BSIZE <= |v.files[i]| && v.disk[BlockOf(v.disk, v.inodes[i], bn)] == Slice(v.files[i], bn)
  {
    assert MapAt(v, i, bn) && MetaAt(sb, v.owner, v.inodes[i].addrs[NDIRECT]);
    assert MetaAt(sb, v.owner, BlockOf(v.disk, v.inodes[i], bn)) && MetaAt(sb, v.owner, 0);
  }

  /** The slot of inode j on disk holds what is in memory. */
  ghost predicate OnDisk(sb: Super, v: View, j: nat) {
    j < |v.inodes| ==> sb.IBlock(j) < |v.disk| && GetInode(v.disk[sb.IBlock(j)], j % IPB) == v.inodes[j]
  }

  lemma UpdatedOnDisk(sb: Super, v: View, i: nat, w: View, j: nat)
    requires i < |v.inodes| && |v.inodes[i].addrs| == NDIRECT + 1 && sb.IBlock(i) < |v.disk|
    requires w == v.(disk := v.disk[sb.IBlock(i) := PutInode(v.disk[sb.IBlock(i)], i % IPB, v.inodes[i])])
    requires OnDisk(sb, v, j) || j == i
    ensures OnDisk(sb, w, j)
  {
    if sb.IBlock(j) == sb.IBlock(i) {
      GetPutInode(v.disk[sb.IBlock(i)], i % IPB, v.inodes[i], j % IPB);
      assert j % IPB == i % IPB ==> i == j;
    }
  }

  lemma SliceOf(f: seq<Byte>, bn: nat, at: nat, m: nat)
    requires at + m <= BSIZE && BSIZE * bn + BSIZE <= |f|
    ensures Slice(f, bn)[at..at + m] == f[BSIZE * bn + at..BSIZE * bn + at + m]
  {
    var s := BSIZE * bn;
    var l, r := Slice(f, bn)[at..at + m], f[s + at..s + at + m];
    forall k | 0 <= k < m ensures l[k] == r[k] { assert l[k] == f[s..s + BSIZE][at + k] == f[s + at + k]; }
    assert l == r;
  }

  lemma TextPart(f: seq<Byte>, size: nat, off: nat, tot: nat, m: nat)
    requires off + tot + m <= size <= |f|
    ensures f[..size][off..off + tot] + f[off + tot..off + tot + m] == f[..size][off..off + tot + m]
  {
  }

  /** A file's text: its first size bytes. */
  ghost function Text(v: View, i: nat): seq<Byte>
    requires i < |v.inodes| == |v.files| && v.inodes[i].size <= |v.files[i]|
  {
    v.files[i][..v.inodes[i].size]
  }

  /** w is v with block bn of inode i sure to be there; if it was not, the file is longer by a block of zeros. */
  ghost predicate Reaches(sb: Super, v: View, w: View, i: nat, bn: nat) {
    && SameFields(v, w, i) && SameInodeBlocks(sb, v.disk, w.disk)
    && i < |v.nb| == |v.files| && w.nb == v.nb[i := Max(v.nb[i], bn + 1)]
    && |v.files[i]| <= BSIZE * w.nb[i] && w.files == v.files[i := Padded(v.files[i], w.nb[i])]
    && (w.nb == v.nb ==> w.inodes == v.inodes)
  }

  lemma AlreadyThere(sb: Super, v: View, i: nat, bn: nat)
    requires FsOk(sb, v) && i < sb.ninodes && InodeAt(v, i) && bn < v.nb[i]
    ensures Reaches(sb, v, v, i, bn)
  {
    assert Padded(v.files[i], v.nb[i]) == v.files[i];
    assert v.nb[i := v.nb[i]] == v.nb && v.files[i := v.files[i]] == v.files && v.inodes[i := v.inodes[i]] == v.inodes;
  }

  lemma JustAdded(sb: Super, v: View, w: View, i: nat, b: Word)
    requires FsOk(sb, v) && i < sb.ninodes && InodeAt(v, i) && Extends(sb, v, w, i, b)
    ensures Reaches(sb, v, w, i, v.nb[i])
  {
    assert Padded(v.files[i], w.nb[i]) == v.files[i] + Zeros(BSIZE);
    assert w.nb[i] != v.nb[i];
  }

  /** w is v with s written at off of inode i's blocks, which grow to hold it. */
  ghost predicate Wrote(sb: Super, v: View, w: View, i: nat, off: nat, s: seq<Byte>) {
    && SameFields(v, w, i) && SameInodeBlocks(sb, v.disk, w.disk)
    && i < |v.nb| == |v.files| && w.nb == v.nb[i := Max(v.nb[i], BlocksFor(off + |s|))]
    && |v.files[i]| <= BSIZE * w.nb[i] && off + |s| <= BSIZE * w.nb[i]
    && w.files == v.files[i := Overlay(Padded(v.files[i], w.nb[i]), off, s)]
    && (w.nb == v.nb ==> w.inodes == v.inodes)
  }

  lemma WroteNone(sb: Super, v: View, i: nat, off: nat)
    requires FsOk(sb, v) && i < sb.ninodes && InodeAt(v, i) && off <= BSIZE * v.nb[i]
    ensures Wrote(sb, v, v, i, off, [])
  {
    assert Overlay(Padded(v.files[i], v.nb[i]), off, []) == v.files[i];
    assert v.nb[i := v.nb[i]] == v.nb && v.files[i := v.files[i]] == v.files && v.inodes[i := v.inodes[i]] == v.inodes;
  }

  lemma WroteMore(sb: Super, v: View, u: View, w: View, i: nat, off: nat, s: seq<Byte>, at: nat, t: seq<Byte>)
    requires at == off + |s| && Wrote(sb, v, u, i, off, s) && Wrote(sb, u, w, i, at, t)
    requires |v.files[i]| <= BSIZE * v.nb[i]
    ensures Wrote(sb, v, w, i, off, s + t)
  {
    OverlayMore(v.files[i], u.nb[i], w.nb[i], off, s, t);
    assert u.nb[i] >= v.nb[i] && w.nb[i] >= u.nb[i];
    assert BlocksFor(at) <= BlocksFor(at + |t|);
    if w.nb == v.nb { assert u.nb[i] == v.nb[i] && u.nb == v.nb; }
  }

  lemma OneChunk(off: nat, n: nat)
    requires n > 0 && off % BSIZE + n <= BSIZE
    ensures BSIZE * (off / BSIZE) + off % BSIZE == off
    ensures BlocksFor(off + n) == off / BSIZE + 1 && Turns(off, n) == 1
  {
  }

  /** Past its first turn, writei's loop is at a block boundary until it is done. */
  ghost predicate OnBoundary(off: nat, tot: nat, n: nat) {
    0 < tot < n ==> (off + tot) % BSIZE == 0
  }

  lemma NextChunk(off: nat, tot: nat, n: nat, m: int)
    requires tot < n && OnBoundary(off, tot, n) && m == Min(n - tot, BSIZE - (off + tot) % BSIZE)
    ensures m > 0 && (off + tot) % BSIZE + m <= BSIZE && OnBoundary(off, tot + m, n)
  {
  }

  /** A write changes the file's bytes, takes blocks, and logs blocks. */
  datatype Aspect = Bytes | Blocks | Log

  ghost predicate Advanced(a: Aspect, sb: Super, v: View, l0: set<nat>, w: View, l: set<nat>,
                           i: nat, off: nat, s: seq<Byte>)
  {
    match a
    case Bytes => Wrote(sb, v, w, i, off, s)
    case Blocks => Took(v, w, i)
    case Log => Logs(sb, v, l0, w, l, i, From(off), Upto(off, |s|))
  }

  /** From v with l0 logged to w with l logged, s was written at off of inode i. */
  ghost predicate Progress(sb: Super, v: View, l0: set<nat>, w: View, l: set<nat>, i: nat, off: nat, s: seq<Byte>) {
    forall a: Aspect :: Advanced(a, sb, v, l0, w, l, i, off, s)
  }

  lemma ProgressIs(sb: Super, v: View, l0: set<nat>, w: View, l: set<nat>, i: nat, off: nat, s: seq<Byte>)
    requires Progress(sb, v, l0, w, l, i, off, s)
    ensures Wrote(sb, v, w, i, off, s) && Took(v, w, i) && Logs(sb, v, l0, w, l, i, From(off), Upto(off, |s|))
  {
    assert Advanced(Bytes, sb, v, l0, w, l, i, off, s);
    assert Advanced(Blocks, sb, v, l0, w, l, i, off, s);
    assert Advanced(Log, sb, v, l0, w, l, i, off, s);
  }

  /** From v to w inode i has taken exactly the blocks that its growth needs. */
  ghost predicate Took(v: View, w: View, i: nat) {
    && i < |v.inodes| == |w.inodes| && |v.inodes[i].addrs| == |w.inodes[i].addrs| == NDIRECT + 1
    && i < |v.nb| == |w.nb| && v.nb[i] <= w.nb[i]
    && |w.owner| == |v.owner| + Needs(v.nb[i], v.inodes[i].addrs[NDIRECT], w.nb[i])
    && (w.inodes[i].addrs[NDIRECT] == 0
        <==> v.inodes[i].addrs[NDIRECT] == 0 && !(w.nb[i] > v.nb[i] && w.nb[i] > NDIRECT))
  }

  lemma TookMore(v: View, u: View, w: View, i: nat)
    requires Took(v, u, i) && Took(u, w, i)
    ensures Took(v, w, i)
  {
  }

  lemma ChunkWrote(sb: Super, v: View, u: View, w: View, i: nat, off: nat, bn: nat, s: seq<Byte>)
    requires s != [] && bn == off / BSIZE && off % BSIZE + |s| <= BSIZE && Reaches(sb, v, u, i, bn)
    requires SameInodeBlocks(sb, u.disk, w.disk) && BSIZE * bn + BSIZE <= |u.files[i]|
    requires w == u.(disk := w.disk,
                     files := u.files[i := Overlay(u.files[i], BSIZE * bn + off % BSIZE, s)])
    ensures Wrote(sb, v, w, i, off, s)
  {
    OneChunk(off, |s|);
  }

  lemma NoProgress(sb: Super, v: View, l: set<nat>, i: nat, off: nat)
    requires FsOk(sb, v) && i < sb.ninodes && InodeAt(v, i) && off <= BSIZE * v.nb[i]
    ensures Progress(sb, v, l, v, l, i, off, [])
  {
    WroteNone(sb, v, i, off);
    LogsNone(sb, v, l, i, From(off));
  }

  /** One turn of writei's loop writes s, all in one block, and logs what b and that block call for. */
  ghost predicate Chunk(sb: Super, v: View, l0: set<nat>, w: View, l: set<nat>, i: nat, off: nat, s: seq<Byte>, b: nat)
  {
    && s != [] && off % BSIZE + |s| <= BSIZE
    && Wrote(sb, v, w, i, off, s) && Took(v, w, i) && Turned(sb, v, w, i, off / BSIZE, b, l0, l)
  }

  /** Writing to the block that was reached changes nothing that the accounts mention. */
  lemma ChunkTurned(sb: Super, v: View, u: View, w: View, i: nat, bn: nat, b: nat, l0: set<nat>, l: set<nat>)
    requires Turned(sb, v, u, i, bn, b, l0, l) && Took(v, u, i)
    requires w == u.(disk := w.disk, files := w.files)
    ensures Turned(sb, v, w, i, bn, b, l0, l) && Took(v, w, i)
  {
  }

  /** A turn takes the write one block further. */
  lemma TurnsOn(off: nat, n: nat, at: nat, m: nat)
    requires at == off + n && (n > 0 ==> at % BSIZE == 0) && m > 0 && at % BSIZE + m <= BSIZE
    ensures at / BSIZE == Upto(off, n) >= From(off) && Upto(off, n + m) == Upto(off, n) + 1
  {
  }

  lemma ChunkLogs(sb: Super, v: View, l0: set<nat>, u: View, l1: set<nat>, w: View, l: set<nat>,
                  i: nat, from: nat, bn: nat, to: nat, b: nat)
    requires Settled(v, i) && from <= bn && to == bn + 1
    requires Logs(sb, v, l0, u, l1, i, from, bn) && Turned(sb, u, w, i, bn, b, l1, l)
    ensures Logs(sb, v, l0, w, l, i, from, to)
  {
    if bn < v.nb[i] {
      LogsOld(sb, v, l0, u, l1, w, l, i, from, bn, b);
    } else {
      LogsNew(sb, v, l0, u, l1, w, l, i, from, bn, b);
    }
  }

  lemma MoreProgress(sb: Super, v: View, l0: set<nat>, u: View, l1: set<nat>, w: View, l: set<nat>,
                     i: nat, off: nat, s: seq<Byte>, at: nat, t: seq<Byte>, b: nat)
    requires Settled(v, i) && at == off + |s| && (s != [] ==> at % BSIZE == 0)
    requires Progress(sb, v, l0, u, l1, i, off, s) && Chunk(sb, u, l1, w, l, i, at, t, b)
    ensures Progress(sb, v, l0, w, l, i, off, s + t)
  {
    var n := |s + t|;
    ProgressIs(sb, v, l0, u, l1, i, off, s);
    WroteMore(sb, v, u, w, i, off, s, at, t);
    TurnsOn(off, |s|, at, |t|);
    ChunkLogs(sb, v, l0, u, l1, w, l, i, From(off), Upto(off, |s|), Upto(off, n), b);
    TookMore(v, u, w, i);
  }

  /** There are not enough free blocks for inode i to have m blocks. */
  ghost predicate Scarce(sb: Super, v: View, i: nat, m: nat) {
    && i < |v.inodes| && |v.inodes[i].addrs| == NDIRECT + 1 && i < |v.nb|
    && sb.size - |v.owner| < Needs(v.nb[i], v.inodes[i].addrs[NDIRECT], m)
  }

  /** If the blocks that remain at u are too few, those that there were at v are too few for as much or more. */
  lemma ScarceSince(sb: Super, v: View, u: View, i: nat, k: nat, m: nat)
    requires Took(v, u, i) && Scarce(sb, u, i, k) && k <= m && |u.owner| <= sb.size
    ensures Scarce(sb, v, i, m)
  {
  }

  /** A write that succeeds had the blocks it needed. */
  lemma NotScarce(sb: Super, v: View, w: View, i: nat, m: nat)
    requires BitsOk(sb, w.disk, w.owner) && Took(v, w, i) && w.nb[i] == Max(v.nb[i], m)
    ensures !Scarce(sb, v, i, m)
  {
    FullCount(sb, w.disk, w.owner);
  }

  /** The next block to write is one the file has, or the next one. */
  lemma InReach(sb: Super, v: View, l0: set<nat>, u: View, l1: set<nat>, i: nat, off: nat, s: seq<Byte>, at: nat)
    requires Progress(sb, v, l0, u, l1, i, off, s) && at == off + |s|
    ensures i < |u.nb| && at / BSIZE <= u.nb[i]
  {
    ProgressIs(sb, v, l0, u, l1, i, off, s);
  }

  /** What one more turn comes to, since v. */
  lemma TurnDone(sb: Super, v: View, l0: set<nat>, u: View, l1: set<nat>, w: View, l: set<nat>, i: nat,
                 off: nat, s: seq<Byte>, at: nat, t: seq<Byte>, m: nat, ok: bool, b: nat)
    requires Settled(v, i) && Progress(sb, v, l0, u, l1, i, off, s) && |u.owner| <= sb.size
    requires at == off + |s| && (s != [] ==> at % BSIZE == 0) && at / BSIZE + 1 <= m
    requires if ok then Chunk(sb, u, l1, w, l, i, at, t, b) else Scarce(sb, u, i, at / BSIZE + 1)
    ensures if ok then Progress(sb, v, l0, w, l, i, off, s + t) else Scarce(sb, v, i, m)
  {
    if ok {
      MoreProgress(sb, v, l0, u, l1, w, l, i, off, s, at, t, b);
    } else {
      ProgressIs(sb, v, l0, u, l1, i, off, s);
      ScarceSince(sb, v, u, i, at / BSIZE + 1, m);
    }
  }

  datatype Outcome = Failed | Panicked | Done(n: nat)

  /** When writei returns -1. */
  predicate Refused(size: nat, off: nat, n: nat) {
    off > size || off + n >= WRAP || off + n > MAXFILE * BSIZE
  }

  /** Between operations: an inode has the blocks its size calls for, and its slot on disk is current. */
  ghost predicate SteadyAt(sb: Super, v: View, j: nat) {
    j < |v.inodes| == |v.nb| ==> v.nb[j] == BlocksFor(v.inodes[j].size) && OnDisk(sb, v, j)
  }

  /** Only inode i's text, size and addresses differ, and its text is the old one with s spliced in at off. */
  ghost predicate Written(v: View, w: View, i: nat, off: nat, s: seq<Byte>) {
    && i < |v.inodes| == |v.files| && |w.inodes| == |w.files| == |v.files|
    && off <= v.inodes[i].size <= |v.files[i]| && w.inodes[i].size <= |w.files[i]|
    && w.inodes == v.inodes[i := v.inodes[i].(size := w.inodes[i].size, addrs := w.inodes[i].addrs)]
    && w.inodes[i].size == Max(v.inodes[i].size, off + |s|)
    && w.files == v.files[i := w.files[i]]
    && Text(w, i) == Spliced(Text(v, i), off, s)
  }

  lemma StillOnDisk(sb: Super, v: View, w: View, j: nat)
    requires sb.Valid() && |v.inodes| == |w.inodes| == sb.ninodes && j < sb.ninodes
    requires OnDisk(sb, v, j) && SameInodeBlocks(sb, v.disk, w.disk) && w.inodes[j] == v.inodes[j]
    ensures OnDisk(sb, w, j)
  {
    assert w.disk[..sb.bmapstart][sb.IBlock(j)] == v.disk[..sb.bmapstart][sb.IBlock(j)];
  }

  /** A write within the file touches neither the size nor the addresses. */
  lemma WriteStays(sb: Super, v: View, w: View, i: nat, off: nat, s: seq<Byte>)
    requires FsOk(sb, v) && i < sb.ninodes && InodeAt(v, i) && (forall j: nat :: SteadyAt(sb, v, j))
    requires Wrote(sb, v, w, i, off, s) && off <= v.inodes[i].size && off + |s| <= v.inodes[i].size
    ensures Written(v, w, i, off, s) && forall j: nat :: SteadyAt(sb, w, j)
  {
    assert SteadyAt(sb, v, i);
    assert w.nb == v.nb && w.inodes == v.inodes;
    forall j: nat ensures SteadyAt(sb, w, j) {
      assert SteadyAt(sb, v, j);
      if j < sb.ninodes { StillOnDisk(sb, v, w, j); }
    }
    OverlayText(v.files[i], w.nb[i], v.inodes[i].size, off, s);
  }

  /** A write past the end sets the size, and iupdate puts the new inode u on the disk of x. */
  lemma WriteGrows(sb: Super, v: View, w: View, u: View, x: View, i: nat, off: nat, s: seq<Byte>)
    requires FsOk(sb, v) && i < sb.ninodes && InodeAt(v, i) && (forall j: nat :: SteadyAt(sb, v, j))
    requires Wrote(sb, v, w, i, off, s) && off <= v.inodes[i].size < off + |s| < WRAP
    requires u == w.(inodes := w.inodes[i := w.inodes[i].(size := off + |s|)])
    requires x.inodes == u.inodes && x.nb == u.nb && x.files == u.files
    requires forall j: nat :: OnDisk(sb, u, j) || j == i ==> OnDisk(sb, x, j)
    ensures Written(v, x, i, off, s) && forall j: nat :: SteadyAt(sb, x, j)
  {
    assert SteadyAt(sb, v, i);
    forall j: nat ensures SteadyAt(sb, x, j) {
      assert SteadyAt(sb, v, j);
      if j < sb.ninodes && j != i { StillOnDisk(sb, v, u, j); }
    }
    OverlayText(v.files[i], w.nb[i], v.inodes[i].size, off, s);
  }

  /** The blocks written, and the inode's block if the size was set. */
  lemma AllLogged(sb: Super, v: View, i: nat, off: nat, n: nat, l0: set<nat>, l1: set<nat>, l: set<nat>)
    requires Sized(v, i) && l1 == l0 + WriteSet(sb, v, i, From(off), Upto(off, n))
    requires l == l1 + if n > 0 && off + n > v.inodes[i].size then {sb.IBlock(i)} else {}
    ensures l == l0 + LoggedBy(sb, v, i, off, n)
  {
  }

  /** A write of a chunk that succeeds logs no more than an operation's share of the log. */
  lemma FitsShare(sb: Super, v: View, i: nat, off: nat, n: nat, l: set<nat>)
    requires FsOk(sb, v) && i < sb.ninodes && InodeAt(v, i) && SteadyAt(sb, v, i) && n <= MAXWRITE
    requires off <= v.inodes[i].size && !Scarce(sb, v, i, BlocksFor(off + n))
    requires l == {} + LoggedBy(sb, v, i, off, n)
    ensures |l| <= MAXOPBLOCKS
  {
    assert l == LoggedBy(sb, v, i, off, n);
    WithinBudget(sb, v, i, off, n);
    BudgetFits(off, n);
  }

  /** Every transaction stays within an operation's share of the log. */
  ghost predicate AllFit(ops: seq<set<nat>>) {
    forall k :: 0 <= k < |ops| ==> |ops[k]| <= MAXOPBLOCKS
  }

  /** The first tot bytes of src have been written at pos. */
  ghost predicate Prefixed(v: View, w: View, i: nat, pos: nat, src: seq<Byte>, tot: nat) {
    tot <= |src| && ((tot == 0 && w == v) || Written(v, w, i, pos, src[..tot]))
  }

  lemma PrefixedMore(v: View, u: View, w: View, i: nat, pos: nat, src: seq<Byte>, tot: nat, m: nat)
    requires tot + m <= |src| && Prefixed(v, u, i, pos, src, tot) && Written(u, w, i, pos + tot, src[tot..tot + m])
    ensures Prefixed(v, w, i, pos, src, tot + m)
  {
    if tot == 0 && u == v {
      assert src[..m] == src[0..m];
    } else {
      assert src[..tot] + src[tot..tot + m] == src[..tot + m];
      SplicedMore(Text(v, i), pos, src[..tot], src[tot..tot + m]);
    }
  }

  /** From o to p blocks were freed, and from l0 to l exactly their bitmap blocks were logged. */
  ghost predicate Frees(sb: Super, o: map<nat, Use>, p: map<nat, Use>, l0: set<nat>, l: set<nat>) {
    p.Keys <= o.Keys && l == l0 + Bitmaps(sb, o.Keys - p.Keys)
  }

  lemma FreesNone(sb: Super, o: map<nat, Use>, l: set<nat>)
    ensures Frees(sb, o, o, l, l)
  {
    assert o.Keys - o.Keys == {};
  }

  lemma FreesOne(sb: Super, o: map<nat, Use>, b: nat, l: set<nat>)
    requires b in o
    ensures Frees(sb, o, o - {b}, l, l + {sb.BBlock(b)})
  {
    assert (o - {b}).Keys == o.Keys - {b};
    assert o.Keys - (o.Keys - {b}) == {b};
    assert Bitmaps(sb, {b}) == {sb.BBlock(b)};
  }

  lemma FreesMore(sb: Super, o: map<nat, Use>, p: map<nat, Use>, q: map<nat, Use>,
                  l0: set<nat>, l1: set<nat>, l: set<nat>)
    requires Frees(sb, o, p, l0, l1) && Frees(sb, p, q, l1, l)
    ensures Frees(sb, o, q, l0, l)
  {
    var a, b := o.Keys - p.Keys, p.Keys - q.Keys;
    assert o.Keys - q.Keys == a + b;
    assert Bitmaps(sb, a + b) == Bitmaps(sb, a) + Bitmaps(sb, b);
  }

  /** However many blocks are freed, there are only so many bitmap blocks. */
  lemma BitmapFew(sb: Super, v: View, o: map<nat, Use>, b: nat)
    requires BitsOk(sb, v.disk, v.owner)
    ensures |Bitmaps(sb, v.owner.Keys - o.Keys) + {b}| <= sb.size / BPB + 2
  {
    var bs := v.owner.Keys - o.Keys;
    forall c | c in Bitmaps(sb, bs)
      ensures sb.bmapstart <= c < sb.bmapstart + (sb.size / BPB + 1)
    {
      var d :| d in bs && c == sb.BBlock(d);
      assert MetaAt(sb, v.owner, d);
    }
    RangeCard(Bitmaps(sb, bs), sb.bmapstart, sb.size / BPB + 1);
  }

  lemma TruncSteady(sb: Super, v: View, w: View, u: View, x: View, i: nat)
    requires FsOk(sb, v) && i < sb.ninodes && InodeAt(v, i) && (forall j: nat :: SteadyAt(sb, v, j))
    requires |w.inodes| == |v.inodes| && w.inodes == v.inodes[i := w.inodes[i]] && w.nb == v.nb[i := 0]
    requires SameData(sb, v.disk, w.disk)
    requires u == w.(inodes := w.inodes[i := w.inodes[i].(size := 0)])
    requires x.inodes == u.inodes && x.nb == u.nb
    requires forall j: nat :: OnDisk(sb, u, j) || j == i ==> OnDisk(sb, x, j)
    ensures forall j: nat :: SteadyAt(sb, x, j)
  {
    forall j: nat ensures SteadyAt(sb, x, j) {
      assert SteadyAt(sb, v, j);
      if j < sb.ninodes && j != i {
        assert SameAt(sb, v.disk, w.disk, sb.IBlock(j));
        assert OnDisk(sb, u, j);
      }
    }
  }

  class FileSystem {
    const sb: Super
    var disk: Disk
    var inodes: seq<Inode>
    ghost var nb: seq<nat>
    ghost var owner: map<nat, Use>
    ghost var files: seq<seq<Byte>>
    ghost var logged: set<nat>
    ghost const start: Disk       // the disk the object was made over
    ghost var trace: seq<Write>   // every log_write since, in order

    ghost function V(): View
      reads this
    {
      View(disk, inodes, nb, owner, files)
    }

    /** The disk is what the log_writes have made of the one at the start. */
    ghost predicate Traced()
      reads this
    {
      forall d: Disk :: d == start ==> disk == Apply(d, trace)
    }

    ghost predicate Valid()
      reads this
    {
      FsOk(sb, V()) && Traced()
    }

    ghost predicate Has(i: nat)
      reads this
    {
      Valid() && i < sb.ninodes && InodeAt(V(), i)
    }

    /** Every inode is settled: true between operations. */
    ghost predicate Steady()
      reads this
    {
      forall j: nat :: SteadyAt(sb, V(), j)
    }

    constructor (s: Super, v: View)
      requires FsOk(s, v)
      ensures sb == s && Valid() && V() == v && logged == {} && start == v.disk && trace == []
    {
      sb, disk, inodes := s, v.disk, v.inodes;
      nb, owner, files, logged := v.nb, v.owner, v.files, {};
      start, trace := v.disk, [];
    }

    /** log_write of block b with new contents. */
    method LogWrite(b: nat, data: Block)
      requires b < |disk| && Traced()
      modifies this`disk, this`logged, this`trace
      ensures disk == old(disk)[b := data] && logged == old(logged) + {b}
      ensures Traced() && trace == old(trace) + [Write(0, b, data)]
    {
      assert |Apply(start, trace)| == |disk|;
      ApplyAppend(start, trace, Write(0, b, data));
      disk := disk[b := data];
      logged := logged + {b};
      trace := trace + [Write(0, b, data)];
    }

    /** The inner loop of balloc: the first clear bit of one bitmap block. */
    method ScanBits(b: nat) returns (bi: nat)
      requires BitsOk(sb, disk, owner) && b % BPB == 0 && b < sb.size
      ensures bi <= BPB && (bi < BPB && b + bi < sb.size ==> b + bi !in owner)
      ensures forall c: nat :: b <= c < b + bi ==> c in owner
      ensures bi == BPB || b + bi <= sb.size
    {
      bi := 0;
      assert BitAt(sb, disk, owner, b);
      var data := disk[sb.BBlock(b)];
      while bi < BPB && b + bi < sb.size
        invariant bi <= BPB && (bi == BPB || b + bi <= sb.size)
        invariant forall c: nat :: b <= c < b + bi ==> c in owner
      {
        assert BitAt(sb, disk, owner, b + bi);
        assert (b + bi) / BPB == b / BPB && (b + bi) % BPB == bi;
        if !GetBit(data, bi) { return; }
        bi := bi + 1;
      }
    }

    /** balloc: the first free block, marked and zeroed; None stands for its panic. */
    method Balloc() returns (r: Option<Word>)
      requires BitsOk(sb, disk, owner) && Traced()
      modifies this`disk, this`logged, this`trace
      ensures Traced()
      ensures r.None? <==> Full(sb, owner)
      ensures r.None? ==> disk == old(disk) && logged == old(logged)
      ensures r.Some? ==>
                && First(sb.size, owner.Keys, r.value)
                && r.value !in owner && (forall c: nat :: c < r.value ==> c in owner)
                && BitAt(sb, old(disk), owner, r.value)
                && disk == Allocated(sb, old(disk), r.value)
                && logged == old(logged) + {sb.BBlock(r.value), r.value}
    {
      var b := 0;
      while b < sb.size
        invariant b % BPB == 0 && disk == old(disk) && logged == old(logged) && Traced()
        invariant forall c: nat :: c < b && c < sb.size ==> c in owner
      {
        var bi := ScanBits(b);
        if bi < BPB && b + bi < sb.size {
          var c: nat := b + bi;
          assert BitAt(sb, disk, owner, c) && c / BPB == b / BPB && c % BPB == bi;
          assert c < sb.size && c !in owner;
          LowestFrom(sb.size, owner.Keys, 0, c);
          LogWrite(sb.BBlock(b), SetBit(disk[sb.BBlock(b)], bi));
          LogWrite(c, ZERO);
          return Some(c);
        }
        b := b + BPB;
      }
      return None;
    }

    /** bfree; false stands for the panic on a block that is already free. */
    method Bfree(b: nat) returns (ok: bool)
      requires BitsOk(sb, disk, owner) && b < sb.size && Traced()
      modifies this`disk, this`logged, this`trace
      ensures Traced()
      ensures BitAt(sb, old(disk), owner, b)
      ensures ok <==> b in owner
      ensures !ok ==> disk == old(disk) && logged == old(logged)
      ensures ok ==> disk == Released(sb, old(disk), b) && logged == old(logged) + {sb.BBlock(b)}
    {
      assert BitAt(sb, disk, owner, b);
      var data := disk[sb.BBlock(b)];
      if !GetBit(data, b % BPB) { return false; }
      LogWrite(sb.BBlock(b), ClearBit(data, b % BPB));
      return true;
    }

    // -------------------------------------------------------------- bmap

    /** bmap of the next block, when it is direct. */
    method GrowDirect(i: nat, bn: nat) returns (r: Option<Word>)
      requires Has(i) && bn == nb[i] < NDIRECT
      modifies this
      ensures Has(i)
      ensures r.None? <==> old(Full(sb, owner))
      ensures r.None? ==> V() == old(V()) && logged == old(logged)
      ensures r.Some? ==> Extends(sb, old(V()), V(), i, r.value)
      ensures r.Some? ==> Charged(sb, old(V()), V(), i, bn, r.value, old(logged), logged) && |owner| == |old(owner)| + 1
    {
      r := Balloc();
      if r.None? { return; }
      inodes := inodes[i := inodes[i].(addrs := inodes[i].addrs[bn := r.value])];
      owner := owner[r.value := Data(i, nb[i])];
      files := files[i := files[i] + Zeros(BSIZE)];
      nb := nb[i := nb[i] + 1];
      DirectExtends(sb, old(V()), i, r.value, disk, V());
    }

    /** bmap of the first indirect block: give the inode an indirect block. */
    method GrowIndirect(i: nat) returns (r: Option<Word>)
      requires Has(i) && inodes[i].addrs[NDIRECT] == 0
      modifies this`disk, this`logged, this`trace, this`owner, this`inodes
      ensures Has(i)
      ensures r.None? <==> old(Full(sb, owner))
      ensures r.None? ==> V() == old(V()) && logged == old(logged)
      ensures r.Some? ==>
                && SameInodeBlocks(sb, old(disk), disk)
                && r.value != 0 && First(sb.size, old(owner).Keys, r.value)
                && owner == old(owner)[r.value := Indirect(i)] && |owner| == |old(owner)| + 1
                && inodes == old(inodes)[i := old(inodes[i]).(addrs := old(inodes[i].addrs)[NDIRECT := r.value])]
                && logged == old(logged) + {sb.BBlock(r.value), r.value}
    {
      assert InodeAt(V(), i);
      r := Balloc();
      if r.None? { return; }
      AllocFrame(sb, old(V()), r.value, Indirect(i), {});
      owner := owner[r.value := Indirect(i)];
      assert InodeAt(V(), i);
      LinkIndirect(sb, V(), i, r.value);
      inodes := inodes[i := inodes[i].(addrs := inodes[i].addrs[NDIRECT := r.value])];
    }

    /** bmap of the next block, when its address goes in the indirect block. */
    method GrowThrough(i: nat, bn: nat) returns (r: Option<Word>)
      requires Has(i) && NDIRECT <= bn == nb[i] < MAXFILE && inodes[i].addrs[NDIRECT] != 0
      modifies this
      ensures Has(i)
      ensures r.None? <==> old(Full(sb, owner))
      ensures r.None? ==> V() == old(V()) && logged == old(logged)
      ensures r.Some? ==> Extends(sb, old(V()), V(), i, r.value) && inodes == old(inodes)
      ensures r.Some? ==> Charged(sb, old(V()), V(), i, bn, r.value, old(logged), logged) && |owner| == |old(owner)| + 1
    {
      r := Balloc();
      if r.None? { return; }
      var ind := inodes[i].addrs[NDIRECT];
      assert MetaAt(sb, owner, ind);
      ghost var d := disk;
      LogWrite(ind, PutWord(disk[ind], bn - NDIRECT, r.value));
      owner := owner[r.value := Data(i, nb[i])];
      files := files[i := files[i] + Zeros(BSIZE)];
      nb := nb[i := nb[i] + 1];
      assert inodes[i := inodes[i]] == inodes;
      ThroughExtends(sb, old(V()), i, r.value, d, V());
      ThroughCharged(sb, old(V()), V(), i, bn, r.value, old(logged), logged);
    }

    /** The indirect block of inode i, added if there is none; false stands for a panic. */
    method WithIndirect(i: nat) returns (ok: bool)
      requires Has(i)
      modifies this`disk, this`logged, this`trace, this`owner, this`inodes
      ensures Has(i)
      ensures if ok then Listable(sb, old(V()), V(), i, old(logged), logged)
              else inodes[i].addrs[NDIRECT] == 0 && V() == old(V()) && Full(sb, owner)
    {
      ok := true;
      if inodes[i].addrs[NDIRECT] == 0 {
        var a := GrowIndirect(i);
        ok := a.Some?;
      }
    }

    /** bmap of the next block, through the indirect block that it may need first. */
    method GrowListed(i: nat, bn: nat, ghost v: View, ghost l0: set<nat>) returns (r: Option<Word>)
      requires Has(i) && NDIRECT <= bn == nb[i] < MAXFILE && Listable(sb, v, V(), i, l0, logged)
      modifies this
      ensures Has(i)
      ensures r.None? ==> Full(sb, owner) && V() == old(V())
      ensures r.Some? ==>
                && Extends(sb, v, V(), i, r.value) && Charged(sb, v, V(), i, bn, r.value, l0, logged)
                && |owner| == |v.owner| + Needs(bn, v.inodes[i].addrs[NDIRECT], bn + 1)
    {
      ghost var u, l1 := V(), logged;
      r := GrowThrough(i, bn);
      if r.Some? { ListedExtends(sb, v, u, V(), i, bn, r.value, l0, l1, logged); }
    }

    /** bmap of a block whose address is in the indirect block. */
    method BmapIndirect(i: nat, bn: nat) returns (r: Option<Word>)
      requires Has(i) && NDIRECT <= bn <= nb[i] && bn < MAXFILE
      modifies this
      ensures Has(i)
      ensures bn < old(nb[i]) ==> r == Some(BlockOf(disk, inodes[i], bn)) && V() == old(V()) && logged == old(logged)
      ensures r.None? ==> Full(sb, owner) && sb.size - |old(owner)| < Needs(bn, old(inodes[i].addrs[NDIRECT]), bn + 1)
      ensures bn == old(nb[i]) && r.Some? ==>
                && Extends(sb, old(V()), V(), i, r.value)
                && Charged(sb, old(V()), V(), i, bn, r.value, old(logged), logged)
                && |owner| == |old(owner)| + Needs(bn, old(inodes[i].addrs[NDIRECT]), bn + 1)
    {
      ghost var v, l0 := V(), logged;
      FullCount(sb, disk, owner);
      Mapped(sb, V(), i, bn);
      var ok := WithIndirect(i);
      if !ok { return None; }
      FullCount(sb, disk, owner);
      Mapped(sb, V(), i, bn);
      var addr := GetWord(disk[inodes[i].addrs[NDIRECT]], bn - NDIRECT);
      if addr == 0 { r := GrowListed(i, bn, v, l0); } else { r := Some(addr); }
    }

    /** bmap: the address of block bn, which is allocated if it is the next one; None stands for a panic. */
    method Bmap(i: nat, bn: nat) returns (r: Option<Word>)
      requires Has(i) && bn <= nb[i]
      modifies this
      ensures Has(i)
      ensures bn < old(nb[i]) ==> r == Some(BlockOf(disk, inodes[i], bn)) && V() == old(V()) && logged == old(logged)
      ensures r.None? ==> bn == MAXFILE || Full(sb, owner)
      ensures bn == old(nb[i]) ==>
                (r.None?
                 <==> bn == MAXFILE || sb.size - |old(owner)| < Needs(bn, old(inodes[i].addrs[NDIRECT]), bn + 1))
      ensures bn == old(nb[i]) && r.Some? ==>
                && Extends(sb, old(V()), V(), i, r.value)
                && Charged(sb, old(V()), V(), i, bn, r.value, old(logged), logged)
                && |owner| == |old(owner)| + Needs(bn, old(inodes[i].addrs[NDIRECT]), bn + 1)
    {
      FullCount(sb, disk, owner);
      if bn < MAXFILE { Mapped(sb, V(), i, bn); }
      if bn < NDIRECT {
        var addr := inodes[i].addrs[bn];
        if addr == 0 { r := GrowDirect(i, bn); } else { r := Some(addr); }
      } else if bn - NDIRECT < NINDIRECT {
        r := BmapIndirect(i, bn);
      } else {
        r := None;
      }
      FullCount(sb, disk, owner);
    }

    // -------------------------------------------------------------- readi, writei

    /** iupdate: the inode's fields and addresses go into its slot on disk. */
    method Iupdate(i: nat)
      requires Has(i)
      modifies this`disk, this`logged, this`trace
      ensures Has(i) && logged == old(logged) + {sb.IBlock(i)}
      ensures forall j: nat :: OnDisk(sb, old(V()), j) || j == i ==> OnDisk(sb, V(), j)
    {
      var b := sb.IBlock(i);
      WriteInodeBlock(sb, V(), b, disk[b]);
      ghost var v := V();
      var data := PutInode(disk[b], i % IPB, inodes[i]);
      WriteInodeBlock(sb, V(), b, data);
      LogWrite(b, data);
      forall j: nat | OnDisk(sb, v, j) || j == i ensures OnDisk(sb, V(), j) { UpdatedOnDisk(sb, v, i, V(), j); }
    }

    /** One turn of readi's loop. */
    method ReadChunk(i: nat, off: nat, m: nat) returns (bytes: seq<Byte>)
      requires Has(i) && off % BSIZE + m <= BSIZE && off + m <= BSIZE * nb[i] && m > 0
      modifies this
      ensures Has(i) && V() == old(V()) && logged == old(logged)
      ensures |files[i]| == BSIZE * nb[i] && bytes == files[i][off..off + m]
    {
      var bn := off / BSIZE;
      Mapped(sb, V(), i, bn);
      var a := Bmap(i, bn);
      bytes := disk[a.value][off % BSIZE..off % BSIZE + m];
      assert BSIZE * bn + off % BSIZE == off;
      SliceOf(files[i], bn, off % BSIZE, m);
    }

    /** readi: None is its -1; otherwise the bytes of the file from off, as many as there are up to n. */
    method Readi(i: nat, off: Word, n: Word) returns (r: Option<seq<Byte>>)
      requires Has(i) && inodes[i].kind != T_DEV && inodes[i].size <= BSIZE * nb[i]
      modifies this
      ensures Has(i) && V() == old(V()) && logged == old(logged)
      ensures r.None? <==> off > inodes[i].size || off + n >= WRAP
      ensures r.Some? ==> r.value == Text(V(), i)[off..Min(off + n, inodes[i].size)]
    {
      var size := inodes[i].size;
      if off > size || (off + n) % WRAP < off { return None; }
      var want := if off + n > size then size - off else n;
      var tot, dst := 0, [];
      while tot < want
        invariant 0 <= tot <= want
        invariant Has(i) && V() == old(V()) && logged == old(logged)
        invariant dst == Text(V(), i)[off..off + tot]
      {
        var m := Min(want - tot, BSIZE - (off + tot) % BSIZE);
        var bytes := ReadChunk(i, off + tot, m);
        TextPart(files[i], size, off, tot, m);
        dst, tot := dst + bytes, tot + m;
      }
      return Some(dst);
    }

    /** Put bytes in a block the file already has. */
    method WriteInto(i: nat, bn: nat, a: Word, at: nat, bytes: seq<Byte>)
      requires Has(i) && bn < nb[i] && a == BlockOf(disk, inodes[i], bn) && at + |bytes| <= BSIZE
      modifies this`disk, this`files, this`logged, this`trace
      ensures Has(i) && SameInodeBlocks(sb, old(disk), disk)
      ensures BSIZE * bn + BSIZE <= |old(files[i])|
      ensures files == old(files)[i := Overlay(old(files[i]), BSIZE * bn + at, bytes)]
      ensures logged == old(logged) + {a}
    {
      Mapped(sb, V(), i, bn);
      assert MapAt(V(), i, bn) && MetaAt(sb, owner, a);
      var data := Overlay(disk[a], at, bytes);
      WriteText(sb, V(), i, bn, data);
      PatchIsOverlay(files[i], bn, at, bytes, data);
      LogWrite(a, data);
      files := files[i := Patched(files[i], bn, data)];
      assert InodeAt(V(), i);
    }

    /** bmap as writei uses it: block bn is there afterwards, and the file is that much longer if it is new. */
    method Reach(i: nat, bn: nat) returns (r: Option<Word>)
      requires Has(i) && bn <= nb[i] && bn < MAXFILE
      modifies this
      ensures Has(i)
      ensures r.None? ==> Full(sb, owner) && bn == old(nb[i])
      ensures r.None? ==> sb.size - |old(owner)| < Needs(bn, old(inodes[i].addrs[NDIRECT]), bn + 1)
      ensures r.Some? ==>
                && Reaches(sb, old(V()), V(), i, bn) && Took(old(V()), V(), i)
                && r.value == BlockOf(disk, inodes[i], bn)
                && Turned(sb, old(V()), V(), i, bn, r.value, old(logged), logged + {r.value})
    {
      r := Bmap(i, bn);
      if r.None? { return; }
      if bn < old(nb[i]) {
        AlreadyThere(sb, V(), i, bn);
        OkOnly(sb, V(), i, bn);
      } else {
        JustAdded(sb, old(V()), V(), i, r.value);
        assert logged + {r.value as nat} == logged;
      }
    }

    /** One turn of writei's loop, at block bn; false stands for a panic in bmap. */
    method WriteChunk(i: nat, off: nat, bn: nat, at: nat, bytes: seq<Byte>) returns (ok: bool, ghost b: nat)
      requires Has(i) && bytes != [] && bn == off / BSIZE && at == off % BSIZE && at + |bytes| <= BSIZE
      requires bn <= nb[i] && bn < MAXFILE
      modifies this
      ensures Has(i)
      ensures if ok then Chunk(sb, old(V()), old(logged), V(), logged, i, off, bytes, b)
              else Full(sb, owner) && Scarce(sb, old(V()), i, bn + 1)
    {
      var a := Reach(i, bn);
      ok, b := a.Some?, if a.Some? then a.value else 0;
      if ok {
        ghost var u := V();
        WriteInto(i, bn, a.value, at, bytes);
        ChunkWrote(sb, old(V()), u, V(), i, off, bn, bytes);
        ChunkTurned(sb, old(V()), u, V(), i, bn, b, old(logged), logged);
      }
    }

    /** One turn of writei's loop, after s has been written at off; false stands for a panic in bmap. */
    method WriteTurn(i: nat, ghost off: nat, ghost s: seq<Byte>, at: nat, bytes: seq<Byte>, ghost m: nat,
                     ghost v: View, ghost l0: set<nat>) returns (ok: bool)
      requires Has(i) && Progress(sb, v, l0, V(), logged, i, off, s) && Settled(v, i)
      requires bytes != [] && at == off + |s| && at % BSIZE + |bytes| <= BSIZE && at < BSIZE * MAXFILE
      requires (s != [] ==> at % BSIZE == 0) && at / BSIZE + 1 <= m
      modifies this
      ensures Has(i)
      ensures if ok then Progress(sb, v, l0, V(), logged, i, off, s + bytes)
              else Full(sb, owner) && Scarce(sb, v, i, m)
    {
      ghost var u, l1 := V(), logged;
      ghost var b;
      FullCount(sb, disk, owner);
      InReach(sb, v, l0, u, l1, i, off, s, at);
      ok, b := WriteChunk(i, at, at / BSIZE, at % BSIZE, bytes);
      TurnDone(sb, v, l0, u, l1, V(), logged, i, off, s, at, bytes, m, ok, b);
    }

    /** Where the next bytes of src go, which they are, and where in src they end. */
    method NextBytes(off: nat, src: seq<Byte>, tot: nat) returns (at: nat, bytes: seq<Byte>, next: nat)
      requires tot < |src| && OnBoundary(off, tot, |src|)
      ensures at == off + tot < off + |src| && (tot > 0 ==> at % BSIZE == 0) && at / BSIZE + 1 <= BlocksFor(off + |src|)
      ensures tot < next <= |src| && src[..tot] + bytes == src[..next] && bytes != []
      ensures at % BSIZE + |bytes| <= BSIZE && OnBoundary(off, next, |src|)
    {
      at := off + tot;
      var m := Min(|src| - tot, BSIZE - at % BSIZE);
      NextChunk(off, tot, |src|, m);
      next := tot + m;
      bytes := src[tot..next];
    }

    /** The turn of writei's loop that follows once tot bytes of src have been written. */
    method WriteNext(i: nat, off: nat, src: seq<Byte>, tot: nat, ghost m: nat, ghost v: View, ghost l0: set<nat>)
      returns (ok: bool, next: nat)
      requires Has(i) && tot < |src| && off + |src| <= BSIZE * MAXFILE && OnBoundary(off, tot, |src|)
      requires m == BlocksFor(off + |src|)
      requires Progress(sb, v, l0, V(), logged, i, off, src[..tot]) && Settled(v, i)
      modifies this
      ensures Has(i)
      ensures tot < next <= |src| && OnBoundary(off, next, |src|)
      ensures if ok then Progress(sb, v, l0, V(), logged, i, off, src[..next])
              else Full(sb, owner) && Scarce(sb, v, i, m)
    {
      var at, bytes;
      at, bytes, next := NextBytes(off, src, tot);
      ok := WriteTurn(i, off, src[..tot], at, bytes, m, v, l0);
    }

    /** writei's loop, from v on with l0 logged; false stands for a panic in bmap. */
    method WriteLoop(i: nat, off: nat, src: seq<Byte>, ghost v: View, ghost l0: set<nat>) returns (ok: bool)
      requires Has(i) && off + |src| <= BSIZE * MAXFILE && Settled(v, i)
      requires Progress(sb, v, l0, V(), logged, i, off, [])
      modifies this
      ensures Has(i)
      ensures if ok then Progress(sb, v, l0, V(), logged, i, off, src)
              else Full(sb, owner) && Scarce(sb, v, i, BlocksFor(off + |src|))
    {
      ghost var m := BlocksFor(off + |src|);
      var tot := 0;
      ok := true;
      assert src[..tot] == [];
      while ok && tot < |src|
        invariant 0 <= tot <= |src| && OnBoundary(off, tot, |src|) && Has(i)
        invariant if ok then Progress(sb, v, l0, V(), logged, i, off, src[..tot])
                  else Full(sb, owner) && Scarce(sb, v, i, m)
        decreases ok, |src| - tot
      {
        ok, tot := WriteNext(i, off, src, tot, m, v, l0);
      }
      if ok { assert src[..tot] == src; }
    }

    /** All turns of writei's loop. */
    method WriteAll(i: nat, off: nat, src: seq<Byte>) returns (ok: bool)
      requires Has(i) && off <= BSIZE * nb[i] && off + |src| <= BSIZE * MAXFILE
      modifies this
      ensures Has(i)
      ensures if ok then Progress(sb, old(V()), old(logged), V(), logged, i, off, src)
              else Full(sb, owner) && Scarce(sb, old(V()), i, BlocksFor(off + |src|))
    {
      NoProgress(sb, V(), logged, i, off);
      OkSettled(sb, V(), i);
      ok := WriteLoop(i, off, src, V(), logged);
    }

    /** Set an inode's size and put it on disk. */
    method SetSize(i: nat, size: Word)
      requires Has(i)
      modifies this`disk, this`inodes, this`logged, this`trace
      ensures Has(i) && inodes == old(inodes)[i := old(inodes[i]).(size := size)]
      ensures forall j: nat :: OnDisk(sb, old(V()).(inodes := inodes), j) || j == i ==> OnDisk(sb, V(), j)
      ensures logged == old(logged) + {sb.IBlock(i)}
    {
      WriteFields(sb, V(), i, inodes[i].(size := size));
      inodes := inodes[i := inodes[i].(size := size)];
      assert InodeAt(V(), i);
      assert V() == old(V()).(inodes := inodes);
      Iupdate(i);
    }

    /** The end of writei: the size is set, if the write went past it. */
    method FinishWrite(i: nat, src: seq<Byte>, off: Word, ghost v: View)
      requires Has(i) && FsOk(sb, v) && InodeAt(v, i) && (forall j: nat :: SteadyAt(sb, v, j))
      requires Wrote(sb, v, V(), i, off, src) && off <= v.inodes[i].size && off + |src| <= MAXFILE * BSIZE
      modifies this`disk, this`inodes, this`logged, this`trace
      ensures Has(i) && Steady() && Written(v, V(), i, off, src)
      ensures logged == old(logged) + if |src| > 0 && off + |src| > v.inodes[i].size then {sb.IBlock(i)} else {}
    {
      ghost var w := V();
      if |src| > 0 && off + |src| > inodes[i].size {
        SetSize(i, off + |src|);
        WriteGrows(sb, v, w, w.(inodes := inodes), V(), i, off, src);
      } else {
        WriteStays(sb, v, w, i, off, src);
      }
    }

    /** writei once the request has been accepted. */
    method WriteAccepted(i: nat, src: seq<Byte>, off: Word) returns (ok: bool)
      requires Has(i) && Steady() && off <= inodes[i].size && off + |src| <= MAXFILE * BSIZE
      modifies this
      ensures Has(i)
      ensures !ok ==> Full(sb, owner)
      ensures ok <==> !Scarce(sb, old(V()), i, BlocksFor(off + |src|))
      ensures ok ==>
                && Steady() && Written(old(V()), V(), i, off, src)
                && logged == old(logged) + LoggedBy(sb, old(V()), i, off, |src|)
    {
      ghost var v, l0 := V(), logged;
      assert SteadyAt(sb, v, i);
      ok := WriteAll(i, off, src);
      if !ok { return; }
      ghost var l := logged;
      ProgressIs(sb, v, l0, V(), l, i, off, src);
      NotScarce(sb, v, V(), i, BlocksFor(off + |src|));
      FinishWrite(i, src, off, v);
      AllLogged(sb, v, i, off, |src|, l0, l, logged);
    }

    /** writei: -1 leaves everything as it was; otherwise the text is spliced and nothing else changes. */
    method Writei(i: nat, src: seq<Byte>, off: Word) returns (r: Outcome)
      requires Has(i) && Steady() && inodes[i].kind != T_DEV && |src| < WRAP
      modifies this
      ensures Has(i)
      ensures r.Failed? <==> off > old(inodes[i].size) || off + |src| > MAXFILE * BSIZE
      ensures r.Failed? ==> V() == old(V()) && logged == old(logged)
      ensures r.Panicked? <==> !r.Failed? && Scarce(sb, old(V()), i, BlocksFor(off + |src|))
      ensures r.Panicked? ==> Full(sb, owner)
      ensures r.Done? ==>
                && Steady() && r.n == |src| && Written(old(V()), V(), i, off, src)
                && logged == old(logged) + LoggedBy(sb, old(V()), i, off, |src|)
    {
      if off > inodes[i].size || (off + |src|) % WRAP < off { return Failed; }
      if (off + |src|) % WRAP > MAXFILE * BSIZE { return Failed; }
      var ok := WriteAccepted(i, src, off);
      return if ok then Done(|src|) else Panicked;
    }

    // -------------------------------------------------------------- filewrite

    /** One transaction of filewrite. */
    method WriteOp(i: nat, bytes: seq<Byte>, off: Word) returns (r: Outcome)
      requires Has(i) && Steady() && inodes[i].kind != T_DEV && |bytes| <= MAXWRITE && logged == {}
      modifies this
      ensures Has(i)
      ensures r.Panicked? ==> Full(sb, owner)
      ensures !r.Panicked? ==> |logged| <= MAXOPBLOCKS
      ensures r.Failed? ==> V() == old(V()) && Refused(inodes[i].size, off, |bytes|)
      ensures r.Done? ==> Steady() && r.n == |bytes| && Written(old(V()), V(), i, off, bytes)
    {
      r := Writei(i, bytes, off);
      if r.Done? { FitsShare(sb, old(V()), i, off, |bytes|, logged); }
    }

    /** The transaction that follows once tot bytes of src have been written. */
    method WritePart(i: nat, src: seq<Byte>, pos: Word, tot: nat, ghost v: View) returns (r: Outcome, n: nat)
      requires Has(i) && Steady() && inodes[i].kind != T_DEV && tot < |src| && pos + tot < WRAP
      requires Prefixed(v, V(), i, pos, src, tot)
      modifies this
      ensures Has(i) && n == Min(MAXWRITE, |src| - tot)
      ensures r.Panicked? ==> Full(sb, owner)
      ensures !r.Panicked? ==> Steady() && |logged| <= MAXOPBLOCKS && inodes[i].kind == old(inodes[i].kind)
      ensures r.Failed? ==> V() == old(V()) && Refused(inodes[i].size, pos + tot, n)
      ensures r.Done? ==> Prefixed(v, V(), i, pos, src, tot + n) && pos + tot + n < WRAP
    {
      n := Min(|src| - tot, MAXWRITE);
      logged := {};
      r := WriteOp(i, src[tot..tot + n], pos + tot);
      if r.Done? { PrefixedMore(v, old(V()), V(), i, pos, src, tot, n); }
    }

    /**
     filewrite on an inode. What has been written is a prefix of src, spliced in at pos; it is all of src unless
     a chunk was refused, which is the only reason for -1. ops holds the blocks each transaction logged: none
     outgrows an operation's share of the log.
     */
    method FileWrite(i: nat, src: seq<Byte>, pos: Word) returns (r: Outcome, off: Word, ghost ops: seq<set<nat>>)
      requires Has(i) && Steady() && inodes[i].kind != T_DEV && |src| < 0x8000_0000
      modifies this
      ensures Has(i) && AllFit(ops)
      ensures r.Panicked? ==> Full(sb, owner)
      ensures !r.Panicked? ==> Steady() && pos <= off <= pos + |src| && Prefixed(old(V()), V(), i, pos, src, off - pos)
      ensures r.Done? ==> off == pos + |src| && r.n == |src|
      ensures r.Failed? ==>
                && off < pos + |src|
                && (off > inodes[i].size || off + Min(MAXWRITE, pos + |src| - off) > MAXFILE * BSIZE)
    {
      off, ops := pos, [];
      ghost var v := V();
      var tot := 0;
      while tot < |src|
        invariant Has(i) && Steady() && inodes[i].kind == v.inodes[i].kind
        invariant off == pos + tot && Prefixed(v, V(), i, pos, src, tot) && AllFit(ops)
      {
        var done, n1 := WritePart(i, src, pos, tot, v);
        if done.Panicked? { return done, off, ops; }
        ops := ops + [logged];
        if done.Failed? { return done, off, ops; }
        tot, off := tot + n1, off + n1;
      }
      return Done(|src|), off, ops;
    }

    // -------------------------------------------------------------- itrunc

    /** bfree of a block in use. */
    method FreeBlock(b: nat)
      requires BitsOk(sb, disk, owner) && b in owner && owner[b] != Meta && Traced()
      modifies this`disk, this`owner, this`logged, this`trace
      ensures Traced()
      ensures BitsOk(sb, disk, owner) && owner == old(owner) - {b} && SameData(sb, old(disk), disk)
      ensures Frees(sb, old(owner), owner, old(logged), logged)
    {
      ReleaseBits(sb, disk, owner, b);
      BitmapIsMeta(sb, b);
      FreesOne(sb, owner, b, logged);
      var ok := Bfree(b);
      owner := owner - {b};
      forall c: nat ensures SameAt(sb, old(disk), disk, c) {}
    }

    /** The inodes of v, but with the first k addresses of inode i cleared. */
    ghost predicate AddrsCleared(v: View, i: nat, k: nat)
      reads this
      requires k <= NDIRECT + 1
    {
      && i < |v.inodes| && |v.inodes[i].addrs| == NDIRECT + 1
      && inodes == v.inodes[i := v.inodes[i].(addrs := Cleared(v.inodes[i].addrs, k))]
    }

    /** One turn of itrunc's first loop: free the block, clear its address. */
    method DropDirect(i: nat, k: nat, ghost v: View)
      requires FsOk(sb, v) && i < sb.ninodes && InodeAt(v, i) && k < NDIRECT
      requires Freed(sb, v, V(), i, k) && AddrsCleared(v, i, k) && Traced()
      modifies this`disk, this`owner, this`logged, this`trace, this`inodes
      ensures Traced()
      ensures Freed(sb, v, V(), i, k + 1) && AddrsCleared(v, i, k + 1)
      ensures Frees(sb, old(owner), owner, old(logged), logged)
    {
      FreesNone(sb, owner, logged);
      KeptNext(sb, v, i, k);
      ClearedNext(v.inodes[i].addrs, k);
      var a := inodes[i].addrs[k];
      if a != 0 {
        FreeBlock(a);
        SameDataTrans(sb, v.disk, old(disk), disk);
        inodes := inodes[i := inodes[i].(addrs := inodes[i].addrs[k := 0])];
      }
    }

    /** One turn of itrunc's second loop: free a block listed in the indirect block, whose data is a. */
    method DropListed(i: nat, j: nat, a: Block, ghost v: View)
      requires FsOk(sb, v) && i < sb.ninodes && InodeAt(v, i) && j < NINDIRECT
      requires v.inodes[i].addrs[NDIRECT] != 0 && v.inodes[i].addrs[NDIRECT] < |v.disk|
      requires a == v.disk[v.inodes[i].addrs[NDIRECT]]
      requires Freed(sb, v, V(), i, NDIRECT + j) && Traced()
      modifies this`disk, this`owner, this`logged, this`trace
      ensures Traced()
      ensures Freed(sb, v, V(), i, NDIRECT + j + 1) && Frees(sb, old(owner), owner, old(logged), logged)
    {
      FreesNone(sb, owner, logged);
      KeptNext(sb, v, i, NDIRECT + j);
      var b := GetWord(a, j);
      if b != 0 {
        FreeBlock(b);
        SameDataTrans(sb, v.disk, old(disk), disk);
      }
    }

    /** itrunc's second half: the listed blocks, and then the indirect block itself. */
    method DropIndirect(i: nat, ghost v: View)
      requires FsOk(sb, v) && i < sb.ninodes && InodeAt(v, i)
      requires Freed(sb, v, V(), i, NDIRECT) && AddrsCleared(v, i, NDIRECT) && Traced()
      modifies this`disk, this`owner, this`logged, this`trace, this`inodes
      ensures Traced()
      ensures Freed(sb, v, V(), i, MAXFILE + 1) && AddrsCleared(v, i, NDIRECT + 1)
      ensures Frees(sb, old(owner), owner, old(logged), logged)
    {
      FreesNone(sb, owner, logged);
      ClearedNext(v.inodes[i].addrs, NDIRECT);
      KeptIndirect(sb, v, i);
      var ind := inodes[i].addrs[NDIRECT];
      if ind != 0 {
        assert MetaAt(sb, v.owner, ind) && SameAt(sb, v.disk, disk, ind);
        var a := disk[ind];
        for j := 0 to NINDIRECT
          invariant Freed(sb, v, V(), i, NDIRECT + j) && inodes == old(inodes) && Traced()
          invariant Frees(sb, old(owner), owner, old(logged), logged)
        {
          ghost var o, l := owner, logged;
          DropListed(i, j, a, v);
          FreesMore(sb, old(owner), o, owner, old(logged), l, logged);
        }
        ghost var d, o, l := disk, owner, logged;
        FreeBlock(ind);
        FreesMore(sb, old(owner), o, owner, old(logged), l, logged);
        SameDataTrans(sb, v.disk, d, disk);
        inodes := inodes[i := inodes[i].(addrs := inodes[i].addrs[NDIRECT := 0])];
      } else {
        NoneListed(sb, v, i);
      }
    }

    /** Both halves. */
    method DropAll(i: nat, ghost v: View)
      requires Has(i) && V() == v
      modifies this`disk, this`owner, this`logged, this`trace, this`inodes
      ensures Traced() && Freed(sb, v, V(), i, MAXFILE + 1) && Frees(sb, old(owner), owner, old(logged), logged)
      ensures inodes == v.inodes[i := v.inodes[i].(addrs := Zeroed())]
    {
      ClearedNext(inodes[i].addrs, 0);
      assert v.inodes[i := v.inodes[i]] == v.inodes && Kept(v.owner, i, 0) == v.owner;
      FreesNone(sb, owner, logged);
      for k := 0 to NDIRECT
        invariant Freed(sb, v, V(), i, k) && AddrsCleared(v, i, k) && Traced()
        invariant Frees(sb, old(owner), owner, old(logged), logged)
      {
        ghost var o, l := owner, logged;
        DropDirect(i, k, v);
        FreesMore(sb, old(owner), o, owner, old(logged), l, logged);
      }
      ghost var o, l := owner, logged;
      DropIndirect(i, v);
      FreesMore(sb, old(owner), o, owner, old(logged), l, logged);
      ClearedNext(v.inodes[i].addrs, NDIRECT);
    }

    /** itrunc up to the size: no blocks left, and a file of none. */
    method EmptyOut(i: nat, ghost v: View)
      requires Has(i) && V() == v
      modifies this
      ensures Has(i) && inodes == v.inodes[i := v.inodes[i].(addrs := Zeroed())]
      ensures nb == v.nb[i := 0] && files == v.files[i := []] && owner == Kept(v.owner, i, MAXFILE + 1)
      ensures SameData(sb, v.disk, disk) && Frees(sb, v.owner, owner, old(logged), logged)
    {
      DropAll(i, v);
      nb, files := nb[i := 0], files[i := []];
      TruncOk(sb, v, V(), i);
    }

    /** itrunc: the inode is left empty, exactly its blocks are free again, and no other file changes. */
    method Itrunc(i: nat)
      requires Has(i) && Steady()
      modifies this
      ensures Has(i) && Steady()
      ensures inodes == old(inodes)[i := old(inodes[i]).(size := 0, addrs := Zeroed())]
      ensures files == old(files)[i := []] && owner == Kept(old(owner), i, MAXFILE + 1)
      ensures AllButInode(old(owner), owner, i)
      ensures logged == old(logged) + Bitmaps(sb, old(owner).Keys - owner.Keys) + {sb.IBlock(i)}
      ensures |Bitmaps(sb, old(owner).Keys - owner.Keys) + {sb.IBlock(i)}| <= sb.size / BPB + 2
    {
      ghost var v := V();
      KeptIsRest(sb, v, i);
      EmptyOut(i, v);
      BitmapFew(sb, v, owner, sb.IBlock(i));
      ghost var w := V();
      SetSize(i, 0);
      TruncSteady(sb, v, w, w.(inodes := inodes), V(), i);
    }
  }
}
