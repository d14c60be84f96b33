/**
 What fs.c keeps true of the blocks: every block has one user, the bitmap says
 exactly which blocks have one, and each inode's blocks hold its file.
 */
module FsState {
  import opened Common
  import opened Blocks
  import opened FsLayout

  /** The one purpose a block in use serves. */
  datatype Use = Meta | Data(inum: nat, bn: nat) | Indirect(inum: nat)

  datatype View = View(
    disk: Disk,
    inodes: seq<Inode>,        // in-memory inodes, by number
    nb: seq<nat>,              // data blocks each inode has
    owner: map<nat, Use>,      // blocks in use
    files: seq<seq<Byte>>)     // contents of those data blocks, in order

  /** Address of the bn-th block of an inode; 0 if it has none. */
  function BlockOf(disk: Disk, ip: Inode, bn: nat): Word
    requires |ip.addrs| == NDIRECT + 1 && bn < MAXFILE
  {
    if bn < NDIRECT then ip.addrs[bn]
    else if ip.addrs[NDIRECT] == 0 || ip.addrs[NDIRECT] >= |disk| then 0
    else GetWord(disk[ip.addrs[NDIRECT]], bn - NDIRECT)
  }

  function Slice(f: seq<Byte>, bn: nat): seq<Byte>
    requires BSIZE * bn + BSIZE <= |f|
  {
    f[BSIZE * bn..BSIZE * bn + BSIZE]
  }

  // ---------------------------------------------------------------- invariant

  /** The bitmap bit of b says whether b is in use. */
  ghost predicate BitAt(sb: Super, disk: Disk, owner: map<nat, Use>, b: nat) {
    b < sb.size ==> sb.BBlock(b) < |disk| && (GetBit(disk[sb.BBlock(b)], b % BPB) <==> b in owner)
  }

  ghost predicate MetaAt(sb: Super, owner: map<nat, Use>, b: nat) {
    && (b < sb.datastart ==> b in owner)
    && (b in owner ==> b < sb.size && (owner[b] == Meta <==> b < sb.datastart))
  }

  /** A block in use is where its user says it is. */
  ghost predicate OwnAt(v: View, b: nat) {
    b in v.owner ==>
      match v.owner[b]
      case Meta => true
      case Data(i, bn) => i < |v.inodes| == |v.nb| && |v.inodes[i].addrs| == NDIRECT + 1
                          && bn < v.nb[i] && bn < MAXFILE && BlockOf(v.disk, v.inodes[i], bn) == b
      case Indirect(i) => i < |v.inodes| && |v.inodes[i].addrs| == NDIRECT + 1 && v.inodes[i].addrs[NDIRECT] == b
  }

  ghost predicate InodeAt(v: View, i: nat) {
    i < |v.inodes| == |v.nb| == |v.files| ==>
      && |v.inodes[i].addrs| == NDIRECT + 1 && v.nb[i] <= MAXFILE && |v.files[i]| == BSIZE * v.nb[i]
      && var ind := v.inodes[i].addrs[NDIRECT];
         if ind == 0 then v.nb[i] <= NDIRECT else ind in v.owner && v.owner[ind] == Indirect(i)
  }

  /** The first nb blocks of an inode are its own and hold its file; there are no others. */
  ghost predicate MapAt(v: View, i: nat, bn: nat) {
    i < |v.inodes| == |v.nb| == |v.files| && |v.inodes[i].addrs| == NDIRECT + 1 && bn < MAXFILE
    && |v.files[i]| == BSIZE * v.nb[i] ==>
      var a := BlockOf(v.disk, v.inodes[i], bn);
      if bn < v.nb[i]
      then a in v.owner && v.owner[a] == Data(i, bn) && a < |v.disk| && v.disk[a] == Slice(v.files[i], bn)
      else a == 0
  }

  ghost predicate BitsOk(sb: Super, disk: Disk, owner: map<nat, Use>) {
    && sb.Valid() && |disk| == sb.size
    && (forall b: nat :: BitAt(sb, disk, owner, b))
    && (forall b: nat :: MetaAt(sb, owner, b))
  }

  /** Everything is in order, except that the blocks in x have yet to be hooked up. */
  ghost predicate FsOkBut(sb: Super, v: View, x: set<nat>) {
    && BitsOk(sb, v.disk, v.owner)
    && |v.inodes| == |v.nb| == |v.files| == sb.ninodes
    && (forall b: nat :: b in x || OwnAt(v, b))
    && (forall i: nat :: InodeAt(v, i))
    && (forall i: nat, bn: nat :: MapAt(v, i, bn))
  }

  ghost predicate FsOk(sb: Super, v: View) {
    FsOkBut(sb, v, {})
  }

  // ---------------------------------------------------------------- allocating a block

  function MarkUsed(sb: Super, disk: Disk, b: nat): Disk
    requires sb.BBlock(b) < |disk| && !GetBit(disk[sb.BBlock(b)], b % BPB)
  {
    disk[sb.BBlock(b) := SetBit(disk[sb.BBlock(b)], b % BPB)]
  }

  /** balloc of block b: mark it, zero it. */
  function Allocated(sb: Super, disk: Disk, b: nat): Disk
    requires sb.BBlock(b) < |disk| && !GetBit(disk[sb.BBlock(b)], b % BPB) && b < |disk|
  {
    MarkUsed(sb, disk, b)[b := ZERO]
  }

  lemma BitmapIsMeta(sb: Super, b: nat)
    requires sb.Valid() && b < sb.size
    ensures sb.bmapstart <= sb.BBlock(b) < sb.datastart
  {
  }

  lemma SameBit(b: nat, c: nat)
    ensures b / BPB == c / BPB && b % BPB == c % BPB ==> b == c
  {
  }

  lemma AllocBits(sb: Super, disk: Disk, owner: map<nat, Use>, b: nat, use: Use)
    requires BitsOk(sb, disk, owner) && b < sb.size && b !in owner && use != Meta
    ensures BitAt(sb, disk, owner, b) && sb.BBlock(b) < sb.datastart <= b
    ensures BitsOk(sb, Allocated(sb, disk, b), owner[b := use])
  {
    assert BitAt(sb, disk, owner, b) && MetaAt(sb, owner, b);
    BitmapIsMeta(sb, b);
    var d, o := Allocated(sb, disk, b), owner[b := use];
    forall c: nat ensures BitAt(sb, d, o, c) {
      assert BitAt(sb, disk, owner, c);
      if c < sb.size {
        BitmapIsMeta(sb, c);
        if sb.BBlock(c) == sb.BBlock(b) {
          GetSetBit(disk[sb.BBlock(b)], b % BPB, c % BPB);
          SameBit(b, c);
        }
      }
    }
    forall c: nat ensures MetaAt(sb, o, c) { assert MetaAt(sb, owner, c); }
  }

  /** Nothing that is in use notices the allocation of a free block. */
  lemma AllocFrame(sb: Super, v: View, b: nat, use: Use, x: set<nat>)
    requires FsOkBut(sb, v, x) && b < sb.size && b !in v.owner && use != Meta
    ensures BitAt(sb, v.disk, v.owner, b) && sb.BBlock(b) < sb.datastart <= b
    ensures FsOkBut(sb, v.(disk := Allocated(sb, v.disk, b), owner := v.owner[b := use]), x + {b})
  {
    AllocBits(sb, v.disk, v.owner, b, use);
    var v' := v.(disk := Allocated(sb, v.disk, b), owner := v.owner[b := use]);
    assert MetaAt(sb, v.owner, sb.BBlock(b));
    forall c: nat ensures c in x + {b} || OwnAt(v', c) {
      assert c in x || OwnAt(v, c);
      if c in v.owner && v.owner[c].Data? && c !in x { assert InodeAt(v, v.owner[c].inum); }
    }
    forall i: nat ensures InodeAt(v', i) { assert InodeAt(v, i); }
    forall i: nat, bn: nat ensures MapAt(v', i, bn) { assert InodeAt(v, i) && MapAt(v, i, bn); }
  }

  /** bfree of block b. */
  function Released(sb: Super, disk: Disk, b: nat): Disk
    requires sb.BBlock(b) < |disk| && GetBit(disk[sb.BBlock(b)], b % BPB)
  {
    disk[sb.BBlock(b) := ClearBit(disk[sb.BBlock(b)], b % BPB)]
  }

  lemma ReleaseBits(sb: Super, disk: Disk, owner: map<nat, Use>, b: nat)
    requires BitsOk(sb, disk, owner) && b in owner && owner[b] != Meta
    ensures b < sb.size && BitAt(sb, disk, owner, b)
    ensures BitsOk(sb, Released(sb, disk, b), owner - {b})
  {
    assert MetaAt(sb, owner, b);
    assert BitAt(sb, disk, owner, b);
    BitmapIsMeta(sb, b);
    var d, o := Released(sb, disk, b), owner - {b};
    forall c: nat ensures BitAt(sb, d, o, c) {
      assert BitAt(sb, disk, owner, c);
      if c < sb.size {
        BitmapIsMeta(sb, c);
        if sb.BBlock(c) == sb.BBlock(b) {
          GetClearBit(disk[sb.BBlock(b)], b % BPB, c % BPB);
          SameBit(b, c);
        }
      }
    }
    forall c: nat ensures MetaAt(sb, o, c) { assert MetaAt(sb, owner, c); }
  }

  // ---------------------------------------------------------------- hooking blocks up

  /** Inode i gains block b, zeroed, as its next data block; ip is the inode with b in place. */
  function Grown(v: View, i: nat, disk: Disk, ip: Inode): View
    requires i < |v.inodes| == |v.nb| == |v.files|
  {
    v.(disk := disk, inodes := v.inodes[i := ip], nb := v.nb[i := v.nb[i] + 1],
       files := v.files[i := v.files[i] + Zeros(BSIZE)])
  }

  lemma GrownSlice(f: seq<Byte>, n: nat, bn: nat)
    requires |f| == BSIZE * n && bn <= n
    ensures Slice(f + Zeros(BSIZE), bn) == if bn < n then Slice(f, bn) else Zeros(BSIZE)
  {
    var g := f + Zeros(BSIZE);
    if bn < n {
      assert BSIZE * bn + BSIZE <= BSIZE * n;
      assert g[BSIZE * bn..BSIZE * bn + BSIZE] == f[BSIZE * bn..BSIZE * bn + BSIZE];
    } else {
      assert g[BSIZE * n..BSIZE * n + BSIZE] == Zeros(BSIZE);
    }
  }

  lemma LinkDirect(sb: Super, v: View, i: nat, b: Word)
    requires FsOkBut(sb, v, {b}) && i < sb.ninodes && InodeAt(v, i) && v.nb[i] < NDIRECT
    requires b in v.owner && v.owner[b] == Data(i, v.nb[i]) && b < |v.disk| && v.disk[b] == ZERO
    ensures FsOk(sb, Grown(v, i, v.disk, v.inodes[i].(addrs := v.inodes[i].addrs[v.nb[i] := b])))
  {
    var v' := Grown(v, i, v.disk, v.inodes[i].(addrs := v.inodes[i].addrs[v.nb[i] := b]));
    forall c: nat ensures c in {} || OwnAt(v', c) { assert c in {b} || OwnAt(v, c); }
    forall j: nat ensures InodeAt(v', j) { assert InodeAt(v, j); }
    forall j: nat, bn: nat ensures MapAt(v', j, bn) {
      assert MapAt(v, j, bn);
      if j == i && bn <= v.nb[i] { GrownSlice(v.files[i], v.nb[i], bn); }
    }
  }

  lemma ZeroWord(j: nat)
    requires j < WORDS
    ensures GetWord(ZERO, j) == 0
  {
  }

  lemma LinkIndirect(sb: Super, v: View, i: nat, b: Word)
    requires FsOkBut(sb, v, {b}) && i < sb.ninodes && InodeAt(v, i) && v.inodes[i].addrs[NDIRECT] == 0
    requires b in v.owner && v.owner[b] == Indirect(i) && b < |v.disk| && v.disk[b] == ZERO
    ensures FsOk(sb, v.(inodes := v.inodes[i := v.inodes[i].(addrs := v.inodes[i].addrs[NDIRECT := b])]))
  {
    var v' := v.(inodes := v.inodes[i := v.inodes[i].(addrs := v.inodes[i].addrs[NDIRECT := b])]);
    assert MetaAt(sb, v.owner, b) && MetaAt(sb, v.owner, 0);
    forall c: nat ensures c in {} || OwnAt(v', c) { assert c in {b} || OwnAt(v, c); }
    forall j: nat ensures InodeAt(v', j) { assert InodeAt(v, j); }
    forall j: nat, bn: nat ensures MapAt(v', j, bn) {
      assert MapAt(v, j, bn);
      if j == i && NDIRECT <= bn < MAXFILE { ZeroWord(bn - NDIRECT); }
    }
  }

  /** Writing the entry for block nb in inode i's indirect block moves no other block of any file. */
  lemma IndirectEntry(sb: Super, v: View, i: nat, b: Word, x: set<nat>, j: nat, bn: nat)
    requires FsOkBut(sb, v, x) && i < sb.ninodes && InodeAt(v, i) && InodeAt(v, j)
    requires v.inodes[i].addrs[NDIRECT] != 0 && NDIRECT <= v.nb[i] < MAXFILE && j < sb.ninodes && bn < MAXFILE
    ensures v.inodes[i].addrs[NDIRECT] < |v.disk|
    ensures var ind := v.inodes[i].addrs[NDIRECT];
            BlockOf(v.disk[ind := PutWord(v.disk[ind], v.nb[i] - NDIRECT, b)], v.inodes[j], bn)
              == if j == i && bn == v.nb[i] then b else BlockOf(v.disk, v.inodes[j], bn)
  {
    var ind := v.inodes[i].addrs[NDIRECT];
    assert MetaAt(sb, v.owner, ind);
    if bn >= NDIRECT { GetPutWord(v.disk[ind], v.nb[i] - NDIRECT, b, bn - NDIRECT); }
  }

  lemma LinkThrough(sb: Super, v: View, i: nat, b: Word)
    requires FsOkBut(sb, v, {b}) && i < sb.ninodes && InodeAt(v, i) && NDIRECT <= v.nb[i] < MAXFILE
    requires v.inodes[i].addrs[NDIRECT] != 0
    requires b in v.owner && v.owner[b] == Data(i, v.nb[i]) && b < |v.disk| && v.disk[b] == ZERO
    ensures v.inodes[i].addrs[NDIRECT] < |v.disk|
    ensures var ind := v.inodes[i].addrs[NDIRECT];
            FsOk(sb, Grown(v, i, v.disk[ind := PutWord(v.disk[ind], v.nb[i] - NDIRECT, b)], v.inodes[i]))
  {
    var ind := v.inodes[i].addrs[NDIRECT];
    IndirectEntry(sb, v, i, b, {b}, i, 0);
    var d := v.disk[ind := PutWord(v.disk[ind], v.nb[i] - NDIRECT, b)];
    var v' := Grown(v, i, d, v.inodes[i]);
    assert v'.inodes == v.inodes;
    assert MetaAt(sb, v.owner, ind);
    forall c: nat ensures BitAt(sb, d, v.owner, c) {
      assert BitAt(sb, v.disk, v.owner, c);
      if c < sb.size { BitmapIsMeta(sb, c); }
    }
    forall c: nat ensures c in {} || OwnAt(v', c) {
      assert c in {b} || OwnAt(v, c);
      if c in v.owner && v.owner[c].Data? && c != b {
        assert InodeAt(v, v.owner[c].inum);
        IndirectEntry(sb, v, i, b, {b}, v.owner[c].inum, v.owner[c].bn);
      }
      if c == b { IndirectEntry(sb, v, i, b, {b}, i, v.nb[i]); }
    }
    forall j: nat ensures InodeAt(v', j) { assert InodeAt(v, j); }
    forall j: nat, bn: nat ensures MapAt(v', j, bn) {
      assert MapAt(v, j, bn) && InodeAt(v, j);
      if j < sb.ninodes && bn < MAXFILE {
        IndirectEntry(sb, v, i, b, {b}, j, bn);
        if j == i && bn <= v.nb[i] { GrownSlice(v.files[i], v.nb[i], bn); }
      }
    }
  }

  // ---------------------------------------------------------------- writing blocks in use

  /** f with its bn-th block replaced. */
  function Patched(f: seq<Byte>, bn: nat, data: Block): seq<Byte>
    requires BSIZE * bn + BSIZE <= |f|
  {
    f[..BSIZE * bn] + data + f[BSIZE * bn + BSIZE..]
  }

  lemma PatchedSlice(f: seq<Byte>, n: nat, bn: nat, data: Block, k: nat)
    requires |f| == BSIZE * n && bn < n && k < n
    ensures |Patched(f, bn, data)| == |f|
    ensures Slice(Patched(f, bn, data), k) == if k == bn then data else Slice(f, k)
  {
    assert BSIZE * bn + BSIZE <= BSIZE * n && BSIZE * k + BSIZE <= BSIZE * n;
    var g := Patched(f, bn, data);
    if k < bn {
      assert BSIZE * k + BSIZE <= BSIZE * bn;
    } else if k > bn {
      assert BSIZE * bn + BSIZE <= BSIZE * k;
    }
  }

  lemma WriteText(sb: Super, v: View, i: nat, bn: nat, data: Block)
    requires FsOk(sb, v) && i < sb.ninodes && InodeAt(v, i) && bn < v.nb[i]
    ensures BlockOf(v.disk, v.inodes[i], bn) < |v.disk| && BSIZE * bn + BSIZE <= |v.files[i]|
    ensures FsOk(sb, v.(disk := v.disk[BlockOf(v.disk, v.inodes[i], bn) := data],
                        files := v.files[i := Patched(v.files[i], bn, data)]))
  {
    assert MapAt(v, i, bn);
    var a := BlockOf(v.disk, v.inodes[i], bn);
    assert BSIZE * bn + BSIZE <= BSIZE * v.nb[i];
    PatchedSlice(v.files[i], v.nb[i], bn, data, bn);
    var v' := v.(disk := v.disk[a := data], files := v.files[i := Patched(v.files[i], bn, data)]);
    assert MetaAt(sb, v.owner, a);
    forall c: nat ensures BitAt(sb, v'.disk, v.owner, c) {
      assert BitAt(sb, v.disk, v.owner, c);
      if c < sb.size { BitmapIsMeta(sb, c); }
    }
    forall c: nat ensures c in {} || OwnAt(v', c) {
      assert c in {} || OwnAt(v, c);
      if c in v.owner && v.owner[c].Data? { assert InodeAt(v, v.owner[c].inum); }
    }
    forall j: nat ensures InodeAt(v', j) { assert InodeAt(v, j); }
    forall j: nat, k: nat ensures MapAt(v', j, k) {
      assert MapAt(v, j, k) && InodeAt(v, j);
      if j == i && k < v.nb[i] { PatchedSlice(v.files[i], v.nb[i], bn, data, k); }
    }
  }

  /** Writing a metadata block other than the bitmap. */
  lemma WriteInodeBlock(sb: Super, v: View, b: nat, data: Block)
    requires FsOk(sb, v) && b < sb.bmapstart
    ensures b < |v.disk| && FsOk(sb, v.(disk := v.disk[b := data]))
  {
    var v' := v.(disk := v.disk[b := data]);
    assert MetaAt(sb, v.owner, b);
    forall c: nat ensures BitAt(sb, v'.disk, v.owner, c) {
      assert BitAt(sb, v.disk, v.owner, c);
      if c < sb.size { BitmapIsMeta(sb, c); }
    }
    forall c: nat ensures c in {} || OwnAt(v', c) {
      assert c in {} || OwnAt(v, c);
      if c in v.owner && v.owner[c].Data? { assert InodeAt(v, v.owner[c].inum); }
    }
    forall j: nat ensures InodeAt(v', j) { assert InodeAt(v, j); }
    forall j: nat, k: nat ensures MapAt(v', j, k) { assert MapAt(v, j, k) && InodeAt(v, j); }
  }

  /** Changing an inode's fields other than its addresses. */
  lemma WriteFields(sb: Super, v: View, i: nat, ip: Inode)
    requires FsOk(sb, v) && i < sb.ninodes && ip.addrs == v.inodes[i].addrs
    ensures FsOk(sb, v.(inodes := v.inodes[i := ip]))
  {
    var v' := v.(inodes := v.inodes[i := ip]);
    forall c: nat ensures c in {} || OwnAt(v', c) { assert c in {} || OwnAt(v, c); }
    forall j: nat ensures InodeAt(v', j) { assert InodeAt(v, j); }
    forall j: nat, k: nat ensures MapAt(v', j, k) { assert MapAt(v, j, k); }
  }

  // ---------------------------------------------------------------- file text

  /** Blocks needed for n bytes. */
  function BlocksFor(n: nat): (m: nat)
    ensures n <= BSIZE * m < n + BSIZE
  {
    (n + BSIZE - 1) / BSIZE
  }

  /** f with s written over it from off. */
  function Overlay(f: seq<Byte>, off: nat, s: seq<Byte>): (r: seq<Byte>)
    requires off + |s| <= |f|
    ensures |r| == |f|
  {
    f[..off] + s + f[off + |s|..]
  }

  /** f filled up with zeros to k blocks. */
  function Padded(f: seq<Byte>, k: nat): (r: seq<Byte>)
    requires |f| <= BSIZE * k
    ensures |r| == BSIZE * k
  {
    f + Zeros(BSIZE * k - |f|)
  }

  /** What writing s at off means for a file's text: it may grow, but leaves no gap. */
  function Spliced(f: seq<Byte>, off: nat, s: seq<Byte>): (r: seq<Byte>)
    requires off <= |f|
    ensures |r| == Max(|f|, off + |s|)
    ensures forall k :: 0 <= k < |r| ==> r[k] == if off <= k < off + |s| then s[k - off] else f[k]
  {
    f[..off] + s + (if off + |s| < |f| then f[off + |s|..] else [])
  }

  lemma PatchIsOverlay(f: seq<Byte>, bn: nat, at: nat, s: seq<Byte>, data: Block)
    requires BSIZE * bn + BSIZE <= |f| && at + |s| <= BSIZE && data == Overlay(Slice(f, bn), at, s)
    ensures Patched(f, bn, data) == Overlay(f, BSIZE * bn + at, s)
  {
  }

  lemma OverlayMore(f: seq<Byte>, k: nat, m: nat, off: nat, s: seq<Byte>, t: seq<Byte>)
    requires |f| <= BSIZE * k <= BSIZE * m && off + |s| <= BSIZE * k && off + |s| + |t| <= BSIZE * m
    ensures Overlay(Padded(Overlay(Padded(f, k), off, s), m), off + |s|, t) == Overlay(Padded(f, m), off, s + t)
  {
    assert Padded(Overlay(Padded(f, k), off, s), m) == Overlay(Padded(f, m), off, s);
  }

  lemma OverlayText(f: seq<Byte>, k: nat, size: nat, off: nat, s: seq<Byte>)
    requires off <= size <= |f| <= BSIZE * k && off + |s| <= BSIZE * k
    ensures var end := if off + |s| > size then off + |s| else size;
            end <= BSIZE * k && Overlay(Padded(f, k), off, s)[..end] == Spliced(f[..size], off, s)
  {
  }

  /** What was written is what is read back, and the text around it is as it was. */
  lemma ReadBack(f: seq<Byte>, off: nat, s: seq<Byte>, k: nat)
    requires off <= |f| && k < |Spliced(f, off, s)|
    ensures off + |s| <= |Spliced(f, off, s)| && Spliced(f, off, s)[off..off + |s|] == s
    ensures k < off || off + |s| <= k ==> k < |f| && Spliced(f, off, s)[k] == f[k]
  {
  }

  lemma SplicedMore(f: seq<Byte>, off: nat, s: seq<Byte>, t: seq<Byte>)
    requires off <= |f|
    ensures off + |s| <= |Spliced(f, off, s)|
    ensures Spliced(Spliced(f, off, s), off + |s|, t) == Spliced(f, off, s + t)
  {
  }
}
