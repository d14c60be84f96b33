/**
 A file system in which a write logs as much as a write can: the first free blocks lie
 under different bitmap blocks. With it, filewrite's chunk is exactly the largest that fits.
 */
module FsWitness {
  import opened Common
  import opened Blocks
  import opened FsLayout
  import opened FsState
  import opened FsLogged
  import opened Fs

  /** As mkfs would lay it out: 30 blocks of log, 172 of inodes, 5 of bitmap, and data right behind. */
  const SB := Super(16661, 1372, 32, 204, 209)
  const T_DIR := 1
  const T_FILE := 2
  const ROOTINO := 1

  /** From the root on, inode j has the twelve blocks from 197 + 12 * j on, but every 342nd lacks the last. */
  function Have(j: nat): nat {
    if j == 0 then 0 else if j % 342 == 3 then 11 else 12
  }

  function Ip(j: nat): (ip: Inode)
    requires j < SB.ninodes + IPB
    ensures |ip.addrs| == NDIRECT + 1
  {
    Inode(if j == 0 then 0 else if j == ROOTINO then T_DIR else T_FILE, 0, 0, if j == 0 then 0 else 1, BSIZE * Have(j),
          seq(NDIRECT + 1, s requires 0 <= s <= NDIRECT => if s < Have(j) then 197 + 12 * j + s else 0))
  }

  predicate Used(b: nat) {
    b < SB.size && (b < 209 || (b - 197) % 12 < Have((b - 197) / 12))
  }

  function UseOf(b: nat): Use {
    if b < 209 then Meta else Data((b - 197) / 12, (b - 197) % 12)
  }

  function Owner(): map<nat, Use> {
    map b: nat | b < SB.size && Used(b) :: UseOf(b)
  }

  // ---------------------------------------------------------------- its disk

  lemma SetBitAll(b: Block, i: nat)
    requires i < BPB && !GetBit(b, i)
    ensures forall j :: 0 <= j < BPB ==> (GetBit(SetBit(b, i), j) <==> j == i || GetBit(b, j))
  {
    forall j | 0 <= j < BPB ensures GetBit(SetBit(b, i), j) <==> j == i || GetBit(b, j) { GetSetBit(b, i, j); }
  }

  lemma ZeroBits()
    ensures forall j :: 0 <= j < BPB ==> !GetBit(ZERO, j)
  {
    forall j | 0 <= j < BPB ensures !GetBit(ZERO, j) { ZeroBit(j % 8); }
  }

  lemma {:induction false} ZeroBit(k: nat)
    ensures !Bit(0, k)
  {
    if k > 0 { ZeroBit(k - 1); }
  }

  /** A bitmap block with the first n bits, which stand for the blocks from base on. */
  ghost function Marked(base: nat, n: nat): (r: Block)
    requires n <= BPB
    ensures forall j :: 0 <= j < BPB ==> (GetBit(r, j) <==> j < n && Used(base + j))
  {
    if n == 0 then ZeroBits(); ZERO
    else
      var r := Marked(base, n - 1);
      if Used(base + (n - 1)) then SetBitAll(r, n - 1); SetBit(r, n - 1) else r
  }

  lemma PutInodeAll(b: Block, k: nat, ip: Inode)
    requires k < IPB && |ip.addrs| == NDIRECT + 1
    ensures forall j :: 0 <= j < IPB ==> GetInode(PutInode(b, k, ip), j) == if j == k then ip else GetInode(b, j)
  {
    forall j | 0 <= j < IPB
      ensures GetInode(PutInode(b, k, ip), j) == if j == k then ip else GetInode(b, j)
    {
      GetPutInode(b, k, ip, j);
    }
  }

  /** An inode block with the first n of the inodes from base on. */
  ghost function Packed(base: nat, n: nat): (r: Block)
    requires n <= IPB && base <= SB.ninodes
    ensures forall j :: 0 <= j < n ==> GetInode(r, j) == Ip(base + j)
  {
    if n == 0 then ZERO
    else
      var r := Packed(base, n - 1);
      PutInodeAll(r, n - 1, Ip(base + (n - 1)));
      PutInode(r, n - 1, Ip(base + (n - 1)))
  }

  ghost function BlockAt(b: nat): Block {
    if SB.bmapstart <= b <= SB.bmapstart + 4 then Marked(BPB * (b - SB.bmapstart), BPB)
    else if SB.inodestart <= b < SB.bmapstart then Packed(IPB * (b - SB.inodestart), IPB)
    else ZERO
  }

  ghost function Witness(): View {
    View(seq(SB.size, b requires 0 <= b => BlockAt(b)),
         seq(SB.ninodes, j requires 0 <= j < SB.ninodes => Ip(j)),
         seq(SB.ninodes, j requires 0 <= j => Have(j)),
         Owner(),
         seq(SB.ninodes, j requires 0 <= j => Zeros(BSIZE * Have(j))))
  }

  // ---------------------------------------------------------------- is in order

  lemma WitnessBit(b: nat)
    ensures BitAt(SB, Witness().disk, Owner(), b)
  {
    if b < SB.size {
      assert BPB * (b / BPB) + b % BPB == b;
      assert Witness().disk[SB.BBlock(b)] == Marked(BPB * (b / BPB), BPB);
    }
  }

  lemma WitnessMeta(b: nat)
    ensures MetaAt(SB, Owner(), b)
  {
  }

  lemma Div12(j: nat, s: nat)
    requires s < 12
    ensures (12 * j + s) / 12 == j && (12 * j + s) % 12 == s
  {
  }

  lemma WitnessOwn(b: nat)
    ensures OwnAt(Witness(), b)
  {
    if b in Owner() && b >= 209 {
      var j, s := (b - 197) / 12, (b - 197) % 12;
      assert 12 * j + s == b - 197 && j < SB.ninodes;
      assert Witness().inodes[j] == Ip(j) && Witness().nb[j] == Have(j);
    }
  }

  lemma WitnessInode(j: nat)
    ensures InodeAt(Witness(), j)
  {
  }

  lemma ZeroSlice(n: nat, bn: nat)
    requires bn < n
    ensures Slice(Zeros(BSIZE * n), bn) == ZERO
  {
  }

  lemma WitnessMap(j: nat, bn: nat)
    ensures MapAt(Witness(), j, bn)
  {
    if j < SB.ninodes && bn < MAXFILE {
      assert Witness().inodes[j] == Ip(j) && Witness().nb[j] == Have(j);
      if bn < Have(j) {
        Div12(j, bn);
        var a := 197 + 12 * j + bn;
        assert Used(a) && Witness().disk[a] == ZERO;
        ZeroSlice(Have(j), bn);
      }
    }
  }

  lemma WitnessOk()
    ensures FsOk(SB, Witness())
  {
    forall b: nat ensures BitAt(SB, Witness().disk, Owner(), b) { WitnessBit(b); }
    forall b: nat ensures MetaAt(SB, Owner(), b) { WitnessMeta(b); }
    forall b: nat ensures b in {} || OwnAt(Witness(), b) { WitnessOwn(b); }
    forall j: nat ensures InodeAt(Witness(), j) { WitnessInode(j); }
    forall j: nat, bn: nat ensures MapAt(Witness(), j, bn) { WitnessMap(j, bn); }
  }

  lemma WitnessSteady(j: nat)
    ensures SteadyAt(SB, Witness(), j)
  {
    if j < SB.ninodes {
      assert IPB * (j / IPB) + j % IPB == j;
      assert Witness().disk[SB.IBlock(j)] == Packed(IPB * (j / IPB), IPB);
    }
  }

  // ---------------------------------------------------------------- and has its free blocks spread

  function Free(k: nat): nat {
    244 + 4104 * k
  }

  ghost function Frees(k: nat): set<nat> {
    set m: nat | m < k :: Free(m)
  }

  /** A block that is not in use is one of them. */
  lemma UnusedIsFree(b: nat) returns (m: nat)
    requires b < SB.size && !Used(b)
    ensures b == Free(m) && m < 5
  {
    var j, s := (b - 197) / 12, (b - 197) % 12;
    assert 12 * j + s == b - 197;
    m := j / 342;
    assert s == 11 && j == 342 * m + 3;
  }

  lemma FreeIsUnused(k: nat)
    requires k < 5
    ensures Free(k) < SB.size && !Used(Free(k))
  {
    Div12(342 * k + 3, 11);
    assert Free(k) - 197 == 12 * (342 * k + 3) + 11;
    assert (342 * k + 3) % 342 == 3;
  }

  /** With the first k of them taken, the next is the lowest that is free. */
  lemma NextIsFirst(k: nat)
    requires k < 5
    ensures First(SB.size, Owner().Keys + Frees(k), Free(k))
  {
    var taken, b := Owner().Keys + Frees(k), Free(k);
    FreeIsUnused(k);
    assert b !in taken;
    forall d: nat | d < b ensures d in taken {
      if !Used(d) {
        var m := UnusedIsFree(d);
        assert m < k;
      }
    }
    LowestFrom(SB.size, taken, 0, b);
  }

  lemma FreesNext(k: nat)
    ensures Frees(k + 1) == Frees(k) + {Free(k)}
  {
  }

  lemma {:induction false} FirstAreSpread(used: set<nat>, k: nat)
    requires used == Owner().Keys && k <= 5
    ensures FirstFree(SB.size, used, k) == Frees(k)
  {
    if k == 0 {
      assert Frees(0) == {};
    } else {
      FirstAreSpread(used, k - 1);
      NextIsFirst(k - 1);
      FreesNext(k - 1);
      FirstNext(SB.size, used, k - 1, Free(k - 1));
    }
  }

  lemma {:induction false} FreesCount(k: nat)
    requires k <= 5
    ensures |Frees(k)| == k && |Bitmaps(SB, Frees(k))| == k
    ensures forall c :: c in Bitmaps(SB, Frees(k)) ==> c < SB.bmapstart + k
    ensures forall b :: b in Frees(k) ==> b < Free(k)
  {
    if k == 0 {
      assert Frees(0) == {} && Bitmaps(SB, {}) == {};
    } else {
      FreesCount(k - 1);
      FreesNext(k - 1);
      BitmapsMore(SB, Frees(k - 1), Free(k - 1));
      assert SB.BBlock(Free(k - 1)) == SB.bmapstart + k - 1;
    }
  }

  /** There is room for one more file block in each of five bitmap blocks. */
  lemma WitnessSpread()
    ensures |Owner()| + 5 <= SB.size && Spread(SB, Witness(), 4) && Spread(SB, Witness(), 5)
  {
    FirstAreSpread(Owner().Keys, 4);
    FirstAreSpread(Owner().Keys, 5);
    FreesCount(4);
    FreesCount(5);
    assert |Owner()| == |Owner().Keys|;
    FirstCount(SB.size, Owner().Keys, 5);
  }

  // ---------------------------------------------------------------- the largest chunk

  /** A write that writei carries out. */
  ghost predicate Writable(sb: Super, v: View, i: nat, off: nat, n: nat) {
    && FsOk(sb, v) && i < sb.ninodes && InodeAt(v, i) && (forall j: nat :: SteadyAt(sb, v, j))
    && v.inodes[i].kind != T_DEV && !Refused(v.inodes[i].size, off, n) && !Scarce(sb, v, i, BlocksFor(off + n))
  }

  ghost predicate LogsWithin(sb: Super, v: View, i: nat, off: nat, n: nat) {
    Writable(sb, v, i, off, n) ==> |LoggedBy(sb, v, i, off, n)| <= MAXOPBLOCKS
  }

  /** No write of n bytes logs more than an operation's share. */
  ghost predicate AlwaysFits(n: nat) {
    forall sb: Super, v: View, i: nat, off: nat :: LogsWithin(sb, v, i, off, n)
  }

  /** The file that is written to: all of its direct blocks and no others. */
  lemma WitnessFile(v: View)
    requires v == Witness()
    ensures |v.inodes| == |v.nb| == SB.ninodes && v.nb[2] == NDIRECT && v.owner == Owner()
    ensures var ip := v.inodes[2];
            ip.kind == T_FILE && ip.size == BSIZE * NDIRECT && |ip.addrs| == NDIRECT + 1 && ip.addrs[NDIRECT] == 0
  {
    assert v.inodes[2] == Ip(2);
  }

  lemma EnoughFree(sb: Super, v: View, i: nat, off: nat, n: nat)
    requires Sized(v, i) && v.nb[i] == NDIRECT && Ind(v, i) == 0 && |v.owner| + 5 <= sb.size
    requires off <= BSIZE * NDIRECT && n <= MAXWRITE + 1
    ensures !Scarce(sb, v, i, BlocksFor(off + n))
  {
    assert BlocksFor(off + n) <= NDIRECT + 4;
  }

  lemma WitnessWritable(v: View, off: nat, n: nat)
    requires v == Witness() && off <= BSIZE * NDIRECT && n <= MAXWRITE + 1
    ensures Writable(SB, v, 2, off, n)
  {
    WitnessOk();
    WitnessInode(2);
    WitnessFile(v);
    WitnessSpread();
    EnoughFree(SB, v, 2, off, n);
    forall j: nat ensures SteadyAt(SB, v, j) { WitnessSteady(j); }
  }

  /** A write of filewrite's chunk can need the whole of an operation's share ... */
  lemma ShareIsUsed()
    ensures Writable(SB, Witness(), 2, BSIZE * NDIRECT - 1, MAXWRITE)
    ensures |LoggedBy(SB, Witness(), 2, BSIZE * NDIRECT - 1, MAXWRITE)| == MAXOPBLOCKS
  {
    WitnessWritable(Witness(), BSIZE * NDIRECT - 1, MAXWRITE);
    WitnessSpread();
    WitnessFile(Witness());
    TenBlocks(SB, Witness(), 2);
  }

  /** ... so it is the longest that writes may be if every one is to fit a transaction. */
  lemma LargestWrite(m: nat)
    ensures (forall n: nat :: n <= m ==> AlwaysFits(n)) <==> m <= MAXWRITE
  {
    if m <= MAXWRITE {
      forall n: nat | n <= m ensures AlwaysFits(n) { ChunkFits(n); }
    } else {
      WitnessWritable(Witness(), BSIZE * NDIRECT, MAXWRITE + 1);
      WitnessSpread();
      WitnessFile(Witness());
      ElevenBlocks(SB, Witness(), 2);
      assert !LogsWithin(SB, Witness(), 2, BSIZE * NDIRECT, MAXWRITE + 1);
      assert !AlwaysFits(MAXWRITE + 1);
    }
  }

  lemma ChunkFits(n: nat)
    requires n <= MAXWRITE
    ensures AlwaysFits(n)
  {
    forall sb: Super, v: View, i: nat, off: nat ensures LogsWithin(sb, v, i, off, n) {
      if Writable(sb, v, i, off, n) {
        assert SteadyAt(sb, v, i);
        assert {} + LoggedBy(sb, v, i, off, n) == LoggedBy(sb, v, i, off, n);
        FitsShare(sb, v, i, off, n, LoggedBy(sb, v, i, off, n));
      }
    }
  }
}
