/** The on-disk format of fs.h: bitmap bits, inodes, and where they live. */
module FsLayout {
  import opened Common
  import opened Blocks

  const NDIRECT := 12
  const NINDIRECT := 128 // BSIZE / sizeof(uint)
  const MAXFILE := 140   // NDIRECT + NINDIRECT
  const IPB := 8         // inodes per block
  const BPB := 4096      // bitmap bits per block

  datatype Super = Super(size: nat, ninodes: nat, inodestart: nat, bmapstart: nat, datastart: nat) {
    function BBlock(b: nat): nat {
      b / BPB + bmapstart
    }

    function IBlock(i: nat): nat {
      i / IPB + inodestart
    }

    /** Boot block, super block, log, inode blocks, bitmap, data: as mkfs lays them out. */
    ghost predicate Valid() {
      && 0 < inodestart && 0 < size <= WRAP
      && inodestart + ninodes / IPB < bmapstart
      && bmapstart + size / BPB < datastart <= size
    }
  }

  // ---------------------------------------------------------------- bitmap bits

  function Pow2(k: nat): (r: nat)
    ensures r >= 1
  {
    if k == 0 then 1 else 2 * Pow2(k - 1)
  }

  /** x & (1 << k) is not zero. */
  predicate Bit(x: nat, k: nat) {
    if k == 0 then x % 2 == 1 else Bit(x / 2, k - 1)
  }

  /** Or-ing in a clear bit adds its weight and disturbs no other bit. */
  lemma {:induction false} SetOne(x: nat, k: nat, j: nat)
    requires !Bit(x, k)
    ensures Bit(x + Pow2(k), j) <==> j == k || Bit(x, j)
  {
    if k == 0 {
      assert (x + 1) / 2 == x / 2;
    } else {
      assert (x + Pow2(k)) / 2 == x / 2 + Pow2(k - 1);
      if j > 0 { SetOne(x / 2, k - 1, j - 1); }
    }
  }

  /** Masking out a set bit subtracts its weight and disturbs no other bit. */
  lemma {:induction false} ClearOne(x: nat, k: nat, j: nat)
    requires Bit(x, k)
    ensures x >= Pow2(k)
    ensures Bit(x - Pow2(k), j) <==> j != k && Bit(x, j)
  {
    if k == 0 {
      assert (x - 1) / 2 == x / 2;
    } else {
      ClearOne(x / 2, k - 1, if j > 0 then j - 1 else 0);
      assert (x - Pow2(k)) / 2 == x / 2 - Pow2(k - 1);
    }
  }

  /** Adding a clear bit below 2^n stays below 2^n. */
  lemma {:induction false} SetInRange(x: nat, k: nat, n: nat)
    requires !Bit(x, k) && k < n && x < Pow2(n)
    ensures x + Pow2(k) < Pow2(n)
  {
    var y, p := x / 2, Pow2(n - 1);
    assert Pow2(n) == 2 * p && x == 2 * y + x % 2;
    assert y < p;
    if k > 0 {
      var q := Pow2(k - 1);
      SetInRange(y, k - 1, n - 1);
      assert Pow2(k) == 2 * q && y + q < p;
    }
  }

  predicate GetBit(b: Block, i: nat)
    requires i < BPB
  {
    Bit(b[i / 8], i % 8)
  }

  /** `data[bi/8] |= m` on a clear bit. */
  function SetBit(b: Block, i: nat): Block
    requires i < BPB && !GetBit(b, i)
  {
    b[i / 8 := (b[i / 8] + Pow2(i % 8)) % 256]
  }

  /** `data[bi/8] &= ~m` on a set bit. */
  function ClearBit(b: Block, i: nat): Block
    requires i < BPB && GetBit(b, i)
  {
    b[i / 8 := (b[i / 8] - Pow2(i % 8)) % 256]
  }

  lemma GetSetBit(b: Block, i: nat, j: nat)
    requires i < BPB && j < BPB && !GetBit(b, i)
    ensures GetBit(SetBit(b, i), j) <==> j == i || GetBit(b, j)
  {
    SetOne(b[i / 8], i % 8, j % 8);
    SetInRange(b[i / 8], i % 8, 8);
  }

  lemma GetClearBit(b: Block, i: nat, j: nat)
    requires i < BPB && j < BPB && GetBit(b, i)
    ensures GetBit(ClearBit(b, i), j) <==> j != i && GetBit(b, j)
  {
    ClearOne(b[i / 8], i % 8, j % 8);
  }

  // ---------------------------------------------------------------- inodes

  type Short = x: int | 0 <= x < 65536

  /** struct dinode, and the part of struct inode that mirrors it. */
  datatype Inode = Inode(kind: Short, major: Short, minor: Short, nlink: Short, size: Word, addrs: seq<Word>)

  function InodeWords(ip: Inode): (ws: seq<Word>)
    requires |ip.addrs| == NDIRECT + 1
    ensures |ws| == 16
  {
    [ip.kind as int + 65536 * (ip.major as int), ip.minor as int + 65536 * (ip.nlink as int), ip.size] + ip.addrs
  }

  function PutWords(b: Block, at: nat, ws: seq<Word>): Block
    requires at + |ws| <= WORDS
    decreases |ws|
  {
    if ws == [] then b else PutWords(PutWord(b, at, ws[0]), at + 1, ws[1..])
  }

  lemma {:induction false} GetPutWords(b: Block, at: nat, ws: seq<Word>, j: nat)
    requires at + |ws| <= WORDS && j < WORDS
    ensures GetWord(PutWords(b, at, ws), j) == if at <= j < at + |ws| then ws[j - at] else GetWord(b, j)
    decreases |ws|
  {
    if ws != [] {
      GetPutWords(PutWord(b, at, ws[0]), at + 1, ws[1..], j);
      GetPutWord(b, at, ws[0], j);
    }
  }

  /** iupdate's change to the k-th inode of a block. */
  function PutInode(b: Block, k: nat, ip: Inode): Block
    requires k < IPB && |ip.addrs| == NDIRECT + 1
  {
    PutWords(b, 16 * k, InodeWords(ip))
  }

  function GetAddrs(b: Block, at: nat): (s: seq<Word>)
    requires at + NDIRECT < WORDS
    ensures |s| == NDIRECT + 1 && forall j :: 0 <= j < |s| ==> s[j] == GetWord(b, at + j)
  {
    seq<Word>(NDIRECT + 1, j requires 0 <= j < NDIRECT + 1 => GetWord(b, at + j))
  }

  /** ilock's reading of the k-th inode of a block. */
  function GetInode(b: Block, k: nat): (ip: Inode)
    requires k < IPB
    ensures |ip.addrs| == NDIRECT + 1
  {
    Inode(GetWord(b, 16 * k) % 65536, GetWord(b, 16 * k) / 65536,
          GetWord(b, 16 * k + 1) % 65536, GetWord(b, 16 * k + 1) / 65536,
          GetWord(b, 16 * k + 2), GetAddrs(b, 16 * k + 3))
  }

  lemma Halves(lo: Short, hi: Short)
    ensures (lo as int + 65536 * (hi as int)) % 65536 == lo && (lo as int + 65536 * (hi as int)) / 65536 == hi
  {
  }

  lemma PutInodeWord(b: Block, k: nat, ip: Inode, j: nat, m: nat)
    requires k < IPB && j < IPB && m < 16 && |ip.addrs| == NDIRECT + 1
    ensures GetWord(PutInode(b, k, ip), 16 * j + m) == if j == k then InodeWords(ip)[m] else GetWord(b, 16 * j + m)
  {
    GetPutWords(b, 16 * k, InodeWords(ip), 16 * j + m);
  }

  lemma SameAddrs(c: Block, at: nat, s: seq<Word>)
    requires at + NDIRECT < WORDS && |s| == NDIRECT + 1
    requires forall a: nat :: a < |s| ==> GetWord(c, at + a) == s[a]
    ensures GetAddrs(c, at) == s
  {
  }

  /** An inode is what its sixteen words say. */
  lemma FromWords(c: Block, j: nat, ip: Inode)
    requires j < IPB && |ip.addrs| == NDIRECT + 1
    requires forall m: nat :: m < 16 ==> WordOf(c, j, m) == InodeWords(ip)[m]
    ensures GetInode(c, j) == ip
  {
    var ws := InodeWords(ip);
    assert WordOf(c, j, 0) == ws[0] && WordOf(c, j, 1) == ws[1] && WordOf(c, j, 2) == ws[2];
    Halves(ip.kind, ip.major);
    Halves(ip.minor, ip.nlink);
    forall a: nat | a < NDIRECT + 1 ensures GetWord(c, 16 * j + 3 + a) == ip.addrs[a] {
      assert WordOf(c, j, a + 3) == ws[a + 3];
    }
    SameAddrs(c, 16 * j + 3, ip.addrs);
  }

  /** The m-th word of the j-th inode of a block. */
  function WordOf(b: Block, j: nat, m: nat): Word
    requires j < IPB && m < 16
  {
    GetWord(b, 16 * j + m)
  }

  lemma SameWords(c: Block, b: Block, j: nat)
    requires j < IPB && forall m: nat :: m < 16 ==> WordOf(c, j, m) == WordOf(b, j, m)
    ensures GetInode(c, j) == GetInode(b, j)
  {
    assert WordOf(c, j, 0) == WordOf(b, j, 0) && WordOf(c, j, 1) == WordOf(b, j, 1);
    assert WordOf(c, j, 2) == WordOf(b, j, 2);
    var s := GetAddrs(b, 16 * j + 3);
    forall a: nat | a < |s| ensures GetWord(c, 16 * j + 3 + a) == s[a] {
      assert WordOf(c, j, a + 3) == WordOf(b, j, a + 3);
    }
    SameAddrs(c, 16 * j + 3, s);
  }

  /** What iupdate writes, ilock reads back; the other inodes of the block keep theirs. */
  lemma GetPutInode(b: Block, k: nat, ip: Inode, j: nat)
    requires k < IPB && j < IPB && |ip.addrs| == NDIRECT + 1
    ensures GetInode(PutInode(b, k, ip), j) == if j == k then ip else GetInode(b, j)
  {
    var c := PutInode(b, k, ip);
    forall m: nat | m < 16
      ensures WordOf(c, j, m) == if j == k then InodeWords(ip)[m] else WordOf(b, j, m)
    {
      PutInodeWord(b, k, ip, j, m);
    }
    if j == k { FromWords(c, j, ip); } else { SameWords(c, b, j); }
  }
}