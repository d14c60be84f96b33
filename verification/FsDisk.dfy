/**
 The disk as anyone would read it who knows nothing but the layout in fs.h: little-endian
 numbers at fixed offsets. Between operations of the file system this reading finds every
 inode, every byte of every file, and exactly the blocks in use marked in the bitmap.
 */
module FsDisk {
  import opened Blocks
  import opened FsLayout
  import opened FsState
  import opened Fs

  // ---------------------------------------------------------------- raw reading

  function Two(b: Block, at: nat): nat
    requires at + 2 <= BSIZE
  {
    b[at] as int + 0x100 * (b[at + 1] as int)
  }

  function Four(b: Block, at: nat): nat
    requires at + 4 <= BSIZE
  {
    Two(b, at) + 0x1_0000 * Two(b, at + 2)
  }

  /** The 64 bytes of inode j: eight inodes to a block, from inodestart on. */
  ghost predicate HasInode(sb: Super, disk: Disk, j: nat) {
    sb.inodestart + j / 8 < |disk|
  }

  function InodeBlock(sb: Super, disk: Disk, j: nat): Block
    requires sb.inodestart + j / 8 < |disk|
  {
    disk[sb.inodestart + j / 8]
  }

  /** The k-th of the thirteen block addresses of inode j. */
  function RawAddr(sb: Super, disk: Disk, j: nat, k: nat): nat
    requires sb.inodestart + j / 8 < |disk| && k < 13
  {
    Four(InodeBlock(sb, disk, j), 64 * (j % 8) + 12 + 4 * k)
  }

  /** Where block bn of inode j is: in the inode, or in the block that its last address leads to. */
  function RawBlock(sb: Super, disk: Disk, j: nat, bn: nat): nat
    requires sb.inodestart + j / 8 < |disk| && bn < 140
  {
    if bn < 12 then RawAddr(sb, disk, j, bn)
    else
      var ind := RawAddr(sb, disk, j, 12);
      if ind < |disk| then Four(disk[ind], 4 * (bn - 12)) else 0
  }

  /** Bit b of the bitmap that starts at bmapstart, 4096 bits to a block, the lowest bit of a byte first. */
  predicate RawBit(sb: Super, disk: Disk, b: nat)
    requires sb.bmapstart + b / 4096 < |disk|
  {
    disk[sb.bmapstart + b / 4096][b % 4096 / 8] as int / Pow2(b % 8) % 2 == 1
  }

  // ---------------------------------------------------------------- words and bits

  lemma WordIs(b: Block, i: nat)
    requires i < WORDS
    ensures GetWord(b, i) == Four(b, 4 * i)
    ensures GetWord(b, i) % 65536 == Two(b, 4 * i) && GetWord(b, i) / 65536 == Two(b, 4 * i + 2)
  {
  }

  lemma DivTwice(x: nat, m: nat)
    requires m > 0
    ensures x / (2 * m) == x / 2 / m
  {
    var y := x / 2;
    var q, r := y / m, y % m;
    assert y == m * q + r && x == 2 * y + x % 2;
    assert x == (2 * m) * q + (2 * r + x % 2);
    Quotient(x, 2 * m, q, 2 * r + x % 2);
  }

  lemma Quotient(x: nat, d: nat, q: nat, r: nat)
    requires x == d * q + r && r < d
    ensures x / d == q
  {
    var e := x / d - q;
    assert d * (x / d) + x % d == x;
    assert d * e == r - x % d;
    assert (e > 0 ==> d * e >= d) && (e < 0 ==> d * e <= -(d as int));
  }

  lemma {:induction false} BitIs(x: nat, k: nat)
    ensures Bit(x, k) <==> x / Pow2(k) % 2 == 1
  {
    if k > 0 {
      BitIs(x / 2, k - 1);
      DivTwice(x, Pow2(k - 1));
    }
  }

  lemma GetBitIs(c: Block, r: nat)
    requires r < BPB
    ensures GetBit(c, r) <==> c[r / 8] as int / Pow2(r % 8) % 2 == 1
  {
    BitIs(c[r / 8], r % 8);
  }

  lemma LowBits(b: nat)
    ensures b % 4096 % 8 == b % 8
  {
  }

  // ---------------------------------------------------------------- what is found

  /** The fields of an inode are where struct dinode has them. */
  lemma InodeFound(sb: Super, v: View, j: nat)
    requires FsOk(sb, v) && j < sb.ninodes && InodeAt(v, j) && OnDisk(sb, v, j)
    ensures HasInode(sb, v.disk, j)
    ensures var b, at, ip := InodeBlock(sb, v.disk, j), 64 * (j % 8), v.inodes[j];
            && Two(b, at) == ip.kind && Two(b, at + 2) == ip.major && Two(b, at + 4) == ip.minor
            && Two(b, at + 6) == ip.nlink && Four(b, at + 8) == ip.size
            && forall k: nat :: k < 13 ==> RawAddr(sb, v.disk, j, k) == ip.addrs[k]
  {
    var b, m := InodeBlock(sb, v.disk, j), 16 * (j % 8);
    WordIs(b, m);
    WordIs(b, m + 1);
    WordIs(b, m + 2);
    forall k: nat | k < 13 ensures RawAddr(sb, v.disk, j, k) == v.inodes[j].addrs[k] { WordIs(b, m + 3 + k); }
  }

  /** Byte p of a file is byte p mod 512 of the block that the inode lists at p / 512. */
  lemma FileFound(sb: Super, v: View, j: nat, p: nat)
    requires FsOk(sb, v) && j < sb.ninodes && InodeAt(v, j) && SteadyAt(sb, v, j) && p < v.inodes[j].size
    ensures HasInode(sb, v.disk, j) && p / 512 < 140 && v.inodes[j].size <= |v.files[j]|
    ensures var a := RawBlock(sb, v.disk, j, p / 512); a < |v.disk| && v.disk[a][p % 512] == Text(v, j)[p]
  {
    var bn := p / 512;
    InodeFound(sb, v, j);
    Mapped(sb, v, j, bn);
    var a := BlockOf(v.disk, v.inodes[j], bn);
    if bn >= 12 {
      var ind := v.inodes[j].addrs[12];
      assert RawAddr(sb, v.disk, j, 12) == ind;
      WordIs(v.disk[ind], bn - 12);
    } else {
      assert RawAddr(sb, v.disk, j, bn) == v.inodes[j].addrs[bn];
    }
    assert Slice(v.files[j], bn)[p % 512] == v.files[j][p];
  }

  /** The bitmap has a bit set for every block in use and for no other. */
  lemma BitmapFound(sb: Super, v: View, b: nat)
    requires FsOk(sb, v) && b < sb.size
    ensures sb.bmapstart + b / 4096 < |v.disk| && (RawBit(sb, v.disk, b) <==> b in v.owner)
  {
    assert BitAt(sb, v.disk, v.owner, b);
    GetBitIs(v.disk[sb.BBlock(b)], b % 4096);
    LowBits(b);
  }
}
