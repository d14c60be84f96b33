/** Disk blocks: BSIZE bytes, also read as little-endian 32-bit words (fs.h, buf.h). */
module Blocks {
  import opened Common

  const BSIZE := 512
  const WORDS := 128 // BSIZE / sizeof(uint)

  type Byte = x: int | 0 <= x < 256

  function Zeros(n: nat): (s: seq<Byte>)
    ensures |s| == n && forall i :: 0 <= i < n ==> s[i] == 0
  {
    seq(n, _ => 0)
  }

  type Block = b: seq<Byte> | |b| == BSIZE witness Zeros(BSIZE)

  const ZERO: Block := Zeros(BSIZE)

  type Disk = seq<Block>

  function WordBytes(w: Word): (s: seq<Byte>)
    ensures |s| == 4
  {
    [w % 256, w / 256 % 256, w / 65536 % 256, w / 16777216]
  }

  /** The i-th 32-bit word of a block, as the x86 reads `((uint*)data)[i]`. */
  function GetWord(b: Block, i: nat): (w: Word)
    requires i < WORDS
  {
    b[4 * i] as int + 256 * (b[4 * i + 1] as int) + 65536 * (b[4 * i + 2] as int) + 16777216 * (b[4 * i + 3] as int)
  }

  /** `((uint*)data)[i] = w`. */
  function PutWord(b: Block, i: nat, w: Word): (r: Block)
    requires i < WORDS
  {
    b[..4 * i] + WordBytes(w) + b[4 * i + 4..]
  }

  lemma WordBytesSum(w: Word)
    ensures w == w % 256 + 256 * (w / 256 % 256) + 65536 * (w / 65536 % 256) + 16777216 * (w / 16777216)
  {
  }

  /** A stored word reads back, and no other word of the block changes. */
  lemma GetPutWord(b: Block, i: nat, w: Word, j: nat)
    requires i < WORDS && j < WORDS
    ensures GetWord(PutWord(b, i, w), j) == if i == j then w else GetWord(b, j)
  {
    WordBytesSum(w);
    var r := PutWord(b, i, w);
    if i == j {
      assert r[4 * i..4 * i + 4] == WordBytes(w);
      assert r[4 * i] == WordBytes(w)[0] && r[4 * i + 1] == WordBytes(w)[1];
      assert r[4 * i + 2] == WordBytes(w)[2] && r[4 * i + 3] == WordBytes(w)[3];
    } else if j < i {
      assert r[4 * j] == b[4 * j] && r[4 * j + 1] == b[4 * j + 1];
      assert r[4 * j + 2] == b[4 * j + 2] && r[4 * j + 3] == b[4 * j + 3];
    } else {
      assert r[4 * j] == b[4 * j] && r[4 * j + 1] == b[4 * j + 1];
      assert r[4 * j + 2] == b[4 * j + 2] && r[4 * j + 3] == b[4 * j + 3];
    }
  }
}
