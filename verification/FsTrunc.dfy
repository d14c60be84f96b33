/** What itrunc leaves behind: a file system in order, without the inode's blocks. */
module FsTrunc {
  import opened Common
  import opened Blocks
  import opened FsLayout
  import opened FsState

  /** Once itrunc has dealt with k entries (the indirect block is the last), block use u is over. */
  ghost predicate Gone(u: Use, i: nat, k: nat) {
    (u.Data? && u.inum == i && u.bn < k) || (u == Indirect(i) && k > MAXFILE)
  }

  ghost function Kept(owner: map<nat, Use>, i: nat, k: nat): map<nat, Use> {
    map b | b in owner && !Gone(owner[b], i, k) :: owner[b]
  }

  /** Of the blocks in use only the data blocks and the indirect block of inode i are no longer. */
  ghost predicate AllButInode(o: map<nat, Use>, p: map<nat, Use>, i: nat) {
    && (forall b :: b in p <==> b in o && o[b] != Indirect(i) && !(o[b].Data? && o[b].inum == i))
    && forall b :: b in p && b in o ==> p[b] == o[b]
  }

  lemma KeptIsRest(sb: Super, v: View, i: nat)
    requires FsOk(sb, v)
    ensures AllButInode(v.owner, Kept(v.owner, i, MAXFILE + 1), i)
  {
    forall b | b in v.owner ensures v.owner[b].Data? ==> v.owner[b].bn < MAXFILE { assert OwnAt(v, b); }
  }

  lemma KeptNext(sb: Super, v: View, i: nat, k: nat)
    requires FsOk(sb, v) && i < sb.ninodes && InodeAt(v, i) && k < MAXFILE
    ensures var a := BlockOf(v.disk, v.inodes[i], k);
            if k < v.nb[i]
            then a != 0 && a in Kept(v.owner, i, k) && v.owner[a] != Meta
                 && Kept(v.owner, i, k + 1) == Kept(v.owner, i, k) - {a}
            else a == 0 && Kept(v.owner, i, k + 1) == Kept(v.owner, i, k)
  {
    var a := BlockOf(v.disk, v.inodes[i], k);
    assert MapAt(v, i, k) && MetaAt(sb, v.owner, a) && MetaAt(sb, v.owner, 0);
    var e := if k < v.nb[i] then Kept(v.owner, i, k) - {a} else Kept(v.owner, i, k);
    forall b: nat ensures b in Kept(v.owner, i, k + 1) <==> b in e { assert b in {} || OwnAt(v, b); }
    assert Kept(v.owner, i, k + 1) == e;
  }

  lemma KeptIndirect(sb: Super, v: View, i: nat)
    requires FsOk(sb, v) && i < sb.ninodes && InodeAt(v, i)
    ensures var a := v.inodes[i].addrs[NDIRECT];
            if a != 0
            then a in Kept(v.owner, i, MAXFILE) && v.owner[a] != Meta
                 && Kept(v.owner, i, MAXFILE + 1) == Kept(v.owner, i, MAXFILE) - {a}
            else Kept(v.owner, i, MAXFILE + 1) == Kept(v.owner, i, MAXFILE)
  {
    var a := v.inodes[i].addrs[NDIRECT];
    assert MetaAt(sb, v.owner, 0);
    var e := if a != 0 then Kept(v.owner, i, MAXFILE) - {a} else Kept(v.owner, i, MAXFILE);
    forall b: nat ensures b in Kept(v.owner, i, MAXFILE + 1) <==> b in e { assert b in {} || OwnAt(v, b); }
    assert Kept(v.owner, i, MAXFILE + 1) == e;
  }

  /** Without an indirect block there are only direct blocks to free. */
  lemma NoneListed(sb: Super, v: View, i: nat)
    requires FsOk(sb, v) && i < sb.ninodes && InodeAt(v, i) && v.inodes[i].addrs[NDIRECT] == 0
    ensures Kept(v.owner, i, NDIRECT) == Kept(v.owner, i, MAXFILE)
  {
    forall b: nat ensures b in Kept(v.owner, i, NDIRECT) <==> b in Kept(v.owner, i, MAXFILE) {
      assert b in {} || OwnAt(v, b);
    }
  }

  ghost predicate SameAt(sb: Super, d: Disk, e: Disk, c: nat) {
    c < |d| == |e| && (c < sb.bmapstart || c >= sb.datastart) ==> d[c] == e[c]
  }

  /** The disks differ at most in the bitmap. */
  ghost predicate SameData(sb: Super, d: Disk, e: Disk) {
    |d| == |e| && forall c: nat :: SameAt(sb, d, e, c)
  }

  lemma SameDataTrans(sb: Super, d: Disk, e: Disk, f: Disk)
    requires SameData(sb, d, e) && SameData(sb, e, f)
    ensures SameData(sb, d, f)
  {
    forall c: nat ensures SameAt(sb, d, f, c) { assert SameAt(sb, d, e, c) && SameAt(sb, e, f, c); }
  }

  /** Half way through itrunc of inode i: k entries of v are dealt with. */
  ghost predicate Freed(sb: Super, v: View, w: View, i: nat, k: nat) {
    && BitsOk(sb, w.disk, w.owner) && SameData(sb, v.disk, w.disk) && w.owner == Kept(v.owner, i, k)
  }

  /** With all its entries dealt with, an inode whose addresses are cleared is an empty file. */
  lemma TruncOk(sb: Super, v: View, w: View, i: nat)
    requires FsOk(sb, v) && i < sb.ninodes && InodeAt(v, i) && Freed(sb, v, w, i, MAXFILE + 1)
    requires |w.inodes| == |v.inodes| && w.inodes == v.inodes[i := w.inodes[i]] && w.inodes[i].addrs == Zeroed()
    requires w.nb == v.nb[i := 0] && w.files == v.files[i := []]
    ensures FsOk(sb, w) && InodeAt(w, i)
  {
    forall b: nat ensures b in {} || OwnAt(w, b) {
      assert b in {} || OwnAt(v, b);
      if b in w.owner && w.owner[b].Data? { TruncKeeps(sb, v, w, i, w.owner[b].inum, w.owner[b].bn); }
    }
    forall j: nat ensures InodeAt(w, j) { assert InodeAt(v, j); }
    forall j: nat, bn: nat ensures MapAt(w, j, bn) {
      assert MapAt(v, j, bn) && InodeAt(v, j);
      if j < sb.ninodes && j != i && bn < MAXFILE {
        TruncKeeps(sb, v, w, i, j, bn);
        var a := BlockOf(v.disk, v.inodes[j], bn);
        assert MetaAt(sb, v.owner, a) && SameAt(sb, v.disk, w.disk, a);
      }
    }
  }

  function Zeroed(): (s: seq<Word>)
    ensures |s| == NDIRECT + 1 && forall k :: 0 <= k < |s| ==> s[k] == 0
  {
    seq(NDIRECT + 1, _ => 0)
  }

  /** s with its first k entries zero. */
  function Cleared(s: seq<Word>, k: nat): (r: seq<Word>)
    requires |s| == NDIRECT + 1 && k <= NDIRECT + 1
    ensures |r| == |s|
  {
    Zeroed()[..k] + s[k..]
  }

  lemma ClearedNext(s: seq<Word>, k: nat)
    requires |s| == NDIRECT + 1 && k <= NDIRECT
    ensures Cleared(s, k)[k] == s[k] && Cleared(s, k)[k := 0] == Cleared(s, k + 1)
    ensures s[k] == 0 ==> Cleared(s, k) == Cleared(s, k + 1)
    ensures Cleared(s, 0) == s && Cleared(s, NDIRECT + 1) == Zeroed()
  {
  }

  /** The other inodes' blocks stay where they were. */
  lemma TruncKeeps(sb: Super, v: View, w: View, i: nat, j: nat, bn: nat)
    requires FsOk(sb, v) && i < sb.ninodes && InodeAt(v, i) && Freed(sb, v, w, i, MAXFILE + 1)
    requires |w.inodes| == |v.inodes| && w.inodes == v.inodes[i := w.inodes[i]]
    requires j < sb.ninodes && j != i && InodeAt(v, j) && bn < MAXFILE
    ensures BlockOf(w.disk, w.inodes[j], bn) == BlockOf(v.disk, v.inodes[j], bn)
  {
    var ind := v.inodes[j].addrs[NDIRECT];
    assert MetaAt(sb, v.owner, ind) && SameAt(sb, v.disk, w.disk, ind);
  }

  lemma {:induction false} RangeFull(s: set<nat>, n: nat)
    requires forall x: nat :: x < n ==> x in s
    ensures |s| >= n
  {
    if n > 0 {
      RangeFull(s - {n - 1}, n - 1);
      assert |s| == |s - {n - 1}| + 1;
    }
  }

  lemma {:induction false} RangeCard(s: set<nat>, lo: nat, n: nat)
    requires forall x :: x in s ==> lo <= x < lo + n
    ensures |s| <= n
  {
    if n > 0 {
      var t := s - {lo + n - 1};
      RangeCard(t, lo, n - 1);
      assert s <= t + {lo + n - 1} && |s| <= |t| + 1;
    } else {
      assert s == {};
    }
  }
}
