/**
 The buffer cache of bio.c over the synchronous disk of memide.c. Buffers live in
 one array, as in the source, so a pointer is an index and the list head is index
 NBUF. Lookup and the list work of Brelse are critical sections of bcache.lock,
 AcquireSleep a lock operation, Iderw a disk transfer, and Store and SetDirty are
 memory writes by the holder of a buffer. Bread, Bwrite and Brelse are sequences of
 these, and CopyBlock a sequence of those; their contracts say what one process does
 while the buffers of the others stay as they are. Valid holds after each part.
 */
module Bio {
  import opened Common
  import opened Blocks

  const HEAD := 30 // index of bcache.head

  datatype Buf = Buf(
    valid: bool,   // B_VALID
    dirty: bool,   // B_DIRTY
    dev: nat,
    blockno: nat,
    refcnt: nat,
    locked: bool,  // the sleep lock is held
    data: Block)

  // ---------------------------------------------------------------- the doubly linked list

  function Ring(order: seq<nat>): seq<nat> {
    [HEAD] + order + [HEAD]
  }

  /** prev/next form a circle through the head that visits exactly the buffers in order. */
  ghost predicate Linked(next: seq<nat>, prev: seq<nat>, order: seq<nat>) {
    && |next| == |prev| == NBUF + 1
    && (forall i :: 0 <= i < |order| ==> order[i] < NBUF)
    && Distinct(order)
    && forall i :: 0 <= i <= |order| ==>
         next[Ring(order)[i]] == Ring(order)[i + 1] && prev[Ring(order)[i + 1]] == Ring(order)[i]
  }

  /** Splicing b in after the head (bio.c, twice). */
  lemma InsertLinked(next: seq<nat>, prev: seq<nat>, order: seq<nat>, b: nat)
    requires Linked(next, prev, order) && b < NBUF && b !in order
    ensures next[HEAD] < |next|
    ensures Linked(next[b := next[HEAD]][HEAD := b], prev[b := HEAD][next[HEAD] := b], [b] + order)
  {
    var r, q := Ring(order), Ring([b] + order);
    assert r[0] == HEAD && next[r[0]] == r[1];
    var n, p := next[b := next[HEAD]][HEAD := b], prev[b := HEAD][next[HEAD] := b];
    forall i | 0 <= i <= |order| + 1
      ensures n[q[i]] == q[i + 1] && p[q[i + 1]] == q[i]
    {
      if i >= 2 {
        assert q[i] == r[i - 1] && q[i + 1] == r[i] && q[i] == order[i - 2];
        assert next[r[i - 1]] == r[i] && prev[r[i]] == r[i - 1];
        assert r[i] != r[1];
      } else if i == 1 {
        assert q[1] == b && q[2] == r[1];
      }
    }
  }

  /** Unlinking the k-th buffer of the list. */
  lemma RemoveLinked(next: seq<nat>, prev: seq<nat>, order: seq<nat>, k: nat)
    requires Linked(next, prev, order) && k < |order|
    ensures next[order[k]] < |next| && prev[order[k]] < |prev|
    ensures var b := order[k];
            Linked(next[prev[b] := next[b]], prev[next[b] := prev[b]], order[..k] + order[k + 1..])
  {
    var b := order[k];
    var rest := order[..k] + order[k + 1..];
    var r, q := Ring(order), Ring(rest);
    assert r[k + 1] == b && next[r[k]] == r[k + 1] && next[r[k + 1]] == r[k + 2];
    assert prev[r[k + 1]] == r[k];
    var n, p := next[prev[b] := next[b]], prev[next[b] := prev[b]];
    forall i | 0 <= i <= |rest|
      ensures n[q[i]] == q[i + 1] && p[q[i + 1]] == q[i]
    {
      if i < k {
        assert q[i] == r[i] && q[i + 1] == r[i + 1] && next[r[i]] == r[i + 1] && prev[r[i + 1]] == r[i];
      } else if i == k {
        assert q[i] == r[k] && q[i + 1] == r[k + 2];
      } else {
        assert q[i] == r[i + 1] && q[i + 1] == r[i + 2] && next[r[i + 1]] == r[i + 2];
      }
    }
  }

  // ---------------------------------------------------------------- cache contents

  ghost predicate DirtyAt(buf: seq<Buf>, b: nat) {
    exists i :: 0 <= i < |buf| && buf[i].dirty && buf[i].blockno == b
  }

  /** The blocks pinned in the cache by B_DIRTY. */
  ghost function Pinned(buf: seq<Buf>): set<nat> {
    set i | 0 <= i < |buf| && buf[i].dirty :: buf[i].blockno
  }

  lemma PinnedSame(buf: seq<Buf>, i: nat, b': Buf)
    requires i < |buf| && b'.dirty == buf[i].dirty && (b'.dirty ==> b'.blockno == buf[i].blockno)
    ensures Pinned(buf[i := b']) == Pinned(buf)
  {
    var buf' := buf[i := b'];
    forall b | b in Pinned(buf)
      ensures b in Pinned(buf')
    {
      var j :| 0 <= j < |buf| && buf[j].dirty && buf[j].blockno == b;
      assert buf'[j].dirty && buf'[j].blockno == b;
    }
  }

  lemma PinnedSet(buf: seq<Buf>, i: nat, b': Buf)
    requires i < |buf| && b'.dirty && (buf[i].dirty ==> b'.blockno == buf[i].blockno)
    ensures Pinned(buf[i := b']) == Pinned(buf) + {b'.blockno}
  {
    var buf' := buf[i := b'];
    assert buf'[i].dirty && buf'[i].blockno == b'.blockno;
    forall b | b in Pinned(buf)
      ensures b in Pinned(buf')
    {
      var j :| 0 <= j < |buf| && buf[j].dirty && buf[j].blockno == b;
      assert buf'[j].dirty && buf'[j].blockno == b;
    }
  }

  lemma PinnedClear(buf: seq<Buf>, disk: Disk, view: Disk, i: nat, b': Buf)
    requires CacheOk(buf, disk, view) && i < |buf| && buf[i].dev == 1 && !b'.dirty
    ensures Pinned(buf[i := b']) == Pinned(buf) - {buf[i].blockno}
  {
    var buf' := buf[i := b'];
    forall b | b in Pinned(buf) && b != buf[i].blockno
      ensures b in Pinned(buf')
    {
      var j :| 0 <= j < |buf| && buf[j].dirty && buf[j].blockno == b;
      assert buf'[j].dirty && buf'[j].blockno == b;
    }
  }

  predicate Recyclable(b: Buf) {
    b.refcnt == 0 && !b.dirty
  }

  predicate Keyed(b: Buf, dev: nat, blockno: nat) {
    b.dev == dev && b.blockno == blockno
  }

  ghost predicate BufOk(b: Buf, view: Disk) {
    && (b.locked ==> b.refcnt >= 1)
    && (b.dirty ==> b.valid)
    && (b.valid ==> b.dev == 1 && b.blockno < |view|)
    && (b.valid && !b.locked ==> b.data == view[b.blockno])
  }

  /** At most one buffer per block; device 0 marks buffers never used. */
  ghost predicate Unique(buf: seq<Buf>) {
    forall i, j :: 0 <= i < j < |buf| && buf[i].dev != 0 ==> !Keyed(buf[j], buf[i].dev, buf[i].blockno)
  }

  /** The cache over disk presents the plain block map view. */
  ghost predicate CacheOk(buf: seq<Buf>, disk: Disk, view: Disk) {
    && |buf| == NBUF && |view| == |disk|
    && (forall i :: 0 <= i < |buf| ==> BufOk(buf[i], view))
    && Unique(buf)
    && forall b: nat :: b < |disk| ==> disk[b] == view[b] || DirtyAt(buf, b)
  }

  /** A clean cached block is up to date on disk. */
  lemma CleanOnDisk(buf: seq<Buf>, disk: Disk, view: Disk, i: nat)
    requires CacheOk(buf, disk, view) && i < NBUF
    requires buf[i].dev == 1 && buf[i].blockno < |disk| && !buf[i].dirty
    ensures disk[buf[i].blockno] == view[buf[i].blockno]
  {
    var b := buf[i].blockno;
    if DirtyAt(buf, b) {
      var j :| 0 <= j < |buf| && buf[j].dirty && buf[j].blockno == b;
      assert BufOk(buf[j], view);
      assert Keyed(buf[j], 1, b) && Keyed(buf[i], 1, b);
      assert false;
    }
  }

  /** Changing a buffer that stays clean, keeps its key or takes an absent one. */
  lemma UpdateClean(buf: seq<Buf>, disk: Disk, view: Disk, i: nat, b': Buf)
    requires CacheOk(buf, disk, view) && i < NBUF && BufOk(b', view)
    requires b'.dirty == buf[i].dirty && (b'.dirty ==> b'.blockno == buf[i].blockno)
    requires Keyed(b', buf[i].dev, buf[i].blockno)
             || forall j :: 0 <= j < NBUF ==> !Keyed(buf[j], b'.dev, b'.blockno)
    ensures CacheOk(buf[i := b'], disk, view)
  {
    var buf' := buf[i := b'];
    forall b: nat | b < |disk|
      ensures disk[b] == view[b] || DirtyAt(buf', b)
    {
      if disk[b] != view[b] {
        var j :| 0 <= j < |buf| && buf[j].dirty && buf[j].blockno == b;
        assert buf'[j].dirty && buf'[j].blockno == b;
      }
    }
  }

  /** The holder of buffer i makes its contents current, on disk too if b' is clean. */
  lemma UpdateView(buf: seq<Buf>, disk: Disk, view: Disk, i: nat, b': Buf, disk': Disk)
    requires CacheOk(buf, disk, view) && i < NBUF
    requires buf[i].valid || buf[i].dev == 1
    requires buf[i].blockno < |disk| && buf[i].locked
    requires b' == buf[i].(dirty := b'.dirty, valid := true)
    requires disk' == if b'.dirty then disk else disk[b'.blockno := b'.data]
    ensures CacheOk(buf[i := b'], disk', view[b'.blockno := b'.data])
  {
    var b, buf', view' := b'.blockno, buf[i := b'], view[b'.blockno := b'.data];
    assert BufOk(buf[i], view);
    forall j | 0 <= j < NBUF
      ensures BufOk(buf'[j], view')
    {
      assert BufOk(buf[j], view);
      if j != i && buf[j].valid && buf[j].blockno == b {
        assert Keyed(buf[j], 1, b) && Keyed(buf[i], 1, b);
        assert false;
      }
    }
    forall c: nat | c < |disk'|
      ensures disk'[c] == view'[c] || DirtyAt(buf', c)
    {
      if c == b {
        if b'.dirty { assert buf'[i].dirty && buf'[i].blockno == c; }
      } else if disk[c] != view[c] {
        var j :| 0 <= j < |buf| && buf[j].dirty && buf[j].blockno == c;
        assert buf'[j].dirty && buf'[j].blockno == c;
      }
    }
  }

  /** bget will not panic. */
  ghost predicate Gettable(buf: seq<Buf>, blockno: nat) {
    exists i :: 0 <= i < |buf| && (Keyed(buf[i], 1, blockno) || Recyclable(buf[i]))
  }

  /** after is before with buffer r locked and holding the current contents of the block. */
  ghost predicate Got(before: seq<Buf>, after: seq<Buf>, view: Disk, blockno: nat, r: nat) {
    && r < |before| == |after| && blockno < |view|
    && after == before[r := after[r]]
    && Keyed(after[r], 1, blockno) && after[r].locked && after[r].valid && after[r].data == view[blockno]
    && after[r].refcnt == before[r].refcnt + 1
    && (Keyed(before[r], 1, blockno) || Recyclable(before[r]))
    && after[r].dirty == before[r].dirty
  }

  /** Some pair of blocks can both be got: one pinned and one spare buffer, or two spare ones. */
  ghost predicate Roomy(buf: seq<Buf>, home: nat) {
    || (home in Pinned(buf) && exists i :: 0 <= i < |buf| && Recyclable(buf[i]))
    || exists i, j :: 0 <= i < j < |buf| && Recyclable(buf[i]) && Recyclable(buf[j])
  }

  lemma RoomyGives(buf: seq<Buf>, disk: Disk, view: Disk, after: seq<Buf>, log: nat, home: nat, r: nat)
    requires CacheOk(buf, disk, view) && Got(buf, after, view, log, r) && log != home && Roomy(buf, home)
    ensures Gettable(after, home)
  {
    if home in Pinned(buf) {
      var j :| 0 <= j < |buf| && buf[j].dirty && buf[j].blockno == home;
      assert BufOk(buf[j], view);
      assert Keyed(after[j], 1, home);
    } else {
      var i, j :| 0 <= i < j < |buf| && Recyclable(buf[i]) && Recyclable(buf[j]);
      var k := if i == r then j else i;
      assert Recyclable(after[k]);
    }
  }

  // ---------------------------------------------------------------- buffers in use

  ghost predicate Spare(buf: seq<Buf>) {
    exists i :: 0 <= i < |buf| && Recyclable(buf[i])
  }

  /** No process holds or waits for the block. */
  ghost predicate Unused(buf: seq<Buf>, blockno: nat) {
    forall i :: 0 <= i < |buf| && Keyed(buf[i], 1, blockno) ==> buf[i].refcnt == 0
  }

  /** No process holds the block. */
  ghost predicate Unheld(buf: seq<Buf>, blockno: nat) {
    forall i :: 0 <= i < |buf| && Keyed(buf[i], 1, blockno) ==> !buf[i].locked
  }

  ghost predicate UserKept(x: Buf, y: Buf) {
    && y.refcnt == x.refcnt && y.locked == x.locked
    && (x.refcnt > 0 ==> Keyed(y, x.dev, x.blockno))
    && (x.locked ==> y == x)
  }

  /** Every buffer is in use by whoever used it; those that are held are untouched. */
  ghost predicate SameUsers(before: seq<Buf>, after: seq<Buf>) {
    |before| == |after| && forall i :: 0 <= i < |before| ==> UserKept(before[i], after[i])
  }

  /** A block nobody uses and nobody logged can be got exactly when some buffer is spare. */
  lemma GettableIff(buf: seq<Buf>, disk: Disk, view: Disk, blockno: nat)
    requires CacheOk(buf, disk, view) && Unused(buf, blockno) && blockno !in Pinned(buf)
    ensures Gettable(buf, blockno) <==> Spare(buf)
  {
    if Gettable(buf, blockno) {
      var i :| 0 <= i < |buf| && (Keyed(buf[i], 1, blockno) || Recyclable(buf[i]));
      assert Recyclable(buf[i]);
    }
  }

  /** Buffers l and h have been got for the two blocks, and no other buffer has changed. */
  ghost predicate Borrowing(before: seq<Buf>, after: seq<Buf>, view: Disk, log: nat, home: nat, l: nat, h: nat) {
    && |before| == |after| && l < |before| && h < |before| && l != h && log < |view| && home < |view|
    && after == before[l := after[l]][h := after[h]]
    && before[l].refcnt == 0 && !before[l].locked
    && after[l].refcnt == 1 && after[l].locked && after[l].valid && !after[l].dirty
    && Keyed(after[l], 1, log) && after[l].data == view[log]
    && !before[h].locked && after[h].refcnt == before[h].refcnt + 1 && after[h].locked && after[h].valid
    && Keyed(after[h], 1, home) && after[h].data == view[home]
    && (before[h].refcnt > 0 ==> Keyed(before[h], 1, home))
  }

  /** Once both are released again, everybody has the buffers they had, and l is spare. */
  lemma ReleasedUsers(before: seq<Buf>, got: seq<Buf>, after: seq<Buf>, view: Disk, log: nat, home: nat,
                      l: nat, h: nat)
    requires Borrowing(before, got, view, log, home, l, h)
    requires |after| == |before| && after == got[l := after[l]][h := after[h]]
    requires after[l] == got[l].(locked := false, refcnt := 0, data := after[l].data)
    requires Keyed(after[h], 1, home) && !after[h].locked && after[h].refcnt == got[h].refcnt - 1
    ensures SameUsers(before, after) && Spare(after)
  {
    assert Recyclable(after[l]);
    forall i | 0 <= i < |before|
      ensures UserKept(before[i], after[i])
    {
      if i != l && i != h { assert after[i] == before[i]; }
    }
  }

  ghost function DirtyOnes(buf: seq<Buf>): set<nat> {
    set i: nat | i < |buf| && buf[i].dirty
  }

  /** The clean buffers that processes use: a reader's, for example. */
  ghost function Borrowed(buf: seq<Buf>): set<nat> {
    set i: nat | i < |buf| && !buf[i].dirty && buf[i].refcnt > 0
  }

  lemma DirtyApart(buf: seq<Buf>, disk: Disk, view: Disk, i: nat, k: nat)
    requires CacheOk(buf, disk, view) && i in DirtyOnes(buf) && k in DirtyOnes(buf) && i != k
    ensures buf[i].blockno != buf[k].blockno
  {
    assert BufOk(buf[i], view) && BufOk(buf[k], view);
    assert Keyed(buf[i], 1, buf[i].blockno) && Keyed(buf[k], 1, buf[k].blockno);
  }

  ghost function Blocknos(buf: seq<Buf>, ones: set<nat>): set<nat> {
    set i | i in ones && i < |buf| :: buf[i].blockno
  }

  /** Different buffers pin different blocks. */
  lemma {:induction false} DirtyCount(buf: seq<Buf>, disk: Disk, view: Disk, ones: set<nat>)
    requires CacheOk(buf, disk, view) && ones <= DirtyOnes(buf)
    ensures |Blocknos(buf, ones)| == |ones|
  {
    if ones == {} {
      assert Blocknos(buf, ones) == {};
    } else {
      var k :| k in ones;
      var rest := ones - {k};
      DirtyCount(buf, disk, view, rest);
      forall i | i in rest
        ensures buf[i].blockno != buf[k].blockno
      {
        DirtyApart(buf, disk, view, i, k);
      }
      assert Blocknos(buf, ones) == Blocknos(buf, rest) + {buf[k].blockno};
    }
  }

  /** The cache has a spare buffer exactly when the pinned and the borrowed ones are not all. */
  lemma SpareIff(buf: seq<Buf>, disk: Disk, view: Disk)
    requires CacheOk(buf, disk, view)
    ensures Spare(buf) <==> |Pinned(buf)| + |Borrowed(buf)| < NBUF
  {
    var busy := DirtyOnes(buf) + Borrowed(buf);
    DirtyCount(buf, disk, view, DirtyOnes(buf));
    assert Pinned(buf) == Blocknos(buf, DirtyOnes(buf));
    assert |busy| == |Pinned(buf)| + |Borrowed(buf)|;
    var all := seq(NBUF, i requires 0 <= i < NBUF => i);
    DistinctCard(all);
    forall i | i in busy ensures i in Elems(all) { assert all[i] == i; }
    SubsetCard(busy, Elems(all));
    if k: nat :| k < NBUF && Recyclable(buf[k]) {
      assert all[k] == k && k in Elems(all) && k !in busy;
    } else {
      assert busy == Elems(all);
    }
  }

  // ---------------------------------------------------------------- the cache

  class Bcache {
    var disk: Disk      // memdisk
    var buf: seq<Buf>
    var next: seq<nat>
    var prev: seq<nat>
    ghost var order: seq<nat>  // the list, most recently used first
    ghost var view: Disk       // the block map clients see

    ghost predicate Valid()
      reads this
    {
      && CacheOk(buf, disk, view)
      && Linked(next, prev, order)
      && |order| == NBUF && forall b: nat :: b < NBUF ==> b in order
    }

    /** binit over a given disk. */
    constructor (d: Disk)
      ensures Valid() && disk == d && view == d
      ensures forall i :: 0 <= i < NBUF ==> buf[i].refcnt == 0 && !buf[i].dirty
    {
      var zero: Block := ZERO;
      var n: seq<nat> := seq(NBUF + 1, _ => HEAD);
      var p: seq<nat> := seq(NBUF + 1, _ => HEAD);
      ghost var o: seq<nat> := [];
      var b := 0;
      while b < NBUF
        invariant 0 <= b <= NBUF && |o| == b
        invariant Linked(n, p, o)
        invariant forall c: nat :: c in o <==> c < b
      {
        InsertLinked(n, p, o, b);
        var first := n[HEAD];
        n := n[b := first];
        p := p[b := HEAD];
        p := p[first := b];
        n := n[HEAD := b];
        o := [b] + o;
        b := b + 1;
      }
      disk, view, next, prev, order := d, d, n, p, o;
      buf := seq(NBUF, _ => Buf(false, false, 0, 0, 0, false, zero));
    }

    /** The part of bget under bcache.lock: find the block, or recycle the least recently used free buffer. */
    method Lookup(dev: nat, blockno: nat) returns (r: Option<nat>)
      requires Valid()
      modifies this`buf
      ensures Valid()
      ensures r.None? ==> buf == old(buf)
      ensures r.None? ==> forall i :: 0 <= i < NBUF ==> !Keyed(buf[i], dev, blockno) && !Recyclable(buf[i])
      ensures r.None? ==> forall i :: 0 <= i < NBUF ==> buf[i].refcnt > 0 || buf[i].dirty
      ensures r.Some? ==> r.value < NBUF && Keyed(buf[r.value], dev, blockno)
      ensures r.Some? && Keyed(old(buf)[r.value], dev, blockno) ==>
                buf == old(buf)[r.value := old(buf)[r.value].(refcnt := old(buf)[r.value].refcnt + 1)]
      ensures r.Some? && !Keyed(old(buf)[r.value], dev, blockno) ==>
                && (forall i :: 0 <= i < NBUF ==> !Keyed(old(buf)[i], dev, blockno))
                && old(buf)[r.value].refcnt == 0 && !old(buf)[r.value].dirty
                && buf == old(buf)[r.value := Buf(false, false, dev, blockno, 1, false, old(buf)[r.value].data)]
                && exists k :: 0 <= k < NBUF && order[k] == r.value
                               && forall m :: k < m < NBUF ==> !Recyclable(old(buf)[order[m]])
    {
      var b := next[HEAD];
      ghost var k := 0;
      assert Ring(order)[0] == HEAD && next[Ring(order)[0]] == Ring(order)[1];
      while b != HEAD
        invariant 0 <= k <= NBUF && b == Ring(order)[k + 1]
        invariant forall m :: 0 <= m < k ==> !Keyed(buf[order[m]], dev, blockno)
        invariant buf == old(buf)
        decreases NBUF - k
      {
        assert b == order[k];
        if buf[b].dev == dev && buf[b].blockno == blockno {
          UpdateClean(buf, disk, view, b, buf[b].(refcnt := buf[b].refcnt + 1));
          buf := buf[b := buf[b].(refcnt := buf[b].refcnt + 1)];
          return Some(b);
        }
        assert next[Ring(order)[k + 1]] == Ring(order)[k + 2];
        b := next[b];
        k := k + 1;
      }
      assert forall i: nat :: i < NBUF ==> i in order && !Keyed(buf[i], dev, blockno);
      b := prev[HEAD];
      k := NBUF;
      assert Ring(order)[NBUF + 1] == HEAD && prev[Ring(order)[NBUF + 1]] == Ring(order)[NBUF];
      while b != HEAD
        invariant 0 <= k <= NBUF && b == Ring(order)[k]
        invariant forall m :: k <= m < NBUF ==> !Recyclable(buf[order[m]])
        invariant buf == old(buf)
        decreases k
      {
        assert b == order[k - 1];
        if buf[b].refcnt == 0 && !buf[b].dirty {
          var blank := Buf(false, false, dev, blockno, 1, false, buf[b].data);
          UpdateClean(buf, disk, view, b, blank);
          buf := buf[b := blank];
          return Some(b);
        }
        assert prev[Ring(order)[k - 1 + 1]] == Ring(order)[k - 1];
        b := prev[b];
        k := k - 1;
      }
      return None;
    }

    /** acquiresleep(&b->lock), at a moment the lock is free. */
    method AcquireSleep(b: nat)
      requires Valid() && b < NBUF && buf[b].refcnt >= 1 && !buf[b].locked
      modifies this`buf
      ensures Valid() && buf == old(buf)[b := old(buf)[b].(locked := true)]
    {
      UpdateClean(buf, disk, view, b, buf[b].(locked := true));
      buf := buf[b := buf[b].(locked := true)];
    }

    /** iderw of memide.c; false stands for its panics. */
    method Iderw(b: nat) returns (ok: bool)
      requires Valid() && b < NBUF
      modifies this`buf, this`disk, this`view
      ensures Valid()
      ensures ok <==> old(buf)[b].locked && (old(buf)[b].dirty || !old(buf)[b].valid)
                      && old(buf)[b].dev == 1 && old(buf)[b].blockno < |old(disk)|
      ensures !ok ==> buf == old(buf) && disk == old(disk) && view == old(view)
      ensures ok && old(buf)[b].dirty ==>
                && |old(view)| == |old(disk)|
                && disk == old(disk)[old(buf)[b].blockno := old(buf)[b].data]
                && view == old(view)[old(buf)[b].blockno := old(buf)[b].data]
                && buf == old(buf)[b := old(buf)[b].(dirty := false)]
      ensures ok && !old(buf)[b].dirty ==>
                && disk == old(disk) && view == old(view)
                && buf == old(buf)[b := old(buf)[b].(valid := true, data := view[old(buf)[b].blockno])]
    {
      var x := buf[b];
      if !x.locked || (x.valid && !x.dirty) || x.dev != 1 || x.blockno >= |disk| {
        return false;
      }
      assert BufOk(x, view);
      if x.dirty {
        UpdateView(buf, disk, view, b, x.(dirty := false), disk[x.blockno := x.data]);
        disk := disk[x.blockno := x.data];
        view := view[x.blockno := x.data];
        buf := buf[b := x.(dirty := false, valid := true)];
      } else {
        CleanOnDisk(buf, disk, view, b);
        UpdateClean(buf, disk, view, b, x.(valid := true, data := disk[x.blockno]));
        buf := buf[b := x.(valid := true, data := disk[x.blockno])];
      }
      return true;
    }

    /** No process holds or waits for a buffer. */
    ghost predicate Idle()
      reads this
    {
      forall i :: 0 <= i < |buf| ==> buf[i].refcnt == 0
    }

    /** bread, called when nobody holds the block; None stands for a panic. */
    method Bread(blockno: nat) returns (r: Option<nat>)
      requires Valid() && blockno < |disk|
      requires Unheld(buf, blockno)
      modifies this`buf, this`disk, this`view
      ensures Valid() && disk == old(disk) && view == old(view) && Pinned(buf) == Pinned(old(buf))
      ensures r.Some? <==> Gettable(old(buf), blockno)
      ensures r.None? ==> buf == old(buf)
      ensures r.Some? ==> Got(old(buf), buf, view, blockno, r.value)
    {
      r := Lookup(1, blockno);
      if r.Some? {
        assert BufOk(old(buf)[r.value], view);
        AcquireSleep(r.value);
        assert BufOk(buf[r.value], view);
        if !buf[r.value].valid {
          var ok := Iderw(r.value);
          assert ok;
        }
        PinnedSame(old(buf), r.value, buf[r.value]);
        assert buf == old(buf)[r.value := buf[r.value]];
        assert Keyed(old(buf)[r.value], 1, blockno) || Recyclable(old(buf)[r.value]);
      }
    }

    /** memmove into b->data by the lock holder. */
    method Store(b: nat, data: Block)
      requires Valid() && b < NBUF && buf[b].locked
      modifies this`buf
      ensures Valid() && buf == old(buf)[b := old(buf)[b].(data := data)] && Pinned(buf) == Pinned(old(buf))
    {
      PinnedSame(buf, b, buf[b].(data := data));
      assert BufOk(buf[b], view);
      UpdateClean(buf, disk, view, b, buf[b].(data := data));
      buf := buf[b := buf[b].(data := data)];
    }

    /** b->flags |= B_DIRTY by the lock holder: the block's contents change for every later reader. */
    method SetDirty(b: nat)
      requires Valid() && b < NBUF && buf[b].locked && buf[b].valid
      modifies this`buf, this`view
      ensures Valid() && buf == old(buf)[b := old(buf)[b].(dirty := true)]
      ensures buf[b].blockno < |old(view)| && view == old(view)[buf[b].blockno := buf[b].data]
      ensures Pinned(buf) == Pinned(old(buf)) + {buf[b].blockno}
    {
      PinnedSet(buf, b, buf[b].(dirty := true));
      assert BufOk(buf[b], view);
      UpdateView(buf, disk, view, b, buf[b].(dirty := true), disk);
      view := view[buf[b].blockno := buf[b].data];
      buf := buf[b := buf[b].(dirty := true)];
    }

    /** bwrite; false stands for its panic. */
    method Bwrite(b: nat) returns (ok: bool)
      requires Valid() && b < NBUF && (buf[b].locked ==> buf[b].valid)
      modifies this`buf, this`disk, this`view
      ensures Valid()
      ensures ok <==> old(buf)[b].locked
      ensures !ok ==> buf == old(buf) && disk == old(disk) && view == old(view)
      ensures ok ==>
                && buf[b].blockno < |old(disk)| && |old(view)| == |old(disk)|
                && disk == old(disk)[buf[b].blockno := buf[b].data]
                && view == old(view)[buf[b].blockno := buf[b].data]
                && buf == old(buf)[b := old(buf)[b].(dirty := false)]
                && Pinned(buf) == Pinned(old(buf)) - {buf[b].blockno}
    {
      if !buf[b].locked {
        return false;
      }
      assert BufOk(buf[b], view);
      PinnedClear(buf, disk, view, b, buf[b].(dirty := false));
      SetDirty(b);
      ok := Iderw(b);
      assert buf == old(buf)[b := old(buf)[b].(dirty := false)];
    }

    /** Make b the most recently used buffer. */
    method MoveToFront(b: nat)
      requires Linked(next, prev, order) && b < NBUF && b in order
      modifies this`next, this`prev, this`order
      ensures Linked(next, prev, order) && |order| == |old(order)| && forall c :: c in order <==> c in old(order)
      ensures exists k :: 0 <= k < |old(order)| && old(order)[k] == b
                          && order == [b] + old(order)[..k] + old(order)[k + 1..]
    {
      ghost var k :| 0 <= k < |order| && order[k] == b;
      RemoveLinked(next, prev, order, k);
      ghost var rest := order[..k] + order[k + 1..];
      prev := prev[next[b] := prev[b]];
      next := next[prev[b] := next[b]];
      assert b !in rest;
      assert forall c :: c in rest <==> c in order && c != b;
      InsertLinked(next, prev, rest, b);
      var first := next[HEAD];
      next := next[b := first];
      prev := prev[b := HEAD];
      prev := prev[first := b];
      next := next[HEAD := b];
      order := [b] + rest;
      assert order == [b] + old(order)[..k] + old(order)[k + 1..];
    }

    /** brelse by a holder that logged or wrote all it changed; false stands for its panic. */
    method Brelse(b: nat) returns (ok: bool)
      requires Valid() && b < NBUF
      requires buf[b].locked && buf[b].valid ==> buf[b].data == view[buf[b].blockno]
      modifies this`buf, this`next, this`prev, this`order
      ensures Valid() && Pinned(buf) == Pinned(old(buf))
      ensures ok <==> old(buf)[b].locked
      ensures !ok ==> buf == old(buf) && order == old(order)
      ensures ok ==>
                && old(buf)[b].refcnt >= 1
                && buf == old(buf)[b := old(buf)[b].(locked := false, refcnt := old(buf)[b].refcnt - 1)]
      ensures ok && old(buf)[b].refcnt > 1 ==> order == old(order)
      ensures ok && old(buf)[b].refcnt == 1 ==>
                exists k :: 0 <= k < NBUF && old(order)[k] == b
                            && order == [b] + old(order)[..k] + old(order)[k + 1..]
    {
      if !buf[b].locked {
        return false;
      }
      assert BufOk(buf[b], view);
      var x := buf[b].(locked := false, refcnt := buf[b].refcnt - 1);
      UpdateClean(buf, disk, view, b, x);
      PinnedSame(buf, b, x);
      buf := buf[b := x];
      if x.refcnt == 0 {
        MoveToFront(b);
      }
      return true;
    }

    /**
     The body shared by write_log and install_trans: read both blocks, copy one
     onto the other, write it through, release both. False stands for a panic.
     */
    method CopyBlock(log: nat, home: nat, toLog: bool) returns (ok: bool)
      requires Valid() && log < |disk| && home < |disk| && log != home
      requires Unused(buf, log) && log !in Pinned(buf) && Unheld(buf, home)
      modifies this
      ensures Valid()
      ensures !ok ==> disk == old(disk) && view == old(view) && Pinned(buf) == Pinned(old(buf))
      ensures ok ==> SameUsers(old(buf), buf) && Spare(buf) && |old(view)| == |old(disk)|
      ensures ok && toLog ==>
                && disk == old(disk)[log := old(view)[home]] && view == old(view)[log := old(view)[home]]
                && Pinned(buf) == Pinned(old(buf))
      ensures ok && !toLog ==>
                && disk == old(disk)[home := old(view)[log]] && view == old(view)[home := old(view)[log]]
                && Pinned(buf) == Pinned(old(buf)) - {home}
      ensures ok ==> Spare(old(buf))
      ensures Roomy(old(buf), home) ==> ok
    {
      var l, h;
      ok, l, h := BreadBoth(log, home);
      if ok {
        ghost var got := buf;
        var src := if toLog then h else l;
        var dst := if toLog then l else h;
        CopyHeld(src, dst);
        var done := Brelse(src);
        done := Brelse(dst);
        ReleasedUsers(old(buf), got, buf, old(view), log, home, l, h);
      }
    }

    method BreadBoth(log: nat, home: nat) returns (ok: bool, l: nat, h: nat)
      requires Valid() && log < |disk| && home < |disk| && log != home
      requires Unused(buf, log) && log !in Pinned(buf) && Unheld(buf, home)
      modifies this`buf, this`disk, this`view
      ensures Valid() && disk == old(disk) && view == old(view) && Pinned(buf) == Pinned(old(buf))
      ensures ok ==> Borrowing(old(buf), buf, view, log, home, l, h)
      ensures ok ==> Spare(old(buf))
      ensures Roomy(old(buf), home) ==> ok
    {
      ok, l, h := false, 0, 0;
      assert forall i :: 0 <= i < NBUF ==> BufOk(buf[i], view);
      GettableIff(buf, disk, view, log);
      var x := Bread(log);
      if x.None? { return; }
      if Roomy(old(buf), home) {
        RoomyGives(old(buf), disk, view, buf, log, home, x.value);
      }
      var y := Bread(home);
      if y.None? { return; }
      ok, l, h := true, x.value, y.value;
    }

    /** memmove from one held buffer to another, then bwrite. */
    method CopyHeld(src: nat, dst: nat)
      requires Valid() && src < NBUF && dst < NBUF && src != dst
      requires buf[src].locked && buf[src].valid && buf[dst].locked && buf[dst].valid
      modifies this`buf, this`disk, this`view
      ensures Valid()
      ensures buf == old(buf)[dst := old(buf)[dst].(data := old(buf)[src].data, dirty := false)]
      ensures buf[dst].blockno < |old(disk)| == |old(view)|
      ensures disk == old(disk)[buf[dst].blockno := buf[src].data]
      ensures view == old(view)[buf[dst].blockno := buf[src].data]
      ensures Pinned(buf) == Pinned(old(buf)) - {buf[dst].blockno}
    {
      Store(dst, buf[src].data);
      var ok := Bwrite(dst);
    }
  }
}
