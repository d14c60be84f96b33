/** malloc, free and morecore of umalloc.c, proved to keep the heap of module Heap in order. */
module Malloc {
  import opened Common
  import opened Heap

  const HEADER := 8          // sizeof(Header)
  const MINUNITS := 4096     // morecore's least request

  /** What morecore asks for. */
  function AtLeast(nunits: nat): (n: nat)
    ensures n >= nunits && n >= 4096 && (n == nunits || n == 4096)
  {
    if nunits < MINUNITS then MINUNITS else nunits
  }

  /** malloc's nunits, in 32-bit arithmetic. */
  function UnitsFor(nbytes: Word): (n: nat)
    ensures n >= 1
  {
    (nbytes + HEADER - 1) % WRAP / HEADER + 1
  }

  /** The units after the header hold nbytes exactly when the sum does not wrap. */
  lemma UnitsSuffice(nbytes: Word)
    ensures (UnitsFor(nbytes) - 1) * HEADER >= nbytes <==> nbytes + HEADER - 1 < WRAP
    ensures nbytes + HEADER - 1 < WRAP ==> (UnitsFor(nbytes) - 1) * HEADER < nbytes + HEADER
  {
  }

  // ---------------------------------------------------------------- what sbrk makes of a request

  /** The byte count that sbrk, whose argument is an int, sees when morecore asks for nu units. */
  function SbrkCount(nu: nat): int {
    var n := nu * HEADER % WRAP;
    if n < 0x8000_0000 then n else n - WRAP
  }

  /** The units of memory a process has once sbrk has answered addr: more, as many, or fewer. */
  ghost function AfterSbrk(memory: set<nat>, addr: nat, nu: nat): set<nat> {
    var n := SbrkCount(nu);
    if n > 0 then memory + Units(addr, n / HEADER)
    else if addr * HEADER + n >= 0 then set u | u in memory && (u + 1) * HEADER <= addr * HEADER + n
    else memory // the new size wraps to one above the old, and deallocuvm does nothing
  }

  /** morecore's request for nunits units means to sbrk what it means to morecore. */
  predicate Honest(nunits: nat) {
    AtLeast(nunits) * HEADER < 0x8000_0000
  }

  /** sbrk that does not fail gives the units asked for exactly when their count is not negative as an int. */
  lemma SbrkGives(memory: set<nat>, addr: nat, nunits: nat)
    requires forall u :: u in memory ==> u < addr
    ensures Units(addr, AtLeast(nunits)) <= AfterSbrk(memory, addr, AtLeast(nunits)) <==> Honest(nunits)
    ensures Honest(nunits) ==> AfterSbrk(memory, addr, AtLeast(nunits)) == memory + Units(addr, AtLeast(nunits))
    ensures forall u :: u in AfterSbrk(memory, addr, AtLeast(nunits)) ==> u < addr + AtLeast(nunits)
  {
    var nu := AtLeast(nunits);
    assert SbrkCount(nu) <= nu * HEADER;
    if !Honest(nunits) {
      assert SbrkCount(nu) < nu * HEADER;
      assert addr + nu - 1 in Units(addr, nu);
    }
  }

  /** The requests for which malloc's arithmetic is right: the units hold nbytes, and sbrk can give them. */
  lemma MallocLimit(nbytes: Word)
    ensures Honest(UnitsFor(nbytes)) && (UnitsFor(nbytes) - 1) * HEADER >= nbytes <==> nbytes <= 0x7FFF_FFF0
  {
  }

  lemma HugeCount(addr: nat, nbytes: Word)
    requires 0x7FFF_FFF0 < nbytes < WRAP - HEADER + 1
    ensures !Honest(UnitsFor(nbytes)) && SbrkCount(AtLeast(UnitsFor(nbytes))) <= 0
    ensures AfterSbrk({}, addr, AtLeast(UnitsFor(nbytes))) == {}
  {
    var nu := UnitsFor(nbytes);
    assert 0x8000_0000 <= nu * HEADER <= WRAP;
    assert SbrkCount(nu) <= 0;
  }

  /** Some block is the last one below bp. */
  lemma {:induction false} Predecessor(base: nat, size: map<nat, nat>, free: seq<nat>, bp: nat, n: nat) returns (j: nat)
    requires Ordered(base, size, free) && base < bp && bp !in free && 1 <= n <= |free|
    requires n < |free| ==> bp < free[n]
    ensures Between(free, j, bp)
    decreases n
  {
    if free[n - 1] < bp {
      j := n - 1;
    } else {
      assert free[n - 1] in free;
      j := Predecessor(base, size, free, bp, n - 1);
    }
  }

  /** Index arithmetic on the circular list. */
  function Around(n: nat, i: nat): nat
    requires n > 0
  {
    if i < n then i else i - n
  }

  /** morecore has asked for nunits at addr: the units it adds to the blocks, and the memory there is. */
  ghost predicate Asked(o: map<nat, nat>, p: map<nat, nat>, m: set<nat>, m': set<nat>, addr: nat, nunits: nat) {
    p.Keys == o.Keys + Units(addr, AtLeast(nunits)) && m' == AfterSbrk(m, addr, AtLeast(nunits))
  }

  ghost predicate TooSmall(size: map<nat, nat>, free: seq<nat>, i: nat, n: nat) {
    i < |free| ==> free[i] in size && size[free[i]] < n
  }

  /** Some free block has n units. */
  ghost predicate Fits(size: map<nat, nat>, free: seq<nat>, n: nat) {
    exists i: nat :: !TooSmall(size, free, i, n)
  }

  /** The v blocks after free[s], going round, are smaller than n units. */
  ghost predicate Passed(size: map<nat, nat>, free: seq<nat>, s: nat, v: nat, n: nat) {
    forall i: nat {:trigger TooSmall(size, free, i, n)} ::
      s < i <= s + v || i + |free| <= s + v ==> TooSmall(size, free, i, n)
  }

  /** Where malloc's loop is: prevp = free[k], and v blocks after free[s] looked at in vain. */
  ghost predicate Searching(size: map<nat, nat>, free: seq<nat>, prevp: nat, p: nat, n: nat, s: nat, v: nat, k: nat) {
    && s < |free| && v < |free| && k < |free| && k == Around(|free|, s + v)
    && free[k] == prevp && p == free[Around(|free|, k + 1)]
    && Passed(size, free, s, v, n)
  }

  ghost predicate ReachedFrom(size: map<nat, nat>, free: seq<nat>, start: nat, kp: nat, n: nat, s: nat, v: nat) {
    && s < |free| && v < |free| && free[s] == start
    && kp == Around(|free|, Around(|free|, s + v) + 1) && Passed(size, free, s, v, n)
  }

  /** free[kp] is the first block with n units after the one at start, going round. */
  ghost predicate NextFit(size: map<nat, nat>, free: seq<nat>, start: nat, kp: nat, n: nat) {
    && !TooSmall(size, free, kp, n)
    && exists s: nat, v: nat :: ReachedFrom(size, free, start, kp, n, s, v)
  }

  /** What malloc's search finds: that block p, and the block prevp before it on the list. */
  ghost predicate Chosen(size: map<nat, nat>, free: seq<nat>, start: nat, prevp: nat, p: nat, kp: nat, n: nat) {
    && 1 <= kp < |free| && free[kp - 1] == prevp && free[kp] == p && p in size && size[p] >= n
    && NextFit(size, free, start, kp, n)
  }

  /** The n units at u are the end of that block. */
  ghost predicate TakenFrom(size: map<nat, nat>, free: seq<nat>, start: nat, u: nat, n: nat) {
    exists kp: nat ::
      && NextFit(size, free, start, kp, n)
      && kp < |free| && free[kp] in size && u + n == free[kp] + size[free[kp]]
  }

  /** A block that is large enough is not &base, so it lies right behind prevp on the list. */
  lemma FoundAt(base: nat, size: map<nat, nat>, free: seq<nat>, prevp: nat, p: nat, n: nat, s: nat, v: nat, k: nat)
    requires Ordered(base, size, free) && Searching(size, free, prevp, p, n, s, v, k)
    requires n >= 1 && p in size && size[p] >= n
    ensures Fits(size, free, n) && Chosen(size, free, free[s], prevp, p, Around(|free|, k + 1), n)
  {
    var kp := Around(|free|, k + 1);
    assert !TooSmall(size, free, kp, n);
    assert ReachedFrom(size, free, free[s], kp, n, s, v);
  }

  /** One more block has proved too small; back at free[s] all have. */
  lemma PassOne(base: nat, size: map<nat, nat>, free: seq<nat>, prevp: nat, p: nat, n: nat, s: nat, v: nat, k: nat)
    requires Ordered(base, size, free)
    requires Searching(size, free, prevp, p, n, s, v, k) && TooSmall(size, free, Around(|free|, k + 1), n)
    ensures p == free[s] <==> v + 1 == |free|
    ensures Passed(size, free, s, v + 1, n)
    ensures p == free[s] ==> !Fits(size, free, n)
  {
    var kp := Around(|free|, k + 1);
    if kp != s { ListDistinct(base, size, free, kp, s); }
    forall i: nat | s < i <= s + v + 1 || i + |free| <= s + v + 1
      ensures TooSmall(size, free, i, n)
    {
      if i != kp && i < |free| {
        assert s < i <= s + v || i + |free| <= s + v;
      }
    }
  }

  /** The loop's step to the next block. */
  lemma GoOn(base: nat, ptr: map<nat, nat>, size: map<nat, nat>, free: seq<nat>, prevp: nat, p: nat, n: nat,
             s: nat, v: nat, k: nat)
    requires Chained(base, ptr, free) && Ordered(base, size, free)
    requires Searching(size, free, prevp, p, n, s, v, k) && TooSmall(size, free, Around(|free|, k + 1), n)
    requires p != free[s]
    ensures p in ptr && Searching(size, free, p, ptr[p], n, s, v + 1, Around(|free|, k + 1))
  {
    PassOne(base, size, free, prevp, p, n, s, v, k);
    NextBlock(base, ptr, size, free, Around(|free|, k + 1));
  }

  lemma HeldFits(size: map<nat, nat>, free: seq<nat>, bp: nat, n: nat)
    requires FreeHolds(size, free, bp, AtLeast(n))
    ensures Fits(size, free, n)
  {
    var k :| 1 <= k < |free| && free[k] in size && free[k] <= bp && bp + AtLeast(n) <= free[k] + size[free[k]];
    assert !TooSmall(size, free, k, n);
  }

  class Allocator {
    const base: nat            // &base
    var ptr: map<nat, nat>
    var size: map<nat, nat>
    var freep: nat             // 0 before the first malloc
    ghost var free: seq<nat>         // the free list in address order
    ghost var live: map<nat, nat>    // blocks handed out and their units
    ghost var owner: map<nat, nat>   // the block containing each unit that morecore has added
    ghost var memory: set<nat>       // the units that sbrk has given and not taken back
    ghost var brk: nat               // neither has a unit at or above this

    ghost predicate Valid()
      reads this
    {
      && 0 < base < brk
      && (forall u :: u in owner ==> u < brk) && (forall u :: u in memory ==> u < brk)
      && if freep == 0 then free == [] && live == map[] && owner == map[]
         else HeapOk(base, ptr, size, free, live, owner) && freep in free
    }

    /** Every unit of every block is memory the process has. */
    ghost predicate Backed()
      reads this
    {
      owner.Keys <= memory
    }

    constructor (b: nat, start: nat)
      requires 0 < b < start
      ensures Valid() && base == b && brk == start && live == map[] && owner == map[] && memory == {}
    {
      base, ptr, size, freep := b, map[], map[], 0;
      free, live, owner, brk, memory := [], map[], map[], start, {};
    }

    /** So a block that malloc has returned is all there. */
    lemma LiveIsBacked(a: nat)
      requires Valid() && Backed() && a in live
      ensures Units(a, live[a]) <= memory
    {
      var bs := Blocks(base, free, live);
      assert a in bs;
      forall u | u in Units(a, live[a]) ensures u in memory { assert CoverOk(bs, size, owner, a, u); }
    }

    /** The search loop of free. */
    method Search(bp: nat) returns (p: nat, ghost j: nat)
      requires Valid() && bp in live
      ensures p in free && p < bp && p in ptr && (bp < ptr[p] || ptr[p] == base)
      ensures Between(free, j, bp) && p == free[j]
    {
      assert bp in Blocks(base, free, live);
      ghost var target := Predecessor(base, size, free, bp, |free|);
      p := freep;
      ghost var k: nat :| k < |free| && free[k] == freep;
      NextBlock(base, ptr, size, free, k);
      while !(bp > p && bp < ptr[p])
        invariant k < |free| && p == free[k] && p in ptr
        invariant ptr[p] == if k + 1 < |free| then free[k + 1] else base
        decreases if k <= target then target - k else target - k + |free|
      {
        assert Before(size, free, k, k + 1) && Before(size, free, target, k) && Before(size, free, k + 1, target);
        if p >= ptr[p] && (bp > p || bp < ptr[p]) { break; }
        assert k != target;
        p := ptr[p];
        k := if k + 1 < |free| then k + 1 else 0;
        NextBlock(base, ptr, size, free, k);
      }
      assert Before(size, free, k, k + 1);
      j := k;
    }

    /** The body of free after its search. */
    method Splice(p: nat, bp: nat)
      requires p in ptr && ptr[p] in ptr && ptr[p] in size && p in size && bp in size && p != bp
      modifies this`ptr, this`size
      ensures ptr == FreedPtr(old(ptr), old(size), p, bp)
      ensures size == FreedSize(old(ptr), old(size), p, bp)
    {
      if bp + size[bp] == ptr[p] {
        size := size[bp := size[bp] + size[ptr[p]]];
        ptr := ptr[bp := ptr[ptr[p]]];
      } else {
        ptr := ptr[bp := ptr[p]];
      }
      if p + size[p] == bp {
        size := size[p := size[p] + size[bp]];
        ptr := ptr[p := ptr[bp]];
      } else {
        ptr := ptr[p := bp];
      }
    }

    /** Splice with its effect on the heap; the caller then drops bp from live. */
    method SpliceIn(p: nat, bp: nat, ghost j: nat)
      requires HeapOk(base, ptr, size, free, live, owner) && bp in live && Between(free, j, bp) && p == free[j]
      modifies this`ptr, this`size, this`free, this`owner
      ensures HeapOk(base, ptr, size, free, live - {bp}, owner)
      ensures p in free && owner.Keys == old(owner.Keys)
      ensures bp in old(size) && FreeHolds(size, free, bp, old(size)[bp])
    {
      ghost var f, o := FreeKeeps(base, ptr, size, free, live, owner, j, p, bp);
      Splice(p, bp);
      free, owner := f, o;
    }

    method Free(ap: nat)
      requires Valid() && ap > 0 && ap - 1 in live
      modifies this`ptr, this`size, this`freep, this`free, this`live, this`owner
      ensures Valid() && freep != 0
      ensures live == old(live) - {ap - 1}
      ensures owner.Keys == old(owner.Keys)
      ensures FreeHolds(size, free, ap - 1, old(live)[ap - 1])
      ensures exists j: nat :: Between(old(free), j, ap - 1) && freep == old(free)[j]
    {
      var bp := ap - 1;
      var p;
      ghost var j;
      p, j := Search(bp);
      SpliceIn(p, bp, j);
      live := live - {bp};
      freep := p;
      assert forall u :: u in owner ==> u in old(owner.Keys);
      assert p > 0;
    }

    /** hp->s.size = nu, at the address that sbrk has just returned. */
    method Adopt(hp: nat, nu: nat)
      requires Valid() && freep != 0 && nu >= MINUNITS && hp >= brk
      modifies this`size, this`live, this`owner, this`memory, this`brk
      ensures Valid() && hp !in old(live) && live == old(live)[hp := nu]
      ensures Asked(old(owner), owner, old(memory), memory, hp, nu)
    {
      SbrkGives(memory, hp, nu);
      GrowKeeps(base, ptr, size, free, live, owner, hp, nu);
      GrantedUnits(owner, hp, nu);
      size := size[hp := nu];
      live := live[hp := nu];
      owner := owner + Granted(hp, nu);
      memory := AfterSbrk(memory, hp, nu);
      brk := hp + nu;
    }

    /** morecore, where more is what sbrk answers; 0 stands for failure. */
    method Morecore(nunits: nat, more: Option<nat>) returns (r: nat)
      requires Valid() && freep != 0 && nunits >= 1
      requires more.Some? ==> more.value >= brk
      modifies this
      ensures Valid() && freep != 0 && live == old(live)
      ensures more.None? ==>
                && r == 0 && owner == old(owner) && memory == old(memory)
                && free == old(free) && size == old(size) && freep == old(freep)
      ensures more.Some? ==> r == freep && Asked(old(owner), owner, old(memory), memory, more.value, nunits)
      ensures more.Some? ==> FreeHolds(size, free, more.value, AtLeast(nunits))
    {
      var nu := nunits;
      if nu < MINUNITS { nu := MINUNITS; }
      if more.None? { return 0; }
      Adopt(more.value, nu);
      assert live - {more.value} == old(live);
      Free(more.value + 1);
      return freep;
    }

    /** malloc's exact fit: unlink p from behind prevp. */
    method CarveWhole(prevp: nat, p: nat, ghost k: nat)
      requires HeapOk(base, ptr, size, free, live, owner)
      requires 1 <= k < |free| && free[k - 1] == prevp && free[k] == p && p in size
      modifies this`ptr, this`free, this`live
      ensures HeapOk(base, ptr, size, free, live, owner) && prevp in free
      ensures p !in old(live) && live == old(live)[p := size[p]]
      ensures free == Removed(old(free), k)
    {
      TakeWhole(base, ptr, size, free, live, owner, k);
      RemovedAt(free, k, k - 1);
      ptr := ptr[prevp := ptr[p]];
      free := Removed(free, k);
      live := live[p := size[p]];
    }

    /** malloc from a larger block: its tail. */
    method CarveTail(p: nat, nunits: nat, ghost k: nat) returns (q: nat)
      requires HeapOk(base, ptr, size, free, live, owner)
      requires 1 <= k < |free| && free[k] == p && p in size && 1 <= nunits < size[p]
      modifies this`size, this`live, this`owner
      ensures HeapOk(base, ptr, size, free, live, owner)
      ensures q == p + old(size)[p] - nunits
      ensures q > 0 && q !in old(live) && live == old(live)[q := nunits] && owner.Keys == old(owner.Keys)
    {
      owner := TakeTail(base, ptr, size, free, live, owner, k, p, nunits);
      size := size[p := size[p] - nunits];
      q := p + size[p];
      size := size[q := nunits];
      live := live[q := nunits];
    }

    /** The end of malloc: hand out nunits from p, the block after prevp. */
    method Carve(prevp: nat, p: nat, nunits: nat, ghost k: nat) returns (r: nat)
      requires Valid() && freep != 0 && nunits >= 1
      requires 1 <= k < |free| && free[k - 1] == prevp && free[k] == p && p in size && size[p] >= nunits
      modifies this`ptr, this`size, this`freep, this`free, this`live, this`owner
      ensures Valid() && freep == prevp && freep != 0 && r > 1
      ensures r - 1 == p + old(size)[p] - nunits
      ensures r - 1 !in old(live) && live == old(live)[r - 1 := nunits]
      ensures owner.Keys == old(owner.Keys)
    {
      assert Before(size, free, 0, k) && Before(size, free, 0, k - 1);
      if size[p] == nunits {
        CarveWhole(prevp, p, k);
        r := p + 1;
      } else {
        var q := CarveTail(p, nunits, k);
        r := q + 1;
        assert forall u :: u in owner ==> u in old(owner.Keys);
      }
      freep := prevp;
    }

    /** Start the search right behind freep. */
    lemma StartSearch(nunits: nat) returns (s: nat)
      requires HeapOk(base, ptr, size, free, live, owner) && freep in free
      ensures s < |free| && free[s] == freep && freep in ptr
      ensures Searching(size, free, freep, ptr[freep], nunits, s, 0, s)
    {
      s :| 0 <= s < |free| && free[s] == freep;
      NextBlock(base, ptr, size, free, s);
    }

    /** morecore as malloc's search uses it: once granted, a block that fits is on the list, searched afresh. */
    method Refill(nunits: nat, more: Option<nat>) returns (prevp: nat, p: nat, ghost s: nat)
      requires Valid() && freep != 0 && nunits >= 1
      requires more.Some? ==> more.value >= brk
      modifies this
      ensures Valid() && freep != 0 && live == old(live)
      ensures more.None? ==>
                && prevp == p == 0 && owner == old(owner) && memory == old(memory)
                && free == old(free) && size == old(size) && freep == old(freep)
      ensures more.Some? ==>
                && prevp == freep && Fits(size, free, nunits)
                && Asked(old(owner), owner, old(memory), memory, more.value, nunits)
                && s < |free| && free[s] == freep && Searching(size, free, prevp, p, nunits, s, 0, s)
    {
      prevp := Morecore(nunits, more);
      p, s := 0, 0;
      if prevp != 0 {
        HeldFits(size, free, more.value, nunits);
        s := StartSearch(nunits);
        p := ptr[prevp];
      }
    }

    /** malloc's search loop, where more is what sbrk answers if asked. */
    method FindBlock(nunits: nat, more: Option<nat>) returns (found: bool, prevp: nat, p: nat, ghost kp: nat)
      requires Valid() && freep != 0 && nunits >= 1
      requires more.Some? ==> more.value >= brk
      modifies this
      ensures Valid() && freep != 0 && live == old(live)
      ensures found ==> Chosen(size, free, freep, prevp, p, kp, nunits)
      ensures found <==> Fits(old(size), old(free), nunits) || more.Some?
      ensures Fits(old(size), old(free), nunits) || more.None? ==>
                && owner == old(owner) && memory == old(memory)
                && size == old(size) && free == old(free) && freep == old(freep)
      ensures !Fits(old(size), old(free), nunits) && more.Some? ==>
                Asked(old(owner), owner, old(memory), memory, more.value, nunits)
    {
      prevp := freep;
      ghost var s: nat := StartSearch(nunits);
      ghost var v: nat, k: nat, grown := 0, s, false;
      kp := 0;
      p := ptr[prevp];
      while true
        invariant Valid() && freep != 0 && live == old(live)
        invariant s < |free| && free[s] == freep && Searching(size, free, prevp, p, nunits, s, v, k)
        invariant !grown ==>
                    && owner == old(owner) && memory == old(memory) && brk == old(brk)
                    && size == old(size) && free == old(free) && freep == old(freep)
        invariant grown ==>
                    && more.Some? && Fits(size, free, nunits) && !Fits(old(size), old(free), nunits)
                    && Asked(old(owner), owner, old(memory), memory, more.value, nunits)
        decreases !grown, |free| - v
      {
        kp := Around(|free|, k + 1);
        assert SizeAt(size, free, kp);
        if size[p] >= nunits {
          FoundAt(base, size, free, prevp, p, nunits, s, v, k);
          return true, prevp, p, kp;
        }
        if p == freep {
          PassOne(base, size, free, prevp, p, nunits, s, v, k);
          prevp, p, s := Refill(nunits, more);
          if prevp == 0 { return false, prevp, p, kp; }
          grown, v, k := true, 0, s;
        } else {
          GoOn(base, ptr, size, free, prevp, p, nunits, s, v, k);
          v, k := v + 1, kp;
          prevp := p;
          p := ptr[p];
        }
      }
    }

    /** malloc's first call: the list is &base alone. */
    method StartList()
      requires Valid() && freep == 0
      modifies this`ptr, this`size, this`freep, this`free
      ensures Valid() && freep == base && free == [base] && size == old(size)[base := 0]
    {
      EmptyHeap(base, ptr, size);
      ptr := ptr[base := base];
      freep := base;
      size := size[base := 0];
      free := [base];
    }

    /** malloc from its search on. */
    method MallocFrom(nunits: nat, more: Option<nat>) returns (r: nat)
      requires Valid() && freep != 0 && nunits >= 1
      requires more.Some? ==> more.value >= brk
      modifies this
      ensures Valid() && freep != 0
      ensures r != 0 ==> r > 1 && r - 1 !in old(live) && live == old(live)[r - 1 := nunits]
      ensures r != 0 <==> Fits(old(size), old(free), nunits) || more.Some?
      ensures r == 0 ==> live == old(live) && owner == old(owner)
      ensures Fits(old(size), old(free), nunits) ==> TakenFrom(old(size), old(free), old(freep), r - 1, nunits)
      ensures Fits(old(size), old(free), nunits) || more.None? ==>
                owner.Keys == old(owner.Keys) && memory == old(memory)
      ensures !Fits(old(size), old(free), nunits) && more.Some? ==>
                Asked(old(owner), owner, old(memory), memory, more.value, nunits)
    {
      var found, prevp, p;
      ghost var kp;
      found, prevp, p, kp := FindBlock(nunits, more);
      r := 0;
      if found {
        assert NextFit(size, free, freep, kp, nunits);
        r := Carve(prevp, p, nunits, kp);
      }
    }

    /**
     malloc, where more is what sbrk answers if asked; 0 stands for failure. Any request is
     taken, but if it makes sbrk's count negative the blocks outgrow the memory there is.
     */
    method Malloc(nbytes: Word, more: Option<nat>) returns (r: nat)
      requires Valid()
      requires more.Some? ==> more.value >= brk
      modifies this
      ensures Valid() && freep != 0
      ensures r != 0 ==> r > 1 && r - 1 !in old(live) && live == old(live)[r - 1 := UnitsFor(nbytes)]
      ensures r != 0 <==> Fits(old(size), old(free), UnitsFor(nbytes)) || more.Some?
      ensures r == 0 ==> live == old(live) && owner == old(owner)
      ensures Fits(old(size), old(free), UnitsFor(nbytes)) ==>
                TakenFrom(old(size), old(free), old(freep), r - 1, UnitsFor(nbytes))
      ensures Fits(old(size), old(free), UnitsFor(nbytes)) || more.None? ==>
                owner.Keys == old(owner.Keys) && memory == old(memory)
      ensures !Fits(old(size), old(free), UnitsFor(nbytes)) && more.Some? ==>
                Asked(old(owner), owner, old(memory), memory, more.value, UnitsFor(nbytes))
      ensures old(Backed()) ==> (Backed() <==> owner.Keys == old(owner.Keys) || Honest(UnitsFor(nbytes)))
    {
      if more.Some? { SbrkGives(memory, more.value, UnitsFor(nbytes)); }
      if freep == 0 {
        StartList();
        assert forall i: nat :: TooSmall(old(size), old(free), i, UnitsFor(nbytes));
        assert forall i: nat :: TooSmall(size, free, i, UnitsFor(nbytes));
      }
      r := MallocFrom(UnitsFor(nbytes), more);
    }
  }

  /** A first request of two gigabytes, or of more: sbrk succeeds, gives nothing, and malloc returns a block of it. */
  method HugeRequest(b: nat, start: nat, nbytes: Word) returns (a: Allocator, r: nat)
    requires 0 < b < start && 0x7FFF_FFF0 < nbytes < WRAP - HEADER + 1
    ensures fresh(a) && a.Valid() && r != 0 && a.memory == {} && !a.Backed()
  {
    a := new Allocator(b, start);
    r := a.Malloc(nbytes, Some(start));
    HugeCount(start, nbytes);
    if a.Backed() { a.LiveIsBacked(r - 1); }
    assert r - 1 in Units(r - 1, a.live[r - 1]);
  }
}
