/** Notions used throughout. */
module Common {
  /** 32-bit arithmetic wraps here. */
  const WRAP := 0x1_0000_0000

  type Word = x: int | 0 <= x < 0x1_0000_0000

  /** param.h: the most blocks one operation may log. */
  const MAXOPBLOCKS := 10

  /** param.h: the most data blocks in the log, and the buffers in the cache. */
  const LOGSIZE := 30
  const NBUF := 30

  datatype Option<T> = None | Some(value: T)

  function Max(a: int, b: int): int {
    if a < b then b else a
  }

  function Min(a: int, b: int): int {
    if a < b then a else b
  }

  ghost predicate Distinct(s: seq<nat>) {
    forall i, j :: 0 <= i < j < |s| ==> s[i] != s[j]
  }

  function Elems(s: seq<nat>): set<nat> {
    set x | x in s
  }

  lemma {:induction false} DistinctCard(s: seq<nat>)
    requires Distinct(s)
    ensures |Elems(s)| == |s|
  {
    if s == [] {
      assert Elems(s) == {};
    } else {
      var t := s[..|s| - 1];
      DistinctCard(t);
      assert Elems(s) == Elems(t) + {s[|s| - 1]};
    }
  }

  lemma {:induction false} SubsetCard(a: set<nat>, b: set<nat>)
    requires a <= b
    ensures |a| <= |b|
    ensures |a| == |b| ==> a == b
  {
    if a != {} {
      var x :| x in a;
      SubsetCard(a - {x}, b - {x});
    }
  }

  /** Different numbers below n are at most n in number. */
  lemma {:induction false} Pigeonhole(s: seq<nat>, n: nat)
    requires Distinct(s) && forall i :: 0 <= i < |s| ==> s[i] < n
    ensures |s| <= n
  {
    var below := seq(n, i requires 0 <= i < n => i);
    DistinctCard(s);
    DistinctCard(below);
    forall x | x in Elems(s)
      ensures x in Elems(below)
    {
      assert below[x] == x;
    }
    SubsetCard(Elems(s), Elems(below));
  }
}
