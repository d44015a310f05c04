/** Facts about duplicate-free lists of node ids, shared by both simulators. */
module Counting {

  /** No element occurs twice. */
  predicate Distinct<T(==)>(s: seq<T>) {
    forall i, j :: 0 <= i < j < |s| ==> s[i] != s[j]
  }

  /** Every element lies in [0, n). */
  predicate Below(s: seq<int>, n: int) {
    forall k :: 0 <= k < |s| ==> 0 <= s[k] < n
  }

  /** The ids 0 .. n-1. */
  ghost function Range(n: nat): (r: set<int>)
    ensures forall x :: x in r <==> 0 <= x < n
    ensures |r| == n
  {
    if n == 0 then {} else Range(n - 1) + {n - 1}
  }

  lemma {:induction false} DistinctCard<T>(s: seq<T>)
    requires Distinct(s)
    ensures |set x | x in s| == |s|
  {
    if s != [] {
      var init := s[..|s| - 1];
      DistinctCard(init);
      assert s[|s| - 1] !in init;
      assert (set x | x in s) == (set x | x in init) + {s[|s| - 1]};
    }
  }

  lemma {:induction false} SubsetCard<T>(a: set<T>, b: set<T>)
    requires a <= b
    ensures |a| <= |b|
    decreases |a|
  {
    if a != {} {
      assert exists x :: x in a;
      var x :| x in a;
      SubsetCard(a - {x}, b - {x});
    }
  }

  lemma {:induction false} StrictSubsetCard<T>(a: set<T>, b: set<T>)
    requires a <= b && a != b
    ensures |a| < |b|
  {
    assert exists x :: x in b && x !in a;
    var x :| x in b && x !in a;
    SubsetCard(a, b - {x});
  }

  /** A duplicate-free list of ids below n holds at most n of them, and exactly n iff it holds all of them. */
  lemma {:induction false} Pigeonhole(s: seq<int>, n: nat)
    requires Distinct(s) && Below(s, n)
    ensures |s| <= n
    ensures |s| == n <==> forall x :: 0 <= x < n ==> x in s
  {
    var elems := set x | x in s;
    DistinctCard(s);
    assert elems <= Range(n);
    SubsetCard(elems, Range(n));
    if |s| == n {
      if elems != Range(n) {
        StrictSubsetCard(elems, Range(n));
      }
      forall x | 0 <= x < n
        ensures x in s
      {
        assert x in elems;
      }
    } else if forall x :: 0 <= x < n ==> x in s {
      assert Range(n) <= elems;
      SubsetCard(Range(n), elems);
    }
  }
}
