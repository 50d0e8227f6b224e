// Permutations of index ranges, and rearrangements of array segments.
module Perm {

  /** A sequence that lists each of 0, 1, ..., |p|-1 exactly once. */
  ghost predicate IsPerm(p: seq<int>) {
    && (forall i :: 0 <= i < |p| ==> 0 <= p[i] < |p|)
    && (forall i, j :: 0 <= i < j < |p| ==> p[i] != p[j])
  }

  /** The integers in [lo, hi) as a set. */
  ghost function Range(lo: int, hi: int): (r: set<int>)
    ensures forall x :: x in r <==> lo <= x < hi
    ensures lo <= hi ==> |r| == hi - lo
    decreases hi - lo
  {
    if lo >= hi then {} else Range(lo, hi - 1) + {hi - 1}
  }

  lemma {:induction false} SubsetCard<T(!new)>(a: set<T>, b: set<T>)
    requires a <= b
    ensures |a| <= |b|
    ensures |a| == |b| ==> a == b
    decreases |a|
  {
    if a != {} {
      var x :| x in a;
      SubsetCard(a - {x}, b - {x});
      assert a == (a - {x}) + {x} && b == (b - {x}) + {x};
    }
  }

  /** The set of elements of a sequence. */
  ghost function Elems<T(!new)>(s: seq<T>): (r: set<T>)
    ensures forall x :: x in r <==> x in s
  {
    if s == [] then {} else Elems(s[..|s| - 1]) + {s[|s| - 1]}
  }

  lemma {:induction false} DistinctElems<T(!new)>(s: seq<T>)
    requires forall i, j :: 0 <= i < j < |s| ==> s[i] != s[j]
    ensures |Elems(s)| == |s|
  {
    if s != [] {
      DistinctElems(s[..|s| - 1]);
    }
  }

  /** A permutation takes every value: pigeonhole on a finite range. */
  lemma PermHits(p: seq<int>, x: int) returns (i: int)
    requires IsPerm(p) && 0 <= x < |p|
    ensures 0 <= i < |p| && p[i] == x
  {
    var values, range := Elems(p), Range(0, |p|);
    DistinctElems(p);
    assert values <= range;
    SubsetCard(values, range);
    assert x in p;
    i :| 0 <= i < |p| && p[i] == x;
  }

  /** `b` rearranges `a` inside [lo, hi) and agrees with it everywhere else. */
  ghost predicate Permutes<T>(a: seq<T>, b: seq<T>, lo: int, hi: int) {
    && |a| == |b|
    && multiset(a) == multiset(b)
    && (forall k :: 0 <= k < |a| && !(lo <= k < hi) ==> a[k] == b[k])
  }

  lemma PermutesSegment<T>(a: seq<T>, b: seq<T>, lo: int, hi: int)
    requires 0 <= lo <= hi <= |a|
    requires Permutes(a, b, lo, hi)
    ensures multiset(a[lo..hi]) == multiset(b[lo..hi])
  {
    assert a[..lo] == b[..lo] && a[hi..] == b[hi..];
    SegmentCounts(a, lo, hi);
    SegmentCounts(b, lo, hi);
    SameRest(multiset(a[..lo]) + multiset(a[hi..]), multiset(a[lo..hi]), multiset(b[lo..hi]));
  }

  /** What is in a sequence is in a segment of it or around that. */
  lemma SegmentCounts<T>(a: seq<T>, lo: int, hi: int)
    requires 0 <= lo <= hi <= |a|
    ensures multiset(a) == (multiset(a[..lo]) + multiset(a[hi..])) + multiset(a[lo..hi])
  {
    var x, y, z := a[..lo], a[lo..hi], a[hi..];
    assert a == (x + y) + z;
    assert multiset((x + y) + z) == multiset(x + y) + multiset(z);
    assert multiset(x + y) == multiset(x) + multiset(y);
  }

  lemma SameRest<T>(outside: multiset<T>, p: multiset<T>, q: multiset<T>)
    requires outside + p == outside + q
    ensures p == q
  {
    assert p == (outside + p) - outside;
    assert q == (outside + q) - outside;
  }

  /** Every element of the rearranged segment was somewhere in that segment before. */
  lemma PermutesFrom<T>(a: seq<T>, b: seq<T>, lo: int, hi: int, k: int) returns (i: int)
    requires 0 <= lo <= k < hi <= |a|
    requires Permutes(a, b, lo, hi)
    ensures lo <= i < hi && a[i] == b[k]
  {
    PermutesSegment(a, b, lo, hi);
    assert b[lo..hi][k - lo] == b[k];
    assert b[k] in multiset(b[lo..hi]);
    assert b[k] in a[lo..hi];
    i :| 0 <= i < hi - lo && a[lo..hi][i] == b[k];
    i := i + lo;
  }

  lemma {:induction false} DistinctCount<T>(a: seq<T>, x: T)
    requires forall i, j :: 0 <= i < j < |a| ==> a[i] != a[j]
    ensures multiset(a)[x] <= 1
  {
    if a == [] {
    } else {
      var b := a[..|a| - 1];
      assert a == b + [a[|a| - 1]];
      DistinctCount(b, x);
      if x == a[|a| - 1] {
        assert x !in b;
        assert multiset(b)[x] == 0;
      }
    }
  }

  lemma MultisetDistinct<T>(a: seq<T>, b: seq<T>)
    requires multiset(a) == multiset(b)
    requires forall i, j :: 0 <= i < j < |a| ==> a[i] != a[j]
    ensures |a| == |b|
    ensures forall i, j :: 0 <= i < j < |b| ==> b[i] != b[j]
  {
    assert |multiset(a)| == |a| && |multiset(b)| == |b|;
    forall i, j | 0 <= i < j < |b| ensures b[i] != b[j] {
      DistinctCount(a, b[i]);
      assert b == b[..j] + [b[j]] + b[j+1..];
      assert b[..j][i] == b[i];
      assert b[i] in multiset(b[..j]);
      assert multiset(b)[b[j]] >= multiset(b[..j])[b[j]] + 1;
    }
  }

  lemma PermutesKeepsPerm(a: seq<int>, b: seq<int>, lo: int, hi: int)
    requires IsPerm(a) && Permutes(a, b, lo, hi)
    ensures IsPerm(b)
  {
    MultisetDistinct(a, b);
    forall i | 0 <= i < |b| ensures 0 <= b[i] < |b| {
      assert b[i] in multiset(b);
      assert b[i] in a;
    }
  }

  lemma SwapKeepsMultiset<T>(s: seq<T>, i: int, j: int)
    requires 0 <= i < |s| && 0 <= j < |s|
    ensures multiset(s[i := s[j]][j := s[i]]) == multiset(s)
  {
  }
}
