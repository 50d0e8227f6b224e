// Sums over sequences.
module Sums {

  function Sum(s: seq<int>): int {
    if s == [] then 0 else Sum(s[..|s| - 1]) + s[|s| - 1]
  }

  lemma SumSnoc(s: seq<int>, x: int)
    ensures Sum(s + [x]) == Sum(s) + x
  {
    assert (s + [x])[..|s|] == s;
  }

  lemma {:induction false} SumUpdate(s: seq<int>, i: nat, x: int)
    requires i < |s|
    ensures Sum(s[i := x]) == Sum(s) - s[i] + x
    decreases |s|
  {
    var n := |s| - 1;
    if i == n {
      assert s[i := x][..n] == s[..n];
    } else {
      assert s[i := x][..n] == s[..n][i := x];
      SumUpdate(s[..n], i, x);
    }
  }

  lemma {:induction false} SumUpper(s: seq<int>, hi: int)
    requires forall i :: 0 <= i < |s| ==> s[i] <= hi
    ensures Sum(s) <= hi * |s|
  {
    if s != [] {
      SumUpper(s[..|s| - 1], hi);
      assert hi * |s| == hi * (|s| - 1) + hi;
    }
  }

  lemma {:induction false} SumZero(s: seq<int>)
    requires forall i :: 0 <= i < |s| ==> s[i] == 0
    ensures Sum(s) == 0
  {
    if s != [] {
      SumZero(s[..|s| - 1]);
    }
  }

  /** A sum of non-negative terms is at least any of them. */
  lemma {:induction false} SumTerm(s: seq<int>, i: nat)
    requires i < |s| && forall k :: 0 <= k < |s| ==> s[k] >= 0
    ensures 0 <= s[i] <= Sum(s)
  {
    var n := |s| - 1;
    if i == n {
      SumNonNegative(s[..n]);
    } else {
      SumTerm(s[..n], i);
    }
  }

  lemma {:induction false} SumNonNegative(s: seq<int>)
    requires forall k :: 0 <= k < |s| ==> s[k] >= 0
    ensures Sum(s) >= 0
  {
    if s != [] {
      SumNonNegative(s[..|s| - 1]);
    }
  }

  /** Two different terms together. */
  lemma SumTwoTerms(s: seq<int>, i: nat, j: nat)
    requires i < |s| && j < |s| && i != j && forall k :: 0 <= k < |s| ==> s[k] >= 0
    ensures s[i] + s[j] <= Sum(s)
  {
    SumUpdate(s, i, 0);
    SumTerm(s[i := 0], j);
  }

  lemma {:induction false} SumMonotone(a: seq<int>, b: seq<int>)
    requires |a| == |b| && forall i :: 0 <= i < |a| ==> a[i] <= b[i]
    ensures Sum(a) <= Sum(b)
    ensures (exists i :: 0 <= i < |a| && a[i] < b[i]) ==> Sum(a) < Sum(b)
  {
    if a != [] {
      var n := |a| - 1;
      SumMonotone(a[..n], b[..n]);
      if i :| 0 <= i < |a| && a[i] < b[i] && i < n {
        assert a[..n][i] < b[..n][i];
      }
    }
  }

  lemma {:induction false} SumScale(a: seq<int>, b: seq<int>, c: int)
    requires |a| == |b| && forall i :: 0 <= i < |a| ==> b[i] == c * a[i]
    ensures Sum(b) == c * Sum(a)
  {
    if a != [] {
      var n := |a| - 1;
      SumScale(a[..n], b[..n], c);
    }
  }

  lemma {:induction false} SumPad(s: seq<int>)
    ensures Sum([0] + s) == Sum(s)
  {
    if s == [] {
      assert ([0] + s)[..0] == [];
    } else {
      var n := |s| - 1;
      assert ([0] + s)[..n + 1] == [0] + s[..n];
      SumPad(s[..n]);
    }
  }

  lemma {:induction false} SumSplit(s: seq<int>, k: nat)
    requires k <= |s|
    ensures Sum(s) == Sum(s[..k]) + Sum(s[k..])
    decreases |s|
  {
    if k == |s| {
      assert s[..k] == s;
    } else {
      var n := |s| - 1;
      assert s[..n][..k] == s[..k] && s[k..][..n - k] == s[..n][k..];
      SumSplit(s[..n], k);
    }
  }
}
