// The Kraft sum of a list of code lengths.
module Kraft {
  import opened Words
  import opened Sums

  /** Share of the 2^d codes of length d that a code of length l uses up. */
  function Share(d: nat, l: int): nat {
    if 0 <= l <= d then Pow2(d - l) else 0
  }

  function Shares(len: seq<int>, d: nat): (s: seq<int>)
    ensures |s| == |len| && forall i :: 0 <= i < |s| ==> s[i] == Share(d, len[i])
  {
    seq(|len|, i requires 0 <= i < |len| => Share(d, len[i]))
  }

  /** The Kraft sum, as a multiple of 2^-d. */
  function KraftSum(len: seq<int>, d: nat): int {
    Sum(Shares(len, d))
  }

  lemma ShareScale(d: nat, e: nat, l: int)
    requires 0 <= l <= d
    ensures Share(d + e, l) == Pow2(e) * Share(d, l)
  {
    Pow2Add(e, d - l);
  }

  /** The Kraft equality does not depend on the scale. */
  lemma KraftScale(len: seq<int>, d: nat, e: nat)
    requires forall i :: 0 <= i < |len| ==> 0 <= len[i] <= d
    ensures KraftSum(len, d + e) == Pow2(d + e) <==> KraftSum(len, d) == Pow2(d)
  {
    var a, b := Shares(len, d), Shares(len, d + e);
    forall i | 0 <= i < |a| ensures b[i] == Pow2(e) * a[i] {
      ShareScale(d, e, len[i]);
    }
    SumScale(a, b, Pow2(e));
    Pow2Add(e, d);
    Cancel(Pow2(e), Sum(a), Pow2(d));
  }

  lemma Cancel(c: int, x: int, y: int)
    requires c > 0
    ensures c * x == c * y <==> x == y
  {
    if c * x == c * y {
      assert c * (x - y) == 0;
    }
  }
}
