// Cyclic rotations of a block, compared character by character: the order
// that block sorting is about.
module Rotation {
  import opened Words
  import opened Perm

  /** Character i of the block, continued periodically. */
  ghost function At(b: seq<byte>, i: nat): int {
    if |b| == 0 then 0 else if i < |b| then b[i] else At(b, i - |b|)
  }

  /** Compares the h characters of b starting at i with the h characters starting at j: -1, 0 or 1. */
  ghost function Cmp(b: seq<byte>, i: nat, j: nat, h: nat): (c: int)
    ensures -1 <= c <= 1
    decreases h
  {
    if h == 0 then 0
    else if At(b, i) < At(b, j) then -1
    else if At(b, i) > At(b, j) then 1
    else Cmp(b, i + 1, j + 1, h - 1)
  }

  /** p lists the start positions of all rotations of b in non-decreasing order; equal rotations in any order. */
  ghost predicate SortedRotations(b: seq<byte>, p: seq<int>) {
    && |p| == |b| && IsPerm(p)
    && forall i, j {:trigger Cmp(b, p[i], p[j], |b|)} :: 0 <= i <= j < |p| ==> Cmp(b, p[i], p[j], |b|) <= 0
  }

  lemma {:induction false} CmpSplit(b: seq<byte>, i: nat, j: nat, h1: nat, h2: nat)
    ensures Cmp(b, i, j, h1 + h2) == if Cmp(b, i, j, h1) != 0 then Cmp(b, i, j, h1) else Cmp(b, i + h1, j + h1, h2)
    decreases h1
  {
    if h1 > 0 && At(b, i) == At(b, j) {
      CmpSplit(b, i + 1, j + 1, h1 - 1, h2);
    }
  }

  lemma {:induction false} CmpAnti(b: seq<byte>, i: nat, j: nat, h: nat)
    ensures Cmp(b, j, i, h) == -Cmp(b, i, j, h)
    decreases h
  {
    if h > 0 && At(b, i) == At(b, j) {
      CmpAnti(b, i + 1, j + 1, h - 1);
    }
  }

  lemma {:induction false} CmpTrans(b: seq<byte>, i: nat, j: nat, k: nat, h: nat)
    ensures Cmp(b, i, j, h) <= 0 && Cmp(b, j, k, h) <= 0 ==>
              Cmp(b, i, k, h) <= 0 && (Cmp(b, i, k, h) == 0 ==> Cmp(b, i, j, h) == 0 && Cmp(b, j, k, h) == 0)
    ensures Cmp(b, i, j, h) == 0 ==> Cmp(b, i, k, h) == Cmp(b, j, k, h)
    ensures Cmp(b, j, k, h) == 0 ==> Cmp(b, i, k, h) == Cmp(b, i, j, h)
    decreases h
  {
    if h > 0 && At(b, i) == At(b, j) == At(b, k) {
      CmpTrans(b, i + 1, j + 1, k + 1, h - 1);
    }
  }

  lemma AtPeriod(b: seq<byte>, i: nat)
    ensures At(b, i + |b|) == At(b, i)
  {
  }

  /** Start positions count modulo the block length. */
  lemma {:induction false} CmpPeriod(b: seq<byte>, i: nat, j: nat, h: nat)
    ensures Cmp(b, i + |b|, j, h) == Cmp(b, i, j, h)
    ensures Cmp(b, i, j + |b|, h) == Cmp(b, i, j, h)
    decreases h
  {
    AtPeriod(b, i);
    AtPeriod(b, j);
    if h > 0 {
      CmpPeriod(b, i + 1, j + 1, h - 1);
      assert (i + |b|) + 1 == (i + 1) + |b| && (j + |b|) + 1 == (j + 1) + |b|;
    }
  }

  /** Equal whole rotations stay equal however far they are compared. */
  lemma {:induction false} CmpEqualForever(b: seq<byte>, i: nat, j: nat, h: nat)
    requires |b| > 0 && Cmp(b, i, j, |b|) == 0
    ensures Cmp(b, i, j, h) == 0
    decreases h
  {
    var n := |b|;
    if h > 0 {
      assert At(b, i) == At(b, j);
      CmpSplit(b, i + 1, j + 1, n - 1, 1);
      CmpSplit(b, i, j, 1, n - 1);
      AtPeriod(b, i);
      AtPeriod(b, j);
      assert Cmp(b, i + 1, j + 1, n - 1) == 0;
      assert Cmp(b, i + n, j + n, 1) == 0;
      CmpEqualForever(b, i + 1, j + 1, h - 1);
    }
  }

  /** Comparing at least a whole block decides like comparing exactly one. */
  lemma CmpWhole(b: seq<byte>, i: nat, j: nat, h: nat)
    requires 0 < |b| <= h
    ensures Cmp(b, i, j, h) == Cmp(b, i, j, |b|)
  {
    CmpSplit(b, i, j, |b|, h - |b|);
    if Cmp(b, i, j, |b|) == 0 {
      CmpEqualForever(b, i, j, h);
    }
  }

  /** The rotation of b that begins at position i. */
  ghost function Turned(b: seq<byte>, i: nat): (r: seq<byte>)
    requires i < |b|
    ensures |r| == |b|
  {
    b[i..] + b[..i]
  }

  /** Lexicographic order: the first difference decides. */
  ghost predicate Less(s: seq<byte>, t: seq<byte>)
    requires |s| == |t|
  {
    exists k {:trigger s[k]} :: 0 <= k < |s| && s[..k] == t[..k] && s[k] < t[k]
  }

  lemma LessSnoc(s: seq<byte>, t: seq<byte>, x: byte, y: byte)
    requires |s| == |t|
    ensures Less(s + [x], t + [y]) <==> Less(s, t) || (s == t && x < y)
  {
    var s2, t2 := s + [x], t + [y];
    if k :| 0 <= k < |s| && s[..k] == t[..k] && s[k] < t[k] {
      assert s2[..k] == s[..k] && t2[..k] == t[..k] && s2[k] < t2[k];
    }
    if s == t && x < y {
      assert s2[..|s|] == s && t2[..|s|] == t && s2[|s|] < t2[|s|];
    }
    if k :| 0 <= k < |s2| && s2[..k] == t2[..k] && s2[k] < t2[k] {
      if k < |s| {
        assert s2[..k] == s[..k] && t2[..k] == t[..k] && s[k] < t[k];
      } else {
        assert s2[..k] == s && t2[..k] == t;
      }
    }
  }

  lemma TurnedAt(b: seq<byte>, i: nat, m: nat)
    requires i < |b| && m < |b|
    ensures Turned(b, i)[m] as int == At(b, i + m)
  {
    if i + m >= |b| {
      assert At(b, i + m) == At(b, i + m - |b|);
    }
  }

  lemma {:induction false} CmpPrefix(b: seq<byte>, i: nat, j: nat, h: nat)
    requires i < |b| && j < |b| && h <= |b|
    ensures Cmp(b, i, j, h) < 0 <==> Less(Turned(b, i)[..h], Turned(b, j)[..h])
    ensures Cmp(b, i, j, h) == 0 <==> Turned(b, i)[..h] == Turned(b, j)[..h]
    decreases h
  {
    hide At, Less, Turned;
    var s, t := Turned(b, i), Turned(b, j);
    if h == 0 {
      NoneLess();
      assert s[..0] == [] && t[..0] == [];
    } else {
      CmpPrefix(b, i, j, h - 1);
      CmpSplit(b, i, j, h - 1, 1);
      TurnedAt(b, i, h - 1);
      TurnedAt(b, j, h - 1);
      LessSnoc(s[..h - 1], t[..h - 1], s[h - 1], t[h - 1]);
      assert s[..h] == s[..h - 1] + [s[h - 1]] && t[..h] == t[..h - 1] + [t[h - 1]];
      assert Cmp(b, i + (h - 1), j + (h - 1), 1) == if s[h - 1] < t[h - 1] then -1 else if s[h - 1] > t[h - 1] then 1 else 0;
    }
  }

  lemma NoneLess()
    ensures !Less([], [])
  {
  }

  /** What sorted means: in the order of p, no rotation is lexicographically less than one before it. */
  lemma SortedLaw(b: seq<byte>, p: seq<int>)
    requires |p| == |b| && IsPerm(p)
    ensures SortedRotations(b, p) <==>
            forall i, j {:trigger Turned(b, p[i]), Turned(b, p[j])} :: 0 <= i <= j < |p| ==> !Less(Turned(b, p[j]), Turned(b, p[i]))
  {
    hide Less, Turned, Cmp;
    forall i, j | 0 <= i <= j < |p| ensures Cmp(b, p[i], p[j], |b|) <= 0 <==> !Less(Turned(b, p[j]), Turned(b, p[i])) {
      CmpPrefix(b, p[j], p[i], |b|);
      CmpAnti(b, p[i], p[j], |b|);
      assert Turned(b, p[i])[..|b|] == Turned(b, p[i]) && Turned(b, p[j])[..|b|] == Turned(b, p[j]);
    }
  }
}
