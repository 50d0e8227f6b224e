// The three-way quicksort that the fallback block sorter runs on one bucket
// of `fmap`, comparing positions by their equivalence class `eclass`.
module FallbackQSort {
  import opened Perm
  import opened Words

  /** Every entry of fmap[lo..hi] indexes eclass. */
  ghost predicate Indexes(fmap: seq<int>, eclass: seq<int>, lo: int, hi: int) {
    && 0 <= lo && hi < |fmap|
    && forall k :: lo <= k <= hi ==> 0 <= fmap[k] < |eclass|
  }

  /** The class by which entry k of fmap is compared. */
  ghost function Key(fmap: seq<int>, eclass: seq<int>, k: int): int {
    if 0 <= k < |fmap| && 0 <= fmap[k] < |eclass| then eclass[fmap[k]] else 0
  }

  ghost predicate Ordered(fmap: seq<int>, eclass: seq<int>, lo: int, hi: int) {
    forall a, b :: lo <= a <= b <= hi ==> Key(fmap, eclass, a) <= Key(fmap, eclass, b)
  }

  lemma PermutesIndexes(f: seq<int>, g: seq<int>, e: seq<int>, lo: int, hi: int)
    requires Indexes(f, e, lo, hi) && lo <= hi + 1
    requires Permutes(f, g, lo, hi + 1)
    ensures Indexes(g, e, lo, hi)
  {
    forall k | lo <= k <= hi ensures 0 <= g[k] < |e| {
      var i := PermutesFrom(f, g, lo, hi + 1, k);
    }
  }

  /** Entry i sifted upwards with stride `gap` past every entry of a smaller class. */
  ghost function Sift(f: seq<int>, e: seq<int>, i: int, hi: int, gap: int): (g: seq<int>)
    requires 0 <= i <= hi < |f| && gap >= 1
    ensures |g| == |f|
    decreases hi - i
  {
    var j := i + gap;
    if j <= hi && Key(f, e, i) > Key(f, e, j) then Sift(f[i := f[j]][j := f[i]], e, j, hi, gap) else f
  }

  lemma {:induction false} SiftPermutes(f: seq<int>, e: seq<int>, i: int, hi: int, gap: int)
    requires 0 <= i <= hi < |f| && gap >= 1
    ensures Permutes(f, Sift(f, e, i, hi, gap), i, hi + 1)
    decreases hi - i
  {
    hide Key;
    var j := i + gap;
    if j <= hi && Key(f, e, i) > Key(f, e, j) {
      var s := f[i := f[j]][j := f[i]];
      SwapKeepsMultiset(f, i, j);
      SiftPermutes(s, e, j, hi, gap);
      SwapThenPermutes(f, s, Sift(s, e, j, hi, gap), i, j, hi);
    }
  }

  lemma SwapThenPermutes(f: seq<int>, s: seq<int>, g: seq<int>, i: int, j: int, hi: int)
    requires 0 <= i < j <= hi < |f| && s == f[i := f[j]][j := f[i]] && multiset(s) == multiset(f) && Permutes(s, g, j, hi + 1)
    ensures Permutes(f, g, i, hi + 1)
  {
  }

  /** Sifting with stride 1 into an ordered range leaves the longer range ordered. */
  lemma {:induction false} SiftOrders(f: seq<int>, e: seq<int>, i: int, hi: int)
    requires 0 <= i <= hi < |f|
    requires Ordered(f, e, i + 1, hi)
    ensures Ordered(Sift(f, e, i, hi, 1), e, i, hi)
    ensures Key(Sift(f, e, i, hi, 1), e, i) == if i < hi && Key(f, e, i) > Key(f, e, i + 1) then Key(f, e, i + 1) else Key(f, e, i)
    decreases hi - i
  {
    var j := i + 1;
    if j <= hi && Key(f, e, i) > Key(f, e, j) {
      var s := f[i := f[j]][j := f[i]];
      forall k | k != i && k != j ensures Key(s, e, k) == Key(f, e, k) {}
      assert Ordered(s, e, j + 1, hi);
      SiftOrders(s, e, j, hi);
      SiftPermutes(s, e, j, hi, 1);
      var g := Sift(s, e, j, hi, 1);
      assert Key(g, e, i) == Key(f, e, j) <= Key(g, e, j);
    }
  }

  /** Inserts fmap[i] into the gap-strided entries above it, moving a hole upwards. */
  method InsertFromLeft(fmap: array<int>, eclass: array<int>, i: int, hi: int, gap: int)
    requires fmap != eclass && 0 <= i <= hi && gap >= 1
    requires Indexes(fmap[..], eclass[..], i, hi)
    modifies fmap
    ensures fmap[..] == Sift(old(fmap[..]), eclass[..], i, hi, gap)
  {
    ghost var e := eclass[..];
    ghost var result := Sift(fmap[..], e, i, hi, gap);
    ghost var filled := fmap[..];  // fmap with tmp put back into the hole at j - gap
    var tmp := fmap[i];
    var ecTmp := eclass[tmp];
    var j := i + gap;
    while j <= hi && ecTmp > eclass[fmap[j]]
      invariant i + gap <= j <= hi + gap
      invariant |filled| == fmap.Length && filled[j - gap] == tmp
      invariant forall k :: 0 <= k < fmap.Length && k != j - gap ==> fmap[k] == filled[k]
      invariant forall k :: j <= k <= hi ==> filled[k] == old(fmap[k])
      invariant Sift(filled, e, j - gap, hi, gap) == result
    {
      filled := filled[j - gap := filled[j]][j := tmp];
      fmap[j - gap] := fmap[j];
      j := j + gap;
    }
    fmap[j - gap] := tmp;
    assert fmap[..] == filled;
  }

  /** Insertion sort of a small range, after a coarse pass with stride 4. */
  method SimpleSort(fmap: array<int>, eclass: array<int>, lo: int, hi: int)
    requires fmap != eclass && 0 <= lo <= hi + 1
    requires Indexes(fmap[..], eclass[..], lo, hi)
    modifies fmap
    ensures Permutes(old(fmap[..]), fmap[..], lo, hi + 1)
    ensures Ordered(fmap[..], eclass[..], lo, hi)
  {
    if lo == hi {
      return;
    }
    if hi - lo > 3 {
      var i := hi - 4;
      while i >= lo
        invariant lo - 1 <= i < hi
        invariant Permutes(old(fmap[..]), fmap[..], lo, hi + 1)
        invariant Indexes(fmap[..], eclass[..], lo, hi)
      {
        SiftPermutes(fmap[..], eclass[..], i, hi, 4);
        InsertFromLeft(fmap, eclass, i, hi, 4);
        PermutesIndexes(old(fmap[..]), fmap[..], eclass[..], lo, hi);
        i := i - 1;
      }
    }
    var i := hi - 1;
    while i >= lo
      invariant lo - 1 <= i <= hi - 1 || (lo == hi + 1 && i == hi - 1)
      invariant Permutes(old(fmap[..]), fmap[..], lo, hi + 1)
      invariant Indexes(fmap[..], eclass[..], lo, hi)
      invariant Ordered(fmap[..], eclass[..], i + 1, hi)
    {
      SiftPermutes(fmap[..], eclass[..], i, hi, 1);
      SiftOrders(fmap[..], eclass[..], i, hi);
      InsertFromLeft(fmap, eclass, i, hi, 1);
      PermutesIndexes(old(fmap[..]), fmap[..], eclass[..], lo, hi);
      i := i - 1;
    }
  }

  method Swap(fmap: array<int>, i: int, j: int)
    requires 0 <= i < fmap.Length && 0 <= j < fmap.Length
    modifies fmap
    ensures fmap[..] == Swapped(old(fmap[..]), i, j)
  {
    fmap[i], fmap[j] := fmap[j], fmap[i];
  }

  ghost function Swapped(f: seq<int>, i: int, j: int): (g: seq<int>)
    requires 0 <= i < |f| && 0 <= j < |f|
    ensures |g| == |f| && g[i] == f[j] && g[j] == f[i]
    ensures forall k :: 0 <= k < |f| && k != i && k != j ==> g[k] == f[k]
    ensures multiset(g) == multiset(f)
  {
    SwapKeepsMultiset(f, i, j);
    f[i := f[j]][j := f[i]]
  }

  /** The state of the scan: == med, < med, unknown, > med, == med. */
  ghost predicate Scanned(f: seq<int>, e: seq<int>, lo: int, hi: int, med: int,
                          ltLo: int, unLo: int, unHi: int, gtHi: int) {
    && 0 <= lo <= ltLo <= unLo <= unHi + 1 <= gtHi + 1 <= hi + 1 <= |f|
    && (forall k :: lo <= k < ltLo ==> Key(f, e, k) == med)
    && (forall k :: ltLo <= k < unLo ==> Key(f, e, k) < med)
    && (forall k :: unHi < k <= gtHi ==> Key(f, e, k) > med)
    && (forall k :: gtHi < k <= hi ==> Key(f, e, k) == med)
  }

  lemma SwapWithin(f0: seq<int>, f: seq<int>, e: seq<int>, lo: int, hi: int, i: int, j: int)
    requires Permutes(f0, f, lo, hi + 1) && Indexes(f, e, lo, hi)
    requires lo <= i <= hi && lo <= j <= hi
    ensures Permutes(f0, Swapped(f, i, j), lo, hi + 1)
    ensures Indexes(Swapped(f, i, j), e, lo, hi)
    ensures forall k :: Key(Swapped(f, i, j), e, k) == Key(f, e, if k == i then j else if k == j then i else k)
  {
  }

  lemma SwapLow(f: seq<int>, e: seq<int>, lo: int, hi: int, med: int, ltLo: int, unLo: int, unHi: int, gtHi: int)
    requires Scanned(f, e, lo, hi, med, ltLo, unLo, unHi, gtHi) && unLo <= unHi && Key(f, e, unLo) == med
    ensures Scanned(Swapped(f, unLo, ltLo), e, lo, hi, med, ltLo + 1, unLo + 1, unHi, gtHi)
  {
    var g := Swapped(f, unLo, ltLo);
    forall k ensures Key(g, e, k) == Key(f, e, if k == unLo then ltLo else if k == ltLo then unLo else k) {}
  }

  lemma SwapHigh(f: seq<int>, e: seq<int>, lo: int, hi: int, med: int, ltLo: int, unLo: int, unHi: int, gtHi: int)
    requires Scanned(f, e, lo, hi, med, ltLo, unLo, unHi, gtHi) && unLo <= unHi && Key(f, e, unHi) == med
    ensures Scanned(Swapped(f, unHi, gtHi), e, lo, hi, med, ltLo, unLo, unHi - 1, gtHi - 1)
  {
    var g := Swapped(f, unHi, gtHi);
    forall k ensures Key(g, e, k) == Key(f, e, if k == unHi then gtHi else if k == gtHi then unHi else k) {}
  }

  /** Moves unLo up to the first unknown entry above med, collecting entries equal to med at the left end. */
  method ScanUp(fmap: array<int>, eclass: array<int>, lo: int, hi: int, med: int,
                ltLo0: int, unLo0: int, unHi: int, gtHi: int) returns (ltLo: int, unLo: int)
    requires fmap != eclass && Indexes(fmap[..], eclass[..], lo, hi)
    requires Scanned(fmap[..], eclass[..], lo, hi, med, ltLo0, unLo0, unHi, gtHi)
    modifies fmap
    ensures Permutes(old(fmap[..]), fmap[..], lo, hi + 1)
    ensures Indexes(fmap[..], eclass[..], lo, hi)
    ensures Scanned(fmap[..], eclass[..], lo, hi, med, ltLo, unLo, unHi, gtHi)
    ensures ltLo0 <= ltLo && unLo0 <= unLo
    ensures unLo <= unHi ==> Key(fmap[..], eclass[..], unLo) > med
  {
    ltLo, unLo := ltLo0, unLo0;
    while true
      invariant ltLo0 <= ltLo && unLo0 <= unLo
      invariant Permutes(old(fmap[..]), fmap[..], lo, hi + 1)
      invariant Indexes(fmap[..], eclass[..], lo, hi)
      invariant Scanned(fmap[..], eclass[..], lo, hi, med, ltLo, unLo, unHi, gtHi)
      decreases unHi + 1 - unLo
    {
      if unLo > unHi {
        break;
      }
      var n := eclass[fmap[unLo]] - med;
      if n == 0 {
        SwapWithin(old(fmap[..]), fmap[..], eclass[..], lo, hi, unLo, ltLo);
        SwapLow(fmap[..], eclass[..], lo, hi, med, ltLo, unLo, unHi, gtHi);
        Swap(fmap, unLo, ltLo);
        ltLo := ltLo + 1;
        unLo := unLo + 1;
        continue;
      }
      if n > 0 {
        break;
      }
      unLo := unLo + 1;
    }
  }

  /** An entry that stands where it belongs is passed over. */
  lemma PassHigh(f: seq<int>, e: seq<int>, lo: int, hi: int, med: int, ltLo: int, unLo: int, unHi: int, gtHi: int)
    requires Scanned(f, e, lo, hi, med, ltLo, unLo, unHi, gtHi) && unLo <= unHi && Key(f, e, unHi) > med
    ensures Scanned(f, e, lo, hi, med, ltLo, unLo, unHi - 1, gtHi)
  {
  }

  lemma ScanBounds(f: seq<int>, e: seq<int>, lo: int, hi: int, med: int, ltLo: int, unLo: int, unHi: int, gtHi: int)
    requires Scanned(f, e, lo, hi, med, ltLo, unLo, unHi, gtHi) && Indexes(f, e, lo, hi) && unLo <= unHi
    ensures lo <= unLo && unHi <= gtHi <= hi < |f| && 0 <= lo && 0 <= f[unHi] < |e| && Key(f, e, unHi) == e[f[unHi]]
  {
  }

  lemma ScanLimits(f: seq<int>, e: seq<int>, lo: int, hi: int, med: int, ltLo: int, unLo: int, unHi: int, gtHi: int)
    requires Scanned(f, e, lo, hi, med, ltLo, unLo, unHi, gtHi)
    ensures 0 <= lo <= unLo && unHi <= gtHi <= hi < |f|
  {
  }

  lemma Unmoved(f: seq<int>, lo: int, hi: int)
    ensures Permutes(f, f, lo, hi)
  {
  }

  /** The mirror image of ScanUp: moves unHi down to the last unknown entry below med. */
  method ScanDown(fmap: array<int>, eclass: array<int>, lo: int, hi: int, med: int,
                  ltLo: int, unLo: int, unHi0: int, gtHi0: int) returns (unHi: int, gtHi: int)
    requires fmap != eclass && Indexes(fmap[..], eclass[..], lo, hi)
    requires Scanned(fmap[..], eclass[..], lo, hi, med, ltLo, unLo, unHi0, gtHi0)
    modifies fmap
    ensures Permutes(old(fmap[..]), fmap[..], lo, hi + 1)
    ensures Indexes(fmap[..], eclass[..], lo, hi)
    ensures Scanned(fmap[..], eclass[..], lo, hi, med, ltLo, unLo, unHi, gtHi)
    ensures unHi <= unHi0 && gtHi <= gtHi0
    ensures unLo <= unHi ==> fmap[unLo] == old(fmap[unLo])
    ensures unLo <= unHi ==> Key(fmap[..], eclass[..], unHi) < med
  {
    hide *;
    unHi, gtHi := unHi0, gtHi0;
    ScanLimits(fmap[..], eclass[..], lo, hi, med, ltLo, unLo, unHi, gtHi);
    Unmoved(fmap[..], lo, hi + 1);
    while true
      invariant unHi <= unHi0 && gtHi <= gtHi0 && 0 <= lo <= unLo && unHi <= gtHi <= hi < fmap.Length
      invariant forall k :: lo <= k <= unHi ==> fmap[k] == old(fmap[k])
      invariant Permutes(old(fmap[..]), fmap[..], lo, hi + 1)
      invariant Indexes(fmap[..], eclass[..], lo, hi)
      invariant Scanned(fmap[..], eclass[..], lo, hi, med, ltLo, unLo, unHi, gtHi)
      decreases unHi + 1 - unLo
    {
      if unLo > unHi {
        break;
      }
      ScanBounds(fmap[..], eclass[..], lo, hi, med, ltLo, unLo, unHi, gtHi);
      var n := eclass[fmap[unHi]] - med;
      if n == 0 {
        SwapWithin(old(fmap[..]), fmap[..], eclass[..], lo, hi, unHi, gtHi);
        SwapHigh(fmap[..], eclass[..], lo, hi, med, ltLo, unLo, unHi, gtHi);
        Swap(fmap, unHi, gtHi);
        gtHi := gtHi - 1;
        unHi := unHi - 1;
        continue;
      }
      if n < 0 {
        break;
      }
      PassHigh(fmap[..], eclass[..], lo, hi, med, ltLo, unLo, unHi, gtHi);
      unHi := unHi - 1;
    }
  }

  /** Three-way partition around med; entries equal to med are parked at both ends. */
  method Partition(fmap: array<int>, eclass: array<int>, lo: int, hi: int, med: int)
    returns (ltLo: int, unLo: int, unHi: int, gtHi: int)
    requires fmap != eclass && Indexes(fmap[..], eclass[..], lo, hi) && lo <= hi
    modifies fmap
    ensures Permutes(old(fmap[..]), fmap[..], lo, hi + 1)
    ensures Indexes(fmap[..], eclass[..], lo, hi)
    ensures Scanned(fmap[..], eclass[..], lo, hi, med, ltLo, unLo, unHi, gtHi)
    ensures unHi == unLo - 1
  {
    unLo, ltLo := lo, lo;
    unHi, gtHi := hi, hi;
    while true
      invariant Permutes(old(fmap[..]), fmap[..], lo, hi + 1)
      invariant Indexes(fmap[..], eclass[..], lo, hi)
      invariant Scanned(fmap[..], eclass[..], lo, hi, med, ltLo, unLo, unHi, gtHi)
      decreases unHi - unLo
    {
      ltLo, unLo := ScanUp(fmap, eclass, lo, hi, med, ltLo, unLo, unHi, gtHi);
      unHi, gtHi := ScanDown(fmap, eclass, lo, hi, med, ltLo, unLo, unHi, gtHi);
      if unLo > unHi {
        break;
      }
      SwapWithin(old(fmap[..]), fmap[..], eclass[..], lo, hi, unLo, unHi);
      Swap(fmap, unLo, unHi);
      unLo := unLo + 1;
      unHi := unHi - 1;
    }
  }

  /** `g` is `f` with the n entries from p1 and the n entries from p2 exchanged. */
  ghost predicate Exchanged(f: seq<int>, g: seq<int>, p1: int, p2: int, n: int) {
    && |g| == |f| && 0 <= n && 0 <= p1 && 0 <= p2 && p1 + n <= |f| && p2 + n <= |f|
    && (forall k {:trigger g[k]} :: p1 <= k < p1 + n ==> g[k] == f[p2 + (k - p1)])
    && (forall k {:trigger g[k]} :: p2 <= k < p2 + n ==> g[k] == f[p1 + (k - p2)])
    && (forall k {:trigger g[k]} :: 0 <= k < |f| && !(p1 <= k < p1 + n) && !(p2 <= k < p2 + n) ==> g[k] == f[k])
  }

  lemma ExchangeOne(f: seq<int>, g: seq<int>, p1: int, p2: int, i: int)
    requires Exchanged(f, g, p1, p2, i)
    requires p1 + i < p2 && p2 + i < |f|
    ensures Exchanged(f, Swapped(g, p1 + i, p2 + i), p1, p2, i + 1)
  {
  }

  lemma NoneExchanged(f: seq<int>, p1: int, p2: int)
    requires 0 <= p1 <= |f| && 0 <= p2 <= |f|
    ensures Exchanged(f, f, p1, p2, 0)
  {
  }

  method VSwap(fmap: array<int>, p1: int, p2: int, n: int)
    requires 0 <= n && 0 <= p1 && p1 + n <= p2 && p2 + n <= fmap.Length
    modifies fmap
    ensures Exchanged(old(fmap[..]), fmap[..], p1, p2, n)
    ensures multiset(fmap[..]) == multiset(old(fmap[..]))
  {
    hide Exchanged;
    var yyp1, yyp2, yyn := p1, p2, n;
    NoneExchanged(fmap[..], p1, p2);
    while yyn > 0
      invariant 0 <= yyn <= n && yyp1 == p1 + (n - yyn) && yyp2 == p2 + (n - yyn)
      invariant Exchanged(old(fmap[..]), fmap[..], p1, p2, n - yyn)
      invariant multiset(fmap[..]) == multiset(old(fmap[..]))
    {
      ExchangeOne(old(fmap[..]), fmap[..], p1, p2, n - yyn);
      Swap(fmap, yyp1, yyp2);
      yyp1 := yyp1 + 1;
      yyp2 := yyp2 + 1;
      yyn := yyn - 1;
    }
  }

  /** Below med up to n, equal to med between n and m, above med from m. */
  ghost predicate Split(f: seq<int>, e: seq<int>, lo: int, hi: int, med: int, n: int, m: int) {
    && lo - 1 <= n < m <= hi + 1
    && (forall k :: lo <= k <= n ==> Key(f, e, k) < med)
    && (forall k :: n < k < m ==> Key(f, e, k) == med)
    && (forall k :: m <= k <= hi ==> Key(f, e, k) > med)
  }

  lemma ExchangeLow(f: seq<int>, g: seq<int>, e: seq<int>, lo: int, hi: int, med: int,
                    ltLo: int, unLo: int, gtHi: int, n: int)
    requires Scanned(f, e, lo, hi, med, ltLo, unLo, unLo - 1, gtHi)
    requires n == if ltLo - lo < unLo - ltLo then ltLo - lo else unLo - ltLo
    requires Exchanged(f, g, lo, unLo - n, n)
    ensures forall k :: lo <= k < lo + (unLo - ltLo) ==> Key(g, e, k) < med
    ensures forall k :: lo + (unLo - ltLo) <= k < unLo ==> Key(g, e, k) == med
    ensures forall k :: !(lo <= k < unLo) ==> Key(g, e, k) == Key(f, e, k)
  {
    forall k
      ensures Key(g, e, k) == Key(f, e, if lo <= k < lo + n then unLo - n + (k - lo)
                                        else if unLo - n <= k < unLo then lo + (k - (unLo - n)) else k)
    {
    }
  }

  lemma ExchangeHigh(f: seq<int>, g: seq<int>, e: seq<int>, lo: int, hi: int, med: int,
                     unLo: int, gtHi: int, m: int)
    requires 0 <= lo <= unLo <= gtHi + 1 <= hi + 1 <= |f|
    requires forall k :: unLo <= k <= gtHi ==> Key(f, e, k) > med
    requires forall k :: gtHi < k <= hi ==> Key(f, e, k) == med
    requires m == if hi - gtHi < gtHi - unLo + 1 then hi - gtHi else gtHi - unLo + 1
    requires Exchanged(f, g, unLo, hi - m + 1, m)
    ensures forall k :: !(unLo <= k <= hi) ==> Key(g, e, k) == Key(f, e, k)
    ensures forall k :: unLo <= k < hi - (gtHi - unLo) ==> Key(g, e, k) == med
    ensures forall k :: hi - (gtHi - unLo) <= k <= hi ==> Key(g, e, k) > med
  {
    forall k
      ensures Key(g, e, k) == Key(f, e, if unLo <= k < unLo + m then hi - m + 1 + (k - unLo)
                                        else if hi - m + 1 <= k <= hi then unLo + (k - (hi - m + 1)) else k)
    {
    }
  }

  lemma Gathered(f: seq<int>, g: seq<int>, h: seq<int>, e: seq<int>, lo: int, hi: int, med: int,
                 ltLo: int, unLo: int, gtHi: int, n: int, m: int)
    requires Scanned(f, e, lo, hi, med, ltLo, unLo, unLo - 1, gtHi) && ltLo <= gtHi
    requires n == if ltLo - lo < unLo - ltLo then ltLo - lo else unLo - ltLo
    requires m == if hi - gtHi < gtHi - unLo + 1 then hi - gtHi else gtHi - unLo + 1
    requires Exchanged(f, g, lo, unLo - n, n) && Exchanged(g, h, unLo, hi - m + 1, m)
    requires multiset(f) == multiset(g) == multiset(h)
    ensures Permutes(f, h, lo, hi + 1)
    ensures Split(h, e, lo, hi, med, lo + unLo - ltLo - 1, hi - (gtHi - unLo + 1) + 1)
  {
    ExchangeLow(f, g, e, lo, hi, med, ltLo, unLo, gtHi, n);
    ExchangeHigh(g, h, e, lo, hi, med, unLo, gtHi, m);
    forall k | 0 <= k < |f| && !(lo <= k < hi + 1) ensures f[k] == h[k] {
      assert g[k] == f[k];
    }
  }

  /** Moves the entries equal to med from both ends of the range to its middle. */
  method GatherMiddle(fmap: array<int>, eclass: array<int>, lo: int, hi: int, med: int,
                      ltLo: int, unLo: int, unHi: int, gtHi: int) returns (n: int, m: int)
    requires fmap != eclass && Indexes(fmap[..], eclass[..], lo, hi)
    requires Scanned(fmap[..], eclass[..], lo, hi, med, ltLo, unLo, unHi, gtHi)
    requires unHi == unLo - 1 && ltLo <= gtHi
    modifies fmap
    ensures Permutes(old(fmap[..]), fmap[..], lo, hi + 1)
    ensures Split(fmap[..], eclass[..], lo, hi, med, n, m)
  {
    hide Permutes, Split, Exchanged, Indexes;
    ghost var f, e := fmap[..], eclass[..];
    var low := if ltLo - lo < unLo - ltLo then ltLo - lo else unLo - ltLo;
    VSwap(fmap, lo, unLo - low, low);
    ghost var g := fmap[..];
    var high := if hi - gtHi < gtHi - unHi then hi - gtHi else gtHi - unHi;
    VSwap(fmap, unLo, hi - high + 1, high);
    ghost var h := fmap[..];
    assert eclass[..] == e;
    n := lo + unLo - ltLo - 1;
    m := hi - (gtHi - unHi) + 1;
    Gathered(f, g, h, e, lo, hi, med, ltLo, unLo, gtHi, low, high);
  }

  /** One partitioning step: the two outer parts still need sorting, unless all entries were equal. */
  method SplitRange(fmap: array<int>, eclass: array<int>, lo: int, hi: int, med: int)
    returns (done: bool, n: int, m: int)
    requires fmap != eclass && Indexes(fmap[..], eclass[..], lo, hi) && lo <= hi
    requires exists k :: lo <= k <= hi && Key(fmap[..], eclass[..], k) == med
    modifies fmap
    ensures Permutes(old(fmap[..]), fmap[..], lo, hi + 1)
    ensures done ==> Ordered(fmap[..], eclass[..], lo, hi)
    ensures !done ==> Split(fmap[..], eclass[..], lo, hi, med, n, m) && n + 1 < m
  {
    var ltLo, unLo, unHi, gtHi := Partition(fmap, eclass, lo, hi, med);
    n, m := lo, hi;
    done := gtHi < ltLo;
    if !done {
      n, m := GatherMiddle(fmap, eclass, lo, hi, med, ltLo, unLo, unHi, gtHi);
      MedianSurvives(old(fmap[..]), fmap[..], eclass[..], lo, hi, med);
    }
  }

  lemma MedianSurvives(f: seq<int>, g: seq<int>, e: seq<int>, lo: int, hi: int, med: int)
    requires Indexes(f, e, lo, hi) && lo <= hi && Permutes(f, g, lo, hi + 1)
    requires exists k :: lo <= k <= hi && Key(f, e, k) == med
    ensures exists k :: lo <= k <= hi && Key(g, e, k) == med
  {
    var k :| lo <= k <= hi && Key(f, e, k) == med;
    var i := PermutesFrom(g, f, lo, hi + 1, k);
    assert Key(g, e, i) == med;
  }

  // The stack of ranges still to be sorted. Entry t spans [los[t]..his[t]].

  const SMALL_THRESH := 10
  const STACK_SIZE := 100

  ghost function Size(los: seq<int>, his: seq<int>, t: int): nat {
    if 0 <= t < |los| && t < |his| && los[t] <= his[t] then his[t] - los[t] + 1 else 0
  }

  ghost predicate Inside(los: seq<int>, his: seq<int>, t: int, a: int) {
    0 <= t < |los| && t < |his| && los[t] <= a <= his[t]
  }

  /** Some pending range contains both a and b. */
  ghost predicate Pending(los: seq<int>, his: seq<int>, a: int, b: int) {
    exists t :: Inside(los, his, t, a) && Inside(los, his, t, b)
  }

  /** Pending ranges lie in [lo..hi] and are disjoint. */
  ghost predicate StackOk(los: seq<int>, his: seq<int>, lo: int, hi: int) {
    && |los| == |his|
    && (forall t :: 0 <= t < |los| ==> lo <= los[t] <= his[t] + 1 <= hi + 1)
    && (forall t, u, a :: t != u && Inside(los, his, t, a) ==> !Inside(los, his, u, a))
  }

  /** The pending range at depth t has at most 1/2^t of all `total` entries. */
  ghost predicate Shares(los: seq<int>, his: seq<int>, total: int) {
    forall t: nat :: t < |los| ==> Size(los, his, t) * Pow2(t) <= total
  }

  /** Any two entries that no pending range contains together are already in order. */
  ghost predicate OrderedBut(f: seq<int>, e: seq<int>, lo: int, hi: int, los: seq<int>, his: seq<int>) {
    forall a, b :: lo <= a <= b <= hi ==> Key(f, e, a) <= Key(f, e, b) || Pending(los, his, a, b)
  }

  /** Work left on the stack; it falls with every range popped. */
  ghost function Work(los: seq<int>, his: seq<int>): nat {
    if los == [] || |los| != |his| then 0
    else Work(los[..|los| - 1], his[..|los| - 1]) + 2 * Size(los, his, |los| - 1) + 1
  }

  /** Rearranging the popped range leaves it in order relative to everything outside. */
  lemma OutsideOrder(f: seq<int>, g: seq<int>, e: seq<int>, loSt: int, hiSt: int,
                     los: seq<int>, his: seq<int>, lo: int, hi: int, a: int, b: int)
    requires StackOk(los + [lo], his + [hi], loSt, hiSt) && |los| == |his|
    requires OrderedBut(f, e, loSt, hiSt, los + [lo], his + [hi])
    requires Indexes(f, e, loSt, hiSt) && Permutes(f, g, lo, hi + 1)
    requires loSt <= a <= b <= hiSt && !(lo <= a && b <= hi)
    ensures Key(g, e, a) <= Key(g, e, b) || Pending(los, his, a, b)
  {
    var los1, his1, top := los + [lo], his + [hi], |los|;
    assert los1[top] == lo && his1[top] == hi;
    var i, j := a, b;
    if lo <= a <= hi {
      i := PermutesFrom(f, g, lo, hi + 1, a);
    }
    if lo <= b <= hi {
      j := PermutesFrom(f, g, lo, hi + 1, b);
    }
    assert Key(f, e, i) == Key(g, e, a) && Key(f, e, j) == Key(g, e, b);
    if Pending(los1, his1, i, j) {
      var t :| Inside(los1, his1, t, i) && Inside(los1, his1, t, j);
      assert t != top;
      assert lo <= i <= hi ==> Inside(los1, his1, top, i);
      assert lo <= j <= hi ==> Inside(los1, his1, top, j);
      assert Inside(los, his, t, a) && Inside(los, his, t, b);
    }
  }

  lemma PopOrdered(f: seq<int>, g: seq<int>, e: seq<int>, loSt: int, hiSt: int,
                   los: seq<int>, his: seq<int>, lo: int, hi: int)
    requires StackOk(los + [lo], his + [hi], loSt, hiSt) && |los| == |his|
    requires OrderedBut(f, e, loSt, hiSt, los + [lo], his + [hi])
    requires Indexes(f, e, loSt, hiSt) && Permutes(f, g, lo, hi + 1)
    requires Ordered(g, e, lo, hi)
    ensures OrderedBut(g, e, loSt, hiSt, los, his)
  {
    forall a, b | loSt <= a <= b <= hiSt
      ensures Key(g, e, a) <= Key(g, e, b) || Pending(los, his, a, b)
    {
      if !(lo <= a && b <= hi) {
        OutsideOrder(f, g, e, loSt, hiSt, los, his, lo, hi, a, b);
      }
    }
  }

  /** The popped range replaced by two of its parts, `1` below `2` on the stack. */
  lemma PopSplit(f: seq<int>, g: seq<int>, e: seq<int>, loSt: int, hiSt: int,
                 los: seq<int>, his: seq<int>, lo: int, hi: int, med: int, n: int, m: int,
                 los2: seq<int>, his2: seq<int>)
    requires StackOk(los + [lo], his + [hi], loSt, hiSt) && |los| == |his|
    requires OrderedBut(f, e, loSt, hiSt, los + [lo], his + [hi])
    requires Indexes(f, e, loSt, hiSt) && Permutes(f, g, lo, hi + 1)
    requires Split(g, e, lo, hi, med, n, m)
    requires (los2 == los + [lo, m] && his2 == his + [n, hi]) || (los2 == los + [m, lo] && his2 == his + [hi, n])
    ensures OrderedBut(g, e, loSt, hiSt, los2, his2)
  {
    forall a, b | loSt <= a <= b <= hiSt
      ensures Key(g, e, a) <= Key(g, e, b) || Pending(los2, his2, a, b)
    {
      if lo <= a && b <= hi {
        var t := |los|;
        if b <= n || a >= m {
          assert (Inside(los2, his2, t, a) && Inside(los2, his2, t, b))
              || (Inside(los2, his2, t + 1, a) && Inside(los2, his2, t + 1, b));
        }
      } else {
        OutsideOrder(f, g, e, loSt, hiSt, los, his, lo, hi, a, b);
        if Pending(los, his, a, b) {
          var t :| Inside(los, his, t, a) && Inside(los, his, t, b);
          assert Inside(los2, his2, t, a) && Inside(los2, his2, t, b);
        }
      }
    }
  }

  lemma PopStack(los: seq<int>, his: seq<int>, lo: int, hi: int, loSt: int, hiSt: int)
    requires |los| == |his| && StackOk(los + [lo], his + [hi], loSt, hiSt)
    ensures StackOk(los, his, loSt, hiSt)
    ensures Work(los + [lo], his + [hi]) == Work(los, his) + 2 * (hi - lo + 1) + 1
  {
    var los1, his1 := los + [lo], his + [hi];
    assert los1[..|los|] == los && his1[..|los|] == his;
    forall t, a ensures Inside(los, his, t, a) ==> Inside(los1, his1, t, a) {}
    forall t | 0 <= t < |los| ensures Size(los, his, t) == Size(los1, his1, t) && los[t] == los1[t] && his[t] == his1[t] {}
  }

  lemma HalfTwice(s: int, t: nat)
    ensures s * Pow2(t + 1) == (2 * s) * Pow2(t)
  {
    var p := Pow2(t);
    assert Pow2(t + 1) == 2 * p;
    assert s * (2 * p) == (2 * s) * p;
  }

  /** Pushing the larger part first keeps every depth within its share. */
  lemma PushShares(los: seq<int>, his: seq<int>, lo: int, hi: int, total: int, lo1: int, hi1: int, lo2: int, hi2: int)
    requires |los| == |his| && Shares(los + [lo], his + [hi], total)
    requires lo1 <= hi1 + 1 && lo2 <= hi2 + 1
    requires (hi1 - lo1 + 1) + (hi2 - lo2 + 1) < hi - lo + 1
    requires hi2 - lo2 <= hi1 - lo1
    ensures Shares(los + [lo1, lo2], his + [hi1, hi2], total)
  {
    hide Pow2;
    var t := |los|;
    var s, s1, s2 := hi - lo + 1, hi1 - lo1 + 1, hi2 - lo2 + 1;
    assert Size(los + [lo], his + [hi], t) == s;
    MulMonotone(s1, s, Pow2(t), Pow2(t));
    MulMonotone(2 * s2, s, Pow2(t), Pow2(t));
    HalfTwice(s2, t);
    var los2, his2 := los + [lo1, lo2], his + [hi1, hi2];
    assert Size(los2, his2, t) == s1 && Size(los2, his2, t + 1) == s2;
    forall u: nat | u < |los2| ensures Size(los2, his2, u) * Pow2(u) <= total {
      if u < t {
        assert Size(los2, his2, u) == Size(los + [lo], his + [hi], u);
      }
    }
  }

  lemma PopShares(los: seq<int>, his: seq<int>, lo: int, hi: int, total: int)
    requires |los| == |his| && Shares(los + [lo], his + [hi], total)
    ensures Shares(los, his, total)
  {
    forall u: nat | u < |los| ensures Size(los, his, u) * Pow2(u) <= total {
      assert Size(los, his, u) == Size(los + [lo], his + [hi], u);
    }
  }

  lemma WorkTwo(los: seq<int>, his: seq<int>, lo1: int, hi1: int, lo2: int, hi2: int)
    requires |los| == |his| && lo1 <= hi1 + 1 && lo2 <= hi2 + 1
    ensures Work(los + [lo1, lo2], his + [hi1, hi2])
         == Work(los, his) + 2 * (hi1 - lo1 + 1) + 1 + 2 * (hi2 - lo2 + 1) + 1
  {
    var los2, his2, t := los + [lo1, lo2], his + [hi1, hi2], |los|;
    var los1, his1 := los2[..t + 1], his2[..t + 1];
    assert los1 == los + [lo1] && his1 == his + [hi1];
    assert los1[..t] == los && his1[..t] == his;
  }

  /** What is inside a part was inside the range that was split. */
  lemma InsideTwo(los: seq<int>, his: seq<int>, lo: int, hi: int, lo1: int, hi1: int, lo2: int, hi2: int, u: int, a: int)
    requires |los| == |his| && Inside(los + [lo1, lo2], his + [hi1, hi2], u, a)
    requires lo <= lo1 && hi1 <= hi && lo <= lo2 && hi2 <= hi
    ensures 0 <= u < |los| + 2 && Inside(los + [lo], his + [hi], if u < |los| then u else |los|, a)
    ensures u == |los| ==> lo1 <= a <= hi1
    ensures u == |los| + 1 ==> lo2 <= a <= hi2
  {
  }

  lemma PushTwo(los: seq<int>, his: seq<int>, lo: int, hi: int, loSt: int, hiSt: int,
                lo1: int, hi1: int, lo2: int, hi2: int)
    requires |los| == |his| && StackOk(los + [lo], his + [hi], loSt, hiSt)
    requires lo <= lo1 <= hi1 + 1 <= hi + 1 && lo <= lo2 <= hi2 + 1 <= hi + 1
    requires hi1 < lo2 || hi2 < lo1
    requires (hi1 - lo1 + 1) + (hi2 - lo2 + 1) < hi - lo + 1
    ensures StackOk(los + [lo1, lo2], his + [hi1, hi2], loSt, hiSt)
    ensures Work(los + [lo1, lo2], his + [hi1, hi2]) < Work(los + [lo], his + [hi])
  {
    PopStack(los, his, lo, hi, loSt, hiSt);
    WorkTwo(los, his, lo1, hi1, lo2, hi2);
    var los1, his1 := los + [lo], his + [hi];
    var los2, his2 := los + [lo1, lo2], his + [hi1, hi2];
    var t := |los|;
    assert los1[t] == lo && his1[t] == hi;
    forall u | 0 <= u < |los2| ensures loSt <= los2[u] <= his2[u] + 1 <= hiSt + 1 {
      if u < t {
        assert los2[u] == los1[u] && his2[u] == his1[u];
      }
    }
    forall u, v, a | u != v && Inside(los2, his2, u, a) ensures !Inside(los2, his2, v, a) {
      InsideTwo(los, his, lo, hi, lo1, hi1, lo2, hi2, u, a);
      if Inside(los2, his2, v, a) {
        InsideTwo(los, his, lo, hi, lo1, hi1, lo2, hi2, v, a);
      }
    }
  }

  /** With fewer than 11 * 2^18 entries a range large enough to be split is at depth at most 17. */
  lemma DepthBound(size: nat, t: nat, total: int)
    requires size > SMALL_THRESH && size * Pow2(t) <= total < 11 * 0x4_0000
    ensures t <= 17
  {
    if t >= 18 {
      Pow2Of32();
      Pow2Monotone(16, t - 2);
      assert Pow2(t) == 4 * Pow2(t - 2);
      MulMonotone(11, size, 0x4_0000, Pow2(t));
    }
  }

  /** The class one of three probes in the range has, chosen by the running pseudo-random number r. */
  method PickMedian(fmap: array<int>, eclass: array<int>, lo: int, hi: int, r: int) returns (med: int)
    requires Indexes(fmap[..], eclass[..], lo, hi) && lo <= hi && 0 <= r
    ensures exists k :: lo <= k <= hi && Key(fmap[..], eclass[..], k) == med
  {
    var r3 := r % 3;
    var at := if r3 == 0 then lo else if r3 == 1 then (lo + hi) / 2 else hi;
    med := eclass[fmap[at]];
    assert Key(fmap[..], eclass[..], at) == med;
  }

  const MAX_BLOCK := 900000

  /** The explicit stack of ranges: stackLo, stackHi and sp. */
  class RangeStack {
    const stackLo: array<int>
    const stackHi: array<int>
    var sp: int

    ghost predicate Valid()
      reads this
    {
      stackLo != stackHi && stackLo.Length == stackHi.Length == STACK_SIZE && 0 <= sp <= STACK_SIZE
    }

    ghost function Los(): seq<int>
      requires Valid()
      reads this, stackLo
    {
      stackLo[..sp]
    }

    ghost function His(): (his: seq<int>)
      requires Valid()
      reads this, stackHi
      ensures |his| == sp
    {
      stackHi[..sp]
    }

    constructor ()
      ensures Valid() && Los() == [] && His() == []
      ensures fresh(stackLo) && fresh(stackHi)
    {
      stackLo := new int[STACK_SIZE];
      stackHi := new int[STACK_SIZE];
      sp := 0;
    }

    method Push(lo: int, hi: int)
      requires Valid() && sp < STACK_SIZE
      modifies this, stackLo, stackHi
      ensures Valid() && Los() == old(Los()) + [lo] && His() == old(His()) + [hi]
    {
      stackLo[sp] := lo;
      stackHi[sp] := hi;
      sp := sp + 1;
    }

    /** Pushes [lo..n] and [m..hi] so that the smaller one is popped first. */
    method PushLargerFirst(lo: int, n: int, m: int, hi: int)
      requires Valid() && sp < STACK_SIZE - 1
      modifies this, stackLo, stackHi
      ensures Valid()
      ensures Los() == old(Los()) + if n - lo > hi - m then [lo, m] else [m, lo]
      ensures His() == old(His()) + if n - lo > hi - m then [n, hi] else [hi, n]
    {
      if n - lo > hi - m {
        Push(lo, n);
        Push(m, hi);
      } else {
        Push(m, hi);
        Push(lo, n);
      }
    }

    method Pop() returns (lo: int, hi: int)
      requires Valid() && sp > 0
      modifies this
      ensures Valid() && old(Los()) == Los() + [lo] && old(His()) == His() + [hi]
    {
      sp := sp - 1;
      lo, hi := stackLo[sp], stackHi[sp];
    }
  }

  /** What holds between iterations: only the ranges on the stack still need sorting, and the stack is shallow. */
  ghost predicate Sorting(f0: seq<int>, f: seq<int>, e: seq<int>, loSt: int, hiSt: int, los: seq<int>, his: seq<int>) {
    && Permutes(f0, f, loSt, hiSt + 1)
    && Indexes(f, e, loSt, hiSt)
    && StackOk(los, his, loSt, hiSt)
    && Shares(los, his, hiSt - loSt + 1)
    && OrderedBut(f, e, loSt, hiSt, los, his)
    && |los| <= 19
  }

  lemma SortingStart(f: seq<int>, e: seq<int>, loSt: int, hiSt: int)
    requires loSt <= hiSt && Indexes(f, e, loSt, hiSt)
    ensures Sorting(f, f, e, loSt, hiSt, [loSt], [hiSt])
  {
    forall a, b | loSt <= a <= b <= hiSt ensures Pending([loSt], [hiSt], a, b) {
      assert Inside([loSt], [hiSt], 0, a) && Inside([loSt], [hiSt], 0, b);
    }
  }

  lemma SortingEnd(f0: seq<int>, f: seq<int>, e: seq<int>, loSt: int, hiSt: int)
    requires Sorting(f0, f, e, loSt, hiSt, [], [])
    ensures Permutes(f0, f, loSt, hiSt + 1)
    ensures Ordered(f, e, loSt, hiSt)
  {
    forall a, b | loSt <= a <= b <= hiSt ensures Key(f, e, a) <= Key(f, e, b) {
      assert !Pending([], [], a, b);
    }
  }

  lemma SortingPop(f0: seq<int>, f: seq<int>, g: seq<int>, e: seq<int>, loSt: int, hiSt: int,
                   los: seq<int>, his: seq<int>, lo: int, hi: int)
    requires |los| == |his| && Sorting(f0, f, e, loSt, hiSt, los + [lo], his + [hi])
    requires Permutes(f, g, lo, hi + 1) && Ordered(g, e, lo, hi)
    ensures Sorting(f0, g, e, loSt, hiSt, los, his)
    ensures Work(los, his) < Work(los + [lo], his + [hi])
  {
    hide OrderedBut, Ordered, Indexes, Permutes, Work, Key, Inside;
    PopInside(f0, f, g, e, loSt, hiSt, los, his, lo, hi);
    PopOrdered(f, g, e, loSt, hiSt, los, his, lo, hi);
    PopShares(los, his, lo, hi, hiSt - loSt + 1);
  }

  lemma PopInside(f0: seq<int>, f: seq<int>, g: seq<int>, e: seq<int>, loSt: int, hiSt: int,
                  los: seq<int>, his: seq<int>, lo: int, hi: int)
    requires |los| == |his| && StackOk(los + [lo], his + [hi], loSt, hiSt) && Indexes(f, e, loSt, hiSt)
    requires Permutes(f0, f, loSt, hiSt + 1)
    requires Permutes(f, g, lo, hi + 1)
    ensures loSt <= lo <= hi + 1 <= hiSt + 1
    ensures Permutes(f0, g, loSt, hiSt + 1)
    ensures Indexes(g, e, loSt, hiSt)
    ensures StackOk(los, his, loSt, hiSt)
    ensures Work(los, his) < Work(los + [lo], his + [hi])
  {
    PopStack(los, his, lo, hi, loSt, hiSt);
    var los1, his1 := los + [lo], his + [hi];
    assert los1[|los|] == lo && his1[|los|] == hi;
    PermutesIndexes(f, g, e, loSt, hiSt);
  }

  lemma SortingSplit(f0: seq<int>, f: seq<int>, g: seq<int>, e: seq<int>, loSt: int, hiSt: int,
                     los: seq<int>, his: seq<int>, lo: int, hi: int, med: int, n: int, m: int,
                     los2: seq<int>, his2: seq<int>)
    requires |los| == |his| && Sorting(f0, f, e, loSt, hiSt, los + [lo], his + [hi])
    requires hiSt - loSt + 1 <= MAX_BLOCK && hi - lo >= SMALL_THRESH
    requires Permutes(f, g, lo, hi + 1)
    requires Split(g, e, lo, hi, med, n, m) && n + 1 < m
    requires if n - lo > hi - m then los2 == los + [lo, m] && his2 == his + [n, hi]
                                else los2 == los + [m, lo] && his2 == his + [hi, n]
    ensures Sorting(f0, g, e, loSt, hiSt, los2, his2)
    ensures Work(los2, his2) < Work(los + [lo], his + [hi])
  {
    hide OrderedBut, Ordered, Indexes, Permutes, Work, Key, Inside;
    var total := hiSt - loSt + 1;
    PopInside(f0, f, g, e, loSt, hiSt, los, his, lo, hi);
    PopSplit(f, g, e, loSt, hiSt, los, his, lo, hi, med, n, m, los2, his2);
    assert Size(los + [lo], his + [hi], |los|) == hi - lo + 1;
    DepthBound(hi - lo + 1, |los|, total);
    if n - lo > hi - m {
      PushTwo(los, his, lo, hi, loSt, hiSt, lo, n, m, hi);
      PushShares(los, his, lo, hi, total, lo, n, m, hi);
    } else {
      PushTwo(los, his, lo, hi, loSt, hiSt, m, hi, lo, n);
      PushShares(los, his, lo, hi, total, m, hi, lo, n);
    }
  }

  /** One iteration: pop a range, sort it if small, otherwise partition it and push the two outer parts. */
  method SortTop(fmap: array<int>, eclass: array<int>, stack: RangeStack, r0: int,
                 ghost f0: seq<int>, ghost loSt: int, ghost hiSt: int) returns (r: int)
    requires fmap != eclass && stack.Valid() && 0 <= r0 && hiSt - loSt + 1 <= MAX_BLOCK
    requires {stack.stackLo, stack.stackHi} !! {fmap, eclass}
    requires stack.sp > 0 && Sorting(f0, fmap[..], eclass[..], loSt, hiSt, stack.Los(), stack.His())
    modifies fmap, stack, stack.stackLo, stack.stackHi
    ensures 0 <= r && stack.Valid()
    ensures Sorting(f0, fmap[..], eclass[..], loSt, hiSt, stack.Los(), stack.His())
    ensures Work(stack.Los(), stack.His()) < Work(old(stack.Los()), old(stack.His()))
  {
    assert stack.sp < STACK_SIZE - 1;
    hide StackOk, OrderedBut, Shares, Ordered, Split, Work, Inside;
    r := r0;
    ghost var e, f := eclass[..], fmap[..];
    var lo, hi := stack.Pop();
    ghost var los, his := stack.Los(), stack.His();
    PopInside(f0, f, f, e, loSt, hiSt, los, his, lo, hi);
    if hi - lo < SMALL_THRESH {
      SimpleSort(fmap, eclass, lo, hi);
      SortingPop(f0, f, fmap[..], e, loSt, hiSt, los, his, lo, hi);
      return;
    }
    r := (r * 7621 + 1) % 32768;
    var med := PickMedian(fmap, eclass, lo, hi, r);
    var done, n, m := SplitRange(fmap, eclass, lo, hi, med);
    ghost var g := fmap[..];
    assert eclass[..] == e;
    if done {
      SortingPop(f0, f, g, e, loSt, hiSt, los, his, lo, hi);
      return;
    }
    stack.PushLargerFirst(lo, n, m, hi);
    SortingSplit(f0, f, g, e, loSt, hiSt, los, his, lo, hi, med, n, m, stack.Los(), stack.His());
  }

  /**
   * Sorts fmap[loSt..hiSt] by class with an explicit stack of ranges.
   * The stack never fills: the first assertion of SortTop is the program's own check.
   */
  method QSort3(fmap: array<int>, eclass: array<int>, loSt: int, hiSt: int)
    requires fmap != eclass && loSt <= hiSt && hiSt - loSt + 1 <= MAX_BLOCK
    requires Indexes(fmap[..], eclass[..], loSt, hiSt)
    modifies fmap
    ensures Permutes(old(fmap[..]), fmap[..], loSt, hiSt + 1)
    ensures Ordered(fmap[..], eclass[..], loSt, hiSt)
  {
    hide Sorting, Work, Indexes, Ordered, Permutes;
    ghost var f0, e := fmap[..], eclass[..];
    var r := 0;
    var stack := new RangeStack();
    stack.Push(loSt, hiSt);
    assert stack.Los() == [loSt] && stack.His() == [hiSt];
    SortingStart(f0, e, loSt, hiSt);
    while stack.sp > 0
      invariant stack.Valid() && 0 <= r && eclass[..] == e
      invariant Sorting(f0, fmap[..], e, loSt, hiSt, stack.Los(), stack.His())
      decreases Work(stack.Los(), stack.His())
    {
      r := SortTop(fmap, eclass, stack, r, f0, loSt, hiSt);
    }
    assert stack.Los() == [] && stack.His() == [];
    SortingEnd(f0, fmap[..], e, loSt, hiSt);
  }
}
