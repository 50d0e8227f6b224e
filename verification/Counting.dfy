// Counting sort over bytes: how many elements lie below a given value, and
// where each index goes. Both the radix pass of the sorter and the inverse
// block transform are built on it.
module Counting {
  import opened Words
  import opened Perm

  ghost function Count(b: seq<byte>, c: int): nat {
    multiset(b)[c]
  }

  /** Number of elements of b smaller than c. */
  ghost function Below(b: seq<byte>, c: nat): nat {
    if c == 0 then 0 else Below(b, c - 1) + Count(b, c - 1)
  }

  lemma {:induction false} BelowAppend(b: seq<byte>, x: byte, c: nat)
    ensures Below(b + [x], c) == Below(b, c) + if x < c then 1 else 0
    decreases c
  {
    if c > 0 {
      BelowAppend(b, x, c - 1);
    }
  }

  lemma {:induction false} BelowEmpty(c: nat)
    ensures Below([], c) == 0
    decreases c
  {
    if c > 0 {
      BelowEmpty(c - 1);
    }
  }

  /** Every byte lies below 256. */
  lemma {:induction false} BelowAll(b: seq<byte>, c: nat)
    requires c >= 256
    ensures Below(b, c) == |b|
    decreases |b|
  {
    if b == [] {
      BelowEmpty(c);
    } else {
      var k := |b| - 1;
      BelowAll(b[..k], c);
      BelowAppend(b[..k], b[k], c);
      assert b[..k] + [b[k]] == b;
    }
  }

  lemma BelowBound(b: seq<byte>, c: nat)
    ensures Below(b, c) <= |b|
  {
    BelowAll(b, c + 256);
    BelowMonotone(b, c, c + 256);
  }

  lemma {:induction false} BelowMonotone(b: seq<byte>, c: nat, d: nat)
    requires c <= d
    ensures Below(b, c) <= Below(b, d)
    ensures c < d ==> Below(b, c + 1) <= Below(b, d)
    decreases d - c
  {
    if c < d {
      BelowMonotone(b, c, d - 1);
    }
  }

  /** Two sequences with the same elements have the same counts. */
  lemma {:induction false} BelowSame(a: seq<byte>, b: seq<byte>, c: nat)
    requires multiset(a) == multiset(b)
    ensures Below(a, c) == Below(b, c)
    decreases c
  {
    if c > 0 {
      BelowSame(a, b, c - 1);
    }
  }

  lemma {:induction false} CharFrom(b: seq<byte>, k: nat, c: nat) returns (r: nat)
    requires k < |b| && c <= 256 && Below(b, c) <= k
    ensures c <= r < 256 && Below(b, r) <= k < Below(b, r + 1)
    decreases 256 - c
  {
    if c == 256 {
      BelowAll(b, c);
    }
    if k < Below(b, c + 1) {
      r := c;
    } else {
      r := CharFrom(b, k, c + 1);
    }
  }

  /** The value at position k once b is sorted. */
  ghost function SortedChar(b: seq<byte>, k: nat): (r: byte)
    requires k < |b|
    ensures Below(b, r) <= k < Below(b, r as nat + 1)
  {
    assert exists r: nat :: r < 256 && Below(b, r) <= k < Below(b, r + 1) by {
      var r := CharFrom(b, k, 0);
    }
    var r: nat :| r < 256 && Below(b, r) <= k < Below(b, r + 1);
    r
  }

  /** Only one value's range of positions contains k. */
  lemma CharUnique(b: seq<byte>, k: nat, c: nat)
    requires k < |b| && Below(b, c) <= k < Below(b, c + 1)
    ensures c == SortedChar(b, k)
  {
    var r: nat := SortedChar(b, k);
    if c < r {
      BelowMonotone(b, c, r);
    } else if r < c {
      BelowMonotone(b, r, c);
    }
  }

  lemma SortedCharMonotone(b: seq<byte>, k: nat, l: nat)
    requires k <= l < |b|
    ensures SortedChar(b, k) <= SortedChar(b, l)
  {
    var c, d := SortedChar(b, k), SortedChar(b, l);
    if d < c {
      BelowMonotone(b, d, c);
    }
  }

  /** k is the first sorted position of some value. */
  ghost predicate StartsValue(b: seq<byte>, k: nat) {
    exists c: nat :: c < 256 && Below(b, c) == k
  }

  lemma NoStartInside(b: seq<byte>, k: nat, c: nat, x: nat)
    requires 0 < k < |b| && Below(b, c) <= k - 1 && k < Below(b, c + 1)
    ensures Below(b, x) != k
  {
    if x <= c {
      BelowMonotone(b, x, c);
    } else {
      BelowMonotone(b, c, x);
    }
  }

  lemma StartAfterChange(b: seq<byte>, k: nat)
    requires 0 < k < |b| && SortedChar(b, k - 1) != SortedChar(b, k)
    ensures StartsValue(b, k)
  {
    var c: nat, d: nat := SortedChar(b, k - 1), SortedChar(b, k);
    SortedCharMonotone(b, k - 1, k);
    BelowMonotone(b, c, d);
    assert Below(b, d) == k;
  }

  /** A position starts a run of equal values exactly when it is some value's first position. */
  lemma RunStart(b: seq<byte>, k: nat)
    requires k < |b|
    ensures StartsValue(b, k) <==> (k == 0 || SortedChar(b, k - 1) != SortedChar(b, k))
  {
    if k == 0 {
      assert Below(b, 0) == k;
    } else if SortedChar(b, k - 1) != SortedChar(b, k) {
      StartAfterChange(b, k);
    } else if StartsValue(b, k) {
      var x: nat :| x < 256 && Below(b, x) == k;
      NoStartInside(b, k, SortedChar(b, k), x);
    }
  }

  lemma CountPrefix(b: seq<byte>, i: nat, c: int)
    requires i < |b|
    ensures Count(b[..i + 1], c) == Count(b[..i], c) + if b[i] == c then 1 else 0
  {
    assert b[..i + 1] == b[..i] + [b[i]];
  }

  lemma {:induction false} CountPrefixMonotone(b: seq<byte>, i: nat, j: nat, c: int)
    requires i <= j <= |b|
    ensures Count(b[..i], c) <= Count(b[..j], c) <= Count(b, c)
    decreases |b| - i
  {
    assert b[..|b|] == b;
    if i < j {
      CountPrefix(b, i, c);
      CountPrefixMonotone(b, i + 1, j, c);
    } else if j < |b| {
      CountPrefix(b, j, c);
      CountPrefixMonotone(b, j + 1, |b|, c);
    }
  }

  /** Where index i goes in the stable sort of b. */
  ghost function Slot(b: seq<byte>, i: nat): (k: nat)
    requires i < |b|
  {
    Below(b, b[i]) + Count(b[..i], b[i])
  }

  lemma SlotRange(b: seq<byte>, i: nat)
    requires i < |b|
    ensures Below(b, b[i]) <= Slot(b, i) < Below(b, b[i] as nat + 1) <= |b|
    ensures SortedChar(b, Slot(b, i)) == b[i]
  {
    CountPrefix(b, i, b[i]);
    CountPrefixMonotone(b, i + 1, |b|, b[i]);
    BelowBound(b, b[i] as nat + 1);
    CharUnique(b, Slot(b, i), b[i]);
  }

  /** Slots are distinct, and increase along equal values. */
  lemma SlotOrder(b: seq<byte>, i: nat, j: nat)
    requires i < j < |b|
    ensures Slot(b, i) != Slot(b, j)
    ensures b[i] == b[j] ==> Slot(b, i) < Slot(b, j)
  {
    SlotRange(b, i);
    SlotRange(b, j);
    if b[i] == b[j] {
      CountPrefix(b, i, b[i]);
      CountPrefixMonotone(b, i + 1, j, b[i]);
    }
  }

  /** The permutation taking each index to its slot. */
  ghost function Slots(b: seq<byte>): (p: seq<int>)
    ensures |p| == |b| && forall i :: 0 <= i < |b| ==> p[i] == Slot(b, i)
  {
    seq(|b|, i requires 0 <= i < |b| => Slot(b, i))
  }

  lemma SlotsPerm(b: seq<byte>)
    ensures IsPerm(Slots(b))
  {
    forall i | 0 <= i < |b| ensures 0 <= Slots(b)[i] < |b| {
      SlotRange(b, i);
    }
    forall i, j | 0 <= i < j < |b| ensures Slots(b)[i] != Slots(b)[j] {
      SlotOrder(b, i, j);
    }
  }

  /** The index whose slot is k. */
  lemma SlotHit(b: seq<byte>, k: nat) returns (i: nat)
    requires k < |b|
    ensures i < |b| && Slot(b, i) == k && b[i] == SortedChar(b, k)
  {
    SlotsPerm(b);
    i := PermHits(Slots(b), k);
    SlotRange(b, i);
  }

  // Columns: the characters of a block in some order of its positions.

  /** The characters of b at the positions f lists. */
  ghost function Column(b: seq<byte>, f: seq<int>): (r: seq<byte>)
    requires forall k :: 0 <= k < |f| ==> 0 <= f[k] < |b|
    ensures |r| == |f| && forall k :: 0 <= k < |f| ==> r[k] == b[f[k]]
  {
    seq(|f|, k requires 0 <= k < |f| => b[f[k]])
  }

  lemma RemoveLargest(f: seq<int>, k: int)
    requires IsPerm(f) && 0 <= k < |f| && f[k] == |f| - 1
    ensures IsPerm(f[..k] + f[k + 1..])
  {
    var g := f[..k] + f[k + 1..];
    forall i | 0 <= i < |g| ensures 0 <= g[i] < |g| {
      var j := if i < k then i else i + 1;
      assert g[i] == f[j] && f[j] != f[k];
    }
    forall i, j | 0 <= i < j < |g| ensures g[i] != g[j] {
      assert g[i] == f[if i < k then i else i + 1] && g[j] == f[if j < k then j else j + 1];
    }
  }

  /** Reading a block in the order of any permutation keeps its multiset of characters. */
  lemma {:induction false} ColumnMultiset(b: seq<byte>, f: seq<int>)
    requires |f| == |b| && IsPerm(f)
    ensures multiset(Column(b, f)) == multiset(b)
    decreases |b|
  {
    if b == [] {
      assert Column(b, f) == [];
    } else {
      var n := |b| - 1;
      var k := PermHits(f, n);
      var g := f[..k] + f[k + 1..];
      RemoveLargest(f, k);
      ColumnMultiset(b[..n], g);
      ColumnRemove(Column(b, f), Column(b[..n], g), k);
      assert b == b[..n] + [b[n]];
    }
  }

  lemma ColumnRemove(c: seq<byte>, d: seq<byte>, k: nat)
    requires k < |c| == |d| + 1
    requires forall i {:trigger d[i]} :: 0 <= i < |d| ==> d[i] == if i < k then c[i] else c[i + 1]
    ensures multiset(c) == multiset(d) + multiset{c[k]}
  {
    assert c == c[..k] + [c[k]] + c[k + 1..];
    var parts := c[..k] + c[k + 1..];
    forall i | 0 <= i < |d| ensures d[i] == parts[i] {
      if i >= k {
        assert parts[i] == c[k + 1..][i - k] == c[i + 1];
      }
    }
    assert d == parts;
  }

  /** In a sorted column, the elements below c come first. */
  lemma {:induction false} SortedBelow(s: seq<byte>, c: nat, k: nat)
    requires forall i, j :: 0 <= i <= j < |s| ==> s[i] <= s[j]
    requires k < |s|
    ensures s[k] < c <==> k < Below(s, c)
    decreases |s|
  {
    var m := |s| - 1;
    var t := s[..m];
    assert s == t + [s[m]];
    BelowAppend(t, s[m], c);
    BelowBound(t, c);
    if k < m {
      SortedBelow(t, c, k);
    } else if m > 0 {
      SortedBelow(t, c, m - 1);
    }
  }

  /** A column that is sorted is the sorted block. */
  lemma SortedColumn(b: seq<byte>, f: seq<int>, k: nat)
    requires |f| == |b| && IsPerm(f) && k < |b|
    requires forall i, j :: 0 <= i <= j < |b| ==> b[f[i]] <= b[f[j]]
    ensures b[f[k]] == SortedChar(b, k)
  {
    var s := Column(b, f);
    ColumnMultiset(b, f);
    var c: nat := s[k];
    SortedBelow(s, c, k);
    SortedBelow(s, c + 1, k);
    BelowSame(s, b, c);
    BelowSame(s, b, c + 1);
    CharUnique(b, k, c);
  }
}
