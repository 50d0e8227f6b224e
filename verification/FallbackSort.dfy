// The fallback block sorter: a byte radix pass, then prefix doubling. Before a
// pass with depth H, fmap lists all rotations ordered by their first H
// characters and the header bits mark where that prefix changes.
module FallbackSort {
  import opened Words
  import opened Perm
  import opened Counting
  import opened Rotation
  import opened HeaderBits
  import opened FallbackQSort

  /** f lists all rotations of b, ordered by their first h characters. */
  ghost predicate OrderedTo(b: seq<byte>, f: seq<int>, h: nat) {
    && |f| == |b| && IsPerm(f)
    && forall i, j {:trigger Cmp(b, f[i], f[j], h)} :: 0 <= i <= j < |f| ==> Cmp(b, f[i], f[j], h) <= 0
  }

  /** The header bits below |b| mark exactly the positions where the h-character prefix changes. */
  ghost predicate Heads(b: seq<byte>, f: seq<int>, h: nat, heads: set<int>)
    requires |f| == |b| && IsPerm(f)
  {
    forall i {:trigger i in heads} :: 0 <= i < |b| ==> (i in heads <==> i == 0 || Cmp(b, f[i - 1], f[i], h) != 0)
  }

  /** The bits that stop the bucket scan at the end of the block. */
  ghost predicate Sentinels(heads: set<int>, n: int) {
    n in heads && n + 1 !in heads
  }

  /** Start of the bucket that position i lies in. */
  ghost function Start(heads: set<int>, i: nat): (s: nat)
    ensures s <= i
    ensures s == 0 || s in heads
    ensures forall y :: s < y <= i ==> y !in heads
  {
    if i == 0 || i in heads then i else Start(heads, i - 1)
  }

  lemma SameStart(heads: set<int>, i: nat, j: nat)
    requires i <= j
    ensures Start(heads, i) == Start(heads, j) <==> forall y :: i < y <= j ==> y !in heads
    ensures Start(heads, i) != Start(heads, j) ==> i < Start(heads, j)
  {
  }

  lemma OrderedPair(b: seq<byte>, f: seq<int>, h: nat, i: nat, j: nat)
    requires OrderedTo(b, f, h) && i <= j < |b|
    ensures |f| == |b| && 0 <= f[i] < |b| && 0 <= f[j] < |b| && Cmp(b, f[i], f[j], h) <= 0
  {
  }

  lemma HeadStrict(b: seq<byte>, f: seq<int>, h: nat, heads: set<int>, s: nat)
    requires OrderedTo(b, f, h) && Heads(b, f, h, heads) && 0 < s < |b|
    ensures |f| == |b| && 0 <= f[s - 1] < |b| && 0 <= f[s] < |b|
    ensures s in heads <==> Cmp(b, f[s - 1], f[s], h) < 0
    ensures s !in heads <==> Cmp(b, f[s - 1], f[s], h) == 0
  {
    OrderedPair(b, f, h, s - 1, s);
  }

  /** Positions in one bucket agree on h characters, positions in different buckets are in strict order. */
  lemma BucketOrder(b: seq<byte>, f: seq<int>, h: nat, heads: set<int>, i: nat, j: nat)
    requires OrderedTo(b, f, h) && Heads(b, f, h, heads) && i <= j < |b|
    ensures |f| == |b| && 0 <= f[i] < |b| && 0 <= f[j] < |b|
    ensures Start(heads, i) == Start(heads, j) ==> Cmp(b, f[i], f[j], h) == 0
    ensures Start(heads, i) < Start(heads, j) ==> Cmp(b, f[i], f[j], h) < 0
    ensures Start(heads, i) <= Start(heads, j)
  {
    hide Cmp, Heads, OrderedTo;
    OrderedPair(b, f, h, i, j);
    SameStart(heads, i, j);
    if Start(heads, i) == Start(heads, j) {
      BucketEqual(b, f, h, heads, i, j);
    } else {
      var s := Start(heads, j);
      HeadStrict(b, f, h, heads, s);
      OrderedPair(b, f, h, i, s - 1);
      OrderedPair(b, f, h, s, j);
      CmpTrans(b, f[i], f[s - 1], f[s], h);
      CmpTrans(b, f[i], f[s], f[j], h);
    }
  }

  lemma {:induction false} BucketEqual(b: seq<byte>, f: seq<int>, h: nat, heads: set<int>, i: nat, j: nat)
    requires OrderedTo(b, f, h) && Heads(b, f, h, heads) && i <= j < |b|
    requires forall y :: i < y <= j ==> y !in heads
    ensures |f| == |b| && 0 <= f[i] < |b| && 0 <= f[j] < |b| && Cmp(b, f[i], f[j], h) == 0
    decreases j - i
  {
    hide Cmp, Heads, OrderedTo;
    OrderedPair(b, f, h, i, j);
    if i == j {
      CmpAnti(b, f[i], f[i], h);
    } else {
      BucketEqual(b, f, h, heads, i, j - 1);
      HeadStrict(b, f, h, heads, j);
      CmpTrans(b, f[i], f[j - 1], f[j], h);
    }
  }

  lemma BucketOrderAny(b: seq<byte>, f: seq<int>, h: nat, heads: set<int>, i: nat, j: nat)
    requires OrderedTo(b, f, h) && Heads(b, f, h, heads) && i < |b| && j < |b|
    ensures Start(heads, i) == Start(heads, j) ==> Cmp(b, f[i], f[j], h) == 0
    ensures Start(heads, i) < Start(heads, j) ==> Cmp(b, f[i], f[j], h) < 0
  {
    if i <= j {
      BucketOrder(b, f, h, heads, i, j);
    } else {
      BucketOrder(b, f, h, heads, j, i);
      CmpAnti(b, f[j], f[i], h);
    }
  }

  // Equivalence classes: eclass[x] is the bucket of the rotation H characters after x.

  ghost function Back(x: int, H: int, n: int): int {
    if x - H < 0 then x - H + n else x - H
  }

  ghost predicate Classified(f: seq<int>, heads: set<int>, e: seq<int>, H: int, n: int) {
    && |f| == n && n <= |e|
    && forall i :: 0 <= i < n ==> 0 <= Back(f[i], H, n) < n && e[Back(f[i], H, n)] == Start(heads, i)
  }

  /** The rotation H characters after x, as an entry of f. */
  lemma ClassEntry(f: seq<int>, heads: set<int>, e: seq<int>, H: nat, n: nat, x: nat) returns (i: nat)
    requires IsPerm(f) && Classified(f, heads, e, H, n)
    requires H <= n && x < n
    ensures i < n && e[x] == Start(heads, i)
    ensures f[i] == x + H || f[i] + n == x + H
  {
    i := PermHits(f, if x + H >= n then x + H - n else x + H);
    assert Back(f[i], H, n) == x;
  }

  lemma CmpWrap(b: seq<byte>, i: nat, j: nat, x: nat, y: nat, h: nat)
    requires i == x || i + |b| == x
    requires j == y || j + |b| == y
    ensures Cmp(b, i, j, h) == Cmp(b, x, y, h)
  {
    CmpPeriod(b, i, j, h);
    CmpPeriod(b, x, j, h);
  }

  /** Comparing classes compares the H characters that start H characters further on. */
  lemma ClassOrder(b: seq<byte>, f: seq<int>, heads: set<int>, e: seq<int>, H: nat, x: nat, y: nat)
    requires OrderedTo(b, f, H) && Heads(b, f, H, heads) && Classified(f, heads, e, H, |b|)
    requires 1 <= H <= |b| && x < |b| && y < |b|
    ensures e[x] == e[y] ==> Cmp(b, x + H, y + H, H) == 0
    ensures e[x] < e[y] ==> Cmp(b, x + H, y + H, H) < 0
  {
    hide Heads, Classified, Start, Cmp;
    var i := ClassEntry(f, heads, e, H, |b|, x);
    var j := ClassEntry(f, heads, e, H, |b|, y);
    CmpWrap(b, f[i], f[j], x + H, y + H, H);
    BucketOrderAny(b, f, H, heads, i, j);
  }

  // One refinement pass over the buckets, in terms of classes and old header bits only.

  /** Buckets up to position r have been sorted by class and their new header bits set; the rest is untouched. */
  ghost predicate RefinedTo(f0: seq<int>, f: seq<int>, e: seq<int>, h0: set<int>, heads: set<int>, n: int, r: int) {
    && |f0| == |f| == n && -1 <= r < n
    && (forall u: nat, v: nat :: u <= v <= r && Start(h0, u) == Start(h0, v) ==> Key(f, e, u) <= Key(f, e, v))
    && (forall i: nat {:trigger i in heads} :: i <= r ==> (i in heads <==> (i in h0 || (i > 0 && Key(f, e, i - 1) != Key(f, e, i)))))
    && (forall i {:trigger f[i]} :: r < i < n ==> f[i] == f0[i])
    && (forall y :: y > r ==> (y in heads <==> y in h0))
  }

  /** Entries have only moved within their bucket. */
  ghost predicate WithinBuckets(b: seq<byte>, f0: seq<int>, f: seq<int>, H: nat)
    requires |f0| == |f| == |b| && IsPerm(f0) && IsPerm(f)
  {
    forall i {:trigger Cmp(b, f0[i], f[i], H)} :: 0 <= i < |b| ==> Cmp(b, f0[i], f[i], H) == 0
  }

  /** A completed pass doubles the depth. */
  lemma Doubled(b: seq<byte>, f0: seq<int>, f: seq<int>, h0: set<int>, heads: set<int>, e: seq<int>, H: nat)
    requires OrderedTo(b, f0, H) && Heads(b, f0, H, h0) && Classified(f0, h0, e, H, |b|)
    requires 1 <= H <= |b| && |f| == |b| && IsPerm(f)
    requires WithinBuckets(b, f0, f, H)
    requires RefinedTo(f0, f, e, h0, heads, |b|, |b| - 1)
    ensures OrderedTo(b, f, 2 * H)
    ensures Heads(b, f, 2 * H, heads)
  {
    hide Classified, RefinedTo, WithinBuckets, Key, Cmp, Start;
    forall u: nat, v: nat | u <= v < |b| ensures Cmp(b, f[u], f[v], 2 * H) <= 0 {
      DoubledPair(b, f0, f, h0, heads, e, H, u, v);
    }
    forall i: nat | i < |b| ensures i in heads <==> i == 0 || Cmp(b, f[i - 1], f[i], 2 * H) != 0 {
      DoubledHead(b, f0, f, h0, heads, e, H, i);
    }
  }

  lemma DoubledHead(b: seq<byte>, f0: seq<int>, f: seq<int>, h0: set<int>, heads: set<int>, e: seq<int>, H: nat, i: nat)
    requires OrderedTo(b, f0, H) && Heads(b, f0, H, h0) && Classified(f0, h0, e, H, |b|)
    requires 1 <= H <= |b| && |f| == |b| && IsPerm(f)
    requires WithinBuckets(b, f0, f, H)
    requires RefinedTo(f0, f, e, h0, heads, |b|, |b| - 1)
    requires i < |b|
    ensures i in heads <==> i == 0 || Cmp(b, f[i - 1], f[i], 2 * H) != 0
  {
    hide Classified, WithinBuckets, Key, Cmp, Start, OrderedTo;
    assert i in heads <==> (i in h0 || (i > 0 && Key(f, e, i - 1) != Key(f, e, i)));
    if i == 0 {
      assert 0 in h0;
    } else {
      DoubledPair(b, f0, f, h0, heads, e, H, i - 1, i);
      SameStart(h0, i - 1, i);
    }
  }

  /** Moving entries within their buckets keeps every comparison to depth H. */
  lemma WithinBucketsCmp(b: seq<byte>, f0: seq<int>, f: seq<int>, H: nat, u: nat, v: nat)
    requires |f0| == |f| == |b| && IsPerm(f0) && IsPerm(f)
    requires WithinBuckets(b, f0, f, H) && u < |b| && v < |b|
    ensures Cmp(b, f[u], f[v], H) == Cmp(b, f0[u], f0[v], H)
  {
    CmpTrans(b, f0[u], f[u], f[v], H);
    CmpTrans(b, f0[u], f0[v], f[v], H);
  }

  lemma DoubledBounds(b: seq<byte>, f0: seq<int>, f: seq<int>, h0: set<int>, heads: set<int>, e: seq<int>, H: nat, u: nat, v: nat)
    requires OrderedTo(b, f0, H) && Classified(f0, h0, e, H, |b|)
    requires |f| == |b| && IsPerm(f) && RefinedTo(f0, f, e, h0, heads, |b|, |b| - 1)
    requires u <= v < |b|
    ensures IsPerm(f0) && |f0| == |b| <= |e|
    ensures 0 <= f[u] < |b| && 0 <= f[v] < |b| && 0 <= f0[u] < |b| && 0 <= f0[v] < |b|
    ensures Key(f, e, u) == e[f[u]] && Key(f, e, v) == e[f[v]]
    ensures Start(h0, u) == Start(h0, v) ==> Key(f, e, u) <= Key(f, e, v)
  {
  }

  lemma DoubledPair(b: seq<byte>, f0: seq<int>, f: seq<int>, h0: set<int>, heads: set<int>, e: seq<int>, H: nat, u: nat, v: nat)
    requires OrderedTo(b, f0, H) && Heads(b, f0, H, h0) && Classified(f0, h0, e, H, |b|)
    requires 1 <= H <= |b| && |f| == |b| && IsPerm(f)
    requires WithinBuckets(b, f0, f, H)
    requires RefinedTo(f0, f, e, h0, heads, |b|, |b| - 1)
    requires u <= v < |b|
    ensures 0 <= f[u] && 0 <= f[v]
    ensures Cmp(b, f[u], f[v], 2 * H) <= 0
    ensures Cmp(b, f[u], f[v], 2 * H) == 0 <==> Start(h0, u) == Start(h0, v) && Key(f, e, u) == Key(f, e, v)
  {
    hide Start, Heads, Cmp, Classified, RefinedTo, WithinBuckets, Key, OrderedTo, IsPerm;
    DoubledBounds(b, f0, f, h0, heads, e, H, u, v);
    BucketOrder(b, f0, H, h0, u, v);
    WithinBucketsCmp(b, f0, f, H, u, v);
    CmpSplit(b, f[u], f[v], H, H);
    ClassOrder(b, f0, h0, e, H, f[u], f[v]);
  }

  // The first pass: a byte radix sort that fills each bucket from its end.

  /** Where index i goes in the radix pass: buckets fill downwards. */
  ghost function RadixSlot(b: seq<byte>, i: nat): int
    requires i < |b|
  {
    Below(b, b[i] as nat + 1) - 1 - Count(b[..i], b[i])
  }

  lemma RadixSlotRange(b: seq<byte>, i: nat)
    requires i < |b|
    ensures Below(b, b[i]) <= RadixSlot(b, i) < Below(b, b[i] as nat + 1) <= |b|
    ensures SortedChar(b, RadixSlot(b, i)) == b[i]
  {
    CountPrefix(b, i, b[i]);
    CountPrefixMonotone(b, i + 1, |b|, b[i]);
    BelowBound(b, b[i] as nat + 1);
    CharUnique(b, RadixSlot(b, i), b[i]);
  }

  lemma RadixSlotDistinct(b: seq<byte>, i: nat, j: nat)
    requires i < j < |b|
    ensures RadixSlot(b, i) != RadixSlot(b, j)
  {
    RadixSlotRange(b, i);
    RadixSlotRange(b, j);
    if b[i] == b[j] {
      CountPrefix(b, i, b[i]);
      CountPrefixMonotone(b, i + 1, j, b[i]);
    }
  }

  ghost predicate RadixPlaced(b: seq<byte>, f: seq<int>, i: nat)
    requires i <= |b|
  {
    forall k: nat :: k < i ==> 0 <= RadixSlot(b, k) < |f| && f[RadixSlot(b, k)] == k
  }

  /** The finished radix pass is a permutation ordered by first character. */
  lemma RadixOrdered(b: seq<byte>, f: seq<int>)
    requires |f| == |b| && RadixPlaced(b, f, |b|)
    ensures OrderedTo(b, f, 1)
    ensures forall k: nat :: k < |b| ==> 0 <= f[k] < |b| && b[f[k]] == SortedChar(b, k)
  {
    var slots := seq(|b|, i requires 0 <= i < |b| => RadixSlot(b, i));
    forall i | 0 <= i < |b| ensures 0 <= slots[i] < |b| {
      RadixSlotRange(b, i);
    }
    forall i, j | 0 <= i < j < |b| ensures slots[i] != slots[j] {
      RadixSlotDistinct(b, i, j);
    }
    forall k: nat | k < |b|
      ensures 0 <= f[k] < |b| && b[f[k]] == SortedChar(b, k) && RadixSlot(b, f[k]) == k
    {
      var i := PermHits(slots, k);
      RadixSlotRange(b, i);
    }
    forall i, j | 0 <= i <= j < |b| ensures Cmp(b, f[i], f[j], 1) <= 0 {
      SortedCharMonotone(b, i, j);
    }
    assert IsPerm(f);
  }

  /** Bits at every bucket start mark exactly the changes of first character. */
  lemma RadixHeads(b: seq<byte>, f: seq<int>, heads: set<int>)
    requires |f| == |b| && IsPerm(f)
    requires forall k: nat :: k < |b| ==> b[f[k]] == SortedChar(b, k)
    requires forall k: nat :: k < |b| ==> (k in heads <==> StartsValue(b, k))
    ensures Heads(b, f, 1, heads)
  {
    forall i | 0 <= i < |b| ensures i in heads <==> i == 0 || Cmp(b, f[i - 1], f[i], 1) != 0 {
      RunStart(b, i);
      if i > 0 {
        assert Cmp(b, f[i - 1], f[i], 1) != 0 <==> At(b, f[i - 1]) != At(b, f[i]);
      }
    }
  }

  /** Counts of each byte in the block so far, and after summation the end of each bucket. */
  method CountBytes(block: array<byte>, nblock: int) returns (ftab: array<int>, ftabCopy: array<int>)
    requires 0 <= nblock <= block.Length
    ensures fresh(ftab) && fresh(ftabCopy) && ftab != ftabCopy
    ensures ftab.Length == 257 && ftabCopy.Length == 256
    ensures forall c: nat :: c < 256 ==> ftab[c] == Below(block[..nblock], c + 1)
    ensures forall c: nat :: c < 256 ==> ftabCopy[c] == Count(block[..nblock], c)
  {
    ghost var b := block[..nblock];
    ftab := new int[257](_ => 0);
    for i := 0 to nblock
      invariant forall c: nat :: c < 256 ==> ftab[c] == Count(b[..i], c)
    {
      forall c ensures Count(b[..i + 1], c) == Count(b[..i], c) + if b[i] == c then 1 else 0 {
        CountPrefix(b, i, c);
      }
      ftab[block[i]] := ftab[block[i]] + 1;
    }
    assert b[..nblock] == b;
    ftabCopy := new int[256];
    for i := 0 to 256
      invariant forall c: nat :: c < 256 ==> ftab[c] == Count(b, c)
      invariant forall c: nat :: c < i ==> ftabCopy[c] == Count(b, c)
    {
      ftabCopy[i] := ftab[i];
    }
    for i := 1 to 257
      invariant forall c: nat :: i <= c < 256 ==> ftab[c] == Count(b, c)
      invariant forall c: nat :: c < i && c < 256 ==> ftab[c] == Below(b, c + 1)
      invariant forall c: nat :: c < 256 ==> ftabCopy[c] == Count(b, c)
    {
      ftab[i] := ftab[i] + ftab[i - 1];
    }
  }

  lemma RadixCounts(b: seq<byte>, i: nat)
    requires i <= |b|
    ensures i == 0 ==> forall c :: Count(b[..i], c) == 0
    ensures i < |b| ==> forall c :: Count(b[..i + 1], c) == Count(b[..i], c) + if b[i] == c then 1 else 0
  {
    if i < |b| {
      forall c ensures Count(b[..i + 1], c) == Count(b[..i], c) + if b[i] == c then 1 else 0 {
        CountPrefix(b, i, c);
      }
    }
  }

  lemma RadixPlaceNext(b: seq<byte>, i: nat)
    requires i < |b|
    ensures RadixSlot(b, i) == Below(b, b[i] as nat + 1) - 1 - Count(b[..i], b[i])
    ensures 0 <= RadixSlot(b, i) < |b|
    ensures forall k: nat :: k < i ==> RadixSlot(b, k) != RadixSlot(b, i)
  {
    RadixSlotRange(b, i);
    forall k: nat | k < i ensures RadixSlot(b, k) != RadixSlot(b, i) {
      RadixSlotDistinct(b, k, i);
    }
  }

  lemma RadixEnds(b: seq<byte>)
    ensures forall c: nat :: Below(b, c + 1) - Count(b[..|b|], c) == Below(b, c)
  {
    assert b[..|b|] == b;
  }

  /** Places every index in its bucket; afterwards ftab holds the bucket starts. */
  method RadixPass(block: array<byte>, fmap: array<int>, ftab: array<int>, nblock: int)
    requires 0 <= nblock <= block.Length && nblock <= fmap.Length
    requires fmap != ftab && ftab.Length == 257
    requires forall c: nat :: c < 256 ==> ftab[c] == Below(block[..nblock], c + 1)
    modifies fmap, ftab
    ensures forall c: nat :: c < 256 ==> ftab[c] == Below(block[..nblock], c)
    ensures RadixPlaced(block[..nblock], fmap[..nblock], nblock)
  {
    hide Count, RadixSlot, SortedChar;
    ghost var b := block[..nblock];
    RadixCounts(b, 0);
    for i := 0 to nblock
      invariant forall c: nat :: c < 256 ==> ftab[c] == Below(b, c + 1) - Count(b[..i], c)
      invariant RadixPlaced(b, fmap[..nblock], i)
    {
      RadixCounts(b, i);
      RadixPlaceNext(b, i);
      var j := block[i];
      var k := ftab[j] - 1;
      ftab[j] := k;
      fmap[k] := i;
    }
    RadixEnds(b);
  }

  method ClearTable(bhtab: array<u32>, nBhtab: int)
    requires 0 <= nBhtab <= bhtab.Length
    modifies bhtab
    ensures forall k: nat :: k < 32 * nBhtab ==> k !in HeadSet(bhtab[..])
  {
    for i := 0 to nBhtab
      invariant forall w :: 0 <= w < i ==> bhtab[w] == 0
    {
      bhtab[i] := 0;
    }
    forall k: nat | k < 32 * nBhtab ensures !Bh(bhtab[..], k) {
      BitZero(k % 32);
    }
  }

  /** The first c buckets' starts. */
  ghost predicate StartsBelow(b: seq<byte>, k: nat, c: nat) {
    exists d: nat :: d < c && Below(b, d) == k
  }

  method SetStarts(bhtab: array<u32>, ftab: array<int>, ghost b: seq<byte>)
    requires ftab.Length == 257 && |b| < 32 * bhtab.Length
    requires forall c: nat :: c < 256 ==> ftab[c] == Below(b, c)
    requires forall k: nat :: k < |b| ==> k !in HeadSet(bhtab[..])
    modifies bhtab
    ensures forall k: nat :: k < |b| ==> (k in HeadSet(bhtab[..]) <==> StartsValue(b, k))
  {
    for i := 0 to 256
      invariant forall k: nat :: k < |b| ==> (k in HeadSet(bhtab[..]) <==> StartsBelow(b, k, i))
    {
      BelowBound(b, i);
      forall k: nat ensures StartsBelow(b, k, i + 1) <==> StartsBelow(b, k, i) || k == Below(b, i) {
        if StartsBelow(b, k, i + 1) {
          var d: nat :| d < i + 1 && Below(b, d) == k;
        }
      }
      SetBh(bhtab, ftab[i]);
    }
  }

  method SetSentinels(bhtab: array<u32>, nblock: int)
    requires 0 <= nblock && 3 + nblock / 32 <= bhtab.Length
    modifies bhtab
    ensures forall k: nat :: k < nblock ==> (k in HeadSet(bhtab[..]) <==> k in old(HeadSet(bhtab[..])))
    ensures forall i: nat :: i < 32 ==> nblock + 2 * i in HeadSet(bhtab[..]) && nblock + 2 * i + 1 !in HeadSet(bhtab[..])
  {
    for i := 0 to 32
      invariant forall k: nat :: k < nblock ==> (k in HeadSet(bhtab[..]) <==> k in old(HeadSet(bhtab[..])))
      invariant forall j: nat :: j < i ==> nblock + 2 * j in HeadSet(bhtab[..]) && nblock + 2 * j + 1 !in HeadSet(bhtab[..])
    {
      SetBh(bhtab, nblock + 2 * i);
      ClearBh(bhtab, nblock + 2 * i + 1);
    }
  }

  /** Clears the table, then sets the bit at every bucket start and the end-of-block sentinels. */
  method InitialHeads(bhtab: array<u32>, ftab: array<int>, nblock: int, ghost b: seq<byte>)
    requires |b| == nblock && 0 < nblock && ftab.Length == 257
    requires 3 + nblock / 32 <= bhtab.Length
    requires forall c: nat :: c < 256 ==> ftab[c] == Below(b, c)
    modifies bhtab
    ensures forall k: nat :: k < nblock ==> (k in HeadSet(bhtab[..]) <==> StartsValue(b, k))
    ensures Sentinels(HeadSet(bhtab[..]), nblock)
  {
    var nBhtab := 2 + nblock / 32;
    ClearTable(bhtab, nBhtab);
    SetStarts(bhtab, ftab, b);
    SetSentinels(bhtab, nblock);
    assert nblock + 2 * 0 in HeadSet(bhtab[..]) && nblock + 2 * 0 + 1 !in HeadSet(bhtab[..]);
  }

  // One pass of the doubling loop.

  lemma BackDistinct(f: seq<int>, H: int, i: int)
    requires IsPerm(f) && 1 <= H <= |f| && 0 <= i < |f|
    ensures 0 <= Back(f[i], H, |f|) < |f|
    ensures forall j :: 0 <= j < |f| && i != j ==> Back(f[i], H, |f|) != Back(f[j], H, |f|)
  {
    forall j | 0 <= j < |f| && i != j ensures Back(f[i], H, |f|) != Back(f[j], H, |f|) {
      assert f[i] != f[j];
    }
  }

  /** eclass holds unsigned numbers. */
  ghost predicate Unsigned(e: seq<int>) {
    forall k :: 0 <= k < |e| ==> 0 <= e[k]
  }

  /** Gives every rotation the bucket of the rotation H characters after it. */
  method BuildClasses(fmap: array<int>, eclass: array<int>, bhtab: array<u32>, nblock: int, H: int)
    requires fmap != eclass && 0 < nblock <= fmap.Length && nblock <= eclass.Length
    requires 1 <= H <= nblock < 32 * bhtab.Length && 0 in HeadSet(bhtab[..])
    requires IsPerm(fmap[..nblock]) && Unsigned(eclass[..])
    modifies eclass
    ensures Unsigned(eclass[..])
    ensures Classified(fmap[..nblock], HeadSet(bhtab[..]), eclass[..], H, nblock)
  {
    hide Start, IsPerm;
    ghost var f, heads := fmap[..nblock], HeadSet(bhtab[..]);
    var j := 0;
    for i := 0 to nblock
      invariant 0 <= j && Unsigned(eclass[..])
      invariant i > 0 ==> j == Start(heads, i - 1)
      invariant forall k :: 0 <= k < i ==> 0 <= Back(f[k], H, nblock) < nblock && eclass[Back(f[k], H, nblock)] == Start(heads, k)
    {
      var head := IsSetBh(bhtab, i);
      if head {
        j := i;
      }
      BackDistinct(f, H, i);
      var k := fmap[i] - H;
      if k < 0 {
        k := k + nblock;
      }
      eclass[k] := j;
    }
  }

  /** The next bucket with more than one entry after position r: [l..r2], or l == n if there is none. */
  method NextBucket(bhtab: array<u32>, nblock: int, r: int) returns (l: int, r2: int)
    requires Sentinels(HeadSet(bhtab[..]), nblock) && nblock + 1 < 32 * bhtab.Length
    requires -1 <= r < nblock && r + 1 in HeadSet(bhtab[..])
    ensures r < l <= nblock
    ensures forall y :: r < y <= l ==> y in HeadSet(bhtab[..])
    ensures l < nblock ==> l < r2 < nblock && r2 + 1 in HeadSet(bhtab[..])
    ensures l < nblock ==> forall y :: l < y <= r2 ==> y !in HeadSet(bhtab[..])
  {
    ghost var heads := HeadSet(bhtab[..]);
    var k := SkipWhile(bhtab, r + 1, true, nblock + 1);
    l := k - 1;
    r2 := l;
    if l >= nblock {
      return;
    }
    k := SkipWhile(bhtab, k, false, nblock);
    r2 := k - 1;
  }

  /** y is the first position of [l..r], or its class differs from the one before. */
  ghost predicate Changes(f: seq<int>, e: seq<int>, l: int, r: int, y: int) {
    l <= y <= r && (y == l || Key(f, e, y - 1) != Key(f, e, y))
  }

  /** Sets a header bit wherever the class changes within the sorted bucket [l..r]. */
  method MarkChanges(fmap: array<int>, eclass: array<int>, bhtab: array<u32>, l: int, r: int)
    requires 0 <= l <= r < 32 * bhtab.Length && Indexes(fmap[..], eclass[..], l, r)
    requires Unsigned(eclass[..])
    modifies bhtab
    ensures forall y :: y in HeadSet(bhtab[..]) <==>
              (y in old(HeadSet(bhtab[..])) || Changes(fmap[..], eclass[..], l, r, y))
  {
    var cc := -1;
    var i := l;
    while i <= r
      invariant l <= i <= r + 1
      invariant cc == if i == l then -1 else Key(fmap[..], eclass[..], i - 1)
      invariant forall y :: y in HeadSet(bhtab[..]) <==>
                  (y in old(HeadSet(bhtab[..])) || Changes(fmap[..], eclass[..], l, i - 1, y))
    {
      var cc1 := eclass[fmap[i]];
      if cc != cc1 {
        SetBh(bhtab, i);
        cc := cc1;
      }
      i := i + 1;
    }
  }

  /** Extends the refined part by a stretch of singleton buckets followed by the sorted bucket [l..r2]. */
  lemma RefineStep(f0: seq<int>, f: seq<int>, g: seq<int>, e: seq<int>, h0: set<int>, h: set<int>, h2: set<int>, n: int,
                   r: int, l: int, r2: int)
    requires RefinedTo(f0, f, e, h0, h, n, r) && r < l <= r2 < n
    requires r + 1 in h0 && (forall y :: r < y <= l ==> y in h0) && (forall y :: l < y <= r2 ==> y !in h0)
    requires Permutes(f, g, l, r2 + 1) && Ordered(g, e, l, r2)
    requires forall y :: y in h2 <==> (y in h || Changes(g, e, l, r2, y))
    ensures RefinedTo(f0, g, e, h0, h2, n, r2)
  {
    forall k | k <= r ensures Key(g, e, k) == Key(f, e, k) {}
    forall u: nat, v: nat | u <= v <= r2 && Start(h0, u) == Start(h0, v) ensures Key(g, e, u) <= Key(g, e, v) {
      if v > r {
        SameStart(h0, u, v);
        if v <= l {
          assert v in h0;
        } else {
          assert l in h0;
        }
      }
    }
    forall i: nat | i <= r2 ensures i in h2 <==> (i in h0 || (i > 0 && Key(g, e, i - 1) != Key(g, e, i))) {
      assert i in h2 <==> (i in h || Changes(g, e, l, r2, i));
      if i <= r && i > 0 {
        assert Key(g, e, i - 1) == Key(f, e, i - 1);
      }
    }
  }

  lemma RefineSingles(f0: seq<int>, f: seq<int>, e: seq<int>, h0: set<int>, h: set<int>, n: int, r: int)
    requires RefinedTo(f0, f, e, h0, h, n, r) && (forall y :: r < y <= n ==> y in h0)
    ensures RefinedTo(f0, f, e, h0, h, n, n - 1)
  {
    forall u: nat, v: nat | u <= v <= n - 1 && Start(h0, u) == Start(h0, v) ensures Key(f, e, u) <= Key(f, e, v) {
      if v > r {
        SameStart(h0, u, v);
      }
    }
  }

  lemma SlicePermutes(f: seq<int>, g: seq<int>, lo: int, hi: int, n: int)
    requires Permutes(f, g, lo, hi) && hi <= n <= |f| && 0 <= n
    ensures Permutes(f[..n], g[..n], lo, hi)
  {
    assert f == f[..n] + f[n..];
    assert g == g[..n] + g[n..];
    assert f[n..] == g[n..];
    assert multiset(f[..n]) == multiset(f) - multiset(f[n..]);
    assert multiset(g[..n]) == multiset(g) - multiset(g[n..]);
  }

  /** Before a pass: fmap is ordered to depth H and the header bits say where the H-prefix changes. */
  ghost predicate Ready(b: seq<byte>, f: seq<int>, h: set<int>, H: nat) {
    OrderedTo(b, f, H) && Heads(b, f, H, h) && Sentinels(h, |b|)
  }

  /** During a pass: buckets up to r are done. */
  ghost predicate Passing(b: seq<byte>, f0: seq<int>, f: seq<int>, e: seq<int>, h0: set<int>, h: set<int>, H: nat, r: int) {
    && Ready(b, f0, h0, H) && Classified(f0, h0, e, H, |b|)
    && |f| == |b| && IsPerm(f) && WithinBuckets(b, f0, f, H)
    && RefinedTo(f0, f, e, h0, h, |b|, r)
    && r + 1 in h0
  }

  lemma PassBegins(b: seq<byte>, f: seq<int>, e: seq<int>, h: set<int>, H: nat)
    requires |b| > 0 && Ready(b, f, h, H) && Classified(f, h, e, H, |b|)
    ensures Passing(b, f, f, e, h, h, H, -1)
  {
    assert 0 in h;
    forall i | 0 <= i < |b| ensures Cmp(b, f[i], f[i], H) == 0 {
      CmpAnti(b, f[i], f[i], H);
    }
  }

  /** Sorting bucket [l..r2] and marking its changes extends the finished part. */
  lemma PassAdvances(b: seq<byte>, f0: seq<int>, f: seq<int>, g: seq<int>, e: seq<int>, h0: set<int>, h: set<int>, h2: set<int>,
                     H: nat, r: int, l: int, r2: int)
    requires Passing(b, f0, f, e, h0, h, H, r) && r < l <= r2 < |b| && r2 + 1 in h
    requires forall y :: r < y <= l ==> y in h
    requires forall y :: l < y <= r2 ==> y !in h
    requires Permutes(f, g, l, r2 + 1) && Ordered(g, e, l, r2)
    requires forall y :: y in h2 <==> (y in h || Changes(g, e, l, r2, y))
    ensures Passing(b, f0, g, e, h0, h2, H, r2)
  {
    RefineStep(f0, f, g, e, h0, h, h2, |b|, r, l, r2);
    PermutesKeepsPerm(f, g, l, r2 + 1);
    forall i | 0 <= i < |b| ensures Cmp(b, f0[i], g[i], H) == 0 {
      if l <= i <= r2 {
        var j := PermutesFrom(f, g, l, r2 + 1, i);
        InOneBucket(b, f0, h0, H, l, r2, i, j);
      } else {
        assert Cmp(b, f0[i], f[i], H) == 0;
      }
    }
  }

  lemma InOneBucket(b: seq<byte>, f: seq<int>, h: set<int>, H: nat, l: int, r: int, i: int, j: int)
    requires Ready(b, f, h, H) && 0 <= l <= i <= r < |b| && l <= j <= r
    requires forall y :: l < y <= r ==> y !in h
    ensures Cmp(b, f[i], f[j], H) == 0
  {
    SameStart(h, if i <= j then i else j, if i <= j then j else i);
    BucketOrderAny(b, f, H, h, i, j);
  }

  /** A completed pass is ready for the next one at twice the depth. */
  lemma PassEnds(b: seq<byte>, f0: seq<int>, f: seq<int>, e: seq<int>, h0: set<int>, h: set<int>, H: nat, r: int)
    requires Passing(b, f0, f, e, h0, h, H, r) && 1 <= H <= |b|
    requires forall y :: r < y <= |b| ==> y in h
    ensures Ready(b, f, h, 2 * H)
  {
    RefineSingles(f0, f, e, h0, h, |b|, r);
    Doubled(b, f0, f, h0, h, e, H);
  }

  /** If every position starts a bucket, the first H characters already decide the whole order. */
  lemma AllSingle(b: seq<byte>, f: seq<int>, h: set<int>, H: nat)
    requires Ready(b, f, h, H) && H <= |b| && |b| > 0
    requires forall y :: 0 <= y < |b| ==> y in h
    ensures SortedRotations(b, f)
  {
    forall i, j | 0 <= i <= j < |f| ensures Cmp(b, f[i], f[j], |b|) <= 0 {
      if i == j {
        CmpAnti(b, f[i], f[i], |b|);
      } else {
        SameStart(h, i, j);
        assert j in h;
        BucketOrder(b, f, H, h, i, j);
        CmpSplit(b, f[i], f[j], H, |b| - H);
      }
    }
  }

  lemma DeepEnough(b: seq<byte>, f: seq<int>, h: set<int>, H: nat)
    requires Ready(b, f, h, H) && |b| <= H && |b| > 0
    ensures SortedRotations(b, f)
  {
    forall i, j | 0 <= i <= j < |f| ensures Cmp(b, f[i], f[j], |b|) <= 0 {
      CmpWhole(b, f[i], f[j], H);
    }
  }

  /** Sorts every bucket of equal H-prefixes by the prefix that follows; reports how many entries were in such buckets. */
  method RefineBuckets(fmap: array<int>, eclass: array<int>, bhtab: array<u32>, nblock: int, H: int, ghost b: seq<byte>)
    returns (nNotDone: int)
    requires fmap != eclass && |b| == nblock && 0 < nblock <= MAX_BLOCK
    requires nblock <= fmap.Length && nblock <= eclass.Length && nblock + 1 < 32 * bhtab.Length
    requires 1 <= H <= nblock
    requires Ready(b, fmap[..nblock], HeadSet(bhtab[..]), H)
    requires Classified(fmap[..nblock], HeadSet(bhtab[..]), eclass[..], H, nblock)
    requires Unsigned(eclass[..])
    modifies fmap, bhtab
    ensures Ready(b, fmap[..nblock], HeadSet(bhtab[..]), 2 * H)
    ensures nNotDone == 0 ==> SortedRotations(b, fmap[..nblock])
  {
    hide Passing, Ready, Classified, SortedRotations, Permutes, Ordered, Key;
    ghost var f0, h0, e := fmap[..nblock], HeadSet(bhtab[..]), eclass[..];
    PassBegins(b, f0, e, h0, H);
    nNotDone := 0;
    var r := -1;
    while true
      invariant -1 <= r < nblock && 0 <= nNotDone && eclass[..] == e
      invariant Passing(b, f0, fmap[..nblock], e, h0, HeadSet(bhtab[..]), H, r)
      invariant nNotDone == 0 ==> r == -1 && fmap[..nblock] == f0 && HeadSet(bhtab[..]) == h0
      decreases nblock - r
    {
      ghost var f, h := fmap[..nblock], HeadSet(bhtab[..]);
      PassingBounds(b, f0, f, e, h0, h, H, r);
      var l, r2 := NextBucket(bhtab, nblock, r);
      assert HeadSet(bhtab[..]) == h && fmap[..nblock] == f;
      if l >= nblock {
        PassEnds(b, f0, f, e, h0, h, H, r);
        if nNotDone == 0 {
          AllSingle(b, f, h, H);
        }
        return;
      }
      nNotDone := nNotDone + (r2 - l + 1);
      SortBucket(fmap, eclass, nblock, l, r2);
      MarkChanges(fmap, eclass, bhtab, l, r2);
      PassAdvances(b, f0, f, fmap[..nblock], e, h0, h, HeadSet(bhtab[..]), H, r, l, r2);
      r := r2;
    }
  }

  lemma PassingBounds(b: seq<byte>, f0: seq<int>, f: seq<int>, e: seq<int>, h0: set<int>, h: set<int>, H: nat, r: int)
    requires Passing(b, f0, f, e, h0, h, H, r)
    ensures Sentinels(h, |b|) && r + 1 in h && |f| == |b| <= |e|
    ensures forall k :: 0 <= k < |b| ==> 0 <= f[k] < |b|
  {
    assert |b| > r && |b| + 1 > r;
  }

  /** QSort3 on one bucket, seen through the first nblock entries. */
  method SortBucket(fmap: array<int>, eclass: array<int>, nblock: int, l: int, r: int)
    requires fmap != eclass && 0 <= l <= r < nblock <= MAX_BLOCK && nblock <= fmap.Length && nblock <= eclass.Length
    requires forall k :: 0 <= k < nblock ==> 0 <= fmap[k] < nblock
    modifies fmap
    ensures Permutes(old(fmap[..nblock]), fmap[..nblock], l, r + 1)
    ensures Ordered(fmap[..nblock], eclass[..], l, r)
    ensures Indexes(fmap[..], eclass[..], l, r)
    ensures forall k :: l - 1 <= k <= r ==> Key(fmap[..], eclass[..], k) == Key(fmap[..nblock], eclass[..], k)
  {
    ghost var f := fmap[..];
    QSort3(fmap, eclass, l, r);
    SlicePermutes(f, fmap[..], l, r + 1, nblock);
    PermutesIndexes(f, fmap[..], eclass[..], l, r);
    forall k ensures k < nblock ==> Key(fmap[..], eclass[..], k) == Key(fmap[..nblock], eclass[..], k) {}
  }

  // Putting the block back, and the whole sort.

  /** How often c still occurs in the sorted block from position i on. */
  ghost function Remaining(b: seq<byte>, c: nat, i: nat): int {
    var lo, hi := Below(b, c), Below(b, c + 1);
    (if hi > i then hi else i) - (if lo > i then lo else i)
  }

  lemma RemainingAt(b: seq<byte>, i: nat)
    requires i < |b|
    ensures Remaining(b, SortedChar(b, i), i) > 0
    ensures forall c: nat :: c < SortedChar(b, i) ==> Remaining(b, c, i) == 0
    ensures forall c: nat :: Remaining(b, c, i + 1) == Remaining(b, c, i) - if c == SortedChar(b, i) then 1 else 0
  {
    var x: nat := SortedChar(b, i);
    forall c: nat
      ensures c < x ==> Remaining(b, c, i) == 0
      ensures Remaining(b, c, i + 1) == Remaining(b, c, i) - if c == x then 1 else 0
    {
      if c < x {
        BelowMonotone(b, c, x);
      } else if x < c {
        BelowMonotone(b, x, c);
      }
    }
  }

  lemma RemainingInitially(b: seq<byte>, c: nat)
    ensures Remaining(b, c, 0) == Count(b, c)
  {
  }

  /** Rewrites the block, whose memory the sort has used for eclass, from the counts and the sorted order. */
  method Rebuild(block: array<byte>, fmap: array<int>, ftabCopy: array<int>, nblock: int, ghost b: seq<byte>)
    requires block as object != fmap && fmap != ftabCopy && block as object != ftabCopy
    requires |b| == nblock && 0 < nblock <= block.Length && nblock <= fmap.Length && ftabCopy.Length == 256
    requires IsPerm(fmap[..nblock])
    requires forall k: nat :: k < nblock ==> b[fmap[k]] == SortedChar(b, k)
    requires forall c: nat :: c < 256 ==> ftabCopy[c] == Count(b, c)
    modifies block, ftabCopy
    ensures block[..nblock] == b
  {
    hide Remaining, SortedChar, Count, Below;
    forall c: nat ensures Remaining(b, c, 0) == Count(b, c) {
      RemainingInitially(b, c);
    }
    var j := 0;
    for i := 0 to nblock
      invariant 0 <= j < 256
      invariant i < nblock ==> j <= SortedChar(b, i)
      invariant forall c: nat :: c < 256 ==> ftabCopy[c] == Remaining(b, c, i)
      invariant forall k :: 0 <= k < i ==> block[fmap[k]] == b[fmap[k]]
    {
      RemainingAt(b, i);
      if i + 1 < nblock {
        SortedCharMonotone(b, i, i + 1);
      }
      while ftabCopy[j] == 0
        invariant 0 <= j <= SortedChar(b, i)
        decreases SortedChar(b, i) - j
      {
        j := j + 1;
      }
      ftabCopy[j] := ftabCopy[j] - 1;
      block[fmap[i]] := j;
    }
    assert j < 256;
    forall x | 0 <= x < nblock ensures block[x] == b[x] {
      var k := PermHits(fmap[..nblock], x);
    }
  }

  /** The sort's eclass table lies over the block's memory: afterwards nothing is known of the block. */
  method Overwrite(block: array<byte>)
    modifies block
  {
    for i := 0 to block.Length {
      block[i] := *;
    }
  }

  lemma SortedFirst(b: seq<byte>, f: seq<int>, k: nat)
    requires SortedRotations(b, f) && k < |b|
    ensures 0 <= f[k] < |b| && b[f[k]] == SortedChar(b, k)
  {
    forall i, j | 0 <= i <= j < |b| ensures b[f[i]] <= b[f[j]] {
      assert Cmp(b, f[i], f[j], |b|) <= 0;
      assert At(b, f[i]) == b[f[i]] && At(b, f[j]) == b[f[j]];
    }
    SortedColumn(b, f, k);
  }

  /**
   * Sorts the rotations of block[..nblock] into fmap. `block` and `eclass` share memory in the
   * program, so the block is lost when eclass is first written and has to be rebuilt at the end.
   */
  method Sort(fmap: array<int>, eclass: array<int>, block: array<byte>, bhtab: array<u32>, nblock: int)
    requires fmap != eclass && block as object != fmap && block as object != eclass && block as object != bhtab
    requires 0 < nblock <= MAX_BLOCK && nblock <= block.Length && nblock <= fmap.Length && nblock <= eclass.Length
    requires 3 + nblock / 32 <= bhtab.Length && Unsigned(eclass[..])
    modifies fmap, eclass, block, bhtab
    ensures block[..nblock] == old(block[..nblock])
    ensures SortedRotations(block[..nblock], fmap[..nblock])
  {
    hide SortedRotations, Ready, Classified, Heads, OrderedTo, RadixPlaced, StartsValue, Below, Count, SortedChar, IsPerm;
    ghost var b := block[..nblock];
    var ftab, ftabCopy := CountBytes(block, nblock);
    RadixPass(block, fmap, ftab, nblock);
    InitialHeads(bhtab, ftab, nblock, b);
    RadixReady(b, fmap[..nblock], HeadSet(bhtab[..]));
    Overwrite(block);
    var H := 1;
    while true
      invariant 1 <= H <= nblock && Unsigned(eclass[..])
      invariant Ready(b, fmap[..nblock], HeadSet(bhtab[..]), H)
      invariant forall c: nat :: c < 256 ==> ftabCopy[c] == Count(b, c)
      decreases nblock - H
    {
      ReadyBounds(b, fmap[..nblock], HeadSet(bhtab[..]), H);
      BuildClasses(fmap, eclass, bhtab, nblock, H);
      var nNotDone := RefineBuckets(fmap, eclass, bhtab, nblock, H, b);
      H := H * 2;
      if H > nblock || nNotDone == 0 {
        if H > nblock {
          DeepEnough(b, fmap[..nblock], HeadSet(bhtab[..]), H);
        }
        break;
      }
    }
    SortedBounds(b, fmap[..nblock]);
    Rebuild(block, fmap, ftabCopy, nblock, b);
  }

  lemma RadixReady(b: seq<byte>, f: seq<int>, heads: set<int>)
    requires |f| == |b| && RadixPlaced(b, f, |b|)
    requires forall k: nat :: k < |b| ==> (k in heads <==> StartsValue(b, k))
    requires Sentinels(heads, |b|)
    ensures Ready(b, f, heads, 1)
  {
    RadixOrdered(b, f);
    RadixHeads(b, f, heads);
  }

  lemma ReadyBounds(b: seq<byte>, f: seq<int>, heads: set<int>, H: nat)
    requires Ready(b, f, heads, H) && |b| > 0
    ensures IsPerm(f) && 0 in heads
  {
  }

  lemma SortedBounds(b: seq<byte>, f: seq<int>)
    requires SortedRotations(b, f)
    ensures |f| == |b| && IsPerm(f)
    ensures forall k: nat :: k < |b| ==> 0 <= f[k] < |b| && b[f[k]] == SortedChar(b, k)
  {
    forall k: nat | k < |b| ensures 0 <= f[k] < |b| && b[f[k]] == SortedChar(b, k) {
      SortedFirst(b, f, k);
    }
  }

  /** Sorts the block and finds the row that holds the unrotated block. */
  method BlockSort(ptr: array<int>, arr2: array<int>, block: array<byte>, ftab: array<u32>, nblock: int) returns (origPtr: int)
    requires ptr != arr2 && block as object != ptr && block as object != arr2 && block as object != ftab
    requires 0 < nblock <= MAX_BLOCK && nblock <= block.Length && nblock <= ptr.Length && nblock <= arr2.Length
    requires 3 + nblock / 32 <= ftab.Length && Unsigned(arr2[..])
    modifies ptr, arr2, block, ftab
    ensures block[..nblock] == old(block[..nblock])
    ensures SortedRotations(block[..nblock], ptr[..nblock])
    ensures 0 <= origPtr < nblock && ptr[origPtr] == 0
  {
    Sort(ptr, arr2, block, ftab, nblock);
    origPtr := -1;
    var i := 0;
    while i < nblock
      invariant 0 <= i <= nblock && origPtr == -1
      invariant forall k :: 0 <= k < i ==> ptr[k] != 0
    {
      if ptr[i] == 0 {
        origPtr := i;
        break;
      }
      i := i + 1;
    }
    if origPtr == -1 {
      var k := PermHits(ptr[..nblock], 0);
      assert false;
    }
  }
}
