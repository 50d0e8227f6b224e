// The tree hash of the THEX draft, section 2, over 1024-byte base blocks,
// with the hash function as a free constructor: equal hashes mean equal data.
module Thex {
  import opened Words

  const BASE_BLOCK_SIZE := 1024

  /** A leaf hash covers bytes behind a zero byte, a node hash two hashes behind a one byte. */
  datatype Hash = Leaf(bytes: seq<byte>) | Node(left: Hash, right: Hash)

  /** 1024 doubled any number of times. */
  predicate BlockSize(s: int) {
    s == BASE_BLOCK_SIZE || (s > BASE_BLOCK_SIZE && s % 2 == 0 && BlockSize(s / 2))
  }

  /** Doubles l while that stays below n. */
  function Split(l: nat, n: nat): (s: nat)
    requires 0 < l < n
    ensures l <= s < n <= 2 * s
    decreases n - l
  {
    if 2 * l < n then Split(2 * l, n) else l
  }

  /** The root of the tree over b: the left part is the largest block size below the length. */
  function TreeHash(b: seq<byte>): (h: Hash)
    decreases |b|
  {
    if |b| <= BASE_BLOCK_SIZE then Leaf(b)
    else
      var s := Split(BASE_BLOCK_SIZE, |b|);
      Node(TreeHash(b[..s]), TreeHash(b[s..]))
  }

  lemma {:induction false} SplitSize(l: nat, n: nat)
    requires 0 < l < n && BlockSize(l)
    ensures BlockSize(Split(l, n))
    decreases n - l
  {
    if 2 * l < n {
      assert (2 * l) / 2 == l && (2 * l) % 2 == 0;
      SplitSize(2 * l, n);
    }
  }

  /** Between different block sizes there is at least a factor of two. */
  lemma {:induction false} SizeGap(s: int, t: int)
    requires BlockSize(s) && BlockSize(t) && s < t
    ensures 2 * s <= t
    decreases s + t
  {
    if s < t / 2 {
      SizeGap(s, t / 2);
    } else if s > t / 2 {
      SizeGap(t / 2, s);
    }
  }

  /** Any block size with the splitting property is where the tree splits, from whichever smaller one the search starts. */
  lemma SplitIs(l: nat, n: nat, s: nat)
    requires 0 < l < n && BlockSize(l) && BlockSize(s) && s < n <= 2 * s
    ensures Split(l, n) == s
  {
    var t := Split(l, n);
    SplitSize(l, n);
    if t < s {
      SizeGap(t, s);
    } else if s < t {
      SizeGap(s, t);
    }
  }

  /** Two trees side by side, the left one full and the right one no larger, form the tree of the whole. */
  lemma TreeJoin(a: seq<byte>, b: seq<byte>)
    requires BlockSize(|a|) && 0 < |b| <= |a|
    ensures TreeHash(a + b) == Node(TreeHash(a), TreeHash(b))
  {
    var c := a + b;
    SizeMin(|a|);
    SplitIs(BASE_BLOCK_SIZE, |c|, |a|);
    assert c[..|a|] == a && c[|a|..] == b;
  }

  lemma {:induction false} SizeMin(s: int)
    requires BlockSize(s)
    ensures s >= BASE_BLOCK_SIZE
  {
  }

  /** The bytes under a hash. */
  function Bytes(h: Hash): seq<byte> {
    if h.Leaf? then h.bytes else Bytes(h.left) + Bytes(h.right)
  }

  /** The hash determines the data, whatever its length. */
  lemma {:induction false} TreeBytes(b: seq<byte>)
    ensures Bytes(TreeHash(b)) == b
    decreases |b|
  {
    if |b| > BASE_BLOCK_SIZE {
      var s := Split(BASE_BLOCK_SIZE, |b|);
      TreeBytes(b[..s]);
      TreeBytes(b[s..]);
      assert b == b[..s] + b[s..];
    }
  }

  /** Equal tree hashes mean equal data. */
  lemma TreeDetermines(a: seq<byte>, b: seq<byte>)
    requires TreeHash(a) == TreeHash(b)
    ensures a == b
  {
    TreeBytes(a);
    TreeBytes(b);
  }

  // Data cut into parts.

  ghost function Flat(parts: seq<seq<byte>>): seq<byte> {
    if parts == [] then [] else Flat(parts[..|parts| - 1]) + parts[|parts| - 1]
  }

  lemma FlatSnoc(parts: seq<seq<byte>>, p: seq<byte>)
    ensures Flat(parts + [p]) == Flat(parts) + p
  {
    assert (parts + [p])[..|parts|] == parts;
  }

  lemma FlatNone()
    ensures Flat([]) == []
  {
  }

  lemma FlatUpTo(pieces: seq<seq<byte>>, i: nat)
    requires i < |pieces|
    ensures Flat(pieces[..i + 1]) == Flat(pieces[..i]) + pieces[i]
  {
    hide *;
    FlatSnoc(pieces[..i], pieces[i]);
    assert pieces[..i + 1] == pieces[..i] + [pieces[i]];
  }

  lemma {:induction false} FlatAppend(a: seq<seq<byte>>, b: seq<seq<byte>>)
    ensures Flat(a + b) == Flat(a) + Flat(b)
    decreases |b|
  {
    if b == [] {
      assert a + b == a && Flat(a) + [] == Flat(a);
    } else {
      var n := |b| - 1;
      assert (a + b)[..|a + b| - 1] == a + b[..n];
      FlatAppend(a, b[..n]);
      assert Flat(a) + Flat(b[..n]) + b[n] == Flat(a) + (Flat(b[..n]) + b[n]);
    }
  }

  lemma FlatOne(p: seq<byte>)
    ensures Flat([p]) == p
  {
    FlatSnoc([], p);
    assert [] + [p] == [p] && Flat([]) + p == p;
  }

  /** All parts but the last have bs bytes, and the last at most that. */
  ghost predicate Cut(parts: seq<seq<byte>>, bs: int) {
    && (forall i {:trigger parts[i]} :: 0 <= i < |parts| - 1 ==> |parts[i]| == bs)
    && (|parts| > 0 ==> |parts[|parts| - 1]| <= bs)
  }

  lemma {:induction false} FullLength(parts: seq<seq<byte>>, bs: nat)
    requires forall i {:trigger parts[i]} :: 0 <= i < |parts| ==> |parts[i]| == bs
    ensures |Flat(parts)| == |parts| * bs
  {
    if parts != [] {
      FullLength(parts[..|parts| - 1], bs);
      MulDistributes(|parts| - 1, 1, bs);
    }
  }

  /** Part i lies at i * bs. */
  lemma PartAt(parts: seq<seq<byte>>, bs: nat, i: nat)
    requires Cut(parts, bs) && i < |parts|
    ensures |Flat(parts[..i])| == i * bs && i * bs + |parts[i]| <= |Flat(parts)|
    ensures Flat(parts)[i * bs..i * bs + |parts[i]|] == parts[i]
    ensures i == |parts| - 1 ==> i * bs + |parts[i]| == |Flat(parts)|
  {
    hide Flat;
    var a, b := parts[..i], parts[i + 1..];
    forall k | 0 <= k < |a| ensures |a[k]| == bs {
      assert a[k] == parts[k];
    }
    FullLength(a, bs);
    FlatAppend(a, [parts[i]] + b);
    FlatAppend([parts[i]], b);
    FlatOne(parts[i]);
    assert parts == a + ([parts[i]] + b);
    assert Flat(parts) == Flat(a) + (parts[i] + Flat(b));
    Middle(Flat(a), parts[i], Flat(b));
    if i == |parts| - 1 {
      FlatNone();
      assert b == [];
    }
  }

  lemma Middle(a: seq<byte>, p: seq<byte>, b: seq<byte>)
    ensures (a + (p + b))[|a|..|a| + |p|] == p
  {
    hide *;
  }

  /** Number of blocks of bs bytes, counting an incomplete last one; at least one. */
  function CalcBlocks(fileSize: nat, blockSize: nat): (n: nat)
    requires blockSize > 0
  {
    if (fileSize + blockSize - 1) / blockSize > 1 then (fileSize + blockSize - 1) / blockSize else 1
  }

  /** Data cut into k parts with a non-empty last part, or a single empty one, has k blocks. */
  lemma CutCount(parts: seq<seq<byte>>, bs: nat)
    requires bs > 0 && Cut(parts, bs) && |parts| > 0
    requires parts[|parts| - 1] != [] || |parts| == 1
    ensures CalcBlocks(|Flat(parts)|, bs) == |parts|
    ensures (|parts| - 1) * bs <= |Flat(parts)| <= |parts| * bs
    ensures |parts| > 1 ==> (|parts| - 1) * bs < |Flat(parts)|
  {
    var k := |parts| - 1;
    PartAt(parts, bs, k);
    var r := |parts[k]|;
    MulDistributes(k, 1, bs);
    if r == 0 {
      DivModUnique(bs - 1, bs, 0, bs - 1);
    } else {
      DivModUnique(k * bs + r + bs - 1, bs, k + 1, r - 1);
    }
  }

  lemma {:induction false} DoubledSize(k: nat)
    ensures BlockSize(1024 * Pow2(k))
    decreases k
  {
    if k > 0 {
      DoubledSize(k - 1);
    }
  }

  /**
   * The tree hash of up to 1024 bytes is a leaf, and that of more bytes a node over two parts, the first of which is
   * 1024 bytes doubled as often as leaves something for the second.
   */
  lemma HashLaw(b: seq<byte>)
    ensures |b| <= 1024 ==> TreeHash(b) == Leaf(b)
    ensures forall k: nat :: 1024 * Pow2(k) < |b| <= 2 * (1024 * Pow2(k)) ==>
              TreeHash(b) == Node(TreeHash(b[..1024 * Pow2(k)]), TreeHash(b[1024 * Pow2(k)..]))
  {
    hide TreeHash, Pow2, BlockSize;
    if |b| <= 1024 {
      SmallTree(b);
    }
    forall k: nat | 1024 * Pow2(k) < |b| <= 2 * (1024 * Pow2(k))
      ensures TreeHash(b) == Node(TreeHash(b[..1024 * Pow2(k)]), TreeHash(b[1024 * Pow2(k)..]))
    {
      DoubledSize(k);
      SplitThere(b, 1024 * Pow2(k));
    }
  }

  lemma SplitThere(b: seq<byte>, s: nat)
    requires BlockSize(s) && s < |b| <= 2 * s
    ensures TreeHash(b) == Node(TreeHash(b[..s]), TreeHash(b[s..]))
  {
    hide TreeHash, BlockSize;
    TreeJoin(b[..s], b[s..]);
    assert b == b[..s] + b[s..];
  }

  lemma SmallTree(b: seq<byte>)
    requires |b| <= 1024
    ensures TreeHash(b) == Leaf(b)
  {
  }
}
