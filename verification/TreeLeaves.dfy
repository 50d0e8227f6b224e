// The leaf hashes of a file for a block size, and the root they determine.
module TreeLeaves {
  import opened Words
  import opened Thex

  /** Block k of d: bs bytes, or what is left of d. */
  function Chunk(d: seq<byte>, bs: nat, k: nat): seq<byte>
    requires k * bs <= |d|
  {
    if k * bs + bs <= |d| then d[k * bs..k * bs + bs] else d[k * bs..]
  }

  /** Leaf k is that of block k of d. */
  ghost predicate LeafOf(h: Hash, d: seq<byte>, bs: nat, k: nat) {
    k * bs <= |d| && h == TreeHash(Chunk(d, bs, k))
  }

  /** Leaves i to j are those of d. */
  ghost predicate Agree(leaves: seq<Hash>, d: seq<byte>, bs: nat, i: nat, j: nat) {
    j <= |leaves| && forall k {:trigger leaves[k]} :: i <= k < j ==> LeafOf(leaves[k], d, bs, k)
  }

  /** The leaves are those of the whole of d. */
  ghost predicate Honest(leaves: seq<Hash>, d: seq<byte>, bs: nat) {
    bs > 0 && |leaves| == CalcBlocks(|d|, bs) && Agree(leaves, d, bs, 0, |leaves|)
  }

  /** The hash that the leaves from number i on give for `length` bytes. */
  function RootOf(leaves: seq<Hash>, bs: nat, i: nat, length: nat): Hash
    requires 0 < bs
    decreases length
  {
    if length <= bs then
      if i < |leaves| then leaves[i] else Leaf([])
    else
      var l := Split(bs, length);
      Node(RootOf(leaves, bs, i, l), RootOf(leaves, bs, i + l / bs, length - l))
  }

  /** Leaves i to j are just enough for `length` bytes. */
  ghost predicate Span(bs: nat, i: nat, j: nat, length: nat) {
    i < j && length <= (j - i) * bs && (j == i + 1 || (j - 1 - i) * bs < length)
  }

  lemma SpanOne(bs: nat, i: nat, j: nat, length: nat)
    requires Span(bs, i, j, length) && length <= bs
    ensures j == i + 1
  {
    if j - 1 - i >= 1 {
      MulMonotone(1, j - 1 - i, bs, bs);
    }
  }

  /** A span splits where the length does. */
  lemma SpanSplit(bs: nat, i: nat, j: nat, length: nat, l: nat, m: nat)
    requires Span(bs, i, j, length) && bs <= l < length && l == m * bs && 0 < bs && 0 < m
    ensures i + m < j && Span(bs, i, i + m, l) && Span(bs, i + m, j, length - l)
  {
    if i + m >= j {
      MulMonotone(j - i, m, bs, bs);
    }
    MulDistributes(m, j - i - m, bs);
    MulDistributes(m, j - 1 - i - m, bs);
    MulDistributes(m - 1, 1, bs);
  }

  /** Splitting a length at a block size splits the leaves at a whole number of blocks. */
  lemma SplitLeaves(bs: nat, length: nat) returns (l: nat, m: nat)
    requires BlockSize(bs) && bs < length
    ensures l == Split(bs, length) && BlockSize(l) && bs <= l < length <= 2 * l && m == l / bs > 0 && l == m * bs
  {
    l := Split(bs, length);
    SplitSize(bs, length);
    SizeMin(bs);
    m := Multiple(bs, l);
    DivModUnique(l, bs, m, 0);
  }

  /** A larger block size is a multiple of a smaller one. */
  lemma {:induction false} Multiple(bs: int, l: int) returns (m: nat)
    requires BlockSize(bs) && BlockSize(l) && bs <= l
    ensures m >= 1 && l == m * bs
    decreases l
  {
    SizeMin(bs);
    if l == bs {
      m := 1;
    } else {
      SizeGap(bs, l);
      var k := Multiple(bs, l / 2);
      m := 2 * k;
      assert l == 2 * (k * bs) == m * bs;
    }
  }

  /** A range ends with the data, or is a whole subtree. */
  ghost predicate Aligned(d: seq<byte>, bs: nat, i: nat, length: nat) {
    && i * bs + length <= |d|
    && (i * bs + length == |d| || (BlockSize(length) && length >= bs))
  }

  lemma AlignedSplit(d: seq<byte>, bs: nat, i: nat, length: nat, l: nat, m: nat)
    requires Aligned(d, bs, i, length) && BlockSize(l) && bs <= l < length <= 2 * l && l == m * bs
    ensures Aligned(d, bs, i, l) && Aligned(d, bs, i + m, length - l) && (i + m) * bs == i * bs + l
  {
    MulDistributes(i, m, bs);
    if BlockSize(length) {
      SizeGap(l, length);
    }
  }

  lemma TreeSplit(d: seq<byte>, start: nat, length: nat, l: nat)
    requires start + length <= |d| && BlockSize(l) && l < length <= 2 * l
    ensures TreeHash(d[start..start + length]) == Node(TreeHash(d[start..start + l]), TreeHash(d[start + l..start + length]))
  {
    var b := d[start..start + length];
    SizeMin(l);
    SplitIs(BASE_BLOCK_SIZE, length, l);
    assert b[..l] == d[start..start + l] && b[l..] == d[start + l..start + length];
  }

  /** A range has its tree hash as root exactly if all its leaves are those of the data. */
  lemma {:induction false} RangeRoot(leaves: seq<Hash>, d: seq<byte>, bs: nat, i: nat, j: nat, length: nat)
    requires BlockSize(bs) && Span(bs, i, j, length) && j <= |leaves| && Aligned(d, bs, i, length)
    ensures 0 < bs && i * bs + length <= |d|
    ensures RootOf(leaves, bs, i, length) == TreeHash(d[i * bs..i * bs + length]) <==> Agree(leaves, d, bs, i, j)
    decreases length
  {
    hide TreeHash, BlockSize, Span, Aligned, Agree, RootOf, LeafOf, Chunk, Split;
    BlockPositive(bs);
    if length <= bs {
      SpanOne(bs, i, j, length);
      OneChunk(d, bs, i, length);
      AgreeOne(leaves, d, bs, i);
      RootIs(leaves, bs, i, length);
    } else {
      var l, m := SplitLeaves(bs, length);
      RootIs(leaves, bs, i, length);
      SpanSplit(bs, i, j, length, l, m);
      AlignedSplit(d, bs, i, length, l, m);
      RangeRoot(leaves, d, bs, i, i + m, l);
      RangeRoot(leaves, d, bs, i + m, j, length - l);
      TreeSplit(d, i * bs, length, l);
      AgreeSplit(leaves, d, bs, i, i + m, j);
    }
  }

  lemma BlockPositive(bs: int)
    requires BlockSize(bs)
    ensures bs > 0
  {
    SizeMin(bs);
  }

  /** One step of putting a root together. */
  lemma RootIs(leaves: seq<Hash>, bs: nat, i: nat, length: nat)
    requires 0 < bs
    ensures length <= bs && i < |leaves| ==> RootOf(leaves, bs, i, length) == leaves[i]
    ensures length > bs ==>
              var l := Split(bs, length); RootOf(leaves, bs, i, length) == Node(RootOf(leaves, bs, i, l), RootOf(leaves, bs, i + l / bs, length - l))
  {
    hide Split;
  }

  lemma OneChunk(d: seq<byte>, bs: nat, i: nat, length: nat)
    requires Aligned(d, bs, i, length) && length <= bs
    ensures i * bs + length <= |d| && Chunk(d, bs, i) == d[i * bs..i * bs + length]
  {
  }

  lemma AgreeOne(leaves: seq<Hash>, d: seq<byte>, bs: nat, i: nat)
    requires i < |leaves| && i * bs <= |d|
    ensures Agree(leaves, d, bs, i, i + 1) <==> leaves[i] == TreeHash(Chunk(d, bs, i))
  {
    if leaves[i] == TreeHash(Chunk(d, bs, i)) {
      assert LeafOf(leaves[i], d, bs, i);
    }
  }

  lemma AgreeSplit(leaves: seq<Hash>, d: seq<byte>, bs: nat, i: nat, k: nat, j: nat)
    requires i <= k <= j <= |leaves|
    ensures Agree(leaves, d, bs, i, j) <==> Agree(leaves, d, bs, i, k) && Agree(leaves, d, bs, k, j)
  {
  }

  /** Enough leaves give the root of d exactly if those that d has are its own. */
  lemma RootAgree(leaves: seq<Hash>, d: seq<byte>, bs: nat)
    requires BlockSize(bs) && bs > 0 && |leaves| >= CalcBlocks(|d|, bs)
    ensures RootOf(leaves, bs, 0, |d|) == TreeHash(d) <==> Agree(leaves, d, bs, 0, CalcBlocks(|d|, bs))
  {
    hide TreeHash, BlockSize, Agree;
    WholeSpan(|d|, bs);
    RangeRoot(leaves, d, bs, 0, CalcBlocks(|d|, bs), |d|);
    assert d[0 * bs..0 * bs + |d|] == d;
  }

  /** Leaves, as many as the file has blocks, give the root of d exactly if they are the leaves of d. */
  lemma RootIff(leaves: seq<Hash>, d: seq<byte>, bs: nat)
    requires BlockSize(bs) && bs > 0 && |leaves| == CalcBlocks(|d|, bs)
    ensures RootOf(leaves, bs, 0, |d|) == TreeHash(d) <==> Honest(leaves, d, bs)
  {
    hide TreeHash, BlockSize, Agree;
    RootAgree(leaves, d, bs);
  }

  lemma WholeSpan(n: nat, bs: nat)
    requires bs > 0
    ensures Span(bs, 0, CalcBlocks(n, bs), n)
  {
    var q, r := (n + bs - 1) / bs, (n + bs - 1) % bs;
    assert n + bs - 1 == q * bs + r && 0 <= r < bs;
    if q >= 1 {
      MulDistributes(q - 1, 1, bs);
    }
  }
}
