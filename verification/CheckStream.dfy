// MerkleCheckOutputStream: lets through only data that fits a known tree.
module CheckStream {
  import opened Words
  import opened Thex
  import opened TreeLeaves
  import opened MerkleTree

  /** The tree of the file, as it came with the file or was downloaded before. */
  datatype KnownTree = KnownTree(leaves: seq<Hash>, root: Hash, blockSize: int)

  ghost predicate TreeOf(t: KnownTree, file: seq<byte>) {
    BlockSize(t.blockSize) && t.blockSize > 0 && Honest(t.leaves, file, t.blockSize) && t.root == TreeHash(file)
  }

  /** How many of n bytes lie in complete blocks. */
  function Whole(n: nat, bs: nat): (w: nat)
    requires bs > 0
    ensures w <= n < w + bs
  {
    n / bs * bs
  }

  /** Every complete block of the data is that of the file. */
  predicate BlocksGood(stream: seq<byte>, file: seq<byte>, bs: nat)
    requires bs > 0
  {
    stream[..Whole(|stream|, bs)] <= file
  }

  /** The data is a beginning of the file that ends with it or with a block. */
  predicate Complete(stream: seq<byte>, file: seq<byte>, bs: nat)
    requires bs > 0
  {
    stream <= file && (stream == file || (stream != [] && Whole(|stream|, bs) == |stream|))
  }

  /** While all data is good, so was every beginning of it. */
  lemma GoodBefore(s: seq<byte>, stream: seq<byte>, file: seq<byte>, bs: nat)
    requires bs > 0 && s <= stream && Complete(stream, file, bs)
    ensures BlocksGood(s, file, bs)
  {
  }

  lemma WholeIs(n: nat, bs: nat, k: nat)
    requires bs > 0 && k * bs <= n < (k + 1) * bs
    ensures Whole(n, bs) == k * bs && n / bs == k
  {
    MulDistributes(k, 1, bs);
    DivModUnique(n, bs, k, n - k * bs);
  }

  lemma BlocksFit(n: nat, bs: nat, k: nat)
    requires bs > 0
    ensures k * bs <= n ==> k <= CalcBlocks(n, bs)
    ensures CalcBlocks(n, bs) >= 1 && n <= CalcBlocks(n, bs) * bs
    ensures CalcBlocks(n, bs) > 1 ==> (CalcBlocks(n, bs) - 1) * bs < n
  {
    WholeSpan(n, bs);
    var c := CalcBlocks(n, bs);
    if k > c {
      MulMonotone(c + 1, k, bs, bs);
      MulDistributes(c, 1, bs);
    }
  }

  lemma TakeMore<T>(s: seq<T>, t: seq<T>, k: nat, j: nat)
    requires k <= j <= |s| && j <= |t|
    ensures s[..j] == t[..j] <==> s[..k] == t[..k] && s[k..j] == t[k..j]
  {
    assert s[..j] == s[..k] + s[k..j] && t[..j] == t[..k] + t[k..j];
  }

  /** The leaf of a complete block is that of the file exactly if the block is. */
  lemma BlockIff(leaves: seq<Hash>, known: seq<Hash>, d: seq<byte>, file: seq<byte>, bs: nat, k: nat)
    requires k < |leaves| && Agree(leaves, d, bs, 0, k + 1) && k * bs + bs <= |d| && Honest(known, file, bs) && k < |known|
    ensures k * bs <= |file|
    ensures leaves[k] == known[k] <==> k * bs + bs <= |file| && d[k * bs..k * bs + bs] == file[k * bs..k * bs + bs]
  {
    hide TreeHash, CalcBlocks;
    assert LeafOf(leaves[k], d, bs, k) && LeafOf(known[k], file, bs, k);
    SameLeaf(Chunk(d, bs, k), Chunk(file, bs, k));
  }

  /** n leaves of complete blocks are those of the file exactly if the blocks are. */
  lemma {:induction false} PrefixIff(leaves: seq<Hash>, known: seq<Hash>, d: seq<byte>, file: seq<byte>, bs: nat, n: nat)
    requires bs > 0 && n <= |leaves| && Agree(leaves, d, bs, 0, n) && n * bs <= |d| && Honest(known, file, bs)
    ensures n <= |known| && leaves[..n] == known[..n] <==> n * bs <= |file| && d[..n * bs] == file[..n * bs]
    decreases n
  {
    hide TreeHash, CalcBlocks, Agree, Honest;
    HonestCount(known, file, bs, n);
    if n > 0 {
      var k := n - 1;
      MulDistributes(k, 1, bs);
      AgreeSplit(leaves, d, bs, 0, k, n);
      PrefixIff(leaves, known, d, file, bs, k);
      if n <= |known| {
        TakeMore(leaves, known, k, n);
        BlockIff(leaves, known, d, file, bs, k);
      }
      if n * bs <= |file| {
        TakeMore(d, file, k * bs, n * bs);
      }
    }
  }

  lemma HonestCount(known: seq<Hash>, file: seq<byte>, bs: nat, n: nat)
    requires Honest(known, file, bs)
    ensures bs > 0 && |known| == CalcBlocks(|file|, bs) && (n * bs <= |file| ==> n <= |known|)
  {
    BlocksFit(|file|, bs, n);
  }

  lemma SameLeaf(a: seq<byte>, b: seq<byte>)
    ensures TreeHash(a) == TreeHash(b) <==> a == b
  {
    if TreeHash(a) == TreeHash(b) {
      TreeDetermines(a, b);
    }
  }

  /** A short last block, or none, cannot have the leaf of a complete one. */
  lemma LastIff(leaves: seq<Hash>, known: seq<Hash>, d: seq<byte>, file: seq<byte>, bs: nat, k: nat)
    requires Honest(leaves, d, bs) && Honest(known, file, bs) && |leaves| == k + 1 < |known|
    ensures k * bs + bs <= |file| && k * bs <= |d| <= k * bs + bs
    ensures leaves[k] == known[k] <==> |d| == k * bs + bs && d[k * bs..] == file[k * bs..k * bs + bs]
  {
    hide TreeHash, CalcBlocks;
    BlocksFit(|d|, bs, 0);
    BlocksFit(|file|, bs, 0);
    MulDistributes(k, 1, bs);
    MulMonotone(k + 1, |known| - 1, bs, bs);
    assert LeafOf(leaves[k], d, bs, k) && LeafOf(known[k], file, bs, k);
    SameLeaf(Chunk(d, bs, k), Chunk(file, bs, k));
  }

  /** Data of at most c blocks, more than c - 1, is complete before the end of the file exactly if it is c whole blocks. */
  lemma CompleteIff(d: seq<byte>, file: seq<byte>, bs: nat, c: nat)
    requires bs > 0 && c > 0 && (c - 1) * bs <= |d| <= c * bs <= |file| && d != file && (c > 1 ==> (c - 1) * bs < |d|)
    ensures Complete(d, file, bs) <==> |d| == c * bs && d == file[..c * bs]
  {
    hide Whole;
    MulDistributes(c - 1, 1, bs);
    MulDistributes(c, 1, bs);
    WholeIs(|d|, bs, if |d| < c * bs then c - 1 else c);
  }

  /** Finished leaves, fewer than those of the file, are among them exactly if the data is complete. */
  lemma FewerIff(leaves: seq<Hash>, known: seq<Hash>, d: seq<byte>, file: seq<byte>, bs: nat)
    requires Honest(leaves, d, bs) && Honest(known, file, bs) && |leaves| < |known|
    ensures bs > 0
    ensures leaves == known[..|leaves|] <==> Complete(d, file, bs)
  {
    hide *;
    HonestCount(leaves, d, bs, 0);
    HonestCount(known, file, bs, 0);
    BlocksFit(|d|, bs, 0);
    var c, k := |leaves|, |leaves| - 1;
    MulDistributes(k, 1, bs);
    LastIff(leaves, known, d, file, bs, k);
    HonestAgree(leaves, d, bs, k);
    PrefixIff(leaves, known, d, file, bs, k);
    TakeMore(leaves, known, k, c);
    assert leaves == leaves[..c] && leaves[k..c] == [leaves[k]] && known[k..c] == [known[k]];
    assert leaves[k..c][0] == leaves[k] && known[k..c][0] == known[k];
    if |d| == c * bs {
      TakeMore(d, file, k * bs, c * bs);
      assert d == d[..c * bs] && d[k * bs..] == d[k * bs..c * bs];
    }
    CompleteIff(d, file, bs, c);
  }

  lemma HonestAgree(leaves: seq<Hash>, d: seq<byte>, bs: nat, k: nat)
    requires Honest(leaves, d, bs) && k <= |leaves|
    ensures bs > 0 && Agree(leaves, d, bs, 0, k)
  {
  }

  /** As many leaves as the file has, or more: the data is complete exactly if it is the whole file. */
  lemma AllIff(leaves: seq<Hash>, known: seq<Hash>, d: seq<byte>, file: seq<byte>, bs: nat)
    requires Honest(leaves, d, bs) && Honest(known, file, bs) && |leaves| >= |known|
    ensures bs > 0 && (Complete(d, file, bs) <==> d == file) && (d == file ==> |leaves| == |known|)
  {
    hide *;
    HonestCount(leaves, d, bs, 0);
    HonestCount(known, file, bs, 0);
    BlocksFit(|d|, bs, 0);
    BlocksFit(|file|, bs, 0);
    var c := |leaves|;
    MulMonotone(|known|, c, bs, bs);
    NoneComplete(d, file, bs, c);
  }

  /** Shorter than the file and ending inside a block. */
  lemma NoneComplete(d: seq<byte>, file: seq<byte>, bs: nat, c: nat)
    requires bs > 0 && c > 0 && (c > 1 ==> (c - 1) * bs < |d|) && |file| <= c * bs
    ensures Complete(d, file, bs) <==> d == file
  {
    hide Whole;
    MulDistributes(c - 1, 1, bs);
    if |d| < c * bs {
      WholeIs(|d|, bs, c - 1);
    }
  }

  /** memcpy into an array. */
  method CopyInto(dst: array<byte>, at: nat, src: seq<byte>)
    requires at + |src| <= dst.Length
    modifies dst
    ensures dst[..at + |src|] == old(dst[..at]) + src
  {
    for i := 0 to |src|
      invariant dst[..at + i] == old(dst[..at]) + src[..i]
    {
      dst[at + i] := src[i];
      assert dst[..at + i + 1] == dst[..at + i] + [src[i]];
    }
  }

  class MerkleCheckOutputStream {
    const known: KnownTree
    const cur: Tree
    const buf: array<byte>
    var bufPos: nat
    var verified: nat
    var out: seq<byte>           // passed on to the stream behind this one
    ghost const file: seq<byte>  // the file that the known tree belongs to
    ghost var stream: seq<byte>  // the file up to the start position, then all that was written

    ghost predicate Valid()
      reads this`bufPos, this`verified, this`stream, cur, buf
    {
      && TreeOf(known, file) && cur.Valid() && !cur.closed && cur.blockSize == known.blockSize
      && buf.Length == BASE_BLOCK_SIZE && bufPos < BASE_BLOCK_SIZE && |cur.Data()| % BASE_BLOCK_SIZE == 0
      && stream == cur.Data() + buf[..bufPos] && Checked()
    }

    /** The leaves found good so far. */
    ghost predicate Checked()
      reads this`verified, cur`leaves
    {
      verified <= |known.leaves| && verified <= |cur.leaves| && cur.leaves[..verified] == known.leaves[..verified]
    }

    /** A start position past the known leaves is taken, but not prepared for. */
    constructor (aTree: KnownTree, start: nat, ghost aFile: seq<byte>)
      requires BlockSize(aTree.blockSize) && aTree.blockSize > 0 && start % aTree.blockSize == 0
      ensures known == aTree && file == aFile && out == []
      ensures TreeOf(aTree, aFile) && start <= |aFile| ==> Valid() && stream == aFile[..start]
      ensures fresh(cur) && fresh(buf)
    {
      hide *;
      known, file, bufPos, verified, out, stream := aTree, aFile, 0, 0, [], if start <= |aFile| then aFile[..start] else [];
      cur := new Tree(aTree.blockSize);
      buf := new byte[1024](_ => 0);
      new;
      var nBlocks := start / aTree.blockSize;
      ghost var before := stream;
      assert buf[..0] == [] && before + [] == before;
      if nBlocks > |aTree.leaves| {
        cur.Resume(start, [], before);
        if TreeOf(aTree, aFile) && start <= |aFile| {
          StartLeaves(aTree, aFile, start, nBlocks);
        }
      } else {
        cur.Resume(start, aTree.leaves[..nBlocks], before);
        if TreeOf(aTree, aFile) && start <= |aFile| {
          StartLeaves(aTree, aFile, start, nBlocks);
          NowChecked();
          NowValid();
        }
      }
    }

    lemma OpenFacts()
      requires Valid()
      ensures TreeOf(known, file) && cur.Valid() && !cur.closed && cur.blockSize == known.blockSize > 0
      ensures buf.Length == 1024 && bufPos < 1024 && |cur.Data()| % 1024 == 0 && stream == cur.Data() + buf[..bufPos] && Checked()
    {
    }

    lemma NowValid()
      requires TreeOf(known, file) && cur.Valid() && !cur.closed && cur.blockSize == known.blockSize
      requires buf.Length == 1024 && bufPos < 1024 && |cur.Data()| % 1024 == 0 && stream == cur.Data() + buf[..bufPos] && Checked()
      ensures Valid()
    {
    }

    lemma NowChecked()
      requires verified == 0
      ensures Checked()
    {
    }

    twostate lemma StillChecked()
      requires old(Checked()) && old(cur.leaves) <= cur.leaves && verified == old(verified)
      ensures Checked()
    {
    }

    /** Hashes whole base blocks. */
    method HashWhole(b: seq<byte>)
      requires cur.Valid() && !cur.closed && |cur.Data()| % 1024 == 0 && b != [] && |b| % 1024 == 0
      modifies cur
      ensures cur.Valid() && !cur.closed && |cur.Data()| % 1024 == 0 && cur.Data() == old(cur.Data()) + b
      ensures cur.blockSize == old(cur.blockSize) && old(cur.leaves) <= cur.leaves
    {
      hide *;
      UpdateFull(b);
      cur.Update(b);
    }

    /** Fills the buffer from the front of the data; a full buffer is hashed. */
    method FillBuffer(b: seq<byte>) returns (pos: nat)
      requires Valid()
      modifies this`bufPos, this`stream, cur, buf
      ensures pos <= |b| && Valid() && stream == old(stream) + b[..pos] && (pos < |b| ==> bufPos == 0) && old(cur.leaves) <= cur.leaves
    {
      hide *;
      OpenFacts();
      pos := 0;
      if bufPos != 0 {
        var bytes := if 1024 - bufPos < |b| then 1024 - bufPos else |b|;
        CopyInto(buf, bufPos, b[..bytes]);
        pos := bytes;
        bufPos := bufPos + bytes;
        assert buf[..bufPos] == old(buf[..bufPos]) + b[..bytes];
        assert cur.Data() + buf[..bufPos] == old(stream) + b[..pos] by {
          assert old(cur.Data() + buf[..bufPos]) + b[..bytes] == old(cur.Data()) + (old(buf[..bufPos]) + b[..bytes]);
        }
        if bufPos == 1024 {
          HashWhole(buf[..1024]);
          bufPos := 0;
          assert cur.Data() + buf[..bufPos] == old(stream) + b[..pos];
        }
      }
      stream := stream + b[..pos];
      StillChecked();
      assert stream == cur.Data() + buf[..bufPos];
      NowValid();
    }

    /** Hashes whole base blocks from an empty buffer, and buffers what is left. */
    method HashRest(b: seq<byte>)
      requires Valid() && bufPos == 0 && b != []
      modifies this`bufPos, this`stream, cur, buf
      ensures Valid() && stream == old(stream) + b && old(cur.leaves) <= cur.leaves
    {
      hide *;
      OpenFacts();
      assert stream == cur.Data();
      var part := |b| - |b| % 1024;
      Rejoin(stream, b, part);
      if part > 0 {
        HashWhole(b[..part]);
      }
      assert cur.Data() == old(stream) + b[..part];
      CopyInto(buf, 0, b[part..]);
      bufPos := |b| - part;
      stream := stream + b;
      assert buf[..bufPos] == b[part..];
      StillChecked();
      NowValid();
    }

    /** Adds data to the hash in whole base blocks, keeping back what is left. */
    method CommitBytes(b: seq<byte>)
      requires Valid()
      modifies this`bufPos, this`stream, cur, buf
      ensures Valid() && stream == old(stream) + b && old(cur.leaves) <= cur.leaves
    {
      hide *;
      var pos := FillBuffer(b);
      if pos < |b| {
        HashRest(b[pos..]);
      }
      Rejoin(old(stream), b, pos);
    }

    /** Compares the leaves not compared yet; true unless one is wrong. */
    method CheckTrees() returns (ok: bool)
      requires Checked()
      modifies this`verified
      ensures ok <==> |cur.leaves| <= |known.leaves| && cur.leaves == known.leaves[..|cur.leaves|]
      ensures Checked()
    {
      while |cur.leaves| > verified
        invariant Checked()
        decreases |cur.leaves| - verified
      {
        if |cur.leaves| > |known.leaves| || cur.leaves[verified] != known.leaves[verified] {
          return false;
        }
        verified := verified + 1;
      }
      return true;
    }

    /** Goes through exactly if every complete block so far is that of the file; only then is the data passed on. */
    method Write(b: seq<byte>) returns (ok: bool)
      requires Valid()
      modifies this`bufPos, this`stream, this`verified, this`out, cur, buf
      ensures Valid() && stream == old(stream) + b
      ensures ok <==> BlocksGood(stream, file, known.blockSize)
      ensures out == if ok then old(out) + b else old(out)
    {
      CommitBytes(b);
      WriteIff();
      ok := CheckTrees();
      if ok {
        out := out + b;
      }
    }

    /** The leaves so far compare well exactly if all complete blocks are good. */
    lemma WriteIff()
      requires Valid()
      ensures known.blockSize > 0 && Checked()
      ensures |cur.leaves| <= |known.leaves| && cur.leaves == known.leaves[..|cur.leaves|] <==> BlocksGood(stream, file, known.blockSize)
    {
      hide *;
      OpenFacts();
      TreeFacts(known, file);
      cur.LeavesSoFar();
      var bs, d, n := known.blockSize, cur.Data(), |cur.leaves|;
      WholeBase(bs, n + 1);
      BelowNext(|d|, bufPos, (n + 1) * bs);
      WholeIs(|stream|, bs, n);
      PrefixIff(cur.leaves, known.leaves, d, file, bs, n);
      assert cur.leaves[..n] == cur.leaves;
      FrontOf(d, buf[..bufPos], n * bs);
      GoodIs(stream, file, bs, n);
    }

    /** Goes through exactly if the data is a beginning of the file that ends with it or with a block. */
    method Flush() returns (ok: bool)
      requires Valid()
      modifies this`bufPos, this`verified, cur
      ensures known.blockSize > 0 && (ok <==> Complete(stream, file, known.blockSize))
    {
      hide *;
      OpenFacts();
      TreeFacts(known, file);
      ghost var bs, d := known.blockSize, stream;
      assert bufPos == 0 ==> cur.Data() == d;
      if bufPos != 0 {
        cur.Update(buf[..bufPos]);
      }
      bufPos := 0;
      cur.Finalize();
      StillChecked();
      if |cur.leaves| == |known.leaves| {
        ok := cur.root == known.root;
        AllIff(cur.leaves, known.leaves, d, file, bs);
        SameLeaf(d, file);
      } else {
        if |cur.leaves| < |known.leaves| {
          FewerIff(cur.leaves, known.leaves, d, file, bs);
        } else {
          AllIff(cur.leaves, known.leaves, d, file, bs);
        }
        ok := CheckTrees();
      }
    }
  }

  lemma GoodIs(stream: seq<byte>, file: seq<byte>, bs: nat, n: nat)
    requires bs > 0 && Whole(|stream|, bs) == n * bs
    ensures n * bs <= |stream|
    ensures BlocksGood(stream, file, bs) <==> n * bs <= |file| && stream[..n * bs] == file[..n * bs]
  {
  }

  /** Between multiples of the size of a base block there is room for less than one of them. */
  lemma BelowNext(n: nat, k: nat, limit: nat)
    requires n % 1024 == 0 && limit % 1024 == 0 && n < limit && k < 1024
    ensures n + k < limit
  {
  }

  lemma FrontOf(a: seq<byte>, b: seq<byte>, k: nat)
    requires k <= |a|
    ensures (a + b)[..k] == a[..k]
  {
  }

  lemma Rejoin(a: seq<byte>, b: seq<byte>, k: nat)
    requires k <= |b|
    ensures a + b == a + b[..k] + b[k..] && (k == 0 ==> a + b[..k] == a)
  {
    assert b == b[..k] + b[k..];
  }

  /** Whole base blocks keep the tree open. */
  lemma UpdateFull(b: seq<byte>)
    ensures |b| % 1024 == |b| % BASE_BLOCK_SIZE
  {
  }

  /** The leaves of the known tree up to the start are those of the data before it. */
  lemma StartLeaves(t: KnownTree, file: seq<byte>, start: nat, n: nat)
    requires TreeOf(t, file) && t.blockSize > 0 && start <= |file| && start % t.blockSize == 0 && n == start / t.blockSize
    ensures n <= |t.leaves| && start == n * t.blockSize && Agree(t.leaves[..n], file[..start], t.blockSize, 0, n) && start % 1024 == 0
  {
    hide *;
    var bs := t.blockSize;
    TreeFacts(t, file);
    assert start == n * bs;
    HonestCount(t.leaves, file, bs, n);
    HonestAgree(t.leaves, file, bs, n);
    AgreeTake(t.leaves, file, bs, n, start);
    WholeBase(bs, n);
  }

  lemma TreeFacts(t: KnownTree, file: seq<byte>)
    requires TreeOf(t, file)
    ensures BlockSize(t.blockSize) && t.blockSize > 0 && Honest(t.leaves, file, t.blockSize) && t.root == TreeHash(file)
  {
  }

  lemma AgreeTake(leaves: seq<Hash>, d: seq<byte>, bs: nat, n: nat, w: nat)
    requires Agree(leaves, d, bs, 0, n) && n * bs <= w <= |d|
    ensures n <= |leaves| && Agree(leaves[..n], d[..w], bs, 0, n)
  {
    hide TreeHash;
    forall k | 0 <= k < n ensures LeafOf(leaves[..n][k], d[..w], bs, k) {
      assert LeafOf(leaves[k], d, bs, k);
      MulDistributes(k, 1, bs);
      MulMonotone(k + 1, n, bs, bs);
      assert Chunk(d[..w], bs, k) == Chunk(d, bs, k);
    }
  }

  /** Whole blocks are whole base blocks. */
  lemma WholeBase(bs: nat, n: nat)
    requires BlockSize(bs)
    ensures n * bs % 1024 == 0
  {
    SizeMin(bs);
    var m := Multiple(1024, bs);
    assert n * bs == (n * m) * 1024;
  }

  /** Writes the pieces one after another and flushes, stopping at the first error. */
  method Transfer(s: MerkleCheckOutputStream, pieces: seq<seq<byte>>) returns (ok: bool)
    requires s.Valid() && s.known.blockSize > 0
    modifies s, s.cur, s.buf
    ensures ok <==> Complete(old(s.stream) + Flat(pieces), s.file, s.known.blockSize)
    ensures ok ==> s.out == old(s.out) + Flat(pieces)
  {
    hide *;
    ghost var whole, bs := old(s.stream) + Flat(pieces), s.known.blockSize;
    NoPieces(pieces, s.stream, s.out);
    var i := 0;
    while i < |pieces|
      invariant 0 <= i <= |pieces| && s.Valid()
      invariant s.stream == old(s.stream) + Flat(pieces[..i]) && s.out == old(s.out) + Flat(pieces[..i])
    {
      NextPiece(pieces, i, old(s.stream), old(s.out));
      ok := s.Write(pieces[i]);
      i := i + 1;
      if !ok {
        BadBefore(s.stream, whole, s.file, bs);
        return;
      }
    }
    AllPieces(pieces, i);
    ok := s.Flush();
  }

  lemma NoPieces(pieces: seq<seq<byte>>, a: seq<byte>, b: seq<byte>)
    ensures a + Flat(pieces[..0]) == a && b + Flat(pieces[..0]) == b
  {
    FlatNone();
    assert pieces[..0] == [];
  }

  lemma AllPieces(pieces: seq<seq<byte>>, i: nat)
    requires i == |pieces|
    ensures pieces[..i] == pieces
  {
  }

  lemma NextPiece(pieces: seq<seq<byte>>, i: nat, a: seq<byte>, b: seq<byte>)
    requires i < |pieces|
    ensures a + Flat(pieces[..i + 1]) == a + Flat(pieces[..i]) + pieces[i]
    ensures a + Flat(pieces[..i + 1]) <= a + Flat(pieces)
    ensures b + Flat(pieces[..i + 1]) == b + Flat(pieces[..i]) + pieces[i]
  {
    hide *;
    FlatAround(pieces, i);
    Rejoin3(a, Flat(pieces[..i]), pieces[i], Flat(pieces[i + 1..]));
    Rejoin3(b, Flat(pieces[..i]), pieces[i], []);
  }

  lemma FlatAround(pieces: seq<seq<byte>>, i: nat)
    requires i < |pieces|
    ensures Flat(pieces[..i + 1]) == Flat(pieces[..i]) + pieces[i]
    ensures Flat(pieces) == Flat(pieces[..i]) + pieces[i] + Flat(pieces[i + 1..])
  {
    hide *;
    FlatUpTo(pieces, i);
    FlatAppend(pieces[..i + 1], pieces[i + 1..]);
    assert pieces[..i + 1] + pieces[i + 1..] == pieces;
  }

  lemma Rejoin3(a: seq<byte>, p: seq<byte>, x: seq<byte>, q: seq<byte>)
    ensures a + (p + x) == a + p + x && a + (p + x) <= a + (p + x + q)
  {
    assert a + (p + x + q) == a + (p + x) + q;
  }

  lemma BadBefore(s: seq<byte>, whole: seq<byte>, file: seq<byte>, bs: nat)
    requires bs > 0 && s <= whole && !BlocksGood(s, file, bs)
    ensures !Complete(whole, file, bs)
  {
    if Complete(whole, file, bs) {
      GoodBefore(s, whole, file, bs);
    }
  }
}
