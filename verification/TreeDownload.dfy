// A tree travels as its leaf hashes only: choosing the block size, receiving
// the leaves in any pieces, and finding the block size again at the other end.
module TreeDownload {
  import opened Words
  import opened Thex
  import opened TreeLeaves
  import opened MerkleTree
  import opened CheckStream

  const BYTES := 24

  /** The smallest block size that needs no more than 2^(maxLevels - 1) leaves. */
  method CalcBlockSize(fileSize: int, maxLevels: nat) returns (tmp: int)
    requires maxLevels > 0
    ensures BlockSize(tmp) && Pow2(maxLevels - 1) * tmp >= fileSize
    ensures tmp > BASE_BLOCK_SIZE ==> Pow2(maxLevels - 1) * (tmp / 2) < fileSize && Pow2(maxLevels - 1) * tmp < 2 * fileSize
  {
    tmp := BASE_BLOCK_SIZE;
    var maxHashes := Pow2(maxLevels - 1);
    while maxHashes * tmp < fileSize
      invariant BlockSize(tmp) && tmp >= BASE_BLOCK_SIZE
      invariant tmp > BASE_BLOCK_SIZE ==> maxHashes * (tmp / 2) < fileSize && maxHashes * tmp < 2 * fileSize
      decreases fileSize - maxHashes * tmp
    {
      Doubled(tmp);
      DoubleProduct(maxHashes, tmp);
      MulMonotone(1, maxHashes, 1, tmp);
      tmp := tmp * 2;
    }
  }

  lemma Doubled(s: int)
    requires BlockSize(s)
    ensures BlockSize(s * 2) && s * 2 / 2 == s && s >= 1024
  {
    SizeMin(s);
    assert (s * 2) / 2 == s && (s * 2) % 2 == 0;
  }

  /** The number of leaves stays within what the levels allow. */
  lemma LeavesWithin(fileSize: nat, bs: nat, m: nat)
    requires bs > 0 && m > 0 && fileSize <= m * bs
    ensures CalcBlocks(fileSize, bs) <= m
  {
    WholeSpan(fileSize, bs);
    var c := CalcBlocks(fileSize, bs);
    if c > m {
      MulMonotone(m, c - 1, bs, bs);
    }
  }

  /** Doubles the block size until the leaves cover the file, which no leaves do unless there is nothing to cover. */
  method RecoverBlockSize(leafCount: nat, fileSize: nat) returns (bl: int)
    requires leafCount > 0 || fileSize == 0
    ensures BlockSize(bl) && bl > 0 && (leafCount > 0 ==> CalcBlocks(fileSize, bl) <= leafCount)
    ensures leafCount == CalcBlocks(fileSize, bl) <==> exists bs: nat :: BlockSize(bs) && bs > 0 && leafCount == CalcBlocks(fileSize, bs)
    ensures forall bs {:trigger BlockSize(bs)} :: BlockSize(bs) && bs > 0 && leafCount == CalcBlocks(fileSize, bs) ==>
              bl <= bs && (leafCount >= 2 ==> bl == bs) && CalcBlocks(fileSize, bl) == leafCount
  {
    hide CalcBlocks;
    bl := BASE_BLOCK_SIZE;
    while bl * leafCount < fileSize
      invariant BlockSize(bl) && bl >= 1024
      invariant bl == BASE_BLOCK_SIZE || (bl / 2) * leafCount < fileSize
      decreases fileSize - bl * leafCount
    {
      Doubled(bl);
      DoubleProduct(leafCount, bl);
      MulMonotone(1, leafCount, 1, bl);
      bl := bl * 2;
    }
    NoLeaves(fileSize);
    if leafCount == 0 {
      return;
    }
    LeavesWithin(fileSize, bl, leafCount);
    SurplusIff(fileSize, leafCount, bl);
    forall bs {:trigger BlockSize(bs)} | BlockSize(bs) && bs > 0 && leafCount == CalcBlocks(fileSize, bs)
      ensures bl <= bs && (leafCount >= 2 ==> bl == bs) && CalcBlocks(fileSize, bl) == leafCount
    {
      Recovered(leafCount, fileSize, bl, bs);
    }
  }

  lemma NoLeaves(fileSize: nat)
    ensures forall bs: nat {:trigger BlockSize(bs)} :: BlockSize(bs) && bs > 0 ==> CalcBlocks(fileSize, bs) > 0
  {
  }

  lemma NotAbove(n: nat, fileSize: nat, bl: int, bs: int)
    requires BlockSize(bl) && BlockSize(bs) && fileSize <= n * bs
    requires bl == BASE_BLOCK_SIZE || (bl / 2) * n < fileSize
    ensures bl <= bs
  {
    SizeMin(bs);
    if bl > bs {
      SizeGap(bs, bl);
      MulMonotone(bs, bl / 2, n, n);
    }
  }

  lemma NotBelow(n: nat, fileSize: nat, bl: int, bs: int)
    requires BlockSize(bl) && BlockSize(bs) && n >= 2 && (n - 1) * bs < fileSize <= bl * n
    ensures bl >= bs
  {
    hide BlockSize;
    SizeMin(bl);
    if bl < bs {
      SizeGap(bl, bs);
      MulMonotone(n - 1, n - 1, 2 * bl, bs);
      DoubleProduct(n - 1, bl);
      MulDistributes(n - 1, 1, bl);
      MulMonotone(1, n - 1, bl, bl);
    }
  }

  /** The block size found is the sender's, or, with a single leaf, a smaller one that serves as well. */
  lemma Recovered(leafCount: nat, fileSize: nat, bl: int, bs: int)
    requires BlockSize(bl) && BlockSize(bs) && bl > 0 && bs > 0 && leafCount == CalcBlocks(fileSize, bs)
    requires bl * leafCount >= fileSize && (bl == BASE_BLOCK_SIZE || (bl / 2) * leafCount < fileSize)
    ensures bl <= bs && (leafCount >= 2 ==> bl == bs) && CalcBlocks(fileSize, bl) == leafCount
  {
    hide CalcBlocks, BlockSize;
    WholeSpan(fileSize, bs);
    WholeSpan(fileSize, bl);
    LeavesWithin(fileSize, bl, leafCount);
    NotAbove(leafCount, fileSize, bl, bs);
    if leafCount >= 2 {
      NotBelow(leafCount, fileSize, bl, bs);
    }
  }

  /** Accepts the received leaves if they give the root of the wanted file; file stands for that file. */
  method EndData(tree: Tree, tth: Hash, ghost file: seq<byte>) returns (valid: bool)
    requires tree.leaves != [] && tree.fileSize == |file| && tth == TreeHash(file)
    modifies tree
    ensures tree.leaves == old(tree.leaves) && tree.fileSize == |file| && BlockSize(tree.blockSize) && tree.blockSize > 0
    ensures CalcBlocks(|file|, tree.blockSize) <= |tree.leaves|
    ensures valid <==> Agree(tree.leaves, file, tree.blockSize, 0, CalcBlocks(|file|, tree.blockSize))
    ensures valid ==> (Honest(tree.leaves, file, tree.blockSize) <==> |tree.leaves| == CalcBlocks(|file|, tree.blockSize))
    ensures |tree.leaves| == CalcBlocks(|file|, tree.blockSize) <==>
              exists bs: nat :: BlockSize(bs) && bs > 0 && |tree.leaves| == CalcBlocks(|file|, bs)
    ensures forall bs {:trigger Honest(tree.leaves, file, bs)} :: BlockSize(bs) && bs > 0 && Honest(tree.leaves, file, bs) ==>
              valid && Honest(tree.leaves, file, tree.blockSize) && (|tree.leaves| >= 2 ==> tree.blockSize == bs)
  {
    hide Agree, TreeHash, CalcBlocks, BlockSize, RootOf;
    var bl := RecoverBlockSize(|tree.leaves|, tree.fileSize);
    tree.blockSize := bl;
    tree.CalcRoot();
    valid := tth == tree.root;
    RootAgree(tree.leaves, file, bl);
    HonestIs(tree.leaves, file, bl);
    forall bs {:trigger Honest(tree.leaves, file, bs)} | BlockSize(bs) && bs > 0 && Honest(tree.leaves, file, bs)
      ensures valid && Honest(tree.leaves, file, bl) && (|tree.leaves| >= 2 ==> bl == bs)
    {
      if |tree.leaves| < 2 {
        OneHonest(tree.leaves, file, bs, bl);
      }
    }
  }

  lemma HonestIs(leaves: seq<Hash>, file: seq<byte>, bs: nat)
    ensures Honest(leaves, file, bs) <==> bs > 0 && |leaves| == CalcBlocks(|file|, bs) && Agree(leaves, file, bs, 0, CalcBlocks(|file|, bs))
  {
  }

  /** A single leaf is the tree hash of the file for every block size. */
  lemma OneHonest(leaves: seq<Hash>, file: seq<byte>, bs: nat, bl: nat)
    requires Honest(leaves, file, bs) && |leaves| == 1 && bl > 0 && CalcBlocks(|file|, bl) == 1
    ensures Honest(leaves, file, bl)
  {
    hide TreeHash, CalcBlocks;
    WholeSpan(|file|, bs);
    WholeSpan(|file|, bl);
    assert LeafOf(leaves[0], file, bs, 0);
    assert Chunk(file, bs, 0) == file == Chunk(file, bl, 0);
    assert LeafOf(leaves[0], file, bl, 0);
  }

  /** The first n leaves of d. */
  function FirstLeaves(d: seq<byte>, bs: nat, n: nat): (leaves: seq<Hash>)
    requires n == 0 || (n - 1) * bs <= |d|
    ensures |leaves| == n
  {
    if n == 0 then []
    else
      MulMonotone(if n >= 2 then n - 2 else 0, n - 1, bs, bs);
      FirstLeaves(d, bs, n - 1) + [TreeHash(Chunk(d, bs, n - 1))]
  }

  lemma {:induction false} FirstLeavesAgree(d: seq<byte>, bs: nat, n: nat, more: seq<Hash>)
    requires n == 0 || (n - 1) * bs <= |d|
    ensures Agree(FirstLeaves(d, bs, n) + more, d, bs, 0, n)
    decreases n
  {
    hide TreeHash, Chunk, Agree, LeafOf;
    var all := FirstLeaves(d, bs, n) + more;
    if n > 0 {
      MulMonotone(if n >= 2 then n - 2 else 0, n - 1, bs, bs);
      var last := [TreeHash(Chunk(d, bs, n - 1))];
      FirstLeavesAgree(d, bs, n - 1, last + more);
      assert all == FirstLeaves(d, bs, n - 1) + (last + more);
      assert all[n - 1] == TreeHash(Chunk(d, bs, n - 1));
      AgreeOne(all, d, bs, n - 1);
      AgreeSplit(all, d, bs, 0, n - 1, n);
    } else {
      NoneAgree(all, d, bs);
    }
  }

  lemma NoneAgree(leaves: seq<Hash>, d: seq<byte>, bs: nat)
    ensures Agree(leaves, d, bs, 0, 0)
  {
  }

  /** Whatever stands behind the leaves that the block size calls for, the root is that of the file. */
  lemma SurplusAccepted(file: seq<byte>, bl: nat, junk: seq<Hash>) returns (leaves: seq<Hash>)
    requires BlockSize(bl) && bl > 0
    ensures |leaves| == CalcBlocks(|file|, bl) + |junk| && leaves[CalcBlocks(|file|, bl)..] == junk
    ensures RootOf(leaves, bl, 0, |file|) == TreeHash(file)
  {
    hide TreeHash, RootOf, CalcBlocks, BlockSize, Agree;
    var c := CalcBlocks(|file|, bl);
    BlocksFit(|file|, bl, 0);
    leaves := FirstLeaves(file, bl, c) + junk;
    FirstLeavesAgree(file, bl, c, junk);
    RootAgree(leaves, file, bl);
  }

  /** The right root means the right leaves exactly if there are as many as the block size calls for. */
  lemma CountDecides(file: seq<byte>, bl: nat, n: nat)
    requires BlockSize(bl) && bl > 0 && CalcBlocks(|file|, bl) <= n
    ensures (forall leaves: seq<Hash> :: |leaves| == n && RootOf(leaves, bl, 0, |file|) == TreeHash(file) ==> Honest(leaves, file, bl))
            <==> n == CalcBlocks(|file|, bl)
  {
    hide TreeHash, RootOf, CalcBlocks, BlockSize, Agree;
    var c := CalcBlocks(|file|, bl);
    if n == c {
      forall leaves: seq<Hash> | |leaves| == n && RootOf(leaves, bl, 0, |file|) == TreeHash(file) ensures Honest(leaves, file, bl) {
        RootIff(leaves, file, bl);
      }
    } else {
      var leaves := SurplusAccepted(file, bl, seq(n - c, _ => Leaf([])));
      assert |leaves| == n && !Honest(leaves, file, bl);
    }
  }

  /** The counts of leaves that some block size calls for are the only ones that cannot carry a surplus:
      for any other count the block size found needs fewer. */
  lemma SurplusIff(fileSize: nat, n: nat, bl: nat)
    requires n > 0 && BlockSize(bl) && bl > 0 && CalcBlocks(fileSize, bl) <= n && bl * n >= fileSize
    requires bl == BASE_BLOCK_SIZE || (bl / 2) * n < fileSize
    ensures n == CalcBlocks(fileSize, bl) <==> exists bs: nat :: BlockSize(bs) && bs > 0 && n == CalcBlocks(fileSize, bs)
  {
    hide CalcBlocks, BlockSize;
    if bs: nat :| BlockSize(bs) && bs > 0 && n == CalcBlocks(fileSize, bs) {
      Recovered(n, fileSize, bl, bs);
    }
  }

  /** Four leaves for a file of five base blocks: no block size calls for four, so the fourth may be anything. */
  lemma FourLeaves(file: seq<byte>, junk: Hash) returns (leaves: seq<Hash>)
    requires |file| == 5 * 1024
    ensures |leaves| == 4 && leaves[3] == junk
    ensures 1024 * |leaves| < |file| <= 2048 * |leaves| && BlockSize(2048)
    ensures RootOf(leaves, 2048, 0, |file|) == TreeHash(file)
    ensures forall bs: nat :: BlockSize(bs) && bs > 0 ==> CalcBlocks(|file|, bs) != |leaves|
  {
    hide TreeHash, RootOf;
    Doubled(1024);
    assert CalcBlocks(|file|, 2048) == 3;
    leaves := SurplusAccepted(file, 2048, [junk]);
    assert leaves[3] == leaves[3..][0];
    forall bs: nat | BlockSize(bs) && bs > 0 ensures CalcBlocks(|file|, bs) != 4 {
      NoFour(bs);
    }
  }

  lemma NoFour(bs: nat)
    requires BlockSize(bs) && bs > 0
    ensures CalcBlocks(5 * 1024, bs) != 4
  {
    Doubled(1024);
    if bs > 1024 {
      SizeGap(1024, bs);
      LeavesWithin(5 * 1024, bs, 3);
    } else {
      SizeMin(bs);
    }
  }

  /** Collects the bytes of the hashes, in whatever pieces they come. */
  class TreeOutputStream {
    var leaves: seq<seq<byte>>
    const buf: array<byte>
    var bufPos: nat

    ghost predicate Valid()
      reads this, buf
    {
      buf.Length == BYTES && bufPos < BYTES && forall i {:trigger leaves[i]} :: 0 <= i < |leaves| ==> |leaves[i]| == BYTES
    }

    /** All bytes received. */
    ghost function Received(): seq<byte>
      requires Valid()
      reads this, buf
    {
      Flat(leaves) + buf[..bufPos]
    }

    constructor ()
      ensures Valid() && Received() == [] && fresh(buf)
    {
      leaves, bufPos := [], 0;
      buf := new byte[BYTES](_ => 0);
    }

    lemma Buffered()
      requires Valid()
      ensures Received() == Flat(leaves) + buf[..bufPos] && BYTES == 24 && buf.Length == 24 && bufPos < 24
    {
    }

    /** Taking a full group from the front of the data, or the buffer once it is full, as the next leaf. */
    twostate lemma NextLeaf(group: seq<byte>)
      requires old(Valid()) && leaves == old(leaves) + [group] && |group| == 24 && bufPos == 0
      ensures Valid() && Received() == old(Flat(leaves)) + group
    {
      hide Flat;
      FlatSnoc(old(leaves), group);
      assert Received() == Flat(leaves);
    }

    twostate lemma Longer()
      requires old(Valid()) && leaves == old(leaves) && bufPos < 24
      ensures Valid() && Received() == old(Flat(leaves)) + buf[..bufPos]
    {
    }

    method Write(b: seq<byte>)
      requires Valid()
      modifies this`leaves, this`bufPos, buf
      ensures Valid() && Received() == old(Received()) + b
    {
      hide *;
      var pos := 0;
      NoneYet(Received(), b);
      while pos < |b|
        invariant 0 <= pos <= |b| && Valid() && Received() == old(Received()) + b[..pos]
      {
        Buffered();
        var left := |b| - pos;
        ghost var was := pos;
        ghost var before := buf[..bufPos];
        ghost var l := Flat(leaves);
        label start:
        if bufPos == 0 && left >= BYTES {
          leaves := leaves + [b[pos..pos + BYTES]];
          pos := pos + BYTES;
          NextLeaf@start(b[was..pos]);
          assert before + b[was..pos] == b[was..pos];
        } else {
          var bytes := if BYTES - bufPos < left then BYTES - bufPos else left;
          CopyInto(buf, bufPos, b[pos..pos + bytes]);
          bufPos := bufPos + bytes;
          pos := pos + bytes;
          if bufPos == BYTES {
            leaves := leaves + [buf[..BYTES]];
            bufPos := 0;
            NextLeaf@start(before + b[was..pos]);
          } else {
            Longer@start();
          }
        }
        assert Received() == l + (before + b[was..pos]);
        Regrouped(l, before, old(Received()), b, was, pos);
      }
      assert b[..|b|] == b;
    }
  }

  lemma NoneYet(r: seq<byte>, b: seq<byte>)
    ensures r + b[..0] == r
  {
  }

  /** What the buffer and the group hold together continues what was received. */
  lemma Regrouped(l: seq<byte>, before: seq<byte>, r: seq<byte>, b: seq<byte>, was: nat, pos: nat)
    requires was <= pos <= |b| && l + before == r + b[..was]
    ensures l + (before + b[was..pos]) == r + b[..pos]
  {
    assert b[..was] + b[was..pos] == b[..pos];
    assert l + (before + b[was..pos]) == (l + before) + b[was..pos];
    assert r + b[..was] + b[was..pos] == r + (b[..was] + b[was..pos]);
  }

  /** The bytes in groups of a hash each, what is left over aside. */
  function Groups(d: seq<byte>): (g: seq<seq<byte>>)
    ensures forall i {:trigger g[i]} :: 0 <= i < |g| ==> |g[i]| == BYTES
  {
    if |d| < BYTES then [] else [d[..BYTES]] + Groups(d[BYTES..])
  }

  /** The groups of a sequence are determined by it. */
  lemma {:induction false} GroupsAre(a: seq<seq<byte>>, rest: seq<byte>)
    requires (forall i {:trigger a[i]} :: 0 <= i < |a| ==> |a[i]| == BYTES) && |rest| < BYTES
    ensures Groups(Flat(a) + rest) == a
    decreases |a|
  {
    hide Flat;
    if a == [] {
      FlatNone();
      assert [] + rest == rest;
    } else {
      FlatAppend([a[0]], a[1..]);
      FlatOne(a[0]);
      assert a == [a[0]] + a[1..];
      var d := Flat(a) + rest;
      assert d == a[0] + (Flat(a[1..]) + rest);
      assert d[..BYTES] == a[0] && d[BYTES..] == Flat(a[1..]) + rest;
      assert forall i :: 0 <= i < |a[1..]| ==> a[1..][i] == a[i + 1];
      GroupsAre(a[1..], rest);
    }
  }

  /** Leaf data in any pieces is read in groups of a hash each. */
  method Receive(pieces: seq<seq<byte>>) returns (s: TreeOutputStream)
    ensures s.Valid() && s.leaves == Groups(Flat(pieces)) && fresh(s) && fresh(s.buf)
  {
    hide Flat, Groups;
    s := new TreeOutputStream();
    FlatNone();
    for i := 0 to |pieces|
      invariant s.Valid() && fresh(s) && fresh(s.buf) && s.Received() == Flat(pieces[..i])
    {
      FlatUpTo(pieces, i);
      s.Write(pieces[i]);
    }
    assert pieces[..|pieces|] == pieces;
    GroupsAre(s.leaves, s.buf[..s.bufPos]);
  }

  function Decode(groups: seq<seq<byte>>, dec: seq<byte> -> Hash): (leaves: seq<Hash>)
    ensures |leaves| == |groups| && forall i :: 0 <= i < |groups| ==> leaves[i] == dec(groups[i])
  {
    seq(|groups|, i requires 0 <= i < |groups| => dec(groups[i]))
  }

  ghost function Encode(leaves: seq<Hash>, enc: Hash -> seq<byte>): (groups: seq<seq<byte>>)
    ensures |groups| == |leaves| && forall i :: 0 <= i < |leaves| ==> groups[i] == enc(leaves[i])
  {
    seq(|leaves|, i requires 0 <= i < |leaves| => enc(leaves[i]))
  }

  /** A tree download from the bytes of the leaves, in any pieces, to the answer; dec reads a hash from its bytes. */
  method Download(pieces: seq<seq<byte>>, fileSize: nat, tth: Hash, dec: seq<byte> -> Hash, ghost file: seq<byte>) returns (tree: Tree, valid: bool)
    requires Groups(Flat(pieces)) != [] && fileSize == |file| && tth == TreeHash(file)
    ensures tree.leaves == Decode(Groups(Flat(pieces)), dec) && tree.fileSize == |file| && BlockSize(tree.blockSize) && tree.blockSize > 0
    ensures CalcBlocks(|file|, tree.blockSize) <= |tree.leaves|
    ensures valid <==> Agree(tree.leaves, file, tree.blockSize, 0, CalcBlocks(|file|, tree.blockSize))
    ensures valid ==> (Honest(tree.leaves, file, tree.blockSize) <==> |tree.leaves| == CalcBlocks(|file|, tree.blockSize))
    ensures forall bs {:trigger Honest(tree.leaves, file, bs)} :: BlockSize(bs) && bs > 0 && Honest(tree.leaves, file, bs) ==>
              valid && Honest(tree.leaves, file, tree.blockSize) && (|tree.leaves| >= 2 ==> tree.blockSize == bs)
  {
    hide *;
    BaseIs();
    tree := new Tree(1024);
    tree.fileSize := fileSize;
    var s := Receive(pieces);
    var all := s.leaves;
    for i := 0 to |all|
      invariant fresh(tree) && tree.fileSize == fileSize && tree.leaves == Decode(all, dec)[..i]
    {
      tree.leaves := tree.leaves + [dec(all[i])];
    }
    assert Decode(all, dec)[..|all|] == Decode(all, dec);
    valid := EndData(tree, tth, file);
  }

  lemma BaseIs()
    ensures BlockSize(1024)
  {
  }

  /** The leaves of the sender, sent as their bytes, are those that are read back. */
  lemma SentLeaves(leaves: seq<Hash>, enc: Hash -> seq<byte>, dec: seq<byte> -> Hash)
    requires forall i {:trigger leaves[i]} :: 0 <= i < |leaves| ==> |enc(leaves[i])| == BYTES && dec(enc(leaves[i])) == leaves[i]
    ensures Decode(Groups(Flat(Encode(leaves, enc))), dec) == leaves
  {
    hide Flat, Groups;
    var groups := Encode(leaves, enc);
    assert forall i :: 0 <= i < |groups| ==> groups[i] == enc(leaves[i]);
    GroupsAre(groups, []);
    assert Flat(groups) + [] == Flat(groups);
  }

  /** From the sent bytes to acceptance: the tree of the file, cut into any pieces on the way, is accepted as it was. */
  method DownloadSent(pieces: seq<seq<byte>>, fileSize: nat, tth: Hash, dec: seq<byte> -> Hash,
                      ghost enc: Hash -> seq<byte>, ghost leaves: seq<Hash>, ghost bs: nat, ghost file: seq<byte>) returns (tree: Tree, valid: bool)
    requires fileSize == |file| && tth == TreeHash(file) && BlockSize(bs) && Honest(leaves, file, bs)
    requires forall i {:trigger leaves[i]} :: 0 <= i < |leaves| ==> |enc(leaves[i])| == BYTES && dec(enc(leaves[i])) == leaves[i]
    requires Flat(pieces) == Flat(Encode(leaves, enc))
    ensures valid && tree.leaves == leaves && tree.blockSize > 0 && Honest(leaves, file, tree.blockSize) && (|leaves| >= 2 ==> tree.blockSize == bs)
  {
    hide *;
    SentLeaves(leaves, enc, dec);
    SomeLeaf(leaves, file, bs);
    tree, valid := Download(pieces, fileSize, tth, dec, file);
  }

  lemma SomeLeaf(leaves: seq<Hash>, file: seq<byte>, bs: nat)
    requires Honest(leaves, file, bs)
    ensures leaves != [] && bs > 0
  {
    hide Agree;
  }
}
