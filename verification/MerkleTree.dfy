// MerkleTree: hashing a file piece by piece, keeping only the leaves and a
// stack of subtrees whose sizes act as the digits of a binary counter.
module MerkleTree {
  import opened Words
  import opened Thex
  import opened TreeLeaves

  datatype Block = Block(hash: Hash, size: int)

  /** The stack of subtrees stands for the pending data; only the last may be incomplete, and only when nothing may follow. */
  ghost predicate Stacked(blocks: seq<Block>, pending: seq<seq<byte>>, bs: int, closed: bool) {
    && |blocks| == |pending|
    && (forall j {:trigger blocks[j]} :: 0 <= j < |blocks| ==> BlockSize(blocks[j].size) && blocks[j].size < bs && blocks[j].hash == TreeHash(pending[j]))
    && (forall j {:trigger pending[j]} :: 0 <= j < |pending| - 1 ==> |pending[j]| == blocks[j].size)
    && (|pending| > 0 ==> |pending[|pending| - 1]| <= blocks[|pending| - 1].size)
    && (|pending| > 0 && !closed ==> |pending[|pending| - 1]| == blocks[|pending| - 1].size)
    && (|pending| > 1 ==> |pending[|pending| - 1]| > 0)
  }

  /** Sizes strictly decrease, as far as entry n. */
  ghost predicate Decreasing(blocks: seq<Block>, n: int) {
    forall j, k {:trigger blocks[j], blocks[k]} :: 0 <= j < k < n && k < |blocks| ==> blocks[j].size > blocks[k].size
  }

  /** The leaves are the tree hashes of the parts. */
  ghost predicate Hashed(leaves: seq<Hash>, parts: seq<seq<byte>>, bs: int, closed: bool) {
    && |leaves| == |parts|
    && (forall i {:trigger leaves[i]} :: 0 <= i < |leaves| ==> leaves[i] == TreeHash(parts[i]))
    && Cut(parts, bs)
    && (|parts| > 0 && !closed ==> |parts[|parts| - 1]| == bs)
    && (|parts| > 1 ==> |parts[|parts| - 1]| > 0)
  }

  lemma FullParts(leaves: seq<Hash>, parts: seq<seq<byte>>, bs: int, p: seq<byte>, closed: bool)
    requires Hashed(leaves, parts, bs, false) && |p| <= bs && (!closed ==> |p| == bs) && (|parts| > 0 ==> |p| > 0)
    ensures Hashed(leaves + [TreeHash(p)], parts + [p], bs, closed)
  {
    hide TreeHash;
    var q, h := parts + [p], leaves + [TreeHash(p)];
    forall i | 0 <= i < |q| - 1 ensures |q[i]| == bs {
      assert q[i] == parts[i];
    }
    forall i | 0 <= i < |h| ensures h[i] == TreeHash(q[i]) {
      if i < |leaves| {
        assert h[i] == leaves[i] && q[i] == parts[i];
      }
    }
  }

  /** Merging the two last subtrees. */
  lemma MergeLast(blocks: seq<Block>, pending: seq<seq<byte>>, bs: int, closed: bool)
    requires Stacked(blocks, pending, bs, closed) && |blocks| >= 2
    requires blocks[|blocks| - 2].size >= blocks[|blocks| - 1].size
    ensures var n := |blocks|;
            && Flat(pending[..n - 2] + [pending[n - 2] + pending[n - 1]]) == Flat(pending)
            && TreeHash(pending[n - 2] + pending[n - 1]) == Node(blocks[n - 2].hash, blocks[n - 1].hash)
            && blocks[n - 2].size < |pending[n - 2] + pending[n - 1]| <= 2 * blocks[n - 2].size
            && (!closed && blocks[n - 2].size == blocks[n - 1].size ==> |pending[n - 2] + pending[n - 1]| == 2 * blocks[n - 2].size)
  {
    hide TreeHash, Flat, BlockSize;
    var n := |blocks|;
    var a, b := pending[n - 2], pending[n - 1];
    assert blocks[n - 2].hash == TreeHash(a) && blocks[n - 1].hash == TreeHash(b);
    TreeJoin(a, b);
    JoinLast(pending);
  }

  // What the methods of the tree do to its two lists, whatever data they get.

  /** The leaves and the subtrees that are not yet leaves. */
  datatype Stack = Stack(leaves: seq<Hash>, blocks: seq<Block>) {
    predicate IsEmpty() {
      leaves == [] && blocks == []
    }
  }

  /** The two last subtrees merged for as long as they have the same size; one of the block size becomes a leaf. */
  function Reduced(s: Stack, bs: int): Stack
    decreases |s.blocks|
  {
    var n := |s.blocks|;
    if n > 1 && s.blocks[n - 2].size == s.blocks[n - 1].size then
      var node, size := Node(s.blocks[n - 2].hash, s.blocks[n - 1].hash), s.blocks[n - 2].size * 2;
      if size == bs then Reduced(Stack(s.leaves + [node], s.blocks[..n - 2]), bs)
      else Reduced(Stack(s.leaves, s.blocks[..n - 2] + [Block(node, size)]), bs)
    else s
  }

  function Pushed(s: Stack, chunk: seq<byte>, bs: int): Stack {
    if BASE_BLOCK_SIZE < bs then Reduced(Stack(s.leaves, s.blocks + [Block(Leaf(chunk), BASE_BLOCK_SIZE)]), bs)
    else Stack(s.leaves + [Leaf(chunk)], s.blocks)
  }

  /** The base block of data at i, and how far it reaches. */
  function ChunkEnd(data: seq<byte>, i: nat): (k: nat)
    requires i <= |data|
    ensures i <= k <= |data| && k <= i + BASE_BLOCK_SIZE && (k < |data| ==> k == i + BASE_BLOCK_SIZE) && (i < |data| ==> i < k)
  {
    if BASE_BLOCK_SIZE < |data| - i then i + BASE_BLOCK_SIZE else |data|
  }

  /** Adding the base blocks of data from i on: at least one, even an empty one. */
  function AddedFrom(s: Stack, data: seq<byte>, i: nat, bs: int): Stack
    requires i <= |data|
    decreases |data| - i
  {
    var k := ChunkEnd(data, i);
    var t := Pushed(s, data[i..k], bs);
    if k >= |data| then t else AddedFrom(t, data, k, bs)
  }

  function Added(s: Stack, data: seq<byte>, bs: int): Stack {
    if data == [] && !s.IsEmpty() then s else AddedFrom(s, data, 0, bs)
  }

  /** The whole stack merged from the right, whatever the sizes. */
  function Folded(blocks: seq<Block>): (f: seq<Block>)
    ensures |f| <= 1 && (f == [] <==> blocks == [])
    decreases |blocks|
  {
    var n := |blocks|;
    if n > 1 then Folded(blocks[..n - 2] + [Block(Node(blocks[n - 2].hash, blocks[n - 1].hash), blocks[n - 2].size)]) else blocks
  }

  /** The leaves once everything left on the stack has become the last of them; without data, one over nothing. */
  function Finished(s: Stack, bs: int): seq<Hash> {
    var t := if s.IsEmpty() then Added(s, [], bs) else s;
    var f := Folded(t.blocks);
    if f == [] then t.leaves else t.leaves + [f[0].hash]
  }

  /** The lists fit the data behind them; closed when a last, incomplete piece has been added. */
  ghost predicate Standing(s: Stack, parts: seq<seq<byte>>, pending: seq<seq<byte>>, bs: int, closed: bool) {
    && BlockSize(bs) && Hashed(s.leaves, parts, bs, closed && pending == []) && Stacked(s.blocks, pending, bs, closed)
    && Decreasing(s.blocks, |s.blocks|) && (pending == [[]] ==> parts == [])
    && (closed ==> !s.IsEmpty())
  }

  lemma StandingFacts(s: Stack, parts: seq<seq<byte>>, pending: seq<seq<byte>>, bs: int, closed: bool)
    requires Standing(s, parts, pending, bs, closed)
    ensures BlockSize(bs) && Hashed(s.leaves, parts, bs, closed && pending == []) && Stacked(s.blocks, pending, bs, closed)
    ensures Decreasing(s.blocks, |s.blocks|) && (pending == [[]] ==> parts == []) && (closed ==> s.leaves != [] || s.blocks != [])
    ensures |s.leaves| == |parts| && |s.blocks| == |pending|
  {
  }

  lemma NowStanding(s: Stack, parts: seq<seq<byte>>, pending: seq<seq<byte>>, bs: int, closed: bool)
    requires BlockSize(bs) && Hashed(s.leaves, parts, bs, closed && pending == []) && Stacked(s.blocks, pending, bs, closed)
    requires Decreasing(s.blocks, |s.blocks|) && (pending == [[]] ==> parts == []) && (closed ==> s.leaves != [] || s.blocks != [])
    ensures Standing(s, parts, pending, bs, closed)
  {
  }

  /** Reducing keeps the data, and restores the falling sizes. */
  lemma {:induction false} ReducedStands(s: Stack, parts: seq<seq<byte>>, pending: seq<seq<byte>>, bs: int, closed: bool)
      returns (parts2: seq<seq<byte>>, pending2: seq<seq<byte>>)
    requires Carrying(s.leaves, parts, s.blocks, pending, bs, closed) && !s.IsEmpty()
    ensures Standing(Reduced(s, bs), parts2, pending2, bs, closed) && Flat(parts2) + Flat(pending2) == Flat(parts) + Flat(pending)
    ensures s.leaves <= Reduced(s, bs).leaves && parts <= parts2 && !Reduced(s, bs).IsEmpty()
    decreases |s.blocks|
  {
    hide Carrying, Flat, Standing;
    var n := |s.blocks|;
    if n > 1 && s.blocks[n - 2].size == s.blocks[n - 1].size {
      CarryStep(s.leaves, parts, s.blocks, pending, bs, closed);
      var joined, node := pending[n - 2] + pending[n - 1], Node(s.blocks[n - 2].hash, s.blocks[n - 1].hash);
      if s.blocks[n - 2].size * 2 == bs {
        assert s.blocks[..n - 2] == [];
        parts2, pending2 := ReducedStands(Stack(s.leaves + [node], []), parts + [joined], [], bs, closed);
      } else {
        parts2, pending2 := ReducedStands(Stack(s.leaves, s.blocks[..n - 2] + [Block(node, s.blocks[n - 2].size * 2)]),
                                          parts, pending[..n - 2] + [joined], bs, closed);
      }
    } else {
      Carried(s.leaves, parts, s.blocks, pending, bs, closed);
      NowStanding(s, parts, pending, bs, closed);
      parts2, pending2 := parts, pending;
    }
  }

  /** One base block more; one that is not full has to be the last. */
  lemma PushedStands(s: Stack, parts: seq<seq<byte>>, pending: seq<seq<byte>>, bs: int, chunk: seq<byte>)
      returns (parts2: seq<seq<byte>>, pending2: seq<seq<byte>>)
    requires Standing(s, parts, pending, bs, false) && |chunk| <= BASE_BLOCK_SIZE && (chunk == [] ==> s.IsEmpty())
    ensures Standing(Pushed(s, chunk, bs), parts2, pending2, bs, |chunk| < BASE_BLOCK_SIZE)
    ensures Flat(parts2) + Flat(pending2) == Flat(parts) + Flat(pending) + chunk
    ensures s.leaves <= Pushed(s, chunk, bs).leaves && parts <= parts2 && !Pushed(s, chunk, bs).IsEmpty()
  {
    hide Flat, Decreasing, BlockSize, Standing, Reduced, TreeHash, Stacked, Hashed;
    var closed := |chunk| < BASE_BLOCK_SIZE;
    StandingFacts(s, parts, pending, bs, false);
    if BASE_BLOCK_SIZE < bs {
      PushBase(s.leaves, parts, s.blocks, pending, bs, closed, chunk);
      parts2, pending2 := ReducedStands(Stack(s.leaves, s.blocks + [Block(Leaf(chunk), BASE_BLOCK_SIZE)]), parts, pending + [chunk], bs, closed);
    } else {
      SizeMin(bs);
      NoStack(s.blocks, pending, bs);
      FullEnd(s.leaves, parts, bs, chunk, closed);
      FlatSnoc(parts, chunk);
      parts2, pending2 := parts + [chunk], [];
      NothingPending(Flat(parts), chunk);
      NoBlocks(bs, closed);
      NowStanding(Pushed(s, chunk, bs), parts2, pending2, bs, closed);
    }
  }

  lemma FullEnd(leaves: seq<Hash>, parts: seq<seq<byte>>, bs: int, chunk: seq<byte>, closed: bool)
    requires Hashed(leaves, parts, bs, false) && bs == BASE_BLOCK_SIZE && |chunk| <= bs && closed == (|chunk| < bs) && (chunk == [] ==> leaves == [])
    ensures Hashed(leaves + [Leaf(chunk)], parts + [chunk], bs, closed)
  {
    hide BlockSize;
    FullParts(leaves, parts, bs, chunk, closed);
  }

  lemma NothingPending(a: seq<byte>, chunk: seq<byte>)
    ensures a + chunk + [] == a + [] + chunk
  {
    assert a + [] == a;
  }

  lemma NoBlocks(bs: int, closed: bool)
    ensures Stacked([], [], bs, closed) && Decreasing([], 0) && Flat([]) == []
  {
  }

  /** All base blocks of data from i on. */
  lemma {:induction false} AddedFromStands(s: Stack, parts: seq<seq<byte>>, pending: seq<seq<byte>>, bs: int, data: seq<byte>, i: nat)
      returns (parts2: seq<seq<byte>>, pending2: seq<seq<byte>>)
    requires Standing(s, parts, pending, bs, false) && i <= |data| && i % BASE_BLOCK_SIZE == 0 && (i == |data| ==> data == [] && s.IsEmpty())
    ensures var t := AddedFrom(s, data, i, bs);
            && Standing(t, parts2, pending2, bs, |data| % BASE_BLOCK_SIZE != 0 || data == []) && s.leaves <= t.leaves && parts <= parts2 && !t.IsEmpty()
    ensures Flat(parts2) + Flat(pending2) == Flat(parts) + Flat(pending) + data[i..]
    decreases |data| - i
  {
    hide Flat, Pushed, Standing;
    var k := ChunkEnd(data, i);
    parts2, pending2 := PushedStands(s, parts, pending, bs, data[i..k]);
    LastChunk(data, i);
    if k < |data| {
      TailJoined(Flat(parts) + Flat(pending), data, i, k);
      parts2, pending2 := AddedFromStands(Pushed(s, data[i..k], bs), parts2, pending2, bs, data, k);
    }
  }

  lemma LastChunk(data: seq<byte>, i: nat)
    requires i <= |data| && i % BASE_BLOCK_SIZE == 0 && (i == |data| ==> data == [])
    ensures var k := ChunkEnd(data, i);
            && (k == |data| ==> data[i..k] == data[i..] && (k - i < BASE_BLOCK_SIZE <==> |data| % BASE_BLOCK_SIZE != 0 || data == []))
            && (k < |data| ==> k - i == BASE_BLOCK_SIZE && k % BASE_BLOCK_SIZE == 0)
  {
  }

  lemma TailJoined(before: seq<byte>, data: seq<byte>, i: nat, k: nat)
    requires i <= k <= |data|
    ensures before + data[i..k] + data[k..] == before + data[i..]
  {
    assert data[i..] == data[i..k] + data[k..];
  }

  /** More data behind what is there, as long as nothing has been closed. */
  lemma AddedStands(s: Stack, parts: seq<seq<byte>>, pending: seq<seq<byte>>, bs: int, closed: bool, data: seq<byte>)
      returns (parts2: seq<seq<byte>>, pending2: seq<seq<byte>>)
    requires Standing(s, parts, pending, bs, closed) && (!closed || data == [])
    ensures var t := Added(s, data, bs);
            && Standing(t, parts2, pending2, bs, closed || |data| % BASE_BLOCK_SIZE != 0 || (data == [] && s.IsEmpty()))
            && s.leaves <= t.leaves && parts <= parts2 && !t.IsEmpty()
    ensures Flat(parts2) + Flat(pending2) == Flat(parts) + Flat(pending) + data
  {
    hide Flat, AddedFrom, Standing;
    StandingFacts(s, parts, pending, bs, closed);
    if data == [] && !s.IsEmpty() {
      parts2, pending2 := parts, pending;
      assert Flat(parts) + Flat(pending) + [] == Flat(parts) + Flat(pending);
    } else {
      assert data[0..] == data;
      parts2, pending2 := AddedFromStands(s, parts, pending, bs, data, 0);
    }
  }

  /** Folding keeps the data. */
  lemma {:induction false} FoldedStands(blocks: seq<Block>, pending: seq<seq<byte>>, bs: int) returns (pending2: seq<seq<byte>>)
    requires Folding(blocks, pending, bs)
    ensures Folding(Folded(blocks), pending2, bs) && Flat(pending2) == Flat(pending)
    ensures (pending2 == []) == (pending == []) && (pending2 == [[]] ==> pending == [[]])
    decreases |blocks|
  {
    hide Folding, Flat;
    FoldedLengths(blocks, pending, bs);
    var n := |blocks|;
    pending2 := pending;
    if n > 1 {
      FoldStep(blocks, pending, bs);
      var up := pending[..n - 2] + [pending[n - 2] + pending[n - 1]];
      assert up[n - 2] != [];
      pending2 := FoldedStands(blocks[..n - 2] + [Block(Node(blocks[n - 2].hash, blocks[n - 1].hash), blocks[n - 2].size)], up, bs);
    }
  }

  /** In the end the leaves are those of the data. */
  lemma FinishedHonest(s: Stack, parts: seq<seq<byte>>, pending: seq<seq<byte>>, bs: int, closed: bool)
    requires Standing(s, parts, pending, bs, closed)
    ensures bs > 0 && Honest(Finished(s, bs), Flat(parts) + Flat(pending), bs) && s.leaves <= Finished(s, bs)
  {
    hide *;
    if s.IsEmpty() {
      var parts2, pending2 := AddedStands(s, parts, pending, bs, closed, []);
      assert Flat(parts) + Flat(pending) + [] == Flat(parts) + Flat(pending);
      LastLeafHonest(Added(s, [], bs), parts2, pending2, bs, true);
      FinishedEmpty(s, bs);
    } else {
      LastLeafHonest(s, parts, pending, bs, closed);
    }
  }

  lemma LastLeafHonest(t: Stack, parts: seq<seq<byte>>, pending: seq<seq<byte>>, bs: int, closed: bool)
    requires Standing(t, parts, pending, bs, closed) && !t.IsEmpty()
    ensures bs > 0 && Honest(Finished(t, bs), Flat(parts) + Flat(pending), bs) && t.leaves <= Finished(t, bs)
  {
    hide *;
    StandingFacts(t, parts, pending, bs, closed);
    NotEmptyIs(t);
    FoldingStarts(t.blocks, pending, bs, closed);
    var pending2 := FoldedStands(t.blocks, pending, bs);
    var f := Folded(t.blocks);
    FoldedLengths(f, pending2, bs);
    FinishedIs(t, bs);
    if f == [] {
      NoLastPart(t.leaves, parts, pending2, bs, closed);
      HonestParts(t.leaves, parts, bs);
    } else {
      LastPart(t.leaves, parts, f, pending2, bs);
      HonestParts(t.leaves + [f[0].hash], parts + [pending2[0]], bs);
    }
  }

  lemma FinishedEmpty(s: Stack, bs: int)
    requires s.IsEmpty() && !Added(s, [], bs).IsEmpty()
    ensures Finished(s, bs) == Finished(Added(s, [], bs), bs) && s.leaves == []
  {
    hide Folded, AddedFrom;
  }

  lemma NotEmptyIs(t: Stack)
    ensures t.IsEmpty() <==> t.leaves == [] && t.blocks == []
  {
  }

  lemma FinishedIs(t: Stack, bs: int)
    requires !t.IsEmpty()
    ensures Finished(t, bs) == if Folded(t.blocks) == [] then t.leaves else t.leaves + [Folded(t.blocks)[0].hash]
  {
    hide Folded;
  }

  /** The steps of finishing. */
  lemma FinishedSteps(s: Stack, bs: int)
    ensures var t := if s.leaves == [] && s.blocks == [] then Added(s, [], bs) else s; var f := Folded(t.blocks);
            Finished(s, bs) == if f == [] then t.leaves else t.leaves + [f[0].hash]
  {
    hide Folded, Added;
  }

  // An empty first piece: its base block over nothing stays in front of everything.

  /** The hash with the base block in front emptied. */
  function Emptied(h: Hash): Hash {
    match h
    case Leaf(_) => Leaf([])
    case Node(l, r) => Node(Emptied(l), r)
  }

  function Leftmost(h: Hash): seq<byte> {
    match h
    case Leaf(b) => b
    case Node(l, _) => Leftmost(l)
  }

  function EmptyFirst(leaves: seq<Hash>): seq<Hash> {
    if leaves == [] then [] else [Emptied(leaves[0])] + leaves[1..]
  }

  function EmptyFront(s: Stack): Stack {
    if s.leaves != [] then Stack(EmptyFirst(s.leaves), s.blocks)
    else if s.blocks != [] then Stack([], [Block(Emptied(s.blocks[0].hash), s.blocks[0].size)] + s.blocks[1..])
    else s
  }

  /** Merging does not touch the front. */
  lemma {:induction false} ReducedFront(s: Stack, parts: seq<seq<byte>>, pending: seq<seq<byte>>, bs: int, closed: bool)
    requires Carrying(s.leaves, parts, s.blocks, pending, bs, closed)
    ensures Reduced(EmptyFront(s), bs) == EmptyFront(Reduced(s, bs))
    decreases |s.blocks|
  {
    hide Carrying, EmptyFront;
    var n, e := |s.blocks|, EmptyFront(s);
    SameShape(s);
    if n > 1 && s.blocks[n - 2].size == s.blocks[n - 1].size {
      CarryStep(s.leaves, parts, s.blocks, pending, bs, closed);
      var joined, node, size := pending[n - 2] + pending[n - 1], Node(s.blocks[n - 2].hash, s.blocks[n - 1].hash), s.blocks[n - 2].size * 2;
      MergedFront(s, bs);
      if size == bs {
        assert s.blocks[..n - 2] == [];
        ReducedFront(Stack(s.leaves + [node], []), parts + [joined], [], bs, closed);
      } else {
        ReducedFront(Stack(s.leaves, s.blocks[..n - 2] + [Block(node, size)]), parts, pending[..n - 2] + [joined], bs, closed);
      }
    }
  }

  lemma SameShape(s: Stack)
    ensures var e := EmptyFront(s); |e.blocks| == |s.blocks| && forall i :: 0 <= i < |s.blocks| ==> e.blocks[i].size == s.blocks[i].size
  {
  }

  /** One merge does not touch the front. */
  lemma MergedFront(s: Stack, bs: int)
    requires |s.blocks| > 1 && (s.blocks[|s.blocks| - 2].size * 2 == bs ==> |s.blocks| == 2)
    ensures var n, e := |s.blocks|, EmptyFront(s);
            var node, size := Node(s.blocks[n - 2].hash, s.blocks[n - 1].hash), s.blocks[n - 2].size * 2;
            var t := if size == bs then Stack(s.leaves + [node], s.blocks[..n - 2]) else Stack(s.leaves, s.blocks[..n - 2] + [Block(node, size)]);
            && |e.blocks| == n && e.blocks[n - 2].size == s.blocks[n - 2].size && e.blocks[n - 1].size == s.blocks[n - 1].size
            && EmptyFront(t) == (if size == bs then Stack(e.leaves + [Node(e.blocks[n - 2].hash, e.blocks[n - 1].hash)], e.blocks[..n - 2])
                                 else Stack(e.leaves, e.blocks[..n - 2] + [Block(Node(e.blocks[n - 2].hash, e.blocks[n - 1].hash), size)]))
  {
  }

  lemma PushedFront(s: Stack, parts: seq<seq<byte>>, pending: seq<seq<byte>>, bs: int, chunk: seq<byte>)
    requires Standing(s, parts, pending, bs, false) && 0 < |chunk| <= BASE_BLOCK_SIZE && !s.IsEmpty()
    ensures Pushed(EmptyFront(s), chunk, bs) == EmptyFront(Pushed(s, chunk, bs))
  {
    hide Flat, Decreasing, BlockSize, Standing, Reduced, TreeHash, Stacked, Hashed, Carrying;
    var closed, e := |chunk| < BASE_BLOCK_SIZE, EmptyFront(s);
    StandingFacts(s, parts, pending, bs, false);
    if BASE_BLOCK_SIZE < bs {
      var b := Block(Leaf(chunk), BASE_BLOCK_SIZE);
      PushBase(s.leaves, parts, s.blocks, pending, bs, closed, chunk);
      assert Stack(e.leaves, e.blocks + [b]) == EmptyFront(Stack(s.leaves, s.blocks + [b]));
      ReducedFront(Stack(s.leaves, s.blocks + [b]), parts, pending + [chunk], bs, closed);
    } else {
      SizeMin(bs);
      NoStack(s.blocks, pending, bs);
      assert Stack(e.leaves + [Leaf(chunk)], e.blocks) == EmptyFront(Stack(s.leaves + [Leaf(chunk)], s.blocks));
    }
  }

  lemma {:induction false} AddedFromFront(s: Stack, parts: seq<seq<byte>>, pending: seq<seq<byte>>, bs: int, data: seq<byte>, i: nat)
    requires Standing(s, parts, pending, bs, false) && !s.IsEmpty() && i < |data| && i % BASE_BLOCK_SIZE == 0
    ensures AddedFrom(EmptyFront(s), data, i, bs) == EmptyFront(AddedFrom(s, data, i, bs))
    decreases |data| - i
  {
    hide Pushed, EmptyFront, Standing, Flat;
    var k := ChunkEnd(data, i);
    PushedFront(s, parts, pending, bs, data[i..k]);
    LastChunk(data, i);
    if k < |data| {
      var parts2, pending2 := PushedStands(s, parts, pending, bs, data[i..k]);
      AddedFromFront(Pushed(s, data[i..k], bs), parts2, pending2, bs, data, k);
    }
  }

  lemma AddedFront(s: Stack, parts: seq<seq<byte>>, pending: seq<seq<byte>>, bs: int, closed: bool, data: seq<byte>)
    requires Standing(s, parts, pending, bs, closed) && (!closed || data == []) && !s.IsEmpty()
    ensures Added(EmptyFront(s), data, bs) == EmptyFront(Added(s, data, bs))
  {
    hide AddedFrom, Standing;
    if data != [] {
      AddedFromFront(s, parts, pending, bs, data, 0);
    }
  }

  lemma {:induction false} FoldedFront(blocks: seq<Block>)
    requires blocks != []
    ensures Folded([Block(Emptied(blocks[0].hash), blocks[0].size)] + blocks[1..]) == [Block(Emptied(Folded(blocks)[0].hash), Folded(blocks)[0].size)]
    decreases |blocks|
  {
    var n := |blocks|;
    var e := [Block(Emptied(blocks[0].hash), blocks[0].size)] + blocks[1..];
    if n > 1 {
      var up := blocks[..n - 2] + [Block(Node(blocks[n - 2].hash, blocks[n - 1].hash), blocks[n - 2].size)];
      FoldedFront(up);
      assert [Block(Emptied(up[0].hash), up[0].size)] + up[1..] == e[..n - 2] + [Block(Node(e[n - 2].hash, e[n - 1].hash), e[n - 2].size)];
    } else {
      assert e == [Block(Emptied(blocks[0].hash), blocks[0].size)];
    }
  }

  lemma FinishedFront(s: Stack, bs: int)
    requires !s.IsEmpty()
    ensures Finished(EmptyFront(s), bs) == EmptyFirst(Finished(s, bs)) && Finished(s, bs) != []
  {
    hide Folded;
    if s.leaves == [] {
      FoldedFront(s.blocks);
    }
  }

  lemma {:induction false} EmptiedLeftmost(h: Hash)
    ensures Leftmost(Emptied(h)) == []
    decreases h
  {
    if h.Node? {
      EmptiedLeftmost(h.left);
    }
  }

  lemma {:induction false} RootLeftmost(leaves: seq<Hash>, bs: nat, i: nat, length: nat)
    requires 0 < bs && i < |leaves|
    ensures Leftmost(RootOf(leaves, bs, i, length)) == Leftmost(leaves[i])
    decreases length
  {
    if length > bs {
      RootLeftmost(leaves, bs, i, Split(bs, length));
    }
  }

  lemma {:induction false} TreeLeftmost(d: seq<byte>)
    requires d != []
    ensures Leftmost(TreeHash(d)) != []
    decreases |d|
  {
    if |d| > BASE_BLOCK_SIZE {
      TreeLeftmost(d[..Split(BASE_BLOCK_SIZE, |d|)]);
    }
  }

  /** Pieces that are whole base blocks, apart from the last one that is not empty. */
  ghost predicate WholePieces(pieces: seq<seq<byte>>) {
    forall i, j {:trigger pieces[i], pieces[j]} :: 0 <= i < j < |pieces| && pieces[j] != [] ==> |pieces[i]| % BASE_BLOCK_SIZE == 0
  }

  function AddedAll(pieces: seq<seq<byte>>, bs: int): Stack {
    if pieces == [] then Stack([], []) else Added(AddedAll(pieces[..|pieces| - 1], bs), pieces[|pieces| - 1], bs)
  }

  /** No piece comes first that is empty, unless all are. */
  predicate FirstGiven(pieces: seq<seq<byte>>) {
    pieces == [] || pieces[0] != [] || forall i :: 0 <= i < |pieces| ==> pieces[i] == []
  }

  /** Nothing but empty pieces may follow: one was not whole, or the first was empty. */
  ghost predicate Ended(pieces: seq<seq<byte>>) {
    (pieces != [] && pieces[0] == []) || exists i :: 0 <= i < |pieces| && |pieces[i]| % BASE_BLOCK_SIZE != 0
  }

  lemma EndedNext(pieces: seq<seq<byte>>)
    requires WholePieces(pieces) && FirstGiven(pieces) && pieces != []
    ensures var n := |pieces| - 1; var front, last := pieces[..n], pieces[n];
            && WholePieces(front) && FirstGiven(front) && (Ended(front) ==> last == [])
            && (Ended(pieces) <==> Ended(front) || |last| % BASE_BLOCK_SIZE != 0 || (last == [] && n == 0))
  {
    var n := |pieces| - 1;
    var front, last := pieces[..n], pieces[n];
    assert forall i :: 0 <= i < n ==> front[i] == pieces[i];
    if Ended(front) && last != [] {
      assert pieces[n] != [];
    }
    if Ended(pieces) && !(pieces[0] == []) {
      var i :| 0 <= i < |pieces| && |pieces[i]| % BASE_BLOCK_SIZE != 0;
      assert i < n ==> |front[i]| % BASE_BLOCK_SIZE != 0;
    }
  }

  /** Whole pieces, the first of them not empty, give lists that stand for them. */
  lemma {:induction false} AllStand(pieces: seq<seq<byte>>, bs: int) returns (parts: seq<seq<byte>>, pending: seq<seq<byte>>)
    requires BlockSize(bs) && WholePieces(pieces) && FirstGiven(pieces)
    ensures Standing(AddedAll(pieces, bs), parts, pending, bs, Ended(pieces)) && Flat(parts) + Flat(pending) == Flat(pieces)
    ensures pieces == [] <==> AddedAll(pieces, bs).IsEmpty()
    decreases |pieces|
  {
    hide Flat, Standing, Added, BlockSize, WholePieces, FirstGiven, Ended;
    if pieces == [] {
      parts, pending := [], [];
      NothingStands(bs);
    } else {
      var n := |pieces| - 1;
      var front, last := pieces[..n], pieces[n];
      EndedNext(pieces);
      parts, pending := AllStand(front, bs);
      FlatSnoc(front, last);
      assert pieces == front + [last];
      parts, pending := AddedStands(AddedAll(front, bs), parts, pending, bs, Ended(front), last);
    }
  }

  lemma NothingStands(bs: int)
    requires BlockSize(bs)
    ensures Standing(Stack([], []), [], [], bs, false) && Flat([]) + Flat([]) == Flat([]) && !Ended([])
  {
  }

  /** An empty first piece leaves the tree as a base block of anything would, with that block emptied. */
  lemma {:induction false} EmptyStart(pieces: seq<seq<byte>>, chunk: seq<byte>, bs: int)
    requires pieces != [] && pieces[0] == [] && |chunk| == BASE_BLOCK_SIZE && BlockSize(bs) && WholePieces([chunk] + pieces[1..])
    ensures AddedAll(pieces, bs) == EmptyFront(AddedAll([chunk] + pieces[1..], bs)) && !AddedAll([chunk] + pieces[1..], bs).IsEmpty()
    decreases |pieces|
  {
    hide Added, EmptyFront, Standing, Flat, BlockSize, Ended, WholePieces;
    var other := [chunk] + pieces[1..];
    var n := |pieces| - 1;
    EndedNext(other);
    if n == 0 {
      assert pieces == [[]] && other == [chunk] && other[..0] == [] && pieces[..0] == [];
      FirstBlock(chunk, bs);
    } else {
      assert other[..n] == [chunk] + pieces[..n][1..] && other[n] == pieces[n];
      EmptyStart(pieces[..n], chunk, bs);
      var parts, pending := AllStand(other[..n], bs);
      AddedFront(AddedAll(other[..n], bs), parts, pending, bs, Ended(other[..n]), pieces[n]);
      parts, pending := AllStand(other, bs);
    }
  }

  lemma FirstBlock(chunk: seq<byte>, bs: int)
    requires |chunk| == BASE_BLOCK_SIZE
    ensures Added(Stack([], []), [], bs) == EmptyFront(Added(Stack([], []), chunk, bs)) && !Added(Stack([], []), chunk, bs).IsEmpty()
  {
    assert chunk[0..|chunk|] == chunk;
    assert ChunkEnd(chunk, 0) == |chunk|;
    assert Added(Stack([], []), chunk, bs) == Pushed(Stack([], []), chunk, bs);
    assert Added(Stack([], []), [], bs) == Pushed(Stack([], []), [], bs);
  }

  /** Whole pieces give the tree of their data exactly if the first is not empty, or all are. */
  lemma PiecesIff(pieces: seq<seq<byte>>, bs: int)
    requires BlockSize(bs) && bs > 0 && WholePieces(pieces)
    ensures var leaves, d := Finished(AddedAll(pieces, bs), bs), Flat(pieces);
            && |leaves| >= CalcBlocks(|d|, bs)
            && (RootOf(leaves, bs, 0, |d|) == TreeHash(d) <==> pieces == [] || pieces[0] != [] || d == [])
            && (RootOf(leaves, bs, 0, |d|) == TreeHash(d) ==> Honest(leaves, d, bs))
  {
    hide *;
    var leaves, d := Finished(AddedAll(pieces, bs), bs), Flat(pieces);
    FirstGivenIs(pieces);
    if FirstGiven(pieces) {
      var parts, pending := AllStand(pieces, bs);
      FinishedHonest(AddedAll(pieces, bs), parts, pending, bs, Ended(pieces));
      HonestLength(leaves, d, bs);
      RootIff(leaves, d, bs);
    } else {
      EmptyFirstFails(pieces, bs);
    }
  }

  lemma {:induction false} FlatEmpty(pieces: seq<seq<byte>>)
    ensures Flat(pieces) == [] <==> forall i :: 0 <= i < |pieces| ==> pieces[i] == []
    decreases |pieces|
  {
    if pieces != [] {
      var front := pieces[..|pieces| - 1];
      FlatEmpty(front);
      forall i | 0 <= i < |front| ensures front[i] == pieces[i] {
      }
      assert pieces == front + [pieces[|pieces| - 1]];
    }
  }

  lemma FirstGivenIs(pieces: seq<seq<byte>>)
    ensures FirstGiven(pieces) <==> pieces == [] || pieces[0] != [] || Flat(pieces) == []
  {
    FlatEmpty(pieces);
  }

  lemma EmptyFirstFails(pieces: seq<seq<byte>>, bs: int)
    requires BlockSize(bs) && bs > 0 && WholePieces(pieces) && pieces != [] && pieces[0] == [] && Flat(pieces) != []
    ensures var leaves, d := Finished(AddedAll(pieces, bs), bs), Flat(pieces);
            |leaves| >= CalcBlocks(|d|, bs) && RootOf(leaves, bs, 0, |d|) != TreeHash(d)
  {
    hide *;
    var d := Flat(pieces);
    var chunk := seq(1024, _ => 0);
    var other := [chunk] + pieces[1..];
    StillWhole(pieces, chunk);
    var parts, pending := AllStand(other, bs);
    var s := AddedAll(other, bs);
    FinishedHonest(s, parts, pending, bs, Ended(other));
    HonestLength(Finished(s, bs), Flat(other), bs);
    OneChunkMore(pieces, chunk, bs);
    EmptyStart(pieces, chunk, bs);
    FinishedFront(s, bs);
    EmptyFirstFront(Finished(s, bs));
    var leaves := Finished(AddedAll(pieces, bs), bs);
    RootLeftmost(leaves, bs, 0, |d|);
    TreeLeftmost(d);
  }

  lemma EmptyFirstFront(leaves: seq<Hash>)
    requires leaves != []
    ensures |EmptyFirst(leaves)| == |leaves| && Leftmost(EmptyFirst(leaves)[0]) == []
  {
    EmptiedLeftmost(leaves[0]);
  }

  lemma StillWhole(pieces: seq<seq<byte>>, chunk: seq<byte>)
    requires WholePieces(pieces) && pieces != [] && |chunk| == 1024
    ensures |chunk| == BASE_BLOCK_SIZE && WholePieces([chunk] + pieces[1..]) && FirstGiven([chunk] + pieces[1..])
  {
    var other := [chunk] + pieces[1..];
    forall i, j {:trigger other[i], other[j]} | 0 <= i < j < |other| && other[j] != [] ensures |other[i]| % BASE_BLOCK_SIZE == 0 {
      assert pieces[j] != [] && (i > 0 ==> other[i] == pieces[i]);
    }
    assert other[0] != [];
  }

  lemma OneChunkMore(pieces: seq<seq<byte>>, chunk: seq<byte>, bs: nat)
    requires pieces != [] && pieces[0] == [] && bs > 0
    ensures CalcBlocks(|Flat([chunk] + pieces[1..])|, bs) >= CalcBlocks(|Flat(pieces)|, bs)
  {
    hide Flat;
    FlatAppend([chunk], pieces[1..]);
    FlatAppend([[]], pieces[1..]);
    FlatOne(chunk);
    FlatOne([]);
    assert pieces == [[]] + pieces[1..];
    BlocksMonotone(|Flat(pieces)|, |Flat([chunk] + pieces[1..])|, bs);
  }

  lemma LessTimes(p: nat, r: nat, bs: nat)
    requires p * bs < r * bs
    ensures p < r
  {
    if p >= r {
      MulMonotone(r, p, bs, bs);
    }
  }

  lemma BlocksMonotone(m: nat, n: nat, bs: nat)
    requires m <= n && bs > 0
    ensures CalcBlocks(m, bs) <= CalcBlocks(n, bs)
  {
    hide *;
    var p := CountBounds(m, bs);
    var q := CountBounds(n, bs);
    MulDistributes(q, 1, bs);
    LessTimes(p, q + 1, bs);
  }

  /** The blocks of n bytes, the last one perhaps not filled. */
  lemma CountBounds(n: nat, bs: nat) returns (k: nat)
    requires bs > 0
    ensures k * bs <= n + bs - 1 < k * bs + bs && CalcBlocks(n, bs) == if k == 0 then 1 else k
  {
    k := (n + bs - 1) / bs;
  }

  /** While data may follow, there is one leaf for every complete block. */
  lemma StandSoFar(s: Stack, parts: seq<seq<byte>>, pending: seq<seq<byte>>, bs: int)
    requires Standing(s, parts, pending, bs, false)
    ensures bs > 0 && BlockSize(bs) && |s.leaves| * bs <= |Flat(parts) + Flat(pending)| < (|s.leaves| + 1) * bs
    ensures Agree(s.leaves, Flat(parts) + Flat(pending), bs, 0, |s.leaves|)
  {
    hide *;
    StandingFacts(s, parts, pending, bs, false);
    SizePositive(bs);
    OpenParts(s.leaves, parts, bs);
    PendingBelow(s.blocks, pending, bs);
    FullLength(parts, bs);
    MulDistributes(|s.leaves|, 1, bs);
    var d, n := Flat(parts) + Flat(pending), Flat(pending);
    forall k | 0 <= k < |s.leaves| ensures LeafOf(s.leaves[k], d, bs, k) {
      PartLeaf(s.leaves, parts, bs, k, n);
    }
    AgreeHolds(s.leaves, d, bs);
  }

  class Tree {
    var blocks: seq<Block>
    var leaves: seq<Hash>
    var root: Hash
    var fileSize: int
    var blockSize: int
    ghost var parts: seq<seq<byte>>    // the data behind each leaf
    ghost var pending: seq<seq<byte>>  // the data behind each block
    ghost var closed: bool             // a last, incomplete piece has been added

    ghost function Lists(): Stack
      reads this`blocks, this`leaves
    {
      Stack(leaves, blocks)
    }

    ghost predicate Valid()
      reads this`blocks, this`leaves, this`blockSize, this`parts, this`pending, this`closed, this`fileSize
    {
      Standing(Lists(), parts, pending, blockSize, closed) && fileSize == |Data()|
    }

    /** All data hashed so far. */
    ghost function Data(): seq<byte>
      reads this`parts, this`pending
    {
      Flat(parts) + Flat(pending)
    }

    constructor (aBlockSize: int)
      requires BlockSize(aBlockSize)
      ensures Valid() && Data() == [] && blockSize == aBlockSize && !closed && leaves == [] && blocks == []
    {
      blocks, leaves, fileSize, blockSize, root := [], [], 0, aBlockSize, Leaf([]);
      parts, pending, closed := [], [], false;
    }

    /** Merges subtrees of equal size at the end of the stack; a subtree of the block size becomes a leaf. */
    method ReduceBlocks()
      modifies this`blocks, this`leaves
      ensures Lists() == Reduced(old(Lists()), blockSize)
    {
      while |blocks| > 1
        invariant Reduced(Lists(), blockSize) == Reduced(old(Lists()), blockSize)
        decreases |blocks|
      {
        var n := |blocks|;
        var a, b := blocks[n - 2], blocks[n - 1];
        if a.size != b.size {
          break;
        }
        if a.size * 2 == blockSize {
          leaves := leaves + [Node(a.hash, b.hash)];
          blocks := blocks[..n - 2];
        } else {
          blocks := blocks[..n - 2] + [Block(Node(a.hash, b.hash), a.size * 2)];
        }
      }
    }

    /** Adds data; its length should be a multiple of the base block size unless it is the last. */
    method Update(data: seq<byte>)
      modifies this`blocks, this`leaves, this`parts, this`pending, this`closed, this`fileSize
      ensures Lists() == Added(old(Lists()), data, blockSize) && fileSize == old(fileSize) + |data|
      ensures old(Valid()) && (!old(closed) || data == []) ==>
                && Valid() && Data() == old(Data()) + data && old(leaves) <= leaves && old(parts) <= parts && (leaves != [] || blocks != [])
                && closed == (old(closed) || |data| % BASE_BLOCK_SIZE != 0 || (data == [] && old(leaves) == [] && old(blocks) == []))
    {
      hide Standing, Tree.Data, Tree.Valid, Reduced, Flat;
      DataIs();
      ghost var was, old1, old2 := Lists(), parts, pending;
      var i := 0;
      if |data| == 0 && !(leaves == [] && blocks == []) {
        assert Data() + data == Data();
        return;
      }
      while true
        invariant 0 <= i <= |data| && (i == |data| ==> i == 0)
        invariant AddedFrom(Lists(), data, i, blockSize) == Added(was, data, blockSize)
        invariant fileSize == old(fileSize) && parts == old1 && pending == old2 && closed == old(closed)
        decreases |data| - i
      {
        var n := if BASE_BLOCK_SIZE < |data| - i then BASE_BLOCK_SIZE else |data| - i;
        assert i + n == ChunkEnd(data, i);
        if BASE_BLOCK_SIZE < blockSize {
          blocks := blocks + [Block(Leaf(data[i..i + n]), BASE_BLOCK_SIZE)];
          ReduceBlocks();
        } else {
          leaves := leaves + [Leaf(data[i..i + n])];
        }
        i := i + n;
        if i >= |data| {
          break;
        }
      }
      fileSize := fileSize + |data|;
      if old(Valid()) && (!closed || data == []) {
        ghost var p, q := AddedStands(was, old1, old2, blockSize, closed, data);
        closed := closed || |data| % BASE_BLOCK_SIZE != 0 || (data == [] && was.IsEmpty());
        parts, pending := p, q;
        NowValid(old(Data()), data);
      }
    }

    /** Merges the whole stack from the right, whatever the sizes. */
    method FoldBlocks()
      modifies this`blocks
      ensures blocks == Folded(old(blocks))
    {
      while |blocks| > 1
        invariant Folded(blocks) == Folded(old(blocks))
        decreases |blocks|
      {
        var n := |blocks|;
        var a, b := blocks[n - 2], blocks[n - 1];
        blocks := blocks[..n - 2] + [Block(Node(a.hash, b.hash), a.size)];
      }
    }

    /** There will be as many leaves as the size calls for. */
    ghost predicate Enough()
      reads this`blocks, this`leaves, this`blockSize, this`fileSize
    {
      BlockSize(blockSize) && blockSize > 0 && fileSize >= 0 && |Finished(Lists(), blockSize)| >= CalcBlocks(fileSize, blockSize)
    }

    /** Adds the hash of everything left on the stack as the last leaf, and computes the root. */
    method Finalize()
      requires Valid() || Enough()
      modifies this
      ensures blockSize == old(blockSize) > 0 && fileSize == old(fileSize) >= 0
      ensures leaves == Finished(old(Lists()), blockSize) && root == RootOf(leaves, blockSize, 0, fileSize)
      ensures old(Valid()) ==> Honest(leaves, old(Data()), blockSize) && root == TreeHash(old(Data())) && old(leaves) <= leaves
    {
      hide *;
      ghost var d, was := Data(), Lists();
      if Valid() {
        DataIs();
        ValidEnough();
      }
      EnoughFacts();
      if leaves == [] && blocks == [] {
        Update([]);
      }
      ListsAre();
      FinishedSteps(was, blockSize);
      FoldBlocks();
      if blocks != [] {
        leaves := leaves + [blocks[0].hash];
      }
      CalcRoot();
      if old(Valid()) {
        HonestLength(leaves, d, blockSize);
        RootIff(leaves, d, blockSize);
      }
    }

    lemma SoundFacts()
      requires Valid()
      ensures BlockSize(blockSize) && Hashed(leaves, parts, blockSize, closed && pending == []) && Stacked(blocks, pending, blockSize, closed)
      ensures Decreasing(blocks, |blocks|) && (pending == [[]] ==> parts == []) && (closed ==> leaves != [] || blocks != [])
      ensures fileSize == |Data()| && Data() == Flat(parts) + Flat(pending) && |leaves| == |parts| && |blocks| == |pending|
      ensures Standing(Lists(), parts, pending, blockSize, closed) && Lists().leaves == leaves && Lists().blocks == blocks
    {
      StandingFacts(Lists(), parts, pending, blockSize, closed);
    }

    lemma ValidEnough()
      requires Valid()
      ensures Enough() && Honest(Finished(Lists(), blockSize), Data(), blockSize) && leaves <= Finished(Lists(), blockSize)
    {
      hide TreeHash, BlockSize, Flat, CalcBlocks, Agree, Finished;
      SoundFacts();
      FinishedHonest(Lists(), parts, pending, blockSize, closed);
    }

    lemma NowValid(before: seq<byte>, data: seq<byte>)
      requires Standing(Lists(), parts, pending, blockSize, closed) && fileSize == |before| + |data|
      requires Flat(parts) + Flat(pending) == before + data
      ensures Valid() && Data() == before + data
    {
    }

    lemma DataIs()
      ensures Data() == Flat(parts) + Flat(pending) && (Valid() ==> Standing(Lists(), parts, pending, blockSize, closed) && fileSize == |Data()|)
    {
    }

    lemma ListsAre()
      ensures Lists() == Stack(leaves, blocks)
    {
    }

    lemma NowEnough()
      requires BlockSize(blockSize) && blockSize > 0 && fileSize >= 0 && |Finished(Lists(), blockSize)| >= CalcBlocks(fileSize, blockSize)
      ensures Enough()
    {
    }

    lemma EnoughFacts()
      requires Enough()
      ensures BlockSize(blockSize) && blockSize > 0 && fileSize >= 0 && |Finished(Lists(), blockSize)| >= CalcBlocks(fileSize, blockSize)
      ensures Lists() == Stack(leaves, blocks)
    {
    }

    /** Takes over leaves found elsewhere, for data d in front of what will be added. */
    method Resume(start: int, known: seq<Hash>, ghost d: seq<byte>)
      requires Valid() && leaves == [] && blocks == [] && !closed
      modifies this
      ensures leaves == known && fileSize == start && blockSize == old(blockSize) && blocks == [] && !closed
      ensures blockSize > 0 && (|d| == start == |known| * blockSize && Agree(known, d, blockSize, 0, |known|) ==> Valid() && Data() == d)
    {
      hide TreeHash, Flat, Blocks, BlockSize, Agree;
      SizePositive(blockSize);
      fileSize := start;
      leaves := known;
      if |d| == start == |known| * blockSize && Agree(known, d, blockSize, 0, |known|) {
        parts := Blocks(d, blockSize, |known|);
        BlocksHashed(known, d, blockSize);
        assert Flat(parts) + Flat(pending) == d;
      }
    }

    /** While data may follow, there is one leaf for every complete block. */
    lemma LeavesSoFar()
      requires Valid() && !closed
      ensures blockSize > 0 && BlockSize(blockSize) && |leaves| * blockSize <= |Data()| < (|leaves| + 1) * blockSize
      ensures Agree(leaves, Data(), blockSize, 0, |leaves|)
    {
      hide *;
      SoundFacts();
      StandSoFar(Lists(), parts, pending, blockSize);
    }

    method CalcRoot()
      requires BlockSize(blockSize) && blockSize > 0 && fileSize >= 0 && |leaves| >= CalcBlocks(fileSize, blockSize)
      modifies this`root
      ensures root == RootOf(leaves, blockSize, 0, fileSize)
    {
      WholeSpan(fileSize, blockSize);
      root := GetHash(0, fileSize, 0, CalcBlocks(fileSize, blockSize));
    }

    /** The hash of `length` bytes from `start`, put together from leaves i to j. */
    method GetHash(start: int, length: int, ghost i: nat, ghost j: nat) returns (h: Hash)
      requires BlockSize(blockSize) && blockSize > 0 && start == i * blockSize && length >= 0 && j <= |leaves| && Span(blockSize, i, j, length)
      ensures h == RootOf(leaves, blockSize, i, length)
      decreases length
    {
      hide BlockSize, Split;
      if length <= blockSize {
        DivModUnique(start, blockSize, i, 0);
        h := leaves[start / blockSize];
      } else {
        var l := SplitPoint(blockSize, length);
        ghost var _, m := SplitLeaves(blockSize, length);
        SpanSplit(blockSize, i, j, length, l, m);
        MulDistributes(i, m, blockSize);
        var left := GetHash(start, l, i, i + m);
        var right := GetHash(start + l, length - l, i + m, j);
        h := Node(left, right);
      }
    }

    /** Takes leaves from elsewhere, for a file of the given size. */
    constructor Load(aFileSize: int, aBlockSize: int, data: seq<Hash>)
      requires BlockSize(aBlockSize) && aBlockSize > 0 && aFileSize >= 0 && |data| >= CalcBlocks(aFileSize, aBlockSize)
      ensures leaves == data[..CalcBlocks(aFileSize, aBlockSize)] && blockSize == aBlockSize && fileSize == aFileSize && blocks == []
      ensures root == RootOf(leaves, aBlockSize, 0, aFileSize)
      ensures forall d {:trigger TreeHash(d)} :: |d| == aFileSize ==> (root == TreeHash(d) <==> Honest(leaves, d, aBlockSize))
    {
      fileSize, blockSize, blocks, leaves, root := aFileSize, aBlockSize, [], [], Leaf([]);
      parts, pending, closed := [], [], false;
      new;
      var n := CalcBlocks(aFileSize, aBlockSize);
      for i := 0 to n
        invariant leaves == data[..i] && blockSize == aBlockSize && fileSize == aFileSize && blocks == []
      {
        leaves := leaves + [data[i]];
      }
      CalcRoot();
      forall d {:trigger TreeHash(d)} | |d| == aFileSize ensures root == TreeHash(d) <==> Honest(leaves, d, aBlockSize) {
        RootIff(leaves, d, aBlockSize);
      }
    }
  }

  /** Hashes a file that comes in pieces, whole base blocks apart from the last that is not empty: the root is right
      exactly if the first piece is not empty, or nothing follows it. */
  method HashPieces(pieces: seq<seq<byte>>, aBlockSize: int) returns (t: Tree)
    requires BlockSize(aBlockSize) && aBlockSize > 0 && WholePieces(pieces)
    ensures t.root == TreeHash(Flat(pieces)) <==> pieces == [] || pieces[0] != [] || Flat(pieces) == []
    ensures t.blockSize == aBlockSize && t.fileSize == |Flat(pieces)|
    ensures t.root == TreeHash(Flat(pieces)) ==> Honest(t.leaves, Flat(pieces), aBlockSize) && |t.leaves| == CalcBlocks(|Flat(pieces)|, aBlockSize)
  {
    hide *;
    t := new Tree(aBlockSize);
    FlatNone();
    AddedNone(aBlockSize);
    t.ListsAre();
    assert pieces[..0] == [];
    for i := 0 to |pieces|
      invariant fresh(t) && t.blockSize == aBlockSize && t.fileSize == |Flat(pieces[..i])| && t.Lists() == AddedAll(pieces[..i], aBlockSize)
    {
      FlatUpTo(pieces, i);
      AddedUpTo(pieces, i, aBlockSize);
      t.Update(pieces[i]);
    }
    assert pieces[..|pieces|] == pieces;
    PiecesIff(pieces, aBlockSize);
    t.NowEnough();
    t.Finalize();
    HonestCount(t.leaves, Flat(pieces), aBlockSize);
  }

  lemma HonestCount(leaves: seq<Hash>, d: seq<byte>, bs: nat)
    ensures Honest(leaves, d, bs) ==> bs > 0 && |leaves| == CalcBlocks(|d|, bs)
  {
  }

  lemma AddedNone(bs: int)
    ensures AddedAll([], bs) == Stack([], [])
  {
  }

  lemma AddedUpTo(pieces: seq<seq<byte>>, i: nat, bs: int)
    requires i < |pieces|
    ensures AddedAll(pieces[..i + 1], bs) == Added(AddedAll(pieces[..i], bs), pieces[i], bs)
  {
    hide Added;
    assert pieces[..i + 1][..i] == pieces[..i];
  }

  /** Doubles the block size while it stays below the length. */
  method SplitPoint(bs: int, length: int) returns (l: int)
    requires 0 < bs < length
    ensures l == Split(bs, length)
  {
    l := bs;
    while l * 2 < length
      invariant bs <= l < length && Split(l, length) == Split(bs, length)
      decreases length - l
    {
      l := l * 2;
    }
  }

  /** Whole subtrees of falling size, then a last one that fits under the one before it. */
  ghost predicate Folding(blocks: seq<Block>, pending: seq<seq<byte>>, bs: int) {
    && |blocks| == |pending| && BlockSize(bs) && Decreasing(blocks, |blocks| - 1)
    && (forall j {:trigger blocks[j]} :: 0 <= j < |blocks| ==> blocks[j].hash == TreeHash(pending[j]))
    && (forall j {:trigger blocks[j]} :: 0 <= j < |blocks| - 1 ==> BlockSize(blocks[j].size) && blocks[j].size < bs && |pending[j]| == blocks[j].size)
    && (|blocks| >= 2 ==> 0 < |pending[|blocks| - 1]| <= blocks[|blocks| - 2].size)
    && (|blocks| == 1 ==> |pending[0]| <= bs)
  }

  lemma FoldingStarts(blocks: seq<Block>, pending: seq<seq<byte>>, bs: int, closed: bool)
    requires BlockSize(bs) && Stacked(blocks, pending, bs, closed) && Decreasing(blocks, |blocks|)
    ensures Folding(blocks, pending, bs)
  {
    hide TreeHash, BlockSize, Stacked;
    var n := |blocks|;
    StackLengths(blocks, pending, bs, closed);
    if n > 0 {
      StackTop(blocks, pending, bs, closed);
    }
    if n >= 2 {
      assert blocks[n - 2].size > blocks[n - 1].size;
    }
    forall j | 0 <= j < n
      ensures blocks[j].hash == TreeHash(pending[j])
      ensures j < n - 1 ==> BlockSize(blocks[j].size) && blocks[j].size < bs && |pending[j]| == blocks[j].size
    {
      StackSizes(blocks, pending, bs, closed, j);
    }
  }

  lemma StackTop(blocks: seq<Block>, pending: seq<seq<byte>>, bs: int, closed: bool)
    requires Stacked(blocks, pending, bs, closed) && |blocks| == |pending| > 0
    ensures |pending[|pending| - 1]| <= blocks[|pending| - 1].size < bs && (|pending| > 1 ==> |pending[|pending| - 1]| > 0)
  {
    assert blocks[|blocks| - 1] == blocks[|blocks| - 1];
  }

  lemma FoldStep(blocks: seq<Block>, pending: seq<seq<byte>>, bs: int)
    requires Folding(blocks, pending, bs) && |blocks| >= 2
    ensures |pending| == |blocks|
    ensures var n := |blocks|; var joined := pending[n - 2] + pending[n - 1];
            && Folding(blocks[..n - 2] + [Block(Node(blocks[n - 2].hash, blocks[n - 1].hash), blocks[n - 2].size)], pending[..n - 2] + [joined], bs)
            && Flat(pending[..n - 2] + [joined]) == Flat(pending) && joined != []
  {
    hide *;
    FoldTop(blocks, pending, bs);
    var n := |blocks|;
    var a, b, rest := pending[n - 2], pending[n - 1], pending[..n - 2];
    TreeJoin(a, b);
    JoinLast(pending);
    if n >= 3 {
      SizeGap(blocks[n - 2].size, blocks[n - 3].size);
    } else {
      SizeGap(blocks[n - 2].size, bs);
    }
    FoldEnd(blocks, pending, bs, Block(Node(blocks[n - 2].hash, blocks[n - 1].hash), blocks[n - 2].size), a + b);
  }

  lemma FoldTop(blocks: seq<Block>, pending: seq<seq<byte>>, bs: int)
    requires Folding(blocks, pending, bs) && |blocks| >= 2
    ensures |pending| == |blocks| && BlockSize(bs)
    ensures var n := |blocks|;
            && BlockSize(blocks[n - 2].size) && |pending[n - 2]| == blocks[n - 2].size < bs && 0 < |pending[n - 1]| <= blocks[n - 2].size
            && blocks[n - 2].hash == TreeHash(pending[n - 2]) && blocks[n - 1].hash == TreeHash(pending[n - 1])
            && (n >= 3 ==> BlockSize(blocks[n - 3].size) && blocks[n - 3].size > blocks[n - 2].size)
  {
    hide TreeHash, BlockSize;
  }

  lemma JoinLast(pending: seq<seq<byte>>)
    requires |pending| >= 2
    ensures var n := |pending|; Flat(pending[..n - 2] + [pending[n - 2] + pending[n - 1]]) == Flat(pending)
  {
    hide *;
    var n := |pending|;
    var a, b, rest := pending[n - 2], pending[n - 1], pending[..n - 2];
    FlatSnoc(rest, a + b);
    FlatSnoc(rest, a);
    FlatSnoc(rest + [a], b);
    assert pending == rest + [a] + [b];
  }

  lemma DecreasingBefore(blocks: seq<Block>, n: nat, blk: Block)
    requires Decreasing(blocks, n) && n <= |blocks|
    ensures Decreasing(blocks[..n] + [blk], n)
  {
    var up := blocks[..n] + [blk];
    assert forall j {:trigger up[j]} :: 0 <= j < n ==> up[j] == blocks[j];
  }

  /** A joined subtree in the place of the two last ones. */
  lemma FoldEnd(blocks: seq<Block>, pending: seq<seq<byte>>, bs: int, blk: Block, p: seq<byte>)
    requires Folding(blocks, pending, bs) && |blocks| >= 2 && blk.hash == TreeHash(p) && 0 < |p|
    requires |blocks| >= 3 ==> |p| <= blocks[|blocks| - 3].size
    requires |blocks| == 2 ==> |p| <= bs
    ensures |pending| == |blocks| && Folding(blocks[..|blocks| - 2] + [blk], pending[..|blocks| - 2] + [p], bs)
  {
    hide *;
    var n := |blocks|;
    FoldingLengths(blocks, pending, bs);
    FoldingFront(blocks, pending, bs, n - 2);
    if n > 2 {
      assert blocks[..n - 2][n - 3] == blocks[n - 3];
    }
    FoldingSnoc(blocks[..n - 2], pending[..n - 2], bs, blk, p);
  }

  lemma FoldingLengths(blocks: seq<Block>, pending: seq<seq<byte>>, bs: int)
    requires Folding(blocks, pending, bs)
    ensures |pending| == |blocks|
  {
  }

  /** The front of a stack: everything but what is said of its last subtree. */
  ghost predicate FoldingUp(blocks: seq<Block>, pending: seq<seq<byte>>, bs: int) {
    && |blocks| == |pending| && BlockSize(bs) && Decreasing(blocks, |blocks|)
    && forall j {:trigger blocks[j]} :: 0 <= j < |blocks| ==>
         blocks[j].hash == TreeHash(pending[j]) && BlockSize(blocks[j].size) && blocks[j].size < bs && |pending[j]| == blocks[j].size
  }

  lemma FoldingFront(blocks: seq<Block>, pending: seq<seq<byte>>, bs: int, k: nat)
    requires Folding(blocks, pending, bs) && k < |blocks| - 1
    ensures FoldingUp(blocks[..k], pending[..k], bs)
  {
    hide TreeHash, BlockSize;
    forall j | 0 <= j < k
      ensures blocks[..k][j].hash == TreeHash(pending[..k][j]) && BlockSize(blocks[..k][j].size) && blocks[..k][j].size < bs
      ensures |pending[..k][j]| == blocks[..k][j].size
    {
      assert blocks[..k][j] == blocks[j] && pending[..k][j] == pending[j];
    }
  }

  lemma FoldingSnoc(blocks: seq<Block>, pending: seq<seq<byte>>, bs: int, blk: Block, p: seq<byte>)
    requires FoldingUp(blocks, pending, bs) && blk.hash == TreeHash(p) && 0 < |p| <= if blocks == [] then bs else blocks[|blocks| - 1].size
    ensures Folding(blocks + [blk], pending + [p], bs)
  {
    hide TreeHash, BlockSize, Decreasing;
    var up, q := blocks + [blk], pending + [p];
    assert blocks[..|blocks|] == blocks;
    DecreasingBefore(blocks, |blocks|, blk);
    forall j | 0 <= j < |up| ensures up[j].hash == TreeHash(q[j]) {
      assert j < |blocks| ==> up[j] == blocks[j] && q[j] == pending[j];
    }
    forall j | 0 <= j < |up| - 1 ensures BlockSize(up[j].size) && up[j].size < bs && |q[j]| == up[j].size {
      assert up[j] == blocks[j] && q[j] == pending[j];
    }
  }

  /** Nothing is left on the stack: the parts are complete. */
  lemma NoLastPart(leaves: seq<Hash>, parts: seq<seq<byte>>, pending: seq<seq<byte>>, bs: int, closed: bool)
    requires Hashed(leaves, parts, bs, closed) && leaves != [] && pending == []
    ensures Hashed(leaves, parts, bs, true) && parts != [] && (parts[|parts| - 1] != [] || |parts| == 1) && Flat(parts) == Flat(parts) + Flat(pending)
  {
    hide Hashed, Flat;
    FlatNone();
    assert Flat(parts) + [] == Flat(parts);
    CloseHashed(leaves, parts, bs, closed);
  }

  /** What is left on the stack becomes the last part. */
  lemma LastPart(leaves: seq<Hash>, parts: seq<seq<byte>>, blocks: seq<Block>, pending: seq<seq<byte>>, bs: int)
    requires Hashed(leaves, parts, bs, false) && Folding(blocks, pending, bs) && |blocks| == 1 && (pending == [[]] ==> parts == [])
    ensures |pending| == 1 && Hashed(leaves + [blocks[0].hash], parts + [pending[0]], bs, true)
    ensures Flat(parts + [pending[0]]) == Flat(parts) + Flat(pending) && (pending[0] != [] || |parts| == 0)
  {
    hide TreeHash, Hashed, Flat, Folding;
    FoldedOne(blocks, pending, bs);
    var p := pending[0];
    assert pending == [p];
    FlatSnoc(parts, p);
    FlatOne(p);
    assert p == [] ==> pending == [[]];
    FullParts(leaves, parts, bs, p, true);
  }

  lemma FoldedLengths(blocks: seq<Block>, pending: seq<seq<byte>>, bs: int)
    requires Folding(blocks, pending, bs)
    ensures |pending| == |blocks|
  {
  }

  lemma FoldedOne(blocks: seq<Block>, pending: seq<seq<byte>>, bs: int)
    requires Folding(blocks, pending, bs) && |blocks| <= 1
    ensures |pending| == |blocks|
    ensures (blocks != [] ==> blocks[0].hash == TreeHash(pending[0]) && |pending[0]| <= bs)
  {
  }

  lemma CloseHashed(leaves: seq<Hash>, parts: seq<seq<byte>>, bs: int, closed: bool)
    requires Hashed(leaves, parts, bs, closed) && leaves != []
    ensures Hashed(leaves, parts, bs, true) && parts != [] && (parts[|parts| - 1] != [] || |parts| == 1)
  {
    hide TreeHash;
    assert |parts| > 1 ==> |parts[|parts| - 1]| > 0;
  }

  lemma SizePositive(bs: int)
    requires BlockSize(bs)
    ensures 1024 <= bs
  {
    SizeMin(bs);
  }

  /** Parts that are complete but for the last are the blocks of the data. */
  lemma HonestParts(leaves: seq<Hash>, parts: seq<seq<byte>>, bs: int)
    requires BlockSize(bs) && Hashed(leaves, parts, bs, true) && |parts| >= 1 && (parts[|parts| - 1] != [] || |parts| == 1)
    ensures bs > 0 && Honest(leaves, Flat(parts), bs)
  {
    hide *;
    SizePositive(bs);
    HashedParts(leaves, parts, bs, true);
    CutCount(parts, bs);
    var d := Flat(parts);
    assert Flat(parts) + [] == d;
    forall k | 0 <= k < |leaves| ensures LeafOf(leaves[k], d, bs, k) {
      LastPartFull(leaves, parts, bs, k);
      PartLeaf(leaves, parts, bs, k, []);
    }
    AgreeHolds(leaves, d, bs);
    NowHonest(leaves, d, bs);
  }

  lemma LastPartFull(leaves: seq<Hash>, parts: seq<seq<byte>>, bs: nat, k: nat)
    requires Hashed(leaves, parts, bs, true) && k < |parts|
    ensures |leaves| == |parts| && leaves[k] == TreeHash(parts[k]) && (|parts[k]| == bs || k == |parts| - 1)
  {
  }

  lemma HonestLength(leaves: seq<Hash>, d: seq<byte>, bs: nat)
    requires Honest(leaves, d, bs)
    ensures bs > 0 && |leaves| == CalcBlocks(|d|, bs)
  {
  }

  lemma NowHonest(leaves: seq<Hash>, d: seq<byte>, bs: nat)
    requires bs > 0 && |leaves| == CalcBlocks(|d|, bs) && Agree(leaves, d, bs, 0, |leaves|)
    ensures Honest(leaves, d, bs)
  {
  }

  lemma HashedParts(leaves: seq<Hash>, parts: seq<seq<byte>>, bs: int, closed: bool)
    requires Hashed(leaves, parts, bs, closed)
    ensures |leaves| == |parts| && Cut(parts, bs)
  {
  }

  lemma OpenParts(leaves: seq<Hash>, parts: seq<seq<byte>>, bs: int)
    requires Hashed(leaves, parts, bs, false)
    ensures |leaves| == |parts| && Cut(parts, bs)
    ensures forall k {:trigger parts[k]} :: 0 <= k < |parts| ==> |parts[k]| == bs && leaves[k] == TreeHash(parts[k])
  {
  }

  lemma AgreeHolds(leaves: seq<Hash>, d: seq<byte>, bs: nat)
    requires forall k :: 0 <= k < |leaves| ==> LeafOf(leaves[k], d, bs, k)
    ensures Agree(leaves, d, bs, 0, |leaves|)
  {
  }

  /** A complete part, or the last of all, is a block of the data. */
  lemma PartLeaf(leaves: seq<Hash>, parts: seq<seq<byte>>, bs: nat, k: nat, more: seq<byte>)
    requires bs > 0 && k < |leaves| == |parts| && leaves[k] == TreeHash(parts[k]) && Cut(parts, bs)
    requires |parts[k]| == bs || (k == |parts| - 1 && more == [])
    ensures LeafOf(leaves[k], Flat(parts) + more, bs, k)
  {
    hide Flat, TreeHash;
    var d := Flat(parts) + more;
    PartAt(parts, bs, k);
    assert d[k * bs..k * bs + |parts[k]|] == parts[k];
    assert Chunk(d, bs, k) == parts[k];
  }

  function Blocks(d: seq<byte>, bs: nat, n: nat): (parts: seq<seq<byte>>)
    requires n * bs <= |d|
    ensures |parts| == n && forall k {:trigger parts[k]} :: 0 <= k < n ==> |parts[k]| == bs
  {
    if n == 0 then []
    else
      MulDistributes(n - 1, 1, bs);
      Blocks(d, bs, n - 1) + [d[(n - 1) * bs..n * bs]]
  }

  lemma {:induction false} BlocksFlat(d: seq<byte>, bs: nat, n: nat)
    requires n * bs <= |d|
    ensures Flat(Blocks(d, bs, n)) == d[..n * bs]
  {
    if n > 0 {
      MulDistributes(n - 1, 1, bs);
      BlocksFlat(d, bs, n - 1);
      FlatSnoc(Blocks(d, bs, n - 1), d[(n - 1) * bs..n * bs]);
    }
  }

  lemma {:induction false} BlockAt(d: seq<byte>, bs: nat, n: nat, k: nat)
    requires k < n && n * bs <= |d|
    ensures k * bs + bs <= |d| && Blocks(d, bs, n)[k] == d[k * bs..k * bs + bs]
    decreases n
  {
    MulDistributes(n - 1, 1, bs);
    if k < n - 1 {
      BlockAt(d, bs, n - 1, k);
    }
  }

  lemma BlocksHashed(known: seq<Hash>, d: seq<byte>, bs: nat)
    requires bs > 0 && |d| == |known| * bs && Agree(known, d, bs, 0, |known|)
    ensures Hashed(known, Blocks(d, bs, |known|), bs, false) && Flat(Blocks(d, bs, |known|)) == d && Flat([]) == []
  {
    hide TreeHash, Flat, Blocks;
    BlocksFlat(d, bs, |known|);
    FlatNone();
    assert d[..|d|] == d;
    var parts := Blocks(d, bs, |known|);
    forall i | 0 <= i < |known| ensures known[i] == TreeHash(parts[i]) {
      assert LeafOf(known[i], d, bs, i);
      BlockAt(d, bs, |known|, i);
    }
    assert parts != [] ==> |parts[|parts| - 1]| == bs;
  }

  /** Subtrees of falling sizes below the block size hold less than a block. */
  lemma PendingBelow(blocks: seq<Block>, pending: seq<seq<byte>>, bs: int)
    requires BlockSize(bs) && Stacked(blocks, pending, bs, false) && Decreasing(blocks, |blocks|)
    ensures |Flat(pending)| < bs
  {
    SizePositive(bs);
    if blocks != [] {
      PendingSum(blocks, pending, bs, |blocks|);
      assert pending[..|blocks|] == pending;
      SizeMin(blocks[|blocks| - 1].size);
    } else {
      FlatNone();
    }
  }

  lemma {:induction false} PendingSum(blocks: seq<Block>, pending: seq<seq<byte>>, bs: int, n: nat)
    requires BlockSize(bs) && Stacked(blocks, pending, bs, false) && Decreasing(blocks, |blocks|) && 0 < n <= |blocks|
    ensures |pending| == |blocks| && |Flat(pending[..n])| + blocks[n - 1].size <= bs
  {
    hide Stacked, BlockSize, Flat;
    StackLengths(blocks, pending, bs, false);
    StackSizes(blocks, pending, bs, false, n - 1);
    if n == |blocks| {
      StackLast(blocks, pending, bs);
    }
    assert pending[..n] == pending[..n - 1] + [pending[n - 1]];
    FlatSnoc(pending[..n - 1], pending[n - 1]);
    if n == 1 {
      FlatNone();
      assert pending[..0] == [];
      SizeGap(blocks[0].size, bs);
    } else {
      PendingSum(blocks, pending, bs, n - 1);
      StackSizes(blocks, pending, bs, false, n - 2);
      assert blocks[n - 2].size > blocks[n - 1].size;
      SizeGap(blocks[n - 1].size, blocks[n - 2].size);
    }
  }

  lemma StackLast(blocks: seq<Block>, pending: seq<seq<byte>>, bs: int)
    requires Stacked(blocks, pending, bs, false) && |blocks| == |pending| > 0
    ensures |pending[|pending| - 1]| == blocks[|pending| - 1].size
  {
  }

  /** No subtree is smaller than the base block. */
  lemma NoStack(blocks: seq<Block>, pending: seq<seq<byte>>, bs: int)
    requires Stacked(blocks, pending, bs, false) && bs <= BASE_BLOCK_SIZE
    ensures blocks == [] && pending == [] && Flat(pending) == []
  {
    if blocks != [] {
      SizeMin(blocks[0].size);
    }
  }

  lemma PushBase(leaves: seq<Hash>, parts: seq<seq<byte>>, blocks: seq<Block>, pending: seq<seq<byte>>, bs: int, closed: bool, chunk: seq<byte>)
    requires BlockSize(bs) && BASE_BLOCK_SIZE < bs && Hashed(leaves, parts, bs, false) && Stacked(blocks, pending, bs, false) && Decreasing(blocks, |blocks|)
    requires |leaves| == |parts|
    requires |chunk| <= BASE_BLOCK_SIZE && closed == (|chunk| < BASE_BLOCK_SIZE) && (chunk == [] ==> leaves == [] && blocks == [])
    ensures Carrying(leaves, parts, blocks + [Block(Leaf(chunk), BASE_BLOCK_SIZE)], pending + [chunk], bs, closed)
    ensures Flat(pending + [chunk]) == Flat(pending) + chunk
    ensures Flat(parts) + (Flat(pending) + chunk) == Flat(parts) + Flat(pending) + chunk
  {
    hide Flat, Stacked, TreeHash, BlockSize, Hashed;
    FlatSnoc(pending, chunk);
    BaseLeaf(chunk);
    var blk := Block(Leaf(chunk), BASE_BLOCK_SIZE);
    StackLengths(blocks, pending, bs, false);
    assert blocks[..|blocks|] == blocks && pending[..|blocks|] == pending;
    StackOpen(blocks, pending, bs, closed);
    StackEnd(blocks, pending, bs, closed, |blocks|, blk, chunk);
    assert (pending + [chunk])[|pending|] == chunk && pending + [chunk] != [];
    assert pending + [chunk] == [[]] ==> chunk == [];
    if blocks != [] {
      StackSizes(blocks, pending, bs, false, |blocks| - 1);
      SizeMin(blocks[|blocks| - 1].size);
    }
  }

  lemma BaseLeaf(chunk: seq<byte>)
    requires |chunk| <= BASE_BLOCK_SIZE
    ensures TreeHash(chunk) == Leaf(chunk) && BlockSize(BASE_BLOCK_SIZE)
  {
  }

  lemma StackOpen(blocks: seq<Block>, pending: seq<seq<byte>>, bs: int, closed: bool)
    requires Stacked(blocks, pending, bs, false)
    ensures Stacked(blocks, pending, bs, closed)
  {
  }

  /** The state while a carry moves up the stack: only the two last sizes may be equal. */
  ghost predicate Carrying(leaves: seq<Hash>, parts: seq<seq<byte>>, blocks: seq<Block>, pending: seq<seq<byte>>, bs: int, closed: bool) {
    && BlockSize(bs) && Stacked(blocks, pending, bs, closed) && Hashed(leaves, parts, bs, closed && pending == [])
    && Decreasing(blocks, |blocks| - 1) && (|blocks| >= 2 ==> blocks[|blocks| - 2].size >= blocks[|blocks| - 1].size)
    && (pending == [[]] ==> parts == [])
  }

  /** One merge keeps the data and the shape of the stack. */
  lemma CarryStep(leaves: seq<Hash>, parts: seq<seq<byte>>, blocks: seq<Block>, pending: seq<seq<byte>>, bs: int, closed: bool)
    requires Carrying(leaves, parts, blocks, pending, bs, closed) && |blocks| >= 2
    requires blocks[|blocks| - 2].size == blocks[|blocks| - 1].size
    ensures |pending| == |blocks|
    ensures var n := |blocks|; var joined, node := pending[n - 2] + pending[n - 1], Node(blocks[n - 2].hash, blocks[n - 1].hash);
            if 2 * blocks[n - 1].size == bs then
              && n == 2 && Carrying(leaves + [node], parts + [joined], [], [], bs, closed)
              && Flat(parts + [joined]) + Flat([]) == Flat(parts) + Flat(pending)
            else
              && Carrying(leaves, parts, blocks[..n - 2] + [Block(node, 2 * blocks[n - 1].size)], pending[..n - 2] + [joined], bs, closed)
              && Flat(pending[..n - 2] + [joined]) == Flat(pending)
  {
    hide Hashed, Flat;
    var n := |blocks|;
    var s := blocks[n - 1].size;
    var joined, node := pending[n - 2] + pending[n - 1], Node(blocks[n - 2].hash, blocks[n - 1].hash);
    MergeLast(blocks, pending, bs, closed);
    SizeMin(s);
    assert joined != [];
    if 2 * s == bs {
      AloneAtTop(blocks, bs);
      FullParts(leaves, parts, bs, joined, closed);
      JoinedFlat(parts, pending, joined);
    } else {
      SizeDouble(s, bs);
      CarryUp(blocks, pending, bs, closed);
    }
  }

  lemma SizeDouble(s: int, bs: int)
    requires BlockSize(s) && BlockSize(bs) && s < bs
    ensures BlockSize(2 * s) && 2 * s <= bs
  {
    assert (2 * s) / 2 == s && (2 * s) % 2 == 0;
    SizeGap(s, bs);
    SizeMin(s);
  }

  lemma JoinedFlat(parts: seq<seq<byte>>, pending: seq<seq<byte>>, joined: seq<byte>)
    requires |pending| == 2 && joined == pending[0] + pending[1]
    ensures Flat(parts + [joined]) + Flat([]) == Flat(parts) + Flat(pending)
  {
    FlatSnoc(parts, joined);
    FlatOne(pending[0]);
    FlatSnoc([pending[0]], pending[1]);
    assert pending == [pending[0]] + [pending[1]];
    assert Flat([]) == [];
  }

  lemma CarryUp(blocks: seq<Block>, pending: seq<seq<byte>>, bs: int, closed: bool)
    requires BlockSize(bs) && Stacked(blocks, pending, bs, closed) && Decreasing(blocks, |blocks| - 1) && |blocks| >= 2
    requires blocks[|blocks| - 2].size == blocks[|blocks| - 1].size && BlockSize(2 * blocks[|blocks| - 1].size) && 2 * blocks[|blocks| - 1].size < bs
    ensures var n := |blocks|;
            var up := blocks[..n - 2] + [Block(Node(blocks[n - 2].hash, blocks[n - 1].hash), 2 * blocks[n - 1].size)];
            && Stacked(up, pending[..n - 2] + [pending[n - 2] + pending[n - 1]], bs, closed) && Decreasing(up, |up| - 1)
            && (|up| >= 2 ==> up[|up| - 2].size >= up[|up| - 1].size)
  {
    hide Flat, Stacked, TreeHash, BlockSize;
    var n := |blocks|;
    StackLengths(blocks, pending, bs, closed);
    MergeLast(blocks, pending, bs, closed);
    var blk := Block(Node(blocks[n - 2].hash, blocks[n - 1].hash), 2 * blocks[n - 1].size);
    StackEnd(blocks, pending, bs, closed, n - 2, blk, pending[n - 2] + pending[n - 1]);
    if n >= 3 {
      assert blocks[n - 3].size > blocks[n - 2].size;
      StackSizes(blocks, pending, bs, closed, n - 2);
      StackSizes(blocks, pending, bs, closed, n - 3);
      SizeGap(blocks[n - 2].size, blocks[n - 3].size);
    }
  }

  lemma StackLengths(blocks: seq<Block>, pending: seq<seq<byte>>, bs: int, closed: bool)
    requires Stacked(blocks, pending, bs, closed)
    ensures |blocks| == |pending|
  {
  }

  lemma StackSizes(blocks: seq<Block>, pending: seq<seq<byte>>, bs: int, closed: bool, j: nat)
    requires Stacked(blocks, pending, bs, closed) && j < |blocks|
    ensures BlockSize(blocks[j].size) && blocks[j].size < bs && blocks[j].hash == TreeHash(pending[j])
    ensures j < |blocks| - 1 ==> |pending[j]| == blocks[j].size
  {
  }

  /** A stack with everything from entry n on replaced by one subtree. */
  lemma StackEnd(blocks: seq<Block>, pending: seq<seq<byte>>, bs: int, closed: bool, n: nat, blk: Block, p: seq<byte>)
    requires |blocks| == |pending| && n <= |blocks| && (n == |blocks| ==> Stacked(blocks, pending, bs, false)) && Stacked(blocks, pending, bs, closed)
    requires BlockSize(blk.size) && blk.size < bs && blk.hash == TreeHash(p) && |p| <= blk.size && (!closed ==> |p| == blk.size) && (n > 0 ==> |p| > 0)
    ensures Stacked(blocks[..n] + [blk], pending[..n] + [p], bs, closed)
  {
    hide TreeHash, BlockSize;
    var b, q := blocks[..n] + [blk], pending[..n] + [p];
    forall j | 0 <= j < |b| ensures BlockSize(b[j].size) && b[j].size < bs && b[j].hash == TreeHash(q[j]) {
      assert j < n ==> b[j] == blocks[j] && q[j] == pending[j];
    }
    forall j | 0 <= j < |q| - 1 ensures |q[j]| == b[j].size {
      assert q[j] == pending[j] && b[j] == blocks[j];
    }
  }

  /** Nothing more to merge. */
  lemma Carried(leaves: seq<Hash>, parts: seq<seq<byte>>, blocks: seq<Block>, pending: seq<seq<byte>>, bs: int, closed: bool)
    requires Carrying(leaves, parts, blocks, pending, bs, closed)
    requires |blocks| >= 2 ==> blocks[|blocks| - 2].size != blocks[|blocks| - 1].size
    ensures BlockSize(bs) && Stacked(blocks, pending, bs, closed) && Hashed(leaves, parts, bs, closed && pending == []) && Decreasing(blocks, |blocks|)
    ensures pending == [[]] ==> parts == []
  {
    hide TreeHash, Hashed, Stacked, BlockSize;
    forall j, k | 0 <= j < k < |blocks| ensures blocks[j].size > blocks[k].size {
      if k == |blocks| - 1 && j < k - 1 {
        assert blocks[j].size > blocks[k - 1].size;
      }
    }
  }

  /** Two subtrees of half the block size are alone on the stack. */
  lemma AloneAtTop(blocks: seq<Block>, bs: int)
    requires |blocks| >= 2 && BlockSize(bs) && 2 * blocks[|blocks| - 2].size == bs && Decreasing(blocks, |blocks| - 1)
    requires forall j {:trigger blocks[j]} :: 0 <= j < |blocks| ==> BlockSize(blocks[j].size) && blocks[j].size < bs
    ensures |blocks| == 2
  {
    if |blocks| > 2 {
      var n := |blocks|;
      assert blocks[n - 3].size > blocks[n - 2].size;
      SizeGap(blocks[n - 2].size, blocks[n - 3].size);
    }
  }
}
