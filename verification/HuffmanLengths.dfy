// BZ2_hbMakeCodeLengths: code lengths of at most maxLen bits for given
// frequencies.
module HuffmanLengths {
  import opened Words
  import opened Sums
  import opened Kraft
  import opened HuffmanTree
  import opened HuffmanOptimal
  import opened HuffmanHeap

  const MAX_ALPHA_SIZE := 258

  /** The arrays hold the forest, and the heap its roots. */
  ghost predicate Building(f: Forest, total: int, weight: seq<int>, parent: seq<int>, heap: seq<int>, nHeap: int, nNodes: int, nodes: set<int>) {
    && Sound(f, total) && |f.parent| == nNodes + 1 && nNodes + 1 <= |weight| && nNodes + 1 <= |parent|
    && weight[..nNodes + 1] == f.weight && parent[..nNodes + 1] == f.parent
    && Heap(heap, weight, nHeap, nodes)
    && (forall x {:trigger x in nodes} {:trigger Root(f, x)} :: x in nodes <==> Root(f, x))
  }

  /** The two nodes popped are the two lightest roots. */
  lemma PoppedTwo(f: Forest, total: int, weight: seq<int>, nodes: set<int>, rest: set<int>, n1: int, n2: int)
    requires Sound(f, total) && |f.weight| <= |weight| && weight[..|f.weight|] == f.weight
    requires forall x {:trigger x in nodes} {:trigger Root(f, x)} :: x in nodes <==> Root(f, x)
    requires n1 in nodes && forall x {:trigger x in nodes} :: x in nodes ==> 0 <= n1 < |weight| && 0 <= x < |weight| && weight[n1] <= weight[x]
    requires rest == nodes - {n1} && n2 in rest
    requires forall x {:trigger x in rest} :: x in rest ==> 0 <= n2 < |weight| && 0 <= x < |weight| && weight[n2] <= weight[x]
    ensures HuffmanTree.Lightest(f, n1, n2)
  {
    hide Sum, RootWeights, Weights, Monotone;
    assert Root(f, n1) && Root(f, n2);
    forall k | Root(f, k) && k != n1 && k != n2 ensures f.weight[n2] <= f.weight[k] {
      assert k in nodes && k in rest;
    }
  }

  /** Packed weights fit a signed 32-bit word. */
  lemma MergeFits(f: Forest, total: int, a: int, b: int)
    requires Sound(f, total) && HuffmanTree.Lightest(f, a, b)
    ensures 1 <= a < |f.parent| && 1 <= b < |f.parent| && f.weight[a] >= 0 && f.weight[b] >= 0
    ensures 0 < AddWeights(f.weight[a], f.weight[b]) < 0x8000_0000
  {
    hide AddWeights, Sum, RootWeights;
    RootBound(f, total, a, b);
    AddWeightsFields(f.weight[a], f.weight[b]);
  }

  /** The state after a merge. */
  lemma Merged(f: Forest, total: int, weight: seq<int>, parent: seq<int>, heap: seq<int>, nHeap: int, nNodes: int,
               nodes: set<int>, n1: int, n2: int, weight2: seq<int>)
    requires Sound(f, total) && HuffmanTree.Lightest(f, n1, n2) && |f.parent| == nNodes + 1
    requires nNodes + 2 <= |weight| == |weight2| && nNodes + 2 <= |parent|
    requires weight[..nNodes + 1] == f.weight && parent[..nNodes + 1] == f.parent
    requires f.weight[n1] >= 0 && f.weight[n2] >= 0
    requires weight2 == weight[nNodes + 1 := AddWeights(f.weight[n1], f.weight[n2])]
    requires forall x {:trigger x in nodes} {:trigger Root(f, x)} :: x in nodes <==> Root(f, x)
    requires Heap(heap, weight, nHeap, nodes - {n1} - {n2})
    ensures Heap(heap, weight2, nHeap, nodes - {n1} - {n2}) && nNodes + 1 !in nodes
    ensures Sound(Grow(f, n1, n2), total)
    ensures weight2[..nNodes + 2] == Grow(f, n1, n2).weight
    ensures parent[n1 := nNodes + 1][n2 := nNodes + 1][nNodes + 1 := -1][..nNodes + 2] == Grow(f, n1, n2).parent
    ensures forall x :: x in nodes - {n1} - {n2} + {nNodes + 1} <==> Root(Grow(f, n1, n2), x)
  {
    hide AddWeights, Sum, RootWeights, Weights, Monotone, Heap;
    GrowSound(f, total, n1, n2);
    StillHeap(f, total, heap, weight, weight2, nHeap, nodes, nodes - {n1} - {n2}, nNodes);
  }

  lemma StillHeap(f: Forest, total: int, heap: seq<int>, weight: seq<int>, weight2: seq<int>, nHeap: int, nodes: set<int>, rest: set<int>, nNodes: int)
    requires Sound(f, total) && |f.parent| == nNodes + 1 && nNodes + 2 <= |weight|
    requires weight[..nNodes + 1] == f.weight && |weight2| == |weight|
    requires forall i :: 0 <= i < |weight| && i != nNodes + 1 ==> weight2[i] == weight[i]
    requires rest <= nodes && forall x {:trigger x in nodes} :: x in nodes <==> Root(f, x)
    requires Heap(heap, weight, nHeap, rest)
    ensures Heap(heap, weight2, nHeap, rest)
  {
    forall x | x in rest ensures weight2[x] == weight[x] {
      assert x in nodes;
    }
    HeapFrame(heap, weight, weight2, nHeap, rest);
  }

  /** Only the last node is left as a root. */
  lemma OneRoot(f: Forest, total: int, heap: seq<int>, weight: seq<int>, nodes: set<int>)
    requires Sound(f, total) && f.n >= 2 && |f.parent| == 2 * f.n && f.parent[|f.parent| - 1] == -1
    requires Heap(heap, weight, 1, nodes) && forall x {:trigger x in nodes} {:trigger Root(f, x)} :: x in nodes <==> Root(f, x)
    ensures Complete(f, total)
  {
    hide Sum, RootWeights, Weights, Monotone;
    var r := |f.parent| - 1;
    assert Root(f, r);
    assert r in nodes;
    forall k | Root(f, k) ensures k == r {
      assert k in nodes;
      var a := Listed(heap, 1, nodes, k);
      var b := Listed(heap, 1, nodes, r);
    }
  }

  /** A symbol becomes a root and goes on the heap. */
  method PushLeaf(weight: array<i32>, parent: array<i32>, heap: array<i32>, nHeap: int, i: i32, ghost nodes: set<int>)
    requires weight != parent && heap != weight && heap != parent && i < parent.Length
    requires 0 <= nHeap < heap.Length - 1 && Heap(heap[..], weight[..], nHeap, nodes) && i as int !in nodes && 0 < i < weight.Length && weight[i] > 0
    modifies parent, heap
    ensures parent[i] == -1 && forall k :: 0 <= k < parent.Length && k != i as int ==> parent[k] == old(parent[k])
    ensures Heap(heap[..], weight[..], nHeap + 1, nodes + {i as int})
  {
    hide Heap;
    parent[i] := -1;
    Push(heap, weight, nHeap, i, nodes);
  }

  /** Puts every symbol on the heap. */
  method FillHeap(weight: array<i32>, parent: array<i32>, heap: array<i32>, alphaSize: int) returns (ghost nodes: set<int>)
    requires weight != parent && heap != weight && heap != parent
    requires weight.Length == parent.Length == 2 * MAX_ALPHA_SIZE && heap.Length == MAX_ALPHA_SIZE + 2
    requires 2 <= alphaSize <= MAX_ALPHA_SIZE && Usable(weight[1..alphaSize + 1])
    modifies weight, parent, heap
    ensures weight[1..alphaSize + 1] == old(weight[1..alphaSize + 1])
    ensures Building(Start(weight[1..alphaSize + 1]), Sum(Frequencies(weight[1..alphaSize + 1])), weight[..], parent[..], heap[..], alphaSize, alphaSize, nodes)
  {
    hide Sum, Heap, Usable, Perm.Range, Building;
    ghost var leaves := weight[1..alphaSize + 1];
    heap[0] := 0;
    weight[0] := 0;
    parent[0] := -2;
    nodes := {};
    var nHeap := 0;
    ghost var w := weight[..];
    assert w[1..alphaSize + 1] == leaves;
    LeavesPositive(leaves);
    EmptyHeap(heap[..], w);
    NoNodes();
    for i := 1 to alphaSize + 1
      invariant nHeap == i - 1 && nodes == Perm.Range(1, i)
      invariant weight[..] == w && parent[0] == -2
      invariant forall k :: 1 <= k < i ==> parent[k] == -1
      invariant Heap(heap[..], w, nHeap, nodes)
    {
      assert w[i] == leaves[i - 1];
      PushLeaf(weight, parent, heap, nHeap, i, nodes);
      nHeap := nHeap + 1;
      NextNode(i);
      nodes := nodes + {i};
    }
    Filled(leaves, w, parent[..], heap[..], alphaSize, nodes);
  }

  lemma NoNodes()
    ensures Perm.Range(1, 1) == {}
  {
  }

  lemma NextNode(i: int)
    requires i >= 1
    ensures Perm.Range(1, i + 1) == Perm.Range(1, i) + {i}
  {
  }

  lemma EmptyHeap(h: seq<int>, w: seq<int>)
    requires |h| > 0 && h[0] == 0 && |w| > 0 && w[0] == 0
    ensures Heap(h, w, 0, {})
  {
  }

  lemma Filled(leaves: seq<int>, w: seq<int>, parent: seq<int>, heap: seq<int>, alphaSize: int, nodes: set<int>)
    requires 2 <= alphaSize == |leaves| && Usable(leaves) && alphaSize + 1 <= |w| && alphaSize + 1 <= |parent|
    requires w[0] == 0 && w[1..alphaSize + 1] == leaves && parent[0] == -2
    requires forall k :: 1 <= k <= alphaSize ==> parent[k] == -1
    requires Heap(heap, w, alphaSize, nodes) && nodes == Perm.Range(1, alphaSize + 1)
    ensures Building(Start(leaves), Sum(Frequencies(leaves)), w, parent, heap, alphaSize, alphaSize, nodes)
  {
    hide Sound, Sum, Frequencies, Heap, Usable;
    assert w[..alphaSize + 1] == [0] + leaves;
    assert parent[..alphaSize + 1] == [-2] + seq(|leaves|, i => -1);
    StartSound(leaves);
  }

  lemma LeavesPositive(leaves: seq<int>)
    requires Usable(leaves)
    ensures forall i :: 0 <= i < |leaves| ==> leaves[i] > 0
  {
  }

  /** Takes the two lightest nodes off the heap and puts their merge on it. */
  method MergeTwo(weight: array<i32>, parent: array<i32>, heap: array<i32>, nHeap0: int, nNodes0: int,
                  ghost f: Forest, ghost total: int, ghost nodes: set<int>) returns (ghost g: Forest, ghost left: set<int>)
    requires weight != parent && heap != weight && heap != parent
    requires 2 <= nHeap0 < heap.Length && 0 <= nNodes0 && nNodes0 + 2 <= weight.Length == parent.Length
    requires weight.Length <= 0x1000
    requires Building(f, total, weight[..], parent[..], heap[..], nHeap0, nNodes0, nodes)
    modifies weight, parent, heap
    ensures g.n == f.n && |g.parent| == |f.parent| + 1 && g.parent[|g.parent| - 1] == -1
    ensures Building(g, total, weight[..], parent[..], heap[..], nHeap0 - 1, nNodes0 + 1, left)
    ensures forall k :: 0 <= k <= nNodes0 ==> weight[k] == old(weight[k])
  {
    hide Sound, Heap, Sum, AddWeights, Grow, HuffmanTree.Lightest, Root;
    var nHeap, nNodes := nHeap0, nNodes0;
    var n1 := Pop(heap, weight, nHeap, nodes);
    nHeap := nHeap - 1;
    var n2 := Pop(heap, weight, nHeap, nodes - {n1 as int});
    nHeap := nHeap - 1;
    PoppedTwo(f, total, weight[..], nodes, nodes - {n1 as int}, n1, n2);
    MergeFits(f, total, n1, n2);
    ghost var w0, p0 := weight[..], parent[..];
    assert w0[..nNodes0 + 1] == f.weight;
    assert weight[n1] == f.weight[n1] && weight[n2] == f.weight[n2];
    nNodes := nNodes + 1;
    parent[n1] := nNodes;
    parent[n2] := nNodes;
    weight[nNodes] := AddWeights(weight[n1], weight[n2]);
    parent[nNodes] := -1;
    Merged(f, total, w0, p0, heap[..], nHeap, nNodes - 1, nodes, n1, n2, weight[..]);
    left := nodes - {n1 as int} - {n2 as int};
    Push(heap, weight, nHeap, nNodes, left);
    left := left + {nNodes as int};
    GrowFields(f, n1, n2);
    g := Grow(f, n1, n2);
  }

  /** Merges the two lightest roots until one is left. */
  method BuildTree(weight: array<i32>, parent: array<i32>, alphaSize: int) returns (ghost f: Forest)
    requires weight != parent && weight.Length == parent.Length == 2 * MAX_ALPHA_SIZE
    requires 2 <= alphaSize <= MAX_ALPHA_SIZE && Usable(weight[1..alphaSize + 1])
    modifies weight, parent
    ensures f.n == alphaSize && Complete(f, Sum(Frequencies(weight[1..alphaSize + 1])))
    ensures parent[..2 * alphaSize] == f.parent && |f.weight| > alphaSize && f.weight[1..alphaSize + 1] == weight[1..alphaSize + 1]
    ensures weight[1..alphaSize + 1] == old(weight[1..alphaSize + 1])
  {
    hide Sound, Heap, Sum, Frequencies, Grow, Building, Usable, Complete;
    ghost var leaves := weight[1..alphaSize + 1];
    ghost var total := Sum(Frequencies(leaves));
    var heap := new i32[MAX_ALPHA_SIZE + 2];
    ghost var nodes := FillHeap(weight, parent, heap, alphaSize);
    f := Start(leaves);
    var nNodes, nHeap := alphaSize, alphaSize;
    assert nHeap < MAX_ALPHA_SIZE + 2;  // assertion 2001
    while nHeap > 1
      invariant nNodes + nHeap == 2 * alphaSize && 1 <= nHeap && f.n == alphaSize
      invariant |f.parent| == nNodes + 1 && (nNodes > alphaSize ==> f.parent[nNodes] == -1)
      invariant Building(f, total, weight[..], parent[..], heap[..], nHeap, nNodes, nodes)
      invariant weight[1..alphaSize + 1] == leaves
    {
      f, nodes := MergeTwo(weight, parent, heap, nHeap, nNodes, f, total, nodes);
      nNodes := nNodes + 1;
      nHeap := nHeap - 1;
    }
    assert nNodes < MAX_ALPHA_SIZE * 2;  // assertion 2002
    BuiltShape(f, total, weight[..], parent[..], heap[..], nHeap, nNodes, nodes);
    assert f.weight[1..alphaSize + 1] == weight[1..alphaSize + 1];
    OneRoot(f, total, heap[..], weight[..], nodes);
  }

  lemma BuiltShape(f: Forest, total: int, weight: seq<int>, parent: seq<int>, heap: seq<int>, nHeap: int, nNodes: int, nodes: set<int>)
    requires Building(f, total, weight, parent, heap, nHeap, nNodes, nodes)
    ensures Sound(f, total) && |f.parent| == nNodes + 1 <= |parent| && parent[..nNodes + 1] == f.parent
    ensures nNodes + 1 <= |weight| && weight[..nNodes + 1] == f.weight
    ensures Heap(heap, weight, nHeap, nodes)
    ensures forall x {:trigger x in nodes} {:trigger Root(f, x)} :: x in nodes <==> Root(f, x)
  {
  }

  lemma GrowFields(f: Forest, a: int, b: int)
    requires |f.weight| == |f.parent| && 0 <= a < |f.parent| && 0 <= b < |f.parent| && f.weight[a] >= 0 && f.weight[b] >= 0
    ensures Grow(f, a, b).n == f.n && |Grow(f, a, b).parent| == |f.parent| + 1
    ensures Grow(f, a, b).parent[|f.parent|] == -1
  {
  }

  /** A depth fits a byte. */
  lemma DepthFits(f: Forest, total: int, k: nat)
    requires Complete(f, total) && 1 <= k <= f.n
    ensures Depth(f.parent, k) < 48
  {
    hide Sum, Growth;
    var r := |f.parent| - 1;
    HeightCoversDepth(f, total, k);
    assert Weighed(f, r) && Weighed(f, k) && Root(f, r);
    var s := RootWeights(f);
    forall i | 0 <= i < |s| ensures s[i] >= 0 {
      assert i > 0 ==> Weighed(f, i);
    }
    SumTerm(s, r);
    HeightBound(D(f.weight[r]));
  }

  /** Writes the depth of every symbol into len. */
  method Measure(parent: array<i32>, len: array<byte>, alphaSize: int, maxLen: int, ghost f: Forest, ghost total: int) returns (tooLong: bool)
    requires f.n == alphaSize && Complete(f, total) && alphaSize <= len.Length && 2 * alphaSize <= parent.Length
    requires parent[..2 * alphaSize] == f.parent
    modifies len
    ensures len[..alphaSize] == Lengths(f)
    ensures len[alphaSize..] == old(len[alphaSize..])
    ensures tooLong <==> exists i :: 0 <= i < alphaSize && Lengths(f)[i] > maxLen
  {
    hide Sound, Complete, Depth, Root;
    tooLong := false;
    CompleteShape(f, total);
    for i := 1 to alphaSize + 1
      invariant forall k :: 0 <= k < i - 1 ==> len[k] as int == Lengths(f)[k]
      invariant len[alphaSize..] == old(len[alphaSize..])
      invariant tooLong <==> exists k :: 0 <= k < i - 1 && Lengths(f)[k] > maxLen
    {
      var j, k := 0, i as int;
      RootAtEnd(f, total, k);
      ghost var before := len[..];
      while parent[k] >= 0
        invariant len[..] == before
        invariant 0 <= j && 1 <= k < 2 * alphaSize && j + Depth(f.parent, k) == Depth(f.parent, i)
        decreases 2 * alphaSize - k
      {
        RootAtEnd(f, total, k);
        assert parent[k] == f.parent[k];
        k := parent[k];
        j := j + 1;
      }
      RootAtEnd(f, total, k);
      assert parent[k] == f.parent[k];
      DepthFits(f, total, i);
      len[i - 1] := j;
      if j > maxLen {
        tooLong := true;
      }
      assert Lengths(f)[i - 1] == j;
    }
    assert len[..alphaSize] == Lengths(f);
  }

  lemma CompleteShape(f: Forest, total: int)
    requires Complete(f, total)
    ensures f.n >= 2 && |f.parent| == 2 * f.n
  {
  }

  /** The smallest weights that could be given to the builder. */
  function Counts(freq: seq<int>): (s: seq<int>)
    ensures |s| == |freq| && forall i :: 0 <= i < |s| ==> s[i] == if freq[i] == 0 then 1 else freq[i]
  {
    seq(|freq|, i requires 0 <= i < |freq| => if freq[i] == 0 then 1 else freq[i])
  }

  /** The frequencies are whole, and with zeros counted as ones their sum leaves room for the packed height. */
  ghost predicate Countable(freq: seq<int>) {
    (forall i :: 0 <= i < |freq| ==> freq[i] >= 0) && Sum(Counts(freq)) < MAX_TOTAL
  }

  lemma PackUsable(freq: seq<int>, leaves: seq<int>)
    requires Countable(freq) && |leaves| == |freq|
    requires forall i :: 0 <= i < |leaves| ==> leaves[i] == 256 * Counts(freq)[i]
    ensures Usable(leaves) && Frequencies(leaves) == Counts(freq)
  {
    hide Sum;
    assert Frequencies(leaves) == Counts(freq);
  }

  lemma CountFits(freq: seq<int>, i: nat)
    requires Countable(freq) && i < |freq|
    ensures 1 <= Counts(freq)[i] < MAX_TOTAL
  {
    SumTerm(Counts(freq), i);
  }

  /** Lengths that form a complete prefix code. */
  ghost predicate CompleteCode(len: seq<int>, maxLen: nat) {
    && (forall i :: 0 <= i < |len| ==> 1 <= len[i] <= maxLen)
    && KraftSum(len, maxLen) == Pow2(maxLen)
  }

  /** Each weight halved, and none of them nothing. */
  function Halved(w: seq<int>): (s: seq<int>)
    ensures |s| == |w| && forall i :: 0 <= i < |s| ==> s[i] == 1 + w[i] / 2
  {
    seq(|w|, i requires 0 <= i < |w| => 1 + w[i] / 2)
  }

  function HalvedBy(w: seq<int>, rounds: nat): (s: seq<int>)
    ensures |s| == |w|
  {
    if rounds == 0 then w else Halved(HalvedBy(w, rounds - 1))
  }

  lemma HalvedFrequencies(leaves: seq<int>, w: seq<int>, rounds: nat)
    requires Frequencies(leaves) == HalvedBy(w, rounds)
    ensures Frequencies(Scaled(leaves)) == HalvedBy(w, rounds + 1)
  {
    assert Frequencies(Scaled(leaves)) == Halved(Frequencies(leaves));
  }

  /** Lengths that are the best for the weights, and too long. */
  ghost predicate Refused(w: seq<int>, len: seq<int>, maxLen: int) {
    Optimal(w, len) && exists i :: 0 <= i < |len| && len[i] > maxLen
  }

  lemma NowRefused(w: seq<int>, len: seq<int>, maxLen: int)
    requires Optimal(w, len) && exists i :: 0 <= i < |len| && len[i] > maxLen
    ensures Refused(w, len, maxLen)
  {
    hide Optimal;
  }

  /** The counts as packed weights, zeros as ones. */
  method PackCounts(weight: array<i32>, freq: seq<int>, alphaSize: int)
    requires 2 <= alphaSize == |freq| <= MAX_ALPHA_SIZE && weight.Length == MAX_ALPHA_SIZE * 2 && Countable(freq)
    modifies weight
    ensures Usable(weight[1..alphaSize + 1]) && Frequencies(weight[1..alphaSize + 1]) == Counts(freq)
  {
    hide Frequencies, Usable, Countable;
    for i := 0 to alphaSize
      invariant forall k :: 0 <= k < i ==> weight[k + 1] == 256 * Counts(freq)[k]
    {
      CountFits(freq, i);
      weight[i + 1] := (if freq[i] == 0 then 1 else freq[i]) * 256;
    }
    PackUsable(freq, weight[1..alphaSize + 1]);
  }

  /**
   * Code lengths of at most maxLen bits; the best there are for the frequencies, halved as often as there were lengths
   * tried before that were too long.
   */
  method MakeCodeLengths(len: array<byte>, freq: seq<int>, alphaSize: int, maxLen: int) returns (ghost tried: seq<seq<int>>)
    requires 2 <= alphaSize <= MAX_ALPHA_SIZE && alphaSize == |freq| && alphaSize <= len.Length
    requires Countable(freq) && maxLen >= 0 && Growth(maxLen + 1) > 2 * alphaSize
    modifies len
    ensures CompleteCode(len[..alphaSize], maxLen)
    ensures Optimal(HalvedBy(Counts(freq), |tried|), len[..alphaSize])
    ensures forall r {:trigger tried[r]} :: 0 <= r < |tried| ==> Refused(HalvedBy(Counts(freq), r), tried[r], maxLen)
    ensures Sum(Counts(freq)) < Growth(maxLen + 1) ==> tried == []
    ensures len[alphaSize..] == old(len[alphaSize..])
  {
    hide Sum, Frequencies, Usable, Countable, Scaled, Lengths, Complete, Optimal, HalvedBy, CompleteCode, Growth, Refused, AllRefused;
    var weight, parent := new i32[MAX_ALPHA_SIZE * 2], new i32[MAX_ALPHA_SIZE * 2];
    PackCounts(weight, freq, alphaSize);
    tried := [];
    NotHalved(Counts(freq), maxLen);
    while true
      invariant Frequencies(weight[1..alphaSize + 1]) == HalvedBy(Counts(freq), |tried|) && (tried != [] ==> Sum(Counts(freq)) >= Growth(maxLen + 1))
      invariant AllRefused(Counts(freq), tried, maxLen)
      invariant Usable(weight[1..alphaSize + 1])
      invariant len[alphaSize..] == old(len[alphaSize..])
      decreases Sum(Frequencies(weight[1..alphaSize + 1]))
    {
      ghost var leaves := weight[1..alphaSize + 1];
      ghost var f := BuildTree(weight, parent, alphaSize);
      var tooLong := Measure(parent, len, alphaSize, maxLen, f, Sum(Frequencies(leaves)));
      LengthsOptimal(f, Sum(Frequencies(leaves)));
      if !tooLong {
        Finished(f, Sum(Frequencies(leaves)), maxLen);
        RefusedAll(Counts(freq), tried, maxLen);
        break;
      }
      TooLong(f, leaves, maxLen);
      RefusedNext(Lengths(f), leaves, Counts(freq), tried, maxLen);
      ScaleDown(weight, alphaSize);
      tried := tried + [Lengths(f)];
    }
  }

  /** Before every halving there were lengths that were the best and too long. */
  ghost predicate AllRefused(w: seq<int>, tried: seq<seq<int>>, maxLen: int) {
    forall r {:trigger tried[r]} :: 0 <= r < |tried| ==> Refused(HalvedBy(w, r), tried[r], maxLen)
  }

  lemma NotHalved(w: seq<int>, maxLen: int)
    ensures HalvedBy(w, 0) == w && AllRefused(w, [], maxLen)
  {
  }

  lemma RefusedAll(w: seq<int>, tried: seq<seq<int>>, maxLen: int)
    requires AllRefused(w, tried, maxLen)
    ensures forall r {:trigger tried[r]} :: 0 <= r < |tried| ==> Refused(HalvedBy(w, r), tried[r], maxLen)
  {
    hide Refused, HalvedBy;
  }

  lemma RefusedNext(len: seq<int>, leaves: seq<int>, w: seq<int>, tried: seq<seq<int>>, maxLen: int)
    requires Optimal(Frequencies(leaves), len) && exists i :: 0 <= i < |len| && len[i] > maxLen
    requires AllRefused(w, tried, maxLen) && Frequencies(leaves) == HalvedBy(w, |tried|)
    ensures AllRefused(w, tried + [len], maxLen) && Frequencies(Scaled(leaves)) == HalvedBy(w, |tried| + 1)
    ensures tried == [] ==> Frequencies(leaves) == w
  {
    hide Refused, Optimal, HalvedBy, Scaled, Frequencies;
    NowRefused(Frequencies(leaves), len, maxLen);
    HalvedFrequencies(leaves, w, |tried|);
    NotHalved(w, maxLen);
  }

  lemma Finished(f: Forest, total: int, maxLen: nat)
    requires Complete(f, total) && forall i :: 0 <= i < f.n ==> Lengths(f)[i] <= maxLen
    ensures CompleteCode(Lengths(f), maxLen)
  {
    LengthsPositive(f, total);
    LengthsComplete(f, total, maxLen);
  }

  lemma TooLong(f: Forest, leaves: seq<int>, maxLen: int)
    requires Usable(leaves) && Complete(f, Sum(Frequencies(leaves))) && maxLen >= 0 && Growth(maxLen + 1) > 2 * |leaves|
    requires exists i :: 0 <= i < f.n && Lengths(f)[i] > maxLen
    ensures Usable(Scaled(leaves)) && 0 <= Sum(Frequencies(Scaled(leaves))) < Sum(Frequencies(leaves)) && Sum(Frequencies(leaves)) >= Growth(maxLen + 1)
  {
    hide Growth;
    var i :| 0 <= i < f.n && Lengths(f)[i] > maxLen;
    LongCodesAreHeavy(f, Sum(Frequencies(leaves)), i + 1, maxLen);
    ScalingLowers(leaves);
    SumNonNegative(Frequencies(Scaled(leaves)));
  }

  /** Halves every weight, rounding so that none vanishes. */
  method ScaleDown(weight: array<i32>, alphaSize: int)
    requires weight.Length == MAX_ALPHA_SIZE * 2 && 2 <= alphaSize <= MAX_ALPHA_SIZE && Usable(weight[1..alphaSize + 1])
    modifies weight
    ensures weight[1..alphaSize + 1] == Scaled(old(weight[1..alphaSize + 1]))
  {
    ghost var leaves := weight[1..alphaSize + 1];
    for i := 1 to alphaSize + 1
      invariant forall k :: 1 <= k < i ==> weight[k] == Scaled(leaves)[k - 1]
      invariant forall k :: i <= k <= alphaSize ==> weight[k] == leaves[k - 1]
    {
      var j := weight[i] / 256;
      j := 1 + j / 2;
      weight[i] := j * 256;
    }
    assert weight[1..alphaSize + 1] == Scaled(leaves);
  }
}
