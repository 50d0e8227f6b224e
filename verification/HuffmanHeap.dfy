// The binary heap of node numbers, ordered by packed weight. Entry 0 is a
// sentinel of weight 0, so that sifting up stops at the top.
module HuffmanHeap {
  import opened Words
  import opened Perm

  /** Entry i is no lighter than the entry above it. */
  ghost predicate Under(h: seq<int>, w: seq<int>, i: int) {
    1 <= i < |h| && 0 <= h[i / 2] < |w| && 0 <= h[i] < |w| && w[h[i / 2]] <= w[h[i]]
  }

  /** Entry i is no lighter than the one two levels up. */
  ghost predicate UnderGrand(h: seq<int>, w: seq<int>, i: int) {
    1 <= i < |h| && 0 <= h[i / 2 / 2] < |w| && 0 <= h[i] < |w| && w[h[i / 2 / 2]] <= w[h[i]]
  }

  /** Entries 1..n are the members of nodes, each once. */
  ghost predicate Lists(h: seq<int>, n: int, nodes: set<int>) {
    && 0 <= n < |h| && h[0] == 0 && |nodes| == n && 0 !in nodes
    && (forall i {:trigger h[i]} :: 1 <= i <= n ==> h[i] in nodes)
    && (forall i, j {:trigger h[i], h[j]} :: 1 <= i < j <= n ==> h[i] != h[j])
  }

  /** All nodes are entries of the weight table, which starts with the sentinel. */
  ghost predicate Weighted(w: seq<int>, nodes: set<int>) {
    |w| > 0 && w[0] == 0 && forall x {:trigger x in nodes} :: x in nodes ==> 0 < x < |w| && w[x] > 0
  }

  /** Heap order except between entry z and its neighbours; skipping z the order still holds. */
  ghost predicate OrderedBut(h: seq<int>, w: seq<int>, n: int, z: int) {
    && (forall i {:trigger Under(h, w, i)} :: 1 <= i <= n && i != z && i / 2 != z ==> Under(h, w, i))
    && (forall i {:trigger UnderGrand(h, w, i)} :: 1 <= i <= n && i / 2 == z ==> UnderGrand(h, w, i))
  }

  ghost predicate Ordered(h: seq<int>, w: seq<int>, n: int) {
    forall i {:trigger Under(h, w, i)} :: 1 <= i <= n ==> Under(h, w, i)
  }

  ghost predicate Heap(h: seq<int>, w: seq<int>, n: int, nodes: set<int>) {
    Lists(h, n, nodes) && Weighted(w, nodes) && Ordered(h, w, n)
  }

  /** The top entry is a lightest one. */
  lemma {:induction false} TopIsLightest(h: seq<int>, w: seq<int>, n: int, nodes: set<int>, i: int)
    requires Heap(h, w, n, nodes) && 1 <= i <= n
    ensures w[h[1]] <= w[h[i]]
    decreases i
  {
    if i > 1 {
      TopIsLightest(h, w, n, nodes, i / 2);
      assert Under(h, w, i);
    }
  }

  /** Every node is listed. */
  lemma Listed(h: seq<int>, n: int, nodes: set<int>, x: int) returns (i: int)
    requires Lists(h, n, nodes) && x in nodes
    ensures 1 <= i <= n && h[i] == x
  {
    var s := h[1..n + 1];
    assert forall k :: 0 <= k < n ==> s[k] == h[k + 1];
    DistinctElems(s);
    forall y | y in Elems(s) ensures y in nodes {
      var k :| 0 <= k < |s| && s[k] == y;
      assert h[k + 1] in nodes;
    }
    SubsetCard(Elems(s), nodes);
    var k :| 0 <= k < |s| && s[k] == x;
    i := k + 1;
  }

  lemma Lightest(h: seq<int>, w: seq<int>, n: int, nodes: set<int>, x: int)
    requires Heap(h, w, n, nodes) && x in nodes
    ensures n >= 1 && h[1] in nodes && w[h[1]] <= w[x]
  {
    var i := Listed(h, n, nodes, x);
    TopIsLightest(h, w, n, nodes, i);
  }

  /** Moving tmp from entry z to entry y, whose own entry goes to z. */
  lemma SwapLists(h: seq<int>, n: int, nodes: set<int>, z: int, y: int)
    requires Lists(h, n, nodes) && 1 <= z <= n && 1 <= y <= n
    ensures Lists(h[z := h[y]][y := h[z]], n, nodes)
  {
  }

  /** One step up. */
  lemma SwapUp(h: seq<int>, w: seq<int>, n: int, nodes: set<int>, z: int)
    requires Lists(h, n, nodes) && Weighted(w, nodes) && 2 <= z <= n
    requires OrderedBut(h, w, n, z) && (forall i {:trigger Under(h, w, i)} :: 1 <= i <= n && i / 2 == z ==> Under(h, w, i))
    requires 0 <= h[z / 2] < |w| && w[h[z]] < w[h[z / 2]]
    ensures var g := h[z := h[z / 2]][z / 2 := h[z]];
            OrderedBut(g, w, n, z / 2) && (forall i {:trigger Under(g, w, i)} :: 1 <= i <= n && i / 2 == z / 2 ==> Under(g, w, i))
  {
    var y := z / 2;
    var g := h[z := h[y]][y := h[z]];
    assert h[z] in nodes && h[y] in nodes;
    forall i | 1 <= i <= n && i != y && (i / 2 != y || true) ensures Under(g, w, i) {
      assert i == z || i == y || g[i] == h[i];
      assert h[i] in nodes;
      if i / 2 == z {
        assert UnderGrand(h, w, i);
      } else if i != z {
        assert Under(h, w, i);
      }
    }
    forall i | 1 <= i <= n && i / 2 == y ensures UnderGrand(g, w, i) {
      assert h[i] in nodes;
      assert y != 1 || y / 2 == 0;
      assert Under(h, w, y);
      if i != z {
        assert Under(h, w, i);
      }
    }
  }

  /** Nothing left to do once the entry is no lighter than the one above. */
  lemma StopUp(h: seq<int>, w: seq<int>, n: int, z: int)
    requires OrderedBut(h, w, n, z) && (forall i {:trigger Under(h, w, i)} :: 1 <= i <= n && i / 2 == z ==> Under(h, w, i))
    requires Under(h, w, z)
    ensures Ordered(h, w, n)
  {
  }

  /** One step down, to the lighter child y. */
  lemma SwapDown(h: seq<int>, w: seq<int>, n: int, nodes: set<int>, z: int, y: int)
    requires Lists(h, n, nodes) && Weighted(w, nodes) && 1 <= z <= n && 1 <= y <= n && y / 2 == z
    requires OrderedBut(h, w, n, z) && Under(h, w, z)
    requires forall i {:trigger h[i]} :: 1 <= i <= n && i / 2 == z ==> 0 <= h[i] < |w| && w[h[y]] <= w[h[i]]
    requires w[h[y]] <= w[h[z]]
    ensures var g := h[z := h[y]][y := h[z]]; OrderedBut(g, w, n, y) && Under(g, w, y)
  {
    var g := h[z := h[y]][y := h[z]];
    assert h[z] in nodes && h[y] in nodes;
    assert UnderGrand(h, w, y);
    forall i | 1 <= i <= n && i != y && i / 2 != y ensures Under(g, w, i) {
      assert h[i] in nodes;
      if i / 2 != z && i != z {
        assert Under(h, w, i);
      }
    }
    forall i | 1 <= i <= n && i / 2 == y ensures UnderGrand(g, w, i) {
      assert h[i] in nodes;
      assert Under(h, w, i);
    }
  }

  lemma StopDown(h: seq<int>, w: seq<int>, n: int, nodes: set<int>, z: int)
    requires Lists(h, n, nodes) && Weighted(w, nodes) && 1 <= z <= n
    requires OrderedBut(h, w, n, z) && Under(h, w, z)
    requires forall i {:trigger h[i]} :: 1 <= i <= n && i / 2 == z ==> 0 <= h[i] < |w| && w[h[z]] <= w[h[i]]
    ensures Ordered(h, w, n)
  {
    assert h[z] in nodes;
    forall i | 1 <= i <= n && i / 2 == z ensures Under(h, w, i) {
      assert h[i] in nodes;
    }
  }

  lemma HeapFrame(h: seq<int>, w: seq<int>, w2: seq<int>, n: int, nodes: set<int>)
    requires Heap(h, w, n, nodes) && |w2| == |w|
    requires forall x {:trigger x in nodes} :: x in nodes ==> w2[x] == w[x]
    requires w2[0] == 0
    ensures Heap(h, w2, n, nodes)
  {
    forall i | 1 <= i <= n ensures Under(h, w2, i) {
      assert Under(h, w, i) && h[i] in nodes;
      if i >= 2 {
        assert h[i / 2] in nodes;
      }
    }
  }

  /** The entry at z rises until the one above it is no heavier. */
  method UpHeap(heap: array<i32>, weight: array<i32>, z: int, ghost nodes: set<int>)
    requires heap != weight && 1 <= z < heap.Length
    requires Lists(heap[..], z, nodes) && Weighted(weight[..], nodes)
    requires Ordered(heap[..], weight[..], z - 1)
    modifies heap
    ensures Heap(heap[..], weight[..], z, nodes)
  {
    hide Lists, Weighted, Ordered, OrderedBut, Under, UnderGrand;
    var zz, tmp := z, heap[z];
    ghost var g, w := heap[..], weight[..];
    StartUp(g, w, z, nodes);
    while weight[tmp] < weight[heap[zz / 2]]
      invariant 1 <= zz <= z && |g| == heap.Length && g[zz] == tmp
      invariant forall i :: 0 <= i < heap.Length && i != zz ==> heap[i] == g[i]
      invariant Lists(g, z, nodes) && Rising(g, w, z, zz)
      invariant 0 <= tmp < |w| && 0 <= heap[zz / 2] < |w|
      decreases zz
    {
      NotAtTop(g, w, z, nodes, zz);
      SwapUp(g, w, z, nodes, zz);
      SwapLists(g, z, nodes, zz, zz / 2);
      heap[zz] := heap[zz / 2];
      g := g[zz := g[zz / 2]][zz / 2 := g[zz]];
      zz := zz / 2;
      EntryAbove(g, w, z, nodes, zz);
    }
    MeetsUnder(g, w, z, zz);
    StopUp(g, w, z, zz);
    heap[zz] := tmp;
    assert heap[..] == g;
  }

  lemma MeetsUnder(h: seq<int>, w: seq<int>, n: int, z: int)
    requires 1 <= z <= n < |h| && 0 <= h[z] < |w| && 0 <= h[z / 2] < |w| && w[h[z / 2]] <= w[h[z]]
    ensures Under(h, w, z)
  {
  }

  /** The state while an entry rises. */
  ghost predicate Rising(h: seq<int>, w: seq<int>, n: int, z: int) {
    OrderedBut(h, w, n, z) && (forall i {:trigger Under(h, w, i)} :: 1 <= i <= n && i / 2 == z ==> Under(h, w, i))
  }

  lemma StartUp(h: seq<int>, w: seq<int>, n: int, nodes: set<int>)
    requires 1 <= n && Lists(h, n, nodes) && Weighted(w, nodes) && Ordered(h, w, n - 1)
    ensures Rising(h, w, n, n) && 0 <= h[n] < |w| && 0 <= h[n / 2] < |w|
  {
    assert h[n] in nodes;
    assert n >= 2 ==> h[n / 2] in nodes;
  }

  lemma EntryAbove(h: seq<int>, w: seq<int>, n: int, nodes: set<int>, z: int)
    requires 1 <= z <= n && Lists(h, n, nodes) && Weighted(w, nodes)
    ensures 0 <= h[z / 2] < |w|
  {
    assert z >= 2 ==> h[z / 2] in nodes;
  }

  lemma NotAtTop(h: seq<int>, w: seq<int>, n: int, nodes: set<int>, z: int)
    requires 1 <= z <= n && Lists(h, n, nodes) && Weighted(w, nodes)
    requires 0 <= h[z] < |w| && 0 <= h[z / 2] < |w| && w[h[z]] < w[h[z / 2]]
    ensures z >= 2
  {
    assert h[z] in nodes;
  }

  /** The entry at the top sinks until neither entry below is lighter. */
  method DownHeap(heap: array<i32>, weight: array<i32>, nHeap: int, ghost nodes: set<int>)
    requires heap != weight && 0 <= nHeap < heap.Length && heap.Length > 1
    requires Lists(heap[..], nHeap, nodes) && Weighted(weight[..], nodes)
    requires OrderedBut(heap[..], weight[..], nHeap, 1)
    modifies heap
    ensures Heap(heap[..], weight[..], nHeap, nodes)
  {
    hide Lists, Weighted, Ordered, OrderedBut, Under, UnderGrand;
    var zz, tmp := 1, heap[1];
    ghost var g, w := heap[..], weight[..];
    StartDown(g, w, nHeap, nodes);
    while true
      invariant 1 <= zz && (nHeap >= 1 ==> zz <= nHeap) && (nHeap == 0 ==> zz == 1)
      invariant |g| == heap.Length && g[zz] == tmp
      invariant forall i :: 0 <= i < heap.Length && i != zz ==> heap[i] == g[i]
      invariant Lists(g, nHeap, nodes) && OrderedBut(g, w, nHeap, zz) && (nHeap >= 1 ==> Under(g, w, zz))
      decreases nHeap - zz
    {
      var yy := zz * 2;
      if yy > nHeap {
        Childless(g, w, nHeap, nodes, zz);
        break;
      }
      EntryIn(g, w, nHeap, nodes, yy);
      EntryIn(g, w, nHeap, nodes, zz);
      if yy < nHeap {
        EntryIn(g, w, nHeap, nodes, yy + 1);
        if weight[heap[yy + 1]] < weight[heap[yy]] {
          yy := yy + 1;
        }
      }
      LighterChild(g, w, nHeap, nodes, zz, yy);
      if weight[tmp] < weight[heap[yy]] {
        StopDown(g, w, nHeap, nodes, zz);
        break;
      }
      SwapDown(g, w, nHeap, nodes, zz, yy);
      SwapLists(g, nHeap, nodes, zz, yy);
      heap[zz] := heap[yy];
      g := g[zz := g[yy]][yy := g[zz]];
      zz := yy;
    }
    heap[zz] := tmp;
    assert heap[..] == g;
  }

  lemma StartDown(h: seq<int>, w: seq<int>, n: int, nodes: set<int>)
    requires Lists(h, n, nodes) && Weighted(w, nodes)
    ensures n >= 1 ==> Under(h, w, 1)
  {
    assert n >= 1 ==> h[1] in nodes;
  }

  lemma EntryIn(h: seq<int>, w: seq<int>, n: int, nodes: set<int>, i: int)
    requires 1 <= i <= n && Lists(h, n, nodes) && Weighted(w, nodes)
    ensures 0 < h[i] < |w| && h[i] in nodes
  {
  }

  lemma Childless(h: seq<int>, w: seq<int>, n: int, nodes: set<int>, z: int)
    requires Lists(h, n, nodes) && Weighted(w, nodes)
    requires 1 <= z && 2 * z > n && (n >= 1 ==> z <= n && Under(h, w, z)) && OrderedBut(h, w, n, z)
    ensures Ordered(h, w, n)
  {
  }

  /** The child chosen is no heavier than its sibling. */
  lemma LighterChild(h: seq<int>, w: seq<int>, n: int, nodes: set<int>, z: int, y: int)
    requires Lists(h, n, nodes) && Weighted(w, nodes) && 1 <= z && 2 * z <= n
    requires h[2 * z] in nodes && (2 * z < n ==> h[2 * z + 1] in nodes)
    requires y == if 2 * z < n && w[h[2 * z + 1]] < w[h[2 * z]] then 2 * z + 1 else 2 * z
    ensures y / 2 == z && y <= n && h[y] in nodes
    ensures forall i {:trigger h[i]} :: 1 <= i <= n && i / 2 == z ==> 0 <= h[i] < |w| && w[h[y]] <= w[h[i]]
  {
    forall i | 1 <= i <= n && i / 2 == z ensures i == 2 * z || i == 2 * z + 1 {}
  }

  /** Removes a lightest node. */
  method Pop(heap: array<i32>, weight: array<i32>, nHeap: int, ghost nodes: set<int>) returns (top: i32)
    requires heap != weight && nHeap >= 1 && Heap(heap[..], weight[..], nHeap, nodes)
    modifies heap
    ensures top in nodes && (forall x {:trigger x in nodes} :: x in nodes ==> 0 <= top < weight.Length && 0 <= x < weight.Length && weight[top] <= weight[x])
    ensures Heap(heap[..], weight[..], nHeap - 1, nodes - {top as int})
  {
    hide Lists, Weighted, Ordered, OrderedBut, Under, UnderGrand;
    HeapLength(heap[..], weight[..], nHeap, nodes);
    top := heap[1];
    PopLast(heap[..], weight[..], nHeap, nodes);
    forall x | x in nodes ensures 0 <= top < weight.Length && 0 <= x < weight.Length && weight[top] <= weight[x] {
      Lightest(heap[..], weight[..], nHeap, nodes, x);
    }
    heap[1] := heap[nHeap];
    DownHeap(heap, weight, nHeap - 1, nodes - {top as int});
  }

  lemma HeapLength(h: seq<int>, w: seq<int>, n: int, nodes: set<int>)
    requires n >= 1 && Heap(h, w, n, nodes)
    ensures 1 <= n < |h| && h[1] in nodes && forall x {:trigger x in nodes} :: x in nodes ==> 0 < x < |w|
  {
  }

  lemma PopLast(h: seq<int>, w: seq<int>, n: int, nodes: set<int>)
    requires n >= 1 && Heap(h, w, n, nodes)
    ensures 1 <= n < |h| && Lists(h[1 := h[n]], n - 1, nodes - {h[1]}) && Weighted(w, nodes - {h[1]})
    ensures OrderedBut(h[1 := h[n]], w, n - 1, 1)
  {
    var g, rest := h[1 := h[n]], nodes - {h[1]};
    assert h[1] in nodes && h[n] in nodes;
    forall i | 1 <= i <= n - 1 && i != 1 && i / 2 != 1 ensures Under(g, w, i) {
      assert Under(h, w, i);
    }
    forall i | 1 <= i <= n - 1 && i / 2 == 1 ensures UnderGrand(g, w, i) {
      assert h[i] in nodes;
    }
  }

  /** Adds a node. */
  method Push(heap: array<i32>, weight: array<i32>, nHeap: int, x: i32, ghost nodes: set<int>)
    requires heap != weight && 0 <= nHeap < heap.Length - 1 && Heap(heap[..], weight[..], nHeap, nodes)
    requires x as int !in nodes && 0 < x < weight.Length && weight[x] > 0
    modifies heap
    ensures Heap(heap[..], weight[..], nHeap + 1, nodes + {x as int})
  {
    hide Under, UnderGrand;
    PushLast(heap[..], weight[..], nHeap, x, nodes);
    heap[nHeap + 1] := x;
    UpHeap(heap, weight, nHeap + 1, nodes + {x as int});
  }

  lemma PushLast(h: seq<int>, w: seq<int>, n: int, x: int, nodes: set<int>)
    requires Heap(h, w, n, nodes) && n + 1 < |h| && x !in nodes && 0 < x < |w| && w[x] > 0
    ensures Lists(h[n + 1 := x], n + 1, nodes + {x}) && Weighted(w, nodes + {x})
    ensures Ordered(h[n + 1 := x], w, n)
  {
    var g := h[n + 1 := x];
    forall i | 1 <= i <= n ensures Under(g, w, i) {
      assert Under(h, w, i);
    }
  }
}
