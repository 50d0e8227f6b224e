// The forest the code-length builder merges into one tree: packed weights,
// parent links, and why the pop order keeps the tree shallow.
module HuffmanTree {
  import opened Words
  import opened Sums
  import opened Kraft

  const MAX_TOTAL := 0x80_0000  // packed sums below this fit a signed 32-bit integer

  function Max(x: int, y: int): int { if x > y then x else y }

  function WeightOf(z: nat): nat { And(z, 0xffff_ff00) }

  function DepthOf(z: nat): nat { And(z, 0x0000_00ff) }

  /** Packed weight of a merged node: the weights add up, the depth is one more than the deeper one. */
  function AddWeights(x: nat, y: nat): nat {
    Or(WeightOf(x) + WeightOf(y), 1 + Max(DepthOf(x), DepthOf(y)))
  }

  /** The frequency part of a packed weight. */
  function W(x: int): int { x / 256 }

  /** The height part of a packed weight. */
  function D(x: int): int { x % 256 }

  lemma UnpackFields(x: nat)
    requires x < 256 * MAX_TOTAL
    ensures WeightOf(x) == 256 * W(x) && DepthOf(x) == D(x)
  {
    hide And, Pow2, Shr, Shl;
    LowByte(x);
    HighMask();
    AndShifted(x, 0xff_ffff, 8);
    Pow2Of24();
    AndMask(x / 256, 24);
    ShlMul(x / 256, 8);
    assert (x / 256) % 0x100_0000 == x / 256;
  }

  lemma HighMask()
    ensures Shl(0xff_ffff, 8) == 0xffff_ff00
  {
    hide Shl;
    Pow2Of24();
    ShlMul(0xff_ffff, 8);
  }

  lemma Pow2Of24()
    ensures Pow2(24) == 0x100_0000 && Pow2(8) == 256
  {
    Pow2Of32();
    Pow2Add(8, 8);
    Pow2Add(16, 8);
  }

  lemma AddWeightsFields(x: nat, y: nat)
    requires W(x) + W(y) < MAX_TOTAL && D(x) < 255 && D(y) < 255
    ensures W(AddWeights(x, y)) == W(x) + W(y)
    ensures D(AddWeights(x, y)) == 1 + Max(D(x), D(y))
    ensures AddWeights(x, y) == 256 * (W(x) + W(y)) + 1 + Max(D(x), D(y))
  {
    hide Or, Pow2, WeightOf, DepthOf;
    UnpackFields(x);
    UnpackFields(y);
    Pow2Of24();
    OrDisjoint(W(x) + W(y), 1 + Max(D(x), D(y)), 8);
  }

  /**
   * Nodes 1..n are the symbols, later ones merges; entry 0 is the sentinel. A root has parent -1.
   * left and right record, for a merge, which two nodes it joined.
   */
  datatype Forest = Forest(weight: seq<int>, parent: seq<int>, left: seq<int>, right: seq<int>, n: nat)

  ghost predicate Root(f: Forest, k: int) {
    1 <= k < |f.parent| && f.parent[k] == -1
  }

  /** A merge joins two different earlier nodes, which point back to it. */
  ghost predicate Joins(f: Forest, m: int)
    requires |f.weight| == |f.parent| == |f.left| == |f.right| && 0 <= m < |f.parent|
  {
    && 1 <= f.left[m] < m && 1 <= f.right[m] < m && f.left[m] != f.right[m]
    && f.parent[f.left[m]] == m && f.parent[f.right[m]] == m
  }

  /** Parent links lead to later merges that know their children. */
  ghost predicate Linked(f: Forest, k: int)
    requires |f.weight| == |f.parent| == |f.left| == |f.right| && 0 <= k < |f.parent|
  {
    || f.parent[k] == -1
    || (f.n < f.parent[k] < |f.parent| && k < f.parent[k] && (f.left[f.parent[k]] == k || f.right[f.parent[k]] == k))
  }

  ghost predicate Shape(f: Forest) {
    && |f.weight| == |f.parent| == |f.left| == |f.right| >= f.n + 1
    && f.weight[0] == 0 && f.parent[0] == -2
    && (forall k {:trigger Linked(f, k)} :: 1 <= k < |f.parent| ==> Linked(f, k))
    && (forall m {:trigger Joins(f, m)} :: f.n < m < |f.parent| ==> Joins(f, m))
  }

  /** Slowest growth of weight with height: weights at least double every two levels. */
  function Growth(h: nat): nat {
    if h < 2 then h + 1 else 2 * Growth(h - 2) + 1
  }

  /** A merge carries the sum of its children's weights and one more than their height; tall nodes are heavy. */
  ghost predicate Weighed(f: Forest, k: int)
    requires |f.weight| == |f.parent| == |f.left| == |f.right| && 0 < k < |f.parent|
  {
    && f.weight[k] >= 256 && W(f.weight[k]) >= Growth(D(f.weight[k]))
    && (k <= f.n ==> D(f.weight[k]) == 0)
    && (k > f.n && Joins(f, k) ==>
          && W(f.weight[k]) == W(f.weight[f.left[k]]) + W(f.weight[f.right[k]])
          && D(f.weight[k]) == 1 + Max(D(f.weight[f.left[k]]), D(f.weight[f.right[k]])))
  }

  ghost predicate Weights(f: Forest)
    requires Shape(f)
  {
    forall k {:trigger Weighed(f, k)} :: 1 <= k < |f.parent| ==> Weighed(f, k)
  }

  /** Nodes are merged in order of weight: whatever was merged earlier is no heavier. */
  ghost predicate Before(f: Forest, a: int, b: int)
    requires |f.weight| == |f.parent| && 0 <= a < |f.parent| && 0 <= b < |f.parent|
  {
    f.parent[a] != -1 && (f.parent[b] == -1 || f.parent[a] < f.parent[b]) ==> f.weight[a] <= f.weight[b]
  }

  ghost predicate Monotone(f: Forest)
    requires Shape(f)
  {
    forall a, b {:trigger Before(f, a, b)} :: 1 <= a < |f.parent| && 1 <= b < |f.parent| ==> Before(f, a, b)
  }

  /** Weight of the roots, the other entries counted as zero. */
  ghost function RootWeights(f: Forest): (s: seq<int>)
    requires |f.weight| == |f.parent|
    ensures |s| == |f.parent|
    ensures forall k :: 0 <= k < |s| ==> s[k] == if f.parent[k] == -1 then W(f.weight[k]) else 0
  {
    seq(|f.parent|, k requires 0 <= k < |f.parent| => if f.parent[k] == -1 then W(f.weight[k]) else 0)
  }

  ghost predicate Sound(f: Forest, total: int) {
    && Shape(f) && Weights(f) && Monotone(f) && Sum(RootWeights(f)) == total && total < MAX_TOTAL
  }

  function Grow(f: Forest, a: nat, b: nat): Forest
    requires |f.weight| == |f.parent| && a < |f.parent| && b < |f.parent| && f.weight[a] >= 0 && f.weight[b] >= 0
  {
    Forest(f.weight + [AddWeights(f.weight[a], f.weight[b])],
           f.parent[a := |f.parent|][b := |f.parent|] + [-1],
           f.left + [a], f.right + [b], f.n)
  }

  /** a and b are the two lightest roots. */
  ghost predicate Lightest(f: Forest, a: int, b: int) {
    && |f.weight| == |f.parent| && Root(f, a) && Root(f, b) && a != b && f.weight[a] <= f.weight[b]
    && forall k :: Root(f, k) && k != a && k != b ==> f.weight[b] <= f.weight[k]
  }

  // Growth outruns the 24-bit weights long before the 8-bit height overflows.

  lemma {:induction false} GrowthMonotone(g: nat, h: nat)
    requires g <= h
    ensures Growth(g) <= Growth(h)
    decreases h
  {
    if g >= 2 {
      GrowthMonotone(g - 2, h - 2);
    } else if h >= 2 {
      GrowthMonotone(0, h - 2);
    }
  }

  lemma GrowthDoubles(h: nat)
    ensures Growth(h + 8) >= 16 * Growth(h)
  {
    assert Growth(h + 2) == 2 * Growth(h) + 1;
    assert Growth(h + 4) == 2 * Growth(h + 2) + 1;
    assert Growth(h + 6) == 2 * Growth(h + 4) + 1;
    assert Growth(h + 8) == 2 * Growth(h + 6) + 1;
  }

  lemma HeightBound(h: nat)
    requires Growth(h) < MAX_TOTAL
    ensures h < 48
  {
    hide Growth;
    GrowthAt48();
    if h >= 48 {
      GrowthMonotone(48, h);
    }
  }

  lemma GrowthAt48()
    ensures Growth(48) >= MAX_TOTAL
  {
    hide Growth;
    GrowthDoubles(0);
    GrowthDoubles(8);
    GrowthDoubles(16);
    GrowthDoubles(24);
    GrowthDoubles(32);
    GrowthDoubles(40);
    GrowthAt18();
    GrowthMonotone(0, 18);
    GrowthPositive(0);
  }

  lemma GrowthPositive(h: nat)
    ensures Growth(h) >= 1
  {
  }

  lemma GrowthAt18()
    ensures Growth(18) == 1023
  {
    assert Growth(2) == 3 && Growth(4) == 7 && Growth(6) == 15 && Growth(8) == 31;
    assert Growth(10) == 63 && Growth(12) == 127 && Growth(14) == 255 && Growth(16) == 511;
  }

  // Merging the two lightest roots.

  lemma RootBound(f: Forest, total: int, a: int, b: int)
    requires Sound(f, total) && Root(f, a) && Root(f, b) && a != b
    ensures W(f.weight[a]) + W(f.weight[b]) < MAX_TOTAL
    ensures f.weight[a] >= 256 && f.weight[b] >= 256
    ensures D(f.weight[a]) < 48 && D(f.weight[b]) < 48
  {
    var s := RootWeights(f);
    forall k | 0 <= k < |s| ensures s[k] >= 0 {
      if k > 0 {
        assert Weighed(f, k);
      }
    }
    SumTwoTerms(s, a, b);
    assert Weighed(f, a) && Weighed(f, b);
    HeightBound(D(f.weight[a]));
    HeightBound(D(f.weight[b]));
  }

  lemma GrowShape(f: Forest, a: nat, b: nat)
    requires Shape(f) && Root(f, a) && Root(f, b) && a != b && f.weight[a] >= 0 && f.weight[b] >= 0
    ensures Shape(Grow(f, a, b))
  {
    var g := Grow(f, a, b);
    forall k | 1 <= k < |g.parent| ensures Linked(g, k) {
      assert k < |f.parent| ==> Linked(f, k);
    }
    forall m | g.n < m < |g.parent| ensures Joins(g, m) {
      assert m < |f.parent| ==> Joins(f, m);
    }
  }

  lemma GrowTotal(f: Forest, a: nat, b: nat)
    requires Shape(f) && Root(f, a) && Root(f, b) && a != b && f.weight[a] >= 0 && f.weight[b] >= 0
    requires W(AddWeights(f.weight[a], f.weight[b])) == W(f.weight[a]) + W(f.weight[b])
    ensures Sum(RootWeights(Grow(f, a, b))) == Sum(RootWeights(f))
  {
    hide AddWeights;
    var g, s := Grow(f, a, b), RootWeights(f);
    var w := W(AddWeights(f.weight[a], f.weight[b]));
    assert RootWeights(g) == s[a := 0][b := 0] + [w];
    SumUpdate(s, a, 0);
    SumUpdate(s[a := 0], b, 0);
    SumSnoc(s[a := 0][b := 0], w);
  }

  lemma GrowMonotone(f: Forest, a: nat, b: nat)
    requires Shape(f) && Monotone(f) && Lightest(f, a, b) && f.weight[a] >= 0
    requires AddWeights(f.weight[a], f.weight[b]) >= f.weight[b]
    requires Shape(Grow(f, a, b))
    ensures Monotone(Grow(f, a, b))
  {
    hide AddWeights;
    var g := Grow(f, a, b);
    forall x, y | 1 <= x < |g.parent| && 1 <= y < |g.parent| ensures Before(g, x, y) {
      var n := |f.parent|;
      if x < n && y < n {
        assert Before(f, x, y);
        assert Linked(f, x) && Linked(f, y);
      } else if x < n {
        assert Before(f, x, b);
      }
    }
  }

  /** The merged node is at least twice as heavy, plus one, as anything two levels below it. */
  lemma GrandchildBound(f: Forest, total: int, a: nat, b: nat, x: nat, c: nat)
    requires Sound(f, total) && Lightest(f, a, b) && (x == a || x == b) && x > f.n
    requires c == f.left[x] || c == f.right[x]
    ensures 1 <= c < |f.parent| && W(f.weight[a]) + W(f.weight[b]) >= 2 * W(f.weight[c]) + 1
  {
    hide W, D, Growth;
    var u := if x == a then b else a;
    assert Joins(f, x) && Weighed(f, x);
    var s := if c == f.left[x] then f.right[x] else f.left[x];
    assert Weighed(f, s) && Weighed(f, c);
    assert Before(f, c, u);
    WMonotone(f.weight[c], f.weight[u]);
    WMonotone(256, f.weight[s]);
  }

  lemma WMonotone(x: int, y: int)
    requires x <= y
    ensures W(x) <= W(y) && W(256) == 1
  {
  }

  lemma GrowWeights(f: Forest, total: int, a: nat, b: nat)
    requires Sound(f, total) && Lightest(f, a, b) && f.weight[a] >= 0 && f.weight[b] >= 0
    requires W(AddWeights(f.weight[a], f.weight[b])) == W(f.weight[a]) + W(f.weight[b])
    requires D(AddWeights(f.weight[a], f.weight[b])) == 1 + Max(D(f.weight[a]), D(f.weight[b]))
    requires AddWeights(f.weight[a], f.weight[b]) >= 256
    requires Shape(Grow(f, a, b))
    ensures Weights(Grow(f, a, b))
  {
    hide AddWeights, Monotone, RootWeights, Sum, W, D, Growth;
    var g, m := Grow(f, a, b), |f.parent|;
    GrowHeavy(f, total, a, b);
    forall k | 1 <= k < |g.parent| ensures Weighed(g, k) {
      if k < m {
        assert Weighed(f, k);
        assert k > f.n ==> Joins(f, k);
      }
    }
  }

  lemma GrowHeavy(f: Forest, total: int, a: nat, b: nat)
    requires Sound(f, total) && Lightest(f, a, b)
    ensures W(f.weight[a]) + W(f.weight[b]) >= Growth(1 + Max(D(f.weight[a]), D(f.weight[b])))
  {
    hide Shape, Weights, Monotone, RootWeights, Growth, Sum, W, D;
    var x := if D(f.weight[a]) > D(f.weight[b]) then a else b;
    RootWeighed(f, total, a);
    RootWeighed(f, total, b);
    GrowthStep(D(f.weight[x]));
    if D(f.weight[x]) > 0 {
      var c := DeeperChild(f, total, x);
      GrandchildBound(f, total, a, b, x, c);
    }
  }

  lemma GrowthStep(h: nat)
    ensures h == 0 ==> Growth(1 + h) == 2
    ensures h > 0 ==> Growth(1 + h) == 2 * Growth(h - 1) + 1
  {
  }

  lemma RootWeighed(f: Forest, total: int, x: nat)
    requires Sound(f, total) && Root(f, x)
    ensures W(f.weight[x]) >= 1 && 0 <= D(f.weight[x])
  {
    assert Weighed(f, x);
  }

  lemma DeeperChild(f: Forest, total: int, x: nat) returns (c: nat)
    requires Sound(f, total) && Root(f, x) && D(f.weight[x]) > 0
    ensures x > f.n && (c == f.left[x] || c == f.right[x]) && 1 <= c < |f.parent|
    ensures D(f.weight[c]) == D(f.weight[x]) - 1 && W(f.weight[c]) >= Growth(D(f.weight[c]))
  {
    hide Growth, W, D;
    assert Weighed(f, x);
    assert x > f.n ==> Joins(f, x);
    c := if D(f.weight[f.left[x]]) > D(f.weight[f.right[x]]) then f.left[x] else f.right[x];
    assert Weighed(f, c);
  }

  lemma GrowSound(f: Forest, total: int, a: nat, b: nat)
    requires Sound(f, total) && Lightest(f, a, b)
    ensures f.weight[a] >= 0 && f.weight[b] >= 0
    ensures Sound(Grow(f, a, b), total)
    ensures AddWeights(f.weight[a], f.weight[b]) > f.weight[b]
  {
    hide AddWeights, Weights, Monotone, RootWeights, Sum, Growth;
    RootBound(f, total, a, b);
    AddWeightsFields(f.weight[a], f.weight[b]);
    GrowShape(f, a, b);
    GrowTotal(f, a, b);
    GrowMonotone(f, a, b);
    GrowWeights(f, total, a, b);
  }

  // Starting point.

  function Start(leaves: seq<int>): Forest {
    Forest([0] + leaves, [-2] + seq(|leaves|, i => -1), seq(|leaves| + 1, i => 0), seq(|leaves| + 1, i => 0), |leaves|)
  }

  function Frequencies(leaves: seq<int>): (s: seq<int>)
    ensures |s| == |leaves| && forall i :: 0 <= i < |s| ==> s[i] == W(leaves[i])
  {
    seq(|leaves|, i requires 0 <= i < |leaves| => W(leaves[i]))
  }

  /** Whole frequencies of at least one, with a sum that fits. */
  ghost predicate Usable(leaves: seq<int>) {
    && (forall i :: 0 <= i < |leaves| ==> leaves[i] >= 256 && D(leaves[i]) == 0)
    && Sum(Frequencies(leaves)) < MAX_TOTAL
  }

  lemma StartSound(leaves: seq<int>)
    requires Usable(leaves)
    ensures Sound(Start(leaves), Sum(Frequencies(leaves)))
  {
    var f := Start(leaves);
    assert Shape(f);
    assert RootWeights(f) == [0] + Frequencies(leaves);
    SumPad(Frequencies(leaves));
  }

  // The finished tree.

  /** All symbols under the single root 2n - 1. */
  ghost predicate Complete(f: Forest, total: int) {
    && Sound(f, total) && f.n >= 2 && |f.parent| == 2 * f.n
    && (forall k :: Root(f, k) <==> k == 2 * f.n - 1)
  }

  /** Number of parent links above node k. */
  function Depth(parent: seq<int>, k: nat): nat
    requires k < |parent|
    decreases |parent| - k
  {
    if k < parent[k] < |parent| then 1 + Depth(parent, parent[k]) else 0
  }

  lemma {:induction false} DepthBound(parent: seq<int>, k: nat)
    requires k < |parent|
    ensures Depth(parent, k) < |parent| - k
    decreases |parent| - k
  {
    if k < parent[k] < |parent| {
      DepthBound(parent, parent[k]);
    }
  }

  lemma RootAtEnd(f: Forest, total: int, k: nat)
    requires Complete(f, total) && 1 <= k < |f.parent|
    ensures if k == |f.parent| - 1 then f.parent[k] == -1 && Depth(f.parent, k) == 0
            else k < f.parent[k] < |f.parent| && Depth(f.parent, k) == 1 + Depth(f.parent, f.parent[k])
  {
    assert Linked(f, k);
    assert Root(f, k) <==> k == 2 * f.n - 1;
  }

  /** The root is at least as tall as any node is deep. */
  lemma {:induction false} HeightCoversDepth(f: Forest, total: int, k: nat)
    requires Complete(f, total) && 1 <= k < |f.parent|
    ensures D(f.weight[|f.parent| - 1]) >= Depth(f.parent, k) + D(f.weight[k])
    decreases |f.parent| - k
  {
    hide D, Growth, RootWeights;
    RootAtEnd(f, total, k);
    if k < |f.parent| - 1 {
      var p := f.parent[k];
      assert Linked(f, k) && Joins(f, p) && Weighed(f, p);
      HeightCoversDepth(f, total, p);
    }
  }

  /** A code of more than maxLen bits needs a large total weight: at least 1023 for more than 17 bits. */
  lemma LongCodesAreHeavy(f: Forest, total: int, k: nat, maxLen: nat)
    requires Complete(f, total) && 1 <= k <= f.n && Depth(f.parent, k) > maxLen
    ensures total >= Growth(maxLen + 1) && Growth(18) == 1023
  {
    hide Growth, Sum;
    var r := |f.parent| - 1;
    HeightCoversDepth(f, total, k);
    assert Weighed(f, r);
    GrowthAt18();
    GrowthMonotone(maxLen + 1, D(f.weight[r]));
    var s := RootWeights(f);
    forall i | 0 <= i < |s| ensures s[i] >= 0 {
      assert i > 0 ==> Weighed(f, i);
    }
    assert Root(f, r);
    SumTerm(s, r);
  }

  /** Nodes up to m whose parent is not, each with its share of the codes. */
  ghost function Frontier(parent: seq<int>, m: nat, d: nat): (s: seq<int>)
    requires m < |parent|
    ensures |s| == m + 1
    ensures forall k :: 0 <= k <= m ==> s[k] == if k == 0 || k < parent[k] <= m then 0 else Share(d, Depth(parent, k))
  {
    seq(m + 1, k requires 0 <= k <= m => if k == 0 || k < parent[k] <= m then 0 else Share(d, Depth(parent, k)))
  }

  /** Replacing a merge by its two children keeps the sum. */
  lemma FrontierStep(f: Forest, total: int, m: nat, d: nat)
    requires Complete(f, total) && f.n < m < |f.parent| && d >= |f.parent|
    ensures Sum(Frontier(f.parent, m - 1, d)) == Sum(Frontier(f.parent, m, d))
  {
    hide Depth, Share, Frontier, Weights, Monotone, RootWeights, Sum;
    var a := Frontier(f.parent, m, d);
    var x, l, r := Share(d, 1 + Depth(f.parent, m)), f.left[m], f.right[m];
    RootAtEnd(f, total, m);
    ReplacedFrontier(f, total, m, d);
    SumUpdate(a[..m], l, x);
    SumUpdate(a[..m][l := x], r, x);
    DepthBound(f.parent, m);
    HalfShare(d, Depth(f.parent, m));
    SumSnoc(a[..m], a[m]);
    assert a == a[..m] + [a[m]];
  }

  lemma ReplacedFrontier(f: Forest, total: int, m: nat, d: nat)
    requires Complete(f, total) && f.n < m < |f.parent| && d >= |f.parent|
    ensures 1 <= f.left[m] < m && 1 <= f.right[m] < m && f.left[m] != f.right[m]
    ensures var x := Share(d, 1 + Depth(f.parent, m)); var a := Frontier(f.parent, m, d);
            Frontier(f.parent, m - 1, d) == a[..m][f.left[m] := x][f.right[m] := x] && a[f.left[m]] == 0 && a[f.right[m]] == 0
  {
    hide Depth, Share, Frontier, Weights, Monotone, RootWeights, Sum;
    var a, b := Frontier(f.parent, m, d), Frontier(f.parent, m - 1, d);
    var x, l, r := Share(d, 1 + Depth(f.parent, m)), f.left[m], f.right[m];
    assert Joins(f, m) && Linked(f, m);
    RootAtEnd(f, total, l);
    RootAtEnd(f, total, r);
    var c := a[..m][l := x][r := x];
    forall k | 0 <= k < m ensures b[k] == c[k] {
      assert k > 0 ==> Linked(f, k);
    }
    assert b == c;
  }

  lemma HalfShare(d: nat, l: nat)
    requires l < d
    ensures Share(d, l) == 2 * Share(d, l + 1)
  {
  }

  lemma WholeShare(d: nat)
    ensures Share(d, 0) == Pow2(d)
  {
  }

  /** Once all nodes are in, only the root counts. */
  lemma LastFrontier(f: Forest, total: int, m: nat, d: nat)
    requires Complete(f, total) && f.n <= m && m + 1 == |f.parent| && d >= |f.parent|
    ensures Sum(Frontier(f.parent, m, d)) == Pow2(d)
  {
    hide Frontier, Weights, Monotone, RootWeights, Depth, Complete, Share, Pow2;
    var a := Frontier(f.parent, m, d);
    forall k | 0 <= k < m ensures a[k] == 0 {
      if k > 0 {
        RootAtEnd(f, total, k);
      }
    }
    SumZero(a[..m]);
    CompleteSize(f, total);
    RootAtEnd(f, total, m);
    WholeShare(d);
    assert a[|a| - 1] == Share(d, 0);
  }

  lemma {:induction false} FrontierSum(f: Forest, total: int, m: nat, d: nat)
    requires Complete(f, total) && f.n <= m < |f.parent| && d >= |f.parent|
    ensures Sum(Frontier(f.parent, m, d)) == Pow2(d)
    decreases |f.parent| - m
  {
    hide *;
    if m + 1 == |f.parent| {
      LastFrontier(f, total, m, d);
    } else {
      FrontierSum(f, total, m + 1, d);
      FrontierStep(f, total, m + 1, d);
    }
  }

  /** Depths of the symbols. */
  function Lengths(f: Forest): (s: seq<int>)
    requires f.n < |f.parent|
    ensures |s| == f.n && forall i :: 0 <= i < |s| ==> s[i] == Depth(f.parent, i + 1)
  {
    seq(f.n, i requires 0 <= i < f.n => Depth(f.parent, i + 1))
  }

  lemma LengthsPositive(f: Forest, total: int)
    requires Complete(f, total)
    ensures forall i :: 0 <= i < f.n ==> Lengths(f)[i] >= 1
  {
    forall i | 0 <= i < f.n ensures Lengths(f)[i] >= 1 {
      RootAtEnd(f, total, i + 1);
    }
  }

  /** The symbols' depths satisfy the Kraft equality. */
  lemma LengthsComplete(f: Forest, total: int, d: nat)
    requires Complete(f, total) && forall i :: 0 <= i < f.n ==> Lengths(f)[i] <= d
    ensures KraftSum(Lengths(f), d) == Pow2(d)
  {
    hide Complete, Frontier, Depth, Weights, Monotone, RootWeights, Share, Pow2, Sum;
    var e := |f.parent|;
    CompleteSize(f, total);
    FrontierSum(f, total, f.n, d + e);
    LeafFrontier(f, total, d + e);
    SumPad(Shares(Lengths(f), d + e));
    KraftScale(Lengths(f), d, e);
  }

  lemma CompleteSize(f: Forest, total: int)
    requires Complete(f, total)
    ensures 1 <= f.n < |f.parent|
  {
  }

  /** Before any merge, the frontier is the leaves. */
  lemma LeafFrontier(f: Forest, total: int, d: nat)
    requires Complete(f, total)
    ensures f.n < |f.parent| && Frontier(f.parent, f.n, d) == [0] + Shares(Lengths(f), d)
  {
    hide Depth, Weights, Monotone, RootWeights, Share, Pow2, Sum;
    var a, s := Frontier(f.parent, f.n, d), Shares(Lengths(f), d);
    forall k | 1 <= k <= f.n ensures a[k] == s[k - 1] {
      assert Linked(f, k);
    }
  }

  // Scaling the frequencies down.

  function Scaled(leaves: seq<int>): (s: seq<int>)
    ensures |s| == |leaves| && forall i :: 0 <= i < |s| ==> s[i] == 256 * (1 + W(leaves[i]) / 2)
  {
    seq(|leaves|, i requires 0 <= i < |leaves| => 256 * (1 + W(leaves[i]) / 2))
  }

  /** When the total is large, scaling strictly lowers it. */
  lemma ScalingLowers(leaves: seq<int>)
    requires Usable(leaves) && Sum(Frequencies(leaves)) > 2 * |leaves|
    ensures Usable(Scaled(leaves))
    ensures Sum(Frequencies(Scaled(leaves))) < Sum(Frequencies(leaves))
  {
    var a, b := Frequencies(Scaled(leaves)), Frequencies(leaves);
    forall i | 0 <= i < |a| ensures a[i] == 1 + b[i] / 2 && a[i] <= b[i] && (b[i] >= 3 ==> a[i] < b[i]) {}
    if forall i :: 0 <= i < |b| ==> b[i] <= 2 {
      SumUpper(b, 2);
    }
    SumMonotone(a, b);
  }
}
