// Why merging the two lightest nodes gives the best lengths: no code has a
// smaller weighted sum of lengths.
module HuffmanOptimal {
  import opened Words
  import opened Sums
  import opened Kraft
  import opened HuffmanTree

  /** Node k is one of those up to m whose parent is not. */
  predicate InFront(parent: seq<int>, m: nat, k: int)
    requires m < |parent|
  {
    1 <= k <= m && !(k < parent[k] <= m)
  }

  /** What the nodes in front use up of the codes, if node k had length l[k]. */
  ghost function Used(parent: seq<int>, m: nat, l: seq<int>, d: nat): (s: seq<int>)
    requires m < |parent| == |l|
    ensures |s| == m + 1 && forall k :: 0 <= k <= m ==> s[k] == if InFront(parent, m, k) then Share(d, l[k]) else 0
  {
    seq(m + 1, k requires 0 <= k <= m => if InFront(parent, m, k) then Share(d, l[k]) else 0)
  }

  function Times(w: int, l: int): int {
    w * l
  }

  /** What the nodes in front cost with these lengths. */
  ghost function Paid(f: Forest, m: nat, l: seq<int>): (s: seq<int>)
    requires m < |f.parent| == |l| == |f.weight|
    ensures |s| == m + 1 && forall k :: 0 <= k <= m ==> s[k] == if InFront(f.parent, m, k) then Times(W(f.weight[k]), l[k]) else 0
  {
    seq(m + 1, k requires 0 <= k <= m => if InFront(f.parent, m, k) then Times(W(f.weight[k]), l[k]) else 0)
  }

  /** Lengths that a code for the nodes in front may have. */
  ghost predicate Allowed(parent: seq<int>, m: nat, l: seq<int>, d: nat) {
    && m < |parent| == |l|
    && (forall k {:trigger l[k]} :: 0 <= k <= m && InFront(parent, m, k) ==> 0 <= l[k] <= d)
    && Sum(Used(parent, m, l, d)) <= Pow2(d)
  }

  /** Every node has some weight. */
  ghost predicate Heavy(f: Forest) {
    |f.weight| == |f.parent| && forall k {:trigger f.weight[k]} :: 1 <= k < |f.weight| ==> W(f.weight[k]) >= 1
  }

  // Changing lengths.

  lemma SwapProducts(v: int, w: int, l: int, k: int)
    requires v <= w && l <= k
    ensures Times(v, k) + Times(w, l) <= Times(v, l) + Times(w, k)
  {
    assert (w - v) * (k - l) >= 0;
  }

  /** Giving the lighter of two nodes the greater length costs nothing. */
  lemma Swapped(f: Forest, m: nat, l: seq<int>, d: nat, i: nat, j: nat) returns (l2: seq<int>)
    requires |f.weight| == |f.parent| && Allowed(f.parent, m, l, d) && i != j && InFront(f.parent, m, i) && InFront(f.parent, m, j)
    requires W(f.weight[i]) <= W(f.weight[j]) && l[i] <= l[j]
    ensures Allowed(f.parent, m, l2, d) && l2 == l[i := l[j]][j := l[i]]
    ensures Sum(Paid(f, m, l2)) <= Sum(Paid(f, m, l)) && Sum(Used(f.parent, m, l2, d)) == Sum(Used(f.parent, m, l, d))
  {
    hide Sum, Share, Times, W;
    l2 := l[i := l[j]][j := l[i]];
    var u, u2 := Used(f.parent, m, l, d), Used(f.parent, m, l2, d);
    assert u2 == u[i := u[j]][j := u[i]];
    SumUpdate(u, i, u[j]);
    SumUpdate(u[i := u[j]], j, u[i]);
    var p, p2 := Paid(f, m, l), Paid(f, m, l2);
    var x, y := Times(W(f.weight[i]), l[j]), Times(W(f.weight[j]), l[i]);
    assert p2 == p[i := x][j := y];
    SumUpdate(p, i, x);
    SumUpdate(p[i := x], j, y);
    SwapProducts(W(f.weight[i]), W(f.weight[j]), l[i], l[j]);
  }

  /** A node of the greatest length. */
  lemma Longest(parent: seq<int>, m: nat, l: seq<int>, a: nat, but: int) returns (x: nat)
    requires m < |parent| == |l| && InFront(parent, m, a) && a != but
    ensures x <= m && InFront(parent, m, x) && x != but && forall k {:trigger l[k]} :: 0 <= k <= m && InFront(parent, m, k) && k != but ==> l[k] <= l[x]
  {
    x := a;
    for k := 0 to m + 1
      invariant x <= m && InFront(parent, m, x) && x != but
      invariant forall j {:trigger l[j]} :: 0 <= j < k && InFront(parent, m, j) && j != but ==> l[j] <= l[x]
    {
      if InFront(parent, m, k) && k != but && l[k] > l[x] {
        x := k;
      }
    }
  }

  /** Two nodes leave no room for a length of nothing. */
  lemma NotNothing(parent: seq<int>, m: nat, l: seq<int>, d: nat, a: nat, b: nat)
    requires Allowed(parent, m, l, d) && a != b && InFront(parent, m, a) && InFront(parent, m, b)
    ensures 1 <= l[a] <= d && 1 <= l[b] <= d
  {
    var u := Used(parent, m, l, d);
    SumTwoTerms(u, a, b);
    assert 0 <= l[a] <= d && 0 <= l[b] <= d;
  }

  /** If only one node has the greatest length, there is room to make it shorter. */
  lemma Shortened(f: Forest, m: nat, l: seq<int>, d: nat, a: nat, x: nat) returns (l2: seq<int>)
    requires Heavy(f) && Allowed(f.parent, m, l, d) && a != x && InFront(f.parent, m, a) && InFront(f.parent, m, x)
    requires forall k {:trigger l[k]} :: 0 <= k <= m && InFront(f.parent, m, k) && k != x ==> l[k] < l[x]
    ensures Allowed(f.parent, m, l2, d)
    ensures Sum(Paid(f, m, l2)) <= Sum(Paid(f, m, l)) && Sum(Used(f.parent, m, l2, d)) > Sum(Used(f.parent, m, l, d))
  {
    hide Sum, Times, W;
    NotNothing(f.parent, m, l, d, a, x);
    var long := l[x];
    l2 := l[x := long - 1];
    var u, u2 := Used(f.parent, m, l, d), Used(f.parent, m, l2, d);
    assert u2 == u[x := Share(d, long - 1)];
    SumUpdate(u, x, Share(d, long - 1));
    RoomLeft(f.parent, m, l, d, x);
    var p, p2 := Paid(f, m, l), Paid(f, m, l2);
    assert p2 == p[x := Times(W(f.weight[x]), long - 1)];
    SumUpdate(p, x, Times(W(f.weight[x]), long - 1));
    assert W(f.weight[x]) >= 1;
    LessPaid(W(f.weight[x]), long);
  }

  lemma LessPaid(w: int, l: int)
    requires w >= 1
    ensures Times(w, l - 1) == Times(w, l) - w
  {
  }

  /** All but the share of x are even multiples of it, and so is the whole. */
  lemma RoomLeft(parent: seq<int>, m: nat, l: seq<int>, d: nat, x: nat)
    requires Allowed(parent, m, l, d) && InFront(parent, m, x) && 1 <= l[x] <= d
    requires forall k {:trigger l[k]} :: 0 <= k <= m && InFront(parent, m, k) && k != x ==> l[k] < l[x]
    ensures Share(d, l[x] - 1) == 2 * Share(d, l[x]) && Share(d, l[x]) >= 1
    ensures Sum(Used(parent, m, l, d)) + Share(d, l[x]) <= Pow2(d)
  {
    hide Sum;
    var u, long: nat := Used(parent, m, l, d), l[x];
    var unit := Share(d, long);
    HalfShare(d, long - 1);
    var rest := u[x := 0];
    var q := seq(m + 1, k requires 0 <= k <= m => if InFront(parent, m, k) && k != x then Share(long - 1, l[k]) else 0);
    forall k | 0 <= k < |q| ensures rest[k] == 2 * unit * q[k] {
      if InFront(parent, m, k) && k != x {
        assert 0 <= l[k] < long;
        UnitShare(d, long, l[k]);
      }
    }
    SumScale(q, rest, 2 * unit);
    SumUpdate(u, x, 0);
    UnitShare(d, long, 0);
    OddFits(unit, Sum(q), Pow2(long - 1));
  }

  lemma UnitShare(d: nat, long: nat, k: nat)
    requires k < long <= d
    ensures Share(d, k) == 2 * Share(d, long) * Share(long - 1, k) && Share(long - 1, k) >= 1 && Share(d, long) >= 1
    ensures k == 0 ==> Share(d, 0) == Pow2(d) && Share(long - 1, 0) == Pow2(long - 1)
  {
    hide Pow2;
    var a, b := d - long, long - 1 - k;
    Pow2Add(a, b);
    Pow2Next(a + b);
    Pow2Next(a);
    Pow2Next(b);
    Twice(Pow2(a), Pow2(b));
  }

  lemma Pow2Next(n: nat)
    ensures Pow2(n + 1) == 2 * Pow2(n) && Pow2(n) >= 1
  {
  }

  lemma Twice(a: int, b: int)
    ensures 2 * (a * b) == 2 * a * b
  {
  }

  lemma OddFits(unit: int, q: int, p: int)
    requires unit >= 1 && 2 * unit * q + unit <= 2 * unit * p
    ensures 2 * unit * q + 2 * unit <= 2 * unit * p
  {
    if q >= p {
      GreaterProduct(unit, p, q);
      assert false;
    } else {
      GreaterProduct(unit, q + 1, p);
      assert unit * (q + 1) == unit * q + unit;
    }
  }

  lemma GreaterProduct(unit: int, p: int, q: int)
    requires unit >= 1 && p <= q
    ensures unit * p <= unit * q
  {
  }

  /** The two lightest nodes can share the greatest length. */
  lemma {:induction false} LightestLongest(f: Forest, m: nat, l: seq<int>, d: nat, a: nat, b: nat) returns (l2: seq<int>)
    requires Heavy(f) && Allowed(f.parent, m, l, d) && a != b && InFront(f.parent, m, a) && InFront(f.parent, m, b)
    requires forall k {:trigger f.weight[k]} :: 0 <= k <= m && InFront(f.parent, m, k) && k != a && k != b ==>
               W(f.weight[a]) <= W(f.weight[k]) && W(f.weight[b]) <= W(f.weight[k])
    ensures Allowed(f.parent, m, l2, d) && Sum(Paid(f, m, l2)) <= Sum(Paid(f, m, l)) && 1 <= l2[a] == l2[b] <= d
    decreases Pow2(d) - Sum(Used(f.parent, m, l, d))
  {
    hide Sum, Pow2, Share, Used, Paid, W, InFront;
    InFrontIs(f.parent, m, a);
    InFrontIs(f.parent, m, b);
    var x := Longest(f.parent, m, l, a, 0);
    var y := Longest(f.parent, m, l, if x == a then b else a, x);
    if l[y] < l[x] {
      l2 := Shortened(f, m, l, d, y, x);
      l2 := LightestLongest(f, m, l2, d, a, b);
    } else {
      l2 := BothLong(f, m, l, d, a, b, x, y);
      NotNothing(f.parent, m, l2, d, a, b);
    }
  }

  lemma InFrontIs(parent: seq<int>, m: nat, k: int)
    requires m < |parent|
    ensures InFront(parent, m, k) ==> 1 <= k <= m
  {
  }

  /** Two nodes of the greatest length give it to the two lightest. */
  lemma BothLong(f: Forest, m: nat, l: seq<int>, d: nat, a: nat, b: nat, x: nat, y: nat) returns (l2: seq<int>)
    requires |f.weight| == |f.parent| && Allowed(f.parent, m, l, d) && a != b && InFront(f.parent, m, a) && InFront(f.parent, m, b)
    requires forall k {:trigger f.weight[k]} :: 0 <= k <= m && InFront(f.parent, m, k) && k != a && k != b ==>
               W(f.weight[a]) <= W(f.weight[k]) && W(f.weight[b]) <= W(f.weight[k])
    requires x != y && InFront(f.parent, m, x) && InFront(f.parent, m, y) && l[x] == l[y]
    requires forall k {:trigger l[k]} :: 0 <= k <= m && InFront(f.parent, m, k) ==> l[k] <= l[x]
    ensures Allowed(f.parent, m, l2, d) && Sum(Paid(f, m, l2)) <= Sum(Paid(f, m, l)) && l2[a] == l2[b] == l[x]
  {
    hide Sum, Pow2, Share, Used, Paid, W;
    l2 := l;
    // A place of the greatest length for a, if possible not that of b, and then one for b.
    var p, q := if x == b || y == a then y else x, if x == b || y == a then x else y;
    assert p != b && (q != a) && p != q;
    if p != a {
      l2 := Swapped(f, m, l2, d, a, p);
    }
    assert l2[a] == l[x] && l2[q] == l[x];
    if q != b {
      l2 := Swapped(f, m, l2, d, b, q);
    }
  }

  // From the root downwards.

  ghost function Depths(parent: seq<int>): (l: seq<int>)
    ensures |l| == |parent| && forall k :: 0 <= k < |l| ==> l[k] == Depth(parent, k)
  {
    seq(|parent|, k requires 0 <= k < |parent| => Depth(parent, k))
  }

  /** In front of a merge, its children are the lightest. */
  lemma ChildrenLightest(f: Forest, total: int, m: nat)
    requires Complete(f, total) && f.n < m < |f.parent|
    ensures var a, b := f.left[m], f.right[m];
            && 1 <= a < m && 1 <= b < m && a != b && InFront(f.parent, m - 1, a) && InFront(f.parent, m - 1, b)
            && forall k {:trigger f.weight[k]} :: 0 <= k <= m - 1 && InFront(f.parent, m - 1, k) && k != a && k != b ==>
                 W(f.weight[a]) <= W(f.weight[k]) && W(f.weight[b]) <= W(f.weight[k])
  {
    hide Weights, RootWeights, Depth, Sum, W;
    assert Joins(f, m);
    var a, b := f.left[m], f.right[m];
    forall k | 1 <= k <= m - 1 && InFront(f.parent, m - 1, k) && k != a && k != b
      ensures W(f.weight[a]) <= W(f.weight[k]) && W(f.weight[b]) <= W(f.weight[k])
    {
      assert Linked(f, k);
      RootAtEnd(f, total, k);
      assert f.parent[k] > m;
      assert Before(f, a, k) && Before(f, b, k);
      WMonotone(f.weight[a], f.weight[k]);
      WMonotone(f.weight[b], f.weight[k]);
    }
  }

  /** A merge in the place of its children, one shorter. */
  lemma MergeStep(f: Forest, total: int, m: nat, l: seq<int>, l2: seq<int>, d: nat)
    requires Complete(f, total) && f.n < m < |f.parent| == |l|
    requires 1 <= f.left[m] < m && 1 <= f.right[m] < m && l[f.left[m]] == l[f.right[m]] && 1 <= l[f.left[m]] <= d
    requires l2 == l[m := l[f.left[m]] - 1]
    ensures Sum(Used(f.parent, m, l2, d)) == Sum(Used(f.parent, m - 1, l, d))
    ensures Sum(Paid(f, m, l2)) + W(f.weight[m]) == Sum(Paid(f, m - 1, l))
    ensures forall k :: InFront(f.parent, m, k) ==> k == m || InFront(f.parent, m - 1, k)
  {
    hide Sum, W, Times, Monotone, RootWeights, Growth, D, Depth, Share;
    var a, b := f.left[m], f.right[m];
    assert Joins(f, m) && Weighed(f, m);
    RootAtEnd(f, total, m);
    forall k | 1 <= k < m ensures InFront(f.parent, m - 1, k) <==> InFront(f.parent, m, k) || k == a || k == b {
      assert Linked(f, k);
    }
    var x := l[a];
    var u, u2 := Used(f.parent, m - 1, l, d), Used(f.parent, m, l2, d);
    assert u2 == u[a := 0][b := 0] + [Share(d, x - 1)];
    SumUpdate(u, a, 0);
    SumUpdate(u[a := 0], b, 0);
    SumSnoc(u[a := 0][b := 0], Share(d, x - 1));
    HalfShare(d, x - 1);
    var p, p2 := Paid(f, m - 1, l), Paid(f, m, l2);
    assert p2 == p[a := 0][b := 0] + [Times(W(f.weight[m]), x - 1)];
    SumUpdate(p, a, 0);
    SumUpdate(p[a := 0], b, 0);
    SumSnoc(p[a := 0][b := 0], Times(W(f.weight[m]), x - 1));
    TimesSum(W(f.weight[a]), W(f.weight[b]), x);
  }

  lemma TimesSum(v: int, w: int, l: int)
    ensures Times(v + w, l - 1) + (v + w) == Times(v, l) + Times(w, l)
  {
  }

  lemma DepthStep(f: Forest, total: int, m: nat)
    requires Complete(f, total) && f.n < m < |f.parent|
    ensures Sum(Paid(f, m, Depths(f.parent))) + W(f.weight[m]) == Sum(Paid(f, m - 1, Depths(f.parent)))
  {
    hide Sum, W, Times, Monotone, RootWeights, Weights, Depth;
    var l := Depths(f.parent);
    assert Joins(f, m);
    RootAtEnd(f, total, f.left[m]);
    RootAtEnd(f, total, f.right[m]);
    DepthBound(f.parent, f.left[m]);
    assert l[m := l[f.left[m]] - 1] == l;
    MergeStep(f, total, m, l, l, |f.parent|);
  }

  /** The depths are the cheapest lengths for the nodes in front of any merge. */
  lemma {:induction false} FrontOptimal(f: Forest, total: int, m: nat, l: seq<int>, d: nat)
    requires Complete(f, total) && f.n <= m < |f.parent| && Allowed(f.parent, m, l, d)
    ensures |f.weight| == |f.parent| && Sum(Paid(f, m, Depths(f.parent))) <= Sum(Paid(f, m, l))
    decreases |f.parent| - m
  {
    hide *;
    CompleteParts(f, total);
    if m + 1 == |f.parent| {
      OnlyRoot(f, total, m, l, d);
    } else {
      ChildrenLightest(f, total, m + 1);
      var a, b := f.left[m + 1], f.right[m + 1];
      var l2 := LightestLongest(f, m, l, d, a, b);
      AllowedLength(f.parent, m, l2, d);
      var l3 := l2[m + 1 := l2[a] - 1];
      MergeStep(f, total, m + 1, l2, l3, d);
      StillAllowed(f.parent, m, l2, l3, d, l2[a]);
      FrontOptimal(f, total, m + 1, l3, d);
      DepthStep(f, total, m + 1);
    }
  }

  lemma CompleteParts(f: Forest, total: int)
    requires Complete(f, total)
    ensures Heavy(f) && |f.weight| == |f.parent| == |f.left| == |f.right| && 0 <= f.n < |f.parent|
  {
    hide Growth, Sum, RootWeights, Monotone;
    forall k | 1 <= k < |f.weight| ensures W(f.weight[k]) >= 1 {
      assert Weighed(f, k);
    }
  }

  lemma AllowedLength(parent: seq<int>, m: nat, l: seq<int>, d: nat)
    requires Allowed(parent, m, l, d)
    ensures m < |parent| == |l|
  {
  }

  lemma StillAllowed(parent: seq<int>, m: nat, l: seq<int>, l2: seq<int>, d: nat, x: int)
    requires Allowed(parent, m, l, d) && m + 1 < |parent| && 1 <= x <= d && l2 == l[m + 1 := x - 1]
    requires Sum(Used(parent, m + 1, l2, d)) == Sum(Used(parent, m, l, d))
    requires forall k :: InFront(parent, m + 1, k) ==> k == m + 1 || InFront(parent, m, k)
    ensures Allowed(parent, m + 1, l2, d)
  {
    hide Sum, Used;
  }

  lemma OnlyRoot(f: Forest, total: int, m: nat, l: seq<int>, d: nat)
    requires Complete(f, total) && m + 1 == |f.parent| && Allowed(f.parent, m, l, d)
    ensures |f.weight| == |f.parent| && Sum(Paid(f, m, Depths(f.parent))) <= Sum(Paid(f, m, l))
  {
    hide Sum, W, Monotone, RootWeights, Growth, D;
    CompleteParts(f, total);
    var p, q := Paid(f, m, Depths(f.parent)), Paid(f, m, l);
    forall k | 0 <= k <= m ensures p[k] == 0 && q[k] >= 0 {
      if 1 <= k {
        RootAtEnd(f, total, k);
        if InFront(f.parent, m, k) {
          assert 0 <= l[k];
          assert W(f.weight[k]) >= 1;
          Products(W(f.weight[k]), l[k]);
        }
      }
    }
    SumZero(p);
    SumNonNegative(q);
  }

  lemma Products(w: int, l: int)
    requires w >= 0 && l >= 0
    ensures Times(w, l) >= 0 && Times(w, 0) == 0
  {
  }

  // The symbols.

  function Products2(w: seq<int>, l: seq<int>): (s: seq<int>)
    requires |w| == |l|
    ensures |s| == |w| && forall i :: 0 <= i < |s| ==> s[i] == Times(w[i], l[i])
  {
    seq(|w|, i requires 0 <= i < |w| => Times(w[i], l[i]))
  }

  /** The length of a text in which symbol i occurs w[i] times, if its code has len[i] bits. */
  function TextLength(w: seq<int>, len: seq<int>): int
    requires |w| == |len|
  {
    Sum(Products2(w, len))
  }

  /** No lengths that a prefix code can have make the text shorter. */
  ghost predicate Optimal(w: seq<int>, len: seq<int>) {
    && |w| == |len|
    && forall len2: seq<int>, d: nat {:trigger KraftSum(len2, d)} ::
         |len2| == |w| && (forall i :: 0 <= i < |len2| ==> 0 <= len2[i] <= d) && KraftSum(len2, d) <= Pow2(d) ==>
           TextLength(w, len) <= TextLength(w, len2)
  }

  /** In front of the first merge are the symbols. */
  lemma LeavesInFront(f: Forest, total: int, len: seq<int>, d: nat) returns (l: seq<int>)
    requires Complete(f, total) && |len| == f.n && forall i :: 0 <= i < |len| ==> 0 <= len[i] <= d
    ensures f.n < |f.parent| == |l| == |f.weight| && l == [0] + len + seq(|f.parent| - f.n - 1, _ => 0)
    ensures Sum(Used(f.parent, f.n, l, d)) == KraftSum(len, d)
    ensures Sum(Paid(f, f.n, l)) == TextLength(Frequencies(f.weight[1..f.n + 1]), len)
    ensures forall k :: 0 <= k <= f.n && InFront(f.parent, f.n, k) ==> 0 <= l[k] <= d
  {
    hide Sum, W, Share, Times, Complete, InFront, Used, Paid, Shares, Products2, Frequencies, KraftSum, TextLength;
    CompleteParts(f, total);
    var n := f.n;
    l := [0] + len + seq(|f.parent| - n - 1, _ => 0);
    assert forall k :: 1 <= k <= n ==> l[k] == len[k - 1];
    AllLeaves(f, total);
    LeavesUsed(f.parent, n, l, len, d);
    LeavesPaid(f, l, len);
  }

  lemma LeavesUsed(parent: seq<int>, n: nat, l: seq<int>, len: seq<int>, d: nat)
    requires n < |parent| == |l| && |len| == n && forall k :: 1 <= k <= n ==> l[k] == len[k - 1]
    requires forall k {:trigger InFront(parent, n, k)} :: InFront(parent, n, k) <==> 1 <= k <= n
    ensures Sum(Used(parent, n, l, d)) == KraftSum(len, d)
  {
    hide Sum, Share, InFront;
    assert Used(parent, n, l, d) == [0] + Shares(len, d);
    SumPad(Shares(len, d));
  }

  lemma LeavesPaid(f: Forest, l: seq<int>, len: seq<int>)
    requires f.n < |f.parent| == |l| == |f.weight| && |len| == f.n && forall k :: 1 <= k <= f.n ==> l[k] == len[k - 1]
    requires forall k {:trigger InFront(f.parent, f.n, k)} :: InFront(f.parent, f.n, k) <==> 1 <= k <= f.n
    ensures Sum(Paid(f, f.n, l)) == TextLength(Frequencies(f.weight[1..f.n + 1]), len)
  {
    hide Sum, Times, InFront, W;
    var p := Products2(Frequencies(f.weight[1..f.n + 1]), len);
    assert Paid(f, f.n, l) == [0] + p;
    SumPad(p);
  }

  lemma AllLeaves(f: Forest, total: int)
    requires Complete(f, total)
    ensures f.n < |f.parent| && forall k {:trigger InFront(f.parent, f.n, k)} :: InFront(f.parent, f.n, k) <==> 1 <= k <= f.n
  {
    hide Sum, W, Monotone, RootWeights, Weights;
    forall k | 1 <= k <= f.n ensures InFront(f.parent, f.n, k) {
      assert Linked(f, k);
    }
  }

  /** The depths of the symbols are the best lengths there are. */
  lemma LengthsOptimal(f: Forest, total: int)
    requires Complete(f, total)
    ensures 0 <= f.n < |f.weight| && Optimal(Frequencies(f.weight[1..f.n + 1]), Lengths(f))
  {
    hide Sum, W, Share, Times, Complete, Depth, Pow2;
    CompleteParts(f, total);
    CompleteSize(f, total);
    var w := Frequencies(f.weight[1..f.n + 1]);
    forall len2: seq<int>, d: nat {:trigger KraftSum(len2, d)}
      | |len2| == |w| && (forall i :: 0 <= i < |len2| ==> 0 <= len2[i] <= d) && KraftSum(len2, d) <= Pow2(d)
      ensures TextLength(w, Lengths(f)) <= TextLength(w, len2)
    {
      NoBetter(f, total, len2, d);
    }
  }

  lemma NoBetter(f: Forest, total: int, len2: seq<int>, d: nat)
    requires Complete(f, total) && |len2| == f.n && (forall i :: 0 <= i < |len2| ==> 0 <= len2[i] <= d) && KraftSum(len2, d) <= Pow2(d)
    ensures 0 <= f.n < |f.weight| == |f.parent|
    ensures TextLength(Frequencies(f.weight[1..f.n + 1]), Lengths(f)) <= TextLength(Frequencies(f.weight[1..f.n + 1]), len2)
  {
    hide Sum, W, Share, Times, Complete, Depth, Pow2, Frequencies, TextLength, Used, Paid;
    CompleteParts(f, total);
    CompleteSize(f, total);
    var l := LeavesInFront(f, total, len2, d);
    FrontOptimal(f, total, f.n, l, d);
    DepthsFit(f);
    var l0 := LeavesInFront(f, total, Lengths(f), |f.parent|);
    SamePaid(f, l0, Depths(f.parent));
  }

  lemma DepthsFit(f: Forest)
    requires f.n < |f.parent|
    ensures forall i :: 0 <= i < f.n ==> 0 <= Lengths(f)[i] <= |f.parent|
  {
    forall i | 0 <= i < f.n ensures 0 <= Lengths(f)[i] <= |f.parent| {
      DepthBound(f.parent, i + 1);
    }
  }

  lemma SamePaid(f: Forest, l: seq<int>, l2: seq<int>)
    requires f.n < |f.parent| == |f.weight| == |l| == |l2| && forall k :: 1 <= k <= f.n ==> l[k] == l2[k]
    ensures Paid(f, f.n, l) == Paid(f, f.n, l2)
  {
  }
}
