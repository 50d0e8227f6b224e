// The block transform and its inverse. The transform emits, for each rotation
// in sorted order, the character before it; the inverse walks from row to row.
module InverseBwt {
  import opened Words
  import opened Perm
  import opened Counting
  import opened Rotation

  /** The position before x in a block of n characters. */
  function Prev(x: int, n: int): int {
    if x - 1 < 0 then x - 1 + n else x - 1
  }

  /** The last characters of the rotations p lists. */
  ghost function LastColumn(b: seq<byte>, p: seq<int>): (l: seq<byte>)
    requires |p| == |b| && forall i :: 0 <= i < |p| ==> 0 <= p[i] < |b|
    ensures |l| == |b| && forall i :: 0 <= i < |b| ==> l[i] == b[Prev(p[i], |b|)]
  {
    seq(|b|, i requires 0 <= i < |b| => b[Prev(p[i], |b|)])
  }

  /** The transform rearranges the block. */
  lemma LastColumnMultiset(b: seq<byte>, p: seq<int>)
    requires |p| == |b| && IsPerm(p)
    ensures multiset(LastColumn(b, p)) == multiset(b)
  {
    var q := seq(|b|, i requires 0 <= i < |b| => Prev(p[i], |b|));
    forall i, j | 0 <= i < j < |q| ensures q[i] != q[j] {
      assert p[i] != p[j];
    }
    ColumnMultiset(b, q);
    assert LastColumn(b, p) == Column(b, q);
  }

  /** The row that row j's walk leads to: the index whose slot in the stable sort of l is j. */
  ghost function Next(l: seq<byte>, j: nat): (i: nat)
    requires j < |l|
    ensures i < |l| && Slot(l, i) == j && l[i] == SortedChar(l, j)
  {
    assert exists i: nat :: i < |l| && Slot(l, i) == j && l[i] == SortedChar(l, j) by {
      var i := SlotHit(l, j);
    }
    var i: nat :| i < |l| && Slot(l, i) == j && l[i] == SortedChar(l, j);
    i
  }

  lemma NextUnique(l: seq<byte>, i: nat)
    requires i < |l|
    ensures Slot(l, i) < |l| && Next(l, Slot(l, i)) == i
  {
    SlotRange(l, i);
    var k := Next(l, Slot(l, i));
    if k < i {
      SlotOrder(l, k, i);
    } else if i < k {
      SlotOrder(l, i, k);
    }
  }

  /** The characters met on a walk of k steps from row j. */
  ghost function Walk(l: seq<byte>, j: nat, k: nat): (r: seq<byte>)
    requires j < |l|
    ensures |r| == k
    decreases k
  {
    if k == 0 then [] else [l[Next(l, j)]] + Walk(l, Next(l, j), k - 1)
  }

  // Why the walk spells the block: row Next(j) holds the rotation one further than row j.

  /** The row holding the rotation that starts one character after row j's. */
  ghost function After(p: seq<int>, j: nat): (i: nat)
    requires IsPerm(p) && j < |p|
    ensures i < |p| && Prev(p[i], |p|) == p[j]
  {
    var x := if p[j] + 1 == |p| then 0 else p[j] + 1;
    assert exists i: nat :: i < |p| && p[i] == x by {
      var i := PermHits(p, x);
    }
    var i: nat :| i < |p| && p[i] == x;
    i
  }

  /** Dropping an equal first character keeps the order of whole rotations. */
  lemma CmpTail(b: seq<byte>, x: nat, y: nat)
    requires |b| > 0 && At(b, x) == At(b, y)
    ensures Cmp(b, x + 1, y + 1, |b|) == Cmp(b, x, y, |b|)
  {
    var n := |b|;
    CmpSplit(b, x + 1, y + 1, n - 1, 1);
    CmpSplit(b, x, y, 1, n - 1);
    AtPeriod(b, x);
    AtPeriod(b, y);
    assert Cmp(b, x, y, 1) == 0;
    assert Cmp(b, x + n, y + n, 1) == 0;
  }

  lemma CmpAfter(b: seq<byte>, p: seq<int>, j: nat, k: nat)
    requires |p| == |b| && IsPerm(p) && j < |b| && k < |b|
    ensures p[After(p, j)] >= 0 && p[j] >= 0 && p[After(p, k)] >= 0
    ensures Cmp(b, p[After(p, j)], p[After(p, k)], |b|) == Cmp(b, p[j] + 1, p[k] + 1, |b|)
    ensures Cmp(b, p[k], p[After(p, j)], |b|) == Cmp(b, p[k], p[j] + 1, |b|)
  {
    var n, x, y := |b|, p[After(p, j)], p[After(p, k)];
    CmpPeriod(b, x, y, n);
    CmpPeriod(b, x + n, y, n);
    CmpPeriod(b, p[k], x, n);
    CmpPeriod(b, x, y + n, n);
  }

  /** After is increasing, up to equal rotations, among rows with the same first character. */
  lemma AfterMonotone(b: seq<byte>, p: seq<int>, j: nat, k: nat)
    requires SortedRotations(b, p) && j <= k < |b|
    requires b[p[j]] == b[p[k]]
    ensures Cmp(b, p[After(p, j)], p[After(p, k)], |b|) <= 0
  {
    assert Cmp(b, p[j], p[k], |b|) <= 0;
    CmpTail(b, p[j], p[k]);
    CmpAfter(b, p, j, k);
  }

  lemma AfterDistinct(p: seq<int>, j: nat, k: nat)
    requires IsPerm(p) && j < |p| && k < |p| && j != k
    ensures After(p, j) != After(p, k)
  {
  }

  /** No injection from [lo, hi) into a smaller interval. */
  lemma Pigeonhole(s: seq<int>, lo: int, hi: int)
    requires forall i, j :: 0 <= i < j < |s| ==> s[i] != s[j]
    requires forall i :: 0 <= i < |s| ==> lo <= s[i] < hi
    requires lo <= hi
    ensures |s| <= hi - lo
  {
    DistinctElems(s);
    SubsetCard(Elems(s), Range(lo, hi));
  }

  /** The slot of the row after row j: a rearrangement of the rows starting with the same character. */
  ghost function AfterSlot(b: seq<byte>, p: seq<int>, j: nat): nat
    requires |p| == |b| && IsPerm(p) && j < |b|
  {
    Slot(LastColumn(b, p), After(p, j))
  }

  lemma AfterSlotRange(b: seq<byte>, p: seq<int>, j: nat)
    requires SortedRotations(b, p) && j < |b|
    ensures 0 <= p[j] < |b|
    ensures b[p[j]] == SortedChar(LastColumn(b, p), j) == LastColumn(b, p)[After(p, j)]
    ensures var c := b[p[j]]; Below(b, c) <= AfterSlot(b, p, j) < Below(b, c as nat + 1)
    ensures var c := b[p[j]]; Below(b, c) <= j < Below(b, c as nat + 1) <= |b|
  {
    var l := LastColumn(b, p);
    var c: nat := b[p[j]];
    RowsSorted(b, p, j);
    LastColumnMultiset(b, p);
    BelowSame(l, b, c);
    BelowSame(l, b, c + 1);
    CharUnique(l, j, c);
    SlotRange(l, After(p, j));
    BelowBound(b, c + 1);
  }

  lemma RowsSorted(b: seq<byte>, p: seq<int>, j: nat)
    requires SortedRotations(b, p) && j < |b|
    ensures 0 <= p[j] < |b| && b[p[j]] == SortedChar(b, j)
  {
    forall i, k | 0 <= i <= k < |b| ensures b[p[i]] <= b[p[k]] {
      assert Cmp(b, p[i], p[k], |b|) <= 0;
      assert At(b, p[i]) == b[p[i]] && At(b, p[k]) == b[p[k]];
    }
    SortedColumn(b, p, j);
  }

  lemma AfterSlotDistinct(b: seq<byte>, p: seq<int>, j: nat, k: nat)
    requires |p| == |b| && IsPerm(p) && j < |b| && k < |b| && j != k
    ensures AfterSlot(b, p, j) != AfterSlot(b, p, k)
  {
    var x, y := After(p, j), After(p, k);
    AfterDistinct(p, j, k);
    SlotOrder(LastColumn(b, p), if x < y then x else y, if x < y then y else x);
  }

  /** Rows with one first character, in order: if row k's successor is not below row i, its slot is not below i's. */
  lemma AfterSlotAbove(b: seq<byte>, p: seq<int>, j: nat, k: nat)
    requires SortedRotations(b, p) && j <= k < |b|
    requires b[p[j]] == b[p[k]]
    requires Cmp(b, p[Next(LastColumn(b, p), j)], p[After(p, j)], |b|) < 0
    ensures AfterSlot(b, p, k) > j
  {
    var l := LastColumn(b, p);
    var i, x, y := Next(l, j), After(p, k), After(p, j);
    assert x <= i ==> Cmp(b, p[x], p[i], |b|) <= 0;
    AfterMonotone(b, p, j, k);
    CmpTrans(b, p[y], p[x], p[i], |b|);
    CmpAnti(b, p[y], p[i], |b|);
    AfterSlotRange(b, p, k);
    AfterSlotRange(b, p, j);
    SlotOrder(l, i, x);
  }

  lemma AfterSlotBelow(b: seq<byte>, p: seq<int>, j: nat, k: nat)
    requires SortedRotations(b, p) && k <= j < |b|
    requires b[p[j]] == b[p[k]]
    requires Cmp(b, p[Next(LastColumn(b, p), j)], p[After(p, j)], |b|) > 0
    ensures AfterSlot(b, p, k) < j
  {
    var l := LastColumn(b, p);
    var i, x, y := Next(l, j), After(p, k), After(p, j);
    assert x >= i ==> Cmp(b, p[i], p[x], |b|) <= 0;
    AfterMonotone(b, p, k, j);
    CmpTrans(b, p[i], p[x], p[y], |b|);
    AfterSlotRange(b, p, k);
    AfterSlotRange(b, p, j);
    SlotOrder(l, x, i);
  }

  /** AfterSlot on the rows lo..hi-1. */
  ghost function AfterSlots(b: seq<byte>, p: seq<int>, lo: nat, hi: nat): (s: seq<int>)
    requires |p| == |b| && IsPerm(p) && lo <= hi <= |b|
    ensures |s| == hi - lo && forall t :: 0 <= t < |s| ==> s[t] == AfterSlot(b, p, lo + t)
  {
    seq(hi - lo, t requires 0 <= t < hi - lo => AfterSlot(b, p, lo + t))
  }

  lemma AfterSlotsDistinct(b: seq<byte>, p: seq<int>, lo: nat, hi: nat)
    requires |p| == |b| && IsPerm(p) && lo <= hi <= |b|
    ensures forall t, u :: 0 <= t < u < hi - lo ==> AfterSlots(b, p, lo, hi)[t] != AfterSlots(b, p, lo, hi)[u]
  {
    hide AfterSlot;
    var s := AfterSlots(b, p, lo, hi);
    forall t, u | 0 <= t < u < |s| ensures s[t] != s[u] {
      AfterSlotDistinct(b, p, lo + t, lo + u);
    }
  }

  lemma ClassSlot(b: seq<byte>, p: seq<int>, j: nat, k: nat)
    requires SortedRotations(b, p) && j < |b|
    requires 0 <= p[j] < |b| && Below(b, b[p[j]]) <= k < Below(b, b[p[j]] as nat + 1)
    ensures k < |b| && Below(b, b[p[j]]) <= AfterSlot(b, p, k) < Below(b, b[p[j]] as nat + 1)
    ensures k >= j && Cmp(b, p[Next(LastColumn(b, p), j)], p[After(p, j)], |b|) < 0 ==> AfterSlot(b, p, k) > j
    ensures k <= j && Cmp(b, p[Next(LastColumn(b, p), j)], p[After(p, j)], |b|) > 0 ==> AfterSlot(b, p, k) < j
  {
    hide SortedRotations, Cmp, Below, AfterSlot;
    SortedIsPerm(b, p);
    SameClass(b, p, j, k);
    AfterSlotRange(b, p, k);
    var d := Cmp(b, p[Next(LastColumn(b, p), j)], p[After(p, j)], |b|);
    if k >= j && d < 0 {
      AfterSlotAbove(b, p, j, k);
    }
    if k <= j && d > 0 {
      AfterSlotBelow(b, p, j, k);
    }
  }

  /** The successor is not above the walk's row: otherwise too many rows would have slots above j. */
  lemma NextNotBelow(b: seq<byte>, p: seq<int>, j: nat)
    requires SortedRotations(b, p) && j < |b|
    ensures Cmp(b, p[Next(LastColumn(b, p), j)], p[After(p, j)], |b|) >= 0
  {
    hide SortedRotations, IsPerm, Cmp, Below, AfterSlot, After, Next, LastColumn, Prev, AfterSlots, Slot, SortedChar;
    SortedIsPerm(b, p);
    AfterSlotRange(b, p, j);
    var hi := Below(b, b[p[j]] as nat + 1);
    if Cmp(b, p[Next(LastColumn(b, p), j)], p[After(p, j)], |b|) < 0 {
      var s := AfterSlots(b, p, j, hi);
      forall t | 0 <= t < |s| ensures j + 1 <= s[t] < hi {
        ClassSlot(b, p, j, j + t);
      }
      AfterSlotsDistinct(b, p, j, hi);
      Pigeonhole(s, j + 1, hi);
    }
  }

  lemma NextNotAbove(b: seq<byte>, p: seq<int>, j: nat)
    requires SortedRotations(b, p) && j < |b|
    ensures Cmp(b, p[Next(LastColumn(b, p), j)], p[After(p, j)], |b|) <= 0
  {
    hide SortedRotations, IsPerm, Cmp, Below, AfterSlot, After, Next, LastColumn, Prev, AfterSlots, Slot, SortedChar;
    SortedIsPerm(b, p);
    AfterSlotRange(b, p, j);
    var lo := Below(b, b[p[j]]);
    if Cmp(b, p[Next(LastColumn(b, p), j)], p[After(p, j)], |b|) > 0 {
      var s := AfterSlots(b, p, lo, j + 1);
      forall t | 0 <= t < |s| ensures lo <= s[t] < j {
        ClassSlot(b, p, j, lo + t);
      }
      AfterSlotsDistinct(b, p, lo, j + 1);
      Pigeonhole(s, lo, j);
    }
  }

  lemma SortedIsPerm(b: seq<byte>, p: seq<int>)
    requires SortedRotations(b, p)
    ensures |p| == |b| && IsPerm(p) && forall i :: 0 <= i < |p| ==> 0 <= p[i] < |b|
  {
  }

  /** The walk moves to a row whose rotation equals the one starting a character later. */
  lemma NextIsAfter(b: seq<byte>, p: seq<int>, j: nat)
    requires SortedRotations(b, p) && j < |b|
    ensures Cmp(b, p[Next(LastColumn(b, p), j)], p[After(p, j)], |b|) == 0
  {
    hide SortedRotations, Cmp;
    SortedIsPerm(b, p);
    NextNotBelow(b, p, j);
    NextNotAbove(b, p, j);
  }

  /** Rows within one character's range start with that character. */
  lemma SameClass(b: seq<byte>, p: seq<int>, j: nat, k: nat)
    requires SortedRotations(b, p) && j < |b|
    requires 0 <= p[j] < |b| && Below(b, b[p[j]]) <= k < Below(b, b[p[j]] as nat + 1)
    ensures k < |b| && 0 <= p[k] < |b| && b[p[k]] == b[p[j]]
  {
    BelowBound(b, b[p[j]] as nat + 1);
    RowsSorted(b, p, k);
    CharUnique(b, k, b[p[j]]);
  }

  /** One step of the walk, from a row whose rotation equals the one at x. */
  lemma WalkStep(b: seq<byte>, p: seq<int>, j: nat, x: nat)
    requires SortedRotations(b, p) && j < |b|
    requires 0 <= p[j] && Cmp(b, p[j], x, |b|) == 0
    ensures var l := LastColumn(b, p); var i := Next(l, j); l[i] == At(b, x) && 0 <= p[i] && Cmp(b, p[i], x + 1, |b|) == 0
  {
    var l := LastColumn(b, p);
    var i, y := Next(l, j), After(p, j);
    AfterSlotRange(b, p, j);
    assert At(b, p[j]) == At(b, x);
    CmpTail(b, p[j], x);
    NextIsAfter(b, p, j);
    CmpAfter(b, p, j, i);
    CmpAnti(b, p[i], p[y], |b|);
    CmpAnti(b, p[i], p[j] + 1, |b|);
    CmpTrans(b, p[i], p[j] + 1, x + 1, |b|);
  }

  /** The k characters of the periodic block from position x on. */
  ghost function Spell(b: seq<byte>, x: nat, k: nat): (r: seq<int>)
    ensures |r| == k
    decreases k
  {
    if k == 0 then [] else [At(b, x)] + Spell(b, x + 1, k - 1)
  }

  lemma {:induction false} SpellBlock(b: seq<byte>, x: nat, k: nat)
    requires x + k <= |b|
    ensures Spell(b, x, k) == b[x..x + k]
    decreases k
  {
    if k > 0 {
      SpellBlock(b, x + 1, k - 1);
    }
  }

  /** The walk from a row whose rotation equals the one at x spells the block from x on. */
  lemma {:induction false} WalkSpells(b: seq<byte>, p: seq<int>, j: nat, x: nat, k: nat)
    requires SortedRotations(b, p) && j < |b|
    requires 0 <= p[j] && Cmp(b, p[j], x, |b|) == 0
    ensures Walk(LastColumn(b, p), j, k) == Spell(b, x, k)
    decreases k
  {
    hide Cmp, SortedRotations, At;
    SortedIsPerm(b, p);
    if k > 0 {
      WalkStep(b, p, j, x);
      WalkSpells(b, p, Next(LastColumn(b, p), j), x + 1, k - 1);
    }
  }

  /** Inverse block transform: walking n steps from the row of the unrotated block emits the block. */
  lemma WalkIsBlock(b: seq<byte>, p: seq<int>, origPtr: nat)
    requires SortedRotations(b, p) && origPtr < |b| && p[origPtr] == 0
    ensures Walk(LastColumn(b, p), origPtr, |b|) == b
  {
    CmpAnti(b, 0, 0, |b|);
    WalkSpells(b, p, origPtr, 0, |b|);
    SpellBlock(b, 0, |b|);
  }

  /** Row by row, the last column is the last character of the rotation. */
  lemma ColumnLaw(b: seq<byte>, p: seq<int>, i: nat)
    requires |p| == |b| && i < |b| && forall k :: 0 <= k < |p| ==> 0 <= p[k] < |b|
    ensures LastColumn(b, p)[i] == Turned(b, p[i])[|b| - 1]
  {
  }
}
