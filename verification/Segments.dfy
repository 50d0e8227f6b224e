// Ranges of a file, and the set of finished ranges with its merging.
module Segments {
  /** Half-open range [start, start + size). */
  datatype Segment = Segment(start: int, size: int) {
    function End(): int {
      start + size
    }

    predicate Overlaps(rhs: Segment) {
      start < rhs.End() && rhs.start < End()
    }

    predicate Before(rhs: Segment) {
      start < rhs.start || (start == rhs.start && size < rhs.size)
    }

    predicate Has(x: int) {
      start <= x < End()
    }

    /** Lies in rhs without touching either of its ends. */
    predicate StrictlyIn(rhs: Segment) {
      rhs.start < start && End() < rhs.End()
    }
  }

  predicate Covers(s: seq<Segment>, x: int) {
    exists i :: 0 <= i < |s| && s[i].Has(x)
  }

  /** The order of a set of ranges. */
  ghost predicate Sorted(s: seq<Segment>) {
    && (forall i {:trigger s[i]} :: 0 <= i < |s| ==> s[i].size >= 0)
    && (forall i, j {:trigger s[i], s[j]} :: 0 <= i < j < |s| ==> s[i].Before(s[j]))
  }

  /** In order, and neither overlapping nor touching. */
  ghost predicate Separate(s: seq<Segment>) {
    && (forall i {:trigger s[i]} :: 0 <= i < |s| ==> s[i].size >= 0)
    && (forall i, j {:trigger s[i], s[j]} :: 0 <= i < j < |s| ==> s[i].End() < s[j].start)
  }

  lemma SeparateSorted(s: seq<Segment>)
    requires Separate(s)
    ensures Sorted(s)
  {
  }

  /** Where x belongs: everything in front of it is smaller. */
  function Position(s: seq<Segment>, x: Segment): (p: nat)
    ensures p <= |s|
    ensures forall i {:trigger s[i]} :: 0 <= i < p ==> s[i].Before(x)
    ensures p < |s| ==> !s[p].Before(x)
  {
    if s == [] || !s[0].Before(x) then 0 else 1 + Position(s[1..], x)
  }

  /** Insertion into a set. */
  function Insert(s: seq<Segment>, x: Segment): seq<Segment> {
    var p := Position(s, x);
    if p < |s| && s[p] == x then s else s[..p] + [x] + s[p..]
  }

  lemma InsertSorted(s: seq<Segment>, x: Segment)
    requires Sorted(s) && x.size >= 0
    ensures Sorted(Insert(s, x))
  {
    var p := Position(s, x);
    if !(p < |s| && s[p] == x) {
      forall j | p <= j < |s| ensures x.Before(s[j]) {
        assert p < j ==> s[p].Before(s[j]);
      }
      SortedAround(s[..p], x, s[p..]);
    }
  }

  lemma SortedAround(a: seq<Segment>, x: Segment, b: seq<Segment>)
    requires Sorted(a + b) && x.size >= 0
    requires forall i {:trigger a[i]} :: 0 <= i < |a| ==> a[i].Before(x)
    requires forall j {:trigger b[j]} :: 0 <= j < |b| ==> x.Before(b[j])
    ensures Sorted(a + [x] + b)
  {
    var s, t := a + b, a + [x] + b;
    forall i | 0 <= i < |a| ensures s[i] == t[i] == a[i] {
    }
    forall i | 0 <= i < |b| ensures s[|a| + i] == t[|a| + 1 + i] == b[i] {
    }
    forall i | 0 <= i < |t| ensures t[i].size >= 0 {
      assert i > |a| ==> t[i] == b[i - |a| - 1];
    }
    forall i, j | 0 <= i < j < |t| ensures t[i].Before(t[j]) {
      if i < |a| < j {
        assert t[j] == b[j - |a| - 1] == s[j - 1];
      } else if i == |a| {
        assert t[j] == b[j - |a| - 1];
      } else if i > |a| {
        assert t[j] == s[j - 1] && t[i] == s[i - 1];
      }
    }
  }

  /** A range that fits at p is inserted there. */
  lemma InsertAt(s: seq<Segment>, x: Segment, p: nat)
    requires p <= |s| && Sorted(s) && (p > 0 ==> s[p - 1].Before(x)) && (p < |s| ==> x.Before(s[p]))
    ensures Position(s, x) == p && Insert(s, x) == s[..p] + [x] + s[p..]
  {
  }

  /** One range for two that overlap or touch, ending where the second ends. */
  function Joined(a: Segment, b: Segment): Segment {
    Segment(a.start, b.End() - a.start)
  }

  /** Goes through the ranges in order, joining each to the one before it where they meet. */
  function Merged(front: seq<Segment>, rest: seq<Segment>): seq<Segment>
    decreases |rest|
  {
    if rest == [] then front
    else if front != [] && front[|front| - 1].End() >= rest[0].start then
      Merged(front[..|front| - 1] + [Joined(front[|front| - 1], rest[0])], rest[1..])
    else Merged(front + [rest[0]], rest[1..])
  }

  /** Ranges that do not meet stay as they are. */
  lemma {:induction false} MergedSeparate(front: seq<Segment>, rest: seq<Segment>)
    requires Separate(front + rest)
    ensures Merged(front, rest) == front + rest
    decreases |rest|
  {
    if rest == [] {
      assert front + rest == front;
    } else {
      var all := front + rest;
      assert all[|front|] == rest[0];
      assert front != [] ==> all[|front| - 1] == front[|front| - 1];
      assert front + [rest[0]] + rest[1..] == all;
      MergedSeparate(front + [rest[0]], rest[1..]);
    }
  }

  /** A new range in a set of separate ones meets at most its two neighbours. */
  function Added(a: seq<Segment>, s: Segment, b: seq<Segment>): seq<Segment> {
    var meets := a != [] && a[|a| - 1].End() >= s.start;
    var front, x := if meets then a[..|a| - 1] else a, if meets then Joined(a[|a| - 1], s) else s;
    if b != [] && x.End() >= b[0].start then front + [Joined(x, b[0])] + b[1..] else front + [x] + b
  }

  lemma SeparateAround(a: seq<Segment>, y: Segment, b: seq<Segment>)
    requires Separate(a) && Separate(b) && y.size >= 0
    requires a != [] ==> a[|a| - 1].End() < y.start
    requires b != [] ==> y.End() < b[0].start
    ensures Separate(a + [y] + b)
  {
    var t := a + [y] + b;
    forall i | 0 <= i < |a| ensures a[i].End() < y.start {
      assert i < |a| - 1 ==> a[i].End() < a[|a| - 1].start;
    }
    forall j | 0 <= j < |b| ensures y.End() < b[j].start {
      assert j > 0 ==> b[0].End() < b[j].start;
    }
    forall i | 0 <= i < |t| ensures t[i].size >= 0 {
      assert t[i] == if i < |a| then a[i] else if i == |a| then y else b[if i > |a| then i - |a| - 1 else 0];
    }
    forall i, j | 0 <= i < j < |t| ensures t[i].End() < t[j].start {
      if i < |a| {
        assert t[i] == a[i];
        if j > |a| {
          assert t[j] == b[j - |a| - 1];
        }
      } else {
        assert t[j] == b[j - |a| - 1];
        if i > |a| {
          assert t[i] == b[i - |a| - 1];
        }
      }
    }
  }

  /** The parts of separate ranges are separate. */
  lemma SeparateParts(a: seq<Segment>, b: seq<Segment>)
    requires Separate(a + b)
    ensures Separate(a) && Separate(b)
    ensures a != [] ==> Separate(a[..|a| - 1]) && (|a| > 1 ==> a[|a| - 2].End() < a[|a| - 1].start)
    ensures b != [] ==> Separate(b[1..]) && (|b| > 1 ==> b[0].End() < b[1].start)
    ensures a != [] && b != [] ==> a[|a| - 1].End() < b[0].start
  {
    hide *;
    var n := |a|;
    assert (a + b)[0..n] == a && (a + b)[n..|a + b|] == b;
    SeparateSlice(a + b, 0, n);
    SeparateSlice(a + b, n, |a + b|);
    if a != [] {
      WithoutLast(a);
    }
    if b != [] {
      WithoutFirst(b);
    }
    if a != [] && b != [] {
      NextApart(a + b, n - 1);
    }
  }

  lemma WithoutLast(a: seq<Segment>)
    requires Separate(a) && a != []
    ensures Separate(a[..|a| - 1]) && (|a| > 1 ==> a[|a| - 2].End() < a[|a| - 1].start)
  {
    hide *;
    SeparateSlice(a, 0, |a| - 1);
    assert a[0..|a| - 1] == a[..|a| - 1];
    if |a| > 1 {
      NextApart(a, |a| - 2);
    }
  }

  lemma WithoutFirst(b: seq<Segment>)
    requires Separate(b) && b != []
    ensures Separate(b[1..]) && (|b| > 1 ==> b[0].End() < b[1].start)
  {
    hide *;
    SeparateSlice(b, 1, |b|);
    assert b[1..|b|] == b[1..];
    if |b| > 1 {
      NextApart(b, 0);
    }
  }

  lemma NextApart(t: seq<Segment>, i: nat)
    requires Separate(t) && i + 1 < |t|
    ensures t[i].End() < t[i + 1].start
  {
  }

  lemma SeparateSlice(t: seq<Segment>, lo: nat, hi: nat)
    requires Separate(t) && lo <= hi <= |t|
    ensures Separate(t[lo..hi])
  {
    var s := t[lo..hi];
    forall i, j {:trigger s[i], s[j]} | 0 <= i < j < |s| ensures s[i].End() < s[j].start {
      assert s[i] == t[lo + i] && s[j] == t[lo + j];
    }
    forall i {:trigger s[i]} | 0 <= i < |s| ensures s[i].size >= 0 {
      assert s[i] == t[lo + i];
    }
  }

  /** s stands between the neighbours a and b. */
  ghost predicate Between(a: seq<Segment>, s: Segment, b: seq<Segment>) {
    Separate(a + b) && s.size >= 0 && (a != [] ==> a[|a| - 1].Before(s)) && (b != [] ==> s.Before(b[0]))
  }

  lemma AddedSeparate(a: seq<Segment>, s: Segment, b: seq<Segment>)
    requires Between(a, s, b)
    ensures Separate(Added(a, s, b))
  {
    hide Separate;
    SeparateParts(a, b);
    SizesLeft(a, b);
    var meets := a != [] && a[|a| - 1].End() >= s.start;
    var front, x := if meets then a[..|a| - 1] else a, if meets then Joined(a[|a| - 1], s) else s;
    if b != [] && x.End() >= b[0].start {
      SeparateAround(front, Joined(x, b[0]), b[1..]);
    } else {
      SeparateAround(front, x, b);
    }
  }

  lemma SizesLeft(a: seq<Segment>, b: seq<Segment>)
    requires Separate(a + b)
    ensures (a != [] ==> a[|a| - 1].size >= 0) && (b != [] ==> b[0].size >= 0)
  {
    assert a != [] ==> (a + b)[|a| - 1] == a[|a| - 1];
    assert b != [] ==> (a + b)[|a|] == b[0];
  }

  lemma CoversBoth(a: seq<Segment>, b: seq<Segment>, x: int)
    ensures Covers(a + b, x) <==> Covers(a, x) || Covers(b, x)
  {
    var t := a + b;
    if Covers(t, x) {
      var i :| 0 <= i < |t| && t[i].Has(x);
      assert t[i] == if i < |a| then a[i] else b[if i >= |a| then i - |a| else 0];
    }
    if Covers(a, x) {
      var i :| 0 <= i < |a| && a[i].Has(x);
      assert t[i] == a[i];
    }
    if Covers(b, x) {
      var i :| 0 <= i < |b| && b[i].Has(x);
      assert t[|a| + i] == b[i];
    }
  }

  lemma CoversOne(y: Segment, x: int)
    ensures Covers([y], x) <==> y.Has(x)
  {
    assert [y][0] == y;
  }

  /** What is covered, with the two neighbours apart from the rest. */
  lemma CoversAround(a: seq<Segment>, s: Segment, b: seq<Segment>, x: int)
    ensures Covers(a + b, x) <==>
            (a != [] && (a[|a| - 1].Has(x) || Covers(a[..|a| - 1], x))) || (b != [] && (b[0].Has(x) || Covers(b[1..], x)))
    ensures var meets := a != [] && a[|a| - 1].End() >= s.start;
            var y := if meets then Joined(a[|a| - 1], s) else s;
            var joins := b != [] && y.End() >= b[0].start;
            var z := if joins then Joined(y, b[0]) else y;
            Covers(Added(a, s, b), x) <==>
            || z.Has(x)
            || (a != [] && (Covers(a[..|a| - 1], x) || (!meets && a[|a| - 1].Has(x))))
            || (b != [] && (Covers(b[1..], x) || (!joins && b[0].Has(x))))
  {
    hide Covers;
    CoversNone(x);
    CoversBoth(a, b, x);
    if a != [] {
      assert a == a[..|a| - 1] + [a[|a| - 1]];
      CoversBoth(a[..|a| - 1], [a[|a| - 1]], x);
      CoversOne(a[|a| - 1], x);
    }
    if b != [] {
      assert b == [b[0]] + b[1..];
      CoversBoth([b[0]], b[1..], x);
      CoversOne(b[0], x);
    }
    var meets := a != [] && a[|a| - 1].End() >= s.start;
    var front, y := if meets then a[..|a| - 1] else a, if meets then Joined(a[|a| - 1], s) else s;
    var joins := b != [] && y.End() >= b[0].start;
    var z, back := if joins then Joined(y, b[0]) else y, if joins then b[1..] else b;
    assert Added(a, s, b) == front + [z] + back;
    CoversBoth(front + [z], back, x);
    CoversBoth(front, [z], x);
    CoversOne(z, x);
  }

  lemma CoversNone(x: int)
    ensures !Covers([], x)
  {
  }

  /** Neither neighbour holds the new range strictly, nor the other way round. */
  ghost predicate NoneInside(a: seq<Segment>, s: Segment, b: seq<Segment>) {
    (a != [] ==> !s.StrictlyIn(a[|a| - 1])) && (b != [] ==> !b[0].StrictlyIn(s))
  }

  /** Only neighbours matter. */
  lemma NoneInsideIff(a: seq<Segment>, s: Segment, b: seq<Segment>)
    requires Between(a, s, b)
    ensures NoneInside(a, s, b) <==> forall i :: 0 <= i < |a + b| ==> !(a + b)[i].StrictlyIn(s) && !s.StrictlyIn((a + b)[i])
  {
    var t := a + b;
    assert a != [] ==> t[|a| - 1] == a[|a| - 1];
    assert b != [] ==> t[|a|] == b[0];
    forall i | 0 <= i < |t| && NoneInside(a, s, b) ensures !t[i].StrictlyIn(s) && !s.StrictlyIn(t[i]) {
      if i < |a| {
        assert i < |a| - 1 ==> t[i].End() < t[|a| - 1].start;
      } else {
        assert i > |a| ==> t[|a|].End() < t[i].start;
      }
    }
  }

  /** Nothing is covered that was not before, and is not in the new range. */
  lemma AddedSound(a: seq<Segment>, s: Segment, b: seq<Segment>, x: int)
    requires Between(a, s, b)
    ensures Covers(Added(a, s, b), x) ==> Covers(a + b, x) || s.Has(x)
  {
    hide Covers, Separate;
    CoversAround(a, s, b, x);
    SizesLeft(a, b);
  }

  /** If no range lies strictly inside the other, everything is covered. */
  lemma AddedComplete(a: seq<Segment>, s: Segment, b: seq<Segment>, x: int)
    requires Between(a, s, b) && NoneInside(a, s, b)
    ensures Covers(a + b, x) || s.Has(x) ==> Covers(Added(a, s, b), x)
  {
    hide Covers, Separate;
    CoversAround(a, s, b, x);
    SizesLeft(a, b);
  }

  /** Otherwise the end of the inner range is lost. */
  lemma AddedLoses(a: seq<Segment>, s: Segment, b: seq<Segment>) returns (x: int)
    requires Between(a, s, b) && !NoneInside(a, s, b)
    ensures (Covers(a + b, x) || s.Has(x)) && !Covers(Added(a, s, b), x)
  {
    hide Separate;
    x := if a != [] && s.StrictlyIn(a[|a| - 1]) then s.End() else b[0].End();
    CoversAround(a, s, b, x);
    SizesLeft(a, b);
    SeparateParts(a, b);
    LowerEnds(a);
    UpperStarts(b);
  }

  lemma LowerEnds(a: seq<Segment>)
    requires Separate(a)
    ensures a != [] ==> var c := a[..|a| - 1]; forall i {:trigger c[i]} :: 0 <= i < |c| ==> c[i].End() < a[|a| - 1].start
  {
  }

  lemma UpperStarts(b: seq<Segment>)
    requires Separate(b)
    ensures b != [] ==> var c := b[1..]; forall i {:trigger c[i]} :: 0 <= i < |c| ==> c[i].start > b[0].End()
  {
  }

  lemma {:induction false} MergedPrefix(front: seq<Segment>, rest: seq<Segment>, more: seq<Segment>)
    requires Separate(front + rest)
    ensures Merged(front, rest + more) == Merged(front + rest, more)
    decreases |rest|
  {
    if rest == [] {
      assert front + rest == front && rest + more == more;
    } else {
      var all := front + rest;
      assert all[|front|] == rest[0];
      assert front != [] ==> all[|front| - 1] == front[|front| - 1];
      assert front + [rest[0]] + rest[1..] == all;
      assert (rest + more)[1..] == rest[1..] + more;
      MergedPrefix(front + [rest[0]], rest[1..], more);
    }
  }

  /** The set after a range has been added. */
  function AfterAdding(d: seq<Segment>, s: Segment): seq<Segment> {
    Merged([], Insert(d, s))
  }

  /** Adding to separate ranges joins the new one with its neighbours. */
  lemma AddingIs(d: seq<Segment>, s: Segment)
    requires Separate(d) && s.size >= 0
    ensures s in d ==> AfterAdding(d, s) == d
    ensures var p := Position(d, s); s !in d ==> AfterAdding(d, s) == Added(d[..p], s, d[p..]) && Between(d[..p], s, d[p..])
  {
    hide *;
    AfterIs(d, s);
    InsertedAt(d, s);
    assert [] + d == d;
    if s in d {
      MergedSeparate([], d);
    } else {
      var p := Position(d, s);
      NowBetween(d, s, p);
      BetweenMerged(d[..p], s, d[p..]);
    }
  }

  lemma AfterIs(d: seq<Segment>, s: Segment)
    ensures AfterAdding(d, s) == Merged([], Insert(d, s))
  {
  }

  lemma NowBetween(d: seq<Segment>, s: Segment, p: nat)
    requires Separate(d) && s.size >= 0 && p <= |d| && (p > 0 ==> d[p - 1].Before(s)) && (p < |d| ==> s.Before(d[p]))
    ensures Between(d[..p], s, d[p..])
  {
    hide Separate;
    assert d[..p] + d[p..] == d;
  }

  lemma BetweenMerged(a: seq<Segment>, s: Segment, b: seq<Segment>)
    requires Between(a, s, b)
    ensures Merged([], a + [s] + b) == Added(a, s, b)
  {
    hide *;
    AddedSeparate(a, s, b);
    BetweenSeparate(a, s, b);
    assert [] + a == a && a + [s] + b == a + ([s] + b);
    MergedPrefix([], a, [s] + b);
    MergedTwo(a, s, b);
  }

  lemma BetweenSeparate(a: seq<Segment>, s: Segment, b: seq<Segment>)
    requires Between(a, s, b)
    ensures Separate(a)
  {
    hide Separate;
    SeparateParts(a, b);
  }

  lemma InsertedAt(d: seq<Segment>, s: Segment)
    requires Separate(d)
    ensures var p := Position(d, s);
            if s in d then Insert(d, s) == d
            else Insert(d, s) == d[..p] + [s] + d[p..] && (p > 0 ==> d[p - 1].Before(s)) && (p < |d| ==> s.Before(d[p]))
  {
    var p := Position(d, s);
    if s in d {
      SeparateSorted(d);
      var i :| 0 <= i < |d| && d[i] == s;
    }
  }

  lemma MergedTwo(a: seq<Segment>, s: Segment, b: seq<Segment>)
    requires Separate(Added(a, s, b))
    ensures Merged(a, [s] + b) == Added(a, s, b)
  {
    hide Separate;
    var meets := a != [] && a[|a| - 1].End() >= s.start;
    var front, y := if meets then a[..|a| - 1] else a, if meets then Joined(a[|a| - 1], s) else s;
    assert ([s] + b)[1..] == b && ([s] + b)[0] == s;
    assert Merged(a, [s] + b) == Merged(front + [y], b);
    MergedBehind(front, y, b);
  }

  lemma NextInRow(front: seq<Segment>, y: Segment, b: seq<Segment>)
    requires b != []
    ensures front + [y] + b == front + [y] + [b[0]] + b[1..]
  {
    hide *;
    assert b == [b[0]] + b[1..];
  }

  lemma MergedNext(front: seq<Segment>, y: Segment, b: seq<Segment>)
    requires b != []
    ensures Merged(front + [y], b) == Merged(if y.End() >= b[0].start then front + [Joined(y, b[0])] else front + [y] + [b[0]], b[1..])
  {
    assert (front + [y])[..|front|] == front;
  }

  lemma MergedBehind(front: seq<Segment>, y: Segment, b: seq<Segment>)
    requires Separate(if b != [] && y.End() >= b[0].start then front + [Joined(y, b[0])] + b[1..] else front + [y] + b)
    ensures Merged(front + [y], b) == if b != [] && y.End() >= b[0].start then front + [Joined(y, b[0])] + b[1..] else front + [y] + b
  {
    hide Separate;
    if b != [] {
      MergedNext(front, y, b);
      if y.End() >= b[0].start {
        MergedSeparate(front + [Joined(y, b[0])], b[1..]);
      } else {
        NextInRow(front, y, b);
        MergedSeparate(front + [y] + [b[0]], b[1..]);
      }
    } else {
      assert front + [y] + b == front + [y];
    }
  }

  /** The ranges stay in order and apart, whatever is added. */
  lemma AddKeepsSeparate(d: seq<Segment>, s: Segment)
    requires Separate(d) && s.size >= 0
    ensures Separate(AfterAdding(d, s))
  {
    hide Separate, AfterAdding;
    AddingIs(d, s);
    if s !in d {
      var p := Position(d, s);
      AddedSeparate(d[..p], s, d[p..]);
    }
  }

  /** Only what was covered or added is covered. */
  lemma AddSound(d: seq<Segment>, s: Segment, x: int)
    requires Separate(d) && s.size >= 0 && Covers(AfterAdding(d, s), x)
    ensures Covers(d, x) || s.Has(x)
  {
    hide Separate, AfterAdding, Position;
    AddingIs(d, s);
    if s !in d {
      var p := Position(d, s);
      assert d[..p] + d[p..] == d;
      AddedSound(d[..p], s, d[p..], x);
    }
  }

  /** No range of d lies strictly inside s, nor s strictly inside one. */
  ghost predicate Apart(d: seq<Segment>, s: Segment) {
    forall i {:trigger d[i]} :: 0 <= i < |d| ==> !d[i].StrictlyIn(s) && !s.StrictlyIn(d[i])
  }

  /** What was covered or added is covered exactly if no range lies strictly inside the other. */
  lemma AddCompleteIff(d: seq<Segment>, s: Segment)
    requires Separate(d) && s.size >= 0
    ensures (forall x :: Covers(d, x) || s.Has(x) ==> Covers(AfterAdding(d, s), x)) <==> Apart(d, s)
  {
    hide Separate, AfterAdding, Position, Covers;
    AddingIs(d, s);
    if s in d {
      KnownRange(d, s);
    } else {
      var p := Position(d, s);
      var a, b := d[..p], d[p..];
      assert a + b == d;
      NoneInsideIff(a, s, b);
      if NoneInside(a, s, b) {
        forall x | Covers(d, x) || s.Has(x) ensures Covers(AfterAdding(d, s), x) {
          AddedComplete(a, s, b, x);
        }
      } else {
        var x := AddedLoses(a, s, b);
      }
    }
  }

  lemma KnownRange(d: seq<Segment>, s: Segment)
    requires Separate(d) && s in d
    ensures Apart(d, s) && forall x :: s.Has(x) ==> Covers(d, x)
  {
    var i :| 0 <= i < |d| && d[i] == s;
    forall j | 0 <= j < |d| ensures !d[j].StrictlyIn(s) && !s.StrictlyIn(d[j]) {
      assert j < i ==> d[j].End() < d[i].start;
      assert i < j ==> d[i].End() < d[j].start;
    }
  }

  /** A range inside one that is already there cuts it short. */
  lemma InnerRangeCuts()
    ensures AfterAdding([Segment(0, 100)], Segment(10, 10)) == [Segment(0, 20)]
  {
    var d := [Segment(0, 100)];
    InsertAt(d, Segment(10, 10), 1);
    assert Insert(d, Segment(10, 10)) == [Segment(0, 100), Segment(10, 10)];
    assert Merged([Segment(0, 100)], [Segment(10, 10)]) == [Segment(0, 20)] by {
      assert [Segment(0, 100)][..0] == [];
    }
  }
}
