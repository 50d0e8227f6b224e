// A file in the download queue: which ranges are finished, which are running,
// and which comes next.
module QueueItem {
  import opened Segments
  import opened Words

  datatype Download = Download(segment: Segment, pos: int)

  predicate OnBlock(x: int, bs: int) {
    bs > 0 && x % bs == 0
  }

  lemma OnBlockSum(x: int, y: int, bs: int)
    requires OnBlock(x, bs) && OnBlock(y, bs)
    ensures OnBlock(x + y, bs) && OnBlock(x - y, bs)
  {
    Multiple(x + y, x / bs + y / bs, bs);
    Multiple(x - y, x / bs - y / bs, bs);
  }

  lemma Multiple(x: int, k: int, bs: int)
    requires bs > 0 && x == k * bs
    ensures OnBlock(x, bs)
  {
    DivModUnique(x, bs, k, 0);
  }

  lemma OnBlockGap(x: int, y: int, bs: int)
    requires OnBlock(x, bs) && OnBlock(y, bs) && x < y
    ensures x + bs <= y
  {
    if y < x + bs {
      DivModUnique(y, bs, x / bs, y - x);
    }
  }

  /** To the nearest multiple, despite its name. */
  function RoundDown(size: int, blockSize: int): int
    requires blockSize > 0
  {
    (size + blockSize / 2) / blockSize * blockSize
  }

  /** The size to ask for: the wanted size in whole blocks, at least one. */
  function Target(wanted: int, bs: int): (t: int)
    requires bs > 0
    ensures OnBlock(t, bs) && t >= bs
    ensures if wanted > bs then wanted - t < bs - bs / 2 && t - wanted <= bs / 2 else t == bs
  {
    if wanted > bs then
      Rounded(wanted, bs);
      RoundDownIff(wanted, bs);
      RoundDown(wanted, bs)
    else
      Multiple(bs, 1, bs);
      bs
  }

  lemma Rounded(n: int, bs: int)
    requires n > bs > 0
    ensures OnBlock(RoundDown(n, bs), bs) && RoundDown(n, bs) >= bs
  {
    var k := (n + bs / 2) / bs;
    Multiple(k * bs, k, bs);
    assert n + bs / 2 == k * bs + (n + bs / 2) % bs;
    TimesBlock(k, bs);
  }

  /** Rounds to the nearest multiple, half a block upwards: below the argument exactly in the first half of a block. */
  lemma RoundDownIff(n: int, bs: int)
    requires n >= 0 && bs > 0
    ensures OnBlock(RoundDown(n, bs), bs) && RoundDown(n, bs) >= 0
    ensures RoundDown(n, bs) <= n <==> n % bs < bs - bs / 2
    ensures n - RoundDown(n, bs) < bs - bs / 2 && RoundDown(n, bs) - n <= bs / 2
  {
    hide RoundDown, OnBlock;
    var q, r := n / bs, n % bs;
    assert n == q * bs + r && q >= 0;
    Multiple(q * bs, q, bs);
    Multiple((q + 1) * bs, q + 1, bs);
    MulDistributes(q, 1, bs);
    RoundDownIs(n, bs, q, r);
  }

  lemma RoundDownIs(n: int, bs: int, q: int, r: int)
    requires bs > 0 && 0 <= r < bs && n == q * bs + r
    ensures RoundDown(n, bs) == if r < bs - bs / 2 then q * bs else (q + 1) * bs
  {
    MulDistributes(q, 1, bs);
    if r < bs - bs / 2 {
      DivModUnique(n + bs / 2, bs, q, r + bs / 2);
    } else {
      DivModUnique(n + bs / 2, bs, q + 1, r + bs / 2 - bs);
    }
  }

  lemma TimesBlock(k: int, bs: int)
    requires bs > 0
    ensures k <= 0 ==> k * bs <= 0
    ensures k >= 1 ==> k * bs >= bs
  {
  }

  /** What is left of a position down to its block. */
  lemma BlockPart(p: int, bs: int)
    requires bs > 0 && p >= 0
    ensures OnBlock(p - p % bs, bs) && 0 <= p - p % bs <= p
  {
    Multiple(p - p % bs, p / bs, bs);
    assert p / bs >= 0 && p / bs * bs >= 0;
  }

  /** A non-empty range of whole blocks; only the last block of the file may be short. */
  ghost predicate Aligned(s: Segment, size: int, bs: int) {
    0 <= s.start && s.size > 0 && s.End() <= size && OnBlock(s.start, bs) && (OnBlock(s.End(), bs) || s.End() == size)
  }

  function Min(a: int, b: int): int {
    if a < b then a else b
  }

  /** The range of curSize bytes from start, as far as the file goes. */
  function BlockAt(start: int, curSize: int, size: int): Segment {
    Segment(start, Min(size, start + curSize) - start)
  }

  /** A single block is covered by an aligned range as soon as they overlap. */
  lemma SingleBlock(start: int, d: Segment, size: int, bs: int)
    requires OnBlock(start, bs) && 0 <= start < size && Aligned(d, size, bs)
    ensures var b := BlockAt(start, bs, size); d.start <= start && d.End() >= b.End() <==> b.Overlaps(d)
  {
    if start < d.start {
      OnBlockGap(start, d.start, bs);
    }
    if OnBlock(d.End(), bs) && start < d.End() {
      OnBlockGap(start, d.End(), bs);
    }
  }

  lemma BlockAligned(start: int, curSize: int, size: int, bs: int)
    requires OnBlock(start, bs) && OnBlock(curSize, bs) && 0 <= start < size && curSize > 0
    ensures Aligned(BlockAt(start, curSize, size), size, bs)
  {
    OnBlockSum(start, curSize, bs);
  }

  /** No range in the list overlaps s. */
  ghost predicate Clear(s: Segment, list: seq<Segment>) {
    forall i {:trigger list[i]} :: 0 <= i < |list| ==> !s.Overlaps(list[i])
  }

  ghost predicate ClearOf(s: Segment, running: seq<Download>) {
    forall i {:trigger running[i]} :: 0 <= i < |running| ==> !s.Overlaps(running[i].segment)
  }

  /** Running ranges are aligned and share nothing with each other or with what is done. */
  ghost predicate Running(downloads: seq<Download>, done: seq<Segment>, size: int, bs: int) {
    && (forall i {:trigger downloads[i]} :: 0 <= i < |downloads| ==>
          Aligned(downloads[i].segment, size, bs) && 0 <= downloads[i].pos <= downloads[i].segment.size && Clear(downloads[i].segment, done))
    && (forall i, j {:trigger downloads[i], downloads[j]} :: 0 <= i < j < |downloads| ==> !downloads[i].segment.Overlaps(downloads[j].segment))
  }

  /** Finished ranges are aligned, in order, and apart. */
  ghost predicate Finished(done: seq<Segment>, size: int, bs: int) {
    Separate(done) && forall i {:trigger done[i]} :: 0 <= i < |done| ==> Aligned(done[i], size, bs)
  }

  class Item {
    const size: int
    const maxSegments: nat
    var done: seq<Segment>
    var downloads: seq<Download>
    ghost var added: seq<Segment>  // every range that was ever added

    ghost predicate Valid(bs: int)
      reads this
    {
      && bs > 0 && size >= 0 && Finished(done, size, bs) && Running(downloads, done, size, bs)
      && forall x {:trigger Covers(done, x)} {:trigger Covers(added, x)} :: Covers(done, x) <==> Covers(added, x)
    }

    constructor (aSize: int, aMaxSegments: nat, ghost bs: int)
      ensures size == aSize && maxSegments == aMaxSegments && done == [] && downloads == []
      ensures bs > 0 && aSize >= 0 ==> Valid(bs)
    {
      hide *;
      size, maxSegments, done, downloads, added := aSize, aMaxSegments, [], [], [];
      new;
      NothingYet(aSize, bs);
      if bs > 0 && aSize >= 0 {
        NowValid(bs);
      }
    }

    predicate IsFinished()
      reads this`done
    {
      done == [Segment(0, size)]
    }

    /** Adds a finished range and joins those that meet. */
    method AddSegment(segment: Segment)
      requires Sorted(done) && segment.size >= 0
      modifies this`done
      ensures done == AfterAdding(old(done), segment)
    {
      hide Merged, Position, Insert, AfterAdding;
      InsertSorted(done, segment);
      AfterIs(done, segment);
      done := Insert(done, segment);
      InsertNone(old(done), segment);
      if |done| == 1 {
        MergedOne(done);
        return;
      }
      MergeNext([], done);
      FirstSeparate(done);
      var i := 1;
      while i < |done|
        invariant 1 <= i <= |done| && Sorted(done) && Separate(done[..i])
        invariant Merged(done[..i], done[i..]) == AfterAdding(old(done), segment)
        decreases |done| - i
      {
        var prev := done[i - 1];
        MergeNext(done[..i], done[i..]);
        if prev.End() >= done[i].start {
          var big := Segment(prev.start, done[i].End() - prev.start);
          JoinAt(done, i);
          var rest := done[..i - 1] + done[i + 1..];
          done := Insert(rest, big);
        } else {
          StepOver(done, i);
          i := i + 1;
        }
      }
      assert done[..i] == done && done[i..] == [];
      MergedEnd(done);
    }

    /** Nothing done or running overlaps s. */
    ghost predicate Free(s: Segment)
      reads this`done, this`downloads
    {
      Clear(s, done) && ClearOf(s, downloads)
    }

    /** Whether the block overlaps what is done; a single block counts as done only if all of it is. */
    method OverlapsDone(block: Segment, curSize: int, blockSize: int) returns (overlaps: bool)
      requires Finished(done, size, blockSize) && OnBlock(block.start, blockSize) && 0 <= block.start < size
      requires curSize >= blockSize && block == BlockAt(block.start, curSize, size)
      ensures overlaps == !Clear(block, done)
    {
      hide OnBlock, Aligned, Separate;
      overlaps := false;
      var i := 0;
      while !overlaps && i < |done|
        invariant 0 <= i <= |done|
        invariant !overlaps ==> forall j {:trigger done[j]} :: 0 <= j < i ==> !block.Overlaps(done[j])
        invariant overlaps ==> !Clear(block, done)
        decreases |done| - i, !overlaps
      {
        if curSize <= blockSize {
          SingleBlock(block.start, done[i], size, blockSize);
          if done[i].start <= block.start && done[i].End() >= block.End() {
            overlaps := true;
          }
        } else {
          overlaps := block.Overlaps(done[i]);
        }
        i := i + 1;
      }
    }

    method OverlapsRunning(block: Segment) returns (overlaps: bool)
      ensures overlaps == !ClearOf(block, downloads)
    {
      overlaps := false;
      var i := 0;
      while !overlaps && i < |downloads|
        invariant 0 <= i <= |downloads|
        invariant !overlaps ==> forall j {:trigger downloads[j]} :: 0 <= j < i ==> !block.Overlaps(downloads[j].segment)
        invariant overlaps ==> !ClearOf(block, downloads)
        decreases |downloads| - i
      {
        overlaps := block.Overlaps(downloads[i].segment);
        i := i + 1;
      }
    }

    /** Every single block before x is taken. */
    ghost predicate TakenBefore(x: int, bs: int)
      reads this`done, this`downloads
    {
      forall k {:trigger OnBlock(k, bs)} :: 0 <= k < x && k < size && OnBlock(k, bs) ==> !Free(BlockAt(k, bs, size))
    }

    /** r is the first free range, and as large as the target and its surroundings allow; empty if nothing is free. */
    ghost predicate Chosen(r: Segment, target: int, bs: int)
      reads this`done, this`downloads
    {
      if r == Segment(0, 0) then TakenBefore(size, bs)
      else
        && Aligned(r, size, bs) && r.size <= target && Free(r) && TakenBefore(r.start, bs)
        && (r.size == target || r.End() == size || !Free(BlockAt(r.start, r.size + bs, size)))
    }

    /** The next range to download; wanted is what the size curve gives. */
    method GetNextSegment(blockSize: int, wanted: int, limited: bool) returns (r: Segment)
      requires size != -1 && blockSize != 0 ==> Valid(blockSize)
      ensures size == -1 || blockSize == 0 ==> r == Segment(0, -1)
      ensures size != -1 && blockSize != 0 ==>
                if |downloads| >= maxSegments || limited then r == Segment(-1, 0) else Chosen(r, Target(wanted, blockSize), blockSize)
    {
      hide Free, Aligned, OnBlock, Finished, Running, BlockAt;
      if size == -1 || blockSize == 0 {
        return Segment(0, -1);
      }
      if |downloads| >= maxSegments || limited {
        return Segment(-1, 0);
      }
      var targetSize := if wanted > blockSize then RoundDown(wanted, blockSize) else blockSize;
      assert targetSize == Target(wanted, blockSize);
      var start, curSize := 0, targetSize;
      ZeroOnBlock(blockSize);
      while start < size
        invariant 0 <= start && (start < size ==> OnBlock(start, blockSize)) && TakenBefore(start, blockSize)
        invariant OnBlock(curSize, blockSize) && blockSize <= curSize <= targetSize
        invariant start < size ==> curSize == targetSize || !Free(BlockAt(start, curSize + blockSize, size))
        decreases size - start, curSize
      {
        var end := Min(size, start + curSize);
        var block := Segment(start, end - start);
        BlockIs(start, curSize, size);
        var overlaps := OverlapsDone(block, curSize, blockSize);
        if !overlaps {
          overlaps := OverlapsRunning(block);
        }
        FreeIs(block);
        if !overlaps {
          BlockAligned(start, curSize, size, blockSize);
          AlignedNotEmpty(block, size, blockSize);
          if end != size {
            assert block.size == curSize;
          }
          return block;
        }
        if curSize > blockSize {
          NextSmaller(curSize, blockSize);
          curSize := curSize - blockSize;
        } else {
          NextStart(start, blockSize);
          start := end;
          curSize := targetSize;
        }
      }
      return Segment(0, 0);
    }

    lemma ValidFacts(bs: int)
      requires Valid(bs)
      ensures bs > 0 && size >= 0 && Finished(done, size, bs) && Running(downloads, done, size, bs)
      ensures forall x {:trigger Covers(done, x)} {:trigger Covers(added, x)} :: Covers(done, x) <==> Covers(added, x)
    {
    }

    lemma NowValid(bs: int)
      requires bs > 0 && size >= 0 && Finished(done, size, bs) && Running(downloads, done, size, bs)
      requires forall x {:trigger Covers(done, x)} {:trigger Covers(added, x)} :: Covers(done, x) <==> Covers(added, x)
      ensures Valid(bs)
    {
    }

    /** Begins the download of a range. */
    method AddDownload(segment: Segment, ghost bs: int)
      requires Valid(bs) && Aligned(segment, size, bs) && Clear(segment, done) && ClearOf(segment, downloads)
      modifies this`downloads
      ensures Valid(bs) && downloads == old(downloads) + [Download(segment, 0)]
    {
      hide *;
      ValidFacts(bs);
      MoreRunning(downloads, segment, done, size, bs);
      downloads := downloads + [Download(segment, 0)];
      NowValid(bs);
    }

    /** More of a running range has come in. */
    method AddPos(i: nat, n: nat, ghost bs: int)
      requires Valid(bs) && i < |downloads| && downloads[i].pos + n <= downloads[i].segment.size
      modifies this`downloads
      ensures Valid(bs) && downloads == old(downloads)[i := old(downloads)[i].(pos := old(downloads)[i].pos + n)]
    {
      hide *;
      ValidFacts(bs);
      LaterPos(downloads, i, n, done, size, bs);
      downloads := downloads[i := downloads[i].(pos := downloads[i].pos + n)];
      NowValid(bs);
    }

    method RemoveDownload(i: nat)
      requires i < |downloads|
      modifies this`downloads
      ensures downloads == old(downloads)[..i] + old(downloads)[i + 1..]
    {
      downloads := downloads[..i] + downloads[i + 1..];
    }

    /** A download ends; a failed one counts as far as it got, in whole blocks. */
    method PutDownload(i: nat, finished: bool, blockSize: int)
      requires Valid(blockSize) && i < |downloads|
      modifies this`done, this`downloads, this`added
      ensures Valid(blockSize) && downloads == old(downloads)[..i] + old(downloads)[i + 1..]
      ensures var d := old(downloads)[i]; var n := if finished then d.segment.size else d.pos - d.pos % blockSize;
              && added == old(added) + (if n > 0 then [Segment(d.segment.start, n)] else [])
              && forall x :: Covers(done, x) <==> old(Covers(done, x)) || (d.segment.start <= x < d.segment.start + n)
    {
      hide *;
      ValidFacts(blockSize);
      hide *;
      ValidFacts(blockSize);
      var d := downloads[i];
      RunningFacts(downloads, done, i, size, blockSize);
      if finished {
        PartDone(done, downloads, i, d.segment.size, size, blockSize);
        PartAdded(done, added, d.segment);
        AddSegment(d.segment);
        added := added + [d.segment];
      } else {
        var downloaded := d.pos;
        BlockPart(d.pos, blockSize);
        downloaded := downloaded - downloaded % blockSize;
        if downloaded > 0 {
          PartDone(done, downloads, i, downloaded, size, blockSize);
          PartAdded(done, added, Segment(d.segment.start, downloaded));
          AddSegment(Segment(d.segment.start, downloaded));
          added := added + [Segment(d.segment.start, downloaded)];
        } else {
          FewerRunning(downloads, i, done, size, blockSize);
        }
      }
      RemoveDownload(i);
      NowValid(blockSize);
      assert old(added) + [] == old(added);
    }

    lemma FreeIs(s: Segment)
      ensures Free(s) <==> Clear(s, done) && ClearOf(s, downloads)
    {
    }

    /** One more block is taken. */
    lemma NextStart(start: int, bs: int)
      requires 0 <= start < size && OnBlock(start, bs) && TakenBefore(start, bs) && !Free(BlockAt(start, bs, size))
      ensures TakenBefore(Min(size, start + bs), bs) && (start + bs < size ==> OnBlock(start + bs, bs)) && bs > 0
    {
      hide Free, BlockAt;
      Multiple(bs, 1, bs);
      OnBlockSum(start, bs, bs);
      forall k | 0 <= k < Min(size, start + bs) && OnBlock(k, bs) ensures !Free(BlockAt(k, bs, size)) {
        if k > start {
          OnBlockGap(start, k, bs);
        }
      }
    }
  }

  lemma NothingYet(size: int, bs: int)
    ensures Finished([], size, bs) && Running([], [], size, bs)
  {
  }

  lemma MoreRunning(downloads: seq<Download>, s: Segment, done: seq<Segment>, size: int, bs: int)
    requires Running(downloads, done, size, bs) && Aligned(s, size, bs) && Clear(s, done) && ClearOf(s, downloads)
    ensures Running(downloads + [Download(s, 0)], done, size, bs)
  {
    hide Aligned, Clear;
    AlignedNotEmpty(s, size, bs);
    var t := downloads + [Download(s, 0)];
    assert forall i {:trigger t[i]} :: 0 <= i < |downloads| ==> t[i] == downloads[i];
  }

  lemma LaterPos(downloads: seq<Download>, i: nat, n: nat, done: seq<Segment>, size: int, bs: int)
    requires Running(downloads, done, size, bs) && i < |downloads| && downloads[i].pos + n <= downloads[i].segment.size
    ensures Running(downloads[i := downloads[i].(pos := downloads[i].pos + n)], done, size, bs)
  {
    hide Aligned, Clear;
    var t := downloads[i := downloads[i].(pos := downloads[i].pos + n)];
    assert forall j {:trigger t[j]} :: 0 <= j < |t| ==> t[j].segment == downloads[j].segment;
  }

  lemma RunningFacts(downloads: seq<Download>, done: seq<Segment>, i: nat, size: int, bs: int)
    requires Running(downloads, done, size, bs) && i < |downloads|
    ensures var d := downloads[i]; Aligned(d.segment, size, bs) && 0 <= d.pos <= d.segment.size && d.segment.size > 0
    ensures Clear(downloads[i].segment, done)
  {
  }

  lemma FewerRunning(downloads: seq<Download>, i: nat, done: seq<Segment>, size: int, bs: int)
    requires Running(downloads, done, size, bs) && i < |downloads|
    ensures Running(downloads[..i] + downloads[i + 1..], done, size, bs)
  {
    hide Aligned, Clear;
    var t := downloads[..i] + downloads[i + 1..];
    assert forall j {:trigger t[j]} :: 0 <= j < |t| ==> t[j] == downloads[if j < i then j else j + 1];
  }

  lemma ClearPoint(s: Segment, list: seq<Segment>, x: int)
    requires Clear(s, list) && s.Has(x)
    ensures !Covers(list, x)
  {
  }

  lemma ClearByPoints(s: Segment, list: seq<Segment>)
    requires s.size > 0
    requires forall i {:trigger list[i]} :: 0 <= i < |list| ==> list[i].size > 0
    requires forall x {:trigger Covers(list, x)} :: s.Has(x) ==> !Covers(list, x)
    ensures Clear(s, list)
  {
    forall i | 0 <= i < |list| ensures !s.Overlaps(list[i]) {
      var x := if s.start < list[i].start then list[i].start else s.start;
      if s.Overlaps(list[i]) {
        assert list[i].Has(x) && Covers(list, x);
      }
    }
  }

  /** A part of a running range meets nothing but the ends of what is done. */
  lemma PartApart(done: seq<Segment>, d: Segment, n: int, size: int, bs: int)
    requires Finished(done, size, bs) && Clear(d, done) && 0 < n <= d.size
    ensures Apart(done, Segment(d.start, n)) && Sorted(done) && Separate(done)
  {
    SeparateSorted(done);
    forall i | 0 <= i < |done| ensures !done[i].StrictlyIn(Segment(d.start, n)) && !Segment(d.start, n).StrictlyIn(done[i]) {
      assert done[i].size > 0 && !d.Overlaps(done[i]);
    }
  }

  lemma AddedAligned(a: seq<Segment>, s: Segment, b: seq<Segment>, size: int, bs: int)
    requires Between(a, s, b) && Aligned(s, size, bs)
    requires forall i {:trigger a[i]} :: 0 <= i < |a| ==> Aligned(a[i], size, bs)
    requires forall i {:trigger b[i]} :: 0 <= i < |b| ==> Aligned(b[i], size, bs)
    ensures forall i {:trigger Added(a, s, b)[i]} :: 0 <= i < |Added(a, s, b)| ==> Aligned(Added(a, s, b)[i], size, bs)
  {
    hide OnBlock, Separate;
    var meets := a != [] && a[|a| - 1].End() >= s.start;
    var front, y := if meets then a[..|a| - 1] else a, if meets then Joined(a[|a| - 1], s) else s;
    var joins := b != [] && y.End() >= b[0].start;
    var z, back := if joins then Joined(y, b[0]) else y, if joins then b[1..] else b;
    assert Aligned(y, size, bs) && Aligned(z, size, bs);
    var t := Added(a, s, b);
    assert t == front + [z] + back;
    forall i | 0 <= i < |t| ensures Aligned(t[i], size, bs) {
      if i > |front| {
        assert t[i] == back[i - |front| - 1];
      }
    }
  }

  lemma AfterFinished(done: seq<Segment>, s: Segment, size: int, bs: int)
    requires Finished(done, size, bs) && Aligned(s, size, bs)
    ensures Finished(AfterAdding(done, s), size, bs)
  {
    hide Separate, Aligned, AfterAdding, Position, Added, Between;
    AlignedNotEmpty(s, size, bs);
    AddKeepsSeparate(done, s);
    AddingIs(done, s);
    if s !in done {
      var p := Position(done, s);
      AddedAligned(done[..p], s, done[p..], size, bs);
    }
  }

  lemma PartAligned(d: Segment, n: int, size: int, bs: int)
    requires Aligned(d, size, bs) && 0 < n <= d.size && (n == d.size || OnBlock(n, bs))
    ensures Aligned(Segment(d.start, n), size, bs)
  {
    if n != d.size {
      OnBlockSum(d.start, n, bs);
    }
  }

  lemma FinishedSizes(done: seq<Segment>, size: int, bs: int)
    requires Finished(done, size, bs)
    ensures Separate(done) && forall i {:trigger done[i]} :: 0 <= i < |done| ==> done[i].size > 0
  {
  }

  /** Once the first n bytes of range i are done, the others still run alone. */
  lemma PartDone(done: seq<Segment>, downloads: seq<Download>, i: nat, n: int, size: int, bs: int)
    requires Finished(done, size, bs) && Running(downloads, done, size, bs) && i < |downloads|
    requires 0 < n <= downloads[i].segment.size && (n == downloads[i].segment.size || OnBlock(n, bs))
    ensures var s := Segment(downloads[i].segment.start, n); var after := AfterAdding(done, s);
            && Sorted(done) && Separate(done) && Apart(done, s)
            && Finished(after, size, bs) && Running(downloads[..i] + downloads[i + 1..], after, size, bs)
  {
    hide *;
    var d := downloads[i].segment;
    var s := Segment(d.start, n);
    RunningFacts(downloads, done, i, size, bs);
    PartApart(done, d, n, size, bs);
    PartAligned(d, n, size, bs);
    AfterFinished(done, s, size, bs);
    FewerRunning(downloads, i, done, size, bs);
    var left, after := downloads[..i] + downloads[i + 1..], AfterAdding(done, s);
    FinishedSizes(after, size, bs);
    forall j | 0 <= j < |left| ensures Clear(left[j].segment, after) {
      RunningFacts(left, done, j, size, bs);
      OthersApart(downloads, done, i, if j < i then j else j + 1, size, bs);
      forall x | left[j].segment.Has(x) ensures !Covers(after, x) {
        StillClear(done, d, n, left[j].segment, x);
      }
      ClearByPoints(left[j].segment, after);
    }
    NowRunning(left, done, after, size, bs);
  }

  lemma OthersApart(downloads: seq<Download>, done: seq<Segment>, i: nat, j: nat, size: int, bs: int)
    requires Running(downloads, done, size, bs) && i < |downloads| && j < |downloads| && i != j
    ensures !downloads[i].segment.Overlaps(downloads[j].segment)
  {
  }

  lemma StillClear(done: seq<Segment>, d: Segment, n: int, r: Segment, x: int)
    requires Separate(done) && 0 < n <= d.size && Clear(r, done) && !d.Overlaps(r) && r.Has(x)
    ensures !Covers(AfterAdding(done, Segment(d.start, n)), x)
  {
    hide Covers, AfterAdding, Separate;
    ClearPoint(r, done, x);
    if Covers(AfterAdding(done, Segment(d.start, n)), x) {
      AddSound(done, Segment(d.start, n), x);
    }
  }

  lemma NowRunning(downloads: seq<Download>, done: seq<Segment>, after: seq<Segment>, size: int, bs: int)
    requires Running(downloads, done, size, bs) && forall i {:trigger downloads[i]} :: 0 <= i < |downloads| ==> Clear(downloads[i].segment, after)
    ensures Running(downloads, after, size, bs)
  {
    hide Aligned, Clear;
  }

  /** What is covered grows by the range, here and in the record of everything added. */
  lemma PartAdded(done: seq<Segment>, added: seq<Segment>, s: Segment)
    requires Separate(done) && s.size > 0 && Apart(done, s)
    requires forall x {:trigger Covers(done, x)} {:trigger Covers(added, x)} :: Covers(done, x) <==> Covers(added, x)
    ensures forall x {:trigger Covers(AfterAdding(done, s), x)} {:trigger Covers(added + [s], x)} ::
              (Covers(AfterAdding(done, s), x) <==> Covers(added + [s], x)) && (Covers(AfterAdding(done, s), x) <==> Covers(done, x) || s.start <= x < s.start + s.size)
  {
    hide Covers, AfterAdding, Separate, Apart;
    AddCompleteIff(done, s);
    forall x ensures (Covers(AfterAdding(done, s), x) <==> Covers(added + [s], x)) && (Covers(AfterAdding(done, s), x) <==> Covers(done, x) || s.start <= x < s.start + s.size) {
      CoversBoth(added, [s], x);
      CoversOne(s, x);
      if Covers(AfterAdding(done, s), x) {
        AddSound(done, s, x);
      }
    }
  }

  lemma ZeroOnBlock(bs: int)
    requires bs > 0
    ensures OnBlock(0, bs)
  {
    Multiple(0, 0, bs);
  }

  lemma BlockIs(start: int, curSize: int, size: int)
    ensures Segment(start, Min(size, start + curSize) - start) == BlockAt(start, curSize, size)
  {
  }

  lemma AlignedNotEmpty(s: Segment, size: int, bs: int)
    requires Aligned(s, size, bs)
    ensures s.size > 0
  {
  }

  lemma NextSmaller(curSize: int, bs: int)
    requires OnBlock(curSize, bs) && curSize > bs
    ensures OnBlock(curSize - bs, bs) && curSize - bs >= bs
  {
    Multiple(bs, 1, bs);
    OnBlockSum(curSize, bs, bs);
    OnBlockGap(bs, curSize, bs);
  }

  lemma InsertNone(s: seq<Segment>, x: Segment)
    ensures |Insert(s, x)| >= 1
  {
  }

  lemma FirstSeparate(s: seq<Segment>)
    requires Sorted(s) && s != []
    ensures Separate(s[..1]) && s[..1] == [] + [s[0]]
  {
  }

  lemma MergedEnd(s: seq<Segment>)
    ensures Merged(s, []) == s
  {
  }

  lemma MergedOne(s: seq<Segment>)
    requires |s| == 1
    ensures Merged([], s) == s
  {
    assert s == [] + [s[0]] && s[1..] == [];
  }

  lemma MergeNext(front: seq<Segment>, rest: seq<Segment>)
    requires rest != []
    ensures Merged(front, rest) == if front != [] && front[|front| - 1].End() >= rest[0].start then
              Merged(front[..|front| - 1] + [Joined(front[|front| - 1], rest[0])], rest[1..])
            else Merged(front + [rest[0]], rest[1..])
  {
  }

  lemma SortedWithout(s: seq<Segment>, i: nat)
    requires 1 <= i < |s| && Sorted(s)
    ensures Sorted(s[..i - 1] + s[i + 1..])
  {
    var t := s[..i - 1] + s[i + 1..];
    forall k | 0 <= k < |t| ensures t[k] == s[if k < i - 1 then k else k + 2] {
    }
  }

  lemma SeparateFewer(s: seq<Segment>, i: nat)
    requires 1 <= i < |s| && Separate(s[..i])
    ensures Separate(s[..i - 1]) && (i > 1 ==> s[i - 2].End() < s[i - 1].start && s[i - 2].size >= 0)
  {
    var a, b := s[..i], s[..i - 1];
    assert forall k {:trigger b[k]} :: 0 <= k < i - 1 ==> b[k] == a[k];
    assert i > 1 ==> a[i - 2] == s[i - 2];
    assert a[i - 1] == s[i - 1];
  }

  lemma SortedPair(s: seq<Segment>, i: nat)
    requires 1 <= i < |s| && Sorted(s)
    ensures s[i - 1].Before(s[i]) && (i + 1 < |s| ==> s[i].Before(s[i + 1])) && s[i].size >= 0
  {
  }

  /** Erasing two neighbours and inserting their join puts it in their place. */
  lemma JoinAt(s: seq<Segment>, i: nat)
    requires 1 <= i < |s| && Sorted(s) && Separate(s[..i]) && s[i - 1].End() >= s[i].start
    ensures var big := Joined(s[i - 1], s[i]); var t := Insert(s[..i - 1] + s[i + 1..], big);
            && t == s[..i - 1] + [big] + s[i + 1..] && Sorted(t) && Separate(t[..i]) && t[..i] == s[..i][..i - 1] + [big] && t[i..] == s[i..][1..]
  {
    hide Sorted, Separate, Insert, Position;
    var big := Joined(s[i - 1], s[i]);
    var rest := s[..i - 1] + s[i + 1..];
    SortedWithout(s, i);
    SortedPair(s, i);
    SeparateFewer(s, i);
    InsertAt(rest, big, i - 1);
    InsertSorted(rest, big);
    SeparateNone();
    SeparateAround(s[..i - 1], big, []);
    var t := Insert(rest, big);
    assert rest[..i - 1] == s[..i - 1] && rest[i - 1..] == s[i + 1..];
    assert t[..i] == s[..i - 1] + [big] + [];
  }

  lemma SeparateNone()
    ensures Separate([])
  {
  }

  lemma StepOver(s: seq<Segment>, i: nat)
    requires 1 <= i < |s| && Sorted(s) && Separate(s[..i]) && s[i - 1].End() < s[i].start
    ensures Separate(s[..i + 1]) && s[..i + 1] == s[..i] + [s[i..][0]] && s[i + 1..] == s[i..][1..]
  {
  }

  // Progress and whole runs.

  /** If every block overlaps something finished, the whole file is. */
  lemma NoneLeft(done: seq<Segment>, size: int, bs: int)
    requires Finished(done, size, bs) && size > 0 && bs > 0
    requires forall k {:trigger OnBlock(k, bs)} :: 0 <= k < size && OnBlock(k, bs) ==> !Clear(BlockAt(k, bs, size), done)
    ensures done == [Segment(0, size)]
  {
    hide OnBlock;
    ZeroOnBlock(bs);
    var j := Taker(done, 0, size, bs);
    FirstStart(done, size, bs);
    FirstOnly(done, j, size, bs);
    var e := done[0].End();
    if e < size {
      assert OnBlock(e, bs);
      var i := Taker(done, e, size, bs);
      FirstOnly(done, i, size, bs);
    }
    SecondStart(done, size, bs);
  }

  lemma FirstStart(done: seq<Segment>, size: int, bs: int)
    requires Finished(done, size, bs) && done != []
    ensures done[0].start >= 0 && done[0].End() > 0
  {
  }

  lemma FirstOnly(done: seq<Segment>, j: nat, size: int, bs: int)
    requires Finished(done, size, bs) && j < |done| && done[j].start <= done[0].End()
    ensures j == 0
  {
  }

  lemma SecondStart(done: seq<Segment>, size: int, bs: int)
    requires Finished(done, size, bs)
    ensures |done| > 1 ==> done[0].End() < size
  {
    assert |done| > 1 ==> done[0].End() < done[1].start;
  }

  /** The finished range that a taken block lies in. */
  lemma Taker(done: seq<Segment>, k: int, size: int, bs: int) returns (j: nat)
    requires Finished(done, size, bs) && 0 <= k < size && OnBlock(k, bs) && !Clear(BlockAt(k, bs, size), done)
    ensures j < |done| && done[j].start <= k < done[j].End()
  {
    hide OnBlock;
    j :| 0 <= j < |done| && BlockAt(k, bs, size).Overlaps(done[j]);
    SingleBlock(k, done[j], size, bs);
  }

  /** How many blocks from k on are not finished at their first byte. */
  ghost function Open(done: seq<Segment>, k: int, size: int, bs: int): nat
    requires bs > 0
    decreases size - k
  {
    if k >= size then 0 else (if Covers(done, k) then 0 else 1) + Open(done, k + bs, size, bs)
  }

  lemma {:induction false} OpenBound(done: seq<Segment>, k: int, size: int, bs: int)
    requires bs > 0
    ensures Open(done, k, size, bs) > 0 ==> (Open(done, k, size, bs) - 1) * bs < size - k
    decreases size - k
  {
    hide Covers;
    if k < size {
      OpenBound(done, k + bs, size, bs);
      var n: int := Open(done, k + bs, size, bs);
      MulDistributes(n - 1, 1, bs);
    }
  }

  lemma {:induction false} OpenFewer(done: seq<Segment>, after: seq<Segment>, k: int, k0: int, size: int, bs: int)
    requires bs > 0 && forall x {:trigger Covers(after, x)} :: Covers(done, x) ==> Covers(after, x)
    ensures Open(after, k, size, bs) <= Open(done, k, size, bs)
    ensures OnBlock(k, bs) && OnBlock(k0, bs) && k <= k0 < size && !Covers(done, k0) && Covers(after, k0) ==>
              Open(after, k, size, bs) < Open(done, k, size, bs)
    decreases size - k
  {
    hide Covers, OnBlock;
    if k < size {
      OpenFewer(done, after, k + bs, k0, size, bs);
      Multiple(bs, 1, bs);
      if OnBlock(k, bs) && OnBlock(k0, bs) && k < k0 {
        OnBlockSum(k, bs, bs);
        OnBlockGap(k, k0, bs);
      }
    }
  }

  /** With nothing running, an unfinished file has a next range, and it starts at a block that is not finished. */
  lemma NextUnlessFinished(q: Item, r: Segment, target: int, bs: int)
    requires q.Valid(bs) && q.downloads == [] && q.size > 0 && q.Chosen(r, target, bs) && !q.IsFinished()
    ensures r != Segment(0, 0) && Aligned(r, q.size, bs) && Clear(r, q.done) && ClearOf(r, q.downloads)
    ensures OnBlock(r.start, bs) && 0 <= r.start < q.size && r.Has(r.start) && !Covers(q.done, r.start)
  {
    hide OnBlock;
    if r == Segment(0, 0) {
      forall k | 0 <= k < q.size && OnBlock(k, bs) ensures !Clear(BlockAt(k, bs, q.size), q.done) {
        assert !q.Free(BlockAt(k, bs, q.size));
      }
      NoneLeft(q.done, q.size, bs);
    } else {
      ClearPoint(r, q.done, r.start);
    }
  }

  /** Taking range after range and finishing each, whatever the sizes wanted, finishes the file in at most
      one round for every block. */
  method Drain(q: Item, bs: int, wanted: nat -> int) returns (rounds: nat)
    requires q.Valid(bs) && q.downloads == [] && q.maxSegments > 0 && q.size > 0
    modifies q
    ensures q.IsFinished() && q.Valid(bs) && q.downloads == []
    ensures rounds == 0 || (rounds - 1) * bs < q.size
  {
    hide *;
    q.ValidFacts(bs);
    rounds := 0;
    ghost var all := Open(q.done, 0, q.size, bs);
    OpenBound(q.done, 0, q.size, bs);
    ZeroOnBlock(bs);
    var finished := q.IsFinished();
    while !finished
      invariant q.Valid(bs) && q.downloads == [] && finished == q.IsFinished()
      invariant rounds + Open(q.done, 0, q.size, bs) <= all
      decreases Open(q.done, 0, q.size, bs)
    {
      var r := q.GetNextSegment(bs, wanted(rounds), false);
      NextUnlessFinished(q, r, Target(wanted(rounds), bs), bs);
      ghost var before := q.done;
      q.AddDownload(r, bs);
      assert q.downloads == [Download(r, 0)];
      q.PutDownload(0, true, bs);
      HasStart(r);
      OpenFewer(before, q.done, 0, r.start, q.size, bs);
      rounds := rounds + 1;
      finished := q.IsFinished();
    }
    RoundsBound(rounds, all, bs, q.size);
  }

  lemma HasStart(r: Segment)
    ensures r.Has(r.start) <==> r.size > 0
  {
  }

  lemma RoundsBound(rounds: nat, all: nat, bs: int, size: int)
    requires bs > 0 && rounds <= all && (all > 0 ==> (all - 1) * bs < size)
    ensures rounds == 0 || (rounds - 1) * bs < size
  {
    if rounds > 0 {
      MulMonotone(rounds - 1, all - 1, bs, bs);
    }
  }

  datatype Step = Allocate(wanted: int, limited: bool) | Receive(i: nat, n: nat) | Put(i: nat, finished: bool)

  /** What a step does to the running downloads. */
  ghost predicate StepFollows(before: seq<Download>, s: Step, after: seq<Download>) {
    match s
    case Allocate(_, limited) =>
      after == before || (!limited && |after| == |before| + 1 && after[..|before|] == before && after[|before|].pos == 0)
    case Receive(i, n) =>
      after == if i < |before| && before[i].pos + n <= before[i].segment.size then before[i := Download(before[i].segment, before[i].pos + n)] else before
    case Put(i, _) =>
      after == if i < |before| then before[..i] + before[i + 1..] else before
  }

  /** A byte is finished by the end of the download it belongs to: all of the range, or as many whole blocks of it as had come in. */
  ghost predicate Finishes(before: seq<Download>, s: Step, bs: int, x: int)
    requires bs > 0
  {
    s.Put? && s.i < |before| &&
    var d := before[s.i];
    d.segment.start <= x < d.segment.start + if s.finished then d.segment.size else d.pos / bs * bs
  }

  method Perform(q: Item, bs: int, s: Step)
    requires q.Valid(bs) && |q.downloads| <= q.maxSegments
    modifies q
    ensures q.Valid(bs) && |q.downloads| <= q.maxSegments && bs > 0
    ensures StepFollows(old(q.downloads), s, q.downloads)
    ensures forall x {:trigger Covers(q.done, x)} :: Covers(q.done, x) <==> old(Covers(q.done, x)) || Finishes(old(q.downloads), s, bs, x)
  {
    hide Item.Valid, Item.Chosen, Aligned, Clear, ClearOf, Covers;
    q.ValidFacts(bs);
    match s
    case Allocate(wanted, limited) =>
      var r := q.GetNextSegment(bs, wanted, limited);
      if |q.downloads| < q.maxSegments && !limited && r != Segment(0, 0) {
        ChosenFacts(q, r, Target(wanted, bs), bs);
        q.AddDownload(r, bs);
      }
    case Receive(i, n) =>
      if i < |q.downloads| && q.downloads[i].pos + n <= q.downloads[i].segment.size {
        q.AddPos(i, n, bs);
      }
    case Put(i, finished) =>
      if i < |q.downloads| {
        WholeBlocks(q.downloads[i].pos, bs);
        q.PutDownload(i, finished, bs);
      }
  }

  lemma WholeBlocks(pos: nat, bs: int)
    requires bs > 0
    ensures pos - pos % bs == pos / bs * bs
  {
  }

  /** The steps so far finish exactly the bytes that one of them finishes. */
  ghost predicate Explained(first: seq<Segment>, done: seq<Segment>, trace: seq<seq<Download>>, steps: seq<Step>, n: nat, bs: int)
    requires bs > 0 && n <= |steps| && |trace| == n + 1
  {
    && (forall k {:trigger trace[k]} :: 0 <= k < n ==> StepFollows(trace[k], steps[k], trace[k + 1]))
    && forall x {:trigger Covers(done, x)} :: Covers(done, x) <==> Covers(first, x) || exists k :: 0 <= k < n && Finishes(trace[k], steps[k], bs, x)
  }

  lemma NothingExplained(first: seq<Segment>, d: seq<Download>, steps: seq<Step>, bs: int)
    requires bs > 0
    ensures Explained(first, first, [d], steps, 0, bs)
  {
  }

  lemma OneMoreStep(first: seq<Segment>, done: seq<Segment>, after: seq<Segment>, trace: seq<seq<Download>>, d: seq<Download>, steps: seq<Step>, n: nat, bs: int)
    requires bs > 0 && n < |steps| && |trace| == n + 1 && Explained(first, done, trace, steps, n, bs)
    requires StepFollows(trace[n], steps[n], d)
    requires forall x {:trigger Covers(after, x)} :: Covers(after, x) <==> Covers(done, x) || Finishes(trace[n], steps[n], bs, x)
    ensures Explained(first, after, trace + [d], steps, n + 1, bs)
  {
    hide Covers, Finishes, StepFollows;
    var more := trace + [d];
    assert forall k {:trigger more[k]} :: 0 <= k <= n ==> more[k] == trace[k];
    forall x
      ensures Covers(after, x) <==> Covers(first, x) || exists k :: 0 <= k < n + 1 && Finishes(more[k], steps[k], bs, x)
    {
      assert Covers(done, x) == Covers(done, x) && more[n] == trace[n];
      if k :| 0 <= k < n && Finishes(trace[k], steps[k], bs, x) {
        assert Finishes(more[k], steps[k], bs, x);
      }
    }
  }

  /**
   * Any run of allocations, data, ends and failures, with the downloads between the steps as its trace: what is finished
   * at the end is what was finished at the beginning and what the steps finish, and nothing else.
   */
  method Execute(q: Item, bs: int, steps: seq<Step>) returns (ghost trace: seq<seq<Download>>)
    requires q.Valid(bs) && |q.downloads| <= q.maxSegments
    modifies q
    ensures q.Valid(bs) && |q.downloads| <= q.maxSegments && bs > 0
    ensures |trace| == |steps| + 1 && trace[0] == old(q.downloads) && trace[|steps|] == q.downloads
    ensures forall k {:trigger trace[k]} :: 0 <= k < |steps| ==> StepFollows(trace[k], steps[k], trace[k + 1])
    ensures forall x {:trigger Covers(q.done, x)} :: Covers(q.done, x) <==>
              old(Covers(q.done, x)) || exists k :: 0 <= k < |steps| && Finishes(trace[k], steps[k], bs, x)
  {
    hide Item.Valid, Covers, Finishes, StepFollows, Explained;
    q.ValidFacts(bs);
    ghost var first := q.done;
    trace := [q.downloads];
    NothingExplained(first, q.downloads, steps, bs);
    for n := 0 to |steps|
      invariant q.Valid(bs) && |q.downloads| <= q.maxSegments
      invariant |trace| == n + 1 && trace[0] == old(q.downloads) && trace[n] == q.downloads
      invariant Explained(first, q.done, trace, steps, n, bs)
    {
      ghost var done := q.done;
      Perform(q, bs, steps[n]);
      OneMoreStep(first, done, q.done, trace, q.downloads, steps, n, bs);
      trace := trace + [q.downloads];
    }
    ExplainedIs(first, q.done, trace, steps, bs);
  }

  lemma ExplainedIs(first: seq<Segment>, done: seq<Segment>, trace: seq<seq<Download>>, steps: seq<Step>, bs: int)
    requires bs > 0 && |trace| == |steps| + 1 && Explained(first, done, trace, steps, |steps|, bs)
    ensures forall k {:trigger trace[k]} :: 0 <= k < |steps| ==> StepFollows(trace[k], steps[k], trace[k + 1])
    ensures forall x {:trigger Covers(done, x)} :: Covers(done, x) <==> Covers(first, x) || exists k :: 0 <= k < |steps| && Finishes(trace[k], steps[k], bs, x)
  {
    hide Covers, Finishes, StepFollows;
  }

  lemma ChosenFacts(q: Item, r: Segment, target: int, bs: int)
    requires q.Chosen(r, target, bs) && r != Segment(0, 0)
    ensures Aligned(r, q.size, bs) && Clear(r, q.done) && ClearOf(r, q.downloads)
  {
  }
}
