// The decompressor's move-to-front list: 256 entries kept as 16 windows of 16
// that slide through a 4096-byte array, so that a deep move costs one byte per
// window instead of one per entry.
module MtfCache {
  import opened Words
  import opened Mtf

  const MTFA_SIZE := 4096
  const MTFL_SIZE := 16

  /** Where list entry t is stored. */
  function Cell(base: seq<int>, t: nat): int
    requires |base| == 16 && t < 256
  {
    base[t / 16] + t % 16
  }

  /** The windows lie in order inside the array, without overlap, and leave a free cell at the bottom. */
  ghost predicate Placed(base: seq<int>) {
    && |base| == 16 && base[0] >= 1
    && (forall t: nat, u: nat :: t <= u < 256 ==> Cell(base, t) + (u - t) <= Cell(base, u) <= 3840 + u)
  }

  /** The list the windows represent. */
  ghost function View(a: seq<byte>, base: seq<int>): (list: seq<int>)
    requires |a| == MTFA_SIZE && Placed(base)
    ensures |list| == 256
    ensures forall t: nat :: t < 256 ==> 1 <= Cell(base, t) < MTFA_SIZE && list[t] == a[Cell(base, t)]
  {
    PlacedBounds(base);
    seq(256, t requires 0 <= t < 256 => a[Cell(base, t)] as int)
  }

  lemma PlacedBounds(base: seq<int>)
    requires Placed(base)
    ensures |base| == 16
    ensures forall t: nat :: t < 256 ==> 1 <= Cell(base, t) < MTFA_SIZE
  {
    assert Cell(base, 0) == base[0];
    forall t: nat | t < 256 ensures 1 <= Cell(base, t) < MTFA_SIZE {
      assert Cell(base, 0) + (t - 0) <= Cell(base, t);
    }
  }

  /** The windows in their initial position, at the top of the array. */
  ghost predicate AtTop(base: seq<int>) {
    |base| == 16 && forall k :: 0 <= k < 16 ==> base[k] == 3840 + 16 * k
  }

  lemma TopPlaced(base: seq<int>)
    requires AtTop(base)
    ensures Placed(base)
    ensures forall t: nat :: t < 256 ==> Cell(base, t) == 3840 + t
  {
    forall t: nat | t < 256 ensures Cell(base, t) == 3840 + t {
      assert t == 16 * (t / 16) + t % 16;
    }
  }

  // A deep move from window `depth`: windows below it slide down one cell.

  /** Cell of entry t once windows 0..depth-1 have slid down. */
  ghost function Slid(base: seq<int>, depth: nat, t: nat): int
    requires |base| == 16 && t < 256
  {
    Cell(base, t) - if t < 16 * depth then 1 else 0
  }

  /** The list wanted: entry nn at the front, entries 0..nn-1 one further down. */
  ghost function Want(list: seq<int>, nn: nat, t: nat): int
    requires |list| == 256 && nn < 256 && t < 256
  {
    if t == 0 then list[nn] else if t <= nn then list[t - 1] else list[t]
  }

  /** Entries below `lo` still where they were; entries from `hi` on already as wanted. */
  ghost predicate Sliding(a0: seq<byte>, a: seq<byte>, base: seq<int>, nn: nat, lo: int, hi: int) {
    && |a0| == |a| == MTFA_SIZE && Placed(base) && nn < 256
    && (PlacedBounds(base);
        && (forall t: nat :: t < lo && t < 256 ==> a[Cell(base, t)] as int == View(a0, base)[t])
        && (forall t: nat :: hi <= t < 256 ==> a[Slid(base, nn / 16, t)] as int == Want(View(a0, base), nn, t)))
  }

  /** Inside the entry's own window: the cell at nn's position moves down to the window's start. */
  lemma SlideInside(a0: seq<byte>, a: seq<byte>, base: seq<int>, nn: nat, t: nat, c: int)
    requires Sliding(a0, a, base, nn, t + 1, t + 1) && 16 * (nn / 16) < t <= nn
    requires c == Cell(base, t)
    ensures 1 <= c - 1 && c < MTFA_SIZE && Sliding(a0, a[c := a[c - 1]], base, nn, t, t)
  {
    PlacedBounds(base);
    var b := a[c := a[c - 1]];
    assert t / 16 == nn / 16 && Cell(base, t - 1) == c - 1;
    forall u: nat | u < t ensures b[Cell(base, u)] == View(a0, base)[u] {
      assert Cell(base, u) + (t - u) <= c;
    }
    forall u: nat | t <= u < 256 ensures b[Slid(base, nn / 16, u)] == Want(View(a0, base), nn, u) {
      if u > t {
        assert c + (u - t) <= Cell(base, u);
      }
    }
  }

  /** The start of the entry's own window takes the last entry of the window below. */
  lemma SlideBottom(a0: seq<byte>, a: seq<byte>, base: seq<int>, nn: nat, c: int, d: int)
    requires Sliding(a0, a, base, nn, 16 * (nn / 16) + 1, 16 * (nn / 16) + 1) && nn >= 16
    requires c == Cell(base, 16 * (nn / 16)) && d == Cell(base, 16 * (nn / 16) - 1)
    ensures 1 <= d < MTFA_SIZE && 1 <= c < MTFA_SIZE
    ensures Sliding(a0, a[c := a[d]], base, nn, 16 * (nn / 16), 16 * (nn / 16))
  {
    var q := nn / 16;
    PlacedBounds(base);
    var b := a[c := a[d]];
    forall t: nat | t < 16 * q ensures b[Cell(base, t)] == View(a0, base)[t] {
      assert Cell(base, t) + (16 * q - t) <= c;
    }
    forall t: nat | 16 * q <= t < 256 ensures b[Slid(base, q, t)] == Want(View(a0, base), nn, t) {
      if t > 16 * q {
        assert c + (t - 16 * q) <= Cell(base, t);
      }
    }
  }

  /** A whole window moves down one cell by writing only the cell below its start. */
  lemma SlideWindow(a0: seq<byte>, a: seq<byte>, base: seq<int>, nn: nat, q: nat, c: int, x: byte)
    requires Sliding(a0, a, base, nn, 16 * (q + 1), 16 * (q + 1)) && q < nn / 16
    requires c == Cell(base, 16 * q) - 1
    requires x as int == if q == 0 then View(a0, base)[nn] else View(a0, base)[16 * q - 1]
    ensures 0 <= c < MTFA_SIZE && Sliding(a0, a[c := x], base, nn, 16 * q, 16 * q)
  {
    hide Placed, Cell, View;
    PlacedBounds(base);
    var b := a[c := x];
    forall t: nat | t < 16 * q ensures b[Cell(base, t)] as int == View(a0, base)[t] {
      SlideBelow(base, q, t);
    }
    forall t: nat | 16 * q <= t < 256 ensures b[Slid(base, nn / 16, t)] as int == Want(View(a0, base), nn, t) {
      SlideAbove(base, q, t);
    }
  }

  lemma SlideBelow(base: seq<int>, q: nat, t: nat)
    requires Placed(base) && q < 16 && t < 16 * q
    ensures Cell(base, t) <= Cell(base, 16 * q) - 1
    ensures Cell(base, t) == Cell(base, 16 * q) - 1 ==> t == 16 * q - 1
  {
    assert Cell(base, t) + (16 * q - t) <= Cell(base, 16 * q);
  }

  lemma SlideAbove(base: seq<int>, q: nat, t: nat)
    requires Placed(base) && q < 16 && 16 * q <= t < 256
    ensures t > 16 * q ==> Cell(base, t) - 1 > Cell(base, 16 * q) - 1
    ensures 16 * q < t < 16 * (q + 1) ==> Cell(base, t) - 1 == Cell(base, t - 1)
  {
    assert Cell(base, 16 * q) + (t - 16 * q) <= Cell(base, t);
  }

  /** Once everything has slid, the lowered windows hold the list wanted. */
  lemma Slidden(a0: seq<byte>, a: seq<byte>, base: seq<int>, nn: nat, base2: seq<int>)
    requires Sliding(a0, a, base, nn, 0, 0) && nn >= 16 && |base2| == 16
    requires forall k :: 0 <= k < 16 ==> base2[k] == base[k] - if k < nn / 16 then 1 else 0
    ensures Stored(a, base2, ToFront(View(a0, base), nn)) && base2[0] == base[0] - 1
  {
    PlacedBounds(base);
    forall t: nat, u: nat | t <= u < 256 ensures Cell(base2, t) + (u - t) <= Cell(base2, u) <= 3840 + u {
      assert Cell(base, t) + (u - t) <= Cell(base, u);
      if t / 16 > u / 16 {
        assert false;
      }
      assert Cell(base2, u) == Cell(base, u) - if u / 16 < nn / 16 then 1 else 0;
      assert Cell(base2, t) == Cell(base, t) - if t / 16 < nn / 16 then 1 else 0;
    }
    forall t: nat | t < 256
      ensures 0 <= Cell(base2, t) < MTFA_SIZE && a[Cell(base2, t)] as int == ToFront(View(a0, base), nn)[t]
    {
      assert Cell(base2, t) == Slid(base, nn / 16, t);
      assert Want(View(a0, base), nn, t) == ToFront(View(a0, base), nn)[t];
    }
  }

  /** Windows in order, possibly with no free cell left at the bottom, holding the given list. */
  ghost predicate Stored(a: seq<byte>, base: seq<int>, list: seq<int>) {
    && |a| == MTFA_SIZE && |base| == 16 && |list| == 256
    && (forall t: nat, u: nat :: t <= u < 256 ==> Cell(base, t) + (u - t) <= Cell(base, u) <= 3840 + u)
    && (forall t: nat :: t < 256 ==> 0 <= Cell(base, t) < MTFA_SIZE && a[Cell(base, t)] as int == list[t])
  }

  lemma StoredView(a: seq<byte>, base: seq<int>, list: seq<int>)
    requires Stored(a, base, list) && base[0] >= 1
    ensures Placed(base) && View(a, base) == list
  {
  }

  /** Cells lo+1..hi have taken the value of the cell below. */
  ghost predicate Shifted(a0: seq<byte>, a: seq<byte>, lo: int, hi: int) {
    && |a| == |a0| && 0 <= lo <= hi < |a0|
    && forall i :: 0 <= i < |a| ==> a[i] == a0[if lo < i <= hi then i - 1 else i]
  }

  lemma ShiftStarts(a0: seq<byte>, hi: int)
    requires 0 <= hi < |a0|
    ensures Shifted(a0, a0, hi, hi)
  {
  }

  lemma ShiftOne(a0: seq<byte>, a: seq<byte>, lo: int, hi: int)
    requires Shifted(a0, a, lo, hi) && lo > 0
    ensures lo < |a| && Shifted(a0, a[lo := a[lo - 1]], lo - 1, hi)
  {
  }

  /** A move inside the first window. */
  lemma MovedNear(a0: seq<byte>, a: seq<byte>, base: seq<int>, nn: nat)
    requires |a0| == MTFA_SIZE && Placed(base) && nn < 16 && base[0] + 16 <= MTFA_SIZE
    requires Shifted(a0, a, base[0], base[0] + nn)
    ensures View(a[base[0] := a0[base[0] + nn]], base) == ToFront(View(a0, base), nn)
  {
    var b := a[base[0] := a0[base[0] + nn]];
    forall t: nat | t < 256 ensures View(b, base)[t] == ToFront(View(a0, base), nn)[t] {
      MovedNearAt(a0, a, base, nn, t);
    }
  }

  lemma MovedNearAt(a0: seq<byte>, a: seq<byte>, base: seq<int>, nn: nat, t: nat)
    requires |a0| == MTFA_SIZE && Placed(base) && nn < 16 && base[0] + 16 <= MTFA_SIZE && t < 256
    requires Shifted(a0, a, base[0], base[0] + nn)
    ensures View(a[base[0] := a0[base[0] + nn]], base)[t] == ToFront(View(a0, base), nn)[t]
  {
    hide View, Cell, Placed, ToFront;
    WindowBounds(base, 0);
    var b, i := a[base[0] := a0[base[0] + nn]], base[t / 16] + t % 16;
    ViewAt(b, base, t);
    ViewAt(a0, base, t);
    ViewAt(a0, base, nn);
    if t >= 16 {
      AboveFirst(base, t);
      assert b[i] == a0[i];
    } else if t > 0 {
      ViewAt(a0, base, t - 1);
      assert b[i] == if t <= nn then a0[i - 1] else a0[i];
    }
  }

  lemma AboveFirst(base: seq<int>, t: nat)
    requires Placed(base) && 16 <= t < 256
    ensures base[t / 16] + t % 16 > base[0] + 15
  {
    assert Cell(base, 15) == base[0] + 15;
    assert Cell(base, 15) + (t - 15) <= Cell(base, t);
  }

  lemma CellOf(base: seq<int>, q: nat, j: nat)
    requires |base| == 16 && q < 16 && j < 16
    ensures Cell(base, 16 * q + j) == base[q] + j
  {
  }

  lemma WindowBounds(base: seq<int>, q: nat)
    requires Placed(base) && q < 16
    ensures |base| == 16 && 1 <= base[q] && base[q] + 15 < MTFA_SIZE
    ensures q > 0 ==> base[q - 1] + 15 < base[q]
  {
    PlacedBounds(base);
    CellOf(base, q, 0);
    CellOf(base, q, 15);
    if q > 0 {
      CellOf(base, q - 1, 15);
    }
  }

  lemma ViewAt(a: seq<byte>, base: seq<int>, t: nat)
    requires |a| == MTFA_SIZE && Placed(base) && t < 256
    ensures 0 <= base[t / 16] + t % 16 < MTFA_SIZE && View(a, base)[t] == a[base[t / 16] + t % 16] as int
  {
    PlacedBounds(base);
    assert Cell(base, t) == base[t / 16] + t % 16;
  }

  /** A cell of the first window. */
  lemma NearCell(a: seq<byte>, base: seq<int>, nn: nat)
    requires |a| == MTFA_SIZE && Placed(base) && nn < MTFL_SIZE
    ensures MTFL_SIZE == 16 && MTFA_SIZE == 4096 && |base| == 16 && 1 <= base[0] && base[0] + 16 <= MTFA_SIZE
    ensures View(a, base)[nn] == a[base[0] + nn] as int
  {
    hide View, Placed, Cell;
    FirstWindow(base);
    ViewAt(a, base, nn);
  }

  /** How far the slide has got when window lno is next. */
  function Mark(nn: nat, lno: nat): nat {
    if lno == nn / 16 then 16 * lno + 1 else 16 * (lno + 1)
  }

  /** Start of window k when window lno is next and q is the entry's own window. */
  function Lowered(base: seq<int>, q: int, lno: int, k: int): int
    requires 0 <= k < |base|
  {
    if lno == q == k then base[k] + 1 else if lno < k < q then base[k] - 1 else base[k]
  }

  lemma SlideStep(a0: seq<byte>, a: seq<byte>, base: seq<int>, nn: nat, lno: nat, c: int, d: int)
    requires Sliding(a0, a, base, nn, Mark(nn, lno), Mark(nn, lno)) && 1 <= lno <= nn / 16
    requires c == (if lno == nn / 16 then base[lno] else base[lno] - 1) && d == base[lno - 1] + 15
    ensures 0 <= c < MTFA_SIZE && 0 <= d < MTFA_SIZE
    ensures Sliding(a0, a[c := a[d]], base, nn, Mark(nn, lno - 1), Mark(nn, lno - 1))
  {
    hide Sliding, View, Placed, Cell;
    SlidingShape(a0, a, base, nn, Mark(nn, lno), Mark(nn, lno));
    CellOf(base, lno, 0);
    CellOf(base, lno - 1, 15);
    if lno == nn / 16 {
      SlideBottom(a0, a, base, nn, c, d);
    } else {
      SlidingUntouched(a0, a, base, nn, 16 * (lno + 1), 16 * lno - 1);
      SlideWindow(a0, a, base, nn, lno, c, a[d]);
    }
  }

  lemma SlidingShape(a0: seq<byte>, a: seq<byte>, base: seq<int>, nn: nat, lo: int, hi: int)
    requires Sliding(a0, a, base, nn, lo, hi)
    ensures |a0| == |a| == MTFA_SIZE && Placed(base) && nn < 256
  {
  }

  lemma SlidingUntouched(a0: seq<byte>, a: seq<byte>, base: seq<int>, nn: nat, lo: int, t: nat)
    requires Sliding(a0, a, base, nn, lo, lo) && t < lo && t < 256
    ensures 0 <= Cell(base, t) < MTFA_SIZE && a[Cell(base, t)] as int == View(a0, base)[t]
  {
    PlacedBounds(base);
  }

  /** The decompressor's list. */
  class Cache {
    const mtfa: array<byte>
    const mtfbase: array<int>

    ghost predicate Valid()
      reads this, mtfa, mtfbase
    {
      mtfa.Length == MTFA_SIZE && Placed(mtfbase[..])
    }

    /** The list of 256 numbers. */
    ghost function List(): seq<int>
      requires Valid()
      reads this, mtfa, mtfbase
    {
      View(mtfa[..], mtfbase[..])
    }

    /** Starts with 0, 1, ..., 255. */
    constructor ()
      ensures Valid() && fresh(mtfa) && fresh(mtfbase)
      ensures forall t :: 0 <= t < 256 ==> List()[t] == t
    {
      mtfa, mtfbase := new byte[MTFA_SIZE], new int[16];
      new;
      var kk := MTFA_SIZE - 1;
      var ii := 15;
      while ii >= 0
        invariant -1 <= ii <= 15 && kk == 3840 + 16 * ii + 15
        invariant forall k :: ii < k < 16 ==> mtfbase[k] == 3840 + 16 * k
        invariant forall i :: 3840 + 16 * ii + 16 <= i < MTFA_SIZE ==> mtfa[i] as int == i - 3840
      {
        var jj := 15;
        while jj >= 0
          invariant -1 <= jj <= 15 && kk == 3840 + 16 * ii + jj
          invariant forall k :: ii < k < 16 ==> mtfbase[k] == 3840 + 16 * k
          invariant forall i :: 3840 + 16 * ii + jj + 1 <= i < MTFA_SIZE ==> mtfa[i] as int == i - 3840
        {
          mtfa[kk] := ii * 16 + jj;
          kk := kk - 1;
          jj := jj - 1;
        }
        mtfbase[ii] := kk + 1;
        ii := ii - 1;
      }
      TopPlaced(mtfbase[..]);
    }

    /** The number at the front, without moving anything. */
    method Front() returns (uc: byte)
      requires Valid()
      ensures uc as int == List()[0]
    {
      PlacedBounds(mtfbase[..]);
      assert Cell(mtfbase[..], 0) == mtfbase[0];
      uc := mtfa[mtfbase[0]];
    }

    /** Fetches the number at position nn and moves it to the front. */
    method Fetch(nn: nat) returns (uc: byte)
      requires Valid() && nn < 256
      modifies mtfa, mtfbase
      ensures Valid() && uc as int == old(List())[nn]
      ensures List() == ToFront(old(List()), nn)
    {
      if nn < MTFL_SIZE {
        uc := FetchNear(nn);
      } else {
        uc := FetchFar(nn);
        if mtfbase[0] == 0 {
          ghost var list := ToFront(old(List()), nn);
          Repack(list);
        }
        StoredView(mtfa[..], mtfbase[..], ToFront(old(List()), nn));
      }
    }

    /** The common case: the number is in the first window. */
    method FetchNear(nn0: nat) returns (uc: byte)
      requires Valid() && nn0 < MTFL_SIZE
      modifies mtfa
      ensures Valid() && uc as int == old(List())[nn0]
      ensures List() == ToFront(old(List()), nn0)
    {
      hide *;
      ghost var a0, base := mtfa[..], mtfbase[..];
      ListIs();
      NearCell(a0, base, nn0);
      var nn, pp := nn0, mtfbase[0];
      uc := mtfa[pp + nn];
      ShiftUp(pp, nn);
      ghost var a1 := mtfa[..];
      mtfa[pp] := uc;
      MovedNear(a0, a1, base, nn0);
      assert mtfa[..] == a1[base[0] := uc];
      NowListed();
    }

    lemma ListIs()
      requires Valid()
      ensures mtfa.Length == MTFA_SIZE && Placed(mtfbase[..]) && List() == View(mtfa[..], mtfbase[..]) && |List()| == 256
    {
    }

    lemma NowListed()
      requires mtfa.Length == MTFA_SIZE && Placed(mtfbase[..])
      ensures Valid() && List() == View(mtfa[..], mtfbase[..])
    {
    }

    /** Moves nn0 cells up by one, four at a time while there are four. */
    method ShiftUp(pp: int, nn0: nat)
      requires 0 <= pp && pp + nn0 < mtfa.Length
      modifies mtfa
      ensures Shifted(old(mtfa[..]), mtfa[..], pp, pp + nn0)
    {
      hide Shifted;
      ghost var a0 := mtfa[..];
      var nn := nn0;
      ShiftStarts(a0, pp + nn);
      while nn > 3
        invariant 0 <= nn <= nn0
        invariant Shifted(a0, mtfa[..], pp + nn, pp + nn0)
      {
        var z := pp + nn;
        ShiftOne(a0, mtfa[..], z, pp + nn0);
        mtfa[z] := mtfa[z - 1];
        ShiftOne(a0, mtfa[..], z - 1, pp + nn0);
        mtfa[z - 1] := mtfa[z - 2];
        ShiftOne(a0, mtfa[..], z - 2, pp + nn0);
        mtfa[z - 2] := mtfa[z - 3];
        ShiftOne(a0, mtfa[..], z - 3, pp + nn0);
        mtfa[z - 3] := mtfa[z - 4];
        nn := nn - 4;
      }
      while nn > 0
        invariant 0 <= nn <= nn0
        invariant Shifted(a0, mtfa[..], pp + nn, pp + nn0)
      {
        ShiftOne(a0, mtfa[..], pp + nn, pp + nn0);
        mtfa[pp + nn] := mtfa[pp + nn - 1];
        nn := nn - 1;
      }
    }

    /** The general case. */
    method FetchFar(nn: nat) returns (uc: byte)
      requires Valid() && MTFL_SIZE <= nn < 256
      modifies mtfa, mtfbase
      ensures mtfa.Length == MTFA_SIZE && uc as int == old(List())[nn]
      ensures Stored(mtfa[..], mtfbase[..], ToFront(old(List()), nn)) && mtfbase[0] >= 0
    {
      hide Cell, Sliding, Placed, View, ToFront, Stored;
      ghost var a0, base := mtfa[..], mtfbase[..];
      var lno, off := nn / MTFL_SIZE, nn % MTFL_SIZE;
      ghost var q := lno;
      WindowBounds(base, q);
      CellOf(base, q, off);
      var pp := mtfbase[lno] + off;
      uc := mtfa[pp];
      ViewAt(a0, base, nn);
      SlidingStarts(a0, base, nn);
      while pp > mtfbase[lno]
        invariant mtfbase[..] == base && base[q] <= pp <= base[q] + off
        invariant Sliding(a0, mtfa[..], base, nn, 16 * q + (pp - base[q]) + 1, 16 * q + (pp - base[q]) + 1)
      {
        ghost var t := 16 * q + (pp - base[q]);
        CellOf(base, q, pp - base[q]);
        SlideInside(a0, mtfa[..], base, nn, t, pp);
        mtfa[pp] := mtfa[pp - 1];
        pp := pp - 1;
      }
      mtfbase[lno] := mtfbase[lno] + 1;
      while lno > 0
        invariant 0 <= lno <= q
        invariant Sliding(a0, mtfa[..], base, nn, Mark(nn, lno), Mark(nn, lno))
        invariant forall k :: 0 <= k < 16 ==> mtfbase[k] == Lowered(base, q, lno, k)
      {
        SlideStep(a0, mtfa[..], base, nn, lno, mtfbase[lno] - 1, mtfbase[lno - 1] + MTFL_SIZE - 1);
        mtfbase[lno] := mtfbase[lno] - 1;
        mtfa[mtfbase[lno]] := mtfa[mtfbase[lno - 1] + MTFL_SIZE - 1];
        lno := lno - 1;
      }
      CellOf(base, 0, 0);
      WindowBounds(base, 0);
      SlideWindow(a0, mtfa[..], base, nn, 0, base[0] - 1, uc);
      mtfbase[0] := mtfbase[0] - 1;
      mtfa[mtfbase[0]] := uc;
      Slidden(a0, mtfa[..], base, nn, mtfbase[..]);
    }

    /** The windows have reached the bottom of the array: pack them back at its top. */
    method Repack(ghost list: seq<int>)
      requires mtfa.Length == MTFA_SIZE && mtfbase.Length == 16 && Stored(mtfa[..], mtfbase[..], list)
      modifies mtfa, mtfbase
      ensures Stored(mtfa[..], mtfbase[..], list) && mtfbase[0] >= 1
    {
      hide Cell, Packing, Stored;
      PackStart(mtfa[..], mtfbase[..], list);
      ghost var base := mtfbase[..];
      var kk := MTFA_SIZE - 1;
      var ii := 15;
      while ii >= 0
        invariant -1 <= ii <= 15 && kk == 3840 + 16 * ii + 15
        invariant Packing(mtfa[..], base, list, 16 * ii + 16)
        invariant forall k :: 0 <= k < 16 ==> mtfbase[k] == if k <= ii then base[k] else 3840 + 16 * k
      {
        var jj := 15;
        while jj >= 0
          invariant -1 <= jj <= 15 && kk == 3840 + 16 * ii + jj
          invariant Packing(mtfa[..], base, list, 16 * ii + jj + 1)
          invariant forall k :: 0 <= k < 16 ==> mtfbase[k] == if k <= ii then base[k] else 3840 + 16 * k
        {
          PackOne(mtfa[..], base, list, 16 * ii + jj);
          CellOf(base, ii, jj);
          mtfa[kk] := mtfa[mtfbase[ii] + jj];
          kk := kk - 1;
          jj := jj - 1;
        }
        mtfbase[ii] := kk + 1;
        ii := ii - 1;
      }
      PackEnd(mtfa[..], base, list, mtfbase[..]);
    }
  }

  lemma PackStart(a: seq<byte>, base: seq<int>, list: seq<int>)
    requires Stored(a, base, list)
    ensures Packing(a, base, list, 256)
  {
    CellOf(base, 0, 0);
  }

  lemma PackEnd(a: seq<byte>, base: seq<int>, list: seq<int>, top: seq<int>)
    requires Packing(a, base, list, 0) && AtTop(top)
    ensures Stored(a, top, list)
  {
    TopPlaced(top);
  }

  lemma FirstWindow(base: seq<int>)
    requires Placed(base)
    ensures |base| == 16 && 1 <= base[0] && base[0] + 16 <= MTFA_SIZE
  {
    assert Cell(base, 15) == base[0] + 15;
    assert Cell(base, 15) + (255 - 15) <= Cell(base, 255);
  }

  lemma SlidingStarts(a0: seq<byte>, base: seq<int>, nn: nat)
    requires |a0| == MTFA_SIZE && Placed(base) && nn < 256
    ensures Sliding(a0, a0, base, nn, nn + 1, nn + 1)
  {
    PlacedBounds(base);
  }

  /** Packing has reached entry t: entries from t on are at the top, the rest still in their windows. */
  ghost predicate Packing(a: seq<byte>, base: seq<int>, list: seq<int>, t: int) {
    && |a| == MTFA_SIZE && |base| == 16 && |list| == 256
    && (forall u: nat, v: nat :: u <= v < 256 ==> Cell(base, u) + (v - u) <= Cell(base, v) <= 3840 + v)
    && base[0] >= 0
    && (forall u: nat :: u < t && u < 256 ==> 0 <= Cell(base, u) < MTFA_SIZE && a[Cell(base, u)] as int == list[u])
    && (forall i :: 3840 + t <= i < MTFA_SIZE && 3840 <= i ==> a[i] as int == list[i - 3840])
  }

  lemma PackOne(a: seq<byte>, base: seq<int>, list: seq<int>, t: nat)
    requires Packing(a, base, list, t + 1) && t < 256
    ensures 0 <= Cell(base, t) < MTFA_SIZE
    ensures Packing(a[3840 + t := a[Cell(base, t)]], base, list, t)
  {
    forall u: nat | u < t ensures Cell(base, u) < 3840 + t {
      assert Cell(base, u) + (t - u) <= Cell(base, t);
    }
  }
}
