// The two table set-ups of the decompressor that undo the block transform:
// one word per character, and the memory-saving 20-bit links that are built
// forwards and reversed in place along one cycle.
module InverseSetup {
  import opened Words
  import opened Perm
  import opened Counting
  import opened InverseBwt

  /** cftab: how many characters of l lie below each value. */
  ghost predicate Cumulative(cftab: seq<int>, l: seq<byte>) {
    |cftab| == 257 && forall c: nat :: c < 257 ==> cftab[c] == Below(l, c)
  }

  lemma BelowSteps(l: seq<byte>)
    ensures Below(l, 0) == 0
    ensures forall c: nat {:trigger Below(l, c)} :: c > 0 ==> Below(l, c) == Count(l, c - 1) + Below(l, c - 1)
  {
  }

  /**
   * Turns the character counts into first positions. The range checks made on the way are shown
   * never to fail: the counts are those of the block just decoded.
   */
  method BuildCftab(unzftab: array<int>, nblock: int, ghost l: seq<byte>) returns (cftab: array<int>, ok: bool)
    requires unzftab.Length == 256 && nblock == |l|
    requires forall c: nat :: c < 256 ==> unzftab[c] == Count(l, c)
    ensures fresh(cftab) && Cumulative(cftab[..], l) && ok
  {
    hide *;
    ok := true;
    for i := 0 to 256
      invariant ok
    {
      CountRange(l, i);
      if unzftab[i] < 0 || unzftab[i] > nblock {
        ok := false;
      }
    }
    cftab := CountsBelow(unzftab, l);
    for i := 0 to 257
      invariant ok && Cumulative(cftab[..], l)
    {
      CumulativeAt(cftab[..], l, i);
      BelowBound(l, i);
      if cftab[i] < 0 || cftab[i] > nblock {
        ok := false;
      }
    }
    for i := 1 to 257
      invariant ok && Cumulative(cftab[..], l)
    {
      CumulativeAt(cftab[..], l, i - 1);
      CumulativeAt(cftab[..], l, i);
      BelowMonotone(l, i - 1, i);
      if cftab[i - 1] > cftab[i] {
        ok := false;
      }
    }
  }

  /** How many characters are below each one. */
  method CountsBelow(unzftab: array<int>, ghost l: seq<byte>) returns (cftab: array<int>)
    requires unzftab.Length == 256 && forall c: nat :: c < 256 ==> unzftab[c] == Count(l, c)
    ensures fresh(cftab) && Cumulative(cftab[..], l)
  {
    hide Count, Below, Cumulative;
    BelowSteps(l);
    cftab := new int[257];
    cftab[0] := 0;
    for i := 1 to 257
      invariant forall c: nat :: c < 256 ==> unzftab[c] == Count(l, c)
      invariant cftab[0] == 0 && forall c: nat :: 1 <= c < i ==> cftab[c] == unzftab[c - 1]
    {
      cftab[i] := unzftab[i - 1];
    }
    for i := 1 to 257
      invariant forall c: nat :: c < i ==> cftab[c] == Below(l, c)
      invariant forall c: nat :: i <= c < 257 ==> cftab[c] == Count(l, c - 1)
    {
      cftab[i] := cftab[i] + cftab[i - 1];
    }
    NowCumulative(cftab[..], l);
  }

  lemma CumulativeAt(cftab: seq<int>, l: seq<byte>, c: nat)
    requires Cumulative(cftab, l) && c < 257
    ensures |cftab| == 257 && cftab[c] == Below(l, c)
  {
  }

  lemma NowCumulative(cftab: seq<int>, l: seq<byte>)
    requires |cftab| == 257 && forall c: nat :: c < 257 ==> cftab[c] == Below(l, c)
    ensures Cumulative(cftab, l)
  {
  }

  lemma CountRange(l: seq<byte>, c: int)
    ensures 0 <= Count(l, c) <= |l|
  {
    assert multiset(l)[c] <= |multiset(l)|;
  }

  /** Positions taken so far when slots are handed out in index order. */
  lemma SlotNow(l: seq<byte>, i: nat)
    requires i < |l|
    ensures Slot(l, i) == Below(l, l[i]) + Count(l[..i], l[i])
    ensures 0 <= Slot(l, i) < |l|
    ensures forall k: nat :: k < i ==> Slot(l, k) != Slot(l, i)
    ensures forall c :: Count(l[..i + 1], c) == Count(l[..i], c) + if l[i] == c then 1 else 0
  {
    SlotRange(l, i);
    forall k: nat | k < i ensures Slot(l, k) != Slot(l, i) {
      SlotOrder(l, k, i);
    }
    forall c ensures Count(l[..i + 1], c) == Count(l[..i], c) + if l[i] == c then 1 else 0 {
      CountPrefix(l, i, c);
    }
  }

  lemma NoneYet(l: seq<byte>)
    ensures forall c :: Count(l[..0], c) == 0
  {
  }

  // The fast table: tt[j] holds character j in its low byte and the next row above it.

  ghost predicate FastTable(tt: seq<int>, l: seq<byte>) {
    |tt| >= |l| && forall j: nat :: j < |l| ==> tt[j] == Next(l, j) * 256 + l[j]
  }

  /** After i steps the rows below i have been packed in. */
  ghost predicate FastSoFar(tt: seq<int>, l: seq<byte>, i: nat) {
    |tt| >= |l| && forall j: nat :: j < |l| ==> tt[j] == l[j] + if Next(l, j) < i then Next(l, j) * 256 else 0
  }

  lemma FastEntry(tt: seq<int>, l: seq<byte>, i: nat, j: nat)
    requires j < |l| && FastSoFar(tt, l, i)
    ensures 0 <= tt[j] && tt[j] % 256 == l[j]
  {
    LowPart(l[j], if Next(l, j) < i then Next(l, j) else 0, tt[j]);
  }

  lemma LowPart(c: byte, r: nat, x: int)
    requires x == c + r * 256
    ensures 0 <= x && x % 256 == c && x / 256 == r
  {
  }

  lemma FastStep(tt: seq<int>, l: seq<byte>, i: nat)
    requires i < |l| && FastSoFar(tt, l, i)
    ensures 0 <= Slot(l, i) < |l| && tt[Slot(l, i)] == l[Slot(l, i)]
    ensures FastSoFar(tt[Slot(l, i) := i * 256 + l[Slot(l, i)]], l, i + 1)
  {
    hide Below, Count;
    NextUnique(l, i);
    var k := Slot(l, i);
    var t2 := tt[k := i * 256 + l[k]];
    forall j: nat | j < |l| ensures t2[j] == l[j] + if Next(l, j) < i + 1 then Next(l, j) * 256 else 0 {
      if j != k {
        assert Next(l, j) != i;
      }
    }
  }

  lemma FastEnds(tt: seq<int>, l: seq<byte>)
    requires FastSoFar(tt, l, |l|)
    ensures FastTable(tt, l)
  {
  }

  /** Packs each index above the character at its slot. */
  method BuildFast(tt: array<int>, cftab: array<int>, nblock: int, ghost l: seq<byte>)
    requires tt != cftab && |l| == nblock <= tt.Length && nblock < 0x100_0000
    requires forall i :: 0 <= i < nblock ==> tt[i] == l[i]
    requires Cumulative(cftab[..], l)
    modifies tt, cftab
    ensures FastTable(tt[..], l)
  {
    hide Slot, Count, Below, And, Or, Shl32, FastSoFar, FastTable;
    NoneYet(l);
    FastBegins(tt[..], l);
    for i := 0 to nblock
      invariant forall c: nat :: c < 256 ==> cftab[c] == Below(l, c) + Count(l[..i], c)
      invariant FastSoFar(tt[..], l, i)
    {
      ghost var before := tt[..];
      FastStep(before, l, i);
      FastEntry(before, l, i, i);
      SlotNow(l, i);
      LowByte(tt[i]);
      var uc := And(tt[i], 0xff);
      PackIndex(l[Slot(l, i)], i);
      tt[cftab[uc]] := Or(tt[cftab[uc]], Shl32(i, 8));
      assert tt[..] == before[Slot(l, i) := i * 256 + l[Slot(l, i)]];
      cftab[uc] := cftab[uc] + 1;
    }
    FastEnds(tt[..], l);
  }

  lemma FastBegins(tt: seq<int>, l: seq<byte>)
    requires |tt| >= |l| && forall i :: 0 <= i < |l| ==> tt[i] == l[i]
    ensures FastSoFar(tt, l, 0)
  {
  }

  lemma SplitLink(n: nat)
    ensures And(n, 0xffff) == n % 0x1_0000 && Shr(n, 16) == n / 0x1_0000
  {
    Pow2Of32();
    AndMask(n, 16);
    ShrDiv(n, 16);
  }

  lemma JoinLink(low: nat, high: nat)
    requires low < 0x1_0000 && high < 16
    ensures Or(low, Shl32(high, 16)) == low + 0x1_0000 * high
  {
    hide Or, Shl32;
    ShiftHigh(high);
    OrCommutes(low, high * 0x1_0000);
    OrDisjoint(high, low, 16);
  }

  lemma ShiftHigh(high: nat)
    requires high < 16
    ensures Pow2(16) == 0x1_0000 && Shl32(high, 16) == high * 0x1_0000
  {
    Pow2Of32();
    ShlMul(high, 16);
  }

  // The memory-saving table: a 20-bit link per position, 16 bits in ll16 and 4 in half a byte of ll4.

  class LinkTable {
    const ll16: array<int>
    const ll4: array<byte>

    constructor (n: nat)
      ensures fresh(ll16) && fresh(ll4) && Valid() && ll16.Length == n
    {
      ll16 := new int[n](_ => 0);
      ll4 := new byte[(1 + n) / 2];
    }

    ghost predicate Valid()
      reads this, ll16
    {
      && ll4.Length == (1 + ll16.Length) / 2
      && forall i :: 0 <= i < ll16.Length ==> 0 <= ll16[i] < 0x1_0000
    }

    /** The link stored at position i. */
    ghost function Link(i: int): int
      requires Valid() && 0 <= i < ll16.Length
      reads this, ll16, ll4
    {
      ll16[i] + 0x1_0000 * Nibble(i)
    }

    ghost function Nibble(i: int): int
      requires 0 <= i / 2 < ll4.Length
      reads ll4
    {
      if i % 2 == 0 then ll4[i / 2] % 16 else ll4[i / 2] / 16
    }

    method SetLL4(i: int, n: int)
      requires 0 <= i / 2 < ll4.Length && 0 <= n < 16
      modifies ll4
      ensures Nibble(i) == n
      ensures forall k :: 0 <= k / 2 < ll4.Length && k != i ==> Nibble(k) == old(Nibble(k))
    {
      hide And, Or, Shr, Shl32;
      Nibbles(ll4[i / 2], n);
      if i % 2 == 0 {
        ll4[i / 2] := Or(And(ll4[i / 2], 0xf0), n);
      } else {
        ll4[i / 2] := Or(And(ll4[i / 2], 0x0f), Shl32(n, 4));
      }
    }

    method SetLL(i: int, n: int)
      requires Valid() && 0 <= i < ll16.Length && 0 <= n < 0x10_0000
      modifies ll16, ll4
      ensures Valid() && Link(i) == n
      ensures forall k :: 0 <= k < ll16.Length && k != i ==> Link(k) == old(Link(k)) && ll16[k] == old(ll16[k])
    {
      hide And, Or, Shr, Shl32;
      SplitLink(n);
      ll16[i] := And(n, 0xffff);
      SetLL4(i, Shr(n, 16));
    }

    method GetLL(i: int) returns (n: int)
      requires Valid() && 0 <= i < ll16.Length
      ensures n == Link(i)
    {
      hide And, Or, Shr, Shl32;
      Nibbles(ll4[i / 2], 0);
      var shift := if i % 2 == 0 then 0 else 4;
      var high := And(Shr(ll4[i / 2], shift), 0xf);
      JoinLink(ll16[i], high);
      n := Or(ll16[i], Shl32(high, 16));
    }
  }

  /** Every position links to its slot. */
  ghost predicate Forward(t: LinkTable, l: seq<byte>)
    reads t, t.ll16, t.ll4
  {
    t.Valid() && |l| <= t.ll16.Length && forall i: nat :: i < |l| ==> t.Link(i) == Slot(l, i)
  }

  /** Replaces each character by its slot, taking the slots in order from a copy of cftab. */
  method BuildForward(t: LinkTable, cftab: array<int>, nblock: int, ghost l: seq<byte>)
    requires t.Valid() && |l| == nblock <= t.ll16.Length && nblock < 0x10_0000
    requires cftab != t.ll16 && forall i :: 0 <= i < nblock ==> t.ll16[i] == l[i]
    requires Cumulative(cftab[..], l)
    modifies t.ll16, t.ll4
    ensures Forward(t, l)
  {
    hide Slot, Count, Below, LinkTable.Nibble;
    var cftabCopy := new int[257];
    for i := 0 to 257
      invariant t.Valid() && forall k :: 0 <= k < nblock ==> t.ll16[k] == l[k]
      invariant Cumulative(cftab[..], l)
      invariant forall c: nat :: c < i ==> cftabCopy[c] == Below(l, c)
    {
      cftabCopy[i] := cftab[i];
    }
    NoneYet(l);
    for i := 0 to nblock
      invariant t.Valid()
      invariant forall c: nat :: c < 256 ==> cftabCopy[c] == Below(l, c) + Count(l[..i], c)
      invariant forall k: nat :: i <= k < nblock ==> t.ll16[k] == l[k]
      invariant forall k: nat :: k < i ==> t.Link(k) == Slot(l, k)
    {
      SlotNow(l, i);
      var uc := t.ll16[i];
      t.SetLL(i, cftabCopy[uc]);
      cftabCopy[uc] := cftabCopy[uc] + 1;
    }
  }

  /** On the rows of `cycle`, which the walk from origPtr never leaves, the links follow the walk. */
  ghost predicate Reversed(t: LinkTable, l: seq<byte>, origPtr: int, cycle: set<int>)
    reads t, t.ll16, t.ll4
  {
    && t.Valid() && |l| <= t.ll16.Length && origPtr in cycle
    && forall x :: x in cycle ==> 0 <= x < |l| && t.Link(x) == Next(l, x) && Next(l, x) in cycle
  }

  /** The state of the reversal: links of visited rows reversed, all others still forward. */
  ghost predicate Reversing(links: seq<int>, l: seq<byte>, origPtr: int, i: int, j: int, visited: set<int>) {
    && |links| == |l| && 0 <= origPtr < |l| && 0 <= i < |l| && j == Slot(l, i)
    && (i == origPtr || i in visited)
    && (forall x :: x in visited ==> 0 <= x < |l| && links[x] == Next(l, x))
    && (forall x :: x in visited ==> Next(l, x) in visited || Next(l, x) == origPtr)
    && (forall x :: 0 <= x < |l| && x !in visited ==> links[x] == Slot(l, x))
  }

  /** One reversal step never meets a visited row before it is back at the start. */
  lemma ReversalStep(links: seq<int>, l: seq<byte>, origPtr: int, i: int, j: int, visited: set<int>)
    requires Reversing(links, l, origPtr, i, j, visited)
    requires i != origPtr || visited == {}
    requires j !in visited
    ensures 0 <= j < |l|
    ensures Reversing(links[j := i], l, origPtr, j, Slot(l, j), visited + {j})
    ensures links[j] == Slot(l, j)
    ensures j != origPtr ==> Slot(l, j) !in visited + {j}
  {
    SlotRange(l, i);
    SlotRange(l, j);
    NextUnique(l, i);
    NextUnique(l, j);
  }

  ghost function Links(t: LinkTable, n: nat): (s: seq<int>)
    requires t.Valid() && n <= t.ll16.Length
    reads t, t.ll16, t.ll4
    ensures |s| == n && forall i :: 0 <= i < n ==> s[i] == t.Link(i)
  {
    seq(n, i requires 0 <= i < n && t.Valid() && n <= t.ll16.Length reads t, t.ll16, t.ll4 => t.Link(i))
  }

  lemma ReversalBegins(links: seq<int>, l: seq<byte>, origPtr: int)
    requires |links| == |l| && 0 <= origPtr < |l|
    requires forall x :: 0 <= x < |l| ==> links[x] == Slot(l, x)
    ensures Reversing(links, l, origPtr, origPtr, links[origPtr], {})
  {
  }

  lemma ReversalEnds(t: LinkTable, links: seq<int>, l: seq<byte>, origPtr: int, j: int, visited: set<int>)
    requires Reversing(links, l, origPtr, origPtr, j, visited) && origPtr in visited
    requires t.Valid() && |l| <= t.ll16.Length && links == Links(t, |l|)
    ensures Reversed(t, l, origPtr, visited)
  {
    forall x | x in visited ensures t.Link(x) == Next(l, x) {
      assert links[x] == t.Link(x);
    }
  }

  /** Points j back at i, returning where j pointed before. */
  method Redirect(t: LinkTable, j: int, i: int, nblock: int) returns (tmp: int)
    requires t.Valid() && 0 <= j < nblock <= t.ll16.Length && 0 <= i < 0x10_0000
    modifies t.ll16, t.ll4
    ensures t.Valid() && tmp == old(Links(t, nblock))[j]
    ensures Links(t, nblock) == old(Links(t, nblock))[j := i]
  {
    hide LinkTable.Nibble;
    tmp := t.GetLL(j);
    t.SetLL(j, i);
  }

  /** Reverses the links along the cycle through origPtr, in place; it ends because no row is visited twice. */
  method ReverseCycle(t: LinkTable, origPtr: int, nblock: int, ghost l: seq<byte>) returns (ghost cycle: set<int>)
    requires |l| == nblock && 0 <= origPtr < nblock < 0x10_0000 && Forward(t, l)
    modifies t.ll16, t.ll4
    ensures Reversed(t, l, origPtr, cycle)
  {
    hide Slot, Next, LinkTable.Nibble, Reversing, Reversed;
    ghost var links := Links(t, nblock);
    ReversalBegins(links, l, origPtr);
    var i := origPtr;
    var j := t.GetLL(i);
    cycle := {};
    while true
      invariant t.Valid() && links == Links(t, nblock)
      invariant 0 <= i < nblock && Reversing(links, l, origPtr, i, j, cycle)
      invariant i != origPtr || cycle == {}
      invariant j !in cycle && cycle <= Range(0, nblock)
      decreases Range(0, nblock) - cycle
    {
      ReversalStep(links, l, origPtr, i, j, cycle);
      var tmp := Redirect(t, j, i, nblock);
      links := links[j := i];
      cycle := cycle + {j};
      i := j;
      j := tmp;
      if i == origPtr {
        break;
      }
    }
    ReversalEnds(t, links, l, origPtr, j, cycle);
  }
}
