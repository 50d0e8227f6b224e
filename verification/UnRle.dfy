// The output side of the decompressor: it walks the block through the
// inverse-transform tables and undoes the run-length layer, stopping whenever
// the caller's output space is used up.
module UnRle {
  import opened Words
  import opened Perm
  import opened Counting
  import opened InverseBwt
  import opened InverseSetup
  import opened RunLength

  /** The row reached from row j after k steps of the walk. */
  ghost function RowAt(l: seq<byte>, j: nat, k: nat): (r: nat)
    requires j < |l|
    ensures r < |l|
    decreases k
  {
    if k == 0 then j else RowAt(l, Next(l, j), k - 1)
  }

  lemma {:induction false} RowStep(l: seq<byte>, j: nat, k: nat)
    requires j < |l|
    ensures RowAt(l, j, k + 1) == Next(l, RowAt(l, j, k))
    decreases k
  {
    if k > 0 {
      RowStep(l, Next(l, j), k - 1);
    }
  }

  lemma {:induction false} WalkAt(l: seq<byte>, j: nat, k: nat, i: nat)
    requires j < |l| && i < k
    ensures Walk(l, j, k)[i] == l[RowAt(l, j, i + 1)]
    decreases k
  {
    hide Next;
    if i > 0 {
      WalkAt(l, Next(l, j), k - 1, i - 1);
      assert RowAt(l, j, i + 1) == RowAt(l, Next(l, j), i);
    } else {
      assert RowAt(l, Next(l, j), 0) == Next(l, j);
    }
  }

  lemma {:induction false} WalkPrefix(l: seq<byte>, j: nat, k: nat, m: nat)
    requires j < |l| && k <= m
    ensures Walk(l, j, m)[..k] == Walk(l, j, k)
    decreases k
  {
    if k > 0 {
      WalkPrefix(l, Next(l, j), k - 1, m - 1);
    }
  }

  /** What is still to be emitted: `len` copies of `ch`, then whatever the unread part of the block unpacks to. */
  ghost function Future(d: seq<byte>, n: nat, used: nat, ch: byte, len: nat): Unpacked
    requires |d| == n + 2 && 1 <= used
  {
    if used > n + 1 then Unpacked(Repeat(ch, len), true)
    else Prepend(Repeat(ch, len), Unpack(d[used - 1..n], d[n]))
  }

  /** Emitting one pending byte. */
  lemma FutureEmit(d: seq<byte>, n: nat, used: nat, ch: byte, len: nat)
    requires |d| == n + 2 && 1 <= used && len > 0
    ensures Future(d, n, used, ch, len) == Prepend([ch], Future(d, n, used, ch, len - 1))
  {
    var rest := Future(d, n, used, ch, len - 1).bytes;
    assert Repeat(ch, len) == [ch] + Repeat(ch, len - 1);
    if used <= n + 1 {
      var u := Unpack(d[used - 1..n], d[n]).bytes;
      assert Repeat(ch, len) + u == [ch] + (Repeat(ch, len - 1) + u);
    }
  }

  lemma RunHeadIs(b: seq<byte>, k: nat)
    requires 1 <= k <= 4 && k <= |b|
    requires forall i :: 0 <= i < k ==> b[i] == b[0]
    requires k < 4 && k < |b| ==> b[k] != b[0]
    ensures RunHead(b) == k
  {
  }

  lemma NothingPending(ch: byte, u: Unpacked)
    ensures Prepend(Repeat(ch, 0), u) == u
  {
    assert Repeat(ch, 0) + u.bytes == u.bytes;
  }

  /** Starting a run: k equal characters are read, and the run is over after them. */
  lemma FutureShortRun(d: seq<byte>, n: nat, used: nat, k: nat, any: byte)
    requires |d| == n + 2 && 1 <= used <= n && 1 <= k <= 3 && used - 1 + k <= n
    requires (k >= 2 ==> d[used] == d[used - 1]) && (k >= 3 ==> d[used + 1] == d[used - 1])
    requires used - 1 + k < n ==> d[used - 1 + k] != d[used - 1]
    ensures Future(d, n, used, any, 0) == Future(d, n, used + k, d[used - 1], k)
  {
    var b := d[used - 1..n];
    forall i | 0 <= i < k ensures b[i] == b[0] {
      assert b[i] == d[used - 1 + i];
    }
    RunHeadIs(b, k);
    assert b[k..] == d[used + k - 1..n];
    NothingPending(any, Unpack(b, d[n]));
  }

  /** Starting a run of at least four: the fifth character is the count, and one more is read ahead. */
  lemma FutureLongRun(d: seq<byte>, n: nat, used: nat, any: byte)
    requires |d| == n + 2 && 1 <= used && used + 3 <= n
    requires d[used] == d[used - 1] && d[used + 1] == d[used - 1] && d[used + 2] == d[used - 1]
    ensures Future(d, n, used, any, 0) == Future(d, n, used + 5, d[used - 1], d[used + 3] as nat + 4)
  {
    var b := d[used - 1..n];
    forall i | 0 <= i < 4 ensures b[i] == b[0] {
      assert b[i] == d[used - 1 + i];
    }
    RunHeadIs(b, 4);
    NothingPending(any, Unpack(b, d[n]));
    if |b| > 4 {
      assert b[4] == d[used + 3];
      assert b[5..] == d[used + 4..n];
    }
  }

  /** One read from the fast table, at the row reached after k + 1 steps. */
  lemma FastRead(tt: seq<int>, l: seq<byte>, j: nat, k: nat, m: nat)
    requires j < |l| && FastTable(tt, l) && k < m
    ensures RowAt(l, j, k + 1) < |tt| && 0 <= tt[RowAt(l, j, k + 1)]
    ensures And(tt[RowAt(l, j, k + 1)], 0xff) == Walk(l, j, m)[k]
    ensures Shr(tt[RowAt(l, j, k + 1)], 8) == RowAt(l, j, k + 2)
  {
    hide And, Shr, Walk, RowAt, Next;
    var row := RowAt(l, j, k + 1);
    RowStep(l, j, k + 1);
    WalkAt(l, j, m, k);
    LowPart(l[row], Next(l, row), tt[row]);
    LowByte(tt[row]);
  }

  lemma FirstRow(tt: seq<int>, l: seq<byte>, j: nat)
    requires j < |l| && FastTable(tt, l)
    ensures |tt| >= |l| && 0 <= tt[j] && Shr(tt[j], 8) == RowAt(l, j, 1)
  {
    RowStep(l, j, 0);
    LowPart(l[j], Next(l, j), tt[j]);
    LowByte(tt[j]);
  }

  /** The decoder's output state over the fast table. */
  class FastOutput {
    const tt: array<int>
    const nblock: nat
    const limit: nat  // 100000 * blockSize100k
    var tPos: int
    var k0: byte
    var nblockUsed: int
    var stateOutCh: byte
    var stateOutLen: int
    ghost const l: seq<byte>
    ghost const origPtr: nat

    ghost predicate Shape() {
      0 < |l| == nblock <= limit && origPtr < nblock
    }

    ghost predicate Source()
      requires Shape()
      reads this`tPos, this`nblockUsed, tt
    {
      0 <= nblockUsed && FastTable(tt[..], l) && tPos == RowAt(l, origPtr, nblockUsed + 1)
    }

    /** The characters of the block and the two that a reader running past its end would see. */
    ghost function Chars(): (d: seq<byte>)
      requires origPtr < |l|
      ensures |d| == |l| + 2
    {
      Walk(l, origPtr, |l| + 2)
    }

    ghost predicate Valid()
      reads this, tt
    {
      && Shape() && Source() && 1 <= nblockUsed <= nblock + 2 && 0 <= stateOutLen
      && (nblockUsed <= nblock ==> k0 == Chars()[nblockUsed - 1])
    }

    ghost function ToCome(): Unpacked
      requires Valid()
      reads this, tt
    {
      Future(Chars(), nblock, nblockUsed, stateOutCh, stateOutLen)
    }

    /** Positions the walk at the row of the unrotated block and reads the first character ahead. */
    constructor (tt: array<int>, nblock: nat, limit: nat, origPtr: nat, ghost l: seq<byte>)
      requires 0 < |l| == nblock <= limit && origPtr < nblock && FastTable(tt[..], l)
      ensures Valid() && this.tt == tt && this.l == l && this.origPtr == origPtr
      ensures ToCome() == Unpack(Walk(l, origPtr, nblock), Chars()[nblock])
    {
      hide Walk, RowAt, Next, FastTable, Future, Unpack, And, Shr;
      FirstRow(tt[..], l, origPtr);
      this.tt, this.nblock, this.limit := tt, nblock, limit;
      this.l, this.origPtr := l, origPtr;
      tPos := Shr(tt[origPtr], 8);
      nblockUsed, stateOutLen, stateOutCh := 0, 0, 0;
      k0 := 0;
      new;
      var bad, ch := GetFast();
      k0 := ch;
      FutureAtStart(l, origPtr, stateOutCh);
    }

    /** Reads the next character of the block; `bad` reports a row index beyond the allocated table. */
    method GetFast() returns (bad: bool, ch: byte)
      requires Shape() && Source() && 0 <= nblockUsed <= nblock + 1
      modifies this`tPos, this`nblockUsed
      ensures !bad && nblockUsed == old(nblockUsed) + 1
      ensures ch == Chars()[old(nblockUsed)]
      ensures Source()
    {
      hide And, Shr, Walk, RowAt, FastTable;
      bad := tPos >= limit;
      ch := 0;
      if bad {
        return;
      }
      FastRead(tt[..], l, origPtr, nblockUsed, |l| + 2);
      tPos := tt[tPos];
      ch := And(tPos, 0xff);
      tPos := Shr(tPos, 8);
      nblockUsed := nblockUsed + 1;
    }
  
    /** Reads the next run of the block into stateOutCh and stateOutLen, reading one character ahead. */
    method StartRun() returns (bad: bool)
      requires Valid() && stateOutLen == 0 && nblockUsed <= nblock
      modifies this`tPos, this`nblockUsed, this`k0, this`stateOutCh, this`stateOutLen
      ensures !bad && Valid() && stateOutLen > 0
      ensures ToCome() == old(ToCome()) && nblockUsed > old(nblockUsed)
    {
      hide Unpack, Future, Repeat, Prepend, FastOutput.Source, FastOutput.Chars;
      ghost var d, u, any := Chars(), nblockUsed, stateOutCh;
      stateOutCh := k0;
      var k1: byte;
      bad, k1 := GetFast();
      if bad { return; }
      if k1 != k0 || nblockUsed == nblock + 1 {
        FutureShortRun(d, nblock, u, 1, any);
        k0 := k1;
        stateOutLen := 1;
        return;
      }
      stateOutLen := 2;
      bad, k1 := GetFast();
      if bad { return; }
      if nblockUsed == nblock + 1 || k1 != k0 {
        FutureShortRun(d, nblock, u, 2, any);
        k0 := if nblockUsed == nblock + 1 then k0 else k1;
        return;
      }
      stateOutLen := 3;
      bad, k1 := GetFast();
      if bad { return; }
      if nblockUsed == nblock + 1 || k1 != k0 {
        FutureShortRun(d, nblock, u, 3, any);
        k0 := if nblockUsed == nblock + 1 then k0 else k1;
        return;
      }
      bad, k1 := GetFast();
      if bad { return; }
      stateOutLen := k1 as int + 4;
      FutureLongRun(d, nblock, u, any);
      var k: byte;
      bad, k := GetFast();
      k0 := k;
    }

    lemma DoneIs()
      requires Valid()
      ensures nblockUsed == nblock + 1 && stateOutLen == 0 <==> ToCome() == Unpacked([], false)
    {
      hide Unpack, Future, FastOutput.Source, FastOutput.Chars;
      NothingToCome(Chars(), nblock, nblockUsed, stateOutCh, stateOutLen);
    }

    /** Emits up to availOut0 bytes; reports corruption once the block turns out to end inside a run's count. Then nothing
        of the call is saved: the caller does not learn of the bytes that were written into its buffer, here called lost. */
    method UnRleFast(availOut0: nat) returns (out: seq<byte>, availOut: nat, corrupt: bool, ghost lost: seq<byte>)
      requires Valid()
      modifies this`tPos, this`nblockUsed, this`k0, this`stateOutCh, this`stateOutLen
      ensures |out| + availOut == availOut0 && Valid()
      ensures corrupt <==> old(ToCome()).corrupt && |old(ToCome()).bytes| <= availOut0
      ensures corrupt ==> old(ToCome()) == Unpacked(lost, true) && |lost| <= availOut0 && out == [] && ToCome() == old(ToCome())
      ensures !corrupt ==> old(ToCome()) == Prepend(out, ToCome()) && lost == []
      ensures !corrupt && availOut > 0 ==> nblockUsed == nblock + 1 && stateOutLen == 0
      ensures !corrupt && nblockUsed == nblock + 1 && stateOutLen == 0 ==> old(ToCome()) == Unpacked(out, false)
    {
      hide Unpack, Repeat, Future, FastOutput.Source, FastOutput.Chars;
      out, availOut, corrupt, lost := [], availOut0, false, [];
      var saved1, saved2, saved3, saved4, saved5 := tPos, nblockUsed, k0, stateOutCh, stateOutLen;
      NothingYet(ToCome());
      while true
        invariant |out| + availOut == availOut0 && Valid() && !corrupt
        invariant old(ToCome()) == Prepend(out, ToCome())
        decreases nblock + 2 - nblockUsed
      {
        ghost var used0 := nblockUsed;
        while stateOutLen > 0
          invariant |out| + availOut == availOut0 && Valid() && nblockUsed == used0
          invariant old(ToCome()) == Prepend(out, ToCome())
        {
          if availOut == 0 {
            MoreToCome(Chars(), nblock, nblockUsed, stateOutCh, stateOutLen);
            return;
          }
          EmitOne(old(ToCome()), out, Chars(), nblock, nblockUsed, stateOutCh, stateOutLen);
          out := out + [stateOutCh];
          availOut := availOut - 1;
          stateOutLen := stateOutLen - 1;
        }
        BlockEnd(Chars(), nblock, nblockUsed, stateOutCh, stateOutLen);
        if nblockUsed > nblock + 1 {
          lost, out, availOut, corrupt := out, [], availOut0, true;
          tPos, nblockUsed, k0, stateOutCh, stateOutLen := saved1, saved2, saved3, saved4, saved5;
          SavedStands();
          return;
        }
        if nblockUsed == nblock + 1 {
          return;
        }
        var bad := StartRun();
        if bad {
          corrupt := true;
          return;
        }
      }
    }

    twostate lemma SavedStands()
      requires old(Valid()) && tPos == old(tPos) && nblockUsed == old(nblockUsed) && k0 == old(k0)
      requires stateOutCh == old(stateOutCh) && stateOutLen == old(stateOutLen) && unchanged(tt)
      ensures Valid() && ToCome() == old(ToCome())
    {
      hide Walk, RowAt, FastTable, Future, Unpack;
    }
  }

  /** Nothing is to come, and nothing wrong, exactly when the block has been read and its last run is out. */
  lemma NothingToCome(d: seq<byte>, n: nat, used: nat, ch: byte, len: nat)
    requires |d| == n + 2 && 1 <= used
    ensures used == n + 1 && len == 0 <==> Future(d, n, used, ch, len) == Unpacked([], false)
  {
    hide RunHead;
    if used <= n {
      SomeUnpacked(d[used - 1..n], d[n]);
    }
  }

  lemma SomeUnpacked(b: seq<byte>, beyond: byte)
    requires b != []
    ensures |Unpack(b, beyond).bytes| > 0
  {
  }

  lemma MoreToCome(d: seq<byte>, n: nat, used: nat, ch: byte, len: nat)
    requires |d| == n + 2 && 1 <= used && len > 0
    ensures |Future(d, n, used, ch, len).bytes| > 0
  {
    hide Future;
    FutureEmit(d, n, used, ch, len);
  }

  lemma NothingYet(u: Unpacked)
    ensures Prepend([], u) == u
  {
    assert [] + u.bytes == u.bytes;
  }

  lemma EmitOne(total: Unpacked, out: seq<byte>, d: seq<byte>, n: nat, used: nat, ch: byte, len: nat)
    requires |d| == n + 2 && 1 <= used && len > 0
    requires total == Prepend(out, Future(d, n, used, ch, len))
    ensures total == Prepend(out + [ch], Future(d, n, used, ch, len - 1))
  {
    FutureEmit(d, n, used, ch, len);
    var rest := Future(d, n, used, ch, len - 1).bytes;
    assert out + ([ch] + rest) == (out + [ch]) + rest;
  }

  /** Nothing is pending past the end of the block; past its end by more than one character it is corrupt. */
  lemma BlockEnd(d: seq<byte>, n: nat, used: nat, ch: byte, len: nat)
    requires |d| == n + 2 && 1 <= used
    ensures len == 0 && used == n + 1 ==> Future(d, n, used, ch, len) == Unpacked([], false)
    ensures len == 0 && used > n + 1 ==> Future(d, n, used, ch, len) == Unpacked([], true)
  {
    assert Repeat(ch, 0) == [];
  }

  /** The character whose rows contain row `indx`, by binary search over the first rows. */
  method IndexIntoF(indx: int, cftab: array<int>, ghost l: seq<byte>) returns (nb: int)
    requires Cumulative(cftab[..], l) && 0 <= indx < |l|
    ensures nb == SortedChar(l, indx)
  {
    hide Below, Count, SortedChar;
    CftabEnds(l);
    var na, mid: int;
    nb := 0;
    na := 256;
    while na - nb != 1
      invariant 0 <= nb < na <= 256
      invariant cftab[nb] <= indx < cftab[na]
      decreases na - nb
    {
      mid := (nb + na) / 2;
      if indx >= cftab[mid] {
        nb := mid;
      } else {
        na := mid;
      }
    }
    CharUnique(l, indx, nb);
  }

  lemma CftabEnds(l: seq<byte>)
    ensures forall c: nat {:trigger Below(l, c)} :: (c == 0 ==> Below(l, c) == 0) && (c == 256 ==> Below(l, c) == |l|)
  {
    forall c: nat ensures (c == 0 ==> Below(l, c) == 0) && (c == 256 ==> Below(l, c) == |l|) {
      if c == 256 {
        BelowAll(l, c);
      }
    }
  }

  lemma CycleAt(t: LinkTable, l: seq<byte>, origPtr: int, cycle: set<int>, x: int)
    requires Reversed(t, l, origPtr, cycle) && (x in cycle || x == origPtr)
    ensures t.Valid() && |l| <= t.ll16.Length && 0 <= x < |l| && x in cycle
    ensures t.Link(x) == Next(l, x) && Next(l, x) in cycle
  {
  }

  /** The decoder's output state over the memory-saving table. */
  class SmallOutput {
    const links: LinkTable
    const cftab: array<int>
    const nblock: nat
    const limit: nat
    var tPos: int
    var k0: byte
    var nblockUsed: int
    var stateOutCh: byte
    var stateOutLen: int
    ghost const l: seq<byte>
    ghost const origPtr: nat
    ghost const cycle: set<int>

    ghost predicate Shape() {
      0 < |l| == nblock <= limit && origPtr < nblock
    }

    ghost predicate Source()
      requires Shape()
      reads this`tPos, this`nblockUsed, links, links.ll16, links.ll4, cftab
    {
      && Reversed(links, l, origPtr, cycle) && Cumulative(cftab[..], l)
      && 0 <= nblockUsed && tPos in cycle && tPos == RowAt(l, origPtr, nblockUsed)
    }

    ghost function Chars(): (d: seq<byte>)
      requires origPtr < |l|
      ensures |d| == |l| + 2
    {
      Walk(l, origPtr, |l| + 2)
    }

    ghost predicate Valid()
      reads this, links, links.ll16, links.ll4, cftab
    {
      && Shape() && Source() && 1 <= nblockUsed <= nblock + 2 && 0 <= stateOutLen
      && (nblockUsed <= nblock ==> k0 == Chars()[nblockUsed - 1])
    }

    ghost function ToCome(): Unpacked
      requires Valid()
      reads this, links, links.ll16, links.ll4, cftab
    {
      Future(Chars(), nblock, nblockUsed, stateOutCh, stateOutLen)
    }

    /** Starts at the row of the unrotated block and reads the first character ahead. */
    constructor (links: LinkTable, cftab: array<int>, nblock: nat, limit: nat, origPtr: nat,
                 ghost l: seq<byte>, ghost cycle: set<int>)
      requires 0 < |l| == nblock <= limit && origPtr < nblock
      requires Reversed(links, l, origPtr, cycle) && Cumulative(cftab[..], l)
      ensures Valid() && this.links == links && this.cftab == cftab && this.l == l && this.origPtr == origPtr
      ensures ToCome() == Unpack(Walk(l, origPtr, nblock), Chars()[nblock])
    {
      hide Walk, Next, Reversed, Cumulative, Future, Unpack;
      CycleAt(links, l, origPtr, cycle, origPtr);
      this.links, this.cftab, this.nblock, this.limit := links, cftab, nblock, limit;
      this.l, this.origPtr, this.cycle := l, origPtr, cycle;
      tPos := origPtr;
      nblockUsed, stateOutLen, stateOutCh := 0, 0, 0;
      k0 := 0;
      new;
      var bad, ch := GetSmall();
      k0 := ch;
      FutureAtStart(l, origPtr, stateOutCh);
    }

    /** Reads the next character: the one whose rows contain the current row. */
    method GetSmall() returns (bad: bool, ch: byte)
      requires Shape() && Source() && 0 <= nblockUsed <= nblock + 1
      modifies this`tPos, this`nblockUsed
      ensures !bad && nblockUsed == old(nblockUsed) + 1
      ensures ch == Chars()[old(nblockUsed)]
      ensures Source()
    {
      hide Walk, RowAt, Next, LinkTable.Link, Cumulative, Reversed, SortedChar;
      CycleAt(links, l, origPtr, cycle, tPos);
      bad := tPos >= limit;
      ch := 0;
      if bad {
        return;
      }
      RowStep(l, origPtr, nblockUsed);
      WalkAt(l, origPtr, |l| + 2, nblockUsed);
      var c := IndexIntoF(tPos, cftab, l);
      ch := c;
      tPos := links.GetLL(tPos);
      nblockUsed := nblockUsed + 1;
    }

    lemma Parts()
      requires Valid()
      ensures Shape() && Source() && 1 <= nblockUsed <= nblock + 2 && 0 <= stateOutLen && |l| == nblock && origPtr < |l|
      ensures (nblockUsed <= nblock ==> k0 == Chars()[nblockUsed - 1])
      ensures ToCome() == Future(Chars(), nblock, nblockUsed, stateOutCh, stateOutLen)
    {
    }

    lemma NowValid()
      requires Shape() && Source() && 1 <= nblockUsed <= nblock + 2 && 0 <= stateOutLen && |l| == nblock && origPtr < |l|
      requires (nblockUsed <= nblock ==> k0 == Chars()[nblockUsed - 1])
      ensures Valid() && ToCome() == Future(Chars(), nblock, nblockUsed, stateOutCh, stateOutLen)
    {
    }

    /** The run is over: its character stays, and the next one is the character ahead. */
    method RunEnds(k1: byte, ghost d: seq<byte>, ghost u: nat, ghost any: byte)
      requires Shape() && Source() && |l| == nblock && origPtr < |l| && d == Chars() && 1 <= u <= nblock && 1 <= stateOutLen <= 3
      requires nblockUsed == u + stateOutLen <= nblock + 1 && k1 == d[nblockUsed - 1] && k0 == stateOutCh == d[u - 1]
      requires (stateOutLen >= 2 ==> d[u] == d[u - 1]) && (stateOutLen >= 3 ==> d[u + 1] == d[u - 1])
      requires nblockUsed == nblock + 1 || k1 != k0
      modifies this`k0
      ensures Valid() && ToCome() == Future(d, nblock, u, any, 0)
    {
      hide *;
      FutureShortRun(d, nblock, u, stateOutLen, any);
      k0 := if nblockUsed == nblock + 1 then k0 else k1;
      NowValid();
    }

    /** As StartRun of FastOutput; the end of the block comes before the comparison of characters. */
    method StartRun() returns (bad: bool)
      requires Valid() && stateOutLen == 0 && nblockUsed <= nblock
      modifies this`tPos, this`nblockUsed, this`k0, this`stateOutCh, this`stateOutLen
      ensures !bad && Valid() && stateOutLen > 0
      ensures ToCome() == old(ToCome()) && nblockUsed > old(nblockUsed)
    {
      hide *;
      Parts();
      ghost var d, u, any := Chars(), nblockUsed, stateOutCh;
      stateOutLen := 1;
      stateOutCh := k0;
      var k1: byte;
      bad, k1 := GetSmall();
      if bad { return; }
      if nblockUsed == nblock + 1 || k1 != k0 {
        RunEnds(k1, d, u, any);
        return;
      }
      stateOutLen := 2;
      bad, k1 := GetSmall();
      if bad { return; }
      if nblockUsed == nblock + 1 || k1 != k0 {
        RunEnds(k1, d, u, any);
        return;
      }
      stateOutLen := 3;
      bad, k1 := GetSmall();
      if bad { return; }
      if nblockUsed == nblock + 1 || k1 != k0 {
        RunEnds(k1, d, u, any);
        return;
      }
      bad, k1 := GetSmall();
      if bad { return; }
      stateOutLen := k1 as int + 4;
      FutureLongRun(d, nblock, u, any);
      var k: byte;
      bad, k := GetSmall();
      k0 := k;
      NowValid();
    }

    lemma DoneIs()
      requires Valid()
      ensures nblockUsed == nblock + 1 && stateOutLen == 0 <==> ToCome() == Unpacked([], false)
    {
      hide Unpack, Future, SmallOutput.Source, SmallOutput.Chars;
      NothingToCome(Chars(), nblock, nblockUsed, stateOutCh, stateOutLen);
    }

    /** Emits up to availOut0 bytes, looking at the output space before anything else. */
    method UnRleSmall(availOut0: nat) returns (out: seq<byte>, availOut: nat, corrupt: bool)
      requires Valid()
      modifies this`tPos, this`nblockUsed, this`k0, this`stateOutCh, this`stateOutLen
      ensures |out| + availOut == availOut0 && Valid()
      ensures corrupt <==> old(ToCome()).corrupt && |old(ToCome()).bytes| < availOut0
      ensures corrupt ==> old(ToCome()) == Unpacked(out, true) && ToCome() == Unpacked([], true)
      ensures !corrupt ==> old(ToCome()) == Prepend(out, ToCome())
      ensures !corrupt && availOut > 0 ==> nblockUsed == nblock + 1 && stateOutLen == 0
      ensures !corrupt && nblockUsed == nblock + 1 && stateOutLen == 0 ==> old(ToCome()) == Unpacked(out, false)
    {
      hide Unpack, Repeat, Future, SmallOutput.Source, SmallOutput.Chars;
      out, availOut, corrupt := [], availOut0, false;
      NothingYet(ToCome());
      while true
        invariant |out| + availOut == availOut0 && Valid() && !corrupt
        invariant old(ToCome()) == Prepend(out, ToCome())
        decreases nblock + 2 - nblockUsed, stateOutLen
      {
        BlockEnd(Chars(), nblock, nblockUsed, stateOutCh, stateOutLen);
        if availOut == 0 {
          return;
        }
        if stateOutLen != 0 {
          EmitOne(old(ToCome()), out, Chars(), nblock, nblockUsed, stateOutCh, stateOutLen);
          out := out + [stateOutCh];
          availOut := availOut - 1;
          stateOutLen := stateOutLen - 1;
          continue;
        }
        if nblockUsed == nblock + 1 {
          return;
        }
        if nblockUsed > nblock + 1 {
          corrupt := true;
          return;
        }
        var bad := StartRun();
        if bad {
          corrupt := true;
          return;
        }
      }
    }
  }

  /** Without corruption, what a block's output consists of: the undone block, unpacked. */
  lemma FutureAtStart(l: seq<byte>, origPtr: nat, any: byte)
    requires origPtr < |l|
    ensures var d := Walk(l, origPtr, |l| + 2);
            Future(d, |l|, 1, any, 0) == Unpack(Walk(l, origPtr, |l|), d[|l|])
  {
    var d := Walk(l, origPtr, |l| + 2);
    WalkPrefix(l, origPtr, |l|, |l| + 2);
    assert d[0..|l|] == Walk(l, origPtr, |l|);
    NothingPending(any, Unpack(d[0..|l|], d[|l|]));
  }
}
