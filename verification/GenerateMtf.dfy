// The compressor's move-to-front pass. Its 16-bit output shares the memory
// of the sorted pointers it reads, trailing behind them.
module GenerateMtf {
  import opened Words
  import opened Alphabet
  import opened Mtf
  import opened Perm
  import opened Counting
  import opened InverseBwt

  // 16-bit halves of a word array, low half first.

  ghost function Half(a: seq<int>, k: nat): int
    requires k / 2 < |a|
  {
    if k % 2 == 0 then a[k / 2] % 0x1_0000 else a[k / 2] / 0x1_0000
  }

  /** The first n halves. */
  ghost function Halves(a: seq<int>, n: nat): (r: seq<int>)
    requires n <= 2 * |a|
    ensures |r| == n && forall k :: 0 <= k < n ==> r[k] == Half(a, k)
  {
    seq(n, k requires 0 <= k < n => Half(a, k))
  }

  /** Stores a 16-bit value; only the word it lies in changes, and only that half of it. */
  method PutHalf(a: array<int>, k: nat, v: int)
    requires k / 2 < a.Length && 0 <= v < 0x1_0000
    modifies a
    ensures Half(a[..], k) == v
    ensures forall j: nat :: j < 2 * a.Length && j != k ==> Half(a[..], j) == old(Half(a[..], j))
    ensures forall j :: 0 <= j < a.Length && j != k / 2 ==> a[j] == old(a[j])
  {
    var w := a[k / 2];
    a[k / 2] := if k % 2 == 0 then w / 0x1_0000 * 0x1_0000 + v else v * 0x1_0000 + w % 0x1_0000;
  }

  /** Appends one symbol to the output and counts it. */
  method Emit(arr1: array<int>, mtfFreq: array<int>, ghost m: nat, wr: nat, sym: int)
    requires arr1 != mtfFreq && wr / 2 < arr1.Length && 0 <= sym < m <= mtfFreq.Length <= 258
    requires Counted(mtfFreq[..m], Halves(arr1[..], wr))
    modifies arr1, mtfFreq
    ensures Halves(arr1[..], wr + 1) == old(Halves(arr1[..], wr)) + [sym]
    ensures Counted(mtfFreq[..m], Halves(arr1[..], wr + 1))
    ensures forall j :: wr / 2 < j < arr1.Length ==> arr1[j] == old(arr1[j])
  {
    ghost var h := Halves(arr1[..], wr);
    PutHalf(arr1, wr, sym);
    mtfFreq[sym] := mtfFreq[sym] + 1;
    assert Halves(arr1[..], wr + 1) == h + [sym];
  }

  /** mtfFreq holds how often each symbol occurs. */
  ghost predicate Counted(freq: seq<int>, syms: seq<int>) {
    forall v: nat :: v < |freq| ==> freq[v] == multiset(syms)[v]
  }

  /** Writes the digits of a run of zPend zeros. */
  method FlushZeros(arr1: array<int>, mtfFreq: array<int>, ghost m: nat, wr0: nat, zPend0: nat) returns (wr: nat)
    requires arr1 != mtfFreq && 2 <= m <= mtfFreq.Length <= 258 && wr0 + zPend0 <= 2 * arr1.Length
    requires Counted(mtfFreq[..m], Halves(arr1[..], wr0))
    modifies arr1, mtfFreq
    ensures wr == wr0 + |Flush(zPend0)|
    ensures Halves(arr1[..], wr) == old(Halves(arr1[..], wr0)) + Flush(zPend0)
    ensures Counted(mtfFreq[..m], Halves(arr1[..], wr))
    ensures forall j :: 0 <= j < arr1.Length && wr <= 2 * j ==> arr1[j] == old(arr1[j])
  {
    hide *;
    wr := wr0;
    FlushParts(zPend0);
    ghost var start := Halves(arr1[..], wr0);
    if zPend0 == 0 {
      assert start + [] == start;
      return;
    }
    var zPend := zPend0 - 1;
    ghost var written := [];
    while true
      invariant 0 <= zPend && Flush(zPend0) == written + ZeroRun(zPend)
      invariant wr == wr0 + |written| && wr < wr0 + zPend0
      invariant Halves(arr1[..], wr) == start + written
      invariant Counted(mtfFreq[..m], Halves(arr1[..], wr))
      invariant forall j :: 0 <= j < arr1.Length && wr <= 2 * j ==> arr1[j] == old(arr1[j])
      decreases zPend
    {
      ZeroRunParts(zPend, written);
      var sym := if zPend % 2 == 1 then RUNB else RUNA;
      Emit(arr1, mtfFreq, m, wr, sym);
      wr := wr + 1;
      written := written + [sym];
      assert start + written == Halves(arr1[..], wr);
      if zPend < 2 {
        return;
      }
      zPend := (zPend - 2) / 2;
    }
  }

  lemma FlushParts(z: nat)
    ensures Flush(z) == if z == 0 then [] else [] + ZeroRun(z - 1)
  {
  }

  lemma ZeroRunParts(p: nat, before: seq<int>)
    ensures var sym := if p % 2 == 1 then RUNB else RUNA;
            0 <= sym < 2 && before + ZeroRun(p) == (before + [sym]) + if p < 2 then [] else ZeroRun((p - 2) / 2)
  {
  }

  lemma {:induction false} IndexOfIs(list: seq<int>, x: int, k: nat)
    requires k < |list| && list[k] == x && x !in list[..k]
    ensures x in list && IndexOf(list, x) == k
    decreases k
  {
    if k > 0 {
      assert list[..k][0] == list[0];
      assert list[1..][..k - 1] == list[..k][1..];
      IndexOfIs(list[1..], x, k - 1);
    }
  }

  /** Finds ll beyond the front of yy[..n], shifting what it passes, and puts it at the front. */
  method FindAndMove(yy: array<int>, n: nat, ll: int) returns (j: nat)
    requires 2 <= n <= yy.Length && ll in yy[..n] && yy[0] != ll
    modifies yy
    ensures 1 <= j < n && ll in old(yy[..n]) && j == IndexOf(old(yy[..n]), ll)
    ensures yy[..n] == ToFront(old(yy[..n]), j)
    ensures yy[n..] == old(yy[n..])
  {
    hide IndexOf, ToFront, ShiftedTo;
    ghost var list := yy[..n];
    ghost var at := IndexOf(list, ll);
    var rtmp := yy[1];
    yy[1] := yy[0];
    j := 1;
    ShiftStarts(list, yy[..n]);
    while ll != rtmp
      invariant 1 <= j <= at < n && rtmp == list[j]
      invariant ShiftedTo(list, yy[..n], j)
      invariant yy[n..] == old(yy[n..])
      invariant ll !in list[..j]
      decreases at - j
    {
      j := j + 1;
      var rtmp2 := rtmp;
      ghost var before := yy[..n];
      ShiftNext(list, before, yy[..n][j := rtmp2], j - 1);
      rtmp := yy[j];
      yy[j] := rtmp2;
      assert yy[..n] == before[j := rtmp2];
      NotAmong(list, ll, j);
    }
    ghost var shifted := yy[..n];
    yy[0] := rtmp;
    assert yy[..n] == shifted[0 := rtmp];
    ShiftedIsToFront(list, shifted, j);
    IndexOfIs(list, ll, j);
  }

  /** Entries 0..j-1 of list moved up by one; entry 0 is about to be overwritten. */
  ghost predicate ShiftedTo(list: seq<int>, s: seq<int>, j: nat) {
    && j < |list| == |s|
    && (forall t {:trigger s[t]} :: 1 <= t <= j ==> s[t] == list[t - 1])
    && (forall t {:trigger s[t]} :: j < t < |list| ==> s[t] == list[t])
  }

  lemma ShiftedIsToFront(list: seq<int>, s: seq<int>, j: nat)
    requires ShiftedTo(list, s, j)
    ensures s[0 := list[j]] == ToFront(list, j)
  {
  }

  lemma ShiftStarts(list: seq<int>, s: seq<int>)
    requires |list| >= 2 && s == list[1 := list[0]]
    ensures ShiftedTo(list, s, 1)
  {
  }

  lemma ShiftNext(list: seq<int>, s: seq<int>, s2: seq<int>, j: nat)
    requires ShiftedTo(list, s, j) && j + 1 < |s| && s2 == s[j + 1 := list[j]]
    ensures ShiftedTo(list, s2, j + 1) && s[j + 1] == list[j + 1]
  {
  }

  lemma NotAmong(list: seq<int>, ll: int, j: nat)
    requires 1 <= j < |list| && ll !in list[..j - 1] && ll != list[j - 1]
    ensures ll !in list[..j]
  {
  }

  /** A column of bytes as numbers of used bytes. */
  ghost function Numbered(c: seq<byte>, inUse: UseMap): (l: seq<int>)
    ensures |l| == |c| && forall i :: 0 <= i < |c| ==> l[i] == Rank(inUse, c[i])
  {
    seq(|c|, i requires 0 <= i < |c| => Rank(inUse, c[i]))
  }

  /** All bytes of b are marked used. */
  ghost predicate Covers(inUse: UseMap, b: seq<byte>) {
    forall i :: 0 <= i < |b| ==> inUse[b[i]]
  }

  ghost predicate Pointers(b: seq<byte>, p: seq<int>) {
    |p| == |b| && forall i :: 0 <= i < |p| ==> 0 <= p[i] < |b|
  }

  /** The column whose symbols are generated. */
  ghost function SortedNumbers(b: seq<byte>, p: seq<int>, inUse: UseMap): (l: seq<int>)
    requires Pointers(b, p)
    ensures |l| == |b|
    ensures forall i :: 0 <= i < |b| ==> l[i] == Rank(inUse, b[Prev(p[i], |b|)])
  {
    Numbered(LastColumn(b, p), inUse)
  }

  lemma NumbersInList(b: seq<byte>, p: seq<int>, inUse: UseMap)
    requires Pointers(b, p) && Covers(inUse, b)
    ensures forall i :: 0 <= i < |b| ==> SortedNumbers(b, p, inUse)[i] in Iota(Rank(inUse, 256))
    ensures |b| > 0 ==> Rank(inUse, 256) >= 1
  {
    forall i | 0 <= i < |b| ensures SortedNumbers(b, p, inUse)[i] in Iota(Rank(inUse, 256)) {
      var c := b[Prev(p[i], |b|)];
      UsedAtRank(inUse, c, 256);
      assert Iota(Rank(inUse, 256))[Rank(inUse, c)] == Rank(inUse, c);
    }
    if |b| > 0 {
      UsedAtRank(inUse, b[0], 256);
    }
  }

  lemma NumberAt(b: seq<byte>, p: seq<int>, inUse: UseMap, i: nat)
    requires Pointers(b, p) && Covers(inUse, b) && i < |b|
    ensures inUse[b[Prev(p[i], |b|)]]
    ensures SortedNumbers(b, p, inUse)[i] == Rank(inUse, b[Prev(p[i], |b|)])
  {
  }

  /** What is still to be written from position i on, and where it stands. */
  ghost predicate Writing(arr: seq<int>, freq: seq<int>, list: seq<int>, l: seq<int>, p: seq<int>, i: nat, wr: nat, zPend: nat,
                          total: seq<int>) {
    && i <= |l| == |p| <= |arr| && wr + zPend <= i && |list| >= 1
    && (forall k :: 0 <= k < |l| ==> l[k] in list)
    && total == Halves(arr, wr) + EncodeFrom(l[i..], list, zPend)
    && Counted(freq, Halves(arr, wr))
    && (forall k :: i <= k < |p| ==> arr[k] == p[k])
  }

  lemma WritingZero(arr: seq<int>, freq: seq<int>, list: seq<int>, l: seq<int>, p: seq<int>, i: nat, wr: nat, zPend: nat, total: seq<int>)
    requires Writing(arr, freq, list, l, p, i, wr, zPend, total) && i < |l| && list[0] == l[i]
    ensures Writing(arr, freq, list, l, p, i + 1, wr, zPend + 1, total)
  {
    assert l[i..][1..] == l[i + 1..];
  }

  lemma WritingLiteral(arr: seq<int>, list: seq<int>, l: seq<int>, p: seq<int>, i: nat, wr: nat, zPend: nat,
                       total: seq<int>, freq: seq<int>, arr2: seq<int>, freq2: seq<int>, wr2: nat)
    requires Writing(arr, freq, list, l, p, i, wr, zPend, total) && i < |l| && list[0] != l[i]
    requires |arr2| == |arr| && wr2 == wr + |Flush(zPend)| + 1
    requires Halves(arr2, wr2) == (Halves(arr, wr) + Flush(zPend)) + [IndexOf(list, l[i]) + 1]
    requires Counted(freq2, Halves(arr2, wr2))
    requires forall k :: i < k < |p| ==> arr2[k] == arr[k]
    ensures Writing(arr2, freq2, ToFront(list, IndexOf(list, l[i])), l, p, i + 1, wr2, 0, total)
  {
    hide Half, Halves, Counted, ToFront, IndexOf, Flush, EncodeFrom;
    var k := IndexOf(list, l[i]);
    var rest := EncodeFromRest(l, list, i, zPend);
    Regroup(Halves(arr, wr), Flush(zPend), [k + 1], rest);
    assert total == Halves(arr2, wr2) + rest;
  }

  lemma Regroup(a: seq<int>, b: seq<int>, c: seq<int>, d: seq<int>)
    ensures a + (b + c + d) == ((a + b) + c) + d
  {
  }

  lemma EncodeFromRest(l: seq<int>, list: seq<int>, i: nat, z: nat) returns (rest: seq<int>)
    requires i < |l| && (forall k :: 0 <= k < |l| ==> l[k] in list) && list[0] != l[i]
    ensures forall k :: 0 <= k < |l| ==> l[k] in ToFront(list, IndexOf(list, l[i]))
    ensures rest == EncodeFrom(l[i + 1..], ToFront(list, IndexOf(list, l[i])), 0)
    ensures EncodeFrom(l[i..], list, z) == Flush(z) + [IndexOf(list, l[i]) + 1] + rest
  {
    assert l[i..][1..] == l[i + 1..] && l[i..][0] == l[i];
    var k := IndexOf(list, l[i]);
    forall t | 0 <= t < |l| ensures l[t] in ToFront(list, k) {
      ToFrontElems(list, k, l[t]);
    }
    rest := EncodeFrom(l[i + 1..], ToFront(list, k), 0);
  }

  /**
   * Reads the sorted pointers in arr1 and overwrites them, half a word at a time, with the
   * move-to-front symbols of the last column, ending with the end-of-block symbol.
   */
  method GenerateMtfValues(arr1: array<int>, block: array<byte>, inUse: UseMap, nblock: int, mtfFreq: array<int>)
    returns (nMTF: nat, nInUse: nat)
    requires arr1 != mtfFreq && mtfFreq.Length == 258
    requires 0 < nblock <= block.Length && nblock <= arr1.Length
    requires Pointers(block[..nblock], arr1[..nblock]) && Covers(inUse, block[..nblock])
    modifies arr1, mtfFreq
    ensures nInUse == Rank(inUse, 256) && nMTF <= nblock + 1 && nMTF <= 2 * arr1.Length
    ensures forall i :: 0 <= i < nblock ==> old(SortedNumbers(block[..nblock], arr1[..nblock], inUse))[i] in Iota(nInUse)
    ensures Halves(arr1[..], nMTF)
         == EncodeFrom(old(SortedNumbers(block[..nblock], arr1[..nblock], inUse)), Iota(nInUse), 0) + [nInUse + 1]
    ensures Counted(mtfFreq[..nInUse + 2], Halves(arr1[..], nMTF))
  {
    hide Half, Halves, Counted, ToFront, IndexOf, Flush, EncodeFrom, Rank, LastColumn, Writing;
    ghost var b, p := block[..nblock], arr1[..nblock];
    ghost var l := SortedNumbers(b, p, inUse);
    NumbersInList(b, p, inUse);
    var unseqToSeq, n := MakeMapsE(inUse);
    nInUse := n;
    var eob := nInUse + 1;
    for i := 0 to eob + 1
      invariant forall v :: 0 <= v < i ==> mtfFreq[v] == 0
      invariant arr1[..nblock] == p
      invariant forall c: nat :: c < 256 && inUse[c] ==> unseqToSeq[c] == Rank(inUse, c)
    {
      mtfFreq[i] := 0;
    }
    var wr: nat, zPend: nat := 0, 0;
    var yy := new int[256];
    for i := 0 to nInUse
      invariant forall k :: 0 <= k < i ==> yy[k] == k
      invariant arr1[..nblock] == p && forall v :: 0 <= v <= eob ==> mtfFreq[v] == 0
      invariant forall c: nat :: c < 256 && inUse[c] ==> unseqToSeq[c] == Rank(inUse, c)
    {
      yy[i] := i;
    }
    assert yy[..nInUse] == Iota(nInUse);
    ghost var total := EncodeFrom(l, Iota(nInUse), 0);
    WritingStarts(arr1[..], mtfFreq[..eob + 1], Iota(nInUse), l, p, total);
    for i := 0 to nblock
      invariant Writing(arr1[..], mtfFreq[..eob + 1], yy[..nInUse], l, p, i, wr, zPend, total)
      invariant forall k :: i <= k < nblock ==> arr1[k] == p[k]
      invariant wr + zPend <= i
      invariant forall c: nat :: c < 256 && inUse[c] ==> unseqToSeq[c] == Rank(inUse, c)
    {
      var j := arr1[i] - 1;
      if j < 0 {
        j := j + nblock;
      }
      var ll := unseqToSeq[block[j]];
      NumberAt(b, p, inUse, i);
      wr, zPend := Symbol(arr1, mtfFreq, yy, nInUse, ll, i, wr, zPend, l, p, total);
    }
    wr := Finish(arr1, mtfFreq, yy, nInUse, wr, zPend, l, p, total);
    nMTF := wr;
  }

  lemma WritingStarts(arr: seq<int>, freq: seq<int>, list: seq<int>, l: seq<int>, p: seq<int>, total: seq<int>)
    requires |l| == |p| <= |arr| && |list| >= 1 && (forall k :: 0 <= k < |l| ==> l[k] in list)
    requires total == EncodeFrom(l, list, 0) && (forall v :: 0 <= v < |freq| ==> freq[v] == 0)
    requires forall k :: 0 <= k < |p| ==> arr[k] == p[k]
    ensures Writing(arr, freq, list, l, p, 0, 0, 0, total)
  {
    assert l[0..] == l;
    assert Halves(arr, 0) == [];
    assert [] + total == total;
  }

  /** Handles the i-th character of the column. */
  method Symbol(arr1: array<int>, mtfFreq: array<int>, yy: array<int>, nInUse: nat, ll: int, i: nat, wr0: nat, zPend0: nat,
                ghost l: seq<int>, ghost p: seq<int>, ghost total: seq<int>) returns (wr: nat, zPend: nat)
    requires arr1 != mtfFreq && arr1 != yy && mtfFreq != yy && nInUse <= yy.Length == 256 && mtfFreq.Length == 258
    requires i < |l| && ll == l[i]
    requires Writing(arr1[..], mtfFreq[..nInUse + 2], yy[..nInUse], l, p, i, wr0, zPend0, total)
    modifies arr1, mtfFreq, yy
    ensures Writing(arr1[..], mtfFreq[..nInUse + 2], yy[..nInUse], l, p, i + 1, wr, zPend, total)
    ensures forall k :: i < k < |p| ==> arr1[k] == p[k]
    ensures wr + zPend <= i + 1
  {
    hide Half, Halves, Counted, ToFront, IndexOf, Flush, EncodeFrom, Writing;
    WritingFacts(arr1[..], mtfFreq[..nInUse + 2], yy[..nInUse], l, p, i, wr0, zPend0, total);
    ghost var a0, f0, list := arr1[..], mtfFreq[..nInUse + 2], yy[..nInUse];
    wr, zPend := wr0, zPend0;
    if yy[0] == ll {
      WritingZero(a0, f0, list, l, p, i, wr0, zPend0, total);
      zPend := zPend + 1;
      return;
    }
    wr := FlushZeros(arr1, mtfFreq, nInUse + 2, wr, zPend);
    zPend := 0;
    var j := FindAndMove(yy, nInUse, ll);
    Emit(arr1, mtfFreq, nInUse + 2, wr, j + 1);
    wr := wr + 1;
    WritingLiteral(a0, list, l, p, i, wr0, zPend0, total, f0, arr1[..], mtfFreq[..nInUse + 2], wr);
  }

  lemma WritingFacts(arr: seq<int>, freq: seq<int>, list: seq<int>, l: seq<int>, p: seq<int>, i: nat, wr: nat, zPend: nat, total: seq<int>)
    requires Writing(arr, freq, list, l, p, i, wr, zPend, total)
    ensures i <= |l| == |p| <= |arr| && wr + zPend <= i && |list| >= 1 && Counted(freq, Halves(arr, wr))
    ensures forall k :: i <= k < |p| ==> arr[k] == p[k]
    ensures i < |l| ==> l[i] in list && (list[0] != l[i] ==> |list| >= 2)
  {
  }

  /** The zeros still owed and the end-of-block symbol. */
  method Finish(arr1: array<int>, mtfFreq: array<int>, yy: array<int>, nInUse: nat, wr0: nat, zPend: nat,
                ghost l: seq<int>, ghost p: seq<int>, ghost total: seq<int>) returns (wr: nat)
    requires arr1 != mtfFreq && nInUse <= yy.Length == 256 && mtfFreq.Length == 258 && |l| > 0
    requires Writing(arr1[..], mtfFreq[..nInUse + 2], yy[..nInUse], l, p, |l|, wr0, zPend, total)
    modifies arr1, mtfFreq
    ensures wr <= |l| + 1 && wr <= 2 * arr1.Length
    ensures Halves(arr1[..], wr) == total + [nInUse + 1]
    ensures Counted(mtfFreq[..nInUse + 2], Halves(arr1[..], wr))
  {
    hide Half, Halves, Counted, ToFront, IndexOf, Flush, EncodeFrom, Writing;
    WritingFacts(arr1[..], mtfFreq[..nInUse + 2], yy[..nInUse], l, p, |l|, wr0, zPend, total);
    WritingEnds(arr1[..], mtfFreq[..nInUse + 2], yy[..nInUse], l, p, wr0, zPend, total);
    wr := FlushZeros(arr1, mtfFreq, nInUse + 2, wr0, zPend);
    Emit(arr1, mtfFreq, nInUse + 2, wr, nInUse + 1);
    wr := wr + 1;
  }

  lemma WritingEnds(arr: seq<int>, freq: seq<int>, list: seq<int>, l: seq<int>, p: seq<int>, wr: nat, zPend: nat, total: seq<int>)
    requires Writing(arr, freq, list, l, p, |l|, wr, zPend, total)
    ensures total == Halves(arr, wr) + Flush(zPend)
  {
    assert l[|l|..] == [];
  }
}
