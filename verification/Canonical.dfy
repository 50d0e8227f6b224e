// Canonical prefix codes: how codes follow from lengths, and how the
// decoder's limit/base/perm tables recognise them one bit at a time.
module Canonical {
  import opened Words
  import opened Bits
  import opened Sums
  import opened Kraft

  const MAX_CODE_LEN := 23  // entries of a decoding table
  const LONGEST := 20       // the longest code a decoder accepts

  /** Number of symbols below i whose code has n bits. */
  function CountTo(len: seq<int>, n: int, i: nat): nat
    requires i <= |len|
  {
    if i == 0 then 0 else CountTo(len, n, i - 1) + if len[i - 1] == n then 1 else 0
  }

  function Cnt(len: seq<int>, n: int): nat { CountTo(len, n, |len|) }

  /** The first code of n bits. */
  function First(len: seq<int>, n: nat): nat {
    if n == 0 then 0 else 2 * (First(len, n - 1) + Cnt(len, n - 1))
  }

  /** Number of symbols with codes shorter than n bits. */
  function Below(len: seq<int>, n: nat): nat {
    if n == 0 then 0 else Below(len, n - 1) + Cnt(len, n - 1)
  }

  /** The code of symbol s. */
  function Code(len: seq<int>, s: nat): nat
    requires s < |len| && len[s] >= 0
  {
    First(len, len[s]) + CountTo(len, len[s], s)
  }

  function MinLen(len: seq<int>, i: nat): int
    requires i <= |len|
  {
    if i == 0 then 32 else if len[i - 1] < MinLen(len, i - 1) then len[i - 1] else MinLen(len, i - 1)
  }

  function MaxLen(len: seq<int>, i: nat): int
    requires i <= |len|
  {
    if i == 0 then 0 else if len[i - 1] > MaxLen(len, i - 1) then len[i - 1] else MaxLen(len, i - 1)
  }

  /** Lengths the decoder accepts. */
  ghost predicate Lens(len: seq<int>) {
    1 <= |len| <= 258 && forall i :: 0 <= i < |len| ==> 1 <= len[i] <= LONGEST
  }

  lemma {:induction false} MinMax(len: seq<int>, i: nat)
    requires Lens(len) && i <= |len|
    ensures forall k :: 0 <= k < i ==> MinLen(len, i) <= len[k] <= MaxLen(len, i)
    ensures i > 0 ==> 1 <= MinLen(len, i) <= MaxLen(len, i) <= LONGEST
    ensures i > 0 ==> exists k :: 0 <= k < i && len[k] == MaxLen(len, i)
    ensures i == 0 ==> MinLen(len, i) == 32 && MaxLen(len, i) == 0
  {
    if i > 0 {
      MinMax(len, i - 1);
    }
  }

  /** The symbols below i whose codes have n bits, in order. */
  function OfLength(len: seq<int>, n: int, i: nat): (s: seq<int>)
    requires i <= |len|
    ensures |s| == CountTo(len, n, i)
    ensures forall k :: 0 <= k < |s| ==> 0 <= s[k] < i
  {
    if i == 0 then [] else OfLength(len, n, i - 1) + if len[i - 1] == n then [i - 1] else []
  }

  /** The symbols with codes shorter than n bits, by length. */
  function ByLength(len: seq<int>, n: nat): (s: seq<int>)
    ensures |s| == Below(len, n)
    ensures forall k :: 0 <= k < |s| ==> 0 <= s[k] < |len|
  {
    if n == 0 then [] else ByLength(len, n - 1) + OfLength(len, n - 1, |len|)
  }

  /** A decoding table: limit and base per length, the symbols by length, and the shortest length. */
  datatype Table = Table(minLen: int, limit: seq<int>, base: seq<int>, perm: seq<int>)

  /** The entries the decoder computes for a list of lengths. */
  function TableOf(len: seq<int>): (t: Table)
    ensures |t.limit| == |t.base| == MAX_CODE_LEN
  {
    var lo, hi := MinLen(len, |len|), MaxLen(len, |len|);
    Table(lo,
          seq(MAX_CODE_LEN, n requires n >= 0 => if lo <= n <= hi then First(len, n) + Cnt(len, n) - 1 else 0),
          seq(MAX_CODE_LEN, n requires n >= 0 => if lo < n <= hi then First(len, n) - Below(len, n) else Below(len, n)),
          ByLength(len, LONGEST + 1))
  }

  datatype Match = Longer | Symbol(sym: int) | NoSuchCode

  /** What the decoder makes of the zn bits zvec read so far. */
  function MatchCode(t: Table, zn: nat, zvec: int): Match
    requires |t.limit| == |t.base| == MAX_CODE_LEN
  {
    if zn > LONGEST then NoSuchCode
    else if zvec > t.limit[zn] then Longer
    else if zvec - t.base[zn] < 0 || zvec - t.base[zn] >= 258 || zvec - t.base[zn] >= |t.perm| then NoSuchCode
    else Symbol(t.perm[zvec - t.base[zn]])
  }

  // Counting.

  lemma {:induction false} CountStep(len: seq<int>, n: int, s: nat, i: nat)
    requires s < i <= |len| && len[s] == n
    ensures CountTo(len, n, s) < CountTo(len, n, i)
    ensures OfLength(len, n, i)[CountTo(len, n, s)] == s
    decreases i
  {
    if i - 1 > s {
      CountStep(len, n, s, i - 1);
    }
  }

  lemma {:induction false} CountNone(len: seq<int>, n: int, i: nat)
    requires i <= |len| && forall k :: 0 <= k < i ==> len[k] != n
    ensures CountTo(len, n, i) == 0
  {
    if i > 0 {
      CountNone(len, n, i - 1);
    }
  }

  /** Below the shortest length there is nothing. */
  lemma {:induction false} FirstZero(len: seq<int>, n: nat)
    requires forall i :: 0 <= i < |len| ==> len[i] >= n
    ensures First(len, n) == 0 && Below(len, n) == 0
  {
    if n > 0 {
      FirstZero(len, n - 1);
      CountNone(len, n - 1, |len|);
    }
  }

  /** Codes of n + k bits start beyond every code of n bits. */
  lemma {:induction false} FirstGrows(len: seq<int>, n: nat, k: nat)
    requires k > 0
    ensures First(len, n + k) >= Pow2(k) * (First(len, n) + Cnt(len, n))
    decreases k
  {
    hide CountTo;
    var x := First(len, n) + Cnt(len, n);
    if k == 1 {
      assert Pow2(1) == 2;
    } else {
      FirstGrows(len, n, k - 1);
      DoubleBound(Pow2(k - 1), x, First(len, n + k - 1), First(len, n + k));
    }
  }

  lemma DoubleBound(p: nat, x: nat, f: nat, f2: nat)
    requires f >= p * x && f2 >= 2 * f
    ensures f2 >= (2 * p) * x
  {
    DoubleProduct(p, x);
  }

  lemma {:induction false} ByLengthPrefix(len: seq<int>, n: nat, m: nat)
    requires n <= m
    ensures Below(len, n) <= Below(len, m) && ByLength(len, m)[..Below(len, n)] == ByLength(len, n)
    decreases m
  {
    hide OfLength, CountTo, Cnt;
    if n < m {
      ByLengthPrefix(len, n, m - 1);
      assert ByLength(len, m)[..Below(len, n)] == ByLength(len, m - 1)[..Below(len, n)];
    }
  }

  lemma ByLengthNext(len: seq<int>, n: nat)
    ensures ByLength(len, n + 1) == ByLength(len, n) + OfLength(len, n, |len|)
    ensures Below(len, n + 1) == Below(len, n) + CountTo(len, n, |len|)
  {
  }

  /** Where a symbol stands in the list by length. */
  lemma SymbolSlot(len: seq<int>, s: nat)
    requires Lens(len) && s < |len|
    ensures var k := Below(len, len[s]) + CountTo(len, len[s], s);
            k < Below(len, LONGEST + 1) && ByLength(len, LONGEST + 1)[k] == s
  {
    hide CountTo, OfLength, ByLength, Below;
    var n: nat := len[s];
    CountStep(len, n, s, |len|);
    ByLengthPrefix(len, n + 1, LONGEST + 1);
    ByLengthNext(len, n);
    var k := Below(len, n) + CountTo(len, n, s);
    assert ByLength(len, n + 1)[k] == OfLength(len, n, |len|)[CountTo(len, n, s)];
    assert ByLength(len, LONGEST + 1)[..Below(len, n + 1)][k] == ByLength(len, LONGEST + 1)[k];
  }

  /** All symbols are in the list. */
  lemma {:induction false} BelowShift(len: seq<int>, n: nat)
    requires |len| > 0
    ensures Below(len, n) == Below(len[..|len| - 1], n) + if 0 <= len[|len| - 1] < n then 1 else 0
    decreases n
  {
    if n > 0 {
      BelowShift(len, n - 1);
      CountPrefix(len, n - 1, |len| - 1);
    }
  }

  lemma {:induction false} CountPrefix(len: seq<int>, n: int, i: nat)
    requires |len| > 0 && i <= |len| - 1
    ensures CountTo(len[..|len| - 1], n, i) == CountTo(len, n, i)
    decreases i
  {
    if i > 0 {
      CountPrefix(len, n, i - 1);
    }
  }

  lemma {:induction false} BelowEmpty(n: nat)
    ensures Below([], n) == 0
  {
    if n > 0 {
      BelowEmpty(n - 1);
    }
  }

  lemma {:induction false} BelowCountsAll(len: seq<int>, n: nat)
    requires forall i :: 0 <= i < |len| ==> 0 <= len[i] < n
    ensures Below(len, n) == |len|
    decreases |len|
  {
    if len == [] {
      BelowEmpty(n);
    } else {
      BelowShift(len, n);
      BelowCountsAll(len[..|len| - 1], n);
    }
  }

  // Decoding.

  /** The first n bits of the code of s are either its whole code, or too large for any code of n bits. */
  lemma CodeMatches(len: seq<int>, s: nat, k: nat)
    requires Lens(len) && s < |len| && k <= len[s] - MinLen(len, |len|)
    ensures len[s] - k >= 0
    ensures MatchCode(TableOf(len), len[s] - k, Shr(Code(len, s), k)) == if k == 0 then Symbol(s) else Longer
  {
    hide First, Below, Cnt, CountTo, ByLength, MinLen, MaxLen, Pow2;
    MinMax(len, |len|);
    var n := len[s] - k;
    var lo, hi := MinLen(len, |len|), MaxLen(len, |len|);
    assert lo <= n <= hi;
    if k == 0 {
      SymbolSlot(len, s);
      CodeWithin(len, s);
      StartsAtMin(len);
    } else {
      FirstGrows(len, n, k);
      ShrLower(Code(len, s), k, First(len, n) + Cnt(len, n));
    }
  }

  lemma CodeWithin(len: seq<int>, s: nat)
    requires Lens(len) && s < |len|
    ensures First(len, len[s]) <= Code(len, s) < First(len, len[s]) + Cnt(len, len[s])
    ensures Below(len, len[s]) + CountTo(len, len[s], s) < 258
  {
    CountStep(len, len[s], s, |len|);
    SymbolSlot(len, s);
    BelowCountsAll(len, LONGEST + 1);
  }

  lemma {:induction false} ShrLower(x: nat, k: nat, q: nat)
    requires x >= Pow2(k) * q
    ensures Shr(x, k) >= q
    decreases k
  {
    hide *;
    if k == 0 {
      NotShifted(x);
      NoPower(q);
    } else {
      OneShift(x, k, q);
      ShrLower(x / 2, k - 1, q);
    }
  }

  lemma NoPower(q: nat)
    ensures Pow2(0) * q == q
  {
  }

  lemma OneShift(x: nat, k: nat, q: nat)
    requires k > 0
    ensures Shr(x, k) == Shr(x / 2, k - 1)
    ensures x >= Pow2(k) * q ==> x / 2 >= Pow2(k - 1) * q
  {
    hide Shr;
    DoubleProduct(Pow2(k - 1), q);
    ShrOnce(x, k);
  }

  lemma ShrOnce(x: nat, k: nat)
    requires k > 0
    ensures Shr(x, k) == Shr(x / 2, k - 1)
  {
  }

  /** What every zvec the decoder builds up satisfies while it has met no code. */
  ghost predicate Reachable(len: seq<int>, zn: nat, zvec: int) {
    MinLen(len, |len|) <= zn && (if zn <= MaxLen(len, |len|) then zvec >= First(len, zn) else zvec >= 1)
  }

  lemma ReachableStart(len: seq<int>, zvec: nat)
    requires Lens(len)
    ensures MinLen(len, |len|) >= 0 && Reachable(len, MinLen(len, |len|), zvec)
  {
    StartsAtMin(len);
  }

  lemma StartsAtMin(len: seq<int>)
    requires Lens(len)
    ensures 1 <= MinLen(len, |len|) <= MaxLen(len, |len|) <= LONGEST
    ensures First(len, MinLen(len, |len|)) == 0 && Below(len, MinLen(len, |len|)) == 0
  {
    MinMax(len, |len|);
    FirstZero(len, MinLen(len, |len|));
  }

  lemma ReachableNext(len: seq<int>, zn: nat, zvec: int, zj: int)
    requires Lens(len) && Reachable(len, zn, zvec) && 0 <= zj <= 1
    requires MatchCode(TableOf(len), zn, zvec) == Longer
    ensures Reachable(len, zn + 1, 2 * zvec + zj)
  {
    MinMax(len, |len|);
    var hi := MaxLen(len, |len|);
    if zn == hi {
      var s :| 0 <= s < |len| && len[s] == hi;
      CountStep(len, hi, s, |len|);
    }
  }

  /**
   * For any lengths at all, complete or not, the decoder only ever looks up slots that its table fills:
   * it never reads a stale entry, and it rejects only after more than 20 bits.
   */
  lemma LookupInTable(len: seq<int>, zn: nat, zvec: int)
    requires Lens(len) && Reachable(len, zn, zvec) && zn <= LONGEST && zvec <= TableOf(len).limit[zn]
    ensures 0 <= zvec - TableOf(len).base[zn] < |len| == |TableOf(len).perm|
    ensures MatchCode(TableOf(len), zn, zvec).Symbol? && 0 <= MatchCode(TableOf(len), zn, zvec).sym < |len|
  {
    hide First, Below, Cnt, CountTo, ByLength, MinLen, MaxLen;
    MinMax(len, |len|);
    BelowCountsAll(len, LONGEST + 1);
    StartsAtMin(len);
    BelowNext(len, zn);
    ByLengthPrefix(len, zn + 1, LONGEST + 1);
  }

  lemma BelowNext(len: seq<int>, n: nat)
    ensures Below(len, n + 1) == Below(len, n) + Cnt(len, n)
  {
  }

  // Codes fit their lengths.

  /** The shares of the codes shorter than n bits. */
  function PartShares(len: seq<int>, d: nat, n: int): (s: seq<int>)
    ensures |s| == |len| && forall i :: 0 <= i < |s| ==> s[i] == if len[i] < n then Share(d, len[i]) else 0
  {
    seq(|len|, i requires 0 <= i < |len| => if len[i] < n then Share(d, len[i]) else 0)
  }

  lemma {:induction false} PartSharesStep(len: seq<int>, d: nat, n: nat, i: nat)
    requires i <= |len| && n <= d
    ensures Sum(PartShares(len, d, n + 1)[..i]) == Sum(PartShares(len, d, n)[..i]) + CountTo(len, n, i) * Pow2(d - n)
    decreases i
  {
    if i > 0 {
      PartSharesStep(len, d, n, i - 1);
      var a, b := PartShares(len, d, n + 1), PartShares(len, d, n);
      assert a[..i][..i - 1] == a[..i - 1] && b[..i][..i - 1] == b[..i - 1];
      MulDistributes(CountTo(len, n, i - 1), if len[i - 1] == n then 1 else 0, Pow2(d - n));
    }
  }

  /** The shorter codes take exactly the codes before the first one of n bits. */
  lemma {:induction false} PartSum(len: seq<int>, d: nat, n: nat)
    requires n <= d && forall i :: 0 <= i < |len| ==> len[i] >= 0
    ensures Sum(PartShares(len, d, n)) == First(len, n) * Pow2(d - n)
    decreases n
  {
    hide Sum, CountTo, Share, PartShares;
    if n == 0 {
      SumZero(PartShares(len, d, 0));
    } else {
      PartSum(len, d, n - 1);
      PartNext(len, d, n - 1, First(len, n - 1));
      Halved(First(len, n - 1) + Cnt(len, n - 1), Pow2(d - n), Pow2(d - n + 1));
    }
  }

  lemma Halved(x: nat, p: nat, p2: nat)
    requires p2 == 2 * p
    ensures x * p2 == (2 * x) * p
  {
    DoubleProduct(x, p);
  }

  /** Adding the codes of n bits. */
  lemma PartNext(len: seq<int>, d: nat, n: nat, first: nat)
    requires n <= d && Sum(PartShares(len, d, n)) == first * Pow2(d - n)
    ensures Sum(PartShares(len, d, n + 1)) == (first + Cnt(len, n)) * Pow2(d - n)
  {
    hide Sum, CountTo, Share, PartShares, Pow2;
    PartSharesStep(len, d, n, |len|);
    var a, b := PartShares(len, d, n + 1), PartShares(len, d, n);
    assert a[..|len|] == a && b[..|len|] == b;
    MulDistributes(first, Cnt(len, n), Pow2(d - n));
  }

  lemma CodesFit(len: seq<int>, d: nat, n: nat)
    requires n <= d && KraftSum(len, d) <= Pow2(d) && forall i :: 0 <= i < |len| ==> 0 <= len[i] <= d
    ensures First(len, n) + Cnt(len, n) <= Pow2(n)
  {
    hide *;
    PartSum(len, d, n);
    PartNext(len, d, n, First(len, n));
    PartAtMost(len, d, n + 1);
    Pow2Add(n, d - n);
    CancelBound(First(len, n) + Cnt(len, n), Pow2(n), Pow2(d - n));
  }

  lemma PartAtMost(len: seq<int>, d: nat, n: int)
    ensures Sum(PartShares(len, d, n)) <= KraftSum(len, d)
  {
    SumMonotone(PartShares(len, d, n), Shares(len, d));
  }

  lemma CancelBound(x: nat, y: nat, p: nat)
    requires p > 0 && x * p <= y * p
    ensures x <= y
  {
    if x > y {
      MulMonotone(y + 1, x, p, p);
      MulDistributes(y, 1, p);
    }
  }

  /** Under the Kraft inequality every code fits its length. */
  lemma CodeFits(len: seq<int>, d: nat, s: nat)
    requires Lens(len) && s < |len| && d <= LONGEST && KraftSum(len, d) <= Pow2(d) && forall i :: 0 <= i < |len| ==> len[i] <= d
    ensures Code(len, s) < Pow2(len[s])
  {
    CodesFit(len, d, len[s]);
    CodeWithin(len, s);
  }

  lemma CodeFitsLongest(len: seq<int>, s: nat)
    requires Lens(len) && KraftSum(len, LONGEST) <= Pow2(LONGEST) && s < |len|
    ensures Code(len, s) < Pow2(len[s])
  {
    CodeFits(len, LONGEST, s);
  }

  /** No code is the beginning of another symbol's code. */
  lemma PrefixFree(len: seq<int>, s: nat, t: nat)
    requires Lens(len) && KraftSum(len, LONGEST) <= Pow2(LONGEST) && s < |len| && t < |len| && len[s] <= len[t]
    requires ToBits(Code(len, t), len[t])[..len[s]] == ToBits(Code(len, s), len[s])
    ensures s == t
  {
    hide *;
    MinBelow(len, s);
    MinBelow(len, t);
    var k := len[t] - len[s];
    CodeFitsLongest(len, s);
    CodeFitsLongest(len, t);
    ToBitsPrefix(Code(len, t), len[t], k);
    ShiftedFits(Code(len, t), len[s], k);
    FromToBits(Shr(Code(len, t), k), len[s]);
    FromToBits(Code(len, s), len[s]);
    CodeMatches(len, s, 0);
    CodeMatches(len, t, k);
    NotShifted(Code(len, s));
  }

  lemma NotShifted(v: nat)
    ensures Shr(v, 0) == v
  {
  }

  lemma MinBelow(len: seq<int>, s: nat)
    requires Lens(len) && s < |len|
    ensures 1 <= MinLen(len, |len|) <= len[s] <= LONGEST
  {
    MinMax(len, |len|);
  }

  lemma {:induction false} ShiftedFits(v: nat, n: nat, k: nat)
    requires v < Pow2(n + k)
    ensures Shr(v, k) < Pow2(n)
    decreases k
  {
    if k > 0 {
      ShiftedFits(v / 2, n, k - 1);
    }
  }

  /** The leading bits of a number are its quotient. */
  lemma {:induction false} ToBitsPrefix(v: nat, n: nat, k: nat)
    requires k <= n
    ensures ToBits(v, n)[..n - k] == ToBits(Shr(v, k), n - k)
    decreases k
  {
    if k > 0 {
      ToBitsPrefix(v / 2, n - 1, k - 1);
    }
  }

  // The imperative forms.

  /** BZ2_hbAssignCodes. */
  method AssignCodes(code: array<int>, length: seq<int>, minLen: int, maxLen: int, alphaSize: int)
    requires alphaSize == |length| <= code.Length && 0 <= minLen
    requires forall i :: 0 <= i < |length| ==> minLen <= length[i] <= maxLen
    modifies code
    ensures forall i :: 0 <= i < alphaSize ==> code[i] == Code(length, i)
  {
    hide First, CountTo;
    var vec := 0;
    FirstZero(length, minLen);
    var n := minLen;
    while n <= maxLen
      invariant minLen <= n && (n <= maxLen + 1 || n == minLen) && vec == First(length, n)
      invariant forall k :: 0 <= k < alphaSize && length[k] < n ==> code[k] == Code(length, k)
    {
      CountStart(length, n);
      for i := 0 to alphaSize
        invariant vec == First(length, n) + CountTo(length, n, i)
        invariant forall k :: 0 <= k < alphaSize && (length[k] < n || (length[k] == n && k < i)) ==> code[k] == Code(length, k)
      {
        CountNext(length, n, i);
        if length[i] == n {
          code[i] := vec;
          vec := vec + 1;
        }
      }
      FirstNext(length, n);
      vec := 2 * vec;
      n := n + 1;
    }
  }

  lemma CountStart(len: seq<int>, n: int)
    ensures CountTo(len, n, 0) == 0
  {
  }

  lemma CountNext(len: seq<int>, n: int, i: nat)
    requires i < |len|
    ensures CountTo(len, n, i + 1) == CountTo(len, n, i) + if len[i] == n then 1 else 0
  {
  }

  lemma FirstNext(len: seq<int>, n: nat)
    ensures First(len, n + 1) == 2 * (First(len, n) + Cnt(len, n))
  {
  }

  /** BZ2_hbCreateDecodeTables. */
  method CreateDecodeTables(limit: array<int>, base: array<int>, perm: array<int>, length: seq<int>, minLen: int, maxLen: int, alphaSize: int)
    requires limit != base && limit != perm && base != perm
    requires limit.Length == base.Length == MAX_CODE_LEN && perm.Length == 258 && alphaSize == |length|
    requires Lens(length) && minLen == MinLen(length, |length|) && maxLen == MaxLen(length, |length|)
    modifies limit, base, perm
    ensures Table(minLen, limit[..], base[..], perm[..alphaSize]) == TableOf(length)
  {
    hide First, CountTo, Below, ByLength, OfLength, MinLen, MaxLen;
    StartsAtMin(length);
    FillPerm(perm, length, minLen, maxLen, alphaSize);
    CumulateLengths(base, length, alphaSize);
    FillLimits(limit, base[..], length, minLen, maxLen);
    ghost var lim := limit[..];
    for i := minLen + 1 to maxLen + 1
      invariant limit[..] == lim && perm[..alphaSize] == ByLength(length, LONGEST + 1)
      invariant forall k {:trigger base[k]} :: 0 <= k < MAX_CODE_LEN ==> base[k] == if minLen < k < i then First(length, k) - Below(length, k) else Below(length, k)
    {
      FirstNext(length, i - 1);
      assert limit[i - 1] == lim[i - 1];
      base[i] := (limit[i - 1] + 1) * 2 - base[i];
    }
    assert base[..] == TableOf(length).base;
  }

  /** The last code of each length. */
  method FillLimits(limit: array<int>, base: seq<int>, length: seq<int>, minLen: int, maxLen: int)
    requires limit.Length == MAX_CODE_LEN && Lens(length)
    requires minLen == MinLen(length, |length|) && maxLen == MaxLen(length, |length|)
    requires base == seq(MAX_CODE_LEN, n requires n >= 0 => Below(length, n))
    modifies limit
    ensures limit[..] == TableOf(length).limit
  {
    hide First, CountTo, Below, ByLength, MinLen, MaxLen;
    StartsAtMin(length);
    for i := 0 to MAX_CODE_LEN
      invariant forall k :: 0 <= k < i ==> limit[k] == 0
    {
      limit[i] := 0;
    }
    var vec := 0;
    for i := minLen to maxLen + 1
      invariant vec == First(length, i)
      invariant forall k :: 0 <= k < MAX_CODE_LEN ==> limit[k] == if minLen <= k < i then First(length, k) + Cnt(length, k) - 1 else 0
    {
      BelowNext(length, i);
      FirstNext(length, i);
      vec := vec + (base[i + 1] - base[i]);
      limit[i] := vec - 1;
      vec := 2 * vec;
    }
    assert limit[..] == TableOf(length).limit;
  }

  /** The symbols by length. */
  method FillPerm(perm: array<int>, length: seq<int>, minLen: int, maxLen: int, alphaSize: int)
    requires perm.Length == 258 && alphaSize == |length| && Lens(length)
    requires minLen == MinLen(length, |length|) && maxLen == MaxLen(length, |length|)
    modifies perm
    ensures perm[..alphaSize] == ByLength(length, LONGEST + 1)
  {
    hide First, CountTo, Below, ByLength, OfLength, MinLen, MaxLen;
    StartsAtMin(length);
    BelowCountsAll(length, LONGEST + 1);
    var pp: nat := 0;
    for i := minLen to maxLen + 1
      invariant pp == Below(length, i) <= alphaSize && perm[..pp] == ByLength(length, i)
    {
      PermRoom(length, i, alphaSize);
      ListStart(length, i);
      for j := 0 to alphaSize
        invariant pp == Below(length, i) + CountTo(length, i, j) <= alphaSize
        invariant perm[..pp] == ByLength(length, i) + OfLength(length, i, j)
      {
        ListNext(length, i, j);
        CountNext(length, i, j);
        PermRoom(length, i, j + 1);
        if length[j] == i {
          ghost var was := perm[..pp];
          perm[pp] := j;
          assert perm[..pp + 1] == was + [j as int];
          ConcatAssoc(ByLength(length, i), OfLength(length, i, j), [j as int]);
          pp := pp + 1;
        } else {
          assert OfLength(length, i, j) + [] == OfLength(length, i, j);
        }
      }
      ByLengthNext(length, i);
    }
    MinMax(length, |length|);
    BelowCountsAll(length, maxLen + 1);
    ByLengthPrefix(length, maxLen + 1, LONGEST + 1);
  }

  lemma PermRoom(len: seq<int>, n: nat, j: nat)
    requires j <= |len| && n <= LONGEST && Lens(len)
    ensures Below(len, n) + CountTo(len, n, j) <= |len|
  {
    CountMonotone(len, n, j, |len|);
    BelowNext(len, n);
    BelowCountsAll(len, LONGEST + 1);
    ByLengthPrefix(len, n + 1, LONGEST + 1);
  }

  lemma {:induction false} CountMonotone(len: seq<int>, n: int, i: nat, j: nat)
    requires i <= j <= |len|
    ensures CountTo(len, n, i) <= CountTo(len, n, j)
    decreases j
  {
    if i < j {
      CountMonotone(len, n, i, j - 1);
    }
  }

  lemma ListStart(len: seq<int>, n: nat)
    ensures ByLength(len, n) + OfLength(len, n, 0) == ByLength(len, n) && CountTo(len, n, 0) == 0
  {
  }

  lemma ListNext(len: seq<int>, n: int, j: nat)
    requires j < |len|
    ensures OfLength(len, n, j + 1) == OfLength(len, n, j) + if len[j] == n then [j] else []
  {
  }

  /** base[n] becomes the number of symbols with codes shorter than n. */
  method CumulateLengths(base: array<int>, length: seq<int>, alphaSize: int)
    requires base.Length == MAX_CODE_LEN && alphaSize == |length| && Lens(length)
    modifies base
    ensures base[..] == seq(MAX_CODE_LEN, n requires n >= 0 => Below(length, n))
  {
    hide CountTo, Below;
    for i := 0 to MAX_CODE_LEN
      invariant forall k :: 0 <= k < i ==> base[k] == 0
    {
      base[i] := 0;
    }
    CountStarts(length);
    for i := 0 to alphaSize
      invariant base[..] == Counted(length, i)
    {
      CountNexts(length, i);
      base[length[i] + 1] := base[length[i] + 1] + 1;
    }
    BelowStart(length);
    for i := 1 to MAX_CODE_LEN
      invariant forall k {:trigger base[k]} :: 0 <= k < MAX_CODE_LEN ==> base[k] == if k < i then Below(length, k) else Cnt(length, k - 1)
    {
      BelowNext(length, i - 1);
      assert base[i - 1] == Below(length, i - 1);
      base[i] := base[i] + base[i - 1];
    }
    assert base[..] == seq(MAX_CODE_LEN, n requires n >= 0 => Below(length, n));
  }

  /** Entry n + 1 counts the symbols below i with codes of n bits. */
  function Counted(len: seq<int>, i: nat): (s: seq<int>)
    requires i <= |len|
    ensures |s| == MAX_CODE_LEN && forall k :: 0 <= k < |s| ==> s[k] == if k == 0 then 0 else CountTo(len, k - 1, i)
  {
    seq(MAX_CODE_LEN, k requires k >= 0 => if k == 0 then 0 else CountTo(len, k - 1, i))
  }

  lemma CountStarts(len: seq<int>)
    ensures forall k :: 0 <= k < MAX_CODE_LEN ==> Counted(len, 0)[k] == 0
  {
  }

  lemma CountNexts(len: seq<int>, i: nat)
    requires i < |len| && 1 <= len[i] <= LONGEST
    ensures Counted(len, i + 1) == Counted(len, i)[len[i] + 1 := Counted(len, i)[len[i] + 1] + 1]
  {
    forall k | 1 <= k < MAX_CODE_LEN ensures Counted(len, i + 1)[k] == Counted(len, i)[k] + if k == len[i] + 1 then 1 else 0 {
      CountNext(len, k - 1, i);
    }
  }

  lemma BelowStart(len: seq<int>)
    ensures Below(len, 0) == 0
  {
  }
}
