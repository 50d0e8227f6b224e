// Move-to-front coding with run-coded zeros: the compressor's symbol stream
// and the decompressor's reaction to one symbol.
module Mtf {
  import opened Words
  import opened RunLength

  const RUNA := 0
  const RUNB := 1

  /** Moves the element at position k to the front. */
  function ToFront<T>(list: seq<T>, k: nat): (r: seq<T>)
    requires k < |list|
    ensures |r| == |list|
    ensures forall i :: 0 <= i < |r| ==> r[i] == list[if i == 0 then k else if i <= k then i - 1 else i]
  {
    [list[k]] + list[..k] + list[k + 1..]
  }

  /** First position of x. */
  function IndexOf<T(==)>(list: seq<T>, x: T): (k: nat)
    requires x in list
    ensures k < |list| && list[k] == x
    ensures x !in list[..k]
  {
    if list[0] == x then 0 else 1 + IndexOf(list[1..], x)
  }

  lemma ToFrontElems<T>(list: seq<T>, k: nat, x: T)
    requires k < |list|
    ensures x in ToFront(list, k) <==> x in list
  {
    var r := ToFront(list, k);
    if x in list {
      var i :| 0 <= i < |list| && list[i] == x;
      assert r[if i < k then i + 1 else if i == k then 0 else i] == x;
    }
  }

  /** 0, 1, ..., n-1. */
  function Iota(n: nat): (s: seq<int>)
    ensures |s| == n && forall i :: 0 <= i < n ==> s[i] == i
  {
    seq(n, i => i)
  }

  /** The RUNA/RUNB digits of p + 1 zeros: bijective base two, least significant first. */
  function ZeroRun(p: nat): (s: seq<int>)
    ensures forall x :: x in s ==> x == RUNA || x == RUNB
    ensures 1 <= |s| <= p + 1
  {
    [if p % 2 == 1 then RUNB else RUNA] + if p < 2 then [] else ZeroRun((p - 2) / 2)
  }

  function Flush(z: nat): (s: seq<int>)
    ensures |s| <= z
    ensures forall x :: x in s ==> x == RUNA || x == RUNB
  {
    if z > 0 then ZeroRun(z - 1) else []
  }

  /** Symbols for the column l from position on, given the current list and z zeros not yet coded. */
  ghost function EncodeFrom(l: seq<int>, list: seq<int>, z: nat): (s: seq<int>)
    requires forall i :: 0 <= i < |l| ==> l[i] in list
    decreases |l|
  {
    if l == [] then Flush(z)
    else
    assert l[0] in list;
    if list[0] == l[0] then EncodeFrom(l[1..], list, z + 1)
    else
      var k := IndexOf(list, l[0]);
      assert forall i :: 0 <= i < |l| ==> l[i] in ToFront(list, k) by {
        forall i | 0 <= i < |l| ensures l[i] in ToFront(list, k) {
          ToFrontElems(list, k, l[i]);
        }
      }
      Flush(z) + [k + 1] + EncodeFrom(l[1..], ToFront(list, k), 0)
  }

  // The decompressor's side.

  datatype Cont = Fresh | InRun(es: int, n: nat)

  /** The decoder between two symbols: its list, the characters recovered so far, and the run being read. */
  datatype Core = Core(list: seq<int>, tt: seq<byte>, cont: Cont)

  datatype Reaction = More(core: Core) | Done(core: Core) | Bad

  /** How large a block may get, the end-of-block symbol, and what the list's numbers stand for. */
  datatype Params = Params(eob: int, nblockMAX: nat, seqToUnseq: seq<byte>)

  predicate ValidCore(core: Core, p: Params) {
    && |p.seqToUnseq| == 256 && |core.list| == 256 && 2 <= p.eob <= 257
    && forall i :: 0 <= i < 256 ==> 0 <= core.list[i] < 256
  }

  const MAX_RUN_WEIGHT := 2 * 1024 * 1024

  function RunSymbol(core: Core, es: int, n: nat, sym: int): Reaction {
    if n >= MAX_RUN_WEIGHT then Bad
    else More(core.(cont := InRun(if sym == RUNA then es + n else es + 2 * n, 2 * n)))
  }

  /** Reaction to a symbol outside a run. */
  function Dispatch(core: Core, p: Params, sym: int): (r: Reaction)
    requires ValidCore(core, p) && 0 <= sym <= p.eob
    ensures r.More? ==> ValidCore(r.core, p)
  {
    if sym == p.eob then Done(core.(cont := Fresh))
    else if sym == RUNA || sym == RUNB then RunSymbol(core, -1, 1, sym)
    else if |core.tt| >= p.nblockMAX then Bad
    else
      var nn := sym - 1;
      var uc := core.list[nn];
      More(Core(ToFront(core.list, nn), core.tt + [p.seqToUnseq[uc]], Fresh))
  }

  /** Reaction to any symbol; a run that ends is written out first. */
  function OnSymbol(core: Core, p: Params, sym: int): (r: Reaction)
    requires ValidCore(core, p) && 0 <= sym <= p.eob
    ensures r.More? ==> ValidCore(r.core, p)
  {
    match core.cont
    case Fresh => Dispatch(core, p, sym)
    case InRun(es, n) =>
      if sym == RUNA || sym == RUNB then RunSymbol(core, es, n, sym)
      else if es + 1 > 0 && |core.tt| + (es + 1) > p.nblockMAX then Bad
      else
        var copies := if es + 1 > 0 then es + 1 else 0;
        Dispatch(Core(core.list, core.tt + Repeat(p.seqToUnseq[core.list[0]], copies), Fresh), p, sym)
  }

  predicate AllSymbols(syms: seq<int>, p: Params) {
    forall i :: 0 <= i < |syms| ==> 0 <= syms[i] <= p.eob
  }

  /** Reaction to a sequence of symbols, stopping at the first that ends the block or is bad. */
  function Feed(core: Core, p: Params, syms: seq<int>): (r: Reaction)
    requires ValidCore(core, p) && AllSymbols(syms, p)
    decreases |syms|
  {
    if syms == [] then More(core)
    else
      var r := OnSymbol(core, p, syms[0]);
      if r.More? then Feed(r.core, p, syms[1..]) else r
  }

  lemma {:induction false} FeedSplit(core: Core, p: Params, a: seq<int>, b: seq<int>)
    requires ValidCore(core, p) && AllSymbols(a, p) && AllSymbols(b, p)
    ensures Feed(core, p, a).More? ==> ValidCore(Feed(core, p, a).core, p)
    ensures Feed(core, p, a + b) == if Feed(core, p, a).More? then Feed(Feed(core, p, a).core, p, b) else Feed(core, p, a)
    decreases |a|
  {
    if a == [] {
      assert a + b == b;
    } else {
      assert (a + b)[0] == a[0] && (a + b)[1..] == a[1..] + b;
      var r := OnSymbol(core, p, a[0]);
      if r.More? {
        FeedSplit(r.core, p, a[1..], b);
      }
    }
  }

  // Round trip.

  /** Reading the digits of q + 1 adds (q + 1) * n to the run so far; the weight bound is never hit on the way. */
  lemma {:induction false} FeedZeroRun(core: Core, p: Params, es: int, n: nat, q: nat) returns (n2: nat)
    requires ValidCore(core, p) && core.cont == InRun(es, n)
    requires 1 <= n && n * (q + 1) < MAX_RUN_WEIGHT
    ensures AllSymbols(ZeroRun(q), p)
    ensures Feed(core, p, ZeroRun(q)) == More(core.(cont := InRun(es + n * (q + 1), n2)))
    decreases q
  {
    var sym := if q % 2 == 1 then RUNB else RUNA;
    var rest := if q < 2 then [] else ZeroRun((q - 2) / 2);
    assert ZeroRun(q) == [sym] + rest;
    RunWeight(n, q);
    var c1 := core.(cont := InRun(es + n * (sym + 1), 2 * n));
    assert OnSymbol(core, p, sym) == More(c1);
    assert ZeroRun(q)[1..] == rest;
    if q < 2 {
      n2 := 2 * n;
    } else {
      n2 := FeedZeroRun(c1, p, es + n * (sym + 1), 2 * n, (q - 2) / 2);
    }
  }

  lemma RunWeight(n: nat, q: nat)
    requires 1 <= n && n * (q + 1) < MAX_RUN_WEIGHT
    ensures n < MAX_RUN_WEIGHT
    ensures q < 2 ==> n * (q + 1) == n * (q % 2 + 1)
    ensures q >= 2 ==> n * (q % 2 + 1) + 2 * n * ((q - 2) / 2 + 1) == n * (q + 1)
  {
    MulMonotone(n, n, 1, q + 1);
    if q >= 2 {
      var h := (q - 2) / 2 + 1;
      assert q + 1 == (q % 2 + 1) + 2 * h;
      MulDistributes(q % 2 + 1, 2 * h, n);
    }
  }

  /** The state in which z zeros have been read but not yet written out. */
  ghost function Owing(core: Core, z: nat, n: nat): Core {
    core.(cont := if z == 0 then Fresh else InRun(z - 1, n))
  }

  lemma FeedFlush(core: Core, p: Params, z: nat) returns (n: nat)
    requires ValidCore(core, p) && core.cont == Fresh && z < MAX_RUN_WEIGHT
    ensures AllSymbols(Flush(z), p)
    ensures Feed(core, p, Flush(z)) == More(Owing(core, z, n))
  {
    n := 0;
    if z > 0 {
      var q := z - 1;
      n := FeedZeroRun(core.(cont := InRun(-1, 1)), p, -1, 1, q);
      FirstOfRun(core, p, ZeroRun(q));
    }
  }

  /** A fresh decoder meeting a run digit behaves as one in an empty run. */
  lemma FirstOfRun(core: Core, p: Params, s: seq<int>)
    requires ValidCore(core, p) && core.cont == Fresh && AllSymbols(s, p)
    requires |s| > 0 && (s[0] == RUNA || s[0] == RUNB)
    ensures Feed(core, p, s) == Feed(core.(cont := InRun(-1, 1)), p, s)
  {
    assert OnSymbol(core, p, s[0]) == OnSymbol(core.(cont := InRun(-1, 1)), p, s[0]);
  }

  /** Any other symbol first writes the owed zeros. */
  lemma PayRun(core: Core, p: Params, z: nat, n: nat, sym: int)
    requires ValidCore(core, p) && core.cont == Fresh && |core.tt| + z <= p.nblockMAX
    requires RUNB < sym <= p.eob
    ensures var paid := core.(tt := core.tt + Repeat(p.seqToUnseq[core.list[0]], z));
            OnSymbol(Owing(core, z, n), p, sym) == Dispatch(paid, p, sym)
  {
    if z == 0 {
      assert core.tt + Repeat(p.seqToUnseq[core.list[0]], 0) == core.tt;
    }
  }

  /** The characters a column of list numbers stands for. */
  ghost function Chars(l: seq<int>, p: Params): (r: seq<byte>)
    requires |p.seqToUnseq| == 256 && forall i :: 0 <= i < |l| ==> 0 <= l[i] < 256
    ensures |r| == |l| && forall i :: 0 <= i < |l| ==> r[i] == p.seqToUnseq[l[i]]
  {
    seq(|l|, i requires 0 <= i < |l| => p.seqToUnseq[l[i]])
  }

  /** The decoder's list begins with the encoder's. */
  ghost predicate Synchronised(list: seq<int>, core: Core, p: Params) {
    && ValidCore(core, p) && core.cont == Fresh && p.eob == |list| + 1 && |list| >= 1
    && core.list[..|list|] == list
  }

  lemma SynchronisedMove(list: seq<int>, core: Core, p: Params, k: nat)
    requires Synchronised(list, core, p) && 1 <= k < |list| && |core.tt| < p.nblockMAX
    ensures Dispatch(core, p, k + 1).More?
    ensures var c := Dispatch(core, p, k + 1).core;
            Synchronised(ToFront(list, k), c, p) && c.tt == core.tt + [p.seqToUnseq[list[k]]]
  {
    var c := Dispatch(core, p, k + 1).core;
    assert c.list == ToFront(core.list, k);
    assert core.list[k] == list[k];
    forall i | 0 <= i < |list| ensures c.list[i] == ToFront(list, k)[i] {}
    assert c.list[..|list|] == ToFront(list, k);
  }

  ghost predicate Column(l: seq<int>, list: seq<int>) {
    && (forall i :: 0 <= i < |l| ==> l[i] in list)
    && (forall i :: 0 <= i < |l| ==> 0 <= l[i] < 256)
  }

  predicate InRange(s: seq<int>, m: int) {
    forall i :: 0 <= i < |s| ==> 0 <= s[i] < m
  }

  lemma FlushInRange(z: nat, m: int)
    requires m >= 2
    ensures InRange(Flush(z), m)
  {
    forall i | 0 <= i < |Flush(z)| ensures 0 <= Flush(z)[i] < m {
      assert Flush(z)[i] in Flush(z);
    }
  }

  lemma InRangeLiteral(a: seq<int>, x: int, b: seq<int>, m: int)
    requires InRange(a, m) && 0 <= x < m && InRange(b, m)
    ensures InRange(a + [x] + b, m)
  {
  }

  lemma {:induction false} EncodedInRange(l: seq<int>, list: seq<int>, z: nat)
    requires |list| >= 1 && forall i :: 0 <= i < |l| ==> l[i] in list
    ensures InRange(EncodeFrom(l, list, z), |list| + 1) && |EncodeFrom(l, list, z)| <= z + |l|
    decreases |l|
  {
    hide InRange, Flush, EncodeFrom, ToFront, IndexOf;
    FlushInRange(z, |list| + 1);
    EncodeFromIs(l, list, z);
    if l != [] {
      if list[0] == l[0] {
        EncodedInRange(l[1..], list, z + 1);
      } else {
        var k := IndexOf(list, l[0]);
        var rest := EncodeFrom(l[1..], ToFront(list, k), 0);
        EncodedInRange(l[1..], ToFront(list, k), 0);
        InRangeLiteral(Flush(z), k + 1, rest, |list| + 1);
      }
    }
  }

  lemma EncodeFromIs(l: seq<int>, list: seq<int>, z: nat)
    requires |list| >= 1 && forall i :: 0 <= i < |l| ==> l[i] in list
    ensures l == [] ==> EncodeFrom(l, list, z) == Flush(z)
    ensures |Flush(z)| <= z
    ensures l != [] && list[0] == l[0] ==> EncodeFrom(l, list, z) == EncodeFrom(l[1..], list, z + 1)
    ensures l != [] && list[0] != l[0] ==>
              var k := IndexOf(list, l[0]);
              && k < |list| && |ToFront(list, k)| == |list| && (forall i :: 0 <= i < |l| ==> l[i] in ToFront(list, k))
              && EncodeFrom(l, list, z) == Flush(z) + [k + 1] + EncodeFrom(l[1..], ToFront(list, k), 0)
  {
    hide Flush, ToFront, IndexOf;
    if l != [] && list[0] != l[0] {
      assert l[0] in list;
      var k := IndexOf(list, l[0]);
      forall i | 0 <= i < |l| ensures l[i] in ToFront(list, k) {
        ToFrontElems(list, k, l[i]);
      }
    }
  }

  /** Symbols stay below the end-of-block symbol. */
  lemma EncodedSymbols(l: seq<int>, list: seq<int>, z: nat, p: Params)
    requires |list| >= 1 && p.eob == |list| + 1 && forall i :: 0 <= i < |l| ==> l[i] in list
    ensures AllSymbols(EncodeFrom(l, list, z), p)
    ensures |EncodeFrom(l, list, z)| <= z + |l|
    ensures forall i :: 0 <= i < |EncodeFrom(l, list, z)| ==> EncodeFrom(l, list, z)[i] < p.eob
  {
    hide EncodeFrom;
    EncodedInRange(l, list, z);
  }

  /** Decoding the symbols of a column gives back the column, with any zeros owed at the start written first. */
  lemma {:induction false} MtfRoundTrip(l: seq<int>, list: seq<int>, z: nat, core: Core, p: Params)
    requires Synchronised(list, core, p) && Column(l, list)
    requires |core.tt| + z + |l| <= p.nblockMAX && z + |l| < MAX_RUN_WEIGHT
    ensures AllSymbols(EncodeFrom(l, list, z) + [p.eob], p)
    ensures var r := Feed(core, p, EncodeFrom(l, list, z) + [p.eob]);
            r.Done? && r.core.tt == core.tt + Repeat(p.seqToUnseq[list[0]], z) + Chars(l, p)
    decreases |l|
  {
    hide EncodeFrom, Feed, Flush, ToFront, IndexOf, AllSymbols, OnSymbol, Repeat, Chars;
    EncodedSymbols(l, list, z, p);
    EncodeFromIs(l, list, z);
    EndIsSymbol(EncodeFrom(l, list, z), p);
    var n := FeedFlush(core, p, z);
    if l == [] {
      MtfEnd(list, z, core, p, n);
      NoChars(core.tt + Repeat(p.seqToUnseq[list[0]], z), p);
    } else if list[0] == l[0] {
      MtfRoundTrip(l[1..], list, z + 1, core, p);
      ColumnFirst(l, p, core.tt, z);
    } else {
      MtfLiteral(l, list, z, core, p, n);
    }
  }

  /** The end of the column, with zeros still owed. */
  lemma MtfEnd(list: seq<int>, z: nat, core: Core, p: Params, n: nat)
    requires Synchronised(list, core, p) && |core.tt| + z <= p.nblockMAX && AllSymbols(Flush(z), p)
    requires Feed(core, p, Flush(z)) == More(Owing(core, z, n))
    ensures AllSymbols(Flush(z) + [p.eob], p)
    ensures var r := Feed(core, p, Flush(z) + [p.eob]);
            r.Done? && r.core.tt == core.tt + Repeat(p.seqToUnseq[list[0]], z)
  {
    hide Flush;
    assert core.list[0] == list[0];
    FeedSplit(core, p, Flush(z), [p.eob]);
    PayRun(core, p, z, n, p.eob);
  }

  lemma EndIsSymbol(s: seq<int>, p: Params)
    requires AllSymbols(s, p) && p.eob >= 0
    ensures AllSymbols(s + [p.eob], p)
  {
  }

  lemma NoChars(s: seq<byte>, p: Params)
    requires |p.seqToUnseq| == 256
    ensures s + Chars([], p) == s
  {
  }

  lemma ColumnFirst(l: seq<int>, p: Params, tt: seq<byte>, z: nat)
    requires |p.seqToUnseq| == 256 && |l| > 0 && forall i :: 0 <= i < |l| ==> 0 <= l[i] < 256
    ensures tt + Repeat(p.seqToUnseq[l[0]], z + 1) + Chars(l[1..], p) == tt + Repeat(p.seqToUnseq[l[0]], z) + Chars(l, p)
    ensures [p.seqToUnseq[l[0]]] + Chars(l[1..], p) == Chars(l, p)
  {
  }

  /** After the owed zeros, one literal symbol. */
  lemma FeedLiteral(list: seq<int>, z: nat, core: Core, p: Params, n: nat, k: nat, rest: seq<int>)
    requires Synchronised(list, core, p) && 1 <= k < |list| && |core.tt| + z < p.nblockMAX
    requires AllSymbols(rest, p) && AllSymbols(Flush(z), p)
    requires Feed(core, p, Flush(z)) == More(Owing(core, z, n))
    ensures exists c :: Synchronised(ToFront(list, k), c, p)
              && c.tt == core.tt + Repeat(p.seqToUnseq[list[0]], z) + [p.seqToUnseq[list[k]]]
              && AllSymbols(Flush(z) + ([k + 1] + rest), p)
              && Feed(core, p, Flush(z) + ([k + 1] + rest)) == Feed(c, p, rest)
  {
    var paid := core.(tt := core.tt + Repeat(p.seqToUnseq[core.list[0]], z));
    assert core.list[0] == list[0];
    PayRun(core, p, z, n, k + 1);
    SynchronisedMove(list, paid, p, k);
    var c := Dispatch(paid, p, k + 1).core;
    FeedSplit(core, p, Flush(z), [k + 1] + rest);
    assert ([k + 1] + rest)[1..] == rest;
  }

  lemma {:induction false} MtfLiteral(l: seq<int>, list: seq<int>, z: nat, core: Core, p: Params, n: nat)
    requires Synchronised(list, core, p) && Column(l, list) && |l| > 0 && list[0] != l[0]
    requires |core.tt| + z + |l| <= p.nblockMAX && z + |l| < MAX_RUN_WEIGHT
    requires AllSymbols(EncodeFrom(l, list, z) + [p.eob], p) && AllSymbols(Flush(z), p)
    requires Feed(core, p, Flush(z)) == More(Owing(core, z, n))
    ensures var r := Feed(core, p, EncodeFrom(l, list, z) + [p.eob]);
            r.Done? && r.core.tt == core.tt + Repeat(p.seqToUnseq[list[0]], z) + Chars(l, p)
    decreases |l|, 0
  {
    hide Feed, OnSymbol, Dispatch, ToFront, Flush, Chars, Owing, Repeat;
    var k := IndexOf(list, l[0]);
    ColumnRest(l, list, k);
    var rest := EncodeFrom(l[1..], ToFront(list, k), 0) + [p.eob];
    assert EncodeFrom(l, list, z) + [p.eob] == Flush(z) + ([k + 1] + rest);
    EncodedSymbols(l[1..], ToFront(list, k), 0, p);
    FeedLiteral(list, z, core, p, n, k, rest);
    var c :| Synchronised(ToFront(list, k), c, p)
              && c.tt == core.tt + Repeat(p.seqToUnseq[list[0]], z) + [p.seqToUnseq[list[k]]]
              && Feed(core, p, Flush(z) + ([k + 1] + rest)) == Feed(c, p, rest);
    MtfRoundTrip(l[1..], ToFront(list, k), 0, c, p);
    LiteralSum(core.tt + Repeat(p.seqToUnseq[list[0]], z), l, p, c.tt, p.seqToUnseq[ToFront(list, k)[0]]);
  }

  lemma ColumnRest(l: seq<int>, list: seq<int>, k: nat)
    requires Column(l, list) && |l| > 0 && k < |list|
    ensures Column(l[1..], ToFront(list, k))
  {
    forall i | 0 <= i < |l| ensures l[i] in ToFront(list, k) {
      ToFrontElems(list, k, l[i]);
    }
  }

  lemma LiteralSum(before: seq<byte>, l: seq<int>, p: Params, tt: seq<byte>, any: byte)
    requires |p.seqToUnseq| == 256 && |l| > 0 && forall i :: 0 <= i < |l| ==> 0 <= l[i] < 256
    requires tt == before + [p.seqToUnseq[l[0]]]
    ensures tt + Repeat(any, 0) + Chars(l[1..], p) == before + Chars(l, p)
  {
    ColumnFirst(l, p, [], 0);
    assert tt + Repeat(any, 0) + Chars(l[1..], p) == before + ([p.seqToUnseq[l[0]]] + Chars(l[1..], p));
  }

  /**
   * When a symbol is bad: a run digit when the weight has come to two million, any other symbol when the zeros owed, or
   * one character more, are more than the block holds.
   */
  lemma BadExact(core: Core, p: Params, sym: int)
    requires ValidCore(core, p) && 0 <= sym <= p.eob
    ensures var owed := if core.cont.InRun? && core.cont.es >= 0 then core.cont.es + 1 else 0;
            OnSymbol(core, p, sym).Bad? <==>
              if sym == 0 || sym == 1 then core.cont.InRun? && core.cont.n >= 2097152
              else (owed > 0 && |core.tt| + owed > p.nblockMAX) || (sym < p.eob && |core.tt| + owed >= p.nblockMAX)
  {
  }
}
