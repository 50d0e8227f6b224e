// sendMTFValues: choosing coding tables for a block's symbols and sending
// everything the decoder needs.
module SendMtf {
  import opened Words
  import opened Bits
  import opened BitIO
  import opened Sums
  import opened Kraft
  import opened Alphabet
  import opened Mtf
  import opened GenerateMtf
  import opened Canonical
  import opened HuffmanTree
  import opened HuffmanOptimal
  import opened HuffmanLengths
  import opened Decoder
  import opened BlockFormat
  import opened BlockWriter

  const LESSER_ICOST := 0
  const GREATER_ICOST := 15
  const N_ITERS := 4

  /** Six rows of lengths, one per table. */
  ghost predicate LenRows(len: seq<array<byte>>) {
    && |len| == N_GROUPS
    && (forall t {:trigger len[t]} :: 0 <= t < N_GROUPS ==> len[t].Length == 258)
    && (forall t, u {:trigger len[t], len[u]} :: 0 <= t < u < N_GROUPS ==> len[t] != len[u])
  }

  ghost predicate IntRows(rows: seq<array<int>>) {
    && |rows| == N_GROUPS
    && (forall t {:trigger rows[t]} :: 0 <= t < N_GROUPS ==> rows[t].Length == 258)
    && (forall t, u {:trigger rows[t], rows[u]} :: 0 <= t < u < N_GROUPS ==> rows[t] != rows[u])
  }

  /** The rows cut to the alphabet. */
  ghost function Rows(len: seq<array<byte>>, alphaSize: nat): (r: seq<seq<int>>)
    requires LenRows(len) && alphaSize <= 258
    reads len
    ensures |r| == N_GROUPS && forall t {:trigger r[t]} {:trigger len[t]} :: 0 <= t < N_GROUPS ==> r[t] == len[t][..alphaSize]
  {
    seq(N_GROUPS, t requires 0 <= t < N_GROUPS reads len => len[t][..alphaSize])
  }

  /** Lengths that the cost computation may meet: the initial estimates, or code lengths. */
  ghost predicate Costs(rows: seq<seq<int>>, alphaSize: nat) {
    && |rows| == N_GROUPS
    && (forall t {:trigger rows[t]} :: 0 <= t < N_GROUPS ==> |rows[t]| == alphaSize)
    && (forall t, v {:trigger rows[t][v]} :: 0 <= t < N_GROUPS && 0 <= v < alphaSize ==> 0 <= rows[t][v] <= LONGEST)
  }

  function GroupsFor(nMTF: nat): (n: nat)
    ensures 2 <= n <= N_GROUPS
  {
    if nMTF < 200 then 2 else if nMTF < 600 then 3 else if nMTF < 1200 then 4 else if nMTF < 2400 then 5 else 6
  }

  ghost predicate SymbolsBelow(m: seq<int>, alphaSize: nat) {
    3 <= alphaSize <= 258 && forall i :: 0 <= i < |m| ==> 0 <= m[i] < alphaSize
  }

  /** Cost in bits of symbols lo..hi-1 in a table with the given lengths. */
  ghost function Cost(len: seq<int>, m: seq<int>, lo: nat, hi: nat): int
    requires lo <= hi <= |m| && SymbolsBelow(m, |len|)
    decreases hi
  {
    if lo == hi then 0 else Cost(len, m, lo, hi - 1) + len[m[hi - 1]]
  }

  lemma {:induction false} CostBound(len: seq<int>, m: seq<int>, lo: nat, hi: nat)
    requires lo <= hi <= |m| && SymbolsBelow(m, |len|) && forall v :: 0 <= v < |len| ==> 0 <= len[v] <= LONGEST
    ensures 0 <= Cost(len, m, lo, hi) <= LONGEST * (hi - lo)
    decreases hi
  {
    if lo < hi {
      CostBound(len, m, lo, hi - 1);
    }
  }

  lemma CostNext(len: seq<int>, m: seq<int>, lo: nat, hi: nat)
    requires lo <= hi < |m| && SymbolsBelow(m, |len|)
    ensures Cost(len, m, lo, hi + 1) == Cost(len, m, lo, hi) + len[m[hi]]
    ensures Cost(len, m, lo, lo) == 0
  {
  }

  // Two costs in one 32-bit word.

  lemma Packed(a: nat, b: nat)
    requires a < 0x1_0000 && b < 0x1_0000
    ensures Or(Shl32(b, 16), a) == b * 0x1_0000 + a < WORD
  {
    hide Or, Shl, Pow2;
    Pow2Of32();
    ShlMul(b, 16);
    OrDisjoint(b, a, 16);
  }

  lemma Unpacked16(a: nat, b: nat)
    requires a < 0x1_0000 && b < 0x1_0000
    ensures And(b * 0x1_0000 + a, 0xffff) == a && Shr(b * 0x1_0000 + a, 16) == b
  {
    hide And, Shr, Pow2;
    Pow2Of32();
    AndMask(b * 0x1_0000 + a, 16);
    ShrDiv(b * 0x1_0000 + a, 16);
  }

  /** The lengths of three pairs of tables, packed. */
  method PackLengths(len: seq<array<byte>>, alphaSize: nat) returns (pack: array2<u32>)
    requires LenRows(len) && 3 <= alphaSize <= 258
    ensures fresh(pack) && pack.Length0 == 258 && pack.Length1 == 4
    ensures forall v, k {:trigger pack[v, k]} :: 0 <= v < alphaSize && 0 <= k < 3 ==>
              pack[v, k] == len[2 * k + 1][v] as int * 0x1_0000 + len[2 * k][v] as int
  {
    hide Or, Shl32;
    pack := new u32[258, 4];
    for v := 0 to alphaSize
      invariant forall u, k {:trigger pack[u, k]} :: 0 <= u < v && 0 <= k < 3 ==>
                  pack[u, k] == len[2 * k + 1][u] as int * 0x1_0000 + len[2 * k][u] as int
    {
      Packed(len[0][v], len[1][v]);
      Packed(len[2][v], len[3][v]);
      Packed(len[4][v], len[5][v]);
      pack[v, 0] := Or(Shl32(len[1][v], 16), len[0][v]);
      pack[v, 1] := Or(Shl32(len[3][v], 16), len[2][v]);
      pack[v, 2] := Or(Shl32(len[5][v], 16), len[4][v]);
    }
  }

  ghost predicate PacksRows(pack: array2<u32>, rows: seq<seq<int>>, alphaSize: nat)
    reads pack
  {
    && pack.Length0 == 258 && pack.Length1 == 4 && alphaSize <= 258 && Costs(rows, alphaSize)
    && forall v, k {:trigger pack[v, k]} :: 0 <= v < alphaSize && 0 <= k < 3 ==> pack[v, k] == rows[2 * k + 1][v] * 0x1_0000 + rows[2 * k][v]
  }

  /** A pair of running costs in one word. */
  lemma PairNext(rows: seq<seq<int>>, alphaSize: nat, m: seq<int>, lo: nat, hi: nat, k: nat, sum: int, packed: int)
    requires Costs(rows, alphaSize) && SymbolsBelow(m, alphaSize) && lo <= hi < |m| && hi - lo < G_SIZE && k < 3
    requires sum == Cost(rows[2 * k + 1], m, lo, hi) * 0x1_0000 + Cost(rows[2 * k], m, lo, hi)
    requires packed == rows[2 * k + 1][m[hi]] * 0x1_0000 + rows[2 * k][m[hi]]
    ensures sum + packed == Cost(rows[2 * k + 1], m, lo, hi + 1) * 0x1_0000 + Cost(rows[2 * k], m, lo, hi + 1)
    ensures 0 <= sum + packed < WORD
  {
    hide Cost;
    CostNext(rows[2 * k], m, lo, hi);
    CostNext(rows[2 * k + 1], m, lo, hi);
    RowBound(rows, alphaSize, m, lo, hi + 1, 2 * k);
    RowBound(rows, alphaSize, m, lo, hi + 1, 2 * k + 1);
  }

  lemma RowBound(rows: seq<seq<int>>, alphaSize: nat, m: seq<int>, lo: nat, hi: nat, t: nat)
    requires Costs(rows, alphaSize) && SymbolsBelow(m, alphaSize) && lo <= hi <= |m| && hi - lo <= G_SIZE && t < N_GROUPS
    ensures 0 <= Cost(rows[t], m, lo, hi) <= 1000
  {
    forall v | 0 <= v < |rows[t]| ensures 0 <= rows[t][v] <= LONGEST {
      assert rows[t][v] == rows[t][v];
    }
    CostBound(rows[t], m, lo, hi);
  }

  /** The common case: six tables and a full group, two tables per addition. */
  method FastCosts(pack: array2<u32>, m: seq<int>, gs: nat, cost: array<int>, ghost rows: seq<seq<int>>, alphaSize: nat)
    requires cost.Length == N_GROUPS && PacksRows(pack, rows, alphaSize) && SymbolsBelow(m, alphaSize) && gs + G_SIZE <= |m|
    modifies cost
    ensures forall t {:trigger cost[t]} :: 0 <= t < N_GROUPS ==> cost[t] == Cost(rows[t], m, gs, gs + G_SIZE)
  {
    hide Cost, And, Shr, Costs, SymbolsBelow, PacksRows;
    var cost01: u32, cost23: u32, cost45: u32 := 0, 0, 0;
    PackShape(pack, rows, alphaSize);
    NoCost(rows, alphaSize, m, gs);
    for nn := 0 to G_SIZE
      invariant cost01 == Cost(rows[1], m, gs, gs + nn) * 0x1_0000 + Cost(rows[0], m, gs, gs + nn)
      invariant cost23 == Cost(rows[3], m, gs, gs + nn) * 0x1_0000 + Cost(rows[2], m, gs, gs + nn)
      invariant cost45 == Cost(rows[5], m, gs, gs + nn) * 0x1_0000 + Cost(rows[4], m, gs, gs + nn)
    {
      var icv := m[gs + nn];
      PackAt(pack, rows, alphaSize, m, gs + nn);
      PairNext(rows, alphaSize, m, gs, gs + nn, 0, cost01, pack[icv, 0]);
      PairNext(rows, alphaSize, m, gs, gs + nn, 1, cost23, pack[icv, 1]);
      PairNext(rows, alphaSize, m, gs, gs + nn, 2, cost45, pack[icv, 2]);
      cost01 := cost01 + pack[icv, 0];
      cost23 := cost23 + pack[icv, 1];
      cost45 := cost45 + pack[icv, 2];
    }
    SplitPair(rows, alphaSize, m, gs, 0);
    SplitPair(rows, alphaSize, m, gs, 1);
    SplitPair(rows, alphaSize, m, gs, 2);
    cost[0] := And(cost01, 0xffff);
    cost[1] := Shr(cost01, 16);
    cost[2] := And(cost23, 0xffff);
    cost[3] := Shr(cost23, 16);
    cost[4] := And(cost45, 0xffff);
    cost[5] := Shr(cost45, 16);
  }

  lemma PackShape(pack: array2<u32>, rows: seq<seq<int>>, alphaSize: nat)
    requires PacksRows(pack, rows, alphaSize)
    ensures Costs(rows, alphaSize) && |rows| == N_GROUPS && forall t {:trigger rows[t]} :: 0 <= t < N_GROUPS ==> |rows[t]| == alphaSize
  {
  }

  lemma PackAt(pack: array2<u32>, rows: seq<seq<int>>, alphaSize: nat, m: seq<int>, i: nat)
    requires PacksRows(pack, rows, alphaSize) && |rows| == N_GROUPS && SymbolsBelow(m, alphaSize) && i < |m|
    ensures forall t {:trigger rows[t]} :: 0 <= t < N_GROUPS ==> |rows[t]| == alphaSize
    ensures 0 <= m[i] < alphaSize <= pack.Length0 && pack.Length1 == 4
    ensures pack[m[i], 0] == rows[1][m[i]] * 0x1_0000 + rows[0][m[i]]
    ensures pack[m[i], 1] == rows[3][m[i]] * 0x1_0000 + rows[2][m[i]]
    ensures pack[m[i], 2] == rows[5][m[i]] * 0x1_0000 + rows[4][m[i]]
  {
  }

  lemma NoCost(rows: seq<seq<int>>, alphaSize: nat, m: seq<int>, lo: nat)
    requires Costs(rows, alphaSize) && SymbolsBelow(m, alphaSize) && lo <= |m|
    ensures forall t {:trigger rows[t]} :: 0 <= t < N_GROUPS ==> Cost(rows[t], m, lo, lo) == 0
  {
  }

  lemma SplitPair(rows: seq<seq<int>>, alphaSize: nat, m: seq<int>, lo: nat, k: nat)
    requires Costs(rows, alphaSize) && SymbolsBelow(m, alphaSize) && lo + G_SIZE <= |m| && k < 3
    ensures var a, b := Cost(rows[2 * k], m, lo, lo + G_SIZE), Cost(rows[2 * k + 1], m, lo, lo + G_SIZE);
            a >= 0 && b >= 0 && And(b * 0x1_0000 + a, 0xffff) == a && Shr(b * 0x1_0000 + a, 16) == b
  {
    hide Cost, And, Shr;
    RowBound(rows, alphaSize, m, lo, lo + G_SIZE, 2 * k);
    RowBound(rows, alphaSize, m, lo, lo + G_SIZE, 2 * k + 1);
    Unpacked16(Cost(rows[2 * k], m, lo, lo + G_SIZE), Cost(rows[2 * k + 1], m, lo, lo + G_SIZE));
  }

  /** All situations, one table and one symbol at a time. */
  method SlowCosts(len: seq<array<byte>>, m: seq<int>, gs: nat, ge: nat, nGroups: nat, cost: array<int>, ghost rows: seq<seq<int>>, alphaSize: nat)
    requires LenRows(len) && alphaSize <= 258 && rows == Rows(len, alphaSize) && Costs(rows, alphaSize)
    requires SymbolsBelow(m, alphaSize) && gs <= ge < |m| && ge - gs < G_SIZE && 2 <= nGroups <= N_GROUPS && cost.Length == N_GROUPS
    modifies cost
    ensures forall t {:trigger cost[t]} :: 0 <= t < nGroups ==> cost[t] == Cost(rows[t], m, gs, ge + 1)
  {
    hide Cost, Costs;
    for t := 0 to nGroups
      invariant forall u {:trigger cost[u]} :: 0 <= u < t ==> cost[u] == 0
    {
      cost[t] := 0;
    }
    NoCost(rows, alphaSize, m, gs);
    for i := gs to ge + 1
      invariant rows == Rows(len, alphaSize)
      invariant forall t {:trigger cost[t]} :: 0 <= t < nGroups ==> cost[t] == Cost(rows[t], m, gs, i)
    {
      AddCosts(len, m, gs, i, nGroups, cost, rows, alphaSize);
    }
  }

  /** Adds what one more symbol costs. */
  method AddCosts(len: seq<array<byte>>, m: seq<int>, gs: nat, i: nat, nGroups: nat, cost: array<int>, ghost rows: seq<seq<int>>, alphaSize: nat)
    requires LenRows(len) && alphaSize <= 258 && rows == Rows(len, alphaSize) && Costs(rows, alphaSize)
    requires SymbolsBelow(m, alphaSize) && gs <= i < |m| && nGroups <= N_GROUPS && cost.Length == N_GROUPS
    requires forall t {:trigger cost[t]} :: 0 <= t < nGroups ==> cost[t] == Cost(rows[t], m, gs, i)
    modifies cost
    ensures forall t {:trigger cost[t]} :: 0 <= t < nGroups ==> cost[t] == Cost(rows[t], m, gs, i + 1)
  {
    hide Cost, Costs, Rows;
    var icv := m[i];
    for t := 0 to nGroups
      invariant forall u {:trigger cost[u]} :: 0 <= u < t ==> cost[u] == Cost(rows[u], m, gs, i + 1)
      invariant forall u {:trigger cost[u]} :: t <= u < nGroups ==> cost[u] == Cost(rows[u], m, gs, i)
    {
      RowSize(rows, alphaSize, t);
      CostNext(rows[t], m, gs, i);
      assert len[t][icv] == rows[t][icv];
      cost[t] := cost[t] + len[t][icv];
    }
  }

  lemma RowSize(rows: seq<seq<int>>, alphaSize: nat, t: nat)
    requires Costs(rows, alphaSize) && t < N_GROUPS
    ensures |rows[t]| == alphaSize
  {
  }

  /** The first cheapest table. */
  method Cheapest(cost: array<int>, nGroups: nat) returns (bt: int)
    requires cost.Length == N_GROUPS && 1 <= nGroups <= N_GROUPS && forall t :: 0 <= t < nGroups ==> cost[t] < 999999999
    ensures 0 <= bt < nGroups && forall t :: 0 <= t < nGroups ==> cost[bt] <= cost[t] && (t < bt ==> cost[bt] < cost[t])
  {
    var bc := 999999999;
    bt := -1;
    for t := 0 to nGroups
      invariant t == 0 ==> bc == 999999999
      invariant t > 0 ==> 0 <= bt < t && bc == cost[bt]
      invariant forall u :: 0 <= u < t ==> bc <= cost[u] && (u < bt ==> bc < cost[u])
    {
      if cost[t] < bc {
        bc := cost[t];
        bt := t;
      }
    }
  }

  // One round of refinement.

  /** How often symbol v is among the first n symbols in groups that table t codes. */
  ghost function Occurs(m: seq<int>, sel: seq<int>, t: int, v: int, n: nat): nat
    requires n <= |m| && n <= G_SIZE * |sel|
  {
    if n == 0 then 0 else Occurs(m, sel, t, v, n - 1) + if m[n - 1] == v && sel[(n - 1) / G_SIZE] == t then 1 else 0
  }

  /** How often table t codes each symbol. */
  ghost function TallyOf(m: seq<int>, sel: seq<int>, t: int, n: nat, alphaSize: nat): (s: seq<int>)
    requires n <= |m| && n <= G_SIZE * |sel|
    ensures |s| == alphaSize && forall v :: 0 <= v < alphaSize ==> s[v] == Occurs(m, sel, t, v, n)
  {
    seq(alphaSize, v => Occurs(m, sel, t, v, n))
  }

  /** The counts are those of the first n symbols. */
  ghost predicate Tallied(rfreq: seq<array<int>>, nGroups: nat, alphaSize: nat, m: seq<int>, sel: seq<int>, n: nat)
    requires IntRows(rfreq) && nGroups <= N_GROUPS && alphaSize <= 258 && n <= |m| && n <= G_SIZE * |sel|
    reads rfreq
  {
    forall t {:trigger rfreq[t]} :: 0 <= t < nGroups ==> rfreq[t][..alphaSize] == TallyOf(m, sel, t, n, alphaSize)
  }

  method ClearTallies(rfreq: seq<array<int>>, nGroups: nat, alphaSize: nat, ghost m: seq<int>)
    requires IntRows(rfreq) && nGroups <= N_GROUPS && alphaSize <= 258
    modifies rfreq
    ensures Tallied(rfreq, nGroups, alphaSize, m, [], 0)
  {
    for t := 0 to nGroups
      invariant Tallied(rfreq, t, alphaSize, m, [], 0)
    {
      for v := 0 to alphaSize
        invariant Tallied(rfreq, t, alphaSize, m, [], 0)
        invariant forall u :: 0 <= u < v ==> rfreq[t][u] == 0
      {
        rfreq[t][v] := 0;
      }
      assert rfreq[t][..alphaSize] == TallyOf(m, [], t, 0, alphaSize);
    }
  }

  /** One symbol more. */
  lemma TallyNext(m: seq<int>, sel: seq<int>, t: int, n: nat, alphaSize: nat)
    requires n < |m| && n < G_SIZE * |sel| && 0 <= m[n] < alphaSize
    ensures var s := TallyOf(m, sel, t, n, alphaSize);
            TallyOf(m, sel, t, n + 1, alphaSize) == if sel[n / G_SIZE] == t then s[m[n] := s[m[n]] + 1] else s
  {
  }

  /** A selector more changes nothing for the symbols before. */
  lemma {:induction false} OccursBefore(m: seq<int>, sel: seq<int>, more: seq<int>, t: int, v: int, n: nat)
    requires n <= |m| && n <= G_SIZE * |sel|
    ensures Occurs(m, sel + more, t, v, n) == Occurs(m, sel, t, v, n)
    decreases n
  {
    if n > 0 {
      OccursBefore(m, sel, more, t, v, n - 1);
    }
  }

  lemma TallyBefore(m: seq<int>, sel: seq<int>, bt: int, t: int, n: nat, alphaSize: nat)
    requires n <= |m| && n <= G_SIZE * |sel|
    ensures TallyOf(m, sel + [bt], t, n, alphaSize) == TallyOf(m, sel, t, n, alphaSize)
  {
    forall v | 0 <= v < alphaSize ensures Occurs(m, sel + [bt], t, v, n) == Occurs(m, sel, t, v, n) {
      OccursBefore(m, sel, [bt], t, v, n);
    }
  }

  /** All tables together code every symbol once, so none codes more than there are. */
  lemma {:induction false} TallySum(m: seq<int>, sel: seq<int>, t: int, n: nat, alphaSize: nat)
    requires n <= |m| && n <= G_SIZE * |sel| && SymbolsBelow(m, alphaSize)
    ensures Sum(TallyOf(m, sel, t, n, alphaSize)) <= n
    decreases n
  {
    hide Sum;
    var s := TallyOf(m, sel, t, n, alphaSize);
    if n == 0 {
      SumZero(s);
    } else {
      TallySum(m, sel, t, n - 1, alphaSize);
      TallyNext(m, sel, t, n - 1, alphaSize);
      var s0 := TallyOf(m, sel, t, n - 1, alphaSize);
      SumUpdate(s0, m[n - 1], s0[m[n - 1]] + 1);
    }
  }

  /** Counts the group's symbols for the table chosen. */
  method CountGroup(rfreq: seq<array<int>>, m: seq<int>, gs: nat, ge: nat, bt: nat, nGroups: nat, alphaSize: nat, ghost sel: seq<int>)
    requires IntRows(rfreq) && bt < nGroups <= N_GROUPS && SymbolsBelow(m, alphaSize) && gs <= ge < |m|
    requires gs == G_SIZE * |sel| && ge < gs + G_SIZE && Tallied(rfreq, nGroups, alphaSize, m, sel, gs)
    modifies rfreq
    ensures Tallied(rfreq, nGroups, alphaSize, m, sel + [bt], ge + 1)
  {
    hide Tallied, TallyOf, IntRows;
    ghost var sel2 := sel + [bt];
    TalliedBefore(rfreq, nGroups, alphaSize, m, sel, bt, gs);
    for i := gs to ge + 1
      invariant IntRows(rfreq) && Tallied(rfreq, nGroups, alphaSize, m, sel2, i)
    {
      InGroup(i, |sel|);
      CountOne(rfreq, m, i, bt, nGroups, alphaSize, sel2);
    }
  }

  lemma TalliedBefore(rfreq: seq<array<int>>, nGroups: nat, alphaSize: nat, m: seq<int>, sel: seq<int>, bt: int, n: nat)
    requires IntRows(rfreq) && nGroups <= N_GROUPS && alphaSize <= 258 && n <= |m| && n <= G_SIZE * |sel|
    requires Tallied(rfreq, nGroups, alphaSize, m, sel, n)
    ensures Tallied(rfreq, nGroups, alphaSize, m, sel + [bt], n)
  {
    hide TallyOf;
    forall t | 0 <= t < nGroups ensures rfreq[t][..alphaSize] == TallyOf(m, sel + [bt], t, n, alphaSize) {
      TallyBefore(m, sel, bt, t, n, alphaSize);
    }
  }

  /** Counts symbol i for its table. */
  method CountOne(rfreq: seq<array<int>>, m: seq<int>, i: nat, bt: nat, nGroups: nat, alphaSize: nat, ghost sel: seq<int>)
    requires IntRows(rfreq) && bt < nGroups <= N_GROUPS && SymbolsBelow(m, alphaSize) && i < |m| && i < G_SIZE * |sel| && sel[i / G_SIZE] == bt
    requires Tallied(rfreq, nGroups, alphaSize, m, sel, i)
    modifies rfreq
    ensures Tallied(rfreq, nGroups, alphaSize, m, sel, i + 1)
  {
    hide TallyOf;
    ghost var f := rfreq[bt][..alphaSize];
    forall t | 0 <= t < nGroups
      ensures TallyOf(m, sel, t, i + 1, alphaSize) == if t == bt then f[m[i] := f[m[i]] + 1] else rfreq[t][..alphaSize]
    {
      TallyNext(m, sel, t, i, alphaSize);
    }
    rfreq[bt][m[i]] := rfreq[bt][m[i]] + 1;
    assert rfreq[bt][..alphaSize] == f[m[i] := f[m[i]] + 1];
  }

  lemma InGroup(i: nat, g: nat)
    requires G_SIZE * g <= i < G_SIZE * g + G_SIZE
    ensures i / G_SIZE == g
  {
  }

  function GroupEnd(m: seq<int>, g: nat): (e: nat)
    ensures e <= |m| && (G_SIZE * g <= |m| ==> G_SIZE * g <= e <= G_SIZE * g + G_SIZE)
  {
    if G_SIZE * g + G_SIZE <= |m| then G_SIZE * g + G_SIZE else |m|
  }

  /** Every group has the first of the tables that code it in the fewest bits. */
  ghost predicate LeastCost(rows: seq<seq<int>>, m: seq<int>, sel: seq<int>, nGroups: nat, alphaSize: nat) {
    && Costs(rows, alphaSize) && SymbolsBelow(m, alphaSize) && nGroups <= N_GROUPS
    && forall g {:trigger sel[g]} :: 0 <= g < |sel| ==> BestTable(rows, m, g, sel[g], nGroups, alphaSize)
  }

  ghost predicate BestTable(rows: seq<seq<int>>, m: seq<int>, g: nat, bt: int, nGroups: nat, alphaSize: nat) {
    && Costs(rows, alphaSize) && SymbolsBelow(m, alphaSize) && nGroups <= N_GROUPS && G_SIZE * g <= |m| && 0 <= bt < nGroups
    && forall t {:trigger rows[t]} :: 0 <= t < nGroups ==>
         && |rows[t]| == |rows[bt]| == alphaSize && Cost(rows[bt], m, G_SIZE * g, GroupEnd(m, g)) <= Cost(rows[t], m, G_SIZE * g, GroupEnd(m, g))
         && (t < bt ==> Cost(rows[bt], m, G_SIZE * g, GroupEnd(m, g)) < Cost(rows[t], m, G_SIZE * g, GroupEnd(m, g)))
  }

  lemma LeastCostNext(rows: seq<seq<int>>, m: seq<int>, sel: seq<int>, bt: int, nGroups: nat, alphaSize: nat)
    requires LeastCost(rows, m, sel, nGroups, alphaSize) && BestTable(rows, m, |sel|, bt, nGroups, alphaSize)
    ensures LeastCost(rows, m, sel + [bt], nGroups, alphaSize)
  {
    hide Costs, BestTable;
  }

  ghost predicate Chosen(selector: seq<int>, nSelectors: int, nGroups: nat) {
    0 <= nSelectors <= |selector| && forall i :: 0 <= i < nSelectors ==> 0 <= selector[i] < nGroups
  }

  /** Picks the cheapest table for the group gs..ge and counts its symbols for that table. */
  method OneGroup(len: seq<array<byte>>, pack: array2<u32>, rfreq: seq<array<int>>, m: seq<int>, gs: nat, ge: nat, nGroups: nat, alphaSize: nat,
                  ghost rows: seq<seq<int>>, ghost sel: seq<int>)
    returns (bt: nat)
    requires LenRows(len) && IntRows(rfreq) && 2 <= nGroups <= N_GROUPS && SymbolsBelow(m, alphaSize)
    requires rows == Rows(len, alphaSize) && Costs(rows, alphaSize)
    requires gs == G_SIZE * |sel| <= ge && ge + 1 == GroupEnd(m, |sel|) && (nGroups == 6 ==> PacksRows(pack, rows, alphaSize))
    requires Tallied(rfreq, nGroups, alphaSize, m, sel, gs)
    modifies rfreq
    ensures BestTable(rows, m, |sel|, bt, nGroups, alphaSize)
    ensures Tallied(rfreq, nGroups, alphaSize, m, sel + [bt], ge + 1)
  {
    hide Costs, TallyOf, Cost, IntRows, Tallied, PacksRows, LenRows, Rows, BestTable, SymbolsBelow, GroupEnd;
    AlphabetSize(m, alphaSize);
    GroupEndIs(m, |sel|);
    var cost := new int[N_GROUPS];
    if nGroups == 6 && G_SIZE == ge - gs + 1 {
      FastCosts(pack, m, gs, cost, rows, alphaSize);
    } else {
      SlowCosts(len, m, gs, ge, nGroups, cost, rows, alphaSize);
    }
    CostsSmall(rows, alphaSize, m, gs, ge + 1, nGroups);
    bt := Cheapest(cost, nGroups);
    IsBest(rows, m, |sel|, bt, cost[..], nGroups, alphaSize);
    CountGroup(rfreq, m, gs, ge, bt, nGroups, alphaSize, sel);
  }

  lemma IsBest(rows: seq<seq<int>>, m: seq<int>, g: nat, bt: int, cost: seq<int>, nGroups: nat, alphaSize: nat)
    requires Costs(rows, alphaSize) && SymbolsBelow(m, alphaSize) && nGroups <= N_GROUPS == |cost| == |rows| && G_SIZE * g <= |m| && 0 <= bt < nGroups
    requires forall t {:trigger cost[t]} :: 0 <= t < nGroups ==> |rows[t]| == alphaSize && cost[t] == Cost(rows[t], m, G_SIZE * g, GroupEnd(m, g))
    requires forall t :: 0 <= t < nGroups ==> cost[bt] <= cost[t] && (t < bt ==> cost[bt] < cost[t])
    ensures BestTable(rows, m, g, bt, nGroups, alphaSize)
  {
    hide Costs, Cost, SymbolsBelow, GroupEnd;
    forall t {:trigger rows[t]} | 0 <= t < nGroups
      ensures |rows[t]| == |rows[bt]| == alphaSize && Cost(rows[bt], m, G_SIZE * g, GroupEnd(m, g)) <= Cost(rows[t], m, G_SIZE * g, GroupEnd(m, g))
      ensures t < bt ==> Cost(rows[bt], m, G_SIZE * g, GroupEnd(m, g)) < Cost(rows[t], m, G_SIZE * g, GroupEnd(m, g))
    {
      assert cost[bt] <= cost[t];
    }
  }

  /** The lengths side by side for FastCosts, which is only used with six tables. */
  method PackIfSix(len: seq<array<byte>>, nGroups: nat, alphaSize: nat, ghost rows: seq<seq<int>>) returns (pack: array2<u32>)
    requires LenRows(len) && 3 <= alphaSize <= 258 && rows == Rows(len, alphaSize) && Costs(rows, alphaSize)
    ensures fresh(pack) && (nGroups == 6 ==> PacksRows(pack, rows, alphaSize))
  {
    hide Costs, PacksRows;
    pack := new u32[1, 1];
    if nGroups == 6 {
      pack := PackLengths(len, alphaSize);
      RowsPacked(pack, len, rows, alphaSize);
    }
  }

  /** Picks the cheapest table for every group of fifty symbols, and counts what each table has to code. */
  method AssignGroups(len: seq<array<byte>>, rfreq: seq<array<int>>, selector: array<int>, m: seq<int>, nGroups: nat, alphaSize: nat)
    returns (nSelectors: nat)
    requires LenRows(len) && IntRows(rfreq) && 2 <= nGroups <= N_GROUPS && selector.Length == MAX_SELECTORS && selector !in rfreq
    requires SymbolsBelow(m, alphaSize) && |m| <= G_SIZE * MAX_SELECTORS && Costs(Rows(len, alphaSize), alphaSize)
    modifies rfreq, selector
    ensures nSelectors == (|m| + G_SIZE - 1) / G_SIZE <= MAX_SELECTORS && Chosen(selector[..], nSelectors, nGroups)
    ensures LeastCost(Rows(len, alphaSize), m, selector[..nSelectors], nGroups, alphaSize)
    ensures Tallied(rfreq, nGroups, alphaSize, m, selector[..nSelectors], |m|)
  {
    hide Costs, TallyOf, Cost, IntRows, Tallied, PacksRows, LeastCost, BestTable, Chosen, SymbolsBelow, GroupEnd;
    AlphabetSize(m, alphaSize);
    ghost var rows := Rows(len, alphaSize);
    ghost var sel: seq<int> := [];
    ClearTallies(rfreq, nGroups, alphaSize, m);
    var pack := PackIfSix(len, nGroups, alphaSize, rows);
    nSelectors := 0;
    NoneChosen(rows, m, nGroups, alphaSize);
    var gs: nat := 0;
    while gs < |m|
      invariant gs == if G_SIZE * nSelectors < |m| then G_SIZE * nSelectors else |m|
      invariant G_SIZE * nSelectors < |m| + G_SIZE && |sel| == nSelectors && sel == selector[..nSelectors]
      invariant Tallied(rfreq, nGroups, alphaSize, m, sel, gs) && LeastCost(rows, m, sel, nGroups, alphaSize)
      invariant rows == Rows(len, alphaSize) && (nGroups == 6 ==> PacksRows(pack, rows, alphaSize))
      decreases |m| - gs
    {
      var ge := gs + G_SIZE - 1;
      if ge >= |m| {
        ge := |m| - 1;
      }
      GroupEndIs(m, nSelectors);
      var bt := OneGroup(len, pack, rfreq, m, gs, ge, nGroups, alphaSize, rows, sel);
      LeastCostNext(rows, m, sel, bt, nGroups, alphaSize);
      assert selector[..nSelectors] == sel;
      selector[nSelectors] := bt;
      assert selector[..nSelectors + 1] == sel + [bt];
      sel := sel + [bt];
      nSelectors := nSelectors + 1;
      gs := ge + 1;
    }
    AllChosen(rows, m, selector[..], nSelectors, nGroups, alphaSize);
  }

  lemma AlphabetSize(m: seq<int>, alphaSize: nat)
    requires SymbolsBelow(m, alphaSize)
    ensures 3 <= alphaSize <= 258
  {
  }

  lemma GroupEndIs(m: seq<int>, g: nat)
    ensures GroupEnd(m, g) == if G_SIZE * (g + 1) < |m| then G_SIZE * (g + 1) else |m|
  {
  }

  lemma NoneChosen(rows: seq<seq<int>>, m: seq<int>, nGroups: nat, alphaSize: nat)
    requires Costs(rows, alphaSize) && SymbolsBelow(m, alphaSize) && nGroups <= N_GROUPS
    ensures LeastCost(rows, m, [], nGroups, alphaSize)
  {
  }

  lemma AllChosen(rows: seq<seq<int>>, m: seq<int>, selector: seq<int>, nSelectors: nat, nGroups: nat, alphaSize: nat)
    requires nSelectors <= |selector| && LeastCost(rows, m, selector[..nSelectors], nGroups, alphaSize)
    ensures Chosen(selector, nSelectors, nGroups)
  {
    hide Costs, Cost;
    forall i | 0 <= i < nSelectors ensures 0 <= selector[i] < nGroups {
      assert selector[..nSelectors][i] == selector[i];
    }
  }

  lemma RowsPacked(pack: array2<u32>, len: seq<array<byte>>, rows: seq<seq<int>>, alphaSize: nat)
    requires LenRows(len) && alphaSize <= 258 && rows == Rows(len, alphaSize) && Costs(rows, alphaSize)
    requires pack.Length0 == 258 && pack.Length1 == 4
    requires forall v, k {:trigger pack[v, k]} :: 0 <= v < alphaSize && 0 <= k < 3 ==>
               pack[v, k] == len[2 * k + 1][v] as int * 0x1_0000 + len[2 * k][v] as int
    ensures PacksRows(pack, rows, alphaSize)
  {
    forall v, k | 0 <= v < alphaSize && 0 <= k < 3 ensures pack[v, k] == rows[2 * k + 1][v] * 0x1_0000 + rows[2 * k][v] {
      assert rows[2 * k] == len[2 * k][..alphaSize] && rows[2 * k + 1] == len[2 * k + 1][..alphaSize];
    }
  }

  lemma CostsSmall(rows: seq<seq<int>>, alphaSize: nat, m: seq<int>, lo: nat, hi: nat, nGroups: nat)
    requires Costs(rows, alphaSize) && SymbolsBelow(m, alphaSize) && lo <= hi <= |m| && hi - lo <= G_SIZE && nGroups <= N_GROUPS
    ensures forall t {:trigger rows[t]} :: 0 <= t < nGroups ==> |rows[t]| == alphaSize && Cost(rows[t], m, lo, hi) < 999999999
  {
    forall t | 0 <= t < nGroups ensures |rows[t]| == alphaSize && Cost(rows[t], m, lo, hi) < 999999999 {
      RowBound(rows, alphaSize, m, lo, hi, t);
    }
  }

  /** Counts of at most a block's symbols can be turned into code lengths. */
  lemma TallyCountable(m: seq<int>, sel: seq<int>, t: int, alphaSize: nat)
    requires |m| <= G_SIZE * |sel| && SymbolsBelow(m, alphaSize) && |m| <= 900050
    ensures Countable(TallyOf(m, sel, t, |m|, alphaSize))
  {
    TallySum(m, sel, t, |m|, alphaSize);
    CountsSum(TallyOf(m, sel, t, |m|, alphaSize));
  }

  lemma {:induction false} CountsSum(freq: seq<int>)
    ensures Sum(Counts(freq)) <= Sum(freq) + |freq|
  {
    if freq != [] {
      var k := |freq| - 1;
      assert Counts(freq)[..k] == Counts(freq[..k]);
      CountsSum(freq[..k]);
    }
  }

  /** The first nGroups tables are complete codes of at most 17 bits. */
  ghost predicate CompleteTables(rows: seq<seq<int>>, nGroups: nat, alphaSize: nat) {
    nGroups <= |rows| && forall t {:trigger rows[t]} :: 0 <= t < nGroups ==> |rows[t]| == alphaSize && CompleteCode(rows[t], 17)
  }

  /** The lengths are the best for the counts with zeros taken for ones, halved as often as the longest came to more than 17 bits. */
  ghost predicate BestFor(freq: seq<int>, len: seq<int>) {
    exists tried: seq<seq<int>> :: BestAfter(freq, len, tried)
  }

  ghost predicate BestAfter(freq: seq<int>, len: seq<int>, tried: seq<seq<int>>) {
    && Optimal(HalvedBy(Counts(freq), |tried|), len) && (Sum(Counts(freq)) < 1023 ==> tried == [])
    && forall r {:trigger tried[r]} :: 0 <= r < |tried| ==> Refused(HalvedBy(Counts(freq), r), tried[r], 17)
  }

  /** Each table is the best for the symbols of the groups that it codes. */
  ghost predicate Tuned(rows: seq<seq<int>>, m: seq<int>, sel: seq<int>, n: nat, alphaSize: nat) {
    && n <= |rows| && |m| <= G_SIZE * |sel|
    && forall t {:trigger rows[t]} :: 0 <= t < n ==> BestFor(TallyOf(m, sel, t, |m|, alphaSize), rows[t])
  }

  method RecomputeTables(len: seq<array<byte>>, rfreq: seq<array<int>>, nGroups: nat, alphaSize: nat, ghost m: seq<int>, ghost sel: seq<int>)
    requires LenRows(len) && IntRows(rfreq) && 2 <= nGroups <= N_GROUPS && SymbolsBelow(m, alphaSize)
    requires |m| <= G_SIZE * |sel| && Tallied(rfreq, nGroups, alphaSize, m, sel, |m|) && |m| <= 900050 && Costs(Rows(len, alphaSize), alphaSize)
    modifies len
    ensures CompleteTables(Rows(len, alphaSize), nGroups, alphaSize) && Costs(Rows(len, alphaSize), alphaSize)
    ensures Tuned(Rows(len, alphaSize), m, sel, nGroups, alphaSize)
  {
    hide TallyOf, Countable, CompleteCode, Optimal, HalvedBy, Sum, BestFor, Growth;
    GrowthAt18();
    for t := 0 to nGroups
      invariant Tallied(rfreq, nGroups, alphaSize, m, sel, |m|)
      invariant CompleteTables(Rows(len, alphaSize), t, alphaSize) && Costs(Rows(len, alphaSize), alphaSize)
      invariant Tuned(Rows(len, alphaSize), m, sel, t, alphaSize)
    {
      TallyCountable(m, sel, t, alphaSize);
      ghost var before := Rows(len, alphaSize);
      ghost var freq := TallyOf(m, sel, t, |m|, alphaSize);
      assert rfreq[t][..alphaSize] == freq;
      ghost var tried := MakeCodeLengths(len[t], rfreq[t][..alphaSize], alphaSize, 17);
      NowBest(freq, len[t][..alphaSize], tried);
      ghost var after := Rows(len, alphaSize);
      RowReplaced(before, after, t, nGroups, alphaSize);
      RowTuned(before, after, m, sel, t, alphaSize);
    }
  }

  lemma NowBest(freq: seq<int>, len: seq<int>, tried: seq<seq<int>>)
    requires Optimal(HalvedBy(Counts(freq), |tried|), len) && (Sum(Counts(freq)) < 1023 ==> tried == [])
    requires forall r {:trigger tried[r]} :: 0 <= r < |tried| ==> Refused(HalvedBy(Counts(freq), r), tried[r], 17)
    ensures BestFor(freq, len)
  {
    hide Optimal, HalvedBy, Refused, Sum;
    assert BestAfter(freq, len, tried);
  }

  lemma RowTuned(before: seq<seq<int>>, after: seq<seq<int>>, m: seq<int>, sel: seq<int>, t: nat, alphaSize: nat)
    requires Tuned(before, m, sel, t, alphaSize) && t < |after| == |before| && BestFor(TallyOf(m, sel, t, |m|, alphaSize), after[t])
    requires forall u {:trigger after[u]} :: 0 <= u < |after| && u != t ==> after[u] == before[u]
    ensures Tuned(after, m, sel, t + 1, alphaSize)
  {
    hide BestFor, TallyOf;
  }

  lemma RowReplaced(before: seq<seq<int>>, after: seq<seq<int>>, t: nat, nGroups: nat, alphaSize: nat)
    requires Costs(before, alphaSize) && CompleteTables(before, t, alphaSize) && t < nGroups <= N_GROUPS
    requires |after| == |before| && |after[t]| == alphaSize && CompleteCode(after[t], 17)
    requires forall u {:trigger after[u]} :: 0 <= u < |after| && u != t ==> after[u] == before[u]
    ensures Costs(after, alphaSize) && CompleteTables(after, t + 1, alphaSize)
  {
    hide KraftSum, Pow2;
    forall u, v | 0 <= u < N_GROUPS && 0 <= v < alphaSize ensures |after[u]| == alphaSize && 0 <= after[u][v] <= LONGEST {
      assert |before[u]| == alphaSize;
      assert before[u][v] == before[u][v];
    }
  }

  /** C division, which truncates toward zero. */
  function Quotient(x: int, y: int): int
    requires y > 0
  {
    if x >= 0 then x / y else -((-x) / y)
  }

  /** Symbols lo to hi - 1 are cheap, all others dear. */
  ghost predicate Favours(row: seq<int>, lo: int, hi: int) {
    forall v {:trigger row[v]} :: 0 <= v < |row| ==> row[v] == if lo <= v < hi then 0 else 15
  }

  /** The cuts divide the alphabet, in order, into n stretches from its beginning on. */
  ghost predicate Cuts(cuts: seq<int>, n: nat, alphaSize: nat) {
    && |cuts| == n + 1 && cuts[0] == 0 && 0 <= cuts[n] <= alphaSize
    && forall i {:trigger cuts[i]} :: 0 <= i < n ==> 0 <= cuts[i] <= cuts[i + 1] <= alphaSize
  }

  /** Tables from k on favour the first stretches, the last table the first one; the tables after nGroups, none. */
  ghost predicate Stretches(len: seq<array<byte>>, alphaSize: nat, cuts: seq<int>, nGroups: nat, k: nat)
    reads len
    requires LenRows(len) && alphaSize <= 258 && k <= nGroups <= N_GROUPS && |cuts| == nGroups - k + 1
  {
    forall t {:trigger len[t]} :: k <= t < N_GROUPS ==>
      Favours(len[t][..alphaSize], if t < nGroups then cuts[nGroups - 1 - t] else 0, if t < nGroups then cuts[nGroups - t] else 0)
  }

  /** Makes symbols gs to ge cheap, and all others dear. */
  method FavourStretch(row: array<byte>, gs: int, ge: int, alphaSize: nat)
    requires alphaSize <= row.Length
    modifies row
    ensures Favours(row[..alphaSize], gs, ge + 1)
  {
    for v := 0 to alphaSize
      invariant forall u {:trigger row[u]} :: 0 <= u < v ==> row[u] == if gs <= u < ge + 1 then LESSER_ICOST else GREATER_ICOST
    {
      if v >= gs && v <= ge {
        row[v] := LESSER_ICOST;
      } else {
        row[v] := GREATER_ICOST;
      }
    }
  }

  /** The frequencies of nMTF symbols, the last of the alphabet being among them. */
  ghost predicate Fair(freq: seq<int>, nMTF: int) {
    freq != [] && Sum(freq) == nMTF && (forall v :: 0 <= v < |freq| ==> freq[v] >= 0) && freq[|freq| - 1] >= 1
  }

  /** Counting gives such frequencies. */
  lemma CountedFair(m: seq<int>, freq: seq<int>)
    requires GenerateMtf.Counted(freq, m) && SymbolsBelow(m, |freq|) && |freq| - 1 in m
    ensures Fair(freq, |m|)
  {
    CountedSum(m, freq);
  }

  lemma {:induction false} CountedSum(m: seq<int>, freq: seq<int>)
    requires GenerateMtf.Counted(freq, m) && SymbolsBelow(m, |freq|)
    ensures Sum(freq) == |m|
    decreases |m|
  {
    if m == [] {
      SumZero(freq);
    } else {
      var n := |m| - 1;
      var v := m[n];
      assert m == m[..n] + [v];
      SumUpdate(freq, v, freq[v] - 1);
      CountedSum(m[..n], freq[v := freq[v] - 1]);
    }
  }

  /** What is left of the alphabet from lo on, divided by a number of tables. */
  ghost function Share(freq: seq<int>, lo: int, parts: nat): int
    requires 0 <= lo <= |freq| && parts > 0
  {
    Sum(freq[lo..]) / parts
  }

  /**
   * How far the stretch from lo to hi, with i stretches in front of it, is from its share, which is what is left divided
   * by the number of tables left: it is as short as it can be with no less than its share, except that every second one,
   * but the last, leaves its last symbol to the next one unless it is its only one.
   */
  ghost predicate NearShare(freq: seq<int>, lo: int, hi: int, nGroups: nat, i: nat)
    requires 0 <= lo <= hi <= |freq| && i < nGroups
  {
    var share, sum, gives := Share(freq, lo, nGroups - i), Sum(freq[lo..hi]), i % 2 == 1 && i != nGroups - 1;
    || (sum >= share && (hi > lo ==> sum - freq[hi - 1] < share) && (gives ==> hi <= lo + 1))
    || (gives && lo < hi < |freq| && sum < share <= sum + freq[hi])
  }

  ghost predicate NearShares(freq: seq<int>, cuts: seq<int>, n: nat, nGroups: nat)
    requires n <= nGroups && Cuts(cuts, n, |freq|)
  {
    forall i {:trigger cuts[i]} :: 0 <= i < n ==> NearShare(freq, cuts[i], cuts[i + 1], nGroups, i)
  }

  lemma NoSum(freq: seq<int>, gs: int)
    requires 0 <= gs <= |freq|
    ensures Sum(freq[gs..gs]) == 0
  {
  }

  lemma OneMore(freq: seq<int>, gs: int, ge: int)
    requires 0 <= gs <= ge < |freq|
    ensures Sum(freq[gs..ge + 1]) == Sum(freq[gs..ge]) + freq[ge]
  {
    assert freq[gs..ge + 1] == freq[gs..ge] + [freq[ge]];
    SumSnoc(freq[gs..ge], freq[ge]);
  }

  /** The shortest stretch from gs on with at least tFreq symbols, or all that is left. */
  method FindStretch(mtfFreq: seq<int>, gs: int, tFreq: int) returns (ge: int, aFreq: int)
    requires 0 <= gs <= |mtfFreq|
    ensures gs - 1 <= ge < |mtfFreq| && aFreq == Sum(mtfFreq[gs..ge + 1])
    ensures aFreq >= tFreq || ge == |mtfFreq| - 1
    ensures ge >= gs ==> aFreq - mtfFreq[ge] < tFreq
  {
    hide *;
    NoSum(mtfFreq, gs);
    ge, aFreq := gs - 1, 0;
    while aFreq < tFreq && ge < |mtfFreq| - 1
      invariant gs - 1 <= ge < |mtfFreq| && aFreq == Sum(mtfFreq[gs..ge + 1])
      invariant ge >= gs ==> aFreq - mtfFreq[ge] < tFreq
      decreases |mtfFreq| - ge
    {
      ge := ge + 1;
      aFreq := aFreq + mtfFreq[ge];
      OneMore(mtfFreq, gs, ge);
    }
  }

  /** What FindStretch finds, less its last symbol where that is given away, is near its share, and the last one reaches the end. */
  lemma StretchNear(freq: seq<int>, nMTF: int, gs: nat, ge: int, hi: nat, nGroups: nat, i: nat)
    requires Fair(freq, nMTF) && gs - 1 <= ge < |freq| && gs <= |freq| && i < nGroups
    requires var share, sum := Share(freq, gs, nGroups - i), Sum(freq[gs..ge + 1]);
             (sum >= share || ge == |freq| - 1) && (ge >= gs ==> sum - freq[ge] < share)
    requires hi == if ge > gs && i != 0 && i != nGroups - 1 && i % 2 == 1 then ge else ge + 1
    ensures NearShare(freq, gs, hi, nGroups, i) && Sum(freq[hi..]) == Sum(freq[gs..]) - Sum(freq[gs..hi])
    ensures i == nGroups - 1 ==> hi == |freq|
  {
    hide Share, Sum;
    ShareBelow(freq, nMTF, gs, nGroups - i);
    Parted(freq, gs, hi);
    if ge >= gs {
      OneMore(freq, gs, ge);
    }
    if ge == |freq| - 1 {
      assert freq[gs..ge + 1] == freq[gs..];
    }
    if i == nGroups - 1 && hi < |freq| {
      assert freq[hi..][|freq| - 1 - hi] >= 1;
      SumTerm(freq[hi..], |freq| - 1 - hi);
    }
  }

  lemma ShareBelow(freq: seq<int>, nMTF: int, gs: nat, parts: nat)
    requires Fair(freq, nMTF) && gs <= |freq| && parts >= 1
    ensures 0 <= Share(freq, gs, parts) <= Sum(freq[gs..]) && (parts == 1 ==> Share(freq, gs, parts) == Sum(freq[gs..]))
    ensures Quotient(Sum(freq[gs..]), parts) == Share(freq, gs, parts)
  {
    hide Sum;
    SumNonNegative(freq[gs..]);
  }

  lemma Parted(freq: seq<int>, lo: nat, hi: nat)
    requires lo <= hi <= |freq|
    ensures Sum(freq[lo..]) == Sum(freq[lo..hi]) + Sum(freq[hi..])
  {
    SumSplit(freq[lo..], hi - lo);
    assert freq[lo..][..hi - lo] == freq[lo..hi] && freq[lo..][hi - lo..] == freq[hi..];
  }

  lemma FirstCut(freq: seq<int>, nMTF: int, nGroups: nat)
    ensures Cuts([0], 0, |freq|) && NearShares(freq, [0], 0, nGroups)
    ensures Fair(freq, nMTF) ==> nMTF == Sum(freq[0..])
  {
    assert freq[0..] == freq;
  }

  /** One more stretch, ending at hi. */
  lemma NextStretch(freq: seq<int>, nMTF: int, remF: int, cuts: seq<int>, nGroups: nat, i: nat, gs: nat, ge: int, hi: nat, aFreq: int)
    requires i < nGroups && Cuts(cuts, i, |freq|) && cuts[i] == gs && gs - 1 <= ge < |freq|
    requires var share, sum := Quotient(remF, nGroups - i), Sum(freq[gs..ge + 1]);
             && (sum >= share || ge == |freq| - 1) && (ge >= gs ==> sum - freq[ge] < share)
             && aFreq == if hi == ge then sum - freq[ge] else sum
    requires hi == if ge > gs && i != 0 && i != nGroups - 1 && i % 2 == 1 then ge else ge + 1
    requires Fair(freq, nMTF) ==> remF == Sum(freq[gs..]) && NearShares(freq, cuts, i, nGroups)
    ensures Cuts(cuts + [hi], i + 1, |freq|)
    ensures Fair(freq, nMTF) ==> remF - aFreq == Sum(freq[hi..]) && NearShares(freq, cuts + [hi], i + 1, nGroups)
    ensures Fair(freq, nMTF) && i == nGroups - 1 ==> hi == |freq|
  {
    hide Fair, NearShare, Sum, Share, Quotient;
    CutsNext(cuts, i, |freq|, hi);
    if Fair(freq, nMTF) {
      ShareBelow(freq, nMTF, gs, nGroups - i);
      StretchNear(freq, nMTF, gs, ge, hi, nGroups, i);
      if hi == ge {
        OneMore(freq, gs, ge);
      }
      NearNext(freq, cuts, i, nGroups, hi);
    }
  }

  lemma NearNext(freq: seq<int>, cuts: seq<int>, n: nat, nGroups: nat, hi: nat)
    requires n < nGroups && Cuts(cuts, n, |freq|) && cuts[n] <= hi <= |freq| && Cuts(cuts + [hi], n + 1, |freq|)
    requires NearShares(freq, cuts, n, nGroups) && 0 <= cuts[n] && NearShare(freq, cuts[n], hi, nGroups, n)
    ensures NearShares(freq, cuts + [hi], n + 1, nGroups)
  {
    hide NearShare;
    forall i {:trigger (cuts + [hi])[i]} | 0 <= i < n + 1 ensures NearShare(freq, (cuts + [hi])[i], (cuts + [hi])[i + 1], nGroups, i) {
      if i < n {
        assert (cuts + [hi])[i] == cuts[i] && (cuts + [hi])[i + 1] == cuts[i + 1];
      }
    }
  }

  /** The next stretch goes to table k. */
  method FavourNext(len: seq<array<byte>>, k: nat, ge: int, alphaSize: nat, gs: int, nGroups: nat, ghost cuts: seq<int>)
    requires LenRows(len) && k < nGroups <= N_GROUPS && alphaSize <= 258
    requires |cuts| == nGroups - k && cuts[nGroups - k - 1] == gs && Stretches(len, alphaSize, cuts, nGroups, k + 1)
    modifies len[k]
    ensures Stretches(len, alphaSize, cuts + [ge + 1], nGroups, k)
  {
    hide Favours;
    FavourStretch(len[k], gs, ge, alphaSize);
  }

  /** All symbols dear in all tables. */
  method ClearTables(len: seq<array<byte>>, alphaSize: nat, ghost nGroups: nat)
    requires LenRows(len) && nGroups <= N_GROUPS && alphaSize <= 258
    modifies len
    ensures Stretches(len, alphaSize, [0], nGroups, nGroups)
  {
    hide Favours;
    for t := 0 to N_GROUPS
      invariant forall u {:trigger len[u]} :: 0 <= u < t ==> Favours(len[u][..alphaSize], 0, 0)
    {
      for v := 0 to alphaSize
        invariant forall u {:trigger len[u]} :: 0 <= u < t ==> Favours(len[u][..alphaSize], 0, 0)
        invariant forall u :: 0 <= u < v ==> len[t][u] == GREATER_ICOST
      {
        len[t][v] := GREATER_ICOST;
      }
      NowFavours(len[t][..alphaSize], 0, 0);
    }
  }

  /**
   * Initial tables: each favours one stretch of the alphabet. With the frequencies of the nMTF symbols the stretches
   * cover the alphabet, and each of them is near its share.
   */
  method InitialTables(len: seq<array<byte>>, mtfFreq: seq<int>, nMTF: nat, nGroups: nat, alphaSize: nat) returns (ghost cuts: seq<int>)
    requires LenRows(len) && 2 <= nGroups <= N_GROUPS && 3 <= alphaSize == |mtfFreq| <= 258
    modifies len
    ensures Cuts(cuts, nGroups, alphaSize) && Stretches(len, alphaSize, cuts, nGroups, 0)
    ensures Fair(mtfFreq, nMTF) ==> cuts[nGroups] == alphaSize && NearShares(mtfFreq, cuts, nGroups, nGroups)
    ensures Costs(Rows(len, alphaSize), alphaSize)
  {
    hide Fair, NearShares, Cuts, Stretches, Costs, Sum, Quotient;
    ClearTables(len, alphaSize, nGroups);
    var nPart, remF, gs := nGroups, nMTF as int, 0;
    cuts := [0];
    FirstCut(mtfFreq, nMTF, nGroups);
    while nPart > 0
      invariant 0 <= nPart <= nGroups && 0 <= gs <= alphaSize
      invariant |cuts| == nGroups - nPart + 1 && cuts[nGroups - nPart] == gs && Cuts(cuts, nGroups - nPart, alphaSize)
      invariant Stretches(len, alphaSize, cuts, nGroups, nPart)
      invariant Fair(mtfFreq, nMTF) ==> remF == Sum(mtfFreq[gs..]) && NearShares(mtfFreq, cuts, nGroups - nPart, nGroups)
      invariant Fair(mtfFreq, nMTF) && nPart == 0 ==> gs == alphaSize
    {
      ghost var i := nGroups - nPart;
      var tFreq := Quotient(remF, nPart);
      var ge, aFreq := FindStretch(mtfFreq, gs, tFreq);
      ghost var last := ge;
      if ge > gs && nPart != nGroups && nPart != 1 && (nGroups - nPart) % 2 == 1 {
        aFreq := aFreq - mtfFreq[ge];
        ge := ge - 1;
      }
      FavourNext(len, nPart - 1, ge, alphaSize, gs, nGroups, cuts);
      NextStretch(mtfFreq, nMTF, remF, cuts, nGroups, i, gs, last, ge + 1, aFreq);
      nPart := nPart - 1;
      gs := ge + 1;
      remF := remF - aFreq;
      cuts := cuts + [gs];
    }
    StretchCosts(len, alphaSize, cuts, nGroups);
  }

  lemma NowFavours(row: seq<int>, lo: int, hi: int)
    requires forall v {:trigger row[v]} :: 0 <= v < |row| ==> row[v] == if lo <= v < hi then 0 else 15
    ensures Favours(row, lo, hi)
  {
  }

  lemma CutsNext(cuts: seq<int>, n: nat, alphaSize: nat, gs: int)
    requires Cuts(cuts, n, alphaSize) && cuts[n] <= gs <= alphaSize
    ensures Cuts(cuts + [gs], n + 1, alphaSize)
  {
    var next := cuts + [gs];
    forall i {:trigger next[i]} | 0 <= i < n + 1 ensures 0 <= next[i] <= next[i + 1] <= alphaSize {
      assert next[i] == cuts[i] && next[i + 1] == if i < n then cuts[i + 1] else gs;
    }
  }

  lemma StretchCosts(len: seq<array<byte>>, alphaSize: nat, cuts: seq<int>, nGroups: nat)
    requires LenRows(len) && alphaSize <= 258 && nGroups <= N_GROUPS && |cuts| == nGroups + 1 && Stretches(len, alphaSize, cuts, nGroups, 0)
    ensures Costs(Rows(len, alphaSize), alphaSize)
  {
    var rows := Rows(len, alphaSize);
    forall t, v | 0 <= t < N_GROUPS && 0 <= v < alphaSize ensures |rows[t]| == alphaSize && 0 <= rows[t][v] <= LONGEST {
      assert rows[t] == len[t][..alphaSize];
    }
  }

  /** The first tables: each makes one stretch of the alphabet cheap. */
  ghost predicate Started(rows: seq<seq<int>>, cuts: seq<int>, nGroups: nat, alphaSize: nat)
    requires nGroups <= N_GROUPS
  {
    && |rows| == N_GROUPS && Cuts(cuts, nGroups, alphaSize)
    && forall t {:trigger rows[t]} :: 0 <= t < nGroups ==> |rows[t]| == alphaSize && Favours(rows[t], cuts[nGroups - 1 - t], cuts[nGroups - t])
  }

  lemma RowsStarted(len: seq<array<byte>>, cuts: seq<int>, nGroups: nat, alphaSize: nat)
    requires LenRows(len) && alphaSize <= 258 && nGroups <= N_GROUPS && Cuts(cuts, nGroups, alphaSize) && Stretches(len, alphaSize, cuts, nGroups, 0)
    ensures Started(Rows(len, alphaSize), cuts, nGroups, alphaSize)
  {
    hide Favours;
  }

  /** One pass: every group takes its cheapest table, and then the tables are made anew for what each of them has to code. */
  ghost predicate Passed(before: seq<seq<int>>, sel: seq<int>, after: seq<seq<int>>, m: seq<int>, nGroups: nat, alphaSize: nat) {
    && |sel| == (|m| + 49) / 50 && LeastCost(before, m, sel, nGroups, alphaSize)
    && CompleteTables(after, nGroups, alphaSize) && Tuned(after, m, sel, nGroups, alphaSize)
  }

  /** Every pass takes the tables that the one before it made. */
  ghost predicate Passes(tables: seq<seq<seq<int>>>, sels: seq<seq<int>>, m: seq<int>, nGroups: nat, alphaSize: nat) {
    |tables| == |sels| + 1 && forall k {:trigger sels[k]} :: 0 <= k < |sels| ==> Passed(tables[k], sels[k], tables[k + 1], m, nGroups, alphaSize)
  }

  lemma PassesNext(tables: seq<seq<seq<int>>>, sels: seq<seq<int>>, sel: seq<int>, after: seq<seq<int>>, m: seq<int>, nGroups: nat, alphaSize: nat)
    requires Passes(tables, sels, m, nGroups, alphaSize) && Passed(tables[|sels|], sel, after, m, nGroups, alphaSize)
    ensures Passes(tables + [after], sels + [sel], m, nGroups, alphaSize)
  {
    hide Passed;
  }

  lemma FourPasses(tables: seq<seq<seq<int>>>, sels: seq<seq<int>>, m: seq<int>, nGroups: nat, alphaSize: nat)
    requires Passes(tables, sels, m, nGroups, alphaSize) && |sels| == 4
    ensures |tables| == 5 && CompleteTables(tables[4], nGroups, alphaSize) && Tuned(tables[4], m, sels[3], nGroups, alphaSize)
    ensures forall k {:trigger sels[k]} :: 0 <= k < 4 ==> Passed(tables[k], sels[k], tables[k + 1], m, nGroups, alphaSize)
  {
    hide Passed;
    PassedFacts(tables[3], sels[3], tables[3 + 1], m, nGroups, alphaSize);
  }

  lemma NoPasses(rows: seq<seq<int>>, m: seq<int>, nGroups: nat, alphaSize: nat)
    ensures Passes([rows], [], m, nGroups, alphaSize)
  {
  }

  /** One pass. */
  method ImproveTables(len: seq<array<byte>>, rfreq: seq<array<int>>, selector: array<int>, m: seq<int>, nGroups: nat, alphaSize: nat)
    returns (nSelectors: nat, ghost sel: seq<int>)
    requires LenRows(len) && IntRows(rfreq) && 2 <= nGroups <= N_GROUPS && selector.Length == MAX_SELECTORS && selector !in rfreq
    requires SymbolsBelow(m, alphaSize) && |m| <= 900050 && Costs(Rows(len, alphaSize), alphaSize)
    modifies len, rfreq, selector
    ensures nSelectors == (|m| + G_SIZE - 1) / G_SIZE <= MAX_SELECTORS && Chosen(selector[..], nSelectors, nGroups) && sel == selector[..nSelectors]
    ensures Costs(Rows(len, alphaSize), alphaSize) && Passed(old(Rows(len, alphaSize)), sel, Rows(len, alphaSize), m, nGroups, alphaSize)
  {
    hide Costs, LeastCost, Tallied, Passed, CompleteTables, Tuned, Chosen;
    ghost var before := Rows(len, alphaSize);
    nSelectors := AssignGroups(len, rfreq, selector, m, nGroups, alphaSize);
    sel := selector[..nSelectors];
    RecomputeTables(len, rfreq, nGroups, alphaSize, m, sel);
    NowPassed(before, sel, Rows(len, alphaSize), m, nGroups, alphaSize);
  }

  /**
   * Chooses coding tables and, for every group of fifty symbols, which of them to use: from the initial tables on, four
   * passes of choosing and making anew.
   */
  method ChooseTables(len: seq<array<byte>>, selector: array<int>, m: seq<int>, mtfFreq: seq<int>, alphaSize: nat)
    returns (nGroups: nat, nSelectors: nat, ghost cuts: seq<int>, ghost tables: seq<seq<seq<int>>>, ghost sels: seq<seq<int>>)
    requires LenRows(len) && selector.Length == MAX_SELECTORS && 3 <= alphaSize == |mtfFreq| <= 258
    requires SymbolsBelow(m, alphaSize) && 0 < |m| <= 900050
    modifies len, selector
    ensures nGroups == (if |m| < 200 then 2 else if |m| < 600 then 3 else if |m| < 1200 then 4 else if |m| < 2400 then 5 else 6)
    ensures nGroups <= N_GROUPS && nSelectors == (|m| + 49) / 50 <= MAX_SELECTORS
    ensures |tables| == 5 && |sels| == 4 && tables[4] == Rows(len, alphaSize) && sels[3] == selector[..nSelectors]
    ensures Started(tables[0], cuts, nGroups, alphaSize)
    ensures Fair(mtfFreq, |m|) ==> cuts[nGroups] == alphaSize && NearShares(mtfFreq, cuts, nGroups, nGroups)
    ensures forall k {:trigger sels[k]} :: 0 <= k < 4 ==> Passed(tables[k], sels[k], tables[k + 1], m, nGroups, alphaSize)
    ensures CompleteTables(Rows(len, alphaSize), nGroups, alphaSize)
    ensures Chosen(selector[..], nSelectors, nGroups)
    ensures Tuned(Rows(len, alphaSize), m, selector[..nSelectors], nGroups, alphaSize)
  {
    hide Costs, TallyOf, CompleteCode, LeastCost, BestFor, Tallied, Started, Passed, Passes, Stretches, NearShares, Fair, CompleteTables, Tuned, Chosen;
    var rfreq := NewRows();
    nGroups := GroupsFor(|m|);
    cuts := InitialTables(len, mtfFreq, |m|, nGroups, alphaSize);
    RowsStarted(len, cuts, nGroups, alphaSize);
    nSelectors := 0;
    tables, sels := [Rows(len, alphaSize)], [];
    NoPasses(Rows(len, alphaSize), m, nGroups, alphaSize);
    for iter := 0 to N_ITERS
      invariant Costs(Rows(len, alphaSize), alphaSize)
      invariant |sels| == iter && |tables| == iter + 1 && tables[iter] == Rows(len, alphaSize) && Started(tables[0], cuts, nGroups, alphaSize)
      invariant iter > 0 ==> nSelectors == (|m| + G_SIZE - 1) / G_SIZE <= MAX_SELECTORS && Chosen(selector[..], nSelectors, nGroups)
      invariant iter > 0 ==> sels[iter - 1] == selector[..nSelectors]
      invariant Passes(tables, sels, m, nGroups, alphaSize)
    {
      ghost var sel;
      nSelectors, sel := ImproveTables(len, rfreq, selector, m, nGroups, alphaSize);
      PassesNext(tables, sels, sel, Rows(len, alphaSize), m, nGroups, alphaSize);
      sels := sels + [sel];
      tables := tables + [Rows(len, alphaSize)];
    }
    FourPasses(tables, sels, m, nGroups, alphaSize);
    assert nGroups < 8;                      // assertion 3002
    assert nSelectors <= MAX_SELECTORS;      // assertion 3003
  }

  lemma NowPassed(before: seq<seq<int>>, sel: seq<int>, after: seq<seq<int>>, m: seq<int>, nGroups: nat, alphaSize: nat)
    requires |sel| == (|m| + 49) / 50 && LeastCost(before, m, sel, nGroups, alphaSize)
    requires CompleteTables(after, nGroups, alphaSize) && Tuned(after, m, sel, nGroups, alphaSize)
    ensures Passed(before, sel, after, m, nGroups, alphaSize)
  {
  }

  lemma PassedFacts(before: seq<seq<int>>, sel: seq<int>, after: seq<seq<int>>, m: seq<int>, nGroups: nat, alphaSize: nat)
    requires Passed(before, sel, after, m, nGroups, alphaSize)
    ensures CompleteTables(after, nGroups, alphaSize) && Tuned(after, m, sel, nGroups, alphaSize)
  {
    hide CompleteTables, Tuned, LeastCost;
  }

  method NewRows() returns (rows: seq<array<int>>)
    ensures IntRows(rows) && forall t {:trigger rows[t]} :: 0 <= t < N_GROUPS ==> fresh(rows[t])
  {
    var a, b, c := new int[258], new int[258], new int[258];
    var d, e, f := new int[258], new int[258], new int[258];
    rows := [a, b, c, d, e, f];
  }
}
