// How long the compressed form of a block and of a whole stream can get.
module OutputBound {
  import opened Words
  import opened Bits
  import opened RunLength
  import opened Alphabet
  import opened Mtf
  import opened Canonical
  import opened Rotation
  import opened InverseBwt
  import opened GenerateMtf
  import opened Crc
  import opened Decoder
  import opened BlockFormat
  import opened BlockRoundTrip
  import opened Stream

  /** More than everything in a block but its symbols, with the end mark among these. */
  const BLOCK_BITS: nat := 168829

  lemma {:induction false} MappingLength(inUse: UseMap, i: nat)
    requires i <= 16
    ensures |MappingFrom(inUse, i)| <= 16 * (16 - i)
    decreases 16 - i
  {
    if i < 16 {
      MappingLength(inUse, i + 1);
    }
  }

  lemma {:induction false} UnaryLength(j: nat)
    ensures |Unary(j)| == j + 1
  {
    if j > 0 {
      UnaryLength(j - 1);
    }
  }

  lemma {:induction false} UnaryFromLength(m: seq<int>, i: nat)
    requires i <= |m| && forall k :: 0 <= k < |m| ==> 0 <= m[k] < 6
    ensures |UnaryFrom(m, i)| <= 6 * (|m| - i)
    decreases |m| - i
  {
    if i < |m| {
      UnaryLength(m[i]);
      UnaryFromLength(m, i + 1);
    }
  }

  lemma SelectorLength(nGroups: nat, sel: seq<int>)
    requires Selects(nGroups, sel)
    ensures |SelectorBits(nGroups, sel)| <= 18 + 6 * 18002
  {
    hide UnaryFrom, SelectorMtf;
    SelectorsListed(nGroups, sel);
    UnaryFromLength(SelectorMtf(Iota(nGroups), sel), 0);
  }

  lemma {:induction false} MovesLength(curr: int, to: int)
    requires 1 <= curr <= 20 && 1 <= to <= 20
    ensures |Moves(curr, to)| <= 38
    ensures |Moves(curr, to)| == 2 * if curr < to then to - curr else curr - to
    decreases if curr < to then to - curr else curr - to
  {
    if curr < to {
      MovesLength(curr + 1, to);
    } else if curr > to {
      MovesLength(curr - 1, to);
    }
  }

  lemma {:induction false} DeltaLength(len: seq<int>, i: nat, curr: int)
    requires Lens(len) && i <= |len| && 1 <= curr <= 20
    ensures |DeltaFrom(len, i, curr)| <= 39 * (|len| - i)
    decreases |len| - i
  {
    if i < |len| {
      MovesLength(curr, len[i]);
      DeltaLength(len, i + 1, len[i]);
    }
  }

  lemma TableLength(len: seq<int>)
    requires Lens(len)
    ensures |TableBits(len)| <= 5 + 39 * 258
  {
    hide DeltaFrom;
    DeltaLength(len, 0, len[0]);
  }

  lemma {:induction false} TablesLength(lens: seq<seq<int>>, alphaSize: nat, t: nat)
    requires t <= |lens| && Tables(lens, alphaSize)
    ensures |TablesFrom(lens, alphaSize, t)| <= (5 + 39 * 258) * (|lens| - t)
    decreases |lens| - t
  {
    hide TableBits, Lens;
    if t < |lens| {
      TableLength(lens[t]);
      TablesLength(lens, alphaSize, t + 1);
    }
  }

  /** No code is longer than 20 bits. */
  lemma {:induction false} DataLength(lens: seq<seq<int>>, alphaSize: nat, sel: seq<int>, mtfv: seq<int>, k: nat)
    requires k <= |mtfv| && Codable(lens, alphaSize, sel, mtfv)
    ensures |DataFrom(lens, alphaSize, sel, mtfv, k)| <= 20 * (|mtfv| - k)
    decreases |mtfv| - k
  {
    hide *;
    DataNext(lens, alphaSize, sel, mtfv, k);
    if k < |mtfv| {
      DataLength(lens, alphaSize, sel, mtfv, k + 1);
    }
  }

  lemma DataNext(lens: seq<seq<int>>, alphaSize: nat, sel: seq<int>, mtfv: seq<int>, k: nat)
    requires k <= |mtfv| && Codable(lens, alphaSize, sel, mtfv)
    ensures |DataFrom(lens, alphaSize, sel, mtfv, k)| <= if k == |mtfv| then 0 else 20 + |DataFrom(lens, alphaSize, sel, mtfv, k + 1)|
  {
    hide Code, ToBits;
    if k < |mtfv| {
      assert Lens(lens[sel[k / G_SIZE]]);
    }
  }

  /** Coding runs of zeros never takes more symbols than there are zeros. */
  lemma {:induction false} SymbolCount(l: seq<int>, list: seq<int>, z: nat)
    requires forall i :: 0 <= i < |l| ==> l[i] in list
    ensures |EncodeFrom(l, list, z)| <= |l| + z
    decreases |l|
  {
    hide IndexOf, ToFront, Flush;
    if l != [] {
      assert l[0] in list;
      EncodedInRange(l, list, z);
    }
  }

  lemma MtfvLength(level: nat, q: Plan)
    requires GoodPlan(level, q)
    ensures |Mtfv(q)| <= |Encode(q.runs)| + 1
  {
    hide EncodeFrom, Rank, SortedNumbers, Encode, Covers, SortedRotations, Tables, Selects;
    var b := Encode(q.runs);
    SortedPointers(b, q.p);
    NumbersInList(b, q.p, q.inUse);
    SymbolCount(SortedNumbers(b, q.p, q.inUse), Iota(Rank(q.inUse, 256)), 0);
  }

  lemma HeadLength(crc: nat, origPtr: nat)
    ensures |BlockHead(crc, origPtr)| == 105
  {
    assert |BlockMarkFrom(7)| == 0 && |BlockMarkFrom(6)| == 8 && |BlockMarkFrom(5)| == 16 && |BlockMarkFrom(4)| == 24 && |BlockMarkFrom(3)| == 32
           && |BlockMarkFrom(2)| == 40;
  }

  /** A block takes at most 20 bits for each byte it stores, and no more than BLOCK_BITS besides. */
  lemma BlockLength(table: CrcTable, level: nat, q: Plan)
    requires GoodPlan(level, q)
    ensures |BlockBits(table, level, q)| <= BLOCK_BITS + 20 * |Encode(q.runs)|
  {
    hide *;
    PlanFacts(BlockCrcOf(table, Expand(q.runs)), level, q);
    HeadLength(BlockCrcOf(table, Expand(q.runs)), q.origPtr);
    MappingLength(q.inUse, 0);
    SelectorLength(q.nGroups, q.selector);
    TablesLength(q.lens, AlphaSize(q.inUse), 0);
    DataLength(q.lens, AlphaSize(q.inUse), q.selector, Mtfv(q), 0);
    MtfvLength(level, q);
    PartLengths(table, level, q);
  }

  lemma PartLengths(table: CrcTable, level: nat, q: Plan)
    requires GoodPlan(level, q) && Codable(q.lens, AlphaSize(q.inUse), q.selector, Mtfv(q))
    ensures |BlockBits(table, level, q)| <= |BlockHead(BlockCrcOf(table, Expand(q.runs)), q.origPtr)| + 16 + |MappingFrom(q.inUse, 0)|
              + |SelectorBits(q.nGroups, q.selector)| + |TablesFrom(q.lens, AlphaSize(q.inUse), 0)|
              + |DataFrom(q.lens, AlphaSize(q.inUse), q.selector, Mtfv(q), 0)|
    ensures |q.lens| <= 6 && BLOCK_BITS == 168829
  {
    hide BlockHead, MappingFrom, SelectorBits, TablesFrom, DataFrom, Mtfv, BlockCrcOf, Codable, Rank;
    StoredBitsAre(BlockCrcOf(table, Expand(q.runs)), level, q);
  }

  /** A block with the ends of a stream around it fits behind its bytes in an array of 4 * (n + 34) for blocks of n. */
  lemma FitsBehind(table: CrcTable, level: nat, q: Plan)
    requires GoodPlan(level, q)
    ensures |BlockBits(table, level, q)| + 200 <= 8 * (4 * (100000 * level + 34) - |Encode(q.runs)|)
  {
    hide BlockBits, Mtfv;
    BlockLength(table, level, q);
  }

  // Whole streams.

  /** How many bytes a block takes to store these runs. */
  function PackedLength(runs: seq<Run>): nat {
    if runs == [] then 0 else (if runs[0].len < 4 then runs[0].len else 5) + PackedLength(runs[1..])
  }

  lemma {:induction false} PackedIs(runs: seq<Run>)
    requires WellFormed(runs)
    ensures |Encode(runs)| == PackedLength(runs)
  {
    if runs != [] {
      assert forall i :: 0 <= i < |runs[1..]| ==> runs[1..][i] == runs[i + 1];
      PackedIs(runs[1..]);
    }
  }

  /** Storing runs costs at most a quarter more. */
  lemma {:induction false} PackedRuns(runs: seq<Run>)
    ensures 4 * PackedLength(runs) <= 5 * |Expand(runs)|
  {
    if runs != [] {
      PackedRuns(runs[1..]);
    }
  }

  /** All bytes stored in the blocks. */
  function Stored(qs: seq<Plan>): nat {
    if qs == [] then 0 else PackedLength(qs[0].runs) + Stored(qs[1..])
  }

  lemma {:induction false} StoredAppend(qs: seq<Plan>, q: Plan)
    ensures Stored(qs + [q]) == Stored(qs) + PackedLength(q.runs)
    decreases |qs|
  {
    if qs == [] {
      assert (qs + [q])[1..] == [];
    } else {
      assert (qs + [q])[1..] == qs[1..] + [q];
      StoredAppend(qs[1..], q);
    }
  }

  lemma {:induction false} StoredContent(qs: seq<Plan>)
    ensures 4 * Stored(qs) <= 5 * |Content(qs)|
  {
    hide Expand, PackedLength;
    if qs != [] {
      PackedRuns(qs[0].runs);
      StoredContent(qs[1..]);
    }
  }

  lemma {:induction false} BlocksLength(table: CrcTable, level: nat, qs: seq<Plan>)
    requires GoodPlans(level, qs)
    ensures |BlocksBits(table, level, qs)| <= BLOCK_BITS * |qs| + 20 * Stored(qs)
    decreases |qs|
  {
    hide BlockBits, GoodPlan, PackedLength, Encode, WellFormed;
    if qs != [] {
      PlanLevel(level, qs[0]);
      PackedIs(qs[0].runs);
      BlockLength(table, level, qs[0]);
      BlocksLength(table, level, qs[1..]);
    }
  }

  /** All but `early` of the blocks were closed because they were full. */
  ghost predicate FullBut(level: nat, qs: seq<Plan>, early: nat) {
    1 <= level && early <= |qs| && (|qs| - early) * (100000 * level - 19) <= Stored(qs)
  }

  lemma FullButNext(level: nat, qs: seq<Plan>, early: nat, q: Plan, nblock: nat)
    requires FullBut(level, qs, early) && WellFormed(q.runs) && |Encode(q.runs)| == nblock
    ensures FullBut(level, qs + [q], if nblock < 100000 * level - 19 then early + 1 else early)
  {
    hide Stored, WellFormed, Encode;
    StoredAppend(qs, q);
    PackedIs(q.runs);
    MulDistributes(|qs| - early, 1, 100000 * level - 19);
  }

  /** How many full blocks n bytes can make. */
  function FullBlocks(level: nat, n: nat): (k: nat)
    requires 1 <= level
  {
    Quotient(5 * n / 4, 100000 * level - 19)
  }

  function Quotient(a: nat, d: nat): nat
    requires d > 0
  {
    a / d
  }

  /** Bits enough for any stream of n bytes of which at most `early` blocks were not full. */
  function StreamBound(level: nat, n: nat, early: nat): nat
    requires 1 <= level
  {
    120 + BLOCK_BITS * (early + FullBlocks(level, n)) + 25 * n
  }

  lemma BoundGrows(level: nat, m: nat, n: nat, early: nat, late: nat)
    requires 1 <= level && m <= n && early <= late
    ensures StreamBound(level, m, early) <= StreamBound(level, n, late)
  {
    var d: nat := 100000 * level - 19;
    QuotientGrows(5 * m / 4, 5 * n / 4, d);
  }

  lemma QuotientGrows(a: nat, b: nat, d: nat)
    requires a <= b && d > 0
    ensures a / d <= b / d
  {
    if a / d > b / d {
      MulMonotone(b / d + 1, a / d, d, d);
      MulDistributes(b / d, 1, d);
    }
  }

  lemma BlockCount(level: nat, qs: seq<Plan>, early: nat, n: nat)
    requires FullBut(level, qs, early) && |Content(qs)| <= n
    ensures |qs| <= early + FullBlocks(level, n) && 4 * Stored(qs) <= 5 * n
  {
    hide Stored, Content;
    StoredContent(qs);
    var d: nat, k: nat := 100000 * level - 19, |qs| - early;
    DivModUnique(k * d, d, k, 0);
    QuotientGrows(k * d, 5 * n / 4, d);
  }

  /** The bits of the stream so far, and with its end. */
  lemma StreamLength(table: CrcTable, level: nat, qs: seq<Plan>, early: nat, n: nat)
    requires GoodPlans(level, qs) && FullBut(level, qs, early) && |Content(qs)| <= n
    ensures |StreamHead(level) + BlocksBits(table, level, qs)| + 87 <= StreamBound(level, n, early)
    ensures |StreamBits(table, level, qs)| + 7 <= StreamBound(level, n, early)
  {
    hide GoodPlans, FullBut, Stored, Content, BlocksBits, StreamTail, CombinedFrom;
    BlocksLength(table, level, qs);
    BlockCount(level, qs, early, n);
    TailLength(CombinedFrom(table, 0, qs));
    LevelFrom(level, qs);
    MulMonotone(|qs|, early + FullBlocks(level, n), BLOCK_BITS, BLOCK_BITS);
  }

  lemma LevelFrom(level: nat, qs: seq<Plan>)
    requires GoodPlans(level, qs)
    ensures 1 <= level <= 9
  {
  }

  lemma TailLength(crc: nat)
    ensures |StreamTail(crc)| == 80
  {
    assert |EndMarkFrom(7)| == 0 && |EndMarkFrom(6)| == 8 && |EndMarkFrom(5)| == 16 && |EndMarkFrom(4)| == 24 && |EndMarkFrom(3)| == 32 && |EndMarkFrom(2)| == 40;
  }
}
