// One block, from the bytes it stores to its bits and back.
module BlockRoundTrip {
  import opened Words
  import opened Bits
  import opened Perm
  import opened Rotation
  import opened InverseBwt
  import opened RunLength
  import opened Kraft
  import opened Alphabet
  import opened Mtf
  import opened GenerateMtf
  import opened Canonical
  import opened Crc
  import opened Decoder
  import opened DecoderRun
  import opened BlockFormat
  import opened BlockDecoding
  import opened TableDecoding
  import opened DataDecoding

  /** Everything the compressor decides about a block: its runs, a sorted order of its rotations, and its coding tables. */
  datatype Plan = Plan(runs: seq<Run>, inUse: UseMap, p: seq<int>, origPtr: nat, nGroups: nat, selector: seq<int>, lens: seq<seq<int>>)

  /** The order p sorts the rotations of b, ties in any order, and origPtr is where b itself went. */
  ghost predicate SortedBlock(b: seq<byte>, p: seq<int>, origPtr: nat) {
    SortedRotations(b, p) && origPtr < |b| && p[origPtr] == 0
  }

  ghost predicate StoredRuns(level: nat, runs: seq<Run>) {
    1 <= level <= 9 && WellFormed(runs) && 0 < |Encode(runs)| <= 100000 * level
  }

  /** Whatever the block sorter and the table refinement choose, within what the decoder accepts. */
  ghost predicate GoodPlan(level: nat, q: Plan) {
    && StoredRuns(level, q.runs)
    && Covers(q.inUse, Encode(q.runs)) && SortedBlock(Encode(q.runs), q.p, q.origPtr)
    && Selects(q.nGroups, q.selector) && |q.lens| == q.nGroups && Tables(q.lens, AlphaSize(q.inUse))
    && (forall t {:trigger q.lens[t]} :: 0 <= t < |q.lens| ==> KraftSum(q.lens[t], LONGEST) <= Pow2(LONGEST))
    && |Mtfv(q)| <= G_SIZE * |q.selector|
  }

  lemma SortedPointers(b: seq<byte>, p: seq<int>)
    requires SortedRotations(b, p)
    ensures Pointers(b, p)
  {
  }

  /** The block's symbols: its last column, moved to front, with runs of zeros coded, and the end mark. */
  ghost function Mtfv(q: Plan): (s: seq<int>)
    requires WellFormed(q.runs) && Covers(q.inUse, Encode(q.runs)) && SortedBlock(Encode(q.runs), q.p, q.origPtr)
  {
    var b := Encode(q.runs);
    SortedPointers(b, q.p);
    NumbersInList(b, q.p, q.inUse);
    EncodeFrom(SortedNumbers(b, q.p, q.inUse), Iota(Rank(q.inUse, 256)), 0) + [Rank(q.inUse, 256) + 1]
  }

  ghost function Column(q: Plan): (l: seq<byte>)
    requires WellFormed(q.runs) && SortedBlock(Encode(q.runs), q.p, q.origPtr)
  {
    SortedPointers(Encode(q.runs), q.p);
    LastColumn(Encode(q.runs), q.p)
  }

  ghost function HeaderOf(crc: u32, level: nat, q: Plan): Header {
    Header(level, crc, false, q.origPtr)
  }

  ghost function DecoderBlock(crc: u32, level: nat, q: Plan): Block {
    Block(HeaderOf(crc, level, q), q.inUse, q.nGroups, q.selector)
  }

  // The symbols decode to the column.

  lemma UsedNumber(inUse: UseMap, c: byte)
    requires inUse[c]
    ensures Rank(inUse, c) < Rank(inUse, 256) && SeqToUnseq(inUse)[Rank(inUse, c)] == c
  {
    UsedAtRank(inUse, c, 256);
  }

  lemma PlanSizes(level: nat, q: Plan)
    requires GoodPlan(level, q)
    ensures Rank(q.inUse, 256) >= 1
  {
    SortedPointers(Encode(q.runs), q.p);
    NumbersInList(Encode(q.runs), q.p, q.inUse);
  }

  /** Both lists start as 0, 1, 2, ... */
  lemma ListsStart(p: Params, n: nat)
    requires |p.seqToUnseq| == 256 && p.eob == n + 1 && 1 <= n <= 256
    ensures Synchronised(Iota(n), Core(Iota(256), [], Fresh), p)
  {
    assert Iota(256)[..n] == Iota(n);
  }

  lemma NumbersAreChars(b: seq<byte>, p: seq<int>, inUse: UseMap, params: Params)
    requires Pointers(b, p) && Covers(inUse, b) && params.seqToUnseq == SeqToUnseq(inUse)
    ensures forall i :: 0 <= i < |b| ==> 0 <= SortedNumbers(b, p, inUse)[i] < 256
    ensures Chars(SortedNumbers(b, p, inUse), params) == LastColumn(b, p)
  {
    hide Rank, SeqToUnseq;
    var l := SortedNumbers(b, p, inUse);
    forall i | 0 <= i < |b| ensures 0 <= l[i] < 256 && params.seqToUnseq[l[i]] == LastColumn(b, p)[i] {
      UsedNumber(inUse, b[Prev(p[i], |b|)]);
    }
  }

  /** Feeding the symbols of a last column to the decoder ends with the column. */
  lemma NumbersDecode(b: seq<byte>, p: seq<int>, inUse: UseMap, params: Params)
    requires Pointers(b, p) && Covers(inUse, b) && 0 < |b| <= params.nblockMAX <= 900000
    requires params.eob == Rank(inUse, 256) + 1 && params.seqToUnseq == SeqToUnseq(inUse)
    ensures forall i :: 0 <= i < |b| ==> SortedNumbers(b, p, inUse)[i] in Iota(Rank(inUse, 256))
    ensures |SortedNumbers(b, p, inUse)| == |b|
    ensures var core, e := Core(Iota(256), [], Fresh), EncodeFrom(SortedNumbers(b, p, inUse), Iota(Rank(inUse, 256)), 0) + [params.eob];
            && ValidCore(core, params) && AllSymbols(e, params)
            && Feed(core, params, e).Done? && Feed(core, params, e).core.tt == LastColumn(b, p)
            && forall i :: 0 <= i < |e| - 1 ==> e[i] < params.eob
  {
    hide Rank, Feed, EncodeFrom, SeqToUnseq, LastColumn, SortedNumbers, Covers, Chars;
    var n := Rank(inUse, 256);
    var core := Core(Iota(256), [], Fresh);
    NumbersInList(b, p, inUse);
    NumbersAreChars(b, p, inUse, params);
    ListsStart(params, n);
    var l := SortedNumbers(b, p, inUse);
    NumbersLength(b, p, inUse);
    MtfRoundTrip(l, Iota(n), 0, core, params);
    EncodedSymbols(l, Iota(n), 0, params);
    NoOwed(params.seqToUnseq[Iota(n)[0]], Chars(l, params));
  }

  /** Feeding the block's symbols to the decoder ends with the column. */
  lemma SymbolsDecode(level: nat, q: Plan, params: Params)
    requires GoodPlan(level, q)
    requires params == Params(Rank(q.inUse, 256) + 1, 100000 * level, SeqToUnseq(q.inUse))
    ensures var core := Core(Iota(256), [], Fresh);
            && ValidCore(core, params) && AllSymbols(Mtfv(q), params)
            && Feed(core, params, Mtfv(q)).Done? && Feed(core, params, Mtfv(q)).core.tt == Column(q)
    ensures forall i :: 0 <= i < |Mtfv(q)| - 1 ==> Mtfv(q)[i] < params.eob
  {
    hide *;
    BlockOf(level, q);
    NumbersDecode(Encode(q.runs), q.p, q.inUse, params);
    MtfvIs(q);
  }

  lemma BlockOf(level: nat, q: Plan)
    requires GoodPlan(level, q)
    ensures WellFormed(q.runs) && SortedBlock(Encode(q.runs), q.p, q.origPtr) && Pointers(Encode(q.runs), q.p) && Covers(q.inUse, Encode(q.runs))
    ensures 0 < |Encode(q.runs)| <= 100000 * level <= 900000
  {
    hide Mtfv, Rank;
    SortedPointers(Encode(q.runs), q.p);
  }

  lemma MtfvIs(q: Plan)
    requires WellFormed(q.runs) && Covers(q.inUse, Encode(q.runs)) && SortedBlock(Encode(q.runs), q.p, q.origPtr)
    ensures var b, l := Encode(q.runs), Iota(Rank(q.inUse, 256));
            && Pointers(b, q.p) && (forall i :: 0 <= i < |SortedNumbers(b, q.p, q.inUse)| ==> SortedNumbers(b, q.p, q.inUse)[i] in l)
            && Mtfv(q) == EncodeFrom(SortedNumbers(b, q.p, q.inUse), l, 0) + [Rank(q.inUse, 256) + 1] && Column(q) == LastColumn(b, q.p)
  {
    hide Rank, EncodeFrom, LastColumn;
    SortedPointers(Encode(q.runs), q.p);
    NumbersInList(Encode(q.runs), q.p, q.inUse);
  }

  lemma NumbersLength(b: seq<byte>, p: seq<int>, inUse: UseMap)
    requires Pointers(b, p)
    ensures |SortedNumbers(b, p, inUse)| == |b|
  {
  }

  lemma NoOwed(c: byte, s: seq<byte>)
    ensures [] + Repeat(c, 0) + s == s
  {
  }

  // The bits.

  lemma PlanCodable(level: nat, q: Plan)
    requires GoodPlan(level, q)
    ensures Codable(q.lens, AlphaSize(q.inUse), q.selector, Mtfv(q))
  {
    hide Rank, Mtfv, KraftSum, Pow2;
    SymbolsDecode(level, q, Params(Rank(q.inUse, 256) + 1, 100000 * level, SeqToUnseq(q.inUse)));
  }

  /** The bits of a block, whatever checksum is stored in it. */
  ghost function StoredBits(crc: u32, level: nat, q: Plan): Bits
    requires GoodPlan(level, q)
  {
    PlanCodable(level, q);
    BlockHead(crc, q.origPtr) + MappingBits(q.inUse) + SelectorBits(q.nGroups, q.selector)
    + TablesFrom(q.lens, AlphaSize(q.inUse), 0) + DataFrom(q.lens, AlphaSize(q.inUse), q.selector, Mtfv(q), 0)
  }

  /** The bits of a block with the checksum of its bytes. */
  ghost function BlockBits(table: CrcTable, level: nat, q: Plan): Bits
    requires GoodPlan(level, q)
  {
    StoredBits(BlockCrcOf(table, Expand(q.runs)), level, q)
  }

  lemma PlanCoding(crc: u32, level: nat, q: Plan)
    requires GoodPlan(level, q)
    ensures Coding(DecoderBlock(crc, level, q), q.lens, Mtfv(q)) && |Mtfv(q)| > 0
    ensures ReadingTable(DecoderBlock(crc, level, q), q.lens, 0)
    ensures ValidHeader(HeaderOf(crc, level, q))
  {
    hide Rank, KraftSum, Pow2, EncodeFrom;
    PlanSizes(level, q);
    PlanCodable(level, q);
    PrefixTables(DecoderBlock(crc, level, q), q.lens, 0);
    var b := DecoderBlock(crc, level, q);
    forall t | 0 <= t < |q.lens| ensures |q.lens[t]| == AlphaSize(b.inUse) && Lens(q.lens[t]) {}
  }

  lemma HeadTakes(crc: u32, level: nat, q: Plan)
    requires GoodPlan(level, q)
    ensures Takes(BlockMark(level, 1), BlockHead(crc, q.origPtr), UsedGroups(HeaderOf(crc, level, q), []))
  {
    hide Takes, Mtfv, KraftSum;
    BlockHeadTakes(level, crc, q.origPtr);
  }

  lemma TablesAndDataTake(crc: u32, level: nat, q: Plan)
    requires GoodPlan(level, q)
    ensures Codable(q.lens, AlphaSize(q.inUse), q.selector, Mtfv(q))
    ensures Takes(StartLength(DecoderBlock(crc, level, q), []),
                  TablesFrom(q.lens, AlphaSize(q.inUse), 0) + DataFrom(q.lens, AlphaSize(q.inUse), q.selector, Mtfv(q), 0),
                  Output(HeaderOf(crc, level, q), Column(q)))
  {
    hide Takes, Mtfv, KraftSum, Rank, Coding, ValidHeader, Column, Lens, Feed, Waiting, NextValue, SeqToUnseq, ReadingTable;
    var b, h := DecoderBlock(crc, level, q), HeaderOf(crc, level, q);
    var core, alpha := Core(Iota(256), [], Fresh), AlphaSize(q.inUse);
    PlanCodable(level, q);
    PlanCoding(crc, level, q);
    SymbolsDecode(level, q, ParamsOf(b));
    ColumnLength(q);
    FirstAt(b, q.lens, core, Mtfv(q));
    TablesTake(b, q.lens, 0);
    assert q.lens[..0] == [] && Mtfv(q)[0..] == Mtfv(q);
    DataTakes(b, q.lens, core, Mtfv(q), 0);
    TakesBoth(StartLength(b, []), TablesFrom(q.lens, alpha, 0), Waiting(DataDecoding.At(b, q.lens, core, 0)),
              DataFrom(q.lens, alpha, q.selector, Mtfv(q), 0), Output(h, Column(q)));
  }

  lemma ColumnLength(q: Plan)
    requires WellFormed(q.runs) && SortedBlock(Encode(q.runs), q.p, q.origPtr)
    ensures q.origPtr < |Column(q)|
  {
  }

  /** The decoder reads exactly the block's bits and is left with its last column, checksum and index. */
  lemma BlockDecodes(crc: u32, level: nat, q: Plan)
    requires GoodPlan(level, q)
    ensures Takes(BlockMark(level, 1), StoredBits(crc, level, q), Output(HeaderOf(crc, level, q), Column(q)))
  {
    hide *;
    var b, h := DecoderBlock(crc, level, q), HeaderOf(crc, level, q);
    PlanFacts(crc, level, q);
    HeadTakes(crc, level, q);
    MappingBitsTake(h, q.inUse);
    SelectorBitsTake(h, q.inUse, q.nGroups, q.selector);
    TablesAndDataTake(crc, level, q);
    var x0, x1, x2 := BlockHead(crc, q.origPtr), MappingBits(q.inUse), SelectorBits(q.nGroups, q.selector);
    var x3 := TablesFrom(q.lens, AlphaSize(q.inUse), 0) + DataFrom(q.lens, AlphaSize(q.inUse), q.selector, Mtfv(q), 0);
    var s, out := BlockMark(level, 1), Output(h, Column(q));
    TakesBoth(s, x0, UsedGroups(h, []), x1, GroupCount(h, q.inUse));
    TakesBoth(s, x0 + x1, GroupCount(h, q.inUse), x2, StartLength(b, []));
    TakesBoth(s, x0 + x1 + x2, StartLength(b, []), x3, out);
    StoredBitsAre(crc, level, q);
  }

  lemma PlanFacts(crc: u32, level: nat, q: Plan)
    requires GoodPlan(level, q)
    ensures ValidHeader(HeaderOf(crc, level, q)) && Rank(q.inUse, 256) >= 1 && Selects(q.nGroups, q.selector)
    ensures DecoderBlock(crc, level, q) == Block(HeaderOf(crc, level, q), q.inUse, q.nGroups, q.selector)
    ensures WellFormed(q.runs) && SortedBlock(Encode(q.runs), q.p, q.origPtr) && Covers(q.inUse, Encode(q.runs)) && Tables(q.lens, AlphaSize(q.inUse))
    ensures Codable(q.lens, AlphaSize(q.inUse), q.selector, Mtfv(q))
  {
    hide Mtfv, Rank, KraftSum;
    PlanCodable(level, q);
    PlanSizes(level, q);
    PlanCoding(crc, level, q);
  }

  lemma StoredBitsAre(crc: u32, level: nat, q: Plan)
    requires GoodPlan(level, q)
    ensures Codable(q.lens, AlphaSize(q.inUse), q.selector, Mtfv(q)) && Selects(q.nGroups, q.selector)
    ensures StoredBits(crc, level, q)
         == BlockHead(crc, q.origPtr) + MappingBits(q.inUse) + SelectorBits(q.nGroups, q.selector)
          + (TablesFrom(q.lens, AlphaSize(q.inUse), 0) + DataFrom(q.lens, AlphaSize(q.inUse), q.selector, Mtfv(q), 0))
  {
    hide MappingBits, SelectorBits, TablesFrom, DataFrom, BlockHead, Mtfv;
    PlanCodable(level, q);
  }

  /** Undoing the transform and the run-length layer of the decoded column gives the bytes of the runs. */
  lemma BlockUnpacks(level: nat, q: Plan, beyond: byte)
    requires GoodPlan(level, q)
    ensures q.origPtr < |Column(q)|
    ensures Unpack(Walk(Column(q), q.origPtr, |Column(q)|), beyond) == Unpacked(Expand(q.runs), false)
  {
    hide Mtfv, Unpack, Walk, KraftSum;
    var b := Encode(q.runs);
    WalkIsBlock(b, q.p, q.origPtr);
    UnpackEncode(q.runs, beyond);
  }
}
