// BZ2_compressBlock for one non-empty block: sort, move to front, send.
module CompressBlock {
  import opened Words
  import opened Bits
  import opened BitIO
  import opened Perm
  import opened Rotation
  import opened RunLength
  import opened Kraft
  import opened Alphabet
  import opened Mtf
  import opened GenerateMtf
  import opened Canonical
  import opened Crc
  import opened FallbackQSort
  import opened FallbackSort
  import opened Decoder
  import opened BlockFormat
  import opened BlockWriter
  import opened SendBlock
  import opened BlockRoundTrip

  /** The symbols generateMTFValues left in the pointer array. */
  method ReadSymbols(arr1: array<int>, nMTF: nat) returns (m: seq<int>)
    requires nMTF <= 2 * arr1.Length
    ensures m == Halves(arr1[..], nMTF)
  {
    m := [];
    for k := 0 to nMTF
      invariant m == Halves(arr1[..], k)
    {
      var word := arr1[k / 2];
      m := m + [if k % 2 == 0 then word % 0x1_0000 else word / 0x1_0000];
    }
  }

  /** The symbols and tables sent are those of the plan. */
  lemma PlanFrom(level: nat, q: Plan, m: seq<int>)
    requires StoredRuns(level, q.runs) && Covers(q.inUse, Encode(q.runs)) && SortedBlock(Encode(q.runs), q.p, q.origPtr)
    requires m == Mtfv(q) && q.nGroups == |q.lens| && Sendable(q.inUse, q.selector, q.lens, m)
    ensures GoodPlan(level, q)
  {
    hide Mtfv, KraftSum, Pow2, Encode;
  }

  lemma SentBits(table: CrcTable, level: nat, q: Plan, before: Bits)
    requires GoodPlan(level, q) && Sendable(q.inUse, q.selector, q.lens, Mtfv(q)) && q.nGroups == |q.lens|
    ensures before + BlockHead(BlockCrcOf(table, Expand(q.runs)), q.origPtr) + Sent(q.inUse, q.selector, q.lens, Mtfv(q))
         == before + BlockBits(table, level, q)
  {
    hide BlockHead, MappingBits, SelectorBits, TablesFrom, DataFrom, Mtfv, Encode, KraftSum, Pow2, BlockCrcOf;
    PlanCodable(level, q);
  }

  /** Symbols are below the alphabet size, and there are not too many. */
  lemma SymbolRange(q: Plan, n: nat)
    requires WellFormed(q.runs) && Covers(q.inUse, Encode(q.runs)) && SortedBlock(Encode(q.runs), q.p, q.origPtr)
    requires 0 < |Encode(q.runs)| && n == Rank(q.inUse, 256)
    ensures n >= 1 && 0 < |Mtfv(q)| <= |Encode(q.runs)| + 1
    ensures forall i :: 0 <= i < |Mtfv(q)| ==> 0 <= Mtfv(q)[i] < n + 2
  {
    hide Rank, EncodeFrom, Covers, SortedNumbers;
    var b := Encode(q.runs);
    SortedPointers(b, q.p);
    NumbersInList(b, q.p, q.inUse);
    NumbersLength(b, q.p, q.inUse);
    EncodedSymbols(SortedNumbers(b, q.p, q.inUse), Iota(n), 0, Params(n + 1, 0, []));
  }

  /** Sorts, transforms and sends the block; what was chosen on the way is returned as the block's plan. */
  method SendOneBlock(w: BitWriter, block: array<byte>, nblock: nat, inUse: UseMap, crc: u32, level: nat, ghost table: CrcTable, ghost runs: seq<Run>)
    returns (ghost q: Plan)
    requires w.Valid() && StoredRuns(level, runs) && nblock <= block.Length && block[..nblock] == Encode(runs)
    requires Covers(inUse, Encode(runs)) && crc == BlockCrcOf(table, Expand(runs))
    modifies w, block
    ensures w.Valid() && block[..nblock] == old(block[..nblock])
    ensures GoodPlan(level, q) && q.runs == runs
    ensures w.Written() == old(w.Written()) + BlockBits(table, level, q)
  {
    hide BitWriter.Valid, BitWriter.Written, Encode, Expand, WellFormed, BlockCrcOf, Covers, BlockHead, BlockBits, GoodPlan, Sent, Sendable, Mtfv,
         SortedRotations, Rank, Halves, GenerateMtf.Counted, SortedNumbers, EncodeFrom;
    ghost var b := Encode(runs);
    var arr1, arr2, ftab := new int[nblock], new int[nblock](_ => 0), new u32[65537];
    var origPtr := BlockSort(arr1, arr2, block, ftab, nblock);
    ghost var p := arr1[..nblock];
    SortedPointers(b, p);
    ghost var before := w.Written();
    WriteBlockHead(w, crc, origPtr);
    var mtfFreq := new int[258];
    var nMTF, nInUse := GenerateMtfValues(arr1, block, inUse, nblock, mtfFreq);
    var m := ReadSymbols(arr1, nMTF);
    q := Plan(runs, inUse, p, origPtr, 0, [], []);
    PlanSymbols(q, m, nInUse);
    SymbolRange(q, nInUse);
    ghost var sel, lens := SendMtfValues(w, m, inUse, nInUse, mtfFreq[..nInUse + 2]);
    q := Plan(runs, inUse, p, origPtr, |lens|, sel, lens);
    PlanSymbols(q, m, nInUse);
    PlanFrom(level, q, m);
    SentBits(table, level, q, before);
  }

  lemma PlanSymbols(q: Plan, m: seq<int>, n: nat)
    requires WellFormed(q.runs) && Covers(q.inUse, Encode(q.runs)) && SortedBlock(Encode(q.runs), q.p, q.origPtr)
    requires Pointers(Encode(q.runs), q.p) && n == Rank(q.inUse, 256)
    requires forall i :: 0 <= i < |Encode(q.runs)| ==> SortedNumbers(Encode(q.runs), q.p, q.inUse)[i] in Iota(n)
    requires m == EncodeFrom(SortedNumbers(Encode(q.runs), q.p, q.inUse), Iota(n), 0) + [n + 1]
    ensures m == Mtfv(q)
  {
  }
}
