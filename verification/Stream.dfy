// Whole streams: what decompressing a bit string amounts to, and that it
// inverts compression.
module Stream {
  import opened Words
  import opened Bits
  import opened InverseBwt
  import opened RunLength
  import opened Mtf
  import opened Crc
  import opened Decoder
  import opened DecoderRun
  import opened BlockFormat
  import opened BlockDecoding
  import opened BlockRoundTrip

  datatype Verdict = StreamEnd | DataError | MagicError | OutOfInput | RandomisedBlock

  datatype Decoded = Decoded(out: seq<byte>, verdict: Verdict)

  lemma {:induction false} RunShrinks(s: State, bits: Bits)
    requires Valid(s)
    ensures |DecoderRun.Run(s, bits).rest| <= |bits|
    ensures !Halted(s) && Halted(DecoderRun.Run(s, bits).state) ==> |DecoderRun.Run(s, bits).rest| < |bits|
    decreases |bits|
  {
    hide Step, Valid, Need;
    if !(Halted(s) || |bits| < Need(s)) {
      NeedPositive(s);
      StepValid(s, FromBits(bits[..Need(s)]));
      RunShrinks(Step(s, FromBits(bits[..Need(s)])), bits[Need(s)..]);
    }
  }

  /** What a decoded block is output as: the transform undone and the run-length layer unpacked. */
  ghost function BlockOutput(h: Header, tt: seq<byte>): Unpacked
    requires h.origPtr < |tt|
  {
    Unpack(Walk(tt, h.origPtr, |tt|), Walk(tt, h.origPtr, |tt| + 2)[|tt|])
  }

  lemma OutputState(s: State)
    requires Valid(s) && s.Output?
    ensures 1 <= s.h.level <= 9 && s.h.origPtr < |s.tt|
  {
  }

  /** All output and the final verdict for the bits, read from state s on. */
  ghost function Session(table: CrcTable, s: State, bits: Bits, combined: u32): (d: Decoded)
    requires Valid(s) && !Halted(s)
    decreases |bits|
  {
    var r := DecoderRun.Run(s, bits);
    RunShrinks(s, bits);
    match r.state
    case Output(h, tt) =>
      OutputState(r.state);
      var u := BlockOutput(h, tt);
      if h.randomised then Decoded([], RandomisedBlock)
      else if u.corrupt || BlockCrcOf(table, u.bytes) != h.crc then Decoded(u.bytes, DataError)
      else
        var rest := Session(table, BlockMark(h.level, 1), r.rest, Combine(combined, h.crc));
        Decoded(u.bytes + rest.out, rest.verdict)
    case Ended(crc) => Decoded([], if crc == combined then StreamEnd else DataError)
    case Failed(e) => Decoded([], if e.BadMagic? then MagicError else DataError)
    case _ => Decoded([], OutOfInput)
  }

  // The compressed form of a sequence of blocks.

  ghost predicate GoodPlans(level: nat, qs: seq<Plan>) {
    1 <= level <= 9 && forall i {:trigger qs[i]} :: 0 <= i < |qs| ==> GoodPlan(level, qs[i])
  }

  ghost function BlocksBits(table: CrcTable, level: nat, qs: seq<Plan>): Bits
    requires GoodPlans(level, qs)
  {
    if qs == [] then [] else BlockBits(table, level, qs[0]) + BlocksBits(table, level, qs[1..])
  }

  ghost function CombinedFrom(table: CrcTable, c: u32, qs: seq<Plan>): (r: u32)
    decreases |qs|
  {
    if qs == [] then c else CombinedFrom(table, Combine(c, BlockCrcOf(table, Expand(qs[0].runs))), qs[1..])
  }

  /** The bytes all blocks stand for. */
  ghost function Content(qs: seq<Plan>): seq<byte> {
    if qs == [] then [] else Expand(qs[0].runs) + Content(qs[1..])
  }

  ghost function StreamBits(table: CrcTable, level: nat, qs: seq<Plan>): Bits
    requires GoodPlans(level, qs)
  {
    StreamHead(level) + BlocksBits(table, level, qs) + StreamTail(CombinedFrom(table, 0, qs))
  }

  /** The bytes are a stream of blocks that stand for x, filled with less than eight zero bits. */
  ghost predicate IsStream(table: CrcTable, level: nat, x: seq<byte>, out: seq<byte>) {
    exists qs: seq<Plan>, pad: nat ::
      GoodPlans(level, qs) && pad < 8 && Content(qs) == x && BytesToBits(out) == StreamBits(table, level, qs) + Zeros(pad)
  }

  // The round trip.

  lemma TakesRest(s: State, bits: Bits, t: State, rest: Bits)
    requires Takes(s, bits, t) && Halted(t)
    ensures Valid(s) && Valid(t) && DecoderRun.Run(s, bits + rest) == Paused(t, rest)
  {
    RunAppend(s, bits, rest);
    assert [] + rest == rest;
  }

  lemma MarkValid(level: nat)
    requires 1 <= level <= 9
    ensures Valid(BlockMark(level, 1)) && !Halted(BlockMark(level, 1)) && Valid(Magic(1)) && !Halted(Magic(1))
  {
  }

  /** Decompressing a bit string from its beginning. */
  ghost function Decompressed(table: CrcTable, bits: Bits): Decoded {
    MarkValid(1);
    Session(table, Magic(1), bits, 0)
  }

  lemma SessionEnds(table: CrcTable, level: nat, combined: u32, pad: Bits)
    requires 1 <= level <= 9
    ensures Valid(BlockMark(level, 1)) && !Halted(BlockMark(level, 1))
    ensures Session(table, BlockMark(level, 1), StreamTail(combined) + pad, combined) == Decoded([], StreamEnd)
  {
    hide Takes, DecoderRun.Run, StreamTail, Valid;
    MarkValid(level);
    StreamTailTakes(level, combined);
    TakesRest(BlockMark(level, 1), StreamTail(combined), Ended(combined), pad);
  }

  lemma PlanLevel(level: nat, q: Plan)
    requires GoodPlan(level, q)
    ensures 1 <= level <= 9 && WellFormed(q.runs) && SortedBlock(Encode(q.runs), q.p, q.origPtr)
  {
    hide Mtfv;
  }

  /** One block, and on to the next exactly if the checksum stored in it is that of its bytes. */
  lemma SessionStored(table: CrcTable, crc: u32, level: nat, q: Plan, rest: Bits, combined: u32)
    requires GoodPlan(level, q)
    ensures Valid(BlockMark(level, 1)) && !Halted(BlockMark(level, 1))
    ensures var d := Session(table, BlockMark(level, 1), rest, Combine(combined, crc));
            Session(table, BlockMark(level, 1), StoredBits(crc, level, q) + rest, combined) ==
              if BlockCrcOf(table, Expand(q.runs)) == crc then Decoded(Expand(q.runs) + d.out, d.verdict) else Decoded(Expand(q.runs), DataError)
  {
    hide Takes, DecoderRun.Run, StoredBits, Valid, GoodPlan, BlockRoundTrip.Column, Combine, BlockCrcOf, Unpack, Walk, Mtfv, WellFormed, SortedBlock;
    PlanLevel(level, q);
    MarkValid(level);
    BlockDecodes(crc, level, q);
    TakesRest(BlockMark(level, 1), StoredBits(crc, level, q), Output(HeaderOf(crc, level, q), BlockRoundTrip.Column(q)), rest);
    ColumnLength(q);
    var l := BlockRoundTrip.Column(q);
    BlockUnpacks(level, q, Walk(l, q.origPtr, |l| + 2)[|l|]);
  }

  /** One block, its checksum accepted, and on to the next. */
  lemma SessionBlock(table: CrcTable, level: nat, q: Plan, rest: Bits, combined: u32)
    requires GoodPlan(level, q)
    ensures Valid(BlockMark(level, 1)) && !Halted(BlockMark(level, 1))
    ensures var crc := BlockCrcOf(table, Expand(q.runs));
            var d := Session(table, BlockMark(level, 1), rest, Combine(combined, crc));
            Session(table, BlockMark(level, 1), BlockBits(table, level, q) + rest, combined) == Decoded(Expand(q.runs) + d.out, d.verdict)
  {
    hide *;
    SessionStored(table, BlockCrcOf(table, Expand(q.runs)), level, q, rest, combined);
    BlockBitsAre(table, level, q);
  }

  lemma BlockBitsAre(table: CrcTable, level: nat, q: Plan)
    requires GoodPlan(level, q)
    ensures BlockBits(table, level, q) == StoredBits(BlockCrcOf(table, Expand(q.runs)), level, q)
  {
  }

  lemma {:induction false} SessionBlocks(table: CrcTable, level: nat, qs: seq<Plan>, combined: u32, pad: Bits)
    requires GoodPlans(level, qs)
    ensures Valid(BlockMark(level, 1)) && !Halted(BlockMark(level, 1))
    ensures Session(table, BlockMark(level, 1), BlocksBits(table, level, qs) + (StreamTail(CombinedFrom(table, combined, qs)) + pad), combined)
         == Decoded(Content(qs), StreamEnd)
    decreases |qs|
  {
    hide Session, BlockBits, Valid, GoodPlan, Combine, BlockCrcOf, StreamTail, Expand;
    MarkValid(level);
    if qs == [] {
      var tail := StreamTail(combined) + pad;
      SessionEnds(table, level, combined, pad);
      assert [] + tail == tail;
    } else {
      var c := Combine(combined, BlockCrcOf(table, Expand(qs[0].runs)));
      var tail := StreamTail(CombinedFrom(table, c, qs[1..])) + pad;
      var rest := BlocksBits(table, level, qs[1..]) + tail;
      SessionBlocks(table, level, qs[1..], c, pad);
      SessionBlock(table, level, qs[0], rest, combined);
      ConcatAssoc(BlockBits(table, level, qs[0]), BlocksBits(table, level, qs[1..]), tail);
    }
  }

  /**
   * Decompressing a compressed stream gives back the bytes of its blocks and accepts every checksum,
   * whatever order the sorter gave equal rotations, whatever tables were chosen, and whatever follows the stream.
   */
  lemma StreamRoundTrip(table: CrcTable, level: nat, qs: seq<Plan>, pad: Bits)
    requires GoodPlans(level, qs)
    ensures Decompressed(table, StreamBits(table, level, qs) + pad) == Decoded(Content(qs), StreamEnd)
  {
    hide *;
    PlansLevel(level, qs);
    MarkValid(level);
    DecompressedIs(table, StreamBits(table, level, qs) + pad);
    var mid := BlocksBits(table, level, qs);
    var tail := StreamTail(CombinedFrom(table, 0, qs));
    var rest := mid + (tail + pad);
    SessionBlocks(table, level, qs, 0, pad);
    StreamHeadTakes(level);
    StreamParts(table, level, qs);
    ConcatAssoc(StreamHead(level) + mid, tail, pad);
    ConcatAssoc(StreamHead(level), mid, tail + pad);
    SessionSkips(table, Magic(1), StreamHead(level), BlockMark(level, 1), rest, 0);
  }

  lemma DecompressedIs(table: CrcTable, bits: Bits)
    ensures Valid(Magic(1)) && !Halted(Magic(1)) && Decompressed(table, bits) == Session(table, Magic(1), bits, 0)
  {
    MarkValid(1);
  }

  lemma PlansLevel(level: nat, qs: seq<Plan>)
    requires GoodPlans(level, qs)
    ensures 1 <= level <= 9
  {
  }

  lemma StreamParts(table: CrcTable, level: nat, qs: seq<Plan>)
    requires GoodPlans(level, qs)
    ensures StreamBits(table, level, qs) == (StreamHead(level) + BlocksBits(table, level, qs)) + StreamTail(CombinedFrom(table, 0, qs))
  {
  }

  /** Bits that only lead to another waiting state produce no output of their own. */
  lemma SessionSkips(table: CrcTable, s: State, bits: Bits, t: State, rest: Bits, combined: u32)
    requires Takes(s, bits, t) && Valid(s) && !Halted(s) && Valid(t) && !Halted(t)
    ensures Session(table, s, bits + rest, combined) == Session(table, t, rest, combined)
  {
    hide Valid, Step, Need, Unpack, Walk, BlockCrcOf, Combine;
    RunAppend(s, bits, rest);
    assert [] + rest == rest;
  }
}
