// Streams in which other checksums are stored than those of their bytes: which
// of them are accepted, and how much of the others is handed out.
module Checksums {
  import opened Words
  import opened Bits
  import opened RunLength
  import opened Crc
  import opened Decoder
  import opened DecoderRun
  import opened BlockFormat
  import opened BlockDecoding
  import opened BlockRoundTrip
  import opened Stream
  import opened StreamFormat

  ghost predicate Fits(table: CrcTable, q: Plan, crc: u32) {
    BlockCrcOf(table, Expand(q.runs)) == crc
  }

  ghost function StoredBlocks(crcs: seq<u32>, level: nat, qs: seq<Plan>): Bits
    requires GoodPlans(level, qs) && |crcs| == |qs|
    decreases |qs|
  {
    if qs == [] then [] else StoredBits(crcs[0], level, qs[0]) + StoredBlocks(crcs[1..], level, qs[1..])
  }

  /** A stream of the blocks qs in which crcs and crc are stored as checksums. */
  ghost function StoredStream(crcs: seq<u32>, crc: u32, level: nat, qs: seq<Plan>): Bits
    requires GoodPlans(level, qs) && |crcs| == |qs|
  {
    StreamHead(level) + StoredBlocks(crcs, level, qs) + StreamTail(crc)
  }

  /** How many blocks there are in front of the first with a checksum that does not fit. */
  ghost function FirstWrong(table: CrcTable, crcs: seq<u32>, qs: seq<Plan>): (n: nat)
    requires |crcs| == |qs|
    ensures n <= |qs| && (n < |qs| ==> !Fits(table, qs[n], crcs[n])) && forall i :: 0 <= i < n ==> Fits(table, qs[i], crcs[i])
    decreases |qs|
  {
    if qs == [] || !Fits(table, qs[0], crcs[0]) then 0 else 1 + FirstWrong(table, crcs[1..], qs[1..])
  }

  lemma WrongNext(table: CrcTable, crcs: seq<u32>, qs: seq<Plan>)
    requires |crcs| == |qs|
    ensures qs == [] || !Fits(table, qs[0], crcs[0]) ==> FirstWrong(table, crcs, qs) == 0
    ensures qs != [] && Fits(table, qs[0], crcs[0]) ==> FirstWrong(table, crcs, qs) == 1 + FirstWrong(table, crcs[1..], qs[1..])
  {
  }

  lemma NoBlocksLeft(table: CrcTable, level: nat, combined: u32)
    requires 1 <= level <= 9
    ensures GoodPlans(level, []) && StoredBlocks([], level, []) == [] && CombinedFrom(table, combined, []) == combined && Content([]) == []
  {
  }

  lemma BlocksNext(table: CrcTable, crcs: seq<u32>, level: nat, qs: seq<Plan>, combined: u32)
    requires GoodPlans(level, qs) && |crcs| == |qs| && qs != []
    ensures GoodPlan(level, qs[0]) && GoodPlans(level, qs[1..])
    ensures StoredBlocks(crcs, level, qs) == StoredBits(crcs[0], level, qs[0]) + StoredBlocks(crcs[1..], level, qs[1..])
    ensures CombinedFrom(table, combined, qs) == CombinedFrom(table, Combine(combined, BlockCrcOf(table, Expand(qs[0].runs))), qs[1..])
    ensures Content(qs) == Expand(qs[0].runs) + Content(qs[1..])
    ensures Fits(table, qs[0], crcs[0]) <==> BlockCrcOf(table, Expand(qs[0].runs)) == crcs[0]
  {
    hide GoodPlan, StoredBits, Combine, BlockCrcOf, Expand;
  }

  lemma ContentTo(qs: seq<Plan>, n: nat)
    requires n < |qs|
    ensures Content(qs[..n + 1]) == Expand(qs[0].runs) + Content(qs[1..][..n]) && Content(qs[1..][..0]) == []
  {
    hide Expand;
    assert qs[..n + 1][0] == qs[0] && qs[..n + 1][1..] == qs[1..][..n];
  }

  /** From a place where a block can begin on. */
  lemma {:induction false} StoredSession(table: CrcTable, crcs: seq<u32>, crc: u32, level: nat, qs: seq<Plan>, combined: u32, pad: Bits)
    requires GoodPlans(level, qs) && |crcs| == |qs|
    ensures Valid(BlockMark(level, 1)) && !Halted(BlockMark(level, 1))
    ensures var n := FirstWrong(table, crcs, qs);
            Session(table, BlockMark(level, 1), StoredBlocks(crcs, level, qs) + (StreamTail(crc) + pad), combined) ==
              if n < |qs| then Decoded(Content(qs[..n + 1]), DataError)
              else Decoded(Content(qs), if crc == CombinedFrom(table, combined, qs) then StreamEnd else DataError)
    decreases |qs|
  {
    hide *;
    PlansLevel(level, qs);
    MarkValid(level);
    WrongNext(table, crcs, qs);
    var tail := StreamTail(crc) + pad;
    if qs == [] {
      NoBlocksLeft(table, level, combined);
      EndedThere(table, level, crc, pad, combined);
      assert [] + tail == tail;
    } else {
      BlocksNext(table, crcs, level, qs, combined);
      var rest := StoredBlocks(crcs[1..], level, qs[1..]) + tail;
      SessionStored(table, crcs[0], level, qs[0], rest, combined);
      ConcatAssoc(StoredBits(crcs[0], level, qs[0]), StoredBlocks(crcs[1..], level, qs[1..]), tail);
      StoredSession(table, crcs[1..], crc, level, qs[1..], Combine(combined, crcs[0]), pad);
      var n := FirstWrong(table, crcs, qs);
      if n < |qs| {
        ContentTo(qs, n);
        assert Expand(qs[0].runs) + [] == Expand(qs[0].runs);
      }
    }
  }

  /**
   * Which checksums are accepted: exactly those of the bytes of each block, and at the end the one combined of them. The
   * first block with another is the last to be handed out.
   */
  lemma ChecksumsExact(table: CrcTable, crcs: seq<u32>, crc: u32, level: nat, qs: seq<Plan>, pad: Bits)
    requires GoodPlans(level, qs) && |crcs| == |qs|
    ensures var d, n := Decompressed(table, StoredStream(crcs, crc, level, qs) + pad), FirstWrong(table, crcs, qs);
            && d.out == Content(if n < |qs| then qs[..n + 1] else qs) && (d.verdict == StreamEnd || d.verdict == DataError)
            && (d.verdict == StreamEnd <==>
                  (forall i :: 0 <= i < |qs| ==> Fits(table, qs[i], crcs[i])) && crc == CombinedFrom(table, 0, qs))
  {
    hide *;
    var bits := StoredStream(crcs, crc, level, qs) + pad;
    var mid := StoredBlocks(crcs, level, qs);
    PlansLevel(level, qs);
    MarkValid(level);
    DecompressedIs(table, bits);
    StoredSession(table, crcs, crc, level, qs, 0, pad);
    StreamHeadTakes(level);
    StoredParts(crcs, crc, level, qs);
    ConcatAssoc(StreamHead(level) + mid, StreamTail(crc), pad);
    ConcatAssoc(StreamHead(level), mid, StreamTail(crc) + pad);
    SessionSkips(table, Magic(1), StreamHead(level), BlockMark(level, 1), mid + (StreamTail(crc) + pad), 0);
  }

  lemma StoredParts(crcs: seq<u32>, crc: u32, level: nat, qs: seq<Plan>)
    requires GoodPlans(level, qs) && |crcs| == |qs|
    ensures StoredStream(crcs, crc, level, qs) == (StreamHead(level) + StoredBlocks(crcs, level, qs)) + StreamTail(crc)
  {
  }
}
