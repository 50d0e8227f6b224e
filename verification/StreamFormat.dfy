// What stands in a compressed stream, in numbers: the marks, the fields and
// their widths, and which streams are refused at their beginning.
module StreamFormat {
  import opened Words
  import opened Bits
  import opened RunLength
  import opened Alphabet
  import opened Mtf
  import opened Crc
  import opened Canonical
  import opened Decoder
  import opened DecoderRun
  import opened BlockFormat
  import opened BlockDecoding
  import opened BlockRoundTrip
  import opened Stream

  // Numbers in a row.

  /** A word behind another is one longer word. */
  lemma {:induction false} JoinWords(a: nat, b: nat, n: nat, m: nat)
    requires b < Pow2(m)
    ensures ToBits(a * Pow2(m) + b, n + m) == ToBits(a, n) + ToBits(b, m)
    decreases m
  {
    if m == 0 {
      assert ToBits(a, n) + [] == ToBits(a, n);
    } else {
      JoinWords(a, b / 2, n, m - 1);
      DoubleProduct(a, Pow2(m - 1));
      var v := a * Pow2(m) + b;
      assert v / 2 == a * Pow2(m - 1) + b / 2 && v % 2 == b % 2;
      ConcatAssoc(ToBits(a, n), ToBits(b / 2, m - 1), [b % 2 == 1]);
    }
  }

  lemma JoinByte(a: nat, b: nat, n: nat)
    requires b < 256
    ensures ToBits(256 * a + b, n + 8) == ToBits(a, n) + ToBits(b, 8)
  {
    hide ToBits;
    Pow2Of32();
    JoinWords(a, b, n, 8);
  }

  ghost function FromBytes(w: seq<nat>): (b: Bits)
    ensures |b| == 8 * |w|
  {
    if w == [] then [] else ToBits(w[0], 8) + FromBytes(w[1..])
  }

  /** The number that bytes spell. */
  function Number(w: seq<nat>): nat {
    if w == [] then 0 else 256 * Number(w[..|w| - 1]) + w[|w| - 1]
  }

  lemma {:induction false} FromBytesSnoc(w: seq<nat>, x: nat)
    ensures FromBytes(w + [x]) == FromBytes(w) + ToBits(x, 8)
    decreases |w|
  {
    hide ToBits;
    if w == [] {
      assert [] + [x] == [x] && [x][1..] == [];
      assert ToBits(x, 8) + [] == [] + ToBits(x, 8);
    } else {
      FromBytesSnoc(w[1..], x);
      assert (w + [x])[1..] == w[1..] + [x];
      ConcatAssoc(ToBits(w[0], 8), FromBytes(w[1..]), ToBits(x, 8));
    }
  }

  lemma {:induction false} Spelled(w: seq<nat>)
    requires forall i :: 0 <= i < |w| ==> w[i] < 256
    ensures FromBytes(w) == ToBits(Number(w), 8 * |w|)
    decreases |w|
  {
    hide ToBits, FromBytes;
    if w == [] {
      NoBytes();
    } else {
      var n := |w| - 1;
      Spelled(w[..n]);
      FromBytesSnoc(w[..n], w[n]);
      assert w[..n] + [w[n]] == w;
      JoinByte(Number(w[..n]), w[n], 8 * n);
    }
  }

  lemma NoBytes()
    ensures FromBytes([]) == [] == ToBits(0, 0)
  {
  }

  lemma NumberSnoc(w: seq<nat>, x: nat)
    ensures Number(w + [x]) == 256 * Number(w) + x && Number([]) == 0
  {
    assert (w + [x])[..|w|] == w;
  }

  lemma FourBytes(a: nat, b: nat, c: nat, d: nat)
    ensures Number([a, b, c, d]) == 256 * (256 * (256 * a + b) + c) + d
    ensures FromBytes([a, b, c, d]) == ToBits(a, 8) + ToBits(b, 8) + ToBits(c, 8) + ToBits(d, 8)
  {
    hide *;
    TwoBytes(a, b);
    ByteBehind([a, b], c, [a, b, c]);
    ByteBehind([a, b, c], d, [a, b, c, d]);
  }

  lemma ByteBehind(w: seq<nat>, x: nat, all: seq<nat>)
    requires |all| == |w| + 1 && all[..|w|] == w && all[|w|] == x
    ensures Number(all) == 256 * Number(w) + x && FromBytes(all) == FromBytes(w) + ToBits(x, 8)
  {
    hide *;
    assert all == w + [x];
    NumberSnoc(w, x);
    FromBytesSnoc(w, x);
  }

  lemma TwoBytes(a: nat, b: nat)
    ensures Number([a, b]) == 256 * a + b && FromBytes([a, b]) == ToBits(a, 8) + ToBits(b, 8)
  {
    hide *;
    NumberSnoc([], a);
    NoBytes();
    ByteBehind([], a, [a]);
    ByteBehind([a], b, [a, b]);
    assert [] + ToBits(a, 8) == ToBits(a, 8);
  }

  lemma SixBytes(a: nat, b: nat, c: nat, d: nat, e: nat, f: nat)
    ensures Number([a, b, c, d, e, f]) == 256 * (256 * (256 * (256 * (256 * a + b) + c) + d) + e) + f
  {
    hide *;
    FourBytes(a, b, c, d);
    ByteBehind([a, b, c, d], e, [a, b, c, d, e]);
    ByteBehind([a, b, c, d, e], f, [a, b, c, d, e, f]);
  }

  // The marks.

  ghost function HeadBytes(level: nat): seq<nat> { [0x42, 0x5a, 0x68, 0x30 + level] }
  ghost const BLOCK_MARK: seq<nat> := [0x31, 0x41, 0x59, 0x26, 0x53, 0x59]
  ghost const END_MARK: seq<nat> := [0x17, 0x72, 0x45, 0x38, 0x50, 0x90]

  lemma HeadIs(level: nat)
    requires 1 <= level <= 9
    ensures StreamHead(level) == ToBits(0x425a6830 + level, 32) == FromBytes(HeadBytes(level))
  {
    hide ToBits, FromBytes, Number;
    FourBytes(0x42, 0x5a, 0x68, 0x30 + level);
    Spelled(HeadBytes(level));
  }

  lemma MarksAre()
    ensures BlockMarkFrom(1) == ToBits(0x314159265359, 48) == FromBytes(BLOCK_MARK)
    ensures EndMarkFrom(1) == ToBits(0x177245385090, 48) == FromBytes(END_MARK)
  {
    hide ToBits, FromBytes, Number, BlockMarkFrom, EndMarkFrom;
    Spelled(BLOCK_MARK);
    Spelled(END_MARK);
    assert BLOCK_MARK[0..] == BLOCK_MARK && END_MARK[0..] == END_MARK;
    SixBytes(0x31, 0x41, 0x59, 0x26, 0x53, 0x59);
    SixBytes(0x17, 0x72, 0x45, 0x38, 0x50, 0x90);
    BlockMarkBytes(1);
    EndMarkBytes(1);
  }

  lemma {:induction false} BlockMarkBytes(k: nat)
    requires 1 <= k <= 7
    ensures BlockMarkFrom(k) == FromBytes(BLOCK_MARK[k - 1..])
    decreases 7 - k
  {
    hide ToBits;
    if k < 7 {
      BlockMarkBytes(k + 1);
      assert BLOCK_MARK[k - 1..][1..] == BLOCK_MARK[k..];
    }
  }

  lemma {:induction false} EndMarkBytes(k: nat)
    requires 1 <= k <= 7
    ensures EndMarkFrom(k) == FromBytes(END_MARK[k - 1..])
    decreases 7 - k
  {
    hide ToBits;
    if k < 7 {
      EndMarkBytes(k + 1);
      assert END_MARK[k - 1..][1..] == END_MARK[k..];
    }
  }

  // Whole streams.

  /** A stream: four bytes with the block size, the blocks, the end mark and the checksum of all blocks. */
  lemma StreamIs(table: CrcTable, level: nat, qs: seq<Plan>)
    requires GoodPlans(level, qs)
    ensures StreamBits(table, level, qs)
         == ToBits(0x425a6830 + level, 32) + BlocksBits(table, level, qs) + (ToBits(0x177245385090, 48) + ToBits(CombinedFrom(table, 0, qs), 32))
  {
    hide ToBits, BlocksBits, CombinedFrom, StreamHead, EndMarkFrom, GoodPlan;
    HeadIs(level);
    MarksAre();
  }

  /** The stream of no bytes. */
  lemma EmptyStream(table: CrcTable, level: nat)
    requires 1 <= level <= 9
    ensures GoodPlans(level, [])
    ensures StreamBits(table, level, []) == ToBits(0x425a6830 + level, 32) + ToBits(0x177245385090, 48) + ToBits(0, 32)
  {
    hide ToBits, StreamBits;
    StreamIs(table, level, []);
    ConcatAssoc(ToBits(0x425a6830 + level, 32), ToBits(0x177245385090, 48), ToBits(0, 32));
    assert ToBits(0x425a6830 + level, 32) + [] == ToBits(0x425a6830 + level, 32);
  }

  /** A block: its mark, a checksum, which is that of its bytes, a zero bit, the index of the unrotated block in 24 bits, and the sections. */
  lemma BlockIs(table: CrcTable, crc: u32, level: nat, q: Plan)
    requires GoodPlan(level, q)
    ensures forall i :: 0 <= i < |q.selector| ==> q.selector[i] in Iota(q.nGroups)
    ensures Codable(q.lens, AlphaSize(q.inUse), q.selector, Mtfv(q))
    ensures BlockBits(table, level, q) == StoredBits(BlockCrcOf(table, Expand(q.runs)), level, q)
    ensures StoredBits(crc, level, q)
         == ToBits(0x314159265359, 48) + ToBits(crc, 32) + [false] + ToBits(q.origPtr, 24)
            + MappingBits(q.inUse)
            + (ToBits(q.nGroups, 3) + ToBits(|q.selector|, 15) + UnaryFrom(SelectorMtf(Iota(q.nGroups), q.selector), 0))
            + TablesFrom(q.lens, AlphaSize(q.inUse), 0) + DataFrom(q.lens, AlphaSize(q.inUse), q.selector, Mtfv(q), 0)
  {
    hide ToBits, BlockMarkFrom, BlockCrcOf, Expand, MappingBits, UnaryFrom, SelectorMtf, TablesFrom, DataFrom, Mtfv, AlphaSize, Tables,
         StoredRuns, SortedBlock, Codable;
    MarksAre();
    PlanCodable(level, q);
    SelectorsListed(q.nGroups, q.selector);
  }

  /** Another block: its bits behind those of the blocks before, and its checksum combined with theirs. */
  lemma {:induction false} BlocksGrow(table: CrcTable, level: nat, c: u32, qs: seq<Plan>, q: Plan)
    requires GoodPlans(level, qs) && GoodPlan(level, q)
    ensures GoodPlans(level, qs + [q]) && BlocksBits(table, level, qs + [q]) == BlocksBits(table, level, qs) + BlockBits(table, level, q)
    ensures CombinedFrom(table, c, qs + [q]) == Combine(CombinedFrom(table, c, qs), BlockCrcOf(table, Expand(q.runs)))
    ensures Content(qs + [q]) == Content(qs) + Expand(q.runs)
    decreases |qs|
  {
    hide BlockBits, GoodPlan, Combine, BlockCrcOf, Expand;
    if qs == [] {
      assert ([q])[1..] == [] && [] + [q] == [q];
      assert BlockBits(table, level, q) + [] == BlockBits(table, level, q) && [] + BlockBits(table, level, q) == BlockBits(table, level, q);
      assert Expand(q.runs) + [] == Expand(q.runs) && [] + Expand(q.runs) == Expand(q.runs);
    } else {
      var c2 := Combine(c, BlockCrcOf(table, Expand(qs[0].runs)));
      BlocksGrow(table, level, c2, qs[1..], q);
      assert (qs + [q])[0] == qs[0] && (qs + [q])[1..] == qs[1..] + [q];
      ConcatAssoc(BlockBits(table, level, qs[0]), BlocksBits(table, level, qs[1..]), BlockBits(table, level, q));
      ConcatAssoc(Expand(qs[0].runs), Content(qs[1..]), Expand(q.runs));
    }
  }

  /** The stream of one block ends with that block's checksum. */
  lemma OneBlock(table: CrcTable, level: nat, q: Plan)
    requires GoodPlan(level, q) && 1 <= level <= 9
    ensures GoodPlans(level, [q])
    ensures StreamBits(table, level, [q])
         == ToBits(0x425a6830 + level, 32) + BlockBits(table, level, q)
            + (ToBits(0x177245385090, 48) + ToBits(BlockCrcOf(table, Expand(q.runs)), 32))
  {
    hide *;
    NoPlans(table, level);
    BlocksGrow(table, level, 0, [], q);
    assert [] + [q] == [q] && [] + BlockBits(table, level, q) == BlockBits(table, level, q);
    CombineFirst(BlockCrcOf(table, Expand(q.runs)));
    StreamIs(table, level, [q]);
  }

  lemma NoPlans(table: CrcTable, level: nat)
    requires 1 <= level <= 9
    ensures GoodPlans(level, []) && BlocksBits(table, level, []) == [] && CombinedFrom(table, 0, []) == 0
  {
  }

  // Which streams are refused at their beginning.

  lemma {:induction false} ToFromBits(b: Bits)
    ensures ToBits(FromBits(b), |b|) == b
    decreases |b|
  {
    if b != [] {
      ToFromBits(b[..|b| - 1]);
    }
  }

  /** Reading one byte either ends everything or leaves the rest to the next state. */
  lemma SessionByte(table: CrcTable, s: State, bits: Bits, combined: u32) returns (v: nat)
    requires Valid(s) && !Halted(s) && Need(s) == 8 && |bits| >= 8
    ensures v < 256 && bits[..8] == ToBits(v, 8) && Valid(Step(s, v))
    ensures Step(s, v).Failed? ==> Session(table, s, bits, combined) == Decoded([], if Step(s, v).error.BadMagic? then MagicError else DataError)
    ensures Step(s, v).Ended? ==> Session(table, s, bits, combined) == Decoded([], if Step(s, v).crc == combined then StreamEnd else DataError)
    ensures !Halted(Step(s, v)) ==> Session(table, s, bits, combined) == Session(table, Step(s, v), bits[8..], combined)
  {
    hide Step, Valid, Need, ToBits, FromBits, BlockOutput, BlockCrcOf, Combine, DecoderRun.Run;
    v := FromBits(bits[..8]);
    ToFromBits(bits[..8]);
    Pow2Of32();
    StepValid(s, v);
    RunByte(s, bits, v);
    RunHalted(Step(s, v), bits[8..]);
  }

  lemma RunByte(s: State, bits: Bits, v: nat)
    requires Valid(s) && !Halted(s) && Need(s) == 8 && |bits| >= 8 && v == FromBits(bits[..8])
    ensures Valid(Step(s, v)) && DecoderRun.Run(s, bits) == DecoderRun.Run(Step(s, v), bits[8..])
  {
    hide Step, Valid, Need;
    Pow2Of32();
    StepValid(s, v);
  }

  lemma RunHalted(s: State, bits: Bits)
    requires Valid(s)
    ensures Halted(s) ==> DecoderRun.Run(s, bits) == Paused(s, bits)
  {
    hide Step, Valid, Need;
  }

  /** Too few bits for a byte. */
  lemma SessionShort(table: CrcTable, s: State, bits: Bits, combined: u32)
    requires Valid(s) && !Halted(s) && Need(s) == 8 && |bits| < 8
    ensures Session(table, s, bits, combined) == Decoded([], OutOfInput)
  {
    hide Step, Valid, BlockOutput, BlockCrcOf, Combine;
  }

  /** Behind the stream head nothing is a wrong head. */
  ghost predicate Past(s: State) {
    !s.Magic? && s != Failed(BadMagic)
  }

  lemma PastStep(s: State, v: nat)
    requires Valid(s) && Past(s)
    ensures Past(Step(s, v))
  {
    hide Rank, Pow2, SkipUnused, UnMtf, Reachable, MinLen, SeqToUnseq, TableOf, MatchCode, Mtf.OnSymbol;
  }

  lemma {:induction false} PastRun(s: State, bits: Bits)
    requires Valid(s) && Past(s)
    ensures Past(DecoderRun.Run(s, bits).state)
    decreases |bits|
  {
    hide Step, Valid, Need, Past;
    if !(Halted(s) || |bits| < Need(s)) {
      NeedPositive(s);
      StepValid(s, FromBits(bits[..Need(s)]));
      PastStep(s, FromBits(bits[..Need(s)]));
      PastRun(Step(s, FromBits(bits[..Need(s)])), bits[Need(s)..]);
    }
  }

  lemma OutputCrc(s: State)
    requires Valid(s) && s.Output?
    ensures s.h.crc < 0x1_0000_0000
  {
  }

  lemma {:induction false} PastSession(table: CrcTable, s: State, bits: Bits, combined: u32)
    requires Valid(s) && !Halted(s) && Past(s)
    ensures Session(table, s, bits, combined).verdict != MagicError
    decreases |bits|
  {
    hide Step, Valid, Need, DecoderRun.Run, BlockOutput, BlockCrcOf, Combine;
    var r := DecoderRun.Run(s, bits);
    RunShrinks(s, bits);
    PastRun(s, bits);
    if r.state.Output? {
      OutputState(r.state);
      OutputCrc(r.state);
      MarkValid(r.state.h.level);
      PastSession(table, BlockMark(r.state.h.level, 1), r.rest, Combine(combined, r.state.h.crc));
    }
  }

  /** The whole bytes of bits, as far as word goes, are those of word. */
  ghost predicate Agrees(bits: Bits, word: Bits) {
    var n := if |bits| < |word| then |bits| / 8 * 8 else |word|;
    bits[..n] == word[..n]
  }

  lemma AgreesByte(bits: Bits, v: nat, x: nat, rest: Bits)
    requires |bits| >= 8 && bits[..8] == ToBits(v, 8) && v < 256 && x < 256 && |rest| % 8 == 0
    ensures Agrees(bits, ToBits(x, 8) + rest) <==> v == x && Agrees(bits[8..], rest)
  {
    hide *;
    Pow2Of32();
    FromToBits(v, 8);
    FromToBits(x, 8);
    var word := ToBits(x, 8) + rest;
    Behind(ToBits(x, 8), rest);
    AgreesSplit(bits, word);
  }

  lemma Behind(a: Bits, b: Bits)
    ensures (a + b)[..|a|] == a && (a + b)[|a|..] == b
  {
  }

  lemma AgreesSplit(bits: Bits, word: Bits)
    requires |bits| >= 8 && |word| >= 8 && |word| % 8 == 0
    ensures Agrees(bits, word) <==> bits[..8] == word[..8] && Agrees(bits[8..], word[8..])
  {
    var n := if |bits| < |word| then |bits| / 8 * 8 else |word|;
    assert n - 8 == if |bits[8..]| < |word[8..]| then |bits[8..]| / 8 * 8 else |word[8..]|;
    PrefixSplit(bits, word, n);
  }

  lemma PrefixSplit(s: Bits, t: Bits, n: nat)
    requires 8 <= n <= |s| && n <= |t|
    ensures s[..n] == t[..n] <==> s[..8] == t[..8] && s[8..][..n - 8] == t[8..][..n - 8]
  {
    assert s[..n] == s[..8] + s[8..][..n - 8] && t[..n] == t[..8] + t[8..][..n - 8];
  }

  /** Some block size makes the rest of a stream head agree. */
  ghost predicate HeadAgrees(bits: Bits, k: nat)
    requires 1 <= k <= 4
  {
    exists level: nat {:trigger HeadBytes(level)} :: 1 <= level <= 9 && Agrees(bits, FromBytes(HeadBytes(level)[k - 1..]))
  }

  lemma ShortAgrees(bits: Bits, k: nat)
    requires 1 <= k <= 4 && |bits| < 8
    ensures HeadAgrees(bits, k)
  {
    hide FromBytes;
    assert Agrees(bits, FromBytes(HeadBytes(1)[k - 1..]));
  }

  lemma HeadRest(level: nat, k: nat)
    requires 1 <= k <= 4
    ensures var w := HeadBytes(level)[k - 1..];
            FromBytes(w) == ToBits(w[0], 8) + FromBytes(HeadBytes(level)[k..]) && |FromBytes(HeadBytes(level)[k..])| == 8 * (4 - k)
    ensures HeadBytes(level)[k - 1..][0] == if k == 1 then 0x42 else if k == 2 then 0x5a else if k == 3 then 0x68 else 0x30 + level
  {
    hide ToBits;
    assert HeadBytes(level)[k - 1..][1..] == HeadBytes(level)[k..];
  }

  lemma {:induction false} MagicFrom(table: CrcTable, k: nat, bits: Bits)
    requires 1 <= k <= 4
    ensures Valid(Magic(k)) && !Halted(Magic(k))
    ensures Session(table, Magic(k), bits, 0).verdict == MagicError <==> !HeadAgrees(bits, k)
    decreases 5 - k
  {
    hide *;
    MagicSteps(k);
    if |bits| < 8 {
      SessionShort(table, Magic(k), bits, 0);
      ShortAgrees(bits, k);
    } else {
      var v := SessionByte(table, Magic(k), bits, 0);
      MagicStep(k, v);
      if k < 4 {
        MagicFrom(table, k + 1, bits[8..]);
        HeadByte(bits, v, k);
      } else {
        LastByte(bits, v);
        if 0x31 <= v <= 0x39 {
          MarkValid(v - 0x30);
          MarkPast(v - 0x30);
          PastSession(table, BlockMark(v - 0x30, 1), bits[8..], 0);
        }
      }
    }
  }

  lemma MagicSteps(k: nat)
    requires 1 <= k <= 4
    ensures Valid(Magic(k)) && !Halted(Magic(k)) && Need(Magic(k)) == 8
  {
  }

  lemma MagicStep(k: nat, v: nat)
    requires 1 <= k <= 4
    ensures var t := Step(Magic(k), v);
            if k == 1 then t == (if v == 0x42 then Magic(2) else Failed(BadMagic))
            else if k == 2 then t == (if v == 0x5a then Magic(3) else Failed(BadMagic))
            else if k == 3 then t == (if v == 0x68 then Magic(4) else Failed(BadMagic))
            else t == if 0x31 <= v <= 0x39 then BlockMark(v - 0x30, 1) else Failed(BadMagic)
    ensures Halted(Failed(BadMagic)) && (k < 4 ==> !Halted(Magic(k + 1)))
  {
  }

  lemma MarkPast(level: nat)
    ensures Past(BlockMark(level, 1))
  {
  }

  /** A byte of the head, and the rest. */
  lemma HeadByte(bits: Bits, v: nat, k: nat)
    requires 1 <= k <= 3 && |bits| >= 8 && bits[..8] == ToBits(v, 8) && v < 256
    ensures HeadAgrees(bits, k) <==> v == (if k == 1 then 0x42 else if k == 2 then 0x5a else 0x68) && HeadAgrees(bits[8..], k + 1)
  {
    hide ToBits, FromBytes, Agrees;
    forall level: nat
      ensures Agrees(bits, FromBytes(HeadBytes(level)[k - 1..])) <==>
              v == (if k == 1 then 0x42 else if k == 2 then 0x5a else 0x68) && Agrees(bits[8..], FromBytes(HeadBytes(level)[k..]))
    {
      HeadRest(level, k);
      AgreesByte(bits, v, HeadBytes(level)[k - 1], FromBytes(HeadBytes(level)[k..]));
    }
  }

  lemma LastByte(bits: Bits, v: nat)
    requires |bits| >= 8 && bits[..8] == ToBits(v, 8) && v < 256
    ensures HeadAgrees(bits, 4) <==> 0x31 <= v <= 0x39
  {
    hide ToBits, FromBytes, Agrees;
    forall level: nat | 1 <= level <= 9 ensures Agrees(bits, FromBytes(HeadBytes(level)[3..])) <==> v == 0x30 + level {
      HeadRest(level, 4);
      AgreesByte(bits, v, 0x30 + level, FromBytes(HeadBytes(level)[4..]));
      NothingLeft(bits[8..], level);
    }
    if 0x31 <= v <= 0x39 {
      assert HeadBytes(v - 0x30) == HeadBytes(v - 0x30);
    }
  }

  lemma NothingLeft(bits: Bits, level: nat)
    ensures Agrees(bits, FromBytes(HeadBytes(level)[4..]))
  {
    assert HeadBytes(level)[4..] == [];
  }

  /**
   * A stream is refused as no such stream exactly if its whole bytes, as far as there are any, are not the beginning of
   * "BZh" with a digit from 1 to 9.
   */
  lemma MagicExact(table: CrcTable, bits: Bits)
    ensures Decompressed(table, bits).verdict == MagicError <==>
            forall word: nat :: 0x425a6831 <= word <= 0x425a6839 ==> !Agrees(bits, ToBits(word, 32))
  {
    hide *;
    MagicFrom(table, 1, bits);
    DecompressedIs(table, bits);
    if HeadAgrees(bits, 1) {
      var word := HeadWord(bits);
    }
    forall word: nat | 0x425a6831 <= word <= 0x425a6839 && Agrees(bits, ToBits(word, 32)) ensures HeadAgrees(bits, 1) {
      WordHead(bits, word);
    }
  }

  lemma HeadWord(bits: Bits) returns (word: nat)
    requires HeadAgrees(bits, 1)
    ensures 0x425a6831 <= word <= 0x425a6839 && Agrees(bits, ToBits(word, 32))
  {
    hide Agrees, ToBits, FromBytes;
    var level: nat :| 1 <= level <= 9 && Agrees(bits, FromBytes(HeadBytes(level)[0..]));
    word := 0x425a6830 + level;
    WholeHead(level);
    HeadIs(level);
  }

  lemma WordHead(bits: Bits, word: nat)
    requires 0x425a6831 <= word <= 0x425a6839 && Agrees(bits, ToBits(word, 32))
    ensures HeadAgrees(bits, 1)
  {
    hide Agrees, ToBits, FromBytes;
    var level: nat := word - 0x425a6830;
    WholeHead(level);
    HeadIs(level);
    assert Agrees(bits, FromBytes(HeadBytes(level)[0..]));
  }

  lemma WholeHead(level: nat)
    ensures |HeadBytes(level)| == 4 && HeadBytes(level)[0..] == HeadBytes(level)
  {
  }

  // What follows the head.

  lemma SpellByte(bits: Bits, v: nat, w: seq<nat>)
    requires w != [] && |bits| >= 8 * |w| && bits[..8] == ToBits(v, 8) && v < 256 && w[0] < 256
    ensures bits[..8 * |w|] == FromBytes(w) <==> v == w[0] && bits[8..][..8 * (|w| - 1)] == FromBytes(w[1..])
  {
    hide *;
    Pow2Of32();
    FromToBits(v, 8);
    FromToBits(w[0], 8);
    FirstByte(w);
    WholePrefix(FromBytes(w), 8 * |w|);
    WholePrefix(FromBytes(w[1..]), 8 * |w| - 8);
    PrefixSplit(bits, FromBytes(w), 8 * |w|);
  }

  lemma FirstByte(w: seq<nat>)
    requires w != []
    ensures FromBytes(w)[..8] == ToBits(w[0], 8) && FromBytes(w)[8..] == FromBytes(w[1..])
  {
    hide ToBits;
    Behind(ToBits(w[0], 8), FromBytes(w[1..]));
  }

  lemma WholePrefix(b: Bits, n: nat)
    requires |b| == n
    ensures b[..n] == b
  {
  }

  lemma MarkStep(level: nat, k: nat, v: nat)
    requires 1 <= level <= 9 && 1 <= k <= 6
    ensures Valid(BlockMark(level, k)) && !Halted(BlockMark(level, k)) && Need(BlockMark(level, k)) == 8
    ensures var t := Step(BlockMark(level, k), v);
            if k == 1 && v == END_MARK[0] then t == EndMark(level, 2)
            else if v != BLOCK_MARK[k - 1] then t == Failed(BadData)
            else k < 6 ==> t == BlockMark(level, k + 1)
  {
  }

  lemma EndStep(level: nat, k: nat, v: nat)
    requires 1 <= level <= 9 && 2 <= k <= 6
    ensures Valid(EndMark(level, k)) && !Halted(EndMark(level, k)) && Need(EndMark(level, k)) == 8
    ensures var t := Step(EndMark(level, k), v);
            if v != END_MARK[k - 1] then t == Failed(BadData) else k < 6 ==> t == EndMark(level, k + 1)
  {
  }

  lemma MarkTails(k: nat)
    requires 1 <= k <= 6
    ensures |BLOCK_MARK| == 6 && |END_MARK| == 6 && |BLOCK_MARK[k - 1..]| == |END_MARK[k - 1..]| == 7 - k
    ensures BLOCK_MARK[k - 1..][0] == BLOCK_MARK[k - 1] < 256 && END_MARK[k - 1..][0] == END_MARK[k - 1] < 256
    ensures BLOCK_MARK[k - 1..][1..] == BLOCK_MARK[k..] && END_MARK[k - 1..][1..] == END_MARK[k..]
    ensures k == 6 ==> BLOCK_MARK[k..] == [] && END_MARK[k..] == []
    ensures BLOCK_MARK[0..] == BLOCK_MARK && END_MARK[0..] == END_MARK && |END_MARK| == 6 && BLOCK_MARK[0] != END_MARK[0]
  {
  }

  lemma MarkByte(k: nat, bits: Bits, v: nat)
    requires 1 <= k <= 6 && |bits| >= 8 * (7 - k) && bits[..8] == ToBits(v, 8) && v < 256
    ensures |BLOCK_MARK| == 6 && |END_MARK| == 6
    ensures bits[..8 * (7 - k)] == FromBytes(BLOCK_MARK[k - 1..]) <==>
              v == BLOCK_MARK[k - 1] && (k < 6 ==> bits[8..][..8 * (6 - k)] == FromBytes(BLOCK_MARK[k..]))
    ensures bits[..8 * (7 - k)] == FromBytes(END_MARK[k - 1..]) <==>
              v == END_MARK[k - 1] && (k < 6 ==> bits[8..][..8 * (6 - k)] == FromBytes(END_MARK[k..]))
  {
    hide *;
    MarkTails(k);
    NoBytes();
    SpellByte(bits, v, BLOCK_MARK[k - 1..]);
    SpellByte(bits, v, END_MARK[k - 1..]);
  }

  lemma BadHalts()
    ensures Failed(BadData).Failed? && Halted(Failed(BadData)) && !Failed(BadData).error.BadMagic?
  {
  }

  lemma {:induction false} WrongEnd(table: CrcTable, level: nat, k: nat, bits: Bits, combined: u32)
    requires 1 <= level <= 9 && 2 <= k <= 6 && |END_MARK| == 6 && |bits| >= 8 * (7 - k) && bits[..8 * (7 - k)] != FromBytes(END_MARK[k - 1..])
    ensures Valid(EndMark(level, k)) && !Halted(EndMark(level, k)) && Session(table, EndMark(level, k), bits, combined) == Decoded([], DataError)
    decreases 7 - k
  {
    hide *;
    EndStep(level, k, 0);
    var v := SessionByte(table, EndMark(level, k), bits, combined);
    EndStep(level, k, v);
    MarkByte(k, bits, v);
    BadHalts();
    if v == END_MARK[k - 1] {
      WrongEnd(table, level, k + 1, bits[8..], combined);
    }
  }

  /** Behind the first byte of a block's mark. */
  lemma {:induction false} WrongRest(table: CrcTable, level: nat, k: nat, bits: Bits, combined: u32)
    requires 1 <= level <= 9 && 2 <= k <= 6 && |BLOCK_MARK| == 6 && |bits| >= 8 * (7 - k) && bits[..8 * (7 - k)] != FromBytes(BLOCK_MARK[k - 1..])
    ensures Valid(BlockMark(level, k)) && !Halted(BlockMark(level, k)) && Session(table, BlockMark(level, k), bits, combined) == Decoded([], DataError)
    decreases 7 - k
  {
    hide *;
    MarkStep(level, k, 0);
    var v := SessionByte(table, BlockMark(level, k), bits, combined);
    MarkStep(level, k, v);
    MarkByte(k, bits, v);
    BadHalts();
    if v == BLOCK_MARK[k - 1] {
      WrongRest(table, level, k + 1, bits[8..], combined);
    }
  }

  lemma WrongMark(table: CrcTable, level: nat, bits: Bits, combined: u32)
    requires 1 <= level <= 9 && |bits| >= 48 && bits[..48] != FromBytes(BLOCK_MARK) && bits[..48] != FromBytes(END_MARK)
    ensures Valid(BlockMark(level, 1)) && !Halted(BlockMark(level, 1)) && Session(table, BlockMark(level, 1), bits, combined) == Decoded([], DataError)
  {
    hide *;
    MarkTails(1);
    MarkStep(level, 1, 0);
    var v := SessionByte(table, BlockMark(level, 1), bits, combined);
    MarkStep(level, 1, v);
    MarkByte(1, bits, v);
    BadHalts();
    if v == END_MARK[0] {
      EndStep(level, 2, 0);
      WrongEnd(table, level, 2, bits[8..], combined);
    } else if v == BLOCK_MARK[0] {
      MarkStep(level, 2, 0);
      WrongRest(table, level, 2, bits[8..], combined);
    }
  }

  /** The end mark and a checksum, where a block could begin. */
  lemma EndedThere(table: CrcTable, level: nat, crc: u32, rest: Bits, combined: u32)
    requires 1 <= level <= 9
    ensures Valid(BlockMark(level, 1)) && !Halted(BlockMark(level, 1))
    ensures Session(table, BlockMark(level, 1), StreamTail(crc) + rest, combined) == Decoded([], if crc == combined then StreamEnd else DataError)
  {
    hide Takes, DecoderRun.Run, StreamTail, Valid;
    MarkValid(level);
    StreamTailTakes(level, crc);
    TakesRest(BlockMark(level, 1), StreamTail(crc), Ended(crc), rest);
  }

  /**
   * Behind the head there is a block or the end: six other bytes are bad data, and the end of a stream without blocks
   * is good exactly if its checksum is zero.
   */
  lemma MarkExact(table: CrcTable, level: nat, bits: Bits)
    requires 1 <= level <= 9 && |bits| >= 80 && bits[..32] == ToBits(0x425a6830 + level, 32)
    ensures bits[32..80] != ToBits(0x314159265359, 48) && bits[32..80] != ToBits(0x177245385090, 48) ==>
              Decompressed(table, bits) == Decoded([], DataError)
    ensures bits[32..80] == ToBits(0x177245385090, 48) && |bits| >= 112 ==>
              Decompressed(table, bits) == Decoded([], if bits[80..112] == ToBits(0, 32) then StreamEnd else DataError)
  {
    hide *;
    HeadIs(level);
    MarksAre();
    MarkTails(1);
    MarkValid(level);
    DecompressedIs(table, bits);
    StreamHeadTakes(level);
    var rest := bits[32..];
    assert bits == bits[..32] + rest && rest[..48] == bits[32..80];
    SessionSkips(table, Magic(1), StreamHead(level), BlockMark(level, 1), rest, 0);
    if rest[..48] != FromBytes(BLOCK_MARK) && rest[..48] != FromBytes(END_MARK) {
      WrongMark(table, level, rest, 0);
    } else if rest[..48] == FromBytes(END_MARK) && |bits| >= 112 {
      var crc := EndedParts(rest, bits[80..112]);
      EndedThere(table, level, crc, rest[80..], 0);
    }
  }

  lemma EndedParts(rest: Bits, word: Bits) returns (crc: u32)
    requires |rest| >= 80 && rest[..48] == EndMarkFrom(1) && word == rest[48..80]
    ensures |StreamTail(crc)| == 80 && rest == StreamTail(crc) + rest[80..] && (crc == 0 <==> word == ToBits(0, 32))
  {
    hide ToBits, FromBits, EndMarkFrom;
    Pow2Of32();
    crc := FromBits(word);
    ToFromBits(word);
    FromToBits(0, 32);
    assert rest == rest[..48] + rest[48..80] + rest[80..];
  }
}
