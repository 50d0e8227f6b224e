// How far a decompression has got, and what remains to be output whatever
// input is still to come.
module Progress {
  import opened Words
  import opened Bits
  import opened InverseBwt
  import opened RunLength
  import opened Mtf
  import opened Crc
  import opened Decoder
  import opened DecoderRun
  import opened BlockRoundTrip
  import opened Stream

  datatype Situation =
    | Reading(s: State)                          // inside a header or a block
    | Emitting(h: Header, u: Unpacked, crc: u32) // a block's remaining output, and the checksum of what went before
    | Over(v: Verdict)

  /** The decompressor between two calls: where it is, the checksum of the blocks so far, and the bits it holds. */
  datatype Point = Point(at: Situation, combined: u32, pending: Bits)

  ghost predicate Sensible(p: Point) {
    match p.at
    case Reading(s) => Valid(s) && !Halted(s)
    case Emitting(h, _, _) => ValidHeader(h)
    case Over(_) => true
  }

  /** The rest of a block's output, its checksum, and the blocks after it. */
  ghost function Emission(table: CrcTable, h: Header, u: Unpacked, crc: u32, combined: u32, bits: Bits): Decoded
    requires ValidHeader(h)
  {
    if u.corrupt || Not32(Fold(table, crc, u.bytes)) != h.crc then Decoded(u.bytes, DataError)
    else
      MarkValid(h.level);
      var rest := Session(table, BlockMark(h.level, 1), bits, Combine(combined, h.crc));
      Decoded(u.bytes + rest.out, rest.verdict)
  }

  /** All output still to come and the final verdict, if the further input is f. */
  ghost function Future(table: CrcTable, p: Point, f: Bits): Decoded
    requires Sensible(p)
  {
    match p.at
    case Reading(s) => Session(table, s, p.pending + f, p.combined)
    case Emitting(h, u, crc) => Emission(table, h, u, crc, p.combined, p.pending + f)
    case Over(v) => Decoded([], v)
  }

  /** Going from p to q while handing out `out` loses nothing, whatever input follows. */
  ghost predicate Leads(table: CrcTable, p: Point, out: seq<byte>, q: Point) {
    && Sensible(p) && Sensible(q)
    && forall f: Bits :: Future(table, p, f) == Decoded(out + Future(table, q, f).out, Future(table, q, f).verdict)
  }

  lemma LeadsNowhere(table: CrcTable, p: Point)
    requires Sensible(p)
    ensures Leads(table, p, [], p)
  {
    forall f: Bits ensures Future(table, p, f) == Decoded([] + Future(table, p, f).out, Future(table, p, f).verdict) {
      assert [] + Future(table, p, f).out == Future(table, p, f).out;
    }
  }

  lemma LeadsOn(table: CrcTable, p: Point, a: seq<byte>, q: Point, b: seq<byte>, r: Point)
    requires Leads(table, p, a, q) && Leads(table, q, b, r)
    ensures Leads(table, p, a + b, r)
  {
    hide Future;
    forall f: Bits ensures Future(table, p, f) == Decoded(a + b + Future(table, r, f).out, Future(table, r, f).verdict) {
      assert Future(table, q, f) == Decoded(b + Future(table, r, f).out, Future(table, r, f).verdict);
      ConcatAssoc(a, b, Future(table, r, f).out);
    }
  }

  lemma LeadsQuietly(table: CrcTable, p: Point, q: Point, r: Point)
    requires Leads(table, p, [], q) && Leads(table, q, [], r)
    ensures Leads(table, p, [], r)
  {
    hide *;
    LeadsOn(table, p, [], q, [], r);
    var nothing: seq<byte> := [];
    assert nothing + nothing == nothing;
  }

  /** Bits read on the way to another waiting state. */
  lemma LeadsReading(table: CrcTable, s: State, combined: u32, pending: Bits, c: Bits, t: State, rest: Bits)
    requires Takes(s, c, t) && Valid(s) && !Halted(s) && Valid(t) && !Halted(t) && pending == c + rest
    ensures Leads(table, Point(Reading(s), combined, pending), [], Point(Reading(t), combined, rest))
  {
    hide Session, Takes, Valid;
    forall f: Bits
      ensures Session(table, s, pending + f, combined) == Decoded([] + Session(table, t, rest + f, combined).out, Session(table, t, rest + f, combined).verdict)
    {
      ConcatAssoc(c, rest, f);
      SessionSkips(table, s, c, t, rest + f, combined);
      assert [] + Session(table, t, rest + f, combined).out == Session(table, t, rest + f, combined).out;
    }
  }

  /** What the session comes to when the bits c lead to a halted state. */
  lemma SessionHalts(table: CrcTable, s: State, c: Bits, t: State, rest: Bits, combined: u32)
    requires Takes(s, c, t) && Valid(s) && !Halted(s) && Valid(t) && Halted(t)
    ensures t.Output? ==> ValidHeader(t.h) && t.h.origPtr < |t.tt|
    ensures Session(table, s, c + rest, combined)
         == if t.Output? then
              if t.h.randomised then Decoded([], RandomisedBlock) else Emission(table, t.h, BlockOutput(t.h, t.tt), ALL_ONES, combined, rest)
            else if t.Ended? then Decoded([], if t.crc == combined then StreamEnd else DataError)
            else Decoded([], if t.error.BadMagic? then MagicError else DataError)
  {
    hide Unpack, Combine, Fold, BlockOutput, Step, Need, Takes, Walk, BlockCrcOf;
    NoneFolded(table);
    TakesRest(s, c, t, rest);
    if t.Output? {
      OutputState(t);
    }
  }

  lemma NoneFolded(table: CrcTable)
    ensures forall s: seq<byte> :: BlockCrcOf(table, s) == Not32(Fold(table, ALL_ONES, s))
  {
  }

  /** The situation a halted state amounts to. */
  ghost function Settled(t: State, combined: u32): Situation
    requires Valid(t) && Halted(t)
  {
    if t.Output? then
      OutputState(t);
      if t.h.randomised then Over(RandomisedBlock) else Emitting(t.h, BlockOutput(t.h, t.tt), ALL_ONES)
    else if t.Ended? then Over(if t.crc == combined then StreamEnd else DataError)
    else Over(if t.error.BadMagic? then MagicError else DataError)
  }

  lemma LeadsSettled(table: CrcTable, s: State, combined: u32, pending: Bits, c: Bits, t: State, rest: Bits)
    requires Takes(s, c, t) && Valid(s) && !Halted(s) && Valid(t) && Halted(t) && pending == c + rest
    ensures Leads(table, Point(Reading(s), combined, pending), [], Point(Settled(t, combined), combined, rest))
  {
    hide Session, Takes, Valid, BlockOutput, Emission;
    var p, q := Point(Reading(s), combined, pending), Point(Settled(t, combined), combined, rest);
    SessionHalts(table, s, c, t, rest, combined);
    assert Sensible(p) && Sensible(q);
    forall f: Bits ensures Future(table, p, f) == Decoded([] + Future(table, q, f).out, Future(table, q, f).verdict) {
      ConcatAssoc(c, rest, f);
      SessionHalts(table, s, c, t, rest + f, combined);
      assert [] + Future(table, q, f).out == Future(table, q, f).out;
    }
  }

  /** Part of a block's output. */
  lemma LeadsEmitting(table: CrcTable, h: Header, u: Unpacked, crc: u32, combined: u32, pending: Bits, out: seq<byte>, u2: Unpacked)
    requires ValidHeader(h) && u == Prepend(out, u2)
    ensures Leads(table, Point(Emitting(h, u, crc), combined, pending), out, Point(Emitting(h, u2, Fold(table, crc, out)), combined, pending))
  {
    hide Session, Combine, Update;
    var p, q := Point(Emitting(h, u, crc), combined, pending), Point(Emitting(h, u2, Fold(table, crc, out)), combined, pending);
    FoldAppend(table, crc, out, u2.bytes);
    forall f: Bits ensures Future(table, p, f) == Decoded(out + Future(table, q, f).out, Future(table, q, f).verdict) {
      MarkValid(h.level);
      var rest := Session(table, BlockMark(h.level, 1), pending + f, Combine(combined, h.crc));
      ConcatAssoc(out, u2.bytes, rest.out);
    }
  }

  /** The end of a block's output. */
  lemma LeadsBlockEnd(table: CrcTable, h: Header, u: Unpacked, crc: u32, combined: u32, pending: Bits)
    requires ValidHeader(h) && u.bytes == []
    ensures Leads(table, Point(Emitting(h, u, crc), combined, pending), [],
                  if u.corrupt || Not32(crc) != h.crc then Point(Over(DataError), combined, pending)
                  else Point(Reading(BlockMark(h.level, 1)), Combine(combined, h.crc), pending))
  {
    hide Session, Combine, Update;
    MarkValid(h.level);
    var p := Point(Emitting(h, u, crc), combined, pending);
    var q := if u.corrupt || Not32(crc) != h.crc then Point(Over(DataError), combined, pending)
             else Point(Reading(BlockMark(h.level, 1)), Combine(combined, h.crc), pending);
    forall f: Bits ensures Future(table, p, f) == Decoded([] + Future(table, q, f).out, Future(table, q, f).verdict) {
      assert [] + Future(table, q, f).out == Future(table, q, f).out;
    }
  }

  /** More input arriving is what was expected of the future. */
  lemma Supplied(table: CrcTable, p: Point, more: Bits, f: Bits)
    requires Sensible(p)
    ensures Sensible(p.(pending := p.pending + more))
    ensures Future(table, p, more + f) == Future(table, p.(pending := p.pending + more), f)
  {
    hide Session, Emission;
    ConcatAssoc(p.pending, more, f);
  }

  /** More bits are needed before anything can happen. */
  ghost predicate Starving(p: Point) {
    p.at.Reading? && |p.pending| < Need(p.at.s)
  }

  lemma NowStarving(s: State, combined: u32, pending: Bits)
    requires |pending| < Need(s)
    ensures Starving(Point(Reading(s), combined, pending))
  {
  }

  // Whole histories: what has been supplied and handed out since the beginning.

  /** After the input `fed` and the output `out` the decompression is at p, and nothing has been lost on the way. */
  ghost predicate Reaches(table: CrcTable, fed: Bits, out: seq<byte>, p: Point) {
    && Sensible(p)
    && forall f: Bits :: Decompressed(table, fed + f) == Decoded(out + Future(table, p, f).out, Future(table, p, f).verdict)
  }

  lemma ReachesStart(table: CrcTable)
    ensures Reaches(table, [], [], Point(Reading(Magic(1)), 0, []))
  {
    hide Session;
    var p := Point(Reading(Magic(1)), 0, []);
    MarkValid(1);
    forall f: Bits ensures Decompressed(table, [] + f) == Decoded([] + Future(table, p, f).out, Future(table, p, f).verdict) {
      DecompressedIs(table, [] + f);
      assert [] + Future(table, p, f).out == Future(table, p, f).out;
    }
  }

  lemma ReachesSupplied(table: CrcTable, fed: Bits, out: seq<byte>, p: Point, more: Bits)
    requires Reaches(table, fed, out, p)
    ensures Reaches(table, fed + more, out, p.(pending := p.pending + more))
  {
    hide Future, Decompressed, Sensible;
    var q := p.(pending := p.pending + more);
    Supplied(table, p, more, []);
    forall f: Bits ensures Decompressed(table, fed + more + f) == Decoded(out + Future(table, q, f).out, Future(table, q, f).verdict) {
      ConcatAssoc(fed, more, f);
      Supplied(table, p, more, f);
      assert Decompressed(table, fed + (more + f)) == Decoded(out + Future(table, p, more + f).out, Future(table, p, more + f).verdict);
    }
  }

  lemma ReachesCalled(table: CrcTable, fed: Bits, out: seq<byte>, p: Point, o: seq<byte>, q: Point)
    requires Reaches(table, fed, out, p) && Leads(table, p, o, q)
    ensures Reaches(table, fed, out + o, q)
  {
    hide Future, Decompressed, Sensible;
    forall f: Bits ensures Decompressed(table, fed + f) == Decoded(out + o + Future(table, q, f).out, Future(table, q, f).verdict) {
      assert Future(table, p, f) == Decoded(o + Future(table, q, f).out, Future(table, q, f).verdict);
      ConcatAssoc(out, o, Future(table, q, f).out);
    }
  }

  /** A decompression that still wants bits would not accept its input as a whole stream. */
  lemma StarvingFails(table: CrcTable, p: Point)
    requires Sensible(p) && Starving(p)
    ensures Future(table, p, []).verdict == OutOfInput
  {
    hide Step, Valid, Need;
    assert p.pending + [] == p.pending;
  }

  /**
   * However a compressed stream is cut into pieces and whatever room each call has: what has been handed out is
   * a beginning of the original bytes, at the end it is all of them, and with the stream supplied the
   * decompression never asks for more.
   */
  lemma PiecewiseRoundTrip(table: CrcTable, z: Bits, x: seq<byte>, fed: Bits, rest: Bits, out: seq<byte>, p: Point)
    requires Decompressed(table, z) == Decoded(x, StreamEnd) && z == fed + rest && Reaches(table, fed, out, p)
    ensures out <= x
    ensures p.at.Over? ==> out == x && p.at.v == StreamEnd
    ensures rest == [] ==> !Starving(p)
  {
    hide Decompressed, Session, Emission;
    assert Decompressed(table, fed + rest) == Decoded(out + Future(table, p, rest).out, Future(table, p, rest).verdict);
    if rest == [] && Starving(p) {
      StarvingFails(table, p);
    }
  }
}
