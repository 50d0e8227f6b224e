// BZ2_bzDecompress: input and output in whatever pieces the caller chooses.
module Decompressor {
  import opened Words
  import opened Bits
  import opened BitIO
  import opened Counting
  import opened InverseBwt
  import opened InverseSetup
  import opened UnRle
  import opened RunLength
  import opened Alphabet
  import opened Mtf
  import opened MtfCache
  import opened Canonical
  import opened Crc
  import opened Decoder
  import opened DecoderRun
  import opened SymbolStage
  import opened SymbolReader
  import opened BlockRoundTrip
  import opened Stream
  import opened Progress

  /** Idle once the end has been read, and broken after an error in a header or a block's symbols. */
  datatype Stage = Heading | InSymbols | Outputting | Idle | Broken

  datatype Status = Ok | StreamDone | BadStream | SequenceError

  /** The last step before a block's symbols leaves the machine ready for the first of them. */
  lemma FirstValue(s: State, v: nat)
    requires Valid(s) && !Halted(s) && !s.Value? && !s.ValueBit? && v < Pow2(Need(s))
    ensures Valid(Step(s, v)) && !Step(s, v).Output? && !Step(s, v).ValueBit?
    ensures Step(s, v).Value? ==>
              var t := Step(s, v);
              ValidBlock(t.b) && ValidLens(t.b, t.lens) && |t.lens| == t.b.nGroups && t == NextValue(t.b, t.lens, Core(Iota(256), [], Fresh), -1, 0)
  {
    hide *;
    StepValid(s, v);
    if s.LengthBit? {
      LastLength(s, v);
    } else {
      NotCoding(s, v);
    }
  }

  lemma LastLength(s: State, v: nat)
    requires Valid(s) && s.LengthBit?
    ensures !Step(s, v).Output? && !Step(s, v).ValueBit?
    ensures Step(s, v).Value? ==>
              var t := Step(s, v);
              ValidBlock(t.b) && ValidLens(t.b, t.lens) && |t.lens| == t.b.nGroups && t == NextValue(t.b, t.lens, Core(Iota(256), [], Fresh), -1, 0)
  {
    hide Rank, Pow2, SkipUnused, UnMtf, MinLen, SeqToUnseq, TableOf;
    LengthValid(s.b, s.lens, s.len, s.curr);
  }

  lemma NotCoding(s: State, v: nat)
    requires Valid(s) && !Halted(s) && !s.Value? && !s.ValueBit? && !s.LengthBit?
    ensures !Step(s, v).Output? && !Step(s, v).ValueBit? && !Step(s, v).Value?
  {
    hide Rank, Pow2, SkipUnused, UnMtf, Reachable, MinLen, SeqToUnseq, TableOf, OnCode, NextValue, OnLength;
  }

  lemma HeadNeed(s: State)
    requires Valid(s) && !Halted(s) && !s.Value?
    ensures 1 <= Need(s) <= 15
  {
  }

  lemma BlockParams(b: Block)
    requires ValidBlock(b)
    ensures 2 <= ParamsOf(b).eob <= 257 && |ParamsOf(b).seqToUnseq| == 256 && ParamsOf(b).nblockMAX == 100000 * b.h.level <= 900000
  {
  }

  class BzDecompressor {
    const table: CrcTable
    const small: bool
    const reader: BitReader
    var stage: Stage
    var head: State
    var symbols: SymbolDecoder?
    var links: LinkTable?
    var fast: FastOutput?
    var slow: SmallOutput?
    var h: Header
    var verdict: Stream.Verdict
    var calculatedBlockCRC: u32
    var calculatedCombinedCRC: u32
    ghost var Repr: set<object>

    ghost predicate ReadingHeader()
      reads this
    {
      Decoder.Valid(head) && !Halted(head) && !head.Value? && !head.ValueBit?
    }

    ghost predicate ReadingSymbols()
      reads this, Repr
    {
      && reader in Repr && symbols != null && symbols in Repr && symbols.builder in Repr && symbols.builder.cache in Repr
      && symbols.builder.cache.mtfa in Repr && symbols.builder.cache.mtfbase in Repr && symbols.builder.store in Repr && symbols.builder.unzftab in Repr
      && symbols.reader == reader && symbols.Valid() && symbols.groupNo >= 0
      && (small ==> links != null && links in Repr && links.ll16 == symbols.builder.store && links.ll4 in Repr
                    && links.ll4.Length == (1 + links.ll16.Length) / 2)
    }

    ghost predicate WritingOutput()
      reads this, Repr
    {
      && ValidHeader(h)
      && (if small then
            slow != null && slow in Repr && slow.links in Repr && slow.links.ll16 in Repr && slow.links.ll4 in Repr && slow.cftab in Repr && slow.Valid()
          else fast != null && fast in Repr && fast.tt in Repr && fast.Valid())
    }

    ghost predicate Valid()
      reads this, Repr
    {
      && this in Repr && reader in Repr && reader.Valid()
      && match stage
         case Heading => ReadingHeader()
         case InSymbols => ReadingSymbols()
         case Outputting => WritingOutput()
         case _ => true
    }

    /** Where the decompression stands. */
    ghost function Here(): Point
      requires Valid()
      reads this, Repr
    {
      Point(match stage
            case Heading => Reading(head)
            case InSymbols => Reading(symbols.At())
            case Outputting => Emitting(h, if small then slow.ToCome() else fast.ToCome(), calculatedBlockCRC)
            case _ => Over(verdict),
            calculatedCombinedCRC, reader.Pending())
    }

    /** BZ2_bzDecompressInit. */
    constructor (table: CrcTable, small: bool)
      ensures Valid() && fresh(Repr) && stage == Heading
      ensures Here() == Point(Reading(Magic(1)), 0, [])
      ensures this.table == table && this.small == small
    {
      this.table, this.small := table, small;
      reader := new BitReader();
      stage, head, symbols, links, fast, slow := Heading, Magic(1), null, null, null, null;
      h, verdict := Header(1, 0, false, 0), OutOfInput;
      calculatedBlockCRC, calculatedCombinedCRC := 0, 0;
      Repr := {this, reader};
    }

    /** The caller supplies another piece of input. */
    method Supply(more: seq<byte>)
      requires Valid()
      modifies reader
      ensures Valid() && Repr == old(Repr) && stage == old(stage)
      ensures Here() == old(Here()).(pending := old(Here()).pending + BytesToBits(more))
    {
      hide SymbolDecoder.Shape, SymbolDecoder.Placed, ColumnBuilder.Valid, FastOutput.Valid, SmallOutput.Valid;
      reader.Feed(more);
    }

    /** The memory for a block's characters: tt, or ll16 and ll4. */
    method NewStore(n: nat) returns (store: array<int>)
      modifies this`links, this`Repr
      ensures store.Length == n && fresh(store) && forall k :: 0 <= k < n ==> 0 <= store[k] < 0x1_0000
      ensures fresh(Repr - old(Repr)) && Repr >= old(Repr) && store in Repr
      ensures small ==> links != null && links in Repr && links.ll16 == store && links.ll4 in Repr && links.ll4.Length == (1 + links.ll16.Length) / 2
    {
      if small {
        links := new LinkTable(n);
        LinksStart(links);
        store := links.ll16;
        Repr := Repr + {links, links.ll16, links.ll4};
      } else {
        store := new int[n](_ => 0);
        Repr := Repr + {store};
      }
    }

    /** Sets up the symbol stage for a block. */
    method EnterSymbols(b: Block, lens: seq<seq<int>>)
      requires this in Repr && reader in Repr && reader.Valid() && ValidBlock(b) && ValidLens(b, lens) && |lens| == b.nGroups
      modifies this`stage, this`symbols, this`links, this`Repr
      ensures Valid() && stage == InSymbols && fresh(Repr - old(Repr)) && Repr >= old(Repr)
      ensures symbols != null && symbols.groupNo >= 0 && symbols.At() == NextValue(b, lens, Core(Iota(256), [], Fresh), -1, 0)
    {
      hide *;
      BlockParams(b);
      var p := ParamsOf(b);
      var store := NewStore(p.nblockMAX);
      var builder := new ColumnBuilder(store, p);
      symbols := new SymbolDecoder(reader, builder, b, lens);
      Repr := Repr + {symbols, builder, builder.cache, builder.cache.mtfa, builder.cache.mtfbase, builder.unzftab};
      symbols.ReadyToRead();
      stage := InSymbols;
      NowInSymbols();
    }

    lemma NowInSymbols()
      requires this in Repr && reader in Repr && reader.Valid() && stage == InSymbols
      requires symbols != null && symbols in Repr && symbols.builder in Repr && symbols.builder.cache in Repr
      requires symbols.builder.cache.mtfa in Repr && symbols.builder.cache.mtfbase in Repr && symbols.builder.store in Repr && symbols.builder.unzftab in Repr
      requires symbols.reader == reader && symbols.Valid() && symbols.groupNo >= 0
      requires small ==> links != null && links in Repr && links.ll16 == symbols.builder.store && links.ll4 in Repr
                         && links.ll4.Length == (1 + links.ll16.Length) / 2
      ensures Valid()
    {
      hide SymbolDecoder.Valid;
    }

    lemma LinksStart(t: LinkTable)
      requires t.Valid()
      ensures t.ll4.Length == (1 + t.ll16.Length) / 2 && forall k :: 0 <= k < t.ll16.Length ==> 0 <= t.ll16[k] < 0x1_0000
    {
    }

    /** The stream is over. */
    method Finish(idle: bool, v: Stream.Verdict)
      requires this in Repr && reader in Repr && reader.Valid() && (v == StreamEnd ==> idle)
      modifies this`stage, this`verdict
      ensures Valid() && Closed() && verdict == v && Here() == Point(Over(v), calculatedCombinedCRC, reader.Pending())
    {
      stage, verdict := if idle then Idle else Broken, v;
    }

    /** Nothing more will be read; only after the end of a stream may there be another call. */
    ghost predicate Closed()
      reads this`stage, this`verdict
    {
      stage == Idle || (stage == Broken && verdict != StreamEnd)
    }

    lemma ClosedIs()
      ensures Closed() <==> stage == Idle || (stage == Broken && verdict != StreamEnd)
    {
    }

    /** Header bits, until the input runs out, something is wrong, or a block's symbols begin. */
    method ReadHeader() returns (starved: bool)
      requires Valid() && stage == Heading
      modifies this, reader
      ensures Valid() && fresh(Repr - old(Repr)) && Repr >= old(Repr)
      ensures Leads(table, old(Here()), [], Here())
      ensures if starved then stage == Heading && Starving(Here()) && reader.input == [] else stage == InSymbols || Closed()
      ensures |reader.Pending()| <= |old(reader.Pending())|
    {
      hide *;
      HeadFacts();
      ghost var p0, combined := Here(), calculatedCombinedCRC;
      LeadsNowhere(table, p0);
      while true
        invariant this in Repr && reader in Repr && reader.Valid() && Repr == old(Repr) && stage == Heading && calculatedCombinedCRC == combined
        invariant Decoder.Valid(head) && !Halted(head) && !head.Value? && !head.ValueBit?
        invariant Leads(table, p0, [], Point(Reading(head), combined, reader.Pending()))
        invariant |reader.Pending()| <= |old(reader.Pending())|
        decreases |reader.Pending()|
      {
        HeadNeed(head);
        ghost var before := reader.Pending();
        var k := Need(head);
        var got := reader.GetBits(k);
        if got.Starved? {
          StillHeading();
          NowStarving(head, combined, reader.Pending());
          return true;
        }
        TakesValue(head, got.v, k);
        FirstValue(head, got.v);
        ghost var s := head;
        head := Step(head, got.v);
        if Halted(head) {
          LeadsSettled(table, s, combined, before, ToBits(got.v, k), head, reader.Pending());
          SettledHere(head, combined);
          LeadsQuietly(table, p0, Point(Reading(s), combined, before), Point(Settled(head, combined), combined, reader.Pending()));
          Finish(head.Ended?, if head.Ended? then if head.crc == calculatedCombinedCRC then StreamEnd else DataError
                 else if head.error.BadMagic? then MagicError else DataError);
          return false;
        }
        LeadsReading(table, s, combined, before, ToBits(got.v, k), head, reader.Pending());
        LeadsQuietly(table, p0, Point(Reading(s), combined, before), Point(Reading(head), combined, reader.Pending()));
        if head.Value? {
          EnterSymbols(head.b, head.lens);
          SymbolsHere();
          return false;
        }
      }
    }

    lemma HeadFacts()
      requires Valid() && stage == Heading
      ensures this in Repr && reader in Repr && reader.Valid() && Decoder.Valid(head) && !Halted(head) && !head.Value? && !head.ValueBit?
      ensures Here() == Point(Reading(head), calculatedCombinedCRC, reader.Pending()) && Sensible(Here())
    {
      hide Decoder.Valid;
    }

    lemma StillHeading()
      requires this in Repr && reader in Repr && reader.Valid() && stage == Heading && Decoder.Valid(head) && !Halted(head) && !head.Value? && !head.ValueBit?
      ensures Valid() && Here() == Point(Reading(head), calculatedCombinedCRC, reader.Pending())
    {
      hide Decoder.Valid;
    }

    lemma SymbolsHere()
      requires Valid() && stage == InSymbols
      ensures symbols != null && symbols.groupNo >= 0 && Here() == Point(Reading(symbols.At()), calculatedCombinedCRC, reader.Pending())
    {
      hide SymbolDecoder.Valid;
    }

    lemma SettledHere(s: State, combined: u32)
      requires Decoder.Valid(s) && Halted(s) && !s.Output?
      ensures s.Ended? || s.Failed?
      ensures Settled(s, combined) == Over(if s.Ended? then if s.crc == combined then StreamEnd else DataError
                                           else if s.error.BadMagic? then MagicError else DataError)
    {
    }

    /** The decoded column, ready to be walked. */
    method StartFast(tt: array<int>, cftab: array<int>, nblock: nat, limit: nat, origPtr: nat, ghost l: seq<byte>)
      requires tt != cftab && 0 < |l| == nblock <= limit <= 900000 && nblock <= tt.Length && origPtr < nblock
      requires (forall i :: 0 <= i < nblock ==> tt[i] == l[i] as int) && Cumulative(cftab[..], l)
      modifies tt, cftab, this`fast, this`Repr
      ensures fast != null && fresh(fast) && fast.Valid() && fast.tt == tt && Repr == old(Repr) + {fast, tt}
      ensures fast.ToCome() == Unpack(Walk(l, origPtr, nblock), Walk(l, origPtr, nblock + 2)[nblock])
    {
      hide Cumulative, Unpack, Walk, FastTable, FastOutput.ToCome, FastOutput.Valid;
      BuildFast(tt, cftab, nblock, l);
      fast := new FastOutput(tt, nblock, limit, origPtr, l);
      FastChars(fast);
      Repr := Repr + {fast, tt};
    }

    lemma FastChars(o: FastOutput)
      requires o.Valid()
      ensures o.origPtr < |o.l| && o.Chars() == Walk(o.l, o.origPtr, |o.l| + 2)
    {
    }

    method StartSmall(links: LinkTable, cftab: array<int>, nblock: nat, limit: nat, origPtr: nat, ghost l: seq<byte>)
      requires links.Valid() && cftab != links.ll16 && 0 < |l| == nblock <= limit <= 900000 && nblock <= links.ll16.Length && origPtr < nblock
      requires (forall i :: 0 <= i < nblock ==> links.ll16[i] == l[i] as int) && Cumulative(cftab[..], l)
      modifies links.ll16, links.ll4, this`slow, this`Repr
      ensures slow != null && fresh(slow) && slow.Valid() && slow.links == links && slow.cftab == cftab && Repr == old(Repr) + {slow, cftab}
      ensures slow.ToCome() == Unpack(Walk(l, origPtr, nblock), Walk(l, origPtr, nblock + 2)[nblock])
    {
      hide Cumulative, Unpack, Walk, Reversed, Forward, LinkTable.Valid, SmallOutput.ToCome, SmallOutput.Valid;
      BuildForward(links, cftab, nblock, l);
      ghost var cycle := ReverseCycle(links, origPtr, nblock, l);
      slow := new SmallOutput(links, cftab, nblock, limit, origPtr, l, cycle);
      SmallChars(slow);
      Repr := Repr + {slow, cftab};
    }

    lemma SmallChars(o: SmallOutput)
      requires o.Valid()
      ensures o.origPtr < |o.l| && o.Chars() == Walk(o.l, o.origPtr, |o.l| + 2)
    {
    }

    /** What the symbol stage has left when a block has been read. */
    ghost predicate ColumnRead()
      reads this, Repr
    {
      && this in Repr && reader in Repr && symbols != null && symbols in Repr && symbols.builder in Repr && symbols.builder.store in Repr
      && symbols.builder.cache in Repr && symbols.builder.cache.mtfa in Repr && symbols.builder.cache.mtfbase in Repr && symbols.builder.unzftab in Repr
      && symbols.builder.Valid() && ValidBlock(symbols.b) && symbols.builder.p == ParamsOf(symbols.b)
      && symbols.b.h.origPtr < |symbols.builder.core.tt|
      && (small ==> links != null && links in Repr && links.ll16 == symbols.builder.store && links.ll4 in Repr
                    && links.ll4.Length == (1 + links.ll16.Length) / 2)
    }

    lemma ColumnFacts()
      requires ColumnRead()
      ensures symbols != null && ValidHeader(symbols.b.h)
      ensures var l := symbols.builder.core.tt;
              && 0 <= symbols.b.h.origPtr < |l| == symbols.builder.nblock <= 100000 * symbols.b.h.level <= 900000
              && symbols.builder.nblock <= symbols.builder.store.Length && symbols.builder.unzftab.Length == 256
              && (forall k :: 0 <= k < |l| ==> symbols.builder.store[k] == l[k] as int)
              && (forall k :: 0 <= k < symbols.builder.store.Length ==> 0 <= symbols.builder.store[k] < 0x1_0000)
              && (forall c: nat :: c < 256 ==> symbols.builder.unzftab[c] == Count(l, c))
    {
      hide Count, Rank, SeqToUnseq, ColumnBuilder.Listed;
    }

    /** Prepares the output of the block that has been read. */
    method StartOutput(hd: Header, store: array<int>, unzftab: array<int>, nblock: nat, ghost l: seq<byte>)
      requires this in Repr && reader in Repr && store in Repr && reader.Valid() && ValidHeader(hd)
      requires hd.origPtr < |l| == nblock <= 100000 * hd.level && nblock <= store.Length && unzftab.Length == 256
      requires forall k :: 0 <= k < |l| ==> store[k] == l[k] as int
      requires forall k :: 0 <= k < store.Length ==> 0 <= store[k] < 0x1_0000
      requires forall c: nat :: c < 256 ==> unzftab[c] == Count(l, c)
      requires small ==> links != null && links in Repr && links.ll16 == store && links.ll4 in Repr && links.ll4.Length == (1 + links.ll16.Length) / 2
      modifies this`h, this`calculatedBlockCRC, this`stage, this`fast, this`slow, this`Repr, store, (if small && links != null then {links.ll4} else {})
      ensures Valid() && stage == Outputting && fresh(Repr - old(Repr)) && Repr >= old(Repr)
      ensures Here() == Point(Emitting(hd, BlockOutput(hd, l), ALL_ONES), calculatedCombinedCRC, reader.Pending())
    {
      hide *;
      OutputIs(hd, l);
      var cftab, ok := BuildCftab(unzftab, nblock, l);
      assert ok;  // none of the range checks can fail
      h := hd;
      calculatedBlockCRC := 0xffff_ffff;
      if small {
        LinksReady(links);
        StartSmall(links, cftab, nblock, 100000 * hd.level, hd.origPtr, l);
      } else {
        StartFast(store, cftab, nblock, 100000 * hd.level, hd.origPtr, l);
      }
      stage := Outputting;
      NowOutputting();
    }

    lemma LinksReady(t: LinkTable)
      requires t.ll4.Length == (1 + t.ll16.Length) / 2 && forall k :: 0 <= k < t.ll16.Length ==> 0 <= t.ll16[k] < 0x1_0000
      ensures t.Valid()
    {
    }

    lemma OutputIs(hd: Header, l: seq<byte>)
      requires hd.origPtr < |l| && ValidHeader(hd)
      ensures ALL_ONES == 0xffff_ffff && 1 <= hd.level <= 9
      ensures BlockOutput(hd, l) == Unpack(Walk(l, hd.origPtr, |l|), Walk(l, hd.origPtr, |l| + 2)[|l|])
    {
    }

    lemma NowOutputting()
      requires this in Repr && reader in Repr && reader.Valid() && stage == Outputting && ValidHeader(h)
      requires small ==> slow != null && slow in Repr && slow.links in Repr && slow.links.ll16 in Repr && slow.links.ll4 in Repr && slow.cftab in Repr && slow.Valid()
      requires !small ==> fast != null && fast in Repr && fast.tt in Repr && fast.Valid()
      ensures Valid()
      ensures Here() == Point(Emitting(h, if small then slow.ToCome() else fast.ToCome(), calculatedBlockCRC), calculatedCombinedCRC, reader.Pending())
    {
      hide SmallOutput.Valid, FastOutput.Valid, SmallOutput.ToCome, FastOutput.ToCome;
    }

    /** A block's symbols, until the input runs out, something is wrong, or the block can be output. */
    method ReadSymbols() returns (starved: bool)
      requires Valid() && stage == InSymbols
      modifies Repr
      ensures Valid() && fresh(Repr - old(Repr)) && Repr >= old(Repr)
      ensures Leads(table, old(Here()), [], Here())
      ensures if starved then stage == InSymbols && Starving(Here()) && reader.input == [] else stage == Outputting || Closed()
      ensures |reader.Pending()| <= |old(reader.Pending())| && (stage == Outputting ==> |reader.Pending()| < |old(reader.Pending())|)
    {
      hide *;
      SymbolFacts();
      ghost var p0, combined, before, s := Here(), calculatedCombinedCRC, reader.Pending(), symbols.At();
      var o;
      ghost var c;
      o, c := symbols.DecodeSymbols();
      if o.Suspended? {
        symbols.AtValid();
        LeadsReading(table, s, combined, before, c, symbols.At(), reader.Pending());
        NowInSymbols();
        SymbolsHere();
        NowStarving(symbols.At(), combined, reader.Pending());
        return true;
      }
      starved := false;
      if o.BadBlock? {
        FailedFacts(combined);
        LeadsSettled(table, s, combined, before, c, Failed(BadData), reader.Pending());
        Finish(false, DataError);
        return;
      }
      ghost var l := symbols.builder.core.tt;
      NowColumn();
      HeaderFacts(l);
      LeadsSettled(table, s, combined, before, c, Decoder.Output(symbols.b.h, l), reader.Pending());
      OutputSettled(symbols.b.h, l, combined);
      TakesSome(s, c, Decoder.Output(symbols.b.h, l));
      if symbols.b.h.randomised {
        Finish(false, RandomisedBlock);
      } else {
        ColumnFacts();
        StartOutput(symbols.b.h, symbols.builder.store, symbols.builder.unzftab, symbols.builder.nblock, l);
      }
    }

    lemma TakesSome(s: State, c: Bits, t: State)
      requires Takes(s, c, t) && !Halted(s) && Halted(t)
      ensures c != []
    {
      RunShrinks(s, c);
    }

    lemma FailedFacts(combined: u32)
      ensures Decoder.Valid(Failed(BadData)) && Halted(Failed(BadData)) && Settled(Failed(BadData), combined) == Over(DataError)
    {
    }

    lemma OutputSettled(hd: Header, l: seq<byte>, combined: u32)
      requires ValidHeader(hd) && hd.origPtr < |l|
      ensures Settled(Decoder.Output(hd, l), combined) == if hd.randomised then Over(RandomisedBlock) else Emitting(hd, BlockOutput(hd, l), ALL_ONES)
    {
      hide BlockOutput;
    }

    lemma HeaderFacts(l: seq<byte>)
      requires ColumnRead() && l == symbols.builder.core.tt
      ensures symbols != null && ValidHeader(symbols.b.h) && symbols.b.h.origPtr < |l|
      ensures Decoder.Valid(Decoder.Output(symbols.b.h, l)) && Halted(Decoder.Output(symbols.b.h, l))
    {
      hide ColumnBuilder.Valid, Rank, ParamsOf;
    }

    lemma SymbolFacts()
      requires Valid() && stage == InSymbols
      ensures this in Repr && reader in Repr && reader.Valid() && symbols != null && symbols.Valid() && symbols.reader == reader && symbols.groupNo >= 0
      ensures symbols in Repr && symbols.builder in Repr && symbols.builder.cache in Repr && symbols.builder.cache.mtfa in Repr
      ensures symbols.builder.cache.mtfbase in Repr && symbols.builder.store in Repr && symbols.builder.unzftab in Repr
      ensures small ==> links != null && links in Repr && links.ll16 == symbols.builder.store && links.ll4 in Repr && links.ll4.Length == (1 + links.ll16.Length) / 2
      ensures Decoder.Valid(symbols.At()) && !Halted(symbols.At()) && Need(symbols.At()) <= 20
      ensures ValidBlock(symbols.b) && symbols.builder.p == ParamsOf(symbols.b)
      ensures Here() == Point(Reading(symbols.At()), calculatedCombinedCRC, reader.Pending()) && Sensible(Here())
    {
      symbols.AtValid();
    }

    lemma NowColumn()
      requires this in Repr && reader in Repr && symbols != null && symbols in Repr && symbols.builder in Repr && symbols.builder.store in Repr
      requires symbols.builder.cache in Repr && symbols.builder.cache.mtfa in Repr && symbols.builder.cache.mtfbase in Repr && symbols.builder.unzftab in Repr
      requires symbols.builder.Valid() && ValidBlock(symbols.b) && symbols.builder.p == ParamsOf(symbols.b)
      requires symbols.b.h.origPtr < |symbols.builder.core.tt|
      requires small ==> links != null && links in Repr && links.ll16 == symbols.builder.store && links.ll4 in Repr && links.ll4.Length == (1 + links.ll16.Length) / 2
      ensures ColumnRead()
    {
      hide ColumnBuilder.Valid;
    }

    /** Up to `room` bytes of the block being output. */
    method TakeOutput(room: nat) returns (out: seq<byte>, left: nat, corrupt: bool, done: bool, ghost lost: seq<byte>)
      requires Valid() && stage == Outputting
      modifies (if small && slow != null then {slow} else {}), (if !small && fast != null then {fast} else {})
      ensures Valid() && |out| + left == room && Here().at.Emitting? && Here() == old(Here()).(at := Emitting(h, Here().at.u, calculatedBlockCRC))
      ensures corrupt <==> old(Here()).at.u.corrupt && (if small then |old(Here()).at.u.bytes| < room else |old(Here()).at.u.bytes| <= room)
      ensures corrupt ==> old(Here()).at.u == Unpacked(out + lost, true) && Here().at.u == Unpacked(lost, true) && (if small then lost == [] else out == [])
      ensures !corrupt ==> lost == [] && old(Here()).at.u == Prepend(out, Here().at.u) && (!done ==> left == 0)
      ensures !corrupt && done ==> old(Here()).at.u == Unpacked(out, false)
      ensures !corrupt ==> (done <==> Here().at.u == Unpacked([], false))
    {
      hide SmallOutput.ToCome, FastOutput.ToCome, SmallOutput.Source, FastOutput.Source, Prepend;
      if small {
        out, left, corrupt := slow.UnRleSmall(room);
        lost := [];
        assert out + [] == out;
        done := slow.nblockUsed == slow.nblock + 1 && slow.stateOutLen == 0;
        slow.DoneIs();
      } else {
        out, left, corrupt, lost := fast.UnRleFast(room);
        assert [] + lost == lost;
        done := fast.nblockUsed == fast.nblock + 1 && fast.stateOutLen == 0;
        fast.DoneIs();
      }
    }

    lemma OutputFacts()
      requires Valid() && stage == Outputting
      ensures this in Repr && reader in Repr && reader.Valid() && ValidHeader(h)
      ensures Here().at.Emitting? && Here() == Point(Emitting(h, Here().at.u, calculatedBlockCRC), calculatedCombinedCRC, reader.Pending())
      ensures if small then slow != null && slow in Repr else fast != null && fast in Repr
      ensures Sensible(Here())
    {
      hide SmallOutput.Valid, FastOutput.Valid, SmallOutput.ToCome, FastOutput.ToCome;
    }

    lemma OutputObjects()
      requires Valid() && stage == Outputting
      ensures small ==> slow != null && slow in Repr && slow.links in Repr && slow.links.ll16 in Repr && slow.links.ll4 in Repr && slow.cftab in Repr && slow.Valid()
      ensures !small ==> fast != null && fast in Repr && fast.tt in Repr && fast.Valid()
      ensures Here().at.Emitting? && Here().at.u == if small then slow.ToCome() else fast.ToCome()
    {
      hide SmallOutput.Valid, FastOutput.Valid, SmallOutput.ToCome, FastOutput.ToCome;
    }

    /**
     * Hands out what there is room for; at the end of the block its checksum is compared. `reach` is how far the stream
     * has been followed. When it turns out bad, the object is left as it is: without the memory-saving table where it
     * was before the call, so that what has been written, but not announced, is still to come; and after a checksum that
     * does not fit with the finished checksum in the place of the running one.
     */
    method Emit(room: nat) returns (out: seq<byte>, left: nat, bad: bool, ghost lost: seq<byte>, ghost reach: Point)
      requires Valid() && stage == Outputting
      modifies Repr
      ensures Valid() && Repr == old(Repr) && |out| + left == room && reader.Pending() == old(reader.Pending())
      ensures Leads(table, old(Here()), out + lost, reach)
      ensures !bad ==> lost == [] && reach == Here() && (stage == Heading || (stage == Outputting && left == 0))
      ensures bad ==> reach.at == Over(DataError) && stage == Outputting && LeftBad(Here(), lost) && (lost != [] ==> !small && out == [] && |lost| <= room)
      ensures bad && Here().at.u.corrupt ==> Leads(table, old(Here()), out, Here())
      ensures AfterBad(old(Here()), room, out, lost, bad, Here())
    {
      hide *;
      OutputFacts();
      ghost var p0, crc0, combined := Here(), calculatedBlockCRC, calculatedCombinedCRC;
      ghost var u0 := p0.at.u;
      var corrupt, done;
      out, left, corrupt, done, lost := TakeOutput(room);
      ghost var all := out + lost;
      assert lost == [] ==> all == out;
      OutputFacts();
      OutputObjects();
      ghost var u2 := if corrupt then Unpacked([], true) else Here().at.u;
      WholeOutput(u0, all, u2, corrupt);
      calculatedBlockCRC := FoldBytes(table, calculatedBlockCRC, out);
      ghost var p1 := Point(Emitting(h, u2, Fold(table, crc0, all)), combined, reader.Pending());
      LeadsEmitting(table, h, u0, crc0, combined, reader.Pending(), all, u2);
      NowOutputting();
      if !corrupt && !done {
        NotBad(p0, room, out, Here());
        return out, left, false, lost, Here();
      }
      LeadsBlockEnd(table, h, u2, Fold(table, crc0, all), combined, reader.Pending());
      if corrupt {
        reach := Point(Over(DataError), combined, reader.Pending());
        LeadsFinally(table, p0, all, p1, reach);
        NowBad(p0, room, out, lost, Here());
        LeadsEmitting(table, h, u0, crc0, combined, reader.Pending(), out, Here().at.u);
        return out, left, true, lost, reach;
      }
      calculatedBlockCRC := Not32(calculatedBlockCRC);
      if calculatedBlockCRC != h.crc {
        reach := Point(Over(DataError), combined, reader.Pending());
        LeadsFinally(table, p0, all, p1, reach);
        NowOutputting();
        NowDisputed(table, p0, room, out, Here());
        return out, left, true, lost, reach;
      }
      calculatedCombinedCRC := Combine(calculatedCombinedCRC, calculatedBlockCRC);
      LeadsFinally(table, p0, all, p1, Point(Reading(BlockMark(h.level, 1)), calculatedCombinedCRC, reader.Pending()));
      NextMark(h);
      head := BlockMark(h.level, 1);
      stage := Heading;
      StillHeading();
      Accepted(table, p0, room, out, Here());
      return out, left, false, lost, Here();
    }

    /**
     * One call: hands out at most `room` bytes, reading what input there is. Whatever input is still to come, the bytes
     * handed out followed by what remains are exactly the bytes of the stream. Bytes are lost only without the
     * memory-saving table, in the call that finds the stream corrupt. A call after the end is refused; one after a bad
     * block begins with what AfterBad says.
     */
    method BzDecompress(room: nat) returns (out: seq<byte>, left: nat, status: Status, ghost lost: seq<byte>, ghost reach: Point)
      requires Valid() && stage != Broken
      modifies Repr
      ensures Valid() && fresh(Repr - old(Repr)) && |out| + left == room
      ensures Leads(table, old(Here()), out + lost, reach)
      ensures status != BadStream ==> lost == [] && reach == Here()
      ensures lost != [] ==> !small && |out| + |lost| <= room
      ensures status == Ok ==> stage != Idle && stage != Broken && (left == 0 || (reader.input == [] && Starving(Here())))
      ensures status == StreamDone ==> stage == Idle && Here().at == Over(StreamEnd)
      ensures status == BadStream ==> reach.at.Over? && reach.at.v != StreamEnd && stage != Heading && stage != InSymbols
      ensures status == BadStream && stage == Outputting ==> LeftBad(Here(), lost) && (Here().at.u.corrupt ==> Leads(table, old(Here()), out, Here()))
      ensures status == SequenceError <==> old(stage) == Idle
      ensures status == SequenceError ==> out == [] && stage == Idle && Here() == old(Here())
      ensures Spoilt(old(Here())) ==> status != StreamDone && AfterBad(old(Here()), room, out, lost, status == BadStream, Here())
    {
      hide *;
      out, left, lost := [], room, [];
      StartsSensible();
      Basics();
      reach := Here();
      ghost var p0 := Here();
      LeadsNowhere(table, p0);
      NotSpoilt(p0);
      assert out + lost == [];
      if stage == Idle {
        return out, left, SequenceError, lost, reach;
      }
      while true
        invariant Valid() && fresh(Repr - old(Repr)) && Repr >= old(Repr) && |out| + left == room && stage != Idle && stage != Broken
        invariant this in Repr && reader in Repr && reader.Valid() && (stage == Outputting <==> Here().at.Emitting?)
        invariant Leads(table, p0, out, Here()) && lost == []
        invariant Spoilt(p0) ==> out == [] && Here() == p0
        decreases |reader.Pending()|, if stage == Outputting then 2 else if stage == Heading then 1 else 0
      {
        ghost var p := Here();
        NotSpoilt(p);
        if stage == Outputting {
          var o, bad;
          ghost var space := left;
          o, left, bad, lost, reach := Emit(left);
          Basics();
          LeadsOn(table, p0, out, p, o + lost, reach);
          LeadsOnIf(table, p0, out, p, o, Here(), bad && Here().at.u.corrupt);
          BadFacts(p, space, o, lost, bad, Here());
          ConcatAssoc(out, o, lost);
          NoneBefore(out, o);
          out := out + o;
          NoneLost(out);
          if bad {
            return out, left, BadStream, lost, reach;
          }
          if stage == Outputting {
            return out, left, Ok, lost, reach;
          }
        } else {
          var starved;
          if stage == Heading {
            starved := ReadHeader();
          } else {
            starved := ReadSymbols();
          }
          LeadsFinally(table, p0, out, p, Here());
          NoneLost(out);
          ClosedIs();
          if starved {
            return out, left, Ok, lost, Here();
          }
          if stage == Idle || stage == Broken {
            OverIs();
            return out, left, if verdict == StreamEnd then StreamDone else BadStream, lost, Here();
          }
          Basics();
        }
      }
    }

    lemma OverIs()
      requires Valid() && (stage == Idle || stage == Broken)
      ensures Here().at == Over(verdict)
    {
    }

    lemma Basics()
      requires Valid()
      ensures this in Repr && reader in Repr && reader.Valid() && (stage == Outputting <==> Here().at.Emitting?)
    {
    }

    lemma StartsSensible()
      requires Valid()
      ensures Sensible(Here())
    {
      if stage == InSymbols {
        SymbolFacts();
      } else if stage == Outputting {
        OutputFacts();
      } else if stage == Heading {
        HeadFacts();
      }
    }
  }

  lemma NoneLost(out: seq<byte>)
    ensures out + [] == out
  {
  }

  lemma NoneBefore(out: seq<byte>, o: seq<byte>)
    ensures out == [] ==> out + o == o
  {
  }

  lemma LeadsOnIf(table: CrcTable, p: Point, out: seq<byte>, q: Point, more: seq<byte>, r: Point, on: bool)
    requires Leads(table, p, out, q) && (on ==> Leads(table, q, more, r))
    ensures on ==> Leads(table, p, out + more, r)
  {
    hide *;
    if on {
      LeadsOn(table, p, out, q, more, r);
    }
  }

  lemma NextMark(h: Header)
    requires ValidHeader(h)
    ensures 1 <= h.level <= 9 && Valid(BlockMark(h.level, 1)) && !Halted(BlockMark(h.level, 1))
  {
  }

  lemma WholeOutput(u: Unpacked, out: seq<byte>, u2: Unpacked, corrupt: bool)
    requires corrupt ==> u == Unpacked(out, true) && u2 == Unpacked([], true)
    requires !corrupt ==> u == Prepend(out, u2)
    ensures u == Prepend(out, u2)
  {
    assert out + [] == out;
  }

  // After a bad block.

  /** All of a block is out, and its checksum has not been accepted. */
  ghost predicate Refuted(p: Point) {
    p.at.Emitting? && p.at.u == Unpacked([], false) && Not32(p.at.crc) != p.at.h.crc
  }

  /** A corrupt block, or one whose checksum has not been accepted. */
  ghost predicate Spoilt(p: Point) {
    (p.at.Emitting? && p.at.u.corrupt) || Refuted(p)
  }

  /** What a bad block leaves behind: what was lost is still to come, or all is out and the finished checksum differs. */
  ghost predicate LeftBad(p: Point, lost: seq<byte>) {
    && p.at.Emitting?
    && (p.at.u == Unpacked(lost, true) || (p.at.u == Unpacked([], false) && lost == [] && p.at.crc != p.at.h.crc))
  }

  /**
   * A call with output of a corrupt block, or nothing but a checksum, to come. With the corrupt block the first `room`
   * bytes are handed out, and once there is room for all of them the block is bad (again). With the checksum the block is
   * bad again, the complement now being compared, which is what the next call will accept if it is the stored one.
   */
  ghost predicate AfterBad(p: Point, room: nat, out: seq<byte>, lost: seq<byte>, bad: bool, q: Point) {
    && (p.at.Emitting? && p.at.u.corrupt ==>
          && q.at.Emitting? && |out| <= |p.at.u.bytes| && q.at.u == Unpacked(p.at.u.bytes[|out|..], true) && out == p.at.u.bytes[..|out|]
          && (if bad then out + lost == p.at.u.bytes && |out| + |lost| <= room else |out| == room)
          && (bad ==> (out == [] || lost == []))
          && (|p.at.u.bytes| < room ==> bad) && (|p.at.u.bytes| > room ==> !bad))
    && (Refuted(p) ==> bad && out == [] && lost == [] && q == p.(at := p.at.(crc := Not32(p.at.crc))))
  }

  lemma NotBad(p: Point, room: nat, out: seq<byte>, q: Point)
    requires p.at.Emitting? && q.at.Emitting? && p.at.u == Prepend(out, q.at.u) && |out| == room && q.at.u != Unpacked([], false)
    ensures AfterBad(p, room, out, [], false, q)
  {
    assert p.at.u.bytes[..|out|] == out && p.at.u.bytes[|out|..] == q.at.u.bytes;
  }

  lemma NowBad(p: Point, room: nat, out: seq<byte>, lost: seq<byte>, q: Point)
    requires p.at.Emitting? && q.at.Emitting? && p.at.u == Unpacked(out + lost, true) && q.at.u == Unpacked(lost, true)
    requires (out == [] || lost == []) && |out| + |lost| <= room
    ensures AfterBad(p, room, out, lost, true, q) && LeftBad(q, lost) && p.at.u == Prepend(out, q.at.u)
  {
    assert p.at.u.bytes[..|out|] == out && p.at.u.bytes[|out|..] == lost;
  }

  /** The running checksum crc, finished, is not the stored one. */
  lemma NowDisputed(table: CrcTable, p: Point, room: nat, out: seq<byte>, q: Point)
    requires p.at.Emitting? && p.at.u == Unpacked(out, false) && Not32(Fold(table, p.at.crc, out)) != p.at.h.crc
    requires q == p.(at := Emitting(p.at.h, Unpacked([], false), Not32(Fold(table, p.at.crc, out))))
    ensures AfterBad(p, room, out, [], true, q) && LeftBad(q, [])
  {
    assert Fold(table, p.at.crc, []) == p.at.crc;
  }

  lemma Accepted(table: CrcTable, p: Point, room: nat, out: seq<byte>, q: Point)
    requires p.at.Emitting? && p.at.u == Unpacked(out, false) && Not32(Fold(table, p.at.crc, out)) == p.at.h.crc
    ensures AfterBad(p, room, out, [], false, q)
  {
    assert Fold(table, p.at.crc, []) == p.at.crc;
  }

  lemma BadFacts(p: Point, room: nat, out: seq<byte>, lost: seq<byte>, bad: bool, q: Point)
    requires AfterBad(p, room, out, lost, bad, q)
    ensures Spoilt(p) && !bad ==> q.at.Emitting?
  {
  }

  lemma NotSpoilt(p: Point)
    ensures !p.at.Emitting? ==> !Spoilt(p)
  {
  }

  lemma LeadsFinally(table: CrcTable, p: Point, out: seq<byte>, q: Point, r: Point)
    requires Leads(table, p, out, q) && Leads(table, q, [], r)
    ensures Leads(table, p, out, r)
  {
    hide *;
    LeadsOn(table, p, out, q, [], r);
    assert out + [] == out;
  }

  method FoldBytes(table: CrcTable, crc0: u32, s: seq<byte>) returns (crc: u32)
    ensures crc == Fold(table, crc0, s)
  {
    hide *;
    crc := crc0;
    FoldStart(table, crc, s);
    for i := 0 to |s|
      invariant crc == Fold(table, crc0, s[..i])
    {
      FoldNext(table, crc0, s, i);
      crc := Update(table, crc, s[i]);
    }
    assert s[..|s|] == s;
  }

  lemma FoldStart(table: CrcTable, crc: u32, s: seq<byte>)
    ensures Fold(table, crc, s[..0]) == crc
  {
  }

  lemma FoldNext(table: CrcTable, crc: u32, s: seq<byte>, i: nat)
    requires i < |s|
    ensures Fold(table, crc, s[..i + 1]) == Update(table, Fold(table, crc, s[..i]), s[i])
  {
    assert s[..i + 1][..i] == s[..i];
  }

  /** A caller's loop: any pieces of input, any room for each call, until the stream is done or the pieces are used up. */
  method DecompressPieces(table: CrcTable, small: bool, pieces: seq<seq<byte>>, rooms: seq<nat>)
    returns (out: seq<byte>, status: Status, ghost fed: Bits, ghost p: Point, ghost lost: seq<byte>)
    requires |pieces| == |rooms|
    ensures Reaches(table, fed, out + lost, p)
    ensures lost != [] ==> status == BadStream && !small
    ensures status == StreamDone ==> p.at == Over(StreamEnd)
    ensures status == BadStream ==> p.at.Over? && p.at.v != StreamEnd
    ensures status != SequenceError
    ensures exists n: nat :: n <= |pieces| && fed == BytesToBits(Joined(pieces, n)) && (status == Ok ==> n == |pieces|)
    ensures status == Ok ==> Filled(pieces, rooms, |pieces|, out, Decompressed(table, BytesToBits(Joined(pieces, |pieces|))).verdict == StreamEnd)
  {
    hide *;
    var d := new BzDecompressor(table, small);
    out, status, fed, lost := [], Ok, [], [];
    ReachesStart(table);
    assert out + lost == [];
    JoinedStart(pieces);
    NoneFilled(pieces, rooms, Decompressed(table, BytesToBits(Joined(pieces, |pieces|))).verdict == StreamEnd);
    p := d.Here();
    for i := 0 to |pieces|
      invariant d.Valid() && fresh(d.Repr) && d.stage != Idle && d.stage != Broken && status == Ok && d.table == table && d.small == small && lost == []
      invariant p == d.Here() && Reaches(table, fed, out, p) && fed == BytesToBits(Joined(pieces, i))
      invariant Filled(pieces, rooms, i, out, Decompressed(table, BytesToBits(Joined(pieces, |pieces|))).verdict == StreamEnd)
    {
      d.Basics();
      d.Supply(pieces[i]);
      ReachesSupplied(table, fed, out, p, BytesToBits(pieces[i]));
      JoinedNext(pieces, i);
      fed := fed + BytesToBits(pieces[i]);
      p := d.Here();
      var o, left;
      ghost var reach;
      o, left, status, lost, reach := d.BzDecompress(rooms[i]);
      ReachesCalled(table, fed, out, p, o + lost, reach);
      ConcatAssoc(out, o, lost);
      p := reach;
      ghost var before := out;
      out := out + o;
      NoneLost(out);
      if status != Ok {
        return;
      }
      CallFills(table, pieces, i, fed, out, p);
      FilledNext(pieces, rooms, i, before, o, Decompressed(table, BytesToBits(Joined(pieces, |pieces|))).verdict == StreamEnd);
    }
    NoneLost(out);
  }

  /** The calls from the one that supplied the last byte on have all been filled, if the stream is a good one. */
  ghost predicate Filled(pieces: seq<seq<byte>>, rooms: seq<nat>, i: nat, out: seq<byte>, good: bool)
    requires i <= |pieces| == |rooms|
  {
    good ==> forall k: nat {:trigger Total(rooms, k)} :: k < i && Joined(pieces, k + 1) == Joined(pieces, |pieces|) ==> |out| >= Total(rooms, i) - Total(rooms, k)
  }

  lemma FilledNext(pieces: seq<seq<byte>>, rooms: seq<nat>, i: nat, out: seq<byte>, o: seq<byte>, good: bool)
    requires i < |pieces| == |rooms| && Filled(pieces, rooms, i, out, good)
    requires good && Joined(pieces, i + 1) == Joined(pieces, |pieces|) ==> |o| == rooms[i]
    ensures Filled(pieces, rooms, i + 1, out + o, good)
  {
    hide Joined, Total;
    TotalStep(rooms, i);
    if good {
      forall k: nat {:trigger Total(rooms, k)} | k < i + 1 && Joined(pieces, k + 1) == Joined(pieces, |pieces|)
        ensures |out + o| >= Total(rooms, i + 1) - Total(rooms, k)
      {
        JoinedBetween(pieces, k + 1, i + 1);
        JoinedBetween(pieces, i + 1, |pieces|);
      }
    }
  }

  lemma {:induction false} JoinedBetween(pieces: seq<seq<byte>>, k: nat, i: nat)
    requires k <= i <= |pieces|
    ensures Joined(pieces, k) <= Joined(pieces, i)
    decreases i
  {
    if k < i {
      JoinedBetween(pieces, k, i - 1);
    }
  }

  lemma NoneFilled(pieces: seq<seq<byte>>, rooms: seq<nat>, good: bool)
    requires |pieces| == |rooms|
    ensures Filled(pieces, rooms, 0, [], good)
  {
  }

  /** With all of a good stream supplied, a call does not stop for lack of bits. */
  lemma CallFills(table: CrcTable, pieces: seq<seq<byte>>, i: nat, fed: Bits, out: seq<byte>, p: Point)
    requires i < |pieces| && fed == BytesToBits(Joined(pieces, i + 1)) && Reaches(table, fed, out, p)
    ensures Decompressed(table, BytesToBits(Joined(pieces, |pieces|))).verdict == StreamEnd && Joined(pieces, i + 1) == Joined(pieces, |pieces|) ==> !Starving(p)
  {
    hide *;
    var d := Decompressed(table, fed);
    if d.verdict == StreamEnd && Joined(pieces, i + 1) == Joined(pieces, |pieces|) {
      assert fed + [] == fed;
      PiecewiseRoundTrip(table, fed, d.out, fed, [], out, p);
    }
  }

  /**
   * A compressed stream cut into any pieces: what is handed out is a beginning of the original bytes, no piece is
   * found bad, and when the decompressor says that it is done, it is all of them. It is done once the calls from the
   * one with the last byte of the stream on have had more room than there are original bytes.
   */
  method DecompressStream(table: CrcTable, small: bool, ghost z: seq<byte>, ghost x: seq<byte>, pieces: seq<seq<byte>>, rooms: seq<nat>)
    returns (out: seq<byte>, status: Status)
    requires |pieces| == |rooms| && Joined(pieces, |pieces|) == z && Decompressed(table, BytesToBits(z)) == Decoded(x, StreamEnd)
    ensures out <= x && (status == Ok || (status == StreamDone && out == x))
    ensures forall k: nat {:trigger Total(rooms, k)} :: k < |pieces| && Joined(pieces, k + 1) == z && Total(rooms, |rooms|) - Total(rooms, k) > |x| ==>
              status == StreamDone
  {
    hide *;
    ghost var fed, p, lost;
    out, status, fed, p, lost := DecompressPieces(table, small, pieces, rooms);
    ghost var n: nat :| n <= |pieces| && fed == BytesToBits(Joined(pieces, n)) && (status == Ok ==> n == |pieces|);
    ghost var rest := JoinedPrefix(pieces, n);
    PiecewiseRoundTrip(table, BytesToBits(z), x, fed, rest, out + lost, p);
    NoneLost(out);
    FilledIs(pieces, rooms, out);
  }

  lemma FilledIs(pieces: seq<seq<byte>>, rooms: seq<nat>, out: seq<byte>)
    requires |pieces| == |rooms|
    ensures Filled(pieces, rooms, |pieces|, out, true) ==>
              forall k: nat {:trigger Total(rooms, k)} :: k < |pieces| && Joined(pieces, k + 1) == Joined(pieces, |pieces|) ==> |out| >= Total(rooms, |rooms|) - Total(rooms, k)
  {
  }

  lemma {:induction false} JoinedPrefix(pieces: seq<seq<byte>>, n: nat) returns (rest: Bits)
    requires n <= |pieces|
    ensures BytesToBits(Joined(pieces, |pieces|)) == BytesToBits(Joined(pieces, n)) + rest
    decreases |pieces| - n
  {
    if n == |pieces| {
      rest := [];
    } else {
      var more := JoinedPrefix(pieces, n + 1);
      JoinedNext(pieces, n);
      ConcatAssoc(BytesToBits(Joined(pieces, n)), BytesToBits(pieces[n]), more);
      rest := BytesToBits(pieces[n]) + more;
    }
  }

  lemma JoinedStart(pieces: seq<seq<byte>>)
    ensures BytesToBits(Joined(pieces, 0)) == []
  {
  }

  lemma JoinedNext(pieces: seq<seq<byte>>, i: nat)
    requires i < |pieces|
    ensures BytesToBits(Joined(pieces, i + 1)) == BytesToBits(Joined(pieces, i)) + BytesToBits(pieces[i])
  {
    BytesToBitsAppend(Joined(pieces, i), pieces[i]);
  }
}
