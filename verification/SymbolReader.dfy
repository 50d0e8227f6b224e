// Reading a block's symbols: the coding tables, the groups of fifty, and the
// bit-by-bit recognition of codes, suspended whenever the input runs out.
module SymbolReader {
  import opened Words
  import opened Bits
  import opened BitIO
  import opened Alphabet
  import opened Mtf
  import opened MtfCache
  import opened Canonical
  import opened Decoder
  import opened DecoderRun
  import opened SymbolStage

  /** The decoding tables for a list of tables of lengths. */
  method MakeTables(lens: seq<seq<int>>) returns (tables: seq<Table>)
    requires forall t {:trigger lens[t]} :: 0 <= t < |lens| ==> Lens(lens[t])
    ensures |tables| == |lens| && forall t {:trigger tables[t]} {:trigger lens[t]} :: 0 <= t < |lens| ==> tables[t] == TableOf(lens[t])
  {
    hide TableOf, MinLen, MaxLen;
    tables := [];
    for t := 0 to |lens|
      invariant |tables| == t && forall u {:trigger tables[u]} {:trigger lens[u]} :: 0 <= u < t ==> tables[u] == TableOf(lens[u])
    {
      var len := lens[t];
      var alphaSize := |len|;
      var minLen, maxLen := 32, 0;
      BoundsStart(len);
      for i := 0 to alphaSize
        invariant minLen == MinLen(len, i) && maxLen == MaxLen(len, i)
      {
        BoundsNext(len, i);
        if len[i] > maxLen {
          maxLen := len[i];
        }
        if len[i] < minLen {
          minLen := len[i];
        }
      }
      var limit, base, perm := new int[MAX_CODE_LEN], new int[MAX_CODE_LEN], new int[258];
      CreateDecodeTables(limit, base, perm, len, minLen, maxLen, alphaSize);
      tables := tables + [Table(minLen, limit[..], base[..], perm[..alphaSize])];
    }
  }

  lemma BoundsStart(len: seq<int>)
    ensures MinLen(len, 0) == 32 && MaxLen(len, 0) == 0
  {
  }

  lemma BoundsNext(len: seq<int>, i: nat)
    requires i < |len|
    ensures MinLen(len, i + 1) == if len[i] < MinLen(len, i) then len[i] else MinLen(len, i)
    ensures MaxLen(len, i + 1) == if len[i] > MaxLen(len, i) then len[i] else MaxLen(len, i)
  {
  }

  datatype Reading = NoInput | BadCode | Got1(sym: int)

  datatype Outcome = Suspended | BlockRead | BadBlock

  class SymbolDecoder {
    const reader: BitReader
    const builder: ColumnBuilder
    const b: Block
    const tables: seq<Table>
    ghost const lens: seq<seq<int>>
    var groupNo: int
    var groupPos: nat
    var gSel: nat
    var zn: nat
    var zvec: int
    var begun: bool  // the first bits of the code being read are in zvec

    ghost predicate Shape() {
      && ValidBlock(b) && ValidLens(b, lens) && |lens| == b.nGroups == |tables| && builder.p == ParamsOf(b)
      && forall t {:trigger tables[t]} {:trigger lens[t]} :: 0 <= t < |lens| ==> tables[t] == TableOf(lens[t])
    }

    ghost predicate Placed()
      requires Shape()
      reads this`groupNo, this`gSel, this`zn, this`zvec, this`begun
    {
      && 0 <= groupNo < |b.selector| && gSel == b.selector[groupNo]
      && (if begun then zvec >= 0 && Reachable(lens[gSel], zn, 2 * zvec) else zn == MinLen(lens[gSel], |lens[gSel]|))
    }

    ghost predicate Valid()
      reads this, reader, builder, builder.cache, builder.cache.mtfa, builder.cache.mtfbase, builder.store, builder.unzftab
    {
      reader.Valid() && builder.Valid() && Shape() && Placed()
    }

    /** Where the decoder stands, as a state of the machine. */
    ghost function At(): State
      requires groupNo >= 0
      reads this, builder
    {
      if begun then ValueBit(b, lens, builder.core, groupNo, groupPos, zn, zvec) else Value(b, lens, builder.core, groupNo, groupPos, zn)
    }

    lemma AtValid()
      requires Valid()
      ensures Decoder.Valid(At()) && !Halted(At()) && Need(At()) == (if begun then 1 else zn) && 1 <= Need(At()) <= 20
      ensures Lens(lens[gSel]) && |lens[gSel]| == AlphaSize(b.inUse) == ParamsOf(b).eob + 1 && ValidCoding(b, lens, builder.core, groupNo)
    {
      hide Rank, Reachable, ColumnBuilder.Listed, ColumnBuilder.Stored, ColumnBuilder.Counted;
      StartsAtMin(lens[gSel]);
    }

    /** Ready for the first symbol of a block. */
    constructor (reader: BitReader, builder: ColumnBuilder, b: Block, lens: seq<seq<int>>)
      requires reader.Valid() && builder.Valid() && builder.p == ParamsOf(b) && ValidBlock(b) && ValidLens(b, lens) && |lens| == b.nGroups
      ensures Valid() && this.reader == reader && this.builder == builder && this.b == b && this.lens == lens
      ensures At() == NextValue(b, lens, builder.core, -1, 0)
    {
      hide Rank, Reachable, TableOf, BitReader.Valid, ColumnBuilder.Valid;
      var ts := MakeTables(lens);
      this.reader, this.builder, this.b, tables, this.lens := reader, builder, b, ts, lens;
      groupNo, groupPos, gSel, zn, zvec, begun := -1, 0, 0, 0, 0, false;
      new;
      var ok := MoveOn();
    }

    /** Prepares for the next symbol, changing to the next group's table when fifty have been read. */
    method MoveOn() returns (ok: bool)
      requires Shape() && -1 <= groupNo < |b.selector| && (groupNo == -1 ==> groupPos == 0)
      modifies this`groupNo, this`groupPos, this`gSel, this`zn, this`begun
      ensures ok ==> Placed() && At() == NextValue(b, lens, builder.core, old(groupNo), old(groupPos))
      ensures !ok ==> NextValue(b, lens, builder.core, old(groupNo), old(groupPos)) == Failed(BadData)
      ensures old(groupNo) == -1 ==> ok
    {
      hide Rank, Reachable, ColumnBuilder.Valid, MinLen, ValidCore, TableOf;
      if groupPos == 0 {
        if groupNo + 1 >= |b.selector| {
          return false;
        }
        groupNo := groupNo + 1;
        groupPos := G_SIZE;
      }
      gSel := b.selector[groupNo];
      groupPos := groupPos - 1;
      TableMin(gSel);
      zn := tables[gSel].minLen;
      begun := false;
      ok := true;
    }

    lemma TableMin(t: nat)
      requires Shape() && t < |lens|
      ensures tables[t].minLen == MinLen(lens[t], |lens[t]|) >= 1 && Lens(lens[t])
    {
      hide Rank;
      StartsAtMin(lens[t]);
    }

    /** The first bits of a code, or one more. */
    method ReadBits() returns (starved: bool, ghost piece: Bits)
      requires Valid()
      modifies this`zvec, reader
      ensures reader.Valid() && old(reader.Pending()) == piece + reader.Pending()
      ensures starved ==> Valid() && piece == [] && zvec == old(zvec) && |reader.Pending()| < Need(At()) && reader.input == []
      ensures !starved ==> |piece| >= 1 && zvec >= 0 && Reading1() && Takes(old(At()), piece, OnCode(b, lens, builder.core, groupNo, groupPos, zn, zvec))
    {
      hide *;
      piece := [];
      AtValid();
      ReadyToRead();
      ghost var s, before := At(), reader.Pending();
      var k := if begun then 1 else zn;
      var got := reader.GetBits(k);
      if got.Starved? {
        starved := true;
        assert [] + before == before;
        BackAgain();
        return;
      }
      starved := false;
      piece := ToBits(got.v, k);
      TakesValue(s, got.v, k);
      zvec := if begun then 2 * zvec + got.v else got.v;
      StepHere(s, got.v, zn, zvec);
      NowReading1();
    }

    lemma NowReading1()
      requires builder.Valid() && Shape() && 0 <= groupNo < |b.selector| && gSel == b.selector[groupNo]
      requires ValidCoding(b, lens, builder.core, groupNo) && Reachable(lens[gSel], zn, zvec)
      ensures Reading1()
    {
    }

    /** A code may have ended with the bits read. */
    ghost predicate Reading1()
      reads this, builder, builder.cache, builder.cache.mtfa, builder.cache.mtfbase, builder.store, builder.unzftab
    {
      && builder.Valid() && Shape() && 0 <= groupNo < |b.selector| && gSel == b.selector[groupNo]
      && ValidCoding(b, lens, builder.core, groupNo) && Reachable(lens[gSel], zn, zvec)
    }

    lemma ReadyToRead()
      requires Valid()
      ensures reader.Valid() && builder.Valid() && Shape() && 0 <= groupNo < |b.selector| && gSel == b.selector[groupNo]
      ensures At() == if begun then ValueBit(b, lens, builder.core, groupNo, groupPos, zn, zvec) else Value(b, lens, builder.core, groupNo, groupPos, zn)
      ensures Placed()
    {
      hide ColumnBuilder.Valid, Reachable, Rank;
    }

    lemma BackAgain()
      requires reader.Valid() && builder.Valid() && Shape() && Placed()
      ensures Valid()
    {
    }

    /** No code yet: one more bit is wanted. */
    method WantMore()
      requires reader.Valid() && Reading1() && zvec >= 0 && MatchCode(TableOf(lens[gSel]), zn, zvec) == Longer
      modifies this`zn, this`begun
      ensures Valid() && At() == old(OnCode(b, lens, builder.core, groupNo, groupPos, zn, zvec))
    {
      hide ColumnBuilder.Valid, Reachable, Rank, TableOf, MatchCode;
      ReachableNext(lens[gSel], zn, zvec, 0);
      zn := zn + 1;
      begun := true;
    }

    /** Reads bits until they form a code. */
    method ReadSymbol() returns (r: Reading, ghost c: Bits)
      requires Valid()
      modifies this`zn, this`zvec, this`begun, reader
      ensures reader.Valid() && old(reader.Pending()) == c + reader.Pending()
      ensures r.NoInput? ==> Valid() && Takes(old(At()), c, At()) && |reader.Pending()| < Need(At()) && reader.input == []
      ensures r.BadCode? ==> Takes(old(At()), c, Failed(BadData))
      ensures r.Got1? ==> c != [] && builder.Valid() && 0 <= r.sym <= ParamsOf(b).eob && ValidCoding(b, lens, builder.core, groupNo)
                          && Takes(old(At()), c, OnValue(b, lens, builder.core, groupNo, groupPos, r.sym))
    {
      hide *;
      c := [];
      AtValid();
      ReadyToRead();
      ghost var s0, core, p0 := At(), builder.core, reader.Pending();
      TakesNothing(s0);
      assert [] + p0 == p0;
      while true
        invariant Valid() && reader.Valid() && builder.core == core && p0 == c + reader.Pending()
        invariant Takes(s0, c, At())
        decreases |reader.Pending()|
      {
        ReadyToRead();
        ghost var s := At();
        var starved;
        ghost var piece;
        starved, piece := ReadBits();
        if starved {
          AtValid();
          return NoInput, c;
        }
        Reading1Facts();
        TakesBoth(s0, c, s, piece, OnCode(b, lens, builder.core, groupNo, groupPos, zn, zvec));
        ConcatAssoc(c, piece, reader.Pending());
        c := c + piece;
        var t := tables[gSel];
        MatchedHere(zn, zvec);
        if zn > 20 {  // the longest code
          return BadCode, c;
        }
        if zvec <= t.limit[zn] {
          if zvec - t.base[zn] < 0 || zvec - t.base[zn] >= 258 {
            return BadCode, c;
          }
          return Got1(t.perm[zvec - t.base[zn]]), c;
        }
        WantMore();
      }
    }

    lemma Reading1Facts()
      requires Reading1()
      ensures builder.Valid() && Shape() && 0 <= groupNo < |b.selector| && gSel == b.selector[groupNo] < |lens| == |tables|
      ensures ValidCoding(b, lens, builder.core, groupNo) && Reachable(lens[gSel], zn, zvec)
      ensures tables[gSel] == TableOf(lens[gSel]) && |tables[gSel].limit| == |tables[gSel].base| == 23
    {
      hide ColumnBuilder.Valid, Reachable, Rank, TableOf;
    }

    /** What the value read leads to. */
    lemma StepHere(s: State, v: nat, zn1: nat, zvec1: int)
      requires Shape() && 0 <= groupNo < |b.selector| && gSel == b.selector[groupNo] && zn1 == zn
      requires Decoder.Valid(s)
      requires || (s == Value(b, lens, builder.core, groupNo, groupPos, zn1) && zvec1 == v)
               || (s.ValueBit? && s == ValueBit(b, lens, builder.core, groupNo, groupPos, zn1, s.zvec) && zvec1 == 2 * s.zvec + v)
      ensures ValidCoding(b, lens, builder.core, groupNo) && zvec1 >= 0 && Reachable(lens[gSel], zn1, zvec1)
      ensures Step(s, v) == OnCode(b, lens, builder.core, groupNo, groupPos, zn1, zvec1)
    {
      hide Rank, Reachable, OnCode, ColumnBuilder.Valid;
      if s.Value? {
        ReachableStart(lens[gSel], v);
      } else {
        ReachableUp(lens[gSel], zn1, 2 * s.zvec, zvec1);
      }
    }

    /** What the table says about the bits read so far. */
    lemma MatchedHere(zn1: nat, zvec1: int)
      requires Shape() && 0 <= groupNo < |b.selector| && gSel == b.selector[groupNo]
      requires ValidCoding(b, lens, builder.core, groupNo) && Reachable(lens[gSel], zn1, zvec1)
      ensures |TableOf(lens[gSel]).limit| == |TableOf(lens[gSel]).base| == 23
      ensures var t, code := TableOf(lens[gSel]), OnCode(b, lens, builder.core, groupNo, groupPos, zn1, zvec1);
              if zn1 > 20 then code == Failed(BadData)
              else if zvec1 > t.limit[zn1] then
                MatchCode(t, zn1, zvec1) == Longer && code == ValueBit(b, lens, builder.core, groupNo, groupPos, zn1 + 1, zvec1)
              else
                && 0 <= zvec1 - t.base[zn1] < |t.perm| && zvec1 - t.base[zn1] < 258
                && 0 <= t.perm[zvec1 - t.base[zn1]] <= ParamsOf(b).eob
                && code == OnValue(b, lens, builder.core, groupNo, groupPos, t.perm[zvec1 - t.base[zn1]])
    {
      hide Rank, Reachable, TableOf, OnValue;
      if zn1 <= LONGEST && zvec1 <= TableOf(lens[gSel]).limit[zn1] {
        LookupInTable(lens[gSel], zn1, zvec1);
      }
    }

    /** What the machine does with a symbol. */
    lemma ValueMeans(core: Core, sym: int)
      requires groupNo >= 0 && ValidCoding(b, lens, core, groupNo) && 0 <= sym <= ParamsOf(b).eob
      ensures ValidCore(core, ParamsOf(b)) && ValidBlock(b) && ValidLens(b, lens) && |lens| == b.nGroups && groupNo < |b.selector|
      ensures OnValue(b, lens, core, groupNo, groupPos, sym)
           == match OnSymbol(core, ParamsOf(b), sym)
              case Bad => Failed(BadData)
              case More(c) => NextValue(b, lens, c, groupNo, groupPos)
              case Done(c) => if b.h.origPtr >= |c.tt| then Failed(BadData) else Output(b.h, c.tt)
    {
      hide Rank, OnSymbol, NextValue;
    }

    /** Reads symbols until the block ends, something is wrong, or the input runs out. */
    method DecodeSymbols() returns (o: Outcome, ghost c: Bits)
      requires Valid()
      modifies this, reader, builder, builder.cache.mtfa, builder.cache.mtfbase, builder.store, builder.unzftab
      ensures reader.Valid() && old(reader.Pending()) == c + reader.Pending()
      ensures o.Suspended? ==> Valid() && groupNo >= 0 && Takes(old(At()), c, At()) && |reader.Pending()| < Need(At()) && reader.input == []
      ensures o.BlockRead? ==> builder.Valid() && b.h.origPtr < |builder.core.tt| && Takes(old(At()), c, Output(b.h, builder.core.tt))
      ensures o.BadBlock? ==> Takes(old(At()), c, Failed(BadData))
    {
      hide *;
      AtValid();
      ReadyToRead();
      c := [];
      ghost var s0, p0 := At(), reader.Pending();
      TakesNothing(s0);
      assert [] + p0 == p0;
      while true
        invariant Valid() && reader.Valid() && p0 == c + reader.Pending() && groupNo >= 0
        invariant Takes(s0, c, At())
        decreases |reader.Pending()|
      {
        ReadyToRead();
        ghost var s, core := At(), builder.core;
        var r;
        ghost var piece;
        r, piece := ReadSymbol();
        ghost var t := if r.NoInput? then At() else if r.BadCode? then Failed(BadData) else OnValue(b, lens, core, groupNo, groupPos, r.sym);
        TakesBoth(s0, c, s, piece, t);
        ConcatAssoc(c, piece, reader.Pending());
        c := c + piece;
        if r.NoInput? {
          return Suspended, c;
        }
        if r.BadCode? {
          return BadBlock, c;
        }
        ValueMeans(core, r.sym);
        CoreParams();
        var v := builder.OnSymbol(r.sym);
        if v == Corrupt {
          return BadBlock, c;
        }
        if v == EndOfBlock {
          BuilderFacts();
          if b.h.origPtr >= builder.nblock {
            return BadBlock, c;
          }
          return BlockRead, c;
        }
        BuilderFacts();
        var ok := MoveOn();
        if !ok {
          return BadBlock, c;
        }
        BackAgain();
        ReadyToRead();
      }
    }

    lemma CoreParams()
      requires Shape()
      ensures builder.p == ParamsOf(b)
    {
    }

    lemma BuilderFacts()
      requires builder.Valid()
      ensures |builder.core.tt| == builder.nblock
    {
    }
  }
}
