// The compressor's stream state: bytes are gathered into runs, runs into
// blocks, and blocks into the output, whatever pieces the caller works in.
module Compressor {
  import opened Words
  import opened Bits
  import opened BitIO
  import opened RunLength
  import opened Alphabet
  import opened GenerateMtf
  import opened Crc
  import opened BlockFormat
  import opened BlockWriter
  import opened BlockRoundTrip
  import opened CompressBlock
  import opened Stream
  import opened OutputBound

  // Sequences of blocks grow at the end.

  lemma {:induction false} BlocksAppend(table: CrcTable, level: nat, qs: seq<Plan>, q: Plan)
    requires GoodPlans(level, qs) && GoodPlan(level, q)
    ensures GoodPlans(level, qs + [q])
    ensures BlocksBits(table, level, qs + [q]) == BlocksBits(table, level, qs) + BlockBits(table, level, q)
    decreases |qs|
  {
    hide GoodPlan, BlockBits;
    var all := qs + [q];
    if qs == [] {
      assert all[1..] == [];
      assert BlockBits(table, level, q) + [] == [] + BlockBits(table, level, q);
    } else {
      assert all[1..] == qs[1..] + [q];
      BlocksAppend(table, level, qs[1..], q);
      ConcatAssoc(BlockBits(table, level, qs[0]), BlocksBits(table, level, qs[1..]), BlockBits(table, level, q));
    }
  }

  lemma {:induction false} CombinedAppend(table: CrcTable, c: u32, qs: seq<Plan>, q: Plan)
    ensures CombinedFrom(table, c, qs + [q]) == Combine(CombinedFrom(table, c, qs), BlockCrcOf(table, Expand(q.runs)))
    decreases |qs|
  {
    hide Combine, BlockCrcOf, Expand;
    var all := qs + [q];
    if qs == [] {
      assert all[1..] == [];
    } else {
      assert all[1..] == qs[1..] + [q];
      CombinedAppend(table, Combine(c, BlockCrcOf(table, Expand(qs[0].runs))), qs[1..], q);
    }
  }

  lemma {:induction false} ContentAppend(qs: seq<Plan>, q: Plan)
    ensures Content(qs + [q]) == Content(qs) + Expand(q.runs)
    decreases |qs|
  {
    hide Expand;
    var all := qs + [q];
    if qs == [] {
      assert all[1..] == [];
      assert Expand(q.runs) + [] == [] + Expand(q.runs);
    } else {
      assert all[1..] == qs[1..] + [q];
      ContentAppend(qs[1..], q);
      ConcatAssoc(Expand(qs[0].runs), Content(qs[1..]), Expand(q.runs));
    }
  }

  /** A block's head alone is more than what waits in the bit buffer. */
  lemma LongBlock(table: CrcTable, level: nat, q: Plan)
    requires GoodPlan(level, q)
    ensures |BlockBits(table, level, q)| > 32
  {
    hide GoodPlan, MappingBits, SelectorBits, TablesFrom, DataFrom, BlockCrcOf, Mtfv;
  }

  // The run being formed.

  const NO_CHAR := 256

  ghost function Pending(ch: int, len: int): (s: seq<byte>)
    requires ch < 256 ==> 0 <= ch && 0 <= len
  {
    if ch < 256 then Repeat(ch, len) else []
  }

  /** The block's closed runs, its bytes, checksum and used-byte map agree, and the open run may follow them. */
  ghost predicate Gathered(table: CrcTable, runs: seq<Run>, b: seq<byte>, inUse: UseMap, crc: u32, ch: int, len: int) {
    && WellFormed(runs) && b == Encode(runs) && Covers(inUse, b) && crc == Fold(table, ALL_ONES, Expand(runs))
    && 0 <= ch <= NO_CHAR && (if ch < 256 then 1 <= len <= 255 else len == 0)
    && (ch < 256 && runs != [] ==> runs[|runs| - 1].ch as int != ch || runs[|runs| - 1].len == 255)
  }

  /** Closing the open run. */
  lemma CloseRun(table: CrcTable, runs: seq<Run>, b: seq<byte>, inUse: UseMap, crc: u32, ch: int, len: int, inUse2: UseMap)
    requires Gathered(table, runs, b, inUse, crc, ch, len) && ch < 256
    requires forall c: nat :: c < 256 ==> inUse2[c] == (inUse[c] || c == ch || (len >= 4 && c == len - 4))
    ensures var r := Run(ch, len);
            && 1 <= r.len <= 255 && WellFormed(runs + [r])
            && Gathered(table, runs + [r], b + EncodeRun(r), inUse2, Fold(table, crc, Repeat(ch, len)), NO_CHAR, 0)
            && Expand(runs + [r]) == Expand(runs) + Repeat(ch, len)
  {
    hide Encode, Expand, Fold;
    var r := Run(ch, len);
    WellFormedAppend(runs, r);
    EncodeAppend(runs, r);
    FoldAppend(table, ALL_ONES, Expand(runs), Repeat(ch, len));
    CoversRun(inUse, inUse2, b, r);
  }

  lemma CoversRun(inUse: UseMap, inUse2: UseMap, b: seq<byte>, r: Run)
    requires Covers(inUse, b) && 1 <= r.len <= 255
    requires forall c: nat :: c < 256 ==> inUse2[c] == (inUse[c] || c == r.ch as int || (r.len >= 4 && c == r.len - 4))
    ensures Covers(inUse2, b + EncodeRun(r))
  {
  }

  /** A run may be opened after the closed ones. */
  lemma OpenRun(table: CrcTable, runs: seq<Run>, b: seq<byte>, inUse: UseMap, crc: u32, ch: int)
    requires Gathered(table, runs, b, inUse, crc, NO_CHAR, 0) && 0 <= ch < 256
    requires runs != [] ==> runs[|runs| - 1].ch as int != ch || runs[|runs| - 1].len == 255
    ensures Gathered(table, runs, b, inUse, crc, ch, 1)
  {
  }

  lemma LongerRun(table: CrcTable, runs: seq<Run>, b: seq<byte>, inUse: UseMap, crc: u32, ch: int, len: int)
    requires Gathered(table, runs, b, inUse, crc, ch, len) && ch < 256 && len < 255
    ensures Gathered(table, runs, b, inUse, crc, ch, len + 1)
    ensures Repeat(ch, len + 1) == Repeat(ch, len) + [ch as byte]
  {
  }

  datatype Mode = Idle | Running | Flushing | Finishing
  datatype Phase = Input | Output
  datatype Action = DoRun | DoFlush | DoFinish
  datatype Result = RunOk | FlushOk | FinishOk | StreamEnded | SequenceError | ParamError

  class Encoder {
    const table: CrcTable
    const level: nat
    const nblockMAX: int
    const block: array<byte>
    const w: BitWriter

    var mode: Mode
    var phase: Phase
    var availInExpect: nat
    var nextIn: seq<byte>  // what the caller has supplied and is not yet consumed
    var availOut: nat      // how many bytes the caller can still take

    var stateInCh: int
    var stateInLen: int
    var nblock: nat
    var inUse: UseMap
    var blockCRC: u32
    var combinedCRC: u32
    var blockNo: nat
    var stateOutPos: nat

    ghost var runs: seq<Run>        // closed runs of the open block
    ghost var plans: seq<Plan>      // closed blocks
    ghost var consumed: seq<byte>   // all input so far
    ghost var emitted: seq<byte>    // output of earlier blocks, all taken by the caller
    ghost var headed: bool          // the stream header has been written
    ghost var ended: bool           // the stream trailer has been written
    ghost var early: nat            // blocks closed before they were full

    ghost predicate Shape() {
      1 <= level <= 9 && nblockMAX == 100000 * level - 19 && block.Length == 100000 * level
    }

    /** The open block and the open run. */
    ghost predicate Gathering()
      reads this`nblock, this`inUse, this`blockCRC, this`runs, this`stateInCh, this`stateInLen, block
    {
      && Shape() && nblock <= block.Length
      && Gathered(table, runs, block[..nblock], inUse, blockCRC, stateInCh, stateInLen)
    }

    /** Closed blocks, the open block and the open run together are the bytes consumed. */
    ghost predicate Accounted()
      reads this`plans, this`runs, this`stateInCh, this`stateInLen, this`consumed, this`early
    {
      && FullBut(level, plans, early)
      && 0 <= stateInCh <= NO_CHAR && (if stateInCh < 256 then 1 <= stateInLen <= 255 else stateInLen == 0)
      && consumed == Content(plans) + Expand(runs) + Pending(stateInCh, stateInLen)
    }

    /** The bits written are those of the closed blocks. */
    ghost predicate Transmitted()
      reads this`plans, this`combinedCRC, this`emitted, this`headed, w
    {
      && w.Valid() && 1 <= level <= 9 && GoodPlans(level, plans) && combinedCRC == CombinedFrom(table, 0, plans)
      && BytesToBits(emitted) + w.Written() == (if headed then StreamHead(level) + BlocksBits(table, level, plans) else [])
      && (!headed ==> plans == [])
    }

    /** The whole stream has been written. */
    ghost predicate Complete()
      reads this`plans, this`emitted, w
    {
      && 1 <= level <= 9 && GoodPlans(level, plans)
      && exists pad: nat :: pad < 8 && BytesToBits(emitted + w.zbits) == StreamBits(table, level, plans) + Zeros(pad)
    }

    ghost predicate Done()
      reads this`plans, this`emitted, this`phase, this`mode, this`consumed, this`stateInCh, this`availInExpect, w
    {
      phase == Output && (mode == Finishing || mode == Idle) && availInExpect == 0 && Complete() && consumed == Content(plans) && stateInCh == NO_CHAR
    }

    ghost predicate Filling()
      reads this`nblock, this`inUse, this`blockCRC, this`runs, this`stateInCh, this`stateInLen, this`headed, this`blockNo, this`stateOutPos, block, w
    {
      && Gathering() && nblock <= nblockMAX + 4 && (stateInCh == NO_CHAR ==> runs == [])
      && (headed <==> blockNo > 1) && stateOutPos == 0 && w.zbits == []
    }

    ghost predicate Valid()
      reads this, block, w
    {
      && Shape() && Accounted() && stateOutPos <= |w.zbits| && blockNo >= 1
      && (if ended then Done() else mode != Idle && Transmitted())
      && (if phase == Input then !ended && Filling() else runs == [] && headed && (!ended && stateInCh == NO_CHAR ==> mode == Flushing))
    }

    /** All output handed to the caller so far. */
    ghost function Delivered(): seq<byte>
      reads this`emitted, this`stateOutPos, w
      requires stateOutPos <= |w.zbits|
    {
      emitted + w.zbits[..stateOutPos]
    }

    /** BZ2_bzCompressInit. */
    constructor (level: nat, table: CrcTable)
      requires 1 <= level <= 9
      ensures Valid() && Resting() && mode == Running && phase == Input && consumed == [] && Delivered() == [] && nextIn == [] && availOut == 0
      ensures early == 0 && !ended
      ensures this.level == level && this.table == table && fresh(block) && fresh(w) && nblockMAX == 100000 * level - 19
    {
      hide FullBut, Content, CombinedFrom, GoodPlans, Gathered, BlocksBits, Expand, Holds;
      this.table, this.level, nblockMAX := table, level, 100000 * level - 19;
      block := new byte[100000 * level];
      w := new BitWriter();
      mode, phase, availInExpect, nextIn, availOut := Running, Input, 0, [], 0;
      stateInCh, stateInLen := NO_CHAR, 0;
      nblock, inUse, blockCRC, combinedCRC, blockNo, stateOutPos := 0, seq(256, _ => false), ALL_ONES, 0, 1, 0;
      runs, plans, consumed, emitted, headed, ended, early := [], [], [], [], false, false, 0;
      new;
      assert block[..0] == [];
      assert BytesToBits([]) + w.Written() == [];
      NothingYet(table, level, inUse);
    }

    /** Puts the bytes that stand for the open run behind the block, and marks them as used. */
    method StoreRun(ch: byte)
      requires stateInCh == ch as int && 1 <= stateInLen <= 255 && nblock + 5 <= block.Length
      modifies this`nblock, this`inUse, block
      ensures old(nblock) < nblock <= old(nblock) + 5 && block[..nblock] == old(block[..nblock]) + EncodeRun(Run(ch, stateInLen))
      ensures forall c: nat :: c < 256 ==> inUse[c] == (old(inUse)[c] || c == stateInCh || (stateInLen >= 4 && c == stateInLen - 4))
    {
      hide *;
      EncodeRunIs(ch, stateInLen);
      ghost var b := block[..nblock];
      inUse := inUse[stateInCh := true];
      if stateInLen == 1 {
        PutByte(ch);
      } else if stateInLen == 2 {
        PutByte(ch);
        PutByte(ch);
        assert block[..nblock] == b + [ch, ch];
      } else if stateInLen == 3 {
        PutThree(ch);
      } else {
        inUse := inUse[stateInLen - 4 := true];
        PutThree(ch);
        ConcatAssoc(b, [ch, ch, ch], [ch]);
        PutByte(ch);
        ConcatAssoc(b, [ch, ch, ch, ch], [stateInLen - 4]);
        PutByte(stateInLen - 4);
      }
    }

    method PutThree(c: byte)
      requires nblock + 2 < block.Length
      modifies this`nblock, block
      ensures nblock == old(nblock) + 3 && block[..nblock] == old(block[..nblock]) + [c, c, c]
    {
      PutByte(c);
      PutByte(c);
      PutByte(c);
    }

    method PutByte(c: byte)
      requires nblock < block.Length
      modifies this`nblock, block
      ensures nblock == old(nblock) + 1 && block[..nblock] == old(block[..nblock]) + [c]
    {
      block[nblock] := c;
      nblock := nblock + 1;
    }

    /** Appends the open run to the block. */
    method AddPairToBlock()
      requires Gathering() && stateInCh < 256 && nblock + 5 <= block.Length
      modifies this`nblock, this`inUse, this`blockCRC, this`runs, block
      ensures old(nblock) < nblock <= old(nblock) + 5
      ensures runs == old(runs) + [Run(stateInCh, stateInLen)]
      ensures Gathered(table, runs, block[..nblock], inUse, blockCRC, NO_CHAR, 0)
      ensures Expand(runs) == old(Expand(runs)) + Repeat(stateInCh, stateInLen)
    {
      hide Fold, Update, Expand, Encode, WellFormed, Covers, Gathered, Crc.Xor;
      GatheredRun(table, runs, block[..nblock], inUse, blockCRC, stateInCh, stateInLen);
      ghost var r := Run(stateInCh, stateInLen);
      ghost var b, crc, used := block[..nblock], blockCRC, inUse;
      var ch: byte := stateInCh;
      NothingFolded(table, crc, ch);
      for i := 0 to stateInLen
        invariant blockCRC == Fold(table, crc, Repeat(ch, i)) && inUse == used
        invariant nblock == old(nblock) && runs == old(runs) && block[..nblock] == b
      {
        FoldRepeat(table, crc, ch, i);
        blockCRC := Update(table, blockCRC, ch);
      }
      StoreRun(ch);
      CloseRun(table, runs, b, used, crc, stateInCh, stateInLen, inUse);
      runs := runs + [r];
    }

    /** Closes the open run, if there is one. */
    method FlushRL()
      requires Gathering() && Accounted() && nblock + 5 <= block.Length
      modifies this`nblock, this`inUse, this`blockCRC, this`runs, this`stateInCh, this`stateInLen, block
      ensures Gathering() && Accounted() && stateInCh == NO_CHAR
      ensures old(nblock) <= nblock <= old(nblock) + 5
    {
      hide FullBut, Fold, Expand, Encode, WellFormed, Covers, Content;
      ghost var before := Content(plans) + Expand(runs);
      if stateInCh < 256 {
        AddPairToBlock();
        ConcatAssoc(Content(plans), old(Expand(runs)), Repeat(stateInCh, stateInLen));
      }
      stateInCh, stateInLen := NO_CHAR, 0;
      assert Content(plans) + Expand(runs) + [] == Content(plans) + Expand(runs);
    }

    /** Appends an open run of one byte. */
    method AddSingle()
      requires Gathering() && stateInCh < 256 && stateInLen == 1 && nblock < nblockMAX
      modifies this`nblock, this`inUse, this`blockCRC, this`runs, block
      ensures nblock == old(nblock) + 1 && nblock <= block.Length
      ensures runs == old(runs) + [Run(stateInCh, 1)]
      ensures Gathered(table, runs, block[..nblock], inUse, blockCRC, NO_CHAR, 0)
      ensures Expand(runs) == old(Expand(runs)) + Repeat(stateInCh, 1)
    {
      hide Fold, Update, Expand, Encode, WellFormed, Covers, Gathered;
      GatheredRun(table, runs, block[..nblock], inUse, blockCRC, stateInCh, stateInLen);
      var ch: byte := stateInCh;
      ghost var b, crc, used := block[..nblock], blockCRC, inUse;
      NothingFolded(table, crc, ch);
      FoldRepeat(table, crc, ch, 0);
      blockCRC := Update(table, blockCRC, ch);
      inUse := inUse[stateInCh := true];
      block[nblock] := ch;
      nblock := nblock + 1;
      assert block[..nblock] == b + EncodeRun(Run(ch, 1));
      CloseRun(table, runs, b, used, crc, ch, 1, inUse);
      runs := runs + [Run(ch, 1)];
    }

    /** Adds one input byte. */
    method AddChar(zchh: byte)
      requires Gathering() && Accounted() && nblock < nblockMAX && (stateInCh == NO_CHAR ==> runs == [])
      modifies this`nblock, this`inUse, this`blockCRC, this`runs, this`stateInCh, this`stateInLen, this`consumed, block
      ensures Gathering() && Accounted() && nblock <= nblockMAX + 4 && stateInCh < 256
      ensures consumed == old(consumed) + [zchh]
    {
      hide FullBut, Fold, Update, Expand, Encode, WellFormed, Covers, Content;
      ghost var c, e := Content(plans), Expand(runs);
      if zchh as int != stateInCh && stateInLen == 1 {
        // The common case.
        ghost var ch := stateInCh;
        AddSingle();
        stateInCh := zchh;
        OpenRun(table, runs, block[..nblock], inUse, blockCRC, zchh);
        NewRun(c, e, Repeat(ch, 1), zchh);
      } else if zchh as int != stateInCh || stateInLen == 255 {
        if stateInCh < 256 {
          AddPairToBlock();
          NewRun(c, e, Repeat(stateInCh, stateInLen), zchh);
        } else {
          NewRun(c, e, [], zchh);
          assert e + [] == e;
        }
        stateInCh := zchh;
        stateInLen := 1;
        OpenRun(table, runs, block[..nblock], inUse, blockCRC, zchh);
      } else {
        LongerRun(table, runs, block[..nblock], inUse, blockCRC, stateInCh, stateInLen);
        ConcatAssoc(c + e, Repeat(stateInCh, stateInLen), [zchh]);
        stateInLen := stateInLen + 1;
      }
      consumed := consumed + [zchh];
    }

    /** Takes one byte of the input. */
    method TakeChar()
      requires Filling() && Accounted() && nblock < nblockMAX && nextIn != []
      modifies this`nblock, this`inUse, this`blockCRC, this`runs, this`stateInCh, this`stateInLen, this`consumed, this`nextIn, block
      ensures Filling() && Accounted() && consumed + nextIn == old(consumed + nextIn) && |nextIn| == |old(nextIn)| - 1
    {
      hide Gathering, Accounted, Gathered, Expand, Pending;
      Shift(consumed, nextIn);
      AddChar(nextIn[0]);
      nextIn := nextIn[1..];
    }

    /** Takes input until the block is full, the input is used up, or as much of it as was announced. */
    method CopyInputUntilStop() returns (progressIn: bool)
      requires Filling() && Accounted() && (mode != Running ==> availInExpect == |nextIn|)
      modifies this`nblock, this`inUse, this`blockCRC, this`runs, this`stateInCh, this`stateInLen, this`consumed, this`nextIn, this`availInExpect, block
      ensures Filling() && Accounted() && (mode != Running ==> availInExpect == |nextIn|)
      ensures consumed + nextIn == old(consumed + nextIn) && |nextIn| <= |old(nextIn)|
      ensures progressIn <==> |nextIn| < |old(nextIn)|
      ensures |nextIn| == |old(nextIn)| ==> nblock == old(nblock) && stateInCh == old(stateInCh) && runs == old(runs)
      ensures nblock >= nblockMAX || nextIn == []
    {
      hide *;
      progressIn := false;
      if mode == Running {
        while nblock < nblockMAX && nextIn != []
          invariant Filling() && Accounted() && consumed + nextIn == old(consumed + nextIn) && |nextIn| <= |old(nextIn)|
          invariant progressIn <==> |nextIn| < |old(nextIn)|
          invariant |nextIn| == |old(nextIn)| ==> nblock == old(nblock) && stateInCh == old(stateInCh) && runs == old(runs)
          decreases |nextIn|
        {
          progressIn := true;
          TakeChar();
        }
      } else {
        while nblock < nblockMAX && nextIn != [] && availInExpect != 0
          invariant Filling() && Accounted() && consumed + nextIn == old(consumed + nextIn) && |nextIn| <= |old(nextIn)|
          invariant availInExpect == |nextIn|
          invariant progressIn <==> |nextIn| < |old(nextIn)|
          invariant |nextIn| == |old(nextIn)| ==> nblock == old(nblock) && stateInCh == old(stateInCh) && runs == old(runs)
          decreases |nextIn|
        {
          progressIn := true;
          TakeChar();
          availInExpect := availInExpect - 1;
        }
      }
    }

    /** Hands out finished bytes until there is no room or none are left. */
    method CopyOutputUntilStop() returns (out: seq<byte>, progressOut: bool)
      requires stateOutPos <= |w.zbits|
      modifies this`stateOutPos, this`availOut
      ensures stateOutPos <= |w.zbits| && Delivered() == old(Delivered()) + out && availOut + |out| == old(availOut)
      ensures stateOutPos < |w.zbits| ==> availOut == 0
      ensures availOut + |out| == old(availOut) && (progressOut <==> out != []) && stateOutPos == old(stateOutPos) + |out|
    {
      out, progressOut := [], false;
      while availOut != 0 && stateOutPos < |w.zbits|
        invariant stateOutPos == old(stateOutPos) + |out|
        invariant stateOutPos <= |w.zbits| && Delivered() == old(Delivered()) + out
        invariant availOut + |out| == old(availOut) && (progressOut <==> out != [])
        decreases availOut
      {
        progressOut := true;
        Shift1(emitted, w.zbits, stateOutPos, out);
        out := out + [w.zbits[stateOutPos]];
        stateOutPos := stateOutPos + 1;
        availOut := availOut - 1;
      }
    }

    /** Sorts and sends the open block. */
    method SendOpenBlock()
      requires Gathering() && Accounted() && Transmitted() && 0 < nblock <= nblockMAX + 9 && headed
      modifies this`blockCRC, this`combinedCRC, this`plans, this`runs, this`early, block, w
      ensures runs == [] && Accounted() && Transmitted() && w.zbits != []
      ensures early == if nblock < nblockMAX then old(early) + 1 else old(early)
      ensures |w.Written()| + 200 <= old(|w.Written()|) + 8 * (4 * (100000 * level + 34) - nblock)
    {
      hide FullBut, Content, Expand, Encode, BlockCrcOf, Combine, Fold, BlocksBits, BlockBits, GoodPlan, BitWriter.Valid, BitWriter.Written, StreamHead, WellFormed,
           CombinedFrom, StoredRuns, Covers, Pending;
      BlockStored(table, level, runs, nblock, blockCRC);
      blockCRC := Not32(blockCRC);
      combinedCRC := Combine(combinedCRC, blockCRC);
      ghost var z := w.Written();
      ghost var q := SendOneBlock(w, block, nblock, inUse, blockCRC, level, table, runs);
      LongBlock(table, level, q);
      FitsBehind(table, level, q);
      w.HasBytes();
      BlocksAppend(table, level, plans, q);
      CombinedAppend(table, 0, plans, q);
      ContentAppend(plans, q);
      MoreWritten(BytesToBits(emitted), z, StreamHead(level), BlocksBits(table, level, plans), BlockBits(table, level, q));
      FullButNext(level, plans, early, q, nblock);
      early := if nblock < nblockMAX then early + 1 else early;
      plans := plans + [q];
      RunsMoved(Content(plans), Pending(stateInCh, stateInLen));
      runs := [];
    }

    /** Sends the open block, and after the last one the trailer. */
    method CompressBlock(isLastBlock: bool)
      requires Gathering() && Accounted() && Transmitted() && nblock <= nblockMAX + 9 && (headed <==> blockNo > 1) && blockNo >= 1
      requires isLastBlock ==> stateInCh == NO_CHAR
      modifies this`blockCRC, this`combinedCRC, this`plans, this`runs, this`headed, this`ended, this`early, block, w
      ensures runs == [] && headed && Accounted()
      ensures old(early) <= early <= old(early) + 1 && (nblock >= nblockMAX ==> early == old(early))
      ensures ended == (old(ended) || isLastBlock)
      ensures if isLastBlock then Complete() && consumed == Content(plans) else Transmitted()
      ensures isLastBlock || old(nblock) > 0 ==> w.zbits != []
      ensures old(w.zbits) == [] ==> |w.zbits| + nblock <= 4 * (100000 * level + 34)
    {
      hide Content, Expand, Encode, Fold, BlocksBits, GoodPlans, BitWriter.Valid, BitWriter.Written, StreamHead, StreamTail, WellFormed, CombinedFrom, Covers,
           Pending, Encoder.Complete, FullBut;
      WrittenLength();
      if blockNo == 1 {
        FirstHead();
      }
      if nblock > 0 {
        SendOpenBlock();
      } else {
        EmptyBlock(runs, block[..nblock]);
      }
      if isLastBlock {
        ghost var z := w.Written();
        WriteStreamTail(w, combinedCRC);
        ConcatAssoc(BytesToBits(emitted), z, StreamTail(combinedCRC));
        TailLength(combinedCRC);
        FinishStream();
        ended := true;
        AllClosed(Content(plans), stateInCh, stateInLen);
      }
      WrittenLength();
    }

    method FirstHead()
      requires Transmitted() && !headed
      modifies this`headed, w
      ensures Transmitted() && headed && |w.Written()| == old(|w.Written()|) + 32
    {
      hide BlocksBits, GoodPlans, BitWriter.Valid, BitWriter.Written, StreamHead, CombinedFrom;
      ghost var z := w.Written();
      WriteStreamHead(w, level);
      HeadBits(level);
      NoBlocks(table, level);
      HeadWritten(BytesToBits(emitted), z, StreamHead(level));
      headed := true;
    }

    /** Pads the stream to whole bytes. */
    method FinishStream()
      requires w.Valid() && 1 <= level <= 9 && GoodPlans(level, plans)
      requires BytesToBits(emitted) + w.Written() == StreamHead(level) + BlocksBits(table, level, plans) + StreamTail(CombinedFrom(table, 0, plans))
      modifies w
      ensures Complete() && old(|w.Written()|) <= 8 * |w.zbits| <= old(|w.Written()|) + 7
    {
      hide BlocksBits, StreamHead, StreamTail, BitWriter.Valid, BitWriter.Written, GoodPlans, CombinedFrom;
      ghost var z := w.Written();
      w.BsFinishWrite();
      ghost var pad: nat :| pad < 8 && BytesToBits(w.zbits) == z + Zeros(pad);
      BytesToBitsAppend(emitted, w.zbits);
      ConcatAssoc(BytesToBits(emitted), z, Zeros(pad));
      assert BytesToBits(emitted + w.zbits) == StreamBits(table, level, plans) + Zeros(pad);
    }

    /** Forgets the output the caller has taken; bits not yet forming a byte stay in the buffer. */
    method RestartOutput()
      requires Transmitted() && stateOutPos == |w.zbits|
      modifies this`stateOutPos, this`emitted, w
      ensures Transmitted() && stateOutPos == 0 && w.zbits == [] && Delivered() == old(Delivered())
    {
      hide BlocksBits, GoodPlans, BitWriter.Valid, BitWriter.Written, StreamHead, CombinedFrom;
      ghost var out := w.zbits;
      w.Restart();
      BytesToBitsAppend(emitted, out);
      ConcatAssoc(BytesToBits(emitted), BytesToBits(out), w.Written());
      AllTaken(emitted, out);
      emitted := emitted + out;
      stateOutPos := 0;
    }

    /** Starts a new block once the previous one's output has been taken. */
    method PrepareNewBlock()
      requires Accounted() && Transmitted() && runs == [] && headed && stateOutPos == |w.zbits| && Shape() && blockNo >= 1
      modifies this`nblock, this`stateOutPos, this`blockCRC, this`inUse, this`blockNo, this`emitted, w
      ensures Filling() && Accounted() && Transmitted() && nblock == 0 && blockNo == old(blockNo) + 1
      ensures Delivered() == old(Delivered())
    {
      hide *;
      OpenRunBounds();
      nblock := 0;
      RestartOutput();
      blockCRC := ALL_ONES;
      inUse := seq(256, _ => false);
      blockNo := blockNo + 1;
      NothingGathered(table, inUse, stateInCh, stateInLen);
      assert block[..0] == [];
      NowFilling();
    }

    lemma OpenRunBounds()
      requires Accounted() && Shape()
      ensures 0 <= stateInCh <= NO_CHAR && (if stateInCh < 256 then 1 <= stateInLen <= 255 else stateInLen == 0) && nblockMAX >= 0 && ALL_ONES == 0xffff_ffff
    {
      hide FullBut, Content, Expand, Pending;
    }

    lemma NowFilling()
      requires Shape() && 0 == nblock <= nblockMAX && Gathered(table, runs, block[..nblock], inUse, blockCRC, stateInCh, stateInLen)
      requires runs == [] && headed && blockNo > 1 && stateOutPos == 0 && w.zbits == []
      ensures Filling()
    {
      hide Gathered;
    }

    predicate IsEmptyRL()
      reads this`stateInCh, this`stateInLen
    {
      !(stateInCh < 256 && stateInLen > 0)
    }

    lemma RLIsEmpty()
      requires Accounted()
      ensures IsEmptyRL() <==> stateInCh == NO_CHAR
    {
    }

    lemma FullBlock()
      requires Filling() && nblock >= nblockMAX
      ensures stateInCh != NO_CHAR
    {
    }

    /** Hands out the finished block; `stop` when there is no room for all of it, or nothing more to do. */
    method OutputPhase() returns (out: seq<byte>, progressOut: bool, stop: bool)
      requires Valid() && phase == Output && mode != Idle && (mode != Running ==> availInExpect == |nextIn|) && (ended ==> nextIn == [])
      modifies this`stateOutPos, this`availOut, this`nblock, this`blockCRC, this`inUse, this`blockNo, this`emitted, this`phase, w
      ensures Valid() && Delivered() == old(Delivered()) + out && availOut + |out| == old(availOut)
      ensures phase == Output ==> stop && (ended || stateOutPos < |w.zbits|)
      ensures phase == Input && stop ==> mode == Flushing && nextIn == [] && IsEmptyRL()
      ensures stateOutPos < |w.zbits| ==> availOut == 0
      ensures !stop ==> nblock == 0 && (mode != Running && nextIn == [] ==> stateInCh != NO_CHAR)
      ensures progressOut <==> out != []
      ensures old(stateOutPos < |w.zbits|) && out == [] ==> phase == Output && stateOutPos < |w.zbits|
    {
      hide *;
      stop := true;
      WaitingFacts();
      out, progressOut := CopyOutputUntilStop();
      StillWaiting();
      if stateOutPos < |w.zbits| {
        return;
      }
      WaitingFacts();
      RLIsEmpty();
      if mode == Finishing && availInExpect == 0 && IsEmptyRL() {
        return;
      }
      PrepareNewBlock();
      phase := Input;
      StillFilling();
      FillingNow();
      if mode == Flushing && availInExpect == 0 && IsEmptyRL() {
        return;
      }
      stop := false;
    }

    /** What holds while a finished block waits to be taken. */
    ghost predicate Waiting()
      reads this`plans, this`combinedCRC, this`emitted, this`headed, this`ended, this`mode, this`phase, this`consumed, this`stateInCh, this`stateInLen,
            this`runs, this`blockNo, this`availInExpect, this`early, w
    {
      && Shape() && Accounted() && blockNo >= 1 && phase == Output && runs == [] && headed
      && (if ended then Done() else mode != Idle && Transmitted() && (stateInCh == NO_CHAR ==> mode == Flushing))
    }

    lemma WaitingFacts()
      requires Valid() && phase == Output
      ensures Waiting() && stateOutPos <= |w.zbits|
      ensures Shape() && Accounted() && blockNo >= 1 && runs == [] && headed
      ensures if ended then stateInCh == NO_CHAR && (mode == Finishing || mode == Idle) else Transmitted() && (stateInCh == NO_CHAR ==> mode == Flushing)
    {
      hide Encoder.Accounted, Encoder.Transmitted, Encoder.Complete;
    }

    lemma StillWaiting()
      requires Waiting() && stateOutPos <= |w.zbits|
      ensures Valid()
    {
      hide Encoder.Accounted, Encoder.Transmitted, Encoder.Complete;
    }

    /** Closes the block, and goes on with handing it out. */
    method TurnToOutput(isLastBlock: bool)
      requires Gathering() && Accounted() && Transmitted() && nblock <= nblockMAX + 9 && (headed <==> blockNo > 1) && blockNo >= 1
      requires Shape() && stateOutPos == 0 && mode != Idle && !ended
      requires isLastBlock ==> stateInCh == NO_CHAR && mode == Finishing && availInExpect == 0
      requires !isLastBlock && stateInCh == NO_CHAR ==> mode == Flushing
      modifies this`blockCRC, this`combinedCRC, this`plans, this`runs, this`headed, this`ended, this`early, this`phase, block, w
      ensures Valid() && phase == Output && ended == isLastBlock && stateOutPos <= |w.zbits|
      ensures old(early) <= early <= old(early) + 1 && (nblock >= nblockMAX ==> early == old(early))
      ensures isLastBlock || old(nblock) > 0 ==> w.zbits != []
    {
      hide *;
      CompressBlock(isLastBlock);
      phase := Output;
      BlockClosed();
    }

    /** Gathers input; `stop` when it runs out before the block has to be closed. */
    method InputPhase() returns (progressIn: bool, stop: bool)
      requires Valid() && phase == Input && (mode != Running ==> availInExpect == |nextIn|)
      modifies this`nblock, this`inUse, this`blockCRC, this`runs, this`stateInCh, this`stateInLen, this`consumed, this`nextIn, this`availInExpect,
               this`combinedCRC, this`plans, this`headed, this`ended, this`early, this`phase, block, w
      ensures Valid() && (mode != Running ==> availInExpect == |nextIn|) && (ended ==> nextIn == [])
      ensures consumed + nextIn == old(consumed + nextIn) && |nextIn| <= |old(nextIn)| && Delivered() == old(Delivered())
      ensures if stop then phase == Input && mode == Running && stateOutPos >= |w.zbits| && nextIn == [] else phase == Output
      ensures progressIn <==> |nextIn| < |old(nextIn)|
      ensures mode != Flushing ==> early <= old(early) + (if ended then 1 else 0)
      ensures mode == Finishing ==> stateOutPos < |w.zbits|
      ensures |nextIn| == |old(nextIn)| ==> (stateInCh == old(stateInCh) || stateInCh == NO_CHAR) && (old(nblock) == 0 && !stop ==> stateInCh == NO_CHAR && nextIn == [] && mode != Running)
    {
      hide *;
      FillingNow();
      NothingTaken();
      progressIn := CopyInputUntilStop();
      FillingFacts();
      stop := false;
      if mode != Running && availInExpect == 0 {
        FlushRL();
        TurnToOutput(mode == Finishing);
      } else if nblock >= nblockMAX {
        FullBlock();
        TurnToOutput(false);
      } else {
        StillFilling();
        FillingNow();
        if nextIn == [] {
          stop := true;
        }
      }
      NothingTaken();
    }

    lemma FillingNow()
      requires Valid() && phase == Input
      ensures Shape() && Filling() && Accounted() && Transmitted() && !ended && mode != Idle && blockNo >= 1 && stateOutPos == 0 && w.zbits == []
    {
      hide Encoder.Accounted, Encoder.Transmitted, Gathered;
    }

    lemma FillingFacts()
      requires Filling()
      ensures Gathering() && nblock <= nblockMAX + 4 && (headed <==> blockNo > 1)
      ensures nblock + 5 <= block.Length && nblockMAX > 0
    {
      hide Gathered;
    }

    /** After a block has been closed. */
    lemma BlockClosed()
      requires Shape() && Accounted() && blockNo >= 1 && phase == Output && runs == [] && headed && stateOutPos == 0 && mode != Idle
      requires if ended then mode == Finishing && availInExpect == 0 && Complete() && consumed == Content(plans) && stateInCh == NO_CHAR else Transmitted()
      requires !ended && stateInCh == NO_CHAR ==> mode == Flushing
      ensures Valid()
    {
      hide Encoder.Accounted, Encoder.Transmitted, Encoder.Complete, Content;
    }

    lemma StillFilling()
      requires Shape() && Filling() && Accounted() && Transmitted() && !ended && mode != Idle && blockNo >= 1 && phase == Input
      ensures Valid()
    {
      hide Encoder.Accounted, Encoder.Transmitted, Gathered;
    }

    lemma NothingTaken()
      requires stateOutPos == 0
      ensures Delivered() == emitted + []
    {
    }

    /** Between calls a finished block has something left to hand out. */
    ghost predicate Resting()
      reads this`phase, this`stateOutPos, this`mode, w`zbits
    {
      phase == Output && mode != Idle ==> stateOutPos < |w.zbits|
    }

    lemma RestingIs()
      ensures Resting() <==> (phase == Output && mode != Idle ==> stateOutPos < |w.zbits|)
    {
    }

    /** Once round the loop: a finished block is handed out, then input is taken. */
    method Pass() returns (out: seq<byte>, progressIn: bool, progressOut: bool, stop: bool)
      requires Valid() && mode != Idle && (mode != Running ==> availInExpect == |nextIn|) && (ended ==> nextIn == [])
      modifies this, block, w
      ensures Valid() && mode == old(mode) && (mode != Running ==> availInExpect == |nextIn|) && (ended ==> nextIn == [])
      ensures consumed + nextIn == old(consumed + nextIn) && Delivered() == old(Delivered()) + out && availOut + |out| == old(availOut)
      ensures |nextIn| <= |old(nextIn)| && (progressIn <==> |nextIn| < |old(nextIn)|) && (progressOut <==> out != [])
      ensures stop ==> Stopped()
      ensures (old(ended) ==> ended) && (mode != Flushing ==> early <= old(early) + (if ended && !old(ended) then 1 else 0))
      ensures mode == Finishing && old(Resting()) && out == [] ==> phase == Output && stateOutPos < |w.zbits|
      ensures !stop ==> (|nextIn| < |old(nextIn)| || (stateInCh == NO_CHAR && old(stateInCh) != NO_CHAR)
                         || (old(phase) == Input && phase == Output && (stateInCh == old(stateInCh) || stateInCh == NO_CHAR)))
    {
      hide *;
      ValidOut();
      RestingIs();
      out, progressIn, progressOut, stop := [], false, false, false;
      assert Delivered() + [] == Delivered();
      if phase == Output {
        out, progressOut, stop := OutputPhase();
        ValidOut();
        if stop {
          NowStopped();
          return;
        }
      }
      if phase == Input {
        FillingNow();
        progressIn, stop := InputPhase();
        ValidOut();
        if stop {
          NowStopped();
        }
      }
    }

    /** Why a call can go no further. */
    ghost predicate Stopped()
      reads this`phase, this`ended, this`stateOutPos, this`mode, this`nextIn, this`stateInCh, this`stateInLen, this`availOut, w
    {
      && (phase == Output ==> ended || stateOutPos < |w.zbits|) && (mode == Finishing ==> phase == Output)
      && (mode == Flushing && phase == Input ==> nextIn == [] && IsEmptyRL()) && (mode == Running && phase == Input ==> nextIn == [])
      && (stateOutPos < |w.zbits| ==> availOut == 0)
    }

    lemma NowStopped()
      requires (phase == Output ==> ended || stateOutPos < |w.zbits|) && (mode == Finishing ==> phase == Output)
      requires (mode == Flushing && phase == Input ==> nextIn == [] && IsEmptyRL()) && (mode == Running && phase == Input ==> nextIn == [])
      requires stateOutPos < |w.zbits| ==> availOut == 0
      ensures Stopped()
    {
    }

    lemma StoppedFacts()
      requires Stopped()
      ensures (phase == Output ==> ended || stateOutPos < |w.zbits|) && (mode == Finishing ==> phase == Output)
      ensures (mode == Flushing && phase == Input ==> nextIn == [] && IsEmptyRL()) && (mode == Running && phase == Input ==> nextIn == [])
      ensures stateOutPos < |w.zbits| ==> availOut == 0
    {
    }

    /** Alternates between taking input and handing out finished blocks for as long as either can go on. */
    method HandleCompress() returns (out: seq<byte>, progress: bool)
      requires Valid() && mode != Idle && (mode != Running ==> availInExpect == |nextIn|) && (ended ==> nextIn == [])
      modifies this, block, w
      ensures Valid() && mode == old(mode) && (mode != Running ==> availInExpect == |nextIn|) && (ended ==> nextIn == [])
      ensures consumed + nextIn == old(consumed + nextIn) && Delivered() == old(Delivered()) + out
      ensures availOut + |out| == old(availOut) && Stopped()
      ensures (old(ended) ==> ended) && (mode != Flushing ==> early <= old(early) + (if ended && !old(ended) then 1 else 0))
      ensures |nextIn| <= |old(nextIn)| && (progress <==> out != [] || |nextIn| < |old(nextIn)|)
      ensures mode == Finishing && old(Resting()) && out == [] ==> stateOutPos < |w.zbits|
    {
      hide *;
      out := [];
      var progressIn, progressOut, stop := false, false, false;
      ValidOut();
      assert Delivered() + [] == Delivered();
      while !stop
        invariant Valid() && stateOutPos <= |w.zbits| && (stop ==> Stopped())
        invariant mode == old(mode) && (mode != Running ==> availInExpect == |nextIn|)
        invariant (old(ended) ==> ended) && (mode != Flushing ==> early <= old(early) + (if ended && !old(ended) then 1 else 0))
        invariant consumed + nextIn == old(consumed + nextIn) && Delivered() == old(Delivered()) + out
        invariant availOut + |out| == old(availOut) && (ended ==> nextIn == [])
        invariant mode == Finishing && old(Resting()) && out == [] ==> Resting() && (stop ==> stateOutPos < |w.zbits|)
        invariant (progressOut <==> out != []) && (progressIn <==> |nextIn| < |old(nextIn)|) && |nextIn| <= |old(nextIn)|
        decreases !stop, |nextIn|, if stateInCh == NO_CHAR then 0 else 1, if phase == Input then 1 else 0
      {
        var o, i, p;
        o, i, p, stop := Pass();
        RestingIs();
        ConcatAssoc(old(Delivered()), out, o);
        out, progressIn, progressOut := out + o, progressIn || i, progressOut || p;
        ValidOut();
      }
      progress := progressIn || progressOut;
    }

    /** An ordinary call goes on until the input is used up or there is no more room. */
    method CallRunning() returns (out: seq<byte>, result: Result)
      requires Valid() && mode == Running
      modifies this, block, w
      ensures Valid() && consumed + nextIn == old(consumed + nextIn)
      ensures stateOutPos <= |w.zbits| && Delivered() == old(Delivered()) + out && availOut + |out| == old(availOut)
      ensures if out == [] && |nextIn| == |old(nextIn)| then result == ParamError else result == RunOk
      ensures (nextIn == [] || availOut == 0) && Resting() && mode == Running && early <= old(early) && !ended
    {
      hide *;
      ValidOut();
      RunningNotEnded();
      var progress;
      out, progress := HandleCompress();
      StoppedFacts();
      ValidOut();
      RunningNotEnded();
      RestingIs();
      result := if progress then RunOk else ParamError;
    }

    method CallFlushing() returns (out: seq<byte>, result: Result)
      requires Valid() && mode == Flushing && availInExpect == |nextIn|
      modifies this, block, w
      ensures Valid() && consumed + nextIn == old(consumed + nextIn)
      ensures stateOutPos <= |w.zbits| && Delivered() == old(Delivered()) + out && availOut + |out| == old(availOut)
      ensures (result == FlushOk && availOut == 0) || (result == RunOk && nextIn == [] && mode == Running)
      ensures result == RunOk ==> Flushed()
      ensures Resting()
    {
      hide *;
      ValidOut();
      EndedExpectsNothing();
      var progress;
      out, progress := HandleCompress();
      StoppedFacts();
      ValidOut();
      EndedIsEmpty();
      if availInExpect > 0 || !IsEmptyRL() || stateOutPos < |w.zbits| {
        RestingIs();
        return out, FlushOk;
      }
      FlushDone();
      ValidOut();
      RestingIs();
      return out, RunOk;
    }

    method CallFinishing() returns (out: seq<byte>, result: Result)
      requires Valid() && mode == Finishing && availInExpect == |nextIn| && Resting()
      modifies this, block, w
      ensures Valid() && consumed + nextIn == old(consumed + nextIn)
      ensures stateOutPos <= |w.zbits| && Delivered() == old(Delivered()) + out && availOut + |out| == old(availOut)
      ensures result == SequenceError ==> old(availOut) == 0 && out == [] && |nextIn| == |old(nextIn)|
      ensures Resting()
      ensures result == FinishOk ==> availOut == 0
      ensures result == SequenceError || result == FinishOk || result == StreamEnded
      ensures (old(ended) ==> ended) && early <= old(early) + (if ended && !old(ended) then 1 else 0)
      ensures result != StreamEnded ==> mode == Finishing && availInExpect == |nextIn|
      ensures result == StreamEnded ==> mode == Idle && nextIn == [] && Decompressed(table, BytesToBits(Delivered())) == Decoded(consumed, StreamEnd)
      ensures result == StreamEnded ==> IsStream(table, level, consumed, Delivered())
    {
      hide *;
      ValidOut();
      EndedExpectsNothing();
      var progress;
      out, progress := HandleCompress();
      StoppedFacts();
      ValidOut();
      if !progress {
        RestingIs();
        return out, SequenceError;
      }
      EndedIsEmpty();
      if availInExpect > 0 || !IsEmptyRL() || stateOutPos < |w.zbits| {
        RestingIs();
        return out, FinishOk;
      }
      FinishDone();
      ValidOut();
      RestingIs();
      return out, StreamEnded;
    }

    /** After the end there are no more calls, and a flush or an end that was announced is to be gone on with, with the rest of its input. */
    predicate Refuses(action: Action, availIn: nat)
      reads this`mode, this`availInExpect
    {
      match mode
      case Running => false
      case Flushing => action != DoFlush || availInExpect != availIn
      case Finishing => action != DoFinish || availInExpect != availIn
      case Idle => true
    }

    lemma RefusesIs(action: Action, availIn: nat)
      ensures Refuses(action, availIn) <==>
                mode == Idle || (mode == Flushing && (action != DoFlush || availInExpect != availIn))
                || (mode == Finishing && (action != DoFinish || availInExpect != availIn))
    {
    }

    /**
     * BZ2_bzCompress: one call, with whatever input and room the caller has set up. When it answers that the
     * stream has ended, what has been handed out since the beginning decompresses to all input since the beginning.
     */
    method BzCompress(action: Action) returns (out: seq<byte>, result: Result)
      requires Valid() && Resting()
      modifies this, block, w
      ensures Valid() && Resting() && consumed + nextIn == old(consumed + nextIn)
      ensures stateOutPos <= |w.zbits| && Delivered() == old(Delivered()) + out && availOut + |out| == old(availOut)
      ensures old(mode) == Running && action == DoRun ==> (result == RunOk || result == ParamError) && (nextIn == [] || availOut == 0) && mode == Running
      ensures result == ParamError ==> old(mode) == Running && action == DoRun && out == [] && |nextIn| == |old(nextIn)|
      ensures result == SequenceError ==> out == [] && |nextIn| == |old(nextIn)|
      ensures action == DoFlush && (old(mode) == Running || old(mode == Flushing && availInExpect == |nextIn|)) ==>
                (result == FlushOk && availOut == 0) || (result == RunOk && nextIn == [] && mode == Running && Flushed())
      ensures action == DoFinish && (old(mode) == Running || old(mode == Finishing && availInExpect == |nextIn|)) ==>
                result == StreamEnded || (mode == Finishing && availInExpect == |nextIn| && availOut == 0 && (result == FinishOk || old(availOut) == 0))
      ensures result == StreamEnded ==> mode == Idle && nextIn == [] && Decompressed(table, BytesToBits(Delivered())) == Decoded(consumed, StreamEnd)
      ensures result == StreamEnded ==> IsStream(table, level, consumed, Delivered())
      ensures old(mode) == Running && action == DoRun ==> early <= old(early) && !ended
      ensures old(mode) != Flushing && action == DoFinish ==> (old(ended) ==> ended) && early <= old(early) + (if ended && !old(ended) then 1 else 0)
      ensures old(Refuses(action, |nextIn|)) ==> result == SequenceError && unchanged(this) && unchanged(block) && unchanged(w)
    {
      hide *;
      ValidOut();
      RefusesIs(action, |nextIn|);
      out := [];
      assert Delivered() + [] == Delivered();
      if mode == Idle {
        return out, SequenceError;
      }
      if mode == Running {
        if action == DoRun {
          out, result := CallRunning();
          return;
        }
        RestingIs();
        Announce(if action == DoFlush then Flushing else Finishing);
        RestingIs();
        ValidOut();
      }
      if mode == Flushing {
        if action != DoFlush || availInExpect != |nextIn| {
          return out, SequenceError;
        }
        out, result := CallFlushing();
        return;
      }
      if action != DoFinish || availInExpect != |nextIn| {
        return out, SequenceError;
      }
      out, result := CallFinishing();
    }

    lemma RunningNotEnded()
      requires Valid() && mode == Running
      ensures !ended
    {
      hide Encoder.Accounted, Encoder.Transmitted, Encoder.Complete, Gathered;
    }

    lemma EndedIsEmpty()
      requires Valid()
      ensures ended ==> availInExpect == 0 && IsEmptyRL() && mode != Flushing
    {
      hide Encoder.Accounted, Encoder.Transmitted, Encoder.Complete, Gathered;
    }

    lemma EndedExpectsNothing()
      requires Valid()
      ensures ended ==> availInExpect == 0
    {
      hide Encoder.Accounted, Encoder.Transmitted, Encoder.Complete, Gathered;
    }

    /** The caller announces how much input there will be before the flush or the end. */
    method Announce(m: Mode)
      requires Valid() && mode == Running && (m == Flushing || m == Finishing)
      modifies this`mode, this`availInExpect
      ensures Valid() && mode == m && availInExpect == |nextIn|
    {
      hide Encoder.Accounted, Encoder.Transmitted, Encoder.Complete, Gathered;
      availInExpect := |nextIn|;
      mode := m;
    }

    method FlushDone()
      requires Valid() && mode == Flushing && (phase == Output ==> ended || stateOutPos < |w.zbits|) && stateOutPos >= |w.zbits| && IsEmptyRL()
      modifies this`mode
      ensures Valid() && mode == Running && Flushed()
    {
      hide Encoder.Accounted, Encoder.Transmitted, Encoder.Complete, Gathered, Encoder.Flushed;
      mode := Running;
      RLIsEmpty();
      NowFlushed();
    }

    /** Everything taken in is in closed blocks, and all of them is handed out but for less than a word of bits. */
    ghost predicate Flushed()
      reads this`plans, this`consumed, this`emitted, this`stateOutPos, w
    {
      && GoodPlans(level, plans) && consumed == Content(plans) && stateOutPos <= |w.zbits|
      && ((plans == [] && Delivered() == [])
          || exists rest: Bits :: |rest| < 32 && BytesToBits(Delivered()) + rest == StreamHead(level) + BlocksBits(table, level, plans))
    }

    lemma NowFlushed()
      requires Accounted() && Transmitted() && Filling() && stateInCh == NO_CHAR
      ensures Flushed()
    {
      hide FullBut, Gathered, BlocksBits, GoodPlans, Content, StreamHead, CombinedFrom, Holds;
      assert Content(plans) + [] + [] == Content(plans);
      assert w.zbits[..0] == [] && emitted + [] == emitted;
      assert BytesToBits([]) + w.live == w.live;
      if !headed {
        assert BytesToBits(emitted) == [];
      }
    }

    /** All output has been taken: what was delivered is a whole compressed stream. */
    method FinishDone()
      requires Valid() && mode == Finishing && phase == Output && (ended || stateOutPos < |w.zbits|)
      requires stateOutPos <= |w.zbits| && stateOutPos >= |w.zbits|
      modifies this`mode
      ensures Valid() && mode == Idle && Decompressed(table, BytesToBits(Delivered())) == Decoded(consumed, StreamEnd)
      ensures IsStream(table, level, consumed, Delivered())
    {
      hide Encoder.Accounted, Encoder.Transmitted, Encoder.Complete, Gathered, Decompressed, IsStream, Content;
      Delivers();
      mode := Idle;
    }

    lemma Delivers()
      requires Complete() && consumed == Content(plans) && stateOutPos == |w.zbits|
      ensures Decompressed(table, BytesToBits(Delivered())) == Decoded(consumed, StreamEnd) && IsStream(table, level, consumed, Delivered())
    {
      hide Decompressed, StreamBits, Content, GoodPlans, BytesToBits;
      var pad: nat :| pad < 8 && BytesToBits(emitted + w.zbits) == StreamBits(table, level, plans) + Zeros(pad);
      StreamRoundTrip(table, level, plans, Zeros(pad));
      assert w.zbits[..|w.zbits|] == w.zbits;
    }

    /** Everything handed out so far is within the bound for what has been taken in. */
    lemma DeliveredLength()
      requires Valid()
      ensures stateOutPos <= |w.zbits| && 1 <= level && 8 * |Delivered()| <= StreamBound(level, |consumed|, early)
    {
      hide *;
      OutputFacts();
      StreamLength(table, level, plans, early, |consumed|);
      if ended {
        CompleteLength();
      } else {
        UnfinishedLength();
      }
    }

    lemma OutputFacts()
      requires Valid()
      ensures stateOutPos <= |w.zbits| && GoodPlans(level, plans) && FullBut(level, plans, early) && |Content(plans)| <= |consumed| && 1 <= level
      ensures if ended then Complete() else Transmitted()
    {
      hide Encoder.Complete, Content, Expand, Pending, FullBut, GoodPlan, BlocksBits, StreamHead;
      CompleteGood();
    }

    lemma CompleteGood()
      ensures Complete() ==> GoodPlans(level, plans)
    {
      hide GoodPlans;
    }

    lemma CompleteLength()
      requires Complete() && stateOutPos <= |w.zbits|
      ensures GoodPlans(level, plans) && 8 * |Delivered()| <= |StreamBits(table, level, plans)| + 7
    {
      hide StreamBits, GoodPlans;
      var pad: nat :| pad < 8 && BytesToBits(emitted + w.zbits) == StreamBits(table, level, plans) + Zeros(pad);
    }

    lemma UnfinishedLength()
      requires Transmitted() && stateOutPos <= |w.zbits|
      ensures GoodPlans(level, plans) && 8 * |Delivered()| <= |StreamHead(level) + BlocksBits(table, level, plans)|
    {
      hide BlocksBits, GoodPlans, StreamHead, BitWriter.Valid, CombinedFrom;
      WrittenLength();
    }

    lemma WrittenLength()
      ensures |w.Written()| >= 8 * |w.zbits| && (w.Valid() ==> |w.Written()| <= 8 * |w.zbits| + 32)
    {
    }

    lemma ValidOut()
      requires Valid()
      ensures stateOutPos <= |w.zbits|
    {
    }

    /** The caller says where the input is and how much room there is for output; nothing ties it to what it said before. */
    method Provide(input: seq<byte>, room: nat)
      requires Valid() && Resting()
      modifies this`nextIn, this`availOut
      ensures Valid() && Resting() && nextIn == input && availOut == room
      ensures stateOutPos <= |w.zbits| && Delivered() == old(Delivered())
    {
      hide Encoder.Accounted, Encoder.Transmitted, Encoder.Complete, Encoder.Filling, Encoder.Done, Encoder.Shape;
      nextIn := input;
      availOut := room;
    }

    /** However many calls are made with another action or another length of input than was announced, all of them are
        refused and nothing is lost: once the caller is back at what it announced, all is as it was before. */
    method Retract(inputs: seq<seq<byte>>, rooms: seq<nat>, actions: seq<Action>) returns (results: seq<Result>)
      requires Valid() && Resting() && |inputs| == |rooms| == |actions|
      requires forall i :: 0 <= i < |inputs| ==> Refuses(actions[i], |inputs[i]|)
      modifies this, block, w
      ensures |results| == |inputs| && forall i :: 0 <= i < |results| ==> results[i] == SequenceError
      ensures Valid() && Resting() && unchanged(block) && unchanged(w)
      ensures mode == old(mode) && phase == old(phase) && availInExpect == old(availInExpect) && nextIn == old(nextIn) && availOut == old(availOut)
      ensures consumed == old(consumed) && stateOutPos <= |w.zbits| && Delivered() == old(Delivered())
    {
      hide *;
      ValidOut();
      var before, space := nextIn, availOut;
      results := [];
      for i := 0 to |inputs|
        invariant Valid() && Resting() && unchanged(block) && unchanged(w)
        invariant mode == old(mode) && phase == old(phase) && availInExpect == old(availInExpect) && consumed == old(consumed)
        invariant stateOutPos <= |w.zbits| && Delivered() == old(Delivered())
        invariant |results| == i && forall k :: 0 <= k < i ==> results[k] == SequenceError
      {
        var out, result;
        assert Refuses(actions[i], |inputs[i]|);
        Provide(inputs[i], rooms[i]);
        out, result := BzCompress(actions[i]);
        results := results + [result];
      }
      Provide(before, space);
    }
  }

  lemma Shift(a: seq<byte>, b: seq<byte>)
    requires b != []
    ensures a + [b[0]] + b[1..] == a + b
  {
  }

  lemma Shift1(emitted: seq<byte>, z: seq<byte>, k: nat, out: seq<byte>)
    requires k < |z|
    ensures emitted + z[..k + 1] == emitted + z[..k] + [z[k]]
  {
  }

  lemma AllTaken(emitted: seq<byte>, out: seq<byte>)
    ensures emitted + out[..|out|] == emitted + out + []
  {
    assert out[..|out|] == out;
  }

  lemma HeadWritten(e: Bits, z: Bits, head: Bits)
    requires e + z == []
    ensures e + (z + head) == head + []
  {
    assert e == [] && z == [];
  }

  lemma MoreWritten(e: Bits, z: Bits, head: Bits, blocks: Bits, more: Bits)
    requires e + z == head + blocks
    ensures e + (z + more) == head + (blocks + more)
  {
    ConcatAssoc(e, z, more);
    ConcatAssoc(head, blocks, more);
  }

  lemma NoBlocks(table: CrcTable, level: nat)
    requires 1 <= level <= 9
    ensures GoodPlans(level, []) && BlocksBits(table, level, []) == []
  {
  }

  lemma HeadBits(level: nat)
    ensures |StreamHead(level)| == 32
  {
  }

  lemma AllClosed(content: seq<byte>, ch: int, len: int)
    requires ch == NO_CHAR
    ensures content + Expand([]) + Pending(ch, len) == content
  {
    RunsMoved(content, []);
  }

  lemma GatheredRun(table: CrcTable, runs: seq<Run>, b: seq<byte>, inUse: UseMap, crc: u32, ch: int, len: int)
    requires Gathered(table, runs, b, inUse, crc, ch, len) && ch < 256
    ensures 0 <= ch && 1 <= len <= 255
  {
  }

  lemma RunsMoved(content: seq<byte>, pending: seq<byte>)
    ensures content + Expand([]) + pending == content + pending
    ensures content + Expand([]) + [] == content
  {
    assert Expand([]) == [];
    assert content + [] == content;
  }

  lemma EmptyBlock(runs: seq<Run>, b: seq<byte>)
    requires WellFormed(runs) && b == Encode(runs) && |b| == 0
    ensures runs == []
  {
    EncodeFirst(runs);
  }

  lemma BlockStored(table: CrcTable, level: nat, runs: seq<Run>, nblock: nat, crc: u32)
    requires WellFormed(runs) && nblock == |Encode(runs)| && 0 < nblock <= 100000 * level && 1 <= level <= 9
    requires crc == Fold(table, ALL_ONES, Expand(runs))
    ensures StoredRuns(level, runs) && Not32(crc) == BlockCrcOf(table, Expand(runs))
  {
  }

  lemma NothingYet(table: CrcTable, level: nat, inUse: UseMap)
    requires 1 <= level <= 9
    ensures FullBut(level, [], 0) && Gathered(table, [], [], inUse, ALL_ONES, NO_CHAR, 0)
    ensures Content([]) + Expand([]) + [] == [] && GoodPlans(level, []) && CombinedFrom(table, 0, []) == 0
  {
  }

  lemma NothingGathered(table: CrcTable, inUse: UseMap, ch: int, len: int)
    requires 0 <= ch <= NO_CHAR && (if ch < 256 then 1 <= len <= 255 else len == 0)
    ensures Gathered(table, [], [], inUse, ALL_ONES, ch, len)
  {
  }

  lemma EncodeRunIs(ch: byte, n: int)
    requires 1 <= n <= 255
    ensures EncodeRun(Run(ch, n)) == if n == 1 then [ch] else if n == 2 then [ch, ch] else if n == 3 then [ch, ch, ch] else [ch, ch, ch, ch, n - 4]
  {
  }

  lemma NothingFolded(table: CrcTable, crc: u32, ch: byte)
    ensures Fold(table, crc, Repeat(ch, 0)) == crc
  {
  }

  lemma FoldRepeat(table: CrcTable, crc: u32, ch: byte, i: nat)
    ensures Fold(table, crc, Repeat(ch, i + 1)) == Update(table, Fold(table, crc, Repeat(ch, i)), ch)
  {
    assert Repeat(ch, i + 1)[..i] == Repeat(ch, i);
  }

  lemma NewRun(c: seq<byte>, e: seq<byte>, closed: seq<byte>, ch: byte)
    ensures c + (e + closed) + Repeat(ch, 1) == c + e + closed + [ch]
  {
    assert Repeat(ch, 1) == [ch];
  }

  /**
   * A caller's loop: any pieces of input, any room for each call, and then finishing calls with any room. The
   * stream ends once there has been as much room as the input can need, and then what was handed out decompresses to
   * the pieces in a row.
   */
  method CompressPieces(level: nat, table: CrcTable, pieces: seq<seq<byte>>, rooms: seq<nat>, finishRooms: seq<nat>)
    returns (out: seq<byte>, done: bool)
    requires 1 <= level <= 9 && |pieces| == |rooms|
    ensures done ==> Decompressed(table, BytesToBits(out)) == Decoded(Joined(pieces, |pieces|), StreamEnd)
    ensures done ==> IsStream(table, level, Joined(pieces, |pieces|), out)
    ensures !done ==> |out| >= Total(finishRooms, |finishRooms|)
    ensures 8 * |out| <= StreamBound(level, |Joined(pieces, |pieces|)|, 1)
    ensures 8 * Total(finishRooms, |finishRooms|) > StreamBound(level, |Joined(pieces, |pieces|)|, 1) ==> done
  {
    hide *;
    var e := new Encoder(level, table);
    e.ValidOut();
    out, done := [], false;
    Nothing(pieces, finishRooms, e.consumed, e.nextIn);
    for i := 0 to |pieces|
      invariant fresh(e) && fresh(e.block) && fresh(e.w) && e.table == table && e.Valid() && e.Resting() && e.mode == Running
      invariant e.stateOutPos <= |e.w.zbits| && out == e.Delivered() && e.consumed + e.nextIn == Joined(pieces, i)
      invariant e.level == level && e.early == 0 && !e.ended
    {
      ConcatAssoc(e.consumed, e.nextIn, pieces[i]);
      JoinedStep(pieces, i);
      e.Provide(e.nextIn + pieces[i], rooms[i]);
      var o, result := e.BzCompress(DoRun);
      out := out + o;
    }
    for i := 0 to |finishRooms|
      invariant fresh(e) && fresh(e.block) && fresh(e.w) && e.table == table && e.Valid() && e.Resting()
      invariant e.stateOutPos <= |e.w.zbits| && out == e.Delivered() && e.consumed + e.nextIn == Joined(pieces, |pieces|)
      invariant |out| >= Total(finishRooms, i) && (e.mode == Running || (e.mode == Finishing && e.availInExpect == |e.nextIn|))
      invariant e.level == level && e.early <= if e.ended then 1 else 0
    {
      TotalStep(finishRooms, i);
      e.Provide(e.nextIn, finishRooms[i]);
      var o, result := e.BzCompress(DoFinish);
      out := out + o;
      if result == StreamEnded {
        assert e.consumed + [] == e.consumed;
        e.DeliveredLength();
        BoundGrows(level, |e.consumed|, |Joined(pieces, |pieces|)|, e.early, 1);
        return out, true;
      }
    }
    e.DeliveredLength();
    BoundGrows(level, |e.consumed|, |Joined(pieces, |pieces|)|, e.early, 1);
  }

  lemma Nothing(pieces: seq<seq<byte>>, rooms: seq<nat>, a: seq<byte>, b: seq<byte>)
    requires a == [] && b == []
    ensures a + b == Joined(pieces, 0) && Total(rooms, 0) == 0
  {
  }
}
