// The second half of sendMTFValues: codes are assigned and the block sent.
module SendBlock {
  import opened Words
  import opened Bits
  import opened BitIO
  import opened Kraft
  import opened Alphabet
  import opened Mtf
  import opened GenerateMtf
  import opened Canonical
  import opened HuffmanLengths
  import opened Decoder
  import opened BlockFormat
  import opened BlockWriter
  import opened SendMtf

  // Coding tables.

  method WriteTable(w: BitWriter, row: array<byte>, alphaSize: nat, ghost len: seq<int>)
    requires w.Valid() && row.Length == 258 && 3 <= alphaSize <= 258 && len == row[..alphaSize] && Lens(len)
    modifies w
    ensures w.Valid() && w.Written() == old(w.Written()) + TableBits(len)
  {
    hide BitWriter.Valid, BitWriter.Written, ToBits, DeltaFrom, Moves, Pow2;
    SmallWidths();
    TwoBits();
    ghost var before := w.Written();
    var curr: int := row[0];
    assert row[0] == len[0];
    w.BsW(5, curr);
    ghost var head := before + ToBits(len[0], 5);
    for i := 0 to alphaSize
      invariant w.Valid() && row[..alphaSize] == len && 1 <= curr <= LONGEST
      invariant w.Written() + DeltaFrom(len, i, curr) == head + DeltaFrom(len, 0, len[0])
    {
      ghost var mid, c0 := w.Written(), curr;
      assert row[i] == len[i];
      while curr < row[i]
        invariant w.Valid() && row[..alphaSize] == len && 1 <= curr <= LONGEST && (curr <= len[i] || curr == c0)
        invariant w.Written() + Moves(curr, len[i]) == mid + Moves(c0, len[i])
        decreases LONGEST - curr
      {
        assert row[i] == len[i];
        MovesNext(curr, len[i]);
        ConcatAssoc(w.Written(), [true, false], Moves(curr + 1, len[i]));
        w.BsW(2, 2);
        curr := curr + 1;
      }
      while curr > row[i]
        invariant w.Valid() && row[..alphaSize] == len && len[i] <= curr <= LONGEST
        invariant w.Written() + Moves(curr, len[i]) == mid + Moves(c0, len[i])
        decreases curr
      {
        assert row[i] == len[i];
        MovesNext(curr, len[i]);
        ConcatAssoc(w.Written(), [true, true], Moves(curr - 1, len[i]));
        w.BsW(2, 3);
        curr := curr - 1;
      }
      assert row[i] == len[i];
      MovesNext(curr, len[i]);
      DeltaNext(len, i, c0);
      MidParts(w.Written(), mid, Moves(c0, len[i]), DeltaFrom(len, i + 1, len[i]));
      w.BsW(1, 0);
    }
    DeltaNext(len, alphaSize, curr);
    assert w.Written() + [] == w.Written();
    ConcatAssoc(before, ToBits(len[0], 5), DeltaFrom(len, 0, len[0]));
  }

  lemma MovesNext(curr: int, to: int)
    ensures curr < to ==> Moves(curr, to) == [true, false] + Moves(curr + 1, to)
    ensures curr > to ==> Moves(curr, to) == [true, true] + Moves(curr - 1, to)
    ensures curr == to ==> Moves(curr, to) == []
  {
  }

  lemma DeltaNext(len: seq<int>, i: nat, curr: int)
    requires i <= |len|
    ensures i < |len| ==> DeltaFrom(len, i, curr) == Moves(curr, len[i]) + [false] + DeltaFrom(len, i + 1, len[i])
    ensures i == |len| ==> DeltaFrom(len, i, curr) == []
  {
  }

  lemma MidParts(w: Bits, mid: Bits, moves: Bits, rest: Bits)
    requires w + [] == mid + moves
    ensures w + [false] + rest == mid + (moves + [false] + rest)
  {
    assert w == mid + moves;
  }

  /** The rows hold these tables. */
  ghost predicate Hold(len: seq<array<byte>>, lens: seq<seq<int>>, alphaSize: nat)
    reads len
  {
    && LenRows(len) && |lens| <= N_GROUPS && 3 <= alphaSize <= 258 && Tables(lens, alphaSize)
    && forall t {:trigger lens[t]} :: 0 <= t < |lens| ==> lens[t] == len[t][..alphaSize]
  }

  method WriteTables(w: BitWriter, len: seq<array<byte>>, nGroups: nat, alphaSize: nat, ghost lens: seq<seq<int>>)
    requires w.Valid() && Hold(len, lens, alphaSize) && nGroups == |lens|
    modifies w
    ensures w.Valid() && w.Written() == old(w.Written()) + TablesFrom(lens, alphaSize, 0)
  {
    hide BitWriter.Valid, BitWriter.Written, TablesFrom, TableBits, Lens;
    ghost var before := w.Written();
    for t := 0 to nGroups
      invariant w.Valid() && Hold(len, lens, alphaSize)
      invariant w.Written() + TablesFrom(lens, alphaSize, t) == before + TablesFrom(lens, alphaSize, 0)
    {
      ghost var mid := w.Written();
      assert lens[t] == len[t][..alphaSize];
      TablesNext(lens, alphaSize, t);
      WriteTable(w, len[t], alphaSize, lens[t]);
      ConcatAssoc(mid, TableBits(lens[t]), TablesFrom(lens, alphaSize, t + 1));
    }
    TablesNext(lens, alphaSize, nGroups);
    assert w.Written() + [] == w.Written();
  }

  lemma TablesNext(lens: seq<seq<int>>, alphaSize: nat, t: nat)
    requires t <= |lens| && Tables(lens, alphaSize)
    ensures t < |lens| ==> TablesFrom(lens, alphaSize, t) == TableBits(lens[t]) + TablesFrom(lens, alphaSize, t + 1)
    ensures t == |lens| ==> TablesFrom(lens, alphaSize, t) == []
  {
  }

  // Codes.

  method ShortestAndLongest(row: array<byte>, alphaSize: nat) returns (minLen: int, maxLen: int)
    requires row.Length == 258 && alphaSize <= 258
    ensures minLen == MinLen(row[..alphaSize], alphaSize) && maxLen == MaxLen(row[..alphaSize], alphaSize)
  {
    ghost var len := row[..alphaSize];
    minLen, maxLen := 32, 0;
    for i := 0 to alphaSize
      invariant minLen == MinLen(len, i) && maxLen == MaxLen(len, i)
    {
      if row[i] > maxLen {
        maxLen := row[i];
      }
      if row[i] < minLen {
        minLen := row[i];
      }
    }
  }

  /** The rows of code hold the codes of the tables. */
  ghost predicate Coded(code: seq<array<int>>, lens: seq<seq<int>>, n: nat)
    requires n <= |lens|
    reads code
  {
    && IntRows(code) && |lens| <= N_GROUPS
    && (forall t {:trigger lens[t]} :: 0 <= t < |lens| ==> |lens[t]| <= 258 && Lens(lens[t]))
    && forall t, v {:trigger lens[t][v]} :: 0 <= t < n && 0 <= v < |lens[t]| ==> code[t][v] == Code(lens[t], v)
  }

  method AssignAllCodes(code: seq<array<int>>, len: seq<array<byte>>, nGroups: nat, alphaSize: nat, ghost lens: seq<seq<int>>)
    requires Hold(len, lens, alphaSize) && nGroups == |lens| && IntRows(code)
    requires forall t {:trigger lens[t]} :: 0 <= t < |lens| ==> CompleteCode(lens[t], 17)
    modifies code
    ensures Coded(code, lens, nGroups)
  {
    hide Code, CompleteCode, Lens, MinLen, MaxLen;
    for t := 0 to nGroups
      invariant Hold(len, lens, alphaSize) && Coded(code, lens, t)
    {
      assert lens[t] == len[t][..alphaSize];
      var minLen, maxLen := ShortestAndLongest(len[t], alphaSize);
      assert minLen == MinLen(lens[t], alphaSize) && maxLen == MaxLen(lens[t], alphaSize);
      LengthRange(lens[t], alphaSize);
      assert !(maxLen > 17);  // assertion 3004
      assert !(minLen < 1);   // assertion 3005
      label L: AssignCodes(code[t], len[t][..alphaSize], minLen, maxLen, alphaSize);
      forall u, v | 0 <= u < t + 1 && 0 <= v < |lens[u]| ensures code[u][v] == Code(lens[u], v) {
        if u < t {
          var l := lens[u][v];
          assert old@L(code[u][v]) == Code(lens[u], v);
        }
      }
    }
  }

  lemma LengthRange(len: seq<int>, alphaSize: nat)
    requires Lens(len) && |len| == alphaSize && CompleteCode(len, 17)
    ensures 1 <= MinLen(len, alphaSize) && MaxLen(len, alphaSize) <= 17
    ensures forall i :: 0 <= i < |len| ==> MinLen(len, alphaSize) <= len[i] <= MaxLen(len, alphaSize)
  {
    MinMax(len, alphaSize);
  }

  // Symbols.

  lemma CodeWidth(len: seq<int>, s: nat)
    requires Lens(len) && CompleteCode(len, 17) && s < |len|
    ensures Code(len, s) < Pow2(len[s]) && 1 <= len[s] <= 17
  {
    hide Code, Pow2, KraftSum;
    CodeFits(len, 17, s);
  }

  method WriteData(w: BitWriter, len: seq<array<byte>>, code: seq<array<int>>, selector: array<int>, nSelectors: nat, m: seq<int>, alphaSize: nat,
                   ghost lens: seq<seq<int>>, ghost sel: seq<int>)
    requires w.Valid() && Hold(len, lens, alphaSize) && Coded(code, lens, |lens|)
    requires nSelectors <= selector.Length && sel == selector[..nSelectors] && nSelectors == (|m| + G_SIZE - 1) / G_SIZE
    requires Codable(lens, alphaSize, sel, m)
    requires forall t {:trigger lens[t]} :: 0 <= t < |lens| ==> CompleteCode(lens[t], 17)
    modifies w
    ensures w.Valid() && w.Written() == old(w.Written()) + DataFrom(lens, alphaSize, sel, m, 0)
  {
    hide BitWriter.Valid, BitWriter.Written, DataFrom, ToBits, Code, CompleteCode, Pow2, Lens;
    ghost var before := w.Written();
    var selCtr: nat, gs: nat := 0, 0;
    while gs < |m|
      invariant w.Valid() && Hold(len, lens, alphaSize) && Coded(code, lens, |lens|) && sel == selector[..nSelectors]
      invariant gs == (if G_SIZE * selCtr < |m| then G_SIZE * selCtr else |m|) && G_SIZE * selCtr < |m| + G_SIZE
      invariant w.Written() + DataFrom(lens, alphaSize, sel, m, gs) == before + DataFrom(lens, alphaSize, sel, m, 0)
      decreases |m| - gs
    {
      var ge := gs + G_SIZE - 1;
      if ge >= |m| {
        ge := |m| - 1;
      }
      assert selector[selCtr] == sel[selCtr];
      assert selector[selCtr] < |lens|;  // assertion 3006
      for i := gs to ge + 1
        invariant w.Valid() && Hold(len, lens, alphaSize) && Coded(code, lens, |lens|) && sel == selector[..nSelectors]
        invariant w.Written() + DataFrom(lens, alphaSize, sel, m, i) == before + DataFrom(lens, alphaSize, sel, m, 0)
      {
        assert selector[selCtr] == sel[selCtr];
        DataNext(lens, alphaSize, sel, m, i, selCtr);
        ghost var row := lens[sel[selCtr]];
        assert row == len[sel[selCtr]][..alphaSize] && row[m[i]] == len[sel[selCtr]][m[i]] as int;
        CodeWidth(row, m[i]);
        assert code[sel[selCtr]][m[i]] == Code(row, m[i]);
        ConcatAssoc(w.Written(), ToBits(Code(row, m[i]), row[m[i]]), DataFrom(lens, alphaSize, sel, m, i + 1));
        w.BsW(len[selector[selCtr]][m[i]], code[selector[selCtr]][m[i]]);
      }
      gs := ge + 1;
      selCtr := selCtr + 1;
    }
    assert selCtr == nSelectors;  // assertion 3007
    DataEnd(lens, alphaSize, sel, m);
    assert w.Written() + [] == w.Written();
  }

  lemma DataNext(lens: seq<seq<int>>, alphaSize: nat, sel: seq<int>, m: seq<int>, k: nat, selCtr: nat)
    requires Codable(lens, alphaSize, sel, m) && k < |m| && G_SIZE * selCtr <= k < G_SIZE * (selCtr + 1)
    ensures selCtr < |sel| && 0 <= sel[selCtr] < |lens| && |lens[sel[selCtr]]| == alphaSize && 0 <= m[k] < alphaSize && Lens(lens[sel[selCtr]])
    ensures lens[sel[selCtr]][m[k]] >= 0
    ensures DataFrom(lens, alphaSize, sel, m, k)
         == ToBits(Code(lens[sel[selCtr]], m[k]), lens[sel[selCtr]][m[k]]) + DataFrom(lens, alphaSize, sel, m, k + 1)
  {
    hide Code, ToBits;
    assert k / G_SIZE == selCtr;
  }

  lemma DataEnd(lens: seq<seq<int>>, alphaSize: nat, sel: seq<int>, m: seq<int>)
    requires Codable(lens, alphaSize, sel, m)
    ensures DataFrom(lens, alphaSize, sel, m, |m|) == []
  {
  }

  // All of it.

  /** The bits sent for a block's symbols, given the tables and selectors chosen. */
  ghost function Sent(inUse: UseMap, sel: seq<int>, lens: seq<seq<int>>, m: seq<int>): Bits
    requires Selects(|lens|, sel) && Codable(lens, AlphaSize(inUse), sel, m)
  {
    MappingBits(inUse) + SelectorBits(|lens|, sel) + TablesFrom(lens, AlphaSize(inUse), 0) + DataFrom(lens, AlphaSize(inUse), sel, m, 0)
  }

  ghost predicate Sendable(inUse: UseMap, sel: seq<int>, lens: seq<seq<int>>, m: seq<int>) {
    && Selects(|lens|, sel) && Codable(lens, AlphaSize(inUse), sel, m)
    && (forall t {:trigger lens[t]} :: 0 <= t < |lens| ==> KraftSum(lens[t], LONGEST) <= Pow2(LONGEST))
  }

  lemma TablesUsable(rows: seq<seq<int>>, nGroups: nat, alphaSize: nat, sel: seq<int>, m: seq<int>)
    requires CompleteTables(rows, nGroups, alphaSize) && 2 <= nGroups <= N_GROUPS && SymbolsBelow(m, alphaSize)
    requires Chosen(sel, |sel|, nGroups) && |sel| == (|m| + G_SIZE - 1) / G_SIZE <= MAX_SELECTORS && |m| > 0
    ensures Tables(rows[..nGroups], alphaSize)
    ensures forall t {:trigger rows[..nGroups][t]} :: 0 <= t < nGroups ==>
              KraftSum(rows[..nGroups][t], LONGEST) <= Pow2(LONGEST) && CompleteCode(rows[..nGroups][t], 17)
    ensures Selects(nGroups, sel) && Codable(rows[..nGroups], alphaSize, sel, m)
  {
    hide KraftSum, Pow2;
    var lens := rows[..nGroups];
    forall t | 0 <= t < nGroups
      ensures lens[t] == rows[t] && |lens[t]| == alphaSize && Lens(lens[t]) && KraftSum(lens[t], LONGEST) <= Pow2(LONGEST) && CompleteCode(lens[t], 17)
    {
      KraftScale(rows[t], 17, 3);
    }
  }

  lemma FirstTuned(rows: seq<seq<int>>, m: seq<int>, sel: seq<int>, n: nat, alphaSize: nat)
    requires Tuned(rows, m, sel, n, alphaSize)
    ensures n <= |rows| && Tuned(rows[..n], m, sel, n, alphaSize)
  {
    hide BestFor, TallyOf;
  }

  /** Chooses tables for the symbols m and sends them all. */
  method SendMtfValues(w: BitWriter, m: seq<int>, inUse: UseMap, nInUse: nat, mtfFreq: seq<int>)
    returns (ghost sel: seq<int>, ghost lens: seq<seq<int>>)
    requires w.Valid() && nInUse == Rank(inUse, 256) >= 1 && 0 < |m| <= 900050 && |mtfFreq| == nInUse + 2
    requires forall i :: 0 <= i < |m| ==> 0 <= m[i] < nInUse + 2
    modifies w
    ensures w.Valid() && Sendable(inUse, sel, lens, m)
    ensures w.Written() == old(w.Written()) + Sent(inUse, sel, lens, m)
    ensures Tuned(lens, m, sel, |lens|, nInUse + 2)
    ensures |lens| == (if |m| < 200 then 2 else if |m| < 600 then 3 else if |m| < 1200 then 4 else if |m| < 2400 then 5 else 6)
    ensures |sel| == (|m| + 49) / 50
  {
    hide BestFor, LeastCost, TallyOf, BitWriter.Valid, BitWriter.Written, ToBits, Rank, MappingBits, SelectorBits, TablesFrom, DataFrom, KraftSum, Pow2, CompleteCode, Lens, Coded;
    var alphaSize := nInUse + 2;
    var len := NewLenRows();
    var selector := new int[MAX_SELECTORS];
    var nGroups, nSelectors;
    ghost var cuts, tables, sels;
    nGroups, nSelectors, cuts, tables, sels := ChooseTables(len, selector, m, mtfFreq, alphaSize);
    sel := selector[..nSelectors];
    lens := Rows(len, alphaSize)[..nGroups];
    TablesUsable(Rows(len, alphaSize), nGroups, alphaSize, sel, m);
    FirstTuned(Rows(len, alphaSize), m, sel, nGroups, alphaSize);
    Transmit(w, len, selector, nGroups, nSelectors, m, inUse, alphaSize, lens, sel);
  }

  /** Assigns the codes and writes the four sections. */
  method Transmit(w: BitWriter, len: seq<array<byte>>, selector: array<int>, nGroups: nat, nSelectors: nat, m: seq<int>, inUse: UseMap, alphaSize: nat,
                  ghost lens: seq<seq<int>>, ghost sel: seq<int>)
    requires w.Valid() && Hold(len, lens, alphaSize) && nGroups == |lens| && alphaSize == AlphaSize(inUse)
    requires nSelectors <= selector.Length && sel == selector[..nSelectors] && nSelectors == (|m| + G_SIZE - 1) / G_SIZE
    requires Selects(nGroups, sel) && Codable(lens, alphaSize, sel, m)
    requires forall t {:trigger lens[t]} :: 0 <= t < |lens| ==> CompleteCode(lens[t], 17)
    modifies w
    ensures w.Valid() && w.Written() == old(w.Written()) + Sent(inUse, sel, lens, m)
  {
    hide BitWriter.Valid, BitWriter.Written, ToBits, Rank, MappingBits, SelectorBits, TablesFrom, DataFrom, KraftSum, Pow2, CompleteCode, Lens, Coded, Tables;
    var code := NewRows();
    AssignAllCodes(code, len, nGroups, alphaSize, lens);
    ghost var before := w.Written();
    WriteMapping(w, inUse);
    WriteSelectors(w, nGroups, selector[..nSelectors]);
    WriteTables(w, len, nGroups, alphaSize, lens);
    WriteData(w, len, code, selector, nSelectors, m, alphaSize, lens, sel);
    FourParts(before, MappingBits(inUse), SelectorBits(|lens|, sel), TablesFrom(lens, alphaSize, 0), DataFrom(lens, alphaSize, sel, m, 0));
  }

  method NewLenRows() returns (rows: seq<array<byte>>)
    ensures LenRows(rows) && forall t {:trigger rows[t]} :: 0 <= t < N_GROUPS ==> fresh(rows[t])
  {
    var a, b, c := new byte[258], new byte[258], new byte[258];
    var d, e, f := new byte[258], new byte[258], new byte[258];
    rows := [a, b, c, d, e, f];
  }
}
