// The decoder reads back the selectors and the coding tables.
module TableDecoding {
  import opened Words
  import opened Bits
  import opened Alphabet
  import opened Mtf
  import opened Canonical
  import opened Decoder
  import opened DecoderRun
  import opened BlockFormat

  // Selectors.

  /** Undoing the selectors' move-to-front. */
  lemma {:induction false} UnMtfSelectors(pos: seq<int>, sel: seq<int>)
    requires forall i :: 0 <= i < |sel| ==> sel[i] in pos
    ensures UnMtf(pos, SelectorMtf(pos, sel)) == sel
    decreases |sel|
  {
    if sel != [] {
      var j := IndexOf(pos, sel[0]);
      forall i | 0 <= i < |sel| ensures sel[i] in ToFront(pos, j) {
        ToFrontElems(pos, j, sel[i]);
      }
      UnMtfSelectors(ToFront(pos, j), sel[1..]);
    }
  }

  /** A state in which selector i is read and j ones of it have been seen. */
  function AtSelector(h: Header, inUse: UseMap, nGroups: nat, m: seq<int>, i: nat, j: nat): State
    requires i <= |m|
  {
    Selectors(h, inUse, nGroups, |m|, i, j, m[..i])
  }

  ghost predicate SelectorList(h: Header, inUse: UseMap, nGroups: nat, m: seq<int>) {
    && ValidHeader(h) && Rank(inUse, 256) >= 1 && 2 <= nGroups <= N_GROUPS && 1 <= |m| <= MAX_SELECTORS
    && forall k :: 0 <= k < |m| ==> 0 <= m[k] < nGroups
  }

  lemma AtSelectorValid(h: Header, inUse: UseMap, nGroups: nat, m: seq<int>, i: nat, j: nat)
    requires SelectorList(h, inUse, nGroups, m) && i < |m| && j < nGroups
    ensures Valid(AtSelector(h, inUse, nGroups, m, i, j))
  {
    hide Rank;
  }

  /** Where the decoder is after the selectors before i. */
  function AfterSelectors(h: Header, inUse: UseMap, nGroups: nat, m: seq<int>, i: nat): State
    requires 1 <= i <= |m| && forall k :: 0 <= k < |m| ==> 0 <= m[k] < nGroups
  {
    if i < |m| then AtSelector(h, inUse, nGroups, m, i, 0)
    else StartLength(Block(h, inUse, nGroups, UnMtf(Iota(nGroups), m)), [])
  }

  lemma OneTakes(h: Header, inUse: UseMap, nGroups: nat, m: seq<int>, i: nat, j: nat)
    requires SelectorList(h, inUse, nGroups, m) && i < |m| && j < m[i]
    ensures Takes(AtSelector(h, inUse, nGroups, m, i, j), [true], AtSelector(h, inUse, nGroups, m, i, j + 1))
  {
    hide Rank, Takes, Valid;
    AtSelectorValid(h, inUse, nGroups, m, i, j);
    TakesBit(AtSelector(h, inUse, nGroups, m, i, j), true);
  }

  lemma ZeroTakes(h: Header, inUse: UseMap, nGroups: nat, m: seq<int>, i: nat)
    requires SelectorList(h, inUse, nGroups, m) && i < |m|
    ensures Takes(AtSelector(h, inUse, nGroups, m, i, m[i]), [false], AfterSelectors(h, inUse, nGroups, m, i + 1))
  {
    hide Rank, Takes, Valid, UnMtf;
    AtSelectorValid(h, inUse, nGroups, m, i, m[i]);
    TakesBit(AtSelector(h, inUse, nGroups, m, i, m[i]), false);
    assert m[..i] + [m[i]] == m[..i + 1];
    assert m[..|m|] == m;
  }

  lemma {:induction false} UnaryTakes(h: Header, inUse: UseMap, nGroups: nat, m: seq<int>, i: nat, j: nat)
    requires SelectorList(h, inUse, nGroups, m) && i < |m| && j <= m[i]
    ensures Takes(AtSelector(h, inUse, nGroups, m, i, j), Unary(m[i] - j), AfterSelectors(h, inUse, nGroups, m, i + 1))
    decreases m[i] - j
  {
    hide Takes, Step, Valid, UnMtf, AtSelector, AfterSelectors, Rank;
    if j == m[i] {
      ZeroTakes(h, inUse, nGroups, m, i);
    } else {
      OneTakes(h, inUse, nGroups, m, i, j);
      UnaryTakes(h, inUse, nGroups, m, i, j + 1);
      TakesBoth(AtSelector(h, inUse, nGroups, m, i, j), [true], AtSelector(h, inUse, nGroups, m, i, j + 1), Unary(m[i] - j - 1),
                AfterSelectors(h, inUse, nGroups, m, i + 1));
    }
  }

  lemma {:induction false} UnaryListTakes(h: Header, inUse: UseMap, nGroups: nat, m: seq<int>, i: nat)
    requires SelectorList(h, inUse, nGroups, m) && i < |m|
    ensures Takes(AtSelector(h, inUse, nGroups, m, i, 0), UnaryFrom(m, i), AfterSelectors(h, inUse, nGroups, m, |m|))
    decreases |m| - i
  {
    hide Takes, Step, Valid, UnMtf, AtSelector, Rank, Unary;
    UnaryTakes(h, inUse, nGroups, m, i, 0);
    if i + 1 == |m| {
      assert UnaryFrom(m, i) == Unary(m[i]) + [] == Unary(m[i]);
    } else {
      UnaryListTakes(h, inUse, nGroups, m, i + 1);
      TakesBoth(AtSelector(h, inUse, nGroups, m, i, 0), Unary(m[i]), AtSelector(h, inUse, nGroups, m, i + 1, 0), UnaryFrom(m, i + 1),
                AfterSelectors(h, inUse, nGroups, m, |m|));
    }
  }

  lemma CountsTake(h: Header, inUse: UseMap, nGroups: nat, n: nat)
    requires ValidHeader(h) && Rank(inUse, 256) >= 1 && 2 <= nGroups <= N_GROUPS && 1 <= n <= MAX_SELECTORS
    ensures Takes(GroupCount(h, inUse), ToBits(nGroups, 3), SelectorCount(h, inUse, nGroups))
    ensures Takes(SelectorCount(h, inUse, nGroups), ToBits(n, 15), Selectors(h, inUse, nGroups, n, 0, 0, []))
  {
    hide Rank, Takes, ToBits, Pow2;
    SmallPowers();
    TakesValue(GroupCount(h, inUse), nGroups, 3);
    TakesValue(SelectorCount(h, inUse, nGroups), n, 15);
  }

  lemma SmallPowers()
    ensures Pow2(3) == 8 && Pow2(5) == 32 && Pow2(15) == 32768
  {
    assert Pow2(3) == 8 && Pow2(5) == 32;
    Pow2Add(5, 5);
    Pow2Add(10, 5);
  }

  /** The decoder recovers how many tables there are and which one each group uses. */
  lemma SelectorBitsTake(h: Header, inUse: UseMap, nGroups: nat, sel: seq<int>)
    requires ValidHeader(h) && Rank(inUse, 256) >= 1 && Selects(nGroups, sel)
    ensures Takes(GroupCount(h, inUse), SelectorBits(nGroups, sel), StartLength(Block(h, inUse, nGroups, sel), []))
  {
    hide Takes, Step, Valid, UnMtf, Rank, UnaryFrom, ToBits;
    SelectorsListed(nGroups, sel);
    var m := SelectorMtf(Iota(nGroups), sel);
    UnMtfSelectors(Iota(nGroups), sel);
    CountsTake(h, inUse, nGroups, |sel|);
    UnaryListTakes(h, inUse, nGroups, m, 0);
    assert AtSelector(h, inUse, nGroups, m, 0, 0) == Selectors(h, inUse, nGroups, |sel|, 0, 0, []);
    var s, t, u := GroupCount(h, inUse), SelectorCount(h, inUse, nGroups), Selectors(h, inUse, nGroups, |sel|, 0, 0, []);
    TakesBoth(s, ToBits(nGroups, 3), t, ToBits(|sel|, 15), u);
    TakesBoth(s, ToBits(nGroups, 3) + ToBits(|sel|, 15), u, UnaryFrom(m, 0), StartLength(Block(h, inUse, nGroups, sel), []));
  }

  // Coding tables.

  /** The tables before t are known and table t is being read. */
  ghost predicate ReadingTable(b: Block, lens: seq<seq<int>>, t: nat) {
    && ValidBlock(b) && Tables(lens, AlphaSize(b.inUse)) && t < |lens| == b.nGroups
  }

  lemma PrefixTables(b: Block, lens: seq<seq<int>>, t: nat)
    requires ReadingTable(b, lens, t)
    ensures ValidLens(b, lens[..t]) && |lens[t]| == AlphaSize(b.inUse) && Lens(lens[t])
  {
    forall k | 0 <= k < t ensures |lens[..t][k]| == AlphaSize(b.inUse) && Lens(lens[..t][k]) {
      assert lens[..t][k] == lens[k];
    }
  }

  /** Waiting for a bit of length i of table t, with the current length curr. */
  function AtLength(b: Block, lens: seq<seq<int>>, t: nat, i: nat, curr: int): State
    requires t < |lens| && i <= |lens[t]|
  {
    LengthBit(b, lens[..t], lens[t][..i], curr)
  }

  lemma AtLengthValid(b: Block, lens: seq<seq<int>>, t: nat, i: nat, curr: int)
    requires ReadingTable(b, lens, t) && i < |lens[t]| && 1 <= curr <= LONGEST
    ensures Valid(AtLength(b, lens, t, i, curr))
    ensures Valid(LengthSign(b, lens[..t], lens[t][..i], curr))
  {
    hide Rank;
    PrefixTables(b, lens, t);
  }

  lemma MoveTakes(b: Block, lens: seq<seq<int>>, t: nat, i: nat, curr: int, up: bool)
    requires ReadingTable(b, lens, t) && i < |lens[t]| && 1 <= curr <= LONGEST
    requires 1 <= (if up then curr + 1 else curr - 1) <= LONGEST
    ensures Takes(AtLength(b, lens, t, i, curr), [true, !up], AtLength(b, lens, t, i, if up then curr + 1 else curr - 1))
  {
    hide Rank, Takes, Valid;
    AtLengthValid(b, lens, t, i, curr);
    var s, u := AtLength(b, lens, t, i, curr), LengthSign(b, lens[..t], lens[t][..i], curr);
    TakesBit(s, true);
    TakesBit(u, !up);
    TakesBoth(s, [true], u, [!up], AtLength(b, lens, t, i, if up then curr + 1 else curr - 1));
    assert [true] + [!up] == [true, !up];
  }

  lemma {:induction false} MovesTake(b: Block, lens: seq<seq<int>>, t: nat, i: nat, curr: int)
    requires ReadingTable(b, lens, t) && i < |lens[t]| && 1 <= curr <= LONGEST && 1 <= lens[t][i] <= LONGEST
    ensures Takes(AtLength(b, lens, t, i, curr), Moves(curr, lens[t][i]), AtLength(b, lens, t, i, lens[t][i]))
    decreases if curr < lens[t][i] then lens[t][i] - curr else curr - lens[t][i]
  {
    hide Takes, Valid, Step, Rank, AtLength, Tables, ValidBlock;
    var to := lens[t][i];
    if curr == to {
      AtLengthValid(b, lens, t, i, curr);
      TakesNothing(AtLength(b, lens, t, i, curr));
    } else {
      var next := if curr < to then curr + 1 else curr - 1;
      MoveTakes(b, lens, t, i, curr, curr < to);
      MovesTake(b, lens, t, i, next);
      TakesBoth(AtLength(b, lens, t, i, curr), [true, !(curr < to)], AtLength(b, lens, t, i, next), Moves(next, to), AtLength(b, lens, t, i, to));
    }
  }

  /** Where the decoder is once table t has been read. */
  ghost function AfterTable(b: Block, lens: seq<seq<int>>, t: nat): State
    requires ReadingTable(b, lens, t)
  {
    PrefixTables(b, lens, t);
    LensExtend(b, lens[..t], lens[t]);
    if t + 1 < b.nGroups then StartLength(b, lens[..t] + [lens[t]])
    else NextValue(b, lens[..t] + [lens[t]], Core(Iota(256), [], Fresh), -1, 0)
  }

  lemma EndTakes(b: Block, lens: seq<seq<int>>, t: nat, i: nat)
    requires ReadingTable(b, lens, t) && i < |lens[t]|
    ensures 1 <= lens[t][i] <= LONGEST
    ensures Takes(AtLength(b, lens, t, i, lens[t][i]), [false],
                  if i + 1 < |lens[t]| then AtLength(b, lens, t, i + 1, lens[t][i]) else AfterTable(b, lens, t))
  {
    hide Rank, Takes, Valid, NextValue;
    PrefixTables(b, lens, t);
    AtLengthValid(b, lens, t, i, lens[t][i]);
    TakesBit(AtLength(b, lens, t, i, lens[t][i]), false);
    assert lens[t][..i] + [lens[t][i]] == lens[t][..i + 1];
    assert lens[t][..|lens[t]|] == lens[t];
  }

  lemma {:induction false} DeltaTakes(b: Block, lens: seq<seq<int>>, t: nat, i: nat, curr: int)
    requires ReadingTable(b, lens, t) && i < |lens[t]| && 1 <= curr <= LONGEST
    ensures Takes(AtLength(b, lens, t, i, curr), DeltaFrom(lens[t], i, curr), AfterTable(b, lens, t))
    decreases |lens[t]| - i
  {
    hide Takes, Valid, Step, Rank, AtLength, Tables, ValidBlock, Moves, AfterTable;
    var len := lens[t];
    var s, u := AtLength(b, lens, t, i, curr), AtLength(b, lens, t, i, len[i]);
    EndTakes(b, lens, t, i);
    MovesTake(b, lens, t, i, curr);
    if i + 1 == |len| {
      TakesBoth(s, Moves(curr, len[i]), u, [false], AfterTable(b, lens, t));
      assert DeltaFrom(len, i, curr) == Moves(curr, len[i]) + [false] + [];
      assert Moves(curr, len[i]) + [false] + [] == Moves(curr, len[i]) + [false];
    } else {
      DeltaTakes(b, lens, t, i + 1, len[i]);
      TakesBoth(s, Moves(curr, len[i]), u, [false], AtLength(b, lens, t, i + 1, len[i]));
      TakesBoth(s, Moves(curr, len[i]) + [false], AtLength(b, lens, t, i + 1, len[i]), DeltaFrom(len, i + 1, len[i]), AfterTable(b, lens, t));
    }
  }

  lemma TableTakes(b: Block, lens: seq<seq<int>>, t: nat)
    requires ReadingTable(b, lens, t)
    ensures Tables(lens, AlphaSize(b.inUse)) && Lens(lens[t])
    ensures Takes(StartLength(b, lens[..t]), TableBits(lens[t]), AfterTable(b, lens, t))
  {
    hide Takes, Rank, DeltaFrom, AfterTable, ToBits, Pow2;
    PrefixTables(b, lens, t);
    SmallPowers();
    var s, curr := StartLength(b, lens[..t]), lens[t][0];
    TakesValue(s, curr, 5);
    assert lens[t][..0] == [];
    DeltaTakes(b, lens, t, 0, curr);
    TakesBoth(s, ToBits(curr, 5), AtLength(b, lens, t, 0, curr), DeltaFrom(lens[t], 0, curr), AfterTable(b, lens, t));
  }

  /** The decoder recovers every code length. */
  lemma {:induction false} TablesTake(b: Block, lens: seq<seq<int>>, t: nat)
    requires ReadingTable(b, lens, t)
    ensures ValidLens(b, lens)
    ensures Takes(StartLength(b, lens[..t]), TablesFrom(lens, AlphaSize(b.inUse), t), NextValue(b, lens, Core(Iota(256), [], Fresh), -1, 0))
    decreases |lens| - t
  {
    hide Takes, Valid, Step, Rank, AlphaSize, NextValue, TableBits;
    TableTakes(b, lens, t);
    assert lens[..t] + [lens[t]] == lens[..t + 1];
    var alpha := AlphaSize(b.inUse);
    if t + 1 == |lens| {
      assert lens[..|lens|] == lens;
      PrefixTables(b, lens, t);
      assert TablesFrom(lens, alpha, t) == TableBits(lens[t]) + [] == TableBits(lens[t]);
    } else {
      TablesTake(b, lens, t + 1);
      TakesBoth(StartLength(b, lens[..t]), TableBits(lens[t]), StartLength(b, lens[..t + 1]), TablesFrom(lens, alpha, t + 1),
                NextValue(b, lens, Core(Iota(256), [], Fresh), -1, 0));
    }
  }
}
