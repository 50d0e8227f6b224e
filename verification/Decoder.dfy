// BZ2_decompress as a machine that asks for a number of bits, steps on the
// value read, and can be suspended at every request.
module Decoder {
  import opened Words
  import opened Bits
  import opened Alphabet
  import opened Mtf
  import opened Canonical

  const N_GROUPS := 6
  const G_SIZE := 50
  const MAX_SELECTORS := 18002

  datatype Error = BadMagic | BadData

  /** What a block's header says. */
  datatype Header = Header(level: nat, crc: nat, randomised: bool, origPtr: nat)

  /** What precedes a block's coding tables. */
  datatype Block = Block(h: Header, inUse: UseMap, nGroups: nat, selector: seq<int>)

  datatype State =
    | Magic(k: nat)
    | BlockMark(level: nat, k: nat)
    | BlockCrc(level: nat, k: nat, crc: nat)
    | RandBit(level: nat, crc: nat)
    | OrigPtr(level: nat, crc: nat, randomised: bool, k: nat, ptr: nat)
    | UsedGroups(h: Header, used16: seq<bool>)
    | UsedBytes(h: Header, used16: seq<bool>, used: seq<bool>)
    | GroupCount(h: Header, inUse: UseMap)
    | SelectorCount(h: Header, inUse: UseMap, nGroups: nat)
    | Selectors(h: Header, inUse: UseMap, nGroups: nat, nSelectors: nat, i: nat, j: nat, selectorMtf: seq<int>)
    | StartLength(b: Block, lens: seq<seq<int>>)
    | LengthBit(b: Block, lens: seq<seq<int>>, len: seq<int>, curr: int)
    | LengthSign(b: Block, lens: seq<seq<int>>, len: seq<int>, curr: int)
    | Value(b: Block, lens: seq<seq<int>>, core: Core, groupNo: nat, groupPos: nat, zn: nat)
    | ValueBit(b: Block, lens: seq<seq<int>>, core: Core, groupNo: nat, groupPos: nat, zn: nat, zvec: int)
    | Output(h: Header, tt: seq<byte>)
    | EndMark(level: nat, k: nat)
    | CombinedCrc(level: nat, k: nat, crc: nat)
    | Ended(crc: nat)
    | Failed(error: Error)

  /** Nothing more is read: a block is waiting to be output, the stream has ended, or it is bad. */
  predicate Halted(s: State) {
    s.Output? || s.Ended? || s.Failed?
  }

  /** Number of bits the machine asks for next. */
  function Need(s: State): (n: nat) {
    match s
    case RandBit(_, _) => 1
    case UsedGroups(_, _) => 1
    case UsedBytes(_, _, _) => 1
    case GroupCount(_, _) => 3
    case SelectorCount(_, _, _) => 15
    case Selectors(_, _, _, _, _, _, _) => 1
    case StartLength(_, _) => 5
    case LengthBit(_, _, _, _) => 1
    case LengthSign(_, _, _, _) => 1
    case Value(_, _, _, _, _, zn) => zn
    case ValueBit(_, _, _, _, _, _, _) => 1
    case _ => 8
  }

  function AlphaSize(inUse: UseMap): nat { Rank(inUse, 256) + 2 }

  function ParamsOf(b: Block): Params {
    Params(Rank(b.inUse, 256) + 1, 100000 * b.h.level, SeqToUnseq(b.inUse))
  }

  ghost predicate ValidHeader(h: Header) {
    1 <= h.level <= 9 && h.crc < WORD && h.origPtr <= 10 + 100000 * h.level
  }

  ghost predicate ValidBlock(b: Block) {
    && ValidHeader(b.h) && Rank(b.inUse, 256) >= 1 && 2 <= b.nGroups <= N_GROUPS && 1 <= |b.selector| <= MAX_SELECTORS
    && forall i :: 0 <= i < |b.selector| ==> 0 <= b.selector[i] < b.nGroups
  }

  ghost predicate ValidLens(b: Block, lens: seq<seq<int>>) {
    && |lens| <= b.nGroups
    && forall t {:trigger lens[t]} :: 0 <= t < |lens| ==> |lens[t]| == AlphaSize(b.inUse) && Lens(lens[t])
  }

  ghost predicate PartialLen(b: Block, len: seq<int>) {
    |len| < AlphaSize(b.inUse) && forall i :: 0 <= i < |len| ==> 1 <= len[i] <= LONGEST
  }

  ghost predicate ValidCoding(b: Block, lens: seq<seq<int>>, core: Core, groupNo: nat) {
    && ValidBlock(b) && ValidLens(b, lens) && |lens| == b.nGroups
    && ValidCore(core, ParamsOf(b)) && groupNo < |b.selector|
  }

  ghost predicate Valid(s: State) {
    match s
    case Magic(k) => 1 <= k <= 4
    case BlockMark(level, k) => 1 <= level <= 9 && 1 <= k <= 6
    case BlockCrc(level, k, crc) => 1 <= level <= 9 && 1 <= k <= 4 && crc < Pow2(8 * (k - 1))
    case RandBit(level, crc) => 1 <= level <= 9 && crc < WORD
    case OrigPtr(level, crc, _, k, ptr) => 1 <= level <= 9 && crc < WORD && 1 <= k <= 3
    case UsedGroups(h, used16) => ValidHeader(h) && |used16| < 16
    case UsedBytes(h, used16, used) => ValidHeader(h) && |used16| == 16 && |used| < 256
    case GroupCount(h, inUse) => ValidHeader(h) && Rank(inUse, 256) >= 1
    case SelectorCount(h, inUse, nGroups) => ValidHeader(h) && Rank(inUse, 256) >= 1 && 2 <= nGroups <= N_GROUPS
    case Selectors(h, inUse, nGroups, nSelectors, i, j, mtf) =>
      && ValidHeader(h) && Rank(inUse, 256) >= 1 && 2 <= nGroups <= N_GROUPS
      && i < nSelectors && j < nGroups && |mtf| == (if i < MAX_SELECTORS then i else MAX_SELECTORS)
      && forall k :: 0 <= k < |mtf| ==> 0 <= mtf[k] < nGroups
    case StartLength(b, lens) => ValidBlock(b) && ValidLens(b, lens) && |lens| < b.nGroups
    case LengthBit(b, lens, len, curr) => ValidBlock(b) && ValidLens(b, lens) && |lens| < b.nGroups && PartialLen(b, len) && 1 <= curr <= LONGEST
    case LengthSign(b, lens, len, curr) => ValidBlock(b) && ValidLens(b, lens) && |lens| < b.nGroups && PartialLen(b, len) && 1 <= curr <= LONGEST
    case Value(b, lens, core, groupNo, groupPos, zn) =>
      ValidCoding(b, lens, core, groupNo) && zn == MinLen(lens[b.selector[groupNo]], AlphaSize(b.inUse))
    case ValueBit(b, lens, core, groupNo, groupPos, zn, zvec) =>
      zvec >= 0 && ValidCoding(b, lens, core, groupNo) && Reachable(lens[b.selector[groupNo]], zn, 2 * zvec)
    case Output(h, tt) => ValidHeader(h) && h.origPtr < |tt|
    case EndMark(level, k) => 1 <= level <= 9 && 2 <= k <= 6
    case CombinedCrc(level, k, crc) => 1 <= level <= 9 && 1 <= k <= 4
    case Ended(_) => true
    case Failed(_) => true
  }

  // The steps.

  function OnMagic(k: nat, v: nat): State
    requires 1 <= k <= 4
  {
    if k == 1 then if v == 0x42 then Magic(2) else Failed(BadMagic)
    else if k == 2 then if v == 0x5a then Magic(3) else Failed(BadMagic)
    else if k == 3 then if v == 0x68 then Magic(4) else Failed(BadMagic)
    else if 0x30 + 1 <= v <= 0x30 + 9 then BlockMark(v - 0x30, 1) else Failed(BadMagic)
  }

  /** The six bytes that open a block. */
  function BlockMagic(k: nat): nat {
    if k == 1 then 0x31 else if k == 2 then 0x41 else if k == 3 then 0x59 else if k == 4 then 0x26 else if k == 5 then 0x53 else 0x59
  }

  /** The six bytes that end the stream. */
  function EndMagic(k: nat): nat {
    if k == 1 then 0x17 else if k == 2 then 0x72 else if k == 3 then 0x45 else if k == 4 then 0x38 else if k == 5 then 0x50 else 0x90
  }

  function OnBlockMark(level: nat, k: nat, v: nat): State {
    if k == 1 && v == EndMagic(1) then EndMark(level, 2)
    else if v != BlockMagic(k) then Failed(BadData)
    else if k < 6 then BlockMark(level, k + 1)
    else BlockCrc(level, 1, 0)
  }

  function OnEndMark(level: nat, k: nat, v: nat): State {
    if v != EndMagic(k) then Failed(BadData)
    else if k < 6 then EndMark(level, k + 1)
    else CombinedCrc(level, 1, 0)
  }

  function OnOrigPtr(level: nat, crc: nat, randomised: bool, k: nat, ptr: nat): State {
    if k < 3 then OrigPtr(level, crc, randomised, k + 1, ptr)
    else if ptr > 10 + 100000 * level then Failed(BadData)
    else UsedGroups(Header(level, crc, randomised, ptr), [])
  }

  /** Groups of sixteen bytes not marked used have no bits of their own. */
  function SkipUnused(used16: seq<bool>, used: seq<bool>): (r: seq<bool>)
    requires |used16| == 16 && |used| <= 256
    ensures |used| <= |r| <= 256
    ensures used <= r
    ensures |r| < 256 && |r| % 16 == 0 ==> used16[|r| / 16]
    decreases 256 - |used|
  {
    if |used| < 256 && |used| % 16 == 0 && !used16[|used| / 16]
    then SkipUnused(used16, used + seq(16, _ => false))
    else used
  }

  function OnUsed(h: Header, used16: seq<bool>, used: seq<bool>): State
    requires |used16| == 16 && |used| <= 256
  {
    var u := SkipUnused(used16, used);
    if |u| < 256 then UsedBytes(h, used16, u)
    else if Rank(u, 256) == 0 then Failed(BadData)
    else GroupCount(h, u)
  }

  /** The table numbers the selectors' list positions stand for. */
  function UnMtf(pos: seq<int>, mtf: seq<int>): (r: seq<int>)
    requires forall i :: 0 <= i < |mtf| ==> 0 <= mtf[i] < |pos|
    ensures |r| == |mtf|
    decreases |mtf|
  {
    if mtf == [] then [] else [pos[mtf[0]]] + UnMtf(ToFront(pos, mtf[0]), mtf[1..])
  }

  lemma {:induction false} UnMtfRange(pos: seq<int>, mtf: seq<int>, n: int)
    requires (forall i :: 0 <= i < |mtf| ==> 0 <= mtf[i] < |pos|) && forall i :: 0 <= i < |pos| ==> 0 <= pos[i] < n
    ensures forall i :: 0 <= i < |mtf| ==> 0 <= UnMtf(pos, mtf)[i] < n
    decreases |mtf|
  {
    if mtf != [] {
      UnMtfRange(ToFront(pos, mtf[0]), mtf[1..], n);
    }
  }

  /** Selector i has been read as list position j. */
  function OnSelector(h: Header, inUse: UseMap, nGroups: nat, nSelectors: nat, i: nat, j: nat, mtf: seq<int>): State
    requires j < nGroups && forall k :: 0 <= k < |mtf| ==> 0 <= mtf[k] < nGroups
  {
    var mtf2 := if i < MAX_SELECTORS then mtf + [j as int] else mtf;
    if i + 1 < nSelectors then Selectors(h, inUse, nGroups, nSelectors, i + 1, 0, mtf2)
    else StartLength(Block(h, inUse, nGroups, UnMtf(Iota(nGroups), mtf2)), [])
  }

  /** The range check before each bit of a coding table. */
  function OnCurr(b: Block, lens: seq<seq<int>>, len: seq<int>, curr: int): State {
    if curr < 1 || curr > LONGEST then Failed(BadData) else LengthBit(b, lens, len, curr)
  }

  /** Another length is complete. */
  function OnLength(b: Block, lens: seq<seq<int>>, len: seq<int>, curr: int): State
    requires ValidBlock(b) && ValidLens(b, lens) && |lens| < b.nGroups && PartialLen(b, len) && 1 <= curr <= LONGEST
  {
    if |len| + 1 < AlphaSize(b.inUse) then OnCurr(b, lens, len + [curr], curr)
    else if |lens| + 1 < b.nGroups then StartLength(b, lens + [len + [curr]])
    else NextValue(b, lens + [len + [curr]], Core(Iota(256), [], Fresh), -1, 0)
  }

  /** Asks for the next symbol, moving on to the next group's table when fifty have been read. */
  function NextValue(b: Block, lens: seq<seq<int>>, core: Core, groupNo: int, groupPos: nat): State
    requires ValidBlock(b) && ValidLens(b, lens) && |lens| == b.nGroups
    requires -1 <= groupNo < |b.selector| && (groupNo == -1 ==> groupPos == 0)
  {
    if groupPos == 0 && groupNo + 1 >= |b.selector| then Failed(BadData)
    else
      var g := if groupPos == 0 then groupNo + 1 else groupNo;
      var len := lens[b.selector[g]];
      StartsAtMin(len);
      Value(b, lens, core, g, (if groupPos == 0 then G_SIZE else groupPos) - 1, MinLen(len, |len|))
  }

  /** The zn bits zvec have been read. */
  function OnCode(b: Block, lens: seq<seq<int>>, core: Core, groupNo: nat, groupPos: nat, zn: nat, zvec: int): State
    requires ValidCoding(b, lens, core, groupNo) && Reachable(lens[b.selector[groupNo]], zn, zvec)
  {
    var len := lens[b.selector[groupNo]];
    match MatchCode(TableOf(len), zn, zvec)
    case NoSuchCode => Failed(BadData)
    case Longer => ValueBit(b, lens, core, groupNo, groupPos, zn + 1, zvec)
    case Symbol(sym) =>
      LookupInTable(len, zn, zvec);
      OnValue(b, lens, core, groupNo, groupPos, sym)
  }

  /** Symbol sym has been read. */
  function OnValue(b: Block, lens: seq<seq<int>>, core: Core, groupNo: nat, groupPos: nat, sym: int): State
    requires ValidCoding(b, lens, core, groupNo) && 0 <= sym <= ParamsOf(b).eob
  {
    match OnSymbol(core, ParamsOf(b), sym)
    case Bad => Failed(BadData)
    case More(c) => NextValue(b, lens, c, groupNo, groupPos)
    case Done(c) => if b.h.origPtr >= |c.tt| then Failed(BadData) else Output(b.h, c.tt)
  }

  function Step(s: State, v: nat): State
    requires Valid(s)
  {
    match s
    case Magic(k) => OnMagic(k, v)
    case BlockMark(level, k) => OnBlockMark(level, k, v)
    case BlockCrc(level, k, crc) => if k < 4 then BlockCrc(level, k + 1, 256 * crc + v) else RandBit(level, 256 * crc + v)
    case RandBit(level, crc) => OrigPtr(level, crc, v == 1, 1, 0)
    case OrigPtr(level, crc, randomised, k, ptr) => OnOrigPtr(level, crc, randomised, k, 256 * ptr + v)
    case UsedGroups(h, used16) =>
      var u := used16 + [v == 1];
      if |u| < 16 then UsedGroups(h, u) else OnUsed(h, u, [])
    case UsedBytes(h, used16, used) => OnUsed(h, used16, used + [v == 1])
    case GroupCount(h, inUse) => if v < 2 || v > N_GROUPS then Failed(BadData) else SelectorCount(h, inUse, v)
    case SelectorCount(h, inUse, nGroups) => if v < 1 then Failed(BadData) else Selectors(h, inUse, nGroups, v, 0, 0, [])
    case Selectors(h, inUse, nGroups, nSelectors, i, j, mtf) =>
      if v == 0 then OnSelector(h, inUse, nGroups, nSelectors, i, j, mtf)
      else if j + 1 >= nGroups then Failed(BadData)
      else Selectors(h, inUse, nGroups, nSelectors, i, j + 1, mtf)
    case StartLength(b, lens) => OnCurr(b, lens, [], v)
    case LengthBit(b, lens, len, curr) => if v == 0 then OnLength(b, lens, len, curr) else LengthSign(b, lens, len, curr)
    case LengthSign(b, lens, len, curr) => OnCurr(b, lens, len, if v == 0 then curr + 1 else curr - 1)
    case Value(b, lens, core, groupNo, groupPos, zn) =>
      ReachableStart(lens[b.selector[groupNo]], v);
      OnCode(b, lens, core, groupNo, groupPos, zn, v)
    case ValueBit(b, lens, core, groupNo, groupPos, zn, zvec) => OnCode(b, lens, core, groupNo, groupPos, zn, 2 * zvec + v)
    case EndMark(level, k) => OnEndMark(level, k, v)
    case CombinedCrc(level, k, crc) => if k < 4 then CombinedCrc(level, k + 1, 256 * crc + v) else Ended(256 * crc + v)
    case Output(_, _) => s
    case Ended(_) => s
    case Failed(_) => s
  }

  // Every reachable state is valid.

  lemma UsedValid(h: Header, used16: seq<bool>, used: seq<bool>)
    requires ValidHeader(h) && |used16| == 16 && |used| <= 256
    ensures Valid(OnUsed(h, used16, used))
  {
  }

  lemma SelectorValid(s: State)
    requires s.Selectors? && Valid(s)
    ensures Valid(OnSelector(s.h, s.inUse, s.nGroups, s.nSelectors, s.i, s.j, s.selectorMtf))
  {
    var mtf2 := if s.i < MAX_SELECTORS then s.selectorMtf + [s.j as int] else s.selectorMtf;
    UnMtfRange(Iota(s.nGroups), mtf2, s.nGroups);
  }

  lemma NextValueValid(b: Block, lens: seq<seq<int>>, core: Core, groupNo: int, groupPos: nat)
    requires ValidBlock(b) && ValidLens(b, lens) && |lens| == b.nGroups && ValidCore(core, ParamsOf(b))
    requires -1 <= groupNo < |b.selector| && (groupNo == -1 ==> groupPos == 0)
    ensures Valid(NextValue(b, lens, core, groupNo, groupPos))
  {
  }

  lemma LengthValid(b: Block, lens: seq<seq<int>>, len: seq<int>, curr: int)
    requires ValidBlock(b) && ValidLens(b, lens) && |lens| < b.nGroups && PartialLen(b, len) && 1 <= curr <= LONGEST
    ensures Valid(OnLength(b, lens, len, curr))
  {
    if |len| + 1 == AlphaSize(b.inUse) {
      LensExtend(b, lens, len + [curr]);
      if |lens| + 1 == b.nGroups {
        NextValueValid(b, lens + [len + [curr]], Core(Iota(256), [], Fresh), -1, 0);
      }
    }
  }

  lemma LensExtend(b: Block, lens: seq<seq<int>>, len: seq<int>)
    requires ValidLens(b, lens) && |lens| < b.nGroups && |len| == AlphaSize(b.inUse)
    requires forall i :: 0 <= i < |len| ==> 1 <= len[i] <= LONGEST
    ensures ValidLens(b, lens + [len])
  {
  }

  lemma CodeValid(b: Block, lens: seq<seq<int>>, core: Core, groupNo: nat, groupPos: nat, zn: nat, zvec: int)
    requires ValidCoding(b, lens, core, groupNo) && Reachable(lens[b.selector[groupNo]], zn, zvec) && zvec >= 0
    ensures Valid(OnCode(b, lens, core, groupNo, groupPos, zn, zvec))
  {
    hide Reachable, TableOf, MatchCode, MinLen, MaxLen;
    var len := lens[b.selector[groupNo]];
    match MatchCode(TableOf(len), zn, zvec)
    case NoSuchCode =>
    case Longer =>
      ReachableNext(len, zn, zvec, 0);
    case Symbol(sym) =>
      LookupFound(len, zn, zvec);
      LookupInTable(len, zn, zvec);
      var r := OnSymbol(core, ParamsOf(b), sym);
      if r.More? {
        NextValueValid(b, lens, r.core, groupNo, groupPos);
      }
  }

  lemma LookupFound(len: seq<int>, zn: nat, zvec: int)
    requires MatchCode(TableOf(len), zn, zvec).Symbol?
    ensures zn <= LONGEST && zvec <= TableOf(len).limit[zn]
  {
  }

  lemma HeaderStepValid(s: State, v: nat)
    requires Valid(s) && (s.Magic? || s.BlockMark? || s.BlockCrc? || s.RandBit? || s.OrigPtr? || s.EndMark? || s.CombinedCrc?)
    requires v < Pow2(Need(s))
    ensures Valid(Step(s, v))
  {
    hide *;
    if s.BlockCrc? {
      CrcStepValid(s, v);
    } else if s.OrigPtr? {
      PtrStepValid(s, v);
    } else if s.RandBit? || s.CombinedCrc? {
      PlainStepValid(s, v);
    } else {
      MarkStepValid(s, v);
    }
  }

  lemma CrcStepValid(s: State, v: nat)
    requires Valid(s) && s.BlockCrc? && v < Pow2(Need(s))
    ensures Valid(Step(s, v))
  {
    hide Pow2;
    ByteValue(s.k - 1, s.crc, v);
  }

  lemma PtrStepValid(s: State, v: nat)
    requires Valid(s) && s.OrigPtr?
    ensures Valid(Step(s, v))
  {
    hide Pow2;
  }

  lemma PlainStepValid(s: State, v: nat)
    requires Valid(s) && (s.RandBit? || s.CombinedCrc?)
    ensures Valid(Step(s, v))
  {
    hide Pow2;
  }

  lemma MarkStepValid(s: State, v: nat)
    requires Valid(s) && (s.Magic? || s.BlockMark? || s.EndMark?)
    ensures Valid(Step(s, v))
  {
    hide Pow2;
    ByteValue(0, 0, 0);
  }

  lemma TableStepValid(s: State, v: nat)
    requires Valid(s) && (s.UsedGroups? || s.UsedBytes? || s.GroupCount? || s.SelectorCount? || s.Selectors? || s.StartLength? || s.LengthBit? || s.LengthSign?)
    ensures Valid(Step(s, v))
  {
    hide *;
    if s.UsedGroups? || s.UsedBytes? {
      UsedStepValid(s, v);
    } else if s.GroupCount? || s.SelectorCount? || s.Selectors? {
      SelectorStepValid(s, v);
    } else {
      LengthStepValid(s, v);
    }
  }

  lemma UsedStepValid(s: State, v: nat)
    requires Valid(s) && (s.UsedGroups? || s.UsedBytes?)
    ensures Valid(Step(s, v))
  {
    hide Rank, SkipUnused, Pow2, OnUsed;
    match s
    case UsedGroups(h, used16) =>
      if |used16| == 15 {
        UsedValid(h, used16 + [v == 1], []);
      }
    case UsedBytes(h, used16, used) => UsedValid(h, used16, used + [v == 1]);
  }

  lemma SelectorStepValid(s: State, v: nat)
    requires Valid(s) && (s.GroupCount? || s.SelectorCount? || s.Selectors?)
    ensures Valid(Step(s, v))
  {
    hide Rank, SkipUnused, Pow2, UnMtf, OnSelector;
    if s.Selectors? {
      SelectorValid(s);
    }
  }

  lemma LengthStepValid(s: State, v: nat)
    requires Valid(s) && (s.StartLength? || s.LengthBit? || s.LengthSign?)
    ensures Valid(Step(s, v))
  {
    hide Rank, SkipUnused, Pow2, UnMtf, OnLength;
    if s.LengthBit? {
      LengthValid(s.b, s.lens, s.len, s.curr);
    }
  }

  lemma StepValid(s: State, v: nat)
    requires Valid(s) && !Halted(s) && v < Pow2(Need(s))
    ensures Valid(Step(s, v))
  {
    hide Rank, SkipUnused, Pow2, UnMtf, OnUsed, OnSelector, OnLength, OnCode, OnMagic, OnBlockMark, OnEndMark, OnOrigPtr, OnCurr, Reachable;
    match s
    case Value(b, lens, core, groupNo, groupPos, zn) =>
      ReachableStart(lens[b.selector[groupNo]], v);
      CodeValid(b, lens, core, groupNo, groupPos, zn, v);
    case ValueBit(b, lens, core, groupNo, groupPos, zn, zvec) =>
      ReachableUp(lens[b.selector[groupNo]], zn, 2 * zvec, 2 * zvec + v);
      CodeValid(b, lens, core, groupNo, groupPos, zn, 2 * zvec + v);
    case _ =>
      if s.Magic? || s.BlockMark? || s.BlockCrc? || s.RandBit? || s.OrigPtr? || s.EndMark? || s.CombinedCrc? {
        HeaderStepValid(s, v);
      } else {
        TableStepValid(s, v);
      }
  }

  lemma ReachableUp(len: seq<int>, zn: nat, x: int, y: int)
    requires Reachable(len, zn, x) && x <= y
    ensures Reachable(len, zn, y)
  {
  }

  lemma ByteValue(k: nat, crc: nat, v: nat)
    requires k <= 3 && crc < Pow2(8 * k) && v < Pow2(8)
    ensures 256 * crc + v < Pow2(8 * (k + 1)) && Pow2(32) == WORD
  {
    Pow2Of32();
    Pow2Add(8 * k, 8);
  }

  /** Where the codes begin, nothing else can go wrong before the first bit of a code is read. */
  lemma NextFails(b: Block, lens: seq<seq<int>>, core: Core, groupNo: int, groupPos: nat)
    requires ValidBlock(b) && ValidLens(b, lens) && |lens| == b.nGroups
    requires -1 <= groupNo < |b.selector| && (groupNo == -1 ==> groupPos == 0)
    ensures NextValue(b, lens, core, groupNo, groupPos).Failed? <==> groupPos == 0 && groupNo + 1 >= |b.selector|
    ensures NextValue(b, lens, core, groupNo, groupPos).Failed? ==> NextValue(b, lens, core, groupNo, groupPos) == Failed(BadData)
  {
  }

  lemma {:induction false} SkipExact(used16: seq<bool>, used: seq<bool>)
    requires |used16| == 16 && |used| <= 256
    ensures var r := SkipUnused(used16, used);
            && (|r| == 256 <==> |used| % 16 == 0 && (forall g {:trigger used16[g]} :: |used| / 16 <= g < 16 ==> !used16[g]))
            && (forall k :: |used| <= k < |r| ==> !r[k])
    decreases 256 - |used|
  {
    if |used| < 256 && |used| % 16 == 0 && !used16[|used| / 16] {
      SkipExact(used16, used + seq(16, _ => false));
    }
  }

  lemma {:induction false} RankNone(u: UseMap, c: nat)
    requires c <= 256
    ensures Rank(u, c) == 0 <==> forall k :: 0 <= k < c ==> !u[k]
    decreases c
  {
    if c > 0 {
      RankNone(u, c - 1);
    }
  }

  lemma UsedFails(h: Header, used16: seq<bool>, used: seq<bool>)
    requires |used16| == 16 && |used| <= 256
    ensures OnUsed(h, used16, used).Failed? <==>
              && (forall k :: 0 <= k < |used| ==> !used[k])
              && |used| % 16 == 0 && forall g {:trigger used16[g]} :: |used| / 16 <= g < 16 ==> !used16[g]
  {
    hide SkipUnused, Rank;
    var r := SkipUnused(used16, used);
    SkipExact(used16, used);
    if |r| == 256 {
      RankNone(r, 256);
      assert forall k :: 0 <= k < |used| ==> r[k] == used[k];
    }
  }

  /**
   * When reading a value fails before the codes of a block: exactly at a wrong byte of a mark, an index or a count out
   * of its range, no used byte, a selector beyond the tables, or a length out of 1 to 20.
   */
  lemma StepFails(s: State, v: nat)
    requires Valid(s) && !Halted(s) && !s.Value? && !s.ValueBit?
    ensures Step(s, v).Failed? <==>
      match s
      case Magic(k) => if k == 1 then v != 0x42 else if k == 2 then v != 0x5a else if k == 3 then v != 0x68 else v < 0x31 || v > 0x39
      case BlockMark(_, k) =>
        v != [0x31, 0x41, 0x59, 0x26, 0x53, 0x59][k - 1] && (k > 1 || v != 0x17)
      case EndMark(_, k) => v != [0x17, 0x72, 0x45, 0x38, 0x50, 0x90][k - 1]
      case OrigPtr(level, _, _, k, ptr) => k == 3 && 256 * ptr + v > 10 + 100000 * level
      case UsedGroups(_, used16) => |used16| == 15 && v != 1 && forall g :: 0 <= g < 15 ==> !used16[g]
      case UsedBytes(_, used16, used) =>
        && v != 1 && (forall k :: 0 <= k < |used| ==> !used[k])
        && |used| % 16 == 15 && forall g :: (|used| + 1) / 16 <= g < 16 ==> !used16[g]
      case GroupCount(_, _) => v < 2 || v > 6
      case SelectorCount(_, _, _) => v < 1
      case Selectors(_, _, nGroups, _, _, j, _) => v != 0 && j + 1 >= nGroups
      case StartLength(_, _) => v < 1 || v > 20
      case LengthSign(_, _, _, curr) => if v == 0 then curr == 20 else curr == 1
      case _ => false
  {
    hide Rank, Pow2, SkipUnused, UnMtf, Reachable, MinLen, SeqToUnseq, TableOf, MatchCode, OnUsed, OnLength, OnSelector;
    if s.UsedGroups? && |s.used16| == 15 {
      var u := s.used16 + [v == 1];
      UsedFails(s.h, u, []);
      assert u[15] == (v == 1) && forall g :: 0 <= g < 15 ==> u[g] == s.used16[g];
    }
    if s.UsedBytes? {
      var u := s.used + [v == 1];
      UsedFails(s.h, s.used16, u);
      assert u[|s.used|] == (v == 1) && forall k :: 0 <= k < |s.used| ==> u[k] == s.used[k];
    }
    if s.LengthBit? {
      LengthGood(s.b, s.lens, s.len, s.curr);
    }
    if s.Selectors? {
      SelectorGood(s);
    }
  }

  lemma SelectorGood(s: State)
    requires s.Selectors? && Valid(s)
    ensures !OnSelector(s.h, s.inUse, s.nGroups, s.nSelectors, s.i, s.j, s.selectorMtf).Failed?
  {
    hide UnMtf, Rank;
  }

  lemma LengthGood(b: Block, lens: seq<seq<int>>, len: seq<int>, curr: int)
    requires ValidBlock(b) && ValidLens(b, lens) && |lens| < b.nGroups && PartialLen(b, len) && 1 <= curr <= LONGEST
    ensures !OnLength(b, lens, len, curr).Failed?
  {
    hide Rank, MinLen, SeqToUnseq;
    if |len| + 1 == AlphaSize(b.inUse) && |lens| + 1 == b.nGroups {
      LensExtend(b, lens, len + [curr]);
      NextFails(b, lens + [len + [curr]], Core(Iota(256), [], Fresh), -1, 0);
    }
  }
}
