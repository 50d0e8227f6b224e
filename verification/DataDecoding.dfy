// The decoder reads back every symbol of a block.
module DataDecoding {
  import opened Words
  import opened Bits
  import opened Kraft
  import opened Alphabet
  import opened Mtf
  import opened Canonical
  import opened Decoder
  import opened DecoderRun
  import opened BlockFormat

  /** A point between two symbols: group g, with pos symbols of it left after the one being read. */
  datatype Place = Place(b: Block, lens: seq<seq<int>>, core: Core, g: nat, pos: nat)

  ghost predicate ValidPlace(q: Place) {
    ValidCoding(q.b, q.lens, q.core, q.g) && KraftSum(Lengths(q), LONGEST) <= Pow2(LONGEST)
  }

  /** The code lengths in force. */
  function Lengths(q: Place): seq<int> {
    if q.g < |q.b.selector| && 0 <= q.b.selector[q.g] < |q.lens| then q.lens[q.b.selector[q.g]] else []
  }

  lemma PlaceLens(q: Place)
    requires ValidPlace(q)
    ensures Lens(Lengths(q)) && |Lengths(q)| == AlphaSize(q.b.inUse) == ParamsOf(q.b).eob + 1
  {
    hide Rank, KraftSum;
  }

  /** At least the shortest code's bits have been read, and k bits of the code of s are still to come. */
  ghost predicate Left(q: Place, s: nat, k: nat) {
    ValidPlace(q) && s < |Lengths(q)| && k <= Lengths(q)[s] && k <= Lengths(q)[s] - MinLen(Lengths(q), |Lengths(q)|)
  }

  ghost function AtBit(q: Place, s: nat, k: nat): State
    requires Left(q, s, k)
  {
    PlaceLens(q);
    var len := Lengths(q);
    if k == 0 then OnValue(q.b, q.lens, q.core, q.g, q.pos, s)
    else ValueBit(q.b, q.lens, q.core, q.g, q.pos, len[s] - k + 1, Shr(Code(len, s), k))
  }

  /** What is recognised when k bits of the code of s are still to come. */
  lemma CodeRecognised(q: Place, s: nat, k: nat)
    requires Left(q, s, k) && Reachable(Lengths(q), Lengths(q)[s] - k, Shr(Code(Lengths(q), s), k))
    ensures OnCode(q.b, q.lens, q.core, q.g, q.pos, Lengths(q)[s] - k, Shr(Code(Lengths(q), s), k)) == AtBit(q, s, k)
  {
    hide KraftSum, Rank, Shr, Code, Reachable, TableOf, MatchCode, MinLen, Lens, ValidBlock, ValidLens, ValidCore, OnValue;
    PlaceLens(q);
    CodeMatches(Lengths(q), s, k);
  }

  lemma BitTakes(q: Place, s: nat, k: nat)
    requires Left(q, s, k) && k >= 1 && Valid(AtBit(q, s, k))
    ensures Left(q, s, k - 1)
    ensures Takes(AtBit(q, s, k), [Shr(Code(Lengths(q), s), k - 1) % 2 == 1], AtBit(q, s, k - 1))
    ensures Valid(AtBit(q, s, k - 1))
  {
    hide *;
    BitLeft(q, s, k);
    var c := Code(Lengths(q), s);
    var bit := Shr(c, k - 1) % 2 == 1;
    ToBitsCons(c, k - 1);
    ReachableUp(Lengths(q), Lengths(q)[s] - k + 1, 2 * Shr(c, k), Shr(c, k - 1));
    CodeRecognised(q, s, k - 1);
    StepBit(AtBit(q, s, k), bit);
    TakesBit(AtBit(q, s, k), bit);
  }

  /** What is known with at least one bit of the code still to come. */
  lemma BitLeft(q: Place, s: nat, k: nat)
    requires Left(q, s, k) && k >= 1 && Valid(AtBit(q, s, k))
    ensures Left(q, s, k - 1) && s < |Lengths(q)| && Lens(Lengths(q)) && Lengths(q)[s] >= k
    ensures AtBit(q, s, k) == ValueBit(q.b, q.lens, q.core, q.g, q.pos, Lengths(q)[s] - k + 1, Shr(Code(Lengths(q), s), k))
    ensures Reachable(Lengths(q), Lengths(q)[s] - k + 1, 2 * Shr(Code(Lengths(q), s), k))
    ensures ValidCoding(q.b, q.lens, q.core, q.g) && q.g < |q.b.selector| && 0 <= q.b.selector[q.g] < |q.lens| && Lengths(q) == q.lens[q.b.selector[q.g]]
  {
    hide KraftSum, Rank, Shr, Code, MinLen, Lens, ValidBlock, ValidLens, ValidCore, Reachable;
    PlaceLens(q);
  }

  lemma StepBit(t: State, bit: bool)
    requires Valid(t) && t.ValueBit?
    ensures !Halted(t) && Need(t) == 1 && t.groupNo < |t.b.selector| && 0 <= t.b.selector[t.groupNo] < |t.lens|
    ensures ValidCoding(t.b, t.lens, t.core, t.groupNo)
    ensures Reachable(t.lens[t.b.selector[t.groupNo]], t.zn, 2 * t.zvec + if bit then 1 else 0)
    ensures Step(t, if bit then 1 else 0) == OnCode(t.b, t.lens, t.core, t.groupNo, t.groupPos, t.zn, 2 * t.zvec + if bit then 1 else 0)
  {
    hide Rank, OnCode, ValidCore, Reachable, TableOf, MatchCode;
    ReachableUp(t.lens[t.b.selector[t.groupNo]], t.zn, 2 * t.zvec, 2 * t.zvec + if bit then 1 else 0);
  }

  lemma {:induction false} TailTakes(q: Place, s: nat, k: nat)
    requires Left(q, s, k) && Valid(AtBit(q, s, k))
    ensures Left(q, s, 0) && Lengths(q)[s] >= 0
    ensures Takes(AtBit(q, s, k), ToBits(Code(Lengths(q), s), k), AtBit(q, s, 0))
    decreases k
  {
    hide *;
    LeftLess(q, s, k);
    var c := Code(Lengths(q), s);
    if k == 0 {
      TakesNothing(AtBit(q, s, 0));
      NoneLeft(c);
    } else {
      BitTakes(q, s, k);
      TailTakes(q, s, k - 1);
      ToBitsCons(c, k - 1);
      TakesBoth(AtBit(q, s, k), [Shr(c, k - 1) % 2 == 1], AtBit(q, s, k - 1), ToBits(c, k - 1), AtBit(q, s, 0));
    }
  }

  lemma LeftLess(q: Place, s: nat, k: nat)
    requires Left(q, s, k)
    ensures Left(q, s, 0) && s < |Lengths(q)| && Lengths(q)[s] >= 0
  {
  }

  lemma NoneLeft(c: nat)
    ensures ToBits(c, 0) == []
  {
  }

  ghost function Waiting(q: Place): State
    requires ValidPlace(q)
  {
    PlaceLens(q);
    StartsAtMin(Lengths(q));
    Value(q.b, q.lens, q.core, q.g, q.pos, MinLen(Lengths(q), |Lengths(q)|))
  }

  /** The first bits, as many as the shortest code has. */
  lemma HeadTakes(q: Place, s: nat)
    requires ValidPlace(q) && s < |Lengths(q)|
    ensures var lo := MinLen(Lengths(q), |Lengths(q)|);
            && 1 <= lo <= Lengths(q)[s] && Left(q, s, Lengths(q)[s] - lo)
            && Takes(Waiting(q), ToBits(Shr(Code(Lengths(q), s), Lengths(q)[s] - lo), lo), AtBit(q, s, Lengths(q)[s] - lo))
            && Valid(AtBit(q, s, Lengths(q)[s] - lo))
  {
    hide KraftSum, Rank, Shr, Code, TableOf, MatchCode, MinLen, Takes, OnValue, OnCode, Reachable, Pow2, ToBits;
    PlaceLens(q);
    var len := Lengths(q);
    MinBelow(len, s);
    var lo := MinLen(len, |len|);
    var k := len[s] - lo;
    var v := Shr(Code(len, s), k);
    CodeFitsLongest(len, s);
    ShiftedFits(Code(len, s), lo, k);
    ReachableStart(len, v);
    CodeRecognised(q, s, k);
    TakesValue(Waiting(q), v, lo);
  }

  /** Whatever bits follow, the code of s is read exactly, and s is what is read. */
  lemma SymbolTakes(q: Place, s: nat)
    requires ValidPlace(q) && s < |Lengths(q)|
    ensures Lengths(q)[s] >= 1 && s <= ParamsOf(q.b).eob && ValidCoding(q.b, q.lens, q.core, q.g)
    ensures Takes(Waiting(q), ToBits(Code(Lengths(q), s), Lengths(q)[s]), OnValue(q.b, q.lens, q.core, q.g, q.pos, s))
  {
    hide *;
    PlaceLens(q);
    HeadTakes(q, s);
    var len := Lengths(q);
    var lo := MinLen(len, |len|);
    var k := len[s] - lo;
    TailTakes(q, s, k);
    ToBitsSplit(Code(len, s), lo, k);
    assert lo + k == len[s];
    TakesBoth(Waiting(q), ToBits(Shr(Code(len, s), k), lo), AtBit(q, s, k), ToBits(Code(len, s), k), AtBit(q, s, 0));
    LastBit(q, s);
  }

  lemma LastBit(q: Place, s: nat)
    requires Left(q, s, 0) && s <= ParamsOf(q.b).eob
    ensures ValidCoding(q.b, q.lens, q.core, q.g)
    ensures AtBit(q, s, 0) == OnValue(q.b, q.lens, q.core, q.g, q.pos, s)
  {
  }

  // The whole symbol stream.

  ghost predicate Coding(b: Block, lens: seq<seq<int>>, mtfv: seq<int>) {
    && ValidBlock(b) && ValidLens(b, lens) && |lens| == b.nGroups
    && Codable(lens, AlphaSize(b.inUse), b.selector, mtfv)
    && (forall t {:trigger lens[t]} :: 0 <= t < |lens| ==> KraftSum(lens[t], LONGEST) <= Pow2(LONGEST))
  }

  /** Where symbol k is about to be read. */
  function At(b: Block, lens: seq<seq<int>>, core: Core, k: nat): Place {
    Place(b, lens, core, k / G_SIZE, G_SIZE - 1 - k % G_SIZE)
  }

  lemma AtValid(b: Block, lens: seq<seq<int>>, core: Core, mtfv: seq<int>, k: nat)
    requires Coding(b, lens, mtfv) && k < |mtfv| && ValidCore(core, ParamsOf(b))
    ensures k / G_SIZE < |b.selector| && ValidPlace(At(b, lens, core, k))
    ensures 0 <= mtfv[k] < |Lengths(At(b, lens, core, k))| && mtfv[k] <= ParamsOf(b).eob
  {
    hide Rank, KraftSum, Pow2;
  }

  /** Moving on from one symbol to the next. */
  lemma NextAt(b: Block, lens: seq<seq<int>>, core: Core, mtfv: seq<int>, k: nat)
    requires Coding(b, lens, mtfv) && 0 < k < |mtfv| && ValidCore(core, ParamsOf(b))
    ensures ValidPlace(At(b, lens, core, k))
    ensures (k - 1) / G_SIZE < |b.selector|
    ensures NextValue(b, lens, core, (k - 1) / G_SIZE, G_SIZE - 1 - (k - 1) % G_SIZE) == Waiting(At(b, lens, core, k))
  {
    hide Rank, KraftSum, Pow2, MinLen;
    AtValid(b, lens, core, mtfv, k);
    AtValid(b, lens, core, mtfv, k - 1);
    PlaceLens(At(b, lens, core, k));
  }

  lemma FirstAt(b: Block, lens: seq<seq<int>>, core: Core, mtfv: seq<int>)
    requires Coding(b, lens, mtfv) && 0 < |mtfv| && ValidCore(core, ParamsOf(b))
    ensures ValidPlace(At(b, lens, core, 0))
    ensures NextValue(b, lens, core, -1, 0) == Waiting(At(b, lens, core, 0))
  {
    hide Rank, KraftSum, Pow2, MinLen;
    AtValid(b, lens, core, mtfv, 0);
    PlaceLens(At(b, lens, core, 0));
  }

  /** One symbol of the stream. */
  lemma OneSymbol(b: Block, lens: seq<seq<int>>, core: Core, mtfv: seq<int>, k: nat)
    requires Coding(b, lens, mtfv) && k < |mtfv| && ValidCore(core, ParamsOf(b))
    ensures ValidPlace(At(b, lens, core, k)) && ValidCoding(b, lens, core, k / G_SIZE) && 0 <= mtfv[k] <= ParamsOf(b).eob
    ensures var len := lens[b.selector[k / G_SIZE]];
            && mtfv[k] < |len| && len[mtfv[k]] >= 0
            && Takes(Waiting(At(b, lens, core, k)), ToBits(Code(len, mtfv[k]), len[mtfv[k]]),
                     OnValue(b, lens, core, k / G_SIZE, G_SIZE - 1 - k % G_SIZE, mtfv[k]))
  {
    hide Rank, KraftSum, Pow2, MinLen, Takes, Waiting, Coding, OnValue, Code, ToBits;
    AtValid(b, lens, core, mtfv, k);
    SymbolTakes(At(b, lens, core, k), mtfv[k]);
  }

  /** The symbols in codes are understood as the symbols themselves. */
  lemma {:induction false} DataTakes(b: Block, lens: seq<seq<int>>, core: Core, mtfv: seq<int>, k: nat)
    requires Coding(b, lens, mtfv) && k < |mtfv| && ValidCore(core, ParamsOf(b))
    requires AllSymbols(mtfv[k..], ParamsOf(b)) && forall i :: 0 <= i < |mtfv| - 1 ==> mtfv[i] < ParamsOf(b).eob
    requires var r := Feed(core, ParamsOf(b), mtfv[k..]); r.Done? && b.h.origPtr < |r.core.tt|
    ensures ValidPlace(At(b, lens, core, k))
    ensures Codable(lens, AlphaSize(b.inUse), b.selector, mtfv)
    ensures Takes(Waiting(At(b, lens, core, k)), DataFrom(lens, AlphaSize(b.inUse), b.selector, mtfv, k),
                  Output(b.h, Feed(core, ParamsOf(b), mtfv[k..]).core.tt))
    decreases |mtfv| - k
  {
    hide Takes, Waiting, KraftSum, Rank, Code, ToBits, ValidPlace, ValidBlock, ValidLens, ValidCore, OnSymbol, NextValue, Pow2, Lens, At, Valid, Tables;
    var p, sym, alpha := ParamsOf(b), mtfv[k], AlphaSize(b.inUse);
    var len := lens[b.selector[k / G_SIZE]];
    OneSymbol(b, lens, core, mtfv, k);
    assert mtfv[k..][0] == sym && mtfv[k..][1..] == mtfv[k + 1..];
    var s, code := Waiting(At(b, lens, core, k)), ToBits(Code(len, sym), len[sym]);
    var r := OnSymbol(core, p, sym);
    var out := Output(b.h, Feed(core, p, mtfv[k..]).core.tt);
    if r.More? {
      NextAt(b, lens, r.core, mtfv, k + 1);
      DataTakes(b, lens, r.core, mtfv, k + 1);
      TakesBoth(s, code, Waiting(At(b, lens, r.core, k + 1)), DataFrom(lens, alpha, b.selector, mtfv, k + 1), out);
    } else {
      DoneMeansEnd(core, p, sym);
      assert DataFrom(lens, alpha, b.selector, mtfv, k) == code + [] == code;
    }
  }

  lemma DoneMeansEnd(core: Core, p: Params, sym: int)
    requires ValidCore(core, p) && 0 <= sym <= p.eob
    ensures OnSymbol(core, p, sym).Done? ==> sym == p.eob
  {
  }
}
