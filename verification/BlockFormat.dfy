// The bits of a compressed block, as the compressor lays them out.
module BlockFormat {
  import opened Words
  import opened Bits
  import opened Alphabet
  import opened Mtf
  import opened Canonical
  import opened Decoder

  /** The stream header. */
  ghost function StreamHead(level: nat): Bits {
    ToBits(0x42, 8) + ToBits(0x5a, 8) + ToBits(0x68, 8) + ToBits(0x30 + level, 8)
  }

  /** The k-th and later bytes of a block's opening mark. */
  ghost function BlockMarkFrom(k: nat): Bits
    decreases 7 - k
  {
    if k > 6 then [] else ToBits(BlockMagic(k), 8) + BlockMarkFrom(k + 1)
  }

  ghost function EndMarkFrom(k: nat): Bits
    decreases 7 - k
  {
    if k > 6 then [] else ToBits(EndMagic(k), 8) + EndMarkFrom(k + 1)
  }

  /** Mark, checksum, the bit for randomisation, and the index of the unrotated block. */
  ghost function BlockHead(crc: nat, origPtr: nat): Bits {
    BlockMarkFrom(1) + ToBits(crc, 32) + [false] + ToBits(origPtr, 24)
  }

  ghost function StreamTail(crc: nat): Bits {
    EndMarkFrom(1) + ToBits(crc, 32)
  }

  // The mapping table.

  predicate GroupUsed(inUse: UseMap, i: nat)
    requires i < 16
  {
    exists k :: 16 * i <= k < 16 * (i + 1) && inUse[k]
  }

  function Used16(inUse: UseMap): (s: seq<bool>)
    ensures |s| == 16 && forall i: nat :: i < 16 ==> s[i] == GroupUsed(inUse, i)
  {
    seq(16, i requires 0 <= i < 16 => GroupUsed(inUse, i))
  }

  /** One bit for every byte of the used groups from i on. */
  function MappingFrom(inUse: UseMap, i: nat): Bits
    requires i <= 16
    decreases 16 - i
  {
    if i == 16 then []
    else (if GroupUsed(inUse, i) then inUse[16 * i..16 * (i + 1)] else []) + MappingFrom(inUse, i + 1)
  }

  function MappingBits(inUse: UseMap): Bits {
    Used16(inUse) + MappingFrom(inUse, 0)
  }

  // The selectors.

  /** Each selector's position in a list that moves it to the front. */
  function SelectorMtf(pos: seq<int>, sel: seq<int>): (m: seq<int>)
    requires forall i :: 0 <= i < |sel| ==> sel[i] in pos
    ensures |m| == |sel|
    ensures forall i :: 0 <= i < |m| ==> 0 <= m[i] < |pos|
    decreases |sel|
  {
    if sel == [] then []
    else
      var j := IndexOf(pos, sel[0]);
      assert forall i :: 0 <= i < |sel| ==> sel[i] in ToFront(pos, j) by {
        forall i | 0 <= i < |sel| ensures sel[i] in ToFront(pos, j) {
          ToFrontElems(pos, j, sel[i]);
        }
      }
      [j as int] + SelectorMtf(ToFront(pos, j), sel[1..])
  }

  function Unary(j: nat): Bits {
    if j == 0 then [false] else [true] + Unary(j - 1)
  }

  function UnaryFrom(m: seq<int>, i: nat): Bits
    requires i <= |m| && forall k :: 0 <= k < |m| ==> m[k] >= 0
    decreases |m| - i
  {
    if i == |m| then [] else Unary(m[i]) + UnaryFrom(m, i + 1)
  }

  ghost predicate Selects(nGroups: nat, sel: seq<int>) {
    2 <= nGroups <= N_GROUPS && 1 <= |sel| <= MAX_SELECTORS && forall i :: 0 <= i < |sel| ==> 0 <= sel[i] < nGroups
  }

  lemma SelectorsListed(nGroups: nat, sel: seq<int>)
    requires Selects(nGroups, sel)
    ensures forall i :: 0 <= i < |sel| ==> sel[i] in Iota(nGroups)
  {
    forall i | 0 <= i < |sel| ensures sel[i] in Iota(nGroups) {
      assert Iota(nGroups)[sel[i]] == sel[i];
    }
  }

  ghost function SelectorBits(nGroups: nat, sel: seq<int>): Bits
    requires Selects(nGroups, sel)
  {
    SelectorsListed(nGroups, sel);
    ToBits(nGroups, 3) + ToBits(|sel|, 15) + UnaryFrom(SelectorMtf(Iota(nGroups), sel), 0)
  }

  // The coding tables.

  /** Steps of one from a length to another. */
  function Moves(curr: int, to: int): Bits
    decreases if curr < to then to - curr else curr - to
  {
    if curr < to then [true, false] + Moves(curr + 1, to)
    else if curr > to then [true, true] + Moves(curr - 1, to)
    else []
  }

  function DeltaFrom(len: seq<int>, i: nat, curr: int): Bits
    requires i <= |len|
    decreases |len| - i
  {
    if i == |len| then [] else Moves(curr, len[i]) + [false] + DeltaFrom(len, i + 1, len[i])
  }

  ghost function TableBits(len: seq<int>): Bits
    requires Lens(len)
  {
    ToBits(len[0], 5) + DeltaFrom(len, 0, len[0])
  }

  ghost predicate Tables(lens: seq<seq<int>>, alphaSize: nat) {
    forall t {:trigger lens[t]} :: 0 <= t < |lens| ==> |lens[t]| == alphaSize && Lens(lens[t])
  }

  ghost function TablesFrom(lens: seq<seq<int>>, alphaSize: nat, t: nat): Bits
    requires t <= |lens| && Tables(lens, alphaSize)
    decreases |lens| - t
  {
    if t == |lens| then [] else TableBits(lens[t]) + TablesFrom(lens, alphaSize, t + 1)
  }

  // The symbols.

  /** The k-th and later symbols, each in the code its group's selector picks. */
  ghost predicate Codable(lens: seq<seq<int>>, alphaSize: nat, sel: seq<int>, mtfv: seq<int>) {
    && Tables(lens, alphaSize)
    && (forall i {:trigger mtfv[i]} :: 0 <= i < |mtfv| ==> 0 <= mtfv[i] < alphaSize)
    && (forall i {:trigger sel[i]} :: 0 <= i < |sel| ==> 0 <= sel[i] < |lens|)
    && |mtfv| <= G_SIZE * |sel|
  }

  ghost function DataFrom(lens: seq<seq<int>>, alphaSize: nat, sel: seq<int>, mtfv: seq<int>, k: nat): Bits
    requires k <= |mtfv| && Codable(lens, alphaSize, sel, mtfv)
    decreases |mtfv| - k
  {
    if k == |mtfv| then []
    else
      var len := lens[sel[k / G_SIZE]];
      ToBits(Code(len, mtfv[k]), len[mtfv[k]]) + DataFrom(lens, alphaSize, sel, mtfv, k + 1)
  }
}
