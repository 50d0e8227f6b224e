// The compressor's transmission of a block: mapping table, selectors, coding
// tables, symbols, and the marks around them.
module BlockWriter {
  import opened Words
  import opened Bits
  import opened BitIO
  import opened Alphabet
  import opened Mtf
  import opened GenerateMtf
  import opened Canonical
  import opened Decoder
  import opened DecoderRun
  import opened BlockFormat
  import opened BlockDecoding

  lemma TwoBits()
    ensures Pow2(1) == 2 && Pow2(2) == 4
    ensures ToBits(0, 1) == [false] && ToBits(1, 1) == [true]
    ensures ToBits(2, 2) == [true, false] && ToBits(3, 2) == [true, true]
  {
    BitBits(false);
    BitBits(true);
    assert ToBits(2, 2) == ToBits(1, 1) + [false] && ToBits(3, 2) == ToBits(1, 1) + [true];
  }

  method PutUChar(w: BitWriter, c: byte)
    requires w.Valid()
    modifies w
    ensures w.Valid() && w.Written() == old(w.Written()) + ToBits(c, 8)
  {
    Pow2Of32();
    w.BsW(8, c);
  }

  lemma ByteOf(u: u32, n: nat)
    ensures And(Shr(u, n), 0xff) == Shr(u, n) % 256
  {
    Pow2Of32();
    AndMask(Shr(u, n), 8);
  }

  method PutUInt32(w: BitWriter, u: u32)
    requires w.Valid()
    modifies w
    ensures w.Valid() && w.Written() == old(w.Written()) + ToBits(u, 32)
  {
    hide ToBits, And, Shr, BitWriter.Valid, BitWriter.Written;
    Pow2Of32();
    ByteOf(u, 24);
    ByteOf(u, 16);
    ByteOf(u, 8);
    ByteOf(u, 0);
    NoBits(u);
    w.BsW(8, And(Shr(u, 24), 0xff));
    w.BsW(8, And(Shr(u, 16), 0xff));
    w.BsW(8, And(Shr(u, 8), 0xff));
    w.BsW(8, And(u, 0xff));
    FourBytes(u, old(w.Written()));
  }

  lemma FourBytes(u: u32, before: Bits)
    ensures Shr(u, 0) == u
    ensures before + ToBits(Shr(u, 24) % 256, 8) + ToBits(Shr(u, 16) % 256, 8) + ToBits(Shr(u, 8) % 256, 8) + ToBits(u % 256, 8)
         == before + ToBits(u, 32)
  {
    hide ToBits;
    NoBits(u);
    ByteOff(u, 24);
    ByteOff(u, 16);
    ByteOff(u, 8);
    ByteOff(u, 0);
    FiveParts(before, ToBits(Shr(u, 24) % 256, 8), ToBits(Shr(u, 16) % 256, 8), ToBits(Shr(u, 8) % 256, 8), ToBits(u % 256, 8));
  }

  lemma FiveParts(z: Bits, a: Bits, b: Bits, c: Bits, d: Bits)
    ensures z + a + b + c + d == z + (a + (b + (c + d)))
  {
  }

  method WriteStreamHead(w: BitWriter, level: nat)
    requires w.Valid() && 1 <= level <= 9
    modifies w
    ensures w.Valid() && w.Written() == old(w.Written()) + StreamHead(level)
  {
    hide ToBits, BitWriter.Valid, BitWriter.Written;
    PutUChar(w, 0x42);
    PutUChar(w, 0x5a);
    PutUChar(w, 0x68);
    PutUChar(w, 0x30 + level);
    FourParts(old(w.Written()), ToBits(0x42, 8), ToBits(0x5a, 8), ToBits(0x68, 8), ToBits(0x30 + level, 8));
  }

  lemma FourParts(z: Bits, a: Bits, b: Bits, c: Bits, d: Bits)
    ensures z + a + b + c + d == z + (a + b + c + d)
  {
  }

  method WriteBlockHead(w: BitWriter, crc: u32, origPtr: nat)
    requires w.Valid() && origPtr < 0x100_0000
    modifies w
    ensures w.Valid() && w.Written() == old(w.Written()) + BlockHead(crc, origPtr)
  {
    hide ToBits, BitWriter.Valid, BitWriter.Written, BlockMarkFrom;
    PutUChar(w, 0x31);
    PutUChar(w, 0x41);
    PutUChar(w, 0x59);
    PutUChar(w, 0x26);
    PutUChar(w, 0x53);
    PutUChar(w, 0x59);
    BlockMarkParts(old(w.Written()));
    PutUInt32(w, crc);
    TwoBits();
    w.BsW(1, 0);
    Pow2Of32();
    w.BsW(24, origPtr);
    FourParts(old(w.Written()), BlockMarkFrom(1), ToBits(crc, 32), [false], ToBits(origPtr, 24));
  }

  lemma BlockMarkParts(z: Bits)
    ensures z + ToBits(0x31, 8) + ToBits(0x41, 8) + ToBits(0x59, 8) + ToBits(0x26, 8) + ToBits(0x53, 8) + ToBits(0x59, 8) == z + BlockMarkFrom(1)
  {
    hide ToBits;
    BlockMarkNext(6);
    BlockMarkNext(5);
    BlockMarkNext(4);
    BlockMarkNext(3);
    BlockMarkNext(2);
    BlockMarkNext(1);
    SixParts(z, ToBits(0x31, 8), ToBits(0x41, 8), ToBits(0x59, 8), ToBits(0x26, 8), ToBits(0x53, 8), ToBits(0x59, 8));
  }

  lemma BlockMarkNext(k: nat)
    requires 1 <= k <= 6
    ensures BlockMarkFrom(k) == ToBits(BlockMagic(k), 8) + BlockMarkFrom(k + 1)
    ensures k == 6 ==> BlockMarkFrom(k + 1) == []
  {
  }

  lemma SixParts(z: Bits, a: Bits, b: Bits, c: Bits, d: Bits, e: Bits, f: Bits)
    ensures z + a + b + c + d + e + f == z + (a + (b + (c + (d + (e + (f + []))))))
  {
  }

  method WriteStreamTail(w: BitWriter, crc: u32)
    requires w.Valid()
    modifies w
    ensures w.Valid() && w.Written() == old(w.Written()) + StreamTail(crc)
  {
    hide ToBits, BitWriter.Valid, BitWriter.Written, EndMarkFrom;
    PutUChar(w, 0x17);
    PutUChar(w, 0x72);
    PutUChar(w, 0x45);
    PutUChar(w, 0x38);
    PutUChar(w, 0x50);
    PutUChar(w, 0x90);
    EndMarkParts(old(w.Written()));
    PutUInt32(w, crc);
    ConcatAssoc(old(w.Written()), EndMarkFrom(1), ToBits(crc, 32));
  }

  lemma EndMarkParts(z: Bits)
    ensures z + ToBits(0x17, 8) + ToBits(0x72, 8) + ToBits(0x45, 8) + ToBits(0x38, 8) + ToBits(0x50, 8) + ToBits(0x90, 8) == z + EndMarkFrom(1)
  {
    hide ToBits;
    EndMarkNext(6);
    EndMarkNext(5);
    EndMarkNext(4);
    EndMarkNext(3);
    EndMarkNext(2);
    EndMarkNext(1);
    SixParts(z, ToBits(0x17, 8), ToBits(0x72, 8), ToBits(0x45, 8), ToBits(0x38, 8), ToBits(0x50, 8), ToBits(0x90, 8));
  }

  lemma EndMarkNext(k: nat)
    requires 1 <= k <= 6
    ensures EndMarkFrom(k) == ToBits(EndMagic(k), 8) + EndMarkFrom(k + 1)
    ensures k == 6 ==> EndMarkFrom(k + 1) == []
  {
  }

  /** One bit. */
  method PutBit(w: BitWriter, bit: bool)
    requires w.Valid()
    modifies w
    ensures w.Valid() && w.Written() == old(w.Written()) + [bit]
  {
    TwoBits();
    if bit {
      w.BsW(1, 1);
    } else {
      w.BsW(1, 0);
    }
  }

  // Mapping table.

  method FindUsedGroups(inUse: UseMap) returns (inUse16: array<bool>)
    ensures fresh(inUse16) && inUse16[..] == Used16(inUse)
  {
    hide GroupUsed;
    inUse16 := new bool[16];
    for i := 0 to 16
      invariant forall k: nat :: k < i ==> inUse16[k] == GroupUsed(inUse, k)
    {
      inUse16[i] := false;
      for j := 0 to 16
        invariant forall k: nat :: k < i ==> inUse16[k] == GroupUsed(inUse, k)
        invariant inUse16[i] <==> exists k :: 16 * i <= k < 16 * i + j && inUse[k]
      {
        if inUse[i * 16 + j] {
          inUse16[i] := true;
        }
      }
      GroupUsedIs(inUse, i, inUse16[i]);
    }
  }

  lemma GroupUsedIs(inUse: UseMap, i: nat, b: bool)
    requires i < 16 && (b <==> exists k :: 16 * i <= k < 16 * i + 16 && inUse[k])
    ensures b == GroupUsed(inUse, i)
  {
  }

  method WriteMapping(w: BitWriter, inUse: UseMap)
    requires w.Valid()
    modifies w
    ensures w.Valid() && w.Written() == old(w.Written()) + MappingBits(inUse)
  {
    hide *;
    ghost var before := w.Written();
    MappingIs(inUse);
    var inUse16 := FindUsedGroups(inUse);
    ghost var used16 := inUse16[..];
    for i := 0 to 16
      invariant w.Valid() && inUse16[..] == used16
      invariant w.Written() == before + used16[..i]
    {
      assert used16[..i] + [used16[i]] == used16[..i + 1];
      PutBit(w, inUse16[i]);
    }
    assert used16[..16] == used16;
    for i := 0 to 16
      invariant w.Valid() && inUse16[..] == used16
      invariant w.Written() + MappingFrom(inUse, i) == before + used16 + MappingFrom(inUse, 0)
    {
      ghost var mid := w.Written();
      MappingNext(inUse, i);
      assert inUse16[i] == used16[i];
      if inUse16[i] {
        for j := 0 to 16
          invariant w.Valid() && inUse16[..] == used16
          invariant w.Written() == mid + inUse[16 * i..16 * i + j]
        {
          assert inUse[16 * i..16 * i + j] + [inUse[16 * i + j]] == inUse[16 * i..16 * i + j + 1];
          PutBit(w, inUse[i * 16 + j]);
        }
        ConcatAssoc(mid, inUse[16 * i..16 * (i + 1)], MappingFrom(inUse, i + 1));
      }
    }
    MappingLast(inUse, w.Written());
    ConcatAssoc(before, used16, MappingFrom(inUse, 0));
  }

  lemma MappingIs(inUse: UseMap)
    ensures |inUse| == 256 && |Used16(inUse)| == 16 && MappingBits(inUse) == Used16(inUse) + MappingFrom(inUse, 0)
  {
  }

  lemma MappingNext(inUse: UseMap, i: nat)
    requires i < 16
    ensures Used16(inUse)[i] ==> MappingFrom(inUse, i) == inUse[16 * i..16 * (i + 1)] + MappingFrom(inUse, i + 1)
    ensures !Used16(inUse)[i] ==> MappingFrom(inUse, i) == MappingFrom(inUse, i + 1)
  {
    assert [] + MappingFrom(inUse, i + 1) == MappingFrom(inUse, i + 1);
  }

  lemma MappingLast(inUse: UseMap, b: Bits)
    ensures b + MappingFrom(inUse, 16) == b
  {
  }

  // Selectors.

  /** Each selector's position in a list that moves it to the front. */
  method SelectorPositions(selector: seq<int>, nGroups: nat) returns (selectorMtf: array<int>)
    requires Selects(nGroups, selector)
    ensures fresh(selectorMtf)
    ensures (forall i :: 0 <= i < |selector| ==> selector[i] in Iota(nGroups)) && selectorMtf[..] == SelectorMtf(Iota(nGroups), selector)
  {
    hide SelectorMtf, ToFront, IndexOf;
    var pos := new int[N_GROUPS];
    for i := 0 to nGroups
      invariant forall k :: 0 <= k < i ==> pos[k] == k
    {
      pos[i] := i;
    }
    SelectorsListed(nGroups, selector);
    selectorMtf := new int[|selector|];
    ghost var want := SelectorMtf(Iota(nGroups), selector);
    ghost var list := Iota(nGroups);
    assert selector[0..] == selector && pos[..nGroups] == list;
    for i := 0 to |selector|
      invariant pos[..nGroups] == list && |list| == nGroups
      invariant forall k :: i <= k < |selector| ==> selector[k] in list
      invariant AllIn(selector[i..], list)
      invariant want[i..] == SelectorMtf(list, selector[i..])
      invariant selectorMtf[..i] == want[..i]
    {
      SelectorNext(list, selector, i);
      ghost var m := selectorMtf[..];
      var j := FindSelector(pos, nGroups, selector[i]);
      list := ToFront(list, j);
      assert selectorMtf[..] == m;
      assert want[i] == want[i..][0] && want[i + 1..] == want[i..][1..];
      selectorMtf[i] := j;
    }
    assert selectorMtf[..] == selectorMtf[..|selector|] && want == want[..|selector|];
  }

  ghost predicate AllIn(s: seq<int>, list: seq<int>) {
    forall k :: 0 <= k < |s| ==> s[k] in list
  }

  lemma SelectorNext(list: seq<int>, sel: seq<int>, i: nat)
    requires i < |sel| && AllIn(sel[i..], list)
    ensures sel[i] in list
    ensures var j := IndexOf(list, sel[i]);
            && (forall k :: i < k < |sel| ==> sel[k] in ToFront(list, j))
            && AllIn(sel[i + 1..], ToFront(list, j))
            && SelectorMtf(list, sel[i..])[0] == j && SelectorMtf(list, sel[i..])[1..] == SelectorMtf(ToFront(list, j), sel[i + 1..])
  {
    hide ToFront, IndexOf;
    assert sel[i..][0] == sel[i] && sel[i..][1..] == sel[i + 1..];
    var j := IndexOf(list, sel[i]);
    forall k | i < k < |sel| ensures sel[k] in ToFront(list, j) {
      assert sel[i..][k - i] == sel[k];
      ToFrontElems(list, j, sel[k]);
    }
  }

  /** Searches for x from the front, shifting what it passes, and puts x at the front. */
  method FindSelector(pos: array<int>, n: nat, x: int) returns (j: nat)
    requires n <= pos.Length && x in pos[..n]
    modifies pos
    ensures j == IndexOf(old(pos[..n]), x)
    ensures pos[..n] == ToFront(old(pos[..n]), j)
  {
    hide IndexOf, ToFront;
    ghost var list := pos[..n];
    ghost var at :| 0 <= at < n && list[at] == x;
    j := 0;
    var tmp := pos[0];
    while x != tmp
      invariant 0 <= j < n && tmp == list[j] && j <= at
      invariant forall k :: 0 <= k < j ==> list[k] != x
      invariant forall k :: 0 <= k < n ==> pos[k] == list[if 1 <= k <= j then k - 1 else k]
      decreases n - j
    {
      j := j + 1;
      var tmp2 := tmp;
      tmp := pos[j];
      pos[j] := tmp2;
    }
    pos[0] := tmp;
    IndexOfIs(list, x, j);
    ShiftedToFront(list, pos[..n], j);
  }

  lemma ShiftedToFront(list: seq<int>, s: seq<int>, j: nat)
    requires j < |list| == |s|
    requires forall k :: 0 <= k < |s| ==> s[k] == list[if k == 0 then j else if k <= j then k - 1 else k]
    ensures s == ToFront(list, j)
  {
    forall k | 0 <= k < |s| ensures s[k] == ToFront(list, j)[k] {}
  }

  method WriteSelectors(w: BitWriter, nGroups: nat, selector: seq<int>)
    requires w.Valid() && Selects(nGroups, selector)
    modifies w
    ensures w.Valid() && w.Written() == old(w.Written()) + SelectorBits(nGroups, selector)
  {
    hide BitWriter.Valid, BitWriter.Written, ToBits, SelectorMtf, UnaryFrom, Unary, Pow2;
    ghost var before := w.Written();
    var selectorMtf := SelectorPositions(selector, nGroups);
    ghost var m := selectorMtf[..];
    SmallWidths();
    w.BsW(3, nGroups);
    w.BsW(15, |selector|);
    ghost var head := before + ToBits(nGroups, 3) + ToBits(|selector|, 15);
    for i := 0 to |selector|
      invariant w.Valid() && selectorMtf[..] == m
      invariant w.Written() + UnaryFrom(m, i) == head + UnaryFrom(m, 0)
    {
      ghost var mid := w.Written();
      assert selectorMtf[i] == m[i];
      for j := 0 to selectorMtf[i]
        invariant w.Valid() && selectorMtf[..] == m
        invariant w.Written() + Unary(m[i] - j) == mid + Unary(m[i])
      {
        UnaryNext(m[i] - j);
        ConcatAssoc(w.Written(), [true], Unary(m[i] - j - 1));
        PutBit(w, true);
      }
      UnaryNext(0);
      PutBit(w, false);
      UnaryListNext(m, i);
      ConcatAssoc(mid, Unary(m[i]), UnaryFrom(m, i + 1));
    }
    UnaryListNext(m, |m|);
    assert w.Written() + [] == w.Written();
    SelectorParts(before, ToBits(nGroups, 3), ToBits(|selector|, 15), UnaryFrom(m, 0));
  }

  lemma SmallWidths()
    ensures Pow2(3) == 8 && Pow2(5) == 32 && Pow2(15) == 32768
  {
    assert Pow2(3) == 8 && Pow2(5) == 32;
    Pow2Add(5, 5);
    Pow2Add(10, 5);
  }

  lemma UnaryNext(j: nat)
    ensures j > 0 ==> Unary(j) == [true] + Unary(j - 1)
    ensures j == 0 ==> Unary(j) == [false]
  {
  }

  lemma UnaryListNext(m: seq<int>, i: nat)
    requires i <= |m| && forall k :: 0 <= k < |m| ==> m[k] >= 0
    ensures i < |m| ==> UnaryFrom(m, i) == Unary(m[i]) + UnaryFrom(m, i + 1)
    ensures i == |m| ==> UnaryFrom(m, i) == []
  {
  }

  lemma SelectorParts(z: Bits, a: Bits, b: Bits, c: Bits)
    ensures z + a + b + c == z + (a + b + c)
  {
  }
}
