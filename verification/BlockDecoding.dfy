// The decoder reads back every section of a block.
module BlockDecoding {
  import opened Words
  import opened Bits
  import opened Sums
  import opened Kraft
  import opened Alphabet
  import opened Mtf
  import opened Canonical
  import opened Decoder
  import opened DecoderRun
  import opened BlockFormat

  // Bytes.

  /** A byte at a time from the top. */
  lemma ByteOff(v: nat, n: nat)
    ensures ToBits(v, n + 8) == ToBits(Shr(v, n) % 256, 8) + ToBits(v, n)
    ensures Shr(v, n) == 256 * Shr(v, n + 8) + Shr(v, n) % 256
  {
    hide ToBits, Shr;
    ToBitsSplit(v, 8, n);
    ToBitsMod(Shr(v, n), 8);
    Pow2Of32();
    ShrEight(v, n);
  }

  lemma {:induction false} ShrEight(v: nat, n: nat)
    ensures Shr(v, n + 8) == Shr(v, n) / 256
    decreases n
  {
    if n > 0 {
      ShrEight(v / 2, n - 1);
    } else {
      Pow2Of32();
      ShrDiv(v, 8);
    }
  }

  lemma ShrAll(v: nat, n: nat)
    requires v < Pow2(n)
    ensures Shr(v, n) == 0
  {
    ShrDiv(v, n);
    DivModUnique(v, Pow2(n), 0, v);
  }

  /** One byte. */
  lemma ByteTakes(s: State, v: nat, t: State)
    requires Valid(s) && !Halted(s) && Need(s) == 8 && v < 256 && t == Step(s, v)
    ensures Takes(s, ToBits(v, 8), t)
  {
    hide Step, Valid, Need, Takes, ToBits;
    Pow2Of32();
    TakesValue(s, v, 8);
  }

  // Headers.

  lemma StreamHeadTakes(level: nat)
    requires 1 <= level <= 9
    ensures Takes(Magic(1), StreamHead(level), BlockMark(level, 1))
  {
    hide Takes, ToBits;
    var a, b, c, d := ToBits(0x42, 8), ToBits(0x5a, 8), ToBits(0x68, 8), ToBits(0x30 + level, 8);
    ByteTakes(Magic(1), 0x42, Magic(2));
    ByteTakes(Magic(2), 0x5a, Magic(3));
    ByteTakes(Magic(3), 0x68, Magic(4));
    ByteTakes(Magic(4), 0x30 + level, BlockMark(level, 1));
    TakesBoth(Magic(1), a, Magic(2), b, Magic(3));
    TakesBoth(Magic(1), a + b, Magic(3), c, Magic(4));
    TakesBoth(Magic(1), a + b + c, Magic(4), d, BlockMark(level, 1));
  }

  lemma {:induction false} BlockMarkTakes(level: nat, k: nat)
    requires 1 <= level <= 9 && 1 <= k <= 6
    ensures Takes(BlockMark(level, k), BlockMarkFrom(k), BlockCrc(level, 1, 0))
    decreases 7 - k
  {
    hide Takes, ToBits;
    var s, t := BlockMark(level, k), if k == 6 then BlockCrc(level, 1, 0) else BlockMark(level, k + 1);
    ByteTakes(s, BlockMagic(k), t);
    if k == 6 {
      assert BlockMarkFrom(k) == ToBits(BlockMagic(k), 8) + [] == ToBits(BlockMagic(k), 8);
    } else {
      BlockMarkTakes(level, k + 1);
      TakesBoth(s, ToBits(BlockMagic(k), 8), t, BlockMarkFrom(k + 1), BlockCrc(level, 1, 0));
    }
  }

  lemma {:induction false} EndMarkTakes(level: nat, k: nat)
    requires 1 <= level <= 9 && 1 <= k <= 6
    ensures Takes(if k == 1 then BlockMark(level, 1) else EndMark(level, k), EndMarkFrom(k), CombinedCrc(level, 1, 0))
    decreases 7 - k
  {
    hide Takes, ToBits;
    var s := if k == 1 then BlockMark(level, 1) else EndMark(level, k);
    var t := if k == 6 then CombinedCrc(level, 1, 0) else EndMark(level, k + 1);
    ByteTakes(s, EndMagic(k), t);
    if k == 6 {
      assert EndMarkFrom(k) == ToBits(EndMagic(k), 8) + [] == ToBits(EndMagic(k), 8);
    } else {
      EndMarkTakes(level, k + 1);
      TakesBoth(s, ToBits(EndMagic(k), 8), t, EndMarkFrom(k + 1), CombinedCrc(level, 1, 0));
    }
  }

  lemma BlockCrcByte(level: nat, k: nat, crc: u32)
    requires 1 <= level <= 9 && 1 <= k <= 4
    ensures Takes(BlockCrc(level, k, Shr(crc, 8 * (5 - k))), ToBits(Shr(crc, 8 * (4 - k)) % 256, 8),
                  if k == 4 then RandBit(level, crc) else BlockCrc(level, k + 1, Shr(crc, 8 * (4 - k))))
  {
    hide Takes, ToBits, Shr, Pow2;
    PartialCrc(crc, k);
    NoBits(crc);
    ByteOff(crc, 8 * (4 - k));
    assert 8 * (4 - k) + 8 == 8 * (5 - k);
    ByteTakes(BlockCrc(level, k, Shr(crc, 8 * (5 - k))), Shr(crc, 8 * (4 - k)) % 256,
              if k == 4 then RandBit(level, crc) else BlockCrc(level, k + 1, Shr(crc, 8 * (4 - k))));
  }

  lemma {:induction false} BlockCrcTakes(level: nat, k: nat, crc: u32)
    requires 1 <= level <= 9 && 1 <= k <= 4
    ensures Takes(BlockCrc(level, k, Shr(crc, 8 * (5 - k))), ToBits(crc, 8 * (5 - k)), RandBit(level, crc))
    decreases 5 - k
  {
    hide *;
    var n := 8 * (4 - k);
    assert n + 8 == 8 * (5 - k);
    ByteOff(crc, n);
    BlockCrcByte(level, k, crc);
    if k == 4 {
      NoBits(crc);
    } else {
      assert n == 8 * (5 - (k + 1));
      BlockCrcTakes(level, k + 1, crc);
      TakesBoth(BlockCrc(level, k, Shr(crc, n + 8)), ToBits(Shr(crc, n) % 256, 8), BlockCrc(level, k + 1, Shr(crc, n)), ToBits(crc, n), RandBit(level, crc));
    }
  }

  lemma NoBits(v: nat)
    ensures Shr(v, 0) == v && forall b: Bits :: b + ToBits(v, 0) == b
  {
  }

  lemma PartialCrc(crc: u32, k: nat)
    requires 1 <= k <= 4
    ensures Shr(crc, 8 * (5 - k)) < Pow2(8 * (k - 1))
  {
    hide Pow2;
    Pow2Of32();
    assert 8 * (k - 1) + 8 * (5 - k) == 32;
    ShiftedFits(crc, 8 * (k - 1), 8 * (5 - k));
  }

  lemma CombinedCrcByte(level: nat, k: nat, crc: u32)
    requires 1 <= level <= 9 && 1 <= k <= 4
    ensures Takes(CombinedCrc(level, k, Shr(crc, 8 * (5 - k))), ToBits(Shr(crc, 8 * (4 - k)) % 256, 8),
                  if k == 4 then Ended(crc) else CombinedCrc(level, k + 1, Shr(crc, 8 * (4 - k))))
  {
    hide Takes, ToBits, Shr, Pow2;
    NoBits(crc);
    ByteOff(crc, 8 * (4 - k));
    assert 8 * (4 - k) + 8 == 8 * (5 - k);
    ByteTakes(CombinedCrc(level, k, Shr(crc, 8 * (5 - k))), Shr(crc, 8 * (4 - k)) % 256,
              if k == 4 then Ended(crc) else CombinedCrc(level, k + 1, Shr(crc, 8 * (4 - k))));
  }

  lemma {:induction false} CombinedCrcTakes(level: nat, k: nat, crc: u32)
    requires 1 <= level <= 9 && 1 <= k <= 4
    ensures Takes(CombinedCrc(level, k, Shr(crc, 8 * (5 - k))), ToBits(crc, 8 * (5 - k)), Ended(crc))
    decreases 5 - k
  {
    hide *;
    var n := 8 * (4 - k);
    assert n + 8 == 8 * (5 - k);
    ByteOff(crc, n);
    CombinedCrcByte(level, k, crc);
    if k == 4 {
      NoBits(crc);
    } else {
      assert n == 8 * (5 - (k + 1));
      CombinedCrcTakes(level, k + 1, crc);
      TakesBoth(CombinedCrc(level, k, Shr(crc, n + 8)), ToBits(Shr(crc, n) % 256, 8), CombinedCrc(level, k + 1, Shr(crc, n)), ToBits(crc, n), Ended(crc));
    }
  }

  lemma OrigPtrByte(level: nat, crc: u32, k: nat, ptr: nat)
    requires 1 <= level <= 9 && 1 <= k <= 3 && ptr <= 10 + 100000 * level
    ensures Takes(OrigPtr(level, crc, false, k, Shr(ptr, 8 * (4 - k))), ToBits(Shr(ptr, 8 * (3 - k)) % 256, 8),
                  if k == 3 then UsedGroups(Header(level, crc, false, ptr), []) else OrigPtr(level, crc, false, k + 1, Shr(ptr, 8 * (3 - k))))
  {
    hide Takes, ToBits, Shr, Pow2;
    NoBits(ptr);
    ByteOff(ptr, 8 * (3 - k));
    assert 8 * (3 - k) + 8 == 8 * (4 - k);
    ByteTakes(OrigPtr(level, crc, false, k, Shr(ptr, 8 * (4 - k))), Shr(ptr, 8 * (3 - k)) % 256,
              if k == 3 then UsedGroups(Header(level, crc, false, ptr), []) else OrigPtr(level, crc, false, k + 1, Shr(ptr, 8 * (3 - k))));
  }

  lemma {:induction false} OrigPtrTakes(level: nat, crc: u32, k: nat, ptr: nat)
    requires 1 <= level <= 9 && 1 <= k <= 3 && ptr <= 10 + 100000 * level
    ensures Takes(OrigPtr(level, crc, false, k, Shr(ptr, 8 * (4 - k))), ToBits(ptr, 8 * (4 - k)),
                  UsedGroups(Header(level, crc, false, ptr), []))
    decreases 4 - k
  {
    hide *;
    var n := 8 * (3 - k);
    assert n + 8 == 8 * (4 - k);
    ByteOff(ptr, n);
    OrigPtrByte(level, crc, k, ptr);
    if k == 3 {
      NoBits(ptr);
    } else {
      assert n == 8 * (4 - (k + 1));
      OrigPtrTakes(level, crc, k + 1, ptr);
      TakesBoth(OrigPtr(level, crc, false, k, Shr(ptr, n + 8)), ToBits(Shr(ptr, n) % 256, 8), OrigPtr(level, crc, false, k + 1, Shr(ptr, n)), ToBits(ptr, n),
                UsedGroups(Header(level, crc, false, ptr), []));
    }
  }

  lemma BlockHeadTakes(level: nat, crc: u32, ptr: nat)
    requires 1 <= level <= 9 && ptr <= 10 + 100000 * level
    ensures Takes(BlockMark(level, 1), BlockHead(crc, ptr), UsedGroups(Header(level, crc, false, ptr), []))
  {
    hide Step, Need, Shr, ToBits, BlockMarkFrom;
    var a, b, c, d := BlockMarkFrom(1), ToBits(crc, 32), [false], ToBits(ptr, 24);
    var s, u := BlockMark(level, 1), UsedGroups(Header(level, crc, false, ptr), []);
    BlockMarkTakes(level, 1);
    WholeWords(crc, ptr);
    BlockCrcTakes(level, 1, crc);
    NotRandomised(level, crc);
    OrigPtrTakes(level, crc, 1, ptr);
    TakesBoth(s, a, BlockCrc(level, 1, 0), b, RandBit(level, crc));
    TakesBoth(s, a + b, RandBit(level, crc), c, OrigPtr(level, crc, false, 1, 0));
    TakesBoth(s, a + b + c, OrigPtr(level, crc, false, 1, 0), d, u);
  }

  lemma WholeWords(crc: u32, ptr: nat)
    requires ptr <= 10 + 900000
    ensures Shr(crc, 32) == 0 && Shr(ptr, 24) == 0
  {
    Pow2Of32();
    ShrAll(crc, 32);
    ShrAll(ptr, 24);
  }

  lemma NotRandomised(level: nat, crc: u32)
    requires 1 <= level <= 9
    ensures Takes(RandBit(level, crc), [false], OrigPtr(level, crc, false, 1, 0))
  {
    TakesBit(RandBit(level, crc), false);
  }

  lemma StreamTailTakes(level: nat, crc: u32)
    requires 1 <= level <= 9
    ensures Takes(BlockMark(level, 1), StreamTail(crc), Ended(crc))
  {
    hide Step, Need, Shr, ToBits, EndMarkFrom;
    EndMarkTakes(level, 1);
    WholeWords(crc, 0);
    CombinedCrcTakes(level, 1, crc);
    TakesBoth(BlockMark(level, 1), EndMarkFrom(1), CombinedCrc(level, 1, 0), ToBits(crc, 32), Ended(crc));
  }

  // The mapping table.

  lemma {:induction false} UsedGroupsTake(h: Header, used16: seq<bool>, k: nat)
    requires ValidHeader(h) && |used16| == 16 && k < 16
    ensures Takes(UsedGroups(h, used16[..k]), used16[k..], OnUsed(h, used16, []))
    decreases 16 - k
  {
    hide OnUsed;
    var s := UsedGroups(h, used16[..k]);
    TakesBit(s, used16[k]);
    assert used16[..k] + [used16[k]] == used16[..k + 1] && [used16[k]] + used16[k + 1..] == used16[k..];
    if k == 15 {
      assert used16[..16] == used16 && used16[16..] == [];
    } else {
      UsedGroupsTake(h, used16, k + 1);
      TakesBoth(s, [used16[k]], UsedGroups(h, used16[..k + 1]), used16[k + 1..], OnUsed(h, used16, []));
    }
  }

  /** An unused group is skipped without reading anything. */
  lemma SkipsUnused(h: Header, inUse: UseMap, i: nat)
    requires i < 16 && !GroupUsed(inUse, i)
    ensures OnUsed(h, Used16(inUse), inUse[..16 * i]) == OnUsed(h, Used16(inUse), inUse[..16 * (i + 1)])
  {
    var none := seq(16, _ => false);
    assert inUse[..16 * (i + 1)] == inUse[..16 * i] + none;
  }

  /** One bit of a used group. */
  lemma UsedBitTakes(h: Header, used16: seq<bool>, used: seq<bool>, bit: bool)
    requires ValidHeader(h) && |used16| == 16 && |used| < 256
    ensures Takes(UsedBytes(h, used16, used), [bit], OnUsed(h, used16, used + [bit]))
  {
    hide OnUsed, Takes;
    TakesBit(UsedBytes(h, used16, used), bit);
  }

  /** The bits of a used group. */
  lemma {:induction false} GroupTakes(h: Header, inUse: UseMap, i: nat, m: nat)
    requires ValidHeader(h) && i < 16 && GroupUsed(inUse, i) && 16 * i <= m < 16 * (i + 1)
    ensures OnUsed(h, Used16(inUse), inUse[..m]) == UsedBytes(h, Used16(inUse), inUse[..m])
    ensures Takes(UsedBytes(h, Used16(inUse), inUse[..m]), inUse[m..16 * (i + 1)], OnUsed(h, Used16(inUse), inUse[..16 * (i + 1)]))
    decreases 16 * (i + 1) - m
  {
    hide *;
    var used16 := Used16(inUse);
    assert m / 16 == i;
    NoSkip(h, used16, inUse[..m]);
    UsedBitTakes(h, used16, inUse[..m], inUse[m]);
    assert inUse[..m] + [inUse[m]] == inUse[..m + 1];
    if m + 1 == 16 * (i + 1) {
      assert inUse[m..m + 1] == [inUse[m]];
    } else {
      GroupTakes(h, inUse, i, m + 1);
      var rest := inUse[m + 1..16 * (i + 1)];
      assert inUse[m..16 * (i + 1)] == [inUse[m]] + rest;
      TakesBoth(UsedBytes(h, used16, inUse[..m]), [inUse[m]], UsedBytes(h, used16, inUse[..m + 1]), rest, OnUsed(h, used16, inUse[..16 * (i + 1)]));
    }
  }

  lemma NoSkip(h: Header, used16: seq<bool>, used: seq<bool>)
    requires |used16| == 16 && |used| < 256 && used16[|used| / 16]
    ensures OnUsed(h, used16, used) == UsedBytes(h, used16, used)
  {
  }

  lemma {:induction false} MappingTakes(h: Header, inUse: UseMap, i: nat)
    requires ValidHeader(h) && i <= 16 && Rank(inUse, 256) >= 1
    ensures Takes(OnUsed(h, Used16(inUse), inUse[..16 * i]), MappingFrom(inUse, i), GroupCount(h, inUse))
    decreases 16 - i
  {
    hide GroupUsed, OnUsed, Rank;
    if i == 16 {
      MappingDone(h, inUse);
    } else {
      MappingTakes(h, inUse, i + 1);
      if GroupUsed(inUse, i) {
        GroupTakes(h, inUse, i, 16 * i);
        TakesBoth(OnUsed(h, Used16(inUse), inUse[..16 * i]), inUse[16 * i..16 * (i + 1)],
                  OnUsed(h, Used16(inUse), inUse[..16 * (i + 1)]), MappingFrom(inUse, i + 1), GroupCount(h, inUse));
      } else {
        SkipsUnused(h, inUse, i);
        assert [] + MappingFrom(inUse, i + 1) == MappingFrom(inUse, i + 1);
      }
    }
  }

  lemma MappingDone(h: Header, inUse: UseMap)
    requires ValidHeader(h) && Rank(inUse, 256) >= 1
    ensures Takes(OnUsed(h, Used16(inUse), inUse[..256]), [], GroupCount(h, inUse))
  {
    hide Rank;
    assert inUse[..256] == inUse;
    TakesNothing(GroupCount(h, inUse));
  }

  /** The decoder recovers which bytes are used. */
  lemma MappingBitsTake(h: Header, inUse: UseMap)
    requires ValidHeader(h) && Rank(inUse, 256) >= 1
    ensures Takes(UsedGroups(h, []), MappingBits(inUse), GroupCount(h, inUse))
  {
    hide GroupUsed, OnUsed, Rank, MappingFrom;
    UsedGroupsTake(h, Used16(inUse), 0);
    MappingTakes(h, inUse, 0);
    assert Used16(inUse)[..0] == [] && Used16(inUse)[0..] == Used16(inUse) && inUse[..0] == [];
    TakesBoth(UsedGroups(h, []), Used16(inUse), OnUsed(h, Used16(inUse), []), MappingFrom(inUse, 0), GroupCount(h, inUse));
  }
}
