// Block checksums. The 256 constants of the table are a parameter.
module Crc {
  import opened Words
  import opened Bits

  type CrcTable = t: seq<u32> | |t| == 256 witness seq(256, _ => 0)

  function Xor(x: nat, y: nat): nat {
    if x == 0 && y == 0 then 0
    else (if x % 2 != y % 2 then 1 else 0) + 2 * Xor(x / 2, y / 2)
  }

  lemma {:induction false} XorRange(x: nat, y: nat, n: nat)
    requires x < Pow2(n) && y < Pow2(n)
    ensures Xor(x, y) < Pow2(n)
    decreases n
  {
    if n > 0 {
      XorRange(x / 2, y / 2, n - 1);
    }
  }

  lemma TopByteIndex(crc: u32, c: byte)
    ensures Xor(Shr(crc, 24), c) < 256
  {
    hide Xor;
    Pow2Of32();
    ShrDiv(crc, 24);
    XorRange(Shr(crc, 24), c, 8);
  }

  /** One byte. */
  function Update(table: CrcTable, crc: u32, c: byte): (r: u32) {
    TopByteIndex(crc, c);
    var x := table[Xor(Shr(crc, 24), c)];
    Pow2Of32();
    XorRange(Shl32(crc, 8), x, 32);
    Xor(Shl32(crc, 8), x)
  }

  /** The running checksum after a sequence of bytes. */
  ghost function Fold(table: CrcTable, crc: u32, s: seq<byte>): (r: u32) {
    if s == [] then crc else Update(table, Fold(table, crc, s[..|s| - 1]), s[|s| - 1])
  }

  lemma {:induction false} FoldAppend(table: CrcTable, crc: u32, s: seq<byte>, t: seq<byte>)
    ensures Fold(table, crc, s + t) == Fold(table, Fold(table, crc, s), t)
    decreases |t|
  {
    hide Update;
    if t == [] {
      assert s + t == s;
    } else {
      var k := |t| - 1;
      assert (s + t)[..|s + t| - 1] == s + t[..k];
      FoldAppend(table, crc, s, t[..k]);
    }
  }

  /** The checksum stored with a block. */
  ghost function BlockCrcOf(table: CrcTable, s: seq<byte>): (r: u32) {
    Not32(Fold(table, ALL_ONES, s))
  }

  /** Adds a block's checksum to that of the stream. */
  function Combine(combined: u32, crc: u32): (r: u32) {
    Pow2Of32();
    RotateRange(combined);
    XorRange(Or(Shl32(combined, 1), Shr(combined, 31)), crc, 32);
    Xor(Or(Shl32(combined, 1), Shr(combined, 31)), crc)
  }

  lemma RotateRange(x: u32)
    ensures Or(Shl32(x, 1), Shr(x, 31)) < Pow2(32)
  {
    hide Or, Shl32, Shr;
    Pow2Of32();
    ShrSmall(x);
    OrRange(Shl32(x, 1), Shr(x, 31), 32);
  }

  lemma ShrSmall(x: u32)
    ensures Shr(x, 31) < WORD
  {
    ShrDiv(x, 31);
  }

  // What the checksums are, bit by bit, the most significant bit first.

  lemma {:induction false} BitXor(x: nat, y: nat, i: nat)
    ensures Bit(Xor(x, y), i) == (Bit(x, i) != Bit(y, i))
    decreases i
  {
    if x == 0 && y == 0 {
      BitZero(i);
    } else {
      assert Xor(x, y) / 2 == Xor(x / 2, y / 2);
      if i > 0 {
        BitXor(x / 2, y / 2, i - 1);
      }
    }
  }

  /** The stream's checksum is turned left by one bit, and the block's is added without carry. */
  lemma CombineBits(combined: u32, crc: u32, k: nat)
    requires k < 32
    ensures ToBits(Combine(combined, crc), 32)[k] == (ToBits(combined, 32)[(k + 1) % 32] != ToBits(crc, 32)[k])
  {
    hide ToBits, Xor, Or, Shl32, Shr, Bit;
    var i, turned := 31 - k, Or(Shl32(combined, 1), Shr(combined, 31));
    ToBitsIndex(Combine(combined, crc), 32, k);
    ToBitsIndex(combined, 32, (k + 1) % 32);
    ToBitsIndex(crc, 32, k);
    BitXor(turned, crc, i);
    BitOr(Shl32(combined, 1), Shr(combined, 31), i);
    BitShl32(combined, 1, i);
    BitShr(combined, 31, i);
    Pow2Of32();
    if k < 31 {
      BitHigh(combined, 32, i + 31);
    }
  }

  /** The stream's checksum after the first block is that block's. */
  lemma CombineFirst(crc: u32)
    ensures Combine(0, crc) == crc
  {
    hide Combine;
    forall k | 0 <= k < 32 ensures ToBits(Combine(0, crc), 32)[k] == ToBits(crc, 32)[k] {
      CombineBits(0, crc, k);
      ToBitsZero(32);
    }
    SameBits(Combine(0, crc), crc);
  }

  lemma SameBits(x: u32, y: u32)
    requires forall k :: 0 <= k < 32 ==> ToBits(x, 32)[k] == ToBits(y, 32)[k]
    ensures x == y
  {
    hide ToBits, FromBits;
    Pow2Of32();
    FromToBits(x, 32);
    FromToBits(y, 32);
    assert ToBits(x, 32) == ToBits(y, 32);
  }

  /**
   * One byte turns the register `before` into `after`: the register moves up by eight bits, and the entry of the table
   * whose index is the byte moved out, with the new byte added without carry, is added to it without carry.
   */
  ghost predicate Follows(table: CrcTable, before: u32, c: byte, after: u32) {
    exists i: byte :: FollowsBy(table[i], i, before, c, after)
  }

  ghost predicate FollowsBy(entry: u32, i: byte, before: u32, c: byte, after: u32) {
    && (forall j :: 0 <= j < 8 ==> ToBits(i, 8)[j] == (ToBits(before, 32)[j] != ToBits(c, 8)[j]))
    && (forall k :: 0 <= k < 32 ==> ToBits(after, 32)[k] == ((k < 24 && ToBits(before, 32)[k + 8]) != ToBits(entry, 32)[k]))
  }

  lemma IndexBits(crc: u32, c: byte, j: nat)
    requires j < 8
    ensures Xor(Shr(crc, 24), c) < 256
    ensures ToBits(Xor(Shr(crc, 24), c), 8)[j] == (ToBits(crc, 32)[j] != ToBits(c, 8)[j])
  {
    hide ToBits, Xor, Shr, Bit;
    TopByteIndex(crc, c);
    ToBitsIndex(Xor(Shr(crc, 24), c), 8, j);
    ToBitsIndex(crc, 32, j);
    ToBitsIndex(c, 8, j);
    BitXor(Shr(crc, 24), c, 7 - j);
    BitShr(crc, 24, 7 - j);
  }

  lemma MovedBits(crc: u32, x: u32, k: nat)
    requires k < 32
    ensures ToBits(Xor(Shl32(crc, 8), x), 32)[k] == ((k < 24 && ToBits(crc, 32)[k + 8]) != ToBits(x, 32)[k])
  {
    hide ToBits, Xor, Shl32, Bit;
    ToBitsIndex(Xor(Shl32(crc, 8), x), 32, k);
    ToBitsIndex(x, 32, k);
    BitXor(Shl32(crc, 8), x, 31 - k);
    BitShl32(crc, 8, 31 - k);
    if k < 24 {
      ToBitsIndex(crc, 32, k + 8);
    }
  }

  lemma UpdateFollows(table: CrcTable, crc: u32, c: byte)
    ensures Follows(table, crc, c, Update(table, crc, c))
  {
    hide ToBits, Xor, Shl32, Shr;
    TopByteIndex(crc, c);
    var i: byte := Xor(Shr(crc, 24), c);
    forall j | 0 <= j < 8 ensures ToBits(i, 8)[j] == (ToBits(crc, 32)[j] != ToBits(c, 8)[j]) {
      IndexBits(crc, c, j);
    }
    forall k | 0 <= k < 32
      ensures ToBits(Update(table, crc, c), 32)[k] == ((k < 24 && ToBits(crc, 32)[k + 8]) != ToBits(table[i], 32)[k])
    {
      MovedBits(crc, table[i], k);
    }
    assert FollowsBy(table[i], i, crc, c, Update(table, crc, c));
  }

  /** What follows is unique. */
  lemma FollowsOnce(table: CrcTable, before: u32, c: byte, a: u32, b: u32)
    requires Follows(table, before, c, a) && Follows(table, before, c, b)
    ensures a == b
  {
    hide ToBits;
    var i: byte :| FollowsBy(table[i], i, before, c, a);
    var i2: byte :| FollowsBy(table[i2], i2, before, c, b);
    assert ToBits(i, 8) == ToBits(i2, 8);
    Pow2Of32();
    FromToBits(i, 8);
    FromToBits(i2, 8);
    SameBits(a, b);
  }

  /**
   * The checksum of a block, for any table: from a register of ones on, byte after byte, and the complement of the
   * last register.
   */
  lemma {:induction false} ChecksumBits(table: CrcTable, s: seq<byte>, registers: seq<u32>)
    requires |registers| == |s| + 1 && registers[0] == 0xffff_ffff
    requires forall n {:trigger s[n]} :: 0 <= n < |s| ==> Follows(table, registers[n], s[n], registers[n + 1])
    ensures Fold(table, 0xffff_ffff, s) == registers[|s|]
    ensures forall k :: 0 <= k < 32 ==> ToBits(BlockCrcOf(table, s), 32)[k] != ToBits(registers[|s|], 32)[k]
    decreases |s|
  {
    hide ToBits, Follows, Update;
    if s != [] {
      var n := |s| - 1;
      ChecksumBits(table, s[..n], registers[..n + 1]);
      assert s[n] == s[n];
      UpdateFollows(table, registers[n], s[n]);
      FollowsOnce(table, registers[n], s[n], registers[n + 1], Update(table, registers[n], s[n]));
    }
    forall k | 0 <= k < 32 ensures ToBits(Not32(registers[|s|]), 32)[k] != ToBits(registers[|s|], 32)[k] {
      NotBits(registers[|s|], k);
    }
  }

  lemma NotBits(x: u32, k: nat)
    requires k < 32
    ensures ToBits(Not32(x), 32)[k] != ToBits(x, 32)[k]
  {
    hide ToBits, Bit;
    ToBitsIndex(Not32(x), 32, k);
    ToBitsIndex(x, 32, k);
    Pow2Of32();
    BitComplement(x, 32, 31 - k);
  }
}
