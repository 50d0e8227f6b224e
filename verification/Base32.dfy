// Base32 without padding, as in section 6 of RFC 4648, over byte arrays; the
// decoder skips characters outside the alphabet and reads both cases.
module Base32 {
  import opened Words
  import opened Bits

  /** The character for a 5-bit value: A to Z, then 2 to 7. */
  function Char(v: nat): (c: byte)
    requires v < 32
  {
    if v < 26 then 65 + v else 50 + v - 26
  }

  /** The value of a character, or -1. */
  function Value(c: byte): (v: int)
    ensures v == -1 || 0 <= v < 32
  {
    if 50 <= c <= 55 then c - 50 + 26
    else if 65 <= c <= 90 then c - 65
    else if 97 <= c <= 122 then c - 97
    else -1
  }

  /** The values of the characters that have one. */
  function Values(s: seq<byte>): (v: seq<nat>)
    ensures forall i :: 0 <= i < |v| ==> v[i] < 32
  {
    if s == [] then []
    else
      var t, x := Values(s[..|s| - 1]), Value(s[|s| - 1]);
      if x == -1 then t else t + [x]
  }

  /** Five bits for every value. */
  ghost function Fives(v: seq<nat>): (b: Bits)
    ensures |b| == 5 * |v|
  {
    if v == [] then [] else Fives(v[..|v| - 1]) + ToBits(v[|v| - 1], 5)
  }

  lemma FivesNext(v: seq<nat>, x: nat)
    ensures Fives(v + [x]) == Fives(v) + ToBits(x, 5)
  {
    assert (v + [x])[..|v|] == v;
  }

  lemma ValuesNext(s: seq<byte>, c: byte)
    ensures Values(s + [c]) == if Value(c) == -1 then Values(s) else Values(s) + [Value(c)]
  {
    assert (s + [c])[..|s|] == s;
  }

  lemma Powers()
    ensures Pow2(1) == 2 && Pow2(2) == 4 && Pow2(3) == 8 && Pow2(4) == 16 && Pow2(5) == 32 && Pow2(8) == 256
  {
    assert Pow2(6) == 64 && Pow2(7) == 128;
  }

  lemma Bit255(j: nat)
    ensures Bit(255, j) == (j < 8)
    ensures Bit(31, j) == (j < 5)
  {
    Powers();
    BitZero(j);
    if j < 8 {
      BitComplement(0, 8, j);
    } else {
      BitHigh(255, 8, j);
    }
    if j < 5 {
      BitComplement(0, 5, j);
    } else {
      BitHigh(31, 5, j);
    }
  }

  lemma BitLow8(x: nat, j: nat)
    ensures Bit(x % 256, j) == (j < 8 && Bit(x, j))
  {
    Powers();
    BitMod(x, 8, j);
  }

  lemma Masks(index: nat)
    requires 4 <= index < 8
    ensures Shr(255, index) == Pow2(8 - index) - 1
  {
    Powers();
    assert 255 / 2 == 127 && 127 / 2 == 63 && 63 / 2 == 31 && 31 / 2 == 15 && 15 / 2 == 7 && 7 / 2 == 3 && 3 / 2 == 1;
    assert Shr(255, 4) == Shr(127, 3) == Shr(63, 2) == Shr(31, 1) == Shr(15, 0) == 15;
    ShrMore(255, 4);
    ShrMore(255, 5);
    ShrMore(255, 6);
  }

  lemma {:induction false} ShrMore(x: nat, k: nat)
    ensures Shr(x, k + 1) == Shr(x, k) / 2
    decreases k
  {
    if k > 0 {
      ShrMore(x / 2, k - 1);
    }
  }

  /** The group of five bits at a position. */
  function Five(p: Bits, at: nat): Bits
    requires at + 5 <= |p|
  {
    p[at..at + 5]
  }

  lemma FiveMore(p: Bits, at: nat)
    requires at + 5 <= |p|
    ensures p[..at] + Five(p, at) == p[..at + 5]
  {
  }

  /** A 5-bit group that spans two bytes. */
  function Spanning(a: byte, b: byte, index: nat): nat
    requires 4 <= index < 8
  {
    Or(Shl(And(a, Shr(255, index)), index - 3) % 256, Shr(b, 11 - index))
  }

  /** A 5-bit group inside a byte. */
  function Inside(a: byte, index: nat): nat
    requires index < 4
  {
    And(Shr(a, 8 - (index + 5)), 0x1F)
  }

  lemma ShiftedSmall(a: byte, index: nat)
    requires 4 <= index < 8
    ensures Shl(And(a, Shr(255, index)), index - 3) < 32
  {
    hide And, Shl, Shr, Pow2;
    Powers();
    Masks(index);
    AndMask(a, 8 - index);
    var w := a % Pow2(8 - index);
    ShlMul(w, index - 3);
    MulMonotone(w, Pow2(8 - index) - 1, Pow2(index - 3), Pow2(index - 3));
  }

  lemma SpanningSmall(a: byte, b: byte, index: nat)
    requires 4 <= index < 8
    ensures Spanning(a, b, index) < 32
  {
    hide And, Shl, Shr, Or, Pow2;
    Powers();
    ShiftedSmall(a, index);
    HighSmall(b, 11 - index);
    OrRange(Shl(And(a, Shr(255, index)), index - 3), Shr(b, 11 - index), 5);
  }

  lemma HighSmall(b: byte, k: nat)
    requires 4 <= k < 8
    ensures Shr(b, k) < 16
  {
    assert Shr(b, 4) == b / 2 / 2 / 2 / 2 by {
      ShrMore(b, 3);
      ShrMore(b, 2);
      ShrMore(b, 1);
      ShrMore(b, 0);
    }
    ShrMore(b, 4);
    ShrMore(b, 5);
    ShrMore(b, 6);
  }

  lemma InsideSmall(a: byte, index: nat)
    requires index < 4
    ensures Inside(a, index) < 32
  {
    Powers();
    BitMask(Shr(a, 3 - index), 5, 0);
  }

  lemma SpanningBits(a: byte, b: byte, index: nat)
    requires 4 <= index < 8
    ensures ToBits(Spanning(a, b, index), 5) == Five(ToBits(a, 8) + ToBits(b, 8), index)
  {
    hide And, Or, Shl, Shr, ToBits, Bit;
    var window := (ToBits(a, 8) + ToBits(b, 8))[index..index + 5];
    ToBitsAll(a, 8);
    ToBitsAll(b, 8);
    forall k | 0 <= k < 5 ensures window[k] == Bit(Spanning(a, b, index), 4 - k) {
      SpanningBit(a, b, index, 4 - k);
      if index + k < 8 {
        assert window[k] == ToBits(a, 8)[index + k];
      } else {
        assert window[k] == ToBits(b, 8)[index + k - 8];
      }
    }
    ToBitsBy(Spanning(a, b, index), 5, window);
  }

  lemma SpanningBit(a: byte, b: byte, index: nat, j: nat)
    requires 4 <= index < 8 && j < 5
    ensures Bit(Spanning(a, b, index), j) == if j >= index - 3 then Bit(a, j - (index - 3)) else Bit(b, j + 11 - index)
  {
    hide And, Or, Shl, Shr, Bit;
    var w := And(a, Shr(255, index));
    BitOr(Shl(w, index - 3) % 256, Shr(b, 11 - index), j);
    BitShr(b, 11 - index, j);
    BitLow8(Shl(w, index - 3), j);
    BitShl(w, index - 3, j);
    ByteHigh(b, j + 11 - index);
    if j >= index - 3 {
      BitAnd(a, Shr(255, index), j - (index - 3));
      BitShr(255, index, j - (index - 3));
      Bit255(j + 3);
    }
  }

  lemma ByteHigh(b: byte, j: nat)
    ensures j >= 8 ==> !Bit(b, j)
  {
    if j >= 8 {
      Powers();
      BitHigh(b, 8, j);
    }
  }

  lemma InsideBits(a: byte, index: nat)
    requires index < 4
    ensures ToBits(Inside(a, index), 5) == Five(ToBits(a, 8), index)
  {
    hide And, Or, Shl, Shr, ToBits, Bit;
    var window := ToBits(a, 8)[index..index + 5];
    ToBitsAll(a, 8);
    forall k | 0 <= k < 5 ensures window[k] == Bit(Inside(a, index), 4 - k) {
      BitAnd(Shr(a, 3 - index), 31, 4 - k);
      BitShr(a, 3 - index, 4 - k);
      Bit255(4 - k);
      assert window[k] == ToBits(a, 8)[index + k];
    }
    ToBitsBy(Inside(a, index), 5, window);
  }

  /** Byte i of the data, in its bits. */
  lemma {:induction false} ByteAt(s: seq<byte>, i: nat)
    requires i < |s|
    ensures BytesToBits(s)[8 * i..8 * i + 8] == ToBits(s[i], 8)
    decreases |s|
  {
    hide ToBits;
    if i < |s| - 1 {
      ByteAt(s[..|s| - 1], i);
    }
  }

  /** The group that begins at bit `index` of byte i, past the middle of the byte. */
  lemma SpanStep(src: seq<byte>, i: nat, next: byte, index: nat)
    requires i < |src| && 4 <= index < 8 && next == (src + [0])[i + 1]
    ensures Spanning(src[i], next, index) < 32
    ensures ToBits(Spanning(src[i], next, index), 5) == Five(BytesToBits(src + [0]), 8 * i + index)
  {
    hide *;
    var padded := src + [0];
    PaddedByte(src, i);
    SpanAt(padded, BytesToBits(padded), i, src[i], next, index);
  }

  lemma PaddedByte(src: seq<byte>, i: nat)
    requires i < |src|
    ensures (src + [0])[i] == src[i]
  {
  }

  lemma SpanAt(padded: seq<byte>, p: Bits, i: nat, a: byte, b: byte, index: nat)
    requires i + 1 < |padded| && 4 <= index < 8 && a == padded[i] && b == padded[i + 1] && p == BytesToBits(padded)
    ensures |p| == 8 * |padded| && Spanning(a, b, index) < 32 && ToBits(Spanning(a, b, index), 5) == Five(p, 8 * i + index)
  {
    hide *;
    ByteAt(padded, i);
    ByteAt(padded, i + 1);
    SpanningSmall(a, b, index);
    SpanningBits(a, b, index);
    assert 8 * (i + 1) == 8 * i + 8;
    Window(p, 8 * i, ToBits(a, 8), ToBits(b, 8), index);
  }

  lemma InsideAt(padded: seq<byte>, p: Bits, i: nat, a: byte, index: nat)
    requires i < |padded| && index < 4 && a == padded[i] && p == BytesToBits(padded)
    ensures |p| == 8 * |padded| && Inside(a, index) < 32 && ToBits(Inside(a, index), 5) == Five(p, 8 * i + index)
  {
    hide *;
    ByteAt(padded, i);
    InsideSmall(a, index);
    InsideBits(a, index);
    WindowOne(p, 8 * i, ToBits(a, 8), index);
  }

  lemma InsideStep(src: seq<byte>, i: nat, index: nat)
    requires i < |src| && index < 4
    ensures Inside(src[i], index) < 32
    ensures ToBits(Inside(src[i], index), 5) == Five(BytesToBits(src + [0]), 8 * i + index)
  {
    hide *;
    var padded := src + [0];
    PaddedByte(src, i);
    InsideAt(padded, BytesToBits(padded), i, src[i], index);
  }

  lemma Window(p: Bits, o: nat, a: Bits, b: Bits, index: nat)
    requires o + 16 <= |p| && index <= 11 && |a| == |b| == 8 && p[o..o + 8] == a && p[o + 8..o + 16] == b
    ensures Five(p, o + index) == Five(a + b, index)
  {
    assert p[o..o + 16] == p[o..o + 8] + p[o + 8..o + 16];
    SliceSlice(p, o, 16, index, index + 5);
  }

  lemma SliceSlice<T>(s: seq<T>, o: nat, n: nat, k: nat, m: nat)
    requires o + n <= |s| && k <= m <= n
    ensures s[o..o + n][k..m] == s[o + k..o + m]
  {
    var a, b := s[o..o + n][k..m], s[o + k..o + m];
    forall j | 0 <= j < |a| ensures a[j] == b[j] {
    }
  }

  lemma WindowOne(p: Bits, o: nat, a: Bits, index: nat)
    requires o + 8 <= |p| && index <= 3 && |a| == 8 && p[o..o + 8] == a
    ensures Five(p, o + index) == Five(a, index)
  {
    SliceSlice(p, o, 8, index, index + 5);
  }

  /** Characters of the alphabet for the bits of src, with less than a group of zeros at the end. */
  ghost predicate Encodes(dst: seq<byte>, src: seq<byte>) {
    && 8 * |src| <= 5 * |dst| < 8 * |src| + 5 && |Values(dst)| == |dst|
    && Fives(Values(dst)) == BytesToBits(src) + Zeros(5 * |dst| - 8 * |src|)
  }

  lemma NowEncodes(dst: seq<byte>, src: seq<byte>)
    requires 8 * |src| <= 5 * |dst| < 8 * |src| + 5 && |Values(dst)| == |dst|
    requires Fives(Values(dst)) == BytesToBits(src) + Zeros(5 * |dst| - 8 * |src|)
    ensures Encodes(dst, src)
  {
  }

  /** The next five bits, from one byte or across two. */
  method NextFive(src: seq<byte>, i0: nat, index0: nat) returns (word: nat, i: nat, index: nat)
    requires i0 < |src| && index0 < 8
    ensures word < 32 && ToBits(word, 5) == Five(BytesToBits(src + [0]), 8 * i0 + index0)
    ensures i <= |src| && index < 8 && 8 * i + index == 8 * i0 + index0 + 5
  {
    hide *;
    i, index := i0, (index0 + 5) % 8;
    if index0 > 3 {
      SpanStep(src, i, (src + [0])[i + 1], index0);
      word := Shl(And(src[i], Shr(0xFF, index0)), index) % 256;
      if i + 1 < |src| {
        word := Or(word, Shr(src[i + 1], 8 - index));
        SpanningIs(src[i], src[i + 1], index0);
      } else {
        OrNothing(word, 8 - index);
        SpanningIs(src[i], 0, index0);
      }
      i := i + 1;
    } else {
      InsideStep(src, i, index0);
      word := And(Shr(src[i], 8 - (index0 + 5)), 0x1F);
      InsideIs(src[i], index0);
      if index == 0 {
        i := i + 1;
      }
    }
  }

  /** Appends the characters for the bits of src, the last group filled with zeros. */
  method ToBase32(src: seq<byte>) returns (dst: seq<byte>)
    ensures Encodes(dst, src)
    ensures 8 * |src| <= 5 * |dst| < 8 * |src| + 5
    ensures forall i :: 0 <= i < |dst| ==>
              5 * i + 5 <= |BytesToBits(src + [0])|
              && dst[i] as char == "ABCDEFGHIJKLMNOPQRSTUVWXYZ234567"[Spelt(BytesToBits(src + [0])[5 * i..5 * i + 5])]
  {
    hide *;
    dst := [];
    var i, index := 0, 0;
    ghost var p := BytesToBits(src + [0]);
    PaddedSize(src);
    NoValues();
    while i < |src|
      invariant 0 <= i <= |src| && 0 <= index < 8 && 5 * |dst| == 8 * i + index && (i == |src| ==> index <= 4)
      invariant |Values(dst)| == |dst| && Fives(Values(dst)) == p[..5 * |dst|]
      invariant forall k :: 0 <= k < |dst| ==> dst[k] as char == "ABCDEFGHIJKLMNOPQRSTUVWXYZ234567"[Spelt(p[5 * k..5 * k + 5])]
      decreases 8 * (|src| - i) - index
    {
      ghost var at := 8 * i + index;
      var word;
      word, i, index := NextFive(src, i, index);
      FiveMore(p, at);
      Emit(dst, word);
      FiveIs(p, at);
      SpeltIs(word);
      CharIs(word);
      dst := dst + [Char(word)];
    }
    PaddedBits(src);
    EndBits(src, 5 * |dst|);
    NowEncodes(dst, src);
  }

  /** The number that five bits spell. */
  ghost function Spelt(b: Bits): (v: nat)
    requires |b| == 5
    ensures v < 32
  {
    Powers();
    FromBits(b)
  }

  lemma SpeltIs(v: nat)
    requires v < 32
    ensures Spelt(ToBits(v, 5)) == v
  {
    hide ToBits, FromBits;
    Powers();
    FromToBits(v, 5);
  }

  lemma FiveIs(p: Bits, at: nat)
    requires at + 5 <= |p|
    ensures Five(p, at) == p[at..at + 5]
  {
  }

  lemma PaddedSize(src: seq<byte>)
    ensures |BytesToBits(src + [0])| == 8 * |src| + 8
  {
  }

  /** The alphabet. */
  lemma CharIs(v: nat)
    requires v < 32
    ensures Char(v) as char == "ABCDEFGHIJKLMNOPQRSTUVWXYZ234567"[v]
  {
  }

  /** Which characters have a value, in both cases, and which value that is: their place in the alphabet. */
  lemma ValueExact(c: byte)
    ensures var upper := (if 'a' <= c as char <= 'z' then c - 32 else c) as char;
            && (Value(c) == -1 <==> upper !in "ABCDEFGHIJKLMNOPQRSTUVWXYZ234567")
            && (Value(c) != -1 ==> "ABCDEFGHIJKLMNOPQRSTUVWXYZ234567"[Value(c)] == upper)
  {
    var upper := if 97 <= c <= 122 then c - 32 else c;
    if Value(c) != -1 {
      CharIs(Value(c));
      assert "ABCDEFGHIJKLMNOPQRSTUVWXYZ234567"[Value(c)] == upper as char;
    } else {
      forall i | 0 <= i < 32 ensures "ABCDEFGHIJKLMNOPQRSTUVWXYZ234567"[i] != upper as char {
        CharIs(i);
      }
    }
  }

  lemma SpanningIs(a: byte, b: byte, index: nat)
    requires 4 <= index < 8
    ensures Spanning(a, b, index) == Or(Shl(And(a, Shr(0xFF, index)), (index + 5) % 8) % 256, Shr(b, 8 - (index + 5) % 8))
  {
  }

  lemma InsideIs(a: byte, index: nat)
    requires index < 4
    ensures Inside(a, index) == And(Shr(a, 8 - (index + 5)), 0x1F)
  {
  }

  lemma EndBits(src: seq<byte>, n: nat)
    requires 8 * |src| <= n < 8 * |src| + 5
    ensures BytesToBits(src + [0])[..n] == BytesToBits(src) + Zeros(n - 8 * |src|)
  {
    hide BytesToBits;
    PaddedBits(src);
  }

  lemma OrNothing(x: nat, k: nat)
    ensures Or(x, Shr(0, k)) == x
  {
    ShrDiv(0, k);
    OrZero(x);
    OrCommutes(x, 0);
  }

  lemma NoValues()
    ensures Values([]) == [] && Fives([]) == []
  {
  }

  lemma Emit(dst: seq<byte>, word: nat)
    requires word < 32
    ensures Values(dst + [Char(word)]) == Values(dst) + [word] && Fives(Values(dst + [Char(word)])) == Fives(Values(dst)) + ToBits(word, 5)
  {
    hide Values, Fives, ToBits;
    ValuesNext(dst, Char(word));
    FivesNext(Values(dst), word);
  }

  lemma PaddedBits(src: seq<byte>)
    ensures BytesToBits(src + [0]) == BytesToBits(src) + Zeros(8)
  {
    BytesToBitsAppend(src, [0]);
    BytesToBitsOne(0);
    ToBitsZero(8);
  }

  // Decoding.

  /** A C string ends at its first zero. */
  function Text(s: seq<byte>): (t: seq<byte>)
    ensures t <= s && 0 !in t && (|t| < |s| ==> s[|t|] == 0)
  {
    if s == [] || s[0] == 0 then [] else [s[0]] + Text(s[1..])
  }

  /** The first n bits, filled with zeros. */
  function Fit(b: Bits, n: nat): (f: Bits)
    ensures |f| == n
  {
    if |b| >= n then b[..n] else b + Zeros(n - |b|)
  }

  /** Low bits of a 5-bit value go behind `index` bits of a byte. */
  lemma PutInside(was: byte, t: Bits, x: nat, index: nat)
    requires index <= 3 && |t| == index && x < 32 && ToBits(was, 8) == t + Zeros(8 - index)
    ensures Or(was, Shl(x, 3 - index)) < 256 && ToBits(Or(was, Shl(x, 3 - index)), 8) == t + ToBits(x, 5) + Zeros(3 - index)
  {
    hide Or, Shl, ToBits, Bit;
    var v, b := Or(was, Shl(x, 3 - index)), t + ToBits(x, 5) + Zeros(3 - index);
    ToBitsAll(was, 8);
    ToBitsAll(x, 5);
    forall k | 0 <= k < 8 ensures b[k] == Bit(v, 7 - k) {
      BitOr(was, Shl(x, 3 - index), 7 - k);
      BitShl(x, 3 - index, 7 - k);
      assert ToBits(was, 8)[k] == Bit(was, 7 - k);
      if k < index {
        FiveHigh(x, 7 - k - (3 - index));
      } else if k < index + 5 {
        assert b[k] == ToBits(x, 5)[k - index] == Bit(x, 4 - (k - index));
      }
    }
    ToBitsBy(v, 8, b);
    ShiftedByte(x, 3 - index);
    ByteOr(was, Shl(x, 3 - index));
  }

  lemma FiveHigh(x: nat, j: nat)
    requires x < 32
    ensures j >= 5 ==> !Bit(x, j)
  {
    Powers();
    if j >= 5 {
      BitHigh(x, 5, j);
    }
  }

  lemma ShiftedByte(x: nat, k: nat)
    requires x < 32 && k <= 3
    ensures Shl(x, k) < 256
  {
    Powers();
    ShlMul(x, k);
    MulMonotone(x, 31, Pow2(k), 8);
  }

  lemma ByteOr(x: nat, y: nat)
    requires x < 256 && y < 256
    ensures Or(x, y) < 256
  {
    Powers();
    OrRange(x, y, 8);
  }

  /** The first bits of a 5-bit value fill a byte. */
  lemma PutHigh(was: byte, t: Bits, x: nat, index: nat)
    requires 4 <= index < 8 && |t| == index && x < 32 && ToBits(was, 8) == t + Zeros(8 - index)
    ensures Or(was, Shr(x, index - 3)) < 256 && ToBits(Or(was, Shr(x, index - 3)), 8) == t + ToBits(x, 5)[..8 - index]
  {
    hide Or, Shr, ToBits, Bit;
    var v, b := Or(was, Shr(x, index - 3)), t + ToBits(x, 5)[..8 - index];
    ToBitsAll(was, 8);
    ToBitsAll(x, 5);
    forall k | 0 <= k < 8 ensures b[k] == Bit(v, 7 - k) {
      BitOr(was, Shr(x, index - 3), 7 - k);
      BitShr(x, index - 3, 7 - k);
      assert ToBits(was, 8)[k] == Bit(was, 7 - k);
      if k < index {
        FiveHigh(x, 7 - k + index - 3);
      } else {
        assert b[k] == ToBits(x, 5)[k - index] == Bit(x, 4 - (k - index));
      }
    }
    ToBitsBy(v, 8, b);
    ShrDiv(x, index - 3);
    ShrSmaller(x, index - 3);
    ByteOr(was, Shr(x, index - 3));
  }

  lemma {:induction false} ShrSmaller(x: nat, k: nat)
    ensures Shr(x, k) <= x
    decreases k
  {
    if k > 0 {
      ShrSmaller(x / 2, k - 1);
    }
  }

  /** Its other bits begin the next byte. */
  lemma PutNext(x: nat, r: nat)
    requires 1 <= r <= 4 && x < 32
    ensures ToBits(Or(0, Shl(x, 8 - r) % 256), 8) == ToBits(x, 5)[5 - r..] + Zeros(8 - r)
    ensures Or(0, Shl(x, 8 - r) % 256) < 256
  {
    hide Or, Shl, ToBits, Bit;
    var v, b := Or(0, Shl(x, 8 - r) % 256), ToBits(x, 5)[5 - r..] + Zeros(8 - r);
    ToBitsAll(x, 5);
    forall k | 0 <= k < 8 ensures b[k] == Bit(v, 7 - k) {
      BitOr(0, Shl(x, 8 - r) % 256, 7 - k);
      BitZero(7 - k);
      BitLow8(Shl(x, 8 - r), 7 - k);
      BitShl(x, 8 - r, 7 - k);
      if k < r {
        assert b[k] == ToBits(x, 5)[5 - r + k] == Bit(x, r - 1 - k);
      }
    }
    ToBitsBy(v, 8, b);
    ByteOr(0, Shl(x, 8 - r) % 256);
  }

  /** The bits b stand at the front of d, and nothing but zeros behind them; byte `offset` is not full. */
  ghost predicate Partial(d: seq<byte>, offset: nat, b: Bits) {
    && offset < |d| && 8 * offset <= |b| < 8 * offset + 8
    && BytesToBits(d[..offset]) == b[..8 * offset]
    && ToBits(d[offset], 8) == b[8 * offset..] + Zeros(8 * offset + 8 - |b|)
    && forall k {:trigger d[k]} :: offset < k < |d| ==> d[k] == 0
  }

  /** All bytes of d are filled from b. */
  ghost predicate Full(d: seq<byte>, b: Bits) {
    |b| >= 8 * |d| && BytesToBits(d) == b[..8 * |d|]
  }

  lemma {:induction false} ZeroBytes(d: seq<byte>)
    requires forall k {:trigger d[k]} :: 0 <= k < |d| ==> d[k] == 0
    ensures BytesToBits(d) == Zeros(8 * |d|)
    decreases |d|
  {
    if d != [] {
      ZeroBytes(d[..|d| - 1]);
      ToBitsZero(8);
    }
  }

  lemma PartialFits(d: seq<byte>, offset: nat, b: Bits)
    requires Partial(d, offset, b)
    ensures BytesToBits(d) == Fit(b, 8 * |d|)
  {
    hide BytesToBits, ToBits, Fit;
    var front, rest := d[..offset], d[offset + 1..];
    forall k | 0 <= k < |rest| ensures rest[k] == 0 {
      assert rest[k] == d[offset + 1 + k];
    }
    ZeroBytes(rest);
    BytesToBitsOne(d[offset]);
    SplitAt(d, offset);
    BytesToBitsAppend(front + [d[offset]], rest);
    BytesToBitsAppend(front, [d[offset]]);
    FitParts(b, 8 * offset, 8 * |rest|);
  }

  lemma SplitAt(d: seq<byte>, k: nat)
    requires k < |d|
    ensures d == d[..k] + [d[k]] + d[k + 1..]
  {
  }

  lemma FitParts(b: Bits, k: nat, n: nat)
    requires k <= |b| < k + 8
    ensures b[..k] + (b[k..] + Zeros(k + 8 - |b|)) + Zeros(n) == Fit(b, k + 8 + n)
  {
  }

  lemma FullFits(d: seq<byte>, b: Bits, more: Bits)
    requires Full(d, b)
    ensures BytesToBits(d) == Fit(b + more, 8 * |d|)
  {
  }

  /** A value goes into the byte that is being filled. */
  lemma StepInside(d: seq<byte>, offset: nat, b: Bits, x: nat, index: nat)
    requires Partial(d, offset, b) && |b| == 8 * offset + index && index <= 3 && x < 32
    ensures Or(d[offset], Shl(x, 3 - index)) < 256
    ensures var after := d[offset := Or(d[offset], Shl(x, 3 - index))]; var more := b + ToBits(x, 5);
            if index < 3 then Partial(after, offset, more)
            else if offset + 1 < |d| then Partial(after, offset + 1, more)
            else Full(after, more)
  {
    hide Or, Shl, ToBits, BytesToBits;
    PutInside(d[offset], b[8 * offset..], x, index);
    var v := Or(d[offset], Shl(x, 3 - index));
    var after, more := d[offset := v], b + ToBits(x, 5);
    assert after[..offset] == d[..offset] && more[..8 * offset] == b[..8 * offset];
    assert more[8 * offset..] == b[8 * offset..] + ToBits(x, 5);
    if index == 3 {
      Filled(d, offset, b, v, more);
    }
  }

  /** The byte at offset is complete. */
  lemma Filled(d: seq<byte>, offset: nat, b: Bits, v: byte, more: Bits)
    requires Partial(d, offset, b) && 8 * offset + 8 <= |more| && more[..8 * offset] == b[..8 * offset]
    requires ToBits(v, 8) == more[8 * offset..8 * offset + 8]
    ensures BytesToBits(d[offset := v][..offset + 1]) == more[..8 * (offset + 1)]
    ensures offset + 1 == |d| ==> Full(d[offset := v], more)
    ensures |more| == 8 * offset + 8 && offset + 1 < |d| ==> Partial(d[offset := v], offset + 1, more)
  {
    hide ToBits, BytesToBits;
    var after := d[offset := v];
    assert after[..offset + 1] == d[..offset] + [v];
    BytesToBitsAppend(d[..offset], [v]);
    BytesToBitsOne(v);
    assert more[..8 * (offset + 1)] == more[..8 * offset] + more[8 * offset..8 * offset + 8];
    if offset + 1 == |d| {
      assert after[..offset + 1] == after;
    } else {
      assert after[offset + 1] == d[offset + 1] == 0;
      ToBitsZero(8);
    }
  }

  /** A value fills a byte and begins the next, if there is one. */
  lemma StepSpan(d: seq<byte>, offset: nat, b: Bits, x: nat, index: nat)
    requires Partial(d, offset, b) && |b| == 8 * offset + index && 4 <= index < 8 && x < 32
    ensures Or(d[offset], Shr(x, index - 3)) < 256
    ensures var full := d[offset := Or(d[offset], Shr(x, index - 3))]; var more := b + ToBits(x, 5);
            if offset + 1 == |d| then Full(full, more)
            else
              && full[offset + 1] == 0 && Or(0, Shl(x, 8 - (index - 3)) % 256) < 256
              && Partial(full[offset + 1 := Or(0, Shl(x, 8 - (index - 3)) % 256)], offset + 1, more)
  {
    hide Or, Shl, Shr, ToBits, BytesToBits;
    PutHigh(d[offset], b[8 * offset..], x, index);
    PutNext(x, index - 3);
    var v, w := Or(d[offset], Shr(x, index - 3)), Or(0, Shl(x, 8 - (index - 3)) % 256);
    var full, more := d[offset := v], b + ToBits(x, 5);
    assert more[..8 * offset] == b[..8 * offset];
    assert more[8 * offset..8 * offset + 8] == b[8 * offset..] + ToBits(x, 5)[..8 - index];
    Filled(d, offset, b, v, more);
    if offset + 1 < |d| {
      var after := full[offset + 1 := w];
      assert full[offset + 1] == d[offset + 1] == 0;
      assert after[..offset + 1] == full[..offset + 1];
      assert more[8 * (offset + 1)..] == ToBits(x, 5)[8 - index..];
    }
  }

  /** The bits of all recognised characters, cut to the size of the result or filled with zeros. */
  ghost predicate Decodes(d: seq<byte>, src: seq<byte>) {
    BytesToBits(d) == Fit(Fives(Values(Text(src))), 8 * |d|)
  }

  /** Puts five bits behind those that are stored already. */
  method StoreValue(dst: array<byte>, tmp: int, index0: nat, offset0: nat, ghost b: Bits) returns (index: nat, offset: nat)
    requires Partial(dst[..], offset0, b) && offset0 < dst.Length && |b| == 8 * offset0 + index0 && index0 < 8 && 0 <= tmp < 32
    modifies dst
    ensures offset <= dst.Length && index < 8 && 8 * offset + index == |b| + 5
    ensures if offset == dst.Length then Full(dst[..], b + ToBits(tmp, 5)) else Partial(dst[..], offset, b + ToBits(tmp, 5))
  {
    hide *;
    offset := offset0;
    ghost var d := dst[..];
    if index0 <= 3 {
      StepInside(d, offset, b, tmp, index0);
      index := (index0 + 5) % 8;
      if index == 0 {
        ShlNone(tmp);
        dst[offset] := Or(dst[offset], tmp);
        assert dst[..] == d[offset := dst[offset]];
        offset := offset + 1;
      } else {
        dst[offset] := Or(dst[offset], Shl(tmp, 8 - index));
        assert dst[..] == d[offset := dst[offset]];
      }
    } else {
      StepSpan(d, offset, b, tmp, index0);
      index := (index0 + 5) % 8;
      dst[offset] := Or(dst[offset], Shr(tmp, index));
      ghost var full := dst[..];
      assert full == d[offset := full[offset]];
      offset := offset + 1;
      if offset == dst.Length {
        return;
      }
      dst[offset] := Or(dst[offset], Shl(tmp, 8 - index) % 256);
      assert dst[..] == full[offset := dst[offset]];
    }
  }

  /** Reads characters up to the end of the text or until dst is full. */
  method FromBase32(src: seq<byte>, dst: array<byte>)
    requires dst.Length > 0 || Values(Text(src)) == []
    modifies dst
    ensures Decodes(dst[..], src)
  {
    hide *;
    var len := dst.Length;
    for k := 0 to len
      invariant forall j {:trigger dst[j]} :: 0 <= j < k ==> dst[j] == 0
    {
      dst[k] := 0;
    }
    var i, index, offset := 0, 0, 0;
    ghost var text := Text(src);
    ghost var b: Bits := [];
    StartPartial(dst[..]);
    assert text[..0] == [];
    while i < |src| && src[i] != 0
      invariant 0 <= i <= |text| && b == Fives(Values(text[..i]))
      invariant 8 * offset + index == |b| && 0 <= index < 8
      invariant if len == 0 then b == [] else Partial(dst[..], offset, b)
      decreases |src| - i
    {
      TextAt(src, i);
      NextChar(text, i);
      var tmp := Value(src[i]);
      i := i + 1;
      if tmp == -1 {
        continue;
      }
      NotEmptyText(text, i, len);
      PartialFacts(dst[..], offset, b);
      index, offset := StoreValue(dst, tmp, index, offset, b);
      b := b + ToBits(tmp, 5);
      if offset == len {
        FullEnd(dst[..], text, i, src);
        return;
      }
    }
    TextEnd(src, i);
    assert text[..i] == text;
    if len > 0 {
      PartialFits(dst[..], offset, b);
    }
    NowDecodes(dst[..], src);
  }

  lemma ShlNone(x: nat)
    ensures Shl(x, 0) == x
  {
  }

  lemma StartPartial(d: seq<byte>)
    requires forall j {:trigger d[j]} :: 0 <= j < |d| ==> d[j] == 0
    ensures Fives(Values([])) == []
    ensures |d| > 0 ==> Partial(d, 0, [])
    ensures |d| == 0 ==> BytesToBits(d) == []
  {
    NoValues();
    if |d| > 0 {
      ToBitsZero(8);
      assert d[..0] == [];
    }
  }

  lemma {:induction false} TextAt(src: seq<byte>, i: nat)
    requires i < |src| && i <= |Text(src)| && src[i] != 0
    ensures i < |Text(src)| && Text(src)[i] == src[i] && -1 <= Value(src[i]) < 32
  {
  }

  lemma TextEnd(src: seq<byte>, i: nat)
    requires i <= |Text(src)| && (i == |src| || (i < |src| && src[i] == 0))
    ensures i == |Text(src)|
  {
    var t := Text(src);
    assert forall j {:trigger t[j]} :: 0 <= j < |t| ==> t[j] != 0 && t[j] == src[j];
  }

  lemma NextChar(text: seq<byte>, i: nat)
    requires i < |text|
    ensures Fives(Values(text[..i + 1])) ==
            if Value(text[i]) == -1 then Fives(Values(text[..i])) else Fives(Values(text[..i])) + ToBits(Value(text[i]), 5)
    ensures Value(text[i]) < 32 && Value(text[i]) >= -1
  {
    assert text[..i + 1] == text[..i] + [text[i]];
    ValuesNext(text[..i], text[i]);
    if Value(text[i]) != -1 {
      FivesNext(Values(text[..i]), Value(text[i]));
    }
  }

  lemma {:induction false} ValuesAppend(a: seq<byte>, c: seq<byte>)
    ensures Values(a + c) == Values(a) + Values(c)
    decreases |c|
  {
    if c == [] {
      assert a + c == a;
    } else {
      var k := |c| - 1;
      assert a + c == a + c[..k] + [c[k]];
      ValuesNext(a + c[..k], c[k]);
      ValuesAppend(a, c[..k]);
    }
  }

  lemma {:induction false} FivesAppend(a: seq<nat>, c: seq<nat>)
    ensures Fives(a + c) == Fives(a) + Fives(c)
    decreases |c|
  {
    hide ToBits;
    if c == [] {
      assert a + c == a;
    } else {
      var k := |c| - 1;
      assert a + c == a + c[..k] + [c[k]];
      FivesNext(a + c[..k], c[k]);
      FivesAppend(a, c[..k]);
      ConcatAssoc(Fives(a), Fives(c[..k]), ToBits(c[k], 5));
    }
  }

  lemma NotEmptyText(text: seq<byte>, i: nat, len: nat)
    requires 0 < i <= |text| && Value(text[i - 1]) != -1 && (len > 0 || Values(text) == [])
    ensures len > 0
  {
    assert text == text[..i] + text[i..] && text[..i] == text[..i - 1] + [text[i - 1]];
    ValuesAppend(text[..i], text[i..]);
    ValuesNext(text[..i - 1], text[i - 1]);
  }

  lemma PartialFacts(d: seq<byte>, offset: nat, b: Bits)
    requires Partial(d, offset, b)
    ensures offset < |d|
  {
  }

  lemma FullEnd(d: seq<byte>, text: seq<byte>, i: nat, src: seq<byte>)
    requires text == Text(src) && i <= |text| && Full(d, Fives(Values(text[..i])))
    ensures Decodes(d, src)
  {
    hide BytesToBits, Fives, Values, Text, Full, Fit;
    assert text == text[..i] + text[i..];
    ValuesAppend(text[..i], text[i..]);
    FivesAppend(Values(text[..i]), Values(text[i..]));
    FullFits(d, Fives(Values(text[..i])), Fives(Values(text[i..])));
  }

  lemma NowDecodes(d: seq<byte>, src: seq<byte>)
    requires BytesToBits(d) == Fit(Fives(Values(Text(src))), 8 * |d|)
    ensures Decodes(d, src)
  {
  }

  // The text in either case.

  /** The same letters, in whatever case. */
  predicate SameLetters(a: seq<byte>, b: seq<byte>) {
    |a| == |b| && forall i :: 0 <= i < |a| ==>
      (if 'a' <= a[i] as char <= 'z' then a[i] - 32 else a[i]) == (if 'a' <= b[i] as char <= 'z' then b[i] - 32 else b[i])
  }

  lemma {:induction false} SameValues(a: seq<byte>, b: seq<byte>)
    requires SameLetters(a, b)
    ensures Values(a) == Values(b)
    decreases |a|
  {
    if a != [] {
      var n := |a| - 1;
      SameValues(a[..n], b[..n]);
      assert Value(a[n]) == Value(b[n]);
    }
  }

  lemma {:induction false} SameText(a: seq<byte>, b: seq<byte>)
    requires SameLetters(a, b)
    ensures SameLetters(Text(a), Text(b))
    decreases |a|
  {
    if a != [] && a[0] != 0 {
      SameText(a[1..], b[1..]);
    }
  }

  /** Text in either case decodes to the same bytes. */
  lemma EitherCase(a: seq<byte>, b: seq<byte>, d: seq<byte>, e: seq<byte>)
    requires SameLetters(a, b) && Decodes(d, a) && Decodes(e, b) && |d| == |e|
    ensures d == e
  {
    hide SameLetters, BytesToBits, Fives, Values, Text, Fit;
    SameText(a, b);
    SameValues(Text(a), Text(b));
    BytesDetermined(d, e);
  }

  lemma {:induction false} FivesAt(v: seq<nat>, i: nat)
    requires i < |v|
    ensures Fives(v)[5 * i..5 * i + 5] == ToBits(v[i], 5)
    decreases |v|
  {
    hide ToBits;
    if i < |v| - 1 {
      FivesAt(v[..|v| - 1], i);
    }
  }

  lemma {:induction false} ValuesAll(s: seq<byte>)
    requires forall i :: 0 <= i < |s| ==> Value(s[i]) != -1
    ensures |Values(s)| == |s| && forall i :: 0 <= i < |s| ==> Values(s)[i] == Value(s[i])
    decreases |s|
  {
    if s != [] {
      ValuesAll(s[..|s| - 1]);
    }
  }

  /**
   * Text of the alphabet, in either case: every character whose five bits fit into the result is found there by its
   * place in the alphabet.
   */
  lemma DecodedAt(d: seq<byte>, src: seq<byte>, i: nat)
    requires Decodes(d, src) && i < |src| && 5 * i + 5 <= 8 * |d|
    requires forall k :: 0 <= k < |src| ==> (if 'a' <= src[k] as char <= 'z' then src[k] - 32 else src[k]) as char in "ABCDEFGHIJKLMNOPQRSTUVWXYZ234567"
    ensures "ABCDEFGHIJKLMNOPQRSTUVWXYZ234567"[Spelt(BytesToBits(d)[5 * i..5 * i + 5])]
         == (if 'a' <= src[i] as char <= 'z' then src[i] - 32 else src[i]) as char
  {
    hide *;
    AllRecognised(src);
    TextAll(src);
    ValuesAll(src);
    var v := Values(src);
    FivesAt(v, i);
    FitAt(Fives(v), 8 * |d|, i);
    DecodesIs(d, src);
    SpeltIs(v[i]);
    ValueExact(src[i]);
  }

  lemma DecodesIs(d: seq<byte>, src: seq<byte>)
    requires Decodes(d, src)
    ensures BytesToBits(d) == Fit(Fives(Values(Text(src))), 8 * |d|)
  {
  }

  lemma AllRecognised(src: seq<byte>)
    requires forall k :: 0 <= k < |src| ==> (if 'a' <= src[k] as char <= 'z' then src[k] - 32 else src[k]) as char in "ABCDEFGHIJKLMNOPQRSTUVWXYZ234567"
    ensures 0 !in src && forall k :: 0 <= k < |src| ==> Value(src[k]) != -1
  {
    hide Value;
    forall k | 0 <= k < |src| ensures Value(src[k]) != -1 && src[k] != 0 {
      ValueExact(src[k]);
      NoNul(src[k]);
    }
  }

  lemma NoNul(c: byte)
    ensures Value(c) != -1 ==> c != 0
  {
  }

  lemma FitAt(b: Bits, n: nat, i: nat)
    requires 5 * i + 5 <= n && 5 * i + 5 <= |b|
    ensures Fit(b, n)[5 * i..5 * i + 5] == b[5 * i..5 * i + 5]
  {
  }

  // Round trip.

  /** The characters of s that stand for something. */
  function Recognised(s: seq<byte>): seq<byte> {
    if s == [] then []
    else Recognised(s[..|s| - 1]) + if Value(s[|s| - 1]) == -1 then [] else [s[|s| - 1]]
  }

  lemma {:induction false} ValuesRecognised(s: seq<byte>)
    ensures Values(Recognised(s)) == Values(s)
    decreases |s|
  {
    if s != [] {
      var t, c := s[..|s| - 1], s[|s| - 1];
      ValuesRecognised(t);
      if Value(c) == -1 {
        assert Recognised(t) + [] == Recognised(t);
      } else {
        ValuesNext(Recognised(t), c);
      }
    }
  }

  /** Without a zero, the whole string is text. */
  lemma {:induction false} TextAll(s: seq<byte>)
    requires 0 !in s
    ensures Text(s) == s
    decreases |s|
  {
    if s != [] {
      TextAll(s[1..]);
    }
  }

  lemma LastBits(a: seq<byte>)
    ensures |BytesToBits(a)| == 8 * |a|
    ensures a != [] ==> var k := |a| - 1; BytesToBits(a)[..8 * k] == BytesToBits(a[..k]) && FromBits(BytesToBits(a)[8 * k..]) == a[k] as int
  {
    if a != [] {
      hide ToBits;
      var k := |a| - 1;
      Powers();
      FromToBits(a[k], 8);
    }
  }

  lemma {:induction false} BytesDetermined(a: seq<byte>, c: seq<byte>)
    requires BytesToBits(a) == BytesToBits(c)
    ensures a == c
    decreases |a|
  {
    if a != [] {
      hide BytesToBits, ToBits;
      LastBits(a);
      LastBits(c);
      var k := |a| - 1;
      BytesDetermined(a[..k], c[..k]);
      assert a == a[..k] + [a[k]] && c == c[..k] + [c[k]];
    }
  }

  /** Decoding what was encoded gives back the bytes, even with foreign characters in between. */
  lemma RoundTrip(src: seq<byte>, enc: seq<byte>, noisy: seq<byte>, d: seq<byte>)
    requires Encodes(enc, src) && 0 !in noisy && Recognised(noisy) == Recognised(enc)
    requires Decodes(d, noisy) && |d| == |src|
    ensures d == src
  {
    hide BytesToBits, Fives, Values, Recognised;
    TextAll(noisy);
    ValuesRecognised(noisy);
    ValuesRecognised(enc);
    assert BytesToBits(d) == BytesToBits(src);
    BytesDetermined(d, src);
  }

  /** An encoded string is all alphabet and has no zero, so that it is its own text. */
  lemma {:induction false} EncodedClean(enc: seq<byte>)
    requires |Values(enc)| == |enc|
    ensures 0 !in enc && Recognised(enc) == enc
    decreases |enc|
  {
    if enc != [] {
      var t := enc[..|enc| - 1];
      ValuesAtMost(t);
      EncodedClean(t);
      assert enc == t + [enc[|enc| - 1]];
    }
  }

  lemma {:induction false} ValuesAtMost(s: seq<byte>)
    ensures |Values(s)| <= |s|
    decreases |s|
  {
    if s != [] {
      ValuesAtMost(s[..|s| - 1]);
    }
  }
}
