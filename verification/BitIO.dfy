// The bit buffers: the compressor's writer, which fills a 32-bit word from
// the top, and the decompressor's reader, which shifts bytes in at the bottom
// and can be suspended whenever its input runs out.
module BitIO {
  import opened Words
  import opened Bits

  /** The buffer holds the bits w at its top and zeros below. */
  ghost predicate Holds(buff: u32, w: Bits) {
    |w| <= 32 && ToBits(buff, 32) == w + Zeros(32 - |w|)
  }

  lemma HoldsBit(buff: u32, w: Bits, i: nat)
    requires Holds(buff, w) && i < 32
    ensures Bit(buff, 31 - i) == (i < |w| && w[i])
  {
    ToBitsIndex(buff, 32, i);
  }

  /** Removing the top byte. */
  lemma TopByte(buff: u32, w: Bits)
    requires Holds(buff, w) && |w| >= 8
    ensures Shr(buff, 24) < 256 && ToBits(Shr(buff, 24), 8) == w[..8]
    ensures Holds(Shl32(buff, 8), w[8..])
  {
    hide Holds, Shr, Shl32, Bit, ToBits;
    TopByteRange(buff);
    forall i | 0 <= i < 8 ensures w[..8][i] == Bit(Shr(buff, 24), 7 - i) {
      BitShr(buff, 24, 7 - i);
      HoldsBit(buff, w, i);
    }
    ToBitsBy(Shr(buff, 24), 8, w[..8]);
    ShiftByte(buff, w);
  }

  lemma TopByteRange(buff: u32)
    ensures Shr(buff, 24) < 256
  {
    Pow2Of32();
    ShrDiv(buff, 24);
  }

  lemma ShiftByte(buff: u32, w: Bits)
    requires Holds(buff, w) && |w| >= 8
    ensures Holds(Shl32(buff, 8), w[8..])
  {
    var b := w[8..] + Zeros(32 - (|w| - 8));
    forall i | 0 <= i < 32 ensures b[i] == Bit(Shl32(buff, 8), 31 - i) {
      BitShl32(buff, 8, 31 - i);
      if i < 24 {
        HoldsBit(buff, w, i + 8);
      }
    }
    ToBitsBy(Shl32(buff, 8), 32, b);
  }

  /** OR-ing a value of n bits in below the live bits. */
  lemma Append(buff: u32, w: Bits, v: nat, n: nat)
    requires Holds(buff, w) && |w| + n <= 32 && v < Pow2(n)
    ensures v < WORD && Or(buff, Shl32(v, 32 - |w| - n)) < WORD
    ensures Holds(Or(buff, Shl32(v, 32 - |w| - n)), w + ToBits(v, n))
  {
    hide ToBits, Holds, Bit, Or, Shl32;
    ValueRange(v, n);
    var k, all := 32 - |w| - n, w + ToBits(v, n);
    var s := Shl32(v, k);
    OrWords(buff, s);
    var b := all + Zeros(32 - |all|);
    forall i | 0 <= i < 32 ensures b[i] == Bit(Or(buff, s), 31 - i) {
      AppendBit(buff, w, v, n, i);
    }
    ToBitsBy(Or(buff, s), 32, b);
    HoldsAll(Or(buff, s), all);
  }

  lemma HoldsAll(buff: u32, w: Bits)
    requires |w| <= 32 && ToBits(buff, 32) == w + Zeros(32 - |w|)
    ensures Holds(buff, w)
  {
  }

  lemma ValueRange(v: nat, n: nat)
    requires v < Pow2(n) && n <= 32
    ensures v < WORD
  {
    Pow2Of32();
    Pow2Monotone(n, 32);
  }

  lemma OrWords(x: u32, y: u32)
    ensures Or(x, y) < WORD
  {
    Pow2Of32();
    OrRange(x, y, 32);
  }

  lemma AppendBit(buff: u32, w: Bits, v: u32, n: nat, i: nat)
    requires Holds(buff, w) && |w| + n <= 32 && v < Pow2(n) && i < 32
    ensures Bit(Or(buff, Shl32(v, 32 - |w| - n)), 31 - i)
         == if i < |w| then w[i] else i < |w| + n && ToBits(v, n)[i - |w|]
  {
    hide *;
    var k := 32 - |w| - n;
    BitOr(buff, Shl32(v, k), 31 - i);
    HoldsBit(buff, w, i);
    BitShl32(v, k, 31 - i);
    if i < |w| {
      BitHigh(v, n, 31 - i - k);
    } else if i < |w| + n {
      ToBitsIndex(v, n, i - |w|);
    }
  }

  /** Shifting a byte in at the bottom. */
  lemma LoadByte(buff: u32, live: nat, c: byte)
    requires live <= 24
    ensures Or(Shl32(buff, 8), c) < WORD
    ensures ToBits(Or(Shl32(buff, 8), c), live + 8) == ToBits(buff, live) + ToBits(c, 8)
  {
    hide Or, Shl32, Bit, ToBits, Pow2;
    OrWords(Shl32(buff, 8), c);
    var r, b := Or(Shl32(buff, 8), c), ToBits(buff, live) + ToBits(c, 8);
    forall i | 0 <= i < live + 8 ensures b[i] == Bit(r, live + 7 - i) {
      var j := live + 7 - i;
      BitOr(Shl32(buff, 8), c, j);
      BitShl32(buff, 8, j);
      if i < live {
        ToBitsIndex(buff, live, i);
        ByteRange();
        BitHigh(c, 8, j);
      } else {
        ToBitsIndex(c, 8, i - live);
      }
    }
    ToBitsBy(r, live + 8, b);
  }

  lemma ByteRange()
    ensures Pow2(8) == 256
  {
    Pow2Of32();
  }

  /** Taking the top n of the live bits. */
  lemma TakeBits(buff: nat, live: nat, n: nat)
    requires n <= live
    ensures var v := And(Shr(buff, live - n), Pow2(n) - 1);
            v < Pow2(n) && ToBits(buff, live) == ToBits(v, n) + ToBits(buff, live - n)
  {
    var v := And(Shr(buff, live - n), Pow2(n) - 1);
    BitMask(Shr(buff, live - n), n, 0);
    var b := ToBits(v, n) + ToBits(buff, live - n);
    forall i | 0 <= i < live ensures b[i] == Bit(buff, live - 1 - i) {
      if i < n {
        ToBitsIndex(v, n, i);
        BitMask(Shr(buff, live - n), n, n - 1 - i);
        BitShr(buff, live - n, n - 1 - i);
      } else {
        ToBitsIndex(buff, live - n, i - n);
      }
    }
    ToBitsBy(buff, live, b);
  }

  /** The compressor's side: zbits, bsBuff and bsLive. */
  class BitWriter {
    var zbits: seq<byte>
    var bsBuff: u32
    var bsLive: int
    ghost var live: Bits  // the bits waiting in bsBuff

    ghost predicate Valid()
      reads this
    {
      Holds(bsBuff, live) && bsLive == |live| < 32
    }

    /** Everything written so far. */
    ghost function Written(): Bits
      reads this
    {
      BytesToBits(zbits) + live
    }

    /** BZ2_bsInitWrite, with an empty output buffer. */
    constructor ()
      ensures Valid() && Written() == [] && zbits == []
    {
      zbits, bsBuff, bsLive, live := [], 0, 0, [];
      ToBitsZero(32);
    }

    /** Moves the top byte of the buffer to the output. */
    method PutByte()
      requires Valid() && bsLive >= 8
      modifies this
      ensures Valid() && bsLive == old(bsLive) - 8
      ensures Written() == old(Written())
    {
      hide Holds, ToBits, Shr, Shl32;
      TopByte(bsBuff, live);
      var c: byte := Shr(bsBuff, 24);
      BytesToBitsAppend(zbits, [c]);
      BytesToBitsOne(c);
      ConcatAssoc(BytesToBits(zbits), live[..8], live[8..]);
      assert live[..8] + live[8..] == live;
      zbits := zbits + [c];
      bsBuff := Shl32(bsBuff, 8);
      bsLive := bsLive - 8;
      live := live[8..];
    }

    /** Writes the n low bits of v. */
    method BsW(n: nat, v: nat)
      requires Valid() && n <= 24 && v < Pow2(n)
      modifies this
      ensures Valid() && Written() == old(Written()) + ToBits(v, n)
    {
      hide Holds, ToBits, Or, Shl32;
      while bsLive >= 8
        invariant Valid() && Written() == old(Written())
        decreases bsLive
      {
        PutByte();
      }
      Append(bsBuff, live, v, n);
      ConcatAssoc(BytesToBits(zbits), live, ToBits(v, n));
      bsBuff := Or(bsBuff, Shl32(v, 32 - bsLive - n));
      bsLive := bsLive + n;
      live := live + ToBits(v, n);
    }

    /** No more than 32 bits wait in the buffer. */
    lemma HasBytes()
      requires Valid() && |Written()| > 32
      ensures zbits != []
    {
    }

    /** Starts collecting bytes afresh; bits still waiting stay in the buffer. */
    method Restart()
      requires Valid()
      modifies this
      ensures Valid() && zbits == [] && old(Written()) == BytesToBits(old(zbits)) + Written()
    {
      hide Holds;
      assert BytesToBits([]) + live == live;
      zbits := [];
    }

    /** Pads with zero bits to a whole byte and empties the buffer. */
    method BsFinishWrite()
      requires Valid()
      modifies this
      ensures exists pad: nat :: pad < 8 && BytesToBits(zbits) == old(Written()) + Zeros(pad)
    {
      hide Holds, ToBits, Shr, Shl32;
      while bsLive >= 8
        invariant Valid() && Written() == old(Written())
        decreases bsLive
      {
        PutByte();
      }
      ghost var pad := 0;
      if bsLive > 0 {
        pad := 8 - bsLive;
        LastByte(bsBuff, live);
        var c: byte := Shr(bsBuff, 24);
        BytesToBitsAppend(zbits, [c]);
        BytesToBitsOne(c);
        ConcatAssoc(BytesToBits(zbits), live, Zeros(pad));
        zbits := zbits + [c];
        bsBuff := Shl32(bsBuff, 8);
        bsLive := bsLive - 8;
      } else {
        assert old(Written()) == BytesToBits(zbits) + Zeros(0);
      }
    }
  }

  lemma LastByte(buff: u32, w: Bits)
    requires Holds(buff, w) && |w| < 8
    ensures Shr(buff, 24) < 256 && ToBits(Shr(buff, 24), 8) == w + Zeros(8 - |w|)
  {
    hide Holds, Shr, Bit, ToBits;
    TopByteRange(buff);
    var b := w + Zeros(8 - |w|);
    forall i | 0 <= i < 8 ensures b[i] == Bit(Shr(buff, 24), 7 - i) {
      BitShr(buff, 24, 7 - i);
      HoldsBit(buff, w, i);
    }
    ToBitsBy(Shr(buff, 24), 8, b);
  }

  datatype Read = Got(v: nat) | Starved

  /** The decompressor's side: bsBuff, bsLive and the input the caller has supplied. */
  class BitReader {
    var bsBuff: u32
    var bsLive: int
    var input: seq<byte>

    ghost predicate Valid()
      reads this
    {
      0 <= bsLive <= 32
    }

    /** The bits not yet read of the input supplied so far. */
    ghost function Pending(): Bits
      requires Valid()
      reads this
    {
      ToBits(bsBuff, bsLive) + BytesToBits(input)
    }

    constructor ()
      ensures Valid() && Pending() == []
    {
      bsBuff, bsLive, input := 0, 0, [];
    }

    /** The caller supplies another piece of input. */
    method Feed(more: seq<byte>)
      requires Valid()
      modifies this
      ensures Valid() && Pending() == old(Pending()) + BytesToBits(more)
    {
      BytesToBitsAppend(input, more);
      ConcatAssoc(ToBits(bsBuff, bsLive), BytesToBits(input), BytesToBits(more));
      input := input + more;
    }

    /** Reads n bits, or, if the input does not hold them, consumes it all and waits for more. */
    method GetBits(n: nat) returns (r: Read)
      requires Valid() && 1 <= n <= 24
      modifies this
      ensures Valid()
      ensures r.Got? ==> r.v < Pow2(n) && old(Pending()) == ToBits(r.v, n) + Pending()
      ensures r.Starved? ==> Pending() == old(Pending()) && |Pending()| < n && input == []
    {
      hide ToBits, And, Or, Shr, Shl32;
      while true
        invariant Valid() && Pending() == old(Pending())
        decreases |input|
      {
        if bsLive >= n {
          TakeBits(bsBuff, bsLive, n);
          var v := And(Shr(bsBuff, bsLive - n), Pow2(n) - 1);
          ConcatAssoc(ToBits(v, n), ToBits(bsBuff, bsLive - n), BytesToBits(input));
          bsLive := bsLive - n;
          return Got(v);
        }
        if input == [] {
          return Starved;
        }
        var c := input[0];
        LoadByte(bsBuff, bsLive, c);
        BytesToBitsAppend([c], input[1..]);
        BytesToBitsOne(c);
        assert [c] + input[1..] == input;
        ConcatAssoc(ToBits(bsBuff, bsLive), ToBits(c, 8), BytesToBits(input[1..]));
        bsBuff := Or(Shl32(bsBuff, 8), c);
        bsLive := bsLive + 8;
        input := input[1..];
      }
    }
  }
}
