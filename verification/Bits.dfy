// Bit sequences, most significant bit first: the abstract value of the
// compressed stream on both sides.
module Bits {
  import opened Words

  type Bits = seq<bool>

  /** The low n bits of v. */
  ghost function ToBits(v: nat, n: nat): (b: Bits)
    ensures |b| == n
  {
    if n == 0 then [] else ToBits(v / 2, n - 1) + [v % 2 == 1]
  }

  ghost function FromBits(b: Bits): (v: nat)
    ensures v < Pow2(|b|)
  {
    if b == [] then 0 else 2 * FromBits(b[..|b| - 1]) + if b[|b| - 1] then 1 else 0
  }

  lemma {:induction false} FromToBits(v: nat, n: nat)
    requires v < Pow2(n)
    ensures FromBits(ToBits(v, n)) == v
    decreases n
  {
    if n > 0 {
      FromToBits(v / 2, n - 1);
      assert ToBits(v, n)[..n - 1] == ToBits(v / 2, n - 1);
    }
  }

  lemma {:induction false} ToBitsIndex(v: nat, n: nat, i: nat)
    requires i < n
    ensures ToBits(v, n)[i] == Bit(v, n - 1 - i)
    decreases n
  {
    if i < n - 1 {
      ToBitsIndex(v / 2, n - 1, i);
    }
  }

  /** Bit by bit: b spells v in n bits. */
  lemma ToBitsBy(v: nat, n: nat, b: Bits)
    requires |b| == n && forall i :: 0 <= i < n ==> b[i] == Bit(v, n - 1 - i)
    ensures ToBits(v, n) == b
  {
    forall i | 0 <= i < n ensures ToBits(v, n)[i] == b[i] {
      ToBitsIndex(v, n, i);
    }
  }

  /** Bits of a number written in m bits, from position k on. */
  lemma ToBitsAll(v: nat, n: nat)
    ensures forall i :: 0 <= i < n ==> ToBits(v, n)[i] == Bit(v, n - 1 - i)
  {
    forall i | 0 <= i < n ensures ToBits(v, n)[i] == Bit(v, n - 1 - i) {
      ToBitsIndex(v, n, i);
    }
  }

  /** Bytes as bits. */
  ghost function BytesToBits(s: seq<byte>): (b: Bits)
    ensures |b| == 8 * |s|
  {
    if s == [] then [] else BytesToBits(s[..|s| - 1]) + ToBits(s[|s| - 1], 8)
  }

  lemma {:induction false} BytesToBitsAppend(s: seq<byte>, t: seq<byte>)
    ensures BytesToBits(s + t) == BytesToBits(s) + BytesToBits(t)
    decreases |t|
  {
    if t == [] {
      assert s + t == s;
    } else {
      hide ToBits;
      var k := |t| - 1;
      BytesToBitsAppend(s, t[..k]);
      assert (s + t)[..|s + t| - 1] == s + t[..k] && (s + t)[|s + t| - 1] == t[k];
      ConcatAssoc(BytesToBits(s), BytesToBits(t[..k]), ToBits(t[k], 8));
    }
  }

  lemma ConcatAssoc<T>(a: seq<T>, b: seq<T>, c: seq<T>)
    ensures (a + b) + c == a + (b + c)
  {
  }

  lemma BytesToBitsOne(c: byte)
    ensures BytesToBits([c]) == ToBits(c, 8)
  {
    assert [c][..0] == [];
    assert BytesToBits([]) + ToBits(c, 8) == ToBits(c, 8);
  }

  /** Zero bits. */
  function Zeros(n: nat): (b: Bits)
    ensures |b| == n
  {
    seq(n, _ => false)
  }

  lemma {:induction false} ToBitsZero(n: nat)
    ensures ToBits(0, n) == Zeros(n)
    decreases n
  {
    if n > 0 {
      ToBitsZero(n - 1);
    }
  }

  /** The first n pieces in a row. */
  ghost function Joined(pieces: seq<seq<byte>>, n: nat): seq<byte>
    requires n <= |pieces|
  {
    if n == 0 then [] else Joined(pieces, n - 1) + pieces[n - 1]
  }

  lemma JoinedStep(pieces: seq<seq<byte>>, i: nat)
    requires i < |pieces|
    ensures Joined(pieces, i + 1) == Joined(pieces, i) + pieces[i]
  {
  }

  /** The first n rooms together. */
  ghost function Total(rooms: seq<nat>, n: nat): nat
    requires n <= |rooms|
  {
    if n == 0 then 0 else Total(rooms, n - 1) + rooms[n - 1]
  }

  lemma TotalStep(rooms: seq<nat>, i: nat)
    requires i < |rooms|
    ensures Total(rooms, i + 1) == Total(rooms, i) + rooms[i] && Total(rooms, 0) == 0
  {
  }
}
