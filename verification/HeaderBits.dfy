// The bucket-header bit table of the fallback sorter: one bit per position,
// packed 32 to a word, scanned a word at a time where possible.
module HeaderBits {
  import opened Words

  /** Header bit z of the table. */
  ghost predicate Bh(t: seq<u32>, z: int) {
    0 <= z < 32 * |t| && Bit(t[z / 32], z % 32)
  }

  /** All positions whose header bit is set. */
  ghost function HeadSet(t: seq<u32>): (s: set<int>)
    ensures forall z :: z in s <==> Bh(t, z)
  {
    set z | 0 <= z < 32 * |t| && Bh(t, z)
  }

  lemma Pow2Fits(i: nat)
    requires i < 32
    ensures Pow2(i) < WORD == Pow2(32) == 0x1_0000_0000
  {
    Pow2Of32();
    Pow2Monotone(i + 1, 32);
  }

  lemma NotOf(x: u32)
    ensures Not32(x) == 0xffff_ffff - x
  {
  }

  lemma SetWord(w: u32, i: nat) returns (r: u32)
    requires i < 32
    ensures r == Or(w, Pow2(i))
    ensures forall j: nat :: Bit(r, j) == (Bit(w, j) || j == i)
  {
    hide *;
    Pow2Fits(i);
    OrRange(w, Pow2(i), 32);
    r := Or(w, Pow2(i));
    forall j: nat ensures Bit(r, j) == (Bit(w, j) || j == i) {
      BitOr(w, Pow2(i), j);
      BitPow2(i, j);
    }
  }

  method SetBh(bhtab: array<u32>, z: int)
    requires 0 <= z < 32 * bhtab.Length
    modifies bhtab
    ensures HeadSet(bhtab[..]) == HeadSet(old(bhtab[..])) + {z}
  {
    ghost var r := SetWord(bhtab[z / 32], z % 32);
    bhtab[z / 32] := Or(bhtab[z / 32], Pow2(z % 32));
    forall y ensures Bh(bhtab[..], y) == (y == z || Bh(old(bhtab[..]), y)) {
      assert y / 32 == z / 32 && y % 32 == z % 32 ==> y == z;
    }
  }

  lemma ClearWord(w: u32, i: nat) returns (r: u32)
    requires i < 32
    ensures Pow2(i) < WORD && r == And(w, Not32(Pow2(i)))
    ensures forall j: nat :: j < 32 ==> Bit(r, j) == (Bit(w, j) && j != i)
  {
    hide *;
    Pow2Fits(i);
    NotOf(Pow2(i));
    AndBound(w, Not32(Pow2(i)));
    r := And(w, Not32(Pow2(i)));
    forall j: nat | j < 32 ensures Bit(r, j) == (Bit(w, j) && j != i) {
      BitAnd(w, Not32(Pow2(i)), j);
      BitComplement(Pow2(i), 32, j);
      BitPow2(i, j);
    }
  }

  method ClearBh(bhtab: array<u32>, z: int)
    requires 0 <= z < 32 * bhtab.Length
    modifies bhtab
    ensures HeadSet(bhtab[..]) == HeadSet(old(bhtab[..])) - {z}
  {
    ghost var r := ClearWord(bhtab[z / 32], z % 32);
    bhtab[z / 32] := And(bhtab[z / 32], Not32(Pow2(z % 32)));
    forall y ensures Bh(bhtab[..], y) == (y != z && Bh(old(bhtab[..]), y)) {
      assert y / 32 == z / 32 && y % 32 == z % 32 ==> y == z;
    }
  }

  lemma {:induction false} AndSingleBit(w: nat, i: nat)
    ensures And(w, Pow2(i)) != 0 <==> Bit(w, i)
    decreases i
  {
    if w == 0 {
      BitZero(i);
    } else if i == 0 {
      assert And(w / 2, 0) == 0;
    } else {
      assert Pow2(i) / 2 == Pow2(i - 1) && Pow2(i) % 2 == 0;
      AndSingleBit(w / 2, i - 1);
    }
  }

  method IsSetBh(bhtab: array<u32>, z: int) returns (b: bool)
    requires 0 <= z < 32 * bhtab.Length
    ensures b == (z in HeadSet(bhtab[..]))
  {
    AndSingleBit(bhtab[z / 32], z % 32);
    b := And(bhtab[z / 32], Pow2(z % 32)) != 0;
  }

  lemma {:induction false} AllOnesBits(n: nat, i: nat)
    requires i < n
    ensures Bit(Pow2(n) - 1, i)
    decreases i
  {
    assert (Pow2(n) - 1) / 2 == Pow2(n - 1) - 1;
    if i > 0 {
      AllOnesBits(n - 1, i - 1);
    }
  }

  lemma WordUniform(t: seq<u32>, k: int)
    requires 0 <= k < 32 * |t| && k % 32 == 0
    ensures t[k / 32] == ALL_ONES ==> forall y :: k <= y < k + 32 ==> Bh(t, y)
    ensures t[k / 32] == 0 ==> forall y :: k <= y < k + 32 ==> !Bh(t, y)
  {
    Pow2Of32();
    forall y | k <= y < k + 32
      ensures t[k / 32] == ALL_ONES ==> Bh(t, y)
      ensures t[k / 32] == 0 ==> !Bh(t, y)
    {
      assert y / 32 == k / 32;
      AllOnesBits(32, y % 32);
      BitZero(y % 32);
    }
  }

  /** Every header bit in [from, to) is `value`. */
  ghost predicate Run(heads: set<int>, from: int, to: int, value: bool) {
    forall y :: from <= y < to ==> (y in heads) == value
  }

  /** Skips bits equal to `value` one at a time, up to a word boundary if `unalignedOnly`. */
  method SkipBits(bhtab: array<u32>, k0: int, value: bool, unalignedOnly: bool, ghost stop: int) returns (k: int)
    requires 0 <= k0 <= stop < 32 * bhtab.Length
    requires (stop in HeadSet(bhtab[..])) != value
    ensures k0 <= k <= stop && Run(HeadSet(bhtab[..]), k0, k, value)
    ensures (k in HeadSet(bhtab[..])) != value || (unalignedOnly && k % 32 == 0)
  {
    k := k0;
    while true
      invariant k0 <= k <= stop && Run(HeadSet(bhtab[..]), k0, k, value)
      decreases stop - k
    {
      var b := IsSetBh(bhtab, k);
      if !(b == value && (!unalignedOnly || k % 32 != 0)) {
        break;
      }
      k := k + 1;
    }
  }

  /** Skips whole words all of whose bits equal `value`. */
  method SkipWords(bhtab: array<u32>, k0: int, value: bool, ghost stop: int) returns (k: int)
    requires 0 <= k0 <= stop < 32 * bhtab.Length && k0 % 32 == 0
    requires (stop in HeadSet(bhtab[..])) != value
    ensures k0 <= k <= stop && Run(HeadSet(bhtab[..]), k0, k, value)
  {
    k := k0;
    var whole := if value then ALL_ONES else 0;
    while bhtab[k / 32] == whole
      invariant k0 <= k <= stop && k % 32 == 0
      invariant Run(HeadSet(bhtab[..]), k0, k, value)
      decreases stop - k
    {
      WordUniform(bhtab[..], k);
      assert Run(HeadSet(bhtab[..]), k, k + 32, value);
      k := k + 32;
    }
  }

  /** From k0, skips header bits equal to `value`, a word at a time once aligned. `stop` is some position where it must halt. */
  method SkipWhile(bhtab: array<u32>, k0: int, value: bool, ghost stop: int) returns (k: int)
    requires 0 <= k0 <= stop < 32 * bhtab.Length
    requires (stop in HeadSet(bhtab[..])) != value
    ensures k0 <= k <= stop
    ensures (k in HeadSet(bhtab[..])) != value
    ensures Run(HeadSet(bhtab[..]), k0, k, value)
  {
    k := SkipBits(bhtab, k0, value, true, stop);
    var b := IsSetBh(bhtab, k);
    if b == value {
      k := SkipWords(bhtab, k, value, stop);
      k := SkipBits(bhtab, k, value, false, stop);
    }
  }
}
