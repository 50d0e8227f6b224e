// Machine words as natural numbers, with the bit operations the codec uses.
module Words {

  const WORD: int := 0x1_0000_0000  // 2^32, the range of UInt32
  const ALL_ONES: int := 0xffff_ffff

  type byte = x: int | 0 <= x < 256

  type u32 = x: int | 0 <= x < 0x1_0000_0000

  type i32 = x: int | -0x8000_0000 <= x < 0x8000_0000

  function Pow2(n: nat): (p: nat)
    ensures p >= 1
    ensures n > 0 ==> p >= 2
  {
    if n == 0 then 1 else 2 * Pow2(n - 1)
  }

  /** Bit i of x, counted from the least significant end. */
  predicate Bit(x: nat, i: nat) {
    if i == 0 then x % 2 == 1 else Bit(x / 2, i - 1)
  }

  function Or(x: nat, y: nat): nat {
    if x == 0 && y == 0 then 0
    else (if x % 2 == 1 || y % 2 == 1 then 1 else 0) + 2 * Or(x / 2, y / 2)
  }

  function And(x: nat, y: nat): nat {
    if x == 0 || y == 0 then 0
    else (if x % 2 == 1 && y % 2 == 1 then 1 else 0) + 2 * And(x / 2, y / 2)
  }

  /** One's complement of a 32-bit word. */
  function Not32(x: u32): u32 {
    ALL_ONES - x
  }

  /** `m << k` without a width limit. */
  function Shl(m: nat, k: nat): nat {
    if k == 0 then m else 2 * Shl(m, k - 1)
  }

  /** `x << k` on UInt32: bits shifted out at the top are lost. */
  function Shl32(x: u32, k: nat): (r: u32) {
    Shl(x, k) % WORD
  }

  function Shr(x: nat, k: nat): nat {
    if k == 0 then x else Shr(x / 2, k - 1)
  }

  lemma {:induction false} Pow2Add(m: nat, n: nat)
    ensures Pow2(m + n) == Pow2(m) * Pow2(n)
    decreases n
  {
    if n > 0 {
      Pow2Add(m, n - 1);
      DoubleProduct(Pow2(m), Pow2(n - 1));
    }
  }

  lemma DoubleProduct(a: int, b: int)
    ensures a * (2 * b) == 2 * (a * b)
  {
  }

  lemma MulDistributes(a: int, b: int, c: int)
    ensures (a + b) * c == a * c + b * c
  {
  }

  lemma {:induction false} Pow2Monotone(m: nat, n: nat)
    requires m <= n
    ensures Pow2(m) <= Pow2(n)
    decreases n
  {
    if m < n {
      Pow2Monotone(m, n - 1);
    }
  }

  lemma Pow2Of32()
    ensures Pow2(8) == 0x100 && Pow2(16) == 0x1_0000 && Pow2(24) == 0x100_0000 && Pow2(32) == WORD
  {
    assert Pow2(1) == 2 && Pow2(2) == 4;
    Pow2Add(2, 2);
    Pow2Add(4, 4);
    Pow2Add(8, 8);
    Pow2Add(16, 8);
    Pow2Add(16, 16);
  }

  lemma MulMonotone(a: nat, b: nat, c: nat, d: nat)
    requires a <= b && c <= d
    ensures a * c <= b * d
  {
    assert a * c <= b * c;
    assert b * c <= b * d;
  }

  lemma {:induction false} BitOr(x: nat, y: nat, i: nat)
    ensures Bit(Or(x, y), i) == (Bit(x, i) || Bit(y, i))
    decreases i
  {
    if x == 0 && y == 0 {
    } else {
      assert Or(x, y) / 2 == Or(x / 2, y / 2);
      if i > 0 {
        BitOr(x / 2, y / 2, i - 1);
      }
    }
  }

  lemma {:induction false} BitZero(i: nat)
    ensures !Bit(0, i)
    decreases i
  {
    if i > 0 {
      BitZero(i - 1);
    }
  }

  lemma {:induction false} BitAnd(x: nat, y: nat, i: nat)
    ensures Bit(And(x, y), i) == (Bit(x, i) && Bit(y, i))
    decreases i
  {
    if x == 0 || y == 0 {
      BitZero(i);
    } else {
      assert And(x, y) / 2 == And(x / 2, y / 2);
      if i > 0 {
        BitAnd(x / 2, y / 2, i - 1);
      }
    }
  }

  lemma {:induction false} BitPow2(k: nat, i: nat)
    ensures Bit(Pow2(k), i) == (i == k)
    decreases i
  {
    if k == 0 {
      if i > 0 {
        BitZero(i - 1);
      }
    } else {
      assert Pow2(k) / 2 == Pow2(k - 1);
      if i > 0 {
        BitPow2(k - 1, i - 1);
      }
    }
  }

  /** The complement within n bits flips each of the low n bits. */
  lemma {:induction false} BitComplement(x: nat, n: nat, i: nat)
    requires x < Pow2(n) && i < n
    ensures Bit(Pow2(n) - 1 - x, i) == !Bit(x, i)
    decreases i
  {
    assert (Pow2(n) - 1 - x) / 2 == Pow2(n - 1) - 1 - x / 2;
    if i > 0 {
      BitComplement(x / 2, n - 1, i - 1);
    }
  }

  lemma {:induction false} OrRange(x: nat, y: nat, n: nat)
    requires x < Pow2(n) && y < Pow2(n)
    ensures Or(x, y) < Pow2(n)
    decreases n
  {
    if n > 0 && !(x == 0 && y == 0) {
      OrRange(x / 2, y / 2, n - 1);
    }
  }

  lemma {:induction false} AndBound(x: nat, y: nat)
    ensures And(x, y) <= x
    decreases x
  {
    if x > 0 && y > 0 {
      AndBound(x / 2, y / 2);
    }
  }

  /** OR-ing a value into cleared low bits adds it. */
  lemma {:induction false} OrDisjoint(x: nat, y: nat, k: nat)
    requires y < Pow2(k)
    ensures Or(x * Pow2(k), y) == x * Pow2(k) + y
    decreases k
  {
    if k == 0 {
      OrZero(x);
    } else {
      var z := x * Pow2(k - 1);
      assert x * Pow2(k) == 2 * z;
      assert 2 * z / 2 == z && 2 * z % 2 == 0;
      OrDisjoint(x, y / 2, k - 1);
    }
  }

  lemma {:induction false} OrZero(x: nat)
    ensures Or(x, 0) == x
    decreases x
  {
    if x > 0 {
      OrZero(x / 2);
    }
  }

  lemma {:induction false} OrCommutes(x: nat, y: nat)
    ensures Or(x, y) == Or(y, x)
    decreases x + y
  {
    if x > 0 || y > 0 {
      OrCommutes(x / 2, y / 2);
    }
  }

  /** Masking with 2^k - 1 keeps the remainder modulo 2^k. */
  lemma {:induction false} AndMask(x: nat, k: nat)
    ensures And(x, Pow2(k) - 1) == x % Pow2(k)
    decreases k
  {
    if k == 0 {
      assert x % 1 == 0;
    } else if x == 0 {
      DivModUnique(0, Pow2(k), 0, 0);
    } else {
      var m := Pow2(k - 1);
      AndMask(x / 2, k - 1);
      AndOdd(x, m);
      DivDouble(x, m);
    }
  }

  lemma AndOdd(x: nat, m: nat)
    requires m > 0
    ensures And(x, 2 * m - 1) == x % 2 + 2 * And(x / 2, m - 1)
  {
    var y := 2 * m - 1;
    assert y / 2 == m - 1 && y % 2 == 1;
  }

  lemma {:induction false} ShrDiv(x: nat, k: nat)
    ensures Shr(x, k) == x / Pow2(k)
    decreases k
  {
    if k == 0 {
      assert x / 1 == x;
    } else {
      ShrDiv(x / 2, k - 1);
      DivDouble(x, Pow2(k - 1));
    }
  }

  lemma DivDouble(x: nat, m: nat)
    requires m > 0
    ensures x / (2 * m) == (x / 2) / m
    ensures x % (2 * m) == 2 * ((x / 2) % m) + x % 2
  {
    var q, r := (x / 2) / m, (x / 2) % m;
    DoubleProduct(q, m);
    DivModUnique(x, 2 * m, q, 2 * r + x % 2);
  }

  lemma DivModUnique(x: int, m: int, q: int, r: int)
    requires m > 0 && 0 <= r < m && x == q * m + r
    ensures x / m == q && x % m == r
  {
    var d := x / m - q;
    assert x == (x / m) * m + x % m;
    assert d * m == r - x % m;
    if d >= 1 {
      MulMonotone(1, d, m, m);
    }
  }

  /** Masking with m << k keeps the masked high part. */
  lemma {:induction false} AndShifted(x: nat, m: nat, k: nat)
    ensures And(x, Shl(m, k)) == Shl(And(Shr(x, k), m), k)
    decreases k
  {
    if k > 0 {
      AndShifted(x / 2, m, k - 1);
      AndEven(x, Shl(m, k - 1));
    }
  }

  lemma AndEven(x: nat, y: nat)
    ensures And(x, 2 * y) == 2 * And(x / 2, y)
  {
    assert (2 * y) / 2 == y && (2 * y) % 2 == 0;
  }

  lemma ShlFour(m: nat)
    ensures Shl(m, 4) == 16 * m
  {
    assert Shl(m, 1) == 2 * m && Shl(m, 2) == 4 * m && Shl(m, 3) == 8 * m;
  }

  lemma LowByte(x: nat)
    ensures And(x, 0xff) == x % 256
    ensures Shr(x, 8) == x / 256
  {
    Pow2Of32();
    AndMask(x, 8);
    ShrDiv(x, 8);
  }

  /** A byte with an index packed above it, as in the fast decoding table. */
  lemma PackIndex(ch: byte, i: nat)
    requires i < 0x100_0000
    ensures Or(ch, Shl32(i, 8)) == i * 256 + ch < WORD
  {
    hide Or, Shl32, Shl, Pow2;
    ShlByte(i);
    OrCommutes(ch, i * 256);
    OrDisjoint(i, ch, 8);
  }

  lemma ShlByte(i: nat)
    requires i < 0x100_0000
    ensures Pow2(8) == 256 && Shl32(i, 8) == i * 256
  {
    Pow2Of32();
    ShlMul(i, 8);
  }

  lemma Pow2Of4()
    ensures Pow2(4) == 16
  {
    assert Pow2(1) == 2 && Pow2(2) == 4;
    Pow2Add(2, 2);
  }

  /** Replacing one half of a byte. */
  lemma Nibbles(x: byte, v: nat)
    requires v < 16
    ensures Or(And(x, 0xf0), v) == x / 16 * 16 + v
    ensures Or(And(x, 0x0f), Shl32(v, 4)) == v * 16 + x % 16
    ensures And(Shr(x, 4), 0xf) == x / 16 && And(Shr(x, 0), 0xf) == x % 16
  {
    hide And, Or, Shr, Shl32;
    HighNibble(x);
    LowNibble(x);
    ShiftsBy4(x, v);
    Pow2Of4();
    OrDisjoint(x / 16, v, 4);
    OrDisjoint(v, x % 16, 4);
    OrCommutes(x % 16, v * 16);
  }

  lemma ShiftsBy4(x: nat, v: nat)
    requires v < 16
    ensures Shr(x, 0) == x && Shl32(v, 4) == v * 16
  {
    Pow2Of4();
    ShlMul(v, 4);
  }

  lemma LowNibble(x: nat)
    ensures And(x, 0xf) == x % 16
  {
    Pow2Of4();
    AndMask(x, 4);
  }

  lemma HighNibble(x: byte)
    ensures Shr(x, 4) == x / 16 && And(x / 16, 0xf) == x / 16 && And(x, 0xf0) == 16 * (x / 16)
  {
    hide *;
    Pow2Of4();
    ShrDiv(x, 4);
    LowNibble(x / 16);
    ShlFour(15);
    ShlFour(x / 16);
    AndShifted(x, 15, 4);
  }

  lemma {:induction false} ShlMul(x: nat, k: nat)
    ensures Shl(x, k) == x * Pow2(k)
    decreases k
  {
    if k > 0 {
      ShlMul(x, k - 1);
      DoubleProduct(x, Pow2(k - 1));
    }
  }

  lemma {:induction false} BitShl(x: nat, k: nat, i: nat)
    ensures Bit(Shl(x, k), i) == (i >= k && Bit(x, i - k))
    decreases k
  {
    if k > 0 && i > 0 {
      assert Shl(x, k) / 2 == Shl(x, k - 1);
      BitShl(x, k - 1, i - 1);
    }
  }

  lemma {:induction false} BitShr(x: nat, k: nat, i: nat)
    ensures Bit(Shr(x, k), i) == Bit(x, i + k)
    decreases k
  {
    if k > 0 {
      BitShr(x / 2, k - 1, i);
    }
  }

  lemma {:induction false} BitMod(x: nat, n: nat, i: nat)
    ensures Bit(x % Pow2(n), i) == (i < n && Bit(x, i))
    decreases n
  {
    if n == 0 {
      assert x % 1 == 0;
      BitZero(i);
    } else {
      var m := Pow2(n - 1);
      DivDouble(x, m);
      var y := x % Pow2(n);
      assert y / 2 == (x / 2) % m && y % 2 == x % 2;
      if i > 0 {
        BitMod(x / 2, n - 1, i - 1);
      }
    }
  }

  lemma {:induction false} BitHigh(x: nat, n: nat, i: nat)
    requires x < Pow2(n) && n <= i
    ensures !Bit(x, i)
    decreases n
  {
    if n == 0 {
      BitZero(i);
    } else {
      BitHigh(x / 2, n - 1, i - 1);
    }
  }

  lemma BitShl32(x: u32, k: nat, i: nat)
    ensures Bit(Shl32(x, k), i) == (k <= i < 32 && Bit(x, i - k))
  {
    Pow2Of32();
    BitMod(Shl(x, k), 32, i);
    BitShl(x, k, i);
  }

  /** Masking with (1 << n) - 1. */
  lemma BitMask(x: nat, n: nat, i: nat)
    ensures Bit(And(x, Pow2(n) - 1), i) == (i < n && Bit(x, i))
    ensures And(x, Pow2(n) - 1) < Pow2(n)
  {
    AndMask(x, n);
    BitMod(x, n, i);
  }
}
