// Runs of the decoder: how far it gets on given bits, and that it does not
// matter where those bits are cut.
module DecoderRun {
  import opened Words
  import opened Bits
  import opened Alphabet
  import opened Canonical
  import opened Decoder

  datatype Paused = Paused(state: State, rest: Bits)

  lemma NeedPositive(s: State)
    requires Valid(s) && !Halted(s)
    ensures Need(s) >= 1
  {
    hide Rank, Reachable;
    if s.Value? {
      StartsAtMin(s.lens[s.b.selector[s.groupNo]]);
    }
  }

  /** Steps until the machine halts or the bits run out. */
  ghost function Run(s: State, bits: Bits): (r: Paused)
    requires Valid(s)
    ensures Valid(r.state) && (Halted(r.state) || |r.rest| < Need(r.state))
    decreases |bits|
  {
    if Halted(s) || |bits| < Need(s) then Paused(s, bits)
    else
      NeedPositive(s);
      StepValid(s, FromBits(bits[..Need(s)]));
      Run(Step(s, FromBits(bits[..Need(s)])), bits[Need(s)..])
  }

  /** Suspending after any prefix of the bits and resuming with the rest gives the same run. */
  lemma {:induction false} RunAppend(s: State, a: Bits, b: Bits)
    requires Valid(s)
    ensures Run(s, a + b) == Run(Run(s, a).state, Run(s, a).rest + b)
    decreases |a|
  {
    hide Step, Valid, Need;
    if !(Halted(s) || |a| < Need(s)) {
      var n := Need(s);
      NeedPositive(s);
      StepValid(s, FromBits(a[..n]));
      assert (a + b)[..n] == a[..n] && (a + b)[n..] == a[n..] + b;
      RunAppend(Step(s, FromBits(a[..n])), a[n..], b);
    }
  }

  /** The machine reads exactly these bits and is then in state t. */
  ghost predicate Takes(s: State, bits: Bits, t: State) {
    Valid(s) && Run(s, bits) == Paused(t, [])
  }

  lemma TakesNothing(s: State)
    requires Valid(s)
    ensures Takes(s, [], s)
  {
    if !Halted(s) {
      NeedPositive(s);
    }
  }

  lemma TakesBoth(s: State, a: Bits, t: State, b: Bits, u: State)
    requires Takes(s, a, t) && Takes(t, b, u)
    ensures Takes(s, a + b, u)
  {
    RunAppend(s, a, b);
    assert [] + b == b;
  }

  /** One value of the width asked for. */
  lemma TakesValue(s: State, v: nat, n: nat)
    requires Valid(s) && !Halted(s) && n == Need(s) && v < Pow2(n)
    ensures Takes(s, ToBits(v, n), Step(s, v)) && Valid(Step(s, v))
  {
    hide Step, Valid, Need;
    var bits := ToBits(v, n);
    NeedPositive(s);
    StepValid(s, v);
    FromToBits(v, n);
    assert bits[..n] == bits && bits[n..] == [];
    TakesNothing(Step(s, v));
  }

  /** One bit. */
  lemma TakesBit(s: State, bit: bool)
    requires Valid(s) && !Halted(s) && Need(s) == 1
    ensures Takes(s, [bit], Step(s, if bit then 1 else 0)) && Valid(Step(s, if bit then 1 else 0))
  {
    hide Step, Valid, Need;
    var v := if bit then 1 else 0;
    BitBits(bit);
    TakesValue(s, v, 1);
  }

  lemma BitBits(bit: bool)
    ensures Pow2(1) == 2 && ToBits(if bit then 1 else 0, 1) == [bit]
  {
    assert ToBits(0, 0) == [];
  }

  /** A number in high and low parts. */
  lemma {:induction false} ToBitsSplit(v: nat, m: nat, n: nat)
    ensures ToBits(v, m + n) == ToBits(Shr(v, n), m) + ToBits(v, n)
    decreases n
  {
    if n == 0 {
      assert ToBits(v, m) + [] == ToBits(v, m);
    } else {
      ToBitsSplit(v / 2, m, n - 1);
      ConcatAssoc(ToBits(Shr(v, n), m), ToBits(v / 2, n - 1), [v % 2 == 1]);
    }
  }

  /** The top bit first. */
  lemma ToBitsCons(v: nat, n: nat)
    ensures ToBits(v, n + 1) == [Shr(v, n) % 2 == 1] + ToBits(v, n)
    ensures Shr(v, n) == 2 * Shr(v, n + 1) + Shr(v, n) % 2
  {
    hide ToBits, Shr;
    ToBitsSplit(v, 1, n);
    OneBit(Shr(v, n));
    ShrNext(v, n);
  }

  lemma OneBit(x: nat)
    ensures ToBits(x, 1) == [x % 2 == 1]
  {
    assert ToBits(x / 2, 0) == [];
  }

  lemma {:induction false} ShrNext(v: nat, n: nat)
    ensures Shr(v, n + 1) == Shr(v, n) / 2
    decreases n
  {
    if n > 0 {
      ShrNext(v / 2, n - 1);
    }
  }

  /** Only the low bits matter. */
  lemma {:induction false} ToBitsMod(v: nat, n: nat)
    ensures ToBits(v % Pow2(n), n) == ToBits(v, n)
    decreases n
  {
    if n > 0 {
      DivDouble(v, Pow2(n - 1));
      ToBitsMod(v / 2, n - 1);
      var r := v % Pow2(n);
      assert r / 2 == (v / 2) % Pow2(n - 1) && r % 2 == v % 2;
    }
  }
}
