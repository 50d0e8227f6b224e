// The sections of a compressed block, told without the functions that write
// them: where each byte of the mapping table stands, what a selector's number
// counts, how lengths change, which code a symbol has, and how runs of zeros
// are numbered.
module SectionFormat {
  import opened Words
  import opened Bits
  import opened Alphabet
  import opened Mtf
  import opened Canonical
  import opened Decoder
  import opened BlockFormat

  // Numbers and bytes.

  /** The most significant bit comes first. */
  lemma BitsOfNumber(v: nat, n: nat, k: nat)
    requires k < n
    ensures ToBits(v, n)[k] <==> v / Pow2(n - 1 - k) % 2 == 1
  {
    hide ToBits;
    ToBitsIndex(v, n, k);
    BitOf(v, n - 1 - k);
  }

  lemma {:induction false} BitOf(v: nat, i: nat)
    ensures Bit(v, i) <==> v / Pow2(i) % 2 == 1
    decreases i
  {
    if i > 0 {
      BitOf(v / 2, i - 1);
      DivDouble(v, Pow2(i - 1));
    }
  }

  /** Byte i of a stream is its bits from 8 * i on. */
  lemma {:induction false} BitsOfBytes(s: seq<byte>, i: nat)
    requires i < |s|
    ensures BytesToBits(s)[8 * i..8 * i + 8] == ToBits(s[i], 8)
    decreases |s|
  {
    hide ToBits;
    if i < |s| - 1 {
      BitsOfBytes(s[..|s| - 1], i);
    }
  }

  // The mapping table.

  /** The groups from `from` up to `to` that have a used byte. */
  ghost function UsedGroups(inUse: UseMap, from: nat, to: nat): set<nat>
    requires to <= 16
  {
    set g: nat | from <= g < to && exists c :: 16 * g <= c < 16 * g + 16 && inUse[c]
  }

  lemma GroupsNext(inUse: UseMap, from: nat, to: nat)
    requires from < to <= 16
    ensures |UsedGroups(inUse, from, to)| == (if GroupUsed(inUse, from) then 1 else 0) + |UsedGroups(inUse, from + 1, to)|
  {
    var rest := UsedGroups(inUse, from + 1, to);
    assert UsedGroups(inUse, from, to) == if GroupUsed(inUse, from) then {from} + rest else rest;
  }

  lemma NoGroups(inUse: UseMap, at: nat)
    requires at <= 16
    ensures UsedGroups(inUse, at, at) == {}
  {
  }

  lemma {:induction false} MappingSize(inUse: UseMap, i: nat)
    requires i <= 16
    ensures |MappingFrom(inUse, i)| == 16 * |UsedGroups(inUse, i, 16)|
    decreases 16 - i
  {
    hide GroupUsed, UsedGroups;
    NoGroups(inUse, 16);
    if i < 16 {
      GroupsNext(inUse, i, 16);
      MappingSize(inUse, i + 1);
    }
  }

  lemma {:induction false} MappingPlace(inUse: UseMap, i: nat, g: nat, r: nat)
    requires i <= g < 16 && r < 16 && GroupUsed(inUse, g)
    ensures 16 * |UsedGroups(inUse, i, g)| + r < |MappingFrom(inUse, i)|
    ensures MappingFrom(inUse, i)[16 * |UsedGroups(inUse, i, g)| + r] == inUse[16 * g + r]
    decreases 16 - i
  {
    hide GroupUsed, UsedGroups, MappingFrom;
    NoGroups(inUse, i);
    MappingStep(inUse, i);
    if i < g {
      GroupsNext(inUse, i, g);
      MappingPlace(inUse, i + 1, g, r);
    }
  }

  lemma MappingStep(inUse: UseMap, i: nat)
    requires i < 16
    ensures MappingFrom(inUse, i) == (if GroupUsed(inUse, i) then inUse[16 * i..16 * (i + 1)] else []) + MappingFrom(inUse, i + 1)
  {
    hide GroupUsed;
  }

  /**
   * The mapping table: sixteen bits for the groups of sixteen bytes that have a used byte, and then for each such group
   * sixteen bits for its bytes.
   */
  lemma MappingLaw(inUse: UseMap, c: nat)
    requires c < 256
    ensures |MappingBits(inUse)| == 16 + 16 * |UsedGroups(inUse, 0, 16)|
    ensures MappingBits(inUse)[c / 16] <==> exists k :: 16 * (c / 16) <= k < 16 * (c / 16) + 16 && inUse[k]
    ensures MappingBits(inUse)[c / 16] ==> 16 + 16 * |UsedGroups(inUse, 0, c / 16)| + c % 16 < |MappingBits(inUse)|
    ensures if MappingBits(inUse)[c / 16] then MappingBits(inUse)[16 + 16 * |UsedGroups(inUse, 0, c / 16)| + c % 16] == inUse[c] else !inUse[c]
  {
    hide MappingFrom, UsedGroups;
    MappingSize(inUse, 0);
    if GroupUsed(inUse, c / 16) {
      MappingPlace(inUse, 0, c / 16, c % 16);
    }
  }

  // The selectors.

  /** A number is written as that many ones and a zero. */
  lemma {:induction false} UnaryLaw(j: nat)
    ensures |Unary(j)| == j + 1 && !Unary(j)[j] && forall i :: 0 <= i < j ==> Unary(j)[i]
    decreases j
  {
    if j > 0 {
      UnaryLaw(j - 1);
    }
  }

  ghost predicate Distinct(s: seq<int>) {
    forall a, b :: 0 <= a < b < |s| ==> s[a] != s[b]
  }

  ghost predicate Precedes(s: seq<int>, t: int, x: int) {
    exists a, b :: 0 <= a < b < |s| && s[a] == t && s[b] == x
  }

  /** Before position i of sel, t was used after the last use of x, or neither was used and t comes before x in pos. */
  ghost predicate MoreRecent(pos: seq<int>, sel: seq<int>, i: nat, t: int, x: int)
    requires i <= |sel|
  {
    || (exists j :: 0 <= j < i && sel[j] == t && x !in sel[j..i])
    || (t !in sel[..i] && x !in sel[..i] && Precedes(pos, t, x))
  }

  lemma FrontDistinct(pos: seq<int>, k: nat)
    requires Distinct(pos) && k < |pos|
    ensures Distinct(ToFront(pos, k))
  {
  }

  /** Moving x to the front leaves the order of the others alone. */
  lemma FrontOrder(pos: seq<int>, k: nat, t: int, x: int)
    requires Distinct(pos) && k < |pos| && t in pos && x in pos && t != x
    ensures Precedes(ToFront(pos, k), t, x) <==> t == pos[k] || (x != pos[k] && Precedes(pos, t, x))
  {
    var r := ToFront(pos, k);
    var a :| 0 <= a < |pos| && pos[a] == t;
    var b :| 0 <= b < |pos| && pos[b] == x;
    var a2, b2 := Place(a, k), Place(b, k);
    assert r[a2] == t && r[b2] == x;
    FrontDistinct(pos, k);
    OrderIs(pos, a, b);
    OrderIs(r, a2, b2);
  }

  function Place(a: nat, k: nat): nat {
    if a == k then 0 else if a < k then a + 1 else a
  }

  lemma OrderIs(s: seq<int>, a: nat, b: nat)
    requires Distinct(s) && a < |s| && b < |s|
    ensures Precedes(s, s[a], s[b]) <==> a < b
  {
  }

  /** What is more recent in the rest of sel, with the list as it is then, is more recent in all of sel. */
  lemma RecentNext(pos: seq<int>, sel: seq<int>, i: nat, t: int, x: int, k: nat)
    requires Distinct(pos) && 0 < i <= |sel| && k < |pos| && pos[k] == sel[0] && t in pos && x in pos && t != x
    ensures MoreRecent(pos, sel, i, t, x) <==> MoreRecent(ToFront(pos, k), sel[1..], i - 1, t, x)
  {
    hide Distinct, Precedes;
    var rest := sel[1..];
    FrontOrder(pos, k, t, x);
    assert sel[..i] == [sel[0]] + rest[..i - 1];
    if MoreRecent(pos, sel, i, t, x) {
      RecentLeft(pos, sel, i, t, x, k);
    }
    if MoreRecent(ToFront(pos, k), rest, i - 1, t, x) {
      if j :| 0 <= j < i - 1 && rest[j] == t && x !in rest[j..i - 1] {
        assert sel[j + 1] == t && sel[j + 1..i] == rest[j..i - 1];
      } else if t == sel[0] {
        assert sel[0..i] == sel[..i];
      }
    }
  }

  lemma RecentLeft(pos: seq<int>, sel: seq<int>, i: nat, t: int, x: int, k: nat)
    requires 0 < i <= |sel| && k < |pos| && pos[k] == sel[0] && t != x && MoreRecent(pos, sel, i, t, x)
    requires Precedes(ToFront(pos, k), t, x) <==> t == pos[k] || (x != pos[k] && Precedes(pos, t, x))
    ensures MoreRecent(ToFront(pos, k), sel[1..], i - 1, t, x)
  {
    hide Precedes;
    var rest := sel[1..];
    assert sel[..i] == [sel[0]] + rest[..i - 1];
    if j :| 0 <= j < i && sel[j] == t && x !in sel[j..i] {
      if j > 0 {
        assert rest[j - 1] == t && rest[j - 1..i - 1] == sel[j..i];
      } else {
        assert sel[0..i] == sel[..i];
        if j2 :| 0 <= j2 < i - 1 && rest[j2] == t {
          Tail(rest[..i - 1], x, j2);
          assert rest[..i - 1][j2..] == rest[j2..i - 1];
        }
      }
    }
  }

  lemma Tail(s: seq<int>, x: int, j: nat)
    requires x !in s && j <= |s|
    ensures x !in s[j..]
  {
    forall e | e in s[j..] ensures e in s {
    }
  }

  ghost function Elems(s: seq<int>): set<int> {
    set t | t in s
  }

  lemma PrefixIn(s: seq<int>, k: nat, t: int)
    requires k <= |s|
    ensures t in Elems(s[..k]) <==> exists j :: 0 <= j < k && s[j] == t
  {
    if t in s[..k] {
      var j :| 0 <= j < |s[..k]| && s[..k][j] == t;
      assert s[j] == t;
    }
    if j :| 0 <= j < k && s[j] == t {
      assert s[..k][j] == t;
    }
  }

  lemma PrefixNext(s: seq<int>, k: nat)
    requires Distinct(s) && 0 < k <= |s|
    ensures Elems(s[..k]) == Elems(s[..k - 1]) + {s[k - 1]} && s[k - 1] !in Elems(s[..k - 1])
  {
    hide Elems;
    forall t ensures t in Elems(s[..k]) <==> t in Elems(s[..k - 1]) || t == s[k - 1] {
      PrefixIn(s, k, t);
      PrefixIn(s, k - 1, t);
    }
    PrefixIn(s, k - 1, s[k - 1]);
  }

  /** The first k of distinct numbers are k numbers. */
  lemma {:induction false} PrefixCount(s: seq<int>, k: nat)
    requires Distinct(s) && k <= |s|
    ensures |Elems(s[..k])| == k
    decreases k
  {
    hide Distinct;
    if k > 0 {
      hide Elems;
      PrefixCount(s, k - 1);
      PrefixNext(s, k);
    } else {
      assert Elems(s[..0]) == {};
    }
  }

  /**
   * What a move-to-front number counts: the others that were used since the last use of what it stands for, or, when
   * that was not used before, those used so far and those before it in the list.
   */
  lemma {:induction false} RecencyLaw(pos: seq<int>, sel: seq<int>, i: nat)
    requires Distinct(pos) && i < |sel| && forall j :: 0 <= j < |sel| ==> sel[j] in pos
    ensures SelectorMtf(pos, sel)[i] == |set t {:trigger MoreRecent(pos, sel, i, t, sel[i])} | t in pos && t != sel[i] && MoreRecent(pos, sel, i, t, sel[i])|
    decreases i
  {
    hide Distinct, Precedes, MoreRecent, ToFront;
    var x, k := sel[i], IndexOf(pos, sel[0]);
    if i == 0 {
      RecentStart(pos, sel, x, k);
    } else {
      var pos2, rest := ToFront(pos, k), sel[1..];
      FrontDistinct(pos, k);
      forall j | 0 <= j < |rest| ensures rest[j] in pos2 {
        ToFrontElems(pos, k, rest[j]);
      }
      RecencyLaw(pos2, rest, i - 1);
      forall t ensures (t in pos && t != x && MoreRecent(pos, sel, i, t, x)) <==> (t in pos2 && t != x && MoreRecent(pos2, rest, i - 1, t, x)) {
        ToFrontElems(pos, k, t);
        if t in pos && t != x {
          RecentNext(pos, sel, i, t, x, k);
        }
      }
      assert (set t | t in pos && t != x && MoreRecent(pos, sel, i, t, x)) == (set t | t in pos2 && t != x && MoreRecent(pos2, rest, i - 1, t, x));
    }
  }

  lemma RecentStart(pos: seq<int>, sel: seq<int>, x: int, k: nat)
    requires Distinct(pos) && k < |pos| && pos[k] == x
    ensures |set t | t in pos && t != x && MoreRecent(pos, sel, 0, t, x)| == k
  {
    forall t ensures (t in pos && t != x && MoreRecent(pos, sel, 0, t, x)) <==> t in pos[..k] {
      if t in pos {
        var a :| 0 <= a < |pos| && pos[a] == t;
        OrderIs(pos, a, k);
      }
    }
    PrefixCount(pos, k);
    assert (set t | t in pos && t != x && MoreRecent(pos, sel, 0, t, x)) == Elems(pos[..k]);
  }

  // The coding tables.

  /** Every step of a length is two bits: a one, and then whether the length gets less. */
  lemma {:induction false} MovesLaw(curr: int, to: int)
    ensures |Moves(curr, to)| == 2 * if curr < to then to - curr else curr - to
    ensures forall i :: 0 <= i < |Moves(curr, to)| ==> Moves(curr, to)[i] == (i % 2 == 0 || to < curr)
    decreases if curr < to then to - curr else curr - to
  {
    if curr < to {
      MovesLaw(curr + 1, to);
      MovesNext([true, false], Moves(curr + 1, to), false);
    } else if curr > to {
      MovesLaw(curr - 1, to);
      MovesNext([true, true], Moves(curr - 1, to), true);
    }
  }

  lemma MovesNext(two: Bits, rest: Bits, less: bool)
    requires two == [true, less] && forall i :: 0 <= i < |rest| ==> rest[i] == (i % 2 == 0 || (less && rest != []))
    ensures forall i :: 0 <= i < |two + rest| ==> (two + rest)[i] == (i % 2 == 0 || less)
  {
    forall i | 0 <= i < |two + rest| ensures (two + rest)[i] == (i % 2 == 0 || less) {
      if i >= 2 {
        assert (two + rest)[i] == rest[i - 2];
      }
    }
  }

  // The codes.

  /** The shares of the symbols below i whose codes are shorter than n bits, or as long and of a symbol before s. */
  function Ahead(len: seq<int>, n: nat, s: nat, d: nat, i: nat): nat
    requires i <= |len|
  {
    if i == 0 then 0
    else
      Ahead(len, n, s, d, i - 1)
      + if 0 <= len[i - 1] <= d && (len[i - 1] < n || (len[i - 1] == n && i - 1 < s)) then Pow2(d - len[i - 1]) else 0
  }

  lemma {:induction false} AheadLonger(len: seq<int>, n: nat, d: nat, i: nat)
    requires i <= |len| && n <= d
    ensures Ahead(len, n + 1, 0, d, i) == Ahead(len, n, 0, d, i) + CountTo(len, n, i) * Pow2(d - n)
    decreases i
  {
    if i > 0 {
      AheadLonger(len, n, d, i - 1);
      MulDistributes(CountTo(len, n, i - 1), 1, Pow2(d - n));
    }
  }

  lemma {:induction false} AheadSame(len: seq<int>, n: nat, s: nat, d: nat, i: nat)
    requires i <= |len| && n <= d && s <= |len|
    ensures Ahead(len, n, s, d, i) == Ahead(len, n, 0, d, i) + CountTo(len, n, if i < s then i else s) * Pow2(d - n)
    decreases i
  {
    if i > 0 {
      AheadSame(len, n, s, d, i - 1);
      MulDistributes(CountTo(len, n, i - 1), 1, Pow2(d - n));
    }
  }

  lemma {:induction false} AheadNone(len: seq<int>, d: nat, i: nat)
    requires i <= |len|
    ensures Ahead(len, 0, 0, d, i) == 0
    decreases i
  {
    if i > 0 {
      AheadNone(len, d, i - 1);
    }
  }

  lemma {:induction false} FirstPlace(len: seq<int>, n: nat, d: nat)
    requires n <= d
    ensures First(len, n) * Pow2(d - n) == Ahead(len, n, 0, d, |len|)
    decreases n
  {
    hide *;
    FirstStep(len, n, d);
    if n == 0 {
      AheadNone(len, d, |len|);
    } else {
      FirstPlace(len, n - 1, d);
      AheadLonger(len, n - 1, d, |len|);
      TwiceBoth(First(len, n - 1), CountTo(len, n - 1, |len|), Pow2(d - n));
    }
  }

  lemma FirstStep(len: seq<int>, n: nat, d: nat)
    requires n <= d
    ensures n == 0 ==> First(len, n) == 0
    ensures n > 0 ==> First(len, n) == 2 * (First(len, n - 1) + CountTo(len, n - 1, |len|)) && Pow2(d - (n - 1)) == 2 * Pow2(d - n)
  {
    hide CountTo;
  }

  lemma TwiceBoth(f: nat, c: nat, p: nat)
    ensures (2 * (f + c)) * p == f * (2 * p) + c * (2 * p)
  {
    MulDistributes(f, c, 2 * p);
    DoubleProduct(f + c, p);
  }

  /**
   * Which code a symbol has: read as a fraction, it is the sum of the shares of all symbols with shorter codes and of
   * those before it with codes as long.
   */
  lemma CodeLaw(len: seq<int>, s: nat, d: nat)
    requires s < |len| && 0 <= len[s] <= d
    ensures Code(len, s) * Pow2(d - len[s]) == Ahead(len, len[s], s, d, |len|)
  {
    hide First, CountTo, Ahead;
    FirstPlace(len, len[s], d);
    AheadSame(len, len[s], s, d, |len|);
    MulDistributes(First(len, len[s]), CountTo(len, len[s], s), Pow2(d - len[s]));
  }

  /** Fifty symbols after one another are in the code of one table. */
  lemma DataLaw(lens: seq<seq<int>>, alphaSize: nat, sel: seq<int>, mtfv: seq<int>, k: nat)
    requires k < |mtfv| && Codable(lens, alphaSize, sel, mtfv)
    ensures k / 50 < |sel| && 0 <= sel[k / 50] < |lens| && mtfv[k] < |lens[sel[k / 50]]| && 1 <= lens[sel[k / 50]][mtfv[k]] <= 20
    ensures var len := lens[sel[k / 50]];
            DataFrom(lens, alphaSize, sel, mtfv, k) == ToBits(Code(len, mtfv[k]), len[mtfv[k]]) + DataFrom(lens, alphaSize, sel, mtfv, k + 1)
  {
    hide ToBits, Code;
    var t := sel[k / 50];
    assert |lens[t]| == alphaSize && Lens(lens[t]);
  }

  // The symbols.

  /** What the digits of a run of zeros add up to: one or two, doubled with every place. */
  function RunSum(digits: seq<int>): int {
    if digits == [] then 0 else digits[0] + 1 + 2 * RunSum(digits[1..])
  }

  /** A run of zeros is written in the digits 0 and 1 that count for one and two, the lowest place first. */
  lemma {:induction false} RunLaw(p: nat)
    ensures RunSum(ZeroRun(p)) == p + 1 && forall x :: x in ZeroRun(p) ==> x == 0 || x == 1
    decreases p
  {
    var d := if p % 2 == 1 then 1 else 0;
    if p < 2 {
      assert ZeroRun(p) == [d] && [d][1..] == [];
    } else {
      RunLaw((p - 2) / 2);
      assert ZeroRun(p)[1..] == ZeroRun((p - 2) / 2);
    }
  }

  /** Numbers with their runs of zeros written in digits, and one more in the place of every other number. */
  ghost function RunCoded(m: seq<int>, z: nat): seq<int>
    decreases |m|
  {
    if m == [] then Flush(z)
    else if m[0] == 0 then RunCoded(m[1..], z + 1)
    else Flush(z) + [m[0] + 1] + RunCoded(m[1..], 0)
  }

  /** A column's symbols are its move-to-front numbers with their runs of zeros coded. */
  lemma {:induction false} SymbolsLaw(l: seq<int>, list: seq<int>, z: nat)
    requires |list| >= 1 && forall i :: 0 <= i < |l| ==> l[i] in list
    ensures EncodeFrom(l, list, z) == RunCoded(SelectorMtf(list, l), z)
    decreases |l|
  {
    hide Flush, ToFront, IndexOf, EncodeFrom;
    EncodeFromIs(l, list, z);
    if l != [] {
      FrontIs(list, l[0]);
      forall i | 0 <= i < |l| ensures l[i] in ToFront(list, IndexOf(list, l[0])) {
        ToFrontElems(list, IndexOf(list, l[0]), l[i]);
      }
      PositionsNext(list, l);
      SymbolsLaw(l[1..], ToFront(list, IndexOf(list, l[0])), if list[0] == l[0] then z + 1 else 0);
    }
  }

  lemma PositionsNext(list: seq<int>, l: seq<int>)
    requires l != [] && forall i :: 0 <= i < |l| ==> l[i] in list
    requires forall i :: 0 <= i < |l| ==> l[i] in ToFront(list, IndexOf(list, l[0]))
    ensures SelectorMtf(list, l) == [IndexOf(list, l[0]) as int] + SelectorMtf(ToFront(list, IndexOf(list, l[0])), l[1..])
    ensures SelectorMtf(list, l)[1..] == SelectorMtf(ToFront(list, IndexOf(list, l[0])), l[1..])
  {
    hide ToFront, IndexOf;
  }

  lemma FrontIs(list: seq<int>, x: int)
    requires list != [] && x in list
    ensures IndexOf(list, x) == 0 <==> list[0] == x
    ensures list[0] == x ==> ToFront(list, IndexOf(list, x)) == list
  {
    if list[0] == x {
      assert [list[0]] + list[..0] + list[1..] == list;
    }
  }
}
