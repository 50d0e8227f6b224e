// The bytes a block uses, and their consecutive numbering.
module Alphabet {
  import opened Words

  type UseMap = u: seq<bool> | |u| == 256 witness seq(256, _ => false)

  /** Number of used bytes below c. */
  function Rank(inUse: UseMap, c: nat): (r: nat)
    requires c <= 256
    ensures r <= c
  {
    if c == 0 then 0 else Rank(inUse, c - 1) + if inUse[c - 1] then 1 else 0
  }

  /** The used bytes below c in ascending order. */
  function UsedBelow(inUse: UseMap, c: nat): (s: seq<byte>)
    requires c <= 256
    ensures |s| == Rank(inUse, c)
  {
    if c == 0 then [] else UsedBelow(inUse, c - 1) + if inUse[c - 1] then [c - 1] else []
  }

  lemma {:induction false} RankMonotone(inUse: UseMap, c: nat, d: nat)
    requires c <= d <= 256
    ensures Rank(inUse, c) <= Rank(inUse, d)
    ensures UsedBelow(inUse, c) <= UsedBelow(inUse, d)
    ensures c < d && inUse[c] ==> Rank(inUse, c) < Rank(inUse, d)
    decreases d - c
  {
    if c < d {
      RankMonotone(inUse, c, d - 1);
    }
  }

  /** The numbering and the list of used bytes are inverse to each other. */
  lemma UsedAtRank(inUse: UseMap, c: nat, d: nat)
    requires c < d <= 256 && inUse[c]
    ensures Rank(inUse, c) < Rank(inUse, d)
    ensures UsedBelow(inUse, d)[Rank(inUse, c)] == c
  {
    RankMonotone(inUse, c, d);
    RankMonotone(inUse, c + 1, d);
    assert UsedBelow(inUse, c + 1)[Rank(inUse, c)] == c;
  }

  /** Numbers the used bytes for the compressor. */
  method MakeMapsE(inUse: UseMap) returns (unseqToSeq: array<int>, nInUse: int)
    ensures fresh(unseqToSeq) && unseqToSeq.Length == 256
    ensures nInUse == Rank(inUse, 256)
    ensures forall c: nat :: c < 256 && inUse[c] ==> unseqToSeq[c] == Rank(inUse, c)
  {
    hide Rank;
    RankStep(inUse);
    unseqToSeq := new int[256];
    nInUse := 0;
    for i := 0 to 256
      invariant nInUse == Rank(inUse, i)
      invariant forall c: nat :: c < i && inUse[c] ==> unseqToSeq[c] == Rank(inUse, c)
    {
      if inUse[i] {
        unseqToSeq[i] := nInUse;
        nInUse := nInUse + 1;
      }
    }
  }

  lemma RankStep(inUse: UseMap)
    ensures Rank(inUse, 0) == 0
    ensures forall c: nat {:trigger Rank(inUse, c)} :: c < 256 ==> Rank(inUse, c + 1) == Rank(inUse, c) + if inUse[c] then 1 else 0
  {
  }

  /** Lists the used bytes for the decompressor. */
  method MakeMapsD(inUse: UseMap, seqToUnseq: array<byte>) returns (nInUse: int)
    requires seqToUnseq.Length == 256
    modifies seqToUnseq
    ensures nInUse == Rank(inUse, 256)
    ensures seqToUnseq[..nInUse] == UsedBelow(inUse, 256)
  {
    nInUse := 0;
    for i := 0 to 256
      invariant nInUse == Rank(inUse, i) <= i
      invariant seqToUnseq[..nInUse] == UsedBelow(inUse, i)
    {
      if inUse[i] {
        seqToUnseq[nInUse] := i;
        nInUse := nInUse + 1;
      }
    }
  }

  /** The decoder's table of used bytes; slots past the last used byte are never read. */
  function SeqToUnseq(inUse: UseMap): (s: seq<byte>)
    ensures |s| == 256
  {
    UsedBelow(inUse, 256) + seq(256 - Rank(inUse, 256), _ => 0)
  }

  ghost function UsedSet(inUse: UseMap, c: nat): set<nat>
    requires c <= 256
  {
    set d: nat | d < c && inUse[d]
  }

  /** The number of a byte is the number of used bytes below it. */
  lemma {:induction false} RankLaw(inUse: UseMap, c: nat)
    requires c <= 256
    ensures Rank(inUse, c) == |UsedSet(inUse, c)|
    decreases c
  {
    if c == 0 {
      assert UsedSet(inUse, 0) == {};
    } else {
      RankLaw(inUse, c - 1);
      var below := UsedSet(inUse, c - 1);
      assert UsedSet(inUse, c) == if inUse[c - 1] then below + {c - 1} else below;
    }
  }
}
