// The decompressor's symbol stage: one symbol at a time it rebuilds the last
// column, using the windowed list and counting characters for the inverse
// transform.
module SymbolStage {
  import opened Words
  import opened RunLength
  import opened Counting
  import opened Mtf
  import opened MtfCache

  datatype Verdict = GoOn | EndOfBlock | Corrupt

  class ColumnBuilder {
    const cache: Cache
    const store: array<int>    // tt, or ll16 when memory is to be saved
    const unzftab: array<int>
    const p: Params
    var nblock: nat
    var inRun: bool
    var es: int
    var n: nat
    ghost var core: Core

    ghost predicate Shape() {
      && store != unzftab && store != cache.mtfbase && unzftab != cache.mtfbase && unzftab.Length == 256
      && p.nblockMAX <= store.Length
    }

    /** The characters counted so far. */
    ghost predicate Counted()
      reads this`core, unzftab
      requires unzftab.Length == 256
    {
      forall c: nat :: c < 256 ==> unzftab[c] == Count(core.tt, c)
    }

    ghost predicate Stored()
      reads this`core, this`nblock, store
    {
      && |core.tt| == nblock <= store.Length && (forall k :: 0 <= k < nblock ==> store[k] == core.tt[k] as int)
      && forall k :: 0 <= k < store.Length ==> 0 <= store[k] < 0x1_0000
    }

    ghost predicate Listed()
      reads this`core, cache, cache.mtfa, cache.mtfbase
    {
      cache.Valid() && cache.List() == core.list
    }

    ghost predicate Valid()
      reads this, cache, cache.mtfa, cache.mtfbase, store, unzftab
    {
      && Shape() && ValidCore(core, p) && Listed() && Stored() && Counted() && nblock <= p.nblockMAX
      && core.cont == (if inRun then InRun(es, n) else Fresh)
    }

    constructor (store: array<int>, p: Params)
      requires 2 <= p.eob <= 257 && |p.seqToUnseq| == 256 && p.nblockMAX <= store.Length
      requires forall k :: 0 <= k < store.Length ==> 0 <= store[k] < 0x1_0000
      ensures Valid() && this.store == store && this.p == p && core == Core(Iota(256), [], Fresh)
      ensures fresh(cache) && fresh(cache.mtfa) && fresh(cache.mtfbase) && fresh(unzftab)
    {
      hide Count;
      this.store, this.p := store, p;
      unzftab := new int[256];
      cache := new Cache();
      nblock, inRun, es, n := 0, false, 0, 0;
      core := Core(Iota(256), [], Fresh);
      new;
      assert cache.List() == Iota(256);
      for i := 0 to 256
        invariant forall c :: 0 <= c < i ==> unzftab[c] == 0
        invariant Listed() && nblock == 0 && !inRun && core == Core(Iota(256), [], Fresh)
      {
        unzftab[i] := 0;
      }
      NoneCounted();
    }

    /** Writes one character of the column. */
    method Append(c: byte)
      requires Shape() && Stored() && Counted() && nblock < p.nblockMAX
      modifies this`nblock, this`core, store, unzftab
      ensures Stored() && Counted() && core == old(core).(tt := old(core).tt + [c]) && nblock == old(nblock) + 1
    {
      hide Count;
      CountAppend(core.tt, c);
      unzftab[c] := unzftab[c] + 1;
      store[nblock] := c;
      nblock := nblock + 1;
      core := core.(tt := core.tt + [c]);
    }

    /** Writes the zeros of a run that has ended. */
    method EndRun() returns (ok: bool)
      requires Valid() && inRun
      modifies this`nblock, this`core, this`inRun, this`es, store, unzftab
      ensures ok == !(old(es) + 1 > 0 && |old(core).tt| + (old(es) + 1) > p.nblockMAX)
      ensures ok ==> Valid() && !inRun
      ensures ok ==> core == Core(old(core).list, old(core).tt + Repeat(p.seqToUnseq[old(core).list[0]], if old(es) + 1 > 0 then old(es) + 1 else 0), Fresh)
    {
      hide Count, Cache.Valid, Cache.List;
      ghost var tt0, list := core.tt, core.list;
      es := es + 1;
      var front := cache.Front();
      var uc := p.seqToUnseq[front];
      ghost var total := if es > 0 then es else 0;
      core := core.(cont := Fresh);
      inRun := false;
      assert tt0 + Repeat(uc, 0) == tt0;
      while es > 0
        invariant es <= total && total - (if es > 0 then es else 0) >= 0
        invariant Shape() && Stored() && Counted() && Listed() && nblock <= p.nblockMAX && !inRun
        invariant core == Core(list, tt0 + Repeat(uc, total - (if es > 0 then es else 0)), Fresh)
        decreases es
      {
        if nblock >= p.nblockMAX {
          return false;
        }
        RepeatMore(tt0, uc, total - es);
        Append(uc);
        es := es - 1;
      }
      ok := true;
    }

    method RunDigit(sym: int) returns (ok: bool)
      requires Valid() && (sym == RUNA || sym == RUNB)
      modifies this`core, this`inRun, this`es, this`n
      ensures if ok then Valid() && RunSymbol(old(core), if old(inRun) then old(es) else -1, if old(inRun) then old(n) else 1, sym) == More(core)
              else RunSymbol(old(core), if old(inRun) then old(es) else -1, if old(inRun) then old(n) else 1, sym) == Bad
    {
      hide Count, Cache.Valid, Cache.List;
      if !inRun {
        es, n := -1, 1;
      }
      if n >= 2 * 1024 * 1024 {
        return false;
      }
      es := if sym == RUNA then es + (0 + 1) * n else es + (1 + 1) * n;
      n := n * 2;
      inRun := true;
      core := core.(cont := InRun(es, n));
      ok := true;
    }

    lemma StoredLength()
      requires Stored()
      ensures |core.tt| == nblock
    {
    }

    /** Takes entry nn of the list and moves it to the front. */
    method MoveUsed(nn: nat) returns (uc: byte)
      requires Shape() && Listed() && Stored() && Counted() && nn < 256 == |core.list|
      modifies this`core, cache.mtfa, cache.mtfbase
      ensures Listed() && Stored() && Counted() && uc as int == old(core).list[nn]
      ensures core == old(core).(list := ToFront(old(core).list, nn))
    {
      hide Count, Cache.Valid, Cache.List, ToFront;
      uc := cache.Fetch(nn);
      core := core.(list := ToFront(core.list, nn));
    }

    method Literal(sym: int) returns (ok: bool)
      requires Valid() && !inRun && RUNB < sym < p.eob
      modifies this`nblock, this`core, store, unzftab, cache.mtfa, cache.mtfbase
      ensures if ok then Valid() && Dispatch(old(core), p, sym) == More(core) else Dispatch(old(core), p, sym) == Bad
    {
      hide Count, Cache.Valid, Cache.List, ToFront, ColumnBuilder.Stored, ColumnBuilder.Counted;
      StoredLength();
      if nblock >= p.nblockMAX {
        return false;
      }
      var uc := MoveUsed(sym - 1);
      Append(p.seqToUnseq[uc]);
      ok := true;
    }

    /** Reacts to one symbol. */
    method OnSymbol(sym: int) returns (v: Verdict)
      requires Valid() && 0 <= sym <= p.eob
      modifies this, store, unzftab, cache.mtfa, cache.mtfbase
      ensures match Mtf.OnSymbol(old(core), p, sym)
              case More(c) => v == GoOn && Valid() && core == c
              case Done(c) => v == EndOfBlock && Valid() && core == c
              case Bad => v == Corrupt
    {
      hide ColumnBuilder.Valid, Dispatch, RunSymbol;
      CoreFacts();
      if sym == RUNA || sym == RUNB {
        RunMeans(core, p, sym);
        var ok := RunDigit(sym);
        return if ok then GoOn else Corrupt;
      }
      if inRun {
        var ok := EndRun();
        if !ok {
          return Corrupt;
        }
        CoreFacts();
      }
      OtherMeans(core, p, sym);
      if sym == p.eob {
        return EndOfBlock;
      }
      var ok := Literal(sym);
      v := if ok then GoOn else Corrupt;
    }

    lemma CoreFacts()
      requires Valid()
      ensures ValidCore(core, p) && core.cont == (if inRun then InRun(es, n) else Fresh)
    {
    }
  }

  lemma RunMeans(core: Core, p: Params, sym: int)
    requires ValidCore(core, p) && (sym == RUNA || sym == RUNB)
    ensures Mtf.OnSymbol(core, p, sym) == RunSymbol(core, if core.cont.InRun? then core.cont.es else -1, if core.cont.InRun? then core.cont.n else 1, sym)
  {
  }

  lemma OtherMeans(core: Core, p: Params, sym: int)
    requires ValidCore(core, p) && RUNB < sym <= p.eob && core.cont.Fresh?
    ensures Dispatch(core, p, p.eob) == Done(core)
    ensures Mtf.OnSymbol(core, p, sym) == Dispatch(core, p, sym)
  {
  }

  lemma NoneCounted()
    ensures forall c :: Count([], c) == 0
  {
  }

  lemma CountAppend(s: seq<byte>, c: byte)
    ensures forall x {:trigger Count(s + [c], x)} :: Count(s + [c], x) == Count(s, x) + if x == c as int then 1 else 0
  {
    forall x ensures Count(s + [c], x) == Count(s, x) + if x == c as int then 1 else 0 {
      CountPrefix(s + [c], |s|, x);
      assert (s + [c])[..|s|] == s && (s + [c])[..|s| + 1] == s + [c];
    }
  }

  lemma RepeatMore(s: seq<byte>, c: byte, k: nat)
    ensures s + Repeat(c, k) + [c] == s + Repeat(c, k + 1)
  {
    assert Repeat(c, k) + [c] == Repeat(c, k + 1);
  }
}
