// The run-length layer around the block transform: runs of 4 to 255 equal
// bytes are stored as four bytes and a count.
module RunLength {
  import opened Words

  datatype Run = Run(ch: byte, len: nat)

  function Repeat(ch: byte, n: nat): (s: seq<byte>)
    ensures |s| == n && forall i :: 0 <= i < n ==> s[i] == ch
  {
    seq(n, _ => ch)
  }

  /** How one run is stored in a block. */
  function EncodeRun(r: Run): (s: seq<byte>)
    requires 1 <= r.len <= 255
    ensures 1 <= |s| <= 5
  {
    if r.len < 4 then Repeat(r.ch, r.len) else [r.ch, r.ch, r.ch, r.ch, r.len - 4]
  }

  /** Runs as the compressor forms them: equal neighbours only after a run of the maximal length. */
  ghost predicate WellFormed(runs: seq<Run>) {
    && (forall i :: 0 <= i < |runs| ==> 1 <= runs[i].len <= 255)
    && (forall i {:trigger runs[i]} :: 0 <= i < |runs| - 1 ==> runs[i].ch != runs[i + 1].ch || runs[i].len == 255)
  }

  ghost function Encode(runs: seq<Run>): seq<byte>
    requires WellFormed(runs)
  {
    if runs == [] then [] else EncodeRun(runs[0]) + Encode(runs[1..])
  }

  /** The bytes a sequence of runs stands for. */
  ghost function Expand(runs: seq<Run>): seq<byte> {
    if runs == [] then [] else Repeat(runs[0].ch, runs[0].len) + Expand(runs[1..])
  }

  /** What the decoder makes of a block: the bytes it emits and whether it then reports corruption. */
  datatype Unpacked = Unpacked(bytes: seq<byte>, corrupt: bool)

  function Prepend(s: seq<byte>, u: Unpacked): Unpacked {
    Unpacked(s + u.bytes, u.corrupt)
  }

  /** Length of the run of equal characters at the front, up to 4. */
  function RunHead(b: seq<byte>): (k: nat)
    requires |b| > 0
    ensures 1 <= k <= 4 && k <= |b|
    ensures forall i :: 0 <= i < k ==> b[i] == b[0]
    ensures k < 4 && k < |b| ==> b[k] != b[0]
  {
    if |b| < 2 || b[1] != b[0] then 1
    else if |b| < 3 || b[2] != b[0] then 2
    else if |b| < 4 || b[3] != b[0] then 3 else 4
  }

  /**
   * Undoes the run-length layer. `beyond` is the character the decoder would read after the
   * last one of the block; it only matters for a block that ends where a count is due.
   */
  function Unpack(b: seq<byte>, beyond: byte): (u: Unpacked) {
    if b == [] then Unpacked([], false)
    else
      var k := RunHead(b);
      if k < 4 then Prepend(Repeat(b[0], k), Unpack(b[k..], beyond))
      else if |b| == 4 then Unpacked(Repeat(b[0], beyond as nat + 4), true)
      else Prepend(Repeat(b[0], b[4] as nat + 4), Unpack(b[5..], beyond))
  }

  lemma HeadFew(b: seq<byte>, k: nat)
    requires 1 <= k <= 3 && k <= |b| && (forall i :: 0 <= i < k ==> b[i] == b[0]) && (k == |b| || b[k] != b[0])
    ensures RunHead(b) == k
  {
  }

  lemma UnpackFew(c: byte, k: nat, rest: seq<byte>, beyond: byte)
    requires 1 <= k <= 3 && (rest == [] || rest[0] != c)
    ensures Unpack(Repeat(c, k) + rest, beyond) == Prepend(Repeat(c, k), Unpack(rest, beyond))
  {
    hide RunHead, Repeat, Prepend;
    var b := Repeat(c, k) + rest;
    HeadFew(b, k);
    assert b[k..] == rest && b[0] == c;
  }

  lemma HeadFour(b: seq<byte>)
    requires |b| >= 4 && b[0] == b[1] == b[2] == b[3]
    ensures RunHead(b) == 4
  {
  }

  lemma UnpackFour(c: byte, n: byte, rest: seq<byte>, beyond: byte)
    ensures Unpack([c, c, c, c, n] + rest, beyond) == Prepend(Repeat(c, n + 4), Unpack(rest, beyond))
  {
    hide RunHead, Repeat, Prepend;
    var b := [c, c, c, c, n] + rest;
    HeadFour(b);
    assert b[5..] == rest && b[4] == n;
  }

  lemma UnpackCut(c: byte, beyond: byte)
    ensures Unpack([c, c, c, c], beyond) == Unpacked(Repeat(c, beyond + 4), true)
  {
    hide RunHead, Repeat, Prepend;
    HeadFour([c, c, c, c]);
  }

  /**
   * Any block, stored by a compressor or not: up to three equal characters stand for themselves, four and any count for
   * that many more, and four at the end of the block for as many more as the character behind it says, and for corruption.
   */
  lemma UnpackAny(c: byte, k: nat, n: byte, rest: seq<byte>, beyond: byte)
    requires 1 <= k <= 3
    ensures rest == [] || rest[0] != c ==>
              Unpack(Repeat(c, k) + rest, beyond) == Prepend(Repeat(c, k), Unpack(rest, beyond))
    ensures Unpack([c, c, c, c, n] + rest, beyond) == Prepend(Repeat(c, n + 4), Unpack(rest, beyond))
    ensures Unpack([c, c, c, c], beyond) == Unpacked(Repeat(c, beyond + 4), true)
  {
    hide *;
    if rest == [] || rest[0] != c {
      UnpackFew(c, k, rest, beyond);
    }
    UnpackFour(c, n, rest, beyond);
    UnpackCut(c, beyond);
  }

  /** Decoding a stored run yields the run and leaves the rest of the block. */
  lemma UnpackRun(r: Run, rest: seq<byte>, beyond: byte)
    requires 1 <= r.len <= 255
    requires r.len == 255 || rest == [] || rest[0] != r.ch
    ensures Unpack(EncodeRun(r) + rest, beyond) == Prepend(Repeat(r.ch, r.len), Unpack(rest, beyond))
  {
    hide Unpack, Repeat, Prepend;
    if r.len < 4 {
      UnpackFew(r.ch, r.len, rest, beyond);
    } else {
      UnpackFour(r.ch, r.len - 4, rest, beyond);
    }
  }

  /** Round trip of the run-length layer for whole blocks. */
  lemma {:induction false} UnpackEncode(runs: seq<Run>, beyond: byte)
    requires WellFormed(runs)
    ensures Unpack(Encode(runs), beyond) == Unpacked(Expand(runs), false)
    decreases |runs|
  {
    if runs != [] {
      var rest := runs[1..];
      UnpackEncode(rest, beyond);
      EncodeFirst(rest);
      assert runs[0].ch == runs[0].ch;
      UnpackRun(runs[0], Encode(rest), beyond);
    }
  }

  lemma EncodeFirst(runs: seq<Run>)
    requires WellFormed(runs)
    ensures runs != [] ==> Encode(runs) != [] && Encode(runs)[0] == runs[0].ch
  {
  }

  lemma {:induction false} EncodeAppend(runs: seq<Run>, r: Run)
    requires WellFormed(runs + [r]) && 1 <= r.len <= 255
    ensures WellFormed(runs)
    ensures Encode(runs + [r]) == Encode(runs) + EncodeRun(r)
    ensures Expand(runs + [r]) == Expand(runs) + Repeat(r.ch, r.len)
    decreases |runs|
  {
    var all := runs + [r];
    forall i | 0 <= i < |runs| ensures runs[i] == all[i] {}
    if runs == [] {
      assert all[1..] == [];
    } else {
      assert all[1..] == runs[1..] + [r];
      EncodeAppend(runs[1..], r);
    }
  }

  lemma WellFormedAppend(runs: seq<Run>, r: Run)
    requires WellFormed(runs) && 1 <= r.len <= 255
    requires runs == [] || runs[|runs| - 1].ch != r.ch || runs[|runs| - 1].len == 255
    ensures WellFormed(runs + [r])
  {
  }

  /** A run is stored as it is up to three bytes, and as four of them and the number of the others from four bytes on. */
  lemma StoredLaw(c: byte, n: nat)
    requires 1 <= n <= 255
    ensures EncodeRun(Run(c, n)) == if n == 1 then [c] else if n == 2 then [c, c] else if n == 3 then [c, c, c] else [c, c, c, c, n - 4]
  {
  }

  lemma FirstRun(runs: seq<Run>, i: nat)
    requires WellFormed(runs) && runs != [] && i < |Expand(runs)|
    ensures 1 <= runs[0].len <= |Expand(runs)|
    ensures i < runs[0].len ==> Expand(runs)[i] == runs[0].ch
    ensures i == runs[0].len < 255 ==> Expand(runs)[i] != runs[0].ch
  {
    var rest := runs[1..];
    if i == runs[0].len {
      assert Expand(rest) != [] && rest != [];
      assert rest[0] == runs[1] && Expand(rest)[0] == rest[0].ch;
      assert runs[0].ch != runs[0 + 1].ch || runs[0].len == 255;
    }
  }

  lemma SameFirst(a: seq<Run>, b: seq<Run>)
    requires WellFormed(a) && WellFormed(b) && a != [] && b != [] && Expand(a) == Expand(b)
    ensures a[0].ch == b[0].ch && a[0].len <= b[0].len
  {
    hide Expand, WellFormed;
    FirstNotEmpty(a);
    FirstNotEmpty(b);
    FirstRun(a, 0);
    FirstRun(b, 0);
    if a[0].len > b[0].len {
      FirstRun(a, b[0].len);
      FirstRun(b, b[0].len);
    }
  }

  lemma FirstNotEmpty(runs: seq<Run>)
    requires WellFormed(runs)
    ensures runs != [] ==> |Expand(runs)| > 0 && 1 <= runs[0].len <= 255
    ensures runs == [] ==> Expand(runs) == []
  {
  }

  /** The runs, and with them what is stored in a block, are determined by its bytes. */
  lemma {:induction false} RunsOnce(a: seq<Run>, b: seq<Run>)
    requires WellFormed(a) && WellFormed(b) && Expand(a) == Expand(b)
    ensures a == b
    decreases |a|
  {
    FirstNotEmpty(a);
    FirstNotEmpty(b);
    if a != [] && b != [] {
      SameFirst(a, b);
      SameFirst(b, a);
      var n := a[0].len;
      assert Expand(a)[n..] == Expand(a[1..]) && Expand(b)[n..] == Expand(b[1..]);
      RunsOnce(a[1..], b[1..]);
      assert a == [a[0]] + a[1..] && b == [b[0]] + b[1..];
    }
  }
}
