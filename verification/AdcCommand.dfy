// ADC command lines: printing a command and reading it back.
module AdcCommand {
  const BROADCAST := 'B'
  const CLIENT := 'C'
  const DIRECT := 'D'
  const ECHO := 'E'
  const FEATURE := 'F'
  const INFO := 'I'
  const HUB := 'H'
  const UDP := 'U'

  /** A session id: the four characters that stand for it in a line. */
  type Sid = s: string | |s| == 4 witness "AAAA"

  type Code = s: string | |s| == 3 witness "INF"

  datatype Error =
    | TooShort | InvalidType | EscapeAtEol | UnknownEscape | InvalidSidLength | InvalidFeatureLength
    | MissingFrom | MissingFeature | MissingTo

  datatype Result<T> = Ok(value: T) | Err(error: Error)

  predicate HasFrom(kind: char) {
    kind == BROADCAST || kind == DIRECT || kind == ECHO || kind == FEATURE
  }

  predicate HasTo(kind: char) {
    kind == DIRECT || kind == ECHO
  }

  predicate ValidType(kind: char) {
    HasFrom(kind) || kind == CLIENT || kind == INFO || kind == HUB || kind == UDP
  }

  /** What has been read of a line: the ids, once they are set, and the parameters. */
  datatype Fields = Fields(from: Sid, to: Sid, fromSet: bool, toSet: bool, featureSet: bool, parameters: seq<string>)

  /** Takes the next word of a line of the given type. */
  function Take(kind: char, f: Fields, word: string): Result<Fields> {
    if HasFrom(kind) && !f.fromSet then
      if |word| != 4 then Err(InvalidSidLength) else Ok(f.(from := word, fromSet := true))
    else if HasTo(kind) && !f.toSet then
      if |word| != 4 then Err(InvalidSidLength) else Ok(f.(to := word, toSet := true))
    else if kind == FEATURE && !f.featureSet then
      if |word| % 5 != 0 then Err(InvalidFeatureLength) else Ok(f.(featureSet := true))
    else Ok(f.(parameters := f.parameters + [word]))
  }

  /** The character that an escaped one stands for. */
  function Unescape(c: char, nmdc: bool): Result<char> {
    if c == 's' then Ok(' ')
    else if c == 'n' then Ok('\n')
    else if c == '\\' then Ok('\\')
    else if c == ' ' && nmdc then Ok(' ')
    else Err(UnknownEscape)
  }

  /** Reads the rest of a line, cur being the beginning of the current word. */
  function Words(kind: char, nmdc: bool, s: string, cur: string, f: Fields): Result<Fields>
    decreases |s|
  {
    if s == [] then
      if cur == [] then Ok(f) else Take(kind, f, cur)
    else if s[0] == '\\' then
      if |s| == 1 then Err(EscapeAtEol)
      else
        var c := Unescape(s[1], nmdc);
        if c.Err? then Err(c.error) else Words(kind, nmdc, s[2..], cur + [c.value], f)
    else if s[0] == ' ' then
      var t := Take(kind, f, cur);
      if t.Err? then t else Words(kind, nmdc, s[1..], [], t.value)
    else Words(kind, nmdc, s[1..], cur + [s[0]], f)
  }

  /** Everything the type asks for has to be there. */
  function Complete(kind: char, f: Fields): Result<Fields> {
    if HasFrom(kind) && !f.fromSet then Err(MissingFrom)
    else if kind == FEATURE && !f.featureSet then Err(MissingFeature)
    else if HasTo(kind) && !f.toSet then Err(MissingTo)
    else Ok(f)
  }

  function Read(kind: char, nmdc: bool, s: string, f: Fields): Result<Fields> {
    var r := Words(kind, nmdc, s, [], f);
    if r.Err? then r else Complete(kind, r.value)
  }

  predicate Special(c: char) {
    c == ' ' || c == '\n' || c == '\\'
  }

  /** Spaces, line ends and backslashes escaped; the old way puts a backslash in front of the character itself. */
  function Escaped(s: string, nmdc: bool): string {
    if s == [] then [] else (if Special(s[0]) then Escape2(s[0], nmdc) else [s[0]]) + Escaped(s[1..], nmdc)
  }

  function Escape2(c: char, nmdc: bool): (e: string)
    ensures |e| == 2
  {
    if nmdc then ['\\', c] else if c == ' ' then "\\s" else if c == '\n' then "\\n" else "\\\\"
  }

  /** Position of the first special character from i on. */
  method FindSpecial(s: string, i: nat) returns (k: int)
    requires i <= |s|
    ensures k == -1 ==> forall j :: i <= j < |s| ==> !Special(s[j])
    ensures k != -1 ==> i <= k < |s| && Special(s[k]) && forall j :: i <= j < k ==> !Special(s[j])
  {
    k := i;
    while k < |s|
      invariant i <= k <= |s| && forall j :: i <= j < k ==> !Special(s[j])
    {
      if Special(s[k]) {
        return;
      }
      k := k + 1;
    }
    k := -1;
  }

  lemma {:induction false} EscapedPlain(s: string, k: nat, nmdc: bool)
    requires k <= |s| && forall j :: 0 <= j < k ==> !Special(s[j])
    ensures Escaped(s, nmdc) == s[..k] + Escaped(s[k..], nmdc)
    decreases k
  {
    if k > 0 {
      EscapedPlain(s[1..], k - 1, nmdc);
      assert s[1..][k - 1..] == s[k..] && s[..k] == [s[0]] + s[1..][..k - 1];
    } else {
      assert s[0..] == s;
    }
  }

  lemma EscapeStep(tmp: string, i: nat, k: nat, nmdc: bool)
    requires i <= k < |tmp| && Special(tmp[k]) && forall j :: i <= j < k ==> !Special(tmp[j])
    ensures tmp[..i] + Escaped(tmp[i..], nmdc) == tmp[..k] + Escape2(tmp[k], nmdc) + Escaped(tmp[k + 1..], nmdc)
  {
    var rest := tmp[i..];
    EscapedPlain(rest, k - i, nmdc);
    assert rest[k - i..] == tmp[k..] && rest[..k - i] == tmp[i..k];
    assert tmp[k..][1..] == tmp[k + 1..];
    assert tmp[..i] + tmp[i..k] == tmp[..k];
    var e, t := Escape2(tmp[k], nmdc), Escaped(tmp[k + 1..], nmdc);
    assert Escaped(tmp[k..], nmdc) == e + t;
    Regroup(tmp[..i], tmp[i..k], e, t);
  }

  lemma Regroup(a: string, b: string, c: string, d: string)
    ensures a + (b + (c + d)) == (a + b) + c + d
  {
    hide *;
  }

  method Escape(str: string, nmdc: bool) returns (tmp: string)
    ensures tmp == Escaped(str, nmdc)
  {
    hide Escaped, Escape2, Special;
    tmp := str;
    var i := 0;
    assert tmp[0..] == tmp && tmp[..0] + Escaped(tmp, nmdc) == Escaped(tmp, nmdc);
    var k := FindSpecial(tmp, i);
    while k != -1
      invariant 0 <= i <= |tmp|
      invariant k == -1 ==> forall j :: i <= j < |tmp| ==> !Special(tmp[j])
      invariant k != -1 ==> i <= k < |tmp| && Special(tmp[k]) && forall j :: i <= j < k ==> !Special(tmp[j])
      invariant tmp[..i] + Escaped(tmp[i..], nmdc) == Escaped(str, nmdc)
      decreases |tmp| - i
    {
      EscapeStep(tmp, i, k, nmdc);
      var front, rest := tmp[..k] + Escape2(tmp[k], nmdc), tmp[k + 1..];
      tmp := front + rest;
      i := k + 2;
      assert tmp[..i] == front && tmp[i..] == rest;
      k := FindSpecial(tmp, i);
    }
    AllPlain(tmp, i, nmdc);
  }

  lemma {:induction false} EscapedAppend(a: string, b: string, nmdc: bool)
    ensures Escaped(a + b, nmdc) == Escaped(a, nmdc) + Escaped(b, nmdc)
    decreases |a|
  {
    hide Escape2, Special;
    if a == "" {
      assert a + b == b;
    } else {
      EscapedAppend(a[1..], b, nmdc);
      assert (a + b)[1..] == a[1..] + b;
      var e := if Special(a[0]) then Escape2(a[0], nmdc) else [a[0]];
      Grouped(e, Escaped(a[1..], nmdc), Escaped(b, nmdc));
    }
  }

  lemma Grouped(a: string, b: string, c: string)
    ensures a + b + c == a + (b + c)
  {
    hide *;
  }

  lemma EscapedOne(c: char, nmdc: bool)
    ensures Escaped([c], nmdc) ==
            if c == ' ' then (if nmdc then "\\ " else "\\s") else if c == '\n' then (if nmdc then "\\\n" else "\\n")
            else if c == '\\' then "\\\\" else [c]
  {
    assert [c][1..] == "";
  }

  /** What escaping does to each character, and that it does so character by character. */
  lemma EscapedIs(a: string, c: char, nmdc: bool)
    ensures Escaped(a + [c], nmdc) == Escaped(a, nmdc) +
            (if c == ' ' then (if nmdc then "\\ " else "\\s") else if c == '\n' then (if nmdc then "\\\n" else "\\n")
             else if c == '\\' then "\\\\" else [c])
  {
    hide *;
    EscapedAppend(a, [c], nmdc);
    EscapedOne(c, nmdc);
  }

  lemma AllPlain(tmp: string, i: nat, nmdc: bool)
    requires i <= |tmp| && forall j :: i <= j < |tmp| ==> !Special(tmp[j])
    ensures tmp[..i] + Escaped(tmp[i..], nmdc) == tmp
  {
    EscapedPlain(tmp[i..], |tmp| - i, nmdc);
  }

  // Printing.

  /** The ids that a command of this type carries, each behind a space. */
  function Ids(kind: char, sid: Sid, to: Sid, features: string): string {
    (if HasFrom(kind) then " " + sid else "") + (if HasTo(kind) then " " + to else "") + (if kind == FEATURE then " " + features else "")
  }

  /** Which ids the types print. */
  lemma IdsAre(kind: char, sid: Sid, to: Sid, features: string)
    ensures Ids(kind, sid, to, features) ==
            (if kind in "BDEF" then " " + sid else "") + (if kind in "DE" then " " + to else "") + (if kind == 'F' then " " + features else "")
  {
  }

  /** The ids are printed one after another. */
  lemma IdsPrinted(kind: char, sid: Sid, to: Sid, features: string, head: string, one: string, two: string, all: string)
    requires one == if kind == BROADCAST || kind == DIRECT || kind == ECHO || kind == FEATURE then head + " " + sid else head
    requires two == if kind == DIRECT || kind == ECHO then one + " " + to else one
    requires all == if kind == FEATURE then two + " " + features else two
    ensures all == head + Ids(kind, sid, to, features)
  {
    if kind == FEATURE {
      assert all == head + (" " + sid + "" + (" " + features));
    } else if HasTo(kind) {
      assert all == head + (" " + sid + (" " + to) + "");
    } else if HasFrom(kind) {
      assert all == head + (" " + sid + "" + "");
    } else {
      assert Ids(kind, sid, to, features) == "";
    }
  }

  /** The parameters, each behind a space. */
  function Spaced(parameters: seq<string>, nmdc: bool): string {
    if parameters == [] then "" else " " + Escaped(parameters[0], nmdc) + Spaced(parameters[1..], nmdc)
  }

  lemma {:induction false} SpacedNext(parameters: seq<string>, p: string, nmdc: bool)
    ensures Spaced(parameters + [p], nmdc) == Spaced(parameters, nmdc) + " " + Escaped(p, nmdc)
    decreases |parameters|
  {
    hide Escaped;
    if parameters == [] {
      assert [] + [p] == [p] && [p][1..] == [];
      NoneBehind(" " + Escaped(p, nmdc));
      NoneBefore(" ", Escaped(p, nmdc));
    } else {
      SpacedNext(parameters[1..], p, nmdc);
      assert (parameters + [p])[1..] == parameters[1..] + [p];
      Regroup3(" " + Escaped(parameters[0], nmdc), Spaced(parameters[1..], nmdc), " ", Escaped(p, nmdc));
    }
  }

  lemma NoneBehind(a: string)
    ensures a + "" == a
  {
    hide *;
  }

  lemma NoneBefore(a: string, b: string)
    ensures "" + a + b == a + b
  {
    hide *;
  }

  lemma Regroup3(a: string, b: string, c: string, d: string)
    ensures a + (b + c + d) == a + b + c + d
  {
    hide *;
  }

  /** What is appended of a character array: nothing from its first NUL on. */
  function CString(s: string): (r: string)
    ensures r <= s && '\0' !in r && (|r| == |s| || s[|r|] == '\0')
  {
    if s == "" || s[0] == '\0' then "" else [s[0]] + CString(s[1..])
  }

  /** A printed command without its line end. */
  function Line(kind: char, cmd: Code, sid: Sid, to: Sid, features: string, parameters: seq<string>, nmdc: bool): string {
    (if nmdc then "$ADC" else [kind]) + CString(cmd) + Ids(kind, sid, to, features) + Spaced(parameters, nmdc)
  }

  // Reading.

  datatype Parsed = Parsed(kind: char, cmd: Code, fields: Fields)

  const HUB_SID: Sid := ['\U{ff}', '\U{ff}', '\U{ff}', '\U{ff}']

  /** Reads a line; f holds what was in the fields before. */
  function ParseLine(line: string, nmdc: bool, f: Fields): Result<Parsed> {
    if |line| < (if nmdc then 7 else 4) then Err(TooShort)
    else
      var kind, cmd := if nmdc then CLIENT else line[0], if nmdc then line[4..7] else line[1..4];
      var start := if nmdc then 8 else 5;
      if !ValidType(kind) then Err(InvalidType)
      else
        var g := f.(from := if kind == INFO then HUB_SID else f.from, fromSet := nmdc, toSet := false, featureSet := false);
        var r := Read(kind, nmdc, if start <= |line| then line[start..] else "", g);
        if r.Err? then Err(r.error) else Ok(Parsed(kind, cmd, r.value))
  }

  // What reading amounts to, without the states of the loop.

  /** The words between the spaces, escapes undone; an empty last one is not seen. */
  function Tokens(nmdc: bool, s: string, cur: string): Result<seq<string>>
    decreases |s|
  {
    if s == "" then Ok(if cur == "" then [] else [cur])
    else if s[0] == '\\' then
      if |s| == 1 then Err(EscapeAtEol)
      else if s[1] == 's' then Tokens(nmdc, s[2..], cur + " ")
      else if s[1] == 'n' then Tokens(nmdc, s[2..], cur + "\n")
      else if s[1] == '\\' then Tokens(nmdc, s[2..], cur + "\\")
      else if s[1] == ' ' && nmdc then Tokens(nmdc, s[2..], cur + " ")
      else Err(UnknownEscape)
    else if s[0] == ' ' then
      var r := Tokens(nmdc, s[1..], "");
      if r.Err? then r else Ok([cur] + r.value)
    else Tokens(nmdc, s[1..], cur + [s[0]])
  }

  /** The words behind the command code. */
  function AllWords(line: string, nmdc: bool): Result<seq<string>> {
    var start := if nmdc then 8 else 5;
    Tokens(nmdc, if start <= |line| then line[start..] else "", "")
  }

  /** As many words as the type asks for, of the lengths it asks for. */
  predicate Acceptable(kind: char, w: seq<string>) {
    && (kind in "BDEF" ==> |w| >= 1 && |w[0]| == 4)
    && (kind in "DE" ==> |w| >= 2 && |w[1]| == 4)
    && (kind == 'F' ==> |w| >= 2 && |w[1]| % 5 == 0)
  }

  /** Taking words one after another. */
  function TakeAll(kind: char, f: Fields, w: seq<string>): Result<Fields>
    decreases |w|
  {
    if w == [] then Ok(f)
    else
      var t := Take(kind, f, w[0]);
      if t.Err? then t else TakeAll(kind, t.value, w[1..])
  }

  /** The reading loop takes the words, wherever it is. */
  lemma {:induction false} WordsTaken(kind: char, nmdc: bool, s: string, cur: string, f: Fields)
    ensures var r, w := Words(kind, nmdc, s, cur, f), Tokens(nmdc, s, cur);
            && (r.Ok? <==> w.Ok? && TakeAll(kind, f, w.value).Ok?)
            && (r.Ok? ==> r == TakeAll(kind, f, w.value))
    decreases |s|
  {
    hide Take;
    if s == "" {
      OneTaken(kind, f, cur);
    } else if s[0] == '\\' {
      if |s| > 1 && Unescape(s[1], nmdc).Ok? {
        WordsTaken(kind, nmdc, s[2..], cur + [Unescape(s[1], nmdc).value], f);
      }
    } else if s[0] == ' ' {
      var t := Take(kind, f, cur);
      if t.Ok? {
        WordsTaken(kind, nmdc, s[1..], "", t.value);
      }
      var r := Tokens(nmdc, s[1..], "");
      if r.Ok? {
        FirstTaken(kind, f, cur, r.value);
      }
    } else {
      WordsTaken(kind, nmdc, s[1..], cur + [s[0]], f);
    }
  }

  lemma OneTaken(kind: char, f: Fields, w: string)
    ensures TakeAll(kind, f, []) == Ok(f) && TakeAll(kind, f, [w]) == Take(kind, f, w)
  {
    assert [w][1..] == [];
  }

  lemma FirstTaken(kind: char, f: Fields, w: string, rest: seq<string>)
    ensures var t := Take(kind, f, w); TakeAll(kind, f, [w] + rest) == if t.Err? then t else TakeAll(kind, t.value, rest)
  {
    assert ([w] + rest)[1..] == rest;
  }

  /** Words behind the ids are parameters. */
  lemma {:induction false} RestTaken(kind: char, f: Fields, w: seq<string>)
    requires HasFrom(kind) ==> f.fromSet
    requires HasTo(kind) ==> f.toSet
    requires kind == FEATURE ==> f.featureSet
    ensures TakeAll(kind, f, w) == Ok(f.(parameters := f.parameters + w))
    decreases |w|
  {
    if w == [] {
      assert f.parameters + [] == f.parameters;
    } else {
      var g := f.(parameters := f.parameters + [w[0]]);
      RestTaken(kind, g, w[1..]);
      assert g.parameters + w[1..] == f.parameters + w;
    }
  }

  /** Where the words of a line of each type go. */
  lemma Assigned(kind: char, f: Fields, w: seq<string>)
    requires kind in "BCDEFIHU" && !f.toSet && !f.featureSet && (kind in "BDEF" ==> !f.fromSet)
    ensures var t := TakeAll(kind, f, w);
            && (t.Ok? && Complete(kind, t.value).Ok? <==> Acceptable(kind, w))
            && (Acceptable(kind, w) ==>
                  && |w| >= (if kind == 'B' then 1 else if kind in "DEF" then 2 else 0) && Complete(kind, t.value) == t
                  && t.value.from == (if kind in "BDEF" then w[0] else f.from) && t.value.to == (if kind in "DE" then w[1] else f.to)
                  && t.value.parameters == f.parameters + w[if kind == 'B' then 1 else if kind in "DEF" then 2 else 0..])
  {
    if kind !in "BDEF" {
      RestTaken(kind, f, w);
      assert w[0..] == w;
    } else if w != [] && |w[0]| == 4 {
      var g := f.(from := w[0], fromSet := true);
      assert Take(kind, f, w[0]) == Ok(g);
      if kind == 'B' {
        RestTaken(kind, g, w[1..]);
      } else if |w| > 1 {
        assert w[1..][0] == w[1] && w[1..][1..] == w[2..];
        if kind == 'F' && |w[1]| % 5 == 0 {
          RestTaken(kind, g.(featureSet := true), w[2..]);
        } else if kind != 'F' && |w[1]| == 4 {
          RestTaken(kind, g.(to := w[1], toSet := true), w[2..]);
        }
      }
    }
  }

  /** Which lines are read, and what each field is then. */
  lemma LineRead(line: string, nmdc: bool, f: Fields)
    ensures var p := ParseLine(line, nmdc, f);
            && (p.Ok? <==> |line| >= (if nmdc then 7 else 4) && (nmdc || line[0] in "BCDEFIHU") && AllWords(line, nmdc).Ok?
                           && Acceptable(if nmdc then 'C' else line[0], AllWords(line, nmdc).value))
            && (p.Ok? ==>
                  var kind, w := p.value.kind, AllWords(line, nmdc).value;
                  && kind == (if nmdc then 'C' else line[0]) && p.value.cmd == (if nmdc then line[4..7] else line[1..4])
                  && |w| >= (if kind == 'B' then 1 else if kind in "DEF" then 2 else 0)
                  && p.value.fields.from == (if kind == 'I' then "\U{ff}\U{ff}\U{ff}\U{ff}" else if kind in "BDEF" then w[0] else f.from)
                  && p.value.fields.to == (if kind in "DE" then w[1] else f.to)
                  && p.value.fields.parameters == f.parameters + w[if kind == 'B' then 1 else if kind in "DEF" then 2 else 0..])
  {
    hide Words, Tokens, TakeAll, Complete, Acceptable;
    if |line| >= (if nmdc then 7 else 4) {
      var kind := if nmdc then 'C' else line[0];
      if ValidType(kind) {
        var start := if nmdc then 8 else 5;
        var s := if start <= |line| then line[start..] else "";
        var g := f.(from := if kind == 'I' then HUB_SID else f.from, fromSet := nmdc, toSet := false, featureSet := false);
        WordsTaken(kind, nmdc, s, "", g);
        if AllWords(line, nmdc).Ok? {
          Assigned(kind, g, AllWords(line, nmdc).value);
        }
      }
    }
  }

  class Command {
    var cmd: Code
    var kind: char
    var from: Sid
    var to: Sid
    var features: string
    var parameters: seq<string>

    constructor (aCmd: Code, aTarget: Sid, aType: char)
      ensures cmd == aCmd && kind == aType && to == aTarget && parameters == [] && features == ""
    {
      cmd, kind, from, to, features, parameters := aCmd, aType, ['\0', '\0', '\0', '\0'], aTarget, "", [];
    }

    method GetHeaderString(sid: Sid, nmdc: bool) returns (tmp: string)
      ensures tmp == (if nmdc then "$ADC" else [kind]) + CString(cmd) + Ids(kind, sid, to, features)
    {
      hide *;
      tmp := "";
      if nmdc {
        tmp := tmp + "$ADC";
      } else {
        tmp := tmp + [kind];
      }
      tmp := tmp + CString(cmd);
      ghost var head := tmp;
      if kind == BROADCAST || kind == DIRECT || kind == ECHO || kind == FEATURE {
        tmp := tmp + " ";
        tmp := tmp + sid;
      }
      ghost var one := tmp;
      if kind == DIRECT || kind == ECHO {
        tmp := tmp + " ";
        tmp := tmp + to;
      }
      ghost var two := tmp;
      if kind == FEATURE {
        tmp := tmp + " ";
        tmp := tmp + features;
      }
      IdsPrinted(kind, sid, to, features, head, one, two, tmp);
    }

    method GetParamString(nmdc: bool) returns (tmp: string)
      ensures tmp == Spaced(parameters, nmdc) + [if nmdc then '|' else '\n']
    {
      tmp := "";
      for i := 0 to |parameters|
        invariant tmp == Spaced(parameters[..i], nmdc)
      {
        var escaped := Escape(parameters[i], nmdc);
        SpacedNext(parameters[..i], parameters[i], nmdc);
        assert parameters[..i + 1] == parameters[..i] + [parameters[i]];
        tmp := tmp + " ";
        tmp := tmp + escaped;
      }
      assert parameters[..|parameters|] == parameters;
      if nmdc {
        tmp := tmp + "|";
      } else {
        tmp := tmp + "\n";
      }
    }

    method ToString(sid: Sid, nmdc: bool) returns (s: string)
      ensures s == Line(kind, cmd, sid, to, features, parameters, nmdc) + [if nmdc then '|' else '\n']
    {
      var header := GetHeaderString(sid, nmdc);
      var params := GetParamString(nmdc);
      s := header + params;
    }

    ghost function AsFields(): Fields
      reads this
    {
      Fields(from, to, false, false, false, parameters)
    }

    /** Puts a word where the type of the command says. */
    method TakeWord(word: string, fromSet: bool, toSet: bool, featureSet: bool) returns (r: Result<bool>, fromNow: bool, toNow: bool, featureNow: bool)
      modifies this`from, this`to, this`parameters
      ensures var t := Take(kind, Fields(old(from), old(to), fromSet, toSet, featureSet, old(parameters)), word);
              (if t.Err? then r == Err(t.error) else r == Ok(true) && t.value == Fields(from, to, fromNow, toNow, featureNow, parameters))
    {
      fromNow, toNow, featureNow := fromSet, toSet, featureSet;
      if (kind == BROADCAST || kind == DIRECT || kind == ECHO || kind == FEATURE) && !fromSet {
        if |word| != 4 {
          return Err(InvalidSidLength), fromNow, toNow, featureNow;
        }
        from := word;
        fromNow := true;
      } else if (kind == DIRECT || kind == ECHO) && !toSet {
        if |word| != 4 {
          return Err(InvalidSidLength), fromNow, toNow, featureNow;
        }
        to := word;
        toNow := true;
      } else if kind == FEATURE && !featureSet {
        if |word| % 5 != 0 {
          return Err(InvalidFeatureLength), fromNow, toNow, featureNow;
        }
        featureNow := true;
      } else {
        parameters := parameters + [word];
      }
      r := Ok(true);
    }

    /** Reads the words of a line from position start on. */
    method ReadWords(aLine: string, start: nat, nmdc: bool) returns (r: Result<bool>)
      requires start <= |aLine|
      modifies this`from, this`to, this`parameters
      ensures var p := Read(kind, nmdc, aLine[start..], Fields(old(from), old(to), nmdc, false, false, old(parameters)));
              (if p.Err? then r == Err(p.error)
               else r == Ok(true) && from == p.value.from && to == p.value.to && parameters == p.value.parameters)
    {
      hide Take, Unescape;
      var toSet, featureSet, fromSet := false, false, nmdc;
      var i, cur := start, "";
      ghost var all := Words(kind, nmdc, aLine[start..], "", Fields(from, to, fromSet, toSet, featureSet, parameters));
      while i < |aLine|
        invariant start <= i <= |aLine|
        invariant Words(kind, nmdc, aLine[i..], cur, Fields(from, to, fromSet, toSet, featureSet, parameters)) == all
      {
        WordsStep(kind, nmdc, aLine, i, cur, Fields(from, to, fromSet, toSet, featureSet, parameters));
        if aLine[i] == '\\' {
          i := i + 1;
          if i == |aLine| {
            return Err(EscapeAtEol);
          }
          UnescapeIs(aLine[i], nmdc);
          if aLine[i] == 's' {
            cur := cur + [' '];
          } else if aLine[i] == 'n' {
            cur := cur + ['\n'];
          } else if aLine[i] == '\\' {
            cur := cur + ['\\'];
          } else if aLine[i] == ' ' && nmdc {
            cur := cur + [' '];
          } else {
            return Err(UnknownEscape);
          }
        } else if aLine[i] == ' ' {
          r, fromSet, toSet, featureSet := TakeWord(cur, fromSet, toSet, featureSet);
          if r.Err? {
            return;
          }
          cur := "";
        } else {
          cur := cur + [aLine[i]];
        }
        i := i + 1;
      }
      assert aLine[i..] == "";
      if cur != "" {
        r, fromSet, toSet, featureSet := TakeWord(cur, fromSet, toSet, featureSet);
        if r.Err? {
          return;
        }
      }
      if (kind == BROADCAST || kind == DIRECT || kind == ECHO || kind == FEATURE) && !fromSet {
        return Err(MissingFrom);
      }
      if kind == FEATURE && !featureSet {
        return Err(MissingFeature);
      }
      if (kind == DIRECT || kind == ECHO) && !toSet {
        return Err(MissingTo);
      }
      r := Ok(true);
    }

    /**
     * Fills the fields from a line; on an error the object is not used. A line is accepted if its type is a known one and
     * its words are as many and as long as the type asks for; they go to the ids of the type and then to the parameters,
     * and a hub's line is from four bytes of ones.
     */
    method Parse(aLine: string, nmdc: bool) returns (r: Result<bool>)
      modifies this
      ensures r.Ok? <==> |aLine| >= (if nmdc then 7 else 4) && (nmdc || aLine[0] in "BCDEFIHU") && AllWords(aLine, nmdc).Ok?
                         && Acceptable(if nmdc then 'C' else aLine[0], AllWords(aLine, nmdc).value)
      ensures r.Ok? ==> kind == (if nmdc then 'C' else aLine[0]) && cmd == (if nmdc then aLine[4..7] else aLine[1..4]) && features == old(features)
      ensures r.Ok? ==> AllWords(aLine, nmdc).Ok? &&
                        var w := AllWords(aLine, nmdc).value;
                        && |w| >= (if kind == 'B' then 1 else if kind in "DEF" then 2 else 0)
                        && from == (if kind == 'I' then "\U{ff}\U{ff}\U{ff}\U{ff}" else if kind in "BDEF" then w[0] else old(from))
                        && to == (if kind in "DE" then w[1] else old(to))
                        && parameters == old(parameters) + w[if kind == 'B' then 1 else if kind in "DEF" then 2 else 0..]
      ensures var p := ParseLine(aLine, nmdc, old(AsFields()));
              (if p.Err? then r == Err(p.error)
               else r == Ok(true) && kind == p.value.kind && cmd == p.value.cmd && from == p.value.fields.from && to == p.value.fields.to
                    && parameters == p.value.fields.parameters)
    {
      hide Words, Complete;
      LineRead(aLine, nmdc, AsFields());
      var i := 5;
      if nmdc {
        if |aLine| < 7 {
          return Err(TooShort);
        }
        kind := CLIENT;
        cmd := aLine[4..7];
        i := i + 3;
      } else {
        if |aLine| < 4 {
          return Err(TooShort);
        }
        kind := aLine[0];
        cmd := aLine[1..4];
      }
      if !ValidType(kind) {
        return Err(InvalidType);
      }
      if kind == INFO {
        from := HUB_SID;
      }
      if i <= |aLine| {
        r := ReadWords(aLine, i, nmdc);
      } else {
        r := ReadWords("", 0, nmdc);
      }
    }
  }

  lemma UnescapeIs(c: char, nmdc: bool)
    ensures Unescape(c, nmdc) ==
            if c == 's' then Ok(' ') else if c == 'n' then Ok('\n') else if c == '\\' then Ok('\\')
            else if c == ' ' && nmdc then Ok(' ') else Err(UnknownEscape)
  {
  }

  /** One step of reading at position i. */
  lemma WordsStep(kind: char, nmdc: bool, line: string, i: nat, cur: string, f: Fields)
    requires i < |line|
    ensures Words(kind, nmdc, line[i..], cur, f) ==
            if line[i] == '\\' then
              if i + 1 == |line| then Err(EscapeAtEol)
              else
                var c := Unescape(line[i + 1], nmdc);
                if c.Err? then Err(c.error) else Words(kind, nmdc, line[i + 2..], cur + [c.value], f)
            else if line[i] == ' ' then
              var t := Take(kind, f, cur);
              if t.Err? then t else Words(kind, nmdc, line[i + 1..], [], t.value)
            else Words(kind, nmdc, line[i + 1..], cur + [line[i]], f)
  {
    assert line[i..][1..] == line[i + 1..];
    if i + 2 <= |line| {
      assert line[i..][2..] == line[i + 2..];
    }
  }

  // Round trip.

  /** Free of the characters that mean something between words. */
  predicate Plain(s: string) {
    ' ' !in s && '\\' !in s
  }

  lemma {:induction false} PlainRead(kind: char, nmdc: bool, w: string, rest: string, cur: string, f: Fields)
    requires Plain(w)
    ensures Words(kind, nmdc, w + rest, cur, f) == Words(kind, nmdc, rest, cur + w, f)
    decreases |w|
  {
    if w == "" {
      assert w + rest == rest && cur + w == cur;
    } else {
      assert w[0] in w;
      assert forall c :: c in w[1..] ==> c in w;
      assert (w + rest)[1..] == w[1..] + rest && cur + [w[0]] + w[1..] == cur + w;
      PlainRead(kind, nmdc, w[1..], rest, cur + [w[0]], f);
    }
  }

  /** A word that may be printed: the old way of escaping cannot carry a line end. */
  predicate Printable(w: string, nmdc: bool) {
    nmdc ==> '\n' !in w
  }

  /** An escaped word is read as the word. */
  lemma {:induction false} EscapedRead(kind: char, nmdc: bool, w: string, rest: string, cur: string, f: Fields)
    requires Printable(w, nmdc)
    ensures Words(kind, nmdc, Escaped(w, nmdc) + rest, cur, f) == Words(kind, nmdc, rest, cur + w, f)
    decreases |w|
  {
    if w == "" {
      assert Escaped(w, nmdc) + rest == rest && cur + w == cur;
    } else {
      assert w[0] in w;
      assert forall c :: c in w[1..] ==> c in w;
      var e := if Special(w[0]) then Escape2(w[0], nmdc) else [w[0]];
      var more := Escaped(w[1..], nmdc) + rest;
      assert Escaped(w, nmdc) + rest == e + more;
      OneRead(kind, nmdc, w[0], e, more, cur, f);
      EscapedRead(kind, nmdc, w[1..], rest, cur + [w[0]], f);
      assert cur + [w[0]] + w[1..] == cur + w;
    }
  }

  lemma OneRead(kind: char, nmdc: bool, c: char, e: string, more: string, cur: string, f: Fields)
    requires e == if Special(c) then Escape2(c, nmdc) else [c]
    requires nmdc ==> c != '\n'
    ensures Words(kind, nmdc, e + more, cur, f) == Words(kind, nmdc, more, cur + [c], f)
  {
    assert (e + more)[0] == e[0] && (e + more)[|e|..] == more;
    if Special(c) {
      assert (e + more)[1] == e[1];
    }
  }

  /** All ids of the type have been read. */
  predicate Settled(kind: char, f: Fields) {
    (HasFrom(kind) ==> f.fromSet) && (HasTo(kind) ==> f.toSet) && (kind == FEATURE ==> f.featureSet)
  }

  /** An empty last parameter is not seen. */
  function Trim(words: seq<string>): seq<string> {
    if words != [] && words[|words| - 1] == "" then words[..|words| - 1] else words
  }

  /** The space before a parameter ends the word before it. */
  lemma SpacedRead(kind: char, nmdc: bool, words: seq<string>, cur: string, f: Fields)
    requires words != [] && Printable(words[0], nmdc)
    ensures var t := Take(kind, f, cur);
            Words(kind, nmdc, Spaced(words, nmdc), cur, f) == if t.Err? then t else Words(kind, nmdc, Spaced(words[1..], nmdc), words[0], t.value)
  {
    hide Take;
    var t := Take(kind, f, cur);
    var body := Escaped(words[0], nmdc) + Spaced(words[1..], nmdc);
    assert Spaced(words, nmdc) == " " + body && (" " + body)[1..] == body;
    if t.Ok? {
      EscapedRead(kind, nmdc, words[0], Spaced(words[1..], nmdc), "", t.value);
      assert "" + words[0] == words[0];
    }
  }

  /** Once the ids are read, all that follows are parameters, but for an empty last one. */
  lemma {:induction false} ParametersRead(kind: char, nmdc: bool, words: seq<string>, cur: string, f: Fields)
    requires Settled(kind, f) && forall i :: 0 <= i < |words| ==> Printable(words[i], nmdc)
    ensures Words(kind, nmdc, Spaced(words, nmdc), cur, f) == Ok(f.(parameters := f.parameters + Trim([cur] + words)))
    decreases |words|
  {
    hide *;
    if words == [] {
      NoMore(kind, nmdc, words, cur, f);
    } else {
      var g := f.(parameters := f.parameters + [cur]);
      SpacedRead(kind, nmdc, words, cur, f);
      TakeSettled(kind, f, cur);
      ParametersRead(kind, nmdc, words[1..], words[0], g);
      assert [words[0]] + words[1..] == words;
      TrimBehind(cur, words);
      assert f.parameters + [cur] + Trim(words) == f.parameters + ([cur] + Trim(words));
    }
  }

  lemma NoMore(kind: char, nmdc: bool, words: seq<string>, cur: string, f: Fields)
    requires Settled(kind, f) && words == []
    ensures Words(kind, nmdc, Spaced(words, nmdc), cur, f) == Ok(f.(parameters := f.parameters + Trim([cur] + words)))
  {
    assert [cur] + words == [cur] && [cur][..0] == [];
    assert f.parameters + [] == f.parameters;
  }

  lemma TakeSettled(kind: char, f: Fields, word: string)
    requires Settled(kind, f)
    ensures var g := f.(parameters := f.parameters + [word]); Take(kind, f, word) == Ok(g) && Settled(kind, g)
  {
  }

  lemma TrimBehind(cur: string, words: seq<string>)
    requires words != []
    ensures Trim([cur] + words) == [cur] + Trim(words)
  {
    var t := [cur] + words;
    assert t[|t| - 1] == words[|words| - 1];
    assert t[..|t| - 1] == [cur] + words[..|words| - 1];
  }

  /** The last id of a line, and the parameters behind it. */
  lemma LastId(kind: char, w: string, words: seq<string>, f: Fields)
    requires !Settled(kind, f)
    ensures var t := Take(kind, f, w);
            if w == "" && words == [] then Words(kind, false, Spaced(words, false), w, f) == Ok(f)
            else if t.Err? then Words(kind, false, Spaced(words, false), w, f) == t
            else Settled(kind, t.value) ==>
              Words(kind, false, Spaced(words, false), w, f) == Ok(t.value.(parameters := t.value.parameters + Trim(words)))
  {
    var t := Take(kind, f, w);
    if words == [] {
      assert t.Ok? ==> t.value.parameters + [] == t.value.parameters;
    } else {
      SpacedRead(kind, false, words, w, f);
      if t.Ok? && Settled(kind, t.value) {
        ParametersRead(kind, false, words[1..], words[0], t.value);
        assert [words[0]] + words[1..] == words;
      }
    }
  }

  /** An id is wanted next. */
  predicate Expecting(kind: char, f: Fields) {
    (HasFrom(kind) && !f.fromSet) || (HasTo(kind) && !f.toSet)
  }

  /** An id that has a space or a backslash in it never gives a word of its own length. */
  lemma {:induction false} BadId(kind: char, s: string, rest: string, cur: string, f: Fields)
    requires Expecting(kind, f) && (rest == "" || rest[0] == ' ')
    requires |cur| + |s| <= 4 && (|cur| + |s| == 4 ==> !Plain(s))
    ensures var r := Words(kind, false, s + rest, cur, f); r.Err? || r.value == f
    decreases |s|
  {
    var t := s + rest;
    if s == "" {
      assert t == rest;
    } else {
      assert t[0] == s[0] && t[1..] == s[1..] + rest;
      if s[0] == '\\' {
        if |s| > 1 {
          assert t[1] == s[1] && t[2..] == s[2..] + rest;
          if Unescape(s[1], false).Ok? {
            BadId(kind, s[2..], rest, cur + [Unescape(s[1], false).value], f);
          }
        } else if rest != "" {
          assert t[1] == ' ';
        }
      } else if s[0] != ' ' {
        BadId(kind, s[1..], rest, cur + [s[0]], f);
      }
    }
  }

  /** What comes back is what was printed. */
  predicate Same(p: Parsed, kind: char, cmd: Code, sid: Sid, to: Sid, parameters: seq<string>) {
    && p.kind == kind && p.cmd == cmd && p.fields.parameters == parameters
    && (HasFrom(kind) ==> p.fields.from == sid) && (HasTo(kind) ==> p.fields.to == to)
  }

  /** Reads as one word: no space outside an escape, and every backslash begins a known escape. */
  predicate IsWord(v: string) {
    v == "" || (if v[0] == '\\' then |v| >= 2 && Unescape(v[1], false).Ok? && IsWord(v[2..]) else v[0] != ' ' && IsWord(v[1..]))
  }

  /** The number of characters of the word that is read. */
  function WordLength(v: string): nat
    requires IsWord(v)
  {
    if v == "" then 0 else 1 + WordLength(if v[0] == '\\' then v[2..] else v[1..])
  }

  /** A feature list that comes in fives once it is read. */
  predicate InFives(v: string) {
    IsWord(v) && WordLength(v) % 5 == 0
  }

  /** The last parameter is the one that is lost when it is empty. */
  predicate LastGiven(parameters: seq<string>) {
    parameters == [] || parameters[|parameters| - 1] != ""
  }

  predicate AllEmpty(parameters: seq<string>) {
    forall i :: 0 <= i < |parameters| ==> parameters[i] == ""
  }

  /** A good feature list, or one with a space too many: that adds an empty parameter in front, for one lost behind. */
  predicate FeaturesSendable(features: string, parameters: seq<string>) {
    || (InFives(features) && (features != "" || parameters != []) && LastGiven(parameters))
    || (features != "" && features[|features| - 1] == ' ' && InFives(features[..|features| - 1]) && AllEmpty(parameters))
  }

  /** What a line can carry behind the command code. */
  predicate Carried(kind: char, sid: Sid, to: Sid, features: string, parameters: seq<string>) {
    && (HasFrom(kind) ==> Plain(sid)) && (HasTo(kind) ==> Plain(to))
    && (if kind == FEATURE then FeaturesSendable(features, parameters) else LastGiven(parameters))
  }

  /** What a line can carry. */
  predicate Sendable(kind: char, cmd: Code, sid: Sid, to: Sid, features: string, parameters: seq<string>) {
    ValidType(kind) && '\0' !in cmd && Carried(kind, sid, to, features, parameters)
  }

  lemma TrimSame(words: seq<string>)
    ensures Trim(words) == words <==> words == [] || words[|words| - 1] != ""
  {
  }

  /** The words behind the command: the ids, or the first parameter. */
  function Body(kind: char, sid: Sid, to: Sid, features: string, parameters: seq<string>): string {
    if HasTo(kind) then sid + (" " + (to + Spaced(parameters, false)))
    else if kind == FEATURE then sid + (" " + (features + Spaced(parameters, false)))
    else if HasFrom(kind) then sid + Spaced(parameters, false)
    else if parameters == [] then ""
    else Escaped(parameters[0], false) + Spaced(parameters[1..], false)
  }

  lemma LineSplit(kind: char, cmd: Code, ids: string, rest: string)
    ensures var line := [kind] + cmd + ids + rest; line[0] == kind && line[1..4] == cmd && line[4..] == ids + rest
  {
  }

  /** Behind its first space, what follows the command is the body. */
  lemma IdsBody(kind: char, sid: Sid, to: Sid, features: string, parameters: seq<string>)
    ensures var t := Ids(kind, sid, to, features) + Spaced(parameters, false);
            if t == "" then Body(kind, sid, to, features, parameters) == "" else t == " " + Body(kind, sid, to, features, parameters)
  {
    hide Spaced, Escaped;
    var rest := Spaced(parameters, false);
    if HasTo(kind) {
      TwoWords(sid, to, rest);
    } else if kind == FEATURE {
      TwoWordsApart(sid, features, rest);
    } else if HasFrom(kind) {
      OneWord(sid, rest);
    } else {
      NoWord(rest);
      SpacedBody(parameters);
    }
  }

  lemma TwoWords(a: string, b: string, rest: string)
    ensures (" " + a) + (" " + b) + "" + rest == " " + (a + (" " + (b + rest)))
  {
    hide *;
  }

  lemma TwoWordsApart(a: string, b: string, rest: string)
    ensures (" " + a) + "" + (" " + b) + rest == " " + (a + (" " + (b + rest)))
  {
    hide *;
  }

  lemma OneWord(a: string, rest: string)
    ensures (" " + a) + "" + "" + rest == " " + (a + rest)
  {
    hide *;
  }

  lemma NoWord(rest: string)
    ensures "" + "" + "" + rest == rest
  {
    hide *;
  }

  lemma SpacedBody(parameters: seq<string>)
    ensures parameters == [] ==> Spaced(parameters, false) == ""
    ensures parameters != [] ==> Spaced(parameters, false) == " " + (Escaped(parameters[0], false) + Spaced(parameters[1..], false))
  {
    if parameters != [] {
      OneWord(Escaped(parameters[0], false), Spaced(parameters[1..], false));
    }
  }

  lemma LineBody(kind: char, cmd: Code, sid: Sid, to: Sid, features: string, parameters: seq<string>)
    requires '\0' !in cmd
    ensures var line := Line(kind, cmd, sid, to, features, parameters, false);
            && |line| >= 4 && line[0] == kind && line[1..4] == cmd
            && (if 5 <= |line| then line[5..] else "") == Body(kind, sid, to, features, parameters)
  {
    hide Body, Ids, Spaced;
    var line := Line(kind, cmd, sid, to, features, parameters, false);
    var ids, rest := Ids(kind, sid, to, features), Spaced(parameters, false);
    assert CString(cmd) == cmd;
    LineSplit(kind, cmd, ids, rest);
    IdsBody(kind, sid, to, features, parameters);
    if ids + rest != "" {
      assert line[5..] == line[4..][1..];
    }
  }

  /** A command code with a NUL in it is cut short, and a space stands where the NUL was, if the line goes on at all. */
  lemma CutShort(head: string, cmd: Code, tail: string)
    requires '\0' in cmd && (tail == "" || tail[0] == ' ')
    ensures var line := head + CString(cmd) + tail; |line| < |head| + 3 || line[|head|..|head| + 3] != cmd
  {
    var k, line := |CString(cmd)|, head + CString(cmd) + tail;
    if |line| >= |head| + 3 {
      assert k < 3 && tail != "" && line[|head| + k] == tail[0];
      assert line[|head|..|head| + 3][k] == line[|head| + k] != cmd[k];
    }
  }

  /** Reading the body, up to the check that every id is there. */
  lemma NoIds(kind: char, parameters: seq<string>, g: Fields)
    requires ValidType(kind) && !HasFrom(kind) && g.parameters == []
    ensures Words(kind, false, if parameters == [] then "" else Escaped(parameters[0], false) + Spaced(parameters[1..], false), "", g) ==
            Ok(g.(parameters := Trim(parameters)))
  {
    if parameters != [] {
      EscapedRead(kind, false, parameters[0], Spaced(parameters[1..], false), "", g);
      assert "" + parameters[0] == parameters[0];
      ParametersRead(kind, false, parameters[1..], parameters[0], g);
      assert [parameters[0]] + parameters[1..] == parameters && [] + Trim(parameters) == Trim(parameters);
    }
  }

  /** A first id with another word behind it. */
  lemma FirstId(kind: char, sid: Sid, w: string, g: Fields)
    requires HasFrom(kind) && !g.fromSet && Plain(sid)
    ensures Words(kind, false, sid + (" " + w), "", g) == Words(kind, false, w, "", g.(from := sid, fromSet := true))
  {
    PlainRead(kind, false, sid, " " + w, "", g);
    assert "" + sid == sid && (" " + w)[1..] == w;
  }

  /** The last id, without special characters, and the parameters. */
  lemma PlainLast(kind: char, w: string, parameters: seq<string>, g: Fields)
    requires Plain(w) && !Settled(kind, g)
    ensures var t := Take(kind, g, w);
            if w == "" && parameters == [] then Words(kind, false, w + Spaced(parameters, false), "", g) == Ok(g)
            else if t.Err? then Words(kind, false, w + Spaced(parameters, false), "", g) == t
            else Settled(kind, t.value) ==>
              Words(kind, false, w + Spaced(parameters, false), "", g) == Ok(t.value.(parameters := t.value.parameters + Trim(parameters)))
  {
    hide Take, Trim;
    PlainRead(kind, false, w, Spaced(parameters, false), "", g);
    assert "" + w == w;
    LastId(kind, w, parameters, g);
  }

  lemma SpacedStart(parameters: seq<string>)
    ensures Spaced(parameters, false) == "" || Spaced(parameters, false)[0] == ' '
  {
  }

  /** An empty word in front makes up for the one lost behind only where all are empty. */
  lemma TrimShift(front: seq<string>, words: seq<string>)
    requires front != []
    ensures Trim(front + words) == words <==> front == [""] && AllEmpty(words)
  {
    var t := front + words;
    if Trim(t) == words {
      assert |front| == 1 && t[|words|] == "";
      ShiftedEmpty(t, words, |words|);
      assert front[0] == t[0];
    }
    if front == [""] && AllEmpty(words) {
      assert t[|t| - 1] == "";
      assert t[..|t| - 1] == words;
    }
  }

  lemma {:induction false} ShiftedEmpty(t: seq<string>, words: seq<string>, n: nat)
    requires |t| == |words| + 1 && n < |t| && t[..|words|] == words && t[n] == "" && forall i :: 0 <= i < |words| ==> t[i + 1] == words[i]
    ensures forall i :: 0 <= i <= n ==> t[i] == ""
    decreases n
  {
    if n > 0 {
      assert t[n - 1] == words[n - 1] == t[n - 1 + 1];
      ShiftedEmpty(t, words, n - 1);
    }
  }

  /** Words in front of the parameters are read as parameters, but for an empty last one of all. */
  lemma {:induction false} ExtraWords(kind: char, v: string, words: seq<string>, cur: string, f: Fields) returns (front: seq<string>)
    requires Settled(kind, f)
    ensures front != [] && (v == "" ==> front == [cur] && Words(kind, false, v + Spaced(words, false), cur, f).Ok?)
    ensures front == [""] ==> v == "" && cur == ""
    ensures var r := Words(kind, false, v + Spaced(words, false), cur, f);
            r.Err? || r.value == f.(parameters := f.parameters + Trim(front + words))
    decreases |v|
  {
    hide Spaced, Take, Trim, Settled;
    var rest := Spaced(words, false);
    var t := v + rest;
    front := [cur, cur];
    if v == "" {
      assert t == rest;
      ParametersRead(kind, false, words, cur, f);
      front := [cur];
    } else {
      assert t[0] == v[0] && t[1..] == v[1..] + rest;
      if v[0] == '\\' {
        if |v| > 1 {
          assert t[1] == v[1] && t[2..] == v[2..] + rest;
          if Unescape(v[1], false).Ok? {
            front := ExtraWords(kind, v[2..], words, cur + [Unescape(v[1], false).value], f);
          }
        } else {
          SpacedStart(words);
          assert rest != "" ==> t[1] == ' ';
        }
      } else if v[0] == ' ' {
        TakeSettled(kind, f, cur);
        front := ExtraWords(kind, v[1..], words, "", f.(parameters := f.parameters + [cur]));
        TrimBehind(cur, front + words);
        FrontGrows(f.parameters, cur, front, words);
        front := [cur] + front;
      } else {
        front := ExtraWords(kind, v[1..], words, cur + [v[0]], f);
      }
    }
  }

  lemma FrontGrows(p: seq<string>, cur: string, front: seq<string>, words: seq<string>)
    ensures [cur] + (front + words) == [cur] + front + words
    ensures p + [cur] + Trim(front + words) == p + ([cur] + Trim(front + words))
  {
    hide *;
  }

  /** What reading a feature list and the parameters gives, cur being the part of the list already read. */
  predicate FeaturesRead(v: string, words: seq<string>, cur: string) {
    || (IsWord(v) && (|cur| + WordLength(v)) % 5 == 0 && (v != "" || cur != "" || words != []) && LastGiven(words))
    || (v != "" && v[|v| - 1] == ' ' && IsWord(v[..|v| - 1]) && (|cur| + WordLength(v[..|v| - 1])) % 5 == 0 && AllEmpty(words))
  }

  lemma FeaturesNext(v: string, words: seq<string>, cur: string, k: nat, c: char)
    requires v != "" && v[0] != ' ' && (if v[0] == '\\' then k == 2 <= |v| && Unescape(v[1], false).Ok? else k == 1)
    ensures FeaturesRead(v, words, cur) <==> FeaturesRead(v[k..], words, cur + [c])
  {
    if |v| > k {
      assert v[..|v| - 1][k..] == v[k..][..|v| - k - 1] && v[k..][|v| - k - 1] == v[|v| - 1];
      assert v[..|v| - 1][0] == v[0] && (k == 2 ==> v[..|v| - 1][1] == v[1]);
    }
  }

  /** The feature list comes back, and the parameters with it. */
  lemma {:induction false} FeatureList(v: string, words: seq<string>, cur: string, f: Fields)
    requires f.fromSet && !f.featureSet
    ensures var r := Words(FEATURE, false, v + Spaced(words, false), cur, f);
            (r.Ok? && r.value.featureSet && r.value.parameters == f.parameters + words && r.value.fromSet && r.value.from == f.from)
            <==> FeaturesRead(v, words, cur)
    decreases |v|
  {
    hide Spaced, Trim, IsWord, WordLength, FeaturesRead, Words, AllEmpty, LastGiven;
    var rest := Spaced(words, false);
    if v == "" {
      assert v + rest == rest;
      LastId(FEATURE, cur, words, f);
      NoListLeft(words, cur, f);
    } else {
      WordsStep(FEATURE, false, v + rest, 0, cur, f);
      assert (v + rest)[0..] == v + rest && (v + rest)[1..] == v[1..] + rest;
      if v[0] == '\\' {
        if |v| > 1 {
          assert (v + rest)[1] == v[1] && (v + rest)[2..] == v[2..] + rest;
          if Unescape(v[1], false).Ok? {
            FeaturesNext(v, words, cur, 2, Unescape(v[1], false).value);
            FeatureList(v[2..], words, cur + [Unescape(v[1], false).value], f);
          } else {
            BadWord(v, words, cur);
          }
        } else {
          SpacedStart(words);
          BadWord(v, words, cur);
        }
      } else if v[0] == ' ' {
        SpaceInList(v, words, cur, f);
      } else {
        FeaturesNext(v, words, cur, 1, v[0]);
        FeatureList(v[1..], words, cur + [v[0]], f);
      }
    }
  }

  lemma NoListLeft(words: seq<string>, cur: string, f: Fields)
    ensures FeaturesRead("", words, cur) <==> |cur| % 5 == 0 && (cur != "" || words != []) && LastGiven(words)
    ensures f.parameters + Trim(words) == f.parameters + words <==> LastGiven(words)
  {
    TrimSame(words);
    assert |f.parameters + Trim(words)| == |f.parameters + words| ==> Trim(words) == words;
  }

  lemma BadWord(v: string, words: seq<string>, cur: string)
    requires v != "" && v[0] == '\\' && (|v| > 1 ==> Unescape(v[1], false).Err?)
    ensures !FeaturesRead(v, words, cur)
  {
    if |v| > 1 {
      assert v[..|v| - 1][0] == v[0] && (|v| > 2 ==> v[..|v| - 1][1] == v[1]);
    }
  }

  lemma SpaceInList(v: string, words: seq<string>, cur: string, f: Fields)
    requires f.fromSet && !f.featureSet && v != "" && v[0] == ' '
    ensures var t := Take(FEATURE, f, cur);
            var r := if t.Err? then t else Words(FEATURE, false, v[1..] + Spaced(words, false), "", t.value);
            (r.Ok? && r.value.featureSet && r.value.parameters == f.parameters + words && r.value.fromSet && r.value.from == f.from)
            <==> FeaturesRead(v, words, cur)
  {
    hide Spaced, Trim, Words, AllEmpty, LastGiven;
    var t := Take(FEATURE, f, cur);
    if |v| > 1 {
      assert v[..|v| - 1][0] == ' ';
    }
    if t.Ok? {
      var front := ExtraWords(FEATURE, v[1..], words, "", t.value);
      TrimShift(front, words);
      SameBehind(f.parameters, Trim(front + words), words);
    }
  }

  lemma SameBehind(p: seq<string>, a: seq<string>, b: seq<string>)
    ensures p + a == p + b <==> a == b
  {
    hide *;
    if p + a == p + b {
      assert a == (p + a)[|p|..] && b == (p + b)[|p|..];
    }
  }

  /** Reading a body back: the same ids and parameters come out exactly if they can be sent. */
  lemma BodyIff(kind: char, sid: Sid, to: Sid, features: string, parameters: seq<string>, g: Fields)
    requires ValidType(kind)
    requires g.parameters == [] && !g.fromSet && !g.toSet && !g.featureSet
    ensures var r := Read(kind, false, Body(kind, sid, to, features, parameters), g);
            (r.Ok? && r.value.parameters == parameters && (HasFrom(kind) ==> r.value.from == sid) && (HasTo(kind) ==> r.value.to == to))
            <==> Carried(kind, sid, to, features, parameters)
  {
    hide Words, Spaced, Plain, Escaped, Trim, FeaturesSendable, LastGiven;
    TrimSame(parameters);
    SpacedStart(parameters);
    LastGivenIs(parameters);
    assert [] + Trim(parameters) == Trim(parameters);
    if !HasFrom(kind) {
      NoIds(kind, parameters, g);
    } else if !Plain(sid) {
      var rest := if HasTo(kind) then " " + (to + Spaced(parameters, false))
        else if kind == FEATURE then " " + (features + Spaced(parameters, false)) else Spaced(parameters, false);
      BadId(kind, sid, rest, "", g);
    } else if kind == BROADCAST {
      PlainLast(kind, sid, parameters, g);
    } else if kind == FEATURE {
      FirstId(kind, sid, features + Spaced(parameters, false), g);
      FeatureList(features, parameters, "", g.(from := sid, fromSet := true));
      FeaturesIs(features, parameters);
      assert [] + parameters == parameters;
    } else {
      var g1 := g.(from := sid, fromSet := true);
      FirstId(kind, sid, to + Spaced(parameters, false), g);
      if Plain(to) {
        PlainLast(kind, to, parameters, g1);
      } else {
        BadId(kind, to, Spaced(parameters, false), "", g1);
      }
    }
  }

  lemma LastGivenIs(parameters: seq<string>)
    ensures LastGiven(parameters) <==> parameters == [] || parameters[|parameters| - 1] != ""
  {
  }

  lemma FeaturesIs(features: string, parameters: seq<string>)
    ensures FeaturesSendable(features, parameters) <==> FeaturesRead(features, parameters, "")
  {
  }

  /** Printing a command of any kind and reading the line back gives the command exactly if its code has no NUL, its
      ids have no spaces or backslashes, and its features and its last parameter are as Sendable says. */
  lemma RoundTripIff(kind: char, cmd: Code, sid: Sid, to: Sid, features: string, parameters: seq<string>, f: Fields)
    requires f.parameters == []
    ensures var r := ParseLine(Line(kind, cmd, sid, to, features, parameters, false), false, f);
            (r.Ok? && Same(r.value, kind, cmd, sid, to, parameters)) <==> Sendable(kind, cmd, sid, to, features, parameters)
  {
    hide Read, Body, Carried, CString, Ids, Spaced;
    var g := f.(from := if kind == INFO then HUB_SID else f.from, fromSet := false, toSet := false, featureSet := false);
    var line := Line(kind, cmd, sid, to, features, parameters, false);
    if '\0' in cmd {
      var tail := Ids(kind, sid, to, features) + Spaced(parameters, false);
      IdsBody(kind, sid, to, features, parameters);
      CutShort([kind], cmd, tail);
      assert line == [kind] + CString(cmd) + tail;
    } else {
      LineBody(kind, cmd, sid, to, features, parameters);
      if ValidType(kind) {
        BodyIff(kind, sid, to, features, parameters, g);
      }
    }
  }

  /** A line end in a parameter is escaped the old way to what no reader understands. */
  lemma {:induction false} LineEndRead(kind: char, w: string, rest: string, cur: string, f: Fields)
    requires '\n' in w
    ensures Words(kind, true, Escaped(w, true) + rest, cur, f).Err?
    decreases |w|
  {
    var e := if Special(w[0]) then Escape2(w[0], true) else [w[0]];
    var more := Escaped(w[1..], true) + rest;
    assert Escaped(w, true) + rest == e + more;
    if w[0] == '\n' {
      assert (e + more)[0] == '\\' && (e + more)[1] == '\n';
    } else {
      OneRead(kind, true, w[0], e, more, cur, f);
      LineEndRead(kind, w[1..], rest, cur + [w[0]], f);
    }
  }

  predicate NoLineEnds(parameters: seq<string>) {
    forall i :: 0 <= i < |parameters| ==> '\n' !in parameters[i]
  }

  lemma {:induction false} LineEndsRead(kind: char, words: seq<string>, cur: string, f: Fields)
    requires Settled(kind, f) && !NoLineEnds(words)
    ensures Words(kind, true, Spaced(words, true), cur, f).Err?
    decreases |words|
  {
    hide Escaped, Take, Settled;
    var g := f.(parameters := f.parameters + [cur]);
    TakeSettled(kind, f, cur);
    if '\n' in words[0] {
      var body := Escaped(words[0], true) + Spaced(words[1..], true);
      assert Spaced(words, true) == " " + body && (" " + body)[1..] == body;
      LineEndRead(kind, words[0], Spaced(words[1..], true), "", g);
    } else {
      SpacedRead(kind, true, words, cur, f);
      LineEndsRead(kind, words[1..], words[0], g);
    }
  }

  /** The older form of a line comes back for client commands whose code has no NUL, whose parameters have no line
      ends and whose last one is not empty, and for no others. */
  lemma NmdcRoundTrip(kind: char, cmd: Code, sid: Sid, to: Sid, features: string, parameters: seq<string>, f: Fields)
    requires f.parameters == []
    ensures var r := ParseLine(Line(kind, cmd, sid, to, features, parameters, true), true, f);
            (r.Ok? && Same(r.value, kind, cmd, sid, to, parameters))
            <==> kind == CLIENT && '\0' !in cmd && NoLineEnds(parameters) && LastGiven(parameters)
  {
    hide Words, Spaced, Escaped, LastGiven, NoLineEnds, CString;
    var line := Line(kind, cmd, sid, to, features, parameters, true);
    if kind == CLIENT {
      assert line == "$ADC" + CString(cmd) + Spaced(parameters, true);
      if '\0' in cmd {
        SpacedHead(parameters, true);
        CutShort("$ADC", cmd, Spaced(parameters, true));
      } else {
        assert CString(cmd) == cmd;
        TrimSame(parameters);
        LastGivenIs(parameters);
        NmdcLine(cmd, parameters);
        NmdcWords(parameters, f.(fromSet := true, toSet := false, featureSet := false));
        assert [] + Trim(parameters) == Trim(parameters);
      }
    }
  }

  lemma SpacedHead(parameters: seq<string>, nmdc: bool)
    ensures Spaced(parameters, nmdc) == "" || Spaced(parameters, nmdc)[0] == ' '
  {
  }

  lemma NmdcLine(cmd: Code, parameters: seq<string>)
    ensures var line := "$ADC" + cmd + Spaced(parameters, true);
            && |line| >= 7 && line[4..7] == cmd && (8 <= |line| <==> parameters != [])
            && (parameters != [] ==> line[8..] == Escaped(parameters[0], true) + Spaced(parameters[1..], true))
  {
    hide *;
    NmdcSplit(cmd, Spaced(parameters, true));
    SpacedEmpty(parameters);
    if parameters != [] {
      SpacedFirst(parameters);
      SkipSpace(Escaped(parameters[0], true) + Spaced(parameters[1..], true));
    }
  }

  lemma NmdcSplit(cmd: Code, rest: string)
    ensures var line := "$ADC" + cmd + rest; |line| == 7 + |rest| && line[4..7] == cmd && (rest != "" ==> line[8..] == rest[1..])
  {
    hide *;
  }

  lemma SkipSpace(s: string)
    ensures (" " + s)[1..] == s
  {
    hide *;
  }

  lemma SpacedEmpty(parameters: seq<string>)
    ensures Spaced(parameters, true) == "" <==> parameters == []
  {
    hide Escaped;
  }

  lemma SpacedFirst(parameters: seq<string>)
    requires parameters != []
    ensures Spaced(parameters, true) == " " + (Escaped(parameters[0], true) + Spaced(parameters[1..], true))
  {
    OneWord(Escaped(parameters[0], true), Spaced(parameters[1..], true));
  }

  lemma NmdcWords(parameters: seq<string>, g: Fields)
    ensures var r := Words(CLIENT, true, if parameters == [] then "" else Escaped(parameters[0], true) + Spaced(parameters[1..], true), "", g);
            if NoLineEnds(parameters) then r == Ok(g.(parameters := g.parameters + Trim(parameters))) else r.Err?
  {
    hide Words, Escaped, Spaced, Trim;
    if parameters == [] {
      NoneToRead(g);
    } else {
      var rest := Spaced(parameters[1..], true);
      if '\n' in parameters[0] {
        LineEndRead(CLIENT, parameters[0], rest, "", g);
      } else {
        EscapedRead(CLIENT, true, parameters[0], rest, "", g);
        assert "" + parameters[0] == parameters[0];
        if NoLineEnds(parameters) {
          ParametersRead(CLIENT, true, parameters[1..], parameters[0], g);
          assert [parameters[0]] + parameters[1..] == parameters;
        } else {
          LineEndsRead(CLIENT, parameters[1..], parameters[0], g);
        }
      }
    }
  }

  lemma NoneToRead(g: Fields)
    ensures Words(CLIENT, true, "", "", g) == Ok(g.(parameters := g.parameters + Trim([])))
  {
    assert g.parameters + [] == g.parameters;
  }

  lemma {:induction false} EscapedOneLine(s: string)
    ensures '\n' !in Escaped(s, false)
    decreases |s|
  {
    if s != "" {
      EscapedOneLine(s[1..]);
    }
  }

  lemma {:induction false} SpacedOneLine(parameters: seq<string>)
    ensures '\n' !in Spaced(parameters, false)
    decreases |parameters|
  {
    if parameters != [] {
      EscapedOneLine(parameters[0]);
      SpacedOneLine(parameters[1..]);
    }
  }

  /** A printed command has no line end but its own, whatever the parameters contain, unless its ids or its code bring one in. */
  lemma OneLine(kind: char, cmd: Code, sid: Sid, to: Sid, features: string, parameters: seq<string>)
    ensures '\n' in Line(kind, cmd, sid, to, features, parameters, false) <==>
            kind == '\n' || '\n' in CString(cmd) || (HasFrom(kind) && '\n' in sid) || (HasTo(kind) && '\n' in to) || (kind == FEATURE && '\n' in features)
  {
    SpacedOneLine(parameters);
  }
}
