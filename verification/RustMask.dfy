/**
 The comment and literal mask of scripts/m5-reader-sweep.py (`rust_structure`).

 The lexer is described on the rest of a line: `Step` says what the loop body does there and
 `Mask` iterates it. `MaskLine` and `RustStructure` are the loops with their four carried
 variables and the in-place `masked` list.
 */
module RustMask {
  import opened Wrappers

  /** The four variables carried from character to character and from line to line;
      `rawEnd` is the number of hashes of the raw string being skipped. */
  datatype Lexer = Lexer(blockDepth: nat, normalString: bool, escaped: bool, rawEnd: Option<nat>)

  const START := Lexer(0, false, false, None)

  predicate InCode(st: Lexer) {
    st.rawEnd == None && !st.normalString && st.blockDepth == 0
  }

  function Spaces(n: nat): (s: string)
    ensures |s| == n && forall k :: 0 <= k < n ==> s[k] == ' '
  {
    seq(n, _ => ' ')
  }

  // ---- recognisers, on the rest of the line ----

  function HashRun(s: string): (n: nat)
    ensures n <= |s| && (forall k :: 0 <= k < n ==> s[k] == '#') && (n < |s| ==> s[n] != '#')
  {
    if s != [] && s[0] == '#' then 1 + HashRun(s[1..]) else 0
  }

  /** `RAW_STRING_START`: r, at most 255 hashes, a quote; the number of hashes. */
  function RawStart(s: string): (h: Option<nat>)
    ensures h.Some? ==> h.value + 2 <= |s| && s[h.value + 1] == '"'
  {
    if s == [] || s[0] != 'r' then None
    else
      var n := HashRun(s[1..]);
      if n <= 255 && n + 1 < |s| && s[n + 1] == '"' then Some(n) else None
  }

  /** The rest of the line starts with the closing delimiter of an h-hash raw string. */
  predicate ClosesRaw(s: string, h: nat) {
    h < |s| && s[0] == '"' && forall k :: 1 <= k <= h ==> s[k] == '#'
  }

  /** `line.find(raw_end, i)` */
  function FindRaw(s: string, h: nat): (p: Option<nat>)
    ensures p.Some? ==> p.value + h < |s| && ClosesRaw(s[p.value..], h)
    ensures forall k :: 0 <= k < |s| && (p.Some? ==> k < p.value) ==> !ClosesRaw(s[k..], h)
    decreases |s|
  {
    if s == [] then None
    else if ClosesRaw(s, h) then Some(0)
    else
      var later := FindRaw(s[1..], h);
      assert forall k :: 1 <= k < |s| ==> s[k..] == s[1..][k - 1..];
      if later.Some? then Some(1 + later.value) else None
  }

  predicate IsHex(c: char) {
    '0' <= c <= '9' || 'A' <= c <= 'F' || 'a' <= c <= 'f'
  }

  predicate IsUnicodeDigit(c: char) {
    IsHex(c) || c == '_'
  }

  function DigitRun(s: string): (n: nat)
    ensures n <= |s| && (forall k :: 0 <= k < n ==> IsUnicodeDigit(s[k])) && (n < |s| ==> !IsUnicodeDigit(s[n]))
  {
    if s != [] && IsUnicodeDigit(s[0]) then 1 + DigitRun(s[1..]) else 0
  }

  /** The length of the escape sequence that follows a backslash, 0 when there is none. */
  function EscapeLength(s: string): (n: nat)
    ensures n <= |s|
  {
    if s == [] then 0
    else if s[0] in {'n', 'r', 't', '0', '\\', '\'', '"'} then 1
    else if s[0] == 'x' && |s| >= 3 && IsHex(s[1]) && IsHex(s[2]) then 3
    else if s[0] == 'u' && |s| >= 2 && s[1] == '{' then
      var n := DigitRun(s[2..]);
      if 1 <= n <= 6 && n + 2 < |s| && s[n + 2] == '}' then n + 3 else 0
    else 0
  }

  /** `CHAR_LITERAL`: the length of the character literal at the front, 0 when there is none. */
  function CharLiteral(s: string): (n: nat)
    ensures n <= |s| && (n > 0 ==> n >= 3 && s[0] == '\'')
  {
    if |s| < 3 || s[0] != '\'' then 0
    else if s[1] == '\\' then
      var n := EscapeLength(s[2..]);
      if n > 0 && n + 2 < |s| && s[n + 2] == '\'' then n + 3 else 0
    else if s[1] != '\'' && s[2] == '\'' then 3
    else 0
  }

  predicate Starts(s: string, a: char, b: char) {
    |s| >= 2 && s[0] == a && s[1] == b
  }

  /** In code, something other than a plain character starts here. */
  predicate Opens(s: string) {
    && s != []
    && (Starts(s, '/', '/') || Starts(s, '/', '*') || RawStart(s).Some? || s[0] == '"' || CharLiteral(s) > 0)
  }

  // ---- the lexer ----

  /** One iteration of the loop: how far it moves, whether it keeps the character it is at,
      and the variables afterwards. */
  datatype Move = Move(length: nat, keep: bool, after: Lexer)

  function Step(s: string, st: Lexer): (m: Move)
    requires s != []
    ensures 1 <= m.length <= |s|
    ensures m.keep ==> m.length == 1 && m.after == st && InCode(st) && !Opens(s)
  {
    if st.rawEnd.Some? then
      match FindRaw(s, st.rawEnd.value)
      case None => Move(|s|, false, st)
      case Some(p) => Move(p + 1 + st.rawEnd.value, false, st.(rawEnd := None))
    else if st.normalString then
      if st.escaped then Move(1, false, st.(escaped := false))
      else if s[0] == '\\' then Move(1, false, st.(escaped := true))
      else if s[0] == '"' then Move(1, false, st.(normalString := false))
      else Move(1, false, st)
    else if st.blockDepth > 0 then
      if Starts(s, '/', '*') then Move(2, false, st.(blockDepth := st.blockDepth + 1))
      else if Starts(s, '*', '/') then Move(2, false, st.(blockDepth := st.blockDepth - 1))
      else Move(1, false, st)
    else if Starts(s, '/', '/') then Move(|s|, false, st)
    else if Starts(s, '/', '*') then Move(2, false, st.(blockDepth := 1))
    else if RawStart(s).Some? then Move(RawStart(s).value + 2, false, st.(rawEnd := RawStart(s)))
    else if s[0] == '"' then Move(1, false, st.(normalString := true, escaped := false))
    else if s[0] == '\'' && CharLiteral(s) > 0 then Move(CharLiteral(s), false, st)
    else Move(1, true, st)
  }

  datatype Masked = Masked(text: string, after: Lexer)

  function Mask(s: string, st: Lexer): (m: Masked)
    ensures |m.text| == |s|
    ensures forall k :: 0 <= k < |s| ==> m.text[k] == s[k] || m.text[k] == ' '
    decreases |s|
  {
    if s == [] then Masked("", st)
    else
      var step := Step(s, st);
      var rest := Mask(s[step.length..], step.after);
      if step.keep then Masked([s[0]] + rest.text, rest.after)
      else Masked(Spaces(step.length) + rest.text, rest.after)
  }

  /** Having written `done` and carrying `now`, the rest of the line completes the mask. */
  ghost predicate Reached(line: string, st: Lexer, done: string, now: Lexer) {
    && |done| <= |line|
    && var rest := Mask(line[|done|..], now);
       Mask(line, st) == Masked(done + rest.text, rest.after)
  }

  lemma ReachNext(line: string, st: Lexer, done: string, now: Lexer)
    requires Reached(line, st, done, now) && |done| < |line|
    ensures var s := line[|done|..];
            var step := Step(s, now);
            Reached(line, st, done + (if step.keep then [s[0]] else Spaces(step.length)), step.after)
  {
    hide Step, Opens, Mask;
    var s := line[|done|..];
    var step := Step(s, now);
    MaskStep(s, now);
    assert s[step.length..] == line[|done| + step.length..];
    var written := if step.keep then [s[0]] else Spaces(step.length);
    assert done + (written + Mask(s[step.length..], step.after).text)
        == done + written + Mask(s[step.length..], step.after).text;
  }

  lemma ReachEnds(line: string, st: Lexer)
    ensures Reached(line, st, "", st)
    ensures forall done, now :: Reached(line, st, done, now) && |done| == |line| ==> Mask(line, st) == Masked(done, now)
  {
    assert line[0..] == line;
    forall done, now | Reached(line, st, done, now) && |done| == |line|
      ensures Mask(line, st) == Masked(done, now)
    {
      assert line[|done|..] == "";
      assert done + "" == done;
    }
  }

  method MaskLine(line: string, st: Lexer) returns (text: string, after: Lexer)
    ensures Masked(text, after) == Mask(line, st)
  {
    hide Mask, Reached, RawStart, CharLiteral, FindRaw, Opens;
    var blockDepth, normalString, escaped, rawEnd := st.blockDepth, st.normalString, st.escaped, st.rawEnd;
    var masked := new char[|line|](_ => ' ');
    var i := 0;
    ReachEnds(line, st);
    assert masked[..0] == "";
    while i < |line|
      invariant 0 <= i <= |line|
      invariant forall k :: i <= k < |line| ==> masked[k] == ' '
      invariant Reached(line, st, masked[..i], Lexer(blockDepth, normalString, escaped, rawEnd))
    {
      var s := line[i..];
      ghost var done, step := masked[..i], Step(s, Lexer(blockDepth, normalString, escaped, rawEnd));
      ReachNext(line, st, done, Lexer(blockDepth, normalString, escaped, rawEnd));
      if rawEnd != None {
        var end := FindRaw(s, rawEnd.value);
        if end == None {
          i := |line|;
        } else {
          i := i + end.value + 1 + rawEnd.value;
          rawEnd := None;
        }
      } else if normalString {
        var ch := s[0];
        if escaped {
          escaped := false;
        } else if ch == '\\' {
          escaped := true;
        } else if ch == '"' {
          normalString := false;
        }
        i := i + 1;
      } else if blockDepth > 0 {
        if Starts(s, '/', '*') {
          blockDepth := blockDepth + 1;
          i := i + 2;
        } else if Starts(s, '*', '/') {
          blockDepth := blockDepth - 1;
          i := i + 2;
        } else {
          i := i + 1;
        }
      } else if Starts(s, '/', '/') {
        i := |line|;
      } else if Starts(s, '/', '*') {
        blockDepth := 1;
        i := i + 2;
      } else if RawStart(s) != None {
        rawEnd := RawStart(s);
        i := i + rawEnd.value + 2;
      } else if s[0] == '"' {
        normalString := true;
        escaped := false;
        i := i + 1;
      } else if s[0] == '\'' && CharLiteral(s) > 0 {
        i := i + CharLiteral(s);
      } else {
        masked[i] := s[0];
        i := i + 1;
      }
      assert i == |done| + step.length && Lexer(blockDepth, normalString, escaped, rawEnd) == step.after;
      assert masked[..i] == done + (if step.keep then [s[0]] else Spaces(step.length));
    }
    assert masked[..i] == masked[..];
    return masked[..], Lexer(blockDepth, normalString, escaped, rawEnd);
  }

  lemma MaskStep(s: string, st: Lexer)
    requires s != []
    ensures var step := Step(s, st);
            var rest := Mask(s[step.length..], step.after);
            && Mask(s, st).after == rest.after
            && Mask(s, st).text == (if step.keep then [s[0]] else Spaces(step.length)) + rest.text
  {
  }

  /** Mask a whole file, carrying the lexer from line to line. */
  function MaskLines(lines: seq<string>, st: Lexer): (out: seq<string>)
    ensures |out| == |lines|
    ensures forall k :: 0 <= k < |lines| ==> |out[k]| == |lines[k]|
  {
    if lines == [] then []
    else
      var first := Mask(lines[0], st);
      [first.text] + MaskLines(lines[1..], first.after)
  }

  method RustStructure(lines: seq<string>) returns (out: seq<string>)
    ensures out == MaskLines(lines, START)
  {
    out := [];
    var st := START;
    for k := 0 to |lines|
      invariant MaskLines(lines, START) == out + MaskLines(lines[k..], st)
    {
      var text, after := MaskLine(lines[k], st);
      assert lines[k..][1..] == lines[k + 1..];
      out := out + [text];
      st := after;
    }
  }

  // ---- the mask is clean, and cleaning again changes nothing ----

  /** Nothing the lexer reacts to starts anywhere in m: in particular it holds no quote, no
      `//`, no slash-star and no character literal. */
  ghost predicate IsClean(m: string) {
    forall k :: 0 <= k < |m| ==> !Opens(m[k..])
  }

  /** m is s with some characters blanked. */
  ghost predicate Blanks(m: string, s: string) {
    |m| == |s| && forall k :: 0 <= k < |s| ==> m[k] == s[k] || m[k] == ' '
  }

  /** From code, blanking the first character blanks the second: nothing skipped is shorter
      than two characters. */
  lemma NoLoneBlank(s: string, st: Lexer)
    requires InCode(st) && |s| >= 2
    ensures Mask(s, st).text[0] == s[0] || Mask(s, st).text[1] == ' '
  {
    hide Mask, CharLiteral, RawStart;
    MaskStep(s, st);
    var step := Step(s, st);
    if !step.keep && step.length == 1 {
      MaskStep(s[1..], step.after);
    }
  }

  lemma {:induction false} SameDigitRun(m: string, s: string)
    requires Blanks(m, s) && DigitRun(m) < |m| && m[DigitRun(m)] != ' '
    ensures DigitRun(s) == DigitRun(m)
  {
    if m != [] && IsUnicodeDigit(m[0]) {
      SameDigitRun(m[1..], s[1..]);
    }
  }

  lemma SameEscape(m: string, s: string)
    requires Blanks(m, s) && EscapeLength(m) > 0
    ensures EscapeLength(s) == EscapeLength(m)
  {
    if m[0] == 'u' {
      SameDigitRun(m[2..], s[2..]);
    }
  }

  /** A character literal in a blanked text was one before, unless its one character was
      blanked on its own. */
  lemma SameCharLiteral(m: string, s: string)
    requires Blanks(m, s) && CharLiteral(m) > 0
    requires m[1] == s[1] || m[2] == ' '
    ensures CharLiteral(s) > 0
  {
    hide EscapeLength;
    if m[1] == '\\' {
      SameEscape(m[2..], s[2..]);
    }
  }

  lemma {:induction false} SameHashRun(m: string, s: string)
    requires Blanks(m, s) && HashRun(m) < |m| && m[HashRun(m)] != ' '
    ensures HashRun(s) == HashRun(m)
  {
    if m != [] && m[0] == '#' {
      SameHashRun(m[1..], s[1..]);
    }
  }

  /** Where the lexer keeps a character, the masked text does not open anything either. */
  lemma KeptStaysClosed(s: string, st: Lexer)
    requires s != [] && Step(s, st).keep
    ensures !Opens([s[0]] + Mask(s[1..], st).text)
  {
    hide Step, Mask, CharLiteral, HashRun;
    var rest := Mask(s[1..], st).text;
    var m := [s[0]] + rest;
    assert Blanks(m, s);
    if |s| > 2 {
      NoLoneBlank(s[1..], st);
    }
    if CharLiteral(m) > 0 {
      SameCharLiteral(m, s);
    }
    if RawStart(m).Some? {
      SameHashRun(m[1..], s[1..]);
    }
  }

  lemma {:induction false} MaskIsClean(s: string, st: Lexer)
    ensures IsClean(Mask(s, st).text)
    decreases |s|
  {
    hide Step, Mask, Opens;
    MaskEmpty(st);
    if s != [] {
      var step := Step(s, st);
      var rest := Mask(s[step.length..], step.after).text;
      var written := if step.keep then [s[0]] else Spaces(step.length);
      MaskStep(s, st);
      MaskIsClean(s[step.length..], step.after);
      var m := written + rest;
      forall k | 0 <= k < |m|
        ensures !Opens(m[k..])
      {
        if k >= step.length {
          assert m[k..] == rest[k - step.length..];
        } else if step.keep {
          KeptStaysClosed(s, st);
          assert m[k..] == m;
        } else {
          SpaceOpensNothing(m[k..]);
        }
      }
    }
  }

  lemma MaskEmpty(st: Lexer)
    ensures Mask("", st) == Masked("", st)
  {
  }

  lemma SpaceOpensNothing(s: string)
    requires s != [] && s[0] == ' '
    ensures !Opens(s)
  {
  }

  lemma {:induction false} CleanIsKept(m: string)
    requires IsClean(m)
    ensures Mask(m, START) == Masked(m, START)
  {
    hide Opens, Mask;
    MaskEmpty(START);
    if m != [] {
      assert m[0..] == m;
      ClosedIsKept(m);
      MaskStep(m, START);
      forall k | 0 <= k < |m[1..]|
        ensures !Opens(m[1..][k..])
      {
        assert m[1..][k..] == m[k + 1..];
      }
      CleanIsKept(m[1..]);
    }
  }

  lemma ClosedIsKept(s: string)
    requires s != [] && !Opens(s)
    ensures Step(s, START) == Move(1, true, START)
  {
    hide CharLiteral, RawStart;
  }

  /** Main result: from any carried state the masked line has the line's length, is the line
      with characters blanked, and holds no quote, comment opener or character literal. */
  lemma MaskIsSound(s: string, st: Lexer)
    ensures Blanks(Mask(s, st).text, s) && IsClean(Mask(s, st).text)
    ensures var m := Mask(s, st).text;
            && '"' !in m
            && (forall k :: 0 <= k < |m| - 1 ==> !(m[k] == '/' && (m[k + 1] == '/' || m[k + 1] == '*')))
  {
    hide Mask;
    MaskIsClean(s, st);
    var m := Mask(s, st).text;
    forall k | 0 <= k < |m|
      ensures m[k] != '"'
      ensures k + 1 < |m| ==> !(m[k] == '/' && (m[k + 1] == '/' || m[k + 1] == '*'))
    {
      assert !Opens(m[k..]);
    }
  }

  /** Main result: masking is idempotent, file by file, whatever state the first pass started in. */
  lemma {:induction false} MaskIsIdempotent(lines: seq<string>, st: Lexer)
    ensures MaskLines(MaskLines(lines, st), START) == MaskLines(lines, st)
    decreases |lines|
  {
    hide Mask, IsClean;
    if lines != [] {
      var first := Mask(lines[0], st);
      MaskIsClean(lines[0], st);
      CleanIsKept(first.text);
      MaskIsIdempotent(lines[1..], first.after);
      assert MaskLines(lines, st)[1..] == MaskLines(lines[1..], first.after);
    }
  }
}
