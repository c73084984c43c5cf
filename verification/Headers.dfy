/**
 The function header pattern of scripts/m5-reader-sweep.py (`FN`), matched at the start of a
 masked line: optional `pub`, `async`, `unsafe` and `extern "..."`, then `fn` and a name. No
 two of its alternatives start with the same character, so the first match is the only one.
 `Decl` is the header of a Rust function with all its qualifiers, of which the pattern knows
 some.
 */
module Headers {
  import opened Wrappers
  import opened RustMask
  import opened FnSpans
  import opened Declarations

  /** What is used of `\s` and `\w`. */
  ghost predicate Ordinary(cls: Classes) {
    && cls.Valid()
    && (forall c :: 'a' <= c <= 'z' ==> cls.word(c))
    && cls.space(' ')
    && (forall c :: cls.space(c) || cls.word(c) ==> IsQuiet(c) && c != '(' && c != '{' && c != '}')
  }

  /** Not part of any literal or comment opener. */
  predicate IsQuiet(c: char) {
    c != '"' && c != '\'' && c != '/' && c != '#'
  }

  // ---- the pattern, on the rest of the line ----

  function SpaceRun(cls: Classes, s: string): (n: nat)
    ensures n <= |s|
  {
    Run(cls.space, s, 0)
  }

  /** `w\s+`, 0 if it does not match. */
  function WordLength(cls: Classes, s: string, w: string): (n: nat)
    ensures n <= |s|
  {
    if w <= s && SpaceRun(cls, s[|w|..]) > 0 then |w| + SpaceRun(cls, s[|w|..]) else 0
  }

  /** The position of c, |s| if it does not occur. */
  function FindChar(s: string, c: char): (n: nat)
    ensures n <= |s| && (forall k :: 0 <= k < n ==> s[k] != c) && (n < |s| ==> s[n] == c)
  {
    if s == "" || s[0] == c then 0 else 1 + FindChar(s[1..], c)
  }

  /** `pub(?:\([^)]*\))?\s+`, 0 if it does not match. */
  function VisLength(cls: Classes, s: string): (n: nat)
    ensures n <= |s|
  {
    if !("pub(" <= s) then WordLength(cls, s, "pub")
    else
      var close := FindChar(s[4..], ')');
      if close == |s| - 4 || SpaceRun(cls, s[5 + close..]) == 0 then 0
      else 5 + close + SpaceRun(cls, s[5 + close..])
  }

  /** `"[^"]*"\s+`, 0 if it does not match. */
  function QuotedLength(cls: Classes, s: string): (n: nat)
    ensures n <= |s|
  {
    if !("\"" <= s) then 0
    else
      var close := FindChar(s[1..], '"');
      if close == |s| - 1 || SpaceRun(cls, s[close + 2..]) == 0 then 0
      else close + 2 + SpaceRun(cls, s[close + 2..])
  }

  /** `extern\s+"[^"]*"\s+`, 0 if it does not match. */
  function ExternLength(cls: Classes, s: string): (n: nat)
    ensures n <= |s|
  {
    var open := WordLength(cls, s, "extern");
    if open == 0 || QuotedLength(cls, s[open..]) == 0 then 0 else open + QuotedLength(cls, s[open..])
  }

  /** `async`, `unsafe` and `extern`, each if it is there. */
  function ModifierLength(cls: Classes, s: string): (n: nat)
    ensures n <= |s|
  {
    var a := WordLength(cls, s, "async");
    a + UnsafeLength(cls, s[a..])
  }

  function UnsafeLength(cls: Classes, s: string): (n: nat)
    ensures n <= |s|
  {
    var u := WordLength(cls, s, "unsafe");
    u + ExternLength(cls, s[u..])
  }

  /** Everything before `fn`. */
  function FrontLength(cls: Classes, s: string): (n: nat)
    ensures n <= |s|
  {
    var indent := SpaceRun(cls, s);
    var vis := VisLength(cls, s[indent..]);
    indent + vis + ModifierLength(cls, s[indent + vis..])
  }

  /** `fn\s+(\w+)`: the name. */
  function NameOf(cls: Classes, s: string): Option<string> {
    var open := WordLength(cls, s, "fn");
    var n := Run(cls.word, s[open..], 0);
    if open == 0 || n == 0 then None else Some(s[open..open + n])
  }

  /** `FN.match(line)`: where its `fn` starts, and its name. */
  function MatchFn(cls: Classes, line: string): Option<(nat, string)> {
    var at := FrontLength(cls, line);
    var name := NameOf(cls, line[at..]);
    if name.Some? then Some((at, name.value)) else None
  }

  /** `match.start(3)`: where the name starts. */
  function NameStart(cls: Classes, line: string): nat
    requires MatchFn(cls, line).Some?
  {
    MatchFn(cls, line).value.0 + WordLength(cls, line[FrontLength(cls, line)..], "fn")
  }

  function FnHeader(cls: Classes): Header {
    line => var m := MatchFn(cls, line); if m.Some? then Some(m.value.1) else None
  }

  // ---- what it matches ----

  /** `pub`, `pub(scope)`, or `pub (scope)` with space before the scope. */
  datatype Vis = Private | Public(scope: Option<string>, gap: string) | Spaced(lead: string, inner: string, gap: string)

  /** `extern "abi"`, `extern` alone, or `extern` with a raw string. */
  datatype Ext =
    | NoExtern
    | Extern(gap: string, abi: string, after: string)
    | BareExtern(gap: string)
    | RawExtern(gap: string, literal: string)

  /** The header of a Rust function by its parts, in the order of the language; qualifiers are given
      by the space that follows them. */
  datatype Decl = Decl(indent: string, attributes: string, vis: Vis,
                       constGap: Option<string>, asyncGap: Option<string>, safeGap: Option<string>,
                       unsafeGap: Option<string>, ext: Ext, gap: string, isRaw: bool, name: string)

  function RenderVis(v: Vis): string {
    match v
    case Private => ""
    case Public(scope, gap) => "pub" + (if scope.Some? then "(" + scope.value + ")" else "") + gap
    case Spaced(lead, inner, gap) => "pub" + (lead + ("(" + (inner + ")" + gap)))
  }

  function RenderWord(w: string, gap: Option<string>): string {
    if gap.Some? then w + gap.value else ""
  }

  function RenderQuoted(abi: string, after: string): (s: string)
    ensures |s| == |abi| + 2 + |after| && s[0] == '"'
  {
    "\"" + (abi + (['"'] + after))
  }

  function RenderExt(e: Ext): string {
    match e
    case NoExtern => ""
    case Extern(gap, abi, after) => "extern" + (gap + RenderQuoted(abi, after))
    case BareExtern(gap) => "extern" + gap
    case RawExtern(gap, literal) => "extern" + (gap + literal)
  }

  function Modifiers(d: Decl): string {
    RenderWord("async", d.asyncGap) + (RenderWord("unsafe", d.unsafeGap) + RenderExt(d.ext))
  }

  function Qualifiers(d: Decl): string {
    RenderWord("const", d.constGap)
    + (RenderWord("async", d.asyncGap)
       + (RenderWord("safe", d.safeGap) + (RenderWord("unsafe", d.unsafeGap) + RenderExt(d.ext))))
  }

  function Front(d: Decl): string {
    d.indent + (d.attributes + (RenderVis(d.vis) + Qualifiers(d)))
  }

  function RenderFn(d: Decl): string {
    "fn" + d.gap + ((if d.isRaw then "r#" else "") + d.name)
  }

  /** Nothing before `fn` that the pattern has no alternative for. */
  predicate HasKnownFront(d: Decl) {
    && d.attributes == "" && !d.vis.Spaced? && d.constGap == None && d.safeGap == None
    && (d.ext.NoExtern? || d.ext.Extern?)
  }

  predicate InPattern(d: Decl) {
    HasKnownFront(d) && !d.isRaw
  }

  /** The front without the parts the pattern does not know. */
  function KnownFront(d: Decl): string {
    d.indent + (RenderVis(d.vis) + Modifiers(d))
  }

  lemma KnownIsFront(d: Decl)
    requires HasKnownFront(d)
    ensures Front(d) == KnownFront(d)
  {
    hide RenderVis, RenderExt;
    assert RenderWord("const", None) == RenderWord("safe", None) == "";
  }

  ghost predicate IsGap(cls: Classes, s: string) {
    s != "" && forall k :: 0 <= k < |s| ==> cls.space(s[k])
  }

  ghost predicate GoodVis(cls: Classes, v: Vis) {
    match v
    case Private => true
    case Public(scope, gap) => IsGap(cls, gap) && (scope.Some? ==> ')' !in scope.value)
    case Spaced(lead, inner, gap) => IsGap(cls, lead) && IsGap(cls, gap) && ')' !in inner
  }

  ghost predicate GoodExt(cls: Classes, e: Ext) {
    match e
    case NoExtern => true
    case Extern(gap, abi, after) => IsGap(cls, gap) && '"' !in abi && IsGap(cls, after)
    case BareExtern(gap) => IsGap(cls, gap)
    case RawExtern(gap, literal) => IsGap(cls, gap) && "r" <= literal
  }

  ghost predicate GoodDecl(cls: Classes, d: Decl) {
    && (d.indent == "" || IsGap(cls, d.indent)) && (d.attributes == "" || "#" <= d.attributes) && GoodVis(cls, d.vis)
    && (d.constGap.Some? ==> IsGap(cls, d.constGap.value)) && (d.safeGap.Some? ==> IsGap(cls, d.safeGap.value))
    && (d.asyncGap.Some? ==> IsGap(cls, d.asyncGap.value))
    && (d.unsafeGap.Some? ==> IsGap(cls, d.unsafeGap.value))
    && GoodExt(cls, d.ext) && IsGap(cls, d.gap)
    && d.name != "" && forall k :: 0 <= k < |d.name| ==> cls.word(d.name[k])
  }

  /** The rest of the line after the name. */
  ghost predicate EndsName(cls: Classes, tail: string) {
    tail != "" ==> !cls.word(tail[0])
  }

  lemma PlainFn(d: Decl)
    requires !d.isRaw
    ensures RenderFn(d) == "fn" + d.gap + d.name
  {
    assert "" + d.name == d.name;
  }

  // ---- greedy runs ----

  lemma GapRun(cls: Classes, gap: string, rest: string)
    requires (gap == "" || IsGap(cls, gap)) && (rest != "" ==> !cls.space(rest[0]))
    ensures SpaceRun(cls, gap + rest) == |gap|
  {
    var s := gap + rest;
    assert |gap| < |s| ==> s[|gap|] == rest[0];
    RunIs(cls.space, s, 0, |gap|);
  }

  /** Starts with a letter or a parenthesis, and not with the given character. */
  ghost predicate Letter(s: string, avoid: char) {
    s != "" && ('a' <= s[0] <= 'z' || s[0] == '(') && s[0] != avoid
  }

  lemma LetterIsNoSpace(cls: Classes, s: string, avoid: char)
    requires Ordinary(cls) && Letter(s, avoid)
    ensures !cls.space(s[0])
  {
    assert cls.word(s[0]) || s[0] == '(';
  }

  lemma WordIs(cls: Classes, w: string, gap: Option<string>, rest: string)
    requires Ordinary(cls) && w != "" && Letter(rest, w[0]) && (gap.Some? ==> IsGap(cls, gap.value))
    ensures WordLength(cls, RenderWord(w, gap) + rest, w) == |RenderWord(w, gap)|
  {
    var s := RenderWord(w, gap) + rest;
    LetterIsNoSpace(cls, rest, w[0]);
    if gap.Some? {
      assert s == w + (gap.value + rest) && s[|w|..] == gap.value + rest;
      GapRun(cls, gap.value, rest);
    } else {
      assert s == rest && !(w <= s);
    }
  }

  lemma FindCharIs(p: string, c: char, rest: string)
    requires c !in p
    ensures FindChar(p + [c] + rest, c) == |p|
  {
    var s := p + [c] + rest;
    assert s[|p|] == c && forall k :: 0 <= k < |p| ==> s[k] == p[k];
  }

  lemma Drop(a: string, b: string)
    ensures a <= a + b && (a + b)[|a|..] == b
  {
  }

  lemma GapAfter(cls: Classes, w: string, gap: string, rest: string)
    requires IsGap(cls, gap) && (rest != "" ==> !cls.space(rest[0]))
    ensures WordLength(cls, w + (gap + rest), w) == |w + gap|
  {
    hide SpaceRun;
    Drop(w, gap + rest);
    GapRun(cls, gap, rest);
  }

  lemma ScopedVisIs(cls: Classes, scope: string, gap: string, rest: string)
    requires Ordinary(cls) && ')' !in scope && IsGap(cls, gap) && Letter(rest, 'p')
    ensures VisLength(cls, "pub(" + (scope + [')'] + (gap + rest))) == |"pub("| + |scope| + 1 + |gap|
  {
    hide SpaceRun, FindChar, Ordinary, IsGap;
    var after := gap + rest;
    var s := "pub(" + (scope + [')'] + after);
    LetterIsNoSpace(cls, rest, 'p');
    Drop("pub(", scope + [')'] + after);
    FindCharIs(scope, ')', after);
    Drop("pub(" + scope + [')'], after);
    assert s == "pub(" + scope + [')'] + after;
    GapRun(cls, gap, rest);
    assert gap != "" by { GapIsSome(cls, gap); }
  }

  lemma GapIsSome(cls: Classes, gap: string)
    requires IsGap(cls, gap)
    ensures gap != "" && cls.space(gap[0])
  {
  }

  lemma PlainVisIs(cls: Classes, gap: string, rest: string)
    requires Ordinary(cls) && IsGap(cls, gap) && Letter(rest, 'p')
    ensures VisLength(cls, "pub" + (gap + rest)) == |"pub"| + |gap|
  {
    hide WordLength;
    var s := "pub" + (gap + rest);
    LetterIsNoSpace(cls, rest, 'p');
    GapIsSome(cls, gap);
    assert s[3] == gap[0];
    GapAfter(cls, "pub", gap, rest);
  }

  lemma VisIs(cls: Classes, v: Vis, rest: string)
    requires Ordinary(cls) && GoodVis(cls, v) && !v.Spaced? && Letter(rest, 'p')
    ensures VisLength(cls, RenderVis(v) + rest) == |RenderVis(v)|
  {
    hide VisLength, Ordinary, IsGap;
    var s := RenderVis(v) + rest;
    match v {
      case Private =>
        assert s == rest;
        NoPub(cls, rest);
      case Public(scope, gap) =>
        if scope.Some? {
          assert s == "pub(" + (scope.value + [')'] + (gap + rest));
          ScopedVisIs(cls, scope.value, gap, rest);
        } else {
          assert s == "pub" + (gap + rest);
          PlainVisIs(cls, gap, rest);
        }
    }
  }

  lemma NoPub(cls: Classes, rest: string)
    requires Letter(rest, 'p')
    ensures VisLength(cls, rest) == 0
  {
    assert "pub"[0] == 'p' && "pub("[0] == 'p';
  }

  lemma QuotedIs(cls: Classes, abi: string, after: string, rest: string)
    requires Ordinary(cls) && '"' !in abi && IsGap(cls, after) && Letter(rest, 'e')
    ensures QuotedLength(cls, RenderQuoted(abi, after) + rest) == |abi| + 2 + |after|
  {
    hide SpaceRun, FindChar, Ordinary, IsGap;
    var s, tail := RenderQuoted(abi, after) + rest, after + rest;
    assert s == "\"" + (abi + ['"'] + tail);
    FindCharIs(abi, '"', tail);
    assert s[1..] == abi + ['"'] + tail && s[|abi| + 2..] == tail;
    LetterIsNoSpace(cls, rest, 'e');
    GapRun(cls, after, rest);
    GapIsSome(cls, after);
  }

  lemma QuoteIsNoSpace(cls: Classes)
    requires Ordinary(cls)
    ensures !cls.space('"')
  {
  }

  lemma ExtIs(cls: Classes, e: Ext, rest: string)
    requires Ordinary(cls) && GoodExt(cls, e) && (e.NoExtern? || e.Extern?) && Letter(rest, 'e')
    ensures ExternLength(cls, RenderExt(e) + rest) == |RenderExt(e)|
  {
    hide ExternLength, Ordinary, IsGap;
    var s := RenderExt(e) + rest;
    match e {
      case NoExtern =>
        assert s == rest;
        NoExternHere(cls, rest);
      case Extern(gap, abi, after) =>
        QuotedExtIs(cls, gap, abi, after, rest);
    }
  }

  lemma QuotedExtIs(cls: Classes, gap: string, abi: string, after: string, rest: string)
    requires Ordinary(cls) && IsGap(cls, gap) && '"' !in abi && IsGap(cls, after) && Letter(rest, 'e')
    ensures ExternLength(cls, RenderExt(Extern(gap, abi, after)) + rest) == |RenderExt(Extern(gap, abi, after))|
  {
    hide WordLength, QuotedLength, Ordinary, IsGap, RenderQuoted;
    var quoted := RenderQuoted(abi, after) + rest;
    ThreeParts("extern", gap, RenderQuoted(abi, after), rest);
    QuoteIsNoSpace(cls);
    GapAfter(cls, "extern", gap, quoted);
    QuotedIs(cls, abi, after, rest);
    Drop("extern" + gap, quoted);
  }

  lemma ThreeParts(a: string, b: string, c: string, d: string)
    ensures (a + (b + c)) + d == a + (b + (c + d)) == (a + b) + (c + d)
  {
  }

  lemma NoExternHere(cls: Classes, rest: string)
    requires Letter(rest, 'e')
    ensures ExternLength(cls, rest) == 0
  {
    assert "extern"[0] == 'e';
  }

  // ---- the whole pattern ----

  lemma ExtLetter(e: Ext, rest: string)
    requires Letter(rest, 'u') && Letter(rest, 'a') && Letter(rest, 'p')
    ensures Letter(RenderExt(e) + rest, 'u') && Letter(RenderExt(e) + rest, 'a') && Letter(RenderExt(e) + rest, 'p')
  {
    assert e == NoExtern ==> RenderExt(e) + rest == rest;
  }

  lemma WordLetter(w: string, gap: Option<string>, rest: string, avoid: char)
    requires Letter(w, avoid) && Letter(rest, avoid)
    ensures Letter(RenderWord(w, gap) + rest, avoid)
  {
    assert gap == None ==> RenderWord(w, gap) + rest == rest;
  }

  /** No modifier starts here. */
  ghost predicate StartsFn(cls: Classes, e: Ext, rest: string) {
    && Letter(rest, 'u') && Letter(rest, 'a') && Letter(rest, 'p')
    && ExternLength(cls, RenderExt(e) + rest) == |RenderExt(e)|
  }

  lemma ModifiersAre(cls: Classes, d: Decl, rest: string)
    requires Ordinary(cls) && GoodDecl(cls, d) && StartsFn(cls, d.ext, rest)
    ensures ModifierLength(cls, Modifiers(d) + rest) == |Modifiers(d)|
    ensures Letter(Modifiers(d) + rest, 'p')
  {
    hide WordLength, ExternLength, RenderWord, RenderExt, Ordinary;
    var r3 := RenderExt(d.ext) + rest;
    var r2 := RenderWord("unsafe", d.unsafeGap) + r3;
    ExtLetter(d.ext, rest);
    WordLetter("unsafe", d.unsafeGap, r3, 'a');
    WordLetter("unsafe", d.unsafeGap, r3, 'p');
    WordIs(cls, "unsafe", d.unsafeGap, r3);
    Drop(RenderWord("unsafe", d.unsafeGap), r3);
    assert UnsafeLength(cls, r2) == |RenderWord("unsafe", d.unsafeGap)| + |RenderExt(d.ext)|;
    WordLetter("async", d.asyncGap, r2, 'p');
    WordIs(cls, "async", d.asyncGap, r2);
    Drop(RenderWord("async", d.asyncGap), r2);
    assert Modifiers(d) + rest == RenderWord("async", d.asyncGap) + r2;
  }

  lemma VisStarts(cls: Classes, v: Vis, rest: string)
    requires Ordinary(cls) && Letter(rest, 'p')
    ensures RenderVis(v) + rest != "" && !cls.space((RenderVis(v) + rest)[0])
  {
    LetterIsNoSpace(cls, rest, 'p');
    assert cls.word('p');
    assert v == Private ==> RenderVis(v) + rest == rest;
  }

  lemma FrontIs(cls: Classes, d: Decl, rest: string)
    requires Ordinary(cls) && GoodDecl(cls, d) && !d.vis.Spaced? && StartsFn(cls, d.ext, rest)
    ensures FrontLength(cls, KnownFront(d) + rest) == |KnownFront(d)|
  {
    hide SpaceRun, VisLength, ModifierLength, RenderVis, Modifiers, Ordinary, StartsFn;
    var r2 := Modifiers(d) + rest;
    var r1 := RenderVis(d.vis) + r2;
    ModifiersAre(cls, d, rest);
    VisStarts(cls, d.vis, r2);
    VisIs(cls, d.vis, r2);
    GapRun(cls, d.indent, r1);
    assert KnownFront(d) + rest == d.indent + r1;
    assert KnownFront(d) + rest == (d.indent + RenderVis(d.vis)) + r2;
    Drop(d.indent, r1);
    Drop(d.indent + RenderVis(d.vis), r2);
  }

  lemma NameIs(cls: Classes, d: Decl, tail: string)
    requires Ordinary(cls) && GoodDecl(cls, d) && !d.isRaw && EndsName(cls, tail)
    ensures NameOf(cls, RenderFn(d) + tail) == Some(d.name)
  {
    hide SpaceRun, RenderFn;
    PlainFn(d);
    var named := d.name + tail;
    assert RenderFn(d) + tail == "fn" + (d.gap + named) && RenderFn(d) + tail == ("fn" + d.gap) + named;
    assert cls.word(named[0]);
    GapAfter(cls, "fn", d.gap, named);
    Drop("fn" + d.gap, named);
    assert |d.name| < |named| ==> named[|d.name|] == tail[0];
    RunIs(cls.word, named, 0, |d.name|);
  }

  lemma DeclIsMatched(cls: Classes, d: Decl, tail: string)
    requires Ordinary(cls) && GoodDecl(cls, d) && InPattern(d) && EndsName(cls, tail)
    ensures MatchFn(cls, Front(d) + (RenderFn(d) + tail)) == Some((|Front(d)|, d.name))
  {
    hide FrontLength, NameOf, Front, KnownFront, ExternLength, RenderExt;
    KnownIsFront(d);
    var rest := RenderFn(d) + tail;
    ExtIs(cls, d.ext, rest);
    FrontIs(cls, d, rest);
    NameIs(cls, d, tail);
    Drop(Front(d), rest);
  }

  // ---- and nothing else ----

  lemma RunIsGap(cls: Classes, s: string)
    ensures SpaceRun(cls, s) > 0 ==> IsGap(cls, s[..SpaceRun(cls, s)])
  {
  }

  lemma GapOf(cls: Classes, s: string, w: string) returns (gap: string)
    requires WordLength(cls, s, w) > 0
    ensures IsGap(cls, gap) && w + gap == s[..WordLength(cls, s, w)]
  {
    hide SpaceRun, IsGap;
    var n := WordLength(cls, s, w);
    RunIsGap(cls, s[|w|..]);
    gap := s[|w|..n];
    assert s[|w|..n] == s[|w|..][..n - |w|];
  }

  lemma WordOf(cls: Classes, s: string, w: string) returns (gap: Option<string>)
    ensures gap.Some? ==> IsGap(cls, gap.value)
    ensures RenderWord(w, gap) == s[..WordLength(cls, s, w)]
  {
    hide WordLength, IsGap;
    gap := None;
    if WordLength(cls, s, w) > 0 {
      var g := GapOf(cls, s, w);
      gap := Some(g);
    }
  }

  lemma ScopeOf(cls: Classes, s: string) returns (scope: string, gap: string)
    requires "pub(" <= s && VisLength(cls, s) > 0
    ensures ')' !in scope && IsGap(cls, gap) && "pub(" + (scope + ([')'] + gap)) == s[..VisLength(cls, s)]
  {
    hide SpaceRun, IsGap;
    var n, close := VisLength(cls, s), FindChar(s[4..], ')');
    var tail := s[5 + close..];
    RunIsGap(cls, tail);
    scope, gap := s[4..][..close], tail[..n - 5 - close];
    assert s[4..][close] == ')';
    assert s[..n] == s[..4] + s[4..n] && s[4..n] == scope + s[4 + close..n];
    assert s[4 + close..n] == [')'] + gap;
  }

  lemma VisOf(cls: Classes, s: string) returns (v: Vis)
    ensures GoodVis(cls, v) && !v.Spaced? && RenderVis(v) == s[..VisLength(cls, s)]
  {
    hide WordLength, IsGap;
    v := Private;
    if VisLength(cls, s) > 0 {
      if "pub(" <= s {
        hide VisLength;
        var scope, gap := ScopeOf(cls, s);
        v := Public(Some(scope), gap);
        assert RenderVis(v) == "pub(" + (scope + ([')'] + gap));
      } else {
        var gap := GapOf(cls, s, "pub");
        v := Public(None, gap);
        assert RenderVis(v) == "pub" + gap;
      }
    }
  }

  lemma QuotedOf(cls: Classes, s: string) returns (abi: string, after: string)
    requires QuotedLength(cls, s) > 0
    ensures '"' !in abi && IsGap(cls, after) && RenderQuoted(abi, after) == s[..QuotedLength(cls, s)]
  {
    hide SpaceRun, IsGap;
    var n, close := QuotedLength(cls, s), FindChar(s[1..], '"');
    var tail := s[2 + close..];
    RunIsGap(cls, tail);
    abi, after := s[1..][..close], tail[..n - 2 - close];
    assert s[1..][close] == '"';
    assert s[..n] == s[..1] + s[1..n] && s[1..n] == abi + s[1 + close..n];
    assert s[1 + close..n] == ['"'] + after;
  }

  lemma ExtOf(cls: Classes, s: string) returns (e: Ext)
    ensures GoodExt(cls, e) && (e.NoExtern? || e.Extern?) && RenderExt(e) == s[..ExternLength(cls, s)]
  {
    hide WordLength, QuotedLength, IsGap;
    e := NoExtern;
    if ExternLength(cls, s) > 0 {
      var open := WordLength(cls, s, "extern");
      var gap := GapOf(cls, s, "extern");
      var abi, after := QuotedOf(cls, s[open..]);
      e := Extern(gap, abi, after);
      JoinCuts(s, open, QuotedLength(cls, s[open..]));
      assert "extern" + (gap + RenderQuoted(abi, after)) == ("extern" + gap) + RenderQuoted(abi, after);
    }
  }

  lemma JoinCuts(s: string, n: nat, m: nat)
    requires n + m <= |s|
    ensures s[..n + m] == s[..n] + s[n..][..m]
  {
  }

  lemma ModifiersOf(cls: Classes, s: string) returns (a: Option<string>, u: Option<string>, e: Ext)
    ensures (a.Some? ==> IsGap(cls, a.value)) && (u.Some? ==> IsGap(cls, u.value))
    ensures GoodExt(cls, e) && (e.NoExtern? || e.Extern?)
    ensures RenderWord("async", a) + (RenderWord("unsafe", u) + RenderExt(e)) == s[..ModifierLength(cls, s)]
  {
    hide WordLength, ExternLength, IsGap, GoodExt, RenderWord, RenderExt;
    a := WordOf(cls, s, "async");
    var s3 := s[WordLength(cls, s, "async")..];
    u := WordOf(cls, s3, "unsafe");
    var s4 := s3[WordLength(cls, s3, "unsafe")..];
    e := ExtOf(cls, s4);
    JoinCuts(s3, WordLength(cls, s3, "unsafe"), ExternLength(cls, s4));
    JoinCuts(s, WordLength(cls, s, "async"), UnsafeLength(cls, s3));
  }

  /** A header's front, with any name. */
  lemma FrontOf(cls: Classes, line: string, gap: string, name: string) returns (d: Decl)
    requires IsGap(cls, gap) && name != "" && forall k :: 0 <= k < |name| ==> cls.word(name[k])
    ensures GoodDecl(cls, d) && InPattern(d) && d.gap == gap && d.name == name
    ensures Front(d) == line[..FrontLength(cls, line)]
  {
    hide SpaceRun, VisLength, ModifierLength, IsGap, GoodVis, GoodExt, RenderVis, RenderWord, RenderExt;
    var indent := SpaceRun(cls, line);
    var s1 := line[indent..];
    var v := VisLength(cls, s1);
    var s2 := line[indent + v..];
    assert s1[v..] == s2;
    var vis := VisOf(cls, s1);
    var a, u, e := ModifiersOf(cls, s2);
    RunIsGap(cls, line);
    assert indent == 0 ==> line[..indent] == "";
    d := Decl(line[..indent], "", vis, None, a, None, u, e, gap, false, name);
    KnownIsFront(d);
    JoinCuts(s1, v, ModifierLength(cls, s2));
    JoinCuts(line, indent, v + ModifierLength(cls, s2));
  }

  lemma PatternIsPlain(d: Decl)
    requires InPattern(d)
    ensures !d.isRaw && HasKnownFront(d)
  {
  }

  lemma DeclOf(cls: Classes, line: string) returns (d: Decl, tail: string)
    requires MatchFn(cls, line).Some?
    ensures GoodDecl(cls, d) && InPattern(d) && EndsName(cls, tail) && line == Front(d) + (RenderFn(d) + tail)
    ensures MatchFn(cls, line) == Some((|Front(d)|, d.name))
  {
    hide FrontLength, WordLength, IsGap, GoodDecl, InPattern, Front, RenderFn, EndsName;
    var at := FrontLength(cls, line);
    var s := line[at..];
    NameEnds(cls, s);
    var name, open := NameOf(cls, s).value, WordLength(cls, s, "fn");
    var gap := GapOf(cls, s, "fn");
    d := FrontOf(cls, line, gap, name);
    tail := s[open + |name|..];
    JoinCuts(s, open, |name|);
    assert s[open..][..|name|] == name;
    assert !d.isRaw by { PatternIsPlain(d); }
    PlainFn(d);
    assert line == line[..at] + s && s == s[..open + |name|] + tail;
  }

  lemma NameEnds(cls: Classes, s: string)
    requires NameOf(cls, s).Some?
    ensures var name, open := NameOf(cls, s).value, WordLength(cls, s, "fn");
            && open > 0 && open + |name| <= |s| && name == s[open..open + |name|]
            && name != "" && (forall k :: 0 <= k < |name| ==> cls.word(name[k]))
            && EndsName(cls, s[open + |name|..])
  {
    hide WordLength;
    var open := WordLength(cls, s, "fn");
    var rest := s[open..];
    var n := Run(cls.word, rest, 0);
    assert s[open..open + n] == rest[..n] && s[open + n..] == rest[n..];
  }

  /** Main result: the pattern matches a line, with its `fn` at a position and a name, if and only
      if the line is the header of a Rust function by its parts, and one that the pattern can spell. */
  lemma MatchIff(cls: Classes, line: string, at: nat, name: string)
    requires Ordinary(cls)
    ensures MatchFn(cls, line) == Some((at, name)) <==>
            exists d, tail :: GoodDecl(cls, d) && InPattern(d) && EndsName(cls, tail)
                              && line == Front(d) + (RenderFn(d) + tail) && |Front(d)| == at && d.name == name
  {
    hide MatchFn, GoodDecl, InPattern, Front;
    if MatchFn(cls, line) == Some((at, name)) {
      var d, tail := DeclOf(cls, line);
    }
    if exists d, tail :: GoodDecl(cls, d) && InPattern(d) && EndsName(cls, tail)
                         && line == Front(d) + (RenderFn(d) + tail) && |Front(d)| == at && d.name == name {
      var d, tail :| GoodDecl(cls, d) && InPattern(d) && EndsName(cls, tail)
                     && line == Front(d) + (RenderFn(d) + tail) && |Front(d)| == at && d.name == name;
      DeclIsMatched(cls, d, tail);
    }
  }

  // ---- the pattern sees every declaration ----

  /** Nothing, or ends in white space. */
  ghost predicate EndsInGap(cls: Classes, s: string) {
    s != "" ==> cls.space(s[|s| - 1])
  }

  lemma GapsJoin(cls: Classes, a: string, b: string)
    requires EndsInGap(cls, a) && EndsInGap(cls, b)
    ensures EndsInGap(cls, a + b)
  {
    assert b == "" ==> a + b == a;
  }

  lemma FrontEnds(cls: Classes, d: Decl)
    requires GoodDecl(cls, d) && InPattern(d)
    ensures EndsInGap(cls, Front(d))
  {
    assert EndsInGap(cls, RenderVis(d.vis)) && EndsInGap(cls, RenderWord("async", d.asyncGap))
        && EndsInGap(cls, RenderWord("unsafe", d.unsafeGap)) && EndsInGap(cls, RenderExt(d.ext));
    hide EndsInGap, RenderVis, RenderWord, RenderExt;
    GapsJoin(cls, RenderWord("unsafe", d.unsafeGap), RenderExt(d.ext));
    GapsJoin(cls, RenderWord("async", d.asyncGap), RenderWord("unsafe", d.unsafeGap) + RenderExt(d.ext));
    GapsJoin(cls, RenderVis(d.vis), Modifiers(d));
    IndentEnds(cls, d);
    KnownIsFront(d);
    GapsJoin(cls, d.indent, RenderVis(d.vis) + Modifiers(d));
  }

  lemma IndentEnds(cls: Classes, d: Decl)
    requires GoodDecl(cls, d)
    ensures EndsInGap(cls, d.indent)
  {
  }

  /** The header's `fn` is one for the declaration pattern too, with the same name. */
  lemma MatchIsFn(cls: Classes, line: string)
    requires Ordinary(cls) && MatchFn(cls, line).Some?
    ensures var (at, name) := MatchFn(cls, line).value;
            at < |line| && FnAt(cls, line, at).Some? && FnAt(cls, line, at).value.0 == name
  {
    hide MatchFn, FnAt, Front, InPattern, RenderFn, Ordinary;
    var d, tail := DeclOf(cls, line);
    PatternIsPlain(d);
    PlainFn(d);
    FrontEnds(cls, d);
    assert line == Front(d) + ("fn" + (d.gap + (d.name + tail)));
    assert cls.Valid() by { OrdinaryIsValid(cls); }
    FnInText(cls, Front(d), d.gap, d.name, tail);
  }

  lemma OrdinaryIsValid(cls: Classes)
    requires Ordinary(cls)
    ensures cls.Valid()
  {
  }

  lemma FnInText(cls: Classes, front: string, gap: string, name: string, tail: string)
    requires cls.Valid() && EndsInGap(cls, front) && IsGap(cls, gap) && EndsName(cls, tail)
    requires name != "" && forall k :: 0 <= k < |name| ==> cls.word(name[k])
    ensures var s := front + ("fn" + (gap + (name + tail)));
            |front| < |s| && FnAt(cls, s, |front|).Some? && FnAt(cls, s, |front|).value.0 == name
  {
    hide FnAt;
    var s := front + ("fn" + (gap + (name + tail)));
    var at, start, end := |front|, |front| + 2 + |gap|, |front| + 2 + |gap| + |name|;
    assert s == (front + "fn" + gap) + (name + tail);
    assert forall k :: at + 2 <= k < start ==> s[k] == gap[k - at - 2];
    assert s[start..end] == name;
    assert forall k :: start <= k < end ==> s[k] == name[k - start];
    assert at > 0 ==> s[at - 1] == front[at - 1];
    assert end < |s| ==> s[end] == tail[0];
    assert IsFn(cls, s, at, start, end);
    FnAtIs(cls, s, at, start, end);
  }

  /** Main result: the header pattern only matches lines that the declaration pattern matches too,
      with the same name. */
  lemma HeaderSeesFn(cls: Classes)
    requires Ordinary(cls)
    ensures SeesFn(cls, FnHeader(cls))
  {
    hide MatchFn, FnAt;
    forall line, name | FnHeader(cls)(line) == Some(name)
      ensures exists p: nat :: p < |line| && FnAt(cls, line, p).Some? && FnAt(cls, line, p).value.0 == name
    {
      MatchIsFn(cls, line);
      assert FnAt(cls, line, MatchFn(cls, line).value.0).Some?;
    }
  }

  // ---- headers and the mask ----

  ghost predicate AllQuiet(s: string) {
    forall k :: 0 <= k < |s| ==> IsQuiet(s[k])
  }

  lemma QuietOpensNothing(p: string, rest: string)
    requires p != "" && AllQuiet(p)
    requires |p| == 1 && p[0] == 'r' && rest != "" ==> rest[0] != '"' && rest[0] != '#'
    ensures !Opens(p + rest)
  {
    hide CharLiteral;
    var s := p + rest;
    assert s[0] == p[0] && (|s| > 1 ==> s[1..][0] == if |p| > 1 then p[1] else rest[0]);
    assert RawStart(s) == None;
  }

  lemma Uncons(p: string, rest: string)
    requires p != ""
    ensures (p + rest)[0] == p[0] && (p + rest)[1..] == p[1..] + rest
    ensures [p[0]] + (p[1..] + rest) == p + rest
  {
  }

  lemma QuietTail(p: string)
    requires p != "" && AllQuiet(p)
    ensures AllQuiet(p[1..]) && (p[1..] != "" ==> p[1..][|p| - 2] == p[|p| - 1])
  {
  }

  /** Quiet text in code is kept, unless its last r and what follows open a raw string. */
  lemma {:induction false} QuietIsKept(p: string, rest: string)
    requires AllQuiet(p)
    requires p != "" && p[|p| - 1] == 'r' && rest != "" ==> rest[0] != '"' && rest[0] != '#'
    ensures Mask(p + rest, START).text == p + Mask(rest, START).text
  {
    hide Mask, Opens, Step;
    var s := p + rest;
    if p == "" {
      assert s == rest;
    } else {
      QuietOpensNothing(p, rest);
      QuietTail(p);
      hide AllQuiet;
      Uncons(p, rest);
      QuietIsKept(p[1..], rest);
      ClosedIsKept(s);
      MaskStep(s, START);
      Uncons(p, Mask(rest, START).text);
    }
  }

  /** A `pub(...)` scope without characters that can open a literal or comment. */
  ghost predicate QuietScope(d: Decl) {
    d.vis.Public? && d.vis.scope.Some? ==> AllQuiet(d.vis.scope.value)
  }

  lemma QuietGap(cls: Classes, s: string)
    requires Ordinary(cls) && forall k :: 0 <= k < |s| ==> cls.space(s[k]) || cls.word(s[k])
    ensures AllQuiet(s)
  {
  }

  lemma QuietJoin(a: string, b: string)
    requires AllQuiet(a) && AllQuiet(b)
    ensures AllQuiet(a + b)
  {
  }

  lemma WordIsQuiet(cls: Classes, w: string, gap: Option<string>)
    requires Ordinary(cls) && AllQuiet(w) && (gap.Some? ==> IsGap(cls, gap.value))
    ensures AllQuiet(RenderWord(w, gap))
  {
    if gap.Some? {
      QuietGap(cls, gap.value);
      QuietJoin(w, gap.value);
    }
  }

  lemma VisIsQuiet(cls: Classes, d: Decl)
    requires Ordinary(cls) && GoodVis(cls, d.vis) && !d.vis.Spaced? && QuietScope(d)
    ensures AllQuiet(RenderVis(d.vis))
  {
    if d.vis.Public? { QuietGap(cls, d.vis.gap); }
  }

  /** The part of a front that the pattern knows is quiet, up to `extern`. */
  lemma FrontIsQuiet(cls: Classes, d: Decl)
    requires Ordinary(cls) && GoodDecl(cls, d) && !d.vis.Spaced? && QuietScope(d) && d.ext == NoExtern
    ensures AllQuiet(KnownFront(d))
  {
    QuietGap(cls, d.indent);
    VisIsQuiet(cls, d);
    WordIsQuiet(cls, "async", d.asyncGap);
    WordIsQuiet(cls, "unsafe", d.unsafeGap);
    hide Ordinary, GoodDecl, AllQuiet, RenderVis, RenderWord;
    assert RenderWord("unsafe", d.unsafeGap) + RenderExt(d.ext) == RenderWord("unsafe", d.unsafeGap);
    QuietJoin(RenderWord("async", d.asyncGap), RenderWord("unsafe", d.unsafeGap));
    QuietJoin(RenderVis(d.vis), Modifiers(d));
    QuietJoin(d.indent, RenderVis(d.vis) + Modifiers(d));
  }

  lemma NoQuoteNoExtern(cls: Classes, s: string)
    requires '"' !in s
    ensures ExternLength(cls, s) == 0
  {
    var open := WordLength(cls, s, "extern");
    assert s[open..] != "" ==> s[open..][0] == s[open];
  }

  /** Whatever the mask does to the tail, it does not continue the name. */
  lemma MaskedTailEndsName(cls: Classes, tail: string)
    requires Ordinary(cls) && EndsName(cls, tail)
    ensures EndsName(cls, Mask(tail, START).text)
  {
    hide Mask;
    MaskIsSound(tail, START);
    assert !cls.word(' ') by { assert cls.space(' '); }
  }

  lemma PlainHeaderIsMatched(cls: Classes, d: Decl, tail: string)
    requires Ordinary(cls) && GoodDecl(cls, d) && EndsName(cls, tail) && QuietScope(d)
    requires InPattern(d) && d.ext == NoExtern
    requires tail != "" ==> tail[0] != '"' && tail[0] != '#'
    ensures MatchFn(cls, Mask(Front(d) + (RenderFn(d) + tail), START).text) == Some((|Front(d)|, d.name))
  {
    hide Mask, MatchFn, Front, KnownFront;
    var p := Front(d) + RenderFn(d);
    KnownIsFront(d);
    FrontIsQuiet(cls, d);
    QuietGap(cls, d.gap + d.name);
    assert AllQuiet(RenderFn(d)) by { assert RenderFn(d) == "fn" + (d.gap + d.name); }
    QuietIsKept(p, tail);
    var m := Mask(tail, START).text;
    assert p + tail == Front(d) + (RenderFn(d) + tail) && p + m == Front(d) + (RenderFn(d) + m);
    MaskedTailEndsName(cls, tail);
    DeclIsMatched(cls, d, m);
  }

  lemma RawNameOpensNothing(name: string)
    requires name != "" && name[0] != '"' && name[0] != '#'
    ensures !Opens("r#" + name) && !Opens("#" + name)
  {
    hide CharLiteral;
    var s := "r#" + name;
    assert s[1..] == "#" + name && s[1..][1..] == name && s[2] == name[0];
    assert RawStart(s) == None;
  }

  lemma RawNameIsKept(name: string)
    requires name != "" && name[0] != '"' && name[0] != '#'
    ensures Mask("r#" + name, START).text == "r#" + Mask(name, START).text
  {
    hide Mask, Opens, Step;
    var s := "r#" + name;
    assert s[0] == 'r' && s[1..] == "#" + name && s[1..][0] == '#' && s[1..][1..] == name;
    RawNameOpensNothing(name);
    ClosedIsKept(s);
    MaskStep(s, START);
    ClosedIsKept(s[1..]);
    MaskStep(s[1..], START);
  }

  /** A raw identifier is read as the name r. */
  lemma RawHeaderIsMatched(cls: Classes, d: Decl, tail: string)
    requires Ordinary(cls) && GoodDecl(cls, d) && QuietScope(d)
    requires HasKnownFront(d) && d.isRaw && d.ext == NoExtern
    ensures MatchFn(cls, Mask(Front(d) + (RenderFn(d) + tail), START).text) == Some((|Front(d)|, "r"))
  {
    hide Mask, MatchFn, Front, KnownFront, RenderVis, RenderWord, GoodVis;
    var named := d.name + tail;
    var p, read := Front(d) + ("fn" + d.gap), d.(isRaw := false, name := "r");
    KnownIsFront(d);
    KnownIsFront(read);
    assert KnownFront(read) == KnownFront(d) by { SameFront(d, read); }
    FrontIsQuiet(cls, d);
    QuietGap(cls, d.gap);
    QuietJoin("fn", d.gap);
    QuietJoin(Front(d), "fn" + d.gap);
    assert Front(d) + (RenderFn(d) + tail) == p + ("r#" + named);
    assert p[|p| - 1] == d.gap[|d.gap| - 1] && cls.space(d.gap[|d.gap| - 1]) && cls.word('r');
    QuietIsKept(p, "r#" + named);
    assert cls.word(named[0]);
    RawNameIsKept(named);
    var m := "#" + Mask(named, START).text;
    assert p + ("r#" + Mask(named, START).text) == Front(read) + (RenderFn(read) + m);
    DeclIsMatched(cls, read, m);
  }

  lemma SameFront(d: Decl, e: Decl)
    requires e == d.(isRaw := e.isRaw, name := e.name)
    ensures KnownFront(d) == KnownFront(e)
  {
  }

  /** A character none of the pattern's alternatives starts with, nor a literal or comment. */
  predicate IsStop(c: char) {
    c == 'c' || c == 's' || c == 'e' || c == '('
  }

  lemma NoFnHere(cls: Classes, s: string)
    requires s != "" && s[0] != 'f'
    ensures NameOf(cls, s) == None
  {
    assert "fn"[0] == 'f';
  }

  /** Where something else than `fn` follows the known front, the pattern does not match. */
  lemma UnknownStops(cls: Classes, d: Decl, after: string)
    requires Ordinary(cls) && GoodDecl(cls, d) && HasKnownFront(d) && d.ext == NoExtern
    requires after != "" && IsStop(after[0]) && '"' !in after
    ensures MatchFn(cls, KnownFront(d) + after) == None
  {
    hide FrontLength, KnownFront, NameOf, GoodDecl, Ordinary, ExternLength;
    assert RenderExt(NoExtern) + after == after;
    NoQuoteNoExtern(cls, after);
    FrontIs(cls, d, after);
    Drop(KnownFront(d), after);
    NoFnHere(cls, after);
  }

  lemma MaskedUnknownStops(cls: Classes, d: Decl, word: string, rest: string)
    requires Ordinary(cls) && GoodDecl(cls, d) && HasKnownFront(d) && d.ext == NoExtern && QuietScope(d)
    requires word != "" && IsStop(word[0]) && AllQuiet(word) && word[|word| - 1] != 'r'
    ensures MatchFn(cls, Mask(KnownFront(d) + (word + rest), START).text) == None
  {
    hide Mask, MatchFn, KnownFront, HasKnownFront, GoodDecl, Ordinary, AllQuiet;
    var kept := KnownFront(d) + word;
    var line := KnownFront(d) + (word + rest);
    assert line == kept + rest;
    assert !d.vis.Spaced? by { KnownVis(d); }
    FrontIsQuiet(cls, d);
    QuietJoin(KnownFront(d), word);
    QuietIsKept(kept, rest);
    var after := word + Mask(rest, START).text;
    assert kept + Mask(rest, START).text == KnownFront(d) + after;
    MaskIsSound(line, START);
    NotInSuffix('"', KnownFront(d), after);
    UnknownStops(cls, d, after);
  }

  lemma KnownVis(d: Decl)
    requires HasKnownFront(d)
    ensures !d.vis.Spaced?
  {
  }

  lemma NotInSuffix(c: char, a: string, b: string)
    ensures c !in a + b ==> c !in b
  {
    assert forall k :: 0 <= k < |b| ==> b[k] == (a + b)[|a| + k];
  }

  // ---- the parts the pattern does not know ----

  /** The header up to the first part that the pattern has no alternative for. */
  function Known(d: Decl): Decl {
    if d.vis.Spaced? then
      d.(attributes := "", vis := Public(None, d.vis.lead), constGap := None, asyncGap := None, safeGap := None,
         unsafeGap := None, ext := NoExtern)
    else if d.constGap.Some? then
      d.(attributes := "", constGap := None, asyncGap := None, safeGap := None, unsafeGap := None, ext := NoExtern)
    else if d.safeGap.Some? then d.(attributes := "", safeGap := None, unsafeGap := None, ext := NoExtern)
    else d.(attributes := "", ext := NoExtern)
  }

  lemma KnownIsGood(cls: Classes, d: Decl)
    requires GoodDecl(cls, d) && QuietScope(d)
    ensures GoodDecl(cls, Known(d)) && HasKnownFront(Known(d)) && Known(d).ext == NoExtern && QuietScope(Known(d))
  {
    hide IsGap;
  }

  lemma SpacedThen(d: Decl)
    requires d.attributes == "" && d.vis.Spaced?
    ensures Front(d) == KnownFront(Known(d)) + ("(" + (d.vis.inner + ")" + d.vis.gap + Qualifiers(d)))
  {
    hide Qualifiers;
    var v := RenderVis(d.vis);
    assert v == ("pub" + d.vis.lead) + ("(" + (d.vis.inner + ")" + d.vis.gap));
    assert RenderVis(Known(d).vis) == "pub" + d.vis.lead;
    assert Modifiers(Known(d)) == "";
  }

  lemma ConstThen(d: Decl)
    requires d.attributes == "" && !d.vis.Spaced? && d.constGap.Some?
    ensures exists rest :: Front(d) == KnownFront(Known(d)) + ("const" + rest)
  {
    hide RenderVis, RenderExt;
    var v, rest := RenderVis(d.vis), Qualifiers(d)[5..];
    assert Qualifiers(d) == "const" + rest;
    assert Modifiers(Known(d)) == "" by { assert RenderExt(NoExtern) == "" by { NoExternIsEmpty(); } }
    assert KnownFront(Known(d)) == d.indent + v && Front(d) == d.indent + (v + ("const" + rest));
    assert Front(d) == KnownFront(Known(d)) + ("const" + rest);
  }

  lemma NoExternIsEmpty()
    ensures RenderExt(NoExtern) == ""
  {
  }

  lemma SafeThen(d: Decl)
    requires d.attributes == "" && !d.vis.Spaced? && d.constGap == None && d.safeGap.Some?
    ensures exists rest :: Front(d) == KnownFront(Known(d)) + ("safe" + rest)
  {
    hide RenderVis, RenderExt;
    NoExternIsEmpty();
    var v, a := RenderVis(d.vis), RenderWord("async", d.asyncGap);
    var rest := d.safeGap.value + (RenderWord("unsafe", d.unsafeGap) + RenderExt(d.ext));
    assert Qualifiers(d) == a + ("safe" + rest);
    assert Modifiers(Known(d)) == a;
    assert KnownFront(Known(d)) == d.indent + (v + a) && Front(d) == d.indent + (v + (a + ("safe" + rest)));
    assert Front(d) == KnownFront(Known(d)) + ("safe" + rest);
  }

  lemma ExternThen(d: Decl)
    requires d.attributes == "" && !d.vis.Spaced? && d.constGap == None && d.safeGap == None && !d.ext.NoExtern?
    ensures exists rest :: Front(d) == KnownFront(Known(d)) + ("extern" + d.ext.gap + rest)
  {
    hide RenderVis, RenderExt;
    NoExternIsEmpty();
    var rest := ExternRest(d.ext);
    var v, a, u := RenderVis(d.vis), RenderWord("async", d.asyncGap), RenderWord("unsafe", d.unsafeGap);
    assert Qualifiers(d) == a + (u + ("extern" + d.ext.gap + rest));
    assert Modifiers(Known(d)) == a + u;
    FourParts(d.indent, v, a, u, "extern" + d.ext.gap + rest);
    assert Front(d) == KnownFront(Known(d)) + ("extern" + d.ext.gap + rest);
  }

  lemma ExternRest(e: Ext) returns (rest: string)
    requires !e.NoExtern?
    ensures RenderExt(e) == "extern" + e.gap + rest
  {
    hide RenderQuoted;
    match e {
      case Extern(gap, abi, after) => rest := RenderQuoted(abi, after);
      case RawExtern(gap, literal) => rest := literal;
      case BareExtern(gap) => rest := "";
    }
  }

  lemma FourParts(a: string, b: string, c: string, d: string, e: string)
    ensures a + (b + (c + (d + e))) == (a + (b + (c + d))) + e
  {
    assert c + (d + e) == (c + d) + e;
    assert b + ((c + d) + e) == (b + (c + d)) + e;
  }

  /** What follows the known part, and the rest of the front. */
  lemma KnownThen(cls: Classes, d: Decl) returns (word: string, rest: string)
    requires Ordinary(cls) && GoodDecl(cls, d) && d.attributes == "" && !(HasKnownFront(d) && d.ext == NoExtern)
    ensures Front(d) == KnownFront(Known(d)) + (word + rest)
    ensures word != "" && IsStop(word[0]) && AllQuiet(word) && word[|word| - 1] != 'r'
  {
    hide Front, KnownFront, Known, Qualifiers;
    if d.vis.Spaced? {
      word, rest := "(", d.vis.inner + ")" + d.vis.gap + Qualifiers(d);
      SpacedThen(d);
    } else if d.constGap.Some? {
      ConstThen(d);
      word := "const";
      rest :| Front(d) == KnownFront(Known(d)) + ("const" + rest);
    } else if d.safeGap.Some? {
      SafeThen(d);
      word := "safe";
      rest :| Front(d) == KnownFront(Known(d)) + ("safe" + rest);
    } else {
      ExternThen(d);
      word := "extern" + d.ext.gap;
      rest :| Front(d) == KnownFront(Known(d)) + ("extern" + d.ext.gap + rest);
      QuietExtern(cls, d.ext);
    }
  }

  lemma QuietExtern(cls: Classes, e: Ext)
    requires Ordinary(cls) && GoodExt(cls, e) && !e.NoExtern?
    ensures var s := "extern" + e.gap; AllQuiet(s) && s[|s| - 1] != 'r'
  {
    QuietGap(cls, e.gap);
    assert cls.space(e.gap[|e.gap| - 1]) && cls.word('r');
  }

  lemma UnknownFrontIsNot(cls: Classes, d: Decl, tail: string)
    requires Ordinary(cls) && GoodDecl(cls, d) && QuietScope(d)
    requires d.attributes == "" && !(HasKnownFront(d) && d.ext == NoExtern)
    ensures MatchFn(cls, Mask(Front(d) + (RenderFn(d) + tail), START).text) == None
  {
    hide Mask, MatchFn, Front, KnownFront, HasKnownFront, GoodDecl, Ordinary, AllQuiet, RenderFn;
    KnownIsGood(cls, d);
    var word, rest := KnownThen(cls, d);
    var after := RenderFn(d) + tail;
    assert Front(d) + after == KnownFront(Known(d)) + (word + (rest + after));
    MaskedUnknownStops(cls, Known(d), word, rest + after);
  }

  /** Nothing that starts with `#` is matched. */
  lemma AttributeIsNot(cls: Classes, indent: string, rest: string)
    requires Ordinary(cls) && (indent == "" || IsGap(cls, indent)) && "#" <= rest
    ensures MatchFn(cls, Mask(indent + rest, START).text) == None
  {
    hide Mask, CharLiteral;
    QuietGap(cls, indent);
    assert indent != "" ==> cls.space(indent[|indent| - 1]) && cls.word('r');
    QuietIsKept(indent, rest);
    ClosedIsKept(rest);
    MaskStep(rest, START);
    var m := Mask(rest, START).text;
    assert m[0] == '#' && !cls.space('#');
    GapRun(cls, indent, m);
    assert (indent + m)[|indent|..] == m;
    hide FrontLength, Ordinary;
    StopsAtHash(cls, indent, m);
  }

  lemma HashIsNoFront(cls: Classes, m: string)
    requires "#" <= m
    ensures m[0] == '#' && VisLength(cls, m) == 0 && ModifierLength(cls, m) == 0
  {
    hide SpaceRun;
    assert "#"[0] == '#' && "pub"[0] == "pub("[0] == 'p';
    assert "async"[0] == 'a' && "unsafe"[0] == 'u' && "extern"[0] == 'e';
    assert WordLength(cls, m, "async") == WordLength(cls, m, "unsafe") == WordLength(cls, m, "extern") == 0;
    assert m[0..] == m;
  }

  lemma StopsAtHash(cls: Classes, indent: string, m: string)
    requires "#" <= m && SpaceRun(cls, indent + m) == |indent|
    ensures MatchFn(cls, indent + m) == None
  {
    hide SpaceRun, VisLength, ModifierLength, NameOf;
    assert (indent + m)[|indent|..] == m && m[0..] == m;
    HashIsNoFront(cls, m);
    NoFnHere(cls, m);
  }

  /** Main result: on the masked line, the header of a Rust function is matched, at its place, if and
      only if it has no `const`, `safe` or `extern`, no attribute before it on the line and no space
      within `pub(...)`. A raw identifier is read as the name r. */
  lemma MaskedHeaderIff(cls: Classes, d: Decl, tail: string)
    requires Ordinary(cls) && GoodDecl(cls, d) && EndsName(cls, tail) && QuietScope(d)
    requires tail != "" ==> tail[0] != '"' && tail[0] != '#'
    ensures MatchFn(cls, Mask(Front(d) + (RenderFn(d) + tail), START).text)
         == if HasKnownFront(d) && d.ext == NoExtern then Some((|Front(d)|, if d.isRaw then "r" else d.name)) else None
  {
    hide MatchFn, Mask, Front, RenderFn, Ordinary, QuietScope;
    if d.attributes != "" {
      var rest := d.attributes + (RenderVis(d.vis) + Qualifiers(d)) + (RenderFn(d) + tail);
      assert Front(d) + (RenderFn(d) + tail) == d.indent + rest by { FrontParts(d, RenderFn(d) + tail); }
      AttributeIsNot(cls, d.indent, rest);
    } else if !(HasKnownFront(d) && d.ext == NoExtern) {
      UnknownFrontIsNot(cls, d, tail);
    } else if d.isRaw {
      RawHeaderIsMatched(cls, d, tail);
    } else {
      PlainHeaderIsMatched(cls, d, tail);
    }
  }

  lemma FrontParts(d: Decl, rest: string)
    ensures Front(d) + rest == d.indent + (d.attributes + (RenderVis(d.vis) + Qualifiers(d)) + rest)
  {
    hide RenderVis, Qualifiers;
  }

  const BARE: Decl := Decl("", "", Private, None, None, None, None, NoExtern, " ", false, "f")

  lemma BareFront(d: Decl)
    requires d == BARE.(constGap := d.constGap, ext := d.ext)
    ensures Front(d) == RenderWord("const", d.constGap) + RenderExt(d.ext) && RenderFn(d) == "fn f"
  {
    hide RenderExt;
    assert RenderWord("async", None) == RenderWord("safe", None) == RenderWord("unsafe", None) == "";
  }

  /** An ordinary function of a foreign interface, which starts no span. */
  lemma ExternCIsNoHeader(cls: Classes)
    requires Ordinary(cls)
    ensures MatchFn(cls, Mask("extern \"C\" fn f() {", START).text) == None
  {
    hide Mask, MatchFn, Front;
    var d := BARE.(ext := Extern(" ", "C", " "));
    BareFront(d);
    assert IsGap(cls, " ") && cls.word('f');
    assert Front(d) + (RenderFn(d) + "() {") == "extern \"C\" fn f() {";
    MaskedHeaderIff(cls, d, "() {");
  }

  /** A `const fn` is declared, and its line is kept by the mask, but it starts no span. */
  lemma ConstFnIsNoHeader(cls: Classes)
    requires Ordinary(cls)
    ensures Mask("const fn f() {", START).text == "const fn f() {"
    ensures FnAt(cls, "const fn f() {", 6) == Some(("f", 10))
    ensures SpansFrom(["const fn f() {", "}"], FnHeader(cls), 0) == []
  {
    hide Mask, MatchFn, Front, FnAt;
    var line, d := "const fn f() {", BARE.(constGap := Some(" "));
    BareFront(d);
    assert IsGap(cls, " ") && cls.word('f');
    assert Front(d) + (RenderFn(d) + "() {") == line;
    MaskedHeaderIff(cls, d, "() {");
    assert AllQuiet(line);
    QuietIsKept(line, "");
    assert line + "" == line && Mask("", START).text == "" by { NothingMasked(); }
    assert !cls.word('(') && !cls.word(' ');
    assert line[6] == 'f' && line[7] == 'n' && line[8] == ' ' && line[9] == 'f' && line[10] == '(' && line[5] == ' ';
    assert IsFn(cls, line, 6, 9, 10);
    FnAtIs(cls, line, 6, 9, 10);
    assert line[9..10] == "f";
    var brace, rest := "}", "";
    assert FnHeader(cls)(line) == None;
    NoNameInBrace(cls);
    assert SpansFrom([line, "}"], FnHeader(cls), 2) == [];
  }

  lemma NothingMasked()
    ensures Mask("", START).text == ""
  {
  }

  lemma NoNameInBrace(cls: Classes)
    ensures MatchFn(cls, "}") == None
  {
    hide MatchFn;
    if MatchFn(cls, "}").Some? {
      var d, tail := DeclOf(cls, "}");
    }
  }
}
