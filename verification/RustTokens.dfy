/**
 What the mask of scripts/m5-reader-sweep.py means on Rust source: a token grammar over whole
 files, with strings, raw strings and comments that run over line breaks, and the exact
 condition under which the lexer reads a token as what it is.
 */
module RustTokens {
  import opened Wrappers
  import Strings
  import opened RustMask
  import opened TextMask

  // ---- tokens ----

  datatype StringPart = Ordinary(c: char) | Escaped(c: char)
  datatype CommentPart = OpenComment | CloseComment | Inside(c: char)

  /** A character literal, by what stands between its quotes. */
  datatype Literal = One(c: char) | Simple(c: char) | Hex(high: char, low: char) | Unicode(body: string)

  datatype Token =
    | Plain(c: char)
    | Quoted(parts: seq<StringPart>)
    | RawQuoted(hashes: nat, body: string)
    | CharacterLiteral(literal: Literal)
    | BlockComment(inside: seq<CommentPart>)
    | LineComment(body: string)

  function Hashes(n: nat): (s: string)
    ensures |s| == n && forall k :: 0 <= k < n ==> s[k] == '#'
  {
    seq(n, _ => '#')
  }

  function RenderPart(p: StringPart): (s: string)
    ensures s != ""
  {
    match p case Ordinary(c) => [c] case Escaped(c) => ['\\', c]
  }

  function RenderString(parts: seq<StringPart>): (s: string)
    ensures s != ""
  {
    if parts == [] then "\"" else RenderPart(parts[0]) + RenderString(parts[1..])
  }

  function RenderComment(inside: seq<CommentPart>): string {
    if inside == [] then ""
    else (match inside[0] case OpenComment => "/*" case CloseComment => "*/" case Inside(c) => [c])
         + RenderComment(inside[1..])
  }

  function RenderLiteral(literal: Literal): (s: string)
    ensures |s| >= 3
  {
    match literal
    case One(c) => ['\'', c, '\'']
    case Simple(c) => ['\'', '\\', c, '\'']
    case Hex(high, low) => ['\'', '\\', 'x', high, low, '\'']
    case Unicode(body) => ['\'', '\\', 'u', '{'] + body + ['}', '\'']
  }

  function RawEnd(h: nat): string {
    "\"" + Hashes(h)
  }

  function RenderToken(t: Token): (s: string)
    ensures s != ""
  {
    match t
    case Plain(c) => [c]
    case Quoted(parts) => "\"" + RenderString(parts)
    case RawQuoted(h, body) => "r" + Hashes(h) + "\"" + (body + RawEnd(h))
    case CharacterLiteral(literal) => RenderLiteral(literal)
    case BlockComment(inside) => "/*" + RenderComment(inside)
    case LineComment(body) => "//" + body
  }

  function Render(tokens: seq<Token>): string {
    if tokens == [] then "" else RenderToken(tokens[0]) + Render(tokens[1..])
  }

  /** The text with everything but plain characters and line breaks blanked. */
  function Blank(tokens: seq<Token>): string {
    if tokens == [] then ""
    else (if tokens[0].Plain? then [tokens[0].c] else BlankOut(RenderToken(tokens[0]))) + Blank(tokens[1..])
  }

  // ---- what Rust says of a token ----

  predicate GoodString(parts: seq<StringPart>) {
    forall k :: 0 <= k < |parts| && parts[k].Ordinary? ==> parts[k].c != '\\' && parts[k].c != '"'
  }

  /** The comment, open to `depth`, is closed by its last part and not before, and its plain
      characters do not run together into delimiters. */
  predicate GoodComment(inside: seq<CommentPart>, depth: nat) {
    if depth == 0 then inside == []
    else
      && inside != []
      && match inside[0]
         case OpenComment => GoodComment(inside[1..], depth + 1)
         case CloseComment => GoodComment(inside[1..], depth - 1)
         case Inside(_) =>
           && !("/*" <= RenderComment(inside)) && !("*/" <= RenderComment(inside))
           && GoodComment(inside[1..], depth)
  }

  /** The delimiter does not occur before the end of the raw string. */
  predicate GoodRaw(h: nat, body: string) {
    h <= 255 && forall k :: 0 <= k < |body| ==> !(RawEnd(h) <= (body + RawEnd(h))[k..])
  }

  /** By ASCII code. */
  predicate IsHexDigit(c: char) {
    48 <= c as int <= 57 || 65 <= c as int <= 70 || 97 <= c as int <= 102
  }

  predicate GoodLiteral(literal: Literal) {
    match literal
    case One(c) => c != '\'' && c != '\\' && c != '\n'
    case Simple(c) => c in {'n', 'r', 't', '0', '\\', '\'', '"'}
    case Hex(high, low) => IsHexDigit(high) && IsHexDigit(low)
    case Unicode(body) => body != "" && forall k :: 0 <= k < |body| ==> IsHexDigit(body[k]) || body[k] == '_'
  }

  ghost predicate StartsRaw(s: string) {
    exists h: nat :: h <= 255 && "r" + Hashes(h) + "\"" <= s
  }

  ghost predicate StartsLiteral(s: string) {
    exists literal :: GoodLiteral(literal) && RenderLiteral(literal) <= s
  }

  /** In code, a string, a comment or a character literal starts here. */
  ghost predicate StartsToken(s: string) {
    "\"" <= s || "//" <= s || "/*" <= s || StartsRaw(s) || StartsLiteral(s)
  }

  /** The token is what Rust says it is, given the text that follows it. */
  ghost predicate GoodToken(t: Token, rest: string) {
    match t
    case Plain(c) => !StartsToken([c] + rest)
    case Quoted(parts) => GoodString(parts)
    case RawQuoted(h, body) => GoodRaw(h, body)
    case CharacterLiteral(literal) => GoodLiteral(literal)
    case BlockComment(inside) => GoodComment(inside, 1)
    case LineComment(body) => '\n' !in body && (rest != "" ==> rest[0] == '\n')
  }

  ghost predicate WellFormed(tokens: seq<Token>) {
    tokens != [] ==> GoodToken(tokens[0], Render(tokens[1..])) && WellFormed(tokens[1..])
  }

  // ---- when the lexer agrees ----

  /** The lexer closes the string at its own quote. A backslash before a line break makes it take
      the next character that is not a line break for escaped (`shifted`). That is harmless
      before an ordinary character; it is not before the closing quote or before an escaped
      quote; an escaped backslash passes it on, and an escaped line break ends it. */
  predicate InStep(parts: seq<StringPart>, shifted: bool) {
    if parts == [] then !shifted
    else
      match parts[0]
      case Ordinary(c) => InStep(parts[1..], shifted && c == '\n')
      case Escaped(c) =>
        if c == '\n' then InStep(parts[1..], !shifted)
        else if c == '\\' then InStep(parts[1..], shifted)
        else !(shifted && c == '"') && InStep(parts[1..], false)
  }

  /** The pattern takes at most six characters between the braces. */
  predicate ShortLiteral(literal: Literal) {
    literal.Unicode? ==> |literal.body| <= 6
  }

  predicate MaskedRight(t: Token) {
    match t
    case Quoted(parts) => InStep(parts, false)
    case CharacterLiteral(literal) => ShortLiteral(literal)
    case _ => true
  }

  // ---- strings ----

  const STRING := Lexer(0, true, false, None)
  const ESCAPED := Lexer(0, true, true, None)

  function InString(shifted: bool): Lexer {
    if shifted then ESCAPED else STRING
  }

  /** Whether the character after c counts as escaped. */
  predicate EscapedAfter(c: char, escaped: bool) {
    if c == '\n' then escaped else !escaped && c == '\\'
  }

  /** How many characters the lexer reads before it leaves the string, if it does. */
  function StringEnd(s: string, escaped: bool): (n: Option<nat>)
    ensures n.Some? ==> 1 <= n.value <= |s|
  {
    if s == "" then None
    else if s[0] == '"' && !escaped then Some(1)
    else
      var rest := StringEnd(s[1..], EscapedAfter(s[0], escaped));
      if rest.Some? then Some(1 + rest.value) else None
  }

  lemma {:induction false} StringEndIsRead(s: string, escaped: bool)
    requires StringEnd(s, escaped).Some?
    ensures Skips(s, InString(escaped), StringEnd(s, escaped).value, START)
  {
    hide Skips;
    var next := EscapedAfter(s[0], escaped);
    if s[0] == '\n' {
      LineBreakSkips(s, InString(escaped));
    } else {
      FirstOfLine(s);
      MoveSkips(s, InString(escaped));
    }
    if s[0] != '"' || escaped {
      StringEndIsRead(s[1..], next);
      SkipsMore(s, InString(escaped), 1, InString(next), StringEnd(s[1..], next).value, START);
    }
  }

  /** Reading one character of a string that does not close it. */
  lemma StringEndMoves(c: char, tail: string, escaped: bool)
    requires c != '"' || escaped
    ensures StringEnd([c] + tail, escaped)
         == match StringEnd(tail, EscapedAfter(c, escaped)) case Some(n) => Some(1 + n) case None => None
  {
    assert ([c] + tail)[1..] == tail;
  }

  /** The lexer leaves the string exactly at its own closing quote if and only if the string
      keeps in step. */
  lemma {:induction false} StringIff(parts: seq<StringPart>, shifted: bool, rest: string)
    requires GoodString(parts)
    ensures StringEnd(RenderString(parts) + rest, shifted) == Some(|RenderString(parts)|) <==> InStep(parts, shifted)
  {
    hide StringEnd;
    var s := RenderString(parts) + rest;
    if parts == [] {
      assert s == ['"'] + rest;
      ClosingQuote(rest, shifted);
    } else {
      var tail := RenderString(parts[1..]) + rest;
      match parts[0] {
        case Ordinary(c) =>
          StringIff(parts[1..], shifted && c == '\n', rest);
          assert s == [c] + tail;
          StringEndMoves(c, tail, shifted);
        case Escaped(c) =>
          StringIff(parts[1..], false, rest);
          StringIff(parts[1..], true, rest);
          assert s == ['\\'] + ([c] + tail);
          StringEndMoves('\\', [c] + tail, shifted);
          if c == '"' && shifted {
            ClosingQuote(tail, false);
          } else {
            StringEndMoves(c, tail, !shifted);
          }
      }
    }
  }

  lemma ClosingQuote(rest: string, escaped: bool)
    ensures !escaped ==> StringEnd(['"'] + rest, false) == Some(1)
    ensures escaped ==> StringEnd(['"'] + rest, true) != Some(1)
  {
    assert (['"'] + rest)[1..] == rest;
  }

  // ---- raw strings ----

  function InRaw(h: nat): Lexer {
    Lexer(0, false, false, Some(h))
  }

  lemma LineOfPrefix(p: string, rest: string)
    requires '\n' !in p
    ensures Line(p + rest) == p + Line(rest)
    decreases |p|
  {
    if p == "" {
      assert p + rest == rest;
    } else {
      var s := p + rest;
      assert s[0] == p[0] && s[1..] == p[1..] + rest;
      FirstOfLine(s);
      LineOfPrefix(p[1..], rest);
    }
  }

  lemma DelimiterCloses(s: string, h: nat)
    ensures ClosesRaw(s, h) <==> RawEnd(h) <= s
  {
    var d := RawEnd(h);
    assert d[0] == '"' && forall k :: 1 <= k <= h ==> d[k] == Hashes(h)[k - 1];
    if ClosesRaw(s, h) {
      assert s[..h + 1] == d;
    }
    if d <= s {
      assert forall k :: 0 <= k <= h ==> s[k] == d[k];
    }
  }

  /** The delimiter is not found on a line of the body, and on the last line where it is. */
  lemma RawLine(h: nat, body: string, rest: string)
    requires GoodRaw(h, body)
    ensures '\n' in body ==> FindRaw(Line(body + RawEnd(h) + rest), h) == None
    ensures '\n' !in body ==> FindRaw(Line(body + RawEnd(h) + rest), h) == Some(|body|)
  {
    hide FindRaw;
    var closed := body + RawEnd(h);
    var s := closed + rest;
    var line := Line(s);
    forall k | 0 <= k < |body| && k < |line|
      ensures !ClosesRaw(line[k..], h)
    {
      DelimiterCloses(line[k..], h);
      PrefixOfBoth(RawEnd(h), closed, rest, k);
    }
    if '\n' in body {
      var e :| 0 <= e < |body| && body[e] == '\n';
      assert s[e] == '\n';
      FindRawIs(line, h, None);
    } else {
      assert '\n' !in closed;
      LineOfPrefix(closed, rest);
      assert line[|body|..] == RawEnd(h) + Line(rest);
      DelimiterCloses(line[|body|..], h);
      FindRawIs(line, h, Some(|body|));
    }
  }

  lemma PrefixOfBoth(d: string, closed: string, rest: string, k: nat)
    requires k + |d| <= |closed|
    ensures k <= |Line(closed + rest)| && d <= Line(closed + rest)[k..] ==> d <= closed[k..]
  {
    var line := Line(closed + rest);
    if k <= |line| && d <= line[k..] {
      assert line[k..][..|d|] == closed[k..][..|d|];
    }
  }

  lemma FindRawIs(s: string, h: nat, p: Option<nat>)
    requires p.Some? ==> p.value < |s| && ClosesRaw(s[p.value..], h)
    requires forall k :: 0 <= k < |s| && (p.Some? ==> k < p.value) ==> !ClosesRaw(s[k..], h)
    ensures FindRaw(s, h) == p
  {
    var q := FindRaw(s, h);
    assert q.Some? ==> ClosesRaw(s[q.value..], h);
  }

  lemma {:induction false} RawIsSkipped(h: nat, body: string, rest: string)
    requires GoodRaw(h, body)
    ensures Skips(body + RawEnd(h) + rest, InRaw(h), |body| + h + 1, START)
    decreases |body|
  {
    hide Skips, FindRaw;
    var s := body + RawEnd(h) + rest;
    RawLine(h, body, rest);
    if '\n' !in body {
      MoveSkips(s, InRaw(h));
    } else {
      var e := LineEnd(s);
      assert e < |body| by {
        var k :| 0 <= k < |body| && body[k] == '\n';
        assert s[k] == '\n';
      }
      var tail := s[e..];
      assert tail[1..] == body[e + 1..] + RawEnd(h) + rest;
      TailIsGood(h, body, e + 1);
      RawIsSkipped(h, body[e + 1..], rest);
      LineBreakSkips(tail, InRaw(h));
      SkipsMore(tail, InRaw(h), 1, InRaw(h), |body| - e + h, START);
      if e > 0 {
        MoveSkips(s, InRaw(h));
        SkipsMore(s, InRaw(h), e, InRaw(h), |body| - e + h + 1, START);
      }
    }
  }

  lemma TailIsGood(h: nat, body: string, n: nat)
    requires GoodRaw(h, body) && n <= |body|
    ensures GoodRaw(h, body[n..])
  {
    var tail := body[n..];
    forall k | 0 <= k < |tail|
      ensures !(RawEnd(h) <= (tail + RawEnd(h))[k..])
    {
      assert (tail + RawEnd(h))[k..] == (body + RawEnd(h))[n + k..];
    }
  }

  // ---- comments ----

  function InComment(depth: nat): Lexer {
    Lexer(depth, false, false, None)
  }

  /** A delimiter is on one line. */
  lemma LineStarts(s: string, a: char, b: char)
    requires a != '\n' && b != '\n'
    ensures Starts(Line(s), a, b) <==> [a, b] <= s
  {
    if Starts(Line(s), a, b) {
      assert s[..2] == [a, b];
    }
    if [a, b] <= s {
      assert s[0] == a && s[1] == b;
      FirstOfLine(s);
      FirstOfLine(s[1..]);
    }
  }

  lemma CommentMoves(s: string, depth: nat)
    requires s != "" && depth > 0
    ensures "/*" <= s ==> Skips(s, InComment(depth), 2, InComment(depth + 1))
    ensures "*/" <= s ==> Skips(s, InComment(depth), 2, InComment(depth - 1))
    ensures !("/*" <= s) && !("*/" <= s) ==> Skips(s, InComment(depth), 1, InComment(depth))
  {
    hide Skips;
    LineStarts(s, '/', '*');
    LineStarts(s, '*', '/');
    assert ['/', '*'] == "/*" && ['*', '/'] == "*/";
    if s[0] == '\n' {
      LineBreakSkips(s, InComment(depth));
    } else {
      MoveSkips(s, InComment(depth));
    }
  }

  lemma {:induction false} CommentIsSkipped(inside: seq<CommentPart>, depth: nat, rest: string)
    requires GoodComment(inside, depth) && depth > 0
    ensures Skips(RenderComment(inside) + rest, InComment(depth), |RenderComment(inside)|, START)
    decreases |inside|
  {
    hide Skips;
    var s := RenderComment(inside) + rest;
    var tail := RenderComment(inside[1..]) + rest;
    var n := |RenderComment(inside[1..])|;
    CommentIsLong(inside, depth);
    CommentMoves(s, depth);
    match inside[0] {
      case OpenComment =>
        CommentIsSkipped(inside[1..], depth + 1, rest);
        assert s[..2] == "/*" && s[2..] == tail;
        SkipsMore(s, InComment(depth), 2, InComment(depth + 1), n, START);
      case CloseComment =>
        assert s[..2] == "*/" && s[2..] == tail;
        if depth > 1 {
          CommentIsSkipped(inside[1..], depth - 1, rest);
          SkipsMore(s, InComment(depth), 2, InComment(depth - 1), n, START);
        }
      case Inside(c) =>
        CommentIsSkipped(inside[1..], depth, rest);
        assert s[1..] == tail;
        assert forall d: string :: |d| == 2 && d <= s ==> d <= RenderComment(inside);
        SkipsMore(s, InComment(depth), 1, InComment(depth), n, START);
    }
  }

  lemma {:induction false} CommentIsLong(inside: seq<CommentPart>, depth: nat)
    requires GoodComment(inside, depth) && depth > 0
    ensures |RenderComment(inside)| >= 2
    decreases |inside|
  {
    if inside[0].Inside? {
      CommentIsLong(inside[1..], depth);
    }
  }

  // ---- character literals ----

  lemma DigitsAreRun(body: string, rest: string)
    requires (forall k :: 0 <= k < |body| ==> IsUnicodeDigit(body[k])) && rest != "" && !IsUnicodeDigit(rest[0])
    ensures DigitRun(body + rest) == |body|
  {
    var s := body + rest;
    assert s[|body|] == rest[0];
    assert forall k :: 0 <= k < |body| ==> s[k] == body[k];
  }

  lemma UnicodeIsRead(body: string, rest: string)
    requires GoodLiteral(Unicode(body))
    ensures CharLiteral(RenderLiteral(Unicode(body)) + rest) == if |body| <= 6 then |body| + 6 else 0
  {
    hide DigitRun;
    var s, tail := RenderLiteral(Unicode(body)) + rest, ['}', '\''] + rest;
    DigitsAreRun(body, tail);
    var e := s[2..];
    assert e == ['u', '{'] + (body + tail);
    assert e[2..] == body + tail && e[|body| + 2] == '}';
    assert s[|body| + 5] == '\'';
  }

  /** The recogniser takes a whole literal, unless its `\u` body is too long. */
  lemma LiteralIsRead(literal: Literal, rest: string)
    requires GoodLiteral(literal)
    ensures CharLiteral(RenderLiteral(literal) + rest) == if ShortLiteral(literal) then |RenderLiteral(literal)| else 0
  {
    hide DigitRun;
    var s := RenderLiteral(literal) + rest;
    match literal {
      case One(c) =>
      case Simple(c) =>
        assert s[2..] == [c, '\''] + rest;
      case Hex(high, low) =>
        assert s[2..] == ['x', high, low, '\''] + rest;
      case Unicode(body) =>
        UnicodeIsRead(body, rest);
    }
  }

  /** Whatever the recogniser takes is a literal. */
  lemma ReadIsLiteral(s: string)
    requires CharLiteral(s) > 0 && '\n' !in s
    ensures StartsLiteral(s)
  {
    var literal: Literal;
    if s[1] != '\\' {
      literal := One(s[1]);
    } else if s[2] == 'x' {
      literal := Hex(s[3], s[4]);
    } else if s[2] == 'u' {
      var n := DigitRun(s[4..]);
      assert s[2..][2..] == s[4..];
      literal := Unicode(s[4..4 + n]);
      assert forall k :: 0 <= k < n ==> s[4..4 + n][k] == s[4..][k];
      assert s[2..][n + 2] == '}' && s[n + 5] == '\'';
      assert s[..n + 6] == ['\'', '\\', 'u', '{'] + s[4..4 + n] + ['}', '\''];
    } else {
      literal := Simple(s[2]);
    }
    assert GoodLiteral(literal) && RenderLiteral(literal) <= s;
  }

  /** A literal is blanked, and the lexer is in code after it, if and only if its `\u` body has
      at most six characters. */
  lemma LiteralIff(literal: Literal, rest: string)
    requires GoodLiteral(literal)
    ensures Skips(RenderLiteral(literal) + rest, START, |RenderLiteral(literal)|, START) <==> ShortLiteral(literal)
  {
    hide CharLiteral, RenderLiteral, Take;
    var text := RenderLiteral(literal);
    var s := text + rest;
    LiteralLooks(literal);
    LineOfPrefix(text, rest);
    LiteralIsRead(literal, Line(rest));
    assert Line(s)[0] == '\'';
    if ShortLiteral(literal) {
      MoveSkips(s, START);
    } else {
      FirstIsTaken(s, START, |text|);
    }
  }

  lemma LiteralLooks(literal: Literal)
    requires GoodLiteral(literal)
    ensures '\n' !in RenderLiteral(literal) && RenderLiteral(literal)[0] == '\''
  {
  }

  lemma FirstIsTaken(s: string, st: Lexer, n: nat)
    requires 0 < n <= |s|
    ensures Take(s, st, n).Some? ==> Take(s, st, n).value.text[0] == Next(s, st).text[0]
  {
  }

  // ---- plain characters ----

  lemma OpensMeansStarts(s: string)
    requires s != "" && s[0] != '\n' && Opens(Line(s))
    ensures StartsToken(s)
  {
    hide CharLiteral;
    var line := Line(s);
    LineStarts(s, '/', '/');
    LineStarts(s, '/', '*');
    assert ['/', '/'] == "//" && ['/', '*'] == "/*";
    if RawStart(line).Some? {
      var h := RawStart(line).value;
      assert line[1..][..h] == Hashes(h);
      assert line[..h + 2] == "r" + Hashes(h) + "\"";
      assert "r" + Hashes(h) + "\"" <= s;
    } else if CharLiteral(line) > 0 {
      ReadIsLiteral(line);
      var literal :| GoodLiteral(literal) && RenderLiteral(literal) <= line;
      assert RenderLiteral(literal) <= s;
    }
  }

  lemma PlainIsKept(c: char, rest: string)
    requires !StartsToken([c] + rest)
    ensures Take([c] + rest, START, 1) == Some(Masked([c], START))
  {
    hide StartsToken, Opens;
    var s := [c] + rest;
    if c != '\n' && Opens(Line(s)) {
      OpensMeansStarts(s);
    }
    KeptInCode(s);
    NextIsTaken(s, START);
  }

  lemma KeptInCode(s: string)
    requires s != "" && (s[0] == '\n' || !Opens(Line(s)))
    ensures Next(s, START) == Masked([s[0]], START)
  {
  }

  // ---- whole tokens ----

  function BlankToken(t: Token): string {
    if t.Plain? then [t.c] else BlankOut(RenderToken(t))
  }

  lemma OpeningSkips(s: string)
    ensures "\"" <= s ==> Skips(s, START, 1, STRING)
    ensures "/*" <= s ==> Skips(s, START, 2, InComment(1))
    ensures "//" <= s ==> Skips(s, START, LineEnd(s), START)
  {
    hide Skips, CharLiteral;
    LineStarts(s, '/', '/');
    LineStarts(s, '/', '*');
    assert ['/', '/'] == "//" && ['/', '*'] == "/*";
    if "\"" <= s || "/*" <= s || "//" <= s {
      assert s[0] == '"' || s[0] == '/';
      FirstOfLine(s);
      MoveSkips(s, START);
    }
  }

  lemma RawOpens(h: nat, tail: string)
    requires h <= 255
    ensures Skips("r" + Hashes(h) + "\"" + tail, START, h + 2, InRaw(h))
  {
    hide Skips, CharLiteral;
    var open := "r" + Hashes(h) + "\"";
    var s := open + tail;
    LineOfPrefix(open, tail);
    var line := Line(s);
    assert line[1..] == Hashes(h) + ("\"" + Line(tail));
    HashesAreRun(h, "\"" + Line(tail));
    MoveSkips(s, START);
  }

  lemma HashesAreRun(h: nat, rest: string)
    requires rest != "" && rest[0] != '#'
    ensures HashRun(Hashes(h) + rest) == h
  {
    var s := Hashes(h) + rest;
    assert s[h] == rest[0];
  }

  /** The lexer reads the string as far as its own quote, and any other token as it is. */
  ghost predicate ReadsAsItself(t: Token, rest: string) {
    if t.Quoted? then StringEnd(RenderString(t.parts) + rest, false) == Some(|RenderString(t.parts)|)
    else Take(RenderToken(t) + rest, START, |RenderToken(t)|) == Some(Masked(BlankToken(t), START))
  }

  lemma SkippedIsRead(t: Token, rest: string)
    requires !t.Plain? && !t.Quoted?
    ensures Skips(RenderToken(t) + rest, START, |RenderToken(t)|, START) <==> ReadsAsItself(t, rest)
  {
    hide RenderToken, Take, StringEnd;
    assert (RenderToken(t) + rest)[..|RenderToken(t)|] == RenderToken(t);
  }

  /** Main result: the lexer reads a token of Rust source as what it is if and only if, for a
      string, its continuation lines keep in step and, for a `\u` literal, its body has at most
      six characters. All other tokens are always read right, over however many lines. */
  lemma TokenIff(t: Token, rest: string)
    requires GoodToken(t, rest)
    ensures ReadsAsItself(t, rest) <==> MaskedRight(t)
  {
    hide Skips, ReadsAsItself, StartsToken, GoodRaw, GoodComment, GoodString, Take, InStep, GoodLiteral;
    var s := RenderToken(t) + rest;
    match t {
      case Plain(c) =>
        PlainIsKept(c, rest);
        PlainIsRead(c, rest);
      case Quoted(parts) =>
        StringIff(parts, false, rest);
        QuotedIsRead(parts, rest);
      case RawQuoted(h, body) =>
        RawTokenIsSkipped(h, body, rest);
        SkippedIsRead(t, rest);
      case CharacterLiteral(literal) =>
        LiteralIff(literal, rest);
        SkippedIsRead(t, rest);
      case BlockComment(inside) =>
        CommentIsSkipped(inside, 1, rest);
        assert s[..2] == "/*" && s[2..] == RenderComment(inside) + rest;
        OpeningSkips(s);
        SkipsMore(s, START, 2, InComment(1), |RenderComment(inside)|, START);
        SkippedIsRead(t, rest);
      case LineComment(body) =>
        assert '\n' !in "//" + body;
        LineOfPrefix("//" + body, rest);
        assert s[..2] == "//" && Line(rest) == "" && LineEnd(s) == |"//" + body|;
        OpeningSkips(s);
        SkippedIsRead(t, rest);
    }
  }

  lemma PlainIsRead(c: char, rest: string)
    ensures ReadsAsItself(Plain(c), rest) <==> Take([c] + rest, START, 1) == Some(Masked([c], START))
  {
  }

  lemma QuotedIsRead(parts: seq<StringPart>, rest: string)
    ensures ReadsAsItself(Quoted(parts), rest)
       <==> StringEnd(RenderString(parts) + rest, false) == Some(|RenderString(parts)|)
  {
  }

  lemma RawTokenIsSkipped(h: nat, body: string, rest: string)
    requires GoodRaw(h, body)
    ensures var t := RawQuoted(h, body); Skips(RenderToken(t) + rest, START, |RenderToken(t)|, START)
  {
    hide Skips;
    var s, tail := RenderToken(RawQuoted(h, body)) + rest, body + RawEnd(h) + rest;
    assert s == "r" + Hashes(h) + "\"" + tail;
    RawOpens(h, tail);
    RawIsSkipped(h, body, rest);
    assert s[h + 2..] == tail;
    SkipsMore(s, START, h + 2, InRaw(h), |body| + h + 1, START);
  }

  lemma TokenIsTaken(t: Token, rest: string)
    requires GoodToken(t, rest) && MaskedRight(t)
    ensures Take(RenderToken(t) + rest, START, |RenderToken(t)|) == Some(Masked(BlankToken(t), START))
  {
    TokenIff(t, rest);
    if t.Quoted? {
      hide Skips, StringEnd;
      var s, tail := RenderToken(t) + rest, RenderString(t.parts) + rest;
      assert s[..1] == "\"" && s[1..] == tail;
      StringEndIsRead(tail, false);
      OpeningSkips(s);
      SkipsMore(s, START, 1, STRING, |RenderString(t.parts)|, START);
      SkippedIsTaken(s, RenderToken(t));
    }
  }

  lemma SkippedIsTaken(s: string, text: string)
    requires text <= s && Skips(s, START, |text|, START)
    ensures Take(s, START, |text|) == Some(Masked(BlankOut(text), START))
  {
    assert s[..|text|] == text;
  }

  // ---- whole files ----

  lemma {:induction false} TextIsMasked(tokens: seq<Token>)
    requires WellFormed(tokens) && forall k :: 0 <= k < |tokens| ==> MaskedRight(tokens[k])
    ensures MaskText(Render(tokens), START) == Masked(Blank(tokens), START)
  {
    hide RenderToken, GoodToken, MaskedRight, Take, BlankOut;
    if tokens != [] {
      var t, rest := tokens[0], Render(tokens[1..]);
      var s := Render(tokens);
      TextIsMasked(tokens[1..]);
      TokenIsTaken(t, rest);
      assert s[|RenderToken(t)|..] == rest;
      TakeAll(s, START, |RenderToken(t)|);
    }
  }

  /** Main result: on every file of Rust tokens whose strings keep in step and whose `\u` literals
      are short, masking line by line keeps exactly the plain characters and the line breaks. */
  lemma MaskKeepsPlain(tokens: seq<Token>)
    requires WellFormed(tokens) && forall k :: 0 <= k < |tokens| ==> MaskedRight(tokens[k])
    ensures Strings.Join(MaskLines(Strings.Split(Render(tokens), "\n"), START), "\n") == Blank(tokens)
  {
    TextIsMasked(tokens);
    LinesAreText(Render(tokens), START);
  }

  // ---- when a string keeps in step ----

  /** Every continuation line starts with an ordinary character. */
  predicate ContinuesOrdinarily(parts: seq<StringPart>) {
    forall i :: 0 <= i < |parts| && parts[i] == Escaped('\n') ==>
      i + 1 < |parts| && parts[i + 1].Ordinary? && parts[i + 1].c != '\n'
  }

  /** It is enough that no line after a backslash is empty or starts with a quote or a backslash. */
  lemma {:induction false} OrdinaryContinuation(parts: seq<StringPart>)
    requires ContinuesOrdinarily(parts)
    ensures InStep(parts, false)
    ensures parts != [] && parts[0].Ordinary? && parts[0].c != '\n' ==> InStep(parts, true)
  {
    if parts != [] {
      forall i | 0 <= i < |parts| - 1 && parts[1..][i] == Escaped('\n')
        ensures i + 1 < |parts| - 1 && parts[1..][i + 1].Ordinary? && parts[1..][i + 1].c != '\n'
      {
        assert parts[i + 1] == Escaped('\n');
      }
      OrdinaryContinuation(parts[1..]);
    }
  }

  function RenderParts(parts: seq<StringPart>): string {
    if parts == [] then "" else RenderPart(parts[0]) + RenderParts(parts[1..])
  }

  lemma InsideString(c: char, tail: string, escaped: bool)
    requires c != '"' || escaped
    ensures Skips([c] + tail, InString(escaped), 1, InString(EscapedAfter(c, escaped)))
  {
    hide Skips;
    var s := [c] + tail;
    if c == '\n' {
      LineBreakSkips(s, InString(escaped));
    } else {
      FirstOfLine(s);
      MoveSkips(s, InString(escaped));
    }
  }

  lemma {:induction false} PartsAreSkipped(parts: seq<StringPart>, shifted: bool, tail: string)
    requires GoodString(parts) && InStep(parts, shifted)
    ensures Skips(RenderParts(parts) + tail, InString(shifted), |RenderParts(parts)|, STRING)
  {
    hide Skips;
    var s := RenderParts(parts) + tail;
    if parts == [] {
      NothingSkips(s, STRING);
    } else {
      var rest, n := RenderParts(parts[1..]) + tail, |RenderParts(parts[1..])|;
      match parts[0] {
        case Ordinary(c) =>
          assert s == [c] + rest && s[1..] == rest;
          InsideString(c, rest, shifted);
          PartsAreSkipped(parts[1..], EscapedAfter(c, shifted), tail);
          SkipsMore(s, InString(shifted), 1, InString(EscapedAfter(c, shifted)), n, STRING);
        case Escaped(c) =>
          var mid, after := ['\\'] + ([c] + rest), EscapedAfter(c, !shifted);
          assert s == mid && mid[1..] == [c] + rest && ([c] + rest)[1..] == rest;
          InsideString('\\', [c] + rest, shifted);
          InsideString(c, rest, !shifted);
          PartsAreSkipped(parts[1..], after, tail);
          SkipsMore([c] + rest, InString(!shifted), 1, InString(after), n, STRING);
          SkipsMore(s, InString(shifted), 1, InString(!shifted), n + 1, STRING);
      }
    }
  }

  lemma NothingSkips(s: string, st: Lexer)
    ensures Skips(s, st, 0, st)
  {
    assert BlankOut(s[..0]) == "";
  }

  /** A string that keeps in step up to a last line of just the closing quote, after a backslash, is
      not closed: the first visible character behind it is blanked. */
  lemma QuoteAfterBreakFails(parts: seq<StringPart>, c: char, rest: string)
    requires GoodString(parts) && InStep(parts, false) && c != ' ' && c != '\n'
    ensures var text := RenderToken(Quoted(parts + [Escaped('\n')]));
            MaskText(text + [c] + rest, START).text[|text|] == ' '
  {
    hide Skips, Take, MaskText, InStep, GoodString, RenderParts, RenderString;
    var broken := parts + [Escaped('\n')];
    var text := RenderToken(Quoted(broken));
    var s, end := text + [c] + rest, "\\\n\"" + ([c] + rest);
    var front := RenderParts(parts);
    RenderedFront(parts);
    assert s == "\"" + (front + end);
    assert s[..1] == "\"" && s[1..] == front + end && (front + end)[|front|..] == end;
    OpeningSkips(s);
    PartsAreSkipped(parts, false, end);
    SkipsMore(s, START, 1, STRING, |front|, STRING);
    BreakThenQuote([c] + rest);
    assert s[1 + |front|..] == end;
    SkipsMore(s, START, 1 + |front|, STRING, 3, STRING);
    assert s[4 + |front|..] == [c] + rest && |text| == 4 + |front|;
    FirstIsBlanked(s, |text|, c, rest);
  }

  lemma {:induction false} RenderedFront(parts: seq<StringPart>)
    ensures RenderString(parts + [Escaped('\n')]) == RenderParts(parts) + "\\\n\""
  {
    var broken := parts + [Escaped('\n')];
    if parts == [] {
      assert broken[1..] == [];
      assert RenderString(broken) == RenderPart(Escaped('\n')) + "\"";
    } else {
      RenderedFront(parts[1..]);
      assert broken[0] == parts[0] && broken[1..] == parts[1..] + [Escaped('\n')];
    }
  }

  lemma BreakThenQuote(rest: string)
    ensures Skips("\\\n\"" + rest, STRING, 3, STRING)
  {
    hide Skips;
    var s := "\\\n\"" + rest;
    assert s == ['\\'] + (['\n'] + (['"'] + rest));
    assert s[1..] == ['\n'] + (['"'] + rest) && s[1..][1..] == ['"'] + rest;
    InsideString('\\', s[1..], false);
    InsideString('\n', ['"'] + rest, true);
    InsideString('"', rest, true);
    SkipsMore(s[1..], ESCAPED, 1, ESCAPED, 1, STRING);
    SkipsMore(s, STRING, 1, ESCAPED, 2, STRING);
  }

  lemma FirstIsBlanked(s: string, n: nat, c: char, rest: string)
    requires n < |s| && s[n..] == [c] + rest && c != '\n' && Skips(s, START, n, STRING)
    ensures MaskText(s, START).text[n] == ' '
  {
    hide Take;
    TakeAll(s, START, n);
    assert MaskText(s, START).text[n] == MaskText(s[n..], STRING).text[0];
  }

  /** The shortest such file: the mask blanks the b behind the string. */
  lemma EscapeCrossesLines()
    ensures MaskText("\"a\\\n\"b", START).text[5] == ' '
  {
    var parts := [Ordinary('a')];
    assert (parts + [Escaped('\n')])[1..] == [Escaped('\n')] && [Escaped('\n')][1..] == [];
    assert RenderString([]) == "\"" && RenderString([Escaped('\n')]) == "\\\n\"";
    assert RenderString(parts + [Escaped('\n')]) == "a\\\n\"";
    assert RenderToken(Quoted(parts + [Escaped('\n')])) == "\"a\\\n\"";
    assert InStep(parts, false) by { assert parts[1..] == []; }
    QuoteAfterBreakFails(parts, 'b', "");
    assert "\"a\\\n\"" + ['b'] + "" == "\"a\\\n\"b";
  }

  /** One literal in Rust, six digits with an underscore; the mask keeps its first quote. */
  lemma LongLiteralIsKept(rest: string)
    ensures GoodLiteral(Unicode("10_FFFF"))
    ensures MaskText(RenderLiteral(Unicode("10_FFFF")) + rest, START).text[0] == '\''
  {
    var literal := Unicode("10_FFFF");
    var s := RenderLiteral(literal) + rest;
    LiteralLooks(literal);
    LineOfPrefix(RenderLiteral(literal), rest);
    LiteralIsRead(literal, Line(rest));
    assert Line(s)[0] == '\'';
    NextIsTaken(s, START);
    TakeAll(s, START, |Next(s, START).text|);
  }
}
