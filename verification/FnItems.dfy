/**
 What a function is in Rust, as far as braces go: a header, a signature of nested brackets, and
 either `;` or a body. This is the reference the spans of scripts/m5-reader-sweep.py are held
 against; the text is one in which comments and literals are already masked.
 */
module FnItems {
  import opened Wrappers
  import opened FnSpans
  import opened Headers
  import opened Declarations

  // ---- the grammar ----

  datatype Bracket = Round | Square | Curly | Angle

  datatype Trees =
    | Done
    | Leaf(c: char, next: Trees)
    | Arrow(next: Trees)
    | Group(bracket: Bracket, inside: Trees, next: Trees)

  /** Where trees stand: in a signature outside all brackets, within its types, or in code. */
  datatype Level = Top | Types | Code

  function Opener(b: Bracket): char {
    match b case Round => '(' case Square => '[' case Curly => '{' case Angle => '<'
  }

  function Closer(b: Bracket): char {
    match b case Round => ')' case Square => ']' case Curly => '}' case Angle => '>'
  }

  function RenderTrees(t: Trees): string {
    match t
    case Done => ""
    case Leaf(c, next) => [c] + RenderTrees(next)
    case Arrow(next) => "->" + RenderTrees(next)
    case Group(b, inside, next) => [Opener(b)] + (RenderTrees(inside) + ([Closer(b)] + RenderTrees(next)))
  }

  predicate IsBracket(c: char) {
    c == '(' || c == ')' || c == '[' || c == ']' || c == '{' || c == '}'
  }

  /** Array lengths, const arguments and patterns in braces, and bodies are code. */
  function InsideOf(b: Bracket, level: Level): Level {
    if level.Code? || b.Square? || b.Curly? then Code else Types
  }

  /** Outside code `<` and `>` are brackets, except in `->`; outside all brackets there is neither `;`
      nor a brace. */
  predicate GoodTrees(t: Trees, level: Level) {
    match t
    case Done => true
    case Leaf(c, next) =>
      && !IsBracket(c) && (level.Top? ==> c != ';')
      && (level.Code? || (c != '<' && c != '>' && (c == '-' ==> next != Done)))
      && GoodTrees(next, level)
    case Arrow(next) => !level.Code? && GoodTrees(next, level)
    case Group(b, inside, next) =>
      && (b.Curly? ==> !level.Top?) && (b.Angle? ==> !level.Code?)
      && GoodTrees(inside, InsideOf(b, level)) && GoodTrees(next, level)
  }

  datatype Item = Item(decl: Decl, sig: Trees, body: Option<Trees>)

  /** The item up to its `;` or the `{` of its body. */
  function Head(item: Item): string {
    Front(item.decl) + (RenderFn(item.decl) + RenderTrees(item.sig))
  }

  function RenderBody(body: Option<Trees>): (s: string)
    ensures s != "" && s[0] == if body.Some? then '{' else ';'
  {
    if body.Some? then "{" + (RenderTrees(body.value) + "}") else ";"
  }

  function RenderItem(item: Item): string {
    Head(item) + RenderBody(item.body)
  }

  ghost predicate GoodItem(cls: Classes, item: Item) {
    && GoodDecl(cls, item.decl) && NoBraces(Front(item.decl))
    && item.sig != Done && EndsName(cls, RenderTrees(item.sig)) && GoodTrees(item.sig, Top)
    && (item.body.Some? ==> GoodTrees(item.body.value, Code))
  }

  // ---- an item is read in one way only ----

  function LevelOf(open: seq<Bracket>): Level {
    if open == [] then Top else InsideOf(open[|open| - 1], LevelOf(open[..|open| - 1]))
  }

  function OpenedBy(c: char, level: Level): Option<Bracket> {
    if c == '(' then Some(Round)
    else if c == '[' then Some(Square)
    else if c == '{' then Some(Curly)
    else if c == '<' && !level.Code? then Some(Angle)
    else None
  }

  predicate Closes(c: char, level: Level) {
    c == ')' || c == ']' || c == '}' || (c == '>' && !level.Code?)
  }

  function Later(r: Option<nat>, n: nat): Option<nat> {
    if r.Some? then Some(n + r.value) else None
  }

  /** Where the signature ends: at the first `;` or `{` outside all brackets. */
  function SigEnd(s: string, open: seq<Bracket>): Option<nat> {
    var level := LevelOf(open);
    if s == "" then None
    else if level.Top? && (s[0] == ';' || s[0] == '{') then Some(0)
    else if !level.Code? && "->" <= s then Later(SigEnd(s[2..], open), 2)
    else if OpenedBy(s[0], level).Some? then Later(SigEnd(s[1..], open + [OpenedBy(s[0], level).value]), 1)
    else if !Closes(s[0], level) then Later(SigEnd(s[1..], open), 1)
    else if open == [] then None
    else Later(SigEnd(s[1..], open[..|open| - 1]), 1)
  }

  lemma NoArrowHere(t: Trees, level: Level, rest: string)
    requires t.Leaf? && GoodTrees(t, level) && !level.Code?
    ensures !("->" <= RenderTrees(t) + rest)
  {
    var s, after := RenderTrees(t) + rest, RenderTrees(t.next);
    assert "->"[0] == '-' && "->"[1] == '>' && s[0] == t.c;
    if t.c == '-' {
      FirstIsNotGreater(t.next, level);
      assert s[1] == after[0];
    }
  }

  lemma FirstIsNotGreater(t: Trees, level: Level)
    requires t != Done && GoodTrees(t, level) && !level.Code?
    ensures RenderTrees(t) != "" && RenderTrees(t)[0] != '>'
  {
  }

  lemma LeafIsRead(t: Trees, open: seq<Bracket>, rest: string)
    requires t.Leaf? && GoodTrees(t, LevelOf(open))
    ensures SigEnd(RenderTrees(t) + rest, open) == Later(SigEnd(RenderTrees(t.next) + rest, open), 1)
  {
    var s := RenderTrees(t) + rest;
    assert s[0] == t.c && s[1..] == RenderTrees(t.next) + rest;
    if !LevelOf(open).Code? { NoArrowHere(t, LevelOf(open), rest); }
  }

  lemma ArrowIsRead(t: Trees, open: seq<Bracket>, rest: string)
    requires t.Arrow? && GoodTrees(t, LevelOf(open))
    ensures SigEnd(RenderTrees(t) + rest, open) == Later(SigEnd(RenderTrees(t.next) + rest, open), 2)
  {
    var s := RenderTrees(t) + rest;
    assert s[0] == '-' && "->" <= s && s[2..] == RenderTrees(t.next) + rest;
  }

  lemma PushPop(open: seq<Bracket>, b: Bracket)
    ensures LevelOf(open + [b]) == InsideOf(b, LevelOf(open))
    ensures (open + [b])[..|open + [b]| - 1] == open
  {
  }

  lemma CloserCloses(open: seq<Bracket>, b: Bracket, rest: string)
    requires b.Angle? ==> !LevelOf(open).Code?
    requires b.Curly? ==> !LevelOf(open).Top?
    ensures SigEnd([Closer(b)] + rest, open + [b]) == Later(SigEnd(rest, open), 1)
  {
    PushPop(open, b);
    assert ([Closer(b)] + rest)[1..] == rest;
    assert "->"[0] == '-';
  }

  lemma {:induction false} SigEndReads(t: Trees, open: seq<Bracket>, rest: string)
    requires GoodTrees(t, LevelOf(open))
    ensures SigEnd(RenderTrees(t) + rest, open) == Later(SigEnd(rest, open), |RenderTrees(t)|)
  {
    hide SigEnd, LevelOf;
    var s := RenderTrees(t) + rest;
    match t {
      case Done =>
        assert s == rest;
      case Leaf(c, next) =>
        LeafIsRead(t, open, rest);
        SigEndReads(next, open, rest);
      case Arrow(next) =>
        ArrowIsRead(t, open, rest);
        SigEndReads(next, open, rest);
      case Group(b, inside, next) =>
        var after := RenderTrees(next) + rest;
        var closed := [Closer(b)] + after;
        assert s[0] == Opener(b) && s[1..] == RenderTrees(inside) + closed;
        PushPop(open, b);
        OpenerOpens(s, open, b);
        SigEndReads(inside, open + [b], closed);
        CloserCloses(open, b, after);
        SigEndReads(next, open, rest);
    }
  }

  lemma OpenerOpens(s: string, open: seq<Bracket>, b: Bracket)
    requires s != "" && s[0] == Opener(b)
    requires (b.Curly? ==> !LevelOf(open).Top?) && (b.Angle? ==> !LevelOf(open).Code?)
    ensures SigEnd(s, open) == Later(SigEnd(s[1..], open + [b]), 1)
  {
    assert "->"[0] == '-';
  }

  /** Main result: reading brackets from left to right ends a signature where the grammar does. */
  lemma SigEndIs(sig: Trees, body: Option<Trees>, rest: string)
    requires GoodTrees(sig, Top)
    ensures SigEnd(RenderTrees(sig) + (RenderBody(body) + rest), []) == Some(|RenderTrees(sig)|)
  {
    SigEndReads(sig, [], RenderBody(body) + rest);
  }

  // ---- braces ----

  /** As many braces close as open, and none closes before it is opened. */
  ghost predicate Balanced(s: string) {
    Depth(s) == 0 && forall k :: 0 <= k <= |s| ==> Depth(s[..k]) >= 0
  }

  lemma {:induction false} DepthJoins(a: string, b: string)
    ensures Depth(a + b) == Depth(a) + Depth(b)
  {
    if b == "" {
      assert a + b == a;
    } else {
      assert (a + b)[..|a + b| - 1] == a + b[..|b| - 1];
      DepthJoins(a, b[..|b| - 1]);
    }
  }

  lemma DepthOfPrefix(a: string, b: string, k: nat)
    requires k <= |b|
    ensures Depth((a + b)[..|a| + k]) == Depth(a) + Depth(b[..k])
  {
    assert (a + b)[..|a| + k] == a + b[..k];
    DepthJoins(a, b[..k]);
  }

  lemma BalancedJoins(a: string, b: string)
    requires Balanced(a) && Balanced(b)
    ensures Balanced(a + b)
  {
    DepthJoins(a, b);
    forall k | 0 <= k <= |a + b|
      ensures Depth((a + b)[..k]) >= 0
    {
      if k <= |a| {
        assert (a + b)[..k] == a[..k];
      } else {
        DepthOfPrefix(a, b, k - |a|);
      }
    }
  }

  lemma QuietIsBalanced(s: string)
    requires NoBraces(s)
    ensures Balanced(s)
  {
    NoBracesNoDepth(s);
    forall k | 0 <= k <= |s|
      ensures Depth(s[..k]) >= 0
    {
      NoBracesNoDepth(s[..k]);
    }
  }

  /** Inside the braces the depth is positive. */
  lemma BracedDepth(s: string, rest: string)
    requires Balanced(s)
    ensures var braced := "{" + (s + "}");
            Balanced(braced) && forall k :: 0 < k < |braced| ==> Depth((braced + rest)[..k]) > 0
  {
    var braced := "{" + (s + "}");
    assert "{"[..0] == "" && "}"[..0] == "" && Depth("{") == 1 && Depth("}") == -1;
    DepthJoins("{", s + "}");
    DepthJoins(s, "}");
    forall k | 0 < k < |braced|
      ensures Depth(braced[..k]) > 0 && (braced + rest)[..k] == braced[..k]
    {
      assert braced[..k] == "{" + s[..k - 1];
      DepthJoins("{", s[..k - 1]);
    }
    assert braced[..|braced|] == braced && braced[..0] == "";
  }

  lemma {:induction false} TreesBalance(t: Trees, level: Level)
    requires GoodTrees(t, level)
    ensures Balanced(RenderTrees(t))
  {
    hide Balanced;
    match t {
      case Done => QuietIsBalanced("");
      case Leaf(c, next) =>
        TreesBalance(next, level);
        QuietIsBalanced([c]);
        BalancedJoins([c], RenderTrees(next));
      case Arrow(next) =>
        TreesBalance(next, level);
        QuietIsBalanced("->");
        BalancedJoins("->", RenderTrees(next));
      case Group(b, inside, next) =>
        TreesBalance(inside, InsideOf(b, level));
        TreesBalance(next, level);
        GroupBalances(b, RenderTrees(inside));
        var group := [Opener(b)] + (RenderTrees(inside) + [Closer(b)]);
        BalancedJoins(group, RenderTrees(next));
        assert RenderTrees(t) == group + RenderTrees(next);
    }
  }

  lemma GroupBalances(b: Bracket, inside: string)
    requires Balanced(inside)
    ensures Balanced([Opener(b)] + (inside + [Closer(b)]))
  {
    hide Balanced;
    if b.Curly? {
      BracedDepth(inside, "");
    } else {
      QuietIsBalanced([Opener(b)]);
      QuietIsBalanced([Closer(b)]);
      BalancedJoins(inside, [Closer(b)]);
      BalancedJoins([Opener(b)], inside + [Closer(b)]);
    }
  }

  // ---- one reading ----

  lemma BodyLength(a: string, ra: string, b: string, rb: string)
    requires Balanced(a) && Balanced(b) && "{" + (a + "}") + ra == "{" + (b + "}") + rb
    ensures |a| <= |b|
  {
    hide Depth;
    var left, right := "{" + (a + "}"), "{" + (b + "}");
    BracedDepth(a, ra);
    BracedDepth(b, rb);
    assert (right + rb)[..|right|] == right;
  }

  lemma HeaderIsRead(cls: Classes, item: Item, rest: string)
    requires Ordinary(cls) && GoodItem(cls, item) && InPattern(item.decl)
    ensures MatchFn(cls, RenderItem(item) + rest) == Some((|Front(item.decl)|, item.decl.name))
    ensures WordLength(cls, (RenderItem(item) + rest)[|Front(item.decl)|..], "fn") == 2 + |item.decl.gap|
  {
    hide MatchFn, Front, RenderFn, GoodDecl, GoodTrees, NoBraces, WordLength, InPattern;
    var d, sig := item.decl, RenderTrees(item.sig);
    var tail := sig + (RenderBody(item.body) + rest);
    assert RenderItem(item) + rest == Front(d) + (RenderFn(d) + tail);
    SigStarts(cls, item);
    assert tail[0] == sig[0];
    DeclIsMatched(cls, d, tail);
    Drop(Front(d), RenderFn(d) + tail);
    PatternIsPlain(d);
    PlainFn(d);
    assert RenderFn(d) + tail == "fn" + (d.gap + (d.name + tail));
    NameStarts(cls, d);
    GapAfter(cls, "fn", d.gap, d.name + tail);
  }

  lemma SigStarts(cls: Classes, item: Item)
    requires GoodItem(cls, item)
    ensures RenderTrees(item.sig) != ""
  {
  }

  lemma NameStarts(cls: Classes, d: Decl)
    requires Ordinary(cls) && GoodDecl(cls, d)
    ensures IsGap(cls, d.gap) && d.name != "" && !cls.space(d.name[0])
  {
    assert cls.word(d.name[0]);
  }

  /** Main result: a text begins with one item at most, so what a function's own body is does not
      depend on the reading. */
  lemma ItemIsUnique(cls: Classes, a: Item, ra: string, b: Item, rb: string)
    requires Ordinary(cls) && GoodItem(cls, a) && GoodItem(cls, b) && InPattern(a.decl) && InPattern(b.decl)
    requires RenderItem(a) + ra == RenderItem(b) + rb
    ensures RenderItem(a) == RenderItem(b) && Head(a) == Head(b) && (a.body.Some? <==> b.body.Some?)
  {
    hide MatchFn, Front, RenderFn, GoodDecl, GoodTrees, NoBraces, RenderTrees, SigEnd, WordLength, Ordinary, InPattern;
    HeaderIsRead(cls, a, ra);
    HeaderIsRead(cls, b, rb);
    SameHead(a, ra, b, rb);
    var n := |Head(a)|;
    assert (RenderItem(a) + ra)[n..] == RenderBody(a.body) + ra;
    assert (RenderItem(b) + rb)[n..] == RenderBody(b.body) + rb;
    assert (RenderBody(a.body) + ra)[0] == (RenderBody(b.body) + rb)[0];
    SameBody(a.body, ra, b.body, rb);
    assert RenderItem(a) == (RenderItem(a) + ra)[..|RenderItem(a)|];
    assert RenderItem(b) == (RenderItem(b) + rb)[..|RenderItem(b)|];
  }

  lemma FnLength(d: Decl)
    requires InPattern(d)
    ensures |RenderFn(d)| == 2 + |d.gap| + |d.name|
  {
    PlainFn(d);
  }

  lemma SameHead(a: Item, ra: string, b: Item, rb: string)
    requires GoodTrees(a.sig, Top) && GoodTrees(b.sig, Top) && InPattern(a.decl) && InPattern(b.decl)
    requires RenderItem(a) + ra == RenderItem(b) + rb && |Front(a.decl)| == |Front(b.decl)|
    requires |a.decl.gap| == |b.decl.gap| && |a.decl.name| == |b.decl.name|
    ensures Head(a) == Head(b)
  {
    hide Front, RenderFn, GoodTrees, RenderTrees, SigEnd, InPattern, RenderBody;
    FnLength(a.decl);
    FnLength(b.decl);
    var text, n := RenderItem(a) + ra, |Front(a.decl)| + |RenderFn(a.decl)|;
    assert text[n..] == RenderTrees(a.sig) + (RenderBody(a.body) + ra);
    assert text[n..] == RenderTrees(b.sig) + (RenderBody(b.body) + rb) by {
      assert text == RenderItem(b) + rb;
    }
    SigEndIs(a.sig, a.body, ra);
    SigEndIs(b.sig, b.body, rb);
    assert Head(a) == text[..|Head(a)|];
    assert Head(b) == (RenderItem(b) + rb)[..|Head(b)|];
  }

  lemma SameBody(a: Option<Trees>, ra: string, b: Option<Trees>, rb: string)
    requires (a.Some? ==> GoodTrees(a.value, Code)) && (b.Some? ==> GoodTrees(b.value, Code))
    requires RenderBody(a) + ra == RenderBody(b) + rb && (a.Some? <==> b.Some?)
    ensures |RenderBody(a)| == |RenderBody(b)|
  {
    hide RenderTrees, GoodTrees, Balanced;
    if a.Some? {
      TreesBalance(a.value, Code);
      TreesBalance(b.value, Code);
      BodyLength(RenderTrees(a.value), ra, RenderTrees(b.value), rb);
      BodyLength(RenderTrees(b.value), rb, RenderTrees(a.value), ra);
    }
  }
}
