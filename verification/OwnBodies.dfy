/**
 Which spans of scripts/m5-reader-sweep.py hold the body of the function they are named after
 (`body_spans` with its header pattern), and which headers get a span at all.
 */
module OwnBodies {
  import opened Wrappers
  import opened FnSpans
  import opened Declarations
  import opened Headers
  import opened FnItems

  // ---- which headers start a span ----

  /** A span over earlier lines that reach line k. */
  predicate Covers(span: Span, k: nat) {
    span.firstLine < k <= span.lastLine
  }

  /** Main result: a header line starts a span if and only if no other span's lines run over it. */
  lemma {:induction false} StartsSpanIff(lines: seq<string>, header: Header, i: nat, k: nat)
    requires i <= k < |lines| && header(lines[k]).Some?
    ensures (exists s :: s in SpansFrom(lines, header, i) && s.firstLine == k)
            <==> forall s :: s in SpansFrom(lines, header, i) ==> !Covers(s, k)
    decreases |lines| - i
  {
    hide ScanFrom;
    var spans := SpansFrom(lines, header, i);
    if header(lines[i]) == None {
      StartsSpanIff(lines, header, i + 1, k);
    } else {
      var first, next := spans[0], ScanFrom(lines, i, i, 0, false).line + 1;
      var rest := SpansFrom(lines, header, next);
      assert spans == [first] + rest && first in spans;
      SpansBeginAt(lines, header, next);
      if next <= k {
        StartsSpanIff(lines, header, next, k);
        assert !Covers(first, k) && first.firstLine != k;
        forall s ensures s in spans <==> s == first || s in rest {}
      } else if i < k {
        assert Covers(first, k);
      }
    }
  }

  lemma SpansBeginAt(lines: seq<string>, header: Header, i: nat)
    ensures forall s :: s in SpansFrom(lines, header, i) ==> i <= s.firstLine <= s.lastLine < |lines|
  {
    forall b | 0 <= b < |SpansFrom(lines, header, i)|
      ensures i <= SpansFrom(lines, header, i)[b].firstLine <= SpansFrom(lines, header, i)[b].lastLine < |lines|
    {
      SpansStartLater(lines, header, i, b);
    }
  }

  // ---- which spans hold their own body ----

  lemma NoBracesJoin(a: string, b: string)
    ensures NoBraces(a + b) <==> NoBraces(a) && NoBraces(b)
  {
    if NoBraces(a + b) {
      assert forall k :: 0 <= k < |a| ==> a[k] == (a + b)[k];
      assert forall k :: 0 <= k < |b| ==> b[k] == (a + b)[|a| + k];
    }
  }

  lemma NameIsQuiet(cls: Classes, d: Decl)
    requires Ordinary(cls) && GoodDecl(cls, d)
    ensures NoBraces(RenderFn(d))
  {
    assert NoBraces("fn") && NoBraces(d.gap) && NoBraces("r#") && NoBraces(d.name);
  }

  /** The braces before the body are those of the signature, and they match. */
  lemma HeadBalances(cls: Classes, item: Item)
    requires Ordinary(cls) && GoodItem(cls, item)
    ensures Balanced(Head(item)) && (NoBraces(Head(item)) <==> NoBraces(RenderTrees(item.sig)))
  {
    hide Front, RenderFn, RenderTrees, GoodTrees, NoBraces, Balanced;
    var f, n, sig := Front(item.decl), RenderFn(item.decl), RenderTrees(item.sig);
    NameIsQuiet(cls, item.decl);
    TreesBalance(item.sig, Top);
    QuietIsBalanced(f);
    QuietIsBalanced(n);
    BalancedJoins(n, sig);
    BalancedJoins(f, n + sig);
    NoBracesJoin(n, sig);
    NoBracesJoin(f, n + sig);
  }

  lemma {:induction false} BracesMeanOpen(s: string)
    requires Balanced(s) && !NoBraces(s)
    ensures '{' in s
  {
    OnlyClosingNegates(s);
  }

  lemma OnlyClosingNegates(s: string)
    ensures '{' !in s && Depth(s) == 0 ==> NoBraces(s)
  {
    if '{' !in s { OnlyClosing(s); }
  }

  /** A signature with braces closes the scan. */
  lemma BracedHeadCloses(text: string, head: string, rest: string)
    requires text == head + rest && Balanced(head) && !NoBraces(head)
    ensures Closing(text, |head|)
  {
    BracesMeanOpen(head);
    assert text[..|head|] == head;
  }

  /** With the body after a signature without braces, the first closing position is its end. */
  lemma BodyCloses(text: string, head: string, body: string, rest: string, n: nat)
    requires NoBraces(head) && Balanced(body) && text == head + ("{" + (body + "}") + rest)
    requires n <= |text| && Closing(text, n) && forall k :: 0 <= k < n ==> !Closing(text, k)
    ensures n == |head + ("{" + (body + "}"))|
  {
    hide Depth;
    var braced := "{" + (body + "}");
    var whole := head + braced;
    assert text == whole + rest && text[..|head|] == head && text[|head|] == '{';
    FirstBraceOpensMeansMatched(text, |head|, n);
    BracedDepth(body, rest);
    NoBracesNoDepth(head);
    DepthJoins(head, braced);
    assert text[..|whole|] == whole && whole[|head|] == '{';
    assert Closing(text, |whole|);
    if n < |whole| {
      DepthOfPrefix(head, braced + rest, n - |head|);
    }
  }

  /** Without a body and without braces, the scan goes on past the `;`. */
  lemma BodylessGoesOn(text: string, head: string, rest: string, n: nat)
    requires NoBraces(head) && text == head + (";" + rest) && n <= |text| && Closing(text, n)
    ensures n > |head| + 1
  {
    NoBracesJoin(head, ";");
    forall k | 0 <= k <= |head| + 1
      ensures !Closing(text, k)
    {
      assert text[..k] == (head + ";")[..k];
    }
  }

  /** A closed span over an item: where it ends. */
  lemma SpanOfItem(cls: Classes, lines: seq<string>, i: nat, name: string, item: Item, rest: string)
    requires Ordinary(cls) && GoodItem(cls, item) && i < |lines| && TextFrom(lines, i) == RenderItem(item) + rest
    requires SpanAt(lines, i, name).extent.Some?
    ensures var (start, end) := SpanAt(lines, i, name).extent.value;
            var n := end - start;
            if !NoBraces(RenderTrees(item.sig)) then n <= |Head(item)|
            else if item.body.Some? then n == |RenderItem(item)|
            else n > |RenderItem(item)|
  {
    hide SpanAt, TextFrom, Offset, Head, RenderTrees, GoodTrees, NoBraces, Balanced, Closing;
    var (start, end) := SpanAt(lines, i, name).extent.value;
    var text, head, n := TextFrom(lines, i), Head(item), end - start;
    SpanIsFirstClosing(lines, i, name);
    HeadBalances(cls, item);
    var after := RenderBody(item.body) + rest;
    assert text == head + after;
    if !NoBraces(head) {
      BracedHeadCloses(text, head, after);
    } else if item.body.Some? {
      TreesBalance(item.body.value, Code);
      BodyCloses(text, head, RenderTrees(item.body.value), rest, n);
    } else {
      BodylessGoesOn(text, head, rest, n);
    }
  }

  // ---- which spans close ----

  function LineBreaks(s: string): nat {
    if s == "" then 0 else (if s[0] == '\n' then 1 else 0) + LineBreaks(s[1..])
  }

  ghost predicate AreLines(lines: seq<string>) {
    forall k :: 0 <= k < |lines| ==> '\n' !in lines[k]
  }

  lemma {:induction false} BreaksJoin(a: string, b: string)
    ensures LineBreaks(a + b) == LineBreaks(a) + LineBreaks(b)
  {
    if a == "" {
      assert a + b == b;
    } else {
      assert (a + b)[1..] == a[1..] + b;
      BreaksJoin(a[1..], b);
    }
  }

  lemma {:induction false} NoBreaks(s: string)
    requires '\n' !in s
    ensures LineBreaks(s) == 0
  {
    if s != "" { NoBreaks(s[1..]); }
  }

  lemma BreaksInFirst(line: string, rest: string, n: nat)
    requires '\n' !in line && n <= |line + "\n" + rest|
    ensures LineBreaks((line + "\n" + rest)[..n]) == if n <= |line| then 0 else 1 + LineBreaks(rest[..n - |line| - 1])
  {
    var text := line + "\n" + rest;
    if n <= |line| {
      assert text[..n] == line[..n];
      NoBreaks(line[..n]);
    } else {
      assert text[..n] == line + ("\n" + rest[..n - |line| - 1]);
      BreaksJoin(line, "\n" + rest[..n - |line| - 1]);
      NoBreaks(line);
      assert ("\n" + rest[..n - |line| - 1])[1..] == rest[..n - |line| - 1];
    }
  }

  /** The scan line by line reaches where the braces of the text close if and only if that is within
      the limit of lines. */
  lemma {:induction false} ScanReachesIff(lines: seq<string>, i: nat, j: nat, depth: int, started: bool)
    requires i <= j < |lines| && j - i <= MAX_FN_LINES && AreLines(lines) && (started ==> depth > 0)
    requires Scan(TextFrom(lines, j), depth, started).ClosedAt?
    ensures var n := Scan(TextFrom(lines, j), depth, started).length;
            ScanFrom(lines, i, j, depth, started).Closed?
            <==> j - i + LineBreaks(TextFrom(lines, j)[..n]) <= MAX_FN_LINES
    decreases |lines| - j
  {
    hide Scan, LineBreaks;
    var line, text := lines[j], TextFrom(lines, j);
    var n := Scan(text, depth, started).length;
    if j + 1 == |lines| {
      NoBreaks(text[..n]);
    } else {
      var rest := TextFrom(lines, j + 1);
      assert text == line + ("\n" + rest) == line + "\n" + rest;
      ScanAppend(line, "\n" + rest, depth, started);
      BreaksInFirst(line, rest, n);
      match Scan(line, depth, started) {
        case ClosedAt(_) =>
        case StillOpen(d, b) =>
          StillScanning(line, depth, started);
          ScanAppend("\n", rest, d, b);
          NewlineIsNeutral(d, b);
          if j + 1 - i <= MAX_FN_LINES { ScanReachesIff(lines, i, j + 1, d, b); }
      }
    }
  }

  /** A text with a closing position is scanned to the first one. */
  lemma TextCloses(text: string, k: nat)
    requires k <= |text| && Closing(text, k)
    ensures Scan(text, 0, false).ClosedAt?
    ensures var n := Scan(text, 0, false).length; Closing(text, n) && forall l :: 0 <= l < n ==> !Closing(text, l)
  {
    hide Scan, Closing;
    assert "" + text == text;
    NothingCloses(text);
    ScanFindsFirst("", text);
  }

  /** Main result: a span closes exactly when the braces of the text from its header on close within the
      limit of lines. */
  lemma SpanClosesIff(lines: seq<string>, i: nat, name: string)
    requires i < |lines| && AreLines(lines)
    ensures SpanAt(lines, i, name).extent.Some?
            <==> exists n: nat :: n <= |TextFrom(lines, i)| && Closing(TextFrom(lines, i), n)
                                  && LineBreaks(TextFrom(lines, i)[..n]) <= 12000
  {
    hide Scan, ScanFrom, TextFrom, LineBreaks, Closing, AreLines;
    var text := TextFrom(lines, i);
    ClosedMeansReached(lines, i, name);
    if SpanAt(lines, i, name).extent.Some? {
      ScanFromIsTextScan(lines, i, i, 0, false);
      var n := Scan(text, 0, false).length;
      ScanReachesIff(lines, i, i, 0, false);
      SpanIsFirstClosing(lines, i, name);
      var (start, end) := SpanAt(lines, i, name).extent.value;
      TextCloses(text, end - start);
      assert Closing(text, n);
    }
    if k: nat :| k <= |text| && Closing(text, k) && LineBreaks(text[..k]) <= 12000 {
      TextCloses(text, k);
      var n := Scan(text, 0, false).length;
      FewerBreaks(text, n, k);
      ScanReachesIff(lines, i, i, 0, false);
    }
  }

  lemma FewerBreaks(text: string, n: nat, k: nat)
    requires n <= k <= |text|
    ensures LineBreaks(text[..n]) <= LineBreaks(text[..k])
  {
    assert text[..k] == text[..n] + text[n..k];
    BreaksJoin(text[..n], text[n..k]);
  }

  /** A span that does not close runs to the line behind the limit, or to the last line. */
  lemma OpenSpanEnds(lines: seq<string>, i: nat, name: string)
    requires i < |lines| && SpanAt(lines, i, name).extent == None
    ensures SpanAt(lines, i, name).lastLine == if i + 12001 < |lines| then i + 12001 else |lines| - 1
  {
    hide Scan, ScanFrom;
    OpenScanEnds(lines, i, i, 0, false);
  }

  lemma {:induction false} OpenScanEnds(lines: seq<string>, i: nat, j: nat, depth: int, started: bool)
    requires i <= j <= |lines| && j - i <= MAX_FN_LINES && ScanFrom(lines, i, j, depth, started).Unclosed?
    ensures ScanFrom(lines, i, j, depth, started).line == if i + 12001 < |lines| then i + 12001 else |lines|
    decreases |lines| - j
  {
    hide Scan;
    if j < |lines| {
      match Scan(lines[j], depth, started)
      case ClosedAt(_) =>
      case StillOpen(d, b) =>
        if j + 1 - i <= MAX_FN_LINES { OpenScanEnds(lines, i, j + 1, d, b); }
    }
  }

  /** The span ends with the body of the item that begins it. */
  predicate HoldsOwnBody(item: Item, s: Span) {
    item.body.Some? && s.extent.Some? && s.extent.value.1 - s.extent.value.0 == |RenderItem(item)|
  }

  /** Where the span of a function with a body and no brace in its signature would end. */
  lemma BodyIsFirstClosing(cls: Classes, text: string, item: Item, rest: string)
    requires Ordinary(cls) && GoodItem(cls, item) && text == RenderItem(item) + rest
    requires item.body.Some? && NoBraces(RenderTrees(item.sig))
    ensures Scan(text, 0, false) == ClosedAt(|RenderItem(item)|)
  {
    hide Scan, Head, RenderTrees, GoodTrees, NoBraces, Closing;
    HeadBalances(cls, item);
    TreesBalance(item.body.value, Code);
    var head, body := Head(item), RenderTrees(item.body.value);
    assert text == head + ("{" + (body + "}") + rest);
    ItemCloses(text, head, body, rest);
    TextCloses(text, |RenderItem(item)|);
    BodyCloses(text, head, body, rest, Scan(text, 0, false).length);
  }

  lemma ItemCloses(text: string, head: string, body: string, rest: string)
    requires NoBraces(head) && Balanced(body) && text == head + ("{" + (body + "}") + rest)
    ensures Closing(text, |head + ("{" + (body + "}"))|)
  {
    var braced := "{" + (body + "}");
    var whole := head + braced;
    hide Depth;
    assert text[..|whole|] == whole && whole[|head|] == '{';
    BracedDepth(body, "");
    NoBracesNoDepth(head);
    DepthJoins(head, braced);
  }

  /** Main result: a span is closed and holds exactly its own function, header to closing brace, if and
      only if the function has a body, its signature holds no brace and it is not longer than the
      limit. A span that closes otherwise ends within the signature, or beyond the `;` of a function
      without a body. */
  lemma OwnBodyIff(cls: Classes, lines: seq<string>, s: Span, item: Item, rest: string)
    requires Ordinary(cls) && GoodItem(cls, item) && AreLines(lines) && s in SpansFrom(lines, FnHeader(cls), 0)
    requires s.firstLine < |lines| && TextFrom(lines, s.firstLine) == RenderItem(item) + rest
    ensures HoldsOwnBody(item, s)
            <==> && item.body.Some? && NoBraces(RenderTrees(item.sig))
                 && LineBreaks(RenderItem(item)) <= MAX_FN_LINES
    ensures s.extent.Some? && !NoBraces(RenderTrees(item.sig))
            ==> s.extent.value.1 <= s.extent.value.0 + |Head(item)|
    ensures s.extent.Some? && NoBraces(RenderTrees(item.sig)) && item.body == None
            ==> s.extent.value.1 > s.extent.value.0 + |RenderItem(item)|
    ensures InPattern(item.decl) ==> s.name == item.decl.name
  {
    hide TextFrom, Head, RenderTrees, NoBraces, InPattern, Scan, ScanFrom, LineBreaks, AreLines, GoodItem, Ordinary,
         RenderItem, SpanAt, FnHeader;
    var b :| 0 <= b < |SpansFrom(lines, FnHeader(cls), 0)| && SpansFrom(lines, FnHeader(cls), 0)[b] == s;
    SpansStartLater(lines, FnHeader(cls), 0, b);
    hide SpansFrom;
    var i, text := s.firstLine, TextFrom(lines, s.firstLine);
    HeadIsShorter(item);
    ClosedMeansReached(lines, i, s.name);
    if s.extent.Some? {
      SpanOfItem(cls, lines, i, s.name, item, rest);
    }
    if item.body.Some? && NoBraces(RenderTrees(item.sig)) {
      BodyIsFirstClosing(cls, text, item, rest);
      ScanReachesIff(lines, i, i, 0, false);
      assert text[..|RenderItem(item)|] == RenderItem(item);
    }
    if InPattern(item.decl) {
      SpanIsNamed(cls, lines, i, s.name, item, rest);
    }
  }

  lemma ClosedMeansReached(lines: seq<string>, i: nat, name: string)
    requires i < |lines|
    ensures SpanAt(lines, i, name).extent.Some? <==> ScanFrom(lines, i, i, 0, false).Closed?
  {
    hide ScanFrom;
  }

  lemma HeadIsShorter(item: Item)
    ensures |Head(item)| < |RenderItem(item)|
  {
  }

  lemma BreakIsNoWord(cls: Classes)
    requires Ordinary(cls)
    ensures !cls.word('\n')
  {
    assert cls.space('\n');
  }

  /** The name matched on the header line is the item's. */
  lemma SpanIsNamed(cls: Classes, lines: seq<string>, i: nat, name: string, item: Item, rest: string)
    requires Ordinary(cls) && GoodItem(cls, item) && InPattern(item.decl)
    requires i < |lines| && TextFrom(lines, i) == RenderItem(item) + rest && FnHeader(cls)(lines[i]) == Some(name)
    ensures name == item.decl.name
  {
    hide MatchFn, GoodItem, InPattern, RenderItem, Front, RenderFn, GoodDecl;
    HeaderIsRead(cls, item, rest);
    var d, tail := DeclOf(cls, lines[i]);
    var more := TextFrom(lines, i)[|lines[i]|..];
    BreakIsNoWord(cls);
    hide Ordinary;
    assert more != "" ==> more[0] == '\n';
    assert TextFrom(lines, i) == lines[i] + more;
    assert EndsName(cls, tail + more) by { assert tail == "" ==> tail + more == more; }
    assert TextFrom(lines, i) == Front(d) + (RenderFn(d) + (tail + more));
    DeclIsMatched(cls, d, tail + more);
  }

  // ---- where it fails ----

  /** Two items of a trait: the span of f is the body of g, and g has none. */
  lemma TraitDeclarationMisfires(cls: Classes)
    requires Ordinary(cls)
    ensures SpansFrom(["fn f();", "fn g() {}"], FnHeader(cls), 0) == [Span(0, 1, "f", Some((0, 17)))]
  {
    hide MatchFn, Scan, ScanFrom;
    var lines := ["fn f();", "fn g() {}"];
    MatchOf(cls, "f", "();");
    assert "fn " + "f" + "();" == lines[0];
    assert FnHeader(cls)(lines[0]) == Some("f");
    SecondBody(lines);
    assert SpansFrom(lines, FnHeader(cls), 2) == [];
    assert Offset(lines, 0) == 0 && Offset(lines, 1) == 8;
    assert TextFrom(lines, 0) == "fn f();\nfn g() {}";
  }

  const NO_ARGUMENTS: Trees := Group(Round, Done, Done)

  lemma PlainItem(cls: Classes, sig: Trees, body: Option<Trees>)
    requires Ordinary(cls) && GoodTrees(sig, Top) && sig != Done && EndsName(cls, RenderTrees(sig))
    requires body.Some? ==> GoodTrees(body.value, Code)
    ensures GoodItem(cls, Item(BARE, sig, body)) && Head(Item(BARE, sig, body)) == "fn f" + RenderTrees(sig)
  {
    hide GoodTrees, RenderTrees, Front, RenderFn;
    assert IsGap(cls, " ") && cls.word('f');
    BareFront(BARE);
    assert Front(BARE) == "" by { NoExternIsEmpty(); }
  }

  /** A trait with an associated constant: f has no body, and its span is the constant's value. */
  lemma AssociatedConstMisfires(cls: Classes)
    requires Ordinary(cls)
    ensures var lines, item := ["fn f();", "const C: S = S { x: 1 };"], Item(BARE, NO_ARGUMENTS, None);
            && GoodItem(cls, item) && TextFrom(lines, 0) == RenderItem(item) + "\nconst C: S = S { x: 1 };"
            && SpansFrom(lines, FnHeader(cls), 0) == [Span(0, 1, "f", Some((0, 31)))]
            && !HoldsOwnBody(item, SpansFrom(lines, FnHeader(cls), 0)[0])
  {
    hide MatchFn, SpansFrom, GoodItem, RenderItem, TextFrom;
    var lines := ["fn f();", "const C: S = S { x: 1 };"];
    BodylessItem(cls);
    MatchOf(cls, "f", "();");
    assert "fn " + "f" + "();" == lines[0];
    ConstantSpan(lines, FnHeader(cls));
    ConstantText();
  }

  lemma ConstantText()
    ensures TextFrom(["fn f();", "const C: S = S { x: 1 };"], 0) == "fn f();" + "\nconst C: S = S { x: 1 };"
  {
    var lines := ["fn f();", "const C: S = S { x: 1 };"];
    assert TextFrom(lines, 1) == lines[1];
    assert TextFrom(lines, 0) == "fn f();" + "\n" + TextFrom(lines, 1);
  }

  lemma BodylessItem(cls: Classes)
    requires Ordinary(cls)
    ensures var item := Item(BARE, NO_ARGUMENTS, None); GoodItem(cls, item) && RenderItem(item) == "fn f();"
  {
    hide Front, RenderFn, GoodItem, Head;
    assert RenderTrees(NO_ARGUMENTS) == "()";
    PlainItem(cls, NO_ARGUMENTS, None);
  }

  lemma ConstantSpan(lines: seq<string>, header: Header)
    requires lines == ["fn f();", "const C: S = S { x: 1 };"] && header(lines[0]) == Some("f")
    ensures SpansFrom(lines, header, 0) == [Span(0, 1, "f", Some((0, 31)))]
  {
    hide ScanFrom;
    ConstantCloses(lines);
    assert SpansFrom(lines, header, 2) == [];
    assert Offset(lines, 0) == 0 && Offset(lines, 1) == 8;
  }

  lemma ConstantCloses(lines: seq<string>)
    requires lines == ["fn f();", "const C: S = S { x: 1 };"]
    ensures ScanFrom(lines, 0, 0, 0, false) == Closed(1, 23)
  {
    hide Scan;
    QuietLine("fn f();", 0);
    BraceAndBody("const C: S = S ", " x: 1 ", ";");
    assert "const C: S = S " + ("{" + (" x: 1 " + ("}" + ";"))) == lines[1];
    assert ScanFrom(lines, 0, 1, 0, false) == Closed(1, 23);
  }

  /** Text without braces, then braces around text without braces. */
  lemma BraceAndBody(before: string, inside: string, after: string)
    requires NoBraces(before) && NoBraces(inside)
    ensures Scan(before + ("{" + (inside + ("}" + after))), 0, false) == ClosedAt(|before| + |inside| + 2)
  {
    hide Scan;
    var close := "}" + after;
    BraceSteps(after, inside + close);
    StaysOpen(inside, 1);
    QuietLine(before, 0);
    ScanAppend(inside, close, 1, true);
    ScanAppend(before, "{" + (inside + close), 0, false);
  }

  lemma BraceSteps(after: string, rest: string)
    ensures Scan("}" + after, 1, true) == ClosedAt(1)
    ensures Scan("{" + rest, 0, false)
         == match Scan(rest, 1, true)
            case ClosedAt(n) => ClosedAt(n + 1)
            case StillOpen(d, b) => StillOpen(d, b)
  {
    assert ("}" + after)[1..] == after && ("{" + rest)[1..] == rest;
  }

  lemma {:induction false} StaysOpen(s: string, depth: int)
    requires NoBraces(s) && depth > 0
    ensures Scan(s, depth, true) == StillOpen(depth, true)
  {
    if s != "" { StaysOpen(s[1..], depth); }
  }

  /** ` -> A<{1}> `: a const argument in braces. */
  const BRACED: Trees :=
    Group(Round, Done, Leaf(' ', Arrow(Leaf(' ', Leaf('A',
      Group(Angle, Group(Curly, Leaf('1', Done), Done), Leaf(' ', Done)))))))
  const CALL_BODY: Trees := Leaf('\n', Leaf('g', Group(Round, Done, Leaf(';', Leaf('\n', Done)))))

  lemma BracedIs()
    ensures RenderTrees(BRACED) == "() -> A<{1}> " && GoodTrees(BRACED, Top)
  {
    assert RenderTrees(Leaf(' ', Done)) == " ";
    assert RenderTrees(Group(Curly, Leaf('1', Done), Done)) == "{1}" by { assert RenderTrees(Leaf('1', Done)) == "1"; }
    assert RenderTrees(Group(Angle, Group(Curly, Leaf('1', Done), Done), Leaf(' ', Done))) == "<{1}> ";
  }

  lemma CallBodyIs()
    ensures RenderTrees(CALL_BODY) == "\ng();\n" && GoodTrees(CALL_BODY, Code)
  {
    assert RenderTrees(Leaf(';', Leaf('\n', Done))) == ";\n";
  }

  /** A function with a const argument in braces: its span ends with the argument, and its body is in
      no span. */
  lemma BracedArgumentMisfires(cls: Classes)
    requires Ordinary(cls)
    ensures var lines, item := ["fn f() -> A<{1}> {", "g();", "}"], Item(BARE, BRACED, Some(CALL_BODY));
            && GoodItem(cls, item) && TextFrom(lines, 0) == RenderItem(item)
            && SpansFrom(lines, FnHeader(cls), 0) == [Span(0, 0, "f", Some((0, 15)))]
            && !HoldsOwnBody(item, SpansFrom(lines, FnHeader(cls), 0)[0])
  {
    hide MatchFn, SpansFrom, GoodItem, RenderItem;
    var lines := ["fn f() -> A<{1}> {", "g();", "}"];
    BracedItem(cls);
    MatchOf(cls, "f", "() -> A<{1}> {");
    assert "fn " + "f" + "() -> A<{1}> {" == lines[0];
    NoHeaderHere(cls);
    ArgumentSpan(lines, FnHeader(cls));
    assert TextFrom(lines, 2) == "}" && TextFrom(lines, 1) == "g();" + "\n" + "}";
    assert TextFrom(lines, 0) == lines[0] + "\n" + TextFrom(lines, 1);
  }

  lemma BracedItem(cls: Classes)
    requires Ordinary(cls)
    ensures var item := Item(BARE, BRACED, Some(CALL_BODY));
            GoodItem(cls, item) && RenderItem(item) == "fn f() -> A<{1}> {\ng();\n}"
  {
    hide Front, RenderFn, RenderTrees, GoodTrees, GoodItem, Head;
    BracedIs();
    CallBodyIs();
    PlainItem(cls, BRACED, Some(CALL_BODY));
  }

  lemma ArgumentSpan(lines: seq<string>, header: Header)
    requires lines == ["fn f() -> A<{1}> {", "g();", "}"] && header(lines[0]) == Some("f")
    requires header(lines[1]) == None && header(lines[2]) == None
    ensures SpansFrom(lines, header, 0) == [Span(0, 0, "f", Some((0, 15)))]
  {
    hide Scan, ScanFrom;
    BraceAndBody("fn f() -> A<", "1", "> {");
    assert "fn f() -> A<" + ("{" + ("1" + ("}" + "> {"))) == lines[0];
    FirstLineCloses(lines, 15);
    assert SpansFrom(lines, header, 3) == [];
    assert SpansFrom(lines, header, 2) == [];
    assert SpansFrom(lines, header, 1) == [];
    assert Offset(lines, 0) == 0;
  }

  lemma FirstLineCloses(lines: seq<string>, n: nat)
    requires lines != [] && Scan(lines[0], 0, false) == ClosedAt(n)
    ensures ScanFrom(lines, 0, 0, 0, false) == Closed(0, n)
  {
    hide Scan;
  }

  lemma NoHeaderHere(cls: Classes)
    requires Ordinary(cls)
    ensures MatchFn(cls, "g();") == None && MatchFn(cls, "}") == None
  {
    NoNameInBrace(cls);
    hide MatchFn;
    if MatchFn(cls, "g();").Some? {
      MatchIsFn(cls, "g();");
      var p := MatchFn(cls, "g();").value.0;
      var name := FnAtMeans(cls, "g();", p);
    }
  }

  lemma MatchOf(cls: Classes, name: string, tail: string)
    requires Ordinary(cls) && name != "" && (forall k :: 0 <= k < |name| ==> cls.word(name[k])) && EndsName(cls, tail)
    ensures MatchFn(cls, "fn " + name + tail) == Some((0, name))
  {
    hide MatchFn;
    var d := BARE.(name := name);
    assert IsGap(cls, " ");
    assert Front(d) == "" by {
      BareFront(BARE);
      SameFront(d, BARE);
      KnownIsFront(d);
      KnownIsFront(BARE);
      NoExternIsEmpty();
    }
    PlainFn(d);
    assert Front(d) + (RenderFn(d) + tail) == "fn " + name + tail;
    DeclIsMatched(cls, d, tail);
  }

  lemma SecondBody(lines: seq<string>)
    requires lines == ["fn f();", "fn g() {}"]
    ensures ScanFrom(lines, 0, 0, 0, false) == Closed(1, 9)
  {
    hide Scan;
    QuietLine("fn f();", 0);
    QuietLine("fn g() ", 0);
    assert "fn g() {}" == "fn g() " + "{}";
    ScanAppend("fn g() ", "{}", 0, false);
    BracePair();
    assert ScanFrom(lines, 0, 1, 0, false) == Closed(1, 9);
  }

  lemma BracePair()
    ensures Scan("{}", 0, false) == ClosedAt(2)
  {
    assert "{}"[1..] == "}";
  }
}
