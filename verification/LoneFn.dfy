/**
 A source file on which the reader sweep of scripts/m5-reader-sweep.py loses a predecessor: a
 lone `fn` at the end of a line takes the next header's `fn` for its name, so two functions
 named a have one recorded declaration, and `via` of their caller lists only the last.
 */
module LoneFn {
  import opened Wrappers
  import opened FnSpans
  import opened Declarations
  import opened Headers
  import opened OwnBodies
  import opened CallSites
  import opened SourceIndex
  import opened ReaderSweep
  import CallIndex

  const LINES: seq<string> := ["fn", "fn a(){}", "fn a(){}", "fn b(){a()}"]
  const FILE: Source := Source("crates/wenlan-core/src/lib.rs", LINES, LINES)

  /** The characters of the file, one by one. */
  predicate IsText(s: string) {
    && |s| == 32
    && s[0] == 'f' && s[1] == 'n' && s[2] == '\n'
    && s[3] == 'f' && s[4] == 'n' && s[5] == ' ' && s[6] == 'a' && s[7] == '(' && s[8] == ')' && s[9] == '{'
    && s[10] == '}'
    && s[11] == '\n'
    && s[12] == 'f' && s[13] == 'n' && s[14] == ' ' && s[15] == 'a' && s[16] == '(' && s[17] == ')'
    && s[18] == '{' && s[19] == '}'
    && s[20] == '\n'
    && s[21] == 'f' && s[22] == 'n' && s[23] == ' ' && s[24] == 'b' && s[25] == '(' && s[26] == ')' && s[27] == '{'
    && s[28] == 'a' && s[29] == '(' && s[30] == ')' && s[31] == '}'
  }

  lemma TextIs()
    ensures IsText(TextFrom(LINES, 0))
    ensures Offset(LINES, 0) == 0 && Offset(LINES, 1) == 3 && Offset(LINES, 2) == 12 && Offset(LINES, 3) == 21
  {
    assert TextFrom(LINES, 3) == "fn b(){a()}";
    assert TextFrom(LINES, 2) == "fn a(){}" + "\n" + TextFrom(LINES, 3);
    assert TextFrom(LINES, 1) == "fn a(){}" + "\n" + TextFrom(LINES, 2);
    assert TextFrom(LINES, 0) == "fn" + "\n" + TextFrom(LINES, 1);
  }

  lemma SitesAre(cls: Classes, s: string)
    requires Recognises(cls) && IsText(s)
    ensures FindAll(cls, s, 0) == [Site(0, "fn"), Site(12, "a"), Site(21, "b")]
  {
    hide FnAt;
    assert cls.word('a') && cls.word('b') && cls.word('f') && cls.word('n');
    FnAtIs(cls, s, 0, 3, 5);
    FnAtIs(cls, s, 12, 15, 16);
    FnAtIs(cls, s, 21, 24, 25);
    assert s[3..5] == "fn" && s[15..16] == "a" && s[24..25] == "b";
    NoMatchSkips(cls, s, 5, 12);
    NoMatchSkips(cls, s, 16, 21);
    NoMatchSkips(cls, s, 25, 32);
  }

  lemma CallIsThere(cls: Classes, s: string)
    requires Recognises(cls) && IsText(s)
    ensures CallIndex.Call("a", 28) in FindCalls(cls, s, 0)
  {
    assert cls.word('a');
    RunIs(cls.word, s, 28, 1);
    RunIs(cls.space, s, 29, 0);
    assert s[28..29] == "a";
    CallsAreMatches(cls, s, 0, CallIndex.Call("a", 28));
  }

  lemma HeadersAre(cls: Classes)
    requires Recognises(cls)
    ensures MatchFn(cls, "fn") == None
    ensures MatchFn(cls, "fn a(){}") == Some((0, "a")) && NameStart(cls, "fn a(){}") == 3
    ensures MatchFn(cls, "fn b(){a()}") == Some((0, "b")) && NameStart(cls, "fn b(){a()}") == 3
  {
    hide MatchFn;
    assert cls.word('a') && cls.word('b');
    TooShort(cls, "fn");
    assert "fn " + "a" + "(){}" == "fn a(){}" && "fn " + "b" + "(){a()}" == "fn b(){a()}";
    MatchOf(cls, "a", "(){}");
    MatchOf(cls, "b", "(){a()}");
    NameStartOf(cls, "a", "(){}");
    NameStartOf(cls, "b", "(){a()}");
  }

  lemma TooShort(cls: Classes, line: string)
    requires |line| < 4
    ensures MatchFn(cls, line) == None
  {
    hide MatchFn;
    if MatchFn(cls, line).Some? {
      var d, tail := DeclOf(cls, line);
    }
  }

  lemma NameStartOf(cls: Classes, name: string, tail: string)
    requires Ordinary(cls) && MatchFn(cls, "fn " + name + tail) == Some((0, name))
    requires name != "" && cls.word(name[0])
    ensures NameStart(cls, "fn " + name + tail) == 3
  {
    hide FrontLength;
    var line := "fn " + name + tail;
    assert line[0..] == line && line == "fn" + (" " + (name + tail));
    assert IsGap(cls, " ");
    GapAfter(cls, "fn", " ", name + tail);
  }

  lemma BodiesClose()
    ensures Scan("fn a(){}", 0, false) == ClosedAt(8)
    ensures Scan("fn b(){a()}", 0, false) == ClosedAt(11)
  {
    hide Scan;
    QuietLine("fn a()", 0);
    QuietLine("fn b()", 0);
    assert "fn a(){}" == "fn a()" + "{}" && "fn b(){a()}" == "fn b()" + "{a()}";
    BracePair();
    ScanAppend("fn a()", "{}", 0, false);
    CallInBraces();
    ScanAppend("fn b()", "{a()}", 0, false);
  }

  lemma CallInBraces()
    ensures Scan("{a()}", 0, false) == ClosedAt(5)
  {
    var s := "{a()}";
    assert s[1..] == "a()}" && "a()}"[1..] == "()}" && "()}"[1..] == ")}" && ")}"[1..] == "}";
    assert Scan("}", 1, true) == ClosedAt(1);
    assert Scan(")}", 1, true) == ClosedAt(2);
    assert Scan("()}", 1, true) == ClosedAt(3);
    assert Scan("a()}", 1, true) == ClosedAt(4);
  }

  lemma ScansAre()
    ensures ScanFrom(LINES, 1, 1, 0, false) == Closed(1, 8)
    ensures ScanFrom(LINES, 2, 2, 0, false) == Closed(2, 8)
    ensures ScanFrom(LINES, 3, 3, 0, false) == Closed(3, 11)
  {
    hide Scan;
    BodiesClose();
  }

  lemma SpanStep(lines: seq<string>, header: Header, i: nat, name: string, n: nat)
    requires i < |lines| && header(lines[i]) == Some(name) && ScanFrom(lines, i, i, 0, false) == Closed(i, n)
    ensures SpansFrom(lines, header, i)
         == [Span(i, i, name, Some((Offset(lines, i), Offset(lines, i) + n)))] + SpansFrom(lines, header, i + 1)
  {
    hide ScanFrom, Offset;
  }

  lemma NoSpanStep(lines: seq<string>, header: Header, i: nat)
    requires i < |lines| && header(lines[i]) == None
    ensures SpansFrom(lines, header, i) == SpansFrom(lines, header, i + 1)
  {
  }

  lemma ThreeSpans(lines: seq<string>, header: Header)
    requires |lines| == 4 && header(lines[0]) == None
    requires header(lines[1]) == Some("a") && ScanFrom(lines, 1, 1, 0, false) == Closed(1, 8)
    requires header(lines[2]) == Some("a") && ScanFrom(lines, 2, 2, 0, false) == Closed(2, 8)
    requires header(lines[3]) == Some("b") && ScanFrom(lines, 3, 3, 0, false) == Closed(3, 11)
    requires Offset(lines, 1) == 3 && Offset(lines, 2) == 12 && Offset(lines, 3) == 21
    ensures SpansFrom(lines, header, 0)
         == [Span(1, 1, "a", Some((3, 11))), Span(2, 2, "a", Some((12, 20))), Span(3, 3, "b", Some((21, 32)))]
  {
    hide ScanFrom, Offset, SpansFrom;
    NoSpanStep(lines, header, 0);
    SpanStep(lines, header, 1, "a", 8);
    SpanStep(lines, header, 2, "a", 8);
    SpanStep(lines, header, 3, "b", 11);
    PastTheLast(lines, header, 4);
  }

  lemma SpansAre(cls: Classes)
    requires Recognises(cls)
    ensures SpansOf(cls, FILE)
            == [Span(1, 1, "a", Some((3, 11))), Span(2, 2, "a", Some((12, 20))), Span(3, 3, "b", Some((21, 32)))]
  {
    hide MatchFn, ScanFrom, Offset, TextFrom, SpansFrom, Recognises;
    HeadersAre(cls);
    ScansAre();
    TextIs();
    ThreeSpans(LINES, FnHeader(cls));
  }

  lemma PastTheLast(lines: seq<string>, header: Header, i: nat)
    requires i >= |lines|
    ensures SpansFrom(lines, header, i) == []
  {
  }

  lemma DeclaredHere(cls: Classes)
    requires Recognises(cls)
    ensures DeclaredSites(cls, Structures([FILE]), "a") == {(0, 2)}
  {
    hide FnAt, FindAll, TextFrom, Offset;
    TextIs();
    SitesAre(cls, TextFrom(LINES, 0));
    assert Site(12, "a") in FindAll(cls, TextFrom(LINES, 0), 0);
    assert DeclaresOn(cls, LINES, 2, "a");
    forall k: nat | k < 4 ensures k in DeclaredIn(cls, LINES, "a") <==> k == 2 {}
    assert Structures([FILE])[0] == LINES;
  }

  lemma NotADefinition(cls: Classes)
    requires Recognises(cls)
    ensures 28 !in DefinitionsOf(cls, LINES)
  {
    hide MatchFn, NameStart, Offset;
    TextIs();
    HeadersAre(cls);
  }

  lemma Bodies(span: Span, k: nat)
    requires 1 <= k <= 3 && span.firstLine == span.lastLine == k
    requires span.extent.Some? && span.extent.value.1 == Offset(LINES, k) + |LINES[k]|
    ensures BodyOf(FILE, span) == LINES[k]
  {
    hide Offset;
    assert LINES[k..k + 1] == [LINES[k]];
    assert [LINES[k]][..0] == [] && LINES[k][..|LINES[k]|] == LINES[k];
  }

  /** The sweep over this file misses a predecessor of b. */
  lemma LoneFnLosesPredecessor(cls: Classes, bearing: Bearing)
    requires Recognises(cls) && bearing("fn a(){}") && !bearing("fn b(){a()}")
    ensures var ix := IndexOf(cls, bearing, [FILE]);
            && ix.Size() == 3 && ix.functions[0].fn == ix.functions[1].fn == "a" && ix.functions[2].fn == "b"
            && AtDistance(ix, 2, 1) && !ViaListsPredecessors(ix, 2, 1)
  {
    hide Recognises, AtDistance, ViaListsPredecessors, SpansOf, LocatorAt, BodyOf, CallIndex.HasEdge, CallFile,
         Offset, TextFrom, FindCalls, DefinitionsOf;
    var ix := IndexOf(cls, bearing, [FILE]);
    SpansAre(cls);
    TextIs();
    var spans := SpansOf(cls, FILE);
    Bodies(spans[0], 1);
    Bodies(spans[1], 2);
    Bodies(spans[2], 3);
    assert AllFunctions(cls, bearing, [FILE], 0) == [];
    assert ix.functions == FunctionsOf(cls, bearing, FILE);
    IndexIsValid(cls, bearing, [FILE]);
    DeclaredHere(cls);
    CallIsThere(cls, TextFrom(LINES, 0));
    NotADefinition(cls);
    CallInSpan(cls, FILE, 2, CallIndex.Call("a", 28));
    assert [FILE][0] == FILE;
    hide IndexOf;
    EdgeIsCall(cls, bearing, [FILE], 0, 2);
    SharedNameLosesPredecessor(ix, 0, 1, 2);
  }
}
