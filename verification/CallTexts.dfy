/**
 The caller edges of the reader sweep (scripts/m5-reader-sweep.py, `build_index`) in the text of the
 files: which calls count, whose they are, and which stop the sweep.
 */
module CallTexts {
  import opened Wrappers
  import opened FnSpans
  import opened Declarations
  import opened Headers
  import opened CallSites
  import opened ReaderSweep
  import opened SourceIndex
  import opened FunctionTexts
  import CallIndex

  // ---- calls ----

  /** A letter of ASCII or `_`, by code. */
  predicate IsNameStart(c: char) {
    65 <= c as int <= 90 || 97 <= c as int <= 122 || c as int == 95
  }

  /** At `at`: the name, not inside a longer word, then white space or nothing, then `(`. */
  ghost predicate IsCallText(cls: Classes, s: string, at: nat, name: string) {
    exists paren: nat :: IsCallUpTo(cls, s, at, name, paren)
  }

  ghost predicate IsCallUpTo(cls: Classes, s: string, at: nat, name: string, paren: nat) {
    var end := at + |name|;
    && name != "" && end <= paren < |s| && s[at..end] == name
    && IsNameStart(name[0]) && (forall k :: 0 <= k < |name| ==> cls.word(name[k]))
    && (at > 0 ==> !cls.word(s[at - 1]))
    && (forall k :: end <= k < paren ==> cls.space(s[k])) && s[paren] == '('
  }

  lemma StartsNameIff(c: char)
    ensures StartsName(c) <==> IsNameStart(c)
  {
    assert c == (c as int) as char;
  }

  lemma CallIsText(cls: Classes, s: string, at: nat)
    requires CallAt(cls, s, at).Some?
    ensures IsCallText(cls, s, at, CallAt(cls, s, at).value.0)
  {
    StartsNameIff(s[at]);
    var name := CallAt(cls, s, at).value.0;
    var end := at + Run(cls.word, s, at);
    var paren := end + Run(cls.space, s, end);
    assert forall k :: 0 <= k < |name| ==> name[k] == s[at + k];
    assert IsCallUpTo(cls, s, at, name, paren);
  }

  lemma TextIsCall(cls: Classes, s: string, at: nat, name: string)
    requires Recognises(cls) && IsCallText(cls, s, at, name)
    ensures CallAt(cls, s, at).Some? && CallAt(cls, s, at).value.0 == name
  {
    hide Run;
    var paren: nat :| IsCallUpTo(cls, s, at, name, paren);
    var end := at + |name|;
    assert forall k :: at <= k < end ==> s[k] == name[k - at];
    StartsNameIff(s[at]);
    assert !cls.word('(') && !cls.space('(');
    assert !cls.word(s[end]) by { assert end < paren ==> cls.space(s[end]); }
    RunIs(cls.word, s, at, |name|);
    RunIs(cls.space, s, end, paren - end);
  }

  lemma CallIff(cls: Classes, s: string, at: nat, name: string)
    requires Recognises(cls)
    ensures CallAt(cls, s, at).Some? && CallAt(cls, s, at).value.0 == name <==> IsCallText(cls, s, at, name)
  {
    hide CallAt, IsCallText, Recognises;
    if CallAt(cls, s, at).Some? { CallIsText(cls, s, at); }
    if IsCallText(cls, s, at, name) { TextIsCall(cls, s, at, name); }
  }

  // ---- definitions ----

  /** Some header line defines its name at this offset. */
  ghost predicate IsDefinedAt(cls: Classes, lines: seq<string>, at: nat) {
    exists i: nat, d, tail :: IsHeaderOf(cls, lines, i, d, tail) && at == Offset(lines, i) + |Front(d)| + 2 + |d.gap|
  }

  ghost predicate IsHeaderOf(cls: Classes, lines: seq<string>, i: nat, d: Decl, tail: string) {
    && i < |lines| && GoodDecl(cls, d) && InPattern(d) && EndsName(cls, tail)
    && lines[i] == Front(d) + (RenderFn(d) + tail)
  }

  lemma NameStartIs(cls: Classes, d: Decl, tail: string)
    requires Ordinary(cls) && GoodDecl(cls, d) && InPattern(d) && EndsName(cls, tail)
    ensures var line := Front(d) + (RenderFn(d) + tail);
            MatchFn(cls, line).Some? && NameStart(cls, line) == |Front(d)| + 2 + |d.gap|
  {
    hide FrontLength, WordLength, Front, RenderFn, InPattern, GoodDecl, NameOf;
    var line := Front(d) + (RenderFn(d) + tail);
    DeclIsMatched(cls, d, tail);
    MatchesAtFront(cls, line);
    PatternIsPlain(d);
    PlainFn(d);
    Drop(Front(d), RenderFn(d) + tail);
    assert RenderFn(d) + tail == "fn" + (d.gap + (d.name + tail));
    NameFirst(cls, d);
    GapAfter(cls, "fn", d.gap, d.name + tail);
  }

  lemma MatchesAtFront(cls: Classes, line: string)
    requires MatchFn(cls, line).Some?
    ensures MatchFn(cls, line).value.0 == FrontLength(cls, line)
  {
    hide FrontLength, NameOf;
  }

  lemma NameFirst(cls: Classes, d: Decl)
    requires Ordinary(cls) && GoodDecl(cls, d)
    ensures IsGap(cls, d.gap) && d.name != "" && !cls.space(d.name[0])
  {
    assert cls.word(d.name[0]);
  }

  lemma DefinedIff(cls: Classes, lines: seq<string>, at: nat)
    requires Ordinary(cls)
    ensures at in DefinitionsOf(cls, lines) <==> IsDefinedAt(cls, lines, at)
  {
    hide MatchFn, NameStart, Offset, Front, RenderFn, GoodDecl, InPattern, Ordinary;
    if at in DefinitionsOf(cls, lines) {
      var i: nat :| i < |lines| && MatchFn(cls, lines[i]).Some? && at == Offset(lines, i) + NameStart(cls, lines[i]);
      var d, tail := DeclOf(cls, lines[i]);
      NameStartIs(cls, d, tail);
      assert IsHeaderOf(cls, lines, i, d, tail);
    }
    if i: nat, d, tail :| IsHeaderOf(cls, lines, i, d, tail)
                          && at == Offset(lines, i) + |Front(d)| + 2 + |d.gap| {
      NameStartIs(cls, d, tail);
    }
  }

  // ---- edges ----

  /** The file calls the name here, and not where it defines it. */
  ghost predicate Calls(cls: Classes, src: Source, at: nat, name: string) {
    IsCallText(cls, TextFrom(src.structure, 0), at, name) && !IsDefinedAt(cls, src.structure, at)
  }

  /** The offset lies in a closed span: from its start on, before its end. */
  predicate Covers(s: Span, at: nat) {
    match s.extent
    case Some((start, end)) => start <= at && at < end
    case None => false
  }

  lemma CallsIff(cls: Classes, src: Source, at: nat, name: string)
    requires Recognises(cls)
    ensures var f := CallFile(cls, src);
            CallIndex.Call(name, at) in f.calls && at !in f.definitions <==> Calls(cls, src, at, name)
  {
    hide CallAt, FindCalls, TextFrom, DefinitionsOf, IsCallText, IsDefinedAt, MatchFn;
    var text := TextFrom(src.structure, 0);
    CallsAreMatches(cls, text, 0, CallIndex.Call(name, at));
    CallIff(cls, text, at, name);
    DefinedIff(cls, src.structure, at);
  }

  /** The file has a call of the name in a closed span with this locator. */
  ghost predicate CallsFrom(cls: Classes, src: Source, locator: string, name: string) {
    var spans := SpansFrom(src.structure, FnHeader(cls), 0);
    exists a: nat, at: nat ::
      && a < |spans| && Covers(spans[a], at) && Calls(cls, src, at, name) && LocatorText(src, spans, a) == locator
  }

  /** The file has a call of the name in no closed span. */
  ghost predicate CallsOutside(cls: Classes, src: Source, name: string) {
    exists at: nat ::
      && Calls(cls, src, at, name)
      && forall s :: s in SpansFrom(src.structure, FnHeader(cls), 0) ==> !Covers(s, at)
  }

  lemma EdgeIsCallFrom(cls: Classes, src: Source, locator: string, name: string)
    requires Recognises(cls) && CallIndex.HasEdge(CallFile(cls, src), locator, name)
    ensures CallsFrom(cls, src, locator, name)
  {
    hide Calls, LocatorText, LocatorAt, SpansFrom, FnHeader, FindCalls, DefinitionsOf;
    var f, spans := CallFile(cls, src), SpansFrom(src.structure, FnHeader(cls), 0);
    var at: nat :| CallIndex.IsEdge(f, CallIndex.Call(name, at), locator);
    var a: nat :| a < |f.Spans()| && Within(f.Spans()[a], at) && f.locators[a] == locator;
    assert f.Spans() == spans;
    CallsIff(cls, src, at, name);
    LocatorIs(src, spans, a);
    assert Covers(spans[a], at) && Calls(cls, src, at, name) && LocatorText(src, spans, a) == locator;
  }

  lemma CallFromIsEdge(cls: Classes, src: Source, locator: string, name: string)
    requires Recognises(cls) && CallsFrom(cls, src, locator, name)
    ensures CallIndex.HasEdge(CallFile(cls, src), locator, name)
  {
    hide Calls, LocatorText, LocatorAt, SpansFrom, FnHeader, FindCalls, DefinitionsOf;
    var f, spans := CallFile(cls, src), SpansFrom(src.structure, FnHeader(cls), 0);
    var a: nat, at: nat :|
      a < |spans| && Covers(spans[a], at) && Calls(cls, src, at, name) && LocatorText(src, spans, a) == locator;
    assert f.Spans() == spans;
    CallsIff(cls, src, at, name);
    LocatorIs(src, spans, a);
    assert Within(f.Spans()[a], at) && f.locators[a] == locator;
    assert CallIndex.IsEdge(f, CallIndex.Call(name, at), locator);
  }

  lemma HasOrphanIff(cls: Classes, src: Source, name: string)
    requires Recognises(cls)
    ensures CallIndex.HasOrphan(CallFile(cls, src), name)
            <==> exists at: nat :: Calls(cls, src, at, name)
                                   && forall s :: s in SpansFrom(src.structure, FnHeader(cls), 0) ==> !Covers(s, at)
  {
    hide Calls, SpansFrom, FnHeader, FindCalls, DefinitionsOf, LocatorAt;
    var f, spans := CallFile(cls, src), SpansOf(cls, src);
    assert f.Spans() == spans;
    forall at: nat
      ensures CallIndex.Call(name, at) in f.calls && at !in f.definitions <==> Calls(cls, src, at, name)
    {
      CallsIff(cls, src, at, name);
    }
    if CallIndex.HasOrphan(f, name) {
      var at: nat :| CallIndex.IsOrphan(f, CallIndex.Call(name, at));
      assert Calls(cls, src, at, name);
      assert forall s :: s in spans ==> !Covers(s, at);
    }
    if at: nat :| Calls(cls, src, at, name) && forall s :: s in spans ==> !Covers(s, at) {
      assert forall k :: 0 <= k < |spans| ==> spans[k] in spans;
      assert CallIndex.IsOrphan(f, CallIndex.Call(name, at));
    }
  }

  /** Main result: the search follows an edge from g to its caller k exactly when g's name is named by
      declarations on one line of all files, and some file calls it within a closed span of k. */
  lemma EdgeIff(cls: Classes, bearing: Bearing, files: seq<Source>, g: nat, k: nat)
    requires Recognises(cls) && g < IndexOf(cls, bearing, files).Size() && k < IndexOf(cls, bearing, files).Size()
    ensures var ix := IndexOf(cls, bearing, files);
            ix.Edge(g, k)
            <==> && |NamedSites(cls, Structures(files), ix.functions[g].fn)| == 1
                 && exists f :: 0 <= f < |files|
                                && CallsFrom(cls, files[f], ix.functions[k].locator, ix.functions[g].fn)
  {
    hide IndexOf, CallFile, NamedSites, DeclaredSites, CallsFrom, CallIndex.HasEdge;
    var ix := IndexOf(cls, bearing, files);
    var name, locator := ix.functions[g].fn, ix.functions[k].locator;
    EdgeIsCall(cls, bearing, files, g, k);
    DeclaredIsNamed(cls, Structures(files), name);
    forall f | 0 <= f < |files|
      ensures CallIndex.HasEdge(CallFile(cls, files[f]), locator, name) <==> CallsFrom(cls, files[f], locator, name)
    {
      CallsFromIff(cls, files[f], locator, name);
    }
  }

  lemma CallsFromIff(cls: Classes, src: Source, locator: string, name: string)
    requires Recognises(cls)
    ensures CallIndex.HasEdge(CallFile(cls, src), locator, name) <==> CallsFrom(cls, src, locator, name)
    ensures CallIndex.HasOrphan(CallFile(cls, src), name) <==> CallsOutside(cls, src, name)
  {
    hide CallFile, CallIndex.HasEdge, CallIndex.HasOrphan, CallsFrom, Calls, Covers, SpansFrom, FnHeader;
    if CallIndex.HasEdge(CallFile(cls, src), locator, name) { EdgeIsCallFrom(cls, src, locator, name); }
    if CallsFrom(cls, src, locator, name) { CallFromIsEdge(cls, src, locator, name); }
    HasOrphanIff(cls, src, name);
  }

  /** Main result: a function stops the sweep exactly when its name is named by declarations on one line
      and some file calls it in no closed span. */
  lemma BlockedIff(cls: Classes, bearing: Bearing, files: seq<Source>, k: nat)
    requires Recognises(cls) && k < IndexOf(cls, bearing, files).Size()
    ensures var ix := IndexOf(cls, bearing, files);
            ix.Blocked(k)
            <==> && |NamedSites(cls, Structures(files), ix.functions[k].fn)| == 1
                 && exists f :: 0 <= f < |files| && CallsOutside(cls, files[f], ix.functions[k].fn)
  {
    hide IndexOf, CallFile, NamedSites, DeclaredSites, CallsOutside, CallIndex.HasOrphan;
    var name := IndexOf(cls, bearing, files).functions[k].fn;
    BlockedIsOrphan(cls, bearing, files, k);
    DeclaredIsNamed(cls, Structures(files), name);
    forall f | 0 <= f < |files|
      ensures CallIndex.HasOrphan(CallFile(cls, files[f]), name) <==> CallsOutside(cls, files[f], name)
    {
      CallsFromIff(cls, files[f], "", name);
    }
  }
}
