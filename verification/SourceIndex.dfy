/**
 The index of scripts/m5-reader-sweep.py (`build_index`), from the lines of the files to the
 functions, declarations and calls that `sweep` searches.
 */
module SourceIndex {
  import opened Wrappers
  import opened Decimals
  import opened Strings
  import opened Collections
  import opened FnSpans
  import opened Declarations
  import opened Headers
  import opened CallSites
  import CallIndex
  import opened ReaderSweep

  /** One file: its lines and their structure, as `strip_test` returns them. */
  datatype Source = Source(path: string, lines: seq<string>, structure: seq<string>)

  /** Whether a function's text holds SQL that selects prose. */
  type Bearing = string -> bool

  ghost predicate Recognises(cls: Classes) {
    && Ordinary(cls) && (forall c :: StartsName(c) ==> cls.word(c)) && !cls.word(':') && !cls.word('#')
  }

  // ---- locators ----

  const BASES: seq<(string, string)> := [
    ("crates/wenlan-core/src/", "core/"), ("crates/wenlan-server/src/", "server/"),
    ("crates/wenlan-cli/src/", "cli/"), ("crates/wenlan-mcp/src/", "mcp/") ]

  function ShortFrom(path: string, n: nat): string
    requires n <= |BASES|
    decreases |BASES| - n
  {
    if n == |BASES| then path
    else if StartsWith(path, BASES[n].0) then BASES[n].1 + path[|BASES[n].0|..]
    else ShortFrom(path, n + 1)
  }

  /** `short_path` */
  function ShortPath(path: string): string {
    ShortFrom(path, 0)
  }

  /** The path lies under one of the directories the sweep walks. */
  ghost predicate IsSwept(path: string) {
    exists n :: 0 <= n < |BASES| && StartsWith(path, BASES[n].0)
  }

  function Locator(short: string, name: string, total: nat, ordinal: nat): string {
    short + "::" + (name + (if total > 1 then "#" + Decimal(ordinal) else ""))
  }

  /** How many of the first n spans have this name. */
  function CountNamed(spans: seq<Span>, name: string, n: nat): (c: nat)
    requires n <= |spans|
    ensures c <= n
  {
    if n == 0 then 0 else CountNamed(spans, name, n - 1) + (if spans[n - 1].name == name then 1 else 0)
  }

  // ---- one file ----

  function SpansOf(cls: Classes, src: Source): seq<Span> {
    SpansFrom(src.structure, FnHeader(cls), 0)
  }

  function LocatorAt(src: Source, spans: seq<Span>, k: nat): string
    requires k < |spans|
  {
    var name := spans[k].name;
    Locator(ShortPath(src.path), name, CountNamed(spans, name, |spans|), CountNamed(spans, name, k + 1))
  }

  /** The text of a span, cut behind its closing brace if it has one. */
  function BodyOf(src: Source, span: Span): string {
    var first := if span.firstLine <= |src.lines| then span.firstLine else |src.lines|;
    var last := if span.lastLine < |src.lines| then span.lastLine + 1 else |src.lines|;
    var body := if first <= last then src.lines[first..last] else [];
    if body == [] || span.extent == None || span.lastLine > |src.structure| then Join(body, "\n")
    else
      var closedAt := span.extent.value.1 as int - Offset(src.structure, span.lastLine) as int;
      var line := body[|body| - 1];
      Join(body[..|body| - 1] + [if 0 <= closedAt <= |line| then line[..closedAt] else line], "\n")
  }

  function FunctionAt(cls: Classes, bearing: Bearing, src: Source, k: nat): Function
    requires k < |SpansOf(cls, src)|
  {
    var spans := SpansOf(cls, src);
    Function(LocatorAt(src, spans, k), spans[k].name, bearing(BodyOf(src, spans[k])))
  }

  function FunctionsOf(cls: Classes, bearing: Bearing, src: Source): (r: seq<Function>)
    ensures |r| == |SpansOf(cls, src)|
  {
    seq(|SpansOf(cls, src)|, k requires 0 <= k < |SpansOf(cls, src)| => FunctionAt(cls, bearing, src, k))
  }

  function LocatorsOf(cls: Classes, src: Source): (r: seq<string>)
    ensures |r| == |SpansOf(cls, src)|
  {
    seq(|SpansOf(cls, src)|, k requires 0 <= k < |SpansOf(cls, src)| => LocatorAt(src, SpansOf(cls, src), k))
  }

  /** The offset of every header's name. */
  function DefinitionsOf(cls: Classes, structure: seq<string>): set<nat> {
    set i: nat | i < |structure| && MatchFn(cls, structure[i]).Some? ::
      Offset(structure, i) + NameStart(cls, structure[i])
  }

  function CallFile(cls: Classes, src: Source): (f: CallIndex.File)
    ensures f.Valid()
  {
    CallIndex.File(src.structure, FnHeader(cls), LocatorsOf(cls, src), DefinitionsOf(cls, src.structure),
                   FindCalls(cls, TextFrom(src.structure, 0), 0))
  }

  // ---- all files ----

  function AllFunctions(cls: Classes, bearing: Bearing, files: seq<Source>, n: nat): seq<Function>
    requires n <= |files|
  {
    if n == 0 then [] else AllFunctions(cls, bearing, files, n - 1) + FunctionsOf(cls, bearing, files[n - 1])
  }

  function Structures(files: seq<Source>): (r: seq<seq<string>>)
    ensures |r| == |files|
  {
    seq(|files|, f requires 0 <= f < |files| => files[f].structure)
  }

  function CallFiles(cls: Classes, files: seq<Source>): (r: seq<CallIndex.File>)
    ensures |r| == |files| && CallIndex.AllValid(r)
  {
    seq(|files|, f requires 0 <= f < |files| => CallFile(cls, files[f]))
  }

  ghost function NamesIn(cls: Classes, files: seq<Source>): set<string> {
    set f, site | 0 <= f < |files| && site in FindAll(cls, TextFrom(files[f].structure, 0), 0) :: site.name
  }

  ghost function IndexOf(cls: Classes, bearing: Bearing, files: seq<Source>): Index {
    var calls := CallIndex.AddFiles(CallFiles(cls, files), |files|);
    Index(AllFunctions(cls, bearing, files, |files|),
          map name | name in NamesIn(cls, files) :: |DeclaredSites(cls, Structures(files), name)|,
          calls.byLocator, calls.unresolved)
  }

  // ---- the loops ----

  method DefinitionOffsets(cls: Classes, structure: seq<string>) returns (definitions: set<nat>)
    ensures definitions == DefinitionsOf(cls, structure)
  {
    hide MatchFn, NameStart, Offset;
    definitions := {};
    var offsets := LineOffsets(structure);
    for i := 0 to |structure|
      invariant definitions
             == set k: nat | k < i && MatchFn(cls, structure[k]).Some? ::
                   Offset(structure, k) + NameStart(cls, structure[k])
    {
      if MatchFn(cls, structure[i]).Some? {
        definitions := definitions + {offsets[i] + NameStart(cls, structure[i])};
      }
    }
  }

  /** The character at this offset is on line k. */
  predicate OnLine(lines: seq<string>, k: nat, at: nat) {
    k < |lines| && Offset(lines, k) <= at <= Offset(lines, k) + |lines[k]|
  }

  /** One of the matches declares the name on line k. */
  ghost predicate HasSite(lines: seq<string>, sites: seq<Site>, name: string, k: nat) {
    exists site :: site in sites && site.name == name && OnLine(lines, k, site.at)
  }

  /** The sites of one file: what it adds to `declared`. */
  ghost predicate Adds(lines: seq<string>, sites: seq<Site>, f: nat, before: map<string, set<(nat, nat)>>,
                       after: map<string, set<(nat, nat)>>) {
    forall name, g: nat, k: nat :: (g, k) in Get(after, name) <==>
      (g, k) in Get(before, name) || (g == f && HasSite(lines, sites, name, k))
  }

  lemma OneMoreSite(lines: seq<string>, sites: seq<Site>, j: nat, name: string, l: nat)
    requires j < |sites|
    ensures HasSite(lines, sites[..j + 1], name, l)
       <==> HasSite(lines, sites[..j], name, l) || (sites[j].name == name && OnLine(lines, l, sites[j].at))
  {
    hide OnLine;
    assert sites[..j + 1] == sites[..j] + [sites[j]];
    assert sites[j] in sites[..j + 1];
  }

  lemma AddsOne(lines: seq<string>, sites: seq<Site>, j: nat, f: nat, k: nat, before: map<string, set<(nat, nat)>>,
                mid: map<string, set<(nat, nat)>>)
    requires j < |sites| && Adds(lines, sites[..j], f, before, mid)
    requires OnLine(lines, k, sites[j].at) && forall l: nat :: OnLine(lines, l, sites[j].at) ==> l == k
    ensures Adds(lines, sites[..j + 1], f, before, mid[sites[j].name := Get(mid, sites[j].name) + {(f, k)}])
  {
    hide OnLine, HasSite;
    var after := mid[sites[j].name := Get(mid, sites[j].name) + {(f, k)}];
    forall name, g: nat, l: nat
      ensures (g, l) in Get(after, name) <==>
        (g, l) in Get(before, name) || (g == f && HasSite(lines, sites[..j + 1], name, l))
    {
      OneMoreSite(lines, sites, j, name, l);
    }
  }

  method RecordDeclarations(cls: Classes, f: nat, structure: seq<string>, before: map<string, set<(nat, nat)>>)
    returns (declared: map<string, set<(nat, nat)>>)
    ensures Adds(structure, FindAll(cls, TextFrom(structure, 0), 0), f, before, declared)
  {
    hide FnAt, FindAll, Offset, TextFrom, Adds;
    var text := TextFrom(structure, 0);
    var sites := FindAll(cls, text, 0);
    declared := before;
    var offsets := LineOffsets(structure);
    OffsetsAscend(structure);
    NothingAdded(structure, f, before, sites);
    for j := 0 to |sites|
      invariant Adds(structure, sites[..j], f, before, declared)
    {
      SiteIsInText(cls, structure, sites[j]);
      var line := BisectRight(offsets, sites[j].at);
      SiteLine(structure, offsets, sites[j].at, line);
      AddsOne(structure, sites, j, f, line - 1, before, declared);
      declared := declared[sites[j].name := Get(declared, sites[j].name) + {(f, line - 1)}];
    }
    assert sites[..|sites|] == sites;
  }

  lemma NothingAdded(lines: seq<string>, f: nat, before: map<string, set<(nat, nat)>>, sites: seq<Site>)
    ensures Adds(lines, sites[..0], f, before, before)
  {
  }

  lemma {:induction false} TextLength(lines: seq<string>, k: nat)
    requires k < |lines|
    ensures |TextFrom(lines, k)| + 1 + Offset(lines, k) == Offset(lines, |lines|)
    decreases |lines| - k
  {
    if k + 1 < |lines| { TextLength(lines, k + 1); }
  }

  lemma SiteIsInText(cls: Classes, lines: seq<string>, site: Site)
    requires site in FindAll(cls, TextFrom(lines, 0), 0)
    ensures lines != [] && site.at + 1 < Offset(lines, |lines|)
  {
    hide FnAt;
    SitesAreMatches(cls, TextFrom(lines, 0), 0);
    assert site.at < |TextFrom(lines, 0)| by { MatchIsInside(cls, TextFrom(lines, 0), site.at); }
    assert |TextFrom(lines, 0)| > 0;
    if lines != [] { TextLength(lines, 0); }
  }

  lemma MatchIsInside(cls: Classes, s: string, i: nat)
    requires FnAt(cls, s, i).Some?
    ensures i < |s|
  {
  }

  /** Binary search finds the one line an offset is on. */
  lemma SiteLine(lines: seq<string>, offsets: seq<nat>, at: nat, line: nat)
    requires lines != [] && at < Offset(lines, |lines|) && line <= |offsets| == |lines|
    requires forall k :: 0 <= k < |lines| ==> offsets[k] == Offset(lines, k)
    requires (forall i :: 0 <= i < line ==> offsets[i] <= at) && (forall i :: line <= i < |offsets| ==> at < offsets[i])
    ensures 1 <= line && OnLine(lines, line - 1, at) && forall k: nat :: OnLine(lines, k, at) ==> k == line - 1
  {
    hide Offset;
    OffsetsAscend(lines);
    assert offsets[0] == 0 <= at;
    assert line < |lines| ==> at < offsets[line];
    assert Offset(lines, line) == Offset(lines, line - 1) + |lines[line - 1]| + 1;
    assert forall k :: line <= k < |lines| ==> at < Offset(lines, k);
    assert forall k :: 0 <= k < line - 1 ==> Offset(lines, k) + |lines[k]| < Offset(lines, line - 1);
  }

  /** `Counter`: how often a name occurs. */
  function Tally(m: map<string, nat>, name: string): nat {
    if name in m then m[name] else 0
  }

  method CountNames(spans: seq<Span>) returns (totals: map<string, nat>)
    ensures forall name :: Tally(totals, name) == CountNamed(spans, name, |spans|)
  {
    totals := map[];
    for i := 0 to |spans|
      invariant forall name :: Tally(totals, name) == CountNamed(spans, name, i)
    {
      totals := totals[spans[i].name := Tally(totals, spans[i].name) + 1];
    }
  }

  method LocateFunctions(cls: Classes, bearing: Bearing, src: Source) returns (functions: seq<Function>)
    ensures functions == FunctionsOf(cls, bearing, src)
  {
    hide Locator, ShortPath, BodyOf, SpansFrom, FnHeader;
    var spans := BodySpans(src.structure, FnHeader(cls));
    assert spans == SpansOf(cls, src);
    var totals := CountNames(spans);
    functions := [];
    var seen: map<string, nat> := map[];
    hide SpansOf;
    for i := 0 to |spans|
      invariant forall name :: Tally(seen, name) == CountNamed(spans, name, i)
      invariant functions == FunctionsOf(cls, bearing, src)[..i]
    {
      var name := spans[i].name;
      seen := seen[name := Tally(seen, name) + 1];
      var locator := Locator(ShortPath(src.path), name, Tally(totals, name), Tally(seen, name));
      functions := functions + [Function(locator, name, bearing(BodyOf(src, spans[i])))];
    }
  }

  /** Everything `declared` holds after the first n files. */
  ghost predicate Declares(cls: Classes, files: seq<Source>, n: nat, declared: map<string, set<(nat, nat)>>)
    requires n <= |files|
  {
    forall name, f: nat, k: nat ::
      (f, k) in Get(declared, name) <==> f < n && k in DeclaredIn(cls, files[f].structure, name)
  }

  lemma DeclaresNext(cls: Classes, files: seq<Source>, n: nat, before: map<string, set<(nat, nat)>>,
                     after: map<string, set<(nat, nat)>>)
    requires n < |files| && Declares(cls, files, n, before)
    requires Adds(files[n].structure, FindAll(cls, TextFrom(files[n].structure, 0), 0), n, before, after)
    ensures Declares(cls, files, n + 1, after)
  {
    hide FindAll, TextFrom, Offset, OnLine;
    var lines := files[n].structure;
    forall name, k: nat
      ensures k in DeclaredIn(cls, lines, name) <==> HasSite(lines, FindAll(cls, TextFrom(lines, 0), 0), name, k)
    {
      SitesDeclare(cls, lines, name, k);
    }
    hide DeclaredIn, HasSite;
    forall name, f: nat, k: nat
      ensures (f, k) in Get(after, name) <==> f < n + 1 && k in DeclaredIn(cls, files[f].structure, name)
    {
    }
  }

  lemma SitesDeclare(cls: Classes, lines: seq<string>, name: string, k: nat)
    ensures k in DeclaredIn(cls, lines, name) <==> HasSite(lines, FindAll(cls, TextFrom(lines, 0), 0), name, k)
  {
    hide FindAll, TextFrom, Offset;
    var sites := FindAll(cls, TextFrom(lines, 0), 0);
    assert k < |lines| ==> (DeclaresOn(cls, lines, k, name) <==> HasSite(lines, sites, name, k));
  }

  lemma DeclaresAll(cls: Classes, files: seq<Source>, declared: map<string, set<(nat, nat)>>, name: string)
    requires Declares(cls, files, |files|, declared)
    ensures Get(declared, name) == DeclaredSites(cls, Structures(files), name)
  {
    hide DeclaredIn;
    forall p: (nat, nat)
      ensures p in Get(declared, name) <==> p in DeclaredSites(cls, Structures(files), name)
    {
      assert p == (p.0, p.1);
    }
  }

  lemma CallFileIs(cls: Classes, src: Source)
    ensures CallFile(cls, src)
         == CallIndex.File(src.structure, FnHeader(cls), LocatorsOf(cls, src), DefinitionsOf(cls, src.structure),
                           FindCalls(cls, TextFrom(src.structure, 0), 0))
  {
  }

  method IndexFile(cls: Classes, bearing: Bearing, f: nat, src: Source, before: map<string, set<(nat, nat)>>)
    returns (functions: seq<Function>, declared: map<string, set<(nat, nat)>>, callFile: CallIndex.File)
    ensures functions == FunctionsOf(cls, bearing, src)
    ensures Adds(src.structure, FindAll(cls, TextFrom(src.structure, 0), 0), f, before, declared)
    ensures callFile == CallFile(cls, src)
  {
    hide FunctionsOf, FindAll, FindCalls, TextFrom, SpansFrom, DefinitionsOf, LocatorsOf, CallFile, Adds;
    var definitions := DefinitionOffsets(cls, src.structure);
    declared := RecordDeclarations(cls, f, src.structure, before);
    functions := LocateFunctions(cls, bearing, src);
    CallFileIs(cls, src);
    callFile := CallIndex.File(src.structure, FnHeader(cls), LocatorsOf(cls, src), definitions,
                               FindCalls(cls, TextFrom(src.structure, 0), 0));
  }

  ghost predicate Collected(cls: Classes, files: seq<Source>, n: nat, perFile: seq<CallIndex.File>)
    requires n <= |files|
  {
    |perFile| == n && forall k :: 0 <= k < n ==> perFile[k] == CallFile(cls, files[k])
  }

  lemma CollectOne(cls: Classes, files: seq<Source>, n: nat, perFile: seq<CallIndex.File>)
    requires n < |files| && Collected(cls, files, n, perFile)
    ensures Collected(cls, files, n + 1, perFile + [CallFile(cls, files[n])])
  {
    hide CallFile;
  }

  lemma CollectedAll(cls: Classes, files: seq<Source>, perFile: seq<CallIndex.File>)
    requires Collected(cls, files, |files|, perFile)
    ensures perFile == CallFiles(cls, files)
  {
    hide CallFile;
  }

  /** The first pass of `build_index`, file by file. */
  method IndexFiles(cls: Classes, bearing: Bearing, files: seq<Source>)
    returns (functions: seq<Function>, declared: map<string, set<(nat, nat)>>, perFile: seq<CallIndex.File>)
    ensures functions == AllFunctions(cls, bearing, files, |files|)
    ensures Declares(cls, files, |files|, declared)
    ensures perFile == CallFiles(cls, files)
  {
    hide FunctionsOf, FindAll, TextFrom, CallFile, SpansFrom, CallIndex.AllValid, Adds, Declares;
    functions, declared, perFile := [], map[], [];
    NothingDeclared(cls, files);
    assert Collected(cls, files, 0, []);
    hide Collected;
    for i := 0 to |files|
      invariant functions == AllFunctions(cls, bearing, files, i)
      invariant Declares(cls, files, i, declared)
      invariant Collected(cls, files, i, perFile)
    {
      ghost var before := declared;
      var located, callFile;
      located, declared, callFile := IndexFile(cls, bearing, i, files[i], declared);
      DeclaresNext(cls, files, i, before, declared);
      functions := functions + located;
      CollectOne(cls, files, i, perFile);
      perFile := perFile + [callFile];
    }
    CollectedAll(cls, files, perFile);
  }

  /** `build_index`: one pass over the files for functions and declarations, one for the calls. */
  method BuildIndex(cls: Classes, bearing: Bearing, files: seq<Source>)
    returns (functions: seq<Function>, declared: map<string, set<(nat, nat)>>, calls: CallIndex.Calls)
    ensures IndexOf(cls, bearing, files).functions == functions
    ensures forall name :: Get(declared, name) == DeclaredSites(cls, Structures(files), name)
    ensures IndexOf(cls, bearing, files).calls == calls.byLocator
    ensures IndexOf(cls, bearing, files).unresolved == calls.unresolved
  {
    hide AllFunctions, CallFiles, Declares, DeclaredSites, NamesIn, CallIndex.AddFiles;
    var perFile;
    functions, declared, perFile := IndexFiles(cls, bearing, files);
    forall name
      ensures Get(declared, name) == DeclaredSites(cls, Structures(files), name)
    {
      DeclaresAll(cls, files, declared, name);
    }
    calls := CallIndex.BuildCalls(perFile);
  }

  lemma NothingDeclared(cls: Classes, files: seq<Source>)
    ensures Declares(cls, files, 0, map[])
  {
  }

  // ---- locators are distinct ----

  lemma BaseOf(path: string) returns (n: nat)
    requires IsSwept(path)
    ensures n < |BASES| && StartsWith(path, BASES[n].0) && path == BASES[n].0 + path[|BASES[n].0|..]
    ensures ShortPath(path) == BASES[n].1 + path[|BASES[n].0|..]
  {
    if StartsWith(path, BASES[0].0) { n := 0; }
    else if StartsWith(path, BASES[1].0) { n := 1; }
    else if StartsWith(path, BASES[2].0) { n := 2; }
    else { n := 3; }
  }

  /** Within the walked directories a short path stands for one path. */
  lemma ShortPathIsInjective(a: string, b: string)
    requires IsSwept(a) && IsSwept(b) && ShortPath(a) == ShortPath(b)
    ensures a == b
  {
    hide ShortFrom, IsSwept;
    var m := BaseOf(a);
    var n := BaseOf(b);
    assert ShortPath(a)[0] == BASES[m].1[0] && ShortPath(b)[0] == BASES[n].1[0];
    assert ShortPath(a)[1] == BASES[m].1[1] && ShortPath(b)[1] == BASES[n].1[1];
    assert m == n;
    assert ShortPath(a)[|BASES[m].1|..] == a[|BASES[m].0|..];
    assert ShortPath(b)[|BASES[m].1|..] == b[|BASES[m].0|..];
  }

  /** What stands after the last colon. */
  lemma LastColon(a: string, s: string, b: string, t: string)
    requires a + ":" + s == b + ":" + t && ':' !in s && ':' !in t
    ensures a == b && s == t
  {
    var left, right := a + ":" + s, b + ":" + t;
    assert left[|a|] == ':' && right[|b|] == ':';
    assert forall k :: |a| < k < |left| ==> left[k] == s[k - |a| - 1];
    assert forall k :: |b| < k < |right| ==> right[k] == t[k - |b| - 1];
    assert |a| == |b|;
    assert left[..|a|] == a && right[..|a|] == b && left[|a| + 1..] == s && right[|a| + 1..] == t;
  }

  lemma FirstHash(a: string, s: string, b: string, t: string)
    requires a + s == b + t && '#' !in a && '#' !in b
    requires (s != "" ==> s[0] == '#') && (t != "" ==> t[0] == '#')
    ensures a == b && s == t
  {
    var left, right := a + s, b + t;
    assert forall k :: 0 <= k < |a| ==> left[k] == a[k];
    assert forall k :: 0 <= k < |b| ==> right[k] == b[k];
    assert (s != "" ==> left[|a|] == s[0]) && (t != "" ==> right[|b|] == t[0]);
    assert |a| == |b|;
    assert left[..|a|] == a && right[..|a|] == b && left[|a|..] == s && right[|a|..] == t;
  }

  /** A locator determines its path and name, and its ordinal where there is one. */
  lemma LocatorDetermines(short: string, name: string, total: nat, ordinal: nat, short': string, name': string,
                          total': nat, ordinal': nat)
    requires Locator(short, name, total, ordinal) == Locator(short', name', total', ordinal')
    requires ':' !in name && '#' !in name && ':' !in name' && '#' !in name'
    ensures short == short' && name == name' && (total > 1 && total' > 1 ==> ordinal == ordinal')
  {
    hide Decimal;
    var suffix := if total > 1 then "#" + Decimal(ordinal) else "";
    var suffix' := if total' > 1 then "#" + Decimal(ordinal') else "";
    assert Locator(short, name, total, ordinal) == (short + ":") + ":" + (name + suffix);
    assert Locator(short', name', total', ordinal') == (short' + ":") + ":" + (name' + suffix');
    LastColon(short + ":", name + suffix, short' + ":", name' + suffix');
    assert (short + ":")[..|short|] == short && (short' + ":")[..|short'|] == short';
    FirstHash(name, suffix, name', suffix');
    if total > 1 && total' > 1 {
      assert suffix[1..] == Decimal(ordinal) && suffix'[1..] == Decimal(ordinal');
      DecimalReadsBack(ordinal);
      DecimalReadsBack(ordinal');
    }
  }

  lemma {:induction false} CountGrows(spans: seq<Span>, name: string, m: nat, n: nat)
    requires m <= n <= |spans|
    ensures CountNamed(spans, name, m) <= CountNamed(spans, name, n)
    ensures m < n && spans[n - 1].name == name ==> CountNamed(spans, name, m) < CountNamed(spans, name, n)
  {
    if m < n { CountGrows(spans, name, m, n - 1); }
  }

  /** Names come from the header pattern, so they are words. */
  lemma SpanNames(cls: Classes, src: Source, k: nat)
    requires Recognises(cls) && k < |SpansOf(cls, src)|
    ensures var name := SpansOf(cls, src)[k].name; ':' !in name && '#' !in name
  {
    hide MatchFn, Ordinary;
    SpansStartLater(src.structure, FnHeader(cls), 0, k);
    var line := src.structure[SpansOf(cls, src)[k].firstLine];
    var d, tail := DeclOf(cls, line);
    assert forall i :: 0 <= i < |d.name| ==> cls.word(d.name[i]);
  }

  /** Two functions of the files have different locators. */
  lemma LocatorsDiffer(cls: Classes, files: seq<Source>, f: nat, a: nat, g: nat, b: nat)
    requires Recognises(cls) && f <= g < |files| && (f == g ==> a < b)
    requires a < |SpansOf(cls, files[f])| && b < |SpansOf(cls, files[g])|
    requires f != g ==> ShortPath(files[f].path) != ShortPath(files[g].path)
    ensures LocatorAt(files[f], SpansOf(cls, files[f]), a) != LocatorAt(files[g], SpansOf(cls, files[g]), b)
  {
    hide Locator, SpansOf, ShortPath, Recognises;
    var s, t := SpansOf(cls, files[f]), SpansOf(cls, files[g]);
    SpanNames(cls, files[f], a);
    SpanNames(cls, files[g], b);
    if LocatorAt(files[f], s, a) == LocatorAt(files[g], t, b) {
      LocatorDetermines(ShortPath(files[f].path), s[a].name,
                        CountNamed(s, s[a].name, |s|), CountNamed(s, s[a].name, a + 1),
                        ShortPath(files[g].path), t[b].name,
                        CountNamed(t, t[b].name, |t|), CountNamed(t, t[b].name, b + 1));
      CountGrows(s, s[a].name, 0, a + 1);
      CountGrows(s, s[a].name, a + 1, b + 1);
      CountGrows(s, s[a].name, b + 1, |s|);
    }
  }

  // ---- positions in the index ----

  /** Which file and span the function at a position comes from. */
  lemma {:induction false} Locate(cls: Classes, bearing: Bearing, files: seq<Source>, n: nat, j: nat)
    returns (f: nat, a: nat)
    requires n <= |files| && j < |AllFunctions(cls, bearing, files, n)|
    ensures f < n && a < |SpansOf(cls, files[f])|
    ensures AllFunctions(cls, bearing, files, n)[j] == FunctionAt(cls, bearing, files[f], a)
    ensures j == |AllFunctions(cls, bearing, files, f)| + a
  {
    hide SpansOf, FunctionAt;
    var m := |AllFunctions(cls, bearing, files, n - 1)|;
    if j < m {
      f, a := Locate(cls, bearing, files, n - 1, j);
    } else {
      f, a := n - 1, j - m;
    }
  }

  lemma {:induction false} FunctionsGrow(cls: Classes, bearing: Bearing, files: seq<Source>, m: nat, n: nat)
    requires m <= n <= |files|
    ensures |AllFunctions(cls, bearing, files, m)| <= |AllFunctions(cls, bearing, files, n)|
    ensures m < n
            ==> |AllFunctions(cls, bearing, files, m)| + |SpansOf(cls, files[m])|
                <= |AllFunctions(cls, bearing, files, n)|
  {
    hide SpansOf, FunctionsOf;
    if m < n { FunctionsGrow(cls, bearing, files, m, n - 1); }
  }

  /** Two positions of the index come from two places, in the same order. */
  lemma LocateTwo(cls: Classes, bearing: Bearing, files: seq<Source>, j: nat, k: nat)
    returns (f: nat, a: nat, g: nat, b: nat)
    requires j < k < |AllFunctions(cls, bearing, files, |files|)|
    ensures f <= g < |files| && (f == g ==> a < b) && a < |SpansOf(cls, files[f])| && b < |SpansOf(cls, files[g])|
    ensures AllFunctions(cls, bearing, files, |files|)[j] == FunctionAt(cls, bearing, files[f], a)
    ensures AllFunctions(cls, bearing, files, |files|)[k] == FunctionAt(cls, bearing, files[g], b)
  {
    hide SpansOf, FunctionAt, AllFunctions;
    f, a := Locate(cls, bearing, files, |files|, j);
    g, b := Locate(cls, bearing, files, |files|, k);
    if g < f { FunctionsGrow(cls, bearing, files, g, f); }
  }

  ghost predicate OwnShortPaths(files: seq<Source>) {
    forall f, g :: 0 <= f < g < |files| ==> ShortPath(files[f].path) != ShortPath(files[g].path)
  }

  /** Different files of the walked directories have different short paths. */
  lemma SweptFilesAreApart(files: seq<Source>)
    requires forall f :: 0 <= f < |files| ==> IsSwept(files[f].path)
    requires forall f, g :: 0 <= f < g < |files| ==> files[f].path != files[g].path
    ensures OwnShortPaths(files)
  {
    hide IsSwept, ShortPath;
    forall f, g | 0 <= f < g < |files|
      ensures ShortPath(files[f].path) != ShortPath(files[g].path)
    {
      if ShortPath(files[f].path) == ShortPath(files[g].path) {
        ShortPathIsInjective(files[f].path, files[g].path);
      }
    }
  }

  /** Main result: in the index of files with short paths of their own, every function has its own
      locator. */
  lemma IndexIsValid(cls: Classes, bearing: Bearing, files: seq<Source>)
    requires Recognises(cls) && OwnShortPaths(files)
    ensures IndexOf(cls, bearing, files).Valid()
  {
    hide SpansOf, LocatorAt, AllFunctions, Recognises, ShortPath;
    var fs := AllFunctions(cls, bearing, files, |files|);
    forall j, k | 0 <= j < k < |fs|
      ensures fs[j].locator != fs[k].locator
    {
      var f, a, g, b := LocateTwo(cls, bearing, files, j, k);
      LocatorsDiffer(cls, files, f, a, g, b);
    }
  }

  ghost predicate NoFnNamedFnIn(cls: Classes, files: seq<Source>) {
    forall f :: 0 <= f < |files| ==> NoFnNamedFn(cls, files[f].structure)
  }

  /** Main result: a name that stands for two functions is never declared once, unless some `fn` is
      followed by another `fn` as its name. */
  lemma IndexResolvesUniquely(cls: Classes, bearing: Bearing, files: seq<Source>)
    requires Recognises(cls) && NoFnNamedFnIn(cls, files)
    ensures ResolvesUniquely(IndexOf(cls, bearing, files))
  {
    hide SpansOf, LocatorAt, AllFunctions, NoFnNamedFn, SeesFn, DeclaredSites;
    HeaderSeesFn(cls);
    var ix, fs := IndexOf(cls, bearing, files), AllFunctions(cls, bearing, files, |files|);
    forall j, k | 0 <= j < k < |fs| && fs[j].fn == fs[k].fn
      ensures !ix.DeclaredOnce(fs[j].fn)
    {
      var f, a, g, b := LocateTwo(cls, bearing, files, j, k);
      SpanOfFunction(cls, bearing, files[f], a);
      SpanOfFunction(cls, bearing, files[g], b);
      SharedNameIsDeclaredTwice(cls, FnHeader(cls), Structures(files), f, a, g, b);
    }
  }

  /** Main result: names are resolved uniquely if and only if no name that stands for two functions
      is left with one declaration line, not counting an `fn` that another one reads as its name. */
  lemma IndexResolvesIff(cls: Classes, bearing: Bearing, files: seq<Source>)
    requires Recognises(cls)
    ensures var ix := IndexOf(cls, bearing, files);
            ResolvesUniquely(ix)
            <==> forall j, k :: 0 <= j < k < ix.Size() && ix.functions[j].fn == ix.functions[k].fn
                   ==> |NamedSites(cls, Structures(files), ix.functions[j].fn)| != 1
  {
    hide IndexOf, DeclaredSites, NamedSites;
    var ix := IndexOf(cls, bearing, files);
    forall name
      ensures ix.DeclaredOnce(name) <==> |NamedSites(cls, Structures(files), name)| == 1
    {
      DeclaredOnceIs(cls, bearing, files, name);
      DeclaredIsNamed(cls, Structures(files), name);
    }
  }

  lemma SpanOfFunction(cls: Classes, bearing: Bearing, src: Source, k: nat)
    requires k < |SpansOf(cls, src)|
    ensures k < |SpansFrom(src.structure, FnHeader(cls), 0)|
    ensures FunctionAt(cls, bearing, src, k).fn == SpansFrom(src.structure, FnHeader(cls), 0)[k].name
  {
  }

  /** Main result: over the files themselves, `via` is exactly the set of all shortest predecessors,
      for every function and depth. */
  lemma ViaIsExactInFiles(cls: Classes, bearing: Bearing, files: seq<Source>, k: nat, d: nat)
    requires Recognises(cls) && OwnShortPaths(files) && NoFnNamedFnIn(cls, files)
    requires d > 0 && k < IndexOf(cls, bearing, files).Size()
    ensures ViaListsPredecessors(IndexOf(cls, bearing, files), k, d)
  {
    hide IndexOf, Recognises, ViaListsPredecessors;
    IndexIsValid(cls, bearing, files);
    IndexResolvesUniquely(cls, bearing, files);
    ViaListsAllPredecessors(IndexOf(cls, bearing, files), k, d);
  }

  /** Main result: the same for any files under the walked directories, whatever they are called. */
  lemma ViaIsExactInWalkedFiles(cls: Classes, bearing: Bearing, files: seq<Source>, k: nat, d: nat)
    requires Recognises(cls) && NoFnNamedFnIn(cls, files)
    requires forall f :: 0 <= f < |files| ==> IsSwept(files[f].path)
    requires forall f, g :: 0 <= f < g < |files| ==> files[f].path != files[g].path
    requires d > 0 && k < IndexOf(cls, bearing, files).Size()
    ensures ViaListsPredecessors(IndexOf(cls, bearing, files), k, d)
  {
    hide IndexOf, Recognises, ViaListsPredecessors, IsSwept, OwnShortPaths, NoFnNamedFnIn;
    SweptFilesAreApart(files);
    ViaIsExactInFiles(cls, bearing, files, k, d);
  }

  /** Main result: an edge of the search is a counted call, lying in a closed span of the caller, of
      a name declared on one line. */
  lemma EdgeIsCall(cls: Classes, bearing: Bearing, files: seq<Source>, g: nat, k: nat)
    requires g < IndexOf(cls, bearing, files).Size() && k < IndexOf(cls, bearing, files).Size()
    ensures var ix := IndexOf(cls, bearing, files);
            var (name, locator) := (ix.functions[g].fn, ix.functions[k].locator);
            ix.Edge(g, k) <==> |DeclaredSites(cls, Structures(files), name)| == 1
                               && exists f ::
                                    0 <= f < |files| && CallIndex.HasEdge(CallFile(cls, files[f]), locator, name)
  {
    hide CallIndex.HasEdge, CallIndex.AddFiles, CallFile, AllFunctions;
    var ix := IndexOf(cls, bearing, files);
    var name, locator := ix.functions[g].fn, ix.functions[k].locator;
    CallIndex.CallsAreExact(CallFiles(cls, files), |files|, locator, name);
    DeclaredOnceIs(cls, bearing, files, name);
    assert Get(ix.calls, locator) == ix.CallsOf(locator);
    forall f | 0 <= f < |files| ensures CallFiles(cls, files)[f] == CallFile(cls, files[f]) {}
  }

  lemma DeclaredOnceIs(cls: Classes, bearing: Bearing, files: seq<Source>, name: string)
    ensures IndexOf(cls, bearing, files).DeclaredOnce(name) <==> |DeclaredSites(cls, Structures(files), name)| == 1
  {
    hide AllFunctions, CallFiles, CallIndex.AddFiles, FindAll, TextFrom;
    var sites := DeclaredSites(cls, Structures(files), name);
    if |sites| == 1 {
      var site :| site in sites;
      assert DeclaresOn(cls, files[site.0].structure, site.1, name);
      assert name in NamesIn(cls, files);
    }
  }

  /** Main result: a function blocks the sweep exactly when its name is declared on one line and some
      counted call of it lies in no closed span. */
  lemma BlockedIsOrphan(cls: Classes, bearing: Bearing, files: seq<Source>, k: nat)
    requires k < IndexOf(cls, bearing, files).Size()
    ensures var ix := IndexOf(cls, bearing, files);
            var name := ix.functions[k].fn;
            ix.Blocked(k) <==> |DeclaredSites(cls, Structures(files), name)| == 1
                               && exists f :: 0 <= f < |files| && CallIndex.HasOrphan(CallFile(cls, files[f]), name)
  {
    hide CallIndex.HasOrphan, CallIndex.HasEdge, CallIndex.AddFiles, CallFile, AllFunctions;
    var name := IndexOf(cls, bearing, files).functions[k].fn;
    CallIndex.CallsAreExact(CallFiles(cls, files), |files|, "", name);
    DeclaredOnceIs(cls, bearing, files, name);
    forall f | 0 <= f < |files| ensures CallFiles(cls, files)[f] == CallFile(cls, files[f]) {}
  }

  /** A counted call inside a span is an edge from that span's locator. */
  lemma CallInSpan(cls: Classes, src: Source, k: nat, c: CallIndex.Call)
    requires k < |SpansOf(cls, src)| && Within(SpansOf(cls, src)[k], c.offset)
    requires c in FindCalls(cls, TextFrom(src.structure, 0), 0) && c.offset !in DefinitionsOf(cls, src.structure)
    ensures CallIndex.HasEdge(CallFile(cls, src), LocatorAt(src, SpansOf(cls, src), k), c.name)
  {
    hide LocatorAt, FindCalls, TextFrom, DefinitionsOf, Within;
    var f := CallFile(cls, src);
    assert f.Spans() == SpansOf(cls, src);
    assert CallIndex.IsEdge(f, CallIndex.Call(c.name, c.offset), f.locators[k]);
  }
}
