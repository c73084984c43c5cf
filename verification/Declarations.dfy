/**
 The declaration sites that decide which names the reader sweep resolves
 (scripts/m5-reader-sweep.py, `build_index`): the matches of a fixed pattern over a
 whole file, against the headers of the function spans, which are matched line by line.

 The character classes are parameters; the header pattern is one that sees `fn` and a
 name, not inside a word.
 */
module Declarations {
  import opened Wrappers
  import opened FnSpans

  datatype Classes = Classes(word: char -> bool, space: char -> bool) {
    ghost predicate Valid() {
      word('f') && word('n') && space('\n') && forall c :: !(word(c) && space(c))
    }
  }

  /** How many characters from i on are in the class. */
  function Run(p: char -> bool, s: string, i: nat): (n: nat)
    requires i <= |s|
    ensures i + n <= |s| && (forall k :: i <= k < i + n ==> p(s[k])) && (i + n < |s| ==> !p(s[i + n]))
    decreases |s| - i
  {
    if i == |s| || !p(s[i]) then 0 else 1 + Run(p, s, i + 1)
  }

  /** `\bfn\s+(\w+)` at i: the name and where the match ends. The two classes are disjoint, so
      the greedy match is the only one. */
  function FnAt(cls: Classes, s: string, i: nat): (r: Option<(string, nat)>)
    ensures r.Some? ==> i + 3 < r.value.1 <= |s|
  {
    if i + 2 > |s| || s[i] != 'f' || s[i + 1] != 'n' || (i > 0 && cls.word(s[i - 1])) then None
    else
      var name := i + 2 + Run(cls.space, s, i + 2);
      var end := name + Run(cls.word, s, name);
      if i + 2 == name || name == end then None else Some((s[name..end], end))
  }

  /** `fn` at i, then spaces, then the name from `name` to `end`. */
  ghost predicate IsFn(cls: Classes, s: string, i: nat, name: nat, end: nat) {
    && i + 2 < name < end <= |s| && s[i] == 'f' && s[i + 1] == 'n' && (i > 0 ==> !cls.word(s[i - 1]))
    && (forall k :: i + 2 <= k < name ==> cls.space(s[k]))
    && (forall k :: name <= k < end ==> cls.word(s[k]))
    && (end < |s| ==> !cls.word(s[end]))
  }

  lemma FnAtIs(cls: Classes, s: string, i: nat, name: nat, end: nat)
    requires cls.Valid() && IsFn(cls, s, i, name, end)
    ensures FnAt(cls, s, i) == Some((s[name..end], end))
  {
    hide Run;
    assert !cls.space(s[name]) by { assert cls.word(s[name]); }
    RunIs(cls.space, s, i + 2, name - i - 2);
    RunIs(cls.word, s, name, end - name);
  }

  lemma FnAtMeans(cls: Classes, s: string, i: nat) returns (name: nat)
    requires FnAt(cls, s, i).Some?
    ensures IsFn(cls, s, i, name, FnAt(cls, s, i).value.1)
    ensures FnAt(cls, s, i).value.0 == s[name..FnAt(cls, s, i).value.1]
  {
    name := i + 2 + Run(cls.space, s, i + 2);
  }

  datatype Site = Site(at: nat, name: string)

  /** `re.finditer`: matches from left to right that do not overlap. */
  function FindAll(cls: Classes, s: string, i: nat): seq<Site>
    requires i <= |s|
    decreases |s| - i
  {
    if i == |s| then []
    else
      match FnAt(cls, s, i)
      case Some((name, end)) => [Site(i, name)] + FindAll(cls, s, end)
      case None => FindAll(cls, s, i + 1)
  }

  lemma {:induction false} SitesAreMatches(cls: Classes, s: string, i: nat)
    requires i <= |s|
    ensures forall site :: site in FindAll(cls, s, i) ==>
              i <= site.at && FnAt(cls, s, site.at).Some? && FnAt(cls, s, site.at).value.0 == site.name
    decreases |s| - i
  {
    hide FnAt;
    if i < |s| {
      SitesAreMatches(cls, s, match FnAt(cls, s, i) case Some((_, end)) => end case None => i + 1);
    }
  }

  /** A match that starts before p and reads the `fn` at p as its name. */
  predicate Swallows(cls: Classes, s: string, site: Site, p: nat) {
    site.name == "fn" && site.at < p && FnAt(cls, s, site.at).Some? && p < FnAt(cls, s, site.at).value.1
  }

  /** Where two matches overlap, the later one starts at the name of the earlier: `fn`. */
  lemma OverlapIsName(cls: Classes, s: string, i: nat, p: nat)
    requires cls.Valid() && FnAt(cls, s, i).Some? && FnAt(cls, s, p).Some?
    requires i < p < FnAt(cls, s, i).value.1
    ensures FnAt(cls, s, i) == Some(("fn", p + 2))
  {
    hide FnAt;
    var name := FnAtMeans(cls, s, i);
    var next := FnAtMeans(cls, s, p);
    var end := FnAt(cls, s, i).value.1;
    assert p == name by {
      assert cls.word(s[p]) && s[p] != s[i + 1];
    }
    assert cls.space(s[p + 2]) && cls.word(s[p + 1]);
    assert end == p + 2;
    assert s[p..p + 2] == "fn";
  }

  /** Main result: an `fn` with a name, not inside a word, is among the matches if and only if no
      earlier match took it for its name. */
  lemma {:induction false} FoundIff(cls: Classes, s: string, i: nat, p: nat)
    requires cls.Valid() && i <= p < |s| && FnAt(cls, s, p).Some?
    ensures Site(p, FnAt(cls, s, p).value.0) in FindAll(cls, s, i)
            <==> forall site :: site in FindAll(cls, s, i) ==> !Swallows(cls, s, site, p)
    decreases p - i
  {
    hide FnAt;
    SitesAreMatches(cls, s, i);
    match FnAt(cls, s, i)
    case None =>
      if i < p { FoundIff(cls, s, i + 1, p); }
    case Some((name, end)) =>
      SitesAreMatches(cls, s, end);
      if i < p {
        if end <= p {
          FoundIff(cls, s, end, p);
        } else {
          OverlapIsName(cls, s, i, p);
          assert Swallows(cls, s, Site(i, name), p);
        }
      }
  }

  // ---- which declarations are found, without searching ----

  /** The `fn` at q reads the one at p as its name. */
  ghost predicate ReadsAsName(cls: Classes, s: string, q: nat, p: nat) {
    q < p && FnAt(cls, s, q) == Some(("fn", p + 2))
  }

  /** How many `fn` stand directly before the one at p, each but for white space next to the other. */
  ghost function FnsBefore(cls: Classes, s: string, p: nat): nat
    decreases p
  {
    if q: nat :| ReadsAsName(cls, s, q, p) then 1 + FnsBefore(cls, s, q) else 0
  }

  lemma OneReader(cls: Classes, s: string, q: nat, r: nat, p: nat)
    requires cls.Valid() && ReadsAsName(cls, s, q, p) && ReadsAsName(cls, s, r, p)
    ensures q == r
  {
    var a := FnAtMeans(cls, s, q);
    var b := FnAtMeans(cls, s, r);
    assert |s[a..p + 2]| == 2 && |s[b..p + 2]| == 2 && a == b == p;
  }

  lemma ReaderIsFn(cls: Classes, s: string, q: nat, p: nat)
    requires cls.Valid() && ReadsAsName(cls, s, q, p) && FnAt(cls, s, p).Some?
    ensures q < |s| && forall site :: Swallows(cls, s, site, p) ==> site == Site(q, "fn")
    ensures Swallows(cls, s, Site(q, "fn"), p)
  {
    hide FnAt;
    var name := FnAtMeans(cls, s, q);
    forall site | Swallows(cls, s, site, p)
      ensures site == Site(q, "fn")
    {
      OverlapIsName(cls, s, site.at, p);
      OneReader(cls, s, q, site.at, p);
    }
  }

  /** Main result: the left-to-right search finds an `fn` with a name if and only if an even number
      of `fn` stands directly before it. */
  lemma {:induction false} FoundIffEven(cls: Classes, s: string, p: nat)
    requires cls.Valid() && p < |s| && FnAt(cls, s, p).Some?
    ensures Site(p, FnAt(cls, s, p).value.0) in FindAll(cls, s, 0) <==> FnsBefore(cls, s, p) % 2 == 0
    decreases p
  {
    hide FnAt, FindAll, Swallows;
    FoundIff(cls, s, 0, p);
    if q: nat :| ReadsAsName(cls, s, q, p) {
      var r: nat :| ReadsAsName(cls, s, r, p) && FnsBefore(cls, s, p) == 1 + FnsBefore(cls, s, r);
      ReaderIsFn(cls, s, r, p);
      FoundIffEven(cls, s, r);
    } else {
      forall site | site in FindAll(cls, s, 0)
        ensures !Swallows(cls, s, site, p)
      {
        SwallowsAsName(cls, s, site, p);
      }
    }
  }

  lemma SwallowsAsName(cls: Classes, s: string, site: Site, p: nat)
    requires cls.Valid() && FnAt(cls, s, p).Some?
    ensures Swallows(cls, s, site, p) ==> ReadsAsName(cls, s, site.at, p)
  {
    hide FnAt;
    if Swallows(cls, s, site, p) {
      OverlapIsName(cls, s, site.at, p);
    }
  }

  // ---- lines and the joined text ----

  lemma RunIs(p: char -> bool, s: string, i: nat, n: nat)
    requires i + n <= |s| && (forall k :: i <= k < i + n ==> p(s[k])) && (i + n < |s| ==> !p(s[i + n]))
    ensures Run(p, s, i) == n
  {
    var m := Run(p, s, i);
    assert i + m < |s| ==> !p(s[i + m]);
    assert i + n < |s| ==> !p(s[i + n]);
  }

  /** The line occupies the text from `at` on, between line breaks. */
  ghost predicate Occupies(text: string, at: nat, line: string) {
    && at + |line| <= |text|
    && (forall k :: at <= k < at + |line| ==> text[k] == line[k - at])
    && (at > 0 ==> text[at - 1] == '\n')
    && (at + |line| < |text| ==> text[at + |line|] == '\n')
  }

  lemma OccupiesLater(text: string, at: nat, line: string, first: string)
    requires Occupies(text, at, line)
    ensures Occupies(first + "\n" + text, |first| + 1 + at, line)
  {
    var whole := first + "\n" + text;
    assert forall k :: 0 <= k < |text| ==> whole[|first| + 1 + k] == text[k];
    forall k | |first| + 1 + at <= k < |first| + 1 + at + |line|
      ensures whole[k] == line[k - |first| - 1 - at]
    {
      assert text[k - |first| - 1] == line[k - |first| - 1 - at];
    }
  }

  lemma OccupiesFirst(line: string, text: string)
    ensures Occupies(line, 0, line) && Occupies(line + "\n" + text, 0, line)
  {
  }

  lemma {:induction false} OffsetFrom(lines: seq<string>, k: nat, i: nat)
    requires k <= i < |lines|
    ensures Offset(lines, i) >= Offset(lines, k)
    ensures Occupies(TextFrom(lines, k), Offset(lines, i) - Offset(lines, k), lines[i])
    decreases i - k
  {
    hide Occupies;
    if k < i {
      OffsetFrom(lines, k + 1, i);
      OccupiesLater(TextFrom(lines, k + 1), Offset(lines, i) - Offset(lines, k + 1), lines[i], lines[k]);
    } else {
      OccupiesFirst(lines[k], if k + 1 < |lines| then TextFrom(lines, k + 1) else "");
    }
  }

  /** A match within a line is one in the whole text. */
  lemma LineMatchIsTextMatch(cls: Classes, text: string, at: nat, line: string, p: nat)
    requires cls.Valid() && Occupies(text, at, line) && FnAt(cls, line, p).Some?
    ensures var (name, end) := FnAt(cls, line, p).value; FnAt(cls, text, at + p) == Some((name, at + end))
  {
    hide FnAt;
    var end := FnAt(cls, line, p).value.1;
    var name := FnAtMeans(cls, line, p);
    assert IsFn(cls, text, at + p, at + name, at + end);
    FnAtIs(cls, text, at + p, at + name, at + end);
    assert text[at + name..at + end] == line[name..end];
  }

  lemma LineOccupies(lines: seq<string>, i: nat)
    requires i < |lines|
    ensures Occupies(TextFrom(lines, 0), Offset(lines, i), lines[i])
  {
    hide TextFrom, Occupies;
    OffsetFrom(lines, 0, i);
  }

  // ---- declaration sites ----

  /** The pattern's match on line k declares the name. */
  ghost predicate DeclaresOn(cls: Classes, lines: seq<string>, k: nat, name: string)
    requires k < |lines|
  {
    exists site :: site in FindAll(cls, TextFrom(lines, 0), 0) && site.name == name
                   && Offset(lines, k) <= site.at <= Offset(lines, k) + |lines[k]|
  }

  /** The file's share of `declared[name]`: lines, not matches, are counted. */
  ghost function DeclaredIn(cls: Classes, lines: seq<string>, name: string): set<nat> {
    set k: nat | k < |lines| && DeclaresOn(cls, lines, k, name)
  }

  /** The files and lines on which a name is declared. */
  ghost function DeclaredSites(cls: Classes, files: seq<seq<string>>, name: string): set<(nat, nat)> {
    set f: nat, k: nat | f < |files| && k in DeclaredIn(cls, files[f], name) :: (f, k)
  }

  /** Some `fn` on line k names it, with an even number of `fn` directly before. */
  ghost predicate NamesOn(cls: Classes, lines: seq<string>, k: nat, name: string)
    requires k < |lines|
  {
    var text := TextFrom(lines, 0);
    exists p: nat :: p < |text| && Offset(lines, k) <= p <= Offset(lines, k) + |lines[k]|
                     && NamesAt(cls, text, p, name)
  }

  ghost predicate NamesAt(cls: Classes, text: string, p: nat, name: string) {
    FnAt(cls, text, p).Some? && FnAt(cls, text, p).value.0 == name && FnsBefore(cls, text, p) % 2 == 0
  }

  lemma DeclaresIffNames(cls: Classes, lines: seq<string>, k: nat, name: string)
    requires cls.Valid() && k < |lines|
    ensures DeclaresOn(cls, lines, k, name) <==> NamesOn(cls, lines, k, name)
  {
    hide FnAt, FindAll, TextFrom, Offset, FnsBefore;
    var text := TextFrom(lines, 0);
    SitesAreMatches(cls, text, 0);
    if DeclaresOn(cls, lines, k, name) {
      var site :| site in FindAll(cls, text, 0) && site.name == name
                  && Offset(lines, k) <= site.at <= Offset(lines, k) + |lines[k]|;
      MatchIsWithin(cls, text, site.at);
      FoundIffEven(cls, text, site.at);
      assert NamesAt(cls, text, site.at, name);
    }
    if NamesOn(cls, lines, k, name) {
      var p: nat :| p < |text| && Offset(lines, k) <= p <= Offset(lines, k) + |lines[k]| && NamesAt(cls, text, p, name);
      FoundIffEven(cls, text, p);
    }
  }

  lemma MatchIsWithin(cls: Classes, s: string, i: nat)
    requires FnAt(cls, s, i).Some?
    ensures i < |s|
  {
  }

  /** The files and lines on which a name is declared, read off the text. */
  ghost function NamedSites(cls: Classes, files: seq<seq<string>>, name: string): set<(nat, nat)> {
    set f: nat, k: nat | f < |files| && k < |files[f]| && NamesOn(cls, files[f], k, name) :: (f, k)
  }

  /** Main result: a name's recorded declarations are the lines on which an `fn` with an even number
      of `fn` directly before it names it. */
  lemma DeclaredIsNamed(cls: Classes, files: seq<seq<string>>, name: string)
    requires cls.Valid()
    ensures DeclaredSites(cls, files, name) == NamedSites(cls, files, name)
  {
    hide DeclaresOn, NamesOn;
    forall f: nat, k: nat | f < |files| && k < |files[f]|
      ensures DeclaresOn(cls, files[f], k, name) <==> NamesOn(cls, files[f], k, name)
    {
      DeclaresIffNames(cls, files[f], k, name);
    }
  }

  /** What the header pattern has in common with the declaration pattern. */
  ghost predicate SeesFn(cls: Classes, header: Header) {
    forall line, name :: header(line) == Some(name) ==>
      exists p: nat :: p < |line| && FnAt(cls, line, p).Some? && FnAt(cls, line, p).value.0 == name
  }

  /** No `fn` is followed by another `fn` as its name. */
  ghost predicate NoFnNamedFn(cls: Classes, lines: seq<string>) {
    forall site :: site in FindAll(cls, TextFrom(lines, 0), 0) ==> site.name != "fn"
  }

  lemma HeaderDeclares(cls: Classes, header: Header, lines: seq<string>, i: nat, name: string)
    requires cls.Valid() && SeesFn(cls, header) && NoFnNamedFn(cls, lines)
    requires i < |lines| && header(lines[i]) == Some(name)
    ensures i in DeclaredIn(cls, lines, name)
  {
    hide FnAt, FindAll, TextFrom, Offset, Occupies, Classes.Valid;
    var p: nat :| p < |lines[i]| && FnAt(cls, lines[i], p).Some? && FnAt(cls, lines[i], p).value.0 == name;
    var text, at := TextFrom(lines, 0), Offset(lines, i);
    LineOccupies(lines, i);
    LineMatchIsTextMatch(cls, text, at, lines[i], p);
    assert at + p < |text| by { OccupiesWithin(text, at, lines[i]); }
    FoundIff(cls, text, 0, at + p);
    assert Site(at + p, name) in FindAll(cls, text, 0);
    assert DeclaresOn(cls, lines, i, name);
  }

  lemma OccupiesWithin(text: string, at: nat, line: string)
    requires Occupies(text, at, line)
    ensures at + |line| <= |text|
  {
  }

  lemma {:induction false} SpansAscend(lines: seq<string>, header: Header, i: nat, a: nat, b: nat)
    requires a < b < |SpansFrom(lines, header, i)|
    ensures SpansFrom(lines, header, i)[a].firstLine < SpansFrom(lines, header, i)[b].firstLine
    decreases |lines| - i
  {
    hide ScanFrom;
    if header(lines[i]) == None {
      SpansAscend(lines, header, i + 1, a, b);
    } else {
      var next := ScanFrom(lines, i, i, 0, false).line + 1;
      if a > 0 {
        SpansAscend(lines, header, next, a - 1, b - 1);
      } else {
        SpansStartLater(lines, header, next, b - 1);
      }
    }
  }

  lemma TwoMembers<T>(s: set<T>, x: T, y: T)
    requires x in s && y in s && x != y
    ensures |s| >= 2
  {
    assert |{x, y}| == 2 && {x, y} <= s;
    assert |s| == |{x, y}| + |s - {x, y}|;
  }

  /** Main result: two function spans with one name have two declaration sites, in one file or
      in two, as long as no declaration is itself named `fn`: the sweep never resolves a name
      that stands for two functions. */
  lemma SharedNameIsDeclaredTwice(cls: Classes, header: Header, files: seq<seq<string>>, f: nat, a: nat, g: nat, b: nat)
    requires cls.Valid() && SeesFn(cls, header) && f <= g < |files| && (f == g ==> a < b)
    requires NoFnNamedFn(cls, files[f]) && NoFnNamedFn(cls, files[g])
    requires a < |SpansFrom(files[f], header, 0)| && b < |SpansFrom(files[g], header, 0)|
    requires SpansFrom(files[f], header, 0)[a].name == SpansFrom(files[g], header, 0)[b].name
    ensures |DeclaredSites(cls, files, SpansFrom(files[f], header, 0)[a].name)| >= 2
  {
    hide DeclaredIn, NoFnNamedFn, SeesFn;
    var s, t := SpansFrom(files[f], header, 0)[a], SpansFrom(files[g], header, 0)[b];
    SpansStartLater(files[f], header, 0, a);
    SpansStartLater(files[g], header, 0, b);
    HeaderDeclares(cls, header, files[f], s.firstLine, s.name);
    HeaderDeclares(cls, header, files[g], t.firstLine, s.name);
    if f == g {
      SpansAscend(files[f], header, 0, a, b);
    }
    TwoMembers(DeclaredSites(cls, files, s.name), (f, s.firstLine), (g, t.firstLine));
  }

  // ---- where a declaration is lost ----

  lemma NoMatchSkips(cls: Classes, s: string, i: nat, j: nat)
    requires i <= j <= |s| && forall k :: i <= k < j ==> s[k] != 'f'
    ensures FindAll(cls, s, i) == FindAll(cls, s, j)
    decreases j - i
  {
    if i < j { NoMatchSkips(cls, s, i + 1, j); }
  }

  const LONE_FN: string := "fn\nfn a{}\nfn a{}"

  /** The characters of LONE_FN, one by one. */
  predicate IsLoneFn(s: string) {
    && |s| == 16
    && s[0] == 'f' && s[1] == 'n' && s[2] == '\n'
    && s[3] == 'f' && s[4] == 'n' && s[5] == ' ' && s[6] == 'a' && s[7] == '{' && s[8] == '}' && s[9] == '\n'
    && s[10] == 'f' && s[11] == 'n' && s[12] == ' ' && s[13] == 'a' && s[14] == '{' && s[15] == '}'
  }

  lemma LoneMatches(cls: Classes, s: string)
    requires IsLoneFn(s) && cls.Valid() && cls.word('a') && !cls.word('{') && cls.space(' ')
    ensures FnAt(cls, s, 0) == Some(("fn", 5))
    ensures FnAt(cls, s, 3) == Some(("a", 7))
    ensures FnAt(cls, s, 10) == Some(("a", 14))
  {
    hide FnAt;
    FnAtIs(cls, s, 0, 3, 5);
    FnAtIs(cls, s, 3, 6, 7);
    FnAtIs(cls, s, 10, 13, 14);
    assert s[3..5] == "fn" && s[6..7] == "a" && s[13..14] == "a";
  }

  lemma LoneSites(cls: Classes, s: string)
    requires IsLoneFn(s) && cls.Valid() && cls.word('a') && !cls.word('{') && cls.space(' ')
    ensures FindAll(cls, s, 0) == [Site(0, "fn"), Site(10, "a")]
  {
    hide FnAt;
    LoneMatches(cls, s);
    NoMatchSkips(cls, s, 5, 10);
    NoMatchSkips(cls, s, 14, 16);
  }

  /** A lone `fn` at the end of a line takes the next header's `fn` for its name: both functions
      are named a, but only the second is recorded as a declaration of a. */
  lemma LoneFnHidesDeclaration(cls: Classes)
    requires cls.Valid() && cls.word('a') && !cls.word('{') && cls.space(' ')
    ensures FindAll(cls, LONE_FN, 0) == [Site(0, "fn"), Site(10, "a")]
    ensures FnAt(cls, LONE_FN, 3) == Some(("a", 7))
  {
    hide FnAt, FindAll;
    assert IsLoneFn(LONE_FN);
    LoneMatches(cls, LONE_FN);
    LoneSites(cls, LONE_FN);
  }
}
