/**
 The line-level rewrite of Cargo.lock in scripts/validate-release-candidate.py
 (`_expected_lock_transform`, up to the TOML cross-checks).

 `Bumped` says row by row what the result is; `Acceptable` says when there is one.
 */
module LockTransform {
  import opened Wrappers
  import opened Strings

  const WORKSPACE_LOCK_PACKAGES: set<string> := {
    "wenlan", "wenlan-app", "wenlan-core", "wenlan-mcp", "wenlan-server", "wenlan-types" }
  const HEADER := "[[package]]"
  const NAME := "name = \""
  const SOURCE := "source = "

  function VersionLine(version: string): (line: string)
    ensures line != "" && line[0] == 'v'
  {
    "version = \"" + version + "\""
  }

  predicate OpensSection(line: string) {
    StartsWith(line, "[")
  }

  function NameOn(line: string): Option<string> {
    if StartsWith(line, NAME) && EndsWith(line, "\"") then
      Some(if |line| <= |NAME| then "" else line[|NAME|..|line| - 1])
    else None
  }

  // ---- stanzas ----

  /** The first line from i on that opens a section, or the end. */
  function SectionEnd(lines: seq<string>, i: nat): (e: nat)
    requires i <= |lines|
    ensures i <= e <= |lines|
    ensures forall k :: i <= k < e ==> !OpensSection(lines[k])
    ensures e < |lines| ==> OpensSection(lines[e])
    decreases |lines| - i
  {
    if i == |lines| || OpensSection(lines[i]) then i else SectionEnd(lines, i + 1)
  }

  /** The last line before r that opens a section, -1 if there is none. */
  function SectionStart(lines: seq<string>, r: nat): (h: int)
    requires r <= |lines|
    ensures -1 <= h < r
    ensures h >= 0 ==> OpensSection(lines[h])
    ensures forall k :: h < k < r ==> !OpensSection(lines[k])
  {
    if r == 0 then -1 else if OpensSection(lines[r - 1]) then r - 1 else SectionStart(lines, r - 1)
  }

  /** The name given last between lo and hi. */
  function NameIn(lines: seq<string>, lo: nat, hi: nat): Option<string>
    requires lo <= hi <= |lines|
  {
    if lo == hi then None
    else if NameOn(lines[hi - 1]).Some? then NameOn(lines[hi - 1])
    else NameIn(lines, lo, hi - 1)
  }

  predicate SourceIn(lines: seq<string>, lo: nat, hi: nat)
    requires lo <= hi <= |lines|
  {
    exists k :: lo <= k < hi && StartsWith(lines[k], SOURCE)
  }

  function VersionRows(lines: seq<string>, lo: nat, hi: nat, version: string): (rows: seq<nat>)
    requires lo <= hi <= |lines|
    ensures forall r: nat :: r in rows <==> lo <= r < hi && lines[r] == VersionLine(version)
    ensures forall i, j :: 0 <= i < j < |rows| ==> rows[i] < rows[j]
  {
    if lo == hi then []
    else
      var earlier := VersionRows(lines, lo, hi - 1, version);
      assert forall i :: 0 <= i < |earlier| ==> earlier[i] in earlier;
      if lines[hi - 1] == VersionLine(version) then earlier + [hi - 1] else earlier
  }

  /** The member whose stanza line h heads: a package stanza without a source key. */
  function MemberAt(lines: seq<string>, h: nat): Option<string>
    requires h < |lines|
  {
    var end := SectionEnd(lines, h + 1);
    var name := NameIn(lines, h + 1, end);
    if lines[h] == HEADER && name.Some? && name.value in WORKSPACE_LOCK_PACKAGES
       && !SourceIn(lines, h + 1, end) then name
    else None
  }

  function RowsAt(lines: seq<string>, h: nat, version: string): seq<nat>
    requires h < |lines|
  {
    VersionRows(lines, h + 1, SectionEnd(lines, h + 1), version)
  }

  function One(lines: seq<string>, h: nat, name: string): nat
    requires h < |lines|
  {
    if MemberAt(lines, h) == Some(name) then 1 else 0
  }

  /** How many of the first n lines head a stanza of this member. */
  function CountMember(lines: seq<string>, name: string, n: nat): nat
    requires n <= |lines|
  {
    if n == 0 then 0 else CountMember(lines, name, n - 1) + One(lines, n - 1, name)
  }

  predicate PinsOnce(lines: seq<string>, h: nat, version: string)
    requires h < |lines|
  {
    MemberAt(lines, h).Some? ==> |RowsAt(lines, h, version)| == 1
  }

  /** Every member has exactly one stanza, which pins the base version exactly once. */
  predicate Acceptable(lines: seq<string>, version: string) {
    && (forall h :: 0 <= h < |lines| ==> PinsOnce(lines, h, version))
    && (forall name :: name in WORKSPACE_LOCK_PACKAGES ==> CountMember(lines, name, |lines|) == 1)
  }

  /** Row r is a base-version line inside a member's stanza. */
  predicate IsMemberRow(lines: seq<string>, r: nat, version: string)
    requires r < |lines|
  {
    && lines[r] == VersionLine(version)
    && SectionStart(lines, r) >= 0
    && MemberAt(lines, SectionStart(lines, r)).Some?
  }

  /** The first n rows rewritten, the rest as they were. */
  function BumpedTo(lines: seq<string>, base: string, target: string, n: nat): (r: seq<string>)
    requires n <= |lines|
    ensures |r| == |lines|
  {
    seq(|lines|, r requires 0 <= r < |lines| =>
          if r < n && IsMemberRow(lines, r, base) then VersionLine(target) else lines[r])
  }

  function Bumped(lines: seq<string>, base: string, target: string): (r: seq<string>)
    ensures |r| == |lines|
  {
    BumpedTo(lines, base, target, |lines|)
  }

  datatype LockError = NotPinnedOnce(name: string) | NotOneStanza(name: string)

  method FindSectionEnd(lines: seq<string>, start: nat) returns (index: nat)
    requires start <= |lines|
    ensures index == SectionEnd(lines, start)
  {
    index := start;
    while index < |lines| && !OpensSection(lines[index])
      invariant start <= index <= |lines| && SectionEnd(lines, start) == SectionEnd(lines, index)
    {
      index := index + 1;
    }
  }

  /** The row loop over one stanza. */
  method ReadStanza(lines: seq<string>, start: nat, end: nat, version: string)
    returns (name: Option<string>, hasSource: bool, versionRows: seq<nat>)
    requires start <= end <= |lines|
    ensures name == NameIn(lines, start, end) && hasSource == SourceIn(lines, start, end)
    ensures versionRows == VersionRows(lines, start, end, version)
  {
    name, hasSource, versionRows := None, false, [];
    for row := start to end
      invariant name == NameIn(lines, start, row)
      invariant hasSource == SourceIn(lines, start, row)
      invariant versionRows == VersionRows(lines, start, row, version)
    {
      var line := lines[row];
      LineKinds(line, version);
      if NameOn(line) != None {
        name := NameOn(line);
      } else if line == VersionLine(version) {
        versionRows := versionRows + [row];
      } else if StartsWith(line, SOURCE) {
        hasSource := true;
      }
    }
  }

  /** A line is a name, a version or a source, never two of them, and none opens a section. */
  lemma LineKinds(line: string, version: string)
    ensures NameOn(line) != None ==> line[0] == 'n'
    ensures StartsWith(line, SOURCE) ==> line[0] == 's'
    ensures OpensSection(line) ==> line[0] == '['
    ensures line == VersionLine(version) ==> NameOn(line) == None && !StartsWith(line, SOURCE) && !OpensSection(line)
  {
  }

  /** Line i is not in the body of a package stanza. */
  predicate OutsideStanza(lines: seq<string>, i: nat)
    requires i <= |lines|
  {
    i < |lines| && !OpensSection(lines[i]) ==> SectionStart(lines, i) < 0 || lines[SectionStart(lines, i)] != HEADER
  }

  /** The first member that was not replaced exactly once, in sorted order. */
  method NotReplacedOnce(replaced: map<string, nat>) returns (missing: Option<string>)
    ensures missing == None ==> forall name :: name in replaced ==> replaced[name] == 1
    ensures missing.Some? ==> missing.value in replaced && replaced[missing.value] != 1
  {
    var names := Sorted(replaced.Keys);
    for i := 0 to |names|
      invariant forall k :: 0 <= k < i ==> replaced[names[k]] == 1
    {
      assert names[i] in names;
      if replaced[names[i]] != 1 {
        return Some(names[i]);
      }
    }
    assert forall name :: name in replaced ==> name in names;
    return None;
  }

  method ExpectedLockTransform(lines: seq<string>, base: string, target: string)
    returns (r: Result<seq<string>, LockError>)
    ensures r.Success? <==> Acceptable(lines, base)
    ensures r.Success? ==> r.value == Bumped(lines, base, target)
  {
    hide MemberAt, IsMemberRow, VersionLine, OpensSection, RowsAt, NameIn, SourceIn, CountMember, BumpedTo,
         OutsideStanza, SectionEnd, WORKSPACE_LOCK_PACKAGES, HEADER;
    var expected := lines;
    var replaced: map<string, nat> := map name | name in WORKSPACE_LOCK_PACKAGES :: 0;
    var index := 0;
    Nothing(lines, base, target);
    while index < |lines|
      invariant 0 <= index <= |lines|
      invariant expected == BumpedTo(lines, base, target, index)
      invariant replaced.Keys == WORKSPACE_LOCK_PACKAGES
      invariant forall name :: name in WORKSPACE_LOCK_PACKAGES ==> replaced[name] == CountMember(lines, name, index)
      invariant forall h :: 0 <= h < index ==> PinsOnce(lines, h, base)
      invariant OutsideStanza(lines, index)
    {
      if lines[index] != HEADER {
        PlainLine(lines, index, base, target);
        index := index + 1;
        continue;
      }
      var head, start := index, index + 1;
      index := FindSectionEnd(lines, start);
      var name, hasSource, versionRows := ReadStanza(lines, start, index, base);
      StanzaIs(lines, head, base, name, hasSource, versionRows);
      StanzaCounts(lines, head, base);
      if name == None || name.value !in WORKSPACE_LOCK_PACKAGES || hasSource {
        StanzaKept(lines, head, base, target);
        continue;
      }
      if |versionRows| != 1 {
        assert !PinsOnce(lines, head, base);
        return Failure(NotPinnedOnce(name.value));
      }
      StanzaBumped(lines, head, base, target);
      expected := expected[versionRows[0] := VersionLine(target)];
      replaced := replaced[name.value := replaced[name.value] + 1];
    }
    var missing := NotReplacedOnce(replaced);
    if missing != None {
      return Failure(NotOneStanza(missing.value));
    }
    return Success(expected);
  }

  // ---- what the loop relies on ----

  lemma Nothing(lines: seq<string>, base: string, target: string)
    ensures BumpedTo(lines, base, target, 0) == lines
    ensures OutsideStanza(lines, 0) && forall name :: CountMember(lines, name, 0) == 0
  {
  }

  lemma HeaderOpens(line: string)
    ensures line == HEADER ==> OpensSection(line)
    ensures forall version :: line == HEADER ==> line != VersionLine(version)
  {
  }

  lemma PlainLine(lines: seq<string>, i: nat, base: string, target: string)
    requires i < |lines| && lines[i] != HEADER && OutsideStanza(lines, i)
    ensures BumpedTo(lines, base, target, i + 1) == BumpedTo(lines, base, target, i)
    ensures forall name :: CountMember(lines, name, i + 1) == CountMember(lines, name, i)
    ensures PinsOnce(lines, i, base) && OutsideStanza(lines, i + 1)
  {
    hide NameIn, SourceIn, VersionLine, OpensSection;
    LineKinds(lines[i], base);
  }

  lemma StanzaIs(lines: seq<string>, head: nat, version: string, name: Option<string>, hasSource: bool, rows: seq<nat>)
    requires head < |lines| && lines[head] == HEADER
    requires var end := SectionEnd(lines, head + 1);
             && name == NameIn(lines, head + 1, end) && hasSource == SourceIn(lines, head + 1, end)
             && rows == VersionRows(lines, head + 1, end, version)
    ensures MemberAt(lines, head)
         == if name == None || name.value !in WORKSPACE_LOCK_PACKAGES || hasSource then None else name
    ensures RowsAt(lines, head, version) == rows
  {
    hide NameIn, SourceIn, VersionRows;
  }

  /** The body of a stanza heads nothing. */
  lemma {:induction false} BodyCounts(lines: seq<string>, head: nat, k: nat, name: string)
    requires head < |lines| && head < k <= SectionEnd(lines, head + 1)
    ensures CountMember(lines, name, k) == CountMember(lines, name, head + 1)
    decreases k
  {
    hide NameIn, SourceIn, OpensSection;
    if k > head + 1 {
      BodyCounts(lines, head, k - 1, name);
      HeaderOpens(lines[k - 1]);
    }
  }

  lemma StanzaCounts(lines: seq<string>, head: nat, version: string)
    requires head < |lines| && lines[head] == HEADER
    ensures var end := SectionEnd(lines, head + 1);
            && (forall name :: CountMember(lines, name, end) == CountMember(lines, name, head) + One(lines, head, name))
            && (forall k :: head < k < end ==> PinsOnce(lines, k, version))
            && OutsideStanza(lines, end)
  {
    hide NameIn, SourceIn, OpensSection, RowsAt;
    var end := SectionEnd(lines, head + 1);
    forall name
      ensures CountMember(lines, name, end) == CountMember(lines, name, head) + One(lines, head, name)
    {
      BodyCounts(lines, head, end, name);
    }
    forall k | head < k < end
      ensures PinsOnce(lines, k, version)
    {
      HeaderOpens(lines[k]);
    }
  }

  lemma BodyStartsAt(lines: seq<string>, head: nat, r: nat)
    requires head < |lines| && head < r < SectionEnd(lines, head + 1) && OpensSection(lines[head])
    ensures SectionStart(lines, r) == head
  {
    hide OpensSection;
  }

  /** Within a stanza the member rows are its version lines, if it is a member's. */
  lemma StanzaRows(lines: seq<string>, head: nat, r: nat, version: string)
    requires head < |lines| && head <= r < SectionEnd(lines, head + 1) && lines[head] == HEADER
    ensures IsMemberRow(lines, r, version) <==> MemberAt(lines, head).Some? && r in RowsAt(lines, head, version)
  {
    hide MemberAt, VersionLine, OpensSection;
    HeaderOpens(lines[head]);
    if head < r {
      BodyStartsAt(lines, head, r);
    }
  }

  lemma StanzaKept(lines: seq<string>, head: nat, base: string, target: string)
    requires head < |lines| && lines[head] == HEADER && MemberAt(lines, head) == None
    ensures BumpedTo(lines, base, target, SectionEnd(lines, head + 1)) == BumpedTo(lines, base, target, head)
  {
    hide MemberAt, IsMemberRow, VersionLine;
    forall r | head <= r < SectionEnd(lines, head + 1)
      ensures !IsMemberRow(lines, r, base)
    {
      StanzaRows(lines, head, r, base);
    }
  }

  lemma StanzaBumped(lines: seq<string>, head: nat, base: string, target: string)
    requires head < |lines| && lines[head] == HEADER && MemberAt(lines, head).Some?
    requires |RowsAt(lines, head, base)| == 1
    ensures var row := RowsAt(lines, head, base)[0];
            && row < |lines|
            && BumpedTo(lines, base, target, SectionEnd(lines, head + 1))
                == BumpedTo(lines, base, target, head)[row := VersionLine(target)]
  {
    hide MemberAt, IsMemberRow, VersionLine;
    var row := RowsAt(lines, head, base)[0];
    assert row in RowsAt(lines, head, base);
    forall r | head <= r < SectionEnd(lines, head + 1)
      ensures IsMemberRow(lines, r, base) <==> r == row
    {
      StanzaRows(lines, head, r, base);
    }
  }

  // ---- exactly one line per member ----

  /** Row r is the one base-version line of the stanza of this member. */
  ghost predicate IsRowOf(lines: seq<string>, base: string, name: string, r: nat) {
    exists h: nat :: h < |lines| && MemberAt(lines, h) == Some(name) && RowsAt(lines, h, base) == [r]
  }

  lemma {:induction false} CountFinds(lines: seq<string>, name: string, n: nat)
    requires n <= |lines|
    ensures CountMember(lines, name, n) > 0 <==> exists h: nat :: h < n && MemberAt(lines, h) == Some(name)
  {
    hide MemberAt;
    if n > 0 {
      CountFinds(lines, name, n - 1);
    }
  }

  lemma {:induction false} CountOnce(lines: seq<string>, name: string, n: nat, g: nat, h: nat)
    requires g < h < n <= |lines| && MemberAt(lines, g) == Some(name) == MemberAt(lines, h)
    ensures CountMember(lines, name, n) >= 2
  {
    hide MemberAt;
    if h < n - 1 {
      CountOnce(lines, name, n - 1, g, h);
    } else {
      CountFinds(lines, name, n - 1);
    }
  }

  lemma RowsOfHeader(lines: seq<string>, h: nat, r: nat, version: string)
    requires h < |lines| && r in RowsAt(lines, h, version) && MemberAt(lines, h).Some?
    ensures r < |lines| && IsMemberRow(lines, r, version) && SectionStart(lines, r) == h
  {
    hide NameIn, SourceIn, VersionLine;
    HeaderOpens(lines[h]);
    BodyStartsAt(lines, h, r);
  }

  lemma MemberRowHasHeader(lines: seq<string>, r: nat, version: string)
    requires r < |lines| && IsMemberRow(lines, r, version)
    ensures var h := SectionStart(lines, r); 0 <= h < |lines| && r in RowsAt(lines, h, version)
  {
    hide MemberAt, VersionLine, OpensSection;
    LineKinds(lines[r], version);
    var h := SectionStart(lines, r);
    assert SectionEnd(lines, h + 1) > r;
  }

  /** Main result: an accepted lockfile has, for every member, exactly one rewritten row; the rows
      of different members differ; and every other line is kept. */
  lemma OneRowPerMember(lines: seq<string>, base: string, target: string)
    requires Acceptable(lines, base)
    ensures forall name :: name in WORKSPACE_LOCK_PACKAGES ==> exists r :: IsRowOf(lines, base, name, r)
    ensures forall name, r, s :: IsRowOf(lines, base, name, r) && IsRowOf(lines, base, name, s) ==> r == s
    ensures forall name, other, r :: IsRowOf(lines, base, name, r) && IsRowOf(lines, base, other, r) ==> name == other
    ensures forall r: nat :: r < |lines| ==>
              if exists name :: name in WORKSPACE_LOCK_PACKAGES && IsRowOf(lines, base, name, r)
              then lines[r] == VersionLine(base) && Bumped(lines, base, target)[r] == VersionLine(target)
              else Bumped(lines, base, target)[r] == lines[r]
  {
    hide MemberAt, IsMemberRow, RowsAt, VersionLine, CountMember;
    forall name | name in WORKSPACE_LOCK_PACKAGES
      ensures exists r :: IsRowOf(lines, base, name, r)
    {
      CountFinds(lines, name, |lines|);
      var h: nat :| h < |lines| && MemberAt(lines, h) == Some(name);
      assert PinsOnce(lines, h, base);
      assert RowsAt(lines, h, base) == [RowsAt(lines, h, base)[0]];
      assert IsRowOf(lines, base, name, RowsAt(lines, h, base)[0]);
    }
    forall name, r, s | IsRowOf(lines, base, name, r) && IsRowOf(lines, base, name, s)
      ensures r == s
    {
      RowIsUnique(lines, base, name, r, s);
    }
    forall name, other, r | IsRowOf(lines, base, name, r) && IsRowOf(lines, base, other, r)
      ensures name == other
    {
      OwnerIsUnique(lines, base, name, other, r);
    }
    forall r: nat | r < |lines|
      ensures IsMemberRow(lines, r, base) <==> exists name ::
                name in WORKSPACE_LOCK_PACKAGES && IsRowOf(lines, base, name, r)
      ensures IsMemberRow(lines, r, base) ==> lines[r] == VersionLine(base)
    {
      MemberRowIff(lines, base, r);
    }
  }

  lemma RowIsUnique(lines: seq<string>, base: string, name: string, r: nat, s: nat)
    requires Acceptable(lines, base) && IsRowOf(lines, base, name, r) && IsRowOf(lines, base, name, s)
    ensures r == s
  {
    hide MemberAt, RowsAt, CountMember;
    var g: nat :| g < |lines| && MemberAt(lines, g) == Some(name) && RowsAt(lines, g, base) == [r];
    var h: nat :| h < |lines| && MemberAt(lines, h) == Some(name) && RowsAt(lines, h, base) == [s];
    assert name in WORKSPACE_LOCK_PACKAGES by { MemberIsKnown(lines, g); }
    if g < h {
      CountOnce(lines, name, |lines|, g, h);
    } else if h < g {
      CountOnce(lines, name, |lines|, h, g);
    }
  }

  lemma MemberIsKnown(lines: seq<string>, h: nat)
    requires h < |lines| && MemberAt(lines, h).Some?
    ensures MemberAt(lines, h).value in WORKSPACE_LOCK_PACKAGES && lines[h] == HEADER
  {
    hide NameIn, SourceIn;
  }

  lemma OwnerIsUnique(lines: seq<string>, base: string, name: string, other: string, r: nat)
    requires IsRowOf(lines, base, name, r) && IsRowOf(lines, base, other, r)
    ensures name == other
  {
    hide MemberAt, RowsAt, IsMemberRow;
    var g: nat :| g < |lines| && MemberAt(lines, g) == Some(name) && RowsAt(lines, g, base) == [r];
    var h: nat :| h < |lines| && MemberAt(lines, h) == Some(other) && RowsAt(lines, h, base) == [r];
    RowsOfHeader(lines, g, r, base);
    RowsOfHeader(lines, h, r, base);
  }

  lemma MemberRowIff(lines: seq<string>, base: string, r: nat)
    requires Acceptable(lines, base) && r < |lines|
    ensures IsMemberRow(lines, r, base) <==> exists name ::
              name in WORKSPACE_LOCK_PACKAGES && IsRowOf(lines, base, name, r)
    ensures IsMemberRow(lines, r, base) ==> lines[r] == VersionLine(base)
  {
    hide MemberAt, RowsAt, CountMember, VersionLine;
    if IsMemberRow(lines, r, base) {
      MemberRowHasHeader(lines, r, base);
      var h := SectionStart(lines, r);
      var name := MemberAt(lines, h).value;
      MemberIsKnown(lines, h);
      assert PinsOnce(lines, h, base);
      assert RowsAt(lines, h, base) == [r];
      assert IsRowOf(lines, base, name, r);
    }
    if name :| name in WORKSPACE_LOCK_PACKAGES && IsRowOf(lines, base, name, r) {
      var h: nat :| h < |lines| && MemberAt(lines, h) == Some(name) && RowsAt(lines, h, base) == [r];
      RowsOfHeader(lines, h, r, base);
    }
  }

  // ---- the way back ----

  /** Two files that differ at most in lines that are neither headers, names nor sources. */
  ghost predicate SameShape(a: seq<string>, b: seq<string>) {
    && |a| == |b|
    && forall k :: 0 <= k < |a| ==>
         && (OpensSection(a[k]) <==> OpensSection(b[k])) && (a[k] == HEADER <==> b[k] == HEADER)
         && NameOn(a[k]) == NameOn(b[k]) && (StartsWith(a[k], SOURCE) <==> StartsWith(b[k], SOURCE))
  }

  lemma BumpKeepsShape(lines: seq<string>, base: string, target: string)
    ensures SameShape(lines, Bumped(lines, base, target))
  {
    hide NameOn, VersionLine, OpensSection, StartsWith, MemberAt;
    var b := Bumped(lines, base, target);
    forall k | 0 <= k < |lines| && b[k] != lines[k]
      ensures lines[k] == VersionLine(base) && b[k] == VersionLine(target)
    {
    }
    VersionShape(base);
    VersionShape(target);
  }

  lemma VersionShape(version: string)
    ensures var line := VersionLine(version);
            !OpensSection(line) && line != HEADER && NameOn(line) == None && !StartsWith(line, SOURCE)
  {
    LineKinds(VersionLine(version), version);
  }

  lemma {:induction false} SameSections(a: seq<string>, b: seq<string>, i: nat)
    requires SameShape(a, b) && i <= |a|
    ensures SectionEnd(a, i) == SectionEnd(b, i) && SectionStart(a, i) == SectionStart(b, i)
  {
    hide OpensSection, NameOn, StartsWith;
  }

  lemma {:induction false} SameNames(a: seq<string>, b: seq<string>, lo: nat, hi: nat)
    requires SameShape(a, b) && lo <= hi <= |a|
    ensures NameIn(a, lo, hi) == NameIn(b, lo, hi) && SourceIn(a, lo, hi) == SourceIn(b, lo, hi)
  {
    hide OpensSection, NameOn, StartsWith;
    if lo < hi {
      SameNames(a, b, lo, hi - 1);
    }
  }

  lemma SameMember(a: seq<string>, b: seq<string>, h: nat)
    requires SameShape(a, b) && h < |a|
    ensures MemberAt(a, h) == MemberAt(b, h)
  {
    hide OpensSection, NameOn, NameIn, SourceIn;
    SameSections(a, b, h + 1);
    SameNames(a, b, h + 1, SectionEnd(a, h + 1));
  }

  lemma {:induction false} SameCount(a: seq<string>, b: seq<string>, name: string, n: nat)
    requires SameShape(a, b) && n <= |a|
    ensures CountMember(a, name, n) == CountMember(b, name, n)
  {
    hide MemberAt, SameShape;
    if n > 0 {
      SameCount(a, b, name, n - 1);
      ShapeSize(a, b);
      SameMember(a, b, n - 1);
    }
  }

  lemma ShapeSize(a: seq<string>, b: seq<string>)
    requires SameShape(a, b)
    ensures |a| == |b|
  {
  }

  lemma {:induction false} SameRows(a: seq<string>, v: string, b: seq<string>, w: string, lo: nat, hi: nat)
    requires lo <= hi <= |a| == |b|
    requires forall r :: lo <= r < hi ==> (a[r] == VersionLine(v) <==> b[r] == VersionLine(w))
    ensures VersionRows(a, lo, hi, v) == VersionRows(b, lo, hi, w)
  {
    hide VersionLine;
    if lo < hi {
      SameRows(a, v, b, w, lo, hi - 1);
    }
  }

  /** No member's stanza has a target-version line beside its base-version line. */
  ghost predicate NoStrayTarget(lines: seq<string>, base: string, target: string) {
    forall h: nat, r: nat ::
      h < |lines| && MemberAt(lines, h).Some? && r in RowsAt(lines, h, target) ==> r in RowsAt(lines, h, base)
  }

  /** What a member's stanza looks like after the bump. */
  lemma BumpedStanza(lines: seq<string>, base: string, target: string, h: nat, r: nat)
    requires h < |lines| && MemberAt(lines, h).Some?
    requires h < r < SectionEnd(lines, h + 1)
    ensures Bumped(lines, base, target)[r] == if lines[r] == VersionLine(base) then VersionLine(target) else lines[r]
  {
    hide MemberAt, VersionLine;
    MemberIsKnown(lines, h);
    StanzaRows(lines, h, r, base);
  }

  lemma BumpedRows(lines: seq<string>, base: string, target: string, h: nat)
    requires h < |lines| && MemberAt(lines, h).Some? && NoStrayTarget(lines, base, target)
    ensures RowsAt(Bumped(lines, base, target), h, target) == RowsAt(lines, h, base)
  {
    hide MemberAt, VersionLine, Bumped;
    var b, end := Bumped(lines, base, target), SectionEnd(lines, h + 1);
    BumpKeepsShape(lines, base, target);
    SameSections(lines, b, h + 1);
    forall r | h + 1 <= r < end
      ensures b[r] == VersionLine(target) <==> lines[r] == VersionLine(base)
    {
      BumpedStanza(lines, base, target, h, r);
      if lines[r] == VersionLine(target) {
        assert r in RowsAt(lines, h, target);
      }
    }
    SameRows(b, target, lines, base, h + 1, end);
  }

  lemma BumpedIsAcceptable(lines: seq<string>, base: string, target: string)
    requires Acceptable(lines, base) && NoStrayTarget(lines, base, target)
    ensures Acceptable(Bumped(lines, base, target), target)
  {
    hide MemberAt, RowsAt, CountMember, Bumped, SameShape, NoStrayTarget;
    var b := Bumped(lines, base, target);
    BumpKeepsShape(lines, base, target);
    forall h | 0 <= h < |b|
      ensures PinsOnce(b, h, target)
    {
      SameMember(lines, b, h);
      assert PinsOnce(lines, h, base);
      if MemberAt(lines, h).Some? {
        BumpedRows(lines, base, target, h);
      }
    }
    forall name | name in WORKSPACE_LOCK_PACKAGES
      ensures CountMember(b, name, |b|) == 1
    {
      SameCount(lines, b, name, |lines|);
    }
  }

  lemma BumpedBack(lines: seq<string>, base: string, target: string, r: nat)
    requires r < |lines| && NoStrayTarget(lines, base, target)
    ensures Bumped(Bumped(lines, base, target), target, base)[r] == lines[r]
  {
    hide MemberAt, RowsAt, VersionLine, SameShape, NoStrayTarget;
    var b := Bumped(lines, base, target);
    BumpKeepsShape(lines, base, target);
    SameSections(lines, b, r);
    var h := SectionStart(lines, r);
    if h >= 0 {
      SameMember(lines, b, h);
      if IsMemberRow(b, r, target) {
        BumpedRows(lines, base, target, h);
        MemberRowHasHeader(b, r, target);
        RowsOfHeader(lines, h, r, base);
      }
    }
  }

  /** A row that reads as the target version after the bump: rewritten, or so from the start. */
  lemma TargetRowStays(lines: seq<string>, base: string, target: string, h: nat, r: nat)
    requires h < |lines| && MemberAt(lines, h).Some?
    requires r in RowsAt(lines, h, base) || r in RowsAt(lines, h, target)
    ensures r in RowsAt(Bumped(lines, base, target), h, target)
  {
    hide MemberAt, VersionLine, Bumped, SameShape;
    var b := Bumped(lines, base, target);
    BumpKeepsShape(lines, base, target);
    SameSections(lines, b, h + 1);
    BumpedStanza(lines, base, target, h, r);
  }

  lemma StrayBlocksUndo(lines: seq<string>, base: string, target: string)
    requires Acceptable(lines, base) && !NoStrayTarget(lines, base, target)
    ensures !Acceptable(Bumped(lines, base, target), target)
  {
    hide MemberAt, VersionLine, CountMember, Bumped, RowsAt, SameShape;
    var b := Bumped(lines, base, target);
    var h: nat, r: nat :|
      h < |lines| && MemberAt(lines, h).Some? && r in RowsAt(lines, h, target) && r !in RowsAt(lines, h, base);
    assert PinsOnce(lines, h, base);
    var row := RowsAt(lines, h, base)[0];
    assert row in RowsAt(lines, h, base);
    BumpKeepsShape(lines, base, target);
    SameMember(lines, b, h);
    TargetRowStays(lines, base, target, h, r);
    TargetRowStays(lines, base, target, h, row);
    assert !PinsOnce(b, h, target);
  }

  /** Main result: transforming back with the versions swapped restores the lockfile if and only if
      no member's stanza already had a line with the target version. */
  lemma UndoneIff(lines: seq<string>, base: string, target: string)
    requires Acceptable(lines, base)
    ensures var b := Bumped(lines, base, target);
            (Acceptable(b, target) && Bumped(b, target, base) == lines) <==> NoStrayTarget(lines, base, target)
  {
    hide NoStrayTarget, Acceptable, Bumped;
    if NoStrayTarget(lines, base, target) {
      BumpedIsAcceptable(lines, base, target);
      forall r | 0 <= r < |lines|
        ensures Bumped(Bumped(lines, base, target), target, base)[r] == lines[r]
      {
        BumpedBack(lines, base, target, r);
      }
    } else {
      StrayBlocksUndo(lines, base, target);
    }
  }

  /** Over the text: splitting the joined result gives the rewritten lines back. */
  lemma TextIsLines(text: string, base: string, target: string)
    requires '\n' !in target
    ensures var lines := Split(text, "\n");
            && Join(lines, "\n") == text
            && Split(Join(Bumped(lines, base, target), "\n"), "\n") == Bumped(lines, base, target)
  {
    hide IsMemberRow;
    var lines := Split(text, "\n");
    var b := Bumped(lines, base, target);
    SplitJoin(text, "\n");
    PartsLackSeparator(text, '\n');
    forall i | 0 <= i < |b|
      ensures '\n' !in b[i]
    {
    }
    JoinSplit(b, "\n", 0);
  }
}
