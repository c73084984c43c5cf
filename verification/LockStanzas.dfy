/**
 What the lockfile rewrite of scripts/validate-release-candidate.py (`_expected_lock_transform`)
 accepts and changes, in the text of Cargo.lock: package stanzas, their names, sources and
 version lines, written out.
 */
module LockStanzas {
  import opened Wrappers
  import opened Strings
  import opened LockTransform

  const MEMBERS: set<string> := {
    "wenlan", "wenlan-app", "wenlan-core", "wenlan-mcp", "wenlan-server", "wenlan-types" }

  /** `name = "n"`; the line may also lack its second quote, for the empty name. */
  ghost predicate Names(line: string, n: string) {
    line == "name = \"" + n + "\"" || (line == "name = \"" && n == "")
  }

  ghost predicate Pins(line: string, version: string) {
    line == "version = \"" + version + "\""
  }

  /** The line is no section header. */
  ghost predicate IsBody(line: string) {
    line != "" ==> line[0] != '['
  }

  /** Lines h to e hold one package stanza without a source, and the last name in it is this one. */
  ghost predicate IsStanza(lines: seq<string>, h: nat, e: nat, name: string) {
    && h < e <= |lines| && lines[h] == "[[package]]"
    && (forall k :: h < k < e ==> IsBody(lines[k]) && !("source = " <= lines[k]))
    && (e < |lines| ==> !IsBody(lines[e]))
    && exists k: nat :: h < k && IsLastName(lines, k, e, name)
  }

  /** Line k gives the name, and no line after it, up to e, gives one. */
  ghost predicate IsLastName(lines: seq<string>, k: nat, e: nat, name: string)
    requires e <= |lines|
  {
    k < e && Names(lines[k], name) && forall l, other :: k < l < e ==> !Names(lines[l], other)
  }

  ghost predicate IsMemberStanza(lines: seq<string>, h: nat, e: nat, name: string) {
    name in MEMBERS && IsStanza(lines, h, e, name)
  }

  lemma NameOnIff(line: string, n: string)
    ensures NameOn(line) == Some(n) <==> Names(line, n)
  {
    var front := "name = \"";
    if Names(line, n) && line == front + n + "\"" {
      assert line[|front|..|line| - 1] == n && line[|line| - 1..] == "\"";
    }
    if Names(line, n) && line == front {
      assert front[|front| - 1..] == "\"";
    }
    if NameOn(line) == Some(n) {
      assert line == line[..|line| - 1] + "\"";
      if |line| > |front| {
        assert line == line[..|front|] + line[|front|..|line| - 1] + "\"";
      }
    }
  }

  lemma OpensIff(line: string)
    ensures OpensSection(line) <==> !IsBody(line)
  {
  }

  lemma {:induction false} NameInIff(lines: seq<string>, lo: nat, hi: nat, name: string)
    requires lo <= hi <= |lines|
    ensures NameIn(lines, lo, hi) == Some(name) <==> exists k: nat :: lo <= k && IsLastName(lines, k, hi, name)
    decreases hi - lo
  {
    hide NameOn, Names;
    if lo < hi {
      NameInIff(lines, lo, hi - 1, name);
      var last := lines[hi - 1];
      forall n
        ensures NameOn(last) == Some(n) <==> Names(last, n)
      {
        NameOnIff(last, n);
      }
      if NameOn(last).Some? {
        assert Names(last, NameOn(last).value);
        assert NameOn(last) == Some(name) ==> IsLastName(lines, hi - 1, hi, name);
      } else {
        var m := hi - 1;
        assert forall n :: !Names(last, n);
        if k: nat :| lo <= k && IsLastName(lines, k, hi, name) {
          assert IsLastName(lines, k, m, name);
        }
        if k: nat :| lo <= k && IsLastName(lines, k, m, name) {
          assert IsLastName(lines, k, hi, name);
        }
      }
    }
  }

  lemma EndIs(lines: seq<string>, h: nat, e: nat)
    requires h < e <= |lines| && (forall k :: h < k < e ==> IsBody(lines[k])) && (e < |lines| ==> !IsBody(lines[e]))
    ensures SectionEnd(lines, h + 1) == e
  {
    var f := SectionEnd(lines, h + 1);
    if f < |lines| { OpensIff(lines[f]); }
    if e < |lines| { OpensIff(lines[e]); }
  }

  lemma MemberAtIff(lines: seq<string>, h: nat, name: string)
    requires h < |lines|
    ensures MemberAt(lines, h) == Some(name) <==> IsMemberStanza(lines, h, SectionEnd(lines, h + 1), name)
    ensures forall e: nat :: IsMemberStanza(lines, h, e, name) ==> e == SectionEnd(lines, h + 1)
  {
    hide Names, NameIn, NameOn;
    var end := SectionEnd(lines, h + 1);
    NameInIff(lines, h + 1, end, name);
    assert SourceIn(lines, h + 1, end) <==> exists k :: h < k < end && "source = " <= lines[k];
    forall e: nat | IsMemberStanza(lines, h, e, name)
      ensures e == end
    {
      EndIs(lines, h, e);
    }
  }

  // ---- acceptance ----

  /** Every member stanza pins the version on one line. */
  ghost predicate PinnedOnce(lines: seq<string>, version: string) {
    forall h: nat, e: nat, name :: IsMemberStanza(lines, h, e, name) ==>
      HasOnePin(lines, h, e, version)
  }

  ghost predicate HasOnePin(lines: seq<string>, h: nat, e: nat, version: string)
    requires e <= |lines|
  {
    exists r: nat :: IsThePin(lines, h, e, version, r)
  }

  ghost predicate IsThePin(lines: seq<string>, h: nat, e: nat, version: string, r: nat)
    requires e <= |lines|
  {
    h < r < e && Pins(lines[r], version) && forall s :: h < s < e && Pins(lines[s], version) ==> s == r
  }

  /** Every member has one stanza. */
  ghost predicate EachOnce(lines: seq<string>) {
    forall name :: name in MEMBERS ==>
      exists h: nat, e: nat :: IsMemberStanza(lines, h, e, name)
                     && forall g: nat, f: nat :: IsMemberStanza(lines, g, f, name) ==> g == h
  }

  lemma PinIff(lines: seq<string>, h: nat, version: string)
    requires h < |lines|
    ensures |RowsAt(lines, h, version)| == 1
            <==> HasOnePin(lines, h, SectionEnd(lines, h + 1), version)
  {
    hide SectionEnd;
    var rows, end := RowsAt(lines, h, version), SectionEnd(lines, h + 1);
    assert forall r: nat :: r in rows <==> h < r < end && Pins(lines[r], version);
    if |rows| == 1 {
      assert rows[0] in rows;
      assert IsThePin(lines, h, end, version, rows[0]);
    }
    if r: nat :| IsThePin(lines, h, end, version, r) {
      assert r in rows;
      forall i | 0 <= i < |rows|
        ensures rows[i] == r
      {
        assert rows[i] in rows;
      }
      assert rows[0] == r == rows[|rows| - 1];
    }
  }

  lemma PinnedIff(lines: seq<string>, version: string)
    ensures PinnedOnce(lines, version) <==> forall h :: 0 <= h < |lines| ==> PinsOnce(lines, h, version)
  {
    hide MemberAt, RowsAt, IsMemberStanza, HasOnePin, SectionEnd;
    forall h: nat, name | h < |lines|
      ensures MemberAt(lines, h) == Some(name) <==> IsMemberStanza(lines, h, SectionEnd(lines, h + 1), name)
      ensures forall e: nat :: IsMemberStanza(lines, h, e, name) ==> e == SectionEnd(lines, h + 1)
      ensures |RowsAt(lines, h, version)| == 1
              <==> HasOnePin(lines, h, SectionEnd(lines, h + 1), version)
    {
      MemberAtIff(lines, h, name);
      PinIff(lines, h, version);
    }
    StanzasAreInside(lines);
    if PinnedOnce(lines, version) {
      forall h | 0 <= h < |lines|
        ensures PinsOnce(lines, h, version)
      {
        if MemberAt(lines, h).Some? {
          assert IsMemberStanza(lines, h, SectionEnd(lines, h + 1), MemberAt(lines, h).value);
        }
      }
    }
    if forall h :: 0 <= h < |lines| ==> PinsOnce(lines, h, version) {
      forall h: nat, e: nat, name | IsMemberStanza(lines, h, e, name)
        ensures e <= |lines| && HasOnePin(lines, h, e, version)
      {
        assert MemberAt(lines, h) == Some(name);
        assert PinsOnce(lines, h, version);
      }
    }
  }

  lemma StanzasAreInside(lines: seq<string>)
    ensures forall h: nat, e: nat, name :: IsMemberStanza(lines, h, e, name) ==> h < |lines| && e <= |lines|
  {
  }

  lemma OnceIff(lines: seq<string>, name: string)
    ensures CountMember(lines, name, |lines|) == 1
            <==> exists h: nat, e: nat :: IsMemberStanza(lines, h, e, name)
                                && forall g: nat, f: nat :: IsMemberStanza(lines, g, f, name) ==> g == h
  {
    hide MemberAt, IsMemberStanza, SectionEnd, CountMember;
    StanzasAreInside(lines);
    forall h: nat | h < |lines|
      ensures MemberAt(lines, h) == Some(name) <==> IsMemberStanza(lines, h, SectionEnd(lines, h + 1), name)
      ensures forall e: nat :: IsMemberStanza(lines, h, e, name) ==> e == SectionEnd(lines, h + 1)
    {
      MemberAtIff(lines, h, name);
    }
    CountFinds(lines, name, |lines|);
    if CountMember(lines, name, |lines|) == 1 {
      var h: nat :| h < |lines| && MemberAt(lines, h) == Some(name);
      assert IsMemberStanza(lines, h, SectionEnd(lines, h + 1), name);
      forall g: nat, f: nat | IsMemberStanza(lines, g, f, name)
        ensures g == h
      {
        if g < h { CountOnce(lines, name, |lines|, g, h); }
        if h < g { CountOnce(lines, name, |lines|, h, g); }
      }
    }
    if h: nat, e: nat :| IsMemberStanza(lines, h, e, name) && forall g: nat, f: nat ::
          IsMemberStanza(lines, g, f, name) ==> g == h {
      OnlyOne(lines, name, h);
    }
  }

  lemma OnlyOne(lines: seq<string>, name: string, h: nat)
    requires h < |lines| && MemberAt(lines, h) == Some(name)
    requires forall g: nat :: g < |lines| && MemberAt(lines, g) == Some(name) ==> g == h
    ensures CountMember(lines, name, |lines|) == 1
  {
    CountUpTo(lines, name, h, |lines|);
  }

  lemma {:induction false} CountUpTo(lines: seq<string>, name: string, h: nat, n: nat)
    requires h < |lines| && n <= |lines| && MemberAt(lines, h) == Some(name)
    requires forall g: nat :: g < |lines| && MemberAt(lines, g) == Some(name) ==> g == h
    ensures CountMember(lines, name, n) == if h < n then 1 else 0
  {
    hide MemberAt;
    if n > 0 { CountUpTo(lines, name, h, n - 1); }
  }

  /** Main result: the rewrite succeeds exactly when every workspace member has one package stanza
      without a source, and that stanza pins the base version on exactly one line. */
  lemma AcceptedIff(lines: seq<string>, version: string)
    ensures Acceptable(lines, version) <==> PinnedOnce(lines, version) && EachOnce(lines)
  {
    hide CountMember, PinsOnce, PinnedOnce, IsMemberStanza;
    PinnedIff(lines, version);
    forall name
      ensures CountMember(lines, name, |lines|) == 1
              <==> exists h: nat, e: nat :: IsMemberStanza(lines, h, e, name)
                                  && forall g: nat, f: nat :: IsMemberStanza(lines, g, f, name) ==> g == h
    {
      OnceIff(lines, name);
    }
  }

  // ---- the result ----

  /** Line r pins the version within a member's stanza. */
  ghost predicate IsPin(lines: seq<string>, r: nat, version: string) {
    r < |lines| && Pins(lines[r], version) && exists h: nat, e: nat, name ::
          h < r < e && IsMemberStanza(lines, h, e, name)
  }

  lemma PinsAre(lines: seq<string>, r: nat, version: string)
    requires r < |lines|
    ensures IsMemberRow(lines, r, version) <==> IsPin(lines, r, version)
  {
    hide MemberAt, IsMemberStanza, NameOn, Names;
    if IsMemberRow(lines, r, version) {
      var h := SectionStart(lines, r);
      MemberRowHasHeader(lines, r, version);
      var name := MemberAt(lines, h).value;
      MemberAtIff(lines, h, name);
      assert h < r < SectionEnd(lines, h + 1);
    }
    if IsPin(lines, r, version) {
      var h: nat, e: nat, name :| h < r < e && IsMemberStanza(lines, h, e, name);
      StanzaStarts(lines, h, e, name);
      MemberAtIff(lines, h, name);
      StanzaRows(lines, h, r, version);
    }
  }

  lemma StanzaStarts(lines: seq<string>, h: nat, e: nat, name: string)
    requires IsMemberStanza(lines, h, e, name)
    ensures h < |lines| && lines[h] == HEADER
  {
  }

  /** Main result: exactly the lines that pin the base version within member stanzas change, to lines
      that pin the target version. */
  lemma ResultIs(lines: seq<string>, base: string, target: string, r: nat)
    requires r < |lines|
    ensures |Bumped(lines, base, target)| == |lines|
    ensures IsPin(lines, r, base) ==> Pins(Bumped(lines, base, target)[r], target)
    ensures !IsPin(lines, r, base) ==> Bumped(lines, base, target)[r] == lines[r]
  {
    hide IsMemberRow, IsPin;
    PinsAre(lines, r, base);
  }
}
