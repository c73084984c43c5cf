/**
 What the index of scripts/m5-reader-sweep.py says of each function (`build_index` with
 `body_spans`): its locator, and the text of the file that decides whether it is SQL-bearing.
 The spans are found on the masked lines; the text is cut from the lines themselves.
 */
module FunctionTexts {
  import opened Wrappers
  import opened Strings
  import opened Decimals
  import opened FnSpans
  import opened Declarations
  import opened Headers
  import opened ReaderSweep
  import opened SourceIndex
  import CallIndex

  /** Masking keeps the number of lines and their lengths. */
  ghost predicate SameShape(src: Source) {
    && |src.lines| == |src.structure|
    && forall k :: 0 <= k < |src.lines| ==> |src.lines[k]| == |src.structure[k]|
  }

  lemma {:induction false} OffsetsAgree(src: Source, k: nat)
    requires SameShape(src) && k <= |src.lines|
    ensures Offset(src.lines, k) == Offset(src.structure, k)
  {
    if k > 0 { OffsetsAgree(src, k - 1); }
  }

  // ---- lines and slices ----

  lemma {:induction false} TextFromOffset(lines: seq<string>, i: nat)
    requires i < |lines|
    ensures Offset(lines, i) <= |TextFrom(lines, 0)| && TextFrom(lines, 0)[Offset(lines, i)..] == TextFrom(lines, i)
  {
    if i > 0 {
      TextFromOffset(lines, i - 1);
      var text, line, rest := TextFrom(lines, 0), lines[i - 1], TextFrom(lines, i);
      assert text[Offset(lines, i - 1)..] == line + "\n" + rest;
      assert text[Offset(lines, i)..] == text[Offset(lines, i - 1)..][|line| + 1..];
    }
  }

  /** Joining whole lines and the first n characters of line j. */
  lemma {:induction false} LinesAreSlice(lines: seq<string>, i: nat, j: nat, n: nat)
    requires i <= j < |lines| && n <= |lines[j]|
    ensures Offset(lines, i) <= Offset(lines, j)
    ensures var m := Offset(lines, j) - Offset(lines, i) + n;
            m <= |TextFrom(lines, i)| && Join(lines[i..j] + [lines[j][..n]], "\n") == TextFrom(lines, i)[..m]
    decreases j - i
  {
    var last := [lines[j][..n]];
    if i == j {
      assert lines[i..j] + last == last;
    } else {
      LinesAreSlice(lines, i + 1, j, n);
      assert lines[i..j] + last == [lines[i]] + (lines[i + 1..j] + last);
      assert TextFrom(lines, i) == lines[i] + "\n" + TextFrom(lines, i + 1);
    }
  }

  lemma SliceOfText(lines: seq<string>, i: nat, j: nat, n: nat)
    requires i <= j < |lines| && n <= |lines[j]|
    ensures Offset(lines, i) <= Offset(lines, j) + n <= |TextFrom(lines, 0)|
    ensures Join(lines[i..j] + [lines[j][..n]], "\n") == TextFrom(lines, 0)[Offset(lines, i)..Offset(lines, j) + n]
  {
    hide Join, Offset, TextFrom;
    LinesAreSlice(lines, i, j, n);
    TextFromOffset(lines, i);
    var text, m := TextFrom(lines, 0), Offset(lines, j) - Offset(lines, i) + n;
    assert text[Offset(lines, i)..][..m] == text[Offset(lines, i)..Offset(lines, j) + n];
  }

  // ---- the text of a span ----

  /** The last line of a closed span, and how much of it belongs to the span. */
  lemma ClosedSpanIs(lines: seq<string>, i: nat, name: string) returns (n: nat)
    requires i < |lines| && SpanAt(lines, i, name).extent.Some?
    ensures var s := SpanAt(lines, i, name);
            && i <= s.lastLine < |lines| && 1 <= n <= |lines[s.lastLine]|
            && s.extent == Some((Offset(lines, i), Offset(lines, s.lastLine) + n))
  {
    hide ScanFrom, Offset;
    n := ScanFrom(lines, i, i, 0, false).column;
  }

  lemma ClosedText(cls: Classes, src: Source, k: nat)
    requires SameShape(src) && k < |SpansOf(cls, src)| && SpansOf(cls, src)[k].extent.Some?
    ensures var s := SpansOf(cls, src)[k];
            var (start, end) := s.extent.value;
            start <= end <= |TextFrom(src.lines, 0)| && BodyOf(src, s) == TextFrom(src.lines, 0)[start..end]
  {
    hide SpansFrom, SpanAt, Offset, Join, TextFrom, MatchFn;
    var s := SpansOf(cls, src)[k];
    SpansStartLater(src.structure, FnHeader(cls), 0, k);
    var n := ClosedSpanIs(src.structure, s.firstLine, s.name);
    OffsetsAgree(src, s.firstLine);
    OffsetsAgree(src, s.lastLine);
    SliceOfText(src.lines, s.firstLine, s.lastLine, n);
    var body := src.lines[s.firstLine..s.lastLine + 1];
    assert body[..|body| - 1] == src.lines[s.firstLine..s.lastLine];
    assert body[|body| - 1] == src.lines[s.lastLine];
  }

  lemma OpenText(cls: Classes, src: Source, k: nat)
    requires SameShape(src) && k < |SpansOf(cls, src)| && SpansOf(cls, src)[k].extent == None
    ensures var s := SpansOf(cls, src)[k];
            s.firstLine <= s.lastLine < |src.lines| && BodyOf(src, s)
                == Join(src.lines[s.firstLine..s.lastLine + 1], "\n")
  {
    hide SpansFrom, SpanAt, Offset, Join, MatchFn;
    SpansStartLater(src.structure, FnHeader(cls), 0, k);
  }

  // ---- every function of the index ----

  /** How many spans the first f files have. */
  function SpansBefore(cls: Classes, files: seq<Source>, f: nat): nat
    requires f <= |files|
  {
    if f == 0 then 0
    else SpansBefore(cls, files, f - 1) + |SpansOf(cls, files[f - 1])|
  }

  lemma {:induction false} FunctionsBefore(cls: Classes, bearing: Bearing, files: seq<Source>, f: nat)
    requires f <= |files|
    ensures |AllFunctions(cls, bearing, files, f)| == SpansBefore(cls, files, f)
  {
    hide SpansOf, FunctionAt, FnHeader;
    if f > 0 { FunctionsBefore(cls, bearing, files, f - 1); }
  }

  lemma FunctionsOfAt(cls: Classes, bearing: Bearing, src: Source, a: nat)
    requires a < |SpansOf(cls, src)|
    ensures FunctionsOf(cls, bearing, src)[a] == FunctionAt(cls, bearing, src, a)
  {
    hide SpansOf, FunctionAt;
  }

  lemma {:induction false} FunctionIsAt(cls: Classes, bearing: Bearing, files: seq<Source>, f: nat, a: nat, n: nat)
    requires f < n <= |files| && a < |SpansOf(cls, files[f])|
    ensures var fs, k := AllFunctions(cls, bearing, files, n), SpansBefore(cls, files, f) + a;
            k < |fs| && fs[k] == FunctionAt(cls, bearing, files[f], a)
    decreases n
  {
    hide SpansOf, FunctionAt, FnHeader, FunctionsOf;
    FunctionsBefore(cls, bearing, files, n - 1);
    if f < n - 1 {
      FunctionIsAt(cls, bearing, files, f, a, n - 1);
    } else {
      FunctionsOfAt(cls, bearing, files[f], a);
    }
  }

  /** The spans up to position a, itself included, that have its name. */
  ghost function NamedUpTo(spans: seq<Span>, a: nat, name: string): set<nat> {
    set j: nat | j < |spans| && j <= a && spans[j].name == name
  }

  ghost function NamedBefore(spans: seq<Span>, n: nat, name: string): set<nat> {
    set j: nat | j < |spans| && j < n && spans[j].name == name
  }

  lemma {:induction false} CountIsNumber(spans: seq<Span>, name: string, n: nat)
    requires n <= |spans|
    ensures CountNamed(spans, name, n) == |NamedBefore(spans, n, name)|
  {
    if n > 0 {
      CountIsNumber(spans, name, n - 1);
      assert NamedBefore(spans, n, name)
          == NamedBefore(spans, n - 1, name) + (if spans[n - 1].name == name then {n - 1} else {});
    } else {
      assert NamedBefore(spans, n, name) == {};
    }
  }

  /** `path::name`, with the ordinal of the span where the file has several of the name. */
  ghost function LocatorText(src: Source, spans: seq<Span>, a: nat): string
    requires a < |spans|
  {
    var name := spans[a].name;
    ShortPath(src.path) + "::" + name
    + (if |NamedUpTo(spans, |spans|, name)| > 1 then "#" + Decimal(|NamedUpTo(spans, a, name)|) else "")
  }

  lemma LocatorIs(src: Source, spans: seq<Span>, a: nat)
    requires a < |spans|
    ensures LocatorAt(src, spans, a) == LocatorText(src, spans, a)
  {
    hide Decimal, ShortPath, CountNamed;
    var name := spans[a].name;
    CountIsNumber(spans, name, |spans|);
    CountIsNumber(spans, name, a + 1);
    assert NamedBefore(spans, |spans|, name) == NamedUpTo(spans, |spans|, name);
    assert NamedBefore(spans, a + 1, name) == NamedUpTo(spans, a, name);
  }

  /** Where a file of the walked directories is, without the directory. */
  lemma ShortPaths(rest: string)
    ensures ShortPath("crates/wenlan-core/src/" + rest) == "core/" + rest
    ensures ShortPath("crates/wenlan-server/src/" + rest) == "server/" + rest
    ensures ShortPath("crates/wenlan-cli/src/" + rest) == "cli/" + rest
    ensures ShortPath("crates/wenlan-mcp/src/" + rest) == "mcp/" + rest
  {
    ShortOf(0, rest);
    ShortOf(1, rest);
    ShortOf(2, rest);
    ShortOf(3, rest);
  }

  lemma ShortOf(n: nat, rest: string)
    requires n < |BASES|
    ensures ShortPath(BASES[n].0 + rest) == BASES[n].1 + rest
  {
    hide ShortFrom;
    var path := BASES[n].0 + rest;
    assert path[|BASES[n].0|..] == rest;
    assert StartsWith(path, BASES[n].0);
    assert IsSwept(path);
    var m := BaseOf(path);
    assert m == n by {
      assert BASES[m].0[14] == path[14] == BASES[n].0[14];
      assert BASES[m].0[15] == path[15] == BASES[n].0[15];
    }
  }

  /** Main result: the functions of the index are the spans of the files, in order. Each has the name
      of its span and the locator made of path, name and ordinal, and it is SQL-bearing if and only
      if the predicate holds of its own text: the characters of the file within a closed span, or
      the lines of one that does not close. */
  lemma FunctionOfSpan(cls: Classes, bearing: Bearing, files: seq<Source>, f: nat, a: nat)
    requires f < |files| && SameShape(files[f])
    requires a < |SpansFrom(files[f].structure, FnHeader(cls), 0)|
    ensures var ix, src, k := IndexOf(cls, bearing, files), files[f], SpansBefore(cls, files, f) + a;
            var spans := SpansFrom(src.structure, FnHeader(cls), 0);
            var s := spans[a];
            && k < ix.Size() && ix.functions[k].fn == s.name && ix.functions[k].locator == LocatorText(src, spans, a)
            && s.firstLine <= s.lastLine < |src.lines|
            && match s.extent
               case Some((start, end)) =>
                 && start <= end <= |TextFrom(src.lines, 0)|
                 && ix.functions[k].bearing == bearing(TextFrom(src.lines, 0)[start..end])
               case None => ix.functions[k].bearing == bearing(Join(src.lines[s.firstLine..s.lastLine + 1], "\n"))
  {
    hide SpansFrom, AllFunctions, BodyOf, LocatorText, LocatorAt, Join, TextFrom, FnHeader, CallIndex.AddFiles,
         CallFiles;
    var src := files[f];
    SpansStartLater(src.structure, FnHeader(cls), 0, a);
    FunctionIsAt(cls, bearing, files, f, a, |files|);
    LocatorIs(src, SpansOf(cls, src), a);
    if SpansOf(cls, src)[a].extent.Some? {
      ClosedText(cls, src, a);
    } else {
      OpenText(cls, src, a);
    }
  }

  /** Position k is that of span a of file f. */
  ghost predicate IsPosition(cls: Classes, files: seq<Source>, k: nat, f: nat, a: nat) {
    f < |files| && a < |SpansFrom(files[f].structure, FnHeader(cls), 0)| && k == SpansBefore(cls, files, f) + a
  }

  /** There are no other functions. */
  lemma FunctionsAreSpans(cls: Classes, bearing: Bearing, files: seq<Source>, k: nat)
    requires k < IndexOf(cls, bearing, files).Size()
    ensures IndexOf(cls, bearing, files).Size() == SpansBefore(cls, files, |files|)
    ensures exists f: nat, a: nat :: IsPosition(cls, files, k, f, a)
  {
    hide SpansFrom, AllFunctions, FunctionAt, FnHeader, CallIndex.AddFiles, CallFiles;
    FunctionsBefore(cls, bearing, files, |files|);
    var f, a := Locate(cls, bearing, files, |files|, k);
    FunctionsBefore(cls, bearing, files, f);
    assert IsPosition(cls, files, k, f, a);
  }
}
