/**
 Function spans and their owners of scripts/m5-reader-sweep.py (`body_spans`, `_line_offsets`,
 `_owner_locators`).

 The header pattern is a parameter: what is proved holds whichever lines it matches.
 */
module FnSpans {
  import opened Wrappers

  const MAX_FN_LINES: nat := 12000

  /** The name a header line declares, None for other lines. */
  type Header = string -> Option<string>

  /** `body_spans` yields these; lines count from 0, `extent` is the pair of character offsets. */
  datatype Span = Span(firstLine: nat, lastLine: nat, name: string, extent: Option<(nat, nat)>)

  // ---- brace scanning ----

  datatype Scanned = ClosedAt(length: nat) | StillOpen(depth: int, started: bool)

  function Delta(c: char): int {
    if c == '{' then 1 else if c == '}' then -1 else 0
  }

  /** Scan s from the given brace depth, up to and including the first brace after which the
      depth is not positive, once a `{` has been seen. */
  function Scan(s: string, depth: int, started: bool): (r: Scanned)
    ensures r.ClosedAt? ==> 1 <= r.length <= |s|
  {
    if s == "" then StillOpen(depth, started)
    else
      var depth' := depth + Delta(s[0]);
      var started' := started || s[0] == '{';
      if started' && depth' <= 0 then ClosedAt(1)
      else
        match Scan(s[1..], depth', started')
        case ClosedAt(n) => ClosedAt(n + 1)
        case StillOpen(d, b) => StillOpen(d, b)
  }

  /** Where a span starting on line i ends: on line j after `column` characters, or never. */
  datatype End = Closed(line: nat, column: nat) | Unclosed(line: nat)

  function ScanFrom(lines: seq<string>, i: nat, j: nat, depth: int, started: bool): (e: End)
    requires i <= j <= |lines|
    ensures j <= e.line <= |lines|
    ensures e.Closed? ==> e.line < |lines| && 1 <= e.column <= |lines[e.line]|
    decreases |lines| - j
  {
    if j == |lines| then Unclosed(j)
    else
      match Scan(lines[j], depth, started)
      case ClosedAt(n) => Closed(j, n)
      case StillOpen(d, b) =>
        if j + 1 - i > MAX_FN_LINES then Unclosed(j + 1) else ScanFrom(lines, i, j + 1, d, b)
  }

  /** The number of characters, line breaks included, before line k. */
  function Offset(lines: seq<string>, k: nat): nat
    requires k <= |lines|
  {
    if k == 0 then 0 else Offset(lines, k - 1) + |lines[k - 1]| + 1
  }

  function SpanAt(lines: seq<string>, i: nat, name: string): Span
    requires i < |lines|
  {
    match ScanFrom(lines, i, i, 0, false)
    case Closed(j, n) => Span(i, j, name, Some((Offset(lines, i), Offset(lines, j) + n)))
    case Unclosed(j) => Span(i, if j < |lines| then j else |lines| - 1, name, None)
  }

  function SpansFrom(lines: seq<string>, header: Header, i: nat): seq<Span>
    decreases |lines| - i
  {
    if i >= |lines| then []
    else
      match header(lines[i])
      case None => SpansFrom(lines, header, i + 1)
      case Some(name) => [SpanAt(lines, i, name)] + SpansFrom(lines, header, ScanFrom(lines, i, i, 0, false).line + 1)
  }

  method LineOffsets(lines: seq<string>) returns (offsets: seq<nat>)
    ensures |offsets| == |lines| && forall k :: 0 <= k < |lines| ==> offsets[k] == Offset(lines, k)
  {
    offsets := [];
    var position := 0;
    for k := 0 to |lines|
      invariant |offsets| == k && position == Offset(lines, k)
      invariant forall l :: 0 <= l < k ==> offsets[l] == Offset(lines, l)
    {
      offsets := offsets + [position];
      position := position + |lines[k]| + 1;
    }
  }

  /** The column loop over one line. */
  method ScanLine(line: string, depth: int, started: bool) returns (closedAt: Option<nat>, depth': int, started': bool)
    ensures match Scan(line, depth, started)
            case ClosedAt(n) => closedAt == Some(n)
            case StillOpen(d, b) => closedAt == None && depth' == d && started' == b
  {
    depth', started' := depth, started;
    for column := 0 to |line|
      invariant match Scan(line[column..], depth', started')
                case ClosedAt(n) => Scan(line, depth, started) == ClosedAt(column + n)
                case StillOpen(d, b) => Scan(line, depth, started) == StillOpen(d, b)
    {
      assert line[column..][1..] == line[column + 1..];
      if line[column] == '{' {
        depth' := depth' + 1;
        started' := true;
      } else if line[column] == '}' {
        depth' := depth' - 1;
      }
      if started' && depth' <= 0 {
        return Some(column + 1), depth', started';
      }
    }
    return None, depth', started';
  }

  /** The line loop from a header line: the line it stops on and the column it closes at. */
  method FindEnd(lines: seq<string>, i: nat) returns (j: nat, closedAt: Option<nat>)
    requires i < |lines|
    ensures ScanFrom(lines, i, i, 0, false) == if closedAt == None then Unclosed(j) else Closed(j, closedAt.value)
  {
    hide Scan;
    j := i;
    var depth, started := 0, false;
    while j < |lines|
      invariant i <= j <= |lines|
      invariant ScanFrom(lines, i, i, 0, false) == ScanFrom(lines, i, j, depth, started)
    {
      closedAt, depth, started := ScanLine(lines[j], depth, started);
      if closedAt != None {
        return;
      }
      j := j + 1;
      if j - i > MAX_FN_LINES {
        return;
      }
    }
    closedAt := None;
  }

  method BodySpans(lines: seq<string>, header: Header) returns (spans: seq<Span>)
    ensures spans == SpansFrom(lines, header, 0)
  {
    hide ScanFrom;
    spans := [];
    var offsets := LineOffsets(lines);
    var i, n := 0, |lines|;
    while i < n
      invariant 0 <= i
      invariant SpansFrom(lines, header, 0) == spans + SpansFrom(lines, header, i)
      decreases n - i
    {
      var m := header(lines[i]);
      if m == None {
        i := i + 1;
        continue;
      }
      var j, closedAt := FindEnd(lines, i);
      var endIndex := if j < n then j else n - 1;
      var extent := if closedAt != None then Some((offsets[i], offsets[endIndex] + closedAt.value)) else None;
      spans := spans + [Span(i, endIndex, m.value, extent)];
      i := j + 1;
    }
  }

  // ---- a closed span is exactly what the braces say ----

  /** The text of the lines from line k on, joined by line breaks. */
  function TextFrom(lines: seq<string>, k: nat): string
    requires k <= |lines|
    decreases |lines| - k
  {
    if k == |lines| then ""
    else if k + 1 == |lines| then lines[k]
    else lines[k] + "\n" + TextFrom(lines, k + 1)
  }

  function Depth(s: string): int {
    if s == "" then 0 else Depth(s[..|s| - 1]) + Delta(s[|s| - 1])
  }

  /** After k characters a `{` has been seen and the depth is not positive. */
  predicate Closing(s: string, k: nat)
    requires k <= |s|
  {
    '{' in s[..k] && Depth(s[..k]) <= 0
  }

  lemma {:induction false} ScanAppend(a: string, b: string, depth: int, started: bool)
    ensures Scan(a + b, depth, started)
         == match Scan(a, depth, started)
            case ClosedAt(n) => ClosedAt(n)
            case StillOpen(d, st) =>
              match Scan(b, d, st)
              case ClosedAt(n) => ClosedAt(|a| + n)
              case StillOpen(d', st') => StillOpen(d', st')
  {
    if a == "" {
      assert a + b == b;
    } else {
      assert (a + b)[1..] == a[1..] + b;
      ScanAppend(a[1..], b, depth + Delta(a[0]), started || a[0] == '{');
    }
  }

  /** Line by line is the same as over the joined text. */
  lemma {:induction false} ScanFromIsTextScan(lines: seq<string>, i: nat, j: nat, depth: int, started: bool)
    requires i <= j <= |lines| && ScanFrom(lines, i, j, depth, started).Closed? && (started ==> depth > 0)
    ensures var e, s := ScanFrom(lines, i, j, depth, started), Scan(TextFrom(lines, j), depth, started);
            s.ClosedAt? && Offset(lines, j) + s.length == Offset(lines, e.line) + e.column
    decreases |lines| - j
  {
    hide Scan;
    var line := lines[j];
    match Scan(line, depth, started) {
      case ClosedAt(n) =>
        if j + 1 < |lines| {
          assert TextFrom(lines, j) == line + ("\n" + TextFrom(lines, j + 1));
          ScanAppend(line, "\n" + TextFrom(lines, j + 1), depth, started);
        }
      case StillOpen(d, b) =>
        StillScanning(line, depth, started);
        ScanFromIsTextScan(lines, i, j + 1, d, b);
        assert TextFrom(lines, j) == line + ("\n" + TextFrom(lines, j + 1));
        ScanAppend(line, "\n" + TextFrom(lines, j + 1), depth, started);
        ScanAppend("\n", TextFrom(lines, j + 1), d, b);
        NewlineIsNeutral(d, b);
    }
  }

  lemma {:induction false} StillScanning(s: string, depth: int, started: bool)
    requires started ==> depth > 0
    ensures var r := Scan(s, depth, started); r.StillOpen? ==> (r.started ==> r.depth > 0)
  {
    if s != "" {
      var depth', started' := depth + Delta(s[0]), started || s[0] == '{';
      if !(started' && depth' <= 0) {
        StillScanning(s[1..], depth', started');
      }
    }
  }

  lemma NewlineIsNeutral(depth: int, started: bool)
    requires started ==> depth > 0
    ensures Scan("\n", depth, started) == StillOpen(depth, started)
  {
    assert "\n"[1..] == "";
  }

  lemma ClosingPrefix(p: string, c: char, t: string)
    ensures Closing(p + [c] + t, |p| + 1) <==> ('{' in p || c == '{') && Depth(p) + Delta(c) <= 0
    ensures Depth(p + [c]) == Depth(p) + Delta(c) && ('{' in p + [c] <==> '{' in p || c == '{')
  {
    assert (p + [c] + t)[..|p| + 1] == p + [c];
    assert (p + [c])[..|p|] == p;
  }

  /** Scanning t after p finds the first closing position of p + t, if it lies beyond p. */
  lemma {:induction false} ScanFindsFirst(p: string, t: string)
    requires forall k :: 0 <= k <= |p| ==> !Closing(p + t, k)
    ensures match Scan(t, Depth(p), '{' in p)
            case ClosedAt(n) => Closing(p + t, |p| + n) && forall k :: 0 <= k < |p| + n ==> !Closing(p + t, k)
            case StillOpen(d, b) =>
              (forall k :: 0 <= k <= |p + t| ==> !Closing(p + t, k)) && d == Depth(p + t) && b == ('{' in p + t)
    decreases |t|
  {
    hide Closing, Delta, Depth;
    if t == "" {
      assert p + t == p;
    } else {
      var p' := p + [t[0]];
      assert p + t == p' + t[1..];
      ClosingPrefix(p, t[0], t[1..]);
      if !Closing(p + t, |p'|) {
        ScanFindsFirst(p', t[1..]);
      }
    }
  }

  lemma NothingCloses(text: string)
    ensures !Closing(text, 0)
  {
  }

  /** Main result: a closed span runs from its header to the first position after which a `{` has
      been seen and as many braces have closed as opened, over the text as a whole. */
  lemma SpanIsFirstClosing(lines: seq<string>, i: nat, name: string)
    requires i < |lines| && SpanAt(lines, i, name).extent.Some?
    ensures var (start, end) := SpanAt(lines, i, name).extent.value;
            var text, n := TextFrom(lines, i), end - start;
            && start == Offset(lines, i) && 1 <= n <= |text|
            && Closing(text, n) && forall k :: 0 <= k < n ==> !Closing(text, k)
  {
    hide Scan, TextFrom, ScanFrom, Closing, Offset;
    ScanFromIsTextScan(lines, i, i, 0, false);
    var text := TextFrom(lines, i);
    assert !Closing(text, 0) by { NothingCloses(text); }
    assert "" + text == text;
    ScanFindsFirst("", text);
  }

  ghost predicate NoBraces(s: string) {
    forall k :: 0 <= k < |s| ==> s[k] != '{' && s[k] != '}'
  }

  lemma {:induction false} NoBracesNoDepth(s: string)
    requires NoBraces(s)
    ensures Depth(s) == 0 && '{' !in s
  {
    if s != "" {
      NoBracesNoDepth(s[..|s| - 1]);
    }
  }

  /** When the first brace after the header opens, the span is the brace-matched body: it ends with
      the `}` that brings the depth back to 0, which is positive until then. */
  lemma FirstBraceOpensMeansMatched(text: string, open: nat, n: nat)
    requires open < |text| && text[open] == '{' && NoBraces(text[..open])
    requires 1 <= n <= |text| && Closing(text, n) && forall k :: 0 <= k < n ==> !Closing(text, k)
    ensures open < n && Depth(text[..n]) == 0 && text[n - 1] == '}'
    ensures forall k :: open < k < n ==> Depth(text[..k]) > 0
  {
    NoBracesNoDepth(text[..open]);
    forall k | 0 <= k <= open
      ensures !Closing(text, k)
    {
      assert forall l :: 0 <= l < k ==> text[..k][l] == text[..open][l];
    }
    assert open < n;
    forall k | open < k < n
      ensures Depth(text[..k]) > 0
    {
      assert text[..k][open] == '{';
      assert !Closing(text, k);
    }
    DepthStep(text, n);
    DepthStep(text, open + 1);
    assert text[..n][open] == '{';
  }

  ghost predicate FirstBraceOpens(text: string) {
    exists open: nat :: open < |text| && text[open] == '{' && NoBraces(text[..open])
  }

  /** The first n characters are a header and its body, opened by the first `{` and closed by
      its own `}` at the very end. */
  ghost predicate Matched(text: string, open: nat, n: int) {
    && open < n <= |text| && text[open] == '{' && '{' !in text[..open]
    && text[n - 1] == '}' && Depth(text[..n]) == 0
    && forall k :: open < k < n ==> Depth(text[..k]) > 0
  }

  ghost predicate IsMatched(text: string, n: int) {
    exists open: nat :: Matched(text, open, n)
  }

  lemma {:induction false} OnlyClosing(s: string)
    requires '{' !in s
    ensures Depth(s) <= 0 && (Depth(s) == 0 ==> NoBraces(s))
  {
    if s != "" {
      OnlyClosing(s[..|s| - 1]);
    }
  }

  lemma MatchedHasNoBraceBefore(text: string, open: nat, n: int)
    requires Matched(text, open, n)
    ensures NoBraces(text[..open])
  {
    OnlyClosing(text[..open]);
    if open + 1 < n {
      DepthStep(text, open + 1);
    }
  }

  /** A closed span is brace-matched text, up to the `}` of its first `{`, if and only if the first
      brace from the start of the header line on opens. */
  lemma SpanIsMatchedIff(lines: seq<string>, i: nat, name: string)
    requires i < |lines| && SpanAt(lines, i, name).extent.Some?
    ensures var (start, end) := SpanAt(lines, i, name).extent.value;
            IsMatched(TextFrom(lines, i), end - start) <==> FirstBraceOpens(TextFrom(lines, i))
  {
    hide SpanAt, TextFrom, ScanFrom, Offset;
    var (start, end) := SpanAt(lines, i, name).extent.value;
    var text, n := TextFrom(lines, i), end - start;
    SpanIsFirstClosing(lines, i, name);
    if FirstBraceOpens(text) {
      var open: nat :| open < |text| && text[open] == '{' && NoBraces(text[..open]);
      FirstBraceOpensMeansMatched(text, open, n);
      assert Matched(text, open, n);
    }
    if IsMatched(text, n) {
      var open: nat :| Matched(text, open, n);
      MatchedHasNoBraceBefore(text, open, n);
    }
  }

  lemma DepthStep(text: string, n: nat)
    requires 1 <= n <= |text|
    ensures Depth(text[..n]) == Depth(text[..n - 1]) + Delta(text[n - 1])
  {
    assert text[..n][..n - 1] == text[..n - 1];
  }

  lemma MisfireScan()
    ensures ScanFrom(["fn f();", "}", "fn g() {"], 0, 0, 0, false) == Closed(2, 8)
  {
    hide Scan;
    var lines := ["fn f();", "}", "fn g() {"];
    QuietLine("fn f();", 0);
    CloseThenOpen();
    assert ScanFrom(lines, 0, 2, -1, false) == Closed(2, 8);
    assert ScanFrom(lines, 0, 1, 0, false) == Closed(2, 8);
  }

  lemma CloseThenOpen()
    ensures Scan("}", 0, false) == StillOpen(-1, false)
    ensures Scan("fn g() {", -1, false) == ClosedAt(8)
  {
    assert "}"[1..] == "";
    assert Scan("{", -1, false) == ClosedAt(1);
    assert "fn g() {" == "fn g() " + "{";
    QuietLine("fn g() ", -1);
    ScanAppend("fn g() ", "{", -1, false);
  }

  /** A header without a body swallows what follows: this span for f runs past g's header to the
      `{` of g, with its depth back at 0 there, and g gets no span. */
  lemma BodylessHeaderMisfires(header: Header)
    requires header("fn f();") == Some("f") && header("}") == None && header("fn g() {") == Some("g")
    ensures SpansFrom(["fn f();", "}", "fn g() {"], header, 0) == [Span(0, 2, "f", Some((0, 18)))]
  {
    hide Scan, ScanFrom;
    var lines := ["fn f();", "}", "fn g() {"];
    MisfireScan();
    assert Offset(lines, 0) == 0 && Offset(lines, 1) == 8 && Offset(lines, 2) == 10;
  }

  lemma {:induction false} QuietLine(s: string, depth: int)
    requires NoBraces(s)
    ensures Scan(s, depth, false) == StillOpen(depth, false)
  {
    if s != "" {
      QuietLine(s[1..], depth);
    }
  }

  // ---- ownership ----

  predicate Within(span: Span, offset: nat) {
    span.extent.Some? && span.extent.value.0 <= offset < span.extent.value.1
  }

  lemma {:induction false} OffsetsGrow(lines: seq<string>, j: nat, k: nat)
    requires j < k <= |lines|
    ensures Offset(lines, j) + |lines[j]| < Offset(lines, k)
  {
    if j + 1 < k {
      OffsetsGrow(lines, j, k - 1);
    }
  }

  lemma {:induction false} SpansStartLater(lines: seq<string>, header: Header, i: nat, b: nat)
    requires b < |SpansFrom(lines, header, i)|
    ensures var s := SpansFrom(lines, header, i)[b];
            && i <= s.firstLine <= s.lastLine < |lines| && s == SpanAt(lines, s.firstLine, s.name)
            && header(lines[s.firstLine]) == Some(s.name)
    decreases |lines| - i
  {
    hide ScanFrom;
    if header(lines[i]) == None {
      SpansStartLater(lines, header, i + 1, b);
    } else if b > 0 {
      SpansStartLater(lines, header, ScanFrom(lines, i, i, 0, false).line + 1, b - 1);
    }
  }

  lemma ClosedSpanEnds(lines: seq<string>, i: nat, name: string, later: nat)
    requires i < |lines| && SpanAt(lines, i, name).extent.Some?
    requires ScanFrom(lines, i, i, 0, false).line < later < |lines|
    ensures var (start, end) := SpanAt(lines, i, name).extent.value; start < end < Offset(lines, later)
  {
    hide Scan, ScanFrom;
    OffsetsGrow(lines, ScanFrom(lines, i, i, 0, false).line, later);
    SpanIsFirstClosing(lines, i, name);
  }

  /** Main result: of two closed spans the earlier one ends strictly before the later one starts. */
  lemma {:induction false} SpansAreDisjoint(lines: seq<string>, header: Header, i: nat, a: nat, b: nat)
    requires a < b < |SpansFrom(lines, header, i)|
    requires SpansFrom(lines, header, i)[a].extent.Some? && SpansFrom(lines, header, i)[b].extent.Some?
    ensures var s, t := SpansFrom(lines, header, i)[a], SpansFrom(lines, header, i)[b];
            s.extent.value.0 < s.extent.value.1 < t.extent.value.0
    decreases |lines| - i
  {
    hide ScanFrom, Scan;
    if header(lines[i]) == None {
      SpansAreDisjoint(lines, header, i + 1, a, b);
    } else {
      var e := ScanFrom(lines, i, i, 0, false);
      var s, t := SpansFrom(lines, header, i)[a], SpansFrom(lines, header, i)[b];
      if a > 0 {
        SpansAreDisjoint(lines, header, e.line + 1, a - 1, b - 1);
      } else {
        SpansStartLater(lines, header, e.line + 1, b - 1);
        ClosedSpanEnds(lines, i, s.name, t.firstLine);
      }
    }
  }

  /** `_owner_locators`, as the indices of the owning spans. */
  function Owners(spans: seq<Span>, offset: nat, n: nat): (r: seq<nat>)
    requires n <= |spans|
    ensures forall k: nat :: k in r <==> k < n && Within(spans[k], offset)
    ensures forall j, k :: 0 <= j < k < |r| ==> r[j] < r[k]
  {
    if n == 0 then []
    else
      var earlier := Owners(spans, offset, n - 1);
      assert forall j :: 0 <= j < |earlier| ==> earlier[j] in earlier;
      if Within(spans[n - 1], offset) then earlier + [n - 1] else earlier
  }

  /** Main result: no offset has two owners, whatever lines match the header pattern. */
  lemma AtMostOneOwner(lines: seq<string>, header: Header, offset: nat)
    ensures var spans := SpansFrom(lines, header, 0);
            |Owners(spans, offset, |spans|)| <= 1
  {
    hide SpansFrom;
    var spans := SpansFrom(lines, header, 0);
    var owners := Owners(spans, offset, |spans|);
    if |owners| > 1 {
      assert owners[0] in owners && owners[1] in owners;
      SpansAreDisjoint(lines, header, 0, owners[0], owners[1]);
      assert false;
    }
  }

  // ---- line recovery ----

  /** `bisect_right`: how many of the ascending offsets are at most x. */
  method BisectRight(offsets: seq<nat>, x: nat) returns (k: nat)
    requires forall i, j :: 0 <= i < j < |offsets| ==> offsets[i] < offsets[j]
    ensures k <= |offsets|
    ensures forall i :: 0 <= i < k ==> offsets[i] <= x
    ensures forall i :: k <= i < |offsets| ==> x < offsets[i]
  {
    var lo, hi := 0, |offsets|;
    while lo < hi
      invariant 0 <= lo <= hi <= |offsets|
      invariant forall i :: 0 <= i < lo ==> offsets[i] <= x
      invariant forall i :: hi <= i < |offsets| ==> x < offsets[i]
    {
      var mid := (lo + hi) / 2;
      if x < offsets[mid] {
        hi := mid;
      } else {
        lo := mid + 1;
      }
    }
    k := lo;
  }

  /** Lines occupy consecutive ranges of offsets, from 0 up. */
  lemma OffsetsAscend(lines: seq<string>)
    ensures Offset(lines, 0) == 0
    ensures forall i, j :: 0 <= i < j <= |lines| ==> Offset(lines, i) + |lines[i]| < Offset(lines, j)
    ensures forall i :: 0 <= i < |lines| ==> Offset(lines, i + 1) == Offset(lines, i) + |lines[i]| + 1
  {
    forall i, j | 0 <= i < j <= |lines|
      ensures Offset(lines, i) + |lines[i]| < Offset(lines, j)
    {
      OffsetsGrow(lines, i, j);
    }
  }

  /** Main result: every character of the file, line breaks included, is reported on its own
      line: the result is the only 1-based line whose characters include it. */
  method LineOf(lines: seq<string>, offset: nat) returns (line: nat)
    requires 0 < |lines| && offset < Offset(lines, |lines|)
    ensures 1 <= line <= |lines|
    ensures Offset(lines, line - 1) <= offset <= Offset(lines, line - 1) + |lines[line - 1]|
    ensures forall k ::
              0 <= k < |lines| && Offset(lines, k) <= offset <= Offset(lines, k) + |lines[k]| ==> k == line - 1
  {
    var offsets := LineOffsets(lines);
    OffsetsAscend(lines);
    hide Offset;
    line := BisectRight(offsets, offset);
    assert offsets[0] == Offset(lines, 0);
    ghost var i := line - 1;
    assert offsets[i] == Offset(lines, i) && Offset(lines, i + 1) == Offset(lines, i) + |lines[i]| + 1;
    assert line < |lines| ==> offsets[line] == Offset(lines, line);
  }
}
