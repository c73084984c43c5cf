/**
 The mask of scripts/m5-reader-sweep.py over a whole text: the lexer moves along a line and
 carries its state over line breaks, which it keeps.
 */
module TextMask {
  import opened Wrappers
  import opened Strings
  import opened RustMask

  function LineEnd(s: string): (n: nat)
    ensures n <= |s| && (forall k :: 0 <= k < n ==> s[k] != '\n') && (n < |s| ==> s[n] == '\n')
  {
    if s == "" || s[0] == '\n' then 0 else 1 + LineEnd(s[1..])
  }

  /** What the lexer looks at: the rest of the line. */
  function Line(s: string): (line: string)
    ensures line <= s && '\n' !in line
    ensures s != "" && s[0] != '\n' ==> line != "" && line[0] == s[0]
  {
    s[..LineEnd(s)]
  }

  /** What is written for the next move: a line break as it is, or what the loop body does. */
  function Next(s: string, st: Lexer): (m: Masked)
    requires s != ""
    ensures 1 <= |m.text| <= |s|
  {
    if s[0] == '\n' then Masked("\n", st)
    else
      var step := Step(Line(s), st);
      Masked(if step.keep then [s[0]] else Spaces(step.length), step.after)
  }

  function Prepend(text: string, m: Masked): Masked {
    Masked(text + m.text, m.after)
  }

  function MaskText(s: string, st: Lexer): (m: Masked)
    ensures |m.text| == |s|
    decreases |s|
  {
    if s == "" then Masked("", st)
    else
      var next := Next(s, st);
      Prepend(next.text, MaskText(s[|next.text|..], next.after))
  }

  // ---- line by line ----

  lemma FirstOfLine(s: string)
    requires s != "" && s[0] != '\n'
    ensures Line(s) == [s[0]] + Line(s[1..])
  {
  }

  lemma LineAfter(s: string, n: nat)
    requires n <= |Line(s)|
    ensures Line(s[n..]) == Line(s)[n..]
    ensures LineEnd(s) == n + LineEnd(s[n..])
    decreases n
  {
    if n > 0 {
      LineAfter(s[1..], n - 1);
      assert s[1..][n - 1..] == s[n..];
      assert Line(s)[n..] == Line(s[1..])[n - 1..];
    } else {
      assert s[0..] == s;
    }
  }

  /** What the line's mask and the text after the line make of a text. */
  function LineThen(m: Masked, s: string): Masked
    requires s != "" ==> s[0] == '\n'
  {
    if s == "" then m else Prepend(m.text, Prepend("\n", MaskText(s[1..], m.after)))
  }

  lemma {:induction false} LineIsMasked(s: string, st: Lexer)
    ensures MaskText(s, st) == LineThen(Mask(Line(s), st), s[LineEnd(s)..])
    decreases |s|
  {
    hide Step, Mask, LineThen;
    if s == "" || s[0] == '\n' {
      assert Line(s) == "" && s[LineEnd(s)..] == s;
      MaskEmpty(st);
      EmptyLineThen(s, st);
    } else {
      var step := Step(Line(s), st);
      MaskStep(Line(s), st);
      LineAfter(s, step.length);
      LineIsMasked(s[step.length..], step.after);
      assert s[step.length..][LineEnd(s[step.length..])..] == s[LineEnd(s)..];
      PrependThen(Next(s, st).text, Mask(Line(s)[step.length..], step.after), s[LineEnd(s)..]);
    }
  }

  lemma EmptyLineThen(s: string, st: Lexer)
    requires s == "" || s[0] == '\n'
    ensures MaskText(s, st) == LineThen(Masked("", st), s)
  {
    if s != "" {
      assert "" + ("\n" + MaskText(s[1..], st).text) == "\n" + MaskText(s[1..], st).text;
    }
  }

  lemma PrependThen(text: string, m: Masked, s: string)
    requires s != "" ==> s[0] == '\n'
    ensures Prepend(text, LineThen(m, s)) == LineThen(Prepend(text, m), s)
  {
    if s != "" {
      var rest := "\n" + MaskText(s[1..], m.after).text;
      assert text + (m.text + rest) == (text + m.text) + rest;
    }
  }

  lemma SplitLine(s: string)
    ensures Find(s, "\n", 0) == LineEnd(s)
  {
    var e, p := LineEnd(s), Find(s, "\n", 0);
    assert p < |s| ==> s[p] == '\n' by { assert p < |s| ==> s[p..][0] == s[p]; }
    assert e < |s| ==> "\n" <= s[e..];
  }

  lemma {:induction false} SplitUnfolds(s: string)
    ensures var e := LineEnd(s);
            Split(s, "\n") == if e == |s| then [s] else [s[..e]] + Split(s[e + 1..], "\n")
  {
    SplitLine(s);
  }

  /** Masking line by line and joining is masking the text. */
  lemma {:induction false} LinesAreText(s: string, st: Lexer)
    ensures Join(MaskLines(Split(s, "\n"), st), "\n") == MaskText(s, st).text
    decreases |s|
  {
    hide Mask, MaskText, Split;
    var line := Line(s);
    LineIsMasked(s, st);
    SplitUnfolds(s);
    var m := Mask(line, st);
    if |line| == |s| {
      assert s[|line|..] == "";
      assert line == s && MaskLines([s], st) == [m.text];
    } else {
      assert s[|line|..][1..] == s[|line| + 1..];
      var rest := s[|line| + 1..];
      LinesAreText(rest, m.after);
      var lines, out := Split(rest, "\n"), MaskLines(Split(rest, "\n"), m.after);
      assert ([line] + lines)[1..] == lines;
      assert MaskLines([line] + lines, st) == [m.text] + out;
      assert out != [] && ([m.text] + out)[1..] == out;
      assert m.text + "\n" + Join(out, "\n") == m.text + ("\n" + Join(out, "\n"));
    }
  }

  // ---- reading the first n characters ----

  /** What the lexer writes for the first n characters and the state it is in after them, if it
      stops there. */
  function Take(s: string, st: Lexer, n: nat): (m: Option<Masked>)
    requires n <= |s|
    ensures m.Some? ==> |m.value.text| == n
    decreases n
  {
    if n == 0 then Some(Masked("", st))
    else
      var next := Next(s, st);
      if |next.text| > n then None
      else PrependTo(next.text, Take(s[|next.text|..], next.after, n - |next.text|))
  }

  function PrependTo(text: string, m: Option<Masked>): Option<Masked> {
    if m.Some? then Some(Prepend(text, m.value)) else None
  }

  lemma Reassociate(a: string, b: string, c: string)
    ensures a + (b + c) == (a + b) + c && "" + a == a
  {
  }

  lemma {:induction false} TakeMore(s: string, st: Lexer, n: nat, k: nat)
    requires n + k <= |s| && Take(s, st, n).Some?
    ensures var m := Take(s, st, n).value;
            Take(s, st, n + k) == PrependTo(m.text, Take(s[n..], m.after, k))
    decreases n
  {
    hide Next;
    if n == 0 {
      assert s[0..] == s;
      if Take(s, st, k).Some? { Reassociate(Take(s, st, k).value.text, "", ""); }
    } else {
      var next := Next(s, st);
      var length := |next.text|;
      TakeMore(s[length..], next.after, n - length, k);
      assert s[length..][n - length..] == s[n..];
      var m := Take(s[length..], next.after, n - length).value;
      var later := Take(s[n..], m.after, k);
      if later.Some? { Reassociate(next.text, m.text, later.value.text); }
    }
  }

  lemma {:induction false} TakeAll(s: string, st: Lexer, n: nat)
    requires n <= |s| && Take(s, st, n).Some?
    ensures var m := Take(s, st, n).value;
            MaskText(s, st) == Prepend(m.text, MaskText(s[n..], m.after))
    decreases n
  {
    hide Next;
    if n == 0 {
      assert s[0..] == s;
      Reassociate(MaskText(s, st).text, "", "");
    } else {
      var next := Next(s, st);
      var length := |next.text|;
      TakeAll(s[length..], next.after, n - length);
      assert s[length..][n - length..] == s[n..];
      var m := Take(s[length..], next.after, n - length).value;
      Reassociate(next.text, m.text, MaskText(s[n..], m.after).text);
    }
  }

  // ---- blanking ----

  /** Everything but line breaks blanked. */
  function BlankOut(s: string): (b: string)
    ensures |b| == |s|
    ensures forall k :: 0 <= k < |s| ==> b[k] == if s[k] == '\n' then '\n' else ' '
  {
    seq(|s|, k requires 0 <= k < |s| => if s[k] == '\n' then '\n' else ' ')
  }

  /** The lexer blanks the first n characters and stops there, in the given state. */
  ghost predicate Skips(s: string, st: Lexer, n: nat, after: Lexer) {
    n <= |s| && Take(s, st, n) == Some(Masked(BlankOut(s[..n]), after))
  }

  lemma SkipsMore(s: string, st: Lexer, n: nat, mid: Lexer, k: nat, after: Lexer)
    requires Skips(s, st, n, mid) && Skips(s[n..], mid, k, after)
    ensures Skips(s, st, n + k, after)
  {
    hide Take;
    TakeMore(s, st, n, k);
    assert s[..n + k] == s[..n] + s[n..][..k];
    assert BlankOut(s[..n + k]) == BlankOut(s[..n]) + BlankOut(s[n..][..k]);
  }

  lemma MoveSkips(s: string, st: Lexer)
    requires s != "" && s[0] != '\n' && !Step(Line(s), st).keep
    ensures Skips(s, st, Step(Line(s), st).length, Step(Line(s), st).after)
  {
    hide Step;
    var step := Step(Line(s), st);
    assert s[..step.length] == Line(s)[..step.length];
    assert BlankOut(s[..step.length]) == Spaces(step.length);
    NextIsTaken(s, st);
  }

  lemma NextIsTaken(s: string, st: Lexer)
    requires s != ""
    ensures Take(s, st, |Next(s, st).text|) == Some(Next(s, st))
  {
    hide Next;
    var next := Next(s, st);
    assert next.text + "" == next.text;
  }

  lemma LineBreakSkips(s: string, st: Lexer)
    requires s != "" && s[0] == '\n'
    ensures Skips(s, st, 1, st)
  {
    NextIsTaken(s, st);
    assert BlankOut(s[..1]) == "\n";
  }
}
