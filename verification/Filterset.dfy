/**
 The workspace filterset of scripts/ci_test_plan.py: printed by `_workspace_lib_plan`, parsed
 back by `local_test_commands_for`, restricted by `build_platform_plan`.
 */
module Filterset {
  import opened Wrappers
  import opened Strings

  /** A whole package, a module of it, or one test of it. */
  datatype Expr =
    | Broad(package: string)
    | Prefix(package: string, prefix: string)
    | Exact(package: string, test: string)

  const SEPARATOR := " | "
  const OPEN := "package("
  const TEST := ") & test(/^"

  /** What follows the package name; it starts with the closing parenthesis. */
  function Tail(e: Expr): (s: string)
    ensures s != "" && s[0] == ')'
  {
    match e
    case Broad(_) => ")"
    case Prefix(_, x) => TEST + (x + "::/)")
    case Exact(_, t) => TEST + (t + "$/)")
  }

  function PrintExpr(e: Expr): string {
    OPEN + (e.package + Tail(e))
  }

  predicate IsAlnum(c: char) {
    'A' <= c <= 'Z' || 'a' <= c <= 'z' || '0' <= c <= '9' || c == '_'
  }

  predicate IsPackageName(s: string) {
    s != "" && forall i :: 0 <= i < |s| ==> IsAlnum(s[i]) || s[i] == '-'
  }

  predicate IsTestPath(s: string) {
    s != "" && forall i :: 0 <= i < |s| ==> IsAlnum(s[i]) || s[i] == ':'
  }

  /** The names the local patterns can read. */
  predicate ValidExpr(e: Expr) {
    && IsPackageName(e.package)
    && (e.Prefix? ==> IsTestPath(e.prefix))
    && (e.Exact? ==> IsTestPath(e.test))
  }

  predicate IsAsciiWord(c: char) {
    48 <= c as int <= 57 || 65 <= c as int <= 90 || 97 <= c as int <= 122 || c as int == 95
  }

  /** The readable names, by ASCII code: words with `-` (45) for packages, with `:` (58) for tests. */
  lemma NamesIff(s: string)
    ensures IsPackageName(s) <==> |s| > 0 && forall c :: c in s ==> IsAsciiWord(c) || c as int == 45
    ensures IsTestPath(s) <==> |s| > 0 && forall c :: c in s ==> IsAsciiWord(c) || c as int == 58
  {
    forall c: char
      ensures IsAlnum(c) <==> IsAsciiWord(c)
      ensures c == '-' <==> c as int == 45
      ensures c == ':' <==> c as int == 58
    {
      assert c == (c as int) as char;
    }
    assert forall i :: 0 <= i < |s| ==> s[i] in s;
  }

  /** How many characters at the front can belong to a package name. */
  function NameRun(s: string): (n: nat)
    ensures n <= |s|
    ensures forall i :: 0 <= i < n ==> IsAlnum(s[i]) || s[i] == '-'
    ensures n < |s| ==> !IsAlnum(s[n]) && s[n] != '-'
  {
    if s != "" && (IsAlnum(s[0]) || s[0] == '-') then 1 + NameRun(s[1..]) else 0
  }

  function ParseTest(package: string, s: string): Option<Expr> {
    if EndsWith(s, "::/)") && IsTestPath(s[..|s| - 4]) then Some(Prefix(package, s[..|s| - 4]))
    else if EndsWith(s, "$/)") && IsTestPath(s[..|s| - 3]) then Some(Exact(package, s[..|s| - 3]))
    else None
  }

  function ParseTail(package: string, rest: string): Option<Expr> {
    if rest == ")" then Some(Broad(package))
    else if StartsWith(rest, TEST) then ParseTest(package, rest[|TEST|..])
    else None
  }

  /** The three patterns matched against one expression. */
  function ParseExpr(s: string): Option<Expr> {
    if !StartsWith(s, OPEN) then None
    else
      var body := s[|OPEN|..];
      var n := NameRun(body);
      if n == 0 then None else ParseTail(body[..n], body[n..])
  }

  lemma ParseTestExact(package: string, s: string, e: Expr)
    ensures ParseTest(package, s) == Some(e)
            <==> e.package == package && match e
                 case Broad(_) => false
                 case Prefix(_, x) => s == x + "::/)" && IsTestPath(x)
                 case Exact(_, t) => s == t + "$/)" && IsTestPath(t)
  {
    if EndsWith(s, "::/)") {
      assert s == s[..|s| - 4] + "::/)";
    }
    if EndsWith(s, "$/)") {
      assert s == s[..|s| - 3] + "$/)";
    }
    match e {
      case Broad(_) =>
      case Prefix(_, x) =>
        if s == x + "::/)" {
          assert s[..|s| - 4] == x && s[|s| - 4..] == "::/)";
        }
      case Exact(_, t) =>
        if s == t + "$/)" {
          assert s[..|s| - 3] == t && s[|s| - 3..] == "$/)";
          assert s[|s| - 3] == '$';
        }
    }
  }

  lemma ParseTailExact(package: string, rest: string, e: Expr)
    ensures ParseTail(package, rest) == Some(e)
            <==> e.package == package && rest == Tail(e)
                 && (e.Prefix? ==> IsTestPath(e.prefix)) && (e.Exact? ==> IsTestPath(e.test))
  {
    hide IsTestPath, ParseTest;
    if StartsWith(rest, TEST) {
      assert rest == TEST + rest[|TEST|..];
      ParseTestExact(package, rest[|TEST|..], e);
    }
    if !e.Broad? && rest == Tail(e) {
      assert rest[|TEST|..] == if e.Prefix? then e.prefix + "::/)" else e.test + "$/)";
    }
  }

  lemma NameEnds(name: string, rest: string)
    requires IsPackageName(name) && rest != "" && rest[0] == ')'
    ensures NameRun(name + rest) == |name| > 0
  {
    var s := name + rest;
    assert s[|name|] == ')';
    assert forall i :: 0 <= i < |name| ==> s[i] == name[i];
  }

  /** An expression is read as e exactly when it is the printed form of e and e's names are
      readable: printing and parsing are inverse to each other. */
  /** The text of an expression in nextest's filterset language. */
  ghost function ExprText(e: Expr): string {
    match e
    case Broad(p) => "package(" + p + ")"
    case Prefix(p, x) => "package(" + p + ") & test(/^" + x + "::/)"
    case Exact(p, t) => "package(" + p + ") & test(/^" + t + "$/)"
  }

  lemma PrintedIsText(e: Expr)
    ensures PrintExpr(e) == ExprText(e)
  {
    match e {
      case Broad(p) =>
      case Prefix(p, x) => assert PrintExpr(e) == "package(" + p + TEST + x + "::/)";
      case Exact(p, t) => assert PrintExpr(e) == "package(" + p + TEST + t + "$/)";
    }
  }

  lemma ParseExprExact(s: string, e: Expr)
    ensures ParseExpr(s) == Some(e) <==> s == ExprText(e) && ValidExpr(e)
    ensures PrintExpr(e) == ExprText(e)
  {
    hide IsTestPath, ParseTail, Tail, NameRun, ExprText;
    PrintedIsText(e);
    if StartsWith(s, OPEN) {
      var body := s[|OPEN|..];
      assert s == OPEN + body;
      var n := NameRun(body);
      assert body == body[..n] + body[n..];
      ParseTailExact(body[..n], body[n..], e);
    }
    if s == PrintExpr(e) && ValidExpr(e) {
      assert s[|OPEN|..] == e.package + Tail(e);
      NameEnds(e.package, Tail(e));
      assert (e.package + Tail(e))[|e.package|..] == Tail(e);
    }
  }

  lemma ReadableHasNoBar(e: Expr)
    requires ValidExpr(e)
    ensures '|' !in PrintExpr(e)
  {
    NamesHaveNoBar(e);
    hide ValidExpr;
    match e {
      case Broad(p) =>
        NoBarJoins(p, ")");
        NoBarJoins(OPEN, p + ")");
      case Prefix(p, x) =>
        NoBarJoins(x, "::/)");
        NoBarJoins(TEST, x + "::/)");
        NoBarJoins(p, TEST + (x + "::/)"));
        NoBarJoins(OPEN, p + (TEST + (x + "::/)")));
      case Exact(p, t) =>
        NoBarJoins(t, "$/)");
        NoBarJoins(TEST, t + "$/)");
        NoBarJoins(p, TEST + (t + "$/)"));
        NoBarJoins(OPEN, p + (TEST + (t + "$/)")));
    }
  }

  lemma NoBarJoins(a: string, b: string)
    requires '|' !in a && '|' !in b
    ensures '|' !in a + b
  {
  }

  lemma NamesHaveNoBar(e: Expr)
    requires ValidExpr(e)
    ensures '|' !in e.package && (e.Prefix? ==> '|' !in e.prefix) && (e.Exact? ==> '|' !in e.test)
  {
  }

  // ---- whole filtersets ----

  function Print(es: seq<Expr>): (texts: seq<string>)
    ensures |texts| == |es| && forall i :: 0 <= i < |es| ==> texts[i] == PrintExpr(es[i])
  {
    if es == [] then [] else [PrintExpr(es[0])] + Print(es[1..])
  }

  function PrintFilterset(es: seq<Expr>): string {
    Join(Print(es), SEPARATOR)
  }

  predicate AllValid(es: seq<Expr>) {
    forall i :: 0 <= i < |es| ==> ValidExpr(es[i])
  }

  function ParseAll(texts: seq<string>): (r: Option<seq<Expr>>)
    ensures r.Some? ==> |r.value| == |texts|
    ensures r.Some? <==> forall i :: 0 <= i < |texts| ==> ParseExpr(texts[i]).Some?
    ensures r.Some? ==> forall i :: 0 <= i < |texts| ==> ParseExpr(texts[i]) == Some(r.value[i])
  {
    if texts == [] then Some([])
    else
      match (ParseExpr(texts[0]), ParseAll(texts[1..]))
      case (Some(e), Some(es)) => Some([e] + es)
      case _ => None
  }

  function ParseFilterset(text: string): Option<seq<Expr>> {
    ParseAll(Split(text, SEPARATOR))
  }

  /** Main result: a printed filterset is read back as the same expressions in the same order. */
  lemma FiltersetRoundTrip(es: seq<Expr>)
    requires es != [] && AllValid(es)
    ensures PrintFilterset(es) == Join(Print(es), " | ")
    ensures Split(PrintFilterset(es), SEPARATOR) == Print(es)
    ensures ParseFilterset(PrintFilterset(es)) == Some(es)
  {
    hide PrintExpr, ParseExpr, ValidExpr;
    forall i | 0 <= i < |es|
      ensures SEPARATOR[1] !in Print(es)[i] && ParseExpr(Print(es)[i]) == Some(es[i])
    {
      ReadableHasNoBar(es[i]);
      ParseExprExact(PrintExpr(es[i]), es[i]);
    }
    JoinSplit(Print(es), SEPARATOR, 1);
    assert ParseAll(Print(es)).value == es;
  }

  /** What is read is always printable: the text is the printed form of what was read. */
  lemma ParsedIsPrinted(text: string, es: seq<Expr>)
    requires ParseFilterset(text) == Some(es)
    ensures text == PrintFilterset(es) && AllValid(es)
  {
    hide PrintExpr, ParseExpr, ValidExpr;
    var texts := Split(text, SEPARATOR);
    forall i | 0 <= i < |es|
      ensures texts[i] == PrintExpr(es[i]) && ValidExpr(es[i])
    {
      ParseExprExact(texts[i], es[i]);
    }
    assert texts == Print(es);
    SplitJoin(text, SEPARATOR);
  }

  // ---- reading back for local runs ----

  datatype Local = Local(broad: set<string>, isolated: seq<(string, string)>, exact: seq<(string, string)>)
  datatype LocalError = NotExecutable | Inconsistent

  function Packages(es: seq<Expr>): set<string> {
    set i | 0 <= i < |es| :: es[i].package
  }

  function BroadOf(es: seq<Expr>): set<string> {
    set i | 0 <= i < |es| && es[i].Broad? :: es[i].package
  }

  function IsolatedOf(es: seq<Expr>): seq<(string, string)> {
    if es == [] then []
    else IsolatedOf(es[..|es| - 1])
         + (if es[|es| - 1].Prefix? then [(es[|es| - 1].package, es[|es| - 1].prefix)] else [])
  }

  function ExactOf(es: seq<Expr>): seq<(string, string)> {
    if es == [] then []
    else ExactOf(es[..|es| - 1])
         + (if es[|es| - 1].Exact? then [(es[|es| - 1].package, es[|es| - 1].test)] else [])
  }

  /** What a local run makes of an expression list: the whole packages, the modules and the tests. */
  lemma {:induction false} LocalPartsExact(es: seq<Expr>, p: string, x: string)
    ensures p in BroadOf(es) <==> Broad(p) in es
    ensures (p, x) in IsolatedOf(es) <==> Prefix(p, x) in es
    ensures (p, x) in ExactOf(es) <==> Exact(p, x) in es
  {
    if es != [] {
      var front, last := es[..|es| - 1], es[|es| - 1];
      LocalPartsExact(front, p, x);
      assert es == front + [last];
    }
    if p in BroadOf(es) {
      var i :| 0 <= i < |es| && es[i].Broad? && es[i].package == p;
      assert es[i] == Broad(p);
    }
  }

  function PairPackages(pairs: seq<(string, string)>): set<string> {
    set i | 0 <= i < |pairs| :: pairs[i].0
  }

  /** The filterset branch of `local_test_commands_for`, up to the commands. */
  method ReadLocal(names: set<string>, text: string) returns (r: Result<Local, LocalError>)
    ensures r == match ParseFilterset(text)
                 case None => Failure(NotExecutable)
                 case Some(es) =>
                   if Packages(es) != names then Failure(Inconsistent)
                   else Success(Local(BroadOf(es), IsolatedOf(es), ExactOf(es)))
  {
    hide ParseExpr, Packages, BroadOf, IsolatedOf, ExactOf, PairPackages, ParseAll;
    NothingSelected();
    var broad: set<string>, isolated: seq<(string, string)>, exact: seq<(string, string)> := {}, [], [];
    var texts := Split(text, SEPARATOR);
    ghost var es: seq<Expr> := [];
    for i := 0 to |texts|
      invariant |es| == i && forall k :: 0 <= k < i ==> ParseExpr(texts[k]) == Some(es[k])
      invariant broad == BroadOf(es) && isolated == IsolatedOf(es) && exact == ExactOf(es)
      invariant Packages(es) == broad + PairPackages(isolated) + PairPackages(exact)
    {
      var expression := ParseExpr(texts[i]);
      match expression {
        case None =>
          UnreadableFails(texts, i);
          return Failure(NotExecutable);
        case Some(e) =>
          Appended(es, e);
          es := es + [e];
          match e {
            case Broad(p) => broad := broad + {p};
            case Prefix(p, x) =>
              PairAppended(isolated, p, x);
              isolated := isolated + [(p, x)];
            case Exact(p, t) =>
              PairAppended(exact, p, t);
              exact := exact + [(p, t)];
          }
      }
    }
    ReadAll(texts, es);
    if broad + PairPackages(isolated) + PairPackages(exact) != names {
      return Failure(Inconsistent);
    }
    return Success(Local(broad, isolated, exact));
  }

  lemma NothingSelected()
    ensures Packages([]) == BroadOf([]) == PairPackages([]) == {} && IsolatedOf([]) == ExactOf([]) == []
  {
  }

  lemma ReadAll(texts: seq<string>, es: seq<Expr>)
    requires |es| == |texts| && forall i :: 0 <= i < |texts| ==> ParseExpr(texts[i]) == Some(es[i])
    ensures ParseAll(texts) == Some(es)
  {
    assert ParseAll(texts).value == es;
  }

  lemma UnreadableFails(texts: seq<string>, i: nat)
    requires i < |texts| && ParseExpr(texts[i]) == None
    ensures ParseAll(texts) == None
  {
  }

  lemma PairAppended(pairs: seq<(string, string)>, p: string, x: string)
    ensures PairPackages(pairs + [(p, x)]) == PairPackages(pairs) + {p}
  {
    var all := pairs + [(p, x)];
    assert all[|pairs|] == (p, x);
    assert forall i :: 0 <= i < |pairs| ==> all[i] == pairs[i];
  }

  lemma Appended(es: seq<Expr>, e: Expr)
    ensures Packages(es + [e]) == Packages(es) + {e.package}
    ensures BroadOf(es + [e]) == BroadOf(es) + (if e.Broad? then {e.package} else {})
    ensures IsolatedOf(es + [e]) == IsolatedOf(es) + (if e.Prefix? then [(e.package, e.prefix)] else [])
    ensures ExactOf(es + [e]) == ExactOf(es) + (if e.Exact? then [(e.package, e.test)] else [])
  {
    var all := es + [e];
    assert all[|es|] == e && all[..|all| - 1] == es;
    assert forall i :: 0 <= i < |es| ==> all[i] == es[i];
  }

  /** Main result: reading back a printed filterset with its own package list never fails and
      returns the same selections, exactly when every name is readable. */
  lemma LocalReadsBack(es: seq<Expr>)
    requires es != []
    requires forall i :: 0 <= i < |es| ==>
               (es[i].Prefix? ==> IsTestPath(es[i].prefix)) && (es[i].Exact? ==> IsTestPath(es[i].test))
    ensures (exists read :: ParseFilterset(PrintFilterset(es)) == Some(read) && Packages(read) == Packages(es))
            <==> AllValid(es)
    ensures AllValid(es) ==> ParseFilterset(PrintFilterset(es)) == Some(es)
  {
    hide PrintExpr, ParseExpr, ParseFilterset, PrintFilterset, IsPackageName, IsTestPath;
    if AllValid(es) {
      FiltersetRoundTrip(es);
    }
    if read :| ParseFilterset(PrintFilterset(es)) == Some(read) && Packages(read) == Packages(es) {
      ParsedIsPrinted(PrintFilterset(es), read);
      forall i | 0 <= i < |es|
        ensures ValidExpr(es[i])
      {
        assert es[i].package in Packages(read);
      }
    }
  }

  // ---- the platform restriction ----

  const BEHAVIORAL: set<string> := {"wenlan-core", "wenlan-server", "wenlan"}

  /** `expression.startswith(f"package({package})")` for one of the packages. */
  predicate OwnedBy(text: string, packages: seq<string>) {
    exists i :: 0 <= i < |packages| && StartsWith(text, OPEN + packages[i] + ")")
  }

  function KeepTexts(texts: seq<string>, packages: seq<string>): seq<string> {
    if texts == [] then []
    else (if OwnedBy(texts[0], packages) then [texts[0]] else []) + KeepTexts(texts[1..], packages)
  }

  function KeepNames(names: seq<string>): (kept: seq<string>)
    ensures forall x :: x in kept <==> x in names && x in BEHAVIORAL
  {
    if names == [] then []
    else (if names[0] in BEHAVIORAL then [names[0]] else []) + KeepNames(names[1..])
  }

  function KeepExprs(es: seq<Expr>): (kept: seq<Expr>)
    ensures forall e :: e in kept <==> e in es && e.package in BEHAVIORAL
  {
    if es == [] then []
    else (if es[0].package in BEHAVIORAL then [es[0]] else []) + KeepExprs(es[1..])
  }

  lemma SameName(a: string, restA: string, b: string, restB: string)
    requires IsPackageName(a) && IsPackageName(b) && a + restA == b + restB
    requires restA != "" && restA[0] == ')' && restB != "" && restB[0] == ')'
    ensures a == b
  {
    hide IsPackageName;
    NameEnds(a, restA);
    NameEnds(b, restB);
    assert a == (a + restA)[..|a|] && b == (b + restB)[..|b|];
  }

  lemma PrefixIsPackage(body: string, package: string)
    requires StartsWith(OPEN + body, OPEN + package + ")")
    ensures |package| < |body| && body[..|package|] == package && body[|package|] == ')'
  {
    var s := OPEN + body;
    assert s[..|OPEN| + |package| + 1] == OPEN + package + ")";
    assert body == s[|OPEN|..];
    assert s[|OPEN| + |package|] == ')';
    assert body[..|package|] == s[|OPEN|..|OPEN| + |package|];
  }

  lemma OwnedByPackage(e: Expr, package: string)
    requires ValidExpr(e) && IsPackageName(package)
    ensures StartsWith(PrintExpr(e), OPEN + package + ")") <==> e.package == package
  {
    hide IsPackageName, Tail, IsTestPath, ParseExpr, NameRun;
    var body := e.package + Tail(e);
    if StartsWith(OPEN + body, OPEN + package + ")") {
      PrefixIsPackage(body, package);
      assert body == package + body[|package|..];
      SameName(e.package, Tail(e), package, body[|package|..]);
    }
    if e.package == package {
      assert OPEN + body == (OPEN + package + ")") + Tail(e)[1..];
    }
  }

  lemma BehavioralNamesAreReadable()
    ensures forall p :: p in BEHAVIORAL ==> IsPackageName(p)
  {
  }

  lemma {:induction false} KeepTextsIsKeepExprs(es: seq<Expr>, packages: seq<string>)
    requires AllValid(es)
    requires forall i :: 0 <= i < |packages| ==> packages[i] in BEHAVIORAL
    requires forall i :: 0 <= i < |es| && es[i].package in BEHAVIORAL ==> es[i].package in packages
    ensures KeepTexts(Print(es), packages) == Print(KeepExprs(es))
  {
    hide PrintExpr, ValidExpr, IsPackageName, BEHAVIORAL;
    if es != [] {
      BehavioralNamesAreReadable();
      forall i | 0 <= i < |packages|
        ensures StartsWith(PrintExpr(es[0]), OPEN + packages[i] + ")") <==> es[0].package == packages[i]
      {
        OwnedByPackage(es[0], packages[i]);
      }
      assert OwnedBy(PrintExpr(es[0]), packages) <==> es[0].package in BEHAVIORAL;
      assert Print(es)[1..] == Print(es[1..]);
      KeepTextsIsKeepExprs(es[1..], packages);
    }
  }

  /** Main result: on a printed filterset that lists its own packages, the platform plan keeps
      exactly the expressions of the behavioural packages, and the guard for a filterset that
      lost every owner cannot fire. */
  lemma PlatformKeepsBehavioral(es: seq<Expr>, names: seq<string>)
    requires es != [] && AllValid(es) && (forall x :: x in names <==> x in Packages(es))
    ensures var kept := KeepTexts(Split(PrintFilterset(es), SEPARATOR), KeepNames(names));
            && kept == Print(KeepExprs(es))
            && (KeepNames(names) != [] <==> kept != [])
            && Join(kept, SEPARATOR) == PrintFilterset(KeepExprs(es))
  {
    hide PrintExpr, ValidExpr, PrintFilterset, BEHAVIORAL;
    FiltersetRoundTrip(es);
    var packages := KeepNames(names);
    forall i | 0 <= i < |packages|
      ensures packages[i] in BEHAVIORAL
    {
      assert packages[i] in packages;
    }
    KeepTextsIsKeepExprs(es, packages);
    PrintIs(KeepExprs(es));
    if packages != [] {
      assert packages[0] in packages;
      var i :| 0 <= i < |es| && es[i].package == packages[0];
      assert es[i] in KeepExprs(es);
    }
    if KeepExprs(es) != [] {
      var e := KeepExprs(es)[0];
      assert e in KeepExprs(es);
      assert e.package in packages;
    }
  }

  lemma PrintIs(es: seq<Expr>)
    ensures PrintFilterset(es) == Join(Print(es), SEPARATOR)
  {
  }
}
