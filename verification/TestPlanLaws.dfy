/**
 What plans of scripts/ci_test_plan.py guarantee: independence of path order, monotone
 coverage and faithful filtersets.
 */
module TestPlanLaws {
  import opened Wrappers
  import opened Strings
  import opened PackageGraph
  import opened PathRules
  import opened TestPlan
  import Filterset

  // ---- the order of paths ----

  ghost predicate SamePaths(paths: seq<string>, others: seq<string>) {
    forall p :: p in paths <==> p in others
  }

  lemma OutcomeIgnoresOrder(ws: Workspace, existing: set<string>, paths: seq<string>, others: seq<string>)
    requires ws.Valid() && SamePaths(paths, others) && NoneRaises(ws, existing, paths)
    ensures NoneRaises(ws, existing, others)
    ensures Collect(ws, existing, paths) == Collect(ws, existing, others)
  {
    hide Classify, Collect, Below, Total;
    forall i | 0 <= i < |others|
      ensures Classify(ws, existing, others[i]) != Raise
    {
      assert others[i] in paths;
    }
    assert SomeWidens(ws, existing, paths) ==> SomeWidens(ws, existing, others) by {
      assert forall i :: 0 <= i < |paths| ==> paths[i] in others;
    }
    assert SomeWidens(ws, existing, others) ==> SomeWidens(ws, existing, paths) by {
      assert forall i :: 0 <= i < |others| ==> others[i] in paths;
    }
    CollectIsTotal(ws, existing, paths);
    CollectIsTotal(ws, existing, others);
    TotalIsMonotone(ws, existing, paths, others);
    TotalIsMonotone(ws, existing, others, paths);
    BelowOrder(Total(ws, existing, paths), Total(ws, existing, others), NOTHING);
  }

  lemma GatesIgnoreOrder(suites: Suites, existing: set<string>, event: string, paths: seq<string>, others: seq<string>)
    requires SamePaths(paths, others)
    ensures Gates(suites, existing, event, paths) == Gates(suites, existing, event, others)
  {
    hide LowerSuffix, IsClippyInput, IsNonClippyContractInput;
    assert forall i :: 0 <= i < |paths| ==> paths[i] in others;
    assert forall i :: 0 <= i < |others| ==> others[i] in paths;
  }

  lemma {:induction false} NormalizeAllExact(raws: seq<string>)
    ensures NormalizeAll(raws).Success? <==> forall i :: 0 <= i < |raws| ==> NormalizePath(raws[i]).Success?
    ensures NormalizeAll(raws).Failure? ==> NormalizeAll(raws).error == BadPath
    ensures NormalizeAll(raws).Success? ==> |NormalizeAll(raws).value| == |raws|
    ensures NormalizeAll(raws).Success? ==> forall i ::
              0 <= i < |raws| ==> NormalizePath(raws[i]) == Success(NormalizeAll(raws).value[i])
  {
    if raws != [] {
      NormalizeAllExact(raws[..|raws| - 1]);
      NormalizeError(raws[|raws| - 1]);
    }
  }

  lemma NormalizeError(raw: string)
    ensures NormalizePath(raw).Failure? ==> NormalizePath(raw).error == BadPath
  {
  }

  lemma NormalizeSubset(raws: seq<string>, others: seq<string>)
    requires (forall p :: p in raws ==> p in others) && NormalizeAll(others).Success?
    ensures NormalizeAll(raws).Success?
    ensures forall p :: p in NormalizeAll(raws).value ==> p in NormalizeAll(others).value
  {
    hide NormalizeAll, NormalizePath;
    NormalizeAllExact(raws);
    NormalizeAllExact(others);
    forall i | 0 <= i < |raws|
      ensures NormalizePath(raws[i]).Success? && NormalizePath(raws[i]).value in NormalizeAll(others).value
    {
      assert raws[i] in others;
      var j :| 0 <= j < |others| && others[j] == raws[i];
      assert NormalizePath(others[j]) == Success(NormalizeAll(others).value[j]);
    }
  }

  ghost predicate PathsDoNotRaise(ws: Workspace, existing: set<string>, raws: seq<string>)
    requires ws.Valid()
  {
    NormalizeAll(raws).Success? ==> NoneRaises(ws, existing, NormalizeAll(raws).value)
  }

  /** Main result: when no path raises, reordering or repeating the changed paths leaves the
      whole plan unchanged: every suite, its mode and both gates. */
  lemma PlanIgnoresOrder(ws: Workspace, existing: set<string>, event: string, raws: seq<string>, others: seq<string>)
    requires ws.Valid() && SamePaths(raws, others) && PathsDoNotRaise(ws, existing, raws)
    ensures PlanOf(ws, existing, event, raws) == PlanOf(ws, existing, event, others)
  {
    hide PathsResolve, Gates, Collect, Finish, NormalizeAll, Classify;
    NormalizeAllExact(raws);
    NormalizeAllExact(others);
    if NormalizeAll(raws).Success? {
      NormalizeSubset(others, raws);
      NormalizeSubset(raws, others);
      var paths, paths' := NormalizeAll(raws).value, NormalizeAll(others).value;
      EmptyTogether(paths, paths');
      OutcomeIgnoresOrder(ws, existing, paths, paths');
      var suites := SuitesOf(ws, existing, event, paths);
      if suites.Success? {
        GatesIgnoreOrder(suites.value, existing, event, paths, paths');
      }
    } else if NormalizeAll(others).Success? {
      NormalizeSubset(raws, others);
    }
  }

  lemma EmptyTogether(paths: seq<string>, others: seq<string>)
    requires SamePaths(paths, others)
    ensures paths == [] <==> others == []
  {
    if paths != [] {
      assert paths[0] in others;
    }
    if others != [] {
      assert others[0] in paths;
    }
  }

  // ---- which tests a workspace suite runs ----

  /** nextest runs the library test `test` of `package` under this expression. */
  predicate Covers(e: Filterset.Expr, package: string, test: string) {
    && e.package == package
    && match e
       case Broad(_) => true
       case Prefix(_, prefix) => StartsWith(test, prefix + "::")
       case Exact(_, name) => test == name
  }

  ghost predicate SuiteCovers(suite: Suite, package: string, test: string) {
    match suite
    case FullSuite => true
    case PackageSuite(names) => package in names
    case FilterSuite(_, text) =>
      exists es, e :: Filterset.ParseFilterset(text) == Some(es) && e in es && Covers(e, package, test)
    case _ => false
  }

  /** The selection asks for this test. */
  ghost predicate Selects(s: Selection, package: string, test: string) {
    || package in s.broad
    || (exists x :: (package, x) in s.filters && StartsWith(test, x + "::"))
    || (package, test) in s.tests
  }

  /** Names a filterset can carry: Cargo package names and the isolated tests' paths. */
  ghost predicate Readable(s: Selection) {
    && (forall p :: p in s.broad ==> Filterset.IsPackageName(p))
    && (forall p :: p in s.filters ==> Filterset.IsPackageName(p.0) && Filterset.IsTestPath(p.1))
    && (forall p :: p in s.tests ==> Filterset.IsPackageName(p.0) && Filterset.IsTestPath(p.1))
  }

  lemma {:induction false} BroadExprsExact(names: seq<string>, e: Filterset.Expr)
    ensures e in BroadExprs(names) <==> e.Broad? && e.package in names
  {
    if names != [] {
      BroadExprsExact(names[..|names| - 1], e);
      assert names == names[..|names| - 1] + [names[|names| - 1]];
    }
  }

  lemma {:induction false} IsolatedExprsExact(package: string, names: seq<string>, exact: bool, e: Filterset.Expr)
    ensures e in IsolatedExprs(package, names, exact)
            <==> exists x :: x in names && e == Isolated(package, x, exact)
  {
    if names != [] {
      IsolatedExprsExact(package, names[..|names| - 1], exact, e);
      assert names == names[..|names| - 1] + [names[|names| - 1]];
    }
  }

  lemma {:induction false} NestedExprsExact(keys: seq<string>, pairs: Pairs, exact: bool, e: Filterset.Expr)
    ensures e in NestedExprs(keys, pairs, exact)
            <==> exists p, x :: p in keys && (p, x) in pairs && e == Isolated(p, x, exact)
  {
    hide Isolated, Sorted;
    if keys != [] {
      var key := keys[|keys| - 1];
      NestedExprsExact(keys[..|keys| - 1], pairs, exact, e);
      IsolatedExprsExact(key, Sorted(Of(pairs, key)), exact, e);
      assert keys == keys[..|keys| - 1] + [key];
      SortedOf(pairs, key);
    }
  }

  lemma SortedOf(pairs: Pairs, key: string)
    ensures forall x :: x in Sorted(Of(pairs, key)) <==> (key, x) in pairs
  {
    hide Sorted;
    forall x | (key, x) in pairs
      ensures x in Of(pairs, key)
    {
      assert (key, x).0 == key && (key, x).1 == x;
    }
  }

  lemma KeysExact(pairs: Pairs)
    ensures forall p, x :: (p, x) in pairs ==> p in Keys(pairs)
    ensures forall p :: p in Keys(pairs) ==> exists x :: (p, x) in pairs
  {
    forall p, x | (p, x) in pairs
      ensures p in Keys(pairs)
    {
      assert (p, x).0 == p;
    }
    forall p | p in Keys(pairs)
      ensures exists x :: (p, x) in pairs
    {
      var pair :| pair in pairs && pair.0 == p;
      assert pair == (p, pair.1);
    }
  }

  /** The expressions are exactly the selected packages, modules and tests. */
  lemma ExpressionsExact(broad: set<string>, filters: Pairs, tests: Pairs, e: Filterset.Expr)
    ensures e in Expressions(broad, filters, tests)
            <==> match e
                 case Broad(p) => p in broad
                 case Prefix(p, x) => (p, x) in filters
                 case Exact(p, t) => (p, t) in tests
  {
    hide Sorted, Keys, Of;
    BroadExprsExact(Sorted(broad), e);
    NestedExprsExact(Sorted(Keys(filters)), filters, false, e);
    NestedExprsExact(Sorted(Keys(tests)), tests, true, e);
    KeysExact(filters);
    KeysExact(tests);
  }

  lemma ExpressionPackages(broad: set<string>, filters: Pairs, tests: Pairs)
    ensures Filterset.Packages(Expressions(broad, filters, tests)) == broad + Keys(filters) + Keys(tests)
  {
    hide Expressions, Keys;
    var es := Expressions(broad, filters, tests);
    KeysExact(filters);
    KeysExact(tests);
    forall i | 0 <= i < |es|
      ensures es[i].package in broad + Keys(filters) + Keys(tests)
    {
      ExpressionsExact(broad, filters, tests, es[i]);
    }
    forall p | p in broad + Keys(filters) + Keys(tests)
      ensures exists i :: 0 <= i < |es| && es[i].package == p
    {
      var e: Filterset.Expr;
      if p in broad {
        e := Filterset.Broad(p);
      } else if p in Keys(filters) {
        var x :| (p, x) in filters;
        e := Filterset.Prefix(p, x);
      } else {
        var t :| (p, t) in tests;
        e := Filterset.Exact(p, t);
      }
      ExpressionsExact(broad, filters, tests, e);
      assert e in es;
    }
  }

  lemma ExpressionsAreReadable(broad: set<string>, filters: Pairs, tests: Pairs)
    requires forall p :: p in broad ==> Filterset.IsPackageName(p)
    requires forall p :: p in filters ==> Filterset.IsPackageName(p.0) && Filterset.IsTestPath(p.1)
    requires forall p :: p in tests ==> Filterset.IsPackageName(p.0) && Filterset.IsTestPath(p.1)
    ensures Filterset.AllValid(Expressions(broad, filters, tests))
  {
    hide Expressions, Filterset.IsPackageName, Filterset.IsTestPath;
    var es := Expressions(broad, filters, tests);
    forall i | 0 <= i < |es|
      ensures Filterset.ValidExpr(es[i])
    {
      ExpressionsExact(broad, filters, tests, es[i]);
    }
  }

  /** What a suite's filterset says of a selection: the broad packages, and the isolated modules
      and tests of other packages. */
  ghost predicate IsSelected(s: Selection, e: Filterset.Expr) {
    match e
    case Broad(p) => p in s.broad
    case Prefix(p, x) => (p, x) in s.filters && p !in s.broad
    case Exact(p, t) => (p, t) in s.tests && p !in s.broad
  }

  function ExpressionsOf(s: Selection): seq<Filterset.Expr> {
    Expressions(s.broad, Without(s.filters, s.broad), Without(s.tests, s.broad))
  }

  lemma ExpressionsOfExact(s: Selection)
    requires Readable(s)
    ensures Filterset.AllValid(ExpressionsOf(s))
    ensures forall e :: e in ExpressionsOf(s) <==> IsSelected(s, e)
    ensures Filterset.Packages(ExpressionsOf(s))
         == s.broad + Keys(Without(s.filters, s.broad)) + Keys(Without(s.tests, s.broad))
  {
    hide Keys, Expressions, Filterset.IsPackageName, Filterset.IsTestPath, Filterset.AllValid;
    var filters, tests := Without(s.filters, s.broad), Without(s.tests, s.broad);
    ExpressionsAreReadable(s.broad, filters, tests);
    ExpressionPackages(s.broad, filters, tests);
    forall e
      ensures e in ExpressionsOf(s) <==> IsSelected(s, e)
    {
      ExpressionsExact(s.broad, filters, tests, e);
    }
  }

  lemma SelectedIsLeft(s: Selection, e: Filterset.Expr)
    requires IsSelected(s, e)
    ensures e.Broad? || Without(s.filters, s.broad) != {} || Without(s.tests, s.broad) != {}
  {
    match e {
      case Broad(_) =>
      case Prefix(p, x) => assert (p, x) in Without(s.filters, s.broad);
      case Exact(p, t) => assert (p, t) in Without(s.tests, s.broad);
    }
  }

  /** The suite built from a selection, by its expressions. */
  lemma SuiteExpressions(s: Selection) returns (es: seq<Filterset.Expr>)
    requires Readable(s)
    ensures var suite := WorkspaceSuite(s.broad, s.filters, s.tests);
            match suite
            case SkipSuite => es == []
            case PackageSuite(names) => es != [] && forall p :: p in names <==> p in s.broad
            case FilterSuite(names, text) =>
              && es != [] && text == Filterset.PrintFilterset(es) && Filterset.ParseFilterset(text) == Some(es)
              && Filterset.Packages(es) == (set p | p in names)
            case _ => false
    ensures Filterset.AllValid(es)
    ensures forall e :: e in es <==> IsSelected(s, e)
    ensures WorkspaceSuite(s.broad, s.filters, s.tests).PackageSuite? ==> forall e :: e in es ==> e.Broad?
  {
    hide Sorted, Keys, Expressions, Readable, Filterset.AllValid, Filterset.PrintFilterset, Filterset.ParseFilterset,
         Filterset.Packages, IsSelected, Without;
    es := ExpressionsOf(s);
    ExpressionsOfExact(s);
    forall e | IsSelected(s, e)
      ensures e.Broad? || Without(s.filters, s.broad) != {} || Without(s.tests, s.broad) != {}
    {
      SelectedIsLeft(s, e);
    }
    if es != [] {
      Filterset.FiltersetRoundTrip(es);
    }
  }

  /** Main result: the suite built from a selection runs exactly the selected tests, although it
      drops every isolated filter of a package it selects as a whole. */
  lemma WorkspaceSuiteIsExact(s: Selection, package: string, test: string)
    requires Readable(s)
    ensures SuiteCovers(WorkspaceSuite(s.broad, s.filters, s.tests), package, test) <==> Selects(s, package, test)
  {
    hide WorkspaceSuite, Readable, Filterset.ParseFilterset, Filterset.PrintFilterset, Filterset.AllValid;
    var es := SuiteExpressions(s);
    if package in s.broad {
      assert Filterset.Broad(package) in es && Covers(Filterset.Broad(package), package, test);
    }
    if x :| (package, x) in s.filters && StartsWith(test, x + "::") {
      assert package !in s.broad ==>
          && Filterset.Prefix(package, x) in es
          && Covers(Filterset.Prefix(package, x), package, test);
    }
    if (package, test) in s.tests {
      assert package !in s.broad ==>
          && Filterset.Exact(package, test) in es
          && Covers(Filterset.Exact(package, test), package, test);
    }
  }

  /** Reading a selection's filterset back never fails and yields exactly the selection. */
  lemma SelectionReadsBack(s: Selection, names: seq<string>, text: string)
    requires Readable(s) && WorkspaceSuite(s.broad, s.filters, s.tests) == FilterSuite(names, text)
    ensures Filterset.ParseFilterset(text).Some?
    ensures var es := Filterset.ParseFilterset(text).value;
            && Filterset.Packages(es) == (set p | p in names)
            && forall e :: e in es <==> IsSelected(s, e)
  {
    hide WorkspaceSuite, Readable, Filterset.ParseFilterset, Filterset.PrintFilterset, Filterset.AllValid;
    var es := SuiteExpressions(s);
  }

  // ---- more paths, more tests ----

  /** Package names of ASCII letters, digits, `-` and `_`. */
  ghost predicate CargoNames(ws: Workspace) {
    forall p :: p in ws.packages ==> Filterset.IsPackageName(p)
  }

  lemma ClosureInWorkspace(packages: Packages, seed: string)
    requires seed in packages
    ensures ReverseClosure(packages, seed) <= packages.Keys
  {
    hide Reaches;
  }

  lemma CoreIsReadable()
    ensures Filterset.IsPackageName(CORE)
  {
  }

  lemma ContributionIsReadable(ws: Workspace, existing: set<string>, path: string)
    requires ws.Valid() && CargoNames(ws)
    ensures Readable(Contribution(ws, existing, path))
  {
    hide Classify, ReverseClosure, Filterset.IsPackageName, Filterset.IsTestPath, CORE;
    ClassifyFits(ws, existing, path);
    CoreIsReadable();
    var e := Classify(ws, existing, path);
    if e.SourceChange? {
      ClosureInWorkspace(ws.packages, e.package);
    }
  }

  lemma {:induction false} TotalIsReadable(ws: Workspace, existing: set<string>, paths: seq<string>)
    requires ws.Valid() && CargoNames(ws)
    ensures Readable(Total(ws, existing, paths))
  {
    hide CargoNames, Contribution, Filterset.IsPackageName, Filterset.IsTestPath;
    if paths != [] {
      TotalIsReadable(ws, existing, paths[..|paths| - 1]);
      ContributionIsReadable(ws, existing, paths[|paths| - 1]);
    }
  }

  /** A plan that neither raised nor widened is the union of what its paths contribute. */
  lemma {:induction false} CollectedIsTotal(ws: Workspace, existing: set<string>, paths: seq<string>)
    requires ws.Valid() && Collect(ws, existing, paths).Selected?
    ensures NoneRaises(ws, existing, paths) && Collect(ws, existing, paths) == Selected(Total(ws, existing, paths))
  {
    hide Classify, Apply, Union, Contribution;
    if paths != [] {
      var front, last := paths[..|paths| - 1], paths[|paths| - 1];
      CollectedIsTotal(ws, existing, front);
      assert forall i :: 0 <= i < |paths| - 1 ==> paths[i] == front[i];
      TotalNext(ws, existing, paths);
    }
  }

  lemma TotalNext(ws: Workspace, existing: set<string>, paths: seq<string>)
    requires ws.Valid() && paths != []
    ensures var front, last := paths[..|paths| - 1], paths[|paths| - 1];
            Total(ws, existing, paths) == Apply(ws.packages, Total(ws, existing, front), Classify(ws, existing, last))
  {
    hide Classify, Apply, Union;
    ApplyIsUnion(ws.packages, Total(ws, existing, paths[..|paths| - 1]), Classify(ws, existing, paths[|paths| - 1]));
  }

  /** The suites of a plan that is not the full one come from a selection with readable names. */
  lemma PlanSelection(ws: Workspace, existing: set<string>, event: string, paths: seq<string>)
    requires ws.Valid() && CargoNames(ws)
    requires SuitesOf(ws, existing, event, paths).Success? && !SuitesOf(ws, existing, event, paths).value.full
    ensures Readable(Total(ws, existing, paths))
    ensures SuitesOf(ws, existing, event, paths).value == Finish(Total(ws, existing, paths))
    ensures event in DIFFERENTIAL_EVENTS && paths != []
    ensures Collect(ws, existing, paths) == Selected(Total(ws, existing, paths))
  {
    hide Collect, Total, Finish, Readable, CargoNames;
    if Collect(ws, existing, paths).Selected? {
      CollectedIsTotal(ws, existing, paths);
      TotalIsReadable(ws, existing, paths);
    }
  }

  /** Main result: reading the filterset of any plan the planner returns back for a local run never
      fails, so neither of its guards fires, and yields exactly what the changed paths select. */
  lemma LocalRunNeverFails(ws: Workspace, existing: set<string>, event: string, paths: seq<string>,
                           names: seq<string>, text: string)
    requires ws.Valid() && CargoNames(ws) && SuitesOf(ws, existing, event, paths).Success?
    requires SuitesOf(ws, existing, event, paths).value.workspaceLib == FilterSuite(names, text)
    ensures Filterset.ParseFilterset(text).Some?
    ensures var es := Filterset.ParseFilterset(text).value;
            && Filterset.Packages(es) == (set p | p in names)
            && forall e :: e in es <==> IsSelected(Total(ws, existing, paths), e)
  {
    hide WorkspaceSuite, Collect, Total, Readable, CargoNames, IsSelected, Filterset.ParseFilterset,
         Filterset.Packages;
    PlanIsNotFull(ws, existing, event, paths);
    PlanSelection(ws, existing, event, paths);
    FinishIs(Total(ws, existing, paths));
    SelectionReadsBack(Total(ws, existing, paths), names, text);
  }

  lemma PlanIsNotFull(ws: Workspace, existing: set<string>, event: string, paths: seq<string>)
    requires ws.Valid() && SuitesOf(ws, existing, event, paths).Success?
    ensures SuitesOf(ws, existing, event, paths).value.full
            ==> SuitesOf(ws, existing, event, paths).value == FULL_SUITES
  {
    hide Collect, WorkspaceSuite, IntegrationSuite;
  }

  lemma SelectsMore(a: Selection, b: Selection, package: string, test: string)
    requires Below(a, b) && Selects(a, package, test)
    ensures Selects(b, package, test)
  {
  }

  /** The core integration targets a suite runs: all but the manual ones, or the listed ones. */
  ghost predicate CoreCovers(suite: Suite, target: string) {
    match suite
    case FullSuite => true
    case CoreTargetSuite(targets) => target in targets
    case _ => false
  }

  lemma CoreIsMonotone(a: Selection, b: Selection, target: string)
    requires Below(a, b) && CoreCovers(Finish(a).core, target)
    ensures CoreCovers(Finish(b).core, target)
  {
    hide Sorted, WorkspaceSuite, IntegrationSuite;
  }

  /** The suites when no path raises. */
  lemma SuitesAre(ws: Workspace, existing: set<string>, event: string, paths: seq<string>)
    requires ws.Valid() && paths != [] && NoneRaises(ws, existing, paths)
    ensures SuitesOf(ws, existing, event, paths)
         == Success(if event !in DIFFERENTIAL_EVENTS || SomeWidens(ws, existing, paths) then FULL_SUITES
                    else Finish(Total(ws, existing, paths)))
  {
    hide Classify, Collect, Total, Finish;
    CollectIsTotal(ws, existing, paths);
  }

  lemma FewerRaiseAndWiden(ws: Workspace, existing: set<string>, paths: seq<string>, more: seq<string>)
    requires ws.Valid() && (forall p :: p in paths ==> p in more) && NoneRaises(ws, existing, more)
    ensures NoneRaises(ws, existing, paths)
    ensures SomeWidens(ws, existing, paths) ==> SomeWidens(ws, existing, more)
  {
    hide Classify;
    forall i | 0 <= i < |paths|
      ensures Classify(ws, existing, paths[i]) != Raise
      ensures Classify(ws, existing, paths[i]) == Widen ==> SomeWidens(ws, existing, more)
    {
      assert paths[i] in more;
    }
  }

  lemma FullStaysFull(ws: Workspace, existing: set<string>, event: string, paths: seq<string>, more: seq<string>)
    requires ws.Valid() && paths != [] && (forall p :: p in paths ==> p in more) && NoneRaises(ws, existing, more)
    ensures var a, b := SuitesOf(ws, existing, event, paths), SuitesOf(ws, existing, event, more);
            a.Success? && b.Success? && (a.value.full ==> b.value.full)
  {
    hide Classify, SuitesOf, Total, WorkspaceSuite, IntegrationSuite, NoneRaises, SomeWidens;
    assert more != [] by { assert paths[0] in more; }
    FewerRaiseAndWiden(ws, existing, paths, more);
    SuitesAre(ws, existing, event, paths);
    SuitesAre(ws, existing, event, more);
  }

  /** Main result: when no path raises, adding paths never shrinks the tests that workspace_lib and
      core_integration run, nor turns off the canonical smokes. */
  lemma CoverageIsMonotone(ws: Workspace, existing: set<string>, event: string, paths: seq<string>, more: seq<string>,
                           package: string, test: string)
    requires ws.Valid() && CargoNames(ws) && paths != [] && (forall p :: p in paths ==> p in more)
    requires NoneRaises(ws, existing, more)
    ensures var a, b := SuitesOf(ws, existing, event, paths), SuitesOf(ws, existing, event, more);
            && a.Success? && b.Success?
            && (SuiteCovers(a.value.workspaceLib, package, test) ==> SuiteCovers(b.value.workspaceLib, package, test))
            && (CoreCovers(a.value.core, test) ==> CoreCovers(b.value.core, test))
            && (a.value.smokes == FullSuite ==> b.value.smokes == FullSuite)
            && (a.value.full ==> b.value.full)
  {
    hide Classify, SuitesOf, Total, Below, WorkspaceSuite, IntegrationSuite, Readable, Selects, CargoNames, NoneRaises,
         SomeWidens;
    assert more != [] by { assert paths[0] in more; }
    FullStaysFull(ws, existing, event, paths, more);
    FewerRaiseAndWiden(ws, existing, paths, more);
    SuitesAre(ws, existing, event, paths);
    SuitesAre(ws, existing, event, more);
    if event in DIFFERENTIAL_EVENTS && !SomeWidens(ws, existing, more) {
      var s, t := Total(ws, existing, paths), Total(ws, existing, more);
      TotalIsMonotone(ws, existing, paths, more);
      TotalIsReadable(ws, existing, paths);
      TotalIsReadable(ws, existing, more);
      WorkspaceSuiteIsExact(s, package, test);
      WorkspaceSuiteIsExact(t, package, test);
      FinishedIsMonotone(s, t, package, test);
    }
  }

  lemma FinishedIsMonotone(s: Selection, t: Selection, package: string, test: string)
    requires Below(s, t)
    ensures Selects(s, package, test) ==> Selects(t, package, test)
    ensures CoreCovers(Finish(s).core, test) ==> CoreCovers(Finish(t).core, test)
    ensures Finish(s).smokes == FullSuite ==> Finish(t).smokes == FullSuite
    ensures Finish(s).workspaceLib == WorkspaceSuite(s.broad, s.filters, s.tests)
    ensures Finish(t).workspaceLib == WorkspaceSuite(t.broad, t.filters, t.tests)
    ensures !Finish(s).full
  {
    hide Sorted, WorkspaceSuite, IntegrationSuite;
    if Selects(s, package, test) {
      SelectsMore(s, t, package, test);
    }
    if CoreCovers(Finish(s).core, test) {
      CoreIsMonotone(s, t, test);
    }
  }

  /** Main result: adding paths never turns off the fmt or the clippy gate. */
  lemma GatesAreMonotone(ws: Workspace, existing: set<string>, event: string, paths: seq<string>, more: seq<string>)
    requires ws.Valid() && paths != [] && (forall p :: p in paths ==> p in more)
    requires NoneRaises(ws, existing, more)
    ensures var a, b := SuitesOf(ws, existing, event, paths), SuitesOf(ws, existing, event, more);
            && a.Success? && b.Success?
            && (Gates(a.value, existing, event, paths).0 ==> Gates(b.value, existing, event, more).0)
            && (Gates(a.value, existing, event, paths).1 ==> Gates(b.value, existing, event, more).1)
  {
    hide SuitesOf, LowerSuffix, IsClippyInput, IsNonClippyContractInput, NoneRaises;
    FullStaysFull(ws, existing, event, paths, more);
    assert forall i :: 0 <= i < |paths| ==> paths[i] in more;
  }

  // ---- where adding paths does lose tests ----

  ghost predicate TargetCovered(suite: Suite, package: string, target: string) {
    match suite
    case FullSuite => true
    case PackageSuite(names) => package in names
    case TargetSuite(targets) => package in targets && target in targets[package]
    case _ => false
  }

  /** Every collected target ends up in the suite. */
  ghost predicate KeepsTargets(packages: set<string>, targets: Pairs) {
    forall p, t :: (p, t) in targets ==> TargetCovered(IntegrationSuite(packages, targets), p, t)
  }

  /** Main result: cli_server_integration and contract_integration run every collected target if and
      only if no package suite was selected, or every target belongs to a selected package. */
  lemma IntegrationKeepsTargetsIff(packages: set<string>, targets: Pairs)
    ensures KeepsTargets(packages, targets) <==> packages == {} || Keys(targets) <= packages
  {
    hide Sorted, Keys, Of;
    KeysExact(targets);
    var kept := Without(targets, packages);
    KeysExact(kept);
    if packages == {} {
      assert kept == targets;
      forall p, t | (p, t) in targets
        ensures TargetCovered(IntegrationSuite(packages, targets), p, t)
      {
        SortedOf(kept, p);
      }
    } else {
      forall p | p in Keys(targets) && KeepsTargets(packages, targets)
        ensures p in packages
      {
        var t :| (p, t) in targets;
        assert TargetCovered(IntegrationSuite(packages, targets), p, t);
      }
    }
  }

  /** Exactly what such a suite runs: the selected packages or, if there are none, the targets. */
  lemma IntegrationCoversIff(packages: set<string>, targets: Pairs, p: string, t: string)
    ensures TargetCovered(IntegrationSuite(packages, targets), p, t)
            <==> p in packages || (packages == {} && (p, t) in targets)
  {
    hide Sorted, Keys, Of;
    if packages == {} {
      assert Without(targets, packages) == targets;
      KeysExact(targets);
      SortedOf(targets, p);
    }
  }

  ghost predicate IsLost(a: Suite, b: Suite, p: string, t: string) {
    TargetCovered(a, p, t) && !TargetCovered(b, p, t)
  }

  /** Main result: adding paths to a plan that stays below the full one loses a target of
      cli_server_integration or contract_integration if and only if it was collected when no package
      suite was selected, and the added paths select package suites but not the target's package. */
  lemma TargetIsLostIff(ws: Workspace, existing: set<string>, event: string, paths: seq<string>, more: seq<string>,
                        p: string, t: string)
    requires ws.Valid() && event in DIFFERENTIAL_EVENTS && paths != [] && (forall x :: x in paths ==> x in more)
    requires NoneRaises(ws, existing, more) && !SomeWidens(ws, existing, more)
    ensures var a, b := SuitesOf(ws, existing, event, paths), SuitesOf(ws, existing, event, more);
            var s, u := Total(ws, existing, paths), Total(ws, existing, more);
            && a.Success? && b.Success?
            && (IsLost(a.value.cliServer, b.value.cliServer, p, t)
                <==> && s.cliPackages == {} && (p, t) in s.cliTargets
                     && u.cliPackages != {} && p !in u.cliPackages)
            && (IsLost(a.value.contract, b.value.contract, p, t)
                <==> && s.contractPackages == {} && (p, t) in s.contractTargets
                     && u.contractPackages != {} && p !in u.contractPackages)
  {
    hide Classify, SuitesOf, Total, WorkspaceSuite, IntegrationSuite, NoneRaises, SomeWidens, TargetCovered;
    assert more != [] by { assert paths[0] in more; }
    FewerRaiseAndWiden(ws, existing, paths, more);
    SuitesAre(ws, existing, event, paths);
    SuitesAre(ws, existing, event, more);
    TotalIsMonotone(ws, existing, paths, more);
    var s, u := Total(ws, existing, paths), Total(ws, existing, more);
    assert (p, t) in s.cliTargets ==> (p, t) in u.cliTargets;
    assert (p, t) in s.contractTargets ==> (p, t) in u.contractTargets;
    IntegrationCoversIff(s.cliPackages, s.cliTargets, p, t);
    IntegrationCoversIff(u.cliPackages, u.cliTargets, p, t);
    IntegrationCoversIff(s.contractPackages, s.contractTargets, p, t);
    IntegrationCoversIff(u.contractPackages, u.contractTargets, p, t);
  }
}
