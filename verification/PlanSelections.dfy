/**
 What a plan of scripts/ci_test_plan.py (`_build_test_plan`) runs, path by path: which changed
 paths select which packages, targets and tests, stated without the classifier.
 */
module PlanSelections {
  import opened Wrappers
  import opened Strings
  import opened PackageGraph
  import opened PathRules
  import opened TestPlan
  import opened TestPlanLaws

  // ---- kinds of paths ----

  /** No other job, shared input or shared helper claims the path. */
  ghost predicate IsFree(path: string) {
    !OtherJobOwns(path) && !SharedBuildInput(path) && path !in SHARED_TEST_HELPERS
  }

  /** A free path whose deepest package directory is d, which is p's. */
  ghost predicate LiesIn(ws: Workspace, path: string, d: string, p: string) {
    && IsFree(path) && !IsIsolated(path)
    && IsLongest(d, Owning(path, ws.directories)) && ws.directories[d] == p
  }

  /** A `.rs` file below `src` of the package. */
  ghost predicate ChangesSource(ws: Workspace, path: string, p: string) {
    EndsWith(path, ".rs") && exists d, rest :: LiesIn(ws, path, d, p) && Parts(Inside(path, d)) == ["src"] + rest
  }

  /** The README that a Rust test of the package reads. */
  ghost predicate ChangesReadme(ws: Workspace, path: string, p: string) {
    path == "crates/wenlan-cli/README.md" && exists d :: LiesIn(ws, path, d, p)
  }

  /** A `.rs` file directly in `tests` of the package, whose name without the suffix is t. */
  ghost predicate ChangesTest(ws: Workspace, path: string, p: string, t: string) {
    && EndsWith(path, ".rs")
    && exists d, file ::
          LiesIn(ws, path, d, p) && Parts(Inside(path, d)) == ["tests", file] && t == Stem(Inside(path, d))
  }

  /** The file exists and the package has an integration target of that name. */
  ghost predicate IsKnown(ws: Workspace, existing: set<string>, path: string, p: string, t: string) {
    path in existing && p in ws.packages && Target(t, true) in ws.packages[p].targets
  }

  /** The script whose one test is selected instead. */
  ghost predicate SelectsTest(existing: set<string>, path: string, t: string) {
    && IsFree(path) && path in existing && path == "scripts/m5-reader-sweep.py"
    && t == "drift_guard::m5_reader_" + "inventory_matches_current_tree"
  }

  /** A file whose test module is selected instead. */
  ghost predicate SelectsModule(existing: set<string>, path: string, x: string) {
    && IsFree(path) && path in existing
    && ((&& (path == CORE_SRC + "drift_guard/r4_test_support_api_manifest.txt"
             || path == CORE_SRC + "drift_guard/r4_test_support_raw_manifest.txt")
         && x == "drift_guard::r4_test_support_test")
        || (path == CORE_SRC + "lint/pages/security_test.rs" && x == "lint::pages::fs::tests::security_cases"))
  }

  // ---- the classifier by kinds ----

  lemma InPackage(ws: Workspace, existing: set<string>, path: string, d: string, p: string)
    requires ws.Valid() && LiesIn(ws, path, d, p)
    ensures p in ws.packages
    ensures Classify(ws, existing, path) == ClassifyOwned(ws, existing, path, p, Inside(path, d))
  {
    hide OtherJobOwns, SharedBuildInput, SHARED_TEST_HELPERS, IsolatedTest, IsolatedModule, ClassifyOwned, Inside,
         Owner,
         Under;
    OwnerIsDeepest(path, ws.directories, d);
  }

  lemma InAnyPackage(ws: Workspace, existing: set<string>, path: string)
    requires ws.Valid() && IsFree(path) && !IsIsolated(path)
    ensures Classify(ws, existing, path) == Widen || exists d, p :: LiesIn(ws, path, d, p)
  {
    hide OtherJobOwns, SharedBuildInput, SHARED_TEST_HELPERS, IsolatedTest, IsolatedModule, ClassifyOwned, Inside;
    var owning := Owning(path, ws.directories);
    if owning != {} {
      LongestExists(owning);
      var d :| IsLongest(d, owning);
      assert LiesIn(ws, path, d, ws.directories[d]);
    } else {
      assert forall d :: d in ws.directories ==> d !in owning;
    }
  }

  lemma ReadmeIsNoRust()
    ensures !EndsWith("crates/wenlan-cli/README.md", ".rs")
  {
    assert "crates/wenlan-cli/README.md"[|"crates/wenlan-cli/README.md"| - 1] == 'd';
  }

  lemma KnownTarget(ws: Workspace, p: string, t: string)
    requires p in ws.packages
    ensures t in IntegrationTargets(ws.packages[p]) <==> Target(t, true) in ws.packages[p].targets
  {
    var targets := ws.packages[p].targets;
    if t in IntegrationTargets(ws.packages[p]) {
      var i :| 0 <= i < |targets| && targets[i].isTest && targets[i].name == t;
      assert targets[i] == Target(t, true);
    }
  }

  /** What a file directly in `tests` selects. */
  ghost function TestEffect(p: string, t: string, known: bool): Effect {
    if p == "wenlan" || p == "wenlan-server" then (if known then CliTarget(p, t) else CliPackage(p))
    else if p == "wenlan-mcp" || p == "wenlan-types" then (if known then ContractTarget(p, t) else ContractPackage(p))
    else if p == "wenlan-core" then
      (if !known then CoreSuite
       else if t == "cached_scenario_db_check" || t == "eval_harness" then Ignored
       else CoreTarget(t))
    else Widen
  }

  lemma TargetEffectIs(p: string, t: string, known: bool)
    ensures ClassifyTarget(p, t, known) == TestEffect(p, t, known)
  {
  }

  lemma OwnedTestIs(ws: Workspace, existing: set<string>, path: string, p: string, inside: string, file: string)
    requires p in ws.packages && EndsWith(path, ".rs") && Parts(inside) == ["tests", file]
    ensures ClassifyOwned(ws, existing, path, p, inside)
         == ClassifyTarget(p, Stem(inside), path in existing && Stem(inside) in IntegrationTargets(ws.packages[p]))
  {
    hide Parts, Stem, EndsWith, IntegrationTargets, ClassifyTarget;
  }

  lemma TestIsClassified(ws: Workspace, existing: set<string>, path: string, p: string, t: string)
    requires ws.Valid() && ChangesTest(ws, path, p, t)
    ensures Classify(ws, existing, path) == TestEffect(p, t, IsKnown(ws, existing, path, p, t))
  {
    hide LiesIn, Parts, Stem, Inside, EndsWith, IntegrationTargets, Classify, ClassifyOwned, ClassifyTarget, TestEffect;
    var d, file :| LiesIn(ws, path, d, p) && Parts(Inside(path, d)) == ["tests", file] && t == Stem(Inside(path, d));
    InPackage(ws, existing, path, d, p);
    OwnedTestIs(ws, existing, path, p, Inside(path, d), file);
    KnownTarget(ws, p, t);
    TargetEffectIs(p, t, IsKnown(ws, existing, path, p, t));
  }

  lemma SourceIsClassified(ws: Workspace, existing: set<string>, path: string, p: string)
    requires ws.Valid() && ChangesSource(ws, path, p)
    ensures Classify(ws, existing, path) == SourceChange(p)
  {
    hide LiesIn, Parts, Stem, Inside, EndsWith, IntegrationTargets;
    var d, rest :| LiesIn(ws, path, d, p) && Parts(Inside(path, d)) == ["src"] + rest;
    InPackage(ws, existing, path, d, p);
    ReadmeIsNoRust();
    assert (["src"] + rest)[0] == "src";
  }

  lemma ReadmeIsClassified(ws: Workspace, existing: set<string>, path: string, p: string)
    requires ws.Valid() && ChangesReadme(ws, path, p)
    ensures Classify(ws, existing, path) == PackageOnly(p)
  {
    hide LiesIn, Parts, Stem, Inside, EndsWith, IntegrationTargets;
    var d :| LiesIn(ws, path, d, p);
    InPackage(ws, existing, path, d, p);
    ReadmeIsNoRust();
  }

  lemma CoreIsNoScript(rest: string)
    ensures CORE_SRC + rest != SWEEP_SCRIPT
  {
    assert CORE_SRC[0] == 'c' && (CORE_SRC + rest)[0] == 'c' && SWEEP_SCRIPT[0] == 's';
  }

  lemma CoreFilesDiffer(a: string, b: string)
    ensures CORE_SRC + a == CORE_SRC + b ==> a == b
  {
    assert (CORE_SRC + a)[|CORE_SRC|..] == a && (CORE_SRC + b)[|CORE_SRC|..] == b;
  }

  lemma IsolatedIs(path: string)
    ensures IsolatedTest(path).Some?
            ==> IsolatedTest(path).value == "drift_guard::m5_reader_" + "inventory_matches_current_tree"
    ensures IsolatedTest(path).Some? <==> path == "scripts/m5-reader-sweep.py"
    ensures IsolatedModule(path).Some?
       <==> || path == CORE_SRC + "drift_guard/r4_test_support_api_manifest.txt"
            || path == CORE_SRC + "drift_guard/r4_test_support_raw_manifest.txt"
            || path == CORE_SRC + "lint/pages/security_test.rs"
    ensures IsolatedModule(path).Some? ==> IsolatedTest(path) == None
  {
    hide CORE_SRC;
    CoreIsNoScript("drift_guard/r4_test_support_api_manifest.txt");
    CoreIsNoScript("drift_guard/r4_test_support_raw_manifest.txt");
    CoreIsNoScript("lint/pages/security_test.rs");
  }

  lemma ModuleIs(path: string, x: string)
    ensures IsolatedModule(path) == Some(x)
       <==> || ((|| path == CORE_SRC + "drift_guard/r4_test_support_api_manifest.txt"
                 || path == CORE_SRC + "drift_guard/r4_test_support_raw_manifest.txt")
                && x == "drift_guard::r4_test_support_test")
            || (path == CORE_SRC + "lint/pages/security_test.rs" && x == "lint::pages::fs::tests::security_cases")
  {
    hide CORE_SRC;
    CoreFilesDiffer("drift_guard/r4_test_support_api_manifest.txt", "lint/pages/security_test.rs");
    CoreFilesDiffer("drift_guard/r4_test_support_raw_manifest.txt", "lint/pages/security_test.rs");
    assert "drift_guard/r4_test_support_api_manifest.txt"[0] == 'd' && "lint/pages/security_test.rs"[0] == 'l';
    assert "drift_guard/r4_test_support_raw_manifest.txt"[0] == 'd';
  }

  lemma SelectsMeansIsolated(existing: set<string>, path: string, x: string)
    ensures SelectsTest(existing, path, x) <==> IsFree(path) && path in existing && IsolatedTest(path) == Some(x)
    ensures SelectsModule(existing, path, x) <==> IsFree(path) && path in existing && IsolatedModule(path) == Some(x)
  {
    hide IsFree, CORE_SRC;
    ModuleIs(path, x);
    IsolatedIs(path);
  }

  /** A path that is isolated, exists and is free. */
  lemma IsolatedIsClassified(ws: Workspace, existing: set<string>, path: string)
    requires ws.Valid() && IsFree(path) && IsIsolated(path)
    ensures Classify(ws, existing, path)
         == if path !in existing then Widen
            else if "wenlan-core" !in ws.packages then Raise
            else if IsolatedTest(path).Some? then TestOwner(IsolatedTest(path).value)
            else ModuleOwner(IsolatedModule(path).value)
  {
    hide OtherJobOwns, SharedBuildInput, SHARED_TEST_HELPERS, ClassifyOwned, CORE_SRC, IsolatedTest, IsolatedModule;
    IsolatedIs(path);
  }

  lemma TakenIsClassified(ws: Workspace, existing: set<string>, path: string)
    requires ws.Valid() && !IsFree(path)
    ensures Classify(ws, existing, path) == if OtherJobOwns(path) then Ignored else Widen
  {
    hide OtherJobOwns, SharedBuildInput, SHARED_TEST_HELPERS, IsolatedTest, IsolatedModule, ClassifyOwned;
  }

  /** What follows from the effect of a path. */
  ghost predicate HasKind(ws: Workspace, existing: set<string>, path: string, e: Effect) {
    match e
    case SourceChange(p) => ChangesSource(ws, path, p)
    case PackageOnly(p) => ChangesReadme(ws, path, p)
    case TestOwner(x) => SelectsTest(existing, path, x) && "wenlan-core" in ws.packages
    case ModuleOwner(x) => SelectsModule(existing, path, x) && "wenlan-core" in ws.packages
    case Raise => IsFree(path) && IsIsolated(path) && path in existing && "wenlan-core" !in ws.packages
    case Ignored => true
    case Widen => true
    case _ =>
      exists p, t :: ChangesTest(ws, path, p, t) && e == TestEffect(p, t, IsKnown(ws, existing, path, p, t))
  }

  lemma OwnedHasKind(ws: Workspace, existing: set<string>, path: string, d: string, p: string)
    requires ws.Valid() && LiesIn(ws, path, d, p)
    ensures HasKind(ws, existing, path, Classify(ws, existing, path))
    ensures Classify(ws, existing, path) != Raise
  {
    hide LiesIn, Parts, Stem, Inside, EndsWith, IntegrationTargets, TestEffect, IsKnown, CLI_SERVER_PACKAGES,
         CONTRACT_PACKAGES, MANUAL_CORE_INTEGRATION, Classify, ChangesTest, ChangesSource;
    InPackage(ws, existing, path, d, p);
    var parts, t := Parts(Inside(path, d)), Stem(Inside(path, d));
    if |parts| == 2 && parts[0] == "tests" && EndsWith(path, ".rs") {
      assert parts == ["tests", parts[1]];
      assert ChangesTest(ws, path, p, t) by { TestIs(ws, path, d, p, parts[1]); }
      TestIsClassified(ws, existing, path, p, t);
      TestEffectIs(p, t, IsKnown(ws, existing, path, p, t));
    } else if parts != [] && parts[0] == "src" && EndsWith(path, ".rs") {
      assert parts == ["src"] + parts[1..];
      assert ChangesSource(ws, path, p) by { SourceIs(ws, path, d, p, parts[1..]); }
      ReadmeIsNoRust();
    }
  }

  lemma TestIs(ws: Workspace, path: string, d: string, p: string, file: string)
    requires EndsWith(path, ".rs") && LiesIn(ws, path, d, p) && Parts(Inside(path, d)) == ["tests", file]
    ensures ChangesTest(ws, path, p, Stem(Inside(path, d)))
  {
    hide LiesIn, Parts, Stem, Inside, EndsWith;
  }

  lemma SourceIs(ws: Workspace, path: string, d: string, p: string, rest: seq<string>)
    requires EndsWith(path, ".rs") && LiesIn(ws, path, d, p) && Parts(Inside(path, d)) == ["src"] + rest
    ensures ChangesSource(ws, path, p)
  {
    hide LiesIn, Parts, Inside, EndsWith;
  }

  lemma TestEffectIs(p: string, t: string, known: bool)
    ensures var e := TestEffect(p, t, known);
            !e.SourceChange? && !e.PackageOnly? && !e.TestOwner? && !e.ModuleOwner? && !e.Raise?
  {
  }

  lemma EveryPathHasKind(ws: Workspace, existing: set<string>, path: string)
    requires ws.Valid()
    ensures HasKind(ws, existing, path, Classify(ws, existing, path))
  {
    hide Classify, OtherJobOwns, SharedBuildInput, SHARED_TEST_HELPERS, LiesIn, ChangesTest, ChangesSource,
         ChangesReadme,
         TestEffect, SelectsTest, SelectsModule, IsolatedTest, IsolatedModule;
    if !IsFree(path) {
      TakenIsClassified(ws, existing, path);
    } else if IsIsolated(path) {
      IsolatedIsClassified(ws, existing, path);
      if IsolatedTest(path).Some? { SelectsMeansIsolated(existing, path, IsolatedTest(path).value); }
      if IsolatedModule(path).Some? { SelectsMeansIsolated(existing, path, IsolatedModule(path).value); }
    } else if d, p :| LiesIn(ws, path, d, p) {
      OwnedHasKind(ws, existing, path, d, p);
    } else {
      InAnyPackage(ws, existing, path);
    }
  }

  /** Main result: a path raises exactly when it is a free isolated input that exists and the
      workspace has no core package. */
  lemma RaisesIff(ws: Workspace, existing: set<string>, path: string)
    requires ws.Valid()
    ensures Classify(ws, existing, path) == Raise
            <==> IsFree(path) && IsIsolated(path) && path in existing && "wenlan-core" !in ws.packages
  {
    hide Classify, IsFree, IsIsolated;
    EveryPathHasKind(ws, existing, path);
    if IsFree(path) && IsIsolated(path) { IsolatedIsClassified(ws, existing, path); }
  }

  // ---- what one path contributes ----

  ghost predicate IsUnknownTest(ws: Workspace, existing: set<string>, path: string, p: string) {
    exists t :: ChangesTest(ws, path, p, t) && !IsKnown(ws, existing, path, p, t)
  }

  ghost predicate IsKnownTest(ws: Workspace, existing: set<string>, path: string, p: string, t: string) {
    ChangesTest(ws, path, p, t) && IsKnown(ws, existing, path, p, t)
  }

  /** The path is a source file of a package that q reaches through its path dependencies. */
  ghost predicate Affects(ws: Workspace, path: string, q: string) {
    exists p :: ChangesSource(ws, path, p) && Reaches(ws.packages, q, p)
  }

  ghost predicate IsSource(ws: Workspace, path: string) {
    exists p :: ChangesSource(ws, path, p)
  }

  lemma ClosureIs(packages: Packages, p: string, q: string)
    requires p in packages
    ensures q in ReverseClosure(packages, p) <==> Reaches(packages, q, p)
  {
    if Reaches(packages, q, p) {
      var path :| IsPath(packages, path, p) && path[0] == q;
      if |path| > 1 { assert DependsOn(packages, path[0], path[1]); }
    }
  }

  lemma SourceIff(ws: Workspace, existing: set<string>, path: string)
    requires ws.Valid()
    ensures forall p :: Classify(ws, existing, path) == SourceChange(p) <==> ChangesSource(ws, path, p)
    ensures forall p :: Classify(ws, existing, path) == PackageOnly(p) <==> ChangesReadme(ws, path, p)
  {
    hide Classify, ChangesSource, ChangesReadme;
    EveryPathHasKind(ws, existing, path);
    forall p
      ensures ChangesSource(ws, path, p) ==> Classify(ws, existing, path) == SourceChange(p)
      ensures ChangesReadme(ws, path, p) ==> Classify(ws, existing, path) == PackageOnly(p)
    {
      if ChangesSource(ws, path, p) { SourceIsClassified(ws, existing, path, p); }
      if ChangesReadme(ws, path, p) { ReadmeIsClassified(ws, existing, path, p); }
    }
  }

  lemma KindIsIsolated(ws: Workspace, existing: set<string>, path: string)
    requires ws.Valid()
    ensures var e := Classify(ws, existing, path);
            && (e.TestOwner? ==> SelectsTest(existing, path, e.test))
            && (e.ModuleOwner? ==> SelectsModule(existing, path, e.prefix))
  {
    hide Classify, SelectsTest, SelectsModule, ChangesTest, ChangesSource, ChangesReadme, TestEffect, IsFree,
         IsIsolated;
    EveryPathHasKind(ws, existing, path);
  }

  lemma SelectedIsClassified(ws: Workspace, existing: set<string>, path: string, x: string)
    requires ws.Valid() && Classify(ws, existing, path) != Raise
    ensures SelectsTest(existing, path, x) ==> Classify(ws, existing, path) == TestOwner(x)
    ensures SelectsModule(existing, path, x) ==> Classify(ws, existing, path) == ModuleOwner(x)
  {
    hide Classify, SelectsTest, SelectsModule, IsolatedTest, IsolatedModule, IsFree;
    SelectsMeansIsolated(existing, path, x);
    IsolatedIs(path);
    if SelectsTest(existing, path, x) || SelectsModule(existing, path, x) {
      IsolatedIsClassified(ws, existing, path);
    }
  }

  lemma IsolatedIff(ws: Workspace, existing: set<string>, path: string)
    requires ws.Valid() && Classify(ws, existing, path) != Raise
    ensures forall x :: Classify(ws, existing, path) == TestOwner(x) <==> SelectsTest(existing, path, x)
    ensures forall x :: Classify(ws, existing, path) == ModuleOwner(x) <==> SelectsModule(existing, path, x)
  {
    hide Classify, SelectsTest, SelectsModule;
    KindIsIsolated(ws, existing, path);
    forall x
      ensures SelectsTest(existing, path, x) ==> Classify(ws, existing, path) == TestOwner(x)
      ensures SelectsModule(existing, path, x) ==> Classify(ws, existing, path) == ModuleOwner(x)
    {
      SelectedIsClassified(ws, existing, path, x);
    }
  }

  const CLI_OWNERS: set<string> := {"wenlan", "wenlan-server"}
  const CONTRACT_OWNERS: set<string> := {"wenlan-mcp", "wenlan-types"}

  predicate IsManual(t: string) {
    t == "cached_scenario_db_check" || t == "eval_harness"
  }

  lemma TestIff(ws: Workspace, existing: set<string>, path: string, q: string, t: string)
    requires ws.Valid()
    ensures var e := Classify(ws, existing, path);
            && (e == CliPackage(q) <==> q in CLI_OWNERS && IsUnknownTest(ws, existing, path, q))
            && (e == CliTarget(q, t) <==> q in CLI_OWNERS && IsKnownTest(ws, existing, path, q, t))
            && (e == ContractPackage(q) <==> q in CONTRACT_OWNERS && IsUnknownTest(ws, existing, path, q))
            && (e == ContractTarget(q, t) <==> q in CONTRACT_OWNERS && IsKnownTest(ws, existing, path, q, t))
            && (e == CoreSuite <==> IsUnknownTest(ws, existing, path, "wenlan-core"))
            && (e == CoreTarget(t) <==> IsKnownTest(ws, existing, path, "wenlan-core", t) && !IsManual(t))
  {
    hide Classify, ChangesTest, IsKnown, ChangesSource, ChangesReadme, SelectsTest, SelectsModule;
    EveryPathHasKind(ws, existing, path);
    if p, u :| ChangesTest(ws, path, p, u) {
      TestIsClassified(ws, existing, path, p, u);
      forall q', t' | ChangesTest(ws, path, q', t')
        ensures q' == p && t' == u
      {
        OneTest(ws, path, p, u, q', t');
      }
    }
  }

  lemma OneTest(ws: Workspace, path: string, p: string, t: string, q: string, u: string)
    requires ChangesTest(ws, path, p, t) && ChangesTest(ws, path, q, u)
    ensures p == q && t == u
  {
    hide LiesIn, Stem, Inside, Parts, EndsWith;
    var d, file :| LiesIn(ws, path, d, p) && Parts(Inside(path, d)) == ["tests", file] && t == Stem(Inside(path, d));
    var e, other :| LiesIn(ws, path, e, q) && Parts(Inside(path, e)) == ["tests", other] && u == Stem(Inside(path, e));
    OnlyOneDirectory(ws, path, d, p, e, q);
  }

  lemma OnlyOneDirectory(ws: Workspace, path: string, d: string, p: string, e: string, q: string)
    requires LiesIn(ws, path, d, p) && LiesIn(ws, path, e, q)
    ensures d == e && p == q
  {
    hide IsFree, IsIsolated;
    LongestIsUnique(path, ws.directories);
  }

  lemma Owners()
    ensures CLI_SERVER_PACKAGES == CLI_OWNERS && CONTRACT_PACKAGES == CONTRACT_OWNERS && CORE == "wenlan-core"
  {
  }

  /** Main result: what one path contributes to the packages to test, and whether it turns the smokes
      on. */
  lemma ContributesPackages(ws: Workspace, existing: set<string>, path: string, q: string)
    requires ws.Valid()
    ensures var c := Contribution(ws, existing, path);
            && (q in c.broad <==> Affects(ws, path, q) || ChangesReadme(ws, path, q))
            && (q in c.cliPackages
                <==> q in CLI_OWNERS && (Affects(ws, path, q) || IsUnknownTest(ws, existing, path, q)))
            && (q in c.contractPackages
                <==> q in CONTRACT_OWNERS && (Affects(ws, path, q) || IsUnknownTest(ws, existing, path, q)))
            && (c.coreFull <==> Affects(ws, path, "wenlan-core") || IsUnknownTest(ws, existing, path, "wenlan-core"))
            && (c.smokes <==> IsSource(ws, path))
  {
    hide Classify, ChangesSource, ChangesReadme, IsUnknownTest, IsKnownTest, Reaches, ReverseClosure,
         CLI_SERVER_PACKAGES,
         CONTRACT_PACKAGES, CLI_OWNERS, CONTRACT_OWNERS, CORE;
    Owners();
    SourceIff(ws, existing, path);
    TestIff(ws, existing, path, q, "");
    TestIff(ws, existing, path, "wenlan-core", "");
    var e := Classify(ws, existing, path);
    if e.SourceChange? {
      ClassifyFits(ws, existing, path);
      ClosureIs(ws.packages, e.package, q);
      ClosureIs(ws.packages, e.package, "wenlan-core");
    }
  }

  /** Main result: what one path contributes to single targets, modules and tests. */
  lemma ContributesTests(ws: Workspace, existing: set<string>, path: string, q: string, t: string)
    requires ws.Valid() && Classify(ws, existing, path) != Raise
    ensures var c := Contribution(ws, existing, path);
            && ((q, t) in c.filters <==> q == "wenlan-core" && SelectsModule(existing, path, t))
            && ((q, t) in c.tests <==> q == "wenlan-core" && SelectsTest(existing, path, t))
            && ((q, t) in c.cliTargets <==> q in CLI_OWNERS && IsKnownTest(ws, existing, path, q, t))
            && ((q, t) in c.contractTargets <==> q in CONTRACT_OWNERS && IsKnownTest(ws, existing, path, q, t))
            && (t in c.coreTargets <==> IsKnownTest(ws, existing, path, "wenlan-core", t) && !IsManual(t))
  {
    hide Classify, SelectsTest, SelectsModule, IsUnknownTest, IsKnownTest, ReverseClosure, CLI_SERVER_PACKAGES,
         CONTRACT_PACKAGES, CLI_OWNERS, CONTRACT_OWNERS, CORE, IsManual;
    Owners();
    IsolatedIff(ws, existing, path);
    TestIff(ws, existing, path, q, t);
    TestIff(ws, existing, path, "wenlan-core", t);
  }

  // ---- what several paths select ----

  /** All integration targets of q have to run: a path is a source file q depends on, or a test file of q
      that is gone or no known target. */
  ghost predicate NeedsSuite(ws: Workspace, existing: set<string>, paths: seq<string>, q: string) {
    exists x :: x in paths && (Affects(ws, x, q) || IsUnknownTest(ws, existing, x, q))
  }

  lemma {:induction false} TotalPackages(ws: Workspace, existing: set<string>, paths: seq<string>, q: string)
    requires ws.Valid()
    ensures var s := Total(ws, existing, paths);
            && (q in s.broad <==> exists x :: x in paths && (Affects(ws, x, q) || ChangesReadme(ws, x, q)))
            && (q in s.cliPackages <==> q in CLI_OWNERS && NeedsSuite(ws, existing, paths, q))
            && (q in s.contractPackages <==> q in CONTRACT_OWNERS && NeedsSuite(ws, existing, paths, q))
            && (s.coreFull <==> NeedsSuite(ws, existing, paths, "wenlan-core"))
            && (s.smokes <==> exists x :: x in paths && IsSource(ws, x))
  {
    hide Contribution, Affects, ChangesReadme, IsUnknownTest, IsSource, CLI_OWNERS, CONTRACT_OWNERS;
    if paths != [] {
      var front, last := paths[..|paths| - 1], paths[|paths| - 1];
      TotalPackages(ws, existing, front, q);
      ContributesPackages(ws, existing, last, q);
      assert paths == front + [last];
    }
  }

  lemma {:induction false} TotalTests(ws: Workspace, existing: set<string>, paths: seq<string>, q: string, t: string)
    requires ws.Valid() && NoneRaises(ws, existing, paths)
    ensures var s := Total(ws, existing, paths);
            && ((q, t) in s.filters <==> q == "wenlan-core" && exists x :: x in paths && SelectsModule(existing, x, t))
            && ((q, t) in s.tests <==> q == "wenlan-core" && exists x :: x in paths && SelectsTest(existing, x, t))
            && ((q, t) in s.cliTargets <==> q in CLI_OWNERS && exists x ::
                  x in paths && IsKnownTest(ws, existing, x, q, t))
            && ((q, t) in s.contractTargets
                <==> q in CONTRACT_OWNERS && exists x :: x in paths && IsKnownTest(ws, existing, x, q, t))
            && (t in s.coreTargets
                <==> !IsManual(t) && exists x :: x in paths && IsKnownTest(ws, existing, x, "wenlan-core", t))
  {
    hide Contribution, SelectsTest, SelectsModule, IsKnownTest, CLI_OWNERS, CONTRACT_OWNERS, IsManual, Classify;
    if paths != [] {
      var front, last := paths[..|paths| - 1], paths[|paths| - 1];
      assert forall i :: 0 <= i < |front| ==> front[i] == paths[i];
      TotalTests(ws, existing, front, q, t);
      ContributesTests(ws, existing, last, q, t);
      assert paths == front + [last];
    }
  }

  // ---- what the plan runs ----

  const EVENTS: set<string> := {"pull_request", "merge_group", "push"}

  /** What an integration suite runs of these owners: all targets of packages that need it or, if none
      does, the known targets that changed. */
  ghost predicate RunsTarget(ws: Workspace, existing: set<string>, paths: seq<string>, owners: set<string>,
                             q: string, t: string) {
    && q in owners
    && (|| NeedsSuite(ws, existing, paths, q)
        || ((forall o :: o in owners ==> !NeedsSuite(ws, existing, paths, o))
            && exists x :: x in paths && IsKnownTest(ws, existing, x, q, t)))
  }

  /** The unit tests that the paths select. */
  ghost predicate RunsUnitTest(ws: Workspace, existing: set<string>, paths: seq<string>, q: string, t: string) {
    || (exists x :: x in paths && (Affects(ws, x, q) || ChangesReadme(ws, x, q)))
    || (q == "wenlan-core" && exists x :: x in paths && SelectsTest(existing, x, t))
    || (q == "wenlan-core" && exists x, m :: x in paths && SelectsModule(existing, x, m) && StartsWith(t, m + "::"))
  }

  ghost predicate RunsCoreTarget(ws: Workspace, existing: set<string>, paths: seq<string>, t: string) {
    || NeedsSuite(ws, existing, paths, "wenlan-core")
    || (!IsManual(t) && exists x :: x in paths && IsKnownTest(ws, existing, x, "wenlan-core", t))
  }

  /** Main result: the plan of paths none of which raises or widens, for a pull request, merge group or
      push: what each of its suites runs, from the kinds of the paths alone. */
  lemma PlanSelects(ws: Workspace, existing: set<string>, event: string, paths: seq<string>, q: string, t: string)
    requires ws.Valid() && CargoNames(ws) && event in EVENTS && paths != []
    requires NoneRaises(ws, existing, paths) && !SomeWidens(ws, existing, paths)
    ensures SuitesOf(ws, existing, event, paths).Success?
    ensures var s := SuitesOf(ws, existing, event, paths).value;
            && !s.full
            && (SuiteCovers(s.workspaceLib, q, t) <==> RunsUnitTest(ws, existing, paths, q, t))
            && (TargetCovered(s.cliServer, q, t) <==> RunsTarget(ws, existing, paths, CLI_OWNERS, q, t))
            && (TargetCovered(s.contract, q, t) <==> RunsTarget(ws, existing, paths, CONTRACT_OWNERS, q, t))
            && (CoreCovers(s.core, t) <==> RunsCoreTarget(ws, existing, paths, t))
            && (s.core == FullSuite <==> NeedsSuite(ws, existing, paths, "wenlan-core"))
            && s.smokes == (if exists x :: x in paths && IsSource(ws, x) then FullSuite else SkipSuite)
  {
    hide Classify, Total, WorkspaceSuite, IntegrationSuite, NoneRaises, SomeWidens, SuitesOf, SuiteCovers,
         TargetCovered,
         NeedsSuite, IsKnownTest, SelectsTest, SelectsModule, Affects, ChangesReadme, IsSource, CLI_OWNERS,
         CONTRACT_OWNERS, Readable, CargoNames, Sorted;
    SuitesAre(ws, existing, event, paths);
    var s := Total(ws, existing, paths);
    TotalIsReadable(ws, existing, paths);
    WorkspaceSuiteIsExact(s, q, t);
    TotalPackages(ws, existing, paths, q);
    UnitTestsSelected(ws, existing, paths, q, t);
    TotalTests(ws, existing, paths, q, t);
    TotalTests(ws, existing, paths, "wenlan-core", t);
    IntegrationCoversIff(s.cliPackages, s.cliTargets, q, t);
    IntegrationCoversIff(s.contractPackages, s.contractTargets, q, t);
    NoPackagesIff(ws, existing, paths);
    CoreSuiteIs(s, t);
  }

  lemma CoreSuiteIs(s: Selection, t: string)
    ensures CoreCovers(Finish(s).core, t) <==> s.coreFull || t in s.coreTargets
    ensures Finish(s).core == FullSuite <==> s.coreFull
  {
    hide Sorted, WorkspaceSuite, IntegrationSuite;
  }

  lemma NoPackagesIff(ws: Workspace, existing: set<string>, paths: seq<string>)
    requires ws.Valid()
    ensures var s := Total(ws, existing, paths);
            && (s.cliPackages == {} <==> forall o :: o in CLI_OWNERS ==> !NeedsSuite(ws, existing, paths, o))
            && (s.contractPackages == {} <==> forall o :: o in CONTRACT_OWNERS ==> !NeedsSuite(ws, existing, paths, o))
  {
    hide Total, NeedsSuite, Affects, ChangesReadme, IsSource, CLI_OWNERS, CONTRACT_OWNERS;
    var s := Total(ws, existing, paths);
    forall o
      ensures o in s.cliPackages <==> o in CLI_OWNERS && NeedsSuite(ws, existing, paths, o)
      ensures o in s.contractPackages <==> o in CONTRACT_OWNERS && NeedsSuite(ws, existing, paths, o)
    {
      TotalPackages(ws, existing, paths, o);
    }
  }

  lemma UnitTestsSelected(ws: Workspace, existing: set<string>, paths: seq<string>, q: string, t: string)
    requires ws.Valid() && NoneRaises(ws, existing, paths)
    ensures Selects(Total(ws, existing, paths), q, t) <==> RunsUnitTest(ws, existing, paths, q, t)
  {
    hide Total, NoneRaises, Affects, ChangesReadme, SelectsTest, SelectsModule, NeedsSuite, IsSource, IsKnownTest,
         CLI_OWNERS, CONTRACT_OWNERS;
    TotalPackages(ws, existing, paths, q);
    TotalTests(ws, existing, paths, q, t);
    var s := Total(ws, existing, paths);
    forall m
      ensures (q, m) in s.filters <==> q == "wenlan-core" && exists x :: x in paths && SelectsModule(existing, x, m)
    {
      TotalTests(ws, existing, paths, q, m);
    }
  }

  /** Main result: one changed source file tests every package that depends on its own, transitively:
      their unit tests, the integration suites and the core suite of those that have one, and the
      smokes. */
  lemma SourceChangeSelects(ws: Workspace, existing: set<string>, event: string, path: string, p: string,
                            q: string, t: string)
    requires ws.Valid() && CargoNames(ws) && event in EVENTS && ChangesSource(ws, path, p)
    ensures SuitesOf(ws, existing, event, [path]).Success?
    ensures var s, reaches := SuitesOf(ws, existing, event, [path]).value, Reaches(ws.packages, q, p);
            && (SuiteCovers(s.workspaceLib, q, t) <==> reaches)
            && (TargetCovered(s.cliServer, q, t) <==> reaches && (q == "wenlan" || q == "wenlan-server"))
            && (TargetCovered(s.contract, q, t) <==> reaches && (q == "wenlan-mcp" || q == "wenlan-types"))
            && s.core == (if Reaches(ws.packages, "wenlan-core", p) then FullSuite else SkipSuite)
            && s.smokes == FullSuite && !s.full
  {
    hide Classify, ChangesSource, Reaches, ReverseClosure, WorkspaceSuite, IntegrationSuite, SuitesOf, CargoNames,
         SuiteCovers, TargetCovered, Readable, Contribution, Selects, Sorted;
    SourceIsClassified(ws, existing, path, p);
    assert [path][..0] == [];
    SuitesAre(ws, existing, event, [path]);
    var s := Total(ws, existing, [path]);
    TotalIsReadable(ws, existing, [path]);
    WorkspaceSuiteIsExact(s, q, t);
    OnlyContribution(ws, existing, path);
    OneSource(ws, existing, path, p, q);
    OneSource(ws, existing, path, p, "wenlan");
    OneSource(ws, existing, path, p, "wenlan-server");
    OneSource(ws, existing, path, p, "wenlan-mcp");
    OneSource(ws, existing, path, p, "wenlan-types");
    IntegrationCoversIff(s.cliPackages, s.cliTargets, q, t);
    IntegrationCoversIff(s.contractPackages, s.contractTargets, q, t);
    OneSourceSelects(s, q, t);
    CoreSuiteIs(s, t);
  }

  lemma OnlyContribution(ws: Workspace, existing: set<string>, path: string)
    requires ws.Valid()
    ensures Total(ws, existing, [path]) == Contribution(ws, existing, path)
  {
    hide Contribution;
    assert [path][..0] == [];
    assert Total(ws, existing, []) == NOTHING;
  }

  lemma OneSource(ws: Workspace, existing: set<string>, path: string, p: string, q: string)
    requires ws.Valid() && Classify(ws, existing, path) == SourceChange(p)
    ensures var c := Contribution(ws, existing, path);
            && (q in c.broad <==> Reaches(ws.packages, q, p))
            && (q in c.cliPackages <==> q in {"wenlan", "wenlan-server"} && Reaches(ws.packages, q, p))
            && (q in c.contractPackages <==> q in {"wenlan-mcp", "wenlan-types"} && Reaches(ws.packages, q, p))
            && (c.coreFull <==> Reaches(ws.packages, "wenlan-core", p)) && c.smokes
            && c.filters == {} && c.tests == {} && c.cliTargets == {} && c.contractTargets == {} && c.coreTargets == {}
  {
    hide Classify, Reaches, ReverseClosure;
    ClassifyFits(ws, existing, path);
    ClosureIs(ws.packages, p, q);
    ClosureIs(ws.packages, p, "wenlan-core");
  }

  lemma OneSourceSelects(s: Selection, q: string, t: string)
    requires s.filters == {} && s.tests == {}
    ensures Selects(s, q, t) <==> q in s.broad
  {
  }

  /** Main result: the README that a Rust test reads selects its package's unit tests and nothing else. */
  lemma ReadmeSelects(ws: Workspace, existing: set<string>, event: string, path: string, p: string, q: string,
                      t: string)
    requires ws.Valid() && CargoNames(ws) && event in EVENTS && ChangesReadme(ws, path, p)
    ensures SuitesOf(ws, existing, event, [path]).Success?
    ensures var s := SuitesOf(ws, existing, event, [path]).value;
            && (SuiteCovers(s.workspaceLib, q, t) <==> q == p)
            && s.cliServer == SkipSuite && s.contract == SkipSuite && s.core == SkipSuite && s.smokes == SkipSuite
            && !s.full
  {
    hide Classify, ChangesReadme, ReverseClosure, WorkspaceSuite, SuitesOf, CargoNames, SuiteCovers, Readable, Sorted;
    ReadmeIsClassified(ws, existing, path, p);
    assert [path][..0] == [];
    SuitesAre(ws, existing, event, [path]);
    var s := Total(ws, existing, [path]);
    TotalIsReadable(ws, existing, [path]);
    WorkspaceSuiteIsExact(s, q, t);
    OnlyContribution(ws, existing, path);
  }

  // ---- which outcome a plan has ----

  /** Main result: the first path that raises or widens decides; without one the plan is the
      selection. */
  lemma {:induction false} OutcomeIs(ws: Workspace, existing: set<string>, paths: seq<string>)
    requires ws.Valid()
    ensures var o := Collect(ws, existing, paths);
            && (o == Raised <==> exists i :: 0 <= i < |paths| && Classify(ws, existing, paths[i]) == Raise
                                             && Stays(ws, existing, paths[..i]))
            && (o == Widened <==> exists i :: 0 <= i < |paths| && Classify(ws, existing, paths[i]) == Widen
                                              && Stays(ws, existing, paths[..i]))
            && (o.Selected? <==> Stays(ws, existing, paths))
  {
    hide Classify, Apply;
    if paths != [] {
      var n := |paths| - 1;
      var front := paths[..n];
      OutcomeIs(ws, existing, front);
      assert forall i :: 0 <= i < n ==> front[..i] == paths[..i];
      assert forall i :: 0 <= i < n ==> front[i] == paths[i];
      assert Stays(ws, existing, paths)
        <==> Stays(ws, existing, front) && Classify(ws, existing, paths[n]) !in {Raise, Widen};
    }
  }

  ghost predicate Stays(ws: Workspace, existing: set<string>, paths: seq<string>)
    requires ws.Valid()
  {
    forall i :: 0 <= i < |paths| ==> Classify(ws, existing, paths[i]) !in {Raise, Widen}
  }
}
