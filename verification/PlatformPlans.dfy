/**
 The plan for the platform jobs of scripts/ci_test_plan.py (`build_platform_plan`): a plan for
 the platform-relevant paths, its workspace suite restricted to the behavioural packages.
 */
module PlatformPlans {
  import opened Wrappers
  import opened Strings
  import opened PackageGraph
  import opened PathRules
  import opened TestPlan
  import opened TestPlanLaws
  import opened PlanCommands
  import Filterset

  const SHARED_PLATFORM_INPUTS: set<string> := {"Cargo.toml", "Cargo.lock", "rust-toolchain.toml"}
  const PLATFORM_CONTRACT_ONLY_PATHS: set<string> := {
    "crates/wenlan-cli/tests/distribution.rs", "crates/wenlan-core/src/drift_guard.rs" }

  predicate PlatformRelevant(path: string) {
    path in SHARED_PLATFORM_INPUTS || (StartsWith(path, "crates/") && path !in PLATFORM_CONTRACT_ONLY_PATHS)
  }

  function Relevant(paths: seq<string>): (r: seq<string>)
    ensures forall p :: p in r <==> p in paths && PlatformRelevant(p)
  {
    if paths == [] then []
    else Relevant(paths[..|paths| - 1]) + (if PlatformRelevant(paths[|paths| - 1]) then [paths[|paths| - 1]] else [])
  }

  /** The workspace suite restricted to the behavioural packages; the failure is the script's
      guard for a filterset that lost every owner. */
  function Restrict(suite: Suite): Result<Suite, PlanError> {
    match suite
    case PackageSuite(names) =>
      var kept := Filterset.KeepNames(names);
      Success(if kept == [] then SkipSuite else PackageSuite(kept))
    case FilterSuite(names, text) =>
      var kept := Filterset.KeepNames(names);
      var texts := Filterset.KeepTexts(Split(text, Filterset.SEPARATOR), kept);
      if kept == [] then Success(SkipSuite)
      else if texts == [] then Failure(EmptyInventory)
      else Success(FilterSuite(kept, Join(texts, Filterset.SEPARATOR)))
    case _ => Success(suite)
  }

  function RestrictPlan(plan: Plan): Result<Plan, PlanError> {
    if plan.suites.full then Success(plan)
    else
      var suite :- Restrict(plan.suites.workspaceLib);
      Success(plan.(suites := plan.suites.(workspaceLib := suite)))
  }

  /** What exists of the relevant paths. */
  function Existing(existing: set<string>, relevant: seq<string>): set<string> {
    existing * (set p | p in relevant)
  }

  ghost function PlatformPlanOf(ws: Workspace, existing: set<string>, event: string,
                                raws: seq<string>): Result<Plan, PlanError>
    requires ws.Valid()
  {
    var paths :- NormalizeAll(raws);
    if event !in DIFFERENTIAL_EVENTS then PlanOf(ws, existing, event, paths)
    else if Relevant(paths) == [] then Success(Plan(SKIP_SUITES, false, false))
    else
      var relevant := Relevant(paths);
      var plan :- PlanOf(ws, Existing(existing, relevant), event, relevant);
      RestrictPlan(plan)
  }

  method BuildPlatformPlan(ws: Workspace, existing: set<string>, event: string, raws: seq<string>)
    returns (r: Result<Plan, PlanError>)
    requires ws.Valid()
    ensures r == PlatformPlanOf(ws, existing, event, raws)
  {
    hide PlanOf, RestrictPlan, NormalizeAll;
    var paths :- NormalizeAll(raws);
    if event !in DIFFERENTIAL_EVENTS {
      r := BuildPlan(ws, existing, event, paths);
      return;
    }
    if paths == [] {
      return Success(Plan(SKIP_SUITES, false, false));
    }
    var relevant := Relevant(paths);
    if relevant == [] {
      return Success(Plan(SKIP_SUITES, false, false));
    }
    var plan :- BuildPlan(ws, Existing(existing, relevant), event, relevant);
    return RestrictPlan(plan);
  }

  /** The restriction of a selection's suite never fails, and what is left runs exactly the tests of
      the behavioural packages that the suite ran. */
  lemma RestrictIsExact(s: Selection, package: string, test: string)
    requires Readable(s)
    ensures var suite := WorkspaceSuite(s.broad, s.filters, s.tests);
            && Restrict(suite).Success?
            && (SuiteCovers(Restrict(suite).value, package, test)
                <==> package in Filterset.BEHAVIORAL && SuiteCovers(suite, package, test))
  {
    hide WorkspaceSuite, Readable, Filterset.ParseFilterset, Filterset.PrintFilterset, Filterset.AllValid,
         Filterset.BEHAVIORAL, Filterset.Packages, Join, Split, Covers, Filterset.KeepTexts;
    var suite := WorkspaceSuite(s.broad, s.filters, s.tests);
    var es := SuiteExpressions(s);
    match suite {
      case FilterSuite(names, text) =>
        Filterset.PlatformKeepsBehavioral(es, names);
        var kept := Filterset.KeepExprs(es);
        if Filterset.KeepNames(names) != [] {
          KeptIsReadable(es);
          KeptIsNotEmpty(es);
          Filterset.FiltersetRoundTrip(kept);
          CoversOwnPackage();
        } else {
          assert forall e :: e in es && e.package in Filterset.BEHAVIORAL ==> e in kept;
          KeptNothing(es);
          CoversOwnPackage();
        }
      case _ =>
    }
  }

  lemma CoversOwnPackage()
    ensures forall e, package, test :: Covers(e, package, test) ==> e.package == package
  {
  }

  lemma KeptIsReadable(es: seq<Filterset.Expr>)
    requires Filterset.AllValid(es)
    ensures Filterset.AllValid(Filterset.KeepExprs(es))
  {
    hide Filterset.ValidExpr, Filterset.BEHAVIORAL;
    var kept := Filterset.KeepExprs(es);
    forall i | 0 <= i < |kept|
      ensures Filterset.ValidExpr(kept[i])
    {
      assert kept[i] in kept;
    }
  }

  lemma KeptIsNotEmpty(es: seq<Filterset.Expr>)
    requires Filterset.Print(Filterset.KeepExprs(es)) != []
    ensures Filterset.KeepExprs(es) != []
  {
  }

  lemma KeptNothing(es: seq<Filterset.Expr>)
    requires Filterset.Print(Filterset.KeepExprs(es)) == []
    ensures forall e :: e in es ==> e.package !in Filterset.BEHAVIORAL
  {
    hide Filterset.BEHAVIORAL;
    assert Filterset.KeepExprs(es) == [];
    assert forall e :: e in es && e.package in Filterset.BEHAVIORAL ==> e in Filterset.KeepExprs(es);
  }

  // ---- whole plans ----

  /** Restricting a plan the planner returned. */
  lemma RestrictedPlan(ws: Workspace, existing: set<string>, event: string, paths: seq<string>, plan: Plan,
                       package: string, test: string)
    requires ws.Valid() && CargoNames(ws) && SuitesOf(ws, existing, event, paths) == Success(plan.suites)
    ensures RestrictPlan(plan).Success?
    ensures var r := RestrictPlan(plan).value;
            && r == plan.(suites := plan.suites.(workspaceLib := r.suites.workspaceLib))
            && if plan.suites.full then r == plan
               else SuiteCovers(r.suites.workspaceLib, package, test)
                    <==> package in Filterset.BEHAVIORAL && SuiteCovers(plan.suites.workspaceLib, package, test)
  {
    hide WorkspaceSuite, SuitesOf, Collect, Total, Readable, CargoNames, SuiteCovers, Restrict;
    if !plan.suites.full {
      PlanSelection(ws, existing, event, paths);
      FinishIs(Total(ws, existing, paths));
      RestrictIsExact(Total(ws, existing, paths), package, test);
    }
  }

  /** Main result: the platform plan fails only where the paths or the plan for the relevant paths
      do; its own guard, for a filterset that lost every owner, never fires. */
  lemma PlatformPlanSucceedsIff(ws: Workspace, existing: set<string>, event: string, raws: seq<string>)
    requires ws.Valid() && CargoNames(ws)
    ensures PlatformPlanOf(ws, existing, event, raws).Success?
            <==> NormalizeAll(raws).Success?
                 && var paths := NormalizeAll(raws).value;
                    if event !in DIFFERENTIAL_EVENTS then PlanOf(ws, existing, event, paths).Success?
                    else Relevant(paths) == []
                         || PlanOf(ws, Existing(existing, Relevant(paths)), event, Relevant(paths)).Success?
  {
    hide NormalizeAll, CargoNames, Relevant, RestrictPlan, PathsResolve, Gates;
    if NormalizeAll(raws).Success? && event in DIFFERENTIAL_EVENTS {
      var relevant := Relevant(NormalizeAll(raws).value);
      var plan := PlanOf(ws, Existing(existing, relevant), event, relevant);
      if plan.Success? {
        PlanIsSuites(ws, Existing(existing, relevant), event, relevant);
        RestrictedPlan(ws, Existing(existing, relevant), event, NormalizeAll(relevant).value, plan.value, "", "");
      }
    }
  }

  lemma PlanIsSuites(ws: Workspace, existing: set<string>, event: string, raws: seq<string>)
    requires ws.Valid() && PlanOf(ws, existing, event, raws).Success?
    ensures NormalizeAll(raws).Success?
    ensures SuitesOf(ws, existing, event, NormalizeAll(raws).value)
            == Success(PlanOf(ws, existing, event, raws).value.suites)
  {
    hide SuitesOf, NormalizeAll, Gates, PathsResolve;
  }

  /** Main result: for a pull request, merge group or push with relevant paths, the platform plan is
      the plan for those paths, except that a workspace suite that is not the full one runs exactly
      the tests of the behavioural packages. */
  lemma PlatformPlanIsExact(ws: Workspace, existing: set<string>, event: string, raws: seq<string>, package: string,
                            test: string)
    requires ws.Valid() && CargoNames(ws) && PlatformPlanOf(ws, existing, event, raws).Success?
    requires event in DIFFERENTIAL_EVENTS && Relevant(NormalizeAll(raws).value) != []
    ensures var relevant := Relevant(NormalizeAll(raws).value);
            var plan := PlanOf(ws, Existing(existing, relevant), event, relevant);
            var r := PlatformPlanOf(ws, existing, event, raws).value;
            && plan.Success?
            && r == plan.value.(suites := plan.value.suites.(workspaceLib := r.suites.workspaceLib))
            && if plan.value.suites.full then r == plan.value
               else SuiteCovers(r.suites.workspaceLib, package, test)
                    <==> && package in {"wenlan-core", "wenlan-server", "wenlan"}
                         && SuiteCovers(plan.value.suites.workspaceLib, package, test)
  {
    hide NormalizeAll, CargoNames, Relevant, RestrictPlan, PathsResolve, Gates, SuiteCovers, SuitesOf;
    var relevant := Relevant(NormalizeAll(raws).value);
    PlanIsSuites(ws, Existing(existing, relevant), event, relevant);
    RestrictedPlan(ws, Existing(existing, relevant), event, NormalizeAll(relevant).value,
                   PlanOf(ws, Existing(existing, relevant), event, relevant).value, package, test);
  }

  // ---- the other branches ----

  const EVENTS: set<string> := {"pull_request", "merge_group", "push"}

  lemma EventsAre(event: string)
    ensures event in DIFFERENTIAL_EVENTS <==> event in EVENTS
  {
  }

  /** Everything runs. */
  ghost predicate IsFullPlan(plan: Plan) {
    && plan.suites.full && plan.fmtRequired && plan.clippyRequired
    && plan.suites.workspaceLib == FullSuite && plan.suites.cliServer == FullSuite && plan.suites.core == FullSuite
    && plan.suites.contract == FullSuite && plan.suites.smokes == FullSuite
  }

  /** Nothing runs. */
  ghost predicate IsSkipPlan(plan: Plan) {
    && !plan.suites.full && !plan.fmtRequired && !plan.clippyRequired
    && plan.suites.workspaceLib == SkipSuite && plan.suites.cliServer == SkipSuite && plan.suites.core == SkipSuite
    && plan.suites.contract == SkipSuite && plan.suites.smokes == SkipSuite
  }

  lemma {:induction false} NormalizedIsStable(raws: seq<string>)
    requires NormalizeAll(raws).Success?
    ensures NormalizeAll(NormalizeAll(raws).value) == NormalizeAll(raws)
  {
    hide NormalizePath;
    if raws != [] {
      var n := |raws| - 1;
      NormalizedIsStable(raws[..n]);
      NormalizeIsStable(raws[n]);
      var paths := NormalizeAll(raws).value;
      assert paths[..|paths| - 1] == NormalizeAll(raws[..n]).value;
    }
  }

  /** Main result: for any other event than a pull request, a merge group or a push, the plan and the
      platform plan run everything, whatever changed; they fail exactly when a path is malformed or a
      path dependency is unknown. */
  lemma OtherEventsRunEverything(ws: Workspace, existing: set<string>, event: string, raws: seq<string>)
    requires ws.Valid() && event !in EVENTS
    ensures PlatformPlanOf(ws, existing, event, raws).Success?
            <==> NormalizeAll(raws).Success? && PathsResolve(ws.packages)
    ensures PlanOf(ws, existing, event, raws).Success? <==> NormalizeAll(raws).Success? && PathsResolve(ws.packages)
    ensures PlanOf(ws, existing, event, raws).Success?
            ==> && IsFullPlan(PlanOf(ws, existing, event, raws).value)
                && PlatformPlanOf(ws, existing, event, raws) == PlanOf(ws, existing, event, raws)
  {
    hide NormalizeAll, PathsResolve, LowerSuffix, IsClippyInput, IsNonClippyContractInput, Collect, Finish, Relevant;
    EventsAre(event);
    if NormalizeAll(raws).Success? {
      NormalizedIsStable(raws);
    }
  }

  /** The platform jobs care for shared Cargo files and what is below `crates`, but for two files that
      are tested on Linux only. */
  ghost predicate MattersOnPlatforms(path: string) {
    || path == "Cargo.toml" || path == "Cargo.lock" || path == "rust-toolchain.toml"
    || ("crates/" <= path && path != "crates/wenlan-cli/tests/distribution.rs"
        && path != "crates/wenlan-core/src/drift_guard.rs")
  }

  lemma RelevantIff(paths: seq<string>, path: string)
    ensures path in Relevant(paths) <==> path in paths && MattersOnPlatforms(path)
  {
  }

  /** Main result: where no changed path matters on the platforms, the platform plan of a pull request,
      merge group or push runs nothing. */
  lemma IrrelevantPathsSkip(ws: Workspace, existing: set<string>, event: string, raws: seq<string>)
    requires ws.Valid() && event in EVENTS && NormalizeAll(raws).Success?
    requires forall path :: path in NormalizeAll(raws).value ==> !MattersOnPlatforms(path)
    ensures PlatformPlanOf(ws, existing, event, raws).Success?
    ensures IsSkipPlan(PlatformPlanOf(ws, existing, event, raws).value)
  {
    hide NormalizeAll, Relevant, MattersOnPlatforms, RestrictPlan, PlanOf;
    EventsAre(event);
    var paths := NormalizeAll(raws).value;
    if Relevant(paths) != [] {
      RelevantIff(paths, Relevant(paths)[0]);
    }
  }

  // ---- commands ----

  lemma KeptNames(names: seq<string>)
    ensures forall p :: p in Filterset.KeepNames(names) ==> p in names
  {
  }

  /** A restricted workspace suite still translates. */
  lemma RestrictedTranslates(ws: Workspace, s: Selection)
    requires ws.Valid() && Fits(ws, s) && Readable(s) && "" !in ws.packages
    ensures var suite := Restrict(WorkspaceSuite(s.broad, s.filters, s.tests));
            && suite.Success?
            && WorkspaceCommands(suite.value, ws.packages).Success?
            && (WorkspaceCommands(suite.value, ws.packages).value == [] <==> suite.value == SkipSuite)
  {
    hide Fits, Readable, WorkspaceSuite, ValidatedNames, Filterset.KeepNames, Filterset.KeepTexts, PackageArgs,
         BinArgs, Join, Split;
    RestrictIsExact(s, "", "");
    var suite := WorkspaceSuite(s.broad, s.filters, s.tests);
    SuiteNames(ws, s);
    match suite {
      case PackageSuite(names) =>
        KeptNames(names);
        NamesValidate(Filterset.KeepNames(names), ws.packages);
      case FilterSuite(names, text) =>
        KeptNames(names);
        NamesValidate(Filterset.KeepNames(names), ws.packages);
        JoinIsNotEmpty(s, names, text);
      case _ =>
    }
  }

  lemma NamesValidate(names: seq<string>, packages: Packages)
    requires "" !in packages && forall p :: p in names ==> p in packages
    ensures names != [] ==> ValidatedNames(names, packages, packages.Keys).Success?
  {
    hide Sorted;
  }

  lemma SuiteNames(ws: Workspace, s: Selection)
    requires Fits(ws, s)
    ensures var suite := WorkspaceSuite(s.broad, s.filters, s.tests);
            && (suite.SkipSuite? || suite.PackageSuite? || suite.FilterSuite?)
            && (suite.PackageSuite? || suite.FilterSuite? ==> forall p :: p in suite.names ==> p in ws.packages)
  {
    hide Fits, Expressions, Keys, Without, Filterset.PrintFilterset;
    ListedPackages(ws, s);
  }

  lemma JoinIsNotEmpty(s: Selection, names: seq<string>, text: string)
    requires Readable(s) && WorkspaceSuite(s.broad, s.filters, s.tests) == FilterSuite(names, text)
    ensures var texts := Filterset.KeepTexts(Split(text, Filterset.SEPARATOR), Filterset.KeepNames(names));
            Filterset.KeepNames(names) != [] ==> texts != [] && Join(texts, Filterset.SEPARATOR) != ""
  {
    hide WorkspaceSuite, Readable, Filterset.ParseFilterset, Filterset.PrintFilterset, Filterset.AllValid,
         Filterset.Packages, Filterset.BEHAVIORAL, Filterset.KeepTexts, Filterset.KeepNames, Filterset.Print, Join,
         Split;
    var es := SuiteExpressions(s);
    Filterset.PlatformKeepsBehavioral(es, names);
    if Filterset.KeepNames(names) != [] {
      KeptIsNotEmpty(es);
      PrintedIsNotEmpty(Filterset.KeepExprs(es));
    }
  }

  /** Main result: every suite of every platform plan translates into commands for the same metadata,
      except a full core suite when the core package has no target to run; a suite has no commands
      exactly when its mode is skip, exactly when its required output is false. */
  lemma PlatformPlansTranslate(ws: Workspace, existing: set<string>, event: string, raws: seq<string>, name: SuiteName)
    requires IsNamed(ws) && CargoNames(ws) && PlatformPlanOf(ws, existing, event, raws).Success?
    ensures Translates(ws, PlatformPlanOf(ws, existing, event, raws).value.suites, name)
  {
    hide NormalizeAll, CargoNames, Relevant, RestrictPlan, CommandGroups, PlanOf, Translates;
    var paths := NormalizeAll(raws).value;
    var p := PlatformPlanOf(ws, existing, event, raws).value;
    if event !in DIFFERENTIAL_EVENTS {
      PlanIsSuites(ws, existing, event, paths);
      PlansTranslate(ws, existing, event, NormalizeAll(paths).value, name);
    } else if Relevant(paths) == [] {
      SkipTranslates(ws, name);
    } else {
      var relevant := Relevant(paths);
      PlanIsSuites(ws, Existing(existing, relevant), event, relevant);
      RestrictedPlanTranslates(ws, Existing(existing, relevant), event, NormalizeAll(relevant).value,
                               PlanOf(ws, Existing(existing, relevant), event, relevant).value, name);
    }
  }

  lemma SkipTranslates(ws: Workspace, name: SuiteName)
    ensures Translates(ws, SKIP_SUITES, name)
  {
  }

  lemma RestrictedPlanTranslates(ws: Workspace, existing: set<string>, event: string, paths: seq<string>, plan: Plan,
                                 name: SuiteName)
    requires IsNamed(ws) && CargoNames(ws) && SuitesOf(ws, existing, event, paths) == Success(plan.suites)
    ensures RestrictPlan(plan).Success?
    ensures Translates(ws, RestrictPlan(plan).value.suites, name)
  {
    hide SuitesOf, CargoNames, WorkspaceSuite, WorkspaceCommands, IntegrationCommands, CoreCommands, Collect, Total,
         Readable, Restrict, Fits, HasCoreTarget;
    PlansTranslate(ws, existing, event, paths, name);
    if !plan.suites.full {
      var s := Total(ws, existing, paths);
      PlanSelection(ws, existing, event, paths);
      TotalFits(ws, existing, paths);
      FinishIs(s);
      RestrictedTranslates(ws, s);
    }
  }
}
