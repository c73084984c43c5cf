/**
 The planner of scripts/ci_test_plan.py: `_build_test_plan`, `_workspace_lib_plan` and
 `build_plan`.

 A plan is folded from the effects of the changed paths. `Total` is that fold without an order.
 */
module TestPlan {
  import opened Wrappers
  import opened Strings
  import opened PackageGraph
  import opened PathRules
  import Filterset

  type Pairs = set<(string, string)>

  /** Everything the loop over the paths accumulates. A dictionary of non-empty sets is the set
      of its (key, element) pairs. */
  datatype Selection = Selection(
    broad: set<string>, filters: Pairs, tests: Pairs,
    cliPackages: set<string>, cliTargets: Pairs,
    contractPackages: set<string>, contractTargets: Pairs,
    coreFull: bool, coreTargets: set<string>, smokes: bool)

  const NOTHING := Selection({}, {}, {}, {}, {}, {}, {}, false, {}, false)

  datatype Outcome = Raised | Widened | Selected(selection: Selection)

  ghost function Apply(packages: Packages, s: Selection, e: Effect): Selection {
    match e
    case TestOwner(t) => s.(tests := s.tests + {(CORE, t)})
    case ModuleOwner(x) => s.(filters := s.filters + {(CORE, x)})
    case CliPackage(p) => s.(cliPackages := s.cliPackages + {p})
    case CliTarget(p, t) => s.(cliTargets := s.cliTargets + {(p, t)})
    case ContractPackage(p) => s.(contractPackages := s.contractPackages + {p})
    case ContractTarget(p, t) => s.(contractTargets := s.contractTargets + {(p, t)})
    case CoreSuite => s.(coreFull := true)
    case CoreTarget(t) => s.(coreTargets := s.coreTargets + {t})
    case PackageOnly(p) => s.(broad := s.broad + {p})
    case SourceChange(p) =>
      var closure := ReverseClosure(packages, p);
      s.(broad := s.broad + closure, cliPackages := s.cliPackages + closure * CLI_SERVER_PACKAGES,
         contractPackages := s.contractPackages + closure * CONTRACT_PACKAGES,
         coreFull := s.coreFull || CORE in closure, smokes := true)
    case _ => s
  }

  ghost function Collect(ws: Workspace, existing: set<string>, paths: seq<string>): Outcome
    requires ws.Valid()
  {
    if paths == [] then Selected(NOTHING)
    else
      match Collect(ws, existing, paths[..|paths| - 1])
      case Selected(s) =>
        (match Classify(ws, existing, paths[|paths| - 1])
         case Raise => Raised
         case Widen => Widened
         case e => Selected(Apply(ws.packages, s, e)))
      case o => o
  }

  /** The loop over the changed paths; it stops at the first one that raises or widens. */
  method CollectPaths(ws: Workspace, reverse: Reverse, existing: set<string>, paths: seq<string>) returns (o: Outcome)
    requires ws.Valid() && IsReverse(ws.packages, reverse)
    ensures o == Collect(ws, existing, paths)
  {
    hide Classify, ReverseClosure;
    var s := NOTHING;
    assert paths[..0] == [];
    for i := 0 to |paths|
      invariant Collect(ws, existing, paths[..i]) == Selected(s)
    {
      var e := Classify(ws, existing, paths[i]);
      CollectNext(ws, existing, paths, i);
      match e {
        case Raise =>
          CollectStops(ws, existing, paths, i + 1);
          return Raised;
        case Widen =>
          CollectStops(ws, existing, paths, i + 1);
          return Widened;
        case Ignored =>
        case TestOwner(t) => s := s.(tests := s.tests + {(CORE, t)});
        case ModuleOwner(x) => s := s.(filters := s.filters + {(CORE, x)});
        case CliPackage(p) => s := s.(cliPackages := s.cliPackages + {p});
        case CliTarget(p, t) => s := s.(cliTargets := s.cliTargets + {(p, t)});
        case ContractPackage(p) => s := s.(contractPackages := s.contractPackages + {p});
        case ContractTarget(p, t) => s := s.(contractTargets := s.contractTargets + {(p, t)});
        case CoreSuite => s := s.(coreFull := true);
        case CoreTarget(t) => s := s.(coreTargets := s.coreTargets + {t});
        case PackageOnly(p) => s := s.(broad := s.broad + {p});
        case SourceChange(p) =>
          var closure := Closure(p, reverse, ws.packages);
          s := s.(broad := s.broad + closure, cliPackages := s.cliPackages + closure * CLI_SERVER_PACKAGES,
                  contractPackages := s.contractPackages + closure * CONTRACT_PACKAGES,
                  coreFull := s.coreFull || CORE in closure, smokes := true);
      }
    }
    assert paths[..|paths|] == paths;
    return Selected(s);
  }

  lemma CollectNext(ws: Workspace, existing: set<string>, paths: seq<string>, i: nat)
    requires ws.Valid() && i < |paths|
    ensures Collect(ws, existing, paths[..i + 1])
         == match Collect(ws, existing, paths[..i])
            case Selected(s) =>
              (match Classify(ws, existing, paths[i])
               case Raise => Raised
               case Widen => Widened
               case e => Selected(Apply(ws.packages, s, e)))
            case o => o
  {
    hide Classify, Apply;
    assert paths[..i + 1][..i] == paths[..i];
  }

  lemma {:induction false} CollectStops(ws: Workspace, existing: set<string>, paths: seq<string>, i: nat)
    requires ws.Valid() && i <= |paths| && !Collect(ws, existing, paths[..i]).Selected?
    ensures Collect(ws, existing, paths) == Collect(ws, existing, paths[..i])
    decreases |paths| - i
  {
    hide Classify, Apply;
    if i < |paths| {
      CollectNext(ws, existing, paths, i);
      CollectStops(ws, existing, paths, i + 1);
    } else {
      assert paths[..i] == paths;
    }
  }

  // ---- the fold without an order ----

  predicate Below(a: Selection, b: Selection) {
    && a.broad <= b.broad && a.filters <= b.filters && a.tests <= b.tests
    && a.cliPackages <= b.cliPackages && a.cliTargets <= b.cliTargets
    && a.contractPackages <= b.contractPackages && a.contractTargets <= b.contractTargets
    && (a.coreFull ==> b.coreFull) && a.coreTargets <= b.coreTargets && (a.smokes ==> b.smokes)
  }

  function Union(a: Selection, b: Selection): Selection {
    Selection(a.broad + b.broad, a.filters + b.filters, a.tests + b.tests,
              a.cliPackages + b.cliPackages, a.cliTargets + b.cliTargets,
              a.contractPackages + b.contractPackages, a.contractTargets + b.contractTargets,
              a.coreFull || b.coreFull, a.coreTargets + b.coreTargets, a.smokes || b.smokes)
  }

  ghost function Contribution(ws: Workspace, existing: set<string>, path: string): Selection
    requires ws.Valid()
  {
    Apply(ws.packages, NOTHING, Classify(ws, existing, path))
  }

  ghost function Total(ws: Workspace, existing: set<string>, paths: seq<string>): Selection
    requires ws.Valid()
  {
    if paths == [] then NOTHING
    else Union(Total(ws, existing, paths[..|paths| - 1]), Contribution(ws, existing, paths[|paths| - 1]))
  }

  lemma ApplyIsUnion(packages: Packages, s: Selection, e: Effect)
    ensures Apply(packages, s, e) == Union(s, Apply(packages, NOTHING, e))
  {
    hide ReverseClosure;
  }

  lemma UnionIsLeast(a: Selection, b: Selection, c: Selection)
    ensures Below(a, Union(a, b)) && Below(b, Union(a, b))
    ensures Below(a, c) && Below(b, c) ==> Below(Union(a, b), c)
  {
  }

  lemma BelowOrder(a: Selection, b: Selection, c: Selection)
    ensures Below(NOTHING, a) && Below(a, a)
    ensures Below(a, b) && Below(b, c) ==> Below(a, c)
    ensures Below(a, b) && Below(b, a) ==> a == b
  {
  }

  ghost predicate NoneRaises(ws: Workspace, existing: set<string>, paths: seq<string>)
    requires ws.Valid()
  {
    forall i :: 0 <= i < |paths| ==> Classify(ws, existing, paths[i]) != Raise
  }

  ghost predicate SomeWidens(ws: Workspace, existing: set<string>, paths: seq<string>)
    requires ws.Valid()
  {
    exists i :: 0 <= i < |paths| && Classify(ws, existing, paths[i]) == Widen
  }

  lemma {:induction false} CollectIsTotal(ws: Workspace, existing: set<string>, paths: seq<string>)
    requires ws.Valid() && NoneRaises(ws, existing, paths)
    ensures Collect(ws, existing, paths)
         == if SomeWidens(ws, existing, paths) then Widened else Selected(Total(ws, existing, paths))
  {
    hide Classify, Apply, Union;
    if paths != [] {
      var front, last := paths[..|paths| - 1], paths[|paths| - 1];
      CollectIsTotal(ws, existing, front);
      ApplyIsUnion(ws.packages, Total(ws, existing, front), Classify(ws, existing, last));
      if SomeWidens(ws, existing, paths) && Classify(ws, existing, last) != Widen {
        var i :| 0 <= i < |paths| && Classify(ws, existing, paths[i]) == Widen;
        assert front[i] == paths[i];
      }
    }
  }

  lemma {:induction false} ContributesToTotal(ws: Workspace, existing: set<string>, paths: seq<string>, path: string)
    requires ws.Valid() && path in paths
    ensures Below(Contribution(ws, existing, path), Total(ws, existing, paths))
  {
    hide Contribution, Below, Union;
    var front, last := paths[..|paths| - 1], paths[|paths| - 1];
    var t, c := Total(ws, existing, front), Contribution(ws, existing, last);
    UnionIsLeast(t, c, c);
    if path != last {
      assert path in front;
      ContributesToTotal(ws, existing, front, path);
      BelowOrder(Contribution(ws, existing, path), t, Union(t, c));
    }
  }

  lemma {:induction false} TotalIsMonotone(ws: Workspace, existing: set<string>, paths: seq<string>, more: seq<string>)
    requires ws.Valid() && forall p :: p in paths ==> p in more
    ensures Below(Total(ws, existing, paths), Total(ws, existing, more))
  {
    hide Contribution, Below, Union;
    var t := Total(ws, existing, more);
    if paths == [] {
      BelowOrder(t, t, t);
    } else {
      var front, last := paths[..|paths| - 1], paths[|paths| - 1];
      TotalIsMonotone(ws, existing, front, more);
      ContributesToTotal(ws, existing, more, last);
      UnionIsLeast(Total(ws, existing, front), Contribution(ws, existing, last), t);
    }
  }

  // ---- suites ----

  datatype Suite =
    | SkipSuite | FullSuite
    | PackageSuite(names: seq<string>)
    | FilterSuite(names: seq<string>, text: string)
    | TargetSuite(targets: map<string, seq<string>>)
    | CoreTargetSuite(coreTargets: seq<string>)

  /** The suite portion of a plan; `full` is the plan's mode. */
  datatype Suites = Suites(full: bool, workspaceLib: Suite, cliServer: Suite, core: Suite, contract: Suite,
                           smokes: Suite)
  datatype Plan = Plan(suites: Suites, fmtRequired: bool, clippyRequired: bool)

  const FULL_SUITES := Suites(true, FullSuite, FullSuite, FullSuite, FullSuite, FullSuite)
  const SKIP_SUITES := Suites(false, SkipSuite, SkipSuite, SkipSuite, SkipSuite, SkipSuite)

  function Keys(pairs: Pairs): set<string> {
    set p | p in pairs :: p.0
  }

  function Of(pairs: Pairs, key: string): set<string> {
    set p | p in pairs && p.0 == key :: p.1
  }

  /** `pop` of every key in `packages`. */
  function Without(pairs: Pairs, packages: set<string>): Pairs {
    set p | p in pairs && p.0 !in packages
  }

  function BroadExprs(names: seq<string>): seq<Filterset.Expr> {
    if names == [] then [] else BroadExprs(names[..|names| - 1]) + [Filterset.Broad(names[|names| - 1])]
  }

  function Isolated(package: string, name: string, exact: bool): Filterset.Expr {
    if exact then Filterset.Exact(package, name) else Filterset.Prefix(package, name)
  }

  function IsolatedExprs(package: string, names: seq<string>, exact: bool): seq<Filterset.Expr> {
    if names == [] then []
    else IsolatedExprs(package, names[..|names| - 1], exact) + [Isolated(package, names[|names| - 1], exact)]
  }

  function NestedExprs(keys: seq<string>, pairs: Pairs, exact: bool): seq<Filterset.Expr> {
    if keys == [] then []
    else
      var key := keys[|keys| - 1];
      NestedExprs(keys[..|keys| - 1], pairs, exact) + IsolatedExprs(key, Sorted(Of(pairs, key)), exact)
  }

  function Expressions(broad: set<string>, filters: Pairs, tests: Pairs): seq<Filterset.Expr> {
    BroadExprs(Sorted(broad)) + NestedExprs(Sorted(Keys(filters)), filters, false)
    + NestedExprs(Sorted(Keys(tests)), tests, true)
  }

  function WorkspaceSuite(broad: set<string>, allFilters: Pairs, allTests: Pairs): Suite {
    var filters, tests := Without(allFilters, broad), Without(allTests, broad);
    var es := Expressions(broad, filters, tests);
    if es == [] then SkipSuite
    else if filters != {} || tests != {} then
      FilterSuite(Sorted(broad + Keys(filters) + Keys(tests)), Filterset.PrintFilterset(es))
    else PackageSuite(Sorted(broad))
  }

  method NestedExpressions(pairs: Pairs, exact: bool) returns (es: seq<Filterset.Expr>)
    ensures es == NestedExprs(Sorted(Keys(pairs)), pairs, exact)
  {
    hide Sorted, Keys, Of;
    es := [];
    var keys := Sorted(Keys(pairs));
    assert keys[..0] == [];
    for i := 0 to |keys|
      invariant es == NestedExprs(keys[..i], pairs, exact)
    {
      var names := Sorted(Of(pairs, keys[i]));
      ghost var before := es;
      assert names[..0] == [];
      for j := 0 to |names|
        invariant es == before + IsolatedExprs(keys[i], names[..j], exact)
      {
        es := es + [Isolated(keys[i], names[j], exact)];
        assert names[..j + 1][..j] == names[..j];
      }
      assert names[..|names|] == names && keys[..i + 1][..i] == keys[..i];
    }
    assert keys[..|keys|] == keys;
  }

  method WorkspaceLibPlan(broad: set<string>, allFilters: Pairs, allTests: Pairs) returns (suite: Suite)
    ensures suite == WorkspaceSuite(broad, allFilters, allTests)
  {
    hide Sorted, Keys, NestedExprs, Without;
    var filters, tests := Without(allFilters, broad), Without(allTests, broad);
    var es: seq<Filterset.Expr> := [];
    var names := Sorted(broad);
    assert names[..0] == [];
    for i := 0 to |names|
      invariant es == BroadExprs(names[..i])
    {
      es := es + [Filterset.Broad(names[i])];
      assert names[..i + 1][..i] == names[..i];
    }
    assert names[..|names|] == names;
    var modules := NestedExpressions(filters, false);
    var exacts := NestedExpressions(tests, true);
    es := es + modules + exacts;
    if es == [] {
      return SkipSuite;
    }
    if filters != {} || tests != {} {
      return FilterSuite(Sorted(broad + Keys(filters) + Keys(tests)), Filterset.PrintFilterset(es));
    }
    return PackageSuite(Sorted(broad));
  }

  function TargetsByPackage(pairs: Pairs): map<string, seq<string>> {
    map p | p in Keys(pairs) :: Sorted(Of(pairs, p))
  }

  function IntegrationSuite(packages: set<string>, allTargets: Pairs): Suite {
    var targets := Without(allTargets, packages);
    if packages != {} then PackageSuite(Sorted(packages))
    else if targets != {} then TargetSuite(TargetsByPackage(targets))
    else SkipSuite
  }

  function Finish(s: Selection): Suites {
    Suites(false,
           WorkspaceSuite(s.broad, s.filters, s.tests),
           IntegrationSuite(s.cliPackages, s.cliTargets),
           if s.coreFull then FullSuite
           else if s.coreTargets != {} then CoreTargetSuite(Sorted(s.coreTargets))
           else SkipSuite,
           IntegrationSuite(s.contractPackages, s.contractTargets),
           if s.smokes then FullSuite else SkipSuite)
  }

  // ---- plans ----

  const DIFFERENTIAL_EVENTS: set<string> := {"pull_request", "merge_group", "push"}

  function NormalizeAll(raws: seq<string>): Result<seq<string>, PlanError> {
    if raws == [] then Success([])
    else
      var front :- NormalizeAll(raws[..|raws| - 1]);
      var last :- NormalizePath(raws[|raws| - 1]);
      Success(front + [last])
  }

  ghost function SuitesOf(ws: Workspace, existing: set<string>, event: string,
                          paths: seq<string>): Result<Suites, PlanError>
    requires ws.Valid()
  {
    if event !in DIFFERENTIAL_EVENTS then Success(FULL_SUITES)
    else if paths == [] then Failure(NoPaths)
    else
      match Collect(ws, existing, paths)
      case Raised => Failure(UnknownOwner)
      case Widened => Success(FULL_SUITES)
      case Selected(s) => Success(Finish(s))
  }

  /** `_daily_gate_requirements` */
  function Gates(suites: Suites, existing: set<string>, event: string, paths: seq<string>): (bool, bool) {
    if event !in DIFFERENTIAL_EVENTS then (true, true)
    else
      (exists i :: 0 <= i < |paths| && LowerSuffix(paths[i]) == ".rs",
       || (exists i :: 0 <= i < |paths| && IsClippyInput(paths[i]))
       || (suites.full && exists i :: 0 <= i < |paths| && !IsNonClippyContractInput(paths[i], existing)))
  }

  ghost function PlanOf(ws: Workspace, existing: set<string>, event: string, raws: seq<string>): Result<Plan, PlanError>
    requires ws.Valid()
  {
    if !PathsResolve(ws.packages) then Failure(UnknownDependency)
    else
      var paths :- NormalizeAll(raws);
      var suites :- SuitesOf(ws, existing, event, paths);
      var (fmt, clippy) := Gates(suites, existing, event, paths);
      Success(Plan(suites, fmt, clippy))
  }

  method BuildTestPlan(ws: Workspace, existing: set<string>, event: string, paths: seq<string>)
    returns (r: Result<Suites, PlanError>)
    requires ws.Valid() && PathsResolve(ws.packages)
    ensures r == SuitesOf(ws, existing, event, paths)
  {
    hide Collect, Finish, PathsResolve;
    var reverse := ReverseDependencies(ws.packages);
    if event !in DIFFERENTIAL_EVENTS {
      return Success(FULL_SUITES);
    }
    if paths == [] {
      return Failure(NoPaths);
    }
    var o := CollectPaths(ws, reverse.value, existing, paths);
    match o {
      case Raised => return Failure(UnknownOwner);
      case Widened => return Success(FULL_SUITES);
      case Selected(s) =>
        var workspaceLib := WorkspaceLibPlan(s.broad, s.filters, s.tests);
        FinishIs(s);
        return Success(Finish(s).(workspaceLib := workspaceLib));
    }
  }

  lemma FinishIs(s: Selection)
    ensures Finish(s).workspaceLib == WorkspaceSuite(s.broad, s.filters, s.tests)
  {
  }

  method BuildPlan(ws: Workspace, existing: set<string>, event: string, raws: seq<string>)
    returns (r: Result<Plan, PlanError>)
    requires ws.Valid()
    ensures r == PlanOf(ws, existing, event, raws)
  {
    hide PathsResolve, NormalizeAll, SuitesOf, Gates;
    var reverse := ReverseDependencies(ws.packages);
    if reverse.Failure? {
      return Failure(UnknownDependency);
    }
    var paths :- NormalizeAll(raws);
    var suites :- BuildTestPlan(ws, existing, event, paths);
    var (fmt, clippy) := Gates(suites, existing, event, paths);
    return Success(Plan(suites, fmt, clippy));
  }
}
