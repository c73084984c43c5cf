/**
 The translation of a plan's suites into commands in scripts/ci_test_plan.py
 (`command_groups_for`, `required_suite_outputs`), without partitions and archives.
 */
module PlanCommands {
  import opened Wrappers
  import opened Strings
  import opened PackageGraph
  import opened PathRules
  import opened TestPlan
  import TestPlanLaws
  import Filterset

  datatype SuiteName = WorkspaceLib | CliServer | Core | Contract

  type Command = seq<string>

  const RUN: Command := ["cargo", "nextest", "run"]
  const BIN_UNIT_TEST_PACKAGES: seq<string> := ["wenlan-server", "wenlan"]

  function PackageArgs(names: seq<string>): Command {
    if names == [] then [] else ["-p", names[0]] + PackageArgs(names[1..])
  }

  function TestArgs(targets: seq<string>): Command {
    if targets == [] then [] else ["--test", targets[0]] + TestArgs(targets[1..])
  }

  function BinArgs(packages: seq<string>, names: seq<string>): Command {
    if packages == [] then []
    else (if packages[0] in names then ["--bin", packages[0]] else []) + BinArgs(packages[1..], names)
  }

  function Elements(names: seq<string>): set<string> {
    set x | x in names
  }

  /** `_validated_package_names` */
  function ValidatedNames(names: seq<string>, packages: Packages,
                          allowed: set<string>): Result<seq<string>, PlanError> {
    if names == [] || "" in names then Failure(EmptyInventory)
    else if !(Elements(names) <= packages.Keys) then Failure(UnknownPackages)
    else if !(Elements(names) <= allowed) then Failure(OutsideOwner)
    else Success(Sorted(Elements(names)))
  }

  function WorkspaceCommands(suite: Suite, packages: Packages): Result<seq<Command>, PlanError> {
    match suite
    case SkipSuite => Success([])
    case FullSuite =>
      Success([RUN + ["--workspace", "--exclude", "wenlan-app", "--lib"]
               + BinArgs(BIN_UNIT_TEST_PACKAGES, BIN_UNIT_TEST_PACKAGES)])
    case PackageSuite(list) =>
      var names :- ValidatedNames(list, packages, packages.Keys);
      Success([RUN + PackageArgs(names) + ["--lib"] + BinArgs(BIN_UNIT_TEST_PACKAGES, names)])
    case FilterSuite(list, text) =>
      if text == "" then Failure(EmptyInventory)
      else
        var names :- ValidatedNames(list, packages, packages.Keys);
        Success([RUN + PackageArgs(names) + ["--lib", "-E", text] + BinArgs(BIN_UNIT_TEST_PACKAGES, names)])
    case _ => Failure(UnknownMode)
  }

  /** One command per package of a target suite, in sorted order. */
  function TargetCommands(keys: seq<string>, targets: map<string, seq<string>>, packages: Packages, owners: set<string>)
    : Result<seq<Command>, PlanError>
    requires forall k :: k in keys ==> k in targets
  {
    if keys == [] then Success([])
    else
      var key, names := keys[0], targets[keys[0]];
      if key !in owners then Failure(OutsideOwner)
      else if names == [] || "" in names then Failure(EmptyTargets)
      else if key !in packages || !(Elements(names) <= IntegrationTargets(packages[key])) then Failure(UnknownTargets)
      else
        var rest :- TargetCommands(keys[1..], targets, packages, owners);
        Success([RUN + ["-p", key] + TestArgs(Sorted(Elements(names)))] + rest)
  }

  function IntegrationCommands(suite: Suite, packages: Packages, owners: set<string>): Result<seq<Command>, PlanError> {
    match suite
    case SkipSuite => Success([])
    case FullSuite => Success([RUN + PackageArgs(Sorted(owners)) + ["-E", "kind(test)"]])
    case PackageSuite(list) =>
      var names :- ValidatedNames(list, packages, owners);
      Success([RUN + PackageArgs(names) + ["-E", "kind(test)"]])
    case TargetSuite(targets) =>
      if targets == map[] then Failure(EmptyTargets)
      else TargetCommands(Sorted(targets.Keys), targets, packages, owners)
    case _ => Failure(UnknownMode)
  }

  function CoreTargets(suite: Suite, known: set<string>): Result<set<string>, PlanError> {
    match suite
    case FullSuite => Success(known - MANUAL_CORE_INTEGRATION)
    case CoreTargetSuite(list) =>
      if list == [] || "" in list then Failure(EmptyTargets)
      else if !(Elements(list) <= known) then Failure(UnknownTargets)
      else if Elements(list) * MANUAL_CORE_INTEGRATION != {} then Failure(ManualTargets)
      else Success(Elements(list))
    case _ => Failure(UnknownMode)
  }

  function CoreCommands(suite: Suite, packages: Packages): Result<seq<Command>, PlanError> {
    if suite == SkipSuite then Success([])
    else if CORE !in packages then Failure(NoCorePackage)
    else
      var targets :- CoreTargets(suite, IntegrationTargets(packages[CORE]));
      if targets == {} then Failure(EmptyInventory)
      else Success([RUN + ["-p", CORE, "--features", "eval-harness"] + TestArgs(Sorted(targets))])
  }

  function SuiteOf(suites: Suites, name: SuiteName): Suite {
    match name
    case WorkspaceLib => suites.workspaceLib
    case CliServer => suites.cliServer
    case Core => suites.core
    case Contract => suites.contract
  }

  /** `command_groups_for` */
  function CommandGroups(name: SuiteName, suites: Suites, packages: Packages): Result<seq<Command>, PlanError> {
    match name
    case WorkspaceLib => WorkspaceCommands(suites.workspaceLib, packages)
    case CliServer => IntegrationCommands(suites.cliServer, packages, CLI_SERVER_PACKAGES)
    case Core => CoreCommands(suites.core, packages)
    case Contract => IntegrationCommands(suites.contract, packages, CONTRACT_PACKAGES)
  }

  /** `required_suite_outputs`: one flag per suite, and the two derived ones. */
  function Required(suites: Suites, name: SuiteName): bool {
    SuiteOf(suites, name) != SkipSuite
  }

  function SmokesRequired(suites: Suites): bool {
    suites.smokes != SkipSuite
  }

  function CanonicalAcceptanceRequired(suites: Suites): bool {
    Required(suites, CliServer) || Required(suites, Core) || SmokesRequired(suites)
  }

  function RustCiRequired(suites: Suites): bool {
    Required(suites, WorkspaceLib) || CanonicalAcceptanceRequired(suites) || Required(suites, Contract)
  }

  // ---- what the planner selects is in the workspace ----

  /** Every selected package and target exists, belongs to its suite and is not manual-only. */
  ghost predicate Fits(ws: Workspace, s: Selection) {
    && s.broad <= ws.packages.Keys
    && (forall p :: p in s.filters ==> p.0 in ws.packages) && (forall p :: p in s.tests ==> p.0 in ws.packages)
    && s.cliPackages <= ws.packages.Keys * CLI_SERVER_PACKAGES && TargetsFit(ws, s.cliTargets, CLI_SERVER_PACKAGES)
    && s.contractPackages <= ws.packages.Keys * CONTRACT_PACKAGES
    && TargetsFit(ws, s.contractTargets, CONTRACT_PACKAGES)
    && (s.coreFull || s.coreTargets != {} ==> CORE in ws.packages)
    && (forall t :: t in s.coreTargets ==>
          CORE in ws.packages && t in IntegrationTargets(ws.packages[CORE]) && t != "" && t !in MANUAL_CORE_INTEGRATION)
  }

  ghost predicate TargetsFit(ws: Workspace, targets: Pairs, owners: set<string>) {
    forall p :: p in targets ==>
      p.0 in ws.packages && p.0 in owners && p.1 in IntegrationTargets(ws.packages[p.0]) && p.1 != ""
  }

  lemma ContributionFits(ws: Workspace, existing: set<string>, path: string)
    requires ws.Valid()
    ensures Fits(ws, Contribution(ws, existing, path))
  {
    hide Classify, ReverseClosure, IntegrationTargets, CORE, CLI_SERVER_PACKAGES, CONTRACT_PACKAGES,
         MANUAL_CORE_INTEGRATION, Filterset.IsTestPath;
    ClassifyFits(ws, existing, path);
    var e := Classify(ws, existing, path);
    if e.SourceChange? {
      TestPlanLaws.ClosureInWorkspace(ws.packages, e.package);
    }
  }

  lemma {:induction false} TotalFits(ws: Workspace, existing: set<string>, paths: seq<string>)
    requires ws.Valid()
    ensures Fits(ws, Total(ws, existing, paths))
  {
    hide Contribution, IntegrationTargets, CLI_SERVER_PACKAGES, CONTRACT_PACKAGES, MANUAL_CORE_INTEGRATION, CORE;
    if paths != [] {
      TotalFits(ws, existing, paths[..|paths| - 1]);
      ContributionFits(ws, existing, paths[|paths| - 1]);
    }
  }

  // ---- the translation succeeds ----

  lemma NamesAreValid(names: set<string>, packages: Packages, allowed: set<string>)
    requires names != {} && names <= packages.Keys && names <= allowed && "" !in packages
    ensures ValidatedNames(Sorted(names), packages, allowed) == Success(Sorted(names))
  {
    hide Sorted;
    assert Elements(Sorted(names)) == names;
    assert Sorted(names) != [] by { assert exists x :: x in names; }
  }

  lemma PrintedIsNotEmpty(es: seq<Filterset.Expr>)
    requires es != []
    ensures Filterset.PrintFilterset(es) != ""
  {
    hide Filterset.Tail;
    assert |Filterset.PrintExpr(es[0])| > 0;
    assert Filterset.Print(es)[0] == Filterset.PrintExpr(es[0]);
  }

  /** The packages listed by a workspace suite exist. */
  lemma ListedPackages(ws: Workspace, s: Selection)
    requires Fits(ws, s)
    ensures var filters, tests := Without(s.filters, s.broad), Without(s.tests, s.broad);
            var names := s.broad + Keys(filters) + Keys(tests);
            && names <= ws.packages.Keys
            && (Expressions(s.broad, filters, tests) != [] <==> names != {})
            && (filters == {} && tests == {} ==> names == s.broad)
  {
    hide Expressions, Keys, TargetsFit, IntegrationTargets;
    var filters, tests := Without(s.filters, s.broad), Without(s.tests, s.broad);
    TestPlanLaws.KeysExact(filters);
    TestPlanLaws.KeysExact(tests);
    TestPlanLaws.ExpressionPackages(s.broad, filters, tests);
    var es := Expressions(s.broad, filters, tests);
    if es != [] {
      assert es[0].package in Filterset.Packages(es);
    }
  }

  lemma WorkspaceTranslates(ws: Workspace, s: Selection)
    requires Fits(ws, s) && "" !in ws.packages
    ensures var suite := WorkspaceSuite(s.broad, s.filters, s.tests);
            var r := WorkspaceCommands(suite, ws.packages);
            r.Success? && (r.value == [] <==> suite == SkipSuite)
  {
    hide Fits, Sorted, Expressions, ValidatedNames, Filterset.PrintFilterset, PackageArgs, BinArgs, Keys, Without;
    ListedPackages(ws, s);
    var filters, tests := Without(s.filters, s.broad), Without(s.tests, s.broad);
    var es := Expressions(s.broad, filters, tests);
    if es != [] {
      PrintedIsNotEmpty(es);
      NamesAreValid(s.broad + Keys(filters) + Keys(tests), ws.packages, ws.packages.Keys);
    }
  }

  lemma {:induction false} TargetsTranslate(ws: Workspace, pairs: Pairs, owners: set<string>, keys: seq<string>)
    requires TargetsFit(ws, pairs, owners) && (forall k :: k in keys ==> k in Keys(pairs))
    ensures var targets := TargetsByPackage(pairs);
            var r := TargetCommands(keys, targets, ws.packages, owners);
            r.Success? && |r.value| == |keys|
  {
    hide Sorted, Keys, Of, TestArgs, IntegrationTargets;
    if keys != [] {
      var key := keys[0];
      assert key in keys;
      TestPlanLaws.KeysExact(pairs);
      TestPlanLaws.SortedOf(pairs, key);
      var names := Sorted(Of(pairs, key));
      var t :| (key, t) in pairs;
      assert t in names;
      forall x | x in names
        ensures x in IntegrationTargets(ws.packages[key]) && x != "" && key in owners
      {
        assert (key, x) in pairs;
      }
      TargetsTranslate(ws, pairs, owners, keys[1..]);
    }
  }

  lemma IntegrationTranslates(ws: Workspace, selected: set<string>, allTargets: Pairs, owners: set<string>)
    requires selected <= ws.packages.Keys * owners && TargetsFit(ws, allTargets, owners) && "" !in ws.packages
    ensures var suite := IntegrationSuite(selected, allTargets);
            var r := IntegrationCommands(suite, ws.packages, owners);
            r.Success? && (r.value == [] <==> suite == SkipSuite)
  {
    hide Sorted, Keys, ValidatedNames, PackageArgs, TargetCommands, IntegrationTargets;
    var targets := Without(allTargets, selected);
    if selected != {} {
      NamesAreValid(selected, ws.packages, owners);
    } else if targets != {} {
      TestPlanLaws.KeysExact(targets);
      var p :| p in targets;
      assert (p.0, p.1) in targets;
      TargetsTranslate(ws, targets, owners, Sorted(Keys(targets)));
      assert p.0 in Sorted(Keys(targets));
      assert TargetsByPackage(targets).Keys == Keys(targets);
    }
  }

  /** A workspace as it is read: no package has an empty name. */
  ghost predicate IsNamed(ws: Workspace) {
    ws.Valid() && "" !in ws.packages
  }

  lemma ReadIsNamed(members: seq<Member>)
    requires forall i :: 0 <= i < |members| ==> IsFresh(members, i)
    ensures IsNamed(WorkspaceOf(members, |members|))
  {
    WorkspaceNames(members, |members|, "");
    assert forall i :: 0 <= i < |members| && IsFresh(members, i) ==> members[i].name != "";
  }

  /** The core package has an integration target that is not manual-only. */
  ghost predicate HasCoreTarget(ws: Workspace) {
    CORE in ws.packages && exists t :: t in IntegrationTargets(ws.packages[CORE]) && t !in MANUAL_CORE_INTEGRATION
  }

  /** The one suite that may not translate is a full core suite. */
  ghost predicate CanRun(ws: Workspace, suites: Suites, name: SuiteName) {
    name != Core || suites.core != FullSuite || HasCoreTarget(ws)
  }

  /** The suite translates exactly when it can run, and has no commands exactly when its mode is skip,
      exactly when its required output is false. */
  ghost predicate Translates(ws: Workspace, suites: Suites, name: SuiteName) {
    var r := CommandGroups(name, suites, ws.packages);
    && (r.Success? <==> CanRun(ws, suites, name))
    && (r == Success([]) <==> SuiteOf(suites, name) == SkipSuite)
    && (r == Success([]) <==> !Required(suites, name))
  }

  lemma CoreTranslates(ws: Workspace, suite: Suite)
    requires suite.CoreTargetSuite? ==>
               && CORE in ws.packages && suite.coreTargets != []
               && forall t :: t in suite.coreTargets ==>
                    t in IntegrationTargets(ws.packages[CORE]) && t != "" && t !in MANUAL_CORE_INTEGRATION
    requires suite == SkipSuite || suite == FullSuite || suite.CoreTargetSuite?
    ensures CoreCommands(suite, ws.packages).Success? <==> suite != FullSuite || HasCoreTarget(ws)
    ensures CoreCommands(suite, ws.packages) == Success([]) <==> suite == SkipSuite
  {
    hide Sorted, IntegrationTargets, MANUAL_CORE_INTEGRATION, TestArgs;
    if suite.CoreTargetSuite? {
      assert suite.coreTargets[0] in Elements(suite.coreTargets);
      assert Elements(suite.coreTargets) * MANUAL_CORE_INTEGRATION == {};
    } else if suite == FullSuite && CORE in ws.packages {
      var targets := IntegrationTargets(ws.packages[CORE]) - MANUAL_CORE_INTEGRATION;
      if targets != {} {
        var t :| t in targets;
        assert t in IntegrationTargets(ws.packages[CORE]) && t !in MANUAL_CORE_INTEGRATION;
      }
      if HasCoreTarget(ws) {
        var t :| t in IntegrationTargets(ws.packages[CORE]) && t !in MANUAL_CORE_INTEGRATION;
        assert t in targets;
      }
    }
  }

  lemma FinishedTranslates(ws: Workspace, s: Selection, name: SuiteName)
    requires IsNamed(ws) && Fits(ws, s)
    ensures Translates(ws, Finish(s), name)
  {
    hide Sorted, WorkspaceSuite, WorkspaceCommands, IntegrationSuite, IntegrationCommands, CoreCommands,
         IntegrationTargets, CLI_SERVER_PACKAGES, CONTRACT_PACKAGES, MANUAL_CORE_INTEGRATION, HasCoreTarget;
    match name {
      case WorkspaceLib => WorkspaceTranslates(ws, s);
      case CliServer => IntegrationTranslates(ws, s.cliPackages, s.cliTargets, CLI_SERVER_PACKAGES);
      case Contract => IntegrationTranslates(ws, s.contractPackages, s.contractTargets, CONTRACT_PACKAGES);
      case Core =>
        if !s.coreFull && s.coreTargets != {} {
          var t :| t in s.coreTargets;
          assert t in Sorted(s.coreTargets);
        }
        CoreTranslates(ws, Finish(s).core);
    }
  }

  lemma FullTranslates(ws: Workspace, name: SuiteName)
    ensures Translates(ws, FULL_SUITES, name)
  {
    hide Sorted, PackageArgs, BinArgs, CoreCommands, HasCoreTarget;
    CoreTranslates(ws, FullSuite);
  }

  lemma OwnedNeverRaises(ws: Workspace, existing: set<string>, path: string, name: string, inside: string)
    requires name in ws.packages
    ensures ClassifyOwned(ws, existing, path, name, inside) != Raise
  {
    hide Parts, EndsWith, RUST_OWNED_MARKDOWN, CLI_SERVER_PACKAGES, CONTRACT_PACKAGES, MANUAL_CORE_INTEGRATION,
         IntegrationTargets;
  }

  /** A path only raises for lack of the core package. */
  lemma RaiseMeansNoCore(ws: Workspace, existing: set<string>, path: string)
    requires ws.Valid()
    ensures Classify(ws, existing, path) == Raise ==> CORE !in ws.packages
  {
    hide OtherJobOwns, SharedBuildInput, SHARED_TEST_HELPERS, IsolatedTest, IsolatedModule, ClassifyOwned, Under;
    var owner := Owner(path, ws.directories);
    if owner.Some? {
      OwnedNeverRaises(ws, existing, path, owner.value.0, owner.value.1);
    }
  }

  /** With the core package in the workspace no path raises. */
  lemma CorePackageMeansNoRaise(ws: Workspace, existing: set<string>, paths: seq<string>)
    requires ws.Valid() && CORE in ws.packages
    ensures NoneRaises(ws, existing, paths)
  {
    hide Classify;
    forall i | 0 <= i < |paths|
      ensures Classify(ws, existing, paths[i]) != Raise
    {
      RaiseMeansNoCore(ws, existing, paths[i]);
    }
  }

  /** Main result: every suite of every plan the planner builds translates into commands for the same
      metadata, except a full core suite when the core package has no target to run; a suite has no
      commands exactly when its mode is skip, exactly when its required output is false. */
  lemma PlansTranslate(ws: Workspace, existing: set<string>, event: string, paths: seq<string>, name: SuiteName)
    requires IsNamed(ws) && SuitesOf(ws, existing, event, paths).Success?
    ensures Translates(ws, SuitesOf(ws, existing, event, paths).value, name)
  {
    hide Classify, Collect, Total, Finish, CommandGroups, Translates;
    FullTranslates(ws, name);
    if event in DIFFERENTIAL_EVENTS && Collect(ws, existing, paths).Selected? {
      TestPlanLaws.CollectedIsTotal(ws, existing, paths);
      TotalFits(ws, existing, paths);
      FinishedTranslates(ws, Total(ws, existing, paths), name);
    }
  }

  /** Main result: the Rust CI job is required exactly when some suite has commands to run or the
      canonical smokes are on. */
  lemma RustCiIffCommands(ws: Workspace, existing: set<string>, event: string, paths: seq<string>)
    requires IsNamed(ws) && SuitesOf(ws, existing, event, paths).Success?
    ensures var suites := SuitesOf(ws, existing, event, paths).value;
            RustCiRequired(suites)
            <==> SmokesRequired(suites) || exists name :: CommandGroups(name, suites, ws.packages) != Success([])
  {
    hide SuitesOf, CommandGroups, SuiteOf;
    var suites := SuitesOf(ws, existing, event, paths).value;
    forall name
      ensures CommandGroups(name, suites, ws.packages) != Success([]) <==> Required(suites, name)
    {
      PlansTranslate(ws, existing, event, paths, name);
    }
    if name :| CommandGroups(name, suites, ws.packages) != Success([]) {
      assert Required(suites, name);
      match name {
        case WorkspaceLib =>
        case CliServer =>
        case Core =>
        case Contract =>
      }
    }
    assert forall name :: Required(suites, name) ==> CommandGroups(name, suites, ws.packages) != Success([]);
  }

  /** Canonical acceptance is required exactly when the CLI and server suite or the core suite has
      commands, or the smokes are on. */
  lemma AcceptanceIffCommands(ws: Workspace, existing: set<string>, event: string, paths: seq<string>)
    requires IsNamed(ws) && SuitesOf(ws, existing, event, paths).Success?
    ensures var suites := SuitesOf(ws, existing, event, paths).value;
            CanonicalAcceptanceRequired(suites)
            <==> || CommandGroups(CliServer, suites, ws.packages) != Success([])
                 || CommandGroups(Core, suites, ws.packages) != Success([])
                 || suites.smokes != SkipSuite
  {
    hide SuitesOf, CommandGroups;
    PlansTranslate(ws, existing, event, paths, CliServer);
    PlansTranslate(ws, existing, event, paths, Core);
  }

  // ---- what the commands run ----

  /** A nextest command line by its flags: the values given to each, and the two without a value. */
  datatype Flags = Flags(packages: set<string>, exprs: set<string>, tests: set<string>, bins: set<string>,
                         excludes: set<string>, features: set<string>, lib: bool, workspace: bool)

  const NO_FLAGS := Flags({}, {}, {}, {}, {}, {}, false, false)

  function Both(a: Flags, b: Flags): Flags {
    Flags(a.packages + b.packages, a.exprs + b.exprs, a.tests + b.tests, a.bins + b.bins, a.excludes + b.excludes,
          a.features + b.features, a.lib || b.lib, a.workspace || b.workspace)
  }

  function Merge(a: Option<Flags>, b: Option<Flags>): Option<Flags> {
    if a.Some? && b.Some? then Some(Both(a.value, b.value)) else None
  }

  function OneFlag(flag: string, value: string): Option<Flags> {
    if flag == "-p" then Some(NO_FLAGS.(packages := {value}))
    else if flag == "-E" then Some(NO_FLAGS.(exprs := {value}))
    else if flag == "--test" then Some(NO_FLAGS.(tests := {value}))
    else if flag == "--bin" then Some(NO_FLAGS.(bins := {value}))
    else if flag == "--exclude" then Some(NO_FLAGS.(excludes := {value}))
    else if flag == "--features" then Some(NO_FLAGS.(features := {value}))
    else None
  }

  /** The flags read from left to right; None if there is anything else. */
  function ReadFlags(args: Command): Option<Flags> {
    if args == [] then Some(NO_FLAGS)
    else if args[0] == "--lib" then Merge(Some(NO_FLAGS.(lib := true)), ReadFlags(args[1..]))
    else if args[0] == "--workspace" then Merge(Some(NO_FLAGS.(workspace := true)), ReadFlags(args[1..]))
    else if |args| < 2 then None
    else Merge(OneFlag(args[0], args[1]), ReadFlags(args[2..]))
  }

  /** What `cargo nextest run` is called with; None for any other program. */
  function ReadCommand(command: Command): Option<Flags> {
    if |command| >= 3 && command[..3] == ["cargo", "nextest", "run"] then ReadFlags(command[3..]) else None
  }

  lemma Units()
    ensures forall x: set<string> :: {} + x == x && x + {} == x
  {
  }

  lemma BothNothing(a: Flags)
    ensures Both(NO_FLAGS, a) == a && Both(a, NO_FLAGS) == a
  {
    Units();
  }

  lemma BothJoins(a: Flags, b: Flags, c: Flags)
    ensures Both(Both(a, b), c) == Both(a, Both(b, c))
  {
    assert forall x: set<string>, y: set<string>, z: set<string> :: (x + y) + z == x + (y + z);
  }

  lemma MergeJoins(a: Option<Flags>, b: Option<Flags>, c: Option<Flags>)
    ensures Merge(Merge(a, b), c) == Merge(a, Merge(b, c))
  {
    hide Both;
    if a.Some? && b.Some? && c.Some? { BothJoins(a.value, b.value, c.value); }
  }

  lemma {:induction false} FlagsJoin(a: Command, b: Command)
    requires ReadFlags(a).Some?
    ensures ReadFlags(a + b) == Merge(ReadFlags(a), ReadFlags(b))
  {
    hide OneFlag, Both;
    if a == [] {
      assert a + b == b;
      if ReadFlags(b).Some? { BothNothing(ReadFlags(b).value); }
    } else if a[0] == "--lib" {
      assert (a + b)[1..] == a[1..] + b;
      FlagsJoin(a[1..], b);
      MergeJoins(Some(NO_FLAGS.(lib := true)), ReadFlags(a[1..]), ReadFlags(b));
    } else if a[0] == "--workspace" {
      assert (a + b)[1..] == a[1..] + b;
      FlagsJoin(a[1..], b);
      MergeJoins(Some(NO_FLAGS.(workspace := true)), ReadFlags(a[1..]), ReadFlags(b));
    } else {
      assert (a + b)[2..] == a[2..] + b && (a + b)[0] == a[0] && (a + b)[1] == a[1];
      FlagsJoin(a[2..], b);
      MergeJoins(OneFlag(a[0], a[1]), ReadFlags(a[2..]), ReadFlags(b));
    }
  }

  lemma ReadsOne(flag: string, value: string)
    requires OneFlag(flag, value).Some?
    ensures ReadFlags([flag, value]) == OneFlag(flag, value)
  {
    assert [flag, value][2..] == [];
    assert flag != "--lib" && flag != "--workspace";
    BothNothing(OneFlag(flag, value).value);
  }

  lemma ReadsRun(args: Command)
    ensures ReadCommand(RUN + args) == ReadFlags(args)
  {
    assert (RUN + args)[..3] == ["cargo", "nextest", "run"] && (RUN + args)[3..] == args;
  }

  lemma FirstAndRest(names: seq<string>)
    requires names != []
    ensures Elements(names) == {names[0]} + Elements(names[1..])
  {
    assert names == [names[0]] + names[1..];
  }

  lemma {:induction false} ReadsPackages(names: seq<string>)
    ensures ReadFlags(PackageArgs(names)) == Some(NO_FLAGS.(packages := Elements(names)))
  {
    hide ReadFlags;
    Units();
    if names == [] {
      NothingRead();
      assert Elements(names) == {};
    } else {
      ReadsPackages(names[1..]);
      ReadsOne("-p", names[0]);
      FlagsJoin(["-p", names[0]], PackageArgs(names[1..]));
      FirstAndRest(names);
    }
  }

  lemma NothingRead()
    ensures ReadFlags([]) == Some(NO_FLAGS)
  {
  }

  lemma {:induction false} ReadsTests(targets: seq<string>)
    ensures ReadFlags(TestArgs(targets)) == Some(NO_FLAGS.(tests := Elements(targets)))
  {
    hide ReadFlags;
    Units();
    if targets == [] {
      NothingRead();
      assert Elements(targets) == {};
    } else {
      ReadsTests(targets[1..]);
      ReadsOne("--test", targets[0]);
      FlagsJoin(["--test", targets[0]], TestArgs(targets[1..]));
      FirstAndRest(targets);
    }
  }

  /** The listed packages whose bin target carries unit tests. */
  function UnitTestBins(names: seq<string>): set<string> {
    set b | (b == "wenlan-server" || b == "wenlan") && b in names
  }

  lemma ReadsBins(names: seq<string>)
    ensures ReadFlags(BinArgs(BIN_UNIT_TEST_PACKAGES, names)) == Some(NO_FLAGS.(bins := UnitTestBins(names)))
  {
    hide ReadFlags;
    Units();
    var packages := BIN_UNIT_TEST_PACKAGES;
    assert packages[1..] == ["wenlan"] && ["wenlan"][1..] == [];
    var server := if "wenlan-server" in names then ["--bin", "wenlan-server"] else [];
    var cli := if "wenlan" in names then ["--bin", "wenlan"] else [];
    assert BinArgs(["wenlan"], names) == cli + [] && BinArgs(packages, names) == server + BinArgs(["wenlan"], names);
    NothingRead();
    ReadsOne("--bin", "wenlan-server");
    ReadsOne("--bin", "wenlan");
    FlagsJoin(cli, []);
    FlagsJoin(server, cli + []);
    assert UnitTestBins(names) == (if "wenlan-server" in names then {"wenlan-server"} else {})
                                  + (if "wenlan" in names then {"wenlan"} else {});
  }

  /** cargo nextest runs integration target t of package p under this command. */
  predicate RunsTarget(command: Command, p: string, t: string) {
    var flags := ReadCommand(command);
    && flags.Some? && !flags.value.lib && p in flags.value.packages
    && ("kind(test)" in flags.value.exprs || t in flags.value.tests)
  }

  lemma PackageCommandFlags(names: seq<string>)
    ensures ReadCommand(RUN + PackageArgs(names) + ["-E", "kind(test)"])
         == Some(NO_FLAGS.(packages := Elements(names), exprs := {"kind(test)"}))
  {
    hide ReadFlags, ReadCommand, PackageArgs;
    Units();
    var tail := ["-E", "kind(test)"];
    assert RUN + PackageArgs(names) + tail == RUN + (PackageArgs(names) + tail);
    ReadsRun(PackageArgs(names) + tail);
    ReadsPackages(names);
    ReadsOne("-E", "kind(test)");
    FlagsJoin(PackageArgs(names), tail);
  }

  lemma TargetCommandFlags(key: string, targets: seq<string>)
    ensures ReadCommand(RUN + ["-p", key] + TestArgs(targets))
         == Some(NO_FLAGS.(packages := {key}, tests := Elements(targets)))
  {
    hide ReadFlags, ReadCommand, TestArgs;
    Units();
    assert RUN + ["-p", key] + TestArgs(targets) == RUN + (["-p", key] + TestArgs(targets));
    ReadsRun(["-p", key] + TestArgs(targets));
    ReadsOne("-p", key);
    ReadsTests(targets);
    FlagsJoin(["-p", key], TestArgs(targets));
  }

  lemma TargetCommandRuns(key: string, targets: seq<string>, p: string, t: string)
    ensures var c := RUN + ["-p", key] + TestArgs(targets);
            IsIntegrationCommand(c) && (RunsTarget(c, p, t) <==> p == key && t in targets)
  {
    hide ReadCommand, TestArgs;
    TargetCommandFlags(key, targets);
  }

  lemma PackageCommandRuns(names: seq<string>, p: string, t: string)
    ensures var c := RUN + PackageArgs(names) + ["-E", "kind(test)"];
            IsIntegrationCommand(c) && (RunsTarget(c, p, t) <==> p in names)
  {
    hide ReadCommand, PackageArgs;
    PackageCommandFlags(names);
  }

  lemma {:induction false} TargetCommandsRun(keys: seq<string>, targets: map<string, seq<string>>, packages: Packages,
                                             owners: set<string>, p: string, t: string)
    requires (forall k :: k in keys ==> k in targets) && TargetCommands(keys, targets, packages, owners).Success?
    ensures (exists c :: c in TargetCommands(keys, targets, packages, owners).value && RunsTarget(c, p, t))
            <==> p in keys && t in targets[p]
    ensures forall c :: c in TargetCommands(keys, targets, packages, owners).value ==> IsIntegrationCommand(c)
  {
    hide RunsTarget, IsIntegrationCommand, TestArgs, Sorted, IntegrationTargets;
    if keys != [] {
      var key := keys[0];
      assert key in keys;
      TargetCommandsRun(keys[1..], targets, packages, owners, p, t);
      TargetCommandRuns(key, Sorted(Elements(targets[key])), p, t);
      SortedElements(targets[key]);
      var c := RUN + ["-p", key] + TestArgs(Sorted(Elements(targets[key])));
      var rest := TargetCommands(keys[1..], targets, packages, owners).value;
      assert TargetCommands(keys, targets, packages, owners).value == [c] + rest;
      assert forall d :: d in [c] + rest <==> d == c || d in rest;
    }
  }

  lemma SortedElements(names: seq<string>)
    ensures forall x :: x in Sorted(Elements(names)) <==> x in names
    ensures Elements(Sorted(Elements(names))) == Elements(names)
    ensures UnitTestBins(Sorted(Elements(names))) == UnitTestBins(names)
  {
    hide Sorted;
  }

  /** A nextest run of integration tests: only packages, targets and a filterset. */
  predicate IsIntegrationCommand(command: Command) {
    var flags := ReadCommand(command);
    && flags.Some? && !flags.value.lib && !flags.value.workspace
    && flags.value.bins == flags.value.excludes == flags.value.features == {}
  }

  /** The integration targets a suite stands for, within its owning packages. */
  ghost predicate SuiteRuns(suite: Suite, owners: set<string>, p: string, t: string) {
    if suite == FullSuite then p in owners else TestPlanLaws.TargetCovered(suite, p, t)
  }

  /** Main result: the commands of an integration suite are runs of integration tests, and together
      they run exactly the targets the suite covers. */
  lemma IntegrationCommandsRun(suite: Suite, packages: Packages, owners: set<string>, p: string, t: string)
    requires IntegrationCommands(suite, packages, owners).Success?
    ensures (exists c :: c in IntegrationCommands(suite, packages, owners).value && RunsTarget(c, p, t))
            <==> SuiteRuns(suite, owners, p, t)
    ensures forall c :: c in IntegrationCommands(suite, packages, owners).value ==> IsIntegrationCommand(c)
  {
    hide RunsTarget, IsIntegrationCommand, TestArgs, Sorted, IntegrationTargets, TargetCommands, PackageArgs;
    match suite {
      case FullSuite =>
        PackageCommandRuns(Sorted(owners), p, t);
      case PackageSuite(list) =>
        PackageCommandRuns(Sorted(Elements(list)), p, t);
        SortedElements(list);
      case TargetSuite(targets) =>
        TargetCommandsRun(Sorted(targets.Keys), targets, packages, owners, p, t);
      case _ =>
    }
  }

  lemma CoreCommandFlags(targets: seq<string>)
    ensures ReadCommand(RUN + ["-p", CORE, "--features", "eval-harness"] + TestArgs(targets))
         == Some(NO_FLAGS.(packages := {"wenlan-core"}, tests := Elements(targets), features := {"eval-harness"}))
  {
    hide ReadFlags, ReadCommand, TestArgs, RUN;
    Units();
    var features := ["--features", "eval-harness"];
    assert RUN + ["-p", CORE, "--features", "eval-harness"] + TestArgs(targets)
        == RUN + (["-p", CORE] + (features + TestArgs(targets)));
    ReadsRun(["-p", CORE] + (features + TestArgs(targets)));
    ReadsOne("-p", CORE);
    ReadsOne("--features", "eval-harness");
    ReadsTests(targets);
    FlagsJoin(features, TestArgs(targets));
    FlagsJoin(["-p", CORE], features + TestArgs(targets));
  }

  lemma CoreCommandIs(suite: Suite, packages: Packages)
    requires CORE in packages && CoreCommands(suite, packages).Success? && suite != SkipSuite
    ensures CoreTargets(suite, IntegrationTargets(packages[CORE])).Success?
    ensures var targets := CoreTargets(suite, IntegrationTargets(packages[CORE])).value;
            && CoreCommands(suite, packages).value
               == [RUN + ["-p", CORE, "--features", "eval-harness"] + TestArgs(Sorted(targets))]
            && ReadCommand(CoreCommands(suite, packages).value[0])
               == Some(NO_FLAGS.(packages := {"wenlan-core"}, tests := targets, features := {"eval-harness"}))
  {
    hide ReadCommand, TestArgs, Sorted, IntegrationTargets, CoreTargets;
    var targets := CoreTargets(suite, IntegrationTargets(packages[CORE])).value;
    CoreCommandFlags(Sorted(targets));
    assert Elements(Sorted(targets)) == targets;
  }

  lemma CoreTargetsAre(suite: Suite, known: set<string>, t: string)
    requires CoreTargets(suite, known).Success?
    ensures t in CoreTargets(suite, known).value
            <==> && t in known && t != "cached_scenario_db_check" && t != "eval_harness"
                 && TestPlanLaws.CoreCovers(suite, t)
  {
    assert t in MANUAL_CORE_INTEGRATION <==> t == "cached_scenario_db_check" || t == "eval_harness";
    if suite.CoreTargetSuite? {
      var list := suite.coreTargets;
      assert t in Elements(list) && t in MANUAL_CORE_INTEGRATION ==> t in Elements(list) * MANUAL_CORE_INTEGRATION;
    }
  }

  /** Main result: the core command runs exactly the core targets the suite covers, with the feature
      they need, and never a manual-only one. */
  lemma CoreCommandsRun(suite: Suite, packages: Packages, t: string)
    requires CORE in packages && CoreCommands(suite, packages).Success?
    ensures (exists c :: c in CoreCommands(suite, packages).value && RunsTarget(c, "wenlan-core", t))
            <==> (&& t in IntegrationTargets(packages[CORE])
                  && t != "cached_scenario_db_check" && t != "eval_harness"
                  && TestPlanLaws.CoreCovers(suite, t))
    ensures forall c :: c in CoreCommands(suite, packages).value ==>
              ReadCommand(c).Some? && ReadCommand(c).value
              == NO_FLAGS.(packages := {"wenlan-core"}, tests := ReadCommand(c).value.tests,
                           features := {"eval-harness"})
  {
    hide ReadCommand, TestArgs, Sorted, IntegrationTargets, CoreTargets;
    if suite != SkipSuite {
      CoreCommandIs(suite, packages);
      CoreTargetsAre(suite, IntegrationTargets(packages[CORE]), t);
      hide CoreCommands;
      var c := CoreCommands(suite, packages).value[0];
      assert RunsTarget(c, "wenlan-core", t) <==> t in ReadCommand(c).value.tests;
    }
  }

  function FilterArgs(suite: Suite): Command {
    if suite.FilterSuite? then ["-E", suite.text] else []
  }

  lemma WorkspaceCommandIs(suite: Suite, packages: Packages)
    requires (suite.PackageSuite? || suite.FilterSuite?) && WorkspaceCommands(suite, packages).Success?
    ensures var names := Sorted(Elements(suite.names));
            WorkspaceCommands(suite, packages)
            == Success([RUN + (PackageArgs(names)
                               + (["--lib"] + (FilterArgs(suite) + BinArgs(BIN_UNIT_TEST_PACKAGES, names))))])
  {
    hide Sorted, PackageArgs, BinArgs, BIN_UNIT_TEST_PACKAGES;
    var names := Sorted(Elements(suite.names));
    var args, bins := PackageArgs(names), BinArgs(BIN_UNIT_TEST_PACKAGES, names);
    if suite.FilterSuite? {
      assert RUN + args + ["--lib", "-E", suite.text] + bins
              == RUN + (args + (["--lib"] + (["-E", suite.text] + bins)));
    } else {
      assert RUN + args + ["--lib"] + bins == RUN + (args + (["--lib"] + ([] + bins)));
    }
  }

  lemma ReadsPlain()
    ensures ReadFlags(["--lib"]) == Some(NO_FLAGS.(lib := true))
    ensures ReadFlags(["--workspace"]) == Some(NO_FLAGS.(workspace := true))
  {
    assert ["--lib"][1..] == [] && ["--workspace"][1..] == [];
    BothNothing(NO_FLAGS.(lib := true));
    BothNothing(NO_FLAGS.(workspace := true));
  }

  lemma WorkspaceFlags(suite: Suite, names: seq<string>)
    ensures ReadFlags(PackageArgs(names) + (["--lib"] + (FilterArgs(suite) + BinArgs(BIN_UNIT_TEST_PACKAGES, names))))
         == Some(NO_FLAGS.(packages := Elements(names), exprs := if suite.FilterSuite? then {suite.text} else {},
                           bins := UnitTestBins(names), lib := true))
  {
    hide ReadFlags, PackageArgs, BinArgs, BIN_UNIT_TEST_PACKAGES, Elements, UnitTestBins;
    Units();
    var filter, bins := FilterArgs(suite), BinArgs(BIN_UNIT_TEST_PACKAGES, names);
    ReadsBins(names);
    if suite.FilterSuite? {
      ReadsOne("-E", suite.text);
    } else {
      NothingRead();
    }
    FlagsJoin(filter, bins);
    ReadsPlain();
    FlagsJoin(["--lib"], filter + bins);
    ReadsPackages(names);
    FlagsJoin(PackageArgs(names), ["--lib"] + (filter + bins));
  }

  /** The command of the full workspace suite: every package but the desktop app, with all bin
      targets that have unit tests and no filterset. */
  lemma FullWorkspaceCommandSelects(packages: Packages)
    ensures var r := WorkspaceCommands(FullSuite, packages);
            && r.Success? && |r.value| == 1
            && ReadCommand(r.value[0])
               == Some(NO_FLAGS.(bins := {"wenlan-server", "wenlan"}, excludes := {"wenlan-app"}, lib := true,
                                 workspace := true))
  {
    hide ReadFlags, ReadCommand, BinArgs;
    Units();
    var bins := BinArgs(BIN_UNIT_TEST_PACKAGES, BIN_UNIT_TEST_PACKAGES);
    var command := WorkspaceCommands(FullSuite, packages).value[0];
    var args := ["--workspace"] + (["--exclude", "wenlan-app"] + (["--lib"] + bins));
    assert command == RUN + args;
    ReadsRun(args);
    ReadsPlain();
    ReadsOne("--exclude", "wenlan-app");
    ReadsBins(BIN_UNIT_TEST_PACKAGES);
    FlagsJoin(["--lib"], bins);
    FlagsJoin(["--exclude", "wenlan-app"], ["--lib"] + bins);
    FlagsJoin(["--workspace"], ["--exclude", "wenlan-app"] + (["--lib"] + bins));
    assert UnitTestBins(BIN_UNIT_TEST_PACKAGES) == {"wenlan-server", "wenlan"};
  }

  /** Main result: the one workspace command runs the library tests of exactly the suite's packages,
      the bin targets of those that have unit tests there, under the suite's filterset when it has
      one. */
  lemma WorkspaceCommandSelects(suite: Suite, packages: Packages)
    requires (suite.PackageSuite? || suite.FilterSuite?) && WorkspaceCommands(suite, packages).Success?
    ensures var r := WorkspaceCommands(suite, packages);
            && |r.value| == 1
            && ReadCommand(r.value[0])
               == Some(NO_FLAGS.(packages := Elements(suite.names), bins := UnitTestBins(suite.names), lib := true,
                                 exprs := if suite.FilterSuite? then {suite.text} else {}))
  {
    hide ReadFlags, ReadCommand, Sorted, PackageArgs, BinArgs, WorkspaceCommands, FilterArgs, RUN, Elements,
         UnitTestBins;
    var names := Sorted(Elements(suite.names));
    SortedElements(suite.names);
    WorkspaceCommandIs(suite, packages);
    WorkspaceFlags(suite, names);
    ReadsRun(PackageArgs(names) + (["--lib"] + (FilterArgs(suite) + BinArgs(BIN_UNIT_TEST_PACKAGES, names))));
  }

  /** Main result: whatever the plan, every command of every suite is `cargo nextest run` with known
      flags; exactly the workspace commands run library tests, and exactly the core command needs a
      feature. */
  lemma CommandsAreRuns(name: SuiteName, suites: Suites, packages: Packages, command: Command)
    requires CommandGroups(name, suites, packages).Success? && command in CommandGroups(name, suites, packages).value
    ensures ReadCommand(command).Some? && command[..3] == ["cargo", "nextest", "run"]
    ensures ReadCommand(command).value.lib <==> name == WorkspaceLib
    ensures ReadCommand(command).value.features == if name == Core then {"eval-harness"} else {}
  {
    hide ReadFlags, ReadCommand, WorkspaceCommands, IntegrationCommands, CoreCommands;
    CommandStarts(command);
    match name {
      case WorkspaceLib =>
        FullWorkspaceCommandSelects(packages);
        WorkspaceModes(suites.workspaceLib, packages);
        if suites.workspaceLib.PackageSuite? || suites.workspaceLib.FilterSuite? {
          WorkspaceCommandSelects(suites.workspaceLib, packages);
        }
      case CliServer => IntegrationCommandsRun(suites.cliServer, packages, CLI_SERVER_PACKAGES, "", "");
      case Contract => IntegrationCommandsRun(suites.contract, packages, CONTRACT_PACKAGES, "", "");
      case Core =>
        CoreNeedsCore(suites.core, packages);
        CoreCommandsRun(suites.core, packages, "");
    }
  }

  lemma CommandStarts(command: Command)
    ensures ReadCommand(command).Some? ==> |command| >= 3 && command[..3] == ["cargo", "nextest", "run"]
  {
  }

  lemma WorkspaceModes(suite: Suite, packages: Packages)
    requires WorkspaceCommands(suite, packages).Success? && WorkspaceCommands(suite, packages).value != []
    ensures suite == FullSuite || suite.PackageSuite? || suite.FilterSuite?
  {
    hide ValidatedNames, PackageArgs, BinArgs;
  }

  lemma CoreNeedsCore(suite: Suite, packages: Packages)
    requires CoreCommands(suite, packages).Success? && CoreCommands(suite, packages).value != []
    ensures CORE in packages
  {
    hide TestArgs, Sorted, IntegrationTargets;
  }
}
