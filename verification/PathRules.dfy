/**
 How scripts/ci_test_plan.py classifies one changed path: `_workspace`, `_normalize_path`,
 `_owner`, the `_..._job_owns` predicates and the branches of the loop in `_build_test_plan`.
 */
module PathRules {
  import opened Wrappers
  import opened Strings
  import opened PackageGraph
  import Filterset

  datatype PlanError =
    | NoPackages | MalformedPackage | UnknownDependency | BadPath | NoPaths | UnknownOwner
    | NoCorePackage | EmptyInventory | UnknownPackages | OutsideOwner | EmptyTargets | UnknownTargets
    | ManualTargets | UnknownMode

  // ---- pure paths ----

  function DropEmpty(parts: seq<string>): (r: seq<string>)
    ensures forall x :: x in r <==> x in parts && x != "" && x != "."
  {
    if parts == [] then []
    else (if parts[0] == "" || parts[0] == "." then [] else [parts[0]]) + DropEmpty(parts[1..])
  }

  /** `PurePosixPath(path).parts` of a relative path. */
  function Parts(path: string): (r: seq<string>)
    ensures forall x :: x in r ==> x != ""
  {
    DropEmpty(Split(path, "/"))
  }

  function NormalizePath(raw: string): Result<string, PlanError> {
    if raw == "" || raw[0] == '/' || ".." in Parts(raw) then Failure(BadPath)
    else if Parts(raw) == [] then Success(".")
    else Success(Join(Parts(raw), "/"))
  }

  lemma {:induction false} NothingToDrop(parts: seq<string>)
    requires forall x :: x in parts ==> x != "" && x != "."
    ensures DropEmpty(parts) == parts
  {
    if parts != [] {
      assert parts[0] in parts && forall x :: x in parts[1..] ==> x in parts;
      NothingToDrop(parts[1..]);
      assert parts == [parts[0]] + parts[1..];
    }
  }

  lemma PartsHaveNoSlash(path: string)
    ensures forall x :: x in Parts(path) ==> x != "." && '/' !in x
  {
    PartsLackSeparator(path, '/');
    assert ['/'] == "/";
  }

  lemma JoinStarts(parts: seq<string>, sep: string)
    requires parts != [] && parts[0] != ""
    ensures Join(parts, sep) != "" && Join(parts, sep)[0] == parts[0][0]
  {
  }

  /** Normalizing keeps a path's parts and has nothing left to do the second time. */
  lemma NormalizeIsStable(raw: string)
    requires NormalizePath(raw).Success?
    ensures Parts(NormalizePath(raw).value) == Parts(raw)
    ensures NormalizePath(NormalizePath(raw).value) == NormalizePath(raw)
  {
    var parts := Parts(raw);
    PartsHaveNoSlash(raw);
    if parts == [] {
      NothingIsAPart();
    } else {
      JoinSplit(parts, "/", 0);
      NothingToDrop(parts);
      assert parts[0] in parts;
      JoinStarts(parts, "/");
    }
  }

  lemma NothingIsAPart()
    ensures Parts(".") == []
  {
    FindsNothing(".", "/", 0);
    assert Split(".", "/") == ["."];
  }

  /** A path is accepted exactly when it is not empty, not absolute and has no `..` between its slashes;
      the normalized path has the other names, in order, and is `.` if there is none. */
  lemma NormalizeIff(raw: string)
    ensures NormalizePath(raw).Success? <==> raw != "" && !("/" <= raw) && ".." !in Split(raw, "/")
    ensures NormalizePath(raw).Success? ==>
              NormalizePath(raw).value == if Parts(raw) == [] then "." else Join(Parts(raw), "/")
    ensures forall x :: x in Parts(raw) <==> x in Split(raw, "/") && x != "" && x != "."
  {
    hide Split, Join;
    assert "/"[0] == '/';
  }

  function FileName(path: string): string {
    if Parts(path) == [] then "" else Parts(path)[|Parts(path)| - 1]
  }

  /** `rfind(".")`, -1 if there is none. */
  function LastDot(s: string): (i: int)
    ensures -1 <= i < |s|
  {
    if s == "" then -1 else if s[|s| - 1] == '.' then |s| - 1 else LastDot(s[..|s| - 1])
  }

  function SuffixStart(name: string): (i: nat)
    ensures i <= |name| && (name != "" ==> i > 0)
  {
    var i := LastDot(name);
    if 0 < i < |name| - 1 then i else |name|
  }

  function LowerSuffix(path: string): string {
    Lower(FileName(path)[SuffixStart(FileName(path))..])
  }

  function Stem(path: string): (s: string)
    ensures FileName(path) != "" ==> s != ""
  {
    FileName(path)[..SuffixStart(FileName(path))]
  }

  // ---- the tables ----

  const PLUGIN_JOB_PREFIXES: seq<string> := ["plugin", "plugin-codex", ".agents/plugins", ".claude-plugin"]
  const PLUGIN_JOB_FILES: set<string> := {
    "plugin-contract.json", "scripts/validate-codex-plugin-slice.py", "scripts/validate-plugin-contract.py",
    "scripts/validate-plugin-contract.test.sh", "scripts/gen-plugin-verbs.mjs", "scripts/gen-plugin-verbs.test.mjs",
    "scripts/gen-codex-plugin.mjs", "scripts/gen-codex-plugin.test.mjs" }
  const DOCS_JOB_PREFIXES: seq<string> := ["docs"]
  const DOCS_JOB_FILES: set<string> := {
    "LICENSE", "scripts/check-readme-translations.py", "scripts/check-readme-translations.test.sh",
    "scripts/update-readme-eval.py", "scripts/update-readme-eval.test.py", "scripts/validate-versions.sh",
    "scripts/validate-versions.test.sh" }
  const RUST_OWNED_MARKDOWN: set<string> := {"crates/wenlan-cli/README.md"}
  const DETECT_CONTRACT_INPUTS: set<string> := {
    ".githooks/pre-commit", ".githooks/pre-push", "scripts/git-hooks.test.sh" }
  const APP_JOB_PREFIXES: seq<string> := ["app", "src", "e2e", "preview", "review", "public"]
  const APP_JOB_FILES: set<string> := {
    "package.json", "pnpm-lock.yaml", "pnpm-workspace.yaml", "index.html", "tsconfig.json", "tsconfig.tools.json",
    "vite.config.ts", "vite.preview.config.ts", "vite.review.config.ts", "vitest.config.ts", "playwright.config.ts",
    "playwright.review.config.ts", "scripts/prepare-sidecars.sh", "scripts/prepare-tauri-build-sidecars.sh",
    "scripts/dev-all.sh", "scripts/dev-runtime.sh", "scripts/install-git-hooks.mjs", "scripts/run-bash.mjs",
    "scripts/open-review-app.mjs", "scripts/open-review-app.test.ts", "scripts/prepare-sidecars.test.ts",
    "scripts/refactor/api-route-diff.mjs", "scripts/refactor/api-route-diff.test.ts", "scripts/refactor/inventory.sh",
    "scripts/refactor/inventory.test.ts", "scripts/release-version-sync.test.ts", "scripts/resolve-backend-dir.sh",
    "scripts/verify-review-bundle.mjs" }
  const FULL_INPUTS: set<string> := {
    "Cargo.toml", "Cargo.lock", "rust-toolchain.toml", ".config/nextest.toml", ".github/workflows/ci.yml",
    ".github/workflows/release.yml", "scripts/ci_test_plan.py", "scripts/ci_test_plan.test.py" }
  const CLIPPY_INPUTS: set<string> := {"Cargo.lock", "clippy.toml", "rust-toolchain.toml"}
  const NON_CLIPPY_CONTRACT_INPUTS: set<string> := {
    ".config/nextest.toml", "scripts/ci_test_plan.py", "scripts/ci_test_plan.test.py" }
  const CORE_SRC := "crates/wenlan-core/src/"
  const SHARED_TEST_HELPERS: set<string> := {
    CORE_SRC + "lint/test_support.rs", CORE_SRC + "lint/test_support_db.rs",
    CORE_SRC + "lint/test_support_fs.rs", CORE_SRC + "lint/test_support_privacy.rs" }
  const NATIVE_SUFFIXES: set<string> := {".c", ".cc", ".cpp", ".cxx", ".h", ".hh", ".hpp", ".hxx", ".m", ".mm"}
  const CORE := "wenlan-core"
  const CLI_SERVER_PACKAGES: set<string> := {"wenlan", "wenlan-server"}
  const CONTRACT_PACKAGES: set<string> := {"wenlan-mcp", "wenlan-types"}
  const MANUAL_CORE_INTEGRATION: set<string> := {"cached_scenario_db_check", "eval_harness"}
  const SWEEP_SCRIPT := "scripts/m5-reader-sweep.py"
  const SWEEP_TEST := "drift_guard::m5_reader_" + "inventory_matches_current_tree"

  /** ISOLATED_UNIT_TESTS: the one test a path selects, always in the core package. */
  function IsolatedTest(path: string): Option<string> {
    if path == SWEEP_SCRIPT then Some(SWEEP_TEST) else None
  }

  /** ISOLATED_UNIT_MODULES: the test module a path selects, always in the core package. */
  function IsolatedModule(path: string): Option<string> {
    if path == CORE_SRC + "drift_guard/r4_test_support_api_manifest.txt"
       || path == CORE_SRC + "drift_guard/r4_test_support_raw_manifest.txt" then
      Some("drift_guard::r4_test_support_test")
    else if path == CORE_SRC + "lint/pages/security_test.rs" then
      Some("lint::pages::fs::tests::security_cases")
    else None
  }

  // ---- job ownership ----

  predicate Under(path: string, directory: string) {
    path == directory || StartsWith(path, directory + "/")
  }

  predicate UnderAny(path: string, directories: seq<string>) {
    exists i :: 0 <= i < |directories| && Under(path, directories[i])
  }

  predicate PluginJobOwns(path: string) {
    path in PLUGIN_JOB_FILES || UnderAny(path, PLUGIN_JOB_PREFIXES)
  }

  predicate NpmJobOwns(path: string) {
    var parts := Parts(path);
    |parts| >= 4 && parts[0] == "crates" && parts[2] == "npm"
  }

  predicate RustFixtureOwns(path: string) {
    var parts := Parts(path);
    |parts| >= 4 && parts[0] == "crates" && ("tests" in parts[2..|parts| - 1] || parts[2] == "resources")
  }

  predicate DocsJobOwns(path: string) {
    && path !in RUST_OWNED_MARKDOWN
    && (path in DOCS_JOB_FILES || UnderAny(path, DOCS_JOB_PREFIXES)
        || (EndsWith(path, ".md") && !RustFixtureOwns(path)))
  }

  predicate AppJobOwns(path: string) {
    !Under(path, "app/eval") && (path in APP_JOB_FILES || UnderAny(path, APP_JOB_PREFIXES))
  }

  /** The path belongs to a job outside the Rust plan. */
  predicate OtherJobOwns(path: string) {
    PluginJobOwns(path) || NpmJobOwns(path) || DocsJobOwns(path) || path in DETECT_CONTRACT_INPUTS || AppJobOwns(path)
  }

  predicate SharedBuildInput(path: string) {
    path in FULL_INPUTS || EndsWith(path, "/Cargo.toml") || EndsWith(path, "/build.rs")
        || LowerSuffix(path) in NATIVE_SUFFIXES
  }

  predicate IsClippyInput(path: string) {
    && !PluginJobOwns(path) && !NpmJobOwns(path) && !DocsJobOwns(path)
    && (path in CLIPPY_INPUTS || EndsWith(path, "/Cargo.toml") || EndsWith(path, "/build.rs")
        || LowerSuffix(path) == ".rs" || LowerSuffix(path) in NATIVE_SUFFIXES)
  }

  predicate IsNonClippyContractInput(path: string, existing: set<string>) {
    || PluginJobOwns(path) || NpmJobOwns(path) || DocsJobOwns(path)
    || StartsWith(path, ".github/workflows/") || path in NON_CLIPPY_CONTRACT_INPUTS || path in DETECT_CONTRACT_INPUTS
    || (path in existing && (IsolatedTest(path) != None || IsolatedModule(path) != None))
  }

  // ---- the workspace ----

  /** One package of the metadata; `directory` is its manifest's directory below the root. */
  datatype Member = Member(name: string, directory: string, package: Package)
  datatype Workspace = Workspace(packages: Packages, directories: map<string, string>)
  {
    predicate Valid() {
      forall d :: d in directories ==> directories[d] in packages
    }
  }

  const APP := "wenlan-app"

  /** The first n packages, without the desktop app. */
  function WorkspaceOf(members: seq<Member>, n: nat): (ws: Workspace)
    requires n <= |members|
    ensures ws.Valid() && APP !in ws.packages
  {
    if n == 0 then Workspace(map[], map[])
    else
      var earlier, m := WorkspaceOf(members, n - 1), members[n - 1];
      if m.name == APP then earlier
      else Workspace(earlier.packages[m.name := m.package], earlier.directories[m.directory := m.name])
  }

  /** Package i has a name that no earlier package of the plan has. */
  predicate IsFresh(members: seq<Member>, i: nat)
    requires i < |members|
  {
    members[i].name != "" && forall j :: 0 <= j < i && members[j].name == members[i].name ==> members[i].name == APP
  }

  lemma {:induction false} WorkspaceNames(members: seq<Member>, n: nat, p: string)
    requires n <= |members|
    ensures p in WorkspaceOf(members, n).packages <==> p != APP && exists i :: 0 <= i < n && members[i].name == p
  {
    if n > 0 {
      WorkspaceNames(members, n - 1, p);
    }
  }

  method ReadWorkspace(members: seq<Member>) returns (r: Result<Workspace, PlanError>)
    ensures r.Success? <==> members != [] && forall i :: 0 <= i < |members| ==> IsFresh(members, i)
    ensures r.Success? ==> r.value == WorkspaceOf(members, |members|)
  {
    if members == [] {
      return Failure(NoPackages);
    }
    var ws := Workspace(map[], map[]);
    for i := 0 to |members|
      invariant ws == WorkspaceOf(members, i)
      invariant forall k :: 0 <= k < i ==> IsFresh(members, k)
    {
      var m := members[i];
      WorkspaceNames(members, i, m.name);
      if m.name == "" || m.name in ws.packages {
        assert !IsFresh(members, i);
        return Failure(MalformedPackage);
      }
      if m.name != APP {
        ws := Workspace(ws.packages[m.name := m.package], ws.directories[m.directory := m.name]);
      }
    }
    return Success(ws);
  }

  /** What is kept of a metadata package: the package under its name, its directory for the name of the
      last package there. */
  lemma {:induction false} WorkspaceIs(members: seq<Member>, n: nat, i: nat)
    requires i < n <= |members| && members[i].name != APP
    requires forall j :: i < j < n ==> members[j].name == APP || members[j].name != members[i].name
    ensures var ws := WorkspaceOf(members, n);
            members[i].name in ws.packages && ws.packages[members[i].name] == members[i].package
    ensures (forall j :: i < j < n ==> members[j].name == APP || members[j].directory != members[i].directory)
            ==> && members[i].directory in WorkspaceOf(members, n).directories
                && WorkspaceOf(members, n).directories[members[i].directory] == members[i].name
  {
    if i < n - 1 {
      WorkspaceIs(members, n - 1, i);
    }
  }

  /** No other directory is kept. */
  lemma {:induction false} WorkspaceDirectories(members: seq<Member>, n: nat, d: string)
    requires n <= |members|
    ensures d in WorkspaceOf(members, n).directories
            <==> exists i :: 0 <= i < n && members[i].name != APP && members[i].directory == d
  {
    if n > 0 { WorkspaceDirectories(members, n - 1, d); }
  }

  function Owning(path: string, directories: map<string, string>): set<string> {
    set d | d in directories && Under(path, d)
  }

  predicate IsLongest(d: string, s: set<string>) {
    d in s && forall e :: e in s ==> |e| <= |d|
  }

  lemma {:induction false} LongestExists(s: set<string>)
    requires s != {}
    ensures exists d :: IsLongest(d, s)
  {
    var x :| x in s;
    var rest := s - {x};
    if rest == {} {
      assert s == {x};
      assert IsLongest(x, s);
    } else {
      LongestExists(rest);
      var d :| IsLongest(d, rest);
      assert IsLongest(if |x| > |d| then x else d, s);
    }
  }

  /** Directories that contain one path are prefixes of it, so equally long ones are equal. */
  lemma LongestIsUnique(path: string, directories: map<string, string>)
    ensures forall d, e :: IsLongest(d, Owning(path, directories)) && IsLongest(e, Owning(path, directories)) ==> d == e
  {
    forall d, e | IsLongest(d, Owning(path, directories)) && IsLongest(e, Owning(path, directories))
      ensures d == e
    {
      assert d == path[..|d|] && e == path[..|e|];
    }
  }

  /** The path inside the directory d that contains it. */
  function Inside(path: string, d: string): string {
    if |path| <= |d| then "" else path[|d| + 1..]
  }

  /** The owning package and the path inside it: the deepest package directory wins. */
  function Owner(path: string, directories: map<string, string>): (r: Option<(string, string)>)
    ensures r.Some? ==> exists d :: IsLongest(d, Owning(path, directories)) && directories[d] == r.value.0
    ensures r == None <==> forall d :: d in directories ==> !Under(path, d)
  {
    var matches := Owning(path, directories);
    if matches == {} then
      assert forall d :: d in directories ==> d !in matches;
      None
    else
      LongestExists(matches);
      LongestIsUnique(path, directories);
      var d :| d in matches && IsLongest(d, matches);
      assert forall e :: e in directories && Under(path, e) ==> e in matches;
      Some((directories[d], Inside(path, d)))
  }

  // ---- one path ----

  /** What the loop does with one path. */
  datatype Effect =
    | Ignored | Widen | Raise
    | TestOwner(test: string) | ModuleOwner(prefix: string)
    | CliPackage(package: string) | CliTarget(package: string, target: string)
    | ContractPackage(package: string) | ContractTarget(package: string, target: string)
    | CoreSuite | CoreTarget(target: string)
    | PackageOnly(package: string) | SourceChange(package: string)

  function IntegrationTargets(package: Package): set<string> {
    set i | 0 <= i < |package.targets| && package.targets[i].isTest :: package.targets[i].name
  }

  function ClassifyTarget(name: string, target: string, known: bool): Effect {
    if name in CLI_SERVER_PACKAGES then (if known then CliTarget(name, target) else CliPackage(name))
    else if name in CONTRACT_PACKAGES then (if known then ContractTarget(name, target) else ContractPackage(name))
    else if name == CORE then
      (if !known then CoreSuite else if target in MANUAL_CORE_INTEGRATION then Ignored else CoreTarget(target))
    else Widen
  }

  function ClassifyOwned(ws: Workspace, existing: set<string>, path: string, name: string, inside: string): Effect
    requires name in ws.packages
  {
    var parts := Parts(inside);
    if |parts| == 2 && parts[0] == "tests" && EndsWith(path, ".rs") then
      var target := Stem(inside);
      ClassifyTarget(name, target, path in existing && target in IntegrationTargets(ws.packages[name]))
    else if path in RUST_OWNED_MARKDOWN then PackageOnly(name)
    else if parts != [] && parts[0] == "src" && EndsWith(path, ".rs") then SourceChange(name)
    else Widen
  }

  function Classify(ws: Workspace, existing: set<string>, path: string): Effect
    requires ws.Valid()
  {
    if OtherJobOwns(path) then Ignored
    else if SharedBuildInput(path) || path in SHARED_TEST_HELPERS then Widen
    else if IsolatedTest(path) != None then
      if path !in existing then Widen
      else if CORE !in ws.packages then Raise else TestOwner(IsolatedTest(path).value)
    else if IsolatedModule(path) != None then
      if path !in existing then Widen
      else if CORE !in ws.packages then Raise else ModuleOwner(IsolatedModule(path).value)
    else
      match Owner(path, ws.directories)
      case None => Widen
      case Some((name, inside)) => ClassifyOwned(ws, existing, path, name, inside)
  }

  /** Everything an effect names exists in the workspace and belongs to the suite it is for. */
  ghost predicate EffectFits(ws: Workspace, e: Effect) {
    match e
    case TestOwner(t) => CORE in ws.packages && Filterset.IsTestPath(t)
    case ModuleOwner(x) => CORE in ws.packages && Filterset.IsTestPath(x)
    case CliPackage(p) => p in ws.packages && p in CLI_SERVER_PACKAGES
    case CliTarget(p, t) => p in ws.packages && p in CLI_SERVER_PACKAGES && t in IntegrationTargets(ws.packages[p])
      && t != ""
    case ContractPackage(p) => p in ws.packages && p in CONTRACT_PACKAGES
    case ContractTarget(p, t) => p in ws.packages && p in CONTRACT_PACKAGES && t in IntegrationTargets(ws.packages[p])
      && t != ""
    case CoreSuite => CORE in ws.packages
    case CoreTarget(t) =>
      CORE in ws.packages && t in IntegrationTargets(ws.packages[CORE]) && t != "" && t !in MANUAL_CORE_INTEGRATION
    case PackageOnly(p) => p in ws.packages
    case SourceChange(p) => p in ws.packages
    case _ => true
  }

  lemma ReadableConcat(a: string, b: string)
    requires Filterset.IsTestPath(a) && Filterset.IsTestPath(b)
    ensures Filterset.IsTestPath(a + b)
  {
  }

  lemma ReadableSweepFront()
    ensures Filterset.IsTestPath("drift_guard::m5_reader_")
  {
  }

  lemma ReadableSweepBack()
    ensures Filterset.IsTestPath("inventory_matches_current_tree")
  {
  }

  lemma ReadableSweepTest()
    ensures Filterset.IsTestPath(SWEEP_TEST)
  {
    hide Filterset.IsTestPath;
    ReadableSweepFront();
    ReadableSweepBack();
    ReadableConcat("drift_guard::m5_reader_", "inventory_matches_current_tree");
  }

  lemma ReadableSupportTest()
    ensures Filterset.IsTestPath("drift_guard::r4_test_support_test")
  {
  }

  lemma ReadableSecurityCases()
    ensures Filterset.IsTestPath("lint::pages::fs::tests::security_cases")
  {
  }

  lemma IsolatedNamesAreReadable(path: string)
    ensures IsolatedTest(path).Some? ==> Filterset.IsTestPath(IsolatedTest(path).value)
    ensures IsolatedModule(path).Some? ==> Filterset.IsTestPath(IsolatedModule(path).value)
  {
    hide Filterset.IsTestPath;
    ReadableSweepTest();
    ReadableSupportTest();
    ReadableSecurityCases();
  }

  lemma OwnedFits(ws: Workspace, existing: set<string>, path: string, name: string, inside: string)
    requires name in ws.packages
    ensures EffectFits(ws, ClassifyOwned(ws, existing, path, name, inside))
  {
    hide Parts, EndsWith, CLI_SERVER_PACKAGES, CONTRACT_PACKAGES, MANUAL_CORE_INTEGRATION, RUST_OWNED_MARKDOWN,
         IntegrationTargets, Stem;
    var parts := Parts(inside);
    if |parts| == 2 {
      assert parts[1] in parts;
      StemIsNotEmpty(inside);
    }
  }

  lemma StemIsNotEmpty(path: string)
    requires Parts(path) != []
    ensures Stem(path) != ""
  {
    assert Parts(path)[|Parts(path)| - 1] in Parts(path);
  }

  /** A classified path only ever selects what the workspace has. */
  lemma ClassifyFits(ws: Workspace, existing: set<string>, path: string)
    requires ws.Valid()
    ensures EffectFits(ws, Classify(ws, existing, path))
  {
    hide OtherJobOwns, SharedBuildInput, SHARED_TEST_HELPERS, IsolatedTest, IsolatedModule, Under, ClassifyOwned,
         Filterset.IsTestPath;
    IsolatedNamesAreReadable(path);
    var owner := Owner(path, ws.directories);
    if owner.Some? {
      OwnedFits(ws, existing, path, owner.value.0, owner.value.1);
    }
  }

  // ---- which paths widen the plan ----

  /** A Rust file directly in the `tests` directory below d. */
  ghost predicate IsIntegrationFile(path: string, d: string) {
    && EndsWith(path, ".rs")
    && exists file :: Parts(Inside(path, d)) == ["tests", file]
  }

  /** A Rust file anywhere in the `src` directory below d. */
  ghost predicate IsSourceFile(path: string, d: string) {
    && EndsWith(path, ".rs")
    && exists rest :: Parts(Inside(path, d)) == ["src"] + rest
  }

  /** The planner knows which tests a file below the directory d of a package can affect. */
  ghost predicate HasRule(path: string, d: string, package: string) {
    if IsIntegrationFile(path, d) then package in CLI_SERVER_PACKAGES + CONTRACT_PACKAGES + {CORE}
    else path in RUST_OWNED_MARKDOWN || IsSourceFile(path, d)
  }

  ghost predicate IsIsolated(path: string) {
    IsolatedTest(path).Some? || IsolatedModule(path).Some?
  }

  /** The deepest package directory that contains the path, if any, has a rule for it. */
  ghost predicate OwnerHasRule(ws: Workspace, path: string) {
    exists d :: IsLongest(d, Owning(path, ws.directories)) && HasRule(path, d, ws.directories[d])
  }

  lemma OwnerIsDeepest(path: string, directories: map<string, string>, d: string)
    requires IsLongest(d, Owning(path, directories))
    ensures Owner(path, directories) == Some((directories[d], Inside(path, d)))
  {
    LongestIsUnique(path, directories);
    assert d in directories && Under(path, d);
  }

  lemma OwnedWidensIff(ws: Workspace, existing: set<string>, path: string, d: string)
    requires ws.Valid() && d in ws.directories
    ensures ClassifyOwned(ws, existing, path, ws.directories[d], Inside(path, d)) == Widen
            <==> !HasRule(path, d, ws.directories[d])
  {
    hide Parts, EndsWith, Inside, RUST_OWNED_MARKDOWN, IntegrationTargets, Stem, CLI_SERVER_PACKAGES,
         CONTRACT_PACKAGES, CORE;
    var parts := Parts(Inside(path, d));
    if |parts| == 2 && parts[0] == "tests" {
      assert parts == ["tests", parts[1]];
    }
    if parts != [] && parts[0] == "src" {
      assert parts == ["src"] + parts[1..];
    }
  }

  /** The planner fails closed. A path that no other job owns widens the plan to everything unless
      it is an isolated test input that exists, or the deepest package directory that contains it
      has a rule for it and it is no shared input. */
  lemma WidensIff(ws: Workspace, existing: set<string>, path: string)
    requires ws.Valid()
    ensures Classify(ws, existing, path) == Widen
            <==> && !OtherJobOwns(path)
                 && (|| SharedBuildInput(path) || path in SHARED_TEST_HELPERS
                     || (if IsIsolated(path) then path !in existing else !OwnerHasRule(ws, path)))
  {
    hide OtherJobOwns, SharedBuildInput, SHARED_TEST_HELPERS, IsolatedTest, IsolatedModule, ClassifyOwned, HasRule,
         Inside;
    var owning := Owning(path, ws.directories);
    if owning != {} {
      LongestExists(owning);
      var d :| IsLongest(d, owning);
      LongestIsUnique(path, ws.directories);
      OwnerIsDeepest(path, ws.directories, d);
      OwnedWidensIff(ws, existing, path, d);
    } else {
      assert forall d :: d in ws.directories ==> d !in owning;
    }
  }
}
