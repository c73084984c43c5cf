/**
 A change for which scripts/ci_test_plan.py plans fewer tests when a path is added: an edited
 integration test of wenlan-server, and beside it a removed one of the wenlan package.
 */
module DroppedTarget {
  import opened Wrappers
  import opened Strings
  import opened PackageGraph
  import opened PathRules
  import opened TestPlan
  import opened TestPlanLaws

  // ---- how a path to an integration test is classified ----

  /** A file or directory name without dots and slashes. */
  predicate IsSimple(s: string) {
    s != "" && '/' !in s && '.' !in s
  }

  function TestPath(crate: string, file: string): string {
    "crates/" + crate + "/tests/" + file + ".rs"
  }

  lemma {:induction false} KeepsParts(parts: seq<string>)
    requires forall i :: 0 <= i < |parts| ==> parts[i] != "" && parts[i] != "." && '/' !in parts[i]
    requires parts != []
    ensures Parts(Join(parts, "/")) == parts
  {
    assert forall x :: x in parts ==> x != "" && x != ".";
    NothingToDrop(parts);
    JoinSplit(parts, "/", 0);
  }

  lemma TestPathParts(crate: string, file: string)
    requires IsSimple(crate) && IsSimple(file)
    ensures Parts(TestPath(crate, file)) == ["crates", crate, "tests", file + ".rs"]
    ensures Parts("tests/" + file + ".rs") == ["tests", file + ".rs"]
  {
    var last := file + ".rs";
    assert '/' !in last && last[0] == file[0];
    var two := ["tests", last];
    assert two[1..] == [last] && Join(two, "/") == "tests" + "/" + last;
    assert "tests" + "/" + last == "tests/" + file + ".rs";
    KeepsParts(two);
    var three := [crate] + two;
    var four := ["crates"] + three;
    assert three[1..] == two && four[1..] == three;
    assert Join(three, "/") == crate + "/" + Join(two, "/");
    assert Join(four, "/") == "crates" + "/" + Join(three, "/");
    assert Join(four, "/") == TestPath(crate, file);
    KeepsParts(four);
  }

  lemma {:induction false} DotIsLast(s: string, tail: string)
    requires '.' !in tail
    ensures LastDot(s + "." + tail) == |s|
    decreases |tail|
  {
    var whole := s + "." + tail;
    if tail == "" {
      assert whole[|whole| - 1] == '.';
    } else {
      DotIsLast(s, tail[..|tail| - 1]);
      assert whole[|whole| - 1] == tail[|tail| - 1];
      assert whole[..|whole| - 1] == s + "." + tail[..|tail| - 1];
    }
  }

  lemma RustFile(file: string)
    requires IsSimple(file)
    ensures SuffixStart(file + ".rs") == |file|
    ensures Lower((file + ".rs")[|file|..]) == ".rs"
  {
    assert file + ".rs" == file + "." + "rs";
    DotIsLast(file, "rs");
    assert (file + ".rs")[|file|..] == ".rs";
    assert ".rs"[1..] == "rs" && "rs"[1..] == "s" && "s"[1..] == "";
    assert Lower("s") == "s" && Lower("rs") == "rs";
  }

  /** Nothing before the package directories claims the path. */
  predicate IsUnclaimed(path: string) {
    path !in SHARED_TEST_HELPERS && IsolatedModule(path) == None && !EndsWith(path, "/build.rs")
  }

  lemma NotUnder(path: string, directory: string)
    requires path != "" && directory != "" && path[0] != directory[0]
    ensures !Under(path, directory)
  {
    assert (directory + "/")[0] == directory[0];
  }

  lemma EndsApart(path: string, suffix: string, k: nat)
    requires 0 < k <= |suffix| && k <= |path| && path[|path| - k] != suffix[|suffix| - k]
    ensures !EndsWith(path, suffix)
  {
    assert |suffix| <= |path| ==> path[|path| - |suffix|..][|suffix| - k] == path[|path| - k];
  }

  lemma NoJobOwns(crate: string, file: string)
    requires IsSimple(crate) && IsSimple(file)
    ensures !OtherJobOwns(TestPath(crate, file))
  {
    hide Parts, Under;
    var path := TestPath(crate, file);
    TestPathParts(crate, file);
    assert path[0] == 'c';
    assert path[|path| - 1] == 's';
    forall i | 0 <= i < |PLUGIN_JOB_PREFIXES| ensures !Under(path, PLUGIN_JOB_PREFIXES[i]) {
      NotUnder(path, PLUGIN_JOB_PREFIXES[i]);
    }
    forall i | 0 <= i < |APP_JOB_PREFIXES| ensures !Under(path, APP_JOB_PREFIXES[i]) {
      NotUnder(path, APP_JOB_PREFIXES[i]);
    }
    forall i | 0 <= i < |DOCS_JOB_PREFIXES| ensures !Under(path, DOCS_JOB_PREFIXES[i]) {
      NotUnder(path, DOCS_JOB_PREFIXES[i]);
    }
    NoFileStartsWithC(path);
    EndsApart(path, ".md", 1);
    assert "tests"[0] != "npm"[0];
  }

  lemma NoFileStartsWithC(path: string)
    requires path != "" && path[0] == 'c'
    ensures path !in PLUGIN_JOB_FILES && path !in DOCS_JOB_FILES && path !in DETECT_CONTRACT_INPUTS
            && path !in APP_JOB_FILES
    ensures path !in FULL_INPUTS && path != SWEEP_SCRIPT
  {
  }

  lemma NoSharedInput(crate: string, file: string)
    requires IsSimple(crate) && IsSimple(file) && IsUnclaimed(TestPath(crate, file))
    ensures !SharedBuildInput(TestPath(crate, file))
  {
    hide Parts;
    var path := TestPath(crate, file);
    TestPathParts(crate, file);
    RustFile(file);
    NoFileStartsWithC(path);
    assert path[|path| - 1] == 's';
    EndsApart(path, "/Cargo.toml", 1);
    assert LowerSuffix(path) == ".rs";
    RustIsNotNative();
  }

  lemma RustIsNotNative()
    ensures ".rs" !in NATIVE_SUFFIXES
  {
    assert ".rs"[1] == 'r';
  }

  /** The test's path is classified by its package, its name and whether it is a known target. */
  lemma TestPathIsTarget(ws: Workspace, existing: set<string>, crate: string, file: string, name: string)
    requires ws.Valid() && IsSimple(crate) && IsSimple(file) && IsUnclaimed(TestPath(crate, file))
    requires "crates/" + crate in ws.directories && ws.directories["crates/" + crate] == name
    requires forall d :: d in ws.directories && d != "crates/" + crate ==> !Under(TestPath(crate, file), d)
    ensures Classify(ws, existing, TestPath(crate, file))
         == ClassifyTarget(name, file,
                            TestPath(crate, file) in existing && file in IntegrationTargets(ws.packages[name]))
  {
    hide OtherJobOwns, SharedBuildInput, Owner, ClassifyOwned, TestPath, ClassifyTarget, IntegrationTargets, Under;
    var path, d := TestPath(crate, file), "crates/" + crate;
    NoJobOwns(crate, file);
    NoSharedInput(crate, file);
    StartsWithC(crate, file);
    NoFileStartsWithC(path);
    InsideOf(crate, file);
    OwnerIs(path, ws.directories, d);
    OwnedTest(ws, existing, path, name, file);
  }

  lemma StartsWithC(crate: string, file: string)
    ensures TestPath(crate, file) != "" && TestPath(crate, file)[0] == 'c'
  {
  }

  lemma InsideOf(crate: string, file: string)
    ensures var path, d := TestPath(crate, file), "crates/" + crate;
            |path| > |d| && Under(path, d) && path[|d| + 1..] == "tests/" + file + ".rs" && EndsWith(path, ".rs")
  {
    var path, d, inside := TestPath(crate, file), "crates/" + crate, "tests/" + file + ".rs";
    assert path == (d + "/") + inside;
    assert (d + "/") <= path;
    assert path[|path| - 3..] == ".rs";
  }

  lemma OwnedTest(ws: Workspace, existing: set<string>, path: string, name: string, file: string)
    requires name in ws.packages && IsSimple(file) && EndsWith(path, ".rs")
    ensures ClassifyOwned(ws, existing, path, name, "tests/" + file + ".rs")
         == ClassifyTarget(name, file, path in existing && file in IntegrationTargets(ws.packages[name]))
  {
    hide Parts, ClassifyTarget, IntegrationTargets;
    TestPathParts("x", file);
    RustFile(file);
    assert Stem("tests/" + file + ".rs") == (file + ".rs")[..|file|] == file;
  }

  lemma OwnerIs(path: string, directories: map<string, string>, d: string)
    requires d in directories && Under(path, d) && |path| > |d|
    requires forall e :: e in directories && e != d ==> !Under(path, e)
    ensures Owner(path, directories) == Some((directories[d], path[|d| + 1..]))
  {
    hide Under;
    assert Owning(path, directories) == {d};
  }

  // ---- the change ----

  const WORKSPACE: Workspace := Workspace(
    map["wenlan-server" := Package([], [Target("api", true)]), "wenlan" := Package([], [])],
    map["crates/wenlan-server" := "wenlan-server", "crates/wenlan-cli" := "wenlan"])

  const EDITED: string := TestPath("wenlan-server", "api")
  const REMOVED: string := TestPath("wenlan-cli", "old")

  lemma NotInCore(crate: string, file: string)
    requires |crate| > 8 && (crate[7] != 'c' || crate[8] != 'o')
    ensures !(CORE_SRC <= TestPath(crate, file))
  {
    var path := TestPath(crate, file);
    assert path == "crates/" + (crate + "/tests/" + file + ".rs");
    assert path[14] == crate[7] && path[15] == crate[8];
    assert CORE_SRC[14] == 'c' && CORE_SRC[15] == 'o';
  }

  lemma NoBuildScript(crate: string, file: string)
    requires |file| == 3
    ensures !EndsWith(TestPath(crate, file), "/build.rs")
  {
    var path := TestPath(crate, file);
    assert path == ("crates/" + crate + "/tes") + ("ts/" + file + ".rs");
    assert ("ts/" + file + ".rs")[0] == 't';
    EndsApart(path, "/build.rs", 9);
  }

  lemma Unclaimed(crate: string, file: string)
    requires |crate| > 8 && (crate[7] != 'c' || crate[8] != 'o') && |file| == 3
    ensures IsUnclaimed(TestPath(crate, file))
  {
    hide TestPath;
    NotInCore(crate, file);
    NoBuildScript(crate, file);
    CoreFiles(TestPath(crate, file));
  }

  lemma CoreFiles(path: string)
    requires !(CORE_SRC <= path)
    ensures path !in SHARED_TEST_HELPERS && IsolatedModule(path) == None
  {
    hide CORE_SRC;
  }

  lemma ElsewhereAt(path: string, directory: string, i: nat)
    requires i < |path| && i < |directory| && path[i] != directory[i]
    ensures !Under(path, directory)
  {
    assert (directory + "/")[i] == directory[i];
  }

  lemma ThePaths()
    ensures IsUnclaimed(EDITED) && IsUnclaimed(REMOVED) && EDITED != REMOVED
    ensures !Under(EDITED, "crates/wenlan-cli") && !Under(REMOVED, "crates/wenlan-server")
  {
    hide IsUnclaimed, Under;
    assert "wenlan-server"[7] == 's' && "wenlan-cli"[7] == 'c' && "wenlan-cli"[8] == 'l';
    Unclaimed("wenlan-server", "api");
    Unclaimed("wenlan-cli", "old");
    assert EDITED[14] == 's' && REMOVED[14] == 'c';
    assert "crates/wenlan-cli"[14] == 'c' && "crates/wenlan-server"[14] == 's';
    ElsewhereAt(EDITED, "crates/wenlan-cli", 14);
    ElsewhereAt(REMOVED, "crates/wenlan-server", 14);
  }

  lemma EditedIs()
    ensures Classify(WORKSPACE, {EDITED}, EDITED) == CliTarget("wenlan-server", "api")
  {
    hide Classify, TestPath, IsUnclaimed, Under;
    ThePaths();
    assert IsSimple("wenlan-server") && IsSimple("api");
    assert "crates/" + "wenlan-server" == "crates/wenlan-server";
    TestPathIsTarget(WORKSPACE, {EDITED}, "wenlan-server", "api", "wenlan-server");
    assert WORKSPACE.packages["wenlan-server"].targets[0] == Target("api", true);
  }

  lemma RemovedIs()
    ensures Classify(WORKSPACE, {EDITED}, REMOVED) == CliPackage("wenlan")
  {
    hide Classify, TestPath, IsUnclaimed, Under;
    ThePaths();
    assert IsSimple("wenlan-cli") && IsSimple("old");
    assert "crates/" + "wenlan-cli" == "crates/wenlan-cli";
    TestPathIsTarget(WORKSPACE, {EDITED}, "wenlan-cli", "old", "wenlan");
  }

  lemma CollectOne(ws: Workspace, existing: set<string>, paths: seq<string>, path: string)
    requires ws.Valid() && Collect(ws, existing, paths).Selected?
    requires Classify(ws, existing, path) != Raise && Classify(ws, existing, path) != Widen
    ensures Collect(ws, existing, paths + [path])
         == Selected(Apply(ws.packages, Collect(ws, existing, paths).selection, Classify(ws, existing, path)))
  {
    hide Classify, Apply;
    assert (paths + [path])[..|paths|] == paths;
  }

  lemma SuitesFrom(ws: Workspace, existing: set<string>, paths: seq<string>, s: Selection)
    requires ws.Valid() && paths != [] && Collect(ws, existing, paths) == Selected(s)
    ensures SuitesOf(ws, existing, "push", paths) == Success(Finish(s))
  {
    hide Collect, Finish;
  }

  /** A known target of wenlan-server, then a package suite of wenlan. */
  lemma TargetThenPackage(ws: Workspace, existing: set<string>, edited: string, removed: string, target: string)
    requires ws.Valid()
    requires Classify(ws, existing, edited) == CliTarget("wenlan-server", target)
    requires Classify(ws, existing, removed) == CliPackage("wenlan")
    ensures var before := SuitesOf(ws, existing, "push", [edited]);
            before.Success? && TargetCovered(before.value.cliServer, "wenlan-server", target)
    ensures var after := SuitesOf(ws, existing, "push", [edited, removed]);
            after.Success? && !TargetCovered(after.value.cliServer, "wenlan-server", target)
  {
    hide Classify, SuitesOf, TargetCovered, Finish;
    CollectOne(ws, existing, [], edited);
    CollectOne(ws, existing, [edited], removed);
    assert [] + [edited] == [edited] && [edited] + [removed] == [edited, removed];
    var before := NOTHING.(cliTargets := {("wenlan-server", target)});
    hide Collect;
    assert {} + {("wenlan-server", target)} == {("wenlan-server", target)} && {} + {"wenlan"} == {"wenlan"};
    SuitesFrom(ws, existing, [edited], before);
    SuitesFrom(ws, existing, [edited, removed], before.(cliPackages := {"wenlan"}));
    DroppedSuite(target);
  }

  lemma DroppedSuite(target: string)
    ensures var before := NOTHING.(cliTargets := {("wenlan-server", target)});
            && TargetCovered(Finish(before).cliServer, "wenlan-server", target)
            && !TargetCovered(Finish(before.(cliPackages := {"wenlan"})).cliServer, "wenlan-server", target)
  {
    hide Sorted, WorkspaceSuite, Of, Keys;
    var pairs: Pairs := {("wenlan-server", target)};
    KeysExact(pairs);
    assert Without(pairs, {}) == pairs;
    SortedOf(pairs, "wenlan-server");
    assert "wenlan-server" !in Sorted({"wenlan"}) by {
      assert "wenlan-server" !in {"wenlan"} by { assert |"wenlan-server"| != |"wenlan"|; }
    }
  }

  /** Main result: with this workspace, the plan for the edited test runs it; the plan for the same
      edit together with a removed test of the wenlan package does not. */
  lemma AddingPathDropsTarget()
    ensures var before := SuitesOf(WORKSPACE, {EDITED}, "push", [EDITED]);
            before.Success? && TargetCovered(before.value.cliServer, "wenlan-server", "api")
    ensures var after := SuitesOf(WORKSPACE, {EDITED}, "push", [EDITED, REMOVED]);
            after.Success? && !TargetCovered(after.value.cliServer, "wenlan-server", "api")
  {
    hide Classify, SuitesOf, TargetCovered, TestPath;
    EditedIs();
    RemovedIs();
    TargetThenPackage(WORKSPACE, {EDITED}, EDITED, REMOVED, "api");
  }
}
