/**
 The fmt and clippy gates of a plan of scripts/ci_test_plan.py (`_daily_gate_requirements`), from
 the names of the changed files.
 */
module PlanGates {
  import opened Wrappers
  import opened Strings
  import opened PackageGraph
  import opened PathRules
  import opened TestPlan
  import opened TestPlanLaws

  // ---- suffixes ----

  /** The file name is something, then this suffix in any case, with no dot inside. */
  ghost predicate HasSuffix(path: string, suffix: string) {
    exists stem, ext: string ::
      && FileName(path) == stem + ext && stem != "" && |ext| > 1 && ext[0] == '.' && '.' !in ext[1..]
      && Lower(ext) == suffix
  }

  lemma {:induction false} LastDotIs(s: string, k: nat)
    requires k < |s| && s[k] == '.' && '.' !in s[k + 1..]
    ensures LastDot(s) == k
  {
    if k < |s| - 1 {
      var front := s[..|s| - 1];
      assert s[k + 1..][|s| - k - 2] == s[|s| - 1];
      assert front[k + 1..] == s[k + 1..][..|s| - k - 2];
      LastDotIs(front, k);
    }
  }

  lemma {:induction false} LastDotMeans(s: string)
    ensures var i := LastDot(s);
            (i >= 0 ==> s[i] == '.' && '.' !in s[i + 1..]) && (i < 0 ==> '.' !in s)
  {
    if s != "" && s[|s| - 1] != '.' {
      var front := s[..|s| - 1];
      LastDotMeans(front);
      var i := LastDot(s);
      assert s == front + [s[|s| - 1]];
      if i >= 0 { assert s[i + 1..] == front[i + 1..] + [s[|s| - 1]]; }
    }
  }

  lemma SuffixIff(path: string, suffix: string)
    requires suffix != ""
    ensures LowerSuffix(path) == suffix <==> HasSuffix(path, suffix)
  {
    hide LastDot, FileName;
    var name := FileName(path);
    LastDotMeans(name);
    var i := SuffixStart(name);
    if LowerSuffix(path) == suffix {
      assert name == name[..i] + name[i..] && name[i..][1..] == name[i + 1..];
      assert Lower(name[i..]) == suffix;
    }
    if stem, ext: string :| && name == stem + ext && stem != "" && |ext| > 1 && ext[0] == '.' && '.' !in ext[1..]
                             && Lower(ext) == suffix {
      assert name[|stem|] == '.' && name[|stem| + 1..] == ext[1..] && name[|stem|..] == ext;
      LastDotIs(name, |stem|);
    }
  }

  // ---- the gates ----

  ghost predicate IsNativeFile(path: string) {
    || HasSuffix(path, ".c") || HasSuffix(path, ".cc") || HasSuffix(path, ".cpp") || HasSuffix(path, ".cxx")
    || HasSuffix(path, ".h") || HasSuffix(path, ".hh") || HasSuffix(path, ".hpp") || HasSuffix(path, ".hxx")
    || HasSuffix(path, ".m") || HasSuffix(path, ".mm")
  }

  lemma NativeIff(path: string)
    ensures LowerSuffix(path) in NATIVE_SUFFIXES <==> IsNativeFile(path)
  {
    hide LowerSuffix, HasSuffix;
    SuffixIff(path, ".c");
    SuffixIff(path, ".cc");
    SuffixIff(path, ".cpp");
    SuffixIff(path, ".cxx");
    SuffixIff(path, ".h");
    SuffixIff(path, ".hh");
    SuffixIff(path, ".hpp");
    SuffixIff(path, ".hxx");
    SuffixIff(path, ".m");
    SuffixIff(path, ".mm");
  }

  /** A path every package may depend on. */
  lemma SharedInputIff(path: string)
    ensures SharedBuildInput(path)
            <==> || path == "Cargo.toml" || path == "Cargo.lock" || path == "rust-toolchain.toml"
                 || path == ".config/nextest.toml" || path == ".github/workflows/ci.yml"
                 || path == ".github/workflows/release.yml"
                 || path == "scripts/ci_test_plan.py" || path == "scripts/ci_test_plan.test.py"
                 || EndsWith(path, "/Cargo.toml") || EndsWith(path, "/build.rs") || IsNativeFile(path)
  {
    hide LowerSuffix, HasSuffix, NATIVE_SUFFIXES, IsNativeFile, EndsWith;
    NativeIff(path);
  }

  /** A plugin, npm or docs job has the path, so clippy does not see it. */
  ghost predicate HasContractJob(path: string) {
    PluginJobOwns(path) || NpmJobOwns(path) || DocsJobOwns(path)
  }

  /** What clippy reads. */
  ghost predicate ClippyReads(path: string) {
    && !HasContractJob(path)
    && (|| path == "Cargo.lock" || path == "clippy.toml" || path == "rust-toolchain.toml"
        || EndsWith(path, "/Cargo.toml") || EndsWith(path, "/build.rs")
        || HasSuffix(path, ".rs") || IsNativeFile(path))
  }

  /** What is known not to matter to clippy. */
  ghost predicate ClippyIgnores(path: string, existing: set<string>) {
    || HasContractJob(path)
    || ".github/workflows/" <= path
    || path == ".config/nextest.toml" || path == "scripts/ci_test_plan.py" || path == "scripts/ci_test_plan.test.py"
    || path == ".githooks/pre-commit" || path == ".githooks/pre-push" || path == "scripts/git-hooks.test.sh"
    || (path in existing && IsIsolated(path))
  }

  lemma ClippyIff(path: string, existing: set<string>)
    ensures IsClippyInput(path) <==> ClippyReads(path)
    ensures IsNonClippyContractInput(path, existing) <==> ClippyIgnores(path, existing)
  {
    hide LowerSuffix, HasSuffix, PluginJobOwns, NpmJobOwns, DocsJobOwns, IsolatedTest, IsolatedModule, NATIVE_SUFFIXES,
         IsNativeFile, EndsWith;
    SuffixIff(path, ".rs");
    NativeIff(path);
  }

  /** Main result: for a pull request, merge group or push the fmt gate is on exactly when a Rust file
      changed, and the clippy gate exactly when something changed that clippy reads or, in a full plan,
      that is not known to leave it alone; the plan is full exactly when some path widens it. */
  lemma GatesAre(ws: Workspace, existing: set<string>, event: string, raws: seq<string>)
    requires ws.Valid() && event in {"pull_request", "merge_group", "push"}
            && PlanOf(ws, existing, event, raws).Success?
    ensures NormalizeAll(raws).Success?
    ensures var plan, paths := PlanOf(ws, existing, event, raws).value, NormalizeAll(raws).value;
            && (plan.fmtRequired <==> exists path :: path in paths && HasSuffix(path, ".rs"))
            && (plan.clippyRequired
                <==> || (exists path :: path in paths && ClippyReads(path))
                     || (plan.suites.full && exists path :: path in paths && !ClippyIgnores(path, existing)))
  {
    hide LowerSuffix, HasSuffix, IsClippyInput, IsNonClippyContractInput, ClippyReads, ClippyIgnores, SuitesOf,
         NormalizeAll, PathsResolve;
    var paths := NormalizeAll(raws).value;
    forall path
      ensures LowerSuffix(path) == ".rs" <==> HasSuffix(path, ".rs")
      ensures IsClippyInput(path) <==> ClippyReads(path)
      ensures IsNonClippyContractInput(path, existing) <==> ClippyIgnores(path, existing)
    {
      SuffixIff(path, ".rs");
      ClippyIff(path, existing);
    }
    assert forall i :: 0 <= i < |paths| ==> paths[i] in paths;
  }

  /** When no path raises, a plan is full exactly when some path widens it. */
  lemma FullIffWidens(ws: Workspace, existing: set<string>, event: string, paths: seq<string>)
    requires ws.Valid() && event in {"pull_request", "merge_group", "push"} && paths != []
    requires NoneRaises(ws, existing, paths)
    ensures var r := SuitesOf(ws, existing, event, paths);
            && r.Success? && (r.value.full <==> SomeWidens(ws, existing, paths))
            && (r.value.full ==> r.value.workspaceLib == FullSuite && r.value.cliServer == FullSuite
                                 && r.value.core == FullSuite && r.value.contract == FullSuite
                                 && r.value.smokes == FullSuite)
  {
    hide NoneRaises, SomeWidens, Total, WorkspaceSuite, IntegrationSuite, SuitesOf;
    SuitesAre(ws, existing, event, paths);
  }
}
