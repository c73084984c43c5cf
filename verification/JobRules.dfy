/**
 Which changed paths belong to other jobs than the Rust plan (scripts/ci_test_plan.py, the
 `_..._job_owns` predicates), by the directories of the path.
 */
module JobRules {
  import opened Wrappers
  import opened Strings
  import opened PathRules

  // ---- paths and their directories ----

  /** Names between slashes. */
  ghost predicate AreNames(parts: seq<string>) {
    parts != [] && forall i :: 0 <= i < |parts| ==> parts[i] != "" && parts[i] != "." && '/' !in parts[i]
  }

  /** A path as the planner sees it: it is its own parts. */
  ghost predicate IsPath(path: string) {
    AreNames(Parts(path)) && path == Join(Parts(path), "/")
  }

  lemma NormalizedIsPath(raw: string)
    requires NormalizePath(raw).Success? && NormalizePath(raw).value != "."
    ensures IsPath(NormalizePath(raw).value)
  {
    hide Parts;
    NormalizeIsStable(raw);
    PartsHaveNoSlash(raw);
    assert forall i :: 0 <= i < |Parts(raw)| ==> Parts(raw)[i] in Parts(raw);
  }

  lemma {:induction false} JoinAppend(a: seq<string>, b: seq<string>)
    requires a != [] && b != []
    ensures Join(a + b, "/") == Join(a, "/") + "/" + Join(b, "/")
  {
    if |a| > 1 {
      JoinAppend(a[1..], b);
      assert (a + b)[1..] == a[1..] + b;
    } else {
      assert (a + b)[1..] == b;
    }
  }

  lemma SplitNames(parts: seq<string>)
    requires parts != [] && forall i :: 0 <= i < |parts| ==> '/' !in parts[i]
    ensures Split(Join(parts, "/"), "/") == parts
  {
    JoinSplit(parts, "/", 0);
  }

  /** Below a directory is what starts with its names. */
  lemma UnderIff(path: string, names: seq<string>)
    requires IsPath(path) && AreNames(names)
    ensures Under(path, Join(names, "/")) <==> names <= Parts(path)
  {
    hide Parts, Split, Join;
    var parts, d := Parts(path), Join(names, "/");
    SplitNames(parts);
    SplitNames(names);
    if names <= parts && names != parts {
      var rest := parts[|names|..];
      assert parts == names + rest;
      JoinAppend(names, rest);
    }
    if path != d && Under(path, d) {
      var rest := path[|d| + 1..];
      assert path == d + "/" + rest;
      SplitJoin(rest, "/");
      PartsLackSeparator(rest, '/');
      assert ['/'] == "/";
      var more := Split(rest, "/");
      JoinAppend(names, more);
      SplitNames(names + more);
      assert names <= parts;
    }
  }

  lemma OneName(name: string)
    requires name != "" && name != "." && '/' !in name
    ensures AreNames([name]) && Join([name], "/") == name
  {
  }

  /** Below a directory at the top. */
  lemma TopIff(path: string, name: string)
    requires IsPath(path) && name != "" && name != "." && '/' !in name
    ensures Under(path, name) <==> Parts(path)[0] == name
  {
    hide Parts;
    OneName(name);
    UnderIff(path, [name]);
  }

  lemma TwoNames(a: string, b: string)
    requires AreNames([a, b])
    ensures Join([a, b], "/") == a + "/" + b
  {
    assert [a, b][1..] == [b];
  }

  // ---- the owners ----

  lemma PluginIff(path: string)
    requires IsPath(path)
    ensures PluginJobOwns(path)
            <==> || path in PLUGIN_JOB_FILES
                 || Parts(path)[0] == "plugin" || Parts(path)[0] == "plugin-codex" || Parts(path)[0] == ".claude-plugin"
                 || [".agents", "plugins"] <= Parts(path)
  {
    hide Parts, Under, PLUGIN_JOB_FILES;
    TopIff(path, "plugin");
    TopIff(path, "plugin-codex");
    TopIff(path, ".claude-plugin");
    assert AreNames([".agents", "plugins"]);
    TwoNames(".agents", "plugins");
    UnderIff(path, [".agents", "plugins"]);
    assert ".agents" + "/" + "plugins" == ".agents/plugins";
    FourPrefixes(path);
  }

  lemma FourPrefixes(path: string)
    ensures UnderAny(path, PLUGIN_JOB_PREFIXES)
       <==> Under(path, "plugin") || Under(path, "plugin-codex") || Under(path, ".agents/plugins")
            || Under(path, ".claude-plugin")
  {
    hide Under;
    var p := PLUGIN_JOB_PREFIXES;
    assert p[0] == "plugin" && p[1] == "plugin-codex" && p[2] == ".agents/plugins" && p[3] == ".claude-plugin";
  }

  lemma NpmIff(path: string)
    ensures NpmJobOwns(path)
            <==> exists crate, rest :: rest != [] && Parts(path) == ["crates", crate, "npm"] + rest
  {
    hide Parts;
    var parts := Parts(path);
    if NpmJobOwns(path) {
      assert parts == ["crates", parts[1], "npm"] + parts[3..];
    }
  }

  /** A fixture of a crate: below a `tests` directory of it, or below its `resources`. */
  ghost predicate IsFixture(parts: seq<string>) {
    exists crate, rest, file ::
      && parts == ["crates", crate] + rest + [file] && rest != []
      && ("tests" in rest || rest[0] == "resources")
  }

  lemma FixtureIff(path: string)
    ensures RustFixtureOwns(path) <==> IsFixture(Parts(path))
  {
    hide Parts;
    var parts := Parts(path);
    if RustFixtureOwns(path) {
      var n := |parts|;
      assert parts == ["crates", parts[1]] + parts[2..n - 1] + [parts[n - 1]];
    }
    if crate, rest, file :| parts == ["crates", crate] + rest + [file] && rest != []
                            && ("tests" in rest || rest[0] == "resources") {
      assert parts[2..|parts| - 1] == rest;
    }
  }

  lemma DocsIff(path: string)
    requires IsPath(path)
    ensures DocsJobOwns(path)
            <==> && path != "crates/wenlan-cli/README.md"
                 && (|| path in DOCS_JOB_FILES || Parts(path)[0] == "docs"
                     || (EndsWith(path, ".md") && !IsFixture(Parts(path))))
  {
    hide Parts, Under, EndsWith, DOCS_JOB_FILES, RustFixtureOwns;
    FixtureIff(path);
    TopIff(path, "docs");
    assert DOCS_JOB_PREFIXES[0] == "docs";
  }

  lemma AppIff(path: string)
    requires IsPath(path)
    ensures AppJobOwns(path)
            <==> && !(["app", "eval"] <= Parts(path))
                 && (path in APP_JOB_FILES || Parts(path)[0] in {"app", "src", "e2e", "preview", "review", "public"})
  {
    hide Parts, Under, APP_JOB_FILES;
    assert AreNames(["app", "eval"]);
    TwoNames("app", "eval");
    UnderIff(path, ["app", "eval"]);
    assert "app" + "/" + "eval" == "app/eval";
    TopIff(path, "app");
    TopIff(path, "src");
    TopIff(path, "e2e");
    TopIff(path, "preview");
    TopIff(path, "review");
    TopIff(path, "public");
    SixPrefixes(path);
  }

  lemma SixPrefixes(path: string)
    ensures UnderAny(path, APP_JOB_PREFIXES)
       <==> Under(path, "app") || Under(path, "src") || Under(path, "e2e") || Under(path, "preview")
            || Under(path, "review") || Under(path, "public")
  {
    hide Under;
    var p := APP_JOB_PREFIXES;
    assert p[0] == "app" && p[1] == "src" && p[2] == "e2e" && p[3] == "preview" && p[4] == "review" && p[5] == "public";
  }

  /** Main result: the paths other jobs own, by their first directories and by name. */
  lemma OwnedElsewhereIff(path: string)
    requires IsPath(path)
    ensures OtherJobOwns(path)
            <==> || path in PLUGIN_JOB_FILES || path in DETECT_CONTRACT_INPUTS
                 || Parts(path)[0] in {"plugin", "plugin-codex", ".claude-plugin"}
                 || [".agents", "plugins"] <= Parts(path)
                 || (exists crate, rest :: rest != [] && Parts(path) == ["crates", crate, "npm"] + rest)
                 || (&& path != "crates/wenlan-cli/README.md"
                     && (|| path in DOCS_JOB_FILES || Parts(path)[0] == "docs"
                         || (EndsWith(path, ".md") && !IsFixture(Parts(path)))))
                 || (&& !(["app", "eval"] <= Parts(path))
                     && (path in APP_JOB_FILES
                         || Parts(path)[0] in {"app", "src", "e2e", "preview", "review", "public"}))
  {
    hide Parts, PluginJobOwns, NpmJobOwns, DocsJobOwns, AppJobOwns, PLUGIN_JOB_FILES, DOCS_JOB_FILES, APP_JOB_FILES,
         DETECT_CONTRACT_INPUTS, EndsWith;
    PluginIff(path);
    NpmIff(path);
    DocsIff(path);
    AppIff(path);
  }
}
