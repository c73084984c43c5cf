/**
 Reverse dependencies and their closure, from scripts/ci_test_plan.py
 (`_reverse_dependencies`, `_closure`).
 */
module PackageGraph {
  import opened Wrappers
  import opened Strings
  import opened Collections

  datatype Dependency = Dependency(name: string, isPath: bool)
  datatype Target = Target(name: string, isTest: bool)
  datatype Package = Package(dependencies: seq<Dependency>, targets: seq<Target>)

  type Packages = map<string, Package>
  type Reverse = map<string, set<string>>

  /** p declares a path dependency on d. */
  predicate DependsOn(packages: Packages, p: string, d: string) {
    p in packages && Dependency(d, true) in packages[p].dependencies
  }

  predicate AllIn(packages: Packages, dependencies: seq<Dependency>) {
    forall i :: 0 <= i < |dependencies| && dependencies[i].isPath ==> dependencies[i].name in packages
  }

  /** Every path dependency names a package of the workspace. */
  predicate PathsResolve(packages: Packages) {
    forall p :: p in packages ==> AllIn(packages, packages[p].dependencies)
  }

  ghost predicate IsReverse(packages: Packages, reverse: Reverse) {
    forall d, p :: p in Get(reverse, d) <==> DependsOn(packages, p, d)
  }

  /** The packages are visited in some order, each dependency list from front to back. */
  method ReverseDependencies(packages: Packages) returns (r: Result<Reverse, string>)
    ensures r.Success? <==> PathsResolve(packages)
    ensures r.Success? ==> IsReverse(packages, r.value)
    ensures r.Failure? ==> r.error !in packages
  {
    var reverse: Reverse := map[];
    var pending := packages.Keys;
    while pending != {}
      invariant pending <= packages.Keys
      invariant forall p :: p in packages && p !in pending ==> AllIn(packages, packages[p].dependencies)
      invariant forall d, p :: p in Get(reverse, d) <==> p !in pending && DependsOn(packages, p, d)
    {
      var name :| name in pending;
      var dependencies := packages[name].dependencies;
      ghost var before := reverse;
      for i := 0 to |dependencies|
        invariant AllIn(packages, dependencies[..i])
        invariant forall d, p ::
                  p in Get(reverse, d)
                  <==> p in Get(before, d) || (p == name && Dependency(d, true) in dependencies[..i])
      {
        assert dependencies[..i + 1] == dependencies[..i] + [dependencies[i]];
        var dependency := dependencies[i];
        if !dependency.isPath {
          continue;
        }
        if dependency.name !in packages {
          return Failure(dependency.name);
        }
        reverse := reverse[dependency.name := Get(reverse, dependency.name) + {name}];
      }
      assert dependencies[..|dependencies|] == dependencies;
      pending := pending - {name};
    }
    return Success(reverse);
  }

  // ---- the worklist ----

  /** A dependency counts if it is one by path. */
  lemma DependsIff(packages: Packages, p: string, d: string)
    ensures DependsOn(packages, p, d)
            <==> p in packages && exists i :: 0 <= i < |packages[p].dependencies|
                                              && packages[p].dependencies[i].name == d
                                              && packages[p].dependencies[i].isPath
  {
    if p in packages {
      var ds := packages[p].dependencies;
      if i :| 0 <= i < |ds| && ds[i].name == d && ds[i].isPath {
        assert ds[i] == Dependency(d, true);
      }
    }
  }

  /** All path dependencies are known exactly when no package depends on an absent one. */
  lemma ResolveIff(packages: Packages)
    ensures PathsResolve(packages) <==> forall p, d :: DependsOn(packages, p, d) ==> d in packages
  {
    forall p | p in packages
      ensures AllIn(packages, packages[p].dependencies)
              <==> forall d :: DependsOn(packages, p, d) ==> d in packages
    {
      var ds := packages[p].dependencies;
      if forall d :: DependsOn(packages, p, d) ==> d in packages {
        forall i | 0 <= i < |ds| && ds[i].isPath
          ensures ds[i].name in packages
        {
          assert ds[i] == Dependency(ds[i].name, true);
          assert DependsOn(packages, p, ds[i].name);
        }
      }
    }
  }

  /** p leads from some package to seed, each package depending on the next by path. */
  ghost predicate IsPath(packages: Packages, p: seq<string>, seed: string) {
    && p != [] && p[|p| - 1] == seed
    && forall i :: 0 <= i < |p| - 1 ==> DependsOn(packages, p[i], p[i + 1])
  }

  ghost predicate Reaches(packages: Packages, x: string, seed: string) {
    exists p :: IsPath(packages, p, seed) && p[0] == x
  }

  /** The packages that reach seed through path dependencies, seed included. */
  ghost function ReverseClosure(packages: Packages, seed: string): set<string> {
    set x | x in packages.Keys + {seed} && Reaches(packages, x, seed)
  }

  lemma ReachesItself(packages: Packages, seed: string)
    ensures Reaches(packages, seed, seed)
  {
    assert IsPath(packages, [seed], seed);
  }

  lemma ReachesFurther(packages: Packages, x: string, y: string, seed: string)
    requires Reaches(packages, y, seed) && DependsOn(packages, x, y)
    ensures Reaches(packages, x, seed)
  {
    var p :| IsPath(packages, p, seed) && p[0] == y;
    assert IsPath(packages, [x] + p, seed) && ([x] + p)[0] == x;
  }

  /** Whatever contains seed and all dependents of its members contains every package that
      reaches seed. */
  lemma {:induction false} ClosedContainsReaching(packages: Packages, s: set<string>, p: seq<string>, seed: string)
    requires seed in s && (forall y, x :: y in s && DependsOn(packages, x, y) ==> x in s)
    requires IsPath(packages, p, seed)
    ensures p[0] in s
    decreases |p|
  {
    if |p| > 1 {
      assert DependsOn(packages, p[0], p[1]);
      ClosedContainsReaching(packages, s, p[1..], seed);
    }
  }

  lemma ReachingIsSelected(packages: Packages, x: string, seed: string, s: set<string>)
    requires seed in s && (forall y, z :: y in s && DependsOn(packages, z, y) ==> z in s)
    requires Reaches(packages, x, seed)
    ensures x in s
  {
    var p :| IsPath(packages, p, seed) && p[0] == x;
    ClosedContainsReaching(packages, s, p, seed);
  }

  /** Main result: on any graph, cyclic or not, and however often a package is queued, the
      worklist terminates with exactly the packages that reach the seed. */
  method Closure(seed: string, reverse: Reverse, ghost packages: Packages) returns (selected: set<string>)
    requires IsReverse(packages, reverse)
    ensures selected == ReverseClosure(packages, seed)
  {
    hide Reaches, IsPath;
    selected := {};
    var pending := [seed];
    ReachesItself(packages, seed);
    while pending != []
      invariant forall x :: x in selected || x in pending ==> Reaches(packages, x, seed) && x in packages.Keys + {seed}
      invariant seed in selected || seed in pending
      invariant forall y, x :: y in selected && DependsOn(packages, x, y) ==> x in selected || x in pending
      decreases packages.Keys + {seed} - selected, |pending|
    {
      var package := pending[0];
      assert package in pending;
      assert pending == [package] + pending[1..];
      pending := pending[1..];
      if package in selected {
        continue;
      }
      selected := selected + {package};
      var added := Sorted(Get(reverse, package));
      forall x | x in added
        ensures Reaches(packages, x, seed)
      {
        ReachesFurther(packages, x, package, seed);
      }
      pending := pending + added;
    }
    forall x | Reaches(packages, x, seed)
      ensures x in selected
    {
      ReachingIsSelected(packages, x, seed, selected);
    }
  }
}
