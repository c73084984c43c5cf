/**
 Newest release-candidate artifact per target, from scripts/validate-release-candidate.py
 (`_expected_artifact_names`, `_candidate_artifact_index`, `_latest_candidate_artifact_attempts`,
 `_candidate_artifacts_for_attempts`, `_latest_release_target_attempts`).
 */
module ArtifactSelection {
  import opened Decimals
  import opened Strings
  import opened Wrappers

  datatype SelectionError =
    | MalformedName | BadAttemptOrTarget | Duplicated | MissingTarget | InexactInventory
    | BadAttempt | MissingArtifact | DuplicatedIds
    | JobRepeated | JobIdentity | JobMissing | JobFailed

  /** The release matrix, in order, without repetition. */
  const TARGETS: seq<string> := [
    "aarch64-apple-darwin", "aarch64-unknown-linux-gnu", "x86_64-unknown-linux-gnu", "x86_64-pc-windows-msvc" ]

  predicate IsTarget(t: string) {
    t in TARGETS
  }

  // ---- artifact names ----

  function NamePrefix(runId: nat): string {
    "release-candidate-" + Decimal(runId) + "-"
  }

  function ArtifactName(runId: nat, attempt: nat, target: string): string {
    NamePrefix(runId) + (Decimal(attempt) + "-" + target)
  }

  function DigitRun(s: string): (n: nat)
    ensures n <= |s| && (forall i :: 0 <= i < n ==> IsDigit(s[i])) && (n < |s| ==> !IsDigit(s[n]))
  {
    if s != "" && IsDigit(s[0]) then 1 + DigitRun(s[1..]) else 0
  }

  /** The pattern `([1-9][0-9]*)-(.+)` after the prefix; `.` does not match a line break. */
  function ParseName(runId: nat, name: string): Option<(nat, string)> {
    if !StartsWith(name, NamePrefix(runId)) then None
    else
      var rest := name[|NamePrefix(runId)|..];
      var n := DigitRun(rest);
      if n == 0 || rest[0] == '0' || n + 1 >= |rest| || rest[n] != '-' || '\n' in rest[n + 1..] then None
      else Some((ReadDecimal(rest[..n]), rest[n + 1..]))
  }

  lemma NameParsesIff(runId: nat, name: string, attempt: nat, target: string)
    ensures ParseName(runId, name) == Some((attempt, target))
            <==> attempt > 0 && target != "" && '\n' !in target && name == ArtifactName(runId, attempt, target)
  {
    hide Decimal, ReadDecimal;
    var prefix := NamePrefix(runId);
    if ParseName(runId, name) == Some((attempt, target)) {
      var rest := name[|prefix|..];
      var n := DigitRun(rest);
      ReadsBackDecimal(rest[..n]);
      assert rest == rest[..n] + "-" + rest[n + 1..];
      assert name == prefix + rest;
    }
    if attempt > 0 && target != "" && '\n' !in target && name == ArtifactName(runId, attempt, target) {
      var digits := Decimal(attempt);
      var rest := digits + "-" + target;
      assert name[|prefix|..] == rest;
      assert rest[|digits|] == '-';
      assert forall i :: 0 <= i < |digits| ==> rest[i] == digits[i];
      assert DigitRun(rest) == |digits|;
      assert rest[..|digits|] == digits && rest[|digits| + 1..] == target;
      DecimalReadsBack(attempt);
    }
  }

  /** Main result: a name parses to an attempt and target exactly when it is the name printed for
      them, attempts being positive and targets one non-empty line. */
  lemma NameParsesExact(runId: nat, name: string, attempt: nat, target: string)
    ensures ParseName(runId, name) == Some((attempt, target))
            <==> && attempt > 0 && target != "" && '\n' !in target
                 && name == "release-candidate-" + Decimal(runId) + "-" + Decimal(attempt) + "-" + target
    ensures ArtifactName(runId, attempt, target)
         == "release-candidate-" + Decimal(runId) + "-" + Decimal(attempt) + "-" + target
  {
    hide Decimal, ParseName;
    NameParsesIff(runId, name, attempt, target);
  }

  // ---- the index ----

  datatype Artifact = Artifact(name: string, id: int)
  type Key = (nat, string)
  type Indexed = map<Key, Artifact>

  /** The artifact's name belongs to this run. */
  predicate Concerns(runId: nat, a: Artifact) {
    StartsWith(a.name, NamePrefix(runId))
  }

  predicate GoodKey(key: Key, current: nat) {
    key.0 <= current && IsTarget(key.1)
  }

  /** The artifacts of this run are well named, recent enough and not repeated. */
  ghost predicate Indexable(artifacts: seq<Artifact>, runId: nat, current: nat) {
    && (forall i :: 0 <= i < |artifacts| && Concerns(runId, artifacts[i]) ==>
          ParseName(runId, artifacts[i].name).Some? && GoodKey(ParseName(runId, artifacts[i].name).value, current))
    && (forall i, j :: 0 <= i < j < |artifacts| && Concerns(runId, artifacts[i]) && Concerns(runId, artifacts[j]) ==>
          ParseName(runId, artifacts[i].name) != ParseName(runId, artifacts[j].name))
  }

  /** Exactly the artifacts of this run, by attempt and target. */
  ghost predicate IsIndex(artifacts: seq<Artifact>, runId: nat, indexed: Indexed) {
    && (forall key :: key in indexed ==> indexed[key] in artifacts && ParseName(runId, indexed[key].name) == Some(key))
    && (forall a :: a in artifacts && Concerns(runId, a) ==>
          && ParseName(runId, a.name).Some? && ParseName(runId, a.name).value in indexed
          && indexed[ParseName(runId, a.name).value] == a)
  }

  lemma ParsedConcerns(runId: nat, a: Artifact)
    requires ParseName(runId, a.name).Some?
    ensures Concerns(runId, a)
  {
  }

  method CandidateArtifactIndex(artifacts: seq<Artifact>, runId: nat, current: nat)
    returns (r: Result<Indexed, SelectionError>)
    ensures r.Success? <==> Indexable(artifacts, runId, current)
    ensures r.Success? ==> IsIndex(artifacts, runId, r.value)
    ensures r.Success? ==> forall key :: key in r.value ==> GoodKey(key, current)
  {
    hide ParseName, IsTarget;
    var indexed: Indexed := map[];
    for i := 0 to |artifacts|
      invariant Indexable(artifacts[..i], runId, current) && IsIndex(artifacts[..i], runId, indexed)
      invariant forall key :: key in indexed ==> GoodKey(key, current)
    {
      var a := artifacts[i];
      assert artifacts[..i + 1] == artifacts[..i] + [a];
      if !Concerns(runId, a) {
        if ParseName(runId, a.name).Some? { ParsedConcerns(runId, a); }
        continue;
      }
      var parsed := ParseName(runId, a.name);
      if parsed == None {
        return Failure(MalformedName);
      }
      var key := parsed.value;
      if key.0 > current || !IsTarget(key.1) {
        return Failure(BadAttemptOrTarget);
      }
      if key in indexed {
        var b := indexed[key];
        var j :| 0 <= j < i && artifacts[..i][j] == b;
        assert artifacts[j] == b;
        ParsedConcerns(runId, b);
        return Failure(Duplicated);
      }
      indexed := indexed[key := a];
    }
    assert artifacts[..|artifacts|] == artifacts;
    return Success(indexed);
  }

  // ---- the newest attempt per target ----

  /** attempt emitted an artifact for the target, and no later one did. */
  ghost predicate IsNewest(indexed: Indexed, target: string, attempt: nat) {
    (attempt, target) in indexed && forall other: nat :: (other, target) in indexed ==> other <= attempt
  }

  /** `max` over the attempts of one target, if there is any. */
  method NewestAttempt(indexed: Indexed, target: string) returns (newest: Option<nat>)
    ensures newest == None <==> forall attempt: nat :: (attempt, target) !in indexed
    ensures newest.Some? ==> IsNewest(indexed, target, newest.value)
  {
    newest := None;
    var pending := indexed.Keys;
    while pending != {}
      invariant pending <= indexed.Keys
      invariant newest == None ==> forall attempt: nat :: (attempt, target) in indexed ==> (attempt, target) in pending
      invariant newest.Some? ==> (newest.value, target) in indexed
      invariant newest.Some? ==> forall other: nat ::
                (other, target) in indexed && (other, target) !in pending ==> other <= newest.value
    {
      var key :| key in pending;
      pending := pending - {key};
      if key.1 == target && (newest == None || newest.value < key.0) {
        newest := Some(key.0);
      }
    }
  }

  method LatestCandidateArtifactAttempts(artifacts: seq<Artifact>, runId: nat, current: nat)
    returns (r: Result<map<string, nat>, SelectionError>)
    ensures r.Success? ==> Indexable(artifacts, runId, current)
    ensures r.Success? ==> r.value.Keys == (set t | t in TARGETS)
    ensures r.Success? ==> forall indexed, t ::
              IsIndex(artifacts, runId, indexed) && t in TARGETS ==> IsNewest(indexed, t, r.value[t])
    ensures r.Failure? && Indexable(artifacts, runId, current) ==>
              exists t :: t in TARGETS && forall attempt: nat, a ::
                    a in artifacts ==> ParseName(runId, a.name) != Some((attempt, t))
  {
    hide ParseName, TARGETS, Indexable;
    var indexed :- CandidateArtifactIndex(artifacts, runId, current);
    var selected: map<string, nat> := map[];
    for i := 0 to |TARGETS|
      invariant selected.Keys == set t | t in TARGETS[..i]
      invariant forall t :: t in TARGETS[..i] ==> IsNewest(indexed, t, selected[t])
    {
      assert TARGETS[..i + 1] == TARGETS[..i] + [TARGETS[i]];
      var newest := NewestAttempt(indexed, TARGETS[i]);
      if newest == None {
        assert TARGETS[i] in TARGETS;
        forall attempt: nat, a | a in artifacts
          ensures ParseName(runId, a.name) != Some((attempt, TARGETS[i]))
        {
          if ParseName(runId, a.name).Some? { ParsedConcerns(runId, a); }
        }
        return Failure(MissingTarget);
      }
      selected := selected[TARGETS[i] := newest.value];
    }
    assert TARGETS[..|TARGETS|] == TARGETS;
    forall other, t | IsIndex(artifacts, runId, other) && t in TARGETS
      ensures IsNewest(other, t, selected[t])
    {
      IndexIsUnique(artifacts, runId, indexed, other);
    }
    return Success(selected);
  }

  lemma IndexIsUnique(artifacts: seq<Artifact>, runId: nat, indexed: Indexed, other: Indexed)
    requires IsIndex(artifacts, runId, indexed) && IsIndex(artifacts, runId, other)
    ensures indexed == other
  {
    hide ParseName;
    forall key | key in indexed
      ensures key in other && other[key] == indexed[key]
    {
      ParsedConcerns(runId, indexed[key]);
    }
    forall key | key in other
      ensures key in indexed
    {
      ParsedConcerns(runId, other[key]);
    }
  }

  // ---- the jobs behind the artifacts ----

  datatype Job = Job(name: string, id: int, runId: nat, runAttempt: nat, headSha: string, status: string,
                     conclusion: string)

  function JobName(target: string): string {
    "release-preflight (" + target + ")"
  }

  lemma JobNameInjective(s: string, t: string)
    requires JobName(s) == JobName(t)
    ensures s == t
  {
    var n := |"release-preflight ("|;
    assert JobName(s)[n..|JobName(s)| - 1] == s && JobName(t)[n..|JobName(t)| - 1] == t;
  }

  /** `target_by_job.get(name)`, restricted to the expected targets. */
  function ExpectedTarget(name: string, targets: seq<string>, expected: set<string>): (t: Option<string>)
    ensures t.Some? ==> t.value in targets && t.value in expected && name == JobName(t.value)
    ensures t == None ==> forall x :: x in targets && x in expected ==> name != JobName(x)
  {
    if targets == [] then None
    else if name == JobName(targets[0]) && targets[0] in expected then Some(targets[0])
    else ExpectedTarget(name, targets[1..], expected)
  }

  predicate HasIdentity(job: Job, runId: nat, attempt: nat, headSha: string) {
    job.id > 0 && job.runId == runId && job.runAttempt == attempt && job.headSha == headSha
  }

  predicate Succeeded(job: Job) {
    job.status == "completed" && job.conclusion == "success"
  }

  /** The attempt has exactly one job for the target, and it is this run's and succeeded. */
  ghost predicate HasGoodJob(jobs: seq<Job>, runId: nat, attempt: nat, headSha: string, target: string) {
    exists i :: 0 <= i < |jobs| && jobs[i].name == JobName(target) && HasIdentity(jobs[i], runId, attempt, headSha)
                && Succeeded(jobs[i]) && forall j :: 0 <= j < |jobs| && j != i ==> jobs[j].name != JobName(target)
  }

  /** The checks on the jobs of one attempt. */
  method ValidateAttempt(jobs: seq<Job>, runId: nat, attempt: nat, headSha: string, expected: set<string>)
    returns (r: Result<(), SelectionError>)
    requires forall t :: t in expected ==> t in TARGETS
    ensures r.Success? <==> forall t :: t in expected ==> HasGoodJob(jobs, runId, attempt, headSha, t)
  {
    hide TARGETS, JobName, HasIdentity, Succeeded;
    var seen: map<string, nat> := map[];
    for i := 0 to |jobs|
      invariant seen.Keys <= expected
      invariant forall t :: t in seen ==>
                && seen[t] < i && jobs[seen[t]].name == JobName(t)
                && HasIdentity(jobs[seen[t]], runId, attempt, headSha)
      invariant forall t, j :: t in expected && 0 <= j < i && jobs[j].name == JobName(t) ==> t in seen && seen[t] == j
    {
      var job := jobs[i];
      var target := ExpectedTarget(job.name, TARGETS, expected);
      if target == None {
        continue;
      }
      var t := target.value;
      if t in seen {
        return Failure(JobRepeated);
      }
      if !HasIdentity(job, runId, attempt, headSha) {
        return Failure(JobIdentity);
      }
      forall s | s in expected && job.name == JobName(s)
        ensures s == t
      {
        JobNameInjective(s, t);
      }
      seen := seen[t := i];
    }
    if !(expected <= seen.Keys) {
      assert exists t :: t in expected && t !in seen;
      return Failure(JobMissing);
    }
    var pending := expected;
    while pending != {}
      invariant pending <= expected
      invariant forall t :: t in expected - pending ==> Succeeded(jobs[seen[t]])
    {
      var t :| t in pending;
      if !Succeeded(jobs[seen[t]]) {
        return Failure(JobFailed);
      }
      pending := pending - {t};
    }
    return Success(());
  }

  ghost predicate AttemptsGood(jobs: map<nat, seq<Job>>, runId: nat, current: nat, headSha: string,
                               attempts: map<string, nat>) {
    && attempts.Keys == (set t | t in TARGETS)
    && forall t :: t in attempts ==> 1 <= attempts[t] <= current && attempts[t] in jobs
                                     && HasGoodJob(jobs[attempts[t]], runId, attempts[t], headSha, t)
  }

  /** The jobs are read attempt by attempt, for the targets whose newest artifact is from it. */
  method LatestReleaseTargetAttempts(jobs: map<nat, seq<Job>>, runId: nat, current: nat, headSha: string,
                                     attempts: map<string, nat>)
    returns (r: Result<map<string, nat>, SelectionError>)
    requires forall a: nat :: 1 <= a <= current ==> a in jobs
    ensures r.Success? <==> AttemptsGood(jobs, runId, current, headSha, attempts)
    ensures r.Success? ==> r.value == attempts
  {
    hide HasGoodJob, TARGETS;
    if attempts.Keys != (set t | t in TARGETS) {
      return Failure(InexactInventory);
    }
    if exists t :: t in attempts && !(1 <= attempts[t] <= current) {
      return Failure(BadAttempt);
    }
    var validated: map<string, nat> := map[];
    var pending := set t | t in attempts :: attempts[t];
    while pending != {}
      invariant pending <= (set t | t in attempts :: attempts[t])
      invariant forall t :: t in attempts && attempts[t] !in pending ==>
                  HasGoodJob(jobs[attempts[t]], runId, attempts[t], headSha, t)
                  && t in validated && validated[t] == attempts[t]
      invariant forall t :: t in validated ==> t in attempts && attempts[t] !in pending
    {
      var attempt :| attempt in pending && forall a :: a in pending ==> attempt <= a by {
        LeastExists(pending);
      }
      var expected := set t | t in attempts && attempts[t] == attempt;
      var checked := ValidateAttempt(jobs[attempt], runId, attempt, headSha, expected);
      if checked.Failure? {
        return Failure(checked.error);
      }
      validated := validated + map t | t in expected :: attempt;
      pending := pending - {attempt};
    }
    assert validated == attempts;
    return Success(validated);
  }

  lemma {:induction false} LeastExists(s: set<nat>)
    requires s != {}
    ensures exists a :: a in s && forall b :: b in s ==> a <= b
  {
    var x :| x in s;
    var rest := s - {x};
    if rest == {} {
      assert s == {x};
    } else {
      LeastExists(rest);
      var a :| a in rest && forall b :: b in rest ==> a <= b;
      assert s == rest + {x};
      if x < a {
        assert x in s && forall b :: b in s ==> x <= b;
      } else {
        assert a in s && forall b :: b in s ==> a <= b;
      }
    }
  }

  // ---- the selected artifacts ----

  ghost predicate IsSelection(indexed: Indexed, attempts: map<string, nat>, selected: map<string, Artifact>) {
    && selected.Keys == attempts.Keys
    && (forall t :: t in selected ==> (attempts[t], t) in indexed && selected[t] == indexed[(attempts[t], t)])
    && (forall s, t :: s in selected && t in selected && s != t ==> selected[s].id != selected[t].id)
  }

  /** Every target's artifact of the given attempt exists, and no two share an id. */
  ghost predicate CanBind(indexed: Indexed, attempts: map<string, nat>) {
    && (forall t :: t in attempts ==> (attempts[t], t) in indexed)
    && (forall s, t ::
          s in attempts && t in attempts && s != t ==> indexed[(attempts[s], s)].id != indexed[(attempts[t], t)].id)
  }

  method CandidateArtifactsForAttempts(artifacts: seq<Artifact>, runId: nat, current: nat, attempts: map<string, nat>)
    returns (r: Result<map<string, Artifact>, SelectionError>)
    ensures r.Success? ==> Indexable(artifacts, runId, current) && attempts.Keys == (set t | t in TARGETS)
    ensures r.Success? ==> exists indexed ::
              IsIndex(artifacts, runId, indexed) && IsSelection(indexed, attempts, r.value)
    ensures r.Failure? && Indexable(artifacts, runId, current) && attempts.Keys == (set t | t in TARGETS) ==>
              exists indexed :: IsIndex(artifacts, runId, indexed) && !CanBind(indexed, attempts)
  {
    hide ParseName, TARGETS, Indexable, IsIndex;
    var indexed :- CandidateArtifactIndex(artifacts, runId, current);
    if attempts.Keys != (set t | t in TARGETS) {
      return Failure(InexactInventory);
    }
    var selected: map<string, Artifact> := map[];
    var ids: set<int> := {};
    var pending := attempts.Keys;
    while pending != {}
      invariant pending <= attempts.Keys && selected.Keys == attempts.Keys - pending
      invariant forall t :: t in selected ==> (attempts[t], t) in indexed && selected[t] == indexed[(attempts[t], t)]
      invariant forall t :: t in selected ==> selected[t].id in ids
      invariant forall id :: id in ids ==> exists t :: t in selected && selected[t].id == id
      invariant forall s, t :: s in selected && t in selected && s != t ==> selected[s].id != selected[t].id
    {
      var t :| t in pending;
      if (attempts[t], t) !in indexed {
        assert !CanBind(indexed, attempts);
        return Failure(MissingArtifact);
      }
      var a := indexed[(attempts[t], t)];
      if a.id in ids {
        assert !CanBind(indexed, attempts);
        return Failure(DuplicatedIds);
      }
      ids := ids + {a.id};
      selected := selected[t := a];
      pending := pending - {t};
    }
    return Success(selected);
  }

  // ---- over a history of reruns ----

  /** One entry per attempt, oldest first: the artifact ids it emitted, by target. */
  type History = seq<map<string, int>>

  /** The listed artifacts of the run are exactly those the attempts emitted. */
  ghost predicate Lists(artifacts: seq<Artifact>, runId: nat, history: History) {
    forall attempt: nat, t, id :: IsTarget(t) && attempt > 0 ==>
      (Artifact(ArtifactName(runId, attempt, t), id) in artifacts
       <==> attempt <= |history| && t in history[attempt - 1] && history[attempt - 1][t] == id)
  }

  /** Attempt n is the last one that emitted an artifact for t. */
  ghost predicate LastEmitted(history: History, t: string, n: nat) {
    1 <= n <= |history| && t in history[n - 1] && forall k :: n <= k < |history| ==> t !in history[k]
  }

  lemma TargetsAreNames()
    ensures forall t :: IsTarget(t) ==> t != "" && '\n' !in t
  {
  }

  lemma IndexedIffEmitted(artifacts: seq<Artifact>, runId: nat, history: History, indexed: Indexed, attempt: nat,
                          t: string)
    requires Lists(artifacts, runId, history) && IsIndex(artifacts, runId, indexed) && IsTarget(t)
    ensures (attempt, t) in indexed <==> 1 <= attempt <= |history| && t in history[attempt - 1]
    ensures (attempt, t) in indexed
            ==> indexed[(attempt, t)] == Artifact(ArtifactName(runId, attempt, t), history[attempt - 1][t])
  {
    hide ParseName, ArtifactName, IsTarget;
    TargetsAreNames();
    if (attempt, t) in indexed {
      var a := indexed[(attempt, t)];
      NameParsesExact(runId, a.name, attempt, t);
      assert a == Artifact(ArtifactName(runId, attempt, t), a.id);
    }
    if 1 <= attempt <= |history| && t in history[attempt - 1] {
      var a := Artifact(ArtifactName(runId, attempt, t), history[attempt - 1][t]);
      assert a in artifacts;
      NameParsesExact(runId, a.name, attempt, t);
      ParsedConcerns(runId, a);
    }
  }

  /** An attempt is the newest indexed one exactly when it is the last that emitted the target. */
  lemma NewestIsLast(artifacts: seq<Artifact>, runId: nat, history: History, indexed: Indexed, t: string, n: nat)
    requires Lists(artifacts, runId, history) && IsIndex(artifacts, runId, indexed) && IsTarget(t)
    ensures IsNewest(indexed, t, n) <==> LastEmitted(history, t, n)
    ensures IsNewest(indexed, t, n)
            ==> indexed[(n, t)] == Artifact(ArtifactName(runId, n, t), history[n - 1][t])
  {
    hide IsIndex, Lists, IsTarget, ArtifactName;
    forall attempt: nat
      ensures (attempt, t) in indexed <==> 1 <= attempt <= |history| && t in history[attempt - 1]
    {
      IndexedIffEmitted(artifacts, runId, history, indexed, attempt, t);
    }
    IndexedIffEmitted(artifacts, runId, history, indexed, n, t);
    if IsNewest(indexed, t, n) {
      forall k | n <= k < |history|
        ensures t !in history[k]
      {
        assert (k + 1, t) !in indexed;
      }
    }
  }

  /** What a release needs: well-named artifacts, for every target a last emitting attempt whose
      job for the target succeeded, and distinct ids. */
  ghost predicate CanSelect(artifacts: seq<Artifact>, jobs: map<nat, seq<Job>>, runId: nat, current: nat,
                            headSha: string, history: History) {
    && Indexable(artifacts, runId, current)
    && (forall t :: t in TARGETS ==> exists n: nat ::
          LastEmitted(history, t, n) && n <= current && n in jobs && HasGoodJob(jobs[n], runId, n, headSha, t))
    && (forall s, t, m: nat, n: nat ::
          s in TARGETS && t in TARGETS && s != t && LastEmitted(history, s, m) && LastEmitted(history, t, n)
          ==> history[m - 1][s] != history[n - 1][t])
  }

  lemma LastIsUnique(history: History, t: string, m: nat, n: nat)
    requires LastEmitted(history, t, m) && LastEmitted(history, t, n)
    ensures m == n
  {
  }

  /** Main result: over any history of reruns, in whatever order its artifacts are listed, selection
      succeeds exactly when it can, with one artifact per target: the one of the last attempt that
      emitted any, whose job for the target succeeded there. */
  method SelectCandidates(artifacts: seq<Artifact>, jobs: map<nat, seq<Job>>, runId: nat, current: nat,
                          headSha: string, ghost history: History)
    returns (r: Result<map<string, Artifact>, SelectionError>)
    requires forall a: nat :: 1 <= a <= current ==> a in jobs
    requires Lists(artifacts, runId, history)
    ensures r.Success? <==> CanSelect(artifacts, jobs, runId, current, headSha, history)
    ensures r.Success? ==> r.value.Keys == (set t | t in TARGETS)
    ensures r.Success? ==> forall t :: t in TARGETS ==> exists n: nat ::
              LastEmitted(history, t, n) && r.value[t] == Artifact(ArtifactName(runId, n, t), history[n - 1][t])
  {
    hide ParseName, TARGETS, Indexable, IsIndex, Lists, HasGoodJob, ArtifactName, CanSelect, CanBind, AttemptsGood,
         IsNewest, LastEmitted;
    r := Failure(MissingTarget);
    var latest := LatestCandidateArtifactAttempts(artifacts, runId, current);
    if latest.Failure? {
      if CanSelect(artifacts, jobs, runId, current, headSha, history) {
        CanSelectHasNewest(artifacts, jobs, runId, current, headSha, history);
      }
      return Failure(latest.error);
    }
    var attempts := LatestReleaseTargetAttempts(jobs, runId, current, headSha, latest.value);
    if attempts.Failure? {
      if CanSelect(artifacts, jobs, runId, current, headSha, history) {
        CanSelectHasJobs(artifacts, jobs, runId, current, headSha, history, latest.value);
      }
      return Failure(attempts.error);
    }
    r := CandidateArtifactsForAttempts(artifacts, runId, current, attempts.value);
    if r.Failure? {
      if CanSelect(artifacts, jobs, runId, current, headSha, history) {
        ghost var indexed :| IsIndex(artifacts, runId, indexed) && !CanBind(indexed, attempts.value);
        CanSelectBinds(artifacts, jobs, runId, current, headSha, history, attempts.value, indexed);
      }
      return;
    }
    ghost var indexed :| IsIndex(artifacts, runId, indexed) && IsSelection(indexed, attempts.value, r.value);
    SelectedIsLast(artifacts, jobs, runId, current, headSha, history, attempts.value, indexed, r.value);
  }

  lemma CanSelectHasNewest(artifacts: seq<Artifact>, jobs: map<nat, seq<Job>>, runId: nat, current: nat,
                           headSha: string, history: History)
    requires CanSelect(artifacts, jobs, runId, current, headSha, history) && Lists(artifacts, runId, history)
    ensures Indexable(artifacts, runId, current)
    ensures forall t :: t in TARGETS ==> exists attempt: nat, a ::
              a in artifacts && ParseName(runId, a.name) == Some((attempt, t))
  {
    hide ParseName, TARGETS, Indexable, HasGoodJob, ArtifactName;
    TargetsAreNames();
    forall t | t in TARGETS
      ensures exists attempt: nat, a :: a in artifacts && ParseName(runId, a.name) == Some((attempt, t))
    {
      assert IsTarget(t);
      var n: nat :| LastEmitted(history, t, n);
      var a := Artifact(ArtifactName(runId, n, t), history[n - 1][t]);
      assert a in artifacts;
      NameParsesExact(runId, a.name, n, t);
    }
  }

  lemma CanSelectHasJobs(artifacts: seq<Artifact>, jobs: map<nat, seq<Job>>, runId: nat, current: nat,
                         headSha: string, history: History, latest: map<string, nat>)
    requires CanSelect(artifacts, jobs, runId, current, headSha, history) && Lists(artifacts, runId, history)
    requires Indexable(artifacts, runId, current) && latest.Keys == (set t | t in TARGETS)
    requires forall indexed, t :: IsIndex(artifacts, runId, indexed) && t in TARGETS ==> IsNewest(indexed, t, latest[t])
    ensures AttemptsGood(jobs, runId, current, headSha, latest)
  {
    hide ParseName, TARGETS, Indexable, IsIndex, Lists, HasGoodJob, ArtifactName, IsNewest;
    var indexed := AnIndex(artifacts, runId, current);
    forall t | t in latest
      ensures 1 <= latest[t] <= current && latest[t] in jobs
              && HasGoodJob(jobs[latest[t]], runId, latest[t], headSha, t)
    {
      assert IsTarget(t);
      NewestIsLast(artifacts, runId, history, indexed, t, latest[t]);
      var n: nat :| LastEmitted(history, t, n) && n <= current && n in jobs
              && HasGoodJob(jobs[n], runId, n, headSha, t);
      LastIsUnique(history, t, n, latest[t]);
    }
  }

  lemma {:induction false} IndexExists(artifacts: seq<Artifact>, runId: nat, current: nat, n: nat)
    returns (indexed: Indexed)
    requires Indexable(artifacts, runId, current) && n <= |artifacts|
    ensures IsIndex(artifacts[..n], runId, indexed)
  {
    hide ParseName, IsTarget;
    indexed := map[];
    if n > 0 {
      var earlier := IndexExists(artifacts, runId, current, n - 1);
      var a := artifacts[n - 1];
      assert artifacts[..n] == artifacts[..n - 1] + [a];
      indexed := earlier;
      if Concerns(runId, a) {
        var key := ParseName(runId, a.name).value;
        if key in earlier {
          var j :| 0 <= j < n - 1 && artifacts[..n - 1][j] == earlier[key];
          assert artifacts[j] == earlier[key];
          ParsedConcerns(runId, artifacts[j]);
        }
        indexed := earlier[key := a];
      }
    }
  }

  lemma AnIndex(artifacts: seq<Artifact>, runId: nat, current: nat) returns (indexed: Indexed)
    requires Indexable(artifacts, runId, current)
    ensures IsIndex(artifacts, runId, indexed)
  {
    indexed := IndexExists(artifacts, runId, current, |artifacts|);
    assert artifacts[..|artifacts|] == artifacts;
  }

  lemma CanSelectBinds(artifacts: seq<Artifact>, jobs: map<nat, seq<Job>>, runId: nat, current: nat, headSha: string,
                       history: History, attempts: map<string, nat>, indexed: Indexed)
    requires CanSelect(artifacts, jobs, runId, current, headSha, history) && Lists(artifacts, runId, history)
    requires attempts.Keys == (set t | t in TARGETS) && IsIndex(artifacts, runId, indexed)
    requires forall t :: t in TARGETS ==> IsNewest(indexed, t, attempts[t])
    ensures CanBind(indexed, attempts)
  {
    hide ParseName, TARGETS, Indexable, IsIndex, Lists, HasGoodJob, ArtifactName, LastEmitted;
    forall t | t in attempts
      ensures (attempts[t], t) in indexed && LastEmitted(history, t, attempts[t]) && 1 <= attempts[t] <= |history|
      ensures t in history[attempts[t] - 1] && indexed[(attempts[t], t)].id == history[attempts[t] - 1][t]
    {
      assert IsTarget(t);
      NewestIsLast(artifacts, runId, history, indexed, t, attempts[t]);
      EmittedInHistory(history, t, attempts[t]);
    }
  }

  lemma EmittedInHistory(history: History, t: string, n: nat)
    requires LastEmitted(history, t, n)
    ensures 1 <= n <= |history| && t in history[n - 1]
  {
  }

  lemma SelectedIsLast(artifacts: seq<Artifact>, jobs: map<nat, seq<Job>>, runId: nat, current: nat, headSha: string,
                       history: History, attempts: map<string, nat>, indexed: Indexed,
                       selected: map<string, Artifact>)
    requires Lists(artifacts, runId, history) && Indexable(artifacts, runId, current)
    requires IsIndex(artifacts, runId, indexed) && IsSelection(indexed, attempts, selected)
    requires AttemptsGood(jobs, runId, current, headSha, attempts)
    requires forall t :: t in TARGETS ==> IsNewest(indexed, t, attempts[t])
    ensures CanSelect(artifacts, jobs, runId, current, headSha, history)
    ensures forall t :: t in TARGETS ==> exists n: nat ::
              LastEmitted(history, t, n) && selected[t] == Artifact(ArtifactName(runId, n, t), history[n - 1][t])
  {
    hide ParseName, TARGETS, Indexable, IsIndex, Lists, HasGoodJob, ArtifactName, LastEmitted;
    forall t | t in TARGETS
      ensures LastEmitted(history, t, attempts[t]) && 1 <= attempts[t] <= |history| && t in history[attempts[t] - 1]
      ensures selected[t] == Artifact(ArtifactName(runId, attempts[t], t), history[attempts[t] - 1][t])
    {
      assert IsTarget(t);
      NewestIsLast(artifacts, runId, history, indexed, t, attempts[t]);
      EmittedInHistory(history, t, attempts[t]);
    }
    forall s, t, m: nat, n: nat |
      s in TARGETS && t in TARGETS && s != t && LastEmitted(history, s, m) && LastEmitted(history, t, n)
      ensures 1 <= m <= |history| && 1 <= n <= |history| && s in history[m - 1] && t in history[n - 1]
      ensures history[m - 1][s] != history[n - 1][t]
    {
      LastIsUnique(history, s, m, attempts[s]);
      LastIsUnique(history, t, n, attempts[t]);
      assert selected[s].id != selected[t].id;
    }
  }

  // ---- the conditions in full ----

  /** The name of an artifact, as the build job prints it. */
  function PrintedName(runId: nat, attempt: nat, target: string): string {
    "release-candidate-" + Decimal(runId) + "-" + Decimal(attempt) + "-" + target
  }

  /** This run's artifacts are named after attempts up to the current one and targets of the matrix, no
      two alike. */
  ghost predicate WellNamed(artifacts: seq<Artifact>, runId: nat, current: nat) {
    && (forall i :: 0 <= i < |artifacts| && "release-candidate-" + Decimal(runId) + "-" <= artifacts[i].name ==>
          IsNamed(artifacts[i], runId, current))
    && (forall i, j :: 0 <= i < j < |artifacts| && "release-candidate-" + Decimal(runId) + "-" <= artifacts[i].name ==>
          artifacts[i].name != artifacts[j].name)
  }

  ghost predicate IsNamed(a: Artifact, runId: nat, current: nat) {
    exists n, t :: 1 <= n <= current && t in TARGETS && a.name == PrintedName(runId, n, t)
  }

  lemma IsNamedIff(a: Artifact, runId: nat, current: nat)
    ensures IsNamed(a, runId, current)
            <==> ParseName(runId, a.name).Some? && GoodKey(ParseName(runId, a.name).value, current)
  {
    hide ParseName, TARGETS;
    TargetsAreNames();
    forall n: nat, t
      ensures ParseName(runId, a.name) == Some((n, t))
              <==> n > 0 && t != "" && '\n' !in t && a.name == PrintedName(runId, n, t)
    {
      NameParsesExact(runId, a.name, n, t);
    }
    assert forall t :: IsTarget(t) <==> t in TARGETS;
    var p := ParseName(runId, a.name);
    assert p.Some? ==> p.value == (p.value.0, p.value.1);
  }

  lemma SameNameIff(a: Artifact, b: Artifact, runId: nat, current: nat)
    requires IsNamed(a, runId, current) && IsNamed(b, runId, current)
    ensures ParseName(runId, a.name) == ParseName(runId, b.name) <==> a.name == b.name
  {
    hide ParseName, TARGETS;
    IsNamedIff(a, runId, current);
    var p, q := ParseName(runId, a.name).value, ParseName(runId, b.name);
    NameParsesExact(runId, a.name, p.0, p.1);
    NameParsesExact(runId, b.name, p.0, p.1);
  }

  lemma IndexableIff(artifacts: seq<Artifact>, runId: nat, current: nat)
    ensures Indexable(artifacts, runId, current) <==> WellNamed(artifacts, runId, current)
  {
    hide ParseName, IsNamed, Decimal;
    forall i | 0 <= i < |artifacts|
      ensures IsNamed(artifacts[i], runId, current)
              <==> && ParseName(runId, artifacts[i].name).Some?
                   && GoodKey(ParseName(runId, artifacts[i].name).value, current)
      ensures Concerns(runId, artifacts[i]) <==> "release-candidate-" + Decimal(runId) + "-" <= artifacts[i].name
    {
      IsNamedIff(artifacts[i], runId, current);
    }
    forall i, j | 0 <= i < j < |artifacts| && IsNamed(artifacts[i], runId, current)
            && IsNamed(artifacts[j], runId, current)
      ensures ParseName(runId, artifacts[i].name) == ParseName(runId, artifacts[j].name)
              <==> artifacts[i].name == artifacts[j].name
    {
      SameNameIff(artifacts[i], artifacts[j], runId, current);
    }
    hide GoodKey;
  }

  /** A completed, successful job of this run, attempt and commit, and no other of its name. */
  ghost predicate OneGoodJob(jobs: seq<Job>, name: string, runId: nat, attempt: nat, headSha: string) {
    exists i :: 0 <= i < |jobs| && IsGoodJob(jobs[i], name, runId, attempt, headSha)
                && forall j :: 0 <= j < |jobs| && jobs[j].name == name ==> j == i
  }

  ghost predicate IsGoodJob(job: Job, name: string, runId: nat, attempt: nat, headSha: string) {
    && job.name == name && job.status == "completed" && job.conclusion == "success"
    && job.id >= 1 && (job.runId, job.runAttempt, job.headSha) == (runId, attempt, headSha)
  }

  lemma GoodJobIff(jobs: seq<Job>, runId: nat, attempt: nat, headSha: string, target: string)
    ensures HasGoodJob(jobs, runId, attempt, headSha, target)
            <==> OneGoodJob(jobs, "release-preflight (" + target + ")", runId, attempt, headSha)
  {
    assert JobName(target) == "release-preflight (" + target + ")";
    var name := JobName(target);
    forall i | 0 <= i < |jobs|
      ensures IsGoodJob(jobs[i], name, runId, attempt, headSha)
              <==> jobs[i].name == name && HasIdentity(jobs[i], runId, attempt, headSha) && Succeeded(jobs[i])
    {
    }
  }

  /** Main result: when a selection is possible, with every name, status and bound written out. */
  lemma CanSelectIff(artifacts: seq<Artifact>, jobs: map<nat, seq<Job>>, runId: nat, current: nat, headSha: string,
                     history: History)
    ensures CanSelect(artifacts, jobs, runId, current, headSha, history)
            <==> && WellNamed(artifacts, runId, current)
                 && (forall t :: t in TARGETS ==> exists n: nat ::
                       && LastEmitted(history, t, n) && n <= current && n in jobs
                       && OneGoodJob(jobs[n], "release-preflight (" + t + ")", runId, n, headSha))
                 && (forall s, t, m: nat, n: nat ::
                       s in TARGETS && t in TARGETS && s != t && LastEmitted(history, s, m)
                           && LastEmitted(history, t, n)
                       ==> history[m - 1][s] != history[n - 1][t])
  {
    hide Indexable, WellNamed, TARGETS, HasGoodJob, OneGoodJob, LastEmitted;
    IndexableIff(artifacts, runId, current);
    forall n, t | n in jobs
      ensures HasGoodJob(jobs[n], runId, n, headSha, t)
              <==> OneGoodJob(jobs[n], "release-preflight (" + t + ")", runId, n, headSha)
    {
      GoodJobIff(jobs[n], runId, n, headSha, t);
    }
  }
}
