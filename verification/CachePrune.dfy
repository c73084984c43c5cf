/** The oldest-first eviction plan of scripts/ci-cache-maintenance.py (`build_prune_plan`). */
module CachePrune {
  import opened Wrappers
  import opened Strings
  import opened Collections

  datatype Cache = Cache(id: int, key: string, ref: string, size: int, lastAccessed: string, created: string)
  datatype MaintenanceError = BadUsage | BadTarget | BadPrefix | BadRow | DuplicateIds
  datatype Status = WithinTarget | Planned | InsufficientCandidates

  datatype Plan = Plan(
    usage: nat, target: nat, projected: nat, deleteBytes: int, protectedBytes: int,
    inventoryCount: nat, deleteCount: nat, status: Status, deletions: seq<Cache>)

  /** `_cache_row` */
  predicate GoodRow(c: Cache) {
    c.id > 0 && c.size > 0 && c.key != "" && c.ref != "" && c.lastAccessed != "" && c.created != ""
  }

  predicate AllGood(s: seq<Cache>) {
    forall i :: 0 <= i < |s| ==> GoodRow(s[i])
  }

  predicate IsProtected(c: Cache, prefixes: seq<string>) {
    exists i :: 0 <= i < |prefixes| && StartsWith(c.key, prefixes[i])
  }

  // ---- the eviction order ----

  /** The order of the keys (last_accessed_at, created_at, id). */
  predicate Older(a: Cache, b: Cache) {
    if a.lastAccessed != b.lastAccessed then Leq(a.lastAccessed, b.lastAccessed)
    else if a.created != b.created then Leq(a.created, b.created)
    else a.id <= b.id
  }

  lemma OlderIsOrder(a: Cache, b: Cache, c: Cache)
    ensures Older(a, b) || Older(b, a)
    ensures Older(a, b) && Older(b, c) ==> Older(a, c)
    ensures Older(a, b) && Older(b, a) ==> a.id == b.id
  {
    LeqTotal(a.lastAccessed, b.lastAccessed);
    LeqTotal(a.created, b.created);
    if Leq(a.lastAccessed, b.lastAccessed) && Leq(b.lastAccessed, c.lastAccessed) {
      LeqTransitive(a.lastAccessed, b.lastAccessed, c.lastAccessed);
      if a.lastAccessed == c.lastAccessed { LeqAntisymmetric(a.lastAccessed, b.lastAccessed); }
    }
    if Leq(a.created, b.created) && Leq(b.created, c.created) {
      LeqTransitive(a.created, b.created, c.created);
      if a.created == c.created { LeqAntisymmetric(a.created, b.created); }
    }
    if Leq(a.lastAccessed, b.lastAccessed) && Leq(b.lastAccessed, a.lastAccessed) {
      LeqAntisymmetric(a.lastAccessed, b.lastAccessed);
    }
    if Leq(a.created, b.created) && Leq(b.created, a.created) {
      LeqAntisymmetric(a.created, b.created);
    }
  }

  predicate OldestFirst(s: seq<Cache>) {
    forall i, j :: 0 <= i < j < |s| ==> Older(s[i], s[j])
  }

  function Insert(s: seq<Cache>, c: Cache): (r: seq<Cache>)
    ensures multiset(r) == multiset(s) + multiset{c}
  {
    if s == [] || Older(s[|s| - 1], c) then s + [c]
    else
      assert s == s[..|s| - 1] + [s[|s| - 1]];
      Insert(s[..|s| - 1], c) + [s[|s| - 1]]
  }

  /** `candidates.sort(key=...)` */
  function Sort(s: seq<Cache>): (r: seq<Cache>)
    ensures multiset(r) == multiset(s)
  {
    if s == [] then []
    else
      assert s == s[..|s| - 1] + [s[|s| - 1]];
      Insert(Sort(s[..|s| - 1]), s[|s| - 1])
  }

  lemma {:induction false} InsertKeepsOrder(s: seq<Cache>, c: Cache)
    requires OldestFirst(s)
    ensures OldestFirst(Insert(s, c))
  {
    hide Older;
    if s != [] {
      var front, last := s[..|s| - 1], s[|s| - 1];
      OlderIsOrder(last, c, c);
      if Older(last, c) {
        forall i | 0 <= i < |front|
          ensures Older(front[i], c)
        {
          OlderIsOrder(front[i], last, c);
        }
      } else {
        InsertKeepsOrder(front, c);
        var r := Insert(front, c);
        forall i | 0 <= i < |r|
          ensures Older(r[i], last)
        {
          assert r[i] in multiset(r);
          assert r[i] == c || r[i] in front;
        }
      }
    }
  }

  lemma {:induction false} SortIsOldestFirst(s: seq<Cache>)
    ensures OldestFirst(Sort(s))
  {
    if s != [] {
      SortIsOldestFirst(s[..|s| - 1]);
      InsertKeepsOrder(Sort(s[..|s| - 1]), s[|s| - 1]);
    }
  }

  /** The oldest is the same in both arrangements. */
  lemma SameOldest(s: seq<Cache>, t: seq<Cache>)
    requires s != [] && t != [] && OldestFirst(s) && OldestFirst(t) && multiset(s) == multiset(t)
    requires forall c, d :: c in s && d in s && c.id == d.id ==> c == d
    ensures s[0] == t[0]
  {
    hide Older;
    assert s[0] in multiset(t) && t[0] in multiset(s);
    var i :| 0 <= i < |t| && t[i] == s[0];
    var j :| 0 <= j < |s| && s[j] == t[0];
    OlderIsOrder(s[0], t[0], t[0]);
    assert t[0] in s;
    assert i == 0 || Older(t[0], s[0]);
    assert j == 0 || Older(s[0], t[0]);
  }

  lemma RestOfMultiset(s: seq<Cache>)
    requires s != []
    ensures multiset(s[1..]) == multiset(s) - multiset{s[0]}
  {
    assert s == [s[0]] + s[1..];
  }

  /** With distinct ids there is only one oldest-first arrangement. */
  lemma {:induction false} OldestFirstIsUnique(s: seq<Cache>, t: seq<Cache>)
    requires OldestFirst(s) && OldestFirst(t) && multiset(s) == multiset(t)
    requires forall c, d :: c in s && d in s && c.id == d.id ==> c == d
    ensures s == t
    decreases |s|
  {
    hide Older;
    assert |s| == |multiset(s)| == |multiset(t)| == |t|;
    if s != [] {
      SameOldest(s, t);
      RestOfMultiset(s);
      RestOfMultiset(t);
      OldestFirstIsUnique(s[1..], t[1..]);
      assert s == [s[0]] + s[1..] && t == [t[0]] + t[1..];
    }
  }

  // ---- the plan ----

  function Candidates(s: seq<Cache>, prefixes: seq<string>): seq<Cache> {
    if s == [] then []
    else Candidates(s[..|s| - 1], prefixes) + (if IsProtected(s[|s| - 1], prefixes) then [] else [s[|s| - 1]])
  }

  function Bytes(s: seq<Cache>): int {
    if s == [] then 0 else Bytes(s[..|s| - 1]) + s[|s| - 1].size
  }

  function ProtectedBytes(s: seq<Cache>, prefixes: seq<string>): int {
    if s == [] then 0
    else ProtectedBytes(s[..|s| - 1], prefixes) + (if IsProtected(s[|s| - 1], prefixes) then s[|s| - 1].size else 0)
  }

  function Max0(x: int): nat {
    if x < 0 then 0 else x
  }

  /** What is left when the first k of the sorted candidates are deleted. */
  function Left(usage: nat, sorted: seq<Cache>, k: nat): nat
    requires k <= |sorted|
  {
    Max0(usage - Bytes(sorted[..k]))
  }

  /** The shortest prefix, from length k on, that reaches the target, or everything. */
  function Cut(usage: nat, target: nat, sorted: seq<Cache>, k: nat): (c: nat)
    requires k <= |sorted|
    ensures k <= c <= |sorted|
    ensures forall j :: k <= j < c ==> Left(usage, sorted, j) > target
    ensures c < |sorted| ==> Left(usage, sorted, c) <= target
    decreases |sorted| - k
  {
    if k == |sorted| || Left(usage, sorted, k) <= target then k else Cut(usage, target, sorted, k + 1)
  }

  function Ids(s: seq<Cache>): set<int> {
    set c | c in s :: c.id
  }

  function StatusOf(usage: nat, target: nat, projected: nat): Status {
    if usage <= target then WithinTarget else if projected <= target then Planned else InsufficientCandidates
  }

  function PlanOf(caches: seq<Cache>, usage: int, target: int, prefixes: seq<string>): Result<Plan, MaintenanceError> {
    if usage < 0 then Failure(BadUsage)
    else if target <= 0 then Failure(BadTarget)
    else if "" in prefixes then Failure(BadPrefix)
    else if !AllGood(caches) then Failure(BadRow)
    else if |caches| != |Ids(caches)| then Failure(DuplicateIds)
    else
      var sorted := Sort(Candidates(caches, prefixes));
      var k := Cut(usage, target, sorted, 0);
      var projected := Left(usage, sorted, k);
      Success(Plan(usage, target, projected, usage - projected, ProtectedBytes(caches, prefixes),
                   |caches|, k, StatusOf(usage, target, projected), sorted[..k]))
  }

  method BuildPrunePlan(caches: seq<Cache>, usage: int, target: int, prefixes: seq<string>)
    returns (r: Result<Plan, MaintenanceError>)
    ensures r == PlanOf(caches, usage, target, prefixes)
  {
    hide IsProtected, GoodRow, Sort;
    if usage < 0 {
      return Failure(BadUsage);
    }
    if target <= 0 {
      return Failure(BadTarget);
    }
    if "" in prefixes {
      return Failure(BadPrefix);
    }
    for i := 0 to |caches|
      invariant AllGood(caches[..i])
    {
      if !GoodRow(caches[i]) {
        return Failure(BadRow);
      }
    }
    if |caches| != |Ids(caches)| {
      return Failure(DuplicateIds);
    }
    var protectedBytes, candidates: seq<Cache> := 0, [];
    for i := 0 to |caches|
      invariant protectedBytes == ProtectedBytes(caches[..i], prefixes)
      invariant candidates == Candidates(caches[..i], prefixes)
    {
      assert caches[..i + 1][..i] == caches[..i];
      if IsProtected(caches[i], prefixes) {
        protectedBytes := protectedBytes + caches[i].size;
      } else {
        candidates := candidates + [caches[i]];
      }
    }
    assert caches[..|caches|] == caches;
    candidates := Sort(candidates);
    var selected, projected := EvictOldest(candidates, usage, target, caches, prefixes);
    return Success(Plan(usage, target, projected, usage - projected, protectedBytes, |caches|, |selected|,
                        StatusOf(usage, target, projected), selected));
  }

  /** The eviction loop; sizes are positive, so clamping at every step is clamping once. */
  method EvictOldest(candidates: seq<Cache>, usage: nat, target: nat, ghost caches: seq<Cache>,
                     ghost prefixes: seq<string>)
    returns (selected: seq<Cache>, projected: nat)
    requires AllGood(caches) && candidates == Sort(Candidates(caches, prefixes))
    ensures selected == candidates[..Cut(usage, target, candidates, 0)]
    ensures projected == Left(usage, candidates, Cut(usage, target, candidates, 0))
  {
    hide IsProtected, GoodRow, Sort, Candidates;
    selected, projected := [], usage;
    for k := 0 to |candidates|
      invariant selected == candidates[..k] && projected == Left(usage, candidates, k)
      invariant Cut(usage, target, candidates, 0) == Cut(usage, target, candidates, k)
    {
      if projected <= target {
        return;
      }
      SortedAreGood(caches, prefixes, k);
      assert candidates[..k + 1][..k] == candidates[..k];
      selected := selected + [candidates[k]];
      projected := Max0(projected - candidates[k].size);
    }
  }

  lemma {:induction false} CandidatesExact(s: seq<Cache>, prefixes: seq<string>, c: Cache)
    ensures multiset(Candidates(s, prefixes))[c] == if IsProtected(c, prefixes) then 0 else multiset(s)[c]
  {
    hide IsProtected;
    if s != [] {
      CandidatesExact(s[..|s| - 1], prefixes, c);
      assert s == s[..|s| - 1] + [s[|s| - 1]];
    }
  }

  lemma SortedAreGood(caches: seq<Cache>, prefixes: seq<string>, k: nat)
    requires AllGood(caches) && k < |Sort(Candidates(caches, prefixes))|
    ensures var c := Sort(Candidates(caches, prefixes))[k];
            c in caches && !IsProtected(c, prefixes) && GoodRow(c) && c.size > 0
  {
    hide IsProtected, Sort, Candidates;
    var sorted := Sort(Candidates(caches, prefixes));
    var c := sorted[k];
    assert c in multiset(sorted);
    CandidatesExact(caches, prefixes, c);
    assert c in multiset(caches);
  }

  // ---- main results ----

  lemma {:induction false} BytesGrow(caches: seq<Cache>, prefixes: seq<string>, j: nat, k: nat)
    requires AllGood(caches) && j <= k <= |Sort(Candidates(caches, prefixes))|
    ensures var sorted := Sort(Candidates(caches, prefixes)); Bytes(sorted[..j]) <= Bytes(sorted[..k])
  {
    hide IsProtected, GoodRow, Sort, Candidates;
    if j < k {
      var sorted := Sort(Candidates(caches, prefixes));
      BytesGrow(caches, prefixes, j, k - 1);
      SortedAreGood(caches, prefixes, k - 1);
      assert sorted[..k][..k - 1] == sorted[..k - 1];
    }
  }

  /** Main result: the deletions are the shortest oldest-first prefix of the unprotected caches that
      reaches the target, or all of them if none does; the projection is what is left; and the
      status names exactly the three cases. */
  lemma PlanIsMinimal(caches: seq<Cache>, usage: int, target: int, prefixes: seq<string>)
    requires PlanOf(caches, usage, target, prefixes).Success?
    ensures var plan := PlanOf(caches, usage, target, prefixes).value;
            var sorted := Sort(Candidates(caches, prefixes));
            && OldestFirst(sorted) && plan.deleteCount <= |sorted|
            && plan.deletions == sorted[..plan.deleteCount]
            && plan.projected == Max0(usage - Bytes(plan.deletions))
            && (forall j :: 0 <= j < plan.deleteCount ==> Max0(usage - Bytes(sorted[..j])) > target)
            && (plan.status == WithinTarget <==> plan.deletions == [] && plan.projected <= target)
            && (plan.status == Planned <==> plan.deletions != [] && plan.projected <= target)
            && (plan.status == InsufficientCandidates <==> plan.projected > target)
            && (plan.status == InsufficientCandidates ==> plan.deletions == sorted)
            && (plan.status == InsufficientCandidates
                <==> forall j :: 0 <= j <= |sorted| ==> Max0(usage - Bytes(sorted[..j])) > target)
  {
    hide IsProtected, GoodRow, Sort, Candidates, OldestFirst;
    var plan, sorted := PlanOf(caches, usage, target, prefixes).value, Sort(Candidates(caches, prefixes));
    SortIsOldestFirst(Candidates(caches, prefixes));
    var k := plan.deleteCount;
    assert sorted[..0] == [];
    assert Left(usage, sorted, 0) == usage;
    if plan.projected > target {
      assert k == |sorted|;
      assert sorted[..k] == sorted;
    }
    forall j | 0 <= j < k
      ensures Max0(usage - Bytes(sorted[..j])) > target
    {
      assert Left(usage, sorted, j) > target;
    }
  }

  /** Main result: a plan is made exactly when the usage is not negative, the target is positive, no
      prefix is empty, every row is complete and no id occurs twice. */
  lemma PlanSucceedsIff(caches: seq<Cache>, usage: int, target: int, prefixes: seq<string>)
    ensures PlanOf(caches, usage, target, prefixes).Success?
            <==> && usage >= 0 && target > 0 && (forall p :: p in prefixes ==> p != "")
                 && (forall c :: c in caches ==> c.id >= 1 && c.size >= 1
                                                 && "" !in {c.key, c.ref, c.lastAccessed, c.created})
                 && forall i, j :: 0 <= i < j < |caches| ==> caches[i].id != caches[j].id
  {
    hide Sort, Candidates, Cut, IsProtected, ProtectedBytes;
    DistinctIff(caches);
    assert AllGood(caches) <==> forall c :: c in caches ==> GoodRow(c);
  }

  ghost predicate NoIdTwice(s: seq<Cache>) {
    forall i, j :: 0 <= i < j < |s| ==> s[i].id != s[j].id
  }

  lemma OneMoreId(front: seq<Cache>, last: Cache)
    ensures Ids(front + [last]) == Ids(front) + {last.id}
    ensures NoIdTwice(front + [last]) <==> NoIdTwice(front) && last.id !in Ids(front)
  {
    var s := front + [last];
    assert forall c :: c in s <==> c in front || c == last;
    if last.id in Ids(front) {
      var c :| c in front && c.id == last.id;
      var i :| 0 <= i < |front| && front[i] == c;
      assert s[i].id == s[|front|].id;
    } else {
      forall i | 0 <= i < |front|
        ensures front[i].id != last.id
      {
        assert front[i] in front;
      }
    }
    if NoIdTwice(s) {
      forall i, j | 0 <= i < j < |front|
        ensures front[i].id != front[j].id
      {
        assert s[i] == front[i] && s[j] == front[j];
      }
    }
  }

  lemma {:induction false} DistinctIff(s: seq<Cache>)
    ensures |Ids(s)| <= |s|
    ensures |s| == |Ids(s)| <==> NoIdTwice(s)
  {
    hide Ids;
    if s == [] {
      assert Ids(s) == {} by { NoIds(); }
    } else {
      var front, last := s[..|s| - 1], s[|s| - 1];
      DistinctIff(front);
      assert s == front + [last];
      OneMoreId(front, last);
      if last.id in Ids(front) {
        assert Ids(s) == Ids(front);
      }
    }
  }

  lemma NoIds()
    ensures Ids([]) == {}
  {
  }

  /** What a plan reports: its inputs, the bytes it frees and what it may not touch. */
  lemma PlanReports(caches: seq<Cache>, usage: int, target: int, prefixes: seq<string>)
    requires PlanOf(caches, usage, target, prefixes).Success?
    ensures var plan := PlanOf(caches, usage, target, prefixes).value;
            && plan.usage == usage && plan.target == target
            && plan.projected == (if Bytes(plan.deletions) > usage then 0 else usage - Bytes(plan.deletions))
            && plan.deleteBytes == usage - plan.projected
            && plan.inventoryCount == |caches| && plan.deleteCount == |plan.deletions|
            && plan.protectedBytes + Bytes(Candidates(caches, prefixes)) == Bytes(caches)
  {
    hide Sort, IsProtected;
    BytesSplit(caches, prefixes);
  }

  lemma {:induction false} BytesSplit(s: seq<Cache>, prefixes: seq<string>)
    ensures ProtectedBytes(s, prefixes) + Bytes(Candidates(s, prefixes)) == Bytes(s)
  {
    hide IsProtected;
    if s != [] {
      BytesSplit(s[..|s| - 1], prefixes);
      var front, last := Candidates(s[..|s| - 1], prefixes), s[|s| - 1];
      assert (front + [last])[..|front|] == front && front + [] == front;
    }
  }

  lemma ProtectedIff(c: Cache, prefixes: seq<string>)
    ensures IsProtected(c, prefixes) <==> exists p :: p in prefixes && p <= c.key
  {
    if p :| p in prefixes && p <= c.key {
      var i :| 0 <= i < |prefixes| && prefixes[i] == p;
    }
    if IsProtected(c, prefixes) {
      var i :| 0 <= i < |prefixes| && StartsWith(c.key, prefixes[i]);
      assert prefixes[i] in prefixes;
    }
  }

  lemma OlderMeans(c: Cache, d: Cache)
    requires Older(c, d)
    ensures Leq(c.lastAccessed, d.lastAccessed)
    ensures c.lastAccessed == d.lastAccessed ==> Leq(c.created, d.created)
    ensures c.lastAccessed == d.lastAccessed && c.created == d.created ==> c.id <= d.id
  {
    LeqTotal(c.lastAccessed, c.lastAccessed);
    LeqTotal(c.created, c.created);
  }

  lemma KeptIsNoOlder(sorted: seq<Cache>, k: nat, c: Cache, d: Cache)
    requires OldestFirst(sorted) && k <= |sorted|
    requires c in sorted[..k] && d in sorted && d !in sorted[..k]
    ensures Older(c, d)
  {
    hide Older;
    var i :| 0 <= i < k && sorted[..k][i] == c;
    var j :| 0 <= j < |sorted| && sorted[j] == d;
    assert forall l :: 0 <= l < k ==> sorted[l] in sorted[..k];
  }

  /** Main result: only unprotected caches of the inventory are deleted, none twice, and every
      unprotected cache that stays is no older than every deleted one. */
  lemma DeletionsAreSafe(caches: seq<Cache>, usage: int, target: int, prefixes: seq<string>)
    requires PlanOf(caches, usage, target, prefixes).Success?
    ensures var plan := PlanOf(caches, usage, target, prefixes).value;
            && (forall c :: c in plan.deletions ==> c in caches && forall p :: p in prefixes ==> !(p <= c.key))
            && multiset(plan.deletions) <= multiset(caches)
            && (forall c, d ::
                  c in plan.deletions && d in caches && d !in plan.deletions && (forall p ::
                        p in prefixes ==> !(p <= d.key))
                  ==> && Leq(c.lastAccessed, d.lastAccessed)
                      && (c.lastAccessed == d.lastAccessed ==> Leq(c.created, d.created))
                      && (c.lastAccessed == d.lastAccessed && c.created == d.created ==> c.id <= d.id))
            && 0 <= plan.deleteBytes <= usage
  {
    hide IsProtected, GoodRow, Sort, Candidates, Older, Cut, Leq, OldestFirst;
    forall c
      ensures IsProtected(c, prefixes) <==> exists p :: p in prefixes && p <= c.key
    {
      ProtectedIff(c, prefixes);
    }
    var plan, sorted := PlanOf(caches, usage, target, prefixes).value, Sort(Candidates(caches, prefixes));
    var k := plan.deleteCount;
    SortIsOldestFirst(Candidates(caches, prefixes));
    assert sorted == sorted[..k] + sorted[k..];
    assert multiset(sorted) == multiset(sorted[..k]) + multiset(sorted[k..]);
    forall c
      ensures multiset(sorted)[c] == if IsProtected(c, prefixes) then 0 else multiset(caches)[c]
    {
      CandidatesExact(caches, prefixes, c);
    }
    forall c | c in plan.deletions
      ensures c in caches && !IsProtected(c, prefixes)
    {
      assert c in multiset(sorted);
      assert c in multiset(caches);
    }
    forall c, d | c in plan.deletions && d in caches && d !in plan.deletions && !IsProtected(d, prefixes)
      ensures Leq(c.lastAccessed, d.lastAccessed)
      ensures c.lastAccessed == d.lastAccessed ==> Leq(c.created, d.created)
      ensures c.lastAccessed == d.lastAccessed && c.created == d.created ==> c.id <= d.id
    {
      assert d in multiset(caches);
      assert d in multiset(sorted);
      KeptIsNoOlder(sorted, k, c, d);
      OlderMeans(c, d);
    }
    BytesGrow(caches, prefixes, 0, k);
    assert sorted[..0] == [];
  }

  lemma WithoutOneKeepsLast(s: seq<Cache>, i: nat)
    requires i < |s| - 1
    ensures s[..i] + s[i + 1..] == (s[..|s| - 1][..i] + s[..|s| - 1][i + 1..]) + [s[|s| - 1]]
  {
  }

  lemma ProtectedBytesAppend(s: seq<Cache>, c: Cache, prefixes: seq<string>)
    ensures ProtectedBytes(s + [c], prefixes)
            == ProtectedBytes(s, prefixes) + (if IsProtected(c, prefixes) then c.size else 0)
  {
    hide IsProtected;
    assert (s + [c])[..|s|] == s;
  }

  lemma {:induction false} BytesWithoutOne(s: seq<Cache>, i: nat, prefixes: seq<string>)
    requires i < |s|
    ensures ProtectedBytes(s, prefixes)
         == ProtectedBytes(s[..i] + s[i + 1..], prefixes) + (if IsProtected(s[i], prefixes) then s[i].size else 0)
    decreases |s|
  {
    hide IsProtected, ProtectedBytes;
    var n := |s| - 1;
    assert s == s[..n] + [s[n]];
    ProtectedBytesAppend(s[..n], s[n], prefixes);
    if i == n {
      assert s[..i] + s[i + 1..] == s[..n];
    } else {
      BytesWithoutOne(s[..n], i, prefixes);
      WithoutOneKeepsLast(s, i);
      ProtectedBytesAppend(s[..n][..i] + s[..n][i + 1..], s[n], prefixes);
    }
  }

  lemma {:induction false} ProtectedBytesIgnoreOrder(s: seq<Cache>, t: seq<Cache>, prefixes: seq<string>)
    requires multiset(s) == multiset(t)
    ensures ProtectedBytes(s, prefixes) == ProtectedBytes(t, prefixes)
    decreases |s|
  {
    hide IsProtected;
    assert |s| == |multiset(s)| == |multiset(t)| == |t|;
    if s != [] {
      var n := |s| - 1;
      assert s[n] in multiset(t);
      var i :| 0 <= i < |t| && t[i] == s[n];
      WithoutOne(s, n);
      WithoutOne(t, i);
      assert s[..n] + s[n + 1..] == s[..n];
      ProtectedBytesIgnoreOrder(s[..n], t[..i] + t[i + 1..], prefixes);
      BytesWithoutOne(t, i, prefixes);
    }
  }

  lemma SameMembers(s: seq<Cache>, t: seq<Cache>)
    requires multiset(s) == multiset(t)
    ensures |s| == |t| && (forall c :: c in s <==> c in t)
    ensures AllGood(s) == AllGood(t) && Ids(s) == Ids(t)
  {
    hide GoodRow;
    assert |s| == |multiset(s)| == |multiset(t)| == |t|;
    forall c
      ensures c in s <==> c in t
    {
      assert c in multiset(s) <==> c in multiset(t);
    }
    assert AllGood(s) <==> forall c :: c in s ==> GoodRow(c);
    assert AllGood(t) <==> forall c :: c in t ==> GoodRow(c);
  }

  /** Main result: the plan does not depend on the order of the inventory. */
  lemma PlanIgnoresOrder(caches: seq<Cache>, others: seq<Cache>, usage: int, target: int, prefixes: seq<string>)
    requires multiset(caches) == multiset(others)
    ensures PlanOf(caches, usage, target, prefixes) == PlanOf(others, usage, target, prefixes)
  {
    hide IsProtected, GoodRow, Sort, Candidates, OldestFirst, AllGood, Ids, Cut;
    SameMembers(caches, others);
    ProtectedBytesIgnoreOrder(caches, others, prefixes);
    if |Ids(caches)| == |caches| {
      SortIgnoresOrder(caches, others, prefixes);
    }
  }

  lemma SortIgnoresOrder(caches: seq<Cache>, others: seq<Cache>, prefixes: seq<string>)
    requires multiset(caches) == multiset(others) && |Ids(caches)| == |caches|
    ensures Sort(Candidates(caches, prefixes)) == Sort(Candidates(others, prefixes))
  {
    hide IsProtected, Sort, Candidates, OldestFirst, Ids;
    var s, t := Candidates(caches, prefixes), Candidates(others, prefixes);
    forall c
      ensures multiset(s)[c] == multiset(t)[c] && (c in multiset(s) ==> c in multiset(caches))
    {
      CandidatesExact(caches, prefixes, c);
      CandidatesExact(others, prefixes, c);
    }
    assert multiset(s) == multiset(t);
    SortIsOldestFirst(s);
    SortIsOldestFirst(t);
    DistinctIff(caches);
    forall c, d | c in Sort(s) && d in Sort(s) && c.id == d.id
      ensures c == d
    {
      assert c in multiset(Sort(s)) && d in multiset(Sort(s));
      assert c in multiset(caches) && d in multiset(caches);
      var i :| 0 <= i < |caches| && caches[i] == c;
      var j :| 0 <= j < |caches| && caches[j] == d;
    }
    OldestFirstIsUnique(Sort(s), Sort(t));
  }
}
