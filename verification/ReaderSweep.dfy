/**
 The caller closure of scripts/m5-reader-sweep.py (`sweep`): a level-synchronised search from
 the SQL-bearing functions along caller edges, up to a depth cap.

 Functions are named by their position in the index. The independent notion is `IsChain`, a
 path of calls that starts at an SQL-bearing function.
 */
module ReaderSweep {
  import opened Wrappers
  import opened Collections

  datatype Function = Function(locator: string, fn: string, bearing: bool)

  /** `declared` counts the declaration sites of a name; `calls` are each function's callees. */
  datatype Index = Index(functions: seq<Function>, declared: map<string, nat>, calls: map<string, set<string>>,
                         unresolved: set<string>)
  {
    function Size(): nat {
      |functions|
    }

    /** `build_index` gives every function its own locator: path, name and ordinal. */
    predicate Valid() {
      forall j, k :: 0 <= j < k < |functions| ==> functions[j].locator != functions[k].locator
    }

    predicate DeclaredOnce(name: string) {
      name in declared && declared[name] == 1
    }

    function CallsOf(locator: string): set<string> {
      Get(calls, locator)
    }

    /** g is called by k through a name that can be resolved. */
    predicate Edge(g: nat, k: nat)
      requires g < Size() && k < Size()
    {
      DeclaredOnce(functions[g].fn) && functions[g].fn in CallsOf(functions[k].locator)
    }

    /** A row for k would have an unresolved call of its name. */
    predicate Blocked(k: nat)
      requires k < Size()
    {
      DeclaredOnce(functions[k].fn) && functions[k].fn in unresolved
    }
  }

  datatype Row = Row(locator: string, fn: string, depth: nat, via: set<string>)

  // ---- distance, without a search ----

  /** p leads from an SQL-bearing function to k, each function calling the one before it. */
  ghost predicate IsChain(ix: Index, p: seq<nat>, k: nat) {
    && p != [] && p[|p| - 1] == k
    && (forall i :: 0 <= i < |p| ==> p[i] < ix.Size())
    && ix.functions[p[0]].bearing
    && forall i :: 0 <= i < |p| - 1 ==> ix.Edge(p[i], p[i + 1])
  }

  ghost predicate AtDistance(ix: Index, k: nat, d: nat) {
    && (exists p :: IsChain(ix, p, k) && |p| == d + 1)
    && forall p :: IsChain(ix, p, k) ==> |p| >= d + 1
  }

  // ---- the levels of the search ----

  ghost predicate InLevel(ix: Index, k: nat, d: nat)
    requires k < ix.Size()
    decreases d, 1
  {
    if d == 0 then ix.functions[k].bearing
    else !InEarlier(ix, k, d) && exists g: nat :: g < ix.Size() && InLevel(ix, g, d - 1) && ix.Edge(g, k)
  }

  /** k is on some level below d. */
  ghost predicate InEarlier(ix: Index, k: nat, d: nat)
    requires k < ix.Size()
    decreases d, 0
  {
    d > 0 && (InLevel(ix, k, d - 1) || InEarlier(ix, k, d - 1))
  }

  /** The locator `frontier` holds for a name at a level: that of the last function so named. */
  ghost function LastNamed(ix: Index, d: nat, name: string, n: nat): (r: Option<nat>)
    requires n <= ix.Size()
    ensures match r
            case None => forall g :: 0 <= g < n && InLevel(ix, g, d) ==> ix.functions[g].fn != name
            case Some(g) => g < n && InLevel(ix, g, d) && ix.functions[g].fn == name
                            && forall h :: g < h < n && InLevel(ix, h, d) ==> ix.functions[h].fn != name
  {
    if n == 0 then None
    else if InLevel(ix, n - 1, d) && ix.functions[n - 1].fn == name then Some(n - 1)
    else LastNamed(ix, d, name, n - 1)
  }

  ghost function FrontierLocator(ix: Index, d: nat, name: string): string
    requires LastNamed(ix, d, name, ix.Size()).Some?
  {
    ix.functions[LastNamed(ix, d, name, ix.Size()).value].locator
  }

  /** The callees of k on level d that the search can resolve. */
  ghost function Matches(ix: Index, k: nat, d: nat): set<string>
    requires k < ix.Size()
  {
    set name | name in ix.CallsOf(ix.functions[k].locator) && ix.DeclaredOnce(name)
               && LastNamed(ix, d, name, ix.Size()).Some?
  }

  ghost function Via(ix: Index, k: nat, d: nat): set<string>
    requires k < ix.Size()
  {
    if d == 0 then {} else ViaFrom(ix, k, d - 1)
  }

  ghost function ViaFrom(ix: Index, k: nat, d: nat): set<string>
    requires k < ix.Size()
  {
    set name | name in Matches(ix, k, d) :: FrontierLocator(ix, d, name)
  }

  ghost function RowOf(ix: Index, k: nat, d: nat): Row
    requires k < ix.Size()
  {
    Row(ix.functions[k].locator, ix.functions[k].fn, d, Via(ix, k, d))
  }

  /** The rows of the first n functions that are on level d, in index order. */
  ghost function LevelRows(ix: Index, d: nat, n: nat): seq<Row>
    requires n <= ix.Size()
  {
    if n == 0 then []
    else LevelRows(ix, d, n - 1) + (if InLevel(ix, n - 1, d) then [RowOf(ix, n - 1, d)] else [])
  }

  ghost function RowsUpTo(ix: Index, d: nat): seq<Row> {
    (if d == 0 then [] else RowsUpTo(ix, d - 1)) + LevelRows(ix, d, ix.Size())
  }

  /** Some function up to level d, among the first n of level d, has an unresolved call. */
  ghost predicate BlockedBefore(ix: Index, d: nat, n: nat)
    requires n <= ix.Size()
  {
    || (exists k: nat :: k < n && InLevel(ix, k, d) && ix.Blocked(k))
    || (d > 0 && BlockedBefore(ix, d - 1, ix.Size()))
  }

  // ---- the search ----

  /** `_public_row`, which validates the calls of a name declared once. */
  function PublicRow(ix: Index, f: Function, depth: nat, via: set<string>): Result<Row, string> {
    if ix.DeclaredOnce(f.fn) && f.fn in ix.unresolved then Failure(f.fn)
    else Success(Row(f.locator, f.fn, depth, via))
  }

  /** `{row['fn']: row['locator'] for row in out if row['depth'] == depth}` */
  function FrontierOf(rows: seq<Row>, depth: nat): map<string, string> {
    if rows == [] then map[]
    else
      var earlier, row := FrontierOf(rows[..|rows| - 1], depth), rows[|rows| - 1];
      if row.depth == depth then earlier[row.fn := row.locator] else earlier
  }

  /** Names of the frontier, restricted to those that can be resolved. */
  function Eligible(ix: Index, frontier: map<string, string>): set<string> {
    set name | name in frontier && ix.DeclaredOnce(name)
  }

  ghost predicate IsFrontier(ix: Index, d: nat, frontier: map<string, string>) {
    forall name ::
      && (name in frontier <==> LastNamed(ix, d, name, ix.Size()).Some?)
      && (name in frontier ==> frontier[name] == FrontierLocator(ix, d, name))
  }

  ghost predicate IsKnown(ix: Index, d: nat, n: nat, known: set<string>)
    requires n <= ix.Size()
  {
    forall k: nat :: k < ix.Size() ==>
      (ix.functions[k].locator in known <==> InEarlier(ix, k, d) || (k < n && InLevel(ix, k, d)))
  }

  /** The first loop: the SQL-bearing functions. */
  method Readers(ix: Index) returns (r: Result<seq<Row>, string>)
    ensures r.Failure? <==> BlockedBefore(ix, 0, ix.Size())
    ensures r.Success? ==> r.value == LevelRows(ix, 0, ix.Size())
  {
    hide Via, Index.Blocked, PublicRow, RowOf;
    var out: seq<Row> := [];
    for k := 0 to |ix.functions|
      invariant out == LevelRows(ix, 0, k) && !BlockedBefore(ix, 0, k)
    {
      if ix.functions[k].bearing {
        RowSucceeds(ix, k, 0);
        var row :- PublicRow(ix, ix.functions[k], 0, {});
        out := out + [row];
      }
    }
    return Success(out);
  }

  /** The loop over the functions at one depth. */
  method Expand(ix: Index, depth: nat, frontier: map<string, string>, known: set<string>)
    returns (r: Result<(seq<Row>, set<string>), string>)
    requires ix.Valid() && depth > 0
    requires !BlockedBefore(ix, depth - 1, ix.Size())
    requires IsFrontier(ix, depth - 1, frontier) && IsKnown(ix, depth, 0, known)
    ensures r.Failure? <==> BlockedBefore(ix, depth, ix.Size())
    ensures r.Success? ==> r.value.0 == LevelRows(ix, depth, ix.Size()) && IsKnown(ix, depth, ix.Size(), r.value.1)
  {
    hide LastNamed, Via, Index.Blocked, PublicRow, RowOf, InLevel, InEarlier, IsFrontier, Eligible, IsKnown;
    var eligible := Eligible(ix, frontier);
    // The script validates the eligible names here once more: their rows were validated already.
    EligibleIsValidated(ix, depth - 1, frontier);
    assert eligible * ix.unresolved == {};
    var out, now: set<string> := [], known;
    for k := 0 to |ix.functions|
      invariant out == LevelRows(ix, depth, k) && !BlockedBefore(ix, depth, k)
      invariant IsKnown(ix, depth, k, now)
    {
      var f := ix.functions[k];
      KnownStep(ix, depth, k, now);
      if f.locator in now {
        continue;
      }
      var matches := ix.CallsOf(f.locator) * eligible;
      MatchesMeanLevel(ix, k, depth, frontier);
      if matches == {} {
        continue;
      }
      var via := set name | name in matches :: frontier[name];
      RowSucceeds(ix, k, depth);
      var row :- PublicRow(ix, f, depth, via);
      out := out + [row];
      now := now + {f.locator};
    }
    return Success((out, now));
  }

  method Sweep(ix: Index, maxDepth: nat) returns (r: Result<seq<Row>, string>)
    requires ix.Valid()
    ensures r.Failure? <==> BlockedBefore(ix, maxDepth, ix.Size())
    ensures r.Success? ==> r.value == RowsUpTo(ix, maxDepth)
  {
    hide LastNamed, LevelRows, FrontierOf, IsFrontier, IsKnown, InLevel;
    var read := Readers(ix);
    if read.Failure? {
      BlockedLater(ix, 0, maxDepth);
      return read;
    }
    var out := read.value;
    var known := set row | row in out :: row.locator;
    LevelRowsAreKnown(ix, 0, known);
    var frontier := FrontierOf(out, 0);
    FrontierIsLevel(ix, 0, ix.Size());
    for depth := 1 to maxDepth + 1
      invariant out == RowsUpTo(ix, depth - 1) && !BlockedBefore(ix, depth - 1, ix.Size())
      invariant IsKnown(ix, depth, 0, known) && IsFrontier(ix, depth - 1, frontier)
    {
      var level := Expand(ix, depth, frontier, known);
      if level.Failure? {
        BlockedLater(ix, depth, maxDepth);
        return Failure(level.error);
      }
      RowsAreShallow(ix, depth - 1);
      FrontierSkips(out, level.value.0, depth);
      FrontierIsLevel(ix, depth, ix.Size());
      KnownNext(ix, depth, level.value.1);
      out := out + level.value.0;
      known := level.value.1;
      frontier := FrontierOf(out, depth);
    }
    return Success(out);
  }

  // ---- what the loops rely on ----

  lemma RowSucceeds(ix: Index, k: nat, d: nat)
    requires k < ix.Size()
    ensures PublicRow(ix, ix.functions[k], d, Via(ix, k, d))
         == if ix.Blocked(k) then Failure(ix.functions[k].fn) else Success(RowOf(ix, k, d))
    ensures Via(ix, k, 0) == {}
  {
  }

  lemma {:induction false} BlockedLater(ix: Index, d: nat, maxDepth: nat)
    requires BlockedBefore(ix, d, ix.Size()) && d <= maxDepth
    ensures BlockedBefore(ix, maxDepth, ix.Size())
  {
    hide InLevel, Index.Blocked;
    if d < maxDepth {
      BlockedLater(ix, d, maxDepth - 1);
    }
  }

  lemma KnownStep(ix: Index, d: nat, k: nat, known: set<string>)
    requires ix.Valid() && d > 0 && k < ix.Size() && IsKnown(ix, d, k, known)
    ensures ix.functions[k].locator in known <==> InEarlier(ix, k, d)
    ensures InEarlier(ix, k, d) ==> !InLevel(ix, k, d)
    ensures InLevel(ix, k, d) ==> IsKnown(ix, d, k + 1, known + {ix.functions[k].locator})
    ensures !InLevel(ix, k, d) ==> IsKnown(ix, d, k + 1, known)
  {
    hide InEarlier;
  }

  lemma KnownNext(ix: Index, d: nat, known: set<string>)
    requires IsKnown(ix, d, ix.Size(), known)
    ensures IsKnown(ix, d + 1, 0, known)
  {
    hide InLevel;
  }

  lemma {:induction false} LevelRowsLocators(ix: Index, d: nat, n: nat, row: Row)
    requires n <= ix.Size()
    ensures row in LevelRows(ix, d, n) <==> exists k: nat :: k < n && InLevel(ix, k, d) && row == RowOf(ix, k, d)
  {
    hide InLevel, RowOf;
    if n > 0 {
      LevelRowsLocators(ix, d, n - 1, row);
    }
  }

  lemma LevelRowsAreKnown(ix: Index, d: nat, known: set<string>)
    requires ix.Valid() && d == 0 && known == set row | row in LevelRows(ix, d, ix.Size()) :: row.locator
    ensures IsKnown(ix, 1, 0, known)
  {
    hide InLevel, LevelRows, Via;
    forall k: nat | k < ix.Size()
      ensures ix.functions[k].locator in known <==> InLevel(ix, k, 0)
    {
      LevelRowsLocators(ix, 0, ix.Size(), RowOf(ix, k, 0));
      if ix.functions[k].locator in known {
        var row :| row in LevelRows(ix, 0, ix.Size()) && row.locator == ix.functions[k].locator;
        LevelRowsLocators(ix, 0, ix.Size(), row);
      }
    }
    assert forall k: nat :: k < ix.Size() ==> (InEarlier(ix, k, 1) <==> InLevel(ix, k, 0));
  }

  lemma {:induction false} FrontierOfLevel(ix: Index, d: nat, n: nat, name: string)
    requires n <= ix.Size()
    ensures var frontier, last := FrontierOf(LevelRows(ix, d, n), d), LastNamed(ix, d, name, n);
            && (name in frontier <==> last.Some?)
            && (name in frontier ==> frontier[name] == ix.functions[last.value].locator)
  {
    hide InLevel, Via;
    if n > 0 {
      FrontierOfLevel(ix, d, n - 1, name);
      if InLevel(ix, n - 1, d) {
        var rows := LevelRows(ix, d, n);
        assert rows[..|rows| - 1] == LevelRows(ix, d, n - 1);
      } else {
        assert LevelRows(ix, d, n) == LevelRows(ix, d, n - 1);
      }
    }
  }

  lemma FrontierIsLevel(ix: Index, d: nat, n: nat)
    requires n == ix.Size()
    ensures IsFrontier(ix, d, FrontierOf(LevelRows(ix, d, n), d))
  {
    forall name
      ensures var frontier, last := FrontierOf(LevelRows(ix, d, n), d), LastNamed(ix, d, name, n);
              && (name in frontier <==> last.Some?)
              && (name in frontier ==> frontier[name] == ix.functions[last.value].locator)
    {
      FrontierOfLevel(ix, d, n, name);
    }
  }

  lemma {:induction false} FrontierSkips(before: seq<Row>, rows: seq<Row>, depth: nat)
    requires forall i :: 0 <= i < |before| ==> before[i].depth != depth
    ensures FrontierOf(before + rows, depth) == FrontierOf(rows, depth)
    decreases |before| + |rows|
  {
    if rows == [] {
      assert before + rows == before;
      if before != [] {
        FrontierSkips(before[..|before| - 1], [], depth);
        assert before[..|before| - 1] + [] == before[..|before| - 1];
      }
    } else {
      FrontierSkips(before, rows[..|rows| - 1], depth);
      assert (before + rows)[..|before + rows| - 1] == before + rows[..|rows| - 1];
    }
  }

  lemma {:induction false} RowsAreShallow(ix: Index, d: nat)
    ensures forall i :: 0 <= i < |RowsUpTo(ix, d)| ==> RowsUpTo(ix, d)[i].depth <= d
  {
    hide LevelRows;
    if d > 0 {
      RowsAreShallow(ix, d - 1);
    }
    var rows := LevelRows(ix, d, ix.Size());
    forall i | 0 <= i < |rows|
      ensures rows[i].depth == d
    {
      LevelRowsLocators(ix, d, ix.Size(), rows[i]);
    }
  }

  lemma EligibleIsValidated(ix: Index, d: nat, frontier: map<string, string>)
    requires IsFrontier(ix, d, frontier) && !BlockedBefore(ix, d, ix.Size())
    ensures Eligible(ix, frontier) * ix.unresolved == {}
  {
    hide InLevel;
    forall name | name in Eligible(ix, frontier)
      ensures name !in ix.unresolved
    {
      var k := LastNamed(ix, d, name, ix.Size()).value;
      assert !ix.Blocked(k);
    }
  }

  lemma MatchesMeanLevel(ix: Index, k: nat, d: nat, frontier: map<string, string>)
    requires d > 0 && k < ix.Size() && IsFrontier(ix, d - 1, frontier) && !InEarlier(ix, k, d)
    ensures var matches := ix.CallsOf(ix.functions[k].locator) * Eligible(ix, frontier);
            && (matches != {} <==> InLevel(ix, k, d))
            && (forall name :: name in matches ==> name in frontier)
            && (set name | name in matches :: frontier[name]) == Via(ix, k, d)
  {
    hide InEarlier;
    var matches := ix.CallsOf(ix.functions[k].locator) * Eligible(ix, frontier);
    assert matches == Matches(ix, k, d - 1);
    if matches != {} {
      var name :| name in matches;
      var g := LastNamed(ix, d - 1, name, ix.Size()).value;
      assert ix.Edge(g, k);
    }
    if InLevel(ix, k, d) {
      var g: nat :| g < ix.Size() && InLevel(ix, g, d - 1) && ix.Edge(g, k);
      assert ix.functions[g].fn in matches;
    }
  }

  // ---- levels are distances ----

  lemma {:induction false} LevelHasChain(ix: Index, k: nat, d: nat) returns (p: seq<nat>)
    requires k < ix.Size() && InLevel(ix, k, d)
    ensures IsChain(ix, p, k) && |p| == d + 1
    decreases d
  {
    hide InEarlier, Index.Edge;
    if d == 0 {
      p := [k];
    } else {
      var g: nat :| g < ix.Size() && InLevel(ix, g, d - 1) && ix.Edge(g, k);
      var q := LevelHasChain(ix, g, d - 1);
      p := q + [k];
    }
  }

  lemma {:induction false} EarlierHasLevel(ix: Index, k: nat, d: nat) returns (e: nat)
    requires k < ix.Size() && InEarlier(ix, k, d)
    ensures e < d && InLevel(ix, k, e)
    decreases d
  {
    hide InLevel;
    if InLevel(ix, k, d - 1) {
      e := d - 1;
    } else {
      e := EarlierHasLevel(ix, k, d - 1);
    }
  }

  lemma {:induction false} LevelIsEarlier(ix: Index, k: nat, e: nat, d: nat)
    requires k < ix.Size() && InLevel(ix, k, e) && e < d
    ensures InEarlier(ix, k, d)
    decreases d
  {
    hide InLevel;
    if e < d - 1 {
      LevelIsEarlier(ix, k, e, d - 1);
    }
  }

  lemma {:induction false} ChainHasLevel(ix: Index, p: seq<nat>, k: nat) returns (e: nat)
    requires IsChain(ix, p, k)
    ensures e < |p| && k < ix.Size() && InLevel(ix, k, e)
    decreases |p|
  {
    hide InEarlier, Index.Edge;
    if |p| == 1 {
      e := 0;
    } else {
      var q := p[..|p| - 1];
      var g := q[|q| - 1];
      assert ix.Edge(p[|p| - 2], p[|p| - 1]);
      var f := ChainHasLevel(ix, q, g);
      if InEarlier(ix, k, f + 1) {
        e := EarlierHasLevel(ix, k, f + 1);
      } else {
        e := f + 1;
      }
    }
  }

  lemma LevelsAreDisjoint(ix: Index, k: nat, d: nat, e: nat)
    requires k < ix.Size() && InLevel(ix, k, d) && InLevel(ix, k, e)
    ensures d == e
  {
    if d < e {
      LevelIsEarlier(ix, k, d, e);
    } else if e < d {
      LevelIsEarlier(ix, k, e, d);
    }
  }

  /** A function is on level d exactly when its shortest chain has d calls. */
  lemma LevelIsDistance(ix: Index, k: nat, d: nat)
    requires k < ix.Size()
    ensures InLevel(ix, k, d) <==> AtDistance(ix, k, d)
  {
    hide InLevel, IsChain;
    if InLevel(ix, k, d) {
      var p := LevelHasChain(ix, k, d);
      forall q | IsChain(ix, q, k)
        ensures |q| >= d + 1
      {
        var e := ChainHasLevel(ix, q, k);
        LevelsAreDisjoint(ix, k, d, e);
      }
    }
    if AtDistance(ix, k, d) {
      var p :| IsChain(ix, p, k) && |p| == d + 1;
      var e := ChainHasLevel(ix, p, k);
      var q := LevelHasChain(ix, k, e);
    }
  }

  // ---- main results about an accepted sweep ----

  lemma {:induction false} RowsUpToRows(ix: Index, maxDepth: nat, row: Row)
    ensures row in RowsUpTo(ix, maxDepth)
            <==> exists k: nat, d: nat :: k < ix.Size() && d <= maxDepth && InLevel(ix, k, d) && row == RowOf(ix, k, d)
  {
    hide InLevel, RowOf, LevelRows;
    LevelRowsLocators(ix, maxDepth, ix.Size(), row);
    if maxDepth > 0 {
      RowsUpToRows(ix, maxDepth - 1, row);
    }
  }

  /** Main result: for any depth cap, the rows are exactly those of the functions whose shortest
      caller distance to an SQL-bearing function is within the cap, at that distance. */
  lemma RowsAreExact(ix: Index, maxDepth: nat, row: Row)
    ensures row in RowsUpTo(ix, maxDepth)
            <==> exists k: nat, d: nat ::
                  && k < ix.Size() && d <= maxDepth && AtDistance(ix, k, d)
                  && row == Row(ix.functions[k].locator, ix.functions[k].fn, d, if d == 0 then {} else Via(ix, k, d))
  {
    hide InLevel, AtDistance, RowsUpTo;
    RowsUpToRows(ix, maxDepth, row);
    forall k: nat, d: nat | k < ix.Size()
      ensures InLevel(ix, k, d) <==> AtDistance(ix, k, d)
    {
      LevelIsDistance(ix, k, d);
    }
  }

  lemma {:induction false} LevelRowsAreDistinct(ix: Index, d: nat, n: nat)
    requires ix.Valid() && n <= ix.Size()
    ensures forall i, j ::
              0 <= i < j < |LevelRows(ix, d, n)| ==> LevelRows(ix, d, n)[i].locator != LevelRows(ix, d, n)[j].locator
  {
    hide InLevel, Via;
    if n > 0 {
      LevelRowsAreDistinct(ix, d, n - 1);
      var rows := LevelRows(ix, d, n - 1);
      forall i | 0 <= i < |rows|
        ensures rows[i].locator != ix.functions[n - 1].locator
      {
        LevelRowsLocators(ix, d, n - 1, rows[i]);
      }
    }
  }

  /** No function gets two rows. */
  lemma {:induction false} RowsAreDistinct(ix: Index, maxDepth: nat)
    requires ix.Valid()
    ensures forall i, j ::
              0 <= i < j < |RowsUpTo(ix, maxDepth)|
              ==> RowsUpTo(ix, maxDepth)[i].locator != RowsUpTo(ix, maxDepth)[j].locator
  {
    hide InLevel, Via, LevelRows;
    var level := LevelRows(ix, maxDepth, ix.Size());
    LevelRowsAreDistinct(ix, maxDepth, ix.Size());
    if maxDepth > 0 {
      var earlier := RowsUpTo(ix, maxDepth - 1);
      RowsAreDistinct(ix, maxDepth - 1);
      forall i, j | 0 <= i < |earlier| && 0 <= j < |level|
        ensures earlier[i].locator != level[j].locator
      {
        RowsUpToRows(ix, maxDepth - 1, earlier[i]);
        LevelRowsLocators(ix, maxDepth, ix.Size(), level[j]);
        var k: nat, d: nat :| k < ix.Size() && d <= maxDepth - 1 && InLevel(ix, k, d) && earlier[i] == RowOf(ix, k, d);
        var l: nat :| l < ix.Size() && InLevel(ix, l, maxDepth) && level[j] == RowOf(ix, l, maxDepth);
        if k == l {
          LevelsAreDisjoint(ix, k, d, maxDepth);
        }
      }
    }
  }

  /** The last functions before k on shortest chains to k. */
  ghost predicate IsPredecessor(ix: Index, g: nat, k: nat, d: nat) {
    d > 0 && g < ix.Size() && k < ix.Size() && AtDistance(ix, g, d - 1) && ix.Edge(g, k)
  }

  ghost predicate PredecessorsHaveOwnNames(ix: Index, k: nat, d: nat) {
    forall g: nat, h: nat ::
      && g < ix.Size() && h < ix.Size() && IsPredecessor(ix, g, k, d) && IsPredecessor(ix, h, k, d)
      && ix.functions[g].fn == ix.functions[h].fn
      ==> g == h
  }

  ghost predicate ViaListsPredecessors(ix: Index, k: nat, d: nat)
    requires k < ix.Size()
  {
    forall locator :: locator in Via(ix, k, d)
      <==> exists g: nat :: g < ix.Size() && IsPredecessor(ix, g, k, d) && ix.functions[g].locator == locator
  }

  lemma LastNamedPredecessor(ix: Index, k: nat, d: nat, g: nat)
    requires d > 0 && k < ix.Size() && g < ix.Size() && IsPredecessor(ix, g, k, d)
    ensures var last := LastNamed(ix, d - 1, ix.functions[g].fn, ix.Size());
            && last.Some? && IsPredecessor(ix, last.value, k, d)
            && ix.functions[last.value].fn == ix.functions[g].fn
            && ix.functions[last.value].locator in Via(ix, k, d)
  {
    hide InLevel, AtDistance;
    LevelIsDistance(ix, g, d - 1);
    var last := LastNamed(ix, d - 1, ix.functions[g].fn, ix.Size());
    LevelIsDistance(ix, last.value, d - 1);
    assert ix.functions[g].fn in Matches(ix, k, d - 1);
  }

  lemma ViaIsPredecessor(ix: Index, k: nat, d: nat, locator: string) returns (g: nat)
    requires d > 0 && k < ix.Size() && locator in Via(ix, k, d)
    ensures g < ix.Size() && IsPredecessor(ix, g, k, d) && ix.functions[g].locator == locator
    ensures LastNamed(ix, d - 1, ix.functions[g].fn, ix.Size()) == Some(g)
  {
    hide InLevel, AtDistance;
    var name :| name in Matches(ix, k, d - 1)
                && FrontierLocator(ix, d - 1, name) == locator;
    g := LastNamed(ix, d - 1, name, ix.Size()).value;
    LevelIsDistance(ix, g, d - 1);
  }

  /** Main result: `via` lists exactly the shortest predecessors if and only if no two of them
      share a name. The frontier is keyed by name, so of two it only remembers the last. */
  lemma ViaIsExact(ix: Index, k: nat, d: nat)
    requires ix.Valid() && d > 0 && k < ix.Size()
    ensures ViaListsPredecessors(ix, k, d) <==> PredecessorsHaveOwnNames(ix, k, d)
  {
    hide Via, IsPredecessor, LastNamed;
    if PredecessorsHaveOwnNames(ix, k, d) {
      forall g: nat | g < ix.Size() && IsPredecessor(ix, g, k, d)
        ensures ix.functions[g].locator in Via(ix, k, d)
      {
        LastNamedPredecessor(ix, k, d, g);
      }
      forall locator | locator in Via(ix, k, d)
        ensures exists g: nat :: g < ix.Size() && IsPredecessor(ix, g, k, d) && ix.functions[g].locator == locator
      {
        var g := ViaIsPredecessor(ix, k, d, locator);
      }
    }
    if ViaListsPredecessors(ix, k, d) {
      forall g: nat, h: nat | g < ix.Size() && h < ix.Size() && IsPredecessor(ix, g, k, d) && IsPredecessor(ix, h, k, d)
                              && ix.functions[g].fn == ix.functions[h].fn
        ensures g == h
      {
        assert ix.functions[g].locator in Via(ix, k, d) && ix.functions[h].locator in Via(ix, k, d);
        var g' := ViaIsPredecessor(ix, k, d, ix.functions[g].locator);
        var h' := ViaIsPredecessor(ix, k, d, ix.functions[h].locator);
      }
    }
  }

  /** No name that the search can resolve stands for two functions. */
  predicate ResolvesUniquely(ix: Index) {
    forall g, h ::
      0 <= g < h < ix.Size() && ix.functions[g].fn == ix.functions[h].fn ==> !ix.DeclaredOnce(ix.functions[g].fn)
  }

  /** Main result: when every resolvable name stands for one function, `via` is exactly the set of
      all shortest predecessors, at every depth. */
  lemma ViaListsAllPredecessors(ix: Index, k: nat, d: nat)
    requires ix.Valid() && ResolvesUniquely(ix) && d > 0 && k < ix.Size()
    ensures ViaListsPredecessors(ix, k, d)
  {
    hide AtDistance, ViaListsPredecessors;
    ViaIsExact(ix, k, d);
  }

  /** Where two SQL-bearing functions share a name declared once, and a third that is not
      SQL-bearing calls it, `via` of the third misses one of them. */
  lemma SharedNameLosesPredecessor(ix: Index, g: nat, h: nat, k: nat)
    requires ix.Valid() && g < h < ix.Size() && k < ix.Size()
    requires ix.functions[g].fn == ix.functions[h].fn && ix.functions[g].bearing && ix.functions[h].bearing
    requires !ix.functions[k].bearing && ix.Edge(g, k)
    ensures AtDistance(ix, k, 1) && !ViaListsPredecessors(ix, k, 1)
  {
    assert ix.Edge(h, k);
    assert InLevel(ix, g, 0) && InLevel(ix, h, 0) && !InLevel(ix, k, 0);
    assert !InEarlier(ix, k, 1);
    assert InLevel(ix, k, 1);
    LevelIsDistance(ix, g, 0);
    LevelIsDistance(ix, h, 0);
    LevelIsDistance(ix, k, 1);
    hide AtDistance, ViaListsPredecessors;
    assert IsPredecessor(ix, g, k, 1) && IsPredecessor(ix, h, k, 1);
    ViaIsExact(ix, k, 1);
  }

  lemma {:induction false} BlockedBeforeLevels(ix: Index, d: nat)
    ensures BlockedBefore(ix, d, ix.Size())
            <==> exists k: nat, e: nat :: k < ix.Size() && e <= d && InLevel(ix, k, e) && ix.Blocked(k)
  {
    hide InLevel, Index.Blocked;
    if d > 0 {
      BlockedBeforeLevels(ix, d - 1);
    }
    if BlockedBefore(ix, d, ix.Size()) {
      if k: nat :| k < ix.Size() && InLevel(ix, k, d) && ix.Blocked(k) {
        var e := d;
        assert e <= d && InLevel(ix, k, e);
      } else {
        var k: nat, e: nat :| k < ix.Size() && e <= d - 1 && InLevel(ix, k, e) && ix.Blocked(k);
      }
    }
  }

  /** Main result: the sweep fails exactly when a function within the cap, whose name is declared
      once, is called from a place without a unique owner. */
  lemma FailureIsExact(ix: Index, maxDepth: nat)
    ensures BlockedBefore(ix, maxDepth, ix.Size())
            <==> exists k: nat, d: nat :: k < ix.Size() && d <= maxDepth && AtDistance(ix, k, d) && ix.Blocked(k)
  {
    hide InLevel, AtDistance, Index.Blocked, BlockedBefore;
    BlockedBeforeLevels(ix, maxDepth);
    forall k: nat, d: nat | k < ix.Size()
      ensures InLevel(ix, k, d) <==> AtDistance(ix, k, d)
    {
      LevelIsDistance(ix, k, d);
    }
    if BlockedBefore(ix, maxDepth, ix.Size()) {
      var k: nat, d: nat :| k < ix.Size() && d <= maxDepth && InLevel(ix, k, d) && ix.Blocked(k);
      assert AtDistance(ix, k, d);
    }
    if k: nat, d: nat :| k < ix.Size() && d <= maxDepth && AtDistance(ix, k, d) && ix.Blocked(k) {
      assert InLevel(ix, k, d);
    }
  }
}
