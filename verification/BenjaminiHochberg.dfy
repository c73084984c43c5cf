/**
 The Benjamini-Hochberg step-up of scripts/analyze_paired.py, over exact reals.

 `BenjaminiHochberg` is the script's two passes over the sorted indices. `IsGreatest` says
 what the result is for, without ranks or sorting: it is the largest set each of whose
 p-values is at most its size times q / m.
 */
module BenjaminiHochberg {

  /** `order` lists every index of `p` once, by ascending p-value: any answer `sorted` could
      give if it were free to order ties. */
  ghost predicate IsOrder(p: seq<real>, order: seq<nat>) {
    && |order| == |p|
    && (forall k :: 0 <= k < |order| ==> order[k] < |p|)
    && (forall i: nat :: i < |p| ==> i in order)
    && (forall j, k :: 0 <= j < k < |order| ==> order[j] != order[k])
    && (forall j, k :: 0 <= j < k < |order| ==> p[order[j]] <= p[order[k]])
  }

  /** The stable `sorted(range(m), key=...)`, built by inserting each index behind its ties. */
  function Insert(p: seq<real>, order: seq<nat>, i: nat): (r: seq<nat>)
    requires i < |p| && forall k :: 0 <= k < |order| ==> order[k] < |p|
    ensures |r| == |order| + 1 && (forall x: nat :: x in r <==> x == i || x in order)
  {
    if order == [] || p[order[|order| - 1]] <= p[i] then order + [i]
    else Insert(p, order[..|order| - 1], i) + [order[|order| - 1]]
  }

  function StableOrder(p: seq<real>, n: nat): (r: seq<nat>)
    requires n <= |p|
    ensures |r| == n && forall x: nat :: x in r <==> x < n
  {
    if n == 0 then []
    else
      var earlier := StableOrder(p, n - 1);
      assert forall k :: 0 <= k < |earlier| ==> earlier[k] in earlier;
      Insert(p, earlier, n - 1)
  }

  ghost predicate Ascending(p: seq<real>, order: seq<nat>)
    requires forall k :: 0 <= k < |order| ==> order[k] < |p|
  {
    && (forall j, k :: 0 <= j < k < |order| ==> order[j] != order[k])
    && (forall j, k :: 0 <= j < k < |order| ==> p[order[j]] <= p[order[k]])
  }

  lemma AppendKeepsAscending(p: seq<real>, order: seq<nat>, last: nat)
    requires last < |p| && (forall k :: 0 <= k < |order| ==> order[k] < |p|)
    requires Ascending(p, order) && forall x: nat :: x in order ==> x != last && p[x] <= p[last]
    ensures Ascending(p, order + [last])
  {
    assert forall k :: 0 <= k < |order| ==> order[k] in order;
  }

  lemma {:induction false} InsertKeepsAscending(p: seq<real>, order: seq<nat>, i: nat)
    requires i < |p| && (forall k :: 0 <= k < |order| ==> order[k] < |p|)
    requires Ascending(p, order) && i !in order
    ensures forall k :: 0 <= k < |Insert(p, order, i)| ==> Insert(p, order, i)[k] < |p|
    ensures Ascending(p, Insert(p, order, i))
  {
    if order == [] || p[order[|order| - 1]] <= p[i] {
      assert Insert(p, order, i) == order + [i];
    } else {
      var front, last := order[..|order| - 1], order[|order| - 1];
      InsertKeepsAscending(p, front, i);
      AppendKeepsAscending(p, Insert(p, front, i), last);
    }
  }

  lemma {:induction false} StableOrderAscends(p: seq<real>, n: nat)
    requires n <= |p|
    ensures forall k :: 0 <= k < n ==> StableOrder(p, n)[k] in StableOrder(p, n)
    ensures Ascending(p, StableOrder(p, n))
  {
    if n > 0 {
      StableOrderAscends(p, n - 1);
      InsertKeepsAscending(p, StableOrder(p, n - 1), n - 1);
    }
  }

  lemma StableOrderIsOrder(p: seq<real>)
    ensures IsOrder(p, StableOrder(p, |p|))
    ensures forall k :: 0 <= k < |p| ==> StableOrder(p, |p|)[k] < |p|
  {
    StableOrderAscends(p, |p|);
  }

  // ---- the step-up ----

  function Threshold(k: int, m: int, q: real): real
    requires m > 0
  {
    (k as real / m as real) * q
  }

  /** The last of the first n ranks whose p-value is within its threshold, or -1. */
  function ThreshRank(p: seq<real>, q: real, order: seq<nat>, n: nat): (r: int)
    requires n <= |order| && forall k :: 0 <= k < |order| ==> order[k] < |p|
    ensures r == -1 || (1 <= r <= n && p[order[r - 1]] <= Threshold(r, |p|, q))
    ensures forall k :: 1 <= k <= n && r < k ==> p[order[k - 1]] > Threshold(k, |p|, q)
  {
    if n == 0 then -1
    else if p[order[n - 1]] <= Threshold(n, |p|, q) then n
    else ThreshRank(p, q, order, n - 1)
  }

  function Prefix(order: seq<nat>, n: int): set<nat>
    requires n <= |order|
  {
    set k | 0 <= k < n :: order[k]
  }

  function StepUp(p: seq<real>, q: real, order: seq<nat>): set<nat>
    requires forall k :: 0 <= k < |order| ==> order[k] < |p|
  {
    Prefix(order, ThreshRank(p, q, order, |order|))
  }

  lemma PrefixGrows(order: seq<nat>, n: nat)
    requires n < |order|
    ensures Prefix(order, n + 1) == Prefix(order, n) + {order[n]}
  {
  }

  lemma PrefixStarts(order: seq<nat>)
    ensures Prefix(order, 0) == Prefix(order, -1) == {}
  {
  }

  method FindThreshRank(p: seq<real>, q: real, order: seq<nat>) returns (threshRank: int)
    requires |p| == |order| && forall k :: 0 <= k < |order| ==> order[k] < |p|
    ensures threshRank == ThreshRank(p, q, order, |order|)
  {
    hide Threshold;
    threshRank := -1;
    for rank := 1 to |p| + 1
      invariant threshRank == ThreshRank(p, q, order, rank - 1)
    {
      if p[order[rank - 1]] <= Threshold(rank, |p|, q) {
        threshRank := rank;
      }
    }
  }

  method BenjaminiHochberg(p: seq<real>, q: real) returns (sig: set<nat>)
    ensures IsOrder(p, StableOrder(p, |p|)) && sig == StepUp(p, q, StableOrder(p, |p|))
    ensures IsLevelOrPValues(p, q) ==> IsGreatest(p, q, sig)
  {
    hide IsOrder, IsGreatest, IsLevelOrPValues, StableOrder, Threshold, Prefix;
    var m := |p|;
    var order := StableOrder(p, m);
    StableOrderIsOrder(p);
    if IsLevelOrPValues(p, q) {
      StepUpIsGreatest(p, q, order);
    }
    PrefixStarts(order);
    if m == 0 {
      return {};
    }
    var threshRank := FindThreshRank(p, q, order);
    sig := {};
    if threshRank >= 0 {
      for rank := 1 to m + 1
        invariant sig == Prefix(order, if rank - 1 <= threshRank then rank - 1 else threshRank)
      {
        PrefixGrows(order, rank - 1);
        if rank <= threshRank {
          sig := sig + {order[rank - 1]};
        }
      }
    }
  }

  // ---- what the result is ----

  /** The level is not negative, or no p-value is: all the script is ever called with. */
  predicate IsLevelOrPValues(p: seq<real>, q: real) {
    q >= 0.0 || forall i :: 0 <= i < |p| ==> p[i] >= 0.0
  }

  ghost predicate Feasible(p: seq<real>, q: real, s: set<nat>) {
    forall i :: i in s ==> i < |p| && p[i] <= Threshold(|s|, |p|, q)
  }

  /** The greatest feasible set: feasible, and containing every feasible set. */
  ghost predicate IsGreatest(p: seq<real>, q: real, s: set<nat>) {
    Feasible(p, q, s) && forall t: set<nat> :: Feasible(p, q, t) ==> t <= s
  }

  lemma ThresholdIsMonotone(j: nat, k: nat, m: int, q: real)
    requires j <= k && m > 0 && q >= 0.0
    ensures Threshold(j, m, q) <= Threshold(k, m, q)
  {
    var a, b := j as real / m as real, k as real / m as real;
    assert a <= b;
    assert (b - a) * q >= 0.0;
  }

  lemma {:induction false} PrefixSize(order: seq<nat>, n: nat)
    requires n <= |order| && forall j, k :: 0 <= j < k < |order| ==> order[j] != order[k]
    ensures |Prefix(order, n)| == n
  {
    if n > 0 {
      PrefixSize(order, n - 1);
      assert Prefix(order, n) == Prefix(order, n - 1) + {order[n - 1]};
      assert order[n - 1] !in Prefix(order, n - 1);
    }
  }

  /** A feasible set among the first n ranks reaches no further than the threshold rank. */
  lemma {:induction false} FeasibleIsBelowThreshold(p: seq<real>, q: real, order: seq<nat>, t: set<nat>, n: nat)
    requires IsOrder(p, order) && q >= 0.0 && n <= |order|
    requires Feasible(p, q, t) && t <= Prefix(order, n)
    ensures t <= Prefix(order, ThreshRank(p, q, order, n))
  {
    PrefixSize(order, n);
    SubsetSize(t, Prefix(order, n));
    if n > 0 {
      if order[n - 1] in t {
        ThresholdIsMonotone(|t|, n, |p|, q);
      } else {
        assert t <= Prefix(order, n - 1);
        FeasibleIsBelowThreshold(p, q, order, t, n - 1);
      }
    }
  }

  lemma {:induction false} SubsetSize<T>(s: set<T>, t: set<T>)
    requires s <= t
    ensures |s| <= |t|
  {
    if s != {} {
      var x :| x in s;
      SubsetSize(s - {x}, t - {x});
    }
  }

  lemma NegativeThreshold(k: nat, m: int, q: real)
    requires 1 <= k && m > 0 && q < 0.0
    ensures Threshold(k, m, q) < 0.0
  {
    var a := k as real / m as real;
    assert a > 0.0;
    assert a * q < 0.0;
  }

  /** Below level 0 no p-value is significant and no set but the empty one is feasible. */
  lemma NegativeLevel(p: seq<real>, q: real, order: seq<nat>)
    requires IsOrder(p, order) && q < 0.0 && forall i :: 0 <= i < |p| ==> p[i] >= 0.0
    ensures StepUp(p, q, order) == {} && IsGreatest(p, q, {})
  {
    var rank := ThreshRank(p, q, order, |order|);
    if rank >= 1 {
      NegativeThreshold(rank, |p|, q);
    }
    forall t: set<nat> | Feasible(p, q, t)
      ensures t == {}
    {
      if t != {} {
        var i :| i in t;
        SubsetSize({i}, t);
        NegativeThreshold(|t|, |p|, q);
      }
    }
  }

  /** Main result: the step-up over any ascending order of the indices, however it breaks ties,
      yields the greatest feasible set. */
  lemma StepUpIsGreatest(p: seq<real>, q: real, order: seq<nat>)
    requires IsOrder(p, order) && IsLevelOrPValues(p, q)
    ensures IsGreatest(p, q, StepUp(p, q, order))
  {
    if q < 0.0 {
      NegativeLevel(p, q, order);
      return;
    }
    var rank := ThreshRank(p, q, order, |order|);
    var sig := StepUp(p, q, order);
    if rank >= 1 {
      PrefixSize(order, rank);
      forall i | i in sig
        ensures p[i] <= Threshold(|sig|, |p|, q)
      {
        var k :| 0 <= k < rank && order[k] == i;
        assert k == rank - 1 || p[order[k]] <= p[order[rank - 1]];
      }
    }
    forall t: set<nat> | Feasible(p, q, t)
      ensures t <= sig
    {
      forall i | i in t
        ensures i in Prefix(order, |order|)
      {
        assert i in order;
        var k :| 0 <= k < |order| && order[k] == i;
      }
      FeasibleIsBelowThreshold(p, q, order, t, |order|);
    }
  }

  /** How `sorted` orders ties never shows in the result. */
  lemma TiesDoNotMatter(p: seq<real>, q: real, order: seq<nat>, other: seq<nat>)
    requires IsOrder(p, order) && IsOrder(p, other) && IsLevelOrPValues(p, q)
    ensures StepUp(p, q, order) == StepUp(p, q, other)
  {
    StepUpIsGreatest(p, q, order);
    StepUpIsGreatest(p, q, other);
  }
}
