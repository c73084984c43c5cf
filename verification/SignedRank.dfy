/**
 The Wilcoxon signed-rank statistic of scripts/analyze_paired.py, over exact reals.

 `SignedRank` mirrors the script: it sorts the non-zero deltas by magnitude, fills the array
 of tie-averaged ranks group by group and sums them by sign. The independent definition is
 `MidRank`: how many deltas are smaller, plus half of one more than how many are as large.
 */
module SignedRank {
  import opened Collections

  function Abs(x: real): (a: real)
    ensures a >= 0.0 && (x != 0.0 ==> a > 0.0)
  {
    if x < 0.0 then -x else x
  }

  // ---- sums over sequences ----

  function SumOf(s: seq<real>, f: real -> real): real {
    if s == [] then 0.0 else SumOf(s[..|s| - 1], f) + f(s[|s| - 1])
  }

  lemma {:induction false} SumOfAppend(s: seq<real>, t: seq<real>, f: real -> real)
    ensures SumOf(s + t, f) == SumOf(s, f) + SumOf(t, f)
  {
    if t == [] {
      assert s + t == s;
    } else {
      assert (s + t)[..|s + t| - 1] == s + t[..|t| - 1];
      SumOfAppend(s, t[..|t| - 1], f);
    }
  }

  lemma SumOfOne(x: real, f: real -> real)
    ensures SumOf([x], f) == f(x)
  {
    assert SumOf([x][..0], f) == 0.0;
  }

  lemma {:induction false} SumOfAgree(s: seq<real>, f: real -> real, g: real -> real)
    requires forall k :: 0 <= k < |s| ==> f(s[k]) == g(s[k])
    ensures SumOf(s, f) == SumOf(s, g)
  {
    if s != [] {
      SumOfAgree(s[..|s| - 1], f, g);
    }
  }

  lemma SumOfWithoutOne(t: seq<real>, k: nat, f: real -> real)
    requires k < |t|
    ensures SumOf(t, f) == SumOf(t[..k] + t[k + 1..], f) + f(t[k])
  {
    SumOfAppend(t[..k], t[k + 1..], f);
    SumOfAppend(t[..k + 1], t[k + 1..], f);
    assert t == t[..k + 1] + t[k + 1..];
    assert t[..k + 1][..k] == t[..k];
  }

  lemma {:induction false} SumOfPermuted(s: seq<real>, t: seq<real>, f: real -> real)
    requires multiset(s) == multiset(t)
    ensures SumOf(s, f) == SumOf(t, f)
  {
    if s == [] {
      assert |multiset(s)| == |multiset(t)|;
    } else {
      var n := |s| - 1;
      assert s[n] in multiset(t);
      var k :| 0 <= k < |t| && t[k] == s[n];
      WithoutOne(s, n);
      WithoutOne(t, k);
      SumOfWithoutOne(t, k, f);
      assert s[..n] + s[n + 1..] == s[..n];
      SumOfPermuted(s[..n], t[..k] + t[k + 1..], f);
    }
  }

  // ---- ranks without sorting ----

  function Below(a: real): real -> real {
    (x: real) => if Abs(x) < a then 1.0 else 0.0
  }

  function Level(a: real): real -> real {
    (x: real) => if Abs(x) == a then 1.0 else 0.0
  }

  /** The tie-averaged rank of magnitude a among the deltas s. */
  function MidRank(s: seq<real>, a: real): real {
    SumOf(s, Below(a)) + (SumOf(s, Level(a)) + 1.0) / 2.0
  }

  function AnyRank(s: seq<real>): real -> real {
    (x: real) => MidRank(s, Abs(x))
  }

  function PlusRank(s: seq<real>): real -> real {
    (x: real) => if x > 0.0 then MidRank(s, Abs(x)) else 0.0
  }

  function MinusRank(s: seq<real>): real -> real {
    (x: real) => if x < 0.0 then MidRank(s, Abs(x)) else 0.0
  }

  function WPlus(s: seq<real>): real {
    SumOf(s, PlusRank(s))
  }

  function WMinus(s: seq<real>): real {
    SumOf(s, MinusRank(s))
  }

  function Min(a: real, b: real): real {
    if a <= b then a else b
  }

  function W(s: seq<real>): real {
    Min(WPlus(s), WMinus(s))
  }

  function Square(x: real): real {
    x * x
  }

  /** Each member of a group of t ties contributes t * t - 1, so the group contributes t^3 - t. */
  function TieExcess(s: seq<real>): real -> real {
    (x: real) => Square(SumOf(s, Level(Abs(x)))) - 1.0
  }

  function TieTerm(s: seq<real>): real {
    SumOf(s, TieExcess(s))
  }

  function VarianceFrom(n: real, tieTerm: real): real {
    (n * (n + 1.0) * (2.0 * n + 1.0) - tieTerm / 2.0) / 24.0
  }

  function Variance(s: seq<real>): real {
    VarianceFrom(|s| as real, TieTerm(s))
  }

  // ---- the script's computation ----

  function NonZero(deltas: seq<real>): (s: seq<real>)
    ensures forall k :: 0 <= k < |s| ==> s[k] != 0.0
  {
    if deltas == [] then []
    else NonZero(deltas[..|deltas| - 1]) + (if deltas[|deltas| - 1] != 0.0 then [deltas[|deltas| - 1]] else [])
  }

  /** The order of the pairs (abs(d), d). */
  predicate Leq(x: real, y: real) {
    Abs(x) < Abs(y) || (Abs(x) == Abs(y) && x <= y)
  }

  ghost predicate AscendingMagnitude(s: seq<real>) {
    forall j, k :: 0 <= j < k < |s| ==> Abs(s[j]) <= Abs(s[k])
  }

  function Insert(s: seq<real>, x: real): (r: seq<real>)
    ensures multiset(r) == multiset(s) + multiset{x}
  {
    if s == [] || Leq(s[|s| - 1], x) then s + [x]
    else
      assert s == s[..|s| - 1] + [s[|s| - 1]];
      Insert(s[..|s| - 1], x) + [s[|s| - 1]]
  }

  function Sorted(s: seq<real>): (r: seq<real>)
    ensures multiset(r) == multiset(s)
  {
    if s == [] then []
    else
      assert s == s[..|s| - 1] + [s[|s| - 1]];
      Insert(Sorted(s[..|s| - 1]), s[|s| - 1])
  }

  lemma {:induction false} InsertAscends(s: seq<real>, x: real)
    requires AscendingMagnitude(s)
    ensures AscendingMagnitude(Insert(s, x))
  {
    if s != [] && !Leq(s[|s| - 1], x) {
      var front, last := s[..|s| - 1], s[|s| - 1];
      InsertAscends(front, x);
      var r := Insert(front, x);
      forall k | 0 <= k < |r|
        ensures Abs(r[k]) <= Abs(last)
      {
        assert r[k] in multiset(r);
        assert r[k] == x || r[k] in front;
      }
    }
  }

  lemma {:induction false} SortedAscends(s: seq<real>)
    ensures AscendingMagnitude(Sorted(s)) && |Sorted(s)| == |s|
  {
    assert |multiset(Sorted(s))| == |multiset(s)|;
    if s != [] {
      SortedAscends(s[..|s| - 1]);
      InsertAscends(Sorted(s[..|s| - 1]), s[|s| - 1]);
    }
  }

  /** The sum of the ranks of the positive deltas, or of the negative ones. */
  function RankSum(ranks: seq<real>, deltas: seq<real>, positive: bool): real
    requires |ranks| == |deltas|
  {
    if ranks == [] then 0.0
    else
      var n := |ranks| - 1;
      RankSum(ranks[..n], deltas[..n], positive)
      + (if (if positive then deltas[n] > 0.0 else deltas[n] < 0.0) then ranks[n] else 0.0)
  }

  /** `Counter(a for a, _ in absd)`: distinct magnitudes in order of first appearance, each
      with its number of occurrences. */
  datatype Tally = Tally(magnitude: real, count: nat)

  function Count(tallies: seq<Tally>, a: real): (r: seq<Tally>) {
    if tallies == [] then [Tally(a, 1)]
    else if tallies[0].magnitude == a then [Tally(a, tallies[0].count + 1)] + tallies[1..]
    else [tallies[0]] + Count(tallies[1..], a)
  }

  function Counter(s: seq<real>): seq<Tally> {
    if s == [] then [] else Count(Counter(s[..|s| - 1]), Abs(s[|s| - 1]))
  }

  /** `sum(t**3 - t for t in tie_counts.values())` */
  function CubeSum(tallies: seq<Tally>): real {
    if tallies == [] then 0.0
    else
      var t := tallies[0].count as real;
      t * t * t - t + CubeSum(tallies[1..])
  }

  /** Between indices lo and hi lies exactly what f selects. */
  lemma {:induction false} SumOfRange(s: seq<real>, f: real -> real, lo: nat, hi: nat)
    requires lo <= hi <= |s|
    requires forall k :: 0 <= k < |s| ==> f(s[k]) == if lo <= k < hi then 1.0 else 0.0
    ensures SumOf(s, f) == (hi - lo) as real
  {
    if s != [] {
      var n := |s| - 1;
      SumOfRange(s[..n], f, if lo < n then lo else n, if hi < n then hi else n);
    }
  }

  /** A maximal run i..j of equal magnitudes has the average of the 1-based ranks i+1..j+1. */
  lemma GroupRank(s: seq<real>, i: nat, j: nat, a: real)
    requires AscendingMagnitude(s) && i <= j < |s| && Abs(s[i]) == a == Abs(s[j])
    requires i == 0 || Abs(s[i - 1]) < a
    requires j + 1 == |s| || Abs(s[j + 1]) > a
    ensures MidRank(s, a) == (i + 1 + j + 1) as real / 2.0
  {
    forall k | 0 <= k < |s|
      ensures Below(a)(s[k]) == (if 0 <= k < i then 1.0 else 0.0)
      ensures Level(a)(s[k]) == (if i <= k < j + 1 then 1.0 else 0.0)
    {
      assert k < i ==> Abs(s[k]) <= Abs(s[i - 1]);
      assert k > j ==> Abs(s[j + 1]) <= Abs(s[k]);
    }
    SumOfRange(s, Below(a), 0, i);
    SumOfRange(s, Level(a), i, j + 1);
  }

  method FillRanks(s: seq<real>) returns (ranks: array<real>)
    requires AscendingMagnitude(s)
    ensures fresh(ranks) && ranks.Length == |s|
    ensures forall k :: 0 <= k < |s| ==> ranks[k] == MidRank(s, Abs(s[k]))
  {
    hide MidRank, Abs;
    var n := |s|;
    ranks := new real[n](_ => 0.0);
    var i := 0;
    while i < n
      invariant 0 <= i <= n
      invariant 0 < i < n ==> Abs(s[i - 1]) < Abs(s[i])
      invariant forall k :: 0 <= k < i ==> ranks[k] == MidRank(s, Abs(s[k]))
    {
      var j := i;
      while j + 1 < n && Abs(s[j + 1]) == Abs(s[i])
        invariant i <= j < n
        invariant forall k :: i <= k <= j ==> Abs(s[k]) == Abs(s[i])
      {
        j := j + 1;
      }
      var avgRank := (i + 1 + j + 1) as real / 2.0;
      GroupRank(s, i, j, Abs(s[i]));
      for k := i to j + 1
        invariant forall l :: 0 <= l < i ==> ranks[l] == MidRank(s, Abs(s[l]))
        invariant forall l :: i <= l < k ==> ranks[l] == avgRank
      {
        ranks[k] := avgRank;
      }
      i := j + 1;
    }
  }

  lemma MidRankPermuted(s: seq<real>, t: seq<real>, a: real)
    requires multiset(s) == multiset(t)
    ensures MidRank(s, a) == MidRank(t, a)
  {
    SumOfPermuted(s, t, Below(a));
    SumOfPermuted(s, t, Level(a));
  }

  lemma {:induction false} RankSumIsSumOf(ranks: seq<real>, s: seq<real>, base: seq<real>)
    requires |ranks| == |s| && forall k :: 0 <= k < |s| ==> ranks[k] == MidRank(base, Abs(s[k]))
    ensures RankSum(ranks, s, true) == SumOf(s, PlusRank(base))
    ensures RankSum(ranks, s, false) == SumOf(s, MinusRank(base))
  {
    if s != [] {
      var n := |s| - 1;
      RankSumIsSumOf(ranks[..n], s[..n], base);
    }
  }

  /** W and the variance, as the script computes them before the normal approximation. */
  method SignedRank(deltas: seq<real>) returns (n: nat, w: real, variance: real)
    ensures n == |NonZero(deltas)|
    ensures w == W(NonZero(deltas))
    ensures n > 0 ==> variance == Variance(NonZero(deltas))
  {
    hide MidRank, Variance, VarianceFrom, TieTerm;
    var nz := NonZero(deltas);
    n := |nz|;
    if n == 0 {
      return 0, 0.0, 0.0;
    }
    var absd := Sorted(nz);
    SortedAscends(nz);
    var ranks := FillRanks(absd);
    forall k | 0 <= k < |absd|
      ensures ranks[..][k] == MidRank(nz, Abs(absd[k]))
    {
      MidRankPermuted(nz, absd, Abs(absd[k]));
    }
    RankSumIsSumOf(ranks[..], absd, nz);
    var wPlus := RankSum(ranks[..], absd, true);
    var wMinus := RankSum(ranks[..], absd, false);
    SumOfPermuted(nz, absd, PlusRank(nz));
    SumOfPermuted(nz, absd, MinusRank(nz));
    w := Min(wPlus, wMinus);
    var tieTerm := CubeSum(Counter(absd));
    CounterIsTieTerm(absd);
    TieTermPermuted(nz, absd);
    variance := VarianceFrom(n as real, tieTerm);
    VarianceIs(nz);
  }

  lemma VarianceIs(s: seq<real>)
    ensures Variance(s) == VarianceFrom(|s| as real, TieTerm(s))
  {
  }

  // ---- the tie term ----

  lemma TieTermPermuted(s: seq<real>, t: seq<real>)
    requires multiset(s) == multiset(t)
    ensures TieTerm(s) == TieTerm(t)
  {
    forall k | 0 <= k < |s|
      ensures TieExcess(s)(s[k]) == TieExcess(t)(s[k])
    {
      SumOfPermuted(s, t, Level(Abs(s[k])));
    }
    SumOfAgree(s, TieExcess(s), TieExcess(t));
    SumOfPermuted(s, t, TieExcess(t));
  }

  function CountOf(tallies: seq<Tally>, a: real): nat {
    if tallies == [] then 0
    else if tallies[0].magnitude == a then tallies[0].count
    else CountOf(tallies[1..], a)
  }

  lemma {:induction false} CountAddsOne(tallies: seq<Tally>, a: real, b: real)
    ensures CountOf(Count(tallies, a), b) == CountOf(tallies, b) + (if a == b then 1 else 0)
  {
    if tallies == [] {
      assert CountOf([Tally(a, 1)][1..], b) == 0;
    } else {
      CountAddsOne(tallies[1..], a, b);
    }
  }

  lemma {:induction false} CounterCounts(s: seq<real>, a: real)
    ensures CountOf(Counter(s), a) as real == SumOf(s, Level(a))
  {
    if s != [] {
      var front, x := s[..|s| - 1], s[|s| - 1];
      CounterCounts(front, a);
      CountAddsOne(Counter(front), Abs(x), a);
    }
  }

  /** (t + 1)^3 - (t + 1) exceeds t^3 - t by 3 t (t + 1). */
  lemma {:induction false} CubeSumGrows(tallies: seq<Tally>, a: real)
    ensures var t := CountOf(tallies, a) as real;
            CubeSum(Count(tallies, a)) == CubeSum(tallies) + 3.0 * t * (t + 1.0)
  {
    if tallies == [] {
      assert CubeSum([Tally(a, 1)][1..]) == 0.0;
    } else if tallies[0].magnitude == a {
      var c := tallies[0].count;
      assert (c + 1) as real == c as real + 1.0;
      CubeStep(c as real);
    } else {
      CubeSumGrows(tallies[1..], a);
    }
  }

  lemma CubeStep(t: real)
    ensures (t + 1.0) * (t + 1.0) * (t + 1.0) - (t + 1.0) == t * t * t - t + 3.0 * t * (t + 1.0)
  {
    var u := t * t;
    assert (t + 1.0) * (t + 1.0) == u + 2.0 * t + 1.0;
    assert (u + 2.0 * t + 1.0) * (t + 1.0) == u * t + 3.0 * u + 3.0 * t + 1.0;
    assert 3.0 * t * (t + 1.0) == 3.0 * u + 3.0 * t;
  }

  /** What c members of a group gain when the group grows from t to t + 1. */
  function Gain(c: real, t: real): real {
    c * (2.0 * t + 1.0)
  }

  /** Each of the deltas tied with a new one contributes 2 t + 1 more. */
  lemma {:induction false} TieExcessGrows(over: seq<real>, s: seq<real>, x: real)
    ensures var t := SumOf(s, Level(Abs(x)));
            SumOf(over, TieExcess(s + [x])) == SumOf(over, TieExcess(s)) + Gain(SumOf(over, Level(Abs(x))), t)
  {
    hide Square, Abs, Gain;
    var t := SumOf(s, Level(Abs(x)));
    TiedStep(SumOf(over, Level(Abs(x))) - 1.0, t);
    if over != [] {
      var front, y := over[..|over| - 1], over[|over| - 1];
      TieExcessGrows(front, s, x);
      SumOfAppend(s, [x], Level(Abs(y)));
      SumOfOne(x, Level(Abs(y)));
    }
  }

  lemma TiedStep(c: real, t: real)
    ensures Square(t + 1.0) - 1.0 + Gain(c, t) == Square(t) - 1.0 + Gain(c + 1.0, t)
    ensures Gain(0.0, t) == 0.0
  {
    assert (t + 1.0) * (t + 1.0) == t * t + 2.0 * t + 1.0;
    assert (c + 1.0) * (2.0 * t + 1.0) == c * (2.0 * t + 1.0) + (2.0 * t + 1.0);
  }

  /** The script's sum over groups of ties is the sum over deltas. */
  lemma {:induction false} CounterIsTieTerm(s: seq<real>)
    ensures CubeSum(Counter(s)) == TieTerm(s)
  {
    hide Square, Abs, Gain;
    if s != [] {
      var front, x := s[..|s| - 1], s[|s| - 1];
      var t := SumOf(front, Level(Abs(x)));
      assert s == front + [x];
      CounterIsTieTerm(front);
      CounterCounts(front, Abs(x));
      CubeSumGrows(Counter(front), Abs(x));
      TieExcessGrows(front, front, x);
      SumOfAppend(front, [x], Level(Abs(x)));
      SumOfOne(x, Level(Abs(x)));
      NewTieStep(t);
    }
  }

  lemma NewTieStep(t: real)
    ensures Gain(t, t) + (Square(t + 1.0) - 1.0) == 3.0 * t * (t + 1.0)
  {
    assert t * (2.0 * t + 1.0) == 2.0 * (t * t) + t;
    assert (t + 1.0) * (t + 1.0) == t * t + 2.0 * t + 1.0;
    assert 3.0 * t * (t + 1.0) == 3.0 * (t * t) + 3.0 * t;
  }

  // ---- main results ----

  lemma {:induction false} CountsPartition(over: seq<real>, a: real)
    ensures SumOf(over, Below(a)) + SumOf(over, Level(a)) + SumOf(over, Above(a)) == |over| as real
  {
    if over != [] {
      CountsPartition(over[..|over| - 1], a);
    }
  }

  function Above(a: real): real -> real {
    (x: real) => if Abs(x) > a then 1.0 else 0.0
  }

  /** A new delta lifts the ranks above it by one and the ranks tied with it by a half. */
  lemma {:induction false} AnyRankGrows(over: seq<real>, s: seq<real>, x: real)
    ensures SumOf(over, AnyRank(s + [x]))
         == SumOf(over, AnyRank(s)) + SumOf(over, Above(Abs(x))) + SumOf(over, Level(Abs(x))) / 2.0
  {
    if over != [] {
      var front, y := over[..|over| - 1], over[|over| - 1];
      AnyRankGrows(front, s, x);
      SumOfAppend(s, [x], Below(Abs(y)));
      SumOfAppend(s, [x], Level(Abs(y)));
      SumOfOne(x, Below(Abs(y)));
      SumOfOne(x, Level(Abs(y)));
    }
  }

  /** Averaging ties keeps the total of the ranks: 1 + 2 + ... + n. */
  lemma {:induction false} RanksAddUp(s: seq<real>)
    ensures SumOf(s, AnyRank(s)) == (|s| * (|s| + 1)) as real / 2.0
  {
    if s != [] {
      var front, x := s[..|s| - 1], s[|s| - 1];
      var a := Abs(x);
      assert s == front + [x];
      RanksAddUp(front);
      AnyRankGrows(front, front, x);
      CountsPartition(front, a);
      SumOfAppend(front, [x], Below(a));
      SumOfAppend(front, [x], Level(a));
      SumOfOne(x, Below(a));
      SumOfOne(x, Level(a));
      var n := |front|;
      assert (n + 1) * (n + 2) == n * (n + 1) + 2 * (n + 1);
    }
  }

  lemma {:induction false} SignsSplitRanks(over: seq<real>, s: seq<real>)
    requires forall k :: 0 <= k < |over| ==> over[k] != 0.0
    ensures SumOf(over, PlusRank(s)) + SumOf(over, MinusRank(s)) == SumOf(over, AnyRank(s))
  {
    if over != [] {
      SignsSplitRanks(over[..|over| - 1], s);
    }
  }

  /** Main result: the two signed rank sums add up to n (n + 1) / 2, so W is at most half of it. */
  lemma SignedRanksAddUp(s: seq<real>)
    requires forall k :: 0 <= k < |s| ==> s[k] != 0.0
    ensures WPlus(s) + WMinus(s) == (|s| * (|s| + 1)) as real / 2.0
    ensures W(s) <= (|s| * (|s| + 1)) as real / 4.0
  {
    SignsSplitRanks(s, s);
    RanksAddUp(s);
  }

  lemma RanksPermuted(s: seq<real>, t: seq<real>)
    requires multiset(s) == multiset(t)
    ensures WPlus(s) == WPlus(t) && WMinus(s) == WMinus(t) && W(s) == W(t) && Variance(s) == Variance(t)
  {
    forall k | 0 <= k < |s|
      ensures PlusRank(s)(s[k]) == PlusRank(t)(s[k]) && MinusRank(s)(s[k]) == MinusRank(t)(s[k])
    {
      MidRankPermuted(s, t, Abs(s[k]));
    }
    SumOfAgree(s, PlusRank(s), PlusRank(t));
    SumOfAgree(s, MinusRank(s), MinusRank(t));
    SumOfPermuted(s, t, PlusRank(t));
    SumOfPermuted(s, t, MinusRank(t));
    TieTermPermuted(s, t);
    assert |multiset(s)| == |multiset(t)|;
  }

  lemma {:induction false} NonZeroCounts(deltas: seq<real>, x: real)
    ensures multiset(NonZero(deltas))[x] == if x == 0.0 then 0 else multiset(deltas)[x]
  {
    if deltas != [] {
      var front, last := deltas[..|deltas| - 1], deltas[|deltas| - 1];
      NonZeroCounts(front, x);
      assert deltas == front + [last];
    }
  }

  lemma NonZeroPermuted(s: seq<real>, t: seq<real>)
    requires multiset(s) == multiset(t)
    ensures multiset(NonZero(s)) == multiset(NonZero(t))
  {
    forall x
      ensures multiset(NonZero(s))[x] == multiset(NonZero(t))[x]
    {
      NonZeroCounts(s, x);
      NonZeroCounts(t, x);
    }
  }

  /** Main result: the order of the deltas, zeros among them, does not matter. */
  lemma PermutationInvariant(deltas: seq<real>, others: seq<real>)
    requires multiset(deltas) == multiset(others)
    ensures var s, t := NonZero(deltas), NonZero(others);
            && |s| == |t|
            && WPlus(s) == WPlus(t) && WMinus(s) == WMinus(t) && W(s) == W(t) && Variance(s) == Variance(t)
  {
    NonZeroPermuted(deltas, others);
    RanksPermuted(NonZero(deltas), NonZero(others));
    assert |multiset(NonZero(deltas))| == |multiset(NonZero(others))|;
  }

  function Negated(s: seq<real>): (t: seq<real>)
    ensures |t| == |s| && forall k :: 0 <= k < |s| ==> t[k] == -s[k]
  {
    seq(|s|, k requires 0 <= k < |s| => -s[k])
  }

  lemma {:induction false} SumOfNegated(s: seq<real>, f: real -> real, g: real -> real)
    requires forall x: real :: f(-x) == g(x)
    ensures SumOf(Negated(s), f) == SumOf(s, g)
  {
    if s != [] {
      var n := |s| - 1;
      assert Negated(s)[..n] == Negated(s[..n]);
      SumOfNegated(s[..n], f, g);
    }
  }

  lemma MidRankNegated(s: seq<real>, a: real)
    ensures MidRank(Negated(s), a) == MidRank(s, a)
  {
    SumOfNegated(s, Below(a), Below(a));
    SumOfNegated(s, Level(a), Level(a));
  }

  lemma RankNegated(s: seq<real>, x: real)
    ensures PlusRank(Negated(s))(-x) == MinusRank(s)(x)
    ensures MinusRank(Negated(s))(-x) == PlusRank(s)(x)
  {
    hide MidRank;
    MidRankNegated(s, Abs(x));
  }

  lemma TieExcessNegated(s: seq<real>, x: real)
    ensures TieExcess(Negated(s))(-x) == TieExcess(s)(x)
  {
    hide Square;
    SumOfNegated(s, Level(Abs(x)), Level(Abs(x)));
  }

  lemma TieTermNegated(s: seq<real>)
    ensures TieTerm(Negated(s)) == TieTerm(s)
  {
    hide TieExcess;
    forall x: real
      ensures TieExcess(Negated(s))(-x) == TieExcess(s)(x)
    {
      TieExcessNegated(s, x);
    }
    SumOfNegated(s, TieExcess(Negated(s)), TieExcess(s));
  }

  lemma RanksNegated(s: seq<real>)
    ensures WPlus(Negated(s)) == WMinus(s) && WMinus(Negated(s)) == WPlus(s)
    ensures W(Negated(s)) == W(s) && Variance(Negated(s)) == Variance(s)
  {
    hide PlusRank, MinusRank, TieTerm;
    forall x: real
      ensures PlusRank(Negated(s))(-x) == MinusRank(s)(x)
      ensures MinusRank(Negated(s))(-x) == PlusRank(s)(x)
    {
      RankNegated(s, x);
    }
    SumOfNegated(s, PlusRank(Negated(s)), MinusRank(s));
    SumOfNegated(s, MinusRank(Negated(s)), PlusRank(s));
    TieTermNegated(s);
  }

  lemma {:induction false} NonZeroNegated(deltas: seq<real>)
    ensures NonZero(Negated(deltas)) == Negated(NonZero(deltas))
  {
    if deltas != [] {
      var n := |deltas| - 1;
      NonZeroNegated(deltas[..n]);
      assert Negated(deltas)[..n] == Negated(deltas[..n]);
    }
  }

  /** Main result: swapping the two arms swaps the rank sums and keeps W and the variance. */
  lemma NegationInvariant(deltas: seq<real>)
    ensures var s, t := NonZero(deltas), NonZero(Negated(deltas));
            && |t| == |s| && WPlus(t) == WMinus(s) && WMinus(t) == WPlus(s)
            && W(t) == W(s) && Variance(t) == Variance(s)
  {
    NonZeroNegated(deltas);
    RanksNegated(NonZero(deltas));
  }

  lemma {:induction false} LevelBounds(s: seq<real>, a: real)
    ensures 0.0 <= SumOf(s, Level(a)) <= |s| as real
    ensures SumOf(s, Level(a)) == |s| as real <==> forall k :: 0 <= k < |s| ==> Abs(s[k]) == a
  {
    if s != [] {
      LevelBounds(s[..|s| - 1], a);
    }
  }

  /** All of the deltas tie in magnitude. */
  ghost predicate AllTied(s: seq<real>) {
    forall j, k :: 0 <= j < |s| && 0 <= k < |s| ==> Abs(s[j]) == Abs(s[k])
  }

  /** The most that c deltas can contribute when there are n in all. */
  function Bound(c: real, n: real): real {
    c * (Square(n) - 1.0)
  }

  lemma {:induction false} TieTermBound(over: seq<real>, s: seq<real>)
    ensures var n := |s| as real;
            SumOf(over, TieExcess(s)) <= Bound(|over| as real, n)
    ensures var n := |s| as real;
            SumOf(over, TieExcess(s)) == Bound(|over| as real, n)
            <==> forall j :: 0 <= j < |over| ==> SumOf(s, Level(Abs(over[j]))) == n
  {
    hide Square, Abs, Bound;
    BoundGrows(|over| as real - 1.0, |s| as real);
    if over != [] {
      var front, y := over[..|over| - 1], over[|over| - 1];
      var n, t := |s| as real, SumOf(s, Level(Abs(y)));
      TieTermBound(front, s);
      LevelBounds(s, Abs(y));
      Squares(n, t);
      assert |over| as real - 1.0 == |front| as real;
      assert TieExcess(s)(y) == Square(t) - 1.0;
      assert over == front + [y];
    }
  }

  lemma Squares(n: real, t: real)
    requires 0.0 <= t <= n
    ensures Square(t) <= Square(n) && (Square(t) == Square(n) <==> t == n)
  {
    if t < n {
      SquareGrows(t, n);
    }
  }

  lemma SquareGrows(t: real, n: real)
    requires 0.0 <= t < n
    ensures t * t < n * n
  {
    Positive(n - t, n + t);
  }

  lemma Positive(a: real, b: real)
    requires a > 0.0 && b > 0.0
    ensures a * b > 0.0
  {
  }

  lemma BoundGrows(c: real, n: real)
    ensures Bound(c + 1.0, n) == Bound(c, n) + (Square(n) - 1.0) && Bound(0.0, n) == 0.0
  {
  }

  /** The tie term is at most n^3 - n, and reaches it exactly when all magnitudes tie. */
  lemma TieTermIsBounded(s: seq<real>)
    ensures var n := |s| as real;
            TieTerm(s) <= n * (Square(n) - 1.0) && (TieTerm(s) == n * (Square(n) - 1.0) <==> AllTied(s))
  {
    hide TieExcess, Level, Square;
    TieTermBound(s, s);
    forall j | 0 <= j < |s|
      ensures SumOf(s, Level(Abs(s[j]))) == |s| as real <==> forall k :: 0 <= k < |s| ==> Abs(s[k]) == Abs(s[j])
    {
      LevelBounds(s, Abs(s[j]));
    }
  }

  /** Main result: the tie-corrected variance is at least n (n + 1)^2 / 16, with equality exactly
      when all magnitudes tie. The script's guard against a non-positive variance never fires. */
  lemma VarianceLowerBound(s: seq<real>)
    ensures var n := |s| as real;
            Variance(s) >= n * (n + 1.0) * (n + 1.0) / 16.0
    ensures var n := |s| as real;
            Variance(s) == n * (n + 1.0) * (n + 1.0) / 16.0 <==> AllTied(s)
    ensures s != [] ==> Variance(s) > 0.0
  {
    hide TieTerm, AllTied, Square, VarianceFrom;
    var n := |s| as real;
    TieTermIsBounded(s);
    VarianceAtBound(n);
    VarianceGap(n, TieTerm(s), n * (Square(n) - 1.0));
    if s != [] {
      assert n >= 1.0;
      Positive(n, n + 1.0);
      Positive(n * (n + 1.0), n + 1.0);
    }
  }

  lemma VarianceGap(n: real, left: real, right: real)
    ensures VarianceFrom(n, left) - VarianceFrom(n, right) == (right - left) / 48.0
  {
  }

  lemma VarianceAtBound(n: real)
    ensures VarianceFrom(n, n * (Square(n) - 1.0)) == n * (n + 1.0) * (n + 1.0) / 16.0
  {
    var u := n * n;
    assert n * (n + 1.0) == u + n;
    assert (u + n) * (2.0 * n + 1.0) == 2.0 * (u * n) + 3.0 * u + n;
    assert (u + n) * (n + 1.0) == u * n + 2.0 * u + n;
    assert n * (u - 1.0) == u * n - n;
  }
}
