/** The string operations the planner uses: code-point order, `sorted`, `join`, `split` and `lower`. */
module Strings {

  // ---- order ----

  /** Python's `<=` on strings: by code points, a prefix first. */
  predicate Leq(a: string, b: string) {
    a == "" || (b != "" && (a[0] < b[0] || (a[0] == b[0] && Leq(a[1..], b[1..]))))
  }

  /** A prefix comes first, and otherwise the first characters that differ decide. */
  lemma {:induction false} LeqIff(a: string, b: string)
    ensures Leq(a, b)
            <==> a <= b || exists k :: 0 <= k < |a| && k < |b| && a[..k] == b[..k] && a[k] < b[k]
  {
    if a != "" && b != "" && a[0] == b[0] {
      LeqIff(a[1..], b[1..]);
      if k :| 0 <= k < |a| - 1 && k < |b| - 1 && a[1..][..k] == b[1..][..k] && a[1..][k] < b[1..][k] {
        assert a[..k + 1] == [a[0]] + a[1..][..k] && b[..k + 1] == [b[0]] + b[1..][..k];
        assert a[k + 1] < b[k + 1];
      }
      if k :| 0 <= k < |a| && k < |b| && a[..k] == b[..k] && a[k] < b[k] {
        assert k > 0 && a[1..][..k - 1] == a[..k][1..] && b[1..][..k - 1] == b[..k][1..];
        assert a[1..][k - 1] < b[1..][k - 1];
      }
      assert a <= b <==> a[1..] <= b[1..];
    } else if a != "" && b != "" {
      assert a[..0] == b[..0];
      forall k | 0 < k < |a| && k < |b|
        ensures a[..k] != b[..k]
      {
        assert a[..k][0] != b[..k][0];
      }
    }
  }

  lemma {:induction false} LeqTotal(a: string, b: string)
    ensures Leq(a, b) || Leq(b, a)
  {
    if a != "" && b != "" {
      LeqTotal(a[1..], b[1..]);
    }
  }

  lemma {:induction false} LeqAntisymmetric(a: string, b: string)
    requires Leq(a, b) && Leq(b, a)
    ensures a == b
  {
    if a != "" {
      LeqAntisymmetric(a[1..], b[1..]);
      assert a == [a[0]] + a[1..] && b == [b[0]] + b[1..];
    }
  }

  lemma {:induction false} LeqTransitive(a: string, b: string, c: string)
    requires Leq(a, b) && Leq(b, c)
    ensures Leq(a, c)
  {
    if a != "" && a[0] == b[0] == c[0] {
      LeqTransitive(a[1..], b[1..], c[1..]);
    }
  }

  predicate IsLeast(m: string, s: set<string>) {
    m in s && forall x :: x in s ==> Leq(m, x)
  }

  lemma {:induction false} LeastExists(s: set<string>)
    requires s != {}
    ensures exists m :: IsLeast(m, s)
  {
    var x :| x in s;
    var rest := s - {x};
    LeqTotal(x, x);
    if rest == {} {
      assert s == {x};
      assert IsLeast(x, s);
    } else {
      LeastExists(rest);
      var m :| IsLeast(m, rest);
      LeqTotal(x, m);
      if Leq(x, m) {
        forall y | y in s
          ensures Leq(x, y)
        {
          if y != x {
            LeqTransitive(x, m, y);
          }
        }
        assert IsLeast(x, s);
      } else {
        assert IsLeast(m, s);
      }
    }
  }

  lemma LeastUnique(s: set<string>)
    ensures forall m, n :: IsLeast(m, s) && IsLeast(n, s) ==> m == n
  {
    forall m, n | IsLeast(m, s) && IsLeast(n, s)
      ensures m == n
    {
      LeqAntisymmetric(m, n);
    }
  }

  /** Strictly increasing. */
  predicate Ascending(r: seq<string>) {
    forall i, j :: 0 <= i < j < |r| ==> Leq(r[i], r[j]) && r[i] != r[j]
  }

  lemma LeastFirst(m: string, rest: seq<string>, s: set<string>)
    requires IsLeast(m, s) && Ascending(rest) && forall x :: x in rest ==> x in s && x != m
    ensures Ascending([m] + rest)
  {
    hide Leq;
    var r := [m] + rest;
    forall i, j | 0 <= i < j < |r| ensures Leq(r[i], r[j]) && r[i] != r[j] {
      assert r[j] == rest[j - 1] && rest[j - 1] in rest;
    }
  }

  /** `sorted` of a set of strings. */
  function Sorted(s: set<string>): (r: seq<string>)
    ensures forall x :: x in r <==> x in s
    ensures |r| == |s|
    ensures Ascending(r)
  {
    if s == {} then []
    else
      LeastExists(s);
      LeastUnique(s);
      var m :| m in s && IsLeast(m, s);
      var rest := Sorted(s - {m});
      LeastFirst(m, rest, s);
      [m] + rest
  }

  // ---- joining and splitting ----

  function Join(parts: seq<string>, sep: string): string {
    if parts == [] then ""
    else if |parts| == 1 then parts[0]
    else parts[0] + sep + Join(parts[1..], sep)
  }

  predicate StartsWith(s: string, prefix: string) {
    prefix <= s
  }

  predicate EndsWith(s: string, suffix: string) {
    |suffix| <= |s| && s[|s| - |suffix|..] == suffix
  }

  /** The first position from `from` on where sep occurs, |s| if there is none. */
  function Find(s: string, sep: string, from: nat): (p: nat)
    requires sep != "" && from <= |s|
    ensures from <= p <= |s|
    ensures p < |s| ==> sep <= s[p..]
    ensures forall k :: from <= k < p ==> !(sep <= s[k..])
    decreases |s| - from
  {
    if from == |s| || sep <= s[from..] then from else Find(s, sep, from + 1)
  }

  /** `s.split(sep)` */
  function Split(s: string, sep: string): (parts: seq<string>)
    requires sep != ""
    ensures parts != []
    decreases |s|
  {
    var p := Find(s, sep, 0);
    if p == |s| then [s] else [s[..p]] + Split(s[p + |sep|..], sep)
  }

  /** Joining what was split gives the string back. */
  lemma {:induction false} SplitJoin(s: string, sep: string)
    requires sep != ""
    ensures Join(Split(s, sep), sep) == s
    decreases |s|
  {
    var p := Find(s, sep, 0);
    if p < |s| {
      SplitJoin(s[p + |sep|..], sep);
      assert s == s[..p] + sep + s[p + |sep|..];
    }
  }

  lemma FindsSeparator(first: string, sep: string, rest: string, mark: nat)
    requires mark < |sep| && sep[mark] !in first
    requires forall i :: 0 <= i < |sep| && i != mark ==> sep[i] != sep[mark]
    ensures Find(first + sep + rest, sep, 0) == |first|
  {
    var s := first + sep + rest;
    assert s[|first|..] == sep + rest;
    forall k | 0 <= k < |first|
      ensures !(sep <= s[k..])
    {
      assert k + mark < |s| ==> s[k..][mark] == s[k + mark];
    }
  }

  lemma FindsNothing(s: string, sep: string, mark: nat)
    requires mark < |sep| && sep[mark] !in s
    ensures Find(s, sep, 0) == |s|
  {
    forall k | 0 <= k < |s|
      ensures !(sep <= s[k..])
    {
      assert k + mark < |s| ==> s[k..][mark] == s[k + mark];
    }
  }

  /** Splitting what was joined gives the parts back, when a character of the separator occurs
      in none of them and only once in the separator. */
  lemma {:induction false} JoinSplit(parts: seq<string>, sep: string, mark: nat)
    requires parts != [] && mark < |sep|
    requires forall i :: 0 <= i < |sep| && i != mark ==> sep[i] != sep[mark]
    requires forall i :: 0 <= i < |parts| ==> sep[mark] !in parts[i]
    ensures Split(Join(parts, sep), sep) == parts
  {
    hide Find;
    var s := Join(parts, sep);
    if |parts| == 1 {
      FindsNothing(s, sep, mark);
    } else {
      var first, rest := parts[0], Join(parts[1..], sep);
      FindsSeparator(first, sep, rest, mark);
      assert s == first + sep + rest;
      assert s[..|first|] == first && s[|first| + |sep|..] == rest;
      JoinSplit(parts[1..], sep, mark);
      assert parts == [first] + parts[1..];
    }
  }

  /** What a split leaves between separators of one character does not contain it. */
  lemma {:induction false} PartsLackSeparator(s: string, c: char)
    ensures forall i :: 0 <= i < |Split(s, [c])| ==> c !in Split(s, [c])[i]
    decreases |s|
  {
    var p := Find(s, [c], 0);
    forall k | 0 <= k < p
      ensures s[k] != c
    {
      assert !([c] <= s[k..]);
    }
    if p < |s| {
      PartsLackSeparator(s[p + 1..], c);
    }
  }

  // ---- case ----

  function LowerChar(c: char): char {
    if 'A' <= c <= 'Z' then c + ' ' else c
  }

  function Lower(s: string): (r: string)
    ensures |r| == |s|
    ensures forall i :: 0 <= i < |s| ==> r[i] == LowerChar(s[i])
  {
    seq(|s|, i requires 0 <= i < |s| => LowerChar(s[i]))
  }
}
