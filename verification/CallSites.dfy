/**
 The call pattern of scripts/m5-reader-sweep.py (`CALL`): a name, perhaps white space, and an
 opening parenthesis, found from left to right over a whole file.
 */
module CallSites {
  import opened Wrappers
  import opened CallIndex
  import opened Declarations

  predicate StartsName(c: char) {
    'A' <= c <= 'Z' || 'a' <= c <= 'z' || c == '_'
  }

  /** `\b([A-Za-z_]\w*)\s*\(` at i: the name and where the match ends. */
  function CallAt(cls: Classes, s: string, i: nat): (r: Option<(string, nat)>)
    ensures r.Some? ==> i < r.value.1 <= |s|
  {
    if i >= |s| || !StartsName(s[i]) || (i > 0 && cls.word(s[i - 1])) then None
    else
      var name := i + Run(cls.word, s, i);
      var end := name + Run(cls.space, s, name);
      if i == name || end == |s| || s[end] != '(' then None else Some((s[i..name], end + 1))
  }

  /** `re.finditer` */
  function FindCalls(cls: Classes, s: string, i: nat): seq<Call>
    requires i <= |s|
    decreases |s| - i
  {
    if i == |s| then []
    else
      match CallAt(cls, s, i)
      case Some((name, end)) => [Call(name, i)] + FindCalls(cls, s, end)
      case None => FindCalls(cls, s, i + 1)
  }

  /** No match starts inside another. */
  lemma NoOverlap(cls: Classes, s: string, i: nat, p: nat)
    requires cls.Valid() && !cls.word('(') && (forall c :: StartsName(c) ==> cls.word(c))
    requires CallAt(cls, s, i).Some? && i < p < CallAt(cls, s, i).value.1
    ensures CallAt(cls, s, p) == None
  {
    var name := i + Run(cls.word, s, i);
    var end := name + Run(cls.space, s, name);
    if p < name {
      assert cls.word(s[p - 1]);
    } else if p < end {
      assert cls.space(s[p]);
    } else {
      assert s[p] == '(';
    }
  }

  /** Main result: the calls found are exactly the matches of the pattern, none is passed over. */
  lemma {:induction false} CallsAreMatches(cls: Classes, s: string, i: nat, c: Call)
    requires cls.Valid() && !cls.word('(') && (forall c :: StartsName(c) ==> cls.word(c))
    requires i <= |s|
    ensures c in FindCalls(cls, s, i)
            <==> i <= c.offset && CallAt(cls, s, c.offset).Some? && CallAt(cls, s, c.offset).value.0 == c.name
    decreases |s| - i
  {
    hide CallAt;
    if i < |s| {
      match CallAt(cls, s, i)
      case None => CallsAreMatches(cls, s, i + 1, c);
      case Some((name, end)) =>
        CallsAreMatches(cls, s, end, c);
        if i < c.offset < end {
          NoOverlap(cls, s, i, c.offset);
        }
    } else {
      PastTheEnd(cls, s, c.offset);
    }
  }

  lemma PastTheEnd(cls: Classes, s: string, i: nat)
    ensures i >= |s| ==> CallAt(cls, s, i) == None
  {
  }
}
