/**
 * Publishing one crate against a registry that may answer anything
 * (scripts/publish-crate.py). The registry and the upload tool are two functions of
 * the whole history, so they cover every sequence of probe answers, probe errors and
 * upload outcomes, including ones that react to what the script does.
 */
module CratePublish {
  import opened Wrappers
  import opened Strings

  const FAILURE_POLL_ATTEMPTS: int := 12
  const SUCCESS_POLL_ATTEMPTS: int := 6

  datatype Answer = Present | Absent | ProbeFailed
  datatype Upload = Exited(status: int) | NoStatus
  datatype Event = Probed(answer: Answer) | Uploaded(upload: Upload) | Slept

  datatype PublishError =
    | BadName | BadVersion | PreCheckFailed | TokenMissing | InvalidStatus | NoAttempts | NeverVisible

  type History = seq<Event>
  type Status = Result<int, PublishError>

  datatype Request = Request(name: string, version: string, token: string, failurePolls: int, successPolls: int)

  // ---- the inputs ----

  predicate IsLetter(c: char) {
    'a' <= c <= 'z' || 'A' <= c <= 'Z'
  }

  predicate IsNameChar(c: char) {
    IsLetter(c) || '0' <= c <= '9' || c == '_' || c == '-'
  }

  predicate ValidName(name: string) {
    1 <= |name| <= 64 && IsLetter(name[0]) && forall i :: 1 <= i < |name| ==> IsNameChar(name[i])
  }

  /** The characters Python's `str.isspace` accepts, and the control characters. */
  predicate IsSpaceOrControl(c: char) {
    var n := c as int;
    n <= 0x20 || n == 0x85 || n == 0xA0 || n == 0x1680 || 0x2000 <= n <= 0x200A
    || n == 0x2028 || n == 0x2029 || n == 0x202F || n == 0x205F || n == 0x3000
  }

  predicate ValidVersion(version: string) {
    1 <= |version| <= 128 && forall i :: 0 <= i < |version| ==> !IsSpaceOrControl(version[i])
  }

  /** By ASCII code. */
  predicate IsAsciiLetter(c: char) {
    65 <= c as int <= 90 || 97 <= c as int <= 122
  }

  /** A crate name is a letter and at most 63 letters, digits, `_` (95) and `-` (45). */
  lemma ValidNameIff(name: string)
    ensures ValidName(name)
            <==> && name != "" && |name| <= 64 && IsAsciiLetter(name[0])
                 && forall c :: c in name[1..] ==>
                      IsAsciiLetter(c) || 48 <= c as int <= 57 || c as int == 95 || c as int == 45
  {
    forall c
      ensures IsLetter(c) <==> IsAsciiLetter(c)
      ensures IsNameChar(c) <==> IsAsciiLetter(c) || 48 <= c as int <= 57 || c as int == 95 || c as int == 45
    {
      CodeIs(c);
    }
    if name != "" {
      assert forall i :: 1 <= i < |name| ==> name[i] == name[1..][i - 1];
    }
  }

  lemma CodeIs(c: char)
    ensures c == '_' <==> c as int == 95
    ensures c == '-' <==> c as int == 45
  {
    assert c == (c as int) as char;
  }

  /** The white space of Unicode above ASCII, one by one. */
  const WIDE_SPACES: set<int> := {
    0x85, 0xA0, 0x1680, 0x2000, 0x2001, 0x2002, 0x2003, 0x2004, 0x2005, 0x2006, 0x2007, 0x2008, 0x2009, 0x200A,
    0x2028, 0x2029, 0x202F, 0x205F, 0x3000 }

  /** A version is 1 to 128 characters, none of them white space or a control character. */
  lemma ValidVersionIff(version: string)
    ensures ValidVersion(version)
            <==> && 0 < |version| < 129
                 && forall c :: c in version ==> c as int > 32 && c as int !in WIDE_SPACES
  {
    assert forall c: char :: IsSpaceOrControl(c) <==> c as int <= 32 || c as int in WIDE_SPACES;
    assert forall i :: 0 <= i < |version| ==> version[i] in version;
  }

  // ---- what one probe reads ----

  /** `sparse_index_path` */
  function SparseIndexPath(name: string): Result<string, PublishError> {
    if !ValidName(name) then Failure(BadName)
    else
      var n := Lower(name);
      Success(
        if |n| == 1 then "1/" + n
        else if |n| == 2 then "2/" + n
        else if |n| == 3 then "3/" + n[..1] + "/" + n
        else n[..2] + "/" + n[2..4] + "/" + n)
  }

  /** Two crates share an index file exactly when their names differ in letter case only, so the
      exact spelling has to be compared record by record. */
  lemma PathsShareOnlyCase(a: string, b: string)
    requires ValidName(a) && ValidName(b)
    ensures SparseIndexPath(a) == SparseIndexPath(b) <==> Lower(a) == Lower(b)
  {
    var p, q := SparseIndexPath(a).value, SparseIndexPath(b).value;
    assert p[|p| - |a|..] == Lower(a);
    assert q[|q| - |b|..] == Lower(b);
  }

  lemma NoSlash(name: string)
    requires ValidName(name)
    ensures '/' !in Lower(name)
  {
    assert forall k :: 0 <= k < |name| ==> IsNameChar(name[k]);
  }

  /** The directories of an index file: `1`, `2`, `3` and the first letter, or the first two pairs of
      letters, then the lower-case name itself. */
  lemma IndexPathParts(name: string)
    requires ValidName(name)
    ensures var n := Lower(name);
            Split(SparseIndexPath(name).value, "/")
            == match |n|
               case 1 => ["1", n]
               case 2 => ["2", n]
               case 3 => ["3", [n[0]], n]
               case _ => [[n[0], n[1]], [n[2], n[3]], n]
  {
    hide ValidName, Split, Join;
    var n := Lower(name);
    NoSlash(name);
    assert |name| >= 1 by { NameIsNotEmpty(name); }
    if |n| <= 2 {
      var first := if |n| == 1 then "1" else "2";
      assert "1" + "/" == "1/" && "2" + "/" == "2/";
      JoinTwo(first, n);
      JoinSplit([first, n], "/", 0);
    } else if |n| == 3 {
      JoinThree("3", [n[0]], n);
      assert n[..1] == [n[0]] && "3" + "/" == "3/";
      assert SparseIndexPath(name).value == "3/" + n[..1] + "/" + n;
      JoinSplit(["3", [n[0]], n], "/", 0);
    } else {
      JoinThree([n[0], n[1]], [n[2], n[3]], n);
      assert n[..2] == [n[0], n[1]] && n[2..4] == [n[2], n[3]];
      JoinSplit([[n[0], n[1]], [n[2], n[3]], n], "/", 0);
    }
  }

  lemma NameIsNotEmpty(name: string)
    requires ValidName(name)
    ensures |name| >= 1
  {
  }

  lemma JoinTwo(a: string, b: string)
    ensures Join([a, b], "/") == a + "/" + b
  {
    assert [a, b][1..] == [b];
  }

  lemma JoinThree(a: string, b: string, c: string)
    ensures Join([a, b, c], "/") == a + "/" + b + "/" + c
  {
    JoinTwo(b, c);
    assert [a, b, c][1..] == [b, c];
  }

  lemma AnIndexPath()
    ensures SparseIndexPath("Ab") == Success("2/ab")
  {
    assert ValidName("Ab");
    assert LowerChar('A') == 'a' && LowerChar('b') == 'b';
    assert Lower("Ab") == "ab" && "2/" + "ab" == "2/ab";
  }

  /** One line of an index file, as the JSON library reads it. */
  datatype Line = Blank | Malformed | Record(name: string, version: string)

  /** `sparse_index_contains`, over the lines the body splits into; None is a PublishError. */
  method SparseIndexContains(lines: seq<Line>, name: string, version: string) returns (r: Option<bool>)
    requires ValidName(name) && ValidVersion(version)
    ensures r == Some(true) <==>
      exists i :: 0 <= i < |lines| && lines[i] == Record(name, version) && Malformed !in lines[..i]
    ensures r == None <==>
      exists i :: 0 <= i < |lines| && lines[i] == Malformed && Record(name, version) !in lines[..i]
    ensures r == Some(false) <==> Malformed !in lines && Record(name, version) !in lines
  {
    for n := 0 to |lines|
      invariant Malformed !in lines[..n] && Record(name, version) !in lines[..n]
    {
      match lines[n] {
        case Blank =>
        case Malformed => return None;
        case Record(foundName, foundVersion) =>
          if foundName == name && foundVersion == version {
            return Some(true);
          }
      }
      assert lines[..n + 1] == lines[..n] + [lines[n]];
    }
    r := Some(false);
  }

  // ---- the protocol as a function of the registry ----

  /** `_poll_for_exact_version` after its guard: what happens from attempt `attempt` on. */
  function PollFrom(probe: History -> Answer, history: History, attempt: nat, attempts: nat): (r: (bool, History))
    requires 1 <= attempt <= attempts
    ensures history <= r.1
    decreases attempts - attempt
  {
    var a := probe(history);
    var seen := history + [Probed(a)];
    if a.Present? then (true, seen)
    else if attempt == attempts then (false, seen)
    else PollFrom(probe, seen + [Slept], attempt + 1, attempts)
  }

  /** The whole run: its result and the history it leaves. */
  function Run(probe: History -> Answer, upload: History -> Upload, history: History, request: Request)
    : (r: (Status, History))
    ensures history <= r.1
  {
    if !ValidName(request.name) then (Failure(BadName), history)
    else if !ValidVersion(request.version) then (Failure(BadVersion), history)
    else
      var first := probe(history);
      var checked := history + [Probed(first)];
      if first.ProbeFailed? then (Failure(PreCheckFailed), checked)
      else if first.Present? then (Success(0), checked)
      else if request.token == "" then (Failure(TokenMissing), checked)
      else
        var outcome := upload(checked);
        var sent := checked + [Uploaded(outcome)];
        if outcome.NoStatus? then (Failure(InvalidStatus), sent)
        else
          var polls := if outcome.status != 0 then request.failurePolls else request.successPolls;
          if polls < 1 then (Failure(NoAttempts), sent)
          else
            var (visible, end) := PollFrom(probe, sent, 1, polls);
            if visible then (Success(0), end)
            else if outcome.status != 0 then (Success(outcome.status), end)
            else (Failure(NeverVisible), end)
  }

  // ---- the script ----

  /** The outside world: it answers, and it remembers everything that was done to it. */
  class World {
    const probe: History -> Answer
    const upload: History -> Upload
    var history: History

    constructor (probe: History -> Answer, upload: History -> Upload)
      ensures this.probe == probe && this.upload == upload && history == []
    {
      this.probe, this.upload, this.history := probe, upload, [];
    }

    method Probe() returns (a: Answer)
      modifies this`history
      ensures a == probe(old(history)) && history == old(history) + [Probed(a)]
    {
      a := probe(history);
      history := history + [Probed(a)];
    }

    method RunCargo() returns (u: Upload)
      modifies this`history
      ensures u == upload(old(history)) && history == old(history) + [Uploaded(u)]
    {
      u := upload(history);
      history := history + [Uploaded(u)];
    }

    method Sleep()
      modifies this`history
      ensures history == old(history) + [Slept]
    {
      history := history + [Slept];
    }

    /** `_poll_for_exact_version` */
    method PollForExactVersion(attempts: int) returns (r: Result<bool, PublishError>)
      modifies this`history
      ensures attempts < 1 ==> r == Failure(NoAttempts) && history == old(history)
      ensures attempts >= 1 ==> r.Success? && (r.value, history) == PollFrom(probe, old(history), 1, attempts)
    {
      if attempts < 1 {
        return Failure(NoAttempts);
      }
      var attempt := 1;
      while attempt <= attempts
        invariant 1 <= attempt <= attempts + 1
        invariant attempt <= attempts ==>
          PollFrom(probe, old(history), 1, attempts) == PollFrom(probe, history, attempt, attempts)
        invariant attempt == attempts + 1 ==> (false, history) == PollFrom(probe, old(history), 1, attempts)
      {
        var a := Probe();
        if a.Present? {
          return Success(true);
        }
        if attempt < attempts {
          Sleep();
        }
        attempt := attempt + 1;
      }
      r := Success(false);
    }

    /** `publish_crate` */
    method PublishCrate(request: Request) returns (r: Status)
      modifies this`history
      ensures (r, history) == Run(probe, upload, old(history), request)
    {
      if !ValidName(request.name) {
        return Failure(BadName);
      }
      if !ValidVersion(request.version) {
        return Failure(BadVersion);
      }
      var already := Probe();
      if already.ProbeFailed? {
        return Failure(PreCheckFailed);
      }
      if already.Present? {
        return Success(0);
      }
      if request.token == "" {
        return Failure(TokenMissing);
      }
      var result := RunCargo();
      if result.NoStatus? {
        return Failure(InvalidStatus);
      }
      if result.status != 0 {
        var reached :- PollForExactVersion(request.failurePolls);
        return Success(if reached then 0 else result.status);
      }
      var visible :- PollForExactVersion(request.successPolls);
      r := if visible then Success(0) else Failure(NeverVisible);
    }
  }

  // ---- what a poll leaves behind ----

  /** Probes at the even places with one sleep between two of them, no probe but the
      last seeing the version; a poll that saw nothing used up every attempt. */
  predicate IsPoll(t: History, attempts: nat, visible: bool) {
    && |t| % 2 == 1 && |t| < 2 * attempts
    && (forall i :: 0 <= i < |t| ==> if i % 2 == 0 then t[i].Probed? else t[i].Slept?)
    && (forall i :: 0 <= i < |t| - 1 ==> t[i] != Probed(Present))
    && (visible <==> t[|t| - 1] == Probed(Present))
    && (!visible ==> |t| == 2 * attempts - 1)
  }

  /** The registry and the upload tool answered, one after the other, what `t` records. */
  ghost predicate Answered(probe: History -> Answer, upload: History -> Upload, history: History, t: History) {
    forall i :: 0 <= i < |t| ==> AnsweredAt(probe, upload, history, t, i)
  }

  predicate AnsweredAt(probe: History -> Answer, upload: History -> Upload, history: History, t: History, i: nat)
    requires i < |t|
  {
    match t[i]
    case Probed(a) => a == probe(history + t[..i])
    case Uploaded(u) => u == upload(history + t[..i])
    case Slept => true
  }

  lemma AnsweredSplits(probe: History -> Answer, upload: History -> Upload, history: History, head: History,
                       tail: History)
    ensures Answered(probe, upload, history, head + tail)
       <==> Answered(probe, upload, history, head) && Answered(probe, upload, history + head, tail)
  {
    var t := head + tail;
    forall i | 0 <= i < |t|
      ensures AnsweredAt(probe, upload, history, t, i)
         <==> if i < |head| then AnsweredAt(probe, upload, history, head, i)
              else AnsweredAt(probe, upload, history + head, tail, i - |head|)
    {
      if i < |head| {
        assert t[..i] == head[..i];
      } else {
        assert history + t[..i] == history + head + tail[..i - |head|];
      }
    }
    if Answered(probe, upload, history, t) {
      forall i | 0 <= i < |head| ensures AnsweredAt(probe, upload, history, head, i) {
        assert AnsweredAt(probe, upload, history, t, i);
      }
      forall i | 0 <= i < |tail| ensures AnsweredAt(probe, upload, history + head, tail, i) {
        assert AnsweredAt(probe, upload, history, t, |head| + i);
      }
    }
  }

  /** One step of the shape. */
  lemma ShapeUnfolds(t: History, a: Answer, attempts: nat, visible: bool)
    requires t != [] && t[0] == Probed(a) && attempts >= 1
    ensures IsPoll(t, attempts, visible)
       <==> if a.Present? || attempts == 1 then t == [Probed(a)] && visible == a.Present?
            else |t| >= 2 && t[1] == Slept && IsPoll(t[2..], attempts - 1, visible)
  {
    if !a.Present? && attempts > 1 && |t| >= 2 && t[1] == Slept {
      var s := t[2..];
      if IsPoll(s, attempts - 1, visible) {
        forall i | 0 <= i < |t|
          ensures (if i % 2 == 0 then t[i].Probed? else t[i].Slept?) && (i < |t| - 1 ==> t[i] != Probed(Present))
        {
          if i >= 2 { assert s[i - 2] == t[i]; }
        }
      }
      if IsPoll(t, attempts, visible) {
        forall i | 0 <= i < |s| ensures if i % 2 == 0 then s[i].Probed? else s[i].Slept? {
          assert s[i] == t[i + 2];
        }
      }
    }
  }

  /** One step of the poll. */
  lemma PollUnfolds(probe: History -> Answer, history: History, attempt: nat, attempts: nat, t: History, visible: bool)
    requires 1 <= attempt <= attempts
    ensures PollFrom(probe, history, attempt, attempts) == (visible, history + t)
       <==> t != [] && t[0] == Probed(probe(history))
            && if t[0] == Probed(Present) || attempt == attempts then |t| == 1 && visible == (t[0] == Probed(Present))
               else |t| >= 2 && t[1] == Slept
                    && PollFrom(probe, history + t[..2], attempt + 1, attempts) == (visible, history + t[..2] + t[2..])
  {
    var a := probe(history);
    assert (history + t)[|history|..] == t;
    assert (history + [Probed(a)])[|history|..] == [Probed(a)];
    assert |t| == 1 && t[0] == Probed(a) ==> t == [Probed(a)];
    if !a.Present? && attempt < attempts {
      var next := history + [Probed(a)] + [Slept];
      assert next[|history|..] == [Probed(a), Slept];
      if PollFrom(probe, history, attempt, attempts) == (visible, history + t) {
        assert next <= history + t;
        assert t[..2] == (history + t)[|history|..|history| + 2] == [Probed(a), Slept];
      }
      if |t| >= 2 {
        assert history + t[..2] + t[2..] == history + t;
        if t[..2] == [Probed(a), Slept] { assert history + t[..2] == next; }
      }
    }
  }

  /** The first answer of a history that begins with a probe. */
  lemma FirstAnswer(probe: History -> Answer, upload: History -> Upload, history: History, t: History)
    requires t != [] && t[0].Probed?
    ensures Answered(probe, upload, history, t) ==> t[0] == Probed(probe(history))
    ensures Answered(probe, upload, history, t[..1]) <==> t[0] == Probed(probe(history))
  {
    assert history + t[..0] == history + t[..1][..0] == history;
    if Answered(probe, upload, history, t) { assert AnsweredAt(probe, upload, history, t, 0); }
    if Answered(probe, upload, history, t[..1]) { assert AnsweredAt(probe, upload, history, t[..1], 0); }
  }

  lemma SleepIsAnswered(probe: History -> Answer, upload: History -> Upload, history: History)
    ensures Answered(probe, upload, history, [Slept])
  {
  }

  /** A poll that starts at `history` does `t` and reports `visible` exactly when `t` has the
      shape of a poll and records the registry's answers. */
  lemma {:induction false} PollIsExact(probe: History -> Answer, upload: History -> Upload, history: History,
                                       attempt: nat, attempts: nat, t: History, visible: bool)
    requires 1 <= attempt <= attempts
    ensures PollFrom(probe, history, attempt, attempts) == (visible, history + t)
       <==> IsPoll(t, attempts - attempt + 1, visible) && Answered(probe, upload, history, t)
    decreases attempts - attempt
  {
    hide PollFrom, Answered;
    PollUnfolds(probe, history, attempt, attempts, t, visible);
    if t != [] && t[0].Probed? {
      hide IsPoll;
      var a := t[0].answer;
      FirstAnswer(probe, upload, history, t);
      ShapeUnfolds(t, a, attempts - attempt + 1, visible);
      assert t == [t[0]] ==> t[..1] == t;
      if !a.Present? && attempt < attempts && |t| >= 2 && t[1] == Slept {
        assert t == t[..2] + t[2..] && t[..2] == t[..1] + [Slept];
        PollIsExact(probe, upload, history + t[..2], attempt + 1, attempts, t[2..], visible);
        AnsweredSplits(probe, upload, history, t[..2], t[2..]);
        AnsweredSplits(probe, upload, history, t[..1], [Slept]);
        SleepIsAnswered(probe, upload, history + t[..1]);
      }
    }
  }

  // ---- what a run leaves behind ----

  predicate Accepted(q: Request) {
    ValidName(q.name) && ValidVersion(q.version)
  }

  /** The run asked first, was told "absent", had a token, and called cargo once. */
  predicate Sent(q: Request, t: History, u: Upload) {
    Accepted(q) && q.token != "" && |t| >= 2 && t[0] == Probed(Absent) && t[1] == Uploaded(u)
  }

  predicate SentAndPolled(q: Request, t: History, status: int, visible: bool) {
    var polls := if status != 0 then q.failurePolls else q.successPolls;
    Sent(q, t, Exited(status)) && polls >= 1 && IsPoll(t[2..], polls, visible)
  }

  /** What each result says about what happened, result by result. */
  predicate IsRun(q: Request, t: History, r: Status) {
    match r
    case Failure(BadName) => !ValidName(q.name) && t == []
    case Failure(BadVersion) => ValidName(q.name) && !ValidVersion(q.version) && t == []
    case Failure(PreCheckFailed) => Accepted(q) && t == [Probed(ProbeFailed)]
    case Failure(TokenMissing) => Accepted(q) && q.token == "" && t == [Probed(Absent)]
    case Failure(InvalidStatus) => Sent(q, t, NoStatus) && |t| == 2
    case Failure(NoAttempts) =>
      |t| == 2 && t[1].Uploaded? && Sent(q, t, t[1].upload) && t[1].upload.Exited?
      && (if t[1].upload.status != 0 then q.failurePolls else q.successPolls) < 1
    case Failure(NeverVisible) => SentAndPolled(q, t, 0, false)
    case Success(n) =>
      if n != 0 then SentAndPolled(q, t, n, false)
      else
        || (Accepted(q) && t == [Probed(Present)])
        || (|t| >= 2 && t[1].Uploaded? && t[1].upload.Exited? && SentAndPolled(q, t, t[1].upload.status, true))
  }

  /** A run that did not reach cargo. */
  lemma RunBeforeUpload(probe: History -> Answer, upload: History -> Upload, history: History, q: Request, t: History,
                        r: Status)
    requires !(Accepted(q) && q.token != "" && probe(history) == Absent)
    ensures Run(probe, upload, history, q) == (r, history + t)
       <==> IsRun(q, t, r) && Answered(probe, upload, history, t)
  {
    hide ValidName, ValidVersion, IsPoll, Answered;
    assert (history + t)[|history|..] == t;
    assert history + [] == history;
    NothingIsAnswered(probe, upload, history);
    if Accepted(q) {
      var one := [Probed(probe(history))];
      assert (history + one)[|history|..] == one;
      if t != [] && t[0].Probed? {
        FirstAnswer(probe, upload, history, t);
        assert |t| == 1 ==> t[..1] == t && t == [t[0]];
      }
    }
  }

  lemma NothingIsAnswered(probe: History -> Answer, upload: History -> Upload, history: History)
    ensures Answered(probe, upload, history, [])
  {
  }

  lemma TwoAnswers(probe: History -> Answer, upload: History -> Upload, history: History, t: History)
    requires |t| >= 2 && t[0].Probed? && t[1].Uploaded?
    ensures Answered(probe, upload, history, t)
       <==> t[0] == Probed(probe(history)) && t[1] == Uploaded(upload(history + t[..1]))
            && Answered(probe, upload, history + t[..2], t[2..])
  {
    assert t == t[..2] + t[2..] && t[..2] == t[..1] + t[1..2];
    AnsweredSplits(probe, upload, history, t[..2], t[2..]);
    AnsweredSplits(probe, upload, history, t[..1], t[1..2]);
    FirstAnswer(probe, upload, history, t);
    var h := history + t[..1];
    assert h + t[1..2][..0] == h;
    assert Answered(probe, upload, h, t[1..2]) <==> AnsweredAt(probe, upload, h, t[1..2], 0);
  }

  /** A run that called cargo. */
  lemma RunAfterUpload(probe: History -> Answer, upload: History -> Upload, history: History, q: Request, t: History,
                       r: Status)
    requires Accepted(q) && q.token != "" && probe(history) == Absent
    ensures Run(probe, upload, history, q) == (r, history + t)
       <==> IsRun(q, t, r) && Answered(probe, upload, history, t)
  {
    hide ValidName, ValidVersion, IsPoll, Answered, PollFrom;
    var checked := history + [Probed(Absent)];
    var u := upload(checked);
    var sent := checked + [Uploaded(u)];
    assert (history + t)[|history|..] == t;
    assert sent[|history|..] == [Probed(Absent), Uploaded(u)];
    if Run(probe, upload, history, q) == (r, history + t) {
      assert sent <= history + t;
      assert t[..2] == (history + t)[|history|..|history| + 2] == sent[|history|..];
      assert t[0] == t[..2][0] && t[1] == t[..2][1];
    }
    if t != [] && t[0].Probed? { FirstAnswer(probe, upload, history, t); }
    if |t| >= 2 && t[0] == Probed(Absent) && t[1].Uploaded? {
      TwoAnswers(probe, upload, history, t);
      assert t[..1] == [t[0]] && t[..2] == [t[0], t[1]];
      assert history + t[..2] == history + t[..1] + [t[1]];
      assert history + t == history + t[..2] + t[2..];
      if t[1] == Uploaded(u) && u.Exited? {
        assert history + t[..2] == sent;
        var polls := if u.status != 0 then q.failurePolls else q.successPolls;
        if polls >= 1 {
          var v := PollFrom(probe, sent, 1, polls).0;
          PollIsExact(probe, upload, sent, 1, polls, t[2..], true);
          PollIsExact(probe, upload, sent, 1, polls, t[2..], false);
        } else {
          NothingIsAnswered(probe, upload, sent);
          assert history + t == sent <==> t[2..] == [];
        }
      } else {
        NothingIsAnswered(probe, upload, sent);
        assert |t| == 2 ==> t[2..] == [] && t[..2] == t;
      }
    }
  }

  /** Main result: against any registry and any upload tool, a run does `t` and ends with `r`
      exactly when `t` and `r` belong together and `t` records what the world answered. */
  lemma RunsAreExact(probe: History -> Answer, upload: History -> Upload, history: History, q: Request, t: History,
                     r: Status)
    ensures Run(probe, upload, history, q) == (r, history + t)
       <==> IsRun(q, t, r) && Answered(probe, upload, history, t)
  {
    if Accepted(q) && q.token != "" && probe(history) == Absent {
      RunAfterUpload(probe, upload, history, q, t, r);
    } else {
      RunBeforeUpload(probe, upload, history, q, t, r);
    }
  }

  // ---- what the exact runs mean ----

  /** What the call to `publish_crate` that starts at `history` does, and how it ends. */
  function Outcome(probe: History -> Answer, upload: History -> Upload, history: History, q: Request): Status {
    Run(probe, upload, history, q).0
  }

  function Done(probe: History -> Answer, upload: History -> Upload, history: History, q: Request): (t: History) {
    Run(probe, upload, history, q).1[|history|..]
  }

  lemma DoneIsRun(probe: History -> Answer, upload: History -> Upload, history: History, q: Request)
    ensures var t := Done(probe, upload, history, q);
            && Run(probe, upload, history, q).1 == history + t && IsRun(q, t, Outcome(probe, upload, history, q))
            && Answered(probe, upload, history, t)
  {
    var t := Done(probe, upload, history, q);
    assert Run(probe, upload, history, q).1 == history + t;
    RunsAreExact(probe, upload, history, q, t, Outcome(probe, upload, history, q));
  }

  /** Main result: 0 is returned exactly when some probe of this run saw the exact version, and
      that probe is the last thing the run does. */
  lemma ZeroMeansSeen(probe: History -> Answer, upload: History -> Upload, history: History, q: Request)
    ensures var t := Done(probe, upload, history, q);
            && (Outcome(probe, upload, history, q) == Success(0) <==> Probed(Present) in t)
            && (forall i :: 0 <= i < |t| - 1 ==> t[i] != Probed(Present))
  {
    var t, r := Done(probe, upload, history, q), Outcome(probe, upload, history, q);
    DoneIsRun(probe, upload, history, q);
    if |t| >= 2 {
      assert t == t[..2] + t[2..] && t[..2] == [t[0], t[1]];
      forall i | 2 <= i < |t| ensures t[i] == t[2..][i - 2] {}
    }
  }

  /** Main result: cargo is called at most once, and it is called exactly when the inputs are
      good, the first probe answered "absent" and there is a token. */
  lemma UploadIsGuarded(probe: History -> Answer, upload: History -> Upload, history: History, q: Request)
    ensures var t := Done(probe, upload, history, q);
            && (forall i :: 0 <= i < |t| && t[i].Uploaded? ==> i == 1 && t[0] == Probed(Absent))
            && ((exists i :: 0 <= i < |t| && t[i].Uploaded?)
                <==> Accepted(q) && q.token != "" && probe(history) == Absent)
  {
    var t, r := Done(probe, upload, history, q), Outcome(probe, upload, history, q);
    DoneIsRun(probe, upload, history, q);
    if t != [] && t[0].Probed? { FirstAnswer(probe, upload, history, t); }
    if |t| >= 2 {
      forall i | 2 <= i < |t| ensures t[i] == t[2..][i - 2] {}
    }
    if Accepted(q) && q.token != "" && probe(history) == Absent {
      assert |t| >= 2 && t[1].Uploaded?;
    }
  }

  /** Main result: a non-zero status is cargo's own, and it is returned exactly when every
      allowed poll after that failure missed; a successful upload nobody can see is an error. */
  lemma StatusIsCargos(probe: History -> Answer, upload: History -> Upload, history: History, q: Request)
    ensures var t, r := Done(probe, upload, history, q), Outcome(probe, upload, history, q);
            && (r.Success? && r.value != 0 <==>
                 |t| >= 2 && t[1].Uploaded? && t[1].upload.Exited? && t[1].upload.status != 0
                 && q.failurePolls >= 1 && |t| == 1 + 2 * q.failurePolls && Probed(Present) !in t)
            && (r.Success? && r.value != 0 ==> t[1] == Uploaded(Exited(r.value)))
            && (r == Failure(NeverVisible) <==>
                 |t| >= 2 && t[1] == Uploaded(Exited(0))
                 && q.successPolls >= 1 && |t| == 1 + 2 * q.successPolls && Probed(Present) !in t)
  {
    var t, r := Done(probe, upload, history, q), Outcome(probe, upload, history, q);
    DoneIsRun(probe, upload, history, q);
    if |t| >= 2 {
      assert t == t[..2] + t[2..] && t[..2] == [t[0], t[1]];
    }
  }

  /** With the script's own limits a run makes at most 13 probes and always got to poll. */
  lemma DefaultLimits(probe: History -> Answer, upload: History -> Upload, history: History, q: Request)
    requires q.failurePolls == FAILURE_POLL_ATTEMPTS && q.successPolls == SUCCESS_POLL_ATTEMPTS
    ensures |Done(probe, upload, history, q)| <= 25
    ensures Outcome(probe, upload, history, q) != Failure(NoAttempts)
  {
    DoneIsRun(probe, upload, history, q);
  }

  // ---- every run can happen ----

  function Replay(history: History, t: History): History -> Answer {
    (h: History) => var k := |h| - |history|; if 0 <= k < |t| && t[k].Probed? then t[k].answer else Absent
  }

  function ReplayUpload(history: History, t: History): History -> Upload {
    (h: History) => var k := |h| - |history|; if 0 <= k < |t| && t[k].Uploaded? then t[k].upload else NoStatus
  }

  /** The list of results is not too generous: some world makes each of them happen. */
  lemma EveryRunHappens(history: History, q: Request, t: History, r: Status)
    requires IsRun(q, t, r)
    ensures Run(Replay(history, t), ReplayUpload(history, t), history, q) == (r, history + t)
  {
    hide IsRun;
    forall i | 0 <= i < |t| ensures AnsweredAt(Replay(history, t), ReplayUpload(history, t), history, t, i) {}
    RunsAreExact(Replay(history, t), ReplayUpload(history, t), history, q, t, r);
  }

  // ---- running it again ----

  /** A registry that never takes a version back; it may still fail to answer. */
  ghost predicate Keeps(probe: History -> Answer) {
    forall h :: Probed(Present) in h ==> probe(h) != Absent
  }

  /** The job is run again and again for the same crate and version. */
  function Reruns(probe: History -> Answer, upload: History -> Upload, history: History,
                  requests: seq<Request>): (end: History)
    ensures history <= end
    decreases |requests|
  {
    if requests == [] then history
    else Reruns(probe, upload, Run(probe, upload, history, requests[0]).1, requests[1..])
  }

  /** Main result: over any number of reruns against such a registry, once any probe of any run
      has seen the version nothing is uploaded again. */
  lemma {:induction false} NoUploadOnceSeen(probe: History -> Answer, upload: History -> Upload, history: History,
                                            requests: seq<Request>, i: nat, j: nat)
    requires Keeps(probe)
    requires i < j < |Reruns(probe, upload, history, requests)| && |history| <= j
    requires Reruns(probe, upload, history, requests)[i] == Probed(Present)
    ensures !Reruns(probe, upload, history, requests)[j].Uploaded?
    decreases |requests|
  {
    hide Run;
    if requests != [] {
      var q, end := requests[0], Reruns(probe, upload, history, requests);
      var next := Run(probe, upload, history, q).1;
      assert next <= end;
      if j < |next| {
        var t := Done(probe, upload, history, q);
        DoneIsRun(probe, upload, history, q);
        assert next[i] == end[i] && next[j] == end[j] == t[j - |history|];
        UploadIsGuarded(probe, upload, history, q);
        ZeroMeansSeen(probe, upload, history, q);
        if i < |history| {
          assert history[i] == Probed(Present);
        }
      } else {
        NoUploadOnceSeen(probe, upload, next, requests[1..], i, j);
      }
    }
  }
}
