/**
 The call loop of `build_index` in scripts/m5-reader-sweep.py: every call site that is not a
 definition becomes an edge of the one span around it, or is recorded as unresolved.
 */
module CallIndex {
  import opened Wrappers
  import opened FnSpans
  import opened Collections

  /** A match of the call pattern: the called name and its character offset. */
  datatype Call = Call(name: string, offset: nat)

  /** One file: its lines, the header pattern applied to them, a locator for each span, the
      offsets of the defined names, and the call sites. */
  datatype File = File(lines: seq<string>, header: Header, locators: seq<string>, definitions: set<nat>,
                       calls: seq<Call>)
  {
    function Spans(): seq<Span> {
      SpansFrom(lines, header, 0)
    }

    predicate Valid() {
      |locators| == |Spans()|
    }
  }

  /** `calls_by_locator`, `callers_by_name` and the names in `unresolved_by_name`. */
  datatype Calls = Calls(byLocator: map<string, set<string>>, callers: map<string, set<string>>,
                         unresolved: set<string>)

  /** Call c of file f counts, and lies inside the span with this locator. */
  ghost predicate IsEdge(f: File, c: Call, locator: string)
    requires f.Valid()
  {
    && c in f.calls && c.offset !in f.definitions
    && exists k :: 0 <= k < |f.Spans()| && Within(f.Spans()[k], c.offset) && f.locators[k] == locator
  }

  /** Call c of file f counts, and lies outside every closed span. */
  ghost predicate IsOrphan(f: File, c: Call)
    requires f.Valid()
  {
    && c in f.calls && c.offset !in f.definitions
    && forall k :: 0 <= k < |f.Spans()| ==> !Within(f.Spans()[k], c.offset)
  }

  ghost predicate AllValid(files: seq<File>) {
    forall i :: 0 <= i < |files| ==> files[i].Valid()
  }

  ghost predicate HasEdge(f: File, locator: string, name: string)
    requires f.Valid()
  {
    exists offset :: IsEdge(f, Call(name, offset), locator)
  }

  ghost predicate HasOrphan(f: File, name: string)
    requires f.Valid()
  {
    exists offset :: IsOrphan(f, Call(name, offset))
  }

  function AddCall(calls: Calls, f: File, c: Call): Calls
    requires f.Valid()
  {
    if c.offset in f.definitions then calls
    else
      var owners := Owners(f.Spans(), c.offset, |f.Spans()|);
      if |owners| != 1 then calls.(unresolved := calls.unresolved + {c.name})
      else
        assert owners[0] in owners;
        var owner := f.locators[owners[0]];
        calls.(byLocator := calls.byLocator[owner := Get(calls.byLocator, owner) + {c.name}],
               callers := calls.callers[c.name := Get(calls.callers, c.name) + {owner}])
  }

  /** What one call site adds: one edge, one orphan, or nothing if it is a definition. */
  lemma AddCallIsExact(calls: Calls, f: File, c: Call, locator: string, name: string)
    requires f.Valid() && c in f.calls
    ensures name in Get(AddCall(calls, f, c).byLocator, locator)
            <==> name in Get(calls.byLocator, locator) || (name == c.name && IsEdge(f, c, locator))
    ensures locator in Get(AddCall(calls, f, c).callers, name)
            <==> locator in Get(calls.callers, name) || (name == c.name && IsEdge(f, c, locator))
    ensures name in AddCall(calls, f, c).unresolved
            <==> name in calls.unresolved || (name == c.name && IsOrphan(f, c))
  {
    hide SpansFrom, Within;
    var spans := f.Spans();
    var owners := Owners(spans, c.offset, |spans|);
    AtMostOneOwner(f.lines, f.header, c.offset);
    if |owners| == 1 {
      assert owners[0] in owners;
      forall k: nat | k < |spans| && Within(spans[k], c.offset)
        ensures k == owners[0]
      {
        assert k in owners;
      }
    } else {
      forall k: nat | k < |spans|
        ensures !Within(spans[k], c.offset)
      {
        assert k !in owners;
      }
    }
  }

  function AddCalls(calls: Calls, f: File, j: nat): Calls
    requires f.Valid() && j <= |f.calls|
  {
    if j == 0 then calls else AddCall(AddCalls(calls, f, j - 1), f, f.calls[j - 1])
  }

  function AddFiles(files: seq<File>, i: nat): Calls
    requires AllValid(files) && i <= |files|
  {
    if i == 0 then Calls(map[], map[], {})
    else AddCalls(AddFiles(files, i - 1), files[i - 1], |files[i - 1].calls|)
  }

  method BuildCalls(files: seq<File>) returns (calls: Calls)
    requires AllValid(files)
    ensures calls == AddFiles(files, |files|)
  {
    calls := Calls(map[], map[], {});
    for i := 0 to |files|
      invariant calls == AddFiles(files, i)
    {
      ghost var before := calls;
      for j := 0 to |files[i].calls|
        invariant calls == AddCalls(before, files[i], j)
      {
        calls := AddCall(calls, files[i], files[i].calls[j]);
      }
    }
  }

  lemma {:induction false} AddCallsIsExact(calls: Calls, f: File, j: nat, locator: string, name: string)
    requires f.Valid() && j <= |f.calls|
    ensures name in Get(AddCalls(calls, f, j).byLocator, locator)
            <==> name in Get(calls.byLocator, locator)
                 || exists k :: 0 <= k < j && f.calls[k].name == name && IsEdge(f, f.calls[k], locator)
    ensures locator in Get(AddCalls(calls, f, j).callers, name)
            <==> locator in Get(calls.callers, name)
                 || exists k :: 0 <= k < j && f.calls[k].name == name && IsEdge(f, f.calls[k], locator)
    ensures name in AddCalls(calls, f, j).unresolved
            <==> name in calls.unresolved
                 || exists k :: 0 <= k < j && f.calls[k].name == name && IsOrphan(f, f.calls[k])
  {
    hide File.Valid, IsEdge, IsOrphan, AddCall, Get;
    if j > 0 {
      AddCallsIsExact(calls, f, j - 1, locator, name);
      AddCallIsExact(AddCalls(calls, f, j - 1), f, f.calls[j - 1], locator, name);
    }
  }

  lemma AddFileIsExact(calls: Calls, f: File, locator: string, name: string)
    requires f.Valid()
    ensures name in Get(AddCalls(calls, f, |f.calls|).byLocator, locator)
            <==> name in Get(calls.byLocator, locator) || HasEdge(f, locator, name)
    ensures locator in Get(AddCalls(calls, f, |f.calls|).callers, name)
            <==> locator in Get(calls.callers, name) || HasEdge(f, locator, name)
    ensures name in AddCalls(calls, f, |f.calls|).unresolved
            <==> name in calls.unresolved || HasOrphan(f, name)
  {
    hide File.Valid, AddCalls, Get;
    AddCallsIsExact(calls, f, |f.calls|, locator, name);
    forall offset | Call(name, offset) in f.calls
      ensures exists k :: 0 <= k < |f.calls| && f.calls[k] == Call(name, offset)
    {
    }
    forall k | 0 <= k < |f.calls| && f.calls[k].name == name
      ensures f.calls[k] == Call(name, f.calls[k].offset)
    {
    }
  }

  /** Main result: over all files, a caller edge is recorded, both ways round, exactly for a
      counted call inside a closed span, and a name is unresolved exactly if some counted call of it is in no span.
      Two owners never arise. */
  lemma {:induction false} CallsAreExact(files: seq<File>, i: nat, locator: string, name: string)
    requires AllValid(files) && i <= |files|
    ensures name in Get(AddFiles(files, i).byLocator, locator)
            <==> exists k :: 0 <= k < i && HasEdge(files[k], locator, name)
    ensures locator in Get(AddFiles(files, i).callers, name)
            <==> exists k :: 0 <= k < i && HasEdge(files[k], locator, name)
    ensures name in AddFiles(files, i).unresolved
            <==> exists k :: 0 <= k < i && HasOrphan(files[k], name)
  {
    hide File.Valid, HasEdge, HasOrphan, AddCalls;
    if i > 0 {
      CallsAreExact(files, i - 1, locator, name);
      AddFileIsExact(AddFiles(files, i - 1), files[i - 1], locator, name);
    }
  }
}
