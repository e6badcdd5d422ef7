/**
 The capture object of the counter tool: callbacks that grow and mark the trees of the counters,
 count records and pick the next counter, and the finalizer that reads it all.
 */
module CaptureRecords {
  import opened Optional
  import opened DimTree
  import opened DimPresence
  import opened CaptureAccount

  /** The trees of all counters; each node belongs to one tree. */
  class Forest {
    var dims: map<nat, Presence>
    /** The values of the trees, and the nodes they consist of. */
    ghost var trees: Trees
    ghost var Repr: set<Presence>

    ghost predicate Valid()
      reads this, Repr
    {
      && dims.Keys == trees.Keys
      && (forall c {:trigger Tracks(c)} | c in trees :: Tracks(c))
      && (forall c, d {:trigger Apart(c, d)} | c in trees && d in trees && c != d :: Apart(c, d))
    }

    /** Counter c has a tree with the value on record. */
    ghost predicate Tracks(c: nat)
      reads this, Repr
    {
      && c in dims && c in trees && dims[c] in Repr && dims[c] in dims[c].Repr && dims[c].Repr <= Repr
      && dims[c].Valid() && dims[c].model == trees[c]
    }

    /** The trees of two counters share no node. */
    ghost predicate Apart(c: nat, d: nat)
      reads this, Repr
    {
      c in dims && d in dims && dims[c] in Repr && dims[d] in Repr && dims[c].Repr !! dims[d].Repr
    }

    constructor ()
      ensures Valid() && fresh(Repr) && trees == map[]
    {
      dims, trees, Repr := map[], map[], {};
    }

    /** An empty tree for a counter that has none. */
    method Emplace(c: nat)
      requires Valid()
      modifies this
      ensures Valid() && fresh(Repr - old(Repr))
      ensures trees == if c in old(trees) then old(trees) else old(trees)[c := ROOT]
    {
      if c !in dims {
        var root := new Presence(ROOT.at);
        dims := dims[c := root];
        trees := trees[c := root.model];
        Repr := Repr + root.Repr;
        forall d | d in trees && d != c ensures Tracks(d) && Apart(c, d) && Apart(d, c) {
          assert old(Tracks(d));
        }
        forall d, e | d in trees && e in trees && d != e ensures Apart(d, e) {
          if d != c && e != c {
            assert old(Apart(d, e));
          }
        }
      }
    }

    method Grow(c: nat, dim: Dim)
      requires Valid() && c in trees
      modifies this, Repr
      ensures Valid() && fresh(Repr - old(Repr))
      ensures trees == old(trees)[c := Forward(old(trees)[c], dim)]
    {
      assert Tracks(c);
      dims[c].MaybeForward(dim);
      trees := trees[c := dims[c].model];
      Repr := Repr + dims[c].Repr;
      forall d | d in trees && d != c
        ensures Tracks(d) && Apart(c, d) && Apart(d, c) && dims[d].Repr == old(dims[d].Repr)
      {
        assert old(Tracks(d)) && old(Apart(c, d));
      }
      forall d, e | d in trees && e in trees && d != e ensures Apart(d, e) {
        if d != c && e != c {
          assert old(Apart(d, e));
        }
      }
    }

    /** Marks a record in its counter's tree; false when the counter is unknown or a position is out
        of range. */
    method MarkAt(c: nat, id: Instance) returns (ok: bool)
      requires Valid()
      modifies this`trees, Repr
      ensures Valid() && Repr == old(Repr)
      ensures Progress(ok, trees) == MarkHeader(old(trees), Value(c, id))
    {
      if c !in dims {
        return false;
      }
      ok := MarkTree(c, id);
    }

    /** Marks a record in the tree of a known counter. */
    method MarkTree(c: nat, id: Instance) returns (ok: bool)
      requires Valid() && c in trees
      modifies this`trees, Repr
      ensures Valid() && Repr == old(Repr)
      ensures ok <==> Mark(old(trees)[c], id).Some?
      ensures trees == old(trees)[c := MarkOrKeep(old(trees)[c], id)]
    {
      assert Tracks(c);
      ok := dims[c].MarkSeen(id);
      trees := trees[c := dims[c].model];
      forall d | d in trees && d != c
        ensures Tracks(d) && Apart(c, d) && Apart(d, c) && dims[d].Repr == old(dims[d].Repr)
      {
        assert old(Tracks(d)) && old(Apart(c, d));
      }
      forall d, e | d in trees && e in trees && d != e ensures Apart(d, e) {
        if d != c && e != c {
          assert old(Apart(d, e));
        }
      }
    }

    method Check(c: nat) returns (passed: bool, lines: seq<Line>)
      requires Valid() && c in trees
      ensures passed == AllSeen(trees[c]) && lines == Lines(trees[c], [])
    {
      var report := new Report();
      assert Tracks(c);
      passed := dims[c].CheckSeen(report);
      lines := report.lines;
    }
  }

  class Capture {
    const expectedDataDims: Forest
    var expected: map<nat, nat>
    var remaining: seq<nat>
    var captured: map<nat, nat>

    ghost predicate Valid()
      reads this, expectedDataDims, expectedDataDims.Repr
    {
      expectedDataDims.Valid() && expected.Keys == expectedDataDims.trees.Keys
    }

    ghost function Snapshot(): Account
      reads this, expectedDataDims
    {
      Account(expected, expectedDataDims.trees, remaining, captured)
    }

    constructor ()
      ensures Valid() && fresh(expectedDataDims) && fresh(expectedDataDims.Repr) && Snapshot() == EMPTY
    {
      expected, remaining, captured := map[], [], map[];
      expectedDataDims := new Forest();
    }

    method BufferedCallback(headers: seq<Header>) returns (ok: bool)
      requires Valid()
      modifies expectedDataDims`trees, expectedDataDims.Repr, this`captured
      ensures Valid() && expectedDataDims.Repr == old(expectedDataDims.Repr)
      ensures ok == Process(old(expectedDataDims.trees), headers).ok
      ensures Snapshot() == Batch(old(Snapshot()), headers)
    {
      ghost var before := expectedDataDims.trees;
      var seen: map<nat, nat> := map[];
      for i := 0 to |headers|
        invariant expectedDataDims.Valid() && expectedDataDims.Repr == old(expectedDataDims.Repr)
        invariant expected.Keys == expectedDataDims.trees.Keys && captured == old(captured)
        invariant Process(before, headers[..i]) == Progress(true, expectedDataDims.trees)
        invariant Tallies(seen, headers[..i])
      {
        var h := headers[i];
        assert headers[..i + 1][..i] == headers[..i];
        if h.Value? {
          ok := expectedDataDims.MarkAt(h.counter, h.id);
          if !ok {
            RefusedStays(before, headers, i + 1);
            return;
          }
          seen := seen[h.counter := Get(seen, h.counter) + 1];
        }
        TallyStep(headers, i);
      }
      assert headers[..|headers|] == headers;
      AddSeen(seen, headers);
      ok := true;
    }

    /** Adds the counts of one batch. */
    method AddSeen(seen: map<nat, nat>, ghost headers: seq<Header>)
      requires Tallies(seen, headers)
      modifies this`captured
      ensures captured == AddCounts(old(captured), headers)
    {
      var todo := seen.Keys;
      while todo != {}
        invariant todo <= seen.Keys
        invariant captured.Keys == old(captured).Keys + (seen.Keys - todo)
        invariant forall c | c in captured ::
          captured[c] == Get(old(captured), c) + if c in todo then 0 else Get(seen, c)
        decreases todo
      {
        var c :| c in todo;
        captured := captured[c := Get(captured, c) + seen[c]];
        todo := todo - {c};
      }
      TalliesAdd(old(captured), captured, seen, headers);
    }

    // ---------- dispatches ----------

    /** Registers one counter; a counter registered before keeps its instance count and its tree
        grows on. */
    method AddCounter(info: CounterInfo)
      requires Valid()
      modifies this, expectedDataDims, expectedDataDims.Repr
      ensures Valid() && fresh(expectedDataDims.Repr - old(expectedDataDims.Repr))
      ensures Snapshot() == AddInfo(old(Snapshot()), info)
    {
      remaining := remaining + [info.handle];
      if info.handle !in expected {
        expected := expected[info.handle := info.instances];
      }
      AddTree(info.handle, info.dims);
    }

    /** A new tree, or the one the counter has, grows by the dimensions. */
    method AddTree(c: nat, dims: seq<Dim>)
      requires expectedDataDims.Valid()
      modifies expectedDataDims, expectedDataDims.Repr
      ensures expectedDataDims.Valid() && fresh(expectedDataDims.Repr - old(expectedDataDims.Repr))
      ensures
        var trees := old(expectedDataDims.trees);
        expectedDataDims.trees == trees[c := Grown(if c in trees then trees[c] else ROOT, dims)]
    {
      expectedDataDims.Emplace(c);
      GrowAll(c, dims);
    }

    method GrowAll(c: nat, dims: seq<Dim>)
      requires expectedDataDims.Valid() && c in expectedDataDims.trees
      modifies expectedDataDims, expectedDataDims.Repr
      ensures expectedDataDims.Valid() && fresh(expectedDataDims.Repr - old(expectedDataDims.Repr))
      ensures expectedDataDims.trees == old(expectedDataDims.trees)[c := Grown(old(expectedDataDims.trees)[c], dims)]
    {
      ghost var before := expectedDataDims.trees;
      assert Grown(before[c], dims[..0]) == before[c];
      for i := 0 to |dims|
        invariant expectedDataDims.Valid() && fresh(expectedDataDims.Repr - old(expectedDataDims.Repr))
        invariant expectedDataDims.trees == before[c := Grown(before[c], dims[..i])]
      {
        assert dims[..i + 1][..i] == dims[..i];
        expectedDataDims.Grow(c, dims[i]);
      }
      assert dims[..|dims|] == dims;
    }

    method FetchCounters(infos: seq<CounterInfo>)
      requires Valid()
      modifies this, expectedDataDims, expectedDataDims.Repr
      ensures Valid() && fresh(expectedDataDims.Repr - old(expectedDataDims.Repr))
      ensures Snapshot() == AddInfos(old(Snapshot()), infos)
    {
      for i := 0 to |infos|
        invariant Valid() && fresh(expectedDataDims.Repr - old(expectedDataDims.Repr))
        invariant Snapshot() == AddInfos(old(Snapshot()), infos[..i])
      {
        assert infos[..i + 1][..i] == infos[..i];
        AddCounter(infos[i]);
      }
      assert infos[..|infos|] == infos;
    }

    /** Selects the next counter; `created` says whether the library makes a profile for it, and
        `configured` whether the dispatch is given one. The counter is used up either way. */
    method DispatchCallback(infos: seq<CounterInfo>, created: bool) returns (attempt: Option<nat>, configured: bool)
      requires Valid()
      modifies this, expectedDataDims, expectedDataDims.Repr
      ensures Valid() && fresh(expectedDataDims.Repr - old(expectedDataDims.Repr))
      ensures Snapshot() == Popped(Fetched(old(Snapshot()), infos))
      ensures attempt == Attempt(Fetched(old(Snapshot()), infos))
      ensures configured <==> created && attempt.Some?
    {
      if expected == map[] {
        FetchCounters(infos);
      }
      if remaining == [] {
        return None, false;
      }
      attempt, configured := Some(remaining[|remaining| - 1]), created;
      remaining := remaining[..|remaining| - 1];
    }

    // ---------- the finalizer ----------

    method Judge(c: nat) returns (v: Verdict)
      requires Valid() && c in expected
      ensures v == VerdictOn(Snapshot(), c)
    {
      if c !in captured {
        v := Missing;
      } else if captured[c] != expected[c] {
        v := Mismatch(captured[c]);
      } else {
        var passed, lines := expectedDataDims.Check(c);
        v := Checked(passed, lines);
      }
    }

    /** One verdict for each counter, and whether as many counters were collected as expected. */
    method ToolFini() returns (sizesAgree: bool, verdicts: map<nat, Verdict>)
      requires Valid()
      ensures sizesAgree <==> |captured| == |expected|
      ensures verdicts.Keys == expected.Keys
      ensures forall c | c in expected :: verdicts[c] == VerdictOn(Snapshot(), c)
    {
      sizesAgree, verdicts := |captured| == |expected|, map[];
      var todo := expected.Keys;
      while todo != {}
        invariant todo <= expected.Keys && verdicts.Keys == expected.Keys - todo
        invariant forall c | c in verdicts :: verdicts[c] == VerdictOn(Snapshot(), c)
        decreases todo
      {
        var c :| c in todo;
        var v := Judge(c);
        verdicts := verdicts[c := v];
        todo := todo - {c};
      }
    }
  }

  lemma {:induction false} RefusedStays(trees: Trees, headers: seq<Header>, n: nat)
    requires n <= |headers| && !Process(trees, headers[..n]).ok
    ensures Process(trees, headers) == Process(trees, headers[..n])
    decreases |headers|
  {
    if n == |headers| {
      assert headers[..n] == headers;
    } else {
      var front := headers[..|headers| - 1];
      assert front[..n] == headers[..n];
      RefusedStays(trees, front, n);
    }
  }

  /** The counts of a batch so far. */
  ghost predicate Tallies(seen: map<nat, nat>, headers: seq<Header>) {
    seen.Keys == Counters(headers) && forall c | c in seen :: seen[c] == |Records(headers, c)|
  }

  lemma {:induction false} TalliesAdd(m: map<nat, nat>, now: map<nat, nat>, seen: map<nat, nat>, headers: seq<Header>)
    requires Tallies(seen, headers) && now.Keys == m.Keys + seen.Keys
    requires forall c | c in now :: now[c] == Get(m, c) + Get(seen, c)
    ensures now == AddCounts(m, headers)
  {
    forall c | c in now ensures Get(seen, c) == |Records(headers, c)| {
      if c !in seen {
        NoRecords(headers, c);
      }
    }
  }

  lemma {:induction false} TallyStep(headers: seq<Header>, i: nat)
    requires i < |headers|
    ensures forall seen | Tallies(seen, headers[..i]) ::
      var h := headers[i];
      Tallies(if h.Value? then seen[h.counter := Get(seen, h.counter) + 1] else seen, headers[..i + 1])
  {
    var h := headers[i];
    assert headers[..i + 1][..i] == headers[..i];
    assert headers[..i + 1] == headers[..i] + [h];
    assert Counters(headers[..i + 1]) == Counters(headers[..i]) + if h.Value? then {h.counter} else {};
    if h.Value? && h.counter !in Counters(headers[..i]) {
      NoRecords(headers[..i], h.counter);
    }
  }
}
