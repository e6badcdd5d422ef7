/**
 The synchronous counter sampler: a cache of profiles by requested counter names, with the number of
 records each profile yields kept by profile handle.
 */
module CounterSampler {
  import opened Optional
  import opened DimTree

  /** What the library knows of an agent: its counters by name, and the dimensions of a counter. */
  datatype Library = Library(counters: map<string, nat>, dims: map<nat, seq<Dim>>)

  /** An unknown counter has no dimensions to iterate over. */
  function DimsOf(lib: Library, counter: nat): seq<Dim> {
    if counter in lib.dims then lib.dims[counter] else []
  }

  /** Records of the requested counters; names the agent does not support are skipped. */
  function ExpectedSize(lib: Library, names: seq<string>): nat {
    if names == [] then 0
    else
      var last := names[|names| - 1];
      ExpectedSize(lib, names[..|names| - 1])
      + if last in lib.counters then Product(DimsOf(lib, lib.counters[last])) else 0
  }

  /** The counters handed to profile creation, in the order of the names. */
  function Found(lib: Library, names: seq<string>): seq<nat> {
    if names == [] then []
    else
      var before, last := Found(lib, names[..|names| - 1]), names[|names| - 1];
      if last in lib.counters then before + [lib.counters[last]] else before
  }

  datatype State = State(cached: map<seq<string>, nat>, sizes: map<nat, nat>, profile: nat)

  /** A call requests names; `created` is the handle the library gives a new profile, None when it
      fails. */
  datatype Call = Call(names: seq<string>, created: Option<nat>)

  function Cached(lib: Library, s: State, call: Call): State {
    if call.names in s.cached || call.created.None? then s
    else
      var h := call.created.value;
      s.(cached := s.cached[call.names := h],
         sizes := if h in s.sizes then s.sizes else s.sizes[h := ExpectedSize(lib, call.names)])
  }

  /** The state after a call; a failed creation throws and leaves it as it was. */
  function Step(lib: Library, s: State, call: Call): State {
    var s' := Cached(lib, s, call);
    if call.names in s'.cached then s'.(profile := s'.cached[call.names]) else s
  }

  function Run(lib: Library, calls: seq<Call>): State {
    if calls == [] then State(map[], map[], 0)
    else Step(lib, Run(lib, calls[..|calls| - 1]), calls[|calls| - 1])
  }

  class Sampler {
    var cachedProfiles: map<seq<string>, nat>
    var profileSizes: map<nat, nat>
    var profile: nat

    ghost predicate Valid()
      reads this
    {
      forall names | names in cachedProfiles :: cachedProfiles[names] in profileSizes
    }

    function Snapshot(): State
      reads this
    {
      State(cachedProfiles, profileSizes, profile)
    }

    constructor ()
      ensures Valid() && Snapshot() == State(map[], map[], 0)
    {
      cachedProfiles, profileSizes, profile := map[], map[], 0;
    }

    /** Number of records of a counter: as many as the tree of its dimensions has leaves, unless a
        dimension is empty. */
    method GetCounterSize(dims: seq<Dim>) returns (size: nat)
      ensures size == Product(dims)
      ensures size == |Lines(Build(dims), [])| <==> forall d | d in dims :: d.size > 0
    {
      size := 1;
      for i := 0 to |dims|
        invariant size == Product(dims[..i])
      {
        assert dims[..i + 1] == dims[..i] + [dims[i]];
        ProductAppend(dims[..i], dims[i]);
        size := size * dims[i].size;
      }
      assert dims[..|dims|] == dims;
      LeavesAreProduct(dims);
    }

    /** The counters found among the names, and their records. */
    method FindCounters(lib: Library, names: seq<string>) returns (found: seq<nat>, size: nat)
      ensures found == Found(lib, names) && size == ExpectedSize(lib, names)
    {
      found, size := [], 0;
      for i := 0 to |names|
        invariant found == Found(lib, names[..i]) && size == ExpectedSize(lib, names[..i])
      {
        assert names[..i + 1][..i] == names[..i];
        if names[i] in lib.counters {
          var counter := lib.counters[names[i]];
          found := found + [counter];
          var n := GetCounterSize(DimsOf(lib, counter));
          size := size + n;
        }
      }
      assert names[..|names|] == names;
    }

    /** Samples through the profile for these names; `requested` is what a new profile is asked to
        hold. The buffer is given the profile's recorded size,
        and starting the context configures the device unless the handle is zero. */
    method SampleCounterValues(lib: Library, call: Call)
      returns (ok: bool, buffer: nat, configured: Option<nat>, requested: Option<seq<nat>>)
      requires Valid()
      modifies this
      ensures Valid() && Snapshot() == Step(lib, old(Snapshot()), call)
      ensures ok <==> call.names in cachedProfiles
      ensures ok <==> call.names in old(cachedProfiles) || call.created.Some?
      ensures !ok || call.names in old(cachedProfiles) ==>
                cachedProfiles == old(cachedProfiles) && profileSizes == old(profileSizes)
      ensures !ok ==> profile == old(profile)
      ensures ok && call.names !in old(cachedProfiles) ==>
                cachedProfiles == old(cachedProfiles)[call.names := call.created.value]
      ensures ok ==> profile == cachedProfiles[call.names] && buffer == profileSizes[profile]
      ensures requested == if call.names in old(cachedProfiles) then None else Some(Found(lib, call.names))
      ensures configured == if ok && profile != 0 then Some(profile) else None
    {
      requested := None;
      if call.names !in cachedProfiles {
        var found, expectedSize := FindCounters(lib, call.names);
        requested := Some(found);
        if call.created.None? {
          return false, 0, None, requested;
        }
        var handle := call.created.value;
        cachedProfiles := cachedProfiles[call.names := handle];
        if handle !in profileSizes {
          profileSizes := profileSizes[handle := expectedSize];
        }
      }
      buffer := profileSizes[cachedProfiles[call.names]];
      profile := cachedProfiles[call.names];
      ok, configured := true, if profile != 0 then Some(profile) else None;
    }
  }

  /** Requests put together ask for what they ask for apart, in order; a single name asks for its
      counter, or for nothing when the agent does not support it. */
  lemma {:induction false} FoundConcat(lib: Library, a: seq<string>, b: seq<string>)
    ensures Found(lib, a + b) == Found(lib, a) + Found(lib, b)
  {
    if b == [] {
      assert a + b == a;
    } else {
      assert (a + b)[..|a + b| - 1] == a + b[..|b| - 1];
      FoundConcat(lib, a, b[..|b| - 1]);
    }
  }

  lemma {:induction false} FoundOne(lib: Library, name: string)
    ensures Found(lib, [name]) == if name in lib.counters then [lib.counters[name]] else []
  {
    assert [name][..0] == [];
  }

  /** The counter of a supported name comes right after those of the names before it. */
  lemma {:induction false} FoundAt(lib: Library, names: seq<string>, i: nat)
    requires i < |names| && names[i] in lib.counters
    ensures |Found(lib, names[..i])| < |Found(lib, names)|
    ensures Found(lib, names)[|Found(lib, names[..i])|] == lib.counters[names[i]]
  {
    assert names == names[..i] + ([names[i]] + names[i + 1..]);
    FoundConcat(lib, names[..i], [names[i]] + names[i + 1..]);
    FoundConcat(lib, [names[i]], names[i + 1..]);
    FoundOne(lib, names[i]);
  }

  // ---------- every cached profile has the right size ----------

  ghost predicate SizesRight(lib: Library, s: State) {
    forall names | names in s.cached ::
      s.cached[names] in s.sizes && s.sizes[s.cached[names]] == ExpectedSize(lib, names)
  }

  /** Call i makes a profile: it is the first for its names whose creation succeeds. */
  ghost predicate Creates(calls: seq<Call>, i: nat) {
    && i < |calls| && calls[i].created.Some?
    && forall j | 0 <= j < i && calls[j].names == calls[i].names :: calls[j].created.None?
  }

  /** Calls that are given the same handle ask for equally many records. */
  ghost predicate HandlesAgree(lib: Library, calls: seq<Call>) {
    forall i: nat, j: nat | Creates(calls, i) && Creates(calls, j) && calls[i].created == calls[j].created ::
      ExpectedSize(lib, calls[i].names) == ExpectedSize(lib, calls[j].names)
  }

  ghost predicate CreatedBy(calls: seq<Call>, names: seq<string>, h: nat) {
    exists i: nat :: Creates(calls, i) && calls[i] == Call(names, Some(h))
  }

  /** The first call that is given the handle for a new profile. */
  ghost predicate FirstGiven(calls: seq<Call>, i: nat, h: nat) {
    && Creates(calls, i) && calls[i].created == Some(h)
    && forall j: nat | j < i && Creates(calls, j) :: calls[j].created != Some(h)
  }

  /** The size is that of the first request given the handle. */
  ghost predicate SizedBy(lib: Library, calls: seq<Call>, h: nat, size: nat) {
    exists i: nat :: FirstGiven(calls, i, h) && ExpectedSize(lib, calls[i].names) == size
  }

  lemma {:induction false} FirstGivenFront(calls: seq<Call>, i: nat, h: nat)
    requires calls != [] && i < |calls| - 1
    ensures FirstGiven(calls, i, h) <==> FirstGiven(calls[..|calls| - 1], i, h)
  {
    forall j: nat | j <= i ensures Creates(calls, j) <==> Creates(calls[..|calls| - 1], j) {
      CreatesFront(calls, j);
    }
  }

  lemma {:induction false} CreatesFront(calls: seq<Call>, i: nat)
    requires calls != [] && i < |calls| - 1
    ensures Creates(calls, i) <==> Creates(calls[..|calls| - 1], i)
  {
    var front := calls[..|calls| - 1];
    assert forall j | 0 <= j <= i :: front[j] == calls[j];
  }

  ghost predicate CacheReflects(s: State, calls: seq<Call>) {
    forall names, h: nat :: CachedAs(s, names, h) <==> CreatedBy(calls, names, h)
  }

  predicate CachedAs(s: State, names: seq<string>, h: nat) {
    names in s.cached && s.cached[names] == h
  }

  ghost predicate HandlesSized(s: State) {
    forall names | names in s.cached :: s.cached[names] in s.sizes
  }

  ghost predicate SizesReflect(lib: Library, s: State, calls: seq<Call>) {
    forall h | h in s.sizes :: SizedBy(lib, calls, h, s.sizes[h])
  }

  /** A request is cached with a handle exactly when a call created the one for the other; every such
      handle has a size on record, and it is that of the first call given the handle. */
  lemma {:induction false} RunReflects(lib: Library, calls: seq<Call>)
    ensures var s := Run(lib, calls);
      && CacheReflects(s, calls) && SizesReflect(lib, s, calls)
      && HandlesSized(s)
  {
    if calls != [] {
      var front := calls[..|calls| - 1];
      RunReflects(lib, front);
      forall names, h: nat ensures CachedAs(Run(lib, calls), names, h) <==> CreatedBy(calls, names, h) {
        CachedStep(lib, calls, names, h);
      }
      forall h | h in Run(lib, calls).sizes ensures SizedBy(lib, calls, h, Run(lib, calls).sizes[h]) {
        SizedStep(lib, calls, h);
      }
    }
  }

  /** The last call creates exactly when its names are not cached and creation succeeds. */
  lemma {:induction false} LastCreates(lib: Library, calls: seq<Call>)
    requires calls != []
    requires CacheReflects(Run(lib, calls[..|calls| - 1]), calls[..|calls| - 1])
    ensures
      var front, last := calls[..|calls| - 1], calls[|calls| - 1];
      Creates(calls, |calls| - 1) <==> last.created.Some? && last.names !in Run(lib, front).cached
  {
    var front, last := calls[..|calls| - 1], calls[|calls| - 1];
    if last.names in Run(lib, front).cached {
      var h := Run(lib, front).cached[last.names];
      assert CachedAs(Run(lib, front), last.names, h);
      assert CreatedBy(front, last.names, h);
      var i: nat :| Creates(front, i) && front[i] == Call(last.names, Some(h));
      assert calls[i] == front[i];
    } else if j: nat :| j < |front| && calls[j].names == last.names && calls[j].created.Some? {
      var i := FirstSuccess(front, last.names, j);
      assert CreatedBy(front, last.names, front[i].created.value);
      assert CachedAs(Run(lib, front), last.names, front[i].created.value);
    }
  }

  lemma {:induction false} FirstSuccess(calls: seq<Call>, names: seq<string>, j: nat) returns (i: nat)
    requires j < |calls| && calls[j].names == names && calls[j].created.Some?
    ensures i <= j && Creates(calls, i) && calls[i].names == names
  {
    if k: nat :| k < j && calls[k].names == names && calls[k].created.Some? {
      i := FirstSuccess(calls, names, k);
    } else {
      i := j;
    }
  }

  lemma {:induction false} CachedStep(lib: Library, calls: seq<Call>, names: seq<string>, h: nat)
    requires calls != []
    requires CacheReflects(Run(lib, calls[..|calls| - 1]), calls[..|calls| - 1])
    ensures CachedAs(Run(lib, calls), names, h) <==> CreatedBy(calls, names, h)
  {
    var front, last := calls[..|calls| - 1], calls[|calls| - 1];
    LastCreates(lib, calls);
    CreatedStep(calls, names, h);
    assert CachedAs(Run(lib, front), names, h) <==> CreatedBy(front, names, h);
    if names != last.names {
      assert CachedAs(Run(lib, calls), names, h) <==> CachedAs(Run(lib, front), names, h);
    }
  }

  lemma {:induction false} CreatedStep(calls: seq<Call>, names: seq<string>, h: nat)
    requires calls != []
    ensures CreatedBy(calls, names, h) <==>
      CreatedBy(calls[..|calls| - 1], names, h)
      || (Creates(calls, |calls| - 1) && calls[|calls| - 1] == Call(names, Some(h)))
  {
    var front := calls[..|calls| - 1];
    if i: nat :| Creates(front, i) && front[i] == Call(names, Some(h)) {
      CreatesFront(calls, i);
      assert calls[i] == front[i];
    }
    if i: nat :| Creates(calls, i) && calls[i] == Call(names, Some(h)) {
      if i < |front| {
        CreatesFront(calls, i);
        assert calls[i] == front[i];
      }
    }
  }

  lemma {:induction false} SizedStep(lib: Library, calls: seq<Call>, h: nat)
    requires calls != [] && h in Run(lib, calls).sizes
    requires CacheReflects(Run(lib, calls[..|calls| - 1]), calls[..|calls| - 1])
    requires SizesReflect(lib, Run(lib, calls[..|calls| - 1]), calls[..|calls| - 1])
    requires HandlesSized(Run(lib, calls[..|calls| - 1]))
    ensures SizedBy(lib, calls, h, Run(lib, calls).sizes[h])
  {
    var front := calls[..|calls| - 1];
    var s := Run(lib, front);
    LastCreates(lib, calls);
    if h in s.sizes {
      assert SizedBy(lib, front, h, s.sizes[h]);
      var i: nat :| FirstGiven(front, i, h) && ExpectedSize(lib, front[i].names) == s.sizes[h];
      FirstGivenFront(calls, i, h);
      assert calls[i] == front[i];
    } else {
      forall j: nat | j < |front| && Creates(calls, j) ensures calls[j].created != Some(h) {
        CreatesFront(calls, j);
        NotGiven(front, s, j, h);
      }
      assert FirstGiven(calls, |calls| - 1, h);
    }
  }

  /** A handle without a size on record has been given to nobody. */
  lemma {:induction false} NotGiven(calls: seq<Call>, s: State, j: nat, h: nat)
    requires CacheReflects(s, calls) && HandlesSized(s) && h !in s.sizes && Creates(calls, j)
    ensures calls[j].created != Some(h)
  {
    var given := calls[j].created.value;
    assert CreatedBy(calls, calls[j].names, given);
    assert CachedAs(s, calls[j].names, given);
  }

  /** After any calls, every cached profile has the size its counters ask for exactly when calls that
      were given the same handle for a new profile ask for equally many records. */
  lemma {:induction false} SizesExact(lib: Library, calls: seq<Call>)
    ensures SizesRight(lib, Run(lib, calls)) <==> HandlesAgree(lib, calls)
  {
    var s := Run(lib, calls);
    RunReflects(lib, calls);
    if HandlesAgree(lib, calls) {
      forall names | names in s.cached
        ensures s.cached[names] in s.sizes && s.sizes[s.cached[names]] == ExpectedSize(lib, names)
      {
        assert CachedAs(s, names, s.cached[names]);
        assert CreatedBy(calls, names, s.cached[names]);
        assert SizedBy(lib, calls, s.cached[names], s.sizes[s.cached[names]]);
      }
    }
    if SizesRight(lib, s) {
      forall i: nat, j: nat | Creates(calls, i) && Creates(calls, j) && calls[i].created == calls[j].created
        ensures ExpectedSize(lib, calls[i].names) == ExpectedSize(lib, calls[j].names)
      {
        assert CreatedBy(calls, calls[i].names, calls[i].created.value);
        assert CreatedBy(calls, calls[j].names, calls[j].created.value);
        assert CachedAs(s, calls[i].names, calls[i].created.value);
        assert CachedAs(s, calls[j].names, calls[j].created.value);
      }
    }
  }

  /** Every new profile gets a handle that no call before was given. */
  ghost predicate HandlesFresh(calls: seq<Call>) {
    forall i: nat, j: nat | Creates(calls, i) && Creates(calls, j) && i != j :: calls[i].created != calls[j].created
  }

  /** With a library that returns new profiles only, as documented, the sizes are right. */
  lemma {:induction false} FreshSizesRight(lib: Library, calls: seq<Call>)
    requires HandlesFresh(calls)
    ensures SizesRight(lib, Run(lib, calls))
  {
    SizesExact(lib, calls);
  }

  lemma {:induction false} SizeStays(lib: Library, calls: seq<Call>)
    requires |calls| == 2 && calls[0] == Call([], Some(7)) && calls[1].created == Some(7)
    ensures 7 in Run(lib, calls).sizes && Run(lib, calls).sizes[7] == 0
  {
    var one := calls[..1];
    assert one[..0] == [] && Run(lib, []) == State(map[], map[], 0);
    assert Run(lib, one) == Step(lib, Run(lib, []), one[0]);
    assert Run(lib, one).sizes == map[7 := 0];
    assert Run(lib, calls) == Step(lib, Run(lib, one), calls[1]);
  }

  /** Were a handle given out twice, the size of the first request would stay. */
  lemma {:induction false} ReusedHandle(lib: Library, calls: seq<Call>)
    requires lib == Library(map["A" := 0], map[0 := [Dim(0, 3)]])
    requires calls == [Call([], Some(7)), Call(["A"], Some(7))]
    ensures !HandlesAgree(lib, calls) && !SizesRight(lib, Run(lib, calls))
    ensures 7 in Run(lib, calls).sizes && Run(lib, calls).sizes[7] == 0 && ExpectedSize(lib, ["A"]) == 3
  {
    assert Creates(calls, 0) && Creates(calls, 1);
    assert ["A"][..0] == [] && [Dim(0, 3)][1..] == [];
    assert ExpectedSize(lib, ["A"]) == 0 + Product([Dim(0, 3)]);
    SizesExact(lib, calls);
    assert Product([Dim(0, 3)]) == 3 * Product([]);
    SizeStays(lib, calls);
  }

  /** A cached profile is never replaced. */
  lemma {:induction false} CacheStays(lib: Library, calls: seq<Call>, n: nat, names: seq<string>)
    requires n <= |calls| && names in Run(lib, calls[..n]).cached
    ensures names in Run(lib, calls).cached && Run(lib, calls).cached[names] == Run(lib, calls[..n]).cached[names]
    decreases |calls|
  {
    if n == |calls| {
      assert calls[..n] == calls;
    } else {
      assert calls[..|calls| - 1][..n] == calls[..n];
      CacheStays(lib, calls[..|calls| - 1], n, names);
    }
  }

  // ---------- sizes and trees ----------

  /** Leaves of the trees of the requested counters. */
  function Leaves(lib: Library, names: seq<string>): nat {
    if names == [] then 0
    else
      var last := names[|names| - 1];
      Leaves(lib, names[..|names| - 1])
      + if last in lib.counters then |Lines(Build(DimsOf(lib, lib.counters[last])), [])| else 0
  }

  ghost predicate NoEmptyDimension(lib: Library, names: seq<string>) {
    forall k | 0 <= k < |names| && names[k] in lib.counters ::
      forall d | d in DimsOf(lib, lib.counters[names[k]]) :: d.size > 0
  }

  /** The expected size is the number of leaves of the counters' trees exactly when none of them has
      an empty dimension; otherwise it is smaller. */
  lemma {:induction false} ExpectedIsLeaves(lib: Library, names: seq<string>)
    ensures ExpectedSize(lib, names) <= Leaves(lib, names)
    ensures ExpectedSize(lib, names) == Leaves(lib, names) <==> NoEmptyDimension(lib, names)
  {
    if names != [] {
      var front, last := names[..|names| - 1], names[|names| - 1];
      ExpectedIsLeaves(lib, front);
      assert forall k | 0 <= k < |front| :: front[k] == names[k];
      if last in lib.counters {
        ProductAtMostLeaves(DimsOf(lib, lib.counters[last]));
      }
    }
  }

  lemma {:induction false} ProductAtMostLeaves(dims: seq<Dim>)
    ensures Product(dims) <= |Lines(Build(dims), [])|
    ensures Product(dims) == |Lines(Build(dims), [])| <==> forall d | d in dims :: d.size > 0
  {
    LeavesAreProduct(dims);
    if d :| d in dims && d.size == 0 {
      var k: nat :| k < |dims| && dims[k] == d;
      EmptyDimension(dims, k);
    }
  }
}
