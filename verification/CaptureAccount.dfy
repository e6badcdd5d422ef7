/**
 Accounting of counter records: which counters are attempted by which dispatch, how many records of
 each counter arrive, and what the final verdict on a counter says.
 */
module CaptureAccount {
  import opened Optional
  import opened DimTree

  /** What the library reports for one supported counter. */
  datatype CounterInfo = CounterInfo(handle: nat, instances: nat, dims: seq<Dim>)

  datatype Header = Value(counter: nat, id: Instance) | Other

  type Trees = map<nat, Tree>

  datatype Account = Account(expected: map<nat, nat>, trees: Trees, remaining: seq<nat>, captured: map<nat, nat>)

  const EMPTY := Account(map[], map[], [], map[])

  // ---------- the buffered callback ----------

  /** Trees so far, and whether no header has thrown yet. */
  datatype Progress = Progress(ok: bool, trees: Trees)

  function MarkHeader(trees: Trees, h: Header): Progress {
    if h.Other? then Progress(true, trees)
    else if h.counter !in trees then Progress(false, trees)
    else
      var m := Mark(trees[h.counter], h.id);
      if m.None? then Progress(false, trees) else Progress(true, trees[h.counter := m.value])
  }

  function Process(trees: Trees, headers: seq<Header>): Progress {
    if headers == [] then Progress(true, trees)
    else
      var before := Process(trees, headers[..|headers| - 1]);
      if !before.ok then before else MarkHeader(before.trees, headers[|headers| - 1])
  }

  /** The value records of one counter, in order. */
  function Records(headers: seq<Header>, c: nat): seq<Instance> {
    if headers == [] then []
    else
      var before, h := Records(headers[..|headers| - 1], c), headers[|headers| - 1];
      if h.Value? && h.counter == c then before + [h.id] else before
  }

  function Get(m: map<nat, nat>, c: nat): nat {
    if c in m then m[c] else 0
  }

  function Counters(headers: seq<Header>): set<nat> {
    set h | h in headers && h.Value? :: h.counter
  }

  function AddCounts(m: map<nat, nat>, headers: seq<Header>): map<nat, nat> {
    map c | c in m.Keys + Counters(headers) :: Get(m, c) + |Records(headers, c)|
  }

  /** A callback that throws has marked the headers before the one at fault, but counted nothing. */
  function Batch(a: Account, headers: seq<Header>): Account {
    var p := Process(a.trees, headers);
    a.(trees := p.trees, captured := if p.ok then AddCounts(a.captured, headers) else a.captured)
  }

  // ---------- the dispatch callback ----------

  function Grown(t: Tree, dims: seq<Dim>): Tree {
    if dims == [] then t else Forward(Grown(t, dims[..|dims| - 1]), dims[|dims| - 1])
  }

  function AddInfo(a: Account, info: CounterInfo): Account {
    var tree := if info.handle in a.trees then a.trees[info.handle] else ROOT;
    Account(if info.handle in a.expected then a.expected else a.expected[info.handle := info.instances],
            a.trees[info.handle := Grown(tree, info.dims)], a.remaining + [info.handle], a.captured)
  }

  function AddInfos(a: Account, infos: seq<CounterInfo>): Account {
    if infos == [] then a else AddInfo(AddInfos(a, infos[..|infos| - 1]), infos[|infos| - 1])
  }

  /** The agent's counters are fetched unless some are known already. */
  function Fetched(a: Account, infos: seq<CounterInfo>): Account {
    if a.expected == map[] then AddInfos(a, infos) else a
  }

  /** The counter a dispatch attempts: the last of those remaining, none when there are none. */
  function Attempt(a: Account): Option<nat> {
    if a.remaining == [] then None else Some(a.remaining[|a.remaining| - 1])
  }

  function Popped(a: Account): Account {
    if a.remaining == [] then a else a.(remaining := a.remaining[..|a.remaining| - 1])
  }

  // ---------- the verdicts ----------

  datatype Verdict = Missing | Mismatch(got: nat) | Checked(passed: bool, lines: seq<Line>)

  function VerdictOn(a: Account, c: nat): Verdict
    requires c in a.expected && c in a.trees
  {
    if c !in a.captured then Missing
    else if a.captured[c] != a.expected[c] then Mismatch(a.captured[c])
    else Checked(AllSeen(a.trees[c]), Lines(a.trees[c], []))
  }

  // ---------- runs ----------

  /** A dispatch comes with what the library supports on its agent. */
  datatype Event = Dispatch(infos: seq<CounterInfo>) | Buffer(headers: seq<Header>)

  /** The account, the counters attempted so far, and whether some batch was refused. */
  datatype History = History(account: Account, attempted: seq<nat>, refused: bool)

  function Step(h: History, e: Event): History {
    match e
    case Buffer(headers) =>
      h.(account := Batch(h.account, headers), refused := h.refused || !Process(h.account.trees, headers).ok)
    case Dispatch(infos) =>
      var a := Fetched(h.account, infos);
      h.(account := Popped(a), attempted := h.attempted + if Attempt(a).Some? then [Attempt(a).value] else [])
  }

  function Run(events: seq<Event>): History {
    if events == [] then History(EMPTY, [], false)
    else Step(Run(events[..|events| - 1]), events[|events| - 1])
  }

  /** All records delivered, however they were split into batches. */
  function Stream(events: seq<Event>): seq<Header> {
    if events == [] then []
    else
      var last := events[|events| - 1];
      Stream(events[..|events| - 1]) + if last.Buffer? then last.headers else []
  }

  /** The counters of the first dispatch whose agent supports any. */
  function Supported(events: seq<Event>): seq<CounterInfo> {
    if events == [] then []
    else
      var before, last := Supported(events[..|events| - 1]), events[|events| - 1];
      if before == [] && last.Dispatch? then last.infos else before
  }

  /** Dispatches from the one on that first found counters. */
  function Chances(events: seq<Event>): nat {
    if events == [] then 0
    else
      Chances(events[..|events| - 1])
      + if events[|events| - 1].Dispatch? && Supported(events) != [] then 1 else 0
  }

  function Handles(infos: seq<CounterInfo>): (handles: seq<nat>)
    ensures |handles| == |infos| && forall k | 0 <= k < |infos| :: handles[k] == infos[k].handle
  {
    seq(|infos|, k requires 0 <= k < |infos| => infos[k].handle)
  }

  // ---------- each counter is attempted once ----------

  lemma {:induction false} AddInfosRemaining(a: Account, infos: seq<CounterInfo>)
    ensures AddInfos(a, infos).remaining == a.remaining + Handles(infos)
    ensures infos != [] ==> AddInfos(a, infos).expected != map[]
    ensures AddInfos(a, infos).captured == a.captured
  {
    if infos != [] {
      var front := infos[..|infos| - 1];
      AddInfosRemaining(a, front);
      assert Handles(infos) == Handles(front) + [infos[|infos| - 1].handle];
      assert infos[|infos| - 1].handle in AddInfos(a, infos).expected;
    } else {
      assert Handles(infos) == [];
    }
  }

  function Min(a: nat, b: nat): nat { if a < b then a else b }

  /** Attempted and remaining counters make up the handles s: the k-th attempt took the k-th from
      the end, after so many chances. */
  ghost predicate Accounted(remaining: seq<nat>, attempted: seq<nat>, s: seq<nat>, chances: nat) {
    && |attempted| == Min(|s|, chances)
    && remaining == s[..|s| - |attempted|]
    && forall k | 0 <= k < |attempted| :: attempted[k] == s[|s| - 1 - k]
  }

  lemma {:induction false} PopAccounted(a: Account, attempted: seq<nat>, s: seq<nat>, chances: nat)
    requires Accounted(a.remaining, attempted, s, chances)
    ensures
      var more := attempted + if Attempt(a).Some? then [Attempt(a).value] else [];
      Accounted(Popped(a).remaining, more, s, chances + 1)
  {
  }

  /** In every run each supported counter is attempted at most once, from the last to the first, by
      one dispatch each; once all are used no dispatch selects one. */
  lemma {:induction false} AttemptsExact(events: seq<Event>)
    ensures Run(events).account.expected == map[] <==> Supported(events) == []
    ensures Accounted(Run(events).account.remaining, Run(events).attempted, Handles(Supported(events)), Chances(events))
  {
    if events != [] {
      var front, e := events[..|events| - 1], events[|events| - 1];
      AttemptsExact(front);
      if e.Dispatch? {
        DispatchAccounted(events);
      }
    }
  }

  lemma {:induction false} DispatchAccounted(events: seq<Event>)
    requires events != [] && events[|events| - 1].Dispatch?
    requires var front := events[..|events| - 1];
      && (Run(front).account.expected == map[] <==> Supported(front) == [])
      && Accounted(Run(front).account.remaining, Run(front).attempted, Handles(Supported(front)), Chances(front))
    ensures Run(events).account.expected == map[] <==> Supported(events) == []
    ensures Accounted(Run(events).account.remaining, Run(events).attempted, Handles(Supported(events)), Chances(events))
  {
    var front, infos := events[..|events| - 1], events[|events| - 1].infos;
    var h := Run(front);
    assert Run(events) == Step(h, Dispatch(infos));
    if Supported(front) == [] {
      NoChances(front);
      assert Handles(Supported(front)) == [];
      FirstAccounted(h, infos);
      assert Supported(events) == infos;
      assert Chances(events) == if infos == [] then 0 else 1;
    } else {
      assert Supported(events) == Supported(front) && Chances(events) == Chances(front) + 1;
      LaterAccounted(h, infos, Handles(Supported(front)), Chances(front));
    }
  }

  /** A dispatch while no counters are known. */
  lemma {:induction false} FirstAccounted(h: History, infos: seq<CounterInfo>)
    requires h.account.expected == map[] && h.account.remaining == [] && h.attempted == []
    ensures var h' := Step(h, Dispatch(infos));
      && (h'.account.expected == map[] <==> infos == [])
      && Accounted(h'.account.remaining, h'.attempted, Handles(infos), if infos == [] then 0 else 1)
  {
    if infos == [] {
      assert Fetched(h.account, infos) == h.account;
    } else {
      var a := Fetched(h.account, infos);
      FetchedFirst(h.account, infos);
      PopAccounted(a, [], Handles(infos), 0);
    }
  }

  lemma {:induction false} FetchedFirst(a: Account, infos: seq<CounterInfo>)
    requires a.expected == map[] && a.remaining == []
    ensures Fetched(a, infos).remaining == Handles(infos)
    ensures infos != [] ==> Fetched(a, infos).expected != map[]
  {
    AddInfosRemaining(a, infos);
    assert a.remaining + Handles(infos) == Handles(infos);
  }

  /** A dispatch once they are. */
  lemma {:induction false} LaterAccounted(h: History, infos: seq<CounterInfo>, s: seq<nat>, chances: nat)
    requires h.account.expected != map[] && Accounted(h.account.remaining, h.attempted, s, chances)
    ensures var h' := Step(h, Dispatch(infos));
      h'.account.expected != map[] && Accounted(h'.account.remaining, h'.attempted, s, chances + 1)
  {
    PopAccounted(h.account, h.attempted, s, chances);
  }

  lemma {:induction false} NoChances(events: seq<Event>)
    requires Supported(events) == []
    ensures Chances(events) == 0
  {
    if events != [] {
      NoChances(events[..|events| - 1]);
    }
  }

  // ---------- counts do not depend on the split into batches ----------

  lemma {:induction false} RecordsAppend(a: seq<Header>, b: seq<Header>, c: nat)
    ensures Records(a + b, c) == Records(a, c) + Records(b, c)
    decreases |b|
  {
    if b == [] {
      assert a + b == a;
    } else {
      RecordsAppend(a, b[..|b| - 1], c);
      assert (a + b)[..|a + b| - 1] == a + b[..|b| - 1];
    }
  }

  lemma {:induction false} NoRecords(headers: seq<Header>, c: nat)
    requires c !in Counters(headers)
    ensures Records(headers, c) == []
  {
    if headers != [] {
      var front, last := headers[..|headers| - 1], headers[|headers| - 1];
      assert last in headers;
      assert forall h | h in front :: h in headers;
      NoRecords(front, c);
    }
  }

  lemma {:induction false} AddCountsGet(m: map<nat, nat>, headers: seq<Header>, c: nat)
    ensures Get(AddCounts(m, headers), c) == Get(m, c) + |Records(headers, c)|
  {
    if c !in Counters(headers) {
      NoRecords(headers, c);
    }
  }

  /** A batch is refused at a value record, which is then missing from the counts. */
  lemma {:induction false} RefusedHasRecord(trees: Trees, headers: seq<Header>) returns (c: nat)
    requires !Process(trees, headers).ok
    ensures Records(headers, c) != []
  {
    var front, last := headers[..|headers| - 1], headers[|headers| - 1];
    if Process(trees, front).ok {
      c := last.counter;
    } else {
      c := RefusedHasRecord(trees, front);
    }
  }

  // ---------- which batches are refused ----------

  /** The levels of each counter's tree; a counter listed twice grows on. */
  function LevelsOf(infos: seq<CounterInfo>): map<nat, seq<Dim>> {
    if infos == [] then map[]
    else
      var before, last := LevelsOf(infos[..|infos| - 1]), infos[|infos| - 1];
      before[last.handle := (if last.handle in before then before[last.handle] else []) + Levels(last.dims)]
  }

  /** A value record of a known counter whose positions are all in range. */
  predicate Placeable(h: Header, levels: map<nat, seq<Dim>>) {
    h.Value? ==> h.counter in levels && InBox(Tuple(h.id, levels[h.counter]), levels[h.counter])
  }

  ghost predicate BatchPlaceable(headers: seq<Header>, levels: map<nat, seq<Dim>>) {
    forall i | 0 <= i < |headers| :: Placeable(headers[i], levels)
  }

  /** Every value record comes after its counter was registered, and fits its dimensions. */
  ghost predicate AllPlaceable(events: seq<Event>) {
    forall n | 0 <= n < |events| && events[n].Buffer? ::
      BatchPlaceable(events[n].headers, LevelsOf(Supported(events[..n])))
  }

  ghost predicate TreesShaped(trees: Trees, levels: map<nat, seq<Dim>>) {
    trees.Keys == levels.Keys && forall c | c in levels :: Shaped(trees[c], levels[c])
  }

  /** A batch is accepted exactly when all its value records can be placed; refused or not, the trees
      keep their shape. */
  lemma {:induction false} ProcessExactly(trees: Trees, levels: map<nat, seq<Dim>>, headers: seq<Header>)
    requires TreesShaped(trees, levels)
    ensures Process(trees, headers).ok <==> BatchPlaceable(headers, levels)
    ensures TreesShaped(Process(trees, headers).trees, levels)
  {
    if headers != [] {
      var front, h := headers[..|headers| - 1], headers[|headers| - 1];
      ProcessExactly(trees, levels, front);
      var before := Process(trees, front);
      assert BatchPlaceable(headers, levels) <==> BatchPlaceable(front, levels) && Placeable(h, levels);
      if before.ok && h.Value? && h.counter in levels {
        MarkExact(before.trees[h.counter], levels[h.counter], h.id);
      }
    }
  }

  /** A refused batch has marked exactly the headers before the first one that cannot be placed. */
  lemma {:induction false} RefusedPrefix(trees: Trees, levels: map<nat, seq<Dim>>, headers: seq<Header>)
    returns (n: nat)
    requires TreesShaped(trees, levels) && !BatchPlaceable(headers, levels)
    ensures n < |headers| && BatchPlaceable(headers[..n], levels) && !Placeable(headers[n], levels)
    ensures Process(trees, headers).trees == Process(trees, headers[..n]).trees
  {
    var front := headers[..|headers| - 1];
    ProcessExactly(trees, levels, headers);
    ProcessExactly(trees, levels, front);
    if BatchPlaceable(front, levels) {
      n := |front|;
    } else {
      n := RefusedPrefix(trees, levels, front);
      assert front[..n] == headers[..n];
    }
  }

  lemma {:induction false} GrownShaped(t: Tree, levels: seq<Dim>, dims: seq<Dim>)
    requires Shaped(t, levels)
    ensures Shaped(Grown(t, dims), levels + Levels(dims))
  {
    if dims == [] {
      assert levels + Levels(dims) == levels;
    } else {
      var front, last := dims[..|dims| - 1], dims[|dims| - 1];
      GrownShaped(t, levels, front);
      ForwardShaped(Grown(t, front), levels + Levels(front), last);
      assert last.size > 0 ==> levels + Levels(front) + [last] == levels + (Levels(front) + [last]);
    }
  }

  lemma {:induction false} AddInfosShaped(a: Account, infos: seq<CounterInfo>)
    requires a.trees == map[]
    ensures TreesShaped(AddInfos(a, infos).trees, LevelsOf(infos))
  {
    if infos != [] {
      var front, last := infos[..|infos| - 1], infos[|infos| - 1];
      AddInfosShaped(a, front);
      var trees, levels := AddInfos(a, front).trees, LevelsOf(front);
      if last.handle in trees {
        GrownShaped(trees[last.handle], levels[last.handle], last.dims);
      } else {
        GrownShaped(ROOT, [], last.dims);
      }
    }
  }

  /** After any run the trees have the shape of the supported counters' dimensions. */
  lemma {:induction false} RunShaped(events: seq<Event>)
    ensures TreesShaped(Run(events).account.trees, LevelsOf(Supported(events)))
  {
    if events != [] {
      var front, e := events[..|events| - 1], events[|events| - 1];
      RunShaped(front);
      AttemptsExact(front);
      match e {
        case Buffer(headers) =>
          ProcessExactly(Run(front).account.trees, LevelsOf(Supported(front)), headers);
        case Dispatch(infos) =>
          if Supported(front) == [] {
            AddInfosShaped(Run(front).account, infos);
          }
      }
    }
  }

  /** No batch of a run is refused exactly when all value records can be placed when they come. */
  lemma {:induction false} RefusedExactly(events: seq<Event>)
    ensures Run(events).refused <==> !AllPlaceable(events)
  {
    if events != [] {
      var front, e := events[..|events| - 1], events[|events| - 1];
      RefusedExactly(front);
      PlaceableStep(events);
      RunShaped(front);
      if e.Buffer? {
        ProcessExactly(Run(front).account.trees, LevelsOf(Supported(front)), e.headers);
      }
    }
  }

  lemma {:induction false} PlaceableStep(events: seq<Event>)
    requires events != []
    ensures
      var front, e := events[..|events| - 1], events[|events| - 1];
      AllPlaceable(events) <==>
      AllPlaceable(front) && (e.Buffer? ==> BatchPlaceable(e.headers, LevelsOf(Supported(front))))
  {
    var front := events[..|events| - 1];
    forall n | 0 <= n < |front| ensures front[n] == events[n] && front[..n] == events[..n] {
    }
  }

  // ---------- the stream of all batches ----------

  lemma {:induction false} StreamStep(events: seq<Event>, c: nat)
    requires events != []
    ensures
      var last := events[|events| - 1];
      var before := Records(Stream(events[..|events| - 1]), c);
      Records(Stream(events), c) == if last.Buffer? then before + Records(last.headers, c) else before
  {
    var last := events[|events| - 1];
    RecordsAppend(Stream(events[..|events| - 1]), if last.Buffer? then last.headers else [], c);
  }

  lemma {:induction false} CountsBound(events: seq<Event>, c: nat)
    ensures Get(Run(events).account.captured, c) <= |Records(Stream(events), c)|
    ensures !Run(events).refused ==> Get(Run(events).account.captured, c) == |Records(Stream(events), c)|
  {
    if events != [] {
      var front, e := events[..|events| - 1], events[|events| - 1];
      CountsBound(front, c);
      StreamStep(events, c);
      var a := Run(front).account;
      match e {
        case Buffer(headers) =>
          AddCountsGet(a.captured, headers, c);
        case Dispatch(infos) =>
          AddInfosRemaining(a, infos);
      }
    }
  }

  /** A counter has a count exactly when a record of it was delivered. */
  lemma {:induction false} CapturedExactly(events: seq<Event>, c: nat)
    requires !Run(events).refused
    ensures c in Run(events).account.captured <==> Records(Stream(events), c) != []
  {
    if events != [] {
      var front, e := events[..|events| - 1], events[|events| - 1];
      CapturedExactly(front, c);
      StreamStep(events, c);
      match e {
        case Buffer(headers) =>
          RecordsOfCounter(headers, c);
        case Dispatch(infos) =>
          AddInfosRemaining(Run(front).account, infos);
      }
    }
  }

  lemma {:induction false} RecordsOfCounter(headers: seq<Header>, c: nat)
    ensures c in Counters(headers) <==> Records(headers, c) != []
  {
    if headers != [] {
      var front, last := headers[..|headers| - 1], headers[|headers| - 1];
      RecordsOfCounter(front, c);
      assert headers == front + [last];
    }
  }

  lemma {:induction false} RefusedLoses(events: seq<Event>) returns (c: nat)
    requires Run(events).refused
    ensures Get(Run(events).account.captured, c) < |Records(Stream(events), c)|
  {
    var front, e := events[..|events| - 1], events[|events| - 1];
    var a := Run(front).account;
    if Run(front).refused {
      c := RefusedLoses(front);
      match e {
        case Buffer(headers) =>
          AddCountsGet(a.captured, headers, c);
        case Dispatch(infos) =>
          AddInfosRemaining(a, infos);
      }
    } else {
      c := RefusedHasRecord(a.trees, e.headers);
      CountsBound(front, c);
    }
    StreamStep(events, c);
  }

  /** The captured counts are those of the record stream, however it was split into batches, exactly
      when every value record comes after the dispatch that registered its counter and lies in the
      box of that counter's dimensions. */
  lemma {:induction false} CountsExact(events: seq<Event>)
    ensures (forall c: nat :: Get(Run(events).account.captured, c) == |Records(Stream(events), c)|)
            <==> AllPlaceable(events)
  {
    RefusedExactly(events);
    if Run(events).refused {
      var c := RefusedLoses(events);
      assert Get(Run(events).account.captured, c) != |Records(Stream(events), c)|;
    } else {
      forall c: nat ensures Get(Run(events).account.captured, c) == |Records(Stream(events), c)| {
        CountsBound(events, c);
      }
    }
  }

  /** A batch with a record that cannot be placed leaves all counts as they were. */
  lemma {:induction false} RefusedKeeps(events: seq<Event>)
    requires events != [] && events[|events| - 1].Buffer?
    requires var front := events[..|events| - 1];
      !BatchPlaceable(events[|events| - 1].headers, LevelsOf(Supported(front)))
    ensures !AllPlaceable(events)
    ensures Run(events).account.captured == Run(events[..|events| - 1]).account.captured
  {
    var front := events[..|events| - 1];
    PlaceableStep(events);
    RunShaped(front);
    ProcessExactly(Run(front).account.trees, LevelsOf(Supported(front)), events[|events| - 1].headers);
  }

  /** Its marks are those of the headers before the first one that cannot be placed, each in the tree of
      its own counter. */
  lemma {:induction false} RefusedMarks(events: seq<Event>) returns (n: nat)
    requires events != [] && events[|events| - 1].Buffer?
    requires var front := events[..|events| - 1];
      !BatchPlaceable(events[|events| - 1].headers, LevelsOf(Supported(front)))
    ensures
      var front, headers := events[..|events| - 1], events[|events| - 1].headers;
      var levels, trees, trees' := LevelsOf(Supported(front)), Run(front).account.trees, Run(events).account.trees;
      && n < |headers| && BatchPlaceable(headers[..n], levels) && !Placeable(headers[n], levels)
      && trees'.Keys == trees.Keys
      && forall c | c in trees :: trees'[c] == MarkAll(trees[c], Records(headers[..n], c))
  {
    var front, headers := events[..|events| - 1], events[|events| - 1].headers;
    var levels, trees := LevelsOf(Supported(front)), Run(front).account.trees;
    RunShaped(front);
    n := RefusedPrefix(trees, levels, headers);
    ProcessExactly(trees, levels, headers[..n]);
    forall c ensures Process(trees, headers[..n]).trees.Keys == trees.Keys
             ensures c in trees ==> Process(trees, headers[..n]).trees[c] == MarkAll(trees[c], Records(headers[..n], c))
    {
      ProcessMarks(trees, headers[..n], c);
    }
  }

  /** One counter with two instances, and a batch whose second record names a third: both are lost. */
  lemma {:induction false} LostBatch(events: seq<Event>)
    requires |events| == 2
    requires events[0] == Dispatch([CounterInfo(1, 2, [Dim(0, 2)])])
    requires events[1] == Buffer([Value(1, map[0 := 0]), Value(1, map[0 := 2])])
    ensures !AllPlaceable(events)
    ensures |Records(Stream(events), 1)| == 2 && Get(Run(events).account.captured, 1) == 0
  {
    var headers, front := events[1].headers, events[..1];
    OneCounter(front);
    assert Tuple(map[0 := 2], [Dim(0, 2)])[0] == 2;
    assert !Placeable(headers[1], LevelsOf(Supported(front)));
    RefusedKeeps(events);
    TwoRecords(headers);
    StreamStep(events, 1);
  }

  lemma {:induction false} OneCounter(front: seq<Event>)
    requires front == [Dispatch([CounterInfo(1, 2, [Dim(0, 2)])])]
    ensures LevelsOf(Supported(front)) == map[1 := [Dim(0, 2)]]
    ensures Run(front).account.captured == map[] && Stream(front) == []
  {
    var infos := [CounterInfo(1, 2, [Dim(0, 2)])];
    OneDispatch(front, infos);
    OneLevel(infos);
  }

  lemma {:induction false} OneDispatch(front: seq<Event>, infos: seq<CounterInfo>)
    requires front == [Dispatch(infos)]
    ensures Supported(front) == infos && Run(front).account.captured == map[] && Stream(front) == []
  {
    assert front[..0] == [];
    assert Run(front) == Step(History(EMPTY, [], false), Dispatch(infos));
    AddInfosRemaining(EMPTY, infos);
  }

  lemma {:induction false} OneLevel(infos: seq<CounterInfo>)
    requires infos == [CounterInfo(1, 2, [Dim(0, 2)])]
    ensures LevelsOf(infos) == map[1 := [Dim(0, 2)]]
  {
    var dims := [Dim(0, 2)];
    assert infos[..0] == [] && dims[..0] == [];
    assert Levels(dims) == dims;
    assert [] + dims == dims;
  }

  lemma {:induction false} TwoRecords(headers: seq<Header>)
    requires headers == [Value(1, map[0 := 0]), Value(1, map[0 := 2])]
    ensures |Records(headers, 1)| == 2
  {
    var one := headers[..1];
    assert one == [headers[0]] && one[..0] == [];
    assert Records(one[..0], 1) == [];
    assert Records(one, 1) == [headers[0].id];
    assert headers[..|headers| - 1] == one;
  }

  // ---------- what the verdict says ----------

  lemma {:induction false} MarkAllAppend(t: Tree, a: seq<Instance>, b: seq<Instance>)
    ensures MarkAll(t, a + b) == MarkAll(MarkAll(t, a), b)
    decreases |b|
  {
    if b == [] {
      assert a + b == a;
    } else {
      MarkAllAppend(t, a, b[..|b| - 1]);
      assert (a + b)[..|a + b| - 1] == a + b[..|b| - 1];
    }
  }

  /** Each tree receives the records of its counter; records of unknown counters are refused. */
  lemma {:induction false} ProcessMarks(trees: Trees, headers: seq<Header>, c: nat)
    requires Process(trees, headers).ok
    ensures Process(trees, headers).trees.Keys == trees.Keys
    ensures c !in trees ==> Records(headers, c) == []
    ensures c in trees ==> Process(trees, headers).trees[c] == MarkAll(trees[c], Records(headers, c))
  {
    if headers != [] {
      ProcessMarks(trees, headers[..|headers| - 1], c);
    }
  }

  /** Records that were not refused lie inside the box. */
  lemma {:induction false} ProcessFits(trees: Trees, headers: seq<Header>, c: nat, levels: seq<Dim>)
    requires c in trees && Shaped(trees[c], levels) && Process(trees, headers).ok
    ensures c in Process(trees, headers).trees && Shaped(Process(trees, headers).trees[c], levels)
    ensures AllFit(Records(headers, c), levels)
  {
    if headers != [] {
      var front, h := headers[..|headers| - 1], headers[|headers| - 1];
      ProcessFits(trees, front, c, levels);
      if h.Value? && h.counter == c {
        MarkExact(Process(trees, front).trees[c], levels, h.id);
      }
    }
  }

  ghost predicate AllFit(records: seq<Instance>, levels: seq<Dim>) {
    forall j | 0 <= j < |records| :: InBox(Tuple(records[j], levels), levels)
  }

  lemma {:induction false} GrownBuild(dims: seq<Dim>)
    ensures Grown(ROOT, dims) == Build(dims)
  {
    if dims != [] {
      GrownBuild(dims[..|dims| - 1]);
    }
  }

  ghost predicate HandlesDistinct(infos: seq<CounterInfo>) {
    forall i, j | 0 <= i < j < |infos| :: infos[i].handle != infos[j].handle
  }

  /** What the account holds for counter info.handle when its records are `records`. */
  ghost predicate Holds(a: Account, info: CounterInfo, records: seq<Instance>) {
    && info.handle in a.expected && a.expected[info.handle] == info.instances
    && info.handle in a.trees && a.trees[info.handle] == MarkAll(Build(info.dims), records)
    && Shaped(a.trees[info.handle], Levels(info.dims))
    && AllFit(records, Levels(info.dims))
  }

  lemma {:induction false} AddInfosHolds(a: Account, infos: seq<CounterInfo>, k: nat)
    requires HandlesDistinct(infos) && k < |infos| && infos[k].handle !in a.expected && infos[k].handle !in a.trees
    ensures Holds(AddInfos(a, infos), infos[k], [])
  {
    var front, last := infos[..|infos| - 1], infos[|infos| - 1];
    if k < |front| {
      assert front[k] == infos[k] && HandlesDistinct(front);
      AddInfosHolds(a, front, k);
    } else {
      AddInfosKeys(a, front, last.handle);
      GrownBuild(last.dims);
      BuildShaped(last.dims);
      assert MarkAll(Build(last.dims), []) == Build(last.dims);
    }
  }

  lemma {:induction false} AddInfosKeys(a: Account, infos: seq<CounterInfo>, c: nat)
    ensures c in AddInfos(a, infos).trees <==> c in a.trees || c in Handles(infos)
    ensures c in AddInfos(a, infos).expected <==> c in a.expected || c in Handles(infos)
  {
    if infos != [] {
      var front, last := infos[..|infos| - 1], infos[|infos| - 1];
      AddInfosKeys(a, front, c);
      assert Handles(infos) == Handles(front) + [last.handle];
    }
  }

  /** A counter listed more than once keeps the instance count it is first listed with. */
  lemma {:induction false} FirstCountStays(events: seq<Event>, k: nat)
    requires k < |Supported(events)|
    requires forall j | 0 <= j < k :: Supported(events)[j].handle != Supported(events)[k].handle
    ensures var info := Supported(events)[k];
            info.handle in Run(events).account.expected && Run(events).account.expected[info.handle] == info.instances
  {
    var front, e := events[..|events| - 1], events[|events| - 1];
    AttemptsExact(front);
    if Supported(front) == [] {
      AddInfosExpected(Run(front).account, e.infos, k);
    } else {
      FirstCountStays(front, k);
    }
  }

  lemma {:induction false} AddInfosExpected(a: Account, infos: seq<CounterInfo>, k: nat)
    requires a.expected == map[] && k < |infos|
    requires forall j | 0 <= j < k :: infos[j].handle != infos[k].handle
    ensures infos[k].handle in AddInfos(a, infos).expected
    ensures AddInfos(a, infos).expected[infos[k].handle] == infos[k].instances
  {
    var front := infos[..|infos| - 1];
    if k < |front| {
      AddInfosExpected(a, front, k);
    } else {
      AddInfosKeys(a, front, infos[k].handle);
    }
  }

  /** Trees exist exactly for the supported counters; before that no value record is accepted. */
  lemma {:induction false} KnownCounters(events: seq<Event>, c: nat)
    requires !Run(events).refused
    ensures c in Run(events).account.trees <==> c in Handles(Supported(events))
    ensures c in Run(events).account.expected <==> c in Handles(Supported(events))
    ensures c !in Handles(Supported(events)) ==> Records(Stream(events), c) == []
  {
    if events != [] {
      var front, e := events[..|events| - 1], events[|events| - 1];
      KnownCounters(front, c);
      AttemptsExact(front);
      StreamStep(events, c);
      match e {
        case Buffer(headers) =>
          ProcessMarks(Run(front).account.trees, headers, c);
        case Dispatch(infos) =>
          AddInfosKeys(Run(front).account, infos, c);
      }
    }
  }

  /** Each counter's tree is the one built from its dimensions and marked with its records. */
  lemma {:induction false} RunHolds(events: seq<Event>, k: nat)
    requires AllPlaceable(events) && HandlesDistinct(Supported(events)) && k < |Supported(events)|
    ensures
      var info := Supported(events)[k];
      Holds(Run(events).account, info, Records(Stream(events), info.handle))
  {
    RefusedExactly(events);
    UnrefusedHolds(events, k);
  }

  lemma {:induction false} UnrefusedHolds(events: seq<Event>, k: nat)
    requires !Run(events).refused && HandlesDistinct(Supported(events)) && k < |Supported(events)|
    ensures
      var info := Supported(events)[k];
      Holds(Run(events).account, info, Records(Stream(events), info.handle))
  {
    var front, e := events[..|events| - 1], events[|events| - 1];
    var info := Supported(events)[k];
    StreamStep(events, info.handle);
    AttemptsExact(front);
    if Supported(front) == [] {
      FirstHolds(events, k);
    } else {
      UnrefusedHolds(front, k);
      if e.Buffer? {
        BatchHolds(Run(front).account, e.headers, info, Records(Stream(front), info.handle));
      }
    }
  }

  /** The dispatch that finds the first counters. */
  lemma {:induction false} FirstHolds(events: seq<Event>, k: nat)
    requires events != [] && Supported(events[..|events| - 1]) == []
    requires Run(events[..|events| - 1]).account.expected == map[]
    requires !Run(events).refused && HandlesDistinct(Supported(events)) && k < |Supported(events)|
    ensures
      var info := Supported(events)[k];
      Holds(Run(events).account, info, []) && Records(Stream(events), info.handle) == []
  {
    var front, e := events[..|events| - 1], events[|events| - 1];
    var info := Supported(events)[k];
    KnownCounters(front, info.handle);
    StreamStep(events, info.handle);
    AddInfosHolds(Run(front).account, e.infos, k);
  }

  lemma {:induction false} BatchHolds(a: Account, headers: seq<Header>, info: CounterInfo, records: seq<Instance>)
    requires Holds(a, info, records) && Process(a.trees, headers).ok
    ensures Holds(Batch(a, headers), info, records + Records(headers, info.handle))
  {
    ProcessMarks(a.trees, headers, info.handle);
    ProcessFits(a.trees, headers, info.handle, Levels(info.dims));
    MarkAllAppend(Build(info.dims), records, Records(headers, info.handle));
  }

  /** The verdict on a counter is a pass exactly when it has the expected number of records and
      every coordinate tuple was hit. */
  lemma {:induction false} VerdictExact(events: seq<Event>, k: nat)
    requires AllPlaceable(events) && HandlesDistinct(Supported(events)) && k < |Supported(events)|
    ensures
      var info := Supported(events)[k];
      var a, records := Run(events).account, Records(Stream(events), info.handle);
      && info.handle in a.expected && info.handle in a.trees
      && var v := VerdictOn(a, info.handle);
         (v.Checked? && v.passed) <==> |records| == info.instances && AllHit(records, Levels(info.dims))
  {
    var info := Supported(events)[k];
    var a, records := Run(events).account, Records(Stream(events), info.handle);
    RunHolds(events, k);
    RefusedExactly(events);
    CountsBound(events, info.handle);
    PresenceExact(info.dims, records);
    if AllHit(records, Levels(info.dims)) {
      ProductPositive(Levels(info.dims));
      UnrankRank(0, Levels(info.dims));
      assert Hit(records, Levels(info.dims), Unrank(0, Levels(info.dims)));
    }
  }

  /** A counter without records is reported missing, one with the wrong number of them with that
      number; one with the right number is checked. */
  lemma {:induction false} VerdictKinds(events: seq<Event>, k: nat)
    requires AllPlaceable(events) && HandlesDistinct(Supported(events)) && k < |Supported(events)|
    ensures
      var info := Supported(events)[k];
      var a, records := Run(events).account, Records(Stream(events), info.handle);
      && info.handle in a.expected && info.handle in a.trees
      && var v := VerdictOn(a, info.handle);
         && (v == Missing <==> records == [])
         && (v == Mismatch(|records|) <==> records != [] && |records| != info.instances)
         && (v.Checked? <==> records != [] && |records| == info.instances)
  {
    var info := Supported(events)[k];
    RunHolds(events, k);
    RefusedExactly(events);
    CountsBound(events, info.handle);
    CapturedExactly(events, info.handle);
  }

  /** The listing of a checked counter has one line for each coordinate tuple, in lexicographic order,
      and says whether a record carried it. */
  lemma {:induction false} VerdictLines(events: seq<Event>, k: nat)
    requires AllPlaceable(events) && HandlesDistinct(Supported(events)) && k < |Supported(events)|
    ensures
      var info := Supported(events)[k];
      var levels, records := Levels(info.dims), Records(Stream(events), info.handle);
      var a := Run(events).account;
      && info.handle in a.expected && info.handle in a.trees
      && var v := VerdictOn(a, info.handle);
         v.Checked? ==>
           && |v.lines| == Product(levels)
           && forall u | InBox(u, levels) && Rank(u, levels) < |v.lines| ::
                v.lines[Rank(u, levels)] == Line(Hit(records, levels, u), Coords(u, levels))
  {
    var info := Supported(events)[k];
    var levels, records := Levels(info.dims), Records(Stream(events), info.handle);
    RunHolds(events, k);
    FlagsAreHits(info.dims, records);
    LinesExact(Run(events).account.trees[info.handle], levels, []);
    forall u | InBox(u, levels) ensures [] + Coords(u, levels) == Coords(u, levels) {
    }
  }

  /** When the library's instance count is the number of tuples, a pass means that every tuple was
      hit by exactly one record. */
  lemma {:induction false} PassMeansOnceEach(events: seq<Event>, k: nat)
    requires AllPlaceable(events) && HandlesDistinct(Supported(events)) && k < |Supported(events)|
    requires Supported(events)[k].instances == Product(Levels(Supported(events)[k].dims))
    ensures
      var info := Supported(events)[k];
      var a, records := Run(events).account, Records(Stream(events), info.handle);
      && info.handle in a.expected && info.handle in a.trees
      && var v := VerdictOn(a, info.handle);
         (v.Checked? && v.passed) <==>
         AllHit(records, Levels(info.dims)) && TuplesDistinct(records, Levels(info.dims))
  {
    var info := Supported(events)[k];
    var records := Records(Stream(events), info.handle);
    VerdictExact(events, k);
    RunHolds(events, k);
    if AllHit(records, Levels(info.dims)) {
      CountIffOnce(records, Levels(info.dims));
    }
  }
}
