/**
 The shared index of hit counts and latencies of a thread trace. Any number of threads run the
 trace-data callback and the instruction callback; one step is one lock operation, one map
 operation or one atomic addition.
 */
module TraceIndex {
  import opened Optional
  import opened SharedMutex
  import opened Sums

  /** Counters are 64 bits wide and wrap around. */
  const WORD: nat := 0x1_0000_0000_0000_0000

  datatype Pc = Pc(markerId: nat, addr: nat)

  datatype Event = Event(pc: Pc, hitcount: nat, latency: nat)

  datatype Counter = Hitcount | Latency

  function Amount(e: Event, c: Counter): nat {
    match c case Hitcount => e.hitcount case Latency => e.latency
  }

  /** An entry; its instruction is missing when the decoder returned none. */
  datatype Elem = Elem(hitcount: nat, latency: nat, line: Option<string>) {
    function Count(c: Counter): nat {
      match c case Hitcount => hitcount case Latency => latency
    }
  }

  function FetchAdd(counter: nat, n: nat): nat {
    (counter + n) % WORD
  }

  /** Where a thread is: between calls, in get_trace_data or in isa_callback (Isa...). */
  datatype Local =
    | Idle
    | WantShared(rec: Option<Event>)
    | Find(rec: Option<Event>)
    | Unshare(e: Event)
    | WantExclusive(e: Event)
    | Translate(e: Event)
    | Emplace(e: Event, line: Option<string>)
    | Unexclude(e: Event, fetched: bool)
    | WantSharedAgain(e: Event)
    | AddHitcount(e: Event)
    | AddLatency(e: Event)
    | Leave
    | IsaWant(pc: Pc, room: nat)
    | IsaTranslate(pc: Pc, room: nat)
    | IsaUnexclude(pc: Pc, room: nat, found: Option<string>)
    | IsaEmplace(pc: Pc, text: string)
  {
    predicate HoldsShared() { Find? || Unshare? || AddHitcount? || AddLatency? || Leave? }

    predicate HoldsExclusive() { Translate? || Emplace? || Unexclude? || IsaTranslate? || IsaUnexclude? }

    /** The event whose entry this thread relies on. */
    function Relies(): Option<Event> {
      if WantSharedAgain? || AddHitcount? || AddLatency? || (Unexclude? && fetched) then Some(e) else None
    }

    /** What this call still has to add to counter c. */
    function Pending(c: Counter): nat {
      match this
      case WantShared(Some(e)) => Amount(e, c)
      case Find(Some(e)) => Amount(e, c)
      case Unshare(e) => Amount(e, c)
      case WantExclusive(e) => Amount(e, c)
      case Translate(e) => Amount(e, c)
      case Emplace(e, _) => Amount(e, c)
      case Unexclude(e, fetched) => if fetched then Amount(e, c) else 0
      case WantSharedAgain(e) => Amount(e, c)
      case AddHitcount(e) => Amount(e, c)
      case AddLatency(e) => if c.Latency? then Amount(e, c) else 0
      case _ => 0
    }
  }

  /** The events whose hit count, and whose latency, has been added so far. */
  datatype Logs = Logs(hitcounts: seq<Event>, latencies: seq<Event>) {
    function Of(c: Counter): seq<Event> {
      match c case Hitcount => hitcounts case Latency => latencies
    }
  }

  /** The index, its lock and the threads; and, as history, the events received, those
      added to a counter, and those given up because the decoder threw. */
  datatype State = State(
    isaMap: map<Pc, Elem>,
    mutex: Mutex,
    threads: map<nat, Local>,
    received: seq<Event>,
    added: Logs,
    dropped: seq<Event>)

  /** The decoder throws, returns a null pointer (an unknown code object or an unmapped address), or
      returns an instruction. */
  datatype Decoded = Threw | Nothing | Found(line: string) {
    function Line(): Option<string> { if Found? then Some(line) else None }
  }

  /** What a step may depend on besides the state: the call a client makes (the instruction callback
      comes with the room in its buffer), and what the decoder answers. */
  datatype Action = TraceData(rec: Option<Event>) | IsaCallback(pc: Pc, room: nat) | Go(decoded: Decoded)

  predicate Enabled(s: State, t: nat, a: Action)
    requires t in s.threads
  {
    match s.threads[t]
    case Idle => !a.Go?
    case WantShared(_) => a.Go? && s.mutex.MayShare()
    case WantSharedAgain(_) => a.Go? && s.mutex.MayShare()
    case WantExclusive(_) => a.Go? && s.mutex.MayExclude()
    case IsaWant(_, _) => a.Go? && s.mutex.MayExclude()
    // both fetch_add calls go through an iterator, which must denote an entry
    case AddHitcount(e) => a.Go? && e.pc in s.isaMap
    case AddLatency(e) => a.Go? && e.pc in s.isaMap
    case _ => a.Go?
  }

  /** std::map::emplace: an existing entry stays. */
  function Emplaced(m: map<Pc, Elem>, pc: Pc, line: Option<string>): map<Pc, Elem> {
    if pc in m then m else m[pc := Elem(0, 0, line)]
  }

  function Step(s: State, t: nat, a: Action): State
    requires t in s.threads && Enabled(s, t, a)
  {
    match s.threads[t]
    case Idle =>
      (match a
       case TraceData(rec) =>
         s.(threads := s.threads[t := WantShared(rec)],
            received := if rec.Some? then s.received + [rec.value] else s.received)
       case IsaCallback(pc, room) => s.(threads := s.threads[t := IsaWant(pc, room)]))
    case WantShared(rec) => s.(mutex := s.mutex.Share(t), threads := s.threads[t := Find(rec)])
    case Find(rec) =>
      s.(threads := s.threads[t := if rec.None? then Leave
                                   else if rec.value.pc in s.isaMap then AddHitcount(rec.value)
                                   else Unshare(rec.value)])
    case Unshare(e) => s.(mutex := s.mutex.Unshare(t), threads := s.threads[t := WantExclusive(e)])
    case WantExclusive(e) => s.(mutex := s.mutex.Exclude(t), threads := s.threads[t := Translate(e)])
    case Translate(e) =>
      // only an exception makes the callback return; a null pointer is emplaced
      if a.decoded.Threw? then
        s.(threads := s.threads[t := Unexclude(e, false)], dropped := s.dropped + [e])
      else
        s.(threads := s.threads[t := Emplace(e, a.decoded.Line())])
    case Emplace(e, line) =>
      s.(isaMap := Emplaced(s.isaMap, e.pc, line), threads := s.threads[t := Unexclude(e, true)])
    case Unexclude(e, fetched) =>
      s.(mutex := s.mutex.Unexclude(t),
         threads := s.threads[t := if fetched then WantSharedAgain(e) else Idle])
    case WantSharedAgain(e) => s.(mutex := s.mutex.Share(t), threads := s.threads[t := AddHitcount(e)])
    case AddHitcount(e) =>
      var entry := s.isaMap[e.pc];
      s.(isaMap := s.isaMap[e.pc := entry.(hitcount := FetchAdd(entry.hitcount, e.hitcount))],
         threads := s.threads[t := AddLatency(e)],
         added := s.added.(hitcounts := s.added.hitcounts + [e]))
    case AddLatency(e) =>
      var entry := s.isaMap[e.pc];
      s.(isaMap := s.isaMap[e.pc := entry.(latency := FetchAdd(entry.latency, e.latency))],
         threads := s.threads[t := Leave],
         added := s.added.(latencies := s.added.latencies + [e]))
    case Leave => s.(mutex := s.mutex.Unshare(t), threads := s.threads[t := Idle])
    case IsaWant(pc, room) => s.(mutex := s.mutex.Exclude(t), threads := s.threads[t := IsaTranslate(pc, room)])
    case IsaTranslate(pc, room) => s.(threads := s.threads[t := IsaUnexclude(pc, room, a.decoded.Line())])
    case IsaUnexclude(pc, room, found) =>
      s.(mutex := s.mutex.Unexclude(t),
         threads := s.threads[t := if found.Some? && |found.value| <= room then IsaEmplace(pc, found.value) else Idle])
    case IsaEmplace(pc, text) =>
      s.(isaMap := Emplaced(s.isaMap, pc, Some(text)), threads := s.threads[t := Idle])
  }

  // ---------- sums over event logs ----------

  function SumAll(log: seq<Event>, c: Counter): nat {
    if log == [] then 0 else SumAll(log[..|log| - 1], c) + Amount(log[|log| - 1], c)
  }

  function SumAt(log: seq<Event>, pc: Pc, c: Counter): nat {
    if log == [] then 0
    else SumAt(log[..|log| - 1], pc, c) + (if log[|log| - 1].pc == pc then Amount(log[|log| - 1], c) else 0)
  }

  lemma {:induction false} SumAppend(log: seq<Event>, e: Event, pc: Pc, c: Counter)
    ensures SumAll(log + [e], c) == SumAll(log, c) + Amount(e, c)
    ensures SumAt(log + [e], pc, c) == SumAt(log, pc, c) + if e.pc == pc then Amount(e, c) else 0
  {
    assert (log + [e])[..|log|] == log;
  }

  lemma {:induction false} SumAtAbsent(log: seq<Event>, pc: Pc, c: Counter)
    requires forall e | e in log :: e.pc != pc
    ensures SumAt(log, pc, c) == 0
  {
    if log != [] {
      SumAtAbsent(log[..|log| - 1], pc, c);
    }
  }

  // ---------- the invariant ----------

  ghost predicate LockInv(s: State) {
    && s.mutex.Sound()
    && (forall t :: t in s.mutex.readers <==> t in s.threads && s.threads[t].HoldsShared())
    && (forall t :: t in s.mutex.writers <==> t in s.threads && s.threads[t].HoldsExclusive())
  }

  /** Every entry holds, modulo the word size, the sum of the events already added for its pc. */
  ghost predicate EntryInv(s: State, pc: Pc, c: Counter)
    requires pc in s.isaMap
  {
    s.isaMap[pc].Count(c) == SumAt(s.added.Of(c), pc, c) % WORD
  }

  /** Every received event is counted once: added, given up, or still in the hands of a thread. */
  ghost predicate Conserved(s: State, c: Counter)
  {
    SumAll(s.received, c) == SumAll(s.added.Of(c), c) + SumAll(s.dropped, c) + InFlight(s.threads, c)
  }

  ghost function InFlight(threads: map<nat, Local>, c: Counter): nat {
    Total(map t | t in threads :: threads[t].Pending(c))
  }

  ghost predicate Inv(s: State) {
    && LockInv(s)
    && (forall t | t in s.threads && s.threads[t].Relies().Some? :: s.threads[t].Relies().value.pc in s.isaMap)
    && (forall c, e | e in s.added.Of(c) :: e.pc in s.isaMap)
    && (forall pc, c | pc in s.isaMap :: EntryInv(s, pc, c))
    && (forall c :: Conserved(s, c))
  }

  predicate Init(s: State) {
    && s.isaMap == map[] && s.mutex == Mutex({}, {})
    && (forall t | t in s.threads :: s.threads[t].Idle?)
    && s.received == [] && s.added == Logs([], []) && s.dropped == []
  }

  lemma {:induction false} InitInv(s: State)
    requires Init(s)
    ensures Inv(s)
  {
    forall c ensures Conserved(s, c) {
      NothingInFlight(s.threads, c);
    }
  }

  lemma {:induction false} NothingInFlight(threads: map<nat, Local>, c: Counter)
    requires forall t | t in threads :: threads[t].Pending(c) == 0
    ensures InFlight(threads, c) == 0
  {
    TotalZero(map t | t in threads :: threads[t].Pending(c));
  }

  lemma {:induction false} StepLock(s: State, t: nat, a: Action)
    requires LockInv(s) && t in s.threads && Enabled(s, t, a)
    ensures LockInv(Step(s, t, a))
  {
  }

  /** An entry, once made, stays: its instruction never changes. */
  lemma {:induction false} EntriesStay(s: State, t: nat, a: Action, pc: Pc)
    requires Inv(s) && t in s.threads && Enabled(s, t, a) && pc in s.isaMap
    ensures pc in Step(s, t, a).isaMap && Step(s, t, a).isaMap[pc].line == s.isaMap[pc].line
  {
  }

  /** Only events with an entry are added. */
  lemma {:induction false} StepLogged(s: State, t: nat, a: Action, c: Counter, e: Event)
    requires Inv(s) && t in s.threads && Enabled(s, t, a) && e in Step(s, t, a).added.Of(c)
    ensures e.pc in Step(s, t, a).isaMap
  {
    if e in s.added.Of(c) {
      EntriesStay(s, t, a, e.pc);
    } else {
      assert s.threads[t] == AddHitcount(e) || s.threads[t] == AddLatency(e);
    }
  }

  lemma {:induction false} StepEntry(s: State, t: nat, a: Action, pc: Pc, c: Counter)
    requires Inv(s) && t in s.threads && Enabled(s, t, a) && pc in Step(s, t, a).isaMap
    ensures EntryInv(Step(s, t, a), pc, c)
  {
    var x := s.threads[t];
    if x.AddHitcount? {
      assert EntryInv(s, x.e.pc, Hitcount);
      AddedEntry(s.isaMap[x.e.pc].hitcount, s.added.hitcounts, x.e, Hitcount);
      assert EntryInv(s, pc, c);
      SumAppend(s.added.hitcounts, x.e, pc, Hitcount);
    } else if x.AddLatency? {
      assert EntryInv(s, x.e.pc, Latency);
      AddedEntry(s.isaMap[x.e.pc].latency, s.added.latencies, x.e, Latency);
      assert EntryInv(s, pc, c);
      SumAppend(s.added.latencies, x.e, pc, Latency);
    } else if pc !in s.isaMap {
      SumAtAbsent(s.added.Of(c), pc, c);
    } else {
      assert EntryInv(s, pc, c);
    }
  }

  /** Adding an event to a counter that holds the sum of its log. */
  lemma {:induction false} AddedEntry(counter: nat, log: seq<Event>, e: Event, c: Counter)
    requires counter == SumAt(log, e.pc, c) % WORD
    ensures FetchAdd(counter, Amount(e, c)) == SumAt(log + [e], e.pc, c) % WORD
  {
    SumAppend(log, e, e.pc, c);
    WrapAdd(SumAt(log, e.pc, c), Amount(e, c));
  }

  lemma {:induction false} WrapAdd(a: nat, b: nat)
    ensures (a % WORD + b) % WORD == (a + b) % WORD
  {
  }

  lemma {:induction false} StepInFlight(s: State, t: nat, a: Action, c: Counter)
    requires t in s.threads && Enabled(s, t, a)
    ensures var s' := Step(s, t, a);
            InFlight(s'.threads, c) + s.threads[t].Pending(c) == InFlight(s.threads, c) + s'.threads[t].Pending(c)
  {
    var s' := Step(s, t, a);
    var x' := s'.threads[t];
    var before := map u | u in s.threads :: s.threads[u].Pending(c);
    var after := map u | u in s'.threads :: s'.threads[u].Pending(c);
    assert s'.threads == s.threads[t := x'];
    assert after == before[t := x'.Pending(c)];
    TotalUpdate(before, t, x'.Pending(c));
  }

  /** Steps other than the start of a call, a failed translation and the two additions change no
      log, and leave the call with as much to add as before. */
  lemma {:induction false} StepQuiet(s: State, t: nat, a: Action, c: Counter)
    requires t in s.threads && Enabled(s, t, a)
    requires var x := s.threads[t]; !x.Idle? && !x.Translate? && !x.AddHitcount? && !x.AddLatency?
    ensures var s' := Step(s, t, a);
            && s'.received == s.received && s'.added == s.added && s'.dropped == s.dropped
            && s'.threads[t].Pending(c) == s.threads[t].Pending(c)
  {
  }

  /** The received amount of counter c that the logs and thread t do not account for. */
  function Missing(s: State, t: nat, c: Counter): int
    requires t in s.threads
  {
    SumAll(s.received, c) - SumAll(s.added.Of(c), c) - SumAll(s.dropped, c) - s.threads[t].Pending(c)
  }

  /** The log of the counter that is added to grows by the event; the other log stays. */
  lemma {:induction false} StepAddedLog(s: State, t: nat, a: Action, c: Counter)
    requires t in s.threads && Enabled(s, t, a) && (s.threads[t].AddHitcount? || s.threads[t].AddLatency?)
    ensures var x, s' := s.threads[t], Step(s, t, a);
      && s'.received == s.received && s'.dropped == s.dropped
      && s'.threads[t].Pending(c) == (if c.Latency? && x.AddHitcount? then Amount(x.e, c) else 0)
      && s'.added.Of(c) == if c.Hitcount? == x.AddHitcount? then s.added.Of(c) + [x.e] else s.added.Of(c)
  {
  }

  lemma {:induction false} StepAddition(s: State, t: nat, a: Action, c: Counter)
    requires t in s.threads && Enabled(s, t, a) && (s.threads[t].AddHitcount? || s.threads[t].AddLatency?)
    ensures Missing(Step(s, t, a), t, c) == Missing(s, t, c)
  {
    StepAddedLog(s, t, a, c);
    SumAppend(s.added.Of(c), s.threads[t].e, s.threads[t].e.pc, c);
  }

  lemma {:induction false} StepDrop(s: State, t: nat, a: Action, c: Counter)
    requires t in s.threads && Enabled(s, t, a) && s.threads[t].Translate?
    ensures Missing(Step(s, t, a), t, c) == Missing(s, t, c)
  {
    var s', e := Step(s, t, a), s.threads[t].e;
    assert s'.received == s.received && s'.added == s.added;
    if a.decoded.Threw? {
      assert s'.dropped == s.dropped + [e] && s'.threads[t] == Unexclude(e, false);
      SumAppend(s.dropped, e, e.pc, c);
    } else {
      assert s'.dropped == s.dropped && s'.threads[t] == Emplace(e, a.decoded.Line());
    }
  }

  lemma {:induction false} StepStart(s: State, t: nat, a: Action, c: Counter)
    requires t in s.threads && Enabled(s, t, a) && s.threads[t].Idle?
    ensures Missing(Step(s, t, a), t, c) == Missing(s, t, c)
  {
    if a.TraceData? && a.rec.Some? {
      SumAppend(s.received, a.rec.value, a.rec.value.pc, c);
    }
  }

  /** What the logs gain in a step is what the thread's call no longer has to add. */
  lemma {:induction false} StepLogs(s: State, t: nat, a: Action, c: Counter)
    requires t in s.threads && Enabled(s, t, a)
    ensures Missing(Step(s, t, a), t, c) == Missing(s, t, c)
  {
    var x := s.threads[t];
    if x.AddHitcount? || x.AddLatency? {
      StepAddition(s, t, a, c);
    } else if x.Translate? {
      StepDrop(s, t, a, c);
    } else if x.Idle? {
      StepStart(s, t, a, c);
    } else {
      StepQuiet(s, t, a, c);
    }
  }

  lemma {:induction false} StepConserved(s: State, t: nat, a: Action, c: Counter)
    requires Conserved(s, c) && t in s.threads && Enabled(s, t, a)
    ensures Conserved(Step(s, t, a), c)
  {
    StepInFlight(s, t, a, c);
    StepLogs(s, t, a, c);
  }

  /** Every step of every thread keeps the invariant. */
  lemma {:induction false} StepInv(s: State, t: nat, a: Action)
    requires Inv(s) && t in s.threads && Enabled(s, t, a)
    ensures Inv(Step(s, t, a))
  {
    var s' := Step(s, t, a);
    StepLock(s, t, a);
    forall u | u in s'.threads && s'.threads[u].Relies().Some?
      ensures s'.threads[u].Relies().value.pc in s'.isaMap
    {
      assert u != t ==> s'.threads[u] == s.threads[u];
    }
    forall c, e | e in s'.added.Of(c) ensures e.pc in s'.isaMap {
      StepLogged(s, t, a, c, e);
    }
    forall pc, c | pc in s'.isaMap ensures EntryInv(s', pc, c) {
      StepEntry(s, t, a, pc, c);
    }
    forall c ensures Conserved(s', c) {
      StepConserved(s, t, a, c);
    }
  }

  /** No fetch_add ever goes through a missing entry. */
  lemma {:induction false} AdditionEnabled(s: State, t: nat, decoded: Decoded)
    requires Inv(s) && t in s.threads && (s.threads[t].AddHitcount? || s.threads[t].AddLatency?)
    ensures s.threads[t].e.pc in s.isaMap && Enabled(s, t, Go(decoded))
  {
    assert s.threads[t].Relies() == Some(s.threads[t].e);
  }

  /** The two locks never deadlock. */
  lemma {:induction false} NoDeadlock(s: State, t: nat)
    requires Inv(s) && t in s.threads && !s.threads[t].Idle?
    ensures exists u :: u in s.threads && !s.threads[u].Idle? && Enabled(s, u, Go(Threw))
  {
    if !Enabled(s, t, Go(Threw)) {
      assert s.mutex.readers != {} || s.mutex.writers != {};
      var u :| u in s.mutex.readers + s.mutex.writers;
      assert Enabled(s, u, Go(Threw));
    }
  }

  // ---------- whole runs ----------

  /** The state after the given steps, if each of them was enabled when taken. */
  function Run(s: State, steps: seq<(nat, Action)>): Option<State>
    requires Inv(s)
    decreases |steps|
  {
    if steps == [] then Some(s)
    else if steps[0].0 in s.threads && Enabled(s, steps[0].0, steps[0].1) then
      StepInv(s, steps[0].0, steps[0].1);
      Run(Step(s, steps[0].0, steps[0].1), steps[1..])
    else None
  }

  /** After any run, whatever the interleaving: every entry is the sum of the events added for it,
      no entry made earlier is gone or replaced, and nothing received is lost. */
  lemma {:induction false} RunCorrect(s: State, steps: seq<(nat, Action)>)
    requires Inv(s) && Run(s, steps).Some?
    ensures Inv(Run(s, steps).value)
    ensures forall pc | pc in s.isaMap ::
              pc in Run(s, steps).value.isaMap && Run(s, steps).value.isaMap[pc].line == s.isaMap[pc].line
    decreases |steps|
  {
    if steps != [] {
      var s1 := Step(s, steps[0].0, steps[0].1);
      StepInv(s, steps[0].0, steps[0].1);
      forall pc | pc in s.isaMap ensures pc in s1.isaMap && s1.isaMap[pc].line == s.isaMap[pc].line {
        EntriesStay(s, steps[0].0, steps[0].1, pc);
      }
      RunCorrect(s1, steps[1..]);
    }
  }
}
