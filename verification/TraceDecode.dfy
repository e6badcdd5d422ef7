/**
 Entries without an instruction: the trace-data callback emplaces whatever pointer the decoder
 returns, so an address that decodes to nothing gets an entry that the final report cannot print.
 */
module TraceDecode {
  import opened Optional
  import opened SharedMutex
  import opened TraceIndex
  import opened TraceReport

  type Steps = seq<(nat, Action)>

  predicate Blank(m: map<Pc, Elem>, pc: Pc) {
    pc in m && m[pc].line.None?
  }

  lemma {:induction false} PrintableIffNoBlank(m: map<Pc, Elem>)
    ensures Printable(m) <==> forall pc :: !Blank(m, pc)
  {
    if Printable(m) {
      forall pc ensures !Blank(m, pc) {
        assert pc in m ==> HasLine(m, pc);
      }
    } else {
      var pc :| pc in m && !HasLine(m, pc);
      assert Blank(m, pc);
    }
  }

  // ---------- any answers of the decoder ----------

  /** The step makes the entry of pc, with what a decode that returned no instruction left. */
  predicate MakesBlank(s: State, t: nat, pc: Pc) {
    t in s.threads && s.threads[t].Emplace? && s.threads[t].e.pc == pc && s.threads[t].line.None? && pc !in s.isaMap
  }

  /** The addresses whose entry some step of the run made so. */
  function Blanked(s: State, steps: Steps): set<Pc>
    requires Inv(s) && Run(s, steps).Some?
    decreases |steps|
  {
    if steps == [] then {}
    else
      var (t, a) := steps[0];
      StepInv(s, t, a);
      Blanked(Step(s, t, a), steps[1..]) + if MakesBlank(s, t, CurrentPc(s, t)) then {CurrentPc(s, t)} else {}
  }

  function CurrentPc(s: State, t: nat): Pc {
    if t in s.threads && s.threads[t].Emplace? then s.threads[t].e.pc else Pc(0, 0)
  }

  lemma {:induction false} StepBlank(s: State, t: nat, a: Action, pc: Pc)
    requires Inv(s) && t in s.threads && Enabled(s, t, a)
    ensures Blank(Step(s, t, a).isaMap, pc) <==> Blank(s.isaMap, pc) || MakesBlank(s, t, pc)
  {
  }

  lemma {:induction false} BlankOrigin(s: State, steps: Steps, pc: Pc)
    requires Inv(s) && Run(s, steps).Some?
    ensures Blank(Run(s, steps).value.isaMap, pc) <==> Blank(s.isaMap, pc) || pc in Blanked(s, steps)
    decreases |steps|
  {
    if steps != [] {
      StepInv(s, steps[0].0, steps[0].1);
      StepBlank(s, steps[0].0, steps[0].1, pc);
      BlankOrigin(Step(s, steps[0].0, steps[0].1), steps[1..], pc);
    }
  }

  /** After any run the report can be made exactly when no entry was first made by a decode that
      returned no instruction. */
  lemma {:induction false} PrintableExactly(s: State, steps: Steps)
    requires Init(s) && Inv(s) && Run(s, steps).Some?
    ensures Printable(Run(s, steps).value.isaMap) <==> Blanked(s, steps) == {}
  {
    var m := Run(s, steps).value.isaMap;
    PrintableIffNoBlank(m);
    forall pc ensures Blank(m, pc) <==> pc in Blanked(s, steps) {
      BlankOrigin(s, steps, pc);
    }
  }

  // ---------- calls that run alone ----------

  lemma {:induction false} RunSnoc(s: State, steps: Steps, t: nat, a: Action)
    requires Inv(s) && Run(s, steps).Some?
    requires var s' := Run(s, steps).value; t in s'.threads && Enabled(s', t, a)
    ensures Run(s, steps + [(t, a)]) == Some(Step(Run(s, steps).value, t, a))
    decreases |steps|
  {
    if steps == [] {
      assert steps + [(t, a)] == [(t, a)];
      assert [(t, a)][1..] == [];
      StepInv(s, t, a);
    } else {
      StepInv(s, steps[0].0, steps[0].1);
      assert (steps + [(t, a)])[1..] == steps[1..] + [(t, a)];
      RunSnoc(Step(s, steps[0].0, steps[0].1), steps[1..], t, a);
    }
  }

  /** Thread t goes on alone until its call is over, the decoder answering d. */
  lemma {:induction false} Alone(s: State, steps: Steps, t: nat, d: Decoded, fuel: nat)
    returns (steps': Steps, s': State)
    requires Inv(s) && Run(s, steps).Some? && t in Run(s, steps).value.threads
    ensures Run(s, steps') == Some(s')
    ensures s' == AloneFrom(Run(s, steps).value, t, d, fuel)
    decreases fuel
  {
    var now := Run(s, steps).value;
    if fuel == 0 || now.threads[t].Idle? || !Enabled(now, t, Go(d)) {
      steps', s' := steps, now;
    } else {
      RunSnoc(s, steps, t, Go(d));
      steps', s' := Alone(s, steps + [(t, Go(d))], t, d, fuel - 1);
    }
  }

  function AloneFrom(s: State, t: nat, d: Decoded, fuel: nat): (s': State)
    requires t in s.threads
    ensures t in s'.threads
    decreases fuel
  {
    if fuel == 0 || s.threads[t].Idle? || !Enabled(s, t, Go(d)) then s
    else AloneFrom(Step(s, t, Go(d)), t, d, fuel - 1)
  }

  lemma {:induction false} AloneStep(s: State, t: nat, d: Decoded, fuel: nat, next: Local) returns (s': State)
    requires fuel > 0 && t in s.threads && !s.threads[t].Idle? && Enabled(s, t, Go(d))
    requires Step(s, t, Go(d)).threads == s.threads[t := next]
    ensures s' == Step(s, t, Go(d)) && s'.threads == s.threads[t := next] && s'.threads[t] == next
    ensures AloneFrom(s, t, d, fuel) == AloneFrom(s', t, d, fuel - 1)
  {
    s' := Step(s, t, Go(d));
  }

  lemma {:induction false} SetTwice(threads: map<nat, Local>, t: nat, x: Local, y: Local)
    ensures threads[t := x][t := y] == threads[t := y]
  {
  }

  /** The instruction callback alone: it leaves an entry without counts for an instruction that fits
      the buffer, unless there is an entry; otherwise it changes nothing. */
  lemma {:induction false} IsaCallAlone(s: State, t: nat, pc: Pc, room: nat, d: Decoded)
    requires s.mutex == Mutex({}, {}) && t in s.threads && s.threads[t] == IsaWant(pc, room)
    ensures AloneFrom(s, t, d, 4) ==
            s.(threads := s.threads[t := Idle],
               isaMap := if d.Found? && |d.line| <= room && pc !in s.isaMap
                         then s.isaMap[pc := Elem(0, 0, Some(d.line))] else s.isaMap)
  {
    var s1 := AloneStep(s, t, d, 4, IsaTranslate(pc, room));
    var s2 := AloneStep(s1, t, d, 3, IsaUnexclude(pc, room, d.Line()));
    SetTwice(s.threads, t, IsaTranslate(pc, room), IsaUnexclude(pc, room, d.Line()));
    IsaCallEnds(s2, t, pc, room, d);
    SetTwice(s.threads, t, IsaUnexclude(pc, room, d.Line()), Idle);
  }

  lemma {:induction false} IsaCallEnds(s: State, t: nat, pc: Pc, room: nat, d: Decoded)
    requires s.mutex == Mutex({}, {t}) && t in s.threads && s.threads[t] == IsaUnexclude(pc, room, d.Line())
    ensures AloneFrom(s, t, d, 2) ==
            s.(threads := s.threads[t := Idle], mutex := Mutex({}, {}),
               isaMap := if d.Found? && |d.line| <= room && pc !in s.isaMap
                         then s.isaMap[pc := Elem(0, 0, Some(d.line))] else s.isaMap)
  {
    if d.Found? && |d.line| <= room {
      var s1 := AloneStep(s, t, d, 2, IsaEmplace(pc, d.line));
      var s2 := AloneStep(s1, t, d, 1, Idle);
      SetTwice(s.threads, t, IsaEmplace(pc, d.line), Idle);
    } else {
      var s1 := AloneStep(s, t, d, 2, Idle);
    }
  }

  /** The same under any interleaving: once the decoder has given an instruction that fits, the entry
      is there by the time the call is over, and stays. */
  lemma {:induction false} IsaCallLeavesEntry(s: State, steps: Steps, t: nat, pc: Pc, room: nat, text: string)
    requires Inv(s) && Run(s, steps).Some? && t in s.threads && |text| <= room
    requires s.threads[t] == IsaUnexclude(pc, room, Some(text)) || s.threads[t] == IsaEmplace(pc, text)
    ensures var s' := Run(s, steps).value;
            pc in s'.isaMap || (t in s'.threads && (s'.threads[t] == IsaUnexclude(pc, room, Some(text))
                                                    || s'.threads[t] == IsaEmplace(pc, text)))
    decreases |steps|
  {
    if steps != [] {
      var s1 := Step(s, steps[0].0, steps[0].1);
      StepInv(s, steps[0].0, steps[0].1);
      if steps[0].0 == t && s.threads[t].IsaEmplace? {
        assert pc in s1.isaMap;
        RunCorrect(s1, steps[1..]);
      } else {
        IsaCallLeavesEntry(s1, steps[1..], t, pc, room, text);
      }
    }
  }

  function Counted(m: map<Pc, Elem>, e: Event): map<Pc, Elem>
    requires e.pc in m
  {
    m[e.pc := Elem((m[e.pc].hitcount + e.hitcount) % WORD, (m[e.pc].latency + e.latency) % WORD, m[e.pc].line)]
  }

  /** The trace-data callback alone, on an event with an entry: its counts are added. */
  lemma {:induction false} TraceCallHits(s: State, t: nat, e: Event, d: Decoded)
    requires s.mutex == Mutex({}, {}) && t in s.threads && s.threads[t] == WantShared(Some(e)) && e.pc in s.isaMap
    ensures AloneFrom(s, t, d, 11) ==
            s.(isaMap := s.isaMap[e.pc := Elem((s.isaMap[e.pc].hitcount + e.hitcount) % WORD,
                                               (s.isaMap[e.pc].latency + e.latency) % WORD, s.isaMap[e.pc].line)],
               threads := s.threads[t := Idle], added := Logs(s.added.hitcounts + [e], s.added.latencies + [e]))
  {
    var s1 := AloneStep(s, t, d, 11, Find(Some(e)));
    var s2 := AloneStep(s1, t, d, 10, AddHitcount(e));
    SetTwice(s.threads, t, Find(Some(e)), AddHitcount(e));
    AloneAdds(s2, t, e, d, 9);
    SetTwice(s.threads, t, AddHitcount(e), Idle);
  }

  /** On an event without an entry, the decoder not throwing: it gets an entry with its counts and
      what was decoded. */
  lemma {:induction false} TraceCallMisses(s: State, t: nat, e: Event, d: Decoded)
    requires s.mutex == Mutex({}, {}) && t in s.threads && s.threads[t] == WantShared(Some(e)) && e.pc !in s.isaMap
    requires !d.Threw?
    ensures AloneFrom(s, t, d, 11) ==
            s.(isaMap := s.isaMap[e.pc := Elem(e.hitcount % WORD, e.latency % WORD,
                                               if d.Found? then Some(d.line) else None)],
               threads := s.threads[t := Idle], added := Logs(s.added.hitcounts + [e], s.added.latencies + [e]))
  {
    var made := s.isaMap[e.pc := Elem(0, 0, d.Line())];
    AloneMakes(s, t, e, d);
    AloneCounts(s.(isaMap := made, threads := s.threads[t := WantSharedAgain(e)]), t, e, d);
    SetTwice(s.threads, t, WantSharedAgain(e), Idle);
    CountedNew(s.isaMap, e, d.Line());
  }

  lemma {:induction false} CountedNew(m: map<Pc, Elem>, e: Event, line: Option<string>)
    ensures Counted(m[e.pc := Elem(0, 0, line)], e) == m[e.pc := Elem(e.hitcount % WORD, e.latency % WORD, line)]
  {
  }

  lemma {:induction false} AloneMakes(s: State, t: nat, e: Event, d: Decoded)
    requires s.mutex == Mutex({}, {}) && t in s.threads && s.threads[t] == WantShared(Some(e)) && e.pc !in s.isaMap
    requires !d.Threw?
    ensures AloneFrom(s, t, d, 11) ==
            AloneFrom(s.(isaMap := s.isaMap[e.pc := Elem(0, 0, d.Line())],
                         threads := s.threads[t := WantSharedAgain(e)]), t, d, 4)
  {
    AloneMisses(s, t, e, d);
    AloneEmplaces(s.(threads := s.threads[t := WantExclusive(e)]), t, e, d);
    SetTwice(s.threads, t, WantExclusive(e), WantSharedAgain(e));
  }

  lemma {:induction false} AloneCounts(s: State, t: nat, e: Event, d: Decoded)
    requires s.mutex == Mutex({}, {}) && e.pc in s.isaMap && t in s.threads && s.threads[t] == WantSharedAgain(e)
    ensures AloneFrom(s, t, d, 4) ==
            s.(isaMap := Counted(s.isaMap, e), threads := s.threads[t := Idle],
               added := Logs(s.added.hitcounts + [e], s.added.latencies + [e]))
  {
    var s1 := AloneStep(s, t, d, 4, AddHitcount(e));
    AloneAdds(s1, t, e, d, 3);
    SetTwice(s.threads, t, AddHitcount(e), Idle);
  }

  /** The decoder throwing: the event is given up, and nothing else changes. */
  lemma {:induction false} TraceCallGivesUp(s: State, t: nat, e: Event)
    requires s.mutex == Mutex({}, {}) && t in s.threads && s.threads[t] == WantShared(Some(e)) && e.pc !in s.isaMap
    ensures AloneFrom(s, t, Threw, 11) == s.(threads := s.threads[t := Idle], dropped := s.dropped + [e])
  {
    var s3 := s.(threads := s.threads[t := WantExclusive(e)]);
    AloneMisses(s, t, e, Threw);
    var s4 := AloneStep(s3, t, Threw, 8, Translate(e));
    var s5 := AloneStep(s4, t, Threw, 7, Unexclude(e, false));
    var s6 := AloneStep(s5, t, Threw, 6, Idle);
    assert s6.threads == s.threads[t := Idle];
  }

  /** A record that is no instruction record changes nothing. */
  lemma {:induction false} TraceCallIgnores(s: State, t: nat, d: Decoded)
    requires s.mutex == Mutex({}, {}) && t in s.threads && s.threads[t] == WantShared(None)
    ensures AloneFrom(s, t, d, 11) == s.(threads := s.threads[t := Idle])
  {
    var s1 := AloneStep(s, t, d, 11, Find(None));
    var s2 := AloneStep(s1, t, d, 10, Leave);
    var s3 := AloneStep(s2, t, d, 9, Idle);
    assert s3.threads == s.threads[t := Idle];
  }

  lemma {:induction false} AloneMisses(s: State, t: nat, e: Event, d: Decoded)
    requires s.mutex == Mutex({}, {}) && t in s.threads && s.threads[t] == WantShared(Some(e)) && e.pc !in s.isaMap
    ensures AloneFrom(s, t, d, 11) == AloneFrom(s.(threads := s.threads[t := WantExclusive(e)]), t, d, 8)
  {
    var s1 := AloneStep(s, t, d, 11, Find(Some(e)));
    var s2 := AloneStep(s1, t, d, 10, Unshare(e));
    var s3 := AloneStep(s2, t, d, 9, WantExclusive(e));
    assert s3 == s.(threads := s.threads[t := WantExclusive(e)]);
  }

  lemma {:induction false} AloneEmplaces(s: State, t: nat, e: Event, d: Decoded)
    requires s.mutex == Mutex({}, {}) && t in s.threads && s.threads[t] == WantExclusive(e) && e.pc !in s.isaMap
    requires !d.Threw?
    ensures AloneFrom(s, t, d, 8) ==
            AloneFrom(s.(isaMap := s.isaMap[e.pc := Elem(0, 0, d.Line())],
                         threads := s.threads[t := WantSharedAgain(e)]), t, d, 4)
  {
    var s1 := AloneStep(s, t, d, 8, Translate(e));
    var s2 := AloneStep(s1, t, d, 7, Emplace(e, d.Line()));
    AloneReturns(s2, t, e, d);
    SetTwice(s.threads, t, Translate(e), Emplace(e, d.Line()));
    SetTwice(s.threads, t, Emplace(e, d.Line()), WantSharedAgain(e));
  }

  lemma {:induction false} AloneReturns(s: State, t: nat, e: Event, d: Decoded)
    requires s.mutex == Mutex({}, {t}) && t in s.threads && s.threads[t] == Emplace(e, d.Line()) && e.pc !in s.isaMap
    ensures AloneFrom(s, t, d, 6) ==
            AloneFrom(s.(isaMap := s.isaMap[e.pc := Elem(0, 0, d.Line())], mutex := Mutex({}, {}),
                         threads := s.threads[t := WantSharedAgain(e)]), t, d, 4)
  {
    var s1 := AloneStep(s, t, d, 6, Unexclude(e, true));
    var s2 := AloneStep(s1, t, d, 5, WantSharedAgain(e));
    assert s2.mutex == Mutex({}, {});
    SetTwice(s.threads, t, Unexclude(e, true), WantSharedAgain(e));
  }

  /** The two additions and the release of the lock. */
  lemma {:induction false} AloneAdds(s: State, t: nat, e: Event, d: Decoded, fuel: nat)
    requires fuel >= 3 && s.mutex == Mutex({t}, {}) && e.pc in s.isaMap
    requires t in s.threads && s.threads[t] == AddHitcount(e)
    ensures AloneFrom(s, t, d, fuel) ==
            s.(isaMap := Counted(s.isaMap, e), threads := s.threads[t := Idle], mutex := Mutex({}, {}),
               added := Logs(s.added.hitcounts + [e], s.added.latencies + [e]))
  {
    var s1 := AloneStep(s, t, d, fuel, AddLatency(e));
    var s2 := AloneStep(s1, t, d, fuel - 1, Leave);
    assert s2.isaMap == Counted(s.isaMap, e);
    var s3 := AloneStep(s2, t, d, fuel - 2, Idle);
    SetTwice(s.threads, t, AddLatency(e), Leave);
    SetTwice(s.threads, t, Leave, Idle);
  }

  /** One event whose address decodes to nothing is enough: its counts are added to an entry without
      an instruction, and the report cannot be made. */
  lemma {:induction false} BlankRun(s: State, t: nat, e: Event) returns (steps: Steps, s': State)
    requires Init(s) && t in s.threads
    ensures Inv(s) && Run(s, steps) == Some(s') && Quiescent(s')
    ensures s'.received == [e] && s'.dropped == []
    ensures s'.isaMap == map[e.pc := Elem(e.hitcount % WORD, e.latency % WORD, None)] && !Printable(s'.isaMap)
  {
    InitInv(s);
    var start := (t, TraceData(Some(e)));
    assert Run(s, []) == Some(s);
    RunSnoc(s, [], t, start.1);
    assert [] + [start] == [start];
    var s1 := Step(s, t, start.1);
    steps, s' := Alone(s, [start], t, Nothing, 11);
    TraceCallMisses(s1, t, e, Nothing);
    assert Blank(s'.isaMap, e.pc);
    PrintableIffNoBlank(s'.isaMap);
  }

  // ---------- a decoder that answers the same every time ----------

  /** The answer a step gets is the decoder's answer on the address it asks for. */
  predicate Answered(s: State, t: nat, a: Action, decode: Pc -> Decoded) {
    t in s.threads && a.Go? ==>
      && (s.threads[t].Translate? ==> a.decoded == decode(s.threads[t].e.pc))
      && (s.threads[t].IsaTranslate? ==> a.decoded == decode(s.threads[t].pc))
  }

  predicate Follows(s: State, steps: Steps, decode: Pc -> Decoded)
    requires Inv(s) && Run(s, steps).Some?
    decreases |steps|
  {
    steps != [] ==>
      && Answered(s, steps[0].0, steps[0].1, decode)
      && (StepInv(s, steps[0].0, steps[0].1); Follows(Step(s, steps[0].0, steps[0].1), steps[1..], decode))
  }

  function Input(a: Action): seq<Event> {
    if a.TraceData? && a.rec.Some? then [a.rec.value] else []
  }

  /** The events the clients hand over. */
  function Inputs(steps: Steps): seq<Event>
    decreases |steps|
  {
    if steps == [] then []
    else Input(steps[0].1) + Inputs(steps[1..])
  }

  /** The event a call in progress still has to add. */
  function Carries(x: Local): Option<Event> {
    match x
    case WantShared(rec) => rec
    case Find(rec) => rec
    case Unshare(e) => Some(e)
    case WantExclusive(e) => Some(e)
    case Translate(e) => Some(e)
    case Emplace(e, _) => Some(e)
    case Unexclude(e, fetched) => if fetched then Some(e) else None
    case WantSharedAgain(e) => Some(e)
    case AddHitcount(e) => Some(e)
    case AddLatency(e) => Some(e)
    case _ => None
  }

  ghost predicate LocalDecoded(x: Local, decode: Pc -> Decoded) {
    match x
    case Emplace(e, line) => !decode(e.pc).Threw? && line == decode(e.pc).Line()
    case IsaUnexclude(pc, _, found) => found == decode(pc).Line()
    case IsaEmplace(pc, line) => decode(pc) == Found(line)
    case _ => true
  }

  ghost predicate EntryDecoded(m: map<Pc, Elem>, pc: Pc, decode: Pc -> Decoded)
    requires pc in m
  {
    !decode(pc).Threw? && m[pc].line == decode(pc).Line()
  }

  ghost predicate ReceivedAt(received: seq<Event>, pc: Pc) {
    exists e | e in received :: e.pc == pc
  }

  /** A received event was added, given up, or is still to be added by a call. */
  ghost predicate Kept(s: State, e: Event) {
    e in s.added.latencies || e in s.dropped || exists t :: t in s.threads && Carries(s.threads[t]) == Some(e)
  }

  ghost predicate DecodeInv(s: State, decode: Pc -> Decoded) {
    && (forall t | t in s.threads :: LocalDecoded(s.threads[t], decode))
    && (forall t | t in s.threads && Carries(s.threads[t]).Some? :: Carries(s.threads[t]).value in s.received)
    && (forall pc | pc in s.isaMap :: EntryDecoded(s.isaMap, pc, decode))
    && (forall pc | Blank(s.isaMap, pc) :: ReceivedAt(s.received, pc))
    && (forall e | e in s.dropped :: decode(e.pc).Threw?)
    && (forall e | e in s.received :: Kept(s, e))
  }

  /** The stepping thread's new state agrees with the decoder; the event it carries was carried before
      or has just been received. */
  lemma {:induction false} StepOwnDecoded(s: State, t: nat, a: Action, decode: Pc -> Decoded)
    requires t in s.threads && Enabled(s, t, a) && Answered(s, t, a, decode) && LocalDecoded(s.threads[t], decode)
    ensures LocalDecoded(Step(s, t, a).threads[t], decode)
  {
  }

  lemma {:induction false} StepOwnCarries(s: State, t: nat, a: Action)
    requires t in s.threads && Enabled(s, t, a)
    requires Carries(s.threads[t]).Some? ==> Carries(s.threads[t]).value in s.received
    ensures var s' := Step(s, t, a); Carries(s'.threads[t]).Some? ==> Carries(s'.threads[t]).value in s'.received
  {
  }

  lemma {:induction false} StepThreadsDecoded(s: State, t: nat, a: Action, decode: Pc -> Decoded, u: nat)
    requires DecodeInv(s, decode) && t in s.threads && Enabled(s, t, a) && Answered(s, t, a, decode)
    requires u in s.threads
    ensures var s' := Step(s, t, a);
      && LocalDecoded(s'.threads[u], decode)
      && (Carries(s'.threads[u]).Some? ==> Carries(s'.threads[u]).value in s'.received)
  {
    if u == t {
      StepOwnDecoded(s, t, a, decode);
      StepOwnCarries(s, t, a);
    } else {
      StepOthers(s, t, a, u);
    }
  }

  /** A step leaves the other threads as they are, and forgets no event received. */
  lemma {:induction false} StepOthers(s: State, t: nat, a: Action, u: nat)
    requires t in s.threads && Enabled(s, t, a) && u in s.threads
    ensures u in Step(s, t, a).threads && (u != t ==> Step(s, t, a).threads[u] == s.threads[u])
    ensures forall e | e in s.received :: e in Step(s, t, a).received
  {
  }

  lemma {:induction false} StepEntryDecoded(s: State, t: nat, a: Action, decode: Pc -> Decoded, pc: Pc)
    requires DecodeInv(s, decode) && t in s.threads && Enabled(s, t, a) && pc in Step(s, t, a).isaMap
    ensures EntryDecoded(Step(s, t, a).isaMap, pc, decode)
    ensures Blank(Step(s, t, a).isaMap, pc) ==> ReceivedAt(Step(s, t, a).received, pc)
  {
    assert LocalDecoded(s.threads[t], decode);
    var s' := Step(s, t, a);
    if pc in s.isaMap {
      assert EntryDecoded(s.isaMap, pc, decode);
      assert s'.isaMap[pc].line == s.isaMap[pc].line;
      assert Blank(s.isaMap, pc) ==> ReceivedAt(s.received, pc);
    }
  }

  lemma {:induction false} StepKept(s: State, t: nat, a: Action, decode: Pc -> Decoded, e: Event)
    requires DecodeInv(s, decode) && t in s.threads && Enabled(s, t, a) && e in Step(s, t, a).received
    ensures Kept(Step(s, t, a), e)
  {
    if e in s.received {
      assert Kept(s, e);
      StepLogsKept(s, t, a, e);
      if u :| u in s.threads && Carries(s.threads[u]) == Some(e) {
        if u == t {
          StepHandsOn(s, t, a, e);
        } else {
          StepOthers(s, t, a, u);
        }
      }
    } else {
      assert Carries(Step(s, t, a).threads[t]) == Some(e);
    }
  }

  lemma {:induction false} StepLogsKept(s: State, t: nat, a: Action, e: Event)
    requires t in s.threads && Enabled(s, t, a)
    ensures e in s.added.latencies ==> e in Step(s, t, a).added.latencies
    ensures e in s.dropped ==> e in Step(s, t, a).dropped
  {
  }

  /** An event a thread carries is carried on, added or given up. */
  lemma {:induction false} StepHandsOn(s: State, t: nat, a: Action, e: Event)
    requires t in s.threads && Enabled(s, t, a) && Carries(s.threads[t]) == Some(e)
    ensures var s' := Step(s, t, a);
            e in s'.added.latencies || e in s'.dropped || (t in s'.threads && Carries(s'.threads[t]) == Some(e))
  {
  }

  lemma {:induction false} StepDecoded(s: State, t: nat, a: Action, decode: Pc -> Decoded)
    requires DecodeInv(s, decode) && t in s.threads && Enabled(s, t, a) && Answered(s, t, a, decode)
    ensures DecodeInv(Step(s, t, a), decode)
  {
    var s' := Step(s, t, a);
    forall u | u in s'.threads
      ensures LocalDecoded(s'.threads[u], decode)
      ensures Carries(s'.threads[u]).Some? ==> Carries(s'.threads[u]).value in s'.received
    {
      StepThreadsDecoded(s, t, a, decode, u);
    }
    forall pc | pc in s'.isaMap
      ensures EntryDecoded(s'.isaMap, pc, decode)
      ensures Blank(s'.isaMap, pc) ==> ReceivedAt(s'.received, pc)
    {
      StepEntryDecoded(s, t, a, decode, pc);
    }
    forall e | e in s'.received ensures Kept(s', e) {
      StepKept(s, t, a, decode, e);
    }
  }

  lemma {:induction false} RunDecoded(s: State, steps: Steps, decode: Pc -> Decoded)
    requires Inv(s) && Run(s, steps).Some? && DecodeInv(s, decode) && Follows(s, steps, decode)
    ensures DecodeInv(Run(s, steps).value, decode)
    decreases |steps|
  {
    if steps != [] {
      StepInv(s, steps[0].0, steps[0].1);
      StepDecoded(s, steps[0].0, steps[0].1, decode);
      RunDecoded(Step(s, steps[0].0, steps[0].1), steps[1..], decode);
    }
  }

  lemma {:induction false} StepReceived(s: State, t: nat, a: Action)
    requires t in s.threads && Enabled(s, t, a)
    ensures Step(s, t, a).received == s.received + Input(a)
  {
    assert s.received + [] == s.received;
  }

  lemma {:induction false} RunReceived(s: State, steps: Steps)
    requires Inv(s) && Run(s, steps).Some?
    ensures Run(s, steps).value.received == s.received + Inputs(steps)
    decreases |steps|
  {
    if steps == [] {
      assert s.received + [] == s.received;
    } else {
      StepInv(s, steps[0].0, steps[0].1);
      StepReceived(s, steps[0].0, steps[0].1);
      RunReceived(Step(s, steps[0].0, steps[0].1), steps[1..]);
      Associate(s.received, Input(steps[0].1), Inputs(steps[1..]));
    }
  }

  lemma {:induction false} Associate(a: seq<Event>, b: seq<Event>, c: seq<Event>)
    ensures a + b + c == a + (b + c)
  {
  }

  /** Once all calls are over, the report can be made exactly when none of the events handed over has
      an address that decodes to nothing, whatever the interleaving. */
  lemma {:induction false} PrintableForDecoder(s: State, steps: Steps, decode: Pc -> Decoded)
    requires Init(s) && Inv(s) && Run(s, steps).Some? && Follows(s, steps, decode)
    requires Quiescent(Run(s, steps).value)
    ensures Printable(Run(s, steps).value.isaMap) <==> forall e | e in Inputs(steps) :: !decode(e.pc).Nothing?
  {
    var s' := Run(s, steps).value;
    RunDecoded(s, steps, decode);
    RunReceived(s, steps);
    InitInv(s);
    RunCorrect(s, steps);
    assert s'.received == Inputs(steps);
    PrintableIffNoBlank(s'.isaMap);
    forall e | e in Inputs(steps) && decode(e.pc).Nothing? ensures Blank(s'.isaMap, e.pc) {
      assert Kept(s', e) && e in s'.added.Of(Latency);
      assert EntryDecoded(s'.isaMap, e.pc, decode);
    }
    forall pc | Blank(s'.isaMap, pc) ensures exists e :: e in Inputs(steps) && decode(e.pc).Nothing? {
      assert EntryDecoded(s'.isaMap, pc, decode) && ReceivedAt(s'.received, pc);
    }
  }
}
