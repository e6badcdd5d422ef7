/**
 The run-time monitor of correlation-id retirement: requests hand out external data, records count
 the times they see it and complain about ids that were retired before, and the finalizer checks
 that all external data was seen once and all its internal ids were retired.
 */
module CorrelationMonitor {
  import opened Optional

  /** The object allocated for one request. */
  datatype ExternalData = ExternalData(internalCorrId: nat, seenCount: nat)

  /** External pointers are numbered in the order of the requests that allocated them. */
  datatype Record =
    | HipApi(corr: nat)
    | KernelDispatch(corr: nat, external: Option<nat>, kernelId: nat)
    | MemoryCopy(corr: nat, external: Option<nat>)
    | Retirement(corr: nat)
    | Unexpected

  datatype Event = Request(corr: nat) | Load(kernelId: nat) | Unload(kernelId: nat) | Buffer(record: Record)

  datatype State = State(externals: seq<ExternalData>, retired: set<nat>, kernels: set<nat>)

  const INITIAL := State([], {}, {})

  // ---------- the callbacks ----------

  predicate PointerValid(s: State, r: Record) {
    (r.KernelDispatch? || r.MemoryCopy?) && r.external.Some? ==> r.external.value < |s.externals|
  }

  /** Counts the record on its external data, if it carries any. */
  function Counted(s: State, external: Option<nat>): State
    requires external.Some? ==> external.value < |s.externals|
  {
    if external.None? then s
    else
      var d := s.externals[external.value];
      s.(externals := s.externals[external.value := d.(seenCount := d.seenCount + 1)])
  }

  predicate Premature(s: State, external: Option<nat>)
    requires external.Some? ==> external.value < |s.externals|
  {
    external.Some? && s.externals[external.value].internalCorrId in s.retired
  }

  /** The effect of one record; None when the callback throws. */
  function Process(s: State, r: Record): Option<State>
    requires PointerValid(s, r)
  {
    match r
    case HipApi(corr) => if corr in s.retired then None else Some(s)
    case KernelDispatch(corr, external, kernelId) =>
      if corr in s.retired || Premature(s, external) || kernelId !in s.kernels then None
      else Some(Counted(s, external))
    case MemoryCopy(corr, external) =>
      if corr in s.retired || Premature(s, external) then None else Some(Counted(s, external))
    case Retirement(corr) => Some(s.(retired := s.retired + {corr}))
    case Unexpected => None
  }

  /** What a throwing record leaves behind: its external data is counted unless the record's own id
      was the first to be found retired. */
  function AfterThrow(s: State, r: Record): State
    requires PointerValid(s, r)
  {
    match r
    case KernelDispatch(corr, external, _) => if corr in s.retired then s else Counted(s, external)
    case MemoryCopy(corr, external) => if corr in s.retired then s else Counted(s, external)
    case _ => s
  }

  /** Whether the finalizer returns without an exception. */
  predicate FinalCheck(s: State) {
    forall d | d in s.externals :: d.seenCount == 1 && d.internalCorrId in s.retired
  }

  class Monitor {
    var externals: seq<ExternalData>
    var retired: set<nat>
    var kernels: set<nat>

    function Snapshot(): State
      reads this
    {
      State(externals, retired, kernels)
    }

    constructor ()
      ensures Snapshot() == INITIAL
    {
      externals, retired, kernels := [], {}, {};
    }

    method SetExternalCorrelationId(internalCorrId: nat) returns (ptr: nat)
      modifies this`externals
      ensures externals == old(externals) + [ExternalData(internalCorrId, 0)] && ptr == |old(externals)|
    {
      ptr := |externals|;
      externals := externals + [ExternalData(internalCorrId, 0)];
    }

    /** Throws (false) if the id was retired before. */
    method EnsureRetirementOrdering(corrId: nat) returns (ok: bool)
      ensures ok <==> corrId !in retired
    {
      ok := corrId !in retired;
    }

    /** Counts the record on its external data and checks that data's own id. */
    method SeeExternal(external: Option<nat>) returns (ok: bool)
      requires external.Some? ==> external.value < |externals|
      modifies this`externals
      ensures Snapshot() == Counted(old(Snapshot()), external)
      ensures ok <==> !Premature(old(Snapshot()), external)
    {
      ok := true;
      if external.Some? {
        var p := external.value;
        externals := externals[p := externals[p].(seenCount := externals[p].seenCount + 1)];
        ok := EnsureRetirementOrdering(externals[p].internalCorrId);
      }
    }

    method HandleRecord(r: Record) returns (ok: bool)
      requires PointerValid(Snapshot(), r)
      modifies this
      ensures ok <==> Process(old(Snapshot()), r).Some?
      ensures ok ==> Process(old(Snapshot()), r) == Some(Snapshot())
      ensures !ok ==> Snapshot() == AfterThrow(old(Snapshot()), r)
      ensures !ok ==> retired == old(retired) && kernels == old(kernels)
      ensures !ok ==> forall p: nat | p < |externals| ::
                externals[p] == ExternalData(old(externals)[p].internalCorrId, old(externals)[p].seenCount +
                                             if Sees(Buffer(r), p) && r.corr !in old(retired) then 1 else 0)
      ensures |externals| == |old(externals)|
    {
      match r {
        case HipApi(corr) =>
          ok := EnsureRetirementOrdering(corr);
        case KernelDispatch(corr, external, kernelId) =>
          ok := EnsureRetirementOrdering(corr);
          if ok {
            ok := SeeExternal(external);
            ok := ok && kernelId in kernels;
          }
        case MemoryCopy(corr, external) =>
          ok := EnsureRetirementOrdering(corr);
          if ok {
            ok := SeeExternal(external);
          }
        case Retirement(corr) =>
          retired := retired + {corr};
          ok := true;
        case Unexpected =>
          ok := false;
      }
    }

    /** Handles the buffer's records in order; an exception ends the callback. */
    method TracingCallback(headers: seq<Record>) returns (ok: bool)
      requires forall i | 0 <= i < |headers| :: PointerValid(Snapshot(), headers[i])
      modifies this
      ensures ok <==> RunFrom(Some(old(Snapshot())), Buffers(headers)).Some?
      ensures ok ==> RunFrom(Some(old(Snapshot())), Buffers(headers)) == Some(Snapshot())
      ensures !ok ==> exists n: nat :: n < |headers| && ThrewAt(old(Snapshot()), headers, n, Snapshot())
    {
      ok := true;
      for i := 0 to |headers|
        invariant ok && forall j | 0 <= j < |headers| :: PointerValid(Snapshot(), headers[j])
        invariant RunFrom(Some(old(Snapshot())), Buffers(headers[..i])) == Some(Snapshot())
      {
        assert Buffers(headers[..i + 1])[..i] == Buffers(headers[..i]);
        ok := HandleRecord(headers[i]);
        if !ok {
          assert ThrewAt(old(Snapshot()), headers, i, Snapshot());
          assert headers[..i + 1] + headers[i + 1..] == headers;
          assert Buffers(headers[..i + 1]) + Buffers(headers[i + 1..]) == Buffers(headers);
          ThrownStays(Some(old(Snapshot())), Buffers(headers[..i + 1]), Buffers(headers[i + 1..]));
          return;
        }
      }
      assert headers[..|headers|] == headers;
    }

    /** Counts what was not seen once and what was not retired; throws if there is any. */
    method ToolFini() returns (ok: bool)
      ensures ok <==> FinalCheck(Snapshot())
    {
      var unretired, unseen := 0, 0;
      for i := 0 to |externals|
        invariant unseen == 0 <==> forall j | 0 <= j < i :: externals[j].seenCount == 1
        invariant unretired == 0 <==> forall j | 0 <= j < i :: externals[j].internalCorrId in retired
        invariant unseen >= 0 && unretired >= 0
      {
        if externals[i].seenCount != 1 {
          unseen := unseen + 1;
        }
        if externals[i].internalCorrId !in retired {
          unretired := unretired + 1;
        }
      }
      ok := unseen == 0 && unretired == 0;
    }
  }

  /** The callback handled n records and left s' when the next one threw. */
  ghost predicate ThrewAt(s: State, headers: seq<Record>, n: nat, s': State)
    requires n < |headers|
  {
    var before := RunFrom(Some(s), Buffers(headers[..n]));
    && before.Some? && PointerValid(before.value, headers[n])
    && Process(before.value, headers[n]).None? && s' == AfterThrow(before.value, headers[n])
  }

  function Buffers(rs: seq<Record>): seq<Event> {
    seq(|rs|, i requires 0 <= i < |rs| => Buffer(rs[i]))
  }

  // ---------- runs ----------

  function Handle(s: State, e: Event): Option<State> {
    match e
    case Request(corr) => Some(s.(externals := s.externals + [ExternalData(corr, 0)]))
    case Load(k) => Some(s.(kernels := s.kernels + {k}))
    case Unload(k) => Some(s.(kernels := s.kernels - {k}))
    case Buffer(r) => if PointerValid(s, r) then Process(s, r) else None
  }

  function RunFrom(start: Option<State>, events: seq<Event>): Option<State> {
    if events == [] then start
    else
      var before := RunFrom(start, events[..|events| - 1]);
      if before.None? then None else Handle(before.value, events[|events| - 1])
  }

  function Run(events: seq<Event>): Option<State> { RunFrom(Some(INITIAL), events) }

  lemma {:induction false} ThrownStays(start: Option<State>, events: seq<Event>, more: seq<Event>)
    requires RunFrom(start, events).None?
    ensures RunFrom(start, events + more).None?
  {
    if more == [] {
      assert events + more == events;
    } else {
      ThrownStays(start, events, more[..|more| - 1]);
      assert (events + more)[..|events + more| - 1] == events + more[..|more| - 1];
    }
  }

  // ---------- what the monitor is to detect, read off the event sequence ----------

  ghost predicate RetiredBefore(events: seq<Event>, n: nat, corr: nat)
    requires n <= |events|
  {
    exists j | 0 <= j < n :: events[j] == Buffer(Retirement(corr))
  }

  ghost predicate LoadedAt(events: seq<Event>, n: nat, k: nat)
    requires n <= |events|
  {
    exists j | 0 <= j < n :: events[j] == Load(k) && forall l | j < l < n :: events[l] != Unload(k)
  }

  /** Internal ids of the requests among the first events, in order. */
  function Requests(events: seq<Event>): seq<nat> {
    if events == [] then []
    else
      var last := events[|events| - 1];
      Requests(events[..|events| - 1]) + if last.Request? then [last.corr] else []
  }

  predicate Sees(e: Event, ptr: nat) {
    e.Buffer? && (e.record.KernelDispatch? || e.record.MemoryCopy?) && e.record.external == Some(ptr)
  }

  /** How many records carry the external data of request `ptr`. */
  function Sightings(events: seq<Event>, ptr: nat): nat {
    if events == [] then 0
    else Sightings(events[..|events| - 1], ptr) + if Sees(events[|events| - 1], ptr) then 1 else 0
  }

  /** Records only carry data of earlier requests. */
  ghost predicate PointersValid(events: seq<Event>) {
    forall i, ptr: nat | 0 <= i < |events| && Sees(events[i], ptr) :: ptr < |Requests(events[..i])|
  }

  /** Event n gives the monitor no cause to throw. */
  ghost predicate Orderly(events: seq<Event>, n: nat)
    requires n < |events| && PointersValid(events)
  {
    events[n].Buffer? ==>
      var r := events[n].record;
      && !r.Unexpected?
      && (r.HipApi? || r.KernelDispatch? || r.MemoryCopy? ==> !RetiredBefore(events, n, r.corr))
      && (forall ptr: nat | Sees(events[n], ptr) :: !RetiredBefore(events, n, Requests(events[..n])[ptr]))
      && (r.KernelDispatch? ==> LoadedAt(events, n, r.kernelId))
  }

  /** The monitor's state is what the events so far amount to. */
  ghost predicate Reflects(s: State, events: seq<Event>) {
    && |s.externals| == |Requests(events)|
    && (forall p | 0 <= p < |s.externals| ::
          s.externals[p] == ExternalData(Requests(events)[p], Sightings(events, p)))
    && (forall corr :: corr in s.retired <==> RetiredBefore(events, |events|, corr))
    && (forall k :: k in s.kernels <==> LoadedAt(events, |events|, k))
  }

  lemma {:induction false} NoSightings(events: seq<Event>, ptr: nat)
    requires PointersValid(events) && ptr >= |Requests(events)|
    ensures Sightings(events, ptr) == 0
  {
    if events != [] {
      PointersFront(events);
      NoSightings(events[..|events| - 1], ptr);
    }
  }

  lemma {:induction false} PointersFront(events: seq<Event>)
    requires PointersValid(events) && events != []
    ensures PointersValid(events[..|events| - 1])
  {
    var front := events[..|events| - 1];
    forall i, ptr: nat | 0 <= i < |front| && Sees(front[i], ptr) ensures ptr < |Requests(front[..i])| {
      assert front[..i] == events[..i] && Sees(events[i], ptr);
    }
  }

  lemma {:induction false} RetiredFront(events: seq<Event>, n: nat, corr: nat)
    requires n < |events|
    ensures RetiredBefore(events, n, corr) <==> RetiredBefore(events[..|events| - 1], n, corr)
  {
  }

  /** One more event: it is handled exactly when it is orderly, and the state keeps reflecting the
      events. */
  lemma {:induction false} HandleReflects(s: State, events: seq<Event>)
    requires events != [] && PointersValid(events) && PointersValid(events[..|events| - 1])
    requires Reflects(s, events[..|events| - 1])
    ensures Handle(s, events[|events| - 1]).Some? <==> Orderly(events, |events| - 1)
    ensures Orderly(events, |events| - 1) ==> Reflects(Handle(s, events[|events| - 1]).value, events)
  {
    HandledIfOrderly(s, events);
    if Orderly(events, |events| - 1) {
      var s' := Handle(s, events[|events| - 1]).value;
      ExternalsReflect(s, events, s');
      RetiredReflect(s, events, s');
      KernelsReflect(s, events, s');
    }
  }

  lemma {:induction false} HandledIfOrderly(s: State, events: seq<Event>)
    requires events != [] && PointersValid(events) && Reflects(s, events[..|events| - 1])
    ensures Handle(s, events[|events| - 1]).Some? <==> Orderly(events, |events| - 1)
  {
    var n := |events| - 1;
    var front, e := events[..n], events[n];
    forall corr ensures RetiredBefore(events, n, corr) <==> corr in s.retired {
      RetiredFront(events, n, corr);
    }
    forall k ensures LoadedAt(events, n, k) <==> k in s.kernels {
      LoadedFront(events, n, k);
    }
    if e.Buffer? && (e.record.KernelDispatch? || e.record.MemoryCopy?) && e.record.external.Some? {
      assert Sees(e, e.record.external.value);
    }
  }

  lemma {:induction false} LoadedFront(events: seq<Event>, n: nat, k: nat)
    requires n < |events|
    ensures LoadedAt(events, n, k) <==> LoadedAt(events[..|events| - 1], n, k)
  {
    var front := events[..|events| - 1];
    assert forall j | 0 <= j < n :: front[j] == events[j];
  }

  lemma {:induction false} ExternalsReflect(s: State, events: seq<Event>, s': State)
    requires events != [] && PointersValid(events) && PointersValid(events[..|events| - 1])
    requires Reflects(s, events[..|events| - 1]) && Handle(s, events[|events| - 1]) == Some(s')
    ensures |s'.externals| == |Requests(events)|
    ensures forall p | 0 <= p < |s'.externals| ::
              s'.externals[p] == ExternalData(Requests(events)[p], Sightings(events, p))
  {
    var front, e := events[..|events| - 1], events[|events| - 1];
    if e.Request? {
      NoSightings(front, |Requests(front)|);
    }
  }

  lemma {:induction false} RetiredReflect(s: State, events: seq<Event>, s': State)
    requires events != [] && Reflects(s, events[..|events| - 1]) && Handle(s, events[|events| - 1]) == Some(s')
    ensures forall corr :: corr in s'.retired <==> RetiredBefore(events, |events|, corr)
  {
    var n := |events| - 1;
    forall corr ensures corr in s'.retired <==> RetiredBefore(events, n + 1, corr) {
      RetiredFront(events, n, corr);
      assert RetiredBefore(events, n + 1, corr) <==>
             RetiredBefore(events, n, corr) || events[n] == Buffer(Retirement(corr));
    }
  }

  lemma {:induction false} KernelsReflect(s: State, events: seq<Event>, s': State)
    requires events != [] && Reflects(s, events[..|events| - 1]) && Handle(s, events[|events| - 1]) == Some(s')
    ensures forall k :: k in s'.kernels <==> LoadedAt(events, |events|, k)
  {
    var n := |events| - 1;
    forall k ensures k in s'.kernels <==> LoadedAt(events, n + 1, k) {
      LoadedFront(events, n, k);
      LoadedStep(events, n, k);
    }
  }

  lemma {:induction false} LoadedStep(events: seq<Event>, n: nat, k: nat)
    requires n < |events|
    ensures LoadedAt(events, n + 1, k) <==>
            events[n] == Load(k) || (LoadedAt(events, n, k) && events[n] != Unload(k))
  {
    if events[n] != Load(k) && LoadedAt(events, n, k) && events[n] != Unload(k) {
      var j :| 0 <= j < n && events[j] == Load(k) && forall l | j < l < n :: events[l] != Unload(k);
      assert forall l | j < l < n + 1 :: events[l] != Unload(k);
    }
  }

  lemma {:induction false} OrderlyFront(events: seq<Event>, n: nat)
    requires events != [] && n < |events| - 1 && PointersValid(events) && PointersValid(events[..|events| - 1])
    ensures Orderly(events, n) <==> Orderly(events[..|events| - 1], n)
  {
    var front := events[..|events| - 1];
    assert front[..n] == events[..n] && front[n] == events[n];
    forall corr ensures RetiredBefore(events, n, corr) <==> RetiredBefore(front, n, corr) {
      RetiredFront(events, n, corr);
    }
    forall k ensures LoadedAt(events, n, k) <==> LoadedAt(front, n, k) {
      LoadedFront(events, n, k);
    }
  }

  /** The callbacks throw if and only if some event is out of order. */
  lemma {:induction false} RunsIfOrderly(events: seq<Event>)
    requires PointersValid(events)
    ensures Run(events).Some? <==> forall n | 0 <= n < |events| :: Orderly(events, n)
    ensures Run(events).Some? ==> Reflects(Run(events).value, events)
  {
    if events != [] {
      var front := events[..|events| - 1];
      PointersFront(events);
      RunsIfOrderly(front);
      forall n | 0 <= n < |front| ensures Orderly(events, n) <==> Orderly(front, n) {
        OrderlyFront(events, n);
      }
      if Run(front).Some? {
        HandleReflects(Run(front).value, events);
      }
    }
  }

  /** Sound and complete: the run and its finalizer end without an exception if and only if no
      record carries an id retired earlier (its own or its external data's), every kernel named is
      loaded, no record is of an unexpected kind, and every request's data is seen exactly once and
      its internal id retired. */
  lemma {:induction false} MonitorExact(events: seq<Event>)
    requires PointersValid(events)
    ensures (Run(events).Some? && FinalCheck(Run(events).value)) <==>
      && (forall n | 0 <= n < |events| :: Orderly(events, n))
      && (forall p | 0 <= p < |Requests(events)| ::
            Sightings(events, p) == 1 && RetiredBefore(events, |events|, Requests(events)[p]))
  {
    RunsIfOrderly(events);
    if Run(events).Some? {
      var s := Run(events).value;
      if FinalCheck(s) {
        forall p | 0 <= p < |Requests(events)|
          ensures Sightings(events, p) == 1 && RetiredBefore(events, |events|, Requests(events)[p])
        {
          assert s.externals[p] in s.externals;
        }
      }
    }
  }
}
