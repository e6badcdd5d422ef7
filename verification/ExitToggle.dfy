/**
 The shutdown handshake of the device-counting samples: one atomic flag, set by the finalizer,
 polled and cleared by the sampler thread, and awaited by the finalizer's spin loop. The samples
 differ in the library calls made before, in and after the sampler's loop.
 */
module ExitToggle {
  import Matrix

  datatype Turn = Sampler | Finalizer

  datatype Call = StartContext | SampleService | StopContext | FlushBuffer | FlushStream

  /** Calls of the sampler before its loop and in each round, and of the finalizer after its spin. */
  datatype Program = Program(prologue: seq<Call>, body: seq<Call>, epilogue: seq<Call>)

  /** The context runs all along; the finalizer stops it. */
  const ASYNCHRONOUS := Program([StartContext], [SampleService], [StopContext, FlushBuffer])

  /** Every round starts the context, samples and stops it. */
  const SYNCHRONOUS := Program([], [StartContext, SampleService, StopContext], [FlushStream])

  datatype SamplerPc = Before(i: nat) | Check | Round(i: nat) | Sleep | Clear | Gone

  datatype FinalizerPc = Request | Spin | After(i: nat) | Finished

  /** A library call, with the number of the round it is made in (0 outside the loop). */
  datatype Event = Event(call: Call, round: nat)

  datatype State = State(toggle: bool, sampler: SamplerPc, count: nat, fini: FinalizerPc, trace: seq<Event>)

  function SamplerStep(p: Program, s: State): State {
    match s.sampler
    case Before(i) =>
      if i < |p.prologue| then s.(trace := s.trace + [Event(p.prologue[i], 0)], sampler := Before(i + 1))
      else s.(sampler := Check)
    case Check => s.(sampler := if s.toggle then Clear else Round(0))
    case Round(i) =>
      if i < |p.body| then s.(trace := s.trace + [Event(p.body[i], s.count)], sampler := Round(i + 1))
      else s.(count := s.count + 1, sampler := Sleep)
    case Sleep => s.(sampler := Check)
    case Clear => s.(toggle := false, sampler := Gone)
    case Gone => s
  }

  function FinalizerStep(p: Program, s: State): State {
    match s.fini
    case Request => s.(toggle := true, fini := Spin)
    case Spin => if s.toggle then s else s.(fini := After(0))
    case After(i) =>
      if i < |p.epilogue| then s.(trace := s.trace + [Event(p.epilogue[i], 0)], fini := After(i + 1))
      else s.(fini := Finished)
    case Finished => s
  }

  function Step(p: Program, s: State, turn: Turn): State {
    match turn case Sampler => SamplerStep(p, s) case Finalizer => FinalizerStep(p, s)
  }

  const INITIAL := State(false, Before(0), 1, Request, [])

  /** The state after n steps of an interleaving. */
  function StateAt(p: Program, sched: nat -> Turn, n: nat): State {
    if n == 0 then INITIAL else Step(p, StateAt(p, sched, n - 1), sched(n - 1))
  }

  // ---------- safety ----------

  /** The first i of the calls, made in one round. */
  function Calls(calls: seq<Call>, i: nat, round: nat): seq<Event>
    requires i <= |calls|
  {
    if i == 0 then [] else Calls(calls, i - 1, round) + [Event(calls[i - 1], round)]
  }

  /** n whole rounds. */
  function Rounds(body: seq<Call>, n: nat): seq<Event> {
    if n == 0 then [] else Rounds(body, n - 1) + Calls(body, |body|, n)
  }

  predicate InRange(p: Program, s: State) {
    && s.count >= 1
    && (s.sampler.Before? ==> s.sampler.i <= |p.prologue| && s.count == 1)
    && (s.sampler.Round? ==> s.sampler.i <= |p.body|)
    && (s.fini.After? ==> s.fini.i <= |p.epilogue|)
  }

  /** What the sampler has done, as far as its program counter has come. */
  function SamplerScript(p: Program, s: State): seq<Event>
    requires InRange(p, s)
  {
    match s.sampler
    case Before(i) => Calls(p.prologue, i, 0)
    case Round(i) => Calls(p.prologue, |p.prologue|, 0) + Rounds(p.body, s.count - 1) + Calls(p.body, i, s.count)
    case _ => Calls(p.prologue, |p.prologue|, 0) + Rounds(p.body, s.count - 1)
  }

  function FinalizerScript(p: Program, s: State): seq<Event>
    requires InRange(p, s)
  {
    match s.fini
    case After(i) => Calls(p.epilogue, i, 0)
    case Finished => Calls(p.epilogue, |p.epilogue|, 0)
    case _ => []
  }

  predicate FinalizerLeftSpin(s: State) { s.fini.After? || s.fini.Finished? }

  /** The flag is set and cleared once, each by its own thread. */
  predicate FlagInv(s: State) {
    && (FinalizerLeftSpin(s) ==> s.sampler.Gone?)
    && (s.sampler.Gone? ==> !s.fini.Request? && !s.toggle)
    && (s.sampler.Clear? ==> s.fini.Spin?)
    && (s.fini.Request? ==> !s.toggle)
    && (s.fini.Spin? && !s.toggle ==> s.sampler.Gone?)
  }

  ghost predicate Inv(p: Program, s: State) {
    InRange(p, s) && FlagInv(s) && s.trace == SamplerScript(p, s) + FinalizerScript(p, s)
  }

  lemma {:induction false} StepInv(p: Program, s: State, turn: Turn)
    requires Inv(p, s)
    ensures Inv(p, Step(p, s, turn))
  {
    if turn.Sampler? {
      SamplerInv(p, s);
    } else {
      FinalizerInv(p, s);
    }
  }

  lemma {:induction false} SamplerInv(p: Program, s: State)
    requires Inv(p, s)
    ensures Inv(p, SamplerStep(p, s))
  {
    var s' := SamplerStep(p, s);
    if s.sampler.Gone? {
      assert s' == s;
    } else {
      SamplerScriptStep(p, s);
      assert FinalizerScript(p, s) == [] == FinalizerScript(p, s');
    }
  }

  /** A step of the sampler adds to its script what it adds to the trace. */
  lemma {:induction false} SamplerScriptStep(p: Program, s: State)
    requires InRange(p, s)
    ensures InRange(p, SamplerStep(p, s))
    ensures s.trace == SamplerScript(p, s) ==> SamplerStep(p, s).trace == SamplerScript(p, SamplerStep(p, s))
  {
    if s.sampler.Round? {
      RoundStep(p, s);
    } else if s.sampler.Before? {
      BeforeStep(p, s);
    } else if s.sampler.Check? {
      CheckStep(p, s);
    }
  }

  lemma {:induction false} RoundStep(p: Program, s: State)
    requires InRange(p, s) && s.sampler.Round?
    ensures InRange(p, SamplerStep(p, s))
    ensures SamplerScript(p, SamplerStep(p, s)) ==
            if s.sampler.i < |p.body| then SamplerScript(p, s) + [Event(p.body[s.sampler.i], s.count)]
            else SamplerScript(p, s)
  {
    var all, rounds, i := Calls(p.prologue, |p.prologue|, 0), Rounds(p.body, s.count - 1), s.sampler.i;
    if i < |p.body| {
      Associate(all + rounds, Calls(p.body, i, s.count), [Event(p.body[i], s.count)]);
    } else {
      Associate(all, rounds, Calls(p.body, |p.body|, s.count));
    }
  }

  lemma {:induction false} BeforeStep(p: Program, s: State)
    requires InRange(p, s) && s.sampler.Before?
    ensures InRange(p, SamplerStep(p, s))
    ensures SamplerScript(p, SamplerStep(p, s)) ==
            if s.sampler.i < |p.prologue| then SamplerScript(p, s) + [Event(p.prologue[s.sampler.i], 0)]
            else SamplerScript(p, s)
  {
    assert Rounds(p.body, 0) == [];
    assert SamplerScript(p, s) + [] == SamplerScript(p, s);
  }

  lemma {:induction false} CheckStep(p: Program, s: State)
    requires InRange(p, s) && s.sampler.Check?
    ensures InRange(p, SamplerStep(p, s)) && SamplerScript(p, SamplerStep(p, s)) == SamplerScript(p, s)
  {
    assert Calls(p.body, 0, s.count) == [];
    assert SamplerScript(p, s) + [] == SamplerScript(p, s);
  }

  lemma {:induction false} Associate(a: seq<Event>, b: seq<Event>, c: seq<Event>)
    ensures a + b + c == a + (b + c)
  {
  }

  lemma {:induction false} FinalizerInv(p: Program, s: State)
    requires Inv(p, s)
    ensures Inv(p, FinalizerStep(p, s))
  {
    var s' := FinalizerStep(p, s);
    assert SamplerScript(p, s') == SamplerScript(p, s);
    if s.fini.After? && s.fini.i < |p.epilogue| {
      var e := Event(p.epilogue[s.fini.i], 0);
      assert FinalizerScript(p, s') == FinalizerScript(p, s) + [e];
      assert SamplerScript(p, s) + (FinalizerScript(p, s) + [e]) == s.trace + [e];
    }
  }

  lemma {:induction false} RunInv(p: Program, sched: nat -> Turn, n: nat)
    ensures Inv(p, StateAt(p, sched, n))
  {
    if n > 0 {
      RunInv(p, sched, n - 1);
      StepInv(p, StateAt(p, sched, n - 1), sched(n - 1));
    }
  }

  /** In every interleaving the calls are the prologue, then rounds 1, 2, ..., then the epilogue. The
      finalizer leaves its spin only after the sampler's last step, so that no call of the sampler
      follows one of the finalizer. */
  lemma {:induction false} HandshakeSafe(p: Program, sched: nat -> Turn, n: nat)
    ensures var s := StateAt(p, sched, n);
            && Inv(p, s)
            && (FinalizerLeftSpin(s) ==>
                  forall m | n <= m ::
                    StateAt(p, sched, m).sampler.Gone? && StateAt(p, sched, m).count == s.count)
  {
    RunInv(p, sched, n);
    if FinalizerLeftSpin(StateAt(p, sched, n)) {
      forall m | n <= m
        ensures StateAt(p, sched, m).sampler.Gone?
        ensures StateAt(p, sched, m).count == StateAt(p, sched, n).count
      {
        GoneStays(p, sched, n, m);
      }
    }
  }

  lemma {:induction false} GoneStays(p: Program, sched: nat -> Turn, n: nat, m: nat)
    requires n <= m && StateAt(p, sched, n).sampler.Gone?
    ensures StateAt(p, sched, m).sampler.Gone? && StateAt(p, sched, m).count == StateAt(p, sched, n).count
    decreases m - n
  {
    if n < m {
      GoneStays(p, sched, n, m - 1);
    }
  }

  // ---------- rounds are made ----------

  predicate SamplerOnly(sched: nat -> Turn, n: nat, m: nat) {
    forall i | n <= i < m :: sched(i).Sampler?
  }

  /** From a check that finds the flag unset the sampler takes |body| + 3 turns to the next one, and has
      made one whole round. */
  lemma {:induction false} OneRound(p: Program, sched: nat -> Turn, n: nat)
    requires Inv(p, StateAt(p, sched, n)) && StateAt(p, sched, n).sampler.Check?
    requires !StateAt(p, sched, n).toggle && SamplerOnly(sched, n, n + |p.body| + 3)
    ensures
      var s := StateAt(p, sched, n);
      StateAt(p, sched, n + |p.body| + 3) ==
      s.(count := s.count + 1, trace := s.trace + Calls(p.body, |p.body|, s.count))
  {
    var s := StateAt(p, sched, n);
    assert StateAt(p, sched, n + 1) == SamplerStep(p, s);
    assert s.trace + Calls(p.body, 0, s.count) == s.trace;
    BodyCalls(p, sched, n + 1, s, |p.body|);
    var m := n + 1 + |p.body|;
    assert StateAt(p, sched, m + 1) == SamplerStep(p, StateAt(p, sched, m));
    assert StateAt(p, sched, m + 2) == SamplerStep(p, StateAt(p, sched, m + 1));
  }

  lemma {:induction false} BodyCalls(p: Program, sched: nat -> Turn, n: nat, s: State, i: nat)
    requires i <= |p.body| && SamplerOnly(sched, n, n + i)
    requires StateAt(p, sched, n) == s.(sampler := Round(0))
    ensures StateAt(p, sched, n + i) ==
            s.(sampler := Round(i), trace := s.trace + Calls(p.body, i, s.count))
  {
    if i == 0 {
      assert s.trace + [] == s.trace;
    } else {
      BodyCalls(p, sched, n, s, i - 1);
      assert StateAt(p, sched, n + i) == SamplerStep(p, StateAt(p, sched, n + i - 1));
      Associate(s.trace, Calls(p.body, i - 1, s.count), [Event(p.body[i - 1], s.count)]);
    }
  }

  lemma {:induction false} PrologueCalls(p: Program, sched: nat -> Turn, i: nat)
    requires i <= |p.prologue| && SamplerOnly(sched, 0, i)
    ensures StateAt(p, sched, i) == INITIAL.(sampler := Before(i), trace := Calls(p.prologue, i, 0))
  {
    if i > 0 {
      PrologueCalls(p, sched, i - 1);
    }
  }

  /** Turns the sampler needs for its prologue and k rounds. */
  function Turns(p: Program, k: nat): nat {
    if k == 0 then |p.prologue| + 1 else Turns(p, k - 1) + |p.body| + 3
  }

  lemma {:induction false} TurnsExactly(p: Program, k: nat)
    ensures Turns(p, k) == |p.prologue| + 1 + k * (|p.body| + 3)
  {
    if k > 0 {
      TurnsExactly(p, k - 1);
      assert k * (|p.body| + 3) == (k - 1) * (|p.body| + 3) + (|p.body| + 3);
    }
  }

  /** Until the finalizer has its first turn, the sampler gets through its prologue and one round after
      the other. */
  lemma {:induction false} RoundsMade(p: Program, sched: nat -> Turn, k: nat)
    requires SamplerOnly(sched, 0, Turns(p, k))
    ensures
      StateAt(p, sched, Turns(p, k)) ==
      State(false, Check, k + 1, Request, Calls(p.prologue, |p.prologue|, 0) + Rounds(p.body, k))
  {
    if k == 0 {
      PrologueCalls(p, sched, |p.prologue|);
      assert Calls(p.prologue, |p.prologue|, 0) + [] == Calls(p.prologue, |p.prologue|, 0);
    } else {
      RoundsMade(p, sched, k - 1);
      RunInv(p, sched, Turns(p, k - 1));
      OneRound(p, sched, Turns(p, k - 1));
      Associate(Calls(p.prologue, |p.prologue|, 0), Rounds(p.body, k - 1), Calls(p.body, |p.body|, k));
    }
  }

  /** Whenever the finalizer comes in, and whatever happens then, the rounds made before it stay at the
      beginning of the trace: with so many turns before the finalizer's first, the prologue and rounds
      1 to k. */
  lemma {:induction false} RoundsBeforeRequest(p: Program, sched: nat -> Turn, k: nat, n: nat)
    requires SamplerOnly(sched, 0, |p.prologue| + 1 + k * (|p.body| + 3))
    requires n >= |p.prologue| + 1 + k * (|p.body| + 3)
    ensures Calls(p.prologue, |p.prologue|, 0) + Rounds(p.body, k) <= StateAt(p, sched, n).trace
  {
    TurnsExactly(p, k);
    RoundsMade(p, sched, k);
    TraceGrows(p, sched, Turns(p, k), n);
  }

  lemma {:induction false} TraceGrows(p: Program, sched: nat -> Turn, n: nat, m: nat)
    requires n <= m
    ensures StateAt(p, sched, n).trace <= StateAt(p, sched, m).trace
    decreases m - n
  {
    if n < m {
      TraceGrows(p, sched, n, m - 1);
    }
  }

  /** In any interleaving: a check that finds the flag unset is followed by the whole body, and nothing
      else, before the sampler's next check. */
  lemma {:induction false} CheckThenBody(p: Program, sched: nat -> Turn, n: nat, m: nat)
    requires n < m && StateAt(p, sched, n).sampler.Check? && !StateAt(p, sched, n).toggle && sched(n).Sampler?
    requires StateAt(p, sched, m).sampler.Check?
    requires forall i | n < i < m :: !StateAt(p, sched, i).sampler.Check?
    ensures
      var s := StateAt(p, sched, n);
      && StateAt(p, sched, m).count == s.count + 1
      && StateAt(p, sched, m).trace == s.trace + Calls(p.body, |p.body|, s.count)
  {
    NextCheck(p, sched, n + 1, m, StateAt(p, sched, n).count);
    RunInv(p, sched, n);
    RunInv(p, sched, m);
    BetweenChecks(p, StateAt(p, sched, n), StateAt(p, sched, m));
  }

  /** The sampler is in the round that began with this count, or asleep after it. */
  predicate Sampling(s: State, count: nat) {
    (s.sampler.Round? && s.count == count) || (s.sampler.Sleep? && s.count == count + 1)
  }

  lemma {:induction false} SamplingStep(p: Program, s: State, turn: Turn, count: nat)
    requires Sampling(s, count)
    ensures var s' := Step(p, s, turn); Sampling(s', count) || (s'.sampler.Check? && s'.count == count + 1)
  {
  }

  /** The next check comes after the round. */
  lemma {:induction false} NextCheck(p: Program, sched: nat -> Turn, n: nat, m: nat, count: nat)
    requires n <= m && Sampling(StateAt(p, sched, n), count) && StateAt(p, sched, m).sampler.Check?
    requires forall i | n <= i < m :: !StateAt(p, sched, i).sampler.Check?
    ensures StateAt(p, sched, m).count == count + 1
    decreases m - n
  {
    SamplingStep(p, StateAt(p, sched, n), sched(n), count);
    if n + 1 < m {
      NextCheck(p, sched, n + 1, m, count);
    }
  }

  lemma {:induction false} BetweenChecks(p: Program, s: State, s': State)
    requires Inv(p, s) && Inv(p, s') && s.sampler.Check? && s'.sampler.Check? && s'.count == s.count + 1
    ensures s'.trace == s.trace + Calls(p.body, |p.body|, s.count)
  {
    Associate(Calls(p.prologue, |p.prologue|, 0), Rounds(p.body, s.count - 1), Calls(p.body, |p.body|, s.count));
    assert SamplerScript(p, s') == SamplerScript(p, s) + Calls(p.body, |p.body|, s.count);
    assert SamplerScript(p, s) + [] == SamplerScript(p, s) && SamplerScript(p, s') + [] == SamplerScript(p, s');
  }

  /** The sampler will make no more calls. */
  predicate Closing(s: State) {
    s.sampler.Gone? || (s.toggle && (s.sampler.Check? || s.sampler.Clear?))
  }

  lemma {:induction false} StepClosing(p: Program, s: State, turn: Turn)
    requires Inv(p, s) && Closing(s)
    ensures var s' := Step(p, s, turn);
      && Closing(s') && s'.count == s.count && s.trace <= s'.trace
      && forall i | |s.trace| <= i < |s'.trace| :: s'.trace[i].call in p.epilogue
  {
  }

  /** A check that finds the flag set is the last: no call of the sampler follows. */
  lemma {:induction false} CheckThenGone(p: Program, sched: nat -> Turn, n: nat, m: nat)
    requires n <= m && Closing(StateAt(p, sched, n))
    ensures
      var s, s' := StateAt(p, sched, n), StateAt(p, sched, m);
      && Closing(s') && s'.count == s.count && s.trace <= s'.trace
      && forall i | |s.trace| <= i < |s'.trace| :: s'.trace[i].call in p.epilogue
    decreases m - n
  {
    if n < m {
      CheckThenGone(p, sched, n, m - 1);
      RunInv(p, sched, m - 1);
      StepClosing(p, StateAt(p, sched, m - 1), sched(m - 1));
    }
  }

  // ---------- what the traces of the two samples look like ----------

  lemma {:induction false} CallsAt(calls: seq<Call>, i: nat, round: nat)
    requires i <= |calls|
    ensures |Calls(calls, i, round)| == i
    ensures forall j | 0 <= j < i :: Calls(calls, i, round)[j] == Event(calls[j], round)
  {
    if i > 0 {
      CallsAt(calls, i - 1, round);
    }
  }

  /** Call j of round r + 1 is at r * |body| + j. */
  lemma {:induction false} RoundsAt(body: seq<Call>, n: nat, r: nat, j: nat)
    requires r < n && j < |body|
    ensures Matrix.Flat(r, j, |body|) < |Rounds(body, n)| == n * |body|
    ensures Rounds(body, n)[Matrix.Flat(r, j, |body|)] == Event(body[j], r + 1)
  {
    RoundsLength(body, n);
    RoundsLength(body, n - 1);
    CallsAt(body, |body|, n);
    Matrix.FlatInBounds(r, j, n, |body|);
    var front, last := Rounds(body, n - 1), Calls(body, |body|, n);
    assert Rounds(body, n) == front + last;
    if r < n - 1 {
      RoundsAt(body, n - 1, r, j);
      assert (front + last)[Matrix.Flat(r, j, |body|)] == front[Matrix.Flat(r, j, |body|)];
    } else {
      assert Matrix.Flat(r, j, |body|) == |front| + j;
      assert (front + last)[|front| + j] == last[j];
    }
  }

  lemma {:induction false} RoundsLength(body: seq<Call>, n: nat)
    ensures |Rounds(body, n)| == n * |body|
  {
    if n > 0 {
      RoundsLength(body, n - 1);
      CallsAt(body, |body|, n);
    }
  }

  /** The asynchronous sample: once the finalizer is through, the context was started, sampled as
      number 1, 2, ..., stopped and the buffer flushed. */
  lemma {:induction false} AsynchronousTrace(sched: nat -> Turn, n: nat)
    ensures
      var s := StateAt(ASYNCHRONOUS, sched, n);
      s.fini.Finished? ==>
        && s.count >= 1 && |s.trace| == s.count + 2
        && s.trace[0] == Event(StartContext, 0)
        && (forall i | 1 <= i < s.count :: s.trace[i] == Event(SampleService, i))
        && s.trace[s.count..] == [Event(StopContext, 0), Event(FlushBuffer, 0)]
  {
    var s := StateAt(ASYNCHRONOUS, sched, n);
    HandshakeSafe(ASYNCHRONOUS, sched, n);
    if s.fini.Finished? {
      CallsAt([StartContext], 1, 0);
      CallsAt([StopContext, FlushBuffer], 2, 0);
      RoundsLength([SampleService], s.count - 1);
      forall i | 1 <= i < s.count ensures s.trace[i] == Event(SampleService, i) {
        RoundsAt([SampleService], s.count - 1, i - 1, 0);
      }
    }
  }

  /** Round r + 1 of a trace is a start of the context, its sample and its stop. */
  predicate IsTriple(trace: seq<Event>, r: nat) {
    && 3 * r + 2 < |trace|
    && trace[3 * r] == Event(StartContext, r + 1)
    && trace[3 * r + 1] == Event(SampleService, r + 1)
    && trace[3 * r + 2] == Event(StopContext, r + 1)
  }

  lemma {:induction false} TriplesAt(n: nat, r: nat)
    requires r < n
    ensures |Rounds(SYNCHRONOUS.body, n)| == 3 * n && IsTriple(Rounds(SYNCHRONOUS.body, n), r)
  {
    RoundsAt(SYNCHRONOUS.body, n, r, 0);
    RoundsAt(SYNCHRONOUS.body, n, r, 1);
    RoundsAt(SYNCHRONOUS.body, n, r, 2);
  }

  /** The synchronous sample: once the sampler is gone, the calls come in threes; every start of the
      context is followed by its sample and its stop. */
  lemma {:induction false} SynchronousTrace(sched: nat -> Turn, n: nat)
    ensures
      var s := StateAt(SYNCHRONOUS, sched, n);
      s.sampler.Gone? ==>
        && s.count >= 1 && |s.trace| >= 3 * (s.count - 1)
        && (forall r: nat | r < s.count - 1 :: IsTriple(s.trace, r))
        && (forall i | 3 * (s.count - 1) <= i < |s.trace| :: s.trace[i].call == FlushStream)
  {
    var s := StateAt(SYNCHRONOUS, sched, n);
    HandshakeSafe(SYNCHRONOUS, sched, n);
    if s.sampler.Gone? {
      var rounds, last := Rounds(SYNCHRONOUS.body, s.count - 1), FinalizerScript(SYNCHRONOUS, s);
      RoundsLength(SYNCHRONOUS.body, s.count - 1);
      assert s.trace == rounds + last;
      FlushesOnly(s);
      forall r: nat | r < s.count - 1 ensures IsTriple(s.trace, r) {
        TriplesAt(s.count - 1, r);
        assert IsTriple(rounds, r);
      }
    }
  }

  lemma {:induction false} FlushesOnly(s: State)
    requires InRange(SYNCHRONOUS, s)
    ensures forall i | 0 <= i < |FinalizerScript(SYNCHRONOUS, s)| ::
              FinalizerScript(SYNCHRONOUS, s)[i].call == FlushStream
  {
    match s.fini {
      case After(i) => CallsAt(SYNCHRONOUS.epilogue, i, 0);
      case Finished => CallsAt(SYNCHRONOUS.epilogue, 1, 0);
      case _ =>
    }
  }

  // ---------- liveness ----------

  ghost predicate Later(sched: nat -> Turn, t: Turn, n: nat) {
    exists m: nat :: n <= m && sched(m) == t
  }

  /** Neither thread is left out for ever. */
  ghost predicate Fair(sched: nat -> Turn) {
    forall n: nat, t :: Later(sched, t, n)
  }

  /** Own steps the sampler still needs once the flag is set. */
  function SamplerLeft(p: Program, s: State): nat
    requires InRange(p, s)
  {
    match s.sampler
    case Before(i) => 3 + |p.prologue| - i
    case Round(i) => 4 + |p.body| - i
    case Sleep => 3
    case Check => 2
    case Clear => 1
    case Gone => 0
  }

  function FinalizerLeft(p: Program, s: State): nat
    requires InRange(p, s)
  {
    match s.fini
    case Request => 3 + |p.epilogue|
    case Spin => 2 + |p.epilogue|
    case After(i) => 1 + |p.epilogue| - i
    case Finished => 0
  }

  /** The flag gets set: m is a turn of the finalizer. */
  lemma {:induction false} EventuallyRequested(p: Program, sched: nat -> Turn, n: nat, m: nat) returns (k: nat)
    requires n <= m && sched(m).Finalizer?
    ensures n <= k && !StateAt(p, sched, k).fini.Request?
    decreases m - n
  {
    if !StateAt(p, sched, n).fini.Request? || n == m {
      k := if n == m then n + 1 else n;
    } else {
      k := EventuallyRequested(p, sched, n + 1, m);
    }
  }

  /** With the flag set, the sampler leaves its loop: m is its next turn or a later one. */
  lemma {:induction false} EventuallyGone(p: Program, sched: nat -> Turn, n: nat, m: nat) returns (k: nat)
    requires Fair(sched) && n <= m && sched(m).Sampler?
    requires Inv(p, StateAt(p, sched, n)) && !StateAt(p, sched, n).fini.Request?
    ensures n <= k && StateAt(p, sched, k).sampler.Gone?
    decreases SamplerLeft(p, StateAt(p, sched, n)), m - n
  {
    var s := StateAt(p, sched, n);
    StepInv(p, s, sched(n));
    if s.sampler.Gone? {
      k := n;
    } else if sched(n).Sampler? {
      assert Later(sched, Sampler, n + 1);
      var m' :| n + 1 <= m' && sched(m') == Sampler;
      k := EventuallyGone(p, sched, n + 1, m');
    } else {
      k := EventuallyGone(p, sched, n + 1, m);
    }
  }

  /** With the sampler gone, the finalizer runs to its end. */
  lemma {:induction false} EventuallyFinished(p: Program, sched: nat -> Turn, n: nat, m: nat) returns (k: nat)
    requires Fair(sched) && n <= m && sched(m).Finalizer?
    requires Inv(p, StateAt(p, sched, n)) && StateAt(p, sched, n).sampler.Gone?
    ensures n <= k && StateAt(p, sched, k).fini.Finished?
    decreases FinalizerLeft(p, StateAt(p, sched, n)), m - n
  {
    var s := StateAt(p, sched, n);
    StepInv(p, s, sched(n));
    if s.fini.Finished? {
      k := n;
    } else if sched(n).Finalizer? {
      assert Later(sched, Finalizer, n + 1);
      var m' :| n + 1 <= m' && sched(m') == Finalizer;
      k := EventuallyFinished(p, sched, n + 1, m');
    } else {
      k := EventuallyFinished(p, sched, n + 1, m);
    }
  }

  /** Under every fair scheduler the handshake ends: both threads finish. */
  lemma {:induction false} HandshakeFinishes(p: Program, sched: nat -> Turn)
    requires Fair(sched)
    ensures exists k: nat :: StateAt(p, sched, k).sampler.Gone? && StateAt(p, sched, k).fini.Finished?
  {
    assert Later(sched, Finalizer, 0);
    var m0: nat :| sched(m0) == Finalizer;
    var k0 := EventuallyRequested(p, sched, 0, m0);
    assert Later(sched, Sampler, k0);
    var m1: nat :| k0 <= m1 && sched(m1) == Sampler;
    HandshakeSafe(p, sched, k0);
    var k1 := EventuallyGone(p, sched, k0, m1);
    assert Later(sched, Finalizer, k1);
    var m2: nat :| k1 <= m2 && sched(m2) == Finalizer;
    HandshakeSafe(p, sched, k1);
    var k2 := EventuallyFinished(p, sched, k1, m2);
    GoneStays(p, sched, k1, k2);
  }

  /** Fairness is needed: without a turn for the sampler the finalizer spins for ever. */
  lemma {:induction false} SpinsWithoutSampler(p: Program, sched: nat -> Turn, n: nat)
    requires forall m :: sched(m).Finalizer?
    ensures !FinalizerLeftSpin(StateAt(p, sched, n))
    ensures n > 0 ==> StateAt(p, sched, n).toggle && StateAt(p, sched, n).fini.Spin?
  {
    if n > 0 {
      SpinsWithoutSampler(p, sched, n - 1);
    }
  }
}
