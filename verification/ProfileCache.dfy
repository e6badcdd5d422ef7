/**
 The per-agent profile cache of the dispatch callback: look up under the shared lock, and on a
 miss look again under the exclusive lock before creating. Every dispatch is a thread.
 */
module ProfileCache {
  import opened Optional
  import opened SharedMutex

  datatype Local =
    | Start(agent: nat)
    | SearchShared(agent: nat)
    | UnshareHit(agent: nat, profile: nat)
    | UnshareMiss(agent: nat)
    | WantExclusive(agent: nat)
    | SearchExclusive(agent: nat)
    | Create(agent: nat)
    | Store(agent: nat, profile: nat)
    | Unexclude(agent: nat, result: Option<nat>)
    | Returned(agent: nat, profile: nat)
    | Threw(agent: nat)
  {
    predicate HoldsShared() { SearchShared? || UnshareHit? || UnshareMiss? }

    predicate HoldsExclusive() { SearchExclusive? || Create? || Store? || Unexclude? }

    predicate Over() { Returned? || Threw? }

    /** The profile this dispatch has been or will be given. */
    function Config(): Option<nat> {
      match this
      case UnshareHit(_, p) => Some(p)
      case Unexclude(_, r) => r
      case Returned(_, p) => Some(p)
      case _ => None
    }
  }

  /** The cache, its lock, the dispatches, and, as history, every profile created and for whom. */
  datatype State = State(
    cache: map<nat, nat>, mutex: Mutex, threads: map<nat, Local>, created: seq<(nat, nat)>)

  predicate Enabled(s: State, t: nat)
    requires t in s.threads
  {
    match s.threads[t]
    case Start(_) => s.mutex.MayShare()
    case WantExclusive(_) => s.mutex.MayExclude()
    case x => !x.Over()
  }

  /** `outcome` is what creating a profile gives, should this step create one: a handle, or None
      when a call fails and the callback throws. */
  function Step(s: State, t: nat, outcome: Option<nat>): State
    requires t in s.threads && Enabled(s, t)
  {
    match s.threads[t]
    case Start(a) => s.(mutex := s.mutex.Share(t), threads := s.threads[t := SearchShared(a)])
    case SearchShared(a) =>
      s.(threads := s.threads[t := if a in s.cache then UnshareHit(a, s.cache[a]) else UnshareMiss(a)])
    case UnshareHit(a, p) => s.(mutex := s.mutex.Unshare(t), threads := s.threads[t := Returned(a, p)])
    case UnshareMiss(a) => s.(mutex := s.mutex.Unshare(t), threads := s.threads[t := WantExclusive(a)])
    case WantExclusive(a) => s.(mutex := s.mutex.Exclude(t), threads := s.threads[t := SearchExclusive(a)])
    case SearchExclusive(a) =>
      s.(threads := s.threads[t := if a in s.cache then Unexclude(a, Some(s.cache[a])) else Create(a)])
    case Create(a) =>
      if outcome.Some? then
        s.(threads := s.threads[t := Store(a, outcome.value)], created := s.created + [(a, outcome.value)])
      else
        s.(threads := s.threads[t := Unexclude(a, None)])
    case Store(a, p) =>
      s.(cache := if a in s.cache then s.cache else s.cache[a := p],
         threads := s.threads[t := Unexclude(a, Some(p))])
    case Unexclude(a, r) =>
      s.(mutex := s.mutex.Unexclude(t), threads := s.threads[t := if r.Some? then Returned(a, r.value) else Threw(a)])
  }

  // ---------- the invariant ----------

  ghost predicate LockInv(s: State) {
    && s.mutex.Sound()
    && (forall t :: t in s.mutex.readers <==> t in s.threads && s.threads[t].HoldsShared())
    && (forall t :: t in s.mutex.writers <==> t in s.threads && s.threads[t].HoldsExclusive())
  }

  ghost predicate LocalInv(s: State, x: Local) {
    && (x.Config().Some? ==> x.agent in s.cache && s.cache[x.agent] == x.Config().value)
    && (x.Create? ==> x.agent !in s.cache && forall i | 0 <= i < |s.created| :: s.created[i].0 != x.agent)
    && (x.Store? ==> x.agent !in s.cache && (x.agent, x.profile) in s.created)
  }

  /** A created profile is in the cache, or about to be put there. */
  ghost predicate Kept(s: State, c: (nat, nat)) {
    || (c.0 in s.cache && s.cache[c.0] == c.1)
    || exists t :: t in s.threads && s.threads[t] == Store(c.0, c.1)
  }

  ghost predicate OncePerAgent(created: seq<(nat, nat)>) {
    forall i, j | 0 <= i < j < |created| :: created[i].0 != created[j].0
  }

  ghost predicate Inv(s: State) {
    && LockInv(s)
    && (forall t | t in s.threads :: LocalInv(s, s.threads[t]))
    && (forall c | c in s.created :: Kept(s, c))
    && (forall a | a in s.cache :: (a, s.cache[a]) in s.created)
    && OncePerAgent(s.created)
  }

  predicate Init(s: State) {
    && s.cache == map[] && s.mutex == Mutex({}, {}) && s.created == []
    && forall t | t in s.threads :: s.threads[t].Start?
  }

  lemma {:induction false} InitInv(s: State)
    requires Init(s)
    ensures Inv(s)
  {
  }

  lemma {:induction false} StepLocal(s: State, t: nat, outcome: Option<nat>, u: nat)
    requires Inv(s) && t in s.threads && Enabled(s, t) && u in s.threads
    ensures LocalInv(Step(s, t, outcome), Step(s, t, outcome).threads[u])
  {
    var s', x, y := Step(s, t, outcome), s.threads[t], s.threads[u];
    assert LocalInv(s, x) && LocalInv(s, y);
    if x.SearchExclusive? && x.agent !in s.cache {
      NothingCreated(s, t);
    }
    if u != t && x.HoldsExclusive() {
      assert !y.HoldsExclusive() by {
        assert t in s.mutex.writers;
      }
    }
  }

  /** While a dispatch holds the exclusive lock, a profile created for an agent is in the cache. */
  lemma {:induction false} NothingCreated(s: State, t: nat)
    requires Inv(s) && t in s.threads && s.threads[t].SearchExclusive? && s.threads[t].agent !in s.cache
    ensures forall i | 0 <= i < |s.created| :: s.created[i].0 != s.threads[t].agent
  {
    assert t in s.mutex.writers;
    forall i | 0 <= i < |s.created| ensures s.created[i].0 != s.threads[t].agent {
      assert s.created[i] in s.created;
      assert Kept(s, s.created[i]);
    }
  }

  lemma {:induction false} StepKept(s: State, t: nat, outcome: Option<nat>, c: (nat, nat))
    requires Inv(s) && t in s.threads && Enabled(s, t) && c in Step(s, t, outcome).created
    ensures Kept(Step(s, t, outcome), c)
  {
    var s', x := Step(s, t, outcome), s.threads[t];
    if c in s.created {
      assert Kept(s, c);
      if u :| u in s.threads && s.threads[u] == Store(c.0, c.1) {
        assert LocalInv(s, s.threads[u]);
        assert u != t ==> s'.threads[u] == s.threads[u];
      }
    } else {
      assert s'.threads[t] == Store(c.0, c.1);
    }
  }

  lemma {:induction false} StepLock(s: State, t: nat, outcome: Option<nat>)
    requires LockInv(s) && t in s.threads && Enabled(s, t)
    ensures LockInv(Step(s, t, outcome))
  {
  }

  lemma {:induction false} StepCreated(s: State, t: nat, outcome: Option<nat>)
    requires Inv(s) && t in s.threads && Enabled(s, t)
    ensures var s' := Step(s, t, outcome);
            OncePerAgent(s'.created) && forall a | a in s'.cache :: (a, s'.cache[a]) in s'.created
  {
    assert LocalInv(s, s.threads[t]);
  }

  /** Every step of every dispatch keeps the invariant. */
  lemma {:induction false} StepInv(s: State, t: nat, outcome: Option<nat>)
    requires Inv(s) && t in s.threads && Enabled(s, t)
    ensures Inv(Step(s, t, outcome))
  {
    var s' := Step(s, t, outcome);
    StepLock(s, t, outcome);
    StepCreated(s, t, outcome);
    forall u | u in s'.threads ensures LocalInv(s', s'.threads[u]) {
      StepLocal(s, t, outcome, u);
    }
    forall c | c in s'.created ensures Kept(s', c) {
      StepKept(s, t, outcome, c);
    }
  }

  // ---------- whole runs ----------

  function Run(s: State, steps: seq<(nat, Option<nat>)>): Option<State>
    requires Inv(s)
    decreases |steps|
  {
    if steps == [] then Some(s)
    else if steps[0].0 in s.threads && Enabled(s, steps[0].0) then
      StepInv(s, steps[0].0, steps[0].1);
      Run(Step(s, steps[0].0, steps[0].1), steps[1..])
    else None
  }

  /** In every interleaving: at most one profile is created for an agent, dispatches on one agent
      are all given that profile, and a cached entry never changes. A dispatch whose creation
      failed leaves no trace. */
  lemma {:induction false} RunOnce(s: State, steps: seq<(nat, Option<nat>)>)
    requires Inv(s) && Run(s, steps).Some?
    ensures var s' := Run(s, steps).value;
      && Inv(s') && OncePerAgent(s'.created)
      && (forall a | a in s.cache :: a in s'.cache && s'.cache[a] == s.cache[a])
      && (forall t, u | t in s'.threads && u in s'.threads && s'.threads[t].Returned? && s'.threads[u].Returned?
            && s'.threads[t].agent == s'.threads[u].agent :: s'.threads[t].profile == s'.threads[u].profile)
      && (forall t | t in s'.threads && s'.threads[t].Returned? ::
            (s'.threads[t].agent, s'.threads[t].profile) in s'.created)
    decreases |steps|
  {
    if steps == [] {
      assert forall t | t in s.threads :: LocalInv(s, s.threads[t]);
    } else {
      StepInv(s, steps[0].0, steps[0].1);
      RunOnce(Step(s, steps[0].0, steps[0].1), steps[1..]);
    }
  }

  // ---------- how dispatches end ----------

  /** The dispatches whose own creation of a profile failed in the course of the run. */
  function Failed(s: State, steps: seq<(nat, Option<nat>)>): set<nat>
    requires Inv(s) && Run(s, steps).Some?
    decreases |steps|
  {
    if steps == [] then {}
    else
      var (t, outcome) := steps[0];
      StepInv(s, t, outcome);
      Failed(Step(s, t, outcome), steps[1..])
      + if s.threads[t].Create? && outcome.None? then {t} else {}
  }

  /** A dispatch is going to throw. */
  predicate Doomed(x: Local) { x.Threw? || (x.Unexclude? && x.result.None?) }

  lemma {:induction false} StepDoomed(s: State, t: nat, outcome: Option<nat>, u: nat)
    requires Inv(s) && t in s.threads && Enabled(s, t) && u in s.threads
    ensures u in Step(s, t, outcome).threads && Step(s, t, outcome).threads[u].agent == s.threads[u].agent
    ensures Doomed(Step(s, t, outcome).threads[u]) <==>
            Doomed(s.threads[u]) || (u == t && s.threads[t].Create? && outcome.None?)
  {
  }

  lemma {:induction false} RunDoomed(s: State, steps: seq<(nat, Option<nat>)>, t: nat)
    requires Inv(s) && Run(s, steps).Some? && t in s.threads
    ensures t in Run(s, steps).value.threads && Run(s, steps).value.threads[t].agent == s.threads[t].agent
    ensures Doomed(Run(s, steps).value.threads[t]) <==> Doomed(s.threads[t]) || t in Failed(s, steps)
    decreases |steps|
  {
    if steps != [] {
      StepInv(s, steps[0].0, steps[0].1);
      StepDoomed(s, steps[0].0, steps[0].1, t);
      RunDoomed(Step(s, steps[0].0, steps[0].1), steps[1..], t);
    }
  }

  /** In every run, a dispatch that is over threw if and only if its own creation failed; otherwise it
      returned the profile that is in the cache for the agent it started with. */
  lemma {:induction false} EndsExactly(s: State, steps: seq<(nat, Option<nat>)>, t: nat)
    requires Init(s) && Inv(s) && Run(s, steps).Some? && t in s.threads
    ensures
      var s', a := Run(s, steps).value, s.threads[t].agent;
      && t in s'.threads
      && (s'.threads[t].Over() ==>
            if t in Failed(s, steps) then s'.threads[t] == Threw(a)
            else a in s'.cache && s'.threads[t] == Returned(a, s'.cache[a]))
  {
    RunDoomed(s, steps, t);
    RunOnce(s, steps);
    var s' := Run(s, steps).value;
    assert LocalInv(s', s'.threads[t]);
  }

  /** If every creation succeeds, no dispatch throws. */
  lemma {:induction false} NoneFailed(s: State, steps: seq<(nat, Option<nat>)>)
    requires Inv(s) && Run(s, steps).Some? && forall i | 0 <= i < |steps| :: steps[i].1.Some?
    ensures Failed(s, steps) == {}
    decreases |steps|
  {
    if steps != [] {
      StepInv(s, steps[0].0, steps[0].1);
      NoneFailed(Step(s, steps[0].0, steps[0].1), steps[1..]);
    }
  }

  // ---------- a dispatch on its own ----------

  /** The next n steps of dispatch t, nobody else stepping; `outcome` is what creation would give. */
  function Alone(s: State, t: nat, outcome: Option<nat>, n: nat): State
    requires t in s.threads
    decreases n
  {
    if n == 0 || !Enabled(s, t) then s else Alone(Step(s, t, outcome), t, outcome, n - 1)
  }

  /** With the profile in the cache, a dispatch is over after three steps, by the shared lock alone. */
  lemma {:induction false} HitAlone(s: State, t: nat, outcome: Option<nat>, a: nat)
    requires s.mutex == Mutex({}, {}) && t in s.threads && s.threads[t] == Start(a) && a in s.cache
    ensures Alone(s, t, outcome, 1).mutex == Mutex({t}, {})
    ensures Alone(s, t, outcome, 2).mutex == Mutex({t}, {})
    ensures Alone(s, t, outcome, 3) == s.(threads := s.threads[t := Returned(a, s.cache[a])])
  {
    var s1 := Step(s, t, outcome);
    var s2 := Step(s1, t, outcome);
    var s3 := Step(s2, t, outcome);
    assert Alone(s, t, outcome, 1) == s1;
    assert Alone(s, t, outcome, 2) == Alone(s1, t, outcome, 1) == s2;
    assert Alone(s, t, outcome, 3) == Alone(s1, t, outcome, 2) == Alone(s2, t, outcome, 1) == s3;
    assert s3.threads == s.threads[t := Returned(a, s.cache[a])];
  }

  /** Without it, the eighth step is the last: a profile is created and cached and returned, or the
      callback throws and the cache stays as it was. */
  lemma {:induction false} MissAlone(s: State, t: nat, outcome: Option<nat>, a: nat)
    requires s.mutex == Mutex({}, {}) && t in s.threads && s.threads[t] == Start(a) && a !in s.cache
    ensures Alone(s, t, outcome, 8) ==
            if outcome.None? then s.(threads := s.threads[t := Threw(a)])
            else s.(cache := s.cache[a := outcome.value], created := s.created + [(a, outcome.value)],
                    threads := s.threads[t := Returned(a, outcome.value)])
  {
    MissesBoth(s, t, outcome, a);
    Creates(s.(mutex := Mutex({}, {t}), threads := s.threads[t := Create(a)]), t, outcome, a);
    SetTwice(s.threads, t, Create(a), if outcome.None? then Threw(a) else Returned(a, outcome.value));
  }

  lemma {:induction false} SetTwice(threads: map<nat, Local>, t: nat, x: Local, y: Local)
    ensures threads[t := x][t := y] == threads[t := y]
  {
  }

  lemma {:induction false} MissesBoth(s: State, t: nat, outcome: Option<nat>, a: nat)
    requires s.mutex == Mutex({}, {}) && t in s.threads && s.threads[t] == Start(a) && a !in s.cache
    ensures Alone(s, t, outcome, 8) ==
            Alone(s.(mutex := Mutex({}, {t}), threads := s.threads[t := Create(a)]), t, outcome, 3)
  {
    MissesShared(s, t, outcome, a);
    MissesExclusive(s.(threads := s.threads[t := WantExclusive(a)]), t, outcome, a);
    SetTwice(s.threads, t, WantExclusive(a), Create(a));
  }

  lemma {:induction false} MissesShared(s: State, t: nat, outcome: Option<nat>, a: nat)
    requires s.mutex == Mutex({}, {}) && t in s.threads && s.threads[t] == Start(a) && a !in s.cache
    ensures Alone(s, t, outcome, 8) == Alone(s.(threads := s.threads[t := WantExclusive(a)]), t, outcome, 5)
  {
    var s1 := Step(s, t, outcome);
    var s2 := Step(s1, t, outcome);
    var s3 := Step(s2, t, outcome);
    assert s3 == s.(threads := s.threads[t := WantExclusive(a)]);
    assert Alone(s, t, outcome, 8) == Alone(s1, t, outcome, 7) == Alone(s2, t, outcome, 6) == Alone(s3, t, outcome, 5);
  }

  lemma {:induction false} MissesExclusive(s: State, t: nat, outcome: Option<nat>, a: nat)
    requires s.mutex == Mutex({}, {}) && t in s.threads && s.threads[t] == WantExclusive(a) && a !in s.cache
    ensures Alone(s, t, outcome, 5) ==
            Alone(s.(mutex := Mutex({}, {t}), threads := s.threads[t := Create(a)]), t, outcome, 3)
  {
    var s1 := Step(s, t, outcome);
    var s2 := Step(s1, t, outcome);
    assert s2 == s.(mutex := Mutex({}, {t}), threads := s.threads[t := Create(a)]);
    assert Alone(s, t, outcome, 5) == Alone(s1, t, outcome, 4) == Alone(s2, t, outcome, 3);
  }

  lemma {:induction false} Creates(s: State, t: nat, outcome: Option<nat>, a: nat)
    requires s.mutex == Mutex({}, {t}) && t in s.threads && s.threads[t] == Create(a) && a !in s.cache
    ensures Alone(s, t, outcome, 3) ==
            if outcome.None? then s.(mutex := Mutex({}, {}), threads := s.threads[t := Threw(a)])
            else s.(mutex := Mutex({}, {}), cache := s.cache[a := outcome.value],
                    created := s.created + [(a, outcome.value)], threads := s.threads[t := Returned(a, outcome.value)])
  {
    var s1 := Step(s, t, outcome);
    var s2 := Step(s1, t, outcome);
    assert Alone(s, t, outcome, 3) == Alone(s1, t, outcome, 2) == Alone(s2, t, outcome, 1);
    if outcome.Some? {
      var s3 := Step(s2, t, outcome);
      assert Alone(s2, t, outcome, 1) == s3;
      assert s3.threads == s.threads[t := Returned(a, outcome.value)];
    } else {
      assert s2.threads == s.threads[t := Threw(a)];
    }
  }

  // ---------- progress ----------

  function StepsLeft(x: Local): nat {
    match x
    case Start(_) => 9
    case SearchShared(_) => 8
    case UnshareHit(_, _) => 1
    case UnshareMiss(_) => 7
    case WantExclusive(_) => 6
    case SearchExclusive(_) => 5
    case Create(_) => 4
    case Store(_, _) => 3
    case Unexclude(_, _) => 1
    case _ => 0
  }

  /** Every step brings its dispatch nearer to its end. */
  lemma {:induction false} StepProgress(s: State, t: nat, outcome: Option<nat>)
    requires t in s.threads && Enabled(s, t)
    ensures StepsLeft(Step(s, t, outcome).threads[t]) < StepsLeft(s.threads[t])
    ensures StepsLeft(s.threads[t]) == 0 <==> s.threads[t].Over()
  {
  }

  /** Until every dispatch is over, some dispatch can go on. */
  lemma {:induction false} NoDeadlock(s: State, t: nat)
    requires Inv(s) && t in s.threads && !s.threads[t].Over()
    ensures exists u :: u in s.threads && !s.threads[u].Over() && Enabled(s, u)
  {
    if !Enabled(s, t) {
      assert s.mutex.readers != {} || s.mutex.writers != {};
      var u :| u in s.mutex.readers + s.mutex.writers;
      assert Enabled(s, u);
    }
  }
}
