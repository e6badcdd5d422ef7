/**
 Negotiating a PC-sampling configuration on a device that other processes configure and release at
 the same time. The library side follows the documented contract: a device has at most one active
 configuration, a query delivers only that one when there is one, and configuring with any other
 one is answered with "not available".
 */
module PcSampling {
  import opened Optional

  datatype Method = HostTrap | Stochastic

  datatype Config = Config(samplingMethod: Method, unit: nat, minInterval: nat, maxInterval: nat)

  /** A configuration in force, or asked for: one interval of one method. */
  datatype Setting = Setting(samplingMethod: Method, unit: nat, interval: nat)

  datatype Status = Success | NotAvailable | Rejected

  /** What the hardware offers, what is active, and the processes that hold it with what each of
      them configured. */
  datatype Device = Device(offered: seq<Config>, active: Option<Setting>, holders: map<nat, Setting>)

  // ---------- the library's contract ----------

  function Query(d: Device): seq<Config> {
    match d.active
    case Some(a) => [Config(a.samplingMethod, a.unit, a.interval, a.interval)]
    case None => d.offered
  }

  predicate Matches(c: Config, s: Setting) {
    c.samplingMethod == s.samplingMethod && c.unit == s.unit && c.minInterval <= s.interval <= c.maxInterval
  }

  predicate Offers(d: Device, s: Setting) {
    exists i | 0 <= i < |d.offered| :: Matches(d.offered[i], s)
  }

  function Configure(d: Device, p: nat, s: Setting): (Device, Status) {
    if d.active.Some? then
      if d.active.value == s then (d.(holders := d.holders[p := s]), Success) else (d, NotAvailable)
    else if Offers(d, s) then (d.(active := Some(s), holders := d.holders[p := s]), Success)
    else (d, Rejected)
  }

  /** The last holder to leave deactivates the device. */
  function Release(d: Device, p: nat): Device {
    var holders := d.holders - {p};
    d.(holders := holders, active := if holders == map[] then None else d.active)
  }

  datatype Action = ConfigureBy(p: nat, s: Setting) | ReleaseBy(p: nat)

  function Act(d: Device, a: Action): Device {
    match a case ConfigureBy(p, s) => Configure(d, p, s).0 case ReleaseBy(p) => Release(d, p)
  }

  function ActAll(d: Device, actions: seq<Action>): Device
    decreases |actions|
  {
    if actions == [] then d else ActAll(Act(d, actions[0]), actions[1..])
  }

  /** All holders hold the active setting, which the device offers; no holders, nothing active. */
  ghost predicate Consistent(d: Device) {
    && (d.holders == map[] <==> d.active.None?)
    && (forall p | p in d.holders :: d.active == Some(d.holders[p]))
    && (d.active.Some? ==> Offers(d, d.active.value))
  }

  // ---------- the negotiation ----------

  /** What other processes do in one attempt: before the query, and between query and configure.
      `answers` is whether the query succeeds. */
  datatype Window = Window(before: seq<Action>, answers: bool, between: seq<Action>)

  datatype Outcome = Configured(interval: nat) | Failed | NullDereference

  const DEFAULT_INTERVAL: nat := 10000
  const ATTEMPTS: nat := 10

  /** Stochastic configurations are passed over. */
  function FirstHostTrap(configs: seq<Config>): Option<Config> {
    if configs == [] then None
    else if configs[0].samplingMethod.HostTrap? then Some(configs[0])
    else FirstHostTrap(configs[1..])
  }

  /** A range of one value is the interval another process has set up; it is taken over. */
  function Wanted(c: Config): Setting {
    Setting(c.samplingMethod, c.unit, if c.minInterval == c.maxInterval then c.minInterval else DEFAULT_INTERVAL)
  }

  /** One pass of the loop: how it ends, or None to try again, and the device after it. */
  function Attempt(d: Device, me: nat, w: Window): (Option<Outcome>, Device) {
    var d1 := ActAll(d, w.before);
    var configs := Query(d1);
    if !w.answers || configs == [] then (Some(Failed), d1)
    else
      var picked := FirstHostTrap(configs);
      if picked.None? then (Some(NullDereference), d1)
      else
        var s := Wanted(picked.value);
        var (d2, status) := Configure(ActAll(d1, w.between), me, s);
        match status
        case Success => (Some(Configured(s.interval)), d2)
        case NotAvailable => (None, d2)
        case Rejected => (Some(Failed), d2)
  }

  /** Outcome, final device and number of attempts, going on after k attempts that failed. */
  function Negotiate(d: Device, me: nat, env: seq<Window>, k: nat): (Outcome, Device, nat)
    requires k < ATTEMPTS <= |env|
    decreases ATTEMPTS - k
  {
    var (end, d') := Attempt(d, me, env[k]);
    if end.Some? then (end.value, d', k + 1)
    else if k + 1 == ATTEMPTS then (Failed, d', k + 1)
    else Negotiate(d', me, env, k + 1)
  }

  /** The first host-trap configuration is taken when there are several. */
  lemma {:induction false} FirstIsFirst(configs: seq<Config>)
    ensures var found := FirstHostTrap(configs);
      if found.Some? then
        exists i | 0 <= i < |configs| ::
          && configs[i] == found.value && found.value.samplingMethod == HostTrap
          && forall j | 0 <= j < i :: configs[j].samplingMethod == Stochastic
      else forall i | 0 <= i < |configs| :: configs[i].samplingMethod == Stochastic
    decreases |configs|
  {
    if configs != [] && configs[0].samplingMethod.Stochastic? {
      FirstIsFirst(configs[1..]);
      assert forall i | 1 <= i < |configs| :: configs[i] == configs[1..][i - 1];
      var found := FirstHostTrap(configs);
      if found.Some? {
        var i :| 0 <= i < |configs[1..]| && configs[1..][i] == found.value
                 && forall j | 0 <= j < i :: configs[1..][j].samplingMethod == Stochastic;
        assert configs[i + 1] == found.value;
        assert forall j | 0 <= j < i + 1 :: configs[j].samplingMethod == Stochastic;
      }
    }
  }

  /** Conversely, any host-trap configuration before which there is none is the one found. */
  lemma {:induction false} FirstFound(configs: seq<Config>, i: nat)
    requires i < |configs| && configs[i].samplingMethod == HostTrap
    requires forall j | 0 <= j < i :: configs[j].samplingMethod == Stochastic
    ensures FirstHostTrap(configs) == Some(configs[i])
    decreases i
  {
    if i > 0 {
      FirstFound(configs[1..], i - 1);
    }
  }

  method FindHostTrap(configs: seq<Config>) returns (found: Option<Config>)
    ensures found == FirstHostTrap(configs)
    ensures found.Some? ==> exists i | 0 <= i < |configs| ::
              && configs[i] == found.value && found.value.samplingMethod == HostTrap
              && forall j | 0 <= j < i :: configs[j].samplingMethod == Stochastic
    ensures found.None? ==> forall i | 0 <= i < |configs| :: configs[i].samplingMethod == Stochastic
  {
    FirstIsFirst(configs);
    found := None;
    for i := 0 to |configs|
      invariant FirstHostTrap(configs) == if found.Some? then found else FirstHostTrap(configs[i..])
    {
      if configs[i].samplingMethod.Stochastic? {
        // disabled: stochastic sampling is not fully supported
      } else if found.None? && configs[i].samplingMethod.HostTrap? {
        found := Some(configs[i]);
      }
    }
  }

  /** The body of the loop. */
  method TryConfigure(device: Device, me: nat, w: Window) returns (end: Option<Outcome>, after: Device)
    ensures (end, after) == Attempt(device, me, w)
  {
    after := ActAll(device, w.before);
    var availConfigs := Query(after);
    if !w.answers || availConfigs == [] {
      return Some(Failed), after;
    }
    var picked := FindHostTrap(availConfigs);
    if picked.None? {
      return Some(NullDereference), after;
    }
    var interval;
    if picked.value.minInterval == picked.value.maxInterval {
      interval := picked.value.minInterval;
    } else {
      interval := DEFAULT_INTERVAL;
    }
    after := ActAll(after, w.between);
    var reply := Configure(after, me, Setting(picked.value.samplingMethod, picked.value.unit, interval));
    after := reply.0;
    end := match reply.1
           case Success => Some(Configured(interval))
           case NotAvailable => None
           case Rejected => Some(Failed);
  }

  lemma {:induction false} NegotiateStep(d: Device, me: nat, env: seq<Window>, k: nat)
    requires k < ATTEMPTS <= |env|
    ensures var (end, d') := Attempt(d, me, env[k]);
            Negotiate(d, me, env, k) ==
            if end.Some? then (end.value, d', k + 1)
            else if k + 1 == ATTEMPTS then (Failed, d', k + 1)
            else Negotiate(d', me, env, k + 1)
  {
  }

  /** The do-while loop. `env` is what the other processes do, attempt by attempt. */
  method ConfigurePreferStochastic(device: Device, me: nat, env: seq<Window>)
    returns (outcome: Outcome, after: Device, attempts: nat)
    requires |env| >= ATTEMPTS
    ensures (outcome, after, attempts) == Negotiate(device, me, env, 0)
    ensures 1 <= attempts <= 10
  {
    var failures := ATTEMPTS;
    after, attempts := device, 0;
    while failures > 0
      invariant failures <= ATTEMPTS && attempts == ATTEMPTS - failures
      invariant Negotiate(device, me, env, 0) ==
        if failures > 0 then Negotiate(after, me, env, attempts) else (Failed, after, attempts)
    {
      var end;
      NegotiateStep(after, me, env, attempts);
      end, after := TryConfigure(after, me, env[attempts]);
      attempts := attempts + 1;
      if end.Some? {
        return end.value, after, attempts;
      }
      failures := failures - 1;
    }
    outcome := Failed;
  }

  // ---------- what holds on a shared device ----------

  lemma {:induction false} ActConsistent(d: Device, a: Action)
    requires Consistent(d)
    ensures Consistent(Act(d, a)) && Act(d, a).offered == d.offered
  {
    match a {
      case ConfigureBy(p, s) => ConfigureConsistent(d, p, s);
      case ReleaseBy(p) =>
    }
  }

  lemma {:induction false} ConfigureConsistent(d: Device, p: nat, s: Setting)
    requires Consistent(d)
    ensures Consistent(Configure(d, p, s).0) && Configure(d, p, s).0.offered == d.offered
  {
    assert d.holders[p := s] != map[] by {
      assert p in d.holders[p := s];
    }
  }

  lemma {:induction false} ActAllConsistent(d: Device, actions: seq<Action>)
    requires Consistent(d)
    ensures Consistent(ActAll(d, actions)) && ActAll(d, actions).offered == d.offered
    decreases |actions|
  {
    if actions != [] {
      ActConsistent(d, actions[0]);
      ActAllConsistent(Act(d, actions[0]), actions[1..]);
    }
  }

  lemma {:induction false} AttemptConsistent(d: Device, me: nat, w: Window)
    requires Consistent(d)
    ensures Consistent(Attempt(d, me, w).1) && Attempt(d, me, w).1.offered == d.offered
  {
    ActAllConsistent(d, w.before);
    var d1 := ActAll(d, w.before);
    ActAllConsistent(d1, w.between);
    var picked := FirstHostTrap(Query(d1));
    if picked.Some? {
      ConfigureConsistent(ActAll(d1, w.between), me, Wanted(picked.value));
    }
  }

  /** All processes that are configured agree, and if the negotiation succeeded this process is one
      of them with the interval it reports. */
  lemma {:induction false} NegotiateAgrees(d: Device, me: nat, env: seq<Window>, k: nat)
    requires Consistent(d) && k < ATTEMPTS <= |env|
    ensures var (o, d', n) := Negotiate(d, me, env, k);
      && Consistent(d') && n <= ATTEMPTS
      && (forall p, q | p in d'.holders && q in d'.holders :: d'.holders[p] == d'.holders[q])
      && (o.Configured? ==> me in d'.holders && d'.holders[me].interval == o.interval)
    decreases ATTEMPTS - k
  {
    AttemptConsistent(d, me, env[k]);
    var (end, d') := Attempt(d, me, env[k]);
    if end.None? && k + 1 < ATTEMPTS {
      NegotiateAgrees(d', me, env, k + 1);
    }
  }

  lemma {:induction false} HostTrapIsOne(configs: seq<Config>)
    ensures var c := FirstHostTrap(configs);
      if c.Some? then c.value in configs && c.value.samplingMethod.HostTrap?
      else forall x | x in configs :: !x.samplingMethod.HostTrap?
  {
    if configs != [] {
      HostTrapIsOne(configs[1..]);
    }
  }

  /** An attempt is told "not available" only if another process acted between its query and its
      configure call. */
  lemma {:induction false} RetryNeedsInterference(d: Device, me: nat, w: Window)
    requires Attempt(d, me, w).0.None?
    ensures w.between != []
  {
    HostTrapIsOne(Query(ActAll(d, w.before)));
  }

  /** The dereference of a missing host-trap configuration: exactly when the query answers with
      stochastic configurations only. */
  lemma {:induction false} NullExactly(d: Device, me: nat, w: Window)
    ensures Attempt(d, me, w).0 == Some(NullDereference) <==>
            var configs := Query(ActAll(d, w.before));
            w.answers && configs != [] && forall c | c in configs :: c.samplingMethod.Stochastic?
  {
    HostTrapIsOne(Query(ActAll(d, w.before)));
  }

  /** Such a query needs no exotic device: one other process that samples stochastically is enough. */
  lemma {:induction false} StochasticNeighbourNull(me: nat, other: nat, w: Window)
    requires w.answers && w.before == [ConfigureBy(other, Setting(Stochastic, 0, 64))]
    ensures var d := Device([Config(HostTrap, 0, 1, 20000), Config(Stochastic, 0, 1, 128)], None, map[]);
            Attempt(d, me, w).0 == Some(NullDereference)
  {
    var d := Device([Config(HostTrap, 0, 1, 20000), Config(Stochastic, 0, 1, 128)], None, map[]);
    var s := Setting(Stochastic, 0, 64);
    assert Matches(d.offered[1], s);
    var d1 := Act(d, w.before[0]);
    assert w.before[1..] == [] && ActAll(d1, []) == d1;
    assert ActAll(d, w.before) == d1;
    assert d1.active == Some(s);
    NullExactly(d, me, w);
    assert Query(d1) == [Config(Stochastic, 0, 64, 64)];
  }

  // ---------- when the negotiation succeeds ----------

  /** The device offers a host-trap configuration, and the first one admits the interval asked for. */
  predicate Suitable(d: Device) {
    && FirstHostTrap(d.offered).Some?
    && var c := FirstHostTrap(d.offered).value;
       c.minInterval == c.maxInterval || c.minInterval <= DEFAULT_INTERVAL <= c.maxInterval
  }

  predicate StochasticActive(d: Device) {
    d.active.Some? && d.active.value.samplingMethod.Stochastic?
  }

  /** On a suitable device an attempt comes to grief exactly when stochastic sampling is active at
      its query; otherwise it succeeds or has to be repeated, whatever the others do afterwards. */
  lemma {:induction false} AttemptExactly(d: Device, me: nat, w: Window)
    requires Consistent(d) && Suitable(d) && w.answers
    ensures var end := Attempt(d, me, w).0;
            if StochasticActive(ActAll(d, w.before)) then end == Some(NullDereference)
            else end.None? || end.value.Configured?
  {
    var d1 := ActAll(d, w.before);
    ActAllConsistent(d, w.before);
    HostTrapIsOne(d.offered);
    HostTrapIsOne(Query(d1));
    ActAllConsistent(d1, w.between);
    var picked := FirstHostTrap(Query(d1));
    if StochasticActive(d1) {
      assert forall c | c in Query(d1) :: c.samplingMethod.Stochastic?;
    } else {
      assert picked.Some?;
      assert Offers(d1, Wanted(picked.value)) by {
        if d1.active.None? {
          var i :| 0 <= i < |d.offered| && d.offered[i] == picked.value;
          assert Matches(d1.offered[i], Wanted(picked.value));
        }
      }
    }
  }

  // ---------- what is configured ----------

  /** An undisturbed attempt on a device nobody has configured: of the configurations offered the first
      for host trap is taken, with an interval of 10000 if its range has more than one value, and with
      that value otherwise. */
  lemma {:induction false} IdleDeviceConfigured(d: Device, me: nat, w: Window, i: nat)
    requires d.active == None && w == Window([], true, [])
    requires i < |d.offered| && d.offered[i].samplingMethod == HostTrap
    requires forall j | 0 <= j < i :: d.offered[j].samplingMethod == Stochastic
    requires d.offered[i].minInterval <= 10000 <= d.offered[i].maxInterval
             || d.offered[i].minInterval == d.offered[i].maxInterval
    ensures
      var c := d.offered[i];
      var interval := if c.minInterval == c.maxInterval then c.minInterval else 10000;
      var s := Setting(HostTrap, c.unit, interval);
      Attempt(d, me, w) == (Some(Configured(interval)), Device(d.offered, Some(s), d.holders[me := s]))
  {
    FirstFound(d.offered, i);
    assert ActAll(d, []) == d;
    assert Matches(d.offered[i], Wanted(d.offered[i]));
  }

  /** An interval of 10000 that the range does not contain is rejected, and the negotiation fails. */
  lemma {:induction false} IntervalOutOfRange(d: Device, me: nat, w: Window)
    requires d.active == None && w == Window([], true, []) && |d.offered| == 1
    requires d.offered[0].samplingMethod == HostTrap && d.offered[0].minInterval < d.offered[0].maxInterval
    requires 10000 < d.offered[0].minInterval || d.offered[0].maxInterval < 10000
    ensures Attempt(d, me, w) == (Some(Failed), d)
  {
    FirstFound(d.offered, 0);
    assert ActAll(d, []) == d;
    assert !Offers(d, Wanted(d.offered[0]));
  }

  /** An undisturbed attempt on a device that samples by host trap takes over its interval. */
  lemma {:induction false} ActiveSettingTakenOver(d: Device, me: nat, w: Window, unit: nat, interval: nat)
    requires d.active == Some(Setting(HostTrap, unit, interval)) && w == Window([], true, [])
    ensures Attempt(d, me, w) ==
            (Some(Configured(interval)), d.(holders := d.holders[me := Setting(HostTrap, unit, interval)]))
  {
    var c := Config(HostTrap, unit, interval, interval);
    assert Query(d) == [c];
    FirstFound([c], 0);
    assert ActAll(d, []) == d;
  }

  /** A query that fails, or delivers nothing, ends the negotiation. */
  lemma {:induction false} NoConfigurations(d: Device, me: nat, w: Window)
    requires !w.answers || Query(ActAll(d, w.before)) == []
    ensures Attempt(d, me, w) == (Some(Failed), ActAll(d, w.before))
  {
  }

  // ---------- how many attempts are made ----------

  /** The device before attempt k. */
  function DeviceAt(d: Device, me: nat, env: seq<Window>, k: nat): Device
    requires k <= |env|
  {
    if k == 0 then d else Attempt(DeviceAt(d, me, env, k - 1), me, env[k - 1]).1
  }

  /** How attempt k ends on the device it finds; None when it is told "not available". */
  function EndOf(d: Device, me: nat, env: seq<Window>, k: nat): Option<Outcome>
    requires k < |env|
  {
    Attempt(DeviceAt(d, me, env, k), me, env[k]).0
  }

  /** Attempts k to n - 2 are told "not available"; the next one ends so too and is the tenth, or ends
      the negotiation. */
  ghost predicate Attempts(d: Device, me: nat, env: seq<Window>, k: nat, o: Outcome, n: nat)
    requires |env| >= 10
  {
    && k < n <= 10
    && (forall j | k <= j < n - 1 :: EndOf(d, me, env, j).None?)
    && var last := EndOf(d, me, env, n - 1);
       if last.Some? then o == last.value else o == Failed && n == 10
  }

  lemma {:induction false} NegotiateEnds(d: Device, me: nat, env: seq<Window>, k: nat)
    requires k < 10 <= |env| && (EndOf(d, me, env, k).Some? || k == 9)
    ensures Negotiate(DeviceAt(d, me, env, k), me, env, k) ==
            (if EndOf(d, me, env, k).Some? then EndOf(d, me, env, k).value else Failed,
             DeviceAt(d, me, env, k + 1), k + 1)
  {
  }

  lemma {:induction false} NegotiateGoesOn(d: Device, me: nat, env: seq<Window>, k: nat)
    requires k < 9 && |env| >= 10 && EndOf(d, me, env, k).None?
    ensures Negotiate(DeviceAt(d, me, env, k), me, env, k) == Negotiate(DeviceAt(d, me, env, k + 1), me, env, k + 1)
  {
  }

  lemma {:induction false} NegotiateFrom(d: Device, me: nat, env: seq<Window>, k: nat)
    returns (o: Outcome, n: nat)
    requires k < 10 <= |env|
    ensures Attempts(d, me, env, k, o, n)
    ensures Negotiate(DeviceAt(d, me, env, k), me, env, k) == (o, DeviceAt(d, me, env, n), n)
    decreases 10 - k
  {
    var end := EndOf(d, me, env, k);
    if end.None? && k < 9 {
      NegotiateGoesOn(d, me, env, k);
      o, n := NegotiateFrom(d, me, env, k + 1);
    } else {
      NegotiateEnds(d, me, env, k);
      o, n := if end.Some? then end.value else Failed, k + 1;
    }
  }

  /** The attempts go on until one ends, but no further than the tenth: the negotiation ends as the
      first attempt does that ends, and fails if ten are told "not available". */
  lemma {:induction false} TenAttempts(d: Device, me: nat, env: seq<Window>)
    requires |env| >= 10
    ensures var (o, after, n) := Negotiate(d, me, env, 0);
      && 1 <= n <= 10 && after == DeviceAt(d, me, env, n)
      && (forall j | 0 <= j < n - 1 :: EndOf(d, me, env, j).None?)
      && var last := EndOf(d, me, env, n - 1);
         if last.Some? then o == last.value else o == Failed && n == 10
  {
    var o, n := NegotiateFrom(d, me, env, 0);
    assert Attempts(d, me, env, 0, o, n);
  }

  // ---------- how many steps of others it takes ----------

  function Interference(ws: seq<Window>): nat {
    if ws == [] then 0 else |ws[0].between| + Interference(ws[1..])
  }

  lemma {:induction false} QuietExists(ws: seq<Window>) returns (quiet: nat)
    requires Interference(ws) < |ws|
    ensures quiet < |ws| && ws[quiet].between == []
  {
    if ws[0].between == [] {
      quiet := 0;
    } else {
      quiet := QuietExists(ws[1..]);
      quiet := quiet + 1;
    }
  }

  /** Some attempt that is made, from attempt k on, queries while stochastic sampling is active. */
  predicate MeetsStochastic(d: Device, me: nat, env: seq<Window>, k: nat)
    requires k < ATTEMPTS <= |env|
    decreases ATTEMPTS - k
  {
    var (end, d') := Attempt(d, me, env[k]);
    || StochasticActive(ActAll(d, env[k].before))
    || (end.None? && k + 1 < ATTEMPTS && MeetsStochastic(d', me, env, k + 1))
  }

  /** If one of the remaining attempts is undisturbed, the negotiation succeeds exactly when it does
      not meet stochastic sampling, and dereferences null otherwise. */
  lemma {:induction false} QuietNegotiationExactly(d: Device, me: nat, env: seq<Window>, k: nat, quiet: nat)
    requires Consistent(d) && Suitable(d) && forall w | w in env :: w.answers
    requires k <= quiet < ATTEMPTS <= |env| && env[quiet].between == []
    ensures var o := Negotiate(d, me, env, k).0;
            if MeetsStochastic(d, me, env, k) then o == NullDereference else o.Configured?
    decreases ATTEMPTS - k
  {
    assert env[k] in env;
    AttemptExactly(d, me, env[k]);
    AttemptConsistent(d, me, env[k]);
    var (end, d') := Attempt(d, me, env[k]);
    if end.None? {
      RetryNeedsInterference(d, me, env[k]);
      QuietNegotiationExactly(d', me, env, k + 1, quiet);
    }
  }

  /** With fewer than ten interfering steps the ten attempts suffice, exactly if none of the queries
      meets stochastic sampling. */
  lemma {:induction false} FewInterferencesExactly(d: Device, me: nat, env: seq<Window>)
    requires Consistent(d) && Suitable(d) && forall w | w in env :: w.answers
    requires |env| >= ATTEMPTS && Interference(env[..ATTEMPTS]) < ATTEMPTS
    ensures Negotiate(d, me, env, 0).0.Configured? <==> !MeetsStochastic(d, me, env, 0)
    ensures MeetsStochastic(d, me, env, 0) ==> Negotiate(d, me, env, 0).0 == NullDereference
  {
    var quiet := QuietExists(env[..ATTEMPTS]);
    QuietNegotiationExactly(d, me, env, 0, quiet);
  }

  predicate HostTrapOnly(actions: seq<Action>) {
    forall a | a in actions :: a.ConfigureBy? ==> a.s.samplingMethod.HostTrap?
  }

  /** The other processes, like this one, sample by host trap. */
  ghost predicate Cooperative(ws: seq<Window>) {
    forall w | w in ws :: w.answers && HostTrapOnly(w.before) && HostTrapOnly(w.between)
  }

  ghost predicate HostTrapActive(d: Device) {
    d.active.Some? ==> d.active.value.samplingMethod.HostTrap?
  }

  lemma {:induction false} ActAllHostTrap(d: Device, actions: seq<Action>)
    requires HostTrapActive(d) && HostTrapOnly(actions)
    ensures HostTrapActive(ActAll(d, actions))
    decreases |actions|
  {
    if actions != [] {
      assert actions[0] in actions;
      ActAllHostTrap(Act(d, actions[0]), actions[1..]);
    }
  }

  /** Processes that only ever use host trap never meet stochastic sampling. */
  lemma {:induction false} CooperationMeetsNone(d: Device, me: nat, env: seq<Window>, k: nat)
    requires Consistent(d) && HostTrapActive(d) && Suitable(d) && Cooperative(env) && k < ATTEMPTS <= |env|
    ensures !MeetsStochastic(d, me, env, k)
    decreases ATTEMPTS - k
  {
    var w := env[k];
    assert w in env;
    var d1 := ActAll(d, w.before);
    ActAllHostTrap(d, w.before);
    AttemptConsistent(d, me, w);
    var (end, d') := Attempt(d, me, w);
    if end.None? && k + 1 < ATTEMPTS {
      ActAllHostTrap(d1, w.between);
      HostTrapIsOne(Query(d1));
      CooperationMeetsNone(d', me, env, k + 1);
    }
  }

  /** Among processes that use host trap, fewer than ten interfering steps cannot keep the
      negotiation from succeeding. */
  lemma {:induction false} FewInterferencesSucceed(d: Device, me: nat, env: seq<Window>)
    requires Consistent(d) && HostTrapActive(d) && Suitable(d)
    requires |env| >= ATTEMPTS && Cooperative(env) && Interference(env[..ATTEMPTS]) < ATTEMPTS
    ensures Negotiate(d, me, env, 0).0.Configured?
  {
    CooperationMeetsNone(d, me, env, 0);
    FewInterferencesExactly(d, me, env);
  }
}
