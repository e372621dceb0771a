/** What every run of the monitor guarantees about automatic reboots, whatever the miners answer. */
module RebootLaws {
  import opened Common
  import opened RebootSafety
  import opened MinerTick
  import opened Fleet

  // ---------- one miner, one tick ----------

  /** A LOW timer runs after a tick only as evidence: the miner is confirmed LOW and the signal is
      eligible. It starts now after a detected restart or a firmware transition, and never runs after
      a reboot. */
  lemma TimerIsEvidence(cfg: Config, processStart: real, m: Miner, r: Reading, now: real, d: InterlockDecision)
    ensures
      var o := TickMiner(cfg, processStart, m, r, now, d);
      Truthy(o.miner.lowSince) ==>
        o.miner.health.Low? && o.signal.Eligible? && !o.decision.Rebooted? &&
        (o.miner.lowSince == Some(now) || o.miner.lowSince == m.lowSince) &&
        (UptimeReset(m, r) || (o.decision.Interlocked? && TransitionResetsTimer(cfg, d)) ==>
           o.miner.lowSince == Some(now))
  {
  }

  /** A command is issued only on a timer older than the sustained period that this tick did not start. */
  lemma IssuedOnOldTimer(cfg: Config, processStart: real, m: Miner, r: Reading, now: real, d: InterlockDecision)
    requires TickMiner(cfg, processStart, m, r, now, d).decision.Issued()
    ensures Classify(cfg, r).Eligible? && d.Allowed()
    ensures now - processStart >= cfg.startupGuard
    ensures TickMiner(cfg, processStart, m, r, now, d).miner.health.Low?
    ensures
      if Truthy(m.lowSince) && !UptimeReset(m, r) then now - m.lowSince.value >= cfg.lowSustained
      else cfg.lowSustained <= 0.0
  {
  }

  /** With a positive cooldown a reboot comes at least that long after the last recorded action,
      whichever way the clock moved in between. */
  lemma RebootAfterCooldown(cfg: Config, processStart: real, m: Miner, r: Reading, now: real, d: InterlockDecision)
    requires cfg.cooldown > 0.0
    requires TickMiner(cfg, processStart, m, r, now, d).decision.Rebooted?
    ensures m.lastAuto.Some? ==> now >= m.lastAuto.value + cfg.cooldown
    ensures m.lastManual.Some? ==> now >= m.lastManual.value + cfg.cooldown
  {
    var pruned := Observe(cfg, m, r, now).(autoReboots := Recent(m.autoReboots, now, cfg.window));
    assert !InCooldown(cfg, pruned, now);
    assert LastAction(pruned) == LastAction(m);
  }

  /** The cooldown blocks exactly while some recorded action lies less than the cooldown back; a
      non-positive cooldown never blocks. The tolerance for clock skew makes no difference. */
  lemma CooldownExactly(cfg: Config, m: Miner, now: real)
    ensures InCooldown(cfg, m, now) <==>
      cfg.cooldown > 0.0 &&
      ((m.lastManual.Some? && now < m.lastManual.value + cfg.cooldown) ||
       (m.lastAuto.Some? && now < m.lastAuto.value + cfg.cooldown))
  {
  }

  lemma GuardsIssueExactly(cfg: Config, processStart: real, m: Miner, r: Reading, now: real, d: InterlockDecision)
    ensures
      var decision := RunGuards(cfg, processStart, m, r, now, d).1;
      (decision.Issued() <==>
         m.health.Low? && Truthy(m.lowSince) && m.lowSince.value <= now - cfg.lowSustained &&
         Classify(cfg, r).Eligible? && processStart <= now - cfg.startupGuard && d.Allowed() &&
         !InCooldown(cfg, m, now) && |m.autoReboots| < cfg.maxPerWindow && !cfg.actionsBlocked) &&
      (decision.Rebooted? <==> decision.Issued() && r.cliOk)
  {
  }

  /** The whole chain: a tick hands a reboot command to the CLI if and only if the miner is confirmed LOW
      on an eligible reading, the timer that ran before (or starts now) is old enough, the process is past
      its start-up guard, no interlock objects, every recorded action is a cooldown old, the window has
      room, and actions are not blocked. */
  lemma IssuedExactly(cfg: Config, processStart: real, m: Miner, r: Reading, now: real, d: InterlockDecision)
    ensures
      var o := TickMiner(cfg, processStart, m, r, now, d);
      var since := if m.lowSince.Some? && !UptimeReset(m, r) then m.lowSince else Some(now);
      (o.decision.Issued() <==>
         Observe(cfg, m, r, now).health.Low? && Truthy(since) && since.value <= now - cfg.lowSustained &&
         r.responded && r.rate.Finite? && r.rate.value < cfg.threshold &&
         processStart <= now - cfg.startupGuard && d.Allowed() &&
         (cfg.cooldown > 0.0 ==>
            forall t :: m.lastManual == Some(t) || m.lastAuto == Some(t) ==> t + cfg.cooldown <= now) &&
         |Recent(m.autoReboots, now, cfg.window)| < cfg.maxPerWindow && !cfg.actionsBlocked) &&
      (o.decision.Rebooted? <==> o.decision.Issued() && r.cliOk)
  {
    var observed := Observe(cfg, m, r, now);
    var pruned := observed.(autoReboots := Recent(observed.autoReboots, now, cfg.window));
    assert observed.health.Low? ==>
      observed.lowSince == if m.lowSince.Some? && !UptimeReset(m, r) then m.lowSince else Some(now);
    hide RunGuards, InCooldown, Recent, UptimeReset;
    GuardsIssueExactly(cfg, processStart, pruned, r, now, d);
    CooldownExactly(cfg, pruned, now);
  }

  lemma GuardsRecordReboots(cfg: Config, processStart: real, m: Miner, r: Reading, now: real, d: InterlockDecision)
    ensures
      var (after, decision) := RunGuards(cfg, processStart, m, r, now, d);
      after.lastManual == m.lastManual &&
      (if decision.Rebooted?
       then after.lastAuto == Some(now) && after.autoReboots == m.autoReboots + [now] &&
            |m.autoReboots| < cfg.maxPerWindow
       else after.lastAuto == m.lastAuto && after.autoReboots == m.autoReboots)
  {
  }

  /** A tick adds to the reboot records exactly when it reboots, and only below the window limit. */
  lemma TickRecordsReboots(cfg: Config, processStart: real, m: Miner, r: Reading, now: real, d: InterlockDecision)
    ensures
      var o := TickMiner(cfg, processStart, m, r, now, d);
      var recent := Recent(m.autoReboots, now, cfg.window);
      o.miner.lastManual == m.lastManual &&
      (if o.decision.Rebooted?
       then o.miner.lastAuto == Some(now) && o.miner.autoReboots == recent + [now] && |recent| < cfg.maxPerWindow
       else o.miner.lastAuto == m.lastAuto && o.miner.autoReboots == recent)
  {
    hide RunGuards, Recent;
    var observed := Observe(cfg, m, r, now);
    var pruned := observed.(autoReboots := Recent(observed.autoReboots, now, cfg.window));
    GuardsRecordReboots(cfg, processStart, pruned, r, now, d);
  }

  // ---------- fleet cap ----------

  /** Timers run only for miners that the last finished tick saw as eligible. */
  ghost predicate TimersAreInSnapshot(keys: set<Key>, w: World) {
    w.signals.Keys <= keys &&
    forall k :: k in w.miners && Truthy(w.miners[k].lowSince) ==> k in w.signals && w.signals[k].Eligible?
  }

  lemma StepKeepsTimersInSnapshot(cfg: Config, keys: set<Key>, w: World, a: Action)
    requires TimersAreInSnapshot(keys, w)
    ensures TimersAreInSnapshot(keys, Step(cfg, keys, w, a))
  {
    hide TickMiner;
    if a.FleetTick? {
      forall k | k in keys
        ensures var o := OutcomeFor(cfg, w, k, a.readings(k), a.now);
                Truthy(o.miner.lowSince) ==> o.signal.Eligible?
      {
        var r := a.readings(k);
        TimerIsEvidence(cfg, w.processStart, MinerAt(w.miners, k), r, a.now, InterlockFor(cfg, w, k, r, a.now));
      }
    }
  }

  lemma {:induction false} RunKeepsTimersInSnapshot(cfg: Config, keys: set<Key>, start: World, actions: seq<Action>,
                                                    n: nat)
    requires JustStarted(start) && n <= |actions|
    ensures TimersAreInSnapshot(keys, At(cfg, keys, start, actions, n))
  {
    hide Step;
    if n > 0 {
      RunKeepsTimersInSnapshot(cfg, keys, start, actions, n - 1);
      StepKeepsTimersInSnapshot(cfg, keys, At(cfg, keys, start, actions, n - 1), actions[n - 1]);
    }
  }

  /** The miners for which a tick of world w at time `now` hands a reboot command to the CLI. */
  ghost function IssuedAt(cfg: Config, keys: set<Key>, w: World, now: real, readings: Key -> Reading): set<Key> {
    set k | k in keys && OutcomeFor(cfg, w, k, readings(k), now).decision.Issued()
  }

  /** The miners for which action n handed a reboot command to the CLI. */
  ghost function IssuedIn(cfg: Config, keys: set<Key>, start: World, actions: seq<Action>, n: nat): set<Key>
    requires n < |actions| && actions[n].FleetTick?
  {
    IssuedAt(cfg, keys, At(cfg, keys, start, actions, n), actions[n].now, actions[n].readings)
  }

  predicate HasFreshSnapshot(cfg: Config, w: World, now: real) {
    SnapshotFresh(SnapshotAge(ObservedAt(w), Finite(now)), cfg.guards.snapshotMaxAge)
  }

  /** Only the interlocks and the next reading stand between miner k and a reboot: its timer is old enough,
      the start-up guard and the cooldown are over, the window has room, and actions are not blocked. */
  predicate IsReady(cfg: Config, w: World, k: Key, now: real) {
    var m := MinerAt(w.miners, k);
    Truthy(m.lowSince) && m.lowSince.value <= now - cfg.lowSustained && w.processStart <= now - cfg.startupGuard &&
    !InCooldown(cfg, m, now) && |Recent(m.autoReboots, now, cfg.window)| < cfg.maxPerWindow && !cfg.actionsBlocked
  }

  ghost function ReadyMiners(cfg: Config, keys: set<Key>, w: World, now: real): set<Key> {
    set k | k in keys && IsReady(cfg, w, k, now)
  }

  lemma IssuedMeansReady(cfg: Config, w: World, k: Key, r: Reading, now: real)
    requires cfg.lowSustained > 0.0 && OutcomeFor(cfg, w, k, r, now).decision.Issued()
    ensures IsReady(cfg, w, k, now) && Classify(cfg, r).Eligible? && InterlockFor(cfg, w, k, r, now).Allowed()
  {
    var m, d := MinerAt(w.miners, k), InterlockFor(cfg, w, k, r, now);
    hide TickMiner, InterlockFor, Observe, Recent, UptimeReset, InCooldown;
    IssuedExactly(cfg, w.processStart, m, r, now, d);
    CooldownExactly(cfg, m, now);
  }

  lemma LowReadingStaysLow(cfg: Config, m: Miner, now: real)
    requires m.health.Low?
    ensures Observe(cfg, m, LowReading(cfg), now).health.Low? && !UptimeReset(m, LowReading(cfg))
  {
  }

  lemma StaleSnapshotAllows(cfg: Config, w: World, k: Key, now: real)
    requires !HasFreshSnapshot(cfg, w, now)
    ensures InterlockFor(cfg, w, k, LowReading(cfg), now).Allowed()
  {
    var r := LowReading(cfg);
    StaleSnapshotIsNoIncident(cfg.guards, k, Classify(cfg, r), w.signals, ObservedAt(w), Finite(now), r.maxTemp,
                              r.transitioning);
  }

  lemma ReadyIsIssued(cfg: Config, w: World, k: Key, now: real)
    requires IsReady(cfg, w, k, now) && MinerAt(w.miners, k).health.Low? && !HasFreshSnapshot(cfg, w, now)
    ensures OutcomeFor(cfg, w, k, LowReading(cfg), now).decision.Issued()
  {
    var m, r, d := MinerAt(w.miners, k), LowReading(cfg), InterlockFor(cfg, w, k, LowReading(cfg), now);
    hide TickMiner, InterlockFor, Observe, Recent, UptimeReset, InCooldown, HasFreshSnapshot;
    LowReadingStaysLow(cfg, m, now);
    StaleSnapshotAllows(cfg, w, k, now);
    CooldownExactly(cfg, m, now);
    IssuedExactly(cfg, w.processStart, m, r, now, d);
  }

  lemma {:induction false} FleetCapAt(cfg: Config, keys: set<Key>, w: World, now: real, readings: Key -> Reading)
    requires TimersAreInSnapshot(keys, w) && HasFreshSnapshot(cfg, w, now)
    requires cfg.guards.fleetGuard && cfg.lowSustained > 0.0
    ensures |IssuedAt(cfg, keys, w, now, readings)| <= FleetThreshold(cfg.guards) - 1
  {
    var issued := IssuedAt(cfg, keys, w, now, readings);
    forall k | k in issued
      ensures k in w.signals && w.signals[k].Eligible?
      ensures InterlockFor(cfg, w, k, readings(k), now).Allowed() && Classify(cfg, readings(k)).Eligible?
    {
      IssuedMeansReady(cfg, w, k, readings(k), now);
    }
    if issued != {} {
      var k :| k in issued;
      var r := readings(k);
      AllowedBoundsAffectedGroup(cfg.guards, k, Classify(cfg, r), w.signals, ObservedAt(w), Finite(now),
                                 r.maxTemp, r.transitioning, issued);
    }
  }

  /** With the fleet guard on, no tick of any run issues as many commands as the fleet threshold,
      provided the clock has not outrun the snapshot of the previous tick. */
  lemma {:induction false} FleetCap(cfg: Config, keys: set<Key>, start: World, actions: seq<Action>, n: nat)
    requires JustStarted(start) && n < |actions| && actions[n].FleetTick?
    requires cfg.guards.fleetGuard && cfg.lowSustained > 0.0
    requires var w := At(cfg, keys, start, actions, n);
             w.signalsAt.Some? ==> HasFreshSnapshot(cfg, w, actions[n].now)
    ensures |IssuedIn(cfg, keys, start, actions, n)| <= FleetThreshold(cfg.guards) - 1
  {
    CapBrokenIff(cfg, keys, start, actions, n, actions[n].now);
    RunKeepsTimersInSnapshot(cfg, keys, start, actions, n);
    SignalsNeedATick(cfg, keys, start, actions, n);
    var w := At(cfg, keys, start, actions, n);
    hide At, IsReady, IssuedAt;
    if w.signalsAt.None? {
      NoSnapshotNoneReady(cfg, keys, w, actions[n].now);
    }
    assert !CanIssue(cfg, keys, w, actions[n].now, FleetThreshold(cfg.guards));
  }

  lemma NoSnapshotNoneReady(cfg: Config, keys: set<Key>, w: World, now: real)
    requires TimersAreInSnapshot(keys, w) && w.signals == map[]
    ensures ReadyMiners(cfg, keys, w, now) == {}
  {
    hide InCooldown, Recent;
  }

  /** Some readings make a tick of world w at time `now` issue at least so many commands. */
  ghost predicate CanIssue(cfg: Config, keys: set<Key>, w: World, now: real, count: int) {
    exists readings :: |IssuedAt(cfg, keys, w, now, readings)| >= count
  }

  /** In every reachable world and at every time, the next tick can issue as many commands as the fleet
      threshold if and only if the snapshot is not fresh and that many miners are ready. */
  lemma {:induction false} CapBrokenIff(cfg: Config, keys: set<Key>, start: World, actions: seq<Action>, n: nat,
                                        now: real)
    requires JustStarted(start) && n <= |actions| && cfg.guards.fleetGuard && cfg.lowSustained > 0.0
    ensures
      var w := At(cfg, keys, start, actions, n);
      CanIssue(cfg, keys, w, now, FleetThreshold(cfg.guards)) <==>
        !HasFreshSnapshot(cfg, w, now) && |ReadyMiners(cfg, keys, w, now)| >= FleetThreshold(cfg.guards)
  {
    var w := At(cfg, keys, start, actions, n);
    RunKeepsTimersInSnapshot(cfg, keys, start, actions, n);
    RunTimesOnlyLow(cfg, keys, start, actions, n);
    CapBrokenAt(cfg, keys, w, now);
    hide *;
  }

  lemma {:induction false} CapBrokenAt(cfg: Config, keys: set<Key>, w: World, now: real)
    requires TimersAreInSnapshot(keys, w) && TimersOnlyWhenLow(w)
    requires cfg.guards.fleetGuard && cfg.lowSustained > 0.0
    ensures CanIssue(cfg, keys, w, now, FleetThreshold(cfg.guards)) <==>
      !HasFreshSnapshot(cfg, w, now) && |ReadyMiners(cfg, keys, w, now)| >= FleetThreshold(cfg.guards)
  {
    hide OutcomeFor, HasFreshSnapshot, InCooldown, Recent, TimersAreInSnapshot;
    var ready := ReadyMiners(cfg, keys, w, now);
    forall readings
      ensures |IssuedAt(cfg, keys, w, now, readings)| <= |ready|
      ensures HasFreshSnapshot(cfg, w, now) ==> |IssuedAt(cfg, keys, w, now, readings)| < FleetThreshold(cfg.guards)
    {
      forall k | k in IssuedAt(cfg, keys, w, now, readings) ensures k in ready {
        IssuedMeansReady(cfg, w, k, readings(k), now);
      }
      SubsetSize(IssuedAt(cfg, keys, w, now, readings), ready);
      if HasFreshSnapshot(cfg, w, now) {
        FleetCapAt(cfg, keys, w, now, readings);
      }
    }
    if !HasFreshSnapshot(cfg, w, now) {
      var low: Key -> Reading := _ => LowReading(cfg);
      forall k | k in ready ensures k in IssuedAt(cfg, keys, w, now, low) {
        ReadyIsIssued(cfg, w, k, now);
      }
      SubsetSize(ready, IssuedAt(cfg, keys, w, now, low));
    }
  }

  const LOW_READING := LowReading(SHORT_LIVED)

  const SHORT_LIVED := Config(2.0, 1, 1, 3, 0.0, 10.0, 0.0, 100.0, 1,
                              GuardConfig(false, Missing, true, 2, false, Finite(5.0)), false)

  const NEW_WORLD := World(map[], map[], None, 0.0, None)

  function TwoLowTicks(): seq<Action> {
    [FleetTick(1.0, _ => LOW_READING, 1.0, None), FleetTick(20.0, _ => LOW_READING, 20.0, None)]
  }

  /** Without a fresh snapshot the cap fails: two miners that have been LOW for long are rebooted in the
      same tick when that tick comes later than the snapshot's maximum age. */
  lemma CapNeedsFreshSnapshot(a: Key, b: Key)
    requires a != b
    ensures JustStarted(NEW_WORLD) && SHORT_LIVED.guards.fleetGuard && SHORT_LIVED.lowSustained > 0.0
    ensures |IssuedIn(SHORT_LIVED, {a, b}, NEW_WORLD, TwoLowTicks(), 1)| > FleetThreshold(SHORT_LIVED.guards) - 1
  {
    hide OutcomeFor, At;
    LowTwiceIsIssued({a, b}, a);
    LowTwiceIsIssued({a, b}, b);
    assert IssuedIn(SHORT_LIVED, {a, b}, NEW_WORLD, TwoLowTicks(), 1) == {a, b};
  }

  lemma FirstLowTick(d: InterlockDecision)
    ensures
      var m := TickMiner(SHORT_LIVED, 0.0, FRESH_MINER, LOW_READING, 1.0, d).miner;
      m.lowSince == Some(1.0) && m.health.Low? && m.autoReboots == [] && m.lastElapsed.None? &&
      m.lastAuto.None? && m.lastManual.None?
  {
  }

  lemma SecondLowTick(m: Miner, d: InterlockDecision)
    requires m.lowSince == Some(1.0) && m.health.Low? && m.autoReboots == [] && m.lastElapsed.None?
    requires m.lastAuto.None? && m.lastManual.None? && d.Allowed()
    ensures TickMiner(SHORT_LIVED, 0.0, m, LOW_READING, 20.0, d).decision.Issued()
  {
    IssuedExactly(SHORT_LIVED, 0.0, m, LOW_READING, 20.0, d);
  }

  lemma LowTwiceIsIssued(keys: set<Key>, k: Key)
    requires k in keys
    ensures OutcomeFor(SHORT_LIVED, At(SHORT_LIVED, keys, NEW_WORLD, TwoLowTicks(), 1), k, LOW_READING,
                       20.0).decision.Issued()
  {
    hide TickMiner, EvaluateInterlocks;
    var w := At(SHORT_LIVED, keys, NEW_WORLD, TwoLowTicks(), 1);
    assert w == Step(SHORT_LIVED, keys, At(SHORT_LIVED, keys, NEW_WORLD, TwoLowTicks(), 0), TwoLowTicks()[0]);
    FirstLowTick(InterlockFor(SHORT_LIVED, NEW_WORLD, k, LOW_READING, 1.0));
    assert MinerAt(NEW_WORLD.miners, k) == FRESH_MINER;
    var d := InterlockFor(SHORT_LIVED, w, k, LOW_READING, 20.0);
    StaleSnapshotAllows(SHORT_LIVED, w, k, 20.0);
    SecondLowTick(MinerAt(w.miners, k), d);
  }

  lemma {:induction false} SignalsNeedATick(cfg: Config, keys: set<Key>, start: World, actions: seq<Action>, n: nat)
    requires JustStarted(start) && n <= |actions|
    ensures var w := At(cfg, keys, start, actions, n); w.signals != map[] ==> w.signalsAt.Some?
  {
    if n > 0 {
      SignalsNeedATick(cfg, keys, start, actions, n - 1);
    }
  }

  // ---------- sustained evidence ----------

  /** The action, seen from miner k, contradicts a sustained LOW: the process restarts, or the tick does
      not find the miner confirmed LOW with an eligible signal. */
  ghost predicate Contradicts(cfg: Config, keys: set<Key>, w: World, a: Action, k: Key) {
    match a
    case FleetTick(now, readings, _, _) =>
      k !in keys || !Classify(cfg, readings(k)).Eligible? || !MinerAt(Step(cfg, keys, w, a).miners, k).health.Low?
    case ManualAction(_, _, _) => false
    case Restart(_) => true
  }

  /** The action begins a new sustained period for miner k: a manual or automatic reboot went through,
      the miner's uptime started over, or a firmware transition restarted the timer. */
  ghost predicate StartsOver(cfg: Config, keys: set<Key>, w: World, a: Action, k: Key) {
    match a
    case FleetTick(now, readings, _, _) =>
      var d := InterlockFor(cfg, w, k, readings(k), now);
      var decision := OutcomeFor(cfg, w, k, readings(k), now).decision;
      UptimeReset(MinerAt(w.miners, k), readings(k)) || decision.Rebooted? ||
      (decision.Interlocked? && TransitionResetsTimer(cfg, d))
    case ManualAction(key, _, _) => key == k && k in w.miners
    case Restart(_) => true
  }

  /** From tick s up to, but not including, action n there is unbroken evidence of LOW. */
  ghost predicate Sustained(cfg: Config, keys: set<Key>, start: World, actions: seq<Action>, s: nat, n: nat, k: Key)
    requires n <= |actions|
  {
    s < n && actions[s].FleetTick? &&
    (forall i :: s <= i < n ==> !Contradicts(cfg, keys, At(cfg, keys, start, actions, i), actions[i], k)) &&
    forall i :: s < i < n ==> !StartsOver(cfg, keys, At(cfg, keys, start, actions, i), actions[i], k)
  }

  lemma TimerAfterStep(cfg: Config, keys: set<Key>, w: World, a: Action, k: Key)
    requires Truthy(MinerAt(Step(cfg, keys, w, a).miners, k).lowSince) && k in keys
    ensures !Contradicts(cfg, keys, w, a, k)
    ensures
      var since := MinerAt(Step(cfg, keys, w, a).miners, k).lowSince;
      if a.FleetTick? && since == Some(a.now) then true
      else since == MinerAt(w.miners, k).lowSince && !StartsOver(cfg, keys, w, a, k)
  {
    if a.FleetTick? {
      hide TickMiner;
      var r := a.readings(k);
      TimerIsEvidence(cfg, w.processStart, MinerAt(w.miners, k), r, a.now, InterlockFor(cfg, w, k, r, a.now));
    }
  }

  /** Every running LOW timer shows the time of a tick from which the evidence has been unbroken. */
  lemma {:induction false} TimerHasEvidence(cfg: Config, keys: set<Key>, start: World, actions: seq<Action>, n: nat,
                                            k: Key)
    returns (s: nat)
    requires JustStarted(start) && n <= |actions|
    requires Truthy(MinerAt(At(cfg, keys, start, actions, n).miners, k).lowSince)
    ensures Sustained(cfg, keys, start, actions, s, n, k)
    ensures MinerAt(At(cfg, keys, start, actions, n).miners, k).lowSince == Some(actions[s].now)
  {
    hide Step, Contradicts, StartsOver;
    RunKeepsTimersInSnapshot(cfg, keys, start, actions, n);
    var w := At(cfg, keys, start, actions, n - 1);
    TimerAfterStep(cfg, keys, w, actions[n - 1], k);
    if actions[n - 1].FleetTick? &&
       MinerAt(At(cfg, keys, start, actions, n).miners, k).lowSince == Some(actions[n - 1].now) {
      s := n - 1;
    } else {
      s := TimerHasEvidence(cfg, keys, start, actions, n - 1, k);
    }
  }

  /** A command issued at t rests on unbroken evidence that began no later than t minus the sustained
      period. Nothing is assumed about the clock. */
  lemma IssuedMeansSustained(cfg: Config, keys: set<Key>, start: World, actions: seq<Action>, n: nat, k: Key)
    requires JustStarted(start) && n < |actions| && cfg.lowSustained > 0.0
    requires DecisionAt(cfg, keys, start, actions, n, k).Issued()
    ensures exists s: nat ::
      Sustained(cfg, keys, start, actions, s, n, k) && actions[s].now <= actions[n].now - cfg.lowSustained
    ensures !Contradicts(cfg, keys, At(cfg, keys, start, actions, n), actions[n], k)
    ensures !UptimeReset(MinerAt(At(cfg, keys, start, actions, n).miners, k), actions[n].readings(k))
  {
    var w, a := At(cfg, keys, start, actions, n), actions[n];
    hide At;
    IssuedFacts(cfg, keys, w, a, k);
    hide Sustained, Contradicts, OutcomeFor, UptimeReset;
    var s := TimerHasEvidence(cfg, keys, start, actions, n, k);
  }

  lemma IssuedFacts(cfg: Config, keys: set<Key>, w: World, a: Action, k: Key)
    requires a.FleetTick? && cfg.lowSustained > 0.0
    requires OutcomeFor(cfg, w, k, a.readings(k), a.now).decision.Issued()
    ensures Truthy(MinerAt(w.miners, k).lowSince)
    ensures MinerAt(w.miners, k).lowSince.value <= a.now - cfg.lowSustained
    ensures k in keys ==> !Contradicts(cfg, keys, w, a, k)
    ensures !UptimeReset(MinerAt(w.miners, k), a.readings(k))
  {
    var d := InterlockFor(cfg, w, k, a.readings(k), a.now);
    hide InterlockFor;
    IssuedOnOldTimer(cfg, w.processStart, MinerAt(w.miners, k), a.readings(k), a.now, d);
    hide TickMiner, Classify, UptimeReset;
  }

  // ---------- ticks that end early ----------

  ghost predicate TimersOnlyWhenLow(w: World) {
    forall k :: k in w.miners && w.miners[k].lowSince.Some? ==> w.miners[k].health.Low?
  }

  lemma TickTimesOnlyLow(cfg: Config, processStart: real, m: Miner, r: Reading, now: real, d: InterlockDecision)
    ensures
      var o := TickMiner(cfg, processStart, m, r, now, d);
      (o.miner.lowSince.Some? ==> o.miner.health.Low?) &&
      (o.decision.EndsTickEarly() && cfg.lowSustained > 0.0 ==>
         o.miner.health.Low? && m.lowSince.Some? && !UptimeReset(m, r))
  {
    hide Recent, InCooldown, LastAction;
  }

  lemma {:induction false} RunTimesOnlyLow(cfg: Config, keys: set<Key>, start: World, actions: seq<Action>, n: nat)
    requires JustStarted(start) && n <= |actions|
    ensures TimersOnlyWhenLow(At(cfg, keys, start, actions, n))
  {
    if n > 0 {
      RunTimesOnlyLow(cfg, keys, start, actions, n - 1);
      StepTimesOnlyLow(cfg, keys, At(cfg, keys, start, actions, n - 1), actions[n - 1]);
      hide TimersOnlyWhenLow, Step;
    }
  }

  lemma StepTimesOnlyLow(cfg: Config, keys: set<Key>, w: World, a: Action)
    requires TimersOnlyWhenLow(w)
    ensures TimersOnlyWhenLow(Step(cfg, keys, w, a))
  {
    hide TickMiner, InterlockFor;
    if a.FleetTick? {
      forall k | k in keys
        ensures var o := OutcomeFor(cfg, w, k, a.readings(k), a.now); o.miner.lowSince.Some? ==> o.miner.health.Low?
      {
        var r := a.readings(k);
        TickTimesOnlyLow(cfg, w.processStart, MinerAt(w.miners, k), r, a.now, InterlockFor(cfg, w, k, r, a.now));
      }
    }
  }

  /** The loop leaves a miner early, before the episode coordinator sees the tick, only while the miner was
      LOW before and stays LOW, and did not restart: no change of state and no detected restart is ever kept
      from the coordinator. */
  lemma EarlyExitHidesNoChange(cfg: Config, keys: set<Key>, start: World, actions: seq<Action>, n: nat, k: Key)
    requires JustStarted(start) && n < |actions| && cfg.lowSustained > 0.0
    requires DecisionAt(cfg, keys, start, actions, n, k).EndsTickEarly()
    ensures MinerAt(At(cfg, keys, start, actions, n).miners, k).health.Low?
    ensures MinerAt(At(cfg, keys, start, actions, n + 1).miners, k).health.Low?
    ensures !UptimeReset(MinerAt(At(cfg, keys, start, actions, n).miners, k), actions[n].readings(k))
  {
    RunTimesOnlyLow(cfg, keys, start, actions, n);
    var w, a := At(cfg, keys, start, actions, n), actions[n];
    assert At(cfg, keys, start, actions, n + 1) == Step(cfg, keys, w, a);
    hide TickMiner, InterlockFor, At;
    var r := a.readings(k);
    TickTimesOnlyLow(cfg, w.processStart, MinerAt(w.miners, k), r, a.now, InterlockFor(cfg, w, k, r, a.now));
  }
}
