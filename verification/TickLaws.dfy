/** What one tick makes of one miner, stated on the reading, the miner before it and the last snapshot, and
    what that means for whole runs. */
module TickLaws {
  import opened Common
  import opened RebootSafety
  import opened MinerTick
  import opened Fleet
  import opened RebootLaws

  // ---------- what a reading shows ----------

  predicate ReadsLow(cfg: Config, r: Reading) {
    r.responded && (r.rate.NegInf? || (r.rate.Finite? && r.rate.value < cfg.threshold))
  }

  predicate ReadsGood(cfg: Config, r: Reading) {
    r.responded && (r.rate.PosInf? || (r.rate.Finite? && r.rate.value >= cfg.threshold))
  }

  predicate MissesBoard(cfg: Config, r: Reading) {
    r.responded && r.activeBoards.Some? && r.activeBoards.value < cfg.expectedBoards
  }

  /** The miner's uptime fell by more than ten minutes. */
  predicate UptimeFell(m: Miner, r: Reading) {
    r.responded && r.elapsed.Some? && m.lastElapsed.Some? && m.lastElapsed.value - r.elapsed.value > 600
  }

  /** A restart is detected exactly when the uptime fell so far: the second rule of the program, from over an
      hour to under five minutes, finds nothing that the first one misses. */
  lemma ResetExactly(m: Miner, r: Reading)
    ensures UptimeReset(m, r) <==> UptimeFell(m, r)
  {
  }

  predicate Overheated(cfg: Config, r: Reading) {
    cfg.guards.thermalGuard && r.maxTemp.Finite? &&
    r.maxTemp.value >= if cfg.guards.thermalLimit.Finite? then cfg.guards.thermalLimit.value else 85.0
  }

  predicate InTransition(cfg: Config, r: Reading) {
    cfg.guards.firmwareGuard && r.transitioning.Finite? && r.transitioning.value >= 1.0 &&
    r.transitioning.value == r.transitioning.value.Floor as real
  }

  /** A reading that gives a finite rate at or above the threshold clears its miner of suspicion. */
  predicate Clears(cfg: Config, r: Reading) {
    r.responded && r.rate.Finite? && r.rate.value >= cfg.threshold
  }

  // ---------- the confirmed state ----------

  lemma GuardsKeepStreaks(cfg: Config, processStart: real, m: Miner, r: Reading, now: real, d: InterlockDecision)
    ensures
      var after, seen := TickMiner(cfg, processStart, m, r, now, d).miner, Observe(cfg, m, r, now);
      after.health == seen.health && after.okStreak == seen.okStreak && after.offlineStreak == seen.offlineStreak &&
      after.lowStreak == seen.lowStreak && after.lastElapsed == seen.lastElapsed
  {
    hide Observe, Recent, InCooldown, Classify;
  }

  /** The state after a tick, state by state. The miner is OFFLINE after enough silent ticks, HASHBOARD when it
      answers with a board missing, and otherwise LOW or OK after enough such readings; when none of these
      rules applies, the state stays what it was. */
  lemma HealthExactly(cfg: Config, processStart: real, m: Miner, r: Reading, now: real, d: InterlockDecision)
    ensures
      var health := TickMiner(cfg, processStart, m, r, now, d).miner.health;
      var silent := !r.responded && m.offlineStreak + 1 >= cfg.failsBeforeAlert;
      var short := MissesBoard(cfg, r);
      var low := !short && ReadsLow(cfg, r) && m.lowStreak + 1 >= cfg.failsBeforeAlert;
      var good := !short && ReadsGood(cfg, r) && m.okStreak + 1 >= cfg.recoverySuccesses;
      var unruled := !silent && !short && !low && !good;
      (health.Offline? <==> silent || (unruled && m.health.Offline?)) &&
      (health.Hashboard? <==> short || (unruled && m.health.Hashboard?)) &&
      (health.Low? <==> low || (unruled && m.health.Low?)) &&
      (health.Ok? <==> good || (unruled && m.health.Ok?))
  {
    hide TickMiner;
    GuardsKeepStreaks(cfg, processStart, m, r, now, d);
  }

  /** The streaks after a tick. The OK streak counts every rate that is not below the threshold; the one
      towards LOW survives only in a LOW miner, and the one towards OFFLINE only in one that is not OK. */
  lemma StreaksExactly(cfg: Config, processStart: real, m: Miner, r: Reading, now: real, d: InterlockDecision)
    ensures
      var after := TickMiner(cfg, processStart, m, r, now, d).miner;
      after.okStreak == (if r.responded && !r.rate.Missing? && !ReadsLow(cfg, r) then m.okStreak + 1 else 0) &&
      after.offlineStreak == (if !r.responded && !after.health.Ok? then m.offlineStreak + 1 else 0) &&
      after.lowStreak == (if ReadsLow(cfg, r) && after.health.Low? then m.lowStreak + 1 else 0) &&
      after.lastElapsed == if r.responded && r.elapsed.Some? then r.elapsed else m.lastElapsed
  {
    hide TickMiner, Confirm;
    GuardsKeepStreaks(cfg, processStart, m, r, now, d);
  }

  /** Action n gives miner k another state. */
  ghost predicate Becomes(cfg: Config, keys: set<Key>, start: World, actions: seq<Action>, n: nat, k: Key, to: Health)
    requires n < |actions|
  {
    !actions[n].Restart? && MinerAt(At(cfg, keys, start, actions, n).miners, k).health != to &&
    MinerAt(At(cfg, keys, start, actions, n + 1).miners, k).health == to
  }

  lemma TickedHealth(cfg: Config, keys: set<Key>, w: World, a: Action, k: Key)
    requires !a.Restart? && MinerAt(Step(cfg, keys, w, a).miners, k).health != MinerAt(w.miners, k).health
    ensures a.FleetTick? && k in keys
    ensures MinerAt(Step(cfg, keys, w, a).miners, k) == OutcomeFor(cfg, w, k, a.readings(k), a.now).miner
  {
    hide OutcomeFor;
  }

  /** In every run a miner changes its state in a tick only on a reading that says so: HASHBOARD on one with
      fewer boards than expected, OFFLINE on silence, LOW on a rate below the threshold with all boards there,
      OK on one at or above it. */
  lemma {:induction false} StateFollowsReading(cfg: Config, keys: set<Key>, start: World, actions: seq<Action>, n: nat,
                                               k: Key, to: Health)
    requires n < |actions| && Becomes(cfg, keys, start, actions, n, k, to)
    ensures actions[n].FleetTick? && k in keys
    ensures
      var r := actions[n].readings(k);
      match to
      case Hashboard => r.responded && r.activeBoards.Some? && r.activeBoards.value < cfg.expectedBoards
      case Offline => !r.responded
      case Low => ReadsLow(cfg, r) && !MissesBoard(cfg, r)
      case Ok => ReadsGood(cfg, r) && !MissesBoard(cfg, r)
  {
    var w, a := At(cfg, keys, start, actions, n), actions[n];
    assert At(cfg, keys, start, actions, n + 1) == Step(cfg, keys, w, a);
    TickedHealth(cfg, keys, w, a, k);
    hide Step, At, TickMiner, InterlockFor, MinerAt;
    var r := a.readings(k);
    HealthExactly(cfg, w.processStart, MinerAt(w.miners, k), r, a.now, InterlockFor(cfg, w, k, r, a.now));
  }

  // ---------- the decision ----------

  /** Miner j speaks against a reboot of miner k: it is k itself, or the fresh snapshot of the last tick shows
      it as anything but not low. */
  predicate SpeaksAgainst(cfg: Config, w: World, k: Key, r: Reading, now: real, j: Key) {
    if j == k then !Clears(cfg, r)
    else
      w.signalsAt.Some? && cfg.guards.snapshotMaxAge.Finite? && cfg.guards.snapshotMaxAge.value > 0.0 &&
      now - w.signalsAt.value <= cfg.guards.snapshotMaxAge.value && j in w.signals && !w.signals[j].NotLow?
  }

  /** At least as many miners as configured, and never fewer than two, speak against the reboot. */
  ghost predicate FleetIsTroubled(cfg: Config, w: World, k: Key, r: Reading, now: real) {
    cfg.guards.fleetGuard &&
    exists group: set<Key> ::
      |group| >= 2 && |group| >= cfg.guards.fleetMinAffected &&
      forall j :: j in group ==> SpeaksAgainst(cfg, w, k, r, now, j)
  }

  lemma FleetGuardObjects(cfg: Config, w: World, k: Key, r: Reading, now: real)
    ensures
      var d := InterlockFor(cfg, w, k, r, now);
      (|d.affected| >= FleetThreshold(cfg.guards) && cfg.guards.fleetGuard) <==> FleetIsTroubled(cfg, w, k, r, now)
  {
    var d := InterlockFor(cfg, w, k, r, now);
    forall j ensures j in d.affected <==> SpeaksAgainst(cfg, w, k, r, now, j) {
    }
    forall group: set<Key> | forall j :: j in group ==> SpeaksAgainst(cfg, w, k, r, now, j)
      ensures |group| <= |d.affected|
    {
      assert group <= d.affected;
      SubsetSize(group, d.affected);
    }
  }

  lemma InterlockExactly(cfg: Config, w: World, k: Key, r: Reading, now: real)
    ensures
      InterlockFor(cfg, w, k, r, now).reason ==
        if Overheated(cfg, r) then Some(HighTemperature)
        else if InTransition(cfg, r) then Some(FirmwareTransition)
        else if FleetIsTroubled(cfg, w, k, r, now) then Some(FleetIncident)
        else None
    ensures TransitionResetsTimer(cfg, InterlockFor(cfg, w, k, r, now)) <==> InTransition(cfg, r)
  {
    FleetGuardObjects(cfg, w, k, r, now);
    hide FleetIsTroubled, AffectedKeys, FleetThreshold;
  }

  /** How many of the times lie no further back than `since`. */
  function CountSince(ts: seq<real>, since: real): nat {
    if ts == [] then 0 else CountSince(ts[..|ts| - 1], since) + if ts[|ts| - 1] >= since then 1 else 0
  }

  lemma CountSinceFirst(t: real, rest: seq<real>, since: real)
    ensures CountSince([t] + rest, since) == (if t >= since then 1 else 0) + CountSince(rest, since)
  {
    var all := [t] + rest;
    if rest == [] {
      assert all == [t];
    } else {
      CountSinceFirst(t, rest[..|rest| - 1], since);
      assert all[..|all| - 1] == [t] + rest[..|rest| - 1];
    }
  }

  /** Pruning keeps exactly the times of the window that ends now, each as often as it was there. */
  lemma {:induction false} RecentExactly(ts: seq<real>, now: real, window: real)
    ensures |Recent(ts, now, window)| == CountSince(ts, now - window)
    ensures forall t :: multiset(Recent(ts, now, window))[t] == if t >= now - window then multiset(ts)[t] else 0
  {
    if ts != [] {
      RecentExactly(ts[1..], now, window);
      CountSinceFirst(ts[0], ts[1..], now - window);
      assert ts == [ts[0]] + ts[1..];
    }
  }

  /** The time from which the miner counts as LOW, if it is LOW at all after this reading. */
  function Since(m: Miner, r: Reading, now: real): real {
    if m.lowSince.Some? && !UptimeFell(m, r) then m.lowSince.value else now
  }

  /** Every recorded action of the miner lies a cooldown back. */
  predicate HasCooled(cfg: Config, m: Miner, now: real) {
    cfg.cooldown > 0.0 ==>
      (m.lastManual.Some? ==> m.lastManual.value + cfg.cooldown <= now) &&
      (m.lastAuto.Some? ==> m.lastAuto.value + cfg.cooldown <= now)
  }

  /** What a tick decides about a miner that is LOW after the reading. */
  function Verdict(cfg: Config, processStart: real, m: Miner, r: Reading, now: real, objection: Option<Reason>)
    : Decision
  {
    if !r.responded || !r.rate.Finite? || r.rate.value >= cfg.threshold then TimerReset
    else if now < processStart + cfg.startupGuard then InStartupGuard
    else if now < Since(m, r, now) + cfg.lowSustained then NotSustained
    else if objection.Some? then Interlocked(objection.value)
    else if !HasCooled(cfg, m, now) then CoolingDown
    else if CountSince(m.autoReboots, now - cfg.window) >= cfg.maxPerWindow then WindowFull
    else if cfg.actionsBlocked then ActionsBlocked
    else if r.cliOk then Rebooted
    else CommandFailed
  }

  lemma ObservedTimer(cfg: Config, m: Miner, r: Reading, now: real)
    ensures
      var seen := Observe(cfg, m, r, now);
      seen.lowSince == (if seen.health.Low? then Some(Since(m, r, now)) else None) &&
      seen.lastManual == m.lastManual && seen.lastAuto == m.lastAuto && seen.autoReboots == m.autoReboots &&
      seen.degraded == m.degraded
  {
    hide Confirm, CountStreaks;
    CountingKeeps(cfg, AbsorbUptime(m, r), r);
  }

  lemma CountingKeeps(cfg: Config, m: Miner, r: Reading)
    ensures
      var counted := CountStreaks(cfg, m, r);
      counted.lowSince == m.lowSince && counted.lastManual == m.lastManual && counted.lastAuto == m.lastAuto &&
      counted.autoReboots == m.autoReboots && counted.degraded == m.degraded
  {
  }

  lemma GuardsDecide(cfg: Config, processStart: real, m: Miner, seen: Miner, r: Reading, now: real,
                     d: InterlockDecision)
    requires seen.health.Low? ==> seen.lowSince == Some(Since(m, r, now))
    requires seen.lastManual == m.lastManual && seen.lastAuto == m.lastAuto
    requires |seen.autoReboots| == CountSince(m.autoReboots, now - cfg.window)
    ensures
      var (after, decision) := RunGuards(cfg, processStart, seen, r, now, d);
      decision == (if !seen.health.Low? || Since(m, r, now) == 0.0 then NotEvaluated
                   else Verdict(cfg, processStart, m, r, now, d.reason)) &&
      after ==
        if decision.Rebooted? then
          seen.(lowSince := None, lastAuto := Some(now), autoReboots := seen.autoReboots + [now])
        else
          seen.(degraded := seen.degraded || decision.WindowFull?,
                lowSince := if decision.TimerReset? then None
                            else if decision.Interlocked? && TransitionResetsTimer(cfg, d) then Some(now)
                            else seen.lowSince)
  {
    CooldownExactly(cfg, seen, now);
    hide InCooldown, CountSince, UptimeFell;
  }

  /** What the interlocks object to a reboot of miner k, the first objection in order. */
  ghost function Objection(cfg: Config, w: World, k: Key, r: Reading, now: real): Option<Reason> {
    if Overheated(cfg, r) then Some(HighTemperature)
    else if InTransition(cfg, r) then Some(FirmwareTransition)
    else if FleetIsTroubled(cfg, w, k, r, now) then Some(FleetIncident)
    else None
  }

  /** A whole tick of one miner: its decision, and everything the tick leaves of the miner besides streaks. */
  lemma TickExactly(cfg: Config, w: World, k: Key, r: Reading, now: real)
    ensures
      var m, o := MinerAt(w.miners, k), OutcomeFor(cfg, w, k, r, now);
      var since, decision, after := Since(m, r, now), o.decision, o.miner;
      decision == (if !after.health.Low? || since == 0.0 then NotEvaluated
                   else Verdict(cfg, w.processStart, m, r, now, Objection(cfg, w, k, r, now))) &&
      after.lowSince == (if !after.health.Low? || decision.TimerReset? || decision.Rebooted? then None
                         else if decision.Interlocked? && InTransition(cfg, r) then Some(now)
                         else Some(since)) &&
      after.lastManual == m.lastManual && after.lastAuto == (if decision.Rebooted? then Some(now) else m.lastAuto) &&
      after.degraded == (m.degraded || decision.WindowFull?) &&
      (forall t :: multiset(after.autoReboots)[t] ==
         (if t >= now - cfg.window then multiset(m.autoReboots)[t] else 0) +
         if decision.Rebooted? && t == now then 1 else 0) &&
      o.signal == if !r.responded || !r.rate.Finite? then InvalidSignal
                  else if r.rate.value < cfg.threshold then Eligible
                  else NotLow
  {
    var m, d := MinerAt(w.miners, k), InterlockFor(cfg, w, k, r, now);
    hide InterlockFor, Observe, Recent, RunGuards, FleetIsTroubled, Verdict, CountSince;
    InterlockExactly(cfg, w, k, r, now);
    ObservedTimer(cfg, m, r, now);
    var seen := Observe(cfg, m, r, now);
    RecentExactly(m.autoReboots, now, cfg.window);
    var pruned := seen.(autoReboots := Recent(m.autoReboots, now, cfg.window));
    GuardsDecide(cfg, w.processStart, m, pruned, r, now, d);
  }

  /** So a tick hands a reboot command to the CLI if and only if the miner is LOW on a finite rate below the
      threshold and has been for long enough, the process is past its start-up guard, the miner is neither too
      hot nor in transition nor part of a fleet incident, every recorded action is a cooldown old, the window
      has room, and actions are not blocked. */
  lemma IssuedIff(cfg: Config, w: World, k: Key, r: Reading, now: real)
    ensures
      var m, o := MinerAt(w.miners, k), OutcomeFor(cfg, w, k, r, now);
      (o.decision.Issued() <==>
         o.miner.health.Low? && Since(m, r, now) != 0.0 && now - Since(m, r, now) >= cfg.lowSustained &&
         r.responded && r.rate.Finite? && r.rate.value < cfg.threshold && now - w.processStart >= cfg.startupGuard &&
         !Overheated(cfg, r) && !InTransition(cfg, r) && !FleetIsTroubled(cfg, w, k, r, now) &&
         HasCooled(cfg, m, now) && CountSince(m.autoReboots, now - cfg.window) < cfg.maxPerWindow &&
         !cfg.actionsBlocked) &&
      (o.decision.Rebooted? <==> o.decision.Issued() && r.cliOk)
  {
    hide OutcomeFor, FleetIsTroubled, CountSince, HasCooled, UptimeFell;
    TickExactly(cfg, w, k, r, now);
  }

  /** In no run is a reboot command issued for a miner whose reading shows it too hot or in transition, or that
      did not answer with a rate below the threshold. */
  lemma {:induction false} IssuedOnlyWhenSafe(cfg: Config, keys: set<Key>, start: World, actions: seq<Action>, n: nat,
                                              k: Key)
    requires n < |actions| && DecisionAt(cfg, keys, start, actions, n, k).Issued()
    ensures
      var r, g := actions[n].readings(k), cfg.guards;
      !(g.thermalGuard && r.maxTemp.Finite? &&
        r.maxTemp.value >= if g.thermalLimit.Finite? then g.thermalLimit.value else 85.0) &&
      !(g.firmwareGuard && r.transitioning.Finite? && r.transitioning.value >= 1.0 &&
        r.transitioning.value == r.transitioning.value.Floor as real) &&
      r.responded && r.rate.Finite? && r.rate.value < cfg.threshold
    ensures !FleetIsTroubled(cfg, At(cfg, keys, start, actions, n), k, actions[n].readings(k), actions[n].now)
  {
    hide At, OutcomeFor, FleetIsTroubled;
    TickExactly(cfg, At(cfg, keys, start, actions, n), k, actions[n].readings(k), actions[n].now);
  }

  // ---------- the last tick's snapshot ----------

  /** Tick t is the last one before action n, and the process has not restarted since. */
  ghost predicate IsLastTick(actions: seq<Action>, t: nat, n: nat) {
    t < n <= |actions| && actions[t].FleetTick? && forall i :: t < i < n ==> actions[i].ManualAction?
  }

  /** The snapshot always shows what the readings of the last tick were. */
  lemma {:induction false} SnapshotIsLastTick(cfg: Config, keys: set<Key>, start: World, actions: seq<Action>, t: nat,
                                              n: nat)
    requires IsLastTick(actions, t, n)
    ensures
      var w := At(cfg, keys, start, actions, n);
      w.signals.Keys == keys && w.signalsAt == Some(actions[t].endedAt) &&
      forall k :: k in keys ==> (w.signals[k].NotLow? <==> Clears(cfg, actions[t].readings(k)))
  {
    if n == t + 1 {
      SnapshotOfTick(cfg, keys, At(cfg, keys, start, actions, t), actions[t]);
      hide Step;
    } else {
      SnapshotIsLastTick(cfg, keys, start, actions, t, n - 1);
    }
  }

  lemma SnapshotOfTick(cfg: Config, keys: set<Key>, w: World, a: Action)
    requires a.FleetTick?
    ensures
      var w' := Step(cfg, keys, w, a);
      w'.signals.Keys == keys && w'.signalsAt == Some(a.endedAt) &&
      forall k :: k in keys ==> (w'.signals[k].NotLow? <==> Clears(cfg, a.readings(k)))
  {
    hide RunGuards, Observe;
  }

  /** The snapshot shows these readings, taken together by that time. */
  ghost predicate Shows(cfg: Config, keys: set<Key>, w: World, readings: Key -> Reading, endedAt: real) {
    w.signals.Keys == keys && w.signalsAt == Some(endedAt) &&
    forall k :: k in keys ==> (w.signals[k].NotLow? <==> Clears(cfg, readings(k)))
  }

  function Suspects(cfg: Config, keys: set<Key>, readings: Key -> Reading): set<Key> {
    set j | j in keys && !Clears(cfg, readings(j))
  }

  lemma SuspectsAreFew(cfg: Config, keys: set<Key>, w: World, readings: Key -> Reading, endedAt: real, k: Key,
                       r: Reading, now: real)
    requires Shows(cfg, keys, w, readings, endedAt) && !FleetIsTroubled(cfg, w, k, r, now) && !Clears(cfg, r)
    requires cfg.guards.fleetGuard && cfg.guards.snapshotMaxAge.Finite? && cfg.guards.snapshotMaxAge.value > 0.0
    requires now - endedAt <= cfg.guards.snapshotMaxAge.value
    ensures |{k} + Suspects(cfg, keys, readings)| < MaxInt(2, cfg.guards.fleetMinAffected)
  {
    var group := {k} + Suspects(cfg, keys, readings);
    forall j | j in group ensures SpeaksAgainst(cfg, w, k, r, now, j) {
    }
  }

  /** A reboot command is part of no fleet incident: while the last tick's snapshot is fresh, fewer miners than
      configured, or only this one, failed to show a good rate then. */
  lemma {:induction false} IssuedIsNoIncident(cfg: Config, keys: set<Key>, start: World, actions: seq<Action>, t: nat,
                                              n: nat, k: Key)
    requires n < |actions| && DecisionAt(cfg, keys, start, actions, n, k).Issued() && IsLastTick(actions, t, n)
    requires cfg.guards.fleetGuard && cfg.guards.snapshotMaxAge.Finite? && cfg.guards.snapshotMaxAge.value > 0.0
    requires actions[n].now - actions[t].endedAt <= cfg.guards.snapshotMaxAge.value
    ensures |{k} + Suspects(cfg, keys, actions[t].readings)| < MaxInt(2, cfg.guards.fleetMinAffected)
  {
    var w := At(cfg, keys, start, actions, n);
    IssuedOnlyWhenSafe(cfg, keys, start, actions, n, k);
    SnapshotIsLastTick(cfg, keys, start, actions, t, n);
    SuspectsAreFew(cfg, keys, w, actions[t].readings, actions[t].endedAt, k, actions[n].readings(k), actions[n].now);
    hide *;
  }

  // ---------- restarts and manual actions ----------

  predicate Writes(a: Action) {
    !a.Restart? && a.savedAt.Some?
  }

  lemma {:induction false} FileStays(cfg: Config, keys: set<Key>, start: World, actions: seq<Action>, s: nat, n: nat)
    requires s < n <= |actions| && Writes(actions[s]) && forall i :: s < i < n ==> !Writes(actions[i])
    ensures At(cfg, keys, start, actions, n).disk ==
            Some(Saved(actions[s].savedAt.value.Floor, At(cfg, keys, start, actions, s + 1).miners))
  {
    hide Outcomes, TickedMiners, TickedSignals, Load;
    if n > s + 1 {
      FileStays(cfg, keys, start, actions, s, n - 1);
    }
  }

  /** A restarted process knows every miner as it was right after the last successful write, but for the streak
      and the timer of a LOW; it knows none when that write lies more than 48 hours back. */
  lemma {:induction false} RestartRestoresLastWrite(cfg: Config, keys: set<Key>, start: World, actions: seq<Action>,
                                                    s: nat, n: nat)
    requires s < n < |actions| && Writes(actions[s]) && forall i :: s < i < n ==> !Writes(actions[i])
    requires actions[n].Restart?
    ensures
      var saved, w := At(cfg, keys, start, actions, s + 1).miners, At(cfg, keys, start, actions, n + 1);
      w.signals == map[] && w.signalsAt.None? && w.processStart == actions[n].now &&
      if actions[n].now - actions[s].savedAt.value.Floor as real > 172800.0 then w.miners == map[]
      else w.miners.Keys == saved.Keys &&
           forall k :: k in saved ==> w.miners[k] == saved[k].(lowStreak := 0, lowSince := None)
  {
    FileStays(cfg, keys, start, actions, s, n);
    assert At(cfg, keys, start, actions, n + 1) == Step(cfg, keys, At(cfg, keys, start, actions, n), actions[n]);
    hide At, Outcomes;
  }

  /** Action i is the last manual action on miner k before action n, and the process has not restarted since. */
  ghost predicate IsLastManual(actions: seq<Action>, i: nat, n: nat, k: Key) {
    i < n <= |actions| && actions[i].ManualAction? && actions[i].key == k &&
    forall j :: i < j < n ==> !actions[j].Restart? && !(actions[j].ManualAction? && actions[j].key == k)
  }

  lemma ManualStep(cfg: Config, keys: set<Key>, w: World, a: Action, k: Key)
    requires !a.Restart? && k in w.miners
    ensures k in Step(cfg, keys, w, a).miners
    ensures Step(cfg, keys, w, a).miners[k].lastManual ==
            if a.ManualAction? && a.key == k then Some(a.now) else w.miners[k].lastManual
  {
    hide OutcomeFor;
    if a.FleetTick? && k in keys {
      TickExactly(cfg, w, k, a.readings(k), a.now);
    }
  }

  lemma {:induction false} ManualIsRemembered(cfg: Config, keys: set<Key>, start: World, actions: seq<Action>, i: nat,
                                              n: nat, k: Key)
    requires IsLastManual(actions, i, n, k) && k in At(cfg, keys, start, actions, i).miners
    ensures k in At(cfg, keys, start, actions, n).miners
    ensures At(cfg, keys, start, actions, n).miners[k].lastManual == Some(actions[i].now)
  {
    hide Step;
    if n > i + 1 {
      ManualIsRemembered(cfg, keys, start, actions, i, n - 1, k);
    }
    ManualStep(cfg, keys, At(cfg, keys, start, actions, n - 1), actions[n - 1], k);
  }

  /** A manual action holds automatic reboots off for one cooldown, whatever the clock does. */
  lemma {:induction false} ManualHoldsOff(cfg: Config, keys: set<Key>, start: World, actions: seq<Action>, i: nat,
                                          n: nat, k: Key)
    requires n < |actions| && cfg.cooldown > 0.0
    requires IsLastManual(actions, i, n, k) && k in At(cfg, keys, start, actions, i).miners
    requires DecisionAt(cfg, keys, start, actions, n, k).Issued()
    ensures actions[n].now >= actions[i].now + cfg.cooldown
  {
    ManualIsRemembered(cfg, keys, start, actions, i, n, k);
    hide At, OutcomeFor, FleetIsTroubled;
    TickExactly(cfg, At(cfg, keys, start, actions, n), k, actions[n].readings(k), actions[n].now);
  }
}
