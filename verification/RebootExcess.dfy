/** Runs that lose reboots at a restart, and so the exact conditions for the reboot limits. */
module RebootExcess {
  import opened Common
  import opened RebootSafety
  import opened MinerTick
  import opened Fleet
  import opened RebootLaws
  import opened RebootRate
  import opened RebootLimits

  // ---------- runs put together ----------

  lemma {:induction false} AtAppended(cfg: Config, keys: set<Key>, start: World, first: seq<Action>, more: seq<Action>,
                                      n: nat)
    requires n <= |more|
    ensures At(cfg, keys, start, first + more, |first| + n) ==
            At(cfg, keys, At(cfg, keys, start, first, |first|), more, n)
  {
    hide Step;
    if n > 0 {
      AtAppended(cfg, keys, start, first, more, n - 1);
    } else {
      AtPrefix(cfg, keys, start, first, more, |first|);
    }
  }

  lemma {:induction false} AtPrefix(cfg: Config, keys: set<Key>, start: World, first: seq<Action>, more: seq<Action>,
                                    n: nat)
    requires n <= |first|
    ensures At(cfg, keys, start, first + more, n) == At(cfg, keys, start, first, n)
  {
    hide Step;
    if n > 0 {
      AtPrefix(cfg, keys, start, first, more, n - 1);
    }
  }

  lemma {:induction false} RebootsPrefix(cfg: Config, keys: set<Key>, start: World, first: seq<Action>,
                                         more: seq<Action>, n: nat, k: Key)
    requires n <= |first|
    ensures Reboots(cfg, keys, start, first + more, n, k) == Reboots(cfg, keys, start, first, n, k)
  {
    hide At, OutcomeFor;
    if n > 0 {
      RebootsPrefix(cfg, keys, start, first, more, n - 1, k);
      AtPrefix(cfg, keys, start, first, more, n - 1);
    }
  }

  lemma {:induction false} RebootsAppended(cfg: Config, keys: set<Key>, start: World, first: seq<Action>,
                                           more: seq<Action>, n: nat, k: Key)
    requires n <= |more|
    ensures Reboots(cfg, keys, start, first + more, |first| + n, k) ==
            Reboots(cfg, keys, start, first, |first|, k) +
            Reboots(cfg, keys, At(cfg, keys, start, first, |first|), more, n, k)
  {
    hide At, OutcomeFor;
    if n > 0 {
      RebootsAppended(cfg, keys, start, first, more, n - 1, k);
      AtAppended(cfg, keys, start, first, more, n - 1);
    } else {
      RebootsPrefix(cfg, keys, start, first, more, |first|, k);
    }
  }

  /** The clock of these actions never steps back and ends by time t. */
  ghost predicate EndsBy(actions: seq<Action>, t: real) {
    Monotone(actions) && forall i :: 0 <= i < |actions| ==> LastClock(actions[i]) <= t
  }

  lemma EndsByAppended(first: seq<Action>, more: seq<Action>, t: real, later: real)
    requires EndsBy(first, t) && EndsBy(more, later) && t <= later
    requires forall i :: 0 <= i < |more| ==> t <= more[i].now
    ensures EndsBy(first + more, later)
  {
    var all := first + more;
    forall i, j | 0 <= i < j < |all| ensures LastClock(all[i]) <= all[j].now {
      if j >= |first| && i < |first| {
        assert LastClock(first[i]) <= t;
      }
    }
  }

  // ---------- one low reading of the only miner ----------

  function LowRead(cfg: Config, cliOk: bool): Reading {
    LowReading(cfg).(cliOk := cliOk)
  }

  function LowTick(cfg: Config, t: real, cliOk: bool, savedAt: Option<real>): Action {
    FleetTick(t, _ => LowRead(cfg, cliOk), t, savedAt)
  }

  lemma SoleMinerIsAllowed(cfg: Config, w: World, k: Key, t: real, cliOk: bool)
    requires w.signals.Keys <= {k}
    ensures InterlockFor(cfg, w, k, LowRead(cfg, cliOk), t).Allowed()
  {
    var r := LowRead(cfg, cliOk);
    var d := InterlockFor(cfg, w, k, r, t);
    assert d.affected <= {k};
    SubsetSize(d.affected, {k});
  }

  /** A failing attempt, or none at all, only starts the timer. */
  lemma LowTickKeeps(cfg: Config, processStart: real, m: Miner, t: real, d: InterlockDecision)
    requires m.health.Low? && d.Allowed() && d.transitioning.None?
    ensures
      var o := TickMiner(cfg, processStart, m, LowRead(cfg, false), t, d);
      !o.decision.Rebooted? && o.miner.health.Low? && o.miner.lastAuto == m.lastAuto &&
      o.miner.lastManual == m.lastManual && |o.miner.autoReboots| <= |m.autoReboots| &&
      o.miner.lowSince == if m.lowSince.Some? then m.lowSince else Some(t)
  {
    hide InCooldown;
  }

  /** The miner is ready for a reboot at time t, whatever its process has done before. */
  ghost predicate IsDue(cfg: Config, w: World, k: Key, t: real) {
    var m := MinerAt(w.miners, k);
    m.health.Low? && Truthy(m.lowSince) && m.lowSince.value <= t - cfg.lowSustained &&
    w.processStart <= t - cfg.startupGuard && |m.autoReboots| < cfg.maxPerWindow && m.lastManual.None? &&
    (cfg.cooldown > 0.0 && m.lastAuto.Some? ==> m.lastAuto.value + cfg.cooldown <= t)
  }

  lemma DueIsRebooted(cfg: Config, w: World, k: Key, t: real)
    requires IsDue(cfg, w, k, t) && CanReboot(cfg) && w.signals.Keys <= {k}
    ensures
      var m, o := MinerAt(w.miners, k), OutcomeFor(cfg, w, k, LowRead(cfg, true), t);
      o.decision.Rebooted? && o.miner.health.Low? && o.miner.lastManual.None? && o.miner.lastAuto == Some(t) &&
      o.miner.lowSince.None? && |o.miner.autoReboots| <= |m.autoReboots| + 1
  {
    var m, d := MinerAt(w.miners, k), InterlockFor(cfg, w, k, LowRead(cfg, true), t);
    SoleMinerIsAllowed(cfg, w, k, t, true);
    LowReadingStaysLow(cfg, m, t);
    DueTick(cfg, w.processStart, m, t, d);
    hide TickMiner, InterlockFor, Recent;
  }

  lemma DueTick(cfg: Config, processStart: real, m: Miner, t: real, d: InterlockDecision)
    requires m.health.Low? && Truthy(m.lowSince) && m.lowSince.value <= t - cfg.lowSustained
    requires processStart <= t - cfg.startupGuard && |m.autoReboots| < cfg.maxPerWindow && m.lastManual.None?
    requires cfg.cooldown > 0.0 && m.lastAuto.Some? ==> m.lastAuto.value + cfg.cooldown <= t
    requires CanReboot(cfg) && d.Allowed()
    ensures
      var o := TickMiner(cfg, processStart, m, LowRead(cfg, true), t, d);
      o.decision.Rebooted? && o.miner.health.Low? && o.miner.lastManual.None? && o.miner.lastAuto == Some(t) &&
      o.miner.lowSince.None? && |o.miner.autoReboots| <= |m.autoReboots| + 1
  {
    var r := LowRead(cfg, true);
    LowReadingStaysLow(cfg, m, t);
    assert r == LowReading(cfg);
    assert |Recent(m.autoReboots, t, cfg.window)| <= |m.autoReboots|;
    IssuedExactly(cfg, processStart, m, r, t, d);
    TickRecordsReboots(cfg, processStart, m, r, t, d);
    TimerSources(cfg, processStart, m, r, t, d);
    RebootedIsLow(cfg, processStart, m, r, t, d);
    hide TickMiner, Recent, Observe, UptimeReset;
  }

  lemma RebootedIsLow(cfg: Config, processStart: real, m: Miner, r: Reading, t: real, d: InterlockDecision)
    requires TickMiner(cfg, processStart, m, r, t, d).decision.Rebooted?
    ensures TickMiner(cfg, processStart, m, r, t, d).miner.health.Low?
  {
  }

  /** What a tick with the one miner leaves of the world. */
  lemma SoleTick(cfg: Config, k: Key, w: World, t: real, cliOk: bool, savedAt: Option<real>)
    ensures
      var o := OutcomeFor(cfg, w, k, LowRead(cfg, cliOk), t);
      var w' := Step(cfg, {k}, w, LowTick(cfg, t, cliOk, savedAt));
      k in w'.miners && w'.miners[k] == o.miner && w'.signals.Keys <= {k} && w'.processStart == w.processStart &&
      w'.disk == (if savedAt.Some? then Some(Saved(savedAt.value.Floor, w'.miners)) else w.disk)
  {
    hide OutcomeFor;
  }

  // ---------- one more reboot ----------

  /** A restart at time t finds the miner LOW and knows of no action. */
  ghost predicate FileIsBlank(w: World, k: Key, t: real) {
    w.disk.Some? && w.disk.value.savedAt == t.Floor && k in w.disk.value.miners &&
    var m := w.disk.value.miners[k];
    m.health.Low? && m.autoReboots == [] && m.lastAuto.None? && m.lastManual.None?
  }

  /** The process has just rebooted the miner, which makes `count` reboots or less that it knows of. */
  ghost predicate JustRebooted(cfg: Config, w: World, k: Key, t: real, count: nat) {
    var m := MinerAt(w.miners, k);
    m.health.Low? && m.lowSince.None? && m.lastAuto == Some(t) && m.lastManual.None? && |m.autoReboots| <= count &&
    w.processStart <= t - cfg.startupGuard && w.signals.Keys <= {k}
  }

  /** A restart, and a reboot as soon as possible; the state file is written just before, not after. */
  function AfterRestart(cfg: Config, t: real): seq<Action> {
    var due := t + RestartDelay(cfg);
    [Restart(t), LowTick(cfg, t, false, None), LowTick(cfg, due, false, Some(due)), LowTick(cfg, due, true, None)]
  }

  /** The next reboot of the same process as soon as possible. */
  function SameProcess(cfg: Config, t: real): seq<Action> {
    [LowTick(cfg, t, false, None), LowTick(cfg, t + RepeatDelay(cfg), true, None)]
  }

  lemma OneMoreStep(cfg: Config, k: Key, w: World, actions: seq<Action>, n: nat)
    requires n < |actions|
    ensures At(cfg, {k}, w, actions, n + 1) == Step(cfg, {k}, At(cfg, {k}, w, actions, n), actions[n])
    ensures
      var at := At(cfg, {k}, w, actions, n);
      var rebooted := actions[n].FleetTick? &&
                      OutcomeFor(cfg, at, k, actions[n].readings(k), actions[n].now).decision.Rebooted?;
      Reboots(cfg, {k}, w, actions, n + 1, k) ==
        Reboots(cfg, {k}, w, actions, n, k) + if rebooted then [actions[n].now] else []
  {
    hide OutcomeFor;
  }

  /** A low tick whose attempt fails, if it makes one. */
  lemma FailingTick(cfg: Config, k: Key, w: World, t: real, savedAt: Option<real>)
    requires MinerAt(w.miners, k).health.Low? && w.signals.Keys <= {k}
    ensures
      var w' := Step(cfg, {k}, w, LowTick(cfg, t, false, savedAt));
      var m, m' := MinerAt(w.miners, k), MinerAt(w'.miners, k);
      !OutcomeFor(cfg, w, k, LowRead(cfg, false), t).decision.Rebooted? &&
      m'.health.Low? && m'.lastAuto == m.lastAuto && m'.lastManual == m.lastManual &&
      |m'.autoReboots| <= |m.autoReboots| && m'.lowSince == (if m.lowSince.Some? then m.lowSince else Some(t)) &&
      k in w'.miners && w'.signals.Keys <= {k} && w'.processStart == w.processStart &&
      w'.disk == (if savedAt.Some? then Some(Saved(savedAt.value.Floor, w'.miners)) else w.disk)
  {
    SoleMinerIsAllowed(cfg, w, k, t, false);
    SoleTick(cfg, k, w, t, false, savedAt);
    LowTickKeeps(cfg, w.processStart, MinerAt(w.miners, k), t, InterlockFor(cfg, w, k, LowRead(cfg, false), t));
    hide TickMiner, Step;
  }

  lemma RebootingTick(cfg: Config, k: Key, w: World, t: real)
    requires IsDue(cfg, w, k, t) && CanReboot(cfg) && w.signals.Keys <= {k}
    ensures
      var w' := Step(cfg, {k}, w, LowTick(cfg, t, true, None));
      OutcomeFor(cfg, w, k, LowRead(cfg, true), t).decision.Rebooted? &&
      JustRebooted(cfg, w', k, t, |MinerAt(w.miners, k).autoReboots| + 1) && w'.disk == w.disk
  {
    hide OutcomeFor, Step;
    DueIsRebooted(cfg, w, k, t);
    SoleTick(cfg, k, w, t, true, None);
  }

  lemma BlankRestart(cfg: Config, k: Key, w: World, t: real)
    requires FileIsBlank(w, k, t)
    ensures
      var w' := Step(cfg, {k}, w, Restart(t));
      var m := MinerAt(w'.miners, k);
      m.health.Low? && m.lowSince.None? && m.lastAuto.None? && m.lastManual.None? && m.autoReboots == [] &&
      w'.processStart == t && w'.signals == map[]
  {
  }

  lemma RebootsAfterRestart(cfg: Config, k: Key, w: World, t: real)
    requires FileIsBlank(w, k, t) && t > 0.0 && CanReboot(cfg)
    ensures
      var more, due := AfterRestart(cfg, t), t + RestartDelay(cfg);
      var w' := At(cfg, {k}, w, more, |more|);
      FileIsBlank(w', k, due) && JustRebooted(cfg, w', k, due, 1) && Reboots(cfg, {k}, w, more, |more|, k) == [due]
  {
    hide Step, OutcomeFor;
    var more, due := AfterRestart(cfg, t), t + RestartDelay(cfg);
    var w1 := Step(cfg, {k}, w, more[0]);
    var w2 := Step(cfg, {k}, w1, more[1]);
    var w3 := Step(cfg, {k}, w2, more[2]);
    assert At(cfg, {k}, w, more, 0) == w && Reboots(cfg, {k}, w, more, 0, k) == [];
    OneMoreStep(cfg, k, w, more, 0);
    BlankRestart(cfg, k, w, t);
    OneMoreStep(cfg, k, w, more, 1);
    FailingTick(cfg, k, w1, t, None);
    OneMoreStep(cfg, k, w, more, 2);
    FailingTick(cfg, k, w2, due, Some(due));
    OneMoreStep(cfg, k, w, more, 3);
    assert IsDue(cfg, w3, k, due);
    RebootingTick(cfg, k, w3, due);
    hide At, Reboots;
  }

  lemma RebootsInSameProcess(cfg: Config, k: Key, w: World, t: real, count: nat)
    requires JustRebooted(cfg, w, k, t, count) && t > 0.0 && CanReboot(cfg) && count < cfg.maxPerWindow
    ensures
      var more, due := SameProcess(cfg, t), t + RepeatDelay(cfg);
      var w' := At(cfg, {k}, w, more, |more|);
      JustRebooted(cfg, w', k, due, count + 1) && Reboots(cfg, {k}, w, more, |more|, k) == [due]
  {
    hide Step, OutcomeFor;
    var more, due := SameProcess(cfg, t), t + RepeatDelay(cfg);
    var w1 := Step(cfg, {k}, w, more[0]);
    assert At(cfg, {k}, w, more, 0) == w && Reboots(cfg, {k}, w, more, 0, k) == [];
    OneMoreStep(cfg, k, w, more, 0);
    FailingTick(cfg, k, w, t, None);
    OneMoreStep(cfg, k, w, more, 1);
    assert IsDue(cfg, w1, k, due);
    RebootingTick(cfg, k, w1, due);
    hide At, Reboots;
  }

  // ---------- many reboots in little time ----------

  /** A monitor whose state file knows the miner as LOW. */
  function LowOnFile(k: Key): World {
    World(map[], map[], None, 0.0, Some(Saved(1, map[k := FRESH_MINER.(health := Low)])))
  }

  /** So many reboots, the last at time t, as close together as they can be. */
  ghost predicate CrowdedLog(cfg: Config, log: seq<real>, count: nat, t: real) {
    |log| == count > 0 && log[count - 1] == t && (forall i, j :: 0 <= i < j < count ==> log[i] <= log[j]) &&
    (count >= 2 ==> t == log[0] + RestartDelay(cfg) + (count - 2) as real * Gap(cfg))
  }

  /** A run of so many reboots that ends with the last of them. */
  ghost predicate Crowded(cfg: Config, k: Key, actions: seq<Action>, count: nat, t: real) {
    EndsBy(actions, t) && t > 0.0 && CrowdedLog(cfg, Reboots(cfg, {k}, LowOnFile(k), actions, |actions|, k), count, t)
  }

  lemma CrowdedLogGrows(cfg: Config, log: seq<real>, count: nat, t: real, due: real)
    requires CrowdedLog(cfg, log, count, t)
    requires due == t + if count == 1 then RestartDelay(cfg) else Gap(cfg)
    ensures CrowdedLog(cfg, log + [due], count + 1, due) && due >= t
  {
    DelaysAreNotNegative(cfg);
    hide RestartDelay, Gap;
    if count >= 2 {
      OneGapMore(count - 2, Gap(cfg));
    }
  }

  lemma OneMoreReboot(cfg: Config, k: Key, actions: seq<Action>, more: seq<Action>, count: nat, t: real, due: real)
    requires Crowded(cfg, k, actions, count, t)
    requires EndsBy(more, due) && forall i :: 0 <= i < |more| ==> t <= more[i].now
    requires Reboots(cfg, {k}, At(cfg, {k}, LowOnFile(k), actions, |actions|), more, |more|, k) == [due]
    requires due == t + if count == 1 then RestartDelay(cfg) else Gap(cfg)
    ensures Crowded(cfg, k, actions + more, count + 1, due)
  {
    hide Reboots, At, RestartDelay, Gap, EndsBy, CrowdedLog;
    CrowdedLogGrows(cfg, Reboots(cfg, {k}, LowOnFile(k), actions, |actions|, k), count, t, due);
    RebootsAppended(cfg, {k}, LowOnFile(k), actions, more, |more|, k);
    EndsByAppended(actions, more, t, due);
  }

  lemma DelaysAreNotNegative(cfg: Config)
    ensures RestartDelay(cfg) >= 0.0 && RepeatDelay(cfg) >= 0.0 && Gap(cfg) >= 0.0
  {
  }

  lemma ActionsEndBy(cfg: Config, t: real)
    ensures EndsBy(AfterRestart(cfg, t), t + RestartDelay(cfg)) && EndsBy(SameProcess(cfg, t), t + RepeatDelay(cfg))
    ensures forall i :: 0 <= i < |AfterRestart(cfg, t)| ==> t <= AfterRestart(cfg, t)[i].now
    ensures forall i :: 0 <= i < |SameProcess(cfg, t)| ==> t <= SameProcess(cfg, t)[i].now
  {
    hide RestartDelay, RepeatDelay;
    DelaysAreNotNegative(cfg);
  }

  /** The state a crowded run ends in: one more reboot is possible as soon as the delays allow. */
  ghost predicate CanGoOn(cfg: Config, k: Key, actions: seq<Action>, count: nat, t: real) {
    var w := At(cfg, {k}, LowOnFile(k), actions, |actions|);
    JustRebooted(cfg, w, k, t, if count <= 1 then 1 else count - 1) &&
    (count == 1 || RestartDelay(cfg) <= RepeatDelay(cfg) ==> FileIsBlank(w, k, t))
  }

  lemma {:induction false} CrowdedRun(cfg: Config, k: Key, count: nat) returns (actions: seq<Action>, t: real)
    requires CanReboot(cfg) && 1 <= count <= cfg.maxPerWindow + 1
    ensures Crowded(cfg, k, actions, count, t) && CanGoOn(cfg, k, actions, count, t)
  {
    hide Crowded, CanGoOn, RestartDelay, RepeatDelay;
    if count == 1 {
      actions, t := FirstReboot(cfg, k);
    } else {
      var before, s := CrowdedRun(cfg, k, count - 1);
      if count == 2 || RestartDelay(cfg) <= RepeatDelay(cfg) {
        actions, t := GoOnAfterRestart(cfg, k, before, count - 1, s);
      } else {
        actions, t := GoOnInProcess(cfg, k, before, count - 1, s);
      }
    }
  }

  lemma FirstReboot(cfg: Config, k: Key) returns (actions: seq<Action>, t: real)
    requires CanReboot(cfg)
    ensures Crowded(cfg, k, actions, 1, t) && CanGoOn(cfg, k, actions, 1, t)
  {
    hide Reboots, At, RestartDelay, Gap;
    actions, t := AfterRestart(cfg, 1.0), 1.0 + RestartDelay(cfg);
    assert (1.0 as real).Floor == 1;
    RebootsAfterRestart(cfg, k, LowOnFile(k), 1.0);
    ActionsEndBy(cfg, 1.0);
    DelaysAreNotNegative(cfg);
  }

  lemma GoOnAfterRestart(cfg: Config, k: Key, before: seq<Action>, count: nat, s: real)
    returns (actions: seq<Action>, t: real)
    requires Crowded(cfg, k, before, count, s) && CanGoOn(cfg, k, before, count, s) && CanReboot(cfg)
    requires count == 1 || RestartDelay(cfg) <= RepeatDelay(cfg)
    ensures Crowded(cfg, k, actions, count + 1, t) && CanGoOn(cfg, k, actions, count + 1, t)
  {
    hide Reboots, At, EndsBy;
    var w := At(cfg, {k}, LowOnFile(k), before, |before|);
    var more := AfterRestart(cfg, s);
    RebootsAfterRestart(cfg, k, w, s);
    ActionsEndBy(cfg, s);
    actions, t := before + more, s + RestartDelay(cfg);
    OneMoreReboot(cfg, k, before, more, count, s, t);
    AtAppended(cfg, {k}, LowOnFile(k), before, more, |more|);
  }

  lemma GoOnInProcess(cfg: Config, k: Key, before: seq<Action>, count: nat, s: real)
    returns (actions: seq<Action>, t: real)
    requires Crowded(cfg, k, before, count, s) && CanGoOn(cfg, k, before, count, s) && CanReboot(cfg)
    requires 2 <= count <= cfg.maxPerWindow && RestartDelay(cfg) > RepeatDelay(cfg)
    ensures Crowded(cfg, k, actions, count + 1, t) && CanGoOn(cfg, k, actions, count + 1, t)
  {
    hide Reboots, At, EndsBy;
    var w := At(cfg, {k}, LowOnFile(k), before, |before|);
    var more := SameProcess(cfg, s);
    RebootsInSameProcess(cfg, k, w, s, count - 1);
    ActionsEndBy(cfg, s);
    actions, t := before + more, s + RepeatDelay(cfg);
    OneMoreReboot(cfg, k, before, more, count, s, t);
    AtAppended(cfg, {k}, LowOnFile(k), before, more, |more|);
  }

  // ---------- the exact conditions ----------

  /** In every run whose clock never steps back, every window is within the limit. */
  ghost predicate LimitHolds(cfg: Config) {
    forall keys, start, actions, k ::
      JustStarted(start) && Monotone(actions) ==>
      AtMostPerWindow(Reboots(cfg, keys, start, actions, |actions|, k), cfg.window, MaxInt(0, cfg.maxPerWindow))
  }

  /** In every run whose clock never steps back, reboots are a cooldown apart. */
  ghost predicate SpacingHolds(cfg: Config) {
    forall keys, start, actions, k ::
      JustStarted(start) && Monotone(actions) ==>
      Spaced(Reboots(cfg, keys, start, actions, |actions|, k), cfg.cooldown)
  }

  lemma {:induction false} AllAreCounted(log: seq<real>, a: real, width: real)
    requires forall i :: 0 <= i < |log| ==> a <= log[i] <= a + width
    ensures CountIn(log, a, width) == |log|
  {
    if log != [] {
      AllAreCounted(log[..|log| - 1], a, width);
    }
  }

  lemma CrowdedBreaksLimit(cfg: Config, k: Key)
    requires CanReboot(cfg) && cfg.window >= ShortestExcess(cfg)
    ensures !LimitHolds(cfg)
  {
    hide Reboots, At, RestartDelay, Gap, CanGoOn, EndsBy, AtMostPerWindow;
    var actions, t := CrowdedRun(cfg, k, cfg.maxPerWindow + 1);
    var log := Reboots(cfg, {k}, LowOnFile(k), actions, |actions|, k);
    assert EndsBy(actions, t);
    EndsByIsMonotone(actions, t);
    LowOnFileJustStarted(k);
    AllAreCounted(log, log[0], cfg.window);
    OverTheLimit(log, log[0], cfg.window, cfg.maxPerWindow);
  }

  lemma OverTheLimit(log: seq<real>, a: real, width: real, limit: nat)
    requires CountIn(log, a, width) > limit
    ensures !AtMostPerWindow(log, width, limit)
  {
  }

  lemma EndsByIsMonotone(actions: seq<Action>, t: real)
    requires EndsBy(actions, t)
    ensures Monotone(actions)
  {
  }

  lemma LowOnFileJustStarted(k: Key)
    ensures JustStarted(LowOnFile(k))
  {
  }

  /** Over all runs, with writes failing and processes restarting at any time, the window limit holds exactly
      when no reboot is possible at all or the window is shorter than the least time in which a restart lets
      one reboot too many through. */
  lemma {:induction false} LimitHoldsIff(cfg: Config)
    ensures LimitHolds(cfg) <==> !CanReboot(cfg) || cfg.window < ShortestExcess(cfg)
  {
    hide ShortestExcess, Reboots, Monotone;
    if CanReboot(cfg) && cfg.window >= ShortestExcess(cfg) {
      CrowdedBreaksLimit(cfg, Key("", "", 0));
    } else {
      forall keys, start, actions, k | JustStarted(start) && Monotone(actions)
        ensures
          var log := Reboots(cfg, keys, start, actions, |actions|, k);
          AtMostPerWindow(log, cfg.window, MaxInt(0, cfg.maxPerWindow))
      {
        var log := Reboots(cfg, keys, start, actions, |actions|, k);
        forall a ensures CountIn(log, a, cfg.window) <= MaxInt(0, cfg.maxPerWindow) {
          LimitHoldsInRun(cfg, keys, start, actions, k, a);
        }
      }
    }
  }

  lemma CrowdedBreaksSpacing(cfg: Config, k: Key)
    requires CanReboot(cfg) && cfg.cooldown > RestartDelay(cfg)
    ensures !SpacingHolds(cfg)
  {
    hide Reboots, At, RestartDelay, Gap, CanGoOn, EndsBy;
    var actions, t := CrowdedRun(cfg, k, 2);
    var log := Reboots(cfg, {k}, LowOnFile(k), actions, |actions|, k);
    EndsByIsMonotone(actions, t);
    LowOnFileJustStarted(k);
    assert log[1] < log[0] + cfg.cooldown;
    assert !Spaced(log, cfg.cooldown);
  }

  /** Over all such runs reboots are a cooldown apart exactly when no reboot is possible at all or a process
      waits that long before its first one anyway. */
  lemma {:induction false} SpacingHoldsIff(cfg: Config)
    ensures SpacingHolds(cfg) <==> !CanReboot(cfg) || cfg.cooldown <= RestartDelay(cfg)
  {
    hide RestartDelay, Reboots, Monotone, Spaced;
    if CanReboot(cfg) && cfg.cooldown > RestartDelay(cfg) {
      CrowdedBreaksSpacing(cfg, Key("", "", 0));
    } else {
      forall keys, start, actions, k | JustStarted(start) && Monotone(actions)
        ensures Spaced(Reboots(cfg, keys, start, actions, |actions|, k), cfg.cooldown)
      {
        SpacingHoldsInRun(cfg, keys, start, actions, k);
      }
    }
  }
}
