/** Which confirmed states a run can reach, and what a confirmed recovery proves. */
module Hysteresis {
  import opened Common
  import opened RebootSafety
  import opened MinerTick
  import opened Fleet

  /** A monitor that has never confirmed anything but OK: no miner yet, or an empty state file. */
  ghost predicate NeverConfirmed(w: World) {
    JustStarted(w) &&
    (forall k :: k in w.miners ==> w.miners[k] == FRESH_MINER) &&
    (w.disk.Some? ==> forall k :: k in w.disk.value.miners ==> w.disk.value.miners[k] == FRESH_MINER)
  }

  lemma TickHealth(cfg: Config, processStart: real, m: Miner, r: Reading, now: real, d: InterlockDecision)
    ensures
      var after := TickMiner(cfg, processStart, m, r, now, d).miner;
      var observed := Observe(cfg, m, r, now);
      after.health == observed.health && after.lowStreak == observed.lowStreak &&
      after.offlineStreak == observed.offlineStreak && after.okStreak == observed.okStreak
  {
  }

  /** What a fleet tick leaves of one miner. */
  lemma TickedMiner(cfg: Config, keys: set<Key>, start: World, actions: seq<Action>, n: nat, k: Key)
    requires n < |actions| && actions[n].FleetTick? && k in keys
    ensures
      var w, a := At(cfg, keys, start, actions, n), actions[n];
      MinerAt(At(cfg, keys, start, actions, n + 1).miners, k) ==
        TickMiner(cfg, w.processStart, MinerAt(w.miners, k), a.readings(k), a.now,
                  InterlockFor(cfg, w, k, a.readings(k), a.now)).miner
  {
    hide TickMiner, InterlockFor;
  }

  // ---------- LOW ----------

  /** Not LOW, and no streak towards LOW. */
  predicate ClearOfLow(m: Miner) {
    !m.health.Low? && m.lowStreak == 0
  }

  ghost predicate FleetClearOfLow(w: World) {
    (forall k :: k in w.miners ==> ClearOfLow(w.miners[k])) &&
    (w.disk.Some? ==> forall k :: k in w.disk.value.miners ==> ClearOfLow(w.disk.value.miners[k]))
  }

  lemma StepKeepsClearOfLow(cfg: Config, keys: set<Key>, w: World, a: Action)
    requires cfg.failsBeforeAlert >= 2 && FleetClearOfLow(w)
    ensures FleetClearOfLow(Step(cfg, keys, w, a))
    ensures a.FleetTick? ==>
      forall k :: k in keys ==> OutcomeFor(cfg, w, k, a.readings(k), a.now).decision.NotEvaluated?
  {
    if a.FleetTick? {
      forall k | k in keys
        ensures ClearOfLow(OutcomeFor(cfg, w, k, a.readings(k), a.now).miner)
        ensures OutcomeFor(cfg, w, k, a.readings(k), a.now).decision.NotEvaluated?
      {
        var r := a.readings(k);
        hide EvaluateInterlocks, Recent;
        TickHealth(cfg, w.processStart, MinerAt(w.miners, k), r, a.now, InterlockFor(cfg, w, k, r, a.now));
      }
    }
  }

  lemma {:induction false} RunKeepsClearOfLow(cfg: Config, keys: set<Key>, start: World, actions: seq<Action>, n: nat)
    requires n <= |actions| && cfg.failsBeforeAlert >= 2 && FleetClearOfLow(start)
    ensures FleetClearOfLow(At(cfg, keys, start, actions, n))
    ensures forall k :: n < |actions| ==> DecisionAt(cfg, keys, start, actions, n, k).NotEvaluated?
  {
    if n > 0 {
      RunKeepsClearOfLow(cfg, keys, start, actions, n - 1);
      StepKeepsClearOfLow(cfg, keys, At(cfg, keys, start, actions, n - 1), actions[n - 1]);
    }
    if n < |actions| {
      StepKeepsClearOfLow(cfg, keys, At(cfg, keys, start, actions, n), actions[n]);
    }
  }

  /** Some run from this world confirms miner k as LOW. */
  ghost predicate CanReachLow(cfg: Config, keys: set<Key>, start: World, k: Key) {
    exists actions: seq<Action> :: MinerAt(At(cfg, keys, start, actions, |actions|).miners, k).health.Low?
  }

  /** The README's rule "LOW after N readings below the threshold" holds from a clean start exactly for
      N of at most one: with N of two or more, no run ever confirms LOW. */
  lemma LowReachableIff(cfg: Config, keys: set<Key>, start: World, k: Key)
    requires NeverConfirmed(start) && k in keys
    ensures CanReachLow(cfg, keys, start, k) <==> cfg.failsBeforeAlert <= 1
  {
    hide Step, LowReading;
    if cfg.failsBeforeAlert >= 2 {
      forall actions: seq<Action>
        ensures !MinerAt(At(cfg, keys, start, actions, |actions|).miners, k).health.Low?
      {
        RunKeepsClearOfLow(cfg, keys, start, actions, |actions|);
      }
    } else {
      LowAtOnce(cfg, keys, start, k, [FleetTick(0.0, _ => LowReading(cfg), 0.0, None)]);
    }
  }

  lemma LowTick(cfg: Config, processStart: real, now: real, d: InterlockDecision)
    requires cfg.failsBeforeAlert <= 1
    ensures TickMiner(cfg, processStart, FRESH_MINER, LowReading(cfg), now, d).miner.health.Low?
  {
    TickHealth(cfg, processStart, FRESH_MINER, LowReading(cfg), now, d);
  }

  lemma LowAtOnce(cfg: Config, keys: set<Key>, start: World, k: Key, actions: seq<Action>)
    requires NeverConfirmed(start) && k in keys && cfg.failsBeforeAlert <= 1
    requires |actions| == 1 && actions[0].FleetTick? && actions[0].readings(k) == LowReading(cfg)
    ensures MinerAt(At(cfg, keys, start, actions, |actions|).miners, k).health.Low?
  {
    hide TickMiner, InterlockFor, Step, LowReading;
    var a := actions[0];
    assert At(cfg, keys, start, actions, 0) == start && MinerAt(start.miners, k) == FRESH_MINER;
    TickedMiner(cfg, keys, start, actions, 0, k);
    LowTick(cfg, start.processStart, a.now, InterlockFor(cfg, start, k, LowReading(cfg), a.now));
  }

  /** So from a clean start with N of two or more, the automatic reboot is never even evaluated. */
  lemma NoRebootFromCleanStart(cfg: Config, keys: set<Key>, start: World, actions: seq<Action>, n: nat, k: Key)
    requires NeverConfirmed(start) && n < |actions| && cfg.failsBeforeAlert >= 2
    ensures DecisionAt(cfg, keys, start, actions, n, k).NotEvaluated?
  {
    RunKeepsClearOfLow(cfg, keys, start, actions, n);
  }

  // ---------- OFFLINE ----------

  /** Miner k has been confirmed HASHBOARD at some point of the first n actions. */
  ghost predicate WasHashboard(cfg: Config, keys: set<Key>, start: World, actions: seq<Action>, n: nat, k: Key)
    requires n <= |actions|
  {
    exists i :: 0 <= i <= n && MinerAt(At(cfg, keys, start, actions, i).miners, k).health.Hashboard?
  }

  predicate Untroubled(m: Miner) {
    m.health.Ok? && m.lowStreak == 0 && m.offlineStreak == 0
  }

  lemma StepFromUntroubled(cfg: Config, keys: set<Key>, w: World, a: Action, k: Key)
    requires cfg.failsBeforeAlert >= 2
    requires Untroubled(MinerAt(w.miners, k))
    requires w.disk.Some? ==> Untroubled(MinerAt(w.disk.value.miners, k))
    ensures
      var w' := Step(cfg, keys, w, a);
      MinerAt(w'.miners, k).health.Hashboard? ||
      (Untroubled(MinerAt(w'.miners, k)) && (w'.disk.Some? ==> Untroubled(MinerAt(w'.disk.value.miners, k))))
  {
    if a.FleetTick? && k in keys {
      var r := a.readings(k);
      hide TickMiner, InterlockFor;
      TickFromUntroubled(cfg, w.processStart, MinerAt(w.miners, k), r, a.now, InterlockFor(cfg, w, k, r, a.now));
    }
  }

  lemma TickFromUntroubled(cfg: Config, processStart: real, m: Miner, r: Reading, now: real, d: InterlockDecision)
    requires cfg.failsBeforeAlert >= 2 && Untroubled(m)
    ensures
      var after := TickMiner(cfg, processStart, m, r, now, d).miner;
      after.health.Hashboard? || Untroubled(after)
  {
    TickHealth(cfg, processStart, m, r, now, d);
  }

  lemma {:induction false} UntroubledUntilHashboard(cfg: Config, keys: set<Key>, start: World, actions: seq<Action>,
                                                    n: nat, k: Key)
    requires NeverConfirmed(start) && n <= |actions| && cfg.failsBeforeAlert >= 2
    ensures
      var w := At(cfg, keys, start, actions, n);
      WasHashboard(cfg, keys, start, actions, n, k) ||
      (Untroubled(MinerAt(w.miners, k)) && (w.disk.Some? ==> Untroubled(MinerAt(w.disk.value.miners, k))))
  {
    hide Step;
    if n > 0 {
      UntroubledUntilHashboard(cfg, keys, start, actions, n - 1, k);
      if !WasHashboard(cfg, keys, start, actions, n - 1, k) {
        StepFromUntroubled(cfg, keys, At(cfg, keys, start, actions, n - 1), actions[n - 1], k);
      }
    }
  }

  /** From a clean start with N of two or more, a miner is confirmed OFFLINE only after it was
      confirmed HASHBOARD: silence alone never gets there. */
  lemma OfflineOnlyThroughHashboard(cfg: Config, keys: set<Key>, start: World, actions: seq<Action>, n: nat, k: Key)
    requires NeverConfirmed(start) && n <= |actions| && cfg.failsBeforeAlert >= 2
    requires MinerAt(At(cfg, keys, start, actions, n).miners, k).health.Offline?
    ensures WasHashboard(cfg, keys, start, actions, n, k)
  {
    UntroubledUntilHashboard(cfg, keys, start, actions, n, k);
  }

  /** Some run from this world confirms miner k as OFFLINE without ever confirming HASHBOARD. */
  ghost predicate CanReachOfflineDirectly(cfg: Config, keys: set<Key>, start: World, k: Key) {
    exists actions: seq<Action> ::
      MinerAt(At(cfg, keys, start, actions, |actions|).miners, k).health.Offline? &&
      !WasHashboard(cfg, keys, start, actions, |actions|, k)
  }

  const SILENCE := Reading(false, Missing, None, None, Missing, Missing, true)

  /** The README's rule "OFFLINE after N ticks without an answer" holds from a clean start exactly for N of
      at most one: with N of two or more, silence alone never confirms OFFLINE. */
  lemma {:induction false} OfflineReachableIff(cfg: Config, keys: set<Key>, start: World, k: Key)
    requires NeverConfirmed(start) && k in keys
    ensures CanReachOfflineDirectly(cfg, keys, start, k) <==> cfg.failsBeforeAlert <= 1
  {
    if cfg.failsBeforeAlert >= 2 {
      forall actions: seq<Action> |
        MinerAt(At(cfg, keys, start, actions, |actions|).miners, k).health.Offline?
        ensures WasHashboard(cfg, keys, start, actions, |actions|, k)
      {
        OfflineOnlyThroughHashboard(cfg, keys, start, actions, |actions|, k);
      }
    } else {
      var actions := [FleetTick(0.0, _ => SILENCE, 0.0, None)];
      SilenceMeansOffline(cfg, keys, start, k, actions);
    }
  }

  lemma SilentTick(cfg: Config, processStart: real, now: real, d: InterlockDecision)
    requires cfg.failsBeforeAlert <= 1
    ensures TickMiner(cfg, processStart, FRESH_MINER, SILENCE, now, d).miner.health.Offline?
  {
    TickHealth(cfg, processStart, FRESH_MINER, SILENCE, now, d);
  }

  lemma SilenceMeansOffline(cfg: Config, keys: set<Key>, start: World, k: Key, actions: seq<Action>)
    requires NeverConfirmed(start) && k in keys && cfg.failsBeforeAlert <= 1
    requires |actions| == 1 && actions[0].FleetTick? && actions[0].readings(k) == SILENCE
    ensures MinerAt(At(cfg, keys, start, actions, |actions|).miners, k).health.Offline?
    ensures !WasHashboard(cfg, keys, start, actions, |actions|, k)
  {
    hide TickMiner, InterlockFor, Step;
    var a := actions[0];
    assert At(cfg, keys, start, actions, 0) == start && MinerAt(start.miners, k) == FRESH_MINER;
    TickedMiner(cfg, keys, start, actions, 0, k);
    SilentTick(cfg, start.processStart, a.now, InterlockFor(cfg, start, k, SILENCE, a.now));
  }

  /** One tick with a board missing, then silence. */
  function BoardThenSilence(cfg: Config, count: nat): seq<Action> {
    [FleetTick(1.0, _ => LowReading(cfg).(activeBoards := Some(cfg.expectedBoards - 1)), 1.0, None)] +
    seq(count, i => FleetTick(2.0, _ => SILENCE, 2.0, None))
  }

  lemma BoardTick(cfg: Config, processStart: real, d: InterlockDecision)
    ensures
      var r := LowReading(cfg).(activeBoards := Some(cfg.expectedBoards - 1));
      var after := TickMiner(cfg, processStart, FRESH_MINER, r, 1.0, d).miner;
      after.health.Hashboard? && after.offlineStreak == 0
  {
    TickHealth(cfg, processStart, FRESH_MINER, LowReading(cfg).(activeBoards := Some(cfg.expectedBoards - 1)), 1.0, d);
  }

  lemma SilenceCounts(cfg: Config, processStart: real, m: Miner, d: InterlockDecision)
    requires m.health.Hashboard?
    ensures
      var after := TickMiner(cfg, processStart, m, SILENCE, 2.0, d).miner;
      after.offlineStreak == m.offlineStreak + 1 &&
      after.health == if m.offlineStreak + 1 >= cfg.failsBeforeAlert then Offline else Hashboard
  {
    TickHealth(cfg, processStart, m, SILENCE, 2.0, d);
  }

  lemma {:induction false} SilenceAfterBoard(cfg: Config, keys: set<Key>, start: World, k: Key, count: nat, n: nat)
    requires NeverConfirmed(start) && k in keys && 1 <= n <= count + 1 && n - 1 < cfg.failsBeforeAlert
    ensures
      var m := MinerAt(At(cfg, keys, start, BoardThenSilence(cfg, count), n).miners, k);
      m.health.Hashboard? && m.offlineStreak == n - 1
  {
    hide TickMiner, InterlockFor, Step;
    var actions := BoardThenSilence(cfg, count);
    if n == 1 {
      assert At(cfg, keys, start, actions, 0) == start && MinerAt(start.miners, k) == FRESH_MINER;
      TickedMiner(cfg, keys, start, actions, 0, k);
      BoardTick(cfg, start.processStart, InterlockFor(cfg, start, k, actions[0].readings(k), 1.0));
    } else {
      SilenceAfterBoard(cfg, keys, start, k, count, n - 1);
      var w := At(cfg, keys, start, actions, n - 1);
      TickedMiner(cfg, keys, start, actions, n - 1, k);
      SilenceCounts(cfg, w.processStart, MinerAt(w.miners, k), InterlockFor(cfg, w, k, SILENCE, 2.0));
    }
  }

  /** And through HASHBOARD it is reached, for every N: a missing board and then N ticks of silence. */
  lemma {:induction false} OfflineThroughHashboard(cfg: Config, keys: set<Key>, start: World, k: Key)
    requires NeverConfirmed(start) && k in keys && cfg.failsBeforeAlert >= 1
    ensures
      var actions := BoardThenSilence(cfg, cfg.failsBeforeAlert);
      WasHashboard(cfg, keys, start, actions, |actions|, k) &&
      MinerAt(At(cfg, keys, start, actions, |actions|).miners, k).health.Offline?
  {
    hide TickMiner, InterlockFor, Step, At;
    var n := cfg.failsBeforeAlert;
    var actions := BoardThenSilence(cfg, n);
    SilenceAfterBoard(cfg, keys, start, k, n, 1);
    SilenceAfterBoard(cfg, keys, start, k, n, n);
    var w := At(cfg, keys, start, actions, n);
    TickedMiner(cfg, keys, start, actions, n, k);
    SilenceCounts(cfg, w.processStart, MinerAt(w.miners, k), InterlockFor(cfg, w, k, SILENCE, 2.0));
  }

  // ---------- recovery ----------

  /** The reading counts towards recovery. NaN does, because it is not below the threshold. */
  predicate CountsAsGood(cfg: Config, r: Reading) {
    r.responded && !r.rate.Missing? && !Below(r.rate, cfg.threshold)
  }

  lemma TickCountsGoodReads(cfg: Config, processStart: real, m: Miner, r: Reading, now: real, d: InterlockDecision)
    ensures
      var after := TickMiner(cfg, processStart, m, r, now, d).miner;
      after.okStreak == (if CountsAsGood(cfg, r) then m.okStreak + 1 else 0) &&
      (after.health.Ok? && !m.health.Ok? ==>
         AtLeast(r.rate, cfg.threshold) && after.okStreak >= cfg.recoverySuccesses)
  {
    TickHealth(cfg, processStart, m, r, now, d);
  }

  /** The readings of miner k that its state in memory and its state in the file come from. A restart goes
      on from those of the file: what was read after the last save is forgotten, as is everything when the
      file is stale. */
  datatype Past = Past(memory: seq<Reading>, file: seq<Reading>)

  function PastOf(cfg: Config, keys: set<Key>, start: World, actions: seq<Action>, n: nat, k: Key): Past
    requires n <= |actions|
  {
    if n == 0 then Past([], [])
    else
      var w, a := At(cfg, keys, start, actions, n - 1), actions[n - 1];
      var before := PastOf(cfg, keys, start, actions, n - 1, k);
      match a
      case FleetTick(_, readings, _, savedAt) =>
        var read := if k in keys then before.memory + [readings(k)] else before.memory;
        Past(read, if savedAt.Some? then read else before.file)
      case ManualAction(_, _, savedAt) => Past(before.memory, if savedAt.Some? then before.memory else before.file)
      case Restart(now) =>
        Past(if w.disk.None? || Stale(w.disk.value, now) then [] else before.file, before.file)
  }

  /** The streak is no longer than the past, and the readings it counts were all good. */
  ghost predicate StreakIsEarned(cfg: Config, m: Miner, past: seq<Reading>) {
    0 <= m.okStreak <= |past| && forall i :: |past| - m.okStreak <= i < |past| ==> CountsAsGood(cfg, past[i])
  }

  ghost predicate StreaksAreEarned(cfg: Config, w: World, k: Key, past: Past) {
    StreakIsEarned(cfg, MinerAt(w.miners, k), past.memory) &&
    (w.disk.Some? ==> StreakIsEarned(cfg, MinerAt(w.disk.value.miners, k), past.file))
  }

  lemma TickEarnsStreak(cfg: Config, w: World, k: Key, r: Reading, now: real, past: seq<Reading>)
    requires StreakIsEarned(cfg, MinerAt(w.miners, k), past)
    ensures StreakIsEarned(cfg, OutcomeFor(cfg, w, k, r, now).miner, past + [r])
  {
    var m, d := MinerAt(w.miners, k), InterlockFor(cfg, w, k, r, now);
    hide TickMiner, InterlockFor, CountsAsGood;
    TickCountsGoodReads(cfg, w.processStart, m, r, now, d);
    var all := past + [r];
    var streak := OutcomeFor(cfg, w, k, r, now).miner.okStreak;
    forall i | |all| - streak <= i < |all| ensures CountsAsGood(cfg, all[i]) {
      if i < |past| {
        assert all[i] == past[i];
      }
    }
  }

  /** The OK streak of every run counts consecutive good readings of the miner's past, across restarts. */
  lemma {:induction false} OkStreakCountsGoodReads(cfg: Config, keys: set<Key>, start: World, actions: seq<Action>,
                                                   n: nat, k: Key)
    requires n <= |actions| && StreaksAreEarned(cfg, start, k, Past([], []))
    ensures StreaksAreEarned(cfg, At(cfg, keys, start, actions, n), k, PastOf(cfg, keys, start, actions, n, k))
  {
    if n > 0 {
      OkStreakCountsGoodReads(cfg, keys, start, actions, n - 1, k);
      var w, a := At(cfg, keys, start, actions, n - 1), actions[n - 1];
      hide OutcomeFor, StreakIsEarned, Stale;
      FreshIsEarned(cfg);
      if a.FleetTick? && k in keys {
        TickEarnsStreak(cfg, w, k, a.readings(k), a.now, PastOf(cfg, keys, start, actions, n - 1, k).memory);
      }
      if a.Restart? && w.disk.Some? {
        ReloadedKeepsStreak(cfg, MinerAt(w.disk.value.miners, k), PastOf(cfg, keys, start, actions, n - 1, k).file);
      }
      if a.ManualAction? {
        ManualKeepsStreak(cfg, MinerAt(w.miners, k), a.now, PastOf(cfg, keys, start, actions, n - 1, k).memory);
      }
    }
  }

  lemma FreshIsEarned(cfg: Config)
    ensures forall past :: StreakIsEarned(cfg, FRESH_MINER, past)
  {
  }

  lemma ReloadedKeepsStreak(cfg: Config, m: Miner, past: seq<Reading>)
    requires StreakIsEarned(cfg, m, past)
    ensures StreakIsEarned(cfg, Reloaded(m), past)
  {
  }

  lemma ManualKeepsStreak(cfg: Config, m: Miner, now: real, past: seq<Reading>)
    requires StreakIsEarned(cfg, m, past)
    ensures StreakIsEarned(cfg, m.(lastManual := Some(now), lowSince := None), past)
  {
  }

  /** Action n confirms miner k as OK again. */
  ghost predicate Recovers(cfg: Config, keys: set<Key>, start: World, actions: seq<Action>, n: nat, k: Key)
    requires n < |actions|
  {
    actions[n].FleetTick? && k in keys &&
    !MinerAt(At(cfg, keys, start, actions, n).miners, k).health.Ok? &&
    MinerAt(At(cfg, keys, start, actions, n + 1).miners, k).health.Ok?
  }

  /** The last `recoverySuccesses` readings of this past. */
  function LastReads(cfg: Config, past: seq<Reading>): seq<Reading> {
    if cfg.recoverySuccesses <= 0 then []
    else if |past| <= cfg.recoverySuccesses then past
    else past[|past| - cfg.recoverySuccesses..]
  }

  lemma RecoveryTick(cfg: Config, keys: set<Key>, start: World, actions: seq<Action>, n: nat, k: Key)
    requires n < |actions| && Recovers(cfg, keys, start, actions, n, k)
    ensures
      var m := MinerAt(At(cfg, keys, start, actions, n + 1).miners, k);
      m.okStreak >= cfg.recoverySuccesses && AtLeast(actions[n].readings(k).rate, cfg.threshold)
  {
    hide TickMiner, InterlockFor, At;
    var w, a := At(cfg, keys, start, actions, n), actions[n];
    var r := a.readings(k);
    TickedMiner(cfg, keys, start, actions, n, k);
    TickCountsGoodReads(cfg, w.processStart, MinerAt(w.miners, k), r, a.now, InterlockFor(cfg, w, k, r, a.now));
  }

  /** A miner that becomes OK, in any run and across restarts, gave recovery_successes readings in a row that
      are not below the threshold, the last of them at or above it. All of them are at or above it exactly
      when none of them is NaN. */
  lemma {:induction false} RecoveryNeedsGoodReads(cfg: Config, keys: set<Key>, start: World, actions: seq<Action>,
                                                  n: nat, k: Key)
    requires n < |actions| && StreaksAreEarned(cfg, start, k, Past([], []))
    requires Recovers(cfg, keys, start, actions, n, k)
    ensures
      var past := PastOf(cfg, keys, start, actions, n + 1, k).memory;
      var last := LastReads(cfg, past);
      |last| == MaxInt(0, cfg.recoverySuccesses) && past != [] && past[|past| - 1] == actions[n].readings(k) &&
      AtLeast(past[|past| - 1].rate, cfg.threshold) &&
      (forall i :: 0 <= i < |last| ==> CountsAsGood(cfg, last[i])) &&
      ((forall i :: 0 <= i < |last| ==> AtLeast(last[i].rate, cfg.threshold)) <==>
       (forall i :: 0 <= i < |last| ==> !last[i].rate.NaN?))
  {
    hide At, Step, OutcomeFor, Stale, MinerAt, StreakIsEarned, CountsAsGood, LastReads, AtLeast;
    var past := PastOf(cfg, keys, start, actions, n + 1, k).memory;
    var m := MinerAt(At(cfg, keys, start, actions, n + 1).miners, k);
    OkStreakCountsGoodReads(cfg, keys, start, actions, n + 1, k);
    RecoveryTick(cfg, keys, start, actions, n, k);
    assert past == PastOf(cfg, keys, start, actions, n, k).memory + [actions[n].readings(k)];
    LastReadsAreGood(cfg, m, past);
  }

  lemma LastReadsAreGood(cfg: Config, m: Miner, past: seq<Reading>)
    requires StreakIsEarned(cfg, m, past) && m.okStreak >= cfg.recoverySuccesses
    ensures
      var last := LastReads(cfg, past);
      |last| == MaxInt(0, cfg.recoverySuccesses) &&
      (forall i :: 0 <= i < |last| ==> CountsAsGood(cfg, last[i])) &&
      ((forall i :: 0 <= i < |last| ==> AtLeast(last[i].rate, cfg.threshold)) <==>
       (forall i :: 0 <= i < |last| ==> !last[i].rate.NaN?))
  {
    var last := LastReads(cfg, past);
    forall i | 0 <= i < |last|
      ensures CountsAsGood(cfg, last[i]) && (AtLeast(last[i].rate, cfg.threshold) <==> !last[i].rate.NaN?)
    {
      assert last[i] == past[|past| - |last| + i];
    }
  }

  // ---------- the rule "N readings at or above the threshold", for every run ----------

  /** Whenever a miner recovers in a run from such a start, its last readings were all at or above the
      threshold. */
  ghost predicate RecoveryRuleHolds(cfg: Config) {
    forall keys, start, actions, n: nat, k ::
      n < |actions| && StreaksAreEarned(cfg, start, k, Past([], [])) && Recovers(cfg, keys, start, actions, n, k) ==>
      forall r :: r in LastReads(cfg, PastOf(cfg, keys, start, actions, n + 1, k).memory) ==>
        AtLeast(r.rate, cfg.threshold)
  }

  function Answering(rate: Number): Reading {
    Reading(true, rate, None, None, Missing, Missing, true)
  }

  /** A miner that was saved as LOW. */
  const SAVED_LOW := FRESH_MINER.(health := Low)

  function LowStart(k: Key): World {
    World(map[k := SAVED_LOW], map[], None, 0.0, None)
  }

  /** One NaN after the other, then one reading on the threshold. */
  function NaNsThenGood(cfg: Config, count: nat): seq<Action> {
    seq(count, i => FleetTick(1.0, _ => Answering(NaN), 1.0, None)) +
    [FleetTick(2.0, _ => Answering(Finite(cfg.threshold)), 2.0, None)]
  }

  lemma NaNKeepsLow(cfg: Config, processStart: real, m: Miner, d: InterlockDecision)
    requires m.health.Low?
    ensures
      var after := TickMiner(cfg, processStart, m, Answering(NaN), 1.0, d).miner;
      after.health.Low? && after.okStreak == m.okStreak + 1
  {
    TickHealth(cfg, processStart, m, Answering(NaN), 1.0, d);
  }

  lemma GoodReadRecovers(cfg: Config, processStart: real, m: Miner, d: InterlockDecision)
    requires m.health.Low? && m.okStreak + 1 >= cfg.recoverySuccesses
    ensures TickMiner(cfg, processStart, m, Answering(Finite(cfg.threshold)), 2.0, d).miner.health.Ok?
  {
    TickHealth(cfg, processStart, m, Answering(Finite(cfg.threshold)), 2.0, d);
  }

  lemma {:induction false} NaNsCount(cfg: Config, k: Key, count: nat, n: nat)
    requires n <= count
    ensures
      var actions := NaNsThenGood(cfg, count);
      var m := MinerAt(At(cfg, {k}, LowStart(k), actions, n).miners, k);
      m.health.Low? && m.okStreak == n &&
      PastOf(cfg, {k}, LowStart(k), actions, n, k).memory == seq(n, _ => Answering(NaN))
  {
    hide TickMiner, InterlockFor, Step;
    var actions := NaNsThenGood(cfg, count);
    if n > 0 {
      NaNsCount(cfg, k, count, n - 1);
      var w := At(cfg, {k}, LowStart(k), actions, n - 1);
      assert actions[n - 1].readings(k) == Answering(NaN) && actions[n - 1].now == 1.0;
      TickedMiner(cfg, {k}, LowStart(k), actions, n - 1, k);
      NaNKeepsLow(cfg, w.processStart, MinerAt(w.miners, k), InterlockFor(cfg, w, k, Answering(NaN), 1.0));
    }
  }

  /** A LOW miner recovers on NaN readings and one good one. */
  lemma {:induction false} NaNsRecover(cfg: Config, k: Key)
    requires cfg.recoverySuccesses >= 2
    ensures
      var count, actions := cfg.recoverySuccesses - 1, NaNsThenGood(cfg, cfg.recoverySuccesses - 1);
      Recovers(cfg, {k}, LowStart(k), actions, count, k) &&
      StreaksAreEarned(cfg, LowStart(k), k, Past([], [])) &&
      Answering(NaN) in LastReads(cfg, PastOf(cfg, {k}, LowStart(k), actions, count + 1, k).memory)
  {
    hide TickMiner, InterlockFor, At;
    var count := cfg.recoverySuccesses - 1;
    var actions := NaNsThenGood(cfg, count);
    NaNsCount(cfg, k, count, count);
    var w := At(cfg, {k}, LowStart(k), actions, count);
    var r := Answering(Finite(cfg.threshold));
    assert actions[count].readings(k) == r && actions[count].now == 2.0;
    TickedMiner(cfg, {k}, LowStart(k), actions, count, k);
    GoodReadRecovers(cfg, w.processStart, MinerAt(w.miners, k), InterlockFor(cfg, w, k, r, 2.0));
    var past := PastOf(cfg, {k}, LowStart(k), actions, count + 1, k).memory;
    assert past == seq(count, _ => Answering(NaN)) + [r];
    assert LastReads(cfg, past) == past && past[0] == Answering(NaN);
  }

  /** The rule holds for every run exactly when one good reading is enough anyway. */
  lemma {:induction false} RecoveryRuleIff(cfg: Config)
    ensures RecoveryRuleHolds(cfg) <==> cfg.recoverySuccesses <= 1
  {
    hide Recovers, PastOf, StreaksAreEarned;
    if cfg.recoverySuccesses >= 2 {
      NaNsRecover(cfg, Key("", "", 0));
    } else {
      forall keys, start, actions: seq<Action>, n: nat, k |
        n < |actions| && StreaksAreEarned(cfg, start, k, Past([], [])) && Recovers(cfg, keys, start, actions, n, k)
        ensures forall r :: r in LastReads(cfg, PastOf(cfg, keys, start, actions, n + 1, k).memory) ==>
                  AtLeast(r.rate, cfg.threshold)
      {
        RecoveryNeedsGoodReads(cfg, keys, start, actions, n, k);
      }
    }
  }
}
