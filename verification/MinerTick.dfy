/** One miner's part of one monitor tick: streaks, confirmed state, sustained-LOW timer and the
    chain of guards in front of an automatic reboot (the loop body of `main` in app/miner_monitor.py). */
module MinerTick {
  import opened Common
  import opened RebootSafety

  datatype Config = Config(
    threshold: real,
    failsBeforeAlert: int,
    recoverySuccesses: int,
    expectedBoards: int,
    startupGuard: real,
    lowSustained: real,
    cooldown: real,
    window: real,
    maxPerWindow: int,
    guards: GuardConfig,
    actionsBlocked: bool)

  /** What one tick reads from a miner, and what the action CLI would answer if it were called. */
  datatype Reading = Reading(
    responded: bool,
    rate: Number,
    elapsed: Option<int>,
    activeBoards: Option<int>,
    maxTemp: Number,
    transitioning: Number,
    cliOk: bool)

  /** A reading below the threshold that gives no other reason to hold back. */
  function LowReading(cfg: Config): Reading {
    Reading(true, Finite(cfg.threshold - 1.0), None, None, Missing, Missing, true)
  }

  /** The value of a MinerState object, without the fields that only feed notifications. */
  datatype Miner = Miner(
    lowStreak: int,
    offlineStreak: int,
    okStreak: int,
    health: Health,
    lastElapsed: Option<int>,
    lowSince: Option<real>,
    lastManual: Option<real>,
    lastAuto: Option<real>,
    autoReboots: seq<real>,
    degraded: bool)

  const FRESH_MINER := Miner(0, 0, 0, Ok, None, None, None, None, [], false)

  datatype Decision =
    | NotEvaluated
    | TimerReset
    | InStartupGuard
    | NotSustained
    | Interlocked(reason: Reason)
    | CoolingDown
    | WindowFull
    | ActionsBlocked
    | CommandFailed
    | Rebooted
  {
    /** The reboot command was handed to the CLI. */
    predicate Issued() {
      CommandFailed? || Rebooted?
    }

    /** The loop body ends early, so the tick is not shown to the episode coordinator. */
    predicate EndsTickEarly() {
      CoolingDown? || WindowFull? || ActionsBlocked?
    }
  }

  datatype Outcome = Outcome(miner: Miner, signal: Signal, decision: Decision)

  // ---------- uptime ----------

  const ELAPSED_DROP := 600
  const ELAPSED_FRESH := 300
  const ELAPSED_LONG := 3600

  predicate UptimeReset(m: Miner, r: Reading) {
    r.responded && r.elapsed.Some? && m.lastElapsed.Some? &&
    (r.elapsed.value < m.lastElapsed.value - ELAPSED_DROP ||
     (r.elapsed.value < ELAPSED_FRESH && m.lastElapsed.value > ELAPSED_LONG))
  }

  function AbsorbUptime(m: Miner, r: Reading): Miner {
    if r.responded && r.elapsed.Some?
    then m.(lastElapsed := r.elapsed, lowSince := if UptimeReset(m, r) then None else m.lowSince)
    else m
  }

  // ---------- streaks and confirmed state ----------

  function CountStreaks(cfg: Config, m: Miner, r: Reading): Miner {
    if !r.responded then m.(offlineStreak := m.offlineStreak + 1, lowStreak := 0, okStreak := 0)
    else if r.rate.Missing? then m.(offlineStreak := 0, lowStreak := 0, okStreak := 0)
    else if Below(r.rate, cfg.threshold) then m.(lowStreak := m.lowStreak + 1, offlineStreak := 0, okStreak := 0)
    else m.(okStreak := m.okStreak + 1, lowStreak := 0, offlineStreak := 0)
  }

  /** The confirmed state, given streaks that already include this reading. */
  function Confirm(cfg: Config, m: Miner, r: Reading): Health {
    if !r.responded && m.offlineStreak >= cfg.failsBeforeAlert then Offline
    else if r.responded && r.activeBoards.Some? && r.activeBoards.value < cfg.expectedBoards then Hashboard
    else if r.responded && Below(r.rate, cfg.threshold) && m.lowStreak >= cfg.failsBeforeAlert then Low
    else if r.responded && AtLeast(r.rate, cfg.threshold) && m.okStreak >= cfg.recoverySuccesses then Ok
    else m.health
  }

  function Settle(m: Miner, health: Health, now: real): Miner {
    var m1 := if health.Ok? then m.(health := health, lowStreak := 0, offlineStreak := 0) else m.(health := health);
    if health.Low?
    then m1.(lowSince := if m1.lowSince.None? then Some(now) else m1.lowSince)
    else m1.(lowSince := None, lowStreak := 0)
  }

  /** The state before the guard chain looks at it. */
  function Observe(cfg: Config, m: Miner, r: Reading, now: real): Miner {
    var counted := CountStreaks(cfg, AbsorbUptime(m, r), r);
    Settle(counted, Confirm(cfg, counted, r), now)
  }

  // ---------- guard chain ----------

  function Classify(cfg: Config, r: Reading): Signal {
    if !r.responded || !r.rate.Finite? then InvalidSignal
    else if r.rate.value >= cfg.threshold then NotLow
    else Eligible
  }

  /** The timestamps still inside the closed window that ends now. */
  function Recent(ts: seq<real>, now: real, window: real): (kept: seq<real>)
    ensures |kept| <= |ts|
  {
    if ts == [] then []
    else if now - ts[0] <= window then [ts[0]] + Recent(ts[1..], now, window)
    else Recent(ts[1..], now, window)
  }

  /** A Python timestamp counts as present only when it is neither None nor zero. */
  predicate Truthy(ts: Option<real>) {
    ts.Some? && ts.value != 0.0
  }

  const SKEW_TOLERANCE := 10.0

  function LastAction(m: Miner): Option<real> {
    if m.lastManual.None? then m.lastAuto
    else if m.lastAuto.None? then m.lastManual
    else Some(MaxReal(m.lastManual.value, m.lastAuto.value))
  }

  predicate InCooldown(cfg: Config, m: Miner, now: real) {
    var last := LastAction(m);
    last.Some? &&
    var effective := if last.value > now + SKEW_TOLERANCE then now else last.value;
    MaxReal(0.0, now - effective) < cfg.cooldown
  }

  function TransitionResetsTimer(cfg: Config, d: InterlockDecision): bool {
    cfg.guards.firmwareGuard && d.transitioning.Some? && d.transitioning.value > 0
  }

  function RecordReboot(m: Miner, now: real): Miner {
    m.(lastAuto := Some(now), autoReboots := m.autoReboots + [now], lowSince := None)
  }

  /** The guard chain on a miner whose window was already pruned. */
  function RunGuards(cfg: Config, processStart: real, m: Miner, r: Reading, now: real, d: InterlockDecision)
    : (Miner, Decision)
  {
    if !m.health.Low? || !Truthy(m.lowSince) then (m, NotEvaluated)
    else if !Classify(cfg, r).Eligible? then (m.(lowSince := None), TimerReset)
    else if now - processStart < cfg.startupGuard then (m, InStartupGuard)
    else if now - m.lowSince.value < cfg.lowSustained then (m, NotSustained)
    else if !d.Allowed() then
      (if TransitionResetsTimer(cfg, d) then m.(lowSince := Some(now)) else m, Interlocked(d.reason.value))
    else if InCooldown(cfg, m, now) then (m, CoolingDown)
    else if |m.autoReboots| >= cfg.maxPerWindow then (m.(degraded := true), WindowFull)
    else if cfg.actionsBlocked then (m, ActionsBlocked)
    else if r.cliOk then (RecordReboot(m, now), Rebooted)
    else (m, CommandFailed)
  }

  function TickMiner(cfg: Config, processStart: real, m: Miner, r: Reading, now: real, d: InterlockDecision)
    : Outcome
  {
    var observed := Observe(cfg, m, r, now);
    var pruned := observed.(autoReboots := Recent(observed.autoReboots, now, cfg.window));
    var (after, decision) := RunGuards(cfg, processStart, pruned, r, now, d);
    Outcome(after, Classify(cfg, r), decision)
  }

  // ---------- the object the loop updates in place ----------

  class MinerState {
    ghost const owner: Key
    var lowStreak: int
    var offlineStreak: int
    var okStreak: int
    var health: Health
    var lastElapsed: Option<int>
    var lowSince: Option<real>
    var lastManual: Option<real>
    var lastAuto: Option<real>
    var autoReboots: seq<real>
    var degraded: bool

    function View(): Miner
      reads this
    {
      Miner(lowStreak, offlineStreak, okStreak, health, lastElapsed, lowSince,
            lastManual, lastAuto, autoReboots, degraded)
    }

    constructor (ghost owner: Key)
      ensures this.owner == owner && View() == FRESH_MINER
    {
      this.owner := owner;
      lowStreak, offlineStreak, okStreak := 0, 0, 0;
      health := Ok;
      lastElapsed, lowSince, lastManual, lastAuto := None, None, None, None;
      autoReboots, degraded := [], false;
    }

    method Restore(m: Miner)
      modifies this
      ensures View() == m
    {
      lowStreak, offlineStreak, okStreak, health := m.lowStreak, m.offlineStreak, m.okStreak, m.health;
      lastElapsed, lowSince := m.lastElapsed, m.lowSince;
      lastManual, lastAuto := m.lastManual, m.lastAuto;
      autoReboots, degraded := m.autoReboots, m.degraded;
    }

    method ReadUptime(r: Reading)
      modifies this
      ensures View() == AbsorbUptime(old(View()), r)
    {
      if r.responded && r.elapsed.Some? {
        var reset := false;
        if lastElapsed.Some? {
          if r.elapsed.value < lastElapsed.value - ELAPSED_DROP {
            reset := true;
          } else if r.elapsed.value < ELAPSED_FRESH && lastElapsed.value > ELAPSED_LONG {
            reset := true;
          }
        }
        lastElapsed := r.elapsed;
        if reset {
          lowSince := None;
        }
      }
    }

    method UpdateHealth(cfg: Config, r: Reading, now: real)
      modifies this
      ensures View() ==
        var counted := CountStreaks(cfg, old(View()), r);
        Settle(counted, Confirm(cfg, counted, r), now)
    {
      if !r.responded {
        offlineStreak := offlineStreak + 1;
        lowStreak, okStreak := 0, 0;
      } else if r.rate.Missing? {
        offlineStreak, lowStreak, okStreak := 0, 0, 0;
      } else if Below(r.rate, cfg.threshold) {
        lowStreak := lowStreak + 1;
        offlineStreak, okStreak := 0, 0;
      } else {
        okStreak := okStreak + 1;
        lowStreak, offlineStreak := 0, 0;
      }

      if !r.responded && offlineStreak >= cfg.failsBeforeAlert {
        health := Offline;
      } else if r.responded && r.activeBoards.Some? && r.activeBoards.value < cfg.expectedBoards {
        health := Hashboard;
      } else if r.responded && Below(r.rate, cfg.threshold) && lowStreak >= cfg.failsBeforeAlert {
        health := Low;
      } else if r.responded && AtLeast(r.rate, cfg.threshold) && okStreak >= cfg.recoverySuccesses {
        health := Ok;
      }

      if health.Ok? {
        lowStreak, offlineStreak := 0, 0;
      }
      if health.Low? {
        if lowSince.None? {
          lowSince := Some(now);
        }
      } else {
        lowSince := None;
        lowStreak := 0;
      }
    }

    method PruneWindow(window: real, now: real)
      modifies this`autoReboots
      ensures autoReboots == Recent(old(autoReboots), now, window)
    {
      var kept: seq<real> := [];
      var i := 0;
      while i < |autoReboots|
        invariant 0 <= i <= |autoReboots|
        invariant autoReboots == old(autoReboots)
        invariant kept + Recent(autoReboots[i..], now, window) == Recent(autoReboots, now, window)
      {
        var rest := autoReboots[i..];
        assert rest[1..] == autoReboots[i + 1..];
        if now - autoReboots[i] <= window {
          kept := kept + [autoReboots[i]];
        }
        i := i + 1;
      }
      autoReboots := kept;
    }

    method Guard(cfg: Config, processStart: real, r: Reading, now: real, d: InterlockDecision)
      returns (decision: Decision)
      modifies this
      ensures (View(), decision) == RunGuards(cfg, processStart, old(View()), r, now, d)
    {
      if !health.Low? || !Truthy(lowSince) {
        return NotEvaluated;
      }
      if !Classify(cfg, r).Eligible? {
        lowSince := None;
        return TimerReset;
      }
      if now - processStart < cfg.startupGuard {
        return InStartupGuard;
      }
      if now - lowSince.value < cfg.lowSustained {
        return NotSustained;
      }
      if !d.Allowed() {
        if TransitionResetsTimer(cfg, d) {
          lowSince := Some(now);
        }
        return Interlocked(d.reason.value);
      }
      var last: Option<real> := None;
      if lastManual.Some? {
        last := lastManual;
      }
      if lastAuto.Some? {
        last := if last.None? then lastAuto else Some(MaxReal(last.value, lastAuto.value));
      }
      if last.Some? && last.value > now + SKEW_TOLERANCE {
        last := Some(now);
      }
      if last.Some? {
        var delta := MaxReal(0.0, now - last.value);
        if delta < cfg.cooldown {
          return CoolingDown;
        }
      }
      if |autoReboots| >= cfg.maxPerWindow {
        if !degraded {
          degraded := true;
        }
        return WindowFull;
      }
      if cfg.actionsBlocked {
        return ActionsBlocked;
      }
      if r.cliOk {
        lastAuto := Some(now);
        autoReboots := autoReboots + [now];
        lowSince := None;
        return Rebooted;
      }
      return CommandFailed;
    }

    method Tick(cfg: Config, processStart: real, r: Reading, now: real, d: InterlockDecision)
      returns (signal: Signal, decision: Decision)
      modifies this
      ensures Outcome(View(), signal, decision) == TickMiner(cfg, processStart, old(View()), r, now, d)
    {
      ReadUptime(r);
      UpdateHealth(cfg, r, now);
      PruneWindow(cfg.window, now);
      signal := Classify(cfg, r);
      decision := Guard(cfg, processStart, r, now, d);
    }

    /** A confirmed manual action that the CLI accepted. */
    method RecordManual(now: real)
      modifies this
      ensures View() == old(View()).(lastManual := Some(now), lowSince := None)
    {
      lastManual := Some(now);
      lowSince := None;
    }
  }
}
