/** How often one miner can be rebooted automatically over a whole run, across restarts. */
module RebootRate {
  import opened Common
  import opened RebootSafety
  import opened MinerTick
  import opened Fleet
  import opened RebootLaws

  /** The times of miner k's successful automatic reboots in the first n actions. */
  function Reboots(cfg: Config, keys: set<Key>, start: World, actions: seq<Action>, n: nat, k: Key): seq<real>
    requires n <= |actions|
  {
    if n == 0 then []
    else Reboots(cfg, keys, start, actions, n - 1, k) +
         if DecisionAt(cfg, keys, start, actions, n - 1, k).Rebooted? then [actions[n - 1].now] else []
  }

  /** The file does not know of a reboot of miner k that the process does: none of the writes since that
      reboot succeeded. A process that has just started knows what the file knows. */
  function IsDirty(cfg: Config, keys: set<Key>, start: World, actions: seq<Action>, n: nat, k: Key): bool
    requires n <= |actions|
  {
    if n == 0 then false
    else
      match actions[n - 1]
      case FleetTick(_, _, _, savedAt) =>
        savedAt.None? &&
        (IsDirty(cfg, keys, start, actions, n - 1, k) || DecisionAt(cfg, keys, start, actions, n - 1, k).Rebooted?)
      case ManualAction(_, _, savedAt) => savedAt.None? && IsDirty(cfg, keys, start, actions, n - 1, k)
      case Restart(_) => false
  }

  /** No restart loses a reboot of miner k: the file is written by then and not old enough to be dropped. */
  ghost predicate RestartsLoseNothing(cfg: Config, keys: set<Key>, start: World, actions: seq<Action>, k: Key) {
    forall i :: 0 <= i < |actions| && actions[i].Restart? ==>
      var disk := At(cfg, keys, start, actions, i).disk;
      !IsDirty(cfg, keys, start, actions, i, k) && (disk.Some? ==> !Stale(disk.value, actions[i].now))
  }

  /** No restart loses a reboot of miner k that is at most `span` old: the file is written by then, and it is
      not old enough to be dropped or the span is at least a second shorter than that age. */
  ghost predicate RestartsLoseNothingWithin(cfg: Config, keys: set<Key>, start: World, actions: seq<Action>, k: Key,
                                            span: real)
  {
    forall i :: 0 <= i < |actions| && actions[i].Restart? ==>
      var disk := At(cfg, keys, start, actions, i).disk;
      !IsDirty(cfg, keys, start, actions, i, k) &&
      (span <= STALE_AFTER as real - 1.0 || (disk.Some? ==> !Stale(disk.value, actions[i].now)))
  }

  ghost predicate TicksAreSaved(actions: seq<Action>) {
    forall i :: 0 <= i < |actions| && actions[i].FleetTick? ==> actions[i].savedAt.Some?
  }

  /** When every tick's write succeeds, no reboot is ever missing in the file. */
  lemma {:induction false} SavedTicksAreNotDirty(cfg: Config, keys: set<Key>, start: World, actions: seq<Action>,
                                                 n: nat, k: Key)
    requires n <= |actions| && TicksAreSaved(actions)
    ensures !IsDirty(cfg, keys, start, actions, n, k)
  {
    if n > 0 {
      SavedTicksAreNotDirty(cfg, keys, start, actions, n - 1, k);
    }
  }

  // ---------- spacing ----------

  /** Every logged reboot is remembered by the miner, as at most its last automatic reboot. */
  ghost predicate Remembers(miners: map<Key, Miner>, k: Key, log: seq<real>) {
    log != [] ==>
      k in miners && miners[k].lastAuto.Some? &&
      forall i :: 0 <= i < |log| ==> log[i] <= miners[k].lastAuto.value
  }

  lemma RemembersMiner(cfg: Config, w: World, k: Key, r: Reading, now: real, log: seq<real>)
    requires cfg.cooldown > 0.0 && Remembers(w.miners, k, log)
    ensures
      var o := OutcomeFor(cfg, w, k, r, now);
      if o.decision.Rebooted?
      then o.miner.lastAuto == Some(now) && forall i :: 0 <= i < |log| ==> now >= log[i] + cfg.cooldown
      else o.miner.lastAuto == MinerAt(w.miners, k).lastAuto
  {
    var m, d := MinerAt(w.miners, k), InterlockFor(cfg, w, k, r, now);
    hide TickMiner, InterlockFor;
    TickRecordsReboots(cfg, w.processStart, m, r, now, d);
    if TickMiner(cfg, w.processStart, m, r, now, d).decision.Rebooted? {
      RebootAfterCooldown(cfg, w.processStart, m, r, now, d);
    }
  }

  /** Memory remembers the log always, the file whenever it is not behind. */
  ghost predicate LogIsRemembered(w: World, k: Key, log: seq<real>, dirty: bool) {
    Remembers(w.miners, k, log) && (log != [] && !dirty ==> w.disk.Some? && Remembers(w.disk.value.miners, k, log))
  }

  lemma RemembersStep(cfg: Config, keys: set<Key>, w: World, a: Action, k: Key, log: seq<real>, dirty: bool)
    requires cfg.cooldown > 0.0 && LogIsRemembered(w, k, log, dirty)
    requires a.Restart? ==> !dirty && (w.disk.Some? ==> !Stale(w.disk.value, a.now))
    ensures
      var reboots := a.FleetTick? && k in keys && OutcomeFor(cfg, w, k, a.readings(k), a.now).decision.Rebooted?;
      var dirty' := !a.Restart? && a.savedAt.None? && (dirty || reboots);
      (reboots ==> forall i :: 0 <= i < |log| ==> a.now >= log[i] + cfg.cooldown) &&
      LogIsRemembered(Step(cfg, keys, w, a), k, log + (if reboots then [a.now] else []), dirty')
  {
    hide OutcomeFor, Stale;
    if a.FleetTick? && k in keys {
      RemembersMiner(cfg, w, k, a.readings(k), a.now, log);
    }
    assert log + [] == log;
  }

  /** Successful automatic reboots of a miner are at least one cooldown apart, and so strictly increasing in
      time, as long as no restart loses one. The clock may step as it likes. */
  lemma {:induction false} RebootsAreSpaced(cfg: Config, keys: set<Key>, start: World, actions: seq<Action>, n: nat,
                                            k: Key)
    requires n <= |actions| && cfg.cooldown > 0.0
    requires RestartsLoseNothing(cfg, keys, start, actions, k)
    ensures Spaced(Reboots(cfg, keys, start, actions, n, k), cfg.cooldown)
    ensures LogIsRemembered(At(cfg, keys, start, actions, n), k, Reboots(cfg, keys, start, actions, n, k),
                            IsDirty(cfg, keys, start, actions, n, k))
  {
    hide Step, OutcomeFor, LogIsRemembered;
    if n > 0 {
      RebootsAreSpaced(cfg, keys, start, actions, n - 1, k);
      RemembersStep(cfg, keys, At(cfg, keys, start, actions, n - 1), actions[n - 1], k,
                    Reboots(cfg, keys, start, actions, n - 1, k), IsDirty(cfg, keys, start, actions, n - 1, k));
    } else {
      NothingIsRemembered(start, k);
    }
  }

  lemma NothingIsRemembered(w: World, k: Key)
    ensures LogIsRemembered(w, k, [], false)
  {
  }

  ghost predicate Spaced(log: seq<real>, cooldown: real) {
    forall i, j :: 0 <= i < j < |log| ==> log[j] >= log[i] + cooldown
  }

  // ---------- sliding window ----------

  /** How many of the times fall into the closed interval [a, a + width]. */
  function CountIn(ts: seq<real>, a: real, width: real): nat {
    if ts == [] then 0
    else CountIn(ts[..|ts| - 1], a, width) + if a <= ts[|ts| - 1] <= a + width then 1 else 0
  }

  lemma {:induction false} RecentAppend(ts: seq<real>, t: real, now: real, window: real)
    ensures Recent(ts + [t], now, window) ==
            Recent(ts, now, window) + if now - t <= window then [t] else []
  {
    if ts == [] {
      assert ts + [t] == [t];
    } else {
      RecentAppend(ts[1..], t, now, window);
      assert (ts + [t])[1..] == ts[1..] + [t];
    }
  }

  /** Pruning early loses nothing that a later pruning would keep. */
  lemma {:induction false} RecentOfRecent(ts: seq<real>, now: real, later: real, window: real)
    requires now <= later
    ensures Recent(Recent(ts, now, window), later, window) == Recent(ts, later, window)
  {
    if ts != [] {
      RecentOfRecent(ts[1..], now, later, window);
      if now - ts[0] <= window {
        assert ([ts[0]] + Recent(ts[1..], now, window))[1..] == Recent(ts[1..], now, window);
      }
    }
  }

  /** From time c on, the stored timestamps never count fewer reboots in the window than the log does. */
  ghost predicate Covers(stored: seq<real>, log: seq<real>, c: real, window: real) {
    forall now :: now >= c ==> |Recent(log, now, window)| <= |Recent(stored, now, window)|
  }

  lemma CoversAfterPrune(stored: seq<real>, log: seq<real>, c: real, now: real, window: real)
    requires Covers(stored, log, c, window) && c <= now
    ensures Covers(Recent(stored, now, window), log, now, window)
  {
    forall later | later >= now
      ensures |Recent(log, later, window)| <= |Recent(Recent(stored, now, window), later, window)|
    {
      RecentOfRecent(stored, now, later, window);
    }
  }

  lemma CoversAfterReboot(stored: seq<real>, log: seq<real>, now: real, window: real)
    requires Covers(stored, log, now, window)
    ensures Covers(stored + [now], log + [now], now, window)
  {
    forall later | later >= now
      ensures |Recent(log + [now], later, window)| <= |Recent(stored + [now], later, window)|
    {
      RecentAppend(log, now, later, window);
      RecentAppend(stored, now, later, window);
    }
  }

  /** Times before c - 1 are out of every window of at most two days that a stale restart could meet. */
  lemma {:induction false} NothingRecent(log: seq<real>, now: real, window: real)
    requires forall i :: 0 <= i < |log| ==> now - log[i] > window
    ensures Recent(log, now, window) == []
  {
    if log != [] {
      NothingRecent(log[1..], now, window);
    }
  }

  lemma {:induction false} CountInRecent(log: seq<real>, a: real, now: real, window: real)
    requires a <= now <= a + window
    ensures CountIn(log, a, window) <= |Recent(log, now, window)|
  {
    if log != [] {
      var n := |log| - 1;
      CountInRecent(log[..n], a, now, window);
      RecentAppend(log[..n], log[n], now, window);
      assert log == log[..n] + [log[n]];
    }
  }

  ghost predicate AtMostPerWindow(log: seq<real>, window: real, limit: int) {
    forall a :: CountIn(log, a, window) <= limit
  }

  /** One more reboot, made below the limit, leaves every window within the limit. */
  lemma WindowsAfterReboot(log: seq<real>, now: real, window: real, limit: nat)
    requires AtMostPerWindow(log, window, limit) && |Recent(log, now, window)| < limit
    ensures AtMostPerWindow(log + [now], window, limit)
  {
    forall a ensures CountIn(log + [now], a, window) <= limit {
      assert (log + [now])[..|log|] == log;
      assert CountIn(log, a, window) <= limit;
      if a <= now <= a + window {
        CountInRecent(log, a, now, window);
      }
    }
  }

  /** The clock never steps back: not between actions, nor within one. */
  ghost predicate Monotone(actions: seq<Action>) {
    (forall i :: 0 <= i < |actions| && !actions[i].Restart? && actions[i].savedAt.Some? ==>
       actions[i].now <= actions[i].savedAt.value) &&
    (forall i, j :: 0 <= i < j < |actions| ==> LastClock(actions[i]) <= actions[j].now)
  }

  function LastClock(a: Action): real {
    if !a.Restart? && a.savedAt.Some? then MaxReal(a.now, a.savedAt.value) else a.now
  }

  /** The process does not undercount the log in any window from time c on, and the log is within the
      limit. */
  ghost predicate MemoryCovers(cfg: Config, w: World, k: Key, log: seq<real>, c: real) {
    Covers(MinerAt(w.miners, k).autoReboots, log, c, cfg.window) &&
    AtMostPerWindow(log, cfg.window, MaxInt(0, cfg.maxPerWindow))
  }

  ghost predicate FileCovers(cfg: Config, w: World, k: Key, log: seq<real>, c: real) {
    w.disk.Some? && Covers(MinerAt(w.disk.value.miners, k).autoReboots, log, c, cfg.window) &&
    forall i :: 0 <= i < |log| ==> log[i] < w.disk.value.savedAt as real + 1.0
  }

  /** The invariant behind the window limit: for the memory always, for the file whenever it is not behind. */
  ghost predicate WindowInvariant(cfg: Config, w: World, k: Key, log: seq<real>, c: real, dirty: bool) {
    MemoryCovers(cfg, w, k, log, c) && (forall i :: 0 <= i < |log| ==> log[i] <= c) &&
    (log != [] && !dirty ==> FileCovers(cfg, w, k, log, c))
  }

  /** The miner's pruned list, and with it the log, grows only below the limit. */
  lemma WindowAfterTick(cfg: Config, w: World, a: Action, k: Key, log: seq<real>, c: real)
    requires a.FleetTick? && c <= a.now && MemoryCovers(cfg, w, k, log, c)
    ensures
      var o := OutcomeFor(cfg, w, k, a.readings(k), a.now);
      var log' := log + if o.decision.Rebooted? then [a.now] else [];
      Covers(o.miner.autoReboots, log', a.now, cfg.window) &&
      AtMostPerWindow(log', cfg.window, MaxInt(0, cfg.maxPerWindow))
  {
    hide TickMiner, InterlockFor, Recent;
    var m := MinerAt(w.miners, k);
    var r := a.readings(k);
    var d := InterlockFor(cfg, w, k, r, a.now);
    TickRecordsReboots(cfg, w.processStart, m, r, a.now, d);
    CoversAfterPrune(m.autoReboots, log, c, a.now, cfg.window);
    var recent := Recent(m.autoReboots, a.now, cfg.window);
    if TickMiner(cfg, w.processStart, m, r, a.now, d).decision.Rebooted? {
      CoversAfterReboot(recent, log, a.now, cfg.window);
      assert |Recent(log, a.now, cfg.window)| <= |Recent(m.autoReboots, a.now, cfg.window)|;
      WindowsAfterReboot(log, a.now, cfg.window, cfg.maxPerWindow);
    } else {
      assert log + [] == log;
    }
  }

  lemma CoversLater(stored: seq<real>, log: seq<real>, c: real, later: real, window: real)
    requires Covers(stored, log, c, window) && c <= later
    ensures Covers(stored, log, later, window)
  {
  }

  lemma EmptyLogIsCovered(stored: seq<real>, c: real, window: real)
    ensures Covers(stored, [], c, window)
  {
  }

  lemma WindowLater(cfg: Config, w: World, k: Key, log: seq<real>, c: real, later: real)
    requires c <= later
    ensures MemoryCovers(cfg, w, k, log, c) ==> MemoryCovers(cfg, w, k, log, later)
    ensures FileCovers(cfg, w, k, log, c) ==> FileCovers(cfg, w, k, log, later)
  {
  }

  lemma TickLeaves(cfg: Config, keys: set<Key>, w: World, a: Action, k: Key)
    requires a.FleetTick?
    ensures
      var w' := Step(cfg, keys, w, a);
      MinerAt(w'.miners, k) ==
        (if k in keys then OutcomeFor(cfg, w, k, a.readings(k), a.now).miner else MinerAt(w.miners, k)) &&
      w'.disk == if a.savedAt.Some? then Some(Saved(a.savedAt.value.Floor, w'.miners)) else w.disk
  {
    hide OutcomeFor;
  }

  lemma WindowStepOnTick(cfg: Config, keys: set<Key>, w: World, a: Action, k: Key, log: seq<real>, c: real, dirty: bool)
    requires a.FleetTick? && c <= a.now && (a.savedAt.Some? ==> a.now <= a.savedAt.value)
    requires WindowInvariant(cfg, w, k, log, c, dirty)
    ensures
      var reboots := k in keys && OutcomeFor(cfg, w, k, a.readings(k), a.now).decision.Rebooted?;
      WindowInvariant(cfg, Step(cfg, keys, w, a), k, log + (if reboots then [a.now] else []), LastClock(a),
                      a.savedAt.None? && (dirty || reboots))
  {
    hide OutcomeFor, Covers, AtMostPerWindow, Step, MinerAt;
    var later := LastClock(a);
    TickLeaves(cfg, keys, w, a, k);
    WindowLater(cfg, w, k, log, c, later);
    if k in keys {
      WindowAfterTick(cfg, w, a, k, log, c);
      var o := OutcomeFor(cfg, w, k, a.readings(k), a.now);
      CoversLater(o.miner.autoReboots, log + (if o.decision.Rebooted? then [a.now] else []), a.now, later, cfg.window);
    }
    assert log + [] == log;
  }

  lemma WindowStepOnRestart(cfg: Config, keys: set<Key>, w: World, a: Action, k: Key, log: seq<real>, c: real)
    requires a.Restart? && c <= a.now && WindowInvariant(cfg, w, k, log, c, false)
    requires cfg.window <= STALE_AFTER as real - 1.0 || (w.disk.Some? ==> !Stale(w.disk.value, a.now))
    ensures WindowInvariant(cfg, Step(cfg, keys, w, a), k, log, a.now, false)
  {
    hide Covers, AtMostPerWindow;
    WindowLater(cfg, w, k, log, c, a.now);
    if log == [] {
      EmptyLogIsCovered(MinerAt(Load(w.disk, a.now), k).autoReboots, a.now, cfg.window);
    } else if Stale(w.disk.value, a.now) {
      StaleLogIsOver(log, w.disk.value.savedAt, a.now, cfg.window);
    }
  }

  lemma WindowStep(cfg: Config, keys: set<Key>, w: World, a: Action, k: Key, log: seq<real>, c: real, dirty: bool)
    requires c <= a.now && (!a.Restart? && a.savedAt.Some? ==> a.now <= a.savedAt.value)
    requires a.Restart? ==>
      !dirty && (cfg.window <= STALE_AFTER as real - 1.0 || (w.disk.Some? ==> !Stale(w.disk.value, a.now)))
    requires WindowInvariant(cfg, w, k, log, c, dirty)
    ensures
      var reboots := a.FleetTick? && k in keys && OutcomeFor(cfg, w, k, a.readings(k), a.now).decision.Rebooted?;
      var dirty' := !a.Restart? && a.savedAt.None? && (dirty || reboots);
      WindowInvariant(cfg, Step(cfg, keys, w, a), k, log + (if reboots then [a.now] else []), LastClock(a), dirty')
  {
    assert log + [] == log;
    match a
    case FleetTick(_, _, _, _) =>
      hide *;
      WindowStepOnTick(cfg, keys, w, a, k, log, c, dirty);
    case ManualAction(_, _, _) =>
      hide Covers, AtMostPerWindow, OutcomeFor;
      WindowLater(cfg, w, k, log, c, LastClock(a));
    case Restart(_) =>
      hide *;
      WindowStepOnRestart(cfg, keys, w, a, k, log, c);
  }

  /** When the state file is dropped as stale, every reboot it remembered has left the window. */
  lemma StaleLogIsOver(log: seq<real>, savedAt: int, now: real, window: real)
    requires forall i :: 0 <= i < |log| ==> log[i] < savedAt as real + 1.0
    requires now - savedAt as real > STALE_AFTER as real && window <= STALE_AFTER as real - 1.0
    ensures Covers([], log, now, window)
  {
    forall later | later >= now ensures Recent(log, later, window) == [] {
      NothingRecent(log, later, window);
    }
  }

  lemma {:induction false} RunKeepsWindowInvariant(cfg: Config, keys: set<Key>, start: World, actions: seq<Action>,
                                                   n: nat, k: Key)
    requires n < |actions|
    requires Monotone(actions) && RestartsLoseNothingWithin(cfg, keys, start, actions, k, cfg.window)
    ensures WindowInvariant(cfg, At(cfg, keys, start, actions, n), k, Reboots(cfg, keys, start, actions, n, k),
                            actions[n].now, IsDirty(cfg, keys, start, actions, n, k))
    ensures WindowInvariant(cfg, At(cfg, keys, start, actions, n + 1), k, Reboots(cfg, keys, start, actions, n + 1, k),
                            LastClock(actions[n]), IsDirty(cfg, keys, start, actions, n + 1, k))
  {
    hide Step, OutcomeFor, WindowInvariant;
    if n > 0 {
      RunKeepsWindowInvariant(cfg, keys, start, actions, n - 1, k);
      InvariantLater(cfg, At(cfg, keys, start, actions, n), k, Reboots(cfg, keys, start, actions, n, k),
                     LastClock(actions[n - 1]), actions[n].now, IsDirty(cfg, keys, start, actions, n, k));
    } else {
      InvariantAtStart(cfg, start, k, actions[0].now);
    }
    WindowStep(cfg, keys, At(cfg, keys, start, actions, n), actions[n], k, Reboots(cfg, keys, start, actions, n, k),
               actions[n].now, IsDirty(cfg, keys, start, actions, n, k));
  }

  lemma InvariantLater(cfg: Config, w: World, k: Key, log: seq<real>, c: real, later: real, dirty: bool)
    requires WindowInvariant(cfg, w, k, log, c, dirty) && c <= later
    ensures WindowInvariant(cfg, w, k, log, later, dirty)
  {
    CoversLater(MinerAt(w.miners, k).autoReboots, log, c, later, cfg.window);
    if log != [] && !dirty {
      CoversLater(MinerAt(w.disk.value.miners, k).autoReboots, log, c, later, cfg.window);
    }
  }

  lemma InvariantAtStart(cfg: Config, w: World, k: Key, c: real)
    ensures WindowInvariant(cfg, w, k, [], c, false)
  {
  }

  /** Over every run with a clock that never steps back, every closed window holds at most
      max_reboots_per_window successful automatic reboots of a miner, as long as no restart loses one that is
      within the window. Writes may fail and files may go stale otherwise. */
  lemma {:induction false} RebootsPerWindow(cfg: Config, keys: set<Key>, start: World, actions: seq<Action>, k: Key,
                                            a: real)
    requires Monotone(actions) && RestartsLoseNothingWithin(cfg, keys, start, actions, k, cfg.window)
    ensures CountIn(Reboots(cfg, keys, start, actions, |actions|, k), a, cfg.window) <= MaxInt(0, cfg.maxPerWindow)
  {
    if actions != [] {
      hide Step, OutcomeFor;
      RunKeepsWindowInvariant(cfg, keys, start, actions, |actions| - 1, k);
    }
  }

  /** One process needs neither a single successful write nor a short window: while nothing restarts, the
      cooldown holds whatever the clock does, and the window limit if it never steps back. */
  lemma {:induction false} OneProcessIsLimited(cfg: Config, keys: set<Key>, start: World, actions: seq<Action>, k: Key)
    requires forall i :: 0 <= i < |actions| ==> !actions[i].Restart?
    ensures cfg.cooldown > 0.0 ==> Spaced(Reboots(cfg, keys, start, actions, |actions|, k), cfg.cooldown)
    ensures Monotone(actions) ==>
      AtMostPerWindow(Reboots(cfg, keys, start, actions, |actions|, k), cfg.window, MaxInt(0, cfg.maxPerWindow))
  {
    hide Spaced, Monotone, Reboots;
    if cfg.cooldown > 0.0 {
      RebootsAreSpaced(cfg, keys, start, actions, |actions|, k);
    }
    if Monotone(actions) {
      forall a
        ensures CountIn(Reboots(cfg, keys, start, actions, |actions|, k), a, cfg.window) <= MaxInt(0, cfg.maxPerWindow)
      {
        RebootsPerWindow(cfg, keys, start, actions, k, a);
      }
    }
  }

  // ---------- cooldown with stale files ----------

  /** The reboot at t is remembered by the miner, or it is a cooldown old by time c. */
  ghost predicate RemembersOne(miners: map<Key, Miner>, k: Key, t: real, cooldown: real, c: real) {
    t + cooldown <= c || (k in miners && miners[k].lastAuto.Some? && t <= miners[k].lastAuto.value)
  }

  ghost predicate RemembersRecent(miners: map<Key, Miner>, k: Key, log: seq<real>, cooldown: real, c: real) {
    forall i :: 0 <= i < |log| ==> RemembersOne(miners, k, log[i], cooldown, c)
  }

  ghost predicate CooldownInvariant(cfg: Config, w: World, k: Key, log: seq<real>, c: real, dirty: bool) {
    RemembersRecent(w.miners, k, log, cfg.cooldown, c) &&
    (log != [] && !dirty ==>
       w.disk.Some? && RemembersRecent(w.disk.value.miners, k, log, cfg.cooldown, c) &&
       forall i :: 0 <= i < |log| ==> log[i] < w.disk.value.savedAt as real + 1.0)
  }

  lemma RemembersLater(miners: map<Key, Miner>, k: Key, log: seq<real>, cooldown: real, c: real, later: real)
    requires RemembersRecent(miners, k, log, cooldown, c) && c <= later
    ensures RemembersRecent(miners, k, log, cooldown, later)
  {
    forall i | 0 <= i < |log| ensures RemembersOne(miners, k, log[i], cooldown, later) {
      assert RemembersOne(miners, k, log[i], cooldown, c);
    }
  }

  /** The miner itself after a tick: a reboot comes a cooldown after every logged one. */
  lemma CooldownAfterTick(cfg: Config, w: World, a: Action, k: Key, log: seq<real>, miners: map<Key, Miner>)
    requires a.FleetTick? && cfg.cooldown > 0.0
    requires RemembersRecent(w.miners, k, log, cfg.cooldown, a.now)
    requires k in miners && miners[k] == OutcomeFor(cfg, w, k, a.readings(k), a.now).miner
    ensures
      var reboots := OutcomeFor(cfg, w, k, a.readings(k), a.now).decision.Rebooted?;
      RemembersRecent(miners, k, log + (if reboots then [a.now] else []), cfg.cooldown, a.now) &&
      (reboots ==> forall i :: 0 <= i < |log| ==> a.now >= log[i] + cfg.cooldown)
  {
    var m, d := MinerAt(w.miners, k), InterlockFor(cfg, w, k, a.readings(k), a.now);
    hide TickMiner, InterlockFor;
    TickRecordsReboots(cfg, w.processStart, m, a.readings(k), a.now, d);
    if TickMiner(cfg, w.processStart, m, a.readings(k), a.now, d).decision.Rebooted? {
      RebootAfterCooldown(cfg, w.processStart, m, a.readings(k), a.now, d);
    }
    forall i | 0 <= i < |log| ensures RemembersOne(miners, k, log[i], cfg.cooldown, a.now) {
      assert RemembersOne(w.miners, k, log[i], cfg.cooldown, a.now);
    }
    assert log + [] == log;
  }

  /** A restart that drops the file as stale drops only reboots that are a cooldown old. */
  lemma CooldownAfterRestart(cfg: Config, w: World, now: real, k: Key, log: seq<real>)
    requires CooldownInvariant(cfg, w, k, log, now, false)
    requires cfg.cooldown <= STALE_AFTER as real - 1.0 || (w.disk.Some? ==> !Stale(w.disk.value, now))
    ensures RemembersRecent(Load(w.disk, now), k, log, cfg.cooldown, now)
  {
    forall i | 0 <= i < |log| ensures RemembersOne(Load(w.disk, now), k, log[i], cfg.cooldown, now) {
      assert RemembersOne(w.disk.value.miners, k, log[i], cfg.cooldown, now);
    }
  }

  lemma CooldownStep(cfg: Config, keys: set<Key>, w: World, a: Action, k: Key, log: seq<real>, c: real, dirty: bool)
    requires c <= a.now && (!a.Restart? && a.savedAt.Some? ==> a.now <= a.savedAt.value) && cfg.cooldown > 0.0
    requires a.Restart? ==>
      !dirty && (cfg.cooldown <= STALE_AFTER as real - 1.0 || (w.disk.Some? ==> !Stale(w.disk.value, a.now)))
    requires CooldownInvariant(cfg, w, k, log, c, dirty) && Spaced(log, cfg.cooldown)
    requires forall i :: 0 <= i < |log| ==> log[i] <= c
    ensures
      var reboots := a.FleetTick? && k in keys && OutcomeFor(cfg, w, k, a.readings(k), a.now).decision.Rebooted?;
      var dirty' := !a.Restart? && a.savedAt.None? && (dirty || reboots);
      var log' := log + (if reboots then [a.now] else []);
      CooldownInvariant(cfg, Step(cfg, keys, w, a), k, log', a.now, dirty') && Spaced(log', cfg.cooldown)
  {
    hide OutcomeFor, RemembersRecent, Stale;
    RemembersLater(w.miners, k, log, cfg.cooldown, c, a.now);
    if w.disk.Some? && log != [] && !dirty {
      RemembersLater(w.disk.value.miners, k, log, cfg.cooldown, c, a.now);
    }
    assert log + [] == log;
    var w' := Step(cfg, keys, w, a);
    match a
    case FleetTick(now, readings, _, savedAt) =>
      if k in keys {
        CooldownAfterTick(cfg, w, a, k, log, w'.miners);
      } else {
        SameMinerRemembers(w.miners, w'.miners, k, log, cfg.cooldown, now);
      }
    case ManualAction(_, now, _) =>
      SameMinerRemembers(w.miners, w'.miners, k, log, cfg.cooldown, now);
    case Restart(now) =>
      if log == [] {
        NothingToRemember(w'.miners, k, cfg.cooldown, now);
      } else {
        CooldownAfterRestart(cfg, w, now, k, log);
      }
  }

  lemma NothingToRemember(miners: map<Key, Miner>, k: Key, cooldown: real, c: real)
    ensures RemembersRecent(miners, k, [], cooldown, c)
  {
  }

  lemma SameMinerRemembers(miners: map<Key, Miner>, after: map<Key, Miner>, k: Key, log: seq<real>, cooldown: real,
                           c: real)
    requires RemembersRecent(miners, k, log, cooldown, c)
    requires k in miners ==> k in after && after[k].lastAuto == miners[k].lastAuto
    ensures RemembersRecent(after, k, log, cooldown, c)
  {
    forall i | 0 <= i < |log| ensures RemembersOne(after, k, log[i], cooldown, c) {
      assert RemembersOne(miners, k, log[i], cooldown, c);
    }
  }

  lemma CooldownInvariantLater(cfg: Config, w: World, k: Key, log: seq<real>, c: real, later: real, dirty: bool)
    requires CooldownInvariant(cfg, w, k, log, c, dirty) && c <= later
    ensures CooldownInvariant(cfg, w, k, log, later, dirty)
  {
    RemembersLater(w.miners, k, log, cfg.cooldown, c, later);
    if log != [] && !dirty {
      RemembersLater(w.disk.value.miners, k, log, cfg.cooldown, c, later);
    }
  }

  lemma {:induction false} RunKeepsCooldown(cfg: Config, keys: set<Key>, start: World, actions: seq<Action>, n: nat,
                                            k: Key)
    requires 0 < n <= |actions| && cfg.cooldown > 0.0
    requires Monotone(actions) && RestartsLoseNothingWithin(cfg, keys, start, actions, k, cfg.cooldown)
    ensures
      var log, dirty := Reboots(cfg, keys, start, actions, n, k), IsDirty(cfg, keys, start, actions, n, k);
      CooldownInvariant(cfg, At(cfg, keys, start, actions, n), k, log, actions[n - 1].now, dirty) &&
      Spaced(log, cfg.cooldown) && forall i :: 0 <= i < |log| ==> log[i] <= actions[n - 1].now
  {
    hide Step, OutcomeFor, CooldownInvariant, Spaced, At, Reboots, IsDirty, DecisionAt, Stale;
    var log, w, a := Reboots(cfg, keys, start, actions, n - 1, k), At(cfg, keys, start, actions, n - 1), actions[n - 1];
    var dirty := IsDirty(cfg, keys, start, actions, n - 1, k);
    OneMoreAction(cfg, keys, start, actions, n, k);
    if n > 1 {
      RunKeepsCooldown(cfg, keys, start, actions, n - 1, k);
      CooldownInvariantLater(cfg, w, k, log, actions[n - 2].now, a.now, dirty);
    } else {
      NothingYet(cfg, keys, start, actions, k);
      NoCooldownYet(cfg, w, k, a.now);
    }
    CooldownStep(cfg, keys, w, a, k, log, a.now, dirty);
  }

  lemma OneMoreAction(cfg: Config, keys: set<Key>, start: World, actions: seq<Action>, n: nat, k: Key)
    requires 0 < n <= |actions|
    ensures
      var w, a := At(cfg, keys, start, actions, n - 1), actions[n - 1];
      var reboots := a.FleetTick? && k in keys && OutcomeFor(cfg, w, k, a.readings(k), a.now).decision.Rebooted?;
      At(cfg, keys, start, actions, n) == Step(cfg, keys, w, a) &&
      Reboots(cfg, keys, start, actions, n, k) ==
        Reboots(cfg, keys, start, actions, n - 1, k) + (if reboots then [a.now] else []) &&
      IsDirty(cfg, keys, start, actions, n, k) ==
        (!a.Restart? && a.savedAt.None? && (IsDirty(cfg, keys, start, actions, n - 1, k) || reboots))
  {
    hide Step, OutcomeFor;
  }

  lemma NothingYet(cfg: Config, keys: set<Key>, start: World, actions: seq<Action>, k: Key)
    ensures Reboots(cfg, keys, start, actions, 0, k) == [] && !IsDirty(cfg, keys, start, actions, 0, k)
  {
  }

  lemma NoCooldownYet(cfg: Config, w: World, k: Key, c: real)
    ensures CooldownInvariant(cfg, w, k, [], c, false) && Spaced([], cfg.cooldown)
  {
  }

  /** The same spacing when files do go stale, for a clock that never steps back: what matters is that no
      restart loses a reboot less than a cooldown old. */
  lemma {:induction false} RebootsAreSpacedAcrossStaleFiles(cfg: Config, keys: set<Key>, start: World,
                                                            actions: seq<Action>, k: Key)
    requires cfg.cooldown > 0.0
    requires Monotone(actions) && RestartsLoseNothingWithin(cfg, keys, start, actions, k, cfg.cooldown)
    ensures Spaced(Reboots(cfg, keys, start, actions, |actions|, k), cfg.cooldown)
  {
    hide Step, OutcomeFor;
    if actions != [] {
      RunKeepsCooldown(cfg, keys, start, actions, |actions|, k);
    }
  }
}
