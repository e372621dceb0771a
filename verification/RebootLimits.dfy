/** How far the reboot limits hold over all runs, with no assumption about what is written to the state file,
    when it is dropped, or when the process restarts. */
module RebootLimits {
  import opened Common
  import opened RebootSafety
  import opened MinerTick
  import opened Fleet
  import opened RebootLaws
  import opened RebootRate

  /** The least time from the start of a process to its first reboot. */
  function RestartDelay(cfg: Config): real {
    MaxReal(0.0, MaxReal(cfg.lowSustained, cfg.startupGuard))
  }

  /** The least time between two reboots by one process. */
  function RepeatDelay(cfg: Config): real {
    MaxReal(0.0, MaxReal(cfg.lowSustained, cfg.cooldown))
  }

  function Gap(cfg: Config): real {
    if RestartDelay(cfg) <= RepeatDelay(cfg) then RestartDelay(cfg) else RepeatDelay(cfg)
  }

  predicate CanReboot(cfg: Config) {
    !cfg.actionsBlocked && cfg.maxPerWindow >= 1
  }

  /** The least time in which one reboot more than the limit fits: at least one restart lies between them. */
  function ShortestExcess(cfg: Config): real {
    RestartDelay(cfg) + (cfg.maxPerWindow - 1) as real * Gap(cfg)
  }

  // ---------- the reboots of a run, with the process that made them ----------

  datatype Mark = Mark(at: real, process: nat)

  /** The number of restarts so far. */
  function ProcessAt(actions: seq<Action>, n: nat): nat
    requires n <= |actions|
  {
    if n == 0 then 0 else ProcessAt(actions, n - 1) + if actions[n - 1].Restart? then 1 else 0
  }

  function Marks(cfg: Config, keys: set<Key>, start: World, actions: seq<Action>, n: nat, k: Key): seq<Mark>
    requires n <= |actions|
  {
    if n == 0 then []
    else
      Marks(cfg, keys, start, actions, n - 1, k) +
      if DecisionAt(cfg, keys, start, actions, n - 1, k).Rebooted?
      then [Mark(actions[n - 1].now, ProcessAt(actions, n - 1))] else []
  }

  function Times(marks: seq<Mark>): seq<real> {
    seq(|marks|, i requires 0 <= i < |marks| => marks[i].at)
  }

  lemma {:induction false} MarksAreReboots(cfg: Config, keys: set<Key>, start: World, actions: seq<Action>, n: nat,
                                           k: Key)
    requires n <= |actions|
    ensures Times(Marks(cfg, keys, start, actions, n, k)) == Reboots(cfg, keys, start, actions, n, k)
  {
    hide DecisionAt;
    if n > 0 {
      MarksAreReboots(cfg, keys, start, actions, n - 1, k);
    }
  }

  /** The times of one process. */
  function Of(marks: seq<Mark>, p: nat): seq<real> {
    if marks == [] then []
    else
      var n := |marks| - 1;
      Of(marks[..n], p) + if marks[n].process == p then [marks[n].at] else []
  }

  lemma OfOneMore(marks: seq<Mark>, mark: Mark, p: nat)
    ensures Of(marks + [mark], p) == Of(marks, p) + if mark.process == p then [mark.at] else []
  {
    assert (marks + [mark])[..|marks|] == marks;
  }

  lemma {:induction false} OfLater(marks: seq<Mark>, p: nat)
    requires forall i :: 0 <= i < |marks| ==> marks[i].process < p
    ensures Of(marks, p) == []
  {
    if marks != [] {
      OfLater(marks[..|marks| - 1], p);
    }
  }

  predicate Follows(cfg: Config, a: Mark, b: Mark) {
    a.process <= b.process &&
    b.at >= a.at + if a.process == b.process then RepeatDelay(cfg) else RestartDelay(cfg)
  }

  ghost predicate Ordered(cfg: Config, marks: seq<Mark>) {
    forall i :: 0 < i < |marks| ==> Follows(cfg, marks[i - 1], marks[i])
  }

  // ---------- what every run keeps ----------

  /** What the process knows of the last reboot: the timer runs from later on; if it made the reboot itself it
      has its time, and otherwise it started later. */
  ghost predicate TimerAfter(w: World, k: Key, last: Mark, p: nat) {
    var m := MinerAt(w.miners, k);
    (m.lowSince.Some? ==> m.lowSince.value >= last.at) &&
    if last.process == p then m.lastAuto.Some? && m.lastAuto.value >= last.at else w.processStart >= last.at
  }

  ghost predicate MarksInvariant(cfg: Config, w: World, k: Key, marks: seq<Mark>, p: nat, c: real) {
    Ordered(cfg, marks) && (forall i :: 0 <= i < |marks| ==> marks[i].at <= c && marks[i].process <= p) &&
    (forall q :: AtMostPerWindow(Of(marks, q), cfg.window, MaxInt(0, cfg.maxPerWindow))) &&
    Covers(MinerAt(w.miners, k).autoReboots, Of(marks, p), c, cfg.window) &&
    (marks != [] ==> TimerAfter(w, k, marks[|marks| - 1], p))
  }

  lemma TimerSources(cfg: Config, processStart: real, m: Miner, r: Reading, now: real, d: InterlockDecision)
    ensures
      var o := TickMiner(cfg, processStart, m, r, now, d);
      o.miner.lowSince.Some? ==>
        (o.miner.lowSince == m.lowSince || o.miner.lowSince == Some(now)) && !o.decision.Rebooted?
  {
    hide Recent, InCooldown, Classify, Confirm;
  }

  /** A reboot comes late enough after the last one. */
  lemma RebootFollows(cfg: Config, w: World, k: Key, r: Reading, now: real, last: Mark, p: nat)
    requires TimerAfter(w, k, last, p) && last.at <= now && last.process <= p
    requires OutcomeFor(cfg, w, k, r, now).decision.Rebooted?
    ensures Follows(cfg, last, Mark(now, p)) && CanReboot(cfg)
  {
    var m, d := MinerAt(w.miners, k), InterlockFor(cfg, w, k, r, now);
    hide TickMiner, InterlockFor, Observe, Recent, UptimeReset;
    IssuedExactly(cfg, w.processStart, m, r, now, d);
  }

  lemma OutcomeAfter(cfg: Config, w: World, k: Key, r: Reading, now: real)
    ensures
      var m, o := MinerAt(w.miners, k), OutcomeFor(cfg, w, k, r, now);
      (o.miner.lowSince.Some? ==>
         (o.miner.lowSince == m.lowSince || o.miner.lowSince == Some(now)) && !o.decision.Rebooted?) &&
      o.miner.lastAuto == if o.decision.Rebooted? then Some(now) else m.lastAuto
  {
    var m, d := MinerAt(w.miners, k), InterlockFor(cfg, w, k, r, now);
    hide TickMiner, InterlockFor;
    TimerSources(cfg, w.processStart, m, r, now, d);
    TickRecordsReboots(cfg, w.processStart, m, r, now, d);
  }

  lemma MarksLater(cfg: Config, w: World, k: Key, marks: seq<Mark>, p: nat, c: real, later: real)
    requires MarksInvariant(cfg, w, k, marks, p, c) && c <= later
    ensures MarksInvariant(cfg, w, k, marks, p, later)
  {
    hide AtMostPerWindow, Ordered, TimerAfter;
  }

  /** The parts of the invariant that a tick with a reboot adds to. */
  lemma OneMoreMark(cfg: Config, w: World, a: Action, k: Key, marks: seq<Mark>, p: nat)
    requires a.FleetTick? && MarksInvariant(cfg, w, k, marks, p, a.now)
    requires OutcomeFor(cfg, w, k, a.readings(k), a.now).decision.Rebooted?
    ensures
      var marks', o := marks + [Mark(a.now, p)], OutcomeFor(cfg, w, k, a.readings(k), a.now);
      Ordered(cfg, marks') && (forall q :: AtMostPerWindow(Of(marks', q), cfg.window, MaxInt(0, cfg.maxPerWindow))) &&
      Covers(o.miner.autoReboots, Of(marks', p), a.now, cfg.window)
  {
    hide OutcomeFor, AtMostPerWindow, Covers, TimerAfter, Of, Follows;
    var mark := Mark(a.now, p);
    WindowAfterTick(cfg, w, a, k, Of(marks, p), a.now);
    forall q ensures AtMostPerWindow(Of(marks + [mark], q), cfg.window, MaxInt(0, cfg.maxPerWindow)) {
      OfOneMore(marks, mark, q);
      assert Of(marks, q) + [] == Of(marks, q);
    }
    OfOneMore(marks, mark, p);
    if marks != [] {
      RebootFollows(cfg, w, k, a.readings(k), a.now, marks[|marks| - 1], p);
    }
  }

  lemma MarksAfterTick(cfg: Config, keys: set<Key>, w: World, a: Action, k: Key, marks: seq<Mark>, p: nat)
    requires a.FleetTick? && k in keys && MarksInvariant(cfg, w, k, marks, p, a.now)
    ensures
      var o := OutcomeFor(cfg, w, k, a.readings(k), a.now);
      MarksInvariant(cfg, Step(cfg, keys, w, a), k, marks + (if o.decision.Rebooted? then [Mark(a.now, p)] else []), p,
                     a.now)
  {
    hide OutcomeFor, AtMostPerWindow, Covers, Of, Ordered, TickedSignals;
    var o := OutcomeFor(cfg, w, k, a.readings(k), a.now);
    assert MinerAt(Step(cfg, keys, w, a).miners, k) == o.miner;
    OutcomeAfter(cfg, w, k, a.readings(k), a.now);
    assert marks + [] == marks;
    if o.decision.Rebooted? {
      OneMoreMark(cfg, w, a, k, marks, p);
    } else {
      WindowAfterTick(cfg, w, a, k, Of(marks, p), a.now);
      assert Of(marks, p) + [] == Of(marks, p);
    }
  }

  lemma MarksAfterRestart(cfg: Config, keys: set<Key>, w: World, a: Action, k: Key, marks: seq<Mark>, p: nat)
    requires a.Restart? && MarksInvariant(cfg, w, k, marks, p, a.now)
    ensures MarksInvariant(cfg, Step(cfg, keys, w, a), k, marks, p + 1, a.now)
  {
    hide AtMostPerWindow, Ordered, Covers;
    OfLater(marks, p + 1);
    hide Of;
    EmptyLogIsCovered(MinerAt(Load(w.disk, a.now), k).autoReboots, a.now, cfg.window);
  }

  lemma MarksAfterOther(cfg: Config, keys: set<Key>, w: World, a: Action, k: Key, marks: seq<Mark>, p: nat)
    requires a.ManualAction? || (a.FleetTick? && k !in keys)
    requires MarksInvariant(cfg, w, k, marks, p, a.now)
    ensures MarksInvariant(cfg, Step(cfg, keys, w, a), k, marks, p, a.now)
  {
    hide AtMostPerWindow, Ordered, Covers, Of, OutcomeFor;
  }

  lemma NoMarksYet(cfg: Config, w: World, k: Key, p: nat, c: real)
    ensures MarksInvariant(cfg, w, k, [], p, c)
  {
  }

  lemma {:induction false} RunKeepsMarks(cfg: Config, keys: set<Key>, start: World, actions: seq<Action>, n: nat,
                                         k: Key)
    requires 0 < n <= |actions| && Monotone(actions)
    ensures MarksInvariant(cfg, At(cfg, keys, start, actions, n), k, Marks(cfg, keys, start, actions, n, k),
                           ProcessAt(actions, n), actions[n - 1].now)
  {
    hide Step, OutcomeFor, MarksInvariant;
    var w, a := At(cfg, keys, start, actions, n - 1), actions[n - 1];
    var marks, p := Marks(cfg, keys, start, actions, n - 1, k), ProcessAt(actions, n - 1);
    if n > 1 {
      RunKeepsMarks(cfg, keys, start, actions, n - 1, k);
      MarksLater(cfg, w, k, marks, p, actions[n - 2].now, a.now);
    } else {
      NoMarksYet(cfg, w, k, p, a.now);
    }
    assert marks + [] == marks;
    if a.FleetTick? && k in keys {
      MarksAfterTick(cfg, keys, w, a, k, marks, p);
    } else if a.Restart? {
      MarksAfterRestart(cfg, keys, w, a, k, marks, p);
    } else {
      MarksAfterOther(cfg, keys, w, a, k, marks, p);
    }
  }

  // ---------- how much time reboots need ----------

  lemma OneGapMore(n: nat, gap: real)
    ensures (n + 1) as real * gap == n as real * gap + gap
  {
  }

  lemma {:induction false} SpanOf(cfg: Config, marks: seq<Mark>, i: nat, j: nat)
    requires Ordered(cfg, marks) && i <= j < |marks|
    ensures marks[i].process <= marks[j].process && marks[j].at >= marks[i].at + (j - i) as real * Gap(cfg)
    ensures marks[j].at >= marks[i].at && (i < j ==> marks[j].at >= marks[i].at + Gap(cfg))
    ensures marks[i].process != marks[j].process ==>
      i < j && marks[j].at >= marks[i].at + RestartDelay(cfg) + (j - i - 1) as real * Gap(cfg)
  {
    if i < j {
      SpanOf(cfg, marks, i, j - 1);
      assert Follows(cfg, marks[j - 1], marks[j]);
      OneGapMore(j - 1 - i, Gap(cfg));
      if i < j - 1 {
        OneGapMore(j - 2 - i, Gap(cfg));
      }
    }
  }

  /** The reboots inside a window are consecutive. */
  lemma {:induction false} CountIsRange(marks: seq<Mark>, a: real, width: real) returns (lo: nat, hi: nat)
    requires forall i, j :: 0 <= i < j < |marks| ==> marks[i].at <= marks[j].at
    ensures lo <= hi <= |marks| && CountIn(Times(marks), a, width) == hi - lo
    ensures forall x :: lo <= x < hi ==> a <= marks[x].at <= a + width
    ensures forall x :: hi <= x < |marks| ==> marks[x].at > a + width
  {
    if marks == [] {
      lo, hi := 0, 0;
    } else {
      var n := |marks| - 1;
      lo, hi := CountIsRange(marks[..n], a, width);
      assert Times(marks)[..n] == Times(marks[..n]);
      if a <= marks[n].at <= a + width {
        if hi < n {
          assert false;
        }
        hi := hi + 1;
      } else if marks[n].at <= a + width {
        if lo < hi {
          assert false;
        }
        lo, hi := n + 1, n + 1;
      }
    }
  }

  lemma {:induction false} OfCount(marks: seq<Mark>, p: nat, lo: nat, hi: nat, a: real, width: real)
    requires lo <= hi <= |marks|
    requires forall x :: lo <= x < hi ==> marks[x].process == p && a <= marks[x].at <= a + width
    ensures CountIn(Of(marks, p), a, width) >= hi - lo
  {
    if lo < hi {
      var n := |marks| - 1;
      OfCount(marks[..n], p, lo, if hi > n then n else hi, a, width);
      assert marks == marks[..n] + [marks[n]];
      OfOneMore(marks[..n], marks[n], p);
      CountOneMore(Of(marks[..n], p), marks[n].at, a, width);
      assert Of(marks[..n], p) + [] == Of(marks[..n], p);
    }
  }

  lemma CountOneMore(ts: seq<real>, t: real, a: real, width: real)
    ensures CountIn(ts + [t], a, width) == CountIn(ts, a, width) + if a <= t <= a + width then 1 else 0
  {
    assert (ts + [t])[..|ts|] == ts;
  }

  /** More reboots than the limit in one window need a restart among them, and so some time. */
  lemma {:induction false} ExcessTakesTime(cfg: Config, marks: seq<Mark>, a: real)
    requires Ordered(cfg, marks) && cfg.maxPerWindow >= 1
    requires forall q :: AtMostPerWindow(Of(marks, q), cfg.window, cfg.maxPerWindow)
    requires CountIn(Times(marks), a, cfg.window) > cfg.maxPerWindow
    ensures cfg.window >= ShortestExcess(cfg)
  {
    hide RestartDelay, RepeatDelay, Gap, CountIn, Of, Times, ShortestExcess;
    forall i, j | 0 <= i < j < |marks| ensures marks[i].at <= marks[j].at {
      SpanOf(cfg, marks, i, j);
    }
    var lo, hi := CountIsRange(marks, a, cfg.window);
    SpanOf(cfg, marks, lo, hi - 1);
    if marks[lo].process == marks[hi - 1].process {
      forall x | lo <= x < hi ensures marks[x].process == marks[lo].process {
        SpanOf(cfg, marks, lo, x);
        SpanOf(cfg, marks, x, hi - 1);
      }
      assert AtMostPerWindow(Of(marks, marks[lo].process), cfg.window, cfg.maxPerWindow);
      OfCount(marks, marks[lo].process, lo, hi, a, cfg.window);
      assert false;
    }
    var gaps := (hi - 1) - lo - 1;
    assert marks[hi - 1].at >= marks[lo].at + RestartDelay(cfg) + gaps as real * Gap(cfg);
    EnoughGaps(cfg, marks[hi - 1].at - marks[lo].at, gaps);
  }

  lemma EnoughGaps(cfg: Config, span: real, gaps: int)
    requires span <= cfg.window && gaps >= cfg.maxPerWindow - 1 && span >= RestartDelay(cfg) + gaps as real * Gap(cfg)
    ensures cfg.window >= ShortestExcess(cfg)
  {
    GapIsNotNegative(cfg);
    hide RestartDelay, Gap;
    MoreGaps(gaps, cfg.maxPerWindow - 1, Gap(cfg));
  }

  lemma GapIsNotNegative(cfg: Config)
    ensures Gap(cfg) >= 0.0
  {
  }

  lemma MoreGaps(n: int, least: int, gap: real)
    requires n >= least && gap >= 0.0
    ensures n as real * gap >= least as real * gap
  {
  }

  // ---------- both limits hold in every run while nothing can be lost ----------

  lemma {:induction false} NothingIsRebooted(cfg: Config, keys: set<Key>, start: World, actions: seq<Action>, n: nat,
                                             k: Key)
    requires n <= |actions| && !CanReboot(cfg)
    ensures Reboots(cfg, keys, start, actions, n, k) == []
  {
    if n > 0 {
      NothingIsRebooted(cfg, keys, start, actions, n - 1, k);
      if actions[n - 1].FleetTick? && k in keys {
        NeverReboots(cfg, At(cfg, keys, start, actions, n - 1), k, actions[n - 1].readings(k), actions[n - 1].now);
      }
      hide OutcomeFor, At;
    }
  }

  lemma NeverReboots(cfg: Config, w: World, k: Key, r: Reading, now: real)
    requires !CanReboot(cfg)
    ensures !OutcomeFor(cfg, w, k, r, now).decision.Rebooted?
  {
    var m, d := MinerAt(w.miners, k), InterlockFor(cfg, w, k, r, now);
    hide TickMiner, InterlockFor, Observe, UptimeReset;
    IssuedExactly(cfg, w.processStart, m, r, now, d);
  }

  lemma {:induction false} LimitHoldsInRun(cfg: Config, keys: set<Key>, start: World, actions: seq<Action>, k: Key,
                                           a: real)
    requires Monotone(actions) && (CanReboot(cfg) ==> cfg.window < ShortestExcess(cfg))
    ensures CountIn(Reboots(cfg, keys, start, actions, |actions|, k), a, cfg.window) <= MaxInt(0, cfg.maxPerWindow)
  {
    hide Reboots, Marks, At, AtMostPerWindow, Of, Ordered, ShortestExcess;
    if !CanReboot(cfg) {
      NothingIsRebooted(cfg, keys, start, actions, |actions|, k);
    } else {
      var marks := Marks(cfg, keys, start, actions, |actions|, k);
      MarksAreReboots(cfg, keys, start, actions, |actions|, k);
      if actions == [] {
        NoReboots(cfg, keys, start, k);
      } else {
        RunKeepsMarks(cfg, keys, start, actions, |actions|, k);
        if CountIn(Times(marks), a, cfg.window) > cfg.maxPerWindow {
          ExcessTakesTime(cfg, marks, a);
          assert false;
        }
      }
    }
  }

  lemma NoReboots(cfg: Config, keys: set<Key>, start: World, k: Key)
    ensures Reboots(cfg, keys, start, [], 0, k) == []
  {
  }

  lemma {:induction false} SpacingHoldsInRun(cfg: Config, keys: set<Key>, start: World, actions: seq<Action>, k: Key)
    requires Monotone(actions) && (CanReboot(cfg) ==> cfg.cooldown <= RestartDelay(cfg))
    ensures Spaced(Reboots(cfg, keys, start, actions, |actions|, k), cfg.cooldown)
  {
    hide Reboots, Marks, At;
    var marks := Marks(cfg, keys, start, actions, |actions|, k);
    var log := Reboots(cfg, keys, start, actions, |actions|, k);
    MarksAreReboots(cfg, keys, start, actions, |actions|, k);
    if actions == [] {
      NoReboots(cfg, keys, start, k);
    } else if !CanReboot(cfg) {
      NothingIsRebooted(cfg, keys, start, actions, |actions|, k);
    } else {
      RunKeepsMarks(cfg, keys, start, actions, |actions|, k);
      forall i, j | 0 <= i < j < |log| ensures log[j] >= log[i] + cfg.cooldown {
        assert log[i] == marks[i].at && log[j] == marks[j].at;
        SpanOf(cfg, marks, i, j);
      }
    }
  }
}
