/** A bound on the kept history costs history only: coordinators that differ in nothing but the bound
    notify at the same times about the same episodes. */
module HistoryRefinement {
  import opened Common
  import opened RebootSafety
  import opened AlertEpisodes
  import opened EpisodeLaws

  function Forget(e: Episode, bound: nat): Episode
    requires bound >= 2
  {
    e.(history := Trim(e.history, bound))
  }

  function ForgetAll(list: seq<Episode>, bound: nat): seq<Episode>
    requires bound >= 2
  {
    seq(|list|, i requires 0 <= i < |list| => Forget(list[i], bound))
  }

  function ForgetOn(b: Board, bound: nat): Board
    requires bound >= 2
  {
    Board(map k | k in b.active :: Forget(b.active[k], bound), ForgetAll(b.recovered, bound), b.nextSerial)
  }

  predicate Shorter(cfg: Settings, long: Settings) {
    2 <= cfg.maxHistory <= long.maxHistory && long == cfg.(maxHistory := long.maxHistory)
  }

  // ---------- histories ----------

  lemma TrimAgain(log: seq<HistoryStep>, bound: nat, longer: nat)
    requires 2 <= bound <= longer
    ensures Trim(Trim(log, longer), bound) == Trim(log, bound)
  {
    if |log| > longer {
      var n := |log| - (longer - 1);
      if longer > bound {
        DropBehindFirst(log[0], log[n..], longer - (bound - 1));
        DropTwice(log, n, longer - bound);
      }
    }
  }

  lemma AddStepForgets(log: seq<HistoryStep>, step: HistoryStep, bound: nat, longer: nat)
    requires 2 <= bound <= longer
    ensures AddStep(Trim(log, bound), step, bound) == Trim(AddStep(log, step, longer), bound)
  {
    TrimThenAdd(log, step, bound);
    TrimAgain(Merge(log, step), bound, longer);
    hide Trim, Merge;
  }

  lemma TrimKeepsLast(log: seq<HistoryStep>, bound: nat)
    requires bound >= 2
    ensures Trim(log, bound) == [] <==> log == []
    ensures log != [] ==> Trim(log, bound)[|Trim(log, bound)| - 1] == log[|log| - 1]
  {
  }

  // ---------- one episode ----------

  lemma NoteRestartForgets(cfg: Settings, long: Settings, e: Episode, s: Sighting)
    requires Shorter(cfg, long)
    ensures NoteRestart(cfg, Forget(e, cfg.maxHistory), s) == Forget(NoteRestart(long, e, s), cfg.maxHistory)
  {
    hide AddStep, Trim;
    if s.restart.Some? {
      var step := HistoryStep(s.now, RestartStep, RESTART_CAPTION, s.restart.value.evidence, s.restart.value.eventId);
      AddStepForgets(e.history, step, cfg.maxHistory, long.maxHistory);
    }
  }

  lemma NoteStateForgets(cfg: Settings, long: Settings, e: Episode, s: Sighting)
    requires Shorter(cfg, long)
    ensures NoteState(cfg, Forget(e, cfg.maxHistory), s) == Forget(NoteState(long, e, s), cfg.maxHistory)
  {
    hide AddStep, Trim, TagLast;
    TrimKeepsLast(e.history, cfg.maxHistory);
    AddStepForgets(e.history, StateStepOf(s), cfg.maxHistory, long.maxHistory);
    if s.eventId.Some? {
      TrimThenTag(e.history, s.eventId.value, cfg.maxHistory);
    }
  }

  lemma SightedForgets(cfg: Settings, long: Settings, e: Episode, s: Sighting)
    requires Shorter(cfg, long)
    ensures Sighted(cfg, Forget(e, cfg.maxHistory), s) == Forget(Sighted(long, e, s), cfg.maxHistory)
  {
    hide NoteState, NoteRestart, Trim;
    var e1 := e.(state := s.state);
    NoteRestartForgets(cfg, long, e1, s);
    NoteStateForgets(cfg, long, NoteRestart(long, e1, s), s);
    assert Forget(e, cfg.maxHistory).(state := s.state) == Forget(e1, cfg.maxHistory);
  }

  lemma FirstStepsForget(s: Sighting, bound: nat, longer: nat)
    requires 2 <= bound <= longer
    ensures FirstSteps(s, bound) == Trim(FirstSteps(s, longer), bound)
  {
    hide AddStep, Trim;
    TrimKeepsLast([], bound);
    var step := HistoryStep(s.now, StateStep, s.previousCaption, "", None);
    AddStepForgets([], step, bound, longer);
    AddStepForgets(if s.previousState != s.state then AddStep([], step, longer) else [], StateStepOf(s), bound, longer);
  }

  lemma NewEpisodeForgets(cfg: Settings, long: Settings, serial: nat, s: Sighting)
    requires Shorter(cfg, long)
    ensures NewEpisode(cfg, serial, s) == Forget(NewEpisode(long, serial, s), cfg.maxHistory)
  {
    hide FirstSteps, Trim;
    FirstStepsForget(s, cfg.maxHistory, long.maxHistory);
  }

  lemma {:induction false} AdvanceIgnoresBound(cfg: Settings, long: Settings, index: nat, age: real)
    requires Shorter(cfg, long)
    ensures AdvanceMissed(cfg, index, age) == AdvanceMissed(long, index, age)
    decreases |cfg.schedule| - index
  {
    if index < |cfg.schedule| && age >= cfg.schedule[index] {
      AdvanceIgnoresBound(cfg, long, index + 1, age);
    }
  }

  lemma NextReminderForgets(cfg: Settings, long: Settings, e: Episode)
    requires Shorter(cfg, long) && cfg.schedule != []
    ensures
      var due := NextReminder(cfg, Forget(e, cfg.maxHistory));
      due == NextReminder(long, e) && (due.Some? <==> e.noticeSent && e.updateDue.None?)
  {
    hide Trim;
  }

  lemma PopOneForgets(cfg: Settings, long: Settings, e: Episode, now: real, opening: bool, reminding: bool)
    requires Shorter(cfg, long) && cfg.schedule != []
    ensures
      var r := PopOne(long, e, now, opening, reminding);
      PopOne(cfg, Forget(e, cfg.maxHistory), now, opening, reminding) == (Forget(r.0, cfg.maxHistory), r.1)
  {
    hide AdvanceMissed, Trim, NextReminder;
    AdvanceIgnoresBound(cfg, long, e.reminderIndex, MaxReal(0.0, now - e.started));
    AdvanceIgnoresBound(cfg, long, e.reminderIndex + 1, MaxReal(0.0, now - e.started));
    NextReminderForgets(cfg, long, e);
  }

  // ---------- the board ----------

  lemma ObserveForgets(cfg: Settings, long: Settings, b: Board, k: Key, s: Sighting)
    requires Shorter(cfg, long)
    ensures Observe(cfg, ForgetOn(b, cfg.maxHistory), k, s) == ForgetOn(Observe(long, b, k, s), cfg.maxHistory)
  {
    hide Sighted, NewEpisode, Forget;
    if k in b.active || OpensEpisode(s) {
      NewEpisodeForgets(cfg, long, b.nextSerial, s);
      var e := if k in b.active then b.active[k] else NewEpisode(long, b.nextSerial, s);
      SightedForgets(cfg, long, e, s);
      FiledForgets(b, k, Sighted(long, e, s), cfg.maxHistory);
    }
  }

  lemma FiledForgets(b: Board, k: Key, e: Episode, bound: nat)
    requires bound >= 2
    ensures ForgetOn(b.(active := b.active[k := e]), bound).active == ForgetOn(b, bound).active[k := Forget(e, bound)]
    ensures ForgetOn(b.(active := b.active - {k}), bound).active == ForgetOn(b, bound).active - {k}
    ensures ForgetAll(b.recovered + [e], bound) == ForgetAll(b.recovered, bound) + [Forget(e, bound)]
  {
    hide Forget;
  }

  lemma {:induction false} SelectForgets(cfg: Settings, long: Settings, list: seq<Episode>, now: real, flushed: bool)
    requires Shorter(cfg, long)
    ensures Select(cfg, ForgetAll(list, cfg.maxHistory), now, flushed) ==
            ForgetAll(Select(long, list, now, flushed), cfg.maxHistory)
  {
    hide Trim;
    if list != [] {
      SelectForgets(cfg, long, list[1..], now, flushed);
      assert ForgetAll(list, cfg.maxHistory)[1..] == ForgetAll(list[1..], cfg.maxHistory);
    }
  }

  lemma DuesForget(cfg: Settings, long: Settings, b: Board, now: real)
    requires Shorter(cfg, long) && cfg.schedule != []
    ensures
      var f := ForgetOn(b, cfg.maxHistory);
      AnyOpening(f, now) == AnyOpening(b, now) && AnyReminder(cfg, f, now) == AnyReminder(long, b, now) &&
      AnyRecovery(f, now) == AnyRecovery(b, now)
  {
    hide Trim;
    var f := ForgetOn(b, cfg.maxHistory);
    forall k | k in b.active
      ensures OpeningDue(f.active[k], now) == OpeningDue(b.active[k], now) &&
              ReminderDue(cfg, f.active[k], now) == ReminderDue(long, b.active[k], now)
    {
    }
    forall i | 0 <= i < |b.recovered| ensures RecoveryDue(f.recovered[i], now) == RecoveryDue(b.recovered[i], now) {
    }
    hide OpeningDue, ReminderDue, RecoveryDue;
  }

  lemma ListingForgets(cfg: Settings, long: Settings, b: Board, now: real, k: Key)
    requires Shorter(cfg, long) && cfg.schedule != [] && k in b.active
    ensures
      var r := ListingOf(long, b, now, k);
      ListingOf(cfg, ForgetOn(b, cfg.maxHistory), now, k) == (Forget(r.0, cfg.maxHistory), r.1)
  {
    hide PopOne, AnyOpening, AnyReminder, Forget;
    DuesForget(cfg, long, b, now);
    PopOneForgets(cfg, long, b.active[k], now, AnyOpening(b, now), AnyReminder(long, b, now));
  }

  lemma PopForgets(cfg: Settings, long: Settings, b: Board, now: real)
    requires Shorter(cfg, long) && cfg.schedule != []
    ensures Popped(cfg, ForgetOn(b, cfg.maxHistory), now) == ForgetOn(Popped(long, b, now), cfg.maxHistory)
    ensures
      var short, full := BatchOf(cfg, ForgetOn(b, cfg.maxHistory), now), BatchOf(long, b, now);
      short.openedNow == full.openedNow && short.persistent == full.persistent &&
      short.recovered == ForgetAll(full.recovered, cfg.maxHistory)
  {
    hide ListingOf, Select, AnyRecovery, Forget;
    DuesForget(cfg, long, b, now);
    SelectForgets(cfg, long, b.recovered, now, true);
    SelectForgets(cfg, long, b.recovered, now, false);
    forall k | k in b.active
      ensures var r := ListingOf(long, b, now, k);
              ListingOf(cfg, ForgetOn(b, cfg.maxHistory), now, k) == (Forget(r.0, cfg.maxHistory), r.1)
    {
      ListingForgets(cfg, long, b, now, k);
    }
  }

  lemma AcknowledgeForgets(b: Board, bound: nat)
    requires bound >= 2
    ensures AcknowledgeInitials(ForgetOn(b, bound)) == ForgetOn(AcknowledgeInitials(b), bound)
  {
    hide Trim;
  }

  /** In every run the coordinator holds what one with any larger bound would hold, each history cut to
      the first step and the most recent ones. */
  lemma {:induction false} BoundCostsHistoryOnly(cfg: Settings, long: Settings, events: seq<Event>)
    requires cfg.Valid() && Shorter(cfg, long)
    ensures After(cfg, events) == ForgetOn(After(long, events), cfg.maxHistory)
  {
    if events != [] {
      var before, ev := events[..|events| - 1], events[|events| - 1];
      var b := After(long, before);
      BoundCostsHistoryOnly(cfg, long, before);
      hide ForgetOn, Observe, Popped, AcknowledgeInitials;
      match ev
      case Seen(k, s) => ObserveForgets(cfg, long, b, k, s);
      case Pop(now) => PopForgets(cfg, long, b, now);
      case Acknowledge(_) => AcknowledgeForgets(b, cfg.maxHistory);
    }
  }

  /** So both announce and remind the same miners at every pop, and deliver the same episodes. */
  lemma {:induction false} BoundChangesNoNotice(cfg: Settings, long: Settings, events: seq<Event>, now: real)
    requires cfg.Valid() && Shorter(cfg, long)
    ensures
      var short, full := BatchOf(cfg, After(cfg, events), now), BatchOf(long, After(long, events), now);
      short.openedNow == full.openedNow && short.persistent == full.persistent &&
      short.recovered == ForgetAll(full.recovered, cfg.maxHistory)
  {
    hide After, BatchOf;
    BoundCostsHistoryOnly(cfg, long, events);
    PopForgets(cfg, long, After(long, events), now);
  }
}
