/** What a single observation, pop or acknowledgement does at any point of a run, stated on the episodes
    themselves. */
module SightingLaws {
  import opened Common
  import opened RebootSafety
  import opened AlertEpisodes
  import opened EpisodeLaws
  import opened ReminderBudget

  lemma OneMoreEvent(cfg: Settings, events: seq<Event>, ev: Event)
    requires cfg.Valid()
    ensures After(cfg, events + [ev]) == Step(cfg, After(cfg, events), ev)
  {
    assert (events + [ev])[..|events|] == events;
  }

  // ---------- observations ----------

  /** An observation leaves its miner with an active episode exactly when it is not OK. It opens an episode
      exactly when there was none and the miner is not OK or has restarted; a miner that is OK again hands its
      episode over for delivery. Every other episode stays as it is. */
  lemma SightingExactly(cfg: Settings, events: seq<Event>, k: Key, s: Sighting)
    requires cfg.Valid()
    ensures
      var b, after := After(cfg, events), After(cfg, events + [Seen(k, s)]);
      var opens := k !in b.active && (!s.state.Ok? || s.restart.Some?);
      (k in after.active <==> !s.state.Ok?) && after.nextSerial == (b.nextSerial + if opens then 1 else 0) &&
      (forall j :: j in b.active && j != k ==> j in after.active && after.active[j] == b.active[j]) &&
      after.active.Keys - {k} == b.active.Keys - {k} &&
      if s.state.Ok? && (k in b.active || s.restart.Some?)
      then |after.recovered| == |b.recovered| + 1 && after.recovered[..|b.recovered|] == b.recovered
      else after.recovered == b.recovered
  {
    OneMoreEvent(cfg, events, Seen(k, s));
    hide After, Sighted, NewEpisode;
  }

  /** The episode that the observation of miner k is about, where it is filed afterwards. */
  ghost predicate IsFiled(b: Board, k: Key, s: Sighting, e: Episode) {
    if s.state.Ok? then b.recovered != [] && b.recovered[|b.recovered| - 1] == e
    else k in b.active && b.active[k] == e
  }

  /** What an observation makes of its episode, old or new: the schedule goes on, a restart after the
      announcement calls for an update one coalescing time later, and an episode that closes is due at once, or
      one coalescing time later when it was announced, but not before its announcement would have been. */
  lemma SightedEpisodeIs(cfg: Settings, events: seq<Event>, k: Key, s: Sighting, e: Episode)
    requires cfg.Valid() && (k in After(cfg, events).active || !s.state.Ok? || s.restart.Some?)
    requires IsFiled(After(cfg, events + [Seen(k, s)]), k, s, e)
    ensures
      var b := After(cfg, events);
      var due := MaxReal(e.initialDue, s.now + if e.noticeSent then cfg.coalesce else 0.0);
      e.state == s.state && e.updateDue == (if s.restart.Some? && e.noticeSent then Some(s.now + cfg.coalesce)
                                            else if k in b.active then b.active[k].updateDue else None) &&
      (if k in b.active then
         var was := b.active[k];
         e.serial == was.serial && e.started == was.started && e.initialDue == was.initialDue &&
         e.noticeSent == was.noticeSent && e.reminderIndex == was.reminderIndex && e.repeatIndex == was.repeatIndex
       else
         e.serial == b.nextSerial && e.started == s.now && e.initialDue == s.now + cfg.coalesce && !e.noticeSent &&
         e.reminderIndex == 0 && e.repeatIndex == 1) &&
      (s.state.Ok? ==> e.closedAt == Some(s.now) && e.recoveryDue == Some(due)) &&
      (!s.state.Ok? ==> e.closedAt.None? && e.recoveryDue.None?)
  {
    hide After, Sighted, NewEpisode, MaxReal;
    var b := After(cfg, events);
    FiledIsSighted(cfg, events, k, s, e);
    SightedKeeps(cfg, Target(cfg, b, k, s), s);
    SightedUpdate(cfg, Target(cfg, b, k, s), s);
    if k in b.active {
      AnnouncementIsSet(cfg, events, k);
    } else {
      NewEpisodeIs(cfg, b.nextSerial, s);
      NewHasNoUpdate(cfg, b.nextSerial, s);
    }
  }

  lemma FiledIsSighted(cfg: Settings, events: seq<Event>, k: Key, s: Sighting, e: Episode)
    requires cfg.Valid() && (k in After(cfg, events).active || !s.state.Ok? || s.restart.Some?)
    requires IsFiled(After(cfg, events + [Seen(k, s)]), k, s, e)
    ensures e == Sighted(cfg, Target(cfg, After(cfg, events), k, s), s)
  {
    OneMoreEvent(cfg, events, Seen(k, s));
    hide After, Sighted, NewEpisode;
  }

  lemma SightedUpdate(cfg: Settings, e: Episode, s: Sighting)
    requires cfg.maxHistory >= 2
    ensures
      var r := Sighted(cfg, e, s);
      r.state == s.state &&
      r.updateDue == if s.restart.Some? && e.noticeSent then Some(s.now + cfg.coalesce) else e.updateDue
  {
    hide AddStep, TagLast;
  }

  lemma NewHasNoUpdate(cfg: Settings, serial: nat, s: Sighting)
    requires cfg.maxHistory >= 2
    ensures NewEpisode(cfg, serial, s).updateDue.None?
  {
  }

  // ---------- histories ----------

  /** The steps that an observation shows: first where the miner came from, when its episode is new; then its
      restart; then its state. */
  function Shown(was: seq<HistoryStep>, isNew: bool, s: Sighting): seq<HistoryStep> {
    (if isNew && s.previousState != s.state then [HistoryStep(s.now, StateStep, s.previousCaption, "", None)]
     else was) +
    (if s.restart.None? then []
     else [HistoryStep(s.now, RestartStep, "REINICIO", s.restart.value.evidence, s.restart.value.eventId)]) +
    [HistoryStep(s.now, StateStep, s.caption, s.evidence, s.eventId)]
  }

  /** The steps of a log that a bounded history keeps. */
  ghost predicate IsCut(kept: seq<HistoryStep>, log: seq<HistoryStep>, bound: nat)
    requires bound >= 2
  {
    if |log| <= bound then kept == log
    else |kept| == bound && kept[0] == log[0] && kept[1..] == log[|log| - bound + 1..]
  }

  /** The captions involved differ, so that no step repeats the one before it. */
  predicate CaptionsDiffer(was: seq<HistoryStep>, isNew: bool, s: Sighting) {
    s.caption != "REINICIO" &&
    (isNew && s.previousState != s.state ==> s.previousCaption != s.caption && s.previousCaption != "REINICIO") &&
    (was != [] ==> was[|was| - 1].caption != s.caption && was[|was| - 1].caption != "REINICIO")
  }

  lemma AddedStep(history: seq<HistoryStep>, step: HistoryStep, bound: nat)
    requires bound >= 2
    ensures history == [] || history[|history| - 1].caption != step.caption ==>
              AddStep(history, step, bound) == Trim(history + [step], bound)
    ensures var r := AddStep(history, step, bound); r != [] && r[|r| - 1] == step
  {
  }

  function RestartNoted(history: seq<HistoryStep>, s: Sighting, bound: nat): seq<HistoryStep>
    requires bound >= 2
  {
    if s.restart.None? then history
    else AddStep(history, HistoryStep(s.now, RestartStep, "REINICIO", s.restart.value.evidence,
                                      s.restart.value.eventId), bound)
  }

  function StateNoted(history: seq<HistoryStep>, s: Sighting, bound: nat): seq<HistoryStep>
    requires bound >= 2
  {
    var step := HistoryStep(s.now, StateStep, s.caption, s.evidence, s.eventId);
    if history == [] || history[|history| - 1].caption != s.caption then AddStep(history, step, bound)
    else if s.eventId.Some? then history[|history| - 1 := history[|history| - 1].(eventId := s.eventId)]
    else history
  }

  lemma SightedHistory(cfg: Settings, e: Episode, s: Sighting)
    requires cfg.maxHistory >= 2
    ensures Sighted(cfg, e, s).history ==
            StateNoted(RestartNoted(e.history, s, cfg.maxHistory), s, cfg.maxHistory)
  {
    hide AddStep;
  }

  lemma NotedState(history: seq<HistoryStep>, s: Sighting, bound: nat)
    requires bound >= 2
    ensures
      var h := StateNoted(history, s, bound);
      h != [] && h[|h| - 1].caption == s.caption && (s.eventId.Some? ==> h[|h| - 1].eventId == s.eventId)
  {
    hide AddStep;
    AddedStep(history, HistoryStep(s.now, StateStep, s.caption, s.evidence, s.eventId), bound);
  }

  lemma NotedChange(was: seq<HistoryStep>, s: Sighting, bound: nat)
    requires bound >= 2 && CaptionsDiffer(was, false, s)
    ensures StateNoted(RestartNoted(was, s, bound), s, bound) == Trim(Shown(was, false, s), bound)
  {
    hide AddStep, Trim;
    var step := HistoryStep(s.now, StateStep, s.caption, s.evidence, s.eventId);
    if s.restart.None? {
      AddedStep(was, step, bound);
      assert Shown(was, false, s) == was + [step];
    } else {
      var again := HistoryStep(s.now, RestartStep, "REINICIO", s.restart.value.evidence, s.restart.value.eventId);
      AddedStep(was, again, bound);
      AddedStep(AddStep(was, again, bound), step, bound);
      TrimThenAppend(was + [again], step, bound);
      assert Shown(was, false, s) == was + [again] + [step];
    }
  }

  lemma TrimIsCut(log: seq<HistoryStep>, bound: nat)
    requires bound >= 2
    ensures IsCut(Trim(log, bound), log, bound)
  {
  }

  lemma FirstShown(s: Sighting, bound: nat)
    requires bound >= 4 && CaptionsDiffer([], true, s)
    ensures StateNoted(RestartNoted(FirstSteps(s, bound), s, bound), s, bound) == Shown([], true, s)
  {
    var first := HistoryStep(s.now, StateStep, s.previousCaption, "", None);
    var before := if s.previousState != s.state then [first] else [];
    assert AddStep([], first, bound) == [first];
    if s.restart.None? {
      AddedStep(before, StateStepOf(s), bound);
      assert FirstSteps(s, bound) == Shown([], true, s);
      hide AddStep;
    } else {
      assert FirstSteps(s, bound) == before;
      NotedChange(before, s, bound);
      assert Shown(before, false, s) == Shown([], true, s);
      hide AddStep;
    }
  }

  /** The history of an observed episode ends with what was observed. When the captions differ it has grown by
      the restart and the new state, in this order, and is cut to its first step and the last ones; a state that
      was the last step already adds nothing. */
  lemma HistoryShowsSighting(cfg: Settings, events: seq<Event>, k: Key, s: Sighting, e: Episode)
    requires cfg.Valid() && (k in After(cfg, events).active || !s.state.Ok? || s.restart.Some?)
    requires IsFiled(After(cfg, events + [Seen(k, s)]), k, s, e)
    ensures
      var b, h := After(cfg, events), e.history;
      var isNew := k !in b.active;
      var was := if isNew then [] else b.active[k].history;
      h != [] && h[|h| - 1].caption == s.caption && (s.eventId.Some? ==> h[|h| - 1].eventId == s.eventId) &&
      (CaptionsDiffer(was, isNew, s) ==> IsCut(h, Shown(was, isNew, s), cfg.maxHistory)) &&
      (s.restart.None? && was != [] && was[|was| - 1].caption == s.caption ==>
         |h| == |was| && h[..|h| - 1] == was[..|h| - 1] && h[|h| - 1].at == was[|h| - 1].at)
  {
    hide After, Sighted, AddStep, Trim, Shown, FirstSteps, IsFiled, CaptionsDiffer, IsCut;
    var b, bound := After(cfg, events), cfg.maxHistory;
    FiledIsSighted(cfg, events, k, s, e);
    var target := Target(cfg, b, k, s);
    SightedHistory(cfg, target, s);
    NotedState(RestartNoted(target.history, s, bound), s, bound);
    if k in b.active {
      if CaptionsDiffer(target.history, false, s) {
        NotedChange(target.history, s, bound);
        TrimIsCut(Shown(target.history, false, s), bound);
      }
    } else if CaptionsDiffer([], true, s) {
      FirstShown(s, bound);
      ShownAtFirst(s, bound);
    }
  }

  lemma ShownAtFirst(s: Sighting, bound: nat)
    requires bound >= 4
    ensures IsCut(Shown([], true, s), Shown([], true, s), bound)
  {
  }

  // ---------- pops ----------

  /** The announcement or the update of the episode is due. */
  predicate CallsForOpening(e: Episode, now: real) {
    (!e.noticeSent && now >= e.initialDue) || (e.updateDue.Some? && now >= e.updateDue.value)
  }

  /** The time of the next reminder: along the scheduled ages, then one repeat after another. */
  function RemindsAt(cfg: Settings, e: Episode): real
    requires cfg.schedule != []
  {
    e.started + if e.reminderIndex < |cfg.schedule| then cfg.schedule[e.reminderIndex]
                else cfg.schedule[|cfg.schedule| - 1] + e.repeatIndex as real * cfg.repeat
  }

  /** The episode is announced, no update is pending, and its next reminder is due. */
  predicate CallsForReminder(cfg: Settings, e: Episode, now: real)
    requires cfg.schedule != []
  {
    e.noticeSent && e.updateDue.None? && now >= RemindsAt(cfg, e)
  }

  /** The next scheduled age not before `least` that lies beyond the episode's present age. */
  predicate IsNextAge(cfg: Settings, e: Episode, now: real, least: nat, index: nat) {
    least <= index && (least < index ==> index <= |cfg.schedule|) &&
    (forall i :: least <= i < index && i < |cfg.schedule| ==> cfg.schedule[i] <= MaxReal(0.0, now - e.started)) &&
    (index < |cfg.schedule| ==> cfg.schedule[index] > MaxReal(0.0, now - e.started))
  }

  lemma OpeningCalled(b: Board, now: real)
    ensures AnyOpening(b, now) <==> exists k :: k in b.active && CallsForOpening(b.active[k], now)
  {
    forall k | k in b.active ensures OpeningDue(b.active[k], now) == CallsForOpening(b.active[k], now) {
    }
  }

  lemma ReminderCalled(cfg: Settings, b: Board, now: real)
    requires cfg.schedule != []
    ensures AnyReminder(cfg, b, now) <==> exists k :: k in b.active && CallsForReminder(cfg, b.active[k], now)
  {
    forall k | k in b.active ensures ReminderDue(cfg, b.active[k], now) == CallsForReminder(cfg, b.active[k], now) {
    }
  }

  lemma PopOneExactly(cfg: Settings, e: Episode, now: real, opening: bool, reminding: bool)
    requires cfg.schedule != []
    requires CallsForOpening(e, now) ==> opening
    ensures
      var (after, listing) := PopOne(cfg, e, now, opening, reminding);
      (listing.Opened? <==> if e.noticeSent then e.updateDue.Some? && now >= e.updateDue.value else opening) &&
      (listing.Persistent? <==>
         e.noticeSent && e.updateDue.None? && reminding && RemindsAt(cfg, e) <= now + cfg.coalesce) &&
      match listing
      case Opened =>
        IsNextAge(cfg, e, now, e.reminderIndex, after.reminderIndex) &&
        after == e.(noticeSent := true, updateDue := None, reminderIndex := after.reminderIndex)
      case Persistent =>
        if e.reminderIndex < |cfg.schedule|
        then IsNextAge(cfg, e, now, e.reminderIndex + 1, after.reminderIndex) &&
             after == e.(reminderIndex := after.reminderIndex)
        else after == e.(repeatIndex := e.repeatIndex + 1)
      case Unlisted => after == e
  {
    hide AdvanceMissed;
  }

  /** A pop, seen from one active episode. An unannounced one is opened as soon as any episode calls for it, an
      announced one only when its update is due; with any reminder due, every announced episode whose reminder
      falls within the coalescing time is listed. What is listed moves on to the next age beyond its own. */
  lemma PopExactly(cfg: Settings, events: seq<Event>, now: real, k: Key)
    requires cfg.Valid() && k in After(cfg, events).active
    ensures
      var b, batch := After(cfg, events), BatchOf(cfg, After(cfg, events), now);
      var e := b.active[k];
      (k in batch.openedNow <==>
         if e.noticeSent then e.updateDue.Some? && now >= e.updateDue.value
         else exists j :: j in b.active && CallsForOpening(b.active[j], now)) &&
      (k in batch.persistent <==>
         e.noticeSent && e.updateDue.None? && RemindsAt(cfg, e) <= now + cfg.coalesce &&
         exists j :: j in b.active && CallsForReminder(cfg, b.active[j], now))
    ensures k in After(cfg, events + [Pop(now)]).active
    ensures
      var b, batch := After(cfg, events), BatchOf(cfg, After(cfg, events), now);
      var e, after := b.active[k], After(cfg, events + [Pop(now)]).active[k];
      if k in batch.openedNow then
        IsNextAge(cfg, e, now, e.reminderIndex, after.reminderIndex) &&
        after == e.(noticeSent := true, updateDue := None, reminderIndex := after.reminderIndex)
      else if k in batch.persistent then
        if e.reminderIndex < |cfg.schedule|
        then IsNextAge(cfg, e, now, e.reminderIndex + 1, after.reminderIndex) &&
             after == e.(reminderIndex := after.reminderIndex)
        else after == e.(repeatIndex := e.repeatIndex + 1)
      else after == e
  {
    hide After, PopOne, AnyOpening, AnyReminder, CallsForOpening, CallsForReminder, RemindsAt, IsNextAge, Select;
    var b := After(cfg, events);
    OneMoreEvent(cfg, events, Pop(now));
    OpeningCalled(b, now);
    ReminderCalled(cfg, b, now);
    PopOneExactly(cfg, b.active[k], now, AnyOpening(b, now), AnyReminder(cfg, b, now));
  }

  lemma {:induction false} SelectExactly(cfg: Settings, list: seq<Episode>, now: real, flushed: bool, e: Episode)
    ensures e in Select(cfg, list, now, flushed) <==>
      e in list && (flushed <==> e.recoveryDue.Some? && e.recoveryDue.value <= now + cfg.coalesce)
  {
    if list != [] {
      SelectExactly(cfg, list[1..], now, flushed, e);
    }
  }

  /** A pop delivers something only when some closed episode is due, and then exactly those that are due within
      the coalescing time; the others stay. No active episode comes or goes. */
  lemma DeliveredExactly(cfg: Settings, events: seq<Event>, now: real, e: Episode)
    requires cfg.Valid()
    ensures
      var b, after := After(cfg, events), After(cfg, events + [Pop(now)]);
      var goes := e.recoveryDue.Some? && e.recoveryDue.value <= now + cfg.coalesce &&
        exists i :: 0 <= i < |b.recovered| && b.recovered[i].recoveryDue.Some? &&
          now >= b.recovered[i].recoveryDue.value;
      (e in BatchOf(cfg, b, now).recovered <==> e in b.recovered && goes) &&
      (e in after.recovered <==> e in b.recovered && !goes) &&
      after.active.Keys == b.active.Keys && after.nextSerial == b.nextSerial
  {
    hide After, ListingOf, Select;
    var b := After(cfg, events);
    OneMoreEvent(cfg, events, Pop(now));
    SelectExactly(cfg, b.recovered, now, true, e);
    SelectExactly(cfg, b.recovered, now, false, e);
  }

  /** An acknowledgement marks every active episode as announced and does nothing else. */
  lemma AcknowledgedExactly(cfg: Settings, events: seq<Event>, at: real)
    requires cfg.Valid()
    ensures
      var b, after := After(cfg, events), After(cfg, events + [Acknowledge(at)]);
      after.active.Keys == b.active.Keys && after.recovered == b.recovered && after.nextSerial == b.nextSerial &&
      forall k :: k in b.active ==> after.active[k] == b.active[k].(noticeSent := true)
  {
    OneMoreEvent(cfg, events, Acknowledge(at));
    hide After;
  }
}
