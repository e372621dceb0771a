/** How often an episode can be reminded of: the schedule by its age, then one reminder per repeat. */
module ReminderBudget {
  import opened Common
  import opened RebootSafety
  import opened AlertEpisodes
  import opened EpisodeLaws

  /** The number of scheduled ages that are at most `age`. */
  function CountUpTo(schedule: seq<real>, age: real): nat {
    if schedule == [] then 0
    else CountUpTo(schedule[..|schedule| - 1], age) + if schedule[|schedule| - 1] <= age then 1 else 0
  }

  function TailCount(cfg: Settings, age: real): nat
    requires cfg.Valid()
  {
    MaxInt(0, ((age - cfg.schedule[|cfg.schedule| - 1]) / cfg.repeat).Floor)
  }

  predicate ListedAsReminder(cfg: Settings, b: Board, now: real, serial: nat)
    requires cfg.Valid()
  {
    exists k :: k in BatchOf(cfg, b, now).persistent && k in b.active && b.active[k].serial == serial
  }

  /** How many pops of a run listed the episode as a reminder. */
  function Appearances(cfg: Settings, events: seq<Event>, serial: nat): nat
    requires cfg.Valid()
  {
    if events == [] then 0
    else
      var before, ev := events[..|events| - 1], events[|events| - 1];
      Appearances(cfg, before, serial) +
      if ev.Pop? && ListedAsReminder(cfg, After(cfg, before), ev.at, serial) then 1 else 0
  }

  /** What bounds the reminders of one episode at time `now`. */
  ghost predicate Within(cfg: Settings, e: Episode, now: real, count: nat)
    requires cfg.Valid()
  {
    var n, reach := |cfg.schedule|, now - e.started + cfg.coalesce;
    e.reminderIndex <= n && e.repeatIndex >= 1 &&
    (e.reminderIndex > 0 ==> cfg.schedule[e.reminderIndex - 1] <= reach) &&
    (e.repeatIndex > 1 ==>
       e.reminderIndex == n && cfg.schedule[n - 1] + cfg.repeat * (e.repeatIndex - 1) as real <= reach) &&
    count <= e.reminderIndex + e.repeatIndex - 1
  }

  lemma WithinLater(cfg: Settings, e: Episode, now: real, later: real, count: nat)
    requires cfg.Valid() && Within(cfg, e, now, count) && now <= later
    ensures Within(cfg, e, later, count)
  {
  }

  lemma PopStaysWithin(cfg: Settings, e: Episode, now: real, opening: bool, reminding: bool, count: nat)
    requires cfg.Valid() && Within(cfg, e, now, count) && e.started <= now
    ensures
      var r := PopOne(cfg, e, now, opening, reminding);
      Within(cfg, r.0, now, count + if r.1.Persistent? then 1 else 0) &&
      r.0.serial == e.serial && r.0.started == e.started
  {
    hide AdvanceMissed;
  }

  lemma {:induction false} CountOfPrefix(schedule: seq<real>, age: real, n: nat)
    requires n <= |schedule| && forall i :: 0 <= i < n ==> schedule[i] <= age
    ensures n <= CountUpTo(schedule, age)
  {
    if schedule != [] {
      var last := |schedule| - 1;
      CountOfPrefix(schedule[..last], age, if n > last then n - 1 else n);
    }
  }

  lemma TimesPositive(a: real, b: real, factor: real)
    requires a < b && factor > 0.0
    ensures a * factor < b * factor
  {
  }

  lemma RepeatsWithinTail(repeat: real, span: real, times: nat)
    requires repeat > 0.0 && repeat * times as real <= span
    ensures times <= (span / repeat).Floor
  {
    var quotient := span / repeat;
    assert quotient * repeat == span;
    if quotient < times as real {
      TimesPositive(quotient, times as real, repeat);
      assert false;
    }
  }

  lemma WithinBudget(cfg: Settings, e: Episode, now: real, count: nat)
    requires cfg.Valid() && Within(cfg, e, now, count)
    ensures
      var reach := now - e.started + cfg.coalesce;
      count <= CountUpTo(cfg.schedule, reach) + TailCount(cfg, reach)
  {
    var n, reach := |cfg.schedule|, now - e.started + cfg.coalesce;
    CountOfPrefix(cfg.schedule, reach, e.reminderIndex);
    if e.repeatIndex > 1 {
      RepeatsWithinTail(cfg.repeat, reach - cfg.schedule[n - 1], e.repeatIndex - 1);
    }
  }

  // ---------- whole runs ----------

  ghost predicate Budgeted(cfg: Settings, b: Board, now: real, counts: nat -> nat)
    requires cfg.Valid()
  {
    (forall k :: k in b.active ==>
       b.active[k].started <= now && Within(cfg, b.active[k], now, counts(b.active[k].serial))) &&
    (forall i :: 0 <= i < |b.recovered| ==>
       b.recovered[i].closedAt.Some? &&
       Within(cfg, b.recovered[i], b.recovered[i].closedAt.value, counts(b.recovered[i].serial))) &&
    forall serial :: serial >= b.nextSerial ==> counts(serial) == 0
  }

  lemma SightedStaysWithin(cfg: Settings, e: Episode, s: Sighting, count: nat)
    requires cfg.Valid() && Within(cfg, e, s.now, count)
    ensures Within(cfg, Sighted(cfg, e, s), s.now, count)
    ensures Sighted(cfg, e, s).serial == e.serial && Sighted(cfg, e, s).started == e.started
    ensures s.state.Ok? ==> Sighted(cfg, e, s).closedAt == Some(s.now)
  {
    SightedKeeps(cfg, e, s);
    hide Sighted;
  }

  /** The episode that an observation is about, before it is changed. */
  function Target(cfg: Settings, b: Board, k: Key, s: Sighting): Episode
    requires cfg.Valid()
  {
    if k in b.active then b.active[k] else NewEpisode(cfg, b.nextSerial, s)
  }

  lemma TargetIsWithin(cfg: Settings, b: Board, k: Key, s: Sighting, counts: nat -> nat)
    requires cfg.Valid() && Budgeted(cfg, b, s.now, counts)
    ensures
      var e := Target(cfg, b, k, s);
      e.started <= s.now && Within(cfg, e, s.now, counts(e.serial)) && (k !in b.active ==> e.serial == b.nextSerial)
  {
    NewEpisodeIs(cfg, b.nextSerial, s);
    hide NewEpisode;
  }

  lemma ObserveBudgeted(cfg: Settings, b: Board, k: Key, s: Sighting, counts: nat -> nat)
    requires cfg.Valid() && Budgeted(cfg, b, s.now, counts)
    ensures Budgeted(cfg, Observe(cfg, b, k, s), s.now, counts)
  {
    hide Sighted, NewEpisode, Within;
    if k in b.active || OpensEpisode(s) {
      var e := Target(cfg, b, k, s);
      TargetIsWithin(cfg, b, k, s, counts);
      SightedStaysWithin(cfg, e, s, counts(e.serial));
    }
  }

  /** The counts after a pop. */
  function Bumped(cfg: Settings, b: Board, now: real, counts: nat -> nat): nat -> nat
    requires cfg.Valid()
  {
    serial => counts(serial) + if ListedAsReminder(cfg, b, now, serial) then 1 else 0
  }

  lemma PopCountsOne(cfg: Settings, b: Board, delivered: seq<nat>, now: real, k: Key)
    requires cfg.Valid() && Conserved(b, delivered) && k in b.active
    ensures ListedAsReminder(cfg, b, now, b.active[k].serial) <==> ListingOf(cfg, b, now, k).1.Persistent?
  {
    var serial := b.active[k].serial;
    OneHolder(b, delivered, k, serial);
    hide ListingOf, Conserved;
    if ListingOf(cfg, b, now, k).1.Persistent? {
      assert k in BatchOf(cfg, b, now).persistent;
    }
    if ListedAsReminder(cfg, b, now, serial) {
      var j :| j in BatchOf(cfg, b, now).persistent && j in b.active && b.active[j].serial == serial;
      assert j in Holders(b, serial);
    }
  }

  lemma PopCountsNoOther(cfg: Settings, b: Board, delivered: seq<nat>, now: real, serial: nat)
    requires cfg.Valid() && Conserved(b, delivered) && ListedAsReminder(cfg, b, now, serial)
    ensures serial < b.nextSerial
    ensures forall i :: 0 <= i < |b.recovered| ==> b.recovered[i].serial != serial
    ensures serial !in delivered
  {
    var k :| k in BatchOf(cfg, b, now).persistent && k in b.active && b.active[k].serial == serial;
    OneHolder(b, delivered, k, serial);
  }

  lemma PopKeepsActiveWithin(cfg: Settings, b: Board, delivered: seq<nat>, now: real, counts: nat -> nat, k: Key)
    requires cfg.Valid() && Conserved(b, delivered) && Budgeted(cfg, b, now, counts) && k in b.active
    ensures
      var e := Popped(cfg, b, now).active[k];
      e.started <= now && Within(cfg, e, now, Bumped(cfg, b, now, counts)(e.serial))
  {
    hide PopOne, Within, ListedAsReminder, Conserved, AnyOpening, AnyReminder;
    var e := b.active[k];
    PopCountsOne(cfg, b, delivered, now, k);
    PopStaysWithin(cfg, e, now, AnyOpening(b, now), AnyReminder(cfg, b, now), counts(e.serial));
  }

  lemma PopKeepsOtherCounts(cfg: Settings, b: Board, delivered: seq<nat>, now: real, counts: nat -> nat, serial: nat)
    requires cfg.Valid() && Conserved(b, delivered)
    requires serial >= b.nextSerial || exists i :: 0 <= i < |b.recovered| && b.recovered[i].serial == serial
    ensures Bumped(cfg, b, now, counts)(serial) == counts(serial)
  {
    if ListedAsReminder(cfg, b, now, serial) {
      PopCountsNoOther(cfg, b, delivered, now, serial);
    }
  }

  lemma PopBudgeted(cfg: Settings, b: Board, delivered: seq<nat>, now: real, counts: nat -> nat)
    requires cfg.Valid() && Conserved(b, delivered) && Budgeted(cfg, b, now, counts)
    ensures Budgeted(cfg, Popped(cfg, b, now), now, Bumped(cfg, b, now, counts))
  {
    var after, bumped := Popped(cfg, b, now), Bumped(cfg, b, now, counts);
    hide Within, ListedAsReminder, Conserved, Bumped, ListingOf;
    forall k | k in after.active
      ensures after.active[k].started <= now && Within(cfg, after.active[k], now, bumped(after.active[k].serial))
    {
      PopKeepsActiveWithin(cfg, b, delivered, now, counts, k);
    }
    forall i | 0 <= i < |after.recovered|
      ensures after.recovered[i].closedAt.Some? &&
        Within(cfg, after.recovered[i], after.recovered[i].closedAt.value, bumped(after.recovered[i].serial))
    {
      var j := i;
      if AnyRecovery(b, now) {
        j := SelectKeeps(cfg, b.recovered, now, false, i);
      }
      PopKeepsOtherCounts(cfg, b, delivered, now, counts, b.recovered[j].serial);
    }
    forall serial: nat | serial >= after.nextSerial ensures bumped(serial) == 0 {
      PopKeepsOtherCounts(cfg, b, delivered, now, counts, serial);
    }
  }

  lemma BudgetedLater(cfg: Settings, b: Board, now: real, later: real, counts: nat -> nat)
    requires cfg.Valid() && Budgeted(cfg, b, now, counts) && now <= later
    ensures Budgeted(cfg, b, later, counts)
  {
    forall k | k in b.active ensures Within(cfg, b.active[k], later, counts(b.active[k].serial)) {
      WithinLater(cfg, b.active[k], now, later, counts(b.active[k].serial));
    }
    hide Within;
  }

  function CountsOf(cfg: Settings, events: seq<Event>): nat -> nat
    requires cfg.Valid()
  {
    serial => Appearances(cfg, events, serial)
  }

  lemma SameCounts(cfg: Settings, b: Board, now: real, a: nat -> nat, c: nat -> nat)
    requires cfg.Valid() && Budgeted(cfg, b, now, a) && forall serial :: a(serial) == c(serial)
    ensures Budgeted(cfg, b, now, c)
  {
    hide Within;
  }

  lemma {:induction false} RunsAreBudgeted(cfg: Settings, events: seq<Event>)
    requires cfg.Valid() && ClockNeverStepsBack(events) && events != []
    ensures Budgeted(cfg, After(cfg, events), TimeOf(events[|events| - 1]), CountsOf(cfg, events))
  {
    var before, ev := events[..|events| - 1], events[|events| - 1];
    var b, now, counts := After(cfg, before), TimeOf(ev), CountsOf(cfg, before);
    if before != [] {
      RunsAreBudgeted(cfg, before);
      BudgetedLater(cfg, b, TimeOf(before[|before| - 1]), now, counts);
    }
    assert Budgeted(cfg, b, now, counts);
    EpisodesAreConserved(cfg, before);
    hide Budgeted, Conserved, Within, Observe, Popped, ListedAsReminder;
    match ev
    case Seen(k, s) =>
      ObserveBudgeted(cfg, b, k, s, counts);
      SameCounts(cfg, After(cfg, events), now, counts, CountsOf(cfg, events));
    case Pop(at) =>
      PopBudgeted(cfg, b, Delivered(cfg, before), at, counts);
      SameCounts(cfg, After(cfg, events), now, Bumped(cfg, b, at, counts), CountsOf(cfg, events));
    case Acknowledge(_) =>
      AcknowledgeBudgeted(cfg, b, now, counts);
      SameCounts(cfg, After(cfg, events), now, counts, CountsOf(cfg, events));
  }

  lemma AcknowledgeBudgeted(cfg: Settings, b: Board, now: real, counts: nat -> nat)
    requires cfg.Valid() && Budgeted(cfg, b, now, counts)
    ensures Budgeted(cfg, AcknowledgeInitials(b), now, counts)
  {
  }

  /** In every run whose clock never steps back, an active episode of age a has been listed as a reminder
      at most once for each scheduled age up to a + coalesce, and once for each whole repeat by which
      a + coalesce exceeds the last scheduled age. */
  lemma ActiveRemindersAreBudgeted(cfg: Settings, events: seq<Event>, k: Key)
    requires cfg.Valid() && ClockNeverStepsBack(events) && k in After(cfg, events).active
    ensures
      var e := After(cfg, events).active[k];
      var reach := TimeOf(events[|events| - 1]) - e.started + cfg.coalesce;
      Appearances(cfg, events, e.serial) <= CountUpTo(cfg.schedule, reach) + TailCount(cfg, reach)
  {
    hide Within, Appearances, TailCount, CountUpTo, ClockNeverStepsBack, Step;
    RunsAreBudgeted(cfg, events);
    var e := After(cfg, events).active[k];
    WithinBudget(cfg, e, TimeOf(events[|events| - 1]), CountsOf(cfg, events)(e.serial));
  }

  /** The same for an episode that awaits its delivery, whose age is the one at which it closed. */
  lemma ClosedRemindersAreBudgeted(cfg: Settings, events: seq<Event>, i: nat)
    requires cfg.Valid() && ClockNeverStepsBack(events) && i < |After(cfg, events).recovered|
    ensures
      var e := After(cfg, events).recovered[i];
      e.closedAt.Some? &&
      var reach := e.closedAt.value - e.started + cfg.coalesce;
      Appearances(cfg, events, e.serial) <= CountUpTo(cfg.schedule, reach) + TailCount(cfg, reach)
  {
    hide Within, Appearances, TailCount, CountUpTo, ClockNeverStepsBack, Step;
    RunsAreBudgeted(cfg, events);
    var e := After(cfg, events).recovered[i];
    WithinBudget(cfg, e, e.closedAt.value, CountsOf(cfg, events)(e.serial));
  }

  /** The episodes delivered as recovered, in order. */
  function DeliveredEpisodes(cfg: Settings, events: seq<Event>): seq<Episode>
    requires cfg.Valid()
  {
    if events == [] then []
    else
      var before, ev := events[..|events| - 1], events[|events| - 1];
      DeliveredEpisodes(cfg, before) + if ev.Pop? then BatchOf(cfg, After(cfg, before), ev.at).recovered else []
  }

  lemma {:induction false} DeliveredSerials(cfg: Settings, events: seq<Event>)
    requires cfg.Valid()
    ensures Serials(DeliveredEpisodes(cfg, events)) == Delivered(cfg, events)
  {
    if events != [] {
      var before, ev := events[..|events| - 1], events[|events| - 1];
      DeliveredSerials(cfg, before);
      if ev.Pop? {
        SerialsAppend(DeliveredEpisodes(cfg, before), BatchOf(cfg, After(cfg, before), ev.at).recovered);
      }
      hide BatchOf, After;
    }
  }

  /** An episode that is delivered already is not listed any more. */
  lemma {:induction false} DeliveredIsNotListed(cfg: Settings, before: seq<Event>, now: real, i: nat)
    requires cfg.Valid() && i < |DeliveredEpisodes(cfg, before)|
    ensures !ListedAsReminder(cfg, After(cfg, before), now, DeliveredEpisodes(cfg, before)[i].serial)
  {
    hide After, DeliveredEpisodes, Delivered, Conserved, ListedAsReminder;
    var serial := DeliveredEpisodes(cfg, before)[i].serial;
    DeliveredSerials(cfg, before);
    assert Serials(DeliveredEpisodes(cfg, before))[i] == serial;
    EpisodesAreConserved(cfg, before);
    if ListedAsReminder(cfg, After(cfg, before), now, serial) {
      PopCountsNoOther(cfg, After(cfg, before), Delivered(cfg, before), now, serial);
      assert false;
    }
  }

  /** An episode delivered by this pop is not listed by it, and was within its budget before. */
  lemma {:induction false} FlushedIsWithin(cfg: Settings, before: seq<Event>, now: real, i: nat)
    requires cfg.Valid() && ClockNeverStepsBack(before) && i < |BatchOf(cfg, After(cfg, before), now).recovered|
    ensures
      var e := BatchOf(cfg, After(cfg, before), now).recovered[i];
      e.closedAt.Some? && Within(cfg, e, e.closedAt.value, Appearances(cfg, before, e.serial)) &&
      !ListedAsReminder(cfg, After(cfg, before), now, e.serial)
  {
    hide Step, Within, Appearances, ListedAsReminder, Conserved, Delivered, ClockNeverStepsBack;
    var b := After(cfg, before);
    var j := SelectKeeps(cfg, b.recovered, now, true, i);
    RunsAreBudgeted(cfg, before);
    EpisodesAreConserved(cfg, before);
    var serial := b.recovered[j].serial;
    assert CountsOf(cfg, before)(serial) == Appearances(cfg, before, serial);
    if ListedAsReminder(cfg, b, now, serial) {
      PopCountsNoOther(cfg, b, Delivered(cfg, before), now, serial);
      assert false;
    }
  }

  lemma FrontClock(events: seq<Event>)
    requires events != [] && ClockNeverStepsBack(events)
    ensures ClockNeverStepsBack(events[..|events| - 1])
  {
  }

  lemma {:induction false} DeliveredIsWithin(cfg: Settings, events: seq<Event>, i: nat)
    requires cfg.Valid() && ClockNeverStepsBack(events) && i < |DeliveredEpisodes(cfg, events)|
    ensures
      var e := DeliveredEpisodes(cfg, events)[i];
      e.closedAt.Some? && Within(cfg, e, e.closedAt.value, Appearances(cfg, events, e.serial))
  {
    hide After, Within, ListedAsReminder, BatchOf, ClockNeverStepsBack;
    var before, ev := events[..|events| - 1], events[|events| - 1];
    FrontClock(events);
    var delivered := DeliveredEpisodes(cfg, before);
    if i < |delivered| {
      DeliveredIsWithin(cfg, before, i);
      if ev.Pop? {
        DeliveredIsNotListed(cfg, before, ev.at, i);
      }
    } else {
      FlushedIsWithin(cfg, before, ev.at, i - |delivered|);
    }
  }

  /** The same for an episode that was delivered, however long ago: its count stays what it was when it
      closed. */
  lemma {:induction false} DeliveredRemindersAreBudgeted(cfg: Settings, events: seq<Event>, i: nat)
    requires cfg.Valid() && ClockNeverStepsBack(events) && i < |DeliveredEpisodes(cfg, events)|
    ensures
      var e := DeliveredEpisodes(cfg, events)[i];
      e.closedAt.Some? &&
      var reach := e.closedAt.value - e.started + cfg.coalesce;
      Appearances(cfg, events, e.serial) <= CountUpTo(cfg.schedule, reach) + TailCount(cfg, reach)
    ensures Serials(DeliveredEpisodes(cfg, events)) == Delivered(cfg, events)
  {
    hide Within, Appearances, TailCount, CountUpTo, ClockNeverStepsBack, DeliveredEpisodes, Delivered;
    DeliveredSerials(cfg, events);
    DeliveredIsWithin(cfg, events, i);
    var e := DeliveredEpisodes(cfg, events)[i];
    WithinBudget(cfg, e, e.closedAt.value, Appearances(cfg, events, e.serial));
  }
}
