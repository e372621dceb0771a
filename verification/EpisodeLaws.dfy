/** What the episode coordinator guarantees over whole runs of observations and pops. */
module EpisodeLaws {
  import opened Common
  import opened RebootSafety
  import opened AlertEpisodes

  // ---------- the bounded history refines the unbounded log ----------

  datatype HistoryOp = Add(step: HistoryStep) | Tag(eventId: int)

  /** The log that nothing is ever dropped from. */
  function FullLog(ops: seq<HistoryOp>): seq<HistoryStep> {
    if ops == [] then []
    else
      var before := FullLog(ops[..|ops| - 1]);
      match ops[|ops| - 1]
      case Add(step) => Merge(before, step)
      case Tag(id) => TagLast(before, id)
  }

  function BoundedLog(ops: seq<HistoryOp>, bound: nat): seq<HistoryStep>
    requires bound >= 2
  {
    if ops == [] then []
    else
      var before := BoundedLog(ops[..|ops| - 1], bound);
      match ops[|ops| - 1]
      case Add(step) => AddStep(before, step, bound)
      case Tag(id) => TagLast(before, id)
  }

  lemma DropBehindFirst<T>(first: T, rest: seq<T>, k: nat)
    requires 1 <= k <= |rest| + 1
    ensures ([first] + rest)[k..] == rest[k - 1..]
  {
  }

  lemma DropTwice<T>(s: seq<T>, j: nat, k: nat)
    requires j + k <= |s|
    ensures s[j..][k..] == s[j + k..]
  {
  }

  lemma DropFromAppended<T>(s: seq<T>, e: T, k: nat)
    requires k <= |s|
    ensures (s + [e])[k..] == s[k..] + [e]
  {
  }

  lemma TrimThenAppend(log: seq<HistoryStep>, step: HistoryStep, bound: nat)
    requires bound >= 2
    ensures Trim(Trim(log, bound) + [step], bound) == Trim(log + [step], bound)
  {
    hide Trim;
    if |log| > bound {
      var n := |log| - (bound - 1);
      TrimOfLong(log, bound);
      TrimOfAppended(log, step, bound);
      TrimOfAppended(Trim(log, bound), step, bound);
      DropBehindFirst(log[0], log[n..], 2);
      DropTwice(log, n, 1);
    } else {
      TrimOfShort(log, bound);
    }
  }

  lemma TrimOfShort(log: seq<HistoryStep>, bound: nat)
    requires bound >= 2 && |log| <= bound
    ensures Trim(log, bound) == log
  {
  }

  lemma TrimOfLong(log: seq<HistoryStep>, bound: nat)
    requires bound >= 2 && |log| > bound
    ensures Trim(log, bound) == [log[0]] + log[|log| - (bound - 1)..]
  {
  }

  lemma TrimOfAppended(log: seq<HistoryStep>, step: HistoryStep, bound: nat)
    requires 2 <= bound <= |log|
    ensures Trim(log + [step], bound) == [log[0]] + (log[|log| - (bound - 2)..] + [step])
  {
    DropFromAppended(log, step, |log| - (bound - 2));
  }

  lemma TrimThenReplace(log: seq<HistoryStep>, step: HistoryStep, bound: nat)
    requires bound >= 2 && log != []
    ensures
      var kept := Trim(log, bound);
      kept[|kept| - 1] == log[|log| - 1] && kept[..|kept| - 1] + [step] == Trim(log[..|log| - 1] + [step], bound)
  {
    if |log| > bound {
      var n := |log| - (bound - 1);
      assert Trim(log, bound)[..bound - 1] == [log[0]] + log[n..|log| - 1];
      assert (log[..|log| - 1] + [step])[n..] == log[n..|log| - 1] + [step];
      assert [log[0]] + (log[n..|log| - 1] + [step]) == ([log[0]] + log[n..|log| - 1]) + [step];
    }
  }

  lemma TrimThenAdd(log: seq<HistoryStep>, step: HistoryStep, bound: nat)
    requires bound >= 2
    ensures AddStep(Trim(log, bound), step, bound) == Trim(Merge(log, step), bound)
  {
    TrimThenAppend(log, step, bound);
    if log != [] {
      TrimThenReplace(log, step, bound);
      TrimTwice(log[..|log| - 1] + [step], bound);
    }
    assert Trim(log, bound) == [] <==> log == [];
    hide Trim;
  }

  lemma TrimTwice(log: seq<HistoryStep>, bound: nat)
    requires bound >= 2
    ensures Trim(Trim(log, bound), bound) == Trim(log, bound)
  {
  }

  lemma TrimThenTag(log: seq<HistoryStep>, id: int, bound: nat)
    requires bound >= 2
    ensures TagLast(Trim(log, bound), id) == Trim(TagLast(log, id), bound)
  {
    var kept := Trim(log, bound);
    if |log| > bound {
      assert kept[|kept| - 1] == log[|log| - 1];
    }
  }

  /** Trimming after every step gives what trimming the whole log once would give: the first step and the
      last bound - 1 steps. */
  lemma {:induction false} BoundedRefinesFull(ops: seq<HistoryOp>, bound: nat)
    requires bound >= 2
    ensures BoundedLog(ops, bound) == Trim(FullLog(ops), bound)
    ensures |BoundedLog(ops, bound)| <= bound
  {
    if ops != [] {
      var n := |ops| - 1;
      BoundedRefinesFull(ops[..n], bound);
      match ops[n]
      case Add(step) => TrimThenAdd(FullLog(ops[..n]), step, bound);
      case Tag(id) => TrimThenTag(FullLog(ops[..n]), id, bound);
    }
  }

  predicate Repeats(step: HistoryStep, before: HistoryStep) {
    before.kind == step.kind && before.caption == step.caption
  }

  ghost predicate HasNoRepeats(log: seq<HistoryStep>) {
    forall i :: 0 < i < |log| ==> !Repeats(log[i], log[i - 1])
  }

  lemma MergedStep(log: seq<HistoryStep>, step: HistoryStep)
    requires HasNoRepeats(log)
    ensures HasNoRepeats(Merge(log, step))
    ensures
      if log != [] && Repeats(step, log[|log| - 1]) then Merge(log, step) == log[..|log| - 1] + [step]
      else Merge(log, step) == log + [step]
  {
  }

  lemma TaggedStep(log: seq<HistoryStep>, eventId: int)
    requires HasNoRepeats(log)
    ensures HasNoRepeats(TagLast(log, eventId))
  {
  }

  /** No step of the log repeats the one before it; a step that is added ends the log, and takes the place of
      the last one exactly when it repeats it. */
  lemma {:induction false} LogHasNoRepeats(ops: seq<HistoryOp>)
    ensures HasNoRepeats(FullLog(ops))
    ensures ops != [] && ops[|ops| - 1].Add? ==>
      var before, step := FullLog(ops[..|ops| - 1]), ops[|ops| - 1].step;
      if before != [] && Repeats(step, before[|before| - 1]) then FullLog(ops) == before[..|before| - 1] + [step]
      else FullLog(ops) == before + [step]
  {
    hide Merge, TagLast, HasNoRepeats, Repeats;
    if ops == [] {
      assert HasNoRepeats([]) by {
        EmptyHasNoRepeats();
      }
    } else {
      var before := FullLog(ops[..|ops| - 1]);
      LogHasNoRepeats(ops[..|ops| - 1]);
      match ops[|ops| - 1]
      case Add(step) => MergedStep(before, step);
      case Tag(id) => TaggedStep(before, id);
    }
  }

  lemma EmptyHasNoRepeats()
    ensures HasNoRepeats([])
  {
  }

  /** The kind and the caption of the first step are settled by the first call. */
  lemma {:induction false} FirstStepStays(ops: seq<HistoryOp>, bound: nat)
    requires bound >= 2 && ops != [] && ops[0].Add?
    ensures
      var log := BoundedLog(ops, bound);
      log != [] && log[0].kind == ops[0].step.kind && log[0].caption == ops[0].step.caption
  {
    var n := |ops| - 1;
    if n > 0 {
      FirstStepStays(ops[..n], bound);
    } else {
      assert ops[..n] == [];
    }
  }

  // ---------- runs ----------

  datatype Event =
    | Seen(key: Key, sighting: Sighting)
    | Pop(at: real)
    | Acknowledge(at: real)

  function TimeOf(ev: Event): real {
    if ev.Seen? then ev.sighting.now else ev.at
  }

  function Step(cfg: Settings, b: Board, ev: Event): Board
    requires cfg.Valid()
  {
    match ev
    case Seen(k, s) => Observe(cfg, b, k, s)
    case Pop(now) => Popped(cfg, b, now)
    case Acknowledge(_) => AcknowledgeInitials(b)
  }

  function After(cfg: Settings, events: seq<Event>): Board
    requires cfg.Valid()
  {
    if events == [] then EMPTY_BOARD else Step(cfg, After(cfg, events[..|events| - 1]), events[|events| - 1])
  }

  function Serials(list: seq<Episode>): seq<nat> {
    seq(|list|, i requires 0 <= i < |list| => list[i].serial)
  }

  /** The serial numbers of all episodes delivered as recovered, in order. */
  function Delivered(cfg: Settings, events: seq<Event>): seq<nat>
    requires cfg.Valid()
  {
    if events == [] then []
    else
      var before := events[..|events| - 1];
      var ev := events[|events| - 1];
      Delivered(cfg, before) + if ev.Pop? then Serials(BatchOf(cfg, After(cfg, before), ev.at).recovered) else []
  }

  // ---------- what one observation or one pop leaves of an episode ----------

  lemma SightedKeeps(cfg: Settings, e: Episode, s: Sighting)
    requires cfg.maxHistory >= 2
    ensures
      var r := Sighted(cfg, e, s);
      r.serial == e.serial && r.started == e.started && r.initialDue == e.initialDue &&
      r.reminderIndex == e.reminderIndex && r.repeatIndex == e.repeatIndex && r.noticeSent == e.noticeSent
    ensures
      var r := Sighted(cfg, e, s);
      if s.state.Ok?
      then r.closedAt == Some(s.now) &&
           r.recoveryDue == Some(MaxReal(e.initialDue, s.now + if e.noticeSent then cfg.coalesce else 0.0))
      else r.closedAt == e.closedAt && r.recoveryDue == e.recoveryDue
  {
    hide AddStep, TagLast;
  }

  lemma NewEpisodeIs(cfg: Settings, serial: nat, s: Sighting)
    requires cfg.maxHistory >= 2
    ensures
      var r := NewEpisode(cfg, serial, s);
      r.serial == serial && r.started == s.now && r.initialDue == s.now + cfg.coalesce && !r.noticeSent &&
      r.reminderIndex == 0 && r.repeatIndex == 1 && r.closedAt.None? && r.recoveryDue.None?
  {
  }

  lemma PopOneKeeps(cfg: Settings, e: Episode, now: real, opening: bool, reminding: bool)
    requires cfg.schedule != []
    ensures
      var r := PopOne(cfg, e, now, opening, reminding).0;
      r.serial == e.serial && r.started == e.started && r.initialDue == e.initialDue &&
      r.closedAt == e.closedAt && r.recoveryDue == e.recoveryDue
  {
  }

  // ---------- conservation ----------

  /** The keys under which an episode is active. */
  function Holders(b: Board, serial: nat): set<Key> {
    set k | k in b.active && b.active[k].serial == serial
  }

  /** How often an episode is active, awaiting delivery, or delivered. */
  function Places(b: Board, delivered: seq<nat>, serial: nat): nat {
    |Holders(b, serial)| + multiset(Serials(b.recovered))[serial] + multiset(delivered)[serial]
  }

  ghost predicate Conserved(b: Board, delivered: seq<nat>) {
    forall serial: nat :: Places(b, delivered, serial) == if serial < b.nextSerial then 1 else 0
  }

  lemma SerialsAppend(a: seq<Episode>, b: seq<Episode>)
    ensures Serials(a + b) == Serials(a) + Serials(b)
  {
  }

  /** A flush splits the recovered list without losing or doubling anything. */
  lemma {:induction false} SelectSplits(cfg: Settings, list: seq<Episode>, now: real)
    ensures multiset(Serials(list)) ==
            multiset(Serials(Select(cfg, list, now, true))) + multiset(Serials(Select(cfg, list, now, false)))
  {
    if list != [] {
      SelectSplits(cfg, list[1..], now);
      var head, flag := [list[0]], Flushes(cfg, list[0], now);
      assert list == head + list[1..];
      SerialsAppend(head, list[1..]);
      SerialsAppend(head, Select(cfg, list[1..], now, flag));
      assert Select(cfg, list, now, flag) == head + Select(cfg, list[1..], now, flag);
      assert Select(cfg, list, now, !flag) == Select(cfg, list[1..], now, !flag);
    }
  }

  lemma HoldersAfterSight(b: Board, k: Key, e: Episode, closing: bool, serial: nat)
    requires k in b.active ==> b.active[k].serial == e.serial
    ensures
      var active := if closing then b.active - {k} else b.active[k := e];
      Holders(b.(active := active), serial) ==
        if serial != e.serial then Holders(b, serial)
        else if closing then Holders(b, serial) - {k}
        else Holders(b, serial) + {k}
  {
  }

  lemma ObserveConserves(cfg: Settings, b: Board, k: Key, s: Sighting, delivered: seq<nat>)
    requires cfg.Valid() && Conserved(b, delivered)
    ensures Conserved(Observe(cfg, b, k, s), delivered)
  {
    var after := Observe(cfg, b, k, s);
    if after != b {
      var was := if k in b.active then b.active[k] else NewEpisode(cfg, b.nextSerial, s);
      var e := Sighted(cfg, was, s);
      assert e.serial == was.serial by { SightedKeeps(cfg, was, s); }
      assert k !in b.active ==> was.serial == b.nextSerial by { NewEpisodeIs(cfg, b.nextSerial, s); }
      hide Sighted, NewEpisode;
      SerialsAppend(b.recovered, [e]);
      forall serial: nat
        ensures Places(after, delivered, serial) == if serial < after.nextSerial then 1 else 0
      {
        HoldersAfterSight(b, k, e, s.state.Ok?, serial);
        assert Holders(after, serial) == Holders(b.(active := after.active), serial);
        assert Places(b, delivered, serial) == if serial < b.nextSerial then 1 else 0;
      }
    }
  }

  lemma PopConserves(cfg: Settings, b: Board, now: real, delivered: seq<nat>)
    requires cfg.Valid() && Conserved(b, delivered)
    ensures Conserved(Popped(cfg, b, now), delivered + Serials(BatchOf(cfg, b, now).recovered))
  {
    var after := Popped(cfg, b, now);
    var gone := Serials(BatchOf(cfg, b, now).recovered);
    assert multiset(Serials(b.recovered)) == multiset(Serials(after.recovered)) + multiset(gone) by {
      SelectSplits(cfg, b.recovered, now);
    }
    forall k | k in b.active ensures k in after.active && after.active[k].serial == b.active[k].serial {
      PopOneKeeps(cfg, b.active[k], now, AnyOpening(b, now), AnyReminder(cfg, b, now));
    }
    assert after.active.Keys == b.active.Keys && after.nextSerial == b.nextSerial;
    hide Popped, BatchOf;
    forall serial: nat
      ensures Places(after, delivered + gone, serial) == if serial < after.nextSerial then 1 else 0
    {
      assert Holders(after, serial) == Holders(b, serial);
      assert Places(b, delivered, serial) == if serial < b.nextSerial then 1 else 0;
    }
  }

  lemma AcknowledgeConserves(b: Board, delivered: seq<nat>)
    requires Conserved(b, delivered)
    ensures Conserved(AcknowledgeInitials(b), delivered)
  {
    var after := AcknowledgeInitials(b);
    forall serial: nat ensures Places(after, delivered, serial) == if serial < after.nextSerial then 1 else 0 {
      assert Holders(after, serial) == Holders(b, serial);
      assert Places(b, delivered, serial) == if serial < b.nextSerial then 1 else 0;
    }
  }

  /** In every run each opened episode is in exactly one place: active under one key, awaiting delivery
      once, or delivered once. Nothing else is anywhere. The clock may do as it likes. */
  lemma {:induction false} EpisodesAreConserved(cfg: Settings, events: seq<Event>)
    requires cfg.Valid()
    ensures Conserved(After(cfg, events), Delivered(cfg, events))
  {
    if events != [] {
      var before, ev := events[..|events| - 1], events[|events| - 1];
      var b, delivered := After(cfg, before), Delivered(cfg, before);
      EpisodesAreConserved(cfg, before);
      assert delivered + [] == delivered;
      hide Conserved, Observe, Popped, AcknowledgeInitials;
      match ev
      case Seen(k, s) => ObserveConserves(cfg, b, k, s, delivered);
      case Pop(now) => PopConserves(cfg, b, now, delivered);
      case Acknowledge(_) => AcknowledgeConserves(b, delivered);
    }
  }

  /** At most one key holds an episode, and an awaiting or delivered one is nobody's. */
  lemma OneHolder(b: Board, delivered: seq<nat>, k: Key, serial: nat)
    requires Conserved(b, delivered) && k in b.active && b.active[k].serial == serial
    ensures serial < b.nextSerial && Holders(b, serial) == {k}
    ensures forall i :: 0 <= i < |b.recovered| ==> b.recovered[i].serial != serial
    ensures serial !in delivered
  {
    assert Places(b, delivered, serial) == if serial < b.nextSerial then 1 else 0;
    assert k in Holders(b, serial);
    assert |Holders(b, serial) - {k}| == 0;
    forall i | 0 <= i < |b.recovered| ensures b.recovered[i].serial != serial {
      assert Serials(b.recovered)[i] == b.recovered[i].serial;
      assert b.recovered[i].serial in multiset(Serials(b.recovered));
    }
  }

  // ---------- latency ----------

  ghost predicate ClockNeverStepsBack(events: seq<Event>) {
    forall i :: 0 < i < |events| ==> TimeOf(events[i - 1]) <= TimeOf(events[i])
  }

  ghost predicate ActiveOnTime(cfg: Settings, e: Episode, now: real) {
    e.initialDue == e.started + cfg.coalesce && e.started <= now && e.closedAt.None? && e.recoveryDue.None?
  }

  /** A closed episode is due for delivery within the coalescing time. */
  ghost predicate ClosedOnTime(cfg: Settings, e: Episode, now: real) {
    e.closedAt.Some? && e.recoveryDue.Some? && e.started <= e.closedAt.value <= now &&
    e.closedAt.value <= e.recoveryDue.value <= e.closedAt.value + cfg.coalesce
  }

  ghost predicate OnTime(cfg: Settings, b: Board, now: real) {
    (forall k :: k in b.active ==> ActiveOnTime(cfg, b.active[k], now)) &&
    forall i :: 0 <= i < |b.recovered| ==> ClosedOnTime(cfg, b.recovered[i], now)
  }

  lemma SightedOnTime(cfg: Settings, e: Episode, s: Sighting)
    requires cfg.Valid() && ActiveOnTime(cfg, e, s.now)
    ensures if s.state.Ok? then ClosedOnTime(cfg, Sighted(cfg, e, s), s.now)
            else ActiveOnTime(cfg, Sighted(cfg, e, s), s.now)
  {
    SightedKeeps(cfg, e, s);
    hide Sighted;
  }

  lemma ObserveOnTime(cfg: Settings, b: Board, k: Key, s: Sighting)
    requires cfg.Valid() && OnTime(cfg, b, s.now)
    ensures OnTime(cfg, Observe(cfg, b, k, s), s.now)
  {
    if k in b.active || OpensEpisode(s) {
      NewEpisodeIs(cfg, b.nextSerial, s);
      hide Sighted, NewEpisode;
      SightedOnTime(cfg, if k in b.active then b.active[k] else NewEpisode(cfg, b.nextSerial, s), s);
      hide ActiveOnTime, ClosedOnTime;
    }
  }

  lemma {:induction false} SelectKeeps(cfg: Settings, list: seq<Episode>, now: real, flushed: bool,
                                       i: nat) returns (j: nat)
    requires i < |Select(cfg, list, now, flushed)|
    ensures j < |list| && list[j] == Select(cfg, list, now, flushed)[i] && Flushes(cfg, list[j], now) == flushed
  {
    hide Flushes;
    var rest := Select(cfg, list[1..], now, flushed);
    if Flushes(cfg, list[0], now) == flushed {
      assert Select(cfg, list, now, flushed) == [list[0]] + rest;
      if i == 0 {
        j := 0;
      } else {
        j := SelectKeeps(cfg, list[1..], now, flushed, i - 1);
        j := j + 1;
      }
    } else {
      assert Select(cfg, list, now, flushed) == rest;
      j := SelectKeeps(cfg, list[1..], now, flushed, i);
      j := j + 1;
    }
  }

  lemma PopOnTime(cfg: Settings, b: Board, now: real)
    requires cfg.Valid() && OnTime(cfg, b, now)
    ensures OnTime(cfg, Popped(cfg, b, now), now)
  {
    var after := Popped(cfg, b, now);
    forall k | k in after.active ensures ActiveOnTime(cfg, after.active[k], now) {
      PopOneKeeps(cfg, b.active[k], now, AnyOpening(b, now), AnyReminder(cfg, b, now));
      hide PopOne;
    }
    hide PopOne, ClosedOnTime;
    forall i | 0 <= i < |after.recovered| ensures ClosedOnTime(cfg, after.recovered[i], now) {
      if AnyRecovery(b, now) {
        var j := SelectKeeps(cfg, b.recovered, now, false, i);
      }
    }
  }

  lemma LaterIsOnTime(cfg: Settings, b: Board, now: real, later: real)
    requires OnTime(cfg, b, now) && now <= later
    ensures OnTime(cfg, b, later)
  {
  }

  /** When the clock never steps back, every episode awaiting delivery is due between the moment it
      closed and one coalescing time later. */
  lemma {:induction false} RunsAreOnTime(cfg: Settings, events: seq<Event>)
    requires cfg.Valid() && ClockNeverStepsBack(events) && events != []
    ensures OnTime(cfg, After(cfg, events), TimeOf(events[|events| - 1]))
  {
    var before, ev := events[..|events| - 1], events[|events| - 1];
    var b := After(cfg, before);
    if before != [] {
      RunsAreOnTime(cfg, before);
      LaterIsOnTime(cfg, b, TimeOf(before[|before| - 1]), TimeOf(ev));
    }
    assert OnTime(cfg, b, TimeOf(ev));
    match ev
    case Seen(k, s) => hide Observe; ObserveOnTime(cfg, b, k, s);
    case Pop(now) => hide Popped; PopOnTime(cfg, b, now);
    case Acknowledge(_) =>
  }

  lemma RunIsOnTimeFor(cfg: Settings, events: seq<Event>, now: real)
    requires cfg.Valid() && ClockNeverStepsBack(events + [Pop(now)])
    ensures OnTime(cfg, After(cfg, events), now)
  {
    if events != [] {
      var all := events + [Pop(now)];
      assert TimeOf(all[|events| - 1]) <= TimeOf(all[|events|]);
      forall j | 0 < j < |events| ensures TimeOf(events[j - 1]) <= TimeOf(events[j]) {
        assert TimeOf(all[j - 1]) <= TimeOf(all[j]);
      }
      RunsAreOnTime(cfg, events);
      LaterIsOnTime(cfg, After(cfg, events), TimeOf(events[|events| - 1]), now);
    }
  }

  lemma FlushedWhenOnTime(cfg: Settings, e: Episode, now: real)
    requires ClosedOnTime(cfg, e, now)
    ensures Flushes(cfg, e, now)
  {
  }

  /** When the clock never steps back, a pop that delivers any recovered episode delivers all of them, and
      a pop leaves nothing behind that closed a coalescing time ago or more. */
  lemma PopFlushesWhatIsDue(cfg: Settings, events: seq<Event>, now: real)
    requires cfg.Valid() && ClockNeverStepsBack(events + [Pop(now)])
    ensures
      var b := After(cfg, events);
      var after := Popped(cfg, b, now);
      (AnyRecovery(b, now) ==> after.recovered == []) &&
      forall i :: 0 <= i < |after.recovered| ==>
        after.recovered[i].closedAt.Some? && now < after.recovered[i].closedAt.value + cfg.coalesce
  {
    var b := After(cfg, events);
    RunIsOnTimeFor(cfg, events, now);
    hide After;
    if AnyRecovery(b, now) {
      if |Select(cfg, b.recovered, now, false)| > 0 {
        var j := SelectKeeps(cfg, b.recovered, now, false, 0);
        FlushedWhenOnTime(cfg, b.recovered[j], now);
        assert false;
      }
    } else {
      forall i | 0 <= i < |b.recovered|
        ensures b.recovered[i].closedAt.Some? && now < b.recovered[i].closedAt.value + cfg.coalesce
      {
        assert !RecoveryDue(b.recovered[i], now) && ClosedOnTime(cfg, b.recovered[i], now);
      }
    }
  }

  lemma {:induction false} AnnouncementIsSet(cfg: Settings, events: seq<Event>, k: Key)
    requires cfg.Valid() && k in After(cfg, events).active
    ensures
      var e := After(cfg, events).active[k];
      e.initialDue == e.started + cfg.coalesce && e.closedAt.None? && e.recoveryDue.None?
  {
    var before, ev := events[..|events| - 1], events[|events| - 1];
    var b := After(cfg, before);
    if k in b.active {
      AnnouncementIsSet(cfg, before, k);
    }
    match ev
    case Seen(key, s) =>
      if key == k {
        NewEpisodeIs(cfg, b.nextSerial, s);
        SightedKeeps(cfg, if k in b.active then b.active[k] else NewEpisode(cfg, b.nextSerial, s), s);
      }
      hide Sighted, NewEpisode;
    case Pop(now) =>
      PopOneKeeps(cfg, b.active[k], now, AnyOpening(b, now), AnyReminder(cfg, b, now));
      hide PopOne;
    case Acknowledge(_) =>
  }

  /** The first pop that finds an unannounced episode at least one coalescing time old announces it; a
      reminder that is due is listed, and none is listed more than one coalescing time early; nothing is
      both announced and reminded in one batch. The clock may do as it likes. */
  lemma {:induction false} PopListsWhatIsDue(cfg: Settings, events: seq<Event>, now: real, k: Key)
    requires cfg.Valid() && k in After(cfg, events).active
    ensures
      var b := After(cfg, events);
      var e, batch := b.active[k], BatchOf(cfg, b, now);
      (!e.noticeSent && e.started + cfg.coalesce <= now ==> k in batch.openedNow) &&
      (ReminderDue(cfg, e, now) ==> k in batch.persistent) &&
      (k in batch.persistent ==>
         e.noticeSent && e.started + ReminderAge(cfg, e.reminderIndex, e.repeatIndex) <= now + cfg.coalesce) &&
      !(k in batch.openedNow && k in batch.persistent) &&
      (k in batch.openedNow ==> Popped(cfg, b, now).active[k].noticeSent)
  {
    AnnouncementIsSet(cfg, events, k);
    hide After;
    var b := After(cfg, events);
    var e := b.active[k];
    if !e.noticeSent && e.started + cfg.coalesce <= now {
      assert OpeningDue(e, now);
    }
  }
}
