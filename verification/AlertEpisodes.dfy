/** Irregular episodes and the coordinator that decides when to notify about them
    (app/alert_episodes.py), on values. */
module AlertEpisodes {
  import opened Common
  import opened RebootSafety

  // ---------- history ----------

  datatype StepKind = StateStep | RestartStep

  datatype HistoryStep = HistoryStep(at: real, kind: StepKind, caption: string, evidence: string, eventId: Option<int>)

  const RESTART_CAPTION := "REINICIO"

  /** Append, or replace the last step when it shows the same thing (same kind, same caption). */
  function Merge(history: seq<HistoryStep>, step: HistoryStep): seq<HistoryStep> {
    var n := |history|;
    if n > 0 && history[n - 1].kind == step.kind && history[n - 1].caption == step.caption
    then history[..n - 1] + [step]
    else history + [step]
  }

  /** Keep the first step and the most recent ones. */
  function Trim(history: seq<HistoryStep>, bound: nat): seq<HistoryStep>
    requires bound >= 2
  {
    if |history| <= bound then history else [history[0]] + history[|history| - (bound - 1)..]
  }

  function AddStep(history: seq<HistoryStep>, step: HistoryStep, bound: nat): seq<HistoryStep>
    requires bound >= 2
  {
    Trim(Merge(history, step), bound)
  }

  function TagLast(history: seq<HistoryStep>, eventId: int): seq<HistoryStep> {
    var n := |history|;
    if n == 0 then history else history[n - 1 := history[n - 1].(eventId := Some(eventId))]
  }

  // ---------- episodes ----------

  datatype Settings = Settings(coalesce: real, schedule: seq<real>, repeat: real, maxHistory: nat)
  {
    /** What the coordinator's constructor establishes from any configuration. */
    ghost predicate Valid() {
      coalesce >= 0.0 && repeat >= 60.0 && maxHistory >= 4 && schedule != [] && schedule[0] >= 1.0 &&
      forall i, j :: 0 <= i < j < |schedule| ==> schedule[i] < schedule[j]
    }
  }

  const DEFAULT_AGE := 300.0

  /** Insert into an ascending list, dropping a value that is already there. */
  function InsertAge(x: real, ages: seq<real>): seq<real> {
    if ages == [] then [x]
    else if x < ages[0] then [x] + ages
    else if x == ages[0] then ages
    else [ages[0]] + InsertAge(x, ages[1..])
  }

  /** The distinct configured ages in ascending order, none below one second. */
  function Ages(configured: seq<real>): seq<real> {
    if configured == [] then [] else InsertAge(MaxReal(1.0, configured[0]), Ages(configured[1..]))
  }

  /** The settings that the coordinator makes of any configuration. */
  function Configured(coalesce: real, schedule: seq<real>, repeat: real, maxHistory: int): Settings {
    Settings(MaxReal(0.0, coalesce), if schedule == [] then [DEFAULT_AGE] else Ages(schedule),
             MaxReal(60.0, repeat), MaxInt(4, maxHistory))
  }

  ghost predicate StrictlyAscending(s: seq<real>) {
    forall i, j :: 0 <= i < j < |s| ==> s[i] < s[j]
  }

  lemma {:induction false} InsertAgeFacts(x: real, ages: seq<real>)
    requires StrictlyAscending(ages)
    ensures StrictlyAscending(InsertAge(x, ages))
    ensures forall v :: v in InsertAge(x, ages) <==> v == x || v in ages
  {
    if ages != [] {
      assert forall v :: v in ages <==> v == ages[0] || v in ages[1..];
      if x > ages[0] {
        var rest := InsertAge(x, ages[1..]);
        InsertAgeFacts(x, ages[1..]);
        forall j | 0 <= j < |rest| ensures ages[0] < rest[j] {
          assert rest[j] in rest;
        }
      }
    }
  }

  predicate IsConfigured(configured: seq<real>, v: real) {
    exists i :: 0 <= i < |configured| && v == MaxReal(1.0, configured[i])
  }

  lemma {:induction false} AgesFacts(configured: seq<real>)
    ensures StrictlyAscending(Ages(configured))
    ensures forall v :: v in Ages(configured) <==> IsConfigured(configured, v)
  {
    if configured != [] {
      AgesFacts(configured[1..]);
      InsertAgeFacts(MaxReal(1.0, configured[0]), Ages(configured[1..]));
      forall v
        ensures IsConfigured(configured, v) <==> v == MaxReal(1.0, configured[0]) || IsConfigured(configured[1..], v)
      {
        if i :| 0 <= i < |configured| && v == MaxReal(1.0, configured[i]) && i > 0 {
          assert configured[1..][i - 1] == configured[i];
        }
      }
    }
  }

  /** Whatever is configured, the coordinator runs on valid settings, whose schedule holds exactly the
      configured ages, raised to one second, or the default when none is configured. The other settings are the
      configured ones unless those are out of range. */
  lemma ConfiguredIsValid(coalesce: real, schedule: seq<real>, repeat: real, maxHistory: int)
    ensures
      var cfg := Configured(coalesce, schedule, repeat, maxHistory);
      cfg.Valid() && cfg.coalesce == (if coalesce < 0.0 then 0.0 else coalesce) &&
      cfg.repeat == (if repeat < 60.0 then 60.0 else repeat) &&
      cfg.maxHistory == (if maxHistory < 4 then 4 else maxHistory) &&
      forall v :: v in cfg.schedule <==>
        if schedule == [] then v == DEFAULT_AGE
        else IsConfigured(schedule, v)
  {
    AgesFacts(schedule);
    if schedule != [] {
      assert MaxReal(1.0, schedule[0]) in Ages(schedule);
      assert Ages(schedule)[0] in Ages(schedule);
    }
  }

  /** `serial` numbers the episodes in the order in which they were opened. */
  datatype Episode = Episode(
    serial: nat,
    started: real,
    state: Health,
    initialDue: real,
    history: seq<HistoryStep>,
    noticeSent: bool,
    updateDue: Option<real>,
    reminderIndex: nat,
    repeatIndex: nat,
    closedAt: Option<real>,
    recoveryDue: Option<real>)

  /** One observation of a miner. The captions and the evidence text are made elsewhere. */
  datatype Sighting = Sighting(
    previousState: Health,
    previousCaption: string,
    state: Health,
    caption: string,
    evidence: string,
    now: real,
    eventId: Option<int>,
    restart: Option<Restarted>)

  datatype Restarted = Restarted(eventId: Option<int>, evidence: string)

  predicate OpensEpisode(s: Sighting) {
    !s.state.Ok? || s.restart.Some?
  }

  function StateStepOf(s: Sighting): HistoryStep {
    HistoryStep(s.now, StateStep, s.caption, s.evidence, s.eventId)
  }

  /** A new episode starts from the state before; the current state waits when a restart comes first. */
  function FirstSteps(s: Sighting, bound: nat): seq<HistoryStep>
    requires bound >= 2
  {
    var before := if s.previousState != s.state
                  then AddStep([], HistoryStep(s.now, StateStep, s.previousCaption, "", None), bound)
                  else [];
    if s.restart.None? then AddStep(before, StateStepOf(s), bound) else before
  }

  function NewEpisode(cfg: Settings, serial: nat, s: Sighting): Episode
    requires cfg.maxHistory >= 2
  {
    Episode(serial, s.now, s.state, s.now + cfg.coalesce, FirstSteps(s, cfg.maxHistory), false, None, 0, 1, None, None)
  }

  function NoteRestart(cfg: Settings, e: Episode, s: Sighting): Episode
    requires cfg.maxHistory >= 2
  {
    if s.restart.None? then e
    else
      var step := HistoryStep(s.now, RestartStep, RESTART_CAPTION, s.restart.value.evidence, s.restart.value.eventId);
      e.(history := AddStep(e.history, step, cfg.maxHistory),
         updateDue := if e.noticeSent then Some(s.now + cfg.coalesce) else e.updateDue)
  }

  function NoteState(cfg: Settings, e: Episode, s: Sighting): Episode
    requires cfg.maxHistory >= 2
  {
    if e.history == [] || e.history[|e.history| - 1].caption != s.caption
    then e.(history := AddStep(e.history, StateStepOf(s), cfg.maxHistory))
    else if s.eventId.Some? then e.(history := TagLast(e.history, s.eventId.value))
    else e
  }

  function Close(cfg: Settings, e: Episode, now: real): Episode {
    e.(closedAt := Some(now),
       recoveryDue := Some(MaxReal(e.initialDue, now + if e.noticeSent then cfg.coalesce else 0.0)))
  }

  /** The episode after an observation, before it is filed as active or recovered. */
  function Sighted(cfg: Settings, e: Episode, s: Sighting): Episode
    requires cfg.maxHistory >= 2
  {
    var noted := NoteState(cfg, NoteRestart(cfg, e.(state := s.state), s), s);
    if s.state.Ok? then Close(cfg, noted, s.now) else noted
  }

  // ---------- the coordinator ----------

  datatype Board = Board(active: map<Key, Episode>, recovered: seq<Episode>, nextSerial: nat)

  const EMPTY_BOARD := Board(map[], [], 0)

  function Observe(cfg: Settings, b: Board, k: Key, s: Sighting): Board
    requires cfg.maxHistory >= 2
  {
    if k !in b.active && !OpensEpisode(s) then b
    else
      var isNew := k !in b.active;
      var before := if isNew then NewEpisode(cfg, b.nextSerial, s) else b.active[k];
      var after := Sighted(cfg, before, s);
      var serial := b.nextSerial + if isNew then 1 else 0;
      if s.state.Ok? then Board(b.active - {k}, b.recovered + [after], serial)
      else Board(b.active[k := after], b.recovered, serial)
  }

  function AcknowledgeInitials(b: Board): Board {
    b.(active := map k | k in b.active :: b.active[k].(noticeSent := true))
  }

  /** Skip every scheduled reminder that the age has already passed. */
  function AdvanceMissed(cfg: Settings, index: nat, age: real): (r: nat)
    ensures index <= r && (index < r ==> r <= |cfg.schedule|)
    ensures forall i :: index <= i < r ==> cfg.schedule[i] <= age
    ensures r < |cfg.schedule| ==> age < cfg.schedule[r]
    decreases |cfg.schedule| - index
  {
    if index < |cfg.schedule| && age >= cfg.schedule[index] then AdvanceMissed(cfg, index + 1, age) else index
  }

  /** The age at which the next reminder is due: along the schedule, then one repeat after another. */
  function ReminderAge(cfg: Settings, reminderIndex: nat, repeatIndex: nat): real
    requires cfg.schedule != []
  {
    if reminderIndex < |cfg.schedule| then cfg.schedule[reminderIndex]
    else cfg.schedule[|cfg.schedule| - 1] + cfg.repeat * repeatIndex as real
  }

  function NextReminder(cfg: Settings, e: Episode): Option<real>
    requires cfg.schedule != []
  {
    if !e.noticeSent || e.updateDue.Some? then None
    else Some(e.started + ReminderAge(cfg, e.reminderIndex, e.repeatIndex))
  }

  predicate OpeningDue(e: Episode, now: real) {
    (!e.noticeSent && now >= e.initialDue) || (e.updateDue.Some? && now >= e.updateDue.value)
  }

  predicate ReminderDue(cfg: Settings, e: Episode, now: real)
    requires cfg.schedule != []
  {
    NextReminder(cfg, e).Some? && now >= NextReminder(cfg, e).value
  }

  datatype Listing = Opened | Persistent | Unlisted

  /** One active episode in a pop, given whether anything at all is due to be opened or reminded. */
  function PopOne(cfg: Settings, e: Episode, now: real, opening: bool, reminding: bool): (Episode, Listing)
    requires cfg.schedule != []
  {
    var age := MaxReal(0.0, now - e.started);
    if (!e.noticeSent && opening) || (e.updateDue.Some? && now >= e.updateDue.value) then
      (e.(noticeSent := e.noticeSent || opening, updateDue := None,
          reminderIndex := AdvanceMissed(cfg, e.reminderIndex, age)), Opened)
    else if !e.noticeSent || !reminding || e.updateDue.Some? || NextReminder(cfg, e).value > now + cfg.coalesce then
      (e, Unlisted)
    else if e.reminderIndex < |cfg.schedule| then
      (e.(reminderIndex := AdvanceMissed(cfg, e.reminderIndex + 1, age)), Persistent)
    else
      (e.(repeatIndex := e.repeatIndex + 1), Persistent)
  }

  predicate RecoveryDue(e: Episode, now: real) {
    e.recoveryDue.Some? && now >= e.recoveryDue.value
  }

  predicate Flushes(cfg: Settings, e: Episode, now: real) {
    e.recoveryDue.Some? && e.recoveryDue.value <= now + cfg.coalesce
  }

  function Select(cfg: Settings, list: seq<Episode>, now: real, flushed: bool): seq<Episode> {
    if list == [] then []
    else (if Flushes(cfg, list[0], now) == flushed then [list[0]] else []) + Select(cfg, list[1..], now, flushed)
  }

  /** What one pop lists. The order inside a list is a matter of display. */
  datatype Batch = Batch(openedNow: set<Key>, persistent: set<Key>, recovered: seq<Episode>)

  predicate AnyOpening(b: Board, now: real) {
    exists k :: k in b.active && OpeningDue(b.active[k], now)
  }

  predicate AnyReminder(cfg: Settings, b: Board, now: real)
    requires cfg.schedule != []
  {
    exists k :: k in b.active && ReminderDue(cfg, b.active[k], now)
  }

  predicate AnyRecovery(b: Board, now: real) {
    exists i :: 0 <= i < |b.recovered| && RecoveryDue(b.recovered[i], now)
  }

  function ListingOf(cfg: Settings, b: Board, now: real, k: Key): (Episode, Listing)
    requires cfg.schedule != [] && k in b.active
  {
    PopOne(cfg, b.active[k], now, AnyOpening(b, now), AnyReminder(cfg, b, now))
  }

  function Popped(cfg: Settings, b: Board, now: real): Board
    requires cfg.schedule != []
  {
    Board(map k | k in b.active :: ListingOf(cfg, b, now, k).0,
          if AnyRecovery(b, now) then Select(cfg, b.recovered, now, false) else b.recovered,
          b.nextSerial)
  }

  function BatchOf(cfg: Settings, b: Board, now: real): Batch
    requires cfg.schedule != []
  {
    Batch(set k | k in b.active && ListingOf(cfg, b, now, k).1.Opened?,
          set k | k in b.active && ListingOf(cfg, b, now, k).1.Persistent?,
          if AnyRecovery(b, now) then Select(cfg, b.recovered, now, true) else [])
  }
}
