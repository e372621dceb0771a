/** The episode objects and the coordinator that changes them in place (app/alert_episodes.py). */
module EpisodeCoordinator {
  import opened Common
  import opened RebootSafety
  import E = AlertEpisodes

  class IrregularEpisode {
    const maxHistory: nat
    const started: real
    const initialDue: real
    var state: Health
    var history: seq<E.HistoryStep>
    var noticeSent: bool
    var updateDue: Option<real>
    var reminderIndex: nat
    var repeatIndex: nat
    var closedAt: Option<real>
    var recoveryDue: Option<real>
    ghost const serial: nat
    /** The key under which the coordinator holds this episode as active. */
    ghost var place: Option<Key>

    ghost function View(): E.Episode
      reads this
    {
      E.Episode(serial, started, state, initialDue, history, noticeSent, updateDue, reminderIndex, repeatIndex,
                closedAt, recoveryDue)
    }

    constructor (cfg: E.Settings, k: Key, s: E.Sighting, ghost serial: nat)
      requires cfg.maxHistory >= 2
      ensures View() == E.NewEpisode(cfg, serial, s)
      ensures maxHistory == cfg.maxHistory && place == Some(k)
    {
      maxHistory, started, initialDue := cfg.maxHistory, s.now, s.now + cfg.coalesce;
      state, history, noticeSent, updateDue := s.state, [], false, None;
      reminderIndex, repeatIndex, closedAt, recoveryDue := 0, 1, None, None;
      this.serial, place := serial, Some(k);
      new;
      hide E.FirstSteps;
      Begin(s);
    }

    method Begin(s: E.Sighting)
      requires maxHistory >= 2 && history == []
      modifies this`history
      ensures history == E.FirstSteps(s, maxHistory)
    {
      hide E.AddStep;
      if s.previousState != s.state {
        AddStep(E.HistoryStep(s.now, E.StateStep, s.previousCaption, "", None));
      }
      if s.restart.None? {
        AddStep(E.StateStepOf(s));
      }
    }

    /** Append or replace the last step, then drop the oldest steps after the first. */
    method AddStep(step: E.HistoryStep)
      modifies this`history
      ensures history == E.AddStep(old(history), step, MaxInt(2, maxHistory))
    {
      var n := |history|;
      if n > 0 && history[n - 1].kind == step.kind && history[n - 1].caption == step.caption {
        history := history[n - 1 := step];
      } else {
        history := history + [step];
      }
      ghost var merged := history;
      assert merged == E.Merge(old(history), step);
      DropOldest();
    }

    method DropOldest()
      requires history != []
      modifies this`history
      ensures history == E.Trim(old(history), MaxInt(2, maxHistory))
    {
      while |history| > MaxInt(2, maxHistory)
        invariant 1 <= |history| <= |old(history)|
        invariant |history| == |old(history)| || |history| >= MaxInt(2, maxHistory)
        invariant history == FirstAndLast(old(history), |history|)
      {
        DropSecond(old(history), |history|);
        history := [history[0]] + history[2..];
      }
    }

    static ghost function FirstAndLast(steps: seq<E.HistoryStep>, n: nat): seq<E.HistoryStep>
      requires 1 <= n <= |steps|
    {
      [steps[0]] + steps[|steps| - (n - 1)..]
    }

    static lemma DropSecond(steps: seq<E.HistoryStep>, n: nat)
      requires 2 <= n <= |steps|
      ensures var kept := FirstAndLast(steps, n); [kept[0]] + kept[2..] == FirstAndLast(steps, n - 1)
    {
    }

    method NoteRestart(coalesce: real, s: E.Sighting)
      requires maxHistory >= 2
      modifies this`history, this`updateDue
      ensures forall cfg: E.Settings :: cfg.coalesce == coalesce && cfg.maxHistory == maxHistory ==>
        View() == E.NoteRestart(cfg, old(View()), s)
    {
      hide E.AddStep;
      if s.restart.Some? {
        AddStep(E.HistoryStep(s.now, E.RestartStep, E.RESTART_CAPTION, s.restart.value.evidence,
                              s.restart.value.eventId));
        if noticeSent {
          updateDue := Some(s.now + coalesce);
        }
      }
    }

    method NoteState(s: E.Sighting)
      requires maxHistory >= 2
      modifies this`history
      ensures forall cfg: E.Settings :: cfg.maxHistory == maxHistory ==> View() == E.NoteState(cfg, old(View()), s)
    {
      hide E.AddStep;
      var n := |history|;
      if n == 0 || history[n - 1].caption != s.caption {
        AddStep(E.StateStepOf(s));
      } else if s.eventId.Some? {
        history := history[n - 1 := history[n - 1].(eventId := s.eventId)];
      }
    }

    method Sight(cfg: E.Settings, s: E.Sighting)
      requires cfg.maxHistory == maxHistory >= 2
      modifies this`state, this`history, this`updateDue, this`closedAt, this`recoveryDue
      ensures View() == E.Sighted(cfg, old(View()), s)
    {
      hide E.NoteState, E.NoteRestart;
      state := s.state;
      NoteRestart(cfg.coalesce, s);
      NoteState(s);
      if s.state.Ok? {
        closedAt := Some(s.now);
        recoveryDue := Some(MaxReal(initialDue, s.now + if noticeSent then cfg.coalesce else 0.0));
      }
    }

    method AdvanceMissed(cfg: E.Settings, age: real)
      modifies this`reminderIndex
      ensures reminderIndex == E.AdvanceMissed(cfg, old(reminderIndex), age)
    {
      while reminderIndex < |cfg.schedule| && age >= cfg.schedule[reminderIndex]
        invariant E.AdvanceMissed(cfg, reminderIndex, age) == E.AdvanceMissed(cfg, old(reminderIndex), age)
        decreases |cfg.schedule| - reminderIndex
      {
        reminderIndex := reminderIndex + 1;
      }
    }

    predicate IsOpeningDue(now: real)
      reads this
      ensures IsOpeningDue(now) == E.OpeningDue(View(), now)
    {
      (!noticeSent && now >= initialDue) || (updateDue.Some? && now >= updateDue.value)
    }

    function NextReminder(cfg: E.Settings): (due: Option<real>)
      requires cfg.schedule != []
      reads this
      ensures due == E.NextReminder(cfg, View())
    {
      if !noticeSent || updateDue.Some? then None
      else Some(started + E.ReminderAge(cfg, reminderIndex, repeatIndex))
    }

    predicate IsReminderDue(cfg: E.Settings, now: real)
      requires cfg.schedule != []
      reads this
      ensures IsReminderDue(cfg, now) == E.ReminderDue(cfg, View(), now)
    {
      NextReminder(cfg).Some? && now >= NextReminder(cfg).value
    }

    predicate IsRecoveryDue(now: real)
      reads this
      ensures IsRecoveryDue(now) == E.RecoveryDue(View(), now)
    {
      recoveryDue.Some? && now >= recoveryDue.value
    }

    /** The body of the pop's loop over the active episodes. */
    method PopOne(cfg: E.Settings, now: real, opening: bool, reminding: bool) returns (listing: E.Listing)
      requires cfg.schedule != []
      modifies this`noticeSent, this`updateDue, this`reminderIndex, this`repeatIndex
      ensures (View(), listing) == E.PopOne(cfg, old(View()), now, opening, reminding)
    {
      hide E.AdvanceMissed;
      var age := MaxReal(0.0, now - started);
      if !noticeSent && opening {
        noticeSent := true;
        updateDue := None;
        AdvanceMissed(cfg, age);
        return E.Opened;
      }
      if updateDue.Some? && now >= updateDue.value {
        updateDue := None;
        AdvanceMissed(cfg, age);
        return E.Opened;
      }
      if !noticeSent {
        return E.Unlisted;
      }
      var due := NextReminder(cfg);
      if !reminding || due.None? || due.value > now + cfg.coalesce {
        return E.Unlisted;
      }
      if reminderIndex < |cfg.schedule| {
        reminderIndex := reminderIndex + 1;
        AdvanceMissed(cfg, age);
      } else {
        repeatIndex := repeatIndex + 1;
      }
      return E.Persistent;
    }
  }

  /** What a pop hands to the sender: the keys listed in each section and the episodes that are gone. */
  class Coordinator {
    const cfg: E.Settings
    var active: map<Key, IrregularEpisode>
    var recovered: seq<IrregularEpisode>
    ghost var board: E.Board
    ghost var repr: set<IrregularEpisode>

    ghost predicate Valid()
      reads this`active, this`recovered, this`board, this`repr, repr
    {
      cfg.Valid() && active.Keys == board.active.Keys && |recovered| == |board.recovered| &&
      (forall k :: k in active ==> k in board.active && active[k] in repr && Holds(k, active[k])) &&
      forall i :: 0 <= i < |recovered| ==> recovered[i] in repr && IsReleased(i)
    }

    ghost predicate Holds(k: Key, e: IrregularEpisode)
      requires k in board.active
      reads this`board, e
    {
      e.place == Some(k) && e.maxHistory == cfg.maxHistory && e.View() == board.active[k]
    }

    ghost predicate IsReleased(i: nat)
      requires i < |recovered| == |board.recovered|
      reads this`board, this`recovered, recovered[i]
    {
      recovered[i].place.None? && recovered[i].View() == board.recovered[i]
    }

    constructor (coalesce: real, schedule: seq<real>, repeat: real, maxHistory: int)
      ensures Valid() && fresh(repr) && board == E.EMPTY_BOARD
      ensures cfg == E.Configured(coalesce, schedule, repeat, maxHistory)
    {
      E.ConfiguredIsValid(coalesce, schedule, repeat, maxHistory);
      cfg, active, recovered := E.Configured(coalesce, schedule, repeat, maxHistory), map[], [];
      board, repr := E.EMPTY_BOARD, {};
    }

    lemma SameKeys()
      requires Valid()
      ensures cfg.Valid() && active.Keys == board.active.Keys
    {
    }

    /** File a new episode object under a free key. */
    method Adopt(k: Key, e: IrregularEpisode)
      requires Valid() && k !in active
      requires e !in repr && e.place == Some(k) && e.maxHistory == cfg.maxHistory
      modifies this
      ensures Valid() && repr == old(repr) + {e}
      ensures k in active && recovered == old(recovered)
      ensures board == E.Board(old(board).active[k := e.View()], old(board).recovered, old(board).nextSerial + 1)
    {
      active := active[k := e];
      repr := repr + {e};
      board := E.Board(board.active[k := e.View()], board.recovered, board.nextSerial + 1);
    }

    method OpenEpisode(k: Key, s: E.Sighting)
      requires Valid() && k !in active
      modifies this
      ensures Valid() && fresh(repr - old(repr))
      ensures k in active && recovered == old(recovered)
      ensures board == E.Board(old(board).active[k := E.NewEpisode(cfg, old(board).nextSerial, s)],
                               old(board).recovered, old(board).nextSerial + 1)
    {
      SameKeys();
      hide E.NewEpisode, Holds, IsReleased;
      var created := new IrregularEpisode(cfg, k, s, board.nextSerial);
      Adopt(k, created);
    }

    /** Move a closed episode to the recovered list. */
    method Release(k: Key)
      requires Valid() && k in active && k in board.active
      modifies this`active, this`recovered, this`board, repr
      ensures Valid()
      ensures board == E.Board(old(board).active - {k}, old(board).recovered + [old(board).active[k]],
                               old(board).nextSerial)
    {
      hide Valid;
      var e := Detach(k);
      FileRecovered(e);
    }

    /** Take an episode out of the active map. */
    method Detach(k: Key) returns (e: IrregularEpisode)
      requires Valid() && k in active && k in board.active
      modifies this`active, this`board, repr
      ensures Valid() && e in repr && e.place.None? && e.View() == old(board).active[k]
      ensures board == old(board).(active := old(board).active - {k})
    {
      e := active[k];
      active := active - {k};
      board := board.(active := board.active - {k});
      e.place := None;
    }

    method FileRecovered(e: IrregularEpisode)
      requires Valid() && e in repr && e.place.None?
      modifies this`recovered, this`board
      ensures Valid()
      ensures board == old(board).(recovered := old(board).recovered + [e.View()])
    {
      recovered := recovered + [e];
      board := board.(recovered := board.recovered + [e.View()]);
    }

    method SightActive(k: Key, s: E.Sighting)
      requires Valid() && k in active
      modifies this`board, repr
      ensures Valid()
      ensures board == old(board).(active := old(board).active[k := E.Sighted(cfg, old(board).active[k], s)])
    {
      hide E.Sighted;
      active[k].Sight(cfg, s);
      board := board.(active := board.active[k := active[k].View()]);
    }

    static lemma OpenThenSight(cfg: E.Settings, b: E.Board, k: Key, s: E.Sighting)
      requires cfg.maxHistory >= 2 && k !in b.active && E.OpensEpisode(s)
      ensures E.Observe(cfg, E.Board(b.active[k := E.NewEpisode(cfg, b.nextSerial, s)], b.recovered,
                                     b.nextSerial + 1), k, s)
              == E.Observe(cfg, b, k, s)
    {
      hide E.Sighted, E.NewEpisode;
      var e := E.NewEpisode(cfg, b.nextSerial, s);
      var after := E.Sighted(cfg, e, s);
      assert b.active[k := e] - {k} == b.active - {k};
      assert b.active[k := e][k := after] == b.active[k := after];
    }

    /** The part of an observation that changes an episode the coordinator already holds. */
    method SightAndFile(k: Key, s: E.Sighting)
      requires Valid() && k in active
      modifies this`active, this`recovered, this`board, repr
      ensures Valid()
      ensures board == E.Observe(cfg, old(board), k, s)
    {
      SameKeys();
      hide E.Sighted, Valid;
      ghost var after := E.Sighted(cfg, board.active[k], s);
      SightActive(k, s);
      if s.state.Ok? {
        Release(k);
        assert old(board).active[k := after] - {k} == old(board).active - {k};
      }
    }

    method Observe(k: Key, s: E.Sighting)
      requires Valid()
      modifies this, repr
      ensures Valid() && fresh(repr - old(repr))
      ensures board == E.Observe(cfg, old(board), k, s)
    {
      SameKeys();
      if k !in active && !E.OpensEpisode(s) {
        return;
      }
      hide E.Observe, Valid;
      if k !in active {
        OpenThenSight(cfg, board, k, s);
        OpenEpisode(k, s);
      }
      SightAndFile(k, s);
    }

    method AcknowledgeOne(k: Key)
      requires Valid() && k in active
      modifies this`board, repr
      ensures Valid()
      ensures board == old(board).(active := old(board).active[k := old(board).active[k].(noticeSent := true)])
    {
      active[k].noticeSent := true;
      board := board.(active := board.active[k := active[k].View()]);
    }

    method AcknowledgeActiveInitials()
      requires Valid()
      modifies this`board, repr
      ensures Valid()
      ensures board == E.AcknowledgeInitials(old(board))
    {
      SameKeys();
      hide Valid, AcknowledgedSoFar, E.AcknowledgeInitials;
      NoneAcknowledged(board);
      var todo := active.Keys;
      while todo != {}
        invariant todo <= active.Keys && Valid()
        invariant AcknowledgedSoFar(old(board), board, todo)
        decreases todo
      {
        var k :| k in todo;
        SameKeys();
        AcknowledgeOneMore(old(board), board, todo, k);
        AcknowledgeOne(k);
        todo := todo - {k};
      }
      AllAcknowledged(old(board), board);
    }

    static lemma NoneAcknowledged(b: E.Board)
      ensures AcknowledgedSoFar(b, b, b.active.Keys)
    {
    }

    static lemma AcknowledgeOneMore(was: E.Board, b: E.Board, todo: set<Key>, k: Key)
      requires AcknowledgedSoFar(was, b, todo) && k in todo && k in b.active
      ensures AcknowledgedSoFar(was, b.(active := b.active[k := b.active[k].(noticeSent := true)]), todo - {k})
    {
    }

    static lemma AllAcknowledged(was: E.Board, b: E.Board)
      requires AcknowledgedSoFar(was, b, {})
      ensures b == E.AcknowledgeInitials(was)
    {
    }

    static ghost predicate AcknowledgedSoFar(was: E.Board, b: E.Board, todo: set<Key>) {
      b.recovered == was.recovered && b.nextSerial == was.nextSerial && b.active.Keys == was.active.Keys &&
      forall k :: k in b.active ==>
        b.active[k] == was.active[k].(noticeSent := k !in todo || was.active[k].noticeSent)
    }

    /** Split the recovered list into what is delivered now and what stays. */
    method SplitRecovered(now: real, due: bool) returns (gone: seq<IrregularEpisode>, remaining: seq<IrregularEpisode>)
      requires Valid()
      ensures forall e :: e in remaining ==> e in repr && e.place.None?
      ensures Views(remaining) == if due then E.Select(cfg, board.recovered, now, false) else board.recovered
      ensures Views(gone) == if due then E.Select(cfg, board.recovered, now, true) else []
    {
      hide E.Select;
      gone, remaining := [], [];
      ghost var list := board.recovered;
      assert E.Select(cfg, [], now, true) == E.Select(cfg, [], now, false) == [] by { SelectNone(cfg, now); }
      var i := 0;
      while i < |recovered|
        invariant 0 <= i <= |recovered|
        invariant forall e :: e in remaining ==> e in repr && e.place.None?
        invariant Views(remaining) == if due then E.Select(cfg, list[..i], now, false) else list[..i]
        invariant Views(gone) == if due then E.Select(cfg, list[..i], now, true) else []
      {
        var e := recovered[i];
        assert IsReleased(i);
        assert list[..i + 1] == list[..i] + [list[i]];
        SelectAppend(cfg, list[..i], list[i], now, true);
        SelectAppend(cfg, list[..i], list[i], now, false);
        if due && e.recoveryDue.Some? && e.recoveryDue.value <= now + cfg.coalesce {
          ViewsAppend(gone, e);
          gone := gone + [e];
        } else {
          ViewsAppend(remaining, e);
          remaining := remaining + [e];
        }
        i := i + 1;
      }
      assert list[..i] == list;
    }

    static lemma SelectNone(cfg: E.Settings, now: real)
      ensures E.Select(cfg, [], now, true) == E.Select(cfg, [], now, false) == []
    {
    }

    method FlushRecovered(now: real) returns (gone: seq<IrregularEpisode>)
      requires Valid()
      modifies this`recovered, this`board
      ensures Valid()
      ensures board == old(board).(recovered := if E.AnyRecovery(old(board), now)
                                                then E.Select(cfg, old(board).recovered, now, false)
                                                else old(board).recovered)
      ensures Views(gone) ==
        if E.AnyRecovery(old(board), now) then E.Select(cfg, old(board).recovered, now, true) else []
    {
      hide E.Select, E.AnyRecovery;
      var due := exists i :: 0 <= i < |recovered| && recovered[i].IsRecoveryDue(now);
      DueIsDue(now);
      var remaining;
      gone, remaining := SplitRecovered(now, due);
      Retain(remaining);
    }

    method Retain(remaining: seq<IrregularEpisode>)
      requires Valid() && forall e :: e in remaining ==> e in repr && e.place.None?
      modifies this`recovered, this`board
      ensures Valid() && board == old(board).(recovered := Views(remaining))
    {
      board := board.(recovered := Views(remaining));
      recovered := remaining;
    }

    ghost function Views(list: seq<IrregularEpisode>): seq<E.Episode>
      reads list
    {
      seq(|list|, i requires 0 <= i < |list| reads list => list[i].View())
    }

    lemma ViewsAppend(list: seq<IrregularEpisode>, e: IrregularEpisode)
      ensures Views(list + [e]) == Views(list) + [e.View()]
    {
    }

    lemma DueIsDue(now: real)
      requires Valid()
      ensures (exists i :: 0 <= i < |recovered| && recovered[i].IsRecoveryDue(now)) == E.AnyRecovery(board, now)
    {
      forall i | 0 <= i < |recovered|
        ensures recovered[i].IsRecoveryDue(now) == E.RecoveryDue(board.recovered[i], now)
      {
        assert IsReleased(i);
      }
    }

    static lemma {:induction false} SelectAppend(cfg: E.Settings, list: seq<E.Episode>, e: E.Episode, now: real,
                                                 flushed: bool)
      ensures E.Select(cfg, list + [e], now, flushed) ==
              E.Select(cfg, list, now, flushed) + if E.Flushes(cfg, e, now) == flushed then [e] else []
    {
      if list == [] {
        assert list + [e] == [e];
      } else {
        assert (list + [e])[1..] == list[1..] + [e];
        SelectAppend(cfg, list[1..], e, now, flushed);
      }
    }

    /** One active episode in a pop. */
    method PopActive(k: Key, now: real, opening: bool, reminding: bool) returns (listing: E.Listing)
      requires Valid() && k in active
      modifies this`board, repr
      ensures Valid()
      ensures
        var popped := E.PopOne(cfg, old(board).active[k], now, opening, reminding);
        listing == popped.1 && board == old(board).(active := old(board).active[k := popped.0])
    {
      hide E.PopOne;
      listing := active[k].PopOne(cfg, now, opening, reminding);
      board := board.(active := board.active[k := active[k].View()]);
    }

    /** The state between two rounds of the loop over the active episodes. */
    static ghost predicate PoppedSoFar(cfg: E.Settings, was: E.Board, b: E.Board, now: real, todo: set<Key>,
                                       openedNow: set<Key>, persistent: set<Key>)
      requires cfg.schedule != []
    {
      b.recovered == was.recovered && b.nextSerial == was.nextSerial && b.active.Keys == was.active.Keys &&
      (forall k :: k in b.active ==>
         b.active[k] == if k in todo then was.active[k] else E.ListingOf(cfg, was, now, k).0) &&
      openedNow == (set k | k in was.active.Keys - todo && E.ListingOf(cfg, was, now, k).1.Opened?) &&
      persistent == (set k | k in was.active.Keys - todo && E.ListingOf(cfg, was, now, k).1.Persistent?)
    }

    static lemma PopOneMore(cfg: E.Settings, was: E.Board, b: E.Board, now: real, todo: set<Key>,
                            openedNow: set<Key>, persistent: set<Key>, k: Key)
      requires cfg.schedule != [] && k in todo && k in was.active && k in b.active
      requires PoppedSoFar(cfg, was, b, now, todo, openedNow, persistent)
      ensures
        var o := E.ListingOf(cfg, was, now, k);
        b.active[k] == was.active[k] &&
        PoppedSoFar(cfg, was, b.(active := b.active[k := o.0]), now, todo - {k},
                    openedNow + if o.1.Opened? then {k} else {}, persistent + if o.1.Persistent? then {k} else {})
    {
      hide E.ListingOf;
    }

    static lemma NothingPopped(cfg: E.Settings, b: E.Board, now: real)
      requires cfg.schedule != []
      ensures PoppedSoFar(cfg, b, b, now, b.active.Keys, {}, {})
    {
      hide E.ListingOf;
    }

    lemma DuesAreDue(now: real)
      requires Valid()
      ensures (exists k :: k in active && active[k].IsOpeningDue(now)) == E.AnyOpening(board, now)
      ensures (exists k :: k in active && active[k].IsReminderDue(cfg, now)) == E.AnyReminder(cfg, board, now)
    {
      hide E.OpeningDue, E.ReminderDue;
    }

    static lemma AllPopped(cfg: E.Settings, was: E.Board, b: E.Board, now: real, openedNow: set<Key>,
                           persistent: set<Key>)
      requires cfg.schedule != [] && PoppedSoFar(cfg, was, b, now, {}, openedNow, persistent)
      ensures b == was.(active := E.Popped(cfg, was, now).active)
      ensures openedNow == E.BatchOf(cfg, was, now).openedNow && persistent == E.BatchOf(cfg, was, now).persistent
    {
      hide E.ListingOf;
      assert b.active == E.Popped(cfg, was, now).active;
    }

    /** The loop over the active episodes. */
    method PopAllActive(now: real) returns (openedNow: set<Key>, persistent: set<Key>)
      requires Valid()
      modifies this`board, repr
      ensures Valid()
      ensures board == old(board).(active := E.Popped(cfg, old(board), now).active)
      ensures openedNow == E.BatchOf(cfg, old(board), now).openedNow
      ensures persistent == E.BatchOf(cfg, old(board), now).persistent
    {
      hide E.PopOne, E.AnyOpening, E.AnyReminder, E.Popped, E.BatchOf, Valid, PoppedSoFar;
      SameKeys();
      NothingPopped(cfg, board, now);
      ghost var was := board;
      var opening := exists k :: k in active && active[k].IsOpeningDue(now);
      var reminding := exists k :: k in active && active[k].IsReminderDue(cfg, now);
      DuesAreDue(now);
      openedNow, persistent := {}, {};
      var todo := active.Keys;
      while todo != {}
        invariant todo <= active.Keys && Valid()
        invariant PoppedSoFar(cfg, was, board, now, todo, openedNow, persistent)
        decreases todo
      {
        var k :| k in todo;
        SameKeys();
        PopOneMore(cfg, was, board, now, todo, openedNow, persistent, k);
        var listing := PopActive(k, now, opening, reminding);
        openedNow := openedNow + if listing.Opened? then {k} else {};
        persistent := persistent + if listing.Persistent? then {k} else {};
        todo := todo - {k};
      }
      AllPopped(cfg, was, board, now, openedNow, persistent);
    }

    method PopDue(now: real) returns (openedNow: set<Key>, persistent: set<Key>, gone: seq<IrregularEpisode>)
      requires Valid()
      modifies this`recovered, this`board, repr
      ensures Valid()
      ensures board == E.Popped(cfg, old(board), now)
      ensures E.Batch(openedNow, persistent, Views(gone)) == E.BatchOf(cfg, old(board), now)
    {
      hide E.ListingOf, E.Select;
      openedNow, persistent := PopAllActive(now);
      gone := FlushRecovered(now);
    }
  }
}
