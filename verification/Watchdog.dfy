/** The independent liveness watchdog: assessment, notification decision and the delivery step that
    keeps the stored incident when a send fails (app/liveness.py, tools/monitor_watchdog.py). */
module Watchdog {
  import opened Common

  datatype Cause =
    | ServiceStopped
    | ProcessMissing
    | HeartbeatUnreadable(code: string)
    | ClockSkew
    | TickStale
    | PollerStale
    | SenderStale
    | CollectorStale

  datatype Heartbeat = Heartbeat(
    processStart: real,
    lastTick: real,
    poller: Option<real>,
    sender: Option<real>,
    collectorAge: Option<real>)

  datatype Limits = Limits(tick: real, worker: real, collector: real, skew: real)

  /** A maintenance lease's expiry; None also stands for a lease file that cannot be read. */
  datatype Observation = Observation(
    running: bool,
    alive: bool,
    heartbeat: Option<Heartbeat>,
    heartbeatError: string,
    lease: Option<real>)

  datatype Assessment = Assessment(causes: seq<Cause>, suppressed: bool)
  {
    predicate Healthy() {
      causes == []
    }
  }

  function Age(now: real, ts: Option<real>): Option<real> {
    if ts.None? then None else Some(MaxReal(0.0, now - ts.value))
  }

  predicate Ahead(ts: Option<real>, now: real, limits: Limits) {
    ts.Some? && ts.value > now + limits.skew
  }

  predicate Older(age: Option<real>, limit: real) {
    age.None? || age.value > limit
  }

  function When(condition: bool, cause: Cause): seq<Cause> {
    if condition then [cause] else []
  }

  function HeartbeatCauses(h: Heartbeat, now: real, limits: Limits): seq<Cause> {
    var tickAge := MaxReal(0.0, now - h.lastTick);
    When(Ahead(Some(h.processStart), now, limits) || Ahead(Some(h.lastTick), now, limits) ||
         Ahead(h.poller, now, limits) || Ahead(h.sender, now, limits), ClockSkew) +
    When(tickAge > limits.tick, TickStale) +
    When(Older(Age(now, h.poller), limits.worker), PollerStale) +
    When(Older(Age(now, h.sender), limits.worker), SenderStale) +
    When(h.collectorAge.Some? && h.collectorAge.value + tickAge > limits.collector, CollectorStale)
  }

  function Assess(o: Observation, now: real, limits: Limits): Assessment {
    var causes :=
      When(!o.running, ServiceStopped) + When(!o.alive, ProcessMissing) +
      (match o.heartbeat
       case None => [HeartbeatUnreadable(o.heartbeatError)]
       case Some(h) => HeartbeatCauses(h, now, limits));
    Assessment(causes, o.lease.Some? && now <= o.lease.value && causes != [])
  }

  // ---------- the incident ----------

  datatype Incident = Incident(
    isOpen: bool,
    causes: seq<Cause>,
    openedAt: Option<real>,
    lastSeen: Option<real>,
    lastNotified: Option<real>,
    notifications: nat)

  const CLOSED := Incident(false, [], None, None, None, 0)

  datatype Notice = Quiet | Open | Update | Reminder | Recovery

  const DEFAULT_SCHEDULE: seq<int> := [300, 900, 3600]

  /** Insert into an ascending list, dropping a value that is already there. */
  function InsertAscending(x: int, s: seq<int>): seq<int> {
    if s == [] then [x]
    else if x < s[0] then [x] + s
    else if x == s[0] then s
    else [s[0]] + InsertAscending(x, s[1..])
  }

  function SortedSet(s: seq<int>): seq<int> {
    if s == [] then [] else InsertAscending(s[0], SortedSet(s[1..]))
  }

  function InBounds(s: seq<int>): seq<int> {
    if s == [] then []
    else (if 60 <= s[0] <= 86400 then [s[0]] else []) + InBounds(s[1..])
  }

  /** The reminder delays taken from the configured integers. */
  function Schedule(configured: seq<int>): seq<int> {
    var kept := SortedSet(InBounds(configured));
    if kept == [] then DEFAULT_SCHEDULE else kept
  }

  /** The first timestamp that Python's `or` accepts: neither None nor zero. */
  function FirstTruthy(a: Option<real>, b: Option<real>, otherwise: real): real {
    if a.Some? && a.value != 0.0 then a.value
    else if b.Some? && b.value != 0.0 then b.value
    else otherwise
  }

  /** The delay that must have passed since the previous notification. */
  function Delay(schedule: seq<int>, notifications: nat): int
    requires schedule != []
  {
    MaxInt(1, schedule[MinInt(MaxInt(notifications - 1, 0), |schedule| - 1)])
  }

  function Decide(a: Assessment, s: Incident, now: real, schedule: seq<int>): (Notice, Incident)
    requires schedule != []
  {
    if a.suppressed then (Quiet, s)
    else if a.Healthy() then (if s.isOpen then (Recovery, CLOSED) else (Quiet, s))
    else if !s.isOpen then (Open, Incident(true, a.causes, Some(now), Some(now), Some(now), 1))
    else if a.causes != s.causes then
      (Update, s.(causes := a.causes, lastSeen := Some(now), lastNotified := Some(now),
                  notifications := s.notifications + 1))
    else
      var elapsed := now - FirstTruthy(s.lastNotified, s.openedAt, now);
      if elapsed >= Delay(schedule, s.notifications) as real
      then (Reminder, s.(lastSeen := Some(now), lastNotified := Some(now), notifications := s.notifications + 1))
      else (Quiet, s.(lastSeen := Some(now)))
  }

  // ---------- runs ----------

  /** What became of a notice: the service confirmed it; it did not get through; or it got through and the
      confirmation was lost, which the program takes for the second. */
  datatype Answer = Confirmed | NotDelivered | Unconfirmed

  /** One run of the watchdog program. `readable` says whether the state file could be read, and `written`
      whether it could be replaced. */
  datatype Check = Check(assessment: Assessment, now: real, configured: seq<int>, notify: bool, answer: Answer,
                         readable: bool, written: bool)

  /** A missing or unreadable file stands for a closed incident. */
  function Loaded(c: Check, s: Incident): Incident {
    if c.readable then s else CLOSED
  }

  /** What a check makes of the loaded incident, and what it delivers. */
  function Attempt(c: Check, s: Incident): (Incident, seq<Notice>)
    ensures Schedule(c.configured) != []
  {
    ScheduleIsUsable(c.configured);
    var (notice, next) := Decide(c.assessment, s, c.now, Schedule(c.configured));
    if !c.notify then (s, [])
    else if notice.Quiet? then (next, [])
    else
      match c.answer
      case Confirmed => (next, [notice])
      case NotDelivered => (s, [])
      case Unconfirmed => (s, [notice])
  }

  /** What the file holds after a check, and what was delivered. A write that fails leaves the old file. */
  function Commit(c: Check, s: Incident): (Incident, seq<Notice>) {
    var (next, sent) := Attempt(c, Loaded(c, s));
    (if c.notify && c.written then next else s, sent)
  }

  function StoredAfter(checks: seq<Check>): Incident {
    if checks == [] then CLOSED
    else Commit(checks[|checks| - 1], StoredAfter(checks[..|checks| - 1])).0
  }

  /** Every notice that reached the operator, in order. */
  function Delivered(checks: seq<Check>): seq<Notice> {
    if checks == [] then []
    else Delivered(checks[..|checks| - 1]) + Commit(checks[|checks| - 1], StoredAfter(checks[..|checks| - 1])).1
  }

  ghost predicate Ascending(s: seq<int>) {
    s == [] || ((forall y :: y in s[1..] ==> s[0] < y) && Ascending(s[1..]))
  }

  lemma {:induction false} InsertKeepsAscending(x: int, s: seq<int>)
    requires Ascending(s)
    ensures Ascending(InsertAscending(x, s)) && forall y :: y in InsertAscending(x, s) <==> y == x || y in s
  {
    if s != [] {
      assert forall y :: y in s <==> y == s[0] || y in s[1..];
      if x < s[0] {
        assert InsertAscending(x, s)[1..] == s;
      } else if x > s[0] {
        InsertKeepsAscending(x, s[1..]);
        assert InsertAscending(x, s)[1..] == InsertAscending(x, s[1..]);
      }
    }
  }

  lemma {:induction false} SortedSetIsAscending(s: seq<int>)
    ensures Ascending(SortedSet(s)) && forall y :: y in SortedSet(s) <==> y in s
  {
    if s != [] {
      SortedSetIsAscending(s[1..]);
      InsertKeepsAscending(s[0], SortedSet(s[1..]));
      assert forall y :: y in s <==> y == s[0] || y in s[1..];
    }
  }

  lemma {:induction false} InBoundsExact(s: seq<int>)
    ensures forall y :: y in InBounds(s) <==> y in s && 60 <= y <= 86400
  {
    if s != [] {
      InBoundsExact(s[1..]);
      assert forall y :: y in s <==> y == s[0] || y in s[1..];
    }
  }

  predicate IsUsable(y: int) {
    60 <= y <= 86400
  }

  /** The schedule is never empty, strictly ascending and within a minute and a day; it holds exactly the
      configured delays that lie in those bounds, or 5, 15 and 60 minutes when none does. */
  lemma ScheduleIsUsable(configured: seq<int>)
    ensures
      var r := Schedule(configured);
      r != [] && Ascending(r) && (forall y :: y in r ==> IsUsable(y)) &&
      if exists y :: y in configured && IsUsable(y) then forall y :: y in r <==> y in configured && IsUsable(y)
      else r == [300, 900, 3600]
  {
    var kept := InBounds(configured);
    InBoundsExact(configured);
    if y :| y in configured && IsUsable(y) {
      assert y in kept;
    }
    SortedSetIsAscending(kept);
    if kept != [] {
      assert kept[0] in SortedSet(kept);
    }
    assert DEFAULT_SCHEDULE[1..] == [900, 3600] && DEFAULT_SCHEDULE[1..][1..] == [3600];
  }

  // ---------- what the operator sees ----------

  /** `Open (Update | Reminder)*`, an incident still running. */
  ghost predicate Unfinished(s: seq<Notice>) {
    s != [] && s[0].Open? && forall i :: 1 <= i < |s| ==> s[i].Update? || s[i].Reminder?
  }

  /** `Open (Update | Reminder)* Recovery`. */
  ghost predicate Finished(s: seq<Notice>) {
    s != [] && s[|s| - 1].Recovery? && Unfinished(s[..|s| - 1])
  }

  function Flatten(blocks: seq<seq<Notice>>): seq<Notice> {
    if blocks == [] then [] else Flatten(blocks[..|blocks| - 1]) + blocks[|blocks| - 1]
  }

  /** The log splits into finished incidents and at most one unfinished one at the end, which is there
      exactly while the stored incident is open and has as many notices as it counts. */
  ghost predicate WellFormed(log: seq<Notice>, blocks: seq<seq<Notice>>, tail: seq<Notice>, s: Incident) {
    log == Flatten(blocks) + tail &&
    (forall i :: 0 <= i < |blocks| ==> Finished(blocks[i])) &&
    (if s.isOpen then Unfinished(tail) && s.notifications == |tail|
     else tail == [] && s.notifications == 0)
  }

  lemma AttemptShape(c: Check, s: Incident)
    ensures
      var (next, sent) := Attempt(c, s);
      if sent == [] then next.isOpen == s.isOpen && next.notifications == s.notifications
      else if c.answer.Unconfirmed? then
        next == s && |sent| == 1 && (sent[0].Open? <==> !s.isOpen) && !sent[0].Quiet?
      else if sent == [Open] then !s.isOpen && next.isOpen && next.notifications == 1
      else if sent == [Recovery] then s.isOpen && next == CLOSED
      else (sent == [Update] || sent == [Reminder]) && s.isOpen && next.isOpen &&
           next.notifications == s.notifications + 1
  {
    hide Schedule;
  }

  lemma CloseIncident(log: seq<Notice>, blocks: seq<seq<Notice>>, tail: seq<Notice>, s: Incident)
    requires WellFormed(log, blocks, tail, s) && s.isOpen
    ensures WellFormed(log + [Recovery], blocks + [tail + [Recovery]], [], CLOSED)
  {
    var whole := tail + [Recovery];
    assert whole[..|whole| - 1] == tail;
    assert (blocks + [whole])[..|blocks|] == blocks;
    assert log + [Recovery] == Flatten(blocks + [whole]) + [];
  }

  lemma GrowIncident(log: seq<Notice>, blocks: seq<seq<Notice>>, tail: seq<Notice>, s: Incident, x: Notice,
                     next: Incident)
    requires WellFormed(log, blocks, tail, s)
    requires if s.isOpen then x.Update? || x.Reminder? else x.Open?
    requires next.isOpen && next.notifications == s.notifications + 1
    ensures WellFormed(log + [x], blocks, tail + [x], next)
  {
    assert log + [x] == Flatten(blocks) + (tail + [x]);
  }

  /** The notices delivered so far form whole incidents, and the file agrees with the last of them. */
  ghost predicate WholeIncidents(checks: seq<Check>) {
    exists blocks, tail :: WellFormed(Delivered(checks), blocks, tail, StoredAfter(checks))
  }

  /** The check keeps the file in step with the operator. When it has nothing to tell, or does not get it
      through, it may write only what it made of a readable file, or of no open incident; when it gets a
      notice through, that must be confirmed and such a write must succeed. */
  predicate KeepsBooks(c: Check, s: Incident) {
    ScheduleIsUsable(c.configured);
    var silent := Decide(c.assessment, Loaded(c, s), c.now, Schedule(c.configured)).0.Quiet? || c.answer.NotDelivered?;
    c.notify ==> (if c.written then c.readable || !s.isOpen else silent) && (silent || c.answer.Confirmed?)
  }

  ghost predicate AllKeepBooks(checks: seq<Check>) {
    forall n :: 0 <= n < |checks| ==> KeepsBooks(checks[n], StoredAfter(checks[..n]))
  }

  lemma {:induction false} ClosedHoldsNothing(checks: seq<Check>)
    ensures !StoredAfter(checks).isOpen ==> StoredAfter(checks) == CLOSED
  {
    if checks != [] {
      ClosedHoldsNothing(checks[..|checks| - 1]);
      hide Schedule;
    }
  }

  lemma KeptCommit(c: Check, s: Incident)
    requires KeepsBooks(c, s) && (!s.isOpen ==> s == CLOSED)
    ensures Commit(c, s) == (s, []) ||
            (Commit(c, s) == Attempt(c, s) && (Attempt(c, s).1 != [] ==> c.answer.Confirmed?))
  {
    hide Decide, Schedule;
  }

  lemma OneMoreCheck(checks: seq<Check>, c: Check)
    ensures StoredAfter(checks + [c]) == Commit(c, StoredAfter(checks)).0
    ensures Delivered(checks + [c]) == Delivered(checks) + Commit(c, StoredAfter(checks)).1
  {
    assert (checks + [c])[..|checks|] == checks;
  }

  lemma {:induction false} GrowLog(log: seq<Notice>, blocks: seq<seq<Notice>>, tail: seq<Notice>, s: Incident, c: Check)
    returns (blocks': seq<seq<Notice>>, tail': seq<Notice>)
    requires WellFormed(log, blocks, tail, s) && (Attempt(c, s).1 != [] ==> c.answer.Confirmed?)
    ensures WellFormed(log + Attempt(c, s).1, blocks', tail', Attempt(c, s).0)
  {
    AttemptShape(c, s);
    hide Attempt, Flatten, Finished;
    var sent := Attempt(c, s).1;
    blocks', tail' := blocks, tail;
    if sent == [] {
      assert log + sent == log;
    } else if sent == [Recovery] {
      CloseIncident(log, blocks, tail, s);
      blocks', tail' := blocks + [tail + sent], [];
    } else {
      GrowIncident(log, blocks, tail, s, sent[0], Attempt(c, s).0);
      tail' := tail + sent;
    }
  }

  lemma {:induction false} KeptStaysWhole(checks: seq<Check>, c: Check)
    requires WholeIncidents(checks) && KeepsBooks(c, StoredAfter(checks))
    ensures WholeIncidents(checks + [c])
  {
    var log, s := Delivered(checks), StoredAfter(checks);
    ClosedHoldsNothing(checks);
    KeptCommit(c, s);
    OneMoreCheck(checks, c);
    hide Attempt, Commit, WellFormed, StoredAfter, Delivered;
    var blocks, tail :| WellFormed(log, blocks, tail, s);
    if Commit(c, s) != (s, []) {
      var blocks', tail' := GrowLog(log, blocks, tail, s, c);
    } else {
      assert log + [] == log;
    }
  }

  /** The part of a log after its last recovery. */
  function TailOf(log: seq<Notice>): seq<Notice> {
    if log == [] || log[|log| - 1].Recovery? then [] else TailOf(log[..|log| - 1]) + [log[|log| - 1]]
  }

  lemma TailOfMore(log: seq<Notice>, x: Notice)
    ensures TailOf(log + [x]) == if x.Recovery? then [] else TailOf(log) + [x]
  {
    assert (log + [x])[..|log|] == log;
  }

  lemma {:induction false} TailOfWhole(blocks: seq<seq<Notice>>, tail: seq<Notice>)
    requires forall i :: 0 <= i < |blocks| ==> Finished(blocks[i])
    requires tail == [] || Unfinished(tail)
    ensures TailOf(Flatten(blocks) + tail) == tail
    decreases |tail|
  {
    if tail == [] {
      assert Flatten(blocks) + tail == Flatten(blocks);
      if blocks != [] {
        var last := blocks[|blocks| - 1];
        assert Finished(last);
        assert Flatten(blocks)[|Flatten(blocks)| - 1] == last[|last| - 1];
      }
    } else {
      var front, x := tail[..|tail| - 1], tail[|tail| - 1];
      TailOfWhole(blocks, front);
      assert Flatten(blocks) + tail == (Flatten(blocks) + front) + [x];
      TailOfMore(Flatten(blocks) + front, x);
    }
  }

  /** In whole incidents the file tells how long the unfinished one is. */
  lemma {:induction false} TailIsCounted(checks: seq<Check>)
    requires WholeIncidents(checks)
    ensures
      var tail, s := TailOf(Delivered(checks)), StoredAfter(checks);
      |tail| == s.notifications && (s.isOpen <==> tail != [])
  {
    hide StoredAfter, Delivered, Finished;
    var blocks, tail :| WellFormed(Delivered(checks), blocks, tail, StoredAfter(checks));
    TailOfWhole(blocks, tail);
  }

  /** What a check that does not keep its books does to the file and to the log. */
  lemma UnkeptShape(c: Check, s: Incident)
    requires !KeepsBooks(c, s)
    ensures
      var (file, sent) := Commit(c, s);
      if sent == [] then s.isOpen && !file.isOpen
      else |sent| == 1 &&
           if sent[0].Recovery? then file.isOpen
           else file == s || !file.isOpen || (s.isOpen && file.notifications == 1)
  {
    hide Schedule, Delay;
  }

  lemma {:induction false} UnkeptBreaks(checks: seq<Check>, c: Check)
    requires WholeIncidents(checks) && !KeepsBooks(c, StoredAfter(checks))
    ensures !WholeIncidents(checks + [c])
  {
    hide KeepsBooks, Commit, StoredAfter, Delivered, WholeIncidents, TailOf;
    var log, s := Delivered(checks), StoredAfter(checks);
    TailIsCounted(checks);
    OneMoreCheck(checks, c);
    UnkeptShape(c, s);
    var sent := Commit(c, s).1;
    if sent == [] {
      assert log + sent == log;
    } else {
      assert sent == [sent[0]];
      TailOfMore(log, sent[0]);
    }
    if WholeIncidents(checks + [c]) {
      TailIsCounted(checks + [c]);
      assert false;
    }
  }

  /** A check keeps the incidents whole exactly when it keeps its books. */
  lemma {:induction false} WholeAfterCheckIff(checks: seq<Check>, c: Check)
    requires WholeIncidents(checks)
    ensures WholeIncidents(checks + [c]) <==> KeepsBooks(c, StoredAfter(checks))
  {
    hide KeepsBooks, WholeIncidents, StoredAfter;
    if KeepsBooks(c, StoredAfter(checks)) {
      KeptStaysWhole(checks, c);
    } else {
      UnkeptBreaks(checks, c);
    }
  }

  /** At every point of a run the operator has seen whole incidents, in agreement with the file, if and only
      if every check kept its books, whatever the checks find and however many sends fail. */
  lemma {:induction false} IncidentsAreWholeIff(checks: seq<Check>)
    ensures (forall n :: 0 <= n <= |checks| ==> WholeIncidents(checks[..n])) <==> AllKeepBooks(checks)
    decreases |checks|
  {
    hide WholeIncidents, KeepsBooks, StoredAfter;
    if checks == [] {
      NothingIsWhole();
    } else {
      var n := |checks| - 1;
      var front := checks[..n];
      IncidentsAreWholeIff(front);
      assert forall i :: 0 <= i <= n ==> front[..i] == checks[..i];
      assert checks[..n + 1] == checks == front + [checks[n]];
      if WholeIncidents(front) {
        WholeAfterCheckIff(front, checks[n]);
      } else {
        assert front[..n] == front && checks[..n] == front;
      }
      assert AllKeepBooks(checks) <==> AllKeepBooks(front) && KeepsBooks(checks[n], StoredAfter(front));
    }
  }

  lemma NothingIsWhole()
    ensures WholeIncidents([])
  {
    assert WellFormed(Delivered([]), [], [], StoredAfter([]));
  }

  /** So a run that keeps its books shows whole incidents, with at most one unfinished at the end. */
  lemma {:induction false} DeliveredIsWellFormed(checks: seq<Check>)
    returns (blocks: seq<seq<Notice>>, tail: seq<Notice>)
    requires AllKeepBooks(checks)
    ensures WellFormed(Delivered(checks), blocks, tail, StoredAfter(checks))
  {
    IncidentsAreWholeIff(checks);
    assert checks[..|checks|] == checks;
    assert WholeIncidents(checks);
    hide WellFormed, StoredAfter, Delivered, AllKeepBooks;
    blocks, tail :| WellFormed(Delivered(checks), blocks, tail, StoredAfter(checks));
  }

  lemma UnrecordedOpening(c: Check)
    requires c.notify && (c.answer.Unconfirmed? || (c.answer.Confirmed? && !c.written))
    requires !c.assessment.suppressed && !c.assessment.Healthy()
    ensures Commit(c, CLOSED) == (CLOSED, [Open])
  {
    hide Schedule;
  }

  /** A notice that is delivered but not confirmed, or confirmed but not written, is delivered again by the
      next check. */
  lemma {:induction false} UnrecordedOpensTwice(c: Check)
    requires c.notify && (c.answer.Unconfirmed? || (c.answer.Confirmed? && !c.written))
    requires !c.assessment.suppressed && !c.assessment.Healthy()
    ensures Delivered([c, c]) == [Open, Open] && !WholeIncidents([c, c])
  {
    hide Commit, WholeIncidents;
    UnrecordedOpening(c);
    OneMoreCheck([], c);
    OneMoreCheck([c], c);
    assert [] + [c] == [c] && [c] + [c] == [c, c];
    assert Delivered([]) == [] && StoredAfter([]) == CLOSED;
    TailOfMore([Open], Open);
    TailOfMore([], Open);
    assert [] + [Open] == [Open] && [Open] + [Open] == [Open, Open];
    if WholeIncidents([c, c]) {
      TailIsCounted([c, c]);
      assert false;
    }
  }

  /** The time of the last delivered notice of the open incident. */
  function LastDelivery(checks: seq<Check>): Option<real> {
    if checks == [] then None
    else
      var c := checks[|checks| - 1];
      if Commit(c, StoredAfter(checks[..|checks| - 1])).1 != [] then Some(c.now)
      else LastDelivery(checks[..|checks| - 1])
  }

  lemma {:induction false} StoredKnowsLastDelivery(checks: seq<Check>)
    requires AllKeepBooks(checks) && StoredAfter(checks).isOpen
    ensures StoredAfter(checks).lastNotified == LastDelivery(checks) && LastDelivery(checks).Some?
  {
    var n := |checks| - 1;
    var c, s := checks[n], StoredAfter(checks[..n]);
    ClosedHoldsNothing(checks[..n]);
    assert KeepsBooks(c, s);
    KeptCommit(c, s);
    if Commit(c, s) != (s, []) {
      AttemptStamps(c, s);
    }
    hide KeepsBooks, Attempt, Commit;
    if s.isOpen {
      FrontKeepsBooks(checks);
      StoredKnowsLastDelivery(checks[..n]);
    }
  }

  lemma FrontKeepsBooks(checks: seq<Check>)
    requires checks != [] && AllKeepBooks(checks)
    ensures AllKeepBooks(checks[..|checks| - 1])
  {
    hide KeepsBooks;
    var front := checks[..|checks| - 1];
    forall n | 0 <= n < |front| ensures KeepsBooks(front[n], StoredAfter(front[..n])) {
      assert front[..n] == checks[..n];
    }
  }

  lemma AttemptStamps(c: Check, s: Incident)
    requires Attempt(c, s).1 != [] ==> c.answer.Confirmed?
    ensures
      var (next, sent) := Attempt(c, s);
      next.isOpen ==>
        next.lastNotified == (if sent == [] then s.lastNotified else Some(c.now)) && (sent == [] ==> s.isOpen)
  {
    hide Schedule;
  }

  /** A delivered reminder repeats an unchanged finding, and comes no sooner after the notice delivered
      before it than the schedule allows at that point; failed sends in between do not shift it. */
  lemma {:induction false} ReminderKeepsDistance(checks: seq<Check>, c: Check)
    requires AllKeepBooks(checks)
    requires Commit(c, StoredAfter(checks)).1 == [Reminder]
    ensures StoredAfter(checks).isOpen && c.assessment.causes == StoredAfter(checks).causes
    ensures LastDelivery(checks).Some? && StoredAfter(checks).notifications >= 1
    ensures
      var last := LastDelivery(checks).value;
      var s := StoredAfter(checks);
      var schedule := Schedule(c.configured);
      last != 0.0 ==>
        c.now - last >= schedule[MinInt(s.notifications - 1, |schedule| - 1)] as real >= 60.0
  {
    hide Commit, Schedule, StoredAfter, LastDelivery, Ascending, AllKeepBooks;
    ReminderFacts(c, StoredAfter(checks));
    ScheduleIsUsable(c.configured);
    StoredKnowsLastDelivery(checks);
    OpenIsCounted(checks);
    var schedule := Schedule(c.configured);
    assert schedule[MinInt(StoredAfter(checks).notifications - 1, |schedule| - 1)] in schedule;
  }

  /** And it does come: once the delay has passed since the last delivered notice, a check that finds the
      same causes, is not silenced and gets through delivers a reminder. */
  lemma {:induction false} ReminderComes(checks: seq<Check>, c: Check)
    requires AllKeepBooks(checks) && c.readable
    requires StoredAfter(checks).isOpen && LastDelivery(checks).Some? && LastDelivery(checks).value != 0.0
    requires !c.assessment.suppressed && c.assessment.causes == StoredAfter(checks).causes != []
    requires c.notify && !c.answer.NotDelivered?
    ensures
      var s := StoredAfter(checks);
      var schedule := Schedule(c.configured);
      s.notifications >= 1 &&
      (Commit(c, s).1 == [Reminder] <==>
         c.now - LastDelivery(checks).value >= schedule[MinInt(s.notifications - 1, |schedule| - 1)] as real)
  {
    hide Commit, Schedule, StoredAfter, LastDelivery, Ascending, AllKeepBooks;
    OpenIsCounted(checks);
    ScheduleIsUsable(c.configured);
    StoredKnowsLastDelivery(checks);
    ReminderWhenDue(c, StoredAfter(checks));
    var schedule := Schedule(c.configured);
    assert schedule[MinInt(StoredAfter(checks).notifications - 1, |schedule| - 1)] in schedule;
  }

  lemma ReminderWhenDue(c: Check, s: Incident)
    requires c.notify && !c.answer.NotDelivered? && c.readable && s.isOpen
    requires !c.assessment.suppressed && c.assessment.causes == s.causes != []
    requires s.lastNotified.Some? && s.lastNotified.value != 0.0
    ensures Schedule(c.configured) != [] &&
            (Commit(c, s).1 == [Reminder] <==>
             c.now - s.lastNotified.value >= Delay(Schedule(c.configured), s.notifications) as real)
  {
    ScheduleIsUsable(c.configured);
    hide Schedule, Delay;
  }

  lemma OpenIsCounted(checks: seq<Check>)
    requires AllKeepBooks(checks) && StoredAfter(checks).isOpen
    ensures StoredAfter(checks).notifications >= 1
  {
    hide Commit, StoredAfter, Delivered, Flatten, Finished, AllKeepBooks;
    var blocks, tail := DeliveredIsWellFormed(checks);
  }

  lemma ReminderFacts(c: Check, s: Incident)
    requires Commit(c, s).1 == [Reminder]
    ensures s.isOpen && c.assessment.causes == s.causes
    ensures s.lastNotified.Some? && s.lastNotified.value != 0.0 ==>
              c.now - s.lastNotified.value >= Delay(Schedule(c.configured), s.notifications) as real
  {
    hide Schedule, Delay;
  }

  /** A stall is among the causes that a monitor's last tick beyond the limit gives. */
  lemma StallIsACause(o: Observation, h: Heartbeat, now: real, limits: Limits)
    requires o.heartbeat == Some(h) && now - h.lastTick > limits.tick >= 0.0
    ensures TickStale in Assess(o, now, limits).causes
  {
    var causes := HeartbeatCauses(h, now, limits);
    assert TickStale in causes;
  }

  /** A monitor whose last tick lies further back than the limit is known to be stalled after every check
      that no maintenance lease silences and that gets through and writes: the incident is open with the
      stall among its causes. A check that stays quiet found just that on file, and one that finds no open
      incident opens one. */
  lemma {:induction false} StallIsReported(checks: seq<Check>, o: Observation, h: Heartbeat, limits: Limits, c: Check)
    requires o.heartbeat == Some(h) && c.now - h.lastTick > limits.tick >= 0.0
    requires c.assessment == Assess(o, c.now, limits) && c.notify && c.answer.Confirmed? && c.written
    requires o.lease.None? || c.now > o.lease.value
    ensures
      var was := Loaded(c, StoredAfter(checks));
      var (file, sent) := Commit(c, StoredAfter(checks));
      file.isOpen && TickStale in file.causes && (!was.isOpen ==> sent == [Open]) &&
      (sent == [] ==> was.isOpen && TickStale in was.causes)
  {
    StallIsACause(o, h, c.now, limits);
    hide Assess, StoredAfter, Schedule, Delay;
  }

  /** Healthy means exactly: running, alive, and a heartbeat with nothing stale and nothing in the future. */
  lemma HealthyExactly(o: Observation, now: real, limits: Limits)
    requires limits.tick >= 0.0 && limits.worker >= 0.0
    ensures Assess(o, now, limits).Healthy() <==>
      o.running && o.alive && o.heartbeat.Some? &&
      var h := o.heartbeat.value;
      now - limits.tick <= h.lastTick <= now + limits.skew && h.processStart <= now + limits.skew &&
      h.poller.Some? && now - limits.worker <= h.poller.value <= now + limits.skew &&
      h.sender.Some? && now - limits.worker <= h.sender.value <= now + limits.skew &&
      (h.collectorAge.Some? ==> h.collectorAge.value + MaxReal(0.0, now - h.lastTick) <= limits.collector)
  {
  }

  predicate LiesAhead(ts: Option<real>, now: real, skew: real) {
    ts.Some? && now < ts.value - skew
  }

  /** No time stamp, or one further back than the limit. */
  predicate IsBehind(ts: Option<real>, now: real, limit: real) {
    ts.Some? ==> MaxReal(0.0, now - ts.value) > limit
  }

  /** What each finding means. */
  predicate Finds(o: Observation, now: real, limits: Limits, x: Cause) {
    match x
    case ServiceStopped => !o.running
    case ProcessMissing => !o.alive
    case HeartbeatUnreadable(code) => o.heartbeat.None? && code == o.heartbeatError
    case ClockSkew =>
      o.heartbeat.Some? &&
      var h := o.heartbeat.value;
      LiesAhead(Some(h.processStart), now, limits.skew) || LiesAhead(Some(h.lastTick), now, limits.skew) ||
      LiesAhead(h.poller, now, limits.skew) || LiesAhead(h.sender, now, limits.skew)
    case TickStale => o.heartbeat.Some? && IsBehind(Some(o.heartbeat.value.lastTick), now, limits.tick)
    case PollerStale => o.heartbeat.Some? && IsBehind(o.heartbeat.value.poller, now, limits.worker)
    case SenderStale => o.heartbeat.Some? && IsBehind(o.heartbeat.value.sender, now, limits.worker)
    case CollectorStale =>
      o.heartbeat.Some? && o.heartbeat.value.collectorAge.Some? &&
      MaxReal(0.0, now - o.heartbeat.value.lastTick) > limits.collector - o.heartbeat.value.collectorAge.value
  }

  lemma WhenHolds(condition: bool, cause: Cause, x: Cause)
    ensures x in When(condition, cause) <==> condition && x == cause
  {
  }

  lemma HeartbeatCausesExactly(o: Observation, now: real, limits: Limits, x: Cause)
    requires o.heartbeat.Some?
    ensures x in HeartbeatCauses(o.heartbeat.value, now, limits) <==>
      Finds(o, now, limits, x) && !x.ServiceStopped? && !x.ProcessMissing?
  {
    hide When;
    var h := o.heartbeat.value;
    var tickAge := MaxReal(0.0, now - h.lastTick);
    WhenHolds(Ahead(Some(h.processStart), now, limits) || Ahead(Some(h.lastTick), now, limits) ||
              Ahead(h.poller, now, limits) || Ahead(h.sender, now, limits), ClockSkew, x);
    WhenHolds(tickAge > limits.tick, TickStale, x);
    WhenHolds(Older(Age(now, h.poller), limits.worker), PollerStale, x);
    WhenHolds(Older(Age(now, h.sender), limits.worker), SenderStale, x);
    WhenHolds(h.collectorAge.Some? && h.collectorAge.value + tickAge > limits.collector, CollectorStale, x);
  }

  /** A check finds exactly what is there, each cause by itself; and its findings are suppressed exactly when
      there are any and a maintenance lease is in force. */
  lemma CausesExactly(o: Observation, now: real, limits: Limits, x: Cause)
    ensures x in Assess(o, now, limits).causes <==> Finds(o, now, limits, x)
    ensures Assess(o, now, limits).suppressed <==>
      o.lease.Some? && o.lease.value >= now && exists y :: Finds(o, now, limits, y)
  {
    CauseExactly(o, now, limits, x);
    hide Finds;
    var causes := Assess(o, now, limits).causes;
    if causes != [] {
      CauseExactly(o, now, limits, causes[0]);
    } else if y :| Finds(o, now, limits, y) {
      CauseExactly(o, now, limits, y);
    }
  }

  lemma CauseExactly(o: Observation, now: real, limits: Limits, x: Cause)
    ensures x in Assess(o, now, limits).causes <==> Finds(o, now, limits, x)
  {
    hide When, HeartbeatCauses;
    WhenHolds(!o.running, ServiceStopped, x);
    WhenHolds(!o.alive, ProcessMissing, x);
    if o.heartbeat.Some? {
      HeartbeatCausesExactly(o, now, limits, x);
    }
  }

  /** While a maintenance lease is in force, a check that finds anything wrong tells nobody, whatever happened
      before, and the file goes on holding the incident that was loaded from it. */
  lemma {:induction false} LeaseSilences(checks: seq<Check>, o: Observation, limits: Limits, c: Check)
    requires o.lease.Some? && c.now <= o.lease.value
    requires c.assessment == Assess(o, c.now, limits) && c.assessment.causes != []
    ensures Delivered(checks + [c]) == Delivered(checks)
    ensures
      var s := StoredAfter(checks);
      StoredAfter(checks + [c]) == if c.notify && c.written && !c.readable then CLOSED else s
  {
    OneMoreCheck(checks, c);
    hide StoredAfter, Delivered, HeartbeatCauses, Schedule;
    assert Commit(c, StoredAfter(checks)).1 == [];
    assert Delivered(checks) + [] == Delivered(checks);
  }

  /** The time from which the delay to the next reminder runs. */
  function RemindsFrom(s: Incident, now: real): real {
    if s.lastNotified.Some? && s.lastNotified.value != 0.0 then s.lastNotified.value
    else if s.openedAt.Some? && s.openedAt.value != 0.0 then s.openedAt.value
    else now
  }

  /** The notice that these findings call for while `was` is the known incident. */
  function Called(found: seq<Cause>, was: Incident, now: real, schedule: seq<int>): Notice
    requires schedule != []
  {
    if found == [] then if was.isOpen then Recovery else Quiet
    else if !was.isOpen then Open
    else if found != was.causes then Update
    else
      var i := if was.notifications > |schedule| then |schedule| - 1 else MaxInt(0, was.notifications - 1);
      if now - RemindsFrom(was, now) >= schedule[i] as real then Reminder else Quiet
  }

  /** The incident on record once that notice is confirmed, or when none is called for. */
  function Recorded(found: seq<Cause>, was: Incident, now: real, notice: Notice): Incident {
    match notice
    case Recovery => CLOSED
    case Open => Incident(true, found, Some(now), Some(now), Some(now), 1)
    case Quiet => if found == [] then was else was.(lastSeen := Some(now))
    case _ =>
      Incident(true, found, was.openedAt, Some(now), Some(now), was.notifications + 1)
  }

  lemma DelayIs(configured: seq<int>, notifications: nat)
    ensures
      var schedule := Schedule(configured);
      schedule != [] &&
      Delay(schedule, notifications) ==
        schedule[if notifications > |schedule| then |schedule| - 1 else MaxInt(0, notifications - 1)]
  {
    hide Schedule;
    ScheduleIsUsable(configured);
    var schedule := Schedule(configured);
    assert schedule[if notifications > |schedule| then |schedule| - 1 else MaxInt(0, notifications - 1)] in schedule;
  }

  lemma CommitExactly(c: Check, s: Incident)
    requires Schedule(c.configured) != []
    ensures
      var was := if c.readable then s else CLOSED;
      var found := c.assessment.causes;
      var notice := if c.assessment.suppressed then Quiet else Called(found, was, c.now, Schedule(c.configured));
      var (file, sent) := Commit(c, s);
      sent == (if notice.Quiet? || !c.notify || c.answer.NotDelivered? then [] else [notice]) &&
      file ==
        if !c.notify || !c.written then s
        else if c.assessment.suppressed || (!notice.Quiet? && !c.answer.Confirmed?) then was
        else Recorded(found, was, c.now, notice)
  {
    DelayIs(c.configured, (if c.readable then s else CLOSED).notifications);
    hide Schedule, Delay;
  }

  /** A check at any point of a run: what it delivers, and what the file holds afterwards. */
  lemma {:induction false} CheckExactly(checks: seq<Check>, c: Check)
    ensures Schedule(c.configured) != []
    ensures
      var was := if c.readable then StoredAfter(checks) else CLOSED;
      var found := c.assessment.causes;
      var notice := if c.assessment.suppressed then Quiet else Called(found, was, c.now, Schedule(c.configured));
      Delivered(checks + [c]) ==
        Delivered(checks) + (if notice.Quiet? || !c.notify || c.answer.NotDelivered? then [] else [notice]) &&
      StoredAfter(checks + [c]) ==
        if !c.notify || !c.written then StoredAfter(checks)
        else if c.assessment.suppressed || (!notice.Quiet? && !c.answer.Confirmed?) then was
        else Recorded(found, was, c.now, notice)
  {
    hide StoredAfter, Delivered, Schedule, Commit, Called, Recorded;
    ScheduleIsUsable(c.configured);
    OneMoreCheck(checks, c);
    CommitExactly(c, StoredAfter(checks));
  }

  // ---------- the program ----------

  /** The state file between two runs of the watchdog. */
  class IncidentFile {
    var stored: Incident

    constructor ()
      ensures stored == CLOSED
    {
      stored := CLOSED;
    }

    /** `main`: load, decide, try to send, then try to write the new incident or the loaded one. */
    method Run(c: Check) returns (delivered: seq<Notice>)
      modifies this
      ensures (stored, delivered) == Commit(c, old(stored))
    {
      ScheduleIsUsable(c.configured);
      var state := if c.readable then stored else CLOSED;
      var decided := Decide(c.assessment, state, c.now, Schedule(c.configured));
      var action, newState := decided.0, decided.1;
      delivered := [];
      if !action.Quiet? && c.notify {
        if !c.answer.Confirmed? {
          newState := state;
        }
        if !c.answer.NotDelivered? {
          delivered := [action];
        }
      }
      if c.notify && c.written {
        stored := newState;
      }
    }
  }
}
