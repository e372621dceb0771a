/** One acquisition round over the fleet: what a request yields, and what a collection returns
    (app/acquisition.py). */
module Collection {
  import opened Common
  import opened RebootSafety
  import opened Leases

  datatype Quality = Valid | Partial | Invalid | TimedOut | Failed | Late

  datatype Cause = Fine | EmptyPayload | InvalidJson | SummaryMissing | RateInvalid | StatsMissing |
                   TransportTimeout | TransportError | ScheduledOverlap | DeadlineExceeded

  /** The four rate fields of a summary entry, as numbers. */
  datatype Entry = Entry(ghs5s: Number, ghsAv: Number, mhs5s: Number, mhsAv: Number, elapsed: Option<int>)

  /** A decoded JSON object. `stats` holds, for each stats entry, the boards counted in it. */
  datatype Payload = Payload(summary: Option<Entry>, stats: seq<Option<nat>>)

  datatype Status = Success | Empty | BadJson | TimeoutStatus | ErrorStatus

  datatype Outcome = Outcome(status: Status, payload: Option<Payload>, completed: real, latency: real)

  /** What a transport call did: an outcome, or an exception noticed at `completed`. */
  datatype Reply = Answer(outcome: Outcome) | Raised(begun: real, noticed: real)

  datatype Envelope = Envelope(
    key: Key,
    authority: Authority,
    epoch: int,
    observed: real,
    completed: real,
    latency: real,
    responded: bool,
    rate: Option<real>,
    elapsed: Option<int>,
    boards: Option<nat>,
    quality: Quality,
    cause: Cause,
    summaryRequests: nat,
    statsRequests: nat)

  datatype Round = Round(authority: Authority, epoch: int, scheduled: real, deadline: real, observed: real,
                         includeStats: bool)

  datatype Command = Summary | Stats

  function Bare(round: Round, key: Key, completed: real, latency: real, quality: Quality, cause: Cause,
                summaryRequests: nat): Envelope {
    Envelope(key, round.authority, round.epoch, round.observed, completed, MaxReal(0.0, latency), false, None, None,
             None, quality, cause, summaryRequests, 0)
  }

  // ---------- one request ----------

  /** An exception in the transport reads as an outcome with an error status. */
  function Safe(reply: Reply): Outcome {
    match reply
    case Answer(outcome) => outcome
    case Raised(begun, noticed) => Outcome(ErrorStatus, None, noticed, MaxReal(0.0, (noticed - begun) * 1000.0))
  }

  function Scaled(n: Number, divisor: real): Option<real>
    requires divisor > 0.0
  {
    if n.Finite? then Some(n.value / divisor) else None
  }

  function OrElse(a: Option<real>, b: Option<real>): Option<real> {
    if a.Some? then a else b
  }

  /** The first rate field that is a finite number, in TH/s. */
  function RateOf(entry: Entry): Option<real> {
    OrElse(Scaled(entry.ghs5s, 1000.0), OrElse(Scaled(entry.ghsAv, 1000.0),
      OrElse(Scaled(entry.mhs5s, 1000000.0), Scaled(entry.mhsAv, 1000000.0))))
  }

  function NormalizeSummary(round: Round, key: Key, o: Outcome): Envelope {
    match o.status
    case Empty => Bare(round, key, o.completed, o.latency, Invalid, EmptyPayload, 1)
    case BadJson => Bare(round, key, o.completed, o.latency, Invalid, InvalidJson, 1)
    case TimeoutStatus => Bare(round, key, o.completed, o.latency, TimedOut, TransportTimeout, 1)
    case ErrorStatus => Bare(round, key, o.completed, o.latency, Failed, TransportError, 1)
    case Success =>
      if o.payload.None? then Bare(round, key, o.completed, o.latency, Invalid, EmptyPayload, 1)
      else if o.payload.value.summary.None? then
        Bare(round, key, o.completed, o.latency, Invalid, SummaryMissing, 1).(responded := true)
      else
        var entry := o.payload.value.summary.value;
        var rate := RateOf(entry);
        if rate.None? then
          Bare(round, key, o.completed, o.latency, Invalid, RateInvalid, 1)
            .(responded := true, elapsed := entry.elapsed)
        else
          Bare(round, key, o.completed, o.latency, Valid, Fine, 1)
            .(responded := true, rate := rate, elapsed := entry.elapsed)
  }

  /** The boards of the first stats entry that has any count. */
  function FirstCount(stats: seq<Option<nat>>): Option<nat> {
    if stats == [] then None else if stats[0].Some? then stats[0] else FirstCount(stats[1..])
  }

  function WithStats(e: Envelope, o: Outcome): Envelope {
    var boards := if o.status.Success? && o.payload.Some? then FirstCount(o.payload.value.stats) else None;
    e.(completed := MaxReal(e.completed, o.completed),
       latency := e.latency + MaxReal(0.0, o.latency),
       boards := boards,
       quality := if boards.Some? then Valid else Partial,
       cause := if boards.Some? then Fine else StatsMissing,
       statsRequests := 1)
  }

  function AsLate(e: Envelope): Envelope {
    e.(quality := Late, cause := DeadlineExceeded)
  }

  /** The clock readings and the transport's replies that one worker run meets. */
  datatype Run = Run(started: real, checkedAgain: real, summary: Reply, stats: Reply)

  /** A worker run: its envelope and the requests it sent to the miner. */
  function RunOne(round: Round, key: Key, run: Run): (Envelope, seq<Command>) {
    if run.started >= round.deadline then
      (Bare(round, key, run.checkedAgain, 0.0, Late, DeadlineExceeded, 0), [])
    else
      var e := NormalizeSummary(round, key, Safe(run.summary));
      if e.completed > round.deadline then (AsLate(e), [Summary])
      else if !e.quality.Valid? || !round.includeStats then (e, [Summary])
      else
        var both := WithStats(e, Safe(run.stats));
        (if both.completed > round.deadline then AsLate(both) else both, [Summary, Stats])
  }

  /** What can be relied on in an envelope, whoever built it. */
  ghost predicate Trustworthy(round: Round, key: Key, e: Envelope) {
    e.key == key && e.authority == round.authority && e.epoch == round.epoch && e.observed == round.observed &&
    (e.quality.Valid? || e.quality.Partial? ==> e.completed <= round.deadline && e.responded && e.rate.Some?) &&
    (e.quality.Valid? && round.includeStats ==> e.boards.Some?) &&
    (e.quality.Partial? ==> round.includeStats && e.boards.None?) &&
    (e.boards.Some? ==> round.includeStats) &&
    e.summaryRequests <= 1 && e.statsRequests <= e.summaryRequests &&
    (e.statsRequests > 0 ==> round.includeStats && e.rate.Some?) && e.latency >= 0.0
  }

  /** At most one summary request, then at most one stats request, and that only after a valid summary
      and never in a diagnostic round; the envelope counts them right. Good quality means in time. */
  lemma RunIsTrustworthy(round: Round, key: Key, run: Run)
    ensures
      var (e, sent) := RunOne(round, key, run);
      Trustworthy(round, key, e) &&
      (sent == [] || sent == [Summary] || sent == [Summary, Stats]) &&
      e.summaryRequests + e.statsRequests == |sent| &&
      (sent == [Summary, Stats] <==>
         run.started < round.deadline && round.includeStats &&
         NormalizeSummary(round, key, Safe(run.summary)).quality.Valid? &&
         Safe(run.summary).completed <= round.deadline) &&
      (sent != [] <==> run.started < round.deadline)
  {
    hide RateOf, FirstCount;
  }

  lemma SummaryValidExactly(round: Round, key: Key, o: Outcome)
    ensures
      var e := NormalizeSummary(round, key, o);
      (e.quality.Valid? <==>
         o.status.Success? && o.payload.Some? && o.payload.value.summary.Some? &&
         RateOf(o.payload.value.summary.value).Some?) &&
      e.completed == o.completed && !e.quality.Late?
  {
    hide RateOf;
  }

  lemma {:induction false} FirstCountExactly(stats: seq<Option<nat>>)
    ensures FirstCount(stats).Some? <==> exists i :: 0 <= i < |stats| && stats[i].Some?
  {
    if stats != [] && stats[0].None? {
      FirstCountExactly(stats[1..]);
      forall i | 0 <= i < |stats| && stats[i].Some? ensures stats[1..][i - 1] == stats[i] {
      }
    }
  }

  /** A sample is valid exactly when the run began before the deadline, the summary has a finite rate, the
      stats, where the round wants them, count boards, and every answer came by the deadline. */
  lemma ValidExactly(round: Round, key: Key, run: Run)
    ensures
      var o, p := Safe(run.summary), Safe(run.stats);
      RunOne(round, key, run).0.quality.Valid? <==>
        run.started < round.deadline && o.completed <= round.deadline &&
        o.status.Success? && o.payload.Some? && o.payload.value.summary.Some? &&
        (var e := o.payload.value.summary.value;
         e.ghs5s.Finite? || e.ghsAv.Finite? || e.mhs5s.Finite? || e.mhsAv.Finite?) &&
        (round.includeStats ==>
           p.completed <= round.deadline && p.status.Success? && p.payload.Some? &&
           exists i :: 0 <= i < |p.payload.value.stats| && p.payload.value.stats[i].Some?)
  {
    SummaryValidExactly(round, key, Safe(run.summary));
    var p := Safe(run.stats);
    if p.payload.Some? {
      FirstCountExactly(p.payload.value.stats);
    }
    hide NormalizeSummary, FirstCount, Safe;
  }

  /** The summary entry of a reply that carries one. */
  function EntryOf(reply: Reply): Option<Entry> {
    if reply.Answer? && reply.outcome.status.Success? && reply.outcome.payload.Some?
    then reply.outcome.payload.value.summary
    else None
  }

  predicate HasRate(reply: Reply) {
    EntryOf(reply).Some? &&
    var e := EntryOf(reply).value;
    e.ghs5s.Finite? || e.ghsAv.Finite? || e.mhs5s.Finite? || e.mhsAv.Finite?
  }

  /** The counts in the stats entries of a reply. */
  function CountsOf(reply: Reply): seq<Option<nat>> {
    if reply.Answer? && reply.outcome.status.Success? && reply.outcome.payload.Some?
    then reply.outcome.payload.value.stats
    else []
  }

  predicate IsFirstCount(counts: seq<Option<nat>>, i: nat) {
    i < |counts| && counts[i].Some? && forall j :: 0 <= j < i ==> counts[j].None?
  }

  lemma {:induction false} FirstCountIs(counts: seq<Option<nat>>, i: nat)
    requires IsFirstCount(counts, i)
    ensures FirstCount(counts) == counts[i]
  {
    if i > 0 {
      FirstCountIs(counts[1..], i - 1);
    }
  }

  lemma {:induction false} SomeFirstCount(counts: seq<Option<nat>>) returns (i: nat)
    requires FirstCount(counts).Some?
    ensures IsFirstCount(counts, i)
  {
    if counts[0].Some? {
      i := 0;
    } else {
      i := SomeFirstCount(counts[1..]);
      i := i + 1;
    }
  }

  lemma ScaledBack(n: Number)
    requires n.Finite?
    ensures n.value / 1000.0 * 1000.0 == n.value && n.value / 1000000.0 * 1000000.0 == n.value
  {
  }

  lemma RateOfExactly(entry: Entry)
    ensures RateOf(entry).Some? <==>
      entry.ghs5s.Finite? || entry.ghsAv.Finite? || entry.mhs5s.Finite? || entry.mhsAv.Finite?
    ensures
      var rate := RateOf(entry);
      if entry.ghs5s.Finite? then rate.value * 1000.0 == entry.ghs5s.value
      else if entry.ghsAv.Finite? then rate.value * 1000.0 == entry.ghsAv.value
      else if entry.mhs5s.Finite? then rate.value * 1000000.0 == entry.mhs5s.value
      else entry.mhsAv.Finite? ==> rate.value * 1000000.0 == entry.mhsAv.value
  {
    if entry.ghs5s.Finite? {
      ScaledBack(entry.ghs5s);
    } else if entry.ghsAv.Finite? {
      ScaledBack(entry.ghsAv);
    } else if entry.mhs5s.Finite? {
      ScaledBack(entry.mhs5s);
    } else if entry.mhsAv.Finite? {
      ScaledBack(entry.mhsAv);
    }
  }

  lemma SummaryIs(round: Round, key: Key, reply: Reply)
    ensures
      var e, o := NormalizeSummary(round, key, Safe(reply)), Safe(reply);
      (e.quality.Valid? <==> HasRate(reply)) && (e.rate.Some? <==> HasRate(reply)) && e.boards.None? &&
      (HasRate(reply) ==> e.rate == RateOf(EntryOf(reply).value)) &&
      e.elapsed == (if EntryOf(reply).Some? then EntryOf(reply).value.elapsed else None) &&
      e.completed == o.completed && e.latency == MaxReal(0.0, o.latency) && e.statsRequests == 0 &&
      (e.responded <==> reply.Answer? && reply.outcome.status.Success? && reply.outcome.payload.Some?)
  {
    hide RateOf;
    if EntryOf(reply).Some? {
      RateOfExactly(EntryOf(reply).value);
    }
  }

  /** The rate of a sample is the first finite one of the four rate fields of the summary, 5 s before average
      and GH/s before MH/s, in TH/s; its boards are the first count among the stats entries; its uptime is the
      summary's. */
  lemma {:induction false} SampleIsFromReplies(round: Round, key: Key, run: Run)
    ensures
      var e := RunOne(round, key, run).0;
      (e.rate.Some? <==> run.started < round.deadline && HasRate(run.summary)) &&
      (e.rate.Some? ==>
         var s := EntryOf(run.summary).value;
         if s.ghs5s.Finite? then e.rate.value * 1000.0 == s.ghs5s.value
         else if s.ghsAv.Finite? then e.rate.value * 1000.0 == s.ghsAv.value
         else if s.mhs5s.Finite? then e.rate.value * 1000000.0 == s.mhs5s.value
         else s.mhsAv.Finite? && e.rate.value * 1000000.0 == s.mhsAv.value) &&
      e.elapsed == (if run.started < round.deadline && EntryOf(run.summary).Some?
                    then EntryOf(run.summary).value.elapsed else None)
    ensures
      var e, counts := RunOne(round, key, run).0, CountsOf(run.stats);
      if e.statsRequests == 1
      then (e.boards.Some? <==> exists i: nat :: IsFirstCount(counts, i)) &&
           forall i: nat :: IsFirstCount(counts, i) ==> e.boards == counts[i]
      else e.boards.None?
  {
    hide RateOf, FirstCount, NormalizeSummary, EntryOf;
    SummaryIs(round, key, run.summary);
    if HasRate(run.summary) {
      RateOfExactly(EntryOf(run.summary).value);
    }
    var counts := CountsOf(run.stats);
    assert FirstCount([]) == None by {
      FirstCountExactly([]);
    }
    if FirstCount(counts).Some? {
      var i := SomeFirstCount(counts);
    }
    forall i: nat | IsFirstCount(counts, i) ensures FirstCount(counts) == counts[i] {
      FirstCountIs(counts, i);
    }
  }

  function CompletedAt(reply: Reply): real {
    match reply
    case Answer(outcome) => outcome.completed
    case Raised(_, noticed) => noticed
  }

  /** The time a request took, in milliseconds; never negative. */
  function Took(reply: Reply): real {
    match reply
    case Answer(outcome) => MaxReal(0.0, outcome.latency)
    case Raised(begun, noticed) => MaxReal(0.0, 1000.0 * (noticed - begun))
  }

  /** The status of a reply; an exception is an error. */
  function StatusOf(reply: Reply): Status {
    if reply.Answer? then reply.outcome.status else ErrorStatus
  }

  /** The run goes on to ask for the stats. */
  predicate AsksStats(round: Round, run: Run) {
    run.started < round.deadline && CompletedAt(run.summary) <= round.deadline && round.includeStats &&
    HasRate(run.summary)
  }

  predicate IsTooLate(round: Round, run: Run) {
    run.started >= round.deadline || CompletedAt(run.summary) > round.deadline ||
    (AsksStats(round, run) && CompletedAt(run.stats) > round.deadline)
  }

  /** The cause of a sample that came in time, from the replies. */
  function CauseOf(round: Round, run: Run): Cause {
    match StatusOf(run.summary)
    case TimeoutStatus => TransportTimeout
    case ErrorStatus => TransportError
    case Empty => EmptyPayload
    case BadJson => InvalidJson
    case Success =>
      if run.summary.outcome.payload.None? then EmptyPayload
      else if EntryOf(run.summary).None? then SummaryMissing
      else if !HasRate(run.summary) then RateInvalid
      else if round.includeStats && forall i :: 0 <= i < |CountsOf(run.stats)| ==> CountsOf(run.stats)[i].None?
      then StatsMissing
      else Fine
  }

  function QualityFor(cause: Cause): Quality {
    match cause
    case Fine => Valid
    case StatsMissing => Partial
    case TransportTimeout => TimedOut
    case DeadlineExceeded => Late
    case TransportError => Failed
    case ScheduledOverlap => Failed
    case EmptyPayload => Invalid
    case InvalidJson => Invalid
    case SummaryMissing => Invalid
    case RateInvalid => Invalid
  }

  lemma SummaryCause(round: Round, key: Key, reply: Reply)
    ensures
      var e, o := NormalizeSummary(round, key, Safe(reply)), Safe(reply);
      e.quality == QualityFor(e.cause) && (e.cause.Fine? <==> HasRate(reply)) && !e.cause.StatsMissing? &&
      (!HasRate(reply) ==> forall stats, started, again ::
         e.cause == CauseOf(round, Run(started, again, reply, stats))) &&
      CompletedAt(reply) == e.completed && Took(reply) == e.latency
  {
    hide RateOf;
    if EntryOf(reply).Some? {
      RateOfExactly(EntryOf(reply).value);
    }
  }

  /** The grade of a sample and the reason for it, from the replies and the deadline; when it was complete and
      how long its requests took. */
  lemma {:induction false} GradeIsFromReplies(round: Round, key: Key, run: Run)
    ensures
      var e := RunOne(round, key, run).0;
      e.cause == (if IsTooLate(round, run) then DeadlineExceeded else CauseOf(round, run)) &&
      e.quality == QualityFor(e.cause) &&
      (e.responded <==>
         run.started < round.deadline && StatusOf(run.summary).Success? && run.summary.outcome.payload.Some?) &&
      e.statsRequests == (if AsksStats(round, run) then 1 else 0) &&
      (if run.started >= round.deadline then e.completed == run.checkedAgain && e.latency == 0.0
       else if AsksStats(round, run) then
         e.completed == MaxReal(CompletedAt(run.summary), CompletedAt(run.stats)) &&
         e.latency == Took(run.summary) + Took(run.stats)
       else e.completed == CompletedAt(run.summary) && e.latency == Took(run.summary))
  {
    hide RateOf, FirstCount, NormalizeSummary, HasRate, EntryOf;
    SummaryIs(round, key, run.summary);
    SummaryCause(round, key, run.summary);
    FirstCountExactly(CountsOf(run.stats));
    FirstCountExactly([]);
    StatusIs(run.summary);
    if HasRate(run.summary) {
      RatedIsFine(round, run);
    }
  }

  lemma StatusIs(reply: Reply)
    ensures Safe(reply).status == StatusOf(reply)
  {
  }

  lemma RatedIsFine(round: Round, run: Run)
    requires HasRate(run.summary)
    ensures
      var any := exists i :: 0 <= i < |CountsOf(run.stats)| && CountsOf(run.stats)[i].Some?;
      CauseOf(round, run) == if round.includeStats && !any then StatsMissing else Fine
  {
  }

  // ---------- a whole round ----------

  /** Where a submitted request stands when the collector stops waiting: finished with an envelope,
      finished with an exception that the collector notices at some time, or unfinished. An unfinished one
      can be cancelled only while no worker has it. */
  datatype Fate =
    | Done(run: Run)
    | Crashed(noticed: real)
    | Unfinished(seenRunning: bool, cancelled: bool)

  function Overlapping(round: Round, key: Key, acquiredAt: real): Envelope {
    Bare(round, key, acquiredAt, 0.0, Failed, ScheduledOverlap, 0)
  }

  function Submitted(round: Round, key: Key, fate: Fate): Envelope {
    match fate
    case Done(run) => RunOne(round, key, run).0
    case Crashed(noticed) => Bare(round, key, noticed, 0.0, Failed, TransportError, 1)
    case Unfinished(seenRunning, cancelled) =>
      Bare(round, key, round.deadline, (round.deadline - round.scheduled) * 1000.0, Late, DeadlineExceeded,
           if seenRunning && !cancelled then 1 else 0)
  }

  function EnvelopeFor(round: Round, owned: set<Key>, acquiredAt: real, fates: Key -> Fate, key: Key): Envelope {
    if key in owned then Overlapping(round, key, acquiredAt) else Submitted(round, key, fates(key))
  }

  predicate StillHeld(fate: Fate) {
    fate.Unfinished? && !fate.cancelled
  }

  lemma EveryEnvelopeIsTrustworthy(round: Round, owned: set<Key>, acquiredAt: real, fates: Key -> Fate, key: Key)
    ensures
      var e := EnvelopeFor(round, owned, acquiredAt, fates, key);
      Trustworthy(round, key, e) &&
      (key in owned <==> e.cause.ScheduledOverlap?) &&
      (key !in owned && fates(key).Unfinished? ==> e.quality.Late? && e.completed == round.deadline) &&
      (key in owned ==> e.summaryRequests == 0)
  {
    if key !in owned && fates(key).Done? {
      RunIsTrustworthy(round, key, fates(key).run);
      RunIsNoOverlap(round, key, fates(key).run);
      hide RunOne;
    }
  }

  /** What is reported of a miner whose request was never finished, was not even made, or blew up: no data, and
      one request only if a worker has it or had it. */
  lemma EnvelopeWithoutReply(round: Round, owned: set<Key>, acquiredAt: real, fates: Key -> Fate, key: Key)
    requires key in owned || !fates(key).Done?
    ensures
      var e := EnvelopeFor(round, owned, acquiredAt, fates, key);
      !e.responded && e.rate.None? && e.elapsed.None? && e.boards.None? && e.statsRequests == 0 &&
      if key in owned then
        e.quality.Failed? && e.cause.ScheduledOverlap? && e.completed == acquiredAt && e.summaryRequests == 0 &&
        e.latency == 0.0
      else if fates(key).Crashed? then
        e.quality.Failed? && e.cause.TransportError? && e.completed == fates(key).noticed && e.summaryRequests == 1 &&
        e.latency == 0.0
      else
        e.quality.Late? && e.cause.DeadlineExceeded? && e.completed == round.deadline &&
        e.summaryRequests == (if fates(key).seenRunning && !fates(key).cancelled then 1 else 0) &&
        e.latency == MaxReal(0.0, 1000.0 * (round.deadline - round.scheduled))
  {
  }

  lemma RunIsNoOverlap(round: Round, key: Key, run: Run)
    ensures !RunOne(round, key, run).0.cause.ScheduledOverlap?
  {
  }

  datatype Refusal = AcquirerClosed | DuplicateKeys

  datatype Collected = Envelopes(list: seq<Envelope>) | Refused(why: Refusal)

  predicate Distinct(keys: seq<Key>) {
    forall i, j :: 0 <= i < j < |keys| ==> keys[i] != keys[j]
  }

  class BoundedAcquirer {
    const registry: InFlightRegistry
    var closed: bool
    /** The requests that workers still run after the collector has stopped waiting for them. */
    var running: map<Key, Lease>

    ghost predicate Valid()
      reads this`running, registry`leases
    {
      forall k :: k in running ==>
        running[k].key == k && k in registry.leases && registry.leases[k] == running[k]
    }

    constructor (registry: InFlightRegistry)
      ensures this.registry == registry && !closed && running == map[] && Valid()
    {
      this.registry, closed, running := registry, false, map[];
    }

    /** A worker ends a request that nobody waits for any more. */
    method FinishLate(k: Key)
      requires Valid() && k in running
      modifies this`running, registry`leases
      ensures Valid()
      ensures running == old(running) - {k} && registry.leases == old(registry.leases) - {k}
    {
      var released := registry.Release(Some(running[k]));
      running := running - {k};
    }

    /** Refuse further collections and wait for the workers: every request this acquirer still had in
        flight gives its lease back, and nothing else does. A second close changes nothing. */
    method Close()
      requires Valid()
      modifies this`closed, this`running, registry`leases
      ensures Valid() && closed
      ensures old(closed) ==> running == old(running) && registry.leases == old(registry.leases)
      ensures !old(closed) ==> running == map[] && registry.leases == old(registry.leases) - old(running).Keys
    {
      if closed {
        return;
      }
      closed := true;
      while running != map[]
        invariant Valid() && closed && running.Keys <= old(running).Keys
        invariant registry.leases == old(registry.leases) - (old(running).Keys - running.Keys)
        decreases running.Keys
      {
        assert running.Keys != {};
        var k :| k in running;
        FinishLate(k);
      }
    }

    /** A worker run on the registry: the lease is given back at its end, whatever happened. */
    method AcquireOne(round: Round, lease: Lease, run: Run) returns (e: Envelope, sent: seq<Command>)
      modifies registry`leases
      ensures (e, sent) == RunOne(round, lease.key, run)
      ensures registry.View() == Drop(old(registry.View()), Some(lease)).0
    {
      hide NormalizeSummary, WithStats, Drop;
      e, sent := Attempt(round, lease.key, run);
      var released := registry.Release(Some(lease));
    }

    method Attempt(round: Round, key: Key, run: Run) returns (e: Envelope, sent: seq<Command>)
      ensures (e, sent) == RunOne(round, key, run)
    {
      hide NormalizeSummary, WithStats;
      if run.started >= round.deadline {
        return Bare(round, key, run.checkedAgain, 0.0, Late, DeadlineExceeded, 0), [];
      }
      sent := [Summary];
      e := NormalizeSummary(round, key, Safe(run.summary));
      if e.completed > round.deadline {
        return AsLate(e), sent;
      }
      if !e.quality.Valid? || !round.includeStats {
        return;
      }
      sent := [Summary, Stats];
      e := WithStats(e, Safe(run.stats));
      if e.completed > round.deadline {
        return AsLate(e), sent;
      }
    }

    /** The leases after `some` of the submitted requests have been dealt with. */
    static ghost predicate Settled(before: map<Key, Lease>, submitted: map<Key, Lease>, fates: Key -> Fate,
                                   waiting: set<Key>, leases: map<Key, Lease>)
    {
      submitted.Keys !! before.Keys && waiting <= submitted.Keys &&
      (forall k :: k in submitted ==> submitted[k].key == k) &&
      leases.Keys == before.Keys + (set k | k in submitted && (k in waiting || StillHeld(fates(k)))) &&
      forall k :: k in leases ==> leases[k] == if k in before then before[k] else submitted[k]
    }

    static lemma SettleOne(before: map<Key, Lease>, submitted: map<Key, Lease>, fates: Key -> Fate,
                           waiting: set<Key>, r: Registry, k: Key)
      requires Settled(before, submitted, fates, waiting, r.leases) && k in waiting
      ensures Settled(before, submitted, fates, waiting - {k},
                      if StillHeld(fates(k)) then r.leases else Drop(r, Some(submitted[k])).0.leases)
    {
    }

    /** The lease of miner k for a request of this round. */
    static predicate IsFor(round: Round, acquiredAt: real, k: Key, lease: Lease) {
      lease.key == k && lease.authority == round.authority && lease.epoch == round.epoch &&
      lease.acquired == acquiredAt && lease.deadline == round.deadline
    }

    /** What is known after the miners in `seen` have been asked for a lease. */
    static ghost predicate Asked(round: Round, acquiredAt: real, before: map<Key, Lease>, seen: set<Key>,
                                 submitted: map<Key, Lease>, envelopes: map<Key, Envelope>, leases: map<Key, Lease>)
    {
      submitted.Keys == seen - before.Keys &&
      envelopes == (map k | k in seen && k in before :: Overlapping(round, k, acquiredAt)) &&
      leases == before + submitted &&
      forall k :: k in submitted ==> IsFor(round, acquiredAt, k, submitted[k])
    }

    static lemma AskOne(round: Round, acquiredAt: real, before: map<Key, Lease>, seen: set<Key>,
                        submitted: map<Key, Lease>, envelopes: map<Key, Envelope>, leases: map<Key, Lease>,
                        k: Key, lease: Lease)
      requires Asked(round, acquiredAt, before, seen, submitted, envelopes, leases) && k !in seen
      requires IsFor(round, acquiredAt, k, lease)
      ensures k in leases <==> k in before
      ensures k in before ==>
        Asked(round, acquiredAt, before, seen + {k}, submitted, envelopes[k := Overlapping(round, k, acquiredAt)],
              leases)
      ensures k !in before ==>
        Asked(round, acquiredAt, before, seen + {k}, submitted[k := lease], envelopes, leases[k := lease])
    {
      hide Overlapping;
    }

    /** Reserve a lease for every miner that has none. */
    method SubmitAll(miners: seq<Key>, round: Round, acquiredAt: real)
      returns (submitted: map<Key, Lease>, envelopes: map<Key, Envelope>)
      requires Distinct(miners)
      modifies registry
      ensures Asked(round, acquiredAt, old(registry.leases), (set k | k in miners), submitted, envelopes,
                    registry.leases)
    {
      hide Overlapping;
      submitted, envelopes := map[], map[];
      ghost var seen: set<Key> := {};
      var i := 0;
      while i < |miners|
        invariant 0 <= i <= |miners| && seen == (set k | k in miners[..i])
        invariant Asked(round, acquiredAt, old(registry.leases), seen, submitted, envelopes, registry.leases)
      {
        hide Asked;
        var key := miners[i];
        assert key !in miners[..i];
        assert miners[..i + 1] == miners[..i] + [key];
        AskOne(round, acquiredAt, old(registry.leases), seen, submitted, envelopes, registry.leases, key,
               Lease(registry.nextId, key, round.authority, round.epoch, acquiredAt, round.deadline));
        var lease := registry.Acquire(key, round.authority, round.epoch, acquiredAt, round.deadline);
        if lease.None? {
          envelopes := envelopes[key := Overlapping(round, key, acquiredAt)];
        } else {
          submitted := submitted[key := lease.value];
        }
        seen := seen + {key};
        i := i + 1;
      }
      assert miners[..i] == miners;
    }

    /** Take in the finished requests in any order, then write off the unfinished ones. */
    method Settle(round: Round, submitted: map<Key, Lease>, fates: Key -> Fate, ghost before: map<Key, Lease>)
      returns (envelopes: map<Key, Envelope>)
      requires Settled(before, submitted, fates, submitted.Keys, registry.leases)
      modifies registry`leases
      ensures envelopes == map k | k in submitted :: Submitted(round, k, fates(k))
      ensures Settled(before, submitted, fates, {}, registry.leases)
    {
      hide Settled, RunOne;
      envelopes := map[];
      var waiting := submitted.Keys;
      while exists k :: k in waiting && !fates(k).Unfinished?
        invariant waiting <= submitted.Keys && Settled(before, submitted, fates, waiting, registry.leases)
        invariant forall k :: k in submitted && fates(k).Unfinished? ==> k in waiting
        invariant envelopes == map k | k in submitted && k !in waiting :: Submitted(round, k, fates(k))
        decreases waiting
      {
        var k :| k in waiting && !fates(k).Unfinished?;
        KeysMatch(before, submitted, fates, waiting, registry.leases);
        SettleOne(before, submitted, fates, waiting, registry.View(), k);
        var e := SettleFinished(round, submitted[k], fates(k));
        envelopes := envelopes[k := e];
        waiting := waiting - {k};
      }
      while waiting != {}
        invariant waiting <= submitted.Keys && Settled(before, submitted, fates, waiting, registry.leases)
        invariant forall k :: k in waiting ==> fates(k).Unfinished?
        invariant envelopes == map k | k in submitted && k !in waiting :: Submitted(round, k, fates(k))
        decreases waiting
      {
        var k :| k in waiting;
        KeysMatch(before, submitted, fates, waiting, registry.leases);
        SettleOne(before, submitted, fates, waiting, registry.View(), k);
        var e := WriteOff(round, submitted[k], fates(k));
        envelopes := envelopes[k := e];
        waiting := waiting - {k};
      }
    }

    static lemma KeysMatch(before: map<Key, Lease>, submitted: map<Key, Lease>, fates: Key -> Fate,
                           waiting: set<Key>, leases: map<Key, Lease>)
      requires Settled(before, submitted, fates, waiting, leases)
      ensures forall k :: k in submitted ==> submitted[k].key == k
    {
    }

    method SettleFinished(round: Round, lease: Lease, fate: Fate) returns (e: Envelope)
      requires !fate.Unfinished?
      modifies registry`leases
      ensures e == Submitted(round, lease.key, fate)
      ensures registry.View() == Drop(old(registry.View()), Some(lease)).0
    {
      hide Drop, RunOne;
      if fate.Done? {
        var sent;
        e, sent := AcquireOne(round, lease, fate.run);
      } else {
        var released := registry.Release(Some(lease));
        e := Bare(round, lease.key, fate.noticed, 0.0, Failed, TransportError, 1);
      }
    }

    method WriteOff(round: Round, lease: Lease, fate: Fate) returns (e: Envelope)
      requires fate.Unfinished?
      modifies registry`leases
      ensures e == Submitted(round, lease.key, fate)
      ensures registry.View() ==
              if StillHeld(fate) then old(registry.View()) else Drop(old(registry.View()), Some(lease)).0
    {
      var running := fate.seenRunning;
      if fate.cancelled {
        var released := registry.Release(Some(lease));
        running := false;
      }
      e := Bare(round, lease.key, round.deadline, (round.deadline - round.scheduled) * 1000.0, Late, DeadlineExceeded,
                if running then 1 else 0);
    }

    static lemma AskedIsUnsettled(round: Round, acquiredAt: real, before: map<Key, Lease>, miners: seq<Key>,
                                  fates: Key -> Fate, submitted: map<Key, Lease>, envelopes: map<Key, Envelope>,
                                  leases: map<Key, Lease>)
      requires Asked(round, acquiredAt, before, (set k | k in miners), submitted, envelopes, leases)
      ensures Settled(before, submitted, fates, submitted.Keys, leases)
      ensures submitted.Keys == (set k | k in miners) - before.Keys
      ensures envelopes == map k | k in miners && k in before :: Overlapping(round, k, acquiredAt)
    {
      hide Overlapping;
    }

    static lemma EveryMinerAnswered(miners: seq<Key>, round: Round, acquiredAt: real, fates: Key -> Fate,
                                    owned: set<Key>,
                                    overlapping: map<Key, Envelope>, settled: map<Key, Envelope>)
      requires overlapping == map k | k in miners && k in owned :: Overlapping(round, k, acquiredAt)
      requires settled == map k | k in (set k | k in miners) - owned :: Submitted(round, k, fates(k))
      ensures forall i :: 0 <= i < |miners| ==>
        miners[i] in overlapping + settled &&
        (overlapping + settled)[miners[i]] == EnvelopeFor(round, owned, acquiredAt, fates, miners[i])
    {
      hide Submitted, Overlapping;
    }

    static lemma SettledLeases(before: map<Key, Lease>, submitted: map<Key, Lease>, fates: Key -> Fate,
                               leases: map<Key, Lease>)
      requires Settled(before, submitted, fates, {}, leases)
      ensures leases == before + map k | k in submitted && StillHeld(fates(k)) :: submitted[k]
      ensures forall k :: k in submitted ==> submitted[k].key == k
    {
    }

    /** Submit, wait and gather; `left` are the leases of the requests still running. */
    method Gather(miners: seq<Key>, round: Round, acquiredAt: real, fates: Key -> Fate)
      returns (list: seq<Envelope>, left: map<Key, Lease>)
      requires Distinct(miners)
      modifies registry
      ensures list == seq(|miners|, i requires 0 <= i < |miners| =>
                EnvelopeFor(round, old(registry.leases).Keys, acquiredAt, fates, miners[i]))
      ensures left.Keys == set k | k in miners && k !in old(registry.leases) && StillHeld(fates(k))
      ensures forall k :: k in left ==> left[k].key == k
      ensures registry.leases == old(registry.leases) + left
    {
      hide Submitted, Overlapping, Asked, Settled;
      ghost var before := registry.leases;
      var submitted, envelopes := SubmitAll(miners, round, acquiredAt);
      AskedIsUnsettled(round, acquiredAt, before, miners, fates, submitted, envelopes, registry.leases);
      var settled := Settle(round, submitted, fates, before);
      left := map k | k in submitted && StillHeld(fates(k)) :: submitted[k];
      SettledLeases(before, submitted, fates, registry.leases);
      EveryMinerAnswered(miners, round, acquiredAt, fates, before.Keys, envelopes, settled);
      envelopes := envelopes + settled;
      list := seq(|miners|, i requires 0 <= i < |miners| => envelopes[miners[i]]);
    }

    /** One collection. Other threads do not touch the registry meanwhile in this model. */
    method Collect(miners: seq<Key>, round: Round, acquiredAt: real, fates: Key -> Fate) returns (r: Collected)
      requires Valid()
      modifies this`running, registry
      ensures Valid()
      ensures closed || !Distinct(miners) ==>
        r.Refused? && (r.why.AcquirerClosed? <==> closed) &&
        registry.View() == old(registry.View()) && running == old(running)
      ensures !closed && Distinct(miners) ==>
        r == Envelopes(seq(|miners|, i requires 0 <= i < |miners| =>
               EnvelopeFor(round, old(registry.leases).Keys, acquiredAt, fates, miners[i])))
      ensures !closed && Distinct(miners) ==>
        var left := set k | k in miners && k !in old(registry.leases) && fates(k).Unfinished? && !fates(k).cancelled;
        registry.leases.Keys == old(registry.leases).Keys + left && running.Keys == old(running).Keys + left &&
        forall k :: k in old(registry.leases) ==> registry.leases[k] == old(registry.leases)[k]
    {
      if closed {
        return Refused(AcquirerClosed);
      }
      if !Distinct(miners) {
        return Refused(DuplicateKeys);
      }
      hide EnvelopeFor;
      var list, left := Gather(miners, round, acquiredAt, fates);
      running := running + left;
      r := Envelopes(list);
    }
  }

  // ---------- handing samples on ----------

  predicate Applies(e: Envelope) {
    e.authority.Authoritative? && !e.quality.Late?
  }

  function Applied(envelopes: seq<Envelope>): seq<Envelope> {
    if envelopes == [] then []
    else (if Applies(envelopes[0]) then [envelopes[0]] else []) + Applied(envelopes[1..])
  }

  /** The consumer is called once for each authoritative sample that is not late, in order. */
  method DispatchAuthoritative(envelopes: seq<Envelope>) returns (consumed: seq<Envelope>, applied: nat)
    ensures consumed == Applied(envelopes) && applied == |consumed|
  {
    consumed, applied := [], 0;
    var i := 0;
    while i < |envelopes|
      invariant 0 <= i <= |envelopes| && applied == |consumed|
      invariant consumed + Applied(envelopes[i..]) == Applied(envelopes)
    {
      assert envelopes[i..][1..] == envelopes[i + 1..];
      if Applies(envelopes[i]) {
        consumed := consumed + [envelopes[i]];
        applied := applied + 1;
      }
      i := i + 1;
    }
    assert envelopes[i..] == [] && consumed + [] == consumed;
  }

  /** What is handed on comes from the list in its order, is authoritative and not late, and nothing of
      that kind is left out. */
  lemma {:induction false} AppliedExactly(envelopes: seq<Envelope>, e: Envelope)
    ensures e in Applied(envelopes) <==> e in envelopes && e.authority == Authoritative && e.quality != Late
    ensures multiset(Applied(envelopes))[e] ==
            if e.authority == Authoritative && e.quality != Late then multiset(envelopes)[e] else 0
  {
    if envelopes != [] {
      AppliedExactly(envelopes[1..], e);
      assert envelopes == [envelopes[0]] + envelopes[1..];
    }
  }

  lemma AppliedAlone(e: Envelope)
    ensures Applied([e]) == if e.authority == Authoritative && e.quality != Late then [e] else []
  {
    assert [e][1..] == [];
  }

  lemma AppliedFromFirst(list: seq<Envelope>)
    requires list != []
    ensures Applied(list) == Applied([list[0]]) + Applied(list[1..])
  {
    AppliedAlone(list[0]);
  }

  lemma JoinedTwice<T>(a: seq<T>, b: seq<T>, c: seq<T>)
    ensures a + (b + c) == (a + b) + c
  {
  }

  lemma NothingApplied()
    ensures Applied([]) == []
  {
  }

  /** And it is handed on in the order of the list. */
  lemma {:induction false} AppliedInOrder(first: seq<Envelope>, more: seq<Envelope>)
    ensures Applied(first + more) == Applied(first) + Applied(more)
  {
    hide Applied;
    if first == [] {
      NothingApplied();
      assert first + more == more;
    } else {
      AppliedInOrder(first[1..], more);
      assert (first + more)[1..] == first[1..] + more;
      AppliedFromFirst(first + more);
      AppliedFromFirst(first);
      JoinedTwice(Applied([first[0]]), Applied(first[1..]), Applied(more));
    }
  }

  /** A diagnostic round hands on nothing; an authoritative one hands on good samples only if they are
      from before its deadline. */
  lemma RoundHandsOn(miners: seq<Key>, round: Round, owned: set<Key>, acquiredAt: real, fates: Key -> Fate, e: Envelope)
    requires e in Applied(seq(|miners|, i requires 0 <= i < |miners| =>
                                EnvelopeFor(round, owned, acquiredAt, fates, miners[i])))
    ensures round.authority.Authoritative? && e.key in miners
    ensures e.quality.Valid? || e.quality.Partial? ==> e.completed <= round.deadline && e.rate.Some?
  {
    var list := seq(|miners|, i requires 0 <= i < |miners| => EnvelopeFor(round, owned, acquiredAt, fates, miners[i]));
    AppliedExactly(list, e);
    var i :| 0 <= i < |list| && list[i] == e;
    EveryEnvelopeIsTrustworthy(round, owned, acquiredAt, fates, miners[i]);
    hide EnvelopeFor;
  }
}
