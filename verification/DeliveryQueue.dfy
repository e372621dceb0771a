/** The bounded outgoing queue and its coalescing sender (`send_telegram` and `telegram_sender_worker`
    in app/miner_monitor.py). */
module DeliveryQueue {
  import opened Common

  datatype MsgKind = Status | Startup | StateChange | OtherKind(name: string)

  /** One queue entry: a part of a message. */
  datatype Item = Item(at: real, text: string, kind: MsgKind, isCommand: bool, batch: nat, part: nat, count: nat)

  /** The seconds within which a newer message of the same kind replaces an older one. */
  function Window(kind: MsgKind): Option<real> {
    match kind
    case Status => Some(5.0)
    case Startup => Some(5.0)
    case StateChange => Some(35.0)
    case OtherKind(_) => None
  }

  const DEDUPE_SECONDS := 60.0

  datatype Sent = Sent(digest: int, at: real)

  /** What the service does with a post: accept it, answer with another status, or not answer at all. */
  datatype Reply = Status200 | OtherStatus | NoReply

  datatype Verdict = Delivered | Refused | Unanswered | Coalesced | Duplicate
  {
    predicate Answered() {
      Delivered? || Refused?
    }
  }

  datatype Admission = Queued | Dropped | SentDirectly

  /** The queue between its two users. `accepted` is every entry ever put, in order; the first `taken`
      of them have left the queue, and the last of those is in the sender's hand while `holding`. */
  datatype Line = Line(
    accepted: seq<Item>,
    taken: nat,
    holding: bool,
    verdicts: seq<Verdict>,
    lastEnqueued: map<MsgKind, real>,
    lastSent: map<MsgKind, Sent>,
    nextBatch: nat)

  const EMPTY := Line([], 0, false, [], map[], map[], 0)

  /** What the two threads do. A producer holds the lock for the whole of Send; the sender reads
      `lastEnqueued` under the same lock in Settle. */
  datatype Act =
    | Send(parts: seq<string>, kind: MsgKind, isCommand: bool, now: real)
    | Take
    | Settle(now: real, reply: Reply)

  predicate HasRoom(line: Line, maxsize: int, needed: nat)
    requires line.taken <= |line.accepted|
  {
    maxsize <= 0 || |line.accepted| - line.taken + needed <= maxsize
  }

  function Admit(line: Line, maxsize: int, needed: nat, isCommand: bool): Admission
    requires line.taken <= |line.accepted|
  {
    if HasRoom(line, maxsize, needed) then Queued else if isCommand then SentDirectly else Dropped
  }

  function Entries(a: Act, batch: nat): seq<Item>
    requires a.Send?
  {
    seq(|a.parts|, i requires 0 <= i < |a.parts| =>
      Item(a.now, a.parts[i], a.kind, a.isCommand, batch, i + 1, |a.parts|))
  }

  /** A newer message of the kind was accepted within the coalescing window. */
  predicate IsSuperseded(item: Item, lastEnqueued: map<MsgKind, real>) {
    item.count == 1 && !item.isCommand && Window(item.kind).Some? &&
    var last := if item.kind in lastEnqueued then lastEnqueued[item.kind] else 0.0;
    item.at < last && last - item.at <= Window(item.kind).value
  }

  predicate IsDuplicate(item: Item, lastSent: map<MsgKind, Sent>, digest: string -> int, now: real) {
    item.count == 1 && !item.isCommand && item.kind in lastSent &&
    lastSent[item.kind].digest == digest(item.text) &&
    (item.kind.StateChange? || now - lastSent[item.kind].at < DEDUPE_SECONDS)
  }

  function Judge(line: Line, item: Item, digest: string -> int, now: real, reply: Reply): Verdict {
    if IsSuperseded(item, line.lastEnqueued) then Coalesced
    else if IsDuplicate(item, line.lastSent, digest, now) then Duplicate
    else
      match reply
      case Status200 => Delivered
      case OtherStatus => Refused
      case NoReply => Unanswered
  }

  predicate Consistent(line: Line) {
    line.taken <= |line.accepted| && (line.holding ==> line.taken > 0) &&
    |line.verdicts| == line.taken - if line.holding then 1 else 0
  }

  function Next(line: Line, maxsize: int, digest: string -> int, a: Act): (r: Line)
    requires Consistent(line)
    ensures Consistent(r)
  {
    match a
    case Send(parts, kind, isCommand, now) =>
      if parts == [] || !Admit(line, maxsize, |parts|, isCommand).Queued? then line
      else line.(accepted := line.accepted + Entries(a, line.nextBatch),
                 lastEnqueued := line.lastEnqueued[kind := now], nextBatch := line.nextBatch + 1)
    case Take =>
      if line.holding || line.taken == |line.accepted| then line
      else line.(taken := line.taken + 1, holding := true)
    case Settle(now, reply) =>
      if !line.holding then line
      else
        var item := line.accepted[line.taken - 1];
        var verdict := Judge(line, item, digest, now, reply);
        line.(holding := false, verdicts := line.verdicts + [verdict],
              lastSent := if verdict.Answered() then line.lastSent[item.kind := Sent(digest(item.text), now)]
                          else line.lastSent)
  }

  function After(maxsize: int, digest: string -> int, acts: seq<Act>): (r: Line)
    ensures Consistent(r)
  {
    if acts == [] then EMPTY else Next(After(maxsize, digest, acts[..|acts| - 1]), maxsize, digest, acts[|acts| - 1])
  }

  // ---------- what every interleaving keeps ----------

  /** The queue never holds more entries than its bound. */
  lemma {:induction false} QueueIsBounded(maxsize: int, digest: string -> int, acts: seq<Act>)
    requires maxsize > 0
    ensures var line := After(maxsize, digest, acts); |line.accepted| - line.taken <= maxsize
  {
    if acts != [] {
      QueueIsBounded(maxsize, digest, acts[..|acts| - 1]);
    }
  }

  /** A message that fits is queued as a whole, part by part behind what is there. One that does not fit leaves
      the queue alone: a reply to a command is then sent directly, anything else is dropped. */
  lemma SendExactly(maxsize: int, digest: string -> int, acts: seq<Act>, a: Act)
    requires a.Send? && a.parts != []
    ensures
      var line, after := After(maxsize, digest, acts), After(maxsize, digest, acts + [a]);
      var admission := Admit(line, maxsize, |a.parts|, a.isCommand);
      var fits := maxsize <= 0 || |line.accepted| - line.taken <= maxsize - |a.parts|;
      (admission.Queued? <==> fits) && (admission.SentDirectly? <==> !fits && a.isCommand) &&
      (admission.Dropped? <==> !fits && !a.isCommand) && (!fits ==> after == line) &&
      (fits ==>
         line.accepted <= after.accepted && |after.accepted| == |line.accepted| + |a.parts| &&
         (forall i :: 0 <= i < |a.parts| ==>
            after.accepted[|line.accepted| + i] ==
              Item(a.now, a.parts[i], a.kind, a.isCommand, line.nextBatch, i + 1, |a.parts|)) &&
         after.taken == line.taken && after.holding == line.holding && after.verdicts == line.verdicts)
  {
    hide Next, Admit;
    assert (acts + [a])[..|acts|] == acts;
    SendStep(After(maxsize, digest, acts), maxsize, digest, a);
  }

  lemma SendStep(line: Line, maxsize: int, digest: string -> int, a: Act)
    requires Consistent(line) && a.Send? && a.parts != []
    ensures
      var after := Next(line, maxsize, digest, a);
      var admission := Admit(line, maxsize, |a.parts|, a.isCommand);
      var fits := maxsize <= 0 || |line.accepted| - line.taken <= maxsize - |a.parts|;
      (admission.Queued? <==> fits) && (admission.SentDirectly? <==> !fits && a.isCommand) &&
      (admission.Dropped? <==> !fits && !a.isCommand) && (!fits ==> after == line) &&
      (fits ==>
         after.accepted == line.accepted + Entries(a, line.nextBatch) && after.taken == line.taken &&
         after.holding == line.holding && after.verdicts == line.verdicts)
  {
    hide Entries;
  }

  /** Entry i lies inside its whole message: all parts of it were accepted, next to each other and in
      order. */
  ghost predicate InWholeMessage(accepted: seq<Item>, i: nat)
    requires i < |accepted|
  {
    var item := accepted[i];
    1 <= item.part <= item.count && item.part - 1 <= i && i - (item.part - 1) + item.count <= |accepted| &&
    var first := i - (item.part - 1);
    forall q :: first <= q < first + item.count ==>
      accepted[q].batch == item.batch && accepted[q].part == q - first + 1 && accepted[q].count == item.count &&
      accepted[q].at == item.at && accepted[q].kind == item.kind && accepted[q].isCommand == item.isCommand
  }

  ghost predicate BatchesBelow(accepted: seq<Item>, bound: nat) {
    forall i :: 0 <= i < |accepted| ==> accepted[i].batch < bound
  }

  /** Entries with the same batch number are parts of the same message. */
  ghost predicate OneMessagePerBatch(accepted: seq<Item>) {
    forall i, j :: 0 <= i < |accepted| && 0 <= j < |accepted| && accepted[i].batch == accepted[j].batch ==>
      i - accepted[i].part == j - accepted[j].part
  }

  lemma AppendKeepsBatches(accepted: seq<Item>, a: Act, batch: nat)
    requires a.Send? && BatchesBelow(accepted, batch) && OneMessagePerBatch(accepted)
    ensures BatchesBelow(accepted + Entries(a, batch), batch + 1)
    ensures OneMessagePerBatch(accepted + Entries(a, batch))
  {
    var all := accepted + Entries(a, batch);
    forall i | 0 <= i < |all|
      ensures if i < |accepted| then all[i] == accepted[i]
              else all[i].batch == batch && i - all[i].part == |accepted| - 1
    {
    }
  }

  lemma AppendKeepsWhole(accepted: seq<Item>, more: seq<Item>, i: nat)
    requires i < |accepted| && InWholeMessage(accepted, i)
    ensures InWholeMessage(accepted + more, i)
  {
  }

  lemma AppendedIsWhole(accepted: seq<Item>, a: Act, batch: nat, i: nat)
    requires a.Send? && |accepted| <= i < |accepted| + |a.parts|
    ensures InWholeMessage(accepted + Entries(a, batch), i)
  {
    var all := accepted + Entries(a, batch);
    assert all[i] == Entries(a, batch)[i - |accepted|];
    forall q | |accepted| <= q < |all| ensures all[q] == Entries(a, batch)[q - |accepted|] {
    }
  }

  /** Every accepted message is whole and in order, and no two messages share a batch number. */
  lemma {:induction false} MessagesStayWhole(maxsize: int, digest: string -> int, acts: seq<Act>)
    ensures
      var line := After(maxsize, digest, acts);
      BatchesBelow(line.accepted, line.nextBatch) && OneMessagePerBatch(line.accepted) &&
      forall i :: 0 <= i < |line.accepted| ==> InWholeMessage(line.accepted, i)
  {
    if acts != [] {
      var n := |acts| - 1;
      var before := After(maxsize, digest, acts[..n]);
      var after := After(maxsize, digest, acts);
      MessagesStayWhole(maxsize, digest, acts[..n]);
      hide InWholeMessage, OneMessagePerBatch, BatchesBelow;
      if after.accepted != before.accepted {
        AppendKeepsBatches(before.accepted, acts[n], before.nextBatch);
        forall i | 0 <= i < |after.accepted| ensures InWholeMessage(after.accepted, i) {
          if i < |before.accepted| {
            AppendKeepsWhole(before.accepted, Entries(acts[n], before.nextBatch), i);
          } else {
            AppendedIsWhole(before.accepted, acts[n], before.nextBatch, i);
          }
        }
      }
    }
  }

  /** No later entry of the same kind has been accepted. */
  ghost predicate NewestOfKind(accepted: seq<Item>, i: nat)
    requires i < |accepted|
  {
    forall j :: i < j < |accepted| ==> accepted[j].kind != accepted[i].kind
  }

  /** `lastEnqueued` holds, for each kind, the time of its newest accepted entry. */
  ghost predicate KnowsNewest(line: Line) {
    (forall i :: 0 <= i < |line.accepted| ==> line.accepted[i].kind in line.lastEnqueued) &&
    forall i :: 0 <= i < |line.accepted| && NewestOfKind(line.accepted, i) ==>
      line.lastEnqueued[line.accepted[i].kind] == line.accepted[i].at
  }

  lemma NewestInPrefix(accepted: seq<Item>, more: seq<Item>, i: nat)
    requires i < |accepted| && NewestOfKind(accepted + more, i)
    ensures NewestOfKind(accepted, i) && forall j :: 0 <= j < |more| ==> more[j].kind != accepted[i].kind
  {
    forall j | 0 <= j < |more| ensures more[j].kind != accepted[i].kind {
      assert (accepted + more)[|accepted| + j] == more[j];
    }
    forall j | i < j < |accepted| ensures accepted[j].kind != accepted[i].kind {
      assert (accepted + more)[j] == accepted[j];
    }
  }

  lemma SendKeepsNewest(line: Line, maxsize: int, digest: string -> int, a: Act)
    requires Consistent(line) && a.Send? && KnowsNewest(line)
    ensures KnowsNewest(Next(line, maxsize, digest, a))
  {
    var after := Next(line, maxsize, digest, a);
    if after.accepted != line.accepted {
      var more := Entries(a, line.nextBatch);
      forall i | 0 <= i < |after.accepted| && NewestOfKind(after.accepted, i)
        ensures after.lastEnqueued[after.accepted[i].kind] == after.accepted[i].at
      {
        if i < |line.accepted| {
          NewestInPrefix(line.accepted, more, i);
          assert more[0].kind == a.kind;
        }
      }
    }
  }

  lemma {:induction false} NewestIsKnown(maxsize: int, digest: string -> int, acts: seq<Act>)
    ensures KnowsNewest(After(maxsize, digest, acts))
  {
    if acts != [] {
      var n := |acts| - 1;
      NewestIsKnown(maxsize, digest, acts[..n]);
      if acts[n].Send? {
        SendKeepsNewest(After(maxsize, digest, acts[..n]), maxsize, digest, acts[n]);
      }
    }
  }

  lemma {:induction false} SomeNewest(accepted: seq<Item>, i: nat) returns (j: nat)
    requires i < |accepted|
    ensures i <= j < |accepted| && accepted[j].kind == accepted[i].kind && NewestOfKind(accepted, j)
    decreases |accepted| - i
  {
    if NewestOfKind(accepted, i) {
      j := i;
    } else {
      var k :| i < k < |accepted| && accepted[k].kind == accepted[i].kind;
      j := SomeNewest(accepted, k);
    }
  }

  /** An entry is coalesced away only for a strictly newer one of its kind that still waits behind it, at
      most one window younger; so the newest entry of a kind is never coalesced away. Parts of longer
      messages and replies to commands are never skipped at all. The clock may do as it likes. */
  lemma SkippedForANewerOne(maxsize: int, digest: string -> int, acts: seq<Act>, now: real, reply: Reply)
    requires After(maxsize, digest, acts).holding
    ensures
      var line := After(maxsize, digest, acts);
      var item := line.accepted[line.taken - 1];
      var verdict := Judge(line, item, digest, now, reply);
      (verdict.Coalesced? ==>
         Window(item.kind).Some? &&
         exists j :: line.taken <= j < |line.accepted| && line.accepted[j].kind == item.kind &&
           item.at < line.accepted[j].at <= item.at + Window(item.kind).value) &&
      (NewestOfKind(line.accepted, line.taken - 1) ==> !verdict.Coalesced?) &&
      (item.count > 1 || item.isCommand ==> verdict.Answered() || verdict.Unanswered?)
  {
    var line := After(maxsize, digest, acts);
    var i := line.taken - 1;
    NewestIsKnown(maxsize, digest, acts);
    var j := SomeNewest(line.accepted, i);
  }

  /** The newer entry makes the older one pointless: it is of the same kind and strictly younger, by at most 5 s
      for a status or a start-up notice and 35 s for a state change. */
  predicate Supersedes(newer: Item, older: Item) {
    newer.kind == older.kind && older.at < newer.at &&
    match older.kind
    case Status => newer.at - older.at <= 5.0
    case Startup => newer.at - older.at <= 5.0
    case StateChange => newer.at - older.at <= 35.0
    case OtherKind(_) => false
  }

  /** An entry is coalesced away exactly when it is a whole message, no reply to a command, and the newest
      waiting entry of its kind supersedes it. */
  lemma {:induction false} CoalescedExactly(maxsize: int, digest: string -> int, acts: seq<Act>, now: real,
                                            reply: Reply)
    requires After(maxsize, digest, acts).holding
    ensures
      var line := After(maxsize, digest, acts);
      var item := line.accepted[line.taken - 1];
      Judge(line, item, digest, now, reply).Coalesced? <==>
        item.count == 1 && !item.isCommand &&
        exists j :: line.taken <= j < |line.accepted| && NewestOfKind(line.accepted, j) &&
          Supersedes(line.accepted[j], item)
  {
    hide After;
    var line := After(maxsize, digest, acts);
    NewestIsKnown(maxsize, digest, acts);
    var newest := SomeNewest(line.accepted, line.taken - 1);
  }

  // ---------- duplicates ----------

  /** Entry i is the last one of its kind whose post was answered, with whatever status. */
  ghost predicate LastAnswered(line: Line, kind: MsgKind, i: nat)
    requires Consistent(line)
  {
    i < |line.verdicts| && line.verdicts[i].Answered() && line.accepted[i].kind == kind &&
    forall j :: i < j < |line.verdicts| && line.verdicts[j].Answered() ==> line.accepted[j].kind != kind
  }

  /** The digest on record is that of the last answered post of the kind. */
  ghost predicate OnRecord(line: Line, digest: string -> int, kind: MsgKind, i: nat)
    requires Consistent(line)
  {
    LastAnswered(line, kind, i) && kind in line.lastSent &&
    line.lastSent[kind].digest == digest(line.accepted[i].text)
  }

  /** Nothing of the kind was answered, and nothing is on record. */
  ghost predicate NothingOnRecord(line: Line, kind: MsgKind)
    requires Consistent(line)
  {
    kind !in line.lastSent &&
    forall j :: 0 <= j < |line.verdicts| && line.verdicts[j].Answered() ==> line.accepted[j].kind != kind
  }

  predicate AnswersKind(line: Line, digest: string -> int, a: Act, kind: MsgKind)
    requires Consistent(line)
  {
    a.Settle? && line.holding && line.accepted[line.taken - 1].kind == kind &&
    Judge(line, line.accepted[line.taken - 1], digest, a.now, a.reply).Answered()
  }

  lemma NowOnRecord(line: Line, maxsize: int, digest: string -> int, a: Act, kind: MsgKind)
    requires Consistent(line) && AnswersKind(line, digest, a, kind)
    ensures OnRecord(Next(line, maxsize, digest, a), digest, kind, |line.verdicts|)
  {
    hide Judge;
  }

  lemma StaysOnRecord(line: Line, maxsize: int, digest: string -> int, a: Act, kind: MsgKind, i: nat)
    requires Consistent(line) && !AnswersKind(line, digest, a, kind)
    ensures OnRecord(line, digest, kind, i) ==> OnRecord(Next(line, maxsize, digest, a), digest, kind, i)
    ensures NothingOnRecord(line, kind) ==> NothingOnRecord(Next(line, maxsize, digest, a), kind)
  {
    hide Judge;
  }

  lemma {:induction false} RecordIsLastAnswered(maxsize: int, digest: string -> int, acts: seq<Act>, kind: MsgKind)
    returns (i: nat)
    ensures
      var line := After(maxsize, digest, acts);
      OnRecord(line, digest, kind, i) || NothingOnRecord(line, kind)
  {
    i := 0;
    if acts != [] {
      var n := |acts| - 1;
      var before := After(maxsize, digest, acts[..n]);
      i := RecordIsLastAnswered(maxsize, digest, acts[..n], kind);
      if AnswersKind(before, digest, acts[n], kind) {
        NowOnRecord(before, maxsize, digest, acts[n], kind);
        i := |before.verdicts|;
      } else {
        StaysOnRecord(before, maxsize, digest, acts[n], kind, i);
      }
      hide OnRecord, NothingOnRecord, Next, AnswersKind;
    }
  }

  /** The times at which the entries were judged, in order. */
  function JudgedAt(maxsize: int, digest: string -> int, acts: seq<Act>): seq<real> {
    if acts == [] then []
    else
      var n := |acts| - 1;
      JudgedAt(maxsize, digest, acts[..n]) +
      if acts[n].Settle? && After(maxsize, digest, acts[..n]).holding then [acts[n].now] else []
  }

  lemma {:induction false} RecordKnowsTime(maxsize: int, digest: string -> int, acts: seq<Act>, kind: MsgKind, i: nat)
    ensures
      var line, times := After(maxsize, digest, acts), JudgedAt(maxsize, digest, acts);
      |times| == |line.verdicts| && (OnRecord(line, digest, kind, i) ==> line.lastSent[kind].at == times[i])
  {
    hide OnRecord, Judge;
    if acts == [] {
      NothingIsOnRecord(digest, kind, i);
    } else {
      var n := |acts| - 1;
      var line := After(maxsize, digest, acts[..n]);
      RecordKnowsTime(maxsize, digest, acts[..n], kind, i);
      if OnRecord(After(maxsize, digest, acts), digest, kind, i) {
        RecordAfter(line, maxsize, digest, acts[n], kind, i);
      }
    }
  }

  lemma NothingIsOnRecord(digest: string -> int, kind: MsgKind, i: nat)
    ensures !OnRecord(EMPTY, digest, kind, i)
  {
  }

  lemma RecordAfter(line: Line, maxsize: int, digest: string -> int, a: Act, kind: MsgKind, i: nat)
    requires Consistent(line) && OnRecord(Next(line, maxsize, digest, a), digest, kind, i)
    ensures
      var after := Next(line, maxsize, digest, a);
      if AnswersKind(line, digest, a, kind) then i == |line.verdicts| && after.lastSent[kind].at == a.now
      else i < |line.verdicts| && OnRecord(line, digest, kind, i) && after.lastSent[kind] == line.lastSent[kind]
  {
    hide Judge;
  }

  /** An entry is dropped as a duplicate exactly when it is a whole message, not coalesced away, no reply to a
      command, and has the digest of the last answered post of its kind, answered less than a minute ago unless
      it is a state change. What the status of that answer was does not matter. */
  lemma {:induction false} DuplicateExactly(maxsize: int, digest: string -> int, acts: seq<Act>, now: real,
                                            reply: Reply)
    requires After(maxsize, digest, acts).holding
    ensures
      var line, times := After(maxsize, digest, acts), JudgedAt(maxsize, digest, acts);
      var item := line.accepted[line.taken - 1];
      var verdict := Judge(line, item, digest, now, reply);
      |times| == |line.verdicts| &&
      (verdict.Duplicate? <==>
         item.count == 1 && !item.isCommand && !verdict.Coalesced? &&
         exists i: nat ::
           LastAnswered(line, item.kind, i) && digest(line.accepted[i].text) == digest(item.text) &&
           (item.kind.StateChange? || now - times[i] < 60.0))
  {
    var line := After(maxsize, digest, acts);
    var item := line.accepted[line.taken - 1];
    var i := RecordIsLastAnswered(maxsize, digest, acts, item.kind);
    RecordKnowsTime(maxsize, digest, acts, item.kind, i);
    hide After, IsSuperseded, JudgedAt;
  }

  /** The replies to the entries that were judged, in order; a reply to an entry that was not posted is
      never looked at. */
  function Replies(maxsize: int, digest: string -> int, acts: seq<Act>): seq<Reply> {
    if acts == [] then []
    else
      var n := |acts| - 1;
      Replies(maxsize, digest, acts[..n]) +
      if acts[n].Settle? && After(maxsize, digest, acts[..n]).holding then [acts[n].reply] else []
  }

  lemma {:induction false} VerdictsFollowReplies(maxsize: int, digest: string -> int, acts: seq<Act>)
    ensures
      var line, replies := After(maxsize, digest, acts), Replies(maxsize, digest, acts);
      |replies| == |line.verdicts| &&
      forall i :: 0 <= i < |replies| && !line.verdicts[i].Coalesced? && !line.verdicts[i].Duplicate? ==>
        (line.verdicts[i].Delivered? <==> replies[i].Status200?) &&
        (line.verdicts[i].Refused? <==> replies[i].OtherStatus?) &&
        (line.verdicts[i].Unanswered? <==> replies[i].NoReply?)
  {
    if acts != [] {
      VerdictsFollowReplies(maxsize, digest, acts[..|acts| - 1]);
      hide IsSuperseded, IsDuplicate;
    }
  }

  /** Every dropped duplicate repeats the last answered post of its kind, and that post reached the
      operator exactly when its answer was 200. */
  lemma {:induction false} DuplicateWasDeliveredIff(maxsize: int, digest: string -> int, acts: seq<Act>, now: real,
                                                    reply: Reply)
    returns (i: nat)
    requires
      var line := After(maxsize, digest, acts);
      line.holding && Judge(line, line.accepted[line.taken - 1], digest, now, reply).Duplicate?
    ensures
      var line := After(maxsize, digest, acts);
      var item := line.accepted[line.taken - 1];
      LastAnswered(line, item.kind, i) && digest(line.accepted[i].text) == digest(item.text) &&
      i < |Replies(maxsize, digest, acts)| &&
      (line.verdicts[i].Delivered? <==> Replies(maxsize, digest, acts)[i].Status200?)
  {
    hide IsSuperseded;
    var line := After(maxsize, digest, acts);
    i := RecordIsLastAnswered(maxsize, digest, acts, line.accepted[line.taken - 1].kind);
    VerdictsFollowReplies(maxsize, digest, acts);
    hide After, Replies;
  }

  /** The operator has received a message of the same kind with the same digest. */
  ghost predicate OperatorHasSeen(line: Line, digest: string -> int, item: Item)
    requires Consistent(line)
  {
    exists i :: 0 <= i < |line.verdicts| && line.verdicts[i].Delivered? && line.accepted[i].kind == item.kind &&
      digest(line.accepted[i].text) == digest(item.text)
  }

  /** After these acts the entry in the sender's hand would be dropped as a duplicate. */
  ghost predicate Drops(maxsize: int, digest: string -> int, acts: seq<Act>, now: real, reply: Reply) {
    var line := After(maxsize, digest, acts);
    line.holding && Judge(line, line.accepted[line.taken - 1], digest, now, reply).Duplicate?
  }

  ghost predicate NeverRefuses(acts: seq<Act>) {
    forall i :: 0 <= i < |acts| && acts[i].Settle? ==> !acts[i].reply.OtherStatus?
  }

  /** In all runs, or in those in which the service never answers with an error status, duplicates are
      dropped only of what the operator has seen. */
  ghost predicate DropsOnlyWhatWasSeen(maxsize: int, digest: string -> int, mayRefuse: bool) {
    forall acts, now, reply :: Drops(maxsize, digest, acts, now, reply) && (mayRefuse || NeverRefuses(acts)) ==>
      var line := After(maxsize, digest, acts);
      OperatorHasSeen(line, digest, line.accepted[line.taken - 1])
  }

  lemma {:induction false} NothingWasRefused(maxsize: int, digest: string -> int, acts: seq<Act>)
    requires NeverRefuses(acts)
    ensures forall v :: v in After(maxsize, digest, acts).verdicts ==> !v.Refused?
  {
    if acts != [] {
      NothingWasRefused(maxsize, digest, acts[..|acts| - 1]);
      hide IsSuperseded, IsDuplicate;
    }
  }

  /** A state change, its post, and the same state change again. */
  function SameChangeTwice(text: string): seq<Act> {
    [Send([text], StateChange, false, 1.0), Take, Settle(2.0, OtherStatus), Send([text], StateChange, false, 100.0),
     Take]
  }

  /** A state change that the service refuses, with status 429 for one, is never sent again: the next time
      it is dropped as a duplicate although nothing was ever delivered. */
  lemma {:induction false} RefusedIsDropped(maxsize: int, digest: string -> int, text: string, now: real, reply: Reply)
    ensures
      var line := After(maxsize, digest, SameChangeTwice(text));
      Drops(maxsize, digest, SameChangeTwice(text), now, reply) && line.verdicts == [Refused] &&
      !OperatorHasSeen(line, digest, line.accepted[line.taken - 1])
  {
    hide After, Next;
    RefusedOnce(maxsize, digest, text);
    RefusedThenAgain(maxsize, digest, text);
  }

  function ChangeItem(text: string, at: real, batch: nat): Item {
    Item(at, text, StateChange, false, batch, 1, 1)
  }

  function AfterRefusal(digest: string -> int, text: string): Line {
    Line([ChangeItem(text, 1.0, 0)], 1, false, [Refused], map[StateChange := 1.0],
         map[StateChange := Sent(digest(text), 2.0)], 1)
  }

  lemma RefusedOnce(maxsize: int, digest: string -> int, text: string)
    ensures After(maxsize, digest, SameChangeTwice(text)[..3]) == AfterRefusal(digest, text)
  {
    var acts := SameChangeTwice(text);
    hide After;
    assert Entries(acts[0], 0) == [ChangeItem(text, 1.0, 0)];
    AfterOneMore(maxsize, digest, acts, 0);
    AfterOneMore(maxsize, digest, acts, 1);
    AfterOneMore(maxsize, digest, acts, 2);
  }

  lemma RefusedThenAgain(maxsize: int, digest: string -> int, text: string)
    requires After(maxsize, digest, SameChangeTwice(text)[..3]) == AfterRefusal(digest, text)
    ensures After(maxsize, digest, SameChangeTwice(text)) ==
      AfterRefusal(digest, text).(accepted := [ChangeItem(text, 1.0, 0), ChangeItem(text, 100.0, 1)], taken := 2,
        holding := true, lastEnqueued := map[StateChange := 1.0][StateChange := 100.0], nextBatch := 2)
  {
    var acts := SameChangeTwice(text);
    hide After;
    assert Entries(acts[3], 1) == [ChangeItem(text, 100.0, 1)];
    AfterOneMore(maxsize, digest, acts, 3);
    AfterOneMore(maxsize, digest, acts, 4);
    assert acts[..5] == acts;
  }

  lemma AfterOneMore(maxsize: int, digest: string -> int, acts: seq<Act>, n: nat)
    requires n < |acts|
    ensures n == 0 ==> After(maxsize, digest, acts[..0]) == EMPTY
    ensures After(maxsize, digest, acts[..n + 1]) == Next(After(maxsize, digest, acts[..n]), maxsize, digest, acts[n])
  {
    assert acts[..n + 1][..n] == acts[..n];
  }

  /** So duplicate suppression is safe exactly when the service never answers with an error status. */
  lemma {:induction false} DropsOnlyWhatWasSeenIff(maxsize: int, digest: string -> int, mayRefuse: bool)
    ensures DropsOnlyWhatWasSeen(maxsize, digest, mayRefuse) <==> !mayRefuse
  {
    hide After, Judge, NeverRefuses, IsSuperseded;
    if mayRefuse {
      RefusedIsDropped(maxsize, digest, "", 0.0, Status200);
    } else {
      forall acts, now, reply | Drops(maxsize, digest, acts, now, reply) && NeverRefuses(acts)
        ensures var line := After(maxsize, digest, acts);
                OperatorHasSeen(line, digest, line.accepted[line.taken - 1])
      {
        var i := DuplicateWasDeliveredIff(maxsize, digest, acts, now, reply);
        NothingWasRefused(maxsize, digest, acts);
        assert After(maxsize, digest, acts).verdicts[i] in After(maxsize, digest, acts).verdicts;
      }
    }
  }

  // ---------- the shared objects ----------

  class Outbox {
    const maxsize: int
    const digest: string -> int
    var items: seq<Item>
    var inHand: Option<Item>
    var lastEnqueued: map<MsgKind, real>
    var lastSent: map<MsgKind, Sent>
    var nextBatch: nat
    ghost var accepted: seq<Item>
    ghost var verdicts: seq<Verdict>

    ghost predicate Valid()
      reads this
    {
      |items| <= |accepted| && items == accepted[|accepted| - |items|..] &&
      (inHand.Some? ==> |items| < |accepted| && accepted[|accepted| - |items| - 1] == inHand.value) &&
      |verdicts| == |accepted| - |items| - if inHand.Some? then 1 else 0
    }

    ghost function View(): (line: Line)
      requires Valid()
      reads this
      ensures Consistent(line)
    {
      Line(accepted, |accepted| - |items|, inHand.Some?, verdicts, lastEnqueued, lastSent, nextBatch)
    }

    constructor (maxsize: int, digest: string -> int)
      ensures Valid() && View() == EMPTY && this.maxsize == maxsize && this.digest == digest
    {
      this.maxsize, this.digest := maxsize, digest;
      items, inHand, lastEnqueued, lastSent, nextBatch := [], None, map[], map[], 0;
      accepted, verdicts := [], [];
    }

    /** `send_telegram` after the text was split. */
    method Enqueue(parts: seq<string>, kind: MsgKind, isCommand: bool, now: real) returns (admission: Admission)
      requires Valid() && parts != []
      modifies this
      ensures Valid()
      ensures View() == Next(old(View()), maxsize, digest, Send(parts, kind, isCommand, now))
      ensures admission == Admit(old(View()), maxsize, |parts|, isCommand)
      ensures admission.Queued? <==> maxsize <= 0 || |old(items)| + |parts| <= maxsize
      ensures !admission.Queued? ==> (admission.SentDirectly? <==> isCommand) && View() == old(View())
    {
      var hasCapacity := maxsize <= 0 || |items| + |parts| <= maxsize;
      if !hasCapacity {
        return if isCommand then SentDirectly else Dropped;
      }
      PutAll(parts, kind, isCommand, now);
      lastEnqueued := lastEnqueued[kind := now];
      nextBatch := nextBatch + 1;
      return Queued;
    }

    /** The loop that puts the parts. */
    method PutAll(parts: seq<string>, kind: MsgKind, isCommand: bool, now: real)
      requires Valid()
      modifies this`items, this`accepted
      ensures Valid()
      ensures var entries := Entries(Send(parts, kind, isCommand, now), nextBatch);
              items == old(items) + entries && accepted == old(accepted) + entries
    {
      ghost var entries := Entries(Send(parts, kind, isCommand, now), nextBatch);
      var i := 0;
      while i < |parts|
        invariant 0 <= i <= |parts|
        invariant items == old(items) + entries[..i] && accepted == old(accepted) + entries[..i]
      {
        var item := Item(now, parts[i], kind, isCommand, nextBatch, i + 1, |parts|);
        assert entries[..i + 1] == entries[..i] + [item];
        items := items + [item];
        accepted := accepted + [item];
        i := i + 1;
      }
      assert entries[..i] == entries;
    }

    /** The sender's `get`. */
    method TakeNext() returns (took: bool)
      requires Valid()
      modifies this
      ensures Valid() && View() == Next(old(View()), maxsize, digest, Take)
      ensures took <==> old(inHand).None? && old(items) != []
      ensures took ==> inHand == Some(old(items)[0]) && items == old(items)[1..]
    {
      if inHand.Some? || items == [] {
        return false;
      }
      inHand := Some(items[0]);
      items := items[1..];
      return true;
    }

    /** The sender's decision about the entry in hand. */
    method JudgeHeld(now: real, reply: Reply) returns (verdict: Verdict)
      requires Valid() && inHand.Some?
      ensures verdict == Judge(View(), inHand.value, digest, now, reply)
    {
      var item := inHand.value;
      var window := Window(item.kind);
      var last := if item.kind in lastEnqueued then lastEnqueued[item.kind] else 0.0;
      if item.count == 1 && !item.isCommand && window.Some? && item.at < last && last - item.at <= window.value {
        return Coalesced;
      }
      if item.count == 1 && !item.isCommand && item.kind in lastSent &&
         lastSent[item.kind].digest == digest(item.text) &&
         (item.kind.StateChange? || now - lastSent[item.kind].at < DEDUPE_SECONDS) {
        return Duplicate;
      }
      match reply
      case Status200 => return Delivered;
      case OtherStatus => return Refused;
      case NoReply => return Unanswered;
    }

    method SettleHeld(now: real, reply: Reply) returns (verdict: Verdict)
      requires Valid() && inHand.Some?
      modifies this
      ensures Valid() && View() == Next(old(View()), maxsize, digest, Settle(now, reply))
      ensures verdict == Judge(old(View()), old(inHand).value, digest, now, reply)
    {
      hide Judge;
      verdict := JudgeHeld(now, reply);
      var item := inHand.value;
      if verdict.Answered() {
        lastSent := lastSent[item.kind := Sent(digest(item.text), now)];
      }
      inHand := None;
      verdicts := verdicts + [verdict];
    }
  }
}
