/** The two-step protocol for manual reboots: request or preview, then confirm with a code
    (`telegram_polling_worker` in app/miner_monitor.py). */
module Confirmation {
  import opened Common
  import opened RebootSafety

  datatype ManualKind = RebootKind | RestartKind

  /** A single action waiting for its code. */
  datatype Pending = Pending(code: string, expires: real, kind: ManualKind)

  /** A bulk reboot waiting for its code; targets are display names. */
  datatype BulkPending = BulkPending(code: string, expires: real, targets: seq<string>)

  const TTL := 60.0
  const MANUAL_COOLDOWN := 600.0
  const BULK_CAP := 5

  /** `lastManual` has one entry for every miner that has a state object; `low` are those confirmed LOW. */
  datatype Desk = Desk(
    pending: map<Key, Pending>,
    bulk: map<string, BulkPending>,
    lastManual: map<Key, Option<real>>,
    low: set<Key>)

  /** Commands, with the clock, the drawn code and the CLI's answers as inputs. */
  datatype Command =
    | Request(key: Key, kind: ManualKind, now: real, code: string)
    | ConfirmSingle(key: Key, kind: ManualKind, now: real, code: string, cliOk: bool)
    | Preview(chat: string, now: real, code: string)
    | ConfirmBulk(chat: string, now: real, code: string, cliAnswers: Key -> bool)
    | MonitorTick(now: real, added: set<Key>, low: set<Key>)

  // ---------- names ----------

  function IndexOfLastDash(s: string): int
    ensures -1 <= IndexOfLastDash(s) < |s|
  {
    if s == "" then -1
    else if s[|s| - 1] == '-' then |s| - 1
    else IndexOfLastDash(s[..|s| - 1])
  }

  /** The part of a miner's name after its last dash. */
  function DisplayName(name: string): string {
    name[IndexOfLastDash(name) + 1..]
  }

  /** The lower-casing and stripping of the runtime, which follow Unicode. Nothing here depends on how. */
  datatype NameRules = NameRules(lower: string -> string, strip: string -> string)

  predicate Answers(rules: NameRules, k: Key, token: string) {
    var needle := rules.lower(rules.strip(token));
    needle == rules.lower(k.name) || needle == rules.lower(DisplayName(k.name))
  }

  /** The first configured miner whose name or display name is the token. */
  function Resolve(rules: NameRules, token: string, miners: seq<Key>): Option<Key> {
    if miners == [] then None
    else if Answers(rules, miners[0], token) then Some(miners[0])
    else Resolve(rules, token, miners[1..])
  }

  // ---------- the protocol on values ----------

  predicate CoolingDown(desk: Desk, k: Key, now: real) {
    k in desk.lastManual && desk.lastManual[k].Some? &&
    var last := desk.lastManual[k].value;
    last != 0.0 && now - last < MANUAL_COOLDOWN
  }

  /** The confirmation is current and names the requested action and code. */
  predicate Confirms(desk: Desk, k: Key, kind: ManualKind, code: string, now: real) {
    k in desk.pending &&
    var p := desk.pending[k];
    now <= p.expires && p.code == code && p.kind == kind
  }

  predicate ConfirmsBulk(desk: Desk, chat: string, code: string, now: real) {
    chat in desk.bulk && now <= desk.bulk[chat].expires && desk.bulk[chat].code == code
  }

  function Stamp(last: map<Key, Option<real>>, k: Key, now: real): map<Key, Option<real>> {
    if k in last then last[k := Some(now)] else last
  }

  function LowNames(miners: seq<Key>, low: set<Key>): seq<string> {
    if miners == [] then []
    else (if miners[0] in low then [DisplayName(miners[0].name)] else []) + LowNames(miners[1..], low)
  }

  /** The display names shown in a bulk preview. */
  function Targets(miners: seq<Key>, low: set<Key>): seq<string> {
    var names := LowNames(miners, low);
    if |names| > BULK_CAP then names[..BULK_CAP] else names
  }

  /** The miners a bulk confirmation hands to the CLI, in order. */
  function Rebooted(rules: NameRules, miners: seq<Key>, targets: seq<string>): seq<Key> {
    if targets == [] then []
    else
      (match Resolve(rules, targets[0], miners)
       case Some(k) => [k]
       case None => []) + Rebooted(rules, miners, targets[1..])
  }

  function StampAll(last: map<Key, Option<real>>, done: seq<Key>, now: real, cliAnswers: Key -> bool)
    : map<Key, Option<real>>
  {
    if done == [] then last
    else StampAll(if cliAnswers(done[0]) then Stamp(last, done[0], now) else last, done[1..], now, cliAnswers)
  }

  function Apply(rules: NameRules, miners: seq<Key>, desk: Desk, c: Command): Desk {
    match c
    case Request(k, kind, now, code) =>
      if CoolingDown(desk, k, now) then desk
      else desk.(pending := desk.pending[k := Pending(code, now + TTL, kind)])
    case ConfirmSingle(k, kind, now, code, cliOk) =>
      if Confirms(desk, k, kind, code, now) && cliOk
      then desk.(lastManual := Stamp(desk.lastManual, k, now), pending := desk.pending - {k})
      else desk
    case Preview(chat, now, code) =>
      var targets := Targets(miners, desk.low);
      if targets == [] then desk
      else desk.(bulk := desk.bulk[chat := BulkPending(code, now + TTL, targets)])
    case ConfirmBulk(chat, now, code, cliAnswers) =>
      if ConfirmsBulk(desk, chat, code, now) then
        desk.(bulk := desk.bulk - {chat},
              lastManual := StampAll(desk.lastManual, Rebooted(rules, miners, desk.bulk[chat].targets), now,
                                     cliAnswers))
      else if chat in desk.bulk && desk.bulk[chat].expires < now then desk.(bulk := desk.bulk - {chat})
      else desk
    case MonitorTick(_, added, low) =>
      desk.(lastManual := (map k | k in added :: None) + desk.lastManual, low := low)
  }

  function DeskAt(rules: NameRules, miners: seq<Key>, start: Desk, commands: seq<Command>, n: nat): Desk
    requires n <= |commands|
  {
    if n == 0 then start else Apply(rules, miners, DeskAt(rules, miners, start, commands, n - 1), commands[n - 1])
  }

  // ---------- single actions ----------

  /** Command n hands a single action on miner k to the CLI. */
  ghost predicate RunsSingle(rules: NameRules, miners: seq<Key>, start: Desk, commands: seq<Command>, n: nat, k: Key)
    requires n < |commands|
  {
    var c := commands[n];
    c.ConfirmSingle? && c.key == k && Confirms(DeskAt(rules, miners, start, commands, n), k, c.kind, c.code, c.now)
  }

  /** Command m is the request that pending entry p of miner k stems from, and nothing since then
      replaced it or used it up. */
  ghost predicate StemsFrom(rules: NameRules, miners: seq<Key>, start: Desk, commands: seq<Command>, m: nat, n: nat,
                            k: Key, p: Pending)
    requires n <= |commands|
  {
    m < n && commands[m].Request? && commands[m].key == k &&
    p == Pending(commands[m].code, commands[m].now + TTL, commands[m].kind) &&
    (forall i :: m < i < n && commands[i].Request? && commands[i].key == k ==>
       CoolingDown(DeskAt(rules, miners, start, commands, i), k, commands[i].now)) &&
    forall i :: m < i < n && commands[i].ConfirmSingle? && commands[i].cliOk ==>
      !RunsSingle(rules, miners, start, commands, i, k)
  }

  lemma PendingAfter(rules: NameRules, miners: seq<Key>, desk: Desk, c: Command, k: Key)
    requires k in Apply(rules, miners, desk, c).pending
    ensures
      var p := Apply(rules, miners, desk, c).pending[k];
      if c.Request? && c.key == k && !CoolingDown(desk, k, c.now) then p == Pending(c.code, c.now + TTL, c.kind)
      else k in desk.pending && p == desk.pending[k] &&
           !(c.ConfirmSingle? && c.key == k && c.cliOk && Confirms(desk, k, c.kind, c.code, c.now))
  {
  }

  lemma {:induction false} PendingHasRequest(rules: NameRules, miners: seq<Key>, start: Desk, commands: seq<Command>,
                                             n: nat, k: Key)
    returns (m: nat)
    requires n <= |commands| && start.pending == map[]
    requires k in DeskAt(rules, miners, start, commands, n).pending
    ensures StemsFrom(rules, miners, start, commands, m, n, k, DeskAt(rules, miners, start, commands, n).pending[k])
  {
    var before := DeskAt(rules, miners, start, commands, n - 1);
    var c := commands[n - 1];
    PendingAfter(rules, miners, before, c, k);
    hide Apply, Confirms;
    if c.Request? && c.key == k && !CoolingDown(before, k, c.now) {
      m := n - 1;
    } else {
      m := PendingHasRequest(rules, miners, start, commands, n - 1, k);
    }
  }

  /** Every single action was requested for the same miner, with the same kind and code, at most 60
      seconds earlier, and that request was neither overwritten nor already carried out. */
  lemma SingleActionWasRequested(rules: NameRules, miners: seq<Key>, start: Desk, commands: seq<Command>, n: nat,
                                 k: Key)
    requires start.pending == map[] && n < |commands| && RunsSingle(rules, miners, start, commands, n, k)
    ensures exists m: nat ::
      StemsFrom(rules, miners, start, commands, m, n, k, DeskAt(rules, miners, start, commands, n).pending[k]) &&
      commands[m].kind == commands[n].kind && commands[m].code == commands[n].code &&
      commands[n].now <= commands[m].now + TTL
  {
    var m := PendingHasRequest(rules, miners, start, commands, n, k);
  }

  ghost predicate Monotone(commands: seq<Command>) {
    forall i, j :: 0 <= i < j < |commands| ==> commands[i].now <= commands[j].now
  }

  /** The manual action at time t is on record, and any pending entry was requested a cooldown later. */
  ghost predicate CooledSince(desk: Desk, k: Key, t: real) {
    k in desk.lastManual && desk.lastManual[k].Some? && desk.lastManual[k].value >= t &&
    (k in desk.pending ==> desk.pending[k].expires - TTL >= t + MANUAL_COOLDOWN)
  }

  lemma {:induction false} StampAllKeepsLater(last: map<Key, Option<real>>, done: seq<Key>, now: real,
                                              cliAnswers: Key -> bool, k: Key, t: real)
    requires k in last && last[k].Some? && last[k].value >= t && now >= t
    ensures
      var after := StampAll(last, done, now, cliAnswers);
      k in after && after[k].Some? && after[k].value >= t
  {
    if done != [] {
      StampAllKeepsLater(if cliAnswers(done[0]) then Stamp(last, done[0], now) else last, done[1..], now,
                         cliAnswers, k, t);
    }
  }

  lemma StaysCooled(rules: NameRules, miners: seq<Key>, desk: Desk, c: Command, k: Key, t: real)
    requires CooledSince(desk, k, t) && 0.0 < t <= c.now
    ensures CooledSince(Apply(rules, miners, desk, c), k, t)
  {
    if c.ConfirmBulk? && ConfirmsBulk(desk, c.chat, c.code, c.now) {
      StampAllKeepsLater(desk.lastManual, Rebooted(rules, miners, desk.bulk[c.chat].targets), c.now, c.cliAnswers, k,
                         t);
    }
  }

  lemma {:induction false} CooledAfterSuccess(rules: NameRules, miners: seq<Key>, start: Desk, commands: seq<Command>,
                                              i: nat, n: nat, k: Key)
    requires i < n <= |commands| && Monotone(commands)
    requires RunsSingle(rules, miners, start, commands, i, k) && commands[i].cliOk && commands[i].now > 0.0
    requires k in DeskAt(rules, miners, start, commands, i).lastManual
    ensures CooledSince(DeskAt(rules, miners, start, commands, n), k, commands[i].now)
  {
    if n == i + 1 {
      assert DeskAt(rules, miners, start, commands, n) ==
        Apply(rules, miners, DeskAt(rules, miners, start, commands, i), commands[i]);
    } else {
      CooledAfterSuccess(rules, miners, start, commands, i, n - 1, k);
      StaysCooled(rules, miners, DeskAt(rules, miners, start, commands, n - 1), commands[n - 1], k, commands[i].now);
    }
  }

  /** With a clock that never steps back, a single action that went through is followed by the next one
      on the same miner no sooner than 600 seconds later, bulk reboots in between or not. */
  lemma SingleActionsAreSpaced(rules: NameRules, miners: seq<Key>, start: Desk, commands: seq<Command>, i: nat,
                               j: nat, k: Key)
    requires i < j < |commands| && Monotone(commands)
    requires RunsSingle(rules, miners, start, commands, i, k) && commands[i].cliOk && commands[i].now > 0.0
    requires k in DeskAt(rules, miners, start, commands, i).lastManual
    requires start.pending == map[] && RunsSingle(rules, miners, start, commands, j, k)
    ensures commands[j].now >= commands[i].now + MANUAL_COOLDOWN
  {
    CooledAfterSuccess(rules, miners, start, commands, i, j, k);
    var m := PendingHasRequest(rules, miners, start, commands, j, k);
    assert commands[m].now + TTL - TTL >= commands[i].now + MANUAL_COOLDOWN;
  }

  // ---------- bulk reboots ----------

  ghost predicate RunsBulk(rules: NameRules, miners: seq<Key>, start: Desk, commands: seq<Command>, n: nat,
                           chat: string)
    requires n < |commands|
  {
    var c := commands[n];
    c.ConfirmBulk? && c.chat == chat && ConfirmsBulk(DeskAt(rules, miners, start, commands, n), chat, c.code, c.now)
  }

  /** Command m is the preview that the chat's pending bulk reboot stems from; no preview replaced it
      and no confirmation ran it since. */
  ghost predicate PreviewedAt(rules: NameRules, miners: seq<Key>, start: Desk, commands: seq<Command>, m: nat, n: nat,
                              chat: string,
                              b: BulkPending)
    requires n <= |commands|
  {
    m < n && commands[m].Preview? && commands[m].chat == chat &&
    b == BulkPending(commands[m].code, commands[m].now + TTL,
                     Targets(miners, DeskAt(rules, miners, start, commands, m).low)) &&
    (forall i :: m < i < n && commands[i].Preview? && commands[i].chat == chat ==>
       Targets(miners, DeskAt(rules, miners, start, commands, i).low) == []) &&
    forall i :: m < i < n ==> !RunsBulk(rules, miners, start, commands, i, chat)
  }

  lemma BulkAfter(rules: NameRules, miners: seq<Key>, desk: Desk, c: Command, chat: string)
    requires chat in Apply(rules, miners, desk, c).bulk
    ensures
      var b := Apply(rules, miners, desk, c).bulk[chat];
      if c.Preview? && c.chat == chat && Targets(miners, desk.low) != []
      then b == BulkPending(c.code, c.now + TTL, Targets(miners, desk.low))
      else chat in desk.bulk && b == desk.bulk[chat] &&
           !(c.ConfirmBulk? && c.chat == chat && ConfirmsBulk(desk, chat, c.code, c.now))
  {
  }

  lemma {:induction false} BulkHasPreview(rules: NameRules, miners: seq<Key>, start: Desk, commands: seq<Command>,
                                          n: nat, chat: string)
    returns (m: nat)
    requires n <= |commands| && start.bulk == map[]
    requires chat in DeskAt(rules, miners, start, commands, n).bulk
    ensures PreviewedAt(rules, miners, start, commands, m, n, chat,
                        DeskAt(rules, miners, start, commands, n).bulk[chat])
  {
    var before := DeskAt(rules, miners, start, commands, n - 1);
    var c := commands[n - 1];
    assert DeskAt(rules, miners, start, commands, n) == Apply(rules, miners, before, c);
    BulkAfter(rules, miners, before, c, chat);
    if c.Preview? && c.chat == chat && Targets(miners, before.low) != [] {
      m := n - 1;
      hide Apply, ConfirmsBulk, Targets;
    } else {
      m := BulkHasPreview(rules, miners, start, commands, n - 1, chat);
      PreviewStands(rules, miners, start, commands, m, n - 1, chat, before.bulk[chat]);
      hide Apply, ConfirmsBulk, Targets, PreviewedAt;
    }
  }

  lemma PreviewStands(rules: NameRules, miners: seq<Key>, start: Desk, commands: seq<Command>, m: nat, n: nat,
                      chat: string, b: BulkPending)
    requires n < |commands| && PreviewedAt(rules, miners, start, commands, m, n, chat, b)
    requires !RunsBulk(rules, miners, start, commands, n, chat)
    requires commands[n].Preview? && commands[n].chat == chat ==>
               Targets(miners, DeskAt(rules, miners, start, commands, n).low) == []
    ensures PreviewedAt(rules, miners, start, commands, m, n + 1, chat, b)
  {
    hide Targets, RunsBulk, DeskAt;
  }

  /** A bulk reboot that runs was previewed in the same chat with the same code at most 60 seconds
      earlier, that preview has not run before, and it names at most five miners. */
  lemma BulkRunsOncePerPreview(rules: NameRules, miners: seq<Key>, start: Desk, commands: seq<Command>, n: nat,
                               chat: string)
    requires start.bulk == map[] && n < |commands| && RunsBulk(rules, miners, start, commands, n, chat)
    ensures exists m: nat ::
      PreviewedAt(rules, miners, start, commands, m, n, chat, DeskAt(rules, miners, start, commands, n).bulk[chat]) &&
      commands[m].code == commands[n].code && commands[n].now <= commands[m].now + TTL
    ensures |DeskAt(rules, miners, start, commands, n).bulk[chat].targets| <= BULK_CAP
  {
    var m := BulkHasPreview(rules, miners, start, commands, n, chat);
  }

  /** Every target name resolves to a miner that was LOW, whatever the set of LOW miners. */
  ghost predicate BulkHitsOnlyLow(rules: NameRules, miners: seq<Key>) {
    forall low: set<Key> :: forall k :: k in Rebooted(rules, miners, Targets(miners, low)) ==> k in low
  }

  /** No configured miner's display name resolves to another miner. */
  predicate DisplayNamesResolve(rules: NameRules, miners: seq<Key>) {
    forall k :: k in miners ==>
      var found := Resolve(rules, DisplayName(k.name), miners);
      found.Some? ==> found.value == k
  }

  lemma {:induction false} RebootedComesFromTarget(rules: NameRules, miners: seq<Key>, targets: seq<string>, k: Key)
    requires k in Rebooted(rules, miners, targets)
    ensures exists i :: 0 <= i < |targets| && Resolve(rules, targets[i], miners) == Some(k)
  {
    if Resolve(rules, targets[0], miners) == Some(k) {
    } else {
      RebootedComesFromTarget(rules, miners, targets[1..], k);
      var i :| 0 <= i < |targets[1..]| && Resolve(rules, targets[1..][i], miners) == Some(k);
      assert targets[i + 1] == targets[1..][i];
    }
  }

  lemma {:induction false} TargetComesFromLow(miners: seq<Key>, low: set<Key>, t: string)
    requires t in LowNames(miners, low)
    ensures exists k :: k in miners && k in low && t == DisplayName(k.name)
  {
    if miners[0] in low && t == DisplayName(miners[0].name) {
    } else {
      assert t in LowNames(miners[1..], low);
      TargetComesFromLow(miners[1..], low, t);
    }
  }

  lemma {:induction false} OnlyLowIsNamed(miners: seq<Key>, k: Key)
    requires k in miners
    ensures LowNames(miners, {k}) != [] && LowNames(miners, {k})[0] == DisplayName(k.name)
  {
    if miners[0] != k {
      OnlyLowIsNamed(miners[1..], k);
    }
  }

  lemma FirstTargetIsRebooted(rules: NameRules, miners: seq<Key>, targets: seq<string>, k: Key)
    requires targets != [] && Resolve(rules, targets[0], miners) == Some(k)
    ensures k in Rebooted(rules, miners, targets)
  {
    assert Rebooted(rules, miners, targets)[0] == k;
  }

  /** The bulk reboot touches only miners that were LOW at preview exactly when no display name resolves
      to another miner. Two miners that share a display name break it: the first one listed is
      rebooted in place of the LOW one. */
  lemma BulkHitsOnlyLowIff(rules: NameRules, miners: seq<Key>)
    ensures BulkHitsOnlyLow(rules, miners) <==> DisplayNamesResolve(rules, miners)
  {
    hide Resolve, DisplayName, Rebooted, LowNames;
    if DisplayNamesResolve(rules, miners) {
      forall low: set<Key>, k | k in Rebooted(rules, miners, Targets(miners, low)) ensures k in low {
        RebootedComesFromTarget(rules, miners, Targets(miners, low), k);
        var i :| 0 <= i < |Targets(miners, low)| && Resolve(rules, Targets(miners, low)[i], miners) == Some(k);
        TargetComesFromLow(miners, low, Targets(miners, low)[i]);
      }
    }
    if BulkHitsOnlyLow(rules, miners) {
      forall k | k in miners && Resolve(rules, DisplayName(k.name), miners).Some?
        ensures Resolve(rules, DisplayName(k.name), miners).value == k
      {
        OnlyLowIsNamed(miners, k);
        FirstTargetIsRebooted(rules, miners, Targets(miners, {k}), Resolve(rules, DisplayName(k.name), miners).value);
      }
    }
  }

  // ---------- the dictionaries the poller updates in place ----------

  class ConfirmationDesk {
    const rules: NameRules
    const miners: seq<Key>
    var pending: map<Key, Pending>
    var bulk: map<string, BulkPending>
    var lastManual: map<Key, Option<real>>
    var low: set<Key>

    function View(): Desk
      reads this
    {
      Desk(pending, bulk, lastManual, low)
    }

    constructor (rules: NameRules, miners: seq<Key>, lastManual: map<Key, Option<real>>, low: set<Key>)
      ensures this.rules == rules && this.miners == miners && View() == Desk(map[], map[], lastManual, low)
    {
      this.rules, this.miners, this.lastManual, this.low := rules, miners, lastManual, low;
      pending, bulk := map[], map[];
    }

    method RequestAction(k: Key, kind: ManualKind, now: real, code: string) returns (accepted: bool)
      modifies this
      ensures View() == Apply(rules, miners, old(View()), Request(k, kind, now, code))
      ensures accepted == !CoolingDown(old(View()), k, now)
    {
      if k in lastManual && lastManual[k].Some? {
        var last := lastManual[k].value;
        if last != 0.0 && now - last < MANUAL_COOLDOWN {
          return false;
        }
      }
      pending := pending[k := Pending(code, now + TTL, kind)];
      return true;
    }

    method ConfirmAction(k: Key, kind: ManualKind, now: real, code: string, cliOk: bool) returns (ran: bool)
      modifies this
      ensures View() == Apply(rules, miners, old(View()), ConfirmSingle(k, kind, now, code, cliOk))
      ensures ran == Confirms(old(View()), k, kind, code, now)
    {
      if k !in pending || pending[k].expires < now {
        return false;
      }
      if pending[k].code != code || pending[k].kind != kind {
        return false;
      }
      if cliOk {
        if k in lastManual {
          lastManual := lastManual[k := Some(now)];
        }
        pending := pending - {k};
      }
      return true;
    }

    method ListTargets() returns (targets: seq<string>)
      ensures targets == Targets(miners, low)
    {
      targets := [];
      var i := 0;
      while i < |miners|
        invariant 0 <= i <= |miners|
        invariant targets + LowNames(miners[i..], low) == LowNames(miners, low)
      {
        assert miners[i..][1..] == miners[i + 1..];
        if miners[i] in low {
          targets := targets + [DisplayName(miners[i].name)];
        }
        i := i + 1;
      }
      assert miners[i..] == [] && targets + [] == targets;
      if |targets| > BULK_CAP {
        targets := targets[..BULK_CAP];
      }
    }

    method PreviewBulk(chat: string, now: real, code: string) returns (targets: seq<string>)
      modifies this
      ensures View() == Apply(rules, miners, old(View()), Preview(chat, now, code))
      ensures targets == Targets(miners, old(low))
    {
      hide Targets;
      targets := ListTargets();
      if targets != [] {
        bulk := bulk[chat := BulkPending(code, now + TTL, targets)];
      }
    }

    method ConfirmBulkReboot(chat: string, now: real, code: string, cliAnswers: Key -> bool)
      returns (rebooted: seq<Key>)
      modifies this
      ensures View() == Apply(rules, miners, old(View()), ConfirmBulk(chat, now, code, cliAnswers))
      ensures rebooted == if ConfirmsBulk(old(View()), chat, code, now)
                          then Rebooted(rules, miners, old(bulk)[chat].targets) else []
    {
      rebooted := [];
      if chat !in bulk {
        return;
      }
      if bulk[chat].expires < now {
        bulk := bulk - {chat};
        return;
      }
      if bulk[chat].code != code {
        return;
      }
      var targets := bulk[chat].targets;
      bulk := bulk - {chat};
      rebooted := RebootTargets(targets, now, cliAnswers);
    }

    method RebootTargets(targets: seq<string>, now: real, cliAnswers: Key -> bool) returns (rebooted: seq<Key>)
      modifies this`lastManual
      ensures rebooted == Rebooted(rules, miners, targets)
      ensures lastManual == StampAll(old(lastManual), rebooted, now, cliAnswers)
    {
      rebooted := [];
      var i := 0;
      while i < |targets|
        invariant 0 <= i <= |targets|
        invariant rebooted + Rebooted(rules, miners, targets[i..]) == Rebooted(rules, miners, targets)
        invariant lastManual == StampAll(old(lastManual), rebooted, now, cliAnswers)
      {
        hide Resolve;
        RebootedFrom(rules, miners, targets, i);
        var miner := Resolve(rules, targets[i], miners);
        if miner.Some? {
          StampOneMore(old(lastManual), rebooted, miner.value, now, cliAnswers);
          rebooted := rebooted + [miner.value];
          if cliAnswers(miner.value) && miner.value in lastManual {
            lastManual := lastManual[miner.value := Some(now)];
          }
        }
        i := i + 1;
      }
    }
  }

  lemma RebootedFrom(rules: NameRules, miners: seq<Key>, targets: seq<string>, i: nat)
    requires i < |targets|
    ensures
      var rest := Rebooted(rules, miners, targets[i + 1..]);
      Rebooted(rules, miners, targets[i..]) ==
        match Resolve(rules, targets[i], miners)
        case Some(k) => [k] + rest
        case None => rest
  {
    hide Resolve;
    assert targets[i..][1..] == targets[i + 1..];
  }

  lemma {:induction false} StampOneMore(last: map<Key, Option<real>>, done: seq<Key>, k: Key, now: real,
                                        cliAnswers: Key -> bool)
    ensures
      var before := StampAll(last, done, now, cliAnswers);
      StampAll(last, done + [k], now, cliAnswers) == if cliAnswers(k) then Stamp(before, k, now) else before
  {
    if done == [] {
      assert done + [k] == [k];
    } else {
      assert (done + [k])[1..] == done[1..] + [k];
      StampOneMore(if cliAnswers(done[0]) then Stamp(last, done[0], now) else last, done[1..], k, now, cliAnswers);
    }
  }
}
