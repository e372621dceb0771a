/** When exactly a confirmation acts, and on whom: the protocol of `Confirmation` stated on the commands that came
    before. */
module ConfirmationLaws {
  import opened Common
  import opened RebootSafety
  import opened Confirmation

  // ---------- single actions ----------

  /** The recorded manual action of the miner lies less than ten minutes back. */
  predicate ActedRecently(desk: Desk, k: Key, now: real) {
    k in desk.lastManual && desk.lastManual[k].Some? && desk.lastManual[k].value != 0.0 &&
    desk.lastManual[k].value > now - 600.0
  }

  /** At any point of a run a request is refused exactly when the miner's recorded manual action lies less than
      ten minutes back; otherwise it waits for its code for a minute, in place of any earlier one. */
  lemma RequestExactly(rules: NameRules, miners: seq<Key>, start: Desk, commands: seq<Command>, n: nat)
    requires n < |commands| && commands[n].Request?
    ensures
      var c, k := commands[n], commands[n].key;
      var desk, after := DeskAt(rules, miners, start, commands, n), DeskAt(rules, miners, start, commands, n + 1);
      (ActedRecently(desk, k, c.now) ==> after == desk) &&
      (!ActedRecently(desk, k, c.now) ==>
         after == desk.(pending := desk.pending[k := Pending(c.code, c.now + 60.0, c.kind)]))
  {
  }

  /** Request m of miner k is open when command n comes: it was accepted, and nothing replaced it or carried it
      out since. */
  ghost predicate IsOpen(rules: NameRules, miners: seq<Key>, start: Desk, commands: seq<Command>, m: nat, n: nat,
                         k: Key)
    requires n <= |commands|
  {
    m < n && commands[m].Request? && commands[m].key == k &&
    !ActedRecently(DeskAt(rules, miners, start, commands, m), k, commands[m].now) &&
    (forall i :: m < i < n && commands[i].Request? && commands[i].key == k ==>
       ActedRecently(DeskAt(rules, miners, start, commands, i), k, commands[i].now)) &&
    forall i :: m < i < n && commands[i].ConfirmSingle? && commands[i].cliOk ==>
      !RunsSingle(rules, miners, start, commands, i, k)
  }

  lemma {:induction false} OpenIsPending(rules: NameRules, miners: seq<Key>, start: Desk, commands: seq<Command>,
                                         m: nat, n: nat, k: Key)
    requires n <= |commands| && IsOpen(rules, miners, start, commands, m, n, k)
    ensures
      var desk := DeskAt(rules, miners, start, commands, n);
      k in desk.pending && desk.pending[k] == Pending(commands[m].code, commands[m].now + 60.0, commands[m].kind)
  {
    var desk := DeskAt(rules, miners, start, commands, n - 1);
    if n == m + 1 {
      RequestExactly(rules, miners, start, commands, m);
    } else {
      OpenIsPending(rules, miners, start, commands, m, n - 1, k);
      PendingStays(rules, miners, desk, commands[n - 1], k);
    }
    hide Apply;
  }

  lemma PendingStays(rules: NameRules, miners: seq<Key>, desk: Desk, c: Command, k: Key)
    requires k in desk.pending
    requires c.Request? && c.key == k ==> ActedRecently(desk, k, c.now)
    requires !(c.ConfirmSingle? && c.key == k && c.cliOk && Confirms(desk, k, c.kind, c.code, c.now))
    ensures
      var after := Apply(rules, miners, desk, c);
      k in after.pending && after.pending[k] == desk.pending[k]
  {
  }

  lemma RequestIsOpen(rules: NameRules, miners: seq<Key>, start: Desk, commands: seq<Command>, n: nat, k: Key)
    returns (m: nat)
    requires n <= |commands| && start.pending == map[]
    requires k in DeskAt(rules, miners, start, commands, n).pending
    ensures IsOpen(rules, miners, start, commands, m, n, k)
  {
    var before := DeskAt(rules, miners, start, commands, n - 1);
    var c := commands[n - 1];
    PendingAfter(rules, miners, before, c, k);
    hide Apply;
    if c.Request? && c.key == k && !ActedRecently(before, k, c.now) {
      m := n - 1;
    } else {
      m := RequestIsOpen(rules, miners, start, commands, n - 1, k);
      StaysOpen(rules, miners, start, commands, m, n - 1, k);
      hide IsOpen;
    }
  }

  lemma StaysOpen(rules: NameRules, miners: seq<Key>, start: Desk, commands: seq<Command>, m: nat, n: nat, k: Key)
    requires n < |commands| && IsOpen(rules, miners, start, commands, m, n, k)
    requires commands[n].Request? && commands[n].key == k ==>
               ActedRecently(DeskAt(rules, miners, start, commands, n), k, commands[n].now)
    requires commands[n].ConfirmSingle? && commands[n].cliOk ==> !RunsSingle(rules, miners, start, commands, n, k)
    ensures IsOpen(rules, miners, start, commands, m, n + 1, k)
  {
    hide DeskAt, RunsSingle, ActedRecently;
  }

  /** A confirmation hands its action to the CLI if and only if a request for the same miner, with the same kind
      and code, is open and at most a minute old. If the CLI accepts, the request is used up and the action on
      record; otherwise nothing changes. */
  lemma {:induction false} SingleRunsIff(rules: NameRules, miners: seq<Key>, start: Desk, commands: seq<Command>,
                                         n: nat, k: Key)
    requires start.pending == map[] && n < |commands| && commands[n].ConfirmSingle? && commands[n].key == k
    ensures RunsSingle(rules, miners, start, commands, n, k) <==>
      exists m: nat ::
        IsOpen(rules, miners, start, commands, m, n, k) && commands[m].kind == commands[n].kind &&
        commands[m].code == commands[n].code && commands[n].now - commands[m].now <= 60.0
    ensures
      var c, desk := commands[n], DeskAt(rules, miners, start, commands, n);
      var last := if k in desk.lastManual then desk.lastManual[k := Some(c.now)] else desk.lastManual;
      DeskAt(rules, miners, start, commands, n + 1) ==
        if RunsSingle(rules, miners, start, commands, n, k) && c.cliOk
        then desk.(lastManual := last, pending := desk.pending - {k}) else desk
  {
    assert DeskAt(rules, miners, start, commands, n + 1) ==
      Apply(rules, miners, DeskAt(rules, miners, start, commands, n), commands[n]);
    hide DeskAt;
    if k in DeskAt(rules, miners, start, commands, n).pending {
      var m := RequestIsOpen(rules, miners, start, commands, n, k);
      OpenIsPending(rules, miners, start, commands, m, n, k);
    }
    forall m: nat | IsOpen(rules, miners, start, commands, m, n, k)
      ensures
        var desk := DeskAt(rules, miners, start, commands, n);
        k in desk.pending && desk.pending[k] == Pending(commands[m].code, commands[m].now + 60.0, commands[m].kind)
    {
      OpenIsPending(rules, miners, start, commands, m, n, k);
    }
  }

  // ---------- bulk reboots ----------

  /** The preview with number m is open when command n comes: it named somebody, no later preview of the chat
      did, it has not run, and no confirmation came after its minute. */
  ghost predicate IsOpenPreview(rules: NameRules, miners: seq<Key>, start: Desk, commands: seq<Command>, m: nat,
                                n: nat, chat: string)
    requires n <= |commands|
  {
    m < n && commands[m].Preview? && commands[m].chat == chat &&
    AnyLow(miners, DeskAt(rules, miners, start, commands, m).low) &&
    (forall i :: m < i < n && commands[i].Preview? && commands[i].chat == chat ==>
       !AnyLow(miners, DeskAt(rules, miners, start, commands, i).low)) &&
    forall i :: m < i < n && commands[i].ConfirmBulk? && commands[i].chat == chat ==>
      !RunsBulk(rules, miners, start, commands, i, chat) && commands[i].now <= commands[m].now + 60.0
  }

  predicate AnyLow(miners: seq<Key>, low: set<Key>) {
    exists k :: k in miners && k in low
  }

  lemma {:induction false} AnyLowIsTarget(miners: seq<Key>, low: set<Key>)
    ensures Targets(miners, low) != [] <==> AnyLow(miners, low)
  {
    if Targets(miners, low) != [] {
      TargetComesFromLow(miners, low, LowNames(miners, low)[0]);
    }
    if k :| k in miners && k in low {
      SomebodyIsNamed(miners, low, k);
    }
  }

  lemma {:induction false} SomebodyIsNamed(miners: seq<Key>, low: set<Key>, k: Key)
    requires k in miners && k in low
    ensures LowNames(miners, low) != []
  {
    if miners[0] != k {
      SomebodyIsNamed(miners[1..], low, k);
    }
  }

  /** What a preview in this chat makes pending. */
  function BulkFrom(rules: NameRules, miners: seq<Key>, start: Desk, commands: seq<Command>, m: nat): BulkPending
    requires m < |commands| && commands[m].Preview?
  {
    var desk := DeskAt(rules, miners, start, commands, m);
    BulkPending(commands[m].code, commands[m].now + 60.0, Targets(miners, desk.low))
  }

  lemma BulkStep(rules: NameRules, miners: seq<Key>, desk: Desk, c: Command, chat: string)
    ensures
      var after := Apply(rules, miners, desk, c);
      if c.Preview? && c.chat == chat && AnyLow(miners, desk.low) then
        chat in after.bulk && after.bulk[chat] == BulkPending(c.code, c.now + 60.0, Targets(miners, desk.low))
      else if c.ConfirmBulk? && c.chat == chat && chat in desk.bulk &&
              (ConfirmsBulk(desk, chat, c.code, c.now) || c.now > desk.bulk[chat].expires) then
        chat !in after.bulk
      else
        (chat in after.bulk <==> chat in desk.bulk) && (chat in desk.bulk ==> after.bulk[chat] == desk.bulk[chat])
  {
    hide Targets;
    AnyLowIsTarget(miners, desk.low);
    hide AnyLow;
  }

  lemma {:induction false} OpenPreviewIsPending(rules: NameRules, miners: seq<Key>, start: Desk,
                                                commands: seq<Command>, m: nat, n: nat, chat: string)
    requires n <= |commands| && IsOpenPreview(rules, miners, start, commands, m, n, chat)
    ensures
      var desk := DeskAt(rules, miners, start, commands, n);
      chat in desk.bulk && desk.bulk[chat] == BulkFrom(rules, miners, start, commands, m)
  {
    hide Apply, AnyLow, Targets;
    if n > m + 1 {
      OpenPreviewIsPending(rules, miners, start, commands, m, n - 1, chat);
    }
    BulkStep(rules, miners, DeskAt(rules, miners, start, commands, n - 1), commands[n - 1], chat);
  }

  lemma {:induction false} PendingHasOpenPreview(rules: NameRules, miners: seq<Key>, start: Desk,
                                                 commands: seq<Command>, n: nat, chat: string)
    returns (m: nat)
    requires n <= |commands| && start.bulk == map[]
    requires chat in DeskAt(rules, miners, start, commands, n).bulk
    ensures IsOpenPreview(rules, miners, start, commands, m, n, chat)
  {
    var desk, c := DeskAt(rules, miners, start, commands, n - 1), commands[n - 1];
    BulkStep(rules, miners, desk, c, chat);
    hide Apply, Targets, AnyLow;
    if c.Preview? && c.chat == chat && AnyLow(miners, desk.low) {
      m := n - 1;
    } else {
      m := PendingHasOpenPreview(rules, miners, start, commands, n - 1, chat);
      OpenPreviewIsPending(rules, miners, start, commands, m, n - 1, chat);
      PreviewStaysOpen(rules, miners, start, commands, m, n - 1, chat);
      hide IsOpenPreview;
    }
  }

  lemma PreviewStaysOpen(rules: NameRules, miners: seq<Key>, start: Desk, commands: seq<Command>, m: nat, n: nat,
                         chat: string)
    requires n < |commands| && IsOpenPreview(rules, miners, start, commands, m, n, chat)
    requires commands[n].Preview? && commands[n].chat == chat ==>
               !AnyLow(miners, DeskAt(rules, miners, start, commands, n).low)
    requires commands[n].ConfirmBulk? && commands[n].chat == chat ==>
               !RunsBulk(rules, miners, start, commands, n, chat) && commands[n].now <= commands[m].now + 60.0
    ensures IsOpenPreview(rules, miners, start, commands, m, n + 1, chat)
  {
    hide DeskAt, RunsBulk, AnyLow;
  }

  /** A bulk confirmation runs if and only if a preview of the same chat with the same code is open and at most a
      minute old; and it runs on the names of that preview. */
  lemma {:induction false} BulkRunsIff(rules: NameRules, miners: seq<Key>, start: Desk, commands: seq<Command>,
                                       n: nat, chat: string)
    requires start.bulk == map[] && n < |commands| && commands[n].ConfirmBulk? && commands[n].chat == chat
    ensures RunsBulk(rules, miners, start, commands, n, chat) <==>
      exists m: nat ::
        IsOpenPreview(rules, miners, start, commands, m, n, chat) && commands[m].code == commands[n].code &&
        commands[n].now - commands[m].now <= 60.0
    ensures forall m: nat :: IsOpenPreview(rules, miners, start, commands, m, n, chat) ==>
      var desk := DeskAt(rules, miners, start, commands, n);
      chat in desk.bulk &&
      desk.bulk[chat].targets == Targets(miners, DeskAt(rules, miners, start, commands, m).low)
  {
    hide DeskAt, Targets, AnyLow;
    if chat in DeskAt(rules, miners, start, commands, n).bulk {
      var m := PendingHasOpenPreview(rules, miners, start, commands, n, chat);
      OpenPreviewIsPending(rules, miners, start, commands, m, n, chat);
    }
    forall m: nat | IsOpenPreview(rules, miners, start, commands, m, n, chat)
      ensures
        var desk := DeskAt(rules, miners, start, commands, n);
        chat in desk.bulk && desk.bulk[chat] == BulkFrom(rules, miners, start, commands, m)
    {
      OpenPreviewIsPending(rules, miners, start, commands, m, n, chat);
    }
  }

  // ---------- names and targets ----------

  /** How many of the first n configured miners are LOW. */
  function CountLow(miners: seq<Key>, low: set<Key>, n: nat): nat
    requires n <= |miners|
  {
    if n == 0 then 0 else CountLow(miners, low, n - 1) + if miners[n - 1] in low then 1 else 0
  }

  lemma {:induction false} CountLowRest(miners: seq<Key>, low: set<Key>, n: nat)
    requires 0 < n <= |miners|
    ensures CountLow(miners, low, n) == (if miners[0] in low then 1 else 0) + CountLow(miners[1..], low, n - 1)
  {
    if n > 1 {
      CountLowRest(miners, low, n - 1);
    }
  }

  lemma LowNamesRest(miners: seq<Key>, low: set<Key>, i: nat)
    requires miners != []
    ensures
      var first, names := miners[0] in low, LowNames(miners[1..], low);
      |LowNames(miners, low)| == (if first then 1 else 0) + |names| &&
      (first ==> LowNames(miners, low)[0] == DisplayName(miners[0].name)) &&
      (i < |names| ==> LowNames(miners, low)[i + if first then 1 else 0] == names[i])
  {
    hide DisplayName;
  }

  lemma {:induction false} LowNamesExactly(miners: seq<Key>, low: set<Key>, p: nat)
    requires p <= |miners|
    ensures |LowNames(miners, low)| == CountLow(miners, low, |miners|)
    ensures p < |miners| && miners[p] in low ==>
      CountLow(miners, low, p) < |LowNames(miners, low)| &&
      LowNames(miners, low)[CountLow(miners, low, p)] == DisplayName(miners[p].name)
  {
    if miners != [] {
      hide DisplayName, LowNames;
      CountLowRest(miners, low, |miners|);
      var q := if p == 0 then 0 else p - 1;
      LowNamesExactly(miners[1..], low, q);
      LowNamesRest(miners, low, CountLow(miners[1..], low, q));
      if p > 0 {
        CountLowRest(miners, low, p);
      }
    }
  }

  /** A preview names the first five LOW miners in the order of the configuration, or all when there are fewer. */
  lemma {:induction false} TargetsExactly(miners: seq<Key>, low: set<Key>, p: nat)
    requires p < |miners|
    ensures
      var all, names := CountLow(miners, low, |miners|), Targets(miners, low);
      |names| == (if all < 5 then all else 5) &&
      (miners[p] in low && CountLow(miners, low, p) < 5 ==>
         CountLow(miners, low, p) < |names| && names[CountLow(miners, low, p)] == DisplayName(miners[p].name))
  {
    hide LowNames, DisplayName;
    LowNamesExactly(miners, low, p);
  }

  /** The display name is what follows the last dash, or the whole name when there is none. */
  lemma {:induction false} DisplayNameExactly(name: string)
    ensures
      var shown := DisplayName(name);
      '-' !in shown &&
      if '-' !in name then shown == name
      else |shown| < |name| && name[|name| - |shown| - 1] == '-' && name[|name| - |shown|..] == shown
  {
    if name != "" {
      var front, last := name[..|name| - 1], name[|name| - 1];
      assert name == front + [last];
      if last != '-' {
        DisplayNameExactly(front);
        assert DisplayName(name) == DisplayName(front) + [last];
      } else {
        assert DisplayName(name) == "";
      }
    }
  }

  predicate IsFirstMatch(rules: NameRules, token: string, miners: seq<Key>, i: nat) {
    var word := rules.lower(rules.strip(token));
    i < |miners| && (word == rules.lower(miners[i].name) || word == rules.lower(DisplayName(miners[i].name))) &&
    forall j :: 0 <= j < i ==>
      word != rules.lower(miners[j].name) && word != rules.lower(DisplayName(miners[j].name))
  }

  /** A token stands for the first configured miner whose name or display name it is, up to letter case and
      surrounding blanks, and for nobody when there is none. */
  lemma {:induction false} ResolveExactly(rules: NameRules, token: string, miners: seq<Key>)
    ensures Resolve(rules, token, miners).Some? <==> exists i: nat :: IsFirstMatch(rules, token, miners, i)
    ensures forall i: nat :: IsFirstMatch(rules, token, miners, i) ==> Resolve(rules, token, miners) == Some(miners[i])
  {
    hide DisplayName;
    if miners != [] {
      var rest := miners[1..];
      ResolveExactly(rules, token, rest);
      if Answers(rules, miners[0], token) {
        assert IsFirstMatch(rules, token, miners, 0);
      } else {
        forall i: nat | i > 0 ensures IsFirstMatch(rules, token, miners, i) <==> IsFirstMatch(rules, token, rest, i - 1)
        {
          FirstMatchInRest(rules, token, miners, i);
        }
        if i: nat :| IsFirstMatch(rules, token, rest, i) {
          assert IsFirstMatch(rules, token, miners, i + 1);
        }
      }
    }
  }

  lemma FirstMatchInRest(rules: NameRules, token: string, miners: seq<Key>, i: nat)
    requires miners != [] && i > 0 && !Answers(rules, miners[0], token)
    ensures IsFirstMatch(rules, token, miners, i) <==> IsFirstMatch(rules, token, miners[1..], i - 1)
  {
    hide DisplayName;
    if IsFirstMatch(rules, token, miners[1..], i - 1) {
      forall j | 0 < j < i ensures miners[j] == miners[1..][j - 1] {
      }
    }
  }

  lemma {:induction false} TargetIsRebooted(rules: NameRules, miners: seq<Key>, targets: seq<string>, i: nat)
    requires i < |targets| && Resolve(rules, targets[i], miners).Some?
    ensures Resolve(rules, targets[i], miners).value in Rebooted(rules, miners, targets)
  {
    hide Resolve;
    if i > 0 {
      TargetIsRebooted(rules, miners, targets[1..], i - 1);
    }
  }

  /** The CLI gets the named miners in the order of the names. */
  lemma {:induction false} RebootedInOrder(rules: NameRules, miners: seq<Key>, first: seq<string>, more: seq<string>)
    ensures Rebooted(rules, miners, first + more) == Rebooted(rules, miners, first) + Rebooted(rules, miners, more)
  {
    hide Resolve;
    if first == [] {
      assert first + more == more;
    } else {
      RebootedInOrder(rules, miners, first[1..], more);
      assert (first + more)[1..] == first[1..] + more;
    }
  }

  lemma {:induction false} StampAllExactly(last: map<Key, Option<real>>, done: seq<Key>, now: real,
                                           cliAnswers: Key -> bool, k: Key)
    ensures
      var after := StampAll(last, done, now, cliAnswers);
      (k in after <==> k in last) &&
      (k in last ==> after[k] == if k in done && cliAnswers(k) then Some(now) else last[k])
  {
    if done != [] {
      StampAllExactly(if cliAnswers(done[0]) then Stamp(last, done[0], now) else last, done[1..], now, cliAnswers, k);
      assert k in done <==> k == done[0] || k in done[1..];
    }
  }

  /** A bulk confirmation that runs hands to the CLI every miner that some name of the preview stands for, and no
      other; those whose command is accepted count as acted on now, and no other. */
  lemma {:induction false} BulkActsExactly(rules: NameRules, miners: seq<Key>, desk: Desk, c: Command, k: Key)
    requires c.ConfirmBulk? && ConfirmsBulk(desk, c.chat, c.code, c.now)
    ensures
      var targets := desk.bulk[c.chat].targets;
      var named := exists i :: 0 <= i < |targets| && Resolve(rules, targets[i], miners) == Some(k);
      (k in Rebooted(rules, miners, targets) <==> named) &&
      var after := Apply(rules, miners, desk, c);
      c.chat !in after.bulk && (k in after.lastManual <==> k in desk.lastManual) &&
      (k in desk.lastManual ==>
         after.lastManual[k] == if named && c.cliAnswers(k) then Some(c.now) else desk.lastManual[k])
  {
    hide Resolve, StampAll;
    var targets := desk.bulk[c.chat].targets;
    StampAllExactly(desk.lastManual, Rebooted(rules, miners, targets), c.now, c.cliAnswers, k);
    if k in Rebooted(rules, miners, targets) {
      RebootedComesFromTarget(rules, miners, targets, k);
    }
    if i :| 0 <= i < |targets| && Resolve(rules, targets[i], miners) == Some(k) {
      TargetIsRebooted(rules, miners, targets, i);
    }
  }
}
