# Verified model of the miner monitor

The monitor polls a fleet of mining machines, confirms a state for each one (OK, LOW, OFFLINE, HASHBOARD),
reboots a machine by itself when a low hash rate persists, groups what it has seen into episodes, and tells
an operator over Telegram. A watchdog reports when the monitor itself stops; a backup tool prunes old
generations of its event store. This project models the parts of that system whose guarantees span many
steps, and proves them over every run.

Time is a real number of seconds. Clock readings, replies of miners, answers of the action CLI and of the
notification service, drawn codes and failures of file writes are inputs of the model, free to take any
value. A theorem that needs a clock that never steps back says so in its `requires`; the others do not
assume it.

The classes mirror the objects that the program changes in place. Each of their methods is proved equal to
a function on values, and the theorems about whole runs are lemmas about those functions:

- `MinerTick`, `Fleet`, `RebootSafety`: one miner's tick, the loop over the fleet, manual actions, the state
  file and restarts; `TickLaws`: a tick stated on the reading alone; `RebootLaws`, `RebootRate`, `Hysteresis`:
  what runs of them keep; `RebootLimits`, `RebootExcess`: exactly when the reboot limits hold in all runs.
- `Confirmation`: requests, previews and their confirmations by code; `ConfirmationLaws`: when exactly they act.
- `AlertEpisodes`, `EpisodeCoordinator`: episodes and the coordinator; `EpisodeLaws`, `SightingLaws`,
  `ReminderBudget`, `HistoryRefinement`: conservation, latency, single observations and pops, reminders, and the
  bounded history.
- `Leases`, `Collection`: the registry of requests in flight under every interleaving, and one collection.
- `Retention`: which backups survive pruning. `StabilityBand`: the robust band of a metric.
- `MessageSplit`, `DeliveryQueue`: long messages, the bounded queue and its coalescing sender.
- `Watchdog`: liveness findings and the incident that is reported.

A tick over all miners, one command of the poller, and each queue or registry operation is one atomic step.

Where the code differs from its own documentation, or from what one would expect of it, the model follows the code:

- README.md:95-97 says that N bad readings in a row make a miner LOW or OFFLINE. The streak towards LOW is
  cleared in the tick that counted it unless the miner is already LOW
  (app/miner_monitor.py:3975-3984), so from a clean start the rule holds for LOW exactly when N is at most
  one (`Hysteresis.LowReachableIff`). The same is true of OFFLINE (`Hysteresis.OfflineReachableIff`), which
  for larger N is reached only through HASHBOARD.
- A bulk reboot names its targets by display name and looks each name up again. It stays with the miners
  that were LOW exactly when no configured display name resolves to another miner
  (`Confirmation.BulkHitsOnlyLowIff`).
- A rate that is NaN counts towards recovery, because it is not below the threshold, so a LOW miner can
  recover on NaN readings and one good one (`Hysteresis.NaNsRecover`). The readings of a recovery are all at
  or above the threshold exactly when none of them is NaN (`Hysteresis.RecoveryNeedsGoodReads`), and in every
  run exactly when a single reading is enough (`Hysteresis.RecoveryRuleIff`).
- The sender remembers the digest of every post that was answered, also with an error status
  (app/miner_monitor.py:1235-1259). A state change that the service refused is later dropped as a duplicate
  although it was never delivered (`DeliveryQueue.RefusedIsDropped`); duplicate suppression is safe exactly
  when the service never answers with an error status (`DeliveryQueue.DropsOnlyWhatWasSeenIff`).
- A failed write of the state file is ignored, so a reboot that is not on file is forgotten by the next
  process. The limit per window and the cooldown hold as long as no restart loses a reboot
  (`RebootRate.RebootsPerWindow`, `RebootRate.RebootsAreSpaced`). Over all runs they hold exactly when the
  window is shorter, or the cooldown no longer, than what the delays of a fresh process enforce anyway
  (`RebootExcess.LimitHoldsIff`, `RebootExcess.SpacingHoldsIff`).
- The watchdog writes its state file after it has notified. When the confirmation of a notice is lost, when
  that write fails, or when the file is lost while an incident is open, the operator can see an incident
  open twice (`Watchdog.UnrecordedOpensTwice`). What the operator has seen is whole and agrees with the
  file at every point of a run exactly when every check keeps its books (`Watchdog.IncidentsAreWholeIff`).
- The fleet cap needs a fresh snapshot: when it has become stale the cap can be broken exactly if enough
  miners are ready for a reboot (`RebootLaws.CapBrokenIff`).
- The tolerance for a clock ahead of the last reboot changes no decision (`RebootLaws.CooldownExactly`).
- The second rule for a detected restart, from over an hour to under five minutes of uptime, finds nothing that
  the first one misses (`TickLaws.ResetExactly`).

## Model

| member | source | states |
|---|---|---|
| RebootSafety.AllowedExactly | app/reboot_safety.py:42-133 | a reboot is allowed iff no enabled guard objects; the fleet guard objects iff some set of affected miners, other miners counting only from a fresh snapshot, reaches the threshold; the first objection in order is the reason |
| RebootSafety.AllowedBoundsAffectedGroup | app/reboot_safety.py:71-125 | an allowed decision with a fresh snapshot bounds every group of affected miners that includes the evaluated one |
| RebootSafety.StaleSnapshotIsNoIncident | app/reboot_safety.py:65-86 | with a stale or missing snapshot the fleet guard never objects |
| MinerTick.MinerState.Tick | app/miner_monitor.py:3933-4362 | the object after one tick, its signal and its decision are those of the tick function |
| MinerTick.MinerState.ReadUptime | app/miner_monitor.py:3933-3943 | a detected restart stores the uptime and clears the LOW timer |
| MinerTick.MinerState.UpdateHealth | app/miner_monitor.py:3945-3984 | streaks, confirmed state and LOW timer after a reading |
| MinerTick.MinerState.PruneWindow | app/miner_monitor.py:4092-4094 | only the reboot times inside the window stay, in order |
| MinerTick.MinerState.Guard | app/miner_monitor.py:4162-4362 | the guard chain's decision and its effects on the miner |
| MinerTick.MinerState.RecordManual | app/miner_monitor.py:3508-3512 | a manual action is put on record and clears the LOW timer |
| Fleet.Monitor.constructor | app/miner_monitor.py:1817-1876 | a started process holds what loading the state file gives: no LOW streaks or timers, nothing from a stale file |
| Fleet.Monitor.TickAll | app/miner_monitor.py:3881-3887 | every configured miner gets the outcome it would get alone on the snapshot of the previous tick, whatever its place in the loop |
| Fleet.Monitor.Tick | app/miner_monitor.py:3857-4526 | a tick replaces miners, signals, snapshot time and, when the write succeeds, the state file, and nothing else |
| Fleet.Monitor.WriteState | app/miner_monitor.py:1879-1910 | a successful write holds every miner as it is; a failed one leaves the old file |
| Fleet.Monitor.RecordManual | app/miner_monitor.py:3508-3513 | a manual action changes its miner only, and the state file only when written |
| RebootLaws.TimerIsEvidence | app/miner_monitor.py:3979-4241 | a LOW timer that runs after a tick means confirmed LOW on an eligible reading, starts over on a restart or firmware transition, and never survives a reboot |
| RebootLaws.IssuedExactly | app/miner_monitor.py:4091-4362 | a tick hands a reboot command to the CLI iff all guards let it through; it counts as a reboot iff the CLI also accepts |
| RebootLaws.CooldownExactly | app/miner_monitor.py:4263-4297 | the cooldown blocks iff some recorded action is less than the cooldown old; the skew tolerance makes no difference |
| RebootLaws.RebootAfterCooldown | app/miner_monitor.py:4263-4297 | a reboot comes at least one cooldown after the last automatic and the last manual action, also when the clock stepped back |
| RebootLaws.TickRecordsReboots | app/miner_monitor.py:4359-4362 | the reboot records grow exactly when a reboot succeeds, and only below the window limit |
| RebootLaws.RunKeepsTimersInSnapshot | app/miner_monitor.py:4162-4183 | in every run only miners that the last tick saw as eligible have a running LOW timer |
| RebootLaws.FleetCap | app/reboot_safety.py:78-125 | with the fleet guard on and a fresh snapshot, no tick of any run hands out as many reboot commands as the fleet threshold |
| RebootLaws.CapBrokenIff | app/miner_monitor.py:4091-4362 | in every reachable world and at every time some readings make the next tick hand out as many commands as the fleet threshold iff the snapshot is not fresh and that many miners are ready |
| RebootLaws.ReadyIsIssued | app/miner_monitor.py:4162-4362 | without a fresh snapshot a ready miner that reads low once more is handed to the CLI |
| RebootLaws.CapNeedsFreshSnapshot | app/reboot_safety.py:71-86 | a reachable instance of the failing half: for any two miners a run of two ticks that reboots both in one tick |
| RebootLaws.TimerHasEvidence | app/miner_monitor.py:3979-3984 | a running LOW timer shows the time of a tick since which the evidence of LOW was never contradicted or restarted |
| RebootLaws.IssuedMeansSustained | app/miner_monitor.py:4196-4207 | a command issued at t rests on a tick at or before t minus the sustained period, in the same process, with unbroken evidence since |
| RebootLaws.EarlyExitHidesNoChange | app/miner_monitor.py:4297-4341 | the loop skips the rest of a miner's tick only while the miner was LOW, stays LOW and did not restart |
| TickLaws.HealthExactly | app/miner_monitor.py:3945-3973 | for each of the four states, a tick leaves the miner in it iff its rule applies to the reading and the streaks before, or no rule applies and it was in it: OFFLINE on enough silence, HASHBOARD on an answer with a board missing, then LOW or OK on enough such rates |
| TickLaws.StreaksExactly | app/miner_monitor.py:3945-3984 | each streak after a tick from the reading, the streak before and the state after; the stored uptime is the last one read |
| TickLaws.StateFollowsReading | app/miner_monitor.py:3962-3973 | in every run a miner becomes HASHBOARD only on a reading with fewer boards than expected, OFFLINE only on silence, LOW only on a rate below the threshold with all boards there, OK only on one at or above it |
| TickLaws.ResetExactly | app/miner_monitor.py:3933-3943 | a restart is detected iff the uptime fell by more than 600 s; the second rule adds nothing |
| TickLaws.RecentExactly | app/miner_monitor.py:4092-4094 | pruning keeps each time of the window as often as it was there, and nothing else |
| TickLaws.InterlockExactly | app/reboot_safety.py:42-133 | the objection to a reboot from the reading and the last snapshot: too hot, else in transition, else some group as large as configured of miners that did not show a good rate |
| TickLaws.TickExactly | app/miner_monitor.py:4091-4362 | every decision of a tick, its effect on the LOW timer, on the records and on the degraded mark, and the signal, from the miner before, the reading and the snapshot |
| TickLaws.IssuedIff | app/miner_monitor.py:4162-4362 | a tick hands a reboot command to the CLI iff the miner is LOW for long enough on a finite rate below the threshold, the process is past its guard, it is not too hot, in transition or in a fleet incident, every recorded action is a cooldown old, the window has room and actions are allowed |
| TickLaws.IssuedOnlyWhenSafe | app/reboot_safety.py:42-133 | in no run is a command issued on a reading with a temperature at or above the limit, or with a whole positive number of transitions, while the guard is on, nor without a finite rate below the threshold |
| TickLaws.SnapshotIsLastTick | app/miner_monitor.py:4525-4526 | at every point of a run the snapshot shows the readings of the last tick of the process and the time it ended |
| TickLaws.IssuedIsNoIncident | app/reboot_safety.py:65-125 | in every run, while the snapshot of the last tick is fresh, a command is issued only if this miner and those without a good rate in that tick are fewer than the threshold |
| TickLaws.RestartRestoresLastWrite | app/miner_monitor.py:1817-1910 | in every run a restarted process knows each miner as it was after the last successful write, but for LOW streak and timer, and none if that lies more than 48 h back |
| TickLaws.ManualHoldsOff | app/miner_monitor.py:4263-4297 | in every run a manual action holds automatic reboots of its miner off for one cooldown, for any clock |
| RebootRate.SavedTicksAreNotDirty | app/miner_monitor.py:1879-1910 | when every tick's write succeeds the file never lacks a reboot |
| RebootRate.RebootsAreSpaced | app/miner_monitor.py:4279-4297 | as long as no restart loses a reboot of the miner (not on file yet, or on a file that is dropped), its automatic reboots are a cooldown apart, however the clock steps and whatever writes fail |
| RebootRate.RebootsAreSpacedAcrossStaleFiles | app/miner_monitor.py:1822-1827 | the same when files are dropped as stale, for a clock that never steps back and a cooldown at least a second shorter than 48 hours |
| RebootRate.RunKeepsWindowInvariant | app/miner_monitor.py:4298-4323 | the process never counts fewer reboots in a window than have happened, nor does the file whenever it is not behind |
| RebootRate.StaleLogIsOver | app/miner_monitor.py:1822-1827 | when a state file is dropped as stale, every reboot it remembered has left the window |
| RebootRate.RebootsPerWindow | app/miner_monitor.py:4092-4323 | with a clock that never steps back every closed window holds at most max_reboots_per_window automatic reboots of a miner, as long as no restart loses one: it is on file, and the file is not dropped or the window at least a second shorter than 48 hours |
| RebootRate.OneProcessIsLimited | app/miner_monitor.py:4092-4323 | while nothing restarts, the cooldown holds for any clock and the window limit for one that never steps back, for any window and with every write failing |
| RebootLimits.RunKeepsMarks | app/miner_monitor.py:3979-4362 | in every run successive reboots by one process are at least the sustained period and the cooldown apart, those of different processes at least the sustained period and the start-up guard, and each process keeps the window limit |
| RebootLimits.ExcessTakesTime | app/miner_monitor.py:4092-4323 | one reboot more than the limit needs a restart in between, and so a least time |
| RebootExcess.RebootsAfterRestart | app/miner_monitor.py:1852-1862 | a process that starts on a file without the reboot repeats it after its delays |
| RebootExcess.CrowdedRun | app/miner_monitor.py:1906-1910 | for every configuration a run with one reboot more than the limit in exactly that least time |
| RebootExcess.LimitHoldsIff | app/miner_monitor.py:1817-1910 | over all runs with a clock that never steps back, whatever writes fail and processes restart, the window limit holds iff no reboot is possible at all or the window is shorter than that least time |
| RebootExcess.SpacingHoldsIff | app/miner_monitor.py:1817-1910 | over all such runs reboots are a cooldown apart iff no reboot is possible at all or the cooldown is at most the delay of a fresh process |
| Hysteresis.LowReachableIff | app/miner_monitor.py:3945-3984 | from a clean start some run confirms LOW iff fails_before_alert is at most one |
| Hysteresis.NoRebootFromCleanStart | app/miner_monitor.py:4162-4167 | from a clean start with larger values the automatic reboot is never evaluated |
| Hysteresis.OfflineOnlyThroughHashboard | app/miner_monitor.py:3964-3977 | from a clean start with larger values a miner is OFFLINE only after it was HASHBOARD |
| Hysteresis.OfflineReachableIff | app/miner_monitor.py:3945-3984 | from a clean start some run confirms OFFLINE without ever confirming HASHBOARD iff fails_before_alert is at most one |
| Hysteresis.OfflineThroughHashboard | app/miner_monitor.py:3945-3984 | for every fails_before_alert, a missing board and then that many ticks of silence confirm OFFLINE |
| Hysteresis.OkStreakCountsGoodReads | app/miner_monitor.py:3945-3960 | in every run the OK streak, in memory and in the file, counts consecutive readings that are not below the threshold, across restarts |
| Hysteresis.RecoveryNeedsGoodReads | app/miner_monitor.py:3970-3971 | a miner that becomes OK in any run gave recovery_successes such readings in a row, the last at or above the threshold; all are at or above it iff none is NaN |
| Hysteresis.NaNsRecover | app/miner_monitor.py:3953-3971 | for every recovery_successes of two or more, a run in which a LOW miner recovers on NaN readings and one good one |
| Hysteresis.RecoveryRuleIff | app/miner_monitor.py:3945-3971 | in every run all readings of every recovery are at or above the threshold iff recovery_successes is at most one |
| Confirmation.SingleActionWasRequested | app/miner_monitor.py:3446-3495 | every single action matches a request for the same miner, kind and code of the last 60 s, neither replaced nor used up |
| Confirmation.SingleActionsAreSpaced | app/miner_monitor.py:3261-3286 | two single actions on one miner, the first successful, are at least 600 s apart |
| Confirmation.BulkRunsOncePerPreview | app/miner_monitor.py:2880-2946 | a bulk reboot stems from a preview of the same chat and code of the last 60 s that has not run, and names at most five miners |
| Confirmation.BulkHitsOnlyLowIff | app/miner_monitor.py:2807-2817 | whatever lower-casing and stripping do, bulk reboots touch only miners that were LOW at preview iff no display name resolves to another miner |
| Confirmation.ConfirmationDesk.RequestAction | app/miner_monitor.py:3261-3286 | a request is refused exactly during the manual cooldown and otherwise replaces the miner's pending action |
| Confirmation.ConfirmationDesk.ConfirmAction | app/miner_monitor.py:3446-3515 | a confirmation runs iff it is current and names code and kind; only a successful action is stamped and used up |
| Confirmation.ConfirmationDesk.PreviewBulk | app/miner_monitor.py:2807-2853 | the preview lists the first LOW miners in configured order and is stored unless it is empty |
| Confirmation.ConfirmationDesk.ConfirmBulkReboot | app/miner_monitor.py:3349-3408 | a valid code runs the stored targets in order and uses the preview up; an expired one only removes it |
| Confirmation.ConfirmationDesk.RebootTargets | app/miner_monitor.py:2948-2972 | each target that resolves goes to the CLI, and accepted ones are stamped if the miner has state |
| ConfirmationLaws.RequestExactly | app/miner_monitor.py:3261-3286 | at any point of a run a request is refused iff the recorded manual action lies under 600 s back, and otherwise waits 60 s for its code |
| ConfirmationLaws.SingleRunsIff | app/miner_monitor.py:3446-3515 | in every run a confirmation acts iff a request for the same miner, kind and code is open and at most 60 s old; an accepted action is recorded and uses the request up, a failed one changes nothing |
| ConfirmationLaws.BulkRunsIff | app/miner_monitor.py:2880-2946 | in every run a bulk confirmation acts iff a preview of the chat with the same code is open and at most 60 s old, and on the names of that preview |
| ConfirmationLaws.TargetsExactly | app/miner_monitor.py:2807-2817 | the preview names the first five LOW miners in configured order, or all when there are fewer |
| ConfirmationLaws.DisplayNameExactly | app/miner_monitor.py:1357-1360 | the display name is what follows the last dash, or the whole name without one |
| ConfirmationLaws.ResolveExactly | app/miner_monitor.py:1371-1378 | a token resolves to the first configured miner whose name or display name it is, and to nobody iff there is none |
| ConfirmationLaws.RebootedInOrder | app/miner_monitor.py:2947-2954 | a bulk confirmation works through its names in order |
| ConfirmationLaws.BulkActsExactly | app/miner_monitor.py:2947-2970 | a bulk confirmation hands exactly the miners its names stand for to the CLI, and stamps exactly those whose command was accepted and that have state |
| AlertEpisodes.ConfiguredIsValid | app/alert_episodes.py:139-156 | any configuration yields a strictly ascending schedule of exactly the configured ages, raised to one second, and bounds in range |
| AlertEpisodes.AdvanceMissed | app/alert_episodes.py:346-351 | skips all and only the scheduled ages already passed |
| EpisodeCoordinator.IrregularEpisode.AddStep | app/alert_episodes.py:90-112 | the step is merged or appended, then the history is cut to the first step and the last ones |
| EpisodeCoordinator.IrregularEpisode.Sight | app/alert_episodes.py:263-333 | an observation's effect on an episode the coordinator holds |
| EpisodeCoordinator.IrregularEpisode.PopOne | app/alert_episodes.py:411-443 | one active episode in a pop: what is listed and how its schedule moves |
| EpisodeCoordinator.Coordinator.constructor | app/alert_episodes.py:131-156 | the coordinator starts empty on normalized settings |
| EpisodeCoordinator.Coordinator.Observe | app/alert_episodes.py:225-336 | the observed miner's episode is opened, changed or closed; every other episode stays as it is |
| EpisodeCoordinator.Coordinator.AcknowledgeActiveInitials | app/alert_episodes.py:338-340 | all active episodes, and nothing else, count as announced |
| EpisodeCoordinator.Coordinator.SplitRecovered | app/alert_episodes.py:379-389 | the recovered list is split by due time, both halves in order |
| EpisodeCoordinator.Coordinator.PopDue | app/alert_episodes.py:370-452 | a pop returns the specified batch and leaves the specified board |
| EpisodeLaws.BoundedRefinesFull | app/alert_episodes.py:90-112 | after any steps and tags the bounded history is the first step and the last ones of the log that drops nothing |
| EpisodeLaws.FirstStepStays | app/alert_episodes.py:106-112 | kind and caption of the first step never change |
| EpisodeLaws.LogHasNoRepeats | app/alert_episodes.py:90-108 | no step of the log repeats the one before it; an added step ends the log, in place of the last one iff it repeats that |
| SightingLaws.SightingExactly | app/alert_episodes.py:241-336 | in every run an observation leaves its miner with an active episode iff it is not OK, opens one iff there was none and the miner is not OK or restarted, hands it over when it is OK, and touches no other |
| SightingLaws.SightedEpisodeIs | app/alert_episodes.py:263-336 | every field but the history of the observed episode: what goes on, when an update is due after a restart, and when a closed one is due |
| SightingLaws.HistoryShowsSighting | app/alert_episodes.py:263-327 | the history ends with the observed state, and grows by where the miner came from, its restart and its state, in this order, cut to the first step and the last ones |
| SightingLaws.AcknowledgedExactly | app/alert_episodes.py:338-340 | an acknowledgement marks all active episodes as announced and does nothing else |
| EpisodeLaws.SelectSplits | app/alert_episodes.py:379-389 | a flush neither loses nor doubles an episode |
| EpisodeLaws.EpisodesAreConserved | app/alert_episodes.py:225-452 | in every run each opened episode is in exactly one of active, awaiting delivery and delivered, once |
| EpisodeLaws.RunsAreOnTime | app/alert_episodes.py:328-336 | with a clock that never steps back, closed <= recovery_due <= closed + coalesce |
| EpisodeLaws.PopFlushesWhatIsDue | app/alert_episodes.py:374-389 | a pop that delivers any recovered episode delivers all, and none closed a coalescing time ago stays |
| EpisodeLaws.PopListsWhatIsDue | app/alert_episodes.py:391-443 | the first pop one coalescing time after the start announces an episode; due reminders are listed, none more than coalesce early; never both |
| SightingLaws.PopExactly | app/alert_episodes.py:391-443 | in every run: when exactly a pop announces an active episode and when it reminds of it, and how far its schedule moves |
| SightingLaws.DeliveredExactly | app/alert_episodes.py:374-389 | a pop delivers something iff some closed episode is due, and then exactly those due within the coalescing time |
| ReminderBudget.ActiveRemindersAreBudgeted | app/alert_episodes.py:353-443 | an active episode of age a was reminded of at most once per scheduled age up to a + coalesce and once per whole repeat beyond the last |
| ReminderBudget.ClosedRemindersAreBudgeted | app/alert_episodes.py:353-443 | the same for a closed episode that awaits delivery, by its age when it closed |
| ReminderBudget.DeliveredRemindersAreBudgeted | app/alert_episodes.py:353-443 | the same for every delivered episode: nothing is listed after delivery |
| ReminderBudget.PopStaysWithin | app/alert_episodes.py:411-443 | each listing uses up one scheduled age or one repeat that a + coalesce has reached |
| HistoryRefinement.BoundCostsHistoryOnly | app/alert_episodes.py:110-112 | over whole runs a smaller history bound gives the same coordinator with each history cut |
| HistoryRefinement.BoundChangesNoNotice | app/alert_episodes.py:370-452 | and the same announcements, reminders and deliveries at every pop |
| Leases.InFlightRegistry.Acquire | app/acquisition.py:350-373 | a lease with a new number for a free miner, none for an owned one |
| Leases.InFlightRegistry.Release | app/acquisition.py:375-382 | removes the lease iff the registry holds that very lease |
| Leases.RegistryIsExact | app/acquisition.py:626-678 | under every interleaving the registry holds exactly the leases not yet given back, each other lease was given back once, and before the close none is abandoned |
| Leases.OneRequestPerMiner | app/acquisition.py:626-645 | no miner ever has two requests in flight, of either authority |
| Leases.StaleReleaseIsIgnored | app/acquisition.py:375-382 | releasing a lease again removes nothing, also when the miner has a new owner |
| Leases.LeaseIdsAreNotReused | app/acquisition.py:362-372 | a lease number names the same lease for ever, and a released lease stays released |
| Leases.AcquireSucceedsIff | app/acquisition.py:358-386 | a miner is free, and a request for it granted, iff all its earlier requests have given their lease back |
| Collection.RunIsTrustworthy | app/acquisition.py:696-734 | good quality means completed by the deadline; at most one summary and then one stats request, stats only after a valid summary and never in a diagnostic round; the envelope counts them right |
| Collection.ValidExactly | app/acquisition.py:707-906 | a sample is VALID iff all its answers came in time and carry a finite rate and, where wanted, a board count |
| Collection.SampleIsFromReplies | app/acquisition.py:955-1011 | the rate of a sample is the first finite one of GHS 5s, GHS av, MHS 5s, MHS av in TH/s; its boards are the first count among the stats entries; its uptime is the summary's |
| Collection.GradeIsFromReplies | app/acquisition.py:696-952 | quality, reason, completion time and latency of a sample from its replies and the deadline; stats are asked for iff a summary with a rate came in time and the round wants them |
| Collection.EveryEnvelopeIsTrustworthy | app/acquisition.py:626-692 | the same for every envelope of a collection; an overlap is reported as such, an unfinished request as LATE at the deadline |
| Collection.EnvelopeWithoutReply | app/acquisition.py:633-692 | what an overlap, a crashed worker and an unfinished request report, and how many requests they count |
| Collection.BoundedAcquirer.AcquireOne | app/acquisition.py:696-738 | a worker run yields its envelope and gives its lease back whatever happened |
| Collection.BoundedAcquirer.SubmitAll | app/acquisition.py:623-653 | miners without an owner get a lease, the others an overlap envelope |
| Collection.BoundedAcquirer.Settle | app/acquisition.py:655-692 | in whatever order requests finish, each gets its envelope and only running ones keep their lease |
| Collection.BoundedAcquirer.Collect | app/acquisition.py:607-694 | one envelope per miner in configured order, or a refusal that changes nothing; afterwards exactly the requests still running hold new leases |
| Collection.BoundedAcquirer.Close | app/acquisition.py:564-568 | after the close this acquirer has no request in flight, its leases and no others are given back, and a second close changes nothing |
| Collection.DispatchAuthoritative | app/acquisition.py:1014-1026 | the consumer gets exactly the filtered samples in order, and the count is theirs |
| Collection.AppliedExactly | app/acquisition.py:1014-1026 | a sample is handed on iff it is in the list, authoritative and not late, as often as it occurs |
| Collection.AppliedInOrder | app/acquisition.py:1014-1026 | samples are handed on in the order of the list |
| Collection.RoundHandsOn | app/acquisition.py:1014-1026 | a diagnostic round hands on nothing, and a good sample handed on is from before the deadline |
| Retention.KeepByForgets | tools/event_store_backup.py:93-108 | for one kind of bucket, records already pruned can be forgotten |
| Retention.KeepForgets | tools/event_store_backup.py:78-114 | keep(K + B) = keep(A + B) for every K between keep(A) and A |
| Retention.KeepIsIdempotent | tools/event_store_backup.py:78-114 | pruning twice is pruning once |
| Retention.KeptExactly | tools/event_store_backup.py:78-114 | a record is kept iff it is the newest of its day, week or month and fewer newer days, weeks or months exist than the quota for them |
| Retention.RepeatedPruningIsOnePass | tools/event_store_backup.py:381-396 | pruning after each batch, with any failed deletions, keeps what one pass over the whole history keeps |
| Retention.KeepByCount | tools/event_store_backup.py:103-108 | each kind keeps as many records as it has buckets, up to its quota |
| Retention.KeepCount | tools/event_store_backup.py:110-114 | the policy keeps at most the sum of its quotas |
| Retention.FillBuckets | tools/event_store_backup.py:89-108 | the greedy loop fills the three dictionaries with the kept records' ids |
| Retention.SelectGenerations | tools/event_store_backup.py:78-114 | kept and deleted ids partition the input and the kept ones are within the quotas; with distinct times they are those of keep |
| Retention.BackupRoot.ApplyRetention | tools/event_store_backup.py:369-396 | nothing is added or changed, what cannot be removed stays, and the rest is within the quotas; with distinct times the store holds the kept backups and those whose removal failed; a dry run changes nothing |
| StabilityBand.MedianHalves | app/stability_profile.py:131-136 | at most half of the values lie strictly on either side of the median |
| StabilityBand.MedianBreakdown | app/stability_profile.py:135-136 | changing fewer than half of the values leaves the median between two untouched ones |
| StabilityBand.MedianExactly | app/stability_profile.py:135 | the median is the middle value, or the mean of the two middle ones, of any sorting of the values |
| StabilityBand.RoundIsNearest | app/stability_profile.py:146-149 | four digits: the nearest multiple of 0.0001, the even one of two |
| StabilityBand.BandExactly | app/stability_profile.py:130-150 | the band is the median plus and minus the widest of a share of it, 4.4478 median deviations and a fixed distance of the metric, all rounded |
| StabilityBand.HalfTheBaselineIsInside | app/stability_profile.py:131-150 | the rounded band holds at least half of the values it came from |
| MessageSplit.PreferredCut | app/telegram_messages.py:62-67 | the cut follows the last usable blank line, else line break, else space, else it is hard, and exceeds the limit by at most one |
| MessageSplit.CutPieces | app/telegram_messages.py:44-53 | the loop ends with at least two non-empty pieces that join to the text, each ending at the preferred cut of what was left |
| MessageSplit.Split | app/telegram_messages.py:31-59 | numbered parts whose payloads join to the text and end at the preferred cuts; under 10^11 characters every part fits the limit; too small a limit is refused |
| DeliveryQueue.QueueIsBounded | app/miner_monitor.py:1021-1035 | in every interleaving the queue stays within its bound |
| DeliveryQueue.SendExactly | app/miner_monitor.py:1014-1060 | in every interleaving a message that fits is queued part by part; on a full queue a reply is sent directly, any other message is dropped, and the queue stays as it is |
| DeliveryQueue.MessagesStayWhole | app/miner_monitor.py:1040-1060 | the parts of a message are accepted together, adjacent and in order |
| DeliveryQueue.SkippedForANewerOne | app/miner_monitor.py:1170-1179 | an entry is coalesced only for a strictly newer one of its type that still waits; the newest never is; parts and replies never are |
| DeliveryQueue.CoalescedExactly | app/miner_monitor.py:1170-1179 | an entry is coalesced iff it is whole, no reply, and the newest waiting entry of its type is younger by at most 5 s, or 35 s for a state change |
| DeliveryQueue.DuplicateExactly | app/miner_monitor.py:1180-1195 | an entry is dropped as a duplicate iff it is whole, no reply, not superseded, and has the digest of the last answered post of its type, judged under 60 s ago unless it is a state change |
| DeliveryQueue.DuplicateWasDeliveredIff | app/miner_monitor.py:1235-1259 | what a dropped duplicate repeats is the last answered post of its type, and that was delivered iff it was answered with 200 |
| DeliveryQueue.RefusedIsDropped | app/miner_monitor.py:1235-1259 | for any text: refused once, the same state change is dropped the next time although nothing was delivered |
| DeliveryQueue.DropsOnlyWhatWasSeenIff | app/miner_monitor.py:1180-1259 | in every run duplicates repeat something the operator received iff the service never answers with an error status |
| DeliveryQueue.Outbox.Enqueue | app/miner_monitor.py:1014-1060 | all parts or none are queued; a full queue drops the message or sends a reply directly |
| DeliveryQueue.Outbox.TakeNext | app/miner_monitor.py:1146-1150 | the sender takes the oldest entry |
| DeliveryQueue.Outbox.SettleHeld | app/miner_monitor.py:1170-1271 | the entry in hand is judged once, and every answered post, whatever its status, is remembered for duplicates |
| Watchdog.HealthyExactly | app/liveness.py:116-188 | healthy iff running, alive, and a heartbeat with nothing stale and nothing in the future |
| Watchdog.CausesExactly | app/liveness.py:116-188 | each cause is found iff its condition holds, and the findings are suppressed iff there are any and a lease is in force |
| Watchdog.ScheduleIsUsable | tools/monitor_watchdog.py:257-268 | the schedule is ascending, never empty, and holds exactly the configured delays within bounds, or 300, 900 and 3600 s |
| Watchdog.WholeAfterCheckIff | tools/monitor_watchdog.py:107-140 | a check keeps what the operator has seen whole and in agreement with the file iff it does not notify, or it writes only on the basis of a readable file or of no open incident, and any notice that gets through is confirmed and written |
| Watchdog.IncidentsAreWholeIff | app/liveness.py:191-312 | at every point of a run the operator has seen whole incidents, at most one unfinished and as long as the file counts, iff every check kept its books so; lost confirmations, failed writes and lost files included |
| Watchdog.DeliveredIsWellFormed | app/liveness.py:191-234 | so in a run that keeps its books, however many sends fail, the notices split into finished incidents and one unfinished tail |
| Watchdog.UnrecordedOpensTwice | tools/monitor_watchdog.py:129-139 | an opening that gets through without being confirmed, or without being written, is delivered again, and the incidents are not whole |
| Watchdog.ReminderKeepsDistance | app/liveness.py:224-233 | in a run that keeps its books a delivered reminder follows the previous delivered notice by at least the scheduled delay |
| Watchdog.ReminderComes | app/liveness.py:224-234 | in a run that keeps its books, a check that gets through on unchanged causes delivers a reminder iff that delay has passed |
| Watchdog.StallIsReported | app/liveness.py:169-234 | after every check of a stalled monitor that gets through and writes, the incident on file is open with the stall among its causes; it opens one if there was none, and is quiet only if all that was on file |
| Watchdog.LeaseSilences | app/liveness.py:177-199 | after any run, while a lease is in force a check that finds anything delivers nothing, and the file goes on holding what was loaded |
| Watchdog.CheckExactly | app/liveness.py:191-234 | a check at any point of a run: which notice it delivers and what the file holds afterwards, from its findings and the incident it could read |
| Watchdog.IncidentFile.Run | tools/monitor_watchdog.py:107-140 | one run loads, decides, sends and writes as specified, with an unreadable file read as no incident and a failed write leaving the old file |

## Left out

- Sockets, HTTP, subprocesses, logging, metrics, dashboards, inventory, text of notices: input or display only.
- Floating-point rounding: times, rates and temperatures are real numbers; NaN and the infinities are kept for rates, temperatures and counts.
- Data races between the poller thread and the unlocked main loop: ticks and commands are atomic here.
- Malformed content of the monitor's state file: loading such a file is the same as having none. The watchdog's file is read as it was last written, or not at all.
- Fields that only feed notifications (pending-reboot marks, last seen, hourly status) and the persisted update id.
- QA overrides of readings; the QA block on actions is kept as a setting.
- How temperatures, board counts and transition counts are read out of the miners' replies.
- The main loop reads envelopes directly and does not use `dispatch_authoritative`, so nothing here says that late samples are kept from it.
- Normalization of message text (Unicode form, trailing blanks): the splitter starts from normalized text.
- Chat authorization and parsing of commands; the single-reboot path addresses a miner that is already resolved.
- Display order inside a notification batch, display names, event ids and rates kept in an episode.
- Calendar arithmetic of buckets and parsing of timestamps: a record carries its three bucket keys.
- Retention.SelectGenerations: with equal completion times it states the partition only, because the choice then follows the order of the directory listing.
- RebootLaws.FleetCap: assumes that the snapshot of the previous tick is fresh; `RebootLaws.CapBrokenIff` says exactly when the cap can be broken otherwise.
- TickLaws.IssuedIsNoIncident: assumes a fresh snapshot; without one the fleet guard sees one miner only (`RebootSafety.StaleSnapshotIsNoIncident`).
- SightingLaws.HistoryShowsSighting: gives the steps exactly when no caption repeats the one before; `EpisodeLaws.LogHasNoRepeats` says what becomes of repeated ones.
- RebootRate.RebootsAreSpaced: assumes that no restart loses a reboot; `RebootExcess.SpacingHoldsIff` says when nothing need be assumed.
- RebootRate.RebootsAreSpacedAcrossStaleFiles: the same, for reboots less than a cooldown old.
- Watchdog.ReminderKeepsDistance: assumes that every check before kept its books; a notice delivered but not confirmed or not written is unknown to the next check.
- Watchdog.ReminderComes: the same, and a readable file.
- RebootRate.RebootsPerWindow: assumes that no restart loses a reboot that is within the window; `RebootExcess.LimitHoldsIff` says when nothing need be assumed. The whole-second time stamp of the file accounts for the one second by which the window must be shorter than 48 hours.
- Fleet.Monitor.TickAll: assumes that the configured miners differ in name, host or port; the program does not remove repeated entries and would visit such a miner twice in a tick.
- Fleet.Monitor.Tick: the same.
- A reboot counts when the action CLI reports success; one that happens although the CLI reports a failure is not known to the program and not counted here.
- Confirmation.SingleActionsAreSpaced: needs the miner to have a state object, because only there is a manual action recorded.
- Collection.BoundedAcquirer.Collect: runs alone on the registry; other collectors and late workers are covered by the interleavings in `Leases`.
- Collection.BoundedAcquirer.Close: the acquirer is idle otherwise, so no request is queued when it closes; `Leases` covers the others.
- Leases.RegistryIsExact: after the close, abandoned and never submitted requests keep their leases, as in the program.
- `EpochScheduler`, `PollHealth`, configuration parsing, `classify_delivery`, evidence fusion, mining quality and restart classification: short tables and counters.
- The event store itself, whose behaviour lives in SQLite.
- SHA-256: the sender's digest is an arbitrary function of the text.
