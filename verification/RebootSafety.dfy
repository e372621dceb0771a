/** The interlocks consulted before an automatic reboot (app/reboot_safety.py). */
module RebootSafety {
  import opened Common

  /** Identity of a miner; the program joins the three parts into one string. */
  datatype Key = Key(name: string, host: string, port: int)

  datatype Signal = Eligible | InvalidSignal | NotLow

  datatype Reason = HighTemperature | FirmwareTransition | FleetIncident

  datatype GuardConfig = GuardConfig(
    thermalGuard: bool,
    thermalLimit: Number,
    fleetGuard: bool,
    fleetMinAffected: int,
    firmwareGuard: bool,
    snapshotMaxAge: Number)

  /** `reason` is None exactly when the action is allowed. */
  datatype InterlockDecision = InterlockDecision(
    reason: Option<Reason>,
    affected: set<Key>,
    maxTemp: Option<real>,
    snapshotAge: Option<real>,
    transitioning: Option<nat>)
  {
    predicate Allowed() {
      reason.None?
    }
  }

  predicate Affects(s: Signal) {
    s.Eligible? || s.InvalidSignal?
  }

  function NonNegativeInteger(n: Number): Option<nat> {
    if n.Finite? && n.value >= 0.0 && n.value.Floor as real == n.value
    then Some(n.value.Floor)
    else None
  }

  function SnapshotAge(observedAt: Number, now: Number): Option<real> {
    if observedAt.Finite? && now.Finite? then Some(MaxReal(0.0, now.value - observedAt.value)) else None
  }

  predicate SnapshotFresh(age: Option<real>, maxAge: Number) {
    age.Some? && maxAge.Finite? && maxAge.value > 0.0 && age.value <= maxAge.value
  }

  function AffectedKeys(signals: map<Key, Signal>): set<Key> {
    set k | k in signals && Affects(signals[k])
  }

  /** The number of affected miners from which a reboot counts as a fleet incident; never below two. */
  function FleetThreshold(g: GuardConfig): int {
    MaxInt(2, g.fleetMinAffected)
  }

  function EvaluateInterlocks(g: GuardConfig, key: Key, signal: Signal, previous: map<Key, Signal>,
                              observedAt: Number, now: Number, maxTemp: Number, transitioning: Number)
    : (d: InterlockDecision)
  {
    var limit := if g.thermalLimit.Finite? then g.thermalLimit.value else 85.0;
    var age := SnapshotAge(observedAt, now);
    var latest := (if SnapshotFresh(age, g.snapshotMaxAge) then previous else map[])[key := signal];
    var affected := AffectedKeys(latest);
    var count := NonNegativeInteger(transitioning);
    var reason :=
      if g.thermalGuard && maxTemp.Finite? && maxTemp.value >= limit then Some(HighTemperature)
      else if g.firmwareGuard && count.Some? && count.value > 0 then Some(FirmwareTransition)
      else if g.fleetGuard && |affected| >= FleetThreshold(g) then Some(FleetIncident)
      else None;
    InterlockDecision(reason, affected, FiniteOrNone(maxTemp), age, count)
  }

  /** Miner k counts as affected: it is the evaluated one, or a fresh snapshot says so. */
  predicate CountsAsAffected(g: GuardConfig, key: Key, signal: Signal, previous: map<Key, Signal>,
                             observedAt: Number, now: Number, k: Key)
  {
    if k == key then Affects(signal)
    else SnapshotFresh(SnapshotAge(observedAt, now), g.snapshotMaxAge) && k in previous && Affects(previous[k])
  }

  predicate TooHot(g: GuardConfig, maxTemp: Number) {
    AtLeast(maxTemp, if g.thermalLimit.Finite? then g.thermalLimit.value else 85.0) && maxTemp.Finite?
  }

  predicate PositiveWhole(n: Number) {
    n.Finite? && n.value >= 1.0 && n.value == n.value.Floor as real
  }

  /** A reboot is allowed exactly when no enabled guard objects: no overheating (no reading is no
      objection), no whole positive number of firmware transitions, and no group of affected miners as
      large as the threshold. The first objection in that order is the one reported. */
  lemma AllowedExactly(g: GuardConfig, key: Key, signal: Signal, previous: map<Key, Signal>, observedAt: Number,
                       now: Number, maxTemp: Number, transitioning: Number)
    ensures
      var d := EvaluateInterlocks(g, key, signal, previous, observedAt, now, maxTemp, transitioning);
      var hot := g.thermalGuard && TooHot(g, maxTemp);
      var moving := g.firmwareGuard && PositiveWhole(transitioning);
      var spread := g.fleetGuard && exists group: set<Key> ::
        |group| >= FleetThreshold(g) &&
        forall k :: k in group ==> CountsAsAffected(g, key, signal, previous, observedAt, now, k);
      (d.Allowed() <==> !hot && !moving && !spread) &&
      (d.reason == Some(HighTemperature) <==> hot) &&
      (d.reason == Some(FirmwareTransition) <==> moving && !hot) &&
      (d.reason == Some(FleetIncident) <==> spread && !hot && !moving)
  {
    var d := EvaluateInterlocks(g, key, signal, previous, observedAt, now, maxTemp, transitioning);
    TransitionsCount(transitioning);
    forall k ensures k in d.affected <==> CountsAsAffected(g, key, signal, previous, observedAt, now, k) {
    }
    forall group: set<Key> |
      forall k :: k in group ==> CountsAsAffected(g, key, signal, previous, observedAt, now, k)
      ensures |group| <= |d.affected|
    {
      assert group <= d.affected;
      SubsetSize(group, d.affected);
    }
  }

  lemma TransitionsCount(n: Number)
    ensures (NonNegativeInteger(n).Some? && NonNegativeInteger(n).value > 0) <==>
            PositiveWhole(n)
  {
  }

  /** What an allowed decision buys with the fleet guard on: every group of miners that a fresh
      snapshot shows as affected, the evaluated miner included, is smaller than the threshold. */
  lemma AllowedBoundsAffectedGroup(g: GuardConfig, key: Key, signal: Signal, previous: map<Key, Signal>,
                                   observedAt: Number, now: Number, maxTemp: Number, transitioning: Number,
                                   group: set<Key>)
    requires g.fleetGuard
    requires SnapshotFresh(SnapshotAge(observedAt, now), g.snapshotMaxAge)
    requires Affects(signal)
    requires forall k :: k in group ==> k == key || (k in previous && Affects(previous[k]))
    requires EvaluateInterlocks(g, key, signal, previous, observedAt, now, maxTemp, transitioning).Allowed()
    ensures |group| < FleetThreshold(g)
  {
    var affected := AffectedKeys(previous[key := signal]);
    assert group <= affected;
    SubsetSize(group, affected);
  }

  /** Once the snapshot is stale, or there is none, the fleet guard sees the evaluated miner alone and
      never objects. */
  lemma StaleSnapshotIsNoIncident(g: GuardConfig, key: Key, signal: Signal, previous: map<Key, Signal>,
                                  observedAt: Number, now: Number, maxTemp: Number, transitioning: Number)
    requires !SnapshotFresh(SnapshotAge(observedAt, now), g.snapshotMaxAge)
    ensures EvaluateInterlocks(g, key, signal, previous, observedAt, now, maxTemp, transitioning).reason
            != Some(FleetIncident)
  {
    var d := EvaluateInterlocks(g, key, signal, previous, observedAt, now, maxTemp, transitioning);
    assert d.affected <= {key};
    SubsetSize(d.affected, {key});
  }
}
