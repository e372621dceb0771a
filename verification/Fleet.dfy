/** The monitor as a whole: ticks over all miners, manual actions, saved state and restarts. */
module Fleet {
  import opened Common
  import opened RebootSafety
  import opened MinerTick

  /** The state file: a whole-second time stamp and every miner's fields. */
  datatype Saved = Saved(savedAt: int, miners: map<Key, Miner>)

  datatype World = World(
    miners: map<Key, Miner>,
    signals: map<Key, Signal>,
    signalsAt: Option<real>,
    processStart: real,
    disk: Option<Saved>)

  /** What can happen to the monitor. `savedAt` is the clock read while the state file is written;
      None means that the write failed or that this path does not write. A manual action on a miner
      without state is a bare save. */
  datatype Action =
    | FleetTick(now: real, readings: Key -> Reading, endedAt: real, savedAt: Option<real>)
    | ManualAction(key: Key, now: real, savedAt: Option<real>)
    | Restart(now: real)

  const STALE_AFTER := 48 * 3600

  function KeySet(order: seq<Key>): set<Key> {
    set k | k in order
  }

  function MinerAt(miners: map<Key, Miner>, k: Key): Miner {
    if k in miners then miners[k] else FRESH_MINER
  }

  function ObservedAt(w: World): Number {
    if w.signalsAt.Some? then Finite(w.signalsAt.value) else Missing
  }

  function InterlockFor(cfg: Config, w: World, k: Key, r: Reading, now: real): InterlockDecision {
    EvaluateInterlocks(cfg.guards, k, Classify(cfg, r), w.signals, ObservedAt(w), Finite(now),
                       r.maxTemp, r.transitioning)
  }

  /** Miner k's share of a fleet tick. The interlocks see the signals of the previous tick only. */
  function OutcomeFor(cfg: Config, w: World, k: Key, r: Reading, now: real): Outcome {
    TickMiner(cfg, w.processStart, MinerAt(w.miners, k), r, now, InterlockFor(cfg, w, k, r, now))
  }

  /** What one tick makes of every configured miner. */
  function Outcomes(cfg: Config, keys: set<Key>, w: World, now: real, readings: Key -> Reading): map<Key, Outcome> {
    map k | k in keys :: OutcomeFor(cfg, w, k, readings(k), now)
  }

  function TickedMiners(miners: map<Key, Miner>, outs: map<Key, Outcome>): map<Key, Miner> {
    miners + map k | k in outs :: outs[k].miner
  }

  function TickedSignals(outs: map<Key, Outcome>): map<Key, Signal> {
    map k | k in outs :: outs[k].signal
  }

  function Decisions(outs: map<Key, Outcome>): map<Key, Decision> {
    map k | k in outs :: outs[k].decision
  }

  function Write(miners: map<Key, Miner>, savedAt: Option<real>, disk: Option<Saved>): Option<Saved> {
    if savedAt.Some? then Some(Saved(savedAt.value.Floor, miners)) else disk
  }

  /** Loading drops the LOW streak and the LOW timer of every miner, and everything when stale. */
  function Reloaded(m: Miner): Miner {
    m.(lowStreak := 0, lowSince := None)
  }

  predicate Stale(saved: Saved, now: real) {
    now - saved.savedAt as real > STALE_AFTER as real
  }

  function Load(disk: Option<Saved>, now: real): map<Key, Miner> {
    if disk.None? || Stale(disk.value, now) then map[]
    else map k | k in disk.value.miners :: Reloaded(disk.value.miners[k])
  }

  function Step(cfg: Config, keys: set<Key>, w: World, a: Action): World {
    match a
    case FleetTick(now, readings, endedAt, savedAt) =>
      var outs := Outcomes(cfg, keys, w, now, readings);
      var miners := TickedMiners(w.miners, outs);
      World(miners, TickedSignals(outs), Some(endedAt), w.processStart,
            Write(miners, savedAt, w.disk))
    case ManualAction(k, now, savedAt) =>
      var miners := if k in w.miners
                    then w.miners[k := w.miners[k].(lastManual := Some(now), lowSince := None)]
                    else w.miners;
      w.(miners := miners, disk := Write(miners, savedAt, w.disk))
    case Restart(now) =>
      World(Load(w.disk, now), map[], None, now, w.disk)
  }

  /** A process that has just started, from any state file at all. */
  predicate JustStarted(w: World) {
    w.signals == map[] && w.signalsAt.None? && forall k :: k in w.miners ==> w.miners[k].lowSince.None?
  }

  /** The world after the first n actions. */
  function At(cfg: Config, keys: set<Key>, start: World, actions: seq<Action>, n: nat): World
    requires n <= |actions|
  {
    if n == 0 then start else Step(cfg, keys, At(cfg, keys, start, actions, n - 1), actions[n - 1])
  }

  /** What the guard chain decided about miner k in action number n. */
  function DecisionAt(cfg: Config, keys: set<Key>, start: World, actions: seq<Action>, n: nat, k: Key): Decision
    requires n < |actions|
  {
    var a := actions[n];
    if a.FleetTick? && k in keys
    then OutcomeFor(cfg, At(cfg, keys, start, actions, n), k, a.readings(k), a.now).decision
    else NotEvaluated
  }

  /** A miner that the loop has not reached gives what it would have given at the start of the tick. */
  lemma UnreachedMiner(cfg: Config, w: World, mid: World, k: Key, r: Reading, now: real)
    requires mid.signals == w.signals && mid.signalsAt == w.signalsAt && mid.processStart == w.processStart
    requires MinerAt(mid.miners, k) == MinerAt(w.miners, k)
    ensures OutcomeFor(cfg, mid, k, r, now) == OutcomeFor(cfg, w, k, r, now)
  {
    assert InterlockFor(cfg, mid, k, r, now) == InterlockFor(cfg, w, k, r, now);
  }

  /** `outs` holds the outcomes of some of the miners ticked from `w`. */
  ghost predicate PartOfTick(cfg: Config, w: World, now: real, readings: Key -> Reading, outs: map<Key, Outcome>) {
    forall k :: k in outs ==> outs[k] == OutcomeFor(cfg, w, k, readings(k), now)
  }

  lemma TickOneMore(cfg: Config, w: World, now: real, readings: Key -> Reading, outs: map<Key, Outcome>, k: Key,
                    o: Outcome)
    requires PartOfTick(cfg, w, now, readings, outs) && k !in outs
    requires o == OutcomeFor(cfg, w.(miners := TickedMiners(w.miners, outs)), k, readings(k), now)
    ensures PartOfTick(cfg, w, now, readings, outs[k := o])
  {
    hide OutcomeFor;
    UnreachedMiner(cfg, w, w.(miners := TickedMiners(w.miners, outs)), k, readings(k), now);
  }

  lemma OneMoreOutcome(miners: map<Key, Miner>, outs: map<Key, Outcome>, k: Key, o: Outcome)
    ensures TickedMiners(miners, outs[k := o]) == TickedMiners(miners, outs)[k := o.miner]
    ensures TickedSignals(outs[k := o]) == TickedSignals(outs)[k := o.signal]
    ensures Decisions(outs[k := o]) == Decisions(outs)[k := o.decision]
  {
    hide TickedMiners, TickedSignals, Decisions;
    OneMoreMiner(miners, outs, k, o);
    OneMoreSignal(outs, k, o);
    OneMoreDecision(outs, k, o);
  }

  lemma OneMoreMiner(miners: map<Key, Miner>, outs: map<Key, Outcome>, k: Key, o: Outcome)
    ensures TickedMiners(miners, outs[k := o]) == TickedMiners(miners, outs)[k := o.miner]
  {
  }

  lemma OneMoreSignal(outs: map<Key, Outcome>, k: Key, o: Outcome)
    ensures TickedSignals(outs[k := o]) == TickedSignals(outs)[k := o.signal]
  {
  }

  lemma OneMoreDecision(outs: map<Key, Outcome>, k: Key, o: Outcome)
    ensures Decisions(outs[k := o]) == Decisions(outs)[k := o.decision]
  {
  }

  lemma NothingTicked(cfg: Config, w: World, now: real, readings: Key -> Reading)
    ensures PartOfTick(cfg, w, now, readings, map[])
    ensures TickedMiners(w.miners, map[]) == w.miners && TickedSignals(map[]) == map[] && Decisions(map[]) == map[]
  {
  }

  lemma WholeTick(cfg: Config, keys: set<Key>, w: World, now: real, readings: Key -> Reading, outs: map<Key, Outcome>)
    requires PartOfTick(cfg, w, now, readings, outs) && outs.Keys == keys
    ensures outs == Outcomes(cfg, keys, w, now, readings)
  {
    hide OutcomeFor;
  }

  // ---------- the objects the loop works on ----------

  class Monitor {
    const cfg: Config
    const order: seq<Key>
    const processStart: real
    var states: map<Key, MinerState>
    var signals: map<Key, Signal>
    var signalsAt: Option<real>
    var disk: Option<Saved>
    ghost var miners: map<Key, Miner>
    ghost var repr: set<MinerState>

    /** Every configured key owns one MinerState object, whose value is recorded in `miners`. */
    ghost predicate Valid()
      reads this`states, this`miners, this`repr, repr
    {
      states.Keys == miners.Keys && forall k :: k in states ==> k in miners && states[k] in repr && Owns(k, states[k])
    }

    ghost predicate Owns(k: Key, state: MinerState)
      requires k in miners
      reads this`miners, state
    {
      state.owner == k && state.View() == miners[k]
    }

    ghost function View(): World
      reads this
    {
      World(miners, signals, signalsAt, processStart, disk)
    }

    /** A process start: `w` is what the previous process left behind. */
    constructor (cfg: Config, order: seq<Key>, w: World, now: real)
      ensures Valid() && fresh(repr)
      ensures this.cfg == cfg && this.order == order
      ensures View() == Step(cfg, KeySet(order), w, Restart(now))
    {
      this.cfg, this.order, this.processStart := cfg, order, now;
      states, signals, signalsAt, disk := map[], map[], None, w.disk;
      miners, repr := map[], {};
      new;
      InstallAll(Load(w.disk, now));
    }

    /** Give every loaded key its object. */
    method InstallAll(loaded: map<Key, Miner>)
      requires Valid() && states == map[]
      modifies this`states, this`miners, this`repr
      ensures Valid() && fresh(repr - old(repr))
      ensures miners == loaded
    {
      var todo := loaded.Keys;
      while todo != {}
        invariant Valid() && fresh(repr - old(repr))
        invariant todo <= loaded.Keys && states.Keys == miners.Keys && miners == loaded - todo
        decreases todo
      {
        hide Valid;
        var k :| k in todo;
        Install(k, loaded[k]);
        assert (loaded - todo)[k := loaded[k]] == loaded - (todo - {k});
        SameKeys();
        todo := todo - {k};
      }
    }

    lemma SameKeys()
      requires Valid()
      ensures states.Keys == miners.Keys
    {
    }

    /** Give a key its own object with a given value. */
    method Install(key: Key, value: Miner)
      requires Valid() && key !in states
      modifies this`states, this`miners, this`repr
      ensures Valid() && fresh(repr - old(repr))
      ensures miners == old(miners)[key := value]
    {
      var created := new MinerState(key);
      created.Restore(value);
      states := states[key := created];
      miners, repr := miners[key := value], repr + {created};
    }

    /** The loop body for one miner that has its entry. */
    method TickOne(key: Key, now: real, reading: Reading) returns (signal: Signal, decision: Decision)
      requires Valid() && key in states
      modifies this`miners, repr
      ensures Valid()
      ensures
        var o := OutcomeFor(cfg, old(View()), key, reading, now);
        miners == old(miners)[key := o.miner] && signal == o.signal && decision == o.decision
    {
      hide TickMiner, EvaluateInterlocks, Classify;
      var state := states[key];
      var observedAt := if signalsAt.Some? then Finite(signalsAt.value) else Missing;
      var d := EvaluateInterlocks(cfg.guards, key, Classify(cfg, reading), signals, observedAt, Finite(now),
                                  reading.maxTemp, reading.transitioning);
      signal, decision := state.Tick(cfg, processStart, reading, now, d);
      miners := miners[key := state.View()];
    }

    /** The loop body for one miner: its entry is made on first use. */
    method Visit(key: Key, now: real, reading: Reading) returns (signal: Signal, decision: Decision)
      requires Valid()
      modifies this`states, this`miners, this`repr, repr
      ensures Valid() && fresh(repr - old(repr))
      ensures
        var o := OutcomeFor(cfg, old(View()), key, reading, now);
        miners == old(miners)[key := o.miner] && signal == o.signal && decision == o.decision
    {
      hide OutcomeFor, Valid;
      ghost var w := View();
      SameKeys();
      if key !in states {
        Install(key, FRESH_MINER);
        SameKeys();
      }
      UnreachedMiner(cfg, w, View(), key, reading, now);
      signal, decision := TickOne(key, now, reading);
    }

    /** The loop over all configured miners. */
    method TickAll(now: real, readings: Key -> Reading)
      returns (current: map<Key, Signal>, decisions: map<Key, Decision>)
      requires Valid()
      requires forall i, j :: 0 <= i < j < |order| ==> order[i] != order[j]
      modifies this`states, this`miners, this`repr, repr
      ensures Valid() && fresh(repr - old(repr))
      ensures
        var outs := Outcomes(cfg, KeySet(order), old(View()), now, readings);
        miners == TickedMiners(old(miners), outs) && current == TickedSignals(outs) && decisions == Decisions(outs)
    {
      hide OutcomeFor, PartOfTick, TickedMiners, TickedSignals, Decisions, Valid;
      ghost var w := View();
      ghost var outs: map<Key, Outcome> := map[];
      NothingTicked(cfg, w, now, readings);
      current, decisions := map[], map[];
      var i := 0;
      while i < |order|
        invariant 0 <= i <= |order|
        invariant Valid() && fresh(repr - old(repr))
        invariant outs.Keys == KeySet(order[..i])
        invariant PartOfTick(cfg, w, now, readings, outs)
        invariant miners == TickedMiners(w.miners, outs)
        invariant current == TickedSignals(outs) && decisions == Decisions(outs)
      {
        var key := order[i];
        ghost var o := OutcomeFor(cfg, View(), key, readings(key), now);
        TickOneMore(cfg, w, now, readings, outs, key, o);
        OneMoreOutcome(w.miners, outs, key, o);
        var signal, decision := Visit(key, now, readings(key));
        outs := outs[key := o];
        current := current[key := signal];
        decisions := decisions[key := decision];
        i := i + 1;
      }
      assert order[..i] == order;
      WholeTick(cfg, KeySet(order), w, now, readings, outs);
    }

    /** One tick: the loop, the snapshot for the next tick's interlocks, and the state file. */
    method Tick(now: real, readings: Key -> Reading, endedAt: real, savedAt: Option<real>)
      returns (decisions: map<Key, Decision>)
      requires Valid()
      requires forall i, j :: 0 <= i < j < |order| ==> order[i] != order[j]
      modifies this, repr
      ensures Valid() && fresh(repr - old(repr))
      ensures View() == Step(cfg, KeySet(order), old(View()), FleetTick(now, readings, endedAt, savedAt))
      ensures decisions == Decisions(Outcomes(cfg, KeySet(order), old(View()), now, readings))
    {
      hide OutcomeFor;
      var current;
      current, decisions := TickAll(now, readings);
      Publish(current, endedAt, savedAt);
    }

    method Publish(current: map<Key, Signal>, endedAt: real, savedAt: Option<real>)
      requires Valid()
      modifies this`signals, this`signalsAt, this`disk
      ensures Valid()
      ensures signals == current && signalsAt == Some(endedAt) && disk == Write(miners, savedAt, old(disk))
    {
      disk := WriteState(savedAt);
      signals := current;
      signalsAt := Some(endedAt);
    }

    /** The state file after an attempt to write it. */
    method WriteState(savedAt: Option<real>) returns (written: Option<Saved>)
      requires Valid()
      ensures written == Write(miners, savedAt, disk)
    {
      if savedAt.None? {
        return disk;
      }
      var values := map k | k in states :: states[k].View();
      assert values == miners;
      return Some(Saved(savedAt.value.Floor, values));
    }

    /** A confirmed manual action that the CLI accepted. */
    method RecordManual(key: Key, now: real, savedAt: Option<real>)
      requires Valid()
      modifies this`disk, this`miners, repr
      ensures Valid()
      ensures View() == Step(cfg, KeySet(order), old(View()), ManualAction(key, now, savedAt))
    {
      hide Valid, KeySet, Outcomes, TickedMiners, TickedSignals, Load;
      SameKeys();
      if key in states {
        Stamp(key, now);
      }
      disk := WriteState(savedAt);
    }

    method Stamp(key: Key, now: real)
      requires Valid() && key in states && key in miners
      modifies this`miners, repr
      ensures Valid()
      ensures miners == old(miners)[key := old(miners)[key].(lastManual := Some(now), lowSince := None)]
    {
      states[key].RecordManual(now);
      miners := miners[key := states[key].View()];
    }
  }
}
