/** The registry of requests in flight and the protocol around it (app/acquisition.py). */
module Leases {
  import opened Common
  import opened RebootSafety

  datatype Authority = Authoritative | Diagnostic

  datatype Lease = Lease(id: nat, key: Key, authority: Authority, epoch: int, acquired: real, deadline: real)

  datatype Registry = Registry(leases: map<Key, Lease>, nextId: nat)

  const EMPTY_REGISTRY := Registry(map[], 1)

  /** A lease for a miner that has none; None while another request owns the miner. */
  function Grant(r: Registry, key: Key, authority: Authority, epoch: int, at: real, deadline: real)
    : (Registry, Option<Lease>)
  {
    if key in r.leases then (r, None)
    else
      var lease := Lease(r.nextId, key, authority, epoch, at, deadline);
      (Registry(r.leases[key := lease], r.nextId + 1), Some(lease))
  }

  predicate Owns(r: Registry, lease: Lease) {
    lease.key in r.leases && r.leases[lease.key] == lease
  }

  function Drop(r: Registry, lease: Option<Lease>): (Registry, bool) {
    if lease.None? || !Owns(r, lease.value) then (r, false)
    else (r.(leases := r.leases - {lease.value.key}), true)
  }

  class InFlightRegistry {
    var leases: map<Key, Lease>
    var nextId: nat

    function View(): Registry
      reads this
    {
      Registry(leases, nextId)
    }

    constructor ()
      ensures View() == EMPTY_REGISTRY
    {
      leases, nextId := map[], 1;
    }

    method Acquire(key: Key, authority: Authority, epoch: int, at: real, deadline: real) returns (lease: Option<Lease>)
      modifies this
      ensures (View(), lease) == Grant(old(View()), key, authority, epoch, at, deadline)
    {
      if key in leases {
        return None;
      }
      var granted := Lease(nextId, key, authority, epoch, at, deadline);
      nextId := nextId + 1;
      leases := leases[key := granted];
      return Some(granted);
    }

    method Release(lease: Option<Lease>) returns (released: bool)
      modifies this`leases
      ensures (View(), released) == Drop(old(View()), lease)
    {
      if lease.None? {
        return false;
      }
      if lease.value.key !in leases || leases[lease.value.key] != lease.value {
        return false;
      }
      leases := leases - {lease.value.key};
      return true;
    }

    /** Owned means that a request made now would be refused. */
    method IsOwned(key: Key) returns (owned: bool)
      ensures forall authority, epoch, at, deadline ::
        owned <==> Grant(View(), key, authority, epoch, at, deadline).1.None?
    {
      owned := key in leases;
    }
  }

  // ---------- collectors and workers, interleaved ----------

  /** The life of a request. A collector reserves a lease and then submits the request; a worker runs it
      and gives the lease back at its end; or the collector cancels it while it is still queued and gives
      the lease back. Closing the executor abandons what is still queued; a request reserved by a collector
      that was already under way can then not be submitted any more. */
  datatype Phase = Reserved | Queued | Running | Cancelled | Abandoned | Released

  /** `releases` counts how often a release of this lease was answered with yes. */
  datatype Request = Request(lease: Lease, phase: Phase, releases: nat)

  datatype System = System(registry: Registry, requests: map<nat, Request>, closed: bool)

  const IDLE := System(EMPTY_REGISTRY, map[], false)

  /** One atomic step of any of the threads. `ReleaseAgain` is an attempt to release any lease that was
      ever issued and is not held any more, or none. */
  datatype Step =
    | AcquireFor(key: Key, authority: Authority, epoch: int, at: real, deadline: real)
    | Submit(id: nat)
    | Start(id: nat)
    | Finish(id: nat)
    | Cancel(id: nat)
    | ReleaseCancelled(id: nat)
    | ReleaseAgain(past: Option<nat>)
    | Close

  predicate InPhase(s: System, id: nat, phase: Phase) {
    id in s.requests && s.requests[id].phase == phase
  }

  function Move(s: System, id: nat, from: Phase, to: Phase): System {
    if InPhase(s, id, from) then s.(requests := s.requests[id := s.requests[id].(phase := to)]) else s
  }

  /** Hand a lease back and note the answer. */
  function GiveBack(s: System, id: nat, phase: Phase): System
    requires id in s.requests
  {
    var req := s.requests[id];
    var (registry, released) := Drop(s.registry, Some(req.lease));
    System(registry, s.requests[id := req.(phase := phase, releases := req.releases + if released then 1 else 0)],
           s.closed)
  }

  function Do(s: System, step: Step): System {
    match step
    case AcquireFor(key, authority, epoch, at, deadline) =>
      var (registry, lease) := Grant(s.registry, key, authority, epoch, at, deadline);
      s.(registry := registry,
         requests := if lease.None? then s.requests
                     else s.requests[lease.value.id := Request(lease.value, Reserved, 0)])
    case Submit(id) => if s.closed then s else Move(s, id, Reserved, Queued)
    case Start(id) => Move(s, id, Queued, Running)
    case Finish(id) => if InPhase(s, id, Running) then GiveBack(s, id, Released) else s
    case Cancel(id) => Move(s, id, Queued, Cancelled)
    case ReleaseCancelled(id) => if InPhase(s, id, Cancelled) then GiveBack(s, id, Released) else s
    case ReleaseAgain(id) =>
      if id.None? then s.(registry := Drop(s.registry, None).0)
      else if InPhase(s, id.value, Released) then GiveBack(s, id.value, Released)
      else s
    case Close =>
      System(s.registry,
             map id | id in s.requests ::
               if s.requests[id].phase.Queued? then s.requests[id].(phase := Abandoned) else s.requests[id],
             true)
  }

  function After(steps: seq<Step>): System {
    if steps == [] then IDLE else Do(After(steps[..|steps| - 1]), steps[|steps| - 1])
  }

  // ---------- what every interleaving keeps ----------

  predicate Holds(req: Request) {
    !req.phase.Released?
  }

  ghost predicate RequestOk(s: System, id: nat)
    requires id in s.requests
  {
    var req := s.requests[id];
    req.lease.id == id < s.registry.nextId && (Holds(req) <==> Owns(s.registry, req.lease)) &&
    req.releases == if Holds(req) then 0 else 1
  }

  ghost predicate LeaseOk(s: System, key: Key)
    requires key in s.registry.leases
  {
    var lease := s.registry.leases[key];
    lease.key == key && lease.id in s.requests && s.requests[lease.id].lease == lease
  }

  /** The registry holds exactly the leases of the requests that have not given theirs back, and every
      other lease has been given back exactly once. */
  ghost predicate Exact(s: System) {
    (forall id :: id in s.requests ==> RequestOk(s, id)) &&
    (forall key :: key in s.registry.leases ==> LeaseOk(s, key)) &&
    (!s.closed ==> forall id :: id in s.requests ==> !s.requests[id].phase.Abandoned?)
  }

  lemma MoveKeepsExact(s: System, id: nat, from: Phase, to: Phase)
    requires Exact(s) && !from.Released? && !to.Released? && !to.Abandoned?
    ensures Exact(Move(s, id, from, to))
  {
    var r := Move(s, id, from, to);
    forall i | i in r.requests ensures RequestOk(r, i) {
      assert RequestOk(s, i);
    }
    forall key | key in r.registry.leases ensures LeaseOk(r, key) {
      assert LeaseOk(s, key);
    }
  }

  lemma GiveBackKeepsExact(s: System, id: nat)
    requires Exact(s) && id in s.requests
    ensures Exact(GiveBack(s, id, Released))
  {
    var r := GiveBack(s, id, Released);
    assert RequestOk(s, id);
    forall i | i in r.requests ensures RequestOk(r, i) {
      assert RequestOk(s, i);
    }
    forall key | key in r.registry.leases ensures LeaseOk(r, key) {
      assert LeaseOk(s, key);
    }
  }

  lemma NextIdIsFree(s: System)
    requires Exact(s)
    ensures s.registry.nextId !in s.requests
  {
  }

  lemma AcquireKeepsExact(s: System, step: Step)
    requires Exact(s) && step.AcquireFor?
    ensures Exact(Do(s, step))
  {
    var r := Do(s, step);
    NextIdIsFree(s);
    forall i | i in r.requests ensures RequestOk(r, i) {
      if i in s.requests {
        assert RequestOk(s, i);
      }
    }
    forall key | key in r.registry.leases ensures LeaseOk(r, key) {
      if key in s.registry.leases {
        assert LeaseOk(s, key);
      }
    }
  }

  lemma CloseKeepsExact(s: System)
    requires Exact(s)
    ensures Exact(Do(s, Close))
  {
    var r := Do(s, Close);
    forall i | i in r.requests ensures RequestOk(r, i) {
      assert RequestOk(s, i);
    }
    forall key | key in r.registry.leases ensures LeaseOk(r, key) {
      assert LeaseOk(s, key);
    }
  }

  /** In every interleaving the registry is exact. Before the close no request is abandoned, so it holds
      exactly the leases of requests that are reserved, queued, running or just cancelled. */
  lemma {:induction false} RegistryIsExact(steps: seq<Step>)
    ensures Exact(After(steps))
  {
    if steps != [] {
      var s, step := After(steps[..|steps| - 1]), steps[|steps| - 1];
      RegistryIsExact(steps[..|steps| - 1]);
      hide Exact, GiveBack, Move;
      match step
      case AcquireFor(_, _, _, _, _) => AcquireKeepsExact(s, step);
      case Submit(id) => MoveKeepsExact(s, id, Reserved, Queued);
      case Start(id) => MoveKeepsExact(s, id, Queued, Running);
      case Finish(id) => if InPhase(s, id, Running) { GiveBackKeepsExact(s, id); }
      case Cancel(id) => MoveKeepsExact(s, id, Queued, Cancelled);
      case ReleaseCancelled(id) => if InPhase(s, id, Cancelled) { GiveBackKeepsExact(s, id); }
      case ReleaseAgain(id) => if id.Some? && InPhase(s, id.value, Released) { GiveBackKeepsExact(s, id.value); }
      case Close => CloseKeepsExact(s);
    }
  }

  /** No miner ever has two requests in flight, authoritative or diagnostic. */
  lemma OneRequestPerMiner(steps: seq<Step>, i: nat, j: nat)
    requires i in After(steps).requests && j in After(steps).requests
    requires Holds(After(steps).requests[i]) && Holds(After(steps).requests[j])
    requires After(steps).requests[i].lease.key == After(steps).requests[j].lease.key
    ensures i == j
  {
    RegistryIsExact(steps);
    hide After;
    assert RequestOk(After(steps), i) && RequestOk(After(steps), j);
  }

  /** A second release of a lease, however late, removes nothing, even when the miner has a new owner. */
  lemma StaleReleaseIsIgnored(steps: seq<Step>, id: nat)
    requires InPhase(After(steps), id, Released)
    ensures
      var s := After(steps);
      Drop(s.registry, Some(s.requests[id].lease)) == (s.registry, false) && s.requests[id].releases == 1
  {
    RegistryIsExact(steps);
    hide After;
    assert RequestOk(After(steps), id);
  }

  lemma StepKeepsLeases(s: System, step: Step, id: nat)
    requires Exact(s) && id in s.requests
    ensures
      var r := Do(s, step);
      id in r.requests && r.requests[id].lease == s.requests[id].lease &&
      (s.requests[id].phase.Released? ==> r.requests[id].phase.Released?)
  {
    assert RequestOk(s, id);
    hide Exact;
  }

  /** A lease number is issued once: whatever happens later, it names the same lease, and a lease that was
      given back stays given back. */
  lemma {:induction false} LeaseIdsAreNotReused(steps: seq<Step>, more: seq<Step>, id: nat)
    requires id in After(steps).requests
    ensures
      var s, later := After(steps), After(steps + more);
      id in later.requests && later.requests[id].lease == s.requests[id].lease &&
      (s.requests[id].phase.Released? ==> later.requests[id].phase.Released?)
    decreases |more|
  {
    hide Do, Exact;
    if more == [] {
      assert steps + more == steps;
    } else {
      var n := |more| - 1;
      LeaseIdsAreNotReused(steps, more[..n], id);
      RegistryIsExact(steps + more[..n]);
      StepKeepsLeases(After(steps + more[..n]), more[n], id);
      assert (steps + more)[..|steps| + n] == steps + more[..n];
    }
  }

  /** A miner is free for a new request exactly when no request of it holds a lease; the new lease carries what
      was asked for, under a number never used before. */
  lemma AcquireSucceedsIff(steps: seq<Step>, key: Key, authority: Authority, epoch: int, at: real, deadline: real)
    ensures
      var s := After(steps);
      Grant(s.registry, key, authority, epoch, at, deadline).1.Some? <==>
      forall id :: id in s.requests && s.requests[id].lease.key == key ==> s.requests[id].phase.Released?
    ensures
      var s := After(steps);
      var (r, lease) := Grant(s.registry, key, authority, epoch, at, deadline);
      lease.Some? ==>
        lease.value.id !in s.requests && r.leases == s.registry.leases[key := lease.value] &&
        lease.value.key == key && lease.value.authority == authority && lease.value.epoch == epoch &&
        lease.value.acquired == at && lease.value.deadline == deadline
  {
    RegistryIsExact(steps);
    var s := After(steps);
    hide After;
    if key in s.registry.leases {
      assert LeaseOk(s, key);
      assert RequestOk(s, s.registry.leases[key].id);
    } else {
      forall id | id in s.requests && s.requests[id].lease.key == key ensures s.requests[id].phase.Released? {
        assert RequestOk(s, id);
      }
    }
  }
}
