/** Every sequence of calls on a routing pool, with any number of connections held. */
module RoutingRuns {
  import opened AddressSets
  import opened RoutingTables
  import opened Sessions
  import opened DirectPools
  import opened RoutingPools

  /** A ticket is the position of the call that acquired the connection. */
  datatype RoutingCall =
    | AcquireCall(mode: AccessMode, passes: seq<Pass>, attempt: Attempt)
    | ReleaseCall(ticket: nat, reset: ResetOutcome)
    | UseCall(ticket: nat, state: ConnectionState)
    | ForgetServerCall(server: Address)
    | ForgetWriterCall(server: Address)

  datatype Outcome = Got(result: RoutingResult) | Returned(index: int) | Done

  /** After these outcomes the connection acquired at t has not been released yet. */
  predicate Holds(calls: seq<RoutingCall>, outcomes: seq<Outcome>, t: nat)
    requires |outcomes| <= |calls|
  {
    t < |outcomes| && outcomes[t].Got? && outcomes[t].result.Handed? &&
    forall u :: t < u < |outcomes| ==> !(calls[u].ReleaseCall? && calls[u].ticket == t)
  }

  /** The connections held are those of the tickets in use, each of one ticket. */
  ghost predicate Tracked(held: set<Handle>, calls: seq<RoutingCall>, outcomes: seq<Outcome>)
    requires |outcomes| <= |calls|
  {
    (forall t: nat :: Holds(calls, outcomes, t) ==> outcomes[t].result.handle in held) &&
    (forall t: nat, u: nat :: t < u && Holds(calls, outcomes, t) && Holds(calls, outcomes, u) ==>
       outcomes[t].result.handle != outcomes[u].result.handle) &&
    forall h :: h in held ==> exists t: nat :: Holds(calls, outcomes, t) && outcomes[t].result.handle == h
  }

  function HeldNext(held: set<Handle>, calls: seq<RoutingCall>, outcomes: seq<Outcome>, next: Outcome): set<Handle>
    requires |outcomes| < |calls|
  {
    var call := calls[|outcomes|];
    if next.Got? && next.result.Handed? then held + {next.result.handle}
    else if call.ReleaseCall? && Holds(calls, outcomes, call.ticket) then held - {outcomes[call.ticket].result.handle}
    else held
  }

  lemma HoldsNext(calls: seq<RoutingCall>, outcomes: seq<Outcome>, next: Outcome, t: nat)
    requires |outcomes| < |calls|
    ensures var n := |outcomes|;
            Holds(calls, outcomes + [next], t) <==>
            if t == n then next.Got? && next.result.Handed?
            else Holds(calls, outcomes, t) && !(calls[n].ReleaseCall? && calls[n].ticket == t)
  {
  }

  lemma TrackedNext(held: set<Handle>, calls: seq<RoutingCall>, outcomes: seq<Outcome>, next: Outcome)
    requires |outcomes| < |calls| && Tracked(held, calls, outcomes)
    requires next.Got? ==> !calls[|outcomes|].ReleaseCall?
    requires next.Got? && next.result.Handed? ==> next.result.handle !in held
    ensures Tracked(HeldNext(held, calls, outcomes, next), calls, outcomes + [next])
  {
    var n, after, all := |outcomes|, HeldNext(held, calls, outcomes, next), outcomes + [next];
    forall t: nat
      ensures Holds(calls, all, t) <==>
              if t == n then next.Got? && next.result.Handed?
              else Holds(calls, outcomes, t) && !(calls[n].ReleaseCall? && calls[n].ticket == t)
    {
      HoldsNext(calls, outcomes, next, t);
    }
    forall h | h in after
      ensures exists t: nat :: Holds(calls, all, t) && all[t].result.handle == h
    {
      if h in held {
        var t: nat :| Holds(calls, outcomes, t) && outcomes[t].result.handle == h;
        assert Holds(calls, all, t) && all[t].result.handle == h;
      } else {
        assert Holds(calls, all, n) && all[n].result.handle == h;
      }
    }
  }

  /** A release finds the entry its connection came from, if the connection is held. */
  predicate ReleasesFindTheirEntry(calls: seq<RoutingCall>, outcomes: seq<Outcome>)
    requires |outcomes| <= |calls|
  {
    forall u :: 0 <= u < |outcomes| && calls[u].ReleaseCall? ==>
      outcomes[u] == if Holds(calls, outcomes[..u], calls[u].ticket)
                     then Returned(outcomes[calls[u].ticket].result.handle.index) else Done
  }

  lemma ReleasesNext(calls: seq<RoutingCall>, outcomes: seq<Outcome>, next: Outcome)
    requires |outcomes| < |calls| && ReleasesFindTheirEntry(calls, outcomes)
    requires var call := calls[|outcomes|];
             call.ReleaseCall? ==>
               next == if Holds(calls, outcomes, call.ticket) then Returned(outcomes[call.ticket].result.handle.index) else Done
    ensures ReleasesFindTheirEntry(calls, outcomes + [next])
  {
    var all := outcomes + [next];
    forall u | 0 <= u < |all| && calls[u].ReleaseCall?
      ensures all[u] == if Holds(calls, all[..u], calls[u].ticket)
                        then Returned(all[calls[u].ticket].result.handle.index) else Done
    {
      if u < |outcomes| {
        assert all[..u] == outcomes[..u];
      } else {
        assert all[..u] == outcomes;
      }
    }
  }

  /** Does one call. Callers release and use only what they hold, and do not close it. */
  method Step(pool: RoutingPool, calls: seq<RoutingCall>, outcomes: seq<Outcome>) returns (next: Outcome)
    requires pool.Valid() && |outcomes| < |calls| && Tracked(pool.held, calls, outcomes)
    modifies pool.repr
    ensures pool.Valid() && fresh(pool.repr - old(pool.repr))
    ensures pool.held == HeldNext(old(pool.held), calls, outcomes, next)
    ensures next.Got? <==> calls[|outcomes|].AcquireCall?
    ensures next.Got? && next.result.Handed? ==>
              next.result.handle !in old(pool.held) &&
              pool.HandedOut(calls[|outcomes|].mode, next.result.handle)
    ensures var call := calls[|outcomes|];
            call.ReleaseCall? ==>
              next == if Holds(calls, outcomes, call.ticket) then Returned(outcomes[call.ticket].result.handle.index) else Done
  {
    hide AfterPasses, FromServer;
    match calls[|outcomes|]
    case AcquireCall(mode, passes, attempt) =>
      var result := pool.Acquire(mode, passes, attempt);
      next := Got(result);
    case ReleaseCall(ticket, reset) =>
      next := Done;
      if Holds(calls, outcomes, ticket) {
        var index := pool.Release(outcomes[ticket].result.handle, reset);
        next := Returned(index);
      }
    case UseCall(ticket, state) =>
      next := Done;
      if Holds(calls, outcomes, ticket) && state != Disconnected {
        pool.Use(outcomes[ticket].result.handle, state);
      }
    case ForgetServerCall(server) =>
      pool.ForgetServer(server);
      next := Done;
    case ForgetWriterCall(server) =>
      pool.ForgetWriter(server);
      next := Done;
  }

  /** Over every run, whatever the network, the routers and the holders do: the pool of every
      held connection stays in place, every release finds the entry its connection came from,
      and no connection is held twice. */
  method Serve(pool: RoutingPool, calls: seq<RoutingCall>) returns (outcomes: seq<Outcome>)
    requires pool.Valid() && pool.held == {}
    modifies pool.repr
    ensures pool.Valid() && |outcomes| == |calls|
    ensures Tracked(pool.held, calls, outcomes) && ReleasesFindTheirEntry(calls, outcomes)
    ensures forall t: nat :: Holds(calls, outcomes, t) ==> outcomes[t].result.handle.pool in pool.serverPools
    ensures forall u :: 0 <= u < |calls| ==> (outcomes[u].Got? <==> calls[u].AcquireCall?)
  {
    outcomes := [];
    while |outcomes| < |calls|
      invariant |outcomes| <= |calls| && pool.Valid() && fresh(pool.repr - old(pool.repr))
      invariant Tracked(pool.held, calls, outcomes) && ReleasesFindTheirEntry(calls, outcomes)
      invariant forall u :: 0 <= u < |outcomes| ==> (outcomes[u].Got? <==> calls[u].AcquireCall?)
    {
      outcomes := Advance(pool, calls, outcomes);
    }
  }

  /** Does the next call and notes its outcome. */
  method Advance(pool: RoutingPool, calls: seq<RoutingCall>, outcomes: seq<Outcome>) returns (more: seq<Outcome>)
    requires pool.Valid() && |outcomes| < |calls|
    requires Tracked(pool.held, calls, outcomes) && ReleasesFindTheirEntry(calls, outcomes)
    requires forall u :: 0 <= u < |outcomes| ==> (outcomes[u].Got? <==> calls[u].AcquireCall?)
    modifies pool.repr
    ensures pool.Valid() && fresh(pool.repr - old(pool.repr)) && |more| == |outcomes| + 1
    ensures Tracked(pool.held, calls, more) && ReleasesFindTheirEntry(calls, more)
    ensures forall u :: 0 <= u < |more| ==> (more[u].Got? <==> calls[u].AcquireCall?)
  {
    var next := Step(pool, calls, outcomes);
    TrackedNext(old(pool.held), calls, outcomes, next);
    ReleasesNext(calls, outcomes, next);
    more := outcomes + [next];
  }
}
