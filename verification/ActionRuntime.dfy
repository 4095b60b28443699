/**
 The Action runtime (internal/actionruntime/runtime.go): any number of requesters queue
 per-zone boundaries under a mutex and ring a one-slot wake channel; a single runner drains
 the queue. The class holds the mutex-protected fields; the step relation interleaves it.
 */
module ActionRuntime {
  import opened Sets

  type Zone = int
  type EventType = int
  type Position = nat
  type Boundaries = map<EventType, Position>
  type Table = map<Zone, Boundaries>

  // Reading a missing entry of a nested map gives zero.
  function At(table: Table, zone: Zone, eventType: EventType): Position {
    if zone in table && eventType in table[zone] then table[zone][eventType] else 0
  }

  function Max(a: Position, b: Position): Position { if a < b then b else a }

  // The observed boundaries still worth queueing: beyond what is being processed and, unless
  // this is a retry, beyond what already failed.
  function Eligible(active: Table, failed: Table, zone: Zone, boundaries: Boundaries, retry: bool): Boundaries {
    map t | t in boundaries && At(active, zone, t) < boundaries[t] && (retry || At(failed, zone, t) < boundaries[t])
      :: boundaries[t]
  }

  function Entry(boundaries: Boundaries, eventType: EventType): Position {
    if eventType in boundaries then boundaries[eventType] else 0
  }

  function Coalesced(queued: Boundaries, more: Boundaries): Boundaries {
    map t | t in queued.Keys + more.Keys && (t in queued || more[t] > 0) :: Max(Entry(queued, t), Entry(more, t))
  }

  function Queued(requests: Table, zone: Zone): Boundaries {
    if zone in requests then requests[zone] else map[]
  }

  lemma CoalescedByEntry(requested: Boundaries, queued: Boundaries, more: Boundaries)
    requires forall t :: Entry(requested, t) == Max(Entry(queued, t), Entry(more, t))
    requires forall t :: t in requested <==> t in queued || (t in more && more[t] > 0)
    ensures requested == Coalesced(queued, more)
  {
    var expected := Coalesced(queued, more);
    forall t | t in requested ensures requested[t] == expected[t] {
      assert Entry(requested, t) == requested[t];
    }
    assert requested == expected;
  }

  // The observed boundary of an event type asks for work: it lies beyond what is being processed
  // and, except on Retry, beyond what failed.
  ghost predicate Asks(active: Table, failed: Table, zone: Zone, observed: Boundaries, retry: bool, t: EventType) {
    && t in observed && observed[t] > At(active, zone, t)
    && (!retry ==> observed[t] > At(failed, zone, t))
  }

  // What a request makes of the queued boundary of one event type.
  ghost predicate QueuedAt(before: Boundaries, after: Boundaries, observed: Boundaries, asks: bool, t: EventType) {
    if asks && t in observed then
      t in after && after[t] == if t in before && before[t] > observed[t] then before[t] else observed[t]
    else
      (t in after <==> t in before) && (t in before ==> after[t] == before[t])
  }

  // What a request does: it queues exactly when something asks for work, then each boundary that
  // asks at least as high as observed, raising nothing else; a Retry that queues forgets the
  // zone's failures.
  ghost predicate Requested(
      active: Table, failed: Table, requests: Table, zone: Zone, observed: Boundaries, retry: bool,
      send: bool, requests': Table, failed': Table)
  {
    && (send <==> exists t :: Asks(active, failed, zone, observed, retry, t))
    && (!send ==> requests' == requests)
    && (send ==> requests'.Keys == requests.Keys + {zone})
    && (send ==> forall z :: z in requests && z != zone ==> requests'[z] == requests[z])
    && (send ==> forall t ::
      QueuedAt(Queued(requests, zone), requests'[zone], observed, Asks(active, failed, zone, observed, retry, t), t))
    && (if send && retry then failed'.Keys == failed.Keys - {zone} && forall z :: z in failed' ==> failed'[z] == failed[z]
        else failed' == failed)
  }

  lemma EligibleIsAsked(active: Table, failed: Table, zone: Zone, observed: Boundaries, retry: bool)
    ensures
      var eligible := Eligible(active, failed, zone, observed, retry);
      && (eligible != map[] <==> exists t :: Asks(active, failed, zone, observed, retry, t))
      && forall queued: Boundaries, t ::
        QueuedAt(queued, Coalesced(queued, eligible), observed, Asks(active, failed, zone, observed, retry, t), t)
  {
    var eligible := Eligible(active, failed, zone, observed, retry);
    forall t ensures t in eligible <==> Asks(active, failed, zone, observed, retry, t) {}
    if eligible != map[] {
      var member := HasMember(eligible.Keys);
      assert Asks(active, failed, zone, observed, retry, member);
    }
  }

  lemma RequestFromEligible(active: Table, failed: Table, requests: Table, zone: Zone, observed: Boundaries, retry: bool)
    ensures
      var eligible := Eligible(active, failed, zone, observed, retry);
      if eligible == map[] then Requested(active, failed, requests, zone, observed, retry, false, requests, failed)
      else Requested(active, failed, requests, zone, observed, retry, true,
        requests[zone := Coalesced(Queued(requests, zone), eligible)], if retry then failed - {zone} else failed)
  {
    EligibleIsAsked(active, failed, zone, observed, retry);
  }

  class Runtime {
    var requests: Table
    var active: Table
    var failed: Table
    var wake: bool       // whether the one-slot channel holds a token

    constructor ()
      ensures requests == map[] && active == map[] && failed == map[] && !wake
    {
      requests, active, failed, wake := map[], map[], map[], false;
    }

    // The critical section of Start and Retry.
    method Enqueue(zone: Zone, observed: Boundaries, retry: bool) returns (send: bool)
      modifies `requests, `failed
      ensures
        var eligible := Eligible(active, old(failed), zone, observed, retry);
        && send == (eligible != map[])
        && failed == (if send && retry then old(failed) - {zone} else old(failed))
        && requests == (if send then old(requests)[zone := Coalesced(Queued(old(requests), zone), eligible)] else old(requests))
      ensures Requested(active, old(failed), old(requests), zone, observed, retry, send, requests, failed)
    {
      var boundaries := Select(zone, observed, retry);
      RequestFromEligible(active, failed, requests, zone, observed, retry);
      if boundaries == map[] {
        return false;
      }
      if retry {
        failed := failed - {zone};
      }
      var requested := Coalesce(Queued(requests, zone), boundaries);
      requests := requests[zone := requested];
      return true;
    }

    // The boundaries left after the two filters.
    method Select(zone: Zone, observed: Boundaries, retry: bool) returns (boundaries: Boundaries)
      ensures boundaries == Eligible(active, failed, zone, observed, retry)
    {
      boundaries := DropReached(observed, if zone in active then active[zone] else map[]);
      if !retry {
        boundaries := DropReached(boundaries, if zone in failed then failed[zone] else map[]);
      }
    }

    // Raises each queued boundary to the requested one.
    static method Coalesce(queued: Boundaries, boundaries: Boundaries) returns (requested: Boundaries)
      ensures requested == Coalesced(queued, boundaries)
      ensures forall t :: t in requested <==> t in queued || (t in boundaries && boundaries[t] > 0)
      ensures forall t :: t in requested ==>
        && (t in queued ==> requested[t] >= queued[t]) && (t in boundaries ==> requested[t] >= boundaries[t])
        && ((t in queued && requested[t] == queued[t]) || (t in boundaries && requested[t] == boundaries[t]))
    {
      requested := queued;
      var remaining := boundaries.Keys;
      while remaining != {}
        invariant forall t :: t in remaining ==> t in boundaries
        invariant forall t :: Entry(requested, t) == Max(Entry(queued, t), if t in remaining then 0 else Entry(boundaries, t))
        invariant forall t :: t in requested <==> t in queued || (t in boundaries && t !in remaining && boundaries[t] > 0)
        decreases |remaining|
      {
        ghost var member := HasMember(remaining);
        var t: EventType :| t in remaining;
        if boundaries[t] > Entry(requested, t) {
          requested := requested[t := boundaries[t]];
        }
        remaining := remaining - {t};
      }
      CoalescedByEntry(requested, queued, boundaries);
    }

    // Deletes the boundaries that `reached` already covers.
    static method DropReached(observed: Boundaries, reached: Boundaries) returns (boundaries: Boundaries)
      ensures boundaries == map t | t in observed && Entry(reached, t) < observed[t] :: observed[t]
    {
      boundaries := observed;
      var remaining := observed.Keys;
      while remaining != {}
        invariant remaining <= observed.Keys
        invariant boundaries == map t | t in observed && (t in remaining || Entry(reached, t) < observed[t]) :: observed[t]
      {
        ghost var member := HasMember(remaining);
        var t: EventType :| t in remaining;
        if Entry(reached, t) >= observed[t] {
          boundaries := boundaries - {t};
        }
        remaining := remaining - {t};
      }
    }

    // Sending to the full channel is skipped: one token is enough.
    method Wake()
      modifies `wake
      ensures wake
    {
      if !wake { wake := true; }
    }

    method TakeRequest() returns (zone: Zone, boundaries: Boundaries, found: bool)
      modifies `requests, `active
      ensures found == (old(requests) != map[])
      ensures found ==>
        && zone in old(requests) && boundaries == old(requests)[zone]
        && requests == old(requests) - {zone} && active == old(active)[zone := boundaries]
      ensures !found ==> requests == old(requests) && active == old(active)
    {
      if requests.Keys == {} {
        return 0, map[], false;
      }
      ghost var member := HasMember(requests.Keys);
      var z: Zone :| z in requests.Keys;
      zone, boundaries, found := z, requests[z], true;
      requests := requests - {z};
      active := active[z := boundaries];
    }

    method FinishRequest(zone: Zone)
      modifies `active
      ensures active == old(active) - {zone}
    {
      active := active - {zone};
    }

    // Exactly one boundary changes. From then on Start queues the event type in this zone only
    // beyond it, and nothing else becomes easier or harder to queue.
    method MarkFailed(zone: Zone, eventType: EventType, through: Position)
      modifies `failed
      ensures failed == Failed(old(failed), zone, eventType, through)
      ensures failed.Keys == old(failed).Keys + {zone}
      ensures forall z, t :: At(failed, z, t) == if z == zone && t == eventType then through else At(old(failed), z, t)
      ensures forall z, observed: Boundaries, t ::
        t in Eligible(active, failed, z, observed, false) <==>
          && t in observed && observed[t] > At(active, z, t)
          && observed[t] > (if z == zone && t == eventType then through else At(old(failed), z, t))
    {
      var marks := if zone in failed then failed[zone] else map[];
      failed := failed[zone := marks[eventType := through]];
    }
  }

  function Failed(failed: Table, zone: Zone, eventType: EventType, through: Position): Table {
    failed[zone := (if zone in failed then failed[zone] else map[])[eventType := through]]
  }

  // ---------------------------------------------------------------------------------------
  // Interleavings.

  // What a requester is about to do: take the lock with boundaries it read earlier, or ring.
  datatype Requester = Observed(zone: Zone, boundaries: Boundaries, retry: bool) | Sending

  datatype Runner = Waiting | Draining | Processing(zone: Zone, boundaries: Boundaries) | Stopped

  // `accepted` and `taken` record every boundary queued and every boundary handed to the runner.
  datatype State = State(
    requests: Table, active: Table, failed: Table, wake: bool,
    runner: Runner, requesters: map<int, Requester>,
    accepted: set<(Zone, EventType, Position)>, taken: set<(Zone, EventType, Position)>)

  datatype Action =
    | Observe(id: int, zone: Zone, boundaries: Boundaries, retry: bool)
    | Enqueue(id: int)
    | Send(id: int)
    | Receive
    | Take(taken: Zone)
    | Drained
    | Fail(eventType: EventType)
    | Finish
    | Stop
    | Restart

  const INITIAL := State(map[], map[], map[], false, Waiting, map[], {}, {})

  function Entries(zone: Zone, boundaries: Boundaries): set<(Zone, EventType, Position)> {
    set t | t in boundaries :: (zone, t, boundaries[t])
  }

  function Enqueued(s: State, id: int, r: Requester): State
    requires r.Observed?
  {
    var eligible := Eligible(s.active, s.failed, r.zone, r.boundaries, r.retry);
    if eligible == map[] then s.(requesters := s.requesters - {id})
    else s.(
      requests := s.requests[r.zone := Coalesced(Queued(s.requests, r.zone), eligible)],
      failed := if r.retry then s.failed - {r.zone} else s.failed,
      requesters := s.requesters[id := Sending],
      accepted := s.accepted + Entries(r.zone, eligible))
  }

  ghost predicate Step(s: State, a: Action, s': State) {
    match a
    case Observe(id, zone, boundaries, retry) =>
      id !in s.requesters && s' == s.(requesters := s.requesters[id := Observed(zone, boundaries, retry)])
    case Enqueue(id) =>
      id in s.requesters && s.requesters[id].Observed? && s' == Enqueued(s, id, s.requesters[id])
    case Send(id) =>
      id in s.requesters && s.requesters[id].Sending? && s' == s.(wake := true, requesters := s.requesters - {id})
    case Receive =>
      s.runner.Waiting? && s.wake && s' == s.(wake := false, runner := Draining)
    case Take(zone) =>
      && s.runner.Draining? && zone in s.requests
      && s' == s.(
        requests := s.requests - {zone}, active := s.active[zone := s.requests[zone]],
        runner := Processing(zone, s.requests[zone]), taken := s.taken + Entries(zone, s.requests[zone]))
    case Drained =>
      s.runner.Draining? && s.requests == map[] && s' == s.(runner := Waiting)
    case Fail(t) =>
      && s.runner.Processing? && t in s.runner.boundaries
      && s' == s.(failed := Failed(s.failed, s.runner.zone, t, s.runner.boundaries[t]))
    case Finish =>
      s.runner.Processing? && s' == s.(active := s.active - {s.runner.zone}, runner := Draining)
    case Stop =>
      (s.runner.Waiting? || s.runner.Processing?) && s' == s.(runner := Stopped)
    case Restart =>
      s.runner.Stopped? && s' == s.(runner := Waiting)
  }

  ghost predicate IsRun(states: seq<State>, actions: seq<Action>) {
    && |states| == |actions| + 1
    && states[0] == INITIAL
    && forall i :: 0 <= i < |actions| ==> Step(states[i], actions[i], states[i + 1])
  }

  // ---------------------------------------------------------------------------------------
  // Invariants.

  ghost predicate SomeoneSends(s: State) {
    exists id :: id in s.requesters && s.requesters[id].Sending?
  }

  // A queued request that nobody is on the way to serve: no token, no sender, no runner at work.
  ghost predicate Stranded(s: State) {
    && s.requests != map[] && !s.wake && !SomeoneSends(s)
    && (s.runner.Waiting? || s.runner.Stopped?)
  }

  // A queued boundary lies beyond the one being processed and the one that failed.
  ghost predicate FreshAt(s: State, z: Zone, t: EventType) {
    z in s.requests && t in s.requests[z] ==>
      s.requests[z][t] > At(s.active, z, t) && s.requests[z][t] > At(s.failed, z, t)
  }

  ghost predicate QueueIsFresh(s: State) {
    forall z, t :: FreshAt(s, z, t)
  }

  // What is being processed is active, and not below what failed.
  ghost predicate RunnerOwnsActive(s: State) {
    s.runner.Processing? ==>
      && s.runner.zone in s.active && s.active[s.runner.zone] == s.runner.boundaries
      && forall t :: t in s.runner.boundaries ==> s.runner.boundaries[t] >= At(s.failed, s.runner.zone, t)
  }

  ghost predicate Covered(s: State, z: Zone, t: EventType, p: Position) {
    At(s.requests, z, t) >= p || exists b: Position :: b >= p && (z, t, b) in s.taken
  }

  // Nothing accepted is lost, and what is queued or taken was really asked for: the queued
  // boundary is the maximum of the requests it stands for.
  ghost predicate NothingLost(s: State) {
    && (forall z, t, p :: (z, t, p) in s.accepted ==> Covered(s, z, t, p))
    && (forall z, t :: z in s.requests && t in s.requests[z] ==> (z, t, s.requests[z][t]) in s.accepted)
    && s.taken <= s.accepted
  }

  ghost predicate Inv(s: State) {
    && QueueIsFresh(s) && RunnerOwnsActive(s) && NothingLost(s)
    && forall z :: z in s.requests ==> s.requests[z] != map[]
  }

  lemma EnqueueKeepsFresh(s: State, id: int, r: Requester, z: Zone, t: EventType)
    requires FreshAt(s, z, t) && r.Observed?
    ensures FreshAt(Enqueued(s, id, r), z, t)
  {
  }

  lemma StepKeepsQueueFresh(s: State, a: Action, s': State)
    requires QueueIsFresh(s) && RunnerOwnsActive(s) && Step(s, a, s')
    ensures QueueIsFresh(s') && RunnerOwnsActive(s')
  {
    forall z, t ensures FreshAt(s', z, t) {
      assert FreshAt(s, z, t);
      if a.Enqueue? { EnqueueKeepsFresh(s, a.id, s.requesters[a.id], z, t); }
    }
    if a.Enqueue? && s.runner.Processing? {
      forall t | t in s.runner.boundaries ensures s.runner.boundaries[t] >= At(s'.failed, s.runner.zone, t) {}
    }
    if a.Take? {
      forall t | t in s.requests[a.taken] ensures s.requests[a.taken][t] >= At(s.failed, a.taken, t) {
        assert FreshAt(s, a.taken, t);
      }
    }
  }

  lemma StepKeepsRequests(s: State, a: Action, s': State)
    requires NothingLost(s) && Step(s, a, s')
    ensures NothingLost(s')
  {
    if a.Enqueue? {
      EnqueueKeepsRequests(s, a.id, s.requesters[a.id]);
    } else {
      forall z, t, p | (z, t, p) in s'.accepted ensures Covered(s', z, t, p) {
        assert Covered(s, z, t, p);
        if a.Take? && At(s.requests, z, t) >= p && z == a.taken {
          TakeCovers(s, z, t, p, s');
        }
      }
    }
  }

  lemma TakeCovers(s: State, z: Zone, t: EventType, p: Position, s': State)
    requires Step(s, Take(z), s') && At(s.requests, z, t) >= p
    ensures Covered(s', z, t, p)
  {
    if p > 0 {
      assert (z, t, s.requests[z][t]) in Entries(z, s.requests[z]);
    }
  }

  lemma EnqueueKeepsRequests(s: State, id: int, r: Requester)
    requires NothingLost(s) && r.Observed?
    ensures NothingLost(Enqueued(s, id, r))
  {
    var s' := Enqueued(s, id, r);
    forall z, t, p | (z, t, p) in s'.accepted ensures Covered(s', z, t, p) {
      EnqueueCovers(s, id, r, z, t, p);
    }
    forall z, t | z in s'.requests && t in s'.requests[z] ensures (z, t, s'.requests[z][t]) in s'.accepted {
      EnqueueQueuesAccepted(s, id, r, z, t);
    }
  }

  lemma EnqueueRaises(s: State, id: int, r: Requester, z: Zone, t: EventType)
    requires r.Observed?
    ensures At(Enqueued(s, id, r).requests, z, t) >= At(s.requests, z, t)
    ensures var eligible := Eligible(s.active, s.failed, r.zone, r.boundaries, r.retry);
      z == r.zone && t in eligible ==> At(Enqueued(s, id, r).requests, z, t) >= eligible[t]
  {
  }

  lemma EnqueueCovers(s: State, id: int, r: Requester, z: Zone, t: EventType, p: Position)
    requires NothingLost(s) && r.Observed? && (z, t, p) in Enqueued(s, id, r).accepted
    ensures Covered(Enqueued(s, id, r), z, t, p)
  {
    EnqueueRaises(s, id, r, z, t);
    if (z, t, p) in s.accepted {
      assert Covered(s, z, t, p);
    } else {
      assert (z, t, p) in Entries(r.zone, Eligible(s.active, s.failed, r.zone, r.boundaries, r.retry));
    }
  }

  lemma EnqueueQueuesAccepted(s: State, id: int, r: Requester, z: Zone, t: EventType)
    requires NothingLost(s) && r.Observed?
    requires z in Enqueued(s, id, r).requests && t in Enqueued(s, id, r).requests[z]
    ensures (z, t, Enqueued(s, id, r).requests[z][t]) in Enqueued(s, id, r).accepted
  {
    var eligible := Eligible(s.active, s.failed, r.zone, r.boundaries, r.retry);
    if z == r.zone && t in eligible {
      assert (z, t, eligible[t]) in Entries(r.zone, eligible);
    }
  }

  lemma StepKeepsInv(s: State, a: Action, s': State)
    requires Inv(s) && Step(s, a, s')
    ensures Inv(s')
  {
    StepKeepsQueueFresh(s, a, s');
    StepKeepsRequests(s, a, s');
    if a.Enqueue? {
      EnqueueQueuesSomething(s, a.id, s.requesters[a.id]);
    }
  }

  lemma EnqueueQueuesSomething(s: State, id: int, r: Requester)
    requires r.Observed? && forall z :: z in s.requests ==> s.requests[z] != map[]
    ensures forall z :: z in Enqueued(s, id, r).requests ==> Enqueued(s, id, r).requests[z] != map[]
  {
    var eligible := Eligible(s.active, s.failed, r.zone, r.boundaries, r.retry);
    if eligible != map[] {
      var t := HasMember(eligible.Keys);
      assert t in Coalesced(Queued(s.requests, r.zone), eligible);
    }
  }

  lemma {:induction false} RunsKeepInv(states: seq<State>, actions: seq<Action>, i: nat)
    requires IsRun(states, actions) && i < |states|
    ensures Inv(states[i])
  {
    if i == 0 {
    } else {
      RunsKeepInv(states, actions, i - 1);
      assert Step(states[i - 1], actions[i - 1], states[i - 1 + 1]);
      StepKeepsInv(states[i - 1], actions[i - 1], states[i]);
    }
  }

  // ---------------------------------------------------------------------------------------
  // No lost wake-up, and the one way to lose one.

  // The runner ends with an error while something else is queued whose token it has consumed.
  ghost predicate Strands(s: State, a: Action) {
    a.Stop? && s.runner.Processing? && s.requests != map[] && !s.wake && !SomeoneSends(s)
  }

  // A requester queues something, and will ring.
  ghost predicate Queues(s: State, a: Action) {
    && a.Enqueue? && a.id in s.requesters && s.requesters[a.id].Observed?
    && Eligible(s.active, s.failed, s.requesters[a.id].zone, s.requesters[a.id].boundaries, s.requesters[a.id].retry) != map[]
  }

  // Every step: requests are stranded afterwards exactly if the step strands them, or they were
  // stranded before and nobody queues anything.
  lemma StrandedByStep(s: State, a: Action, s': State)
    requires Step(s, a, s')
    ensures Stranded(s') <==> Strands(s, a) || (Stranded(s) && !Queues(s, a))
  {
    if a.Observe? || a.Enqueue? {
      forall id | id in s.requesters && s.requesters[id].Sending? ensures id in s'.requesters && s'.requesters[id].Sending? {}
      if Queues(s, a) {
        assert a.id in s'.requesters && s'.requesters[a.id].Sending?;
      } else {
        forall id | id in s'.requesters && s'.requesters[id].Sending? ensures id in s.requesters && s.requesters[id].Sending? {}
      }
    }
  }

  // Over all runs, restarts included: requests are stranded exactly between a stranding stop and
  // the next time somebody queues something.
  lemma {:induction false} StrandedExactly(states: seq<State>, actions: seq<Action>, i: nat)
    requires IsRun(states, actions) && i < |states|
    ensures Stranded(states[i]) <==>
      exists j :: 0 <= j < i && Strands(states[j], actions[j]) && QuietBetween(states, actions, j, i)
  {
    if i == 0 {
    } else {
      var n := i - 1;
      StrandedExactly(states, actions, n);
      assert Step(states[n], actions[n], states[n + 1]);
      StrandedByStep(states[n], actions[n], states[i]);
      if Stranded(states[i]) {
        if Strands(states[n], actions[n]) {
          assert QuietBetween(states, actions, n, i);
        } else {
          var j :| 0 <= j < n && Strands(states[j], actions[j]) && QuietBetween(states, actions, j, n);
          assert QuietBetween(states, actions, j, i);
        }
      }
      if j :| 0 <= j < i && Strands(states[j], actions[j]) && QuietBetween(states, actions, j, i) {
        assert j < n ==> QuietBetween(states, actions, j, n) && !Queues(states[n], actions[n]);
      }
    }
  }

  ghost predicate QuietBetween(states: seq<State>, actions: seq<Action>, j: nat, i: nat)
    requires i <= |states| == |actions| + 1
  {
    forall k :: j < k < i && k < |actions| ==> !Queues(states[k], actions[k])
  }

  // As long as no stop strands anything, whatever is queued has a token, a runner at work or a
  // requester about to ring.
  lemma NoLostWakeUp(states: seq<State>, actions: seq<Action>, i: nat)
    requires IsRun(states, actions) && i < |states|
    requires forall j :: 0 <= j < i ==> !Strands(states[j], actions[j])
    ensures states[i].requests != map[] ==>
      || states[i].wake || SomeoneSends(states[i])
      || states[i].runner.Draining? || states[i].runner.Processing?
  {
    StrandedExactly(states, actions, i);
  }

  // When everyone is at rest, something is queued only if it is stranded; otherwise every
  // request was handed to the runner.
  lemma RestMeansServed(states: seq<State>, actions: seq<Action>, i: nat)
    requires IsRun(states, actions) && i < |states|
    requires states[i].runner.Waiting? && !states[i].wake && !SomeoneSends(states[i])
    ensures states[i].requests != map[] <==>
      exists j :: 0 <= j < i && Strands(states[j], actions[j]) && QuietBetween(states, actions, j, i)
    ensures states[i].requests == map[] ==> forall z, t, p: Position :: (z, t, p) in states[i].accepted && p > 0 ==>
      exists b: Position :: b >= p && (z, t, b) in states[i].taken
  {
    StrandedExactly(states, actions, i);
    RunsKeepInv(states, actions, i);
    if states[i].requests == map[] {
      forall z, t, p: Position | (z, t, p) in states[i].accepted && p > 0
        ensures exists b: Position :: b >= p && (z, t, b) in states[i].taken
      {
        assert Covered(states[i], z, t, p);
      }
    }
  }

  // ---------------------------------------------------------------------------------------
  // A failed boundary stays blocked until Retry.

  ghost predicate Retries(s: State, a: Action, zone: Zone) {
    a.Enqueue? && a.id in s.requesters && s.requesters[a.id].Observed?
    && s.requesters[a.id].retry && s.requesters[a.id].zone == zone
  }

  lemma StepKeepsFailure(s: State, a: Action, s': State, zone: Zone, eventType: EventType)
    requires RunnerOwnsActive(s) && Step(s, a, s') && !Retries(s, a, zone)
    ensures At(s.failed, zone, eventType) <= At(s'.failed, zone, eventType)
  {
    match a
    case Fail(t) =>
      assert s.runner.boundaries[t] >= At(s.failed, s.runner.zone, t);
    case Enqueue(id) =>
    case _ =>
  }

  lemma FailureStep(states: seq<State>, actions: seq<Action>, k: nat, zone: Zone, eventType: EventType)
    requires IsRun(states, actions) && k < |actions| && !Retries(states[k], actions[k], zone)
    ensures At(states[k].failed, zone, eventType) <= At(states[k + 1].failed, zone, eventType)
  {
    assert RunnerOwnsActive(states[k]) by { RunsKeepInv(states, actions, k); }
    assert Step(states[k], actions[k], states[k + 1]);
    StepKeepsFailure(states[k], actions[k], states[k + 1], zone, eventType);
  }

  lemma {:induction false} FailureOnlyGrows(
      states: seq<State>, actions: seq<Action>, i: nat, j: nat, zone: Zone, eventType: EventType)
    requires IsRun(states, actions) && i <= j < |states|
    requires forall k :: i <= k < j ==> !Retries(states[k], actions[k], zone)
    ensures At(states[i].failed, zone, eventType) <= At(states[j].failed, zone, eventType)
  {
    if i < j {
      FailureOnlyGrows(states, actions, i, j - 1, zone, eventType);
      FailureStep(states, actions, j - 1, zone, eventType);
    }
  }

  // In every run, Retry of a zone queues each boundary it observed beyond the active one, failed or
  // not, forgets the zone's failures, and will ring; Start does so for what has not failed.
  lemma RequestIsQueued(states: seq<State>, actions: seq<Action>, i: nat, id: int, t: EventType)
    requires IsRun(states, actions) && i < |actions| && actions[i] == Enqueue(id)
    requires id in states[i].requesters && states[i].requesters[id].Observed?
    requires
      var s, r := states[i], states[i].requesters[id];
      Asks(s.active, s.failed, r.zone, r.boundaries, r.retry, t)
    ensures
      var r, s' := states[i].requesters[id], states[i + 1];
      && r.zone in s'.requests && t in s'.requests[r.zone] && s'.requests[r.zone][t] >= r.boundaries[t]
      && id in s'.requesters && s'.requesters[id].Sending? && (r.zone, t, r.boundaries[t]) in s'.accepted
      && (r.retry ==> r.zone !in s'.failed)
  {
    var s, r := states[i], states[i].requesters[id];
    assert Step(s, actions[i], states[i + 1]);
    assert t in Eligible(s.active, s.failed, r.zone, r.boundaries, r.retry);
    assert Eligible(s.active, s.failed, r.zone, r.boundaries, r.retry) != map[];
    assert (r.zone, t, r.boundaries[t]) in Entries(r.zone, Eligible(s.active, s.failed, r.zone, r.boundaries, r.retry));
    EligibleIsAsked(s.active, s.failed, r.zone, r.boundaries, r.retry);
    assert QueuedAt(Queued(s.requests, r.zone), states[i + 1].requests[r.zone], r.boundaries, true, t);
  }

  // Between a failure and the next Retry of the zone, the runner never takes the failed
  // boundary again, nor anything below it.
  lemma FailedBoundaryIsNotRerun(
      states: seq<State>, actions: seq<Action>, i: nat, j: nat, zone: Zone, eventType: EventType)
    requires IsRun(states, actions) && i <= j < |actions|
    requires forall k :: i <= k < j ==> !Retries(states[k], actions[k], zone)
    requires actions[j] == Take(zone)
    ensures zone in states[j].requests
    ensures eventType in states[j].requests[zone] ==>
      states[j].requests[zone][eventType] > At(states[i].failed, zone, eventType)
  {
    FailureOnlyGrows(states, actions, i, j, zone, eventType);
    RunsKeepInv(states, actions, j);
    assert Step(states[j], actions[j], states[j + 1]);
    assert FreshAt(states[j], zone, eventType);
  }

  // ---------------------------------------------------------------------------------------
  // A runner that stopped with an error leaves the zone it was processing active.

  ghost predicate Blocked(s: State, zone: Zone) {
    zone in s.active && !(s.runner.Processing? && s.runner.zone == zone)
  }

  lemma BlockedByStep(s: State, a: Action, s': State, zone: Zone)
    requires RunnerOwnsActive(s) && Step(s, a, s')
    ensures Blocked(s', zone) <==>
      || (a.Stop? && s.runner.Processing? && s.runner.zone == zone)
      || (Blocked(s, zone) && a != Take(zone))
    ensures Blocked(s, zone) && a != Take(zone) ==> s'.active[zone] == s.active[zone]
  {
  }

  ghost predicate NotTakenBetween(actions: seq<Action>, zone: Zone, j: nat, i: nat) {
    forall k :: j < k < i && k < |actions| ==> actions[k] != Take(zone)
  }

  ghost predicate Aborts(s: State, a: Action, zone: Zone) {
    a.Stop? && s.runner.Processing? && s.runner.zone == zone
  }

  // Over all runs a zone is blocked exactly between an error while it was processed and the next
  // time the runner takes it.
  lemma {:induction false} BlockedExactly(states: seq<State>, actions: seq<Action>, zone: Zone, i: nat)
    requires IsRun(states, actions) && i < |states|
    ensures Blocked(states[i], zone) <==>
      exists j :: 0 <= j < i && Aborts(states[j], actions[j], zone) && NotTakenBetween(actions, zone, j, i)
  {
    if i == 0 {
    } else {
      var n := i - 1;
      BlockedExactly(states, actions, zone, n);
      RunsKeepInv(states, actions, n);
      assert Step(states[n], actions[n], states[n + 1]);
      BlockedByStep(states[n], actions[n], states[i], zone);
      if Blocked(states[i], zone) {
        if Aborts(states[n], actions[n], zone) {
          assert NotTakenBetween(actions, zone, n, i);
        } else {
          var j :| 0 <= j < n && Aborts(states[j], actions[j], zone) && NotTakenBetween(actions, zone, j, n);
          assert NotTakenBetween(actions, zone, j, i);
        }
      }
      if j :| 0 <= j < i && Aborts(states[j], actions[j], zone) && NotTakenBetween(actions, zone, j, i) {
        assert j < n ==> NotTakenBetween(actions, zone, j, n) && actions[n] != Take(zone);
      }
    }
  }

  // Meanwhile a request, retried or not, queues an event type there only beyond the boundary
  // that was being processed, and so the zone is next taken with a later boundary only.
  lemma {:induction false} AbortedZoneStaysBlocked(states: seq<State>, actions: seq<Action>, zone: Zone, i: nat, j: nat)
    requires IsRun(states, actions) && i < j < |states| && Aborts(states[i], actions[i], zone)
    requires NotTakenBetween(actions, zone, i, j)
    ensures zone in states[j].active && states[j].active[zone] == states[i].runner.boundaries
    ensures forall observed: Boundaries, retry, t ::
      t in Eligible(states[j].active, states[j].failed, zone, observed, retry) ==>
      observed[t] > Entry(states[i].runner.boundaries, t)
    ensures zone in states[j].requests ==> forall t :: t in states[j].requests[zone] ==>
      states[j].requests[zone][t] > Entry(states[i].runner.boundaries, t)
  {
    var n := j - 1;
    RunsKeepInv(states, actions, n);
    assert Step(states[n], actions[n], states[n + 1]);
    BlockedByStep(states[n], actions[n], states[j], zone);
    if i < n {
      assert NotTakenBetween(actions, zone, i, n);
      AbortedZoneStaysBlocked(states, actions, zone, i, n);
      BlockedExactly(states, actions, zone, n);
    }
    RunsKeepInv(states, actions, j);
    if zone in states[j].requests {
      forall t | t in states[j].requests[zone] ensures states[j].requests[zone][t] > At(states[j].active, zone, t) {
        assert FreshAt(states[j], zone, t);
      }
    }
  }

  // A zone queued by one requester, from lock to ring.
  lemma QueueOne(states: seq<State>, actions: seq<Action>, zone: Zone)
    returns (states': seq<State>, actions': seq<Action>)
    requires IsRun(states, actions) && zone > 0
    requires
      var s := states[|states| - 1];
      s.runner.Waiting? && s.requesters == map[] && s.active == map[] && s.failed == map[] && zone !in s.requests
    ensures IsRun(states', actions')
    ensures
      var s, s' := states[|states| - 1], states'[|states'| - 1];
      s' == s.(requests := s.requests[zone := map[0 := 1]], wake := true, accepted := s.accepted + Entries(zone, map[0 := 1]))
  {
    var b: Boundaries := map[0 := 1];
    var s := states[|states| - 1];
    var s1 := s.(requesters := map[0 := Observed(zone, b, false)]);
    assert Eligible(s.active, s.failed, zone, b, false) == b && Coalesced(map[], b) == b;
    var s2 := Enqueued(s1, 0, s1.requesters[0]);
    var s3 := s2.(wake := true, requesters := s2.requesters - {0});
    assert s3.requesters == map[];
    states' := states + [s1] + [s2] + [s3];
    actions' := actions + [Observe(0, zone, b, false)] + [Enqueue(0)] + [Send(0)];
  }

  // Two zones share one token; an error in the first strands the second, and the restarted
  // runner waits although a request is queued.
  lemma StopStrandsRequests() returns (states: seq<State>, actions: seq<Action>)
    ensures IsRun(states, actions)
    ensures
      var last := states[|states| - 1];
      last.runner.Waiting? && Stranded(last) && last.requesters == map[]
  {
    assert IsRun([INITIAL], []);
    states, actions := QueueOne([INITIAL], [], 1);
    states, actions := QueueOne(states, actions, 2);
    var s := states[|states| - 1];
    var s1 := s.(wake := false, runner := Draining);
    var s2 := s1.(
      requests := s1.requests - {1}, active := s1.active[1 := s1.requests[1]],
      runner := Processing(1, s1.requests[1]), taken := s1.taken + Entries(1, s1.requests[1]));
    var s3 := s2.(runner := Stopped);
    var s4 := s3.(runner := Waiting);
    states := states + [s1] + [s2] + [s3] + [s4];
    actions := actions + [Receive] + [Take(1)] + [Stop] + [Restart];
    assert 2 in s4.requests;
  }
}
