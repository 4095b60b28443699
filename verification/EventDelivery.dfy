/**
 Delivery of journal events to a consumer (journal/reader.go, journal/dispatcher.go and the
 processing loop of internal/actionruntime/runtime.go): ordered reads, handling, and positions
 that advance by compare-and-set, for one zone and one event type.
 */
module EventDelivery {
  import opened Widths
  import opened Wrappers

  type EventID = int
  type EventType = int
  type Version = int
  type StreamID = int

  datatype Event = Event(
    eventType: EventType, version: Version, sequence: nat,
    id: EventID, causation: EventID, stream: StreamID, streamSequence: nat)

  // The event type's journal: append-only, in sequence order. Sequences may have gaps.
  ghost predicate Ordered(log: seq<Event>) {
    forall i, j :: 0 <= i < j < |log| ==> log[i].sequence < log[j].sequence
  }

  // ---------------------------------------------------------------------------------------
  // Reading.

  datatype ReadError = BoundaryBehind | BadLimit | WrongType(index: nat) | NotOrdered(index: nat) |
    WrongStream(index: nat) | NotContiguous(index: nat)

  // The prefix before an exclusive position.
  function TrimThrough(events: seq<Event>, through: nat): seq<Event> {
    if events == [] || events[0].sequence >= through then [] else [events[0]] + TrimThrough(events[1..], through)
  }

  lemma {:induction false} TrimIsPrefix(events: seq<Event>, through: nat)
    ensures TrimThrough(events, through) <= events
    ensures forall e :: e in TrimThrough(events, through) ==> e.sequence < through
    ensures |TrimThrough(events, through)| < |events| ==> events[|TrimThrough(events, through)|].sequence >= through
  {
    if events != [] && events[0].sequence < through {
      TrimIsPrefix(events[1..], through);
      assert events == [events[0]] + events[1..];
    }
  }

  ghost predicate OrderedFrom(events: seq<Event>, from: nat) {
    Ordered(events) && (events != [] ==> events[0].sequence >= from)
  }

  // Service.Events over whatever the store returned: accepts exactly answers of the right type
  // that are strictly ordered from the position asked for.
  method Events(stored: seq<Event>, eventType: EventType, from: nat, through: nat, limit: int)
    returns (result: Result<seq<Event>, ReadError>)
    ensures result.Ok? <==>
      && through >= from && limit > 0
      && (forall e :: e in stored ==> e.eventType == eventType) && OrderedFrom(stored, from)
    ensures result.Ok? ==> result.value == TrimThrough(stored, through)
    ensures result.Ok? ==> result.value <= stored && forall e :: e in result.value ==> from <= e.sequence < through
    ensures result.Ok? && |result.value| < |stored| ==> stored[|result.value|].sequence >= through
  {
    if through < from { return Err(BoundaryBehind); }
    if limit <= 0 { return Err(BadLimit); }
    var previous := from;
    for index := 0 to |stored|
      invariant forall k :: 0 <= k < index ==> stored[k].eventType == eventType
      invariant forall j, k :: 0 <= j < k < index ==> stored[j].sequence < stored[k].sequence
      invariant index > 0 ==> stored[0].sequence >= from && previous == stored[index - 1].sequence
    {
      var event := stored[index];
      assert event in stored;
      if event.eventType != eventType { return Err(WrongType(index)); }
      if event.sequence < from || (index > 0 && event.sequence <= previous) {
        return Err(NotOrdered(index));
      }
      previous := event.sequence;
    }
    TrimIsPrefix(stored, through);
    forall e | e in TrimThrough(stored, through) ensures e.sequence >= from {
      assert e in stored;
      assert e == stored[0] || stored[0].sequence < e.sequence;
    }
    return Ok(TrimThrough(stored, through));
  }

  // The unbroken continuation of a stream, as far as sequences reach.
  ghost predicate Continues(stored: seq<Event>, stream: StreamID, after: nat) {
    && after + |stored| <= MAX_UINT64
    && forall k :: 0 <= k < |stored| ==> stored[k].stream == stream && stored[k].streamSequence == after + 1 + k
  }

  // Service.StreamEventsAfter over whatever the store returned: accepts exactly such a
  // continuation.
  method StreamEventsAfter(stored: seq<Event>, stream: StreamID, after: nat, limit: int)
    returns (result: Result<seq<Event>, ReadError>)
    requires after <= MAX_UINT64
    ensures result.Ok? <==> limit > 0 && Continues(stored, stream, after)
    ensures result.Ok? ==> result.value == stored
  {
    if limit <= 0 { return Err(BadLimit); }
    var previous := after;
    for index := 0 to |stored|
      invariant previous == after + index <= MAX_UINT64
      invariant forall k :: 0 <= k < index ==> stored[k].stream == stream && stored[k].streamSequence == after + 1 + k
    {
      if stored[index].stream != stream { return Err(WrongStream(index)); }
      if previous == MAX_UINT64 || stored[index].streamSequence != previous + 1 { return Err(NotContiguous(index)); }
      previous := stored[index].streamSequence;
    }
    return Ok(stored);
  }

  // Where the events from a position on begin.
  function FirstAt(log: seq<Event>, position: nat): (k: nat)
    ensures k <= |log|
  {
    if log == [] || log[0].sequence >= position then 0 else 1 + FirstAt(log[1..], position)
  }

  lemma {:induction false} FirstAtSplits(log: seq<Event>, position: nat)
    requires Ordered(log)
    ensures forall i :: 0 <= i < FirstAt(log, position) ==> log[i].sequence < position
    ensures forall i :: FirstAt(log, position) <= i < |log| ==> log[i].sequence >= position
  {
    if log != [] && log[0].sequence < position {
      FirstAtSplits(log[1..], position);
      forall i | 0 <= i < FirstAt(log, position) ensures log[i].sequence < position {
        if i > 0 { assert log[1..][i - 1] == log[i]; }
      }
      forall i | FirstAt(log, position) <= i < |log| ensures log[i].sequence >= position {
        assert log[1..][i - 1] == log[i];
      }
    }
  }

  lemma {:induction false} FirstAtStays(log: seq<Event>, e: Event, position: nat)
    requires FirstAt(log, position) < |log|
    ensures FirstAt(log + [e], position) == FirstAt(log, position)
  {
    if log[0].sequence < position {
      FirstAtStays(log[1..], e, position);
      assert (log + [e])[1..] == log[1..] + [e];
    }
  }

  // The store's answer: the first `limit` events from the position on.
  function ReadFrom(log: seq<Event>, position: nat, limit: nat): seq<Event> {
    var k := FirstAt(log, position);
    if |log| - k <= limit then log[k..] else log[k..k + limit]
  }

  // ---------------------------------------------------------------------------------------
  // One consumer on its own.

  ghost function Subscribed(log: seq<Event>, version: Version, from: nat, to: nat): seq<Event> {
    if log == [] then []
    else
      var last := log[|log| - 1];
      Subscribed(log[..|log| - 1], version, from, to) +
      (if from <= last.sequence < to && last.version == version then [last] else [])
  }

  datatype Handling = Handled | Incomplete | Failed

  datatype Outcome = Done | MarkedFailed(event: Event) | HandlerError(event: Event) | EndedEarly

  class Consumer {
    var position: nat          // persisted
    ghost var handled: seq<Event>   // successful calls of the handler, in order

    constructor ()
      ensures position == 0 && handled == []
    {
      position := 0;
      handled := [];
    }

    // One read: a stretch of the journal starting at the position. `handle(k, e)` is the
    // handler's answer when `e` is the k-th event it is given; stops at the first event it does
    // not handle. `before` is what had been handled when the position was `from`.
    method Deliver(log: seq<Event>, version: Version, events: seq<Event>, handle: (nat, Event) -> Handling, calls: nat,
                   ghost before: seq<Event>, ghost from: nat)
      returns (outcome: Outcome, newCalls: nat)
      requires Ordered(log) && IsStretch(log, position, events)
      requires from <= position && handled == before + Subscribed(log, version, from, position)
      requires calls == |handled| - |before| && AnsweredBy(handle, Subscribed(log, version, from, position), Done)
      modifies this
      ensures handled == before + Subscribed(log, version, from, position)
      ensures Delivered(log, version, old(position), |events|, position, outcome)
      ensures AnsweredBy(handle, Subscribed(log, version, from, position), outcome)
      ensures outcome.Done? ==> newCalls == |handled| - |before|
    {
      ghost var start, begin, served := FirstAt(log, position), position, Subscribed(log, version, from, position);
      newCalls := calls;
      for index := 0 to |events|
        invariant from <= position && begin <= position == Reached(log, begin, start + index)
        invariant handled == before + served && served == Subscribed(log, version, from, position)
        invariant newCalls == |served| && AnsweredBy(handle, served, Done)
      {
        var event := events[index];
        DeliverStep(log, version, from, begin, position, start + index);
        if event.version == version {
          var answer := handle(newCalls, event);
          if answer.Incomplete? { return MarkedFailed(event), newCalls; }
          if answer.Failed? { return HandlerError(event), newCalls; }
          AnsweredGrows(handle, served, event);
          newCalls := newCalls + 1;
          handled, served := handled + [event], served + [event];
        }
        position := event.sequence + 1;
      }
      return Done, newCalls;
    }

    // processEventType.
    method ProcessEventType(
        log: seq<Event>, version: Version, through: nat, readLimit: nat, handle: (nat, Event) -> Handling)
      returns (outcome: Outcome)
      requires Ordered(log) && readLimit > 0
      modifies this
      ensures position >= old(position)
      ensures position <= through || position == old(position)
      ensures handled == old(handled) + Subscribed(log, version, old(position), position)
      ensures AnsweredBy(handle, Subscribed(log, version, old(position), position), outcome)
      ensures outcome.Done? ==> position >= through
      ensures Stopped(log, version, position, outcome)
      ensures outcome.MarkedFailed? || outcome.HandlerError? ==> outcome.event.sequence < through
      ensures outcome.EndedEarly? ==> position < through && NothingBetween(log, position, through)
      ensures (forall k, e :: handle(k, e).Handled?) ==> outcome.Done? || outcome.EndedEarly?
      ensures old(handled) <= handled
      ensures Serves(log, version, old(position), position, handled[|old(handled)|..])
      ensures outcome.MarkedFailed? || outcome.HandlerError? ==> FirstUnserved(log, version, position, outcome.event)
    {
      var calls := 0;
      ghost var from, before := position, handled;
      outcome := Done;
      NothingSubscribed(log, version, position, position);
      while outcome.Done? && position < through
        invariant from <= position && (position <= through || position == from)
        invariant handled == before + Subscribed(log, version, from, position)
        invariant AnsweredBy(handle, Subscribed(log, version, from, position), outcome)
        invariant outcome.Done? ==> calls == |handled| - |before|
        invariant Ended(log, version, position, through, outcome)
        decreases outcome.Done?, through - position
      {
        var events := TrimThrough(ReadFrom(log, position, readLimit), through);
        ghost var start := position;
        ReadIsStretch(log, start, readLimit, through, events);
        if events == [] {
          outcome := EndedEarly;
        } else {
          outcome, calls := Deliver(log, version, events, handle, calls, before, from);
          AfterDeliver(log, version, start, |events|, position, through, outcome);
        }
      }
      SubscribedServes(log, version, from, position);
      assert handled[|before|..] == Subscribed(log, version, from, position);
      if outcome.MarkedFailed? || outcome.HandlerError? { StoppedIsFirst(log, version, position, outcome); }
    }
  }

  ghost predicate AllHandled(handle: (nat, Event) -> Handling, events: seq<Event>, count: nat) {
    forall k :: 0 <= k < count && k < |events| ==> handle(k, events[k]).Handled?
  }

  // The handler was given the served events in order and handled each; when one more ended the
  // run, that is the answer the handler gave for it.
  ghost predicate AnsweredBy(handle: (nat, Event) -> Handling, served: seq<Event>, outcome: Outcome) {
    && AllHandled(handle, served, |served|)
    && (outcome.MarkedFailed? ==> handle(|served|, outcome.event).Incomplete?)
    && (outcome.HandlerError? ==> handle(|served|, outcome.event).Failed?)
  }

  lemma AnsweredGrows(handle: (nat, Event) -> Handling, served: seq<Event>, event: Event)
    requires AnsweredBy(handle, served, Done) && handle(|served|, event).Handled?
    ensures AnsweredBy(handle, served + [event], Done)
  {
    var more := served + [event];
    forall k | 0 <= k < |more| ensures handle(k, more[k]).Handled? {
      if k < |served| { assert more[k] == served[k]; }
    }
  }

  // Exactly the subscribed events of a stretch of positions, in order.
  ghost predicate Serves(log: seq<Event>, version: Version, from: nat, to: nat, served: seq<Event>) {
    && (forall e :: e in served <==> e in log && e.version == version && from <= e.sequence < to)
    && (forall i, j :: 0 <= i < j < |served| ==> served[i].sequence < served[j].sequence)
  }

  lemma {:induction false} SubscribedServes(log: seq<Event>, version: Version, from: nat, to: nat)
    requires Ordered(log)
    ensures Serves(log, version, from, to, Subscribed(log, version, from, to))
  {
    if log == [] {
    } else {
      var before, last := log[..|log| - 1], log[|log| - 1];
      SubscribedServes(before, version, from, to);
      assert log == before + [last];
      var served := Subscribed(before, version, from, to);
      forall i | 0 <= i < |served| ensures served[i].sequence < last.sequence {
        var e := served[i];
        assert e in served;
        var k :| 0 <= k < |before| && before[k] == e;
        assert log[k].sequence < log[|log| - 1].sequence;
      }
    }
  }

  // The event is subscribed, and the first one at or after the position.
  ghost predicate FirstUnserved(log: seq<Event>, version: Version, position: nat, event: Event) {
    && event in log && event.version == version && event.sequence >= position
    && forall e :: e in log && e.sequence >= position ==> e.sequence >= event.sequence
  }

  lemma StoppedIsFirst(log: seq<Event>, version: Version, position: nat, outcome: Outcome)
    requires Ordered(log) && Stopped(log, version, position, outcome)
    requires outcome.MarkedFailed? || outcome.HandlerError?
    ensures FirstUnserved(log, version, position, outcome.event)
  {
    FirstAtSplits(log, position);
    var k := FirstAt(log, position);
    assert log[k] in log;
    forall e | e in log && e.sequence >= position ensures e.sequence >= log[k].sequence {
      var i :| 0 <= i < |log| && log[i] == e;
      assert i >= k;
    }
  }

  // What follows from how a run ended.
  ghost predicate Ended(log: seq<Event>, version: Version, position: nat, through: nat, outcome: Outcome) {
    && Stopped(log, version, position, outcome)
    && (outcome.MarkedFailed? || outcome.HandlerError? ==> outcome.event.sequence < through)
    && (outcome.EndedEarly? ==> position < through && NothingBetween(log, position, through))
  }

  ghost predicate IsStretch(log: seq<Event>, position: nat, events: seq<Event>) {
    var start := FirstAt(log, position);
    start + |events| <= |log| && events == log[start..start + |events|]
  }

  // An event that was not handled is the first one at the position left behind.
  ghost predicate Stopped(log: seq<Event>, version: Version, position: nat, outcome: Outcome) {
    outcome.MarkedFailed? || outcome.HandlerError? ==>
      && FirstAt(log, position) < |log| && log[FirstAt(log, position)] == outcome.event
      && outcome.event.version == version
  }

  ghost predicate NothingBetween(log: seq<Event>, position: nat, through: nat) {
    forall e :: e in log ==> !(position <= e.sequence < through)
  }

  // A trimmed read is the stretch of the journal from the position; an empty one means there is
  // nothing between the position and the boundary.
  lemma ReadIsStretch(log: seq<Event>, position: nat, limit: nat, through: nat, events: seq<Event>)
    requires Ordered(log) && limit > 0
    requires events == TrimThrough(ReadFrom(log, position, limit), through)
    ensures IsStretch(log, position, events) && StretchBelow(log, FirstAt(log, position), |events|, through)
    ensures events == [] ==> NothingBetween(log, position, through)
  {
    FirstAtSplits(log, position);
    TrimIsPrefix(ReadFrom(log, position, limit), through);
    var start := FirstAt(log, position);
    forall i | start <= i < start + |events| ensures log[i].sequence < through {
      var e := events[i - start];
      assert e in events && e == log[i];
    }
  }

  ghost predicate StretchBelow(log: seq<Event>, start: nat, count: nat, through: nat) {
    start + count <= |log| && forall i :: start <= i < start + count ==> log[i].sequence < through
  }

  lemma AfterDeliver(
      log: seq<Event>, version: Version, before: nat, count: nat, position: nat, through: nat, outcome: Outcome)
    requires Ordered(log) && count > 0 && StretchBelow(log, FirstAt(log, before), count, through)
    requires Delivered(log, version, before, count, position, outcome)
    ensures position <= through && (outcome.Done? ==> position > before)
    ensures Ended(log, version, position, through, outcome)
  {
    FirstAtSplits(log, before);
    FirstAtSplits(log, position);
  }

  // Where a delivery of `count` events from `before` on ends.
  ghost predicate Delivered(
      log: seq<Event>, version: Version, before: nat, count: nat, position: nat, outcome: Outcome)
  {
    var start := FirstAt(log, before);
    && start + count <= |log| && position >= before && Stopped(log, version, position, outcome) && !outcome.EndedEarly?
    && (if !outcome.Done? then FirstAt(log, position) < start + count
        else position == Reached(log, before, start + count))
  }

  lemma {:induction false} NothingSubscribed(log: seq<Event>, version: Version, from: nat, to: nat)
    requires forall e :: e in log ==> !(from <= e.sequence < to)
    ensures Subscribed(log, version, from, to) == []
  {
    if log == [] {
    } else {
      assert log[|log| - 1] in log;
      NothingSubscribed(log[..|log| - 1], version, from, to);
    }
  }

  lemma NextIs(log: seq<Event>, position: nat, k: nat)
    requires Ordered(log) && k < |log| && log[k].sequence >= position
    requires k > 0 ==> log[k - 1].sequence < position
    ensures FirstAt(log, position) == k
  {
    FirstAtSplits(log, position);
    var f := FirstAt(log, position);
    assert k <= f;
  }

  // The position after the events before `k`, for a start at `begin`.
  ghost function Reached(log: seq<Event>, begin: nat, k: nat): nat
    requires FirstAt(log, begin) <= k <= |log|
  {
    if k == FirstAt(log, begin) then begin else log[k - 1].sequence + 1
  }

  lemma PositionIs(log: seq<Event>, begin: nat, position: nat, k: nat)
    requires Ordered(log) && FirstAt(log, begin) <= k < |log|
    requires position == Reached(log, begin, k)
    ensures FirstAt(log, position) == k && position <= log[k].sequence
  {
    FirstAtSplits(log, begin);
    NextIs(log, position, k);
  }

  lemma {:induction false} SubscribedStep(log: seq<Event>, version: Version, from: nat, position: nat, k: nat)
    requires Ordered(log) && k < |log| && FirstAt(log, position) == k && from <= position <= log[k].sequence
    ensures Subscribed(log, version, from, log[k].sequence + 1) ==
      Subscribed(log, version, from, position) + (if log[k].version == version then [log[k]] else [])
  {
    FirstAtSplits(log, position);
    if k == |log| - 1 {
      SubscribedSame(log[..k], version, from, position, log[k].sequence + 1);
    } else {
      var before, last := log[..|log| - 1], log[|log| - 1];
      assert log == before + [last] && before[k] == log[k];
      NextIs(before, position, k);
      SubscribedStep(before, version, from, position, k);
      assert log[k].sequence < last.sequence;
    }
  }

  lemma DeliverStep(log: seq<Event>, version: Version, from: nat, begin: nat, position: nat, k: nat)
    requires Ordered(log) && FirstAt(log, begin) <= k < |log| && from <= position
    requires position == Reached(log, begin, k)
    ensures FirstAt(log, position) == k && position <= log[k].sequence
    ensures Subscribed(log, version, from, log[k].sequence + 1) ==
      Subscribed(log, version, from, position) + (if log[k].version == version then [log[k]] else [])
  {
    PositionIs(log, begin, position, k);
    SubscribedStep(log, version, from, position, k);
  }

  lemma {:induction false} SubscribedSame(log: seq<Event>, version: Version, from: nat, a: nat, b: nat)
    requires a <= b && forall i :: 0 <= i < |log| ==> log[i].sequence < a
    ensures Subscribed(log, version, from, a) == Subscribed(log, version, from, b)
  {
    if log != [] { SubscribedSame(log[..|log| - 1], version, from, a, b); }
  }

  // ---------------------------------------------------------------------------------------
  // The dispatcher's causal continuation.

  // `read(k, e)` is the store's answer to the k-th read for what follows `e` in its stream, None
  // when it fails. Answers may differ from one read to the next: the handler itself appends to
  // the stream.
  type StreamReader = (nat, Event) -> Option<seq<Event>>

  ghost predicate ReadOk(read: StreamReader, k: nat, e: Event) {
    read(k, e).Some? && Continues(read(k, e).value, e.stream, e.streamSequence)
  }

  // The direct continuation of `e`, if there is one to follow.
  ghost function Next(read: StreamReader, handles: Event -> bool, k: nat, e: Event): Option<Event> {
    if ReadOk(read, k, e) && read(k, e).value != []
        && read(k, e).value[0].causation == e.id && handles(read(k, e).value[0])
    then Some(read(k, e).value[0]) else None
  }

  // The event and the unbroken run of its direct continuations, the first being number `k`.
  // Stream sequences are bounded, so every run ends.
  ghost function CausalChain(read: StreamReader, handles: Event -> bool, k: nat, e: Event): seq<Event>
    requires e.streamSequence <= MAX_UINT64
    decreases MAX_UINT64 - e.streamSequence
  {
    var next := Next(read, handles, k, e);
    [e] + (if next.Some? then CausalChain(read, handles, k + 1, next.value) else [])
  }

  // The store's answer holds a contiguous continuation whose first event was caused by `e` and is
  // one the consumer handles.
  ghost predicate CanContinue(read: StreamReader, handles: Event -> bool, k: nat, e: Event) {
    && read(k, e).Some? && read(k, e).value != []
    && (forall i :: 0 <= i < |read(k, e).value| ==>
      && read(k, e).value[i].stream == e.stream
      && read(k, e).value[i].streamSequence == e.streamSequence + 1 + i <= MAX_UINT64)
    && read(k, e).value[0].causation == e.id && handles(read(k, e).value[0])
  }

  // Event i, the chain being numbered from `k`, was read on, and the next one is what it caused.
  ghost predicate LinkedFrom(read: StreamReader, handles: Event -> bool, chain: seq<Event>, k: nat, i: nat) {
    && i + 1 < |chain| && CanContinue(read, handles, k + i, chain[i]) && chain[i + 1] == read(k + i, chain[i]).value[0]
    && chain[i + 1].causation == chain[i].id && chain[i + 1].stream == chain[i].stream
    && chain[i + 1].streamSequence == chain[i].streamSequence + 1
  }

  lemma NextExactly(read: StreamReader, handles: Event -> bool, k: nat, e: Event)
    requires e.streamSequence <= MAX_UINT64
    ensures Next(read, handles, k, e).Some? <==> CanContinue(read, handles, k, e)
  {
    if CanContinue(read, handles, k, e) {
      var stored := read(k, e).value;
      assert stored[|stored| - 1].streamSequence == e.streamSequence + |stored|;
    }
  }

  // The chain from number `k` on, by its links.
  lemma {:induction false} ChainIsLinked(read: StreamReader, handles: Event -> bool, k: nat, e: Event)
    requires e.streamSequence <= MAX_UINT64
    ensures
      var chain := CausalChain(read, handles, k, e);
      && chain != [] && chain[0] == e && !CanContinue(read, handles, k + |chain| - 1, chain[|chain| - 1])
      && forall i :: 0 <= i < |chain| - 1 ==> LinkedFrom(read, handles, chain, k, i)
    decreases MAX_UINT64 - e.streamSequence
  {
    var chain, next := CausalChain(read, handles, k, e), Next(read, handles, k, e);
    NextExactly(read, handles, k, e);
    if next.Some? {
      ChainIsLinked(read, handles, k + 1, next.value);
      var rest := CausalChain(read, handles, k + 1, next.value);
      assert chain == [e] + rest;
      forall i | 0 <= i < |chain| - 1 ensures LinkedFrom(read, handles, chain, k, i) {
        if i > 0 { assert LinkedFrom(read, handles, rest, k + 1, i - 1); }
      }
    } else {
      assert chain == [e];
    }
  }

  datatype ChainEnd = Followed | NotHandled | ReadFailed

  // handleCausalStream: handles the chain in order, up to and including the first event the
  // handler fails on; when all is handled, the last read decides between success and an error.
  method HandleCausalStream(read: StreamReader, handles: Event -> bool, event: Event, handle: (nat, Event) -> Handling)
    returns (end: ChainEnd, calls: nat, ghost chain: seq<Event>)
    requires event.streamSequence <= MAX_UINT64
    ensures chain == CausalChain(read, handles, 0, event) && HandledChain(read, chain, handle, end, calls)
    ensures chain[0] == event && forall i :: 0 <= i < |chain| - 1 ==> LinkedFrom(read, handles, chain, 0, i)
    ensures !CanContinue(read, handles, |chain| - 1, chain[|chain| - 1])
  {
    end, calls := FollowChain(read, handles, event, handle);
    chain := CausalChain(read, handles, 0, event);
    ChainIsLinked(read, handles, 0, event);
  }

  ghost predicate HandledChain(
      read: StreamReader, chain: seq<Event>, handle: (nat, Event) -> Handling, end: ChainEnd, calls: nat)
  {
    && 0 < calls <= |chain| && AllHandled(handle, chain, calls - 1)
    && (end.NotHandled? <==> !handle(calls - 1, chain[calls - 1]).Handled?)
    && (end.NotHandled? <==> !AllHandled(handle, chain, |chain|))
    && (!end.NotHandled? ==> calls == |chain| && (end.Followed? <==> ReadOk(read, calls - 1, chain[calls - 1])))
  }

  method FollowChain(read: StreamReader, handles: Event -> bool, event: Event, handle: (nat, Event) -> Handling)
    returns (end: ChainEnd, calls: nat)
    requires event.streamSequence <= MAX_UINT64
    ensures HandledChain(read, CausalChain(read, handles, 0, event), handle, end, calls)
  {
    var current := event;
    ghost var chain := CausalChain(read, handles, 0, event);
    calls := 0;
    while true
      invariant current.streamSequence <= MAX_UINT64
      invariant calls < |chain| && AllHandled(handle, chain, calls)
      invariant chain[calls..] == CausalChain(read, handles, calls, current)
      decreases MAX_UINT64 - current.streamSequence
    {
      ChainSplits(read, handles, current, chain, calls);
      var answer := handle(calls, current);
      calls := calls + 1;
      if !answer.Handled? { return NotHandled, calls; }
      var stored := read(calls - 1, current);
      if stored.None? { return ReadFailed, calls; }
      var next := StreamEventsAfter(stored.value, current.stream, current.streamSequence, 1);
      if next.Err? { return ReadFailed, calls; }
      if next.value == [] || next.value[0].causation != current.id { return Followed, calls; }
      if !handles(next.value[0]) { return Followed, calls; }
      current := next.value[0];
    }
  }

  lemma ChainSplits(read: StreamReader, handles: Event -> bool, e: Event, chain: seq<Event>, calls: nat)
    requires e.streamSequence <= MAX_UINT64
    requires calls < |chain| && chain[calls..] == CausalChain(read, handles, calls, e)
    ensures chain[calls] == e
    ensures
      var next := Next(read, handles, calls, e);
      chain[calls + 1..] == if next.Some? then CausalChain(read, handles, calls + 1, next.value) else []
    ensures Next(read, handles, calls, e).None? <==> calls + 1 == |chain|
  {
    assert chain[calls..][0] == e;
    assert chain[calls + 1..] == chain[calls..][1..];
  }

  // ---------------------------------------------------------------------------------------
  // Any number of workers of one consumer, with crashes and restarts.

  // A worker has read `remaining` and, when `done`, already handled its first event.
  datatype Worker = Worker(position: nat, through: nat, remaining: seq<Event>, done: bool)

  datatype State = State(log: seq<Event>, position: nat, handled: set<Event>, workers: map<int, Worker>)

  datatype Action =
    | Append(event: Event)
    | Begin(id: int, through: nat)
    | Read(id: int, limit: nat)
    | Handle(id: int)
    | Advance(id: int)
    | Leave(id: int)          // finished, failed, incomplete or crashed

  function Head(log: seq<Event>): nat {
    if log == [] then 0 else log[|log| - 1].sequence + 1
  }

  ghost predicate Step(version: Version, s: State, a: Action, s': State) {
    match a
    case Append(e) => e.sequence >= Head(s.log) && s' == s.(log := s.log + [e])
    case Begin(id, through) =>
      id !in s.workers && through <= Head(s.log) && s' == s.(workers := s.workers[id := Worker(s.position, through, [], false)])
    case Read(id, limit) =>
      && id in s.workers && limit > 0
      && var w := s.workers[id];
      w.remaining == [] && w.position < w.through &&
      s' == s.(workers := s.workers[id := w.(remaining := TrimThrough(ReadFrom(s.log, w.position, limit), w.through))])
    case Handle(id) =>
      && id in s.workers && s.workers[id].remaining != [] && !s.workers[id].done
      && s.workers[id].remaining[0].version == version
      && s' == s.(handled := s.handled + {s.workers[id].remaining[0]}, workers := s.workers[id := s.workers[id].(done := true)])
    case Advance(id) =>
      && id in s.workers && s.workers[id].remaining != []
      && (s.workers[id].remaining[0].version == version ==> s.workers[id].done)
      && s' == Advanced(s, id, s.workers[id])
    case Leave(id) => id in s.workers && s' == s.(workers := s.workers - {id})
  }

  // Compare-and-set: a worker whose position is outdated fails instead of advancing.
  function Advanced(s: State, id: int, w: Worker): State
    requires w.remaining != []
  {
    var next := w.remaining[0].sequence + 1;
    if s.position != w.position then s.(workers := s.workers - {id})
    else s.(position := next, workers := s.workers[id := Worker(next, w.through, w.remaining[1..], false)])
  }

  ghost predicate IsRun(version: Version, states: seq<State>, actions: seq<Action>) {
    && |states| == |actions| + 1 && states[0] == State([], 0, {}, map[])
    && forall i :: 0 <= i < |actions| ==> Step(version, states[i], actions[i], states[i + 1])
  }

  // What a worker holds is the journal from its position on, inside its boundary.
  ghost predicate WorkerOk(s: State, w: Worker) {
    && w.position <= s.position && w.through <= Head(s.log)
    && (w.remaining != [] ==> Holds(s.log, w))
    && (w.done ==> w.remaining != [] && w.remaining[0] in s.handled)
  }

  ghost predicate Holds(log: seq<Event>, w: Worker) {
    var k := FirstAt(log, w.position);
    && k + |w.remaining| <= |log| && w.remaining == log[k..k + |w.remaining|]
    && forall i :: 0 <= i < |w.remaining| ==> w.remaining[i].sequence < w.through
  }

  ghost predicate HandledBelow(version: Version, s: State) {
    forall e :: e in s.log && e.version == version && e.sequence < s.position ==> e in s.handled
  }

  ghost predicate Inv(version: Version, s: State) {
    && Ordered(s.log) && s.position <= Head(s.log) && HandledBelow(version, s)
    && forall id :: id in s.workers ==> WorkerOk(s, s.workers[id])
  }

  lemma AppendKeepsInv(version: Version, s: State, e: Event, s': State)
    requires Inv(version, s) && Step(version, s, Append(e), s')
    ensures Inv(version, s')
  {
    forall i | 0 <= i < |s.log| ensures s.log[i].sequence < e.sequence {
      assert s.log[i].sequence <= s.log[|s.log| - 1].sequence;
    }
    forall id | id in s'.workers ensures WorkerOk(s', s'.workers[id]) {
      var w := s.workers[id];
      assert WorkerOk(s, w);
      if w.remaining != [] { FirstAtStays(s.log, e, w.position); }
    }
  }

  lemma ReadKeepsWorker(s: State, w: Worker, limit: nat)
    requires Ordered(s.log) && WorkerOk(s, w) && w.remaining == [] && limit > 0
    ensures WorkerOk(s, w.(remaining := TrimThrough(ReadFrom(s.log, w.position, limit), w.through)))
  {
    var events := TrimThrough(ReadFrom(s.log, w.position, limit), w.through);
    TrimIsPrefix(ReadFrom(s.log, w.position, limit), w.through);
    forall i | 0 <= i < |events| ensures events[i].sequence < w.through {
      var e := events[i];
      assert e in events;
    }
  }

  // Nothing subscribed lies between a worker's position and its first event.
  lemma NothingBefore(s: State, w: Worker, e: Event)
    requires Ordered(s.log) && WorkerOk(s, w) && w.remaining != []
    requires e in s.log && w.position <= e.sequence <= w.remaining[0].sequence
    ensures e == w.remaining[0]
  {
    FirstAtSplits(s.log, w.position);
    var i :| 0 <= i < |s.log| && s.log[i] == e;
    var k := FirstAt(s.log, w.position);
    assert s.log[k] == w.remaining[0];
    assert i >= k;
    assert i <= k;
  }

  // A position that moves past an event it has handled, or that is not subscribed.
  lemma MovingKeepsInv(version: Version, s: State, w: Worker)
    requires Inv(version, s) && WorkerOk(s, w) && w.remaining != [] && w.position == s.position
    requires w.remaining[0].version == version ==> w.done
    ensures Inv(version, s.(position := w.remaining[0].sequence + 1))
  {
    var first := w.remaining[0];
    var k := FirstAt(s.log, w.position);
    var s' := s.(position := first.sequence + 1);
    assert s.log[k] == first;
    FirstAtSplits(s.log, w.position);
    assert k == |s.log| - 1 || s.log[k].sequence < s.log[|s.log| - 1].sequence;
    forall e | e in s.log && e.version == version && e.sequence < s'.position ensures e in s.handled {
      if e.sequence >= s.position { NothingBefore(s, w, e); }
    }
    forall other | other in s'.workers ensures WorkerOk(s', s'.workers[other]) {
      assert WorkerOk(s, s.workers[other]);
    }
  }

  lemma AdvanceKeepsInv(version: Version, s: State, id: int)
    requires Inv(version, s) && id in s.workers && s.workers[id].remaining != []
    requires s.workers[id].remaining[0].version == version ==> s.workers[id].done
    ensures Inv(version, Advanced(s, id, s.workers[id]))
  {
    var w := s.workers[id];
    assert WorkerOk(s, w);
    if s.position == w.position {
      var next := w.remaining[0].sequence + 1;
      MovingKeepsInv(version, s, w);
      AdvanceKeepsWorker(s, w);
    }
  }

  lemma AdvanceKeepsWorker(s: State, w: Worker)
    requires Ordered(s.log) && WorkerOk(s, w) && w.remaining != []
    ensures
      var next := w.remaining[0].sequence + 1;
      WorkerOk(s.(position := next), Worker(next, w.through, w.remaining[1..], false))
  {
    var k, next := FirstAt(s.log, w.position), w.remaining[0].sequence + 1;
    var rest := w.remaining[1..];
    assert s.log[k] == w.remaining[0];
    if rest != [] {
      assert s.log[k + 1] == rest[0];
      NextIs(s.log, next, k + 1);
      assert rest == s.log[k + 1..k + 1 + |rest|];
      assert Holds(s.log, Worker(next, w.through, rest, false));
    }
  }

  lemma ReadKeepsInv(version: Version, s: State, id: int, limit: nat, s': State)
    requires Inv(version, s) && Step(version, s, Read(id, limit), s')
    ensures Inv(version, s')
  {
    var w := s.workers[id];
    assert WorkerOk(s, w);
    ReadKeepsWorker(s, w, limit);
    assert s' == s.(handled := s.handled, workers := s'.workers);
  }

  lemma StepKeepsInv(version: Version, s: State, a: Action, s': State)
    requires Inv(version, s) && Step(version, s, a, s')
    ensures Inv(version, s')
  {
    match a
    case Append(e) => AppendKeepsInv(version, s, e, s');
    case Begin(id, through) =>
    case Read(id, limit) => ReadKeepsInv(version, s, id, limit, s');
    case Handle(id) =>
    case Advance(id) => AdvanceKeepsInv(version, s, id);
    case Leave(id) =>
  }

  // At-least-once: in every reachable state each subscribed event below the persisted position
  // has been handled successfully.
  lemma {:induction false} RunsHandleBelowPosition(version: Version, states: seq<State>, actions: seq<Action>, i: nat)
    requires IsRun(version, states, actions) && i < |states|
    ensures Inv(version, states[i])
  {
    if i == 0 {
    } else {
      RunsHandleBelowPosition(version, states, actions, i - 1);
      assert Step(version, states[i - 1], actions[i - 1], states[i - 1 + 1]);
      StepKeepsInv(version, states[i - 1], actions[i - 1], states[i]);
    }
  }

  // Positions only grow, and a worker moves them to an event inside the boundary it was given.
  lemma PositionsGrowWithinBoundary(version: Version, states: seq<State>, actions: seq<Action>, i: nat)
    requires IsRun(version, states, actions) && i < |actions|
    ensures states[i].position <= states[i + 1].position
    ensures states[i + 1].position != states[i].position ==>
      && actions[i].Advance? && actions[i].id in states[i].workers
      && states[i + 1].position <= states[i].workers[actions[i].id].through
  {
    RunsHandleBelowPosition(version, states, actions, i);
    var s, a := states[i], actions[i];
    assert Step(version, s, a, states[i + 1]);
    if a.Advance? {
      var w := s.workers[a.id];
      assert WorkerOk(s, w);
      FirstAtSplits(s.log, w.position);
      assert s.log[FirstAt(s.log, w.position)] == w.remaining[0];
      assert w.remaining[0] in w.remaining;
    }
  }

  // An event left unhandled at the head of an up-to-date worker is the first one any later
  // worker reads, as long as the position has not moved: nothing else is delivered before it.
  lemma {:induction false} UnfinishedEventComesFirst(
      version: Version, states: seq<State>, actions: seq<Action>, i: nat, j: nat, id: int, limit: nat)
    requires IsRun(version, states, actions) && i <= j < |states| && limit > 0
    requires id in states[i].workers && states[i].workers[id].remaining != []
    requires states[i].workers[id].position == states[i].position == states[j].position
    ensures
      var log, event := states[j].log, states[i].workers[id].remaining[0];
      && FirstAt(log, states[j].position) < |log| && log[FirstAt(log, states[j].position)] == event
      && ReadFrom(log, states[j].position, limit) != [] && ReadFrom(log, states[j].position, limit)[0] == event
  {
    if i == j {
      RunsHandleBelowPosition(version, states, actions, i);
      assert WorkerOk(states[i], states[i].workers[id]);
    } else {
      PositionsBetween(version, states, actions, i, j - 1);
      PositionsGrowWithinBoundary(version, states, actions, j - 1);
      UnfinishedEventComesFirst(version, states, actions, i, j - 1, id, limit);
      assert Step(version, states[j - 1], actions[j - 1], states[j - 1 + 1]);
      if actions[j - 1].Append? {
        FirstAtStays(states[j - 1].log, actions[j - 1].event, states[j].position);
      }
    }
  }

  lemma {:induction false} PositionsBetween(version: Version, states: seq<State>, actions: seq<Action>, i: nat, j: nat)
    requires IsRun(version, states, actions) && i <= j < |states|
    ensures states[i].position <= states[j].position
  {
    if i < j {
      PositionsBetween(version, states, actions, i, j - 1);
      PositionsGrowWithinBoundary(version, states, actions, j - 1);
    }
  }
}
