/**
 Crash-safe persistence of the TextUnits of one text (corpus/text_unit_preparation.go): batches
 of units are committed together with a resume position, and the last batch also completes the
 progress and publishes the prepared event. A transaction either happens entirely or not at all,
 and the position advances by compare-and-set.
 */
module TextUnitPreparation {
  import opened Wrappers

  type Unit = int

  const BATCH: nat := 128

  // What persistence holds for the text. `published` counts prepared events.
  datatype Progress = Progress(stored: seq<Unit>, next: nat, completed: bool, published: nat)

  const FRESH := Progress([], 0, false, 0)

  // Where a transaction that starts at `from` ends.
  function BatchEnd(units: seq<Unit>, from: nat): nat
    requires from <= |units|
  {
    if |units| - from > BATCH then from + BATCH else |units|
  }

  // One transaction: save the batch, advance the position if it is still `from`, and with the
  // last batch complete and publish.
  function Committed(p: Progress, units: seq<Unit>, from: nat): Option<Progress>
    requires from < |units|
  {
    var end := BatchEnd(units, from);
    if p.next != from || p.completed then None
    else if end < |units| then Some(p.(stored := p.stored + units[from..end], next := end))
    else Some(Progress(p.stored + units[from..], |units|, true, p.published + 1))
  }

  // The stored units are the prefix up to the resume position; completion, having everything
  // stored, and having published exactly once are the same thing.
  ghost predicate Consistent(units: seq<Unit>, p: Progress) {
    && p.next <= |units| && p.stored == units[..p.next]
    && (p.completed <==> p.next == |units|)
    && p.published == (if p.completed then 1 else 0)
  }

  lemma CommitKeepsConsistent(units: seq<Unit>, p: Progress, from: nat)
    requires Consistent(units, p) && from < |units|
    ensures
      match Committed(p, units, from)
      case None => from != p.next
      case Some(p') =>
        && Consistent(units, p') && p'.next > p.next && !p.completed
        && (if p'.completed then p'.next - p.next <= 128 else p'.next - p.next == 128)
  {
    var end := BatchEnd(units, from);
    if p.next == from && !p.completed {
      assert units[..end] == units[..from] + units[from..end];
      assert units[from..end] == units[from..] || end < |units|;
    }
  }

  // ---------------------------------------------------------------------------------------
  // One driver, statement by statement.

  datatype Outcome = Prepared | Conflict | Interrupted

  class Store {
    var progress: Progress

    constructor ()
      ensures progress == FRESH
    {
      progress := FRESH;
    }

    // One transaction of SaveTextUnitBatch, AdvanceTextChunkingProgress and, at the end, Publish.
    method Transact(units: seq<Unit>, from: nat) returns (ok: bool)
      requires from < |units|
      modifies this
      ensures ok <==> Committed(old(progress), units, from).Some?
      ensures progress == if ok then Committed(old(progress), units, from).value else old(progress)
    {
      var end := if |units| - from > BATCH then from + BATCH else |units|;
      var stored := progress.stored + units[from..end];
      if progress.next != from || progress.completed { return false; }
      var complete := end == |units|;
      progress := Progress(stored, end, complete, if complete then progress.published + 1 else progress.published);
      return true;
    }

    // recordTextUnits from the progress read before. `crash(k)` interrupts it before its k-th
    // transaction. Undisturbed, it finishes from every consistent progress.
    method RecordTextUnits(units: seq<Unit>, read: Progress, crash: nat -> bool) returns (outcome: Outcome)
      requires units != [] && Consistent(units, progress)
      modifies this
      ensures Consistent(units, progress) && progress.next >= old(progress).next
      ensures read.next > |units| || (read.completed != (read.next == |units|)) ==> outcome == Conflict && progress == old(progress)
      ensures read.next == |units| && read.completed ==> outcome == Prepared && progress == old(progress)
      ensures read == old(progress) && (forall k :: !crash(k)) ==> outcome == Prepared
      ensures outcome == Prepared && !read.completed ==> progress.completed && progress.stored == units && progress.published == 1
      ensures old(progress).completed ==> progress == old(progress)
      ensures outcome == Interrupted ==> exists k :: crash(k)
      ensures outcome == Conflict ==> read != old(progress)
    {
      if read.next > |units| || (read.completed && read.next != |units|) { return Conflict; }
      if read.completed { return Prepared; }
      if read.next == |units| { return Conflict; }
      var next := read.next;
      var transactions := 0;
      while |units| - next > BATCH
        invariant next < |units| && read.next <= next
        invariant Consistent(units, progress) && progress.next >= old(progress).next
        invariant read == old(progress) || transactions > 0 ==> progress.next == next
        invariant old(progress).completed ==> progress == old(progress) && transactions == 0
        invariant transactions == 0 ==> progress == old(progress)
        decreases |units| - next
      {
        var end := next + BATCH;
        if crash(transactions) { return Interrupted; }
        CommitKeepsConsistent(units, progress, next);
        var ok := Transact(units, next);
        if !ok { return Conflict; }
        transactions := transactions + 1;
        next := end;
      }
      if crash(transactions) { return Interrupted; }
      CommitKeepsConsistent(units, progress, next);
      var ok := Transact(units, next);
      if !ok { return Conflict; }
      assert units[..|units|] == units;
      return Prepared;
    }
  }

  // ---------------------------------------------------------------------------------------
  // Any number of drivers, interleaved transaction by transaction, crashing and restarting.

  // Each working driver remembers the position its next transaction starts at.
  datatype State = State(progress: Progress, drivers: map<int, nat>)

  datatype Action = Start(id: int) | Transaction(id: int) | Crash(id: int)

  ghost predicate Step(units: seq<Unit>, s: State, a: Action, s': State) {
    match a
    case Start(id) =>
      && id !in s.drivers
      && if s.progress.completed || s.progress.next >= |units| then s' == s
         else s' == s.(drivers := s.drivers[id := s.progress.next])
    case Transaction(id) =>
      && id in s.drivers && s.drivers[id] < |units|
      && (match Committed(s.progress, units, s.drivers[id])
          case None => s' == s.(drivers := s.drivers - {id})
          case Some(p) => s' == State(p, if p.completed then s.drivers - {id} else s.drivers[id := BatchEnd(units, s.drivers[id])]))
    case Crash(id) => id in s.drivers && s' == s.(drivers := s.drivers - {id})
  }

  ghost predicate IsRun(units: seq<Unit>, states: seq<State>, actions: seq<Action>) {
    && units != [] && |states| == |actions| + 1
    && states[0] == State(FRESH, map[])
    && forall i :: 0 <= i < |actions| ==> Step(units, states[i], actions[i], states[i + 1])
  }

  ghost predicate Inv(units: seq<Unit>, s: State) {
    Consistent(units, s.progress) && forall id :: id in s.drivers ==> s.drivers[id] < |units| && s.drivers[id] <= s.progress.next
  }

  // In every reachable state the stored units are the prefix of the resume position; "all
  // stored but not completed" is unreachable; the event is published once, with completion.
  lemma {:induction false} RunsStayConsistent(units: seq<Unit>, states: seq<State>, actions: seq<Action>, i: nat)
    requires IsRun(units, states, actions) && i < |states|
    ensures Inv(units, states[i])
  {
    if i > 0 {
      RunsStayConsistent(units, states, actions, i - 1);
      assert Step(units, states[i - 1], actions[i - 1], states[i - 1 + 1]);
    } else {
      assert units[..0] == [];
    }
  }

  // The position only grows, and nothing changes once the text is complete.
  lemma {:induction false} CompletionIsFinal(units: seq<Unit>, states: seq<State>, actions: seq<Action>, i: nat, j: nat)
    requires IsRun(units, states, actions) && i <= j < |states|
    ensures states[i].progress.next <= states[j].progress.next
    ensures states[i].progress.completed ==> states[j].progress == states[i].progress
  {
    if i < j {
      CompletionIsFinal(units, states, actions, i, j - 1);
      RunsStayConsistent(units, states, actions, j - 1);
      assert Step(units, states[j - 1], actions[j - 1], states[j - 1 + 1]);
    }
  }

  // Two drivers never both succeed from the same position: the one that comes second gives up
  // without writing.
  lemma OneDriverWins(units: seq<Unit>, states: seq<State>, actions: seq<Action>, i: nat, id: int, other: int)
    requires IsRun(units, states, actions) && i < |actions|
    requires actions[i] == Transaction(id) && other != id && other in states[i].drivers
    requires id in states[i].drivers && states[i].drivers[id] == states[i].drivers[other]
    requires states[i + 1].progress != states[i].progress
    ensures other in states[i + 1].drivers
    ensures states[i + 1].drivers[other] < |units| && Committed(states[i + 1].progress, units, states[i + 1].drivers[other]) == None
  {
    RunsStayConsistent(units, states, actions, i);
    RunsStayConsistent(units, states, actions, i + 1);
    assert Step(units, states[i], actions[i], states[i + 1]);
    CommitKeepsConsistent(units, states[i].progress, states[i].drivers[id]);
  }
}
