/**
 The ordered message log of a session (corpus/message/log.go): appends are idempotent, content
 never changes under an identity, and positions are exact 64-bit indexes.
 */
module MessageLog {
  import opened Widths
  import opened Wrappers

  type MessageID = int
  type Content = int

  // `wellFormed` stands for the checks on a message's own fields.
  datatype Message = Message(id: MessageID, content: Content, wellFormed: bool)
  datatype Occurrence = Occurrence(message: Message, position: nat)
  datatype AppendError = Invalid | IdentityConflict | SequenceConflict

  ghost predicate DistinctIDs(messages: seq<Message>) {
    forall i, j :: 0 <= i < j < |messages| ==> messages[i].id != messages[j].id
  }

  ghost predicate Acceptable(messages: seq<Message>) {
    messages != [] && (forall m :: m in messages ==> m.wellFormed) && DistinctIDs(messages)
  }

  // Positions are exactly 0, 1, 2, ... in append order, and every identity occurs once.
  ghost predicate ValidEntries(entries: seq<Occurrence>) {
    && (forall i :: 0 <= i < |entries| ==> entries[i].position == i <= MAX_UINT64)
    && (forall i, j :: 0 <= i < j < |entries| ==> entries[i].message.id != entries[j].message.id)
  }

  ghost predicate Stored(entries: seq<Occurrence>, id: MessageID) {
    exists o :: o in entries && o.message.id == id
  }

  ghost predicate Conflicts(entries: seq<Occurrence>, messages: seq<Message>) {
    exists o, m :: o in entries && m in messages && o.message.id == m.id && o.message != m
  }

  // The messages not yet stored, in order.
  ghost function Missing(entries: seq<Occurrence>, messages: seq<Message>): seq<Message> {
    if messages == [] then []
    else
      var last := messages[|messages| - 1];
      Missing(entries, messages[..|messages| - 1]) + (if Stored(entries, last.id) then [] else [last])
  }

  ghost function Placed(messages: seq<Message>, start: nat): seq<Occurrence> {
    seq(|messages|, i requires 0 <= i < |messages| => Occurrence(messages[i], start + i))
  }

  // The entries after a successful append.
  ghost function Appended(entries: seq<Occurrence>, messages: seq<Message>): seq<Occurrence> {
    entries + Placed(Missing(entries, messages), |entries|)
  }

  // The stored occurrence of each message.
  ghost predicate OccurrencesOf(entries: seq<Occurrence>, messages: seq<Message>, occurrences: seq<Occurrence>) {
    && |occurrences| == |messages|
    && forall i :: 0 <= i < |messages| ==> occurrences[i] in entries && occurrences[i].message == messages[i]
  }

  lemma {:induction false} MissingElements(entries: seq<Occurrence>, messages: seq<Message>)
    ensures forall m :: m in Missing(entries, messages) <==> m in messages && !Stored(entries, m.id)
    ensures |Missing(entries, messages)| <= |messages|
  {
    if messages == [] {
    } else {
      MissingElements(entries, messages[..|messages| - 1]);
      assert messages == messages[..|messages| - 1] + [messages[|messages| - 1]];
    }
  }

  lemma {:induction false} MissingDistinct(entries: seq<Occurrence>, messages: seq<Message>)
    requires DistinctIDs(messages)
    ensures DistinctIDs(Missing(entries, messages))
  {
    if messages == [] {
    } else {
      var before, last := messages[..|messages| - 1], messages[|messages| - 1];
      var missing := Missing(entries, before);
      MissingDistinct(entries, before);
      MissingElements(entries, before);
      forall i | 0 <= i < |missing| ensures missing[i].id != last.id {
        assert missing[i] in missing;
        var j :| 0 <= j < |before| && before[j] == missing[i];
        assert messages[j].id != messages[|messages| - 1].id;
      }
    }
  }

  lemma AppendKeepsValid(entries: seq<Occurrence>, messages: seq<Message>)
    requires ValidEntries(entries) && DistinctIDs(messages)
    requires |entries| + |Missing(entries, messages)| <= MAX_UINT64 + 1
    ensures ValidEntries(Appended(entries, messages))
  {
    var missing, after := Missing(entries, messages), Appended(entries, messages);
    MissingElements(entries, messages);
    MissingDistinct(entries, messages);
    forall i, j | 0 <= i < j < |after| ensures after[i].message.id != after[j].message.id {
      if i < |entries| <= j {
        assert missing[j - |entries|] in missing;
        assert entries[i] in entries;
      }
    }
  }

  // ---------------------------------------------------------------------------------------
  // The log.

  class Log {
    var entries: seq<Occurrence>

    ghost predicate Valid()
      reads this
    {
      ValidEntries(entries)
    }

    constructor ()
      ensures Valid() && entries == []
    {
      entries := [];
    }

    // The stored occurrences with the given identities, in position order.
    method Find(ids: set<MessageID>) returns (found: seq<Occurrence>)
      requires Valid()
      ensures forall o :: o in found <==> o in entries && o.message.id in ids
      ensures forall i, j :: 0 <= i < j < |found| ==> found[i].message.id != found[j].message.id
    {
      found := [];
      for i := 0 to |entries|
        invariant forall o :: o in found <==> o in entries[..i] && o.message.id in ids
        invariant forall j, k :: 0 <= j < k < |found| ==> found[j].message.id != found[k].message.id
      {
        assert entries[..i + 1] == entries[..i] + [entries[i]];
        if entries[i].message.id in ids {
          forall j | 0 <= j < |found| ensures found[j].message.id != entries[i].message.id {
            assert found[j] in found;
            var k :| 0 <= k < i && entries[..i][k] == found[j];
            assert entries[k].message.id != entries[i].message.id;
          }
          found := found + [entries[i]];
        }
      }
      assert entries[..|entries|] == entries;
    }

    method LastPosition() returns (position: Option<nat>)
      requires Valid()
      ensures position == if entries == [] then None else Some(|entries| - 1)
    {
      if entries == [] { return None; }
      return Some(entries[|entries| - 1].position);
    }

    // Append. The guard refuses exactly the appends whose positions would leave 64 bits.
    // (A slice of messages is always shorter than 64 bits can count.)
    method Append(messages: seq<Message>) returns (result: Result<seq<Occurrence>, AppendError>)
      requires Valid() && |messages| <= MAX_UINT64
      modifies this
      ensures Valid()
      ensures AppendOutcome(old(entries), messages, entries, result)
      ensures result.Ok? ==> InOrder(old(entries), messages, entries, result.value)
      ensures result.Err? ==> entries == old(entries)
    {
      var prepared := PrepareMessages(messages);
      if !prepared { return Err(Invalid); }
      var found := Find(set m | m in messages :: m.id);
      var matched := Existing(messages, found);
      if matched.Err? { return Err(matched.error); }
      ghost var before := entries;
      result := Complete(messages, matched.value);
      if result.Ok? { AppendIsInOrder(before, messages, entries, result.value); }
    }

    // The rest of the transaction, once no message conflicts with a stored one.
    method Complete(messages: seq<Message>, existing: map<MessageID, Occurrence>)
      returns (result: Result<seq<Occurrence>, AppendError>)
      requires Valid() && |messages| <= MAX_UINT64
      requires Acceptable(messages) && !Conflicts(entries, messages) && Resolves(entries, messages, existing)
      modifies this
      ensures Valid()
      ensures AppendOutcome(old(entries), messages, entries, result)
    {
      var missing := SelectMissing(messages, existing, entries);
      ValidFits(entries);
      if missing == [] {
        AllStored(entries, messages, existing);
        var occurrences := OccurrencesFor(messages, existing, entries);
        return Ok(occurrences);
      }
      var last := LastPosition();
      if last.Some? && (last.value == MAX_UINT64 || |missing| - 1 > MAX_UINT64 - last.value - 1) {
        return Err(SequenceConflict);
      }
      MissingElements(entries, messages);
      var next := if last.Some? then last.value + 1 else 0;
      MissingDistinct(entries, messages);
      AppendKeepsValid(entries, messages);
      var added, all := Place(missing, next, existing);
      AllResolved(entries, messages, existing, missing, added, all);
      entries := entries + added;
      var occurrences := OccurrencesFor(messages, all, entries);
      return Ok(occurrences);
    }
  }

  // What one append does, in every case.
  ghost predicate AppendOutcome(
    before: seq<Occurrence>, messages: seq<Message>, after: seq<Occurrence>, result: Result<seq<Occurrence>, AppendError>)
  {
    if !Acceptable(messages) then result == Err(Invalid) && after == before
    else if Conflicts(before, messages) then result == Err(IdentityConflict) && after == before
    else if |before| + |Missing(before, messages)| > MAX_UINT64 + 1 then result == Err(SequenceConflict) && after == before
    else after == Appended(before, messages) && result.Ok? && OccurrencesOf(after, messages, result.value)
  }

  // The old entries stay; each new one is a message not stored before, at the next position; and
  // new messages are placed in the order they were given.
  ghost predicate InOrder(
      before: seq<Occurrence>, messages: seq<Message>, after: seq<Occurrence>, occurrences: seq<Occurrence>)
  {
    && before <= after
    && (forall k :: |before| <= k < |after| ==>
      after[k].position == k && after[k].message in messages && !Stored(before, after[k].message.id))
    && |occurrences| == |messages|
    && (forall i :: 0 <= i < |messages| ==> occurrences[i].message == messages[i] && occurrences[i] in after)
    && (forall i, j :: 0 <= i < j < |messages| && !Stored(before, messages[i].id) && !Stored(before, messages[j].id) ==>
      occurrences[i].position < occurrences[j].position)
  }

  lemma {:induction false} MissingInOrder(entries: seq<Occurrence>, messages: seq<Message>, i: nat, j: nat)
    returns (p: nat, q: nat)
    requires i < j < |messages| && !Stored(entries, messages[i].id) && !Stored(entries, messages[j].id)
    ensures p < q < |Missing(entries, messages)|
    ensures Missing(entries, messages)[p] == messages[i] && Missing(entries, messages)[q] == messages[j]
  {
    var before := messages[..|messages| - 1];
    var missing := Missing(entries, before);
    if j == |messages| - 1 {
      MissingElements(entries, before);
      var m := messages[i];
      assert before[i] == m && m in missing;
      p :| 0 <= p < |missing| && missing[p] == m;
      q := |missing|;
    } else {
      p, q := MissingInOrder(entries, before, i, j);
    }
  }

  lemma AppendIsInOrder(
      before: seq<Occurrence>, messages: seq<Message>, after: seq<Occurrence>, occurrences: seq<Occurrence>)
    requires ValidEntries(before) && ValidEntries(after) && DistinctIDs(messages)
    requires after == Appended(before, messages) && OccurrencesOf(after, messages, occurrences)
    ensures InOrder(before, messages, after, occurrences)
  {
    var missing := Missing(before, messages);
    MissingElements(before, messages);
    forall k | |before| <= k < |after|
      ensures after[k].position == k && after[k].message in messages && !Stored(before, after[k].message.id)
    {
      assert after[k].message == missing[k - |before|] && missing[k - |before|] in missing;
    }
    forall i, j | 0 <= i < j < |messages| && !Stored(before, messages[i].id) && !Stored(before, messages[j].id)
      ensures occurrences[i].position < occurrences[j].position
    {
      var p, q := MissingInOrder(before, messages, i, j);
      SameEntry(after, occurrences[i], after[|before| + p]);
      SameEntry(after, occurrences[j], after[|before| + q]);
    }
  }

  lemma ValidFits(entries: seq<Occurrence>)
    requires ValidEntries(entries)
    ensures |entries| <= MAX_UINT64 + 1
  {
    assert entries != [] ==> entries[|entries| - 1].position <= MAX_UINT64;
  }

  // Looking a message up finds its stored occurrence, when it has one.
  ghost predicate Resolves(entries: seq<Occurrence>, messages: seq<Message>, existing: map<MessageID, Occurrence>) {
    forall m :: m in messages ==>
      && (m.id in existing <==> Stored(entries, m.id))
      && (m.id in existing ==> existing[m.id] in entries && existing[m.id].message == m)
  }

  lemma AllStored(entries: seq<Occurrence>, messages: seq<Message>, existing: map<MessageID, Occurrence>)
    requires Resolves(entries, messages, existing) && Missing(entries, messages) == []
    ensures forall m :: m in messages ==> m.id in existing
    ensures Appended(entries, messages) == entries
  {
    MissingElements(entries, messages);
    forall m | m in messages ensures m.id in existing {
      assert m !in Missing(entries, messages);
    }
  }

  // The lookup table after the missing messages were placed.
  ghost predicate Extends(existing: map<MessageID, Occurrence>, added: seq<Occurrence>, all: map<MessageID, Occurrence>) {
    && (forall id :: id in all <==> id in existing || exists i :: 0 <= i < |added| && added[i].message.id == id)
    && (forall i :: 0 <= i < |added| ==> all[added[i].message.id] == added[i])
    && (forall id :: id in existing && (forall i :: 0 <= i < |added| ==> added[i].message.id != id) ==> all[id] == existing[id])
  }

  lemma AllResolved(
      entries: seq<Occurrence>, messages: seq<Message>, existing: map<MessageID, Occurrence>,
      missing: seq<Message>, added: seq<Occurrence>, all: map<MessageID, Occurrence>)
    requires Resolves(entries, messages, existing) && missing == Missing(entries, messages)
    requires added == Placed(missing, |entries|)
    requires Extends(existing, added, all)
    ensures Resolves(entries + added, messages, all) && forall m :: m in messages ==> m.id in all
  {
    MissingElements(entries, messages);
    forall m | m in messages
      ensures m.id in all && all[m.id] in entries + added && all[m.id].message == m && Stored(entries + added, m.id)
    {
      if Stored(entries, m.id) {
        forall i | 0 <= i < |added| ensures added[i].message.id != m.id {
          assert missing[i] in missing;
        }
        assert all[m.id] == existing[m.id];
      } else {
        assert m in missing;
        var i :| 0 <= i < |missing| && missing[i] == m;
        assert added[i].message.id == m.id;
      }
      assert all[m.id] in entries + added;
    }
  }

  method SelectMissing(messages: seq<Message>, existing: map<MessageID, Occurrence>, ghost entries: seq<Occurrence>)
    returns (missing: seq<Message>)
    requires Resolves(entries, messages, existing)
    ensures missing == Missing(entries, messages)
  {
    missing := [];
    for i := 0 to |messages|
      invariant missing == Missing(entries, messages[..i])
    {
      assert messages[..i + 1][..i] == messages[..i] && messages[i] in messages;
      if messages[i].id !in existing {
        missing := missing + [messages[i]];
      }
    }
    assert messages[..|messages|] == messages;
  }

  method Place(missing: seq<Message>, next: nat, existing: map<MessageID, Occurrence>)
    returns (added: seq<Occurrence>, all: map<MessageID, Occurrence>)
    requires DistinctIDs(missing)
    ensures added == Placed(missing, next)
    ensures Extends(existing, added, all)
  {
    added, all := [], existing;
    for index := 0 to |missing|
      invariant added == Placed(missing, next)[..index]
      invariant Extends(existing, added, all)
    {
      var occurrence := Occurrence(missing[index], next + index);
      assert Placed(missing, next)[index] == occurrence;
      forall i | 0 <= i < index ensures added[i].message.id != occurrence.message.id {
        assert added[i] == Placed(missing, next)[i];
      }
      ExtendOne(existing, added, all, occurrence);
      all := all[occurrence.message.id := occurrence];
      added := added + [occurrence];
    }
  }

  lemma ExtendOne(existing: map<MessageID, Occurrence>, added: seq<Occurrence>, all: map<MessageID, Occurrence>, o: Occurrence)
    requires Extends(existing, added, all) && forall i :: 0 <= i < |added| ==> added[i].message.id != o.message.id
    ensures Extends(existing, added + [o], all[o.message.id := o])
  {
    var added', all' := added + [o], all[o.message.id := o];
    assert added'[|added|] == o;
    forall id ensures id in all' <==> id in existing || exists i :: 0 <= i < |added'| && added'[i].message.id == id {
      if i :| 0 <= i < |added| && added[i].message.id == id { assert added'[i].message.id == id; }
    }
    forall id | id in existing && (forall i :: 0 <= i < |added'| ==> added'[i].message.id != id) ensures all'[id] == existing[id] {
      forall i | 0 <= i < |added| ensures added[i].message.id != id { assert added'[i] == added[i]; }
    }
  }

  method OccurrencesFor(messages: seq<Message>, byID: map<MessageID, Occurrence>, ghost entries: seq<Occurrence>)
    returns (occurrences: seq<Occurrence>)
    requires Resolves(entries, messages, byID) && forall m :: m in messages ==> m.id in byID
    ensures OccurrencesOf(entries, messages, occurrences)
  {
    occurrences := [];
    for i := 0 to |messages|
      invariant |occurrences| == i
      invariant forall k :: 0 <= k < i ==> occurrences[k] in entries && occurrences[k].message == messages[k]
    {
      assert messages[i] in messages;
      occurrences := occurrences + [byID[messages[i].id]];
    }
  }

  method PrepareMessages(messages: seq<Message>) returns (ok: bool)
    ensures ok <==> Acceptable(messages)
  {
    if messages == [] { return false; }
    var seen: set<MessageID> := {};
    for i := 0 to |messages|
      invariant forall k :: 0 <= k < i ==> messages[k].wellFormed
      invariant forall j, k :: 0 <= j < k < i ==> messages[j].id != messages[k].id
      invariant forall id :: id in seen <==> exists k :: 0 <= k < i && messages[k].id == id
    {
      if !messages[i].wellFormed {
        assert messages[i] in messages;
        return false;
      }
      if messages[i].id in seen { return false; }
      seen := seen + {messages[i].id};
    }
    return true;
  }

  method IndexByID(messages: seq<Message>) returns (byID: map<MessageID, Message>)
    requires DistinctIDs(messages)
    ensures forall m :: m in messages ==> m.id in byID && byID[m.id] == m
    ensures forall id :: id in byID ==> byID[id] in messages && byID[id].id == id
  {
    byID := map[];
    for i := 0 to |messages|
      invariant forall k :: 0 <= k < i ==> messages[k].id in byID && byID[messages[k].id] == messages[k]
      invariant forall id :: id in byID ==> byID[id] in messages && byID[id].id == id
    {
      byID := byID[messages[i].id := messages[i]];
    }
  }

  ghost predicate Requested(messages: seq<Message>, id: MessageID) {
    exists m :: m in messages && m.id == id
  }

  ghost predicate Repeated(found: seq<Occurrence>, k: nat)
    requires k < |found|
  {
    exists j :: 0 <= j < k && found[j].message.id == found[k].message.id
  }

  // The first `n` occurrences are requested, unaltered and found once each.
  ghost predicate Matches(messages: seq<Message>, found: seq<Occurrence>, n: nat)
    requires n <= |found|
  {
    forall k :: 0 <= k < n ==> found[k].message in messages && !Repeated(found, k)
  }

  // Checks what persistence returned, whatever that is, against what was asked for: the first
  // occurrence that does not match decides the error.
  method Existing(messages: seq<Message>, found: seq<Occurrence>)
    returns (result: Result<map<MessageID, Occurrence>, AppendError>)
    requires DistinctIDs(messages)
    ensures result.Ok? <==> Matches(messages, found, |found|)
    ensures result.Err? ==> exists k ::
      && 0 <= k < |found| && Matches(messages, found, k)
      && (Repeated(found, k) || found[k].message !in messages)
      && result.error == if Requested(messages, found[k].message.id) && !Repeated(found, k) then IdentityConflict else SequenceConflict
    ensures result.Ok? ==> forall o :: o in found ==> o.message.id in result.value && result.value[o.message.id] == o
    ensures result.Ok? ==> forall id :: id in result.value ==> result.value[id] in found && result.value[id].message.id == id
  {
    var byID := IndexByID(messages);
    var existing: map<MessageID, Occurrence> := map[];
    for i := 0 to |found|
      invariant Matches(messages, found, i)
      invariant forall k :: 0 <= k < i ==> found[k].message.id in existing && existing[found[k].message.id] == found[k]
      invariant forall id :: id in existing ==> existing[id].message.id == id && exists k :: 0 <= k < i && found[k] == existing[id]
    {
      var occurrence := found[i];
      var id := occurrence.message.id;
      IdentifiesRequested(messages, byID, occurrence.message);
      assert id in existing <==> Repeated(found, i);
      if id !in byID || id in existing { return Err(SequenceConflict); }
      if occurrence.message != byID[id] { return Err(IdentityConflict); }
      existing := existing[id := occurrence];
    }
    result := Ok(existing);
  }

  lemma IdentifiesRequested(messages: seq<Message>, byID: map<MessageID, Message>, m: Message)
    requires forall m :: m in messages ==> m.id in byID && byID[m.id] == m
    requires forall id :: id in byID ==> byID[id] in messages && byID[id].id == id
    ensures m.id in byID <==> Requested(messages, m.id)
    ensures m in messages <==> m.id in byID && byID[m.id] == m
  {
  }

  // ---------------------------------------------------------------------------------------
  // Retries and whole runs.

  // Appending the same messages again writes nothing and returns the same occurrences.
  lemma RepeatIsARead(
      before: seq<Occurrence>, messages: seq<Message>, after: seq<Occurrence>, first: Result<seq<Occurrence>, AppendError>,
      again: seq<Occurrence>, second: Result<seq<Occurrence>, AppendError>)
    requires ValidEntries(before)
    requires AppendOutcome(before, messages, after, first) && first.Ok?
    requires AppendOutcome(after, messages, again, second)
    ensures again == after && second == first
  {
    AppendKeepsValid(before, messages);
    assert !Conflicts(after, messages) by {
      forall o, m | o in after && m in messages && o.message.id == m.id ensures o.message == m {}
    }
    NothingMissing(after, messages);
    ValidFits(after);
    assert Appended(after, messages) == after;
    forall i | 0 <= i < |messages| ensures first.value[i] == second.value[i] {
      SameEntry(after, first.value[i], second.value[i]);
    }
    assert first.value == second.value;
  }

  lemma SameEntry(entries: seq<Occurrence>, o: Occurrence, p: Occurrence)
    requires ValidEntries(entries) && o in entries && p in entries && o.message.id == p.message.id
    ensures o == p
  {
    var i :| 0 <= i < |entries| && entries[i] == o;
    var j :| 0 <= j < |entries| && entries[j] == p;
    assert i == j;
  }

  lemma {:induction false} NothingMissing(entries: seq<Occurrence>, messages: seq<Message>)
    requires forall m :: m in messages ==> Stored(entries, m.id)
    ensures Missing(entries, messages) == []
  {
    if messages != [] { NothingMissing(entries, messages[..|messages| - 1]); }
  }

  ghost predicate Step(before: seq<Occurrence>, messages: seq<Message>, after: seq<Occurrence>) {
    exists r :: AppendOutcome(before, messages, after, r)
  }

  // A run of appends, successful or not, from the empty log.
  ghost predicate IsRun(logs: seq<seq<Occurrence>>, appends: seq<seq<Message>>) {
    && |logs| == |appends| + 1 && logs[0] == []
    && forall i :: 0 <= i < |appends| ==> Step(logs[i], appends[i], logs[i + 1])
  }

  lemma StepExtends(before: seq<Occurrence>, messages: seq<Message>, after: seq<Occurrence>)
    requires ValidEntries(before) && Step(before, messages, after)
    ensures ValidEntries(after) && before <= after
  {
    var r :| AppendOutcome(before, messages, after, r);
    if r.Ok? { AppendKeepsValid(before, messages); }
  }

  // In every run, at every time: positions are 0..n-1 in append order, identities are unique,
  // and what was stored once stays, unchanged and in place.
  lemma {:induction false} RunsOnlyExtend(logs: seq<seq<Occurrence>>, appends: seq<seq<Message>>, i: nat, j: nat)
    requires IsRun(logs, appends) && i <= j < |logs|
    ensures ValidEntries(logs[j]) && logs[i] <= logs[j]
    decreases j
  {
    if i < j {
      RunsOnlyExtend(logs, appends, i, j - 1);
      assert Step(logs[j - 1], appends[j - 1], logs[j - 1 + 1]);
      StepExtends(logs[j - 1], appends[j - 1], logs[j]);
    } else if j > 0 {
      RunsOnlyExtend(logs, appends, j - 1, j - 1);
      assert Step(logs[j - 1], appends[j - 1], logs[j - 1 + 1]);
      StepExtends(logs[j - 1], appends[j - 1], logs[j]);
    }
  }

  lemma StoredStays(logs: seq<seq<Occurrence>>, appends: seq<seq<Message>>, i: nat, j: nat, o: Occurrence)
    requires IsRun(logs, appends) && i <= j < |logs| && o in logs[i]
    ensures o in logs[j] && ValidEntries(logs[j])
  {
    RunsOnlyExtend(logs, appends, i, j);
    var k :| 0 <= k < |logs[i]| && logs[i][k] == o;
    assert logs[j][k] == o;
  }

  lemma ReturnedIsStored(
      before: seq<Occurrence>, messages: seq<Message>, after: seq<Occurrence>,
      result: Result<seq<Occurrence>, AppendError>, a: nat)
    requires AppendOutcome(before, messages, after, result) && result.Ok? && a < |result.value|
    ensures result.value[a] in after
  {
  }

  // Overlapping retries agree: a message returned by two successful appends of a run, however
  // far apart, is returned as the same occurrence.
  lemma RetriesAgree(
      logs: seq<seq<Occurrence>>, appends: seq<seq<Message>>, i: nat, j: nat,
      r: Result<seq<Occurrence>, AppendError>, s: Result<seq<Occurrence>, AppendError>, a: nat, b: nat)
    requires IsRun(logs, appends) && i <= j < |appends|
    requires AppendOutcome(logs[i], appends[i], logs[i + 1], r) && r.Ok? && a < |r.value|
    requires AppendOutcome(logs[j], appends[j], logs[j + 1], s) && s.Ok? && b < |s.value|
    requires r.value[a].message.id == s.value[b].message.id
    ensures r.value[a] == s.value[b]
  {
    ReturnedIsStored(logs[i], appends[i], logs[i + 1], r, a);
    ReturnedIsStored(logs[j], appends[j], logs[j + 1], s, b);
    StoredStays(logs, appends, i + 1, j + 1, r.value[a]);
    SameEntry(logs[j + 1], r.value[a], s.value[b]);
  }
}
