/**
 Reduction of report fragments in rounds (community/report/fragment_reduce.go): neighbours are
 merged by model calls until one final prompt fits. The model may answer anything.
 */
module FragmentReduce {
  import opened Wrappers

  type Fragment = string

  // What the generator can see of prompts: whether the final prompt, or the merge prompt, for
  // these fragments fits the token budget; None when rendering or counting fails.
  type Budget = seq<Fragment> -> Option<bool>

  // The model's answer to each call in turn, for the fragments it is to merge; None when the call
  // fails.
  type Model = (nat, seq<Fragment>) -> Option<Fragment>

  datatype ReduceError = CountFailed | CallFailed | EmptyFragment | OneTooLarge | NoPairFits

  // Unicode white space.
  predicate IsSpace(c: char) {
    || '\t' <= c <= '\r' || c == ' ' || c == '\U{85}' || c == '\U{A0}' || c == '\U{1680}'
    || '\U{2000}' <= c <= '\U{200A}' || c == '\U{2028}' || c == '\U{2029}' || c == '\U{202F}'
    || c == '\U{205F}' || c == '\U{3000}'
  }

  // Nothing is left of a blank fragment once it is trimmed.
  predicate Blank(f: Fragment) { forall i :: 0 <= i < |f| ==> IsSpace(f[i]) }

  // ---------------------------------------------------------------------------------------
  // One round of grouping.

  ghost function Concat(groups: seq<seq<Fragment>>): seq<Fragment> {
    if groups == [] then [] else Concat(groups[..|groups| - 1]) + groups[|groups| - 1]
  }

  // A group is a single fragment or fits one merge prompt.
  ghost predicate GroupFits(merge: Budget, group: seq<Fragment>) {
    group != [] && (|group| > 1 ==> merge(group) == Some(true))
  }

  // No group could have taken the first fragment of the next one too.
  ghost predicate Widest(merge: Budget, groups: seq<seq<Fragment>>) {
    forall i :: 0 <= i < |groups| - 1 ==> CannotGrow(merge, groups, i)
  }

  ghost predicate CannotGrow(merge: Budget, groups: seq<seq<Fragment>>, i: nat) {
    && i + 1 < |groups| && groups[i + 1] != []
    && merge(groups[i] + [groups[i + 1][0]]) == Some(false)
  }

  // The longest run from `start` whose every extension fits; None when counting fails.
  method TakeGroup(merge: Budget, fragments: seq<Fragment>, start: nat) returns (end: Option<nat>)
    requires start < |fragments|
    ensures end.Some? ==>
      && start < end.value <= |fragments| && GroupFits(merge, fragments[start..end.value])
      && (end.value < |fragments| ==> merge(fragments[start..end.value] + [fragments[end.value]]) == Some(false))
    ensures end.None? ==> exists j :: start <= j <= |fragments| && merge(fragments[start..j]) == None
  {
    var e := start + 1;
    while e < |fragments|
      invariant start < e <= |fragments|
      invariant GroupFits(merge, fragments[start..e])
    {
      var candidate := fragments[start..e + 1];
      assert candidate == fragments[start..e] + [fragments[e]];
      var fits := merge(candidate);
      if fits.None? { return None; }
      if !fits.value { break; }
      e := e + 1;
    }
    return Some(e);
  }

  method WidestFragmentGroups(merge: Budget, fragments: seq<Fragment>)
    returns (result: Option<(seq<seq<Fragment>>, bool)>)
    ensures result.Some? ==>
      var groups, reduced := result.value.0, result.value.1;
      && Concat(groups) == fragments
      && (forall i :: 0 <= i < |groups| ==> GroupFits(merge, groups[i]))
      && Widest(merge, groups)
      && (reduced <==> exists i :: 0 <= i < |groups| && |groups[i]| > 1)
    ensures result.None? ==> exists i, j :: 0 <= i <= j <= |fragments| && merge(fragments[i..j]) == None
  {
    var groups: seq<seq<Fragment>> := [];
    var reduced := false;
    var start: nat := 0;
    while start < |fragments|
      invariant start <= |fragments| && Concat(groups) == fragments[..start]
      invariant forall i :: 0 <= i < |groups| ==> GroupFits(merge, groups[i])
      invariant Widest(merge, groups)
      invariant groups != [] && start < |fragments| ==> merge(groups[|groups| - 1] + [fragments[start]]) == Some(false)
      invariant reduced <==> exists i :: 0 <= i < |groups| && |groups[i]| > 1
    {
      var end := TakeGroup(merge, fragments, start);
      if end.None? { return None; }
      var group := fragments[start..end.value];
      assert fragments[..end.value] == fragments[..start] + group;
      assert group[0] == fragments[start];
      WidestGrows(merge, groups, group);
      reduced := reduced || |group| > 1;
      SomeGroupGrows(groups, group);
      groups := groups + [group];
      start := end.value;
    }
    assert fragments[..start] == fragments;
    return Some((groups, reduced));
  }

  lemma WidestGrows(merge: Budget, groups: seq<seq<Fragment>>, group: seq<Fragment>)
    requires Widest(merge, groups) && group != []
    requires groups != [] ==> merge(groups[|groups| - 1] + [group[0]]) == Some(false)
    ensures Widest(merge, groups + [group])
  {
    var more := groups + [group];
    forall i | 0 <= i < |more| - 1 ensures CannotGrow(merge, more, i) {
      assert i < |groups| - 1 ==> CannotGrow(merge, groups, i);
    }
  }

  lemma SomeGroupGrows(groups: seq<seq<Fragment>>, group: seq<Fragment>)
    ensures (exists i :: 0 <= i < |groups + [group]| && |(groups + [group])[i]| > 1) <==>
      (exists i :: 0 <= i < |groups| && |groups[i]| > 1) || |group| > 1
  {
    var more := groups + [group];
    if i :| 0 <= i < |groups| && |groups[i]| > 1 { assert |more[i]| > 1; }
    if |group| > 1 { assert |more[|groups|]| > 1; }
  }

  // When nothing was grouped, no adjacent pair fits a merge prompt.
  lemma {:induction false} SinglesAreFragments(groups: seq<seq<Fragment>>, fragments: seq<Fragment>)
    requires Concat(groups) == fragments && forall i :: 0 <= i < |groups| ==> |groups[i]| == 1
    ensures |groups| == |fragments| && forall i :: 0 <= i < |groups| ==> groups[i] == [fragments[i]]
  {
    if groups == [] {
    } else {
      var before := groups[..|groups| - 1];
      SinglesAreFragments(before, Concat(before));
    }
  }

  ghost predicate NoPair(merge: Budget, fragments: seq<Fragment>) {
    forall i :: 0 <= i < |fragments| - 1 ==> merge([fragments[i], fragments[i + 1]]) == Some(false)
  }

  lemma NotReducedMeansNoPair(merge: Budget, groups: seq<seq<Fragment>>, fragments: seq<Fragment>)
    requires Concat(groups) == fragments && Widest(merge, groups)
    requires forall i :: 0 <= i < |groups| ==> GroupFits(merge, groups[i])
    requires !exists i :: 0 <= i < |groups| && |groups[i]| > 1
    ensures NoPair(merge, fragments)
  {
    forall i | 0 <= i < |groups| ensures |groups[i]| == 1 { assert GroupFits(merge, groups[i]); }
    SinglesAreFragments(groups, fragments);
    forall i | 0 <= i < |fragments| - 1 ensures merge([fragments[i], fragments[i + 1]]) == Some(false) {
      assert CannotGrow(merge, groups, i);
      assert groups[i] + [groups[i + 1][0]] == [fragments[i], fragments[i + 1]];
    }
  }

  // ---------------------------------------------------------------------------------------
  // Whose evidence a fragment carries: `cuts` marks the initial fragments behind each current one.

  ghost predicate Carries(initial: seq<Fragment>, cuts: seq<nat>, fragments: seq<Fragment>) {
    && |cuts| == |fragments| + 1 && cuts[0] == 0 && cuts[|fragments|] == |initial|
    && (forall k :: 0 <= k < |fragments| ==> Segment(initial, cuts, fragments, k))
  }

  // Fragment k stands for a non-empty run of initial fragments, and is that fragment itself
  // when the run has length one.
  ghost predicate Segment(initial: seq<Fragment>, cuts: seq<nat>, fragments: seq<Fragment>, k: nat) {
    && k < |fragments| && k + 1 < |cuts| && cuts[k] < cuts[k + 1] <= |initial|
    && (cuts[k + 1] == cuts[k] + 1 ==> fragments[k] == initial[cuts[k]])
  }

  lemma {:induction false} SegmentsAreLong(initial: seq<Fragment>, cuts: seq<nat>, fragments: seq<Fragment>, i: nat, j: nat)
    requires Carries(initial, cuts, fragments) && i <= j <= |fragments|
    ensures cuts[i] + (j - i) <= cuts[j] <= |initial|
  {
    assert j > 0 ==> Segment(initial, cuts, fragments, j - 1);
    if i < j {
      SegmentsAreLong(initial, cuts, fragments, i, j - 1);
    }
  }

  // The merged fragments so far, while the groups of one round are turned into fragments.
  ghost predicate Merged(
    initial: seq<Fragment>, cuts: seq<nat>, fragments: seq<Fragment>, groups: seq<seq<Fragment>>, done: nat, taken: nat,
    cuts': seq<nat>, next: seq<Fragment>)
  {
    && done <= |groups| && taken <= |fragments| && taken < |cuts| && |next| == done
    && Concat(groups[..done]) == fragments[..taken]
    && |cuts'| == done + 1 && cuts'[0] == 0 && cuts'[done] == cuts[taken]
    && (forall k :: 0 <= k < done ==> Segment(initial, cuts', next, k))
  }

  lemma MergeOne(
      initial: seq<Fragment>, cuts: seq<nat>, fragments: seq<Fragment>, groups: seq<seq<Fragment>>, done: nat, taken: nat,
      cuts': seq<nat>, next: seq<Fragment>, fragment: Fragment)
    requires Carries(initial, cuts, fragments) && Concat(groups) == fragments
    requires Merged(initial, cuts, fragments, groups, done, taken, cuts', next) && done < |groups| && groups[done] != []
    requires |groups[done]| == 1 ==> fragment == groups[done][0]
    ensures
      var taken' := taken + |groups[done]|;
      && taken' <= |fragments|
      && Merged(initial, cuts, fragments, groups, done + 1, taken', cuts' + [cuts[taken']], next + [fragment])
  {
    var group := groups[done];
    var taken' := taken + |group|;
    assert groups[..done + 1] == groups[..done] + [group];
    ConcatPrefix(groups, done + 1);
    assert taken' <= |fragments| && fragments[..taken'] == fragments[..taken] + group;
    assert group[0] == fragments[..taken'][taken] == fragments[taken];
    SegmentsAreLong(initial, cuts, fragments, taken, taken');
    var cuts2, next2 := cuts' + [cuts[taken']], next + [fragment];
    assert Segment(initial, cuts, fragments, taken);
    if |group| > 1 { SegmentsAreLong(initial, cuts, fragments, taken + 1, taken'); }
    forall k | 0 <= k < done + 1 ensures Segment(initial, cuts2, next2, k) {
      if k < done { assert Segment(initial, cuts', next, k); }
    }
  }

  lemma {:induction false} ConcatPrefix(groups: seq<seq<Fragment>>, n: nat)
    requires n <= |groups|
    ensures |Concat(groups[..n])| <= |Concat(groups)| && Concat(groups[..n]) == Concat(groups)[..|Concat(groups[..n])|]
  {
    if n == |groups| {
      assert groups[..n] == groups;
    } else {
      ConcatPrefix(groups[..|groups| - 1], n);
      assert groups[..|groups| - 1][..n] == groups[..n];
    }
  }

  lemma {:induction false} FewerGroups(groups: seq<seq<Fragment>>)
    requires forall i :: 0 <= i < |groups| ==> groups[i] != []
    ensures |groups| <= |Concat(groups)|
    ensures (exists i :: 0 <= i < |groups| && |groups[i]| > 1) ==> |groups| < |Concat(groups)|
  {
    if groups != [] { FewerGroups(groups[..|groups| - 1]); }
  }

  lemma {:induction false} RestIsLonger(groups: seq<seq<Fragment>>, n: nat)
    requires n <= |groups| && forall i :: 0 <= i < |groups| ==> groups[i] != []
    ensures |Concat(groups[..n])| + (|groups| - n) <= |Concat(groups)|
  {
    if n == |groups| {
      assert groups[..n] == groups;
    } else {
      RestIsLonger(groups[..|groups| - 1], n);
      assert groups[..|groups| - 1][..n] == groups[..n];
    }
  }

  // ---------------------------------------------------------------------------------------
  // The reduction loop.

  // Why a merge call ends the reduction: the model failed, or answered nothing.
  ghost predicate GaveUp(model: Model, call: nat, group: seq<Fragment>, error: ReduceError) {
    match error
    case CallFailed => model(call, group) == None
    case EmptyFragment => model(call, group).Some? && Blank(model(call, group).value)
    case _ => false
  }

  // One call per group of several fragments.
  ghost function CallsFor(groups: seq<seq<Fragment>>): nat {
    if groups == [] then 0
    else CallsFor(groups[..|groups| - 1]) + (if |groups[|groups| - 1]| > 1 then 1 else 0)
  }

  lemma CallsForGrow(groups: seq<seq<Fragment>>, group: seq<Fragment>)
    ensures CallsFor(groups + [group]) == CallsFor(groups) + (if |group| > 1 then 1 else 0)
  {
    assert (groups + [group])[..|groups|] == groups;
  }

  // Group i became one fragment: its only member, or the answer to the call made for it, the
  // calls being numbered from `first`.
  ghost predicate BecameAt(model: Model, groups: seq<seq<Fragment>>, first: nat, next: seq<Fragment>, i: nat)
    requires i < |groups| && i < |next|
  {
    if |groups[i]| == 1 then next[i] == groups[i][0]
    else model(first + CallsFor(groups[..i]), groups[i]) == Some(next[i]) && !Blank(next[i])
  }

  ghost predicate Became(model: Model, groups: seq<seq<Fragment>>, first: nat, next: seq<Fragment>) {
    |next| <= |groups| && forall i :: 0 <= i < |next| ==> BecameAt(model, groups, first, next, i)
  }

  lemma BecameGrows(model: Model, groups: seq<seq<Fragment>>, first: nat, next: seq<Fragment>, fragment: Fragment)
    requires Became(model, groups, first, next) && |next| < |groups|
    requires BecameAt(model, groups, first, next + [fragment], |next|)
    ensures Became(model, groups, first, next + [fragment])
  {
    var more := next + [fragment];
    forall i | 0 <= i < |more| ensures BecameAt(model, groups, first, more, i) {
      if i < |next| { assert BecameAt(model, groups, first, next, i); }
    }
  }

  // A grouping that one round may use: all of the fragments in order, each group fitting and as
  // wide as it can be, something merged.
  ghost predicate IsGrouping(merge: Budget, fragments: seq<Fragment>, groups: seq<seq<Fragment>>) {
    && Concat(groups) == fragments && Widest(merge, groups)
    && (forall i :: 0 <= i < |groups| ==> GroupFits(merge, groups[i]))
    && exists i :: 0 <= i < |groups| && |groups[i]| > 1
  }

  // What happened: the fragments before each round, how they were grouped, and the number of
  // calls made before each round.
  datatype Trace = Trace(states: seq<seq<Fragment>>, groupings: seq<seq<seq<Fragment>>>, calls: seq<nat>)

  ghost predicate IsTrace(initial: seq<Fragment>, final: Budget, merge: Budget, model: Model, t: Trace) {
    && |t.states| == |t.calls| == |t.groupings| + 1
    && t.states[0] == initial && t.calls[0] == 0
    && forall r :: 0 <= r < |t.groupings| ==> RoundAt(final, merge, model, t, r)
  }

  // A round is needed and possible, and takes one state to the next.
  ghost predicate RoundAt(final: Budget, merge: Budget, model: Model, t: Trace, r: nat)
    requires |t.states| == |t.calls| == |t.groupings| + 1 && r < |t.groupings|
  {
    && final(t.states[r]) == Some(false) && |t.states[r]| != 1
    && IsGrouping(merge, t.states[r], t.groupings[r])
    && |t.states[r + 1]| == |t.groupings[r]| && Became(model, t.groupings[r], t.calls[r], t.states[r + 1])
    && t.calls[r + 1] == t.calls[r] + CallsFor(t.groupings[r])
  }

  function Last<T>(s: seq<T>): T
    requires s != []
  {
    s[|s| - 1]
  }

  lemma TraceGrows(
      initial: seq<Fragment>, final: Budget, merge: Budget, model: Model, t: Trace,
      groups: seq<seq<Fragment>>, next: seq<Fragment>)
    requires IsTrace(initial, final, merge, model, t)
    requires final(Last(t.states)) == Some(false) && |Last(t.states)| != 1 && IsGrouping(merge, Last(t.states), groups)
    requires |next| == |groups| && Became(model, groups, Last(t.calls), next)
    ensures IsTrace(initial, final, merge, model,
      Trace(t.states + [next], t.groupings + [groups], t.calls + [Last(t.calls) + CallsFor(groups)]))
  {
    var u := Trace(t.states + [next], t.groupings + [groups], t.calls + [Last(t.calls) + CallsFor(groups)]);
    forall r | 0 <= r < |u.groupings| ensures RoundAt(final, merge, model, u, r) {
      if r < |t.groupings| { assert RoundAt(final, merge, model, t, r); }
    }
  }

  // A call of the next round failed: the one for group `i`, after all the ones before it.
  ghost predicate FailedIn(
      merge: Budget, model: Model, fragments: seq<Fragment>, first: nat, calls: nat, error: ReduceError)
  {
    exists groups, i, next ::
      && IsGrouping(merge, fragments, groups) && 0 <= i < |groups| && |groups[i]| > 1
      && |next| == i && Became(model, groups, first, next)
      && calls == first + CallsFor(groups[..i]) + 1 && GaveUp(model, calls - 1, groups[i], error)
  }

  // Counting fails for the final prompt, or for a merge prompt of neighbours.
  ghost predicate CountingFails(final: Budget, merge: Budget, fragments: seq<Fragment>) {
    || final(fragments) == None
    || exists i, j :: 0 <= i <= j <= |fragments| && merge(fragments[i..j]) == None
  }

  // Counting never fails, and the model always answers something.
  ghost predicate NothingFails(final: Budget, merge: Budget, model: Model) {
    && (forall fs :: final(fs).Some? && merge(fs).Some?)
    && forall call, group :: model(call, group).Some? && !Blank(model(call, group).value)
  }

  // Every fragment was given, or is the model's answer to one of the first `calls` calls.
  ghost predicate Sourced(initial: seq<Fragment>, model: Model, calls: nat, fragments: seq<Fragment>) {
    forall k :: 0 <= k < |fragments| ==> fragments[k] in initial || Replied(model, calls, fragments[k])
  }

  ghost predicate Replied(model: Model, calls: nat, f: Fragment) {
    !Blank(f) && exists call, group :: 0 <= call < calls && model(call, group) == Some(f)
  }

  lemma SourcedGrows(
      initial: seq<Fragment>, model: Model, calls: nat, next: seq<Fragment>, calls': nat, fragment: Fragment)
    requires Sourced(initial, model, calls, next) && calls <= calls'
    requires fragment in initial || Replied(model, calls', fragment)
    ensures Sourced(initial, model, calls', next + [fragment])
  {
    var more := next + [fragment];
    forall k | 0 <= k < |more| ensures more[k] in initial || Replied(model, calls', more[k]) {
      if k < |next| { assert more[k] == next[k]; }
    }
  }

  // One group: its only member, or the model's answer for it.
  method MergeGroup(values: seq<Fragment>, model: Model, calls: nat) returns (fragment: Result<Fragment, ReduceError>, calls': nat)
    requires values != []
    ensures |values| == 1 ==> fragment == Ok(values[0]) && calls' == calls
    ensures |values| > 1 ==> calls' == calls + 1
    ensures |values| > 1 && fragment.Ok? ==>
      model(calls, values) == Some(fragment.value) && Replied(model, calls', fragment.value)
    ensures |values| > 1 && fragment.Err? ==> GaveUp(model, calls, values, fragment.error)
  {
    if |values| == 1 { return Ok(values[0]), calls; }
    var reply := model(calls, values);
    if reply.None? { return Err(CallFailed), calls + 1; }
    if Blank(reply.value) { return Err(EmptyFragment), calls + 1; }
    return Ok(reply.value), calls + 1;
  }

  // Replaces every group by one fragment, asking the model for those with several members.
  method MergeGroups(
      groups: seq<seq<Fragment>>, model: Model, calls: nat,
      ghost initial: seq<Fragment>, ghost cuts: seq<nat>, ghost fragments: seq<Fragment>)
    returns (result: Result<seq<Fragment>, ReduceError>, calls': nat, ghost cuts': seq<nat>, next: seq<Fragment>)
    requires Carries(initial, cuts, fragments) && Concat(groups) == fragments
    requires Sourced(initial, model, calls, fragments) && forall i :: 0 <= i < |groups| ==> groups[i] != []
    ensures result.Ok? ==> |result.value| == |groups| && Carries(initial, cuts', result.value)
    ensures result.Ok? ==> Sourced(initial, model, calls', result.value)
    ensures calls <= calls' && calls' + |groups| <= calls + |fragments|
    ensures result.Ok? ==> Became(model, groups, calls, result.value) && calls' == calls + CallsFor(groups)
    ensures result.Err? ==> |next| < |groups| && |groups[|next|]| > 1 && Became(model, groups, calls, next)
    ensures result.Err? ==>
      calls' == calls + CallsFor(groups[..|next|]) + 1 && GaveUp(model, calls' - 1, groups[|next|], result.error)
  {
    next := [];
    calls', cuts' := calls, [0];
    ghost var taken := 0;
    for index := 0 to |groups|
      invariant Merging(initial, cuts, fragments, groups, model, calls, index, taken, calls', cuts', next)
    {
      RestIsTaken(fragments, groups, index, taken);
      var merged, made := MergeGroup(groups[index], model, calls');
      if merged.Err? { return Err(merged.error), made, cuts', next; }
      MergingStep(initial, cuts, fragments, groups, model, calls, index, taken, calls', cuts', next, merged.value, made);
      taken := taken + |groups[index]|;
      calls', cuts', next := made, cuts' + [cuts[taken]], next + [merged.value];
    }
    assert groups[..|groups|] == groups;
    result := Ok(next);
  }

  // The groups still to come hold a fragment each.
  lemma RestIsTaken(fragments: seq<Fragment>, groups: seq<seq<Fragment>>, index: nat, taken: nat)
    requires Concat(groups) == fragments && index < |groups| && taken <= |fragments|
    requires forall i :: 0 <= i < |groups| ==> groups[i] != []
    requires Concat(groups[..index]) == fragments[..taken]
    ensures taken + |groups[index]| + (|groups| - index - 1) <= |fragments|
  {
    assert groups[..index + 1] == groups[..index] + [groups[index]];
    RestIsLonger(groups, index + 1);
  }

  // One round after `index` groups, which hold `taken` fragments.
  ghost predicate Merging(
      initial: seq<Fragment>, cuts: seq<nat>, fragments: seq<Fragment>, groups: seq<seq<Fragment>>, model: Model, calls: nat,
      index: nat, taken: nat, calls': nat, cuts': seq<nat>, next: seq<Fragment>)
  {
    && Merged(initial, cuts, fragments, groups, index, taken, cuts', next)
    && calls <= calls' && calls' + index <= calls + taken
    && Sourced(initial, model, calls', next)
    && Became(model, groups, calls, next) && calls' == calls + CallsFor(groups[..index])
  }

  lemma MergingStep(
      initial: seq<Fragment>, cuts: seq<nat>, fragments: seq<Fragment>, groups: seq<seq<Fragment>>, model: Model, calls: nat,
      index: nat, taken: nat, calls': nat, cuts': seq<nat>, next: seq<Fragment>, fragment: Fragment, made: nat)
    requires Carries(initial, cuts, fragments) && Concat(groups) == fragments && Sourced(initial, model, calls, fragments)
    requires forall i :: 0 <= i < |groups| ==> groups[i] != []
    requires Merging(initial, cuts, fragments, groups, model, calls, index, taken, calls', cuts', next) && index < |groups|
    requires if |groups[index]| == 1 then fragment == groups[index][0] && made == calls'
      else made == calls' + 1 && model(calls', groups[index]) == Some(fragment) && Replied(model, made, fragment)
    ensures taken + |groups[index]| < |cuts|
    ensures Merging(initial, cuts, fragments, groups, model, calls, index + 1, taken + |groups[index]|,
      made, cuts' + [cuts[taken + |groups[index]|]], next + [fragment])
  {
    var values := groups[index];
    ConcatPrefix(groups, index + 1);
    assert groups[..index + 1] == groups[..index] + [values];
    MergeOne(initial, cuts, fragments, groups, index, taken, cuts', next, fragment);
    assert |values| == 1 ==> fragment == fragments[taken];
    assert Sourced(initial, model, made, next + [fragment]) by {
      SourcedGrows(initial, model, calls', next, made, fragment);
    }
    assert CallsFor(groups[..index + 1]) == CallsFor(groups[..index]) + (if |values| > 1 then 1 else 0) by {
      CallsForGrow(groups[..index], values);
    }
    assert Became(model, groups, calls, next + [fragment]) by {
      BecameGrows(model, groups, calls, next, fragment);
    }
  }

  datatype Report = Final(fragments: seq<Fragment>) | Refused(error: ReduceError, fragments: seq<Fragment>)

  // Reduces until the final prompt fits. Every round leaves fewer fragments, so it ends whatever
  // the model answers, after at most one merge call fewer than there were fragments.
  method ReduceFragments(initial: seq<Fragment>, final: Budget, merge: Budget, model: Model)
    returns (report: Report, calls: nat, ghost cuts: seq<nat>, ghost trace: Trace)
    ensures calls < |initial| || (initial == [] && calls == 0)
    ensures Carries(initial, cuts, report.fragments) && Sourced(initial, model, calls, report.fragments)
    ensures report.Final? ==> final(report.fragments) == Some(true)
    ensures report.Refused? && report.error == OneTooLarge ==>
      |report.fragments| == 1 && final(report.fragments) == Some(false)
    ensures report.Refused? && report.error == NoPairFits ==>
      |report.fragments| != 1 && final(report.fragments) == Some(false) && NoPair(merge, report.fragments)
    ensures report.Refused? && report.error == CountFailed ==> CountingFails(final, merge, report.fragments)
    ensures IsTrace(initial, final, merge, model, trace) && Last(trace.states) == report.fragments
    ensures if report.Refused? && (report.error == CallFailed || report.error == EmptyFragment)
      then FailedIn(merge, model, report.fragments, Last(trace.calls), calls, report.error)
      else calls == Last(trace.calls)
    ensures final(initial) == Some(true) ==> report == Final(initial) && calls == 0
    ensures NothingFails(final, merge, model) ==>
      report.Final? || report.error == OneTooLarge || report.error == NoPairFits
  {
    var fragments := initial;
    calls := 0;
    cuts := seq(|initial| + 1, i => i);
    trace := Trace([initial], [], [0]);
    forall k | 0 <= k < |fragments| ensures Segment(initial, cuts, fragments, k) {}
    while true
      invariant IsTrace(initial, final, merge, model, trace)
      invariant Last(trace.states) == fragments && Last(trace.calls) == calls
      invariant |trace.groupings| > 0 ==> final(initial) == Some(false)
      invariant Carries(initial, cuts, fragments) && Sourced(initial, model, calls, fragments)
      invariant calls + |fragments| <= |initial| && (initial != [] ==> fragments != [])
      decreases |fragments|
    {
      var fits := final(fragments);
      if fits.None? { return Refused(CountFailed, fragments), calls, cuts, trace; }
      if fits.value { return Final(fragments), calls, cuts, trace; }
      if |fragments| == 1 { return Refused(OneTooLarge, fragments), calls, cuts, trace; }
      var grouped := WidestFragmentGroups(merge, fragments);
      if grouped.None? { return Refused(CountFailed, fragments), calls, cuts, trace; }
      var groups, reduced := grouped.value.0, grouped.value.1;
      if !reduced {
        NotReducedMeansNoPair(merge, groups, fragments);
        return Refused(NoPairFits, fragments), calls, cuts, trace;
      }
      forall i | 0 <= i < |groups| ensures groups[i] != [] { assert GroupFits(merge, groups[i]); }
      FewerGroups(groups);
      var merged, calls', cuts', next := MergeGroups(groups, model, calls, initial, cuts, fragments);
      if merged.Err? {
        assert IsGrouping(merge, fragments, groups) && |groups[|next|]| > 1 && Became(model, groups, calls, next);
        return Refused(merged.error, fragments), calls', cuts, trace;
      }
      assert trace.states[0] == initial;
      TraceGrows(initial, final, merge, model, trace, groups, merged.value);
      trace := Trace(trace.states + [merged.value], trace.groupings + [groups], trace.calls + [calls']);
      fragments, cuts, calls := merged.value, cuts', calls';
    }
  }
}
