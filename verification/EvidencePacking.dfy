/**
 Greedy grouping of evidence under a token budget (community/report/fragment_plan.go): packing
 single rows into batches, and combining neighbouring batches.
 */
module EvidencePacking {
  import opened Wrappers
  import opened Sorting
  import opened ReportEvidence

  // `count` is the token count of the prompt rendered for a batch; None when rendering or
  // counting fails.
  datatype Budget = Budget(count: Batch -> Option<int>, max: int)

  datatype PlanError =
    | CountFailed(batch: Batch)
    | NegativeCount(batch: Batch)
    | RowTooLarge(row: Item)
    | OwnsNoEvidence(community: int)
    | NoBatches
    | NotCovered
    | BatchTooLarge(index: nat)

  // The batch can be counted, and its count is within the budget.
  ghost predicate Fits(budget: Budget, b: Batch) {
    budget.count(b).Some? && 0 <= budget.count(b).value <= budget.max
  }

  // The batch can be counted, and its count is beyond the budget.
  ghost predicate Exceeds(budget: Budget, b: Batch) {
    budget.count(b).Some? && 0 <= budget.count(b).value && budget.max < budget.count(b).value
  }

  // fragmentPromptForBatch.
  function Check(budget: Budget, b: Batch): (result: Result<bool, PlanError>)
    ensures result == Ok(true) <==> Fits(budget, b)
    ensures result == Ok(false) <==> Exceeds(budget, b)
    ensures result.Err? ==> CounterFailed(budget, result.error)
  {
    match budget.count(b)
    case None => Err(CountFailed(b))
    case Some(n) => if n < 0 then Err(NegativeCount(b)) else Ok(n <= budget.max)
  }

  ghost predicate CounterFailed(budget: Budget, error: PlanError) {
    match error
    case CountFailed(b) => budget.count(b).None?
    case NegativeCount(b) => budget.count(b).Some? && budget.count(b).value < 0
    case _ => false
  }

  // ---------------------------------------------------------------------------------------
  // Greedy grouping of neighbours, shared by packing and combining.

  ghost function MergeAll(bs: seq<Batch>): Batch {
    if bs == [] then EMPTY
    else if |bs| == 1 then bs[0]
    else Merge(MergeAll(bs[..|bs| - 1]), bs[|bs| - 1])
  }

  ghost function Group(items: seq<Batch>, from: nat, to: nat): Batch
    requires from <= to <= |items|
  {
    MergeAll(items[from..to])
  }

  // Every step that made the group larger kept it within the budget.
  ghost predicate Growing(budget: Budget, items: seq<Batch>, from: nat, to: nat) {
    && from <= to <= |items|
    && forall m :: from + 1 < m <= to ==> Fits(budget, Group(items, from, m))
  }

  // A group that ends only where its next item does not fit any more.
  ghost predicate Maximal(budget: Budget, items: seq<Batch>, from: nat, to: nat) {
    from < to && Growing(budget, items, from, to) && (to < |items| ==> Exceeds(budget, Group(items, from, to + 1)))
  }

  ghost predicate GroupAt(budget: Budget, items: seq<Batch>, cuts: seq<nat>, result: seq<Batch>, k: nat)
    requires |cuts| == |result| + 1 && k < |result|
  {
    Maximal(budget, items, cuts[k], cuts[k + 1]) && result[k] == Group(items, cuts[k], cuts[k + 1])
  }

  // `result` groups the items before `end`.
  ghost predicate Greedy(budget: Budget, items: seq<Batch>, cuts: seq<nat>, result: seq<Batch>, end: nat) {
    && |cuts| == |result| + 1 && cuts[0] == 0 && cuts[|result|] == end <= |items|
    && forall k :: 0 <= k < |result| ==> GroupAt(budget, items, cuts, result, k)
  }

  lemma GreedyGrows(budget: Budget, items: seq<Batch>, cuts: seq<nat>, result: seq<Batch>, from: nat, to: nat)
    requires Greedy(budget, items, cuts, result, from) && Maximal(budget, items, from, to)
    ensures Greedy(budget, items, cuts + [to], result + [Group(items, from, to)], to)
  {
    forall k | 0 <= k < |result| + 1
      ensures GroupAt(budget, items, cuts + [to], result + [Group(items, from, to)], k)
    {
      if k < |result| { assert GroupAt(budget, items, cuts, result, k); }
    }
  }

  lemma GroupGrows(items: seq<Batch>, from: nat, to: nat)
    requires from <= to < |items|
    ensures Group(items, from, to + 1) == if from == to then items[to] else Merge(Group(items, from, to), items[to])
  {
    assert items[from..to + 1][..to - from] == items[from..to];
  }

  lemma {:induction false} MergeAllTimes(bs: seq<Batch>, x: Item)
    ensures Times(MergeAll(bs), x) == TotalTimes(bs, x)
  {
    if |bs| == 1 {
      assert bs == [] + [bs[0]];
      TotalTimesGrow([], bs[0], x);
    } else if bs != [] {
      MergeAllTimes(bs[..|bs| - 1], x);
      MergeTimes(MergeAll(bs[..|bs| - 1]), bs[|bs| - 1], x);
    }
  }

  lemma MergeAllOrders(bs: seq<Batch>)
    requires forall b :: b in bs ==> RowsInOrder(b)
    ensures RowsInOrder(MergeAll(bs))
  {
    if |bs| == 1 {
      assert bs[0] in bs;
    } else if bs != [] {
      MergeOrders(MergeAll(bs[..|bs| - 1]), bs[|bs| - 1]);
    }
  }

  // Grouping keeps every row, as often as it was there.
  lemma {:induction false} GreedyTimes(
      budget: Budget, items: seq<Batch>, cuts: seq<nat>, result: seq<Batch>, end: nat, x: Item)
    requires Greedy(budget, items, cuts, result, end)
    ensures TotalTimes(result, x) == TotalTimes(items[..end], x)
  {
    if result == [] {
    } else {
      var n := |result| - 1;
      assert GroupAt(budget, items, cuts, result, n);
      GreedyShrinks(budget, items, cuts, result, end);
      GreedyTimes(budget, items, cuts[..n + 1], result[..n], cuts[n], x);
      GroupTimes(items, cuts[n], end, x);
    }
  }

  lemma GroupTimes(items: seq<Batch>, from: nat, to: nat, x: Item)
    requires from <= to <= |items|
    ensures TotalTimes(items[..to], x) == TotalTimes(items[..from], x) + Times(Group(items, from, to), x)
  {
    var before, group := items[..from], items[from..to];
    assert items[..to] == before + group;
    TotalTimesConcat(before, group, x);
    MergeAllTimes(group, x);
  }

  lemma GreedyShrinks(budget: Budget, items: seq<Batch>, cuts: seq<nat>, result: seq<Batch>, end: nat)
    requires Greedy(budget, items, cuts, result, end) && result != []
    ensures Greedy(budget, items, cuts[..|result|], result[..|result| - 1], cuts[|result| - 1])
  {
    var n := |result| - 1;
    assert GroupAt(budget, items, cuts, result, n);
    var shorter, fewer := cuts[..n + 1], result[..n];
    forall k | 0 <= k < n ensures GroupAt(budget, items, shorter, fewer, k) {
      assert GroupAt(budget, items, cuts, result, k);
    }
  }

  // Groups are in row order and fit when the items do.
  lemma GreedyKeeps(budget: Budget, items: seq<Batch>, cuts: seq<nat>, result: seq<Batch>)
    requires Greedy(budget, items, cuts, result, |items|)
    requires forall b :: b in items ==> RowsInOrder(b)
    ensures forall b :: b in result ==> RowsInOrder(b)
    ensures (forall b :: b in items ==> Fits(budget, b)) ==> forall b :: b in result ==> Fits(budget, b)
  {
    forall k | 0 <= k < |result|
      ensures RowsInOrder(result[k])
      ensures (forall b :: b in items ==> Fits(budget, b)) ==> Fits(budget, result[k])
    {
      assert GroupAt(budget, items, cuts, result, k);
      MergeAllOrders(items[cuts[k]..cuts[k + 1]]);
      assert items[cuts[k]] in items;
    }
  }

  // In counts: a group ends where the count of the group with its next item is beyond the
  // budget, and a group of several items is within it, as was every group it grew from.
  lemma GroupsEndOverBudget(budget: Budget, items: seq<Batch>, cuts: seq<nat>, result: seq<Batch>, k: nat)
    requires Greedy(budget, items, cuts, result, |items|) && k < |result|
    ensures cuts[k] < cuts[k + 1] <= |items| && result[k] == MergeAll(items[cuts[k]..cuts[k + 1]])
    ensures cuts[k + 1] < |items| ==>
      var next := budget.count(MergeAll(items[cuts[k]..cuts[k + 1] + 1]));
      next.Some? && next.value >= 0 && next.value > budget.max
    ensures forall m :: cuts[k] + 1 < m <= cuts[k + 1] ==>
      var count := budget.count(MergeAll(items[cuts[k]..m]));
      count.Some? && 0 <= count.value <= budget.max
  {
    assert GroupAt(budget, items, cuts, result, k);
    forall m | cuts[k] + 1 < m <= cuts[k + 1]
      ensures var count := budget.count(MergeAll(items[cuts[k]..m])); count.Some? && 0 <= count.value <= budget.max
    {
      assert Fits(budget, Group(items, cuts[k], m));
    }
  }

  // Nothing else is a greedy grouping of the same items.
  lemma {:induction false} GreedyIsUnique(
      budget: Budget, items: seq<Batch>, cuts: seq<nat>, result: seq<Batch>, cuts': seq<nat>, result': seq<Batch>, k: nat)
    requires Greedy(budget, items, cuts, result, |items|) && Greedy(budget, items, cuts', result', |items|)
    requires k <= |result|
    ensures k <= |result'| && cuts[..k + 1] == cuts'[..k + 1] && result[..k] == result'[..k]
    ensures k == |result| ==> result == result'
  {
    if k == 0 {
    } else {
      GreedyIsUnique(budget, items, cuts, result, cuts', result', k - 1);
      assert cuts[k - 1] == cuts[..k][k - 1] == cuts'[..k][k - 1] == cuts'[k - 1];
      assert GroupAt(budget, items, cuts, result, k - 1);
      assert k <= |result'|;
      assert GroupAt(budget, items, cuts', result', k - 1);
    }
    forall j | 0 <= j < |result'| ensures cuts'[j] < |items| {
      assert GroupAt(budget, items, cuts', result', j);
    }
    assert cuts[k] == cuts[..k + 1][k] == cuts'[..k + 1][k] == cuts'[k];
  }

  // ---------------------------------------------------------------------------------------
  // Packing and combining.

  ghost predicate ArePacked(budget: Budget, atoms: seq<Item>, batches: seq<Batch>, cuts: seq<nat>) {
    && Greedy(budget, Singles(atoms), cuts, batches, |atoms|)
    && forall b :: b in batches ==> Fits(budget, b)
  }

  ghost predicate IsPacking(budget: Budget, input: Batch, batches: seq<Batch>, cuts: seq<nat>) {
    ArePacked(budget, AtomsOf(input), batches, cuts)
  }

  // What can go wrong: the counter, or a row of the input that is too large on its own.
  ghost predicate Explains(budget: Budget, input: Batch, error: PlanError) {
    || CounterFailed(budget, error)
    || (error.RowTooLarge? && Holds(input, error.row) && Exceeds(budget, Single(error.row)))
  }

  lemma SingleIsOrdered(x: Item)
    ensures RowsInOrder(Single(x))
    ensures Merge(EMPTY, Single(x)) == Single(x)
  {
    MergeWithEmpty(Single(x));
  }

  lemma AtomIsRow(input: Batch, x: Item)
    requires WellFormed(input) && x in AtomsOf(input)
    ensures Holds(input, x)
  {
    AtomsConserve(input, x);
    TimesPositive(input, x);
    assert x in multiset(AtomsOf(input));
  }

  // The state between two rows: the groups before `from` are final, `current` may still grow.
  ghost predicate Packing(
      budget: Budget, items: seq<Batch>, cuts: seq<nat>, batches: seq<Batch>, current: Batch, from: nat, i: nat)
  {
    && Growing(budget, items, from, i) && (from == i ==> i == 0)
    && Greedy(budget, items, cuts, batches, from) && current == Group(items, from, i)
    && (i > 0 ==> Fits(budget, current)) && forall b :: b in batches ==> Fits(budget, b)
  }

  lemma GrowingExtends(budget: Budget, items: seq<Batch>, from: nat, i: nat)
    requires Growing(budget, items, from, i) && i < |items| && Fits(budget, Group(items, from, i + 1))
    ensures Growing(budget, items, from, i + 1)
  {
  }

  lemma PackingExtends(
      budget: Budget, items: seq<Batch>, cuts: seq<nat>, batches: seq<Batch>, current: Batch, from: nat, i: nat)
    requires i < |items| && Packing(budget, items, cuts, batches, current, from, i)
    requires Merge(EMPTY, items[i]) == items[i] && Fits(budget, Merge(current, items[i]))
    ensures Packing(budget, items, cuts, batches, Merge(current, items[i]), from, i + 1)
  {
    GroupGrows(items, from, i);
    GrowingExtends(budget, items, from, i);
  }

  lemma PackingCloses(
      budget: Budget, items: seq<Batch>, cuts: seq<nat>, batches: seq<Batch>, current: Batch, from: nat, i: nat)
    requires from < i && Packing(budget, items, cuts, batches, current, from, i)
    requires i < |items| ==> Exceeds(budget, Merge(current, items[i])) && Fits(budget, items[i])
    ensures Greedy(budget, items, cuts + [i], batches + [current], i)
    ensures forall b :: b in batches + [current] ==> Fits(budget, b)
    ensures i < |items| ==> Packing(budget, items, cuts + [i], batches + [current], items[i], i, i + 1)
  {
    if i < |items| {
      GroupGrows(items, from, i);
      GroupGrows(items, i, i);
    }
    GreedyGrows(budget, items, cuts, batches, from, i);
  }

  // What the next row does to the state, in the order the branches ask.
  lemma PackingStep(
      budget: Budget, atoms: seq<Item>, cuts: seq<nat>, batches: seq<Batch>, current: Batch, from: nat, i: nat)
    requires i < |atoms|
    requires Packing(budget, Singles(atoms), cuts, batches, current, from, i)
    ensures
      var single := Single(atoms[i]);
      && (IsEmpty(current) ==> Merge(current, single) == single)
      && (Fits(budget, Merge(current, single)) ==>
        Packing(budget, Singles(atoms), cuts, batches, Merge(current, single), from, i + 1))
      && (Exceeds(budget, Merge(current, single)) && !IsEmpty(current) && Fits(budget, single) ==>
        Packing(budget, Singles(atoms), cuts + [i], batches + [current], single, i, i + 1))
  {
    var x := atoms[i];
    SingleIsOrdered(x);
    if Fits(budget, Merge(current, Single(x))) {
      PackingExtends(budget, Singles(atoms), cuts, batches, current, from, i);
    } else if Exceeds(budget, Merge(current, Single(x))) && !IsEmpty(current) && Fits(budget, Single(x)) {
      PackingCloses(budget, Singles(atoms), cuts, batches, current, from, i);
    }
  }

  lemma PackingEnds(
      budget: Budget, atoms: seq<Item>, cuts: seq<nat>, batches: seq<Batch>, current: Batch, from: nat)
    requires Packing(budget, Singles(atoms), cuts, batches, current, from, |atoms|)
    ensures IsEmpty(current) ==> ArePacked(budget, atoms, batches, cuts)
    ensures !IsEmpty(current) ==> ArePacked(budget, atoms, batches + [current], cuts + [|atoms|])
  {
    if !IsEmpty(current) { PackingCloses(budget, Singles(atoms), cuts, batches, current, from, |atoms|); }
  }

  // Whether the next row joins the current batch or starts a new one.
  method PlaceRow(current: Batch, row: Item, budget: Budget) returns (joins: Result<bool, PlanError>)
    ensures joins.Ok? && joins.value ==> Fits(budget, Merge(current, Single(row)))
    ensures joins.Ok? && !joins.value ==>
      Exceeds(budget, Merge(current, Single(row))) && !IsEmpty(current) && Fits(budget, Single(row))
    ensures joins.Err? && !CounterFailed(budget, joins.error) ==>
      joins.error == RowTooLarge(row) && Exceeds(budget, if IsEmpty(current) then Merge(current, Single(row)) else Single(row))
  {
    var fits := Check(budget, Merge(current, Single(row)));
    if fits.Err? || fits.value { return fits; }
    if IsEmpty(current) { return Err(RowTooLarge(row)); }
    var alone := Check(budget, Single(row));
    if alone.Err? { return alone; }
    if !alone.value { return Err(RowTooLarge(row)); }
    return Ok(false);
  }

  method PackRow(
      atoms: seq<Item>, budget: Budget, i: nat, batches: seq<Batch>, current: Batch, ghost cuts: seq<nat>, ghost from: nat)
    returns (failure: Option<PlanError>, batches': seq<Batch>, current': Batch, ghost cuts': seq<nat>, ghost from': nat)
    requires i < |atoms| && Packing(budget, Singles(atoms), cuts, batches, current, from, i)
    ensures failure.None? ==> Packing(budget, Singles(atoms), cuts', batches', current', from', i + 1)
    ensures failure.Some? && !CounterFailed(budget, failure.value) ==>
      failure.value == RowTooLarge(atoms[i]) && Exceeds(budget, Single(atoms[i]))
  {
    var atom := atoms[i];
    PackingStep(budget, atoms, cuts, batches, current, from, i);
    failure, batches', current', cuts', from' := None, batches, current, cuts, from;
    var joins := PlaceRow(current, atom, budget);
    if joins.Err? {
      failure := Some(joins.error);
    } else if joins.value {
      current' := Merge(current, Single(atom));
    } else {
      batches', cuts' := batches + [current], cuts + [i];
      current', from' := Single(atom), i;
    }
  }

  // packReportEvidence, for the rows it has taken apart.
  method PackRows(atoms: seq<Item>, budget: Budget) returns (result: Result<seq<Batch>, PlanError>, ghost cuts: seq<nat>)
    ensures result.Ok? ==> ArePacked(budget, atoms, result.value, cuts)
    ensures result.Err? && !CounterFailed(budget, result.error) ==>
      result.error.RowTooLarge? && result.error.row in atoms && Exceeds(budget, Single(result.error.row))
  {
    ghost var from := 0;
    var batches: seq<Batch> := [];
    var current := EMPTY;
    cuts := [0];
    for i := 0 to |atoms|
      invariant Packing(budget, Singles(atoms), cuts, batches, current, from, i)
    {
      var failure;
      failure, batches, current, cuts, from := PackRow(atoms, budget, i, batches, current, cuts, from);
      if failure.Some? { return Err(failure.value), cuts; }
    }
    PackingEnds(budget, atoms, cuts, batches, current, from);
    if !IsEmpty(current) {
      batches, cuts := batches + [current], cuts + [|atoms|];
    }
    return Ok(batches), cuts;
  }

  method PackReportEvidence(input: Batch, budget: Budget)
    returns (result: Result<seq<Batch>, PlanError>, ghost cuts: seq<nat>)
    requires WellFormed(input)
    ensures result.Ok? ==> IsPacking(budget, input, result.value, cuts)
    ensures result.Err? ==> Explains(budget, input, result.error)
  {
    var atoms := ReportEvidenceAtoms(input);
    result, cuts := PackRows(atoms, budget);
    if result.Err? && !CounterFailed(budget, result.error) { AtomIsRow(input, result.error.row); }
  }

  ghost predicate AreCombined(budget: Budget, items: seq<Batch>, batches: seq<Batch>, cuts: seq<nat>) {
    items != [] && Greedy(budget, items, cuts, batches, |items|)
  }

  ghost predicate Combining(
      budget: Budget, items: seq<Batch>, cuts: seq<nat>, batches: seq<Batch>, current: Batch, from: nat, i: nat)
  {
    from < i && Greedy(budget, items, cuts, batches, from) && Growing(budget, items, from, i) && current == Group(items, from, i)
  }

  lemma CombiningStep(
      budget: Budget, items: seq<Batch>, cuts: seq<nat>, batches: seq<Batch>, current: Batch, from: nat, i: nat)
    requires i < |items| && Combining(budget, items, cuts, batches, current, from, i)
    ensures Fits(budget, Merge(current, items[i])) ==>
      Combining(budget, items, cuts, batches, Merge(current, items[i]), from, i + 1)
    ensures Exceeds(budget, Merge(current, items[i])) ==>
      Combining(budget, items, cuts + [i], batches + [current], items[i], i, i + 1)
  {
    GroupGrows(items, from, i);
    if Fits(budget, Merge(current, items[i])) { GrowingExtends(budget, items, from, i); }
    if Exceeds(budget, Merge(current, items[i])) {
      GreedyGrows(budget, items, cuts, batches, from, i);
      GroupGrows(items, i, i);
    }
  }

  lemma CombiningStarts(budget: Budget, items: seq<Batch>)
    requires items != []
    ensures Combining(budget, items, [0], [], items[0], 0, 1)
  {
    GroupGrows(items, 0, 0);
  }

  lemma CombiningEnds(budget: Budget, items: seq<Batch>, cuts: seq<nat>, batches: seq<Batch>, current: Batch, from: nat)
    requires Combining(budget, items, cuts, batches, current, from, |items|)
    ensures AreCombined(budget, items, batches + [current], cuts + [|items|])
  {
    GreedyGrows(budget, items, cuts, batches, from, |items|);
  }

  method CombineNext(
      candidates: seq<Batch>, budget: Budget, i: nat, batches: seq<Batch>, current: Batch, ghost cuts: seq<nat>, ghost from: nat)
    returns (failure: Option<PlanError>, batches': seq<Batch>, current': Batch, ghost cuts': seq<nat>, ghost from': nat)
    requires i < |candidates| && Combining(budget, candidates, cuts, batches, current, from, i)
    ensures failure.None? ==> Combining(budget, candidates, cuts', batches', current', from', i + 1)
    ensures failure.Some? ==> CounterFailed(budget, failure.value)
  {
    var next := candidates[i];
    var combined := Merge(current, next);
    CombiningStep(budget, candidates, cuts, batches, current, from, i);
    failure, batches', current', cuts', from' := None, batches, current, cuts, from;
    var fits := Check(budget, combined);
    if fits.Err? {
      failure := Some(fits.error);
    } else if fits.value {
      current' := combined;
    } else {
      batches', cuts' := batches + [current], cuts + [i];
      current', from' := next, i;
    }
  }

  // combineReportCandidates.
  method CombineReportCandidates(candidates: seq<Batch>, budget: Budget)
    returns (result: Result<seq<Batch>, PlanError>, ghost cuts: seq<nat>)
    ensures result.Ok? ==> AreCombined(budget, candidates, result.value, cuts)
    ensures result.Err? ==> if candidates == [] then result.error == NoBatches else CounterFailed(budget, result.error)
  {
    cuts := [0];
    if candidates == [] { return Err(NoBatches), cuts; }
    var batches: seq<Batch> := [];
    var current := candidates[0];
    ghost var from := 0;
    CombiningStarts(budget, candidates);
    for i := 1 to |candidates|
      invariant Combining(budget, candidates, cuts, batches, current, from, i)
    {
      var failure;
      failure, batches, current, cuts, from := CombineNext(candidates, budget, i, batches, current, cuts, from);
      if failure.Some? { return Err(failure.value), cuts; }
    }
    CombiningEnds(budget, candidates, cuts, batches, current, from);
    batches, cuts := batches + [current], cuts + [|candidates|];
    return Ok(batches), cuts;
  }
}
