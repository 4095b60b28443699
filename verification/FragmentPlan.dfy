/**
 Planning a community report's evidence batches (community/report/fragment_plan.go): a region
 of the hierarchy is split along its children until the parts fit a token budget, loose rows
 are packed, and neighbouring parts are combined again.
 */
module FragmentPlan {
  import opened Wrappers
  import opened Sets
  import opened Sorting
  import opened CommunitySets
  import H = Hierarchy
  import opened ReportEvidence
  import opened EvidencePacking

  // ---------------------------------------------------------------------------------------
  // The children of a community.

  function ChildOf(id: CommunityID): Membership -> bool { (m: Membership) => m.parentID == Some(id) }

  predicate NumberAtMost(a: Membership, b: Membership) { a.number <= b.number }

  function ChildrenOf(ms: seq<Membership>, id: CommunityID): seq<Membership> {
    Sort(Filter(ms, ChildOf(id)), NumberAtMost)
  }

  lemma ChildrenMembers(ms: seq<Membership>, id: CommunityID)
    ensures forall m :: m in ChildrenOf(ms, id) <==> m in ms && m.parentID == Some(id)
  {
    SortPermutes(Filter(ms, ChildOf(id)), NumberAtMost);
    FilterMembers(ms, ChildOf(id));
  }

  lemma ChildrenAreOrdered(ms: seq<Membership>, id: CommunityID)
    ensures forall i, j :: 0 <= i < j < |ChildrenOf(ms, id)| ==> ChildrenOf(ms, id)[i].number <= ChildrenOf(ms, id)[j].number
  {
    SortSorts(Filter(ms, ChildOf(id)), NumberAtMost);
    forall i, j | 0 <= i < j < |ChildrenOf(ms, id)| ensures ChildrenOf(ms, id)[i].number <= ChildrenOf(ms, id)[j].number {
      assert NumberAtMost(ChildrenOf(ms, id)[i], ChildrenOf(ms, id)[j]);
    }
  }

  function ChildrenIn(children: map<CommunityID, seq<Membership>>, id: CommunityID): seq<Membership> {
    if id in children then children[id] else []
  }

  ghost predicate IsChildMap(ms: seq<Membership>, children: map<CommunityID, seq<Membership>>) {
    forall id :: ChildrenIn(children, id) == ChildrenOf(ms, id)
  }

  ghost predicate AreGrouped(ms: seq<Membership>, children: map<CommunityID, seq<Membership>>) {
    forall id :: ChildrenIn(children, id) == Filter(ms, ChildOf(id))
  }

  function AddChild(children: map<CommunityID, seq<Membership>>, m: Membership): map<CommunityID, seq<Membership>> {
    if m.parentID.None? then children
    else children[m.parentID.value := ChildrenIn(children, m.parentID.value) + [m]]
  }

  // The grouping that opens planReportFragments.
  method GroupChildren(ms: seq<Membership>) returns (children: map<CommunityID, seq<Membership>>)
    ensures IsChildMap(ms, children)
    ensures forall id, m :: m in ChildrenIn(children, id) <==> m in ms && m.parentID == Some(id)
    ensures forall id, i, j :: 0 <= i < j < |ChildrenIn(children, id)| ==>
      ChildrenIn(children, id)[i].number <= ChildrenIn(children, id)[j].number
  {
    children := map[];
    for i := 0 to |ms|
      invariant AreGrouped(ms[..i], children)
    {
      assert ms[..i + 1] == ms[..i] + [ms[i]];
      children := AddChild(children, ms[i]);
    }
    assert ms[..|ms|] == ms;
    children := SortEach(ms, children);
    forall id
      ensures forall m :: m in ChildrenIn(children, id) <==> m in ms && m.parentID == Some(id)
      ensures forall i, j :: 0 <= i < j < |ChildrenIn(children, id)| ==>
        ChildrenIn(children, id)[i].number <= ChildrenIn(children, id)[j].number
    {
      ChildrenMembers(ms, id);
      ChildrenAreOrdered(ms, id);
    }
  }

  method SortEach(ghost ms: seq<Membership>, children: map<CommunityID, seq<Membership>>)
    returns (sorted: map<CommunityID, seq<Membership>>)
    requires AreGrouped(ms, children)
    ensures IsChildMap(ms, sorted)
  {
    sorted := children;
    var todo := children.Keys;
    while todo != {}
      invariant sorted.Keys == children.Keys && todo <= children.Keys
      invariant forall id :: id in todo ==> sorted[id] == children[id]
      invariant forall id :: id in sorted && id !in todo ==> sorted[id] == Sort(children[id], NumberAtMost)
      decreases todo
    {
      ghost var member := HasMember(todo);
      var id :| id in todo;
      sorted := sorted[id := Sort(sorted[id], NumberAtMost)];
      todo := todo - {id};
    }
    forall id ensures ChildrenIn(sorted, id) == ChildrenOf(ms, id) {
      assert ChildrenIn(children, id) == Filter(ms, ChildOf(id));
    }
  }

  // ---------------------------------------------------------------------------------------
  // What validation gives the planner.

  ghost predicate HasRealParent(ms: seq<Membership>, c: Membership) {
    c.parentID.Some? ==>
      exists p :: p in ms && c.parentID == Some(p.id) && p.level < c.level && forall e :: e in c.entityIDs ==> e in p.entityIDs
  }

  ghost predicate Regional(ms: seq<Membership>) {
    && (forall m, n :: m in ms && n in ms && m.id == n.id ==> m == n)
    && (forall m :: m in ms ==> m.entityIDs != [] && HasRealParent(ms, m))
  }

  lemma AcceptedIsRegional(ms: seq<Membership>, entities: set<EntityID>)
    requires ValidForReports(ms, entities)
    ensures Regional(ms)
  {
    forall m, n | m in ms && n in ms && m.id == n.id ensures m == n {}
    forall m | m in ms ensures m.entityIDs != [] && HasRealParent(ms, m) {
      assert ValidMembers(m, entities) && ContainedInParent(ms, m);
    }
  }

  // A child lies below its parent and inside it.
  lemma ChildFacts(ms: seq<Membership>, parent: Membership, child: Membership)
    requires Regional(ms) && parent in ms && child in ChildrenOf(ms, parent.id)
    ensures child in ms && child.level > parent.level && child.entityIDs != []
    ensures forall e :: e in child.entityIDs ==> e in parent.entityIDs
    ensures child.level <= TopLevel(ms)
  {
    ChildrenMembers(ms, parent.id);
    assert HasRealParent(ms, child);
    TopLevelBounds(ms);
  }

  ghost function TopLevel(ms: seq<Membership>): int {
    if ms == [] then 0
    else
      var before := TopLevel(ms[..|ms| - 1]);
      if ms[|ms| - 1].level > before then ms[|ms| - 1].level else before
  }

  lemma {:induction false} TopLevelBounds(ms: seq<Membership>)
    ensures forall m :: m in ms ==> m.level <= TopLevel(ms)
  {
    if ms == [] {
    } else {
      TopLevelBounds(ms[..|ms| - 1]);
      assert ms == ms[..|ms| - 1] + [ms[|ms| - 1]];
    }
  }

  // ---------------------------------------------------------------------------------------
  // What a plan is.

  datatype Plan =
    | Whole(batch: Batch)
    | Packed(batches: seq<Batch>, cuts: seq<nat>)
    | Split(parts: seq<Plan>, rest: Batch, batches: seq<Batch>, cuts: seq<nat>)

  // A child's share of its parent's evidence.
  ghost function Share(input: Batch, m: Membership): Batch { ForMembers(input, Members(m.entityIDs)) }

  ghost predicate TakenBySome(input: Batch, children: seq<Membership>, count: nat, x: Item)
    requires count <= |children|
  {
    exists i :: 0 <= i < count && Takes(input, Members(children[i].entityIDs), x)
  }

  // Exactly what no child takes.
  ghost predicate IsRemainder(input: Batch, children: seq<Membership>, rest: Batch) {
    && WellFormed(rest)
    && forall x :: Times(rest, x) == if TakenBySome(input, children, |children|, x) then 0 else Times(input, x)
  }

  // The plan of a region: whole when it may be and fits; otherwise packed when it has no
  // children; otherwise its children's plans in order, then the packed remainder.
  ghost predicate IsPlan(
      ms: seq<Membership>, budget: Budget, current: Membership, input: Batch, allowWhole: bool, plan: Plan)
    decreases plan
  {
    var children := ChildrenOf(ms, current.id);
    if allowWhole && Fits(budget, input) then plan == Whole(input)
    else if children == [] then plan.Packed? && IsPacking(budget, input, plan.batches, plan.cuts)
    else
      && plan.Split? && |plan.parts| == |children|
      && (forall i :: 0 <= i < |children| ==>
        IsPlan(ms, budget, children[i], Share(input, children[i]), true, plan.parts[i]))
      && IsRemainder(input, children, plan.rest) && IsPacking(budget, plan.rest, plan.batches, plan.cuts)
  }

  ghost function Flat(plan: Plan): seq<Batch>
    decreases plan, 1
  {
    match plan
    case Whole(b) => [b]
    case Packed(batches, _) => batches
    case Split(parts, _, batches, _) => FlatParts(plan, |parts|) + batches
  }

  ghost function FlatParts(plan: Plan, count: nat): seq<Batch>
    requires plan.Split? && count <= |plan.parts|
    decreases plan, 0, count
  {
    if count == 0 then [] else FlatParts(plan, count - 1) + Flat(plan.parts[count - 1])
  }

  // ---------------------------------------------------------------------------------------
  // The evidence of a region.

  ghost predicate Present(input: Batch, id: EntityID) {
    exists e :: e in input.entities && e.value.id == id
  }

  ghost predicate Region(current: Membership, input: Batch) {
    WellFormed(input) && forall id :: id in current.entityIDs ==> Present(input, id)
  }

  lemma ShareHolds(input: Batch, m: Membership, x: Item)
    ensures Holds(Share(input, m), x) <==> Holds(input, x) && Takes(input, Members(m.entityIDs), x)
  {
    ForMembersTimes(input, Members(m.entityIDs), x);
    TimesPositive(Share(input, m), x);
    TimesPositive(input, x);
  }

  // A child of a region is a region, and it owns evidence.
  lemma ShareIsRegion(ms: seq<Membership>, current: Membership, child: Membership, input: Batch)
    requires Regional(ms) && current in ms && child in ChildrenOf(ms, current.id) && Region(current, input)
    ensures Region(child, Share(input, child)) && !IsEmpty(Share(input, child))
  {
    ChildFacts(ms, current, child);
    ForMembersWellFormed(input, Members(child.entityIDs));
    var share := Share(input, child);
    forall id | id in child.entityIDs ensures Present(share, id) {
      assert Present(input, id);
      var e :| e in input.entities && e.value.id == id;
      ShareHolds(input, child, EntityItem(e));
    }
    var first := child.entityIDs[0];
    assert Present(share, first);
  }

  // ---------------------------------------------------------------------------------------
  // Every batch of a plan fits and is in row order.

  lemma PackingIsSound(budget: Budget, input: Batch, batches: seq<Batch>, cuts: seq<nat>)
    requires WellFormed(input) && IsPacking(budget, input, batches, cuts)
    ensures AllFit(budget, batches)
    ensures forall x :: TotalTimes(batches, x) == Times(input, x)
  {
    var atoms := AtomsOf(input);
    var items := Singles(atoms);
    forall b | b in items ensures RowsInOrder(b) {
      var i :| 0 <= i < |items| && items[i] == b;
      SingleIsOrdered(atoms[i]);
    }
    GreedyKeeps(budget, items, cuts, batches);
    forall x ensures TotalTimes(batches, x) == Times(input, x) {
      GreedyTimes(budget, items, cuts, batches, |atoms|, x);
      assert items[..|atoms|] == items;
      SinglesTimes(atoms, x);
      AtomsConserve(input, x);
    }
  }

  ghost predicate AllFit(budget: Budget, bs: seq<Batch>) {
    forall b :: b in bs ==> Fits(budget, b) && RowsInOrder(b)
  }

  lemma {:induction false} FlatPartsFit(budget: Budget, plan: Plan, count: nat)
    requires plan.Split? && count <= |plan.parts|
    requires forall i :: 0 <= i < |plan.parts| ==> AllFit(budget, Flat(plan.parts[i]))
    ensures AllFit(budget, FlatParts(plan, count))
  {
    if count == 0 {
    } else {
      FlatPartsFit(budget, plan, count - 1);
      assert AllFit(budget, Flat(plan.parts[count - 1]));
    }
  }

  lemma {:induction false} PlanFits(
      ms: seq<Membership>, budget: Budget, current: Membership, input: Batch, allowWhole: bool, plan: Plan)
    requires WellFormed(input) && IsPlan(ms, budget, current, input, allowWhole, plan)
    ensures AllFit(budget, Flat(plan))
    decreases plan
  {
    match plan
    case Whole(b) =>
    case Packed(batches, cuts) => PackingIsSound(budget, input, batches, cuts);
    case Split(parts, rest, batches, cuts) =>
      var children := ChildrenOf(ms, current.id);
      forall i | 0 <= i < |parts| ensures AllFit(budget, Flat(parts[i])) {
        ForMembersWellFormed(input, Members(children[i].entityIDs));
        PlanFits(ms, budget, children[i], Share(input, children[i]), true, parts[i]);
      }
      FlatPartsFit(budget, plan, |parts|);
      PackingIsSound(budget, rest, batches, cuts);
  }

  // ---------------------------------------------------------------------------------------
  // Conservation.

  // How often one part owns an item.
  ghost function PartTimes(plan: Plan, i: nat, x: Item): nat
    requires plan.Split? && i < |plan.parts|
  {
    TotalTimes(Flat(plan.parts[i]), x)
  }

  ghost function Sum(counts: seq<nat>): nat {
    if counts == [] then 0 else Sum(counts[..|counts| - 1]) + counts[|counts| - 1]
  }

  lemma {:induction false} SumHoldsOne(counts: seq<nat>, i: nat)
    requires i < |counts|
    ensures Sum(counts) >= counts[i]
  {
    if i < |counts| - 1 { SumHoldsOne(counts[..|counts| - 1], i); }
  }

  lemma {:induction false} SumHoldsTwo(counts: seq<nat>, i: nat, j: nat)
    requires i < j < |counts|
    ensures Sum(counts) >= counts[i] + counts[j]
  {
    var before := counts[..|counts| - 1];
    if j < |counts| - 1 { SumHoldsTwo(before, i, j); } else { SumHoldsOne(before, i); }
  }

  lemma {:induction false} SumOfOne(counts: seq<nat>, only: nat)
    requires forall i :: 0 <= i < |counts| && i != only ==> counts[i] == 0
    ensures Sum(counts) == if only < |counts| then counts[only] else 0
  {
    if counts != [] { SumOfOne(counts[..|counts| - 1], only); }
  }

  ghost function Counts(plan: Plan, count: nat, x: Item): seq<nat>
    requires plan.Split? && count <= |plan.parts|
  {
    seq(count, i requires 0 <= i < count => PartTimes(plan, i, x))
  }

  lemma {:induction false} PartsTimes(plan: Plan, count: nat, x: Item)
    requires plan.Split? && count <= |plan.parts|
    ensures TotalTimes(FlatParts(plan, count), x) == Sum(Counts(plan, count, x))
  {
    if count == 0 {
    } else {
      PartsTimes(plan, count - 1, x);
      var before, part, counts := FlatParts(plan, count - 1), Flat(plan.parts[count - 1]), Counts(plan, count, x);
      assert FlatParts(plan, count) == before + part;
      TotalTimesConcat(before, part, x);
      assert counts[..count - 1] == Counts(plan, count - 1, x) && counts[count - 1] == TotalTimes(part, x);
    }
  }

  // How often a split plan owns an item: the parts' counts, or the remainder's.
  lemma SplitTimes(budget: Budget, plan: Plan, x: Item)
    requires plan.Split? && WellFormed(plan.rest) && IsPacking(budget, plan.rest, plan.batches, plan.cuts)
    ensures TotalTimes(Flat(plan), x) == Sum(Counts(plan, |plan.parts|, x)) + Times(plan.rest, x)
  {
    PartsTimes(plan, |plan.parts|, x);
    PackingIsSound(budget, plan.rest, plan.batches, plan.cuts);
    TotalTimesConcat(FlatParts(plan, |plan.parts|), plan.batches, x);
  }

  ghost predicate Apart(a: Membership, b: Membership) {
    forall e :: !(e in a.entityIDs && e in b.entityIDs)
  }

  // No two siblings share an entity in any region that is actually split, that is, which may
  // not be taken whole or does not fit. Membership lists and token counts decide it.
  ghost predicate NoOverlapReached(
      ms: seq<Membership>, budget: Budget, current: Membership, input: Batch, allowWhole: bool)
    requires Regional(ms) && current in ms
    decreases TopLevel(ms) - current.level
  {
    || (allowWhole && Fits(budget, input))
    || (var children := ChildrenOf(ms, current.id);
        && (forall i, j :: 0 <= i < j < |children| ==> Apart(children[i], children[j]))
        && forall i :: 0 <= i < |children| ==>
          (ChildFacts(ms, current, children[i]);
           NoOverlapReached(ms, budget, children[i], Share(input, children[i]), true)))
  }

  // The batches own what the input holds, and nothing else.
  ghost predicate AtLeast(bs: seq<Batch>, input: Batch) {
    forall x :: TotalTimes(bs, x) >= Times(input, x) && (TotalTimes(bs, x) > 0 ==> Holds(input, x))
  }

  ghost predicate Exactly(bs: seq<Batch>, input: Batch) {
    forall x :: TotalTimes(bs, x) == Times(input, x)
  }

  // What the parts own of one item, given that each part owns at least its share.
  ghost predicate PartsAtLeast(input: Batch, children: seq<Membership>, plan: Plan) {
    && plan.Split? && |plan.parts| == |children|
    && forall i :: 0 <= i < |children| ==> AtLeast(Flat(plan.parts[i]), Share(input, children[i]))
  }

  lemma PartOwns(input: Batch, children: seq<Membership>, plan: Plan, i: nat, x: Item)
    requires PartsAtLeast(input, children, plan) && i < |children|
    ensures PartTimes(plan, i, x) > 0 <==> Holds(input, x) && Takes(input, Members(children[i].entityIDs), x)
  {
    ShareHolds(input, children[i], x);
    TimesPositive(Share(input, children[i]), x);
    assert AtLeast(Flat(plan.parts[i]), Share(input, children[i]));
  }

  lemma SplitAtLeast(budget: Budget, input: Batch, children: seq<Membership>, plan: Plan, x: Item)
    requires WellFormed(input) && PartsAtLeast(input, children, plan)
    requires IsRemainder(input, children, plan.rest) && IsPacking(budget, plan.rest, plan.batches, plan.cuts)
    ensures TotalTimes(Flat(plan), x) >= Times(input, x)
    ensures TotalTimes(Flat(plan), x) > 0 ==> Holds(input, x)
  {
    SplitTimes(budget, plan, x);
    WellFormedIsOnce(input, x);
    var counts := Counts(plan, |plan.parts|, x);
    forall i | 0 <= i < |children|
      ensures counts[i] > 0 <==> Holds(input, x) && Takes(input, Members(children[i].entityIDs), x)
    {
      PartOwns(input, children, plan, i, x);
    }
    if Holds(input, x) && TakenBySome(input, children, |children|, x) {
      var i :| 0 <= i < |children| && Takes(input, Members(children[i].entityIDs), x);
      SumHoldsOne(counts, i);
    } else {
      SumOfOne(counts, |children|);
    }
  }

  lemma ApartTakesOnce(input: Batch, a: Membership, b: Membership, x: Item)
    requires WellFormed(input) && (Apart(a, b) || Apart(b, a)) && Takes(input, Members(a.entityIDs), x)
    ensures !Takes(input, Members(b.entityIDs), x)
  {
    if Takes(input, Members(b.entityIDs), x) {
      SharedItemSharesEntity(input, Members(a.entityIDs), Members(b.entityIDs), x);
      var id := HasMember(Members(a.entityIDs) * Members(b.entityIDs));
      assert false;
    }
  }

  // What each part owns of an item: the input's count if its child takes it.
  ghost predicate CountsAreShares(input: Batch, children: seq<Membership>, counts: seq<nat>, x: Item) {
    && |counts| == |children|
    && forall i :: 0 <= i < |children| ==>
      counts[i] == if Takes(input, Members(children[i].entityIDs), x) then Times(input, x) else 0
  }

  lemma SharesAddUp(input: Batch, children: seq<Membership>, counts: seq<nat>, x: Item)
    requires WellFormed(input) && CountsAreShares(input, children, counts, x)
    requires forall i, j :: 0 <= i < j < |children| ==> Apart(children[i], children[j])
    ensures Sum(counts) == if TakenBySome(input, children, |children|, x) then Times(input, x) else 0
  {
    if TakenBySome(input, children, |children|, x) {
      var i :| 0 <= i < |children| && Takes(input, Members(children[i].entityIDs), x);
      forall j | 0 <= j < |children| && j != i ensures counts[j] == 0 {
        ApartTakesOnce(input, children[i], children[j], x);
      }
      SumOfOne(counts, i);
    } else {
      SumOfOne(counts, |children|);
    }
  }

  lemma SplitExactly(budget: Budget, input: Batch, children: seq<Membership>, plan: Plan, x: Item)
    requires WellFormed(input) && plan.Split? && |plan.parts| == |children|
    requires forall i :: 0 <= i < |children| ==> Exactly(Flat(plan.parts[i]), Share(input, children[i]))
    requires forall i, j :: 0 <= i < j < |children| ==> Apart(children[i], children[j])
    requires IsRemainder(input, children, plan.rest) && IsPacking(budget, plan.rest, plan.batches, plan.cuts)
    ensures TotalTimes(Flat(plan), x) == Times(input, x)
  {
    SplitTimes(budget, plan, x);
    var counts := Counts(plan, |plan.parts|, x);
    forall i | 0 <= i < |children|
      ensures counts[i] == if Takes(input, Members(children[i].entityIDs), x) then Times(input, x) else 0
    {
      ForMembersTimes(input, Members(children[i].entityIDs), x);
      assert Exactly(Flat(plan.parts[i]), Share(input, children[i]));
    }
    SharesAddUp(input, children, counts, x);
  }

  // Two children that share an entity own its row twice.
  lemma OverlapCountsTwice(
      budget: Budget, current: Membership, input: Batch, children: seq<Membership>, plan: Plan, i: nat, j: nat)
    requires Region(current, input) && PartsAtLeast(input, children, plan) && i < j < |children|
    requires forall e :: e in children[i].entityIDs ==> e in current.entityIDs
    requires !Apart(children[i], children[j])
    requires IsRemainder(input, children, plan.rest) && IsPacking(budget, plan.rest, plan.batches, plan.cuts)
    ensures !Exactly(Flat(plan), input)
  {
    var id :| id in children[i].entityIDs && id in children[j].entityIDs;
    assert Present(input, id);
    var e :| e in input.entities && e.value.id == id;
    var x := EntityItem(e);
    PartOwns(input, children, plan, i, x);
    PartOwns(input, children, plan, j, x);
    SplitTimes(budget, plan, x);
    SumHoldsTwo(Counts(plan, |plan.parts|, x), i, j);
    WellFormedIsOnce(input, x);
  }

  // A part that owns something twice makes the whole own it twice.
  lemma PartCountsTwice(budget: Budget, input: Batch, children: seq<Membership>, plan: Plan, i: nat)
    requires WellFormed(input) && PartsAtLeast(input, children, plan) && i < |children|
    requires !Exactly(Flat(plan.parts[i]), Share(input, children[i]))
    requires IsRemainder(input, children, plan.rest) && IsPacking(budget, plan.rest, plan.batches, plan.cuts)
    ensures !Exactly(Flat(plan), input)
  {
    var part, share := Flat(plan.parts[i]), Share(input, children[i]);
    var x :| TotalTimes(part, x) != Times(share, x);
    assert AtLeast(part, share);
    TimesPositive(share, x);
    ShareHolds(input, children[i], x);
    SplitTimes(budget, plan, x);
    SumHoldsOne(Counts(plan, |plan.parts|, x), i);
    WellFormedIsOnce(input, x);
  }

  // A plan owns all of its region's evidence, and it owns it exactly once if and only if it
  // splits no overlapping siblings.
  lemma {:induction false} PlanConserves(
      ms: seq<Membership>, budget: Budget, current: Membership, input: Batch, allowWhole: bool, plan: Plan)
    requires Regional(ms) && current in ms && Region(current, input)
    requires IsPlan(ms, budget, current, input, allowWhole, plan)
    ensures AtLeast(Flat(plan), input)
    ensures Exactly(Flat(plan), input) <==> NoOverlapReached(ms, budget, current, input, allowWhole)
    decreases plan
  {
    match plan
    case Whole(b) => WholeConserves(input);
    case Packed(batches, cuts) =>
      PackingIsSound(budget, input, batches, cuts);
      forall x ensures TotalTimes(Flat(plan), x) > 0 ==> Holds(input, x) { TimesPositive(input, x); }
    case Split(parts, rest, batches, cuts) =>
      var children := ChildrenOf(ms, current.id);
      forall i | 0 <= i < |children|
        ensures children[i] in ms && AtLeast(Flat(parts[i]), Share(input, children[i]))
        ensures Exactly(Flat(parts[i]), Share(input, children[i])) <==>
          NoOverlapReached(ms, budget, children[i], Share(input, children[i]), true)
      {
        ChildFacts(ms, current, children[i]);
        ShareIsRegion(ms, current, children[i], input);
        PlanConserves(ms, budget, children[i], Share(input, children[i]), true, parts[i]);
      }
      forall x ensures TotalTimes(Flat(plan), x) >= Times(input, x) && (TotalTimes(Flat(plan), x) > 0 ==> Holds(input, x)) {
        SplitAtLeast(budget, input, children, plan, x);
      }
      SplitIsExact(ms, budget, current, input, allowWhole, plan);
  }

  lemma WholeConserves(input: Batch)
    requires WellFormed(input)
    ensures AtLeast([input], input) && Exactly([input], input)
  {
    forall x ensures TotalTimes([input], x) == Times(input, x) {
      TotalTimesGrow([], input, x);
      assert [] + [input] == [input];
    }
    forall x ensures Times(input, x) > 0 ==> Holds(input, x) { TimesPositive(input, x); }
  }

  lemma SplitIsExact(
      ms: seq<Membership>, budget: Budget, current: Membership, input: Batch, allowWhole: bool, plan: Plan)
    requires Regional(ms) && current in ms && Region(current, input)
    requires IsPlan(ms, budget, current, input, allowWhole, plan) && plan.Split?
    requires PartsAtLeast(input, ChildrenOf(ms, current.id), plan)
    requires forall i :: 0 <= i < |plan.parts| ==>
      var child := ChildrenOf(ms, current.id)[i];
      && child in ms
      && (Exactly(Flat(plan.parts[i]), Share(input, child)) <==> NoOverlapReached(ms, budget, child, Share(input, child), true))
    ensures Exactly(Flat(plan), input) <==> NoOverlapReached(ms, budget, current, input, allowWhole)
  {
    var children := ChildrenOf(ms, current.id);
    if NoOverlapReached(ms, budget, current, input, allowWhole) {
      forall x ensures TotalTimes(Flat(plan), x) == Times(input, x) { SplitExactly(budget, input, children, plan, x); }
    } else if i, j :| 0 <= i < j < |children| && !Apart(children[i], children[j]) {
      ChildFacts(ms, current, children[i]);
      OverlapCountsTwice(budget, current, input, children, plan, i, j);
    } else {
      var i :| 0 <= i < |children| && !Exactly(Flat(plan.parts[i]), Share(input, children[i]));
      PartCountsTwice(budget, input, children, plan, i);
    }
  }

  // A region is kept whole exactly when it may be and its count is within the budget.
  lemma WholeExactly(
      ms: seq<Membership>, budget: Budget, current: Membership, input: Batch, allowWhole: bool, plan: Plan)
    requires IsPlan(ms, budget, current, input, allowWhole, plan)
    ensures plan.Whole? <==> allowWhole && budget.count(input).Some? && 0 <= budget.count(input).value <= budget.max
    ensures plan.Whole? ==> Flat(plan) == [input]
  {
  }

  // The part of a split plan that a batch comes from.
  lemma {:induction false} PartOf(plan: Plan, count: nat, p: nat) returns (i: nat)
    requires plan.Split? && count <= |plan.parts| && p < |FlatParts(plan, count)|
    ensures i < count && |FlatParts(plan, i)| <= p < |FlatParts(plan, i + 1)|
    ensures FlatParts(plan, count)[p] in Flat(plan.parts[i])
  {
    if p < |FlatParts(plan, count - 1)| {
      i := PartOf(plan, count - 1, p);
    } else {
      i := count - 1;
      assert FlatParts(plan, count)[p] == Flat(plan.parts[i])[p - |FlatParts(plan, i)|];
    }
  }

  lemma {:induction false} PartsLieInOrder(plan: Plan, i: nat, j: nat)
    requires plan.Split? && i <= j <= |plan.parts|
    ensures |FlatParts(plan, i)| <= |FlatParts(plan, j)|
  {
    if i == j {
    } else {
      PartsLieInOrder(plan, i, j - 1);
    }
  }

  // Every child that takes `x` comes before every child that takes `y`.
  ghost predicate TakenEarlier(input: Batch, children: seq<Membership>, x: Item, y: Item) {
    forall i, j | 0 <= i < |children| && 0 <= j < |children| ::
      Takes(input, Members(children[i].entityIDs), x) && Takes(input, Members(children[j].entityIDs), y) ==> i < j
  }

  // Batches of part i hold only rows that child i takes, the others only rows no child takes.
  ghost predicate HoldsByChild(input: Batch, children: seq<Membership>, plan: Plan) {
    && plan.Split? && |plan.parts| == |children|
    && (forall i, b, x :: 0 <= i < |children| && b in Flat(plan.parts[i]) && Holds(b, x) ==>
      Takes(input, Members(children[i].entityIDs), x))
    && (forall b, x :: b in plan.batches && Holds(b, x) ==> !TakenBySome(input, children, |children|, x))
  }

  lemma PlanHoldsByChild(
      ms: seq<Membership>, budget: Budget, current: Membership, input: Batch, allowWhole: bool, plan: Plan)
    requires Regional(ms) && current in ms && Region(current, input)
    requires IsPlan(ms, budget, current, input, allowWhole, plan) && plan.Split?
    ensures HoldsByChild(input, ChildrenOf(ms, current.id), plan)
  {
    var children := ChildrenOf(ms, current.id);
    forall i, b, x | 0 <= i < |children| && b in Flat(plan.parts[i]) && Holds(b, x)
      ensures Takes(input, Members(children[i].entityIDs), x)
    {
      PartTakes(ms, budget, current, input, allowWhole, plan, i, b, x);
    }
    forall b, x | b in plan.batches && Holds(b, x) ensures !TakenBySome(input, children, |children|, x) {
      var k :| 0 <= k < |plan.batches| && plan.batches[k] == b;
      RestHoldsLoose(ms, budget, current, input, allowWhole, plan, k, x);
    }
  }

  // Where a batch of a split plan lies: in a part, or behind all of them.
  lemma BatchPlace(input: Batch, children: seq<Membership>, plan: Plan, p: nat, x: Item) returns (i: nat)
    requires HoldsByChild(input, children, plan) && p < |Flat(plan)| && Holds(Flat(plan)[p], x)
    ensures i <= |plan.parts| && |FlatParts(plan, i)| <= p
    ensures i < |plan.parts| ==> p < |FlatParts(plan, i + 1)| && Takes(input, Members(children[i].entityIDs), x)
    ensures i == |plan.parts| ==> !TakenBySome(input, children, |children|, x)
  {
    var parts := FlatParts(plan, |plan.parts|);
    assert Flat(plan) == parts + plan.batches;
    if p < |parts| {
      i := PartOf(plan, |plan.parts|, p);
    } else {
      i := |plan.parts|;
      assert Flat(plan)[p] == plan.batches[p - |parts|];
    }
  }

  // The batches of a region come in the order of its children, the rows no child takes last.
  lemma ChildrenComeInOrder(
      ms: seq<Membership>, budget: Budget, current: Membership, input: Batch, allowWhole: bool, plan: Plan,
      p: nat, q: nat, x: Item, y: Item)
    requires Regional(ms) && current in ms && Region(current, input)
    requires IsPlan(ms, budget, current, input, allowWhole, plan) && plan.Split?
    requires p < |Flat(plan)| && q < |Flat(plan)| && Holds(Flat(plan)[p], x) && Holds(Flat(plan)[q], y)
    requires
      var children := ChildrenOf(ms, current.id);
      TakenBySome(input, children, |children|, x) && TakenEarlier(input, children, x, y)
    ensures p < q
  {
    var children := ChildrenOf(ms, current.id);
    PlanHoldsByChild(ms, budget, current, input, allowWhole, plan);
    var i := BatchPlace(input, children, plan, p, x);
    var j := BatchPlace(input, children, plan, q, y);
    EarlierChild(input, children, x, y, i, j);
    EarlierPlace(plan, i, j, p, q);
  }

  lemma EarlierChild(input: Batch, children: seq<Membership>, x: Item, y: Item, i: nat, j: nat)
    requires TakenBySome(input, children, |children|, x) && TakenEarlier(input, children, x, y)
    requires i <= |children| && j <= |children|
    requires if i < |children| then Takes(input, Members(children[i].entityIDs), x)
      else !TakenBySome(input, children, |children|, x)
    requires j < |children| ==> Takes(input, Members(children[j].entityIDs), y)
    ensures i < j
  {
  }

  lemma EarlierPlace(plan: Plan, i: nat, j: nat, p: nat, q: nat)
    requires plan.Split? && i < j <= |plan.parts| && p < |FlatParts(plan, i + 1)| && |FlatParts(plan, j)| <= q
    ensures p < q
  {
    PartsLieInOrder(plan, i + 1, j);
  }

  // A batch of a part holds only rows its child takes.
  lemma PartTakes(
      ms: seq<Membership>, budget: Budget, current: Membership, input: Batch, allowWhole: bool, plan: Plan,
      i: nat, b: Batch, x: Item)
    requires Regional(ms) && current in ms && Region(current, input)
    requires IsPlan(ms, budget, current, input, allowWhole, plan) && plan.Split? && i < |plan.parts|
    requires b in Flat(plan.parts[i]) && Holds(b, x)
    ensures i < |ChildrenOf(ms, current.id)| && Takes(input, Members(ChildrenOf(ms, current.id)[i].entityIDs), x)
  {
    var child := ChildrenOf(ms, current.id)[i];
    ChildFacts(ms, current, child);
    ShareIsRegion(ms, current, child, input);
    PlanConserves(ms, budget, child, Share(input, child), true, plan.parts[i]);
    var k :| 0 <= k < |Flat(plan.parts[i])| && Flat(plan.parts[i])[k] == b;
    TotalHoldsOne(Flat(plan.parts[i]), k, x);
    TimesPositive(b, x);
    ShareHolds(input, child, x);
  }

  // A batch of the remainder holds only rows that no child takes.
  lemma RestHoldsLoose(
      ms: seq<Membership>, budget: Budget, current: Membership, input: Batch, allowWhole: bool, plan: Plan, k: nat, x: Item)
    requires IsPlan(ms, budget, current, input, allowWhole, plan) && plan.Split?
    requires k < |plan.batches| && Holds(plan.batches[k], x)
    ensures var children := ChildrenOf(ms, current.id); !TakenBySome(input, children, |children|, x)
  {
    PackingIsSound(budget, plan.rest, plan.batches, plan.cuts);
    TotalHoldsOne(plan.batches, k, x);
    TimesPositive(plan.batches[k], x);
    TimesPositive(plan.rest, x);
  }

  // ---------------------------------------------------------------------------------------
  // Splitting.

  lemma {:induction false} SamePartsSameFlat(p: Plan, q: Plan, count: nat)
    requires p.Split? && q.Split? && count <= |p.parts| && count <= |q.parts| && p.parts[..count] == q.parts[..count]
    ensures FlatParts(p, count) == FlatParts(q, count)
  {
    if count == 0 {
    } else {
      assert p.parts[..count][..count - 1] == p.parts[..count - 1] && q.parts[..count][..count - 1] == q.parts[..count - 1];
      SamePartsSameFlat(p, q, count - 1);
      assert p.parts[count - 1] == p.parts[..count][count - 1] == q.parts[count - 1];
    }
  }

  // After the first `count` children: their plans, the batches so far and the rows they own.
  ghost predicate Splitting(
      ms: seq<Membership>, budget: Budget, input: Batch, children: seq<Membership>,
      parts: seq<Plan>, batches: seq<Batch>, owned: Batch)
  {
    && |parts| <= |children|
    && ArePlans(ms, budget, input, children, parts)
    && batches == FlatParts(Split(parts, EMPTY, [], []), |parts|)
    && OwnedBy(input, children, |parts|, owned)
  }

  ghost predicate ArePlans(
      ms: seq<Membership>, budget: Budget, input: Batch, children: seq<Membership>, parts: seq<Plan>)
    requires |parts| <= |children|
  {
    forall i :: 0 <= i < |parts| ==> IsPlan(ms, budget, children[i], Share(input, children[i]), true, parts[i])
  }

  ghost predicate OwnedBy(input: Batch, children: seq<Membership>, count: nat, owned: Batch)
    requires count <= |children|
  {
    forall x :: Holds(owned, x) <==> Holds(input, x) && TakenBySome(input, children, count, x)
  }

  lemma OwnedGrows(input: Batch, children: seq<Membership>, n: nat, owned: Batch)
    requires n < |children| && OwnedBy(input, children, n, owned)
    ensures OwnedBy(input, children, n + 1, Merge(owned, Share(input, children[n])))
  {
    var share := Share(input, children[n]);
    forall x ensures Holds(Merge(owned, share), x) <==> Holds(input, x) && TakenBySome(input, children, n + 1, x) {
      MergeTimes(owned, share, x);
      TimesPositive(Merge(owned, share), x);
      TimesPositive(owned, x);
      TimesPositive(share, x);
      ShareHolds(input, children[n], x);
      assert TakenBySome(input, children, n + 1, x) <==>
        TakenBySome(input, children, n, x) || Takes(input, Members(children[n].entityIDs), x);
    }
  }

  lemma SplittingGrows(
      ms: seq<Membership>, budget: Budget, input: Batch, children: seq<Membership>,
      parts: seq<Plan>, batches: seq<Batch>, owned: Batch, part: Plan)
    requires Splitting(ms, budget, input, children, parts, batches, owned) && |parts| < |children|
    requires IsPlan(ms, budget, children[|parts|], Share(input, children[|parts|]), true, part)
    ensures Splitting(ms, budget, input, children,
      parts + [part], batches + Flat(part), Merge(owned, Share(input, children[|parts|])))
  {
    var all := parts + [part];
    assert ArePlans(ms, budget, input, children, all) by {
      ArePlansGrow(ms, budget, input, children, parts, part);
    }
    assert batches + Flat(part) == FlatParts(Split(all, EMPTY, [], []), |all|) by {
      FlatGrows(parts, part);
    }
    assert OwnedBy(input, children, |all|, Merge(owned, Share(input, children[|parts|]))) by {
      OwnedGrows(input, children, |parts|, owned);
    }
  }

  lemma ArePlansGrow(
      ms: seq<Membership>, budget: Budget, input: Batch, children: seq<Membership>, parts: seq<Plan>, part: Plan)
    requires |parts| < |children| && ArePlans(ms, budget, input, children, parts)
    requires IsPlan(ms, budget, children[|parts|], Share(input, children[|parts|]), true, part)
    ensures ArePlans(ms, budget, input, children, parts + [part])
  {
  }

  lemma FlatGrows(parts: seq<Plan>, part: Plan)
    ensures FlatParts(Split(parts + [part], EMPTY, [], []), |parts| + 1) ==
      FlatParts(Split(parts, EMPTY, [], []), |parts|) + Flat(part)
  {
    SamePartsSameFlat(Split(parts, EMPTY, [], []), Split(parts + [part], EMPTY, [], []), |parts|);
  }

  lemma SplittingEnds(
      ms: seq<Membership>, budget: Budget, input: Batch, children: seq<Membership>,
      parts: seq<Plan>, batches: seq<Batch>, owned: Batch)
    requires WellFormed(input) && Splitting(ms, budget, input, children, parts, batches, owned) && |parts| == |children|
    ensures IsRemainder(input, children, Subtract(input, owned))
  {
    SubtractWellFormed(input, owned);
    forall x
      ensures Times(Subtract(input, owned), x) == if TakenBySome(input, children, |children|, x) then 0 else Times(input, x)
    {
      SubtractTimes(input, owned, x);
      TimesPositive(input, x);
    }
  }

  lemma ExplainedBelow(budget: Budget, input: Batch, m: Membership, error: PlanError)
    requires Explains(budget, Share(input, m), error)
    ensures Explains(budget, input, error)
  {
    if error.RowTooLarge? { ShareHolds(input, m, error.row); }
  }

  lemma RemainderExplains(budget: Budget, input: Batch, children: seq<Membership>, rest: Batch, error: PlanError)
    requires IsRemainder(input, children, rest) && Explains(budget, rest, error)
    ensures Explains(budget, input, error)
  {
    if error.RowTooLarge? {
      TimesPositive(rest, error.row);
      TimesPositive(input, error.row);
    }
  }

  lemma SplittingIsPlan(
      ms: seq<Membership>, budget: Budget, current: Membership, input: Batch, allowWhole: bool,
      plan: Plan, batches: seq<Batch>, owned: Batch)
    requires
      var children := ChildrenOf(ms, current.id);
      && plan.Split? && children != [] && |plan.parts| == |children| && !(allowWhole && Fits(budget, input))
      && Splitting(ms, budget, input, children, plan.parts, batches, owned)
      && IsRemainder(input, children, plan.rest) && IsPacking(budget, plan.rest, plan.batches, plan.cuts)
    ensures IsPlan(ms, budget, current, input, allowWhole, plan) && Flat(plan) == batches + plan.batches
  {
    SamePartsSameFlat(Split(plan.parts, EMPTY, [], []), plan, |plan.parts|);
  }

  // splitReportRegion. "Child owns no evidence" cannot happen, nor can anything but a failing
  // counter or a row too large by itself.
  method SplitReportRegion(
      ghost ms: seq<Membership>, current: Membership, input: Batch, allowWhole: bool,
      children: map<CommunityID, seq<Membership>>, budget: Budget)
    returns (result: Result<seq<Batch>, PlanError>, ghost plan: Plan)
    requires Regional(ms) && current in ms && Region(current, input) && IsChildMap(ms, children)
    ensures result.Ok? ==> IsPlan(ms, budget, current, input, allowWhole, plan) && result.value == Flat(plan)
    ensures result.Err? ==> Explains(budget, input, result.error)
    decreases TopLevel(ms) - current.level, 1
  {
    plan := Whole(input);
    if allowWhole {
      var fits := Check(budget, input);
      if fits.Err? { return Err(fits.error), plan; }
      if fits.value { return Ok([input]), plan; }
    }
    var direct := ChildrenIn(children, current.id);
    ghost var cuts;
    if direct == [] {
      result, cuts := PackReportEvidence(input, budget);
      if result.Ok? { plan := Packed(result.value, cuts); }
      return;
    }
    var owned;
    ghost var parts;
    result, owned, parts := SplitChildren(ms, current, input, direct, children, budget);
    if result.Err? { return; }
    var loose;
    ghost var rest;
    loose, rest, cuts := PackRemainder(ms, input, direct, parts, result.value, owned, budget);
    if loose.Err? { return loose, plan; }
    plan := Split(parts, rest, loose.value, cuts);
    SplittingIsPlan(ms, budget, current, input, allowWhole, plan, result.value, owned);
    return Ok(result.value + loose.value), plan;
  }

  // The loop over the children.
  method SplitChildren(
      ghost ms: seq<Membership>, ghost current: Membership, input: Batch, direct: seq<Membership>,
      children: map<CommunityID, seq<Membership>>, budget: Budget)
    returns (result: Result<seq<Batch>, PlanError>, owned: Batch, ghost parts: seq<Plan>)
    requires Regional(ms) && current in ms && Region(current, input) && IsChildMap(ms, children)
    requires direct == ChildrenOf(ms, current.id)
    ensures result.Ok? ==> |parts| == |direct| && Splitting(ms, budget, input, direct, parts, result.value, owned)
    ensures result.Err? ==> Explains(budget, input, result.error)
    decreases TopLevel(ms) - current.level, 0
  {
    parts, owned := [], EMPTY;
    var batches: seq<Batch> := [];
    for i := 0 to |direct|
      invariant |parts| == i && Splitting(ms, budget, input, direct, parts, batches, owned)
    {
      var child := direct[i];
      ChildFacts(ms, current, child);
      ShareIsRegion(ms, current, child, input);
      var subset := ReportBatchForMembers(input, child.entityIDs);
      if IsEmpty(subset) { return Err(OwnsNoEvidence(child.id)), owned, parts; }
      var below;
      ghost var part;
      below, part := SplitReportRegion(ms, child, subset, true, children, budget);
      if below.Err? {
        ExplainedBelow(budget, input, child, below.error);
        return below, owned, parts;
      }
      SplittingGrows(ms, budget, input, direct, parts, batches, owned, part);
      batches := batches + below.value;
      owned := Merge(owned, subset);
      parts := parts + [part];
    }
    return Ok(batches), owned, parts;
  }

  // What no child owns, packed.
  method PackRemainder(
      ghost ms: seq<Membership>, input: Batch, direct: seq<Membership>,
      ghost parts: seq<Plan>, ghost batches: seq<Batch>, owned: Batch, budget: Budget)
    returns (loose: Result<seq<Batch>, PlanError>, ghost rest: Batch, ghost cuts: seq<nat>)
    requires WellFormed(input) && |parts| == |direct| && Splitting(ms, budget, input, direct, parts, batches, owned)
    ensures loose.Ok? ==> IsRemainder(input, direct, rest) && IsPacking(budget, rest, loose.value, cuts)
    ensures loose.Err? ==> Explains(budget, input, loose.error)
  {
    SplittingEnds(ms, budget, input, direct, parts, batches, owned);
    var remainder := SubtractReportBatch(input, owned);
    rest, cuts := remainder, [0];
    if IsEmpty(remainder) {
      return Ok([]), rest, cuts;
    }
    loose, cuts := PackReportEvidence(remainder, budget);
    if loose.Err? { RemainderExplains(budget, input, direct, remainder, loose.error); }
  }

  // ---------------------------------------------------------------------------------------
  // Coverage.

  function RowNumbers<T>(rows: seq<Row<T>>): seq<nat> {
    seq(|rows|, i requires 0 <= i < |rows| => rows[i].row)
  }

  // All rows of all batches, one after the other.
  ghost function Spread(bs: seq<Batch>): Batch {
    if bs == [] then EMPTY
    else
      var before, last := Spread(bs[..|bs| - 1]), bs[|bs| - 1];
      Batch(before.entities + last.entities, before.relations + last.relations, before.claims + last.claims)
  }

  // Every row number of `rows` occurs exactly once among the owned ones.
  ghost predicate RowsOwnedOnce<T>(rows: seq<Row<T>>, owned: seq<Row<T>>) {
    forall k :: 0 <= k < |rows| ==> multiset(RowNumbers(owned))[rows[k].row] == 1
  }

  ghost predicate Covered(complete: Batch, bs: seq<Batch>) {
    && RowsOwnedOnce(complete.entities, Spread(bs).entities)
    && RowsOwnedOnce(complete.relations, Spread(bs).relations)
    && RowsOwnedOnce(complete.claims, Spread(bs).claims)
  }

  // The counters so far are the occurrences of the row numbers.
  ghost predicate Tallies<T>(counts: map<nat, nat>, owned: seq<Row<T>>) {
    forall row :: CountIn(counts, row) == multiset(RowNumbers(owned))[row]
  }

  function CountIn(counts: map<nat, nat>, row: nat): nat { if row in counts then counts[row] else 0 }

  method CountRows<T>(counts: map<nat, nat>, items: seq<Row<T>>, ghost before: seq<Row<T>>) returns (result: map<nat, nat>)
    requires Tallies(counts, before)
    ensures Tallies(result, before + items)
  {
    result := counts;
    assert before + items[..0] == before;
    for i := 0 to |items|
      invariant Tallies(result, before + items[..i])
    {
      var row := items[i].row;
      assert before + items[..i + 1] == before + items[..i] + [items[i]];
      assert RowNumbers(before + items[..i + 1]) == RowNumbers(before + items[..i]) + [row];
      result := result[row := CountIn(result, row) + 1];
    }
    assert items[..|items|] == items;
  }

  method AllOnce<T>(rows: seq<Row<T>>, counts: map<nat, nat>) returns (ok: bool)
    ensures ok <==> forall k :: 0 <= k < |rows| ==> CountIn(counts, rows[k].row) == 1
  {
    for i := 0 to |rows|
      invariant forall k :: 0 <= k < i ==> CountIn(counts, rows[k].row) == 1
    {
      if CountIn(counts, rows[i].row) != 1 { return false; }
    }
    return true;
  }

  // validateBatchCoverage.
  method ValidateBatchCoverage(complete: Batch, batches: seq<Batch>) returns (ok: bool)
    ensures ok <==> Covered(complete, batches)
  {
    var entityRows: map<nat, nat> := map[];
    var relationRows: map<nat, nat> := map[];
    var claimRows: map<nat, nat> := map[];
    for i := 0 to |batches|
      invariant Tallies(entityRows, Spread(batches[..i]).entities)
      invariant Tallies(relationRows, Spread(batches[..i]).relations)
      invariant Tallies(claimRows, Spread(batches[..i]).claims)
    {
      ghost var before := Spread(batches[..i]);
      assert batches[..i + 1][..i] == batches[..i];
      entityRows := CountRows(entityRows, batches[i].entities, before.entities);
      relationRows := CountRows(relationRows, batches[i].relations, before.relations);
      claimRows := CountRows(claimRows, batches[i].claims, before.claims);
    }
    assert batches[..|batches|] == batches;
    ok := AllOnce(complete.entities, entityRows);
    if ok { ok := AllOnce(complete.relations, relationRows); }
    if ok { ok := AllOnce(complete.claims, claimRows); }
  }

  lemma {:induction false} SpreadTimes(bs: seq<Batch>, x: Item)
    ensures Times(Spread(bs), x) == TotalTimes(bs, x)
  {
    if bs != [] { SpreadTimes(bs[..|bs| - 1], x); }
  }

  // Among rows drawn from a numbered list, counting row numbers is counting rows.
  lemma {:induction false} NumbersCountRows<T>(rows: seq<Row<T>>, owned: seq<Row<T>>, x: Row<T>)
    requires StrictRows(rows) && x in rows && forall y :: y in owned ==> y in rows
    ensures multiset(RowNumbers(owned))[x.row] == multiset(owned)[x]
  {
    if owned == [] {
    } else {
      var before, last := owned[..|owned| - 1], owned[|owned| - 1];
      assert owned == before + [last] && last in owned;
      assert RowNumbers(owned) == RowNumbers(before) + [last.row];
      NumbersCountRows(rows, before, x);
      StrictIsOnce(rows, x);
    }
  }

  lemma OnceByRow<T>(rows: seq<Row<T>>, owned: seq<Row<T>>)
    requires StrictRows(rows) && forall y :: y in owned ==> y in rows
    ensures RowsOwnedOnce(rows, owned) <==> forall x :: x in rows ==> multiset(owned)[x] == 1
  {
    forall x | x in rows ensures multiset(RowNumbers(owned))[x.row] == multiset(owned)[x] {
      NumbersCountRows(rows, owned, x);
    }
    if RowsOwnedOnce(rows, owned) {
      forall x | x in rows ensures multiset(owned)[x] == 1 {
        var k :| 0 <= k < |rows| && rows[k] == x;
      }
    }
  }

  // For batches that own rows of the complete input only, the coverage check is exactly that
  // each of its rows is owned once.
  lemma CoverageIsExactness(complete: Batch, bs: seq<Batch>)
    requires WellFormed(complete) && forall x :: TotalTimes(bs, x) > 0 ==> Holds(complete, x)
    ensures Covered(complete, bs) <==> Exactly(bs, complete)
  {
    var owned := Spread(bs);
    forall x
      ensures Times(owned, x) == TotalTimes(bs, x)
      ensures Holds(owned, x) ==> Holds(complete, x)
      ensures Times(complete, x) == if Holds(complete, x) then 1 else 0
    {
      SpreadTimes(bs, x);
      TimesPositive(owned, x);
      WellFormedIsOnce(complete, x);
    }
    CoveredIsOnce(complete, bs);
    if Covered(complete, bs) {
      forall x ensures TotalTimes(bs, x) == Times(complete, x) { TimesPositive(owned, x); }
    }
    if Exactly(bs, complete) {
      forall x | Holds(complete, x) ensures Times(owned, x) == 1 { assert TotalTimes(bs, x) == Times(complete, x); }
    }
  }

  lemma CoveredIsOnce(complete: Batch, bs: seq<Batch>)
    requires WellFormed(complete) && forall x :: Holds(Spread(bs), x) ==> Holds(complete, x)
    ensures Covered(complete, bs) <==> forall x :: Holds(complete, x) ==> Times(Spread(bs), x) == 1
  {
    var owned := Spread(bs);
    SpreadRowsAreRows(complete, owned);
    OnceByRow(complete.entities, owned.entities);
    OnceByRow(complete.relations, owned.relations);
    OnceByRow(complete.claims, owned.claims);
    OnceByKind(complete, owned);
  }

  lemma OnceByKind(complete: Batch, owned: Batch)
    ensures (forall x :: Holds(complete, x) ==> Times(owned, x) == 1) <==>
      && (forall e :: e in complete.entities ==> multiset(owned.entities)[e] == 1)
      && (forall r :: r in complete.relations ==> multiset(owned.relations)[r] == 1)
      && (forall c :: c in complete.claims ==> multiset(owned.claims)[c] == 1)
  {
    if forall x :: Holds(complete, x) ==> Times(owned, x) == 1 {
      forall e | e in complete.entities ensures multiset(owned.entities)[e] == 1 { assert Holds(complete, EntityItem(e)); }
      forall r | r in complete.relations ensures multiset(owned.relations)[r] == 1 { assert Holds(complete, RelationItem(r)); }
      forall c | c in complete.claims ensures multiset(owned.claims)[c] == 1 { assert Holds(complete, ClaimItem(c)); }
    }
  }

  lemma SpreadRowsAreRows(complete: Batch, owned: Batch)
    requires forall x :: Holds(owned, x) ==> Holds(complete, x)
    ensures forall e :: e in owned.entities ==> e in complete.entities
    ensures forall r :: r in owned.relations ==> r in complete.relations
    ensures forall c :: c in owned.claims ==> c in complete.claims
  {
    forall e | e in owned.entities ensures e in complete.entities { assert Holds(owned, EntityItem(e)); }
    forall r | r in owned.relations ensures r in complete.relations { assert Holds(owned, RelationItem(r)); }
    forall c | c in owned.claims ensures c in complete.claims { assert Holds(owned, ClaimItem(c)); }
  }

  // ---------------------------------------------------------------------------------------
  // Planning.

  // A batch that owns no row twice has strictly ascending rows.
  lemma OwnedOnceIsWellFormed(complete: Batch, bs: seq<Batch>, b: Batch)
    requires WellFormed(complete) && Exactly(bs, complete) && b in bs && RowsInOrder(b)
    ensures WellFormed(b)
  {
    var k :| 0 <= k < |bs| && bs[k] == b;
    forall x ensures Times(b, x) <= (if Holds(complete, x) then 1 else 0) {
      TotalHoldsOne(bs, k, x);
      WellFormedIsOnce(complete, x);
      assert TotalTimes(bs, x) == Times(complete, x);
    }
    forall x ensures Holds(b, x) ==> Holds(complete, x) { TimesPositive(b, x); }
    SpreadRowsAreRows(complete, b);
    forall e ensures multiset(b.entities)[e] <= 1 { assert Times(b, EntityItem(e)) <= 1; }
    forall r ensures multiset(b.relations)[r] <= 1 { assert Times(b, RelationItem(r)) <= 1; }
    forall c ensures multiset(b.claims)[c] <= 1 { assert Times(b, ClaimItem(c)) <= 1; }
    OnceInOrderIsStrict(complete.entities, b.entities);
    OnceInOrderIsStrict(complete.relations, b.relations);
    OnceInOrderIsStrict(complete.claims, b.claims);
  }

  lemma OnceInOrderIsStrict<T(!new)>(complete: seq<Row<T>>, rows: seq<Row<T>>)
    requires StrictRows(complete) && SortedBy(rows, RowAtMost)
    requires forall x :: x in rows ==> x in complete
    requires forall x :: multiset(rows)[x] <= 1
    ensures StrictRows(rows)
  {
    NoDuplicatesIsMultiset(rows);
    forall i, j | 0 <= i < j < |rows| ensures rows[i].row < rows[j].row {
      var x := rows[i];
      assert RowAtMost(rows[i], rows[j]) && x in rows && rows[j] in rows;
      StrictIsOnce(complete, x);
    }
  }

  // What combining the planned batches gives.
  lemma CombinedIsSound(
      ms: seq<Membership>, budget: Budget, root: Membership, complete: Batch, plan: Plan, cuts: seq<nat>, bs: seq<Batch>)
    requires Regional(ms) && root in ms && Region(root, complete)
    requires IsPlan(ms, budget, root, complete, false, plan)
    requires Greedy(budget, Flat(plan), cuts, bs, |Flat(plan)|)
    ensures AllFit(budget, bs)
    ensures forall x :: TotalTimes(bs, x) == TotalTimes(Flat(plan), x)
    ensures Covered(complete, bs) <==> Exactly(bs, complete)
    ensures Covered(complete, bs) <==> NoOverlapReached(ms, budget, root, complete, false)
  {
    PlanFits(ms, budget, root, complete, false, plan);
    GreedyKeeps(budget, Flat(plan), cuts, bs);
    forall x ensures TotalTimes(bs, x) == TotalTimes(Flat(plan), x) {
      GreedyTimes(budget, Flat(plan), cuts, bs, |Flat(plan)|, x);
      assert Flat(plan)[..|Flat(plan)|] == Flat(plan);
    }
    PlanConserves(ms, budget, root, complete, false, plan);
    assert Exactly(bs, complete) <==> Exactly(Flat(plan), complete);
    CoverageIsExactness(complete, bs);
  }

  lemma PlanIsNotEmpty(
      ms: seq<Membership>, budget: Budget, root: Membership, complete: Batch, plan: Plan)
    requires Regional(ms) && root in ms && Region(root, complete)
    requires IsPlan(ms, budget, root, complete, false, plan)
    ensures Flat(plan) != []
  {
    PlanConserves(ms, budget, root, complete, false, plan);
    assert Present(complete, root.entityIDs[0]);
    var e :| e in complete.entities && e.value.id == root.entityIDs[0];
    TimesPositive(complete, EntityItem(e));
    assert TotalTimes(Flat(plan), EntityItem(e)) > 0;
  }

  // The counter works and every row fits alone.
  ghost predicate NothingFails(budget: Budget, input: Batch) {
    forall error :: !Explains(budget, input, error)
  }

  // planReportFragments, with a prompt standing for the batch it renders. It fails only on the
  // counter, on a row too large by itself, or on overlapping siblings that had to be split.
  method PlanReportFragments(
      root: Membership, communities: seq<Membership>, input: Input, budget: Budget, ghost entities: set<EntityID>)
    returns (result: Result<seq<Batch>, PlanError>, ghost plan: Plan, ghost cuts: seq<nat>)
    requires ValidForReports(communities, entities) && root in communities && Region(root, NumberedInput(input))
    ensures Regional(communities)
    ensures result.Ok? ==>
      && IsPlan(communities, budget, root, NumberedInput(input), false, plan)
      && Greedy(budget, Flat(plan), cuts, result.value, |Flat(plan)|)
    ensures result.Ok? ==> result.value != [] && Exactly(result.value, NumberedInput(input))
    ensures result.Ok? ==> forall b :: b in result.value ==> Fits(budget, b) && WellFormed(b)
    ensures result.Ok? ==> NoOverlapReached(communities, budget, root, NumberedInput(input), false)
    ensures result.Err? ==>
      || Explains(budget, NumberedInput(input), result.error)
      || (result.error == NotCovered && !NoOverlapReached(communities, budget, root, NumberedInput(input), false))
    ensures NothingFails(budget, NumberedInput(input)) ==>
      (result.Ok? <==> NoOverlapReached(communities, budget, root, NumberedInput(input), false))
  {
    AcceptedIsRegional(communities, entities);
    cuts := [0];
    var children := GroupChildren(communities);
    var complete := NumberReportInput(input);
    var candidates;
    candidates, plan := SplitReportRegion(communities, root, complete, false, children, budget);
    if candidates.Err? { return candidates, plan, cuts; }
    PlanIsNotEmpty(communities, budget, root, complete, plan);
    var combined;
    combined, cuts := CombineReportCandidates(candidates.value, budget);
    if combined.Err? { return combined, plan, cuts; }
    CombinedIsSound(communities, budget, root, complete, plan, cuts, combined.value);
    var covered := ValidateBatchCoverage(complete, combined.value);
    if !covered { return Err(NotCovered), plan, cuts; }
    for index := 0 to |combined.value| {
      var batch := combined.value[index];
      var tooLarge := BatchTooLarge(index);
      assert batch in combined.value;
      match Check(budget, batch) {
        case Err(error) => return Err(error), plan, cuts;
        case Ok(fits) => if !fits { return Err(tooLarge), plan, cuts; }
      }
    }
    forall b | b in combined.value ensures WellFormed(b) { OwnedOnceIsWellFormed(complete, combined.value, b); }
    return combined, plan, cuts;
  }

  // What a community selects from validated evidence is what its plan requires.
  lemma SelectionIsRegion(m: Membership, ev: Evidence)
    requires ValidEvidence(ev) && Ascending(m.entityIDs) && Known(m.entityIDs, ev)
    ensures Region(m, NumberedInput(Selection(m.entityIDs, ev)))
  {
    var input := Selection(m.entityIDs, ev);
    SelectionIsWellFormed(m.entityIDs, ev);
    EntitiesAreDistinct(m.entityIDs, ev);
    SortPermutes(EntitiesOf(m.entityIDs, ev), EntityOrder);
    forall id | id in m.entityIDs ensures Present(NumberedInput(input), id) {
      var e := EntityFor(ev, id);
      assert e in input.entities;
      var k :| 0 <= k < |input.entities| && input.entities[k] == e;
      assert Number(input.entities)[k] in Number(input.entities);
    }
  }

  // ---------------------------------------------------------------------------------------
  // Disjoint siblings, and what happens without them.

  ghost predicate SiblingsApart(ms: seq<Membership>) {
    forall m, n :: m in ms && n in ms && m != n && m.parentID.Some? && m.parentID == n.parentID ==> Apart(m, n)
  }

  // When all siblings are disjoint the coverage check cannot fail, whatever the budget.
  lemma {:induction false} ApartNeverOverlaps(
      ms: seq<Membership>, budget: Budget, current: Membership, input: Batch, allowWhole: bool)
    requires Regional(ms) && NoDuplicates(ms) && current in ms && SiblingsApart(ms)
    ensures NoOverlapReached(ms, budget, current, input, allowWhole)
    decreases TopLevel(ms) - current.level
  {
    var children := ChildrenOf(ms, current.id);
    ChildrenMembers(ms, current.id);
    ChildrenAreDistinct(ms, current.id);
    forall i | 0 <= i < |children|
      ensures children[i] in ms && NoOverlapReached(ms, budget, children[i], Share(input, children[i]), true)
    {
      ChildFacts(ms, current, children[i]);
      ApartNeverOverlaps(ms, budget, children[i], Share(input, children[i]), true);
    }
  }

  lemma ChildrenAreDistinct(ms: seq<Membership>, id: CommunityID)
    requires NoDuplicates(ms)
    ensures NoDuplicates(ChildrenOf(ms, id))
  {
    FilterStaysDistinct(ms, ChildOf(id));
    SortedStaysDistinct(Filter(ms, ChildOf(id)), NumberAtMost);
  }

  // Overlapping children of a community that must be split are always reached.
  lemma OverlapIsReached(
      ms: seq<Membership>, budget: Budget, current: Membership, input: Batch, m: Membership, n: Membership)
    requires Regional(ms) && current in ms && m in ms && n in ms && m != n
    requires m.parentID == n.parentID == Some(current.id) && !Apart(m, n)
    ensures !NoOverlapReached(ms, budget, current, input, false)
  {
    var children := ChildrenOf(ms, current.id);
    ChildrenMembers(ms, current.id);
    var i :| 0 <= i < |children| && children[i] == m;
    var j :| 0 <= j < |children| && children[j] == n;
    assert !Apart(n, m);
    assert i < j || j < i;
  }

  // A storable hierarchy in which two children of `top` share a node is accepted, but no budget
  // lets the evidence of `top` be planned.
  lemma SharedNodeIsUnplannable(
      identity: Identity, h: seq<H.Community>, entities: set<EntityID>,
      top: H.Community, left: H.Community, right: H.Community, node: EntityID)
    requires Injective(identity) && H.ValidHierarchy(h) && Representable(h, entities)
    requires top in h && left in h && right in h && left != right && H.IsParent(top, left) && H.IsParent(top, right)
    requires node in left.nodes && node in right.nodes
    ensures
      var ms, root := Memberships(identity, h), Translated(identity, h, top);
      && ValidForReports(ms, entities) && Regional(ms) && root in ms
      && forall budget, input :: !NoOverlapReached(ms, budget, root, input, false)
  {
    StoredHierarchyStaysValid(identity, h, entities);
    var ms, root := Memberships(identity, h), Translated(identity, h, top);
    var m, n := Translated(identity, h, left), Translated(identity, h, right);
    AcceptedIsRegional(ms, entities);
    MembershipElements(identity, h);
    SharedNodeStays(identity, h, top, left, right, node);
    forall budget, input ensures !NoOverlapReached(ms, budget, root, input, false) {
      OverlapIsReached(ms, budget, root, input, m, n);
    }
  }

  lemma SharedNodeStays(
      identity: Identity, h: seq<H.Community>, top: H.Community, left: H.Community, right: H.Community, node: EntityID)
    requires H.ValidHierarchy(h) && top in h && left in h && right in h && left != right
    requires H.IsParent(top, left) && H.IsParent(top, right) && node in left.nodes && node in right.nodes
    ensures
      var m, n := Translated(identity, h, left), Translated(identity, h, right);
      m != n && m.parentID == n.parentID == Some(Translated(identity, h, top).id) && !Apart(m, n)
  {
    TranslatedParent(identity, h, left);
    TranslatedParent(identity, h, right);
    SortMembers(left.nodes);
    SortMembers(right.nodes);
    assert left.id != right.id;
  }

  // Such a hierarchy exists.
  lemma AcceptedMayBeUnplannable(identity: Identity) returns (ms: seq<Membership>, root: Membership)
    requires Injective(identity)
    ensures ValidForReports(ms, {1, 2, 3}) && Regional(ms) && root in ms
    ensures forall budget, input :: !NoOverlapReached(ms, budget, root, input, false)
  {
    var top := H.Community(0, 0, -1, [1, 2, 3], false, false);
    var left := H.Community(1, 1, 0, [1, 2], false, false);
    var right := H.Community(2, 1, 0, [2, 3], true, false);
    var leaf := H.Community(3, 2, 1, [1], true, false);
    var h := [top, left, right, leaf];
    assert h[0] == top && h[1] == left && h[2] == right;
    H.ExampleIsValid(top, left, right, leaf);
    ExampleIsRepresentable(top, left, right, leaf);
    var shared := left.nodes[1];
    assert right.nodes[0] == shared;
    SharedNodeIsUnplannable(identity, h, {1, 2, 3}, top, left, right, shared);
    ms, root := Memberships(identity, h), Translated(identity, h, top);
  }

  lemma ExampleIsRepresentable(top: H.Community, left: H.Community, right: H.Community, leaf: H.Community)
    requires top == H.Community(0, 0, -1, [1, 2, 3], false, false) && left == H.Community(1, 1, 0, [1, 2], false, false)
    requires right == H.Community(2, 1, 0, [2, 3], true, false) && leaf == H.Community(3, 2, 1, [1], true, false)
    ensures Representable([top, left, right, leaf], {1, 2, 3})
  {
    var h := [top, left, right, leaf];
    assert h[0] == top && h[1] == left && h[2] == right && h[3] == leaf;
    forall n | 0 <= n < |h| ensures HasID(h, n) {
      var c := h[n];
      assert c in h && c.id == n;
    }
    assert top.nodes[0] in top.nodes && top.nodes[1] in top.nodes && top.nodes[2] in top.nodes;
    assert left.nodes[0] in left.nodes && left.nodes[1] in left.nodes && right.nodes[1] in right.nodes;
    assert 1 in top.nodes && 3 in top.nodes && 1 in left.nodes && 2 in left.nodes && 3 in right.nodes;
    assert 3 !in left.nodes && 1 !in right.nodes && 2 !in leaf.nodes && 3 !in leaf.nodes;
    assert !SameMembers(top, left) && !SameMembers(top, right) && !SameMembers(top, leaf);
    assert !SameMembers(left, right) && !SameMembers(left, leaf) && !SameMembers(right, leaf);
  }
}
