/**
 The evidence of a community report (community/report/model_context.go, batch_context.go and
 the batch operations of fragment_plan.go): what a community selects, how its rows are
 numbered, and how batches of rows are taken apart and put together.
 */
module ReportEvidence {
  import opened Sorting

  type EntityID = int
  type RelationID = int
  type ClaimID = int

  datatype Entity = Entity(id: EntityID, degree: int)
  datatype Relation = Relation(id: RelationID, source: EntityID, target: EntityID, combinedDegree: int)
  datatype Subject = EntitySubject(entity: EntityID) | RelationSubject(relation: RelationID) | OtherSubject(id: int)
  datatype Claim = Claim(id: ClaimID, subject: Subject)

  datatype Input = Input(entities: seq<Entity>, relations: seq<Relation>, claims: seq<Claim>)

  // A value with its row number in the complete input.
  datatype Row<+T> = Row(row: nat, value: T)

  datatype Batch = Batch(entities: seq<Row<Entity>>, relations: seq<Row<Relation>>, claims: seq<Row<Claim>>)

  const EMPTY := Batch([], [], [])

  // One row of evidence of any kind.
  datatype Item = EntityItem(entity: Row<Entity>) | RelationItem(relation: Row<Relation>) | ClaimItem(claim: Row<Claim>)

  // How many times a batch holds an item.
  ghost function Times(b: Batch, x: Item): nat {
    match x
    case EntityItem(e) => multiset(b.entities)[e]
    case RelationItem(r) => multiset(b.relations)[r]
    case ClaimItem(c) => multiset(b.claims)[c]
  }

  ghost function TotalTimes(bs: seq<Batch>, x: Item): nat {
    if bs == [] then 0 else TotalTimes(bs[..|bs| - 1], x) + Times(bs[|bs| - 1], x)
  }

  lemma {:induction false} TotalTimesConcat(a: seq<Batch>, b: seq<Batch>, x: Item)
    ensures TotalTimes(a + b, x) == TotalTimes(a, x) + TotalTimes(b, x)
  {
    if b == [] {
      assert a + b == a;
    } else {
      TotalTimesConcat(a, b[..|b| - 1], x);
      assert (a + b)[..|a + b| - 1] == a + b[..|b| - 1];
    }
  }

  lemma TotalTimesGrow(bs: seq<Batch>, b: Batch, x: Item)
    ensures TotalTimes(bs + [b], x) == TotalTimes(bs, x) + Times(b, x)
  {
    assert (bs + [b])[..|bs|] == bs;
  }

  lemma {:induction false} TotalHoldsOne(bs: seq<Batch>, k: nat, x: Item)
    requires k < |bs|
    ensures TotalTimes(bs, x) >= Times(bs[k], x)
  {
    if k < |bs| - 1 { TotalHoldsOne(bs[..|bs| - 1], k, x); }
  }

  // ---------------------------------------------------------------------------------------
  // Filtering.

  function Filter<T>(s: seq<T>, p: T -> bool): seq<T> {
    if s == [] then []
    else Filter(s[..|s| - 1], p) + (if p(s[|s| - 1]) then [s[|s| - 1]] else [])
  }

  lemma FilterGrows<T>(s: seq<T>, x: T, p: T -> bool)
    ensures Filter(s + [x], p) == Filter(s, p) + (if p(x) then [x] else [])
  {
    assert (s + [x])[..|s|] == s;
  }

  lemma {:induction false} FilterCount<T>(s: seq<T>, p: T -> bool, x: T)
    ensures multiset(Filter(s, p))[x] == if p(x) then multiset(s)[x] else 0
  {
    if s == [] {
    } else {
      FilterCount(s[..|s| - 1], p, x);
      assert s == s[..|s| - 1] + [s[|s| - 1]];
    }
  }

  lemma {:induction false} FilterMembers<T>(s: seq<T>, p: T -> bool)
    ensures forall x :: x in Filter(s, p) <==> x in s && p(x)
  {
    if s == [] {
    } else {
      FilterMembers(s[..|s| - 1], p);
      assert s == s[..|s| - 1] + [s[|s| - 1]];
    }
  }

  // A filtered sorted sequence is sorted; a filtered sequence without duplicates has none.
  lemma {:induction false} FilterKeepsOrder<T(!new)>(s: seq<T>, p: T -> bool, le: (T, T) -> bool)
    requires SortedBy(s, le)
    ensures SortedBy(Filter(s, p), le)
  {
    if s == [] {
    } else {
      var before, last := s[..|s| - 1], s[|s| - 1];
      FilterKeepsOrder(before, p, le);
      FilterMembers(before, p);
      var kept := Filter(before, p);
      forall i | 0 <= i < |kept| ensures le(kept[i], last) {
        var x := kept[i];
        assert x in kept;
        var k :| 0 <= k < |before| && before[k] == x;
        assert le(s[k], s[|s| - 1]);
      }
    }
  }

  // Filtering twice, when the second condition decides alone what both together decide.
  lemma {:induction false} FilterTwice<T>(s: seq<T>, p: T -> bool, q: T -> bool, both: T -> bool)
    requires forall x :: x in s ==> both(x) == (p(x) && q(x))
    ensures Filter(Filter(s, p), q) == Filter(s, both)
  {
    if s == [] {
    } else {
      var before, last := s[..|s| - 1], s[|s| - 1];
      assert last in s && forall x :: x in before ==> x in s;
      FilterTwice(before, p, q, both);
      if p(last) {
        FilterGrows(Filter(before, p), last, q);
        assert Filter(s, p) == Filter(before, p) + [last];
      } else {
        assert Filter(s, p) == Filter(before, p);
      }
    }
  }

  // ---------------------------------------------------------------------------------------
  // Row numbers.

  function Number<T>(s: seq<T>): seq<Row<T>> {
    seq(|s|, i requires 0 <= i < |s| => Row(i, s[i]))
  }

  function Values<T>(rows: seq<Row<T>>): seq<T> {
    seq(|rows|, i requires 0 <= i < |rows| => rows[i].value)
  }

  function NumberedInput(input: Input): Batch {
    Batch(Number(input.entities), Number(input.relations), Number(input.claims))
  }

  function ValuesOf(b: Batch): Input {
    Input(Values(b.entities), Values(b.relations), Values(b.claims))
  }

  method NumberRows<T>(s: seq<T>) returns (rows: seq<Row<T>>)
    ensures rows == Number(s)
  {
    rows := [];
    for row := 0 to |s|
      invariant rows == Number(s)[..row]
    {
      rows := rows + [Row(row, s[row])];
    }
  }

  // numberReportInput.
  method NumberReportInput(input: Input) returns (result: Batch)
    ensures result == NumberedInput(input)
    ensures |result.entities| == |input.entities| && |result.relations| == |input.relations|
    ensures |result.claims| == |input.claims|
    ensures forall i :: 0 <= i < |input.entities| ==> result.entities[i] == Row(i, input.entities[i])
    ensures forall i :: 0 <= i < |input.relations| ==> result.relations[i] == Row(i, input.relations[i])
    ensures forall i :: 0 <= i < |input.claims| ==> result.claims[i] == Row(i, input.claims[i])
  {
    var entities := NumberRows(input.entities);
    var relations := NumberRows(input.relations);
    var claims := NumberRows(input.claims);
    result := Batch(entities, relations, claims);
  }

  ghost predicate StrictRows<T>(rows: seq<Row<T>>) {
    forall i, j :: 0 <= i < j < |rows| ==> rows[i].row < rows[j].row
  }

  ghost predicate DistinctEntities(rows: seq<Row<Entity>>) {
    forall x, y :: x in rows && y in rows && x.value.id == y.value.id ==> x == y
  }

  ghost predicate DistinctRelations(rows: seq<Row<Relation>>) {
    forall x, y :: x in rows && y in rows && x.value.id == y.value.id ==> x == y
  }

  // Rows strictly ascending, entities and relations told apart by their identities.
  ghost predicate WellFormed(b: Batch) {
    && StrictRows(b.entities) && StrictRows(b.relations) && StrictRows(b.claims)
    && DistinctEntities(b.entities) && DistinctRelations(b.relations)
  }

  predicate RowAtMost<T>(a: Row<T>, b: Row<T>) { a.row <= b.row }

  // Rows in order, possibly repeated.
  ghost predicate RowsInOrder(b: Batch) {
    SortedBy(b.entities, RowAtMost) && SortedBy(b.relations, RowAtMost) && SortedBy(b.claims, RowAtMost)
  }

  lemma StrictIsOnce<T>(rows: seq<Row<T>>, x: Row<T>)
    requires StrictRows(rows)
    ensures multiset(rows)[x] == if x in rows then 1 else 0
    ensures forall y :: y in rows && x in rows && y.row == x.row ==> y == x
  {
    assert NoDuplicates(rows);
    NoDuplicatesIsMultiset(rows);
    assert x in rows <==> x in multiset(rows);
    forall y | y in rows && x in rows && y.row == x.row ensures y == x {
      var i :| 0 <= i < |rows| && rows[i] == x;
      var j :| 0 <= j < |rows| && rows[j] == y;
      assert i == j;
    }
  }

  // Whether a batch holds an item.
  predicate Holds(b: Batch, x: Item) {
    match x
    case EntityItem(e) => e in b.entities
    case RelationItem(r) => r in b.relations
    case ClaimItem(c) => c in b.claims
  }

  lemma TimesPositive(b: Batch, x: Item)
    ensures Times(b, x) > 0 <==> Holds(b, x)
  {
  }

  lemma WellFormedIsOnce(b: Batch, x: Item)
    requires WellFormed(b)
    ensures Times(b, x) == if Holds(b, x) then 1 else 0
  {
    match x
    case EntityItem(e) => StrictIsOnce(b.entities, e);
    case RelationItem(r) => StrictIsOnce(b.relations, r);
    case ClaimItem(c) => StrictIsOnce(b.claims, c);
  }

  predicate RowBefore<T>(a: Row<T>, b: Row<T>) { a.row < b.row }

  lemma StrictFilter<T(!new)>(rows: seq<Row<T>>, p: Row<T> -> bool)
    requires StrictRows(rows)
    ensures StrictRows(Filter(rows, p))
  {
    assert SortedBy(rows, RowBefore);
    FilterKeepsOrder(rows, p, RowBefore);
    assert SortedBy(Filter(rows, p), RowBefore);
  }

  lemma FilteredIsWellFormed(
      b: Batch, p: Row<Entity> -> bool, q: Row<Relation> -> bool, r: Row<Claim> -> bool)
    requires WellFormed(b)
    ensures WellFormed(Batch(Filter(b.entities, p), Filter(b.relations, q), Filter(b.claims, r)))
  {
    StrictFilter(b.entities, p);
    StrictFilter(b.relations, q);
    StrictFilter(b.claims, r);
    FilterMembers(b.entities, p);
    FilterMembers(b.relations, q);
  }

  // ---------------------------------------------------------------------------------------
  // Merging.

  function Merge(left: Batch, right: Batch): Batch {
    Batch(
      Sort(left.entities + right.entities, RowAtMost),
      Sort(left.relations + right.relations, RowAtMost),
      Sort(left.claims + right.claims, RowAtMost))
  }

  lemma MergeTimes(left: Batch, right: Batch, x: Item)
    ensures Times(Merge(left, right), x) == Times(left, x) + Times(right, x)
  {
    SortPermutes(left.entities + right.entities, RowAtMost);
    SortPermutes(left.relations + right.relations, RowAtMost);
    SortPermutes(left.claims + right.claims, RowAtMost);
  }

  lemma MergeOrders(left: Batch, right: Batch)
    ensures RowsInOrder(Merge(left, right))
    ensures
      var merged := Merge(left, right);
      && (forall i, j :: 0 <= i < j < |merged.entities| ==> merged.entities[i].row <= merged.entities[j].row)
      && (forall i, j :: 0 <= i < j < |merged.relations| ==> merged.relations[i].row <= merged.relations[j].row)
      && (forall i, j :: 0 <= i < j < |merged.claims| ==> merged.claims[i].row <= merged.claims[j].row)
  {
    SortSorts(left.entities + right.entities, RowAtMost);
    SortSorts(left.relations + right.relations, RowAtMost);
    SortSorts(left.claims + right.claims, RowAtMost);
  }

  lemma MergeWithEmpty(b: Batch)
    requires RowsInOrder(b)
    ensures Merge(EMPTY, b) == b
  {
    SortOfSorted(b.entities, RowAtMost);
    SortOfSorted(b.relations, RowAtMost);
    SortOfSorted(b.claims, RowAtMost);
    assert EMPTY.entities + b.entities == b.entities && EMPTY.relations + b.relations == b.relations;
    assert EMPTY.claims + b.claims == b.claims;
  }

  predicate IsEmpty(b: Batch) {
    b.entities == [] && b.relations == [] && b.claims == []
  }

  // Row numbers settle where everything goes: batches in ascending row order that hold the same
  // items the same number of times are the same batch.
  lemma OrderedBatchIsDetermined(a: Batch, b: Batch)
    requires WellFormed(a) && RowsInOrder(b) && forall x :: Times(a, x) == Times(b, x)
    ensures a == b
  {
    forall e ensures multiset(a.entities)[e] == multiset(b.entities)[e] {
      assert Times(a, EntityItem(e)) == Times(b, EntityItem(e));
    }
    forall r ensures multiset(a.relations)[r] == multiset(b.relations)[r] {
      assert Times(a, RelationItem(r)) == Times(b, RelationItem(r));
    }
    forall c ensures multiset(a.claims)[c] == multiset(b.claims)[c] {
      assert Times(a, ClaimItem(c)) == Times(b, ClaimItem(c));
    }
    OrderedRowsAreDetermined(a.entities, b.entities);
    OrderedRowsAreDetermined(a.relations, b.relations);
    OrderedRowsAreDetermined(a.claims, b.claims);
  }

  lemma OrderedRowsAreDetermined<T(!new)>(a: seq<Row<T>>, b: seq<Row<T>>)
    requires StrictRows(a) && SortedBy(b, RowAtMost) && forall x :: multiset(a)[x] == multiset(b)[x]
    ensures a == b
  {
    forall x, y | x in a && y in a && RowAtMost(x, y) && RowAtMost(y, x) ensures x == y {
      StrictIsOnce(a, x);
    }
    assert multiset(a) == multiset(b);
    SortedIsUnique(a, b, RowAtMost);
  }

  // ---------------------------------------------------------------------------------------
  // The part of a batch that belongs to a community.

  function OnValue<T>(p: T -> bool): Row<T> -> bool { (x: Row<T>) => p(x.value) }

  function EntityIn(members: set<EntityID>): Entity -> bool { (e: Entity) => e.id in members }

  function Internal(members: set<EntityID>): Relation -> bool {
    (r: Relation) => r.source in members && r.target in members
  }

  function About(members: set<EntityID>, relations: set<RelationID>): Claim -> bool {
    (c: Claim) => match c.subject
      case EntitySubject(id) => id in members
      case RelationSubject(id) => id in relations
      case OtherSubject(_) => false
  }

  function RelationIDs(relations: seq<Row<Relation>>): set<RelationID> {
    set r | r in relations :: r.value.id
  }

  function InternalIDs(input: Batch, members: set<EntityID>): set<RelationID> {
    RelationIDs(Filter(input.relations, OnValue(Internal(members))))
  }

  function ForMembers(input: Batch, members: set<EntityID>): Batch {
    Batch(
      Filter(input.entities, OnValue(EntityIn(members))),
      Filter(input.relations, OnValue(Internal(members))),
      Filter(input.claims, OnValue(About(members, InternalIDs(input, members)))))
  }

  function Members(ids: seq<EntityID>): set<EntityID> { set id | id in ids }

  method TakeEntities(items: seq<Row<Entity>>, members: set<EntityID>) returns (taken: seq<Row<Entity>>)
    ensures taken == Filter(items, OnValue(EntityIn(members)))
  {
    taken := [];
    for i := 0 to |items|
      invariant taken == Filter(items[..i], OnValue(EntityIn(members)))
    {
      assert items[..i + 1] == items[..i] + [items[i]];
      FilterGrows(items[..i], items[i], OnValue(EntityIn(members)));
      if items[i].value.id in members { taken := taken + [items[i]]; }
    }
    assert items[..|items|] == items;
  }

  method TakeRelations(items: seq<Row<Relation>>, members: set<EntityID>)
    returns (taken: seq<Row<Relation>>, owned: set<RelationID>)
    ensures taken == Filter(items, OnValue(Internal(members))) && owned == RelationIDs(taken)
  {
    taken, owned := [], {};
    for i := 0 to |items|
      invariant taken == Filter(items[..i], OnValue(Internal(members))) && owned == RelationIDs(taken)
    {
      var item := items[i];
      assert items[..i + 1] == items[..i] + [item];
      FilterGrows(items[..i], item, OnValue(Internal(members)));
      if item.value.source in members && item.value.target in members {
        taken, owned := taken + [item], owned + {item.value.id};
      }
    }
    assert items[..|items|] == items;
  }

  method TakeClaims(items: seq<Row<Claim>>, members: set<EntityID>, owned: set<RelationID>) returns (taken: seq<Row<Claim>>)
    ensures taken == Filter(items, OnValue(About(members, owned)))
  {
    taken := [];
    for i := 0 to |items|
      invariant taken == Filter(items[..i], OnValue(About(members, owned)))
    {
      var item := items[i];
      assert items[..i + 1] == items[..i] + [item];
      FilterGrows(items[..i], item, OnValue(About(members, owned)));
      match item.value.subject {
        case EntitySubject(id) => if id in members { taken := taken + [item]; }
        case RelationSubject(id) => if id in owned { taken := taken + [item]; }
        case OtherSubject(_) =>
      }
    }
    assert items[..|items|] == items;
  }

  // reportBatchForMembers: in input order, the members' entities, the relations with both ends
  // among them, and the claims about either.
  method ReportBatchForMembers(input: Batch, entityIDs: seq<EntityID>) returns (result: Batch)
    ensures result == ForMembers(input, Members(entityIDs))
    ensures forall e :: e in result.entities <==> e in input.entities && e.value.id in entityIDs
    ensures forall r :: r in result.relations <==>
      r in input.relations && r.value.source in entityIDs && r.value.target in entityIDs
    ensures forall c :: c in result.claims <==>
      && c in input.claims
      && match c.value.subject
         case EntitySubject(id) => id in entityIDs
         case RelationSubject(id) => exists r :: r in result.relations && r.value.id == id
         case OtherSubject(_) => false
    ensures WellFormed(input) ==> WellFormed(result)
  {
    var members := Members(entityIDs);
    var entities := TakeEntities(input.entities, members);
    var relations, owned := TakeRelations(input.relations, members);
    var claims := TakeClaims(input.claims, members, owned);
    result := Batch(entities, relations, claims);
    FilterMembers(input.entities, OnValue(EntityIn(members)));
    FilterMembers(input.relations, OnValue(Internal(members)));
    FilterMembers(input.claims, OnValue(About(members, owned)));
    if WellFormed(input) { ForMembersWellFormed(input, members); }
  }

  // Whether the members take an item of the batch.
  ghost predicate Takes(input: Batch, members: set<EntityID>, x: Item) {
    match x
    case EntityItem(e) => EntityIn(members)(e.value)
    case RelationItem(r) => Internal(members)(r.value)
    case ClaimItem(c) => About(members, InternalIDs(input, members))(c.value)
  }

  lemma ForMembersTimes(input: Batch, members: set<EntityID>, x: Item)
    ensures Times(ForMembers(input, members), x) == if Takes(input, members, x) then Times(input, x) else 0
  {
    match x
    case EntityItem(e) => FilterCount(input.entities, OnValue(EntityIn(members)), e);
    case RelationItem(r) => FilterCount(input.relations, OnValue(Internal(members)), r);
    case ClaimItem(c) => FilterCount(input.claims, OnValue(About(members, InternalIDs(input, members))), c);
  }

  lemma ForMembersWellFormed(input: Batch, members: set<EntityID>)
    requires WellFormed(input)
    ensures WellFormed(ForMembers(input, members))
  {
    FilteredIsWellFormed(input, OnValue(EntityIn(members)), OnValue(Internal(members)),
      OnValue(About(members, InternalIDs(input, members))));
  }

  lemma InternalIDsMeaning(input: Batch, members: set<EntityID>, id: RelationID)
    ensures id in InternalIDs(input, members) <==>
      exists r :: r in input.relations && r.value.id == id && Internal(members)(r.value)
  {
    FilterMembers(input.relations, OnValue(Internal(members)));
    if r :| r in input.relations && r.value.id == id && Internal(members)(r.value) {
      assert r in Filter(input.relations, OnValue(Internal(members)));
    }
  }

  // Two communities that take the same item of a batch share an entity.
  lemma SharedItemSharesEntity(input: Batch, a: set<EntityID>, b: set<EntityID>, x: Item)
    requires WellFormed(input) && Takes(input, a, x) && Takes(input, b, x)
    ensures a * b != {}
  {
    match x
    case EntityItem(e) => assert e.value.id in a * b;
    case RelationItem(r) => assert r.value.source in a * b;
    case ClaimItem(c) =>
      match c.value.subject
      case EntitySubject(id) => assert id in a * b;
      case RelationSubject(id) =>
        InternalIDsMeaning(input, a, id);
        InternalIDsMeaning(input, b, id);
        var r :| r in input.relations && r.value.id == id && Internal(a)(r.value);
        var s :| s in input.relations && s.value.id == id && Internal(b)(s.value);
        assert r == s;
        assert r.value.source in a * b;
  }

  // ---------------------------------------------------------------------------------------
  // Subtracting.

  ghost function Rows<T>(rows: seq<Row<T>>): set<nat> { set x | x in rows :: x.row }

  function Outside<T>(taken: set<nat>): Row<T> -> bool { (x: Row<T>) => x.row !in taken }

  ghost function Subtract(input: Batch, owned: Batch): Batch {
    Batch(
      Filter(input.entities, Outside(Rows(owned.entities))),
      Filter(input.relations, Outside(Rows(owned.relations))),
      Filter(input.claims, Outside(Rows(owned.claims))))
  }

  method CollectRows<T>(items: seq<Row<T>>) returns (rows: set<nat>)
    ensures rows == Rows(items)
  {
    rows := {};
    for i := 0 to |items|
      invariant rows == set k | 0 <= k < i :: items[k].row
    {
      rows := rows + {items[i].row};
    }
    forall row ensures row in rows <==> row in Rows(items) {
      if row in rows {
        var k :| 0 <= k < |items| && items[k].row == row;
        assert items[k] in items;
      }
    }
  }

  method KeepOutside<T>(items: seq<Row<T>>, taken: set<nat>) returns (kept: seq<Row<T>>)
    ensures kept == Filter(items, Outside(taken))
  {
    kept := [];
    for i := 0 to |items|
      invariant kept == Filter(items[..i], Outside(taken))
    {
      assert items[..i + 1] == items[..i] + [items[i]];
      FilterGrows(items[..i], items[i], Outside(taken));
      if items[i].row !in taken { kept := kept + [items[i]]; }
    }
    assert items[..|items|] == items;
  }

  // subtractReportBatch.
  method SubtractReportBatch(input: Batch, owned: Batch) returns (result: Batch)
    ensures result == Subtract(input, owned)
    ensures forall e :: e in result.entities <==> e in input.entities && forall o :: o in owned.entities ==> o.row != e.row
    ensures forall r :: r in result.relations <==> r in input.relations && forall o :: o in owned.relations ==> o.row != r.row
    ensures forall c :: c in result.claims <==> c in input.claims && forall o :: o in owned.claims ==> o.row != c.row
    ensures WellFormed(input) ==> WellFormed(result)
  {
    var entities := CollectRows(owned.entities);
    var relations := CollectRows(owned.relations);
    var claims := CollectRows(owned.claims);
    var keptEntities := KeepOutside(input.entities, entities);
    var keptRelations := KeepOutside(input.relations, relations);
    var keptClaims := KeepOutside(input.claims, claims);
    result := Batch(keptEntities, keptRelations, keptClaims);
    FilterMembers(input.entities, Outside(Rows(owned.entities)));
    FilterMembers(input.relations, Outside(Rows(owned.relations)));
    FilterMembers(input.claims, Outside(Rows(owned.claims)));
    if WellFormed(input) { SubtractWellFormed(input, owned); }
  }

  lemma OutsideTimes<T>(rows: seq<Row<T>>, owned: seq<Row<T>>, x: Row<T>)
    requires StrictRows(rows) && forall y :: y in owned ==> y in rows
    ensures multiset(Filter(rows, Outside(Rows(owned))))[x] == if x in owned then 0 else multiset(rows)[x]
  {
    FilterCount(rows, Outside(Rows(owned)), x);
    if x in rows && x.row in Rows(owned) {
      var y :| y in owned && y.row == x.row;
      StrictIsOnce(rows, x);
    }
  }

  // Subtracting by row number removes exactly the rows that are owned.
  lemma SubtractTimes(input: Batch, owned: Batch, x: Item)
    requires WellFormed(input) && forall y :: Holds(owned, y) ==> Holds(input, y)
    ensures Times(Subtract(input, owned), x) == if Holds(owned, x) then 0 else Times(input, x)
  {
    match x
    case EntityItem(e) =>
      forall y | y in owned.entities ensures y in input.entities { assert Holds(owned, EntityItem(y)); }
      OutsideTimes(input.entities, owned.entities, e);
    case RelationItem(r) =>
      forall y | y in owned.relations ensures y in input.relations { assert Holds(owned, RelationItem(y)); }
      OutsideTimes(input.relations, owned.relations, r);
    case ClaimItem(c) =>
      forall y | y in owned.claims ensures y in input.claims { assert Holds(owned, ClaimItem(y)); }
      OutsideTimes(input.claims, owned.claims, c);
  }

  lemma SubtractWellFormed(input: Batch, owned: Batch)
    requires WellFormed(input)
    ensures WellFormed(Subtract(input, owned))
  {
    FilteredIsWellFormed(input, Outside(Rows(owned.entities)), Outside(Rows(owned.relations)), Outside(Rows(owned.claims)));
  }

  // ---------------------------------------------------------------------------------------
  // Atoms: the rows one by one, every claim right after what it is about.

  function Single(x: Item): Batch {
    match x
    case EntityItem(e) => Batch([e], [], [])
    case RelationItem(r) => Batch([], [r], [])
    case ClaimItem(c) => Batch([], [], [c])
  }

  function Singles(atoms: seq<Item>): seq<Batch> {
    seq(|atoms|, i requires 0 <= i < |atoms| => Single(atoms[i]))
  }

  function HasSubject(s: Subject): Claim -> bool { (c: Claim) => c.subject == s }

  function ClaimsAbout(claims: seq<Row<Claim>>, s: Subject): seq<Row<Claim>> {
    Filter(claims, OnValue(HasSubject(s)))
  }

  function ClaimItems(claims: seq<Row<Claim>>): seq<Item> {
    seq(|claims|, i requires 0 <= i < |claims| => ClaimItem(claims[i]))
  }

  // The rows that claims can be about, in order.
  function Owners(b: Batch): seq<Item> {
    seq(|b.entities|, i requires 0 <= i < |b.entities| => EntityItem(b.entities[i])) +
    seq(|b.relations|, i requires 0 <= i < |b.relations| => RelationItem(b.relations[i]))
  }

  function SubjectOf(owner: Item): Subject
    requires !owner.ClaimItem?
  {
    if owner.EntityItem? then EntitySubject(owner.entity.value.id) else RelationSubject(owner.relation.value.id)
  }

  ghost predicate AreOwners(owners: seq<Item>) {
    forall o :: o in owners ==> !o.ClaimItem?
  }

  ghost function OwnedAtoms(owners: seq<Item>, claims: seq<Row<Claim>>): seq<Item>
    requires AreOwners(owners)
  {
    if owners == [] then []
    else
      var last := owners[|owners| - 1];
      OwnedAtoms(owners[..|owners| - 1], claims) + [last] + ClaimItems(ClaimsAbout(claims, SubjectOf(last)))
  }

  ghost function UsedRows(owners: seq<Item>, claims: seq<Row<Claim>>): set<nat>
    requires AreOwners(owners)
  {
    if owners == [] then {}
    else UsedRows(owners[..|owners| - 1], claims) + Rows(ClaimsAbout(claims, SubjectOf(owners[|owners| - 1])))
  }

  ghost function AtomsOf(b: Batch): seq<Item> {
    OwnedAtoms(Owners(b), b.claims) + ClaimItems(Filter(b.claims, Outside(UsedRows(Owners(b), b.claims))))
  }

  function Lookup(index: map<Subject, seq<Row<Claim>>>, s: Subject): seq<Row<Claim>> {
    if s in index then index[s] else []
  }

  method IndexClaims(claims: seq<Row<Claim>>) returns (index: map<Subject, seq<Row<Claim>>>)
    ensures forall s :: Lookup(index, s) == ClaimsAbout(claims, s)
  {
    index := map[];
    for i := 0 to |claims|
      invariant forall s :: Lookup(index, s) == ClaimsAbout(claims[..i], s)
    {
      var item := claims[i];
      assert claims[..i + 1] == claims[..i] + [item];
      var subject := item.value.subject;
      forall s ensures ClaimsAbout(claims[..i + 1], s) == ClaimsAbout(claims[..i], s) + (if s == subject then [item] else []) {
        FilterGrows(claims[..i], item, OnValue(HasSubject(s)));
      }
      ghost var before := index;
      index := index[subject := Lookup(index, subject) + [item]];
      forall s ensures Lookup(index, s) == ClaimsAbout(claims[..i + 1], s) {
        assert Lookup(before, s) == ClaimsAbout(claims[..i], s);
      }
    }
    assert claims[..|claims|] == claims;
  }

  // Appends an owner and the claims about it.
  method AppendOwner(atoms: seq<Item>, used: set<nat>, owner: Item, claims: seq<Row<Claim>>)
    returns (newAtoms: seq<Item>, newUsed: set<nat>)
    ensures newAtoms == atoms + [owner] + ClaimItems(claims)
    ensures newUsed == used + Rows(claims)
  {
    newAtoms := atoms + [owner];
    newUsed := used;
    for i := 0 to |claims|
      invariant newAtoms == atoms + [owner] + ClaimItems(claims)[..i]
      invariant newUsed == used + set k | 0 <= k < i :: claims[k].row
    {
      newAtoms := newAtoms + [ClaimItem(claims[i])];
      newUsed := newUsed + {claims[i].row};
    }
    assert ClaimItems(claims)[..|claims|] == ClaimItems(claims);
    forall row ensures row in newUsed <==> row in used + Rows(claims) {
      if k :| 0 <= k < |claims| && claims[k].row == row { assert claims[k] in claims; }
    }
  }

  method AppendOwners(owners: seq<Item>, claims: seq<Row<Claim>>, index: map<Subject, seq<Row<Claim>>>)
    returns (atoms: seq<Item>, used: set<nat>)
    requires AreOwners(owners) && forall s :: Lookup(index, s) == ClaimsAbout(claims, s)
    ensures atoms == OwnedAtoms(owners, claims) && used == UsedRows(owners, claims)
  {
    atoms, used := [], {};
    for i := 0 to |owners|
      invariant atoms == OwnedAtoms(owners[..i], claims) && used == UsedRows(owners[..i], claims)
    {
      var owner := owners[i];
      assert owner in owners && owners[..i + 1] == owners[..i] + [owner];
      atoms, used := AppendOwner(atoms, used, owner, Lookup(index, SubjectOf(owner)));
    }
    assert owners[..|owners|] == owners;
  }

  method CollectAtoms(input: Batch) returns (atoms: seq<Item>)
    ensures atoms == AtomsOf(input)
  {
    var index := IndexClaims(input.claims);
    var used;
    atoms, used := AppendOwners(Owners(input), input.claims, index);
    var rest := KeepOutside(input.claims, used);
    ghost var before := atoms;
    for i := 0 to |rest|
      invariant atoms == before + ClaimItems(rest)[..i]
    {
      atoms := atoms + [ClaimItem(rest[i])];
    }
    assert ClaimItems(rest)[..|rest|] == ClaimItems(rest);
  }

  // reportEvidenceAtoms: every row once, in the order of the places.
  method ReportEvidenceAtoms(input: Batch) returns (atoms: seq<Item>)
    ensures atoms == AtomsOf(input)
    ensures WellFormed(input) ==> Ascends(input, atoms) && forall x :: multiset(atoms)[x] == Times(input, x)
  {
    atoms := CollectAtoms(input);
    if WellFormed(input) {
      AtomsAscend(input);
      forall x ensures multiset(atoms)[x] == Times(input, x) { AtomsConserve(input, x); }
    }
  }

  ghost predicate DistinctSubjects(owners: seq<Item>) {
    && AreOwners(owners) && NoDuplicates(owners)
    && forall o, p :: o in owners && p in owners && SubjectOf(o) == SubjectOf(p) ==> o == p
  }

  lemma {:induction false} ClaimItemsCount(claims: seq<Row<Claim>>, x: Item)
    ensures multiset(ClaimItems(claims))[x] == if x.ClaimItem? then multiset(claims)[x.claim] else 0
  {
    if claims == [] {
    } else {
      var before, last := claims[..|claims| - 1], claims[|claims| - 1];
      ClaimItemsCount(before, x);
      assert claims == before + [last] && ClaimItems(claims) == ClaimItems(before) + [ClaimItem(last)];
    }
  }

  ghost predicate HasOwner(owners: seq<Item>, c: Claim)
    requires AreOwners(owners)
  {
    exists o :: o in owners && SubjectOf(o) == c.subject
  }

  lemma HasOwnerStep(before: seq<Item>, last: Item, c: Claim)
    requires DistinctSubjects(before + [last])
    ensures DistinctSubjects(before) && !last.ClaimItem?
    ensures HasOwner(before + [last], c) <==> HasOwner(before, c) || SubjectOf(last) == c.subject
    ensures !(HasOwner(before, c) && SubjectOf(last) == c.subject)
  {
    var owners := before + [last];
    assert last == owners[|before|] && last in owners;
    assert forall i :: 0 <= i < |before| ==> owners[i] == before[i];
    assert last !in before;
    assert forall o :: o in owners <==> o in before || o == last;
  }

  // The owners come once each; a claim comes as often as it was given if it has an owner.
  lemma {:induction false} OwnedAtomsCount(owners: seq<Item>, claims: seq<Row<Claim>>, x: Item)
    requires DistinctSubjects(owners)
    ensures multiset(OwnedAtoms(owners, claims))[x] ==
      if !x.ClaimItem? then multiset(owners)[x] else if HasOwner(owners, x.claim.value) then multiset(claims)[x.claim] else 0
  {
    if owners == [] {
    } else {
      var before, last := owners[..|owners| - 1], owners[|owners| - 1];
      assert owners == before + [last];
      var c := if x.ClaimItem? then x.claim.value else Claim(0, OtherSubject(0));
      HasOwnerStep(before, last, c);
      OwnedAtomsCount(before, claims, x);
      var about := ClaimsAbout(claims, SubjectOf(last));
      ClaimItemsCount(about, x);
      if x.ClaimItem? { FilterCount(claims, OnValue(HasSubject(SubjectOf(last))), x.claim); }
      assert OwnedAtoms(owners, claims) == OwnedAtoms(before, claims) + [last] + ClaimItems(about);
    }
  }

  lemma {:induction false} UsedRowsMeaning(owners: seq<Item>, claims: seq<Row<Claim>>, c: Row<Claim>)
    requires AreOwners(owners) && StrictRows(claims) && c in claims
    ensures c.row in UsedRows(owners, claims) <==> HasOwner(owners, c.value)
  {
    if owners == [] {
    } else {
      var before, last := owners[..|owners| - 1], owners[|owners| - 1];
      assert owners == before + [last] && last in owners;
      UsedRowsMeaning(before, claims, c);
      var about := ClaimsAbout(claims, SubjectOf(last));
      FilterMembers(claims, OnValue(HasSubject(SubjectOf(last))));
      assert c.row in Rows(about) <==> c in about by {
        if c.row in Rows(about) {
          var d :| d in about && d.row == c.row;
          StrictIsOnce(claims, c);
        }
      }
      assert HasOwner(owners, c.value) <==> HasOwner(before, c.value) || SubjectOf(last) == c.value.subject;
    }
  }

  lemma OwnersCount(b: Batch, x: Item)
    requires WellFormed(b)
    ensures DistinctSubjects(Owners(b))
    ensures !x.ClaimItem? ==> multiset(Owners(b))[x] == Times(b, x)
  {
    var owners := Owners(b);
    OwnersAreRows(b);
    assert NoDuplicates(owners);
    NoDuplicatesIsMultiset(owners);
    WellFormedIsOnce(b, x);
    assert x in multiset(owners) <==> x in owners;
  }

  // Taking a batch apart loses nothing and repeats nothing.
  lemma AtomsConserve(b: Batch, x: Item)
    requires WellFormed(b)
    ensures multiset(AtomsOf(b))[x] == Times(b, x)
  {
    var owners := Owners(b);
    var rest := Filter(b.claims, Outside(UsedRows(owners, b.claims)));
    OwnersCount(b, x);
    OwnedAtomsCount(owners, b.claims, x);
    ClaimItemsCount(rest, x);
    if x.ClaimItem? {
      FilterCount(b.claims, Outside(UsedRows(owners, b.claims)), x.claim);
      if x.claim in b.claims { UsedRowsMeaning(owners, b.claims, x.claim); }
    }
  }

  // Where an atom belongs: entities before relations before claims about neither, each by row; a
  // claim right behind what it is about, by its own row.
  datatype Place = Place(kind: nat, row: nat, behind: nat)

  ghost predicate PlaceBefore(a: Place, b: Place) {
    || a.kind < b.kind
    || (a.kind == b.kind && a.row < b.row)
    || (a.kind == b.kind && a.row == b.row && a.behind < b.behind)
  }

  ghost function PlaceOf(b: Batch, x: Item): Place {
    match x
    case EntityItem(e) => Place(0, e.row, 0)
    case RelationItem(r) => Place(1, r.row, 0)
    case ClaimItem(c) =>
      if c.value.subject.EntitySubject? && exists e :: e in b.entities && e.value.id == c.value.subject.entity then
        var e :| e in b.entities && e.value.id == c.value.subject.entity;
        Place(0, e.row, c.row + 1)
      else if c.value.subject.RelationSubject? && exists r :: r in b.relations && r.value.id == c.value.subject.relation then
        var r :| r in b.relations && r.value.id == c.value.subject.relation;
        Place(1, r.row, c.row + 1)
      else
        Place(2, 0, c.row + 1)
  }

  ghost predicate Ascends(b: Batch, atoms: seq<Item>) {
    forall i, j :: 0 <= i < j < |atoms| ==> PlaceBefore(PlaceOf(b, atoms[i]), PlaceOf(b, atoms[j]))
  }

  lemma OwnerPlaces(b: Batch, i: nat, j: nat)
    requires WellFormed(b) && i < j < |Owners(b)|
    ensures
      var p, q := PlaceOf(b, Owners(b)[i]), PlaceOf(b, Owners(b)[j]);
      p.kind < q.kind || (p.kind == q.kind && p.row < q.row)
  {
  }

  // A claim's place is behind its owner's.
  lemma ClaimPlace(b: Batch, owner: Item, c: Row<Claim>)
    requires WellFormed(b) && owner in Owners(b) && !owner.ClaimItem? && SubjectOf(owner) == c.value.subject
    ensures PlaceOf(b, ClaimItem(c)) == PlaceOf(b, owner).(behind := c.row + 1)
  {
    var k :| 0 <= k < |Owners(b)| && Owners(b)[k] == owner;
    if owner.EntityItem? {
      assert owner.entity in b.entities && owner.entity.value.id == c.value.subject.entity;
    } else {
      assert owner.relation in b.relations && owner.relation.value.id == c.value.subject.relation;
    }
  }

  lemma OwnerlessPlace(b: Batch, c: Row<Claim>)
    requires WellFormed(b) && !HasOwner(Owners(b), c.value)
    ensures PlaceOf(b, ClaimItem(c)) == Place(2, 0, c.row + 1)
  {
    OwnersAreRows(b);
    assert forall e :: e in b.entities ==>
      EntityItem(e) in Owners(b) && SubjectOf(EntityItem(e)) == EntitySubject(e.value.id);
    assert forall r :: r in b.relations ==>
      RelationItem(r) in Owners(b) && SubjectOf(RelationItem(r)) == RelationSubject(r.value.id);
  }

  lemma OwnersAreRows(b: Batch)
    ensures forall o :: o in Owners(b) <==> !o.ClaimItem? && Holds(b, o)
  {
    var owners := Owners(b);
    forall o: Item | !o.ClaimItem? && Holds(b, o) ensures o in owners {
      if o.EntityItem? {
        var i :| 0 <= i < |b.entities| && b.entities[i] == o.entity;
        assert owners[i] == o;
      } else {
        var i :| 0 <= i < |b.relations| && b.relations[i] == o.relation;
        assert owners[|b.entities| + i] == o;
      }
    }
  }

  lemma AscendsConcat(b: Batch, x: seq<Item>, y: seq<Item>)
    requires Ascends(b, x) && Ascends(b, y)
    requires forall i, j :: 0 <= i < |x| && 0 <= j < |y| ==> PlaceBefore(PlaceOf(b, x[i]), PlaceOf(b, y[j]))
    ensures Ascends(b, x + y)
  {
    var all := x + y;
    forall i, j | 0 <= i < j < |all| ensures PlaceBefore(PlaceOf(b, all[i]), PlaceOf(b, all[j])) {
      assert all[i] == if i < |x| then x[i] else y[i - |x|];
      assert all[j] == if j < |x| then x[j] else y[j - |x|];
    }
  }

  // An owner and the claims about it, all at the owner's kind and row.
  lemma GroupAscends(b: Batch, owner: Item)
    requires WellFormed(b) && owner in Owners(b) && !owner.ClaimItem?
    ensures
      var group := [owner] + ClaimItems(ClaimsAbout(b.claims, SubjectOf(owner)));
      && Ascends(b, group)
      && forall i :: 0 <= i < |group| ==>
        PlaceOf(b, group[i]).kind == PlaceOf(b, owner).kind && PlaceOf(b, group[i]).row == PlaceOf(b, owner).row
  {
    var about := ClaimsAbout(b.claims, SubjectOf(owner));
    var group := [owner] + ClaimItems(about);
    StrictFilter(b.claims, OnValue(HasSubject(SubjectOf(owner))));
    FilterMembers(b.claims, OnValue(HasSubject(SubjectOf(owner))));
    forall i | 1 <= i < |group| ensures PlaceOf(b, group[i]) == PlaceOf(b, owner).(behind := about[i - 1].row + 1) {
      var c := about[i - 1];
      assert c in about && group[i] == ClaimItem(c);
      ClaimPlace(b, owner, c);
    }
  }

  // Every atom belongs to one of the first `n` owners.
  ghost predicate InGroups(b: Batch, atoms: seq<Item>, n: nat)
    requires n <= |Owners(b)|
  {
    forall i :: 0 <= i < |atoms| ==> InSomeGroup(b, atoms[i], n)
  }

  ghost predicate InSomeGroup(b: Batch, x: Item, n: nat)
    requires n <= |Owners(b)|
  {
    exists k :: 0 <= k < n && SameGroup(b, x, Owners(b)[k])
  }

  lemma AppendGroup(b: Batch, before: seq<Item>, n: nat)
    requires WellFormed(b) && n < |Owners(b)| && !Owners(b)[n].ClaimItem?
    requires Ascends(b, before) && InGroups(b, before, n)
    ensures
      var all := before + ([Owners(b)[n]] + ClaimItems(ClaimsAbout(b.claims, SubjectOf(Owners(b)[n]))));
      Ascends(b, all) && InGroups(b, all, n + 1)
  {
    var owner := Owners(b)[n];
    var group := [owner] + ClaimItems(ClaimsAbout(b.claims, SubjectOf(owner)));
    GroupAscends(b, owner);
    forall i, j | 0 <= i < |before| && 0 <= j < |group| ensures PlaceBefore(PlaceOf(b, before[i]), PlaceOf(b, group[j])) {
      assert InSomeGroup(b, before[i], n);
      var k :| 0 <= k < n && SameGroup(b, before[i], Owners(b)[k]);
      OwnerPlaces(b, k, n);
    }
    AscendsConcat(b, before, group);
    var all := before + group;
    forall i | 0 <= i < |all| ensures InSomeGroup(b, all[i], n + 1) {
      if i < |before| {
        assert InSomeGroup(b, before[i], n);
        var k :| 0 <= k < n && SameGroup(b, before[i], Owners(b)[k]);
        assert SameGroup(b, all[i], Owners(b)[k]);
      } else {
        assert all[i] == group[i - |before|] && SameGroup(b, all[i], Owners(b)[n]);
      }
    }
  }

  lemma OwnedAtomsStep(owners: seq<Item>, n: nat, claims: seq<Row<Claim>>)
    requires 0 < n <= |owners| && AreOwners(owners[..n])
    ensures AreOwners(owners[..n - 1]) && !owners[n - 1].ClaimItem?
    ensures OwnedAtoms(owners[..n], claims) ==
      OwnedAtoms(owners[..n - 1], claims) + ([owners[n - 1]] + ClaimItems(ClaimsAbout(claims, SubjectOf(owners[n - 1]))))
  {
    var last := owners[n - 1];
    assert owners[..n][n - 1] == last && last in owners[..n];
    assert owners[..n][..n - 1] == owners[..n - 1];
  }

  lemma {:induction false} OwnedAscends(b: Batch, n: nat)
    requires WellFormed(b) && n <= |Owners(b)| && AreOwners(Owners(b)[..n])
    ensures Ascends(b, OwnedAtoms(Owners(b)[..n], b.claims)) && InGroups(b, OwnedAtoms(Owners(b)[..n], b.claims), n)
  {
    if n == 0 {
    } else {
      var owners := Owners(b);
      OwnedAtomsStep(owners, n, b.claims);
      OwnedAscends(b, n - 1);
      AppendGroup(b, OwnedAtoms(owners[..n - 1], b.claims), n - 1);
    }
  }

  ghost predicate SameGroup(b: Batch, x: Item, owner: Item) {
    PlaceOf(b, x).kind == PlaceOf(b, owner).kind < 2 && PlaceOf(b, x).row == PlaceOf(b, owner).row
  }

  // The atoms come in the order of their places, which leaves only one arrangement of them.
  lemma AtomsAscend(b: Batch)
    requires WellFormed(b)
    ensures Ascends(b, AtomsOf(b))
  {
    var owners := Owners(b);
    assert owners[..|owners|] == owners;
    OwnedAscends(b, |owners|);
    var rest := Filter(b.claims, Outside(UsedRows(owners, b.claims)));
    StrictFilter(b.claims, Outside(UsedRows(owners, b.claims)));
    FilterMembers(b.claims, Outside(UsedRows(owners, b.claims)));
    forall i | 0 <= i < |rest| ensures PlaceOf(b, ClaimItem(rest[i])) == Place(2, 0, rest[i].row + 1) {
      assert rest[i] in rest;
      UsedRowsMeaning(owners, b.claims, rest[i]);
      OwnerlessPlace(b, rest[i]);
    }
    AscendsConcat(b, OwnedAtoms(owners, b.claims), ClaimItems(rest));
  }

  lemma SingleTimes(y: Item, x: Item)
    ensures Times(Single(y), x) == if x == y then 1 else 0
  {
  }

  lemma SinglesGrow(atoms: seq<Item>, x: Item)
    ensures Singles(atoms + [x]) == Singles(atoms) + [Single(x)]
  {
  }

  lemma {:induction false} SinglesTimes(atoms: seq<Item>, x: Item)
    ensures TotalTimes(Singles(atoms), x) == multiset(atoms)[x]
  {
    if atoms == [] {
    } else {
      var before, last := atoms[..|atoms| - 1], atoms[|atoms| - 1];
      assert atoms == before + [last];
      SinglesTimes(before, x);
      SinglesGrow(before, last);
      TotalTimesGrow(Singles(before), Single(last), x);
      SingleTimes(last, x);
    }
  }

  // ---------------------------------------------------------------------------------------
  // What a community selects.

  // The validated report input. Relations are listed once each and indexed by identity.
  datatype Evidence = Evidence(
    entitiesByID: map<EntityID, Entity>, relationsByID: map<RelationID, Relation>,
    relations: seq<Relation>, claims: seq<Claim>)

  ghost predicate ValidEvidence(ev: Evidence) {
    && (forall id :: id in ev.entitiesByID ==> ev.entitiesByID[id].id == id)
    && (forall id :: id in ev.relationsByID ==> ev.relationsByID[id].id == id && ev.relationsByID[id] in ev.relations)
    && (forall r :: r in ev.relations ==> r.id in ev.relationsByID && ev.relationsByID[r.id] == r)
    && NoDuplicates(ev.relations)
  }

  ghost predicate Known(ids: seq<EntityID>, ev: Evidence) {
    forall id :: id in ids ==> id in ev.entitiesByID
  }

  predicate EntityOrder(a: Entity, b: Entity) {
    a.degree > b.degree || (a.degree == b.degree && a.id <= b.id)
  }

  predicate RelationOrder(a: Relation, b: Relation) {
    a.combinedDegree > b.combinedDegree || (a.combinedDegree == b.combinedDegree && a.id <= b.id)
  }

  // reportClaimBelongsToCommunity.
  function Belongs(members: set<EntityID>, relationsByID: map<RelationID, Relation>): Claim -> bool {
    (c: Claim) => match c.subject
      case EntitySubject(id) => id in members
      case RelationSubject(id) => id in relationsByID && Internal(members)(relationsByID[id])
      case OtherSubject(_) => false
  }

  // A missing entity reads as the zero value.
  function EntityFor(ev: Evidence, id: EntityID): Entity {
    if id in ev.entitiesByID then ev.entitiesByID[id] else Entity(0, 0)
  }

  ghost function EntitiesOf(ids: seq<EntityID>, ev: Evidence): seq<Entity> {
    seq(|ids|, i requires 0 <= i < |ids| => EntityFor(ev, ids[i]))
  }

  ghost function Selection(ids: seq<EntityID>, ev: Evidence): Input {
    var members := Members(ids);
    Input(
      Sort(EntitiesOf(ids, ev), EntityOrder),
      Sort(Filter(ev.relations, Internal(members)), RelationOrder),
      Filter(ev.claims, Belongs(members, ev.relationsByID)))
  }

  // One entity per member, by falling degree, then by identity.
  ghost predicate SelectsEntities(ids: seq<EntityID>, ev: Evidence, entities: seq<Entity>) {
    && multiset(entities) == multiset(EntitiesOf(ids, ev))
    && forall i, j :: 0 <= i < j < |entities| ==>
      || entities[i].degree > entities[j].degree
      || (entities[i].degree == entities[j].degree && entities[i].id <= entities[j].id)
  }

  // The relations with both ends among the members, by falling combined degree, then by identity.
  ghost predicate SelectsRelations(ids: seq<EntityID>, ev: Evidence, relations: seq<Relation>) {
    && (forall r :: r in relations <==> r in ev.relations && r.source in ids && r.target in ids)
    && forall i, j :: 0 <= i < j < |relations| ==>
      || relations[i].combinedDegree > relations[j].combinedDegree
      || (relations[i].combinedDegree == relations[j].combinedDegree && relations[i].id <= relations[j].id)
  }

  // The claims about a member, or about a relation with both ends among the members.
  ghost predicate SelectsClaims(ids: seq<EntityID>, ev: Evidence, claims: seq<Claim>) {
    forall c :: c in claims <==>
      && c in ev.claims
      && match c.subject
         case EntitySubject(id) => id in ids
         case RelationSubject(id) =>
           id in ev.relationsByID && ev.relationsByID[id].source in ids && ev.relationsByID[id].target in ids
         case OtherSubject(_) => false
  }

  lemma EntitiesAreSelected(ids: seq<EntityID>, ev: Evidence)
    ensures SelectsEntities(ids, ev, Selection(ids, ev).entities)
  {
    var entities := Selection(ids, ev).entities;
    SortSorts(EntitiesOf(ids, ev), EntityOrder);
    forall i, j | 0 <= i < j < |entities|
      ensures entities[i].degree > entities[j].degree || (entities[i].degree == entities[j].degree && entities[i].id <= entities[j].id)
    {
      assert EntityOrder(entities[i], entities[j]);
    }
  }

  lemma RelationsAreSelected(ids: seq<EntityID>, ev: Evidence)
    ensures SelectsRelations(ids, ev, Selection(ids, ev).relations)
  {
    var relations := Selection(ids, ev).relations;
    SortSorts(Filter(ev.relations, Internal(Members(ids))), RelationOrder);
    FilterMembers(ev.relations, Internal(Members(ids)));
    forall i, j | 0 <= i < j < |relations|
      ensures relations[i].combinedDegree > relations[j].combinedDegree ||
        (relations[i].combinedDegree == relations[j].combinedDegree && relations[i].id <= relations[j].id)
    {
      assert RelationOrder(relations[i], relations[j]);
    }
  }

  lemma ClaimsAreSelected(ids: seq<EntityID>, ev: Evidence)
    ensures SelectsClaims(ids, ev, Selection(ids, ev).claims)
  {
    FilterMembers(ev.claims, Belongs(Members(ids), ev.relationsByID));
  }

  // selectCommunityInput.
  method SelectCommunityInput(ids: seq<EntityID>, ev: Evidence) returns (input: Input)
    ensures input == Selection(ids, ev)
    ensures SelectsEntities(ids, ev, input.entities) && SelectsRelations(ids, ev, input.relations)
    ensures SelectsClaims(ids, ev, input.claims)
  {
    var entities: seq<Entity> := [];
    for i := 0 to |ids|
      invariant entities == EntitiesOf(ids, ev)[..i]
    {
      entities := entities + [EntityFor(ev, ids[i])];
    }
    assert entities == EntitiesOf(ids, ev);
    var members := Members(ids);
    var relations := SelectRelations(members, ev.relations);
    var claims: seq<Claim> := [];
    for i := 0 to |ev.claims|
      invariant claims == Filter(ev.claims[..i], Belongs(members, ev.relationsByID))
    {
      var claim := ev.claims[i];
      assert ev.claims[..i + 1] == ev.claims[..i] + [claim];
      FilterGrows(ev.claims[..i], claim, Belongs(members, ev.relationsByID));
      if Belongs(members, ev.relationsByID)(claim) { claims := claims + [claim]; }
    }
    assert ev.claims[..|ev.claims|] == ev.claims;
    input := Input(Sort(entities, EntityOrder), Sort(relations, RelationOrder), claims);
    EntitiesAreSelected(ids, ev);
    RelationsAreSelected(ids, ev);
    ClaimsAreSelected(ids, ev);
  }

  method SelectRelations(members: set<EntityID>, relations: seq<Relation>) returns (selected: seq<Relation>)
    ensures selected == Filter(relations, Internal(members))
  {
    selected := [];
    for i := 0 to |relations|
      invariant selected == Filter(relations[..i], Internal(members))
    {
      var relation := relations[i];
      assert relations[..i + 1] == relations[..i] + [relation];
      FilterGrows(relations[..i], relation, Internal(members));
      if relation.source !in members { continue; }
      if relation.target !in members { continue; }
      selected := selected + [relation];
    }
    assert relations[..|relations|] == relations;
  }

  lemma {:induction false} ValuesOfFilter<T>(s: seq<T>, p: T -> bool)
    ensures Values(Filter(Number(s), OnValue(p))) == Filter(s, p)
  {
    if s == [] {
    } else {
      var before, last := s[..|s| - 1], s[|s| - 1];
      ValuesOfFilter(before, p);
      assert Number(s) == Number(before) + [Row(|before|, last)];
      FilterGrows(Number(before), Row(|before|, last), OnValue(p));
      var kept := Filter(Number(before), OnValue(p));
      assert p(last) ==> Values(kept + [Row(|before|, last)]) == Values(kept) + [last];
    }
  }

  // Filtering a sorted arrangement is sorting the filtered elements.
  lemma FilterOfSort<T(!new)>(s: seq<T>, p: T -> bool, le: (T, T) -> bool, t: seq<T>)
    requires TotalPreorder(le) && forall x, y :: x in s && y in s && le(x, y) && le(y, x) ==> x == y
    requires forall x :: multiset(t)[x] == multiset(Filter(s, p))[x]
    ensures Filter(Sort(s, le), p) == Sort(t, le)
  {
    SortSorts(s, le);
    SortSorts(t, le);
    FilterKeepsOrder(Sort(s, le), p, le);
    FilterMembers(Sort(s, le), p);
    var filtered := Filter(Sort(s, le), p);
    forall x ensures multiset(filtered)[x] == multiset(Sort(t, le))[x] {
      FilterCount(Sort(s, le), p, x);
      FilterCount(s, p, x);
    }
    assert multiset(filtered) == multiset(Sort(t, le));
    SortedIsUnique(filtered, Sort(t, le), le);
  }

  lemma EntitiesAreDistinct(ids: seq<EntityID>, ev: Evidence)
    requires ValidEvidence(ev) && Known(ids, ev) && NoDuplicates(ids)
    ensures NoDuplicates(EntitiesOf(ids, ev))
    ensures forall e :: e in EntitiesOf(ids, ev) <==> e.id in ids && e == EntityFor(ev, e.id)
  {
    var entities := EntitiesOf(ids, ev);
    forall k | 0 <= k < |ids| ensures entities[k].id == ids[k] && ids[k] in ids {
      var id := ids[k];
      assert id in ids;
    }
    forall e: Entity | e.id in ids && e == EntityFor(ev, e.id) ensures e in entities {
      var k :| 0 <= k < |ids| && ids[k] == e.id;
      assert entities[k] == e;
    }
  }

  lemma SelectedEntities(ids: seq<EntityID>, sub: seq<EntityID>, ev: Evidence)
    requires ValidEvidence(ev) && Known(ids, ev) && NoDuplicates(ids) && NoDuplicates(sub)
    requires forall id :: id in sub ==> id in ids
    ensures Filter(Selection(ids, ev).entities, EntityIn(Members(sub))) == Selection(sub, ev).entities
  {
    var all, few := EntitiesOf(ids, ev), EntitiesOf(sub, ev);
    EntitiesAreDistinct(ids, ev);
    EntitiesAreDistinct(sub, ev);
    NoDuplicatesIsMultiset(all);
    NoDuplicatesIsMultiset(few);
    forall e ensures multiset(few)[e] == multiset(Filter(all, EntityIn(Members(sub))))[e] {
      FilterCount(all, EntityIn(Members(sub)), e);
      assert e in multiset(few) <==> e in few;
      assert e in multiset(all) <==> e in all;
    }
    FilterOfSort(all, EntityIn(Members(sub)), EntityOrder, few);
  }

  lemma SelectedRelations(ids: seq<EntityID>, sub: seq<EntityID>, ev: Evidence)
    requires ValidEvidence(ev) && Known(ids, ev) && forall id :: id in sub ==> id in ids
    ensures Filter(Selection(ids, ev).relations, Internal(Members(sub))) == Selection(sub, ev).relations
  {
    var all := Filter(ev.relations, Internal(Members(ids)));
    FilterMembers(ev.relations, Internal(Members(ids)));
    FilterTwice(ev.relations, Internal(Members(ids)), Internal(Members(sub)), Internal(Members(sub)));
    FilterOfSort(all, Internal(Members(sub)), RelationOrder, Filter(ev.relations, Internal(Members(sub))));
  }

  lemma NumberedValues<T>(s: seq<T>)
    ensures forall x :: x in Number(s) ==> x.value in s
    ensures forall v :: v in s ==> exists x :: x in Number(s) && x.value == v
  {
    forall v | v in s ensures exists x :: x in Number(s) && x.value == v {
      var k :| 0 <= k < |s| && s[k] == v;
      assert Number(s)[k] in Number(s);
    }
  }

  lemma SelectedRelation(ids: seq<EntityID>, ev: Evidence, r: Relation)
    ensures r in Selection(ids, ev).relations <==> r in ev.relations && Internal(Members(ids))(r)
  {
    SortPermutes(Filter(ev.relations, Internal(Members(ids))), RelationOrder);
    FilterMembers(ev.relations, Internal(Members(ids)));
  }

  // The relation identities a batch finds inside the members are those the index says.
  lemma SelectedIDs(ids: seq<EntityID>, sub: seq<EntityID>, ev: Evidence, id: RelationID)
    requires ValidEvidence(ev) && Known(ids, ev) && forall i :: i in sub ==> i in ids
    ensures id in InternalIDs(NumberedInput(Selection(ids, ev)), Members(sub)) <==>
      id in ev.relationsByID && Internal(Members(sub))(ev.relationsByID[id])
  {
    var relations := Selection(ids, ev).relations;
    InternalIDsMeaning(NumberedInput(Selection(ids, ev)), Members(sub), id);
    NumberedValues(relations);
    if id in ev.relationsByID && Internal(Members(sub))(ev.relationsByID[id]) {
      SelectedRelation(ids, ev, ev.relationsByID[id]);
    }
    if x :| x in Number(relations) && x.value.id == id && Internal(Members(sub))(x.value) {
      SelectedRelation(ids, ev, x.value);
    }
  }

  lemma SelectedClaims(ids: seq<EntityID>, sub: seq<EntityID>, ev: Evidence)
    requires ValidEvidence(ev) && Known(ids, ev) && forall id :: id in sub ==> id in ids
    ensures Filter(Selection(ids, ev).claims, About(Members(sub), InternalIDs(NumberedInput(Selection(ids, ev)), Members(sub)))) ==
      Selection(sub, ev).claims
  {
    var relations := InternalIDs(NumberedInput(Selection(ids, ev)), Members(sub));
    var p, q, both :=
      Belongs(Members(ids), ev.relationsByID), About(Members(sub), relations), Belongs(Members(sub), ev.relationsByID);
    forall c | c in ev.claims ensures both(c) == (p(c) && q(c)) {
      if c.subject.RelationSubject? { SelectedIDs(ids, sub, ev, c.subject.relation); }
    }
    FilterTwice(ev.claims, p, q, both);
  }

  // A child's share of its parent's numbered evidence is what the child selects for itself, in
  // the same order.
  lemma SelectionIsHereditary(ids: seq<EntityID>, sub: seq<EntityID>, ev: Evidence)
    requires ValidEvidence(ev) && Known(ids, ev) && NoDuplicates(ids) && NoDuplicates(sub)
    requires forall id :: id in sub ==> id in ids
    ensures ValuesOf(ForMembers(NumberedInput(Selection(ids, ev)), Members(sub))) == Selection(sub, ev)
  {
    var input := Selection(ids, ev);
    var relations := InternalIDs(NumberedInput(input), Members(sub));
    ValuesOfFilter(input.entities, EntityIn(Members(sub)));
    ValuesOfFilter(input.relations, Internal(Members(sub)));
    ValuesOfFilter(input.claims, About(Members(sub), relations));
    SelectedEntities(ids, sub, ev);
    SelectedRelations(ids, sub, ev);
    SelectedClaims(ids, sub, ev);
  }

  // Numbering a selection gives strict rows, told apart by their identities.
  lemma SelectionIsWellFormed(ids: seq<EntityID>, ev: Evidence)
    requires ValidEvidence(ev) && Known(ids, ev) && NoDuplicates(ids)
    ensures WellFormed(NumberedInput(Selection(ids, ev)))
  {
    EntitiesAreDistinct(ids, ev);
    SortedStaysDistinct(EntitiesOf(ids, ev), EntityOrder);
    FilterMembers(ev.relations, Internal(Members(ids)));
    FilterStaysDistinct(ev.relations, Internal(Members(ids)));
    SortedStaysDistinct(Filter(ev.relations, Internal(Members(ids))), RelationOrder);
  }

  lemma FilterStaysDistinct<T>(s: seq<T>, p: T -> bool)
    requires NoDuplicates(s)
    ensures NoDuplicates(Filter(s, p))
  {
    NoDuplicatesIsMultiset(s);
    forall x ensures multiset(Filter(s, p))[x] <= 1 {
      FilterCount(s, p, x);
      assert multiset(s)[x] <= 1;
    }
    NoDuplicatesIsMultiset(Filter(s, p));
  }
}
