/**
 The persisted form of a hierarchy (community/community_set.go, community_set_validation.go
 and report/input_validation.go): communities are renamed from numbers to content identities,
 members are sorted, and two independent validators check the result.
 */
module CommunitySets {
  import opened Wrappers
  import opened Sets
  import opened Sorting
  import opened Hierarchy

  type CommunityID = int

  datatype Membership = Membership(
    id: CommunityID, number: int, level: int, parentID: Option<CommunityID>,
    final: bool, unsplittable: bool, entityIDs: seq<EntityID>)

  // The content identity of a sorted member list, standing for its SHA-256.
  type Identity = seq<EntityID> -> CommunityID

  ghost predicate Injective(identity: Identity) {
    forall s, t :: identity(s) == identity(t) ==> s == t
  }

  predicate AtMost(a: EntityID, b: EntityID) { a <= b }

  predicate MemberAtMost(a: Membership, b: Membership) {
    a.level < b.level || (a.level == b.level && a.number <= b.number)
  }

  predicate MemberBefore(a: Membership, b: Membership) {
    a.level < b.level || (a.level == b.level && a.number < b.number)
  }

  predicate CommunityAtMost(a: Community, b: Community) {
    a.level < b.level || (a.level == b.level && a.id <= b.id)
  }

  ghost predicate Ascending(s: seq<EntityID>) {
    forall i, j :: 0 <= i < j < |s| ==> s[i] < s[j]
  }

  // ---------------------------------------------------------------------------------------
  // Validity of a membership list.

  ghost predicate ValidMembers(m: Membership, entities: set<EntityID>) {
    m.entityIDs != [] && Ascending(m.entityIDs) && forall e :: e in m.entityIDs ==> e in entities
  }

  ghost predicate IsParentOf(p: Membership, m: Membership) {
    m.parentID == Some(p.id) && p.level < m.level
  }

  ghost predicate ParentResolves(ms: seq<Membership>, m: Membership) {
    if m.parentID.None? then m.level == 0 else exists p :: p in ms && IsParentOf(p, m)
  }

  ghost predicate Numbered(ms: seq<Membership>, n: int) {
    exists m :: m in ms && m.number == n
  }

  ghost predicate HasID(h: seq<Community>, n: int) {
    exists c :: c in h && c.id == n
  }

  ghost predicate OrderedAndNumbered(ms: seq<Membership>) {
    && (forall i, j :: 0 <= i < j < |ms| ==> MemberBefore(ms[i], ms[j]))
    && (forall i, j :: 0 <= i < j < |ms| ==> ms[i].number != ms[j].number && ms[i].id != ms[j].id)
    && (forall m :: m in ms ==> m.number >= 0 && m.level >= 0)
    && (forall n :: 0 <= n < |ms| ==> Numbered(ms, n))
  }

  // The number of the community a membership names as its parent, -1 for none.
  ghost function ParentNumber(ms: seq<Membership>, m: Membership): int {
    if m.parentID.Some? && exists p :: p in ms && p.id == m.parentID.value then
      var p :| p in ms && p.id == m.parentID.value;
      p.number
    else -1
  }

  ghost function Detected(ms: seq<Membership>, m: Membership): Community {
    Community(m.number, m.level, ParentNumber(ms, m), m.entityIDs, m.final, m.unsplittable)
  }

  // The hierarchy a membership list stands for.
  ghost function Rebuilt(ms: seq<Membership>): seq<Community> {
    seq(|ms|, i requires 0 <= i < |ms| => Detected(ms, ms[i]))
  }

  ghost predicate ValidMemberships(identity: Identity, ms: seq<Membership>, entities: set<EntityID>) {
    && ms != []
    && OrderedAndNumbered(ms)
    && (forall m :: m in ms ==> ValidMembers(m, entities) && m.id == identity(m.entityIDs))
    && (forall m :: m in ms ==> ParentResolves(ms, m))
    && ValidHierarchy(Rebuilt(ms))
  }

  // ---------------------------------------------------------------------------------------
  // Translation.

  function SortNodes(c: Community): Community { c.(nodes := Sort(c.nodes, AtMost)) }

  ghost function SortedHierarchy(h: seq<Community>): seq<Community> {
    Sort(NodesSorted(h), CommunityAtMost)
  }

  ghost function NodesSorted(h: seq<Community>): seq<Community> {
    seq(|h|, i requires 0 <= i < |h| => SortNodes(h[i]))
  }

  function IdentityOf(identity: Identity, c: Community): CommunityID { identity(Sort(c.nodes, AtMost)) }

  ghost function ParentIdentity(identity: Identity, h: seq<Community>, c: Community): Option<CommunityID> {
    if c.parentID >= 0 && exists p :: p in h && p.id == c.parentID then
      var p :| p in h && p.id == c.parentID;
      Some(IdentityOf(identity, p))
    else None
  }

  ghost function Translated(identity: Identity, h: seq<Community>, c: Community): Membership {
    Membership(
      IdentityOf(identity, c), c.id, c.level, ParentIdentity(identity, h, c),
      c.final, c.unsplittable, Sort(c.nodes, AtMost))
  }

  ghost function Unsorted(identity: Identity, h: seq<Community>): seq<Membership> {
    seq(|h|, i requires 0 <= i < |h| => Translated(identity, h, h[i]))
  }

  ghost function Memberships(identity: Identity, h: seq<Community>): seq<Membership> {
    Sort(Unsorted(identity, h), MemberAtMost)
  }

  ghost predicate SameMembers(c: Community, d: Community) {
    forall node :: node in c.nodes <==> node in d.nodes
  }

  // Exactly what a valid hierarchy must satisfy to be stored.
  ghost predicate Representable(h: seq<Community>, entities: set<EntityID>) {
    && (forall c :: c in h ==> c.id >= 0)
    && (forall n :: 0 <= n < |h| ==> HasID(h, n))
    && (forall c :: c in h ==> NoDuplicates(c.nodes) && forall node :: node in c.nodes ==> node in entities)
    && (forall c, d :: c in h && d in h && SameMembers(c, d) ==> c == d)
  }

  // ---------------------------------------------------------------------------------------
  // Validity does not depend on the order of the communities, nor on the order of their nodes.

  lemma SortMembers(nodes: seq<EntityID>)
    ensures multiset(Sort(nodes, AtMost)) == multiset(nodes)
    ensures forall x :: x in Sort(nodes, AtMost) <==> x in nodes
    ensures SortedBy(Sort(nodes, AtMost), AtMost)
    ensures Sort(nodes, AtMost) == [] <==> nodes == []
    ensures Ascending(Sort(nodes, AtMost)) <==> NoDuplicates(nodes)
  {
    var sorted := Sort(nodes, AtMost);
    SortSorts(nodes, AtMost);
    NoDuplicatesIsMultiset(nodes);
    NoDuplicatesIsMultiset(sorted);
    if NoDuplicates(nodes) {
      forall i, j | 0 <= i < j < |sorted| ensures sorted[i] < sorted[j] {
        assert AtMost(sorted[i], sorted[j]) && sorted[i] != sorted[j];
      }
    }
  }

  // Moving a community to the front changes no count.
  lemma FinalNodesMoved(before: seq<Community>, c: Community, after: seq<Community>, rest: seq<Community>)
    requires FinalNodes(before + after) == FinalNodes(rest)
    ensures FinalNodes(before + [c] + after) == FinalNodes([c] + rest)
  {
    FinalNodesConcat(before + [c], after);
    FinalNodesConcat(before, [c]);
    FinalNodesConcat(before, after);
    FinalNodesConcat([c], rest);
  }

  lemma TakeOut(g: seq<Community>, c: Community) returns (before: seq<Community>, after: seq<Community>)
    requires c in g
    ensures g == before + [c] + after && multiset(before + after) == multiset(g) - multiset{c}
  {
    var k :| 0 <= k < |g| && g[k] == c;
    before, after := g[..k], g[k + 1..];
    assert g == before + [c] + after;
  }

  lemma {:induction false} FinalNodesPermuted(g: seq<Community>, h: seq<Community>)
    requires multiset(g) == multiset(h)
    ensures FinalNodes(g) == FinalNodes(h)
    decreases |h|
  {
    SameMultiset(g, h);
    if h == [] {
    } else {
      var c, rest := h[0], h[1..];
      assert c in h;
      var before, after := TakeOut(g, c);
      TailMultiset(h);
      FinalNodesPermuted(before + after, rest);
      FinalNodesMoved(before, c, after, rest);
    }
  }

  lemma UniqueIDsByElement(h: seq<Community>)
    ensures UniqueIDs(h) <==> NoDuplicates(h) && forall c, d :: c in h && d in h && c.id == d.id ==> c == d
  {
    if UniqueIDs(h) {
      forall c, d | c in h && d in h && c.id == d.id ensures c == d {
        var i :| 0 <= i < |h| && h[i] == c;
        var j :| 0 <= j < |h| && h[j] == d;
        assert i == j;
      }
    }
  }

  lemma ValidityIgnoresOrder(g: seq<Community>, h: seq<Community>)
    requires multiset(g) == multiset(h) && ValidHierarchy(g)
    ensures ValidHierarchy(h)
  {
    forall c ensures c in g <==> c in h {
      assert c in g <==> c in multiset(g);
      assert c in h <==> c in multiset(h);
    }
    UniqueIDsByElement(g);
    UniqueIDsByElement(h);
    NoDuplicatesIsMultiset(g);
    NoDuplicatesIsMultiset(h);
    FinalNodesPermuted(g, h);
    forall c | c in h && c.level != 0 ensures HasParent(h, c) {
      var p :| p in g && IsParent(p, c);
    }
    forall id ensures HasChild(g, id) <==> HasChild(h, id) {
      if d :| d in g && d.level != 0 && d.parentID == id { assert d in h; }
      if d :| d in h && d.level != 0 && d.parentID == id { assert d in g; }
    }
    forall node | IsRootNode(h, node) ensures FinalNodes(h)[node] == 1 {
      var c :| c in h && c.level == 0 && node in c.nodes;
      assert IsRootNode(g, node);
    }
  }

  lemma {:induction false} FinalNodesIgnoreNodeOrder(h: seq<Community>)
    ensures FinalNodes(NodesSorted(h)) == FinalNodes(h)
  {
    if h == [] {
    } else {
      FinalNodesIgnoreNodeOrder(h[..|h| - 1]);
      assert NodesSorted(h)[..|h| - 1] == NodesSorted(h[..|h| - 1]);
      SortMembers(h[|h| - 1].nodes);
    }
  }

  lemma NodesSortedElements(h: seq<Community>)
    ensures forall c :: c in h ==> SortNodes(c) in NodesSorted(h)
    ensures forall c :: c in NodesSorted(h) ==> exists d :: d in h && SortNodes(d) == c
  {
    var g := NodesSorted(h);
    forall c | c in h ensures SortNodes(c) in g {
      var i :| 0 <= i < |h| && h[i] == c;
      assert g[i] == SortNodes(c);
    }
    forall c | c in g ensures exists d :: d in h && SortNodes(d) == c {
      var i :| 0 <= i < |g| && g[i] == c;
      assert h[i] in h;
    }
  }

  lemma SortNodesKeepsMembers(c: Community, d: Community)
    ensures SameMembers(SortNodes(c), c) && (SortNodes(c).nodes == [] <==> c.nodes == [])
    ensures IsParent(SortNodes(c), SortNodes(d)) <==> IsParent(c, d)
  {
    SortMembers(c.nodes);
    SortMembers(d.nodes);
    if IsParent(SortNodes(c), SortNodes(d)) {
      forall x | x in d.nodes ensures x in c.nodes {
        assert x in SortNodes(d).nodes;
      }
    }
  }

  lemma NodeOrderKeepsChildren(h: seq<Community>, id: int)
    ensures HasChild(NodesSorted(h), id) <==> HasChild(h, id)
  {
    NodesSortedElements(h);
    if d :| d in h && d.level != 0 && d.parentID == id { assert SortNodes(d) in NodesSorted(h); }
    if c :| c in NodesSorted(h) && c.level != 0 && c.parentID == id {
      var d :| d in h && SortNodes(d) == c;
    }
  }

  lemma NodeOrderKeepsPlace(h: seq<Community>, d: Community)
    requires ValidHierarchy(h) && d in h
    ensures LocallyValid(SortNodes(d))
    ensures d.level != 0 ==> HasParent(NodesSorted(h), SortNodes(d))
    ensures d.final <==> !HasChild(NodesSorted(h), d.id)
  {
    assert LocallyValid(d);
    SortNodesKeepsMembers(d, d);
    NodeOrderKeepsChildren(h, d.id);
    if d.level != 0 {
      var p :| p in h && IsParent(p, d);
      SortNodesKeepsMembers(p, d);
      NodesSortedElements(h);
      assert SortNodes(p) in NodesSorted(h);
    }
  }

  lemma NodeOrderKeepsRoots(h: seq<Community>, node: EntityID)
    requires IsRootNode(NodesSorted(h), node)
    ensures IsRootNode(h, node)
  {
    NodesSortedElements(h);
    var c :| c in NodesSorted(h) && c.level == 0 && node in c.nodes;
    var d :| d in h && SortNodes(d) == c;
    SortNodesKeepsMembers(d, d);
  }

  lemma ValidityIgnoresNodeOrder(h: seq<Community>)
    requires ValidHierarchy(h)
    ensures ValidHierarchy(NodesSorted(h))
  {
    var g := NodesSorted(h);
    forall c | c in g ensures LocallyValid(c) && (c.level != 0 ==> HasParent(g, c)) && (c.final <==> !HasChild(g, c.id)) {
      NodesSortedElements(h);
      var d :| d in h && SortNodes(d) == c;
      NodeOrderKeepsPlace(h, d);
    }
    forall node | IsRootNode(g, node) ensures FinalNodes(g)[node] == 1 {
      FinalNodesIgnoreNodeOrder(h);
      NodeOrderKeepsRoots(h, node);
    }
  }

  // ---------------------------------------------------------------------------------------
  // Correctness of the translation.

  lemma TranslatedParent(identity: Identity, h: seq<Community>, c: Community)
    requires ValidHierarchy(h) && c in h
    ensures c.level == 0 ==> Translated(identity, h, c).parentID == None
    ensures forall p :: p in h && IsParent(p, c) ==> Translated(identity, h, c).parentID == Some(IdentityOf(identity, p))
  {
    assert LocallyValid(c);
    forall p | p in h && IsParent(p, c) ensures Translated(identity, h, c).parentID == Some(IdentityOf(identity, p)) {
      forall q | q in h && q.id == c.parentID ensures q == p {}
    }
  }

  lemma MembershipElements(identity: Identity, h: seq<Community>)
    requires UniqueIDs(h)
    ensures |Memberships(identity, h)| == |h| && NoDuplicates(Memberships(identity, h))
    ensures SortedBy(Memberships(identity, h), MemberAtMost)
    ensures forall c :: c in h ==> Translated(identity, h, c) in Memberships(identity, h)
    ensures forall m :: m in Memberships(identity, h) ==> exists c :: c in h && m == Translated(identity, h, c)
  {
    var ts, ms := Unsorted(identity, h), Memberships(identity, h);
    SortSorts(ts, MemberAtMost);
    forall i, j | 0 <= i < j < |ts| ensures ts[i] != ts[j] {
      assert h[i].id != h[j].id;
    }
    NoDuplicatesIsMultiset(ts);
    NoDuplicatesIsMultiset(ms);
    forall c | c in h ensures Translated(identity, h, c) in ms {
      var i :| 0 <= i < |h| && h[i] == c;
      assert ts[i] in ts;
    }
    forall m | m in ms ensures exists c :: c in h && m == Translated(identity, h, c) {
      assert m in ts;
      var i :| 0 <= i < |ts| && ts[i] == m;
      assert h[i] in h;
    }
  }

  // Content identities separate the communities of a representable hierarchy.
  lemma IdentitySeparates(identity: Identity, h: seq<Community>, entities: set<EntityID>, c: Community, d: Community)
    requires Injective(identity) && Representable(h, entities) && c in h && d in h
    requires IdentityOf(identity, c) == IdentityOf(identity, d)
    ensures c == d
  {
    SortMembers(c.nodes);
    SortMembers(d.nodes);
    assert Sort(c.nodes, AtMost) == Sort(d.nodes, AtMost);
    assert SameMembers(c, d) by {
      forall node ensures node in c.nodes <==> node in d.nodes {
        assert node in c.nodes <==> node in Sort(c.nodes, AtMost);
      }
    }
  }

  lemma IdentityNamesOne(identity: Identity, h: seq<Community>, entities: set<EntityID>, p: Community, r: Membership)
    requires Injective(identity) && UniqueIDs(h) && Representable(h, entities) && p in h
    requires r in Memberships(identity, h) && r.id == IdentityOf(identity, p)
    ensures r == Translated(identity, h, p)
  {
    MembershipElements(identity, h);
    var d :| d in h && r == Translated(identity, h, d);
    IdentitySeparates(identity, h, entities, d, p);
  }

  lemma ParentIsTranslated(identity: Identity, h: seq<Community>, entities: set<EntityID>, c: Community, p: Community)
    requires Injective(identity) && ValidHierarchy(h) && Representable(h, entities)
    requires c in h && p in h && IsParent(p, c)
    ensures ParentResolves(Memberships(identity, h), Translated(identity, h, c))
    ensures ParentNumber(Memberships(identity, h), Translated(identity, h, c)) == p.id
  {
    var ms, m, q := Memberships(identity, h), Translated(identity, h, c), Translated(identity, h, p);
    assert q in ms by { MembershipElements(identity, h); }
    assert m.parentID == Some(q.id) by { TranslatedParent(identity, h, c); }
    assert IsParentOf(q, m);
    forall r | r in ms && r.id == q.id ensures r.number == p.id {
      IdentityNamesOne(identity, h, entities, p, r);
    }
  }

  // From number to identity and back: rebuilding a translated membership gives the community.
  lemma RoundTripOne(identity: Identity, h: seq<Community>, entities: set<EntityID>, c: Community)
    requires Injective(identity) && ValidHierarchy(h) && Representable(h, entities) && c in h
    ensures Detected(Memberships(identity, h), Translated(identity, h, c)) == SortNodes(c)
    ensures ParentResolves(Memberships(identity, h), Translated(identity, h, c))
  {
    assert LocallyValid(c);
    if c.level == 0 {
      TranslatedParent(identity, h, c);
    } else {
      var p :| p in h && IsParent(p, c);
      ParentIsTranslated(identity, h, entities, c, p);
    }
  }

  lemma TranslationIsOrdered(identity: Identity, h: seq<Community>, entities: set<EntityID>)
    requires Injective(identity) && ValidHierarchy(h) && Representable(h, entities)
    ensures OrderedAndNumbered(Memberships(identity, h))
  {
    var ms := Memberships(identity, h);
    MembershipElements(identity, h);
    forall i, j | 0 <= i < j < |ms|
      ensures ms[i].number != ms[j].number && ms[i].id != ms[j].id && MemberBefore(ms[i], ms[j])
    {
      assert ms[i] in ms && ms[j] in ms && ms[i] != ms[j] && MemberAtMost(ms[i], ms[j]);
      var c :| c in h && ms[i] == Translated(identity, h, c);
      var d :| d in h && ms[j] == Translated(identity, h, d);
      if ms[i].id == ms[j].id { IdentitySeparates(identity, h, entities, c, d); }
    }
    forall m | m in ms ensures m.number >= 0 && m.level >= 0 {
      var c :| c in h && m == Translated(identity, h, c);
      LevelsAreNonNegative(h, c);
    }
    forall n | 0 <= n < |ms| ensures Numbered(ms, n) {
      assert HasID(h, n);
      var c :| c in h && c.id == n;
      assert Translated(identity, h, c) in ms;
    }
  }

  lemma RebuiltElements(identity: Identity, h: seq<Community>, entities: set<EntityID>)
    requires Injective(identity) && ValidHierarchy(h) && Representable(h, entities)
    ensures forall c :: c in Rebuilt(Memberships(identity, h)) <==> c in NodesSorted(h)
  {
    var rebuilt, plain := Rebuilt(Memberships(identity, h)), NodesSorted(h);
    forall c | c in rebuilt ensures c in plain {
      var i :| 0 <= i < |rebuilt| && rebuilt[i] == c;
      RebuiltElement(identity, h, entities, i);
    }
    forall c | c in plain ensures c in rebuilt {
      NodesSortedElements(h);
      var d :| d in h && SortNodes(d) == c;
      DetectedElement(identity, h, entities, d);
    }
  }

  lemma RebuiltElement(identity: Identity, h: seq<Community>, entities: set<EntityID>, i: nat)
    requires Injective(identity) && ValidHierarchy(h) && Representable(h, entities)
    requires i < |Memberships(identity, h)|
    ensures Rebuilt(Memberships(identity, h))[i] in NodesSorted(h)
  {
    var ms := Memberships(identity, h);
    var d := Original(identity, h, ms[i]);
    assert Detected(ms, ms[i]) == SortNodes(d) by { RoundTripOne(identity, h, entities, d); }
    assert SortNodes(d) in NodesSorted(h) by { NodesSortedElements(h); }
  }

  lemma Original(identity: Identity, h: seq<Community>, m: Membership) returns (c: Community)
    requires UniqueIDs(h) && m in Memberships(identity, h)
    ensures c in h && m == Translated(identity, h, c)
  {
    MembershipElements(identity, h);
    c :| c in h && m == Translated(identity, h, c);
  }

  lemma DetectedElement(identity: Identity, h: seq<Community>, entities: set<EntityID>, d: Community)
    requires Injective(identity) && ValidHierarchy(h) && Representable(h, entities) && d in h
    ensures SortNodes(d) in Rebuilt(Memberships(identity, h))
  {
    var ms, m := Memberships(identity, h), Translated(identity, h, d);
    assert m in ms by { MembershipElements(identity, h); }
    assert Detected(ms, m) == SortNodes(d) by { RoundTripOne(identity, h, entities, d); }
    InRebuilt(ms, m);
  }

  lemma InRebuilt(ms: seq<Membership>, m: Membership)
    requires m in ms
    ensures Detected(ms, m) in Rebuilt(ms)
  {
    var i :| 0 <= i < |ms| && ms[i] == m;
    assert Rebuilt(ms)[i] == Detected(ms, m);
  }

  // Rebuilding the translated memberships gives the original hierarchy, sorted.
  lemma RebuildInvertsTranslation(identity: Identity, h: seq<Community>, entities: set<EntityID>)
    requires Injective(identity) && ValidHierarchy(h) && Representable(h, entities)
    ensures Rebuilt(Memberships(identity, h)) == SortedHierarchy(h)
    ensures ValidHierarchy(SortedHierarchy(h))
  {
    var ms := Memberships(identity, h);
    TranslationIsOrdered(identity, h, entities);
    RebuiltElements(identity, h, entities);
    ValidityIgnoresNodeOrder(h);
    OrderedArrangement(Rebuilt(ms), NodesSorted(h));
    SortSorts(NodesSorted(h), CommunityAtMost);
    ValidityIgnoresOrder(NodesSorted(h), SortedHierarchy(h));
  }

  lemma OrderedArrangement(sorted: seq<Community>, plain: seq<Community>)
    requires SortedBy(sorted, CommunityAtMost) && NoDuplicates(sorted) && UniqueIDs(plain)
    requires forall c :: c in sorted <==> c in plain
    ensures sorted == Sort(plain, CommunityAtMost)
  {
    UniqueIDsByElement(plain);
    SameElementsSameMultiset(sorted, plain);
    SortSorts(plain, CommunityAtMost);
    SortedIsUnique(sorted, Sort(plain, CommunityAtMost), CommunityAtMost);
  }

  // A valid hierarchy translates to valid memberships exactly when it is representable.
  lemma TranslationIsValid(identity: Identity, h: seq<Community>, entities: set<EntityID>)
    requires Injective(identity) && ValidHierarchy(h)
    ensures ValidMemberships(identity, Memberships(identity, h), entities) <==> Representable(h, entities)
  {
    var ms := Memberships(identity, h);
    MembershipElements(identity, h);
    if Representable(h, entities) {
      TranslationIsOrdered(identity, h, entities);
      RebuildInvertsTranslation(identity, h, entities);
      forall m | m in ms ensures ValidMembers(m, entities) && m.id == identity(m.entityIDs) && ParentResolves(ms, m) {
        var c :| c in h && m == Translated(identity, h, c);
        assert LocallyValid(c);
        SortMembers(c.nodes);
        RoundTripOne(identity, h, entities, c);
      }
    }
    if ValidMemberships(identity, ms, entities) {
      ValidIsRepresentable(identity, h, entities);
    }
  }

  lemma ValidIsRepresentable(identity: Identity, h: seq<Community>, entities: set<EntityID>)
    requires ValidHierarchy(h) && ValidMemberships(identity, Memberships(identity, h), entities)
    ensures Representable(h, entities)
  {
    var ms := Memberships(identity, h);
    MembershipElements(identity, h);
    forall c | c in h
      ensures c.id >= 0 && NoDuplicates(c.nodes) && forall node :: node in c.nodes ==> node in entities
    {
      assert Translated(identity, h, c) in ms;
      SortMembers(c.nodes);
    }
    forall n | 0 <= n < |h| ensures HasID(h, n) {
      assert Numbered(ms, n);
      var m :| m in ms && m.number == n;
      var c :| c in h && m == Translated(identity, h, c);
    }
    forall c, d | c in h && d in h && SameMembers(c, d) ensures c == d {
      SameMembersSameIdentity(identity, c, d);
      var m, n := Translated(identity, h, c), Translated(identity, h, d);
      assert m in ms && n in ms && m.id == n.id;
      var i :| 0 <= i < |ms| && ms[i] == m;
      var j :| 0 <= j < |ms| && ms[j] == n;
      assert i == j;
    }
  }

  lemma SameMembersSameIdentity(identity: Identity, c: Community, d: Community)
    requires NoDuplicates(c.nodes) && NoDuplicates(d.nodes) && SameMembers(c, d)
    ensures IdentityOf(identity, c) == IdentityOf(identity, d)
  {
    SortMembers(c.nodes);
    SortMembers(d.nodes);
    forall node ensures node in c.nodes <==> node in d.nodes { assert SameMembers(c, d); }
    SameElementsSameMultiset(c.nodes, d.nodes);
    SortedIsUnique(Sort(c.nodes, AtMost), Sort(d.nodes, AtMost), AtMost);
  }

  // ---------------------------------------------------------------------------------------
  // The validator of a stored CommunitySet.

  method ValidateMembers(m: Membership, entities: set<EntityID>) returns (ok: bool)
    ensures ok <==> ValidMembers(m, entities)
  {
    var ids := m.entityIDs;
    if ids == [] { return false; }
    for i := 0 to |ids|
      invariant Ascending(ids[..i]) && forall e :: e in ids[..i] ==> e in entities
    {
      var id := ids[i];
      assert id in ids && ids[..i + 1] == ids[..i] + [id];
      if i > 0 && ids[i - 1] >= id { return false; }
      if id !in entities { return false; }
    }
    assert ids[..|ids|] == ids;
    return true;
  }

  // The list without its contiguity check: ordered, identities and numbers apart, members valid.
  ghost predicate Indexable(ms: seq<Membership>, entities: set<EntityID>) {
    && (forall i, j :: 0 <= i < j < |ms| ==> MemberBefore(ms[i], ms[j]))
    && (forall i, j :: 0 <= i < j < |ms| ==> ms[i].number != ms[j].number && ms[i].id != ms[j].id)
    && (forall m :: m in ms ==> m.number >= 0 && m.level >= 0)
    && (forall m :: m in ms ==> ValidMembers(m, entities))
  }

  ghost predicate MemberIndex(ms: seq<Membership>, byID: map<CommunityID, Membership>) {
    && (forall m :: m in ms ==> m.id in byID && byID[m.id] == m)
    && (forall id :: id in byID ==> byID[id] in ms && byID[id].id == id)
  }

  lemma IndexableGrows(ms: seq<Membership>, m: Membership, entities: set<EntityID>)
    requires Indexable(ms, entities) && ValidMembers(m, entities) && m.number >= 0 && m.level >= 0
    requires ms != [] ==> MemberBefore(ms[|ms| - 1], m)
    requires forall i :: 0 <= i < |ms| ==> ms[i].number != m.number && ms[i].id != m.id
    ensures Indexable(ms + [m], entities)
  {
    forall i | 0 <= i < |ms| ensures MemberBefore(ms[i], m) {
      assert i == |ms| - 1 || MemberBefore(ms[i], ms[|ms| - 1]);
    }
  }

  method IndexMemberships(ms: seq<Membership>, entities: set<EntityID>)
    returns (ok: bool, byID: map<CommunityID, Membership>)
    ensures ok <==> Indexable(ms, entities) && forall n :: 0 <= n < |ms| ==> Numbered(ms, n)
    ensures ok ==> MemberIndex(ms, byID)
  {
    ok, byID := false, map[];
    var seenNumbers: set<int> := {};
    for i := 0 to |ms|
      invariant !ok && Indexable(ms[..i], entities) && MemberIndex(ms[..i], byID)
      invariant seenNumbers == set m | m in ms[..i] :: m.number
    {
      var current := ms[i];
      assert current in ms && ms[..i + 1] == ms[..i] + [current];
      if i > 0 && !MemberBefore(ms[i - 1], current) { return; }
      if current.number < 0 { return; }
      if current.number in seenNumbers {
        return;
      }
      if current.level < 0 { return; }
      var valid := ValidateMembers(current, entities);
      if !valid { return; }
      if current.id in byID {
        IdentitySeen(ms, byID, i);
        return;
      }
      forall j | 0 <= j < i ensures ms[..i][j].number != current.number { assert ms[..i][j] in ms[..i]; }
      IndexableGrows(ms[..i], current, entities);
      seenNumbers := seenNumbers + {current.number};
      byID := byID[current.id := current];
    }
    assert ms[..|ms|] == ms;
    ok := NumbersAreContiguous(ms, seenNumbers);
  }

  method NumbersAreContiguous(ms: seq<Membership>, seenNumbers: set<int>) returns (ok: bool)
    requires seenNumbers == set m | m in ms :: m.number
    ensures ok <==> forall n :: 0 <= n < |ms| ==> Numbered(ms, n)
  {
    for expected := 0 to |ms|
      invariant forall n :: 0 <= n < expected ==> Numbered(ms, n)
    {
      if expected !in seenNumbers {
        assert !Numbered(ms, expected);
        return false;
      }
    }
    return true;
  }

  lemma IdentitySeen(ms: seq<Membership>, byID: map<CommunityID, Membership>, i: nat)
    requires i < |ms| && MemberIndex(ms[..i], byID) && ms[i].id in byID
    ensures exists j :: 0 <= j < i && ms[j].id == ms[i].id
  {
    var m := byID[ms[i].id];
    var j :| 0 <= j < i && ms[..i][j] == m;
    assert ms[j].id == ms[i].id;
  }

  lemma IndexedParent(ms: seq<Membership>, byID: map<CommunityID, Membership>, m: Membership)
    requires MemberIndex(ms, byID)
    ensures ParentResolves(ms, m) <==>
      if m.parentID.None? then m.level == 0 else m.parentID.value in byID && IsParentOf(byID[m.parentID.value], m)
    ensures ParentNumber(ms, m) ==
      if m.parentID.Some? && m.parentID.value in byID then byID[m.parentID.value].number else -1
  {
    if m.parentID.Some? {
      if p :| p in ms && p.id == m.parentID.value { assert byID[p.id] == p; }
      if m.parentID.value in byID { assert byID[m.parentID.value] in ms; }
    }
  }

  method ValidateReferences(values: seq<EntityID>) returns (ok: bool, ids: set<EntityID>)
    ensures ok <==> values != [] && Ascending(values)
    ensures ok ==> ids == set v | v in values
  {
    ok, ids := false, {};
    if values == [] { return; }
    for i := 0 to |values|
      invariant !ok && Ascending(values[..i]) && ids == set v | v in values[..i]
    {
      assert values[..i + 1] == values[..i] + [values[i]];
      if i > 0 && values[i - 1] >= values[i] { return; }
      ids := ids + {values[i]};
    }
    assert values[..|values|] == values;
    ok := true;
  }

  method CheckIdentities(identity: Identity, ms: seq<Membership>) returns (ok: bool)
    ensures ok <==> forall m :: m in ms ==> m.id == identity(m.entityIDs)
  {
    for i := 0 to |ms|
      invariant forall m :: m in ms[..i] ==> m.id == identity(m.entityIDs)
    {
      assert ms[i] in ms && ms[..i + 1] == ms[..i] + [ms[i]];
      if ms[i].id != identity(ms[i].entityIDs) { return false; }
    }
    assert ms[..|ms|] == ms;
    return true;
  }

  // Parent identities back to numbers.
  method RebuildHierarchy(ms: seq<Membership>, byID: map<CommunityID, Membership>) returns (ok: bool, detected: seq<Community>)
    requires MemberIndex(ms, byID)
    ensures ok <==> forall m :: m in ms ==> ParentResolves(ms, m)
    ensures ok ==> detected == Rebuilt(ms)
  {
    ok, detected := false, [];
    for i := 0 to |ms|
      invariant !ok && forall m :: m in ms[..i] ==> ParentResolves(ms, m)
      invariant |detected| == i && forall k :: 0 <= k < i ==> detected[k] == Detected(ms, ms[k])
    {
      var current := ms[i];
      assert current in ms && ms[..i + 1] == ms[..i] + [current];
      IndexedParent(ms, byID, current);
      var parentNumber := -1;
      if current.parentID.None? {
        if current.level != 0 { return; }
      } else {
        if current.parentID.value !in byID { return; }
        if byID[current.parentID.value].level >= current.level { return; }
        parentNumber := byID[current.parentID.value].number;
      }
      detected := detected + [Community(
        current.number, current.level, parentNumber, current.entityIDs, current.final, current.unsplittable)];
    }
    assert ms[..|ms|] == ms;
    ok := true;
  }

  // ValidateCommunitySet: the membership part, ending in the hierarchy validator itself.
  method ValidateCommunitySet(identity: Identity, ms: seq<Membership>, references: seq<EntityID>) returns (ok: bool)
    ensures ok <==> references != [] && Ascending(references) && ValidMemberships(identity, ms, set e | e in references)
  {
    var referenced, entities := ValidateReferences(references);
    if !referenced || ms == [] { return false; }
    var indexed, byID := IndexMemberships(ms, entities);
    if !indexed { return false; }
    var identified := CheckIdentities(identity, ms);
    if !identified { return false; }
    var resolved, detected := RebuildHierarchy(ms, byID);
    if !resolved { return false; }
    ok := Validate(detected);
  }

  // ---------------------------------------------------------------------------------------
  // newCommunitySet.

  method IdentifyCommunities(identity: Identity, h: seq<Community>)
    returns (ok: bool, communityIDs: map<int, CommunityID>, members: map<int, seq<EntityID>>)
    ensures ok <==> UniqueIDs(h)
    ensures ok ==> Identified(identity, h, communityIDs, members)
  {
    ok, communityIDs, members := false, map[], map[];
    for i := 0 to |h|
      invariant !ok && UniqueIDs(h[..i])
      invariant communityIDs.Keys == set c | c in h[..i] :: c.id
      invariant Identified(identity, h[..i], communityIDs, members)
    {
      var detected := h[i];
      assert h[..i + 1] == h[..i] + [detected];
      var entityIDs := Sort(detected.nodes, AtMost);
      if detected.id in communityIDs {
        var c :| c in h[..i] && c.id == detected.id;
        var j :| 0 <= j < i && h[..i][j] == c;
        assert h[j].id == h[i].id;
        return;
      }
      forall j | 0 <= j < i ensures h[..i][j].id != detected.id { assert h[..i][j] in h[..i]; }
      communityIDs := communityIDs[detected.id := identity(entityIDs)];
      members := members[detected.id := entityIDs];
    }
    assert h[..|h|] == h;
    ok := true;
  }

  ghost predicate Identified(
    identity: Identity, h: seq<Community>, communityIDs: map<int, CommunityID>, members: map<int, seq<EntityID>>)
  {
    forall c :: c in h ==>
      && c.id in communityIDs && communityIDs[c.id] == IdentityOf(identity, c)
      && c.id in members && members[c.id] == Sort(c.nodes, AtMost)
  }

  // The maps hold what the translation of `c` needs.
  ghost predicate ByMaps(
      identity: Identity, h: seq<Community>, communityIDs: map<int, CommunityID>, members: map<int, seq<EntityID>>, c: Community)
  {
    && c.id in communityIDs && c.id in members && (c.parentID >= 0 ==> c.parentID in communityIDs)
    && Translated(identity, h, c) == Membership(
      communityIDs[c.id], c.id, c.level, if c.parentID >= 0 then Some(communityIDs[c.parentID]) else None,
      c.final, c.unsplittable, members[c.id])
  }

  lemma TranslatedByMaps(
      identity: Identity, h: seq<Community>, communityIDs: map<int, CommunityID>, members: map<int, seq<EntityID>>, c: Community)
    requires ValidHierarchy(h) && Identified(identity, h, communityIDs, members) && c in h
    ensures ByMaps(identity, h, communityIDs, members, c)
  {
    assert LocallyValid(c);
    TranslatedParent(identity, h, c);
    if c.level != 0 {
      var p :| p in h && IsParent(p, c);
    }
  }

  method TranslateCommunities(
      identity: Identity, h: seq<Community>, communityIDs: map<int, CommunityID>, members: map<int, seq<EntityID>>)
    returns (communities: seq<Membership>)
    requires forall i :: 0 <= i < |h| ==> ByMaps(identity, h, communityIDs, members, h[i])
    ensures communities == Unsorted(identity, h)
  {
    communities := [];
    for i := 0 to |h|
      invariant |communities| == i && forall k :: 0 <= k < i ==> communities[k] == Translated(identity, h, h[k])
    {
      var detected := h[i];
      assert ByMaps(identity, h, communityIDs, members, detected);
      var parentID: Option<CommunityID> := None;
      if detected.parentID >= 0 {
        parentID := Some(communityIDs[detected.parentID]);
      }
      communities := communities + [Membership(
        communityIDs[detected.id], detected.id, detected.level, parentID,
        detected.final, detected.unsplittable, members[detected.id])];
    }
  }

  lemma SortedReferences(references: seq<EntityID>)
    ensures (set e | e in Sort(references, AtMost)) == (set e | e in references)
    ensures Sort(references, AtMost) != [] && Ascending(Sort(references, AtMost)) <==> references != [] && NoDuplicates(references)
  {
    SortMembers(references);
    forall e ensures e in Sort(references, AtMost) <==> e in references { SortMembers(references); }
  }

  // `m` is how a community is stored among `ms`: its members in strict order, its identity theirs,
  // and its parent named by the identity of the membership that has the parent's number.
  ghost predicate StoredAs(identity: Identity, ms: seq<Membership>, c: Community, m: Membership) {
    && m.number == c.id && m.level == c.level && m.final == c.final && m.unsplittable == c.unsplittable
    && (forall node :: node in m.entityIDs <==> node in c.nodes)
    && (forall i, j :: 0 <= i < j < |m.entityIDs| ==> m.entityIDs[i] < m.entityIDs[j])
    && m.id == identity(m.entityIDs)
    && if c.level == 0 then m.parentID == None
       else exists p :: p in ms && p.number == c.parentID && m.parentID == Some(p.id)
  }

  ghost predicate Ascend(ms: seq<Membership>) {
    forall i, j :: 0 <= i < j < |ms| ==>
      ms[i].level < ms[j].level || (ms[i].level == ms[j].level && ms[i].number < ms[j].number)
  }

  // One membership per community, by level and number.
  ghost predicate StoredAll(identity: Identity, h: seq<Community>, ms: seq<Membership>) {
    && |ms| == |h|
    && Ascend(ms)
    && (forall c :: c in h ==> exists m :: m in ms && StoredAs(identity, ms, c, m))
    && (forall m :: m in ms ==> exists c :: c in h && StoredAs(identity, ms, c, m))
  }

  lemma TranslatedIsStored(identity: Identity, h: seq<Community>, entities: set<EntityID>, c: Community)
    requires ValidHierarchy(h) && Representable(h, entities) && c in h
    ensures StoredAs(identity, Memberships(identity, h), c, Translated(identity, h, c))
  {
    SortMembers(c.nodes);
    TranslatedParent(identity, h, c);
    MembershipElements(identity, h);
    if c.level != 0 {
      var p :| p in h && IsParent(p, c);
      var q := Translated(identity, h, p);
      assert q in Memberships(identity, h) && q.number == c.parentID && q.id == IdentityOf(identity, p);
    }
  }

  lemma MembershipsAreStored(identity: Identity, h: seq<Community>, entities: set<EntityID>)
    requires Injective(identity) && ValidHierarchy(h) && Representable(h, entities)
    ensures StoredAll(identity, h, Memberships(identity, h))
  {
    var ms := Memberships(identity, h);
    MembershipElements(identity, h);
    MembershipsAscend(identity, h, entities);
    forall c | c in h ensures Translated(identity, h, c) in ms && StoredAs(identity, ms, c, Translated(identity, h, c)) {
      TranslatedIsStored(identity, h, entities, c);
    }
    forall m | m in ms ensures exists c :: c in h && StoredAs(identity, ms, c, m) {
      var c :| c in h && m == Translated(identity, h, c);
      assert StoredAs(identity, ms, c, m);
    }
  }

  lemma MembershipsAscend(identity: Identity, h: seq<Community>, entities: set<EntityID>)
    requires Injective(identity) && ValidHierarchy(h) && Representable(h, entities)
    ensures Ascend(Memberships(identity, h))
  {
    var ms := Memberships(identity, h);
    TranslationIsOrdered(identity, h, entities);
    forall i, j | 0 <= i < j < |ms|
      ensures ms[i].level < ms[j].level || (ms[i].level == ms[j].level && ms[i].number < ms[j].number)
    {
      assert MemberBefore(ms[i], ms[j]);
    }
  }

  // Stores exactly the valid, representable hierarchies, as their sorted memberships.
  method NewCommunitySet(identity: Identity, h: seq<Community>, references: seq<EntityID>)
    returns (result: Option<seq<Membership>>)
    requires Injective(identity)
    ensures result.Some? <==>
      && ValidHierarchy(h) && references != [] && NoDuplicates(references)
      && Representable(h, set e | e in references)
    ensures result.Some? ==> result.value == Memberships(identity, h) && StoredAll(identity, h, result.value)
  {
    var valid := Validate(h);
    if !valid { return None; }
    var entities := Sort(references, AtMost);
    SortedReferences(references);
    result := None;
    var identified, communityIDs, members := IdentifyCommunities(identity, h);
    if identified {
      forall i | 0 <= i < |h| ensures ByMaps(identity, h, communityIDs, members, h[i]) {
        TranslatedByMaps(identity, h, communityIDs, members, h[i]);
      }
      var communities := TranslateCommunities(identity, h, communityIDs, members);
      communities := Sort(communities, MemberAtMost);
      TranslationIsValid(identity, h, set e | e in references);
      var stored := ValidateCommunitySet(identity, communities, entities);
      if stored {
        MembershipsAreStored(identity, h, set e | e in references);
        result := Some(communities);
      }
    }
  }

  // ---------------------------------------------------------------------------------------
  // The report generator's own validator, which never rebuilds the hierarchy.

  ghost function FinalMembers(ms: seq<Membership>): multiset<EntityID> {
    if ms == [] then multiset{}
    else
      var last := ms[|ms| - 1];
      FinalMembers(ms[..|ms| - 1]) + (if last.final then multiset(last.entityIDs) else multiset{})
  }

  ghost predicate IsRootMember(ms: seq<Membership>, entity: EntityID) {
    exists m :: m in ms && m.level == 0 && entity in m.entityIDs
  }

  ghost predicate ContainedInParent(ms: seq<Membership>, m: Membership) {
    if m.parentID.None? then m.level == 0
    else exists p :: p in ms && IsParentOf(p, m) && Contained(m.entityIDs, p.entityIDs)
  }

  ghost predicate HasChildMember(ms: seq<Membership>, id: CommunityID) {
    exists m :: m in ms && m.parentID == Some(id)
  }

  ghost predicate ValidForReports(ms: seq<Membership>, entities: set<EntityID>) {
    && ms != []
    && Indexable(ms, entities)
    && (forall n :: 0 <= n < |ms| ==> Numbered(ms, n))
    && (forall m :: m in ms ==> ContainedInParent(ms, m))
    && (forall m :: m in ms ==> (m.final <==> !HasChildMember(ms, m.id)))
    && (forall entity :: IsRootMember(ms, entity) ==> FinalMembers(ms)[entity] == 1)
  }

  method CountMembers(ms: seq<Membership>) returns (roots: set<EntityID>, finals: map<EntityID, nat>)
    ensures forall e :: e in roots <==> IsRootMember(ms, e)
    ensures forall e :: Count(finals, e) == FinalMembers(ms)[e]
  {
    roots, finals := {}, map[];
    for i := 0 to |ms|
      invariant forall e :: e in roots <==> IsRootMember(ms[..i], e)
      invariant forall e :: Count(finals, e) == FinalMembers(ms[..i])[e]
    {
      assert ms[..i + 1] == ms[..i] + [ms[i]];
      if ms[i].level == 0 { roots := roots + set e | e in ms[i].entityIDs; }
      if ms[i].final { finals := CountNodes(finals, ms[i].entityIDs); }
    }
    assert ms[..|ms|] == ms;
  }

  method CheckContainment(ms: seq<Membership>, byID: map<CommunityID, Membership>)
    returns (ok: bool, children: map<CommunityID, nat>)
    requires MemberIndex(ms, byID)
    ensures ok <==> forall m :: m in ms ==> ContainedInParent(ms, m)
    ensures ok ==> forall id :: Count(children, id) > 0 <==> HasChildMember(ms, id)
  {
    ok, children := false, map[];
    for i := 0 to |ms|
      invariant !ok && forall m :: m in ms[..i] ==> ContainedInParent(ms, m)
      invariant forall id :: Count(children, id) > 0 <==> HasChildMember(ms[..i], id)
    {
      var current := ms[i];
      assert current in ms && ms[..i + 1] == ms[..i] + [current];
      if current.parentID.None? {
        if current.level != 0 { return; }
        assert ContainedInParent(ms, current);
        continue;
      }
      if current.parentID.value !in byID { return; }
      var parent := byID[current.parentID.value];
      if parent.level >= current.level { return; }
      var contained := NodesContained(current.entityIDs, parent.entityIDs);
      if !contained { return; }
      assert parent.id == current.parentID.value && current.parentID == Some(parent.id);
      assert parent in ms && IsParentOf(parent, current);
      assert Contained(current.entityIDs, parent.entityIDs);
      assert ContainedInParent(ms, current);
      children := children[parent.id := Count(children, parent.id) + 1];
    }
    assert ms[..|ms|] == ms;
    ok := true;
  }

  method ValidateReportCommunities(ms: seq<Membership>, entities: set<EntityID>) returns (ok: bool)
    ensures ok <==> ValidForReports(ms, entities)
  {
    if ms == [] { return false; }
    var indexed, byID := IndexMemberships(ms, entities);
    if !indexed { return false; }
    var rootEntities, finalEntities := CountMembers(ms);
    var contained, children := CheckContainment(ms, byID);
    if !contained { return false; }
    for i := 0 to |ms|
      invariant forall m :: m in ms[..i] ==> (m.final <==> !HasChildMember(ms, m.id))
    {
      assert ms[i] in ms && ms[..i + 1] == ms[..i] + [ms[i]];
      if ms[i].final == (Count(children, ms[i].id) > 0) { return false; }
    }
    assert ms[..|ms|] == ms;
    ok := EachCountedOnce(rootEntities, finalEntities);
  }

  // ---------------------------------------------------------------------------------------
  // The two validators agree.

  lemma {:induction false} FinalsAgree(all: seq<Membership>, ms: seq<Membership>)
    ensures FinalNodes(seq(|ms|, i requires 0 <= i < |ms| => Detected(all, ms[i]))) == FinalMembers(ms)
  {
    if ms == [] {
    } else {
      var d := seq(|ms|, i requires 0 <= i < |ms| => Detected(all, ms[i]));
      var before := ms[..|ms| - 1];
      FinalsAgree(all, before);
      assert d[..|d| - 1] == seq(|before|, i requires 0 <= i < |before| => Detected(all, before[i]));
    }
  }

  lemma RebuiltMembers(ms: seq<Membership>)
    ensures forall m :: m in ms ==> Detected(ms, m) in Rebuilt(ms)
    ensures forall c :: c in Rebuilt(ms) ==> exists m :: m in ms && c == Detected(ms, m)
  {
    forall m | m in ms ensures Detected(ms, m) in Rebuilt(ms) { InRebuilt(ms, m); }
    forall c | c in Rebuilt(ms) ensures exists m :: m in ms && c == Detected(ms, m) {
      var i :| 0 <= i < |Rebuilt(ms)| && Rebuilt(ms)[i] == c;
      assert ms[i] in ms;
    }
  }

  // Parenthood by identity among memberships is parenthood by number in the rebuilt hierarchy.
  lemma ParenthoodAgrees(ms: seq<Membership>, entities: set<EntityID>, p: Membership, m: Membership)
    requires Indexable(ms, entities) && p in ms && m in ms && ParentResolves(ms, m)
    ensures m.parentID == Some(p.id) <==> m.level != 0 && Detected(ms, m).parentID == p.number
  {
    if m.parentID.Some? {
      var q :| q in ms && IsParentOf(q, m);
      forall r | r in ms && r.id == m.parentID.value ensures r == q {}
    }
  }

  lemma ChildrenAgree(ms: seq<Membership>, entities: set<EntityID>, p: Membership)
    requires Indexable(ms, entities) && p in ms && forall m :: m in ms ==> ParentResolves(ms, m)
    ensures HasChildMember(ms, p.id) <==> HasChild(Rebuilt(ms), p.number)
  {
    RebuiltMembers(ms);
    if m :| m in ms && m.parentID == Some(p.id) {
      ParenthoodAgrees(ms, entities, p, m);
      assert Detected(ms, m) in Rebuilt(ms);
    }
    if c :| c in Rebuilt(ms) && c.level != 0 && c.parentID == p.number {
      var m :| m in ms && c == Detected(ms, m);
      ParenthoodAgrees(ms, entities, p, m);
    }
  }

  lemma ContainedHasParent(ms: seq<Membership>, entities: set<EntityID>, m: Membership)
    requires Indexable(ms, entities) && m in ms && m.parentID.Some? && ContainedInParent(ms, m)
    ensures HasParent(Rebuilt(ms), Detected(ms, m))
  {
    var p :| p in ms && IsParentOf(p, m) && Contained(m.entityIDs, p.entityIDs);
    assert ParentResolves(ms, m);
    ParenthoodAgrees(ms, entities, p, m);
    InRebuilt(ms, p);
    assert IsParent(Detected(ms, p), Detected(ms, m));
  }

  lemma ContainmentAgrees(ms: seq<Membership>, entities: set<EntityID>, m: Membership)
    requires Indexable(ms, entities) && m in ms && ParentResolves(ms, m)
    ensures ContainedInParent(ms, m) <==> (m.level != 0 ==> HasParent(Rebuilt(ms), Detected(ms, m)))
    ensures LocallyValid(Detected(ms, m))
  {
    if m.parentID.Some? {
      if ContainedInParent(ms, m) { ContainedHasParent(ms, entities, m); }
    }
  }

  lemma RootsAgree(ms: seq<Membership>, entity: EntityID)
    ensures IsRootMember(ms, entity) <==> IsRootNode(Rebuilt(ms), entity)
  {
    RebuiltMembers(ms);
    if m :| m in ms && m.level == 0 && entity in m.entityIDs { assert Detected(ms, m) in Rebuilt(ms); }
    if c :| c in Rebuilt(ms) && c.level == 0 && entity in c.nodes {
      var m :| m in ms && c == Detected(ms, m);
    }
  }

  // Membership by membership, the report checks say what the hierarchy checks say.
  ghost predicate Corresponds(ms: seq<Membership>) {
    && UniqueIDs(Rebuilt(ms))
    && (forall m :: m in ms ==>
      && LocallyValid(Detected(ms, m))
      && (ContainedInParent(ms, m) <==> (m.level != 0 ==> HasParent(Rebuilt(ms), Detected(ms, m))))
      && (HasChildMember(ms, m.id) <==> HasChild(Rebuilt(ms), m.number)))
    && FinalNodes(Rebuilt(ms)) == FinalMembers(ms)
    && (forall e :: IsRootMember(ms, e) <==> IsRootNode(Rebuilt(ms), e))
  }

  lemma ResolvedCorresponds(ms: seq<Membership>, entities: set<EntityID>)
    requires Indexable(ms, entities) && forall m :: m in ms ==> ParentResolves(ms, m)
    ensures Corresponds(ms)
  {
    FinalsAgree(ms, ms);
    forall m | m in ms
      ensures ContainedInParent(ms, m) <==> (m.level != 0 ==> HasParent(Rebuilt(ms), Detected(ms, m)))
      ensures LocallyValid(Detected(ms, m))
      ensures HasChildMember(ms, m.id) <==> HasChild(Rebuilt(ms), m.number)
    {
      ContainmentAgrees(ms, entities, m);
      ChildrenAgree(ms, entities, m);
    }
    forall e ensures IsRootMember(ms, e) <==> IsRootNode(Rebuilt(ms), e) { RootsAgree(ms, e); }
  }

  lemma ReportsImplyHierarchy(ms: seq<Membership>, entities: set<EntityID>)
    requires Corresponds(ms) && ValidForReports(ms, entities)
    ensures ValidHierarchy(Rebuilt(ms))
  {
    RebuiltMembers(ms);
  }

  lemma HierarchyImpliesReports(ms: seq<Membership>, entities: set<EntityID>)
    requires Corresponds(ms) && ValidHierarchy(Rebuilt(ms))
    requires Indexable(ms, entities) && forall n :: 0 <= n < |ms| ==> Numbered(ms, n)
    ensures ValidForReports(ms, entities)
  {
    RebuiltMembers(ms);
    forall m | m in ms ensures ContainedInParent(ms, m) && (m.final <==> !HasChildMember(ms, m.id)) {
      assert Detected(ms, m) in Rebuilt(ms);
    }
  }

  // Accepting memberships for reports is accepting the hierarchy they stand for.
  lemma ReportsAgreeWithHierarchy(ms: seq<Membership>, entities: set<EntityID>)
    requires ms != [] && Indexable(ms, entities) && forall n :: 0 <= n < |ms| ==> Numbered(ms, n)
    ensures ValidForReports(ms, entities) <==>
      (forall m :: m in ms ==> ParentResolves(ms, m)) && ValidHierarchy(Rebuilt(ms))
  {
    if forall m :: m in ms ==> ParentResolves(ms, m) {
      ResolvedCorresponds(ms, entities);
      if ValidForReports(ms, entities) { ReportsImplyHierarchy(ms, entities); }
      if ValidHierarchy(Rebuilt(ms)) { HierarchyImpliesReports(ms, entities); }
    } else {
      var m :| m in ms && !ParentResolves(ms, m);
      assert !ContainedInParent(ms, m);
    }
  }

  // What was stored is accepted by the report generator; conversely, accepted memberships
  // whose identities match their members are a storable CommunitySet.
  lemma ValidatorsAgree(identity: Identity, ms: seq<Membership>, entities: set<EntityID>)
    ensures ValidMemberships(identity, ms, entities) <==>
      ValidForReports(ms, entities) && forall m :: m in ms ==> m.id == identity(m.entityIDs)
  {
    if ms != [] && Indexable(ms, entities) && forall n :: 0 <= n < |ms| ==> Numbered(ms, n) {
      ReportsAgreeWithHierarchy(ms, entities);
    }
  }

  // A stored hierarchy passes every later validation, and rebuilding gives it back.
  lemma StoredHierarchyStaysValid(identity: Identity, h: seq<Community>, entities: set<EntityID>)
    requires Injective(identity) && ValidHierarchy(h) && Representable(h, entities)
    ensures ValidMemberships(identity, Memberships(identity, h), entities)
    ensures ValidForReports(Memberships(identity, h), entities)
    ensures Rebuilt(Memberships(identity, h)) == SortedHierarchy(h)
  {
    TranslationIsValid(identity, h, entities);
    ValidatorsAgree(identity, Memberships(identity, h), entities);
    RebuildInvertsTranslation(identity, h, entities);
  }
}
