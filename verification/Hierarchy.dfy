/**
 Validation of a detected community hierarchy (community/validation.go), and what acceptance
 guarantees: a forest whose final communities partition the root nodes.
 */
module Hierarchy {
  import opened Sets
  import opened Sorting

  type EntityID = int

  datatype Community = Community(
    id: int, level: int, parentID: int, nodes: seq<EntityID>, final: bool, unsplittable: bool)

  // All memberships in final communities, with multiplicity.
  ghost function FinalNodes(h: seq<Community>): multiset<EntityID> {
    if h == [] then multiset{}
    else
      var last := h[|h| - 1];
      FinalNodes(h[..|h| - 1]) + (if last.final then multiset(last.nodes) else multiset{})
  }

  ghost predicate IsRootNode(h: seq<Community>, node: EntityID) {
    exists c :: c in h && c.level == 0 && node in c.nodes
  }

  ghost predicate Contained(nodes: seq<EntityID>, parent: seq<EntityID>) {
    forall node :: node in nodes ==> node in parent
  }

  ghost predicate Disjoint(a: seq<EntityID>, b: seq<EntityID>) {
    forall node :: node in a ==> node !in b
  }

  ghost predicate IsParent(p: Community, c: Community) {
    c.level != 0 && p.id == c.parentID && p.level < c.level && Contained(c.nodes, p.nodes)
  }

  ghost predicate HasParent(h: seq<Community>, c: Community) {
    exists p :: p in h && IsParent(p, c)
  }

  ghost predicate HasChild(h: seq<Community>, id: int) {
    exists d :: d in h && d.level != 0 && d.parentID == id
  }

  ghost predicate UniqueIDs(h: seq<Community>) {
    forall i, j :: 0 <= i < j < |h| ==> h[i].id != h[j].id
  }

  ghost predicate LocallyValid(c: Community) {
    c.nodes != [] && (if c.level == 0 then c.parentID == -1 else c.parentID >= 0)
  }

  ghost predicate ValidHierarchy(h: seq<Community>) {
    && h != []
    && UniqueIDs(h)
    && (forall c :: c in h ==> LocallyValid(c))
    && (forall c :: c in h && c.level != 0 ==> HasParent(h, c))
    && (forall c :: c in h ==> (c.final <==> !HasChild(h, c.id)))
    && (forall node :: IsRootNode(h, node) ==> FinalNodes(h)[node] == 1)
  }

  // ---------------------------------------------------------------------------------------
  // The validator's passes.

  method NodesContained(nodes: seq<EntityID>, parentNodes: seq<EntityID>) returns (ok: bool)
    ensures ok <==> Contained(nodes, parentNodes)
  {
    var parent: set<EntityID> := set node | node in parentNodes;
    for i := 0 to |nodes|
      invariant Contained(nodes[..i], parentNodes)
    {
      var node := nodes[i];
      if node !in parent {
        assert node in nodes && node !in parentNodes;
        return false;
      }
    }
    assert nodes[..|nodes|] == nodes;
    return true;
  }

  function Count(counts: map<int, nat>, key: int): nat {
    if key in counts then counts[key] else 0
  }

  method CountNodes(counts: map<EntityID, nat>, nodes: seq<EntityID>) returns (result: map<EntityID, nat>)
    ensures forall node :: Count(result, node) == Count(counts, node) + multiset(nodes)[node]
  {
    result := counts;
    for i := 0 to |nodes|
      invariant forall node :: Count(result, node) == Count(counts, node) + multiset(nodes[..i])[node]
    {
      assert nodes[..i + 1] == nodes[..i] + [nodes[i]];
      result := result[nodes[i] := Count(result, nodes[i]) + 1];
    }
    assert nodes[..|nodes|] == nodes;
  }

  ghost predicate IndexedBy(h: seq<Community>, byID: map<int, Community>) {
    && (forall c :: c in h ==> c.id in byID && byID[c.id] == c)
    && (forall id :: id in byID ==> byID[id] in h && byID[id].id == id)
  }

  ghost predicate Tallied(h: seq<Community>, rootNodes: set<EntityID>, finalNodes: map<EntityID, nat>) {
    && (forall node :: node in rootNodes <==> IsRootNode(h, node))
    && (forall node :: Count(finalNodes, node) == FinalNodes(h)[node])
  }

  lemma IndexGrows(h: seq<Community>, byID: map<int, Community>, c: Community)
    requires UniqueIDs(h) && IndexedBy(h, byID)
    ensures c.id in byID ==> !UniqueIDs(h + [c])
    ensures c.id !in byID ==> UniqueIDs(h + [c]) && IndexedBy(h + [c], byID[c.id := c])
  {
    if c.id in byID {
      var j :| 0 <= j < |h| && h[j] == byID[c.id];
      assert (h + [c])[j].id == (h + [c])[|h|].id;
    } else {
      forall i | 0 <= i < |h| ensures h[i].id != c.id { assert h[i] in h; }
    }
  }

  method Tally(ghost h: seq<Community>, current: Community, roots: set<EntityID>, finals: map<EntityID, nat>)
    returns (rootNodes: set<EntityID>, finalNodes: map<EntityID, nat>)
    requires Tallied(h, roots, finals)
    ensures Tallied(h + [current], rootNodes, finalNodes)
  {
    RootNodesGrow(h, current);
    FinalNodesGrow(h, current);
    rootNodes, finalNodes := roots, finals;
    if current.level == 0 {
      rootNodes := rootNodes + set node | node in current.nodes;
    }
    if current.final {
      finalNodes := CountNodes(finalNodes, current.nodes);
    }
  }

  // First pass: identities, roots and final memberships.
  method IndexCommunities(h: seq<Community>)
    returns (ok: bool, byID: map<int, Community>, rootNodes: set<EntityID>, finalNodes: map<EntityID, nat>)
    ensures ok <==> UniqueIDs(h) && forall c :: c in h ==> LocallyValid(c)
    ensures ok ==> IndexedBy(h, byID) && Tallied(h, rootNodes, finalNodes)
  {
    ok, byID, rootNodes, finalNodes := false, map[], {}, map[];
    for i := 0 to |h|
      invariant !ok && UniqueIDs(h[..i]) && IndexedBy(h[..i], byID) && Tallied(h[..i], rootNodes, finalNodes)
      invariant forall c :: c in h[..i] ==> LocallyValid(c)
    {
      var current := h[i];
      assert current in h && h[..i + 1] == h[..i] + [current];
      IndexGrows(h[..i], byID, current);
      if current.id in byID {
        PrefixUnique(h, i + 1);
        return;
      }
      if current.nodes == [] { return; }
      if current.level == 0 {
        if current.parentID != -1 { return; }
      } else if current.parentID < 0 {
        return;
      }
      assert LocallyValid(current);
      byID := byID[current.id := current];
      rootNodes, finalNodes := Tally(h[..i], current, rootNodes, finalNodes);
    }
    assert h[..|h|] == h;
    ok := true;
  }

  lemma PrefixUnique(h: seq<Community>, n: nat)
    requires n <= |h|
    ensures UniqueIDs(h) ==> UniqueIDs(h[..n])
  {
  }

  lemma FinalNodesGrow(h: seq<Community>, c: Community)
    ensures FinalNodes(h + [c]) == FinalNodes(h) + (if c.final then multiset(c.nodes) else multiset{})
  {
    assert (h + [c])[..|h|] == h;
  }

  lemma RootNodesGrow(h: seq<Community>, c: Community)
    ensures forall node :: IsRootNode(h + [c], node) <==> IsRootNode(h, node) || (c.level == 0 && node in c.nodes)
  {
    forall node ensures IsRootNode(h + [c], node) <==> IsRootNode(h, node) || (c.level == 0 && node in c.nodes) {
      if IsRootNode(h, node) {
        var d :| d in h && d.level == 0 && node in d.nodes;
        assert d in h + [c];
      }
      if c.level == 0 && node in c.nodes { assert c in h + [c]; }
    }
  }

  lemma {:induction false} FinalNodesConcat(g: seq<Community>, h: seq<Community>)
    ensures FinalNodes(g + h) == FinalNodes(g) + FinalNodes(h)
  {
    if h == [] {
      assert g + h == g;
    } else {
      var before, last := h[..|h| - 1], h[|h| - 1];
      assert h == before + [last] && g + h == (g + before) + [last];
      FinalNodesConcat(g, before);
      FinalNodesGrow(before, last);
      FinalNodesGrow(g + before, last);
    }
  }

  // Second pass: every community above level zero descends from an earlier level.
  // The checks of one parent, and whether they hold.
  method CheckParent(ghost h: seq<Community>, byID: map<int, Community>, current: Community) returns (ok: bool)
    requires IndexedBy(h, byID) && current.level != 0
    ensures ok <==> HasParent(h, current)
    ensures ok ==> current.parentID in byID && byID[current.parentID].id == current.parentID
  {
    ParentIsIndexed(h, byID, current);
    if current.parentID !in byID { return false; }
    var parent := byID[current.parentID];
    if parent.level >= current.level { return false; }
    ok := NodesContained(current.nodes, parent.nodes);
  }

  method CheckParents(h: seq<Community>, byID: map<int, Community>) returns (ok: bool, children: map<int, nat>)
    requires IndexedBy(h, byID)
    ensures ok <==> forall c :: c in h && c.level != 0 ==> HasParent(h, c)
    ensures ok ==> forall id :: Count(children, id) > 0 <==> HasChild(h, id)
  {
    ok, children := true, map[];
    for i := 0 to |h|
      invariant forall c :: c in h[..i] && c.level != 0 ==> HasParent(h, c)
      invariant forall id :: Count(children, id) > 0 <==> HasChild(h[..i], id)
    {
      var current := h[i];
      assert current in h && h[..i + 1] == h[..i] + [current];
      ChildrenGrow(h[..i], current);
      if current.level == 0 { continue; }
      var contained := CheckParent(h, byID, current);
      if !contained { return false, children; }
      var parent := byID[current.parentID];
      children := children[parent.id := Count(children, parent.id) + 1];
    }
    assert h[..|h|] == h;
  }

  lemma ParentIsIndexed(h: seq<Community>, byID: map<int, Community>, c: Community)
    requires IndexedBy(h, byID)
    ensures HasParent(h, c) <==> c.parentID in byID && IsParent(byID[c.parentID], c)
  {
    if HasParent(h, c) {
      var p :| p in h && IsParent(p, c);
    }
  }

  lemma ChildrenGrow(h: seq<Community>, c: Community)
    ensures forall id :: HasChild(h + [c], id) <==> HasChild(h, id) || (c.level != 0 && c.parentID == id)
  {
    forall id ensures HasChild(h + [c], id) <==> HasChild(h, id) || (c.level != 0 && c.parentID == id) {
      if HasChild(h, id) {
        var d :| d in h && d.level != 0 && d.parentID == id;
        assert d in h + [c];
      }
      if c.level != 0 && c.parentID == id { assert c in h + [c]; }
    }
  }

  // Hierarchy.Validate: accepts exactly the valid hierarchies.
  method Validate(h: seq<Community>) returns (ok: bool)
    ensures ok <==> ValidHierarchy(h)
  {
    if h == [] { return false; }
    var indexed, byID, rootNodes, finalNodes := IndexCommunities(h);
    if !indexed { return false; }
    var parented, children := CheckParents(h, byID);
    if !parented { return false; }
    for i := 0 to |h|
      invariant forall c :: c in h[..i] ==> (c.final <==> !HasChild(h, c.id))
    {
      assert h[i] in h && h[..i + 1] == h[..i] + [h[i]];
      if h[i].final == (Count(children, h[i].id) > 0) { return false; }
    }
    assert h[..|h|] == h;
    ok := EachCountedOnce(rootNodes, finalNodes);
  }

  method EachCountedOnce(keys: set<int>, counts: map<int, nat>) returns (ok: bool)
    ensures ok <==> forall key :: key in keys ==> Count(counts, key) == 1
  {
    var remaining := keys;
    while remaining != {}
      invariant remaining <= keys
      invariant forall key :: key in keys && key !in remaining ==> Count(counts, key) == 1
    {
      ghost var member := HasMember(remaining);
      var key: int :| key in remaining;
      if Count(counts, key) != 1 { return false; }
      remaining := remaining - {key};
    }
    return true;
  }

  // ---------------------------------------------------------------------------------------
  // What acceptance guarantees.

  lemma {:induction false} LevelsAreNonNegative(h: seq<Community>, c: Community)
    requires ValidHierarchy(h) && c in h
    ensures c.level >= 0
    decreases |Below(h, c.level)|
  {
    if c.level < 0 {
      var p :| p in h && IsParent(p, c);
      assert p in Below(h, c.level) && p !in Below(h, p.level);
      SmallerSet(Below(h, p.level), Below(h, c.level));
      LevelsAreNonNegative(h, p);
    }
  }

  ghost function Below(h: seq<Community>, level: int): set<Community> {
    set d | d in h && d.level < level
  }

  // A descending chain of parents that ends in a root; the nodes of the start lie in every link.
  ghost predicate IsAncestry(h: seq<Community>, chain: seq<Community>) {
    && chain != []
    && (forall k :: 0 <= k < |chain| ==> chain[k] in h && Contained(chain[0].nodes, chain[k].nodes))
    && (forall k :: 0 <= k < |chain| - 1 ==> IsParent(chain[k + 1], chain[k]))
    && chain[|chain| - 1].level == 0
  }

  lemma {:induction false} EveryChainReachesARoot(h: seq<Community>, c: Community) returns (chain: seq<Community>)
    requires ValidHierarchy(h) && c in h
    ensures IsAncestry(h, chain) && chain[0] == c
    decreases c.level
  {
    LevelsAreNonNegative(h, c);
    if c.level == 0 {
      chain := [c];
    } else {
      var p :| p in h && IsParent(p, c);
      LevelsAreNonNegative(h, p);
      var rest := EveryChainReachesARoot(h, p);
      chain := [c] + rest;
      forall k | 0 <= k < |chain| ensures chain[k] in h && Contained(c.nodes, chain[k].nodes) {
        if k > 0 { assert Contained(p.nodes, rest[k - 1].nodes); }
      }
      forall k | 0 <= k < |chain| - 1 ensures IsParent(chain[k + 1], chain[k]) {
        if k > 0 { assert IsParent(rest[k - 1 + 1], rest[k - 1]); }
      }
    }
  }

  // Parents are determined by identity, so the chains are the paths of a forest.
  lemma ParentIsUnique(h: seq<Community>, c: Community, p: Community, q: Community)
    requires ValidHierarchy(h) && p in h && q in h && IsParent(p, c) && IsParent(q, c)
    ensures p == q
  {
    var i :| 0 <= i < |h| && h[i] == p;
    var j :| 0 <= j < |h| && h[j] == q;
    assert i == j;
  }

  lemma RootExists(h: seq<Community>) returns (root: Community)
    requires ValidHierarchy(h)
    ensures root in h && root.level == 0
  {
    var chain := EveryChainReachesARoot(h, h[0]);
    root := chain[|chain| - 1];
  }

  lemma {:induction false} FinalNodesHaveOwner(h: seq<Community>, node: EntityID)
    ensures FinalNodes(h)[node] > 0 <==> exists c :: c in h && c.final && node in c.nodes
  {
    if h == [] {
    } else {
      var before, last := h[..|h| - 1], h[|h| - 1];
      FinalNodesHaveOwner(before, node);
      assert h == before + [last];
      if c :| c in h && c.final && node in c.nodes {
        assert c in before || c == last;
      }
      if FinalNodes(h)[node] > 0 {
        if c :| c in before && c.final && node in c.nodes {
          assert c in h;
        } else {
          assert last in h && last.final && node in last.nodes;
        }
      }
    }
  }

  lemma {:induction false} FinalNodesHoldOne(h: seq<Community>, i: nat, node: EntityID)
    requires i < |h| && h[i].final
    ensures multiset(h[i].nodes)[node] <= FinalNodes(h)[node]
  {
    if i < |h| - 1 { FinalNodesHoldOne(h[..|h| - 1], i, node); }
  }

  lemma {:induction false} FinalNodesHoldTwo(h: seq<Community>, i: nat, j: nat, node: EntityID)
    requires i < j < |h| && h[i].final && h[j].final
    ensures multiset(h[i].nodes)[node] + multiset(h[j].nodes)[node] <= FinalNodes(h)[node]
  {
    if j < |h| - 1 {
      FinalNodesHoldTwo(h[..|h| - 1], i, j, node);
    } else {
      FinalNodesHoldOne(h[..|h| - 1], i, node);
    }
  }

  // The final communities are duplicate-free and pairwise disjoint, and together they hold
  // exactly the nodes of the roots.
  lemma FinalsPartitionRootNodes(h: seq<Community>)
    requires ValidHierarchy(h)
    ensures forall i :: 0 <= i < |h| && h[i].final ==> NoDuplicates(h[i].nodes)
    ensures forall i, j, node :: 0 <= i < j < |h| && h[i].final && h[j].final && node in h[i].nodes ==> node !in h[j].nodes
    ensures forall node :: IsRootNode(h, node) <==> exists c :: c in h && c.final && node in c.nodes
  {
    forall node ensures FinalNodes(h)[node] <= 1 && (FinalNodes(h)[node] == 1 <==> IsRootNode(h, node)) {
      FinalNodesHaveOwner(h, node);
      if FinalNodes(h)[node] > 0 {
        var c :| c in h && c.final && node in c.nodes;
        var chain := EveryChainReachesARoot(h, c);
        assert Contained(chain[0].nodes, chain[|chain| - 1].nodes);
        assert IsRootNode(h, node);
      }
    }
    forall i | 0 <= i < |h| && h[i].final ensures NoDuplicates(h[i].nodes) {
      forall node ensures multiset(h[i].nodes)[node] <= 1 { FinalNodesHoldOne(h, i, node); }
      NoDuplicatesIsMultiset(h[i].nodes);
    }
    forall i, j, node | 0 <= i < j < |h| && h[i].final && h[j].final && node in h[i].nodes ensures node !in h[j].nodes {
      FinalNodesHoldTwo(h, i, j, node);
      assert node in multiset(h[i].nodes);
      assert node !in multiset(h[j].nodes);
    }
    forall node ensures IsRootNode(h, node) <==> exists c :: c in h && c.final && node in c.nodes {
      FinalNodesHaveOwner(h, node);
    }
  }

  // Acceptance does not make siblings disjoint: a community that is split further may share
  // nodes with its sibling as long as its own children leave them out.
  lemma SiblingsMayOverlap() returns (h: seq<Community>)
    ensures ValidHierarchy(h)
    ensures exists c, d :: c in h && d in h && c != d && c.parentID == d.parentID == 0 && !Disjoint(c.nodes, d.nodes)
  {
    var root := Community(0, 0, -1, [1, 2, 3], false, false);
    var left := Community(1, 1, 0, [1, 2], false, false);
    var right := Community(2, 1, 0, [2, 3], true, false);
    var leaf := Community(3, 2, 1, [1], true, false);
    h := [root, left, right, leaf];
    ExampleIsValid(root, left, right, leaf);
    assert h[1] == left && h[2] == right;
    var shared := left.nodes[1];
    assert shared in left.nodes && shared in right.nodes;
    assert !Disjoint(left.nodes, right.nodes);
  }

  lemma ExampleIsValid(root: Community, left: Community, right: Community, leaf: Community)
    requires root == Community(0, 0, -1, [1, 2, 3], false, false) && left == Community(1, 1, 0, [1, 2], false, false)
    requires right == Community(2, 1, 0, [2, 3], true, false) && leaf == Community(3, 2, 1, [1], true, false)
    ensures ValidHierarchy([root, left, right, leaf])
  {
    var h := [root, left, right, leaf];
    ExampleFinals(root, left, right, leaf);
    ExampleParents(root, left, right, leaf);
    forall node | IsRootNode(h, node) ensures FinalNodes(h)[node] == 1 {
      assert node in root.nodes;
    }
  }

  lemma ExampleParents(root: Community, left: Community, right: Community, leaf: Community)
    requires root.id == 0 && left.id == 1 && right.id == 2 && leaf.id == 3
    requires root.level == 0 && IsParent(root, left) && IsParent(root, right) && IsParent(left, leaf)
    ensures
      var h := [root, left, right, leaf];
      && UniqueIDs(h) && (forall c :: c in h && c.level != 0 ==> HasParent(h, c))
      && HasChild(h, 0) && HasChild(h, 1) && !HasChild(h, 2) && !HasChild(h, 3)
  {
    var h := [root, left, right, leaf];
    assert h[0] == root && h[1] == left && h[2] == right && h[3] == leaf;
    assert HasParent(h, left) && HasParent(h, right) && HasParent(h, leaf);
  }

  lemma ExampleFinals(root: Community, left: Community, right: Community, leaf: Community)
    requires !root.final && !left.final && right.final && leaf.final
    ensures FinalNodes([root, left, right, leaf]) == multiset(right.nodes) + multiset(leaf.nodes)
  {
    FinalNodesGrow([], root);
    FinalNodesGrow([root], left);
    FinalNodesGrow([root, left], right);
    FinalNodesGrow([root, left, right], leaf);
    assert [root, left, right, leaf] == [root, left, right] + [leaf] && [root, left, right] == [root, left] + [right]
      && [root, left] == [root] + [left] && [root] == [] + [root];
  }
}
