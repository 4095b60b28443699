/**
 Edge preparation for community detection (community/graph.go): direction normalization that
 keeps the last weight of every pair, selection of the largest connected component with a
 path-compressing union-find, and the final ordering.
 */
module CommunityGraph {
  import opened Sorting

  type Node = int
  type Weight = real
  datatype Edge = Edge(source: Node, target: Node, weight: Weight)
  datatype Pair = Pair(source: Node, target: Node)

  function OrderedPair(left: Node, right: Node): (pair: Pair)
    ensures (pair.source == left && pair.target == right) || (pair.source == right && pair.target == left)
    ensures pair.source <= pair.target
  {
    if left <= right then Pair(left, right) else Pair(right, left)
  }

  function PairOf(e: Edge): Pair { OrderedPair(e.source, e.target) }

  function Oriented(e: Edge): Edge { Edge(PairOf(e).source, PairOf(e).target, e.weight) }

  // The same unordered pair of ends.
  ghost predicate SameEnds(e: Edge, f: Edge) {
    (e.source == f.source && e.target == f.target) || (e.source == f.target && e.target == f.source)
  }

  // `row` stands for `e`: the same ends in order, and the same weight.
  ghost predicate StandsFor(row: Edge, e: Edge) {
    SameEnds(row, e) && row.source <= row.target && row.weight == e.weight
  }

  // No later edge has the same ends.
  ghost predicate LastOfItsEnds(input: seq<Edge>, k: nat) {
    k < |input| && forall j :: k < j < |input| ==> !SameEnds(input[j], input[k])
  }

  lemma PairIsEnds(e: Edge, f: Edge)
    ensures PairOf(e) == PairOf(f) <==> SameEnds(e, f)
    ensures Oriented(e) == f <==> StandsFor(f, e)
  {
  }

  // ---------------------------------------------------------------------------------------
  // Connectivity: the independent definition the union-find is proved against.

  ghost predicate Linked(edges: seq<Edge>, a: Node, b: Node) {
    exists e :: e in edges && ((e.source == a && e.target == b) || (e.source == b && e.target == a))
  }

  ghost predicate IsPath(edges: seq<Edge>, p: seq<Node>) {
    p != [] && forall k :: 0 <= k < |p| - 1 ==> Linked(edges, p[k], p[k + 1])
  }

  ghost predicate Connected(edges: seq<Edge>, a: Node, b: Node) {
    exists p :: IsPath(edges, p) && p[0] == a && p[|p| - 1] == b
  }

  lemma ConnectedReflexive(edges: seq<Edge>, a: Node)
    ensures Connected(edges, a, a)
  {
    assert IsPath(edges, [a]);
  }

  lemma ConnectedByEdge(edges: seq<Edge>, e: Edge)
    requires e in edges
    ensures Connected(edges, e.source, e.target)
  {
    assert IsPath(edges, [e.source, e.target]);
  }

  lemma ConnectedSymmetric(edges: seq<Edge>, a: Node, b: Node)
    requires Connected(edges, a, b)
    ensures Connected(edges, b, a)
  {
    var p :| IsPath(edges, p) && p[0] == a && p[|p| - 1] == b;
    var q := seq(|p|, i requires 0 <= i < |p| => p[|p| - 1 - i]);
    forall k | 0 <= k < |q| - 1 ensures Linked(edges, q[k], q[k + 1]) {
      assert Linked(edges, p[|p| - 2 - k], p[|p| - 2 - k + 1]);
    }
    assert IsPath(edges, q);
  }

  lemma ConnectedTransitive(edges: seq<Edge>, a: Node, b: Node, c: Node)
    requires Connected(edges, a, b) && Connected(edges, b, c)
    ensures Connected(edges, a, c)
  {
    var p :| IsPath(edges, p) && p[0] == a && p[|p| - 1] == b;
    var q :| IsPath(edges, q) && q[0] == b && q[|q| - 1] == c;
    var r := p + q[1..];
    forall k | 0 <= k < |r| - 1 ensures Linked(edges, r[k], r[k + 1]) {
      if k < |p| - 1 {
        assert Linked(edges, p[k], p[k + 1]);
      } else {
        assert Linked(edges, q[k - |p| + 1], q[k - |p| + 1 + 1]);
      }
    }
    assert IsPath(edges, r);
  }

  // ---------------------------------------------------------------------------------------
  // Union-find.

  // One node's place in the forest: its parent lies strictly higher and leads to the same root.
  ghost predicate Placed(parent: map<Node, Node>, rep: map<Node, Node>, height: map<Node, nat>, bound: nat, x: Node)
    requires x in parent && rep.Keys == parent.Keys && height.Keys == parent.Keys
  {
    && parent[x] in parent && rep[x] in parent
    && rep[parent[x]] == rep[x] && rep[rep[x]] == rep[x]
    && (parent[x] == x <==> rep[x] == x)
    && height[x] <= bound
    && (parent[x] != x ==> height[x] < height[parent[x]])
    && (rep[x] != x ==> height[x] < height[rep[x]])
  }

  ghost predicate IsForest(parent: map<Node, Node>, rep: map<Node, Node>, height: map<Node, nat>, bound: nat) {
    && rep.Keys == parent.Keys && height.Keys == parent.Keys
    && forall x {:trigger Placed(parent, rep, height, bound, x)} :: x in parent ==> Placed(parent, rep, height, bound, x)
  }

  class DisjointSets {
    var parent: map<Node, Node>
    ghost var rep: map<Node, Node>      // the root each node leads to
    ghost var height: map<Node, nat>    // strictly increases along parent pointers: no cycles
    ghost var bound: nat

    ghost predicate Valid()
      reads this
    {
      IsForest(parent, rep, height, bound)
    }

    constructor (nodes: seq<Node>)
      ensures Valid()
      ensures parent.Keys == set x | x in nodes
      ensures forall x :: x in nodes ==> rep[x] == x
    {
      var p: map<Node, Node> := map[];
      for i := 0 to |nodes|
        invariant p.Keys == set x | x in nodes[..i]
        invariant forall x :: x in p ==> p[x] == x
      {
        assert nodes[..i + 1] == nodes[..i] + [nodes[i]];
        p := p[nodes[i] := nodes[i]];
      }
      assert nodes[..|nodes|] == nodes;
      parent := p;
      rep := p;
      height := map x | x in p :: 0;
      bound := 0;
    }

    // Path compression: the returned node is the representative, and although parent pointers
    // are rewritten on the way, the partition is untouched.
    method Find(node: Node) returns (root: Node)
      requires Valid() && node in parent
      modifies `parent
      ensures Valid() && parent.Keys == old(parent.Keys)
      ensures root == rep[node] && root in parent && parent[root] == root
    {
      root := node;
      assert Placed(parent, rep, height, bound, root);
      while parent[root] != root
        invariant root in parent && rep[root] == rep[node]
        invariant Placed(parent, rep, height, bound, root)
        decreases bound - height[root]
      {
        root := parent[root];
        assert Placed(parent, rep, height, bound, root);
      }
      var current := node;
      while parent[current] != current
        invariant Valid() && parent.Keys == old(parent.Keys)
        invariant current in parent && rep[current] == root && root in parent && parent[root] == root
        decreases bound - height[current]
      {
        var next := parent[current];
        assert Placed(parent, rep, height, bound, current);
        assert Placed(parent, rep, height, bound, next);
        CompressionKeepsForest(parent, rep, height, bound, current);
        parent := parent[current := root];
        current := next;
      }
    }

    method Join(left: Node, right: Node)
      requires Valid() && left in parent && right in parent
      modifies this
      ensures Valid() && parent.Keys == old(parent.Keys)
      ensures rep == Merged(old(rep), left, right)
    {
      var l := Find(left);
      var r := Find(right);
      if l != r {
        height, bound := LinkKeepsForest(parent, rep, height, bound, left, right);
        parent := parent[l := r];
        rep := Merged(rep, left, right);
      }
    }
  }

  ghost function Merged(rep: map<Node, Node>, left: Node, right: Node): map<Node, Node>
    requires left in rep && right in rep
  {
    map x | x in rep :: if rep[x] == rep[left] then rep[right] else rep[x]
  }

  lemma CompressionKeepsForest(
      parent: map<Node, Node>, rep: map<Node, Node>, height: map<Node, nat>, bound: nat, node: Node)
    requires IsForest(parent, rep, height, bound) && node in parent && parent[node] != node
    ensures node in rep && IsForest(parent[node := rep[node]], rep, height, bound)
  {
    var next := parent[node := rep[node]];
    forall x | x in next ensures Placed(next, rep, height, bound, x) {
      assert Placed(parent, rep, height, bound, x);
      assert Placed(parent, rep, height, bound, node);
    }
  }

  lemma LinkKeepsForest(
      parent: map<Node, Node>, rep: map<Node, Node>, height: map<Node, nat>, bound: nat, left: Node, right: Node)
    returns (height': map<Node, nat>, bound': nat)
    requires IsForest(parent, rep, height, bound) && left in parent && right in parent
    requires rep[left] != rep[right]
    ensures IsForest(parent[rep[left] := rep[right]], Merged(rep, left, right), height', bound')
    ensures parent[rep[left] := rep[right]].Keys == parent.Keys
  {
    var l, r := rep[left], rep[right];
    assert Placed(parent, rep, height, bound, left);
    assert Placed(parent, rep, height, bound, right);
    height' := height[r := if height[l] < height[r] then height[r] else height[l] + 1];
    bound' := bound + 1;
    var next, merged := parent[l := r], Merged(rep, left, right);
    assert Placed(parent, rep, height, bound, l);
    assert Placed(parent, rep, height, bound, r);
    assert next.Keys == parent.Keys && height'.Keys == height.Keys && merged.Keys == rep.Keys;
    forall x | x in next ensures Placed(next, merged, height', bound', x) {
      assert Placed(parent, rep, height, bound, x);
      assert Placed(parent, rep, height, bound, parent[x]);
    }
  }

  // The partition is exactly graph connectivity.
  ghost predicate RepIsConnectivity(edges: seq<Edge>, rep: map<Node, Node>) {
    forall x, y :: x in rep && y in rep ==> (rep[x] == rep[y] <==> Connected(edges, x, y))
  }

  lemma {:induction false} RepConstantAlongPath(edges: seq<Edge>, rep: map<Node, Node>, p: seq<Node>)
    requires IsPath(edges, p) && p[0] in rep
    requires forall e :: e in edges ==> e.source in rep && e.target in rep && rep[e.source] == rep[e.target]
    ensures p[|p| - 1] in rep && rep[p[|p| - 1]] == rep[p[0]]
  {
    if |p| > 1 {
      assert Linked(edges, p[0], p[0 + 1]);
      forall k | 0 <= k < |p[1..]| - 1 ensures Linked(edges, p[1..][k], p[1..][k + 1]) {
        assert Linked(edges, p[k + 1], p[k + 1 + 1]);
      }
      RepConstantAlongPath(edges, rep, p[1..]);
    }
  }

  lemma MergedIsConnectivity(edges: seq<Edge>, e: Edge, rep: map<Node, Node>)
    requires RepIsConnectivity(edges, rep)
    requires forall d :: d in edges ==> d.source in rep && d.target in rep
    requires e.source in rep && e.target in rep
    ensures RepIsConnectivity(edges + [e], Merged(rep, e.source, e.target))
  {
    var more := edges + [e];
    var merged := Merged(rep, e.source, e.target);
    forall d | d in more ensures merged[d.source] == merged[d.target] {
      if d in edges { ConnectedByEdge(edges, d); }
    }
    forall x, y | x in merged && y in merged
      ensures merged[x] == merged[y] <==> Connected(more, x, y)
    {
      if Connected(more, x, y) {
        var p :| IsPath(more, p) && p[0] == x && p[|p| - 1] == y;
        RepConstantAlongPath(more, merged, p);
      }
      if merged[x] == merged[y] {
        JoinsNodes(edges, e, rep, x, y);
      }
    }
  }

  lemma JoinsNodes(edges: seq<Edge>, e: Edge, rep: map<Node, Node>, x: Node, y: Node)
    requires RepIsConnectivity(edges, rep)
    requires e.source in rep && e.target in rep && x in rep && y in rep
    requires Merged(rep, e.source, e.target)[x] == Merged(rep, e.source, e.target)[y]
    ensures Connected(edges + [e], x, y)
  {
    var more := edges + [e];
    ReachesTarget(edges, e, rep, x);
    ReachesTarget(edges, e, rep, y);
    if rep[x] != rep[y] {
      ConnectedSymmetric(more, y, e.target);
      ConnectedTransitive(more, x, e.target, y);
    }
  }

  lemma ReachesTarget(edges: seq<Edge>, e: Edge, rep: map<Node, Node>, x: Node)
    requires RepIsConnectivity(edges, rep)
    requires e.source in rep && e.target in rep && x in rep
    ensures Merged(rep, e.source, e.target)[x] == rep[e.target] ==> Connected(edges + [e], x, e.target)
  {
    var more := edges + [e];
    if rep[x] == rep[e.source] {
      ConnectedByEdge(more, e);
      ConnectedTransitive(more, x, e.source, e.target);
    }
  }

  // ---------------------------------------------------------------------------------------
  // Component selection.

  function Endpoints(edges: seq<Edge>): seq<Node> {
    seq(2 * |edges|, i requires 0 <= i < 2 * |edges| =>
      if i < |edges| then edges[i].source else edges[i - |edges|].target)
  }

  // First occurrences only, in order.
  function Distinct(s: seq<Node>): seq<Node> {
    if s == [] then []
    else
      var d := Distinct(s[..|s| - 1]);
      if s[|s| - 1] in d then d else d + [s[|s| - 1]]
  }

  lemma {:induction false} DistinctKeepsElements(s: seq<Node>)
    ensures NoDuplicates(Distinct(s))
    ensures forall x :: x in Distinct(s) <==> x in s
  {
    if s == [] {
    } else {
      DistinctKeepsElements(s[..|s| - 1]);
      assert s == s[..|s| - 1] + [s[|s| - 1]];
    }
  }

  // A node listed earlier occurs before the other one does.
  lemma {:induction false} DistinctKeepsOrder(s: seq<Node>, i: nat, j: nat)
    requires i < j < |Distinct(s)|
    ensures exists p :: 0 <= p < |s| && s[p] == Distinct(s)[i] && forall q :: 0 <= q <= p ==> s[q] != Distinct(s)[j]
  {
    if s == [] {
    } else {
      var before, last := s[..|s| - 1], s[|s| - 1];
      var d := Distinct(before);
      DistinctKeepsElements(before);
      if j < |d| {
        DistinctKeepsOrder(before, i, j);
        var p :| 0 <= p < |before| && before[p] == d[i] && forall q :: 0 <= q <= p ==> before[q] != d[j];
        assert s[p] == d[i] && forall q :: 0 <= q <= p ==> s[q] == before[q];
      } else {
        var x := d[i];
        assert x in d && Distinct(s)[i] == x && Distinct(s)[j] == last;
        var p :| 0 <= p < |before| && before[p] == x;
        assert s[p] == x && forall q :: 0 <= q <= p ==> s[q] == before[q] && before[q] in before;
      }
    }
  }

  // All sources in edge order, then the targets not seen before.
  function DiscoveryOrder(edges: seq<Edge>): seq<Node> { Distinct(Endpoints(edges)) }

  // In terms of the edges: sources are discovered by their first occurrence as a source; targets
  // that are never sources come after them, by their first occurrence as a target.
  lemma DiscoveryFollowsEdges(edges: seq<Edge>, i: nat, j: nat)
    requires i < j < |DiscoveryOrder(edges)|
    ensures
      var x, y := DiscoveryOrder(edges)[i], DiscoveryOrder(edges)[j];
      || (exists p :: 0 <= p < |edges| && edges[p].source == x && forall q :: 0 <= q <= p ==> edges[q].source != y)
      || (&& (forall q :: 0 <= q < |edges| ==> edges[q].source != x && edges[q].source != y)
          && exists p :: 0 <= p < |edges| && edges[p].target == x && forall q :: 0 <= q <= p ==> edges[q].target != y)
  {
    var ends, n := Endpoints(edges), |edges|;
    var x, y := DiscoveryOrder(edges)[i], DiscoveryOrder(edges)[j];
    DistinctKeepsOrder(ends, i, j);
    var p :| 0 <= p < |ends| && ends[p] == x && forall q :: 0 <= q <= p ==> ends[q] != y;
    if s :| 0 <= s < n && s <= p && edges[s].source == x {
      assert forall q :: 0 <= q <= s ==> ends[q] == edges[q].source;
    } else {
      assert forall q :: 0 <= q < n ==> ends[q] == edges[q].source;
      assert edges[p - n].target == x;
      forall q | 0 <= q <= p - n ensures edges[q].target != y { assert ends[q + n] == edges[q].target; }
    }
  }

  lemma DiscoveryIsEndpoints(edges: seq<Edge>)
    ensures NoDuplicates(DiscoveryOrder(edges))
    ensures forall e :: e in edges ==> e.source in DiscoveryOrder(edges) && e.target in DiscoveryOrder(edges)
    ensures forall x :: x in DiscoveryOrder(edges) ==> exists e :: e in edges && (e.source == x || e.target == x)
  {
    DistinctKeepsElements(Endpoints(edges));
    forall e | e in edges ensures e.source in DiscoveryOrder(edges) && e.target in DiscoveryOrder(edges) {
      var i :| 0 <= i < |edges| && edges[i] == e;
      assert Endpoints(edges)[i] == e.source && Endpoints(edges)[i + |edges|] == e.target;
    }
    forall x | x in DiscoveryOrder(edges) ensures exists e :: e in edges && (e.source == x || e.target == x) {
      var i :| 0 <= i < |Endpoints(edges)| && Endpoints(edges)[i] == x;
      assert edges[if i < |edges| then i else i - |edges|] in edges;
    }
  }

  ghost function Component(edges: seq<Edge>, a: Node): set<Node> {
    set b | b in DiscoveryOrder(edges) && Connected(edges, a, b)
  }

  // A component of maximum size; among those, the one discovered first.
  ghost predicate IsFirstLargest(edges: seq<Edge>, k: nat) {
    var order := DiscoveryOrder(edges);
    && k < |order|
    && (forall j :: 0 <= j < |order| ==> |Component(edges, order[j])| <= |Component(edges, order[k])|)
    && (forall j :: 0 <= j < k ==> |Component(edges, order[j])| < |Component(edges, order[k])|)
  }

  ghost predicate IsLargestComponent(edges: seq<Edge>, component: set<Node>) {
    exists k: nat :: IsFirstLargest(edges, k) && component == Component(edges, DiscoveryOrder(edges)[k])
  }

  lemma LargestComponentIsUnique(edges: seq<Edge>, c: set<Node>, d: set<Node>)
    requires IsLargestComponent(edges, c) && IsLargestComponent(edges, d)
    ensures c == d
  {
    var i: nat :| IsFirstLargest(edges, i) && c == Component(edges, DiscoveryOrder(edges)[i]);
    var j: nat :| IsFirstLargest(edges, j) && d == Component(edges, DiscoveryOrder(edges)[j]);
    assert i < j || j < i || i == j;
  }

  // The nodes whose root, listed beside them, is `root`.
  function Group(nodes: seq<Node>, roots: seq<Node>, root: Node): seq<Node>
    requires |nodes| == |roots|
  {
    if nodes == [] then []
    else
      var last := |nodes| - 1;
      Group(nodes[..last], roots[..last], root) + (if roots[last] == root then [nodes[last]] else [])
  }

  lemma {:induction false} GroupIsClass(nodes: seq<Node>, roots: seq<Node>, root: Node)
    requires |nodes| == |roots| && NoDuplicates(nodes)
    ensures NoDuplicates(Group(nodes, roots, root))
    ensures forall x :: x in Group(nodes, roots, root) <==> exists i :: 0 <= i < |nodes| && nodes[i] == x && roots[i] == root
  {
    if nodes == [] {
    } else {
      var last := |nodes| - 1;
      GroupIsClass(nodes[..last], roots[..last], root);
      forall x ensures x in Group(nodes, roots, root) <==> exists i :: 0 <= i < |nodes| && nodes[i] == x && roots[i] == root {
        if i :| 0 <= i < |nodes| && nodes[i] == x && roots[i] == root {
          if i < last { assert nodes[..last][i] == x && roots[..last][i] == root; }
        }
      }
      var before := Group(nodes[..last], roots[..last], root);
      forall k | 0 <= k < |before| ensures before[k] != nodes[last] {
        assert before[k] in before;
        var i :| 0 <= i < last && nodes[..last][i] == before[k] && roots[..last][i] == root;
        assert nodes[i] != nodes[last];
      }
    }
  }

  lemma {:induction false} NoGroup(nodes: seq<Node>, roots: seq<Node>, root: Node)
    requires |nodes| == |roots| && root !in roots
    ensures Group(nodes, roots, root) == []
  {
    if nodes != [] { NoGroup(nodes[..|nodes| - 1], roots[..|nodes| - 1], root); }
  }

  ghost predicate RootsOf(nodes: seq<Node>, rep: map<Node, Node>, roots: seq<Node>) {
    && |roots| == |nodes|
    && forall i :: 0 <= i < |roots| ==> nodes[i] in rep && roots[i] == rep[nodes[i]]
  }

  ghost predicate GroupsOf(nodes: seq<Node>, roots: seq<Node>, groups: map<Node, seq<Node>>)
    requires |nodes| == |roots|
  {
    && (forall r :: r in groups <==> r in roots)
    && (forall r :: r in groups ==> groups[r] == Group(nodes, roots, r))
  }

  // `order` lists the distinct roots as they were met; `first[k]` is the position that
  // introduced the k-th, and `slot[i]` the place of the i-th root in the list.
  ghost predicate MetInOrder(roots: seq<Node>, order: seq<Node>, first: seq<nat>, slot: seq<nat>) {
    && |first| == |order| && |slot| == |roots| && NoDuplicates(order)
    && (forall k {:trigger first[k]} :: 0 <= k < |order| ==> first[k] < |roots| && roots[first[k]] == order[k])
    && (forall j, k :: 0 <= j < k < |order| ==> first[j] < first[k])
    && (forall i {:trigger slot[i]} :: 0 <= i < |roots| ==> slot[i] < |order| && order[slot[i]] == roots[i] && first[slot[i]] <= i)
  }

  // Everything collected from the nodes seen so far.
  ghost predicate Collected(
    nodes: seq<Node>, rep: map<Node, Node>, groups: map<Node, seq<Node>>, order: seq<Node>,
    roots: seq<Node>, first: seq<nat>, slot: seq<nat>)
  {
    RootsOf(nodes, rep, roots) && GroupsOf(nodes, roots, groups) && MetInOrder(roots, order, first, slot)
  }

  lemma MetNewRoot(roots: seq<Node>, order: seq<Node>, first: seq<nat>, slot: seq<nat>, root: Node)
    requires MetInOrder(roots, order, first, slot) && root !in roots
    ensures MetInOrder(roots + [root], order + [root], first + [|roots|], slot + [|order|])
  {
    forall k | 0 <= k < |order| ensures order[k] != root {
      assert roots[first[k]] == order[k];
    }
  }

  lemma MetKnownRoot(roots: seq<Node>, order: seq<Node>, first: seq<nat>, slot: seq<nat>, root: Node)
    returns (k: nat)
    requires MetInOrder(roots, order, first, slot) && root in roots
    ensures MetInOrder(roots + [root], order, first, slot + [k])
  {
    var i :| 0 <= i < |roots| && roots[i] == root;
    k := slot[i];
  }

  lemma GroupsGrow(nodes: seq<Node>, roots: seq<Node>, groups: map<Node, seq<Node>>, node: Node, root: Node)
    requires |nodes| == |roots| && GroupsOf(nodes, roots, groups)
    ensures GroupsOf(nodes + [node], roots + [root], groups[root := (if root in groups then groups[root] else []) + [node]])
  {
    assert (nodes + [node])[..|nodes|] == nodes && (roots + [root])[..|roots|] == roots;
    if root !in groups { NoGroup(nodes, roots, root); }
  }

  lemma CollectNewRoot(
      nodes: seq<Node>, rep: map<Node, Node>, groups: map<Node, seq<Node>>, order: seq<Node>,
      roots: seq<Node>, first: seq<nat>, slot: seq<nat>, node: Node)
    returns (first': seq<nat>, slot': seq<nat>)
    requires Collected(nodes, rep, groups, order, roots, first, slot) && node in rep && rep[node] !in groups
    ensures Collected(nodes + [node], rep, groups[rep[node] := [node]], order + [rep[node]],
      roots + [rep[node]], first', slot')
  {
    GroupsGrow(nodes, roots, groups, node, rep[node]);
    MetNewRoot(roots, order, first, slot, rep[node]);
    first', slot' := first + [|nodes|], slot + [|order|];
    assert [] + [node] == [node];
  }

  lemma CollectKnownRoot(
      nodes: seq<Node>, rep: map<Node, Node>, groups: map<Node, seq<Node>>, order: seq<Node>,
      roots: seq<Node>, first: seq<nat>, slot: seq<nat>, node: Node)
    returns (slot': seq<nat>)
    requires Collected(nodes, rep, groups, order, roots, first, slot) && node in rep && rep[node] in groups
    ensures Collected(nodes + [node], rep, groups[rep[node] := groups[rep[node]] + [node]], order,
      roots + [rep[node]], first, slot')
  {
    GroupsGrow(nodes, roots, groups, node, rep[node]);
    var k := MetKnownRoot(roots, order, first, slot, rep[node]);
    slot' := slot + [k];
  }

  method Collect(
      node: Node, root: Node, groups: map<Node, seq<Node>>, order: seq<Node>,
      ghost nodes: seq<Node>, ghost rep: map<Node, Node>, ghost roots: seq<Node>, ghost first: seq<nat>, ghost slot: seq<nat>)
    returns (components: map<Node, seq<Node>>, componentOrder: seq<Node>, ghost first': seq<nat>, ghost slot': seq<nat>)
    requires Collected(nodes, rep, groups, order, roots, first, slot) && node in rep && root == rep[node]
    ensures Collected(nodes + [node], rep, components, componentOrder, roots + [root], first', slot')
  {
    if root !in groups {
      first', slot' := CollectNewRoot(nodes, rep, groups, order, roots, first, slot, node);
      componentOrder := order + [root];
      components := groups[root := [node]];
    } else {
      slot' := CollectKnownRoot(nodes, rep, groups, order, roots, first, slot, node);
      first' := first;
      componentOrder := order;
      components := groups[root := groups[root] + [node]];
    }
  }

  method GroupByRoot(forest: DisjointSets, orderedNodes: seq<Node>)
    returns (components: map<Node, seq<Node>>, componentOrder: seq<Node>,
             ghost roots: seq<Node>, ghost first: seq<nat>, ghost slot: seq<nat>)
    requires forest.Valid() && forall i :: 0 <= i < |orderedNodes| ==> orderedNodes[i] in forest.parent
    modifies forest`parent
    ensures Collected(orderedNodes, forest.rep, components, componentOrder, roots, first, slot)
  {
    components, componentOrder, roots, first, slot := map[], [], [], [], [];
    ghost var nodes: seq<Node> := [];
    ghost var rep := forest.rep;
    var i := 0;
    while i < |orderedNodes|
      invariant i <= |orderedNodes| && nodes == orderedNodes[..i]
      invariant forest.Valid() && forest.parent.Keys == old(forest.parent.Keys) && forest.rep == rep
      invariant Collected(nodes, rep, components, componentOrder, roots, first, slot)
    {
      var node := orderedNodes[i];
      var root := forest.Find(node);
      components, componentOrder, first, slot := Collect(
        node, root, components, componentOrder, nodes, rep, roots, first, slot);
      roots := roots + [root];
      PrefixGrows(orderedNodes, i);
      nodes := nodes + [node];
      i := i + 1;
    }
    assert nodes == orderedNodes;
  }

  method Unite(edges: seq<Edge>, orderedNodes: seq<Node>) returns (forest: DisjointSets)
    requires forall e :: e in edges ==> e.source in orderedNodes && e.target in orderedNodes
    ensures forest.Valid() && fresh(forest) && forest.parent.Keys == set x | x in orderedNodes
    ensures RepIsConnectivity(edges, forest.rep)
  {
    forest := new DisjointSets(orderedNodes);
    InitiallyUnconnected(forest.rep);
    for i := 0 to |edges|
      invariant forest.Valid() && fresh(forest) && forest.parent.Keys == set x | x in orderedNodes
      invariant RepIsConnectivity(edges[..i], forest.rep)
    {
      assert edges[i] in edges;
      MergedIsConnectivity(edges[..i], edges[i], forest.rep);
      assert edges[..i + 1] == edges[..i] + [edges[i]];
      forest.Join(edges[i].source, edges[i].target);
    }
    assert edges[..|edges|] == edges;
  }

  // Appends the nodes not seen before.
  method AppendUnseen(orderedNodes: seq<Node>, seenNodes: set<Node>, nodes: seq<Node>, ghost before: seq<Node>)
    returns (ordered: seq<Node>, seen: set<Node>)
    requires orderedNodes == Distinct(before) && forall x :: x in seenNodes <==> x in orderedNodes
    ensures ordered == Distinct(before + nodes) && forall x :: x in seen <==> x in ordered
  {
    ordered, seen := orderedNodes, seenNodes;
    ghost var all := before;
    var i := 0;
    while i < |nodes|
      invariant i <= |nodes| && all == before + nodes[..i]
      invariant ordered == Distinct(all)
      invariant forall x :: x in seen <==> x in ordered
    {
      var node := nodes[i];
      if node !in seen {
        seen := seen + {node};
        ordered := ordered + [node];
      }
      all := all + [node];
      i := i + 1;
    }
    assert all == before + nodes;
  }

  method OrderNodes(edges: seq<Edge>) returns (orderedNodes: seq<Node>)
    ensures orderedNodes == DiscoveryOrder(edges)
  {
    var sources := seq(|edges|, i requires 0 <= i < |edges| => edges[i].source);
    var targets := seq(|edges|, i requires 0 <= i < |edges| => edges[i].target);
    var seenNodes;
    orderedNodes, seenNodes := AppendUnseen([], {}, sources, []);
    assert [] + sources == sources;
    orderedNodes, seenNodes := AppendUnseen(orderedNodes, seenNodes, targets, sources);
    assert Endpoints(edges) == sources + targets;
  }

  method LargestGroup(components: map<Node, seq<Node>>, componentOrder: seq<Node>) returns (best: nat)
    requires componentOrder != [] && forall k :: 0 <= k < |componentOrder| ==> componentOrder[k] in components
    ensures best < |componentOrder|
    ensures forall j :: 0 <= j < |componentOrder| ==>
      && |components[componentOrder[j]]| <= |components[componentOrder[best]]|
      && (j < best ==> |components[componentOrder[j]]| < |components[componentOrder[best]]|)
  {
    best := 0;
    for k := 1 to |componentOrder|
      invariant 0 <= best < k
      invariant forall j :: 0 <= j < k ==>
        && |components[componentOrder[j]]| <= |components[componentOrder[best]]|
        && (j < best ==> |components[componentOrder[j]]| < |components[componentOrder[best]]|)
    {
      if |components[componentOrder[k]]| > |components[componentOrder[best]]| {
        best := k;
      }
    }
  }

  method LargestComponent(edges: seq<Edge>) returns (result: set<Node>)
    requires edges != []
    ensures IsLargestComponent(edges, result)
  {
    var orderedNodes := OrderNodes(edges);
    DiscoveryIsEndpoints(edges);
    var forest := Unite(edges, orderedNodes);
    var components, componentOrder;
    ghost var roots, first, slot;
    components, componentOrder, roots, first, slot := GroupByRoot(forest, orderedNodes);
    OrderListsGroups(orderedNodes, roots, components, componentOrder, first, slot);
    assert edges[0] in edges && edges[0].source in orderedNodes;
    var best := LargestGroup(components, componentOrder);
    result := set x | x in components[componentOrder[best]];
    BestGroupIsLargest(edges, forest.rep, roots, components, componentOrder, first, slot, best);
  }

  lemma OrderListsGroups(
      nodes: seq<Node>, roots: seq<Node>, groups: map<Node, seq<Node>>, order: seq<Node>, first: seq<nat>, slot: seq<nat>)
    requires |nodes| == |roots| && GroupsOf(nodes, roots, groups) && MetInOrder(roots, order, first, slot)
    ensures forall k :: 0 <= k < |order| ==> order[k] in groups
    ensures nodes != [] ==> order != []
  {
    forall k | 0 <= k < |order| ensures order[k] in groups {
      assert roots[first[k]] in roots;
    }
    if nodes != [] { assert slot[0] < |order|; }
  }

  lemma BestGroupIsLargest(
      edges: seq<Edge>, rep: map<Node, Node>, roots: seq<Node>, groups: map<Node, seq<Node>>,
      order: seq<Node>, first: seq<nat>, slot: seq<nat>, best: nat)
    requires RepIsConnectivity(edges, rep) && RootsOf(DiscoveryOrder(edges), rep, roots)
    requires GroupsOf(DiscoveryOrder(edges), roots, groups)
    requires MetInOrder(roots, order, first, slot)
    requires best < |order| && forall j :: 0 <= j < |order| ==> order[j] in groups
    requires forall j :: 0 <= j < |order| ==>
      && |groups[order[j]]| <= |groups[order[best]]|
      && (j < best ==> |groups[order[j]]| < |groups[order[best]]|)
    ensures IsLargestComponent(edges, set x | x in groups[order[best]])
  {
    var nodes := DiscoveryOrder(edges);
    var k := first[best];
    assert slot[k] == best by { assert order[slot[k]] == order[best]; }
    ComponentIsGroup(edges, rep, roots, k);
    forall j | 0 <= j < |nodes|
      ensures |Component(edges, nodes[j])| <= |Component(edges, nodes[k])|
      ensures j < k ==> |Component(edges, nodes[j])| < |Component(edges, nodes[k])|
    {
      ComponentIsGroup(edges, rep, roots, j);
      assert order[slot[j]] == roots[j];
      if j < k {
        assert first[slot[j]] <= j;
        assert slot[j] < best;
      }
    }
    assert IsFirstLargest(edges, k);
  }

  lemma InitiallyUnconnected(rep: map<Node, Node>)
    requires forall x :: x in rep ==> rep[x] == x
    ensures RepIsConnectivity([], rep)
  {
    forall x, y | x in rep && y in rep ensures x == y <==> Connected([], x, y) {
      if x == y { ConnectedReflexive([], x); }
      if Connected([], x, y) {
        var p :| IsPath([], p) && p[0] == x && p[|p| - 1] == y;
        if |p| > 1 { assert Linked([], p[0], p[0 + 1]); }
      }
    }
  }

  lemma ComponentIsGroup(edges: seq<Edge>, rep: map<Node, Node>, roots: seq<Node>, i: nat)
    requires RepIsConnectivity(edges, rep) && RootsOf(DiscoveryOrder(edges), rep, roots) && i < |roots|
    ensures
      var node, group := DiscoveryOrder(edges)[i], Group(DiscoveryOrder(edges), roots, roots[i]);
      Component(edges, node) == (set x | x in group) && |Component(edges, node)| == |group|
  {
    var order := DiscoveryOrder(edges);
    var node, group := order[i], Group(order, roots, roots[i]);
    DistinctKeepsElements(Endpoints(edges));
    GroupIsClass(order, roots, roots[i]);
    NoDuplicatesCardinality(group);
    forall b ensures b in Component(edges, node) <==> b in group {
      if b in order {
        var j :| 0 <= j < |order| && order[j] == b;
        assert rep[node] == rep[b] <==> Connected(edges, node, b);
      }
    }
    assert Component(edges, node) == set x | x in group;
  }

  // ---------------------------------------------------------------------------------------
  // Direction normalization, keeping the last weight of every pair.

  ghost predicate IsLast(input: seq<Edge>, k: nat) {
    k < |input| && forall j :: k < j < |input| ==> PairOf(input[j]) != PairOf(input[k])
  }

  // The oriented edges among the first `n` whose pair does not come again, in input order.
  ghost function Survivors(input: seq<Edge>, n: nat): seq<Edge>
    requires n <= |input|
  {
    if n == 0 then []
    else Survivors(input, n - 1) + (if IsLast(input, n - 1) then [Oriented(input[n - 1])] else [])
  }

  ghost function LastEdges(input: seq<Edge>): seq<Edge> { Survivors(input, |input|) }

  ghost predicate IsLastEdge(input: seq<Edge>, e: Edge) {
    exists k: nat :: IsLast(input, k) && Oriented(input[k]) == e
  }

  ghost predicate Normalized(rows: seq<Edge>) {
    && (forall i :: 0 <= i < |rows| ==> rows[i].source <= rows[i].target)
    && (forall i, j :: 0 <= i < j < |rows| ==> PairOf(rows[i]) != PairOf(rows[j]))
  }

  lemma {:induction false} SurvivorsAreLast(input: seq<Edge>, n: nat)
    requires n <= |input|
    ensures Normalized(Survivors(input, n))
    ensures forall e :: e in Survivors(input, n) <==> exists k: nat :: k < n && IsLast(input, k) && Oriented(input[k]) == e
  {
    if n == 0 {
    } else {
      SurvivorsAreLast(input, n - 1);
      var before, after := Survivors(input, n - 1), Survivors(input, n);
      forall i | 0 <= i < |before| ensures PairOf(before[i]) != PairOf(input[n - 1]) {
        assert before[i] in before;
        var k: nat :| k < n - 1 && IsLast(input, k) && Oriented(input[k]) == before[i];
      }
      forall e ensures e in after <==> exists k: nat :: k < n && IsLast(input, k) && Oriented(input[k]) == e {
        if e in before {
          var k: nat :| k < n - 1 && IsLast(input, k) && Oriented(input[k]) == e;
        }
        if k: nat :| k < n && IsLast(input, k) && Oriented(input[k]) == e {
          assert k < n - 1 || k == n - 1;
        }
      }
    }
  }

  lemma LastEdgesAreLast(input: seq<Edge>)
    ensures Normalized(LastEdges(input))
    ensures forall e :: e in LastEdges(input) <==> IsLastEdge(input, e)
    ensures LastEdges(input) == [] <==> input == []
  {
    SurvivorsAreLast(input, |input|);
    if input != [] {
      assert IsLast(input, |input| - 1);
    }
  }

  // The rows stand, in input order, for exactly the last edges with their ends: row i for the edge
  // at `at[i]`.
  method NormalizeDirectionKeepLast(input: seq<Edge>) returns (result: seq<Edge>, ghost at: seq<nat>)
    ensures result == LastEdges(input)
    ensures |at| == |result| && forall i, j :: 0 <= i < j < |at| ==> at[i] < at[j]
    ensures forall i :: 0 <= i < |at| ==> LastOfItsEnds(input, at[i]) && StandsFor(result[i], input[at[i]])
    ensures forall k: nat :: LastOfItsEnds(input, k) ==> k in at
  {
    var rows: seq<Edge> := [];
    var last: map<Pair, nat> := map[];
    for i := 0 to |input|
      invariant |rows| == i && forall k :: 0 <= k < i ==> rows[k] == Oriented(input[k])
      invariant forall k :: 0 <= k < i ==> PairOf(input[k]) in last && k <= last[PairOf(input[k])]
      invariant forall p :: p in last ==> last[p] < i && PairOf(input[last[p]]) == p
    {
      rows := rows + [Oriented(input[i])];
      last := last[PairOf(input[i]) := i];
    }
    result, at := [], [];
    for i := 0 to |rows|
      invariant result == Survivors(input, i) && StandAt(input, i, result, at)
    {
      assert last[PairOf(input[i])] == i <==> IsLast(input, i);
      StandNext(input, i, result, at);
      if last[Pair(rows[i].source, rows[i].target)] == i {
        result, at := result + [rows[i]], at + [i];
      }
    }
  }

  ghost predicate StandAt(input: seq<Edge>, n: nat, rows: seq<Edge>, at: seq<nat>) {
    && |at| == |rows| && (forall i, j :: 0 <= i < j < |at| ==> at[i] < at[j])
    && (forall i :: 0 <= i < |at| ==> at[i] < n && LastOfItsEnds(input, at[i]) && StandsFor(rows[i], input[at[i]]))
    && (forall k :: 0 <= k < n && LastOfItsEnds(input, k) ==> k in at)
  }

  lemma StandNext(input: seq<Edge>, n: nat, rows: seq<Edge>, at: seq<nat>)
    requires n < |input| && StandAt(input, n, rows, at)
    ensures IsLast(input, n) ==> StandAt(input, n + 1, rows + [Oriented(input[n])], at + [n])
    ensures !IsLast(input, n) ==> StandAt(input, n + 1, rows, at)
  {
    forall j | n < j < |input| ensures PairOf(input[j]) == PairOf(input[n]) <==> SameEnds(input[j], input[n]) {
      PairIsEnds(input[j], input[n]);
    }
    PairIsEnds(input[n], Oriented(input[n]));
    if IsLast(input, n) {
      forall k | 0 <= k < n + 1 && LastOfItsEnds(input, k) ensures k in at + [n] {
        if k == n { assert (at + [n])[|at|] == n; }
      }
    }
  }

  lemma {:induction false} LaterSameEnds(input: seq<Edge>, i: nat) returns (k: nat)
    requires i < |input|
    ensures LastOfItsEnds(input, k) && SameEnds(input[k], input[i])
    decreases |input| - i
  {
    if LastOfItsEnds(input, i) {
      k := i;
    } else {
      var j :| i < j < |input| && SameEnds(input[j], input[i]);
      k := LaterSameEnds(input, j);
    }
  }

  lemma LastEdgesLinkTheSame(input: seq<Edge>, a: Node, b: Node)
    ensures Linked(LastEdges(input), a, b) <==> Linked(input, a, b)
  {
    LastEdgesAreLast(input);
    if Linked(input, a, b) {
      var e :| e in input && ((e.source == a && e.target == b) || (e.source == b && e.target == a));
      var i :| 0 <= i < |input| && input[i] == e;
      var k := LaterSameEnds(input, i);
      LastIsLastOfItsEnds(input, k);
      PairIsEnds(input[k], Oriented(input[k]));
      assert IsLastEdge(input, Oriented(input[k]));
    }
    if Linked(LastEdges(input), a, b) {
      var e :| e in LastEdges(input) && ((e.source == a && e.target == b) || (e.source == b && e.target == a));
      var k: nat :| IsLast(input, k) && Oriented(input[k]) == e;
      PairIsEnds(input[k], e);
      assert input[k] in input;
    }
  }

  // Keeping the last edge of each pair keeps what is connected.
  lemma LastEdgesConnectTheSame(input: seq<Edge>, a: Node, b: Node)
    ensures Connected(LastEdges(input), a, b) <==> Connected(input, a, b)
  {
    forall x, y ensures Linked(LastEdges(input), x, y) <==> Linked(input, x, y) { LastEdgesLinkTheSame(input, x, y); }
    forall p ensures IsPath(LastEdges(input), p) <==> IsPath(input, p) {}
  }

  // ---------------------------------------------------------------------------------------
  // Restriction to the largest component.

  function Inside(rows: seq<Edge>, component: set<Node>): seq<Edge> {
    if rows == [] then []
    else
      Inside(rows[..|rows| - 1], component) +
      (if rows[|rows| - 1].source in component then [rows[|rows| - 1]] else [])
  }

  lemma {:induction false} InsideMembers(rows: seq<Edge>, component: set<Node>)
    ensures forall e :: e in Inside(rows, component) <==> e in rows && e.source in component
  {
    if rows == [] {
    } else {
      InsideMembers(rows[..|rows| - 1], component);
      assert rows == rows[..|rows| - 1] + [rows[|rows| - 1]];
    }
  }

  lemma {:induction false} InsideIsNormalized(rows: seq<Edge>, component: set<Node>)
    requires Normalized(rows)
    ensures Normalized(Inside(rows, component))
  {
    if rows == [] {
    } else {
      var before, last := rows[..|rows| - 1], rows[|rows| - 1];
      InsideIsNormalized(before, component);
      InsideMembers(before, component);
      var kept := Inside(before, component);
      forall i | 0 <= i < |kept| ensures PairOf(kept[i]) != PairOf(last) {
        var e := kept[i];
        assert e in kept;
        var k :| 0 <= k < |before| && before[k] == e;
        assert PairOf(rows[k]) != PairOf(rows[|rows| - 1]);
      }
    }
  }

  lemma InsideIsFilter(rows: seq<Edge>, component: set<Node>)
    requires Normalized(rows)
    ensures Normalized(Inside(rows, component))
    ensures forall e :: e in Inside(rows, component) <==> e in rows && e.source in component
  {
    InsideIsNormalized(rows, component);
    InsideMembers(rows, component);
  }

  // Both endpoints of an edge lie in the same component: the filter on the target never drops.
  lemma ComponentHoldsBothEnds(edges: seq<Edge>, component: set<Node>, e: Edge)
    requires IsLargestComponent(edges, component) && e in edges
    ensures e.source in component <==> e.target in component
  {
    var k: nat :| IsFirstLargest(edges, k) && component == Component(edges, DiscoveryOrder(edges)[k]);
    var a := DiscoveryOrder(edges)[k];
    DiscoveryIsEndpoints(edges);
    ConnectedByEdge(edges, e);
    ConnectedSymmetric(edges, e.source, e.target);
    if Connected(edges, a, e.source) { ConnectedTransitive(edges, a, e.source, e.target); }
    if Connected(edges, a, e.target) { ConnectedTransitive(edges, a, e.target, e.source); }
  }

  // Neither the filter on the second endpoint nor the one on repeated pairs drops an edge of
  // a normalized input: only the filter on the source decides.
  method StableLargestConnectedComponent(input: seq<Edge>) returns (filtered: seq<Edge>, ghost largest: set<Node>)
    ensures input == [] ==> filtered == []
    ensures input != [] ==> IsLargestComponent(input, largest)
    ensures Normalized(input) && input != [] ==> filtered == Inside(input, largest)
    ensures Normalized(input) ==>
      forall e :: e in filtered <==> e in input && e.source in largest && e.target in largest
  {
    filtered, largest := [], {};
    if input == [] {
      return;
    }
    var component := LargestComponent(input);
    largest := component;
    var seen: set<Pair> := {};
    for i := 0 to |input|
      invariant Normalized(input) ==> filtered == Inside(input[..i], component)
      invariant seen <= set k | 0 <= k < i :: PairOf(input[k])
    {
      assert input[..i + 1][..i] == input[..i];
      assert input[i] in input;
      ComponentHoldsBothEnds(input, component, input[i]);
      var edge := input[i];
      var key := OrderedPair(edge.source, edge.target);
      if edge.source in component && edge.target in component && key !in seen {
        seen := seen + {key};
        filtered := filtered + [Edge(key.source, key.target, edge.weight)];
      }
    }
    assert input[..|input|] == input;
    if Normalized(input) {
      InsideMembers(input, component);
      forall e | e in input ensures e.source in component <==> e.target in component {
        ComponentHoldsBothEnds(input, component, e);
      }
    }
  }

  // ---------------------------------------------------------------------------------------
  // The prepared edges.

  predicate Precedes(a: Edge, b: Edge) {
    a.source < b.source || (a.source == b.source && a.target <= b.target)
  }

  ghost predicate StrictlyOrdered(rows: seq<Edge>) {
    && (forall i :: 0 <= i < |rows| ==> rows[i].source <= rows[i].target)
    && (forall i, j :: 0 <= i < j < |rows| ==> Precedes(rows[i], rows[j]) && !Precedes(rows[j], rows[i]))
  }

  // What preparation promises: each pair once, oriented, with its last weight, strictly
  // ordered; restricted to the largest component when that is asked for.
  ghost predicate IsPrepared(input: seq<Edge>, useLCC: bool, rows: seq<Edge>) {
    && StrictlyOrdered(rows)
    && if useLCC && input != [] then
         exists c :: IsLargestComponent(LastEdges(input), c) && forall e :: e in rows <==> IsLastEdge(input, e) && e.source in c
       else forall e :: e in rows <==> IsLastEdge(input, e)
  }

  method PrepareEdges(input: seq<Edge>, useLCC: bool) returns (result: seq<Edge>, ghost component: set<Node>)
    ensures IsPrepared(input, useLCC, result)
    ensures forall i, j :: 0 <= i < j < |result| ==>
      || result[i].source < result[j].source
      || (result[i].source == result[j].source && result[i].target < result[j].target)
    ensures forall row :: row in result ==> exists k: nat :: LastOfItsEnds(input, k) && StandsFor(row, input[k])
    ensures forall k: nat :: LastOfItsEnds(input, k) && (useLCC ==> input[k].source in component) ==>
      exists row :: row in result && StandsFor(row, input[k])
    ensures useLCC && input != [] ==>
      && IsLargestComponent(LastEdges(input), component)
      && forall row :: row in result ==> row.source in component && row.target in component
  {
    var rows, at := NormalizeDirectionKeepLast(input);
    component := {};
    LastEdgesAreLast(input);
    if useLCC {
      rows, component := StableLargestConnectedComponent(rows);
      if input != [] {
        InsideIsFilter(LastEdges(input), component);
        assert IsLargestComponent(LastEdges(input), component);
      }
    }
    result := Sort(rows, Precedes);
    SortedRowsAreStrict(rows);
    PreparedInInput(input, useLCC, result, component);
  }

  // What preparation promises, in terms of the input's own edges.
  lemma PreparedInInput(input: seq<Edge>, useLCC: bool, rows: seq<Edge>, component: set<Node>)
    requires StrictlyOrdered(rows)
    requires if useLCC && input != [] then
        IsLargestComponent(LastEdges(input), component) && forall e :: e in rows <==> IsLastEdge(input, e) && e.source in component
      else forall e :: e in rows <==> IsLastEdge(input, e)
    ensures forall i, j :: 0 <= i < j < |rows| ==>
      rows[i].source < rows[j].source || (rows[i].source == rows[j].source && rows[i].target < rows[j].target)
    ensures forall row :: row in rows ==> exists k: nat :: LastOfItsEnds(input, k) && StandsFor(row, input[k])
    ensures forall k: nat :: LastOfItsEnds(input, k) && (useLCC ==> input[k].source in component) ==>
      exists row :: row in rows && StandsFor(row, input[k])
    ensures useLCC && input != [] ==> forall row :: row in rows ==> row.source in component && row.target in component
  {
    forall i, j | 0 <= i < j < |rows|
      ensures rows[i].source < rows[j].source || (rows[i].source == rows[j].source && rows[i].target < rows[j].target)
    {
      assert Precedes(rows[i], rows[j]) && !Precedes(rows[j], rows[i]);
    }
    forall k: nat ensures IsLast(input, k) <==> LastOfItsEnds(input, k) { LastIsLastOfItsEnds(input, k); }
    LastEdgesAreLast(input);
    forall row | row in rows ensures exists k: nat :: LastOfItsEnds(input, k) && StandsFor(row, input[k]) {
      var k: nat :| IsLast(input, k) && Oriented(input[k]) == row;
      PairIsEnds(input[k], row);
    }
    forall k: nat | LastOfItsEnds(input, k) && (useLCC ==> input[k].source in component)
      ensures exists row :: row in rows && StandsFor(row, input[k])
    {
      var row := Oriented(input[k]);
      PairIsEnds(input[k], row);
      assert IsLastEdge(input, row);
      if useLCC { ComponentHoldsBothEnds(LastEdges(input), component, row); }
      assert row in rows && StandsFor(row, input[k]);
    }
    if useLCC && input != [] {
      forall row | row in rows ensures row.target in component { ComponentHoldsBothEnds(LastEdges(input), component, row); }
    }
  }

  lemma LastIsLastOfItsEnds(input: seq<Edge>, k: nat)
    ensures IsLast(input, k) <==> LastOfItsEnds(input, k)
  {
    if k < |input| {
      forall j | k < j < |input| ensures PairOf(input[j]) == PairOf(input[k]) <==> SameEnds(input[j], input[k]) {
        PairIsEnds(input[j], input[k]);
      }
    }
  }

  // Two rows of a normalized list cannot both precede each other.
  lemma NormalizedSeparates(rows: seq<Edge>, e: Edge, f: Edge)
    requires Normalized(rows) && e in rows && f in rows && e != f
    ensures !(Precedes(e, f) && Precedes(f, e))
  {
    var i :| 0 <= i < |rows| && rows[i] == e;
    var j :| 0 <= j < |rows| && rows[j] == f;
    assert PairOf(rows[i]) != PairOf(rows[j]);
  }

  lemma SortedRowsAreStrict(rows: seq<Edge>)
    requires Normalized(rows)
    ensures StrictlyOrdered(Sort(rows, Precedes))
    ensures forall e :: e in Sort(rows, Precedes) <==> e in rows
  {
    var sorted := Sort(rows, Precedes);
    SortSorts(rows, Precedes);
    SortedStaysDistinct(rows, Precedes);
    forall i, j | 0 <= i < j < |sorted| ensures !Precedes(sorted[j], sorted[i]) {
      assert sorted[i] in rows && sorted[j] in rows;
      NormalizedSeparates(rows, sorted[i], sorted[j]);
    }
    forall i | 0 <= i < |sorted| ensures sorted[i].source <= sorted[i].target {
      assert sorted[i] in rows;
    }
  }

  lemma PreparedIsUnique(input: seq<Edge>, useLCC: bool, r: seq<Edge>, s: seq<Edge>)
    requires IsPrepared(input, useLCC, r) && IsPrepared(input, useLCC, s)
    ensures r == s
  {
    if useLCC && input != [] {
      var c := KeptComponent(input, r);
      var d := KeptComponent(input, s);
      LargestComponentIsUnique(LastEdges(input), c, d);
    }
    StrictOrderIsUnique(r, s);
  }

  lemma {:induction false} StrictOrderIsUnique(r: seq<Edge>, s: seq<Edge>)
    requires StrictlyOrdered(r) && StrictlyOrdered(s)
    requires forall e :: e in r <==> e in s
    ensures r == s
  {
    assert NoDuplicates(r) && NoDuplicates(s);
    SameElementsSameMultiset(r, s);
    SortedIsUnique(r, s, Precedes);
  }

  // Preparing prepared edges changes nothing.
  lemma PreparationIsIdempotent(input: seq<Edge>, useLCC: bool, rows: seq<Edge>, again: seq<Edge>)
    requires IsPrepared(input, useLCC, rows) && IsPrepared(rows, useLCC, again)
    ensures again == rows
  {
    OrderedRowsAreLast(rows);
    if useLCC && rows != [] {
      assert IsLastEdge(input, rows[0]);
      var c := KeptComponent(input, rows);
      var d := KeptComponent(rows, again);
      LastEdgesAreLast(input);
      WholeComponentStays(LastEdges(input), c, rows);
      LargestComponentIsUnique(rows, c, d);
    }
    StrictOrderIsUnique(rows, again);
  }

  lemma KeptComponent(input: seq<Edge>, rows: seq<Edge>) returns (c: set<Node>)
    requires input != [] && IsPrepared(input, true, rows)
    ensures IsLargestComponent(LastEdges(input), c)
    ensures forall e :: e in rows <==> IsLastEdge(input, e) && e.source in c
  {
    c :| IsLargestComponent(LastEdges(input), c) && forall e :: e in rows <==> IsLastEdge(input, e) && e.source in c;
  }

  lemma OrderedRowsAreLast(rows: seq<Edge>)
    requires StrictlyOrdered(rows)
    ensures LastEdges(rows) == rows
    ensures forall e :: e in rows <==> IsLastEdge(rows, e)
  {
    LastEdgesAreLast(rows);
    SurvivorsOfOrdered(rows, |rows|);
    assert rows[..|rows|] == rows;
  }

  lemma {:induction false} SurvivorsOfOrdered(rows: seq<Edge>, n: nat)
    requires StrictlyOrdered(rows) && n <= |rows|
    ensures Survivors(rows, n) == rows[..n]
  {
    if n == 0 {
    } else {
      SurvivorsOfOrdered(rows, n - 1);
      assert IsLast(rows, n - 1) by {
        forall j | n - 1 < j < |rows| ensures PairOf(rows[j]) != PairOf(rows[n - 1]) {
          assert !Precedes(rows[j], rows[n - 1]);
        }
      }
      assert rows[..n] == rows[..n - 1] + [rows[n - 1]];
    }
  }

  // `rows` are the edges of `all` inside its component `c`.
  ghost predicate Restricted(all: seq<Edge>, c: set<Node>, rows: seq<Edge>) {
    IsLargestComponent(all, c) && forall e :: e in rows <==> e in all && e.source in c
  }

  lemma RestrictedNodes(all: seq<Edge>, c: set<Node>, rows: seq<Edge>, x: Node)
    requires Restricted(all, c, rows)
    ensures x in DiscoveryOrder(rows) <==> x in c
  {
    DiscoveryIsEndpoints(all);
    DiscoveryIsEndpoints(rows);
    if x in DiscoveryOrder(rows) {
      var e :| e in rows && (e.source == x || e.target == x);
      ComponentHoldsBothEnds(all, c, e);
    }
    if x in c {
      assert x in DiscoveryOrder(all);
      var e :| e in all && (e.source == x || e.target == x);
      ComponentHoldsBothEnds(all, c, e);
    }
  }

  lemma RestrictedIsConnected(all: seq<Edge>, c: set<Node>, rows: seq<Edge>, x: Node, y: Node)
    requires Restricted(all, c, rows) && x in c && y in c
    ensures Connected(rows, x, y)
  {
    var k: nat :| IsFirstLargest(all, k) && c == Component(all, DiscoveryOrder(all)[k]);
    var a := DiscoveryOrder(all)[k];
    ConnectedSymmetric(all, a, x);
    ConnectedTransitive(all, x, a, y);
    var p :| IsPath(all, p) && p[0] == x && p[|p| - 1] == y;
    PathSurvives(all, c, rows, p);
  }

  lemma RestrictedIsOneComponent(all: seq<Edge>, c: set<Node>, rows: seq<Edge>, x: Node)
    requires Restricted(all, c, rows) && x in c
    ensures Component(rows, x) == c
  {
    forall y ensures y in Component(rows, x) <==> y in c {
      RestrictedNodes(all, c, rows, y);
      if y in c { RestrictedIsConnected(all, c, rows, x, y); }
    }
  }

  // The kept edges hold the kept component whole: it is their largest component, and their only
  // one.
  lemma WholeComponentStays(all: seq<Edge>, c: set<Node>, rows: seq<Edge>)
    requires Restricted(all, c, rows)
    ensures IsLargestComponent(rows, c)
    ensures forall x :: x in DiscoveryOrder(rows) ==> Component(rows, x) == c
  {
    var order := DiscoveryOrder(rows);
    forall x | x in order ensures Component(rows, x) == c {
      RestrictedNodes(all, c, rows, x);
      RestrictedIsOneComponent(all, c, rows, x);
    }
    var k: nat :| IsFirstLargest(all, k) && c == Component(all, DiscoveryOrder(all)[k]);
    var a := DiscoveryOrder(all)[k];
    ConnectedReflexive(all, a);
    assert a in DiscoveryOrder(all) && a in c;
    RestrictedNodes(all, c, rows, a);
    forall j | 0 <= j < |order| ensures Component(rows, order[j]) == c {
      assert order[j] in order;
    }
    assert IsFirstLargest(rows, 0);
  }

  lemma {:induction false} PathSurvives(all: seq<Edge>, c: set<Node>, rows: seq<Edge>, p: seq<Node>)
    requires IsLargestComponent(all, c) && IsPath(all, p) && p[0] in c
    requires forall e :: e in rows <==> e in all && e.source in c
    ensures IsPath(rows, p)
  {
    if |p| > 1 {
      assert Linked(all, p[0], p[0 + 1]);
      var e :| e in all && ((e.source == p[0] && e.target == p[1]) || (e.source == p[1] && e.target == p[0]));
      ComponentHoldsBothEnds(all, c, e);
      assert Linked(rows, p[0], p[1]);
      forall k | 0 <= k < |p[1..]| - 1 ensures Linked(all, p[1..][k], p[1..][k + 1]) {
        assert Linked(all, p[k + 1], p[k + 1 + 1]);
      }
      PathSurvives(all, c, rows, p[1..]);
      forall k | 0 <= k < |p| - 1 ensures Linked(rows, p[k], p[k + 1]) {
        if k > 0 { assert Linked(rows, p[1..][k - 1], p[1..][k - 1 + 1]); }
      }
    }
  }
}
