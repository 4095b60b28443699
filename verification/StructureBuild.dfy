/**
 The structure rebuild policy (community/structurebuild/builder.go): a two-cursor diff of
 relation versions feeds an accumulated counter that decides whether the previous CommunitySet
 may be reused. Over whole runs the counter bounds how stale a reused set can be.
 */
module StructureBuild {
  import opened Widths
  import opened Wrappers
  import opened Sets
  import opened Sorting

  type RelationID = int
  type Version = int
  datatype Reference = Reference(id: RelationID, version: Version)

  // References are strictly ordered by ID.
  ghost predicate Ordered(refs: seq<Reference>) {
    forall i, j :: 0 <= i < j < |refs| ==> refs[i].id < refs[j].id
  }

  // ---------------------------------------------------------------------------------------
  // The distance between two manifests: the relations present in one only, or in both with
  // different versions.

  ghost predicate Holds(refs: seq<Reference>, id: RelationID, version: Version) {
    Reference(id, version) in refs
  }

  ghost function IDs(refs: seq<Reference>): set<RelationID> {
    set r | r in refs :: r.id
  }

  ghost predicate Differs(a: seq<Reference>, b: seq<Reference>, id: RelationID) {
    exists version :: Holds(a, id, version) != Holds(b, id, version)
  }

  ghost function Changes(a: seq<Reference>, b: seq<Reference>): set<RelationID> {
    set id | id in IDs(a) + IDs(b) && Differs(a, b, id)
  }

  ghost function Distance(a: seq<Reference>, b: seq<Reference>): nat { |Changes(a, b)| }

  lemma DifferingIsKnown(a: seq<Reference>, b: seq<Reference>, id: RelationID)
    requires Differs(a, b, id)
    ensures id in Changes(a, b)
  {
    var v :| Holds(a, id, v) != Holds(b, id, v);
    assert Reference(id, v).id == id;
  }

  lemma Symmetric(a: seq<Reference>, b: seq<Reference>)
    ensures Changes(a, b) == Changes(b, a) && Distance(a, b) == Distance(b, a)
  {
    forall id ensures id in Changes(a, b) <==> id in Changes(b, a) {
      assert Differs(a, b, id) <==> Differs(b, a, id);
    }
  }

  lemma Triangle(a: seq<Reference>, b: seq<Reference>, c: seq<Reference>)
    ensures Distance(a, c) <= Distance(a, b) + Distance(b, c)
  {
    forall id | id in Changes(a, c) ensures id in Changes(a, b) + Changes(b, c) {
      var v :| Holds(a, id, v) != Holds(c, id, v);
      if Holds(a, id, v) != Holds(b, id, v) {
        DifferingIsKnown(a, b, id);
      } else {
        DifferingIsKnown(b, c, id);
      }
    }
    SubsetIsSmaller(Changes(a, c), Changes(a, b) + Changes(b, c));
  }

  lemma SubsetIsSmaller<T>(a: set<T>, b: set<T>)
    requires forall x :: x in a ==> x in b
    ensures |a| <= |b|
  {
    assert b == a + (b - a);
  }

  predicate AtMost(a: Reference, b: Reference) { a.id <= b.id }

  lemma SameReferencesSameList(a: seq<Reference>, b: seq<Reference>)
    requires Ordered(a) && Ordered(b) && forall r :: r in a <==> r in b
    ensures a == b
  {
    SameElementsSameMultiset(a, b);
    forall r, s | r in a && s in a && AtMost(r, s) && AtMost(s, r) ensures r == s {
      var i :| 0 <= i < |a| && a[i] == r;
      var j :| 0 <= j < |a| && a[j] == s;
      assert i == j;
    }
    SortedIsUnique(a, b, AtMost);
  }

  // Distance zero is equality: together with symmetry and the triangle inequality, a metric.
  lemma ZeroMeansEqual(a: seq<Reference>, b: seq<Reference>)
    requires Ordered(a) && Ordered(b)
    ensures Distance(a, b) == 0 <==> a == b
  {
    if Distance(a, b) == 0 {
      forall r ensures r in a <==> r in b {
        if Holds(a, r.id, r.version) != Holds(b, r.id, r.version) { DifferingIsKnown(a, b, r.id); }
      }
      SameReferencesSameList(a, b);
    }
  }

  // ---------------------------------------------------------------------------------------
  // The two-cursor count.

  lemma HeadOnly(a: seq<Reference>, b: seq<Reference>)
    requires Ordered(a) && a != [] && forall r :: r in b ==> a[0].id < r.id
    ensures Changes(a, b) == {a[0].id} + Changes(a[1..], b) && a[0].id !in Changes(a[1..], b)
  {
    var id0 := a[0].id;
    assert Holds(a, id0, a[0].version) && !Holds(b, id0, a[0].version);
    DifferingIsKnown(a, b, id0);
    forall id | id != id0 ensures id in Changes(a, b) <==> id in Changes(a[1..], b) {
      forall v ensures Holds(a, id, v) <==> Holds(a[1..], id, v) {  }
    }
    assert id0 !in Changes(a[1..], b);
  }

  lemma HeadsMatch(a: seq<Reference>, b: seq<Reference>)
    requires Ordered(a) && Ordered(b) && a != [] && b != [] && a[0].id == b[0].id
    ensures Changes(a, b) == (if a[0].version != b[0].version then {a[0].id} else {}) + Changes(a[1..], b[1..])
    ensures a[0].id !in Changes(a[1..], b[1..])
  {
    var id0 := a[0].id;
    forall id | id != id0 ensures id in Changes(a, b) <==> id in Changes(a[1..], b[1..]) {
      forall v ensures Holds(a, id, v) <==> Holds(a[1..], id, v) {  }
      forall v ensures Holds(b, id, v) <==> Holds(b[1..], id, v) {  }
    }
    forall v ensures Holds(a, id0, v) <==> v == a[0].version {  }
    forall v ensures Holds(b, id0, v) <==> v == b[0].version {  }
    if a[0].version != b[0].version {
      assert Holds(a, id0, a[0].version) != Holds(b, id0, a[0].version);
      DifferingIsKnown(a, b, id0);
    } else {
      assert !Differs(a, b, id0);
    }
    assert id0 !in IDs(a[1..]) && id0 !in IDs(b[1..]);
  }

  lemma DistanceHeadOnly(a: seq<Reference>, b: seq<Reference>)
    requires Ordered(a) && a != [] && (b == [] || a[0].id < b[0].id) && Ordered(b)
    ensures Distance(a, b) == 1 + Distance(a[1..], b)
  {
    forall r | r in b ensures a[0].id < r.id {
      var i :| 0 <= i < |b| && b[i] == r;
      assert i == 0 || b[0].id < b[i].id;
    }
    HeadOnly(a, b);
  }

  lemma {:induction false} DistanceToNothing(a: seq<Reference>)
    requires Ordered(a)
    ensures Distance(a, []) == |a| && Distance([], a) == |a|
  {
    Symmetric(a, []);
    if a == [] {
      assert Changes(a, []) == {};
    } else {
      DistanceHeadOnly(a, []);
      DistanceToNothing(a[1..]);
    }
  }

  lemma DistanceStep(a: seq<Reference>, b: seq<Reference>)
    requires Ordered(a) && Ordered(b) && a != [] && b != []
    ensures a[0].id < b[0].id ==> Distance(a, b) == 1 + Distance(a[1..], b)
    ensures a[0].id > b[0].id ==> Distance(a, b) == 1 + Distance(a, b[1..])
    ensures a[0].id == b[0].id ==>
      Distance(a, b) == (if a[0].version != b[0].version then 1 else 0) + Distance(a[1..], b[1..])
  {
    if a[0].id < b[0].id {
      DistanceHeadOnly(a, b);
    } else if a[0].id > b[0].id {
      Symmetric(a, b);
      Symmetric(a, b[1..]);
      DistanceHeadOnly(b, a);
    } else {
      HeadsMatch(a, b);
    }
  }

  // What the two cursors still have ahead of them.
  ghost function Ahead(previous: seq<Reference>, current: seq<Reference>, left: nat, right: nat): nat
    requires left <= |previous| && right <= |current|
  {
    Distance(previous[left..], current[right..])
  }

  lemma AheadStep(previous: seq<Reference>, current: seq<Reference>, left: nat, right: nat)
    requires Ordered(previous) && Ordered(current) && left < |previous| && right < |current|
    ensures previous[left].id < current[right].id ==>
      Ahead(previous, current, left, right) == 1 + Ahead(previous, current, left + 1, right)
    ensures previous[left].id > current[right].id ==>
      Ahead(previous, current, left, right) == 1 + Ahead(previous, current, left, right + 1)
    ensures previous[left].id == current[right].id ==>
      Ahead(previous, current, left, right) ==
      (if previous[left].version != current[right].version then 1 else 0) + Ahead(previous, current, left + 1, right + 1)
  {
    DistanceStep(previous[left..], current[right..]);
    assert previous[left..][1..] == previous[left + 1..] && current[right..][1..] == current[right + 1..];
  }

  lemma AheadAtEnd(previous: seq<Reference>, current: seq<Reference>, left: nat, right: nat)
    requires Ordered(previous) && Ordered(current) && left <= |previous| && right <= |current|
    requires left == |previous| || right == |current|
    ensures Ahead(previous, current, left, right) == (|previous| - left) + (|current| - right)
  {
    if left == |previous| {
      assert previous[left..] == [];
      DistanceToNothing(current[right..]);
    } else {
      assert current[right..] == [];
      DistanceToNothing(previous[left..]);
    }
  }

  // changedRelations counts the distance.
  method ChangedRelations(previous: seq<Reference>, current: seq<Reference>) returns (changed: nat)
    requires Ordered(previous) && Ordered(current)
    ensures changed == Distance(previous, current)
  {
    changed := 0;
    var left, right := 0, 0;
    assert previous[0..] == previous && current[0..] == current;
    while left < |previous| && right < |current|
      invariant left <= |previous| && right <= |current|
      invariant changed + Ahead(previous, current, left, right) == Distance(previous, current)
      decreases |previous| - left + |current| - right
    {
      AheadStep(previous, current, left, right);
      if previous[left].id < current[right].id {
        changed := changed + 1;
        left := left + 1;
      } else if previous[left].id > current[right].id {
        changed := changed + 1;
        right := right + 1;
      } else {
        if previous[left].version != current[right].version {
          changed := changed + 1;
        }
        left := left + 1;
        right := right + 1;
      }
    }
    AheadAtEnd(previous, current, left, right);
    changed := changed + (|previous| - left) + (|current| - right);
  }

  // ---------------------------------------------------------------------------------------
  // Builds.

  // addCount: the sum, or overflow of 64 bits.
  function AddCount(left: nat, right: nat): Option<nat>
    requires left <= MAX_UINT64
  {
    if MAX_UINT64 - left < right then None else Some(left + right)
  }

  type SetID = int
  type StructureID = int
  type CorporaID = int
  type Config = int

  // The relations a CommunitySet was detected from, and how.
  datatype CommunitySet = CommunitySet(detectorVersion: int, config: Config, relations: seq<Reference>)
  // A knowledge manifest; `rest` is everything in it but the relations.
  datatype Manifest = Manifest(relations: seq<Reference>, rest: int)
  datatype Structure = Structure(setID: SetID, corpora: CorporaID, knowledge: Manifest)
  datatype StructureState = NoStructure | At(structure: StructureID, pending: nat)

  datatype Input = Input(corpora: CorporaID, knowledge: Manifest)

  // One builder's settings; each call may come from a differently configured one.
  datatype Settings = Settings(detectorVersion: int, config: Config, threshold: nat)

  datatype Outcome = Existing(structure: StructureID) | Built(structure: StructureID, reused: bool) | Failed

  ghost function Pending(state: StructureState): nat {
    if state.NoStructure? then 0 else state.pending
  }

  class Store {
    var sets: map<SetID, CommunitySet>
    var structures: map<StructureID, Structure>
    var state: StructureState

    // Stored structures refer to stored sets; the counter fits 64 bits and bounds the distance
    // between the current relations and those the current set was detected from.
    ghost predicate Valid()
      reads this
    {
      ValidStore(sets, structures, state)
    }

    constructor ()
      ensures Valid() && state == NoStructure && sets == map[] && structures == map[]
    {
      sets, structures, state := map[], map[], NoStructure;
    }

    method LoadStructureAt(input: Input) returns (found: Option<StructureID>)
      ensures found.None? ==> forall id :: id in structures ==> !IsFor(structures[id], input)
      ensures found.Some? ==> found.value in structures && IsFor(structures[found.value], input)
    {
      found := None;
      var remaining := structures.Keys;
      while remaining != {}
        invariant remaining <= structures.Keys
        invariant forall id :: id in structures && id !in remaining ==> !IsFor(structures[id], input)
        decreases |remaining|
      {
        ghost var member := HasMember(remaining);
        var id: StructureID :| id in remaining;
        if IsFor(structures[id], input) { return Some(id); }
        remaining := remaining - {id};
      }
    }

    // Build. `newSet` and `newStructure` are the fresh identities a build allocates and
    // `detected` whether detection succeeds; on any failure nothing is stored.
    method Build(input: Input, settings: Settings, newSet: SetID, newStructure: StructureID, detected: bool)
      returns (outcome: Outcome)
      requires Valid() && Ordered(input.knowledge.relations) && settings.threshold > 0
      requires newSet !in sets && newStructure !in structures
      modifies this
      ensures Valid()
      ensures outcome.Built? <==> state != old(state)
      ensures !outcome.Built? ==> sets == old(sets) && structures == old(structures) && state == old(state)
      ensures outcome.Existing? <==> exists id :: id in old(structures) && IsFor(old(structures)[id], input)
      ensures outcome.Existing? ==> outcome.structure in structures && IsFor(structures[outcome.structure], input)
      ensures outcome.Failed? <==>
        && (forall id :: id in old(structures) ==> !IsFor(old(structures)[id], input))
        && (|| Accumulated(old(structures), old(state), input) > MAX_UINT64
            || (!MayReuse(old(sets), old(structures), old(state), input, settings) && !detected))
      ensures outcome.Built? ==>
        && outcome.structure == newStructure
        && BuildStep(old(sets), old(structures), old(state), input, settings, newSet, newStructure, sets, structures, state)
        && (outcome.reused <==> MayReuse(old(sets), old(structures), old(state), input, settings))
      ensures outcome.Existing? ==>
        && outcome.structure in structures && structures[outcome.structure].corpora == input.corpora
        && structures[outcome.structure].knowledge == input.knowledge
      ensures (exists id :: id in old(structures) && old(structures)[id].corpora == input.corpora
                && old(structures)[id].knowledge == input.knowledge) ==> outcome.Existing?
      ensures outcome.Built? ==> BuiltFor(sets, structures, state, input, settings, outcome.structure)
      ensures outcome.Built? ==>
        if outcome.reused then KeepsSet(old(sets), old(structures), old(state), input, settings, sets, structures, state)
        else
          && Outdated(old(sets), old(structures), old(state), input, settings)
          && sets == old(sets)[newSet := CommunitySet(settings.detectorVersion, settings.config, input.knowledge.relations)]
          && structures[newStructure].setID == newSet && state == At(newStructure, 0)
    {
      var existing := LoadStructureAt(input);
      if existing.Some? { return Existing(existing.value); }
      var previousRelations: seq<Reference> := [];
      var previousSet: Option<SetID> := None;
      var pending := 0;
      if state.At? {
        previousRelations := structures[state.structure].knowledge.relations;
        previousSet := Some(structures[state.structure].setID);
        pending := state.pending;
      }
      var relationChanges := ChangedRelations(previousRelations, input.knowledge.relations);
      var accumulated := AddCount(pending, relationChanges);
      if accumulated.None? { return Failed; }
      var rebuild :=
        || previousSet.None?
        || sets[previousSet.value].detectorVersion != settings.detectorVersion
        || sets[previousSet.value].config != settings.config
        || accumulated.value >= settings.threshold;
      if rebuild && !detected { return Failed; }
      StepKeepsValid(sets, structures, state, input, settings, newSet, newStructure);
      var chosen := if rebuild then newSet else previousSet.value;
      if rebuild {
        sets := sets[newSet := CommunitySet(settings.detectorVersion, settings.config, input.knowledge.relations)];
      }
      structures := structures[newStructure := Structure(chosen, input.corpora, input.knowledge)];
      state := At(newStructure, if rebuild then 0 else accumulated.value);
      outcome := Built(newStructure, !rebuild);
    }
  }

  // The current structure is the new one, for the input, over a set detected as the builder would.
  ghost predicate BuiltFor(
      sets: map<SetID, CommunitySet>, structures: map<StructureID, Structure>, state: StructureState,
      input: Input, settings: Settings, id: StructureID)
  {
    && state.At? && state.structure == id && id in structures
    && structures[id].corpora == input.corpora && structures[id].knowledge == input.knowledge
    && structures[id].setID in sets
    && sets[structures[id].setID].detectorVersion == settings.detectorVersion
    && sets[structures[id].setID].config == settings.config
  }

  // The previous structure's set is used again, its changes adding up below the threshold.
  ghost predicate KeepsSet(
      sets: map<SetID, CommunitySet>, structures: map<StructureID, Structure>, state: StructureState,
      input: Input, settings: Settings,
      sets': map<SetID, CommunitySet>, structures': map<StructureID, Structure>, state': StructureState)
  {
    && state.At? && state.structure in structures && state'.At? && state'.structure in structures'
    && sets' == sets && structures'[state'.structure].setID == structures[state.structure].setID
    && state'.pending == state.pending + Distance(structures[state.structure].knowledge.relations, input.knowledge.relations)
    && state'.pending < settings.threshold
  }

  // There is no previous set, it was detected otherwise, or too much has changed since.
  ghost predicate Outdated(
      sets: map<SetID, CommunitySet>, structures: map<StructureID, Structure>, state: StructureState,
      input: Input, settings: Settings)
  {
    || state.NoStructure?
    || (&& state.structure in structures && structures[state.structure].setID in sets
        && var previous := structures[state.structure];
        || sets[previous.setID].detectorVersion != settings.detectorVersion
        || sets[previous.setID].config != settings.config
        || state.pending + Distance(previous.knowledge.relations, input.knowledge.relations) >= settings.threshold)
  }

  predicate IsFor(s: Structure, input: Input) {
    s.corpora == input.corpora && s.knowledge == input.knowledge
  }

  ghost predicate ValidStore(sets: map<SetID, CommunitySet>, structures: map<StructureID, Structure>, state: StructureState) {
    && (forall id :: id in structures ==> structures[id].setID in sets && Ordered(structures[id].knowledge.relations))
    && (forall id :: id in sets ==> Ordered(sets[id].relations))
    && (state.At? ==>
      && state.structure in structures && state.pending <= MAX_UINT64
      && Staleness(sets, structures, state) <= state.pending)
  }

  // How far the current relations are from the ones the current set was detected from.
  ghost function Staleness(sets: map<SetID, CommunitySet>, structures: map<StructureID, Structure>, state: StructureState): nat
    requires state.At? ==> state.structure in structures && structures[state.structure].setID in sets
  {
    if state.NoStructure? then 0
    else Distance(sets[structures[state.structure].setID].relations, structures[state.structure].knowledge.relations)
  }

  ghost function PreviousRelations(structures: map<StructureID, Structure>, state: StructureState): seq<Reference> {
    if state.At? && state.structure in structures then structures[state.structure].knowledge.relations else []
  }

  ghost function Accumulated(structures: map<StructureID, Structure>, state: StructureState, input: Input): nat {
    Pending(state) + Distance(PreviousRelations(structures, state), input.knowledge.relations)
  }

  ghost predicate MayReuse(
    sets: map<SetID, CommunitySet>, structures: map<StructureID, Structure>, state: StructureState, input: Input, settings: Settings)
  {
    && state.At? && state.structure in structures && structures[state.structure].setID in sets
    && sets[structures[state.structure].setID].detectorVersion == settings.detectorVersion
    && sets[structures[state.structure].setID].config == settings.config
    && Accumulated(structures, state, input) < settings.threshold
  }

  // A build that stores something: the previous set is kept and the count accumulates, or a
  // fresh set is detected from the given relations and the count starts again.
  ghost predicate BuildStep(
    sets: map<SetID, CommunitySet>, structures: map<StructureID, Structure>, state: StructureState,
    input: Input, settings: Settings, newSet: SetID, newStructure: StructureID,
    sets': map<SetID, CommunitySet>, structures': map<StructureID, Structure>, state': StructureState)
  {
    && Accumulated(structures, state, input) <= MAX_UINT64
    && if MayReuse(sets, structures, state, input, settings) then
         && sets' == sets
         && structures' == structures[newStructure := Structure(structures[state.structure].setID, input.corpora, input.knowledge)]
         && state' == At(newStructure, Accumulated(structures, state, input))
       else
         && sets' == sets[newSet := CommunitySet(settings.detectorVersion, settings.config, input.knowledge.relations)]
         && structures' == structures[newStructure := Structure(newSet, input.corpora, input.knowledge)]
         && state' == At(newStructure, 0)
  }

  lemma StepKeepsValid(
      sets: map<SetID, CommunitySet>, structures: map<StructureID, Structure>, state: StructureState,
      input: Input, settings: Settings, newSet: SetID, newStructure: StructureID)
    requires ValidStore(sets, structures, state) && Ordered(input.knowledge.relations)
    requires newSet !in sets && newStructure !in structures
    ensures forall sets', structures', state' ::
      BuildStep(sets, structures, state, input, settings, newSet, newStructure, sets', structures', state') ==>
      ValidStore(sets', structures', state')
  {
    forall sets', structures', state'
      | BuildStep(sets, structures, state, input, settings, newSet, newStructure, sets', structures', state')
      ensures ValidStore(sets', structures', state')
    {
      if MayReuse(sets, structures, state, input, settings) {
        var s := structures[state.structure];
        Triangle(sets[s.setID].relations, s.knowledge.relations, input.knowledge.relations);
      } else {
        ZeroMeansEqual(input.knowledge.relations, input.knowledge.relations);
      }
    }
  }

  // ---------------------------------------------------------------------------------------
  // Whole runs.

  datatype World = World(sets: map<SetID, CommunitySet>, structures: map<StructureID, Structure>, state: StructureState)

  const EMPTY := World(map[], map[], NoStructure)

  // A build attempt commits, or leaves everything as it was.
  ghost predicate Committed(w: World, input: Input, settings: Settings, newSet: SetID, newStructure: StructureID, w': World) {
    && Ordered(input.knowledge.relations) && newSet !in w.sets && newStructure !in w.structures
    && BuildStep(w.sets, w.structures, w.state, input, settings, newSet, newStructure, w'.sets, w'.structures, w'.state)
  }

  ghost predicate WorldStep(w: World, settings: Settings, w': World) {
    w' == w || exists input, newSet, newStructure :: Committed(w, input, settings, newSet, newStructure, w')
  }

  ghost predicate IsRun(worlds: seq<World>, settings: seq<Settings>) {
    && |worlds| == |settings| + 1 && worlds[0] == EMPTY
    && forall i :: 0 <= i < |settings| ==> settings[i].threshold > 0 && WorldStep(worlds[i], settings[i], worlds[i + 1])
  }

  ghost predicate WorldValid(w: World) { ValidStore(w.sets, w.structures, w.state) }

  lemma StepBounds(w: World, settings: Settings, w': World)
    requires WorldValid(w) && WorldStep(w, settings, w') && settings.threshold > 0
    ensures WorldValid(w')
    ensures w' != w ==> w'.state.At? && Pending(w'.state) < settings.threshold
  {
    if w' != w {
      var input, newSet, newStructure :| Committed(w, input, settings, newSet, newStructure, w');
      StepKeepsValid(w.sets, w.structures, w.state, input, settings, newSet, newStructure);
    }
  }

  // Over every run of builders that agree on the threshold, the counter stays below it, and so
  // does the distance between the current relations and those behind the CommunitySet in use.
  lemma {:induction false} RunsBoundStaleness(worlds: seq<World>, settings: seq<Settings>, threshold: nat, i: nat)
    requires IsRun(worlds, settings) && i < |worlds| && threshold > 0
    requires forall k :: 0 <= k < |settings| ==> settings[k].threshold <= threshold
    ensures WorldValid(worlds[i]) && Pending(worlds[i].state) < threshold
    ensures Staleness(worlds[i].sets, worlds[i].structures, worlds[i].state) <= Pending(worlds[i].state)
  {
    if i == 0 {
    } else {
      RunsBoundStaleness(worlds, settings, threshold, i - 1);
      assert WorldStep(worlds[i - 1], settings[i - 1], worlds[i - 1 + 1]);
      StepBounds(worlds[i - 1], settings[i - 1], worlds[i]);
    }
  }

  // Sets and structures are only ever added.
  ghost predicate Extends(w: World, w': World) {
    && (forall id :: id in w.sets ==> id in w'.sets && w'.sets[id] == w.sets[id])
    && (forall id :: id in w.structures ==> id in w'.structures && w'.structures[id] == w.structures[id])
  }

  lemma {:induction false} RunsExtend(worlds: seq<World>, settings: seq<Settings>, i: nat, j: nat)
    requires IsRun(worlds, settings) && i <= j < |worlds|
    ensures Extends(worlds[i], worlds[j])
  {
    if i < j {
      RunsExtend(worlds, settings, i, j - 1);
      assert WorldStep(worlds[j - 1], settings[j - 1], worlds[j - 1 + 1]);
    }
  }

  // A builder reads the store, works, and commits later by compare-and-set on the state. If
  // the state is still the one it read, what it decided then is what it would decide now, so
  // concurrent builds commit as if each ran alone.
  lemma LateCommitDecidesTheSame(
      worlds: seq<World>, settings: seq<Settings>, i: nat, j: nat, input: Input, own: Settings)
    requires IsRun(worlds, settings) && i <= j < |worlds| && worlds[i].state == worlds[j].state
    ensures
      var before, now := worlds[i], worlds[j];
      && (MayReuse(before.sets, before.structures, before.state, input, own) <==> MayReuse(now.sets, now.structures, now.state, input, own))
      && Accumulated(before.structures, before.state, input) == Accumulated(now.structures, now.state, input)
  {
    var threshold := MaxThreshold(settings);
    RunsBoundStaleness(worlds, settings, threshold, i);
    RunsExtend(worlds, settings, i, j);
  }

  lemma {:induction false} MaxThreshold(settings: seq<Settings>) returns (threshold: nat)
    ensures threshold > 0 && forall k :: 0 <= k < |settings| ==> settings[k].threshold <= threshold
  {
    threshold := 1;
    if settings == [] {
    } else {
      var last := settings[|settings| - 1].threshold;
      threshold := MaxThreshold(settings[..|settings| - 1]);
      threshold := if threshold < last then last else threshold;
      forall k | 0 <= k < |settings| ensures settings[k].threshold <= threshold {
        if k < |settings| - 1 { assert settings[..|settings| - 1][k] == settings[k]; }
      }
    }
  }
}
