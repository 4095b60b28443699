# Verified model of the knowledge pipeline's core algorithms

A Dafny model of the algorithms and protocols that carry evidence from stored text to community
reports, and proofs about them. `dafny verify dfyconfig.toml` checks everything.

| module | what it models |
|---|---|
| `CommunityGraph` | edge normalization, the union-find, the stable largest connected component |
| `Hierarchy` | the hierarchy validator, and what acceptance gives: a forest, and finals that partition the root nodes |
| `CommunitySets` | translation of a hierarchy to content identities, and the two validators of the result |
| `ReportEvidence`, `EvidencePacking`, `FragmentPlan` | selecting a community's evidence, splitting it along the hierarchy, packing it under a token budget, checking coverage |
| `FragmentReduce` | merging report fragments in rounds until the final prompt fits |
| `StructureBuild` | reuse or rebuild of a community set, and how stale a reused one can be |
| `ActionRuntime` | requesters, the one-slot wake channel and the runner, interleaved |
| `EventDelivery` | ordered reads, positions advanced by compare-and-set, causal continuation |
| `TokenChunker` | the sliding token window on character boundaries, and restoring its output |
| `TextUnitPreparation` | batched, resumable commits of the chunks |
| `SemanticBatching` | greedy contiguous embedding batches and the scatter back to input order |
| `MessageLog` | the idempotent append-only message log with its 64-bit bound |

`Sorting`, `Sets`, `Widths` and `Wrappers` hold shared definitions.

How the model reads the code:

- Identifiers and texts are only compared and ordered, so they are integers; any finite set of
  strings can be numbered in byte order. Weights and raw vectors are opaque values.
- SHA-256 content identities are an injective function; random UUIDs are fresh values; token
  counters, renderers and embedders are arbitrary functions that may fail. A prompt is
  represented by the batch it renders.
- Text is its length in bytes and the offsets at which its characters start (the sequence starts of
  section 3 of RFC 3629).
- `sort.Slice` is modelled by a stable insertion sort. Where the order separates the elements every
  sort gives the same sequence (`Sorting.SortedIsUnique`); where equal keys occur (the same row
  merged twice) the elements are equal too.
- Error texts are dropped, error cases are kept, in the order the branches take them.

What the proofs found, beyond the expected:

- An accepted hierarchy may still have siblings that share entities. Evidence planning then fails
  its coverage check, and it does so exactly when such siblings are reached
  (`FragmentPlan.PlanConserves`); for one accepted hierarchy no token budget helps
  (`FragmentPlan.AcceptedMayBeUnplannable`). The comment in `community/report/batch_context.go`
  line 24, that a batch owns a disjoint subset, is what the check establishes, not a given.
- A runner that stops with an error leaves the zone it was processing blocked until a later
  boundary for it is taken, and leaves queued requests without a wake-up exactly when it had
  consumed their token and no requester was about to send. Running it again
  (`assembly/process_runtime.go` lines 69-87 allow that) does not serve them; the next request that
  queues something does (`ActionRuntime.StrandedExactly`, `ActionRuntime.BlockedExactly`).
- The chunker cuts the same text range twice exactly when all tokens between two windows' starts and
  between their ends are empty (`TokenChunker.RangeRepeatsExactly`); with non-empty tokens it never
  does.

## Model

| member | source | states |
|---|---|---|
| CommunityGraph.DisjointSets.Find | community/graph.go:114-125 | terminates on every forest, returns the representative, and path compression changes no node's representative |
| CommunityGraph.DisjointSets.Join | community/graph.go:126-132 | merges exactly the two classes and keeps the forest acyclic |
| CommunityGraph.MergedIsConnectivity | community/graph.go:126-132 | if two nodes share a representative exactly when a path of the edges so far joins them, the same holds after merging over one more edge |
| CommunityGraph.Unite | community/graph.go:109-132 | after all edges two nodes share a representative if and only if an edge path joins them |
| CommunityGraph.GroupByRoot | community/graph.go:134-142 | the groups are the classes, in order of discovery, each listing its nodes in order |
| CommunityGraph.LargestComponent | community/graph.go:93-155 | returns a connected component of maximum size, the earliest discovered among the largest |
| CommunityGraph.LargestComponentIsUnique | community/graph.go:144-149 | that description picks one set only, so the tie-break is deterministic |
| CommunityGraph.DiscoveryFollowsEdges | community/graph.go:94-107 | nodes are discovered as sources by first occurrence, then the remaining ones as targets by first occurrence, which is what ties are broken by |
| CommunityGraph.NormalizeDirectionKeepLast | community/graph.go:32-49 | row i has the ends in order and the weight of the input edge at a strictly rising place, and these places are exactly those of edges no later edge shares its two ends with |
| CommunityGraph.LastEdgesAreLast | community/graph.go:41-48 | the kept edges are exactly the oriented last occurrences, one per pair |
| CommunityGraph.LastEdgesConnectTheSame | community/graph.go:32-49 | keeping the last edge of each pair of ends keeps exactly what the input connects |
| CommunityGraph.StableLargestConnectedComponent | community/graph.go:51-84 | keeps exactly the edges inside the largest component; the duplicate filter drops nothing |
| CommunityGraph.ComponentHoldsBothEnds | community/graph.go:69-74 | an edge has both ends in a component or none, so the second endpoint filter drops nothing |
| CommunityGraph.PrepareEdges | community/graph.go:18-30 | every row has the two ends, in order, and the weight of an input edge that is the last with these ends; every such edge inside the kept component has its row; rows ascend strictly by source and target |
| CommunityGraph.PreparedIsUnique | community/graph.go:18-30 | that description has one answer, so the result does not depend on the sort |
| CommunityGraph.PreparationIsIdempotent | community/graph.go:18-30 | preparing prepared edges changes nothing, with or without the component filter |
| CommunityGraph.WholeComponentStays | community/graph.go:65-83 | the kept component is the largest component of the kept edges, and their only one |
| Hierarchy.Validate | community/validation.go:7-72 | accepts exactly the hierarchies with unique numbers, contained children, childless finals and every root node in one final |
| Hierarchy.NodesContained | community/validation.go:74-85 | decides containment of one node list in another |
| Hierarchy.LevelsAreNonNegative | community/validation.go:24-51 | in an accepted hierarchy no level is negative, although only parents are compared |
| Hierarchy.EveryChainReachesARoot | community/validation.go:41-56 | every community has a chain of parents to a root that contains all its nodes |
| Hierarchy.ParentIsUnique | community/validation.go:41-56 | a community has one parent |
| Hierarchy.RootExists | community/validation.go:41-56 | an accepted hierarchy has a root |
| Hierarchy.FinalsPartitionRootNodes | community/validation.go:58-70 | final communities are duplicate-free, pairwise disjoint, and cover exactly the root nodes |
| Hierarchy.SiblingsMayOverlap | community/validation.go:7-72 | an accepted hierarchy whose siblings share a node: acceptance does not make siblings disjoint |
| CommunitySets.RebuildInvertsTranslation | community/community_set.go:120-190 | numbers to identities to numbers gives back the sorted hierarchy |
| CommunitySets.TranslationIsValid | community/community_set.go:120-190 | the translated memberships are valid if and only if the valid hierarchy is representable |
| CommunitySets.ValidIsRepresentable | community/community_set_validation.go:14-151 | memberships that pass validation came from contiguous numbers, known distinct nodes and distinct member sets |
| CommunitySets.NewCommunitySet | community/community_set.go:120-190 | stores exactly the valid, representable hierarchies: one membership per community by level and number, with its fields, its members in strict order, their identity, and the identity of the membership that has its parent's number |
| CommunitySets.ValidateCommunitySet | community/community_set_validation.go:14-151 | accepts exactly the ordered, content-addressed lists whose rebuilt hierarchy is valid |
| CommunitySets.ValidateMembers | community/community_set_validation.go:230-261 | accepts exactly non-empty, strictly ascending member lists of known entities |
| CommunitySets.CheckIdentities | community/community_set_validation.go:262-268 | accepts exactly the lists in which every identity is that of its members |
| CommunitySets.ValidateReportCommunities | community/report/input_validation.go:57-149 | accepts exactly the lists that meet the report contract, which never rebuilds the hierarchy |
| CommunitySets.ReportsAgreeWithHierarchy | community/report/input_validation.go:119-147 | the report checks hold if and only if parents resolve and the hierarchy the list stands for is valid |
| CommunitySets.ValidatorsAgree | community/report/input_validation.go:57-149 | the two independent validators accept the same lists, up to the content identities |
| CommunitySets.StoredHierarchyStaysValid | community/community_set.go:120-190 | what was stored passes both validators, and rebuilding returns it |
| CommunitySets.ValidityIgnoresOrder | community/community_set.go:147-189 | validity of a hierarchy survives any reordering of its communities |
| CommunitySets.ValidityIgnoresNodeOrder | community/community_set.go:147-189 | validity survives sorting the nodes of every community |
| ReportEvidence.SelectCommunityInput | community/report/model_context.go:182-232 | selects the members' entities by falling degree and identity, the relations with both ends among the members by falling combined degree and identity, and the claims about a member or such a relation |
| ReportEvidence.SelectionIsHereditary | community/report/fragment_plan.go:123-156 | a child's share of its parent's numbered evidence is what the child would select for itself, in the same order |
| ReportEvidence.SelectionIsWellFormed | community/report/model_context.go:182-232 | a selection, once numbered, has strict rows told apart by their identities |
| ReportEvidence.NumberReportInput | community/report/batch_context.go:33-49 | numbers each kind of row by its place |
| ReportEvidence.MergeTimes | community/report/batch_context.go:124-140 | merging holds every row as often as both sides together |
| ReportEvidence.MergeOrders | community/report/batch_context.go:130-138 | merging leaves rows in ascending order |
| ReportEvidence.OrderedBatchIsDetermined | community/report/batch_context.go:124-140 | row order and row counts determine a batch, whatever sort produced it |
| ReportEvidence.ReportBatchForMembers | community/report/fragment_plan.go:123-156 | takes exactly the member entities, the relations with both ends among the members, and the claims about a member or a relation taken, keeping strict row order |
| ReportEvidence.ForMembersTimes | community/report/fragment_plan.go:123-156 | a row is taken with its full count or not at all, by its owner's membership |
| ReportEvidence.SharedItemSharesEntity | community/report/fragment_plan.go:134-154 | two communities that take the same row of any kind share an entity |
| ReportEvidence.SubtractReportBatch | community/report/fragment_plan.go:158-188 | keeps exactly the rows of each kind whose number no owned row of that kind has |
| ReportEvidence.SubtractTimes | community/report/fragment_plan.go:158-188 | subtracting by row number removes exactly the owned rows |
| ReportEvidence.ReportEvidenceAtoms | community/report/fragment_plan.go:246-288 | yields every row once, entities before relations before claims about neither, each by row, and a claim behind what it is about |
| ReportEvidence.AtomsAscend | community/report/fragment_plan.go:246-288 | the atoms ascend strictly by that place, so there is one arrangement of them |
| ReportEvidence.AtomsConserve | community/report/fragment_plan.go:246-288 | taking a batch apart yields every row exactly as often as it was there |
| EvidencePacking.PackReportEvidence | community/report/fragment_plan.go:190-238 | the greedy grouping of the atoms with every group within the budget; otherwise the counter failed or a row of the input alone exceeds it |
| EvidencePacking.CombineReportCandidates | community/report/fragment_plan.go:290-315 | the greedy grouping of neighbours; fails only without candidates or with the counter |
| EvidencePacking.GreedyIsUnique | community/report/fragment_plan.go:190-238 | nothing else is a greedy grouping of the same items, for any budget |
| EvidencePacking.Check | community/report/fragment_plan.go:317-336 | a batch fits exactly if its count succeeds and lies between zero and the limit, and exceeds exactly if it lies beyond |
| EvidencePacking.GroupsEndOverBudget | community/report/fragment_plan.go:199-236 | in counts: a group with its next item counts more than the limit, and what it grew from never did |
| EvidencePacking.GreedyTimes | community/report/fragment_plan.go:290-315 | grouping keeps every row as often as it was there |
| EvidencePacking.GreedyKeeps | community/report/fragment_plan.go:290-315 | groups are in row order, and fit when the items fit |
| FragmentPlan.GroupChildren | community/report/fragment_plan.go:19-29 | maps every identity to exactly the memberships that name it as parent, by rising number |
| FragmentPlan.SplitReportRegion | community/report/fragment_plan.go:67-121 | terminates by level, yields the region's plan; "child owns no evidence" is unreachable, and only a failing counter or a row too large alone stops it |
| FragmentPlan.PlanFits | community/report/fragment_plan.go:67-121 | every batch of a plan fits the budget and is in row order |
| FragmentPlan.WholeExactly | community/report/fragment_plan.go:76-84 | a region is kept whole exactly if it may be and its count lies between zero and the limit |
| FragmentPlan.ChildrenComeInOrder | community/report/fragment_plan.go:92-120 | a batch with rows of earlier children comes before one with rows of later children or of none |
| FragmentPlan.PlanConserves | community/report/fragment_plan.go:67-121 | a plan owns all evidence of its region and nothing else, and owns it exactly once if and only if no overlapping siblings had to be split |
| FragmentPlan.ShareIsRegion | community/report/fragment_plan.go:92-96 | a child's share holds all its entities and is never empty |
| FragmentPlan.ValidateBatchCoverage | community/report/fragment_plan.go:338-369 | succeeds if and only if every complete row number is owned exactly once |
| FragmentPlan.CoverageIsExactness | community/report/fragment_plan.go:338-369 | for batches of input rows, coverage by row number is exact ownership of every row |
| FragmentPlan.PlanReportFragments | community/report/fragment_plan.go:11-65 | on success every row of the input is in exactly one batch, every batch fits and its rows ascend strictly; it fails only on the counter, a row too large alone, or overlap reached, so with a working counter and rows that fit it succeeds if and only if no overlap is reached; "planned batch exceeds" and "no batches" are unreachable |
| FragmentPlan.SelectionIsRegion | community/report/model_context.go:87-93 | what a community selects from validated evidence meets the planner's precondition |
| FragmentPlan.ApartNeverOverlaps | community/report/fragment_plan.go:86-111 | with disjoint siblings no overlap is reached, whatever the budget, so coverage cannot fail |
| FragmentPlan.OverlapIsReached | community/report/fragment_plan.go:31-51 | overlapping children of the planned community are always reached |
| FragmentPlan.SharedNodeIsUnplannable | community/report/fragment_plan.go:48-50 | storing any valid hierarchy with overlapping siblings gives an accepted list in which their parent cannot be planned under any budget |
| FragmentPlan.AcceptedMayBeUnplannable | community/report/fragment_plan.go:48-50 | such a hierarchy exists |
| FragmentReduce.WidestFragmentGroups | community/report/fragment_reduce.go:159-187 | groups concatenate to the fragments, every merged group fits, no group could have taken one more, and reduced tells whether any has two |
| FragmentReduce.NotReducedMeansNoPair | community/report/fragment_reduce.go:159-187 | when nothing was grouped no adjacent pair fits a merge prompt |
| FragmentReduce.ReduceFragments | community/report/fragment_reduce.go:65-138 | terminates for every model, and gives a trace of its rounds: each was needed, grouped all its fragments into the widest groups that fit, and replaced each group by its only member or by the model's reply to that group; calls are the merged groups, fewer than the fragments; a list that fits is returned without a call; every refusal has its cause, and when nothing fails these are one fragment too large and no pair that fits |
| StructureBuild.ChangedRelations | community/structurebuild/builder.go:218-242 | the two-cursor count is the number of identities whose version or presence differs |
| StructureBuild.Triangle | community/structurebuild/builder.go:218-242 | the count obeys the triangle inequality |
| StructureBuild.Symmetric | community/structurebuild/builder.go:218-242 | the count is symmetric |
| StructureBuild.ZeroMeansEqual | community/structurebuild/builder.go:218-242 | it is zero exactly for equal ordered lists |
| StructureBuild.Store.Build | community/structurebuild/builder.go:72-166 | returns an existing structure exactly if one has the same corpora and manifest, fails exactly on overflow or when a rebuild is due and detection fails; otherwise stores one for the input over a set with the builder's detector version and configuration: the previous one exactly if its changes add up below the threshold, or a new one |
| StructureBuild.StepKeepsValid | community/structurebuild/builder.go:116-143 | every commit keeps the invariant that the pending count bounds the set's staleness |
| StructureBuild.RunsBoundStaleness | community/structurebuild/builder.go:182-204 | over every run the current set's baseline differs from the current relations by at most the pending count, which stays below the largest threshold used |
| StructureBuild.RunsExtend | community/structurebuild/builder.go:144-161 | stored structures and sets are never changed or lost |
| StructureBuild.LateCommitDecidesTheSame | community/structurebuild/builder.go:94-161 | a commit that still finds the state it read makes the decision it would make now |
| ActionRuntime.Runtime.Enqueue | internal/actionruntime/runtime.go:158-188 | queues and rings exactly if some observed boundary lies beyond the active one and, unless retried, beyond the failed one; each such boundary is then queued at least that high, nothing else is raised, and a Retry that queues forgets the zone's failures |
| ActionRuntime.RequestIsQueued | internal/actionruntime/runtime.go:158-194 | in every run, Retry queues what it observed beyond the active boundaries even if it failed, will ring, and clears the failures; Start does so for what has not failed |
| ActionRuntime.Runtime.Coalesce | internal/actionruntime/runtime.go:183-187 | coalescing keeps the maximum per event type |
| ActionRuntime.Runtime.TakeRequest | internal/actionruntime/runtime.go:220-233 | moves one queued zone to the active ones, or finds none exactly when nothing is queued |
| ActionRuntime.Runtime.MarkFailed | internal/actionruntime/runtime.go:305-318 | one boundary changes and no other; from then on Start queues that event type in that zone only beyond it, and everything else as before |
| ActionRuntime.RunsKeepInv | internal/actionruntime/runtime.go:158-239 | in every interleaving, restarts included: queued boundaries exceed the active and failed ones, what is processed is active and not below what failed, no accepted boundary is lost, and nothing is queued that was not asked for |
| ActionRuntime.StrandedByStep | internal/actionruntime/runtime.go:190-217 | a step leaves a queued request without token, sender or runner exactly if it is an error stop over such a queue, or the request was left so before and nobody queues anything |
| ActionRuntime.StrandedExactly | assembly/process_runtime.go:69-87 | over all runs requests are stranded exactly between such a stop and the next queueing, and restarting the runner does not help |
| ActionRuntime.NoLostWakeUp | internal/actionruntime/runtime.go:158-233 | without such a stop a queued request always has a full wake slot, a runner at work or a requester about to send |
| ActionRuntime.RestMeansServed | internal/actionruntime/runtime.go:190-217 | when runner, slot and requesters are at rest something is queued exactly if it is stranded; otherwise every accepted boundary was handed over |
| ActionRuntime.FailureOnlyGrows | internal/actionruntime/runtime.go:164-177 | without Retry the failed boundary of a zone never shrinks |
| ActionRuntime.FailedBoundaryIsNotRerun | internal/actionruntime/runtime.go:158-187 | until Retry the runner never takes a boundary at or below a failed one |
| ActionRuntime.BlockedExactly | internal/actionruntime/runtime.go:211-214 | over all runs, restarts included, a zone is active without being processed exactly between an error in it and the next time it is taken |
| ActionRuntime.AbortedZoneStaysBlocked | internal/actionruntime/runtime.go:158-187 | meanwhile nothing at or below the aborted boundaries is queued there, retried or not, so it is next taken with later boundaries only |
| ActionRuntime.StopStrandsRequests | internal/actionruntime/runtime.go:197-217 | a run after which the restarted runner waits while a request is queued |
| EventDelivery.Events | journal/reader.go:29-93 | accepts exactly store answers of the type asked for, strictly ordered from the position, and returns the longest prefix before the boundary |
| EventDelivery.TrimIsPrefix | journal/event.go:60-67 | trimming gives the longest prefix before the boundary |
| EventDelivery.StreamEventsAfter | journal/reader.go:126-156 | accepts exactly the unbroken continuation of the stream, as far as 64-bit sequences reach |
| EventDelivery.Consumer.ProcessEventType | internal/actionruntime/runtime.go:262-303 | hands the handler exactly the subscribed events between the old and the new position, in order; it answers each as handled, and the outcome is its answer to the first one it does not handle, which stays first; never beyond the boundary |
| EventDelivery.HandleCausalStream | journal/dispatcher.go:254-281 | hands the handler the event and then, as the stream grows, each event that is next in the stream, caused by the one before and handled by the consumer, in order, up to the first failure; fails otherwise exactly on a last read that fails or is not contiguous, and always ends |
| EventDelivery.RunsHandleBelowPosition | journal/dispatcher.go:202-249 | over every run with crashes and concurrent workers, each subscribed event below the persisted position was handled |
| EventDelivery.PositionsGrowWithinBoundary | journal/dispatcher.go:234-245 | positions only grow, only by a worker's advance, and never past its boundary |
| EventDelivery.UnfinishedEventComesFirst | internal/actionruntime/runtime.go:281-289 | while the position has not moved, an unfinished event is the first one every later read delivers |
| TokenChunker.Chunk | corpus/textunits/token_chunker.go:55-126 | each window ends at the last boundary within its size, the next starts at the first boundary that is later and shares at most the overlap, and the last one ends the text; chunks are their byte and character ranges; otherwise the matching error |
| TokenChunker.ExactWindowsAreUnique | corpus/textunits/token_chunker.go:88-124 | that leaves one list of windows only |
| TokenChunker.WindowsCover | corpus/textunits/token_chunker.go:88-124 | windows start at token 0, end at the last token, leave no gap, respect size and overlap, on boundaries, starts strictly and ends weakly increasing |
| TokenChunker.StartsIncrease | corpus/textunits/token_chunker.go:113-123 | starts strictly increase across the whole list |
| TokenChunker.FailsExactlyWithoutBoundary | corpus/textunits/token_chunker.go:93-106 | the end error occurs exactly when a reached window contains no boundary; the start error never |
| TokenChunker.WindowsAreStrides | corpus/textunits/token_chunker.go:88-124 | if every token ends on a boundary the windows are the fixed strides |
| TokenChunker.CountWhenAllBoundaries | corpus/textunits/token_chunker.go:88-124 | then there are 1 + ceil(max(0, n - size) / (size - overlap)) chunks |
| TokenChunker.StridesWhenAllBoundaries | corpus/textunits/token_chunker.go:88-124 | and chunk i starts at i * (size - overlap) |
| TokenChunker.RestoreChunkedText | corpus/corpus.go:168-198 | accepts exactly non-empty lists of well-formed units with proper, pairwise different ranges, and returns them strictly ascending by range |
| TokenChunker.RangeIsEmptyExactly | corpus/textunits/token_chunker.go:103-109 | a chunk's character range is empty exactly when its window holds only empty tokens |
| TokenChunker.RangeRepeatsExactly | corpus/textunits/token_chunker.go:88-124 | two chunks cover the same range exactly when all tokens between their starts and all between their ends are empty |
| TokenChunker.ChunkedUnitsStayInOrder | corpus/corpus.go:179-196 | for any tokens restoring chunker output sorts nothing, and accepts it exactly when the bodies are well formed and no range is empty or repeated by empty tokens |
| TokenChunker.NonEmptyTokensKeepRangesApart | corpus/corpus.go:179-196 | for non-empty tokens the range checks never fire |
| TokenChunker.EmptyTokenRepeatsRange | corpus/textunits/token_chunker.go:88-124 | an input whose empty token makes two windows cover the same text |
| TextUnitPreparation.Store.RecordTextUnits | corpus/text_unit_preparation.go:156-211 | commits batch after batch from the resume position; a crash or a conflict leaves a prefix, success the whole list |
| TextUnitPreparation.CommitKeepsConsistent | corpus/text_unit_preparation.go:175-209 | every transaction leaves the stored units a longer prefix, by 128 units or up to the end, and completes exactly with the last unit |
| TextUnitPreparation.RunsStayConsistent | corpus/text_unit_preparation.go:156-211 | with any crashes and concurrent drivers the stored units are the prefix up to the resume position, and completion, everything stored, and one published event coincide |
| TextUnitPreparation.CompletionIsFinal | corpus/text_unit_preparation.go:169-174 | once complete nothing changes any more |
| TextUnitPreparation.OneDriverWins | corpus/text_unit_preparation.go:179-187 | of two drivers at the same position only one commits |
| SemanticBatching.Batches | semantic/generator.go:105-141 | succeeds exactly on texts with a positive count within the limit; the batches concatenate to the input, start where those before end, respect both limits, and each would break one with the next item |
| SemanticBatching.BatchesConcatenate | semantic/generator.go:105-141 | the batches concatenate to the input |
| SemanticBatching.GreedyStaysAhead | semantic/generator.go:118-136 | the greedy cuts reach at least as far as any other split's, cut by cut |
| SemanticBatching.GreedyIsMinimal | semantic/generator.go:118-136 | no split within the limits has fewer batches |
| SemanticBatching.Generate | semantic/generator.go:46-103 | succeeds exactly when every text can be batched, every greedy batch gets one answer per text and all answers normalize to one dimension; then the vector of every input is the normalized answer for its place in its batch; each error names where one of these failed |
| SemanticBatching.BatchesAreUnique | semantic/generator.go:118-136 | the greedy batches of an input are the only ones |
| SemanticBatching.BatchingIsInvisible | semantic/generator.go:46-103 | for an embedder that works text by text the limits cannot be observed in the result |
| MessageLog.Log.Append | corpus/message/log.go:42-92 | keeps what is stored, places exactly the new messages at the next positions in the order given, returns every occurrence in the order asked, and rejects exactly invalid requests, conflicts and appends past 64 bits, changing nothing |
| MessageLog.PrepareMessages | corpus/message/log.go:145-161 | accepts exactly non-empty lists of valid messages with distinct identities |
| MessageLog.Existing | corpus/message/log.go:109-135 | for whatever persistence returned: accepts exactly requested, unaltered occurrences found once each, and otherwise the first one that is not decides the error |
| MessageLog.AppendKeepsValid | corpus/message/log.go:66-91 | identities stay unique and positions stay 0..n-1 |
| MessageLog.RepeatIsARead | corpus/message/log.go:42-92 | repeating an append writes nothing and returns the same occurrences |
| MessageLog.RunsOnlyExtend | corpus/message/log.go:42-92 | over every run stored entries never change and only grow at the end |
| MessageLog.RetriesAgree | corpus/message/log.go:42-92 | two appends anywhere in a run that share a message return the same occurrence for it |

## Left out

- EventDelivery.Consumer.ProcessEventType: reads a fixed journal and does not model a concurrent change of the persisted position; the step relation of the same module does.
- FragmentPlan.PlanReportFragments: returns the batches instead of the rendered prompts, and takes rendering and counting as one function of the batch.
- FragmentReduce.ReduceFragments: runs the merge calls of a round one after the other, since each writes its own slot.
- StructureBuild.Store.Build: the commit is one atomic step; the manifest's relations are in strict order and the rest of it is one opaque value.
- SemanticBatching.Generate: vectors and their normalization are opaque, and embedding calls run one after the other.
- TokenChunker.Chunk: cancellation between windows is not modelled.
- ReportEvidence.SelectCommunityInput: titles, descriptions, versions and TextUnit references of the rows are not carried; a row stands for its identity.
- SQLite stores, files, transactions' implementation, HTTP, MCP and command-line wiring.
- The Leiden detector, token vocabularies, prompt wording, CSV and JSON rendering and hashing.
- Format checks of identifiers, versions and periods, settings and configuration defaults, logging.
- Journal entries by offset, pending counts, publication of events, consumer registration.
- Activation, knowledge submission, resolution and the query engines.
- Whether every zone is eventually chosen by the runner: the proofs are about safety, not fairness.
