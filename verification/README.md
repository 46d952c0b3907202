# RagZoom: a verified model of its tilings, coordinates, partitioners and accounting

RagZoom answers a query with a *tiling*: nodes of a tree of summaries, some leaves and some summaries,
that together stand for the document at different levels of detail. This project models how the tiling
is chosen and checked, the arithmetic that locates nodes in the tree, the partitioners and caches on the
way in, and the accounting on the way out, and proves what they promise for all inputs.

Run `dafny verify dfyconfig.toml`.

## How the model is organised

- `Forest`, `Spans`, `Sorting`, `Slices`, `Powers`, `Options` hold the vocabulary: the coverage forest with its
  one well-formedness predicate (parent and child pointers agree inside the dictionary, no node is its own
  ancestor, no empty id), spans that partition a stretch or run through it, Python's stable sort and slices,
  powers of two.
- `TreeOrder` reads a cut of the forest from left to right: which nodes it has below a given one, and that its
  spans run through the document.
- `Rollups` is the roll-up rule of the tiling generator as functions: the candidate of a parent, the order
  of candidates, and the sequence of frontiers that replacing the best candidate over and over goes
  through from the bottom nodes the search has reached. The sequence does not know the budget. `GreedyTiling`
  is the generator with its state: the frontier set, the running total, the heap and the `enqueued` set.
  `RollupChoice` says which parent is rolled up next in token counts, scores and ids alone; `TilingTheorems`
  and `ExactTiling` say what the result is.
- `ValidateTiling`, `TreeStructure` and `PerfectTrees` are the validators and what their verdicts mean;
  `OverlapExamples` has the stores that slip through.
- `TreeCoordinate` is the coordinate arithmetic.
- `Splitter`, `Preprocess` and `EmbeddingBatches` cut text and lists into pieces.
- `IndexCache` and `RankFusion` are the search side: the cache over whole runs, ranking, fusion, reordering.
- `TokenLayout` and `TokenLayoutTheorems` lay a tiling out in token space; `TokenLayoutReading` says where single
  nodes are put, and what the nodes below the tiling get.
- `TelemetryExport`, `RetryAnalysis` and `Progress` are folds and counts; `TelemetryMeaning` says which event of the
  log decides what.

Main ideas of the tiling proofs. The nodes that have been rolled up, with the bottom nodes, form a set closed
under children, and the frontier is always the top of that set; from this one invariant follow the cut
property, the running total, the effect of a roll-up on eligibility, and that nothing eligible means the
highest nodes, the roots unless the root ids left one out, have been reached. Because the sequence of
frontiers does not depend on the budget, a budget only chooses where to stop, and tilings for different
budgets are nested.

Where the code and its specification use one function - a comparison, a whitespace test, a score, a key - a lemma
says what that function amounts to in the fields and characters of its input: `RollupChoice.CheapestFirst`,
`Forest.NameLessMeaning`, `ValidateTiling.ValidInFields`, `TreeStructure.SoundInFields`, `Preprocess.NewlinesInRuns`,
`RankFusion.FusedScores`, `TreeCoordinate.LeavesOf`, and `TelemetryMeaning` and `TokenLayoutReading` as a whole.

## Where the promises do not hold as stated

- Budget: `tests/test_budget_guarantee_sqlite.py:40` has it that the budget is never exceeded. A single
  leaf longer than the budget exceeds it (`TilingTheorems.BudgetCanBeExceeded`). The result fits exactly
  when some step of the budget-free sequence fits (`TilingTheorems.FitsIffSomeStepFits`), and, if summaries
  are never longer than what they summarize, exactly when the highest nodes that roll-ups can reach fit
  (`TilingTheorems.FitsIffSummitFits`), which are the roots when the search has left no root out; without that
  proviso the result can fit although the roots do not (`TilingTheorems.RootsNeedNotFit`).
- Coverage: `docs/deep-dives/tiling-algorithm.md:36-38` promises complete coverage without overlap after every
  operation. A covered only child that falls short of its parent leaves a hole (`ExactTiling.OnlyChildLeavesHole`).
  Every cut of the forest partitions a stretch of the document exactly when the roots do and the covered children
  of every inner node partition its span (`ExactTiling.CutsPartitionIff`).
- Text preprocessing: the paragraph marker is taken for granted not to occur in a document. A document that
  is the marker is changed (`Preprocess.MarkerIsNotPreserved`); the three passes do what is intended
  exactly on marker-free texts (`Preprocess.PreprocessIsClean`), and texts without NUL are marker-free.
- Validators: no validator looks at three things.
  - Whether parent and child pointers agree. A store in which they do not can pass all three shape checks, without
    overlapping children, and still have two parentless nodes and an unpruned tiling that is not valid
    (`OverlapExamples.DisagreeingPointersAreAccepted`). What follows is about stores whose pointers agree and have no
    cycle; the lemmas require it by name.
  - Whether the left child of a node ends before the right one starts. A store with overlapping children passes all
    three (`OverlapExamples.OverlapIsAccepted`). In a store that passes them, with or without the text, every cut of
    the tree is a valid tiling exactly when no left child reaches into a right child that is another node
    (`TreeStructure.CutsAreValidIff`), and then so is the tiling for every budget
    (`TreeStructure.AcceptedStoreTiles`). Without a text the unpruned tiling alone decides
    (`TreeStructure.UnprunedIsValidIff`); with a text it does not, because overlapping halves can lie in each
    other's whitespace (`OverlapExamples.OverlapBetweenSpaces`).
  - Whether the two children of a node differ (`PerfectTrees.SharedChildIsAccepted`). The tree is perfect exactly
    when they do (`PerfectTrees.AcceptedIsPerfect`); for the validity of tilings it makes no difference.
- Splitting: two or more raw chunks give the text back exactly when they occur in it in order, a single one exactly
  when it is a prefix (`Splitter.ReconstructChunks`). A single chunk whose leading blanks have been stripped is filled
  up with the wrong characters, and the result is accepted (`Splitter.StrippedChunkIsCorrupted`), because acceptance
  is about lengths and not about text: the spans of the chunks that `split_text` keeps are accepted exactly when these
  are together as long as the text (`Splitter.SplitIsCovered`). If reconstruction has given the text back, that is
  exactly when every chunk filtered out was empty, as it is when no raw chunk is blank (`Splitter.RawSplitIsCovered`);
  a chunk of whitespace that is filtered out leaves a hole (`Splitter.WhitespaceChunkLeavesHole`).
- Boundary climb: without a height limit the climb along the left edge of leaf 0 has no highest point, and in no
  other case (`TreeCoordinate.HighestExistsIff`).
- The pseudocode in `docs/deep-dives/tiling-algorithm.md:71` adds the tokens of both children and removes both
  from the frontier, and at line 80 it tests the grandparent id for truth. The code counts and removes a
  covered only child once and tests for `None`. The model follows the code.

## Model

| member | source | states |
|---|---|---|
| Forest.IdLessIsTotalOrder | ragzoom/greedy_tiling.py:161-163 | ids compare as Python strings, a strict total order, so that ties between candidates are always broken |
| Forest.NameLessMeaning | ragzoom/greedy_tiling.py:161-163 | of two ids the smaller is the one that is a proper prefix of the other, or has the smaller character at the first difference |
| Forest.UniqueTop | ragzoom/greedy_tiling.py:63-102 | in a well-formed forest every member of a child-closed set has exactly one ancestor-or-self in the top of the set |
| Rollups.CandidateExists | ragzoom/greedy_tiling.py:166-195 | a parent has a candidate exactly when it has covered children and all of them are on the frontier, and its values then do not depend on the frontier |
| Rollups.CandidateMeaning | ragzoom/greedy_tiling.py:197-219 | a candidate names exactly the covered children, one or two, and the tokens saved are their token sum less the parent's |
| Rollups.PriorityMeaning | ragzoom/greedy_tiling.py:205-211 | priority times tokens saved is the quality of the children less that of the parent; the priority is infinite exactly when nothing is saved |
| Rollups.SumsMeaning | ragzoom/greedy_tiling.py:281-283 | each node of a set adds its tokens to the token sum and its score, 0.0 if absent, times its tokens to the quality |
| Rollups.CandidateLessIsTotalOrder | ragzoom/greedy_tiling.py:156-163 | the field-by-field order of candidates, with infinity on top, is a strict total order |
| Rollups.BestUnique | ragzoom/greedy_tiling.py:256-271 | among the eligible parents there is only one best candidate |
| Rollups.RollupTop | ragzoom/greedy_tiling.py:98-101 | replacing the children of an eligible parent by it moves the top of the settled nodes up by that parent |
| Rollups.FrontierIsTop | ragzoom/greedy_tiling.py:75-113 | after any number of roll-ups the settled nodes are child-closed, the bottom nodes among them are those the search has reached, and the frontier is their top |
| Rollups.ExhaustedAtSummit | ragzoom/greedy_tiling.py:82-90 | no parent is eligible exactly when every node has been settled below which all bottom nodes have been reached, and then the frontier is the highest of these |
| Rollups.SummitIsRoots | ragzoom/greedy_tiling.py:82-90 | if the search has reached every bottom node, the highest such nodes are the roots |
| Rollups.EligibleAfterRollup | ragzoom/greedy_tiling.py:104-113 | a roll-up makes no parent ineligible but the one rolled up, and the only one it can make eligible is that one's parent |
| Rollups.RollupTokens | ragzoom/greedy_tiling.py:92-102 | a roll-up changes the token sum of the frontier by the parent's tokens less its children's |
| Rollups.SettledCount | ragzoom/greedy_tiling.py:78-102 | every roll-up settles a new node, so no parent is rolled up twice |
| Rollups.RollupBound | ragzoom/greedy_tiling.py:78-102 | there are at most as many roll-ups as internal nodes |
| Rollups.EndsAtSummit | ragzoom/greedy_tiling.py:78-102 | rolled up without a budget, every forest ends at these highest nodes |
| Rollups.StopStep | ragzoom/greedy_tiling.py:78-90 | every run stops: at the first frontier that fits, or when nothing is eligible |
| RollupChoice.CheapestFirst | ragzoom/greedy_tiling.py:156-219 | from a frontier on which some parent may be rolled up, the next frontier has one such parent in the place of its children: the one that gives up least score-weighted tokens per token saved; one that saves nothing only when none saves anything; at equal rates the one that saves more, then the one whose id comes first |
| RollupChoice.RunEnds | ragzoom/greedy_tiling.py:78-90 | a run ends at the first frontier that fits the budget or on which no parent has all its covered children |
| TreeOrder.ListingIsUnique | ragzoom/greedy_tiling.py:115-118 | the result does not depend on the iteration order of the frontier set: a set has one listing by (span start, id) |
| TreeOrder.ListedOrder | ragzoom/greedy_tiling.py:115-118 | the order of the listing in fields: by span start, then by id |
| GreedyTiling.SortedIds | ragzoom/greedy_tiling.py:115-118 | sorting lists each frontier node once in document order |
| GreedyTiling.Visit | ragzoom/greedy_tiling.py:132-143 | the search visits exactly the nodes at or below its starts |
| GreedyTiling.WithoutVisitedChild | ragzoom/greedy_tiling.py:145-151 | the frontier is the visited nodes without visited children, each once |
| GreedyTiling.BuildFrontier | ragzoom/greedy_tiling.py:122-153 | for any root ids it lists, in document order, exactly the nodes without covered children at or below a covered root id, or all such nodes when no root id is covered |
| GreedyTiling.ReachedFromRoots | ragzoom/greedy_tiling.py:127-130 | root ids that leave no root out, as those computed from the coverage, or none of which is covered, reach every node |
| GreedyTiling.FindCoverageRootIds | ragzoom/retrieve.py:155-163 | the nodes without a covered parent, each once; they leave no root out |
| GreedyTiling.HeapPop | ragzoom/greedy_tiling.py:265 | takes one least entry out of the heap and nothing else |
| GreedyTiling.CandidateQueue.EnqueueCandidate | ragzoom/greedy_tiling.py:222-237 | adds the parent's candidate, and the parent to `enqueued`, exactly when it is eligible and not enqueued |
| GreedyTiling.CandidateQueue.InitializeCandidateQueue | ragzoom/greedy_tiling.py:240-253 | afterwards the heap holds the candidates of exactly the eligible parents, each once |
| GreedyTiling.CandidateQueue.PopNextCandidate | ragzoom/greedy_tiling.py:256-271 | pops until an entry is still eligible; what it discards is not eligible, and what it returns is least in what is left, with recomputed children |
| GreedyTiling.PopsTheBest | ragzoom/greedy_tiling.py:264-270 | on a heap that agrees with the frontier nothing is ever discarded, and the popped parent is the minimum over all eligible parents |
| GreedyTiling.NextStep | ragzoom/greedy_tiling.py:92-113 | rolling up the best parent is the next step of the naive rule, with its token sum and its new eligible parents |
| GreedyTiling.TotalTokens | ragzoom/greedy_tiling.py:69 | the sum over the frontier list is the token sum of the frontier set |
| GreedyTiling.ReplaceByParent | ragzoom/greedy_tiling.py:92-102 | set and total after a replacement, where left and right may be one node |
| GreedyTiling.EnqueueGrandparent | ragzoom/greedy_tiling.py:104-113 | enqueueing the grandparent alone makes the heap agree with the new frontier |
| GreedyTiling.RollUpNext | ragzoom/greedy_tiling.py:78-113 | one pass of the loop keeps frontier, running total, heap and `enqueued` equal to what recomputation from scratch gives, or finds nothing eligible |
| GreedyTiling.RollUpToBudget | ragzoom/greedy_tiling.py:75-113 | the loop with its lazy heap ends, at the frontier where the naive budget-free sequence first fits or is exhausted |
| GreedyTiling.GreedyTilingGenerator.FindOptimalTilingOverRoots | ragzoom/greedy_tiling.py:45-119 | for any root ids the result lists that frontier by span start and id, for every budget and none; each info has the id, tokens and span of its node, the reported quality is that of the listed set, and the coverage map has exactly the covered nodes |
| GreedyTiling.WholeFrontierFound | ragzoom/greedy_tiling.py:45-119 | with root ids that leave no root out, it is the frontier rolled up from all bottom nodes |
| GreedyTiling.RelevanceIsQuality | ragzoom/greedy_tiling.py:281-284 | the quality reported for a tiling is the score-weighted token sum of its set of nodes, whatever order they are listed in |
| GreedyTiling.ResultIsReport | ragzoom/greedy_tiling.py:274-303 | what the result reports about the nodes it lists |
| TilingTheorems.CutAtEveryStep | ragzoom/greedy_tiling.py:78-102 | after every roll-up each bottom node the search has reached has exactly one ancestor-or-self on the frontier, and no other bottom node has one |
| TilingTheorems.ResultIsCut | ragzoom/greedy_tiling.py:45-119 | so it is in the tiling returned for any budget |
| TilingTheorems.BudgetNesting | ragzoom/greedy_tiling.py:75-119 | for two budgets on the same forest, root ids and scores every node of the looser tiling has exactly one ancestor-or-self in the tighter one |
| TilingTheorems.ExitTheorem | ragzoom/greedy_tiling.py:78-113 | on exit the tiling fits the budget or is exactly the highest nodes that roll-ups can reach, the roots if no root was left out, after no more roll-ups than internal nodes; if those fit, so does the tiling |
| TilingTheorems.FitsIffSomeStepFits | ragzoom/greedy_tiling.py:78-113 | the tiling fits exactly when some frontier of the sequence does, even if roll-ups raise the total in between |
| TilingTheorems.FitsIffSummitFits | ragzoom/greedy_tiling.py:78-113 | with summaries no longer than their children, the tiling fits exactly when the highest nodes that roll-ups can reach do, the roots if no root was left out |
| TilingTheorems.BudgetCanBeExceeded | tests/test_budget_guarantee_sqlite.py:40-47 | a forest whose tiling exceeds the budget |
| TilingTheorems.RootsNeedNotFit | ragzoom/greedy_tiling.py:78-113 | a forest whose tiling fits although its root does not |
| Spans.PartitionIsContiguous | docs/deep-dives/tiling-algorithm.md:28-32 | sorted by start, spans that partition a stretch follow each other without gap or overlap |
| Spans.ContiguousIsPartition | docs/deep-dives/tiling-algorithm.md:28-32 | and the other way round |
| TreeOrder.YieldMembers | docs/deep-dives/tiling-algorithm.md:36-40 | the left-to-right reading of a cut below a node has exactly the members of the cut that descend from the node or are it |
| TreeOrder.RootsYieldCut | docs/deep-dives/tiling-algorithm.md:36-40 | read from the roots it has the whole cut |
| TreeOrder.CutRuns | docs/deep-dives/tiling-algorithm.md:36-40 | where children fill their parents but for whitespace, every cut in document order is its left-to-right reading and runs through the document as the roots do, with gaps only between siblings or roots |
| ExactTiling.ResultPartitions | ragzoom/greedy_tiling.py:63-119 | and it partitions what the roots partition |
| ExactTiling.ResultRuns | ragzoom/greedy_tiling.py:63-119 | with sibling-closed coverage whose children fill their parents but for whitespace, the tiling for any budget runs through the document as the roots do |
| ExactTiling.ResultIsContiguous | ragzoom/greedy_tiling.py:115-119 | where nothing is left out, the tiling in the order it is returned in has neither gap nor overlap |
| ExactTiling.CutsPartitionIff | docs/deep-dives/tiling-algorithm.md:36-40 | every cut partitions a stretch of the document exactly when the roots do and the covered children of every inner node partition its span |
| ExactTiling.RollDown | docs/deep-dives/tiling-algorithm.md:36-40 | replacing a node by children that partition its span keeps a partition a partition |
| ExactTiling.RolledKidsPartition | docs/deep-dives/tiling-algorithm.md:36-40 | if a roll-up leads from one partition to another, the children partition the span of their parent |
| ExactTiling.OnlyChildLeavesHole | docs/deep-dives/tiling-algorithm.md:36-40 | a covered only child with a hole in the unpruned tiling |
| ExactTiling.CutValidates | ragzoom/validate.py:261-372 | `validate_tiling` accepts every cut of such coverage, given the text its gaps are whitespace of, or any text if there are none; with a budget exactly when the tokens fit |
| ExactTiling.ResultValidates | ragzoom/validate.py:261-372 | in particular the generator's result for every budget and all scores |
| ValidateTiling.CheckMembers | ragzoom/validate.py:283-296 | complains exactly about a duplicate or an unknown node, and names one |
| ValidateTiling.CheckOverlaps | ragzoom/validate.py:301-306 | complains exactly when neighbours overlap, and names two that do |
| ValidateTiling.CheckBounds | ragzoom/validate.py:308-340 | complains exactly when the first start or last end is not the least start and greatest end of the root-like preloaded nodes, of all of them, or of the store, and reports both positions |
| ValidateTiling.CheckGaps | ragzoom/validate.py:341-353 | complains exactly about a gap that is not whitespace of the given text, and names one that lies between neighbours |
| ValidateTiling.Validate | ragzoom/validate.py:261-372 | returns no error exactly for valid tilings; only what is otherwise valid is called over budget, with its token sum |
| ValidateTiling.AcceptsPartitions | ragzoom/validate.py:261-353 | without text and budget, a list of nodes with non-empty spans is accepted exactly when it has no duplicates and partitions the document |
| ValidateTiling.BoundsMeaning | ragzoom/validate.py:312-331 | the document bounds are the least start and greatest end of the parentless or uncovered-parent nodes among the preloaded, of all preloaded if there are none, and of the store without preloaded nodes |
| ValidateTiling.ReadingOrder | ragzoom/validate.py:298-299 | the tiling is looked at by span start, nodes with one start in the order they come in |
| ValidateTiling.ValidInFields | ragzoom/validate.py:261-372 | a tiling is accepted exactly when it is a non-empty duplicate-free list of nodes of the store, none of which overlaps the next in reading order, with only whitespace of the text in the gaps, that starts and ends with the document and fits the budget; stated in node fields and characters |
| ValidateTiling.NoTextIsLost | ragzoom/validate.py:342-353 | in a gap of a valid tiling every character of the text is whitespace, and the text reaches into it |
| TreeStructure.CheckNode | ragzoom/validate.py:184-250 | a node draws no error exactly when its span is not empty, its children exist and align with its ends, the gap between them is allowed, and it has text; what an error says is so |
| TreeStructure.ValidateTreeStructure | ragzoom/validate.py:160-258 | valid exactly when there are nodes and every one is sound; otherwise it counts the errors, each of which is so |
| TreeStructure.SoundInFields | ragzoom/validate.py:160-258 | the same in node fields and characters: spans, children and their ends, and only whitespace of the text between children |
| TreeStructure.SoundFills | ragzoom/validate.py:184-246 | in an accepted tree whose parent and child pointers agree without cycles, children fill their parents, but for whitespace of the text that was passed along, exactly when no left child reaches into another right one |
| TreeStructure.LeafHit | ragzoom/validate.py:184-246 | in a tree accepted without a text whose parent and child pointers agree without cycles, every position of a node's span lies in a leaf below the node |
| TreeStructure.AcceptedStoreTiles | ragzoom/validate.py:160-489 | in a store that all validators accept, with a text or without, whose parent and child pointers agree without cycles and without overlapping children, `validate_tiling` accepts the tiling for every budget and all scores, given the same text or any if none was needed; with a limit exactly when the tokens fit |
| TreeStructure.CutsAreValidIff | ragzoom/validate.py:160-489 | in a store that all validators accept, with a text or without, whose parent and child pointers agree without cycles, every cut is a valid tiling exactly when no children overlap |
| TreeStructure.UnprunedIsValidIff | ragzoom/validate.py:160-489 | in a store accepted without a text whose parent and child pointers agree without cycles, the unpruned tiling is valid exactly when no children overlap |
| OverlapExamples.OverlapIsAccepted | ragzoom/validate.py:223-246 | a well-formed store with overlapping children that all three validators accept |
| OverlapExamples.DisagreeingPointersAreAccepted | ragzoom/validate.py:160-489 | a store that all three accept, without overlapping children, in which pointers disagree, two nodes are parentless, and the unpruned tiling is not valid |
| OverlapExamples.OverlapBetweenSpaces | ragzoom/validate.py:223-246 | a store with overlapping children that all three validators accept with a text, and whose unpruned tiling `validate_tiling` accepts with it too |
| PerfectTrees.ValidatePerfectBinaryTrees | ragzoom/validate.py:375-423 | accepts exactly the forests whose nodes have both children or none, all of them existing; otherwise it names a node for which that is not so |
| PerfectTrees.GetDepth | ragzoom/validate.py:457-467 | whenever the walk along parents ends, the number of steps to the root, or -1 exactly when the walk does not meet it |
| PerfectTrees.WellFormedEnds | ragzoom/validate.py:461-467 | in a well-formed forest the walk ends |
| PerfectTrees.CommonDepth | ragzoom/validate.py:469-485 | no error exactly when all leaves are equally many parent steps below the root; otherwise it names a leaf that does not reach the root or is at another depth than the first |
| PerfectTrees.ValidateEqualLeafDepth | ragzoom/validate.py:426-489 | accepts exactly when the first parentless node met is a root that all leaves, one at least, reach in equally many parent steps, whether or not child pointers agree |
| PerfectTrees.EveryNodePlaced | ragzoom/validate.py:375-489 | if both validators accept a store whose parent and child pointers agree without cycles, every node reaches the root within the leaf depth, and in exactly that many steps if and only if it is a leaf |
| PerfectTrees.SingleRoot | ragzoom/validate.py:375-489 | if both accept a store whose parent and child pointers agree without cycles, there is a single root |
| PerfectTrees.AcceptedIsPerfect | ragzoom/validate.py:375-489 | if both accept a store whose parent and child pointers agree without cycles, with leaf depth d there are exactly 2^d leaves and 2^(d+1) - 1 nodes if and only if no node has one node as both children; otherwise there are fewer |
| PerfectTrees.SharedChildIsAccepted | ragzoom/validate.py:396-419 | a two-node tree that both accept |
| TreeCoordinate.ParentSpan | ragzoom/tree_coordinate.py:193-205 | a left child shares exactly the left end of its parent's span, a right child exactly the right end |
| TreeCoordinate.SiblingIsOtherChild | ragzoom/tree_coordinate.py:51-91 | parent, children and sibling agree: the parent's children are the coordinate and its sibling, in order |
| TreeCoordinate.Laminar | ragzoom/tree_coordinate.py:297-306 | any two leaf spans are nested, the lower in the higher, or disjoint |
| TreeCoordinate.AncestorIffSpanInside | ragzoom/tree_coordinate.py:51-58 | ancestry within a document is containment of spans between levels |
| TreeCoordinate.LeavesOf | ragzoom/tree_coordinate.py:297-306 | the span of a coordinate holds exactly the leaves that have it as their ancestor at its height |
| TreeCoordinate.Ancestors | ragzoom/tree_coordinate.py:136-156 | the ancestors level by level up to the stop height, or the error exactly when that lies below |
| TreeCoordinate.OneAncestorPerHeight | ragzoom/tree_coordinate.py:136-156 | at each height exactly one coordinate covers the node: the ancestor there |
| TreeCoordinate.Descendants | ragzoom/tree_coordinate.py:158-188 | the levels below the node one after the other, as many as exist and were asked for |
| TreeCoordinate.LevelPartitionsSpan | ragzoom/tree_coordinate.py:158-188 | the spans of one level of descendants follow each other from one end of the node's span to the other |
| TreeCoordinate.DescendantsOnce | ragzoom/tree_coordinate.py:158-188 | what is yielded is exactly the proper descendants down to that depth, each once |
| TreeCoordinate.ClimbEnds | ragzoom/tree_coordinate.py:227-238 | once the edge is lost or the height limit met, it is so everywhere above |
| TreeCoordinate.HighestExistsIff | ragzoom/tree_coordinate.py:207-238 | the climb has a highest point except along the left edge of leaf 0 without a height limit |
| TreeCoordinate.HighestAncestorOnBoundary | ragzoom/tree_coordinate.py:207-238 | it returns that highest point whenever there is one |
| TreeCoordinate.HighestAncestorWithinWindow | ragzoom/tree_coordinate.py:240-295 | the highest ancestor-or-self that keeps the edge, the height limit and the other window bound; from inside the window, the highest one inside it; it always ends |
| TreeCoordinate.Unique | ragzoom/tree_coordinate.py:339-351 | the first occurrence of every coordinate, in order |
| EmbeddingBatches.BuildEmbeddingBatches | ragzoom/telemetry_embeddings.py:251-284 | the batches cut the entries in order, each meets both limits or is a single entry, none but the last could have taken the next entry, and no cutting into batches that meet the limits has fewer |
| EmbeddingBatches.StaysAhead | ragzoom/telemetry_embeddings.py:266-279 | after as many batches no other cutting has got further into the entries |
| EmbeddingBatches.NextFitIsOptimal | ragzoom/telemetry_embeddings.py:251-284 | no cutting into batches that meet the limits uses fewer |
| Splitter.Find | ragzoom/splitter.py:104 | the leftmost occurrence at or after a position, or -1 exactly when there is none |
| Splitter.LeftmostSuffices | ragzoom/splitter.py:99-111 | taking the leftmost occurrence of each chunk succeeds whenever some arrangement in order exists |
| Splitter.FindPositions | ragzoom/splitter.py:99-111 | the scan finds all chunks exactly when they occur in order without overlap, each at its leftmost occurrence after the end of the one before it |
| Splitter.FillGaps | ragzoom/splitter.py:113-140 | the text is cut at the start of every chunk but the first |
| Splitter.CutsKeepAll | ragzoom/splitter.py:113-140 | so the chunks are together the text, the first starts with the text up to the end of its raw chunk, and every other one with its raw chunk |
| Splitter.ReconstructChunks | ragzoom/splitter.py:80-140 | the chunks concatenate to the text exactly when two or more raw chunks occur in order, or a single one is a prefix |
| Splitter.SplitText | ragzoom/splitter.py:142-179 | the reconstructed chunks that are not blank, in order; the error exactly when there are none; the whole text without a target size |
| Splitter.ValidateDocumentCoverage | ragzoom/validate.py:70-112 | accepts exactly leaves that, sorted by start, run from 0 to the length of the text end to end; otherwise it reports where they do not |
| Splitter.LeavesByStart | ragzoom/validate.py:85-86 | the leaves are looked at by start, those with one start in the order they come in |
| Splitter.SpansAccepted | ragzoom/validate.py:70-112 | running-length spans of non-empty chunks are accepted exactly when the lengths add up to the document's |
| Splitter.SplitIsCovered | ragzoom/splitter.py:158-168 | of any reconstructed chunks, the spans of what `split_text` keeps are accepted exactly when the kept chunks are as long as the text; if the reconstruction lost nothing, exactly when every chunk filtered out was empty |
| Splitter.RawSplitIsCovered | ragzoom/splitter.py:80-179 | if the reconstruction loses nothing and no raw chunk is blank, every chunk is kept and the spans are accepted |
| Splitter.StrippedChunkIsCorrupted | ragzoom/splitter.py:92-96 | a text whose only raw chunk lacks its leading blanks comes back with other characters, and is accepted |
| Splitter.WhitespaceChunkLeavesHole | ragzoom/splitter.py:158-168 | a text that is given back whole but whose kept chunks are rejected |
| Preprocess.PreprocessIsClean | ragzoom/splitter.py:47-78 | marker substitution, regular expression and restoration amount to one scan that keeps paired newlines exactly when the text is marker-free |
| Preprocess.NoNulIsMarkerFree | ragzoom/splitter.py:54 | a text without NUL characters is marker-free |
| Preprocess.PreprocessKeepsBreaks | ragzoom/splitter.py:47-78 | on marker-free text the length is kept, exactly the formatting newlines become spaces, nothing else changes, and doing it again changes nothing |
| Preprocess.NewlinesInRuns | ragzoom/splitter.py:47-78 | in marker-free text the newlines of a run are kept in pairs; one left over is kept at the start of the text and after a full stop, an exclamation mark or a question mark, and becomes a space elsewhere; other characters stay |
| Preprocess.RegexIsStep | ragzoom/splitter.py:60-73 | the regular-expression pass with its two-character matches is a rewriting of single characters by what precedes them |
| Preprocess.MarkerIsNotPreserved | ragzoom/splitter.py:54-76 | a text without newlines that is changed |
| IndexCache.BM25IndexCache.Create | ragzoom/bm25.py:133-147 | an empty cache, or the error exactly for sizes below 1 |
| IndexCache.BM25IndexCache.Get | ragzoom/bm25.py:149-177 | extends the run of calls by this one, keeps cache and run in agreement, and returns the index built at the latest miss of the id |
| IndexCache.BM25IndexCache.Length | ragzoom/bm25.py:179-181 | the number of cached ids after the run, never above the size |
| IndexCache.BM25IndexCache.Contains | ragzoom/bm25.py:183-185 | whether the id is cached after the run |
| IndexCache.BM25IndexCache.Empty | ragzoom/bm25.py:187-189 | extends the run by a clear and leaves nothing cached |
| IndexCache.Evict | ragzoom/bm25.py:173-175 | evicting from the front leaves the newest entries with their indexes |
| IndexCache.CachedAfter | ragzoom/bm25.py:164-175 | one more lookup changes the cached ids of a whole run as the short list is changed: moved to the end on a hit, appended and trimmed on a miss |
| IndexCache.RecencyMeaning | ragzoom/bm25.py:118-125 | the recency list holds each id used since the last clear, ordered by last use |
| IndexCache.CachedIffRecent | ragzoom/bm25.py:118-125 | after any run an id is cached exactly when it was used since the last clear and fewer than `size` other ids have been used since |
| IndexCache.LargerHoldsMore | ragzoom/bm25.py:118-125 | after the same run a larger cache holds whatever a smaller one holds |
| RankFusion.Search | ragzoom/bm25.py:77-101 | as many items as the slice keeps, each once, better ones first, and each of them better than whatever is left out: by score, then by place in the index |
| RankFusion.ReciprocalRankFusion | ragzoom/bm25.py:192-229 | the ids of both rankings by first appearance with their summed shares, sorted stably by falling score |
| RankFusion.FusedIsUnion | ragzoom/bm25.py:192-229 | the fused list is the duplicate-free union of the rankings by falling score |
| RankFusion.FusedScores | ragzoom/bm25.py:220-226 | the score of an id is 1 / (k + rank + 1), summed over the duplicate-free rankings that hold it |
| RankFusion.ShareOfPlaces | ragzoom/bm25.py:220-226 | in a ranking with duplicates every place counts |
| RankFusion.BothBeatOne | ragzoom/bm25.py:192-229 | an id that both rankings hold at ranks of at most k + 2m precedes an id that one ranking holds at rank m and the other not at all |
| RankFusion.FusionDominance | ragzoom/bm25.py:199-203 | what precedes an id in every ranking that holds it precedes it in the fused list |
| RankFusion.TiesByFirstAppearance | ragzoom/bm25.py:211-212 | ties are broken by first appearance, the vector ranking first |
| RankFusion.FetchMissing | ragzoom/retrieve.py:516-522 | adds the stored vectors of exactly the fused ids that were no candidates and changes no candidate |
| RankFusion.ReorderCandidates | ragzoom/retrieve.py:514-529 | in fused order: every candidate exactly once and as it was, and besides only fetched vectors of keyword-only hits |
| TokenLayout.BuildLookup | ragzoom/tree_viz.py:115 | leads from every selected id to its last place in the infos |
| TokenLayout.LayOut | ragzoom/tree_viz.py:122-139 | in document order the intervals are those of the running token total |
| TokenLayout.TokenPositionResolver.constructor | ragzoom/tree_viz.py:114-143 | tiling laid out, and cost and interval memoized for exactly the covered nodes, in whatever order they are visited |
| TokenLayout.TokenPositionResolver.Create | ragzoom/tree_viz.py:93-165 | the error exactly for an empty tiling, an empty coverage, or a covered node that is neither preloaded nor stored; else a complete resolver over the loaded nodes |
| TokenLayout.TokenPositionResolver.ComputeCost | ragzoom/tree_viz.py:180-214 | the memoized recursion returns what the plain one would and keeps the memo right |
| TokenLayout.TokenPositionResolver.ComputePosition | ragzoom/tree_viz.py:221-260 | the same for the intervals |
| TokenLayout.TokenPositionResolver.ComputeNodePositions | ragzoom/tree_viz.py:175-264 | both passes leave a correct entry for every covered node |
| TokenLayoutTheorems.TilesPartition | ragzoom/tree_viz.py:122-139 | with positive token counts every position of [0, total) and no other lies in exactly one interval of the tiling |
| TokenLayoutReading.IntervalMeaning | ragzoom/tree_viz.py:122-139 | a selected node starts at the token cost of the selected nodes that start before it, or at the same position and come first in the tiling, and is as wide as its own cost |
| TokenLayoutTheorems.LayoutTheorem | ragzoom/tree_viz.py:175-264 | for a cut laid out in tree order every covered node on or above it has the token sum of its selected descendants as its cost and as the width of its interval, in which lie exactly their tiles |
| TokenLayoutTheorems.SharedChildCountsTwice | ragzoom/tree_viz.py:197-211 | a node with one node as both children gets twice the cost of that child |
| TokenLayoutTheorems.SiblingsMeet | ragzoom/tree_viz.py:237-260 | the left child's interval ends where the right child's starts |
| TokenLayoutTheorems.GreedyLayout | ragzoom/tree_viz.py:122-139 | the tiling for every budget and all scores is such a cut, where children fill their parents but for whitespace, none is shared, and nodes have tokens |
| TokenLayoutTheorems.ResolverLayout | ragzoom/tree_viz.py:93-264 | end to end: what a complete resolver for that tiling holds for a node on or above it is the token sum of the node's selected descendants and the stretch of exactly their tiles |
| TokenLayoutTheorems.ResolverSiblings | ragzoom/tree_viz.py:237-260 | and the intervals it holds for two children of a node above the tiling meet |
| TokenLayoutReading.NoInterval | ragzoom/tree_viz.py:221-260 | a covered node below the tiling gets the empty interval (0, 0) |
| TokenLayoutReading.UnselectedCost | ragzoom/tree_viz.py:187-211 | where no child is shared and nodes have tokens, a covered node below the tiling costs the tokens of the bottom nodes below it, and nothing if it is one |
| TokenLayoutReading.ResolverBelow | ragzoom/tree_viz.py:175-264 | both, for what a complete resolver holds for the tiling of any budget |
| TelemetryExport.FoldEvents | ragzoom/telemetry_export.py:40-153 | history, payloads, commits, indexing time and source tokens folded from the events are what the log says when read declaratively |
| TelemetryExport.FieldsMeaning | ragzoom/telemetry_export.py:55-134 | a further field of a history entry holds what the last event that writes it has written |
| TelemetryMeaning.KeyMeaning | ragzoom/telemetry_export.py:42-43 | an event belongs to its append id, or failing that to its run id |
| TelemetryMeaning.EntryMeaning | ragzoom/telemetry_export.py:51-134 | the first event of an append gives the run id, the last one the status, the last start and the last end the times |
| TelemetryMeaning.FieldIsSet | ragzoom/telemetry_export.py:66-134 | a further field has the value of the last event of the append that sets it: totals, span and chunk split from the outcome of a completion, duration from a completion or failure, error from a failure, the rest from a start |
| TelemetryMeaning.FieldIsMissing | ragzoom/telemetry_export.py:66-134 | and it is missing if no event of the append sets it |
| TelemetryMeaning.TotalsMeaning | ragzoom/telemetry_export.py:95-101 | the totals of an entry are those of the last completion of its append under the same names |
| TelemetryExport.ApplyNodeUpdates | ragzoom/telemetry_export.py:258-300 | height and span prefer active over committed over the last payload; the creation time prefers the payload, from which the further fields come |
| TelemetryExport.MergeNodePayloads | ragzoom/telemetry_export.py:226-255 | one record for each active id, or for each payload id without active nodes, sorted stably by creation time |
| TelemetryExport.SynthesizeDocumentTelemetry | ragzoom/telemetry_export.py:20-196 | the error exactly when there is neither a payload nor a last outcome; else the metadata with a format version, the records and the history that the log implies, the indexing time of the metadata or the first start, the largest source token count, and what is there of the last outcome |
| TelemetryMeaning.FirstStartMeaning | ragzoom/telemetry_export.py:49-50 | the indexing time is that of the first start that belongs to an append and has a timestamp |
| TelemetryMeaning.CommittedTimeMeaning | ragzoom/telemetry_export.py:149-152 | the committed time of a node is that of its first commit with a timestamp |
| TelemetryMeaning.RecordMeaning | ragzoom/telemetry_export.py:258-300 | which source decides height, span, creation time and further fields of a record |
| TelemetryMeaning.AppendMetadataMeaning | ragzoom/telemetry_export.py:168-182 | of the last outcome the totals and the span are reported as far as they are there and not `None` |
| TelemetryMeaning.ChunkSplitMeaning | ragzoom/telemetry_export.py:183-185 | the chunk split is reported when it is an object with something in it |
| TelemetryExport.HistoryMeaning | ragzoom/telemetry_export.py:187-194 | each non-empty key once, exactly when its last started, completed or failed event is not a start, in order of first such events, with the status and times of its last events |
| TelemetryExport.ActiveRecords | ragzoom/telemetry_export.py:244-255 | with active nodes the records are one for each active id and sorted by creation time |
| RetryAnalysis.AcceptedIndex | ragzoom/telemetry_analysis.py:1209-1230 | the recorded index if it is one of the attempts, else the last one; -1 exactly when there are none |
| RetryAnalysis.CountAttempts | ragzoom/telemetry_analysis.py:1289-1323 | of a node's attempts exactly one counts as accepted and all but the first as retries |
| RetryAnalysis.TimeOfOneMore | ragzoom/telemetry_analysis.py:1293-1307 | an attempt after the first adds the time from its start to its end, if it ends later, and to the rejected time unless it is the accepted one |
| RetryAnalysis.OneRetry | ragzoom/telemetry_analysis.py:1233-1360 | the counters of a single node with one retry |
| RetryAnalysis.AnalyzeRetryPatterns | ragzoom/telemetry_analysis.py:1233-1360 | every counter is the quantity it stands for over the summarized nodes, and the rates are its quotients |
| RetryAnalysis.RetryAccountingBalances | ragzoom/telemetry_analysis.py:1233-1360 | attempts are nodes plus retries, buckets add up to nodes, successful retries are at most nodes with retries, rejected time at most retry time |
| Progress.CalculateTotalOperations | ragzoom/progress.py:134-163 | the level sizes added up in as many passes as there are levels, plus the batches for all nodes but the root rounded up, plus one |
| Progress.LevelsAreLogarithm | ragzoom/progress.py:143-148 | the number of those passes is the binary logarithm of the leaf count, rounded up |
| Progress.InternalNodesBound | ragzoom/progress.py:143-148 | the levels hold between n - 1 and n - 1 + L nodes, and n - 1 exactly when n is a power of two |

## Left out

- Everything behind input and output: command line, servers, databases, log files, progress bars, plotting and
  the drawing of the tree. Error messages are modelled by what they report, not by their wording.
- Language-model and embedding calls, tokenizers and vector arithmetic: token counts, scores, vectors and rankings
  are arbitrary inputs. BM25 scores are inputs of `RankFusion.Search`; tokenization for the index is not modelled.
- Floating point: scores, durations and positions are exact reals or integers; NaN does not occur, and
  `float("inf")` is a priority of its own.
- The coverage builder and the scoring service. What they deliver is stated as a precondition: the forest is
  well-formed, and for exact span coverage also sibling-closed with children that fill their parents.
- GreedyTiling.HeapPop: `heapq` is a list from which the least entry is taken; how it arranges its array is not modelled.
- Ids are strings compared as Python compares them; a covered node with an empty id is excluded by well-formedness.
- Greedy tilings are not claimed to be optimal: the program does not claim it, and it is false in general.
- The neighbour walks of coordinates, conversion to tuples and the size check of chunks: easy members.
- Splitter.SplitText: the LangChain splitter is an arbitrary list of raw chunks, and `str.strip` a predicate on characters.
- TreeCoordinate.HighestAncestorOnBoundary: the one case without a highest point, in which the source does not return, is
  excluded by precondition.
- PerfectTrees.ValidateEqualLeafDepth: stores in which the walk from a leaf runs into a cycle are excluded; the source
  does not return on them.
- PerfectTrees.AcceptedIsPerfect, PerfectTrees.SingleRoot and the lemmas of TreeStructure about accepted stores: pointer
  agreement and the absence of cycles are required, which no validator checks and without which they fail.
- ExactTiling.ResultRuns: tilings from root ids that leave a root out cover what the search has reached and are not
  compared with the document.
- Progress.CalculateTotalOperations: a batch size of zero or below, for which the source divides by zero or is meaningless, is excluded.
- TokenLayout.TokenPositionResolver.Create: the loaded nodes form a well-formed forest; null token costs do not occur.
- TokenLayoutTheorems.LayoutTheorem, TokenLayoutReading.UnselectedCost: a node with one node as both children is excluded,
  because the program counts the cost of that child twice (`TokenLayoutTheorems.SharedChildCountsTwice`).
- RankFusion.ReorderCandidates: the candidates have distinct ids, as the vector search returns them.
- TelemetryExport.SynthesizeDocumentTelemetry: field values come already coerced, so a payload's unreadable creation
  time counts as absent. Keys of the metadata that the result overwrites are separate fields here.
- RetryAnalysis.AnalyzeRetryPatterns: the table of rejection reasons, which the source returns empty, is left out, as
  are the pipeline efficiency figures.
