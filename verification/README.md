# A Dafny model of PEPS

PEPS puts neural-network inference into PostgreSQL.  Its own part is an extension that
rewrites computation graphs, executes convolutions and keeps weights in memory; the rest is
the PostgreSQL tree it builds on.  This project models the parts with the most intricate
state or arithmetic and proves what they promise.

| file | models |
|---|---|
| Graph.dfy, Weights.dfy | the computation graph's two edge maps, the worklist behind `has_loop` and `get_operator_list`, weight pruning |
| Rules.dfy, Rewrite.dfy, Xfer.dfy | rewrite rules, matching and unmatching, the rewritten graph, the backtracking search |
| VarKeys.dfy, VarTree.dfy | `btree_gist` keys of variable length with prefix truncation, and trees of them |
| BloomSign.dfy, BloomPage.dfy, BloomIndex.dfy | Bloom signatures, one index page, and the index under concurrent insert, vacuum, cleanup and scan |
| BtreeKeys.dfy, BtreePages.dfy, BtreeSearch.dfy, BtreeLevels.dfy, BtreeTrace.dfy, BtreeCheck.dfy, BtreeTheorems.dfy | the B-tree verifier `amcheck`: its comparisons, its walk of the levels as a function and as methods, whether it ends, exactly what it accepts and what that means |
| Conv.dfy, ConvKernel.dfy, Pads.dfy | im2col, convolution by matrix product, SAME padding |
| Lru.dfy | the weight cache's linked list and the weight pool's memory counter |
| Aggregate.dfy | the parallel two-dimensional array aggregate |
| Cube.dfy, CubeTree.dfy | boxes of the `cube` type, searches and nearest-neighbour bounds over them, page splits |
| Maybe.dfy | a value that may be missing |

Numbers of the source that are floating point are `real` here.  Conventions that matter for
reading the contracts:

* A method that returns a flag (`ok`, a `Verdict`, an `Outcome`) returns the negative case
  where the source raises an error or would leave its arrays.
* Iteration over a Python dictionary or set takes its elements in an arbitrary order.
* The Bloom index is a state machine.  An action is what a process does between taking a
  page lock and giving it back; runs are arbitrary sequences of actions of any number of
  processes.  `inserted` and `removed` are history.
* The B-tree verifier is modelled in its read-only mode, for indexes whose keys end with the
  heap row pointer.  The walk over right links in `bt_child_highkey_check` has no bound in
  the source.  Here it stops after one turn more than there are blocks with the verdict
  `Endless`, which is proved to be given exactly when the source's loop never ends
  (`EndlessIff`, `TurnsSuffice`).
* A key of a variable-length tree *covers* a value by its ends; it *admits* one if, being
  perhaps the key of a split half, it may have it below.

Properties that turned out not to hold of the code are stated with the exact condition under
which they do, and with a concrete input that breaks them:

* `unmatch` undoes `match` only for operators whose external inputs are new and pairwise
  distinct; with a repeated input the search accepts a placement that is no embedding
  (`UnmatchUndoesMatch`, `BacktrackingAcceptsNonEmbedding`).
* `gbt_var_picksplit` on internal entries can prune a stored row (`SplitSoundIffNoGap`,
  `SplitLosesRow`).
* Two seeds leave the Bloom index's random generator at zero for good (`BitsInRangeIff`,
  `BadHash`).
* `amcheck` accepts a level in disorder when a page without items lies in the middle
  (`LevelInOrderIff`, `EmptyPageHidesDisorder`), a downlink to block 0 ends its walk of the
  level below (`LockstepIsExact`, `NullDownlinkIsAccepted`), and a circle of right links
  that does not pass the first block keeps it going for ever (`EndlessIff`,
  `CircleIsEndless`).
* The im2col of `matrix_op.c` allocates one window row and column too few unless the stride
  divides (`Im2col`, `StrideThreeOverruns`).
* SAME padding of an even kernel with stride one gives one window too many
  (`SamePaddingAgrees`, `EvenKernelDisagrees`).
* A weight name of 64 characters or more can enter the cache twice (`PutKeepsDistinct`,
  `LongNameTwice`).
* A state received from a worker may record a larger buffer than it has (`ReceivedRoomyIff`,
  `OneInputIsShortIff`, `ThreeInputsAreShort`); that the aggregate never appends to such a
  state is proved (`LeaderStaysWithin`).
* A search for boxes contained by a query of more dimensions can miss rows
  (`ContainedByIsSoundIff`, `ContainedByLosesRow`), and the box comparison is an order only
  among boxes that do not have two different positive dimensions (`CmpIsOrderIff`,
  `CmpCircle`).

Where the code and its comments differ the model follows the code: the B-tree verifier's
comment says that the leftmost child always has a downlink, but nothing checks that the
downlink is not 0.

## Model

| member | source | states |
|---|---|---|
| `Graphs.AddKeepsMirror` | aqua_extension/src/dbocg/graph.py:133-142 | adding an edge keeps the two edge maps mirror images and adds exactly that edge |
| `Graphs.RemoveEdgeKeepsMirror` | aqua_extension/src/dbocg/graph.py:148-152 | removing an edge keeps the mirror and removes exactly that edge |
| `Graphs.RemoveNodeKeepsMirror` | aqua_extension/src/dbocg/graph.py:154-165 | removing a node that feeds nobody keeps the mirror |
| `Graphs.MirrorAfterAnyEdits` | aqua_extension/src/dbocg/graph.py:133-165 | the mirror holds after any sequence of the three edits |
| `Graphs.Graph.Add` | aqua_extension/src/dbocg/graph.py:133-142 | the edge is filed under its destination and its source, and the mirror is kept |
| `Graphs.Graph.Remove` | aqua_extension/src/dbocg/graph.py:148-152 | succeeds exactly when the edge is present; otherwise nothing changes |
| `Graphs.Graph.RemoveNode` | aqua_extension/src/dbocg/graph.py:154-165 | the edge-by-edge loop removes the node, its in-edges and their images, and nothing else |
| `Graphs.TopologicalMeansAcyclic` | aqua_extension/src/dbocg/graph.py:303-323 | a graph with a topological order has no cycle |
| `Graphs.NoSourceMeansCycle` | aqua_extension/src/dbocg/graph.py:303-323 | a non-empty node set in which every node has a predecessor contains a cycle |
| `Graphs.KahnIsExact` | aqua_extension/src/dbocg/graph.py:303-323 | the worklist order is complete if and only if every edge source is a node or reserved and the graph is acyclic |
| `Graphs.TopologicalExists` | aqua_extension/src/dbocg/graph.py:303-323 | every closed acyclic graph has a topological order |
| `Graphs.CountCounted` | aqua_extension/src/dbocg/graph.py:303-323 | the loop over one in-edge set counts its edges from counted sources |
| `Graphs.ReleaseEdges` | aqua_extension/src/dbocg/graph.py:303-323 | releasing a listed node's out-edges keeps the counters equal to the edges still pending and lists a node exactly when none is left |
| `Graphs.Graph.InitTodos` | aqua_extension/src/dbocg/graph.py:303-323 | every counter starts as the number of counted in-edges; nodes without any are listed |
| `Graphs.Graph.Kahn` | aqua_extension/src/dbocg/graph.py:303-323 | the worklist yields distinct nodes, sources first, and every node left out waits for a source that is left out |
| `Graphs.Graph.HasLoop` | aqua_extension/src/dbocg/graph.py:303-323 | false if and only if every non-reserved edge source is a node and the graph is acyclic; edges are unchanged |
| `Graphs.Graph.GetOperatorList` | aqua_extension/src/dbocg/graph.py:479-506 | exactly the non-input, non-weight operators, each once, sources first, whenever has_loop is false |
| `WeightPruning.ListIsWeightOnly` | aqua_extension/src/dbocg/graph.py:367-438 | the worklist that ignores weights reaches exactly the weight-only nodes |
| `WeightPruning.KeptIsUseful` | aqua_extension/src/dbocg/graph.py:367-438 | once no kept weight-only node is a sink, the kept nodes are exactly those that lead to a node that is not weight-only |
| `WeightPruning.Clone` | aqua_extension/src/dbocg/graph.py:367-438 | the edge-by-edge copy has the same in-edges |
| `WeightPruning.RemoveSinks` | aqua_extension/src/dbocg/graph.py:367-438 | the closing loop ends, and leaves no weight-only sink |
| `WeightPruning.PreprocessWeights` | aqua_extension/src/dbocg/graph.py:367-438 | on an acyclic graph: removes exactly the weight-only nodes from which no other node is reached, leaving other in-edges unchanged |
| `Rules.UnmatchUndoesMatch` | aqua_extension/src/dbocg/substitution.py:286-307 | unmatch restores the bindings after match if and only if the operator's external inputs were unbound and are pairwise distinct |
| `Rules.UnbindRemoves` | aqua_extension/src/dbocg/substitution.py:299-307 | unmatch removes every external input's binding, and raises exactly when one is missing or named twice |
| `Rules.BindKeys` | aqua_extension/src/dbocg/substitution.py:286-297 | match binds exactly the operator's external inputs besides those bound before |
| `Rules.BacktrackingAcceptsNonEmbedding` | aqua_extension/src/dbocg/substitution.py:215-307 | after the first operator was matched a second one is refused; after another was matched and unmatched in its place it is accepted, although the two are no embedding under any bindings |
| `Rewrites.RewriteIsUnique` | aqua_extension/src/dbocg/substitution.py:534-579 | the description of the rewritten graph determines it |
| `Rewrites.SourceSide` | aqua_extension/src/dbocg/substitution.py:215-284 | in the old graph the matched operators have the values of the rule's source pattern |
| `Rewrites.RewritePreservesMeaning` | aqua_extension/src/dbocg/substitution.py:534-579 | for a sound rule, every operator kept by a rewrite whose result has no loop has the same value in the new graph |
| `Rewrites.RewriteKeepsShape` | aqua_extension/src/dbocg/substitution.py:534-579 | in the new graph every node again has one edge per input |
| `Rewrites.ValuationExists` | aqua_extension/src/dbocg/graph.py:303-323 | a graph that passes has_loop assigns values to all nodes, for any inputs and weights |
| `Rewrites.ValuationUnique` | aqua_extension/src/dbocg/graph.py:303-323 | and only one |
| `Rewrites.RunPreservesMeaning` | aqua_extension/src/dbocg/substitution.py:485-579 | an operator kept by every rewrite of a sequence has the same value in the last graph as in the first |
| `Rewrites.ConvReluIsSound` | aqua_extension/src/dbocg/substitution.py:386-399 | the built-in rule that fuses convolution and relu is sound wherever the fused operator computes relu of the plain one |
| `Rewrites.ConvReluIsLinear` | aqua_extension/src/dbocg/substitution.py:386-399 | that rule names each external input once |
| `Xfers.CheckIsSufficient` | aqua_extension/src/dbocg/substitution.py:499-514 | with mirrored edge maps the check over out-edges holds if and only if every rewired source of create_new_graph is mapped, so its assertion cannot fail |
| `Xfers.AddKept` | aqua_extension/src/dbocg/substitution.py:550-564 | a kept operator gets exactly its old edges, matched sources replaced by their mapped outputs |
| `Xfers.AddCreated` | aqua_extension/src/dbocg/substitution.py:565-578 | a created operator gets exactly one edge per input |
| `Xfers.CreateNewGraph` | aqua_extension/src/dbocg/substitution.py:534-579 | the loops build exactly the rewritten graph, with mirrored edge maps; no lookup misses |
| `Xfers.LinearCanMatch` | aqua_extension/src/dbocg/substitution.py:215-284 | for rules that use each external input once, can_match is equivalent to the next operator fitting the pattern |
| `Xfers.PlacementPasses` | aqua_extension/src/dbocg/substitution.py:215-284 | every embedding that extends the current placement passes can_match |
| `Xfers.MatchKeepsPartial` | aqua_extension/src/dbocg/substitution.py:286-297 | a match after a successful can_match is again a partial embedding |
| `Xfers.UnmatchRestores` | aqua_extension/src/dbocg/substitution.py:299-307 | in such rules unmatch gives back the whole state before match |
| `Xfers.NewIdsAreFresh` | aqua_extension/src/dbocg/substitution.py:581-624 | operators with new ids occur nowhere in the graph |
| `Xfers.GraphXfer.CanMatchOp` | aqua_extension/src/dbocg/substitution.py:215-284 | the loops decide can_match's conditions exactly |
| `Xfers.GraphXfer.MatchOp` | aqua_extension/src/dbocg/substitution.py:286-297 | the state after match |
| `Xfers.GraphXfer.UnmatchOp` | aqua_extension/src/dbocg/substitution.py:299-307 | the state after unmatch, or failure where the source raises |
| `Xfers.GraphXfer.CheckOutputs` | aqua_extension/src/dbocg/substitution.py:499-514 | the loop decides whether every output read from outside is mapped |
| `Xfers.GraphXfer.Emit` | aqua_extension/src/dbocg/substitution.py:491-524 | at a complete match, adds the rewritten graph exactly when the checks pass and it has no loop |
| `Xfers.GraphXfer.Run` | aqua_extension/src/dbocg/substitution.py:485-533 | the recursive search restores its state, handles all embeddings that extend the current placement and no others, and every graph it adds is a rewrite at one of them |
| `VarKeys.NodeCpLen` | pg-src/contrib/btree_gist/btree_utils_var.c:120-162 | the loop computes the length of the longest common prefix |
| `VarKeys.Union` | pg-src/contrib/btree_gist/btree_utils_var.c:321-357 | the loop computes the hull of all entries, truncated to its common prefix plus two bytes |
| `VarKeys.HullBounds` | pg-src/contrib/btree_gist/btree_utils_var.c:232-277 | the hull bounds every entry on both sides |
| `VarKeys.CutIsMonotone` | pg-src/contrib/btree_gist/btree_utils_var.c:203-228 | cutting strings to a length keeps their order |
| `VarKeys.TruncateCoversBelow` | pg-src/contrib/btree_gist/btree_utils_var.c:203-228 | truncation beyond the common prefix covers everything between the ends |
| `VarKeys.UnionCovers` | pg-src/contrib/btree_gist/btree_utils_var.c:321-357 | the union covers whatever any of its entries covers, truncated entries included |
| `VarKeys.SplitCoversLeaves` | pg-src/contrib/btree_gist/btree_utils_var.c:457-547 | a half of a leaf split covers all its leaves |
| `VarKeys.LeafIsExact` | pg-src/contrib/btree_gist/btree_utils_var.c:553-612 | on a leaf key the consistency test is the query condition |
| `VarKeys.CoveredIsConsistent` | pg-src/contrib/btree_gist/btree_utils_var.c:553-612 | a key that covers a value passes every query the value satisfies, for all six strategies |
| `VarKeys.PickSplit` | pg-src/contrib/btree_gist/btree_utils_var.c:457-547 | both halves are non-empty, no key of the left one comes after a key of the right one when the offsets are sorted, and both keys are truncated hulls with the larger of the two prefix lengths |
| `VarTrees.SplitSoundIffNoGap` | pg-src/contrib/btree_gist/btree_utils_var.c:457-547 | the key of one half of an internal split never prunes a value one of its entries may cover if and only if no entry leaves a gap between its cut end and the half's |
| `VarTrees.OwnLengthHasNoGap` | pg-src/contrib/btree_gist/btree_utils_var.c:524-547 | a half whose own prefix length is the larger one has no gap |
| `VarTrees.SplitLosesRow` | pg-src/contrib/btree_gist/btree_utils_var.c:457-547 | a concrete tree whose search finds a row, and in which after the split of internal entries the row is stored and not found |
| `VarTrees.HalfAdmitsIff` | pg-src/contrib/btree_gist/btree_utils_var.c:457-547 | for keys that may themselves come from such splits: the half key admits all that one of its entries admits if and only if there is no gap above that entry |
| `VarTrees.SearchIsExact` | pg-src/contrib/btree_gist/btree_utils_var.c:553-612 | a search of a tree of admitting keys returns exactly the stored values that satisfy the query, as often as they are stored |
| `VarTrees.GrowKeepsCovered` | pg-src/contrib/btree_gist/btree_utils_var.c:321-547 | an insert, a page split, a new node or a split of internal entries without a gap, anywhere in the tree, keeps keys admitting what is below them and changes the stored values by the insert alone |
| `VarTrees.BuildKeepsCovered` | pg-src/contrib/btree_gist/btree_utils_var.c:321-547 | any sequence of such changes keeps every key admitting what is below it |
| `VarTrees.TruncatedKeysNeverPrune` | pg-src/contrib/btree_gist/btree_utils_var.c:553-612 | every search of every tree so built is exact |
| `BloomSignatures.AdvanceIsParkMiller` | pg-src/contrib/bloom/blutils.c:219-247 | one step is multiplication by 16807 modulo 2^31 - 1, within 32 bits throughout, and leaves a state in 1..2^31 - 2 from every non-zero seeded state, negative ones included |
| `BloomSignatures.SeededIsUsable` | pg-src/contrib/bloom/blutils.c:248-254 | a seed leaves a usable state unless it is one of two, which leave zero for good |
| `BloomSignatures.BitsInRangeIff` | pg-src/contrib/bloom/blutils.c:259-287 | all bit positions of a value lie inside the signature if and only if its mixed seed is not one of those two |
| `BloomSignatures.BadHash` | pg-src/contrib/bloom/blutils.c:259-287 | in every column some hash value hits one of the two, and its first bit falls before the signature |
| `BloomSignatures.RowHasColumnBits` | pg-src/contrib/bloom/blutils.c:292-311 | a row's signature has the bits of each of its columns |
| `BloomSignatures.KeysMatchRow` | pg-src/contrib/bloom/blscan.c:90-155 | a search for values a row holds matches the row's signature |
| `BloomPages.Generator.Srand` | pg-src/contrib/bloom/blutils.c:248-254 | the state after seeding |
| `BloomPages.Generator.Rand` | pg-src/contrib/bloom/blutils.c:221-247 | the state and the result of one step |
| `BloomPages.Generator.SignValue` | pg-src/contrib/bloom/blutils.c:259-287 | sets exactly the value's bits, whatever state the generator was in, and fails exactly for the two seeds |
| `BloomPages.Generator.FormTuple` | pg-src/contrib/bloom/blutils.c:292-311 | the loop over columns computes the row's signature, skipping nulls |
| `BloomPages.TestSign` | pg-src/contrib/bloom/blscan.c:144-156 | the word loop decides whether all bits asked for are set |
| `BloomPages.FitsIffBelowCapacity` | pg-src/contrib/bloom/bloom.h:152-155 | the free-space test is a test of the tuple count against the page's capacity |
| `BloomPages.SurvivorsCount` | pg-src/contrib/bloom/blvacuum.c:97-118 | what vacuum keeps on a page: no tuple of a dead row, all others as often as before |
| `BloomPages.BloomPage.AddItem` | pg-src/contrib/bloom/blutils.c:317-345 | appends when there is room, otherwise changes nothing |
| `BloomPages.BloomPage.BulkDelete` | pg-src/contrib/bloom/blvacuum.c:91-139 | the in-place compaction leaves exactly the survivors in order, counts the rest, and marks the page deleted exactly when it emptied it |
| `BloomPages.BloomPage.Collect` | pg-src/contrib/bloom/blscan.c:137-165 | the row pointers of exactly the matching tuples |
| `BloomPages.Builder.Add` | pg-src/contrib/bloom/blinsert.c:73-113 | appends the tuple to what is written and cached so far |
| `BloomPages.Builder.Finish` | pg-src/contrib/bloom/blinsert.c:147-149 | the pages written hold all tuples in order, all pages but the last are full and none is empty |
| `BloomPages.Build` | pg-src/contrib/bloom/blinsert.c:120-158 | the same for a whole heap |
| `BloomIndexes.NextKeepsInv` | pg-src/contrib/bloom/blinsert.c:196-366 | every action of every process keeps the invariant: capacities, empty deleted pages, initialised pages in all lists, a new page written only under the metapage lock, what scans and vacuums still owe, conservation of tuples |
| `BloomIndexes.RunKeepsInv` | pg-src/contrib/bloom/blinsert.c:196-366 | so does every run |
| `BloomIndexes.InsertOk` | pg-src/contrib/bloom/blinsert.c:222-366 | each step of an insert writes only where a tuple fits, so adding to an empty page cannot fail |
| `BloomIndexes.VacuumPageOk` | pg-src/contrib/bloom/blvacuum.c:57-158 | each step of a vacuum |
| `BloomIndexes.SweepOk` | pg-src/contrib/bloom/blvacuum.c:185-212 | each step of a cleanup or a scan |
| `BloomIndexes.EffectConserves` | pg-src/contrib/bloom/blvacuum.c:97-139 | what is stored afterwards and what was taken out is what was stored before and what was put in |
| `BloomIndexes.BuiltIsOk` | pg-src/contrib/bloom/blinsert.c:120-158 | pages that hold the heap's tuples in order, none over capacity, satisfy the invariant with the heap as what was inserted |
| `BloomIndexes.BuildIndex` | pg-src/contrib/bloom/blinsert.c:120-158 | building over a heap gives such a state, which stores exactly the heap's tuples |
| `BloomIndexes.NothingLost` | pg-src/contrib/bloom/blinsert.c:196-366 | after any run the stored tuples are the inserted ones less the removed ones, counted with multiplicity |
| `BloomIndexes.InsertStoresOnce` | pg-src/contrib/bloom/blinsert.c:222-366 | an insert stores nothing until the step that ends it, which stores its tuple once |
| `BloomIndexes.OnlyDeadRemoved` | pg-src/contrib/bloom/blvacuum.c:97-118 | only a vacuum removes tuples, and only those of rows it was told are dead |
| `BloomIndexes.UnreportedStays` | pg-src/contrib/bloom/blvacuum.c:57-139 | over every interleaving, a tuple whose row no running or later vacuum is told of is never removed, and neither the index nor any page comes to hold fewer copies of it |
| `BloomIndexes.UnreportedOnOnePage` | pg-src/contrib/bloom/blvacuum.c:57-139 | if it was inserted once, the page that held it holds it exactly once in every later state and no other page does |
| `BloomIndexes.VacuumIsComplete` | pg-src/contrib/bloom/blvacuum.c:57-139 | after a vacuum's last page every dead row still stored was put there after it began |
| `BloomIndexes.ScanFindsEverything` | pg-src/contrib/bloom/blscan.c:80-172 | a matching tuple stored when the scan began and not taken out while it ran is in the result, whatever other processes do meanwhile |
| `BloomIndexes.ScanReturnsOnlyHits` | pg-src/contrib/bloom/blscan.c:80-172 | a scan returns only rows inserted with a matching signature |
| `BloomIndexes.ScanFindsRow` | pg-src/contrib/bloom/blscan.c:80-172 | a scan for a stored row's own column values returns the row, if no running or later vacuum is told that the row is dead |
| `BtreeKeys.InvariantsAreOrder` | pg-src/contrib/amcheck/verify_nbtree.c:2774-2940 | the three order tests decide dictionary order on truncated keys, nulls and descending columns included, with a prefix before its extensions |
| `BtreeKeys.CompareFromIsOrder` | pg-src/src/backend/access/nbtree/nbtsearch.c:656-830 | the sign of the comparison in terms of that order |
| `BtreeKeys.BeforeTotal` | pg-src/src/backend/access/nbtree/nbtsearch.c:656-830 | the order is total |
| `BtreeChecks.Checker.MatchHighKey` | pg-src/contrib/amcheck/verify_nbtree.c:1990-2062 | the offset arithmetic compares a child's high key with the separator after its downlink, or before the downlink sought, including the left uncle's high key |
| `BtreeChecks.Checker.CheckBlock` | pg-src/contrib/amcheck/verify_nbtree.c:1924-2062 | decides the tests of one child block, in terms of the search it belongs to |
| `BtreeChecks.Checker.ChildHighkeyCheck` | pg-src/contrib/amcheck/verify_nbtree.c:1850-2081 | the verdict and the remembered right link are those of the search; the verdict is Endless if and only if the source's loop never ends |
| `BtreeSearches.EndlessIff` | pg-src/contrib/amcheck/verify_nbtree.c:1889-2079 | the loop over right links never ends if and only if it meets some block a second time before it reaches the downlink, the end of the level or a failing block, and if and only if it gets through one turn more than there are blocks |
| `BtreeSearches.RepeatsForever` | pg-src/contrib/amcheck/verify_nbtree.c:1889-2079 | what follows a block depends on the block alone, so after a repetition the loop goes on for ever |
| `BtreeSearches.TurnsSuffice` | pg-src/contrib/amcheck/verify_nbtree.c:1889-2079 | one turn more than there are blocks is enough: the verdict Endless is the truth about the unbounded loop, and no larger number of turns changes any result |
| `BtreeSearches.AgreeingEnds` | pg-src/contrib/amcheck/verify_nbtree.c:1960-1970 | where left and right links of the child level agree the loop always ends, since a circle leads back to its first block, which is detected |
| `BtreeSearches.PlainEnds` | pg-src/contrib/amcheck/verify_nbtree.c:1889-2079 | without root flags and interrupted splits on the child level the first turn decides |
| `BtreeLevels.LevelEnds` | pg-src/contrib/amcheck/verify_nbtree.c:684-901 | so the check of a level ends if the level below has neither, or if its links agree |
| `BtreeLevels.IndexEnds` | pg-src/contrib/amcheck/verify_nbtree.c:446-566 | and the check of an index ends if that holds on every level but the root's |
| `BtreeTheorems.CircleIsEndless` | pg-src/contrib/amcheck/verify_nbtree.c:1960-1970 | a concrete index with a circle of interrupted splits on which the check of every level never ends, for any number of turns |
| `BtreeTraces.PassesIff` | pg-src/contrib/amcheck/verify_nbtree.c:1924-2062 | a block passes if and only if the walk stays in step with the downlinks: root flag or interrupted split for a block without one, high keys equal to separators, no return to the first skipped block |
| `BtreeTraces.SearchSound` | pg-src/contrib/amcheck/verify_nbtree.c:1850-2081 | an accepted search has walked over right links to its downlink, skipping only excused blocks, or to the end of the level |
| `BtreeTraces.SearchComplete` | pg-src/contrib/amcheck/verify_nbtree.c:1850-2081 | whenever there is such a walk the search accepts, however many blocks it skips |
| `BtreeChecks.Checker.ChildCheck` | pg-src/contrib/amcheck/verify_nbtree.c:2096-2246 | the search for one downlink, then every keyed item of the child against the downlink's key |
| `BtreeChecks.Checker.ChildItemsCheck` | pg-src/contrib/amcheck/verify_nbtree.c:2197-2243 | the loop decides exactly that |
| `BtreeChecks.Checker.SiblingCheck` | pg-src/contrib/amcheck/verify_nbtree.c:1571-1771 | decides whether the last item is before the right sibling's first keyed item, if there is one |
| `BtreeChecks.Checker.ItemCheck` | pg-src/contrib/amcheck/verify_nbtree.c:1118-1525 | decides attribute counts, the high key bound and the order of neighbours for one item |
| `BtreeChecks.Checker.LeafPageCheck` | pg-src/contrib/amcheck/verify_nbtree.c:1072-1553 | accepts a leaf page if and only if all its items pass |
| `BtreeChecks.Checker.InternalPageCheck` | pg-src/contrib/amcheck/verify_nbtree.c:1072-1553 | the result for an internal page: its items in turn, and after the rightmost page the rest of the level below |
| `BtreeTraces.PageSound` | pg-src/contrib/amcheck/verify_nbtree.c:1072-1553 | an accepted internal page's items and children are in order and the walk below has met exactly its downlinks |
| `BtreeTraces.PageComplete` | pg-src/contrib/amcheck/verify_nbtree.c:1072-1553 | a page in order with such a walk is accepted |
| `BtreePages.SiblingsDistinct` | pg-src/contrib/amcheck/verify_nbtree.c:684-901 | over arbitrary links the pages visited on a level are pairwise distinct |
| `BtreePages.SiblingsBounded` | pg-src/contrib/amcheck/verify_nbtree.c:684-901 | so there are no more of them than blocks |
| `BtreeChecks.Checker.LevelCheck` | pg-src/contrib/amcheck/verify_nbtree.c:684-901 | the walk ends; it accepts if and only if the level is good, and names its pages; it is never Endless when the level below is plain or its links agree |
| `BtreeTraces.LevelIsExact` | pg-src/contrib/amcheck/verify_nbtree.c:684-901 | the check of a level accepts exactly the levels whose pages are linked both ways, in order and above their children, with a walk of the whole level below in step with their downlinks |
| `BtreeChecks.Checker.CheckEveryLevel` | pg-src/contrib/amcheck/verify_nbtree.c:446-566 | the same for the index from the root down, each level where the one above says it begins |
| `BtreeTraces.IndexIsExact` | pg-src/contrib/amcheck/verify_nbtree.c:446-566 | the whole check accepts exactly the indexes all of whose levels are good |
| `BtreeTheorems.LevelInOrderIff` | pg-src/contrib/amcheck/verify_nbtree.c:1118-1525 | all keyed items of an accepted level increase strictly from left to right if and only if they do across each run of pages without keyed items, where the check makes no comparison |
| `BtreeTheorems.LevelInOrder` | pg-src/contrib/amcheck/verify_nbtree.c:1118-1525 | in particular if no page without keyed items lies between pages with some |
| `BtreeTheorems.EmptyPageHidesDisorder` | pg-src/contrib/amcheck/verify_nbtree.c:1571-1771 | a concrete index of three levels with an empty leaf in the middle that the check of every level accepts although its leaves are out of order |
| `BtreeTheorems.HighKeyBounds` | pg-src/contrib/amcheck/verify_nbtree.c:1344-1410 | a keyed item is at most its page's high key, and below it on internal pages |
| `BtreeTheorems.TraceLinks` | pg-src/contrib/amcheck/verify_nbtree.c:1183-1198 | the walk below meets the level's downlinks, concatenated from left to right |
| `BtreeTheorems.SkippedIsExcused` | pg-src/contrib/amcheck/verify_nbtree.c:2261-2427 | a child block without a downlink is a root page or follows an interrupted split |
| `BtreeTheorems.LockstepIsExact` | pg-src/contrib/amcheck/verify_nbtree.c:1850-2081 | without root flags and interrupted splits below, the downlinks of an accepted level are the whole level below, from its leftmost page to its end, if and only if none names block 0 |
| `BtreeTheorems.NullDownlinkIsAccepted` | pg-src/contrib/amcheck/verify_nbtree.c:1889-1907 | the check of the whole index accepts a root whose only downlink names block 0 |
| `BtreeTheorems.WholeLevelUnique` | pg-src/contrib/amcheck/verify_nbtree.c:1850-2081 | a level is determined by its leftmost block |
| `BtreeTheorems.NextLevelIsDownlinks` | pg-src/contrib/amcheck/verify_nbtree.c:684-901 | of two accepted levels the lower one's pages are the upper one's downlinks |
| `BtreeTheorems.EveryLevelIsDownlinks` | pg-src/contrib/amcheck/verify_nbtree.c:446-566 | the same for the levels the check of an index returns |
| `BtreeTheorems.KeyRangesNest` | pg-src/contrib/amcheck/verify_nbtree.c:2096-2246 | a child's keyed items lie above their downlink's key and at most at the next separator, below it on internal levels |
| `Convolution.PosDecodes` | aqua_extension/src/conv.c:391-462 | a position in a window determines its channel, kernel row and kernel column |
| `Convolution.LoopCount` | aqua_extension/src/conv.c:391-462 | the strided loops make exactly the computed number of turns |
| `Convolution.FillWindow` | aqua_extension/src/conv.c:412-455 | the inner loops write each cell of one window with the padded pixel it stands for, and nothing outside the window |
| `Convolution.WriteWindow` | aqua_extension/src/conv.c:410-431 | one turn of the outer loops writes its own window and keeps those before it |
| `Convolution.Im2colCore` | aqua_extension/src/conv.c:391-462 | the whole matrix: each window's cells are the zero-padded, strided patch |
| `Convolution.CellHasWindow` | aqua_extension/src/conv.c:391-462 | every cell of the output belongs to a window |
| `Convolution.CellHasOneWindow` | aqua_extension/src/conv.c:391-462 | and to no other, so it is written once and turns do not overlap |
| `ConvKernels.OutFloorIs` | aqua_extension/src/matrix_op.c:58-61 | the two window counts agree exactly when the stride divides; otherwise one is short by one |
| `ConvKernels.Im2col` | aqua_extension/src/matrix_op.c:58-94 | the running cursor writes the same matrix, and stays inside the array, exactly when the stride divides or there is nothing to write |
| `ConvKernels.StrideThreeOverruns` | aqua_extension/src/matrix_op.c:58-94 | a 5 by 5 image, a 2 by 2 kernel and stride 3: four cells are allocated where sixteen are written |
| `ConvKernels.DotIsConv` | aqua_extension/src/conv.c:247-250 | the product of a kernel row with an unfolded window is the direct convolution there |
| `ConvKernels.AddBias` | aqua_extension/src/conv.c:258-271 | the in-place loops add each channel's bias and clamp at zero |
| `ConvKernels.KfmIm2col` | aqua_extension/src/conv.c:157-279 | direct zero-padded, strided convolution of the selected channels, with bias and relu exactly when the bias has an entry per output channel; succeeds exactly on acceptable arguments |
| `Padding.RawPadIsExact` | aqua_extension/src/dbocg/graph.py:543-552 | the padding before rounding is the least that gives the declared number of windows |
| `Padding.SamePaddingAgrees` | aqua_extension/src/dbocg/graph.py:527-557 | the kernel's window count with the emitted pads is the declared output size if and only if the stride is at least two or the kernel size is odd |
| `Padding.EvenKernelDisagrees` | aqua_extension/src/dbocg/graph.py:527-557 | four cells, a kernel of two, stride one: five windows where four are declared |
| `Padding.AgreesIff` | aqua_extension/src/dbocg/op.py:161-172 | the two sizes agree exactly when the padded extent exceeds what is needed by less than a stride |
| `LruCaches.LruCache.MoveToHead` | aqua_extension/src/model_buffer.c:145-178 | the pointer surgery moves the entry to the front of the sequence; links, head and tail stay consistent |
| `LruCaches.LruCache.Insert` | aqua_extension/src/model_buffer.c:198-253 | the list's contents after a put are the abstract sequence's |
| `LruCaches.LruCache.Lookup` | aqua_extension/src/model_buffer.c:255-268 | the same for a get, with the weight found |
| `LruCaches.LruCache.Evict` | aqua_extension/src/model_buffer.c:213-231 | removes exactly the last entry |
| `LruCaches.RunBounded` | aqua_extension/src/model_buffer.c:198-268 | after any calls the cache holds at most its capacity, a capacity below one acting as one |
| `LruCaches.PutKeepsDistinct` | aqua_extension/src/model_buffer.c:198-253 | names stay distinct if and only if the new name is short or is not cut to one that is kept |
| `LruCaches.LongNameTwice` | aqua_extension/src/model_buffer.c:198-253 | a name of 64 characters put twice is there twice |
| `LruCaches.RunDistinct` | aqua_extension/src/model_buffer.c:198-268 | with short names all names are distinct after any calls |
| `LruCaches.RunByRecency` | aqua_extension/src/model_buffer.c:198-268 | the entries are ordered by the last call that put or found them |
| `LruCaches.EvictsLeastRecent` | aqua_extension/src/model_buffer.c:213-231 | what a full cache drops was used before everything it keeps |
| `LruCaches.RunIsCoherent` | aqua_extension/src/model_buffer.c:198-268 | a weight in the cache is the one last put under its name |
| `LruCaches.WeightPool.InsertWeight` | aqua_extension/src/model_buffer.c:39-79 | the counter stays the cache's share plus the bytes stored and within the pool; fails exactly when the old total plus the new bytes exceed the pool |
| `ArrayAggregate.RoundTrip` | aqua_extension/src/extended_op.c:469-611 | a state survives being sent |
| `ArrayAggregate.Serialize` | aqua_extension/src/extended_op.c:469-527 | the buffer holds exactly the encoded state |
| `ArrayAggregate.Deserialize` | aqua_extension/src/extended_op.c:530-611 | the cursor-based reads decode the message, or fail where it is too short or too long |
| `ArrayAggregate.BuildState.CombineWith` | aqua_extension/src/extended_op.c:380-460 | the state after combining, or an error on different shapes |
| `ArrayAggregate.BuildState.AddInput` | pg-src/src/backend/utils/adt/arrayfuncs.c:5317-5460 | the state after one more array, or an error on a different shape |
| `ArrayAggregate.AccumulateAfterCombine` | aqua_extension/src/extended_op.c:316-466 | an input after a combination, or the combination after the input, give the same state |
| `ArrayAggregate.AppendIsCombine` | aqua_extension/src/extended_op.c:316-466 | accumulating a concatenation is combining its halves, errors included |
| `ArrayAggregate.ParallelIsSequential` | aqua_extension/src/extended_op.c:316-611 | however the inputs are divided among workers, the states sent and combined in order give the sequential state |
| `ArrayAggregate.FinalIsStack` | aqua_extension/src/extended_op.c:246-314 | n matrices of r by c give one of n * r by c, in row-major order of the inputs |
| `ArrayAggregate.FinalElement` | aqua_extension/src/extended_op.c:246-314 | byte by byte, the element in row i * r + a and column b of the result is the element in row a and column b of input i |
| `ArrayAggregate.ParallelStack` | aqua_extension/src/extended_op.c:196-611 | so does the parallel aggregate |
| `ArrayAggregate.AccumulateStaysWithin` | pg-src/src/backend/utils/adt/arrayfuncs.c:5386-5420 | an input is written inside the buffer of a state whose buffer has the size it records, and leaves such a state |
| `ArrayAggregate.CombineStaysWithin` | aqua_extension/src/extended_op.c:346-455 | so is a combination, whatever buffer the second state has; a first state is copied into a buffer of the size it records |
| `ArrayAggregate.LeaderStaysWithin` | aqua_extension/src/extended_op.c:316-611 | in the parallel aggregate no combination writes past the leader's buffer, however the inputs are divided |
| `ArrayAggregate.ReceivedRoomyIff` | aqua_extension/src/extended_op.c:560-575 | whether a received state by itself has the room it records depends on the lengths of the inputs alone, by the growth rule of the sender and the doubling of the receiver |
| `ArrayAggregate.OneInputIsShortIff` | aqua_extension/src/extended_op.c:560-575 | after one input it has not if and only if the length is 1024 times a power of two |
| `ArrayAggregate.ThreeInputsAreShort` | aqua_extension/src/extended_op.c:560-575 | inputs of 100, 3000 and 100 bytes record 6200 and arrive in a buffer of 4096 |
| `Cubes.Union` | pg-src/contrib/cube/cube.c:745-804 | the loops compute the least box over both, with missing dimensions read as zero |
| `Cubes.UnionIsLeast` | pg-src/contrib/cube/cube.c:745-804 | a union covers both boxes and lies in everything that does |
| `Cubes.Contains` | pg-src/contrib/cube/cube.c:1122-1159 | decides containment on the contained box's dimensions |
| `Cubes.Overlap` | pg-src/contrib/cube/cube.c:1192-1229 | decides whether the boxes meet on every axis, missing ones included |
| `Cubes.CmpZero` | pg-src/contrib/cube/cube.c:933-1012 | two boxes compare equal exactly when they have the same dimensions and intervals |
| `Cubes.CmpAntisymmetric` | pg-src/contrib/cube/cube.c:933-1012 | swapping the boxes turns the sign, for any dimensions |
| `Cubes.CmpIsOrderIff` | pg-src/contrib/cube/cube.c:933-1012 | the comparison is transitive over all boxes with dimensions from a set if and only if no two of these are different and positive |
| `Cubes.CmpCircle` | pg-src/contrib/cube/cube.c:933-1012 | for any two different positive dimensions three boxes run in a circle |
| `Cubes.SearchIsSound` | pg-src/contrib/cube/cube.c:677-731 | for overlap, sameness and containing, no key over a matching box turns the search away, for any mix of dimensions |
| `Cubes.ContainedByIsSoundIff` | pg-src/contrib/cube/cube.c:677-731 | for contained-by the same holds if and only if the query holds zero on the dimensions the box lacks |
| `Cubes.ContainedByEqualDims` | pg-src/contrib/cube/cube.c:677-731 | in particular for equal dimensions |
| `Cubes.ContainedByLosesRow` | pg-src/contrib/cube/cube.c:1145-1146 | a concrete box contained by a query that its own key does not meet |
| `CubeTrees.FoldUnion` | pg-src/contrib/cube/cube.c:423-447 | the loop folds unions over all entries, and gives no box for a single entry |
| `CubeTrees.FoldEncloses` | pg-src/contrib/cube/cube.c:423-447 | the result covers every entry |
| `CubeTrees.SearchReaches` | pg-src/contrib/cube/cube.c:383-415 | a search of a tree of covering keys reaches every box that satisfies it, where the strategy is never pruned |
| `CubeTrees.SearchIsExact` | pg-src/contrib/cube/cube.c:383-415 | it finds exactly the boxes that satisfy it: for three strategies with any mix of dimensions, for being contained with equal dimensions or a query that holds zero on the axes a box lacks |
| `CubeTrees.Distance` | pg-src/contrib/cube/cube.c:1251-1394 | the loops add up the gaps on all axes as taxicab, squared Euclidean or Chebyshev distance |
| `CubeTrees.DistanceIsGap` | pg-src/contrib/cube/cube.c:1501-1514 | the one-dimensional distance is the gap between the intervals |
| `CubeTrees.KeyIsNearest` | pg-src/contrib/cube/cube.c:1251-1394 | no box under a key is nearer to the query than the key, for each of the three distances |
| `CubeTrees.CoordIsLowerBound` | pg-src/contrib/cube/cube.c:1404-1466 | an internal key's coordinate distance bounds that of every box below it, for either sign of the coordinate |
| `CubeTrees.PickSeeds` | pg-src/contrib/cube/cube.c:545-584 | the seeds are the pair that wastes the most room together, among all but the last slot |
| `CubeTrees.PickSplit` | pg-src/contrib/cube/cube.c:509-654 | for three or more slots: each offset in exactly one of two non-empty increasing lists, both within their arrays together with the sentinel, and each side's box covers its entries |

## Left out

- Graph.hash, total_cost, optimize and the candidate heap: cost and hash filters decide which rewrites are kept, not what a rewrite means; Xfers.GraphXfer.Emit keeps every rewrite that passes the structural checks.
- Shape inference of created operators: an oracle `shapesOk` stands for it.
- Xfers.GraphXfer.CanMatchOp: without the tensor constraints of a rule (`check_tnConstraints`), which only reject more placements.
- Xfers.LinearCanMatch: likewise without tensor constraints.
- Xfers.PlacementPasses: likewise without tensor constraints.
- Xfers.GraphXfer.Emit: without the cost, size and hash filters, which decide only which rewrites are kept.
- The model's tables of operator objects: a created operator gets a new guid each time, as in the source; that equal operators share one inner object is not modelled.
- Xfers.GraphXfer.Run: proved for rules that use each external input once; what goes wrong for other rules is Rules.BacktrackingAcceptsNonEmbedding.
- Text and bit keys of btree_gist, with collations, multibyte characters and leaf transforms.
- Bloom index: WAL records, buffer pins, relation extension locks, statistics, costs and option parsing; a scan with a null key, which returns nothing.
- BloomPages.Generator.FormTuple: hash functions of the column types are parameters.
- Page deletion states, posting lists, non-key columns, line pointer and tuple size checks, concurrent mode, indexes without heap row pointers, rootdescend and heapallindexed in amcheck; of `bt_downlink_missing_check` the descent that looks for an interrupted deletion, which can only end in an error without such pages.
- Link fields that hold InvalidBlockNumber, the metapage's contents, and 32-bit block arithmetic in amcheck.
- OpenMP scheduling: im2col's turns are modelled in order; that they write disjoint windows is Convolution.CellHasOneWindow.
- ConvKernels.KfmIm2col: the matrix product of the BLAS library is a loop with its specification; `sqrt` of the channel size is the given width; the argument array's dimensions are not overwritten.
- The other kernels of conv.c, pool.c and matrix_op.c: grouped, row and column variants, pooling, batch normalisation.
- The hash table of the weight pool is a map, a weight is an integer handle, and memory contexts are not modelled.
- ArrayAggregate.Deserialize: speaks of the fields it sets; the buffer it allocates is ArrayAggregate.Received.
- Null bitmaps in combining; dimension overflow in the final array; one-dimensional inputs to the final function.
- CubeTrees.Distance: the square root of the Euclidean distance; infinities and not-a-number coordinates of boxes.
- The penalty function of cubes, box parsing and output, and the other cube operators.
- ONNX loading, SQL generation, database execution, planner hooks and the remaining PostgreSQL modules.
