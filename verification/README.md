# FusionGraph graph kernel in Dafny

A model of the graph kernel of FusionGraph with machine-checked proofs: how an edge list becomes a
sharded compressed-sparse-row (CSR) base layer, how a mutable delta layer overlays it, how compaction and
transpose rebuild it, how breadth-first search (plain, capped and direction-optimizing) reads it, and how
the catalog, the key loader and the circuit breaker around it behave over whole runs.

## How it is organised

| file | role |
|---|---|
| `Words.dfy` | 64-bit words as numbers, with the bit operations the bitsets use |
| `Common.dfy`, `EdgeLists.dfy`, `StableSort.dfy` | edges, rows of an edge list, the stable sort by source |
| `Hops.dfy` | walks and hop distances: what any correct search result is |
| `Admission.dfy` | the order in which a queue search admits nodes, as a function |
| `Csr.dfy`, `Builder.dfy` | shards and their addressing; counting sort, greedy sharding, the builder |
| `Delta.dfy`, `Merge.dfy` | the last-writer-wins overlay; the merged rows the iterator shows |
| `BaseLaws.dfy`, `Graph.dfy` | transposition; `CsrGraph` with its iterator, compaction and transpose |
| `Simd.dfy`, `Bfs.dfy`, `DoBfs.dfy` | the filters and the two searches |
| `Hybrid.dfy` | level-by-level runs over two graphs, and exactly when they are breadth-first searches |
| `SearchLaws.dfy` | laws across graphs, caps and compactions |
| `Traversal.dfy` | the operator that dispatches a traversal request to a kernel |
| `Compaction.dfy`, `CarriedWeights.dfy`, `Catalog.dfy` | compaction against concurrent writers over whole runs; the weights it carries; the catalog |
| `Dictionary.dfy`, `Loader.dfy` | string interning and the graph built from key pairs |
| `Circuit.dfy` | the circuit breaker as a state machine with an input clock |

Code that updates state is modelled as classes and loops (`CsrBuilder`, `DeltaLayer`, `NeighborIter`,
`Visited`, the search loops over word arrays, `GraphCatalog`, `CircuitBreaker`), each proved against a
function of its inputs or old state; the promises are then proved of those functions.

A search result is judged against `Hops.Exact`, which speaks only of walks: the plain kernel is always exact, the
direction-optimizing one exactly when the two graphs agree where it matters, and two exact results agree on every
depth and every level (`Hops.ExactAgree`, `SearchLaws.SearchBothWays`). A built graph is judged against
`Builder.IndexOf`, which speaks only of the edge list. A mutated graph is judged against `Delta.Written`, the writes
applied one after another to a set of edges.

## Where the code and its documentation differ

- The count check at `crates/fusiongraph-core/src/traversal/dobfs.rs:62` reports a reverse graph that is not the
  transpose, but equal counts do not make one (`DoBfs.CountsDoNotMakeATranspose`). What an accepted pair returns
  is exact if and only if, at every true level that the switching rule sends bottom-up, each node not yet within
  reach has a reverse-row parent in the level exactly when it has an in-edge from it
  (`DoBfs.BfsDirectionOptimized`). For every start, depth and choice of directions that means the reversed
  edges, self-loops aside (`Hybrid.AnyDirectionsExactIff`), which `CsrGraph::transpose` provides.
- `crates/fusiongraph-datafusion/src/udtf.rs:203-206` says that writers racing a compaction lose no data. That
  holds for writes that finish after the second drain and before the replay starts, if no write falls into
  another window (`Compaction.QuietCompaction`). `Compaction.WritesKeptIff` gives the exact condition for writes
  in every window: between the drains a re-inserted stored edge is lost unless it is written again; between the
  replay's drains and before the swap an insert stays behind (`Compaction.InsertDuringReplayIsLost`). A second
  compactor that swaps last discards what the first one drained (`Compaction.SecondCompactorForgets`; exactly
  when, with writers: `Compaction.SecondCompactorKeepsIff`). A compaction that returns an error always loses a
  drained insertion (`Compaction.EventShowsItsWritesIff`). Over whole runs, edge by edge:
  `Compaction.RunShowsEdgeIff`.
- The entry is looked up at `crates/fusiongraph-datafusion/src/udtf.rs:217` and a new one inserted at line 247
  whatever the name holds by then: a registration in between is overwritten and a removal undone
  (`Catalog.SwapOverwritesIff`).
- Compaction can change how often a parallel edge is shown (`Compaction.ParallelEdgeIsForgotten`, exactly when:
  `Compaction.CompactionKeepsMultiplicityIff`) and which ids the graph contains
  (`SearchLaws.CompactionCanDropTheStart`, exactly when: `SearchLaws.CompactedContainsIff`).
  `crates/fusiongraph-core/src/csr.rs:262-264` says that weights of insertions are carried over; that needs a
  base with weights that does not store the edge, or stores it with that very weight
  (`CarriedWeights.InsertedWeightCarriedIff`).
- A builder given edges with and without weights, in any order, drops as many edges as came without weights
  (`Builder.MixedBuildKeepsEdgesIff`; at an input, `Builder.MixedBuildDropsAnEdge`).
- A memoized transpose is as old as its first use (`crates/fusiongraph-datafusion/src/udtf.rs:171-173`):
  incoming requests over it are right if and only if it still holds the reversed edges into its nodes,
  self-loops aside (`Traversal.IncomingRightIff`, `Traversal.StaleTransposeMisses`).
- The circuit breaker admits a check before its reset timeout is over when the timeout exceeds u64 milliseconds,
  or when it is zero in u64 milliseconds and the clock has gone back (`Circuit.AdmittedEarlyIff`; at an input,
  `Circuit.LongTimeoutAdmitsEarly`).
- `crates/fusiongraph-core/src/circuit_breaker.rs:126-128` says that concurrent checks cannot erase recorded
  successes. The winning thread's own store can: `Circuit.SplitCheckIff` says exactly when successes recorded
  between its exchange and its store survive (`Circuit.SplitCheckErasesASuccess`,
  `Circuit.SplitCheckClosesEarly`).

## Model

| member | source | states |
|---|---|---|
| Hops.ExactMeans | crates/fusiongraph-core/src/traversal/bfs.rs:141-235 | The level-by-level form of an exact result is the plain one: the visited nodes are exactly those within `max_depth` hops of a start, once each, in non-decreasing depth, each depth the length of a shortest walk, `levels` concatenates to `visited`, and `levels[d]` holds exactly depth d |
| Hops.ExactAgree | crates/fusiongraph-core/src/traversal/dobfs.rs:121-210 | Any two exact results over the same neighbour sets have the same node-to-depth map, the same number of levels, the same members in each level and the same deepest level, whatever order and direction produced them |
| Hops.ReversedDist | crates/fusiongraph-datafusion/src/exec/graph_traversal.rs:136-143 | Shortest distances over reversed rows are the distances of the reversed walks |
| Hops.ReversedWalk | crates/fusiongraph-datafusion/src/exec/graph_traversal.rs:136-143 | A walk of k edges from v to x exists exactly when one of k reversed edges exists from x to v |
| Hops.NothingBeyond | crates/fusiongraph-core/src/traversal/bfs.rs:181-224 | If no node is at distance d then none is at any later distance: an empty frontier means the search is finished |
| Admission.QueueKeepsInv | crates/fusiongraph-core/src/traversal/bfs.rs:181-224 | After any number of pops the queue holds distinct nodes, each reachable in its recorded depth, depths grow by at most one, every start is present, and every neighbour of a popped node is present no deeper than one level below it |
| Admission.FinishedCovers | crates/fusiongraph-core/src/traversal/bfs.rs:181-224 | When every entry has been popped, every node within `max_depth` hops has been admitted no deeper than its distance |
| Admission.FinishedIsDist | crates/fusiongraph-core/src/traversal/bfs.rs:181-224 | When every entry has been popped, the recorded depth of a node is its shortest distance and every node in range is recorded |
| Admission.FinishedIsExact | crates/fusiongraph-core/src/traversal/bfs.rs:181-235 | A finished queue, split into levels, is an exact result |
| Admission.CapIsPrefix | crates/fusiongraph-core/src/traversal/bfs.rs:148-162 | Under a cap the search admits exactly the first `cap` entries of the uncapped admission order |
| Admission.AdmitsInOrder | crates/fusiongraph-core/src/traversal/bfs.rs:209-221 | Neighbours are admitted in list order: each new entry is the first listed node that is not there yet |
| Bfs.Visited.TestAndSet | crates/fusiongraph-core/src/traversal/bfs.rs:84-97 | Answers whether the node was unseen and marks that node and no other, in the words below the capacity and in the overflow set above it |
| Bfs.Seed | crates/fusiongraph-core/src/traversal/bfs.rs:153-162 | Admits the contained starts once each, in order, up to the cap |
| Bfs.ContainedMember | crates/fusiongraph-core/src/traversal/bfs.rs:157-161 | A root of the search is exactly a given start below the node count |
| Bfs.ContainedAppend | crates/fusiongraph-core/src/traversal/bfs.rs:157-161 | The roots of two start lists one after the other are the roots of both, in order |
| Bfs.ExpandFast | crates/fusiongraph-core/src/traversal/bfs.rs:193-208 | The filtered base-slice path admits exactly what a one-by-one test of the merged row would admit, duplicates within the batch included, up to the cap |
| Bfs.ExpandSlow | crates/fusiongraph-core/src/traversal/bfs.rs:209-221 | The merged-iterator path admits exactly the unseen neighbours in iteration order, up to the cap |
| Bfs.PopStep | crates/fusiongraph-core/src/traversal/bfs.rs:179-222 | Popping and expanding entry k of the capped queue gives the capped queue after k + 1 expansions: skipping expansion at the depth limit or the cap changes nothing |
| Bfs.Drain | crates/fusiongraph-core/src/traversal/bfs.rs:179-235 | The main loop terminates and returns the admission order, split into levels |
| Bfs.BfsBounded | crates/fusiongraph-core/src/traversal/bfs.rs:141-235 | For every graph, delta, start list, depth limit and cap, the result is the capped admission order of that graph, and exact when uncapped |
| Bfs.SearchedUncapped | crates/fusiongraph-core/src/traversal/bfs.rs:141-235 | An uncapped result is exact: precisely the nodes in range, at their shortest distances |
| Bfs.QueueFits | crates/fusiongraph-core/src/traversal/bfs.rs:149-162 | The queue never outgrows the base ids and inserted targets, so the `usize` admission count is exact |
| SearchLaws.CappedIsPrefix | crates/fusiongraph-core/src/traversal/bfs.rs:148-222 | A capped search returns exactly the first min(cap, n) nodes and depths of the uncapped one, so every depth it reports is still the shortest distance |
| SearchLaws.SameRowsSameResult | crates/fusiongraph-core/src/csr.rs:270-334 | Two graphs whose iterators agree row for row give the same nodes with the same depths in the same order, under any cap |
| SearchLaws.DepthsAgreeIff | crates/fusiongraph-core/src/csr.rs:121-123 | Over the same neighbours, searches from one start give every node the same depth if and only if both graphs contain the start or neither does |
| SearchLaws.CompactedContainsIff | crates/fusiongraph-core/src/csr/builder.rs:101-113 | A compacted graph contains a node if and only if some edge visible before the compaction has an end at or above it |
| SearchLaws.SearchAcrossCompaction | crates/fusiongraph-core/src/csr.rs:592-603 | Searching one start before and after a successful compaction without writers between its drains: every node keeps its depth if and only if the graph contained the start exactly when one of its visible edges has an end at or above it |
| SearchLaws.SearchBothWays | crates/fusiongraph-core/src/traversal/dobfs.rs:221-245 | On every delta-free graph, searched by the hybrid kernel over its own transpose and by the plain one from the same start to the same depth: every node has the same depth or is missing from both, and the levels agree in number, members and deepest level |
| SearchLaws.CompactionCanDropTheStart | crates/fusiongraph-core/src/csr/builder.rs:101-113 | Deleting the only edge of a graph and compacting leaves a graph that no longer contains its old nodes |
| DoBfs.TestBit | crates/fusiongraph-core/src/traversal/dobfs.rs:38-40 | Tests exactly the bit of the given node |
| DoBfs.UnvisitedWordBit | crates/fusiongraph-core/src/traversal/dobfs.rs:152-158 | The masked complement of word w has exactly the bits of the unvisited ids below `node_count`; padding bits never escape |
| DoBfs.FindParent | crates/fusiongraph-core/src/traversal/dobfs.rs:164-171 | Scanning the reverse row answers whether some in-neighbour is marked, stopping at the first |
| DoBfs.ScanWord | crates/fusiongraph-core/src/traversal/dobfs.rs:153-173 | The bit-clearing loop terminates and pushes, in ascending order, exactly the unvisited ids of the word that have a marked in-neighbour |
| DoBfs.ScanUnvisited | crates/fusiongraph-core/src/traversal/dobfs.rs:151-173 | The word scan yields, strictly ascending, exactly the unvisited ids below `node_count` that have a marked in-neighbour |
| DoBfs.ClearAll | crates/fusiongraph-core/src/traversal/dobfs.rs:178-181 | Clearing the frontier leaves its bitmap all zero |
| DoBfs.BottomUp | crates/fusiongraph-core/src/traversal/dobfs.rs:145-181 | A bottom-up step gives exactly the unvisited nodes with an in-edge from the frontier, marks them and nothing else, and leaves the frontier bitmap all zero |
| DoBfs.TopDown | crates/fusiongraph-core/src/traversal/dobfs.rs:182-195 | A top-down step gives exactly the unvisited out-neighbours of the frontier, once each, and marks them and nothing else |
| Hybrid.StepIsLevelIff | crates/fusiongraph-core/src/traversal/dobfs.rs:144-201 | After true levels the step is the next true level if and only if it was read top-down or the two graphs agree at this level |
| Hybrid.RanIsExactIff | crates/fusiongraph-core/src/traversal/dobfs.rs:120-210 | A level-by-level run over any two adjacencies, in any directions, is exact if and only if, at every level it read bottom-up, each node not yet within reach has a reverse-row parent in the level exactly when it has an in-edge from it |
| Hybrid.RuleIsExactIff | crates/fusiongraph-core/src/traversal/dobfs.rs:120-210 | The run that follows the switching rule is exact if and only if the two graphs agree in that way at every true level that the rule sends bottom-up |
| Hybrid.AnyDirectionsExactIff | crates/fusiongraph-core/src/traversal/dobfs.rs:120-210 | Every run of every choice of directions, from every start to every depth, is exact if and only if the second graph holds the reversed edges, self-loops aside |
| Hybrid.RuleReadsSets | crates/fusiongraph-core/src/traversal/dobfs.rs:137-142 | The switching rule depends on the levels as sets only |
| DoBfs.Expand | crates/fusiongraph-core/src/traversal/dobfs.rs:144-195 | Over any two graphs of as many nodes: the next frontier is exactly the unrecorded nodes one step away in the chosen direction, once each, and the bitmaps are as the next level needs them |
| Hybrid.UnvisitedEdgesExact | crates/fusiongraph-core/src/traversal/dobfs.rs:138-140 | The out-degrees of distinct nodes sum to at most `edge_count`, and what remains is the sum over all other nodes |
| DoBfs.LevelDirection | crates/fusiongraph-core/src/traversal/dobfs.rs:116-142 | At every expanded level of any run the counted out-edges are those of the distinct recorded nodes and at most `edge_count`; the test with the constants 14 and 24 on them is the switching rule on the true counts |
| DoBfs.HybridSearch | crates/fusiongraph-core/src/traversal/dobfs.rs:97-210 | Over any two graphs of as many nodes the loop terminates with what the run in its directions records, follows the switching rule, and is exact if and only if the graphs agree at every true level that the rule sends bottom-up |
| DoBfs.BfsDirectionOptimized | crates/fusiongraph-core/src/traversal/dobfs.rs:56-211 | Fails exactly when the node counts differ, the edge counts differ, or the reverse graph has a delta; an accepted pair is answered exactly if and only if the forward graph has a delta, does not contain the start, or agrees with the other at every true level that the rule sends bottom-up |
| DoBfs.TransposeMatches | crates/fusiongraph-core/src/traversal/dobfs.rs:47-54 | A graph and its transpose agree at every level, so they are searched exactly |
| DoBfs.CountsDoNotMakeATranspose | crates/fusiongraph-core/src/traversal/dobfs.rs:62-79 | Equal counts and empty deltas do not establish a transpose: the call with a one-edge graph as its own reverse succeeds with a result that is not exact, although the other node is one hop away |
| DoBfs.MarkNew | crates/fusiongraph-core/src/traversal/dobfs.rs:174-176 | The nodes found are marked visited and nothing else is |
| Simd.UnvisitedMember | crates/fusiongraph-core/src/traversal/simd.rs:85-95 | The filter keeps exactly the in-range listed indices whose bit is clear |
| Simd.UnvisitedCount | crates/fusiongraph-core/src/traversal/simd.rs:85-95 | An index inside the bitset whose bit is clear is kept as often as it is listed; every other index is dropped |
| Simd.ScalarFilterNoClear | crates/fusiongraph-core/src/traversal/simd.rs:208-218 | Appends the unvisited indices in order, duplicates kept |
| Simd.NeonFilter | crates/fusiongraph-core/src/traversal/simd.rs:133-203 | Four lanes at a time with the scalar fallback and remainder output the same sequence as the scalar filter |
| Simd.NeonChunk | crates/fusiongraph-core/src/traversal/simd.rs:160-195 | Four lanes of shift and mask push exactly the unvisited indices of the chunk in order |
| Simd.Avx2Filter | crates/fusiongraph-core/src/traversal/simd.rs:234-284 | Eight lanes at a time with the scalar fallback and remainder output the same sequence as the scalar filter |
| Simd.EightSigns | crates/fusiongraph-core/src/traversal/simd.rs:255-275 | Combining the two four-lane sign masks gives one bit per lane, set exactly when that lane is negative |
| Simd.Avx2Chunk | crates/fusiongraph-core/src/traversal/simd.rs:250-280 | Eight lanes of gathered halves, shifts and sign bits push exactly the unvisited indices of the chunk in order |
| Simd.FilterUnvisitedInto | crates/fusiongraph-core/src/traversal/simd.rs:103-335 | Every backend clears the buffer and outputs the scalar filter's sequence |
| Simd.SetVisitedBatch | crates/fusiongraph-core/src/traversal/simd.rs:73-81 | Sets the bits of the listed in-range indices and no others |
| Words.ClearLowest | crates/fusiongraph-core/src/traversal/dobfs.rs:159-161 | `w & (w - 1)` removes exactly the lowest set bit, so the scan loop ends |
| Words.NotBit | crates/fusiongraph-core/src/traversal/dobfs.rs:153-153 | Complement flips every bit of the word |
| Words.AndPow2 | crates/fusiongraph-core/src/traversal/bfs.rs:89-93 | `w & (1 << b)` is nonzero exactly when bit b is set |
| StableSort.SortIsStable | crates/fusiongraph-core/src/csr/builder.rs:85-99 | Sorting by source gives a sorted list in which the items of each source keep their order |
| Builder.PairsSorted | crates/fusiongraph-core/src/csr/builder.rs:85-96 | Sorting zipped edges and weights keeps every row, in order, with each weight beside its own edge |
| Builder.EdgesSorted | crates/fusiongraph-core/src/csr/builder.rs:97-99 | Sorting unweighted edges keeps every row, in order |
| Builder.PickIsSlice | crates/fusiongraph-core/src/csr/builder.rs:158-170 | In a sorted list the edges of node n are exactly the slice between two consecutive row pointers |
| Builder.SlotOfEdge | crates/fusiongraph-core/src/csr/builder.rs:183-192 | Counting sort places edge i of a sorted list at position i |
| Builder.CountDegrees | crates/fusiongraph-core/src/csr/builder.rs:141-156 | Fails only for a source that is not a node or for more than u32::MAX edges; otherwise counts the edges leaving each node |
| Builder.SumDegrees | crates/fusiongraph-core/src/csr/builder.rs:158-170 | Row pointer n is the number of edges leaving the nodes below n, and the checked sum fails only beyond u32 edges |
| Builder.FillColumns | crates/fusiongraph-core/src/csr/builder.rs:172-200 | Fails only on a target beyond u32; otherwise the columns are the targets and the weights the weights, in sorted order, and no cursor overflows |
| Builder.BuildCsrArrays | crates/fusiongraph-core/src/csr/builder.rs:140-201 | Succeeds exactly when every id and the edge count fit, with row pointers, columns and weights of the sorted list |
| Builder.FindCut | crates/fusiongraph-core/src/csr/builder.rs:237-249 | The shrinking loop ends at the cut the greedy rule prescribes: within the shard size or a single node |
| Builder.TargetIsLeast | crates/fusiongraph-core/src/csr/builder.rs:219-231 | A shard starts out with the least number of nodes, at least one, whose bytes reach the shard size at the average per node, which is all row pointers and edges divided by the nodes and rounded up |
| Builder.PartitionIntoShards | crates/fusiongraph-core/src/csr/builder.rs:208-298 | The greedy cut covers all nodes with non-empty contiguous shards numbered in order, and fails exactly when 2^32 nodes would each be cut alone |
| Builder.PartitionFitsUsize | crates/fusiongraph-core/src/csr/builder.rs:219-246 | Neither product nor the sum in the size estimate saturates, and the target end and shard bytes fit, on a 64-bit target |
| Builder.AllAloneIff | crates/fusiongraph-core/src/csr/builder.rs:219-249 | Each of 2^32 nodes is cut alone exactly when the shard size is at most the average per node or no two neighbouring nodes fit in it together |
| Builder.DefaultNeverRunsOut | crates/fusiongraph-core/src/csr/builder.rs:290-294 | With the default shard size the shard counter never overflows |
| Builder.CutIsTiled | crates/fusiongraph-core/src/csr/builder.rs:279-295 | The shards cut from valid arrays tile 0..node_count |
| Builder.CutRow | crates/fusiongraph-core/src/csr/builder.rs:254-285 | However the arrays are cut, row n read through its shard is the global slice, with its weights |
| Builder.CutIndexes | crates/fusiongraph-core/src/csr/builder.rs:208-298 | Arrays filled from a sorted list and cut anywhere index every list it is a stable sort of: the result does not depend on the shard size |
| Builder.CutIsBounded | crates/fusiongraph-core/src/csr/builder.rs:240-249 | Each shard is within the shard size or holds a single node |
| Builder.IndexEdges | crates/fusiongraph-core/src/csr/builder.rs:78-136 | The edges read back from an index are the multiset of edges it was built from: none lost, added or moved |
| Builder.IndexIsValid | crates/fusiongraph-core/src/csr/builder.rs:101-136 | An index of fitting edges is a well-formed base layer whose node count is one past its largest endpoint |
| Builder.SpanFits | crates/fusiongraph-core/src/csr/builder.rs:101-113 | Fitting ids give a node count of at most 2^32 |
| Builder.EffectiveKeepsEdgesIff | crates/fusiongraph-core/src/csr/builder.rs:84-96 | In any builder state the build uses every added edge if and only if weights are off or every edge has one |
| Builder.MixedBuildKeepsEdgesIff | crates/fusiongraph-core/src/csr/builder.rs:56-96 | Over any sequence of builder calls the build keeps every added edge if and only if no call gave weights or no call gave edges without one; otherwise it drops as many edges as came without weights |
| Builder.MixedBuildDropsAnEdge | crates/fusiongraph-core/src/csr/builder.rs:56-96 | One plain edge added, then one weighted edge: the build uses the plain edge only |
| Builder.CsrBuilder.Add | crates/fusiongraph-core/src/csr/builder.rs:50-69 | A chain of calls on a fresh builder adds their edges and weights in order and turns weights on if any call gave some |
| Builder.AddedSnoc | crates/fusiongraph-core/src/csr/builder.rs:56-69 | One more call adds its edges after the earlier ones, and its weights if it gives some |
| Builder.CsrBuilder.WithEdges | crates/fusiongraph-core/src/csr/builder.rs:56-59 | Appends the edges and nothing else |
| Builder.CsrBuilder.WithWeightedEdges | crates/fusiongraph-core/src/csr/builder.rs:62-69 | Appends edges and weights in step and turns weights on |
| Builder.CsrBuilder.ValidateEdgeIds | crates/fusiongraph-core/src/csr/builder.rs:324-335 | Fails exactly on the first edge with an end beyond u32, naming it |
| Builder.CsrBuilder.SortEdges | crates/fusiongraph-core/src/csr/builder.rs:84-99 | Sorts in place, keeping every row and every weight beside its edge |
| Builder.CsrBuilder.Build | crates/fusiongraph-core/src/csr/builder.rs:78-137 | No edges give the empty graph; an id beyond u32 is refused; otherwise the build succeeds exactly when the edge count fits and the shards can be numbered in u32, as they always can below 2^32 nodes or with the default shard size, and the result indexes the effective edge list, each shard within the shard size or a single node |
| EdgeLists.TargetsCount | crates/fusiongraph-core/src/csr/builder.rs:172-198 | A target occurs in row n as often as the edge occurs in the list |
| Csr.Base.PartitionPointSplits | crates/fusiongraph-core/src/csr.rs:137-141 | The binary search separates the shards that start at or before the node from the rest |
| Csr.Base.Located | crates/fusiongraph-core/src/csr.rs:133-147 | The binary search finds the one shard that holds the node, and the row is read from it |
| Csr.Base.AddressRoundTrip | crates/fusiongraph-core/src/csr.rs:133-158 | `global_to_shard` answers exactly for ids below `node_count`, and `shard_to_global` undoes it |
| Csr.Base.OffsetRoundTrip | crates/fusiongraph-core/src/csr.rs:133-158 | `shard_to_global` answers exactly for stored offsets, and `global_to_shard` undoes it |
| Csr.Base.RowIsTargets | crates/fusiongraph-core/src/csr.rs:184-193 | `base_neighbor_slice` of n is row n of the graph's own edge list |
| Csr.Base.RowMember | crates/fusiongraph-core/src/csr.rs:392-395 | `base_contains` holds exactly for stored edges, whose ends are nodes of the graph |
| Csr.CsrShard.NeighborRange | crates/fusiongraph-core/src/csr/shard.rs:91-103 | The range of a row lies within the columns |
| Csr.Base.WeightRowLength | crates/fusiongraph-core/src/csr/shard.rs:126-128 | A weighted row has one weight per target |
| Delta.OverlayTracksWrites | crates/fusiongraph-core/src/delta.rs:31-44 | After any sequence of atomic inserts and deletes, insertions and tombstones are disjoint and the visible edges are those writes applied in order to the edges seen before |
| Delta.LastWriteHolds | crates/fusiongraph-core/src/delta.rs:31-44 | The last write to an edge decides its entry: an insert leaves the edge with that insert's data in place of older data, a delete leaves a tombstone |
| Delta.DeltaLayer.Insert | crates/fusiongraph-core/src/delta.rs:31-36 | Adds or replaces the insertion and removes the tombstone of that edge only |
| Delta.DeltaLayer.Delete | crates/fusiongraph-core/src/delta.rs:39-44 | Removes the insertion and adds the tombstone of that edge only |
| Delta.DeltaLayer.ApplyWrites | crates/fusiongraph-core/src/delta.rs:31-44 | Writers one after another: the overlay after all of them, in order |
| Delta.DeltaLayer.Clear | crates/fusiongraph-core/src/delta.rs:111-114 | Empties both parts |
| Delta.DeltaLayer.Neighbors | crates/fusiongraph-core/src/delta.rs:75-87 | The inserted targets of the node, each once, in iteration order |
| Delta.DeltaLayer.SnapshotInsertions | crates/fusiongraph-core/src/delta.rs:125-130 | Every insertion with its data, once, changing nothing |
| Delta.DeltaLayer.SnapshotDeletions | crates/fusiongraph-core/src/delta.rs:133-135 | Every tombstone once, changing nothing |
| Delta.DeltaLayer.DrainInsertions | crates/fusiongraph-core/src/delta.rs:138-150 | Returns every insertion with its data and removes exactly those; tombstones stay |
| Delta.DeltaLayer.DrainDeletions | crates/fusiongraph-core/src/delta.rs:153-161 | Returns every tombstone and removes exactly those; insertions stay |
| Merge.MergedCount | crates/fusiongraph-core/src/csr.rs:469-486 | The iterator yields a tombstoned edge never, a base edge as often as the base stores it, and an edge only the delta has exactly once |
| Merge.MergedMember | crates/fusiongraph-core/src/csr.rs:469-486 | The iterator yields exactly the base targets without tombstone and the inserted targets |
| Merge.OrderDoesNotMatter | crates/fusiongraph-core/src/delta.rs:75-87 | The iteration order of the delta never changes which neighbours are shown or how often |
| Merge.MergedClean | crates/fusiongraph-core/src/csr.rs:469-486 | With an empty delta the iterator is the base row |
| Merge.LiveRow | crates/fusiongraph-core/src/csr.rs:282-320 | Row n of the rebuilt edge list is what the iterator yielded for n, in the same order |
| Merge.LiveWeightRow | crates/fusiongraph-core/src/csr.rs:295-318 | In the rebuilt weights every surviving base edge keeps its own weight, followed by those of the new insertions |
| BaseLaws.DoubleTranspose | crates/fusiongraph-core/src/csr.rs:351-388 | Transposing twice gives every node its original neighbours with their multiplicities, and the original counts |
| BaseLaws.TransposeSymmetric | crates/fusiongraph-core/src/csr.rs:351-388 | Being the transpose is mutual, so incoming traversal may swap the pair |
| BaseLaws.TransposeReverses | crates/fusiongraph-core/src/csr.rs:351-388 | A transpose holds exactly the reversed edges |
| BaseLaws.ReversedIndex | crates/fusiongraph-core/src/csr.rs:351-388 | Indexing the reversed edges of a base gives its transpose, equal in node and edge count, with every row ascending |
| BaseLaws.ReversedLive | crates/fusiongraph-core/src/csr.rs:351-388 | Row b of the rebuilt reverse lists a as often as the live iterator shows b for a |
| Graph.CsrGraph.VisibleIsMerged | crates/fusiongraph-core/src/csr.rs:469-486 | The iterator shows exactly the visible edges: base edges with all writes applied |
| Graph.CsrGraph.HasEdge | crates/fusiongraph-core/src/csr.rs:206-219 | `has_edge` answers exactly whether the edge is visible |
| Graph.NeighborIter.Next | crates/fusiongraph-core/src/csr.rs:469-486 | Each call yields the next neighbour of the merged row; the row is exhausted exactly at `None` |
| Graph.NeighborIter.constructor | crates/fusiongraph-core/src/csr.rs:166-180 | A fresh iterator has the whole merged row ahead of it |
| Graph.BaseNeighbors | crates/fusiongraph-core/src/csr.rs:195-204 | The located shard and range hold the node's row; an unknown node has none |
| Graph.ListRow | crates/fusiongraph-core/src/csr.rs:287-303 | Lists one row without its tombstoned targets, each kept weight beside its edge |
| Graph.ListBase | crates/fusiongraph-core/src/csr.rs:282-305 | Lists every surviving base edge, node by node, with its weight, or reversed |
| Graph.ListInsertions | crates/fusiongraph-core/src/csr.rs:307-320 | Lists the insertions the base does not already store, with weight 1 where none was given |
| Graph.Rebuild | crates/fusiongraph-core/src/csr.rs:322-333 | A default build succeeds exactly when ids and edge count fit, and indexes the list with its weights |
| Graph.CsrGraph.Compact | crates/fusiongraph-core/src/csr.rs:270-334 | Succeeds exactly when the live edges fit; the new graph has an empty delta, the live edges and weights, and, with no writer between the drains, row for row what the iterator showed; the old delta keeps only what was deleted between the drains |
| Graph.CsrGraph.Transpose | crates/fusiongraph-core/src/csr.rs:351-388 | Succeeds exactly when the live edges fit; row b then lists a as often as the iterator shows b for a, the source graph is unchanged, and a delta-free graph always succeeds with its transpose, rows ascending |
| Compaction.LiveMember | crates/fusiongraph-core/src/csr.rs:282-320 | An edge is rebuilt if the base stores it without a tombstone, or if it was inserted and the base does not store it |
| CarriedWeights.InsertedWeightCarriedIff | crates/fusiongraph-core/src/csr.rs:262-320 | After a compaction the weight an insertion gave, or 1 if it gave none, lies beside its edge if and only if the base has weights and either does not store the edge or stores it untombstoned with that very weight |
| CarriedWeights.CompactAfterWrites | crates/fusiongraph-core/src/csr.rs:270-334 | Any writes, then a compaction with any writes between its drains: in a graph with weights an edge that the base does not store and that was last written by an insert has the weight of that insert beside it, or 1 if it gave none |
| CarriedWeights.EmptyGraphDropsWeights | crates/fusiongraph-core/src/csr.rs:275-333 | A weighted insertion into an empty graph is there after a compaction, without its weight |
| Compaction.RebuiltIs | crates/fusiongraph-core/src/csr.rs:270-334 | The edges of the rebuilt base, for any writes between the two drains |
| Compaction.RebuiltShows | crates/fusiongraph-core/src/csr.rs:271-320 | After the drains the rebuilt base under the leftover tombstones shows every write so far except exactly the lost ones: stored, tombstoned edges whose last write fell between the drains and was an insert |
| Compaction.CompactionShows | crates/fusiongraph-datafusion/src/udtf.rs:224-248 | With writers in all four windows (between the drains, before the replay, between the replay's drains, before the swap) the swapped-in graph shows an edge exactly as the last window that reaches it decides |
| Compaction.WritesKeptIff | crates/fusiongraph-datafusion/src/udtf.rs:203-206 | The swapped-in graph shows what was last written to an edge if and only if a write before the swap changes nothing, an insert between the replay's drains finds a stored copy, and a lost edge is written again before the replay's second drain |
| Compaction.EventShowsItsWritesIff | crates/fusiongraph-datafusion/src/udtf.rs:216-249 | A write, a compaction with writers in any of its windows, or a failed compaction shows exactly its writes in order if and only if it loses nothing; a failed compaction always loses a write |
| Compaction.EventKeepsIff | crates/fusiongraph-datafusion/src/udtf.rs:216-249 | Whatever a reader should have seen before an event, it sees an edge right after the event if and only if a write to the edge was kept, or, without one, the edge was right and is not touched; a failed compaction is right about an edge that was last inserted in it only if the base stores the edge, and about an untouched edge only if the base agrees with what should show |
| Compaction.RunShowsEdgeIff | crates/fusiongraph-datafusion/src/udtf.rs:216-249 | After any run of writes, compactions with writers in every window and failed compactions, readers see an edge as it was last written if and only if the last event that wrote it, or failed since, keeps it: a lost write can be made good by a later one |
| Compaction.RunShowsEveryWriteIff | crates/fusiongraph-datafusion/src/udtf.rs:216-249 | After any run of writes, compactions and failed compactions readers see all writes applied in order to the edges they started from if and only if each edge is kept in that sense; so they do when no event of the run loses anything |
| Compaction.QuietCompaction | crates/fusiongraph-datafusion/src/udtf.rs:229-236 | When every racing write falls after the second drain and before the replay, none is lost and the old delta ends empty |
| Compaction.InsertDuringReplayIsLost | crates/fusiongraph-datafusion/src/udtf.rs:229-248 | A new edge inserted between the replay's drains or before the swap is lost |
| Compaction.LeftBehindIs | crates/fusiongraph-datafusion/src/udtf.rs:229-248 | After the swap the old delta holds exactly the inserts that neither drain of the replay returned and the tombstones from before the swap |
| Compaction.SecondCompactorLosesNothingIff | crates/fusiongraph-datafusion/src/udtf.rs:216-249 | A second compactor that drains after the first and swaps last loses nothing if and only if the drained delta was changing nothing |
| Compaction.SecondCompactorForgets | crates/fusiongraph-datafusion/src/udtf.rs:216-249 | One stored, tombstoned edge and two such compactors without writers: the deleted edge shows again |
| Compaction.SecondCompactorKeepsIff | crates/fusiongraph-datafusion/src/udtf.rs:216-249 | A second compactor that drains after the first and swaps last, with writers between the first one's drains, between the two compactors and in all its own windows: it shows an edge as last written if and only if its own windows keep it, or, without a write there, a write between the compactors touched it, or, without that either, the base agrees with what the first compactor drained: it stores the edge if the last write between the drains inserted it, and without such a write stores it exactly if it was visible |
| Compaction.InsertBetweenDrainsIsLost | crates/fusiongraph-core/src/csr.rs:271-273 | A stored edge deleted before a compaction and inserted again between its drains is lost |
| Compaction.CompactionKeepsMultiplicityIff | crates/fusiongraph-core/src/csr.rs:307-312 | With and without a compaction the same later writes leave an edge shown equally often, if and only if it is not a tombstoned parallel edge that they insert again |
| Compaction.ParallelEdgeIsForgotten | crates/fusiongraph-core/src/csr.rs:307-312 | Two parallel edges, deleted and inserted once more: shown twice without a compaction in between, once with it |
| Compaction.WrittenMember | crates/fusiongraph-core/src/delta.rs:31-44 | Only the last write to an edge decides whether it is visible |
| Compaction.FailureHasAddition | crates/fusiongraph-core/src/csr.rs:270-334 | A rebuild that does not fit was given an insertion the base does not store |
| Compaction.OversizedInsertFails | crates/fusiongraph-core/src/csr.rs:263-269 | An inserted id beyond u32, which the delta accepts, makes the next compaction fail |
| Catalog.CompactAndReplay | crates/fusiongraph-datafusion/src/udtf.rs:224-248 | On success the new graph is the rebuilt one under the replayed writes, and the old delta holds what came too late; on failure the old graph stays without the drained writes |
| Catalog.ReplayInsertions | crates/fusiongraph-datafusion/src/udtf.rs:231-233 | Replays every drained insertion with its data into the empty delta |
| Catalog.ReplayDeletions | crates/fusiongraph-datafusion/src/udtf.rs:234-236 | Replays every drained tombstone over the replayed insertions |
| Catalog.GraphCatalog.CompactIfNeeded | crates/fusiongraph-datafusion/src/udtf.rs:216-249 | Does nothing for an unknown name or a negative policy; on success one fresh entry with the dictionary of the entry looked up, no memoized transpose and the compacted graph, for writers in any window, showing every racing write when the other windows are empty, is swapped in over whatever registrations and removals came in between left under the name; those of other names stand; on failure the catalog is as those calls leave it and the old graph is without the drained writes |
| Catalog.SwapOverwritesIff | crates/fusiongraph-datafusion/src/udtf.rs:240-248 | After the swap the last registration or removal of a name that came in before it has its effect if and only if the name is not the compacted one |
| Catalog.UntouchedStays | crates/fusiongraph-datafusion/src/udtf.rs:216-249 | A name that no other call mentions keeps its entry |
| Catalog.TransposesReverse | crates/fusiongraph-datafusion/src/udtf.rs:169-197 | A transpose built by the catalog shows the reversed neighbours of the forward graph, live mutations included |
| Catalog.GraphCatalog.Reverse | crates/fusiongraph-datafusion/src/udtf.rs:181-197 | A memoized transpose is returned unchanged, however old; otherwise the first copy installed is memoized and returned: a concurrent builder's, whatever graph that was built from, or ours, which is the transpose of the graph as it is |
| Catalog.GraphCatalog.Register | crates/fusiongraph-datafusion/src/udtf.rs:95-101 | Replaces the entry of that name only, without transpose or dictionary, and returns the graph it replaced |
| Catalog.GraphCatalog.RegisterWithReverse | crates/fusiongraph-datafusion/src/udtf.rs:110-122 | Replaces the entry of that name only, with the given transpose |
| Catalog.GraphCatalog.RegisterWithDictionary | crates/fusiongraph-datafusion/src/udtf.rs:131-147 | Replaces the entry of that name only, with the given dictionary |
| Catalog.GraphCatalog.Deregister | crates/fusiongraph-datafusion/src/udtf.rs:266-272 | Removes that name only and returns its graph |
| Traversal.GraphTraversalExec.CollectBfsRows | crates/fusiongraph-datafusion/src/exec/graph_traversal.rs:129-173 | An outgoing request is answered over the graph and an incoming one over the attached reverse graph; uncapped, the result is exact if and only if the plain kernel answers it or the pair searches exactly; capped, it is the capped admission order |
| Traversal.GraphTraversalExec.ValidateSpec | crates/fusiongraph-datafusion/src/exec/graph_traversal.rs:98-125 | Accepts exactly the breadth-first requests that are outgoing, or incoming with a reverse graph attached |
| Traversal.GraphTraversalExec.Execute | crates/fusiongraph-datafusion/src/exec/graph_traversal.rs:222-237 | Answers exactly those requests. Uncapped outgoing rows answer the request over the graph itself whenever no reverse graph is attached or the attached one is its transpose or shows its neighbours reversed, whatever the deltas, and in general if and only if the pair searches exactly, as any pair with differing counts does; an uncapped incoming request from one contained x over reversed neighbours lists exactly the nodes with a path to x within `max_depth`, with shortest lengths; capped rows are the first `max_nodes` of the uncapped plain search over the graph for outgoing, over the reverse graph for incoming requests |
| Traversal.ExactAnswersIff | crates/fusiongraph-datafusion/src/exec/graph_traversal.rs:171-173 | The returned columns answer the request if and only if the result behind them is exact |
| Traversal.CappedRows | crates/fusiongraph-datafusion/src/exec/graph_traversal.rs:134-134 | Capped columns are the first min(cap, n) rows of the uncapped plain search |
| Traversal.IncomingAnswers | crates/fusiongraph-datafusion/src/exec/graph_traversal.rs:136-143 | An exact answer over reversed neighbours lists exactly the nodes with a path to x of at most `max_depth` edges, each with its shortest length |
| Traversal.IncomingRightIff | crates/fusiongraph-datafusion/src/udtf.rs:171-173 | Exact answers over a reverse graph list who reaches x, with shortest lengths, for every x below its node count and every depth, if and only if it holds the reversed edges into those nodes, self-loops aside |
| Traversal.StaleTransposeMisses | crates/fusiongraph-datafusion/src/udtf.rs:171-173 | Whoever asks a transpose built before edge (0, 1) was written who reaches 1 in one hop is not told of 0, which does |
| Dictionary.NodeDictionary.GetOrInsert | crates/fusiongraph-datafusion/src/dictionary.rs:37-45 | A known key keeps its id, a new one gets the next id, and both lookups then find it; no other key changes its id |
| Dictionary.NodeDictionary.Inverse | crates/fusiongraph-datafusion/src/dictionary.rs:49-66 | `id_of` and `key_of` are inverse bijections between the keys and 0..len |
| Loader.InternBatch | crates/fusiongraph-datafusion/src/loader.rs:322-335 | The row loop skips rows with a null key, interns both keys, and appends one edge and one weight (1 for a null) per remaining row |
| Loader.RowsStep | crates/fusiongraph-datafusion/src/loader.rs:322-335 | One more row adds its two keys as a pair, with its weight or 1, exactly when neither key is null |
| Loader.FlattenRowsSnoc | crates/fusiongraph-datafusion/src/loader.rs:322-335 | The batches are read one after another, each in full |
| Loader.JoinedAreCounted | crates/fusiongraph-datafusion/src/loader.rs:322-335 | There is one pair for every row without nulls, over all batches |
| Loader.HoldsKeyIff | crates/fusiongraph-datafusion/src/loader.rs:322-335 | A key occurs in a pair exactly when some row without nulls in some batch holds it |
| Loader.FirstOrderGrows | crates/fusiongraph-datafusion/src/loader.rs:322-335 | Interning one more pair keeps the ids in the order of first appearance, the first key of a pair before the second |
| Loader.Intern | crates/fusiongraph-datafusion/src/loader.rs:322-335 | Over all batches, edge i joins the ids of the keys of the i-th pair without nulls, every key came from some pair, and ids follow the order of first appearance |
| Loader.SpanIsKeyCount | crates/fusiongraph-datafusion/src/loader.rs:338-346 | The built node count is the dictionary length |
| Loader.PickById | crates/fusiongraph-datafusion/src/loader.rs:322-346 | Selecting by id and selecting by key give the same edges in the same order |
| Loader.EncodedIsKeyGraph | crates/fusiongraph-datafusion/src/loader.rs:322-346 | The built graph is the key graph under its ids: node id n lists in order, with multiplicity, the targets of the pairs leaving key n, each weight beside its own edge |
| Loader.KeyOccurs | crates/fusiongraph-datafusion/src/loader.rs:322-335 | A key has an id exactly when it occurs in a pair without nulls |
| Loader.EncodedFits | crates/fusiongraph-datafusion/src/loader.rs:338-344 | The encoded edges fit exactly when there are at most u32::MAX pairs and 2^32 distinct keys |
| Loader.BuildWithDictionary | crates/fusiongraph-datafusion/src/loader.rs:322-349 | Succeeds exactly then, with a graph isomorphic to the key graph: one edge per row without nulls in any batch, an id for exactly the keys of those rows, in order of first appearance, and exactly the ids below the node count have a key |
| Circuit.CircuitBreaker.Check | crates/fusiongraph-core/src/circuit_breaker.rs:114-148 | Refuses exactly when open with the clock before the recorded failure plus the timeout cut to u64 milliseconds, if that is not zero; an admitted check of an open breaker enters half-open with no successes counted; nothing else changes |
| Circuit.CircuitBreaker.RecordSuccess | crates/fusiongraph-core/src/circuit_breaker.rs:151-168 | Clears the failures when closed, counts toward closing when half-open, does nothing when open; the compared counter never wraps |
| Circuit.CircuitBreaker.RecordFailure | crates/fusiongraph-core/src/circuit_breaker.rs:171-191 | Counts toward opening when closed, reopens with no successes counted when half-open, both at the given time; does nothing when open; the compared counter never wraps |
| Circuit.CircuitBreaker.Reset | crates/fusiongraph-core/src/circuit_breaker.rs:194-199 | Closes with both counters at zero and keeps the failure time |
| Circuit.RunCounts | crates/fusiongraph-core/src/circuit_breaker.rs:114-199 | Over every run the compared counters stay below their thresholds |
| Circuit.ClosedCountsFailures | crates/fusiongraph-core/src/circuit_breaker.rs:151-178 | A closed breaker counts exactly the failures since the last success or reset |
| Circuit.OpensIff | crates/fusiongraph-core/src/circuit_breaker.rs:171-179 | A closed breaker opens on a failure that is the threshold-th since the last success or reset, and on nothing else |
| Circuit.OpenSince | crates/fusiongraph-core/src/circuit_breaker.rs:171-191 | An open breaker measures from the failure that opened it; later failures do not push the deadline back |
| Circuit.AdmittedIff | crates/fusiongraph-core/src/circuit_breaker.rs:114-148 | An open breaker admits a check if and only if the clock has reached the opening failure plus the timeout cut to u64 milliseconds, or that timeout is zero and the clock has gone back |
| Circuit.RefusedIff | crates/fusiongraph-core/src/circuit_breaker.rs:114-148 | Over every run a check is refused if and only if the breaker has been open since some failure, the timeout in u64 milliseconds is not zero, and the clock is before that failure plus the timeout |
| Circuit.AdmittedEarlyIff | crates/fusiongraph-core/src/circuit_breaker.rs:76-78 | A check is admitted before the configured timeout is over if and only if the timeout exceeds u64 milliseconds and its remainder is over, or the remainder is zero and the clock has gone back |
| Circuit.LongTimeoutAdmitsEarly | crates/fusiongraph-core/src/circuit_breaker.rs:76-78 | With a timeout of 18446744073709552000 milliseconds a breaker opened at 5 admits a check at 389 |
| Circuit.StaysOpenIff | crates/fusiongraph-core/src/circuit_breaker.rs:114-199 | Over every continuation an open breaker stays open, unchanged and rejecting every check, if and only if no reset and no check at or past the deadline comes |
| Circuit.HalfOpenSince | crates/fusiongraph-core/src/circuit_breaker.rs:114-191 | A half-open breaker was entered by an admitted check, has seen no failure or reset since, and counts exactly the successes since |
| Circuit.ClosesIff | crates/fusiongraph-core/src/circuit_breaker.rs:151-191 | A half-open breaker closes without a reset exactly on the success that brings the successes since entry to the threshold, and reopens on any failure |
| Circuit.SinceExists | crates/fusiongraph-core/src/circuit_breaker.rs:114-199 | Every breaker that is not closed has been in its state since some call |
| Circuit.SplitCheckIff | crates/fusiongraph-core/src/circuit_breaker.rs:126-136 | Successes that other threads record between the state exchange and the clearing of the count leave the breaker as if recorded after the check if and only if there are none or enough to close it alone; fewer close it early exactly when the count left over from before makes up the difference, and are erased otherwise |
| Circuit.SplitCheckErasesASuccess | crates/fusiongraph-core/src/circuit_breaker.rs:126-136 | Two successes close: one recorded inside the split is gone |
| Circuit.SplitCheckClosesEarly | crates/fusiongraph-core/src/circuit_breaker.rs:126-136 | Two successes close: after one full recovery, the breaker opens again and a single success inside the split closes it |

## Left out

- Catalog.GraphCatalog.CompactIfNeeded: writes that land inside one drain are not modelled. Each `insert` and `delete` is one atomic step, although the code makes it two map operations. Of two compactors on one graph only the schedule of `Compaction.SecondCompactorKeepsIff` is modelled.
- Circuit.CircuitBreaker.Check: one call at a time; of several threads inside one call only successes recorded between the state exchange and the clearing of the success count are modelled (`Circuit.SplitCheckIff`).
- Circuit.SplitCheckIff: a success count left over at u64::MAX, from which the next increment wraps, is excluded.
- Graph.CsrGraph.Transpose: no write lands between its two snapshots.
- Loader.BuildWithDictionary: starts from the scanned batches; the scan, the temporal filter and the casts are left out.
- Ids are unbounded naturals: of their u64 width only the u32 limit of the base layer matters to the model. Depths and depth limits are unbounded too.
- Bfs.BfsBounded: requires that base ids and inserted targets together number at most `usize::MAX`, which the memory holding them implies.
- Weights are opaque reals: the narrowing of delta weights from f64 to f32, rounding and NaN.
- The order in which the delta map iterates is arbitrary, chosen anew at every mutation.
- The `edges_examined` counters, which only feed diagnostics.
- The compaction policy's ratio: an arbitrary boolean decides.
- Which SIMD backend is detected, and the intrinsics beyond the per-lane functions used; the reuse of output buffers.
- Memory figures, statistics, checksums, error messages, and the sorted list of catalog names.
- `AtomicBitset`, which no search uses.
- DataFusion, Arrow, Iceberg and Parquet plumbing, SQL argument parsing, FFI, ontology parsing, generators and benchmarks: code over libraries that are not part of this model.
