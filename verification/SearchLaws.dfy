/** What the searches promise across graphs, kernels and caps. */
module SearchLaws {
  import opened Admission
  import opened BaseLaws
  import opened Bfs
  import opened Builder
  import opened Common
  import opened Compaction
  import opened Csr
  import opened Delta
  import opened DoBfs
  import opened EdgeLists
  import opened Graph
  import opened Hops
  import opened Hybrid
  import opened Merge
  import opened Simd
  import opened Words

  /** A capped search returns the first min(cap, n) nodes and depths of the uncapped one, so each depth
      it reports is still the shortest distance. */
  lemma CappedIsPrefix(g: CsrGraph, starts: seq<nat>, maxDepth: nat, cap: nat, full: BfsResult, capped: BfsResult)
    requires g.Valid() && FitsMemory(g)
    requires Searched(g, starts, maxDepth, USIZE_MAX, full) && Searched(g, starts, maxDepth, cap, capped)
    ensures Entries(capped) == Trunc(Entries(full), cap)
    ensures forall i :: 0 <= i < |capped.visited| ==>
              AtDist(g.Adjacency(), Contained(g.base, starts), capped.visited[i], capped.depths[i])
  {
    hide CsrGraph.Valid, CsrGraph.Adjacency, Queue, Exact, Regular;
    ghost var adj, roots := g.Adjacency(), Contained(g.base, starts);
    UniverseSize(g.base, g.delta.View());
    QueueFits(g, starts, maxDepth, |full.visited|);
    CapIsPrefix(adj, roots, maxDepth, |full.visited|, |capped.visited|, cap);
    SearchedUncapped(g, starts, maxDepth, full);
    ExactMeans(adj, roots, maxDepth, full);
    forall i | 0 <= i < |capped.visited| ensures AtDist(adj, roots, capped.visited[i], capped.depths[i]) {
      assert Entries(capped)[i] == Entries(full)[i];
    }
  }

  /** On a delta-free graph both kernels give every node the same depth, the same nodes in each level and the
      same deepest level, whatever directions the hybrid takes over the graph's own transpose. */
  method SearchBothWays(g: CsrGraph, start: nat, maxDepth: nat, backend: Backend)
    returns (hybrid: BfsResult, plain: BfsResult)
    requires g.Valid() && g.delta.IsEmpty() && FitsMemory(g)
    ensures |hybrid.visited| == |hybrid.depths| && |plain.visited| == |plain.depths|
    ensures forall v: nat :: DepthOf(hybrid, v) == DepthOf(plain, v)
    ensures |hybrid.levels| == |plain.levels| && hybrid.maxDepthReached == plain.maxDepthReached
    ensures forall d :: 0 <= d < |hybrid.levels| ==> multiset(hybrid.levels[d]) == multiset(plain.levels[d])
  {
    hide Base.Tiled, Base.NeighborSlice, CsrGraph.Adjacency, DirectionsMatch, Exact, Searched, TransposeOf, IndexOf,
         LiveEdges, Fits, Contained;
    var reverse, _ := g.Transpose();
    TransposeMatches(g.base, reverse.value.base, start, maxDepth);
    TransposeSameCounts(g.base, reverse.value.base);
    var searched := BfsDirectionOptimized(g, reverse.value, start, maxDepth, backend);
    hybrid := searched.value;
    plain := BfsBounded(g, [start], maxDepth, None, backend);
    ExactAgree(g.Adjacency(), g.Adjacency(), Contained(g.base, [start]), maxDepth, hybrid, plain);
  }

  lemma TransposeSameCounts(g: Base, t: Base)
    requires g.Tiled() && t.Tiled() && TransposeOf(g, t)
    ensures t.nodeCount == g.nodeCount && t.edgeCount == g.edgeCount
  {
  }

  /** Graphs whose iterators agree row for row are searched in the same order. */
  lemma {:induction false} SameRowsSameQueue(adj1: Adjacency, adj2: Adjacency, roots: seq<nat>, maxDepth: nat, k: nat)
    requires forall n: nat :: adj1(n) == adj2(n)
    ensures Queue(adj1, roots, maxDepth, k) == Queue(adj2, roots, maxDepth, k)
    decreases k
  {
    if k == 0 {
    } else {
      SameRowsSameQueue(adj1, adj2, roots, maxDepth, k - 1);
    }
  }

  /** So they give the same nodes with the same depths in the same order, under any cap. */
  lemma SameRowsSameResult(adj1: Adjacency, adj2: Adjacency, roots: seq<nat>, maxDepth: nat, cap: nat, r1: BfsResult,
                           r2: BfsResult)
    requires forall n: nat :: adj1(n) == adj2(n)
    requires |r1.visited| == |r1.depths| && |r2.visited| == |r2.depths|
    requires Entries(r1) == Trunc(Queue(adj1, roots, maxDepth, |r1.visited|), cap)
    requires Entries(r2) == Trunc(Queue(adj2, roots, maxDepth, |r2.visited|), cap)
    ensures r1.visited == r2.visited && r1.depths == r2.depths
  {
    var n1, n2 := |r1.visited|, |r2.visited|;
    SameRowsSameQueue(adj1, adj2, roots, maxDepth, n2);
    if n1 <= n2 {
      QueueGrows(adj1, roots, maxDepth, n1, n2);
      if |Queue(adj1, roots, maxDepth, n1)| < cap { QueueStable(adj1, roots, maxDepth, n1, n2); }
    } else {
      QueueGrows(adj1, roots, maxDepth, n2, n1);
      if |Queue(adj1, roots, maxDepth, n2)| < cap { QueueStable(adj1, roots, maxDepth, n2, n1); }
    }
    assert Entries(r1) == Entries(r2);
    forall i | 0 <= i < n1 ensures r1.visited[i] == r2.visited[i] && r1.depths[i] == r2.depths[i] {
      assert Entries(r1)[i] == Entries(r2)[i];
    }
  }

  /** Over the same neighbours, searches from one start agree exactly when both graphs contain it or
      neither does. */
  lemma DepthsAgreeIff(before: Adjacency, beforeBase: Base, after: Adjacency, afterBase: Base,
                       start: nat, maxDepth: nat, r1: BfsResult, r2: BfsResult)
    requires SameNeighbours(before, after)
    requires Exact(before, Contained(beforeBase, [start]), maxDepth, r1)
    requires Exact(after, Contained(afterBase, [start]), maxDepth, r2)
    ensures |r1.visited| == |r1.depths| && |r2.visited| == |r2.depths|
    ensures (forall v: nat :: DepthOf(r1, v) == DepthOf(r2, v)) <==>
            (beforeBase.Contains(start) <==> afterBase.Contains(start))
  {
    SingleStart(beforeBase, start);
    SingleStart(afterBase, start);
    if beforeBase.Contains(start) <==> afterBase.Contains(start) {
      ExactAgree(before, after, Contained(beforeBase, [start]), maxDepth, r1, r2);
    } else {
      StartDepth(before, Contained(beforeBase, [start]), start, maxDepth, r1);
      StartDepth(after, Contained(afterBase, [start]), start, maxDepth, r2);
    }
  }

  lemma StartDepth(adj: Adjacency, roots: seq<nat>, start: nat, maxDepth: nat, r: BfsResult)
    requires Exact(adj, roots, maxDepth, r) && (roots == [] || roots == [start])
    ensures |r.visited| == |r.depths|
    ensures DepthOf(r, start) == 0 <==> roots == [start]
  {
    hide Exact, Regular;
    ExactMeans(adj, roots, maxDepth, r);
    var zero: nat := 0;
    assert DepthOf(r, start) == zero <==> zero <= maxDepth && AtDist(adj, roots, start, zero);
    assert ReachIn(adj, roots, start, 0) <==> start in roots;
  }

  /** Some visible edge has an end at or above the node. */
  ghost predicate Spanned(edges: iset<Edge>, node: nat) {
    exists e :: e in edges && (e.src >= node || e.dst >= node)
  }

  /** A compacted graph contains a node exactly when some edge visible before has an end at or above it. */
  lemma CompactedContainsIff(base: Base, o: Overlay, order: seq<Edge>, entries: seq<(Edge, EdgeData)>, after: Base,
                             node: nat)
    requires base.Valid() && o.Valid() && Enumerates(order, o.ins.Keys) && InOrder(entries, order, o.ins)
    requires after.nodeCount == Span(LiveEdges(base.Rows(), base.nodeCount, o.del, entries))
    ensures after.Contains(node) <==> Spanned(o.Visible(EdgeSet(base)), node)
  {
    hide Base.Tiled, Base.NeighborSlice, LiveEdges;
    var live := LiveEdges(base.Rows(), base.nodeCount, o.del, entries);
    assert Keys(entries) == order;
    forall e: Edge ensures e in live <==> e in o.Visible(EdgeSet(base)) {
      LiveMember(base, o.del, entries, e);
      assert e in order <==> e in o.ins.Keys;
    }
    if after.Contains(node) {
      var i :| 0 <= i < |live| && (live[i].src == Span(live) - 1 || live[i].dst == Span(live) - 1);
      assert live[i] in live;
    }
    if Spanned(o.Visible(EdgeSet(base)), node) {
      var e :| e in o.Visible(EdgeSet(base)) && (e.src >= node || e.dst >= node);
      var i :| 0 <= i < |live| && live[i] == e;
    }
  }

  /** Searches one start before and after a compaction without writers between its drains. When it succeeds,
      every node keeps its depth if and only if the graph contained the start exactly when one of its visible
      edges has an end at or above it. */
  method SearchAcrossCompaction(g: CsrGraph, start: nat, maxDepth: nat, backend: Backend)
    returns (before: BfsResult, compacted: Result<CsrGraph>, after: BfsResult)
    requires g.Valid() && FitsMemory(g)
    modifies g.delta
    ensures compacted.Success? ==>
              && |before.visited| == |before.depths| && |after.visited| == |after.depths|
              && ((forall v: nat :: DepthOf(before, v) == DepthOf(after, v)) <==>
                  (g.Contains(start) <==> Spanned(old(g.Visible()), start)))
  {
    hide Base.Tiled, Base.NeighborSlice, Exact, Searched, LiveEdges, LiveWeightList, Fits, Spanned, Contained,
         MergedRows;
    before := BfsBounded(g, [start], maxDepth, None, backend);
    after := EMPTY_RESULT;
    ghost var rows, o, order := g.Adjacency(), g.delta.View(), g.delta.insertionOrder;
    ghost var entries;
    compacted, entries := g.Compact([]);
    if compacted.Failure? { return; }
    after := BfsBounded(compacted.value, [start], maxDepth, None, backend);
    CompactedContainsIff(g.base, o, order, entries, compacted.value.base, start);
    EnumeratesNothing(compacted.value.delta.insertionOrder);
    CleanAdjacency(compacted.value);
    assert SameNeighbours(rows, compacted.value.Adjacency());
    DepthsAgreeIff(rows, g.base, compacted.value.Adjacency(), compacted.value.base, start, maxDepth, before, after);
  }

  /** A start can be lost: deleting a graph's only edge and compacting leaves no node at all. */
  lemma CompactionCanDropTheStart(after: Base)
    requires IndexOf(after, LiveEdges(ONE_EDGE.Rows(), ONE_EDGE.nodeCount, {Edge(0, 1)}, []), None)
    ensures ONE_EDGE.Valid() && ONE_EDGE.Contains(0) && !after.Contains(0)
  {
    OneEdgeValid();
    OneEdgeRows();
    hide Base.Tiled, Base.NeighborSlice, Base.Valid;
    var rows := ONE_EDGE.Rows();
    var del := {Edge(0, 1)};
    assert rows(0) == [1] && rows(1) == [];
    assert Keep<nat>(0, [1], [1], del) == [] by { assert [1][..0] == []; }
    assert KeptEdges(rows, del, 1) == KeptEdges(rows, del, 0) + RowEdges(0, []) == [];
    assert KeptEdges(rows, del, 2) == [] + RowEdges(1, []) == [];
  }
}
