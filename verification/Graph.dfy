/** `CsrGraph`: an immutable base layer under a mutable delta, the iterator that merges them, and the
    two operations that rebuild a base layer from what the iterator shows: compaction and transpose. */
module Graph {
  import opened BaseLaws
  import opened Builder
  import opened Common
  import opened Csr
  import opened Delta
  import opened EdgeLists
  import opened Merge

  ghost function EdgeSet(base: Base): iset<Edge>
    requires base.Tiled()
  {
    iset e: Edge | e in base.Edges()
  }

  // ----- listing the base layer

  lemma NothingListed(from: nat, row: seq<nat>, weightRow: seq<Weight>, del: set<Edge>, weighted: bool, flip: bool)
    requires weighted ==> |weightRow| == |row|
    ensures RowListed(from, row, weightRow, del, weighted, flip, 0, [], [])
  {
  }

  lemma RowAt(shard: CsrShard, local: nat)
    requires shard.Valid()
    ensures var (start, end) := shard.NeighborRange(local);
            && |shard.NeighborSlice(local)| == end - start
            && (shard.HasWeights() ==> |shard.WeightSlice(local)| == end - start)
            && forall idx :: start <= idx < end ==>
                 && shard.ColIndex(idx) == Some(shard.NeighborSlice(local)[idx - start])
                 && (shard.HasWeights() ==> shard.WeightAt(idx) == Some(shard.WeightSlice(local)[idx - start]))
  {
  }

  /** The innermost loop of both rebuilding operations: one node's surviving edges. */
  method ListRow(shard: CsrShard, local: nat, from: nat, del: set<Edge>, weighted: bool, flip: bool)
    returns (edges: seq<Edge>, weights: seq<Weight>)
    requires shard.Valid() && weighted == shard.HasWeights()
    ensures weighted ==> |shard.WeightSlice(local)| == |shard.NeighborSlice(local)|
    ensures RowListed(from, shard.NeighborSlice(local), shard.WeightSlice(local), del, weighted, flip,
                      |shard.NeighborSlice(local)|, edges, weights)
  {
    hide RowListed, CsrShard.NeighborRange, CsrShard.HasWeights, CsrShard.Valid, CsrShard.NeighborSlice,
         CsrShard.WeightSlice, CsrShard.ColIndex, CsrShard.WeightAt;
    RowAt(shard, local);
    NothingListed(from, shard.NeighborSlice(local), shard.WeightSlice(local), del, weighted, flip);
    edges, weights := [], [];
    var (start, end) := shard.NeighborRange(local);
    ghost var row: seq<nat>, weightRow: seq<Weight> := shard.NeighborSlice(local), shard.WeightSlice(local);
    for idx := start to end
      invariant |row| == end - start && (weighted ==> |weightRow| == |row|)
      invariant RowListed(from, row, weightRow, del, weighted, flip, idx - start, edges, weights)
    {
      var col := shard.ColIndex(idx);
      if col.None? { continue; }
      var to := col.value;
      RowListedStep(from, row, weightRow, del, weighted, flip, idx - start, edges, weights);
      if Edge(from, to) in del { continue; }
      edges := edges + [if flip then Edge(to, from) else Edge(from, to)];
      if weighted {
        var w := shard.WeightAt(idx);
        weights := weights + [if w.Some? then w.value else 1.0];
      } else {
        assert weights + [] == weights;
      }
    }
  }

  /** The surviving edges of nodes 0..n. */
  ghost predicate Listed(adj: nat -> seq<nat>, vals: nat -> seq<Weight>, del: set<Edge>, weighted: bool, flip: bool,
                         n: nat, edges: seq<Edge>, weights: seq<Weight>)
    requires weighted ==> forall i :: 0 <= i < n ==> |vals(i)| == |adj(i)|
  {
    && edges == Flip(KeptEdges(adj, del, n), flip)
    && weights == if weighted then KeptValues(adj, vals, del, n) else []
  }

  lemma ListedNone(adj: nat -> seq<nat>, vals: nat -> seq<Weight>, del: set<Edge>, weighted: bool, flip: bool)
    ensures Listed(adj, vals, del, weighted, flip, 0, [], [])
  {
  }

  lemma ListedStep(adj: nat -> seq<nat>, vals: nat -> seq<Weight>, del: set<Edge>, weighted: bool, flip: bool,
                   n: nat, edges: seq<Edge>, weights: seq<Weight>, more: seq<Edge>, moreWeights: seq<Weight>)
    requires weighted ==> forall i :: 0 <= i < n + 1 ==> |vals(i)| == |adj(i)|
    requires Listed(adj, vals, del, weighted, flip, n, edges, weights)
    requires RowListed(n, adj(n), vals(n), del, weighted, flip, |adj(n)|, more, moreWeights)
    ensures Listed(adj, vals, del, weighted, flip, n + 1, edges + more, weights + moreWeights)
  {
    var row: seq<nat> := adj(n);
    assert row[..|row|] == row;
    if weighted { assert vals(n)[..|row|] == vals(n); }
    FlipAppend(KeptEdges(adj, del, n), RowEdges(n, Keep<nat>(n, row, row, del)), flip);
  }

  /** Each weight row is as long as its neighbour row. */
  ghost predicate WeightsAligned(base: Base)
    requires base.Tiled()
  {
    forall i :: 0 <= i < base.nodeCount ==> |base.WeightRows()(i)| == |base.Rows()(i)|
  }

  lemma WeightsAlign(base: Base)
    requires base.Valid()
    ensures base.HasWeights() ==> WeightsAligned(base)
    ensures forall i :: 0 <= i < |base.shards| ==> base.shards[i].HasWeights() == base.HasWeights()
  {
    if base.HasWeights() {
      forall i | 0 <= i < base.nodeCount ensures |base.WeightRows()(i)| == |base.Rows()(i)| {
        base.WeightRowLength(i);
      }
    }
  }

  /** Shard offset `local` of shard i is node lo + local, with that node's row. */
  lemma OffsetRow(base: Base, i: nat, local: nat)
    requires base.Tiled() && i < |base.shards| && local < base.shards[i].NodeCount()
    ensures base.shards[i].lo + local < base.shards[i].hi <= base.nodeCount
    ensures base.ShardToGlobal(base.shards[i].id, local) == Some(base.shards[i].lo + local)
    ensures base.Rows()(base.shards[i].lo + local) == base.shards[i].NeighborSlice(local)
    ensures base.WeightRows()(base.shards[i].lo + local) == base.shards[i].WeightSlice(local)
  {
    hide Base.GlobalToShard, Base.NeighborSlice, Base.WeightSlice, CsrShard.NeighborSlice, CsrShard.WeightSlice;
    base.OffsetRoundTrip(i, local);
    base.Located(base.shards[i].lo + local, i);
    if i < |base.shards| - 1 { assert base.shards[i].hi <= base.shards[|base.shards| - 1].lo; }
  }

  /** Shard i of the base layer holds the rows of the nodes it covers. */
  ghost predicate HoldsRows(base: Base, i: nat, rows: nat -> seq<nat>, vals: nat -> seq<Weight>)
    requires i < |base.shards|
  {
    var shard := base.shards[i];
    && shard.Valid()
    && forall local :: 0 <= local < shard.NodeCount() ==>
         && base.ShardToGlobal(shard.id, local) == Some(shard.lo + local)
         && rows(shard.lo + local) == shard.NeighborSlice(local)
         && vals(shard.lo + local) == shard.WeightSlice(local)
  }

  /** The middle loop: the surviving edges of one shard, appended to those of the nodes before it. */
  method ListShard(base: Base, i: nat, ghost rows: nat -> seq<nat>, ghost vals: nat -> seq<Weight>,
                   del: set<Edge>, weighted: bool, flip: bool, edges0: seq<Edge>, weights0: seq<Weight>)
    returns (edges: seq<Edge>, weights: seq<Weight>)
    requires i < |base.shards| && HoldsRows(base, i, rows, vals)
    requires weighted ==> forall n :: 0 <= n < base.shards[i].hi ==> |vals(n)| == |rows(n)|
    requires base.shards[i].HasWeights() == weighted
    requires Listed(rows, vals, del, weighted, flip, base.shards[i].lo, edges0, weights0)
    ensures Listed(rows, vals, del, weighted, flip, base.shards[i].hi, edges, weights)
  {
    hide Listed, RowListed;
    edges, weights := edges0, weights0;
    var shard := base.shards[i];
    for local := 0 to shard.NodeCount()
      invariant Listed(rows, vals, del, weighted, flip, shard.lo + local, edges, weights)
    {
      var global := base.ShardToGlobal(shard.id, local);
      if global.None? { continue; }
      var more, moreWeights := ListRow(shard, local, global.value, del, weighted, flip);
      ListedStep(rows, vals, del, weighted, flip, global.value, edges, weights, more, moreWeights);
      edges, weights := edges + more, weights + moreWeights;
    }
  }

  lemma ShardHoldsRows(base: Base, i: nat)
    requires base.Tiled() && i < |base.shards|
    ensures HoldsRows(base, i, base.Rows(), base.WeightRows()) && base.shards[i].hi <= base.nodeCount
  {
    OffsetRow(base, i, 0);
    forall local | 0 <= local < base.shards[i].NodeCount()
      ensures base.ShardToGlobal(base.shards[i].id, local) == Some(base.shards[i].lo + local)
      ensures base.Rows()(base.shards[i].lo + local) == base.shards[i].NeighborSlice(local)
      ensures base.WeightRows()(base.shards[i].lo + local) == base.shards[i].WeightSlice(local)
    {
      OffsetRow(base, i, local);
    }
  }

  /** Lists the base edges that are not tombstoned, as both rebuilding operations do; `flip` swaps the ends. */
  method ListBase(base: Base, del: set<Edge>, weighted: bool, flip: bool)
    returns (edges: seq<Edge>, weights: seq<Weight>)
    requires base.Tiled()
    requires weighted ==> WeightsAligned(base)
    requires forall i :: 0 <= i < |base.shards| ==> base.shards[i].HasWeights() == weighted
    ensures Listed(base.Rows(), base.WeightRows(), del, weighted, flip, base.nodeCount, edges, weights)
  {
    hide Listed, HoldsRows;
    ListedNone(base.Rows(), base.WeightRows(), del, weighted, flip);
    edges, weights := [], [];
    ghost var done := 0;
    for i := 0 to |base.shards|
      invariant done == if i < |base.shards| then base.shards[i].lo else base.nodeCount
      invariant done <= base.nodeCount
      invariant Listed(base.Rows(), base.WeightRows(), del, weighted, flip, done, edges, weights)
    {
      ShardHoldsRows(base, i);
      edges, weights := ListShard(base, i, base.Rows(), base.WeightRows(), del, weighted, flip, edges, weights);
      done := base.shards[i].hi;
    }
  }

  /** The second half of both rebuilding operations: insertions the base does not already store. */
  method ListInsertions(base: Base, entries: seq<(Edge, EdgeData)>, weighted: bool, flip: bool)
    returns (edges: seq<Edge>, weights: seq<Weight>)
    requires base.Valid()
    ensures edges == Flip(Additions(base.Rows(), entries), flip)
    ensures weights == if weighted then AdditionWeights(base.Rows(), entries) else []
  {
    hide Base.Tiled, Base.NeighborSlice, Base.HasBaseEdge, StoredWeight;
    edges, weights := [], [];
    ghost var rows := base.Rows();
    for i := 0 to |entries|
      invariant edges == Flip(Additions(rows, entries[..i]), flip)
      invariant weights == if weighted then AdditionWeights(rows, entries[..i]) else []
    {
      var e, data := entries[i].0, entries[i].1;
      assert entries[..i + 1][..i] == entries[..i];
      base.RowMember(e.src, e.dst);
      if base.HasBaseEdge(e.src, e.dst) { continue; }
      FlipAppend(Additions(rows, entries[..i]), [e], flip);
      assert Flip([e], flip) == [if flip then Reverse(e) else e];
      edges := edges + [if flip then Reverse(e) else e];
      if weighted { weights := weights + [StoredWeight(data)]; }
    }
    assert entries[..|entries|] == entries;
  }

  function ZipWeights(es: seq<Edge>, ws: seq<Weight>): (ps: seq<(Edge, Weight)>)
    requires |es| == |ws|
    ensures |ps| == |es| && Firsts(ps) == es && Seconds(ps) == ws
  {
    Zip(es, ws)
  }

  /** A fresh default builder, as both rebuilding operations use it. */
  method Rebuild(edges: seq<Edge>, weights: seq<Weight>, weighted: bool) returns (r: Result<Base>)
    requires weighted ==> |weights| == |edges|
    ensures r.Success? <==> Fits(edges)
    ensures r.Success? ==> r.value.Valid() && IndexOf(r.value, edges, if weighted then Some(weights) else None)
  {
    hide IndexOf, Base.Valid, Base.Tiled, RunsOutOfShards, Bounded;
    var builder := new CsrBuilder();
    if weighted {
      builder.WithWeightedEdges(ZipWeights(edges, weights));
    } else {
      builder.WithEdges(edges);
    }
    assert builder.edges == edges && (weighted ==> builder.weights == weights);
    r := builder.Build();
    if edges == [] { EmptyIsIndex(weighted); }
  }

  lemma EmptyIsIndex(weighted: bool)
    ensures EMPTY_BASE.Valid() && IndexOf(EMPTY_BASE, [], if weighted then Some([]) else None)
  {
    EmptyBaseValid();
  }

  /** `compact` after its drains: the live edges, with their weights if the base has any, in a new graph. */
  method RebuildLive(base: Base, deletions: set<Edge>, drained: seq<(Edge, EdgeData)>) returns (r: Result<CsrGraph>)
    requires base.Valid()
    ensures r.Success? <==> Fits(LiveEdges(base.Rows(), base.nodeCount, deletions, drained))
    ensures r.Success? ==>
              && fresh(r.value) && fresh(r.value.delta) && r.value.Valid()
              && r.value.delta.View() == EMPTY_OVERLAY && r.value.delta.insertionOrder == []
              && IndexOf(r.value.base, LiveEdges(base.Rows(), base.nodeCount, deletions, drained),
                         LiveWeightList(base, deletions, drained))
    ensures r.Success? ==> forall n: nat ::
              r.value.base.NeighborSlice(n) == Targets(LiveEdges(base.Rows(), base.nodeCount, deletions, drained), n)
  {
    hide Base.Tiled, Base.NeighborSlice, KeptEdges, Additions;
    var weighted := base.HasWeights();
    WeightsAlign(base);
    var edges, weights := ListBase(base, deletions, weighted, false);
    var more, moreWeights := ListInsertions(base, drained, weighted, false);
    if weighted { KeptLength(base.Rows(), base.WeightRows(), deletions, base.nodeCount); }
    var rebuilt := Rebuild(edges + more, weights + moreWeights, weighted);
    if rebuilt.Failure? { return Failure(rebuilt.error); }
    var compacted := new CsrGraph(rebuilt.value);
    return Success(compacted);
  }

  /** `transpose` after its snapshots: the live edges reversed, without weights, in a new graph. */
  method RebuildReversed(base: Base, deletions: set<Edge>, snapshot: seq<(Edge, EdgeData)>)
    returns (r: Result<CsrGraph>)
    requires base.Valid()
    ensures r.Success? <==> Fits(ReverseAll(LiveEdges(base.Rows(), base.nodeCount, deletions, snapshot)))
    ensures r.Success? ==>
              && fresh(r.value) && fresh(r.value.delta) && r.value.Valid()
              && r.value.delta.View() == EMPTY_OVERLAY && r.value.delta.insertionOrder == []
              && IndexOf(r.value.base, ReverseAll(LiveEdges(base.Rows(), base.nodeCount, deletions, snapshot)), None)
  {
    hide IndexOf, Base.Tiled, Base.NeighborSlice, KeptEdges, Additions;
    WeightsAlign(base);
    var edges, _ := ListBase(base, deletions, base.HasWeights(), true);
    var more, _ := ListInsertions(base, snapshot, false, true);
    FlipAppend(KeptEdges(base.Rows(), deletions, base.nodeCount), Additions(base.Rows(), snapshot), true);
    var rebuilt := Rebuild(edges + more, [], false);
    if rebuilt.Failure? { return Failure(rebuilt.error); }
    var reversed := new CsrGraph(rebuilt.value);
    return Success(reversed);
  }

  // ----- the graph

  class CsrGraph {
    const base: Base
    const delta: DeltaLayer

    ghost predicate Valid()
      reads delta
    {
      base.Valid() && delta.Valid()
    }

    ghost function Adjacency(): nat -> seq<nat>
      requires Valid()
      reads delta
    {
      MergedRows(base.Rows(), delta.deletions, delta.insertionOrder)
    }

    ghost function Visible(): iset<Edge>
      requires Valid()
      reads delta
    {
      delta.View().Visible(EdgeSet(base))
    }

    constructor (base: Base)
      requires base.Valid()
      ensures Valid() && this.base == base && fresh(delta)
      ensures delta.View() == EMPTY_OVERLAY && delta.insertionOrder == []
    {
      this.base := base;
      delta := new DeltaLayer();
    }

    predicate Contains(node: nat) { base.Contains(node) }

    /** The iterator shows exactly the visible edges. */
    lemma VisibleIsMerged(from: nat, to: nat)
      requires Valid()
      ensures to in Adjacency()(from) <==> Edge(from, to) in Visible()
    {
      MergedMember(from, base.NeighborSlice(from), delta.View(), delta.insertionOrder, to);
      base.RowMember(from, to);
    }

    /** `has_edge`: the delta first, then the merged neighbours. */
    method HasEdge(from: nat, to: nat) returns (r: bool)
      requires Valid()
      ensures r <==> Edge(from, to) in Visible()
    {
      VisibleIsMerged(from, to);
      if delta.IsDeleted(from, to) { return false; }
      if delta.HasInsertion(from, to) { return true; }
      r := AnyNeighbor(from, to);
    }

    method AnyNeighbor(from: nat, to: nat) returns (r: bool)
      requires Valid()
      ensures r <==> to in Adjacency()(from)
    {
      hide *;
      var iter := new NeighborIter(this, from);
      ghost var passed: seq<nat> := [];
      while true
        invariant iter.Valid() && fresh(iter)
        invariant passed + iter.Rest() == Adjacency()(from) && to !in passed
        decreases |iter.Rest()|
      {
        var n := iter.Next();
        if n.None? { return false; }
        if n.value == to { return true; }
        passed := passed + [n.value];
      }
    }

    /** `compact`, with `between` the writes other threads complete between its two drains. It leaves
        in the delta only what those writes tombstoned, and builds from the live edges. */
    method Compact(between: seq<Write>) returns (r: Result<CsrGraph>, ghost entries: seq<(Edge, EdgeData)>)
      requires Valid()
      modifies delta
      ensures Valid()
      ensures var later := Overlay(old(delta.insertions), {}).ApplyAll(between);
              && delta.View() == Overlay(map[], later.del)
              && (exists order :: Enumerates(order, later.ins.Keys) && InOrder(entries, order, later.ins))
      ensures between == [] ==> InOrder(entries, old(delta.insertionOrder), old(delta.insertions))
      ensures var live := LiveEdges(base.Rows(), base.nodeCount, old(delta.deletions), entries);
              && (r.Success? <==> Fits(live))
              && (r.Success? ==>
                    && fresh(r.value) && fresh(r.value.delta) && r.value.Valid()
                    && r.value.delta.View() == EMPTY_OVERLAY && r.value.delta.insertionOrder == []
                    && IndexOf(r.value.base, live, LiveWeightList(base, old(delta.deletions), entries)))
      ensures between == [] && r.Success? ==>
                forall n: nat :: r.value.base.NeighborSlice(n) == old(Adjacency())(n)
    {
      hide IndexOf, Base.Tiled, Base.NeighborSlice, LiveEdges, LiveWeightList, MergedRows, Fits;
      var dels := delta.DrainDeletions();
      var deletions := set e | e in dels;
      assert deletions == old(delta.deletions);
      delta.ApplyWrites(between);
      var drained := delta.DrainInsertions();
      entries := drained;
      if between == [] {
        LiveRowsAreMerged(base, old(delta.View()), old(delta.insertionOrder), entries);
      }
      r := RebuildLive(base, deletions, drained);
    }

    /** `transpose`: the live edges with their ends swapped; the graph itself is unchanged. */
    method Transpose() returns (r: Result<CsrGraph>, ghost entries: seq<(Edge, EdgeData)>)
      requires Valid()
      ensures InOrder(entries, delta.insertionOrder, delta.insertions)
      ensures var live := LiveEdges(base.Rows(), base.nodeCount, delta.deletions, entries);
              && (r.Success? <==> Fits(ReverseAll(live)))
              && (r.Success? ==>
                    && fresh(r.value) && fresh(r.value.delta) && r.value.Valid()
                    && r.value.delta.View() == EMPTY_OVERLAY && r.value.delta.insertionOrder == []
                    && IndexOf(r.value.base, ReverseAll(live), None))
      ensures r.Success? ==> forall a: nat, b: nat ::
                multiset(r.value.base.NeighborSlice(b))[a] == multiset(Adjacency()(a))[b]
      ensures delta.View() == EMPTY_OVERLAY ==>
                r.Success? && TransposeOf(base, r.value.base) &&
                forall n: nat :: Ascending(r.value.base.NeighborSlice(n))
    {
      hide IndexOf, Base.Tiled, Base.NeighborSlice, LiveEdges, MergedRows, Fits;
      var dels := delta.SnapshotDeletions();
      var deletions := set e | e in dels;
      assert deletions == delta.deletions;
      var snapshot := delta.SnapshotInsertions();
      entries := snapshot;
      r := RebuildReversed(base, deletions, snapshot);
      if delta.View() == EMPTY_OVERLAY {
        EnumeratesNothing(delta.insertionOrder);
        CleanTransposes(base, entries, r);
      }
      if r.Success? { ReversedRowsAreMerged(base, r.value.base, delta.View(), delta.insertionOrder, entries); }
    }
  }

  /** Without a delta the iterator shows the base rows. */
  lemma CleanAdjacency(g: CsrGraph)
    requires g.Valid() && g.delta.IsEmpty()
    ensures forall n: nat :: g.Adjacency()(n) == g.base.Rows()(n)
  {
    EnumeratesNothing(g.delta.insertionOrder);
    CleanRows(g.base);
  }

  lemma CleanRows(base: Base)
    requires base.Tiled()
    ensures forall n: nat :: MergedRows(base.Rows(), {}, [])(n) == base.Rows()(n)
  {
    hide Base.Tiled, Base.NeighborSlice;
    forall n: nat ensures MergedRows(base.Rows(), {}, [])(n) == base.Rows()(n) {
      MergedClean(n, base.NeighborSlice(n));
    }
  }

  lemma LiveRowsAreMerged(base: Base, o: Overlay, order: seq<Edge>, entries: seq<(Edge, EdgeData)>)
    requires base.Valid() && o.Valid() && Enumerates(order, o.ins.Keys) && InOrder(entries, order, o.ins)
    ensures forall n: nat :: Targets(LiveEdges(base.Rows(), base.nodeCount, o.del, entries), n) ==
                             MergedRows(base.Rows(), o.del, order)(n)
  {
    hide Base.Tiled, Base.NeighborSlice;
    forall n: nat
      ensures Targets(LiveEdges(base.Rows(), base.nodeCount, o.del, entries), n) ==
              MergedRows(base.Rows(), o.del, order)(n)
    {
      LiveIsMerged(base, o, order, entries, n);
    }
  }

  lemma ReversedRowsAreMerged(base: Base, rev: Base, o: Overlay, order: seq<Edge>, entries: seq<(Edge, EdgeData)>)
    requires base.Valid() && o.Valid() && Enumerates(order, o.ins.Keys) && InOrder(entries, order, o.ins)
    requires IndexOf(rev, ReverseAll(LiveEdges(base.Rows(), base.nodeCount, o.del, entries)), None)
    ensures forall a: nat, b: nat ::
              multiset(rev.NeighborSlice(b))[a] == multiset(MergedRows(base.Rows(), o.del, order)(a))[b]
  {
    hide Base.Tiled, Base.NeighborSlice;
    forall a: nat, b: nat
      ensures multiset(rev.NeighborSlice(b))[a] == multiset(MergedRows(base.Rows(), o.del, order)(a))[b]
    {
      ReversedLive(base, rev, o, order, entries, a, b);
    }
  }

  /** Rebuilding the reversed edges of a graph without a delta succeeds and gives its transpose. */
  lemma CleanTransposes(base: Base, entries: seq<(Edge, EdgeData)>, r: Result<CsrGraph>)
    requires base.Valid() && entries == []
    requires r.Success? <==> Fits(ReverseAll(LiveEdges(base.Rows(), base.nodeCount, {}, entries)))
    requires r.Success? ==>
               IndexOf(r.value.base, ReverseAll(LiveEdges(base.Rows(), base.nodeCount, {}, entries)), None)
    ensures r.Success? && TransposeOf(base, r.value.base)
    ensures forall n: nat :: Ascending(r.value.base.NeighborSlice(n))
  {
    hide Base.Tiled, Base.NeighborSlice;
    assert LiveEdges(base.Rows(), base.nodeCount, {}, entries) == base.Edges();
    BaseFits(base);
    ReverseFits(base.Edges());
    ReversedIndex(base, r.value.base);
  }

  ghost function LiveWeightList(base: Base, del: set<Edge>, entries: seq<(Edge, EdgeData)>): (ws: Option<seq<Weight>>)
    requires base.Valid()
    ensures ws.Some? ==> |ws.value| == |LiveEdges(base.Rows(), base.nodeCount, del, entries)|
  {
    WeightsAlign(base);
    if base.HasWeights() then Some(LiveWeights(base.Rows(), base.WeightRows(), base.nodeCount, del, entries)) else None
  }

  /** `base_neighbors`: where a node's row lies, as shard and column range. */
  method BaseNeighbors(base: Base, node: nat) returns (shard: Option<CsrShard>, start: nat, end: nat)
    requires base.Tiled()
    ensures start <= end <= (if shard.Some? then |shard.value.colIndices| else 0)
    ensures base.NeighborSlice(node) == if shard.Some? then shard.value.colIndices[start..end] else []
  {
    base.ShardAt(node);
    hide Base.Tiled;
    match base.GlobalToShard(node)
    case Some(at) =>
      var range := base.shards[at.0].NeighborRange(at.1);
      return Some(base.shards[at.0]), range.0, range.1;
    case None =>
      return None, 0, 0;
  }

  /** `NeighborIter`: base targets that are not tombstoned, then inserted targets not seen among them. */
  class NeighborIter {
    const graph: CsrGraph
    const node: nat
    const shard: Option<CsrShard>
    const end: nat
    const deltaIter: seq<nat>
    var current: nat
    var deltaPos: nat
    var baseSeen: set<nat>

    ghost predicate Valid()
      reads this, graph.delta
    {
      && graph.Valid()
      && current <= end <= (if shard.Some? then |shard.value.colIndices| else 0)
      && deltaPos <= |deltaIter|
    }

    /** The base targets still to come. */
    ghost function Cols(): seq<nat>
      requires Valid()
      reads this, graph.delta
    {
      if shard.Some? then shard.value.colIndices[current..end] else []
    }

    /** Everything `next` will still yield. */
    ghost function Rest(): seq<nat>
      requires Valid()
      reads this, graph.delta
    {
      Pending(node, Cols(), graph.delta.deletions, deltaIter[deltaPos..], baseSeen)
    }

    constructor (graph: CsrGraph, node: nat)
      requires graph.Valid()
      ensures Valid() && this.graph == graph && this.node == node
      ensures Rest() == graph.Adjacency()(node)
    {
      hide Base.Tiled, Base.NeighborSlice;
      this.graph, this.node := graph, node;
      var at, start, stop := BaseNeighbors(graph.base, node);
      shard, current, end := at, start, stop;
      var inserted := graph.delta.Neighbors(node);
      deltaIter, deltaPos, baseSeen := inserted, 0, {};
      new;
      assert deltaIter[0..] == deltaIter;
      assert Cols() == graph.base.NeighborSlice(node);
      PendingAtStart(node, Cols(), graph.delta.deletions, graph.delta.insertionOrder);
    }

    method Next() returns (r: Option<nat>)
      requires Valid()
      modifies this
      ensures Valid()
      ensures r == if old(Rest()) == [] then None else Some(old(Rest())[0])
      ensures Rest() == if old(Rest()) == [] then [] else old(Rest())[1..]
    {
      hide Base.Valid, CsrGraph.Valid, DeltaLayer.Valid, Pending;
      while current < end
        invariant Valid() && Rest() == old(Rest())
      {
        var neighbor := shard.value.colIndices[current];
        PendingBase(node, shard.value.colIndices, current, end, graph.delta.deletions, deltaIter[deltaPos..], baseSeen);
        current := current + 1;
        if !graph.delta.IsDeleted(node, neighbor) {
          baseSeen := baseSeen + {neighbor};
          return Some(neighbor);
        }
      }
      while deltaPos < |deltaIter|
        invariant Valid() && current == end && Rest() == old(Rest())
      {
        var neighbor := deltaIter[deltaPos];
        PendingDelta(node, graph.delta.deletions, deltaIter, deltaPos, baseSeen);
        deltaPos := deltaPos + 1;
        if neighbor !in baseSeen { return Some(neighbor); }
      }
      assert Cols() == [] && deltaIter[deltaPos..] == [];
      PendingDone(node, graph.delta.deletions, baseSeen);
      return None;
    }
  }

  /** What an iterator in the given position still yields. */
  ghost function Pending(node: nat, cols: seq<nat>, del: set<Edge>, inserted: seq<nat>, seen: set<nat>): seq<nat> {
    var kept := Keep<nat>(node, cols, cols, del);
    kept + Without(inserted, seen + Members(kept))
  }

  lemma {:induction false} KeepCons(node: nat, cols: seq<nat>, del: set<Edge>)
    requires cols != []
    ensures Keep<nat>(node, cols, cols, del) ==
            (if Edge(node, cols[0]) in del then [] else [cols[0]]) + Keep<nat>(node, cols[1..], cols[1..], del)
  {
    if |cols| > 1 {
      var m := |cols| - 1;
      KeepCons(node, cols[..m], del);
      assert cols[..m][1..] == cols[1..][..m - 1];
    }
  }

  lemma PendingBase(node: nat, xs: seq<nat>, i: nat, j: nat, del: set<Edge>, inserted: seq<nat>, seen: set<nat>)
    requires i < j <= |xs|
    ensures var pending := Pending(node, xs[i..j], del, inserted, seen);
            if Edge(node, xs[i]) in del then pending == Pending(node, xs[i + 1..j], del, inserted, seen)
            else
              && pending != [] && pending[0] == xs[i]
              && pending[1..] == Pending(node, xs[i + 1..j], del, inserted, seen + {xs[i]})
  {
    var cols := xs[i..j];
    assert cols[1..] == xs[i + 1..j];
    KeepCons(node, cols, del);
    var rest: seq<nat> := Keep<nat>(node, cols[1..], cols[1..], del);
    if Edge(node, cols[0]) in del {
      assert [] + rest == rest;
    } else {
      MembersCons(cols[0], rest, seen);
      var tail: seq<nat> := Without(inserted, seen + {cols[0]} + Members(rest));
      assert ([cols[0]] + rest) + tail == [cols[0]] + (rest + tail);
    }
  }

  lemma MembersCons(x: nat, rest: seq<nat>, seen: set<nat>)
    ensures seen + Members([x] + rest) == seen + {x} + Members(rest)
  {
    assert forall t :: t in [x] + rest <==> t == x || t in rest;
  }

  lemma PendingDone(node: nat, del: set<Edge>, seen: set<nat>)
    ensures Pending(node, [], del, [], seen) == []
  {
  }

  lemma PendingAtStart(node: nat, row: seq<nat>, del: set<Edge>, order: seq<Edge>)
    ensures Pending(node, row, del, Targets(order, node), {}) == MergedRow(node, row, del, order)
  {
    var kept: seq<nat> := Keep<nat>(node, row, row, del);
    assert {} + Members(kept) == Members(kept);
  }

  lemma PendingDelta(node: nat, del: set<Edge>, inserted: seq<nat>, i: nat, seen: set<nat>)
    requires i < |inserted|
    ensures var pending := Pending(node, [], del, inserted[i..], seen);
            var rest := Pending(node, [], del, inserted[i + 1..], seen);
            if inserted[i] in seen then pending == rest
            else pending != [] && pending[0] == inserted[i] && pending[1..] == rest
  {
    assert inserted[i..][1..] == inserted[i + 1..];
  }
}
