/** The immutable base layer: shards of CSR storage and the addressing over them. */
module Csr {
  import opened Common
  import opened EdgeLists
  import opened Words

  /** `CsrShard`: nodes lo..hi, with row pointers relative to the shard. */
  datatype CsrShard = CsrShard(
    id: nat, lo: nat, hi: nat, rowPtrs: seq<nat>, colIndices: seq<nat>, weights: Option<seq<Weight>>)
  {
    ghost predicate Valid() {
      && lo < hi
      && |rowPtrs| == hi - lo + 1
      && rowPtrs[0] == 0 && rowPtrs[|rowPtrs| - 1] == |colIndices|
      && (forall i, j :: 0 <= i <= j < |rowPtrs| ==> rowPtrs[i] <= rowPtrs[j])
      && (weights.Some? ==> |weights.value| == |colIndices|)
    }

    function NodeCount(): nat { if lo <= hi then hi - lo else 0 }

    predicate Contains(node: nat) { lo <= node < hi }

    /** Row pointers, columns and weights, four bytes each. */
    function Bytes(): nat { 4 * |rowPtrs| + (if weights.Some? then 8 else 4) * |colIndices| }

    predicate HasWeights() { weights.Some? }

    function NeighborRange(local: nat): (r: (nat, nat))
      requires Valid()
      ensures r.0 <= r.1 <= |colIndices|
    {
      if local >= NodeCount() then (0, 0)
      else
        assert rowPtrs[local + 1] <= rowPtrs[|rowPtrs| - 1];
        (rowPtrs[local], rowPtrs[local + 1])
    }

    function NeighborSlice(local: nat): seq<nat>
      requires Valid()
    {
      var (start, end) := NeighborRange(local);
      colIndices[start..end]
    }

    function ColIndex(idx: nat): Option<nat> {
      if idx < |colIndices| then Some(colIndices[idx]) else None
    }

    function WeightAt(idx: nat): Option<Weight> {
      if weights.Some? && idx < |weights.value| then Some(weights.value[idx]) else None
    }

    /** The weights stored beside `NeighborSlice(local)`. */
    function WeightSlice(local: nat): seq<Weight>
      requires Valid()
    {
      var (start, end) := NeighborRange(local);
      if weights.Some? then weights.value[start..end] else []
    }
  }

  /** The base layer of a `CsrGraph`. */
  datatype Base = Base(shards: seq<CsrShard>, nodeCount: nat, edgeCount: nat) {

    /** Non-empty shards, numbered in order, tile 0..nodeCount. */
    ghost predicate Tiled() {
      && (shards == [] ==> nodeCount == 0)
      && (shards != [] ==> shards[0].lo == 0 && shards[|shards| - 1].hi == nodeCount)
      && (forall i :: 0 <= i < |shards| ==> shards[i].Valid() && shards[i].id == i)
      && (forall i, j :: 0 <= i < j < |shards| ==> shards[i].hi <= shards[j].lo)
      && (forall i :: 0 < i < |shards| ==> shards[i - 1].hi == shards[i].lo)
    }

    /** What every finished build guarantees of its base layer. */
    ghost predicate Valid() {
      && Tiled()
      && nodeCount <= U32_MAX + 1 && edgeCount <= U32_MAX
      && edgeCount == |Edges()|
      && nodeCount == Span(Edges())
      && (forall i, j :: 0 <= i < |shards| && 0 <= j < |shards| ==> shards[i].HasWeights() == shards[j].HasWeights())
    }

    predicate Contains(node: nat) { node < nodeCount }

    /** `partition_point`: how many of shards l..h start at or before `node`, counted from l. */
    function PartitionPoint(node: nat, l: nat, h: nat): (p: nat)
      requires l <= h <= |shards|
      ensures l <= p <= h
      decreases h - l
    {
      if l == h then l
      else
        var mid := (l + h) / 2;
        if shards[mid].lo <= node then PartitionPoint(node, mid + 1, h) else PartitionPoint(node, l, mid)
    }

    function GlobalToShard(node: nat): (r: Option<(nat, nat)>)
      ensures r.Some? ==> r.value.0 < |shards|
    {
      var p := PartitionPoint(node, 0, |shards|);
      if p == 0 then None
      else if shards[p - 1].Contains(node) then Some((p - 1, node - shards[p - 1].lo))
      else None
    }

    function ShardToGlobal(shard: nat, offset: nat): Option<nat> {
      if shard >= |shards| then None
      else if offset >= shards[shard].NodeCount() then None
      else Some(shards[shard].lo + offset)
    }

    function NeighborSlice(node: nat): seq<nat>
      requires Tiled()
    {
      match GlobalToShard(node)
      case Some((shard, offset)) => shards[shard].NeighborSlice(offset)
      case None => []
    }

    function WeightSlice(node: nat): seq<Weight>
      requires Tiled()
    {
      match GlobalToShard(node)
      case Some((shard, offset)) => shards[shard].WeightSlice(offset)
      case None => []
    }

    predicate HasWeights() { exists i :: 0 <= i < |shards| && shards[i].HasWeights() }

    /** `base_contains`: a target beyond u32 cannot be stored. */
    predicate HasBaseEdge(from: nat, to: nat)
      requires Tiled()
    {
      to <= U32_MAX && to in NeighborSlice(from)
    }

    ghost function Rows(): nat -> seq<nat>
      requires Tiled()
    {
      (n: nat) => NeighborSlice(n)
    }

    ghost function WeightRows(): nat -> seq<Weight>
      requires Tiled()
    {
      (n: nat) => WeightSlice(n)
    }

    /** All edges, row by row. */
    ghost function Edges(): seq<Edge>
      requires Tiled()
    {
      KeptEdges(Rows(), {}, nodeCount)
    }

    // ----- addressing

    lemma {:induction false} PartitionPointSplits(node: nat, l: nat, h: nat)
      requires l <= h <= |shards|
      requires forall i, j :: 0 <= i < j < |shards| ==> shards[i].lo <= shards[j].lo
      ensures forall i :: l <= i < PartitionPoint(node, l, h) ==> shards[i].lo <= node
      ensures forall i :: PartitionPoint(node, l, h) <= i < h ==> shards[i].lo > node
      decreases h - l
    {
      if l < h {
        var mid := (l + h) / 2;
        if shards[mid].lo <= node {
          PartitionPointSplits(node, mid + 1, h);
        } else {
          PartitionPointSplits(node, l, mid);
        }
      }
    }

    lemma StartsSorted()
      requires Tiled()
      ensures forall i, j :: 0 <= i < j < |shards| ==> shards[i].lo < shards[j].lo
    {
    }

    /** The binary search stops just after the last shard that starts at or before the node. */
    lemma PartitionPointOf(node: nat, k: nat)
      requires k < |shards|
      requires forall i, j :: 0 <= i < j < |shards| ==> shards[i].lo < shards[j].lo
      requires shards[k].lo <= node
      requires k + 1 < |shards| ==> node < shards[k + 1].lo
      ensures PartitionPoint(node, 0, |shards|) == k + 1
    {
      PartitionPointSplits(node, 0, |shards|);
    }

    /** The binary search finds the one shard that holds the node. */
    lemma Located(node: nat, k: nat)
      requires Tiled() && k < |shards| && shards[k].Contains(node)
      ensures GlobalToShard(node) == Some((k, node - shards[k].lo))
      ensures NeighborSlice(node) == shards[k].NeighborSlice(node - shards[k].lo)
      ensures WeightSlice(node) == shards[k].WeightSlice(node - shards[k].lo)
    {
      hide PartitionPoint;
      StartsSorted();
      PartitionPointOf(node, k);
    }

    lemma ShardAt(node: nat)
      requires Tiled()
      ensures match GlobalToShard(node)
              case Some(at) => shards[at.0].Valid() && NeighborSlice(node) == shards[at.0].NeighborSlice(at.1)
              case None => NeighborSlice(node) == []
    {
    }

    lemma {:induction false} SomeShardHolds(node: nat, n: nat) returns (k: nat)
      requires Tiled() && n < |shards| && node < shards[n].hi
      ensures k <= n && shards[k].Contains(node)
    {
      if node >= shards[n].lo { k := n; } else { k := SomeShardHolds(node, n - 1); }
    }

    lemma Unlocated(node: nat)
      requires Tiled() && node >= nodeCount
      ensures GlobalToShard(node) == None
    {
      var p := PartitionPoint(node, 0, |shards|);
      if 0 < p < |shards| { assert shards[p - 1].hi <= shards[|shards| - 1].lo < nodeCount; }
    }

    /** `global_to_shard` answers exactly for the graph's nodes, and `shard_to_global` undoes it. */
    lemma AddressRoundTrip(node: nat)
      requires Tiled()
      ensures match GlobalToShard(node)
              case Some(at) => node < nodeCount && ShardToGlobal(at.0, at.1) == Some(node)
              case None => node >= nodeCount
    {
      hide GlobalToShard, NeighborSlice, WeightSlice;
      if node < nodeCount {
        var k := SomeShardHolds(node, |shards| - 1);
        Located(node, k);
        assert ShardToGlobal(k, node - shards[k].lo) == Some(node);
      } else {
        Unlocated(node);
      }
    }

    /** `shard_to_global` answers exactly for stored offsets, and `global_to_shard` undoes it. */
    lemma OffsetRoundTrip(shard: nat, offset: nat)
      requires Tiled()
      ensures ShardToGlobal(shard, offset).Some? <==> shard < |shards| && offset < shards[shard].NodeCount()
      ensures ShardToGlobal(shard, offset).Some? ==>
                ShardToGlobal(shard, offset).value < nodeCount &&
                GlobalToShard(ShardToGlobal(shard, offset).value) == Some((shard, offset))
    {
      hide GlobalToShard, NeighborSlice, WeightSlice;
      if shard < |shards| && offset < shards[shard].NodeCount() {
        Located(shards[shard].lo + offset, shard);
        if shard < |shards| - 1 { assert shards[shard].hi <= shards[|shards| - 1].lo; }
      }
    }

    // ----- rows against the edge list

    /** Row n of the graph is row n of its edge list. */
    lemma RowIsTargets(n: nat)
      requires Tiled()
      ensures Targets(Edges(), n) == NeighborSlice(n)
    {
      KeptTargets(Rows(), {}, nodeCount, n);
      KeepNothingDeleted(n, NeighborSlice(n), NeighborSlice(n));
      if n >= nodeCount { Unlocated(n); }
    }

    /** An edge listed in a row exists, and its ends are nodes. */
    lemma RowMember(n: nat, t: nat)
      requires Valid()
      ensures t in NeighborSlice(n) <==> Edge(n, t) in Edges()
      ensures t in NeighborSlice(n) ==> n < nodeCount && t < nodeCount
      ensures HasBaseEdge(n, t) <==> t in NeighborSlice(n)
    {
      RowIsTargets(n);
      TargetsMember(Edges(), n, t);
      if Edge(n, t) in Edges() {
        var i :| 0 <= i < |Edges()| && Edges()[i] == Edge(n, t);
      }
    }

    lemma WeightRowLength(n: nat)
      requires Valid() && HasWeights()
      ensures |WeightSlice(n)| == |NeighborSlice(n)|
    {
      hide Edges, Rows;
      match GlobalToShard(n)
      case Some(at) => assert shards[at.0].Valid() && shards[at.0].HasWeights();
      case None =>
    }
  }

  const EMPTY_BASE := Base([], 0, 0)

  lemma EmptyBaseValid()
    ensures EMPTY_BASE.Valid() && !EMPTY_BASE.HasWeights() && EMPTY_BASE.Edges() == []
    ensures forall n: nat :: EMPTY_BASE.NeighborSlice(n) == []
  {
  }
}
