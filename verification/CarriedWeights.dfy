/** Which weights of delta insertions a compaction carries over. */
module CarriedWeights {
  import opened Builder
  import opened Common
  import opened Compaction
  import opened Csr
  import opened Delta
  import opened EdgeLists
  import opened Graph
  import opened Merge

  /** The list holds edge e with weight w beside it. */
  ghost predicate WeightListed(es: seq<Edge>, ws: seq<Weight>, e: Edge, w: Weight)
    requires |ws| == |es|
  {
    exists j :: 0 <= j < |es| && es[j] == e && ws[j] == w
  }

  lemma {:induction false} AdditionWeighted(adj: nat -> seq<nat>, entries: seq<(Edge, EdgeData)>, i: nat)
    requires i < |entries| && entries[i].0.dst !in adj(entries[i].0.src)
    ensures var edges, weights := Additions(adj, entries), AdditionWeights(adj, entries);
            WeightListed(edges, weights, entries[i].0, StoredWeight(entries[i].1))
  {
    var m := |entries| - 1;
    var front, edges, weights := Additions(adj, entries[..m]), Additions(adj, entries), AdditionWeights(adj, entries);
    if i == m {
      assert edges == front + [entries[m].0];
      assert edges[|front|] == entries[i].0 && weights[|front|] == StoredWeight(entries[i].1);
    } else {
      AdditionWeighted(adj, entries[..m], i);
      var j :| 0 <= j < |front| && front[j] == entries[i].0 &&
          AdditionWeights(adj, entries[..m])[j] == StoredWeight(entries[i].1);
      assert edges[j] == entries[i].0 && weights[j] == StoredWeight(entries[i].1);
    }
  }

  lemma Unlisted(es: seq<Edge>, ws: seq<Weight>, e: Edge, w: Weight)
    requires |ws| == |es| && e !in es
    ensures !WeightListed(es, ws, e, w)
  {
  }

  /** A row shows weight w beside one of its copies of target t. */
  ghost predicate Beside(row: seq<nat>, ws: seq<Weight>, t: nat, w: Weight) {
    exists k :: 0 <= k < |row| && k < |ws| && row[k] == t && ws[k] == w
  }

  lemma BesideAppend(row1: seq<nat>, ws1: seq<Weight>, row2: seq<nat>, ws2: seq<Weight>, t: nat, w: Weight)
    requires |row1| == |ws1|
    ensures Beside(row1 + row2, ws1 + ws2, t, w) <==> Beside(row1, ws1, t, w) || Beside(row2, ws2, t, w)
  {
    var row, ws, n := row1 + row2, ws1 + ws2, |row1|;
    if k :| 0 <= k < |row1| && k < |ws1| && row1[k] == t && ws1[k] == w { assert row[k] == t && ws[k] == w; }
    if k :| 0 <= k < |row2| && k < |ws2| && row2[k] == t && ws2[k] == w { assert row[n + k] == t && ws[n + k] == w; }
    if k :| 0 <= k < |row| && k < |ws| && row[k] == t && ws[k] == w {
      if k >= n { assert row2[k - n] == t && ws2[k - n] == w; }
    }
  }

  lemma BesideOne(x: nat, v: Weight, t: nat, w: Weight)
    ensures Beside([x], [v], t, w) <==> x == t && v == w
    ensures !Beside([], [], t, w)
  {
    assert [x][0] == x && [v][0] == v;
  }

  /** Dropping tombstoned targets keeps the weights of the others. */
  lemma {:induction false} KeptBeside(n: nat, row: seq<nat>, ws: seq<Weight>, del: set<Edge>, t: nat, w: Weight)
    requires |ws| == |row|
    ensures |Keep<nat>(n, row, row, del)| == |Keep(n, row, ws, del)|
    ensures Beside(Keep<nat>(n, row, row, del), Keep(n, row, ws, del), t, w) <==>
            Edge(n, t) !in del && Beside(row, ws, t, w)
  {
    BesideOne(0, 0.0, t, w);
    if row == [] {
    } else {
      var m := |row| - 1;
      var front, frontWs: seq<Weight> := row[..m], ws[..m];
      KeptBeside(n, front, frontWs, del, t, w);
      assert row == front + [row[m]] && ws == frontWs + [ws[m]];
      BesideOne(row[m], ws[m], t, w);
      hide Beside;
      BesideAppend(front, frontWs, [row[m]], [ws[m]], t, w);
      BesideAppend(Keep<nat>(n, front, front, del), Keep(n, front, frontWs, del), [row[m]], [ws[m]], t, w);
    }
  }

  /** A row picked from an edge list shows the weights listed with its edges. */
  lemma {:induction false} PickedBeside(es: seq<Edge>, ws: seq<Weight>, n: nat, t: nat, w: Weight)
    requires |ws| == |es|
    ensures |Targets(es, n)| == |Pick(es, ws, n)|
    ensures Beside(Targets(es, n), Pick(es, ws, n), t, w) <==> WeightListed(es, ws, Edge(n, t), w)
  {
    BesideOne(0, 0.0, t, w);
    if es == [] {
    } else {
      var m := |es| - 1;
      PickedBeside(es[..m], ws[..m], n, t, w);
      assert Dsts(es)[..m] == Dsts(es[..m]);
      BesideOne(es[m].dst, ws[m], t, w);
      hide Beside, WeightListed;
      if es[m].src == n { BesideAppend(Targets(es[..m], n), Pick(es[..m], ws[..m], n), [es[m].dst], [ws[m]], t, w); }
      assert es[m] == Edge(n, t) <==> es[m].src == n && es[m].dst == t;
      ListedSnoc(es, ws, Edge(n, t), w);
    }
  }

  lemma ListedSnoc(es: seq<Edge>, ws: seq<Weight>, e: Edge, w: Weight)
    requires |ws| == |es| > 0
    ensures WeightListed(es, ws, e, w) <==>
            WeightListed(es[..|es| - 1], ws[..|es| - 1], e, w) || (es[|es| - 1] == e && ws[|es| - 1] == w)
  {
    var m := |es| - 1;
    if j :| 0 <= j < |es| && es[j] == e && ws[j] == w {
      if j < m { assert es[..m][j] == e && ws[..m][j] == w; }
    }
    if j :| 0 <= j < m && es[..m][j] == e && ws[..m][j] == w { assert es[j] == e && ws[j] == w; }
  }

  /** After a compaction the weight of a drained insertion lies beside its edge exactly when the base has
      weights and either does not store the edge, or stores it untombstoned with that very weight already:
      an unweighted base drops every inserted weight, and a stored edge keeps its old one. */
  lemma InsertedWeightCarriedIff(base: Base, del: set<Edge>, entries: seq<(Edge, EdgeData)>, after: Base, i: nat)
    requires base.Valid() && i < |entries|
    requires IndexOf(after, LiveEdges(base.Rows(), base.nodeCount, del, entries), LiveWeightList(base, del, entries))
    ensures var e, w := entries[i].0, if entries[i].1.weight.Some? then entries[i].1.weight.value else 1.0;
            Beside(after.NeighborSlice(e.src), after.WeightSlice(e.src), e.dst, w) <==>
            base.HasWeights() &&
            (e !in base.Edges() ||
             (e !in del && Beside(base.NeighborSlice(e.src), base.WeightSlice(e.src), e.dst, w)))
  {
    var e, w := entries[i].0, StoredWeight(entries[i].1);
    base.RowMember(e.src, e.dst);
    assert e == Edge(e.src, e.dst);
    if base.HasWeights() {
      WeightedRows(base, del, entries, after, e.src, e.dst, w);
      hide Base.Tiled, Base.NeighborSlice, Base.WeightSlice, IndexOf, Beside, WeightListed, Additions, AdditionWeights;
      AdditionsMember(base.Rows(), entries, e);
      if e !in base.Edges() {
        AdditionWeighted(base.Rows(), entries, i);
      } else {
        Unlisted(Additions(base.Rows(), entries), AdditionWeights(base.Rows(), entries), e, w);
      }
    } else {
      UnweightedRow(after, e.src);
    }
  }

  lemma UnweightedRow(b: Base, n: nat)
    requires b.Tiled() && !b.HasWeights()
    ensures b.WeightSlice(n) == []
  {
  }

  lemma RowShape(base: Base, entries: seq<(Edge, EdgeData)>, del: set<Edge>, n: nat)
    requires base.Valid() && base.HasWeights()
    ensures |base.WeightSlice(n)| == |base.NeighborSlice(n)|
    ensures n >= base.nodeCount ==> Keep<nat>(n, base.NeighborSlice(n), base.NeighborSlice(n), del) == []
    ensures n >= base.nodeCount ==> Keep(n, base.NeighborSlice(n), base.WeightSlice(n), del) == []
  {
    if n >= base.nodeCount { base.Unlocated(n); }
    base.WeightRowLength(n);
  }

  lemma WeightedRows(base: Base, del: set<Edge>, entries: seq<(Edge, EdgeData)>, after: Base, n: nat, t: nat, w: Weight)
    requires base.Valid() && base.HasWeights()
    requires IndexOf(after, LiveEdges(base.Rows(), base.nodeCount, del, entries), LiveWeightList(base, del, entries))
    ensures var edges, weights := Additions(base.Rows(), entries), AdditionWeights(base.Rows(), entries);
            Beside(after.NeighborSlice(n), after.WeightSlice(n), t, w) <==>
            (Edge(n, t) !in del && Beside(base.NeighborSlice(n), base.WeightSlice(n), t, w)) ||
            WeightListed(edges, weights, Edge(n, t), w)
  {
    hide Base.Tiled, Base.NeighborSlice, Base.WeightSlice, Beside, WeightListed, Additions, AdditionWeights,
         KeptEdges, Keep, Pick;
    var rows, vals := base.Rows(), base.WeightRows();
    var edges, weights := Additions(rows, entries), AdditionWeights(rows, entries);
    WeightsAlign(base);
    RowShape(base, entries, del, n);
    LiveWeightRow(rows, vals, base.nodeCount, del, entries, n);
    TargetsAppend(KeptEdges(rows, del, base.nodeCount), edges, n);
    KeptTargets(rows, del, base.nodeCount, n);
    KeptBeside(n, rows(n), vals(n), del, t, w);
    PickedBeside(edges, weights, n, t, w);
    BesideAppend(Keep<nat>(n, rows(n), rows(n), del), Keep(n, rows(n), vals(n), del), Targets(edges, n),
                 Pick(edges, weights, n), t, w);
  }

  /** The last write to e in the run is an insert of the given data. */
  ghost predicate LastInserted(ws: seq<Write>, e: Edge, data: EdgeData) {
    exists i :: 0 <= i < |ws| && ws[i] == Insert(e, data) && forall j :: i < j < |ws| ==> ws[j].e != e
  }

  lemma LastInsertedSplit(ws: seq<Write>, between: seq<Write>, e: Edge, data: EdgeData)
    requires LastInserted(ws + between, e, data)
    ensures LastInserted(between, e, data) ||
            (LastInserted(ws, e, data) && forall j :: 0 <= j < |between| ==> between[j].e != e)
  {
    var all, n := ws + between, |ws|;
    var i :| 0 <= i < |all| && all[i] == Insert(e, data) && forall j :: i < j < |all| ==> all[j].e != e;
    assert forall j :: 0 <= j < n ==> ws[j] == all[j];
    forall j | 0 <= j < |between| && i < n + j ensures between[j].e != e { assert between[j] == all[n + j]; }
    if i < n {
      assert ws[i] == Insert(e, data);
    } else {
      assert between[i - n] == Insert(e, data);
    }
  }

  lemma LastInsertedIsIn(o: Overlay, ws: seq<Write>, between: seq<Write>, e: Edge, data: EdgeData)
    requires LastInserted(ws + between, e, data)
    ensures var later := Overlay(o.ApplyAll(ws).ins, {}).ApplyAll(between);
            e in later.ins && later.ins[e] == data
  {
    hide Overlay.ApplyAll;
    LastInsertedSplit(ws, between, e, data);
    var rest := Overlay(o.ApplyAll(ws).ins, {});
    if i :| 0 <= i < |between| && between[i] == Insert(e, data) && forall j :: i < j < |between| ==> between[j].e != e {
      LastWriteHolds(rest, between, i);
    } else {
      var i :| 0 <= i < |ws| && ws[i] == Insert(e, data) && forall j :: i < j < |ws| ==> ws[j].e != e;
      LastWriteHolds(o, ws, i);
      UnwrittenStays(rest, between, e);
    }
  }

  /** Writes, then a compaction with further writes between its drains. In a graph with weights an edge that the
      base does not store and that was last written by an insert has, beside it in the rebuilt base, the weight of
      that insert, or 1 if it gave none. */
  method CompactAfterWrites(g: CsrGraph, ws: seq<Write>, between: seq<Write>) returns (r: Result<CsrGraph>)
    requires g.Valid()
    modifies g.delta
    ensures r.Success? ==> r.value.Valid()
    ensures r.Success? && g.base.HasWeights() ==>
              forall e: Edge, data: EdgeData :: e !in g.base.Edges() && LastInserted(ws + between, e, data) ==>
                Beside(r.value.base.NeighborSlice(e.src), r.value.base.WeightSlice(e.src), e.dst,
                       if data.weight.Some? then data.weight.value else 1.0)
  {
    hide Base.Tiled, Base.NeighborSlice, Base.WeightSlice, IndexOf, Beside, LastInserted, LiveEdges,
         LiveWeightList, Overlay.ApplyAll;
    ghost var o := g.delta.View();
    g.delta.ApplyWrites(ws);
    ghost var deletions := g.delta.deletions;
    ghost var entries;
    r, entries := g.Compact(between);
    if r.Failure? { return; }
    ghost var later := Overlay(o.ApplyAll(ws).ins, {}).ApplyAll(between);
    forall e: Edge, data: EdgeData |
      g.base.HasWeights() && e !in g.base.Edges() && LastInserted(ws + between, e, data)
      ensures Beside(r.value.base.NeighborSlice(e.src), r.value.base.WeightSlice(e.src), e.dst,
                     if data.weight.Some? then data.weight.value else 1.0)
    {
      LastInsertedIsIn(o, ws, between, e, data);
      var order :| Enumerates(order, later.ins.Keys) && InOrder(entries, order, later.ins);
      var i :| 0 <= i < |order| && order[i] == e;
      InsertedWeightCarriedIff(g.base, deletions, entries, r.value.base, i);
    }
  }

  /** An empty graph, an insertion with a weight, and a compaction: the edge is there, its weight is not. */
  lemma EmptyGraphDropsWeights(after: Base)
    requires EMPTY_BASE.Valid()
    requires var entries := [(Edge(0, 1), EdgeData(Some(2.5), None))];
             IndexOf(after, LiveEdges(EMPTY_BASE.Rows(), 0, {}, entries), LiveWeightList(EMPTY_BASE, {}, entries))
    ensures 1 in after.NeighborSlice(0) && !after.HasWeights() && after.WeightSlice(0) == []
  {
    EmptyBaseValid();
    var entries := [(Edge(0, 1), EdgeData(Some(2.5), None))];
    LiveMember(EMPTY_BASE, {}, entries, Edge(0, 1));
    assert Keys(entries)[0] == Edge(0, 1);
    TargetsMember(LiveEdges(EMPTY_BASE.Rows(), 0, {}, entries), 0, 1);
    UnweightedRow(after, 0);
  }
}
