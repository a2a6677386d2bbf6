/** The merged adjacency: base rows under an overlay, and the edge list that rebuilds it. */
module Merge {
  import opened Common
  import opened Delta
  import opened EdgeLists
  import opened Hops

  /** The targets not yet seen. */
  function Without(ts: seq<nat>, seen: set<nat>): seq<nat> {
    if ts == [] then []
    else if ts[0] in seen then Without(ts[1..], seen) else [ts[0]] + Without(ts[1..], seen)
  }

  function Members(ts: seq<nat>): set<nat> { set t | t in ts }

  /** What iterating the neighbours of n yields, given its base row: base targets that are not
      tombstoned, then the inserted targets the base part has not shown. */
  function MergedRow(n: nat, row: seq<nat>, del: set<Edge>, order: seq<Edge>): seq<nat> {
    var kept := Keep<nat>(n, row, row, del);
    kept + Without(Targets(order, n), Members(kept))
  }

  ghost function MergedRows(adj: nat -> seq<nat>, del: set<Edge>, order: seq<Edge>): nat -> seq<nat> {
    (n: nat) => MergedRow(n, adj(n), del, order)
  }

  lemma {:induction false} WithoutCount(ts: seq<nat>, seen: set<nat>, t: nat)
    ensures multiset(Without(ts, seen))[t] == if t in seen then 0 else multiset(ts)[t]
  {
    if ts == [] {
    } else {
      assert ts == [ts[0]] + ts[1..];
      WithoutCount(ts[1..], seen, t);
    }
  }

  lemma {:induction false} WithoutSnoc(ts: seq<nat>, seen: set<nat>, t: nat)
    ensures Without(ts + [t], seen) == Without(ts, seen) + if t in seen then [] else [t]
  {
    if ts == [] {
    } else {
      assert (ts + [t])[1..] == ts[1..] + [t];
      WithoutSnoc(ts[1..], seen, t);
    }
  }

  /** How often the iterator yields each target: a tombstoned edge never, a base edge as often as the
      base stores it, and an edge only the delta has exactly once. */
  lemma MergedCount(n: nat, row: seq<nat>, o: Overlay, order: seq<Edge>, t: nat)
    requires o.Valid() && Enumerates(order, o.ins.Keys)
    ensures multiset(MergedRow(n, row, o.del, order))[t] ==
            if Edge(n, t) in o.del then 0
            else if Edge(n, t) in o.ins && t !in row then 1
            else multiset(row)[t]
  {
    var kept: seq<nat> := Keep<nat>(n, row, row, o.del);
    KeepCount(n, row, o.del, t);
    KeepMember(n, row, o.del, t);
    WithoutCount(Targets(order, n), Members(kept), t);
    TargetsCount(order, n, t);
    DistinctCount(order, Edge(n, t));
    assert t in kept <==> t in Members(kept);
    assert t in row <==> t in multiset(row);
    assert Edge(n, t) in order <==> Edge(n, t) in o.ins.Keys;
    assert Edge(n, t) in o.del ==> Edge(n, t) !in o.ins.Keys;
    var added: seq<nat> := Without(Targets(order, n), Members(kept));
    assert MergedRow(n, row, o.del, order) == kept + added;
    assert multiset(MergedRow(n, row, o.del, order))[t] == multiset(kept)[t] + multiset(added)[t];
    if Edge(n, t) in o.del {
      assert multiset(kept)[t] == 0;
      assert multiset(added)[t] == 0;
    } else if Edge(n, t) in o.ins && t !in row {
      assert multiset(kept)[t] == 0;
      assert multiset(added)[t] == 1;
    } else {
      assert multiset(kept)[t] == multiset(row)[t];
      assert multiset(added)[t] == 0;
    }
  }

  lemma MergedMember(n: nat, row: seq<nat>, o: Overlay, order: seq<Edge>, t: nat)
    requires o.Valid() && Enumerates(order, o.ins.Keys)
    ensures t in MergedRow(n, row, o.del, order) <==> (t in row && Edge(n, t) !in o.del) || Edge(n, t) in o.ins
  {
    MergedCount(n, row, o, order, t);
    var m := MergedRow(n, row, o.del, order);
    assert t in m <==> t in multiset(m);
    assert t in row <==> t in multiset(row);
  }

  /** The iteration order of the delta never changes which neighbours are yielded or how often. */
  lemma OrderDoesNotMatter(n: nat, row: seq<nat>, o: Overlay, order1: seq<Edge>, order2: seq<Edge>)
    requires o.Valid() && Enumerates(order1, o.ins.Keys) && Enumerates(order2, o.ins.Keys)
    ensures multiset(MergedRow(n, row, o.del, order1)) == multiset(MergedRow(n, row, o.del, order2))
  {
    forall t: nat
      ensures multiset(MergedRow(n, row, o.del, order1))[t] == multiset(MergedRow(n, row, o.del, order2))[t]
    {
      MergedCount(n, row, o, order1, t);
      MergedCount(n, row, o, order2, t);
    }
  }

  /** With an empty delta the iterator is the base row. */
  lemma MergedClean(n: nat, row: seq<nat>)
    ensures MergedRow(n, row, {}, []) == row
  {
    KeepNothingDeleted(n, row, row);
  }

  // ----- the edge list compaction and transpose rebuild from

  function Keys(entries: seq<(Edge, EdgeData)>): (es: seq<Edge>)
    ensures |es| == |entries| && forall i :: 0 <= i < |es| ==> es[i] == entries[i].0
  {
    seq(|entries|, i requires 0 <= i < |entries| => entries[i].0)
  }

  /** Insertions the base does not already store, in drain order. */
  function Additions(adj: nat -> seq<nat>, entries: seq<(Edge, EdgeData)>): seq<Edge> {
    if entries == [] then []
    else
      var m := |entries| - 1;
      var e := entries[m].0;
      Additions(adj, entries[..m]) + if e.dst in adj(e.src) then [] else [e]
  }

  function StoredWeight(data: EdgeData): Weight {
    match data.weight
    case Some(w) => w
    case None => 1.0
  }

  function AdditionWeights(adj: nat -> seq<nat>, entries: seq<(Edge, EdgeData)>): (ws: seq<Weight>)
    ensures |ws| == |Additions(adj, entries)|
  {
    if entries == [] then []
    else
      var m := |entries| - 1;
      var e := entries[m].0;
      AdditionWeights(adj, entries[..m]) + if e.dst in adj(e.src) then [] else [StoredWeight(entries[m].1)]
  }

  /** Surviving base edges of nodes 0..n, then new insertions. */
  ghost function LiveEdges(adj: nat -> seq<nat>, n: nat, del: set<Edge>, entries: seq<(Edge, EdgeData)>): seq<Edge> {
    KeptEdges(adj, del, n) + Additions(adj, entries)
  }

  ghost function LiveWeights(adj: nat -> seq<nat>, vals: nat -> seq<Weight>, n: nat, del: set<Edge>,
                             entries: seq<(Edge, EdgeData)>): (ws: seq<Weight>)
    requires forall i :: 0 <= i < n ==> |vals(i)| == |adj(i)|
    ensures |ws| == |LiveEdges(adj, n, del, entries)|
  {
    KeptLength(adj, vals, del, n);
    KeptValues(adj, vals, del, n) + AdditionWeights(adj, entries)
  }

  lemma {:induction false} AdditionTargets(adj: nat -> seq<nat>, del: set<Edge>, entries: seq<(Edge, EdgeData)>, n: nat)
    requires forall i :: 0 <= i < |entries| ==> entries[i].0 !in del
    ensures Targets(Additions(adj, entries), n) ==
            Without(Targets(Keys(entries), n), Members(Keep<nat>(n, adj(n), adj(n), del)))
  {
    if entries == [] {
    } else {
      var m := |entries| - 1;
      var front, e := entries[..m], entries[m].0;
      AdditionTargets(adj, del, front, n);
      assert Keys(entries) == Keys(front) + [e];
      TargetsAppend(Keys(front), [e], n);
      TargetsOne(e, n);
      AdditionStep(adj, del, Targets(Keys(front), n), e, n);
      TargetsAppend(Additions(adj, front), if e.dst in adj(e.src) then [] else [e], n);
    }
  }

  lemma AdditionStep(adj: nat -> seq<nat>, del: set<Edge>, ts: seq<nat>, e: Edge, n: nat)
    requires e !in del
    ensures var seen := Members(Keep<nat>(n, adj(n), adj(n), del));
            Without(ts + (if e.src == n then [e.dst] else []), seen) ==
            Without(ts, seen) + Targets(if e.dst in adj(e.src) then [] else [e], n)
  {
    TargetsOne(e, n);
    assert e == Edge(e.src, e.dst) && ts + [] == ts && Targets([], n) == [];
    if e.src == n {
      KeepMember(n, adj(n), del, e.dst);
      WithoutSnoc(ts, Members(Keep<nat>(n, adj(n), adj(n), del)), e.dst);
    }
  }

  /** Row n of the live edges is exactly what the iterator yields for n, in the same order. */
  lemma LiveRow(adj: nat -> seq<nat>, m: nat, del: set<Edge>, entries: seq<(Edge, EdgeData)>, n: nat)
    requires forall i :: 0 <= i < |entries| ==> entries[i].0 !in del
    requires n >= m ==> adj(n) == []
    ensures Targets(LiveEdges(adj, m, del, entries), n) == MergedRow(n, adj(n), del, Keys(entries))
  {
    TargetsAppend(KeptEdges(adj, del, m), Additions(adj, entries), n);
    KeptTargets(adj, del, m, n);
    AdditionTargets(adj, del, entries, n);
  }

  /** The weights of row n: each surviving base edge keeps its own, then the weights of the insertions. */
  lemma LiveWeightRow(adj: nat -> seq<nat>, vals: nat -> seq<Weight>, m: nat, del: set<Edge>,
                      entries: seq<(Edge, EdgeData)>, n: nat)
    requires forall i :: 0 <= i < m ==> |vals(i)| == |adj(i)|
    ensures Pick(LiveEdges(adj, m, del, entries), LiveWeights(adj, vals, m, del, entries), n) ==
            (if n < m then Keep(n, adj(n), vals(n), del) else []) +
            Pick(Additions(adj, entries), AdditionWeights(adj, entries), n)
  {
    KeptPick(adj, vals, del, m, n);
    PickAppend(KeptEdges(adj, del, m), KeptValues(adj, vals, del, m),
               Additions(adj, entries), AdditionWeights(adj, entries), n);
  }

  // ----- listing one row

  function Flip(es: seq<Edge>, flip: bool): (fs: seq<Edge>)
    ensures |fs| == |es|
  {
    if flip then ReverseAll(es) else es
  }

  lemma FlipAppend(es: seq<Edge>, fs: seq<Edge>, flip: bool)
    ensures Flip(es + fs, flip) == Flip(es, flip) + Flip(fs, flip)
  {
    hide ReverseAll;
    if flip { assert ReverseAll(es + fs) == ReverseAll(es) + ReverseAll(fs); }
  }

  /** The first i targets of a row listed as edges, with their weights. */
  ghost predicate RowListed(from: nat, row: seq<nat>, weightRow: seq<Weight>, del: set<Edge>, weighted: bool,
                            flip: bool, i: nat, edges: seq<Edge>, weights: seq<Weight>)
    requires i <= |row| && (weighted ==> |weightRow| == |row|)
  {
    && edges == Flip(RowEdges(from, Keep<nat>(from, row[..i], row[..i], del)), flip)
    && weights == if weighted then Keep(from, row[..i], weightRow[..i], del) else []
  }

  lemma RowListedStep(from: nat, row: seq<nat>, weightRow: seq<Weight>, del: set<Edge>, weighted: bool, flip: bool,
                      i: nat, edges: seq<Edge>, weights: seq<Weight>)
    requires i < |row| && (weighted ==> |weightRow| == |row|)
    requires RowListed(from, row, weightRow, del, weighted, flip, i, edges, weights)
    ensures if Edge(from, row[i]) in del
            then RowListed(from, row, weightRow, del, weighted, flip, i + 1, edges, weights)
            else RowListed(from, row, weightRow, del, weighted, flip, i + 1,
                           edges + [if flip then Edge(row[i], from) else Edge(from, row[i])],
                           weights + if weighted then [weightRow[i]] else [])
  {
    hide Keep, RowEdges, ReverseAll;
    KeepSnoc<nat>(from, row, row, del, i);
    if weighted { KeepSnoc(from, row, weightRow, del, i); }
    var kept := Keep<nat>(from, row[..i], row[..i], del);
    FlipAppend(RowEdges(from, kept), [Edge(from, row[i])], flip);
    assert RowEdges(from, kept + [row[i]]) == RowEdges(from, kept) + [Edge(from, row[i])];
    assert Flip([Edge(from, row[i])], flip) == [if flip then Edge(row[i], from) else Edge(from, row[i])];
  }
}
