/** What compaction and transpose make of a base layer. */
module BaseLaws {
  import opened Builder
  import opened Common
  import opened Csr
  import opened Delta
  import opened EdgeLists
  import opened Hops
  import opened Merge
  import opened Words

  ghost predicate Fits(es: seq<Edge>) { IdsFit(es) && |es| <= U32_MAX }

  /** Every edge reversed, with its multiplicity, over the same nodes. */
  ghost predicate TransposeOf(fwd: Base, rev: Base)
    requires fwd.Tiled() && rev.Tiled()
  {
    && rev.nodeCount == fwd.nodeCount && rev.edgeCount == fwd.edgeCount
    && forall a: nat, b: nat :: multiset(rev.NeighborSlice(b))[a] == multiset(fwd.NeighborSlice(a))[b]
  }

  ghost predicate Ascending(s: seq<nat>) { forall i, j :: 0 <= i < j < |s| ==> s[i] <= s[j] }

  lemma TransposeReverses(fwd: Base, rev: Base)
    requires fwd.Tiled() && rev.Tiled() && TransposeOf(fwd, rev)
    ensures Reversed(fwd.Rows(), rev.Rows())
  {
    hide Base.Tiled, Base.NeighborSlice;
    forall u: nat, v: nat ensures v in fwd.NeighborSlice(u) <==> u in rev.NeighborSlice(v) {
      assert v in fwd.NeighborSlice(u) <==> v in multiset(fwd.NeighborSlice(u));
      assert u in rev.NeighborSlice(v) <==> u in multiset(rev.NeighborSlice(v));
    }
  }

  /** Being the transpose is mutual. */
  lemma TransposeSymmetric(fwd: Base, rev: Base)
    requires fwd.Tiled() && rev.Tiled() && TransposeOf(fwd, rev)
    ensures TransposeOf(rev, fwd)
  {
    hide Base.Tiled, Base.NeighborSlice;
  }

  /** Transposing twice gives back every node's neighbours with their multiplicities. */
  lemma DoubleTranspose(g: Base, t: Base, tt: Base, n: nat)
    requires g.Tiled() && t.Tiled() && tt.Tiled()
    requires TransposeOf(g, t) && TransposeOf(t, tt)
    ensures multiset(tt.NeighborSlice(n)) == multiset(g.NeighborSlice(n))
    ensures tt.nodeCount == g.nodeCount && tt.edgeCount == g.edgeCount
  {
    hide Base.Tiled, Base.NeighborSlice;
    forall m: nat ensures multiset(tt.NeighborSlice(n))[m] == multiset(g.NeighborSlice(n))[m] {
      assert multiset(tt.NeighborSlice(n))[m] == multiset(t.NeighborSlice(m))[n];
    }
  }

  lemma AscendingAppend(s: seq<nat>, t: seq<nat>, k: nat)
    requires Ascending(s) && (forall x :: x in s ==> x < k) && (forall x :: x in t ==> x == k)
    ensures Ascending(s + t) && forall x :: x in s + t ==> x < k + 1
  {
    assert forall i :: 0 <= i < |s| ==> s[i] in s;
    assert forall i :: 0 <= i < |t| ==> t[i] in t;
  }

  /** Reversing an edge list row by row: the sources that list n, in ascending order. */
  lemma {:induction false} ReversedRowAscends(adj: nat -> seq<nat>, del: set<Edge>, m: nat, n: nat)
    ensures Ascending(Targets(ReverseAll(KeptEdges(adj, del, m)), n))
    ensures forall s :: s in Targets(ReverseAll(KeptEdges(adj, del, m)), n) ==> s < m
    decreases m
  {
    if m == 0 {
    } else {
      ReversedRowAscends(adj, del, m - 1, n);
      var front, row := KeptEdges(adj, del, m - 1), RowEdges(m - 1, Keep<nat>(m - 1, adj(m - 1), adj(m - 1), del));
      assert ReverseAll(front + row) == ReverseAll(front) + ReverseAll(row);
      TargetsAppend(ReverseAll(front), ReverseAll(row), n);
      var last: seq<nat> := Targets(ReverseAll(row), n);
      forall s | s in last ensures s == m - 1 {
        TargetsMember(ReverseAll(row), n, s);
        var i :| 0 <= i < |row| && ReverseAll(row)[i] == Edge(n, s);
      }
      AscendingAppend(Targets(ReverseAll(front), n), last, m - 1);
    }
  }

  /** An index of the reversed edge list is the transpose. */
  lemma ReversedIndex(fwd: Base, rev: Base)
    requires fwd.Valid() && IndexOf(rev, ReverseAll(fwd.Edges()), None)
    ensures TransposeOf(fwd, rev)
    ensures forall n: nat :: Ascending(rev.NeighborSlice(n))
  {
    hide Base.Tiled, Base.NeighborSlice;
    var es := fwd.Edges();
    SpanReverse(es);
    forall a: nat, b: nat ensures multiset(rev.NeighborSlice(b))[a] == multiset(fwd.NeighborSlice(a))[b] {
      fwd.RowIsTargets(a);
      TargetsCount(es, a, b);
      TargetsCount(ReverseAll(es), b, a);
      ReverseCount(es, Edge(a, b));
    }
    forall n: nat ensures Ascending(rev.NeighborSlice(n)) {
      ReversedRowAscends(fwd.Rows(), {}, fwd.nodeCount, n);
    }
  }

  lemma ReverseFits(es: seq<Edge>)
    ensures Fits(ReverseAll(es)) <==> Fits(es)
  {
    var rs := ReverseAll(es);
    assert forall i :: 0 <= i < |es| ==> rs[i] == Reverse(es[i]);
    if IdsFit(rs) {
      forall i | 0 <= i < |es| ensures es[i].src <= U32_MAX && es[i].dst <= U32_MAX { assert rs[i] == Reverse(es[i]); }
    }
  }

  /** A base layer always fits back into one. */
  lemma BaseFits(base: Base)
    requires base.Valid()
    ensures Fits(base.Edges())
  {
    hide Base.Tiled, Base.NeighborSlice;
    var es := base.Edges();
    forall i | 0 <= i < |es| ensures es[i].src <= U32_MAX && es[i].dst <= U32_MAX {
      assert es[i].src < Span(es) && es[i].dst < Span(es);
    }
  }

  /** The reversed live edges: row b lists a as often as the iterator yields b for a. */
  lemma ReversedLive(base: Base, rev: Base, o: Overlay, order: seq<Edge>, entries: seq<(Edge, EdgeData)>, a: nat,
                     b: nat)
    requires base.Valid() && o.Valid() && Enumerates(order, o.ins.Keys) && InOrder(entries, order, o.ins)
    requires IndexOf(rev, ReverseAll(LiveEdges(base.Rows(), base.nodeCount, o.del, entries)), None)
    ensures multiset(rev.NeighborSlice(b))[a] == multiset(MergedRow(a, base.NeighborSlice(a), o.del, order))[b]
  {
    hide Base.Tiled, Base.NeighborSlice, KeptEdges, Additions, MergedRow;
    var live := LiveEdges(base.Rows(), base.nodeCount, o.del, entries);
    LiveIsMerged(base, o, order, entries, a);
    TargetsCount(live, a, b);
    TargetsCount(ReverseAll(live), b, a);
    ReverseCount(live, Edge(a, b));
  }

  /** The live edges of n are what the iterator yields for n. */
  lemma LiveIsMerged(base: Base, o: Overlay, order: seq<Edge>, entries: seq<(Edge, EdgeData)>, n: nat)
    requires base.Tiled() && o.Valid() && Enumerates(order, o.ins.Keys) && InOrder(entries, order, o.ins)
    ensures Targets(LiveEdges(base.Rows(), base.nodeCount, o.del, entries), n) ==
            MergedRow(n, base.NeighborSlice(n), o.del, order)
  {
    if n >= base.nodeCount { base.Unlocated(n); }
    assert Keys(entries) == order;
    forall i | 0 <= i < |entries| ensures entries[i].0 !in o.del {
      assert order[i] in order;
    }
    hide Base.Tiled, Base.NeighborSlice;
    LiveRow(base.Rows(), base.nodeCount, o.del, entries, n);
  }
}
