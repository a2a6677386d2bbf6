/** Edge lists grouped by source node.

    An adjacency array is correct when each row lists what `Pick` takes from the edge list it was
    built from, so these functions are the specification of construction, compaction and transpose. */
module EdgeLists {
  import opened Common

  function Dsts(es: seq<Edge>): (ds: seq<nat>)
    ensures |ds| == |es| && forall i :: 0 <= i < |es| ==> ds[i] == es[i].dst
  {
    seq(|es|, i requires 0 <= i < |es| => es[i].dst)
  }

  function ReverseAll(es: seq<Edge>): (rs: seq<Edge>)
    ensures |rs| == |es| && forall i :: 0 <= i < |es| ==> rs[i] == Reverse(es[i])
  {
    seq(|es|, i requires 0 <= i < |es| => Reverse(es[i]))
  }

  /** The values attached to the edges leaving n, in list order. */
  function Pick<T>(es: seq<Edge>, xs: seq<T>, n: nat): (ps: seq<T>)
    requires |xs| == |es|
  {
    if es == [] then []
    else
      var m := |es| - 1;
      var front := Pick(es[..m], xs[..m], n);
      if es[m].src == n then front + [xs[m]] else front
  }

  /** The targets of the edges leaving n, in list order. */
  function Targets(es: seq<Edge>, n: nat): seq<nat> {
    Pick<nat>(es, Dsts(es), n)
  }

  lemma {:induction false} PickAppend<T>(es: seq<Edge>, xs: seq<T>, fs: seq<Edge>, ys: seq<T>, n: nat)
    requires |xs| == |es| && |ys| == |fs|
    ensures Pick(es + fs, xs + ys, n) == Pick(es, xs, n) + Pick(fs, ys, n)
  {
    if fs == [] {
      assert es + fs == es && xs + ys == xs;
    } else {
      var m := |fs| - 1;
      PickAppend(es, xs, fs[..m], ys[..m], n);
      assert (es + fs)[..|es| + m] == es + fs[..m];
      assert (xs + ys)[..|es| + m] == xs + ys[..m];
    }
  }

  lemma TargetsAppend(es: seq<Edge>, fs: seq<Edge>, n: nat)
    ensures Targets(es + fs, n) == Targets(es, n) + Targets(fs, n)
  {
    assert Dsts(es + fs) == Dsts(es) + Dsts(fs);
    PickAppend(es, Dsts(es), fs, Dsts(fs), n);
  }

  lemma {:induction false} PickNone<T>(es: seq<Edge>, xs: seq<T>, n: nat)
    requires |xs| == |es| && forall e :: e in es ==> e.src != n
    ensures Pick(es, xs, n) == []
  {
    if es == [] {
    } else {
      PickNone(es[..|es| - 1], xs[..|es| - 1], n);
    }
  }

  lemma {:induction false} PickAll<T>(es: seq<Edge>, xs: seq<T>, n: nat)
    requires |xs| == |es| && forall i :: 0 <= i < |es| ==> es[i].src == n
    ensures Pick(es, xs, n) == xs
  {
    if es == [] {
    } else {
      PickAll(es[..|es| - 1], xs[..|es| - 1], n);
    }
  }

  lemma TargetsOne(e: Edge, n: nat)
    ensures Targets([e], n) == if e.src == n then [e.dst] else []
  {
    if e.src == n { PickAll([e], Dsts([e]), n); } else { PickNone([e], Dsts([e]), n); }
  }

  /** How often t occurs in row n is how often the edge (n, t) occurs in the list. */
  lemma {:induction false} TargetsCount(es: seq<Edge>, n: nat, t: nat)
    ensures multiset(Targets(es, n))[t] == multiset(es)[Edge(n, t)]
  {
    if es == [] {
    } else {
      var m := |es| - 1;
      TargetsCount(es[..m], n, t);
      assert Dsts(es)[..m] == Dsts(es[..m]);
      assert es == es[..m] + [es[m]];
    }
  }

  lemma TargetsMember(es: seq<Edge>, n: nat, t: nat)
    ensures t in Targets(es, n) <==> Edge(n, t) in es
  {
    TargetsCount(es, n, t);
    assert t in multiset(Targets(es, n)) <==> Edge(n, t) in multiset(es);
  }

  lemma {:induction false} ReverseCount(es: seq<Edge>, e: Edge)
    ensures multiset(ReverseAll(es))[Reverse(e)] == multiset(es)[e]
  {
    if es == [] {
    } else {
      var m := |es| - 1;
      ReverseCount(es[..m], e);
      assert ReverseAll(es) == ReverseAll(es[..m]) + [Reverse(es[m])];
      assert es == es[..m] + [es[m]];
    }
  }

  // ----- the node range an edge list spans

  /** One past the largest endpoint; 0 for no edges. */
  function Span(es: seq<Edge>): (n: nat)
    ensures forall i :: 0 <= i < |es| ==> es[i].src < n && es[i].dst < n
    ensures n > 0 ==> exists i :: 0 <= i < |es| && (es[i].src == n - 1 || es[i].dst == n - 1)
  {
    if es == [] then 0
    else
      var m := |es| - 1;
      var s := Span(es[..m]);
      assert forall i :: 0 <= i < m ==> es[..m][i] == es[i];
      var e := es[m];
      if e.src >= s && e.src >= e.dst then e.src + 1 else if e.dst >= s then e.dst + 1 else s
  }

  lemma SpanIs(es: seq<Edge>, n: nat)
    requires forall i :: 0 <= i < |es| ==> es[i].src < n && es[i].dst < n
    requires n > 0 ==> exists i :: 0 <= i < |es| && (es[i].src == n - 1 || es[i].dst == n - 1)
    ensures Span(es) == n
  {
  }

  lemma SpanReverse(es: seq<Edge>)
    ensures Span(ReverseAll(es)) == Span(es)
  {
    var rs := ReverseAll(es);
    forall i | 0 <= i < |rs| ensures rs[i].src < Span(es) && rs[i].dst < Span(es) { assert rs[i] == Reverse(es[i]); }
    if Span(es) > 0 {
      var i :| 0 <= i < |es| && (es[i].src == Span(es) - 1 || es[i].dst == Span(es) - 1);
      assert rs[i] == Reverse(es[i]);
    }
    SpanIs(rs, Span(es));
  }

  // ----- listing a graph row by row

  function RowEdges(src: nat, row: seq<nat>): (es: seq<Edge>)
    ensures |es| == |row| && forall i :: 0 <= i < |row| ==> es[i] == Edge(src, row[i])
  {
    seq(|row|, i requires 0 <= i < |row| => Edge(src, row[i]))
  }

  /** The values attached to the targets of `src` that are not tombstoned. */
  function Keep<T>(src: nat, row: seq<nat>, xs: seq<T>, del: set<Edge>): (ks: seq<T>)
    requires |xs| == |row|
  {
    if row == [] then []
    else
      var m := |row| - 1;
      var front := Keep(src, row[..m], xs[..m], del);
      if Edge(src, row[m]) in del then front else front + [xs[m]]
  }

  /** Every edge of nodes 0..n that is not tombstoned, in CSR order. */
  ghost function KeptEdges(adj: nat -> seq<nat>, del: set<Edge>, n: nat): seq<Edge> {
    if n == 0 then []
    else KeptEdges(adj, del, n - 1) + RowEdges(n - 1, Keep<nat>(n - 1, adj(n - 1), adj(n - 1), del))
  }

  /** The values attached to KeptEdges. */
  ghost function KeptValues<T>(adj: nat -> seq<nat>, vals: nat -> seq<T>, del: set<Edge>, n: nat): seq<T>
    requires forall i :: 0 <= i < n ==> |vals(i)| == |adj(i)|
  {
    if n == 0 then []
    else KeptValues(adj, vals, del, n - 1) + Keep(n - 1, adj(n - 1), vals(n - 1), del)
  }

  lemma {:induction false} KeepLength<T, U>(src: nat, row: seq<nat>, xs: seq<T>, ys: seq<U>, del: set<Edge>)
    requires |xs| == |row| == |ys|
    ensures |Keep(src, row, xs, del)| == |Keep(src, row, ys, del)|
  {
    if row == [] {
    } else {
      KeepLength(src, row[..|row| - 1], xs[..|row| - 1], ys[..|row| - 1], del);
    }
  }

  lemma {:induction false} KeptLength<T>(adj: nat -> seq<nat>, vals: nat -> seq<T>, del: set<Edge>, n: nat)
    requires forall i :: 0 <= i < n ==> |vals(i)| == |adj(i)|
    ensures |KeptValues(adj, vals, del, n)| == |KeptEdges(adj, del, n)|
    decreases n
  {
    hide Keep;
    if n == 0 {
    } else {
      KeptLength(adj, vals, del, n - 1);
      KeepLength(n - 1, adj(n - 1), vals(n - 1), adj(n - 1), del);
    }
  }

  /** Row n of the kept edges is row n of the graph without its tombstoned targets. */
  lemma {:induction false} KeptPick<T>(adj: nat -> seq<nat>, vals: nat -> seq<T>, del: set<Edge>, m: nat, n: nat)
    requires forall i :: 0 <= i < m ==> |vals(i)| == |adj(i)|
    ensures |KeptValues(adj, vals, del, m)| == |KeptEdges(adj, del, m)|
    ensures Pick(KeptEdges(adj, del, m), KeptValues(adj, vals, del, m), n) ==
            if n < m then Keep(n, adj(n), vals(n), del) else []
    decreases m
  {
    KeptLength(adj, vals, del, m);
    if m == 0 {
    } else {
      var k := m - 1;
      KeptPick(adj, vals, del, k, n);
      KeepLength(k, adj(k), vals(k), adj(k), del);
      var es := RowEdges(k, Keep<nat>(k, adj(k), adj(k), del));
      var xs := Keep(k, adj(k), vals(k), del);
      PickAppend(KeptEdges(adj, del, k), KeptValues(adj, vals, del, k), es, xs, n);
      if n == k { PickAll(es, xs, n); } else { PickNone(es, xs, n); }
    }
  }

  lemma DstsAppendRow(es: seq<Edge>, src: nat, row: seq<nat>)
    ensures Dsts(es + RowEdges(src, row)) == Dsts(es) + row
  {
  }

  lemma {:induction false} KeptDsts(adj: nat -> seq<nat>, del: set<Edge>, m: nat)
    ensures Dsts(KeptEdges(adj, del, m)) == KeptValues(adj, adj, del, m)
    decreases m
  {
    hide Keep;
    if m == 0 {
    } else {
      KeptDsts(adj, del, m - 1);
      DstsAppendRow(KeptEdges(adj, del, m - 1), m - 1, Keep<nat>(m - 1, adj(m - 1), adj(m - 1), del));
    }
  }

  lemma KeptTargets(adj: nat -> seq<nat>, del: set<Edge>, m: nat, n: nat)
    ensures Targets(KeptEdges(adj, del, m), n) == if n < m then Keep<nat>(n, adj(n), adj(n), del) else []
  {
    KeptDsts(adj, del, m);
    KeptPick(adj, adj, del, m, n);
  }

  lemma {:induction false} KeepNothingDeleted<T>(src: nat, row: seq<nat>, xs: seq<T>)
    requires |xs| == |row|
    ensures Keep(src, row, xs, {}) == xs
  {
    if row == [] {
    } else {
      KeepNothingDeleted(src, row[..|row| - 1], xs[..|row| - 1]);
    }
  }

  lemma {:induction false} KeepCount(src: nat, row: seq<nat>, del: set<Edge>, t: nat)
    ensures multiset(Keep<nat>(src, row, row, del))[t] == if Edge(src, t) in del then 0 else multiset(row)[t]
  {
    if row == [] {
    } else {
      var m := |row| - 1;
      assert row == row[..m] + [row[m]];
      KeepCount(src, row[..m], del, t);
    }
  }

  lemma KeepMember(src: nat, row: seq<nat>, del: set<Edge>, t: nat)
    ensures t in Keep<nat>(src, row, row, del) <==> t in row && Edge(src, t) !in del
  {
    KeepCount(src, row, del, t);
    assert t in multiset(Keep<nat>(src, row, row, del)) <==> t in Keep<nat>(src, row, row, del);
    assert t in multiset(row) <==> t in row;
  }

  lemma {:induction false} KeepSnoc<T>(src: nat, row: seq<nat>, xs: seq<T>, del: set<Edge>, i: nat)
    requires |xs| == |row| && i < |row|
    ensures Keep(src, row[..i + 1], xs[..i + 1], del) ==
            Keep(src, row[..i], xs[..i], del) + if Edge(src, row[i]) in del then [] else [xs[i]]
  {
    assert row[..i + 1][..i] == row[..i] && xs[..i + 1][..i] == xs[..i];
  }
}
