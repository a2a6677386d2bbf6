/** `GraphTraversalExec`: which kernel answers a traversal request, over which topology. */
module Traversal {
  import opened Admission
  import opened BaseLaws
  import opened Bfs
  import opened Common
  import opened Csr
  import opened Delta
  import opened DoBfs
  import opened Graph
  import opened Hops
  import opened Hybrid
  import opened SearchLaws
  import opened Simd
  import opened Words

  datatype Algorithm = BreadthFirst | DepthFirst | Dijkstra

  datatype Direction = Outgoing | Incoming | Both

  datatype TraversalSpec = TraversalSpec(
    start: seq<nat>, maxDepth: nat, maxNodes: Option<nat>, algorithm: Algorithm, direction: Direction)

  class GraphTraversalExec {
    const graph: CsrGraph
    const reverse: Option<CsrGraph>
    const spec: TraversalSpec

    constructor (graph: CsrGraph, reverse: Option<CsrGraph>, spec: TraversalSpec)
      ensures this.graph == graph && this.reverse == reverse && this.spec == spec
    {
      this.graph, this.reverse, this.spec := graph, reverse, spec;
    }

    ghost predicate Valid()
      reads graph.delta, if reverse.Some? then {reverse.value.delta} else {}
    {
      && graph.Valid() && FitsMemory(graph)
      && (reverse.Some? ==> reverse.value.Valid() && FitsMemory(reverse.value))
    }

    /** `validate_spec`: breadth-first only, and incoming needs the reverse graph. */
    method ValidateSpec() returns (ok: bool)
      ensures ok <==>
                && spec.algorithm == BreadthFirst
                && (spec.direction == Outgoing || (spec.direction == Incoming && reverse.Some?))
    {
      if spec.algorithm != BreadthFirst { return false; }
      match spec.direction
      case Outgoing => return true;
      case Incoming => return reverse.Some?;
      case Both => return false;
    }

    /** Whether an uncapped answer over the topology is exact: only the direction-optimizing kernel, which takes
        one start and a counterpart with the same counts and no delta, reads the counterpart at all. */
    ghost predicate PairSearchesExactly(topology: CsrGraph, counterpart: Option<CsrGraph>)
      requires topology.Valid() && (counterpart.Some? ==> counterpart.value.Valid())
      reads topology.delta, if counterpart.Some? then {counterpart.value.delta} else {}
    {
      (&& counterpart.Some? && |spec.start| == 1
       && topology.base.nodeCount == counterpart.value.base.nodeCount
       && topology.base.edgeCount == counterpart.value.base.edgeCount
       && counterpart.value.delta.View() == EMPTY_OVERLAY) ==>
        SearchesExactly(topology, counterpart.value, spec.start[0], spec.maxDepth)
    }

    /** The result is exact over the topology. */
    ghost predicate FoundExactly(topology: CsrGraph, found: BfsResult)
      requires topology.Valid()
      reads topology.delta
    {
      Exact(topology.Adjacency(), Contained(topology.base, spec.start), spec.maxDepth, found)
    }

    /** `collect_bfs_rows`: direction-optimizing for one uncapped start with a counterpart at hand, the plain
        kernel otherwise or when the pair is refused. An incoming request follows the out-edges of the reverse
        graph, with the graph itself as the counterpart. */
    method CollectBfsRows(maxNodes: nat, backend: Backend)
      returns (ids: seq<nat>, depths: seq<nat>, ghost found: BfsResult)
      requires Valid() && maxNodes <= USIZE_MAX && (spec.direction == Incoming ==> reverse.Some?)
      ensures ids == found.visited && depths == found.depths && Regular(found)
      ensures maxNodes == USIZE_MAX && spec.direction != Incoming ==>
                (FoundExactly(graph, found) <==> PairSearchesExactly(graph, reverse))
      ensures maxNodes == USIZE_MAX && spec.direction == Incoming ==>
                (FoundExactly(reverse.value, found) <==> PairSearchesExactly(reverse.value, Some(graph)))
      ensures maxNodes < USIZE_MAX && spec.direction != Incoming ==>
                Searched(graph, spec.start, spec.maxDepth, maxNodes, found)
      ensures maxNodes < USIZE_MAX && spec.direction == Incoming ==>
                Searched(reverse.value, spec.start, spec.maxDepth, maxNodes, found)
    {
      hide Exact, Regular, Contained, SearchesExactly, Base.Tiled, CsrGraph.Adjacency, Searched;
      if maxNodes == 0 {
        NothingSearched(if spec.direction == Incoming then reverse.value else graph, spec.start, spec.maxDepth);
        return [], [], EMPTY_RESULT;
      }
      var bounded := if maxNodes != USIZE_MAX then Some(maxNodes) else None;
      var forward, rev := graph, reverse;
      if spec.direction == Incoming { forward, rev := reverse.value, Some(graph); }
      var result;
      if rev.Some? && bounded.None? && |spec.start| == 1 {
        var hybrid := BfsDirectionOptimized(forward, rev.value, spec.start[0], spec.maxDepth, backend);
        if hybrid.Success? {
          assert spec.start == [spec.start[0]];
          result := hybrid.value;
        } else {
          result := BfsBounded(forward, spec.start, spec.maxDepth, bounded, backend);
        }
      } else {
        result := BfsBounded(forward, spec.start, spec.maxDepth, bounded, backend);
      }
      ids, depths, found := result.visited, result.depths, result;
    }

    /** The rows answer the request over the topology. */
    ghost predicate AnswersOver(topology: CsrGraph, rows: (seq<nat>, seq<nat>))
      requires Valid() && (topology == graph || Some(topology) == reverse)
      reads graph.delta, if reverse.Some? then {reverse.value.delta} else {}
    {
      Answers(topology.Adjacency(), Contained(topology.base, spec.start), spec.maxDepth, rows.0, rows.1)
    }

    /** The rows are the first ones of any uncapped plain search over the topology. */
    ghost predicate FirstOver(topology: CsrGraph, cap: nat, rows: (seq<nat>, seq<nat>))
      requires Valid() && (topology == graph || Some(topology) == reverse)
      reads graph.delta, if reverse.Some? then {reverse.value.delta} else {}
    {
      forall full :: Searched(topology, spec.start, spec.maxDepth, USIZE_MAX, full) ==>
        FirstRows(full, cap, rows.0, rows.1)
    }

    /** The rows list who reaches the one start, through the live edges of the graph itself. */
    ghost predicate Reaching(rows: (seq<nat>, seq<nat>))
      requires Valid()
      reads graph.delta, if reverse.Some? then {reverse.value.delta} else {}
    {
      |spec.start| == 1 && LeadTo(graph.Adjacency(), spec.start[0], spec.maxDepth, rows.0, rows.1)
    }

    /** An uncapped incoming request from one node, over a reverse graph that shows the reversed neighbours, or
        one without a delta that does so for its own nodes, self-loops aside. */
    ghost predicate AsksWhoReaches()
      requires Valid()
      reads graph.delta, if reverse.Some? then {reverse.value.delta} else {}
    {
      && Uncapped(spec) && spec.direction == Incoming && |spec.start| == 1
      && reverse.Some? && reverse.value.Contains(spec.start[0])
      && ShowsReversed(graph, reverse.value)
    }

    /** There is no reverse graph, or its base is the transpose of the graph's, or it shows the reversed neighbours. */
    ghost predicate ReverseIsRight()
      requires Valid()
      reads graph.delta, if reverse.Some? then {reverse.value.delta} else {}
    {
      reverse.None? || TransposeOf(graph.base, reverse.value.base) || ShowsReversed(graph, reverse.value)
    }

    /** Nothing but the topology itself is read: no reverse graph, not exactly one start, or a pair whose node or
        edge counts differ, which the direction-optimizing kernel refuses. */
    predicate PlainOnly() {
      || reverse.None? || |spec.start| != 1
      || graph.base.nodeCount != reverse.value.base.nodeCount || graph.base.edgeCount != reverse.value.base.edgeCount
    }

    /** `execute`: the rows of a valid request. An outgoing request is answered over the graph, whatever its
        delta, an incoming one over the reverse graph. Uncapped rows are right exactly when the pair searches
        exactly, which a graph and its transpose always do; capped rows are the first ones of the uncapped
        plain search. */
    method Execute(backend: Backend) returns (rows: Option<(seq<nat>, seq<nat>)>)
      requires Valid() && (spec.maxNodes.Some? ==> spec.maxNodes.value <= USIZE_MAX)
      ensures rows.Some? <==>
                && spec.algorithm == BreadthFirst
                && (spec.direction == Outgoing || (spec.direction == Incoming && reverse.Some?))
      ensures rows.Some? && Uncapped(spec) && spec.direction == Outgoing ==>
                (AnswersOver(graph, rows.value) <==> PairSearchesExactly(graph, reverse))
      ensures rows.Some? && Uncapped(spec) && spec.direction == Incoming ==>
                (AnswersOver(reverse.value, rows.value) <==> PairSearchesExactly(reverse.value, Some(graph)))
      ensures rows.Some? && Uncapped(spec) && spec.direction == Outgoing && ReverseIsRight() ==>
                var (ids, depths) := rows.value;
                Answers(graph.Adjacency(), Contained(graph.base, spec.start), spec.maxDepth, ids, depths)
      ensures rows.Some? && Uncapped(spec) && PlainOnly() ==>
                AnswersOver(if spec.direction == Incoming then reverse.value else graph, rows.value)
      ensures rows.Some? && AsksWhoReaches() ==> Reaching(rows.value)
      ensures rows.Some? && !Uncapped(spec) && spec.direction == Outgoing ==>
                FirstOver(graph, spec.maxNodes.value, rows.value)
      ensures rows.Some? && !Uncapped(spec) && spec.direction == Incoming ==>
                FirstOver(reverse.value, spec.maxNodes.value, rows.value)
    {
      hide Exact, Regular, Contained, Answers, PairSearchesExactly, Reversed, CsrGraph.Adjacency, CsrGraph.Valid,
           Searched, LeadTo, FirstRows, ReverseIsRight, ShowsReversed;
      var ok := ValidateSpec();
      if !ok { return None; }
      var maxNodes := if spec.maxNodes.Some? then spec.maxNodes.value else USIZE_MAX;
      var ids, depths, found := CollectBfsRows(maxNodes, backend);
      rows := Some((ids, depths));
      ghost var topology := if spec.direction == Incoming then reverse.value else graph;
      if maxNodes == USIZE_MAX {
        ExactAnswersIff(topology.Adjacency(), Contained(topology.base, spec.start), spec.maxDepth, found);
        PlainPairs();
        if spec.direction == Outgoing {
          OutgoingSearchesExactly();
        } else if AsksWhoReaches() {
          ReversedSearchesExactly(reverse.value, graph);
          SingleStart(reverse.value.base, spec.start[0]);
          assert spec.start == [spec.start[0]];
          ReachingAnswers(graph, reverse.value, spec.start[0], spec.maxDepth, ids, depths);
        }
      } else {
        forall full | Searched(topology, spec.start, spec.maxDepth, USIZE_MAX, full)
          ensures FirstRows(full, maxNodes, ids, depths)
        {
          CappedRows(topology, spec.start, spec.maxDepth, maxNodes, full, found);
        }
      }
    }

    lemma PlainPairs()
      requires Valid()
      ensures PlainOnly() ==> PairSearchesExactly(graph, reverse)
      ensures PlainOnly() && reverse.Some? ==> PairSearchesExactly(reverse.value, Some(graph))
    {
      hide SearchesExactly;
    }

    /** An outgoing request over a graph and its transpose, or a graph that shows its neighbours reversed,
        searches exactly. */
    lemma OutgoingSearchesExactly()
      requires Valid()
      ensures ReverseIsRight() ==> PairSearchesExactly(graph, reverse)
    {
      hide TransposeOf, ShowsReversed, DirectionsMatch;
      if reverse.Some? {
        if TransposeOf(graph.base, reverse.value.base) && |spec.start| == 1 {
          TransposeMatches(graph.base, reverse.value.base, spec.start[0], spec.maxDepth);
        } else if ShowsReversed(graph, reverse.value) {
          ReversedSearchesExactly(graph, reverse.value);
        }
      }
    }

    /** Graphs that show each other's neighbours reversed search exactly, in either role. */
    lemma ReversedSearchesExactly(topology: CsrGraph, counterpart: CsrGraph)
      requires topology.Valid() && counterpart.Valid()
      requires ShowsReversed(counterpart, topology) || ShowsReversed(topology, counterpart)
      ensures PairSearchesExactly(topology, Some(counterpart))
    {
      hide Base.Tiled, Base.NeighborSlice, DirectionsMatch, CsrGraph.Adjacency;
      var n := topology.base.nodeCount;
      if counterpart.delta.IsEmpty() && topology.delta.IsEmpty() && |spec.start| == 1 &&
         counterpart.base.nodeCount == n
      {
        CleanAdjacency(topology);
        CleanAdjacency(counterpart);
        RowsStayBelow(topology.base);
        RowsStayBelow(counterpart.base);
        if ShowsReversed(counterpart, topology) {
          OffLoops(counterpart.Adjacency(), topology.Adjacency(), counterpart.base.Rows(), topology.base.Rows(), n);
        } else {
          OffLoops(topology.Adjacency(), counterpart.Adjacency(), topology.base.Rows(), counterpart.base.Rows(), n);
        }
        ReversedMatches(topology.base.Rows(), counterpart.base.Rows(), n, spec.start[0], spec.maxDepth);
      }
    }
  }

  /** The reverse graph shows the neighbours of the graph reversed, at least for its own nodes. */
  ghost predicate ShowsReversed(graph: CsrGraph, reverse: CsrGraph)
    requires graph.Valid() && reverse.Valid()
    reads graph.delta, reverse.delta
  {
    || Reversed(graph.Adjacency(), reverse.Adjacency())
    || (reverse.delta.IsEmpty() && ReversedInto(graph.Adjacency(), reverse.Adjacency(), reverse.base.nodeCount))
  }

  lemma OffLoops(adj: Adjacency, rev: Adjacency, adj1: Adjacency, rev1: Adjacency, n: nat)
    requires Reversed(adj, rev) || ReversedInto(adj, rev, n)
    requires forall x: nat :: adj(x) == adj1(x) && rev(x) == rev1(x)
    requires NodesBelow(adj1, n) && NodesBelow(rev1, n)
    ensures ReversedOffLoops(rev1, adj1) && ReversedOffLoops(adj1, rev1)
  {
  }

  predicate Uncapped(spec: TraversalSpec) { spec.maxNodes.None? || spec.maxNodes.value == USIZE_MAX }

  lemma NothingSearched(g: CsrGraph, starts: seq<nat>, maxDepth: nat)
    requires g.Valid()
    ensures Regular(EMPTY_RESULT) && Searched(g, starts, maxDepth, 0, EMPTY_RESULT)
  {
    hide CsrGraph.Valid, CsrGraph.Adjacency, Queue;
  }

  /** The rows list, once each and nearest first, the nodes within maxDepth hops with their distances. */
  ghost predicate Answers(adj: Adjacency, roots: seq<nat>, maxDepth: nat, ids: seq<nat>, depths: seq<nat>) {
    && |ids| == |depths| && Distinct(ids)
    && (forall v: nat :: v in ids <==> Within(adj, roots, v, maxDepth))
    && (forall i :: 0 <= i < |ids| ==> depths[i] <= maxDepth && AtDist(adj, roots, ids[i], depths[i]))
    && (forall i, j :: 0 <= i <= j < |ids| ==> depths[i] <= depths[j])
  }

  /** The rows list, once each, the nodes with a path of at most maxDepth edges to x, with the length of the
      shortest one. */
  ghost predicate LeadTo(adj: Adjacency, x: nat, maxDepth: nat, ids: seq<nat>, depths: seq<nat>) {
    && |ids| == |depths| && Distinct(ids)
    && (forall v: nat :: v in ids <==> Within(adj, [v], x, maxDepth))
    && (forall i :: 0 <= i < |ids| ==> AtDist(adj, [ids[i]], x, depths[i]))
  }

  /** The first min(cap, n) rows of a search result. */
  ghost predicate FirstRows(full: BfsResult, cap: nat, ids: seq<nat>, depths: seq<nat>) {
    && |ids| == |depths| && |full.visited| == |full.depths|
    && |ids| == (if cap <= |full.visited| then cap else |full.visited|)
    && ids == full.visited[..|ids|] && depths == full.depths[..|ids|]
  }

  /** A regular result is exact exactly when its rows answer the request. */
  lemma ExactAnswersIff(adj: Adjacency, roots: seq<nat>, maxDepth: nat, r: BfsResult)
    requires Regular(r)
    ensures Exact(adj, roots, maxDepth, r) <==> Answers(adj, roots, maxDepth, r.visited, r.depths)
  {
    if Exact(adj, roots, maxDepth, r) {
      hide Exact;
      ExactMeans(adj, roots, maxDepth, r);
    }
    if Answers(adj, roots, maxDepth, r.visited, r.depths) { AnswersAreExact(adj, roots, maxDepth, r); }
  }

  lemma AnswersAreExact(adj: Adjacency, roots: seq<nat>, maxDepth: nat, r: BfsResult)
    requires Regular(r) && Answers(adj, roots, maxDepth, r.visited, r.depths)
    ensures Exact(adj, roots, maxDepth, r)
  {
    hide AtDist, Within;
    forall d, v: nat
      ensures 0 <= d < |r.levels| && v in r.levels[d] <==> d >= 0 && d <= maxDepth && AtDist(adj, roots, v, d)
    {
      if 0 <= d < |r.levels| && v in r.levels[d] {
        var i := FlattenFind(r.levels, d, v);
      }
      if 0 <= d <= maxDepth && AtDist(adj, roots, v, d) { AnsweredAt(adj, roots, maxDepth, r, d, v); }
    }
    forall d | 0 <= d < |r.levels| ensures IsLevel(adj, roots, d, r.levels[d]) && d <= maxDepth {
      FlattenDistinct(r.levels, d);
      assert r.levels[d][0] in r.levels[d];
    }
  }

  lemma AnsweredAt(adj: Adjacency, roots: seq<nat>, maxDepth: nat, r: BfsResult, d: nat, v: nat)
    requires Regular(r) && Answers(adj, roots, maxDepth, r.visited, r.depths)
    requires d <= maxDepth && AtDist(adj, roots, v, d)
    ensures d < |r.levels| && v in r.levels[d]
  {
    assert Within(adj, roots, v, maxDepth);
    var i :| 0 <= i < |r.visited| && r.visited[i] == v;
    DistUnique(adj, roots, v, d, r.depths[i]);
    FlattenAt(r.levels, i);
  }

  /** Capped rows are the first rows of the uncapped search. */
  lemma CappedRows(g: CsrGraph, starts: seq<nat>, maxDepth: nat, cap: nat, full: BfsResult, capped: BfsResult)
    requires g.Valid() && FitsMemory(g) && Searched(g, starts, maxDepth, USIZE_MAX, full)
    requires Searched(g, starts, maxDepth, cap, capped)
    ensures FirstRows(full, cap, capped.visited, capped.depths)
  {
    hide Queue, Contained, CsrGraph.Valid, CsrGraph.Adjacency, Regular;
    CappedIsPrefix(g, starts, maxDepth, cap, full, capped);
    EntriesAreRows(full, cap, capped);
  }

  lemma EntriesAreRows(full: BfsResult, cap: nat, capped: BfsResult)
    requires |full.visited| == |full.depths| && |capped.visited| == |capped.depths|
    requires Entries(capped) == Trunc(Entries(full), cap)
    ensures FirstRows(full, cap, capped.visited, capped.depths)
  {
    forall i | 0 <= i < |capped.visited|
      ensures capped.visited[i] == full.visited[i] && capped.depths[i] == full.depths[i]
    {
      assert Entries(capped)[i] == Entries(full)[i];
    }
  }

  /** "Who can reach x": an exact answer over the reversed neighbours lists exactly the nodes with a path to x
      of at most maxDepth edges, each with the length of its shortest one. */
  lemma IncomingAnswers(adj: Adjacency, rev: Adjacency, x: nat, maxDepth: nat, ids: seq<nat>, depths: seq<nat>)
    requires Reversed(adj, rev) && Answers(rev, [x], maxDepth, ids, depths)
    ensures LeadTo(adj, x, maxDepth, ids, depths)
  {
    hide Distinct, Within, AtDist, Reversed;
    forall i | 0 <= i < |ids| ensures AtDist(adj, [ids[i]], x, depths[i]) {
      ReversedDist(adj, rev, x, ids[i], depths[i]);
    }
    forall v: nat ensures v in ids <==> Within(adj, [v], x, maxDepth) {
      WithinReversed(adj, rev, x, v, maxDepth);
    }
  }

  // ----- reverse graphs that are only partly right

  /** rev holds the reversed edges into its own nodes, self-loops aside. */
  ghost predicate ReversedInto(adj: Adjacency, rev: Adjacency, n: nat) {
    forall x: nat, v: nat :: x < n && v != x ==> (v in rev(x) <==> x in adj(v))
  }

  lemma ReachingAnswers(graph: CsrGraph, reverse: CsrGraph, x: nat, maxDepth: nat, ids: seq<nat>, depths: seq<nat>)
    requires graph.Valid() && reverse.Valid() && ShowsReversed(graph, reverse) && reverse.Contains(x)
    requires Answers(reverse.Adjacency(), [x], maxDepth, ids, depths)
    ensures LeadTo(graph.Adjacency(), x, maxDepth, ids, depths)
  {
    hide Base.Tiled, Base.NeighborSlice, CsrGraph.Adjacency, Answers, LeadTo, Reversed, ReversedInto;
    if Reversed(graph.Adjacency(), reverse.Adjacency()) {
      IncomingAnswers(graph.Adjacency(), reverse.Adjacency(), x, maxDepth, ids, depths);
    } else {
      CleanAdjacency(reverse);
      RowsStayBelow(reverse.base);
      assert NodesBelow(reverse.Adjacency(), reverse.base.nodeCount);
      AnswersLead(graph.Adjacency(), reverse.Adjacency(), reverse.base.nodeCount, x, maxDepth, ids, depths);
    }
  }

  lemma WithinStep(adj: Adjacency, starts: seq<nat>, v: nat, k: nat)
    ensures Within(adj, starts, v, k + 1) <==>
            Within(adj, starts, v, k) || exists u: nat :: Within(adj, starts, u, k) && v in adj(u)
  {
    if Within(adj, starts, v, k + 1) && !Within(adj, starts, v, k) {
      var u: nat :| ReachIn(adj, starts, u, k) && v in adj(u);
      assert Within(adj, starts, u, k);
    }
    if u: nat :| Within(adj, starts, u, k) && v in adj(u) {
      var j: nat :| j <= k && ReachIn(adj, starts, u, j);
      assert ReachIn(adj, starts, v, j + 1);
    }
  }

  lemma WithinFirst(adj: Adjacency, v: nat, x: nat, k: nat)
    ensures Within(adj, [v], x, k + 1) <==> v == x || exists w: nat :: w in adj(v) && Within(adj, [w], x, k)
  {
    assert ReachIn(adj, [v], x, 0) <==> v == x;
    if Within(adj, [v], x, k + 1) && v != x {
      var j: nat :| j <= k + 1 && ReachIn(adj, [v], x, j);
      FirstEdge(adj, v, x, j - 1);
      var w: nat :| w in adj(v) && ReachIn(adj, [w], x, j - 1);
      assert Within(adj, [w], x, k);
    }
    if w: nat :| w in adj(v) && Within(adj, [w], x, k) {
      var j: nat :| j <= k && ReachIn(adj, [w], x, j);
      FirstEdge(adj, v, x, j);
      assert ReachIn(adj, [v], x, j + 1);
    }
  }

  lemma {:induction false} WithinInto(adj: Adjacency, rev: Adjacency, n: nat, x: nat, v: nat, k: nat)
    requires ReversedInto(adj, rev, n) && NodesBelow(rev, n) && x < n
    ensures Within(rev, [x], v, k) <==> Within(adj, [v], x, k)
    ensures Within(rev, [x], v, k) ==> v < n
    decreases k
  {
    hide Within;
    if k == 0 {
      ZeroHops(rev, x);
      ZeroHops(adj, v);
    } else {
      var j := k - 1;
      WithinStep(rev, [x], v, j);
      WithinFirst(adj, v, x, j);
      WithinInto(adj, rev, n, x, v, j);
      forall u: nat ensures Within(rev, [x], u, j) <==> Within(adj, [u], x, j)
                    ensures Within(rev, [x], u, j) ==> u < n
      {
        WithinInto(adj, rev, n, x, u, j);
      }
      WithinStart(rev, x, j);
      WithinMore(adj, v, x, j);
      if Within(rev, [x], v, k) && !Within(rev, [x], v, j) {
        var u: nat :| Within(rev, [x], u, j) && v in rev(u);
        assert u in adj(v) && Within(adj, [u], x, j);
      }
      if w: nat :| w in adj(v) && Within(adj, [w], x, j) {
        assert Within(rev, [x], w, j) && w < n && (w != v ==> v in rev(w));
      }
    }
  }

  lemma WithinStart(adj: Adjacency, x: nat, k: nat)
    ensures Within(adj, [x], x, k)
  {
    assert ReachIn(adj, [x], x, 0);
  }

  lemma WithinMore(adj: Adjacency, v: nat, x: nat, k: nat)
    ensures Within(adj, [v], x, k) ==> Within(adj, [v], x, k + 1)
  {
  }

  lemma DistFromWithin(adj: Adjacency, starts: seq<nat>, v: nat, k: nat)
    ensures AtDist(adj, starts, v, k) <==> Within(adj, starts, v, k) && (k > 0 ==> !Within(adj, starts, v, k - 1))
  {
  }

  lemma AnswersLead(adj: Adjacency, rev: Adjacency, n: nat, x: nat, maxDepth: nat, ids: seq<nat>, depths: seq<nat>)
    requires ReversedInto(adj, rev, n) && NodesBelow(rev, n) && x < n
    requires Answers(rev, [x], maxDepth, ids, depths)
    ensures LeadTo(adj, x, maxDepth, ids, depths)
  {
    hide Within, AtDist, ReversedInto, NodesBelow, Distinct;
    forall v: nat, k: nat ensures Within(rev, [x], v, k) <==> Within(adj, [v], x, k) {
      WithinInto(adj, rev, n, x, v, k);
    }
    forall i | 0 <= i < |ids| ensures AtDist(adj, [ids[i]], x, depths[i]) {
      DistFromWithin(rev, [x], ids[i], depths[i]);
      DistFromWithin(adj, [ids[i]], x, depths[i]);
    }
  }

  /** The rows an exact search of depth one gives. */
  lemma OneStepRows(rev: Adjacency, n: nat, x: nat) returns (ids: seq<nat>, depths: seq<nat>)
    requires NodesBelow(rev, n)
    ensures Answers(rev, [x], 1, ids, depths)
  {
    var next := Select((v: nat) => v != x && v in rev(x), n);
    ids, depths := [x] + next, [0] + seq(|next|, _ => 1);
    ZeroHops(rev, x);
    forall v: nat ensures v in ids <==> Within(rev, [x], v, 1) {
      WithinOne(rev, x, v);
      assert v in ids <==> v == x || v in next;
    }
    forall i | 0 <= i < |ids| ensures AtDist(rev, [x], ids[i], depths[i]) {
      assert i > 0 ==> ids[i] in next;
      DistFromWithin(rev, [x], ids[i], depths[i]);
      WithinOne(rev, x, ids[i]);
    }
  }

  /** Exact answers over a reverse graph are right for every incoming request to its own nodes, at every depth,
      if and only if it holds the reversed edges into them, self-loops aside. A memoized transpose stops doing
      so with the first later write that adds or removes an edge into one of its nodes. */
  lemma IncomingRightIff(adj: Adjacency, rev: Adjacency, n: nat)
    requires NodesBelow(rev, n)
    ensures (forall x: nat, maxDepth: nat, ids: seq<nat>, depths: seq<nat> ::
               x < n && Answers(rev, [x], maxDepth, ids, depths) ==> LeadTo(adj, x, maxDepth, ids, depths)) <==>
            ReversedInto(adj, rev, n)
  {
    hide Answers, Within, AtDist, NodesBelow;
    if ReversedInto(adj, rev, n) {
      forall x: nat, maxDepth: nat, ids: seq<nat>, depths: seq<nat> | x < n && Answers(rev, [x], maxDepth, ids, depths)
        ensures LeadTo(adj, x, maxDepth, ids, depths)
      {
        AnswersLead(adj, rev, n, x, maxDepth, ids, depths);
      }
    }
    if forall x: nat, maxDepth: nat, ids: seq<nat>, depths: seq<nat> ::
         x < n && Answers(rev, [x], maxDepth, ids, depths) ==> LeadTo(adj, x, maxDepth, ids, depths)
    {
      forall x: nat, v: nat | x < n && v != x ensures v in rev(x) <==> x in adj(v) {
        var ids, depths := OneStepRows(rev, n, x);
        AnswersAreWithin(rev, x, ids, depths);
        assert LeadTo(adj, x, 1, ids, depths);
        WithinOne(rev, x, v);
        WithinOne(adj, v, x);
      }
    }
  }

  lemma AnswersAreWithin(adj: Adjacency, x: nat, ids: seq<nat>, depths: seq<nat>)
    requires Answers(adj, [x], 1, ids, depths)
    ensures forall v: nat :: v in ids <==> Within(adj, [x], v, 1)
  {
    hide Within, AtDist;
  }

  /** A transpose memoized before edge (0, 1) was written: whoever asks it who reaches 1 in one hop is not told
      of 0, which does. */
  lemma StaleTransposeMisses(adj: Adjacency, stale: Adjacency, ids: seq<nat>, depths: seq<nat>)
    requires 1 in adj(0) && 0 !in stale(1)
    requires Answers(stale, [1], 1, ids, depths)
    ensures 0 !in ids && Within(adj, [0], 1, 1)
  {
    hide Answers, Within;
    AnswersAreWithin(stale, 1, ids, depths);
    WithinOne(stale, 1, 0);
    WithinOne(adj, 0, 1);
  }

  lemma WithinReversed(adj: Adjacency, rev: Adjacency, x: nat, v: nat, maxDepth: nat)
    requires Reversed(adj, rev)
    ensures Within(rev, [x], v, maxDepth) <==> Within(adj, [v], x, maxDepth)
  {
    hide Reversed;
    if Within(rev, [x], v, maxDepth) {
      var k: nat :| k <= maxDepth && ReachIn(rev, [x], v, k);
      ReversedWalk(adj, rev, x, v, k);
    }
    if Within(adj, [v], x, maxDepth) {
      var k: nat :| k <= maxDepth && ReachIn(adj, [v], x, k);
      ReversedWalk(adj, rev, x, v, k);
    }
  }
}
