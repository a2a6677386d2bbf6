/** The queue-based breadth-first search and its visited tracker. */
module Bfs {
  import opened Admission
  import opened Builder
  import opened Common
  import opened Csr
  import opened Delta
  import opened Graph
  import opened Hops
  import opened Merge
  import opened Simd
  import opened Words

  /** `Visited`: a bitset for ids below `capacity`, a set for the ids beyond it. */
  class Visited {
    const words: array<u64>
    const capacity: nat
    var overflow: set<nat>

    ghost predicate Valid()
      reads this
    {
      words.Length == DivCeil(capacity, 64)
    }

    ghost predicate Seen(n: nat)
      reads this, words
    {
      if n < capacity then Marked(words[..], n) else n in overflow
    }

    constructor (nodeCount: nat)
      ensures Valid() && capacity == nodeCount && fresh(words)
      ensures forall n: nat :: !Seen(n)
    {
      capacity, overflow := nodeCount, {};
      words := new u64[DivCeil(nodeCount, 64)](_ => 0);
      new;
      forall n: nat ensures !Seen(n) { ZeroBit(n % 64); }
    }

    /** Marks `node`; says whether it was unmarked before. */
    method TestAndSet(node: nat) returns (wasUnset: bool)
      requires Valid()
      modifies this, words
      ensures Valid() && wasUnset == !old(Seen(node))
      ensures forall n: nat :: Seen(n) <==> n == node || old(Seen(n))
    {
      if node < capacity {
        InWords(node, capacity);
        var word, bit := node / 64, node % 64;
        AndPow2(words[word], bit);
        wasUnset := And(words[word], Pow2(bit)) == 0;
        SetBit(words, node);
      } else {
        wasUnset := node !in overflow;
        overflow := overflow + {node};
      }
    }
  }

  lemma InWords(n: nat, capacity: nat)
    requires n < capacity
    ensures n / 64 < DivCeil(capacity, 64)
  {
  }

  /** The tracker marks exactly the admitted nodes. */
  ghost predicate Tracks(tracker: Visited, q: seq<Entry>)
    reads tracker, tracker.words
  {
    tracker.Valid() && forall n: nat :: tracker.Seen(n) <==> Has(q, n)
  }

  // ----- admission under a cap

  lemma {:induction false} AdmitPrefix(q: seq<Entry>, ns: seq<nat>, i: nat, depth: nat)
    requires i <= |ns|
    ensures Admit(q, ns[..i], depth) <= Admit(q, ns, depth)
  {
    if i < |ns| {
      AdmitPrefix(q, ns[..|ns| - 1], i, depth);
      assert ns[..|ns| - 1][..i] == ns[..i];
    } else {
      assert ns[..i] == ns;
    }
  }

  /** Once the cap is reached, what is still offered changes nothing. */
  lemma CapReached(q: seq<Entry>, ns: seq<nat>, i: nat, depth: nat, cap: nat)
    requires i <= |ns| && |Trunc(Admit(q, ns[..i], depth), cap)| >= cap
    ensures Trunc(Admit(q, ns, depth), cap) == Trunc(Admit(q, ns[..i], depth), cap)
  {
    AdmitPrefix(q, ns, i, depth);
  }

  /** Offering one more node while below the cap. */
  lemma AdmitOne(q: seq<Entry>, ns: seq<nat>, i: nat, depth: nat, cap: nat)
    requires i < |ns| && |Trunc(Admit(q, ns[..i], depth), cap)| < cap
    ensures var cur := Trunc(Admit(q, ns[..i], depth), cap);
            Trunc(Admit(q, ns[..i + 1], depth), cap) == if Has(cur, ns[i]) then cur else cur + [Entry(ns[i], depth)]
  {
    assert ns[..i + 1][..i] == ns[..i];
  }

  lemma HasSnoc(q: seq<Entry>, e: Entry)
    ensures forall n: nat :: Has(q + [e], n) <==> n == e.node || Has(q, n)
  {
    forall n: nat ensures Has(q + [e], n) <==> n == e.node || Has(q, n) {
      if Has(q, n) {
        var i :| 0 <= i < |q| && q[i].node == n;
        assert (q + [e])[i].node == n;
      }
      assert (q + [e])[|q|] == e;
    }
  }

  /** Pre-filtering drops only nodes that are already admitted. */
  lemma {:induction false} AdmitFiltered(q: seq<Entry>, ns: seq<nat>, words: seq<u64>, depth: nat)
    requires forall n :: n in ns && !IsUnvisited(n, words) ==> Has(q, n)
    ensures Admit(q, Unvisited(ns, words), depth) == Admit(q, ns, depth)
  {
    if ns == [] {
    } else {
      var m := |ns| - 1;
      AdmitFiltered(q, ns[..m], words, depth);
      if IsUnvisited(ns[m], words) {
        assert Unvisited(ns, words)[..|Unvisited(ns, words)| - 1] == Unvisited(ns[..m], words);
      } else {
        assert Unvisited(ns, words) == Unvisited(ns[..m], words);
        AdmitGrows(q, ns[..m], depth);
        assert Has(q, ns[m]);
      }
    }
  }

  /** The admissions of one list, while the cap allows. */
  method AdmitList(tracker: Visited, ns: seq<nat>, depth: nat, cap: nat, admitted0: nat, ghost q: seq<Entry>)
    returns (pushed: seq<Entry>, admitted: nat)
    requires Tracks(tracker, q) && admitted0 == |q| <= cap
    modifies tracker, tracker.words
    ensures q + pushed == Trunc(Admit(q, ns, depth), cap) && admitted == |q + pushed|
    ensures Tracks(tracker, q + pushed)
  {
    pushed, admitted := [], admitted0;
    assert ns[..0] == [] && q + [] == q;
    for i := 0 to |ns|
      invariant q + pushed == Trunc(Admit(q, ns[..i], depth), cap) && admitted == |q + pushed|
      invariant Tracks(tracker, q + pushed)
    {
      if admitted >= cap {
        CapReached(q, ns, i, depth, cap);
        return;
      }
      var wasUnset := AdmitNext(tracker, ns, i, depth, cap, q, pushed, ns[i]);
      if wasUnset {
        pushed := pushed + [Entry(ns[i], depth)];
        admitted := admitted + 1;
      }
    }
    assert ns[..|ns|] == ns;
  }

  /** `if visited_tracker.test_and_set(neighbor)`: marks it, and says whether it joins the queue. */
  method AdmitNext(tracker: Visited, ghost ns: seq<nat>, ghost i: nat, ghost depth: nat, ghost cap: nat,
                   ghost q: seq<Entry>, ghost pushed: seq<Entry>, node: nat) returns (wasUnset: bool)
    requires i < |ns| && ns[i] == node
    requires q + pushed == Trunc(Admit(q, ns[..i], depth), cap) && |q + pushed| < cap
    requires Tracks(tracker, q + pushed)
    modifies tracker, tracker.words
    ensures var next := if wasUnset then pushed + [Entry(node, depth)] else pushed;
            q + next == Trunc(Admit(q, ns[..i + 1], depth), cap) && Tracks(tracker, q + next)
  {
    AdmitOne(q, ns, i, depth, cap);
    HasSnoc(q + pushed, Entry(node, depth));
    assert q + pushed + [Entry(node, depth)] == q + (pushed + [Entry(node, depth)]);
    hide Marked, Admit, Trunc, Has;
    wasUnset := tracker.TestAndSet(node);
  }

  // ----- expanding one node

  /** Base rows hold node ids of the graph. */
  lemma RowIds(base: Base, node: nat)
    requires base.Valid()
    ensures AllU32(base.NeighborSlice(node))
    ensures forall n :: n in base.NeighborSlice(node) ==> n < base.nodeCount
  {
    forall n | n in base.NeighborSlice(node) ensures n < base.nodeCount <= U32_MAX + 1 { base.RowMember(node, n); }
    hide Base.Valid, Base.Tiled, Base.NeighborSlice;
    var row := base.NeighborSlice(node);
    forall i | 0 <= i < |row| ensures row[i] <= U32_MAX { assert row[i] in row; }
  }

  /** Without a delta: the base slice, pre-filtered against the bitset. */
  method ExpandFast(g: CsrGraph, node: nat, depth: nat, tracker: Visited, backend: Backend, cap: nat, admitted0: nat,
                    ghost q: seq<Entry>) returns (pushed: seq<Entry>, admitted: nat)
    requires g.Valid() && g.delta.View() == EMPTY_OVERLAY && g.delta.insertionOrder == []
    requires Tracks(tracker, q) && tracker.capacity == g.base.nodeCount && admitted0 == |q| <= cap
    modifies tracker, tracker.words
    ensures q + pushed == Trunc(Admit(q, g.Adjacency()(node), depth), cap) && admitted == |q + pushed|
    ensures Tracks(tracker, q + pushed)
  {
    hide Base.Tiled, Base.NeighborSlice, Admit, Trunc, Has;
    RowIds(g.base, node);
    MergedClean(node, g.base.NeighborSlice(node));
    var neighbors := g.base.NeighborSlice(node);
    assert g.Adjacency()(node) == neighbors;
    var words := tracker.words[..];
    var filtered := FilterUnvisitedInto(backend, neighbors, words);
    forall n | n in neighbors && !IsUnvisited(n, words) ensures Has(q, n) {
      InWords(n, tracker.capacity);
      assert tracker.Seen(n);
    }
    AdmitFiltered(q, neighbors, words, depth);
    pushed, admitted := AdmitList(tracker, filtered, depth, cap, admitted0, q);
  }

  lemma NothingAdmitted(q: seq<Entry>, ns: seq<nat>, depth: nat, cap: nat)
    requires |q| <= cap
    ensures q + [] == q && Trunc(Admit(q, ns[..0], depth), cap) == q
  {
  }

  /** With a delta: the merged iterator. */
  method ExpandSlow(g: CsrGraph, node: nat, depth: nat, tracker: Visited, cap: nat, admitted0: nat, ghost q: seq<Entry>)
    returns (pushed: seq<Entry>, admitted: nat)
    requires g.Valid() && Tracks(tracker, q) && admitted0 == |q| <= cap
    modifies tracker, tracker.words
    ensures q + pushed == Trunc(Admit(q, g.Adjacency()(node), depth), cap) && admitted == |q + pushed|
    ensures Tracks(tracker, q + pushed)
  {
    hide CsrGraph.Valid, CsrGraph.Adjacency, NeighborIter.Valid, NeighborIter.Rest, Tracks, Admit, Trunc;
    pushed, admitted := [], admitted0;
    ghost var ns := g.Adjacency()(node);
    ghost var i := 0;
    NothingAdmitted(q, ns, depth, cap);
    var iter := new NeighborIter(g, node);
    while true
      invariant iter.Valid() && fresh(iter)
      invariant i <= |ns| && iter.Rest() == ns[i..]
      invariant q + pushed == Trunc(Admit(q, ns[..i], depth), cap) && admitted == |q + pushed|
      invariant Tracks(tracker, q + pushed)
      decreases |ns| - i
    {
      var neighbor := iter.Next();
      if neighbor.None? {
        assert ns[..i] == ns;
        return;
      }
      if admitted >= cap {
        CapReached(q, ns, i, depth, cap);
        return;
      }
      var wasUnset := AdmitNext(tracker, ns, i, depth, cap, q, pushed, neighbor.value);
      if wasUnset {
        pushed := pushed + [Entry(neighbor.value, depth)];
        admitted := admitted + 1;
      }
      i := i + 1;
    }
  }

  // ----- the search

  /** Every node a search can meet: base ids and inserted targets. */
  ghost function Universe(base: Base, o: Overlay): set<nat> {
    Below(base.nodeCount) + (set e | e in o.ins.Keys :: e.dst)
  }

  ghost function Below(n: nat): (s: set<nat>)
    ensures |s| == n && forall i: nat :: i in s <==> i < n
  {
    if n == 0 then {} else Below(n - 1) + {n - 1}
  }

  lemma {:induction false} DstSetSize(es: set<Edge>)
    ensures |set e | e in es :: e.dst| <= |es|
    decreases |es|
  {
    if es != {} {
      var x :| x in es;
      DstSetSize(es - {x});
      assert (set e | e in es :: e.dst) == (set e | e in es - {x} :: e.dst) + {x.dst};
    }
  }

  lemma UniverseSize(base: Base, o: Overlay)
    ensures |Universe(base, o)| <= base.nodeCount + |o.ins|
  {
    DstSetSize(o.ins.Keys);
  }

  lemma UniverseClosed(g: CsrGraph)
    requires g.Valid()
    ensures forall x: nat, y :: y in g.Adjacency()(x) ==> y in Universe(g.base, g.delta.View())
  {
    forall x: nat, y | y in g.Adjacency()(x) ensures y in Universe(g.base, g.delta.View()) {
      MergedMember(x, g.base.NeighborSlice(x), g.delta.View(), g.delta.insertionOrder, y);
      g.base.RowMember(x, y);
      if Edge(x, y) in g.delta.insertions { assert Edge(x, y) in g.delta.insertions.Keys; }
    }
  }

  /** The starts the search accepts, in order. */
  function Contained(base: Base, starts: seq<nat>): seq<nat> {
    if starts == [] then []
    else
      var m := |starts| - 1;
      Contained(base, starts[..m]) + if base.Contains(starts[m]) then [starts[m]] else []
  }

  lemma {:induction false} ContainedMember(base: Base, starts: seq<nat>, s: nat)
    ensures s in Contained(base, starts) <==> s in starts && s < base.nodeCount
  {
    if starts == [] {
    } else {
      ContainedMember(base, starts[..|starts| - 1], s);
    }
  }

  lemma {:induction false} ContainedAppend(base: Base, starts: seq<nat>, more: seq<nat>)
    ensures Contained(base, starts + more) == Contained(base, starts) + Contained(base, more)
  {
    if more == [] {
      assert starts + more == starts;
    } else {
      var m := |more| - 1;
      ContainedAppend(base, starts, more[..m]);
      assert (starts + more)[..|starts| + m] == starts + more[..m];
    }
  }

  lemma {:induction false} ContainedPrefix(base: Base, starts: seq<nat>, i: nat)
    requires i <= |starts|
    ensures Contained(base, starts[..i]) <= Contained(base, starts)
  {
    if i < |starts| {
      ContainedPrefix(base, starts[..|starts| - 1], i);
      assert starts[..|starts| - 1][..i] == starts[..i];
    } else {
      assert starts[..i] == starts;
    }
  }

  function CapOf(maxNodes: Option<nat>): nat {
    match maxNodes
    case Some(n) => n
    case None => USIZE_MAX
  }

  /** The start loop. */
  method Seed(g: CsrGraph, starts: seq<nat>, cap: nat, tracker: Visited)
    returns (queue: seq<Entry>, admitted: nat)
    requires Tracks(tracker, [])
    modifies tracker, tracker.words
    ensures queue == Trunc(Admit([], Contained(g.base, starts), 0), cap) && admitted == |queue|
    ensures Tracks(tracker, queue)
  {
    queue, admitted := [], 0;
    ghost var roots := Contained(g.base, starts);
    for i := 0 to |starts|
      invariant Contained(g.base, starts[..i]) <= roots
      invariant queue == Trunc(Admit([], Contained(g.base, starts[..i]), 0), cap) && admitted == |queue|
      invariant Tracks(tracker, queue)
    {
      ghost var k := |Contained(g.base, starts[..i])|;
      assert roots[..k] == Contained(g.base, starts[..i]);
      if admitted >= cap {
        CapReached([], roots, k, 0, cap);
        return;
      }
      ContainedPrefix(g.base, starts, i + 1);
      assert starts[..i + 1][..i] == starts[..i];
      if g.Contains(starts[i]) {
        assert roots[..k + 1] == Contained(g.base, starts[..i + 1]);
        assert [] + queue == queue;
        var wasUnset := AdmitNext(tracker, roots, k, 0, cap, [], queue, starts[i]);
        if wasUnset {
          queue := queue + [Entry(starts[i], 0)];
          admitted := admitted + 1;
        }
        assert [] + queue == queue;
      } else {
        assert Contained(g.base, starts[..i + 1]) == Contained(g.base, starts[..i]);
      }
    }
    assert starts[..|starts|] == starts;
  }

  // ----- the result lists

  /** The lists the main loop has filled so far. */
  ghost predicate Recorded(visited: seq<nat>, depths: seq<nat>, levels: seq<seq<nat>>, currentLevel: seq<nat>,
                           currentDepth: nat) {
    && visited == Flatten(levels) + currentLevel
    && depths == DepthTags(levels) + seq(|currentLevel|, _ => currentDepth)
    && |levels| == currentDepth
    && (forall d :: 0 <= d < |levels| ==> levels[d] != [])
    && (currentLevel == [] ==> visited == [] && currentDepth == 0)
  }

  /** Popping an entry: same level, or the first of the next one. */
  lemma Record(visited: seq<nat>, depths: seq<nat>, levels: seq<seq<nat>>, currentLevel: seq<nat>, currentDepth: nat,
               e: Entry)
    requires Recorded(visited, depths, levels, currentLevel, currentDepth)
    requires currentLevel == [] ==> e.depth == 0
    requires currentDepth <= e.depth <= currentDepth + 1
    ensures if e.depth > currentDepth
            then Recorded(visited + [e.node], depths + [e.depth], levels + [currentLevel], [e.node], e.depth)
            else Recorded(visited + [e.node], depths + [e.depth], levels, currentLevel + [e.node], currentDepth)
  {
    var more := levels + [currentLevel];
    assert more[..|more| - 1] == levels;
    assert seq(|currentLevel + [e.node]|, _ => currentDepth) == seq(|currentLevel|, _ => currentDepth) + [currentDepth];
    assert seq(1, _ => e.depth) == [e.depth];
    if e.depth > currentDepth {
      assert Flatten(more) == Flatten(levels) + currentLevel;
      assert DepthTags(more) == DepthTags(levels) + seq(|currentLevel|, _ => currentDepth);
    }
  }

  lemma Finish(visited: seq<nat>, depths: seq<nat>, levels: seq<seq<nat>>, currentLevel: seq<nat>, currentDepth: nat)
    requires Recorded(visited, depths, levels, currentLevel, currentDepth) && visited != []
    ensures Regular(BfsResult(visited, depths, levels + [currentLevel], currentDepth))
  {
    var more := levels + [currentLevel];
    assert more[..|more| - 1] == levels;
  }

  // ----- the main loop

  /** Consecutive entries of the queue are at most one level apart, and the first is at depth 0. */
  lemma PoppedDepth(adj: Adjacency, roots: seq<nat>, maxDepth: nat, k: nat, cap: nat, all: seq<Entry>)
    requires all == Trunc(Queue(adj, roots, maxDepth, k), cap) && k < |all|
    ensures k == 0 ==> all[0].depth == 0
    ensures k > 0 ==> all[k - 1].depth <= all[k].depth <= all[k - 1].depth + 1
  {
    QueueKeepsInv(adj, roots, maxDepth, k);
    var q := Queue(adj, roots, maxDepth, k);
    assert all[k] == q[k];
    if k > 0 { assert q[k - 1].depth <= q[k].depth <= q[k - 1].depth + 1; }
  }

  /** What popping and expanding entry k leaves in the queue. */
  lemma PopStep(adj: Adjacency, roots: seq<nat>, maxDepth: nat, k: nat, cap: nat, all: seq<Entry>)
    requires all == Trunc(Queue(adj, roots, maxDepth, k), cap) && k < |all|
    ensures Trunc(Queue(adj, roots, maxDepth, k + 1), cap) ==
            if all[k].depth >= maxDepth || |all| >= cap then all
            else Trunc(Admit(all, adj(all[k].node), all[k].depth + 1), cap)
  {
    hide Queue, Expand, Trunc, Admit;
    var q := Queue(adj, roots, maxDepth, k);
    QueueGrows(adj, roots, maxDepth, k, k + 1);
    QueueStep(adj, roots, maxDepth, k);
    assert all[k] == q[k];
    if |all| >= cap {
      TruncKeeps(q, Queue(adj, roots, maxDepth, k + 1), cap);
    } else {
      TruncWhole(q, cap);
      ExpandIs(adj, maxDepth, q, k);
    }
  }

  lemma QueueStep(adj: Adjacency, roots: seq<nat>, maxDepth: nat, k: nat)
    requires k < |Queue(adj, roots, maxDepth, k)|
    ensures Queue(adj, roots, maxDepth, k + 1) == Expand(adj, maxDepth, Queue(adj, roots, maxDepth, k), k)
  {
    hide Expand, Admit;
  }

  lemma TruncKeeps(q: seq<Entry>, q': seq<Entry>, cap: nat)
    requires q <= q' && |Trunc(q, cap)| >= cap
    ensures Trunc(q', cap) == Trunc(q, cap)
  {
  }

  lemma TruncWhole(q: seq<Entry>, cap: nat)
    requires |Trunc(q, cap)| < cap
    ensures Trunc(q, cap) == q
  {
  }

  /** The queue never outgrows the nodes there are. */
  lemma QueueFits(g: CsrGraph, starts: seq<nat>, maxDepth: nat, k: nat)
    requires g.Valid()
    ensures |Queue(g.Adjacency(), Contained(g.base, starts), maxDepth, k)| <= |Universe(g.base, g.delta.View())|
  {
    UniverseClosed(g);
    forall s | s in Contained(g.base, starts) ensures s in Universe(g.base, g.delta.View()) {
      ContainedMember(g.base, starts, s);
    }
    QueueWithin(g.Adjacency(), Contained(g.base, starts), maxDepth, k, Universe(g.base, g.delta.View()));
  }

  /** A graph whose node ids and pending insertions a 64-bit process can count. */
  ghost predicate FitsMemory(g: CsrGraph)
    reads g.delta
  {
    g.base.nodeCount + |g.delta.insertions| <= USIZE_MAX
  }

  /** What the search returns under a cap: the first admissions of the uncapped search. */
  ghost predicate Searched(g: CsrGraph, starts: seq<nat>, maxDepth: nat, cap: nat, r: BfsResult)
    requires g.Valid()
    reads g.delta
  {
    && Regular(r) && |r.visited| == |r.depths|
    && Entries(r) == Trunc(Queue(g.Adjacency(), Contained(g.base, starts), maxDepth, |r.visited|), cap)
  }

  /** Without a cap the result is exact. */
  lemma SearchedUncapped(g: CsrGraph, starts: seq<nat>, maxDepth: nat, r: BfsResult)
    requires g.Valid() && FitsMemory(g)
    requires Searched(g, starts, maxDepth, USIZE_MAX, r)
    ensures Exact(g.Adjacency(), Contained(g.base, starts), maxDepth, r)
  {
    UniverseSize(g.base, g.delta.View());
    QueueFits(g, starts, maxDepth, |r.visited|);
    FinishedIsExact(g.Adjacency(), Contained(g.base, starts), maxDepth, r);
  }

  /** `bfs_bounded_with_backend`. */
  method BfsBounded(g: CsrGraph, starts: seq<nat>, maxDepth: nat, maxNodes: Option<nat>, backend: Backend)
    returns (r: BfsResult)
    requires g.Valid() && FitsMemory(g)
    ensures Searched(g, starts, maxDepth, if maxNodes.Some? then maxNodes.value else USIZE_MAX, r)
    ensures maxNodes.None? ==> Exact(g.Adjacency(), Contained(g.base, starts), maxDepth, r)
  {
    var cap := CapOf(maxNodes);
    var tracker := new Visited(g.base.nodeCount);
    var queue, admitted := Seed(g, starts, cap, tracker);
    if queue == [] {
      r := EMPTY_RESULT;
    } else {
      r := Drain(g, starts, maxDepth, cap, backend, tracker, queue, admitted);
    }
    if maxNodes.None? { SearchedUncapped(g, starts, maxDepth, r); }
  }

  lemma PairSnoc(ns: seq<nat>, ds: seq<nat>, e: Entry)
    requires |ns| == |ds|
    ensures PairUp(ns + [e.node], ds + [e.depth]) == PairUp(ns, ds) + [e]
  {
  }

  lemma LastDepth(visited: seq<nat>, depths: seq<nat>, levels: seq<seq<nat>>, currentLevel: seq<nat>, currentDepth: nat)
    requires Recorded(visited, depths, levels, currentLevel, currentDepth)
    ensures |visited| == |depths|
    ensures visited != [] ==> currentLevel != [] && depths[|depths| - 1] == currentDepth
    ensures visited == [] ==> currentDepth == 0
  {
  }

  /** The loop's lists and queue are the admission order so far, split at the next entry to pop. */
  ghost predicate Draining(adj: Adjacency, roots: seq<nat>, maxDepth: nat, cap: nat,
                           visited: seq<nat>, depths: seq<nat>, levels: seq<seq<nat>>,
                           currentLevel: seq<nat>, currentDepth: nat, queue: seq<Entry>) {
    && |visited| == |depths|
    && PairUp(visited, depths) + queue == Trunc(Queue(adj, roots, maxDepth, |visited|), cap)
    && Recorded(visited, depths, levels, currentLevel, currentDepth)
  }

  lemma DrainPop(adj: Adjacency, roots: seq<nat>, maxDepth: nat, cap: nat,
                 visited: seq<nat>, depths: seq<nat>, levels: seq<seq<nat>>,
                 currentLevel: seq<nat>, currentDepth: nat, queue: seq<Entry>)
    requires queue != []
    requires Draining(adj, roots, maxDepth, cap, visited, depths, levels, currentLevel, currentDepth, queue)
    ensures var e, all := queue[0], PairUp(visited, depths) + queue;
            && PairUp(visited + [e.node], depths + [e.depth]) + queue[1..] == all
            && Trunc(Queue(adj, roots, maxDepth, |visited| + 1), cap) ==
               (if e.depth >= maxDepth || |all| >= cap then all else Trunc(Admit(all, adj(e.node), e.depth + 1), cap))
            && (if e.depth > currentDepth
                then Recorded(visited + [e.node], depths + [e.depth], levels + [currentLevel], [e.node], e.depth)
                else Recorded(visited + [e.node], depths + [e.depth], levels, currentLevel + [e.node], currentDepth))
  {
    hide Queue, Admit, Trunc, Flatten, DepthTags, Recorded;
    var e, all, k := queue[0], PairUp(visited, depths) + queue, |visited|;
    PairSnoc(visited, depths, e);
    assert queue == [e] + queue[1..];
    PopStep(adj, roots, maxDepth, k, cap, all);
    PoppedDepth(adj, roots, maxDepth, k, cap, all);
    LastDepth(visited, depths, levels, currentLevel, currentDepth);
    Record(visited, depths, levels, currentLevel, currentDepth, e);
  }

  lemma DrainStart(adj: Adjacency, roots: seq<nat>, maxDepth: nat, cap: nat, queue: seq<Entry>)
    requires queue == Trunc(Queue(adj, roots, maxDepth, 0), cap)
    ensures Draining(adj, roots, maxDepth, cap, [], [], [], [], 0, queue)
    ensures PairUp([], []) + queue == queue
  {
    assert PairUp([], []) + queue == queue;
  }

  lemma DrainDone(adj: Adjacency, roots: seq<nat>, maxDepth: nat, cap: nat,
                  visited: seq<nat>, depths: seq<nat>, levels: seq<seq<nat>>, currentLevel: seq<nat>, currentDepth: nat)
    requires visited != []
    requires Draining(adj, roots, maxDepth, cap, visited, depths, levels, currentLevel, currentDepth, [])
    ensures var r := BfsResult(visited, depths, levels + [currentLevel], currentDepth);
            Regular(r) && Entries(r) == Trunc(Queue(adj, roots, maxDepth, |visited|), cap)
    ensures currentLevel != []
  {
    Finish(visited, depths, levels, currentLevel, currentDepth);
    LastDepth(visited, depths, levels, currentLevel, currentDepth);
    assert PairUp(visited, depths) + [] == PairUp(visited, depths);
    assert Entries(BfsResult(visited, depths, levels + [currentLevel], currentDepth)) == PairUp(visited, depths);
  }

  /** One popped entry's neighbours, by whichever path applies. */
  method ExpandEntry(g: CsrGraph, e: Entry, deltaEmpty: bool, tracker: Visited, backend: Backend, cap: nat,
                     admitted0: nat, ghost all: seq<Entry>) returns (pushed: seq<Entry>, admitted: nat)
    requires g.Valid() && Tracks(tracker, all) && tracker.capacity == g.base.nodeCount
    requires deltaEmpty == g.delta.IsEmpty() && admitted0 == |all| <= cap
    modifies tracker, tracker.words
    ensures all + pushed == Trunc(Admit(all, g.Adjacency()(e.node), e.depth + 1), cap) && admitted == |all + pushed|
    ensures Tracks(tracker, all + pushed)
  {
    hide Tracks, Trunc, Admit, Base.Valid, CsrGraph.Adjacency;
    if deltaEmpty {
      EnumeratesNothing(g.delta.insertionOrder);
      pushed, admitted := ExpandFast(g, e.node, e.depth + 1, tracker, backend, cap, admitted0, all);
    } else {
      pushed, admitted := ExpandSlow(g, e.node, e.depth + 1, tracker, cap, admitted0, all);
    }
  }

  /** The main loop: pop, record, expand. */
  method Drain(g: CsrGraph, ghost starts: seq<nat>, maxDepth: nat, cap: nat, backend: Backend,
               tracker: Visited, queue0: seq<Entry>, admitted0: nat) returns (r: BfsResult)
    requires g.Valid() && tracker.capacity == g.base.nodeCount
    requires queue0 == Trunc(Queue(g.Adjacency(), Contained(g.base, starts), maxDepth, 0), cap)
    requires queue0 != [] && admitted0 == |queue0| && Tracks(tracker, queue0)
    modifies tracker, tracker.words
    ensures Searched(g, starts, maxDepth, cap, r)
  {
    hide Draining, Tracks, Queue, Admit, Trunc, Recorded, Regular, Universe, Contained, PairUp;
    hide CsrGraph.Valid, CsrGraph.Adjacency, DeltaLayer.IsEmpty, Searched;
    ghost var adj, roots := g.Adjacency(), Contained(g.base, starts);
    ghost var universe := |Universe(g.base, g.delta.View())|;
    var queue, admitted := queue0, admitted0;
    var visited: seq<nat>, depths: seq<nat>, levels: seq<seq<nat>> := [], [], [];
    var currentDepth: nat, currentLevel: seq<nat> := 0, [];
    var deltaEmpty := g.delta.IsEmpty();
    DrainStart(adj, roots, maxDepth, cap, queue0);
    QueueFits(g, starts, maxDepth, 0);
    ghost var all := queue0;
    while queue != []
      invariant |visited| == |depths| && all == PairUp(visited, depths) + queue && admitted == |all|
      invariant Draining(adj, roots, maxDepth, cap, visited, depths, levels, currentLevel, currentDepth, queue)
      invariant |all| <= universe && |all| <= cap
      invariant Tracks(tracker, all)
      invariant visited == [] ==> queue != []
      decreases universe - |visited|
    {
      var e := queue[0];
      DrainPop(adj, roots, maxDepth, cap, visited, depths, levels, currentLevel, currentDepth, queue);
      QueueFits(g, starts, maxDepth, |visited| + 1);
      queue := queue[1..];
      if e.depth > currentDepth {
        levels, currentLevel, currentDepth := levels + [currentLevel], [], e.depth;
      }
      assert [] + [e.node] == [e.node];
      visited, depths, currentLevel := visited + [e.node], depths + [e.depth], currentLevel + [e.node];
      if e.depth < maxDepth && admitted < cap {
        var pushed;
        pushed, admitted := ExpandEntry(g, e, deltaEmpty, tracker, backend, cap, admitted, all);
        assert all + pushed == PairUp(visited, depths) + (queue + pushed);
        queue := queue + pushed;
        all := all + pushed;
      }
      DrainingAgain(adj, roots, maxDepth, cap, visited, depths, levels, currentLevel, currentDepth, queue);
    }
    DrainDone(adj, roots, maxDepth, cap, visited, depths, levels, currentLevel, currentDepth);
    if currentLevel != [] { levels := levels + [currentLevel]; }
    r := BfsResult(visited, depths, levels, currentDepth);
    DrainIsSearch(g, starts, maxDepth, cap, r);
  }

  lemma DrainIsSearch(g: CsrGraph, starts: seq<nat>, maxDepth: nat, cap: nat, r: BfsResult)
    requires g.Valid() && Regular(r) && |r.visited| == |r.depths|
    requires Entries(r) == Trunc(Queue(g.Adjacency(), Contained(g.base, starts), maxDepth, |r.visited|), cap)
    ensures Searched(g, starts, maxDepth, cap, r)
  {
    hide Queue, Trunc, Contained, Regular, CsrGraph.Valid, CsrGraph.Adjacency;
  }

  lemma DrainingAgain(adj: Adjacency, roots: seq<nat>, maxDepth: nat, cap: nat,
                      visited: seq<nat>, depths: seq<nat>, levels: seq<seq<nat>>,
                      currentLevel: seq<nat>, currentDepth: nat, queue: seq<Entry>)
    requires |visited| == |depths|
    requires PairUp(visited, depths) + queue == Trunc(Queue(adj, roots, maxDepth, |visited|), cap)
    requires Recorded(visited, depths, levels, currentLevel, currentDepth)
    ensures Draining(adj, roots, maxDepth, cap, visited, depths, levels, currentLevel, currentDepth, queue)
  {
  }
}
