/** Direction-optimizing search as a run over two adjacencies: what a level-by-level run records whatever
    directions it takes, and exactly when that is a breadth-first search of the first adjacency. */
module Hybrid {
  import opened Csr
  import opened EdgeLists
  import opened Hops

  const ALPHA: nat := 14
  const BETA: nat := 24

  ghost predicate AllBelow(ns: seq<nat>, bound: nat) { forall i :: 0 <= i < |ns| ==> ns[i] < bound }

  /** The nodes below n that satisfy p, in ascending order. */
  ghost function Select(p: nat -> bool, n: nat): (s: seq<nat>)
    ensures forall v: nat :: v in s <==> v < n && p(v)
    ensures forall i, j :: 0 <= i < j < |s| ==> s[i] < s[j]
  {
    if n == 0 then []
    else
      var front := Select(p, n - 1);
      assert forall i :: 0 <= i < |front| ==> front[i] in front;
      front + if p(n - 1) then [n - 1] else []
  }

  // ----- edge counts for the heuristic

  /** Out-edges of the listed nodes. */
  ghost function DegreeSum(rows: nat -> seq<nat>, ns: seq<nat>): nat {
    if ns == [] then 0 else DegreeSum(rows, ns[..|ns| - 1]) + |rows(ns[|ns| - 1])|
  }

  /** Out-edges of the nodes below n that are in (or not in) the list. */
  ghost function RangeSum(rows: nat -> seq<nat>, ns: seq<nat>, listed: bool, n: nat): nat {
    if n == 0 then 0
    else RangeSum(rows, ns, listed, n - 1) + if (n - 1 in ns) == listed then |rows(n - 1)| else 0
  }

  lemma {:induction false} DegreeSumAppend(rows: nat -> seq<nat>, ns: seq<nat>, ms: seq<nat>)
    ensures DegreeSum(rows, ns + ms) == DegreeSum(rows, ns) + DegreeSum(rows, ms)
    decreases |ms|
  {
    if ms == [] {
      assert ns + ms == ns;
    } else {
      DegreeSumAppend(rows, ns, ms[..|ms| - 1]);
      assert (ns + ms)[..|ns| + |ms| - 1] == ns + ms[..|ms| - 1];
    }
  }

  lemma {:induction false} RangeSumNone(rows: nat -> seq<nat>, n: nat)
    ensures RangeSum(rows, [], true, n) == 0
    decreases n
  {
    if n == 0 {
    } else {
      RangeSumNone(rows, n - 1);
    }
  }

  lemma {:induction false} RangeSumAdd(rows: nat -> seq<nat>, ns: seq<nat>, x: nat, n: nat)
    requires x !in ns
    ensures RangeSum(rows, ns + [x], true, n) == RangeSum(rows, ns, true, n) + if x < n then |rows(x)| else 0
    decreases n
  {
    if n == 0 {
    } else {
      RangeSumAdd(rows, ns, x, n - 1);
    }
  }

  lemma {:induction false} DegreeSumIsRange(rows: nat -> seq<nat>, ns: seq<nat>, n: nat)
    requires Distinct(ns) && AllBelow(ns, n)
    ensures DegreeSum(rows, ns) == RangeSum(rows, ns, true, n)
    decreases |ns|
  {
    if ns == [] {
      RangeSumNone(rows, n);
    } else {
      var m := |ns| - 1;
      DegreeSumIsRange(rows, ns[..m], n);
      RangeSumAdd(rows, ns[..m], ns[m], n);
      assert ns == ns[..m] + [ns[m]];
    }
  }

  lemma {:induction false} RangeSumTotal(rows: nat -> seq<nat>, ns: seq<nat>, n: nat)
    ensures RangeSum(rows, ns, true, n) + RangeSum(rows, ns, false, n) == |KeptEdges(rows, {}, n)|
    decreases n
  {
    if n == 0 {
    } else {
      RangeSumTotal(rows, ns, n - 1);
      KeepNothingDeleted(n - 1, rows(n - 1), rows(n - 1));
    }
  }

  /** The edges already counted for distinct nodes never exceed the graph's, and what remains is
      exactly the out-edges of the other nodes: the saturating subtraction is exact. */
  lemma UnvisitedEdgesExact(fwd: Base, recorded: seq<nat>)
    requires fwd.Valid() && Distinct(recorded) && AllBelow(recorded, fwd.nodeCount)
    ensures DegreeSum(fwd.Rows(), recorded) <= fwd.edgeCount
    ensures fwd.edgeCount - DegreeSum(fwd.Rows(), recorded) == RangeSum(fwd.Rows(), recorded, false, fwd.nodeCount)
  {
    hide Base.Tiled, Base.NeighborSlice;
    DegreeSumIsRange(fwd.Rows(), recorded, fwd.nodeCount);
    RangeSumTotal(fwd.Rows(), recorded, fwd.nodeCount);
  }

  lemma {:induction false} RangeSumSame(rows: nat -> seq<nat>, ns: seq<nat>, ms: seq<nat>, listed: bool, n: nat)
    requires forall x: nat :: x in ns <==> x in ms
    ensures RangeSum(rows, ns, listed, n) == RangeSum(rows, ms, listed, n)
    decreases n
  {
    if n == 0 {
    } else {
      RangeSumSame(rows, ns, ms, listed, n - 1);
    }
  }

  /** The switching rule at level d, on the true counts. */
  ghost predicate GoesBottomUp(rows: nat -> seq<nat>, nodeCount: nat, levels: seq<seq<nat>>, d: nat)
    requires d < |levels|
  {
    && DegreeSum(rows, levels[d]) > RangeSum(rows, Flatten(levels[..d + 1]), false, nodeCount) / ALPHA
    && |levels[d]| >= nodeCount / BETA
  }

  lemma {:induction false} SameFlatten(a: seq<seq<nat>>, b: seq<seq<nat>>, x: nat)
    requires |a| == |b| && forall d, v: nat :: 0 <= d < |a| ==> (v in a[d] <==> v in b[d])
    ensures x in Flatten(a) <==> x in Flatten(b)
  {
    if a == [] {
    } else {
      SameFlatten(a[..|a| - 1], b[..|b| - 1], x);
    }
  }

  /** The rule reads the levels as sets: the order inside a level does not matter. */
  lemma RuleReadsSets(rows: nat -> seq<nat>, n: nat, a: seq<seq<nat>>, b: seq<seq<nat>>, d: nat)
    requires d < |a| && d < |b|
    requires forall k, v: nat :: 0 <= k <= d ==> (v in a[k] <==> v in b[k])
    requires Distinct(a[d]) && Distinct(b[d]) && AllBelow(a[d], n) && AllBelow(b[d], n)
    ensures GoesBottomUp(rows, n, a, d) == GoesBottomUp(rows, n, b, d)
  {
    SameElements(a[d], b[d]);
    assert |multiset(a[d])| == |multiset(b[d])|;
    DegreeSumIsRange(rows, a[d], n);
    DegreeSumIsRange(rows, b[d], n);
    RangeSumSame(rows, a[d], b[d], true, n);
    var flatA, flatB := Flatten(a[..d + 1]), Flatten(b[..d + 1]);
    forall x: nat ensures x in flatA <==> x in flatB { SameFlatten(a[..d + 1], b[..d + 1], x); }
    RangeSumSame(rows, flatA, flatB, false, n);
  }

  /** Recording one more level does not change the rule at earlier ones. */
  lemma DirectionsKept(rows: nat -> seq<nat>, nodeCount: nat, levels: seq<seq<nat>>, frontier: seq<nat>)
    ensures forall d :: 0 <= d < |levels| ==>
              GoesBottomUp(rows, nodeCount, levels + [frontier], d) == GoesBottomUp(rows, nodeCount, levels, d)
  {
    forall d | 0 <= d < |levels|
      ensures GoesBottomUp(rows, nodeCount, levels + [frontier], d) == GoesBottomUp(rows, nodeCount, levels, d)
    {
      assert (levels + [frontier])[..d + 1] == levels[..d + 1];
    }
  }

  // ----- runs

  /** u has an in-edge from the frontier, read from the out-edges. */
  ghost predicate OutStep(adj: Adjacency, frontier: seq<nat>, u: nat) { exists p :: p in frontier && u in adj(p) }

  /** The same, read from the reverse rows. */
  ghost predicate InStep(rev: Adjacency, frontier: seq<nat>, u: nat) { exists p :: p in frontier && p in rev(u) }

  /** `next` lists, once each, the unrecorded nodes one step from the last recorded level, read in the
      given direction. */
  ghost predicate NextIs(fwd: Adjacency, rev: Adjacency, bottomUp: bool, levels: seq<seq<nat>>, next: seq<nat>)
    requires levels != []
  {
    && Distinct(next)
    && forall u: nat :: u in next <==>
         u !in Flatten(levels) &&
         if bottomUp then InStep(rev, levels[|levels| - 1], u) else OutStep(fwd, levels[|levels| - 1], u)
  }

  /** Each level is the step from the one before. */
  ghost predicate Chained(fwd: Adjacency, rev: Adjacency, start: nat, directions: seq<bool>, levels: seq<seq<nat>>) {
    && levels != [] && levels[0] == [start] && |levels| - 1 <= |directions|
    && forall d :: 0 < d < |levels| ==> levels[d] != [] && NextIs(fwd, rev, directions[d - 1], levels[..d], levels[d])
  }

  /** r is what the level loop returns when it takes the given directions. */
  ghost predicate Ran(fwd: Adjacency, rev: Adjacency, start: nat, maxDepth: nat, directions: seq<bool>, r: BfsResult) {
    && Regular(r) && |r.levels| <= maxDepth + 1
    && |directions| == (if |r.levels| == maxDepth + 1 then maxDepth else |r.levels|)
    && Chained(fwd, rev, start, directions, r.levels)
    && (|r.levels| <= maxDepth ==> NextIs(fwd, rev, directions[|r.levels| - 1], r.levels, []))
  }

  lemma {:induction false} ChainedDistinct(fwd: Adjacency, rev: Adjacency, start: nat, directions: seq<bool>,
                                           levels: seq<seq<nat>>)
    requires Chained(fwd, rev, start, directions, levels)
    ensures Distinct(Flatten(levels))
  {
    var m := |levels| - 1;
    if m > 0 {
      var front := levels[..m];
      forall d | 0 < d < m ensures NextIs(fwd, rev, directions[d - 1], front[..d], front[d]) {
        assert front[..d] == levels[..d];
      }
      ChainedDistinct(fwd, rev, start, directions, front);
      var before, last := Flatten(front), levels[m];
      forall i, j | 0 <= i < |before| && 0 <= j < |last| ensures before[i] != last[j] {
        assert last[j] in last && before[i] in before;
      }
    } else {
      assert levels[..0] == [] && Flatten(levels) == [] + [start];
    }
  }

  /** The frontier's step is the next level of the run. */
  lemma ChainGrows(fwd: Adjacency, rev: Adjacency, start: nat, directions: seq<bool>, levels: seq<seq<nat>>,
                   bottomUp: bool, next: seq<nat>)
    requires Chained(fwd, rev, start, directions, levels) && |directions| == |levels| - 1
    requires next != [] && NextIs(fwd, rev, bottomUp, levels, next)
    ensures Chained(fwd, rev, start, directions + [bottomUp], levels + [next])
  {
    hide NextIs;
    var more, all := directions + [bottomUp], levels + [next];
    forall d | 0 < d < |all| ensures all[d] != [] && NextIs(fwd, rev, more[d - 1], all[..d], all[d]) {
      assert all[..d] == levels[..d];
      if d == |levels| { assert levels[..d] == levels; }
    }
  }

  // ----- when a run is a breadth-first search

  /** Every node not within d hops has a reverse-row parent at distance d exactly when it has an in-edge
      from distance d. */
  ghost predicate LevelAgrees(fwd: Adjacency, rev: Adjacency, start: nat, d: nat) {
    forall u: nat :: !Within(fwd, [start], u, d) ==>
      ((exists p: nat :: AtDist(fwd, [start], p, d) && p in rev(u)) <==>
       (exists p: nat :: AtDist(fwd, [start], p, d) && u in fwd(p)))
  }

  ghost predicate TrueUpTo(adj: Adjacency, start: nat, levels: seq<seq<nat>>) {
    forall d :: 0 <= d < |levels| ==> IsLevel(adj, [start], d, levels[d])
  }

  lemma StartLevel(adj: Adjacency, start: nat)
    ensures IsLevel(adj, [start], 0, [start])
  {
    forall v: nat ensures v in [start] <==> AtDist(adj, [start], v, 0) {
      assert ReachIn(adj, [start], v, 0) <==> v == start;
    }
  }

  /** True levels together hold the nodes within reach so far. */
  lemma LevelsHoldWithin(adj: Adjacency, start: nat, levels: seq<seq<nat>>, u: nat)
    requires TrueUpTo(adj, start, levels) && levels != []
    ensures u in Flatten(levels) <==> Within(adj, [start], u, |levels| - 1)
  {
    var m := |levels| - 1;
    if u in Flatten(levels) {
      var i :| 0 <= i < |Flatten(levels)| && Flatten(levels)[i] == u;
      FlattenAt(levels, i);
      assert AtDist(adj, [start], u, DepthTags(levels)[i]);
    }
    if Within(adj, [start], u, m) {
      var d := WithinHasDist(adj, [start], u, m);
      var i := FlattenFind(levels, d, u);
    }
  }

  /** After true levels, the step is the next true level if and only if it was read top-down or the two
      adjacencies agree at this level. */
  lemma StepIsLevelIff(fwd: Adjacency, rev: Adjacency, start: nat, bottomUp: bool, levels: seq<seq<nat>>,
                       next: seq<nat>)
    requires levels != [] && TrueUpTo(fwd, start, levels) && NextIs(fwd, rev, bottomUp, levels, next)
    ensures IsLevel(fwd, [start], |levels|, next) <==> !bottomUp || LevelAgrees(fwd, rev, start, |levels| - 1)
  {
    var d := |levels| - 1;
    var frontier := levels[d];
    hide Flatten;
    assert forall p: nat :: p in frontier <==> AtDist(fwd, [start], p, d);
    hide IsLevel, AtDist, Within, TrueUpTo;
    forall u: nat
      ensures InStep(rev, frontier, u) <==> exists p: nat :: AtDist(fwd, [start], p, d) && p in rev(u)
      ensures OutStep(fwd, frontier, u) <==> exists p: nat :: AtDist(fwd, [start], p, d) && u in fwd(p)
      ensures AtDist(fwd, [start], u, d + 1) <==> !Within(fwd, [start], u, d) && OutStep(fwd, frontier, u)
      ensures u in Flatten(levels) <==> Within(fwd, [start], u, d)
    {
      LevelsHoldWithin(fwd, start, levels, u);
      NextDist(fwd, [start], u, d);
    }
    NextAgrees(fwd, rev, start, bottomUp, levels, next);
  }

  lemma NextAgrees(fwd: Adjacency, rev: Adjacency, start: nat, bottomUp: bool, levels: seq<seq<nat>>, next: seq<nat>)
    requires levels != [] && NextIs(fwd, rev, bottomUp, levels, next)
    requires var d, frontier := |levels| - 1, levels[|levels| - 1];
             forall u: nat ::
               && (InStep(rev, frontier, u) <==> exists p: nat :: AtDist(fwd, [start], p, d) && p in rev(u))
               && (OutStep(fwd, frontier, u) <==> exists p: nat :: AtDist(fwd, [start], p, d) && u in fwd(p))
               && (AtDist(fwd, [start], u, d + 1) <==> !Within(fwd, [start], u, d) && OutStep(fwd, frontier, u))
               && (u in Flatten(levels) <==> Within(fwd, [start], u, d))
    ensures IsLevel(fwd, [start], |levels|, next) <==> !bottomUp || LevelAgrees(fwd, rev, start, |levels| - 1)
  {
    hide Flatten, AtDist, Within, InStep, OutStep;
  }

  lemma {:induction false} AgreedLevels(fwd: Adjacency, rev: Adjacency, start: nat, directions: seq<bool>,
                                        levels: seq<seq<nat>>, k: nat)
    requires Chained(fwd, rev, start, directions, levels) && 0 < k <= |levels|
    requires forall d :: 0 <= d < k - 1 && directions[d] ==> LevelAgrees(fwd, rev, start, d)
    ensures TrueUpTo(fwd, start, levels[..k])
    decreases k
  {
    hide NextIs, IsLevel, LevelAgrees;
    StartLevel(fwd, start);
    if k > 1 {
      AgreedLevels(fwd, rev, start, directions, levels, k - 1);
      StepIsLevelIff(fwd, rev, start, directions[k - 2], levels[..k - 1], levels[k - 1]);
      forall d | 0 <= d < k ensures IsLevel(fwd, [start], d, levels[..k][d]) {
        if d < k - 1 { assert levels[..k - 1][d] == levels[..k][d]; }
      }
    }
  }

  /** A run is a breadth-first search of the first adjacency if and only if the two agree at every level
      it read bottom-up. */
  lemma RanIsExactIff(fwd: Adjacency, rev: Adjacency, start: nat, maxDepth: nat, directions: seq<bool>, r: BfsResult)
    requires Ran(fwd, rev, start, maxDepth, directions, r)
    ensures Exact(fwd, [start], maxDepth, r) <==>
            forall d :: 0 <= d < |directions| && directions[d] ==> LevelAgrees(fwd, rev, start, d)
  {
    hide NextIs, IsLevel, LevelAgrees, Regular;
    var ls := r.levels;
    assert ls[..|ls|] == ls;
    if forall d :: 0 <= d < |directions| && directions[d] ==> LevelAgrees(fwd, rev, start, d) {
      AgreedLevels(fwd, rev, start, directions, ls, |ls|);
      if |ls| <= maxDepth {
        StepIsLevelIff(fwd, rev, start, directions[|ls| - 1], ls, []);
        NoneAtLevel(fwd, start, |ls|);
      }
    }
    if Exact(fwd, [start], maxDepth, r) {
      forall d | 0 <= d < |directions| && directions[d] ensures LevelAgrees(fwd, rev, start, d) {
        ExactStepAgrees(fwd, rev, start, maxDepth, directions, r, d);
      }
    }
  }

  lemma NoneAtLevel(adj: Adjacency, start: nat, d: nat)
    ensures IsLevel(adj, [start], d, []) <==> forall v: nat :: !AtDist(adj, [start], v, d)
  {
  }

  lemma ExactStepAgrees(fwd: Adjacency, rev: Adjacency, start: nat, maxDepth: nat, directions: seq<bool>,
                        r: BfsResult, d: nat)
    requires Ran(fwd, rev, start, maxDepth, directions, r) && Exact(fwd, [start], maxDepth, r)
    requires d < |directions| && directions[d]
    ensures LevelAgrees(fwd, rev, start, d)
  {
    hide NextIs, IsLevel, LevelAgrees, Regular;
    var ls := r.levels;
    var next := if d + 1 < |ls| then ls[d + 1] else [];
    NoneAtLevel(fwd, start, d + 1);
    if d + 1 == |ls| { assert ls[..d + 1] == ls; }
    StepIsLevelIff(fwd, rev, start, true, ls[..d + 1], next);
  }

  // ----- the condition on the graphs, before any run

  /** The true levels 0..k, listed in ascending order. */
  ghost function TrueLevels(adj: Adjacency, start: nat, n: nat, k: nat): (ls: seq<seq<nat>>)
    ensures |ls| == k && forall d :: 0 <= d < k ==> ls[d] == Select((v: nat) => AtDist(adj, [start], v, d), n)
  {
    seq(k, d requires 0 <= d < k => Select((v: nat) => AtDist(adj, [start], v, d), n))
  }

  /** The adjacencies agree at every true level that the switching rule sends bottom-up. */
  ghost predicate DirectionsMatch(fwd: Adjacency, rev: Adjacency, n: nat, start: nat, maxDepth: nat) {
    forall d :: 0 <= d < maxDepth && GoesBottomUp(fwd, n, TrueLevels(fwd, start, n, d + 1), d) ==>
        LevelAgrees(fwd, rev, start, d)
  }

  ghost predicate NodesBelow(adj: Adjacency, n: nat) { forall u: nat, v: nat :: v in adj(u) ==> u < n && v < n }

  lemma {:induction false} ReachedBelow(adj: Adjacency, n: nat, start: nat, v: nat, k: nat)
    requires NodesBelow(adj, n) && start < n && ReachIn(adj, [start], v, k)
    ensures v < n
    decreases k
  {
    if k > 0 {
      var u: nat :| ReachIn(adj, [start], u, k - 1) && v in adj(u);
    }
  }

  /** Over true levels the rule decides as it does on their ascending lists. */
  lemma RuleOnTrueLevels(fwd: Adjacency, n: nat, start: nat, levels: seq<seq<nat>>, d: nat)
    requires NodesBelow(fwd, n) && start < n && d < |levels| && TrueUpTo(fwd, start, levels[..d + 1])
    ensures GoesBottomUp(fwd, n, levels, d) == GoesBottomUp(fwd, n, TrueLevels(fwd, start, n, d + 1), d)
  {
    var truth := TrueLevels(fwd, start, n, d + 1);
    forall k, v: nat | 0 <= k <= d ensures v in levels[k] <==> v in truth[k] {
      assert levels[..d + 1][k] == levels[k];
      assert v in levels[k] <==> AtDist(fwd, [start], v, k);
      if AtDist(fwd, [start], v, k) { ReachedBelow(fwd, n, start, v, k); }
    }
    assert levels[..d + 1][d] == levels[d];
    forall i | 0 <= i < |levels[d]| ensures levels[d][i] < n {
      assert levels[d][i] in levels[d] && levels[d][i] in truth[d];
    }
    forall i | 0 <= i < |truth[d]| ensures truth[d][i] < n { assert truth[d][i] in truth[d]; }
    RuleReadsSets(fwd, n, levels, truth, d);
  }

  ghost predicate FollowsRule(fwd: Adjacency, n: nat, directions: seq<bool>, levels: seq<seq<nat>>) {
    |directions| <= |levels| && forall d :: 0 <= d < |directions| ==> directions[d] == GoesBottomUp(fwd, n, levels, d)
  }

  lemma {:induction false} MatchedDirections(fwd: Adjacency, rev: Adjacency, n: nat, start: nat, maxDepth: nat,
                                             directions: seq<bool>, r: BfsResult, k: nat)
    requires NodesBelow(fwd, n) && start < n && DirectionsMatch(fwd, rev, n, start, maxDepth)
    requires Ran(fwd, rev, start, maxDepth, directions, r) && FollowsRule(fwd, n, directions, r.levels) &&
             k <= |directions|
    ensures forall d :: 0 <= d < k && directions[d] ==> LevelAgrees(fwd, rev, start, d)
    decreases k
  {
    hide LevelAgrees, NextIs, GoesBottomUp, Regular, NodesBelow;
    if k == 0 {
    } else {
      MatchedDirections(fwd, rev, n, start, maxDepth, directions, r, k - 1);
      AgreedLevels(fwd, rev, start, directions, r.levels, k);
      RuleOnTrueLevels(fwd, n, start, r.levels, k - 1);
    }
  }

  /** The search that follows the rule is exact if and only if the adjacencies agree where the rule, on the
      true levels, goes bottom-up. */
  lemma RuleIsExactIff(fwd: Adjacency, rev: Adjacency, n: nat, start: nat, maxDepth: nat, directions: seq<bool>,
                       r: BfsResult)
    requires NodesBelow(fwd, n) && start < n
    requires Ran(fwd, rev, start, maxDepth, directions, r) && FollowsRule(fwd, n, directions, r.levels)
    ensures Exact(fwd, [start], maxDepth, r) <==> DirectionsMatch(fwd, rev, n, start, maxDepth)
  {
    hide LevelAgrees, NextIs, GoesBottomUp, Regular, NodesBelow, IsLevel;
    RanIsExactIff(fwd, rev, start, maxDepth, directions, r);
    if DirectionsMatch(fwd, rev, n, start, maxDepth) {
      MatchedDirections(fwd, rev, n, start, maxDepth, directions, r, |directions|);
    }
    if Exact(fwd, [start], maxDepth, r) {
      forall d | 0 <= d < maxDepth && GoesBottomUp(fwd, n, TrueLevels(fwd, start, n, d + 1), d)
        ensures LevelAgrees(fwd, rev, start, d)
      {
        if d < |directions| {
          RuleOnTrueLevels(fwd, n, start, r.levels, d);
        } else {
          NothingBeyond(fwd, [start], |r.levels|, d);
          EmptyLevelAgrees(fwd, rev, start, d);
        }
      }
    }
  }

  lemma EmptyLevelAgrees(fwd: Adjacency, rev: Adjacency, start: nat, d: nat)
    requires forall v: nat :: !AtDist(fwd, [start], v, d)
    ensures LevelAgrees(fwd, rev, start, d)
  {
  }

  /** The second adjacency holds the reversed edges, self-loops aside. */
  ghost predicate ReversedOffLoops(fwd: Adjacency, rev: Adjacency) {
    forall u: nat, v: nat :: u != v ==> (v in fwd(u) <==> u in rev(v))
  }

  lemma OffLoopsAgrees(fwd: Adjacency, rev: Adjacency, start: nat, d: nat)
    requires ReversedOffLoops(fwd, rev)
    ensures LevelAgrees(fwd, rev, start, d)
  {
    forall u: nat, p: nat | !Within(fwd, [start], u, d) && AtDist(fwd, [start], p, d)
      ensures u in fwd(p) <==> p in rev(u)
    {
      assert Within(fwd, [start], p, d);
    }
  }

  /** One bottom-up step from u finds exactly the reverse-row children of u. */
  lemma OneStepRun(fwd: Adjacency, rev: Adjacency, n: nat, u: nat) returns (r: BfsResult)
    requires NodesBelow(rev, n)
    ensures Ran(fwd, rev, u, 1, [true], r)
    ensures forall v: nat :: v != u ==> (v in r.visited <==> u in rev(v))
  {
    var next := Select((v: nat) => v != u && u in rev(v), n);
    assert forall v: nat :: v in next <==> v != u && u in rev(v);
    OneLevel(u, next);
    StepFrom(fwd, rev, u, next);
    var ls := if next == [] then [[u]] else [[u], next];
    r := BfsResult(Flatten(ls), DepthTags(ls), ls, |ls| - 1);
    hide Flatten, DepthTags, NextIs, Select;
    assert ls[..1] == [[u]];
  }

  lemma OneLevel(u: nat, next: seq<nat>)
    ensures Flatten([[u]]) == [u] && Flatten([[u], next]) == [u] + next
  {
    assert [[u]][..0] == [] && [[u], next][..1] == [[u]];
  }

  lemma StepFrom(fwd: Adjacency, rev: Adjacency, u: nat, next: seq<nat>)
    requires Distinct(next) && forall v: nat :: v in next <==> v != u && u in rev(v)
    ensures NextIs(fwd, rev, true, [[u]], next)
  {
    OneLevel(u, next);
    assert forall v: nat :: InStep(rev, [u], v) <==> u in rev(v);
  }

  /** Every run of every choice of directions, from every start to every depth, is a breadth-first search
      if and only if the second adjacency holds the reversed edges, self-loops aside. */
  lemma AnyDirectionsExactIff(fwd: Adjacency, rev: Adjacency, n: nat)
    requires NodesBelow(fwd, n) && NodesBelow(rev, n)
    ensures (forall start: nat, maxDepth: nat, directions: seq<bool>, r: BfsResult ::
               start < n && Ran(fwd, rev, start, maxDepth, directions, r) ==> Exact(fwd, [start], maxDepth, r)) <==>
            ReversedOffLoops(fwd, rev)
  {
    hide Ran, Exact, LevelAgrees;
    if ReversedOffLoops(fwd, rev) {
      forall start: nat, maxDepth: nat, directions: seq<bool>, r: BfsResult
        | Ran(fwd, rev, start, maxDepth, directions, r)
        ensures Exact(fwd, [start], maxDepth, r)
      {
        forall d: nat ensures LevelAgrees(fwd, rev, start, d) { OffLoopsAgrees(fwd, rev, start, d); }
        RanIsExactIff(fwd, rev, start, maxDepth, directions, r);
      }
    }
    if forall start: nat, maxDepth: nat, directions: seq<bool>, r: BfsResult ::
         start < n && Ran(fwd, rev, start, maxDepth, directions, r) ==> Exact(fwd, [start], maxDepth, r)
    {
      forall u: nat, v: nat | u != v ensures v in fwd(u) <==> u in rev(v) {
        if u < n {
          var r := OneStepRun(fwd, rev, n, u);
          ExactMeans(fwd, [u], 1, r);
          WithinOne(fwd, u, v);
        }
      }
    }
  }

  lemma WithinOne(adj: Adjacency, u: nat, v: nat)
    ensures Within(adj, [u], v, 1) <==> v == u || v in adj(u)
  {
    assert forall w: nat :: ReachIn(adj, [u], w, 0) <==> w == u;
    if v == u { assert ReachIn(adj, [u], v, 0); }
    if v in adj(u) { assert ReachIn(adj, [u], u, 0) && ReachIn(adj, [u], v, 1); }
  }
}
