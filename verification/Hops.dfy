/** Hop distance, and what a finished breadth-first search promises.

    A graph is seen through its adjacency function alone, so one set of facts serves the base
    rows, the base+delta iterator, a compacted graph and a transpose. */
module Hops {

  type Adjacency = nat -> seq<nat>

  /** Some walk of exactly k edges leads from a start to v. */
  ghost predicate ReachIn(adj: Adjacency, starts: seq<nat>, v: nat, k: nat)
    decreases k
  {
    if k == 0 then v in starts
    else exists u: nat :: ReachIn(adj, starts, u, k - 1) && v in adj(u)
  }

  ghost predicate Within(adj: Adjacency, starts: seq<nat>, v: nat, k: nat) {
    exists j: nat :: j <= k && ReachIn(adj, starts, v, j)
  }

  /** The shortest walk from a start to v has exactly k edges. */
  ghost predicate AtDist(adj: Adjacency, starts: seq<nat>, v: nat, k: nat) {
    ReachIn(adj, starts, v, k) && forall j: nat :: j < k ==> !ReachIn(adj, starts, v, j)
  }

  /** What the traversal kernels return (`edges_examined` is not part of this model). */
  datatype BfsResult = BfsResult(
    visited: seq<nat>, depths: seq<nat>, levels: seq<seq<nat>>, maxDepthReached: nat)

  const EMPTY_RESULT := BfsResult([], [], [], 0)

  predicate Distinct<T(==)>(s: seq<T>) {
    forall i, j :: 0 <= i < j < |s| ==> s[i] != s[j]
  }

  function Flatten<T>(ls: seq<seq<T>>): seq<T> {
    if ls == [] then [] else Flatten(ls[..|ls| - 1]) + ls[|ls| - 1]
  }

  /** Parallel to Flatten: the level number of each node. */
  function DepthTags<T>(ls: seq<seq<T>>): (tags: seq<nat>)
    ensures |tags| == |Flatten(ls)|
  {
    if ls == [] then []
    else DepthTags(ls[..|ls| - 1]) + seq(|ls[|ls| - 1]|, _ => |ls| - 1)
  }

  /** The three views of a result agree: `levels` concatenates to `visited`, `depths` numbers the levels. */
  ghost predicate Regular(r: BfsResult) {
    && r.visited == Flatten(r.levels)
    && r.depths == DepthTags(r.levels)
    && (forall d :: 0 <= d < |r.levels| ==> r.levels[d] != [])
    && r.maxDepthReached == if r.levels == [] then 0 else |r.levels| - 1
  }

  /** Level d holds, once each, the nodes at distance d; levels stop only at maxDepth or when nothing is left. */
  ghost predicate Exact(adj: Adjacency, starts: seq<nat>, maxDepth: nat, r: BfsResult) {
    && Regular(r)
    && |r.levels| <= maxDepth + 1
    && (forall d :: 0 <= d < |r.levels| ==> IsLevel(adj, starts, d, r.levels[d]))
    && (|r.levels| <= maxDepth ==> forall v: nat :: !AtDist(adj, starts, v, |r.levels|))
  }

  ghost predicate IsLevel(adj: Adjacency, starts: seq<nat>, d: nat, level: seq<nat>) {
    Distinct(level) && forall v: nat :: v in level <==> AtDist(adj, starts, v, d)
  }

  /** `BfsResult::depth_of`. */
  function DepthOf(r: BfsResult, v: nat): (o: int)
    requires |r.visited| == |r.depths|
    ensures o >= -1 && (o == -1 <==> v !in r.visited)
  {
    var i := Position(r.visited, v);
    if i < |r.visited| then r.depths[i] else -1
  }

  function Position(s: seq<nat>, v: nat): (i: nat)
    ensures i <= |s| && (i < |s| ==> s[i] == v) && (i == |s| <==> v !in s)
  {
    if s == [] then 0 else if s[0] == v then 0 else 1 + Position(s[1..], v)
  }

  // ----- distances

  lemma {:induction false} WithinHasDist(adj: Adjacency, starts: seq<nat>, v: nat, k: nat) returns (d: nat)
    requires Within(adj, starts, v, k)
    ensures d <= k && AtDist(adj, starts, v, d)
  {
    if k > 0 && Within(adj, starts, v, k - 1) {
      d := WithinHasDist(adj, starts, v, k - 1);
    } else {
      d := k;
    }
  }

  lemma DistUnique(adj: Adjacency, starts: seq<nat>, v: nat, j: nat, k: nat)
    requires AtDist(adj, starts, v, j) && AtDist(adj, starts, v, k)
    ensures j == k
  {
  }

  /** The breadth-first step: distance d+1 is what one edge from distance d reaches for the first time. */
  lemma NextDist(adj: Adjacency, starts: seq<nat>, v: nat, d: nat)
    ensures AtDist(adj, starts, v, d + 1) <==>
            !Within(adj, starts, v, d) && exists u: nat :: AtDist(adj, starts, u, d) && v in adj(u)
  {
    if AtDist(adj, starts, v, d + 1) {
      var u: nat :| ReachIn(adj, starts, u, d) && v in adj(u);
      forall j: nat | j < d ensures !ReachIn(adj, starts, u, j) {
        if ReachIn(adj, starts, u, j) { assert ReachIn(adj, starts, v, j + 1); }
      }
      assert AtDist(adj, starts, u, d);
    }
  }

  lemma NothingBeyond(adj: Adjacency, starts: seq<nat>, d: nat, e: nat)
    requires d <= e
    requires forall v: nat :: !AtDist(adj, starts, v, d)
    ensures forall v: nat :: !AtDist(adj, starts, v, e)
    decreases e - d
  {
    if d < e {
      var next := d + 1;
      forall v: nat ensures !AtDist(adj, starts, v, next) { NextDist(adj, starts, v, d); }
      NothingBeyond(adj, starts, next, e);
    }
  }

  lemma {:induction false} SameReach(adj1: Adjacency, adj2: Adjacency, starts: seq<nat>, v: nat, k: nat)
    requires SameNeighbours(adj1, adj2)
    ensures ReachIn(adj1, starts, v, k) <==> ReachIn(adj2, starts, v, k)
    decreases k
  {
    if k == 0 {
    } else {
      var j := k - 1;
      forall u: nat ensures ReachIn(adj1, starts, u, j) <==> ReachIn(adj2, starts, u, j) {
        SameReach(adj1, adj2, starts, u, j);
      }
      if ReachIn(adj1, starts, v, k) {
        var u: nat :| ReachIn(adj1, starts, u, j) && v in adj1(u);
        assert v in adj2(u);
      }
      if ReachIn(adj2, starts, v, k) {
        var u: nat :| ReachIn(adj2, starts, u, j) && v in adj2(u);
        assert v in adj1(u);
      }
    }
  }

  ghost predicate SameNeighbours(adj1: Adjacency, adj2: Adjacency) {
    forall u: nat, v: nat :: v in adj1(u) <==> v in adj2(u)
  }

  lemma SameDist(adj1: Adjacency, adj2: Adjacency, starts: seq<nat>, v: nat, k: nat)
    requires SameNeighbours(adj1, adj2)
    ensures AtDist(adj1, starts, v, k) <==> AtDist(adj2, starts, v, k)
  {
    forall j: nat ensures ReachIn(adj1, starts, v, j) <==> ReachIn(adj2, starts, v, j) {
      SameReach(adj1, adj2, starts, v, j);
    }
  }

  // ----- reversed walks

  ghost predicate Reversed(adj: Adjacency, rev: Adjacency) {
    forall u: nat, v: nat :: v in adj(u) <==> u in rev(v)
  }

  /** Peels the first edge of a walk instead of the last. */
  lemma FirstEdge(adj: Adjacency, x: nat, v: nat, k: nat)
    ensures ReachIn(adj, [x], v, k + 1) <==> exists w: nat :: w in adj(x) && ReachIn(adj, [w], v, k)
  {
    if ReachIn(adj, [x], v, k + 1) { var w := SplitFirst(adj, x, v, k); }
    if w: nat :| w in adj(x) && ReachIn(adj, [w], v, k) { PrependEdge(adj, x, w, v, k); }
  }

  lemma {:induction false} SplitFirst(adj: Adjacency, x: nat, v: nat, k: nat) returns (w: nat)
    requires ReachIn(adj, [x], v, k + 1)
    ensures w in adj(x) && ReachIn(adj, [w], v, k)
    decreases k
  {
    var u: nat :| ReachIn(adj, [x], u, k) && v in adj(u);
    if k == 0 { w := v; } else { w := SplitFirst(adj, x, u, k - 1); }
  }

  lemma {:induction false} PrependEdge(adj: Adjacency, x: nat, w: nat, v: nat, k: nat)
    requires w in adj(x) && ReachIn(adj, [w], v, k)
    ensures ReachIn(adj, [x], v, k + 1)
    decreases k
  {
    if k == 0 {
      assert ReachIn(adj, [x], x, 0) && v == w;
    } else {
      var u: nat :| ReachIn(adj, [w], u, k - 1) && v in adj(u);
      PrependEdge(adj, x, w, u, k - 1);
    }
  }

  /** A walk of k edges from x to v is a walk of k reversed edges from v to x. */
  lemma {:induction false} ReversedWalk(adj: Adjacency, rev: Adjacency, x: nat, v: nat, k: nat)
    requires Reversed(adj, rev)
    ensures ReachIn(rev, [x], v, k) <==> ReachIn(adj, [v], x, k)
    decreases k
  {
    if k == 0 {
    } else {
      FirstEdge(adj, v, x, k - 1);
      if ReachIn(rev, [x], v, k) {
        var u: nat :| ReachIn(rev, [x], u, k - 1) && v in rev(u);
        ReversedWalk(adj, rev, x, u, k - 1);
        assert u in adj(v);
      }
      if u: nat :| u in adj(v) && ReachIn(adj, [u], x, k - 1) {
        ReversedWalk(adj, rev, x, u, k - 1);
        assert v in rev(u);
      }
    }
  }

  lemma ReversedDist(adj: Adjacency, rev: Adjacency, x: nat, v: nat, k: nat)
    requires Reversed(adj, rev)
    ensures AtDist(rev, [x], v, k) <==> AtDist(adj, [v], x, k)
  {
    forall j: nat ensures ReachIn(rev, [x], v, j) <==> ReachIn(adj, [v], x, j) {
      ReversedWalk(adj, rev, x, v, j);
    }
  }

  // ----- reading a result

  lemma {:induction false} FlattenAt<T>(ls: seq<seq<T>>, i: nat)
    requires i < |Flatten(ls)|
    ensures DepthTags(ls)[i] < |ls| && Flatten(ls)[i] in ls[DepthTags(ls)[i]]
  {
    var n := |ls| - 1;
    if i < |Flatten(ls[..n])| { FlattenAt(ls[..n], i); }
  }

  lemma {:induction false} FlattenFind<T>(ls: seq<seq<T>>, d: nat, v: T) returns (i: nat)
    requires d < |ls| && v in ls[d]
    ensures i < |Flatten(ls)| && Flatten(ls)[i] == v && DepthTags(ls)[i] == d
  {
    var n := |ls| - 1;
    if d == n {
      var j :| 0 <= j < |ls[n]| && ls[n][j] == v;
      i := |Flatten(ls[..n])| + j;
    } else {
      i := FlattenFind(ls[..n], d, v);
    }
  }

  lemma {:induction false} TagsSorted<T>(ls: seq<seq<T>>, i: nat, j: nat)
    requires i <= j < |Flatten(ls)|
    ensures DepthTags(ls)[i] <= DepthTags(ls)[j]
  {
    var n := |ls| - 1;
    if j < |Flatten(ls[..n])| { TagsSorted(ls[..n], i, j); } else { FlattenAt(ls, i); }
  }

  lemma {:induction false} LevelsDistinct(adj: Adjacency, starts: seq<nat>, ls: seq<seq<nat>>)
    requires forall d :: 0 <= d < |ls| ==> IsLevel(adj, starts, d, ls[d])
    ensures Distinct(Flatten(ls))
  {
    if ls == [] {
    } else {
      var n := |ls| - 1;
      LevelsDistinct(adj, starts, ls[..n]);
      var front := Flatten(ls[..n]);
      forall i, j | 0 <= i < |front| && 0 <= j < |ls[n]| ensures front[i] != ls[n][j] {
        FlattenAt(ls[..n], i);
        if front[i] == ls[n][j] { DistUnique(adj, starts, front[i], DepthTags(ls[..n])[i], n); }
      }
    }
  }

  /** An exact result in a caller's words: every node within maxDepth hops, once, with its hop
      distance, nearest first. */
  lemma ExactMeans(adj: Adjacency, starts: seq<nat>, maxDepth: nat, r: BfsResult)
    requires Exact(adj, starts, maxDepth, r)
    ensures |r.visited| == |r.depths| && Distinct(r.visited)
    ensures forall v: nat :: v in r.visited <==> Within(adj, starts, v, maxDepth)
    ensures forall i :: 0 <= i < |r.visited| ==>
              r.depths[i] <= maxDepth && AtDist(adj, starts, r.visited[i], r.depths[i])
    ensures forall i, j :: 0 <= i <= j < |r.visited| ==> r.depths[i] <= r.depths[j]
    ensures forall v: nat, k: nat :: DepthOf(r, v) == k <==> k <= maxDepth && AtDist(adj, starts, v, k)
  {
    LevelsDistinct(adj, starts, r.levels);
    forall i | 0 <= i < |r.visited|
      ensures r.depths[i] <= maxDepth && AtDist(adj, starts, r.visited[i], r.depths[i])
    {
      FlattenAt(r.levels, i);
    }
    forall i, j | 0 <= i <= j < |r.visited| ensures r.depths[i] <= r.depths[j] { TagsSorted(r.levels, i, j); }
    forall v: nat, k: nat | k <= maxDepth && AtDist(adj, starts, v, k) ensures v in r.visited {
      if k < |r.levels| {
        var i := FlattenFind(r.levels, k, v);
      } else {
        NothingBeyond(adj, starts, |r.levels|, k);
      }
    }
    forall v: nat ensures v in r.visited <==> Within(adj, starts, v, maxDepth) {
      if v in r.visited {
        var i :| 0 <= i < |r.visited| && r.visited[i] == v;
        assert AtDist(adj, starts, v, r.depths[i]);
      } else if Within(adj, starts, v, maxDepth) {
        var k := WithinHasDist(adj, starts, v, maxDepth);
      }
    }
    forall v: nat, k: nat ensures DepthOf(r, v) == k <==> k <= maxDepth && AtDist(adj, starts, v, k) {
      var i := Position(r.visited, v);
      if i < |r.visited| {
        assert AtDist(adj, starts, v, r.depths[i]);
        if AtDist(adj, starts, v, k) { DistUnique(adj, starts, v, k, r.depths[i]); }
      }
    }
  }

  lemma LevelMember(adj: Adjacency, starts: seq<nat>, maxDepth: nat, r: BfsResult, d: nat) returns (v: nat)
    requires Exact(adj, starts, maxDepth, r) && d < |r.levels|
    ensures AtDist(adj, starts, v, d)
  {
    v := r.levels[d][0];
    assert v in r.levels[d];
  }

  lemma NoFewerLevels(adj1: Adjacency, adj2: Adjacency, starts: seq<nat>, maxDepth: nat, r1: BfsResult, r2: BfsResult)
    requires SameNeighbours(adj1, adj2)
    requires Exact(adj1, starts, maxDepth, r1) && Exact(adj2, starts, maxDepth, r2)
    ensures |r2.levels| <= |r1.levels|
  {
    if |r1.levels| < |r2.levels| {
      var v := LevelMember(adj2, starts, maxDepth, r2, |r1.levels|);
      SameDist(adj1, adj2, starts, v, |r1.levels|);
    }
  }

  /** Two exact results over graphs with the same neighbour sets differ only in the order inside a level. */
  lemma ExactAgree(adj1: Adjacency, adj2: Adjacency, starts: seq<nat>, maxDepth: nat, r1: BfsResult, r2: BfsResult)
    requires SameNeighbours(adj1, adj2)
    requires Exact(adj1, starts, maxDepth, r1) && Exact(adj2, starts, maxDepth, r2)
    ensures |r1.levels| == |r2.levels| && r1.maxDepthReached == r2.maxDepthReached
    ensures forall d :: 0 <= d < |r1.levels| ==> multiset(r1.levels[d]) == multiset(r2.levels[d])
    ensures multiset(r1.visited) == multiset(r2.visited)
    ensures |r1.visited| == |r1.depths| && |r2.visited| == |r2.depths|
    ensures forall v: nat :: DepthOf(r1, v) == DepthOf(r2, v)
  {
    forall v: nat, k: nat ensures AtDist(adj1, starts, v, k) <==> AtDist(adj2, starts, v, k) {
      SameDist(adj1, adj2, starts, v, k);
    }
    NoFewerLevels(adj1, adj2, starts, maxDepth, r1, r2);
    NoFewerLevels(adj2, adj1, starts, maxDepth, r2, r1);
    forall d | 0 <= d < |r1.levels| ensures multiset(r1.levels[d]) == multiset(r2.levels[d]) {
      SameElements(r1.levels[d], r2.levels[d]);
    }
    FlattenMultiset(r1.levels, r2.levels);
    ExactMeans(adj1, starts, maxDepth, r1);
    ExactMeans(adj2, starts, maxDepth, r2);
    forall v: nat ensures DepthOf(r1, v) == DepthOf(r2, v) {
      if DepthOf(r1, v) >= 0 { assert DepthOf(r2, v) == DepthOf(r1, v) as nat; }
      if DepthOf(r2, v) >= 0 { assert DepthOf(r1, v) == DepthOf(r2, v) as nat; }
    }
  }

  lemma {:induction false} FlattenMultiset(a: seq<seq<nat>>, b: seq<seq<nat>>)
    requires |a| == |b|
    requires forall d :: 0 <= d < |a| ==> multiset(a[d]) == multiset(b[d])
    ensures multiset(Flatten(a)) == multiset(Flatten(b))
  {
    if a == [] {
    } else {
      FlattenMultiset(a[..|a| - 1], b[..|b| - 1]);
    }
  }

  lemma {:induction false} DistinctCount<T>(s: seq<T>, x: T)
    requires Distinct(s)
    ensures multiset(s)[x] == if x in s then 1 else 0
  {
    if s == [] {
    } else {
      var n := |s| - 1;
      assert s == s[..n] + [s[n]];
      DistinctCount(s[..n], x);
      assert s[n] !in s[..n];
    }
  }

  lemma SameElements<T>(a: seq<T>, b: seq<T>)
    requires Distinct(a) && Distinct(b)
    requires forall x :: x in a <==> x in b
    ensures multiset(a) == multiset(b)
  {
    forall x: T ensures multiset(a)[x] == multiset(b)[x] { DistinctCount(a, x); DistinctCount(b, x); }
  }

  /** Pigeonhole: distinct members of a finite set cannot outnumber it. */
  lemma {:induction false} DistinctFits<T>(s: seq<T>, u: set<T>)
    requires Distinct(s) && forall x :: x in s ==> x in u
    ensures |s| <= |u|
  {
    if s == [] {
    } else {
      var n := |s| - 1;
      assert s[n] in s && s[n] !in s[..n];
      DistinctFits(s[..n], u - {s[n]});
    }
  }
}
