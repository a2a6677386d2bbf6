/** The order in which the queue-based search admits nodes, as a function of the adjacency order.

    `Queue(adj, roots, maxDepth, k)` is everything ever pushed once the first k entries have been
    popped and expanded. It needs no termination argument, so the capped search, the uncapped
    search and their relation are all stated with it. */
module Admission {
  import opened Hops

  datatype Entry = Entry(node: nat, depth: nat)

  ghost predicate Has(q: seq<Entry>, n: nat) {
    exists i :: 0 <= i < |q| && q[i].node == n
  }

  /** Pushes, in order, every member of ns that is not yet in q. */
  ghost function Admit(q: seq<Entry>, ns: seq<nat>, depth: nat): seq<Entry> {
    if ns == [] then q
    else
      var front := Admit(q, ns[..|ns| - 1], depth);
      if Has(front, ns[|ns| - 1]) then front else front + [Entry(ns[|ns| - 1], depth)]
  }

  ghost function Expand(adj: Adjacency, maxDepth: nat, q: seq<Entry>, k: nat): seq<Entry>
    requires k < |q|
  {
    if q[k].depth >= maxDepth then q else Admit(q, adj(q[k].node), q[k].depth + 1)
  }

  ghost function Queue(adj: Adjacency, roots: seq<nat>, maxDepth: nat, k: nat): seq<Entry>
    decreases k
  {
    if k == 0 then Admit([], roots, 0)
    else
      var q := Queue(adj, roots, maxDepth, k - 1);
      if k - 1 < |q| then Expand(adj, maxDepth, q, k - 1) else q
  }

  /** The first `cap` entries. */
  function Trunc(q: seq<Entry>, cap: nat): (t: seq<Entry>)
    ensures |t| == if |q| <= cap then |q| else cap
    ensures t <= q
  {
    if |q| <= cap then q else q[..cap]
  }

  function PairUp(ns: seq<nat>, ds: seq<nat>): (q: seq<Entry>)
    requires |ns| == |ds|
    ensures |q| == |ns| && forall i :: 0 <= i < |q| ==> q[i] == Entry(ns[i], ds[i])
  {
    seq(|ns|, i requires 0 <= i < |ns| => Entry(ns[i], ds[i]))
  }

  function Entries(r: BfsResult): (q: seq<Entry>)
    requires |r.visited| == |r.depths|
    ensures |q| == |r.visited|
  {
    PairUp(r.visited, r.depths)
  }

  // ----- admission only appends

  lemma {:induction false} AdmitGrows(q: seq<Entry>, ns: seq<nat>, depth: nat)
    ensures q <= Admit(q, ns, depth)
    ensures forall n: nat :: Has(Admit(q, ns, depth), n) <==> Has(q, n) || n in ns
    ensures forall i :: |q| <= i < |Admit(q, ns, depth)| ==>
              Admit(q, ns, depth)[i].depth == depth && Admit(q, ns, depth)[i].node in ns
  {
    if ns == [] {
    } else {
      var m := |ns| - 1;
      AdmitGrows(q, ns[..m], depth);
      var front := Admit(q, ns[..m], depth);
      var all := Admit(q, ns, depth);
      assert ns == ns[..m] + [ns[m]];
      if !Has(front, ns[m]) {
        assert all[|front|].node == ns[m];
        forall n: nat | Has(front, n) ensures Has(all, n) {
          var i :| 0 <= i < |front| && front[i].node == n;
          assert all[i].node == n;
        }
      }
    }
  }

  /** Members are admitted in the order of the list: each is the first one that is not there yet. */
  lemma {:induction false} AdmitsInOrder(q: seq<Entry>, ns: seq<nat>, depth: nat, i: nat)
    requires |q| <= i < |Admit(q, ns, depth)|
    ensures var all := Admit(q, ns, depth);
            exists p :: 0 <= p < |ns| && ns[p] == all[i].node && !Has(all[..i], ns[p]) &&
              forall k :: 0 <= k < p ==> Has(all[..i], ns[k])
  {
    var m := |ns| - 1;
    var front, all := Admit(q, ns[..m], depth), Admit(q, ns, depth);
    if i < |front| {
      AdmitsInOrder(q, ns[..m], depth, i);
      assert all[..i] == front[..i];
      var p :| 0 <= p < m && ns[..m][p] == front[i].node && !Has(front[..i], ns[..m][p]) &&
        forall k :: 0 <= k < p ==> Has(front[..i], ns[..m][k]);
      assert forall k :: 0 <= k < p ==> ns[..m][k] == ns[k];
    } else {
      AdmitGrows(q, ns[..m], depth);
      assert all[..i] == front;
      assert forall k :: 0 <= k < m ==> ns[k] in ns[..m];
    }
  }

  ghost predicate DistinctNodes(q: seq<Entry>) {
    forall i, j :: 0 <= i < j < |q| ==> q[i].node != q[j].node
  }

  lemma {:induction false} AdmitDistinct(q: seq<Entry>, ns: seq<nat>, depth: nat)
    requires DistinctNodes(q)
    ensures DistinctNodes(Admit(q, ns, depth))
  {
    if ns == [] {
    } else {
      AdmitDistinct(q, ns[..|ns| - 1], depth);
    }
  }

  lemma {:induction false} QueueGrows(adj: Adjacency, roots: seq<nat>, maxDepth: nat, j: nat, k: nat)
    requires j <= k
    ensures Queue(adj, roots, maxDepth, j) <= Queue(adj, roots, maxDepth, k)
    decreases k
  {
    hide Admit, Has;
    if j < k {
      QueueGrows(adj, roots, maxDepth, j, k - 1);
      var q := Queue(adj, roots, maxDepth, k - 1);
      if k - 1 < |q| { AdmitGrows(q, adj(q[k - 1].node), q[k - 1].depth + 1); }
    }
  }

  /** Once everything pushed has been expanded, nothing more is ever pushed. */
  lemma {:induction false} QueueStable(adj: Adjacency, roots: seq<nat>, maxDepth: nat, j: nat, k: nat)
    requires j <= k && |Queue(adj, roots, maxDepth, j)| <= j
    ensures Queue(adj, roots, maxDepth, k) == Queue(adj, roots, maxDepth, j)
    decreases k
  {
    if j < k { QueueStable(adj, roots, maxDepth, j, k - 1); }
  }

  // ----- the queue invariant

  ghost predicate QueueInv(adj: Adjacency, roots: seq<nat>, maxDepth: nat, q: seq<Entry>, k: nat) {
    && k <= |q|
    && DistinctNodes(q)
    && Sound(adj, roots, maxDepth, q)
    && Contiguous(q)
    && Shallow(q, k)
    && RootsIn(roots, q)
    && Covered(adj, maxDepth, q, k)
  }

  /** Each recorded depth is one the node can be reached in. */
  ghost predicate Sound(adj: Adjacency, roots: seq<nat>, maxDepth: nat, q: seq<Entry>) {
    forall i :: 0 <= i < |q| ==> q[i].depth <= maxDepth && ReachIn(adj, roots, q[i].node, q[i].depth)
  }

  /** Nothing pushed lies more than one level below the next entry to expand. */
  ghost predicate Shallow(q: seq<Entry>, k: nat) {
    k < |q| ==> forall i :: 0 <= i < |q| ==> q[i].depth <= q[k].depth + 1
  }

  ghost predicate RootsIn(roots: seq<nat>, q: seq<Entry>) {
    forall s :: s in roots ==> HasBy(q, s, 0)
  }

  /** Every neighbour of an expanded entry is present, no deeper than one level below it. */
  ghost predicate Covered(adj: Adjacency, maxDepth: nat, q: seq<Entry>, k: nat) {
    forall j, m :: 0 <= j < k && j < |q| && q[j].depth < maxDepth && m in adj(q[j].node) ==> HasBy(q, m, q[j].depth + 1)
  }

  /** Depths start at zero and grow by at most one from each entry to the next. */
  ghost predicate Contiguous(q: seq<Entry>) {
    && (q != [] ==> q[0].depth == 0)
    && (forall i {:trigger q[i].depth} :: 0 < i < |q| ==> q[i - 1].depth <= q[i].depth <= q[i - 1].depth + 1)
  }

  ghost predicate HasBy(q: seq<Entry>, n: nat, depth: nat) {
    exists i :: 0 <= i < |q| && q[i].node == n && q[i].depth <= depth
  }

  lemma HasByGrows(q: seq<Entry>, q': seq<Entry>, n: nat, depth: nat)
    requires q <= q' && HasBy(q, n, depth)
    ensures HasBy(q', n, depth)
  {
    var i :| 0 <= i < |q| && q[i].node == n && q[i].depth <= depth;
    assert q'[i] == q[i];
  }

  lemma {:induction false} ContiguousSorted(q: seq<Entry>, i: nat, j: nat)
    requires Contiguous(q) && i <= j < |q|
    ensures q[i].depth <= q[j].depth
  {
    if i < j { ContiguousSorted(q, i, j - 1); assert q[j - 1].depth <= q[j].depth; }
  }

  lemma {:induction false} QueueKeepsInv(adj: Adjacency, roots: seq<nat>, maxDepth: nat, k: nat)
    requires k <= |Queue(adj, roots, maxDepth, k)|
    ensures QueueInv(adj, roots, maxDepth, Queue(adj, roots, maxDepth, k), k)
    decreases k
  {
    if k == 0 {
      SeedKeepsInv(adj, roots, maxDepth);
    } else {
      var q := Queue(adj, roots, maxDepth, k - 1);
      assert k - 1 < |q|;
      QueueKeepsInv(adj, roots, maxDepth, k - 1);
      assert QueueInv(adj, roots, maxDepth, q, k - 1);
      ExpandKeepsInv(adj, roots, maxDepth, q, k - 1);
      assert Queue(adj, roots, maxDepth, k) == Expand(adj, maxDepth, q, k - 1);
    }
  }

  lemma SeedKeepsInv(adj: Adjacency, roots: seq<nat>, maxDepth: nat)
    ensures QueueInv(adj, roots, maxDepth, Admit([], roots, 0), 0)
  {
    var q := Admit([], roots, 0);
    AdmitGrows([], roots, 0);
    AdmitDistinct([], roots, 0);
    hide DistinctNodes;
    assert forall i :: 0 <= i < |q| ==> q[i].depth == 0 && q[i].node in roots;
    SeedHasRoots(roots, q);
    SeedIsSound(adj, roots, maxDepth, q);
  }

  lemma SeedHasRoots(roots: seq<nat>, q: seq<Entry>)
    requires forall s :: s in roots ==> Has(q, s)
    requires forall i :: 0 <= i < |q| ==> q[i].depth == 0
    ensures RootsIn(roots, q)
  {
  }

  lemma SeedIsSound(adj: Adjacency, roots: seq<nat>, maxDepth: nat, q: seq<Entry>)
    requires forall i :: 0 <= i < |q| ==> q[i].depth == 0 && q[i].node in roots
    ensures Sound(adj, roots, maxDepth, q) && Contiguous(q) && Shallow(q, 0) && Covered(adj, maxDepth, q, 0)
  {
  }

  lemma ExpandKeepsInv(adj: Adjacency, roots: seq<nat>, maxDepth: nat, q: seq<Entry>, k: nat)
    requires QueueInv(adj, roots, maxDepth, q, k) && k < |q|
    ensures QueueInv(adj, roots, maxDepth, Expand(adj, maxDepth, q, k), k + 1)
  {
    hide Expand, DistinctNodes, Sound, Shallow, RootsIn, Covered, Contiguous;
    ExpandShape(adj, maxDepth, q, k);
    ExpandDepths(q, Expand(adj, maxDepth, q, k), k);
    ExpandReaches(adj, roots, maxDepth, q, k);
    ExpandCovers(adj, maxDepth, q, k);
    ExpandRoots(roots, q, Expand(adj, maxDepth, q, k));
  }

  lemma ExpandShape(adj: Adjacency, maxDepth: nat, q: seq<Entry>, k: nat)
    requires k < |q| && DistinctNodes(q)
    ensures q <= Expand(adj, maxDepth, q, k) && DistinctNodes(Expand(adj, maxDepth, q, k))
    ensures forall i :: |q| <= i < |Expand(adj, maxDepth, q, k)| ==>
              Expand(adj, maxDepth, q, k)[i].depth == q[k].depth + 1
  {
    if q[k].depth < maxDepth {
      AdmitGrows(q, adj(q[k].node), q[k].depth + 1);
      AdmitDistinct(q, adj(q[k].node), q[k].depth + 1);
    }
  }

  lemma ExpandIs(adj: Adjacency, maxDepth: nat, q: seq<Entry>, k: nat)
    requires k < |q|
    ensures Expand(adj, maxDepth, q, k) ==
            if q[k].depth >= maxDepth then q else Admit(q, adj(q[k].node), q[k].depth + 1)
  {
    hide Admit;
  }

  lemma ExpandRoots(roots: seq<nat>, q: seq<Entry>, q': seq<Entry>)
    requires q <= q' && RootsIn(roots, q)
    ensures RootsIn(roots, q')
  {
    forall s | s in roots ensures HasBy(q', s, 0) { HasByGrows(q, q', s, 0); }
  }

  /** New entries go one level below the entry being expanded. */
  lemma ExpandDepths(q: seq<Entry>, q': seq<Entry>, k: nat)
    requires k < |q| && q <= q' && Contiguous(q) && Shallow(q, k)
    requires forall i :: |q| <= i < |q'| ==> q'[i].depth == q[k].depth + 1
    ensures Contiguous(q') && Shallow(q', k + 1)
  {
    ContiguousSorted(q, k, |q| - 1);
    forall i {:trigger q'[i].depth} | 0 < i < |q'|
      ensures q'[i - 1].depth <= q'[i].depth <= q'[i - 1].depth + 1
    {
      if i < |q| {
        assert q[i - 1].depth <= q[i].depth <= q[i - 1].depth + 1;
      } else if i == |q| {
        assert q'[i - 1] == q[i - 1];
      }
    }
    assert Contiguous(q');
    if k + 1 < |q'| { ContiguousSorted(q', k, k + 1); }
  }

  lemma ExpandReaches(adj: Adjacency, roots: seq<nat>, maxDepth: nat, q: seq<Entry>, k: nat)
    requires k < |q| && Sound(adj, roots, maxDepth, q)
    ensures Sound(adj, roots, maxDepth, Expand(adj, maxDepth, q, k))
  {
    hide Expand, Admit, Has;
    ExpandIs(adj, maxDepth, q, k);
    if q[k].depth < maxDepth {
      var q' := Expand(adj, maxDepth, q, k);
      AdmitGrows(q, adj(q[k].node), q[k].depth + 1);
      forall i | 0 <= i < |q'| ensures q'[i].depth <= maxDepth && ReachIn(adj, roots, q'[i].node, q'[i].depth) {
        if i >= |q| {
          StepReaches(adj, roots, q[k].node, q'[i].node, q[k].depth);
        } else {
          assert q'[i] == q[i];
        }
      }
    }
  }

  lemma StepReaches(adj: Adjacency, roots: seq<nat>, u: nat, v: nat, d: nat)
    requires ReachIn(adj, roots, u, d) && v in adj(u)
    ensures ReachIn(adj, roots, v, d + 1)
  {
  }

  lemma ExpandCovers(adj: Adjacency, maxDepth: nat, q: seq<Entry>, k: nat)
    requires k < |q| && Shallow(q, k) && Covered(adj, maxDepth, q, k)
    ensures Covered(adj, maxDepth, Expand(adj, maxDepth, q, k), k + 1)
  {
    var q' := Expand(adj, maxDepth, q, k);
    if q[k].depth < maxDepth { AdmitGrows(q, adj(q[k].node), q[k].depth + 1); }
    forall j, m | 0 <= j < k + 1 && q'[j].depth < maxDepth && m in adj(q'[j].node)
      ensures HasBy(q', m, q'[j].depth + 1)
    {
      if j < k {
        HasByGrows(q, q', m, q[j].depth + 1);
      } else {
        assert Has(q', m);
        var i :| 0 <= i < |q'| && q'[i].node == m;
        assert q'[i].depth <= q[k].depth + 1;
      }
    }
  }

  /** A finished queue misses nothing: a node reachable in L <= maxDepth steps is in it, no deeper than L. */
  lemma {:induction false} FinishedCovers(adj: Adjacency, roots: seq<nat>, maxDepth: nat, q: seq<Entry>, v: nat, L: nat)
    requires QueueInv(adj, roots, maxDepth, q, |q|)
    requires L <= maxDepth && ReachIn(adj, roots, v, L)
    ensures HasBy(q, v, L)
    decreases L
  {
    if L == 0 {
    } else {
      var u: nat :| ReachIn(adj, roots, u, L - 1) && v in adj(u);
      FinishedCovers(adj, roots, maxDepth, q, u, L - 1);
      var j :| 0 <= j < |q| && q[j].node == u && q[j].depth <= L - 1;
      assert HasBy(q, v, q[j].depth + 1);
    }
  }

  /** Each entry of a finished queue carries its node's exact hop distance. */
  lemma FinishedIsDist(adj: Adjacency, roots: seq<nat>, maxDepth: nat, q: seq<Entry>, v: nat, d: nat)
    requires QueueInv(adj, roots, maxDepth, q, |q|)
    ensures Entry(v, d) in q <==> d <= maxDepth && AtDist(adj, roots, v, d)
  {
    if Entry(v, d) in q {
      var i :| 0 <= i < |q| && q[i] == Entry(v, d);
      forall j: nat | j < d ensures !ReachIn(adj, roots, v, j) {
        if ReachIn(adj, roots, v, j) { FinishedCovers(adj, roots, maxDepth, q, v, j); }
      }
    }
    if d <= maxDepth && AtDist(adj, roots, v, d) {
      FinishedCovers(adj, roots, maxDepth, q, v, d);
      var i :| 0 <= i < |q| && q[i].node == v && q[i].depth <= d;
      assert !(q[i].depth < d) by { assert ReachIn(adj, roots, v, q[i].depth); }
      assert q[i] == Entry(v, d);
    }
  }

  /** A regular result that lists a finished queue is exact. */
  lemma FinishedIsExact(adj: Adjacency, roots: seq<nat>, maxDepth: nat, r: BfsResult)
    requires Regular(r)
    requires Entries(r) == Queue(adj, roots, maxDepth, |r.visited|)
    ensures Exact(adj, roots, maxDepth, r)
  {
    var q := Entries(r);
    QueueKeepsInv(adj, roots, maxDepth, |q|);
    assert DistinctNodes(q);
    forall v: nat, d: nat ensures Entry(v, d) in q <==> d <= maxDepth && AtDist(adj, roots, v, d) {
      FinishedIsDist(adj, roots, maxDepth, q, v, d);
    }
    ListsDistances(adj, roots, maxDepth, r);
  }

  lemma LevelHolds(r: BfsResult, v: nat, d: nat)
    requires Regular(r)
    ensures Entry(v, d) in Entries(r) <==> d < |r.levels| && v in r.levels[d]
  {
    var q := Entries(r);
    if d < |r.levels| && v in r.levels[d] {
      var i := FlattenFind(r.levels, d, v);
      assert q[i] == Entry(v, d);
    }
    if Entry(v, d) in q {
      var i :| 0 <= i < |q| && q[i] == Entry(v, d);
      FlattenAt(r.levels, i);
    }
  }

  lemma ListsDistances(adj: Adjacency, roots: seq<nat>, maxDepth: nat, r: BfsResult)
    requires Regular(r) && DistinctNodes(Entries(r))
    requires forall v: nat, d: nat :: Entry(v, d) in Entries(r) <==> d <= maxDepth && AtDist(adj, roots, v, d)
    ensures Exact(adj, roots, maxDepth, r)
  {
    var q := Entries(r);
    assert Distinct(r.visited) by {
      forall i, j | 0 <= i < j < |r.visited| ensures r.visited[i] != r.visited[j] {
        assert q[i].node != q[j].node;
      }
    }
    forall d | 0 <= d < |r.levels| ensures d <= maxDepth && IsLevel(adj, roots, d, r.levels[d]) {
      FlattenDistinct(r.levels, d);
      LevelHolds(r, r.levels[d][0], d);
      forall v: nat ensures v in r.levels[d] <==> AtDist(adj, roots, v, d) { LevelHolds(r, v, d); }
    }
    if |r.levels| <= maxDepth {
      forall v: nat ensures !AtDist(adj, roots, v, |r.levels|) { LevelHolds(r, v, |r.levels|); }
    }
  }

  lemma {:induction false} FlattenDistinct<T>(ls: seq<seq<T>>, d: nat)
    requires Distinct(Flatten(ls)) && d < |ls|
    ensures Distinct(ls[d])
  {
    var n := |ls| - 1;
    var f := Flatten(ls);
    var g := Flatten(ls[..n]);
    if d == n {
      forall i, j | 0 <= i < j < |ls[n]| ensures ls[n][i] != ls[n][j] {
        assert f[|g| + i] == ls[n][i] && f[|g| + j] == ls[n][j];
      }
    } else {
      assert f[..|g|] == g;
      forall i, j | 0 <= i < j < |g| ensures g[i] != g[j] { assert f[i] == g[i] && f[j] == g[j]; }
      FlattenDistinct(ls[..n], d);
    }
  }

  /** A search stopped by a cap reports the first `cap` entries of the search without one. */
  lemma CapIsPrefix(adj: Adjacency, roots: seq<nat>, maxDepth: nat, n: nat, m: nat, cap: nat)
    requires |Queue(adj, roots, maxDepth, n)| == n
    requires |Trunc(Queue(adj, roots, maxDepth, m), cap)| == m
    ensures Trunc(Queue(adj, roots, maxDepth, m), cap) == Trunc(Queue(adj, roots, maxDepth, n), cap)
  {
    if m <= n {
      QueueGrows(adj, roots, maxDepth, m, n);
      if |Queue(adj, roots, maxDepth, m)| < cap { QueueStable(adj, roots, maxDepth, m, n); }
    } else {
      QueueStable(adj, roots, maxDepth, n, m);
    }
  }

  // ----- a finite universe bounds the queue

  lemma {:induction false} QueueWithin(adj: Adjacency, roots: seq<nat>, maxDepth: nat, k: nat, u: set<nat>)
    requires forall s :: s in roots ==> s in u
    requires forall x: nat, y :: y in adj(x) ==> y in u
    ensures DistinctNodes(Queue(adj, roots, maxDepth, k))
    ensures forall i :: 0 <= i < |Queue(adj, roots, maxDepth, k)| ==> Queue(adj, roots, maxDepth, k)[i].node in u
    ensures |Queue(adj, roots, maxDepth, k)| <= |u|
    decreases k
  {
    var q' := Queue(adj, roots, maxDepth, k);
    if k == 0 {
      AdmitGrows([], roots, 0);
      AdmitDistinct([], roots, 0);
    } else {
      QueueWithin(adj, roots, maxDepth, k - 1, u);
      var q := Queue(adj, roots, maxDepth, k - 1);
      if k - 1 < |q| {
        AdmitGrows(q, adj(q[k - 1].node), q[k - 1].depth + 1);
        AdmitDistinct(q, adj(q[k - 1].node), q[k - 1].depth + 1);
      }
    }
    var nodes := seq(|q'|, i requires 0 <= i < |q'| => q'[i].node);
    DistinctFits(nodes, u);
  }
}
