/** `CsrBuilder`: a stable sort by source, a counting pass into row pointers and columns, and a
    greedy cut into size-bounded shards. */
module Builder {
  import opened Common
  import opened Csr
  import opened EdgeLists
  import opened StableSort
  import opened Words

  const DEFAULT_SHARD_SIZE: nat := 64 * 1024 * 1024
  const ROW_PTR_SIZE: nat := 4

  datatype CsrArrays = CsrArrays(rowPtrs: seq<nat>, cols: seq<nat>, weights: Option<seq<Weight>>)

  function SrcOf(e: Edge): nat { e.src }

  function PairSrc(p: (Edge, Weight)): nat { p.0.src }

  /** `Iterator::zip`: stops at the shorter list. */
  function Zip(es: seq<Edge>, ws: seq<Weight>): (ps: seq<(Edge, Weight)>)
    ensures |ps| == if |es| <= |ws| then |es| else |ws|
    ensures forall i :: 0 <= i < |ps| ==> ps[i] == (es[i], ws[i])
  {
    seq(if |es| <= |ws| then |es| else |ws|, i requires 0 <= i < |es| && i < |ws| => (es[i], ws[i]))
  }

  function Firsts(ps: seq<(Edge, Weight)>): (es: seq<Edge>)
    ensures |es| == |ps| && forall i :: 0 <= i < |ps| ==> es[i] == ps[i].0
  {
    seq(|ps|, i requires 0 <= i < |ps| => ps[i].0)
  }

  function Seconds(ps: seq<(Edge, Weight)>): (ws: seq<Weight>)
    ensures |ws| == |ps| && forall i :: 0 <= i < |ps| ==> ws[i] == ps[i].1
  {
    seq(|ps|, i requires 0 <= i < |ps| => ps[i].1)
  }

  // ----- sorting does not change any row

  lemma {:induction false} TargetsByKey(es: seq<Edge>, n: nat)
    ensures Targets(es, n) == Dsts(KeyIs(es, SrcOf, n))
  {
    if es == [] {
    } else {
      TargetsByKey(es[..|es| - 1], n);
      assert Dsts(es)[..|es| - 1] == Dsts(es[..|es| - 1]);
    }
  }

  lemma {:induction false} PairsByKey(ps: seq<(Edge, Weight)>, n: nat)
    ensures Targets(Firsts(ps), n) == Dsts(Firsts(KeyIs(ps, PairSrc, n)))
    ensures Pick(Firsts(ps), Seconds(ps), n) == Seconds(KeyIs(ps, PairSrc, n))
  {
    if ps == [] {
    } else {
      var m := |ps| - 1;
      PairsByKey(ps[..m], n);
      assert Firsts(ps)[..m] == Firsts(ps[..m]) && Seconds(ps)[..m] == Seconds(ps[..m]);
      assert Dsts(Firsts(ps))[..m] == Dsts(Firsts(ps[..m]));
    }
  }

  // ----- the counting pass

  ghost predicate SortedBySrc(es: seq<Edge>) {
    forall i, j :: 0 <= i <= j < |es| ==> es[i].src <= es[j].src
  }

  ghost function CountAt(es: seq<Edge>, n: nat): (c: nat)
    ensures c <= |es|
  {
    if es == [] then 0
    else CountAt(es[..|es| - 1], n) + if es[|es| - 1].src == n then 1 else 0
  }

  ghost function CountBelow(es: seq<Edge>, n: nat): (c: nat)
    ensures c <= |es|
  {
    if es == [] then 0
    else CountBelow(es[..|es| - 1], n) + if es[|es| - 1].src < n then 1 else 0
  }

  lemma {:induction false} CountStep(es: seq<Edge>, n: nat)
    ensures CountBelow(es, n + 1) == CountBelow(es, n) + CountAt(es, n)
    ensures CountBelow(es, 0) == 0
  {
    if es == [] {
    } else {
      CountStep(es[..|es| - 1], n);
    }
  }

  lemma {:induction false} CountAll(es: seq<Edge>, n: nat)
    requires forall i :: 0 <= i < |es| ==> es[i].src < n
    ensures CountBelow(es, n) == |es|
  {
    if es == [] {
    } else {
      CountAll(es[..|es| - 1], n);
    }
  }

  lemma {:induction false} CountMonotone(es: seq<Edge>, m: nat, n: nat)
    requires m <= n
    ensures CountBelow(es, m) <= CountBelow(es, n)
  {
    if es == [] {
    } else {
      CountMonotone(es[..|es| - 1], m, n);
    }
  }

  lemma {:induction false} CountNoneBelow(es: seq<Edge>, n: nat)
    requires forall i :: 0 <= i < |es| ==> es[i].src >= n
    ensures CountBelow(es, n) == 0
  {
    if es == [] {
    } else {
      CountNoneBelow(es[..|es| - 1], n);
    }
  }

  lemma {:induction false} CountBelowAppend(es: seq<Edge>, fs: seq<Edge>, n: nat)
    ensures CountBelow(es + fs, n) == CountBelow(es, n) + CountBelow(fs, n)
  {
    if fs == [] { assert es + fs == es; } else {
      CountBelowAppend(es, fs[..|fs| - 1], n);
      assert (es + fs)[..|es| + |fs| - 1] == es + fs[..|fs| - 1];
    }
  }

  lemma SlotAfter(before: seq<Edge>, after: seq<Edge>, s: nat)
    requires forall j :: 0 <= j < |before| ==> before[j].src < s + 1
    requires forall j :: 0 <= j < |after| ==> after[j].src >= s
    ensures CountBelow(before + after, s) + CountAt(before, s) == |before|
  {
    CountAll(before, s + 1);
    CountNoneBelow(after, s);
    CountStep(before, s);
    CountBelowAppend(before, after, s);
  }

  /** In a list sorted by source the counting pass writes edge i to slot i. */
  lemma SlotOfEdge(es: seq<Edge>, i: nat)
    requires SortedBySrc(es) && i < |es|
    ensures CountBelow(es, es[i].src) + CountAt(es[..i], es[i].src) == i
  {
    var before, after := es[..i], es[i..];
    var s := es[i].src;
    assert es == before + after;
    forall j | 0 <= j < |before| ensures before[j].src < s + 1 { assert es[j].src <= es[i].src; }
    forall j | 0 <= j < |after| ensures after[j].src >= s { assert es[i].src <= es[i + j].src; }
    SlotAfter(before, after, s);
  }

  lemma SortedFront(es: seq<Edge>)
    requires SortedBySrc(es) && es != []
    ensures SortedBySrc(es[..|es| - 1]) && SourcesBelow(es[..|es| - 1], es[|es| - 1].src + 1)
  {
  }

  lemma PickSliceStep<T>(es: seq<Edge>, xs: seq<T>, n: nat)
    requires es != [] && |xs| == |es|
    requires var m := |es| - 1;
             var front, s := es[..m], es[m].src;
             && CountBelow(front, n) <= CountBelow(front, n + 1)
             && Pick(front, xs[..m], n) == xs[..m][CountBelow(front, n)..CountBelow(front, n + 1)]
             && (s < n ==> CountBelow(front, n) == m) && (s <= n ==> CountBelow(front, n + 1) == m)
    ensures CountBelow(es, n) <= CountBelow(es, n + 1)
    ensures Pick(es, xs, n) == xs[CountBelow(es, n)..CountBelow(es, n + 1)]
  {
    var m := |es| - 1;
    var l, h := CountBelow(es[..m], n), CountBelow(es[..m], n + 1);
    if es[m].src >= n { SliceSnoc(xs, l, h); }
  }

  /** Row n of a sorted list is the slice between two row pointers. */
  lemma {:induction false} PickIsSlice<T>(es: seq<Edge>, xs: seq<T>, n: nat)
    requires SortedBySrc(es) && |xs| == |es|
    ensures CountBelow(es, n) <= CountBelow(es, n + 1)
    ensures Pick(es, xs, n) == xs[CountBelow(es, n)..CountBelow(es, n + 1)]
  {
    if es == [] {
    } else {
      var m := |es| - 1;
      var front, s := es[..m], es[m].src;
      SortedFront(es);
      hide SortedBySrc, Pick, CountBelow;
      PickIsSlice(front, xs[..m], n);
      if s < n { CountAll(front, n); }
      if s <= n { CountAll(front, n + 1); }
      PickSliceStep(es, xs, n);
    }
  }

  lemma SliceSnoc<T>(xs: seq<T>, l: nat, h: nat)
    requires |xs| > 0 && l <= h < |xs|
    ensures xs[..|xs| - 1][l..h] == xs[l..h]
    ensures h == |xs| - 1 ==> xs[l..] == xs[l..h] + [xs[h]]
  {
  }

  predicate IdsFit(es: seq<Edge>) {
    forall i :: 0 <= i < |es| ==> es[i].src <= U32_MAX && es[i].dst <= U32_MAX
  }

  lemma CountAtStep(es: seq<Edge>, i: nat)
    requires i < |es|
    ensures forall n: nat :: CountAt(es[..i + 1], n) == CountAt(es[..i], n) + if es[i].src == n then 1 else 0
  {
    assert es[..i + 1][..i] == es[..i];
  }

  predicate SourcesBelow(es: seq<Edge>, n: nat) {
    forall i :: 0 <= i < |es| ==> es[i].src < n
  }

  /** First pass of `build_csr_arrays`: out-degrees. */
  method CountDegrees(es: seq<Edge>, nodeCount: nat) returns (r: Result<array<nat>>)
    ensures r.Success? ==> SourcesBelow(es, nodeCount)
    ensures r.Success? ==> r.value.Length == nodeCount && fresh(r.value)
    ensures r.Success? ==> forall n :: 0 <= n < nodeCount ==> r.value[n] == CountAt(es, n)
    ensures r.Failure? ==> !SourcesBelow(es, nodeCount) || |es| > U32_MAX
  {
    var degrees := new nat[nodeCount](_ => 0);
    for i := 0 to |es|
      invariant forall n :: 0 <= n < nodeCount ==> degrees[n] == CountAt(es[..i], n)
      invariant SourcesBelow(es[..i], nodeCount)
    {
      var src := es[i].src;
      if src >= nodeCount { return Failure(InvalidEdge(src, src)); }
      CountAtStep(es, i);
      if degrees[src] + 1 > U32_MAX { return Failure(UnsupportedGraphSize); }
      degrees[src] := degrees[src] + 1;
    }
    assert es[..|es|] == es;
    return Success(degrees);
  }

  /** Second pass: the running sum of the degrees. */
  method SumDegrees(ghost es: seq<Edge>, degrees: array<nat>) returns (r: Result<seq<nat>>)
    requires SourcesBelow(es, degrees.Length)
    requires forall n :: 0 <= n < degrees.Length ==> degrees[n] == CountAt(es, n)
    ensures r.Success? <==> |es| <= U32_MAX
    ensures r.Success? ==> |r.value| == degrees.Length + 1
    ensures r.Success? ==> forall n :: 0 <= n <= degrees.Length ==> r.value[n] == CountBelow(es, n)
  {
    var rowPtrs: seq<nat> := [0];
    var cumsum := 0;
    CountStep(es, 0);
    for k := 0 to degrees.Length
      invariant |rowPtrs| == k + 1 && cumsum == CountBelow(es, k) <= U32_MAX
      invariant forall n :: 0 <= n <= k ==> rowPtrs[n] == CountBelow(es, n)
    {
      CountStep(es, k);
      if cumsum + degrees[k] > U32_MAX { return Failure(UnsupportedGraphSize); }
      cumsum := cumsum + degrees[k];
      rowPtrs := rowPtrs + [cumsum];
    }
    CountAll(es, degrees.Length);
    return Success(rowPtrs);
  }

  /** Before edge i is placed, each node's cursor stands after the edges already placed in its row. */
  ghost predicate CursorsAt(pos: seq<nat>, rowPtrs: seq<nat>, es: seq<Edge>, i: nat)
    requires |pos| <= |rowPtrs| && i <= |es|
  {
    forall n :: 0 <= n < |pos| ==> pos[n] == rowPtrs[n] + CountAt(es[..i], n)
  }

  lemma CursorsStart(pos: seq<nat>, rowPtrs: seq<nat>, es: seq<Edge>)
    requires |pos| <= |rowPtrs| && forall n :: 0 <= n < |pos| ==> pos[n] == rowPtrs[n]
    ensures CursorsAt(pos, rowPtrs, es, 0)
  {
  }

  lemma CursorStep(pos: seq<nat>, rowPtrs: seq<nat>, es: seq<Edge>, i: nat)
    requires SortedBySrc(es) && i < |es| && es[i].src < |pos| <= |rowPtrs|
    requires forall n :: 0 <= n < |pos| ==> rowPtrs[n] == CountBelow(es, n)
    requires CursorsAt(pos, rowPtrs, es, i)
    ensures pos[es[i].src] == i
    ensures CursorsAt(pos[es[i].src := pos[es[i].src] + 1], rowPtrs, es, i + 1)
  {
    SlotOfEdge(es, i);
    CountAtStep(es, i);
  }

  /** Third pass: each edge to the next free slot of its source's row. */
  method FillColumns(es: seq<Edge>, ws: seq<Weight>, includeWeights: bool, nodeCount: nat, rowPtrs: seq<nat>)
    returns (r: Result<CsrArrays>)
    requires SortedBySrc(es) && SourcesBelow(es, nodeCount) && |es| <= U32_MAX
    requires includeWeights ==> |ws| == |es|
    requires |rowPtrs| == nodeCount + 1 && forall n :: 0 <= n <= nodeCount ==> rowPtrs[n] == CountBelow(es, n)
    ensures r.Success? <==> forall i :: 0 <= i < |es| ==> es[i].dst <= U32_MAX
    ensures r.Success? ==> r.value == CsrArrays(rowPtrs, Dsts(es), if includeWeights then Some(ws) else None)
  {
    hide SortedBySrc, CountBelow, CountAt, CursorsAt;
    var cols := new nat[|es|](_ => 0);
    var weights := new Weight[if includeWeights then |es| else 0](_ => 0.0);
    var currentPos := new nat[nodeCount](n requires 0 <= n < nodeCount => rowPtrs[n]);
    CursorsStart(currentPos[..], rowPtrs, es);
    for i := 0 to |es|
      invariant CursorsAt(currentPos[..], rowPtrs, es, i)
      invariant forall j :: 0 <= j < i ==> cols[j] == es[j].dst <= U32_MAX
      invariant includeWeights ==> forall j :: 0 <= j < i ==> weights[j] == ws[j]
    {
      var src, dst := es[i].src, es[i].dst;
      CursorStep(currentPos[..], rowPtrs, es, i);
      var pos := currentPos[src];
      assert pos == i;
      if dst > U32_MAX { return Failure(InvalidEdge(src, dst)); }
      cols[pos] := dst;
      if includeWeights { weights[pos] := ws[i]; }
      assert pos + 1 <= U32_MAX;  // the source's `checked_add` cannot fail here
      var next: nat := pos + 1;
      ghost var cursors: seq<nat> := currentPos[..];
      currentPos[src] := next;
      assert currentPos[..] == cursors[src := next];
    }
    assert cols[..] == Dsts(es);
    assert includeWeights ==> weights[..] == ws;
    return Success(CsrArrays(rowPtrs, cols[..], if includeWeights then Some(weights[..]) else None));
  }

  /** `build_csr_arrays`: succeeds exactly when every id and count fits, with row n the edges leaving n. */
  method BuildCsrArrays(es: seq<Edge>, ws: seq<Weight>, includeWeights: bool, nodeCount: nat)
    returns (r: Result<CsrArrays>)
    requires SortedBySrc(es)
    requires includeWeights ==> |ws| == |es|
    ensures r.Success? <==>
            |es| <= U32_MAX && SourcesBelow(es, nodeCount) && forall i :: 0 <= i < |es| ==> es[i].dst <= U32_MAX
    ensures r.Success? ==>
              && |r.value.rowPtrs| == nodeCount + 1
              && (forall n :: 0 <= n <= nodeCount ==> r.value.rowPtrs[n] == CountBelow(es, n))
              && r.value.cols == Dsts(es)
              && r.value.weights == if includeWeights then Some(ws) else None
  {
    var degrees :- CountDegrees(es, nodeCount);
    var rowPtrs :- SumDegrees(es, degrees);
    r := FillColumns(es, ws, includeWeights, nodeCount, rowPtrs);
  }

  // ----- cutting into shards

  function Min(a: nat, b: nat): nat { if a <= b then a else b }

  function Max(a: nat, b: nat): nat { if a >= b then a else b }

  function SaturatingMul(a: nat, b: nat): nat { Min(a * b, USIZE_MAX) }

  function SaturatingAdd(a: nat, b: nat): nat { Min(a + b, USIZE_MAX) }

  function DivCeil(a: nat, b: nat): nat
    requires b > 0
  {
    (a + b - 1) / b
  }

  ghost predicate ArraysValid(a: CsrArrays, nodeCount: nat) {
    && nodeCount <= U32_MAX + 1
    && |a.rowPtrs| == nodeCount + 1
    && a.rowPtrs[0] == 0 && a.rowPtrs[nodeCount] == |a.cols| <= U32_MAX
    && (forall i, j :: 0 <= i <= j < |a.rowPtrs| ==> a.rowPtrs[i] <= a.rowPtrs[j])
    && (a.weights.Some? ==> |a.weights.value| == |a.cols|)
  }

  function EdgeBytes(weighted: bool): nat { if weighted then 8 else 4 }

  function BytesPerEdge(a: CsrArrays): nat { EdgeBytes(a.weights.Some?) }

  /** `calculate_shard_memory`. */
  function ShardBytes(start: nat, end: nat, a: CsrArrays): nat
    requires start <= end < |a.rowPtrs| && a.rowPtrs[start] <= a.rowPtrs[end]
  {
    (end - start + 1) * ROW_PTR_SIZE + (a.rowPtrs[end] - a.rowPtrs[start]) * BytesPerEdge(a)
  }

  /** How many nodes a shard starts out with, from the average bytes per node. */
  function TargetNodes(nodeCount: nat, a: CsrArrays, shardSize: nat): (t: nat)
    requires nodeCount > 0
    ensures t >= 1
  {
    TargetFor(nodeCount, |a.cols|, a.weights.Some?, shardSize)
  }

  function TargetFor(nodeCount: nat, edgeCount: nat, weighted: bool, shardSize: nat): (t: nat)
    requires nodeCount > 0
    ensures t >= 1
  {
    var edgeBytes := SaturatingMul(edgeCount, EdgeBytes(weighted));
    var rowBytes := SaturatingMul(nodeCount + 1, ROW_PTR_SIZE);
    var average := Max(DivCeil(SaturatingAdd(rowBytes, edgeBytes), nodeCount), 1);
    Max(DivCeil(shardSize, average), 1)
  }

  lemma DivCeilIs(a: nat, b: nat)
    requires b > 0
    ensures a <= DivCeil(a, b) * b
    ensures if a > 0 then DivCeil(a, b) > 0 && (DivCeil(a, b) - 1) * b < a else DivCeil(a, b) == 0
  {
    var q := (a + b - 1) / b;
    assert a + b - 1 == q * b + (a + b - 1) % b;
    assert (q - 1) * b == q * b - b;
  }

  /** A shard starts out with the least number of nodes, at least one, whose bytes reach the shard size when each
      has the average: all row pointers and edges divided by the nodes, rounded up. */
  lemma TargetIsLeast(nodeCount: nat, edgeCount: nat, weighted: bool, shardSize: nat) returns (average: nat)
    requires 0 < nodeCount <= U32_MAX + 1 && edgeCount <= U32_MAX
    ensures var total := 4 * (nodeCount + 1) + (if weighted then 8 else 4) * edgeCount;
            average > 0 && (average - 1) * nodeCount < total <= average * nodeCount
    ensures var target := TargetFor(nodeCount, edgeCount, weighted, shardSize);
            target > 0 && shardSize <= target * average && (target == 1 || (target - 1) * average < shardSize)
  {
    hide DivCeil;
    var total := 4 * (nodeCount + 1) + (if weighted then 8 else 4) * edgeCount;
    average := DivCeil(total, nodeCount);
    DivCeilIs(total, nodeCount);
    DivCeilIs(shardSize, average);
  }

  /** `end` is where the greedy cut that starts at `start` stops: the longest run of at most `target`
      nodes that fits in the shard size, or a single node when none fits. */
  ghost predicate CutsAt(start: nat, end: nat, a: CsrArrays, nodeCount: nat, target: nat, shardSize: nat)
    requires ArraysValid(a, nodeCount)
  {
    && start < end <= Min(start + target, nodeCount)
    && (ShardBytes(start, end, a) <= shardSize || end == start + 1)
    && forall e :: end < e <= Min(start + target, nodeCount) ==> ShardBytes(start, e, a) > shardSize
  }

  /** The shard holding nodes lo..hi of the global arrays. */
  function CutShard(id: nat, lo: nat, hi: nat, a: CsrArrays): CsrShard
    requires lo <= hi < |a.rowPtrs| && a.rowPtrs[lo] <= a.rowPtrs[hi] <= |a.cols|
    requires forall i :: lo <= i <= hi ==> a.rowPtrs[lo] <= a.rowPtrs[i]
    requires a.weights.Some? ==> |a.weights.value| == |a.cols|
  {
    CsrShard(id, lo, hi,
             seq(hi - lo + 1, i requires 0 <= i < hi - lo + 1 => a.rowPtrs[lo + i] - a.rowPtrs[lo]),
             a.cols[a.rowPtrs[lo]..a.rowPtrs[hi]],
             if a.weights.Some? then Some(a.weights.value[a.rowPtrs[lo]..a.rowPtrs[hi]]) else None)
  }

  /** The i-th shard is a slice of the arrays, where the greedy cut puts it. */
  ghost predicate IsCut(s: CsrShard, i: nat, a: CsrArrays, nodeCount: nat, target: nat, shardSize: nat)
    requires ArraysValid(a, nodeCount)
  {
    CutsAt(s.lo, s.hi, a, nodeCount, target, shardSize) && s == CutShard(i, s.lo, s.hi, a)
  }

  /** The shards are slices of the arrays, in order, each where the greedy cut puts it. */
  ghost predicate Cut(shards: seq<CsrShard>, upTo: nat, a: CsrArrays, nodeCount: nat, target: nat, shardSize: nat)
    requires ArraysValid(a, nodeCount)
  {
    && (shards == [] ==> upTo == 0)
    && (shards != [] ==> shards[0].lo == 0 && shards[|shards| - 1].hi == upTo)
    && (forall i :: 0 <= i < |shards| ==> IsCut(shards[i], i, a, nodeCount, target, shardSize))
    && (forall i :: 0 < i < |shards| ==> shards[i - 1].hi == shards[i].lo)
  }

  ghost predicate Alone(s: nat, a: CsrArrays, nodeCount: nat, target: nat, shardSize: nat)
    requires ArraysValid(a, nodeCount)
  {
    CutsAt(s, s + 1, a, nodeCount, target, shardSize)
  }

  /** Every node fills a shard of its own. */
  ghost predicate AllAlone(upTo: nat, a: CsrArrays, nodeCount: nat, target: nat, shardSize: nat)
    requires ArraysValid(a, nodeCount)
  {
    forall s :: 0 <= s < upTo ==> Alone(s, a, nodeCount, target, shardSize)
  }

  /** A cut that would need more shards than u32 can number: 2^32 nodes, each alone because the shard size
      is at most the average per node or because no two neighbouring nodes fit together. */
  ghost predicate RunsOutOfShards(es: seq<Edge>, weighted: bool, shardSize: nat) {
    && Span(es) == U32_MAX + 1
    && (TargetFor(U32_MAX + 1, |es|, weighted, shardSize) == 1 ||
        forall s :: 0 <= s < U32_MAX ==> PairTooBig(es, weighted, shardSize, s))
  }

  /** Nodes s and s + 1 in one shard: three row pointers and their edges. */
  ghost predicate PairTooBig(es: seq<Edge>, weighted: bool, shardSize: nat, s: nat) {
    3 * ROW_PTR_SIZE + (CountAt(es, s) + CountAt(es, s + 1)) * EdgeBytes(weighted) > shardSize
  }

  lemma {:induction false} RowIsCounted<T>(es: seq<Edge>, xs: seq<T>, n: nat)
    requires |xs| == |es|
    ensures |Pick(es, xs, n)| == CountAt(es, n)
  {
    if es == [] {
    } else {
      RowIsCounted(es[..|es| - 1], xs[..|es| - 1], n);
    }
  }

  lemma PairBytes(a: CsrArrays, sorted: seq<Edge>, s: nat)
    requires s + 2 < |a.rowPtrs| && forall n :: 0 <= n < |a.rowPtrs| ==> a.rowPtrs[n] == CountBelow(sorted, n)
    ensures a.rowPtrs[s] <= a.rowPtrs[s + 2]
    ensures ShardBytes(s, s + 2, a) ==
            3 * ROW_PTR_SIZE + (CountAt(sorted, s) + CountAt(sorted, s + 1)) * BytesPerEdge(a)
  {
    CountStep(sorted, s);
    CountStep(sorted, s + 1);
  }

  /** Node s is cut alone exactly when shards start out with one node or s and its successor do not fit together. */
  lemma AloneIff(s: nat, a: CsrArrays, nodeCount: nat, target: nat, shardSize: nat)
    requires ArraysValid(a, nodeCount) && s < nodeCount && target >= 1
    ensures Alone(s, a, nodeCount, target, shardSize) <==>
            target == 1 || s + 1 == nodeCount || ShardBytes(s, s + 2, a) > shardSize
  {
    if target > 1 && s + 1 < nodeCount {
      assert s + 2 <= Min(s + target, nodeCount);
      forall e | s + 2 <= e <= nodeCount ensures ShardBytes(s, e, a) >= ShardBytes(s, s + 2, a) {
        Scaled(a.rowPtrs[s + 2] - a.rowPtrs[s], a.rowPtrs[e] - a.rowPtrs[s], BytesPerEdge(a));
      }
    }
  }

  lemma Scaled(x: nat, y: nat, k: nat)
    requires x <= y
    ensures x * k <= y * k
  {
  }

  /** The arrays were filled from a sorted form of es. */
  ghost predicate FilledFrom(a: CsrArrays, sorted: seq<Edge>, es: seq<Edge>, nodeCount: nat) {
    && ArraysValid(a, nodeCount) && |a.cols| == |sorted| == |es|
    && (forall n :: 0 <= n <= nodeCount ==> a.rowPtrs[n] == CountBelow(sorted, n))
    && (forall n: nat :: Targets(sorted, n) == Targets(es, n))
  }

  lemma AloneCounted(a: CsrArrays, sorted: seq<Edge>, es: seq<Edge>, nodeCount: nat, target: nat, shardSize: nat,
                     s: nat)
    requires FilledFrom(a, sorted, es, nodeCount) && s + 1 < nodeCount && target >= 1
    ensures Alone(s, a, nodeCount, target, shardSize) <==> target == 1 || PairTooBig(es, a.weights.Some?, shardSize, s)
  {
    AloneIff(s, a, nodeCount, target, shardSize);
    PairBytes(a, sorted, s);
    hide ArraysValid, Alone, CountAt, Pick;
    RowIsCounted<nat>(sorted, Dsts(sorted), s);
    RowIsCounted<nat>(es, Dsts(es), s);
    RowIsCounted<nat>(sorted, Dsts(sorted), s + 1);
    RowIsCounted<nat>(es, Dsts(es), s + 1);
    assert Targets(sorted, s) == Targets(es, s) && Targets(sorted, s + 1) == Targets(es, s + 1);
    assert CountAt(sorted, s) == CountAt(es, s) && CountAt(sorted, s + 1) == CountAt(es, s + 1);
  }

  lemma AllAloneIff(a: CsrArrays, sorted: seq<Edge>, es: seq<Edge>, shardSize: nat)
    requires FilledFrom(a, sorted, es, U32_MAX + 1) && Span(es) == U32_MAX + 1
    ensures AllAlone(U32_MAX + 1, a, U32_MAX + 1, TargetNodes(U32_MAX + 1, a, shardSize), shardSize) <==>
            RunsOutOfShards(es, a.weights.Some?, shardSize)
  {
    var n := U32_MAX + 1;
    var target := TargetNodes(n, a, shardSize);
    assert ArraysValid(a, n) && target == TargetFor(n, |es|, a.weights.Some?, shardSize);
    AloneIff(U32_MAX, a, n, target, shardSize);
    hide FilledFrom, ArraysValid, Alone, PairTooBig, TargetFor, Span;
    forall s: nat | s < U32_MAX
      ensures Alone(s, a, n, target, shardSize) <==> target == 1 || PairTooBig(es, a.weights.Some?, shardSize, s)
    {
      AloneCounted(a, sorted, es, n, target, shardSize, s);
    }
  }

  lemma CutUnique(start: nat, end: nat, end': nat, a: CsrArrays, nodeCount: nat, target: nat, shardSize: nat)
    requires ArraysValid(a, nodeCount)
    requires CutsAt(start, end, a, nodeCount, target, shardSize) && CutsAt(start, end', a, nodeCount, target, shardSize)
    ensures end == end'
  {
  }

  lemma CutExtends(shards: seq<CsrShard>, start: nat, end: nat, a: CsrArrays, nodeCount: nat, target: nat,
                   shardSize: nat)
    requires ArraysValid(a, nodeCount)
    requires Cut(shards, start, a, nodeCount, target, shardSize)
    requires CutsAt(start, end, a, nodeCount, target, shardSize)
    ensures Cut(shards + [CutShard(|shards|, start, end, a)], end, a, nodeCount, target, shardSize)
  {
    CutSnoc(shards, CutShard(|shards|, start, end, a), start, end, a, nodeCount, target, shardSize);
  }

  lemma CutSnoc(shards: seq<CsrShard>, s: CsrShard, start: nat, end: nat, a: CsrArrays, nodeCount: nat, target: nat,
                shardSize: nat)
    requires ArraysValid(a, nodeCount) && Cut(shards, start, a, nodeCount, target, shardSize)
    requires IsCut(s, |shards|, a, nodeCount, target, shardSize) && s.lo == start && s.hi == end
    ensures Cut(shards + [s], end, a, nodeCount, target, shardSize)
  {
    hide IsCut, ArraysValid;
    var all := shards + [s];
    forall i | 0 < i < |all| ensures all[i - 1].hi == all[i].lo {
      if i < |shards| { assert shards[i - 1].hi == shards[i].lo; }
    }
  }

  /** Shrinks a shard from its initial end until it fits. */
  method FindCut(start: nat, a: CsrArrays, nodeCount: nat, target: nat, shardSize: nat) returns (end: nat)
    requires ArraysValid(a, nodeCount) && start < nodeCount && target >= 1
    ensures CutsAt(start, end, a, nodeCount, target, shardSize)
  {
    hide CutsAt, LongerTooBig;
    end := Min(start + target, nodeCount);
    NothingLonger(start, end, a, nodeCount, target, shardSize);
    var bytes := ShardBytes(start, end, a);
    while bytes > shardSize && end > start + 1
      invariant start < end <= Min(start + target, nodeCount)
      invariant bytes == ShardBytes(start, end, a)
      invariant LongerTooBig(start, end, a, nodeCount, target, shardSize)
    {
      ShorterFits(start, end, a, nodeCount, target, shardSize);
      end := end - 1;
      bytes := ShardBytes(start, end, a);
    }
    CutFound(start, end, a, nodeCount, target, shardSize);
  }

  /** Every longer shard within the target is too big. */
  ghost predicate LongerTooBig(start: nat, end: nat, a: CsrArrays, nodeCount: nat, target: nat, shardSize: nat)
    requires ArraysValid(a, nodeCount) && start < end
  {
    forall e :: end < e <= Min(start + target, nodeCount) ==> ShardBytes(start, e, a) > shardSize
  }

  lemma NothingLonger(start: nat, end: nat, a: CsrArrays, nodeCount: nat, target: nat, shardSize: nat)
    requires ArraysValid(a, nodeCount) && start < end == Min(start + target, nodeCount)
    ensures LongerTooBig(start, end, a, nodeCount, target, shardSize)
  {
  }

  lemma ShorterFits(start: nat, end: nat, a: CsrArrays, nodeCount: nat, target: nat, shardSize: nat)
    requires ArraysValid(a, nodeCount) && start + 1 < end <= nodeCount
    requires LongerTooBig(start, end, a, nodeCount, target, shardSize) && ShardBytes(start, end, a) > shardSize
    ensures LongerTooBig(start, end - 1, a, nodeCount, target, shardSize)
  {
  }

  lemma CutFound(start: nat, end: nat, a: CsrArrays, nodeCount: nat, target: nat, shardSize: nat)
    requires ArraysValid(a, nodeCount) && start < end <= Min(start + target, nodeCount)
    requires ShardBytes(start, end, a) <= shardSize || end == start + 1
    requires LongerTooBig(start, end, a, nodeCount, target, shardSize)
    ensures CutsAt(start, end, a, nodeCount, target, shardSize)
  {
  }

  /** The loop of `partition_into_shards`. */
  method CutAll(nodeCount: nat, a: CsrArrays, target: nat, shardSize: nat) returns (r: Result<seq<CsrShard>>)
    requires ArraysValid(a, nodeCount) && target >= 1
    ensures r.Failure? <==> nodeCount == U32_MAX + 1 && AllAlone(nodeCount, a, nodeCount, target, shardSize)
    ensures r.Failure? ==> r.error == UnsupportedGraphSize
    ensures r.Success? ==> Cut(r.value, nodeCount, a, nodeCount, target, shardSize)
  {
    var shards: seq<CsrShard> := [];
    var start, id := 0, 0;
    while start < nodeCount
      invariant start <= nodeCount && id == |shards| <= start && id <= U32_MAX
      invariant Cut(shards, start, a, nodeCount, target, shardSize)
      invariant id == start <==> AllAlone(start, a, nodeCount, target, shardSize)
    {
      var end := FindCut(start, a, nodeCount, target, shardSize);
      CutExtends(shards, start, end, a, nodeCount, target, shardSize);
      AloneStep(start, end, a, nodeCount, target, shardSize);
      shards := shards + [CutShard(id, start, end, a)];
      start := end;
      if id + 1 > U32_MAX { return Failure(UnsupportedGraphSize); }
      id := id + 1;
    }
    return Success(shards);
  }

  lemma AloneStep(start: nat, end: nat, a: CsrArrays, nodeCount: nat, target: nat, shardSize: nat)
    requires ArraysValid(a, nodeCount) && CutsAt(start, end, a, nodeCount, target, shardSize)
    ensures AllAlone(end, a, nodeCount, target, shardSize) <==>
            end == start + 1 && AllAlone(start, a, nodeCount, target, shardSize)
  {
    if AllAlone(end, a, nodeCount, target, shardSize) {
      assert Alone(start, a, nodeCount, target, shardSize);
      CutUnique(start, end, start + 1, a, nodeCount, target, shardSize);
    }
  }

  /** `partition_into_shards`. Shard ids run out exactly when 2^32 nodes each need their own shard. */
  method PartitionIntoShards(nodeCount: nat, a: CsrArrays, shardSize: nat) returns (r: Result<seq<CsrShard>>)
    requires ArraysValid(a, nodeCount)
    ensures nodeCount == 0 ==> r == Success([])
    ensures nodeCount > 0 ==>
              var target := TargetNodes(nodeCount, a, shardSize);
              && (r.Failure? <==> nodeCount == U32_MAX + 1 && AllAlone(nodeCount, a, nodeCount, target, shardSize))
              && (r.Failure? ==> r.error == UnsupportedGraphSize)
              && (r.Success? ==> Cut(r.value, nodeCount, a, nodeCount, target, shardSize))
  {
    if nodeCount == 0 { return Success([]); }
    r := CutAll(nodeCount, a, TargetNodes(nodeCount, a, shardSize), shardSize);
  }

  // ----- capacity

  lemma TimesMonotone(x: int, y: int, b: nat)
    requires x <= y
    ensures x * b <= y * b
  {
  }

  lemma DivCeilAtLeast(a: nat, b: nat, q: nat)
    requires b > 0 && a >= q * b
    ensures DivCeil(a, b) >= q
  {
    var x := a + b - 1;
    assert x == (x / b) * b + x % b;
    if x / b < q { TimesMonotone(x / b, q - 1, b); }
  }

  lemma DivCeilAtMost(a: nat, b: nat, q: nat)
    requires b > 0 && a <= q * b
    ensures DivCeil(a, b) <= q
  {
    var x := a + b - 1;
    assert x == (x / b) * b + x % b;
    if x / b > q { TimesMonotone(q + 1, x / b, b); }
  }

  /** No `usize` in the partition overflows or saturates on a 64-bit target. */
  lemma PartitionFitsUsize(a: CsrArrays, nodeCount: nat, shardSize: nat, start: nat, end: nat)
    requires ArraysValid(a, nodeCount) && shardSize <= USIZE_MAX
    requires start <= end <= nodeCount && nodeCount > 0
    ensures SaturatingMul(|a.cols|, BytesPerEdge(a)) == |a.cols| * BytesPerEdge(a)
    ensures SaturatingMul(nodeCount + 1, ROW_PTR_SIZE) == (nodeCount + 1) * ROW_PTR_SIZE
    ensures SaturatingAdd((nodeCount + 1) * ROW_PTR_SIZE, |a.cols| * BytesPerEdge(a)) ==
            (nodeCount + 1) * ROW_PTR_SIZE + |a.cols| * BytesPerEdge(a)
    ensures start + TargetNodes(nodeCount, a, shardSize) <= USIZE_MAX
    ensures a.rowPtrs[start] <= a.rowPtrs[end] && ShardBytes(start, end, a) <= USIZE_MAX
  {
    var total := (nodeCount + 1) * ROW_PTR_SIZE + |a.cols| * BytesPerEdge(a);
    assert |a.cols| * BytesPerEdge(a) <= |a.cols| * 8;
    var average := DivCeil(total, nodeCount);
    assert total >= 4 * nodeCount + 4;
    DivCeilAtLeast(total, nodeCount, 4);
    DivCeilAtMost(shardSize, Max(average, 1), 0x4000_0000_0000_0000);
    assert a.rowPtrs[start] <= a.rowPtrs[end] <= a.rowPtrs[nodeCount];
    var rowEdges := a.rowPtrs[end] - a.rowPtrs[start];
    assert rowEdges * BytesPerEdge(a) <= rowEdges * 8;
  }

  lemma DefaultTarget(a: CsrArrays)
    requires ArraysValid(a, U32_MAX + 1)
    ensures TargetNodes(U32_MAX + 1, a, DEFAULT_SHARD_SIZE) >= 2
  {
    var n := U32_MAX + 1;
    var edgeBytes := |a.cols| * BytesPerEdge(a);
    assert edgeBytes <= |a.cols| * 8;
    var average := Max(DivCeil((n + 1) * ROW_PTR_SIZE + edgeBytes, n), 1);
    DivCeilAtMost((n + 1) * ROW_PTR_SIZE + edgeBytes, n, 13);
    DivCeilAtLeast(DEFAULT_SHARD_SIZE, average, 2);
  }

  /** If the first 2k nodes each fill a default-sized shard alone, each two neighbours hold almost 2^23 edges. */
  lemma {:induction false} AloneIsDense(a: CsrArrays, target: nat, k: nat)
    requires ArraysValid(a, U32_MAX + 1) && target >= 2 && 2 * k <= U32_MAX
    requires AllAlone(2 * k, a, U32_MAX + 1, target, DEFAULT_SHARD_SIZE)
    ensures a.rowPtrs[2 * k] >= k * 0x7F_FFFF
  {
    if k == 0 {
    } else {
      AloneIsDense(a, target, k - 1);
      var s := 2 * (k - 1);
      assert Alone(s, a, U32_MAX + 1, target, DEFAULT_SHARD_SIZE);
      assert ShardBytes(s, s + 2, a) > DEFAULT_SHARD_SIZE;
      var rowEdges := a.rowPtrs[s + 2] - a.rowPtrs[s];
      assert rowEdges * BytesPerEdge(a) <= rowEdges * 8;
    }
  }

  /** With the default shard size, shard ids never run out. */
  lemma DefaultNeverRunsOut(a: CsrArrays)
    requires ArraysValid(a, U32_MAX + 1)
    ensures !AllAlone(U32_MAX + 1, a, U32_MAX + 1, TargetNodes(U32_MAX + 1, a, DEFAULT_SHARD_SIZE), DEFAULT_SHARD_SIZE)
  {
    DefaultTarget(a);
    var target := TargetNodes(U32_MAX + 1, a, DEFAULT_SHARD_SIZE);
    assert a.rowPtrs[1026] <= a.rowPtrs[U32_MAX + 1];
    if AllAlone(U32_MAX + 1, a, U32_MAX + 1, target, DEFAULT_SHARD_SIZE) {
      AloneIsDense(a, target, 513);
    }
  }

  // ----- from shards back to rows

  lemma CutIsValid(shards: seq<CsrShard>, i: nat, a: CsrArrays, nodeCount: nat, target: nat, shardSize: nat)
    requires ArraysValid(a, nodeCount)
    requires Cut(shards, nodeCount, a, nodeCount, target, shardSize) && i < |shards|
    ensures shards[i].Valid() && shards[i].id == i
    ensures shards[i].HasWeights() == a.weights.Some?
  {
    var s := shards[i];
    assert s == CutShard(i, s.lo, s.hi, a);
    forall j, k | 0 <= j <= k < |s.rowPtrs| ensures s.rowPtrs[j] <= s.rowPtrs[k] {
      assert a.rowPtrs[s.lo + j] <= a.rowPtrs[s.lo + k];
    }
  }

  lemma {:induction false} CutIsOrdered(shards: seq<CsrShard>, i: nat, j: nat, a: CsrArrays, nodeCount: nat,
                                        target: nat, shardSize: nat)
    requires ArraysValid(a, nodeCount)
    requires Cut(shards, nodeCount, a, nodeCount, target, shardSize) && i < j < |shards|
    ensures shards[i].hi <= shards[j].lo
    decreases j
  {
    assert shards[j - 1].hi == shards[j].lo;
    if i < j - 1 {
      CutIsOrdered(shards, i, j - 1, a, nodeCount, target, shardSize);
      assert CutsAt(shards[j - 1].lo, shards[j - 1].hi, a, nodeCount, target, shardSize);
    }
  }

  lemma CutIsTiled(b: Base, a: CsrArrays, target: nat, shardSize: nat)
    requires ArraysValid(a, b.nodeCount)
    requires Cut(b.shards, b.nodeCount, a, b.nodeCount, target, shardSize)
    ensures b.Tiled()
    ensures forall i :: 0 <= i < |b.shards| ==> b.shards[i].HasWeights() == a.weights.Some?
  {
    forall i | 0 <= i < |b.shards|
      ensures b.shards[i].Valid() && b.shards[i].id == i && b.shards[i].HasWeights() == a.weights.Some?
    {
      CutIsValid(b.shards, i, a, b.nodeCount, target, shardSize);
    }
    forall i, j | 0 <= i < j < |b.shards| ensures b.shards[i].hi <= b.shards[j].lo {
      CutIsOrdered(b.shards, i, j, a, b.nodeCount, target, shardSize);
    }
  }

  lemma SliceOfSlice<T>(xs: seq<T>, l: nat, h: nat, from: nat, to: nat)
    requires l <= h <= |xs| && from <= to <= h - l
    ensures xs[l..h][from..to] == xs[l + from..l + to]
  {
    var s, t := xs[l..h][from..to], xs[l + from..l + to];
    assert |s| == |t|;
    forall i | 0 <= i < |s| ensures s[i] == t[i] { assert s[i] == xs[l..h][from + i] == xs[l + from + i]; }
  }

  lemma CutRange(id: nat, lo: nat, hi: nat, a: CsrArrays, nodeCount: nat, n: nat)
    requires ArraysValid(a, nodeCount) && lo <= n < hi <= nodeCount
    requires a.rowPtrs[lo] <= a.rowPtrs[hi] <= |a.cols|
    requires CutShard(id, lo, hi, a).Valid()
    ensures a.rowPtrs[lo] <= a.rowPtrs[n] <= a.rowPtrs[n + 1] <= a.rowPtrs[hi]
    ensures CutShard(id, lo, hi, a).NeighborRange(n - lo) ==
            (a.rowPtrs[n] - a.rowPtrs[lo], a.rowPtrs[n + 1] - a.rowPtrs[lo])
  {
  }

  lemma CutShardRow(id: nat, lo: nat, hi: nat, a: CsrArrays, nodeCount: nat, n: nat)
    requires ArraysValid(a, nodeCount) && lo <= n < hi <= nodeCount
    requires a.rowPtrs[lo] <= a.rowPtrs[hi] <= |a.cols|
    requires CutShard(id, lo, hi, a).Valid()
    ensures a.rowPtrs[n] <= a.rowPtrs[n + 1] <= |a.cols|
    ensures CutShard(id, lo, hi, a).NeighborSlice(n - lo) == a.cols[a.rowPtrs[n]..a.rowPtrs[n + 1]]
    ensures a.weights.Some? ==>
              CutShard(id, lo, hi, a).WeightSlice(n - lo) == a.weights.value[a.rowPtrs[n]..a.rowPtrs[n + 1]]
  {
    hide CsrShard.Valid, CsrShard.NeighborRange;
    var l, h := a.rowPtrs[lo], a.rowPtrs[hi];
    CutRange(id, lo, hi, a, nodeCount, n);
    SliceOfSlice(a.cols, l, h, a.rowPtrs[n] - l, a.rowPtrs[n + 1] - l);
    if a.weights.Some? { SliceOfSlice(a.weights.value, l, h, a.rowPtrs[n] - l, a.rowPtrs[n + 1] - l); }
  }

  /** However the arrays were cut, row n reads back as the global slice. */
  lemma CutRow(b: Base, a: CsrArrays, target: nat, shardSize: nat, n: nat)
    requires ArraysValid(a, b.nodeCount) && b.Tiled()
    requires Cut(b.shards, b.nodeCount, a, b.nodeCount, target, shardSize)
    requires n < b.nodeCount
    ensures a.rowPtrs[n] <= a.rowPtrs[n + 1] <= |a.cols|
    ensures b.NeighborSlice(n) == a.cols[a.rowPtrs[n]..a.rowPtrs[n + 1]]
    ensures a.weights.Some? ==> b.WeightSlice(n) == a.weights.value[a.rowPtrs[n]..a.rowPtrs[n + 1]]
  {
    hide ArraysValid, IsCut, CsrShard.NeighborSlice, CsrShard.WeightSlice, CsrShard.Valid;
    var k := b.SomeShardHolds(n, |b.shards| - 1);
    b.Located(n, k);
    assert b.shards[k].Valid();
    CutRowOf(b.shards[k], k, a, b.nodeCount, target, shardSize, n);
  }

  lemma CutRowOf(s: CsrShard, k: nat, a: CsrArrays, nodeCount: nat, target: nat, shardSize: nat, n: nat)
    requires ArraysValid(a, nodeCount) && IsCut(s, k, a, nodeCount, target, shardSize)
    requires s.Valid() && s.lo <= n < s.hi
    ensures |a.rowPtrs| == nodeCount + 1 && n < nodeCount && a.rowPtrs[n] <= a.rowPtrs[n + 1] <= |a.cols|
    ensures s.NeighborSlice(n - s.lo) == a.cols[a.rowPtrs[n]..a.rowPtrs[n + 1]]
    ensures a.weights.Some? ==>
              |a.weights.value| == |a.cols| &&
              s.WeightSlice(n - s.lo) == a.weights.value[a.rowPtrs[n]..a.rowPtrs[n + 1]]
  {
    hide CsrShard.NeighborSlice, CsrShard.WeightSlice, CsrShard.Valid;
    CutShardRow(k, s.lo, s.hi, a, nodeCount, n);
  }

  // ----- the builder

  /** The edges a build actually uses: a weighted build zips, so edges past the last weight are dropped. */
  function Effective(es: seq<Edge>, ws: seq<Weight>, includeWeights: bool): seq<Edge> {
    if includeWeights && |ws| < |es| then es[..|ws|] else es
  }

  // ----- what a sequence of builder calls adds

  datatype BuilderCall = AddEdges(es: seq<Edge>) | AddWeighted(ps: seq<(Edge, Weight)>)

  function Edges(call: BuilderCall): seq<Edge> {
    match call
    case AddEdges(es) => es
    case AddWeighted(ps) => Firsts(ps)
  }

  function AddedEdges(calls: seq<BuilderCall>): seq<Edge> {
    if calls == [] then [] else AddedEdges(calls[..|calls| - 1]) + Edges(calls[|calls| - 1])
  }

  function AddedWeights(calls: seq<BuilderCall>): seq<Weight> {
    if calls == [] then []
    else
      var last := calls[|calls| - 1];
      AddedWeights(calls[..|calls| - 1]) + if last.AddWeighted? then Seconds(last.ps) else []
  }

  ghost predicate AddsWeights(calls: seq<BuilderCall>) { exists i :: 0 <= i < |calls| && calls[i].AddWeighted? }

  lemma AddsWeightsSnoc(calls: seq<BuilderCall>, i: nat)
    requires i < |calls|
    ensures AddsWeights(calls[..i + 1]) <==> AddsWeights(calls[..i]) || calls[i].AddWeighted?
  {
    if j :| 0 <= j < i && calls[..i][j].AddWeighted? { assert calls[..i + 1][j].AddWeighted?; }
    if calls[i].AddWeighted? { assert calls[..i + 1][i].AddWeighted?; }
    var more := calls[..i + 1];
    if j :| 0 <= j < |more| && more[j].AddWeighted? {
      if j < i { assert calls[..i][j].AddWeighted?; }
    }
  }

  /** How many edges were added without a weight. */
  function PlainEdges(calls: seq<BuilderCall>): nat {
    if calls == [] then 0
    else PlainEdges(calls[..|calls| - 1]) + if calls[|calls| - 1].AddEdges? then |calls[|calls| - 1].es| else 0
  }

  lemma {:induction false} PlainAreUnweighted(calls: seq<BuilderCall>)
    ensures |AddedEdges(calls)| == |AddedWeights(calls)| + PlainEdges(calls)
  {
    if calls == [] {
    } else {
      PlainAreUnweighted(calls[..|calls| - 1]);
    }
  }

  lemma {:induction false} NoPlainEdges(calls: seq<BuilderCall>)
    ensures PlainEdges(calls) == 0 <==> forall i :: 0 <= i < |calls| && calls[i].AddEdges? ==> calls[i].es == []
  {
    if calls == [] {
    } else {
      var m := |calls| - 1;
      NoPlainEdges(calls[..m]);
      assert forall i :: 0 <= i < m ==> calls[..m][i] == calls[i];
    }
  }

  /** In any builder state the build uses every added edge exactly when weights are off or every edge has one. */
  lemma EffectiveKeepsEdgesIff(es: seq<Edge>, ws: seq<Weight>, includeWeights: bool)
    requires |ws| <= |es|
    ensures multiset(Effective(es, ws, includeWeights)) == multiset(es) <==> !includeWeights || |ws| == |es|
    ensures |Effective(es, ws, includeWeights)| == if includeWeights then |ws| else |es|
  {
    assert |multiset(Effective(es, ws, includeWeights))| == |Effective(es, ws, includeWeights)| &&
           |multiset(es)| == |es|;
    assert es[..|es|] == es;
  }

  /** Whatever the order of the calls, a build keeps every added edge if and only if no call gave weights or
      no call gave edges without one; otherwise it drops as many edges as came without weights. */
  lemma MixedBuildKeepsEdgesIff(calls: seq<BuilderCall>)
    ensures |AddedWeights(calls)| <= |AddedEdges(calls)|
    ensures var used := Effective(AddedEdges(calls), AddedWeights(calls), AddsWeights(calls));
            && (multiset(used) == multiset(AddedEdges(calls)) <==>
                (forall i :: 0 <= i < |calls| ==> calls[i].AddEdges?) ||
                (forall i :: 0 <= i < |calls| && calls[i].AddEdges? ==> calls[i].es == []))
            && (AddsWeights(calls) ==> |used| == |AddedEdges(calls)| - PlainEdges(calls))
  {
    PlainAreUnweighted(calls);
    NoPlainEdges(calls);
    EffectiveKeepsEdgesIff(AddedEdges(calls), AddedWeights(calls), AddsWeights(calls));
  }

  lemma AddedSnoc(calls: seq<BuilderCall>, call: BuilderCall)
    ensures AddedEdges(calls + [call]) == AddedEdges(calls) + Edges(call)
    ensures AddedWeights(calls + [call]) == AddedWeights(calls) + if call.AddWeighted? then Seconds(call.ps) else []
    ensures AddedEdges([]) == [] && AddedWeights([]) == []
  {
    assert (calls + [call])[..|calls|] == calls;
  }

  /** One plain edge, then one weighted edge: the build uses the plain one only, with the other's weight. */
  lemma MixedBuildDropsAnEdge(plain: Edge, weighted: Edge, w: Weight)
    ensures var calls := [AddEdges([plain]), AddWeighted([(weighted, w)])];
            && AddedEdges(calls) == [plain, weighted] && AddedWeights(calls) == [w] && AddsWeights(calls)
            && Effective(AddedEdges(calls), AddedWeights(calls), AddsWeights(calls)) == [plain]
  {
    var calls := [AddEdges([plain]), AddWeighted([(weighted, w)])];
    AddedSnoc([], AddEdges([plain]));
    AddedSnoc([AddEdges([plain])], AddWeighted([(weighted, w)]));
    hide AddedEdges, AddedWeights;
    assert [] + [AddEdges([plain])] == [AddEdges([plain])] &&
           [AddEdges([plain])] + [AddWeighted([(weighted, w)])] == calls;
    assert Firsts([(weighted, w)]) == [weighted] && Seconds([(weighted, w)]) == [w];
    assert calls[1].AddWeighted?;
  }

  /** b is the adjacency index of the edge list es, with each weight beside its edge. */
  ghost predicate IndexOf(b: Base, es: seq<Edge>, weights: Option<seq<Weight>>)
    requires weights.Some? ==> |weights.value| == |es|
  {
    && b.Tiled()
    && b.edgeCount == |es| && b.nodeCount == Span(es)
    && (forall n: nat :: b.NeighborSlice(n) == Targets(es, n))
    && (b.HasWeights() <==> weights.Some? && es != [])
    && (weights.Some? ==> forall n: nat :: b.WeightSlice(n) == Pick(es, weights.value, n))
  }

  lemma IndexEdgeCount(b: Base, es: seq<Edge>, e: Edge)
    requires b.Tiled() && forall n: nat :: b.NeighborSlice(n) == Targets(es, n)
    ensures multiset(b.Edges())[e] == multiset(es)[e]
  {
    b.RowIsTargets(e.src);
    TargetsCount(b.Edges(), e.src, e.dst);
    TargetsCount(es, e.src, e.dst);
    assert e == Edge(e.src, e.dst);
  }

  /** An index lists the same edges, with the same multiplicities, as the list it was built from. */
  lemma IndexEdges(b: Base, es: seq<Edge>)
    requires b.Tiled() && forall n: nat :: b.NeighborSlice(n) == Targets(es, n)
    ensures multiset(b.Edges()) == multiset(es)
    ensures |b.Edges()| == |es| && Span(b.Edges()) == Span(es)
  {
    var fs := b.Edges();
    assert multiset(fs) == multiset(es) by {
      forall e: Edge ensures multiset(fs)[e] == multiset(es)[e] { IndexEdgeCount(b, es, e); }
    }
    assert |fs| == |multiset(fs)| && |es| == |multiset(es)|;
    SpanOfSame(fs, es);
  }

  lemma SpanOfSame(es: seq<Edge>, fs: seq<Edge>)
    requires multiset(es) == multiset(fs)
    ensures Span(es) == Span(fs)
  {
    forall i | 0 <= i < |es| ensures es[i].src < Span(fs) && es[i].dst < Span(fs) {
      assert es[i] in multiset(fs);
      var j :| 0 <= j < |fs| && fs[j] == es[i];
    }
    if Span(fs) > 0 {
      var j :| 0 <= j < |fs| && (fs[j].src == Span(fs) - 1 || fs[j].dst == Span(fs) - 1);
      assert fs[j] in multiset(es);
      var i :| 0 <= i < |es| && es[i] == fs[j];
    }
    SpanIs(es, Span(fs));
  }

  lemma IndexIsValid(b: Base, es: seq<Edge>, weights: Option<seq<Weight>>)
    requires weights.Some? ==> |weights.value| == |es|
    requires IndexOf(b, es, weights) && IdsFit(es) && |es| <= U32_MAX
    requires forall i :: 0 <= i < |b.shards| ==> b.shards[i].HasWeights() == weights.Some?
    ensures b.Valid()
  {
    IndexEdges(b, es);
  }

  lemma {:induction false} SpanFits(es: seq<Edge>)
    requires IdsFit(es)
    ensures Span(es) <= U32_MAX + 1
  {
    if Span(es) > 0 {
      var i :| 0 <= i < |es| && (es[i].src == Span(es) - 1 || es[i].dst == Span(es) - 1);
    }
  }

  lemma AllHaveWeights(b: Base, weighted: bool)
    requires b.Tiled() && b.nodeCount > 0
    requires forall i :: 0 <= i < |b.shards| ==> b.shards[i].HasWeights() == weighted
    ensures b.HasWeights() == weighted
  {
    assert b.shards[0].HasWeights() == weighted;
  }

  /** Arrays filled from a sorted list, cut anywhere, index that list and every list it is a stable sort of. */
  lemma CutIndexes(b: Base, a: CsrArrays, sorted: seq<Edge>, es: seq<Edge>, weights: Option<seq<Weight>>,
                   target: nat, shardSize: nat)
    requires SortedBySrc(sorted) && |sorted| == |es| > 0 && b.nodeCount == Span(sorted) == Span(es)
    requires ArraysValid(a, b.nodeCount) && b.edgeCount == |es|
    requires forall n :: 0 <= n <= b.nodeCount ==> a.rowPtrs[n] == CountBelow(sorted, n)
    requires a.cols == Dsts(sorted)
    requires weights.Some? <==> a.weights.Some?
    requires weights.Some? ==> |weights.value| == |es|
    requires Cut(b.shards, b.nodeCount, a, b.nodeCount, target, shardSize)
    requires forall n: nat :: Targets(sorted, n) == Targets(es, n)
    requires weights.Some? ==> forall n: nat :: Pick(sorted, a.weights.value, n) == Pick(es, weights.value, n)
    ensures IndexOf(b, es, weights)
    ensures forall i :: 0 <= i < |b.shards| ==> b.shards[i].HasWeights() == weights.Some?
  {
    CutIsTiled(b, a, target, shardSize);
    AllHaveWeights(b, weights.Some?);
    hide ArraysValid, Cut, SortedBySrc, Base.Tiled, Base.HasWeights, Base.NeighborSlice, Base.WeightSlice, CountBelow,
         Pick, Span;
    forall n: nat
      ensures b.NeighborSlice(n) == Targets(es, n)
      ensures weights.Some? ==> b.WeightSlice(n) == Pick(es, weights.value, n)
    {
      CutIndexesRow(b, a, sorted, target, shardSize, n);
    }
  }

  lemma CutIndexesRow(b: Base, a: CsrArrays, sorted: seq<Edge>, target: nat, shardSize: nat, n: nat)
    requires SortedBySrc(sorted) && b.nodeCount == Span(sorted)
    requires ArraysValid(a, b.nodeCount) && b.Tiled()
    requires forall n :: 0 <= n <= b.nodeCount ==> a.rowPtrs[n] == CountBelow(sorted, n)
    requires a.cols == Dsts(sorted)
    requires Cut(b.shards, b.nodeCount, a, b.nodeCount, target, shardSize)
    ensures b.NeighborSlice(n) == Targets(sorted, n)
    ensures a.weights.Some? ==> b.WeightSlice(n) == Pick(sorted, a.weights.value, n)
  {
    if n < b.nodeCount {
      CutRow(b, a, target, shardSize, n);
      PickIsSlice(sorted, Dsts(sorted), n);
      if a.weights.Some? { PickIsSlice(sorted, a.weights.value, n); }
    } else {
      b.Unlocated(n);
      assert forall e :: e in sorted ==> e.src != n;
      PickNone(sorted, Dsts(sorted), n);
      if a.weights.Some? { PickNone(sorted, a.weights.value, n); }
    }
  }

  lemma RowsGiveMultiset(es: seq<Edge>, fs: seq<Edge>)
    requires forall n: nat :: Targets(es, n) == Targets(fs, n)
    ensures multiset(es) == multiset(fs)
  {
    forall e: Edge ensures multiset(es)[e] == multiset(fs)[e] {
      TargetsCount(es, e.src, e.dst);
      TargetsCount(fs, e.src, e.dst);
      assert e == Edge(e.src, e.dst);
    }
  }

  lemma PairsSorted(es: seq<Edge>, ws: seq<Weight>)
    requires |ws| <= |es|
    ensures var sorted := SortByKey(Zip(es, ws), PairSrc);
            && |sorted| == |ws| && SortedBySrc(Firsts(sorted))
            && forall n: nat :: Targets(Firsts(sorted), n) == Targets(es[..|ws|], n)
                             && Pick(Firsts(sorted), Seconds(sorted), n) == Pick(es[..|ws|], ws, n)
  {
    hide Pick, SortByKey, Zip, Firsts, Seconds;
    var pairs := Zip(es, ws);
    var sorted := SortByKey(pairs, PairSrc);
    SortIsStable(pairs, PairSrc, 0);
    assert Firsts(pairs) == es[..|ws|] && Seconds(pairs) == ws;
    forall n: nat
      ensures Targets(Firsts(sorted), n) == Targets(es[..|ws|], n)
      ensures Pick(Firsts(sorted), Seconds(sorted), n) == Pick(es[..|ws|], ws, n)
    {
      SortIsStable(pairs, PairSrc, n);
      PairsByKey(pairs, n);
      PairsByKey(sorted, n);
    }
    assert SortedBySrc(Firsts(sorted)) by {
      forall i, j | 0 <= i <= j < |sorted| ensures Firsts(sorted)[i].src <= Firsts(sorted)[j].src {
        assert PairSrc(sorted[i]) <= PairSrc(sorted[j]);
      }
    }
  }

  lemma EdgesSorted(es: seq<Edge>)
    ensures var sorted := SortByKey(es, SrcOf);
            && |sorted| == |es| && SortedBySrc(sorted)
            && forall n: nat :: Targets(sorted, n) == Targets(es, n)
  {
    var sorted := SortByKey(es, SrcOf);
    SortIsStable(es, SrcOf, 0);
    forall n: nat ensures Targets(sorted, n) == Targets(es, n) {
      SortIsStable(es, SrcOf, n);
      TargetsByKey(es, n);
      TargetsByKey(sorted, n);
    }
    assert SortedBySrc(sorted) by {
      forall i, j | 0 <= i <= j < |sorted| ensures sorted[i].src <= sorted[j].src {
        assert SrcOf(sorted[i]) <= SrcOf(sorted[j]);
      }
    }
  }

  /** What sorting leaves of the builder's lists. */
  ghost predicate SortedFrom(sorted: seq<Edge>, sortedWeights: seq<Weight>, es: seq<Edge>, ws: seq<Weight>,
                             includeWeights: bool) {
    && |sorted| == |es| && SortedBySrc(sorted)
    && (forall n: nat :: Targets(sorted, n) == Targets(es, n))
    && (includeWeights ==>
          && |sortedWeights| == |ws| == |es|
          && forall n: nat :: Pick(sorted, sortedWeights, n) == Pick(es, ws, n))
  }

  /** Sorted edges have the ids of the edges they were sorted from. */
  lemma SortedIds(sorted: seq<Edge>, es: seq<Edge>)
    requires forall n: nat :: Targets(sorted, n) == Targets(es, n)
    ensures Span(sorted) == Span(es)
    ensures IdsFit(es) ==> IdsFit(sorted)
  {
    RowsGiveMultiset(sorted, es);
    SpanOfSame(sorted, es);
    forall i | 0 <= i < |sorted| && IdsFit(es) ensures sorted[i].src <= U32_MAX && sorted[i].dst <= U32_MAX {
      assert sorted[i] in multiset(es);
    }
  }

  lemma FilledArraysValid(sorted: seq<Edge>, a: CsrArrays, nodeCount: nat)
    requires |sorted| <= U32_MAX && SourcesBelow(sorted, nodeCount) && nodeCount <= U32_MAX + 1
    requires |a.rowPtrs| == nodeCount + 1 && forall n :: 0 <= n <= nodeCount ==> a.rowPtrs[n] == CountBelow(sorted, n)
    requires |a.cols| == |sorted| && (a.weights.Some? ==> |a.weights.value| == |sorted|)
    ensures ArraysValid(a, nodeCount)
  {
    CountStep(sorted, 0);
    CountAll(sorted, nodeCount);
    forall i, j | 0 <= i <= j < |a.rowPtrs| ensures a.rowPtrs[i] <= a.rowPtrs[j] { CountMonotone(sorted, i, j); }
  }

  /** A one-node base layer without edges: what is left when a weighted build has edges but no weights. */
  lemma EmptyRows(b: Base, a: CsrArrays, target: nat, shardSize: nat)
    requires b.nodeCount == 1 && ArraysValid(a, 1) && a.cols == []
    requires Cut(b.shards, 1, a, 1, target, shardSize)
    ensures b.Tiled() && forall n: nat :: b.NeighborSlice(n) == []
  {
    CutIsTiled(b, a, target, shardSize);
    forall n: nat ensures b.NeighborSlice(n) == [] {
      if n == 0 { CutRow(b, a, target, shardSize, 0); } else { b.Unlocated(n); }
    }
  }

  /** Each shard fits the shard size or holds a single node. */
  ghost predicate Bounded(b: Base, shardSize: nat) {
    forall i :: 0 <= i < |b.shards| ==> b.shards[i].Bytes() <= shardSize || b.shards[i].NodeCount() == 1
  }

  lemma CutIsBounded(b: Base, a: CsrArrays, target: nat, shardSize: nat)
    requires ArraysValid(a, b.nodeCount)
    requires Cut(b.shards, b.nodeCount, a, b.nodeCount, target, shardSize)
    ensures Bounded(b, shardSize)
  {
    forall i | 0 <= i < |b.shards| ensures b.shards[i].Bytes() <= shardSize || b.shards[i].NodeCount() == 1 {
      hide ArraysValid;
      CutShardIsBounded(i, b.shards[i], a, b.nodeCount, target, shardSize);
    }
  }

  lemma CutShardIsBounded(id: nat, s: CsrShard, a: CsrArrays, nodeCount: nat, target: nat, shardSize: nat)
    requires ArraysValid(a, nodeCount) && CutsAt(s.lo, s.hi, a, nodeCount, target, shardSize)
    requires s == CutShard(id, s.lo, s.hi, a)
    ensures s.Bytes() <= shardSize || s.NodeCount() == 1
  {
    assert s.Bytes() == ShardBytes(s.lo, s.hi, a);
  }

  /** The outcome of a build whose ids all fit, for the effective edges es. */
  ghost predicate Built(r: Result<Base>, es: seq<Edge>, ws: seq<Weight>, includeWeights: bool, shardSize: nat)
    requires includeWeights ==> |ws| == |es|
  {
    match r
    case Failure(error) =>
      && error == UnsupportedGraphSize
      && (|es| > U32_MAX || (RunsOutOfShards(es, includeWeights, shardSize) && shardSize != DEFAULT_SHARD_SIZE))
    case Success(b) =>
      && |es| <= U32_MAX && !RunsOutOfShards(es, includeWeights, shardSize)
      && b.Tiled() && Bounded(b, shardSize)
      && (es != [] ==> b.Valid() && IndexOf(b, es, if includeWeights then Some(ws) else None))
      && (es == [] ==> b.nodeCount == 1 && b.edgeCount == 0 && forall n: nat :: b.NeighborSlice(n) == [])
  }

  /** The rest of `build` once the edges are sorted; es and ws are the lists as they were added. */
  method IndexSorted(sorted: seq<Edge>, sortedWeights: seq<Weight>, includeWeights: bool, shardSize: nat,
                     ghost es: seq<Edge>, ghost ws: seq<Weight>) returns (r: Result<Base>)
    requires SortedFrom(sorted, sortedWeights, es, ws, includeWeights) && IdsFit(es)
    ensures Built(r, es, ws, includeWeights, shardSize)
  {
    SortedIds(sorted, es);
    SpanFits(sorted);
    var nodeCount := if sorted == [] then 1 else Span(sorted);
    if |sorted| > U32_MAX { return Failure(UnsupportedGraphSize); }
    var built := BuildCsrArrays(sorted, sortedWeights, includeWeights, nodeCount);
    assert built.Success?;  // ids and counts fit, so none of its error branches is reachable
    var arrays := built.value;
    FilledArraysValid(sorted, arrays, nodeCount);
    if nodeCount == U32_MAX + 1 {
      DefaultNeverRunsOut(arrays);
      AllAloneIff(arrays, sorted, es, shardSize);
    }
    var shards :- PartitionIntoShards(nodeCount, arrays, shardSize);
    var base := Base(shards, nodeCount, |sorted|);
    ghost var target := TargetNodes(nodeCount, arrays, shardSize);
    CutIsBounded(base, arrays, target, shardSize);
    if sorted == [] {
      EmptyRows(base, arrays, target, shardSize);
    } else {
      ghost var weightList := if includeWeights then Some(ws) else None;
      CutIndexes(base, arrays, sorted, es, weightList, target, shardSize);
      IndexIsValid(base, es, weightList);
    }
    return Success(base);
  }

  class CsrBuilder {
    var shardSize: nat
    var includeWeights: bool
    var edges: seq<Edge>
    var weights: seq<Weight>

    ghost predicate Valid()
      reads this
    {
      shardSize <= USIZE_MAX && |weights| <= |edges|
    }

    constructor ()
      ensures Valid() && shardSize == DEFAULT_SHARD_SIZE && !includeWeights && edges == [] && weights == []
    {
      shardSize, includeWeights, edges, weights := DEFAULT_SHARD_SIZE, false, [], [];
    }

    method WithShardSize(size: nat)
      requires Valid() && size <= USIZE_MAX
      modifies this`shardSize
      ensures Valid() && shardSize == size
    {
      shardSize := size;
    }

    method WithEdges(es: seq<Edge>)
      requires Valid()
      modifies this`edges
      ensures Valid() && edges == old(edges) + es
    {
      edges := edges + es;
    }

    method WithWeightedEdges(es: seq<(Edge, Weight)>)
      requires Valid()
      modifies this`edges, this`weights, this`includeWeights
      ensures Valid() && includeWeights
      ensures edges == old(edges) + Firsts(es) && weights == old(weights) + Seconds(es)
    {
      includeWeights := true;
      for i := 0 to |es|
        invariant Valid() && includeWeights
        invariant edges == old(edges) + Firsts(es[..i]) && weights == old(weights) + Seconds(es[..i])
      {
        edges := edges + [es[i].0];
        weights := weights + [es[i].1];
        assert Firsts(es[..i + 1]) == Firsts(es[..i]) + [es[i].0];
        assert Seconds(es[..i + 1]) == Seconds(es[..i]) + [es[i].1];
      }
      assert es[..|es|] == es;
    }

    /** A chain of builder calls on a fresh builder. */
    method Add(calls: seq<BuilderCall>)
      requires Valid() && edges == [] && weights == [] && !includeWeights
      modifies this`edges, this`weights, this`includeWeights
      ensures Valid() && edges == AddedEdges(calls) && weights == AddedWeights(calls) &&
              includeWeights == AddsWeights(calls)
    {
      for i := 0 to |calls|
        invariant Valid() && edges == AddedEdges(calls[..i]) && weights == AddedWeights(calls[..i])
        invariant includeWeights == AddsWeights(calls[..i])
      {
        assert calls[..i + 1][..i] == calls[..i];
        AddsWeightsSnoc(calls, i);
        match calls[i] {
          case AddEdges(es) => WithEdges(es);
          case AddWeighted(ps) => WithWeightedEdges(ps);
        }
      }
      assert calls[..|calls|] == calls;
    }

    /** `validate_edge_ids`. */
    method ValidateEdgeIds() returns (r: Result<()>)
      ensures r.Success? <==>
                forall i :: 0 <= i < |edges| ==> edges[i].src < 0x1_0000_0000 && edges[i].dst < 0x1_0000_0000
      ensures r.Failure? ==> exists i :: 0 <= i < |edges| && IdsFit(edges[..i]) && !IdsFit(edges[..i + 1]) &&
                                    r.error == InvalidEdge(edges[i].src, edges[i].dst)
    {
      for i := 0 to |edges|
        invariant IdsFit(edges[..i])
      {
        var e := edges[i];
        if e.src > U32_MAX || e.dst > U32_MAX {
          assert edges[..i + 1][i] == e;
          return Failure(InvalidEdge(e.src, e.dst));
        }
      }
      assert edges[..|edges|] == edges;
      return Success(());
    }

    /** The stable sort: same rows, sorted by source. */
    method SortEdges()
      requires Valid()
      modifies this`edges, this`weights
      ensures Valid()
      ensures SortedFrom(edges, weights, Effective(old(edges), old(weights), includeWeights), old(weights),
                         includeWeights)
    {
      if includeWeights {
        PairsSorted(edges, weights);
        assert edges[..|weights|] == Effective(edges, weights, true);
        var sorted := SortByKey(Zip(edges, weights), PairSrc);
        edges, weights := Firsts(sorted), Seconds(sorted);
      } else {
        EdgesSorted(edges);
        edges := SortByKey(edges, SrcOf);
      }
    }

    /** `build`. Succeeds exactly when the ids and the edge count fit in u32 and the shards can be
        numbered, as they always can with the default size; the result indexes the effective edge list. */
    method Build() returns (r: Result<Base>)
      requires Valid()
      modifies this`edges, this`weights
      ensures old(edges) == [] ==> r == Success(EMPTY_BASE)
      ensures old(edges) != [] && !IdsFit(old(edges)) ==> r.Failure? && r.error.InvalidEdge?
      ensures old(edges) != [] && IdsFit(old(edges)) ==>
                var es := Effective(old(edges), old(weights), includeWeights);
                && (r.Success? <==> |es| < 0x1_0000_0000 && !RunsOutOfShards(es, includeWeights, shardSize))
                && (r.Failure? ==> r.error == UnsupportedGraphSize)
                && (r.Failure? ==> |es| >= 0x1_0000_0000 || shardSize != DEFAULT_SHARD_SIZE)
                && (r.Success? ==> r.value.Tiled() && Bounded(r.value, shardSize))
                && (r.Success? && es != [] ==> r.value.Valid())
                && (r.Success? && es != [] ==>
                      IndexOf(r.value, es, if includeWeights then Some(old(weights)) else None))
                && (r.Success? && es == [] ==> r.value.nodeCount == 1 && r.value.edgeCount == 0)
                && (r.Success? && es == [] ==> forall n: nat :: r.value.NeighborSlice(n) == [])
    {
      if edges == [] {
        EmptyBaseValid();
        return Success(EMPTY_BASE);
      }
      var _ :- ValidateEdgeIds();
      ghost var es, ws := Effective(edges, weights, includeWeights), weights;
      SortEdges();
      r := IndexSorted(edges, weights, includeWeights, shardSize, es, ws);
    }
  }
}
