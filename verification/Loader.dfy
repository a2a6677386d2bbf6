/** The interning loop of `build_edge_graph_with_dictionary`: rows with possibly null keys become a
    dense graph that is the key graph under another name. */
module Loader {
  import opened BaseLaws
  import opened Builder
  import opened Common
  import opened Csr
  import opened Dictionary
  import opened EdgeLists
  import opened Graph
  import opened Hops
  import opened Words

  /** One scanned row; a null is None. */
  datatype Row = Row(from: Option<string>, to: Option<string>, weight: Option<Weight>)

  /** The key pairs of the rows without a null key, in order. */
  function KeyPairs(rows: seq<Row>): seq<(string, string)> {
    if rows == [] then []
    else
      var m := |rows| - 1;
      KeyPairs(rows[..m]) +
      if rows[m].from.Some? && rows[m].to.Some? then [(rows[m].from.value, rows[m].to.value)] else []
  }

  /** Their weights, a null weight counting as 1. */
  function PairWeights(rows: seq<Row>): (ws: seq<Weight>)
    ensures |ws| == |KeyPairs(rows)|
  {
    if rows == [] then []
    else
      var m := |rows| - 1;
      PairWeights(rows[..m]) +
      if rows[m].from.Some? && rows[m].to.Some?
      then [if rows[m].weight.Some? then rows[m].weight.value else 1.0] else []
  }

  function FlattenRows(batches: seq<seq<Row>>): seq<Row> {
    if batches == [] then [] else FlattenRows(batches[..|batches| - 1]) + batches[|batches| - 1]
  }

  /** The batches are read one after another, each as it is. */
  lemma FlattenRowsSnoc(batches: seq<seq<Row>>, batch: seq<Row>)
    ensures FlattenRows([]) == []
    ensures FlattenRows(batches + [batch]) == FlattenRows(batches) + batch
  {
    assert (batches + [batch])[..|batches|] == batches;
  }

  /** The rows of all batches, and no others. */
  lemma {:induction false} FlattenRowsMember(batches: seq<seq<Row>>, row: Row)
    ensures row in FlattenRows(batches) <==> exists b :: 0 <= b < |batches| && row in batches[b]
  {
    if batches == [] {
    } else {
      var m := |batches| - 1;
      FlattenRowsMember(batches[..m], row);
      if b :| 0 <= b < m && row in batches[..m][b] { assert row in batches[b]; }
      if b :| 0 <= b < |batches| && row in batches[b] {
        if b < m { assert row in batches[..m][b]; }
      }
    }
  }

  /** A pair is listed exactly when some row holds both its keys. */
  lemma {:induction false} KeyPairsMember(rows: seq<Row>, p: (string, string))
    ensures p in KeyPairs(rows) <==>
            exists row :: row in rows && row.from == Some(p.0) && row.to == Some(p.1)
  {
    if rows == [] {
    } else {
      var m := |rows| - 1;
      KeyPairsMember(rows[..m], p);
      assert rows == rows[..m] + [rows[m]];
      assert rows[m] in rows;
      if row :| row in rows[..m] && row.from == Some(p.0) && row.to == Some(p.1) { assert row in rows; }
      if row :| row in rows && row.from == Some(p.0) && row.to == Some(p.1) {
        if row != rows[m] { assert row in rows[..m]; }
      }
    }
  }

  /** Some row without nulls holds the key. */
  ghost predicate HoldsKey(batches: seq<seq<Row>>, key: string) {
    exists b, row :: 0 <= b < |batches| && row in batches[b] &&
      row.from.Some? && row.to.Some? && (row.from.value == key || row.to.value == key)
  }

  lemma HoldsKeyIff(batches: seq<seq<Row>>, key: string)
    ensures var pairs := KeyPairs(FlattenRows(batches));
            HoldsKey(batches, key) <==> exists i :: 0 <= i < |pairs| && (pairs[i].0 == key || pairs[i].1 == key)
  {
    hide KeyPairs, FlattenRows;
    var rows, pairs := FlattenRows(batches), KeyPairs(FlattenRows(batches));
    if HoldsKey(batches, key) {
      var b, row :| 0 <= b < |batches| && row in batches[b] &&
        row.from.Some? && row.to.Some? && (row.from.value == key || row.to.value == key);
      FlattenRowsMember(batches, row);
      KeyPairsMember(rows, (row.from.value, row.to.value));
      var i :| 0 <= i < |pairs| && pairs[i] == (row.from.value, row.to.value);
    }
    if i :| 0 <= i < |pairs| && (pairs[i].0 == key || pairs[i].1 == key) {
      assert pairs[i] in pairs;
      KeyPairsMember(rows, pairs[i]);
      var row :| row in rows && row.from == Some(pairs[i].0) && row.to == Some(pairs[i].1);
      FlattenRowsMember(batches, row);
    }
  }

  // ----- counting the rows without nulls

  /** Where the rows without nulls stand: the batch and the place in it. */
  ghost function Joined(batches: seq<seq<Row>>): set<(nat, nat)> {
    set b: nat, i: nat
      | b < |batches| && i < |batches[b]| && batches[b][i].from.Some? && batches[b][i].to.Some? :: (b, i)
  }

  ghost function JoinedIn(rows: seq<Row>): set<nat> {
    set i: nat | i < |rows| && rows[i].from.Some? && rows[i].to.Some?
  }

  lemma {:induction false} PairsAreCounted(rows: seq<Row>)
    ensures |KeyPairs(rows)| == |JoinedIn(rows)|
  {
    if rows == [] {
      assert JoinedIn(rows) == {};
    } else {
      var m: nat := |rows| - 1;
      PairsAreCounted(rows[..m]);
      assert JoinedIn(rows) == JoinedIn(rows[..m]) + if rows[m].from.Some? && rows[m].to.Some? then {m} else {};
    }
  }

  lemma {:induction false} PairsAppend(rows: seq<Row>, more: seq<Row>)
    ensures |KeyPairs(rows + more)| == |KeyPairs(rows)| + |KeyPairs(more)|
  {
    if more == [] {
      assert rows + more == rows;
    } else {
      var m := |more| - 1;
      PairsAppend(rows, more[..m]);
      assert (rows + more)[..|rows| + m] == rows + more[..m];
    }
  }

  lemma {:induction false} TagSize(s: set<nat>, b: nat)
    ensures |set i: nat | i in s :: (b, i)| == |s|
    decreases s
  {
    if s == {} {
      assert (set i: nat | i in s :: (b, i)) == {};
    } else {
      var x :| x in s;
      TagSize(s - {x}, b);
      assert (set i: nat | i in s :: (b, i)) == (set i: nat | i in s - {x} :: (b, i)) + {(b, x)};
    }
  }

  /** One edge per row without nulls, over all batches. */
  lemma {:induction false} JoinedAreCounted(batches: seq<seq<Row>>)
    ensures |KeyPairs(FlattenRows(batches))| == |Joined(batches)|
  {
    hide KeyPairs;
    if batches == [] {
      PairsAreCounted([]);
      assert JoinedIn([]) == {} && Joined(batches) == {};
    } else {
      var m: nat := |batches| - 1;
      var front, last := batches[..m], batches[m];
      JoinedAreCounted(front);
      PairsAppend(FlattenRows(front), last);
      PairsAreCounted(last);
      TagSize(JoinedIn(last), m);
      var tagged := set i: nat | i in JoinedIn(last) :: (m, i);
      assert Joined(batches) == Joined(front) + tagged;
      assert Joined(front) !! tagged;
    }
  }

  // ----- interning

  /** Edge i joins the ids of the keys of pair i, and every key came from some pair. */
  ghost predicate Encodes(keys: seq<string>, edges: seq<Edge>, pairs: seq<(string, string)>) {
    && |edges| == |pairs|
    && (forall i :: 0 <= i < |edges| ==>
          && edges[i].src < |keys| && keys[edges[i].src] == pairs[i].0
          && edges[i].dst < |keys| && keys[edges[i].dst] == pairs[i].1)
    && (forall j {:trigger keys[j]} :: 0 <= j < |keys| ==>
        exists i :: 0 <= i < |pairs| && (pairs[i].0 == keys[j] || pairs[i].1 == keys[j]))
  }

  /** Ids are given out in the order of first appearance, the first key of a pair before the second: key j is the
      first one in the pairs that is not among the keys before it. */
  ghost predicate FirstOrder(keys: seq<string>, pairs: seq<(string, string)>) {
    forall j :: 0 <= j < |keys| ==> FirstNew(keys[..j], keys[j], pairs)
  }

  /** The key is the first one in the pairs that is not known. */
  ghost predicate FirstNew(known: seq<string>, key: string, pairs: seq<(string, string)>) {
    key !in known &&
    exists i :: 0 <= i < |pairs|
      && (forall k :: 0 <= k < i ==> pairs[k].0 in known && pairs[k].1 in known)
      && (pairs[i].0 == key || (pairs[i].0 in known && pairs[i].1 == key))
  }

  lemma FirstNewStays(known: seq<string>, key: string, pairs: seq<(string, string)>, p: (string, string))
    requires FirstNew(known, key, pairs)
    ensures FirstNew(known, key, pairs + [p])
  {
    var i :| 0 <= i < |pairs|
      && (forall k :: 0 <= k < i ==> pairs[k].0 in known && pairs[k].1 in known)
      && (pairs[i].0 == key || (pairs[i].0 in known && pairs[i].1 == key));
    var ps := pairs + [p];
    assert ps[i] == pairs[i] && forall k :: 0 <= k < i ==> ps[k] == pairs[k];
  }

  /** The keys after interning one more pair. */
  ghost function Interning(keys: seq<string>, from: string, to: string): (more: seq<string>)
    ensures keys <= more
  {
    var known := if from in keys then keys else keys + [from];
    if to in known then known else known + [to]
  }

  lemma FirstOrderGrows(keys: seq<string>, pairs: seq<(string, string)>, p: (string, string))
    requires FirstOrder(keys, pairs)
    requires forall i :: 0 <= i < |pairs| ==> pairs[i].0 in keys && pairs[i].1 in keys
    ensures FirstOrder(Interning(keys, p.0, p.1), pairs + [p])
  {
    hide FirstNew;
    var more, ps := Interning(keys, p.0, p.1), pairs + [p];
    forall j | 0 <= j < |more| ensures FirstNew(more[..j], more[j], ps) {
      if j < |keys| {
        assert more[..j] == keys[..j] && more[j] == keys[j];
        FirstNewStays(keys[..j], keys[j], pairs, p);
      } else {
        NewKeyIsFirst(keys, pairs, p, j);
      }
    }
  }

  lemma NewKeyIsFirst(keys: seq<string>, pairs: seq<(string, string)>, p: (string, string), j: nat)
    requires |keys| <= j < |Interning(keys, p.0, p.1)|
    requires forall i :: 0 <= i < |pairs| ==> pairs[i].0 in keys && pairs[i].1 in keys
    ensures FirstNew(Interning(keys, p.0, p.1)[..j], Interning(keys, p.0, p.1)[j], pairs + [p])
  {
    var more, ps := Interning(keys, p.0, p.1), pairs + [p];
    var known := more[..j];
    assert forall x :: x in keys ==> x in known by {
      assert known[..|keys|] == keys;
    }
    assert ps[|pairs|] == p && forall k :: 0 <= k < |pairs| ==> ps[k] == pairs[k];
    if p.0 !in keys && j == |keys| {
      assert known == keys && more[j] == p.0;
    } else {
      assert more[j] == p.1 && p.0 in known && p.1 !in known;
    }
  }

  lemma EncodesGrows(keys: seq<string>, more: seq<string>, edges: seq<Edge>, pairs: seq<(string, string)>, e: Edge,
                     p: (string, string))
    requires Encodes(keys, edges, pairs)
    requires e.src < |more| && more[e.src] == p.0 && e.dst < |more| && more[e.dst] == p.1
    requires more == Interning(keys, p.0, p.1)
    ensures Encodes(more, edges + [e], pairs + [p])
  {
    var ps := pairs + [p];
    forall j {:trigger more[j]} | 0 <= j < |more|
      ensures exists i :: 0 <= i < |ps| && (ps[i].0 == more[j] || ps[i].1 == more[j])
    {
      if j < |keys| {
        var i :| 0 <= i < |pairs| && (pairs[i].0 == keys[j] || pairs[i].1 == keys[j]);
        assert ps[i] == pairs[i];
      } else {
        assert ps[|pairs|] == p;
      }
    }
  }

  lemma EncodedKeys(keys: seq<string>, edges: seq<Edge>, pairs: seq<(string, string)>)
    requires Encodes(keys, edges, pairs)
    ensures forall i :: 0 <= i < |pairs| ==> pairs[i].0 in keys && pairs[i].1 in keys
  {
  }

  lemma RowsStep(before: seq<Row>, batch: seq<Row>, i: nat)
    requires i < |batch|
    ensures var pairs, weights := KeyPairs(before + batch[..i]), PairWeights(before + batch[..i]);
            if batch[i].from.None? || batch[i].to.None? then
              KeyPairs(before + batch[..i + 1]) == pairs && PairWeights(before + batch[..i + 1]) == weights
            else
              && KeyPairs(before + batch[..i + 1]) == pairs + [(batch[i].from.value, batch[i].to.value)]
              && PairWeights(before + batch[..i + 1]) ==
                 weights + [if batch[i].weight.Some? then batch[i].weight.value else 1.0]
  {
    var rows := before + batch[..i + 1];
    assert rows[..|rows| - 1] == before + batch[..i] && rows[|rows| - 1] == batch[i];
  }

  /** Interns both keys of a pair: the ends of its edge. */
  method InternPair(dictionary: NodeDictionary, from: string, to: string) returns (e: Edge)
    requires dictionary.Valid()
    modifies dictionary
    ensures dictionary.Valid() && old(dictionary.keys) <= dictionary.keys
    ensures e.src < |dictionary.keys| && dictionary.keys[e.src] == from
    ensures e.dst < |dictionary.keys| && dictionary.keys[e.dst] == to
    ensures dictionary.keys == Interning(old(dictionary.keys), from, to)
  {
    var f := dictionary.GetOrInsert(from);
    var t := dictionary.GetOrInsert(to);
    return Edge(f, t);
  }

  /** The row loop over one batch, after the rows before it. */
  method InternBatch(dictionary: NodeDictionary, batch: seq<Row>, weighted: bool, edges0: seq<Edge>,
                     weights0: seq<Weight>, ghost before: seq<Row>)
    returns (edges: seq<Edge>, weights: seq<Weight>)
    requires dictionary.Valid() && Encodes(dictionary.keys, edges0, KeyPairs(before))
    requires FirstOrder(dictionary.keys, KeyPairs(before))
    requires weights0 == if weighted then PairWeights(before) else []
    modifies dictionary
    ensures dictionary.Valid() && Encodes(dictionary.keys, edges, KeyPairs(before + batch))
    ensures FirstOrder(dictionary.keys, KeyPairs(before + batch))
    ensures weights == if weighted then PairWeights(before + batch) else []
  {
    hide Encodes, FirstOrder, KeyPairs, PairWeights, NodeDictionary.Valid, Interning;
    edges, weights := edges0, weights0;
    assert before + batch[..0] == before;
    for i := 0 to |batch|
      invariant dictionary.Valid() && Encodes(dictionary.keys, edges, KeyPairs(before + batch[..i]))
      invariant FirstOrder(dictionary.keys, KeyPairs(before + batch[..i]))
      invariant weights == if weighted then PairWeights(before + batch[..i]) else []
    {
      RowsStep(before, batch, i);
      var row := batch[i];
      if row.from.None? || row.to.None? { continue; }
      ghost var keys := dictionary.keys;
      var e := InternPair(dictionary, row.from.value, row.to.value);
      EncodedKeys(keys, edges, KeyPairs(before + batch[..i]));
      FirstOrderGrows(keys, KeyPairs(before + batch[..i]), (row.from.value, row.to.value));
      EncodesGrows(keys, dictionary.keys, edges, KeyPairs(before + batch[..i]), e, (row.from.value, row.to.value));
      edges := edges + [e];
      if weighted { weights := weights + [if row.weight.Some? then row.weight.value else 1.0]; }
    }
    assert batch[..|batch|] == batch;
  }

  /** The row loop over every batch. */
  method Intern(batches: seq<seq<Row>>, weighted: bool)
    returns (dictionary: NodeDictionary, edges: seq<Edge>, weights: seq<Weight>)
    ensures fresh(dictionary) && dictionary.Valid()
    ensures Encodes(dictionary.keys, edges, KeyPairs(FlattenRows(batches)))
    ensures FirstOrder(dictionary.keys, KeyPairs(FlattenRows(batches)))
    ensures weights == if weighted then PairWeights(FlattenRows(batches)) else []
  {
    dictionary := new NodeDictionary();
    edges, weights := [], [];
    for b := 0 to |batches|
      invariant fresh(dictionary) && dictionary.Valid()
      invariant Encodes(dictionary.keys, edges, KeyPairs(FlattenRows(batches[..b])))
      invariant FirstOrder(dictionary.keys, KeyPairs(FlattenRows(batches[..b])))
      invariant weights == if weighted then PairWeights(FlattenRows(batches[..b])) else []
    {
      hide Encodes, KeyPairs, PairWeights;
      assert batches[..b + 1][..b] == batches[..b];
      edges, weights := InternBatch(dictionary, batches[b], weighted, edges, weights, FlattenRows(batches[..b]));
    }
    assert batches[..|batches|] == batches;
  }

  /** The ids used are exactly 0..len, so the graph has one node per key. */
  lemma SpanIsKeyCount(toId: map<string, nat>, keys: seq<string>, edges: seq<Edge>, pairs: seq<(string, string)>)
    requires Interned(toId, keys) && Encodes(keys, edges, pairs)
    ensures Span(edges) == |keys|
  {
    var n := |keys|;
    if n > 0 {
      var last := keys[n - 1];
      var i :| 0 <= i < |pairs| && (pairs[i].0 == last || pairs[i].1 == last);
      KeysDistinct(toId, keys, edges[i].src, n - 1);
      KeysDistinct(toId, keys, edges[i].dst, n - 1);
    }
    SpanIs(edges, n);
  }

  /** The values attached to the pairs that leave a key, in order. */
  function PickKey<T>(pairs: seq<(string, string)>, xs: seq<T>, key: string): seq<T>
    requires |xs| == |pairs|
  {
    if pairs == [] then []
    else
      var m := |pairs| - 1;
      PickKey(pairs[..m], xs[..m], key) + if pairs[m].0 == key then [xs[m]] else []
  }

  /** Picking by id is picking by key. */
  lemma {:induction false} PickById<T>(toId: map<string, nat>, keys: seq<string>, edges: seq<Edge>,
                                       pairs: seq<(string, string)>, xs: seq<T>, id: nat)
    requires Interned(toId, keys) && id < |keys|
    requires |edges| == |pairs| == |xs|
    requires forall i :: 0 <= i < |edges| ==> edges[i].src < |keys| && keys[edges[i].src] == pairs[i].0
    ensures Pick(edges, xs, id) == PickKey(pairs, xs, keys[id])
  {
    if edges == [] {
    } else {
      var m := |edges| - 1;
      PickById(toId, keys, edges[..m], pairs[..m], xs[..m], id);
      KeysDistinct(toId, keys, edges[m].src, id);
    }
  }

  function Heads(pairs: seq<(string, string)>): (hs: seq<string>)
    ensures |hs| == |pairs| && forall i :: 0 <= i < |hs| ==> hs[i] == pairs[i].1
  {
    seq(|pairs|, i requires 0 <= i < |pairs| => pairs[i].1)
  }

  lemma {:induction false} PickKeyNamed(keys: seq<string>, edges: seq<Edge>, pairs: seq<(string, string)>, key: string)
    requires |edges| == |pairs|
    requires forall i :: 0 <= i < |edges| ==> edges[i].dst < |keys| && keys[edges[i].dst] == pairs[i].1
    ensures Named(PickKey<nat>(pairs, Dsts(edges), key), keys, PickKey(pairs, Heads(pairs), key))
  {
    if edges == [] {
    } else {
      var m := |edges| - 1;
      PickKeyNamed(keys, edges[..m], pairs[..m], key);
      assert Dsts(edges)[..m] == Dsts(edges[..m]) && Heads(pairs)[..m] == Heads(pairs[..m]);
    }
  }

  /** The ids name the given keys, position by position. */
  ghost predicate Named(ids: seq<nat>, keys: seq<string>, names: seq<string>) {
    && |ids| == |names|
    && forall i :: 0 <= i < |ids| ==> ids[i] < |keys| && keys[ids[i]] == names[i]
  }

  /** The built graph is the key graph: node id n lists, in order and with multiplicity, the targets of
      the pairs that leave key n, each weight beside its own edge. */
  ghost predicate KeyGraph(b: Base, keys: seq<string>, rows: seq<Row>, weighted: bool)
    requires b.Tiled()
  {
    && b.nodeCount == |keys| && b.edgeCount == |KeyPairs(rows)|
    && forall id :: 0 <= id < |keys| ==>
         && Named(b.NeighborSlice(id), keys, PickKey(KeyPairs(rows), Heads(KeyPairs(rows)), keys[id]))
         && (weighted ==> b.WeightSlice(id) == PickKey(KeyPairs(rows), PairWeights(rows), keys[id]))
  }

  lemma EncodedIsKeyGraph(b: Base, toId: map<string, nat>, keys: seq<string>, edges: seq<Edge>, rows: seq<Row>,
                          weighted: bool)
    requires Interned(toId, keys) && Encodes(keys, edges, KeyPairs(rows))
    requires IndexOf(b, edges, if weighted then Some(PairWeights(rows)) else None)
    ensures KeyGraph(b, keys, rows, weighted)
  {
    hide Base.Tiled, Base.NeighborSlice, Base.WeightSlice;
    var pairs := KeyPairs(rows);
    SpanIsKeyCount(toId, keys, edges, pairs);
    forall id | 0 <= id < |keys|
      ensures Named(b.NeighborSlice(id), keys, PickKey(pairs, Heads(pairs), keys[id]))
      ensures weighted ==> b.WeightSlice(id) == PickKey(pairs, PairWeights(rows), keys[id])
    {
      PickById<nat>(toId, keys, edges, pairs, Dsts(edges), id);
      PickKeyNamed(keys, edges, pairs, keys[id]);
      if weighted { PickById(toId, keys, edges, pairs, PairWeights(rows), id); }
    }
  }

  /** A key has an id exactly when it occurs in a pair without nulls. */
  lemma KeyOccurs(toId: map<string, nat>, keys: seq<string>, edges: seq<Edge>, pairs: seq<(string, string)>,
                  key: string)
    requires Interned(toId, keys) && Encodes(keys, edges, pairs)
    ensures key in toId <==> exists i :: 0 <= i < |pairs| && (pairs[i].0 == key || pairs[i].1 == key)
  {
    if key in toId { assert keys[toId[key]] == key; }
    if i :| 0 <= i < |pairs| && (pairs[i].0 == key || pairs[i].1 == key) {
      assert keys[edges[i].src] in toId && keys[edges[i].dst] in toId;
    }
  }

  /** The distinct keys of the pairs. */
  function KeySet(pairs: seq<(string, string)>): set<string> {
    (set p | p in pairs :: p.0) + (set p | p in pairs :: p.1)
  }

  lemma KeySetMember(pairs: seq<(string, string)>, key: string)
    ensures key in KeySet(pairs) <==> exists i :: 0 <= i < |pairs| && (pairs[i].0 == key || pairs[i].1 == key)
  {
    if i :| 0 <= i < |pairs| && (pairs[i].0 == key || pairs[i].1 == key) { assert pairs[i] in pairs; }
  }

  lemma {:induction false} DistinctSetSize(s: seq<string>)
    requires Distinct(s)
    ensures |set x | x in s| == |s|
  {
    if s == [] {
    } else {
      var m := |s| - 1;
      DistinctSetSize(s[..m]);
      assert s == s[..m] + [s[m]];
      assert (set x | x in s) == (set x | x in s[..m]) + {s[m]};
      assert s[m] !in s[..m];
    }
  }

  lemma KeyCount(toId: map<string, nat>, keys: seq<string>, edges: seq<Edge>, pairs: seq<(string, string)>)
    requires Interned(toId, keys) && Encodes(keys, edges, pairs)
    ensures |keys| == |KeySet(pairs)|
  {
    DistinctSetSize(keys);
    forall k: string ensures k in KeySet(pairs) <==> k in keys {
      KeyOccurs(toId, keys, edges, pairs, k);
      KeySetMember(pairs, k);
      if k in toId { assert keys[toId[k]] == k; }
    }
    assert (set x | x in keys) == KeySet(pairs);
  }

  lemma EncodedFits(toId: map<string, nat>, keys: seq<string>, edges: seq<Edge>, pairs: seq<(string, string)>)
    requires Interned(toId, keys) && Encodes(keys, edges, pairs)
    ensures Fits(edges) <==> |pairs| <= U32_MAX && |KeySet(pairs)| <= U32_MAX + 1
  {
    SpanIsKeyCount(toId, keys, edges, pairs);
    KeyCount(toId, keys, edges, pairs);
    if IdsFit(edges) { SpanFits(edges); }
  }

  /** `build_edge_graph_with_dictionary` from the scanned batches on. */
  method BuildWithDictionary(batches: seq<seq<Row>>, weighted: bool) returns (r: Result<(Base, NodeDictionary)>)
    ensures r.Success? ==>
              var (b, d) := r.value;
              && fresh(d) && d.Valid() && b.Valid()
              && KeyGraph(b, d.keys, FlattenRows(batches), weighted)
              && FirstOrder(d.keys, KeyPairs(FlattenRows(batches)))
              && b.edgeCount == |Joined(batches)|
              && (forall key :: d.IdOf(key).Some? <==> HoldsKey(batches, key))
              && (forall id: nat :: d.KeyOf(id).Some? <==> id < b.nodeCount)
    ensures r.Success? <==>
              |Joined(batches)| < 0x1_0000_0000 && |KeySet(KeyPairs(FlattenRows(batches)))| <= 0x1_0000_0000
  {
    hide Base.Tiled, Base.NeighborSlice, Base.WeightSlice, IndexOf, KeyPairs, PairWeights, FlattenRows, Joined,
         HoldsKey;
    var d, edges, weights := Intern(batches, weighted);
    ghost var pairs := KeyPairs(FlattenRows(batches));
    EncodedFits(d.toId, d.keys, edges, pairs);
    JoinedAreCounted(batches);
    var rebuilt := Rebuild(edges, weights, weighted);
    if rebuilt.Failure? { return Failure(rebuilt.error); }
    EncodedIsKeyGraph(rebuilt.value, d.toId, d.keys, edges, FlattenRows(batches), weighted);
    forall key: string ensures d.IdOf(key).Some? <==> HoldsKey(batches, key) {
      KeyOccurs(d.toId, d.keys, edges, pairs, key);
      HoldsKeyIff(batches, key);
    }
    return Success((rebuilt.value, d));
  }
}
