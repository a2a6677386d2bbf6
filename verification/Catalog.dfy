/** `GraphCatalog`: named graphs, their memoized transposes and dictionaries, and compaction in place. */
module Catalog {
  import opened BaseLaws
  import opened Builder
  import opened Common
  import opened Compaction
  import opened Csr
  import opened Delta
  import opened Dictionary
  import opened Graph
  import opened Hops
  import opened Merge

  class GraphEntry {
    const forward: CsrGraph
    // set at most once
    var reverse: Option<CsrGraph>
    const dictionary: Option<NodeDictionary>

    constructor (forward: CsrGraph, reverse: Option<CsrGraph>, dictionary: Option<NodeDictionary>)
      ensures this.forward == forward && this.reverse == reverse && this.dictionary == dictionary
    {
      this.forward, this.reverse, this.dictionary := forward, reverse, dictionary;
    }
  }

  /** Row b of the transpose lists a as often as the graph currently shows b for a. */
  ghost predicate Transposes(forward: CsrGraph, reverse: CsrGraph)
    requires forward.Valid() && reverse.base.Tiled()
    reads forward.delta
  {
    forall a: nat, b: nat :: multiset(reverse.base.NeighborSlice(b))[a] == multiset(forward.Adjacency()(a))[b]
  }

  /** So over a transpose without a delta of its own, every node shows the reversed neighbours, live
      mutations of the forward graph included. */
  lemma TransposesReverse(forward: CsrGraph, reverse: CsrGraph)
    requires forward.Valid() && reverse.Valid() && reverse.delta.IsEmpty() && Transposes(forward, reverse)
    ensures Reversed(forward.Adjacency(), reverse.Adjacency())
  {
    hide Base.Tiled, Base.NeighborSlice, CsrGraph.Adjacency, MergedRows;
    CleanAdjacency(reverse);
    forall a: nat, b: nat ensures b in forward.Adjacency()(a) <==> a in reverse.Adjacency()(b) {
      assert a in reverse.base.NeighborSlice(b) <==> a in multiset(reverse.base.NeighborSlice(b));
      assert b in forward.Adjacency()(a) <==> b in multiset(forward.Adjacency()(a));
    }
  }

  /** What other threads register or remove while a compaction is under way. */
  datatype CatalogCall = Registered(name: string, entry: GraphEntry) | Deregistered(name: string)

  function AfterCalls(graphs: map<string, GraphEntry>, calls: seq<CatalogCall>): map<string, GraphEntry> {
    if calls == [] then graphs
    else
      var before := AfterCalls(graphs, calls[..|calls| - 1]);
      match calls[|calls| - 1]
      case Registered(name, entry) => before[name := entry]
      case Deregistered(name) => before - {name}
  }

  /** A registration or removal has its effect: the entry is there, or the name is gone. */
  ghost predicate InEffect(graphs: map<string, GraphEntry>, call: CatalogCall) {
    match call
    case Registered(name, entry) => name in graphs && graphs[name] == entry
    case Deregistered(name) => name !in graphs
  }

  lemma {:induction false} LastCallIsInEffect(graphs: map<string, GraphEntry>, calls: seq<CatalogCall>, i: nat)
    requires i < |calls| && forall j :: i < j < |calls| ==> calls[j].name != calls[i].name
    ensures InEffect(AfterCalls(graphs, calls), calls[i])
  {
    if i == |calls| - 1 {
    } else {
      LastCallIsInEffect(graphs, calls[..|calls| - 1], i);
      assert calls[|calls| - 1].name != calls[i].name;
    }
  }

  ghost predicate NoCallOn(calls: seq<CatalogCall>, name: string) {
    forall i :: 0 <= i < |calls| ==> calls[i].name != name
  }

  /** The name has the same entry in both, or none in either. */
  ghost predicate SameEntry(graphs: map<string, GraphEntry>, after: map<string, GraphEntry>, name: string) {
    (name in after <==> name in graphs) && (name in after ==> after[name] == graphs[name])
  }

  /** A name that no call mentions keeps its entry. */
  lemma {:induction false} UntouchedStays(graphs: map<string, GraphEntry>, calls: seq<CatalogCall>, name: string)
    requires NoCallOn(calls, name)
    ensures SameEntry(graphs, AfterCalls(graphs, calls), name)
  {
    if calls == [] {
    } else {
      UntouchedStays(graphs, calls[..|calls| - 1], name);
      assert calls[|calls| - 1].name != name;
    }
  }

  /** Every other name that no call mentions keeps its entry. */
  ghost predicate OthersKept(graphs: map<string, GraphEntry>, after: map<string, GraphEntry>,
                             calls: seq<CatalogCall>, name: string) {
    forall other :: other != name && NoCallOn(calls, other) ==> SameEntry(graphs, after, other)
  }

  lemma OthersStay(graphs: map<string, GraphEntry>, after: map<string, GraphEntry>, calls: seq<CatalogCall>,
                   name: string)
    requires after == graphs || after == AfterCalls(graphs, calls) ||
             (name in after && after == AfterCalls(graphs, calls)[name := after[name]])
    ensures OthersKept(graphs, after, calls, name)
  {
    hide AfterCalls;
    forall other | other != name && NoCallOn(calls, other) ensures SameEntry(graphs, after, other) {
      UntouchedStays(graphs, calls, other);
    }
  }

  /** The swap inserts under its name whatever happened meanwhile: the last registration or removal of a name
      has its effect afterwards if and only if the name is another one. */
  lemma SwapOverwritesIff(graphs: map<string, GraphEntry>, calls: seq<CatalogCall>, i: nat, name: string,
                          swapped: GraphEntry)
    requires i < |calls| && forall j :: i < j < |calls| ==> calls[j].name != calls[i].name
    requires calls[i].Registered? ==> calls[i].entry != swapped
    ensures InEffect(AfterCalls(graphs, calls)[name := swapped], calls[i]) <==> calls[i].name != name
  {
    LastCallIsInEffect(graphs, calls, i);
  }

  /** Replays drained insertions into a fresh delta. */
  method ReplayInsertions(delta: DeltaLayer, entries: seq<(Edge, EdgeData)>, ghost order: seq<Edge>,
                          ghost ins: map<Edge, EdgeData>)
    requires delta.Valid() && delta.View() == EMPTY_OVERLAY
    requires Enumerates(order, ins.Keys) && InOrder(entries, order, ins)
    modifies delta
    ensures delta.Valid() && delta.View() == Overlay(ins, {})
    ensures entries == [] ==> delta.insertionOrder == old(delta.insertionOrder)
  {
    for i := 0 to |entries|
      invariant delta.Valid() && delta.deletions == {}
      invariant i == 0 ==> delta.insertionOrder == old(delta.insertionOrder)
      invariant forall e :: e in delta.insertions <==> e in order[..i]
      invariant forall e :: e in delta.insertions ==> e in ins && delta.insertions[e] == ins[e]
    {
      var ((from, to), data) := ((entries[i].0.src, entries[i].0.dst), entries[i].1);
      assert Edge(from, to) == order[i] && data == ins[order[i]];
      delta.Insert(from, to, data);
    }
    assert order[..|entries|] == order;
    assert delta.insertions.Keys == ins.Keys;
  }

  /** Replays drained tombstones over the replayed insertions. */
  method ReplayDeletions(delta: DeltaLayer, entries: seq<Edge>, ghost del: set<Edge>)
    requires delta.Valid() && delta.deletions == {} && Enumerates(entries, del)
    modifies delta
    ensures delta.Valid() && delta.View() == Overlay(old(delta.insertions) - del, del)
    ensures entries == [] ==> delta.insertionOrder == old(delta.insertionOrder)
  {
    for i := 0 to |entries|
      invariant delta.Valid()
      invariant forall e :: e in delta.insertions <==> e in old(delta.insertions) && e !in entries[..i]
      invariant forall e :: e in delta.insertions ==> delta.insertions[e] == old(delta.insertions)[e]
      invariant i == 0 ==> delta.insertionOrder == old(delta.insertionOrder)
      invariant forall e :: e in delta.deletions <==> e in entries[..i]
    {
      assert entries[i] in entries && entries[i] == Edge(entries[i].src, entries[i].dst);
      delta.Delete(entries[i].src, entries[i].dst);
    }
    assert entries[..|entries|] == entries;
  }

  /** Drains what the old delta holds into the empty delta of its successor; `replaying` are the writes that
      complete between the two drains. */
  method Replay(source: DeltaLayer, target: DeltaLayer, replaying: seq<Write>)
    requires source.Valid() && target.Valid() && source != target && target.View() == EMPTY_OVERLAY
    modifies source, target
    ensures var halfway := Overlay(map[], old(source.deletions)).ApplyAll(replaying);
            && source.Valid() && source.View() == Overlay(halfway.ins, {})
            && target.Valid() && target.View() == Overlay(old(source.insertions) - halfway.del, halfway.del)
  {
    ghost var order, ins := source.insertionOrder, source.insertions;
    var inserted := source.DrainInsertions();
    ReplayInsertions(target, inserted, order, ins);
    source.ApplyWrites(replaying);
    ghost var del := source.deletions;
    var deleted := source.DrainDeletions();
    ReplayDeletions(target, deleted, del);
  }

  ghost function SnapshotOf(graph: CsrGraph): Snapshot
    requires graph.Valid()
    reads graph.delta
  {
    Snapshot(EdgeSet(graph.base), graph.delta.View())
  }

  /** Compaction, the racing writes, and their replay into the compacted graph. */
  method CompactAndReplay(graph: CsrGraph, during: Windows) returns (r: Result<CsrGraph>)
    requires graph.Valid()
    modifies graph.delta
    ensures graph.Valid()
    ensures r.Failure? ==>
              && Possible(old(SnapshotOf(graph)), CompactionFailed(during.between))
              && SnapshotOf(graph) == After(old(SnapshotOf(graph)), CompactionFailed(during.between))
    ensures r.Success? ==>
              && fresh(r.value) && fresh(r.value.delta) && r.value.Valid()
              && graph.delta.View() == LeftBehind(old(SnapshotOf(graph)), during)
              && SnapshotOf(r.value) == After(old(SnapshotOf(graph)), Compacted(during))
              && (during.between == [] ==> ShowsRows(r.value.base, old(graph.Adjacency())))
  {
    hide LiveEdges, Fits, Base.Tiled, Base.NeighborSlice, MergedRows, Rebuilt;
    ghost var o := graph.delta.View();
    var compacted, entries := graph.Compact(during.between);
    ghost var order :| Enumerates(order, Later(o, during.between).ins.Keys) &&
        InOrder(entries, order, Later(o, during.between).ins);
    if compacted.Failure? {
      FailureHasAddition(graph.base, o, during.between, order, entries);
      return Failure(compacted.error);
    }
    var next := compacted.value;
    graph.delta.ApplyWrites(during.racing);
    Replay(graph.delta, next.delta, during.replaying);
    graph.delta.ApplyWrites(during.late);
    RebuiltIs(graph.base, o, during.between, order, entries, next.base);
    return Success(next);
  }

  class GraphCatalog {
    var graphs: map<string, GraphEntry>

    ghost function Entries(): set<GraphEntry>
      reads this
    {
      set n | n in graphs :: graphs[n]
    }

    /** The deltas of every registered graph and of every memoized transpose. */
    ghost function Deltas(): set<DeltaLayer>
      reads this, Entries()
    {
      (set e | e in Entries() :: e.forward.delta) + (set e | e in Entries() && e.reverse.Some? :: e.reverse.value.delta)
    }

    ghost predicate Valid()
      reads this, Entries(), Deltas()
    {
      forall n :: n in graphs ==>
        && graphs[n].forward.Valid()
        && (graphs[n].reverse.Some? ==> graphs[n].reverse.value.Valid())
    }

    constructor ()
      ensures Valid() && graphs == map[]
    {
      graphs := map[];
    }

    /** Replaces whatever was registered under the name, and hands it back. */
    method Register(name: string, graph: CsrGraph) returns (previous: Option<CsrGraph>)
      requires Valid() && graph.Valid()
      modifies this
      ensures Valid()
      ensures previous == if name in old(graphs) then Some(old(graphs)[name].forward) else None
      ensures name in graphs && fresh(graphs[name]) && graphs == old(graphs)[name := graphs[name]]
      ensures graphs[name].forward == graph && graphs[name].reverse == None && graphs[name].dictionary == None
      ensures Get(name) == Some(graph) && Dictionary(name) == None
    {
      hide CsrGraph.Valid;
      previous := Get(name);
      var entry := new GraphEntry(graph, None, None);
      Insert(name, entry);
    }

    method RegisterWithReverse(name: string, forward: CsrGraph, reverse: CsrGraph)
      requires Valid() && forward.Valid() && reverse.Valid()
      modifies this
      ensures Valid()
      ensures name in graphs && fresh(graphs[name]) && graphs == old(graphs)[name := graphs[name]]
      ensures graphs[name].forward == forward && graphs[name].reverse == Some(reverse) &&
              graphs[name].dictionary == None
      ensures Get(name) == Some(forward) && Dictionary(name) == None
    {
      hide CsrGraph.Valid;
      var entry := new GraphEntry(forward, Some(reverse), None);
      Insert(name, entry);
    }

    method RegisterWithDictionary(name: string, forward: CsrGraph, dictionary: NodeDictionary)
      requires Valid() && forward.Valid()
      modifies this
      ensures Valid()
      ensures name in graphs && fresh(graphs[name]) && graphs == old(graphs)[name := graphs[name]]
      ensures graphs[name].forward == forward && graphs[name].reverse == None &&
              graphs[name].dictionary == Some(dictionary)
      ensures Get(name) == Some(forward) && Dictionary(name) == Some(dictionary)
    {
      hide CsrGraph.Valid;
      var entry := new GraphEntry(forward, None, Some(dictionary));
      Insert(name, entry);
    }

    function Get(name: string): Option<CsrGraph>
      reads this
    {
      if name in graphs then Some(graphs[name].forward) else None
    }

    function Dictionary(name: string): Option<NodeDictionary>
      reads this
    {
      if name in graphs then graphs[name].dictionary else None
    }

    method Deregister(name: string) returns (previous: Option<CsrGraph>)
      requires Valid()
      modifies this
      ensures Valid()
      ensures previous == if name in old(graphs) then Some(old(graphs)[name].forward) else None
      ensures graphs == old(graphs) - {name}
      ensures Get(name) == None && Dictionary(name) == None
    {
      hide CsrGraph.Valid;
      previous := Get(name);
      graphs := graphs - {name};
    }

    /** `reverse`: the memoized transpose, built on first use. `rival` is the copy another thread
        installed while this one was building, if any, perhaps built before a later write; the first copy
        installed is the one everybody gets. A copy built here transposes the graph as it is now. */
    method Reverse(name: string, rival: Option<CsrGraph>) returns (r: Result<Option<CsrGraph>>)
      requires Valid()
      requires rival.Some? ==> rival.value.Valid()
      modifies if name in graphs then {graphs[name]} else {}
      ensures Valid() && graphs == old(graphs)
      ensures name !in graphs ==> r == Success(None)
      ensures name in graphs && old(graphs[name].reverse).Some? ==>
                r == Success(old(graphs[name].reverse)) && graphs[name].reverse == old(graphs[name].reverse)
      ensures name in graphs && old(graphs[name].reverse).None? && r.Success? ==>
                && r.value.Some? && graphs[name].reverse == r.value
                && r.value.value.Valid()
                && (if rival.Some? then r.value == rival else Transposes(graphs[name].forward, r.value.value))
      ensures name in graphs && r.Failure? ==> graphs[name].reverse == rival
    {
      hide CsrGraph.Valid, CsrGraph.Adjacency, IndexOf, LiveEdges, Fits, Base.Tiled, Base.Valid, Base.NeighborSlice,
           MergedRows;
      if name !in graphs { return Success(None); }
      var entry := graphs[name];
      if entry.reverse.Some? { return Success(entry.reverse); }
      var built, _ := entry.forward.Transpose();
      if rival.Some? { entry.reverse := rival; }
      if built.Failure? { return Failure(built.error); }
      if entry.reverse.None? { entry.reverse := Some(built.value); }
      return Success(entry.reverse);
    }

    /** `compact_if_needed`: drain, rebuild, replay, swap, with the writes other threads complete in its
        windows and the catalog calls they complete before the swap. On success one fresh entry is swapped in
        under the name, over whatever those calls left there, with the dictionary of the entry looked up first
        and no memoized transpose; with no write in the other windows it shows every racing write. A failing
        rebuild leaves the catalog to those calls and the old graph without the drained writes. */
    method CompactIfNeeded(name: string, shouldCompact: bool, during: Windows, meanwhile: seq<CatalogCall>)
      returns (r: Result<bool>)
      requires Valid() && AllValid(meanwhile)
      modifies this, if name in graphs then {graphs[name].forward.delta} else {}
      ensures Valid() && (name in old(graphs) ==> old(graphs[name].forward).Valid())
      ensures name !in old(graphs) || !shouldCompact ==>
                && r == Success(false) && graphs == old(graphs)
                && (name in graphs ==> unchanged(graphs[name].forward.delta))
      ensures name in old(graphs) && shouldCompact && r.Failure? ==>
                var before, graph := old(SnapshotOf(graphs[name].forward)), old(graphs[name].forward);
                && graphs == AfterCalls(old(graphs), meanwhile)
                && Possible(before, CompactionFailed(during.between))
                && SnapshotOf(graph) == After(before, CompactionFailed(during.between))
      ensures name in old(graphs) && shouldCompact && r.Success? ==>
                var before, graph := old(SnapshotOf(graphs[name].forward)), old(graphs[name].forward);
                && r.value && name in graphs && fresh(graphs[name])
                && graphs == AfterCalls(old(graphs), meanwhile)[name := graphs[name]]
                && graphs[name].reverse == None && graphs[name].dictionary == old(graphs[name].dictionary)
                && SnapshotOf(graphs[name].forward) == After(before, Compacted(during))
                && SnapshotOf(graph) == Snapshot(before.edges, LeftBehind(before, during))
                && (during.between == [] ==>
                      ShowsRows(graphs[name].forward.base, old(graphs[name].forward.Adjacency())))
      ensures name in old(graphs) && shouldCompact && r.Success? && during == Windows([], during.racing, [], []) ==>
                graphs[name].forward.Visible() == Written(old(graphs[name].forward.Visible()), during.racing)
      ensures OthersKept(old(graphs), graphs, meanwhile, name)
    {
      hide CsrGraph.Adjacency, Lost, Later, Rebuilt, Written, Base.Valid, DeltaLayer.Valid, After, LeftBehind,
           ShowsRows, AfterCalls, OthersKept;
      OthersStay(graphs, graphs, meanwhile, name);
      if name !in graphs || !shouldCompact { return Success(false); }
      var entry := graphs[name];
      ghost var before := SnapshotOf(entry.forward);
      SnapshotIsValid(entry.forward);
      QuietCompaction(before, during.racing);
      var compacted := CompactAndReplay(entry.forward, during);
      ApplyCalls(meanwhile);
      OthersStay(old(graphs), graphs, meanwhile, name);
      if compacted.Failure? { return Failure(compacted.error); }
      var swapped := new GraphEntry(compacted.value, None, entry.dictionary);
      Insert(name, swapped);
      OthersStay(old(graphs), graphs, meanwhile, name);
      return Success(true);
    }

    /** The locked map insert. */
    method Insert(name: string, entry: GraphEntry)
      requires Valid() && entry.forward.Valid() && (entry.reverse.Some? ==> entry.reverse.value.Valid())
      modifies this
      ensures Valid() && graphs == old(graphs)[name := entry]
    {
      hide CsrGraph.Valid;
      graphs := graphs[name := entry];
    }

    /** Other threads' registrations and removals, one after another. */
    method ApplyCalls(calls: seq<CatalogCall>)
      requires Valid() && AllValid(calls)
      modifies this
      ensures Valid() && graphs == AfterCalls(old(graphs), calls)
    {
      hide CsrGraph.Valid;
      for i := 0 to |calls|
        invariant Valid() && graphs == AfterCalls(old(graphs), calls[..i])
      {
        assert calls[..i + 1][..i] == calls[..i];
        match calls[i] {
          case Registered(name, entry) =>
            assert calls[i] in calls;
            Insert(name, entry);
          case Deregistered(name) =>
            graphs := graphs - {name};
        }
      }
      assert calls[..|calls|] == calls;
    }
  }

  /** The graphs other threads register are well formed. */
  ghost predicate AllValid(calls: seq<CatalogCall>)
    reads set c | c in calls && c.Registered? :: c.entry
    reads set c | c in calls && c.Registered? :: c.entry.forward.delta
    reads set c | c in calls && c.Registered? && c.entry.reverse.Some? :: c.entry.reverse.value.delta
  {
    forall c :: c in calls && c.Registered? ==>
      c.entry.forward.Valid() && (c.entry.reverse.Some? ==> c.entry.reverse.value.Valid())
  }

  /** The base rows are the given ones. */
  ghost predicate ShowsRows(base: Base, rows: nat -> seq<nat>)
    requires base.Tiled()
  {
    forall n: nat :: base.NeighborSlice(n) == rows(n)
  }

  lemma SnapshotIsValid(graph: CsrGraph)
    requires graph.Valid()
    ensures SnapshotOf(graph).overlay.Valid() && SnapshotOf(graph).Visible() == graph.Visible()
  {
  }
}
