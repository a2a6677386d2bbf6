/** Compaction as a protocol between the compacting thread and concurrent writers: what one compaction
    shows of their writes, and what whole runs of writes and compactions show. */
module Compaction {
  import opened BaseLaws
  import opened Common
  import opened Csr
  import opened Delta
  import opened EdgeLists
  import opened Graph
  import opened Merge
  import opened Words

  // ----- what a run of writes does to one edge

  ghost predicate Touches(ws: seq<Write>, e: Edge) { exists i :: 0 <= i < |ws| && ws[i].e == e }

  /** The last write to e in the run is an insert. */
  predicate EndsInserted(ws: seq<Write>, e: Edge) {
    if ws == [] then false
    else
      var w := ws[|ws| - 1];
      if w.e == e then w.Insert? else EndsInserted(ws[..|ws| - 1], e)
  }

  lemma TouchesSnoc(ws: seq<Write>, e: Edge)
    requires ws != []
    ensures Touches(ws, e) <==> Touches(ws[..|ws| - 1], e) || ws[|ws| - 1].e == e
  {
    var m := |ws| - 1;
    if i :| 0 <= i < |ws| && ws[i].e == e {
      if i < m { assert ws[..m][i].e == e; }
    }
    if i :| 0 <= i < m && ws[..m][i].e == e { assert ws[i].e == e; }
  }

  /** Only the last write to an edge counts. */
  lemma {:induction false} WrittenMember(edges: iset<Edge>, ws: seq<Write>, e: Edge)
    ensures e in Written(edges, ws) <==> EndsInserted(ws, e) || (e in edges && !Touches(ws, e))
  {
    if ws == [] {
    } else {
      WrittenMember(edges, ws[..|ws| - 1], e);
      TouchesSnoc(ws, e);
    }
  }

  lemma {:induction false} InsertedMember(o: Overlay, ws: seq<Write>, e: Edge)
    ensures e in o.ApplyAll(ws).ins <==> EndsInserted(ws, e) || (e in o.ins && !Touches(ws, e))
  {
    if ws == [] {
    } else {
      InsertedMember(o, ws[..|ws| - 1], e);
      TouchesSnoc(ws, e);
    }
  }

  lemma {:induction false} DeletedMember(o: Overlay, ws: seq<Write>, e: Edge)
    ensures e in o.ApplyAll(ws).del <==> (Touches(ws, e) && !EndsInserted(ws, e)) || (e in o.del && !Touches(ws, e))
  {
    if ws == [] {
    } else {
      DeletedMember(o, ws[..|ws| - 1], e);
      TouchesSnoc(ws, e);
    }
    EndsInsertedTouches(ws, e);
  }

  lemma {:induction false} EndsInsertedTouches(ws: seq<Write>, e: Edge)
    ensures EndsInserted(ws, e) ==> Touches(ws, e)
  {
    if ws == [] {
    } else {
      EndsInsertedTouches(ws[..|ws| - 1], e);
      TouchesSnoc(ws, e);
    }
  }

  // ----- what compaction builds

  lemma {:induction false} AdditionsMember(adj: nat -> seq<nat>, entries: seq<(Edge, EdgeData)>, e: Edge)
    ensures e in Additions(adj, entries) <==> e in Keys(entries) && e.dst !in adj(e.src)
  {
    if entries == [] {
    } else {
      var m := |entries| - 1;
      AdditionsMember(adj, entries[..m], e);
      assert Keys(entries) == Keys(entries[..m]) + [entries[m].0];
    }
  }

  /** An edge is live if the base stores it and no tombstone hides it, or if it was inserted and is new. */
  lemma LiveMember(base: Base, del: set<Edge>, entries: seq<(Edge, EdgeData)>, e: Edge)
    requires base.Valid()
    ensures e in LiveEdges(base.Rows(), base.nodeCount, del, entries) <==>
            (e in base.Edges() && e !in del) || (e in Keys(entries) && e !in base.Edges())
  {
    hide Base.Tiled, Base.NeighborSlice, Additions;
    var n, t := e.src, e.dst;
    var kept := KeptEdges(base.Rows(), del, base.nodeCount);
    base.RowMember(n, t);
    KeptTargets(base.Rows(), del, base.nodeCount, n);
    TargetsMember(kept, n, t);
    KeepMember(n, base.Rows()(n), del, t);
    AdditionsMember(base.Rows(), entries, e);
    assert e == Edge(n, t);
  }

  /** The delta the drains leave to others: what `between` did to the insertions alone. */
  ghost function Later(o: Overlay, between: seq<Write>): Overlay {
    Overlay(o.ins, {}).ApplyAll(between)
  }

  /** The writes compaction loses: edges the base stores, tombstoned at the first drain, whose last write
      between the drains is an insert. The rebuild drops the base copy and skips the insertion. */
  ghost function Lost(edges: iset<Edge>, o: Overlay, between: seq<Write>): iset<Edge> {
    iset e: Edge | e in edges && e in o.del && EndsInserted(between, e)
  }

  /** The edges of the rebuilt base. */
  ghost function Rebuilt(edges: iset<Edge>, o: Overlay, between: seq<Write>): iset<Edge> {
    iset e: Edge | (e in edges && e !in o.del) || (e in Later(o, between).ins && e !in edges)
  }

  lemma RebuiltIs(base: Base, o: Overlay, between: seq<Write>, order: seq<Edge>, entries: seq<(Edge, EdgeData)>,
                  after: Base)
    requires base.Valid() && after.Valid()
    requires Enumerates(order, Later(o, between).ins.Keys) && InOrder(entries, order, Later(o, between).ins)
    requires
      forall n: nat ::
        after.NeighborSlice(n) == Targets(LiveEdges(base.Rows(), base.nodeCount, o.del, entries), n)
    ensures EdgeSet(after) == Rebuilt(EdgeSet(base), o, between)
  {
    hide Base.Tiled, Base.NeighborSlice, LiveEdges;
    var live := LiveEdges(base.Rows(), base.nodeCount, o.del, entries);
    assert Keys(entries) == order;
    forall e: Edge ensures e in EdgeSet(after) <==> e in Rebuilt(EdgeSet(base), o, between) {
      after.RowMember(e.src, e.dst);
      TargetsMember(live, e.src, e.dst);
      assert e == Edge(e.src, e.dst);
      LiveMember(base, o.del, entries, e);
      assert e in order <==> e in Later(o, between).ins.Keys;
    }
  }

  /** Right after the drains the new base under the leftover tombstones shows every write so far,
      except exactly the lost ones. */
  lemma RebuiltShows(edges: iset<Edge>, o: Overlay, between: seq<Write>)
    requires o.Valid()
    ensures Overlay(map[], Later(o, between).del).Visible(Rebuilt(edges, o, between)) ==
            Written(o.Visible(edges), between) - Lost(edges, o, between)
  {
    var later := Later(o, between);
    forall e: Edge
      ensures e in Overlay(map[], later.del).Visible(Rebuilt(edges, o, between)) <==>
              e in Written(o.Visible(edges), between) - Lost(edges, o, between)
    {
      WrittenMember(o.Visible(edges), between, e);
      InsertedMember(Overlay(o.ins, {}), between, e);
      DeletedMember(Overlay(o.ins, {}), between, e);
      EndsInsertedTouches(between, e);
    }
  }

  // ----- runs of a registered graph

  /** A graph as readers see it: the base edges and the delta over them. */
  datatype Snapshot = Snapshot(edges: iset<Edge>, overlay: Overlay) {
    ghost function Visible(): iset<Edge> { overlay.Visible(edges) }
  }

  /** The writes other threads complete during one successful compaction: between compaction's two drains,
      after them and before the replay, between the replay's own two drains, and before the swap. */
  datatype Windows = Windows(between: seq<Write>, racing: seq<Write>, replaying: seq<Write>, late: seq<Write>) {
    function Writes(): seq<Write> { between + racing + replaying + late }
  }

  /** What happens to a registered graph: an atomic write, a compaction, or a compaction whose rebuild fails. */
  datatype Event =
    | Wrote(w: Write)
    | Compacted(during: Windows)
    | CompactionFailed(between: seq<Write>)

  /** The old delta when the replay starts. */
  ghost function Unreplayed(s: Snapshot, w: Windows): Overlay {
    Overlay(map[], Later(s.overlay, w.between).del).ApplyAll(w.racing)
  }

  /** The old delta after the replay has drained its insertions. */
  ghost function Halfway(s: Snapshot, w: Windows): Overlay {
    Overlay(map[], Unreplayed(s, w).del).ApplyAll(w.replaying)
  }

  /** What the old graph's delta still holds at the swap. */
  ghost function LeftBehind(s: Snapshot, w: Windows): Overlay {
    Overlay(Halfway(s, w).ins, {}).ApplyAll(w.late)
  }

  ghost function After(s: Snapshot, ev: Event): Snapshot {
    match ev
    case Wrote(w) => Snapshot(s.edges, s.overlay.Apply(w))
    case Compacted(w) =>
      var tombstones := Halfway(s, w).del;
      Snapshot(Rebuilt(s.edges, s.overlay, w.between), Overlay(Unreplayed(s, w).ins - tombstones, tombstones))
    case CompactionFailed(between) =>
      Snapshot(s.edges, Overlay(map[], Later(s.overlay, between).del))
  }

  /** A rebuild fails only if some drained insertion is not in the base. */
  ghost predicate Possible(s: Snapshot, ev: Event) {
    ev.CompactionFailed? ==> exists e :: e in Later(s.overlay, ev.between).ins && e !in s.edges
  }

  function WritesOf(ev: Event): seq<Write> {
    match ev
    case Wrote(w) => [w]
    case Compacted(w) => w.Writes()
    case CompactionFailed(between) => between
  }

  /** The new graph holds a copy of e that shows once no tombstone hides it. */
  ghost predicate Stored(s: Snapshot, w: Windows, e: Edge) {
    e in Rebuilt(s.edges, s.overlay, w.between) || EndsInserted(w.racing, e)
  }

  /** Whether the new graph shows e, by the last window that writes it: an insert between the replay's drains
      only lifts the tombstone, a delete there is replayed, every write before the replay is, and an edge
      not written since the drains is there unless it is lost. Writes before the swap do not matter. */
  ghost predicate Carried(s: Snapshot, w: Windows, e: Edge) {
    if EndsInserted(w.replaying, e) then Stored(s, w, e)
    else if Touches(w.replaying, e) then false
    else if Touches(w.racing, e) then EndsInserted(w.racing, e)
    else e in Written(s.Visible(), w.between) && e !in Lost(s.edges, s.overlay, w.between)
  }

  /** The compaction keeps what was last written to e: a write before the swap has to be one the new graph
      shows anyway, an insert between the replay's drains needs a stored copy, and a lost edge has to be
      written again before the replay's second drain. */
  ghost predicate KeepsWritesTo(s: Snapshot, w: Windows, e: Edge) {
    if Touches(w.late, e) then Carried(s, w, e) == EndsInserted(w.late, e)
    else if EndsInserted(w.replaying, e) then Stored(s, w, e)
    else e in Lost(s.edges, s.overlay, w.between) ==> Touches(w.racing, e) || Touches(w.replaying, e)
  }

  /** A write loses nothing, a failed compaction always does. */
  ghost predicate LosesNothing(s: Snapshot, ev: Event) {
    match ev
    case Wrote(_) => true
    case Compacted(w) => forall e :: KeepsWritesTo(s, w, e)
    case CompactionFailed(_) => false
  }

  /** After a compaction the graph shows exactly the carried edges. */
  lemma CompactionShows(s: Snapshot, w: Windows, e: Edge)
    requires s.overlay.Valid()
    ensures After(s, Compacted(w)).overlay.Valid()
    ensures e in After(s, Compacted(w)).Visible() <==> Carried(s, w, e)
  {
    var left := Overlay(map[], Later(s.overlay, w.between).del);
    RebuiltShows(s.edges, s.overlay, w.between);
    assert e in left.Visible(Rebuilt(s.edges, s.overlay, w.between)) <==>
           e in Rebuilt(s.edges, s.overlay, w.between) && e !in left.del;
    hide Rebuilt, Lost, Later, Written;
    InsertedMember(left, w.racing, e);
    DeletedMember(left, w.racing, e);
    DeletedMember(Overlay(map[], Unreplayed(s, w).del), w.replaying, e);
    EndsInsertedTouches(w.racing, e);
    EndsInsertedTouches(w.replaying, e);
  }

  /** What all the writes, one after another, would show. */
  lemma AllWindowsWritten(s: Snapshot, w: Windows, e: Edge)
    ensures e in Written(s.Visible(), w.Writes()) <==>
            EndsInserted(w.late, e) ||
            (!Touches(w.late, e) &&
             (EndsInserted(w.replaying, e) ||
              (!Touches(w.replaying, e) &&
               (EndsInserted(w.racing, e) || (!Touches(w.racing, e) && e in Written(s.Visible(), w.between))))))
  {
    WrittenAppend(s.Visible(), w.between + w.racing + w.replaying, w.late);
    WrittenAppend(s.Visible(), w.between + w.racing, w.replaying);
    WrittenAppend(s.Visible(), w.between, w.racing);
    var v1 := Written(s.Visible(), w.between);
    WrittenMember(v1, w.racing, e);
    WrittenMember(Written(v1, w.racing), w.replaying, e);
    WrittenMember(Written(Written(v1, w.racing), w.replaying), w.late, e);
  }

  /** The compaction shows what was last written to an edge exactly when it keeps the writes to it. */
  lemma WritesKeptIff(s: Snapshot, w: Windows, e: Edge)
    requires s.overlay.Valid()
    ensures (e in After(s, Compacted(w)).Visible() <==> e in Written(s.Visible(), w.Writes())) <==>
            KeepsWritesTo(s, w, e)
  {
    CompactionShows(s, w, e);
    AllWindowsWritten(s, w, e);
    EndsInsertedTouches(w.racing, e);
    EndsInsertedTouches(w.replaying, e);
    EndsInsertedTouches(w.late, e);
    LostIsWritten(s, w.between, e);
    hide After, Lost, Written, Rebuilt;
  }

  lemma LostIsWritten(s: Snapshot, between: seq<Write>, e: Edge)
    ensures e in Lost(s.edges, s.overlay, between) ==> e in Written(s.Visible(), between)
  {
    WrittenMember(s.Visible(), between, e);
  }

  /** One event shows exactly its writes in order if and only if it loses nothing. */
  lemma EventShowsItsWritesIff(s: Snapshot, ev: Event)
    requires s.overlay.Valid() && Possible(s, ev)
    ensures After(s, ev).overlay.Valid()
    ensures After(s, ev).Visible() == Written(s.Visible(), WritesOf(ev)) <==> LosesNothing(s, ev)
  {
    match ev
    case Wrote(w) =>
      assert [w][..0] == [];
      assert s.overlay.ApplyAll([]) == s.overlay && s.overlay.ApplyAll([w]) == s.overlay.Apply(w);
      OverlayTracksWrites(s.overlay, s.edges, [w]);
    case Compacted(w) =>
      hide KeepsWritesTo, Written;
      forall e: Edge
        ensures (e in After(s, ev).Visible() <==> e in Written(s.Visible(), WritesOf(ev))) <==> KeepsWritesTo(s, w, e)
      {
        WritesKeptIff(s, w, e);
      }
    case CompactionFailed(between) =>
      var e :| e in Later(s.overlay, between).ins && e !in s.edges;
      InsertedMember(Overlay(s.overlay.ins, {}), between, e);
      WrittenMember(s.Visible(), between, e);
      assert e !in After(s, ev).Visible();
  }

  /** Writers that finish after the second drain and before the replay starts lose nothing when no write
      falls into the other windows. */
  lemma QuietCompaction(s: Snapshot, racing: seq<Write>)
    requires s.overlay.Valid()
    ensures After(s, Compacted(Windows([], racing, [], []))).Visible() == Written(s.Visible(), racing)
    ensures LeftBehind(s, Windows([], racing, [], [])) == EMPTY_OVERLAY
  {
    var w := Windows([], racing, [], []);
    assert forall e: Edge :: KeepsWritesTo(s, w, e);
    EventShowsItsWritesIff(s, Compacted(w));
    assert w.Writes() == racing;
  }

  /** An insert of a new edge between the replay's drains, or before the swap, stays in the old delta. */
  lemma InsertDuringReplayIsLost(e: Edge, data: EdgeData)
    ensures var s, ws := Snapshot(iset{}, EMPTY_OVERLAY), [Insert(e, data)];
            && e in Written(s.Visible(), ws)
            && e !in After(s, Compacted(Windows([], [], ws, []))).Visible()
            && e !in After(s, Compacted(Windows([], [], [], ws))).Visible()
  {
    var s, ws := Snapshot(iset{}, EMPTY_OVERLAY), [Insert(e, data)];
    WrittenMember(s.Visible(), ws, e);
    CompactionShows(s, Windows([], [], ws, []), e);
    CompactionShows(s, Windows([], [], [], ws), e);
  }

  /** The old delta keeps exactly what came too late for the replay's drains: inserts that none of them returned,
      and tombstones from before the swap. */
  lemma LeftBehindIs(s: Snapshot, w: Windows, e: Edge)
    ensures e in LeftBehind(s, w).ins <==>
            EndsInserted(w.late, e) || (EndsInserted(w.replaying, e) && !Touches(w.late, e))
    ensures e in LeftBehind(s, w).del <==> Touches(w.late, e) && !EndsInserted(w.late, e)
  {
    var half := Halfway(s, w);
    InsertedMember(Overlay(map[], Unreplayed(s, w).del), w.replaying, e);
    InsertedMember(Overlay(half.ins, {}), w.late, e);
    DeletedMember(Overlay(half.ins, {}), w.late, e);
  }

  ghost function AfterAll(s: Snapshot, evs: seq<Event>): Snapshot {
    if evs == [] then s else After(AfterAll(s, evs[..|evs| - 1]), evs[|evs| - 1])
  }

  function AllWrites(evs: seq<Event>): seq<Write> {
    if evs == [] then [] else AllWrites(evs[..|evs| - 1]) + WritesOf(evs[|evs| - 1])
  }

  ghost predicate RunLosesNothing(s: Snapshot, evs: seq<Event>) {
    evs == [] ||
    (RunLosesNothing(s, evs[..|evs| - 1]) && LosesNothing(AfterAll(s, evs[..|evs| - 1]), evs[|evs| - 1]))
  }

  // ----- run by run, edge by edge

  lemma {:induction false} TouchesAppend(ws: seq<Write>, xs: seq<Write>, e: Edge)
    ensures Touches(ws + xs, e) <==> Touches(ws, e) || Touches(xs, e)
  {
    if i :| 0 <= i < |ws| && ws[i].e == e { assert (ws + xs)[i].e == e; }
    if i :| 0 <= i < |xs| && xs[i].e == e { assert (ws + xs)[|ws| + i].e == e; }
    if i :| 0 <= i < |ws + xs| && (ws + xs)[i].e == e {
      if i >= |ws| { assert xs[i - |ws|].e == e; }
    }
  }

  /** Whether one event leaves e as it was last written, given what should have shown before it: a write to e
      does; a compaction that saw writes to e has to keep them; a failed one has to find a drained insertion
      in the base, and without writes to e it shows the base's answer. */
  ghost predicate Keeps(s: Snapshot, ev: Event, right: bool, shown: bool, e: Edge) {
    match ev
    case Wrote(w) => w.e == e || right
    case Compacted(w) => if Touches(w.Writes(), e) then KeepsWritesTo(s, w, e) else right
    case CompactionFailed(between) =>
      if Touches(between, e) then EndsInserted(between, e) ==> e in s.edges else (e in s.edges) == shown
  }

  lemma EventKeepsIff(s: Snapshot, ev: Event, reference: iset<Edge>, e: Edge)
    requires s.overlay.Valid()
    ensures After(s, ev).overlay.Valid()
    ensures (e in After(s, ev).Visible() <==> e in Written(reference, WritesOf(ev))) <==>
            Keeps(s, ev, e in s.Visible() <==> e in reference, e in reference, e)
  {
    WrittenMember(reference, WritesOf(ev), e);
    EndsInsertedTouches(WritesOf(ev), e);
    match ev
    case Wrote(w) =>
      assert [w][..0] == [];
    case Compacted(w) =>
      WritesKeptIff(s, w, e);
      WrittenMember(s.Visible(), w.Writes(), e);
      CompactionShows(s, w, e);
      if !Touches(w.Writes(), e) { UntouchedWindows(s, w, e); }
    case CompactionFailed(between) =>
      DeletedMember(Overlay(s.overlay.ins, {}), between, e);
  }

  lemma UntouchedWindows(s: Snapshot, w: Windows, e: Edge)
    requires !Touches(w.Writes(), e)
    ensures KeepsWritesTo(s, w, e)
  {
    TouchesAppend(w.between + w.racing + w.replaying, w.late, e);
    TouchesAppend(w.between + w.racing, w.replaying, e);
    TouchesAppend(w.between, w.racing, e);
    EndsInsertedTouches(w.between, e);
    EndsInsertedTouches(w.replaying, e);
  }

  /** What the writes say about e. */
  ghost predicate LastShown(s: Snapshot, ws: seq<Write>, e: Edge) {
    EndsInserted(ws, e) || (e in s.Visible() && !Touches(ws, e))
  }

  /** The last event of the run that matters to e keeps it. */
  ghost predicate KeptInRun(s: Snapshot, evs: seq<Event>, e: Edge) {
    if evs == [] then true
    else
      var front := evs[..|evs| - 1];
      Keeps(AfterAll(s, front), evs[|evs| - 1], KeptInRun(s, front, e), LastShown(s, AllWrites(front), e), e)
  }

  /** After any run of writes, compactions and failed compactions an edge shows as it was last written if and
      only if the last event that wrote it, or failed since, keeps it: a lost write may be made good later. */
  lemma {:induction false} RunShowsEdgeIff(s: Snapshot, evs: seq<Event>, e: Edge)
    requires s.overlay.Valid()
    ensures AfterAll(s, evs).overlay.Valid()
    ensures (e in AfterAll(s, evs).Visible() <==> e in Written(s.Visible(), AllWrites(evs))) <==> KeptInRun(s, evs, e)
  {
    if evs == [] {
      assert Written(s.Visible(), []) == s.Visible();
    } else {
      hide Keeps, After, LosesNothing;
      var m := |evs| - 1;
      RunShowsEdgeIff(s, evs[..m], e);
      WrittenAppend(s.Visible(), AllWrites(evs[..m]), WritesOf(evs[m]));
      WrittenMember(s.Visible(), AllWrites(evs[..m]), e);
      EventKeepsIff(AfterAll(s, evs[..m]), evs[m], Written(s.Visible(), AllWrites(evs[..m])), e);
    }
  }

  /** A run in which no event loses anything shows every write. */
  lemma {:induction false} RunShowsEveryWrite(s: Snapshot, evs: seq<Event>)
    requires s.overlay.Valid() && RunLosesNothing(s, evs)
    ensures AfterAll(s, evs).overlay.Valid()
    ensures AfterAll(s, evs).Visible() == Written(s.Visible(), AllWrites(evs))
  {
    if evs == [] {
    } else {
      var m := |evs| - 1;
      RunShowsEveryWrite(s, evs[..m]);
      EventShowsItsWritesIff(AfterAll(s, evs[..m]), evs[m]);
      WrittenAppend(s.Visible(), AllWrites(evs[..m]), WritesOf(evs[m]));
    }
  }

  /** The run keeps every edge. */
  ghost predicate EachKeptInRun(s: Snapshot, evs: seq<Event>) { forall e: Edge :: KeptInRun(s, evs, e) }

  lemma SameEdges(a: iset<Edge>, b: iset<Edge>)
    requires forall e: Edge :: e in a <==> e in b
    ensures a == b
  {
  }

  lemma KeptShows(s: Snapshot, evs: seq<Event>, e: Edge)
    requires s.overlay.Valid() && EachKeptInRun(s, evs)
    ensures e in AfterAll(s, evs).Visible() <==> e in Written(s.Visible(), AllWrites(evs))
  {
    assert KeptInRun(s, evs, e);
    hide KeptInRun;
    RunShowsEdgeIff(s, evs, e);
  }

  lemma ShownIsKept(s: Snapshot, evs: seq<Event>)
    requires s.overlay.Valid() && AfterAll(s, evs).Visible() == Written(s.Visible(), AllWrites(evs))
    ensures EachKeptInRun(s, evs)
  {
    forall e: Edge ensures KeptInRun(s, evs, e) { RunShowsEdgeIff(s, evs, e); }
  }

  /** Over every run readers see all writes applied in order to the edges they started from, however often the
      graph was compacted, if and only if each edge is kept; so they do when no event loses anything. */
  lemma RunShowsEveryWriteIff(s: Snapshot, evs: seq<Event>)
    requires s.overlay.Valid()
    ensures AfterAll(s, evs).Visible() == Written(s.Visible(), AllWrites(evs)) <==> EachKeptInRun(s, evs)
    ensures RunLosesNothing(s, evs) ==> EachKeptInRun(s, evs)
  {
    hide EachKeptInRun, RunLosesNothing, Snapshot.Visible;
    var shown, written := AfterAll(s, evs).Visible(), Written(s.Visible(), AllWrites(evs));
    if EachKeptInRun(s, evs) {
      forall e: Edge ensures e in shown <==> e in written { KeptShows(s, evs, e); }
      SameEdges(shown, written);
    }
    if shown == written { ShownIsKept(s, evs); }
    if RunLosesNothing(s, evs) {
      RunShowsEveryWrite(s, evs);
    }
  }

  // ----- two compactors on one graph

  lemma DrainedIs(s: Snapshot, between: seq<Write>)
    ensures After(s, CompactionFailed(between)) == Snapshot(s.edges, Overlay(map[], Later(s.overlay, between).del))
  {
  }

  /** A second compactor that drains after the first, with writers in the first one's windows and its own, and
      swaps last: the graph it registers shows an edge as last written exactly when its own windows keep it,
      or, without writes there, when it was written between the two drains, or when the base agrees with what
      the first compactor drained. */
  lemma SecondCompactorKeepsIff(s: Snapshot, between: seq<Write>, racing: seq<Write>, w: Windows, e: Edge)
    requires s.overlay.Valid()
    ensures var left := Snapshot(s.edges, Overlay(map[], Later(s.overlay, between).del).ApplyAll(racing));
            (e in After(left, Compacted(w)).Visible() <==>
             e in Written(s.Visible(), between + racing + w.Writes())) <==>
            if Touches(w.Writes(), e) then KeepsWritesTo(left, w, e)
            else if Touches(racing, e) then true
            else if Touches(between, e) then EndsInserted(between, e) ==> e in s.edges
            else e in s.edges <==> e in s.Visible()
  {
    hide After, KeepsWritesTo, Written, Later, EndsInserted, Touches, Overlay.ApplyAll, Overlay.Visible;
    var drained := After(s, CompactionFailed(between));
    DrainedIs(s, between);
    var left := Snapshot(s.edges, drained.overlay.ApplyAll(racing));
    var shown := Written(s.Visible(), between);
    EventKeepsIff(s, CompactionFailed(between), s.Visible(), e);
    OverlayTracksWrites(drained.overlay, s.edges, racing);
    WrittenMember(drained.Visible(), racing, e);
    WrittenMember(shown, racing, e);
    WrittenAppend(s.Visible(), between, racing);
    WrittenAppend(s.Visible(), between + racing, w.Writes());
    EndsInsertedTouches(racing, e);
    EndsInsertedTouches(between, e);
    assert between + racing + w.Writes() == (between + racing) + w.Writes();
    EventKeepsIff(left, Compacted(w), Written(s.Visible(), between + racing), e);
  }

  /** A second compactor that drains after the first and swaps last registers the base without what the
      first drained; that loses nothing exactly when the delta was changing nothing. */
  lemma SecondCompactorLosesNothingIff(s: Snapshot)
    requires s.overlay.Valid()
    ensures After(Snapshot(s.edges, EMPTY_OVERLAY), Compacted(Windows([], [], [], []))).Visible() == s.Visible() <==>
            (forall e :: e in s.overlay.ins ==> e in s.edges) && (forall e :: e in s.overlay.del ==> e !in s.edges)
  {
    QuietCompaction(Snapshot(s.edges, EMPTY_OVERLAY), []);
    assert Snapshot(s.edges, EMPTY_OVERLAY).Visible() == s.edges;
    assert (forall e: Edge :: e in s.edges <==> e in s.Visible()) <==> s.edges == s.Visible();
  }

  /** The drained tombstone of a stored edge comes to nothing: the edge shows again. */
  lemma SecondCompactorForgets(e: Edge)
    ensures var s := Snapshot(iset{e}, Overlay(map[], {e}));
            e !in s.Visible() &&
            e in After(Snapshot(s.edges, EMPTY_OVERLAY), Compacted(Windows([], [], [], []))).Visible()
  {
    QuietCompaction(Snapshot(iset{e}, EMPTY_OVERLAY), []);
  }

  /** Deleting a stored edge and inserting it again while compaction is between its drains loses it. */
  lemma InsertBetweenDrainsIsLost(data: EdgeData)
    ensures var e := Edge(0, 1);
            var s := Snapshot(iset{e}, Overlay(map[], {e}));
            && e in Written(s.Visible(), [Insert(e, data)])
            && e !in After(s, Compacted(Windows([Insert(e, data)], [], [], []))).Visible()
  {
    var e := Edge(0, 1);
    var s := Snapshot(iset{e}, Overlay(map[], {e}));
    CompactionShows(s, Windows([Insert(e, data)], [], [], []), e);
    WrittenMember(s.Visible(), [Insert(e, data)], e);
  }

  // ----- multiplicities across a compaction

  /** Without a compaction the iterator and with one the compacted iterator show an edge equally often
      after the same racing writes, except an edge stored several times, tombstoned before the
      compaction and inserted again after it: compaction forgets the extra copies. */
  lemma CompactionKeepsMultiplicityIff(n: nat, row: seq<nat>, o: Overlay, order: seq<Edge>, racing: seq<Write>,
                                       order1: seq<Edge>, order2: seq<Edge>, t: nat)
    requires o.Valid() && Enumerates(order, o.ins.Keys)
    requires Enumerates(order1, o.ApplyAll(racing).ins.Keys) &&
             Enumerates(order2, EMPTY_OVERLAY.ApplyAll(racing).ins.Keys)
    ensures multiset(MergedRow(n, MergedRow(n, row, o.del, order), EMPTY_OVERLAY.ApplyAll(racing).del, order2))[t] ==
            multiset(MergedRow(n, row, o.ApplyAll(racing).del, order1))[t]
            <==>
            !(Edge(n, t) in o.del && EndsInserted(racing, Edge(n, t)) && multiset(row)[t] > 1)
  {
    hide MergedRow, Enumerates;
    var e := Edge(n, t);
    var compacted := MergedRow(n, row, o.del, order);
    OverlayTracksWrites(o, iset{}, racing);
    OverlayTracksWrites(EMPTY_OVERLAY, iset{}, racing);
    MergedCount(n, row, o, order, t);
    MergedCount(n, row, o.ApplyAll(racing), order1, t);
    MergedCount(n, compacted, EMPTY_OVERLAY.ApplyAll(racing), order2, t);
    InsertedMember(o, racing, e);
    InsertedMember(EMPTY_OVERLAY, racing, e);
    DeletedMember(o, racing, e);
    DeletedMember(EMPTY_OVERLAY, racing, e);
    EndsInsertedTouches(racing, e);
    assert t in row <==> t in multiset(row);
    assert t in compacted <==> t in multiset(compacted);
  }

  /** A pair of parallel edges, deleted before a compaction and inserted once after it, shows twice without
      the compaction and once with it. */
  lemma ParallelEdgeIsForgotten(data: EdgeData)
    ensures var e, racing := Edge(0, 1), [Insert(Edge(0, 1), data)];
            var o := Overlay(map[], {e});
            && o.ApplyAll(racing) == Overlay(map[e := data], {}) == EMPTY_OVERLAY.ApplyAll(racing)
            && multiset(MergedRow(0, [1, 1], {}, [e]))[1] == 2
            && multiset(MergedRow(0, MergedRow(0, [1, 1], {e}, []), {}, [e]))[1] == 1
  {
    hide MergedRow, Overlay.Visible;
    var e, racing := Edge(0, 1), [Insert(Edge(0, 1), data)];
    var o := Overlay(map[], {e});
    assert racing[..0] == [];
    assert o.ApplyAll([]) == o && EMPTY_OVERLAY.ApplyAll([]) == EMPTY_OVERLAY;
    MergedCount(0, [1, 1], o, [], 1);
    MergedCount(0, [1, 1], Overlay(map[e := data], {}), [e], 1);
    MergedCount(0, MergedRow(0, [1, 1], {e}, []), Overlay(map[e := data], {}), [e], 1);
    assert multiset([1, 1])[1] == 2;
    assert 1 in MergedRow(0, [1, 1], {e}, []) <==> 1 in multiset(MergedRow(0, [1, 1], {e}, []));
  }

  // ----- failing compactions

  lemma {:induction false} KeepShortens(src: nat, row: seq<nat>, del: set<Edge>)
    ensures |Keep<nat>(src, row, row, del)| <= |row|
  {
    if row == [] {
    } else {
      KeepShortens(src, row[..|row| - 1], del);
    }
  }

  lemma {:induction false} KeptShortens(adj: nat -> seq<nat>, del: set<Edge>, n: nat)
    ensures |KeptEdges(adj, del, n)| <= |KeptEdges(adj, {}, n)|
    decreases n
  {
    hide Keep;
    if n == 0 {
    } else {
      var row: seq<nat> := adj(n - 1);
      KeptShortens(adj, del, n - 1);
      KeepShortens(n - 1, row, del);
      KeepNothingDeleted<nat>(n - 1, row, row);
      assert |KeptEdges(adj, del, n)| == |KeptEdges(adj, del, n - 1)| + |Keep<nat>(n - 1, row, row, del)|;
    }
  }

  /** A base layer without some of its edges always fits back into one. */
  lemma KeptFits(base: Base, del: set<Edge>)
    requires base.Valid()
    ensures Fits(KeptEdges(base.Rows(), del, base.nodeCount))
  {
    hide Base.Tiled, Base.NeighborSlice;
    var kept := KeptEdges(base.Rows(), del, base.nodeCount);
    KeptShortens(base.Rows(), del, base.nodeCount);
    forall i | 0 <= i < |kept| ensures kept[i].src <= U32_MAX && kept[i].dst <= U32_MAX {
      var n, t := kept[i].src, kept[i].dst;
      assert Edge(n, t) in kept;
      TargetsMember(kept, n, t);
      KeptTargets(base.Rows(), del, base.nodeCount, n);
      KeepMember(n, base.Rows()(n), del, t);
      base.RowMember(n, t);
    }
  }

  /** A rebuild that does not fit was given an insertion the base does not store. */
  lemma FailureHasAddition(base: Base, o: Overlay, between: seq<Write>, order: seq<Edge>,
                           entries: seq<(Edge, EdgeData)>)
    requires base.Valid()
    requires Enumerates(order, Later(o, between).ins.Keys) && InOrder(entries, order, Later(o, between).ins)
    requires !Fits(LiveEdges(base.Rows(), base.nodeCount, o.del, entries))
    ensures exists e :: e in Later(o, between).ins && e !in EdgeSet(base)
  {
    hide Base.Tiled, Base.NeighborSlice, Fits;
    var kept, more := KeptEdges(base.Rows(), o.del, base.nodeCount), Additions(base.Rows(), entries);
    KeptFits(base, o.del);
    assert more == [] ==> kept + more == kept;
    var e := more[0];
    assert e in more;
    AdditionsMember(base.Rows(), entries, e);
    base.RowMember(e.src, e.dst);
    assert e == Edge(e.src, e.dst) && Keys(entries) == order;
    assert e in Later(o, between).ins;
  }

  /** An inserted id beyond u32 is accepted by the delta and fails the next compaction. */
  lemma OversizedInsertFails(data: EdgeData)
    ensures !Fits(LiveEdges(EMPTY_BASE.Rows(), EMPTY_BASE.nodeCount, {}, [(Edge(U32_MAX + 1, 0), data)]))
  {
    EmptyBaseValid();
    var e := Edge(U32_MAX + 1, 0);
    LiveMember(EMPTY_BASE, {}, [(e, data)], e);
    assert Keys([(e, data)])[0] == e;
    var live := LiveEdges(EMPTY_BASE.Rows(), EMPTY_BASE.nodeCount, {}, [(e, data)]);
    var i :| 0 <= i < |live| && live[i] == e;
  }
}
