/** The delta layer: a last-writer-wins overlay of inserted edges and tombstones. */
module Delta {
  import opened Common
  import opened EdgeLists

  datatype EdgeData = EdgeData(weight: Option<Weight>, edgeLabel: Option<string>)

  datatype Write = Insert(e: Edge, data: EdgeData) | Delete(e: Edge)

  /** The value of a delta layer. Its two parts never share an edge. */
  datatype Overlay = Overlay(ins: map<Edge, EdgeData>, del: set<Edge>) {

    ghost predicate Valid() { ins.Keys !! del }

    predicate IsEmpty() { ins == map[] && del == {} }

    /** One atomic write: both map operations of `insert` or `delete`. */
    function Apply(w: Write): Overlay {
      match w
      case Insert(e, data) => Overlay(ins[e := data], del - {e})
      case Delete(e) => Overlay(ins - {e}, del + {e})
    }

    function ApplyAll(ws: seq<Write>): Overlay {
      if ws == [] then this else ApplyAll(ws[..|ws| - 1]).Apply(ws[|ws| - 1])
    }

    /** The edges a reader sees over the given base edges. */
    ghost function Visible(base: iset<Edge>): iset<Edge> {
      iset e: Edge | (e in base && e !in del) || e in ins
    }
  }

  const EMPTY_OVERLAY := Overlay(map[], {})

  /** The edge set after writes applied one after another: the meaning an overlay has to keep. */
  ghost function Written(edges: iset<Edge>, ws: seq<Write>): iset<Edge> {
    if ws == [] then edges
    else
      var before := Written(edges, ws[..|ws| - 1]);
      match ws[|ws| - 1]
      case Insert(e, _) => before + iset{e}
      case Delete(e) => before - iset{e}
  }

  /** After any writes the two parts are still disjoint, and readers see the writes applied in order. */
  lemma {:induction false} OverlayTracksWrites(o: Overlay, base: iset<Edge>, ws: seq<Write>)
    requires o.Valid()
    ensures o.ApplyAll(ws).Valid()
    ensures o.ApplyAll(ws).Visible(base) == Written(o.Visible(base), ws)
  {
    if ws == [] {
    } else {
      OverlayTracksWrites(o, base, ws[..|ws| - 1]);
    }
  }

  /** The last write to an edge decides its entry: an insert leaves the edge with that insert's data, replacing
      older data, a delete leaves a tombstone. */
  lemma {:induction false} LastWriteHolds(o: Overlay, ws: seq<Write>, i: nat)
    requires i < |ws| && forall j :: i < j < |ws| ==> ws[j].e != ws[i].e
    ensures var e, after := ws[i].e, o.ApplyAll(ws);
            match ws[i]
            case Insert(_, data) => e in after.ins && after.ins[e] == data && e !in after.del
            case Delete(_) => e !in after.ins && e in after.del
  {
    if i == |ws| - 1 {
    } else {
      LastWriteHolds(o, ws[..|ws| - 1], i);
      assert ws[|ws| - 1].e != ws[i].e;
    }
  }

  /** Writes to other edges leave an entry alone. */
  lemma {:induction false} UnwrittenStays(o: Overlay, ws: seq<Write>, e: Edge)
    requires forall i :: 0 <= i < |ws| ==> ws[i].e != e
    ensures e in o.ApplyAll(ws).ins <==> e in o.ins
    ensures e in o.ins ==> o.ApplyAll(ws).ins[e] == o.ins[e]
    ensures e in o.ApplyAll(ws).del <==> e in o.del
  {
    if ws == [] {
    } else {
      UnwrittenStays(o, ws[..|ws| - 1], e);
    }
  }

  lemma {:induction false} WrittenAppend(edges: iset<Edge>, ws: seq<Write>, xs: seq<Write>)
    ensures Written(edges, ws + xs) == Written(Written(edges, ws), xs)
  {
    if xs == [] {
      assert ws + xs == ws;
    } else {
      WrittenAppend(edges, ws, xs[..|xs| - 1]);
      assert (ws + xs)[..|ws| + |xs| - 1] == ws + xs[..|xs| - 1];
    }
  }

  /** s lists exactly the members of u, each once. */
  ghost predicate Enumerates<T(!new)>(s: seq<T>, u: set<T>) {
    && (forall i, j :: 0 <= i < j < |s| ==> s[i] != s[j])
    && (forall x :: x in s <==> x in u)
  }

  lemma EnumeratesNothing<T(!new)>(s: seq<T>)
    requires Enumerates(s, {})
    ensures s == []
  {
    if s != [] { HeadMember(s); }
  }

  lemma HeadMember<T>(s: seq<T>)
    requires s != []
    ensures s[0] in s
  {
  }

  /** A concurrent map may list its keys in any order. */
  method Enumerate<T(==, !new)>(u: set<T>) returns (s: seq<T>)
    ensures Enumerates(s, u)
  {
    s := [];
    var rest := u;
    while rest != {}
      invariant rest <= u && Enumerates(s, u - rest)
      decreases |rest|
    {
      var x :| x in rest;
      s := s + [x];
      rest := rest - {x};
    }
  }

  class DeltaLayer {
    var insertions: map<Edge, EdgeData>
    var deletions: set<Edge>
    // the order in which iterating `insertions` currently yields its keys
    var insertionOrder: seq<Edge>

    ghost predicate Valid()
      reads this
    {
      View().Valid() && Enumerates(insertionOrder, insertions.Keys)
    }

    ghost function View(): Overlay
      reads this
    {
      Overlay(insertions, deletions)
    }

    constructor ()
      ensures Valid() && View() == EMPTY_OVERLAY && insertionOrder == []
    {
      insertions, deletions, insertionOrder := map[], {}, [];
    }

    method Insert(from: nat, to: nat, data: EdgeData)
      requires Valid()
      modifies this
      ensures Valid() && View() == old(View()).Apply(Write.Insert(Edge(from, to), data))
    {
      deletions := deletions - {Edge(from, to)};
      insertions := insertions[Edge(from, to) := data];
      insertionOrder := Enumerate(insertions.Keys);
    }

    method Delete(from: nat, to: nat)
      requires Valid()
      modifies this
      ensures Valid() && View() == old(View()).Apply(Write.Delete(Edge(from, to)))
    {
      insertions := insertions - {Edge(from, to)};
      deletions := deletions + {Edge(from, to)};
      insertionOrder := Enumerate(insertions.Keys);
    }

    /** Writers calling `insert` and `delete` one after another. */
    method ApplyWrites(ws: seq<Write>)
      requires Valid()
      modifies this
      ensures Valid() && View() == old(View()).ApplyAll(ws)
      ensures ws == [] ==> insertionOrder == old(insertionOrder)
    {
      for i := 0 to |ws|
        invariant i == 0 ==> insertionOrder == old(insertionOrder)
        invariant Valid() && View() == old(View()).ApplyAll(ws[..i])
      {
        ghost var before := View();
        match ws[i] {
          case Insert(e, data) => Insert(e.src, e.dst, data);
          case Delete(e) => Delete(e.src, e.dst);
        }
        assert ws[..i + 1][..i] == ws[..i];
        assert View() == before.Apply(ws[i]);
      }
      assert ws[..|ws|] == ws;
    }

    method Clear()
      requires Valid()
      modifies this
      ensures Valid() && View() == EMPTY_OVERLAY
    {
      insertions, deletions, insertionOrder := map[], {}, [];
    }

    predicate IsDeleted(from: nat, to: nat)
      reads this
    {
      Edge(from, to) in deletions
    }

    predicate HasInsertion(from: nat, to: nat)
      reads this
    {
      Edge(from, to) in insertions
    }

    predicate IsEmpty()
      reads this
    {
      insertions == map[] && deletions == {}
    }

    /** The inserted targets of a node, in iteration order. */
    method Neighbors(from: nat) returns (ns: seq<nat>)
      requires Valid()
      ensures ns == Targets(insertionOrder, from)
    {
      ns := [];
      for i := 0 to |insertionOrder|
        invariant ns == Targets(insertionOrder[..i], from)
      {
        var e := insertionOrder[i];
        TargetsAppend(insertionOrder[..i], [e], from);
        TargetsOne(e, from);
        assert insertionOrder[..i + 1] == insertionOrder[..i] + [e];
        if e.src == from { ns := ns + [e.dst]; }
      }
      assert insertionOrder[..|insertionOrder|] == insertionOrder;
    }

    method SnapshotInsertions() returns (entries: seq<(Edge, EdgeData)>)
      requires Valid()
      ensures InOrder(entries, insertionOrder, insertions)
    {
      entries := [];
      for i := 0 to |insertionOrder|
        invariant |entries| == i
        invariant forall j :: 0 <= j < i ==>
                    insertionOrder[j] in insertions && entries[j] == (insertionOrder[j], insertions[insertionOrder[j]])
      {
        assert insertionOrder[i] in insertions;
        entries := entries + [(insertionOrder[i], insertions[insertionOrder[i]])];
      }
    }

    method SnapshotDeletions() returns (entries: seq<Edge>)
      requires Valid()
      ensures Enumerates(entries, deletions)
    {
      entries := Enumerate(deletions);
    }

    /** Returns every insertion and removes exactly those. */
    method DrainInsertions() returns (entries: seq<(Edge, EdgeData)>)
      requires Valid()
      modifies this
      ensures Valid() && View() == Overlay(map[], old(deletions))
      ensures InOrder(entries, old(insertionOrder), old(insertions))
    {
      entries := SnapshotInsertions();
      for i := 0 to |entries|
        invariant Valid() && deletions == old(deletions)
        invariant forall e :: e in insertions ==> e in old(insertions) && e !in old(insertionOrder)[..i]
      {
        assert entries[i].0 == old(insertionOrder)[i];
        insertions := insertions - {entries[i].0};
        insertionOrder := Enumerate(insertions.Keys);
      }
      assert old(insertionOrder)[..|entries|] == old(insertionOrder);
      assert insertions.Keys == {};
    }

    /** Returns every tombstone and removes exactly those. */
    method DrainDeletions() returns (entries: seq<Edge>)
      requires Valid()
      modifies this`deletions
      ensures Valid() && View() == Overlay(old(insertions), {}) && insertionOrder == old(insertionOrder)
      ensures Enumerates(entries, old(deletions))
    {
      entries := SnapshotDeletions();
      for i := 0 to |entries|
        invariant Valid()
        invariant forall e :: e in deletions <==> e in old(deletions) && e !in entries[..i]
      {
        deletions := deletions - {entries[i]};
      }
      assert entries[..|entries|] == entries;
    }
  }

  /** The entries of m in the given key order. */
  ghost predicate InOrder(entries: seq<(Edge, EdgeData)>, order: seq<Edge>, m: map<Edge, EdgeData>) {
    && |entries| == |order|
    && forall i :: 0 <= i < |entries| ==> order[i] in m && entries[i] == (order[i], m[order[i]])
  }
}
